/** The edit buffer: an array of bytes with a cursor, edited in place.  Every key
    does to the bytes what it does to the line of characters. */
module EditBuffer {
  import opened Seqs
  import opened Bits
  import opened EditLine

  // --------------------------------------------------------- lengths of clusters, in the bytes

  /** The character that ends at `pos`, found by scanning back to its first byte. */
  method DecodePrev(s: seq<Byte>, pos: nat, ghost left: seq<Scalar>) returns (code: nat, length: nat)
    requires pos <= |s| && s[..pos] == EncodeAll(left)
    ensures length <= pos && (length == 0 <==> left == [])
    ensures left != [] ==> code == left[|left| - 1] && s[..pos - length] == EncodeAll(left[..|left| - 1])
  {
    hide Encode;
    hide EncodeAll;
    NoBytesIfNone(left);
    if pos == 0 {
      return 0, 0;
    }
    ghost var last := left[|left| - 1];
    ghost var n := |Encode(last)|;
    LastEncoded(left);
    LastBytes(s, pos, EncodeAll(left[..|left| - 1]), Encode(last));
    EncodeShape(last);
    var i := pos - 1;
    while i > 0 && pos - i < 4 && Trailing(s[i])
      invariant pos - n <= i < pos
    {
      assert s[i] == s[pos - n..pos][i - (pos - n)];
      i := i - 1;
    }
    assert s[i] == s[pos - n..pos][i - (pos - n)];
    assert i == pos - n;
    length := pos - i;
    DecodeEncoded(last, s[pos..]);
    TailSplits(s, i, pos);
    code := DecodeChar(s[i..]).code;
  }

  lemma TailSplits(s: seq<Byte>, i: nat, j: nat)
    requires i <= j <= |s|
    ensures s[i..] == s[i..j] + s[j..]
  {
  }

  lemma NoBytesIfNone(text: seq<Scalar>)
    ensures EncodeAll(text) == [] <==> text == []
  {
    hide Encode;
    if text != [] {
      assert |Encode(text[0])| >= 1;
    }
  }

  lemma LastBytes(s: seq<Byte>, pos: nat, front: seq<Byte>, last: seq<Byte>)
    requires pos <= |s| && s[..pos] == front + last
    ensures |last| <= pos && s[pos - |last|..pos] == last && s[..pos - |last|] == front
  {
    PrefixOfConcat(front, last);
    assert s[..pos][..pos - |last|] == s[..pos - |last|];
  }

  lemma LastEncoded(left: seq<Scalar>)
    requires left != []
    ensures EncodeAll(left) == EncodeAll(left[..|left| - 1]) + Encode(left[|left| - 1])
  {
    hide Encode;
    hide EncodeAll;
    var k := |left| - 1;
    assert left == left[..k] + [left[k]];
    EncodeSnoc(left[..k], left[k]);
  }

  /** One turn of the walk back through a cluster. */
  lemma JoinedBeforeStep(rest: seq<Scalar>, code: int)
    ensures rest == [] ==> JoinedBefore(rest, code) == 0
    ensures rest != [] ==>
      var k := |rest| - 1;
      JoinedBefore(rest, code) ==
        if IsZwj(rest[k]) then (if k == 0 then 1 else 2 + JoinedBefore(rest[..k][..k - 1], rest[..k][k - 1]))
        else if Extends(code) then 1 + JoinedBefore(rest[..k], rest[k])
        else if IsRegional(code) && IsRegional(rest[k]) then 1
        else 0
  {
    hide Extends;
    if |rest| >= 2 {
      assert rest[..|rest| - 1][..|rest| - 2] == rest[..|rest| - 2];
    }
  }

  lemma PrevClusterStart(left: seq<Scalar>)
    ensures left == [] ==> PrevCluster(left) == 0
    ensures left != [] ==> PrevCluster(left) == 1 + JoinedBefore(left[..|left| - 1], left[|left| - 1])
  {
  }

  /** `rest` is what is before the part of the cluster of `left` found so far. */
  ghost predicate Walked(s: seq<Byte>, left: seq<Scalar>, rest: seq<Scalar>, curpos: nat) {
    curpos <= |s| && s[..curpos] == EncodeAll(rest) && |rest| <= |left| && rest == left[..|rest|]
  }

  method StepBack(s: seq<Byte>, curpos: nat, ghost left: seq<Scalar>, ghost rest: seq<Scalar>)
    returns (code: nat, length: nat)
    requires Walked(s, left, rest, curpos)
    ensures length <= curpos && (length == 0 <==> rest == [])
    ensures rest != [] ==> code == rest[|rest| - 1] && Walked(s, left, rest[..|rest| - 1], curpos - length)
  {
    code, length := DecodePrev(s, curpos, rest);
  }

  /** The length in bytes of the cluster before `pos`. */
  method PrevCharLen(s: seq<Byte>, pos: nat, ghost left: seq<Scalar>) returns (total: nat)
    requires pos <= |s| && s[..pos] == EncodeAll(left)
    ensures total <= pos && s[..pos - total] == EncodeAll(left[..|left| - PrevCluster(left)])
  {
    hide Encode;
    hide EncodeAll;
    hide Extends;
    hide PrevCluster;
    hide JoinedBefore;
    assert left[..|left|] == left;
    NoBytesIfNone(left);
    PrevClusterStart(left);
    if pos == 0 {
      return 0;
    }
    total := 0;
    var curpos := pos;
    var code, cplen := StepBack(s, curpos, left, left);
    ghost var rest := left[..|left| - 1];
    total, curpos := total + cplen, curpos - cplen;
    while curpos > 0
      invariant Walked(s, left, rest, curpos) && total + curpos == pos
      invariant PrevCluster(left) == |left| - |rest| + JoinedBefore(rest, code)
      decreases |rest|
    {
      hide Walked;
      NoBytesIfNone(rest);
      JoinedBeforeStep(rest, code);
      var prevcp, prevlen := StepBack(s, curpos, left, rest);
      if prevlen == 0 {
        break;
      }
      if IsZwj(prevcp) {
        total, curpos, rest := total + prevlen, curpos - prevlen, rest[..|rest| - 1];
        prevcp, prevlen := StepBack(s, curpos, left, rest);
        if prevlen == 0 {
          break;
        }
        total, curpos, rest := total + prevlen, curpos - prevlen, rest[..|rest| - 1];
        code := prevcp;
        continue;
      } else if Extends(code) {
        total, curpos, rest := total + prevlen, curpos - prevlen, rest[..|rest| - 1];
        code := prevcp;
        continue;
      } else if IsRegional(code) && IsRegional(prevcp) {
        total, curpos, rest := total + prevlen, curpos - prevlen, rest[..|rest| - 1];
        break;
      } else {
        break;
      }
    }
    NoBytesIfNone(rest);
    JoinedBeforeStep(rest, code);
  }

  lemma FirstBytes(s: seq<Byte>, pos: nat, len: nat, right: seq<Scalar>)
    requires pos < len <= |s| && s[pos..len] == EncodeAll(right)
    ensures right != [] && var n := |Encode(right[0])|;
      && pos + n <= len && s[pos + n..len] == EncodeAll(right[1..])
      && ByteLength(s[pos]) == n && DecodeChar(s[pos..]) == Decoded(right[0], n)
  {
    hide Encode;
    hide EncodeAll;
    hide DecodeChar;
    hide ByteLength;
    NoBytesIfNone(right);
    EncodeCons(right);
    var first, more := Encode(right[0]), EncodeAll(right[1..]);
    PrefixOfConcat(first, more);
    assert s[pos..len][|first|..] == s[pos + |first|..len];
    EncodeShape(right[0]);
    DecodeEncoded(right[0], s[pos + |first|..]);
    assert s[pos..] == first + s[pos + |first|..];
  }

  /** One turn of the walk on through a cluster. */
  lemma JoinedAfterStep(rest: seq<Scalar>, flag: bool)
    ensures rest == [] ==> JoinedAfter(rest, flag) == 0
    ensures rest != [] ==>
      JoinedAfter(rest, flag) ==
        if IsZwj(rest[0]) && rest[1..] != [] then 2 + JoinedAfter(rest[1..][1..], flag)
        else if Extends(rest[0]) then 1 + JoinedAfter(rest[1..], flag)
        else if flag && IsRegional(rest[0]) then 1 + JoinedAfter(rest[1..], false)
        else 0
  {
    hide Extends;
    if |rest| >= 2 {
      assert rest[1..][1..] == rest[2..];
    }
  }

  lemma NextClusterStart(right: seq<Scalar>)
    ensures right == [] ==> NextCluster(right) == 0
    ensures right != [] ==> NextCluster(right) == 1 + JoinedAfter(right[1..], IsRegional(right[0]))
  {
  }

  /** `rest` is what is after the part of the cluster of `right` found so far. */
  ghost predicate Ahead(s: seq<Byte>, len: nat, right: seq<Scalar>, rest: seq<Scalar>, curpos: nat) {
    && curpos <= len <= |s| && s[curpos..len] == EncodeAll(rest)
    && |rest| <= |right| && rest == right[|right| - |rest|..]
  }

  method StepAhead(s: seq<Byte>, len: nat, curpos: nat, ghost right: seq<Scalar>, ghost rest: seq<Scalar>)
    returns (code: nat, length: nat)
    requires Ahead(s, len, right, rest, curpos) && curpos < len
    ensures rest != [] && code == rest[0] && Ahead(s, len, right, rest[1..], curpos + length)
  {
    hide Encode;
    hide EncodeAll;
    FirstBytes(s, curpos, len, rest);
    var d := DecodeChar(s[curpos..]);
    return d.code, d.length;
  }

  lemma AheadIsEmpty(s: seq<Byte>, len: nat, right: seq<Scalar>, rest: seq<Scalar>, curpos: nat)
    requires Ahead(s, len, right, rest, curpos)
    ensures curpos <= len && (curpos == len <==> rest == [])
  {
    hide EncodeAll;
    NoBytesIfNone(rest);
  }

  /** The length in bytes of the cluster at `pos`. */
  method NextCharLen(s: seq<Byte>, pos: nat, len: nat, ghost right: seq<Scalar>) returns (total: nat)
    requires pos <= len <= |s| && s[pos..len] == EncodeAll(right)
    ensures pos + total <= len && s[pos + total..len] == EncodeAll(right[NextCluster(right)..])
  {
    hide Encode;
    hide EncodeAll;
    hide Extends;
    hide NextCluster;
    hide JoinedAfter;
    assert right[0..] == right;
    AheadIsEmpty(s, len, right, right, pos);
    NextClusterStart(right);
    if pos >= len {
      return 0;
    }
    var code, cplen := StepAhead(s, len, pos, right, right);
    ghost var rest := right[1..];
    total := cplen;
    var curpos: nat, flag := pos + cplen, IsRegional(code);
    AheadIsEmpty(s, len, right, rest, curpos);
    while curpos < len
      invariant Ahead(s, len, right, rest, curpos) && pos + total == curpos && (curpos == len <==> rest == [])
      invariant NextCluster(right) == |right| - |rest| + JoinedAfter(rest, flag)
      decreases |rest|
    {
      hide Ahead;
      JoinedAfterStep(rest, flag);
      var nextcp, nextlen := StepAhead(s, len, curpos, right, rest);
      ghost var after := rest[1..];
      AheadIsEmpty(s, len, right, after, curpos + nextlen);
      if IsZwj(nextcp) && curpos + nextlen < len {
        total, curpos := total + nextlen, curpos + nextlen;
        nextcp, nextlen := StepAhead(s, len, curpos, right, after);
        total, curpos, rest := total + nextlen, curpos + nextlen, after[1..];
        AheadIsEmpty(s, len, right, rest, curpos);
        continue;
      } else if Extends(nextcp) {
        total, curpos, rest := total + nextlen, curpos + nextlen, after;
        continue;
      } else if flag && IsRegional(nextcp) {
        total, curpos, rest := total + nextlen, curpos + nextlen, after;
        flag := false;
        continue;
      } else {
        break;
      }
    }
    JoinedAfterStep(rest, flag);
    assert rest == right[NextCluster(right)..];
  }

  // ------------------------------------------------------------------------------ the buffer

  lemma BytesOfSlices(bytes: seq<Byte>, text: seq<Scalar>, from: nat, mid: nat, to: nat, k: nat)
    requires from <= mid <= to <= |bytes| && k <= |text|
    requires bytes[from..to] == EncodeAll(text) && bytes[from..mid] == EncodeAll(text[..k])
    ensures bytes[mid..to] == EncodeAll(text[k..])
  {
    hide EncodeAll;
    EncodeSplit(text, k);
    PrefixOfConcat(EncodeAll(text[..k]), EncodeAll(text[k..]));
    assert bytes[from..to][mid - from..] == bytes[mid..to];
    assert bytes[from..to][..mid - from] == bytes[from..mid];
  }

  /** `s` with `bytes` written over it from `at` on. */
  function Spliced(s: seq<Byte>, at: nat, bytes: seq<Byte>): (r: seq<Byte>)
    requires at + |bytes| <= |s|
    ensures |r| == |s|
  {
    s[..at] + bytes + s[at + |bytes|..]
  }

  /** Bytes written over the front of a stretch, after the stretch was moved up to make room. */
  lemma MovedAndCopied(s: seq<Byte>, pos: nat, len: nat, bytes: seq<Byte>)
    requires pos <= len && len + |bytes| <= |s|
    ensures var after := Spliced(Spliced(s, pos + |bytes|, s[pos..len]), pos, bytes);
      after[..pos + |bytes|] == s[..pos] + bytes && after[pos + |bytes|..len + |bytes|] == s[pos..len]
  {
    var moved := Spliced(s, pos + |bytes|, s[pos..len]);
    assert moved[pos + |bytes|..len + |bytes|] == s[pos..len];
    assert moved[..pos] == s[..pos];
  }

  lemma CopiedAtEnd(s: seq<Byte>, pos: nat, bytes: seq<Byte>)
    requires pos + |bytes| <= |s|
    ensures var after := Spliced(s, pos, bytes);
      after[..pos + |bytes|] == s[..pos] + bytes && after[pos + |bytes|..pos + |bytes|] == s[pos..pos]
  {
  }

  lemma ClosedGap(s: seq<Byte>, from: nat, to: nat, n: nat)
    requires from <= to && to + n <= |s|
    ensures var after := Spliced(s, from, s[to..to + n]);
      after[..from] == s[..from] && after[from..from + n] == s[to..to + n]
  {
  }

  /** Two neighbouring stretches changed round: the first moved up, then the second written before it. */
  lemma ChangedRound(s: seq<Byte>, start: nat, mid: nat, end: nat)
    requires start <= mid <= end <= |s|
    ensures var after := Spliced(Spliced(s, start + (end - mid), s[start..mid]), start, s[mid..end]);
      && after[..end] == s[..start] + (s[mid..end] + s[start..mid])
      && after[end..] == s[end..]
  {
    var moved := Spliced(s, start + (end - mid), s[start..mid]);
    assert moved[start + (end - mid)..end] == s[start..mid];
    assert moved[..start] == s[..start] && moved[end..] == s[end..];
  }

  lemma SameTail(s: seq<Byte>, t: seq<Byte>, from: nat, to: nat)
    requires from <= to < |s| && |s| == |t| && s[from..] == t[from..]
    ensures s[from..to] == t[from..to] && s[to] == t[to]
  {
    assert s[from..][..to - from] == s[from..to] && t[from..][..to - from] == t[from..to];
    assert s[from..][to - from] == s[to] && t[from..][to - from] == t[to];
  }

  lemma SlicesOf(a: array<Byte>, i: nat, j: nat)
    requires i <= j <= a.Length
    ensures a[..][..i] == a[..i] && a[..][i..j] == a[i..j]
  {
  }

  lemma FrontOfSlice(bytes: seq<Byte>, text: seq<Scalar>, from: nat, mid: nat, to: nat, k: nat)
    requires from <= mid <= to <= |bytes| && k <= |text|
    requires bytes[from..to] == EncodeAll(text) && bytes[mid..to] == EncodeAll(text[k..])
    ensures bytes[from..mid] == EncodeAll(text[..k])
  {
    hide EncodeAll;
    EncodeSplit(text, k);
    PrefixOfConcat(EncodeAll(text[..k]), EncodeAll(text[k..]));
    assert bytes[from..to][mid - from..] == bytes[mid..to];
    assert bytes[from..to][..mid - from] == bytes[from..mid];
  }

  /** A space is the only character whose bytes end in a space. */
  lemma LastByteIsSpace(s: seq<Byte>, pos: nat, left: seq<Scalar>)
    requires pos <= |s| && s[..pos] == EncodeAll(left)
    ensures left == [] <==> pos == 0
    ensures left != [] ==> (s[pos - 1] == 0x20 <==> left[|left| - 1] == 0x20)
  {
    hide EncodeAll;
    NoBytesIfNone(left);
    if left != [] {
      var b := Encode(left[|left| - 1]);
      LastEncoded(left);
      LastBytes(s, pos, EncodeAll(left[..|left| - 1]), b);
      EncodeShape(left[|left| - 1]);
      assert s[pos - 1] == s[pos - |b|..pos][|b| - 1];
      assert |b| == 1 ==> b[0] == left[|left| - 1];
    }
  }

  lemma EncodeThree(a: seq<Scalar>, b: seq<Scalar>, c: seq<Scalar>)
    ensures EncodeAll(a + (b + c)) == EncodeAll(a) + (EncodeAll(b) + EncodeAll(c))
  {
    hide EncodeAll;
    EncodeConcat(a, b + c);
    EncodeConcat(b, c);
  }

  const TMP_SIZE: nat := 32

  datatype Outcome = Fine | Overrun

  lemma SwapPressed(line: Line, capacity: nat)
    ensures var back, ahead := |line.left| - PrevCluster(line.left), NextCluster(line.right);
      Press(line, Swap, capacity) ==
        if line.left == [] || line.right == [] then line
        else Line(line.left[..back] + (line.right[..ahead] + line.left[back..]), line.right[ahead..])
  {
  }

  /** The cluster that a swap copies to its temporary buffer fits it; at the front
      of the line nothing is swapped. */
  ghost predicate SwapFits(line: Line) {
    line.left != [] ==> |EncodeAll(line.right[..NextCluster(line.right)])| <= TMP_SIZE
  }

  class EditState {
    const buf: array<Byte>
    const buflen: nat
    var pos: nat
    var len: nat
    ghost var line: Line

    /** Cursor and length are in range, the terminator is in place, and the bytes
        left and right of the cursor are the characters there, in UTF-8. */
    ghost predicate Valid()
      reads this, buf
    {
      && buf.Length == buflen + 1
      && pos <= len <= buflen
      && buf[len] == 0
      && buf[..pos] == EncodeAll(line.left)
      && buf[pos..len] == EncodeAll(line.right)
    }

    constructor (storage: array<Byte>)
      requires storage.Length > 0
      modifies storage
      ensures Valid() && buf == storage && line == Line([], [])
    {
      buf, buflen, pos, len := storage, storage.Length - 1, 0, 0;
      line := Line([], []);
      new;
      buf[0] := 0;
    }

    method Memmove(dst: nat, src: nat, n: nat)
      requires dst + n <= buf.Length && src + n <= buf.Length
      modifies buf
      ensures buf[..] == Spliced(old(buf[..]), dst, old(buf[..])[src..src + n])
    {
      forall i | 0 <= i < n {
        buf[dst + i] := buf[src + i];
      }
    }

    method Memcpy(dst: nat, bytes: seq<Byte>)
      requires dst + |bytes| <= buf.Length
      modifies buf
      ensures buf[..] == Spliced(old(buf[..]), dst, bytes)
    {
      forall i | 0 <= i < |bytes| {
        buf[dst + i] := bytes[i];
      }
    }

    /** Set the length, the cursor and the terminator; the bytes up to there are in place. */
    method Settle(newPos: nat, newLen: nat, ghost newLine: Line)
      requires buf.Length == buflen + 1 && newPos <= newLen <= buflen
      requires buf[..newPos] == EncodeAll(newLine.left) && buf[newPos..newLen] == EncodeAll(newLine.right)
      modifies this, buf
      ensures Valid() && line == newLine
    {
      hide EncodeAll;
      pos, len, line := newPos, newLen, newLine;
      buf[len] := 0;
    }

    /** The array side of an insertion: at the end of the line, or with the rest moved up. */
    method InsertBytes(bytes: seq<Byte>)
      requires pos <= len && len + |bytes| <= buf.Length
      modifies buf
      ensures buf[..pos + |bytes|] == old(buf[..pos]) + bytes
      ensures buf[pos + |bytes|..len + |bytes|] == old(buf[pos..len])
    {
      hide Spliced;
      SlicesOf(buf, pos, len);
      if len == pos {
        CopiedAtEnd(buf[..], pos, bytes);
        Memcpy(pos, bytes);
      } else {
        MovedAndCopied(buf[..], pos, len, bytes);
        Memmove(pos + |bytes|, pos, len - pos);
        Memcpy(pos, bytes);
      }
      SlicesOf(buf, pos + |bytes|, len + |bytes|);
    }

    method EditInsert(c: Scalar)
      requires Valid()
      modifies this, buf
      ensures Valid() && line == Press(old(line), Insert(c), buflen)
    {
      hide Encode;
      hide EncodeAll;
      hide SkipBack;
      var bytes := Encode(c);
      EncodeConcat(line.left, line.right);
      if len + |bytes| <= buflen {
        EncodeSnoc(line.left, c);
        InsertBytes(bytes);
        Settle(pos + |bytes|, len + |bytes|, Line(line.left + [c], line.right));
      }
    }

    method EditMoveLeft()
      requires Valid()
      modifies this
      ensures Valid() && line == Press(old(line), MoveLeft, buflen)
    {
      hide EncodeAll;
      hide PrevCluster;
      NoBytesIfNone(line.left);
      if pos > 0 {
        var n := PrevCharLen(buf[..], pos, line.left);
        ghost var back := |line.left| - PrevCluster(line.left);
        BytesOfSlices(buf[..], line.left, 0, pos - n, pos, back);
        EncodeConcat(line.left[back..], line.right);
        assert buf[pos - n..len] == buf[pos - n..pos] + buf[pos..len];
        pos := pos - n;
        line := Line(line.left[..back], line.left[back..] + line.right);
      }
    }

    method EditMoveRight()
      requires Valid()
      modifies this
      ensures Valid() && line == Press(old(line), MoveRight, buflen)
    {
      hide EncodeAll;
      hide NextCluster;
      hide SkipBack;
      AheadIsEmpty(buf[..], len, line.right, line.right, pos);
      if pos != len {
        var n := NextCharLen(buf[..], pos, len, line.right);
        ghost var ahead := NextCluster(line.right);
        FrontOfSlice(buf[..], line.right, pos, pos + n, len, ahead);
        EncodeConcat(line.left, line.right[..ahead]);
        assert buf[..pos + n] == buf[..pos] + buf[pos..pos + n];
        pos := pos + n;
        line := Line(line.left + line.right[..ahead], line.right[ahead..]);
      }
    }

    method EditMoveHome()
      requires Valid()
      modifies this
      ensures Valid() && line == Press(old(line), MoveHome, buflen)
    {
      hide EncodeAll;
      hide SkipBack;
      NoBytesIfNone(line.left);
      NoBytesIfNone([]);
      EncodeConcat(line.left, line.right);
      assert buf[0..len] == buf[..pos] + buf[pos..len];
      if pos != 0 {
        pos := 0;
      }
      line := Line([], line.left + line.right);
    }

    method EditMoveEnd()
      requires Valid()
      modifies this
      ensures Valid() && line == Press(old(line), MoveEnd, buflen)
    {
      hide EncodeAll;
      hide SkipBack;
      NoBytesIfNone([]);
      EncodeConcat(line.left, line.right);
      assert buf[..len] == buf[..pos] + buf[pos..len];
      if pos != len {
        pos := len;
      }
      line := Line(line.left + line.right, []);
    }

    /** The array side of a deletion: `n` bytes from `to` on are moved down to `from`. */
    method CloseGap(from: nat, to: nat, n: nat)
      requires from <= to && to + n <= buf.Length
      modifies buf
      ensures buf[..from] == old(buf[..from]) && buf[from..from + n] == old(buf[to..to + n])
    {
      hide Spliced;
      ClosedGap(buf[..], from, to, n);
      SlicesOf(buf, to, to + n);
      SlicesOf(buf, from, from + n);
      Memmove(from, to, n);
      SlicesOf(buf, from, from + n);
    }

    method EditDelete()
      requires Valid()
      modifies this, buf
      ensures Valid() && line == Press(old(line), Delete, buflen)
    {
      hide EncodeAll;
      hide NextCluster;
      hide SkipBack;
      AheadIsEmpty(buf[..], len, line.right, line.right, pos);
      if len > 0 && pos < len {
        var clen := NextCharLen(buf[..], pos, len, line.right);
        CloseGap(pos, pos + clen, len - pos - clen);
        Settle(pos, len - clen, Line(line.left, line.right[NextCluster(line.right)..]));
      }
    }

    method EditBackspace()
      requires Valid()
      modifies this, buf
      ensures Valid() && line == Press(old(line), Backspace, buflen)
    {
      hide EncodeAll;
      hide PrevCluster;
      hide SkipBack;
      NoBytesIfNone(line.left);
      if pos > 0 && len > 0 {
        var clen := PrevCharLen(buf[..], pos, line.left);
        CloseGap(pos - clen, pos, len - pos);
        Settle(pos - clen, len - clen, Line(line.left[..|line.left| - PrevCluster(line.left)], line.right));
      }
    }

    /** Move the cursor back over clusters while the byte before it is (or is not) a space. */
    method SkipBackBytes(spaces: bool, ghost left: seq<Scalar>) returns (ghost rest: seq<Scalar>)
      requires pos <= buf.Length && buf[..pos] == EncodeAll(left)
      modifies this`pos
      ensures pos <= old(pos) && buf[..pos] == EncodeAll(rest) && rest == SkipBack(left, spaces)
    {
      hide EncodeAll;
      hide PrevCluster;
      rest := left;
      LastByteIsSpace(buf[..], pos, rest);
      while pos > 0 && (buf[pos - 1] == 0x20) == spaces
        invariant pos <= old(pos) && buf[..pos] == EncodeAll(rest)
        invariant SkipBack(rest, spaces) == SkipBack(left, spaces)
        invariant rest == [] <==> pos == 0
        invariant rest != [] ==> (buf[pos - 1] == 0x20 <==> rest[|rest| - 1] == 0x20)
        decreases |rest|
      {
        var n := PrevCharLen(buf[..], pos, rest);
        pos := pos - n;
        rest := rest[..|rest| - PrevCluster(rest)];
        LastByteIsSpace(buf[..], pos, rest);
      }
    }

    method EditDeletePrevWord()
      requires Valid()
      modifies this, buf
      ensures Valid() && line == Press(old(line), DeletePrevWord, buflen)
    {
      hide EncodeAll;
      hide SkipBack;
      var oldPos := pos;
      ghost var middle := SkipBackBytes(true, line.left);
      ghost var rest := SkipBackBytes(false, middle);
      var diff := oldPos - pos;
      var n := len - oldPos + 1;
      CloseGap(pos, oldPos, n);
      len := len - diff;
      line := Line(rest, line.right);
      assert buf[pos..len] == buf[pos..pos + n][..n - 1];
      assert buf[len] == buf[pos..pos + n][n - 1];
    }

    /** The clusters on both sides of the cursor change places, or the temporary
        buffer is too small for the second; the copy that would overrun it is not made. */
    method EditSwap() returns (r: Outcome)
      requires Valid()
      modifies this, buf
      ensures r == Overrun <==> !SwapFits(old(line))
      ensures Valid() && line == if r == Overrun then old(line) else Press(old(line), Swap, buflen)
    {
      hide EncodeAll;
      hide PrevCluster;
      hide NextCluster;
      hide Press;
      SwapPressed(line, buflen);
      NoBytesIfNone(line.left);
      AheadIsEmpty(buf[..], len, line.right, line.right, pos);
      if pos > 0 && pos < len {
        var prevlen := PrevCharLen(buf[..], pos, line.left);
        var currlen := NextCharLen(buf[..], pos, len, line.right);
        ghost var back, ahead := |line.left| - PrevCluster(line.left), NextCluster(line.right);
        BytesOfSlices(buf[..], line.left, 0, pos - prevlen, pos, back);
        FrontOfSlice(buf[..], line.right, pos, pos + currlen, len, ahead);
        if currlen > TMP_SIZE {
          return Overrun;
        }
        SwapClusters(pos - prevlen, currlen, line.left[..back], line.left[back..], line.right[..ahead]);
        ghost var swapped := Line(line.left[..back] + (line.right[..ahead] + line.left[back..]), line.right[ahead..]);
        assert swapped == Press(line, Swap, buflen);
        assert buf[..pos + currlen] == EncodeAll(swapped.left) && buf[pos + currlen..len] == EncodeAll(swapped.right);
        StepOver(currlen, swapped);
      }
      return Fine;
    }

    /** Move the cursor past the exchanged clusters, whose bytes are in place. */
    method StepOver(currlen: nat, ghost swapped: Line)
      requires buf.Length == buflen + 1 && pos + currlen <= len <= buflen && buf[len] == 0
      requires buf[..pos + currlen] == EncodeAll(swapped.left) && buf[pos + currlen..len] == EncodeAll(swapped.right)
      modifies this`pos, this`line
      ensures Valid() && line == swapped
    {
      hide EncodeAll;
      line := swapped;
      if pos + currlen <= len {
        pos := pos + currlen;
      }
    }

    /** The bytes of `before` stay; those of `prev` and `curr` change places. */
    method SwapClusters(start: nat, currlen: nat, ghost before: seq<Scalar>, ghost prev: seq<Scalar>,
        ghost curr: seq<Scalar>)
      requires start <= pos && pos + currlen <= len < buf.Length && currlen <= TMP_SIZE
      requires buf[..start] == EncodeAll(before) && buf[start..pos] == EncodeAll(prev)
      requires buf[pos..pos + currlen] == EncodeAll(curr)
      modifies buf
      ensures buf[..pos + currlen] == EncodeAll(before + (curr + prev))
      ensures buf[pos + currlen..len] == old(buf[pos + currlen..len]) && buf[len] == old(buf[len])
    {
      hide EncodeAll;
      EncodeThree(before, curr, prev);
      SwapBytes(start, currlen);
    }

    method SwapBytes(start: nat, currlen: nat)
      requires start <= pos && pos + currlen <= len < buf.Length && currlen <= TMP_SIZE
      modifies buf
      ensures buf[..pos + currlen] == old(buf[..start]) + (old(buf[pos..pos + currlen]) + old(buf[start..pos]))
      ensures buf[pos + currlen..len] == old(buf[pos + currlen..len]) && buf[len] == old(buf[len])
    {
      hide Spliced;
      var tmp := buf[pos..pos + currlen];
      ChangedRound(buf[..], start, pos, pos + currlen);
      SlicesOf(buf, start, pos);
      SlicesOf(buf, pos, pos + currlen);
      SlicesOf(buf, pos + currlen, len);
      ghost var before := buf[..];
      Memmove(start + currlen, start, pos - start);
      Memcpy(start, tmp);
      SlicesOf(buf, start, pos + currlen);
      SameTail(before, buf[..], pos + currlen, len);
      SlicesOf(buf, pos + currlen, len);
    }

    method EditKillLine()
      requires Valid()
      modifies this, buf
      ensures Valid() && line == Press(old(line), KillLine, buflen)
    {
      NoBytesIfNone([]);
      buf[0] := 0;
      pos, len := 0, 0;
      line := Line([], []);
    }

    method EditKillToEnd()
      requires Valid()
      modifies this, buf
      ensures Valid() && line == Press(old(line), KillToEnd, buflen)
    {
      hide EncodeAll;
      hide SkipBack;
      NoBytesIfNone([]);
      buf[pos] := 0;
      len := pos;
      line := Line(line.left, []);
    }

    /** One key of the editor. */
    method Feed(key: Key) returns (r: Outcome)
      requires Valid()
      modifies this, buf
      ensures r == Overrun <==> key.Swap? && !SwapFits(old(line))
      ensures Valid() && line == if r == Overrun then old(line) else Press(old(line), key, buflen)
    {
      r := Fine;
      match key
      case Insert(c) => EditInsert(c);
      case MoveLeft => EditMoveLeft();
      case MoveRight => EditMoveRight();
      case MoveHome => EditMoveHome();
      case MoveEnd => EditMoveEnd();
      case Delete => EditDelete();
      case Backspace => EditBackspace();
      case DeletePrevWord => EditDeletePrevWord();
      case Swap => r := EditSwap();
      case KillLine => EditKillLine();
      case KillToEnd => EditKillToEnd();
    }

    /** Any sequence of keys does to the buffer what it does to the line, up to the
        first swap that overruns its temporary buffer; `done` keys were handled. */
    method FeedAll(keys: seq<Key>) returns (done: nat)
      requires Valid()
      modifies this, buf
      ensures done <= |keys| && (done == |keys| <==> SwapsFit(old(line), keys, buflen))
      ensures Valid() && line == PressAll(old(line), keys[..done], buflen)
      ensures done < |keys| ==> keys[done].Swap? && !SwapFits(line) && SwapsFit(old(line), keys[..done], buflen)
    {
      hide Press;
      hide SwapFits;
      done := 0;
      while done < |keys|
        invariant done <= |keys| && Valid()
        invariant line == PressAll(old(line), keys[..done], buflen) && SwapsFit(old(line), keys[..done], buflen)
      {
        OneMoreKey(old(line), keys, done, buflen);
        var r := Feed(keys[done]);
        if r == Overrun {
          return;
        }
        done := done + 1;
      }
      assert keys[..done] == keys;
    }
  }

  function PressAll(line: Line, keys: seq<Key>, capacity: nat): Line
    decreases |keys|
  {
    if keys == [] then line else PressAll(Press(line, keys[0], capacity), keys[1..], capacity)
  }

  /** Every swap of the run fits the temporary buffer. */
  ghost predicate SwapsFit(line: Line, keys: seq<Key>, capacity: nat)
    decreases |keys|
  {
    keys == [] || ((keys[0].Swap? ==> SwapFits(line)) && SwapsFit(Press(line, keys[0], capacity), keys[1..], capacity))
  }

  lemma {:induction false} PressAllConcat(line: Line, a: seq<Key>, b: seq<Key>, capacity: nat)
    ensures PressAll(line, a + b, capacity) == PressAll(PressAll(line, a, capacity), b, capacity)
    ensures SwapsFit(line, a + b, capacity) <==>
      SwapsFit(line, a, capacity) && SwapsFit(PressAll(line, a, capacity), b, capacity)
    decreases |a|
  {
    hide Press;
    hide SwapFits;
    if a == [] {
      assert a + b == b;
    } else {
      assert (a + b)[0] == a[0] && (a + b)[1..] == a[1..] + b;
      PressAllConcat(Press(line, a[0], capacity), a[1..], b, capacity);
    }
  }

  lemma OneKey(line: Line, key: Key, capacity: nat)
    ensures PressAll(line, [key], capacity) == Press(line, key, capacity)
    ensures SwapsFit(line, [key], capacity) <==> (key.Swap? ==> SwapFits(line))
  {
    hide Press;
    hide SwapFits;
    assert [key][1..] == [];
  }

  lemma OneMoreKey(line: Line, keys: seq<Key>, k: nat, capacity: nat)
    requires k < |keys|
    ensures var now := PressAll(line, keys[..k], capacity);
      && PressAll(line, keys[..k + 1], capacity) == Press(now, keys[k], capacity)
      && (SwapsFit(line, keys[..k + 1], capacity) <==>
           SwapsFit(line, keys[..k], capacity) && (keys[k].Swap? ==> SwapFits(now)))
      && (SwapsFit(line, keys, capacity) ==> SwapsFit(line, keys[..k + 1], capacity))
  {
    hide Press;
    hide SwapFits;
    hide PressAll;
    hide SwapsFit;
    SnocPrefix(keys, k);
    SplitAt(keys, k + 1);
    PressAllConcat(line, keys[..k], [keys[k]], capacity);
    PressAllConcat(line, keys[..k + 1], keys[k + 1..], capacity);
    OneKey(PressAll(line, keys[..k], capacity), keys[k], capacity);
  }

  /** The line never outgrows the buffer, whatever is typed. */
  lemma {:induction false} LineFits(line: Line, keys: seq<Key>, capacity: nat)
    requires |EncodeAll(Text(line))| <= capacity
    ensures |EncodeAll(Text(PressAll(line, keys, capacity)))| <= capacity
    decreases |keys|
  {
    hide Press;
    if keys != [] {
      KeyFits(line, keys[0], capacity);
      LineFits(Press(line, keys[0], capacity), keys[1..], capacity);
    }
  }

  lemma KeyFits(line: Line, key: Key, capacity: nat)
    requires |EncodeAll(Text(line))| <= capacity
    ensures |EncodeAll(Text(Press(line, key, capacity)))| <= capacity
  {
    hide EncodeAll;
    hide Encode;
    hide SkipBack;
    hide PrevCluster;
    hide NextCluster;
    var left, right := line.left, line.right;
    var back, ahead := |left| - PrevCluster(left), NextCluster(right);
    EncodeConcat(left, right);
    EncodeSplit(left, back);
    EncodeSplit(right, ahead);
    NoBytesIfNone([]);
    match key
    case Insert(c) =>
      EncodeSnoc(left, c);
      EncodeConcat(left + [c], right);
    case Delete => EncodeConcat(left, right[ahead..]);
    case Backspace => EncodeConcat(left[..back], right);
    case DeletePrevWord =>
      var middle := SkipBack(left, true);
      var rest := SkipBack(middle, false);
      EncodeSplit(left, |middle|);
      EncodeSplit(middle, |rest|);
      EncodeConcat(rest, right);
    case Swap =>
      EncodeConcat(left[..back], right[..ahead] + left[back..]);
      EncodeConcat(right[..ahead], left[back..]);
      EncodeConcat(left[..back] + (right[..ahead] + left[back..]), right[ahead..]);
    case KillLine => assert Text(Line([], [])) == [];
    case KillToEnd => assert left + [] == left;
    case _ => MovesKeepText(line, key, capacity);
  }

  /** Clusters have no largest size: a letter with `marks` combining accents is one. */
  lemma {:induction false} ClustersAreUnbounded(marks: nat)
    ensures var right := [0x65] + seq(marks, _ => 0x300);
      NextCluster(right) == |right| && |EncodeAll(right)| == 1 + 2 * marks
  {
    var right, accents := [0x65] + seq(marks, _ => 0x300), seq(marks, _ => 0x300);
    assert right[1..] == accents;
    AccentsJoin(accents);
    assert |Encode(0x65)| == 1;
  }

  lemma {:induction false} AccentsJoin(accents: seq<Scalar>)
    requires forall i :: 0 <= i < |accents| ==> accents[i] == 0x300
    ensures JoinedAfter(accents, false) == |accents| && |EncodeAll(accents)| == 2 * |accents|
  {
    if accents != [] {
      AccentsJoin(accents[1..]);
      assert |Encode(accents[0])| == 2;
    }
  }

  lemma SwapNeedsItsLimit()
    ensures !SwapFits(Line([0x61], [0x65] + seq(16, _ => 0x300)))
  {
    ClustersAreUnbounded(16);
    var right := [0x65] + seq(16, _ => 0x300);
    assert right[..|right|] == right;
  }
}
