/** The line being edited, as characters left and right of the cursor, and its
    UTF-8 form (section 3 of RFC 3629). */
module EditLine {
  import opened Arith
  import opened Bits
  import opened Seqs

  /** A Unicode scalar value. */
  type Scalar = c: int | 0 <= c < 0xD800 || 0xE000 <= c < 0x11_0000

  function Encode(c: Scalar): (b: seq<Byte>)
    ensures 1 <= |b| <= 4
  {
    if c < 0x80 then [c]
    else if c < 0x800 then [0xC0 + c / 0x40, 0x80 + c % 0x40]
    else if c < 0x1_0000 then [0xE0 + c / 0x1000, 0x80 + c / 0x40 % 0x40, 0x80 + c % 0x40]
    else [0xF0 + c / 0x4_0000, 0x80 + c / 0x1000 % 0x40, 0x80 + c / 0x40 % 0x40, 0x80 + c % 0x40]
  }

  function EncodeAll(text: seq<Scalar>): seq<Byte> {
    if text == [] then [] else Encode(text[0]) + EncodeAll(text[1..])
  }

  lemma {:induction false} EncodeConcat(a: seq<Scalar>, b: seq<Scalar>)
    ensures EncodeAll(a + b) == EncodeAll(a) + EncodeAll(b)
  {
    hide Encode;
    if a == [] {
      assert a + b == b;
    } else {
      assert (a + b)[0] == a[0] && (a + b)[1..] == a[1..] + b;
      EncodeConcat(a[1..], b);
      Reassociate(Encode(a[0]), EncodeAll(a[1..]), EncodeAll(b));
    }
  }

  lemma EncodeCons(text: seq<Scalar>)
    requires text != []
    ensures EncodeAll(text) == Encode(text[0]) + EncodeAll(text[1..])
  {
    hide Encode;
  }

  lemma EncodeOne(c: Scalar)
    ensures EncodeAll([c]) == Encode(c)
  {
    assert [c][1..] == [];
  }

  lemma EncodeSplit(text: seq<Scalar>, k: nat)
    requires k <= |text|
    ensures EncodeAll(text) == EncodeAll(text[..k]) + EncodeAll(text[k..])
  {
    hide EncodeAll;
    SplitAt(text, k);
    EncodeConcat(text[..k], text[k..]);
  }

  lemma EncodeSnoc(text: seq<Scalar>, c: Scalar)
    ensures EncodeAll(text + [c]) == EncodeAll(text) + Encode(c)
  {
    hide EncodeAll;
    hide Encode;
    EncodeConcat(text, [c]);
    EncodeOne(c);
  }

  // ---------------------------------------------------------------------------- characters back

  predicate Trailing(b: int) { 0x80 <= b < 0xC0 }

  /** The length a first byte announces; anything malformed counts as one byte. */
  function ByteLength(b: Byte): (n: nat)
    ensures 1 <= n <= 4
  {
    if 0xC0 <= b < 0xE0 then 2 else if 0xE0 <= b < 0xF0 then 3 else if 0xF0 <= b < 0xF8 then 4 else 1
  }

  datatype Decoded = Decoded(code: nat, length: nat)

  /** The payload bits of a trailing byte. */
  function Low6(b: Byte): nat { b % 0x40 }

  function DecodeChar(s: seq<Byte>): Decoded
    requires s != [] && ByteLength(s[0]) <= |s|
  {
    var n := ByteLength(s[0]);
    var code :=
      if n == 2 then s[0] % 0x20 * 0x40 + Low6(s[1])
      else if n == 3 then s[0] % 0x10 * 0x1000 + Low6(s[1]) * 0x40 + Low6(s[2])
      else if n == 4 then s[0] % 8 * 0x4_0000 + Low6(s[1]) * 0x1000 + Low6(s[2]) * 0x40 + Low6(s[3])
      else s[0];
    Decoded(code, n)
  }

  lemma EncodeShape(c: Scalar)
    ensures var b := Encode(c);
      ByteLength(b[0]) == |b| && !Trailing(b[0]) && forall k :: 1 <= k < |b| ==> Trailing(b[k])
  {
  }

  lemma DecodeEncoded(c: Scalar, more: seq<Byte>)
    ensures ByteLength((Encode(c) + more)[0]) <= |Encode(c) + more|
    ensures DecodeChar(Encode(c) + more) == Decoded(c, |Encode(c)|)
  {
    EncodeShape(c);
    var b, s := Encode(c), Encode(c) + more;
    assert forall k :: 0 <= k < |b| ==> s[k] == b[k];
    PayloadBack(c);
  }

  /** Dividing by `0x40` takes off the last digit in base `0x40`. */
  lemma DigitOff(c: nat, m: nat, q: nat)
    requires m > 0 && q == c / (m * 0x40)
    ensures c / m == q * 0x40 + c / m % 0x40
  {
    var r := c % (m * 0x40);
    DivMod(c, m * 0x40);
    DivMod(r, m);
    assert r < 0x40 * m;
    DivBounds(r, m, 0, 0x40);
    assert q * (m * 0x40) == (q * 0x40) * m;
    assert c == (q * 0x40 + r / m) * m + r % m;
    DivModIs(c, m, q * 0x40 + r / m, r % m);
    DivModIs(c / m, 0x40, q, r / m);
  }

  lemma LeadPayload(q: nat)
    ensures q < 0x20 ==> (0xC0 + q) % 0x20 == q
    ensures q < 0x10 ==> (0xE0 + q) % 0x10 == q
    ensures q < 8 ==> (0xF0 + q) % 8 == q
    ensures q < 0x40 ==> (0x80 + q) % 0x40 == q
  {
  }

  lemma Digits64(c: nat)
    ensures c == c / 0x40 * 0x40 + c % 0x40
    ensures c / 0x40 == c / 0x1000 * 0x40 + c / 0x40 % 0x40
    ensures c / 0x1000 == c / 0x4_0000 * 0x40 + c / 0x1000 % 0x40
  {
    DigitOff(c, 0x40, c / 0x1000);
    DigitOff(c, 0x1000, c / 0x4_0000);
  }

  /** The payload bits, put together again. */
  lemma PayloadBack(c: Scalar)
    ensures var b := Encode(c);
      c == if |b| == 1 then b[0]
           else if |b| == 2 then b[0] % 0x20 * 0x40 + Low6(b[1])
           else if |b| == 3 then b[0] % 0x10 * 0x1000 + Low6(b[1]) * 0x40 + Low6(b[2])
           else b[0] % 8 * 0x4_0000 + Low6(b[1]) * 0x1000 + Low6(b[2]) * 0x40 + Low6(b[3])
  {
    if 0x80 <= c < 0x800 {
      TwoBack(c);
    } else if 0x800 <= c < 0x1_0000 {
      ThreeBack(c);
    } else if c >= 0x1_0000 {
      FourBack(c);
    }
  }

  lemma TwoBack(c: nat)
    requires c < 0x800
    ensures c == (0xC0 + c / 0x40) % 0x20 * 0x40 + (0x80 + c % 0x40) % 0x40
  {
    LeadPayload(c / 0x40);
    LeadPayload(c % 0x40);
  }

  lemma ThreeBack(c: nat)
    requires c < 0x1_0000
    ensures c == (0xE0 + c / 0x1000) % 0x10 * 0x1000 + (0x80 + c / 0x40 % 0x40) % 0x40 * 0x40 + (0x80 + c % 0x40) % 0x40
  {
    LeadPayload(c / 0x1000);
    LeadPayload(c / 0x40 % 0x40);
    LeadPayload(c % 0x40);
    Digits64(c);
  }

  lemma FourBack(c: nat)
    requires c < 0x20_0000
    ensures c == (0xF0 + c / 0x4_0000) % 8 * 0x4_0000 + (0x80 + c / 0x1000 % 0x40) % 0x40 * 0x1000
      + (0x80 + c / 0x40 % 0x40) % 0x40 * 0x40 + (0x80 + c % 0x40) % 0x40
  {
    LeadPayload(c / 0x4_0000);
    LeadPayload(c / 0x1000 % 0x40);
    LeadPayload(c / 0x40 % 0x40);
    LeadPayload(c % 0x40);
    Digits64(c);
  }

  /** The encoding loses nothing: different texts have different bytes. */
  lemma {:induction false} EncodeInjective(a: seq<Scalar>, b: seq<Scalar>)
    requires EncodeAll(a) == EncodeAll(b)
    ensures a == b
  {
    hide Encode;
    hide DecodeChar;
    if a != [] && b != [] {
      DecodeEncoded(a[0], EncodeAll(a[1..]));
      DecodeEncoded(b[0], EncodeAll(b[1..]));
      PrefixOfConcat(Encode(a[0]), EncodeAll(a[1..]));
      PrefixOfConcat(Encode(b[0]), EncodeAll(b[1..]));
      EncodeInjective(a[1..], b[1..]);
      HeadTail(a);
      HeadTail(b);
    }
  }

  // ---------------------------------------------------------------------------------- clusters

  predicate IsVariationSelector(c: int) { c == 0xFE0E || c == 0xFE0F }
  predicate IsSkinTone(c: int) { 0x1F3FB <= c <= 0x1F3FF }
  predicate IsZwj(c: int) { c == 0x200D }
  predicate IsRegional(c: int) { 0x1F1E6 <= c <= 0x1F1FF }

  predicate IsCombining(c: int) {
    || 0x0300 <= c <= 0x036F || 0x1AB0 <= c <= 0x1AFF || 0x1DC0 <= c <= 0x1DFF
    || 0x20D0 <= c <= 0x20FF || 0xFE20 <= c <= 0xFE2F
  }

  predicate Extends(c: int) {
    IsVariationSelector(c) || IsSkinTone(c) || IsZwj(c) || IsCombining(c)
  }

  /** How many characters of `s` belong to the cluster that `c`, which follows `s`, is in. */
  function JoinedBefore(s: seq<Scalar>, c: int): (n: nat)
    ensures n <= |s|
    decreases |s|
  {
    if s == [] then 0
    else
      var k := |s| - 1;
      if IsZwj(s[k]) then (if k == 0 then 1 else 2 + JoinedBefore(s[..k - 1], s[k - 1]))
      else if Extends(c) then 1 + JoinedBefore(s[..k], s[k])
      else if IsRegional(c) && IsRegional(s[k]) then 1
      else 0
  }

  /** The number of characters in the cluster before the cursor. */
  function PrevCluster(left: seq<Scalar>): (n: nat)
    ensures n <= |left| && (left != [] ==> n > 0)
  {
    if left == [] then 0 else 1 + JoinedBefore(left[..|left| - 1], left[|left| - 1])
  }

  /** How many characters of `s` belong to the cluster that ends just before it;
      `flag`: that cluster began with a regional indicator still without its pair. */
  function JoinedAfter(s: seq<Scalar>, flag: bool): (n: nat)
    ensures n <= |s|
    decreases |s|
  {
    if s == [] then 0
    else if IsZwj(s[0]) && |s| > 1 then 2 + JoinedAfter(s[2..], flag)
    else if Extends(s[0]) then 1 + JoinedAfter(s[1..], flag)
    else if flag && IsRegional(s[0]) then 1 + JoinedAfter(s[1..], false)
    else 0
  }

  /** The number of characters in the cluster after the cursor. */
  function NextCluster(right: seq<Scalar>): (n: nat)
    ensures n <= |right| && (right != [] ==> n > 0)
  {
    if right == [] then 0 else 1 + JoinedAfter(right[1..], IsRegional(right[0]))
  }

  // -------------------------------------------------------------------------- the editing keys

  datatype Line = Line(left: seq<Scalar>, right: seq<Scalar>)

  function Text(line: Line): seq<Scalar> { line.left + line.right }

  datatype Key = Insert(c: Scalar) | MoveLeft | MoveRight | MoveHome | MoveEnd | Delete | Backspace
    | DeletePrevWord | Swap | KillLine | KillToEnd

  /** `left` without its trailing clusters, as long as the last character is (or is not) a space. */
  function SkipBack(left: seq<Scalar>, spaces: bool): (rest: seq<Scalar>)
    ensures |rest| <= |left| && rest == left[..|rest|]
    decreases |left|
  {
    if left == [] || (left[|left| - 1] == 0x20) != spaces then left
    else SkipBack(left[..|left| - PrevCluster(left)], spaces)
  }

  function Press(line: Line, key: Key, capacity: nat): Line {
    var left, right := line.left, line.right;
    var back, ahead := |left| - PrevCluster(left), NextCluster(right);
    match key
    case Insert(c) => if |EncodeAll(left + right)| + |Encode(c)| <= capacity then Line(left + [c], right) else line
    case MoveLeft => Line(left[..back], left[back..] + right)
    case MoveRight => Line(left + right[..ahead], right[ahead..])
    case MoveHome => Line([], left + right)
    case MoveEnd => Line(left + right, [])
    case Delete => Line(left, right[ahead..])
    case Backspace => Line(left[..back], right)
    case DeletePrevWord => Line(SkipBack(SkipBack(left, true), false), right)
    case Swap =>
      if left == [] || right == [] then line
      else Line(left[..back] + (right[..ahead] + left[back..]), right[ahead..])
    case KillLine => Line([], [])
    case KillToEnd => Line(left, [])
  }

  /** Keys that only move the cursor. */
  predicate Moves(key: Key) {
    key.MoveLeft? || key.MoveRight? || key.MoveHome? || key.MoveEnd?
  }

  lemma MovesKeepText(line: Line, key: Key, capacity: nat)
    requires Moves(key)
    ensures Text(Press(line, key, capacity)) == Text(line)
  {
    hide PrevCluster;
    hide NextCluster;
    var left, right := line.left, line.right;
    var back, ahead := |left| - PrevCluster(left), NextCluster(right);
    match key
    case MoveLeft =>
      SplitAt(left, back);
      Reassociate(left[..back], left[back..], right);
    case MoveRight =>
      SplitAt(right, ahead);
      Reassociate(left, right[..ahead], right[ahead..]);
    case MoveHome => assert [] + (left + right) == left + right;
    case MoveEnd => assert (left + right) + [] == left + right;
  }

  /** Backspace undoes an insertion exactly when the character stands alone, that
      is, does not join the cluster before it. */
  lemma BackspaceUndoesInsert(line: Line, c: Scalar, capacity: nat)
    requires |EncodeAll(Text(line))| + |Encode(c)| <= capacity
    ensures var typed := Press(line, Insert(c), capacity);
      Press(typed, Backspace, capacity) == line <==>
        line.left == [] || (var last := line.left[|line.left| - 1];
          !IsZwj(last) && !Extends(c) && !(IsRegional(c) && IsRegional(last)))
  {
    hide Encode;
    hide EncodeAll;
    var longer := line.left + [c];
    assert longer[..|longer| - 1] == line.left && longer[|longer| - 1] == c;
    var n := JoinedBefore(line.left, c);
    assert longer[..|longer| - PrevCluster(longer)] == line.left[..|line.left| - n];
  }

  /** A swap moves the cursor past the exchanged clusters and keeps every character. */
  lemma SwapExchanges(line: Line, capacity: nat)
    requires line.left != [] && line.right != []
    ensures var after := Press(line, Swap, capacity);
      var back, ahead := |line.left| - PrevCluster(line.left), NextCluster(line.right);
      && multiset(Text(after)) == multiset(Text(line))
      && after.left[..back] == line.left[..back]
      && after.left[back..] == line.right[..ahead] + line.left[back..]
      && after.right == line.right[ahead..]
  {
    hide PrevCluster;
    hide NextCluster;
    var left, right := line.left, line.right;
    var back, ahead := |left| - PrevCluster(left), NextCluster(right);
    SplitAt(left, back);
    SplitAt(right, ahead);
    PrefixOfConcat(left[..back], right[..ahead] + left[back..]);
  }

  /** Deleting a word stops at the front of the line or behind a space, and takes
      nothing right of the cursor. */
  lemma DeletePrevWordStops(line: Line, capacity: nat)
    ensures var after := Press(line, DeletePrevWord, capacity);
      && after.right == line.right && after.left <= line.left
      && (after.left == [] || after.left[|after.left| - 1] == 0x20)
  {
    hide PrevCluster;
    SkipBackStops(line.left, true);
    SkipBackStops(SkipBack(line.left, true), false);
  }

  lemma {:induction false} SkipBackStops(left: seq<Scalar>, spaces: bool)
    ensures var rest := SkipBack(left, spaces);
      rest <= left && (rest == [] || (rest[|rest| - 1] == 0x20) != spaces)
    decreases |left|
  {
    hide PrevCluster;
    if left != [] && (left[|left| - 1] == 0x20) == spaces {
      SkipBackStops(left[..|left| - PrevCluster(left)], spaces);
    }
  }

  // ----------------------------------------------------------- what each key does, by the others

  /** Deleting takes what a move passes; killing takes one side or both; a move to an
      end leaves nothing on that side. */
  lemma KeysByMoves(line: Line, capacity: nat)
    ensures Press(line, Delete, capacity) == Line(line.left, Press(line, MoveRight, capacity).right)
    ensures Press(line, Backspace, capacity) == Line(Press(line, MoveLeft, capacity).left, line.right)
    ensures Text(Press(line, KillLine, capacity)) == []
    ensures Press(line, KillToEnd, capacity) == Line(line.left, [])
    ensures Press(line, MoveHome, capacity).left == [] && Press(line, MoveEnd, capacity).right == []
  {
    hide PrevCluster;
    hide NextCluster;
  }

  /** An insertion puts the character left of the cursor, or changes nothing, exactly
      as the text with it fits the capacity. */
  lemma InsertsIffFits(line: Line, c: Scalar, capacity: nat)
    ensures var after := Press(line, Insert(c), capacity);
      && (after != line <==> |EncodeAll(Text(line))| + |Encode(c)| <= capacity)
      && (after != line ==> after == Line(line.left + [c], line.right))
  {
    hide EncodeAll;
    hide Encode;
  }

  /** The line after `n` moves to the left. */
  function LeftTimes(line: Line, n: nat, capacity: nat): Line
    decreases n
  {
    if n == 0 then line else LeftTimes(Press(line, MoveLeft, capacity), n - 1, capacity)
  }

  predicate EndsInSpace(left: seq<Scalar>) { left != [] && left[|left| - 1] == 0x20 }

  lemma {:induction false} LeftTimesMore(line: Line, a: nat, b: nat, capacity: nat)
    ensures LeftTimes(line, a + b, capacity) == LeftTimes(LeftTimes(line, a, capacity), b, capacity)
    decreases a
  {
    hide Press;
    if a > 0 {
      LeftTimesMore(Press(line, MoveLeft, capacity), a - 1, b, capacity);
    }
  }

  /** A deletion of spaces, or of others, goes back cluster by cluster while there are any. */
  ghost predicate GoesBack(line: Line, spaces: bool, n: nat, capacity: nat) {
    && (forall i {:trigger LeftTimes(line, i, capacity)} :: 0 <= i < n ==>
         LeftTimes(line, i, capacity).left != [] && EndsInSpace(LeftTimes(line, i, capacity).left) == spaces)
    && var rest := LeftTimes(line, n, capacity).left;
       rest == [] || EndsInSpace(rest) != spaces
  }

  lemma {:induction false} SkipGoesBack(line: Line, spaces: bool, capacity: nat) returns (n: nat)
    ensures GoesBack(line, spaces, n, capacity) && LeftTimes(line, n, capacity).left == SkipBack(line.left, spaces)
    decreases |line.left|
  {
    hide PrevCluster;
    hide Press;
    var left := line.left;
    if left == [] || EndsInSpace(left) != spaces {
      n := 0;
    } else {
      OneMoveLeft(line, capacity);
      var next := Press(line, MoveLeft, capacity);
      var m := SkipGoesBack(next, spaces, capacity);
      n := m + 1;
      forall i {:trigger LeftTimes(line, i, capacity)} | 0 <= i < n
        ensures LeftTimes(line, i, capacity).left != [] && EndsInSpace(LeftTimes(line, i, capacity).left) == spaces
      {
        if i > 0 {
          assert LeftTimes(line, i, capacity) == LeftTimes(next, i - 1, capacity);
        }
      }
    }
  }

  lemma OneMoveLeft(line: Line, capacity: nat)
    ensures Press(line, MoveLeft, capacity).left == line.left[..|line.left| - PrevCluster(line.left)]
  {
    hide PrevCluster;
  }

  /** Deleting a word takes what `n` moves to the left pass: `j` moves over clusters that
      end in a space, as many as there are, then as many as there are over others. */
  lemma DeletePrevWordIsMoves(line: Line, capacity: nat) returns (j: nat, n: nat)
    ensures Press(line, DeletePrevWord, capacity) == Line(LeftTimes(line, j + n, capacity).left, line.right)
    ensures GoesBack(line, true, j, capacity) && GoesBack(LeftTimes(line, j, capacity), false, n, capacity)
  {
    hide PrevCluster;
    hide GoesBack;
    hide SkipBack;
    hide LeftTimes;
    j := SkipGoesBack(line, true, capacity);
    n := SkipGoesBack(LeftTimes(line, j, capacity), false, capacity);
    LeftTimesMore(line, j, n, capacity);
  }

  // --------------------------------------------------- moving left after moving right

  /** Character `i` of a cluster belongs to what is before it. */
  predicate Linked(s: seq<Scalar>, i: nat)
    requires 1 <= i < |s|
  {
    Extends(s[i]) || IsZwj(s[i - 1])
  }

  ghost predicate AllLinked(s: seq<Scalar>, n: nat)
    requires n <= |s|
  {
    forall i {:trigger Linked(s, i)} :: 1 <= i < n ==> Linked(s, i)
  }

  /** All of the cluster's characters are linked, but for one at most: a regional
      indicator that completes a flag (`pair`, or 0 if there is none). */
  lemma {:induction false} JoinedAreLinked(c: Scalar, s: seq<Scalar>, flag: bool) returns (pair: nat)
    ensures PairAt([c] + s, JoinedAfter(s, flag), pair)
    ensures pair > 0 ==> flag
    decreases |s|
  {
    hide Extends;
    hide IsZwj;
    hide IsRegional;
    hide PairAt;
    var whole := [c] + s;
    pair := 0;
    if s == [] {
      PairNowhere(whole);
    } else if IsZwj(s[0]) && |s| > 1 {
      ZwjExtends(s[0]);
      var p := JoinedAreLinked(s[1], s[2..], flag);
      pair := if p == 0 then 0 else p + 2;
      assert whole[2..] == [s[1]] + s[2..];
      PairBehind(whole, 2, JoinedAfter(s[2..], flag), p);
    } else if Extends(s[0]) {
      var p := JoinedAreLinked(s[0], s[1..], flag);
      pair := if p == 0 then 0 else p + 1;
      assert whole[1..] == [s[0]] + s[1..];
      PairBehind(whole, 1, JoinedAfter(s[1..], flag), p);
    } else if flag && IsRegional(s[0]) {
      var p := JoinedAreLinked(s[0], s[1..], false);
      pair := if IsZwj(c) then 0 else 1;
      assert whole[1..] == [s[0]] + s[1..];
      PairHere(whole, JoinedAfter(s[1..], false));
    } else {
      PairNowhere(whole);
    }
  }

  /** The first `m + 1` characters are linked but for the one at `pair`. */
  ghost predicate PairAt(whole: seq<Scalar>, m: nat, pair: nat) {
    && pair <= m < |whole|
    && (pair > 0 ==> IsRegional(whole[pair]) && !Linked(whole, pair))
    && forall i {:trigger Linked(whole, i)} :: 1 <= i <= m && i != pair ==> Linked(whole, i)
  }

  lemma PairNowhere(whole: seq<Scalar>)
    requires whole != []
    ensures PairAt(whole, 0, 0)
  {
  }

  lemma PairBehind(whole: seq<Scalar>, k: nat, m: nat, p: nat)
    requires 1 <= k <= 2 && k < |whole| && PairAt(whole[k..], m, p)
    requires forall i {:trigger Linked(whole, i)} :: 1 <= i <= k ==> Linked(whole, i)
    ensures PairAt(whole, m + k, if p == 0 then 0 else p + k)
  {
    hide Extends;
    hide IsZwj;
    hide IsRegional;
    hide Linked;
    SameLinks(whole, whole[k..], k);
  }

  lemma PairHere(whole: seq<Scalar>, m: nat)
    requires |whole| > 1 && PairAt(whole[1..], m, 0) && IsRegional(whole[1]) && !Extends(whole[1])
    ensures PairAt(whole, m + 1, if IsZwj(whole[0]) then 0 else 1)
  {
    hide Extends;
    hide IsZwj;
    hide IsRegional;
    SameLinks(whole, whole[1..], 1);
  }

  lemma SameLinks(whole: seq<Scalar>, tail: seq<Scalar>, k: nat)
    requires k <= |whole| && tail == whole[k..]
    ensures forall i {:trigger Linked(whole, i)} :: k < i < |whole| ==> Linked(whole, i) == Linked(tail, i - k)
    ensures forall i :: k <= i < |whole| ==> whole[i] == tail[i - k]
  {
    hide Extends;
  }

  lemma {:induction false} JoinedIsWhole(c: Scalar, s: seq<Scalar>, flag: bool)
    ensures var m := JoinedAfter(s, flag);
      m < |s| ==>
        && !Extends(s[m])
        && (m >= 1 && IsZwj(s[m - 1]) ==> IsZwj(([c] + s)[m - 1]))
        && (flag && IsRegional(s[m]) ==> exists i :: 0 <= i < m && IsRegional(s[i]))
    decreases |s|
  {
    hide Extends;
    hide IsRegional;
    hide IsZwj;
    if s != [] {
      ZwjExtends(s[0]);
      JoinedSteps(s, flag);
      hide JoinedAfter;
      if IsZwj(s[0]) && |s| > 1 {
        JoinedIsWhole(s[1], s[2..], flag);
        WholeBehind(c, s, 2, JoinedAfter(s[2..], flag));
      } else if Extends(s[0]) || (flag && IsRegional(s[0])) {
        var open := Extends(s[0]) && flag;
        JoinedIsWhole(s[0], s[1..], open);
        WholeBehind(c, s, 1, JoinedAfter(s[1..], open));
        RegionalFirst(s, JoinedAfter(s[1..], open) + 1);
      }
    }
  }

  lemma JoinedSteps(s: seq<Scalar>, flag: bool)
    requires s != []
    ensures JoinedAfter(s, flag) ==
      if IsZwj(s[0]) && |s| > 1 then 2 + JoinedAfter(s[2..], flag)
      else if Extends(s[0]) then 1 + JoinedAfter(s[1..], flag)
      else if flag && IsRegional(s[0]) then 1 + JoinedAfter(s[1..], false)
      else 0
  {
    hide Extends;
    hide IsRegional;
    hide IsZwj;
  }

  /** The characters behind the first `k`, seen from the whole. */
  lemma WholeBehind(c: Scalar, s: seq<Scalar>, k: nat, m: nat)
    requires 1 <= k <= |s| && k + m <= |s|
    ensures m + k < |s| ==> s[k..][m] == s[m + k]
    ensures m >= 1 ==> s[k..][m - 1] == s[m + k - 1] && ([s[k - 1]] + s[k..])[m - 1] == ([c] + s)[m + k - 1]
    ensures (exists i :: 0 <= i < m && IsRegional(s[k..][i])) ==> exists i :: 0 <= i < m + k && IsRegional(s[i])
  {
    hide IsRegional;
    RegionalStays(s, k, m);
  }

  lemma RegionalFirst(s: seq<Scalar>, m: nat)
    requires 1 <= m <= |s|
    ensures IsRegional(s[0]) ==> exists i :: 0 <= i < m && IsRegional(s[i])
  {
    hide IsRegional;
  }

  lemma RegionalStays(s: seq<Scalar>, k: nat, m: nat)
    requires k <= |s| && m <= |s| - k
    ensures (exists i :: 0 <= i < m && IsRegional(s[k..][i])) ==> exists i :: 0 <= i < m + k && IsRegional(s[i])
  {
    if i :| 0 <= i < m && IsRegional(s[k..][i]) {
      assert IsRegional(s[k + i]);
    }
  }

  lemma ZwjExtends(c: Scalar)
    ensures IsZwj(c) ==> Extends(c)
  {
  }

  /** What follows the cluster at the cursor does not extend it, is joined on only
      by a joiner that was joined on itself, and is no regional indicator while
      the cluster's first character is one without a partner. */
  lemma NextClusterIsWhole(right: seq<Scalar>)
    requires right != []
    ensures var n := NextCluster(right);
      n < |right| ==>
        && !Extends(right[n])
        && (n >= 2 && IsZwj(right[n - 1]) ==> IsZwj(right[n - 2]))
        && (IsRegional(right[0]) && IsRegional(right[n]) ==> exists i :: 1 <= i < n && IsRegional(right[i]))
  {
    hide Extends;
    var m := JoinedAfter(right[1..], IsRegional(right[0]));
    JoinedIsWhole(right[0], right[1..], IsRegional(right[0]));
    HeadTail(right);
    if i :| 0 <= i < m && IsRegional(right[1..][i]) {
      assert IsRegional(right[i + 1]);
    }
  }

  /** Character `c` behind `left` is in the same cluster as the last of `left`. */
  predicate JoinedTo(left: seq<Scalar>, c: Scalar) {
    left != [] && var last := left[|left| - 1];
      IsZwj(last) || Extends(c) || (IsRegional(c) && IsRegional(last))
  }

  /** Walking back from linked characters reaches the first of them or passes it;
      it stops there exactly when nothing before `s` is joined to `s[0]`. */
  lemma {:induction false} WalkBack(left: seq<Scalar>, s: seq<Scalar>)
    requires s != [] && AllLinked(s, |s|)
    ensures var n := PrevCluster(left + s);
      && n >= |s| && (n == |s| <==> !JoinedTo(left, s[0]))
      && (!IsZwj(s[0]) ==> n == |s| + JoinedBefore(left, s[0]))
    decreases |s|
  {
    var k := |s| - 1;
    hide PrevCluster;
    hide JoinedBefore;
    hide Extends;
    if k == 0 {
      assert s == [s[0]];
      StepFromFirst(left, s[0]);
    } else {
      assert Linked(s, k);
      var zwj := IsZwj(s[k - 1]);
      if zwj && k == 1 {
        assert s == [s[0], s[1]];
        StepOverFirst(left, s[0], s[1]);
      } else {
        var shorter := if zwj then s[..k - 1] else s[..k];
        LinkedPrefix(s, |shorter|);
        WalkBack(left, shorter);
        StepBack(left, s);
      }
    }
  }

  lemma LinkedPrefix(s: seq<Scalar>, n: nat)
    requires n <= |s| && AllLinked(s, |s|)
    ensures AllLinked(s[..n], n)
  {
    hide Extends;
    forall i {:trigger Linked(s[..n], i)} | 1 <= i < n
      ensures Linked(s[..n], i)
    {
      assert Linked(s, i);
    }
  }

  lemma StepFromFirst(left: seq<Scalar>, c: Scalar)
    ensures PrevCluster(left + [c]) == 1 + JoinedBefore(left, c)
    ensures JoinedBefore(left, c) == 0 <==> !JoinedTo(left, c)
  {
    assert (left + [c])[..|left|] == left;
  }

  lemma StepOverFirst(left: seq<Scalar>, zwj: Scalar, c: Scalar)
    requires IsZwj(zwj)
    ensures PrevCluster(left + [zwj, c]) >= 2
    ensures PrevCluster(left + [zwj, c]) == 2 <==> left == []
    ensures Extends(zwj)
  {
    var before := left + [zwj];
    assert (left + [zwj, c])[..|left| + 1] == before;
    assert before[|left|] == zwj;
  }

  /** One step of the walk: over a joiner and the character it joins to, or over one character. */
  lemma StepBack(left: seq<Scalar>, s: seq<Scalar>)
    requires |s| >= 2 && Linked(s, |s| - 1) && (IsZwj(s[|s| - 2]) ==> |s| >= 3)
    ensures var k := |s| - 1;
      PrevCluster(left + s) ==
        if IsZwj(s[k - 1]) then 2 + PrevCluster(left + s[..k - 1]) else 1 + PrevCluster(left + s[..k])
  {
    hide Extends;
    var k, all := |s| - 1, left + s;
    var before := left + s[..k];
    var last := |before| - 1;
    assert all[..|all| - 1] == before && all[|all| - 1] == s[k];
    assert before[last] == s[k - 1] && before[..last] == left + s[..k - 1];
    if IsZwj(s[k - 1]) {
      assert before[..last - 1] == left + s[..k - 2] && before[last - 1] == s[k - 2];
      assert (left + s[..k - 1])[..|left| + k - 2] == left + s[..k - 2];
    }
  }

  /** Walking back over a cluster with one character `pair` that only completes a
      flag: over the whole of it if the pair stands at its front, else not. */
  lemma WalkBackToPair(left: seq<Scalar>, s: seq<Scalar>, pair: nat)
    requires 1 <= pair < |s| && IsRegional(s[0]) && IsRegional(s[pair]) && !Linked(s, pair)
    requires forall i {:trigger Linked(s, i)} :: 1 <= i < |s| && i != pair ==> Linked(s, i)
    ensures if pair == 1 then PrevCluster(left + s) == |s| else PrevCluster(left + s) < |s|
  {
    hide PrevCluster;
    hide Extends;
    var front, tail := left + s[..pair], s[pair..];
    assert left + s == front + tail;
    SameLinks(s, tail, pair);
    assert forall i {:trigger Linked(tail, i)} :: 1 <= i < |tail| ==> Linked(tail, i) == Linked(s, i + pair);
    assert front != [] && front[|front| - 1] == s[pair - 1] && tail[0] == s[pair];
    WalkBack(front, tail);
  }

  /** What moving right over a cluster and then left comes back to: exactly the
      place before, if the cluster starts with a completed flag, or if all of it is
      linked and it is not joined to what is before it; further left, if all of it
      is linked but it is joined; further right, if a flag was completed behind
      other characters. */
  lemma LeftAfterRight(line: Line, capacity: nat)
    requires line.right != []
    ensures var back := Press(Press(line, MoveRight, capacity), MoveLeft, capacity);
      var s := line.right[..NextCluster(line.right)];
      && (back == line <==>
            (|s| > 1 && !Linked(s, 1)) || (AllLinked(s, |s|) && !JoinedTo(line.left, s[0])))
      && (|back.left| < |line.left| <==> AllLinked(s, |s|) && JoinedTo(line.left, s[0]))
      && (|back.left| > |line.left| <==> exists i :: 2 <= i < |s| && !Linked(s, i))
  {
    hide Extends;
    hide PrevCluster;
    hide JoinedBefore;
    hide JoinedTo;
    var n := NextCluster(line.right);
    var s := line.right[..n];
    HeadTail(line.right);
    var pair := JoinedAreLinked(line.right[0], line.right[1..], IsRegional(line.right[0]));
    forall i {:trigger Linked(s, i)} | 1 <= i < n
      ensures Linked(s, i) == Linked(line.right, i)
    {
    }
    if pair == 0 {
      WalkBack(line.left, s);
    } else {
      WalkBackToPair(line.left, s, pair);
    }
    var k := PrevCluster(line.left + s);
    if k == n {
      assert (line.left + s)[..|line.left|] == line.left;
      assert (line.left + s)[|line.left|..] + line.right[n..] == line.right;
    }
  }

  lemma SplitFlagIsOne()
    ensures var right := [0x1F1E6, 0xFE0F, 0x1F1E7];
      NextCluster(right) == 3 && right[..3] == right && exists i :: 2 <= i < 3 && !Linked(right, i)
  {
    hide JoinedAfter;
    var right := [0x1F1E6, 0xFE0F, 0x1F1E7];
    assert right[1..][1..] == [right[2]] && [right[2]][1..] == [];
    OneMore(right[1..], true);
    OneMore([right[2]], true);
    JoinedNone(false);
    assert !Linked(right, 2);
  }

  lemma JoinedNone(flag: bool)
    ensures JoinedAfter([], flag) == 0
  {
  }

  lemma OneMore(s: seq<Scalar>, flag: bool)
    requires s != [] && !IsZwj(s[0])
    ensures Extends(s[0]) ==> JoinedAfter(s, flag) == 1 + JoinedAfter(s[1..], flag)
    ensures !Extends(s[0]) && flag && IsRegional(s[0]) ==> JoinedAfter(s, flag) == 1 + JoinedAfter(s[1..], false)
  {
    hide Extends;
  }

  lemma StopsHere(s: seq<Scalar>, flag: bool)
    requires s != [] && !Extends(s[0]) && !(flag && IsRegional(s[0]))
    ensures JoinedAfter(s, flag) == 0
  {
    ZwjExtends(s[0]);
  }

  lemma ZwjTakesTwo(s: seq<Scalar>, flag: bool)
    requires |s| > 1 && IsZwj(s[0])
    ensures JoinedAfter(s, flag) == 2 + JoinedAfter(s[2..], flag)
  {
  }

  /** An accent, a selector or a skin tone joins what it follows; a joiner joins what
      follows it; two regional indicators are one flag; an ASCII character joins nothing. */
  lemma ClusterExamples(a: Scalar, e: Scalar, r: Scalar, t: Scalar, u: Scalar, x: Scalar)
    requires 0x0300 <= e <= 0x036F || 0x20D0 <= e <= 0x20FF || 0xFE0E <= e <= 0xFE0F || 0x1F3FB <= e <= 0x1F3FF
    requires 0x1F1E6 <= r <= 0x1F1FF && 0x1F1E6 <= t <= 0x1F1FF && 0x1F1E6 <= u <= 0x1F1FF && 0x20 <= x < 0x7F
    ensures NextCluster([a, x]) == 1
    ensures NextCluster([a, e, x]) == 2
    ensures NextCluster([a, 0x200D, a, x]) == 3
    ensures NextCluster([r, t, u]) == 2
  {
    hide JoinedAfter;
    StopsHere([x], IsRegional(a));
    assert [a, x][1..] == [x] && [a, e, x][1..] == [e, x] && [e, x][1..] == [x];
    OneMore([e, x], IsRegional(a));
    assert [a, 0x200D, a, x][1..] == [0x200D, a, x] && [0x200D, a, x][2..] == [x];
    ZwjTakesTwo([0x200D, a, x], IsRegional(a));
    assert [r, t, u][1..] == [t, u] && [t, u][1..] == [u];
    OneMore([t, u], true);
    StopsHere([u], false);
  }

  /** A flag around a variation selector: right and then left does not come back,
      though nothing is before the flag, and ends further right. */
  lemma SplitFlagGoesAstray(capacity: nat)
    ensures var line := Line([], [0x1F1E6, 0xFE0F, 0x1F1E7]);
      var back := Press(Press(line, MoveRight, capacity), MoveLeft, capacity);
      back != line && |back.left| > 0
  {
    hide Press;
    var right := [0x1F1E6, 0xFE0F, 0x1F1E7];
    SplitFlagIsOne();
    LeftAfterRight(Line([], right), capacity);
  }
}
