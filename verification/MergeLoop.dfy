/** The merge loop as the tokenizer runs it: pieces in an array, linked both
    ways by index, each a window of the encoded text.  It refines the rewrite of
    module MergeRules. */
module MergeLoop {
  import opened Bits
  import opened Seqs
  import opened ByteAlphabet
  import opened ProbingTable
  import opened MergeRules

  /** `str` is the piece's offset in the text; `next` is -1 at the end of the list. */
  datatype Piece = Piece(str: nat, len: nat, prev: int, next: int)

  function Window(s: Bytes, p: Piece): Bytes
    requires p.str + p.len <= |s|
  {
    s[p.str..p.str + p.len]
  }

  /** The `k`-th live piece: its links, its text, and its right neighbour's place in memory. */
  ghost predicate NodeOk(rows: seq<Piece>, live: seq<nat>, s: Bytes, parts: seq<Bytes>, k: nat)
    requires k < |live| == |parts|
  {
    && live[k] < |rows|
    && rows[live[k]].str + rows[live[k]].len <= |s|
    && Window(s, rows[live[k]]) == parts[k]
    && rows[live[k]].prev == (if k == 0 then -1 else live[k - 1])
    && rows[live[k]].next == (if k + 1 == |live| then -1 else live[k + 1])
    && (k + 1 < |live| ==>
         && live[k + 1] < |rows|
         && rows[live[k]].str + rows[live[k]].len == rows[live[k + 1]].str)
  }

  /** The list that starts at index 0 holds exactly `parts`, at the indices `live`. */
  ghost predicate Holds(rows: seq<Piece>, live: seq<nat>, s: Bytes, parts: seq<Bytes>) {
    && |live| == |parts| > 0 && live[0] == 0
    && (forall k, m :: 0 <= k < m < |live| ==> live[k] < live[m])
    && (forall k :: 0 <= k < |live| ==> NodeOk(rows, live, s, parts, k))
  }

  /** The facts of one node, on demand. */
  lemma Node(rows: seq<Piece>, live: seq<nat>, s: Bytes, parts: seq<Bytes>, k: nat)
    requires Holds(rows, live, s, parts) && k < |live|
    ensures NodeOk(rows, live, s, parts, k)
  {
  }

  // ------------------------------------------------------------------------ joining

  lemma Surroundings(rows: seq<Piece>, live: seq<nat>, s: Bytes, parts: seq<Bytes>, b: nat)
    requires Holds(rows, live, s, parts) && b + 1 < |live|
    ensures AroundJoin(rows, live, s, parts, b)
  {
    Node(rows, live, s, parts, b);
    Node(rows, live, s, parts, b + 1);
    if b + 2 < |live| {
      Node(rows, live, s, parts, b + 2);
    }
  }

  ghost function Unlinked(live: seq<nat>, b: nat): seq<nat>
    requires b + 1 < |live|
  {
    live[..b + 1] + live[b + 2..]
  }

  /** The array after piece `left` has swallowed piece `right`. */
  function Joined(rows: seq<Piece>, left: nat, right: nat): seq<Piece>
    requires left < |rows| && right < |rows| && rows[right].next < |rows|
  {
    var after := rows[right].next;
    var grown := rows[left := rows[left].(len := rows[left].len + rows[right].len, next := after)];
    if after >= 0 then grown[after := grown[after].(prev := left)] else grown
  }

  /** What joining live piece `b` with its neighbour relies on. */
  ghost predicate AroundJoin(rows: seq<Piece>, live: seq<nat>, s: Bytes, parts: seq<Bytes>, b: nat) {
    && |live| == |parts| && b + 1 < |live|
    && NodeOk(rows, live, s, parts, b) && NodeOk(rows, live, s, parts, b + 1)
    && (b + 2 < |live| ==> NodeOk(rows, live, s, parts, b + 2))
    && (forall k, m :: 0 <= k < m < |live| ==> live[k] < live[m])
  }

  lemma JoinedBefore(rows: seq<Piece>, live: seq<nat>, s: Bytes, parts: seq<Bytes>, b: nat, k: nat)
    requires AroundJoin(rows, live, s, parts, b) && k < b && NodeOk(rows, live, s, parts, k)
    ensures NodeOk(Joined(rows, live[b], live[b + 1]), Unlinked(live, b), s, JoinAt(parts, b), k)
  {
    UntouchedNode(rows, live, b, live[k]);
    UntouchedNode(rows, live, b, live[k + 1]);
    assert Unlinked(live, b)[k] == live[k] && Unlinked(live, b)[k + 1] == live[k + 1];
    assert JoinAt(parts, b)[k] == parts[k];
    assert live[k] < live[b] && (b + 2 < |live| ==> live[k] < live[b + 2]);
  }

  lemma JoinedHere(rows: seq<Piece>, live: seq<nat>, s: Bytes, parts: seq<Bytes>, b: nat)
    requires AroundJoin(rows, live, s, parts, b)
    ensures NodeOk(Joined(rows, live[b], live[b + 1]), Unlinked(live, b), s, JoinAt(parts, b), b)
  {
    AdjacentWindows(s, rows[live[b]], rows[live[b + 1]]);
    assert live[b] < live[b + 1] && (b + 2 < |live| ==> live[b + 1] < live[b + 2]);
    assert JoinAt(parts, b)[b] == parts[b] + parts[b + 1];
  }

  lemma JoinedAfter(rows: seq<Piece>, live: seq<nat>, s: Bytes, parts: seq<Bytes>, b: nat, k: nat)
    requires AroundJoin(rows, live, s, parts, b) && b < k < |live| - 1 && NodeOk(rows, live, s, parts, k + 1)
    ensures NodeOk(Joined(rows, live[b], live[b + 1]), Unlinked(live, b), s, JoinAt(parts, b), k)
  {
    var live' := Unlinked(live, b);
    assert live'[k] == live[k + 1] && live'[k - 1] == (if k == b + 1 then live[b] else live[k]);
    assert JoinAt(parts, b)[k] == parts[k + 1];
    assert live[b] < live[k + 1] && (k > b + 1 ==> live[b + 2] < live[k + 1]);
    UntouchedNode(rows, live, b, live[k + 1]);
    if k + 2 < |live| {
      assert live'[k + 1] == live[k + 2] && live[b] < live[k + 2];
      UntouchedNode(rows, live, b, live[k + 2]);
    }
  }

  lemma UntouchedNode(rows: seq<Piece>, live: seq<nat>, b: nat, i: nat)
    requires b + 1 < |live| && live[b] < |rows| && live[b + 1] < |rows| && i < |rows|
    requires rows[live[b + 1]].next == if b + 2 == |live| then -1 else live[b + 2]
    requires b + 2 < |live| ==> live[b + 2] < |rows|
    ensures i != live[b] && (b + 2 < |live| ==> i != live[b + 2]) ==> Joined(rows, live[b], live[b + 1])[i] == rows[i]
    ensures i != live[b] ==> Joined(rows, live[b], live[b + 1])[i].str == rows[i].str
  {
  }

  lemma AdjacentWindows(s: Bytes, p: Piece, q: Piece)
    requires q.str + q.len <= |s| && p.str + p.len == q.str
    ensures Window(s, p) + Window(s, q) == s[p.str..p.str + (p.len + q.len)]
  {
  }

  /** Joining in the array is joining in the sequence. */
  lemma JoinRefines(rows: seq<Piece>, live: seq<nat>, s: Bytes, parts: seq<Bytes>, b: nat)
    requires Holds(rows, live, s, parts) && AroundJoin(rows, live, s, parts, b)
    ensures Holds(Joined(rows, live[b], live[b + 1]), Unlinked(live, b), s, JoinAt(parts, b))
  {
    var rows', live', parts' := Joined(rows, live[b], live[b + 1]), Unlinked(live, b), JoinAt(parts, b);
    forall k | 0 <= k < |live'|
      ensures NodeOk(rows', live', s, parts', k)
    {
      Node(rows, live, s, parts, if k <= b then k else k + 1);
      if k < b {
        JoinedBefore(rows, live, s, parts, b, k);
      } else if k == b {
        JoinedHere(rows, live, s, parts, b);
      } else {
        JoinedAfter(rows, live, s, parts, b, k);
      }
    }
    assert forall k :: 0 <= k < |live'| ==> live'[k] == live[if k <= b then k else k + 1];
  }

  /** What a round needs to know about the pair it joins, and what joining it gives. */
  lemma JoinPlan(rows: seq<Piece>, live: seq<nat>, s: Bytes, parts: seq<Bytes>, b: nat)
    requires Holds(rows, live, s, parts) && b + 1 < |live|
    ensures live[b] < |rows| && live[b + 1] < |rows| && live[b] != live[b + 1]
    ensures rows[live[b]].next == live[b + 1] && -1 <= rows[live[b + 1]].next < |rows|
    ensures rows[live[b]].str + rows[live[b]].len == rows[live[b + 1]].str
    ensures rows[live[b]].len == |parts[b]| && rows[live[b + 1]].len == |parts[b + 1]|
    ensures Holds(Joined(rows, live[b], live[b + 1]), Unlinked(live, b), s, JoinAt(parts, b))
  {
    Surroundings(rows, live, s, parts, b);
    JoinRefines(rows, live, s, parts, b);
  }

  /** Grow piece `left` over its right neighbour and unlink the neighbour.  The
      neighbour always starts where `left` ends, so nothing is ever copied. */
  method JoinPieces(pieces: array<Piece>, left: nat, right: nat, newLen: nat)
    requires left < pieces.Length && right < pieces.Length && left != right
    requires pieces[left].str + pieces[left].len == pieces[right].str
    requires newLen == pieces[left].len + pieces[right].len
    requires -1 <= pieces[right].next < pieces.Length
    modifies pieces
    ensures pieces[..] == Joined(old(pieces[..]), left, right)
  {
    if pieces[left].str + pieces[left].len == pieces[right].str {
      pieces[left] := pieces[left].(len := newLen);
    } else {
      assert false;
    }
    var after := pieces[right].next;
    pieces[left] := pieces[left].(next := after);
    if after != -1 {
      pieces[after] := pieces[after].(prev := left);
    }
  }

  // ------------------------------------------------------------------ cutting the text

  /** A freshly cut piece: piece `k` spans `offs[k]` to `offs[k + 1]`. */
  ghost predicate RowOk(rows: seq<Piece>, offs: seq<nat>, texts: seq<Bytes>, s: Bytes, k: nat)
    requires k < |texts| && |offs| == |texts| + 1
  {
    && k < |rows|
    && offs[k] <= offs[k + 1] <= |s|
    && rows[k] == Piece(offs[k], offs[k + 1] - offs[k], k - 1, k + 1)
    && texts[k] == s[offs[k]..offs[k + 1]]
  }

  ghost predicate CutUpTo(rows: seq<Piece>, offs: seq<nat>, texts: seq<Bytes>, s: Bytes, i: nat) {
    && |offs| == |texts| + 1 && |texts| <= |rows|
    && offs[0] == 0 && offs[|texts|] == i <= |s|
    && (forall k :: 0 <= k < |texts| ==> RowOk(rows, offs, texts, s, k))
  }

  lemma CutMore(rows: seq<Piece>, offs: seq<nat>, texts: seq<Bytes>, s: Bytes, i: nat, clen: nat)
    requires CutUpTo(rows, offs, texts, s, i) && |texts| < |rows| && i + clen <= |s|
    ensures CutUpTo(rows[|texts| := Piece(i, clen, |texts| - 1, |texts| + 1)], offs + [i + clen],
      texts + [s[i..i + clen]], s, i + clen)
  {
    var n := |texts|;
    var rows', offs', texts' := rows[n := Piece(i, clen, n - 1, n + 1)], offs + [i + clen], texts + [s[i..i + clen]];
    forall k | 0 <= k < n + 1
      ensures RowOk(rows', offs', texts', s, k)
    {
      if k < n {
        assert RowOk(rows, offs, texts, s, k);
        assert offs'[k] == offs[k] && offs'[k + 1] == offs[k + 1];
      }
    }
  }

  lemma NextCharacter(texts: seq<Bytes>, s: Bytes, i: nat, clen: nat, max: nat)
    requires i < |s| && max > 0
    requires clen == if i + CharLength(s[i]) > |s| then |s| - i else CharLength(s[i])
    ensures texts + Characters(s[i..], max) == (texts + [s[i..i + clen]]) + Characters(s[i + clen..], max - 1)
  {
    var t := s[i..];
    assert t[clen..] == s[i + clen..] && t[..clen] == s[i..i + clen];
    if clen == |t| {
      assert t[..clen] == t && Characters(t[clen..], max - 1) == [];
    }
    assert Characters(t, max) == [s[i..i + clen]] + Characters(s[i + clen..], max - 1);
    Reassociate(texts, [s[i..i + clen]], Characters(s[i + clen..], max - 1));
  }

  /** Ending the list after the last piece makes it hold the cut. */
  lemma CutIsHeld(rows: seq<Piece>, offs: seq<nat>, texts: seq<Bytes>, s: Bytes, i: nat, live: seq<nat>)
    requires CutUpTo(rows, offs, texts, s, i) && texts != []
    requires |live| == |texts| && forall k :: 0 <= k < |live| ==> live[k] == k
    ensures Holds(rows[|texts| - 1 := rows[|texts| - 1].(next := -1)], live, s, texts)
  {
    var n := |texts|;
    var rows' := rows[n - 1 := rows[n - 1].(next := -1)];
    forall k | 0 <= k < n
      ensures NodeOk(rows', live, s, texts, k)
    {
      assert RowOk(rows, offs, texts, s, k);
      if k + 1 < n {
        assert RowOk(rows, offs, texts, s, k + 1);
      }
    }
  }

  lemma AllCut(texts: seq<Bytes>, s: Bytes, i: nat, max: nat)
    requires i == |s| || (i < |s| && max == 0)
    ensures texts + Characters(s[i..], max) == texts
  {
  }

  method SetPiece(pieces: array<Piece>, k: nat, p: Piece)
    requires k < pieces.Length
    modifies pieces
    ensures pieces[..] == old(pieces[..])[k := p]
  {
    pieces[k] := p;
  }

  /** Cut the text into one piece per character, each linked to the next index. */
  method CutPieces(s: Bytes, pieces: array<Piece>) returns (n: nat, ghost offs: seq<nat>)
    requires s != [] && pieces.Length == MAX_PIECES
    modifies pieces
    ensures 0 < n == |Characters(s, MAX_PIECES)| && |offs| == n + 1
    ensures CutUpTo(pieces[..], offs, Characters(s, MAX_PIECES), s, offs[n])
  {
    hide Characters;
    hide RowOk;
    n := 0;
    var i: nat := 0;
    ghost var texts: seq<Bytes> := [];
    offs := [0];
    assert s[i..] == s && texts + Characters(s, MAX_PIECES) == Characters(s, MAX_PIECES);
    while i < |s| && n < MAX_PIECES
      invariant CutUpTo(pieces[..], offs, texts, s, i) && |texts| == n
      invariant n == 0 ==> i == 0
      invariant texts + Characters(s[i..], MAX_PIECES - n) == Characters(s, MAX_PIECES)
      decreases MAX_PIECES - n
    {
      var clen := CharLength(s[i]);
      if i + clen > |s| {
        clen := |s| - i;
      }
      NextCharacter(texts, s, i, clen, MAX_PIECES - n);
      CutMore(pieces[..], offs, texts, s, i, clen);
      SetPiece(pieces, n, Piece(i, clen, n - 1, n + 1));
      offs, texts := offs + [i + clen], texts + [s[i..i + clen]];
      n := n + 1;
      i := i + clen;
    }
    AllCut(texts, s, i, MAX_PIECES - n);
  }

  /** The initial list: the cut pieces, ended after the last one. */
  method InitPieces(s: Bytes, pieces: array<Piece>) returns (n: nat, ghost live: seq<nat>)
    requires s != [] && pieces.Length == MAX_PIECES
    modifies pieces
    ensures n == |live| && Holds(pieces[..], live, s, Characters(s, MAX_PIECES))
  {
    ghost var offs;
    n, offs := CutPieces(s, pieces);
    live := seq(n, k => k);
    CutIsHeld(pieces[..], offs, Characters(s, MAX_PIECES), s, offs[n], live);
    SetPiece(pieces, n - 1, pieces[n - 1].(next := -1));
  }

  // --------------------------------------------------------------------- the merge loop

  /** The key built for a pair and its lookup in the merge table. */
  method MergeLookup(merges: Slots, a: Bytes, b: Bytes, ghost ranks: map<Key, U32>) returns (prio: U32)
    requires Serves(merges, ranks)
    ensures prio == Rank(ranks, a, b)
  {
    var klen := |a| + 1 + |b|;
    if klen > 2 * MAX_TOKEN_LEN + 1 {
      return EMPTY;
    }
    prio := Lookup(merges, PairKey(a, b), ranks);
  }

  /** The state of the scan before pair `k`: the best pair so far, as a list position and as an index. */
  ghost predicate Scanned(ranks: map<Key, U32>, parts: seq<Bytes>, live: seq<nat>, k: nat, best: int, bestIdx: int,
      bestPrio: U32) {
    && k < |parts| == |live|
    && best == BestAmong(ranks, parts, k)
    && bestIdx == (if best == -1 then -1 else live[best])
    && bestPrio == (if best == -1 then EMPTY else RankAt(ranks, parts, best))
  }

  lemma ScanStep(ranks: map<Key, U32>, parts: seq<Bytes>, live: seq<nat>, k: nat, best: int, bestIdx: int,
      bestPrio: U32, prio: U32)
    requires Scanned(ranks, parts, live, k, best, bestIdx, bestPrio) && k + 1 < |parts|
    requires prio == RankAt(ranks, parts, k)
    ensures prio < bestPrio ==> Scanned(ranks, parts, live, k + 1, k, live[k], prio)
    ensures prio >= bestPrio ==> Scanned(ranks, parts, live, k + 1, best, bestIdx, bestPrio)
  {
  }

  /** Walk the list once for the leftmost pair of lowest rank. */
  method FindBest(merges: Slots, s: Bytes, pieces: array<Piece>, ghost live: seq<nat>, ghost parts: seq<Bytes>,
      ghost ranks: map<Key, U32>)
    returns (bestIdx: int)
    requires Serves(merges, ranks)
    requires Holds(pieces[..], live, s, parts)
    ensures var best := Best(ranks, parts);
      bestIdx == if best == -1 then -1 else live[best]
  {
    ghost var best: int := -1;
    ghost var rows := pieces[..];
    var bestPrio: U32 := EMPTY;
    bestIdx := -1;
    var ci := 0;
    ghost var k: nat := 0;
    while true
      invariant Scanned(ranks, parts, live, k, best, bestIdx, bestPrio)
      invariant ci == live[k]
      decreases |live| - k
    {
      Node(rows, live, s, parts, k);
      var current := pieces[ci];
      var ni := current.next;
      if ni == -1 {
        break;
      }
      Node(rows, live, s, parts, k + 1);
      var prio := MergeLookup(merges, Window(s, current), Window(s, pieces[ni]), ranks);
      ScanStep(ranks, parts, live, k, best, bestIdx, bestPrio, prio);
      if prio < bestPrio {
        bestPrio, bestIdx, best := prio, ci, k;
      }
      ci, k := ni, k + 1;
    }
  }

  /** One round of the loop: join the best pair, or report that nothing can be joined. */
  method MergeRound(merges: Slots, s: Bytes, pieces: array<Piece>, ghost live: seq<nat>, ghost parts: seq<Bytes>,
      ghost ranks: map<Key, U32>)
    returns (joined: bool, ghost rest: seq<nat>)
    requires Serves(merges, ranks)
    requires Holds(pieces[..], live, s, parts)
    modifies pieces
    ensures joined == !Settled(ranks, parts)
    ensures !joined ==> rest == live && pieces[..] == old(pieces[..])
    ensures joined ==> Holds(pieces[..], rest, s, JoinAt(parts, Best(ranks, parts)))
  {
    var bestIdx := FindBest(merges, s, pieces, live, parts, ranks);
    ghost var best := Best(ranks, parts);
    if bestIdx == -1 {
      return false, live;
    }
    ghost var rows := pieces[..];
    JoinPlan(rows, live, s, parts, best);
    var left := pieces[bestIdx];
    var ni := left.next;
    var newLen := left.len + pieces[ni].len;
    if newLen > MAX_TOKEN_LEN {
      return false, live;
    }
    JoinPieces(pieces, bestIdx, ni, newLen);
    return true, Unlinked(live, best);
  }

  /** Merge until settled; `active` counts the live pieces and bounds the loop. */
  method MergePieces(merges: Slots, s: Bytes, pieces: array<Piece>, n: nat, ghost initial: seq<nat>,
      ghost cut: seq<Bytes>, ghost ranks: map<Key, U32>)
    returns (ghost live: seq<nat>)
    requires Serves(merges, ranks)
    requires Holds(pieces[..], initial, s, cut) && n == |initial|
    modifies pieces
    ensures Holds(pieces[..], live, s, Merge(ranks, cut))
  {
    var active := n;
    live := initial;
    ghost var parts := cut;
    while active > 1
      invariant Holds(pieces[..], live, s, parts) && active == |live|
      invariant Merge(ranks, parts) == Merge(ranks, cut)
      decreases active
    {
      var joined;
      joined, live := MergeRound(merges, s, pieces, live, parts, ranks);
      if !joined {
        break;
      }
      parts := JoinAt(parts, Best(ranks, parts));
      active := active - 1;
    }
  }
}
