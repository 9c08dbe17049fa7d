/** Turning one encoded span into token ids: cut, merge, look each piece up. */
module TokenEmitter {
  import opened Bits
  import opened Seqs
  import opened ByteAlphabet
  import opened ProbingTable
  import opened MergeRules
  import opened MergeLoop

  method PutId(out: array<U32>, at: nat, id: U32)
    requires at < out.Length
    modifies out
    ensures out[..at + 1] == old(out[..at]) + [id]
  {
    out[at] := id;
  }

  /** Emitting the next ids of `all`, as far as there is room, advances along it. */
  lemma Advance(all: Ids, done: nat, first: Ids, rest: Ids, room: int, after: nat)
    requires done <= |all| && all[done..] == first + rest
    requires after == done + |Take(first, room)|
    ensures after <= |all| && all[..done] + Take(first, room) == all[..after]
    ensures room > |Take(first, room)| ==> all[after..] == rest
  {
    assert all == all[..done] + (first + rest);
    var t := Take(first, room);
    if room > |t| {
      assert t == first;
    }
  }

  lemma AdvancedAll(base: Ids, all: Ids, done: nat, room: nat)
    requires |base| <= done <= |base + all|
    requires done == room || (done <= room && done == |base + all|)
    ensures (base + all)[..done] == base + Take(all, room - |base|)
  {
  }

  lemma TakeAll<T>(s: seq<T>, n: int)
    requires |s| <= n
    ensures Take(s, n) == s
  {
  }

  /** The id of one byte's character, if there is one. */
  method EmitByte(vocab: Slots, b: Byte, out: array<U32>, start: nat, ghost ids: map<Key, U32>) returns (at: nat)
    requires Serves(vocab, ids) && start < out.Length
    modifies out
    ensures start <= at <= start + 1
    ensures out[..at] == old(out[..start]) + ByteIds(ids, b)
  {
    at := start;
    var id := Lookup(vocab, EncodeByte(b), ids);
    if id != EMPTY {
      PutId(out, start, id);
      at := start + 1;
    }
  }

  /** Ids for a piece outside the vocabulary: one per byte whose character is known. */
  method EmitBytes(vocab: Slots, part: Bytes, out: array<U32>, start: nat, limit: nat, ghost ids: map<Key, U32>)
      returns (at: nat)
    requires Serves(vocab, ids)
    requires start <= limit <= out.Length
    modifies out
    ensures start <= at <= limit
    ensures out[..at] == old(out[..start]) + Take(FallbackIds(ids, part, 0), limit - start)
  {
    hide Serves;
    hide ByteIds;
    at := start;
    var j: nat := 0;
    ghost var base, pending := out[..start], FallbackIds(ids, part, 0);
    ghost var all := base + pending;
    PrefixOfConcat(base, pending);
    while j < |part| && at < limit
      invariant j <= |part| && start <= at <= limit && at <= |all|
      invariant out[..at] == all[..at]
      invariant at < limit ==> all[at..] == FallbackIds(ids, part, j)
    {
      ghost var first := ByteIds(ids, part[j]);
      TakeAll(first, limit - at);
      Advance(all, at, first, FallbackIds(ids, part, j + 1), limit - at, at + |first|);
      at := EmitByte(vocab, part[j], out, at, ids);
      j := j + 1;
    }
    AdvancedAll(base, pending, at, limit);
  }

  method EmitPart(vocab: Slots, part: Bytes, out: array<U32>, start: nat, limit: nat, ghost ids: map<Key, U32>)
      returns (at: nat)
    requires Serves(vocab, ids)
    requires start < limit <= out.Length
    modifies out
    ensures start <= at <= limit
    ensures out[..at] == old(out[..start]) + Take(PartIds(ids, part), limit - start)
  {
    var id := Lookup(vocab, part, ids);
    if id != EMPTY {
      PutId(out, start, id);
      at := start + 1;
    } else {
      at := EmitBytes(vocab, part, out, start, limit, ids);
    }
  }

  /** Walk the merged list and emit each piece's ids while there is room. */
  method EmitPieces(vocab: Slots, s: Bytes, pieces: seq<Piece>, out: array<U32>, start: nat, limit: nat,
                    ghost live: seq<nat>, ghost parts: seq<Bytes>, ghost ids: map<Key, U32>)
    returns (at: nat)
    requires Serves(vocab, ids)
    requires start <= limit <= out.Length
    requires Holds(pieces, live, s, parts)
    modifies out
    ensures start <= at <= limit
    ensures out[..at] == old(out[..start]) + Take(AllPartIds(ids, parts, 0), limit - start)
  {
    hide Serves;
    hide PartIds;
    at := start;
    var ci := 0;
    ghost var k: nat := 0;
    ghost var base, pending := out[..start], AllPartIds(ids, parts, 0);
    ghost var all := base + pending;
    PrefixOfConcat(base, pending);
    while ci != -1 && at < limit
      invariant k <= |live| && ci == (if k < |live| then live[k] else -1)
      invariant start <= at <= limit && at <= |all|
      invariant out[..at] == all[..at]
      invariant at < limit ==> all[at..] == AllPartIds(ids, parts, k)
      decreases |live| - k
    {
      Node(pieces, live, s, parts, k);
      ghost var first := Take(PartIds(ids, parts[k]), limit - at);
      Advance(all, at, PartIds(ids, parts[k]), AllPartIds(ids, parts, k + 1), limit - at, at + |first|);
      var piece := pieces[ci];
      at := EmitPart(vocab, Window(s, piece), out, at, limit, ids);
      ci, k := piece.next, k + 1;
    }
    AdvancedAll(base, pending, at, limit);
  }

  lemma NothingToEmit(ids: map<Key, U32>, ranks: map<Key, U32>)
    ensures ProcessIds(ids, ranks, []) == []
  {
  }

  /** `bpe_process`: the ids of an encoded span, as many as fit into `maxIds`. */
  method BpeProcess(vocab: Slots, merges: Slots, s: Bytes, out: array<U32>, start: nat, maxIds: nat,
                    ghost ids: map<Key, U32>, ghost ranks: map<Key, U32>) returns (n: nat)
    requires Serves(vocab, ids) && Serves(merges, ranks)
    requires start + maxIds <= out.Length
    modifies out
    ensures n <= maxIds
    ensures out[..start + n] == old(out[..start]) + Take(ProcessIds(ids, ranks, s), maxIds)
  {
    hide Serves;
    hide Holds;
    hide Merge;
    hide Characters;
    hide AllPartIds;
    if s == [] {
      NothingToEmit(ids, ranks);
      return 0;
    }
    var pieces := new Piece[MAX_PIECES](_ => Piece(0, 0, -1, -1));
    var count, live := InitPieces(s, pieces);
    live := MergePieces(merges, s, pieces, count, live, Characters(s, MAX_PIECES), ranks);
    var at := EmitPieces(vocab, s, pieces[..], out, start, start + maxIds, live,
      Merge(ranks, Characters(s, MAX_PIECES)), ids);
    n := at - start;
  }
}
