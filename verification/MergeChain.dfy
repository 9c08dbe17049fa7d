/** The ids of a text, said without the merge loop: every span's ids come from a
    chain of joins, and every segment is an added token or a chunk of spans. */
module MergeChain {
  import opened Bits
  import opened Seqs
  import opened ByteAlphabet
  import opened ProbingTable
  import opened Pretokenizer
  import opened MergeRules
  import opened Tokenizer
  import opened Lossless

  // ------------------------------------------------------------------------- the joins of a span

  /** Pair `b` has a rank, lower than every pair left of it and no higher than any. */
  ghost predicate Lowest(ranks: map<Key, U32>, parts: seq<Bytes>, b: nat) {
    && b + 1 < |parts|
    && Rank(ranks, parts[b], parts[b + 1]) != EMPTY
    && (forall j :: 0 <= j < b ==> Rank(ranks, parts[b], parts[b + 1]) < Rank(ranks, parts[j], parts[j + 1]))
    && (forall j :: 0 <= j < |parts| - 1 ==>
         Rank(ranks, parts[b], parts[b + 1]) <= Rank(ranks, parts[j], parts[j + 1]))
  }

  /** `after` is `before` with its leftmost pair of lowest rank joined, to at most 256 bytes. */
  ghost predicate Joins(ranks: map<Key, U32>, before: seq<Bytes>, after: seq<Bytes>) {
    exists b: nat {:trigger Lowest(ranks, before, b)} ::
      && Lowest(ranks, before, b)
      && |before[b]| + |before[b + 1]| <= 256
      && after == before[..b] + [before[b] + before[b + 1]] + before[b + 2..]
  }

  /** Nothing is left to join, or the pair to join would pass 256 bytes. */
  ghost predicate Finished(ranks: map<Key, U32>, parts: seq<Bytes>) {
    || |parts| <= 1
    || (forall j :: 0 <= j < |parts| - 1 ==> Rank(ranks, parts[j], parts[j + 1]) == EMPTY)
    || exists b: nat {:trigger Lowest(ranks, parts, b)} :: Lowest(ranks, parts, b) && |parts[b]| + |parts[b + 1]| > 256
  }

  ghost predicate Chain(ranks: map<Key, U32>, chain: seq<seq<Bytes>>) {
    chain != [] && Finished(ranks, chain[|chain| - 1])
    && forall k :: 0 <= k < |chain| - 1 ==> Joins(ranks, chain[k], chain[k + 1])
  }

  lemma BestIsLowest(ranks: map<Key, U32>, parts: seq<Bytes>)
    ensures Best(ranks, parts) >= 0 ==> Lowest(ranks, parts, Best(ranks, parts))
    ensures Best(ranks, parts) < 0 ==> Finished(ranks, parts)
  {
    hide Rank;
    if Best(ranks, parts) < 0 && |parts| > 1 {
      forall j | 0 <= j < |parts| - 1
        ensures Rank(ranks, parts[j], parts[j + 1]) == EMPTY
      {
        assert RankAt(ranks, parts, j) == EMPTY;
      }
    }
    if Best(ranks, parts) >= 0 {
      var b := Best(ranks, parts);
      forall j | 0 <= j < |parts| - 1
        ensures Rank(ranks, parts[b], parts[b + 1]) <= Rank(ranks, parts[j], parts[j + 1])
        ensures j < b ==> Rank(ranks, parts[b], parts[b + 1]) < Rank(ranks, parts[j], parts[j + 1])
      {
        assert RankAt(ranks, parts, b) <= RankAt(ranks, parts, j);
      }
    }
  }

  lemma {:induction false} MergeIsChain(ranks: map<Key, U32>, parts: seq<Bytes>) returns (chain: seq<seq<Bytes>>)
    ensures chain != [] && Chain(ranks, chain) && chain[0] == parts && chain[|chain| - 1] == Merge(ranks, parts)
    decreases |parts|
  {
    hide Joins;
    hide Finished;
    hide Best;
    BestIsLowest(ranks, parts);
    if Settled(ranks, parts) {
      SettledIsFinished(ranks, parts);
      chain := [parts];
    } else {
      var next := JoinAt(parts, Best(ranks, parts));
      OneJoin(ranks, parts);
      var rest := MergeIsChain(ranks, next);
      chain := [parts] + rest;
      forall k | 0 <= k < |chain| - 1
        ensures Joins(ranks, chain[k], chain[k + 1])
      {
        if k > 0 {
          assert chain[k] == rest[k - 1] && chain[k + 1] == rest[k];
        }
      }
    }
  }

  lemma SettledIsFinished(ranks: map<Key, U32>, parts: seq<Bytes>)
    requires Settled(ranks, parts)
    ensures Finished(ranks, parts)
  {
    hide Best;
    hide Lowest;
    BestIsLowest(ranks, parts);
    if Best(ranks, parts) >= 0 {
      var b: nat := Best(ranks, parts);
      assert Lowest(ranks, parts, b);
      LowestIsInside(ranks, parts, b);
    }
  }

  lemma LowestIsInside(ranks: map<Key, U32>, parts: seq<Bytes>, b: nat)
    requires Lowest(ranks, parts, b)
    ensures b + 1 < |parts|
  {
  }

  lemma OneJoin(ranks: map<Key, U32>, parts: seq<Bytes>)
    requires !Settled(ranks, parts)
    ensures Joins(ranks, parts, JoinAt(parts, Best(ranks, parts)))
  {
    hide Best;
    hide Lowest;
    BestIsLowest(ranks, parts);
    var b: nat := Best(ranks, parts);
    assert Lowest(ranks, parts, b);
  }

  // --------------------------------------------------------------------------- the ids of pieces

  /** The vocabulary's id, or for a piece it does not have the ids of the characters of
      the piece's bytes, where it has those. */
  ghost predicate PieceIds(vocab: map<Key, U32>, part: Bytes, ids: Ids) {
    if part in vocab then ids == [vocab[part]]
    else exists each: seq<Ids> ::
      && |each| == |part| && ids == Flatten(each)
      && forall j :: 0 <= j < |part| ==>
           each[j] == if EncodeByte(part[j]) in vocab then [vocab[EncodeByte(part[j])]] else []
  }

  ghost predicate AreIds(vocab: map<Key, U32>, parts: seq<Bytes>, ids: Ids) {
    exists each: seq<Ids> ::
      |each| == |parts| && ids == Flatten(each) && forall i :: 0 <= i < |parts| ==> PieceIds(vocab, parts[i], each[i])
  }

  lemma {:induction false} FallbackIsEach(vocab: map<Key, U32>, part: Bytes, j: nat) returns (each: seq<Ids>)
    requires j <= |part|
    ensures |each| == |part| - j && FallbackIds(vocab, part, j) == Flatten(each)
    ensures forall k :: 0 <= k < |each| ==>
      each[k] == if EncodeByte(part[j + k]) in vocab then [vocab[EncodeByte(part[j + k])]] else []
    decreases |part| - j
  {
    hide EncodeByte;
    hide ByteIds;
    OneByteIds(vocab);
    if j == |part| {
      each := [];
    } else {
      hide FallbackIds;
      FirstFallback(vocab, part, j);
      var rest := FallbackIsEach(vocab, part, j + 1);
      each := [ByteIds(vocab, part[j])] + rest;
      FlattenFirst(ByteIds(vocab, part[j]), rest);
      forall k | 0 <= k < |each|
        ensures each[k] == if EncodeByte(part[j + k]) in vocab then [vocab[EncodeByte(part[j + k])]] else []
      {
        if k > 0 {
          assert each[k] == rest[k - 1];
        }
      }
    }
  }

  lemma FirstFallback(vocab: map<Key, U32>, part: Bytes, j: nat)
    requires j < |part|
    ensures FallbackIds(vocab, part, j) == ByteIds(vocab, part[j]) + FallbackIds(vocab, part, j + 1)
  {
    hide ByteIds;
  }

  lemma FlattenFirst(first: Ids, rest: seq<Ids>)
    ensures Flatten([first] + rest) == first + Flatten(rest)
  {
    assert ([first] + rest)[1..] == rest;
  }

  lemma OneByteIds(vocab: map<Key, U32>)
    ensures forall b: Byte :: ByteIds(vocab, b) == if EncodeByte(b) in vocab then [vocab[EncodeByte(b)]] else []
  {
    hide EncodeByte;
  }

  lemma PartIdsAre(vocab: map<Key, U32>, part: Bytes)
    ensures PieceIds(vocab, part, PartIds(vocab, part))
  {
    hide EncodeByte;
    hide FallbackIds;
    if part !in vocab {
      var each := FallbackIsEach(vocab, part, 0);
    }
  }

  lemma {:induction false} PartsAreEach(vocab: map<Key, U32>, parts: seq<Bytes>, k: nat) returns (each: seq<Ids>)
    requires k <= |parts|
    ensures |each| == |parts| - k && AllPartIds(vocab, parts, k) == Flatten(each)
    ensures forall i :: 0 <= i < |each| ==> PieceIds(vocab, parts[k + i], each[i])
    decreases |parts| - k
  {
    hide PieceIds;
    hide PartIds;
    if k == |parts| {
      each := [];
    } else {
      var rest := PartsAreEach(vocab, parts, k + 1);
      PartIdsAre(vocab, parts[k]);
      each := [PartIds(vocab, parts[k])] + rest;
      assert each[1..] == rest;
    }
  }

  /** For any vocabulary, ranks and encoded span: the ids are those of the last pieces of
      a chain of joins from the span's characters to where nothing can be joined. */
  lemma ProcessIsChain(vocab: map<Key, U32>, ranks: map<Key, U32>, s: Bytes) returns (chain: seq<seq<Bytes>>)
    ensures chain != [] && Chain(ranks, chain) && chain[0] == Characters(s, 8192)
    ensures AreIds(vocab, chain[|chain| - 1], ProcessIds(vocab, ranks, s))
  {
    hide Chain;
    hide Merge;
    hide PieceIds;
    hide AllPartIds;
    hide Characters;
    var parts := Characters(s, MAX_PIECES);
    chain := MergeIsChain(ranks, parts);
    var each := PartsAreEach(vocab, Merge(ranks, parts), 0);
  }

  // ------------------------------------------------------------------------------ spans and text

  /** The characters of the byte alphabet that stand for the bytes. */
  function Alphabet(raw: Bytes): (c: seq<Bytes>)
    ensures |c| == |raw| && forall i :: 0 <= i < |raw| ==> c[i] == EncodeByte(raw[i])
  {
    seq(|raw|, i requires 0 <= i < |raw| => EncodeByte(raw[i]))
  }

  /** As many bytes as are written before the output has 1020 bytes. */
  ghost predicate Kept(raw: Bytes, k: nat) {
    && k <= |raw|
    && (forall n :: 0 <= n < k ==> |Flatten(Alphabet(raw[..n]))| < 1020)
    && (k == |raw| || |Flatten(Alphabet(raw[..k]))| >= 1020)
  }

  ghost predicate SpanGives(m: Model, raw: Bytes, ids: Ids) {
    exists k: nat, chain ::
      && Kept(raw, k) && Chain(m.ranks, chain) && chain[0] == Alphabet(raw[..k])
      && AreIds(m.vocab, chain[|chain| - 1], ids)
  }

  lemma {:induction false} AlphabetIsEncoding(raw: Bytes)
    ensures Flatten(Alphabet(raw)) == EncodeBytes(raw)
  {
    hide EncodeByte;
    if raw != [] {
      AlphabetIsEncoding(raw[1..]);
      assert Alphabet(raw)[1..] == Alphabet(raw[1..]);
    }
  }

  lemma {:induction false} TakenIsKept(raw: Bytes, n: nat)
    requires n <= |raw| && forall i :: 0 <= i < n ==> |Flatten(Alphabet(raw[..i]))| < 1020
    ensures Kept(raw, Taken(raw, n, BUFFER))
    decreases |raw| - n
  {
    hide Flatten;
    hide Alphabet;
    hide EncodeBytes;
    AlphabetIsEncoding(raw[..n]);
    if n < |raw| && |EncodeBytes(raw[..n])| < BUFFER - 4 {
      TakenIsKept(raw, n + 1);
    }
  }

  lemma SpanIsChain(m: Model, raw: Bytes)
    ensures SpanGives(m, raw, SpanIds(m, raw))
  {
    hide Chain;
    hide AreIds;
    hide Kept;
    hide Taken;
    hide ProcessIds;
    hide Characters;
    var k := Taken(raw, 0, BUFFER);
    TakenIsKept(raw, 0);
    TakenIsBounded(raw, 0, BUFFER);
    var chain := ProcessIsChain(m.vocab, m.ranks, EncodeBytes(raw[..k]));
    CharactersOfEncoding(raw[..k], MAX_PIECES);
    assert chain[0] == Alphabet(raw[..k]);
  }

  /** The ids of a chunk's spans, one after the other. */
  ghost predicate SpansGive(m: Model, text: Bytes, pos: nat, spans: seq<Span>, ids: Ids) {
    exists each: seq<Ids> ::
      && |each| == |spans| && ids == Flatten(each)
      && forall k :: 0 <= k < |spans| ==> SpanGives(m, SpanBytes(text, pos, spans[k]), each[k])
  }

  lemma {:induction false} SpansAreEach(m: Model, text: Bytes, pos: nat, spans: seq<Span>, k: nat)
      returns (each: seq<Ids>)
    requires k <= |spans|
    ensures |each| == |spans| - k && SpansIds(m, text, pos, spans, k) == Flatten(each)
    ensures forall i :: 0 <= i < |each| ==> SpanGives(m, SpanBytes(text, pos, spans[k + i]), each[i])
    decreases |spans| - k
  {
    hide SpanGives;
    hide SpanIds;
    hide SpanBytes;
    if k == |spans| {
      each := [];
    } else {
      var rest := SpansAreEach(m, text, pos, spans, k + 1);
      SpanIsChain(m, SpanBytes(text, pos, spans[k]));
      each := [SpanIds(m, SpanBytes(text, pos, spans[k]))] + rest;
      assert each[1..] == rest;
    }
  }

  /** From `pos` to `end` stands an added token, the longest one there and the first of those. */
  ghost predicate AddedSegment(m: Model, text: Bytes, pos: nat, end: nat, ids: Ids)
    requires pos < end <= |text|
  {
    exists i :: 0 <= i < |m.added| && text[pos..end] == m.added[i].str && ids == [m.added[i].id]
      && (forall j :: 0 <= j < |m.added| && m.added[j].str <= text[pos..] ==> |m.added[j].str| <= end - pos)
      && (forall j :: 0 <= j < i ==> text[pos..end] != m.added[j].str)
  }

  /** No added token stands at `pos` or starts inside; the chunk ends where one starts or
      with the text, and is encoded span by span. */
  ghost predicate PlainSegment(m: Model, text: Bytes, pos: nat, end: nat, ids: Ids)
    requires pos < end <= |text|
  {
    && (forall j :: 0 <= j < |m.added| && m.added[j].str <= text[pos..] ==> m.added[j].str == [])
    && (forall j, p :: 0 <= j < |m.added| && pos < p < end ==> !(m.added[j].str <= text[p..]))
    && (end == |text| || exists j :: 0 <= j < |m.added| && m.added[j].str <= text[end..])
    && SpansGive(m, text, pos, Spans(text[pos..end], 0, 8192), ids)
  }

  lemma MatchesIsPrefix(text: Bytes, p: nat, str: Bytes)
    requires p <= |text|
    ensures MatchesAt(text, p, str) <==> str <= text[p..]
  {
  }

  lemma IsAdded(m: Model, text: Bytes, pos: nat, best: nat)
    requires pos < |text| && LongestAdded(text, pos, m.added, |m.added|) == best
    ensures AddedSegment(m, text, pos, SegmentEnd(m, text, pos), SegmentIds(m, text, pos))
  {
    LongestAddedIsLongest(text, pos, m.added, |m.added|);
    var str := m.added[best].str;
    forall j | 0 <= j < |m.added| && m.added[j].str <= text[pos..]
      ensures |m.added[j].str| <= |str| && (j < best ==> m.added[j].str != str)
    {
      MatchesIsPrefix(text, pos, m.added[j].str);
    }
    assert str == text[pos..pos + |str|] && str <= text[pos..];
  }

  lemma IsPlain(m: Model, text: Bytes, pos: nat)
    requires pos < |text| && LongestAdded(text, pos, m.added, |m.added|) < 0
    ensures PlainSegment(m, text, pos, SegmentEnd(m, text, pos), SegmentIds(m, text, pos))
  {
    hide SpansGive;
    hide Spans;
    hide SpansIds;
    hide MatchesAt;
    hide FirstMatch;
    var n, end := |m.added|, SegmentEnd(m, text, pos);
    LongestAddedIsLongest(text, pos, m.added, n);
    ChunkEndIsFirstMatch(text, pos, m.added, n);
    forall j, p | 0 <= j < n && pos <= p < |text|
      ensures MatchesAt(text, p, m.added[j].str) <==> m.added[j].str <= text[p..]
    {
      MatchesIsPrefix(text, p, m.added[j].str);
    }
    SpansAreGiven(m, text, pos, Spans(text[pos..end], 0, 8192));
  }

  lemma SpansAreGiven(m: Model, text: Bytes, pos: nat, spans: seq<Span>)
    ensures SpansGive(m, text, pos, spans, SpansIds(m, text, pos, spans, 0))
  {
    hide SpanGives;
    hide SpansIds;
    var each := SpansAreEach(m, text, pos, spans, 0);
  }

  lemma SegmentIsEither(m: Model, text: Bytes, pos: nat)
    requires pos < |text|
    ensures var end, ids := SegmentEnd(m, text, pos), SegmentIds(m, text, pos);
      AddedSegment(m, text, pos, end, ids) || PlainSegment(m, text, pos, end, ids)
  {
    var n := |m.added|;
    var best, end := LongestAdded(text, pos, m.added, n), SegmentEnd(m, text, pos);
    LongestAddedIsLongest(text, pos, m.added, n);
    if best >= 0 {
      IsAdded(m, text, pos, best);
    } else {
      IsPlain(m, text, pos);
    }
  }

  /** A text's ids are those of its first segment and those of the rest; the segments'
      ends and ids are determined by the text, the added tokens and the chains of joins. */
  lemma EncodeIsSegments(m: Model, text: Bytes, pos: nat) returns (end: nat, ids: Ids)
    requires pos < |text|
    ensures pos < end <= |text| && Encode(m, text, pos) == ids + Encode(m, text, end)
    ensures AddedSegment(m, text, pos, end, ids) || PlainSegment(m, text, pos, end, ids)
    ensures Encode(m, text, |text|) == []
  {
    hide AddedSegment;
    hide PlainSegment;
    end, ids := SegmentEnd(m, text, pos), SegmentIds(m, text, pos);
    SegmentIsEither(m, text, pos);
  }

  // ------------------------------------------------------------------------------- an example

  /** With tokens for "a", "b" and "ab" and the rule that joins "a" and "b", the text "ab" is one token. */
  lemma JoinedToken()
    ensures var m := Model(map[[0x61] := 0, [0x62] := 1, [0x61, 0x62] := 2], map[[0x61, 0xFF, 0x62] := 0], []);
      SpanIds(m, [0x61, 0x62]) == [2]
  {
    var a, b: Bytes := [0x61], [0x62];
    var ranks: map<Key, U32> := map[[0x61, 0xFF, 0x62] := 0];
    var vocab: map<Key, U32> := map[a := 0, b := 1, a + b := 2];
    var m := Model(vocab, ranks, []);
    var raw: Bytes := [0x61, 0x62];
    FitsExactly(raw, BUFFER);
    assert raw[..2] == raw;
    CharactersOfEncoding(raw, MAX_PIECES);
    var parts := Characters(EncodeBytes(raw), MAX_PIECES);
    assert parts == [a, b];
    assert PairKey(a, b) == [0x61, 0xFF, 0x62] && a + b == raw;
    JoinsPair(ranks, a, b);
    assert AllPartIds(vocab, [raw], 1) == [] && AllPartIds(vocab, [raw], 0) == PartIds(vocab, raw) + [];
    assert SpanIds(m, raw) == AllPartIds(vocab, Merge(ranks, parts), 0);
  }

  lemma JoinsPair(ranks: map<Key, U32>, a: Bytes, b: Bytes)
    requires Rank(ranks, a, b) != EMPTY && |a| + |b| <= 256
    ensures Merge(ranks, [a, b]) == [a + b]
  {
    hide Rank;
    var parts := [a, b];
    assert RankAt(ranks, parts, 0) != EMPTY;
    assert Best(ranks, parts) == 0;
    assert JoinAt(parts, 0) == [a + b];
    assert Merge(ranks, [a + b]) == [a + b];
  }
}
