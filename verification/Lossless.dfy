/** Encoding loses nothing: decoding the ids of a text gives the text back,
    exactly when no chunk has too many spans and no span overflows its buffer. */
module Lossless {
  import opened Bits
  import opened Seqs
  import opened ByteAlphabet
  import opened ProbingTable
  import opened Pretokenizer
  import opened Utf8
  import opened MergeRules
  import opened Tokenizer

  /** Every byte has a token of its own, and every merge result is a token. */
  ghost predicate Complete(m: Model) {
    (forall b: Byte :: EncodeByte(b) in m.vocab) && ClosedUnder(m.ranks, m.vocab)
  }

  /** `dec` reads ids back: vocabulary entries through the byte alphabet, added tokens as they are. */
  ghost predicate Decodes(m: Model, dec: map<U32, Bytes>) {
    && (forall k :: k in m.vocab ==> m.vocab[k] in dec && dec[m.vocab[k]] == DecodeBytes(k))
    && (forall i :: 0 <= i < |m.added| ==> m.added[i].id in dec && dec[m.added[i].id] == m.added[i].str)
  }

  /** Two tokens with the same id spell the same bytes. */
  ghost predicate Unambiguous(m: Model) {
    && (forall k, l :: k in m.vocab && l in m.vocab && m.vocab[k] == m.vocab[l] ==> DecodeBytes(k) == DecodeBytes(l))
    && (forall k, i :: k in m.vocab && 0 <= i < |m.added| && m.vocab[k] == m.added[i].id ==>
         DecodeBytes(k) == m.added[i].str)
    && (forall i, j :: 0 <= i < |m.added| && 0 <= j < |m.added| && m.added[i].id == m.added[j].id ==>
         m.added[i].str == m.added[j].str)
  }

  /** A decoder exists exactly when ids are unambiguous. */
  lemma DecoderExists(m: Model)
    ensures (exists dec :: Decodes(m, dec)) <==> Unambiguous(m)
  {
    if Unambiguous(m) {
      var ids := (set k | k in m.vocab :: m.vocab[k]) + (set i | 0 <= i < |m.added| :: m.added[i].id);
      var dec := map id | id in ids :: Meaning(m, id);
      forall k | k in m.vocab
        ensures Meaning(m, m.vocab[k]) == DecodeBytes(k)
      {
        MeaningOf(m, m.vocab[k]);
      }
      forall i | 0 <= i < |m.added|
        ensures Meaning(m, m.added[i].id) == m.added[i].str
      {
        MeaningOf(m, m.added[i].id);
      }
      assert Decodes(m, dec);
    }
  }

  /** The bytes some token with this id spells. */
  ghost function Meaning(m: Model, id: U32): Bytes {
    if exists k :: k in m.vocab && m.vocab[k] == id then
      var k :| k in m.vocab && m.vocab[k] == id;
      DecodeBytes(k)
    else if exists i :: 0 <= i < |m.added| && m.added[i].id == id then
      var i :| 0 <= i < |m.added| && m.added[i].id == id;
      m.added[i].str
    else []
  }

  lemma MeaningOf(m: Model, id: U32)
    requires Unambiguous(m)
    ensures forall k :: k in m.vocab && m.vocab[k] == id ==> Meaning(m, id) == DecodeBytes(k)
    ensures forall i :: 0 <= i < |m.added| && m.added[i].id == id ==> Meaning(m, id) == m.added[i].str
  {
  }

  function DecodeIds(dec: map<U32, Bytes>, ids: Ids): Bytes {
    if ids == [] then [] else (if ids[0] in dec then dec[ids[0]] else []) + DecodeIds(dec, ids[1..])
  }

  lemma {:induction false} DecodeIdsConcat(dec: map<U32, Bytes>, a: Ids, b: Ids)
    ensures DecodeIds(dec, a + b) == DecodeIds(dec, a) + DecodeIds(dec, b)
  {
    if a == [] {
      assert a + b == b;
    } else {
      var ab := a + b;
      assert ab[0] == a[0] && ab[1..] == a[1..] + b;
      DecodeIdsConcat(dec, a[1..], b);
      Reassociate(if a[0] in dec then dec[a[0]] else [], DecodeIds(dec, a[1..]), DecodeIds(dec, b));
    }
  }

  lemma DecodeOne(dec: map<U32, Bytes>, id: U32)
    requires id in dec
    ensures DecodeIds(dec, [id]) == dec[id]
  {
    assert [id][1..] == [];
  }

  // ------------------------------------------------------------------------------ one span

  /** Each piece is the encoding of some bytes. */
  ghost predicate EncodedAs(parts: seq<Bytes>, raws: seq<Bytes>) {
    |parts| == |raws| && forall i :: 0 <= i < |parts| ==> parts[i] == EncodeBytes(raws[i])
  }

  lemma JoinStaysEncoded(parts: seq<Bytes>, raws: seq<Bytes>, b: nat)
    requires EncodedAs(parts, raws) && b + 1 < |parts|
    ensures EncodedAs(JoinAt(parts, b), JoinAt(raws, b))
  {
    EncodeConcat(raws[b], raws[b + 1]);
  }

  /** Merging only joins whole encoded bytes. */
  lemma {:induction false} MergeStaysEncoded(ranks: map<Key, U32>, parts: seq<Bytes>, raws: seq<Bytes>)
      returns (merged: seq<Bytes>)
    requires EncodedAs(parts, raws)
    ensures EncodedAs(Merge(ranks, parts), merged)
    ensures Flatten(merged) == Flatten(raws)
    decreases |parts|
  {
    if Settled(ranks, parts) {
      merged := raws;
    } else {
      var b := Best(ranks, parts);
      JoinStaysEncoded(parts, raws, b);
      JoinKeepsText(raws, b);
      merged := MergeStaysEncoded(ranks, JoinAt(parts, b), JoinAt(raws, b));
    }
  }

  lemma {:induction false} PartsDecode(m: Model, dec: map<U32, Bytes>, parts: seq<Bytes>, raws: seq<Bytes>, k: nat)
    requires Decodes(m, dec) && AllIn(parts, m.vocab) && EncodedAs(parts, raws) && k <= |parts|
    ensures DecodeIds(dec, AllPartIds(m.vocab, parts, k)) == Flatten(raws[k..])
    decreases |parts| - k
  {
    if k < |parts| {
      var id := m.vocab[parts[k]];
      assert PartIds(m.vocab, parts[k]) == [id];
      DecodeEncode(raws[k], []);
      assert EncodeBytes(raws[k]) + [] == EncodeBytes(raws[k]) && raws[k] + [] == raws[k];
      DecodeOne(dec, id);
      DecodeIdsConcat(dec, [id], AllPartIds(m.vocab, parts, k + 1));
      PartsDecode(m, dec, parts, raws, k + 1);
      assert raws[k..][0] == raws[k] && raws[k..][1..] == raws[k + 1..];
    }
  }

  function Singletons(raw: Bytes): (s: seq<Bytes>)
    ensures |s| == |raw| && forall i :: 0 <= i < |raw| ==> s[i] == [raw[i]]
  {
    seq(|raw|, i requires 0 <= i < |raw| => [raw[i]])
  }

  lemma {:induction false} FlattenSingletons(raw: Bytes)
    ensures Flatten(Singletons(raw)) == raw
  {
    if raw != [] {
      assert Singletons(raw)[1..] == Singletons(raw[1..]);
      FlattenSingletons(raw[1..]);
    }
  }

  /** The characters of an encoded span are the encodings of its bytes. */
  lemma CharactersAreBytes(raw: Bytes)
    requires |raw| <= MAX_PIECES
    ensures EncodedAs(Characters(EncodeBytes(raw), MAX_PIECES), Singletons(raw))
  {
    hide Characters;
    CharactersOfEncoding(raw, MAX_PIECES);
    forall i | 0 <= i < |raw|
      ensures EncodeBytes([raw[i]]) == EncodeByte(raw[i])
    {
      assert [raw[i]][1..] == [];
    }
  }

  /** No piece of an encoded span is outside the vocabulary, so the byte fallback is never taken. */
  lemma NeverFallsBack(m: Model, raw: Bytes)
    requires Complete(m) && |raw| <= MAX_PIECES
    ensures AllIn(Merge(m.ranks, Characters(EncodeBytes(raw), MAX_PIECES)), m.vocab)
  {
    CharactersOfEncoding(raw, MAX_PIECES);
    MergeStaysInVocabulary(m.ranks, m.vocab, Characters(EncodeBytes(raw), MAX_PIECES));
  }

  lemma ProcessDecodes(m: Model, dec: map<U32, Bytes>, raw: Bytes)
    requires Complete(m) && Decodes(m, dec) && |raw| <= MAX_PIECES
    ensures DecodeIds(dec, ProcessIds(m.vocab, m.ranks, EncodeBytes(raw))) == raw
  {
    hide Complete;
    hide Decodes;
    hide DecodeIds;
    hide EncodeBytes;
    hide Characters;
    hide Merge;
    hide AllIn;
    hide AllPartIds;
    var parts := Characters(EncodeBytes(raw), MAX_PIECES);
    CharactersAreBytes(raw);
    NeverFallsBack(m, raw);
    var merged := MergeStaysEncoded(m.ranks, parts, Singletons(raw));
    PartsDecode(m, dec, Merge(m.ranks, parts), merged, 0);
    assert merged[0..] == merged;
    FlattenSingletons(raw);
  }

  lemma {:induction false} TakenIsBounded(raw: Bytes, n: nat, cap: nat)
    requires n <= |raw| && n <= cap
    ensures Taken(raw, n, cap) <= cap
    decreases |raw| - n
  {
    if n < |raw| && |EncodeBytes(raw[..n])| < cap - 4 {
      EncodedLength(raw[..n]);
      TakenIsBounded(raw, n + 1, cap);
    }
  }

  /** What comes back of a span is the part of it that fitted the buffer. */
  lemma SpanDecodes(m: Model, dec: map<U32, Bytes>, raw: Bytes)
    requires Complete(m) && Decodes(m, dec)
    ensures DecodeIds(dec, SpanIds(m, raw)) == raw[..Taken(raw, 0, BUFFER)]
  {
    hide Complete;
    hide Decodes;
    hide DecodeIds;
    hide ProcessIds;
    hide Taken;
    TakenIsBounded(raw, 0, BUFFER);
    ProcessDecodes(m, dec, raw[..Taken(raw, 0, BUFFER)]);
  }

  // ----------------------------------------------------------------------------- one chunk

  /** `got` is what came back of `want`: all of it if `ok`, and strictly less otherwise. */
  ghost predicate Recovers(got: Bytes, want: Bytes, ok: bool) {
    (ok ==> got == want) && (!ok ==> |got| < |want|)
  }

  lemma RecoversBoth(g1: Bytes, w1: Bytes, ok1: bool, g2: Bytes, w2: Bytes, ok2: bool)
    requires Recovers(g1, w1, ok1) && Recovers(g2, w2, ok2)
    ensures Recovers(g1 + g2, w1 + w2, ok1 && ok2)
  {
  }

  ghost predicate SpansFit(text: Bytes, pos: nat, spans: seq<Span>, k: nat)
    decreases |spans| - k
  {
    k >= |spans| || (FitsIn(SpanBytes(text, pos, spans[k]), BUFFER) && SpansFit(text, pos, spans, k + 1))
  }

  lemma SpanRecovers(m: Model, dec: map<U32, Bytes>, text: Bytes, pos: nat, span: Span)
    requires Complete(m) && Decodes(m, dec)
    requires span.start <= span.end && pos + span.end <= |text|
    ensures Recovers(DecodeIds(dec, SpanIds(m, SpanBytes(text, pos, span))), text[pos + span.start..pos + span.end],
      FitsIn(SpanBytes(text, pos, span), BUFFER))
  {
    hide Complete;
    hide Decodes;
    hide DecodeIds;
    hide SpanIds;
    hide Taken;
    SpanDecodes(m, dec, SpanBytes(text, pos, span));
    assert SpanBytes(text, pos, span) == text[pos + span.start..pos + span.end];
  }

  lemma {:induction false} SpansRecover(m: Model, dec: map<U32, Bytes>, text: Bytes, pos: nat, spans: seq<Span>,
      k: nat, from: nat, to: nat)
    requires Complete(m) && Decodes(m, dec)
    requires k <= |spans| && Tiles(spans[k..], from, to) && from <= to && pos + to <= |text|
    ensures Recovers(DecodeIds(dec, SpansIds(m, text, pos, spans, k)), text[pos + from..pos + to],
      SpansFit(text, pos, spans, k))
    decreases |spans| - k
  {
    hide Recovers;
    hide DecodeIds;
    hide SpansIds;
    hide SpansFit;
    hide Tiles;
    hide Complete;
    hide Decodes;
    if k == |spans| {
      NoSpansRecover(m, dec, text, pos, spans, from, to);
    } else {
      TilesStep(spans, k, from, to);
      SpansRecover(m, dec, text, pos, spans, k + 1, spans[k].end, to);
      SpansRecoverStep(m, dec, text, pos, spans, k, to);
    }
  }

  lemma NoSpansRecover(m: Model, dec: map<U32, Bytes>, text: Bytes, pos: nat, spans: seq<Span>, from: nat, to: nat)
    requires Tiles(spans[|spans|..], from, to) && from <= to && pos + to <= |text|
    ensures Recovers(DecodeIds(dec, SpansIds(m, text, pos, spans, |spans|)), text[pos + from..pos + to],
      SpansFit(text, pos, spans, |spans|))
  {
    assert spans[|spans|..] == [];
  }

  lemma SpansRecoverStep(m: Model, dec: map<U32, Bytes>, text: Bytes, pos: nat, spans: seq<Span>, k: nat, to: nat)
    requires Complete(m) && Decodes(m, dec)
    requires k < |spans| && spans[k].start <= spans[k].end <= to && pos + to <= |text|
    requires Recovers(DecodeIds(dec, SpansIds(m, text, pos, spans, k + 1)), text[pos + spans[k].end..pos + to],
      SpansFit(text, pos, spans, k + 1))
    ensures Recovers(DecodeIds(dec, SpansIds(m, text, pos, spans, k)), text[pos + spans[k].start..pos + to],
      SpansFit(text, pos, spans, k))
  {
    hide SpanIds;
    hide FitsIn;
    hide SpanBytes;
    hide Recovers;
    hide DecodeIds;
    hide Complete;
    hide Decodes;
    hide Tiles;
    var raw := SpanBytes(text, pos, spans[k]);
    SpanRecovers(m, dec, text, pos, spans[k]);
    JoinRecovered(dec, text, pos + spans[k].start, pos + spans[k].end, pos + to,
      SpanIds(m, raw), SpansIds(m, text, pos, spans, k + 1), FitsIn(raw, BUFFER), SpansFit(text, pos, spans, k + 1));
  }

  lemma TilesStep(spans: seq<Span>, k: nat, from: nat, to: nat)
    requires k < |spans| && Tiles(spans[k..], from, to)
    ensures spans[k].start == from < spans[k].end <= to && Tiles(spans[k + 1..], spans[k].end, to)
  {
    assert spans[k..][0] == spans[k] && spans[k..][1..] == spans[k + 1..];
  }

  /** Two neighbouring stretches of the text, recovered together. */
  lemma JoinRecovered(dec: map<U32, Bytes>, text: Bytes, from: nat, mid: nat, to: nat, first: Ids, others: Ids,
      ok1: bool, ok2: bool)
    requires from <= mid <= to <= |text|
    requires Recovers(DecodeIds(dec, first), text[from..mid], ok1)
    requires Recovers(DecodeIds(dec, others), text[mid..to], ok2)
    ensures Recovers(DecodeIds(dec, first + others), text[from..to], ok1 && ok2)
  {
    hide DecodeIds;
    hide Recovers;
    DecodeIdsConcat(dec, first, others);
    RecoversBoth(DecodeIds(dec, first), text[from..mid], ok1, DecodeIds(dec, others), text[mid..to], ok2);
    assert text[from..mid] + text[mid..to] == text[from..to];
  }

  /** The chunk's spans were all found, and each fits the encoding buffer. */
  ghost predicate ChunkFits(text: Bytes, pos: nat, end: nat)
    requires pos <= end <= |text|
  {
    var spans := Spans(text[pos..end], 0, MAX_PIECES);
    LastEnd(spans, 0) == end - pos && SpansFit(text, pos, spans, 0)
  }

  /** A stretch that ends early recovers only part of the longer one. */
  lemma PartRecovers(got: Bytes, text: Bytes, pos: nat, mid: nat, end: nat, ok: bool)
    requires pos <= mid <= end <= |text| && Recovers(got, text[pos..mid], ok)
    ensures Recovers(got, text[pos..end], mid == end && ok)
  {
  }

  lemma ChunkRecovers(m: Model, dec: map<U32, Bytes>, text: Bytes, pos: nat, end: nat)
    requires Complete(m) && Decodes(m, dec)
    requires pos <= end <= |text| && LeadsComplete(text[pos..end])
    ensures Recovers(DecodeIds(dec, ChunkIds(m, text, pos, end)), text[pos..end], ChunkFits(text, pos, end))
  {
    hide Complete;
    hide Decodes;
    hide DecodeIds;
    hide SpansIds;
    hide SpansFit;
    hide Spans;
    hide LeadsComplete;
    hide Tiles;
    var chunk := text[pos..end];
    var spans := Spans(chunk, 0, MAX_PIECES);
    var last := LastEnd(spans, 0);
    SpansTile(chunk, 0, MAX_PIECES);
    assert spans[0..] == spans;
    SpansRecover(m, dec, text, pos, spans, 0, 0, last);
    PartRecovers(DecodeIds(dec, SpansIds(m, text, pos, spans, 0)), text, pos, pos + last, end,
      SpansFit(text, pos, spans, 0));
  }

  /** Chunks of at most 8192 bytes whose spans have at most 510 bytes fit. */
  lemma ShortChunkFits(text: Bytes, pos: nat, end: nat)
    requires pos <= end <= |text| && LeadsComplete(text[pos..end]) && end - pos <= MAX_PIECES
    requires forall k :: 0 <= k < |Spans(text[pos..end], 0, MAX_PIECES)| ==>
      Spans(text[pos..end], 0, MAX_PIECES)[k].end - Spans(text[pos..end], 0, MAX_PIECES)[k].start <= 510
    ensures ChunkFits(text, pos, end)
  {
    var chunk := text[pos..end];
    var spans := Spans(chunk, 0, MAX_PIECES);
    SpansTile(chunk, 0, MAX_PIECES);
    TilesEnd(spans, 0);
    ShortSpansFit(text, pos, spans, 0);
  }

  lemma {:induction false} ShortSpansFit(text: Bytes, pos: nat, spans: seq<Span>, k: nat)
    requires k <= |spans| && forall j :: k <= j < |spans| ==> spans[j].end - spans[j].start <= 510
    ensures SpansFit(text, pos, spans, k)
    decreases |spans| - k
  {
    if k < |spans| {
      FitsExactly(SpanBytes(text, pos, spans[k]), BUFFER);
      ShortSpansFit(text, pos, spans, k + 1);
    }
  }

  // ------------------------------------------------------------------------- the whole text

  ghost predicate AddedAreText(m: Model) {
    forall i :: 0 <= i < |m.added| ==> m.added[i].str != [] && IsUtf8(m.added[i].str)
  }

  /** A plain segment fits; an added token always does. */
  ghost predicate SegmentFits(m: Model, text: Bytes, pos: nat)
    requires pos < |text|
  {
    LongestAdded(text, pos, m.added, |m.added|) < 0 ==> ChunkFits(text, pos, SegmentEnd(m, text, pos))
  }

  /** Every plain chunk from `pos` on fits. */
  ghost predicate TextFits(m: Model, text: Bytes, pos: nat)
    decreases |text| - pos
  {
    pos >= |text| || (SegmentFits(m, text, pos) && TextFits(m, text, SegmentEnd(m, text, pos)))
  }

  lemma AfterAddedIsText(m: Model, text: Bytes, pos: nat)
    requires AddedAreText(m) && pos < |text| && IsUtf8(text[pos..])
    requires LongestAdded(text, pos, m.added, |m.added|) >= 0
    ensures IsUtf8(text[SegmentEnd(m, text, pos)..])
    ensures text[pos..SegmentEnd(m, text, pos)] == m.added[LongestAdded(text, pos, m.added, |m.added|)].str
  {
    var best := LongestAdded(text, pos, m.added, |m.added|);
    var end := SegmentEnd(m, text, pos);
    LongestAddedIsLongest(text, pos, m.added, |m.added|);
    assert text[pos..] == m.added[best].str + text[end..];
    DropText(m.added[best].str, text[end..]);
  }

  lemma MatchStartsCharacter(m: Model, text: Bytes, end: nat, i: nat)
    requires AddedAreText(m) && i < |m.added| && MatchesAt(text, end, m.added[i].str)
    ensures end < |text| && !Continuation(text[end])
  {
    assert FirstCharacterOk(m.added[i].str);
    assert text[end..end + |m.added[i].str|][0] == text[end];
  }

  lemma PlainChunkIsText(m: Model, text: Bytes, pos: nat)
    requires AddedAreText(m) && pos < |text| && IsUtf8(text[pos..])
    requires LongestAdded(text, pos, m.added, |m.added|) < 0
    ensures IsUtf8(text[SegmentEnd(m, text, pos)..])
    ensures LeadsComplete(text[pos..SegmentEnd(m, text, pos)])
  {
    var end := SegmentEnd(m, text, pos);
    if end < |text| {
      ChunkEndIsFirstMatch(text, pos, m.added, |m.added|);
      var i :| 0 <= i < |m.added| && MatchesAt(text, end, m.added[i].str);
      MatchStartsCharacter(m, text, end, i);
    }
    CutBetween(text, pos, end);
    Utf8LeadsComplete(text[pos..end]);
  }

  /** Segments end between characters: an added token starts with a lead byte. */
  lemma SegmentIsText(m: Model, text: Bytes, pos: nat)
    requires AddedAreText(m) && pos < |text| && IsUtf8(text[pos..])
    ensures IsUtf8(text[SegmentEnd(m, text, pos)..])
    ensures LongestAdded(text, pos, m.added, |m.added|) < 0 ==> LeadsComplete(text[pos..SegmentEnd(m, text, pos)])
  {
    if LongestAdded(text, pos, m.added, |m.added|) >= 0 {
      AfterAddedIsText(m, text, pos);
    } else {
      PlainChunkIsText(m, text, pos);
    }
  }

  lemma SegmentRecovers(m: Model, dec: map<U32, Bytes>, text: Bytes, pos: nat)
    requires Complete(m) && Decodes(m, dec) && AddedAreText(m)
    requires pos < |text| && IsUtf8(text[pos..])
    ensures Recovers(DecodeIds(dec, SegmentIds(m, text, pos)), text[pos..SegmentEnd(m, text, pos)],
      SegmentFits(m, text, pos))
  {
    var best := LongestAdded(text, pos, m.added, |m.added|);
    if best >= 0 {
      AfterAddedIsText(m, text, pos);
      DecodeOne(dec, m.added[best].id);
    } else {
      PlainChunkIsText(m, text, pos);
      ChunkRecovers(m, dec, text, pos, SegmentEnd(m, text, pos));
    }
  }

  lemma {:induction false} EncodeRecovers(m: Model, dec: map<U32, Bytes>, text: Bytes, pos: nat)
    requires Complete(m) && Decodes(m, dec) && AddedAreText(m)
    requires pos <= |text| && IsUtf8(text[pos..])
    ensures Recovers(DecodeIds(dec, Encode(m, text, pos)), text[pos..|text|], TextFits(m, text, pos))
    decreases |text| - pos
  {
    if pos < |text| {
      hide Complete;
      hide Decodes;
      hide AddedAreText;
      hide DecodeIds;
      hide Recovers;
      hide SegmentEnd;
      hide SegmentIds;
      hide SegmentFits;
      hide IsUtf8;
      var end := SegmentEnd(m, text, pos);
      SegmentIsText(m, text, pos);
      SegmentRecovers(m, dec, text, pos);
      EncodeRecovers(m, dec, text, end);
      JoinRecovered(dec, text, pos, end, |text|, SegmentIds(m, text, pos), Encode(m, text, end),
        SegmentFits(m, text, pos), TextFits(m, text, end));
    }
  }

  // ------------------------------------------------------------------- the limit on the ids

  /** Every id stands for at least one byte. */
  ghost predicate Spells(dec: map<U32, Bytes>, ids: Ids) {
    forall i :: 0 <= i < |ids| ==> ids[i] in dec && dec[ids[i]] != []
  }

  lemma {:induction false} SpelledLength(dec: map<U32, Bytes>, ids: Ids)
    requires Spells(dec, ids)
    ensures |DecodeIds(dec, ids)| >= |ids|
  {
    if ids != [] {
      SpelledLength(dec, ids[1..]);
    }
  }

  ghost predicate AllFull(parts: seq<Bytes>) {
    forall i :: 0 <= i < |parts| ==> parts[i] != []
  }

  /** The pieces of a span are not empty. */
  lemma PiecesAreFull(m: Model, s: Bytes)
    ensures AllFull(Merge(m.ranks, Characters(s, MAX_PIECES)))
  {
    hide Merge;
    hide Characters;
    var parts := Characters(s, MAX_PIECES);
    CharactersOfText(s, MAX_PIECES);
    MergeKeepsShort(m.ranks, parts, |parts|);
  }

  lemma {:induction false} PartsSpell(m: Model, dec: map<U32, Bytes>, parts: seq<Bytes>, k: nat)
    requires Decodes(m, dec) && AllIn(parts, m.vocab) && AllFull(parts)
    ensures Spells(dec, AllPartIds(m.vocab, parts, k))
    decreases |parts| - k
  {
    if k < |parts| {
      PartsSpell(m, dec, parts, k + 1);
    }
  }

  lemma SpanSpells(m: Model, dec: map<U32, Bytes>, raw: Bytes)
    requires Complete(m) && Decodes(m, dec)
    ensures Spells(dec, SpanIds(m, raw))
  {
    hide Complete;
    hide Decodes;
    hide Taken;
    hide Merge;
    hide Characters;
    hide AllIn;
    hide AllPartIds;
    var taken := raw[..Taken(raw, 0, BUFFER)];
    TakenIsBounded(raw, 0, BUFFER);
    NeverFallsBack(m, taken);
    PiecesAreFull(m, EncodeBytes(taken));
    PartsSpell(m, dec, Merge(m.ranks, Characters(EncodeBytes(taken), MAX_PIECES)), 0);
  }

  lemma {:induction false} SpansSpell(m: Model, dec: map<U32, Bytes>, text: Bytes, pos: nat, spans: seq<Span>, k: nat)
    requires Complete(m) && Decodes(m, dec)
    ensures Spells(dec, SpansIds(m, text, pos, spans, k))
    decreases |spans| - k
  {
    hide Complete;
    hide Decodes;
    hide SpanIds;
    if k < |spans| {
      SpanSpells(m, dec, SpanBytes(text, pos, spans[k]));
      SpansSpell(m, dec, text, pos, spans, k + 1);
    }
  }

  lemma {:induction false} EncodeSpells(m: Model, dec: map<U32, Bytes>, text: Bytes, pos: nat)
    requires Complete(m) && Decodes(m, dec) && AddedAreText(m)
    ensures Spells(dec, Encode(m, text, pos))
    decreases |text| - pos
  {
    hide SpansIds;
    hide Spans;
    hide ChunkEnd;
    hide Complete;
    if pos < |text| {
      var end := SegmentEnd(m, text, pos);
      if LongestAdded(text, pos, m.added, |m.added|) < 0 {
        SpansSpell(m, dec, text, pos, Spans(text[pos..end], 0, MAX_PIECES), 0);
      }
      EncodeSpells(m, dec, text, end);
    }
  }

  /** Dropping ids that stand for something loses text. */
  lemma LimitLoses(dec: map<U32, Bytes>, all: Ids, text: Bytes, fits: bool, maxIds: int)
    requires Spells(dec, all) && Recovers(DecodeIds(dec, all), text, fits)
    ensures |all| <= |text|
    ensures DecodeIds(dec, Take(all, maxIds)) == text <==> (fits && |all| <= maxIds) || text == []
  {
    hide DecodeIds;
    var kept := Take(all, maxIds);
    var dropped := all[|kept|..];
    assert kept + dropped == all;
    DecodeIdsConcat(dec, kept, dropped);
    SpelledLength(dec, all);
    SpelledLength(dec, dropped);
    SpelledLength(dec, kept);
    NothingDecoded(dec);
  }

  lemma NothingDecoded(dec: map<U32, Bytes>)
    ensures DecodeIds(dec, []) == []
  {
  }

  /** The ids of a text that are written up to a limit decode to the text exactly
      when every chunk fits and so do the ids; there are at most as many ids as bytes. */
  lemma EncodingIsLossless(m: Model, dec: map<U32, Bytes>, text: Bytes, maxIds: int)
    requires Complete(m) && Decodes(m, dec) && AddedAreText(m) && IsUtf8(text)
    ensures DecodeIds(dec, Take(Encode(m, text, 0), maxIds)) == text
      <==> (TextFits(m, text, 0) && |Encode(m, text, 0)| <= maxIds) || text == []
    ensures DecodeIds(dec, Encode(m, text, 0)) == text <==> TextFits(m, text, 0)
    ensures |Encode(m, text, 0)| <= |text|
  {
    hide Complete;
    hide Decodes;
    hide DecodeIds;
    hide Encode;
    hide TextFits;
    assert text[0..] == text && text[0..|text|] == text;
    EncodeRecovers(m, dec, text, 0);
    EncodeSpells(m, dec, text, 0);
    LimitLoses(dec, Encode(m, text, 0), text, TextFits(m, text, 0), maxIds);
  }

  /** In particular every text of at most 510 bytes comes back. */
  lemma {:induction false} ShortTextFits(m: Model, text: Bytes, pos: nat)
    requires AddedAreText(m) && pos <= |text| <= 510 && IsUtf8(text[pos..])
    ensures TextFits(m, text, pos)
    decreases |text| - pos
  {
    if pos < |text| {
      var end := SegmentEnd(m, text, pos);
      SegmentIsText(m, text, pos);
      if LongestAdded(text, pos, m.added, |m.added|) < 0 {
        SpansStayInside(text[pos..end], 0, MAX_PIECES, end - pos);
        ShortChunkFits(text, pos, end);
      }
      ShortTextFits(m, text, end);
    }
  }

  // --------------------------------------------------------------------- a word that is too long

  function Letters(n: nat): (s: Bytes)
    ensures |s| == n && forall i :: 0 <= i < n ==> s[i] == 0x61
  {
    seq(n, _ => 0x61)
  }

  lemma {:induction false} LettersAreOneWord(n: nat, i: nat)
    requires i <= n
    ensures SkipWord(Letters(n), i) == n
    decreases n - i
  {
    if i < n {
      LettersAreOneWord(n, i + 1);
    }
  }

  lemma {:induction false} LettersAreText(s: Bytes)
    requires forall i :: 0 <= i < |s| ==> s[i] == 0x61
    ensures IsUtf8(s)
  {
    if s != [] {
      LettersAreText(s[1..]);
    }
  }

  lemma {:induction false} LettersStayOneByte(s: Bytes)
    requires forall i :: 0 <= i < |s| ==> s[i] == 0x61
    ensures |EncodeBytes(s)| == |s|
  {
    if s != [] {
      LettersStayOneByte(s[1..]);
    }
  }

  /** Without added tokens, a word of `n` letters comes back exactly if it has at most 1020. */
  lemma LongWordIsCut(m: Model, dec: map<U32, Bytes>, n: nat)
    requires Complete(m) && Decodes(m, dec) && m.added == []
    ensures DecodeIds(dec, Encode(m, Letters(n), 0)) == Letters(n) <==> n <= 1020
  {
    hide Take;
    hide Encode;
    hide DecodeIds;
    hide TextFits;
    hide IsUtf8;
    hide Complete;
    hide Decodes;
    var text := Letters(n);
    LettersAreText(text);
    LettersFit(m, n);
    EncodingIsLossless(m, dec, text, n);
  }

  /** Without merge rules either, it needs room for `n` ids. */
  lemma WordNeedsRoom(m: Model, dec: map<U32, Bytes>, n: nat, maxIds: int)
    requires Complete(m) && Decodes(m, dec) && m.added == [] && m.ranks == map[]
    ensures DecodeIds(dec, Take(Encode(m, Letters(n), 0), maxIds)) == Letters(n) <==>
      n == 0 || (n <= 1020 && n <= maxIds)
  {
    hide Encode;
    hide DecodeIds;
    hide TextFits;
    hide IsUtf8;
    hide Complete;
    hide Decodes;
    hide Take;
    var text := Letters(n);
    LettersAreText(text);
    LettersFit(m, n);
    EncodingIsLossless(m, dec, text, maxIds);
    if 0 < n <= 1020 {
      LettersAreIds(m, n);
    }
  }

  lemma LettersAreIds(m: Model, n: nat)
    requires Complete(m) && m.added == [] && m.ranks == map[] && 0 < n <= 1020
    ensures |Encode(m, Letters(n), 0)| == n
  {
    hide Spans;
    hide SpanIds;
    var text := Letters(n);
    assert text[0..n] == text;
    LettersAreOneSpan(n);
    LettersFit(m, n);
    assert SegmentEnd(m, text, 0) == n;
    assert SpansIds(m, text, 0, [Span(0, n)], 0) == SpanIds(m, text) + SpansIds(m, text, 0, [Span(0, n)], 1);
    assert Encode(m, text, 0) == SpanIds(m, text);
    SpanOfLetters(m, text);
  }

  lemma SpanOfLetters(m: Model, raw: Bytes)
    requires Complete(m) && m.ranks == map[] && FitsIn(raw, BUFFER) && |raw| <= MAX_PIECES
    ensures |SpanIds(m, raw)| == |raw|
  {
    hide Complete;
    hide Taken;
    hide Characters;
    assert raw[..|raw|] == raw;
    var parts := Characters(EncodeBytes(raw), MAX_PIECES);
    CharactersOfEncoding(raw, MAX_PIECES);
    NeverFallsBack(m, raw);
    NothingMerges(parts);
    OneIdEach(m, parts, 0);
  }

  lemma NothingMerges(parts: seq<Bytes>)
    ensures Merge(map[], parts) == parts
  {
    assert forall a: Bytes, b: Bytes :: Rank(map[], a, b) == EMPTY;
    assert Best(map[], parts) < 0;
  }

  lemma {:induction false} OneIdEach(m: Model, parts: seq<Bytes>, k: nat)
    requires AllIn(parts, m.vocab) && k <= |parts|
    ensures |AllPartIds(m.vocab, parts, k)| == |parts| - k
    decreases |parts| - k
  {
    if k < |parts| {
      OneIdEach(m, parts, k + 1);
    }
  }

  lemma LettersFit(m: Model, n: nat)
    requires m.added == []
    ensures TextFits(m, Letters(n), 0) <==> n <= 1020
  {
    hide Spans;
    hide Taken;
    var text := Letters(n);
    if n > 0 {
      assert text[0..n] == text;
      LettersAreOneSpan(n);
      FitsExactly(text, BUFFER);
      LettersStayOneByte(text[..n - 1]);
      assert SegmentEnd(m, text, 0) == n;
      assert SpansFit(text, 0, [Span(0, n)], 0) == FitsIn(text, BUFFER);
    }
  }

  lemma LettersAreOneSpan(n: nat)
    requires n > 0
    ensures Spans(Letters(n), 0, MAX_PIECES) == [Span(0, n)]
  {
    LettersAreOneWord(n, 0);
    assert SpanEnd(Letters(n), 0) == n;
  }
}
