/** The encoder: added tokens are matched first, longest match at the leftmost
    place; the text between them is pretokenized, written in the byte alphabet
    and merged. */
module Tokenizer {
  import opened Bits
  import opened Seqs
  import opened ByteAlphabet
  import opened ProbingTable
  import opened Pretokenizer
  import opened MergeRules
  import opened TokenEmitter

  datatype AddedToken = AddedToken(str: Bytes, id: U32)

  /** What the loaded tables mean. */
  datatype Model = Model(vocab: map<Key, U32>, ranks: map<Key, U32>, added: seq<AddedToken>)

  /** The loaded tables themselves. */
  datatype Tables = Tables(vocab: Slots, merges: Slots, added: seq<AddedToken>, byteChar: seq<U32>)

  ghost predicate Stands(t: Tables, m: Model) {
    && Serves(t.vocab, m.vocab) && Serves(t.merges, m.ranks) && t.added == m.added
    && |t.byteChar| == 256 && forall b: Byte :: t.byteChar[b] == ByteChar(b)
  }

  const BUFFER: nat := 4 * MAX_TOKEN_LEN

  predicate MatchesAt(text: Bytes, pos: nat, str: Bytes) {
    pos + |str| <= |text| && text[pos..pos + |str|] == str
  }

  /** Among the first `n` added tokens, the longest one that matches at `pos`, the first of equals; -1 if none. */
  function LongestAdded(text: Bytes, pos: nat, added: seq<AddedToken>, n: nat): (best: int)
    requires n <= |added|
    ensures -1 <= best < n
    ensures best >= 0 ==> added[best].str != [] && pos + |added[best].str| <= |text|
  {
    if n == 0 then -1
    else
      var best := LongestAdded(text, pos, added, n - 1);
      if |added[n - 1].str| > (if best == -1 then 0 else |added[best].str|) && MatchesAt(text, pos, added[n - 1].str)
      then n - 1 else best
  }

  /** The first place from `j` on where `str` matches, or the end of the text. */
  function FirstMatch(text: Bytes, j: nat, str: Bytes): (k: nat)
    requires j <= |text|
    ensures j <= k <= |text|
    decreases |text| - j
  {
    if MatchesAt(text, j, str) || j == |text| then j else FirstMatch(text, j + 1, str)
  }

  /** The end of the plain chunk at `pos`: the first later match of any of the first `n` added tokens. */
  function ChunkEnd(text: Bytes, pos: nat, added: seq<AddedToken>, n: nat): (end: nat)
    requires pos < |text| && n <= |added|
    ensures pos < end <= |text|
  {
    if n == 0 then |text|
    else
      var end := ChunkEnd(text, pos, added, n - 1);
      var first := FirstMatch(text, pos + 1, added[n - 1].str);
      if first < end then first else end
  }

  /** The longest match is a match, no match is longer, and none of its length comes earlier in the list. */
  lemma {:induction false} LongestAddedIsLongest(text: Bytes, pos: nat, added: seq<AddedToken>, n: nat)
    requires n <= |added|
    ensures var best := LongestAdded(text, pos, added, n);
      && (best >= 0 ==> MatchesAt(text, pos, added[best].str))
      && forall i :: 0 <= i < n && MatchesAt(text, pos, added[i].str) && added[i].str != [] ==>
        best >= 0 && |added[best].str| >= |added[i].str| && (i < best ==> |added[best].str| > |added[i].str|)
  {
    if n > 0 {
      LongestAddedIsLongest(text, pos, added, n - 1);
    }
  }

  lemma {:induction false} FirstMatchIsFirst(text: Bytes, j: nat, str: Bytes)
    requires j <= |text|
    ensures FirstMatch(text, j, str) < |text| ==> MatchesAt(text, FirstMatch(text, j, str), str)
    ensures forall i :: j <= i < FirstMatch(text, j, str) ==> !MatchesAt(text, i, str)
    decreases |text| - j
  {
    if !MatchesAt(text, j, str) && j < |text| {
      FirstMatchIsFirst(text, j + 1, str);
    }
  }

  /** A plain chunk ends at a match or at the end of the text, and no added token matches inside it. */
  lemma {:induction false} ChunkEndIsFirstMatch(text: Bytes, pos: nat, added: seq<AddedToken>, n: nat)
    requires pos < |text| && n <= |added|
    ensures var end := ChunkEnd(text, pos, added, n);
      && (end < |text| ==> exists i :: 0 <= i < n && MatchesAt(text, end, added[i].str))
      && (forall i, j :: 0 <= i < n && pos < j < end ==> !MatchesAt(text, j, added[i].str))
  {
    hide MatchesAt;
    hide FirstMatch;
    if n > 0 {
      ChunkEndIsFirstMatch(text, pos, added, n - 1);
      FirstMatchIsFirst(text, pos + 1, added[n - 1].str);
    }
  }

  /** The bytes a span of the chunk at `pos` covers. */
  function SpanBytes(text: Bytes, pos: nat, span: Span): Bytes {
    var to := if pos + span.end <= |text| then pos + span.end else |text|;
    if pos + span.start <= to then text[pos + span.start..to] else []
  }

  /** The ids of one span: as much of it as the encoding buffer takes, then merged. */
  function SpanIds(m: Model, raw: Bytes): Ids {
    ProcessIds(m.vocab, m.ranks, EncodeBytes(raw[..Taken(raw, 0, BUFFER)]))
  }

  /** The ids of the spans from the `k`-th on. */
  function SpansIds(m: Model, text: Bytes, pos: nat, spans: seq<Span>, k: nat): Ids
    decreases |spans| - k
  {
    if k >= |spans| then [] else SpanIds(m, SpanBytes(text, pos, spans[k])) + SpansIds(m, text, pos, spans, k + 1)
  }

  function ChunkIds(m: Model, text: Bytes, pos: nat, end: nat): Ids
    requires pos <= end <= |text|
  {
    SpansIds(m, text, pos, Spans(text[pos..end], 0, MAX_PIECES), 0)
  }

  /** Where the segment at `pos` ends: after an added token, or at the end of a plain chunk. */
  function SegmentEnd(m: Model, text: Bytes, pos: nat): (end: nat)
    requires pos < |text|
    ensures pos < end <= |text|
  {
    var best := LongestAdded(text, pos, m.added, |m.added|);
    if best >= 0 then pos + |m.added[best].str| else ChunkEnd(text, pos, m.added, |m.added|)
  }

  function SegmentIds(m: Model, text: Bytes, pos: nat): Ids
    requires pos < |text|
  {
    var best := LongestAdded(text, pos, m.added, |m.added|);
    if best >= 0 then [m.added[best].id] else ChunkIds(m, text, pos, ChunkEnd(text, pos, m.added, |m.added|))
  }

  /** The ids of the text from `pos` on, without a limit on their number. */
  function Encode(m: Model, text: Bytes, pos: nat): Ids
    decreases |text| - pos
  {
    if pos >= |text| then [] else SegmentIds(m, text, pos) + Encode(m, text, SegmentEnd(m, text, pos))
  }

  // ------------------------------------------------------------------- the imperative form

  method FindAdded(added: seq<AddedToken>, text: Bytes, pos: nat) returns (best: int)
    ensures best == LongestAdded(text, pos, added, |added|)
  {
    best := -1;
    var bestLen := 0;
    for i := 0 to |added|
      invariant best == LongestAdded(text, pos, added, i)
      invariant bestLen == if best == -1 then 0 else |added[best].str|
    {
      var alen := |added[i].str|;
      if alen > bestLen && pos + alen <= |text| && text[pos..pos + alen] == added[i].str {
        bestLen, best := alen, i;
      }
    }
  }

  lemma {:induction false} NoMatchLeft(text: Bytes, j: nat, str: Bytes)
    requires j <= |text| && j + |str| > |text|
    ensures FirstMatch(text, j, str) == |text|
    decreases |text| - j
  {
    if j < |text| {
      NoMatchLeft(text, j + 1, str);
    }
  }

  /** The inner search loop: the first match from `from` on, or the end of the text. */
  method ScanFor(text: Bytes, from: nat, str: Bytes) returns (j: nat)
    requires from <= |text|
    ensures j == FirstMatch(text, from, str)
  {
    j := from;
    while j <= |text| - |str|
      invariant from <= j <= |text| && FirstMatch(text, from, str) == FirstMatch(text, j, str)
    {
      if text[j..j + |str|] == str {
        return j;
      }
      j := j + 1;
    }
    NoMatchLeft(text, j, str);
    j := |text|;
  }

  method FindChunkEnd(added: seq<AddedToken>, text: Bytes, pos: nat) returns (end: nat)
    requires pos < |text|
    ensures end == ChunkEnd(text, pos, added, |added|)
  {
    end := |text|;
    for i := 0 to |added|
      invariant end == ChunkEnd(text, pos, added, i)
    {
      var j := ScanFor(text, pos + 1, added[i].str);
      if j < end {
        end := j;
      }
    }
  }

  lemma NextSpan(m: Model, text: Bytes, pos: nat, spans: seq<Span>, k: nat)
    requires k < |spans| && spans[k].start <= spans[k].end && pos + spans[k].end <= |text|
    ensures SpansIds(m, text, pos, spans, k)
         == SpanIds(m, text[pos + spans[k].start..pos + spans[k].end]) + SpansIds(m, text, pos, spans, k + 1)
  {
    assert SpanBytes(text, pos, spans[k]) == text[pos + spans[k].start..pos + spans[k].end];
  }

  /** Encode the spans of one chunk, span by span, while there is room. */
  method EncodeSpans(t: Tables, text: Bytes, pos: nat, spans: seq<Span>, out: array<U32>, start: nat, limit: nat,
      ghost m: Model)
    returns (at: nat)
    requires Stands(t, m)
    requires forall k :: 0 <= k < |spans| ==> spans[k].start <= spans[k].end && pos + spans[k].end <= |text|
    requires start <= limit <= out.Length
    modifies out
    ensures start <= at <= limit
    ensures out[..at] == old(out[..start]) + Take(SpansIds(m, text, pos, spans, 0), limit - start)
  {
    hide SpanIds;
    hide SpanBytes;
    hide Stands;
    at := start;
    var bpeBuf := new Byte[BUFFER](_ => 0);
    var k: nat := 0;
    ghost var base, pending := out[..start], SpansIds(m, text, pos, spans, 0);
    ghost var all := base + pending;
    PrefixOfConcat(base, pending);
    while k < |spans| && at < limit
      invariant k <= |spans| && start <= at <= limit && at <= |all|
      invariant out[..at] == all[..at]
      invariant at < limit ==> all[at..] == SpansIds(m, text, pos, spans, k)
    {
      var raw := text[pos + spans[k].start..pos + spans[k].end];
      ghost var first := Take(SpanIds(m, raw), limit - at);
      NextSpan(m, text, pos, spans, k);
      Advance(all, at, SpanIds(m, raw), SpansIds(m, text, pos, spans, k + 1), limit - at, at + |first|);
      at := EncodeSpan(t, raw, bpeBuf, out, at, limit, m);
      k := k + 1;
    }
    AdvancedAll(base, pending, at, limit);
  }

  method EncodeSpan(t: Tables, raw: Bytes, bpeBuf: array<Byte>, out: array<U32>, start: nat, limit: nat, ghost m: Model)
    returns (at: nat)
    requires Stands(t, m) && bpeBuf.Length == BUFFER
    requires start <= limit <= out.Length
    modifies bpeBuf, out
    ensures start <= at <= limit
    ensures out[..at] == old(out[..start]) + Take(SpanIds(m, raw), limit - start)
  {
    hide Serves;
    hide ProcessIds;
    ghost var before := out[..start];
    var bpeLen := BytesToBpeStr(t.byteChar, raw, bpeBuf);
    assert out[..start] == before;
    var n := BpeProcess(t.vocab, t.merges, bpeBuf[..bpeLen], out, start, limit - start, m.vocab, m.ranks);
    at := start + n;
  }

  /** A plain chunk: its spans, then their ids. */
  method EncodeChunk(t: Tables, text: Bytes, pos: nat, end: nat, out: array<U32>, start: nat, limit: nat,
      ghost m: Model)
    returns (at: nat)
    requires Stands(t, m) && LeadsComplete(text) && pos < end <= |text|
    requires start <= limit <= out.Length
    modifies out
    ensures start <= at <= limit
    ensures out[..at] == old(out[..start]) + Take(ChunkIds(m, text, pos, end), limit - start)
  {
    var spans := new Span[MAX_PIECES](_ => Span(0, 0));
    ghost var before := out[..start];
    var n := Pretokenize(text[pos..end], spans, MAX_PIECES);
    SpansStayInside(text[pos..end], 0, MAX_PIECES, |text| - pos);
    assert out[..start] == before;
    at := EncodeSpans(t, text, pos, spans[..n], out, start, limit, m);
  }

  /** One segment: an added token's id, or the ids of a plain chunk. */
  method EncodeSegment(t: Tables, text: Bytes, pos: nat, out: array<U32>, start: nat, limit: nat, ghost m: Model)
    returns (end: nat, at: nat)
    requires Stands(t, m) && LeadsComplete(text) && pos < |text|
    requires start < limit <= out.Length
    modifies out
    ensures end == SegmentEnd(m, text, pos)
    ensures start <= at <= limit
    ensures out[..at] == old(out[..start]) + Take(SegmentIds(m, text, pos), limit - start)
  {
    var best := FindAdded(t.added, text, pos);
    if best >= 0 {
      PutId(out, start, t.added[best].id);
      at := start + 1;
      end := pos + |t.added[best].str|;
    } else {
      end := FindChunkEnd(t.added, text, pos);
      at := EncodeChunk(t, text, pos, end, out, start, limit, m);
    }
  }

  /** `bpe_encode`: as many ids of the text as fit.  Every announced multi-byte
      sequence must lie inside the text, or a span would run past its end. */
  method BpeEncode(t: Tables, text: Bytes, out: array<U32>, maxIds: int, ghost m: Model) returns (outN: nat)
    requires Stands(t, m) && LeadsComplete(text)
    requires maxIds <= out.Length
    modifies out
    ensures outN <= out.Length
    ensures out[..outN] == Take(Encode(m, text, 0), maxIds)
  {
    if maxIds <= 0 {
      return 0;
    }
    outN := 0;
    var pos: nat := 0;
    ghost var all := Encode(m, text, 0);
    while pos < |text| && outN < maxIds
      invariant outN <= maxIds && outN <= |all|
      invariant out[..outN] == all[..outN]
      invariant outN < maxIds ==> all[outN..] == Encode(m, text, pos)
      decreases |text| - pos
    {
      ghost var first, done := Take(SegmentIds(m, text, pos), maxIds - outN), outN;
      Advance(all, done, SegmentIds(m, text, pos), Encode(m, text, SegmentEnd(m, text, pos)), maxIds - outN,
        done + |first|);
      pos, outN := EncodeSegment(t, text, pos, out, outN, maxIds, m);
    }
    AdvancedAll([], all, outN, maxIds);
    assert [] + all == all;
  }
}
