/** The pretokenizer: cuts a chunk of text into spans (words with their leading
    space, single digits, punctuation runs, whitespace runs, contractions). */
module Pretokenizer {
  import opened Seqs
  import opened ByteAlphabet

  datatype Span = Span(start: nat, end: nat)

  predicate IsNl(c: nat) { c == 0x0A || c == 0x0D }
  predicate IsWs(c: nat) { c == 0x20 || c == 0x09 || IsNl(c) }
  predicate IsAlpha(c: nat) { 0x41 <= c <= 0x5A || 0x61 <= c <= 0x7A }
  predicate IsDigit(c: nat) { 0x30 <= c <= 0x39 }
  predicate IsAlnumWs(c: nat) { IsAlpha(c) || IsDigit(c) || IsWs(c) || c >= 0xC0 }

  /** `c | 0x20`: the ASCII lower-casing bit. */
  function WithBit5(c: nat): nat {
    if c / 32 % 2 == 1 then c else c + 32
  }

  /** Bytes of the sequence a lead byte announces. */
  function LeadLength(c: nat): nat {
    if c < 0xE0 then 2 else if c < 0xF0 then 3 else 4
  }

  function SkipWs(text: Bytes, i: nat): (j: nat)
    requires i <= |text|
    ensures i <= j <= |text|
    decreases |text| - i
  {
    if i < |text| && IsWs(text[i]) then SkipWs(text, i + 1) else i
  }

  function SkipPunct(text: Bytes, i: nat): (j: nat)
    requires i <= |text|
    ensures i <= j <= |text|
    decreases |text| - i
  {
    if i < |text| && !IsAlnumWs(text[i]) then SkipPunct(text, i + 1) else i
  }

  function SkipNl(text: Bytes, i: nat): (j: nat)
    requires i <= |text|
    ensures i <= j <= |text|
    decreases |text| - i
  {
    if i < |text| && IsNl(text[i]) then SkipNl(text, i + 1) else i
  }

  /** Letters and whole multi-byte sequences; a sequence cut short by the end of the chunk overshoots it. */
  function SkipWord(text: Bytes, i: nat): (j: nat)
    ensures i <= j
    decreases |text| - i
  {
    if i >= |text| then i
    else if text[i] >= 0xC0 then SkipWord(text, i + LeadLength(text[i]))
    else if IsAlpha(text[i]) then SkipWord(text, i + 1)
    else i
  }

  predicate HasNl(text: Bytes, i: nat, j: nat)
    requires i <= j <= |text|
  {
    exists k :: i <= k < j && IsNl(text[k])
  }

  predicate ShortContraction(c: nat) { c == 0x73 || c == 0x74 || c == 0x6D || c == 0x64 }

  predicate LongContraction(c: nat, d: nat) {
    (c == 0x72 && d == 0x65) || (c == 0x76 && d == 0x65) || (c == 0x6C && d == 0x6C)
  }

  /** Where the span that starts at `i` ends. */
  function SpanEnd(text: Bytes, i: nat): (end: nat)
    requires i < |text|
    ensures end > i
  {
    var j := SkipWs(text, i);
    if IsWs(text[i]) && (HasNl(text, i, j) || j >= |text|) then j
    else if IsWs(text[i]) && j - i > 1 then j - 1
    else WordEnd(text, i)
  }

  /** The cases after whitespace runs: an optional leading space, then one run. */
  function WordEnd(text: Bytes, i: nat): (end: nat)
    requires i < |text|
    ensures end > i
  {
    var lead := text[i] == 0x20 && i + 1 < |text|;
    var w := if lead then i + 1 else i;
    var c := text[w];
    if !lead && c == 0x27 && w + 1 < |text| && ShortContraction(WithBit5(text[w + 1])) then w + 2
    else if !lead && c == 0x27 && w + 2 < |text| && LongContraction(WithBit5(text[w + 1]), WithBit5(text[w + 2]))
    then w + 3
    else if c >= 0xC0 || IsAlpha(c) then SkipWord(text, w)
    else if IsDigit(c) then w + 1
    else if !IsAlnumWs(c) then SkipNl(text, SkipPunct(text, w))
    else i + 1
  }

  /** The spans from `i` on, at most `max` of them. */
  function Spans(text: Bytes, i: nat, max: nat): (s: seq<Span>)
    ensures |s| <= max
    decreases |text| - i
  {
    if i < |text| && max > 0 then [Span(i, SpanEnd(text, i))] + Spans(text, SpanEnd(text, i), max - 1) else []
  }

  // ------------------------------------------------------------ the imperative form

  method ScanWs(text: Bytes, i: nat) returns (j: nat, hasNl: bool)
    requires i < |text|
    ensures j == SkipWs(text, i) && hasNl == HasNl(text, i, j)
  {
    hasNl := false;
    j := i;
    while j < |text| && IsWs(text[j])
      invariant i <= j <= |text|
      invariant SkipWs(text, i) == SkipWs(text, j)
      invariant hasNl == HasNl(text, i, j)
    {
      if IsNl(text[j]) {
        hasNl := true;
      }
      j := j + 1;
    }
  }

  method ScanWord(text: Bytes, w: nat) returns (j: nat)
    ensures j == SkipWord(text, w)
  {
    j := w;
    while j < |text|
      invariant w <= j && SkipWord(text, w) == SkipWord(text, j)
      decreases |text| - j
    {
      if text[j] >= 0xC0 {
        j := j + LeadLength(text[j]);
      } else if IsAlpha(text[j]) {
        j := j + 1;
      } else {
        break;
      }
    }
  }

  method ScanPunct(text: Bytes, w: nat) returns (j: nat)
    requires w <= |text|
    ensures j == SkipNl(text, SkipPunct(text, w))
  {
    j := w;
    while j < |text| && !IsAlnumWs(text[j])
      invariant w <= j <= |text| && SkipPunct(text, w) == SkipPunct(text, j)
    {
      j := j + 1;
    }
    while j < |text| && IsNl(text[j])
      invariant w <= j <= |text|
      invariant SkipNl(text, SkipPunct(text, w)) == SkipNl(text, j)
    {
      j := j + 1;
    }
  }

  method FindSpanEnd(text: Bytes, i: nat) returns (end: nat)
    requires i < |text|
    ensures end == SpanEnd(text, i)
  {
    var c := text[i];
    if IsWs(c) {
      var j, hasNl := ScanWs(text, i);
      if hasNl || j >= |text| {
        return j;
      }
      if j - i > 1 {
        return j - 1;
      }
    }
    var lead := c == 0x20 && i + 1 < |text|;
    var w := if lead then i + 1 else i;
    if w < |text| {
      var wc := text[w];
      if !lead && wc == 0x27 && w + 1 < |text| {
        var nc := WithBit5(text[w + 1]);
        if ShortContraction(nc) {
          return w + 2;
        }
        if w + 2 < |text| {
          if LongContraction(nc, WithBit5(text[w + 2])) {
            return w + 3;
          }
        }
      }
      if wc >= 0xC0 || IsAlpha(wc) {
        var j := ScanWord(text, w);
        if j > w {
          return j;
        }
      }
      if IsDigit(wc) {
        return w + 1;
      }
      if !IsAlnumWs(wc) {
        var j := ScanPunct(text, w);
        return j;
      }
    }
    return i + 1;
  }

  method Pretokenize(text: Bytes, spans: array<Span>, maxSpans: nat) returns (n: nat)
    requires maxSpans <= spans.Length
    modifies spans
    ensures n <= maxSpans && spans[..n] == Spans(text, 0, maxSpans)
  {
    n := 0;
    var i: nat := 0;
    while i < |text| && n < maxSpans
      invariant n <= maxSpans
      invariant spans[..n] + Spans(text, i, maxSpans - n) == Spans(text, 0, maxSpans)
      decreases maxSpans - n
    {
      var end := FindSpanEnd(text, i);
      Reassociate(spans[..n], [Span(i, end)], Spans(text, end, maxSpans - (n + 1)));
      ghost var before := spans[..n];
      spans[n] := Span(i, end);
      assert spans[..n + 1] == before + [Span(i, end)];
      n := n + 1;
      i := end;
    }
  }

  // ------------------------------------------------------------------ the partition

  /** Every lead byte has the bytes it announces before `bound`. */
  ghost predicate LeadsWithin(text: Bytes, bound: nat) {
    forall i :: 0 <= i < |text| && text[i] >= 0xC0 ==> i + LeadLength(text[i]) <= bound
  }

  /** Every lead byte has the bytes it announces inside the chunk. */
  ghost predicate LeadsComplete(text: Bytes) {
    LeadsWithin(text, |text|)
  }

  lemma {:induction false} WordStaysInside(text: Bytes, i: nat, bound: nat)
    requires LeadsWithin(text, bound) && i <= bound && |text| <= bound
    ensures SkipWord(text, i) <= bound
    decreases |text| - i
  {
    if i < |text| {
      if text[i] >= 0xC0 {
        WordStaysInside(text, i + LeadLength(text[i]), bound);
      } else if IsAlpha(text[i]) {
        WordStaysInside(text, i + 1, bound);
      }
    }
  }

  lemma SpanStaysInside(text: Bytes, i: nat, bound: nat)
    requires LeadsWithin(text, bound) && i < |text| <= bound
    ensures i < SpanEnd(text, i) <= bound
  {
    WordStaysInside(text, i, bound);
    if i + 1 < |text| {
      WordStaysInside(text, i + 1, bound);
    }
  }

  /** Even a span that overshoots its chunk stays below the bound. */
  lemma {:induction false} SpansStayInside(text: Bytes, i: nat, max: nat, bound: nat)
    requires LeadsWithin(text, bound) && |text| <= bound && i <= bound
    ensures forall k :: 0 <= k < |Spans(text, i, max)| ==>
      Spans(text, i, max)[k].start <= Spans(text, i, max)[k].end <= bound
    decreases |text| - i
  {
    if i < |text| && max > 0 {
      SpanStaysInside(text, i, bound);
      SpansStayInside(text, SpanEnd(text, i), max - 1, bound);
    }
  }

  /** Consecutive non-empty spans from `from`, ending at `to`. */
  ghost predicate Tiles(spans: seq<Span>, from: nat, to: nat) {
    if spans == [] then from == to
    else spans[0].start == from && from < spans[0].end <= to && Tiles(spans[1..], spans[0].end, to)
  }

  function LastEnd(spans: seq<Span>, from: nat): nat {
    if spans == [] then from else spans[|spans| - 1].end
  }

  /** Spans tile the chunk from the front, and reach its end unless the limit was hit. */
  lemma {:induction false} SpansTile(text: Bytes, i: nat, max: nat)
    requires LeadsComplete(text) && i <= |text|
    ensures Tiles(Spans(text, i, max), i, LastEnd(Spans(text, i, max), i))
    ensures LastEnd(Spans(text, i, max), i) <= |text|
    ensures LastEnd(Spans(text, i, max), i) == |text| || |Spans(text, i, max)| == max
    decreases |text| - i
  {
    if i < |text| && max > 0 {
      var end := SpanEnd(text, i);
      SpanStaysInside(text, i, |text|);
      SpansTile(text, end, max - 1);
      var rest := Spans(text, end, max - 1);
      var all := Spans(text, i, max);
      assert all == [Span(i, end)] + rest && all[1..] == rest;
      assert LastEnd(all, i) == LastEnd(rest, end);
      TilesEnd(rest, end);
    }
  }

  lemma {:induction false} TilesEnd(spans: seq<Span>, from: nat)
    requires Tiles(spans, from, LastEnd(spans, from))
    ensures LastEnd(spans, from) >= from + |spans|
  {
    if spans != [] {
      assert LastEnd(spans, from) == LastEnd(spans[1..], spans[0].end);
      TilesEnd(spans[1..], spans[0].end);
    }
  }

  /** A chunk with room for all its bytes is covered from end to end. */
  lemma ChunkIsPartitioned(text: Bytes, max: nat)
    requires LeadsComplete(text) && |text| <= max
    ensures Tiles(Spans(text, 0, max), 0, |text|)
  {
    SpansTile(text, 0, max);
    var s := Spans(text, 0, max);
    TilesEnd(s, 0);
  }

  // -------------------------------------------------------------- the span contents

  function Pieces(text: Bytes, spans: seq<Span>): seq<Bytes>
    requires forall k :: 0 <= k < |spans| ==> spans[k].start <= spans[k].end <= |text|
  {
    if spans == [] then [] else [text[spans[0].start..spans[0].end]] + Pieces(text, spans[1..])
  }

  lemma {:induction false} TilesInside(spans: seq<Span>, from: nat, to: nat)
    requires Tiles(spans, from, to)
    ensures from <= to
    ensures forall k :: 0 <= k < |spans| ==> from <= spans[k].start < spans[k].end <= to
  {
    if spans != [] {
      TilesInside(spans[1..], spans[0].end, to);
      assert forall k :: 1 <= k < |spans| ==> spans[k] == spans[1..][k - 1];
    }
  }

  lemma {:induction false} PiecesConcatenate(text: Bytes, spans: seq<Span>, from: nat, to: nat)
    requires Tiles(spans, from, to) && to <= |text|
    ensures forall k :: 0 <= k < |spans| ==> spans[k].start <= spans[k].end <= |text|
    ensures from <= to && Flatten(Pieces(text, spans)) == text[from..to]
  {
    TilesInside(spans, from, to);
    if spans != [] {
      var mid := spans[0].end;
      PiecesConcatenate(text, spans[1..], mid, to);
      var all := Pieces(text, spans);
      assert all[0] == text[from..mid] && all[1..] == Pieces(text, spans[1..]);
      assert text[from..mid] + text[mid..to] == text[from..to];
    }
  }
}
