/** What the pretokenizer's spans are, said without its scans: in UTF-8 text
    every span has one of a few shapes, and only one end gives a shape. */
module SpanShapes {
  import opened Bits
  import opened ByteAlphabet
  import opened Pretokenizer
  import opened Utf8

  /** Letters: ASCII letters and every byte of a longer character. */
  predicate IsLetter(c: nat) { IsAlpha(c) || c >= 0x80 }
  predicate IsMark(c: nat) { c < 0x80 && !IsAlpha(c) && !IsDigit(c) && !IsWs(c) }

  datatype Class = Space | Newline | Letter | Mark

  predicate Is(c: nat, k: Class) {
    match k
    case Space => IsWs(c)
    case Newline => IsNl(c)
    case Letter => IsLetter(c)
    case Mark => IsMark(c)
  }

  ghost predicate AllAre(text: Bytes, i: nat, j: nat, k: Class)
    requires i <= j <= |text|
  {
    forall p :: i <= p < j ==> Is(text[p], k)
  }

  /** The longest run of a class from `i` on, possibly empty, ends at `j`. */
  ghost predicate IsRun(text: Bytes, i: nat, j: nat, k: Class) {
    i <= j <= |text| && AllAre(text, i, j, k) && (j == |text| || !Is(text[j], k))
  }

  predicate Contracts(text: Bytes, i: nat, end: nat) {
    && i + 1 < |text| && text[i] == 0x27
    && var short := ShortContraction(WithBit5(text[i + 1]));
       (short && end == i + 2)
       || (!short && i + 2 < |text| && LongContraction(WithBit5(text[i + 1]), WithBit5(text[i + 2])) && end == i + 3)
  }

  /** Where the word, number or punctuation of the span starts: behind one leading space. */
  function BodyStart(text: Bytes, i: nat): nat
    requires i < |text|
  {
    if text[i] == 0x20 && i + 1 < |text| then i + 1 else i
  }

  datatype Shape =
    | LastSpaces         // white space with a newline in it, or at the end of the text
    | SpacesButOne       // white space before a word, but for the last of it
    | Contraction        // an apostrophe and s, t, m, d, re, ve or ll
    | Word               // letters, behind at most one space
    | Number             // one digit, behind at most one space
    | Punctuation        // other characters, behind at most one space, and the newlines after them
    | LoneSpace          // one character of white space other than a space

  ghost predicate HasShape(text: Bytes, i: nat, end: nat, shape: Shape)
    requires i < |text|
  {
    var w := BodyStart(text, i);
    match shape
    case LastSpaces => i < end && IsRun(text, i, end, Space)
      && (end == |text| || exists p :: i <= p < end && IsNl(text[p]))
    case SpacesButOne =>
      i < end && IsRun(text, i, end + 1, Space) && end + 1 < |text| && forall p :: i <= p <= end ==> !IsNl(text[p])
    case Contraction => Contracts(text, i, end)
    case Word => w < end && IsRun(text, w, end, Letter)
    case Number => IsDigit(text[w]) && end == w + 1
    case Punctuation =>
      !Contracts(text, i, i + 2) && !Contracts(text, i, i + 3)
      && exists m :: w < m && IsRun(text, w, m, Mark) && IsRun(text, m, end, Newline)
    case LoneSpace => IsRun(text, i, i + 1, Space) && end == i + 1 < |text| && text[i] != 0x20 && !IsNl(text[i])
  }

  // ------------------------------------------------------------------ the scans find the runs

  lemma {:induction false} WsRun(text: Bytes, i: nat)
    requires i <= |text|
    ensures IsRun(text, i, SkipWs(text, i), Space)
    decreases |text| - i
  {
    if i < |text| && IsWs(text[i]) {
      WsRun(text, i + 1);
    }
  }

  lemma {:induction false} NlRun(text: Bytes, i: nat)
    requires i <= |text|
    ensures IsRun(text, i, SkipNl(text, i), Newline)
    decreases |text| - i
  {
    if i < |text| && IsNl(text[i]) {
      NlRun(text, i + 1);
    }
  }

  lemma NextCharacter(text: Bytes, i: nat)
    requires i < |text| && IsUtf8(text[i..])
    ensures var n := SequenceLength(text[i]);
      && 1 <= n && i + n <= |text| && IsUtf8(text[i + n..])
      && (forall k :: i < k < i + n ==> 0x80 <= text[k])
      && (text[i] >= 0xC0 ==> n == LeadLength(text[i])) && (text[i] < 0xC0 ==> text[i] < 0x80 && n == 1)
  {
    var s, n := text[i..], SequenceLength(text[i]);
    assert FirstCharacterOk(s);
    assert s[n..] == text[i + n..];
    forall k | i < k < i + n
      ensures 0x80 <= text[k]
    {
      assert Continuation(s[k - i]);
    }
  }

  lemma {:induction false} LetterRun(text: Bytes, i: nat)
    requires i <= |text| && IsUtf8(text[i..])
    ensures SkipWord(text, i) <= |text| && IsUtf8(text[SkipWord(text, i)..])
    ensures IsRun(text, i, SkipWord(text, i), Letter)
    decreases |text| - i
  {
    hide IsUtf8;
    hide IsRun;
    hide SequenceLength;
    hide LeadLength;
    if i < |text| {
      NextCharacter(text, i);
      if text[i] >= 0xC0 || IsAlpha(text[i]) {
        var next := i + SequenceLength(text[i]);
        LetterRun(text, next);
        RunGrows(text, i, next, SkipWord(text, next), Letter);
      } else {
        EmptyRun(text, i, Letter);
      }
    } else {
      EmptyRun(text, i, Letter);
    }
  }

  lemma EmptyRun(text: Bytes, i: nat, k: Class)
    requires i <= |text| && (i == |text| || !Is(text[i], k))
    ensures IsRun(text, i, i, k)
  {
  }

  lemma RunGrows(text: Bytes, i: nat, next: nat, end: nat, k: Class)
    requires i <= next && IsRun(text, next, end, k)
    requires forall p :: i <= p < next ==> Is(text[p], k)
    ensures IsRun(text, i, end, k)
  {
    hide Is;
  }

  lemma RunIsUnique(text: Bytes, i: nat, a: nat, b: nat, k: Class)
    requires IsRun(text, i, a, k) && IsRun(text, i, b, k)
    ensures a == b
  {
    hide Is;
  }

  lemma {:induction false} MarkRun(text: Bytes, i: nat)
    requires i <= |text| && IsUtf8(text[i..])
    ensures IsUtf8(text[SkipPunct(text, i)..])
    ensures IsRun(text, i, SkipPunct(text, i), Mark)
    decreases |text| - i
  {
    if i < |text| {
      NextCharacter(text, i);
      if !IsAlnumWs(text[i]) {
        MarkRun(text, i + 1);
      }
    }
  }

  // ------------------------------------------------------------------------- every span, exactly

  /** Behind an ASCII byte a character starts. */
  lemma {:induction false} AfterAscii(text: Bytes, i: nat, k: nat)
    requires i <= k < |text| && IsUtf8(text[i..]) && text[k] < 0x80
    ensures IsUtf8(text[k + 1..])
    decreases |text| - i
  {
    hide IsUtf8;
    hide SequenceLength;
    NextCharacter(text, i);
    var n := SequenceLength(text[i]);
    if i + n <= k {
      AfterAscii(text, i + n, k);
    }
  }

  lemma WordEndHasShape(text: Bytes, i: nat) returns (shape: Shape)
    requires i < |text| && IsUtf8(text[i..]) && !IsWs(text[BodyStart(text, i)])
    ensures WordEnd(text, i) <= |text| && HasShape(text, i, WordEnd(text, i), shape)
    ensures IsUtf8(text[WordEnd(text, i)..])
  {
    hide IsUtf8;
    hide IsRun;
    hide SkipWord;
    hide SkipPunct;
    hide SkipNl;
    var w, end := BodyStart(text, i), WordEnd(text, i);
    if w > i {
      AfterAscii(text, i, i);
    }
    NextCharacter(text, w);
    if Contracts(text, i, i + 2) {
      shape := Contraction;
      ContractionIsAscii(text, i, i + 2);
      AfterAscii(text, i, i + 1);
    } else if Contracts(text, i, i + 3) {
      shape := Contraction;
      ContractionIsAscii(text, i, i + 3);
      AfterAscii(text, i, i + 2);
    } else if IsLetter(text[w]) {
      shape := Word;
      LetterRun(text, w);
      LetterIsSkipped(text, w);
    } else if IsDigit(text[w]) {
      shape := Number;
      AfterAscii(text, w, w);
    } else {
      shape := Punctuation;
      PunctuationEnds(text, w);
    }
  }

  lemma ContractionIsAscii(text: Bytes, i: nat, end: nat)
    requires Contracts(text, i, end)
    ensures i < end - 1 < |text| && text[end - 1] < 0x80
  {
    hide WithBit5;
    AsciiWithBit5(text[end - 1]);
  }

  lemma AsciiWithBit5(c: Byte)
    requires WithBit5(c) < 0x80
    ensures c < 0x80
  {
  }

  lemma PunctuationEnds(text: Bytes, w: nat)
    requires w < |text| && IsUtf8(text[w..]) && IsMark(text[w])
    ensures var m := SkipPunct(text, w);
      var end := SkipNl(text, m);
      w < m && IsRun(text, w, m, Mark) && IsRun(text, m, end, Newline) && IsUtf8(text[end..])
  {
    hide IsUtf8;
    hide IsRun;
    hide SkipPunct;
    hide SkipNl;
    MarkRun(text, w);
    MarkIsSkipped(text, w);
    var m := SkipPunct(text, w);
    NlRun(text, m);
    var end := SkipNl(text, m);
    if end > m {
      NewlinesAreAscii(text, m, end);
      AfterAscii(text, w, end - 1);
    }
  }

  lemma LetterIsSkipped(text: Bytes, w: nat)
    requires w < |text| && (text[w] >= 0xC0 || IsAlpha(text[w]))
    ensures SkipWord(text, w) > w
  {
  }

  lemma MarkIsSkipped(text: Bytes, w: nat)
    requires w < |text| && IsMark(text[w])
    ensures SkipPunct(text, w) > w
  {
  }

  lemma NewlinesAreAscii(text: Bytes, m: nat, end: nat)
    requires IsRun(text, m, end, Newline) && m < end
    ensures text[end - 1] < 0x80
  {
    assert Is(text[end - 1], Newline);
  }

  /** Every span of UTF-8 text that starts at a character has a shape and ends at one. */
  lemma SpanHasShape(text: Bytes, i: nat) returns (shape: Shape)
    requires i < |text| && IsUtf8(text[i..])
    ensures SpanEnd(text, i) <= |text| && HasShape(text, i, SpanEnd(text, i), shape)
    ensures IsUtf8(text[SpanEnd(text, i)..])
  {
    hide IsUtf8;
    hide SkipWord;
    hide SkipPunct;
    hide SkipNl;
    var j, end := SkipWs(text, i), SpanEnd(text, i);
    WsRun(text, i);
    if IsWs(text[i]) && (j == |text| || HasNl(text, i, j)) {
      shape := LastSpaces;
      AfterAscii(text, i, j - 1);
    } else if IsWs(text[i]) && j - i > 1 {
      shape := SpacesButOne;
      AfterAscii(text, i, j - 2);
    } else if IsWs(text[i]) && text[i] != 0x20 {
      shape := LoneSpace;
      AfterAscii(text, i, i);
    } else {
      shape := WordEndHasShape(text, i);
    }
  }

  // --------------------------------------------------------------------- and no other end has one

  lemma SpacesEnd(text: Bytes, i: nat, end: nat, shape: Shape)
    requires i < |text| && HasShape(text, i, end, shape)
    requires shape == LastSpaces || shape == SpacesButOne || shape == LoneSpace
    ensures end == SpanEnd(text, i)
  {
    hide SkipWord;
    hide SkipPunct;
    hide SkipNl;
    var j := SkipWs(text, i);
    WsRun(text, i);
    match shape
    case LastSpaces => RunIsUnique(text, i, end, j, Space);
    case SpacesButOne => RunIsUnique(text, i, end + 1, j, Space);
    case LoneSpace => RunIsUnique(text, i, i + 1, j, Space);
  }

  /** Where a body starts the white space is over: at most one space was skipped. */
  lemma BodyAfterSpaces(text: Bytes, i: nat)
    requires i < |text| && !IsWs(text[BodyStart(text, i)])
    ensures SpanEnd(text, i) == WordEnd(text, i)
  {
    hide WordEnd;
    if text[i] == 0x20 {
      WsRun(text, i);
      RunIsUnique(text, i, i + 1, SkipWs(text, i), Space);
    }
  }

  lemma BodyEnd(text: Bytes, i: nat, end: nat, shape: Shape)
    requires i < |text| && IsUtf8(text[i..]) && HasShape(text, i, end, shape)
    requires shape == Contraction || shape == Word || shape == Number || shape == Punctuation
    ensures end == SpanEnd(text, i)
  {
    hide IsUtf8;
    hide SkipWord;
    hide SkipPunct;
    hide SkipNl;
    hide SkipWs;
    hide SpanEnd;
    var w := BodyStart(text, i);
    if w > i {
      AfterAscii(text, i, i);
    }
    FirstOfBody(text, i, end, shape);
    BodyAfterSpaces(text, i);
    NextCharacter(text, w);
    match shape
    case Contraction =>
    case Number =>
    case Word =>
      LetterRun(text, w);
      RunIsUnique(text, w, end, SkipWord(text, w), Letter);
    case Punctuation =>
      var m :| w < m && IsRun(text, w, m, Mark) && IsRun(text, m, end, Newline);
      PunctuationEnds(text, w);
      RunIsUnique(text, w, m, SkipPunct(text, w), Mark);
      RunIsUnique(text, m, end, SkipNl(text, m), Newline);
  }

  lemma FirstOfBody(text: Bytes, i: nat, end: nat, shape: Shape)
    requires i < |text| && HasShape(text, i, end, shape)
    requires shape == Contraction || shape == Word || shape == Number || shape == Punctuation
    ensures var w := BodyStart(text, i);
      && !IsWs(text[w]) && (shape == Word ==> IsLetter(text[w])) && (shape == Punctuation ==> IsMark(text[w]))
  {
    var w := BodyStart(text, i);
    match shape
    case Word => assert Is(text[w], Letter);
    case Punctuation =>
      var m :| w < m && IsRun(text, w, m, Mark) && IsRun(text, m, end, Newline);
      assert Is(text[w], Mark);
    case _ =>
  }

  ghost predicate IsSpan(text: Bytes, i: nat, end: nat)
    requires i < |text|
  {
    exists shape :: HasShape(text, i, end, shape)
  }

  /** From a character on, the span ends exactly where it has one of the shapes. */
  lemma SpanEndsByShape(text: Bytes, i: nat, end: nat)
    requires i < |text| && IsUtf8(text[i..])
    ensures end == SpanEnd(text, i) <==> IsSpan(text, i, end)
  {
    hide IsUtf8;
    hide HasShape;
    hide SpanEnd;
    var found := SpanHasShape(text, i);
    forall shape | HasShape(text, i, end, shape)
      ensures end == SpanEnd(text, i)
    {
      if shape == LastSpaces || shape == SpacesButOne || shape == LoneSpace {
        SpacesEnd(text, i, end, shape);
      } else {
        BodyEnd(text, i, end, shape);
      }
    }
  }

  /** Every span of a UTF-8 chunk has a shape. */
  lemma {:induction false} SpansHaveShapes(text: Bytes, i: nat, max: nat)
    requires i <= |text| && IsUtf8(text[i..])
    ensures forall k :: 0 <= k < |Spans(text, i, max)| ==>
      Spans(text, i, max)[k].start < |text| && IsSpan(text, Spans(text, i, max)[k].start, Spans(text, i, max)[k].end)
    decreases max
  {
    hide IsUtf8;
    hide HasShape;
    hide SpanEnd;
    if i < |text| && max > 0 {
      var shape := SpanHasShape(text, i);
      SpansHaveShapes(text, SpanEnd(text, i), max - 1);
    }
  }

  /** The classes by byte: newline and carriage return; these, space and tab; letters
      and whatever is no ASCII; digits; and every other ASCII character. */
  lemma ByteClasses(c: Byte)
    ensures IsNl(c) <==> c == 10 || c == 13
    ensures IsWs(c) <==> c == 32 || c == 9 || c == 10 || c == 13
    ensures IsLetter(c) <==> 65 <= c <= 90 || 97 <= c <= 122 || c >= 128
    ensures IsDigit(c) <==> 48 <= c <= 57
    ensures IsMark(c) <==> c < 128 && !IsLetter(c) && !IsDigit(c) && !IsWs(c)
  {
  }

  /** The endings of contractions, small or large: s, t, m, d, and re, ve, ll. */
  lemma ContractionEndings(c: Byte, d: Byte)
    ensures ShortContraction(WithBit5(c)) <==>
      c == 0x53 || c == 0x73 || c == 0x54 || c == 0x74 || c == 0x4D || c == 0x6D || c == 0x44 || c == 0x64
    ensures LongContraction(WithBit5(c), WithBit5(d)) <==>
      || ((c == 0x52 || c == 0x72 || c == 0x56 || c == 0x76) && (d == 0x45 || d == 0x65))
      || ((c == 0x4C || c == 0x6C) && (d == 0x4C || d == 0x6C))
  {
  }
}
