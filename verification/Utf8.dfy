/** Well-formed UTF-8 as far as the tokenizer depends on it: every character is
    a lead byte followed by the continuation bytes it announces.  Section 3 of
    RFC 3629 allows fewer sequences, so its texts all qualify. */
module Utf8 {
  import opened ByteAlphabet
  import opened Pretokenizer

  predicate Continuation(b: nat) { 0x80 <= b < 0xC0 }

  /** Length of the sequence that lead byte `b` starts, 0 if it starts none. */
  function SequenceLength(b: nat): nat {
    if b < 0x80 then 1
    else if b < 0xC0 then 0
    else if b < 0xE0 then 2
    else if b < 0xF0 then 3
    else if b < 0xF8 then 4
    else 0
  }

  predicate FirstCharacterOk(s: Bytes)
    requires s != []
  {
    && 1 <= SequenceLength(s[0]) <= |s|
    && forall k :: 1 <= k < SequenceLength(s[0]) ==> Continuation(s[k])
  }

  predicate IsUtf8(s: Bytes) {
    s == [] || (FirstCharacterOk(s) && IsUtf8(s[SequenceLength(s[0])..]))
  }

  lemma {:induction false} Utf8LeadsComplete(s: Bytes)
    requires IsUtf8(s)
    ensures LeadsComplete(s)
  {
    if s != [] {
      var n := SequenceLength(s[0]);
      Utf8LeadsComplete(s[n..]);
      forall i | 0 <= i < |s| && s[i] >= 0xC0
        ensures i + LeadLength(s[i]) <= |s|
      {
        assert 0 < i < n ==> Continuation(s[i]);
        if i >= n {
          assert s[n..][i - n] == s[i];
        }
      }
    }
  }

  lemma NoTextStartsInside(s: Bytes)
    ensures IsUtf8(s) ==> s == [] || !Continuation(s[0])
  {
  }

  /** A text splits into two texts exactly where no continuation byte follows. */
  lemma {:induction false} CutAtCharacter(s: Bytes, i: nat)
    requires IsUtf8(s) && i <= |s|
    ensures IsUtf8(s[..i]) && IsUtf8(s[i..]) <==> i == |s| || !Continuation(s[i])
  {
    if i == 0 {
      assert s[..0] == [] && s[0..] == s;
    } else if i < |s| && Continuation(s[i]) {
      hide IsUtf8;
      NoTextStartsInside(s[i..]);
      assert s[i..][0] == s[i];
    } else {
      var n := SequenceLength(s[0]);
      assert i >= n;
      var tail := s[n..];
      CutAtCharacter(tail, i - n);
      assert tail[i - n..] == s[i..];
      FirstCharacterOfFront(s, i);
    }
  }

  lemma FirstCharacterOfFront(s: Bytes, i: nat)
    requires s != [] && FirstCharacterOk(s) && SequenceLength(s[0]) <= i <= |s|
    requires IsUtf8(s[SequenceLength(s[0])..][..i - SequenceLength(s[0])])
    ensures IsUtf8(s[..i])
  {
    hide SequenceLength;
    hide Continuation;
    var n, front := SequenceLength(s[0]), s[..i];
    assert front[n..] == s[n..][..i - n];
    assert front[0] == s[0] && forall k :: 1 <= k < n ==> front[k] == s[k];
    assert FirstCharacterOk(front);
  }

  lemma {:induction false} DropText(a: Bytes, rest: Bytes)
    requires IsUtf8(a) && IsUtf8(a + rest)
    ensures IsUtf8(rest)
  {
    if a == [] {
      assert a + rest == rest;
    } else {
      var n := SequenceLength(a[0]);
      assert (a + rest)[0] == a[0];
      assert (a + rest)[n..] == a[n..] + rest;
      DropText(a[n..], rest);
    }
  }

  lemma CutBetween(text: Bytes, pos: nat, end: nat)
    requires pos <= end <= |text| && IsUtf8(text[pos..])
    requires end == |text| || !Continuation(text[end])
    ensures IsUtf8(text[pos..end]) && IsUtf8(text[end..])
  {
    hide IsUtf8;
    hide Continuation;
    var tail := text[pos..];
    CutAtCharacter(tail, end - pos);
    assert tail[end - pos..] == text[end..];
    assert tail[..end - pos] == text[pos..end];
  }
}
