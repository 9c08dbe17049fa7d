/** The GPT-2 byte alphabet: every byte has a printable code point of its own,
    so any byte string can be written as text.  Printable Latin-1 bytes keep
    their value; the others are numbered from 256 upwards. */
module ByteAlphabet {
  import opened Bits
  import opened Seqs

  type Bytes = seq<Byte>

  predicate Printable(b: nat) {
    0x21 <= b <= 0x7E || 0xA1 <= b <= 0xAC || 0xAE <= b <= 0xFF
  }

  function CountUnprintable(b: nat): nat {
    if b == 0 then 0 else CountUnprintable(b - 1) + (if Printable(b - 1) then 0 else 1)
  }

  function ByteChar(b: Byte): U32 {
    if Printable(b) then b
    else if b <= 0x20 then 0x100 + b
    else if b <= 0xA0 then 0x121 + (b - 0x7F)
    else 0x143
  }

  function CharByte(cp: nat): Byte {
    if cp < 0x100 then (if Printable(cp) then cp else 0)
    else if cp <= 0x120 then cp - 0x100
    else if cp <= 0x142 then cp - 0x121 + 0x7F
    else if cp == 0x143 then 0xAD
    else 0
  }

  /** The closed form agrees with numbering the unprintable bytes in order. */
  lemma {:induction false} CountingUnprintable(b: nat)
    requires b <= 0x100
    ensures CountUnprintable(b) ==
      if b <= 0x21 then b
      else if b <= 0x7F then 0x21
      else if b <= 0xA1 then 0x21 + (b - 0x7F)
      else if b <= 0xAD then 0x43
      else 0x44
  {
    if b > 0 {
      CountingUnprintable(b - 1);
    }
  }

  /** Bytes and the alphabet's code points are in bijection. */
  lemma AlphabetIsBijective(b: Byte, cp: nat)
    ensures CharByte(ByteChar(b)) == b
    ensures ByteChar(b) <= 0x143
    ensures (exists a: Byte :: ByteChar(a) == cp) <==> 0x100 <= cp <= 0x143 || (cp < 0x100 && Printable(cp))
    ensures (exists a: Byte :: ByteChar(a) == cp) ==> ByteChar(CharByte(cp)) == cp
  {
    if 0x100 <= cp <= 0x143 || (cp < 0x100 && Printable(cp)) {
      assert ByteChar(CharByte(cp)) == cp;
    }
  }

  /** The reverse table after the first `n` bytes have been entered. */
  function CharByteUpTo(cp: nat, n: nat): Byte {
    if ByteChar(CharByte(cp)) == cp && CharByte(cp) < n then CharByte(cp) else 0
  }

  lemma EnterByte(b: Byte, cp: nat)
    ensures CharByteUpTo(cp, b + 1) == if cp == ByteChar(b) then b else CharByteUpTo(cp, b)
    ensures CharByteUpTo(cp, 256) == CharByte(cp)
  {
    AlphabetIsBijective(b, ByteChar(b));
  }

  method BuildByteUnicodeTable() returns (byteChar: array<U32>, charByte: array<Byte>)
    ensures fresh(byteChar) && fresh(charByte)
    ensures byteChar.Length == 256 && charByte.Length == 512
    ensures forall b: Byte :: byteChar[b] == ByteChar(b)
    ensures forall cp :: 0 <= cp < 512 ==> charByte[cp] == CharByte(cp)
  {
    byteChar := new U32[256];
    var n := 0;
    for b := 0 to 256
      invariant n == CountUnprintable(b)
      invariant forall a :: 0 <= a < b ==> byteChar[a] == ByteChar(a)
    {
      CountingUnprintable(b);
      if (b >= 0x21 && b <= 0x7E) || (b >= 0xA1 && b <= 0xAC) || (b >= 0xAE && b <= 0xFF) {
        byteChar[b] := b;
      } else {
        byteChar[b] := 256 + n;
        n := n + 1;
      }
    }
    charByte := new Byte[512](_ => 0);
    for b := 0 to 256
      invariant forall a :: 0 <= a < 256 ==> byteChar[a] == ByteChar(a)
      invariant forall cp :: 0 <= cp < 512 ==> charByte[cp] == CharByteUpTo(cp, b)
    {
      forall cp | 0 <= cp < 512
        ensures CharByteUpTo(cp, b + 1) == if cp == ByteChar(b) then b else CharByteUpTo(cp, b)
      {
        EnterByte(b, cp);
      }
      var cp := byteChar[b];
      if cp < 512 {
        charByte[cp] := b;
      }
    }
    forall cp | 0 <= cp < 512
      ensures charByte[cp] == CharByte(cp)
    {
      EnterByte(0, cp);
    }
  }

  // ------------------------------------------------ writing bytes as UTF-8 text

  /** The UTF-8 form of a code point below 0x10000 (section 3 of RFC 3629). */
  function Utf8Of(cp: nat): (s: Bytes)
    requires cp < 0x10000
    ensures 1 <= |s| <= 3
  {
    if cp < 0x80 then [cp]
    else if cp < 0x800 then [0xC0 + cp / 64, 0x80 + cp % 64]
    else [0xE0 + cp / 4096, 0x80 + cp / 64 % 64, 0x80 + cp % 64]
  }

  function EncodeByte(b: Byte): Bytes {
    Utf8Of(ByteChar(b))
  }

  function EncodeBytes(raw: Bytes): Bytes {
    if raw == [] then [] else EncodeByte(raw[0]) + EncodeBytes(raw[1..])
  }

  /** Length of the character that starts with `c`, as the merge loop cuts it. */
  function CharLength(c: Byte): nat {
    if c < 0x80 then 1 else if c < 0xE0 then 2 else if c < 0xF0 then 3 else 4
  }

  /** The code point of a two-byte sequence. */
  function TwoByteChar(lead: nat, trail: nat): nat {
    lead % 32 * 64 + trail % 64
  }

  /** Reading text of the alphabet back: each character through the reverse table. */
  function DecodeBytes(s: Bytes): Bytes {
    if s == [] then []
    else if s[0] < 0x80 || |s| == 1 then [CharByte(s[0])] + DecodeBytes(s[1..])
    else [CharByte(TwoByteChar(s[0], s[1]))] + DecodeBytes(s[2..])
  }

  lemma EncodedByte(b: Byte)
    ensures |EncodeByte(b)| == CharLength(EncodeByte(b)[0]) <= 2
    ensures EncodeByte(b)[0] <= 0xC5 && (|EncodeByte(b)| == 2 ==> 0x80 <= EncodeByte(b)[1] < 0xC0)
    ensures if |EncodeByte(b)| == 1 then CharByte(EncodeByte(b)[0]) == b
            else CharByte(TwoByteChar(EncodeByte(b)[0], EncodeByte(b)[1])) == b
  {
    hide ByteChar;
    hide CharByte;
    AlphabetIsBijective(b, 0);
    ShortUtf8(ByteChar(b));
  }

  /** The code points of the alphabet take one or two bytes. */
  lemma ShortUtf8(cp: nat)
    requires cp <= 0x143
    ensures var s := Utf8Of(cp);
      && |s| == CharLength(s[0]) <= 2 && s[0] <= 0xC5
      && (|s| == 1 ==> s[0] == cp)
      && (|s| == 2 ==> 0x80 <= s[1] < 0xC0 && TwoByteChar(s[0], s[1]) == cp)
  {
    if cp >= 0x80 {
      var q, r := cp / 64, cp % 64;
      assert cp == 64 * q + r && 2 <= q <= 5;
      MarksAreOff(q, r);
    }
  }

  lemma MarksAreOff(q: nat, r: nat)
    requires q < 32 && r < 64
    ensures (0xC0 + q) % 32 == q && (0x80 + r) % 64 == r
  {
  }

  lemma {:induction false} EncodeConcat(a: Bytes, b: Bytes)
    ensures EncodeBytes(a + b) == EncodeBytes(a) + EncodeBytes(b)
  {
    if a == [] {
      assert a + b == b;
    } else {
      var ab := a + b;
      assert ab[0] == a[0] && ab[1..] == a[1..] + b;
      EncodeConcat(a[1..], b);
    }
  }

  lemma {:induction false} EncodedLength(raw: Bytes)
    ensures |raw| <= |EncodeBytes(raw)| <= 2 * |raw|
    ensures forall i :: 0 <= i < |EncodeBytes(raw)| ==> EncodeBytes(raw)[i] <= 0xC5
  {
    if raw != [] {
      EncodedByte(raw[0]);
      EncodedLength(raw[1..]);
    }
  }

  /** Encoding loses nothing, and decoding does not look past an encoded prefix. */
  lemma {:induction false} DecodeEncode(raw: Bytes, rest: Bytes)
    ensures DecodeBytes(EncodeBytes(raw) + rest) == raw + DecodeBytes(rest)
  {
    if raw == [] {
      assert EncodeBytes(raw) + rest == rest;
    } else {
      Reassociate(EncodeByte(raw[0]), EncodeBytes(raw[1..]), rest);
      DecodeFirst(raw[0], EncodeBytes(raw[1..]) + rest);
      DecodeEncode(raw[1..], rest);
      HeadTail(raw);
      Reassociate([raw[0]], raw[1..], DecodeBytes(rest));
    }
  }

  lemma DecodeFirst(b: Byte, tail: Bytes)
    ensures DecodeBytes(EncodeByte(b) + tail) == [b] + DecodeBytes(tail)
  {
    EncodedByte(b);
    var c := EncodeByte(b);
    var s := c + tail;
    assert s[0] == c[0] && s[|c|..] == tail;
    if |c| == 2 {
      assert s[1] == c[1];
    }
  }

  // ------------------------------------------------------- the bounded encoder

  /** How many bytes of `raw`, from the `n`-th on, are encoded before the output nears its capacity. */
  function Taken(raw: Bytes, n: nat, cap: int): (m: nat)
    requires n <= |raw|
    ensures n <= m <= |raw|
    decreases |raw| - n
  {
    if n < |raw| && |EncodeBytes(raw[..n])| < cap - 4 then Taken(raw, n + 1, cap) else n
  }

  ghost predicate FitsIn(raw: Bytes, cap: int) {
    Taken(raw, 0, cap) == |raw|
  }

  lemma {:induction false} EncodedMonotone(raw: Bytes, n: nat, m: nat)
    requires n <= m <= |raw|
    ensures |EncodeBytes(raw[..n])| <= |EncodeBytes(raw[..m])|
  {
    EncodeConcat(raw[..n], raw[n..m]);
    assert raw[..n] + raw[n..m] == raw[..m];
  }

  lemma {:induction false} TakenToTheEnd(raw: Bytes, n: nat, cap: int)
    requires n <= |raw|
    ensures Taken(raw, n, cap) == |raw| <==> n == |raw| || |EncodeBytes(raw[..|raw| - 1])| < cap - 4
    decreases |raw| - n
  {
    if n < |raw| {
      EncodedMonotone(raw, n, |raw| - 1);
      TakenToTheEnd(raw, n + 1, cap);
    }
  }

  /** A span is encoded whole iff everything but its last byte stays below the limit. */
  lemma FitsExactly(raw: Bytes, cap: int)
    ensures FitsIn(raw, cap) <==> raw == [] || |EncodeBytes(raw[..|raw| - 1])| < cap - 4
    ensures 2 * |raw| <= cap - 4 ==> FitsIn(raw, cap)
  {
    TakenToTheEnd(raw, 0, cap);
    if raw != [] {
      EncodedLength(raw[..|raw| - 1]);
    }
  }

  lemma EncodeSnoc(raw: Bytes, i: nat)
    requires i < |raw|
    ensures EncodeBytes(raw[..i + 1]) == EncodeBytes(raw[..i]) + EncodeByte(raw[i])
  {
    EncodeConcat(raw[..i], [raw[i]]);
    assert raw[..i + 1] == raw[..i] + [raw[i]];
    assert EncodeBytes([raw[i]]) == EncodeByte(raw[i]) + EncodeBytes([raw[i]][1..]);
  }

  /** Append one character to the output buffer. */
  method PutChar(out: array<Byte>, pos: nat, cp: U32) returns (next: nat)
    requires cp < 0x10000 && pos + 3 <= out.Length
    modifies out
    ensures next <= out.Length && out[..next] == old(out[..pos]) + Utf8Of(cp)
  {
    if cp < 0x80 {
      out[pos] := cp;
      next := pos + 1;
    } else if cp < 0x800 {
      out[pos], out[pos + 1] := 0xC0 + cp / 64, 0x80 + cp % 64;
      next := pos + 2;
    } else {
      out[pos], out[pos + 1], out[pos + 2] := 0xE0 + cp / 4096, 0x80 + cp / 64 % 64, 0x80 + cp % 64;
      next := pos + 3;
    }
  }

  method BytesToBpeStr(byteChar: seq<U32>, raw: Bytes, out: array<Byte>) returns (pos: nat)
    requires |byteChar| == 256 && forall b: Byte :: byteChar[b] == ByteChar(b)
    requires out.Length >= 4
    modifies out
    ensures pos < out.Length && out[pos] == 0
    ensures out[..pos] == EncodeBytes(raw[..Taken(raw, 0, out.Length)])
  {
    pos := 0;
    var i := 0;
    while i < |raw| && pos < out.Length - 4
      invariant 0 <= i <= |raw| && pos <= out.Length - 1
      invariant Taken(raw, 0, out.Length) == Taken(raw, i, out.Length)
      invariant out[..pos] == EncodeBytes(raw[..i])
    {
      EncodeSnoc(raw, i);
      EncodedByte(raw[i]);
      pos := PutChar(out, pos, byteChar[raw[i]]);
      i := i + 1;
    }
    out[pos] := 0;
  }

  /** Visible ASCII characters stand for themselves; a space, a newline and the soft
      hyphen are written as U+0120, U+010A and U+0143, and e with acute as itself. */
  lemma AlphabetExamples(b: Byte)
    requires 0x21 <= b <= 0x7E
    ensures EncodeByte(b) == [b]
    ensures EncodeByte(0x20) == [0xC4, 0xA0] && EncodeByte(0x0A) == [0xC4, 0x8A]
    ensures EncodeByte(0xAD) == [0xC5, 0x83] && EncodeByte(0xE9) == [0xC3, 0xA9]
  {
  }
}
