/** The tokenizer file: the exporter's writer, the loader's parser, and the
    tables the loader builds.  Numbers are little-endian. */
module TokenizerFile {
  import opened Arith
  import opened Bits
  import opened Seqs
  import opened ByteAlphabet
  import opened ProbingTable
  import opened MergeRules

  /** What a tokenizer file says: vocabulary by id, merge rules by priority, added tokens. */
  datatype Contents = Contents(vocab: seq<Entry>, merges: seq<MergeRule>, added: seq<Entry>)

  /** A read from the front of the remaining bytes. */
  datatype Read<+T> = Short | Got(value: T, rest: Bytes)

  // ------------------------------------------------------------------------------- numbers

  function WriteU16(v: U16): Bytes {
    [v % 0x100, v / 0x100]
  }

  /** The low half comes first, so this is the four bytes from the lowest up. */
  function WriteU32(v: U32): Bytes {
    WriteU16(v % 0x1_0000) + WriteU16(v / 0x1_0000)
  }

  /** The number two bytes make, and the one two half-words make, lowest first. */
  function JoinBytes(low: int, high: int): int { low + 0x100 * high }
  function JoinHalves(low: int, high: int): int { low + 0x1_0000 * high }

  function ReadU16(s: Bytes): Read<U16> {
    if |s| < 2 then Short else Got(JoinBytes(s[0], s[1]), s[2..])
  }

  function ReadU32(s: Bytes): Read<U32> {
    match ReadU16(s)
    case Short => Short
    case Got(low, rest) =>
      match ReadU16(rest)
      case Short => Short
      case Got(high, rest') => Got(JoinHalves(low, high), rest')
  }

  lemma U16RoundTrip(v: U16, rest: Bytes)
    ensures ReadU16(WriteU16(v) + rest) == Got(v, rest)
  {
    DivMod(v, 0x100);
    assert (WriteU16(v) + rest)[2..] == rest;
  }

  lemma U32RoundTrip(v: U32, rest: Bytes)
    ensures ReadU32(WriteU32(v) + rest) == Got(v, rest)
  {
    hide WriteU16;
    hide ReadU16;
    var low, high := v % 0x1_0000, v / 0x1_0000;
    DivMod(v, 0x1_0000);
    Reassociate(WriteU16(low), WriteU16(high), rest);
    U16RoundTrip(low, WriteU16(high) + rest);
    U16RoundTrip(high, rest);
  }

  lemma U16Consumed(s: Bytes)
    requires ReadU16(s).Got?
    ensures s == WriteU16(ReadU16(s).value) + ReadU16(s).rest
  {
  }

  lemma U32Consumed(s: Bytes)
    requires ReadU32(s).Got?
    ensures s == WriteU32(ReadU32(s).value) + ReadU32(s).rest
  {
    U16Consumed(s);
    var low, rest := ReadU16(s).value, ReadU16(s).rest;
    U16Consumed(rest);
    var high := ReadU16(rest).value;
    DivModIs(ReadU32(s).value, 0x1_0000, high, low);
    Reassociate(WriteU16(low), WriteU16(high), ReadU32(s).rest);
  }

  // ------------------------------------------------------------------------------- records

  /** A length-prefixed string. */
  function WriteStr(s: Bytes): Bytes
    requires |s| < 0x1_0000
  {
    WriteU16(|s|) + s
  }

  function ReadStr(s: Bytes): Read<Bytes> {
    match ReadU16(s)
    case Short => Short
    case Got(n, rest) => if |rest| < n then Short else Got(rest[..n], rest[n..])
  }

  /** A vocabulary entry or an added token: id, then string. */
  function WriteEntry(e: Entry): Bytes
    requires |e.key| < 0x1_0000
  {
    WriteU32(e.id) + WriteStr(e.key)
  }

  function ReadEntry(s: Bytes): Read<Entry> {
    match ReadU32(s)
    case Short => Short
    case Got(id, rest) =>
      match ReadStr(rest)
      case Short => Short
      case Got(key, rest') => Got(Entry(key, id), rest')
  }

  function WriteRule(r: MergeRule): Bytes
    requires |r.a| < 0x1_0000 && |r.b| < 0x1_0000
  {
    WriteStr(r.a) + WriteStr(r.b)
  }

  function ReadRule(s: Bytes): Read<MergeRule> {
    match ReadStr(s)
    case Short => Short
    case Got(a, rest) =>
      match ReadStr(rest)
      case Short => Short
      case Got(b, rest') => Got(MergeRule(a, b), rest')
  }

  lemma StrRoundTrip(s: Bytes, rest: Bytes)
    requires |s| < 0x1_0000
    ensures ReadStr(WriteStr(s) + rest) == Got(s, rest)
  {
    Reassociate(WriteU16(|s|), s, rest);
    U16RoundTrip(|s|, s + rest);
    PrefixOfConcat(s, rest);
  }

  lemma EntryRoundTrip(e: Entry, rest: Bytes)
    requires |e.key| < 0x1_0000
    ensures ReadEntry(WriteEntry(e) + rest) == Got(e, rest)
  {
    Reassociate(WriteU32(e.id), WriteStr(e.key), rest);
    U32RoundTrip(e.id, WriteStr(e.key) + rest);
    StrRoundTrip(e.key, rest);
  }

  lemma RuleRoundTrip(r: MergeRule, rest: Bytes)
    requires |r.a| < 0x1_0000 && |r.b| < 0x1_0000
    ensures ReadRule(WriteRule(r) + rest) == Got(r, rest)
  {
    Reassociate(WriteStr(r.a), WriteStr(r.b), rest);
    StrRoundTrip(r.a, WriteStr(r.b) + rest);
    StrRoundTrip(r.b, rest);
  }

  lemma StrConsumed(s: Bytes)
    requires ReadStr(s).Got?
    ensures |ReadStr(s).value| < 0x1_0000 && s == WriteStr(ReadStr(s).value) + ReadStr(s).rest
  {
    U16Consumed(s);
    var tail := ReadU16(s).rest;
    SplitAt(tail, ReadU16(s).value);
    Reassociate(WriteU16(ReadU16(s).value), ReadStr(s).value, ReadStr(s).rest);
  }

  lemma EntryConsumed(s: Bytes)
    requires ReadEntry(s).Got?
    ensures |ReadEntry(s).value.key| < 0x1_0000 && s == WriteEntry(ReadEntry(s).value) + ReadEntry(s).rest
  {
    U32Consumed(s);
    StrConsumed(ReadU32(s).rest);
    Reassociate(WriteU32(ReadEntry(s).value.id), WriteStr(ReadEntry(s).value.key), ReadEntry(s).rest);
  }

  lemma RuleConsumed(s: Bytes)
    requires ReadRule(s).Got?
    ensures |ReadRule(s).value.a| < 0x1_0000 && |ReadRule(s).value.b| < 0x1_0000
    ensures s == WriteRule(ReadRule(s).value) + ReadRule(s).rest
  {
    StrConsumed(s);
    StrConsumed(ReadStr(s).rest);
    Reassociate(WriteStr(ReadRule(s).value.a), WriteStr(ReadRule(s).value.b), ReadRule(s).rest);
  }

  // ------------------------------------------------------------------------------ sections

  predicate EntriesFit(es: seq<Entry>) {
    forall i :: 0 <= i < |es| ==> |es[i].key| < 0x1_0000
  }

  predicate RulesFit(rs: seq<MergeRule>) {
    forall i :: 0 <= i < |rs| ==> |rs[i].a| < 0x1_0000 && |rs[i].b| < 0x1_0000
  }

  function WriteEntries(es: seq<Entry>): Bytes
    requires EntriesFit(es)
  {
    if es == [] then [] else WriteEntry(es[0]) + WriteEntries(es[1..])
  }

  function WriteRules(rs: seq<MergeRule>): Bytes
    requires RulesFit(rs)
  {
    if rs == [] then [] else WriteRule(rs[0]) + WriteRules(rs[1..])
  }

  function ReadEntries(s: Bytes, n: nat): Read<seq<Entry>> {
    if n == 0 then Got([], s)
    else
      match ReadEntry(s)
      case Short => Short
      case Got(e, rest) => Prepend([e], ReadEntries(rest, n - 1))
  }

  function ReadRules(s: Bytes, n: nat): Read<seq<MergeRule>> {
    if n == 0 then Got([], s)
    else
      match ReadRule(s)
      case Short => Short
      case Got(r, rest) => Prepend([r], ReadRules(rest, n - 1))
  }

  function Prepend<T>(front: seq<T>, r: Read<seq<T>>): Read<seq<T>> {
    match r
    case Short => Short
    case Got(back, rest) => Got(front + back, rest)
  }

  lemma {:induction false} EntriesRoundTrip(es: seq<Entry>, rest: Bytes)
    requires EntriesFit(es)
    ensures ReadEntries(WriteEntries(es) + rest, |es|) == Got(es, rest)
  {
    if es == [] {
      assert WriteEntries(es) + rest == rest;
    } else {
      Reassociate(WriteEntry(es[0]), WriteEntries(es[1..]), rest);
      EntryRoundTrip(es[0], WriteEntries(es[1..]) + rest);
      EntriesRoundTrip(es[1..], rest);
      HeadTail(es);
    }
  }

  lemma {:induction false} RulesRoundTrip(rs: seq<MergeRule>, rest: Bytes)
    requires RulesFit(rs)
    ensures ReadRules(WriteRules(rs) + rest, |rs|) == Got(rs, rest)
  {
    if rs == [] {
      assert WriteRules(rs) + rest == rest;
    } else {
      Reassociate(WriteRule(rs[0]), WriteRules(rs[1..]), rest);
      RuleRoundTrip(rs[0], WriteRules(rs[1..]) + rest);
      RulesRoundTrip(rs[1..], rest);
      HeadTail(rs);
    }
  }

  lemma WriteEntriesCons(e: Entry, es: seq<Entry>)
    requires |e.key| < 0x1_0000 && EntriesFit(es)
    ensures EntriesFit([e] + es) && WriteEntries([e] + es) == WriteEntry(e) + WriteEntries(es)
  {
    assert ([e] + es)[1..] == es;
  }

  lemma WriteRulesCons(r: MergeRule, rs: seq<MergeRule>)
    requires |r.a| < 0x1_0000 && |r.b| < 0x1_0000 && RulesFit(rs)
    ensures RulesFit([r] + rs) && WriteRules([r] + rs) == WriteRule(r) + WriteRules(rs)
  {
    assert ([r] + rs)[1..] == rs;
  }

  lemma {:induction false} EntriesConsumed(s: Bytes, n: nat)
    requires ReadEntries(s, n).Got?
    ensures EntriesFit(ReadEntries(s, n).value) && |ReadEntries(s, n).value| == n
    ensures s == WriteEntries(ReadEntries(s, n).value) + ReadEntries(s, n).rest
    decreases n
  {
    hide WriteEntry;
    hide ReadEntry;
    if n > 0 {
      EntryConsumed(s);
      var e, rest := ReadEntry(s).value, ReadEntry(s).rest;
      EntriesConsumed(rest, n - 1);
      var back := ReadEntries(rest, n - 1);
      WriteEntriesCons(e, back.value);
      Reassociate(WriteEntry(e), WriteEntries(back.value), back.rest);
    }
  }

  lemma {:induction false} RulesConsumed(s: Bytes, n: nat)
    requires ReadRules(s, n).Got?
    ensures RulesFit(ReadRules(s, n).value) && |ReadRules(s, n).value| == n
    ensures s == WriteRules(ReadRules(s, n).value) + ReadRules(s, n).rest
    decreases n
  {
    hide WriteRule;
    hide ReadRule;
    if n > 0 {
      RuleConsumed(s);
      var r, rest := ReadRule(s).value, ReadRule(s).rest;
      RulesConsumed(rest, n - 1);
      var back := ReadRules(rest, n - 1);
      WriteRulesCons(r, back.value);
      Reassociate(WriteRule(r), WriteRules(back.value), back.rest);
    }
  }

  // ------------------------------------------------------------------------------ the file

  const MAGIC: Bytes := [0x42, 0x50, 0x45, 0x54]
  const VERSION: U32 := 1

  /** Lengths fit 16 bits and counts fit 32 bits, so every field can be packed. */
  predicate Packable(c: Contents) {
    && EntriesFit(c.vocab) && RulesFit(c.merges) && EntriesFit(c.added)
    && |c.vocab| < WORD && |c.merges| < WORD && |c.added| < WORD
  }

  function WriteHeader(c: Contents): Bytes
    requires Packable(c)
  {
    MAGIC + (WriteU32(VERSION) + (WriteU32(|c.vocab|) + (WriteU32(|c.merges|) + WriteU32(|c.added|))))
  }

  function WriteBody(c: Contents): Bytes
    requires Packable(c)
  {
    WriteEntries(c.vocab) + (WriteRules(c.merges) + WriteEntries(c.added))
  }

  function WriteFile(c: Contents): Bytes
    requires Packable(c)
  {
    WriteHeader(c) + WriteBody(c)
  }

  /** The three counts of a file whose magic and version are right. */
  datatype Header = Header(vocab: U32, merges: U32, added: U32)

  function ReadHeader(s: Bytes): Read<Header> {
    if |s| < 4 || s[..4] != MAGIC then Short
    else
      match ReadU32(s[4..])
      case Short => Short
      case Got(version, s1) =>
        if version != VERSION then Short else ReadCounts(s1)
  }

  function ReadCounts(s: Bytes): Read<Header> {
    match ReadU32(s)
    case Short => Short
    case Got(vocab, s1) =>
      match ReadU32(s1)
      case Short => Short
      case Got(merges, s2) =>
        match ReadU32(s2)
        case Short => Short
        case Got(added, s3) => Got(Header(vocab, merges, added), s3)
  }

  function ReadBody(h: Header, s: Bytes): Read<Contents> {
    match ReadEntries(s, h.vocab)
    case Short => Short
    case Got(vocab, s1) =>
      match ReadRules(s1, h.merges)
      case Short => Short
      case Got(merges, s2) =>
        match ReadEntries(s2, h.added)
        case Short => Short
        case Got(added, s3) => Got(Contents(vocab, merges, added), s3)
  }

  /** What the loader makes of a file, and what it leaves unread. */
  function ReadFile(s: Bytes): Read<Contents> {
    match ReadHeader(s)
    case Short => Short
    case Got(h, rest) => ReadBody(h, rest)
  }

  lemma HeaderRoundTrip(c: Contents, rest: Bytes)
    requires Packable(c)
    ensures ReadHeader(WriteHeader(c) + rest) == Got(Header(|c.vocab|, |c.merges|, |c.added|), rest)
  {
    hide WriteU32;
    hide ReadU32;
    var n1, n2, n3 := WriteU32(|c.vocab|), WriteU32(|c.merges|), WriteU32(|c.added|);
    var v := WriteU32(VERSION);
    assert WriteHeader(c) + rest == MAGIC + (v + (n1 + (n2 + (n3 + rest))));
    PrefixOfConcat(MAGIC, v + (n1 + (n2 + (n3 + rest))));
    U32RoundTrip(VERSION, n1 + (n2 + (n3 + rest)));
    U32RoundTrip(|c.vocab|, n2 + (n3 + rest));
    U32RoundTrip(|c.merges|, n3 + rest);
    U32RoundTrip(|c.added|, rest);
  }

  lemma BodyRoundTrip(c: Contents, rest: Bytes)
    requires Packable(c)
    ensures ReadBody(Header(|c.vocab|, |c.merges|, |c.added|), WriteBody(c) + rest) == Got(c, rest)
  {
    var b1, b2, b3 := WriteEntries(c.vocab), WriteRules(c.merges), WriteEntries(c.added);
    assert WriteBody(c) + rest == b1 + (b2 + (b3 + rest));
    EntriesRoundTrip(c.vocab, b2 + (b3 + rest));
    RulesRoundTrip(c.merges, b3 + rest);
    EntriesRoundTrip(c.added, rest);
  }

  /** Loading what was exported gives the same three tables and reads every byte. */
  lemma FileRoundTrip(c: Contents, rest: Bytes)
    requires Packable(c)
    ensures ReadFile(WriteFile(c) + rest) == Got(c, rest)
  {
    Reassociate(WriteHeader(c), WriteBody(c), rest);
    HeaderRoundTrip(c, WriteBody(c) + rest);
    BodyRoundTrip(c, rest);
  }

  lemma CountsConsumed(s: Bytes)
    requires ReadCounts(s).Got?
    ensures var h := ReadCounts(s).value;
      s == (WriteU32(h.vocab) + (WriteU32(h.merges) + WriteU32(h.added))) + ReadCounts(s).rest
  {
    var h, rest := ReadCounts(s).value, ReadCounts(s).rest;
    U32Consumed(s);
    var s1 := ReadU32(s).rest;
    U32Consumed(s1);
    U32Consumed(ReadU32(s1).rest);
    assert (WriteU32(h.vocab) + (WriteU32(h.merges) + WriteU32(h.added))) + rest
        == WriteU32(h.vocab) + (WriteU32(h.merges) + (WriteU32(h.added) + rest));
  }

  lemma HeaderConsumed(s: Bytes)
    requires ReadHeader(s).Got?
    ensures var h := ReadHeader(s).value;
      s == (MAGIC + (WriteU32(VERSION) + (WriteU32(h.vocab) + (WriteU32(h.merges) + WriteU32(h.added)))))
        + ReadHeader(s).rest
  {
    SplitAt(s, 4);
    U32Consumed(s[4..]);
    var s1 := ReadU32(s[4..]).rest;
    CountsConsumed(s1);
    var h := ReadHeader(s).value;
    var counts := WriteU32(h.vocab) + (WriteU32(h.merges) + WriteU32(h.added));
    Reassociate(WriteU32(VERSION), counts, ReadHeader(s).rest);
    Reassociate(MAGIC, WriteU32(VERSION) + counts, ReadHeader(s).rest);
  }

  lemma BodyConsumed(h: Header, s: Bytes)
    requires ReadBody(h, s).Got?
    ensures var c := ReadBody(h, s).value;
      Packable(c) && h == Header(|c.vocab|, |c.merges|, |c.added|) && s == WriteBody(c) + ReadBody(h, s).rest
  {
    var c, rest := ReadBody(h, s).value, ReadBody(h, s).rest;
    EntriesConsumed(s, h.vocab);
    var s1 := ReadEntries(s, h.vocab).rest;
    RulesConsumed(s1, h.merges);
    var s2 := ReadRules(s1, h.merges).rest;
    EntriesConsumed(s2, h.added);
    var b1, b2, b3 := WriteEntries(c.vocab), WriteRules(c.merges), WriteEntries(c.added);
    Reassociate(b2, b3, rest);
    Reassociate(b1, b2 + b3, rest);
  }

  /** The loader accepts a file as `c` exactly when the file starts with the export of `c`. */
  lemma AcceptsExactlyExports(s: Bytes, c: Contents, rest: Bytes)
    ensures ReadFile(s) == Got(c, rest) <==> Packable(c) && s == WriteFile(c) + rest
  {
    if ReadFile(s) == Got(c, rest) {
      HeaderConsumed(s);
      BodyConsumed(ReadHeader(s).value, ReadHeader(s).rest);
      Reassociate(WriteHeader(c), WriteBody(c), rest);
    }
    if Packable(c) && s == WriteFile(c) + rest {
      FileRoundTrip(c, rest);
    }
  }

  /** The file of one entry, "a" with id 0x1234567, one rule, "a" and "b", and no added token. */
  lemma SmallFile()
    ensures var c := Contents([Entry([0x61], 0x123_4567)], [MergeRule([0x61], [0x62])], []);
      Packable(c) && WriteFile(c) ==
        [0x42, 0x50, 0x45, 0x54, 1, 0, 0, 0, 1, 0, 0, 0, 1, 0, 0, 0, 0, 0, 0, 0]
        + [0x67, 0x45, 0x23, 0x01, 1, 0, 0x61] + [1, 0, 0x61, 1, 0, 0x62]
  {
    hide WriteU32;
    hide WriteU16;
    hide WriteEntries;
    hide WriteRules;
    hide WriteEntry;
    hide WriteRule;
    var e, r := Entry([0x61], 0x123_4567), MergeRule([0x61], [0x62]);
    var c := Contents([e], [r], []);
    SmallNumbers();
    OneEach(e, r);
    assert WriteHeader(c) == [0x42, 0x50, 0x45, 0x54, 1, 0, 0, 0, 1, 0, 0, 0, 1, 0, 0, 0, 0, 0, 0, 0];
  }

  lemma OneEach(e: Entry, r: MergeRule)
    requires |e.key| == 1 && |r.a| == 1 && |r.b| == 1
    ensures WriteEntries([]) == [] && WriteEntries([e]) == WriteU32(e.id) + ([1, 0] + e.key)
    ensures WriteRules([r]) == [1, 0] + r.a + ([1, 0] + r.b)
  {
    SmallNumbers();
    assert [e][1..] == [] && [r][1..] == [];
    assert WriteEntries([e]) == WriteEntry(e) + [] && WriteRules([r]) == WriteRule(r) + [];
  }

  lemma SmallNumbers()
    ensures WriteU16(1) == [1, 0] && WriteU32(0) == [0, 0, 0, 0] && WriteU32(1) == [1, 0, 0, 0]
    ensures WriteU32(0x123_4567) == [0x67, 0x45, 0x23, 0x01]
  {
  }
}
