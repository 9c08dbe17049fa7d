/** Exporting a tokenizer, loading it, and encoding with what was loaded. */
module TokenizerLoader {
  import opened Wrappers
  import opened Bits
  import opened Seqs
  import opened ByteAlphabet
  import opened ProbingTable
  import opened MergeRules
  import opened Utf8
  import opened Tokenizer
  import opened Lossless
  import opened TokenizerFile

  // ---------------------------------------------------------------------------- the exporter

  /** A string with its id, as the source vocabulary lists it. */
  datatype Item = Item(str: Bytes, id: int)

  function Insert(x: Item, s: seq<Item>): seq<Item> {
    if s == [] || x.id <= s[0].id then [x] + s else [s[0]] + Insert(x, s[1..])
  }

  /** The vocabulary in the order of its ids; equal ids keep their order. */
  function SortById(s: seq<Item>): seq<Item> {
    if s == [] then [] else Insert(s[0], SortById(s[1..]))
  }

  ghost predicate OrderedById(s: seq<Item>) {
    forall i, j :: 0 <= i < j < |s| ==> s[i].id <= s[j].id
  }

  /** The items with a given id, in order. */
  function WithId(s: seq<Item>, id: int): seq<Item> {
    if s == [] then [] else (if s[0].id == id then [s[0]] else []) + WithId(s[1..], id)
  }

  lemma {:induction false} InsertKeepsOrder(x: Item, s: seq<Item>)
    requires OrderedById(s)
    ensures OrderedById(Insert(x, s))
    ensures forall y :: y in Insert(x, s) ==> y == x || y in s
  {
    if s != [] && x.id > s[0].id {
      InsertKeepsOrder(x, s[1..]);
      var t := Insert(x, s[1..]);
      forall i | 0 <= i < |t|
        ensures s[0].id <= t[i].id
      {
        assert t[i] in t;
      }
    }
  }

  lemma {:induction false} InsertIsFirstOfItsId(x: Item, s: seq<Item>, id: int)
    requires OrderedById(s)
    ensures WithId(Insert(x, s), id) == (if x.id == id then [x] else []) + WithId(s, id)
  {
    if s != [] && x.id > s[0].id {
      InsertIsFirstOfItsId(x, s[1..], id);
      assert Insert(x, s)[1..] == Insert(x, s[1..]);
      if x.id == id {
        assert WithId(s, id) == WithId(s[1..], id);
      }
    }
  }

  /** Sorting orders by id and keeps exactly the items of every id, in their order. */
  lemma {:induction false} SortIsStable(s: seq<Item>)
    ensures OrderedById(SortById(s))
    ensures forall id :: WithId(SortById(s), id) == WithId(s, id)
  {
    if s != [] {
      SortIsStable(s[1..]);
      InsertKeepsOrder(s[0], SortById(s[1..]));
      forall id
        ensures WithId(SortById(s), id) == WithId(s, id)
      {
        InsertIsFirstOfItsId(s[0], SortById(s[1..]), id);
      }
    }
  }

  predicate ItemPacks(x: Item) {
    0 <= x.id < WORD && |x.str| < 0x1_0000
  }

  predicate ItemsPack(s: seq<Item>) {
    forall i :: 0 <= i < |s| ==> ItemPacks(s[i])
  }

  function ToEntries(s: seq<Item>): (e: seq<Entry>)
    requires ItemsPack(s)
    ensures |e| == |s| && EntriesFit(e)
    ensures forall i :: 0 <= i < |s| ==> e[i] == Entry(s[i].str, s[i].id)
  {
    seq(|s|, i requires 0 <= i < |s| => Entry(s[i].str, s[i].id))
  }

  /** Everything the exporter packs is in range. */
  predicate Exportable(vocab: seq<Item>, merges: seq<MergeRule>, added: seq<Item>) {
    && ItemsPack(SortById(vocab)) && RulesFit(merges) && ItemsPack(added)
    && |SortById(vocab)| < WORD && |merges| < WORD && |added| < WORD
  }

  function Exported(vocab: seq<Item>, merges: seq<MergeRule>, added: seq<Item>): (c: Contents)
    requires Exportable(vocab, merges, added)
    ensures Packable(c)
  {
    Contents(ToEntries(SortById(vocab)), merges, ToEntries(added))
  }

  lemma {:induction false} WriteEntriesSnoc(es: seq<Entry>, i: nat)
    requires EntriesFit(es) && i < |es|
    ensures EntriesFit(es[..i]) && EntriesFit(es[..i + 1])
    ensures WriteEntries(es[..i + 1]) == WriteEntries(es[..i]) + WriteEntry(es[i])
  {
    if i == 0 {
      assert es[..1] == [es[0]] && [es[0]][1..] == [];
    } else {
      WriteEntriesSnoc(es[1..], i - 1);
      assert es[..i][1..] == es[1..][..i - 1] && es[..i + 1][1..] == es[1..][..i];
      Reassociate(WriteEntry(es[0]), WriteEntries(es[1..][..i - 1]), WriteEntry(es[i]));
    }
  }

  lemma {:induction false} WriteRulesSnoc(rs: seq<MergeRule>, i: nat)
    requires RulesFit(rs) && i < |rs|
    ensures RulesFit(rs[..i]) && RulesFit(rs[..i + 1])
    ensures WriteRules(rs[..i + 1]) == WriteRules(rs[..i]) + WriteRule(rs[i])
  {
    if i == 0 {
      assert rs[..1] == [rs[0]] && [rs[0]][1..] == [];
    } else {
      WriteRulesSnoc(rs[1..], i - 1);
      assert rs[..i][1..] == rs[1..][..i - 1] && rs[..i + 1][1..] == rs[1..][..i];
      Reassociate(WriteRule(rs[0]), WriteRules(rs[1..][..i - 1]), WriteRule(rs[i]));
    }
  }

  /** Append one section of entries; packing fails on the first that is out of range. */
  method ExportEntries(items: seq<Item>) returns (r: Option<Bytes>)
    ensures r == if ItemsPack(items) then Some(WriteEntries(ToEntries(items))) else None
  {
    var out: Bytes := [];
    for i := 0 to |items|
      invariant ItemsPack(items[..i]) && out == WriteEntries(ToEntries(items[..i]))
    {
      if !ItemPacks(items[i]) {
        return None;
      }
      ghost var es := ToEntries(items[..i + 1]);
      WriteEntriesSnoc(es, i);
      assert es[..i + 1] == es && es[..i] == ToEntries(items[..i]);
      out := out + WriteEntry(Entry(items[i].str, items[i].id));
    }
    assert items[..|items|] == items;
    return Some(out);
  }

  method ExportRules(rules: seq<MergeRule>) returns (r: Option<Bytes>)
    ensures r == if RulesFit(rules) then Some(WriteRules(rules)) else None
  {
    var out: Bytes := [];
    for i := 0 to |rules|
      invariant RulesFit(rules[..i]) && out == WriteRules(rules[..i])
    {
      if |rules[i].a| >= 0x1_0000 || |rules[i].b| >= 0x1_0000 {
        return None;
      }
      ghost var rs := rules[..i + 1];
      WriteRulesSnoc(rs, i);
      assert rs[..i + 1] == rs && rs[..i] == rules[..i];
      out := out + WriteRule(rules[i]);
    }
    assert rules[..|rules|] == rules;
    return Some(out);
  }

  /** The exporter: sort, then header and sections in order. */
  method Export(vocab: seq<Item>, merges: seq<MergeRule>, added: seq<Item>) returns (r: Option<Bytes>)
    ensures r == if Exportable(vocab, merges, added) then Some(WriteFile(Exported(vocab, merges, added))) else None
  {
    var sorted := SortById(vocab);
    if |sorted| >= WORD || |merges| >= WORD || |added| >= WORD {
      return None;
    }
    var header := MAGIC + (WriteU32(VERSION) + (WriteU32(|sorted|) + (WriteU32(|merges|) + WriteU32(|added|))));
    var part1 := ExportEntries(sorted);
    if part1.None? {
      return None;
    }
    var part2 := ExportRules(merges);
    if part2.None? {
      return None;
    }
    var part3 := ExportEntries(added);
    if part3.None? {
      return None;
    }
    return Some(header + (part1.value + (part2.value + part3.value)));
  }

  // ------------------------------------------------------------------------------ the loader

  lemma PrependTwice<T>(a: seq<T>, b: seq<T>, r: Read<seq<T>>)
    ensures Prepend(a, Prepend(b, r)) == Prepend(a + b, r)
  {
    if r.Got? {
      Reassociate(a, b, r.value);
    }
  }

  lemma PrependNothing<T>(a: seq<T>, r: Read<seq<T>>, rest: Bytes)
    ensures Prepend([], r) == r
    ensures Prepend(a, Got([], rest)) == Got(a, rest)
  {
    if r.Got? {
      assert [] + r.value == r.value;
    }
    assert a + [] == a;
  }

  lemma NextEntry(acc: seq<Entry>, rest: Bytes, n: nat)
    requires n > 0
    ensures ReadEntry(rest).Short? ==> Prepend(acc, ReadEntries(rest, n)) == Short
    ensures ReadEntry(rest).Got? ==>
      Prepend(acc, ReadEntries(rest, n))
        == Prepend(acc + [ReadEntry(rest).value], ReadEntries(ReadEntry(rest).rest, n - 1))
  {
    if ReadEntry(rest).Got? {
      PrependTwice(acc, [ReadEntry(rest).value], ReadEntries(ReadEntry(rest).rest, n - 1));
    }
  }

  lemma NextRule(acc: seq<MergeRule>, rest: Bytes, n: nat)
    requires n > 0
    ensures ReadRule(rest).Short? ==> Prepend(acc, ReadRules(rest, n)) == Short
    ensures ReadRule(rest).Got? ==>
      Prepend(acc, ReadRules(rest, n)) == Prepend(acc + [ReadRule(rest).value], ReadRules(ReadRule(rest).rest, n - 1))
  {
    if ReadRule(rest).Got? {
      PrependTwice(acc, [ReadRule(rest).value], ReadRules(ReadRule(rest).rest, n - 1));
    }
  }

  method LoadEntries(s: Bytes, n: nat) returns (r: Read<seq<Entry>>)
    ensures r == ReadEntries(s, n)
  {
    var acc: seq<Entry>, rest := [], s;
    PrependNothing(acc, ReadEntries(s, n), rest);
    for i := 0 to n
      invariant ReadEntries(s, n) == Prepend(acc, ReadEntries(rest, n - i))
    {
      NextEntry(acc, rest, n - i);
      var e := ReadEntry(rest);
      if e.Short? {
        return Short;
      }
      acc, rest := acc + [e.value], e.rest;
    }
    PrependNothing(acc, Short, rest);
    return Got(acc, rest);
  }

  method LoadRules(s: Bytes, n: nat) returns (r: Read<seq<MergeRule>>)
    ensures r == ReadRules(s, n)
  {
    var acc: seq<MergeRule>, rest := [], s;
    PrependNothing(acc, ReadRules(s, n), rest);
    for i := 0 to n
      invariant ReadRules(s, n) == Prepend(acc, ReadRules(rest, n - i))
    {
      NextRule(acc, rest, n - i);
      var e := ReadRule(rest);
      if e.Short? {
        return Short;
      }
      acc, rest := acc + [e.value], e.rest;
    }
    PrependNothing(acc, Short, rest);
    return Got(acc, rest);
  }

  method LoadFile(s: Bytes) returns (r: Read<Contents>)
    ensures r == ReadFile(s)
  {
    var header := ReadHeader(s);
    if header.Short? {
      return Short;
    }
    var vocab := LoadEntries(header.rest, header.value.vocab);
    if vocab.Short? {
      return Short;
    }
    var merges := LoadRules(vocab.rest, header.value.merges);
    if merges.Short? {
      return Short;
    }
    var added := LoadEntries(merges.rest, header.value.added);
    if added.Short? {
      return Short;
    }
    return Got(Contents(vocab.value, merges.value, added.value), added.rest);
  }

  /** What the tables built from a file mean. */
  function ModelOf(c: Contents): Model {
    Model(Filled(c.vocab), Filled(MergeEntries(c.merges)), AddedTokens(c.added))
  }

  function AddedTokens(added: seq<Entry>): (a: seq<AddedToken>)
    ensures |a| == |added| && forall i :: 0 <= i < |added| ==> a[i] == AddedToken(added[i].key, added[i].id)
  {
    seq(|added|, i requires 0 <= i < |added| => AddedToken(added[i].key, added[i].id))
  }

  /** `NoRoom`: the 32-bit table sizes or the 16-bit key lengths do not hold the file's
      lists, which the program does not notice. */
  datatype Loading = Failed | NoRoom | Loaded(tables: Tables)

  /** The tables can be sized, and no merge key is cut off by its 16-bit length. */
  predicate Loadable(c: Contents) {
    && 1 <= |c.vocab| <= WORD / 4 && 1 <= |c.merges| <= WORD / 4
    && KeysFit(c.merges)
  }

  predicate KeysFit(merges: seq<MergeRule>) {
    forall i :: 0 <= i < |merges| ==> |merges[i].a| + 1 + |merges[i].b| < 0x1_0000
  }

  /** `bpe_load`: refuse a file that is cut short or has the wrong magic or version, else build the tables. */
  method BpeLoad(s: Bytes) returns (r: Loading)
    ensures r.Failed? <==> ReadFile(s).Short?
    ensures r.Loaded? <==> ReadFile(s).Got? && Loadable(ReadFile(s).value)
    ensures r.Loaded? ==> Stands(r.tables, ModelOf(ReadFile(s).value))
  {
    var byteChar, charByte := BuildByteUnicodeTable();
    var file := LoadFile(s);
    if file.Short? {
      return Failed;
    }
    var c := file.value;
    var vocab := Fill(c.vocab);
    var merges := Fill(MergeEntries(c.merges));
    if vocab.None? || merges.None? || !KeysFit(c.merges) {
      return NoRoom;
    }
    return Loaded(Tables(vocab.value, merges.value, AddedTokens(c.added), byteChar[..]));
  }

  // --------------------------------------------------------------------------- end to end

  /** Some entry carries `key` with an id a table slot can hold. */
  ghost predicate Listed(vocab: seq<Entry>, key: Bytes) {
    exists i :: 0 <= i < |vocab| && vocab[i].key == key && vocab[i].id != EMPTY
  }

  /** The exported lists name a token for every byte and for every merge result. */
  ghost predicate CompleteContents(c: Contents) {
    && (forall b: Byte :: Listed(c.vocab, EncodeByte(b)))
    && (forall i :: 0 <= i < |c.merges| ==> Listed(c.vocab, c.merges[i].a + c.merges[i].b))
    && (forall i :: 0 <= i < |c.merges| ==> NoSeparator(c.merges[i].a) && NoSeparator(c.merges[i].b))
  }

  lemma ListedIsBound(vocab: seq<Entry>, key: Bytes)
    requires Listed(vocab, key)
    ensures key in Filled(vocab)
  {
    FilledIsFirstBinding(vocab, key);
  }

  lemma LoadedIsComplete(c: Contents)
    requires CompleteContents(c)
    ensures Complete(ModelOf(c))
  {
    var m := ModelOf(c);
    forall b: Byte
      ensures EncodeByte(b) in m.vocab
    {
      ListedIsBound(c.vocab, EncodeByte(b));
    }
    forall a: Bytes, b: Bytes | PairKey(a, b) in m.ranks
      ensures a + b in m.vocab
    {
      FilledIsFirstBinding(MergeEntries(c.merges), PairKey(a, b));
      var i :| 0 <= i < |c.merges| && MergeEntries(c.merges)[i].key == PairKey(a, b);
      PairKeyInjective(c.merges[i].a, c.merges[i].b, a, b);
      ListedIsBound(c.vocab, a + b);
    }
  }

  /** Export a vocabulary, load the file, encode a text into at most `maxIds` ids,
      decode them: the text comes back, exactly when every chunk and the ids fit. */
  lemma EndToEnd(vocab: seq<Item>, merges: seq<MergeRule>, added: seq<Item>, text: Bytes, dec: map<U32, Bytes>,
      maxIds: int)
    requires Exportable(vocab, merges, added) && CompleteContents(Exported(vocab, merges, added))
    requires IsUtf8(text)
    requires Decodes(ModelOf(Exported(vocab, merges, added)), dec)
    requires forall i :: 0 <= i < |added| ==> added[i].str != [] && IsUtf8(added[i].str)
    ensures var file := WriteFile(Exported(vocab, merges, added));
      && ReadFile(file).Got?
      && var m := ModelOf(ReadFile(file).value);
         && (DecodeIds(dec, Take(Encode(m, text, 0), maxIds)) == text
             <==> (TextFits(m, text, 0) && |Encode(m, text, 0)| <= maxIds) || text == [])
         && (DecodeIds(dec, Encode(m, text, 0)) == text <==> TextFits(m, text, 0))
         && |Encode(m, text, 0)| <= |text|
  {
    hide WriteFile;
    hide ReadFile;
    hide Encode;
    hide DecodeIds;
    hide TextFits;
    hide CompleteContents;
    hide Complete;
    hide Decodes;
    var c := Exported(vocab, merges, added);
    FileRoundTrip(c, []);
    assert WriteFile(c) + [] == WriteFile(c);
    LoadedIsComplete(c);
    assert AddedAreText(ModelOf(c));
    EncodingIsLossless(ModelOf(c), dec, text, maxIds);
  }
}
