/** Byte-pair merging as a rewrite on sequences of pieces: join the leftmost
    adjacent pair of lowest rank, until nothing can be joined. */
module MergeRules {
  import opened Bits
  import opened Seqs
  import opened ByteAlphabet
  import opened ProbingTable

  type Ids = seq<U32>

  datatype MergeRule = MergeRule(a: Bytes, b: Bytes)

  const MAX_TOKEN_LEN: nat := 256
  const MAX_PIECES: nat := 8192
  const SEPARATOR: Byte := 0xFF

  function PairKey(a: Bytes, b: Bytes): Key {
    a + [SEPARATOR] + b
  }

  /** The rank of joining `a` and `b`, or the sentinel; keys over 513 bytes are never looked up. */
  function Rank(ranks: map<Key, U32>, a: Bytes, b: Bytes): U32 {
    if |a| + 1 + |b| > 2 * MAX_TOKEN_LEN + 1 then EMPTY
    else if PairKey(a, b) in ranks then ranks[PairKey(a, b)]
    else EMPTY
  }

  function RankAt(ranks: map<Key, U32>, parts: seq<Bytes>, i: nat): U32
    requires i + 1 < |parts|
  {
    Rank(ranks, parts[i], parts[i + 1])
  }

  /** The leftmost pair of lowest rank among the first `n` pairs, or -1 when none can be joined. */
  function BestAmong(ranks: map<Key, U32>, parts: seq<Bytes>, n: nat): (best: int)
    requires n == 0 || n < |parts|
    ensures -1 <= best < n
    ensures best == -1 ==> forall j :: 0 <= j < n ==> RankAt(ranks, parts, j) == EMPTY
    ensures best >= 0 ==> RankAt(ranks, parts, best) < EMPTY
    ensures best >= 0 ==> forall j :: 0 <= j < n ==> RankAt(ranks, parts, best) <= RankAt(ranks, parts, j)
    ensures best >= 0 ==> forall j :: 0 <= j < best ==> RankAt(ranks, parts, best) < RankAt(ranks, parts, j)
  {
    if n == 0 then -1
    else
      var best := BestAmong(ranks, parts, n - 1);
      if RankAt(ranks, parts, n - 1) < (if best == -1 then EMPTY else RankAt(ranks, parts, best)) then n - 1 else best
  }

  function Best(ranks: map<Key, U32>, parts: seq<Bytes>): int {
    if |parts| < 2 then -1 else BestAmong(ranks, parts, |parts| - 1)
  }

  function JoinAt(parts: seq<Bytes>, i: nat): seq<Bytes>
    requires i + 1 < |parts|
  {
    parts[..i] + [parts[i] + parts[i + 1]] + parts[i + 2..]
  }

  /** No step is possible: no pair has a rank, or the best one would be too long a token. */
  predicate Settled(ranks: map<Key, U32>, parts: seq<Bytes>) {
    var best := Best(ranks, parts);
    best < 0 || best + 1 >= |parts| || |parts[best]| + |parts[best + 1]| > MAX_TOKEN_LEN
  }

  function Merge(ranks: map<Key, U32>, parts: seq<Bytes>): seq<Bytes>
    decreases |parts|
  {
    if Settled(ranks, parts) then parts else Merge(ranks, JoinAt(parts, Best(ranks, parts)))
  }

  lemma {:induction false} JoinKeepsText(parts: seq<Bytes>, i: nat)
    requires i + 1 < |parts|
    ensures Flatten(JoinAt(parts, i)) == Flatten(parts)
  {
    var joined := JoinAt(parts, i);
    if i == 0 {
      assert joined[0] == parts[0] + parts[1] && joined[1..] == parts[2..];
      assert parts[1..][1..] == parts[2..];
      Reassociate(parts[0], parts[1], Flatten(parts[2..]));
    } else {
      JoinKeepsText(parts[1..], i - 1);
      assert joined[0] == parts[0] && joined[1..] == JoinAt(parts[1..], i - 1);
    }
  }

  /** Merging never changes the text the pieces spell. */
  lemma {:induction false} MergeKeepsText(ranks: map<Key, U32>, parts: seq<Bytes>)
    ensures Flatten(Merge(ranks, parts)) == Flatten(parts)
    decreases |parts|
  {
    if !Settled(ranks, parts) {
      JoinKeepsText(parts, Best(ranks, parts));
      MergeKeepsText(ranks, JoinAt(parts, Best(ranks, parts)));
    }
  }

  /** Pair `b` is the leftmost of lowest rank, yet joining it would exceed a token. */
  ghost predicate BestIsTooLong(ranks: map<Key, U32>, parts: seq<Bytes>, b: nat) {
    && b + 1 < |parts|
    && |parts[b]| + |parts[b + 1]| > MAX_TOKEN_LEN
    && RankAt(ranks, parts, b) < EMPTY
    && (forall j :: 0 <= j < |parts| - 1 ==> RankAt(ranks, parts, b) <= RankAt(ranks, parts, j))
    && (forall j :: 0 <= j < b ==> RankAt(ranks, parts, b) < RankAt(ranks, parts, j))
  }

  ghost predicate NothingToJoin(ranks: map<Key, U32>, parts: seq<Bytes>) {
    forall j :: 0 <= j < |parts| - 1 ==> RankAt(ranks, parts, j) == EMPTY
  }

  /** On exit there is at most one piece, no pair with a rank, or the leftmost
      pair of lowest rank is longer than a token may be. */
  lemma {:induction false} MergeSettles(ranks: map<Key, U32>, parts: seq<Bytes>)
    ensures
      || |Merge(ranks, parts)| <= 1
      || NothingToJoin(ranks, Merge(ranks, parts))
      || exists b :: BestIsTooLong(ranks, Merge(ranks, parts), b)
    decreases |parts|
  {
    if Settled(ranks, parts) {
      var b := Best(ranks, parts);
      if b >= 0 {
        assert BestIsTooLong(ranks, parts, b);
      }
    } else {
      MergeSettles(ranks, JoinAt(parts, Best(ranks, parts)));
    }
  }

  // ------------------------------------------------------------ which tokens can arise

  /** Merge ranks only join vocabulary entries into vocabulary entries. */
  ghost predicate ClosedUnder(ranks: map<Key, U32>, vocab: map<Key, U32>) {
    forall a: Bytes, b: Bytes :: PairKey(a, b) in ranks ==> a + b in vocab
  }

  ghost predicate AllIn(parts: seq<Bytes>, vocab: map<Key, U32>) {
    forall i :: 0 <= i < |parts| ==> parts[i] in vocab
  }

  lemma {:induction false} MergeStaysInVocabulary(ranks: map<Key, U32>, vocab: map<Key, U32>, parts: seq<Bytes>)
    requires AllIn(parts, vocab) && ClosedUnder(ranks, vocab)
    ensures AllIn(Merge(ranks, parts), vocab)
    decreases |parts|
  {
    if !Settled(ranks, parts) {
      var b := Best(ranks, parts);
      assert PairKey(parts[b], parts[b + 1]) in ranks;
      MergeStaysInVocabulary(ranks, vocab, JoinAt(parts, b));
    }
  }

  /** The pieces after `k` rounds, or on exit. */
  function Rounds(ranks: map<Key, U32>, parts: seq<Bytes>, k: nat): seq<Bytes>
    decreases k
  {
    if k == 0 || Settled(ranks, parts) then parts else Rounds(ranks, JoinAt(parts, Best(ranks, parts)), k - 1)
  }

  /** In no round does a piece grow beyond a token, so the 513-byte key guard of the
      lookup never fires; the rounds end with the merged pieces. */
  lemma {:induction false} MergeKeepsShort(ranks: map<Key, U32>, parts: seq<Bytes>, k: nat)
    requires forall i :: 0 <= i < |parts| ==> 0 < |parts[i]| <= MAX_TOKEN_LEN
    ensures var now := Rounds(ranks, parts, k);
      && (forall i :: 0 <= i < |now| ==> 0 < |now[i]| <= MAX_TOKEN_LEN)
      && (forall i :: 0 <= i < |now| - 1 ==> |PairKey(now[i], now[i + 1])| <= 2 * MAX_TOKEN_LEN + 1)
      && (k >= |parts| ==> now == Merge(ranks, parts))
    decreases |parts|
  {
    if k > 0 && !Settled(ranks, parts) {
      MergeKeepsShort(ranks, JoinAt(parts, Best(ranks, parts)), k - 1);
    }
  }

  // ---------------------------------------------------------------- the merge table's keys

  /** The table entry of merge rule `i`: the pair's key with the rule's position as its rank. */
  function MergeEntries(merges: seq<MergeRule>): (entries: seq<Entry>)
    ensures |entries| == |merges|
    ensures forall i :: 0 <= i < |merges| ==>
      entries[i].key == PairKey(merges[i].a, merges[i].b) && entries[i].id == i % WORD
  {
    seq(|merges|, i requires 0 <= i < |merges| => Entry(PairKey(merges[i].a, merges[i].b), i % WORD))
  }

  ghost predicate NoSeparator(a: Bytes) {
    SEPARATOR !in a
  }

  /** A key determines its pair when one side is free of the separator byte. */
  lemma PairKeyInjective(a: Bytes, b: Bytes, c: Bytes, d: Bytes)
    requires NoSeparator(a) && NoSeparator(b)
    requires PairKey(a, b) == PairKey(c, d)
    ensures a == c && b == d
  {
    var k := PairKey(a, b);
    assert k[|a|] == SEPARATOR && k[|c|] == SEPARATOR;
    assert forall i :: 0 <= i < |a| ==> k[i] == a[i] != SEPARATOR;
    assert forall i :: |a| < i < |k| ==> k[i] == b[i - |a| - 1] != SEPARATOR;
    assert |a| == |c|;
    assert a == k[..|a|] == c;
    assert b == k[|a| + 1..] == d;
  }

  /** For separator-free pieces, looking the key up is looking the pair up: the
      rank is the position of the pair's first rule. */
  lemma RankIsFirstRule(merges: seq<MergeRule>, a: Bytes, b: Bytes)
    requires NoSeparator(a) && NoSeparator(b) && |a| + |b| <= 2 * MAX_TOKEN_LEN
    requires |merges| < EMPTY
    ensures Rank(Filled(MergeEntries(merges)), a, b) == EMPTY <==> MergeRule(a, b) !in merges
    ensures MergeRule(a, b) in merges ==>
      var r := Rank(Filled(MergeEntries(merges)), a, b);
      r < |merges| && merges[r] == MergeRule(a, b) && MergeRule(a, b) !in merges[..r]
  {
    var entries := MergeEntries(merges);
    var key := PairKey(a, b);
    hide Filled;
    FilledIsFirstBinding(entries, key);
    KeyMeansRule(merges, a, b);
    if MergeRule(a, b) in merges {
      var i :| 0 <= i < |merges| && merges[i] == MergeRule(a, b);
      assert entries[i].key == key && entries[i].id != EMPTY;
    }
    if key in Filled(entries) {
      var i: nat :| FirstWith(entries, i, key);
      assert Filled(entries)[key] == i;
      assert forall j :: 0 <= j < i ==> entries[j].id != EMPTY;
    }
  }

  lemma KeyMeansRule(merges: seq<MergeRule>, a: Bytes, b: Bytes)
    requires NoSeparator(a) && NoSeparator(b)
    ensures forall i :: 0 <= i < |merges| ==>
      (MergeEntries(merges)[i].key == PairKey(a, b) <==> merges[i] == MergeRule(a, b))
  {
    forall i | 0 <= i < |merges| && MergeEntries(merges)[i].key == PairKey(a, b)
      ensures merges[i] == MergeRule(a, b)
    {
      PairKeyInjective(a, b, merges[i].a, merges[i].b);
    }
  }

  // ----------------------------------------------------------------- cutting into characters

  /** One piece per character, the last one cut short by the end; at most `max` pieces. */
  function Characters(s: Bytes, max: nat): seq<Bytes>
    decreases |s|
  {
    if s == [] || max == 0 then []
    else if CharLength(s[0]) >= |s| then [s]
    else [s[..CharLength(s[0])]] + Characters(s[CharLength(s[0])..], max - 1)
  }

  function CharacterCount(s: Bytes): nat {
    if s == [] then 0 else if CharLength(s[0]) >= |s| then 1 else 1 + CharacterCount(s[CharLength(s[0])..])
  }

  /** Text is cut into its characters, as many as the limit allows; it is kept
      whole exactly when it has no more characters than that. */
  lemma {:induction false} CharactersOfText(s: Bytes, max: nat)
    ensures |Characters(s, max)| == if CharacterCount(s) <= max then CharacterCount(s) else max
    ensures Flatten(Characters(s, max)) <= s
    ensures Flatten(Characters(s, max)) == s <==> CharacterCount(s) <= max
    ensures forall i :: 0 <= i < |Characters(s, max)| ==> 1 <= |Characters(s, max)[i]| <= 4
    ensures s != [] && max > 0 ==> Characters(s, max) != []
    decreases |s|
  {
    if s == [] || max == 0 {
    } else if CharLength(s[0]) >= |s| {
      FlattenOne(s);
    } else {
      var n := CharLength(s[0]);
      CharactersOfText(s[n..], max - 1);
      var all := Characters(s, max);
      assert all[0] == s[..n] && all[1..] == Characters(s[n..], max - 1);
      SplitAt(s, n);
    }
  }

  /** Text of the byte alphabet is cut exactly at its encoded bytes. */
  lemma {:induction false} CharactersOfEncoding(raw: Bytes, max: nat)
    requires |raw| <= max
    ensures |Characters(EncodeBytes(raw), max)| == |raw|
    ensures forall i :: 0 <= i < |raw| ==> Characters(EncodeBytes(raw), max)[i] == EncodeByte(raw[i])
    decreases |raw|
  {
    if raw != [] {
      EncodedByte(raw[0]);
      CharactersOfEncoding(raw[1..], max - 1);
      FirstCharacter(EncodeByte(raw[0]), EncodeBytes(raw[1..]), max);
    }
  }

  lemma FirstCharacter(c: Bytes, rest: Bytes, max: nat)
    requires c != [] && |c| == CharLength(c[0]) && max > 0
    ensures Characters(c + rest, max) == [c] + Characters(rest, max - 1)
  {
    PrefixOfConcat(c, rest);
    if rest == [] {
      assert c + rest == c;
    }
  }

  // ------------------------------------------------------------------------------- token ids

  function ByteIds(vocab: map<Key, U32>, b: Byte): (ids: Ids)
    ensures |ids| <= 1
  {
    if EncodeByte(b) in vocab then [vocab[EncodeByte(b)]] else []
  }

  /** Ids for a piece that is not in the vocabulary: its bytes' characters, where known, from byte `j` on. */
  function FallbackIds(vocab: map<Key, U32>, part: Bytes, j: nat): Ids
    decreases |part| - j
  {
    if j >= |part| then [] else ByteIds(vocab, part[j]) + FallbackIds(vocab, part, j + 1)
  }

  function PartIds(vocab: map<Key, U32>, part: Bytes): Ids {
    if part in vocab then [vocab[part]] else FallbackIds(vocab, part, 0)
  }

  /** The ids of the pieces from the `k`-th on. */
  function AllPartIds(vocab: map<Key, U32>, parts: seq<Bytes>, k: nat): Ids
    decreases |parts| - k
  {
    if k >= |parts| then [] else PartIds(vocab, parts[k]) + AllPartIds(vocab, parts, k + 1)
  }

  /** What the merge loop emits for one encoded span. */
  function ProcessIds(vocab: map<Key, U32>, ranks: map<Key, U32>, s: Bytes): Ids {
    AllPartIds(vocab, Merge(ranks, Characters(s, MAX_PIECES)), 0)
  }
}
