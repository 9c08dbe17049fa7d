/** Open addressing with linear probing, as the tokenizer keeps its vocabulary
    and its merge ranks.  A slot is free when its id is the sentinel; keys are
    only ever added.  The table refines a map in which the first binding of a
    key wins. */
module ProbingTable {
  import opened Wrappers
  import opened Arith
  import opened Bits

  type Key = seq<Byte>

  const EMPTY: U32 := 0xFFFF_FFFF
  const FNV_OFFSET: U32 := 2166136261
  const FNV_PRIME: U32 := 16777619

  function FnvStep(h: U32, b: Byte): U32 {
    Xor(h, b) % WORD * FNV_PRIME % WORD
  }

  function Fnv(key: Key): U32 {
    if key == [] then FNV_OFFSET else FnvStep(Fnv(key[..|key| - 1]), key[|key| - 1])
  }

  method BpeHash(key: Key) returns (h: U32)
    ensures h == Fnv(key)
  {
    h := FNV_OFFSET;
    for i := 0 to |key|
      invariant h == Fnv(key[..i])
    {
      assert key[..i + 1][..i] == key[..i];
      h := FnvStep(h, key[i]);
    }
    assert key[..|key|] == key;
  }

  // ------------------------------------------------- the probe order of a table

  function Home(key: Key, size: nat): nat
    requires size > 0
  {
    Fnv(key) % size
  }

  /** How many probes after `home` slot `s` is looked at. */
  function Dist(home: nat, s: nat, size: nat): nat
    requires home < size && s < size
  {
    if s >= home then s - home else s + size - home
  }

  function Next(s: nat, size: nat): nat
    requires s < size
  {
    if s + 1 == size then 0 else s + 1
  }

  lemma MaskedHome(key: Key, size: nat, bits: nat)
    requires size == Pow2(bits)
    ensures And(Fnv(key), size - 1) == Home(key, size)
  {
    AndMask(Fnv(key), bits);
  }

  lemma MaskedNext(s: nat, size: nat, bits: nat)
    requires size == Pow2(bits) && s < size
    ensures And(s + 1, size - 1) == Next(s, size)
  {
    AndMask(s + 1, bits);
    if s + 1 == size {
      DivModIs(size, size, 1, 0);
    } else {
      DivModIs(s + 1, size, 0, s + 1);
    }
  }

  lemma DistInjective(home: nat, s: nat, t: nat, size: nat)
    requires home < size && s < size && t < size
    ensures Dist(home, s, size) == Dist(home, t, size) ==> s == t
  {
  }

  /** Every slot probed before `h` is occupied. */
  ghost predicate Probed(ids: seq<U32>, home: nat, h: nat) {
    && home < |ids| && h < |ids|
    && forall t :: 0 <= t < |ids| && Dist(home, t, |ids|) < Dist(home, h, |ids|) ==> ids[t] != EMPTY
  }

  /** An occupied slot's key is bound, at this slot or at one probed earlier, and
      no free slot lies on the probe path to it. */
  ghost predicate SlotOk(ids: seq<U32>, keys: seq<Key>, slotOf: map<Key, nat>, s: nat)
    requires s < |ids| == |keys|
  {
    ids[s] != EMPTY ==>
      && keys[s] in slotOf && slotOf[keys[s]] < |ids|
      && Probed(ids, Home(keys[s], |ids|), s)
      && Dist(Home(keys[s], |ids|), slotOf[keys[s]], |ids|) <= Dist(Home(keys[s], |ids|), s, |ids|)
  }

  /** A bound key is stored in its slot. */
  ghost predicate BindingOk(ids: seq<U32>, keys: seq<Key>, slotOf: map<Key, nat>, k: Key)
    requires |ids| == |keys| && k in slotOf
  {
    slotOf[k] < |ids| && ids[slotOf[k]] != EMPTY && keys[slotOf[k]] == k
  }

  /** What a table's slots promise about the map from keys to slots. */
  ghost predicate Consistent(ids: seq<U32>, keys: seq<Key>, slotOf: map<Key, nat>) {
    && |ids| == |keys| > 0
    && (forall s {:trigger SlotOk(ids, keys, slotOf, s)} :: 0 <= s < |ids| ==> SlotOk(ids, keys, slotOf, s))
    && (forall k {:trigger BindingOk(ids, keys, slotOf, k)} :: k in slotOf ==> BindingOk(ids, keys, slotOf, k))
  }

  /** How many of the first `n` slots are occupied. */
  function Used(ids: seq<U32>, n: nat): nat
    requires n <= |ids|
  {
    if n == 0 then 0 else Used(ids, n - 1) + (if ids[n - 1] != EMPTY then 1 else 0)
  }

  lemma {:induction false} RoomMeansFreeSlot(ids: seq<U32>, n: nat) returns (free: nat)
    requires n <= |ids| && Used(ids, n) < n
    ensures free < n && ids[free] == EMPTY
  {
    if ids[n - 1] == EMPTY {
      free := n - 1;
    } else {
      free := RoomMeansFreeSlot(ids, n - 1);
    }
  }

  lemma {:induction false} UsedAfterStore(ids: seq<U32>, s: nat, id: U32, n: nat)
    requires n <= |ids| && s < |ids| && ids[s] == EMPTY
    ensures Used(ids[s := id], n) == Used(ids, n) + (if s < n && id != EMPTY then 1 else 0)
  {
    if n > 0 {
      UsedAfterStore(ids, s, id, n - 1);
    }
  }

  lemma {:induction false} UsedNone(ids: seq<U32>, n: nat)
    requires n <= |ids|
    requires forall s :: 0 <= s < n ==> ids[s] == EMPTY
    ensures Used(ids, n) == 0
  {
    if n > 0 {
      UsedNone(ids, n - 1);
    }
  }

  /** The map a table stands for. */
  ghost function Bindings(ids: seq<U32>, slotOf: map<Key, nat>): map<Key, U32> {
    map k | k in slotOf :: if slotOf[k] < |ids| then ids[slotOf[k]] else EMPTY
  }

  lemma ProbeAdvances(ids: seq<U32>, home: nat, h: nat, free: nat)
    requires Probed(ids, home, h) && ids[h] != EMPTY
    requires free < |ids| && ids[free] == EMPTY
    ensures Probed(ids, home, Next(h, |ids|))
    ensures Dist(home, Next(h, |ids|), |ids|) == Dist(home, h, |ids|) + 1
    ensures Dist(home, h, |ids|) < Dist(home, free, |ids|)
  {
    forall t | 0 <= t < |ids| && Dist(home, t, |ids|) < Dist(home, h, |ids|) + 1
      ensures ids[t] != EMPTY
    {
      DistInjective(home, t, h, |ids|);
    }
  }

  lemma OccupiedIsBeforeFree(ids: seq<U32>, home: nat, s: nat, h: nat)
    requires Probed(ids, home, s) && ids[s] != EMPTY
    requires h < |ids| && ids[h] == EMPTY
    ensures Dist(home, s, |ids|) < Dist(home, h, |ids|)
  {
    DistInjective(home, s, h, |ids|);
  }

  /** A probe that reaches a free slot without meeting the key shows it is unbound. */
  lemma FreeSlotEndsProbe(ids: seq<U32>, keys: seq<Key>, slotOf: map<Key, nat>, key: Key, h: nat)
    requires Consistent(ids, keys, slotOf)
    requires h < |ids| && ids[h] == EMPTY && NotYetFound(keys, key, Home(key, |ids|), h)
    ensures key !in Bindings(ids, slotOf)
  {
    if key in slotOf {
      assert BindingOk(ids, keys, slotOf, key) && SlotOk(ids, keys, slotOf, slotOf[key]);
      OccupiedIsBeforeFree(ids, Home(key, |ids|), slotOf[key], h);
    }
  }

  /** The first occurrence of the key on its probe path is its binding. */
  lemma FirstHitIsBinding(ids: seq<U32>, keys: seq<Key>, slotOf: map<Key, nat>, key: Key, h: nat)
    requires Consistent(ids, keys, slotOf)
    requires h < |ids| && ids[h] != EMPTY && keys[h] == key && NotYetFound(keys, key, Home(key, |ids|), h)
    ensures key in Bindings(ids, slotOf) && Bindings(ids, slotOf)[key] == ids[h]
  {
    assert SlotOk(ids, keys, slotOf, h) && BindingOk(ids, keys, slotOf, key);
    DistInjective(Home(key, |ids|), slotOf[key], h, |ids|);
  }

  ghost predicate NotYetFound(keys: seq<Key>, key: Key, home: nat, h: nat)
    requires home < |keys| && h < |keys|
  {
    forall t :: 0 <= t < |keys| && Dist(home, t, |keys|) < Dist(home, h, |keys|) ==> keys[t] != key
  }

  lemma NotFoundAdvances(keys: seq<Key>, key: Key, home: nat, h: nat, next: nat)
    requires home < |keys| && h < |keys| && next < |keys|
    requires NotYetFound(keys, key, home, h) && keys[h] != key
    requires Dist(home, next, |keys|) == Dist(home, h, |keys|) + 1
    ensures NotYetFound(keys, key, home, next)
  {
    forall t | 0 <= t < |keys| && Dist(home, t, |keys|) <= Dist(home, h, |keys|)
      ensures keys[t] != key
    {
      DistInjective(home, t, h, |keys|);
    }
  }

  ghost function SlotAfter(slotOf: map<Key, nat>, key: Key, h: nat, id: U32): map<Key, nat> {
    if id == EMPTY || key in slotOf then slotOf else slotOf[key := h]
  }

  lemma StoreKeepsSlot(ids: seq<U32>, keys: seq<Key>, slotOf: map<Key, nat>, key: Key, h: nat, id: U32, s: nat)
    requires Consistent(ids, keys, slotOf) && s < |ids|
    requires Probed(ids, Home(key, |ids|), h) && ids[h] == EMPTY
    requires id != EMPTY
    ensures SlotOk(ids[h := id], keys[h := key], SlotAfter(slotOf, key, h, id), s)
  {
    assert SlotOk(ids, keys, slotOf, s);
    if s == h && key in slotOf {
      assert BindingOk(ids, keys, slotOf, key) && SlotOk(ids, keys, slotOf, slotOf[key]);
      OccupiedIsBeforeFree(ids, Home(key, |ids|), slotOf[key], h);
    }
    if s != h && ids[s] != EMPTY && keys[s] == key {
      assert SlotAfter(slotOf, key, h, id)[key] == slotOf[key];
    }
  }

  lemma StoreKeepsConsistent(ids: seq<U32>, keys: seq<Key>, slotOf: map<Key, nat>, key: Key, h: nat, id: U32)
    requires Consistent(ids, keys, slotOf)
    requires Probed(ids, Home(key, |ids|), h) && ids[h] == EMPTY
    ensures Consistent(ids[h := id], keys[h := key], SlotAfter(slotOf, key, h, id))
  {
    var ids', keys', slots' := ids[h := id], keys[h := key], SlotAfter(slotOf, key, h, id);
    forall s | 0 <= s < |ids|
      ensures SlotOk(ids', keys', slots', s)
    {
      if id != EMPTY {
        StoreKeepsSlot(ids, keys, slotOf, key, h, id, s);
      } else {
        assert ids' == ids && SlotOk(ids, keys, slotOf, s);
      }
    }
    forall k | k in slots'
      ensures BindingOk(ids', keys', slots', k)
    {
      if k in slotOf {
        assert BindingOk(ids, keys, slotOf, k);
      }
    }
  }

  /** First binding wins; storing the sentinel as an id leaves the slot free. */
  function Bound(m: map<Key, U32>, key: Key, id: U32): map<Key, U32> {
    if id == EMPTY || key in m then m else m[key := id]
  }

  lemma StoreBinds(ids: seq<U32>, keys: seq<Key>, slotOf: map<Key, nat>, key: Key, h: nat, id: U32)
    requires Consistent(ids, keys, slotOf)
    requires Probed(ids, Home(key, |ids|), h) && ids[h] == EMPTY
    ensures Consistent(ids[h := id], keys[h := key], SlotAfter(slotOf, key, h, id))
    ensures Bindings(ids[h := id], SlotAfter(slotOf, key, h, id)) == Bound(Bindings(ids, slotOf), key, id)
  {
    StoreKeepsConsistent(ids, keys, slotOf, key, h, id);
    var slots' := SlotAfter(slotOf, key, h, id);
    forall k | k in slotOf
      ensures slotOf[k] != h && slots'[k] == slotOf[k]
    {
      assert BindingOk(ids, keys, slotOf, k);
    }
  }

  class Table {
    const ids: array<U32>
    const keys: array<Key>
    const mask: nat
    ghost const bits: nat
    ghost var slotOf: map<Key, nat>

    ghost predicate Valid()
      reads this, ids, keys
    {
      && ids.Length == keys.Length == mask + 1 == Pow2(bits)
      && Consistent(ids[..], keys[..], slotOf)
    }

    ghost function View(): map<Key, U32>
      reads this, ids, keys
      requires Valid()
    {
      Bindings(ids[..], slotOf)
    }

    ghost function Load(): nat
      reads ids
    {
      Used(ids[..], ids.Length)
    }

    /** A table for at most `n` insertions, every slot free. */
    constructor (n: U32)
      requires 1 <= n <= WORD / 4
      ensures Valid() && fresh(ids) && fresh(keys)
      ensures View() == map[] && Load() == 0
      ensures n < ids.Length
    {
      ghost var k := TableHasRoom(n);
      var size := TableSize(n);
      ids := new U32[size](_ => EMPTY);
      keys := new Key[size](_ => []);
      mask := size - 1;
      bits := k;
      slotOf := map[];
      new;
      UsedNone(ids[..], ids.Length);
    }

    method Insert(key: Key, id: U32)
      requires Valid() && Load() < ids.Length
      modifies this, ids, keys
      ensures Valid()
      ensures View() == Bound(old(View()), key, id)
      ensures Load() == old(Load()) + (if id == EMPTY then 0 else 1)
    {
      var h := FindFree(ids, mask, bits, key);
      ghost var slots, names, was := ids[..], keys[..], slotOf;
      StoreBinds(slots, names, was, key, h, id);
      Store(ids, keys, h, key, id);
      slotOf := SlotAfter(was, key, h, id);
      assert Load() == old(Load()) + (if id == EMPTY then 0 else 1) by {
        UsedAfterStore(slots, h, id, ids.Length);
      }
    }
  }

  method Store(ids: array<U32>, keys: array<Key>, h: nat, key: Key, id: U32)
    requires h < ids.Length == keys.Length
    modifies ids, keys
    ensures ids[..] == old(ids[..])[h := id]
    ensures keys[..] == old(keys[..])[h := key]
  {
    ids[h] := id;
    keys[h] := key;
  }

  /** The probe loop of an insertion. */
  method FindFree(ids: array<U32>, mask: nat, ghost bits: nat, key: Key) returns (h: nat)
    requires ids.Length == mask + 1 == Pow2(bits)
    requires Used(ids[..], ids.Length) < ids.Length
    ensures Probed(ids[..], Home(key, ids.Length), h) && ids[h] == EMPTY
  {
    ghost var slots := ids[..];
    ghost var free := RoomMeansFreeSlot(slots, ids.Length);
    var fnv := BpeHash(key);
    MaskedHome(key, mask + 1, bits);
    h := And(fnv, mask);
    ghost var home := h;
    while ids[h] != EMPTY
      invariant Probed(slots, home, h)
      decreases ids.Length - Dist(home, h, ids.Length)
    {
      ProbeAdvances(slots, home, h, free);
      MaskedNext(h, mask + 1, bits);
      h := And(h + 1, mask);
    }
  }

  // ---------------------------------------------------------------- the filled table

  /** A filled table.  Nothing writes to it any more, so it is a value. */
  datatype Slots = Slots(ids: seq<U32>, keys: seq<Key>)

  ghost predicate ServesVia(t: Slots, slotOf: map<Key, nat>, bits: nat, m: map<Key, U32>) {
    && Consistent(t.ids, t.keys, slotOf)
    && |t.ids| == Pow2(bits)
    && Used(t.ids, |t.ids|) < |t.ids|
    && m == Bindings(t.ids, slotOf)
  }

  /** The table answers lookups from `m`. */
  ghost predicate Serves(t: Slots, m: map<Key, U32>) {
    exists slotOf, bits :: ServesVia(t, slotOf, bits, m)
  }

  /** The probe loop of a lookup: it stops at the key or at a free slot. */
  method FindKey(t: Slots, ghost bits: nat, key: Key) returns (h: nat)
    requires |t.ids| == |t.keys| == Pow2(bits)
    requires Used(t.ids, |t.ids|) < |t.ids|
    ensures Probed(t.ids, Home(key, |t.ids|), h)
    ensures NotYetFound(t.keys, key, Home(key, |t.ids|), h)
    ensures t.ids[h] == EMPTY || t.keys[h] == key
  {
    var mask := |t.ids| - 1;
    ghost var free := RoomMeansFreeSlot(t.ids, |t.ids|);
    var fnv := BpeHash(key);
    MaskedHome(key, mask + 1, bits);
    h := And(fnv, mask);
    ghost var home := h;
    while t.ids[h] != EMPTY && t.keys[h] != key
      invariant Probed(t.ids, home, h)
      invariant NotYetFound(t.keys, key, home, h)
      decreases |t.ids| - Dist(home, h, |t.ids|)
    {
      ProbeAdvances(t.ids, home, h, free);
      NotFoundAdvances(t.keys, key, home, h, Next(h, mask + 1));
      MaskedNext(h, mask + 1, bits);
      h := And(h + 1, mask);
    }
  }

  /** A lookup gives the key's binding, and the sentinel iff it has none. */
  method Lookup(t: Slots, key: Key, ghost m: map<Key, U32>) returns (id: U32)
    requires Serves(t, m)
    ensures id == (if key in m then m[key] else EMPTY)
    ensures id == EMPTY <==> key !in m
  {
    ghost var slotOf, bits :| ServesVia(t, slotOf, bits, m);
    var h := FindKey(t, bits, key);
    if t.ids[h] == EMPTY {
      FreeSlotEndsProbe(t.ids, t.keys, slotOf, key, h);
    } else {
      FirstHitIsBinding(t.ids, t.keys, slotOf, key, h);
    }
    return t.ids[h];
  }

  // --------------------------------------- a table filled from a list of entries

  datatype Entry = Entry(key: Key, id: U32)

  /** The map that inserting `entries` in order leaves behind. */
  function Filled(entries: seq<Entry>): map<Key, U32> {
    if entries == [] then map[]
    else
      var last := entries[|entries| - 1];
      Bound(Filled(entries[..|entries| - 1]), last.key, last.id)
  }

  /** `i` is the first entry with its key that has an id a slot can hold. */
  ghost predicate FirstWith(entries: seq<Entry>, i: nat, key: Key) {
    && i < |entries| && entries[i].key == key && entries[i].id != EMPTY
    && forall j :: 0 <= j < i ==> entries[j].key != key || entries[j].id == EMPTY
  }

  /** A key is bound iff some entry carries it with a storable id, and then to the first such id. */
  lemma {:induction false} FilledIsFirstBinding(entries: seq<Entry>, key: Key)
    ensures key in Filled(entries) <==>
      exists i :: 0 <= i < |entries| && entries[i].key == key && entries[i].id != EMPTY
    ensures forall i: nat {:trigger FirstWith(entries, i, key)} :: FirstWith(entries, i, key) ==>
      key in Filled(entries) && Filled(entries)[key] == entries[i].id
    ensures key in Filled(entries) ==> exists i: nat :: FirstWith(entries, i, key)
  {
    if entries != [] {
      var n := |entries| - 1;
      var shorter := entries[..n];
      FilledIsFirstBinding(shorter, key);
      if key in Filled(shorter) {
        var i: nat :| FirstWith(shorter, i, key);
        assert FirstWith(entries, i, key);
        forall j | FirstWith(entries, j, key)
          ensures j == i
        {
        }
      } else if entries[n].key == key && entries[n].id != EMPTY {
        assert forall j :: 0 <= j < n ==> entries[j] == shorter[j];
        assert FirstWith(entries, n, key);
      } else {
        assert forall j :: 0 <= j < n ==> entries[j] == shorter[j];
      }
    }
  }

  /** Fill a table sized for its entries: every insertion finds a free slot.  For no
      entries, or more than 2^30, the size comes out too small, and there is no table. */
  method Fill(entries: seq<Entry>) returns (t: Option<Slots>)
    ensures t.Some? <==> 1 <= |entries| <= WORD / 4
    ensures t.Some? ==> Serves(t.value, Filled(entries))
  {
    if |entries| == 0 || |entries| > WORD / 4 {
      return None;
    }
    var table := new Table(|entries|);
    for i := 0 to |entries|
      invariant fresh(table) && fresh(table.ids) && fresh(table.keys)
      invariant table.Valid() && table.Load() <= i && |entries| < table.ids.Length
      invariant table.View() == Filled(entries[..i])
    {
      assert entries[..i + 1][..i] == entries[..i];
      table.Insert(entries[i].key, entries[i].id);
    }
    assert entries[..|entries|] == entries;
    var slots := Slots(table.ids[..], table.keys[..]);
    assert ServesVia(slots, table.slotOf, table.bits, Filled(entries));
    return Some(slots);
  }
}
