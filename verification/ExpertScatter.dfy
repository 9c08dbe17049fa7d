/** Carrying out the plan of copies, sorted for locality or in any other order:
    the layer file holds every expert's bytes where the layout wants them. */
module ExpertScatter {
  import opened Arith
  import opened Bits
  import opened Seqs
  import opened ExpertRepack

  type Shards = seq<seq<Byte>>

  /** `pread`: at most `size` bytes, fewer at the end of the file. */
  function Pread(shards: Shards, m: Move): seq<Byte> {
    if m.file >= |shards| || m.src < 0 || m.src > |shards[m.file]| then []
    else Take(shards[m.file][m.src..], m.size)
  }

  /** The whole stretch is there to be read. */
  predicate Readable(shards: Shards, m: Move) {
    m.file < |shards| && 0 <= m.src && m.src + m.size <= |shards[m.file]|
  }

  lemma ReadableIffFull(shards: Shards, m: Move)
    requires m.size > 0
    ensures |Pread(shards, m)| == m.size <==> Readable(shards, m)
    ensures Readable(shards, m) ==> Pread(shards, m) == shards[m.file][m.src..m.src + m.size]
  {
  }

  /** The move's bytes are in the output. */
  predicate Placed(shards: Shards, m: Move, out: seq<Byte>) {
    m.dst + m.size <= |out| && out[m.dst..m.dst + m.size] == Pread(shards, m)
  }

  function SumSizes(plan: seq<Move>): nat {
    if plan == [] then 0 else SumSizes(plan[..|plan| - 1]) + plan[|plan| - 1].size
  }

  // ------------------------------------------------------------------------------ permutations

  ghost predicate Reordered(a: seq<Move>, b: seq<Move>) {
    multiset(a) == multiset(b)
  }

  lemma {:induction false} SumConcat(a: seq<Move>, b: seq<Move>)
    ensures SumSizes(a + b) == SumSizes(a) + SumSizes(b)
    decreases |b|
  {
    if b == [] {
      assert a + b == a;
    } else {
      var n := |b| - 1;
      assert (a + b)[..|a| + n] == a + b[..n];
      SumConcat(a, b[..n]);
    }
  }

  lemma {:induction false} SumOfReordered(a: seq<Move>, b: seq<Move>)
    requires Reordered(a, b)
    ensures SumSizes(a) == SumSizes(b)
    decreases |a|
  {
    if a == [] {
      assert |multiset(b)| == 0;
    } else {
      var n := |a| - 1;
      assert a[n] in multiset(b);
      var i :| 0 <= i < |b| && b[i] == a[n];
      BothWithout(a, b, n, i);
      SumOfReordered(Without(a, n), Without(b, i));
      SumWithout(a, n);
      SumWithout(b, i);
    }
  }

  function Without(s: seq<Move>, i: nat): seq<Move>
    requires i < |s|
  {
    s[..i] + s[i + 1..]
  }

  lemma BothWithout(a: seq<Move>, b: seq<Move>, i: nat, j: nat)
    requires i < |a| && j < |b| && a[i] == b[j] && Reordered(a, b)
    ensures Reordered(Without(a, i), Without(b, j))
  {
    LessOne(a, i);
    LessOne(b, j);
  }

  lemma LessOne(s: seq<Move>, i: nat)
    requires i < |s|
    ensures multiset(Without(s, i)) == multiset(s) - multiset{s[i]}
  {
    assert s == s[..i] + [s[i]] + s[i + 1..];
  }

  lemma SumWithout(s: seq<Move>, i: nat)
    requires i < |s|
    ensures SumSizes(s) == SumSizes(Without(s, i)) + s[i].size
  {
    hide SumSizes;
    assert s == s[..i] + [s[i]] + s[i + 1..];
    SumConcat(s[..i], [s[i]]);
    SumConcat(s[..i] + [s[i]], s[i + 1..]);
    SumConcat(s[..i], s[i + 1..]);
    SumOne(s[i]);
  }

  lemma SumOne(m: Move)
    ensures SumSizes([m]) == m.size
  {
    assert [m][..0] == [];
  }

  lemma {:induction false} TwoPlaces(s: seq<Move>, m: Move) returns (i: nat, j: nat)
    requires multiset(s)[m] >= 2
    ensures i < j < |s| && s[i] == m && s[j] == m
  {
    var n := |s| - 1;
    assert s == s[..n] + [s[n]];
    if s[n] == m {
      assert m in multiset(s[..n]);
      i :| 0 <= i < n && s[..n][i] == m;
      j := n;
    } else {
      i, j := TwoPlaces(s[..n], m);
    }
  }

  lemma {:induction false} TwiceThere(s: seq<Move>, i: nat, j: nat)
    requires i < j < |s| && s[i] == s[j]
    ensures multiset(s)[s[i]] >= 2
  {
    assert s == s[..i] + [s[i]] + s[i + 1..j] + [s[j]] + s[j + 1..];
  }

  lemma ReorderedIsApart(plan: seq<Move>, order: seq<Move>)
    requires AllApart(plan) && Reordered(plan, order)
    ensures AllApart(order)
  {
    forall i, j {:trigger order[i], order[j]} | 0 <= i < j < |order|
      ensures Apart(order[i], order[j])
    {
      assert order[i] in multiset(order) && order[j] in multiset(order);
      if order[i] == order[j] {
        TwiceThere(order, i, j);
        var k, l := TwoPlaces(plan, order[i]);
        assert Apart(plan[k], plan[l]);
      } else {
        var k :| 0 <= k < |plan| && plan[k] == order[i];
        var l :| 0 <= l < |plan| && plan[l] == order[j];
        assert k < l ==> Apart(plan[k], plan[l]);
        assert l < k ==> Apart(plan[l], plan[k]);
      }
    }
  }

  // --------------------------------------------------------------------------------- sorting

  predicate NotAfter(a: Move, b: Move) {
    a.file < b.file || (a.file == b.file && a.src <= b.src)
  }

  function Insert(m: Move, sorted: seq<Move>): (r: seq<Move>)
    ensures multiset(r) == multiset(sorted) + multiset{m}
  {
    if sorted == [] || !NotAfter(sorted[0], m) then [m] + sorted
    else
      assert sorted == [sorted[0]] + sorted[1..];
      [sorted[0]] + Insert(m, sorted[1..])
  }

  /** Sorted by file and source offset, equal keys in their old order. */
  function SortBySource(plan: seq<Move>): (r: seq<Move>)
    ensures Reordered(plan, r)
  {
    if plan == [] then []
    else
      var n := |plan| - 1;
      assert plan == plan[..n] + [plan[n]];
      Insert(plan[n], SortBySource(plan[..n]))
  }

  ghost predicate Ascending(plan: seq<Move>) {
    forall i, j :: 0 <= i < j < |plan| ==> NotAfter(plan[i], plan[j])
  }

  lemma {:induction false} InsertKeepsAscending(m: Move, sorted: seq<Move>)
    requires Ascending(sorted)
    ensures Ascending(Insert(m, sorted))
    decreases |sorted|
  {
    if sorted != [] && NotAfter(sorted[0], m) {
      InsertKeepsAscending(m, sorted[1..]);
      var rest := Insert(m, sorted[1..]);
      forall k | 0 <= k < |rest|
        ensures NotAfter(sorted[0], rest[k])
      {
        assert rest[k] in multiset(rest);
        assert rest[k] == m || rest[k] in multiset(sorted[1..]);
      }
    }
  }

  lemma {:induction false} SortIsAscending(plan: seq<Move>)
    ensures Ascending(SortBySource(plan))
  {
    if plan != [] {
      SortIsAscending(plan[..|plan| - 1]);
      InsertKeepsAscending(plan[|plan| - 1], SortBySource(plan[..|plan| - 1]));
    }
  }

  // -------------------------------------------------------------------------------- execution

  datatype RepackError = MissingComponents | SizeMismatch | ShortRead(at: Move)

  lemma OtherPlacesKept(before: seq<Byte>, data: seq<Byte>, m: Move, other: Move, shards: Shards)
    requires |data| == m.size && m.dst + m.size <= |before| && Apart(other, m) && Placed(shards, other, before)
    ensures Placed(shards, other, before[..m.dst] + data + before[m.dst + m.size..])
  {
    var after := before[..m.dst] + data + before[m.dst + m.size..];
    assert after[other.dst..other.dst + other.size] == before[other.dst..other.dst + other.size];
  }

  method Pwrite(out: array<Byte>, data: seq<Byte>, dst: nat)
    requires dst + |data| <= out.Length
    modifies out
    ensures out[..] == old(out[..])[..dst] + data + old(out[..])[dst + |data|..]
  {
    forall i | 0 <= i < |data| {
      out[dst + i] := data[i];
    }
  }

  method ExecutePlan(plan: seq<Move>, shards: Shards, out: array<Byte>) returns (r: Result<nat, RepackError>)
    requires AllApart(plan) && forall i :: 0 <= i < |plan| ==>
      plan[i].size > 0 && plan[i].dst + plan[i].size <= out.Length
    modifies out
    ensures r.Ok? <==> forall i :: 0 <= i < |plan| ==> Readable(shards, plan[i])
    ensures r.Ok? ==> r.value == SumSizes(plan) && forall i :: 0 <= i < |plan| ==> Placed(shards, plan[i], out[..])
  {
    hide Placed;
    hide Pread;
    var bytesWritten := 0;
    assert plan[..|plan|] == plan;
    for k := 0 to |plan|
      invariant bytesWritten == SumSizes(plan[..k])
      invariant forall i :: 0 <= i < k ==> Readable(shards, plan[i]) && Placed(shards, plan[i], out[..])
    {
      var m := plan[k];
      var data := Pread(shards, m);
      ReadableIffFull(shards, m);
      if |data| != m.size {
        return Err(ShortRead(m));
      }
      ghost var before := out[..];
      Pwrite(out, data, m.dst);
      forall i | 0 <= i < k
        ensures Placed(shards, plan[i], out[..])
      {
        assert Apart(plan[i], plan[k]);
        OtherPlacesKept(before, data, m, plan[i], shards);
      }
      JustPlaced(before, data, m, shards);
      assert plan[..k + 1][..k] == plan[..k];
      bytesWritten := bytesWritten + m.size;
    }
    return Ok(bytesWritten);
  }

  lemma JustPlaced(before: seq<Byte>, data: seq<Byte>, m: Move, shards: Shards)
    requires data == Pread(shards, m) && |data| == m.size && m.dst + m.size <= |before|
    ensures Placed(shards, m, before[..m.dst] + data + before[m.dst + m.size..])
  {
  }

  // ------------------------------------------------------------------------------- the layer

  ghost predicate AllReadable(index: Index, shards: Shards)
    requires Complete(index)
  {
    forall e: nat, c: nat {:trigger MoveFor(index, e, c)} :: e < NUM_EXPERTS && c < COMPONENTS ==>
      Readable(shards, MoveFor(index, e, c))
  }

  ghost predicate AllPlaced(index: Index, shards: Shards, out: seq<Byte>)
    requires Complete(index)
  {
    forall e: nat, c: nat {:trigger MoveFor(index, e, c)} :: e < NUM_EXPERTS && c < COMPONENTS ==>
      Placed(shards, MoveFor(index, e, c), out)
  }

  /** Components with other names are only warned about. */
  predicate SizesMatch(index: Index) {
    forall c :: 0 <= c < COMPONENTS && c in index ==> index[c].size == SizeOf(c)
  }

  lemma {:induction false} PlanSum(index: Index, plan: seq<Move>, i: nat)
    requires Complete(index) && IsPlan(index, plan) && i <= |plan|
    ensures SumSizes(plan[..i]) == i / COMPONENTS * EXPERT_SIZE + OffsetOf(i % COMPONENTS)
  {
    if i > 0 {
      PlanSum(index, plan, i - 1);
      PlanEntry(index, plan, i - 1);
      assert plan[..i][..i - 1] == plan[..i - 1];
      LayoutTiles((i - 1) % COMPONENTS);
      NextPlanIndex(i - 1);
    }
  }

  lemma NextPlanIndex(i: nat)
    ensures i % COMPONENTS + 1 < COMPONENTS ==>
      (i + 1) / COMPONENTS == i / COMPONENTS && (i + 1) % COMPONENTS == i % COMPONENTS + 1
    ensures i % COMPONENTS + 1 == COMPONENTS ==> (i + 1) / COMPONENTS == i / COMPONENTS + 1 && (i + 1) % COMPONENTS == 0
  {
  }

  /** What every reordering of the plan shares with it. */
  lemma OrderOfPlan(index: Index, plan: seq<Move>, order: seq<Move>)
    requires Complete(index) && IsPlan(index, plan) && Reordered(plan, order)
    ensures AllApart(order) && SumSizes(order) == LAYER_SIZE
    ensures forall i :: 0 <= i < |order| ==> order[i].size > 0 && Inside(order[i])
    ensures forall m :: m in order <==> m in plan
  {
    hide Apart;
    hide Inside;
    PlanIsApart(index, plan);
    ReorderedIsApart(plan, order);
    WholeSum(index, plan);
    SumOfReordered(plan, order);
    SameMembers(plan, order);
    forall i | 0 <= i < |order|
      ensures order[i].size > 0 && Inside(order[i])
    {
      assert order[i] in plan;
      var k :| 0 <= k < |plan| && plan[k] == order[i];
      PlanEntry(index, plan, k);
      LayoutTiles(k % COMPONENTS);
    }
  }

  lemma WholeSum(index: Index, plan: seq<Move>)
    requires Complete(index) && IsPlan(index, plan)
    ensures SumSizes(plan) == LAYER_SIZE
  {
    PlanSum(index, plan, |plan|);
    assert plan[..|plan|] == plan;
  }

  lemma SameMembers(plan: seq<Move>, order: seq<Move>)
    requires Reordered(plan, order)
    ensures forall m :: m in order <==> m in plan
  {
    forall m
      ensures m in order <==> m in plan
    {
      assert m in order <==> m in multiset(order);
      assert m in plan <==> m in multiset(plan);
    }
  }

  /** A property of all moves in some order is one of all moves of the layer. */
  lemma AllOfOrder(index: Index, plan: seq<Move>, order: seq<Move>, p: Move -> bool)
    requires Complete(index) && IsPlan(index, plan) && forall m :: m in order <==> m in plan
    ensures (forall i :: 0 <= i < |order| ==> p(order[i])) <==>
      forall e: nat, c: nat {:trigger MoveFor(index, e, c)} :: e < NUM_EXPERTS && c < COMPONENTS ==>
        p(MoveFor(index, e, c))
  {
    if forall i :: 0 <= i < |order| ==> p(order[i]) {
      forall e: nat, c: nat {:trigger MoveFor(index, e, c)} | e < NUM_EXPERTS && c < COMPONENTS
        ensures p(MoveFor(index, e, c))
      {
        assert plan[e * COMPONENTS + c] == MoveFor(index, e, c);
        assert MoveFor(index, e, c) in order;
      }
    }
    if forall e: nat, c: nat {:trigger MoveFor(index, e, c)} :: e < NUM_EXPERTS && c < COMPONENTS ==>
      p(MoveFor(index, e, c)) {
      forall i | 0 <= i < |order|
        ensures p(order[i])
      {
        assert order[i] in plan;
        var k :| 0 <= k < |plan| && plan[k] == order[i];
        PlanEntry(index, plan, k);
      }
    }
  }

  /** Any order of the plan gives a file with every move's bytes in place. */
  method ScatterInOrder(index: Index, plan: seq<Move>, order: seq<Move>, shards: Shards, out: array<Byte>)
    returns (r: Result<nat, RepackError>)
    requires Complete(index) && IsPlan(index, plan) && Reordered(plan, order) && out.Length == LAYER_SIZE
    modifies out
    ensures r.Ok? <==> AllReadable(index, shards)
    ensures r.Ok? ==> r.value == LAYER_SIZE && AllPlaced(index, shards, out[..])
  {
    hide Placed;
    hide Readable;
    OrderOfPlan(index, plan, order);
    r := ExecutePlan(order, shards, out);
    AllOfOrder(index, plan, order, m => Readable(shards, m));
    ghost var written := out[..];
    AllOfOrder(index, plan, order, m => Placed(shards, m, written));
  }

  method RepackLayer(index: Index, shards: Shards, out: array<Byte>) returns (r: Result<nat, RepackError>)
    requires out.Length == LAYER_SIZE
    modifies out
    ensures r.Ok? <==> Complete(index) && SizesMatch(index) && AllReadable(index, shards)
    ensures r.Ok? ==> r.value == LAYER_SIZE && AllPlaced(index, shards, out[..])
  {
    if !SizesMatch(index) {
      return Err(SizeMismatch);
    }
    if !Complete(index) {
      return Err(MissingComponents);
    }
    var plan := BuildPlan(index);
    r := ScatterInOrder(index, plan, SortBySource(plan), shards, out);
  }

  /** The file is the same whatever the order: the moves leave no byte open. */
  lemma OrderDoesNotMatter(index: Index, plan: seq<Move>, shards: Shards, a: seq<Byte>, b: seq<Byte>)
    requires Complete(index) && IsPlan(index, plan) && |a| == |b| == LAYER_SIZE
    requires AllPlaced(index, shards, a) && AllPlaced(index, shards, b)
    ensures a == b
  {
    forall p | 0 <= p < LAYER_SIZE
      ensures a[p] == b[p]
    {
      var i := PlanCovers(index, plan, p);
      PlanEntry(index, plan, i);
      var m := plan[i];
      assert Placed(shards, m, a) && Placed(shards, m, b);
      assert a[m.dst..m.dst + m.size][p - m.dst] == b[m.dst..m.dst + m.size][p - m.dst];
    }
  }

  // ------------------------------------------------------------------------- byte for byte

  /** The tensor's own bytes. */
  function TensorData(shards: Shards, t: Tensor): seq<Byte>
    requires t.file < |shards| && 0 <= t.dataStart + t.begin <= t.dataStart + t.end <= |shards[t.file]|
  {
    shards[t.file][t.dataStart + t.begin..t.dataStart + t.end]
  }

  /** `t` is the tensor the index has for component `c`, with the expected size. */
  ghost predicate TensorFor(index: Index, t: Tensor, c: nat) {
    c < COMPONENTS && c in index && IndexTensor(t) == Ok(index[c]) && index[c].size == SizeOf(c)
  }

  /** Byte `k` of component `c` of expert `e` is byte `e * size + k` of the tensor. */
  lemma ByteForByte(index: Index, shards: Shards, out: seq<Byte>, t: Tensor, e: nat, c: nat, k: nat)
    requires Complete(index) && AllReadable(index, shards) && AllPlaced(index, shards, out)
    requires TensorFor(index, t, c) && e < NUM_EXPERTS && k < SizeOf(c) && e < t.shape[0]
    requires t.file < |shards| && 0 <= t.dataStart + t.begin <= t.dataStart + t.end <= |shards[t.file]|
    ensures e * EXPERT_SIZE + OffsetOf(c) + k < |out| && e * SizeOf(c) + k < |TensorData(shards, t)|
    ensures out[e * EXPERT_SIZE + OffsetOf(c) + k] == TensorData(shards, t)[e * SizeOf(c) + k]
  {
    hide SizeOf;
    hide OffsetOf;
    hide Pread;
    var m := MoveFor(index, e, c);
    assert Placed(shards, m, out) && Readable(shards, m);
    ReadableIffFull(shards, m);
    var start := t.dataStart + t.begin;
    assert m.src == start + e * SizeOf(c) && m.file == t.file;
    ExpertInside(t.shape[0], e, SizeOf(c));
    ByteOfSlice(out, m.dst, m.dst + m.size, k);
    ByteOfSlice(shards[m.file], m.src, m.src + m.size, k);
    ByteOfSlice(shards[t.file], start, t.dataStart + t.end, e * SizeOf(c) + k);
  }

  lemma ByteOfSlice(s: seq<Byte>, from: nat, to: nat, k: nat)
    requires from <= to <= |s| && k < to - from
    ensures s[from..to][k] == s[from + k]
  {
  }

  lemma ExpertInside(count: int, e: nat, size: nat)
    requires e < count
    ensures e * size + size <= size * count
  {
    MulMonotone(e + 1, count, size);
    assert (e + 1) * size == e * size + size;
  }

  /** Only the tensor's own bytes are used exactly when it holds enough experts. */
  lemma StaysInTensorIff(index: Index, t: Tensor, c: nat)
    requires TensorFor(index, t, c)
    ensures (forall e: nat {:trigger MoveFor(index, e, c)} :: e < NUM_EXPERTS ==>
               MoveFor(index, e, c).src + SizeOf(c) <= t.dataStart + t.end) <==> t.shape[0] >= NUM_EXPERTS
  {
    var n, size, start := t.shape[0], SizeOf(c), t.dataStart + t.begin;
    LayoutTiles(c);
    assert size * n == t.end - t.begin;
    if n >= NUM_EXPERTS {
      forall e: nat {:trigger MoveFor(index, e, c)} | e < NUM_EXPERTS
        ensures MoveFor(index, e, c).src + size <= t.dataStart + t.end
      {
        ExpertInside(n, e, size);
      }
    } else {
      var m := MoveFor(index, NUM_EXPERTS - 1, c);
      MulMonotone(n, NUM_EXPERTS - 1, size);
      assert m.src + size > t.dataStart + t.end;
    }
  }

  /** With one expert too few, the last move reads behind the tensor. */
  lemma ShortTensorIsOverrun()
    ensures var t := Tensor(0, 0, 0, 0, 255 * SizeOf(0), [255]);
      var index := map[0 := Entry(0, 0, SizeOf(0), SizeOf(0))];
      TensorFor(index, t, 0) && MoveFor(index, 255, 0).src + SizeOf(0) > t.dataStart + t.end
  {
    DivModIs(255 * SizeOf(0), 255, SizeOf(0), 0);
  }
}
