/** Moving expert weights out of packed tensors into one file a layer: the index
    over the tensors, the plan of copies, and the scatter in any order. */
module ExpertRepack {
  import opened Arith

  const EXPERT_SIZE: nat := 1769472
  const NUM_EXPERTS: nat := 256
  const LAYER_SIZE: nat := 452984832
  const COMPONENTS: nat := 9

  /** The layout of an expert's block: gate, up and down projection, each with
      weight, scales and biases. */
  function OffsetOf(c: nat): nat
    requires c < COMPONENTS
  {
    [0, 524288, 557056, 589824, 1114112, 1146880, 1179648, 1703936, 1736704][c]
  }

  function SizeOf(c: nat): nat
    requires c < COMPONENTS
  {
    [524288, 32768, 32768, 524288, 32768, 32768, 524288, 32768, 32768][c]
  }

  /** The components follow one another and fill the block; the blocks fill the layer. */
  lemma LayoutTiles(c: nat)
    requires c < COMPONENTS
    ensures OffsetOf(0) == 0 && SizeOf(c) == if c % 3 == 0 then 512 * 1024 else 32 * 1024
    ensures OffsetOf(c) + SizeOf(c) == if c + 1 < COMPONENTS then OffsetOf(c + 1) else EXPERT_SIZE
    ensures LAYER_SIZE == NUM_EXPERTS * EXPERT_SIZE
  {
  }

  lemma {:induction false} OffsetsAscend(c: nat, d: nat)
    requires c < d < COMPONENTS
    ensures OffsetOf(c) + SizeOf(c) <= OffsetOf(d)
    decreases d
  {
    LayoutTiles(d - 1);
    if c < d - 1 {
      OffsetsAscend(c, d - 1);
    }
  }

  // ------------------------------------------------------------------------------- the index

  datatype Entry = Entry(file: nat, absOffset: int, stride: int, size: int)

  /** A tensor of one component, as its shard's header describes it: `begin` and
      `end` are relative to the shard's data. */
  datatype Tensor = Tensor(component: nat, file: nat, dataStart: nat, begin: int, end: int, shape: seq<int>)

  datatype IndexError = NoShape | BadExpertCount | NotDivisible

  datatype Result<+T, +E> = Ok(value: T) | Err(error: E)

  function SizeBytes(t: Tensor): int { (t.dataStart + t.end) - (t.dataStart + t.begin) }

  /** The entry of a tensor that holds all experts of one component. */
  function IndexTensor(t: Tensor): (r: Result<Entry, IndexError>)
    ensures r.Ok? <==> t.shape != [] && t.shape[0] > 0 && SizeBytes(t) % t.shape[0] == 0
    ensures r.Ok? ==> r.value.stride == r.value.size && r.value.size * t.shape[0] == t.end - t.begin
  {
    if |t.shape| < 1 then Err(NoShape)
    else if t.shape[0] <= 0 then Err(BadExpertCount)
    else if SizeBytes(t) % t.shape[0] != 0 then Err(NotDivisible)
    else
      DivMod(SizeBytes(t), t.shape[0]);
      Ok(Entry(t.file, t.dataStart + t.begin, SizeBytes(t) / t.shape[0], SizeBytes(t) / t.shape[0]))
  }

  type Index = map<nat, Entry>

  /** One layer's entries; a later tensor for the same component replaces an earlier one. */
  function IndexLayer(tensors: seq<Tensor>): Result<Index, IndexError> {
    if tensors == [] then Ok(map[])
    else
      var n := |tensors| - 1;
      match IndexLayer(tensors[..n])
      case Err(e) => Err(e)
      case Ok(before) =>
        match IndexTensor(tensors[n])
        case Err(e) => Err(e)
        case Ok(entry) => Ok(before[tensors[n].component := entry])
  }

  method BuildIndex(tensors: seq<Tensor>) returns (r: Result<Index, IndexError>)
    ensures r == IndexLayer(tensors)
  {
    var entries: Index := map[];
    assert tensors[..|tensors|] == tensors;
    for k := 0 to |tensors|
      invariant IndexLayer(tensors[..k]) == Ok(entries)
    {
      assert tensors[..k + 1][..k] == tensors[..k];
      var entry := IndexTensor(tensors[k]);
      if entry.Err? {
        FirstErrorStays(tensors, k);
        return Err(entry.error);
      }
      entries := entries[tensors[k].component := entry.value];
    }
    return Ok(entries);
  }

  lemma {:induction false} FirstErrorStays(tensors: seq<Tensor>, k: nat)
    requires k < |tensors| && IndexLayer(tensors[..k]).Ok? && IndexTensor(tensors[k]).Err?
    ensures IndexLayer(tensors) == Err(IndexTensor(tensors[k]).error)
    decreases |tensors|
  {
    var n := |tensors| - 1;
    if k < n {
      assert tensors[..n][..k] == tensors[..k];
      FirstErrorStays(tensors[..n], k);
    }
  }

  /** Indexing succeeds exactly when every tensor can be divided among its experts;
      a component's entry is that of the last tensor for it. */
  lemma {:induction false} IndexHoldsLast(tensors: seq<Tensor>)
    ensures IndexLayer(tensors).Ok? <==> forall k :: 0 <= k < |tensors| ==> IndexTensor(tensors[k]).Ok?
    ensures IndexLayer(tensors).Ok? ==> forall k :: 0 <= k < |tensors| && LastFor(tensors, k) ==>
      var c := tensors[k].component;
      c in IndexLayer(tensors).value && IndexTensor(tensors[k]) == Ok(IndexLayer(tensors).value[c])
  {
    hide IndexTensor;
    if tensors != [] {
      var n := |tensors| - 1;
      var before := tensors[..n];
      IndexHoldsLast(before);
      IndexLast(tensors);
      hide IndexLayer;
      assert forall k :: 0 <= k < n ==> before[k] == tensors[k];
      if IndexLayer(tensors).Ok? {
        forall k | 0 <= k < |tensors| && LastFor(tensors, k)
          ensures var c := tensors[k].component;
            c in IndexLayer(tensors).value && IndexTensor(tensors[k]) == Ok(IndexLayer(tensors).value[c])
        {
          if k < n {
            assert tensors[n].component != tensors[k].component && LastFor(before, k);
          }
        }
      }
    }
  }

  /** The last tensor's part in the index. */
  lemma IndexLast(tensors: seq<Tensor>)
    requires tensors != []
    ensures var n := |tensors| - 1;
      var before, one := IndexLayer(tensors[..n]), IndexTensor(tensors[n]);
      && (IndexLayer(tensors).Ok? <==> before.Ok? && one.Ok?)
      && (IndexLayer(tensors).Ok? ==> IndexLayer(tensors).value == before.value[tensors[n].component := one.value])
  {
    hide IndexTensor;
  }

  ghost predicate LastFor(tensors: seq<Tensor>, k: nat)
    requires k < |tensors|
  {
    forall j :: k < j < |tensors| ==> tensors[j].component != tensors[k].component
  }

  // -------------------------------------------------------------------------------- the plan

  datatype Move = Move(file: nat, src: int, dst: nat, size: nat)

  predicate Complete(index: Index) {
    forall c :: 0 <= c < COMPONENTS ==> c in index
  }

  function MoveFor(index: Index, e: nat, c: nat): Move
    requires c < COMPONENTS && c in index
  {
    Move(index[c].file, index[c].absOffset + e * index[c].stride, e * EXPERT_SIZE + OffsetOf(c), SizeOf(c))
  }

  ghost predicate IsPlan(index: Index, plan: seq<Move>)
    requires Complete(index)
  {
    && |plan| == NUM_EXPERTS * COMPONENTS
    && forall e: nat, c: nat {:trigger MoveFor(index, e, c)} :: e < NUM_EXPERTS && c < COMPONENTS ==>
         plan[e * COMPONENTS + c] == MoveFor(index, e, c)
  }

  /** One expert's moves, in the order of the layout. */
  method PlanExpert(index: Index, e: nat) returns (moves: seq<Move>)
    requires Complete(index) && e < NUM_EXPERTS
    ensures |moves| == COMPONENTS && forall c: nat {:trigger MoveFor(index, e, c)} :: c < COMPONENTS ==>
      moves[c] == MoveFor(index, e, c)
  {
    moves := [];
    for c := 0 to COMPONENTS
      invariant |moves| == c
      invariant forall d: nat {:trigger MoveFor(index, e, d)} :: d < c ==> moves[d] == MoveFor(index, e, d)
    {
      var info := index[c];
      moves := moves + [Move(info.file, info.absOffset + e * info.stride, e * EXPERT_SIZE + OffsetOf(c), SizeOf(c))];
    }
  }

  method BuildPlan(index: Index) returns (plan: seq<Move>)
    requires Complete(index)
    ensures IsPlan(index, plan)
  {
    plan := [];
    for e := 0 to NUM_EXPERTS
      invariant |plan| == e * COMPONENTS
      invariant forall d: nat, c: nat {:trigger MoveFor(index, d, c)} :: d < e && c < COMPONENTS ==>
        plan[d * COMPONENTS + c] == MoveFor(index, d, c)
    {
      var moves := PlanExpert(index, e);
      ghost var before := plan;
      plan := plan + moves;
      forall d: nat, c: nat {:trigger MoveFor(index, d, c)} | d < e + 1 && c < COMPONENTS
        ensures plan[d * COMPONENTS + c] == MoveFor(index, d, c)
      {
        if d == e {
          assert plan[e * COMPONENTS + c] == moves[c];
        } else {
          assert plan[d * COMPONENTS + c] == before[d * COMPONENTS + c];
        }
      }
    }
  }

  // ------------------------------------------------------------- the destinations tile the file

  predicate Apart(a: Move, b: Move) {
    a.dst + a.size <= b.dst || b.dst + b.size <= a.dst
  }

  ghost predicate AllApart(plan: seq<Move>) {
    forall i, j {:trigger plan[i], plan[j]} :: 0 <= i < j < |plan| ==> Apart(plan[i], plan[j])
  }

  predicate Inside(m: Move) {
    m.dst + m.size <= LAYER_SIZE
  }

  lemma MoveApart(index: Index, e: nat, c: nat, f: nat, d: nat)
    requires Complete(index) && e < NUM_EXPERTS && f < NUM_EXPERTS && c < COMPONENTS && d < COMPONENTS
    requires e < f || (e == f && c < d)
    ensures MoveFor(index, e, c).dst + MoveFor(index, e, c).size <= MoveFor(index, f, d).dst
  {
    if e == f {
      OffsetsAscend(c, d);
    } else {
      BlockHolds(e, c);
    }
  }

  lemma BlockHolds(e: nat, c: nat)
    requires c < COMPONENTS
    ensures e * EXPERT_SIZE + OffsetOf(c) + SizeOf(c) <= (e + 1) * EXPERT_SIZE
  {
    LayoutTiles(c);
    if c + 1 < COMPONENTS {
      LayoutTiles(COMPONENTS - 1);
      if c + 1 < COMPONENTS - 1 {
        OffsetsAscend(c + 1, COMPONENTS - 1);
      }
    }
  }

  lemma PlanIndex(i: nat)
    requires i < NUM_EXPERTS * COMPONENTS
    ensures i / COMPONENTS < NUM_EXPERTS && i % COMPONENTS < COMPONENTS
    ensures i == i / COMPONENTS * COMPONENTS + i % COMPONENTS
  {
  }

  lemma PlanEntry(index: Index, plan: seq<Move>, i: nat)
    requires Complete(index) && IsPlan(index, plan) && i < |plan|
    ensures i % COMPONENTS in index && plan[i] == MoveFor(index, i / COMPONENTS, i % COMPONENTS)
    ensures i / COMPONENTS < NUM_EXPERTS
  {
    PlanIndex(i);
    var move := MoveFor(index, i / COMPONENTS, i % COMPONENTS);
  }

  /** No two moves write the same byte, and none writes outside the file. */
  lemma PlanIsApart(index: Index, plan: seq<Move>)
    requires Complete(index) && IsPlan(index, plan)
    ensures AllApart(plan) && forall i :: 0 <= i < |plan| ==> Inside(plan[i])
  {
    forall i, j {:trigger plan[i], plan[j]} | 0 <= i < j < |plan|
      ensures Apart(plan[i], plan[j])
    {
      PlanEntry(index, plan, i);
      PlanEntry(index, plan, j);
      MoveApart(index, i / COMPONENTS, i % COMPONENTS, j / COMPONENTS, j % COMPONENTS);
    }
    forall i | 0 <= i < |plan|
      ensures Inside(plan[i])
    {
      PlanEntry(index, plan, i);
      BlockHolds(i / COMPONENTS, i % COMPONENTS);
    }
  }

  /** The component that byte `r` of a block belongs to. */
  function ComponentAt(r: nat): (c: nat)
    requires r < EXPERT_SIZE
    ensures c < COMPONENTS && OffsetOf(c) <= r < OffsetOf(c) + SizeOf(c)
  {
    if r < 524288 then 0 else if r < 557056 then 1 else if r < 589824 then 2
    else if r < 1114112 then 3 else if r < 1146880 then 4 else if r < 1179648 then 5
    else if r < 1703936 then 6 else if r < 1736704 then 7 else 8
  }

  /** Every byte of the file is some move's. */
  lemma PlanCovers(index: Index, plan: seq<Move>, p: nat) returns (i: nat)
    requires Complete(index) && IsPlan(index, plan) && p < LAYER_SIZE
    ensures i < |plan| && plan[i].dst <= p < plan[i].dst + plan[i].size
  {
    var e, r := p / EXPERT_SIZE, p % EXPERT_SIZE;
    var c := ComponentAt(r);
    DivBounds(p, EXPERT_SIZE, 0, NUM_EXPERTS);
    i := e * COMPONENTS + c;
    assert plan[e * COMPONENTS + c] == MoveFor(index, e, c);
  }
}
