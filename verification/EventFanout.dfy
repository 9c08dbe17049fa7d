/** The lossy fan-out of runtime events: every subscriber has a bounded queue, and
    an overflow pops old entries and leaves a backpressure marker. */
module EventFanout {

  datatype Event = Plain(payload: string) | Backpressure(subscriber: string, dropped: nat, capacity: nat)

  const MIN_CAPACITY: nat := 2

  function AtLeastMinimum(capacity: nat): nat {
    if capacity < MIN_CAPACITY then MIN_CAPACITY else capacity
  }

  /** The last `n` entries, or all of them. */
  function Last<T>(s: seq<T>, n: nat): seq<T> {
    if n >= |s| then s else s[|s| - n..]
  }

  lemma LastOfLast<T>(s: seq<T>, more: seq<T>, n: nat)
    ensures Last(Last(s, n) + more, n) == Last(s + more, n)
  {
  }

  // ---------------------------------------------------------------------- what a queue holds

  /** What one emitted event writes when `written` entries are there already:
      beyond the capacity a plain event brings a marker for two lost entries. */
  function Entries(name: string, capacity: nat, written: nat, e: Event): seq<Event> {
    if written < capacity || e.Backpressure? then [e] else [Backpressure(name, 2, capacity), e]
  }

  /** Everything written for a subscriber, if nothing were ever popped. */
  function Tape(name: string, capacity: nat, events: seq<Event>): seq<Event> {
    if events == [] then []
    else
      var before := Tape(name, capacity, events[..|events| - 1]);
      before + Entries(name, capacity, |before|, events[|events| - 1])
  }

  /** A queue: the end of the tape, as much as the capacity holds. */
  function Held(name: string, capacity: nat, events: seq<Event>): seq<Event> {
    Last(Tape(name, capacity, events), capacity)
  }

  lemma HeldNext(name: string, capacity: nat, events: seq<Event>, e: Event)
    ensures var q := Held(name, capacity, events);
      Held(name, capacity, events + [e]) == Last(q + Entries(name, capacity, |q|, e), capacity)
  {
    var tape := Tape(name, capacity, events);
    assert (events + [e])[..|events|] == events;
    LastOfLast(tape, Entries(name, capacity, |tape|, e), capacity);
  }

  // ----------------------------------------------------------------------- the shared objects

  datatype Sub = Sub(name: string, capacity: nat, queue: seq<Event>)

  function Push(s: Sub, e: Event): Sub {
    s.(queue := Last(s.queue + Entries(s.name, s.capacity, |s.queue|, e), s.capacity))
  }

  function NewSub(name: string, requested: nat): Sub {
    Sub(name, AtLeastMinimum(requested), [])
  }

  function PushAll(subs: seq<Sub>, e: Event): (after: seq<Sub>)
    ensures |after| == |subs| && forall i :: 0 <= i < |subs| ==> after[i] == Push(subs[i], e)
  {
    seq(|subs|, i requires 0 <= i < |subs| => Push(subs[i], e))
  }

  function Emptied(subs: seq<Sub>, i: nat): seq<Sub> {
    if i < |subs| then subs[i := subs[i].(queue := [])] else subs
  }

  class Subscription {
    const name: string
    const capacity: nat
    var queue: seq<Event>

    ghost predicate Valid()
      reads this
    {
      capacity >= MIN_CAPACITY && |queue| <= capacity
    }

    function View(): Sub
      reads this
    {
      Sub(name, capacity, queue)
    }

    constructor (name: string, requested: nat)
      ensures Valid() && View() == NewSub(name, requested)
    {
      this.name := name;
      this.capacity := if requested < MIN_CAPACITY then MIN_CAPACITY else requested;
      this.queue := [];
    }

    /** Push with room made by popping from the front. */
    method PushBoundedEvent(event: Event)
      requires Valid()
      modifies this
      ensures Valid() && View() == Push(old(View()), event)
    {
      if |queue| < capacity {
        queue := queue + [event];
        return;
      }
      var requiredSlots := if event.Backpressure? then 1 else 2;
      var dropped := |queue| + requiredSlots - capacity;
      ghost var full := queue;
      for k := 0 to dropped
        invariant queue == full[k..]
      {
        queue := queue[1..];
      }
      if !event.Backpressure? {
        queue := queue + [Backpressure(name, dropped, capacity)];
      }
      queue := queue + [event];
    }

    method Drain() returns (events: seq<Event>)
      requires Valid()
      modifies this
      ensures Valid() && events == old(queue) && View() == old(View()).(queue := [])
    {
      events := queue;
      queue := [];
    }
  }

  class Fanout {
    var subscribers: seq<Subscription>

    ghost predicate Valid()
      reads this, subscribers
    {
      && (forall i :: 0 <= i < |subscribers| ==> subscribers[i].Valid())
      && (forall i, j :: 0 <= i < j < |subscribers| ==> subscribers[i] != subscribers[j])
    }

    ghost function View(): (v: seq<Sub>)
      reads this, subscribers
      ensures |v| == |subscribers|
    {
      seq(|subscribers|, i requires 0 <= i < |subscribers| reads this, subscribers => subscribers[i].View())
    }

    constructor ()
      ensures Valid() && View() == [] && fresh(subscribers)
    {
      subscribers := [];
    }

    method Subscribe(name: string, capacity: nat) returns (s: Subscription)
      requires Valid()
      modifies this
      ensures fresh(s) && subscribers == old(subscribers) + [s] && Valid()
      ensures View() == old(View()) + [NewSub(name, capacity)]
      ensures s.capacity == if capacity < 2 then 2 else capacity
    {
      s := new Subscription(name, capacity);
      subscribers := subscribers + [s];
    }

    method Emit(event: Event)
      requires Valid()
      modifies subscribers
      ensures Valid() && subscribers == old(subscribers)
      ensures View() == PushAll(old(View()), event)
    {
      hide Push;
      for k := 0 to |subscribers|
        invariant Valid()
        invariant forall i :: 0 <= i < k ==> subscribers[i].View() == Push(old(subscribers[i].View()), event)
        invariant forall i :: k <= i < |subscribers| ==> subscribers[i].View() == old(subscribers[i].View())
      {
        subscribers[k].PushBoundedEvent(event);
      }
    }

    method Drain(i: nat) returns (events: seq<Event>)
      requires Valid() && i < |subscribers|
      modifies subscribers[i]
      ensures Valid() && subscribers == old(subscribers)
      ensures events == old(View())[i].queue
      ensures View() == Emptied(old(View()), i)
    {
      events := subscribers[i].Drain();
    }
  }

  // ------------------------------------------------------------------------------ whole runs

  /** An emission holds the list of subscribers to its end and locks one queue at a time. */
  datatype Flight = Idle | Emitting(event: Event, next: nat)

  datatype Shared = Shared(subs: seq<Sub>, flight: Flight)

  /** The atomic steps: subscribing and starting to emit wait for the list; a push
      goes to the next queue of the emission under way; queues are drained at any time. */
  datatype Op = DoSubscribe(name: string, capacity: nat) | DoBegin(event: Event) | DoPush | DoDrain(index: nat)

  function Step(s: Shared, op: Op): Shared {
    match op
    case DoSubscribe(name, capacity) => if s.flight.Idle? then s.(subs := s.subs + [NewSub(name, capacity)]) else s
    case DoBegin(e) => if s.flight.Idle? && s.subs != [] then s.(flight := Emitting(e, 0)) else s
    case DoPush =>
      if s.flight.Emitting? && s.flight.next < |s.subs| then
        var i := s.flight.next;
        Shared(s.subs[i := Push(s.subs[i], s.flight.event)],
          if i + 1 < |s.subs| then s.flight.(next := i + 1) else Idle)
      else s
    case DoDrain(i) => s.(subs := Emptied(s.subs, i))
  }

  function RunFrom(s: Shared, ops: seq<Op>): Shared {
    if ops == [] then s else Step(RunFrom(s, ops[..|ops| - 1]), ops[|ops| - 1])
  }

  const NOBODY := Shared([], Idle)

  function Run(ops: seq<Op>): Shared { RunFrom(NOBODY, ops) }

  lemma RunStep(before: seq<Op>, op: Op)
    ensures Run(before + [op]) == Step(Run(before), op)
  {
    RunNext(NOBODY, before, op);
  }

  /** An emission is its pushes, one queue after the other. */
  lemma {:induction false} EmissionIsPushes(subs: seq<Sub>, e: Event, n: nat)
    requires n <= |subs| && subs != []
    ensures RunFrom(Shared(subs, Idle), [DoBegin(e)] + seq(n, _ => DoPush))
         == Shared(PushAll(subs, e)[..n] + subs[n..], if n < |subs| then Emitting(e, n) else Idle)
  {
    hide RunFrom;
    hide Push;
    var idle := Shared(subs, Idle);
    RunNext(idle, [], DoBegin(e));
    if n == 0 {
      assert [DoBegin(e)] + seq(0, _ => DoPush) == [] + [DoBegin(e)];
      assert PushAll(subs, e)[..0] + subs[0..] == subs;
    } else {
      var shorter := [DoBegin(e)] + seq(n - 1, _ => DoPush);
      EmissionIsPushes(subs, e, n - 1);
      assert [DoBegin(e)] + seq(n, _ => DoPush) == shorter + [DoPush];
      RunNext(idle, shorter, DoPush);
      var before := PushAll(subs, e)[..n - 1] + subs[n - 1..];
      OneReplaced(PushAll(subs, e), subs, n - 1);
      assert before[n - 1] == subs[n - 1];
    }
  }

  lemma OneReplaced<T>(after: seq<T>, before: seq<T>, k: nat)
    requires k < |after| == |before|
    ensures (after[..k] + before[k..])[k := after[k]] == after[..k + 1] + before[k + 1..]
  {
    var a, b := (after[..k] + before[k..])[k := after[k]], after[..k + 1] + before[k + 1..];
    assert |a| == |b|;
    forall i | 0 <= i < |a|
      ensures a[i] == b[i]
    {
      assert a[i] == if i <= k then after[i] else before[i];
    }
  }

  lemma RunNext(s: Shared, ops: seq<Op>, op: Op)
    ensures RunFrom(s, []) == s
    ensures RunFrom(s, ops + [op]) == Step(RunFrom(s, ops), op)
  {
    hide Step;
    assert (ops + [op])[..|ops|] == ops;
  }

  lemma {:induction false} FlightIsInside(ops: seq<Op>)
    ensures Run(ops).flight.Emitting? ==> Run(ops).flight.next < |Run(ops).subs|
  {
    if ops != [] {
      FlightIsInside(ops[..|ops| - 1]);
    }
  }

  /** The subscriptions a run made, in order. */
  function Subscribers(ops: seq<Op>): seq<Op> {
    if ops == [] then []
    else
      var before, op := ops[..|ops| - 1], ops[|ops| - 1];
      Subscribers(before) + if op.DoSubscribe? && Run(before).flight.Idle? then [op] else []
  }

  /** What step `op` pushes to subscriber `i`. */
  function PushedBy(s: Shared, op: Op, i: nat): seq<Event> {
    if op.DoPush? && s.flight.Emitting? && s.flight.next == i < |s.subs| then [s.flight.event] else []
  }

  /** What was pushed to subscriber `i` since it was last drained. */
  function Since(ops: seq<Op>, i: nat): seq<Event> {
    if ops == [] then []
    else
      var before, op := ops[..|ops| - 1], ops[|ops| - 1];
      if op == DoDrain(i) then []
      else Since(before, i) + PushedBy(Run(before), op, i)
  }

  /** Everything that was pushed to it. */
  function Pushed(ops: seq<Op>, i: nat): seq<Event> {
    if ops == [] then []
    else
      var before, op := ops[..|ops| - 1], ops[|ops| - 1];
      Pushed(before, i) + PushedBy(Run(before), op, i)
  }

  function BegunBy(s: Shared, op: Op, i: nat): seq<Event> {
    if op.DoBegin? && s.flight.Idle? && i < |s.subs| then [op.event] else []
  }

  /** The emissions begun since it subscribed. */
  function Begun(ops: seq<Op>, i: nat): seq<Event> {
    if ops == [] then []
    else
      var before, op := ops[..|ops| - 1], ops[|ops| - 1];
      Begun(before, i) + BegunBy(Run(before), op, i)
  }

  /** The event of the emission under way, if it has still to reach subscriber `i`. */
  function Awaited(s: Shared, i: nat): seq<Event> {
    if s.flight.Emitting? && s.flight.next <= i < |s.subs| then [s.flight.event] else []
  }

  /** Every subscriber is pushed every event emitted since it subscribed, in one and
      the same order; only the emission under way may not have reached it. */
  lemma {:induction false} EveryoneGetsEverything(ops: seq<Op>, i: nat)
    ensures Begun(ops, i) == Pushed(ops, i) + Awaited(Run(ops), i)
    ensures Since(ops, i) == Last(Pushed(ops, i), |Since(ops, i)|)
  {
    if ops != [] {
      hide Run;
      hide Pushed;
      hide Begun;
      hide Since;
      hide Push;
      hide Emptied;
      hide Last;
      var before, op := ops[..|ops| - 1], ops[|ops| - 1];
      assert ops == before + [op];
      EveryoneGetsEverything(before, i);
      FlightIsInside(before);
      RunStep(before, op);
      NextOf(before, op, i);
      if i >= |Run(before).subs| {
        NothingSinceNotSubscribed(before, i);
      }
      AwaitedNext(Run(before), op, i, Pushed(before, i));
      LastAgain(Pushed(before, i), Since(before, i), PushedBy(Run(before), op, i));
    }
  }

  lemma AwaitedNext(s: Shared, op: Op, i: nat, pushed: seq<Event>)
    requires s.flight.Emitting? ==> s.flight.next < |s.subs|
    requires i >= |s.subs| ==> pushed == []
    ensures (pushed + Awaited(s, i)) + BegunBy(s, op, i) == (pushed + PushedBy(s, op, i)) + Awaited(Step(s, op), i)
  {
    hide Push;
    assert Awaited(s, i) == [] || BegunBy(s, op, i) == [];
  }

  lemma LastAgain<T>(a: seq<T>, b: seq<T>, more: seq<T>)
    requires b == Last(a, |b|)
    ensures b + more == Last(a + more, |b + more|)
    ensures [] == Last(a + more, 0)
  {
  }

  /** What subscriber `i` must be after the run. */
  ghost predicate AsPromised(ops: seq<Op>, i: nat, s: Sub)
    requires i < |Subscribers(ops)|
  {
    var made := Subscribers(ops)[i];
    && made.DoSubscribe?
    && s.name == made.name && s.capacity == AtLeastMinimum(made.capacity)
    && s.queue == Held(s.name, s.capacity, Since(ops, i))
  }

  lemma {:induction false} NothingSinceNotSubscribed(ops: seq<Op>, i: nat)
    requires i >= |Run(ops).subs|
    ensures Since(ops, i) == [] && Pushed(ops, i) == [] && Begun(ops, i) == []
  {
    if ops != [] {
      NothingSinceNotSubscribed(ops[..|ops| - 1], i);
    }
  }

  /** What a step does to subscriber `i`. */
  function AfterStep(sub: Sub, op: Op, i: nat, pushed: seq<Event>): Sub {
    if op == DoDrain(i) then sub.(queue := []) else if pushed != [] then Push(sub, pushed[0]) else sub
  }

  lemma StepAt(s: Shared, op: Op, i: nat)
    requires i < |s.subs|
    ensures i < |Step(s, op).subs| && Step(s, op).subs[i] == AfterStep(s.subs[i], op, i, PushedBy(s, op, i))
  {
    hide Push;
  }

  lemma StepGrows(s: Shared, op: Op)
    ensures |Step(s, op).subs| == |s.subs| + if op.DoSubscribe? && s.flight.Idle? then 1 else 0
    ensures op.DoSubscribe? && s.flight.Idle? ==> Step(s, op).subs[|s.subs|] == NewSub(op.name, op.capacity)
  {
    hide Push;
  }

  /** In every interleaving of subscribing, pushing and draining, every queue is
      the end of what was written for it since it was last emptied. */
  lemma {:induction false} QueuesAreTapeEnds(ops: seq<Op>)
    ensures |Run(ops).subs| == |Subscribers(ops)|
    ensures forall i :: 0 <= i < |Run(ops).subs| ==> AsPromised(ops, i, Run(ops).subs[i])
  {
    if ops != [] {
      hide Run;
      hide Subscribers;
      hide AsPromised;
      hide Step;
      var before, op := ops[..|ops| - 1], ops[|ops| - 1];
      assert ops == before + [op];
      QueuesAreTapeEnds(before);
      RunStep(before, op);
      NextOf(before, op, 0);
      StepGrows(Run(before), op);
      forall i | 0 <= i < |Run(ops).subs|
        ensures AsPromised(ops, i, Run(ops).subs[i])
      {
        OneIsAsPromised(before, op, i);
      }
    }
  }

  lemma OneIsAsPromised(before: seq<Op>, op: Op, i: nat)
    requires |Run(before).subs| == |Subscribers(before)| && i < |Run(before + [op]).subs|
    requires i < |Run(before).subs| ==> AsPromised(before, i, Run(before).subs[i])
    ensures i < |Subscribers(before + [op])| && AsPromised(before + [op], i, Run(before + [op]).subs[i])
  {
    hide Run;
    hide Subscribers;
    hide AsPromised;
    hide Step;
    RunStep(before, op);
    StepGrows(Run(before), op);
    if i < |Run(before).subs| {
      KeepsPromise(before, op, i, Run(before).subs[i]);
      StepAt(Run(before), op, i);
    } else {
      StartsAsPromised(before, op);
    }
  }

  lemma NextOf(before: seq<Op>, op: Op, i: nat)
    ensures var ops, s := before + [op], Run(before);
      && Subscribers(ops) == Subscribers(before) + (if op.DoSubscribe? && s.flight.Idle? then [op] else [])
      && Since(ops, i) == (if op == DoDrain(i) then [] else Since(before, i) + PushedBy(s, op, i))
      && Pushed(ops, i) == Pushed(before, i) + PushedBy(s, op, i)
      && Begun(ops, i) == Begun(before, i) + BegunBy(s, op, i)
  {
    hide Run;
    assert (before + [op])[..|before|] == before;
  }

  lemma StartsAsPromised(before: seq<Op>, op: Op)
    requires op.DoSubscribe? && Run(before).flight.Idle? && |Run(before).subs| == |Subscribers(before)|
    ensures |Subscribers(before + [op])| == |Subscribers(before)| + 1
    ensures AsPromised(before + [op], |Subscribers(before)|, NewSub(op.name, op.capacity))
  {
    hide Held;
    hide Run;
    hide Subscribers;
    hide Since;
    NextOf(before, op, |Subscribers(before)|);
    NothingSinceNotSubscribed(before, |Run(before).subs|);
    HeldNothing(op.name, AtLeastMinimum(op.capacity));
  }

  lemma HeldNothing(name: string, capacity: nat)
    ensures Held(name, capacity, []) == []
  {
  }

  lemma KeepsPromise(before: seq<Op>, op: Op, i: nat, s: Sub)
    requires i < |Subscribers(before)| && AsPromised(before, i, s)
    ensures i < |Subscribers(before + [op])|
    ensures AsPromised(before + [op], i, AfterStep(s, op, i, PushedBy(Run(before), op, i)))
  {
    hide Held;
    hide Run;
    hide Subscribers;
    hide Since;
    hide PushedBy;
    NextOf(before, op, i);
    OneAtMost(Run(before), op, i);
    QueueNext(s, op, i, Since(before, i), PushedBy(Run(before), op, i));
  }

  lemma OneAtMost(s: Shared, op: Op, i: nat)
    ensures |PushedBy(s, op, i)| <= 1
  {
  }

  lemma QueueNext(s: Sub, op: Op, i: nat, since: seq<Event>, pushed: seq<Event>)
    requires |pushed| <= 1 && s.queue == Held(s.name, s.capacity, since)
    ensures AfterStep(s, op, i, pushed)
      == s.(queue := Held(s.name, s.capacity, if op == DoDrain(i) then [] else since + pushed))
  {
    hide Held;
    hide Last;
    hide Entries;
    HeldNothing(s.name, s.capacity);
    if pushed == [] {
      assert since + pushed == since;
    } else {
      HeldNext(s.name, s.capacity, since, pushed[0]);
      assert pushed == [pushed[0]];
    }
  }
}
