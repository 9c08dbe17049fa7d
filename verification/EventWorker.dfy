/** The stop-and-drain worker, interleaved with emitters in any order: when it has
    finished, every event sent before the stop was handled or lost to overflow. */
module EventWorker {
  import opened Seqs
  import opened EventFanout
  import opened EventLoss

  /** Where the worker thread stands: about to read the flag, about to take the
      queue (after reading the flag as `stopping`), handling what it took, done. */
  datatype Phase = Checking | Taking(stopping: bool) | Handling(stopping: bool) | Done

  /** `tape` and `popped` record what happened to the queue: all that was ever
      written to it, and which of these entries overflow took. `stopAt` is the
      length of the tape when the stop flag was set. */
  datatype State = State(
    name: string, capacity: nat, queue: seq<Event>,
    stop: bool, phase: Phase, batch: seq<Event>, handled: seq<Event>,
    tape: seq<Event>, popped: seq<bool>, stopAt: nat)

  ghost function Start(name: string, capacity: nat): (s: State)
    ensures Invariant(s)
  {
    State(name, AtLeastMinimum(capacity), [], false, Checking, [], [], [], [], 0)
  }

  datatype Action = Emit(event: Event) | Stop | Work

  /** The popped marks after `n` entries were popped off the queue of length `held`
      and `added` were written: the popped ones are the oldest of those held. */
  function Pop(popped: seq<bool>, held: nat, n: nat, added: nat): seq<bool>
    requires n <= held <= |popped|
  {
    popped[..|popped| - held] + seq(n, _ => true) + popped[|popped| - held + n..] + seq(added, _ => false)
  }

  ghost predicate Sound(s: State) {
    s.capacity >= MIN_CAPACITY && |s.queue| <= s.capacity && |s.queue| <= |s.tape| && |s.popped| == |s.tape|
  }

  /** One atomic step: a push under the queue's lock, setting the flag, or the worker's next step. */
  ghost function Step(s: State, a: Action): State
    requires Sound(s)
  {
    match a
    case Emit(e) =>
      var entries := Entries(s.name, s.capacity, |s.queue|, e);
      var after := Push(Sub(s.name, s.capacity, s.queue), e).queue;
      var lost := |s.queue| + |entries| - |after|;
      s.(queue := after, tape := s.tape + entries, popped := Pop(s.popped, |s.queue|, lost, |entries|))
    case Stop => if s.stop then s else s.(stop := true, stopAt := |s.tape|)
    case Work =>
      match s.phase
      case Checking => s.(phase := Taking(s.stop))
      case Taking(stopping) => s.(phase := Handling(stopping), batch := s.queue, queue := [])
      case Handling(stopping) =>
        if s.batch == [] then s.(phase := if stopping then Done else Checking)
        else s.(handled := s.handled + [s.batch[0]], batch := s.batch[1..])
      case Done => s
  }

  /** The entries without a mark. */
  function Unmarked(tape: seq<Event>, marks: seq<bool>): seq<Event>
    requires |tape| == |marks|
  {
    if tape == [] then []
    else
      var n := |tape| - 1;
      Unmarked(tape[..n], marks[..n]) + if marks[n] then [] else [tape[n]]
  }

  /** How much of the tape has left the queue. */
  function Gone(s: State): int { |s.tape| - |s.queue| }

  ghost predicate Invariant(s: State) {
    && Sound(s)
    && s.queue == s.tape[Gone(s)..]
    && (forall k :: Gone(s) <= k < |s.tape| ==> !s.popped[k])
    && s.handled + s.batch == Unmarked(s.tape[..Gone(s)], s.popped[..Gone(s)])
    && (!s.phase.Handling? ==> s.batch == [])
    && s.stopAt <= |s.tape|
    && (s.phase == Done || (!s.phase.Checking? && s.phase.stopping) ==> s.stop)
    && (s.phase == Done || s.phase == Handling(true) ==> s.stopAt <= Gone(s))
  }

  // ---------------------------------------------------------------------- every step keeps it

  lemma {:induction false} AllMarked(tape: seq<Event>, marks: seq<bool>, more: seq<Event>)
    requires |tape| == |marks|
    ensures Unmarked(tape + more, marks + seq(|more|, _ => true)) == Unmarked(tape, marks)
    decreases |more|
  {
    if more == [] {
      assert tape + more == tape && marks + seq(|more|, _ => true) == marks;
    } else {
      var n := |more| - 1;
      AllMarked(tape, marks, more[..n]);
      assert (tape + more)[..|tape| + n] == tape + more[..n];
      assert (marks + seq(|more|, _ => true))[..|tape| + n] == marks + seq(n, _ => true);
    }
  }

  lemma {:induction false} NoneMarked(tape: seq<Event>, marks: seq<bool>, more: seq<Event>, bare: seq<bool>)
    requires |tape| == |marks| && |more| == |bare| && forall k :: 0 <= k < |bare| ==> !bare[k]
    ensures Unmarked(tape + more, marks + bare) == Unmarked(tape, marks) + more
    decreases |more|
  {
    if more == [] {
      assert tape + more == tape && marks + bare == marks;
    } else {
      var n := |more| - 1;
      NoneMarked(tape, marks, more[..n], bare[..n]);
      assert (tape + more)[..|tape| + n] == tape + more[..n];
      assert (marks + bare)[..|tape| + n] == marks + bare[..n];
      SnocPrefix(more, n);
    }
  }

  /** What an overflow marks. */
  lemma PopMarks(popped: seq<bool>, held: nat, n: nat, added: nat)
    requires n <= held <= |popped|
    requires forall k :: |popped| - held <= k < |popped| ==> !popped[k]
    ensures var after := Pop(popped, held, n, added);
      && |after| == |popped| + added
      && after[..|popped| - held + n] == popped[..|popped| - held] + seq(n, _ => true)
      && forall k :: |popped| - held + n <= k < |after| ==> !after[k]
  {
  }

  lemma EmitKeeps(s: State, e: Event)
    requires Invariant(s)
    ensures Invariant(Step(s, Emit(e)))
  {
    hide Unmarked;
    hide Pop;
    hide Entries;
    hide Last;
    hide Step;
    var entries := Entries(s.name, s.capacity, |s.queue|, e);
    EntriesFit(s.name, s.capacity, |s.queue|, e);
    EmitGives(s, e);
    var lost := if |s.queue| + |entries| <= s.capacity then 0 else |s.queue| + |entries| - s.capacity;
    var gone := |s.tape| - |s.queue|;
    PopMarks(s.popped, |s.queue|, lost, |entries|);
    AllMarked(s.tape[..gone], s.popped[..gone], s.tape[gone..gone + lost]);
    TapeSlides(s.tape, s.queue, entries, gone, lost, s.capacity);
    var t := Step(s, Emit(e));
    assert t.queue == t.tape[gone + lost..] && |t.queue| <= t.capacity && |t.popped| == |t.tape|;
    assert Gone(t) == gone + lost;
    assert t.tape[..gone + lost] == s.tape[..gone] + s.tape[gone..gone + lost];
  }

  lemma EmitGives(s: State, e: Event)
    requires Sound(s)
    ensures var entries := Entries(s.name, s.capacity, |s.queue|, e);
      var after := Last(s.queue + entries, s.capacity);
      var lost := |s.queue| + |entries| - |after|;
      && 0 <= lost <= |s.queue|
      && Step(s, Emit(e))
           == s.(queue := after, tape := s.tape + entries, popped := Pop(s.popped, |s.queue|, lost, |entries|))
  {
    hide Pop;
  }

  lemma EntriesFit(name: string, capacity: nat, held: nat, e: Event)
    requires MIN_CAPACITY <= capacity && held <= capacity
    ensures |Entries(name, capacity, held, e)| <= 2
    ensures held + |Entries(name, capacity, held, e)| - capacity <= held
  {
  }

  lemma TapeSlides(tape: seq<Event>, queue: seq<Event>, entries: seq<Event>, gone: nat, lost: nat, capacity: nat)
    requires gone + |queue| == |tape| && queue == tape[gone..] && lost <= |queue|
    requires lost == if |queue| + |entries| <= capacity then 0 else |queue| + |entries| - capacity
    ensures Last(queue + entries, capacity) == (tape + entries)[gone + lost..]
    ensures |Last(queue + entries, capacity)| == |queue| + |entries| - lost
    ensures (tape + entries)[..gone + lost] == tape[..gone] + tape[gone..gone + lost]
  {
  }

  lemma WorkKeeps(s: State)
    requires Invariant(s)
    ensures Invariant(Step(s, Work))
  {
    hide Unmarked;
    var gone := |s.tape| - |s.queue|;
    match s.phase
    case Taking(_) =>
      NoneMarked(s.tape[..gone], s.popped[..gone], s.tape[gone..], s.popped[gone..]);
      SplitAt(s.tape, gone);
      SplitAt(s.popped, gone);
      assert s.tape[..|s.tape|] == s.tape && s.popped[..|s.tape|] == s.popped;
      assert s.handled + [] == s.handled;
    case Handling(_) =>
      if s.batch != [] {
        HeadTail(s.batch);
        Reassociate(s.handled, [s.batch[0]], s.batch[1..]);
      }
    case _ =>
  }

  lemma StepKeeps(s: State, a: Action)
    requires Invariant(s)
    ensures Invariant(Step(s, a))
  {
    match a
    case Emit(e) => EmitKeeps(s, e);
    case Stop =>
    case Work => WorkKeeps(s);
  }

  ghost predicate Reaches(s: State, actions: seq<Action>, t: State)
    requires Invariant(s)
    decreases |actions|
  {
    if actions == [] then t == s
    else
      StepKeeps(s, actions[0]);
      Reaches(Step(s, actions[0]), actions[1..], t)
  }

  lemma {:induction false} RunsKeep(s: State, actions: seq<Action>, t: State)
    requires Invariant(s) && Reaches(s, actions, t)
    ensures Invariant(t)
    decreases |actions|
  {
    if actions != [] {
      StepKeeps(s, actions[0]);
      RunsKeep(Step(s, actions[0]), actions[1..], t);
    }
  }

  /** A finished worker has handled, in order, everything written up to a point at
      or after the stop, except what overflow had popped. */
  lemma DoneHandledAll(name: string, capacity: nat, actions: seq<Action>, t: State) returns (upTo: nat)
    requires Reaches(Start(name, capacity), actions, t) && t.phase == Done
    ensures t.stop && t.stopAt <= upTo <= |t.tape| == |t.popped|
    ensures t.handled == Unmarked(t.tape[..upTo], t.popped[..upTo])
  {
    RunsKeep(Start(name, capacity), actions, t);
    upTo := |t.tape| - |t.queue|;
    assert t.handled + [] == t.handled;
  }

  /** When overflow popped nothing, nothing written before the stop is missing. */
  lemma DoneWithoutLoss(name: string, capacity: nat, actions: seq<Action>, t: State)
    requires Reaches(Start(name, capacity), actions, t) && t.phase == Done
    requires forall k :: 0 <= k < |t.popped| ==> !t.popped[k]
    ensures t.stopAt <= |t.handled| <= |t.tape| && t.handled == t.tape[..|t.handled|]
  {
    var upTo := DoneHandledAll(name, capacity, actions, t);
    NoneMarked([], [], t.tape[..upTo], t.popped[..upTo]);
    assert [] + t.tape[..upTo] == t.tape[..upTo] && [] + t.popped[..upTo] == t.popped[..upTo];
  }

  // -------------------------------------------------------------------- the counts of a whole run

  function Marked(marks: seq<bool>): nat {
    if marks == [] then 0 else Marked(marks[..|marks| - 1]) + if marks[|marks| - 1] then 1 else 0
  }

  lemma {:induction false} MarkedConcat(a: seq<bool>, b: seq<bool>)
    ensures Marked(a + b) == Marked(a) + Marked(b)
    decreases |b|
  {
    if b == [] {
      assert a + b == a;
    } else {
      var n := |b| - 1;
      assert (a + b)[..|a| + n] == a + b[..n];
      MarkedConcat(a, b[..n]);
    }
  }

  lemma {:induction false} MarkedSame(marks: seq<bool>, mark: bool)
    requires forall k :: 0 <= k < |marks| ==> marks[k] == mark
    ensures Marked(marks) == if mark then |marks| else 0
  {
    if marks != [] {
      MarkedSame(marks[..|marks| - 1], mark);
    }
  }

  /** An overflow adds as many marks as it pops entries. */
  lemma PopCounts(popped: seq<bool>, held: nat, n: nat, added: nat)
    requires n <= held <= |popped|
    requires forall k :: |popped| - held <= k < |popped| ==> !popped[k]
    ensures Marked(Pop(popped, held, n, added)) == Marked(popped) + n
  {
    hide Marked;
    var gone := |popped| - held;
    var front, took, left, later := popped[..gone], seq(n, _ => true), popped[gone + n..], seq(added, _ => false);
    SplitAt(popped, gone);
    MarkedConcat(front, popped[gone..]);
    MarkedSame(popped[gone..], false);
    MarkedConcat(front, took);
    MarkedSame(took, true);
    MarkedConcat(front + took, left);
    assert forall k :: 0 <= k < |left| ==> left[k] == popped[gone + n + k];
    MarkedSame(left, false);
    MarkedConcat(front + took + left, later);
    MarkedSame(later, false);
  }

  /** The counts in the markers written sum to the entries popped. */
  ghost predicate Accounts(s: State) {
    DroppedSum(s.tape) == Marked(s.popped)
  }

  lemma EmitAccounts(s: State, e: Event)
    requires Invariant(s) && Accounts(s) && e.Plain?
    ensures Accounts(Step(s, Emit(e)))
  {
    hide Unmarked;
    hide Pop;
    hide Marked;
    hide DroppedSum;
    hide Step;
    var entries := Entries(s.name, s.capacity, |s.queue|, e);
    EmitGives(s, e);
    EntriesAccount(s.name, s.capacity, |s.queue|, e);
    DroppedConcat(s.tape, entries);
    PopCounts(s.popped, |s.queue|, |s.queue| + |entries| - |Last(s.queue + entries, s.capacity)|, |entries|);
  }

  ghost predicate EmitsPlain(actions: seq<Action>) {
    forall k :: 0 <= k < |actions| ==> actions[k].Emit? ==> actions[k].event.Plain?
  }

  lemma {:induction false} RunsAccount(s: State, actions: seq<Action>, t: State)
    requires Invariant(s) && Accounts(s) && Reaches(s, actions, t) && EmitsPlain(actions)
    ensures Accounts(t)
    decreases |actions|
  {
    hide Unmarked;
    hide Marked;
    hide DroppedSum;
    if actions != [] {
      StepKeeps(s, actions[0]);
      if actions[0].Emit? {
        EmitAccounts(s, actions[0].event);
      }
      RunsAccount(Step(s, actions[0]), actions[1..], t);
    }
  }

  /** When emitters send no markers, then after every run, whatever the worker took
      in between, the counts in the markers written sum to the entries popped. */
  lemma RunMarkersAddUp(name: string, capacity: nat, actions: seq<Action>, t: State)
    requires Reaches(Start(name, capacity), actions, t) && EmitsPlain(actions)
    ensures DroppedSum(t.tape) == Marked(t.popped)
  {
    RunsAccount(Start(name, capacity), actions, t);
  }

  // -------------------------------------------------------------------------------- it finishes

  function Rank(p: Phase): nat {
    match p
    case Taking(stopping) => if stopping then 2 else 5
    case Handling(stopping) => if stopping then 1 else 4
    case Checking => 3
    case Done => 0
  }

  /** How far the worker is from done: phase first, then what is left of the batch. */
  ghost predicate Closer(t: State, s: State) {
    Rank(t.phase) < Rank(s.phase) || (Rank(t.phase) == Rank(s.phase) && |t.batch| < |s.batch|)
  }

  /** Once the flag is set every step of the worker brings it closer to done, and
      nothing anyone else does takes it further away. */
  lemma StopIsHeeded(s: State, a: Action)
    requires Invariant(s) && s.stop && s.phase != Done
    ensures a == Work ==> Closer(Step(s, a), s)
    ensures a != Work ==> Step(s, a).phase == s.phase && Step(s, a).batch == s.batch
    ensures Step(s, a).stop && Step(s, a).stopAt == s.stopAt
  {
  }
}
