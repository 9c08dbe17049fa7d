/** What a subscriber can rely on when it empties its queue: order, an honest
    marker for every loss, exact counts, and how many events survive. */
module EventLoss {
  import opened Seqs
  import opened EventFanout

  /** The events that are not markers. */
  function Reals(s: seq<Event>): seq<Event> {
    if s == [] then []
    else Reals(s[..|s| - 1]) + if s[|s| - 1].Plain? then [s[|s| - 1]] else []
  }

  lemma {:induction false} RealsConcat(a: seq<Event>, b: seq<Event>)
    ensures Reals(a + b) == Reals(a) + Reals(b)
    decreases |b|
  {
    if b == [] {
      assert a + b == a;
    } else {
      var n := |b| - 1;
      assert (a + b)[..|a| + n] == a + b[..n];
      RealsConcat(a, b[..n]);
    }
  }

  ghost predicate Suffix<T>(a: seq<T>, b: seq<T>) {
    |a| <= |b| && a == b[|b| - |a|..]
  }

  ghost predicate NoMarkers(s: seq<Event>) {
    forall i :: 0 <= i < |s| ==> s[i].Plain?
  }

  lemma {:induction false} RealsOfPlain(s: seq<Event>)
    requires NoMarkers(s)
    ensures Reals(s) == s
  {
    if s != [] {
      RealsOfPlain(s[..|s| - 1]);
    }
  }

  lemma RealsOfLast(s: seq<Event>, n: nat)
    ensures Suffix(Reals(Last(s, n)), Reals(s))
  {
    if n < |s| {
      SplitAt(s, |s| - n);
      RealsConcat(s[..|s| - n], s[|s| - n..]);
    }
  }

  lemma RealsOfEntries(name: string, capacity: nat, written: nat, e: Event)
    ensures Reals(Entries(name, capacity, written, e)) == if e.Plain? then [e] else []
  {
    RealsOne(e);
    RealsPair(Backpressure(name, 2, capacity), e);
  }

  lemma RealsOne(e: Event)
    ensures Reals([e]) == if e.Plain? then [e] else []
  {
    assert [e][..0] == [];
  }

  lemma RealsPair(marker: Event, e: Event)
    requires marker.Backpressure?
    ensures Reals([marker, e]) == if e.Plain? then [e] else []
  {
    assert [marker, e] == [marker] + [e];
    RealsOne(marker);
    RealsOne(e);
    RealsConcat([marker], [e]);
  }

  lemma {:induction false} RealsOfTape(name: string, capacity: nat, events: seq<Event>)
    ensures Reals(Tape(name, capacity, events)) == Reals(events)
  {
    if events != [] {
      var n := |events| - 1;
      var before := Tape(name, capacity, events[..n]);
      RealsOfTape(name, capacity, events[..n]);
      RealsOfEntries(name, capacity, |before|, events[n]);
      RealsConcat(before, Entries(name, capacity, |before|, events[n]));
    }
  }

  /** In order and without a hole: the real events held are the newest ones emitted. */
  lemma HeldIsContiguous(name: string, capacity: nat, events: seq<Event>)
    ensures |Held(name, capacity, events)| <= capacity
    ensures Suffix(Reals(Held(name, capacity, events)), Reals(events))
  {
    RealsOfTape(name, capacity, events);
    RealsOfLast(Tape(name, capacity, events), capacity);
  }

  // ---------------------------------------------------------------------------- losses show

  lemma {:induction false} TapeLength(name: string, capacity: nat, events: seq<Event>)
    ensures |Tape(name, capacity, events)| >= |events|
    ensures |events| <= capacity ==> Tape(name, capacity, events) == events
    ensures |events| > capacity ==> |Tape(name, capacity, events)| > capacity
  {
    if events != [] {
      var n := |events| - 1;
      TapeLength(name, capacity, events[..n]);
      SnocPrefix(events, n);
    }
  }

  /** One of the two newest entries is a marker. */
  predicate ShowsLoss(s: seq<Event>) {
    (|s| >= 1 && s[|s| - 1].Backpressure?) || (|s| >= 2 && s[|s| - 2].Backpressure?)
  }

  /** Up to the capacity nothing is lost and nothing is added; beyond it a marker
      is among the two newest entries. */
  lemma LossLeavesMarker(name: string, capacity: nat, events: seq<Event>)
    requires capacity >= MIN_CAPACITY
    ensures |events| <= capacity ==> Held(name, capacity, events) == events
    ensures |events| > capacity ==> ShowsLoss(Held(name, capacity, events))
  {
    TapeLength(name, capacity, events);
    if |events| > capacity {
      var n := |events| - 1;
      TapeLength(name, capacity, events[..n]);
    }
  }

  /** When emitters send no markers themselves, a marker among the held entries
      means a loss and no marker means none. */
  lemma MarkerIffLoss(name: string, capacity: nat, events: seq<Event>)
    requires capacity >= MIN_CAPACITY && NoMarkers(events)
    ensures NoMarkers(Held(name, capacity, events)) <==> Reals(Held(name, capacity, events)) == Reals(events)
  {
    LossLeavesMarker(name, capacity, events);
    RealsOfPlain(events);
    if |events| > capacity {
      var held := Held(name, capacity, events);
      KeptCount(name, capacity, events);
      assert |events| > KeptOf(|events|, capacity);
      if held[|held| - 1].Backpressure? {
      } else {
        assert held[|held| - 2].Backpressure?;
      }
    }
  }

  // ------------------------------------------------------------------------- the counts are right

  function DroppedSum(s: seq<Event>): nat {
    if s == [] then 0
    else DroppedSum(s[..|s| - 1]) + if s[|s| - 1].Backpressure? then s[|s| - 1].dropped else 0
  }

  lemma {:induction false} DroppedConcat(a: seq<Event>, b: seq<Event>)
    ensures DroppedSum(a + b) == DroppedSum(a) + DroppedSum(b)
    decreases |b|
  {
    if b == [] {
      assert a + b == a;
    } else {
      var n := |b| - 1;
      assert (a + b)[..|a| + n] == a + b[..n];
      DroppedConcat(a, b[..n]);
    }
  }

  lemma EntriesAccount(name: string, capacity: nat, written: nat, e: Event)
    requires e.Plain?
    ensures DroppedSum(Entries(name, capacity, written, e)) == if written < capacity then 0 else 2
  {
    var marker := Backpressure(name, 2, capacity);
    assert [e][..0] == [] && [marker][..0] == [];
    assert DroppedSum([e]) == 0 && DroppedSum([marker]) == 2;
    assert [marker, e] == [marker] + [e];
    DroppedConcat([marker], [e]);
  }

  /** The markers written add up to the entries popped: those on the tape that the
      queue no longer holds. */
  lemma {:induction false} MarkersAddUp(name: string, capacity: nat, events: seq<Event>)
    requires NoMarkers(events)
    ensures DroppedSum(Tape(name, capacity, events)) == |Tape(name, capacity, events)| - |Held(name, capacity, events)|
  {
    if events != [] {
      var n := |events| - 1;
      var before := Tape(name, capacity, events[..n]);
      MarkersAddUp(name, capacity, events[..n]);
      EntriesAccount(name, capacity, |before|, events[n]);
      DroppedConcat(before, Entries(name, capacity, |before|, events[n]));
    }
  }

  // ------------------------------------------------------------------------------ what survives

  /** How many of `n` events survive: all up to the capacity; beyond it each new
      event costs one more, until markers take every other entry. */
  function KeptOf(n: nat, capacity: nat): nat {
    if n <= capacity then n
    else if n - capacity <= capacity / 2 then 2 * capacity - n
    else (capacity + 1) / 2
  }

  /** Of the last `m` tape entries, how many are real. */
  function RealsAmong(n: nat, capacity: nat, m: nat): nat {
    if n <= capacity then m
    else if m <= 2 * (n - capacity) then (m + 1) / 2
    else m - (n - capacity)
  }

  lemma LastMore<T>(s: seq<T>, more: seq<T>, m: nat)
    requires |more| <= m
    ensures Last(s + more, m) == Last(s, m - |more|) + more
  {
  }

  lemma TapeGrowsByTwo(name: string, capacity: nat, events: seq<Event>, e: Event)
    requires |events| >= capacity && e.Plain?
    ensures Tape(name, capacity, events + [e]) == Tape(name, capacity, events) + [Backpressure(name, 2, capacity), e]
  {
    TapeLength(name, capacity, events);
    assert (events + [e])[..|events|] == events;
  }

  lemma RealsNearStart(name: string, capacity: nat, events: seq<Event>, m: nat)
    requires NoMarkers(events) && |events| <= capacity && m <= |events|
    ensures Tape(name, capacity, events) == events
    ensures Reals(Last(Tape(name, capacity, events), m)) == Last(events, m)
  {
    TapeLength(name, capacity, events);
    RealsOfPlain(Last(events, m));
  }

  lemma {:induction false} RealsNearEnd(name: string, capacity: nat, events: seq<Event>, m: nat)
    requires NoMarkers(events) && m <= |Tape(name, capacity, events)|
    ensures |Tape(name, capacity, events)| == if |events| <= capacity then |events| else 2 * |events| - capacity
    ensures Reals(Last(Tape(name, capacity, events), m)) == Last(events, RealsAmong(|events|, capacity, m))
    decreases |events|
  {
    hide Tape;
    hide Reals;
    hide Last;
    TapeLength(name, capacity, events);
    if |events| <= capacity {
      RealsNearStart(name, capacity, events, m);
    } else {
      var n, e := |events| - 1, events[|events| - 1];
      var older := events[..n];
      assert events == older + [e];
      TapeGrowsByTwo(name, capacity, older, e);
      RealsNearEnd(name, capacity, older, if m < 2 then 0 else m - 2);
      NewestReals(Tape(name, capacity, older), [Backpressure(name, 2, capacity), e], m);
      NewestAmong(older, e, capacity, m);
    }
  }

  lemma NewestAmong(events: seq<Event>, e: Event, capacity: nat, m: nat)
    requires |events| >= capacity && m <= 2 * |events| - capacity + 2
    ensures Last(events + [e], RealsAmong(|events| + 1, capacity, m)) == if m == 0 then [] else if m == 1 then [e]
      else Last(events, RealsAmong(|events|, capacity, m - 2)) + [e]
  {
    hide Last;
    AmongNext(|events|, capacity, m);
    if m >= 2 {
      LastSnoc(events, e, RealsAmong(|events|, capacity, m - 2));
    } else {
      LastFew(events, e);
    }
  }

  lemma AmongNext(n: nat, capacity: nat, m: nat)
    requires n >= capacity && m <= 2 * n - capacity + 2
    ensures RealsAmong(n + 1, capacity, m)
      == if m == 0 then 0 else if m == 1 then 1 else RealsAmong(n, capacity, m - 2) + 1
  {
  }

  lemma LastFew(s: seq<Event>, e: Event)
    ensures Last(s + [e], 0) == [] && Last(s + [e], 1) == [e]
  {
  }

  lemma LastSnoc<T>(s: seq<T>, e: T, n: nat)
    ensures Last(s, n) + [e] == Last(s + [e], n + 1)
  {
  }

  lemma NewestReals(before: seq<Event>, added: seq<Event>, m: nat)
    requires |added| == 2 && added[0].Backpressure? && added[1].Plain? && m <= |before| + 2
    ensures Reals(Last(before + added, m))
      == if m == 0 then [] else if m == 1 then [added[1]] else Reals(Last(before, m - 2)) + [added[1]]
  {
    if m >= 2 {
      LastMore(before, added, m);
      RealsConcat(Last(before, m - 2), added);
      assert added == [added[0], added[1]];
      RealsPair(added[0], added[1]);
    } else if m == 1 {
      assert Last(before + added, 1) == [added[1]];
      RealsOne(added[1]);
    }
  }

  /** Exactly the newest `KeptOf` events survive; never less than half the capacity. */
  lemma KeptCount(name: string, capacity: nat, events: seq<Event>)
    requires capacity >= MIN_CAPACITY && NoMarkers(events)
    ensures Reals(Held(name, capacity, events)) == Last(events, KeptOf(|events|, capacity))
    ensures KeptOf(|events|, capacity) >= if |events| <= capacity then |events| else (capacity + 1) / 2
    ensures |events| > capacity ==> KeptOf(|events|, capacity) < |events|
  {
    TapeLength(name, capacity, events);
    var m := if |events| <= capacity then |events| else capacity;
    RealsNearEnd(name, capacity, events, m);
    KeptIsAmong(|events|, capacity);
  }

  lemma KeptIsAmong(n: nat, capacity: nat)
    ensures KeptOf(n, capacity) == RealsAmong(n, capacity, if n <= capacity then n else capacity)
  {
  }

  // ------------------------------------------------------------------ in any run of the fan-out

  /** What a subscriber gets when it drains at any point of any run. */
  lemma DrainGetsNewest(ops: seq<Op>, i: nat)
    requires i < |Run(ops).subs| && NoMarkers(Since(ops, i))
    ensures var got := Run(ops).subs[i].queue;
      var since, capacity := Since(ops, i), Run(ops).subs[i].capacity;
      && |got| <= capacity
      && Reals(got) == Last(since, KeptOf(|since|, capacity))
      && (NoMarkers(got) <==> |since| <= capacity)
      && (|since| > capacity ==> ShowsLoss(got))
  {
    hide Run;
    hide Since;
    hide Subscribers;
    QueuesAreTapeEnds(ops);
    var s := Run(ops).subs[i];
    assert AsPromised(ops, i, s);
    HeldGets(s.name, s.capacity, Since(ops, i));
  }

  lemma HeldGets(name: string, capacity: nat, since: seq<Event>)
    requires capacity >= MIN_CAPACITY && NoMarkers(since)
    ensures var got := Held(name, capacity, since);
      && |got| <= capacity
      && Reals(got) == Last(since, KeptOf(|since|, capacity))
      && (NoMarkers(got) <==> |since| <= capacity)
      && (|since| > capacity ==> ShowsLoss(got))
  {
    hide Held;
    hide Reals;
    hide KeptOf;
    LossLeavesMarker(name, capacity, since);
    KeptCount(name, capacity, since);
    HeldIsContiguous(name, capacity, since);
    var got := Held(name, capacity, since);
    if |since| > capacity {
      assert got[|got| - 1].Backpressure? || got[|got| - 2].Backpressure?;
    }
  }

  /** The same for emitters that send markers of their own. */
  lemma DrainIsContiguous(ops: seq<Op>, i: nat)
    requires i < |Run(ops).subs|
    ensures var got := Run(ops).subs[i].queue;
      && |got| <= Run(ops).subs[i].capacity
      && Suffix(Reals(got), Reals(Since(ops, i)))
      && (got != Since(ops, i) ==> ShowsLoss(got))
  {
    hide Run;
    hide Since;
    hide Subscribers;
    hide Held;
    hide Reals;
    QueuesAreTapeEnds(ops);
    var s := Run(ops).subs[i];
    assert AsPromised(ops, i, s);
    HeldIsContiguous(s.name, s.capacity, Since(ops, i));
    LossLeavesMarker(s.name, s.capacity, Since(ops, i));
  }

  // ------------------------------------------------------------------------ what a marker says

  /** A marker that nobody emitted names the subscriber, its capacity and two lost entries. */
  lemma {:induction false} MarkersTell(name: string, capacity: nat, events: seq<Event>)
    ensures forall e :: e in Tape(name, capacity, events) ==> e in events || e == Backpressure(name, 2, capacity)
    ensures forall e :: e in Held(name, capacity, events) ==> e in events || e == Backpressure(name, 2, capacity)
  {
    if events != [] {
      var n := |events| - 1;
      MarkersTell(name, capacity, events[..n]);
      var tape := Tape(name, capacity, events[..n]);
      assert Tape(name, capacity, events) == tape + Entries(name, capacity, |tape|, events[n]);
    }
    LastIsAmong(Tape(name, capacity, events), capacity);
  }

  lemma LastIsAmong(s: seq<Event>, n: nat)
    ensures forall e :: e in Last(s, n) ==> e in s
  {
  }
}
