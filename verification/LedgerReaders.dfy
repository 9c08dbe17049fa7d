/** Resumable readers of the run ledger beside its single writer: each reads every
    event exactly once and in order, whatever the interleaving. */
module LedgerReaders {
  import opened Seqs
  import opened RunLedger

  datatype ReadResult = Read(events: seq<Event>, next: Cursor) | Refused

  /** The index of the first event numbered `number`, or the length. */
  function FindNumber(events: seq<Event>, number: U64): (i: nat)
    ensures i <= |events| && (i < |events| ==> events[i].number == number)
  {
    if events == [] || events[0].number == number then 0 else 1 + FindNumber(events[1..], number)
  }

  /** The first `limit` events numbered above `after`. */
  function Above(events: seq<Event>, after: U64, limit: nat): seq<Event> {
    if events == [] || limit == 0 then []
    else if events[0].number > after then [events[0]] + Above(events[1..], after, limit - 1)
    else Above(events[1..], after, limit)
  }

  lemma {:induction false} FindNumberIsFirst(events: seq<Event>, number: U64)
    ensures forall j :: 0 <= j < FindNumber(events, number) ==> events[j].number != number
  {
    if events != [] && events[0].number != number {
      FindNumberIsFirst(events[1..], number);
      assert forall j :: 1 <= j < |events| ==> events[j] == events[1..][j - 1];
    }
  }

  /** Event `i` is the first with the cursor's number, and has its hash. */
  ghost predicate StandsFor(events: seq<Event>, i: nat, after: Cursor) {
    && i < |events| && events[i].number == after.number && events[i].hash == after.prevHash
    && forall j :: 0 <= j < i ==> events[j].number != after.number
  }

  /** A read is answered exactly if the ledger is chained and the cursor is the default
      one or stands for an event. */
  lemma ReadsIff(h: Hasher, seen: seq<Event>, events: seq<Event>, after: Cursor, limit: nat)
    ensures ReadSpec(h, seen, events, after, limit).Read? <==>
      Chained(h, seen) && (after.number > 0 ==> exists i :: StandsFor(events, i, after))
  {
    hide FindNumber;
    hide Above;
    hide Chained;
    FindNumberIsFirst(events, after.number);
    var i := FindNumber(events, after.number);
    if i < |events| && events[i].hash == after.prevHash {
      assert StandsFor(events, i, after);
    }
    if j: nat :| StandsFor(events, j, after) {
      assert j >= |events| || i <= j;
    }
  }

  predicate CursorKnown(events: seq<Event>, after: Cursor) {
    after.number > 0 ==>
      var i := FindNumber(events, after.number);
      i < |events| && events[i].hash == after.prevHash
  }

  function NextCursor(read: seq<Event>, after: Cursor): Cursor {
    if read == [] then after else CursorFor(read[|read| - 1])
  }

  /** A read validates the file as `seen` and then reads it again: by then it may have grown to `events`. */
  ghost function ReadSpec(h: Hasher, seen: seq<Event>, events: seq<Event>, after: Cursor, limit: nat): ReadResult {
    if !Chained(h, seen) || !CursorKnown(events, after) then Refused
    else Read(Above(events, after.number, limit), NextCursor(Above(events, after.number, limit), after))
  }

  method ReadFrom(h: Hasher, seen: seq<Event>, events: seq<Event>, after: Cursor, limit: nat) returns (r: ReadResult)
    ensures r == ReadSpec(h, seen, events, after, limit)
    ensures r.Read? <==> Chained(h, seen) && (after.number > 0 ==> exists i :: StandsFor(events, i, after))
  {
    hide StandsFor;
    hide Chained;
    hide FindNumber;
    hide Above;
    ReadsIff(h, seen, events, after, limit);
    var v := ValidateHashChain(h, seen);
    if v.Broken? {
      return Refused;
    }
    if after.number > 0 {
      var i := FindNumber(events, after.number);
      if i == |events| || events[i].hash != after.prevHash {
        return Refused;
      }
    }
    var read, next := ReadAbove(events, after, limit);
    return Read(read, next);
  }

  /** The loop over the events: those above the cursor's number, as many as the limit allows. */
  method ReadAbove(events: seq<Event>, after: Cursor, limit: nat) returns (read: seq<Event>, next: Cursor)
    ensures read == Above(events, after.number, limit) && next == NextCursor(read, after)
  {
    hide Above;
    read, next := [], after;
    assert events[0..] == events && [] + Above(events, after.number, limit) == Above(events, after.number, limit);
    for i := 0 to |events|
      invariant |read| <= limit && next == NextCursor(read, after)
      invariant read + Above(events[i..], after.number, limit - |read|) == Above(events, after.number, limit)
    {
      if |read| >= limit {
        NothingAbove(events[i..], after.number, 0);
        assert read + [] == read;
        return;
      }
      var event := events[i];
      assert events[i..][0] == event && events[i..][1..] == events[i + 1..];
      FirstAbove(events[i..], after.number, limit - |read|);
      if event.number > after.number {
        Reassociate(read, [event], Above(events[i + 1..], after.number, limit - |read| - 1));
        read := read + [event];
        next := CursorFor(event);
      }
    }
    NothingAbove(events[|events|..], after.number, limit - |read|);
    assert read + [] == read;
  }

  // -------------------------------------------------------------- what a read is, by position

  /** The cursor of a reader that has read the first `p` events. */
  function CursorAt(events: seq<Event>, p: nat): Cursor
    requires p <= |events|
  {
    CursorAfter(events[..p])
  }

  function Upto(p: nat, limit: nat, n: nat): nat {
    if p + limit < n then p + limit else n
  }

  /** Events numbered from `first` on, without saturation. */
  ghost predicate NumberedFrom(events: seq<Event>, first: nat) {
    forall i :: 0 <= i < |events| ==> events[i].number == first + i
  }

  lemma {:induction false} FindNumbered(events: seq<Event>, first: nat, number: U64)
    requires NumberedFrom(events, first) && first <= number < first + |events|
    ensures FindNumber(events, number) == number - first
  {
    if first < number {
      assert forall i :: 0 <= i < |events[1..]| ==> events[1..][i] == events[i + 1];
      FindNumbered(events[1..], first + 1, number);
    }
  }

  lemma {:induction false} AllAbove(events: seq<Event>, first: nat, after: U64, limit: nat)
    requires NumberedFrom(events, first) && after < first
    ensures Above(events, after, limit) == events[..Upto(0, limit, |events|)]
    decreases |events|
  {
    if events == [] || limit == 0 {
      NothingAbove(events, after, limit);
    } else {
      hide Above;
      FirstAbove(events, after, limit);
      assert events[0].number == first;
      TailNumbered(events, first);
      AllAbove(events[1..], first + 1, after, limit - 1);
      FrontOfTail(events, Upto(0, limit, |events|));
    }
  }

  lemma {:induction false} AboveNumbered(events: seq<Event>, first: nat, after: U64, limit: nat)
    requires NumberedFrom(events, first)
    ensures var p := if after < first then 0 else if after - first + 1 < |events| then after - first + 1 else |events|;
      Above(events, after, limit) == events[p..Upto(p, limit, |events|)]
    decreases |events|
  {
    if events == [] || limit == 0 {
      NothingAbove(events, after, limit);
    } else {
      hide Above;
      hide NumberedFrom;
      if after < first {
        AllAbove(events, first, after, limit);
      } else {
        FirstAbove(events, after, limit);
        TailNumbered(events, first);
        AboveNumbered(events[1..], first + 1, after, limit);
        var n := |events|;
        var p := if after - first + 1 < n then after - first + 1 else n;
        SliceOfTail(events, p, Upto(p, limit, n));
      }
    }
  }

  lemma TailNumbered(events: seq<Event>, first: nat)
    requires NumberedFrom(events, first) && events != []
    ensures events[0].number == first && NumberedFrom(events[1..], first + 1)
  {
    assert forall i :: 0 <= i < |events[1..]| ==> events[1..][i] == events[i + 1];
  }

  lemma NothingAbove(events: seq<Event>, after: U64, limit: nat)
    requires events == [] || limit == 0
    ensures Above(events, after, limit) == []
  {
  }

  lemma FirstAbove(events: seq<Event>, after: U64, limit: nat)
    requires events != [] && limit > 0
    ensures Above(events, after, limit) ==
      if events[0].number > after then [events[0]] + Above(events[1..], after, limit - 1)
      else Above(events[1..], after, limit)
  {
  }

  lemma FrontOfTail<T>(s: seq<T>, q: nat)
    requires 1 <= q <= |s|
    ensures s[..q] == [s[0]] + s[1..][..q - 1]
  {
    var a, b := s[..q], [s[0]] + s[1..][..q - 1];
    assert |a| == |b|;
    forall i | 0 <= i < |a|
      ensures a[i] == b[i]
    {
      assert a[i] == s[i];
    }
  }

  lemma SliceOfTail<T>(s: seq<T>, p: nat, q: nat)
    requires 1 <= p <= q <= |s|
    ensures s[p..q] == s[1..][p - 1..q - 1]
  {
    var a, b := s[p..q], s[1..][p - 1..q - 1];
    assert |a| == |b|;
    forall i | 0 <= i < |a|
      ensures a[i] == b[i]
    {
      assert a[i] == s[p + i];
    }
  }

  lemma ChainedIsNumbered(h: Hasher, events: seq<Event>)
    requires Chained(h, events) && |events| <= U64_MAX
    ensures NumberedFrom(events, 1)
  {
    forall i | 0 <= i < |events|
      ensures events[i].number == 1 + i
    {
      assert LinkOk(h, events, i);
    }
  }

  /** Reading from position `p` gives the next events and the cursor after them. */
  lemma ReadGivesNext(h: Hasher, seen: seq<Event>, events: seq<Event>, p: nat, limit: nat)
    requires Chained(h, seen) && Chained(h, events) && |events| <= U64_MAX && p <= |events|
    ensures var q := Upto(p, limit, |events|);
      ReadSpec(h, seen, events, CursorAt(events, p), limit) == Read(events[p..q], CursorAt(events, q))
  {
    hide Above;
    hide FindNumber;
    hide Chained;
    ChainedIsNumbered(h, events);
    var q := Upto(p, limit, |events|);
    AboveNumbered(events, 1, p, limit);
    if p == 0 {
      assert CursorAt(events, p) == ORIGIN;
    } else {
      assert CursorAt(events, p) == CursorFor(events[p - 1]);
      assert events[p - 1].number == p;
      FindNumbered(events, 1, p);
    }
    if q > p {
      assert events[p..q][q - p - 1] == events[q - 1] == events[..q][q - 1];
    } else {
      assert events[..q] == events[..p];
    }
  }

  /** A cursor taken from one ledger is refused by every other chained ledger that
      differs from it at or before the cursor's event. */
  lemma ForeignCursorIsRefused(h: Hasher, mine: seq<Event>, p: nat, seen: seq<Event>, events: seq<Event>, limit: nat)
    requires Injective(h) && Chained(h, mine) && Chained(h, events) && 0 < p <= |mine|
    requires p > |events| || mine[..p] != events[..p]
    ensures ReadSpec(h, seen, events, CursorAt(mine, p), limit) == Refused
  {
    hide Above;
    hide FindNumber;
    var after := CursorAt(mine, p);
    assert after == CursorFor(mine[p - 1]) && LinkOk(h, mine, p - 1);
    ReadsIff(h, seen, events, after, limit);
    if i: nat :| StandsFor(events, i, after) {
      ChainedPrefix(h, mine, p);
      ChainedPrefix(h, events, i + 1);
      LastHashPinsLedger(h, mine[..p], events[..i + 1]);
      assert |mine[..p]| == |events[..i + 1]|;
    }
  }

  /** For instance a single event numbered 7, and a cursor into an empty ledger. */
  lemma ForgedIsRefused(h: Hasher, content: Content, hash: string)
    ensures ReadSpec(h, [Event(content, 7, "", hash)], [Event(content, 7, "", hash)], ORIGIN, 1) == Refused
    ensures ReadSpec(h, [], [], Cursor(3, hash), 1) == Refused
  {
    var events := [Event(content, 7, "", hash)];
    assert !LinkOk(h, events, 0);
  }

  /** Past the largest number a reader is stuck: its number is not above itself. */
  lemma {:induction false} NothingAboveLargest(events: seq<Event>, limit: nat)
    ensures Above(events, U64_MAX, limit) == []
    decreases |events|
  {
    if events != [] && limit > 0 {
      NothingAboveLargest(events[1..], limit);
    }
  }

  lemma StuckAtLargest(h: Hasher, events: seq<Event>)
    requires Chained(h, events) && |events| > U64_MAX
    ensures ReadSpec(h, events, events, CursorAt(events, U64_MAX), 1) == Read([], CursorAt(events, U64_MAX))
  {
    var p := U64_MAX;
    assert CursorAt(events, p) == CursorFor(events[p - 1]);
    assert LinkOk(h, events, p - 1);
    ChainedPrefix(h, events, p);
    ChainedIsNumbered(h, events[..p]);
    assert forall i :: 0 <= i < p ==> events[..p][i] == events[i];
    FirstNumbered(events, 1, p);
    NothingAboveLargest(events, 1);
  }

  lemma {:induction false} FirstNumbered(events: seq<Event>, first: nat, number: U64)
    requires first <= number && number - first < |events|
    requires forall i :: 0 <= i <= number - first ==> events[i].number == first + i
    ensures FindNumber(events, number) == number - first
    decreases |events|
  {
    if first < number {
      assert events[0].number == first;
      assert forall i :: 0 <= i < |events[1..]| ==> events[1..][i] == events[i + 1];
      FirstNumbered(events[1..], first + 1, number);
    }
  }

  ghost predicate ReadsOn(h: Hasher, events: seq<Event>, p: nat) {
    p < |events| ==> ReadSpec(h, events, events, CursorAt(events, p), 1) == Read([events[p]], CursorAt(events, p + 1))
  }

  /** Every reader can read on from wherever it is exactly when no number is used twice. */
  lemma ReadsOnIffNumbersLast(h: Hasher, events: seq<Event>)
    requires Chained(h, events)
    ensures (forall p :: 0 <= p < |events| ==> ReadsOn(h, events, p)) <==> |events| <= U64_MAX
  {
    if |events| <= U64_MAX {
      forall p | 0 <= p < |events|
        ensures ReadsOn(h, events, p)
      {
        ReadGivesNext(h, events, events, p, 1);
        assert events[p..p + 1] == [events[p]];
      }
    } else {
      StuckAtLargest(h, events);
      assert !ReadsOn(h, events, U64_MAX);
    }
  }

  // ----------------------------------------------------- one writer and any number of readers

  datatype Reader = Reader(cursor: Cursor, consumed: seq<Event>)

  datatype State = State(events: seq<Event>, readers: seq<Reader>)

  const EMPTY := State([], [])

  /** In `Fetch` the validation saw the ledger as it was `behind` events ago. */
  datatype Action = Write(content: Content) | Join | Fetch(reader: nat, limit: nat, behind: nat)

  function Earlier(events: seq<Event>, behind: nat): seq<Event> {
    if behind <= |events| then events[..|events| - behind] else []
  }

  ghost function Step(h: Hasher, s: State, a: Action): State {
    match a
    case Write(content) => s.(events := Extend(h, s.events, content))
    case Join => s.(readers := s.readers + [Reader(ORIGIN, [])])
    case Fetch(i, limit, behind) =>
      if i >= |s.readers| then s
      else
        match ReadSpec(h, Earlier(s.events, behind), s.events, s.readers[i].cursor, limit)
        case Refused => s
        case Read(events, next) => s.(readers := s.readers[i := Reader(next, s.readers[i].consumed + events)])
  }

  ghost function Run(h: Hasher, actions: seq<Action>): State {
    if actions == [] then EMPTY else Step(h, Run(h, actions[..|actions| - 1]), actions[|actions| - 1])
  }

  /** The reader has consumed a prefix of the ledger and its cursor says which. */
  ghost predicate InStep(events: seq<Event>, r: Reader) {
    && |r.consumed| <= |events|
    && r.consumed == events[..|r.consumed|]
    && r.cursor == CursorAfter(r.consumed)
  }

  ghost predicate AllInStep(s: State) {
    forall i :: 0 <= i < |s.readers| ==> InStep(s.events, s.readers[i])
  }

  lemma InStepAfterWrite(h: Hasher, events: seq<Event>, content: Content, r: Reader)
    requires InStep(events, r)
    ensures InStep(Extend(h, events, content), r)
  {
  }

  /** A reader in step is never refused, and a read moves it on by the next events. */
  lemma FetchMovesOn(h: Hasher, events: seq<Event>, behind: nat, r: Reader, limit: nat)
    returns (read: seq<Event>, next: Cursor)
    requires Chained(h, events) && |events| <= U64_MAX && InStep(events, r)
    ensures ReadSpec(h, Earlier(events, behind), events, r.cursor, limit) == Read(read, next)
    ensures InStep(events, Reader(next, r.consumed + read))
    ensures |r.consumed + read| == Upto(|r.consumed|, limit, |events|)
  {
    var p, seen := |r.consumed|, Earlier(events, behind);
    if behind <= |events| {
      ChainedPrefix(h, events, |events| - behind);
    }
    var q := Upto(p, limit, |events|);
    ReadGivesNext(h, seen, events, p, limit);
    read, next := events[p..q], CursorAt(events, q);
    assert events[..p] + events[p..q] == events[..q];
  }

  lemma {:induction false} StepKeeps(h: Hasher, s: State, a: Action)
    requires Chained(h, s.events) && |s.events| <= U64_MAX && AllInStep(s)
    ensures Chained(h, Step(h, s, a).events) && AllInStep(Step(h, s, a))
  {
    hide InStep;
    match a
    case Write(content) =>
      ExtendKeepsChain(h, s.events, content);
      forall i | 0 <= i < |s.readers|
        ensures InStep(Extend(h, s.events, content), s.readers[i])
      {
        InStepAfterWrite(h, s.events, content, s.readers[i]);
      }
    case Join =>
      JustJoined(s.events);
    case Fetch(i, limit, behind) =>
      if i < |s.readers| {
        var read, next := FetchMovesOn(h, s.events, behind, s.readers[i], limit);
      }
  }

  lemma JustJoined(events: seq<Event>)
    ensures InStep(events, Reader(ORIGIN, []))
  {
  }

  lemma {:induction false} LedgerGrows(h: Hasher, actions: seq<Action>, n: nat)
    requires n <= |actions|
    ensures Run(h, actions[..n]).events <= Run(h, actions).events
    decreases |actions|
  {
    if n < |actions| {
      var before := actions[..|actions| - 1];
      LedgerGrows(h, before, n);
      assert before[..n] == actions[..n];
    } else {
      assert actions[..n] == actions;
    }
  }

  /** In every interleaving what a reader has consumed is a prefix of the ledger,
      with no event missing and none twice, and its cursor stays good. */
  lemma {:induction false} ReadersStayInStep(h: Hasher, actions: seq<Action>)
    requires |Run(h, actions).events| <= U64_MAX
    ensures Chained(h, Run(h, actions).events) && AllInStep(Run(h, actions))
  {
    hide Step;
    hide InStep;
    if actions != [] {
      var before := actions[..|actions| - 1];
      LedgerGrows(h, actions, |before|);
      ReadersStayInStep(h, before);
      StepKeeps(h, Run(h, before), actions[|actions| - 1]);
    }
  }

  // ------------------------------------------------------------------------ reading to the end

  /** `times` reads, one after another. */
  ghost function Fetches(h: Hasher, s: State, i: nat, limit: nat, times: nat): State
    decreases times
  {
    if times == 0 then s else Fetches(h, Step(h, s, Fetch(i, limit, 0)), i, limit, times - 1)
  }

  /** Enough reads, each of at least one event, bring any reader of any run to the end. */
  lemma {:induction false} ReadersCatchUp(h: Hasher, s: State, i: nat, limit: nat, times: nat)
    requires Chained(h, s.events) && |s.events| <= U64_MAX && AllInStep(s)
    requires i < |s.readers| && limit >= 1 && times >= |s.events| - |s.readers[i].consumed|
    ensures var t := Fetches(h, s, i, limit, times);
      t.events == s.events && |t.readers| == |s.readers| && t.readers[i].consumed == s.events
    decreases times
  {
    assert InStep(s.events, s.readers[i]);
    if times == 0 {
      assert s.events[..|s.events|] == s.events;
    } else {
      StepKeeps(h, s, Fetch(i, limit, 0));
      var read, next := FetchMovesOn(h, s.events, 0, s.readers[i], limit);
      ReadersCatchUp(h, Step(h, s, Fetch(i, limit, 0)), i, limit, times - 1);
    }
  }
}
