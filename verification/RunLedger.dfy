/** The hash-chained, append-only run ledger: its validator, and a writer whose
    every operation keeps the chain. */
module RunLedger {
  import opened Wrappers
  import opened Seqs

  const U64_MAX: nat := 0xFFFF_FFFF_FFFF_FFFF
  type U64 = x: int | 0 <= x <= U64_MAX witness 0

  /** `Value` is any JSON value; `SnapshotNote` the one a snapshot records. */
  datatype Payload = Value(json: string) | SnapshotNote(path: string, sha256: string, number: U64)

  /** What a caller supplies for an event. */
  datatype Content = Content(runId: string, actor: string, kind: string, payload: Payload, timestampMs: nat)

  /** What the hash covers. */
  datatype HashInput = HashInput(content: Content, number: U64, prevHash: string)

  datatype Event = Event(content: Content, number: U64, prevHash: string, hash: string)

  type Hasher = HashInput -> string

  datatype Cursor = Cursor(number: U64, prevHash: string)

  const ORIGIN := Cursor(0, "")

  function Covered(e: Event): HashInput {
    HashInput(e.content, e.number, e.prevHash)
  }

  /** `saturating_add(1)`. */
  function Next(number: U64): U64 {
    if number < U64_MAX then number + 1 else number
  }

  function SeqAt(i: nat): U64 {
    if i < U64_MAX then i + 1 else U64_MAX
  }

  function PrevHash(events: seq<Event>, i: nat): string
    requires i <= |events|
  {
    if i == 0 then "" else events[i - 1].hash
  }

  ghost predicate LinkOk(h: Hasher, events: seq<Event>, i: nat)
    requires i < |events|
  {
    && events[i].number == SeqAt(i)
    && events[i].prevHash == PrevHash(events, i)
    && events[i].hash == h(Covered(events[i]))
  }

  ghost predicate Chained(h: Hasher, events: seq<Event>) {
    forall i {:trigger LinkOk(h, events, i)} :: 0 <= i < |events| ==> LinkOk(h, events, i)
  }

  function CursorAfter(events: seq<Event>): Cursor {
    if events == [] then ORIGIN else CursorFor(events[|events| - 1])
  }

  function CursorFor(e: Event): Cursor {
    Cursor(e.number, e.hash)
  }

  // --------------------------------------------------------------------------- validation

  datatype Fault = WrongSeq | WrongPrevHash | WrongHash

  datatype Report = Report(count: nat, firstSeq: Option<U64>, lastSeq: Option<U64>, runId: Option<string>,
                           lastHash: Option<string>, kindCounts: map<string, nat>)

  datatype Validation = Valid(report: Report) | Broken(at: nat, fault: Fault)

  function KindCount(events: seq<Event>, kind: string): nat {
    if events == [] then 0
    else KindCount(events[..|events| - 1], kind) + if events[|events| - 1].content.kind == kind then 1 else 0
  }

  ghost predicate CountsKinds(counts: map<string, nat>, events: seq<Event>) {
    forall kind :: (kind in counts <==> KindCount(events, kind) > 0)
      && (kind in counts ==> counts[kind] == KindCount(events, kind))
  }

  ghost predicate Describes(r: Report, events: seq<Event>) {
    && r.count == |events|
    && r.firstSeq == (if events == [] then None else Some(events[0].number))
    && r.runId == (if events == [] then None else Some(events[0].content.runId))
    && r.lastSeq == (if events == [] then None else Some(events[|events| - 1].number))
    && r.lastHash == (if events == [] then None else Some(events[|events| - 1].hash))
    && CountsKinds(r.kindCounts, events)
  }

  /** What is reported of an event whose link is broken. */
  function FirstFault(events: seq<Event>, i: nat): Fault
    requires i < |events|
  {
    if events[i].number != SeqAt(i) then WrongSeq
    else if events[i].prevHash != PrevHash(events, i) then WrongPrevHash
    else WrongHash
  }

  lemma ChainedSnoc(h: Hasher, events: seq<Event>, e: Event)
    ensures Chained(h, events + [e]) <==> Chained(h, events) && LinkOk(h, events + [e], |events|)
  {
    var longer := events + [e];
    forall i | 0 <= i < |events|
      ensures LinkOk(h, longer, i) <==> LinkOk(h, events, i)
    {
    }
    if Chained(h, longer) {
      forall i | 0 <= i < |events|
        ensures LinkOk(h, events, i)
      {
        assert LinkOk(h, longer, i);
      }
    }
  }

  lemma CountSnoc(counts: map<string, nat>, events: seq<Event>, e: Event)
    requires CountsKinds(counts, events)
    ensures var kind := e.content.kind;
      CountsKinds(counts[kind := (if kind in counts then counts[kind] else 0) + 1], events + [e])
  {
    assert (events + [e])[..|events|] == events;
  }

  lemma {:induction false} ChainedPrefix(h: Hasher, events: seq<Event>, n: nat)
    requires n <= |events| && Chained(h, events)
    ensures Chained(h, events[..n])
  {
    forall i | 0 <= i < n
      ensures LinkOk(h, events[..n], i)
    {
      assert LinkOk(h, events, i);
    }
  }

  /** Accepts exactly the chained ledgers, and otherwise names the first bad event. */
  method ValidateHashChain(h: Hasher, events: seq<Event>) returns (v: Validation)
    ensures v.Valid? <==> Chained(h, events)
    ensures v.Valid? ==> Describes(v.report, events)
    ensures v.Broken? ==> v.at < |events| && Chained(h, events[..v.at]) && !LinkOk(h, events, v.at)
    ensures v.Broken? ==> v.fault == FirstFault(events, v.at)
  {
    var expectedSeq: U64, expectedPrev := 1, "";
    var kindCounts: map<string, nat> := map[];
    var firstSeq: Option<U64>, lastSeq: Option<U64> := None, None;
    var runId: Option<string>, lastHash: Option<string> := None, None;
    assert events[..|events|] == events;
    for i := 0 to |events|
      invariant Chained(h, events[..i])
      invariant expectedSeq == SeqAt(i) && expectedPrev == PrevHash(events, i)
      invariant Describes(Report(i, firstSeq, lastSeq, runId, lastHash, kindCounts), events[..i])
    {
      var event := events[i];
      SnocPrefix(events, i);
      ChainedSnoc(h, events[..i], event);
      CountSnoc(kindCounts, events[..i], event);
      assert LinkOk(h, events[..i + 1], i) <==> LinkOk(h, events, i);
      if Chained(h, events) {
        ChainedPrefix(h, events, i + 1);
      }
      if event.number != expectedSeq {
        return Broken(i, WrongSeq);
      }
      if event.prevHash != expectedPrev {
        return Broken(i, WrongPrevHash);
      }
      if event.hash != h(Covered(event)) {
        return Broken(i, WrongHash);
      }
      firstSeq := if firstSeq.None? then Some(event.number) else firstSeq;
      runId := if runId.None? then Some(event.content.runId) else runId;
      lastSeq, lastHash := Some(event.number), Some(event.hash);
      var kind := event.content.kind;
      kindCounts := kindCounts[kind := (if kind in kindCounts then kindCounts[kind] else 0) + 1];
      expectedSeq, expectedPrev := Next(expectedSeq), event.hash;
    }
    return Valid(Report(|events|, firstSeq, lastSeq, runId, lastHash, kindCounts));
  }

  // ------------------------------------------------------------------------------ the writer

  /** The event that carries `content` after `cursor`. */
  function Seal(h: Hasher, cursor: Cursor, content: Content): Event {
    var number := Next(cursor.number);
    Event(content, number, cursor.prevHash, h(HashInput(content, number, cursor.prevHash)))
  }

  function Extend(h: Hasher, events: seq<Event>, content: Content): seq<Event> {
    events + [Seal(h, CursorAfter(events), content)]
  }

  lemma ExtendKeepsChain(h: Hasher, events: seq<Event>, content: Content)
    requires Chained(h, events)
    ensures Chained(h, Extend(h, events, content))
  {
    if events != [] {
      assert LinkOk(h, events, |events| - 1);
    }
    ChainedSnoc(h, events, Seal(h, CursorAfter(events), content));
  }

  /** The file of events and the snapshot files beside it. */
  class Storage {
    var events: seq<Event>
    var snapshots: map<string, string>

    constructor (events: seq<Event>)
      ensures this.events == events && snapshots == map[]
    {
      this.events := events;
      this.snapshots := map[];
    }
  }

  datatype Snapshot = Snapshot(path: string, number: U64, hash: string, sha256: string, timestampMs: nat)

  class Writer {
    const h: Hasher
    const runId: string
    const storage: Storage
    var cursor: Cursor

    ghost predicate Valid()
      reads this, storage
    {
      Chained(h, storage.events) && cursor == CursorAfter(storage.events)
    }

    constructor (h: Hasher, storage: Storage, runId: string, cursor: Cursor)
      ensures this.h == h && this.runId == runId && this.storage == storage && this.cursor == cursor
    {
      this.h := h;
      this.runId := runId;
      this.storage := storage;
      this.cursor := cursor;
    }

    /** Opening succeeds exactly on chained ledgers, whoever wrote them. */
    static method Open(h: Hasher, storage: Storage, runId: string) returns (w: Option<Writer>)
      ensures w.Some? <==> Chained(h, storage.events)
      ensures w.Some? ==> fresh(w.value) && w.value.Valid()
      ensures w.Some? ==> w.value.h == h && w.value.runId == runId && w.value.storage == storage
    {
      var v := ValidateHashChain(h, storage.events);
      if v.Broken? {
        return None;
      }
      var cursor := ORIGIN;
      if v.report.lastSeq.Some? && v.report.lastHash.Some? {
        cursor := Cursor(v.report.lastSeq.value, v.report.lastHash.value);
      }
      var writer := new Writer(h, storage, runId, cursor);
      return Some(writer);
    }

    method WriteLine(event: Event)
      modifies storage`events
      ensures storage.events == old(storage.events) + [event]
    {
      storage.events := storage.events + [event];
    }

    method Append(actor: string, kind: string, payload: Payload, timestampMs: nat) returns (event: Event)
      requires Valid()
      modifies this, storage`events
      ensures Valid()
        && storage.events == Extend(h, old(storage.events), Content(runId, actor, kind, payload, timestampMs))
      ensures storage.events == old(storage.events) + [event]
    {
      var content := Content(runId, actor, kind, payload, timestampMs);
      ExtendKeepsChain(h, storage.events, content);
      var number := Next(cursor.number);
      var hash := h(HashInput(content, number, cursor.prevHash));
      event := Event(content, number, cursor.prevHash, hash);
      WriteLine(event);
      cursor := Cursor(number, hash);
    }

    /** Another ledger's event: its content is kept, its place in the chain is new. */
    method AppendExistingEvent(existing: Event) returns (replayed: Event)
      requires Valid()
      modifies this, storage`events
      ensures Valid() && storage.events == Extend(h, old(storage.events), existing.content)
      ensures storage.events == old(storage.events) + [replayed]
    {
      ExtendKeepsChain(h, storage.events, existing.content);
      var number := Next(cursor.number);
      var hash := h(HashInput(existing.content, number, cursor.prevHash));
      replayed := Event(existing.content, number, cursor.prevHash, hash);
      WriteLine(replayed);
      cursor := Cursor(number, hash);
    }

    method WriteSnapshot(path: string, text: string, digest: string -> string, now: nat) returns (s: Snapshot)
      requires Valid()
      modifies this, storage
      ensures Valid() && storage.snapshots == old(storage.snapshots)[path := text]
      ensures storage.events == Extend(h, old(storage.events),
        Content(runId, "runtime", "snapshot.created", SnapshotNote(path, digest(text), old(cursor.number)), now))
      ensures s == Snapshot(path, cursor.number, cursor.prevHash, digest(text), now)
    {
      storage.snapshots := storage.snapshots[path := text];
      var sha := digest(text);
      var event := Append("runtime", "snapshot.created", SnapshotNote(path, sha, cursor.number), now);
      assert storage.events[|storage.events| - 1] == event;
      return Snapshot(path, event.number, event.hash, sha, now);
    }
  }

  // ---------------------------------------------------------------------- what the chain is for

  ghost predicate Injective(h: Hasher) {
    forall a, b {:trigger h(a), h(b)} :: h(a) == h(b) ==> a == b
  }

  /** The last hash pins the whole ledger: no two chained ledgers share it. */
  lemma {:induction false} LastHashPinsLedger(h: Hasher, a: seq<Event>, b: seq<Event>)
    requires Injective(h) && Chained(h, a) && Chained(h, b) && a != [] && b != []
    requires a[|a| - 1].hash == b[|b| - 1].hash
    ensures a == b
    decreases |a|
  {
    var m, n := |a| - 1, |b| - 1;
    assert LinkOk(h, a, m) && LinkOk(h, b, n);
    assert Covered(a[m]) == Covered(b[n]);
    if m > 0 && n > 0 {
      ChainedPrefix(h, a, m);
      ChainedPrefix(h, b, n);
      LastHashPinsLedger(h, a[..m], b[..n]);
      assert a == a[..m] + [a[m]] && b == b[..n] + [b[n]];
    }
  }

  /** Changing, dropping or adding any event of a ledger whose last hash is known shows up. */
  lemma TamperingShows(h: Hasher, honest: seq<Event>, tampered: seq<Event>)
    requires Injective(h) && Chained(h, honest) && honest != [] && tampered != honest
    ensures !Chained(h, tampered) || CursorAfter(tampered) != CursorAfter(honest)
  {
    assert LinkOk(h, honest, |honest| - 1);
    if tampered != [] && Chained(h, tampered) && CursorAfter(tampered) == CursorAfter(honest) {
      LastHashPinsLedger(h, honest, tampered);
    }
  }

  /** What a run of appends and replays writes, with the writer reopened anywhere between. */
  function Ledger(h: Hasher, contents: seq<Content>): seq<Event> {
    if contents == [] then [] else Extend(h, Ledger(h, contents[..|contents| - 1]), contents[|contents| - 1])
  }

  /** Everything written is there, in order. */
  lemma {:induction false} LedgerHoldsContents(h: Hasher, contents: seq<Content>)
    ensures Chained(h, Ledger(h, contents)) && |Ledger(h, contents)| == |contents|
    ensures forall i :: 0 <= i < |contents| ==> Ledger(h, contents)[i].content == contents[i]
  {
    if contents != [] {
      var n := |contents| - 1;
      LedgerHoldsContents(h, contents[..n]);
      ExtendKeepsChain(h, Ledger(h, contents[..n]), contents[n]);
    }
  }

  function Contents(events: seq<Event>): seq<Content> {
    if events == [] then [] else Contents(events[..|events| - 1]) + [events[|events| - 1].content]
  }

  /** The validator's ledgers are exactly those that a writer's runs produce. */
  lemma {:induction false} ChainedIffWritten(h: Hasher, events: seq<Event>)
    ensures Chained(h, events) <==> events == Ledger(h, Contents(events))
  {
    hide Chained;
    LedgerHoldsContents(h, Contents(events));
    if Chained(h, events) && events != [] {
      var n := |events| - 1;
      ChainedPrefix(h, events, n);
      ChainedIffWritten(h, events[..n]);
      LastIsSealed(h, events);
      assert Contents(events) == Contents(events[..n]) + [events[n].content];
      LedgerSnoc(h, Contents(events[..n]), events[n].content);
    }
  }

  lemma LedgerSnoc(h: Hasher, contents: seq<Content>, content: Content)
    ensures Ledger(h, contents + [content]) == Extend(h, Ledger(h, contents), content)
  {
    assert (contents + [content])[..|contents|] == contents;
  }

  lemma LastIsSealed(h: Hasher, events: seq<Event>)
    requires Chained(h, events) && events != []
    ensures events == Extend(h, events[..|events| - 1], events[|events| - 1].content)
  {
    var n := |events| - 1;
    assert LinkOk(h, events, n);
    assert n > 0 ==> LinkOk(h, events, n - 1);
    assert events == events[..n] + [events[n]];
  }
}
