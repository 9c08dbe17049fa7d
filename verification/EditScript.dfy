/** Line-level edit scripts, and what applying hunks has to do with them. */
module EditScript {
  import opened Seqs
  import opened HunkApplier

  /** `Keep` and `Drop` take a line of the old file, which the hunk may show with
      another line ending; `Insert` adds a line. */
  datatype Op = Keep(line: string, shown: string) | Drop(line: string, shown: string) | Insert(text: string)

  /** Untouched lines, then one hunk's operations. */
  datatype Change = Change(gap: seq<string>, ops: seq<Op>)

  datatype Script = Script(changes: seq<Change>, tail: seq<string>)

  /** The old line an operation takes, and the new line it gives. */
  function OldOf(op: Op): seq<string> {
    match op
    case Keep(line, _) => [line]
    case Drop(line, _) => [line]
    case Insert(_) => []
  }

  function NewOf(op: Op): seq<string> {
    match op
    case Keep(line, _) => [line]
    case Drop(_, _) => []
    case Insert(text) => [WithNewline(text)]
  }

  function OldOps(ops: seq<Op>): seq<string> {
    if ops == [] then []
    else OldOf(ops[0]) + OldOps(ops[1..])
  }

  function NewOps(ops: seq<Op>): seq<string> {
    if ops == [] then []
    else NewOf(ops[0]) + NewOps(ops[1..])
  }

  function OldChanges(changes: seq<Change>): seq<string> {
    if changes == [] then [] else changes[0].gap + (OldOps(changes[0].ops) + OldChanges(changes[1..]))
  }

  function NewChanges(changes: seq<Change>): seq<string> {
    if changes == [] then [] else changes[0].gap + (NewOps(changes[0].ops) + NewChanges(changes[1..]))
  }

  /** The lines of the old and of the new file. */
  function OldLines(s: Script): seq<string> { OldChanges(s.changes) + s.tail }
  function NewLines(s: Script): seq<string> { NewChanges(s.changes) + s.tail }

  predicate Shown(op: Op) {
    match op
    case Keep(line, shown) => LinesEqual(line, shown)
    case Drop(line, shown) => LinesEqual(line, shown)
    case Insert(_) => true
  }

  function ToLine(op: Op): HunkLine {
    match op
    case Keep(_, shown) => HunkLine(Context, shown)
    case Drop(_, shown) => HunkLine(Delete, shown)
    case Insert(text) => HunkLine(Add, text)
  }

  function ToLines(ops: seq<Op>): (lines: seq<HunkLine>)
    ensures |lines| == |ops|
  {
    if ops == [] then [] else [ToLine(ops[0])] + ToLines(ops[1..])
  }

  /** The hunks are the changes: same operations, every shown line is the old
      line, and each hunk starts after the old lines before it. */
  ghost predicate Describes(hunks: seq<Hunk>, changes: seq<Change>, before: nat)
    decreases |hunks|
  {
    if hunks == [] || changes == [] then hunks == [] && changes == []
    else
      var c := changes[0];
      && hunks[0].lines == ToLines(c.ops)
      && (forall i :: 0 <= i < |c.ops| ==> Shown(c.ops[i]))
      && Start(hunks[0]) == before + |c.gap|
      && Describes(hunks[1..], changes[1..], before + |c.gap| + |OldOps(c.ops)|)
  }

  // ----------------------------------------------------------- a script is carried across

  /** Walking the operations from line `at` gives their new lines and ends at line `end`. */
  ghost predicate WalksTo(orig: seq<string>, ops: seq<Op>, at: nat, end: nat) {
    WalkLines(orig, ToLines(ops), at) == Walked(Flatten(NewOps(ops)), end)
  }

  lemma {:induction false} WalkOps(pre: seq<string>, ops: seq<Op>, post: seq<string>)
    requires forall i :: 0 <= i < |ops| ==> Shown(ops[i])
    ensures WalksTo(pre + (OldOps(ops) + post), ops, |pre|, |pre| + |OldOps(ops)|)
    decreases |ops|
  {
    hide WalksTo;
    hide OldOps;
    hide Shown;
    var orig, end := pre + (OldOps(ops) + post), |pre| + |OldOps(ops)|;
    if ops == [] {
      WalkNothing(orig, |pre|);
    } else {
      var rest := ops[1..];
      assert Shown(ops[0]);
      OldOfFirst(ops);
      if ops[0].Insert? {
        WalkOps(pre, rest, post);
      } else {
        OneOldLine(pre, ops[0].line, OldOps(rest), post);
        WalkOps(pre + [ops[0].line], rest, post);
      }
      WalkOneMore(orig, ops, |pre|, end);
    }
  }

  lemma WalkNothing(orig: seq<string>, at: nat)
    ensures WalksTo(orig, [], at, at) && OldOps([]) == []
  {
  }

  lemma WalkOneMore(orig: seq<string>, ops: seq<Op>, at: nat, end: nat)
    requires ops != [] && Shown(ops[0]) && (!ops[0].Insert? ==> LineAt(orig, at) == ops[0].line)
    requires WalksTo(orig, ops[1..], if ops[0].Insert? then at else at + 1, end)
    ensures WalksTo(orig, ops, at, end)
  {
    hide WalkLines;
    hide ToLines;
    hide NewOps;
    hide Shown;
    hide WithNewline;
    hide Flatten;
    WalkOne(orig, ops, at);
  }

  lemma OldOfFirst(ops: seq<Op>)
    requires ops != []
    ensures OldOps(ops) == if ops[0].Insert? then OldOps(ops[1..]) else [ops[0].line] + OldOps(ops[1..])
  {
    assert [] + OldOps(ops[1..]) == OldOps(ops[1..]);
  }

  /** One operation of the walk, and what it adds to the new text. */
  lemma WalkOne(orig: seq<string>, ops: seq<Op>, idx: nat)
    requires ops != [] && Shown(ops[0])
    requires !ops[0].Insert? ==> LineAt(orig, idx) == ops[0].line
    ensures var rest := ToLines(ops[1..]);
      WalkLines(orig, ToLines(ops), idx) ==
        match ops[0] {
          case Keep(line, _) => Before(line, WalkLines(orig, rest, idx + 1))
          case Drop(line, _) => WalkLines(orig, rest, idx + 1)
          case Insert(text) => Before(WithNewline(text), WalkLines(orig, rest, idx))
        }
    ensures Flatten(NewOps(ops)) ==
        match ops[0] {
          case Keep(line, _) => line + Flatten(NewOps(ops[1..]))
          case Drop(line, _) => Flatten(NewOps(ops[1..]))
          case Insert(text) => WithNewline(text) + Flatten(NewOps(ops[1..]))
        }
  {
    assert ToLines(ops)[0] == ToLine(ops[0]) && ToLines(ops)[1..] == ToLines(ops[1..]);
    if ops[0].Drop? {
      assert NewOps(ops) == NewOps(ops[1..]);
    } else {
      assert NewOps(ops)[1..] == NewOps(ops[1..]);
    }
  }

  lemma OneOldLine(pre: seq<string>, line: string, more: seq<string>, post: seq<string>)
    ensures pre + (([line] + more) + post) == (pre + [line]) + (more + post)
    ensures LineAt(pre + (([line] + more) + post), |pre|) == line
  {
  }

  lemma {:induction false} ApplyChanges(pre: seq<string>, cursor: nat, hunks: seq<Hunk>, changes: seq<Change>,
      tail: seq<string>)
    requires cursor == |pre| && Describes(hunks, changes, |pre|)
    ensures ApplyFrom(pre + (OldChanges(changes) + tail), hunks, cursor) == Patched(Flatten(NewChanges(changes) + tail))
    decreases |hunks|
  {
    hide OldOps;
    hide NewOps;
    hide ToLines;
    hide Shown;
    hide ApplyFrom;
    hide Flatten;
    if hunks == [] {
      NothingLeft(pre, tail);
      assert OldChanges(changes) + tail == tail && NewChanges(changes) + tail == tail;
    } else {
      var c, rest := changes[0], changes[1..];
      var took, gave, post := OldOps(c.ops), NewOps(c.ops), OldChanges(rest) + tail;
      ApplyChanges((pre + c.gap) + took, |pre| + |c.gap| + |took|, hunks[1..], rest, tail);
      OneHunkLands(pre, c.gap, c.ops, post, hunks, Landing(NewChanges(rest) + tail));
      ScriptParts(c.gap, took, OldChanges(rest), tail);
      ScriptParts(c.gap, gave, NewChanges(rest), tail);
      Reassociate(c.gap, gave, NewChanges(rest) + tail);
    }
  }

  lemma FlattenChange(gap: seq<string>, gave: seq<string>, more: seq<string>, tail: seq<string>)
    ensures Flatten((gap + (gave + more)) + tail) == Flatten(gap) + (Flatten(gave) + Flatten(more + tail))
  {
    assert (gap + (gave + more)) + tail == gap + (gave + (more + tail));
    FlattenConcat(gap, gave + (more + tail));
    FlattenConcat(gave, more + tail);
  }

  /** Applying a script's hunks to its old text gives its new text. */
  lemma HunksCarryScript(original: string, hunks: seq<Hunk>, s: Script)
    requires SplitInclusive(original) == OldLines(s) && Describes(hunks, s.changes, 0)
    ensures Apply(original, hunks) == Patched(Flatten(NewLines(s)))
  {
    if hunks == [] {
      SplitLosesNothing(original);
      assert OldLines(s) == s.tail == NewLines(s);
    } else {
      assert [] + OldLines(s) == OldLines(s);
      ApplyChanges([], 0, hunks, s.changes, s.tail);
    }
  }

  // ----------------------------------------------------------------- success means a script

  lemma FirstOp(op: Op, more: seq<Op>)
    ensures var ops := [op] + more;
      && ToLines(ops) == [ToLine(op)] + ToLines(more)
      && OldOps(ops) == (if op.Insert? then [] else [op.line]) + OldOps(more)
      && Flatten(NewOps(ops)) ==
        (if op.Keep? then op.line else if op.Drop? then "" else WithNewline(op.text)) + Flatten(NewOps(more))
  {
    hide WithNewline;
    var ops := [op] + more;
    assert ops[1..] == more;
    if op.Drop? {
      assert NewOps(ops) == NewOps(more);
      assert "" + Flatten(NewOps(more)) == Flatten(NewOps(more));
    } else {
      assert NewOps(ops)[1..] == NewOps(more);
    }
  }

  /** The operation that a hunk line stands for at file line `idx`. */
  function OpAt(orig: seq<string>, line: HunkLine, idx: nat): Op {
    match line.kind
    case Context => Keep(LineAt(orig, idx), line.text)
    case Delete => Drop(LineAt(orig, idx), line.text)
    case Add => Insert(line.text)
  }

  lemma OpTakes(orig: seq<string>, line: HunkLine, idx: nat)
    ensures var op := OpAt(orig, line, idx);
      !op.Insert? && idx < |orig| ==> op.line == orig[idx]
  {
  }

  lemma FirstStep(orig: seq<string>, lines: seq<HunkLine>, idx: nat)
    requires lines != [] && WalkLines(orig, lines, idx).Walked?
    ensures var op := OpAt(orig, lines[0], idx);
      var w := WalkLines(orig, lines[1..], if op.Insert? then idx else idx + 1);
      && w.Walked? && w.idx == WalkLines(orig, lines, idx).idx && Shown(op) && ToLine(op) == lines[0]
      && WalkLines(orig, lines, idx).out
           == (if op.Keep? then op.line else if op.Drop? then "" else WithNewline(op.text)) + w.out
  {
    hide LinesEqual;
    hide WithNewline;
    hide LineAt;
    if lines[0].kind == Delete {
      var out := WalkLines(orig, lines[1..], idx + 1).out;
      assert "" + out == out;
    }
  }

  lemma {:induction false} WalkIsScript(orig: seq<string>, lines: seq<HunkLine>, idx: nat) returns (ops: seq<Op>)
    requires WalkLines(orig, lines, idx).Walked? && WalkLines(orig, lines, idx).idx <= |orig|
    ensures ToLines(ops) == lines && forall i :: 0 <= i < |ops| ==> Shown(ops[i])
    ensures idx <= WalkLines(orig, lines, idx).idx && OldOps(ops) == orig[idx..WalkLines(orig, lines, idx).idx]
    ensures WalkLines(orig, lines, idx).out == Flatten(NewOps(ops))
    decreases |lines|
  {
    if lines == [] {
      ops := [];
    } else {
      hide WalkLines;
      hide ToLines;
      hide OldOps;
      hide NewOps;
      hide Shown;
      hide OpAt;
      hide ToLine;
      hide WithNewline;
      var rest, op := lines[1..], OpAt(orig, lines[0], idx);
      OpTakes(orig, lines[0], idx);
      var next := if op.Insert? then idx else idx + 1;
      FirstStep(orig, lines, idx);
      WalkAdvances(orig, rest, next);
      var more := WalkIsScript(orig, rest, next);
      ops := [op] + more;
      FirstOp(op, more);
      HeadTail(lines);
      var end := WalkLines(orig, lines, idx).idx;
      FirstOfSlice(orig, idx, end);
    }
  }

  lemma FirstOfSlice(s: seq<string>, i: nat, j: nat)
    requires i <= j <= |s|
    ensures i < j ==> s[i..j] == [s[i]] + s[i + 1..j]
    ensures [] + s[i..j] == s[i..j]
  {
  }

  lemma {:induction false} WalkAdvances(orig: seq<string>, lines: seq<HunkLine>, idx: nat)
    ensures WalkLines(orig, lines, idx).Walked? ==> WalkLines(orig, lines, idx).idx >= idx
    decreases |lines|
  {
    if lines != [] {
      WalkAdvances(orig, lines[1..], idx);
      WalkAdvances(orig, lines[1..], idx + 1);
    }
  }

  lemma {:induction false} PatchedStaysInside(orig: seq<string>, hunks: seq<Hunk>, cursor: nat)
    requires ApplyFrom(orig, hunks, cursor).Patched?
    ensures cursor <= |orig|
  {
  }

  lemma {:induction false} SuccessIsScript(orig: seq<string>, hunks: seq<Hunk>, cursor: nat) returns (s: Script)
    requires ApplyFrom(orig, hunks, cursor).Patched? && cursor <= |orig|
    ensures Describes(hunks, s.changes, cursor)
    ensures OldLines(s) == orig[cursor..]
    ensures ApplyFrom(orig, hunks, cursor) == Patched(Flatten(NewLines(s)))
    decreases |hunks|
  {
    hide WalkLines;
    hide OldOps;
    hide NewOps;
    hide ToLines;
    hide Shown;
    if hunks == [] {
      s := Script([], orig[cursor..]);
      assert OldLines(s) == s.tail == NewLines(s);
    } else {
      var start := Start(hunks[0]);
      var w := WalkLines(orig, hunks[0].lines, start);
      PatchedStaysInside(orig, hunks[1..], w.idx);
      var ops := WalkIsScript(orig, hunks[0].lines, start);
      var rest := SuccessIsScript(orig, hunks[1..], w.idx);
      s := Script([Change(orig[cursor..start], ops)] + rest.changes, rest.tail);
      FirstChange(orig, cursor, start, w.idx, ops, rest);
    }
  }

  lemma FirstChange(orig: seq<string>, cursor: nat, start: nat, end: nat, ops: seq<Op>, rest: Script)
    requires cursor <= start <= end <= |orig|
    requires OldOps(ops) == orig[start..end] && OldLines(rest) == orig[end..]
    ensures var s := Script([Change(orig[cursor..start], ops)] + rest.changes, rest.tail);
      && s.changes[1..] == rest.changes
      && OldLines(s) == orig[cursor..]
      && Flatten(NewLines(s)) == (Flatten(orig[cursor..start]) + Flatten(NewOps(ops))) + Flatten(NewLines(rest))
  {
    var gap := orig[cursor..start];
    var s := Script([Change(gap, ops)] + rest.changes, rest.tail);
    hide Flatten;
    hide OldOps;
    hide NewOps;
    assert s.changes[1..] == rest.changes;
    CutTwice(orig, cursor, start, end);
    ScriptParts(gap, OldOps(ops), OldChanges(rest.changes), rest.tail);
    FlattenChange(gap, NewOps(ops), NewChanges(rest.changes), rest.tail);
    Reassociate(Flatten(gap), Flatten(NewOps(ops)), Flatten(NewLines(rest)));
  }

  lemma CutTwice(s: seq<string>, a: nat, b: nat, c: nat)
    requires a <= b <= c <= |s|
    ensures s[a..] == s[a..b] + (s[b..c] + s[c..])
  {
  }

  lemma ScriptParts(gap: seq<string>, took: seq<string>, more: seq<string>, tail: seq<string>)
    ensures (gap + (took + more)) + tail == gap + (took + (more + tail))
  {
  }

  /** A patch succeeds with `body` exactly when its hunks are an edit script from
      the file to `body`: untouched lines stay byte for byte, and every context
      and deleted line is the file's. */
  lemma PatchedIffScript(original: string, hunks: seq<Hunk>, body: string)
    ensures Apply(original, hunks) == Patched(body) <==>
      exists s :: SplitInclusive(original) == OldLines(s) && Describes(hunks, s.changes, 0)
        && body == Flatten(NewLines(s))
  {
    if Apply(original, hunks) == Patched(body) {
      var orig := SplitInclusive(original);
      var s: Script;
      if hunks == [] {
        s := Script([], orig);
        SplitLosesNothing(original);
        assert OldLines(s) == orig == NewLines(s);
      } else {
        s := SuccessIsScript(orig, hunks, 0);
        assert orig[0..] == orig;
      }
      assert SplitInclusive(original) == OldLines(s) && Describes(hunks, s.changes, 0) && body == Flatten(NewLines(s));
    }
    forall s | SplitInclusive(original) == OldLines(s) && Describes(hunks, s.changes, 0) && body == Flatten(NewLines(s))
      ensures Apply(original, hunks) == Patched(body)
    {
      HunksCarryScript(original, hunks, s);
    }
  }

  // -------------------------------------------------------------------- standard line numbers

  /** Hunks numbered as unified diffs number them: from one, and a hunk that
      takes no old line is numbered by the line before it. */
  function Numbered(changes: seq<Change>, before: nat): (hunks: seq<Hunk>)
    ensures |hunks| == |changes|
  {
    if changes == [] then []
    else
      var c := changes[0];
      var at := before + |c.gap|;
      [Hunk(if OldOps(c.ops) == [] then at else at + 1, ToLines(c.ops))] + Numbered(changes[1..], at + |OldOps(c.ops)|)
  }

  ghost predicate AllShown(changes: seq<Change>) {
    forall k, i :: 0 <= k < |changes| && 0 <= i < |changes[k].ops| ==> Shown(changes[k].ops[i])
  }

  /** Every hunk takes an old line, unless it stands at the front of the file. */
  ghost predicate Anchored(changes: seq<Change>, before: nat)
    decreases |changes|
  {
    changes == [] ||
    (&& (OldOps(changes[0].ops) != [] || before + |changes[0].gap| == 0)
     && Anchored(changes[1..], before + |changes[0].gap| + |OldOps(changes[0].ops)|))
  }

  lemma {:induction false} NumberedDescribes(changes: seq<Change>, before: nat)
    requires AllShown(changes) && Anchored(changes, before)
    ensures Describes(Numbered(changes, before), changes, before)
    decreases |changes|
  {
    if changes != [] {
      var c := changes[0];
      hide OldOps;
      hide ToLines;
      hide Shown;
      hide Numbered;
      NumberedFirst(changes, before);
      assert forall i :: 0 <= i < |c.ops| ==> Shown(changes[0].ops[i]);
      assert forall k :: 0 <= k < |changes[1..]| ==> changes[1..][k] == changes[k + 1];
      NumberedDescribes(changes[1..], before + |c.gap| + |OldOps(c.ops)|);
    }
  }

  /** A standard diff with anchored hunks patches its old file into its new file. */
  lemma StandardDiffApplies(original: string, s: Script)
    requires SplitInclusive(original) == OldLines(s)
    requires AllShown(s.changes) && Anchored(s.changes, 0)
    ensures Apply(original, Numbered(s.changes, 0)) == Patched(Flatten(NewLines(s)))
  {
    NumberedDescribes(s.changes, 0);
    HunksCarryScript(original, Numbered(s.changes, 0), s);
  }

  function CountDropped(ops: seq<Op>): nat {
    if ops == [] then 0 else (if ops[0].Drop? then 1 else 0) + CountDropped(ops[1..])
  }

  function CountInserted(ops: seq<Op>): nat {
    if ops == [] then 0 else (if ops[0].Insert? then 1 else 0) + CountInserted(ops[1..])
  }

  lemma {:induction false} OpsChangeCount(ops: seq<Op>)
    ensures |NewOps(ops)| + CountDropped(ops) == |OldOps(ops)| + CountInserted(ops)
  {
    if ops != [] {
      OpsChangeCount(ops[1..]);
    }
  }

  // ------------------------------------------------------- hunks that take no old line, anywhere

  predicate AllLines(lines: seq<string>) {
    forall i :: 0 <= i < |lines| ==> IsLine(lines[i])
  }

  predicate AllEqual(lines: seq<string>, line: string) {
    forall i :: 0 <= i < |lines| ==> lines[i] == line
  }

  /** A hunk that takes no old line and stands behind one. */
  predicate Bare(c: Change, before: nat) {
    OldOps(c.ops) == [] && before + |c.gap| > 0
  }

  datatype Landing = Overlapped(oldStart: nat) | Landing(lines: seq<string>)

  function Outcomes(l: Landing): Outcome {
    match l
    case Overlapped(n) => Refused(Overlap(n))
    case Landing(lines) => Patched(Flatten(lines))
  }

  function Behind(front: seq<string>, l: Landing): Landing {
    match l
    case Overlapped(_) => l
    case Landing(lines) => Landing(front + lines)
  }

  /** The lines written by applying numbered hunks.  A bare hunk is applied one
      line early, if that line is still ahead; `held` is the line the bare hunk
      before this one has left behind it, and ends at line `before`. */
  function Landed(held: seq<string>, changes: seq<Change>, tail: seq<string>, before: nat): Landing
    decreases |changes|
  {
    if changes == [] then Landing(held + tail)
    else
      var ahead, at := held + changes[0].gap, before + |changes[0].gap|;
      if !Bare(changes[0], before) then
        Behind(ahead + NewOps(changes[0].ops), Landed([], changes[1..], tail, at + |OldOps(changes[0].ops)|))
      else if ahead == [] then Overlapped(at)
      else Behind(ahead[..|ahead| - 1] + NewOps(changes[0].ops), Landed(ahead[|ahead| - 1..], changes[1..], tail, at))
  }

  /** Every bare hunk has an untouched line before it or follows another bare
      hunk, and adds only lines equal to the line before it. */
  predicate InPlace(held: seq<string>, changes: seq<Change>, before: nat)
    decreases |changes|
  {
    changes == [] ||
    var ahead, at := held + changes[0].gap, before + |changes[0].gap|;
    if !Bare(changes[0], before) then InPlace([], changes[1..], at + |OldOps(changes[0].ops)|)
    else
      && ahead != []
      && AllEqual(NewOps(changes[0].ops), ahead[|ahead| - 1])
      && InPlace(ahead[|ahead| - 1..], changes[1..], at)
  }

  lemma LandedFirst(held: seq<string>, changes: seq<Change>, tail: seq<string>, before: nat)
    requires changes != []
    ensures var c, rest, ahead, at := changes[0], changes[1..], held + changes[0].gap, before + |changes[0].gap|;
      && (!Bare(c, before) ==>
        && Landed(held, changes, tail, before)
             == Behind(ahead + NewOps(c.ops), Landed([], rest, tail, at + |OldOps(c.ops)|))
        && InPlace(held, changes, before) == InPlace([], rest, at + |OldOps(c.ops)|))
      && (Bare(c, before) && ahead == [] ==>
        && Landed(held, changes, tail, before) == Overlapped(at)
        && !InPlace(held, changes, before))
      && (Bare(c, before) && ahead != [] ==>
        var k := |ahead| - 1;
        && Landed(held, changes, tail, before) == Behind(ahead[..k] + NewOps(c.ops), Landed(ahead[k..], rest, tail, at))
        && InPlace(held, changes, before) == (AllEqual(NewOps(c.ops), ahead[k]) && InPlace(ahead[k..], rest, at)))
  {
    hide OldOps;
    hide NewOps;
    hide AllEqual;
    hide Bare;
  }

  /** The first hunk, when it can start where it says and its walk succeeds. */
  lemma FirstHunkWalks(orig: seq<string>, hunks: seq<Hunk>, cursor: nat, out: string, idx: nat)
    requires hunks != [] && cursor <= Start(hunks[0]) <= |orig|
    requires WalkLines(orig, hunks[0].lines, Start(hunks[0])) == Walked(out, idx)
    ensures ApplyFrom(orig, hunks, cursor)
         == After(Flatten(orig[cursor..Start(hunks[0])]) + out, ApplyFrom(orig, hunks[1..], idx))
  {
    hide WalkLines;
  }

  lemma OneHunkLands(pre: seq<string>, front: seq<string>, ops: seq<Op>, post: seq<string>, hunks: seq<Hunk>,
      after: Landing)
    requires hunks != [] && hunks[0].lines == ToLines(ops) && Start(hunks[0]) == |pre| + |front|
    requires forall i :: 0 <= i < |ops| ==> Shown(ops[i])
    requires ApplyFrom(((pre + front) + OldOps(ops)) + post, hunks[1..], |pre| + |front| + |OldOps(ops)|)
      == Outcomes(after)
    ensures ApplyFrom(pre + (front + (OldOps(ops) + post)), hunks, |pre|)
      == Outcomes(Behind(front + NewOps(ops), after))
  {
    hide WalkLines;
    hide OldOps;
    hide NewOps;
    hide ToLines;
    hide Shown;
    hide ApplyFrom;
    hide Flatten;
    var took := OldOps(ops);
    var orig := pre + (front + (took + post));
    WalkOps(pre + front, ops, post);
    assert WalksTo((pre + front) + (took + post), ops, |pre| + |front|, |pre| + |front| + |took|);
    HunkParts(pre, front, took, post);
    FirstHunkWalks(orig, hunks, |pre|, Flatten(NewOps(ops)), |pre| + |front| + |took|);
    if after.Landing? {
      FlattenConcat(front, NewOps(ops));
      FlattenConcat(front + NewOps(ops), after.lines);
    }
  }

  lemma HunkParts(pre: seq<string>, front: seq<string>, took: seq<string>, post: seq<string>)
    ensures var orig := pre + (front + (took + post));
      && orig == (pre + front) + (took + post)
      && orig == ((pre + front) + took) + post
      && orig[|pre|..|pre| + |front|] == front
  {
  }

  /** Applying numbered hunks writes the `Landed` lines, or is refused where they overlap. */
  lemma {:induction false} NumberedLands(pre: seq<string>, held: seq<string>, changes: seq<Change>, tail: seq<string>)
    requires AllShown(changes) && |held| <= 1
    ensures NumberedLand(pre, held, changes, tail)
    decreases |changes|
  {
    hide NumberedLand;
    hide Bare;
    hide OldOps;
    if changes == [] {
      NoneLands(pre, held, tail);
    } else {
      var c, rest := changes[0], changes[1..];
      var ahead := held + c.gap;
      assert forall i :: 0 <= i < |c.ops| ==> Shown(changes[0].ops[i]);
      if !Bare(c, |pre| + |held|) {
        NumberedLands((pre + ahead) + OldOps(c.ops), [], rest, tail);
        NextLands(pre, held, changes, tail);
      } else if ahead == [] {
        NextOverlaps(pre, held, changes, tail);
      } else {
        var k := |ahead| - 1;
        NumberedLands(pre + ahead[..k], ahead[k..], rest, tail);
        NextLandsEarly(pre, held, changes, tail);
      }
    }
  }

  ghost predicate NumberedLand(pre: seq<string>, held: seq<string>, changes: seq<Change>, tail: seq<string>) {
    ApplyFrom(pre + (held + (OldChanges(changes) + tail)), Numbered(changes, |pre| + |held|), |pre|)
      == Outcomes(Landed(held, changes, tail, |pre| + |held|))
  }

  lemma NoneLands(pre: seq<string>, held: seq<string>, tail: seq<string>)
    ensures NumberedLand(pre, held, [], tail)
  {
    hide ApplyFrom;
    hide Flatten;
    NothingLeft(pre, held + tail);
    assert OldChanges([]) + tail == tail;
  }

  lemma NextLands(pre: seq<string>, held: seq<string>, changes: seq<Change>, tail: seq<string>)
    requires changes != [] && !Bare(changes[0], |pre| + |held|)
    requires forall i :: 0 <= i < |changes[0].ops| ==> Shown(changes[0].ops[i])
    requires NumberedLand((pre + (held + changes[0].gap)) + OldOps(changes[0].ops), [], changes[1..], tail)
    ensures NumberedLand(pre, held, changes, tail)
  {
    hide OldOps;
    hide NewOps;
    hide ToLines;
    hide Shown;
    hide ApplyFrom;
    hide Outcomes;
    hide Landed;
    hide Numbered;
    hide InPlace;
    var c, rest, before := changes[0], changes[1..], |pre| + |held|;
    var ahead, took, post := held + c.gap, OldOps(c.ops), OldChanges(rest) + tail;
    LandedFirst(held, changes, tail, before);
    NumberedFirst(changes, before);
    OldParts(held, c.gap, took, OldChanges(rest), tail);
    assert [] + post == post;
    OneHunkLands(pre, ahead, c.ops, post, Numbered(changes, before), Landed([], rest, tail, before + |c.gap| + |took|));
  }

  lemma NextOverlaps(pre: seq<string>, held: seq<string>, changes: seq<Change>, tail: seq<string>)
    requires changes != [] && Bare(changes[0], |pre| + |held|) && held + changes[0].gap == []
    ensures NumberedLand(pre, held, changes, tail)
  {
    hide OldOps;
    hide NewOps;
    hide ToLines;
    hide ApplyFrom;
    hide Landed;
    hide InPlace;
    hide Numbered;
    var c, before := changes[0], |pre| + |held|;
    assert held == [] && c.gap == [];
    LandedFirst(held, changes, tail, before);
    NumberedFirst(changes, before);
    EarlyStart(pre + (held + (OldChanges(changes) + tail)), Numbered(changes, before), |pre|);
  }

  lemma NextLandsEarly(pre: seq<string>, held: seq<string>, changes: seq<Change>, tail: seq<string>)
    requires changes != [] && Bare(changes[0], |pre| + |held|) && held + changes[0].gap != []
    requires forall i :: 0 <= i < |changes[0].ops| ==> Shown(changes[0].ops[i])
    requires var ahead := held + changes[0].gap;
      NumberedLand(pre + ahead[..|ahead| - 1], ahead[|ahead| - 1..], changes[1..], tail)
    ensures NumberedLand(pre, held, changes, tail)
  {
    hide OldOps;
    hide NewOps;
    hide ToLines;
    hide Shown;
    hide ApplyFrom;
    hide Outcomes;
    hide Landed;
    hide InPlace;
    hide Numbered;
    var c, rest, before := changes[0], changes[1..], |pre| + |held|;
    var ahead, took, post := held + c.gap, OldOps(c.ops), OldChanges(rest) + tail;
    var front, last := ahead[..|ahead| - 1], ahead[|ahead| - 1..];
    LandedFirst(held, changes, tail, before);
    NumberedFirst(changes, before);
    OldParts(held, c.gap, took, OldChanges(rest), tail);
    assert took == [] && ahead + ([] + post) == front + ([] + (last + post)) && (pre + front) + [] == pre + front;
    OneHunkLands(pre, front, c.ops, last + post, Numbered(changes, before), Landed(last, rest, tail, before + |c.gap|));
  }

  lemma NothingLeft(pre: seq<string>, rest: seq<string>)
    ensures ApplyFrom(pre + rest, [], |pre|) == Patched(Flatten(rest))
  {
    PrefixOfConcat(pre, rest);
  }

  lemma NumberedFirst(changes: seq<Change>, before: nat)
    requires changes != []
    ensures var hunks, at, took := Numbered(changes, before), before + |changes[0].gap|, OldOps(changes[0].ops);
      && hunks[0] == Hunk(if took == [] then at else at + 1, ToLines(changes[0].ops))
      && hunks[1..] == Numbered(changes[1..], at + |took|)
  {
    hide OldOps;
    hide ToLines;
  }

  lemma EarlyStart(orig: seq<string>, hunks: seq<Hunk>, cursor: nat)
    requires hunks != [] && Start(hunks[0]) < cursor
    ensures ApplyFrom(orig, hunks, cursor) == Refused(Overlap(hunks[0].oldStart))
  {
  }

  lemma OldParts(held: seq<string>, gap: seq<string>, took: seq<string>, more: seq<string>, tail: seq<string>)
    ensures held + ((gap + (took + more)) + tail) == (held + gap) + (took + (more + tail))
  {
  }

  /** If `adds` in front of `first` reads the same as `line` in front of `adds`, all are `line`. */
  lemma {:induction false} AllTheSame(adds: seq<string>, first: string, line: string)
    requires adds + [first] == [line] + adds
    ensures first == line && AllEqual(adds, line)
  {
    if adds == [] {
      assert [first] == [] + [first] == [line] + [] == [line];
      assert [first][0] == [line][0];
    } else {
      assert (adds + [first])[0] == adds[0] && (adds + [first])[1..] == adds[1..] + [first];
      assert ([line] + adds)[0] == line && ([line] + adds)[1..] == adds;
      HeadTail(adds);
      AllTheSame(adds[1..], first, line);
    }
  }

  lemma SameIsShifted(adds: seq<string>, line: string)
    requires AllEqual(adds, line)
    ensures adds + [line] == [line] + adds
  {
  }

  /** What a bare hunk's lines and the rest make of the line before them. */
  lemma ShiftedIff(front: seq<string>, line: string, adds: seq<string>, landed: seq<string>, rest: seq<string>)
    requires |landed| == 1 + |rest|
    ensures front + (adds + landed) == front + ([line] + (adds + rest)) <==>
      AllEqual(adds, line) && landed == [line] + rest
  {
    var first, more := landed[0], landed[1..];
    HeadTail(landed);
    Reassociate(adds, [first], more);
    Reassociate([line], adds, rest);
    if front + (adds + landed) == front + ([line] + (adds + rest)) {
      PrefixOfConcat(front, adds + landed);
      PrefixOfConcat(front, [line] + (adds + rest));
      PrefixOfConcat(adds + [first], more);
      PrefixOfConcat([line] + adds, rest);
      AllTheSame(adds, first, line);
    }
    if AllEqual(adds, line) && landed == [line] + rest {
      SameIsShifted(adds, line);
      Reassociate(adds, [line], rest);
    }
  }

  /** The landing has as many lines as `lines`, and is `lines` exactly if `inPlace`. */
  ghost predicate LandsIff(l: Landing, lines: seq<string>, inPlace: bool) {
    && (l.Landing? ==> |l.lines| == |lines|)
    && (l == Landing(lines) <==> inPlace)
  }

  /** The script's lines come out exactly when the bare hunks are in place. */
  lemma {:induction false} LandedIff(held: seq<string>, changes: seq<Change>, tail: seq<string>, before: nat)
    requires |held| <= 1
    ensures LandsIff(Landed(held, changes, tail, before), held + (NewChanges(changes) + tail),
      InPlace(held, changes, before))
    decreases |changes|
  {
    hide OldOps;
    hide NewOps;
    hide AllEqual;
    hide Bare;
    if changes == [] {
      assert NewChanges(changes) + tail == tail;
    } else {
      hide Landed;
      hide InPlace;
      hide LandsIff;
      LandedFirst(held, changes, tail, before);
      var c, rest := changes[0], changes[1..];
      var ahead, at, gave, post := held + c.gap, before + |c.gap|, NewOps(c.ops), NewChanges(rest) + tail;
      OldParts(held, c.gap, gave, NewChanges(rest), tail);
      if !Bare(c, before) {
        var n := at + |OldOps(c.ops)|;
        LandedIff([], rest, tail, n);
        assert [] + post == post;
        SameBehind(ahead, gave, Landed([], rest, tail, n), post, InPlace([], rest, n));
      } else if ahead == [] {
        OverlapIsOut(at, held + (NewChanges(changes) + tail));
      } else {
        var k := |ahead| - 1;
        LandedIff(ahead[k..], rest, tail, at);
        ShiftedBehind(ahead, gave, Landed(ahead[k..], rest, tail, at), post, InPlace(ahead[k..], rest, at));
      }
    }
  }

  lemma OverlapIsOut(at: nat, lines: seq<string>)
    ensures LandsIff(Overlapped(at), lines, false)
  {
  }

  lemma SameBehind(ahead: seq<string>, gave: seq<string>, l: Landing, post: seq<string>, inPlace: bool)
    requires LandsIff(l, post, inPlace)
    ensures LandsIff(Behind(ahead + gave, l), ahead + (gave + post), inPlace)
  {
    Reassociate(ahead, gave, post);
    if l.Landing? {
      PrefixOfConcat(ahead + gave, l.lines);
      PrefixOfConcat(ahead + gave, post);
    }
  }

  lemma ShiftedBehind(ahead: seq<string>, gave: seq<string>, l: Landing, post: seq<string>, inPlace: bool)
    requires ahead != [] && LandsIff(l, ahead[|ahead| - 1..] + post, inPlace)
    ensures var k := |ahead| - 1;
      LandsIff(Behind(ahead[..k] + gave, l), ahead + (gave + post), AllEqual(gave, ahead[k]) && inPlace)
  {
    hide AllEqual;
    var k := |ahead| - 1;
    if l.Landing? {
      assert ahead[k..] == [ahead[k]];
      SplitAt(ahead, k);
      Reassociate(ahead[..k], gave, l.lines);
      Reassociate(ahead[..k], ahead[k..], gave + post);
      ShiftedIff(ahead[..k], ahead[k], gave, l.lines, post);
    }
  }

  lemma {:induction false} LandedAreLines(held: seq<string>, changes: seq<Change>, tail: seq<string>, before: nat)
    requires Landed(held, changes, tail, before).Landing?
    requires AllLines(held) && AllLines(OldChanges(changes)) && AllLines(NewChanges(changes)) && AllLines(tail)
    ensures AllLines(Landed(held, changes, tail, before).lines)
    decreases |changes|
  {
    hide OldOps;
    hide NewOps;
    hide IsLine;
    if changes != [] {
      var c, rest := changes[0], changes[1..];
      var ahead, at, took, gave := held + c.gap, before + |c.gap|, OldOps(c.ops), NewOps(c.ops);
      LinesOfParts(c.gap, took, OldChanges(rest));
      LinesOfParts(c.gap, gave, NewChanges(rest));
      if !Bare(c, before) {
        LandedAreLines([], rest, tail, at + |took|);
      } else {
        LandedAreLines(ahead[|ahead| - 1..], rest, tail, at);
      }
    }
  }

  lemma LinesOfParts(a: seq<string>, b: seq<string>, c: seq<string>)
    requires AllLines(a + (b + c))
    ensures AllLines(a) && AllLines(b) && AllLines(c)
  {
    hide IsLine;
    var all := a + (b + c);
    assert forall i :: 0 <= i < |a| ==> all[i] == a[i];
    assert forall i :: 0 <= i < |b| ==> all[|a| + i] == b[i];
    assert forall i :: 0 <= i < |c| ==> all[|a| + |b| + i] == c[i];
  }

  lemma SameLinesIffSameText(a: seq<string>, b: seq<string>)
    requires AllLines(a) && AllLines(b)
    ensures Flatten(a) == Flatten(b) <==> a == b
  {
    SplitJoined(a);
    SplitJoined(b);
  }

  /** A standard diff between files of newline-terminated lines patches the old
      one into the new one exactly when its bare hunks are in place; otherwise it
      is refused or gives another text, and this is which. */
  lemma StandardDiffAppliesIff(s: Script)
    requires AllShown(s.changes) && AllLines(OldLines(s)) && AllLines(NewLines(s))
    ensures var r := Apply(Flatten(OldLines(s)), Numbered(s.changes, 0));
      && r == Outcomes(Landed([], s.changes, s.tail, 0))
      && (r == Patched(Flatten(NewLines(s))) <==> InPlace([], s.changes, 0))
  {
    hide Landed;
    hide InPlace;
    hide OldChanges;
    hide NewChanges;
    var was, l := OldLines(s), Landed([], s.changes, s.tail, 0);
    SplitJoined(was);
    SplitLosesNothing(Flatten(was));
    assert [] + ([] + was) == was && [] + was == was && [] + NewLines(s) == NewLines(s);
    assert was[0..] == was;
    NumberedLands([], [], s.changes, s.tail);
    assert NumberedLand([], [], s.changes, s.tail);
    LandedIff([], s.changes, s.tail, 0);
    if l.Landing? {
      LinesOfParts([], OldChanges(s.changes), s.tail);
      LinesOfParts([], NewChanges(s.changes), s.tail);
      LandedAreLines([], s.changes, s.tail, 0);
      SameLinesIffSameText(l.lines, NewLines(s));
    }
  }

  lemma OneOp(op: Op)
    ensures OldOps([op]) == OldOf(op) && NewOps([op]) == NewOf(op)
  {
    hide WithNewline;
    assert [op][1..] == [];
  }

  lemma LastChange(c: Change)
    ensures OldChanges([c]) == c.gap + OldOps(c.ops) && NewChanges([c]) == c.gap + NewOps(c.ops)
  {
    hide OldOps;
    hide NewOps;
    assert [c][1..] == [];
  }

  lemma Terminated(line: string)
    requires IsLine(line)
    ensures WithNewline(line) == line
  {
  }

  lemma LandedRest(held: seq<string>, tail: seq<string>, before: nat)
    ensures Landed(held, [], tail, before) == Landing(held + tail)
  {
  }

  /** A bare hunk right behind another hunk is refused, even where it adds a copy of the line before it. */
  lemma BareHunkOverlaps(a: string)
    requires IsLine(a)
    ensures var s := Script([Change([], [Keep(a, a)]), Change([], [Insert(a)])], []);
      Apply(Flatten(OldLines(s)), Numbered(s.changes, 0)) == Refused(Overlap(1))
  {
    hide OldOps;
    hide NewOps;
    hide Landed;
    hide InPlace;
    hide Apply;
    hide Numbered;
    hide IsLine;
    var c, d := Change([], [Keep(a, a)]), Change([], [Insert(a)]);
    var s := Script([c, d], []);
    Terminated(a);
    OneOp(c.ops[0]);
    OneOp(d.ops[0]);
    LastChange(d);
    assert s.changes[1..] == [d];
    assert OldLines(s) == [a] && NewLines(s) == [a, a];
    StandardDiffAppliesIff(s);
    LandedFirst([], s.changes, [], 0);
    LandedFirst([], [d], [], 1);
  }

  lemma FlattenTwo(a: string, b: string)
    ensures Flatten([a, b]) == a + b
  {
    FlattenOne(b);
    assert [a, b][1..] == [b];
  }

  /** A bare hunk behind an untouched line adds its line before that line. */
  lemma BareHunkLandsEarly(a: string, b: string)
    requires IsLine(a) && IsLine(b)
    ensures var s := Script([Change([a], [Insert(b)])], []);
      Apply(Flatten(OldLines(s)), Numbered(s.changes, 0)) == Patched(b + a) && Flatten(NewLines(s)) == a + b
  {
    hide OldOps;
    hide NewOps;
    hide Landed;
    hide InPlace;
    hide Apply;
    hide Numbered;
    hide Flatten;
    hide OldChanges;
    hide NewChanges;
    hide IsLine;
    var c := Change([a], [Insert(b)]);
    var s := Script([c], []);
    Terminated(b);
    OneOp(c.ops[0]);
    LastChange(c);
    assert OldLines(s) == [a] && NewLines(s) == [a, b];
    StandardDiffAppliesIff(s);
    LandedFirst([], s.changes, [], 0);
    LandedRest([a], [], 1);
    assert s.changes[1..] == [] && [a] + [] == [a] && [][..0] + [b] == [b] && [b] + [a] == [b, a];
    FlattenTwo(a, b);
    FlattenTwo(b, a);
  }
}
