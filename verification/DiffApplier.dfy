/** Applying a whole diff to a workspace: every file is patched in memory first,
    and the files are written only when all of them were. */
module DiffApplier {
  import opened Wrappers
  import opened Seqs
  import opened JsonText
  import opened HunkApplier
  import opened EditScript
  import opened UnifiedDiff
  import opened DiffRoundTrip

  type Files = map<string, string>

  datatype Report =
    | Applied(files: nat)
    | Conflicts(files: nat)
    | Malformed
    | Crashed

  /** What patching one file in memory comes to. */
  datatype Attempt = Ready(body: string) | Conflict | Crash

  function OriginalText(files: Files, g: Group): Option<string> {
    if g.path in files then Some(files[g.path]) else if g.isNew then Some("") else None
  }

  function TryGroup(files: Files, g: Group): Attempt {
    match OriginalText(files, g)
    case None => Conflict
    case Some(text) =>
      match Apply(text, g.hunks)
      case Patched(body) => Ready(body)
      case Refused(_) => Conflict
      case OutOfRange => Crash
  }

  function CountConflicts(files: Files, groups: seq<Group>): nat {
    if groups == [] then 0
    else
      var n := |groups| - 1;
      CountConflicts(files, groups[..n]) + if TryGroup(files, groups[n]).Conflict? then 1 else 0
  }

  predicate AnyCrash(files: Files, groups: seq<Group>) {
    exists k :: 0 <= k < |groups| && TryGroup(files, groups[k]).Crash?
  }

  predicate AllReady(files: Files, groups: seq<Group>) {
    forall k {:trigger groups[k]} :: 0 <= k < |groups| ==> TryGroup(files, groups[k]).Ready?
  }

  /** The files after writing what each group made of the files `before`. */
  function Written(before: Files, groups: seq<Group>): Files
    requires AllReady(before, groups)
  {
    if groups == [] then before
    else
      var last := groups[|groups| - 1];
      Written(before, groups[..|groups| - 1])[last.path := TryGroup(before, last).body]
  }

  function ReportFor(files: Files, groups: seq<Group>): Report {
    if AnyCrash(files, groups) then Crashed
    else if CountConflicts(files, groups) > 0 then Conflicts(CountConflicts(files, groups))
    else Applied(|groups|)
  }

  lemma {:induction false} ReadyUnlessReported(files: Files, groups: seq<Group>)
    ensures !AnyCrash(files, groups) && CountConflicts(files, groups) == 0 <==> AllReady(files, groups)
  {
    hide TryGroup;
    if groups != [] {
      var shorter, last := groups[..|groups| - 1], groups[|groups| - 1];
      ReadyUnlessReported(files, shorter);
      assert groups == shorter + [last];
      AllReadySnoc(files, shorter, last);
      AnyCrashSnoc(files, shorter, last);
    }
  }

  lemma AllReadySnoc(files: Files, groups: seq<Group>, g: Group)
    ensures AllReady(files, groups + [g]) <==> AllReady(files, groups) && TryGroup(files, g).Ready?
  {
    hide TryGroup;
    var longer := groups + [g];
    assert longer[|groups|] == g && forall k :: 0 <= k < |groups| ==> longer[k] == groups[k];
  }

  lemma AnyCrashSnoc(files: Files, groups: seq<Group>, g: Group)
    ensures AnyCrash(files, groups + [g]) <==> AnyCrash(files, groups) || TryGroup(files, g).Crash?
  {
    hide TryGroup;
    var longer := groups + [g];
    assert longer[|groups|] == g && forall k :: 0 <= k < |groups| ==> longer[k] == groups[k];
  }

  datatype Staged = Staged(path: string, body: string)

  /** The staged bodies are what the groups make of the files. */
  ghost predicate Stages(files: Files, groups: seq<Group>, staged: seq<Staged>) {
    && |staged| == |groups|
    && forall k {:trigger staged[k]} {:trigger groups[k]} :: 0 <= k < |groups| ==>
         staged[k].path == groups[k].path && TryGroup(files, groups[k]) == Ready(staged[k].body)
  }

  lemma StagesSnoc(files: Files, groups: seq<Group>, staged: seq<Staged>, g: Group, body: string)
    requires Stages(files, groups, staged) && TryGroup(files, g) == Ready(body)
    ensures Stages(files, groups + [g], staged + [Staged(g.path, body)])
  {
    hide TryGroup;
  }

  class Workspace {
    var files: Files

    constructor (initial: Files)
      ensures files == initial
    {
      files := initial;
    }

    method TryOne(g: Group) returns (a: Attempt)
      ensures a == TryGroup(files, g)
    {
      var original := "";
      if g.path in files {
        original := files[g.path];
      } else if !g.isNew {
        return Conflict;
      }
      var outcome := ApplyHunks(original, g.hunks);
      match outcome
      case Patched(body) => return Ready(body);
      case Refused(_) => return Conflict;
      case OutOfRange => return Crash;
    }

    /** The pass that only computes: it stops at a crash and counts every conflict. */
    method Stage(groups: seq<Group>) returns (r: Report, staged: seq<Staged>)
      ensures r == ReportFor(files, groups)
      ensures r.Applied? ==> Stages(files, groups, staged)
    {
      hide TryGroup;
      staged := [];
      var conflicts: nat := 0;
      assert groups[..|groups|] == groups;
      for k := 0 to |groups|
        invariant conflicts == CountConflicts(files, groups[..k])
        invariant !AnyCrash(files, groups[..k])
        invariant conflicts == 0 ==> Stages(files, groups[..k], staged)
      {
        SnocPrefix(groups, k);
        AnyCrashSnoc(files, groups[..k], groups[k]);
        var attempt := TryOne(groups[k]);
        match attempt
        case Ready(body) =>
          if conflicts == 0 {
            StagesSnoc(files, groups[..k], staged, groups[k], body);
          }
          staged := staged + [Staged(groups[k].path, body)];
        case Conflict => conflicts := conflicts + 1;
        case Crash => return Crashed, [];
      }
      r := if conflicts > 0 then Conflicts(conflicts) else Applied(|staged|);
    }

    method Commit(groups: seq<Group>, staged: seq<Staged>)
      requires Stages(files, groups, staged)
      modifies this
      ensures AllReady(old(files), groups) && files == Written(old(files), groups)
    {
      hide TryGroup;
      assert groups[..|groups|] == groups;
      for k := 0 to |staged|
        invariant AllReady(old(files), groups[..k]) && files == Written(old(files), groups[..k])
      {
        assert groups[..k + 1][..k] == groups[..k] && groups[..k + 1][k] == groups[k];
        SnocPrefix(groups, k);
        AllReadySnoc(old(files), groups[..k], groups[k]);
        files := files[staged[k].path := staged[k].body];
      }
    }

    /** Nothing is written unless every group could be patched; then every group is written. */
    method ApplyInProcess(groups: seq<Group>) returns (r: Report)
      modifies this
      ensures r == ReportFor(old(files), groups)
      ensures r.Applied? <==> AllReady(old(files), groups)
      ensures files == if r.Applied? then Written(old(files), groups) else old(files)
    {
      ReadyUnlessReported(files, groups);
      var staged;
      r, staged := Stage(groups);
      if r.Applied? {
        Commit(groups, staged);
      }
    }

    /** A diff that does not parse changes nothing; a blank one is a diff of no file. */
    method ApplyRunDiff(body: string) returns (r: Report)
      modifies this
      ensures r == RunReport(old(files), body)
      ensures files == RunFiles(old(files), body)
    {
      if Trim(body) == "" {
        BlankDiffHasNoGroups(body);
        return Applied(0);
      }
      var parsed := ParseUnifiedDiff(body);
      if parsed.None? {
        return Malformed;
      }
      if |parsed.value| == 0 {
        return Applied(0);
      }
      r := ApplyInProcess(parsed.value);
    }
  }

  function RunReport(files: Files, body: string): Report {
    match Parse(body)
    case None => Malformed
    case Some(groups) => ReportFor(files, groups)
  }

  function RunFiles(files: Files, body: string): Files {
    match Parse(body)
    case None => files
    case Some(groups) => if AllReady(files, groups) then Written(files, groups) else files
  }

  // ---------------------------------------------------------------------------- a blank diff

  predicate Blank(s: string) {
    forall i :: 0 <= i < |s| ==> IsWhitespace(s[i])
  }

  lemma {:induction false} TrimStartEmpty(s: string)
    requires !Blank(s)
    ensures !Blank(TrimStart(s))
  {
    if IsWhitespace(s[0]) {
      var i :| 0 <= i < |s| && !IsWhitespace(s[i]);
      assert !IsWhitespace(s[1..][i - 1]);
      TrimStartEmpty(s[1..]);
    }
  }

  lemma {:induction false} TrimEndEmpty(s: string)
    requires !Blank(s)
    ensures TrimEnd(s) != ""
  {
    var n := |s| - 1;
    if IsWhitespace(s[n]) {
      var i :| 0 <= i < |s| && !IsWhitespace(s[i]);
      assert !IsWhitespace(s[..n][i]);
      TrimEndEmpty(s[..n]);
    }
  }

  lemma {:induction false} BlankSegments(s: string)
    requires Blank(s)
    ensures forall i :: 0 <= i < |Segments(s)| ==> Blank(Segments(s)[i])
  {
    if '\n' in s {
      BlankSegments(s[FirstNewline(s) + 1..]);
    }
  }

  lemma BlankStep(raw: string)
    requires Blank(raw)
    ensures Step(START, raw) == Some(START)
  {
    if raw != "" {
      assert IsWhitespace(raw[0]);
    }
  }

  lemma {:induction false} BlankSteps(raws: seq<string>)
    requires forall i :: 0 <= i < |raws| ==> Blank(raws[i])
    ensures Steps(START, raws) == Some(START)
  {
    if raws != [] {
      BlankStep(raws[0]);
      BlankSteps(raws[1..]);
    }
  }

  lemma BlankDiffHasNoGroups(body: string)
    requires Trim(body) == ""
    ensures Parse(body) == Some([])
  {
    if !Blank(body) {
      TrimStartEmpty(body);
      TrimEndEmpty(TrimStart(body));
    }
    BlankSegments(body);
    BlankSteps(Segments(body));
  }

  // ------------------------------------------------------------ a diff carries a tree across

  /** One file's part of a change to the whole tree. */
  datatype FileEdit = FileEdit(path: string, isNew: bool, script: Script)

  function ToGroup(e: FileEdit): Group {
    Group(e.path, e.isNew, Numbered(e.script.changes, 0))
  }

  function ToGroups(edits: seq<FileEdit>): (groups: seq<Group>)
    ensures |groups| == |edits| && forall k :: 0 <= k < |edits| ==> groups[k] == ToGroup(edits[k])
  {
    seq(|edits|, k requires 0 <= k < |edits| => ToGroup(edits[k]))
  }

  /** The edit is a standard one for the file that is there. */
  ghost predicate Fits(files: Files, e: FileEdit) {
    && (e.path in files || e.isNew)
    && SplitInclusive(if e.path in files then files[e.path] else "") == OldLines(e.script)
    && AllShown(e.script.changes) && Anchored(e.script.changes, 0)
  }

  ghost predicate DistinctPaths(edits: seq<FileEdit>) {
    forall i, j :: 0 <= i < j < |edits| ==> edits[i].path != edits[j].path
  }

  lemma FittingGroupIsReady(files: Files, e: FileEdit)
    requires Fits(files, e)
    ensures TryGroup(files, ToGroup(e)) == Ready(Flatten(NewLines(e.script)))
  {
    StandardDiffApplies(if e.path in files then files[e.path] else "", e.script);
  }

  /** The files a reader of the edits expects. */
  ghost predicate Carried(before: Files, edits: seq<FileEdit>, after: Files) {
    && (forall k {:trigger edits[k]} :: 0 <= k < |edits| ==>
          edits[k].path in after && after[edits[k].path] == Flatten(NewLines(edits[k].script)))
    && (forall p :: (forall k :: 0 <= k < |edits| ==> edits[k].path != p) ==>
          (p in after <==> p in before) && (p in before ==> after[p] == before[p]))
  }

  lemma {:induction false} WrittenCarries(before: Files, edits: seq<FileEdit>)
    requires DistinctPaths(edits) && forall k :: 0 <= k < |edits| ==> Fits(before, edits[k])
    ensures AllReady(before, ToGroups(edits)) && Carried(before, edits, Written(before, ToGroups(edits)))
  {
    hide TryGroup;
    hide Fits;
    hide Carried;
    if edits == [] {
      assert ToGroups(edits) == [];
      NothingCarried(before);
    } else {
      var n := |edits| - 1;
      var shorter, last := edits[..n], edits[n];
      var groups, g := ToGroups(shorter), ToGroup(last);
      WrittenCarries(before, shorter);
      FittingGroupIsReady(before, last);
      assert edits == shorter + [last];
      CarriedSnoc(before, shorter, Written(before, groups), last);
      assert ToGroups(edits) == groups + [g];
      AllReadySnoc(before, groups, g);
      WrittenSnoc(before, groups, g);
    }
  }

  lemma NothingCarried(files: Files)
    ensures Carried(files, [], files)
  {
  }

  lemma WrittenSnoc(before: Files, groups: seq<Group>, g: Group)
    requires AllReady(before, groups) && AllReady(before, groups + [g]) && TryGroup(before, g).Ready?
    ensures Written(before, groups + [g]) == Written(before, groups)[g.path := TryGroup(before, g).body]
  {
    hide TryGroup;
    hide AllReady;
    assert (groups + [g])[..|groups|] == groups;
  }

  lemma CarriedSnoc(before: Files, edits: seq<FileEdit>, after: Files, e: FileEdit)
    requires Carried(before, edits, after) && DistinctPaths(edits + [e])
    ensures Carried(before, edits + [e], after[e.path := Flatten(NewLines(e.script))])
  {
    hide Flatten;
    hide NewLines;
    var all, last := edits + [e], after[e.path := Flatten(NewLines(e.script))];
    forall k | 0 <= k < |all|
      ensures all[k].path in last && last[all[k].path] == Flatten(NewLines(all[k].script))
    {
      if k < |edits| {
        assert all[k] == edits[k] && all[|edits|] == e && all[k].path != e.path;
      }
    }
    forall p | forall k :: 0 <= k < |all| ==> all[k].path != p
      ensures (p in last <==> p in before) && (p in before ==> last[p] == before[p])
    {
      assert all[|edits|].path != p;
      forall k | 0 <= k < |edits|
        ensures edits[k].path != p
      {
        assert all[k] == edits[k];
      }
    }
  }

  /** Rendering a change to a tree, parsing the diff and applying it makes the
      change: every edited file gets its new text and no other file moves. */
  lemma DiffCarriesTree(before: Files, edits: seq<FileEdit>)
    requires DistinctPaths(edits) && forall k :: 0 <= k < |edits| ==> Fits(before, edits[k])
    requires PrintableGroups(ToGroups(edits)) && forall k :: 0 <= k < |edits| ==> Trim(edits[k].path) == edits[k].path
    requires forall k :: 0 <= k < |edits| ==> !GroupClashes(ToGroups(edits)[k])
    ensures RunReport(before, Render(ToGroups(edits))) == Applied(|edits|)
    ensures Carried(before, edits, RunFiles(before, Render(ToGroups(edits))))
  {
    hide Parse;
    hide Render;
    hide ReadAll;
    hide Trim;
    hide PrintableGroups;
    hide GroupClashes;
    hide Carried;
    hide AllReady;
    hide Fits;
    assert forall k :: 0 <= k < |edits| ==> ToGroups(edits)[k].path == edits[k].path;
    ParseInvertsRender(ToGroups(edits));
    ReadIsSame(ToGroups(edits));
    WrittenCarries(before, edits);
    ReadyUnlessReported(before, ToGroups(edits));
  }

  // ------------------------------------------------------------------------ all or nothing, exactly

  /** The group's hunks are a script for its file as it is. */
  ghost predicate Scripted(files: Files, g: Group) {
    && OriginalText(files, g).Some?
    && exists s :: ScriptFor(OriginalText(files, g).value, g.hunks, s)
  }

  ghost predicate ScriptFor(text: string, hunks: seq<Hunk>, s: Script) {
    SplitInclusive(text) == OldLines(s) && Describes(hunks, s.changes, 0)
  }

  /** A diff is applied exactly when every group is an edit script for its file
      as it was before; one group that is not leaves every file alone. */
  lemma AppliedIffScripted(files: Files, groups: seq<Group>)
    ensures ReportFor(files, groups).Applied? <==>
      forall k {:trigger groups[k]} :: 0 <= k < |groups| ==> Scripted(files, groups[k])
  {
    hide TryGroup;
    hide Scripted;
    ReadyUnlessReported(files, groups);
    forall k {:trigger groups[k]} | 0 <= k < |groups|
      ensures TryGroup(files, groups[k]).Ready? <==> Scripted(files, groups[k])
    {
      ReadyIffScripted(files, groups[k]);
    }
  }

  lemma ReadyIffScripted(files: Files, g: Group)
    ensures TryGroup(files, g).Ready? <==> Scripted(files, g)
  {
    hide Apply;
    if OriginalText(files, g).Some? {
      var text := OriginalText(files, g).value;
      if TryGroup(files, g).Ready? {
        var body := TryGroup(files, g).body;
        PatchedIffScript(text, g.hunks, body);
        var s :| SplitInclusive(text) == OldLines(s) && Describes(g.hunks, s.changes, 0)
          && body == Flatten(NewLines(s));
        assert ScriptFor(text, g.hunks, s);
      }
      forall s | ScriptFor(text, g.hunks, s)
        ensures TryGroup(files, g).Ready?
      {
        PatchedIffScript(text, g.hunks, Flatten(NewLines(s)));
      }
    }
  }

  /** Of several groups for one file the last one wins, each being worked out
      from the file as it was before: the others' changes are lost. */
  lemma {:induction false} LastGroupWins(files: Files, groups: seq<Group>, k: nat)
    requires AllReady(files, groups) && k < |groups|
    requires forall j :: k < j < |groups| ==> groups[j].path != groups[k].path
    ensures groups[k].path in Written(files, groups)
    ensures Written(files, groups)[groups[k].path] == TryGroup(files, groups[k]).body
  {
    hide TryGroup;
    var n := |groups| - 1;
    if k < n {
      var shorter := groups[..n];
      assert groups[n].path != groups[k].path;
      assert forall j :: 0 <= j < n ==> shorter[j] == groups[j];
      LastGroupWins(files, shorter, k);
    }
  }

  // ---------------------------------------------------------------------- how many conflicts

  /** The file is missing though the group does not make it, or a hunk is refused. */
  predicate Conflicting(files: Files, g: Group) {
    (g.path !in files && !g.isNew) || Apply(if g.path in files then files[g.path] else "", g.hunks).Refused?
  }

  /** The conflicts reported are as many as there are groups that conflict. */
  lemma {:induction false} ConflictsAreCounted(files: Files, groups: seq<Group>)
    ensures CountConflicts(files, groups) == |set k | 0 <= k < |groups| && Conflicting(files, groups[k])|
  {
    hide TryGroup;
    hide Conflicting;
    if groups != [] {
      var n := |groups| - 1;
      ConflictsAreCounted(files, groups[..n]);
      ConflictIsConflicting(files, groups[n]);
      OneMoreConflict(files, groups);
    }
  }

  lemma ConflictIsConflicting(files: Files, g: Group)
    ensures TryGroup(files, g).Conflict? <==> Conflicting(files, g)
  {
    hide Apply;
  }

  lemma OneMoreConflict(files: Files, groups: seq<Group>)
    requires groups != []
    ensures var n := |groups| - 1;
      |set k | 0 <= k < |groups| && Conflicting(files, groups[k])|
        == |set k | 0 <= k < n && Conflicting(files, groups[..n][k])| + if Conflicting(files, groups[n]) then 1 else 0
  {
    hide Conflicting;
    var n := |groups| - 1;
    var before := set k | 0 <= k < n && Conflicting(files, groups[..n][k]);
    var all := set k | 0 <= k < |groups| && Conflicting(files, groups[k]);
    forall k
      ensures k in all <==> k in before || (k == n && Conflicting(files, groups[n]))
    {
      if 0 <= k < n {
        assert groups[..n][k] == groups[k];
      }
    }
    if Conflicting(files, groups[n]) {
      assert all == before + {n};
    } else {
      assert all == before;
    }
  }
}
