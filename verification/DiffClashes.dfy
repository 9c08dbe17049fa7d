/** The converse of the diff round trip: a line that looks like metadata is lost,
    so the parse of the rendering is then a different diff. */
module DiffClashes {
  import opened Wrappers
  import opened Seqs
  import opened HunkApplier
  import opened UnifiedDiff
  import opened DiffRoundTrip

  // ------------------------------------------------------------ how many hunk lines are around

  function HunksTotal(hunks: seq<Hunk>): nat {
    if hunks == [] then 0 else |hunks[0].lines| + HunksTotal(hunks[1..])
  }

  function GroupsTotal(groups: seq<Group>): nat {
    if groups == [] then 0 else HunksTotal(groups[0].hunks) + GroupsTotal(groups[1..])
  }

  function OpenTotal(hunk: Option<Hunk>): nat {
    match hunk
    case None => 0
    case Some(h) => |h.lines|
  }

  function CurrentTotal(current: Option<Group>): nat {
    match current
    case None => 0
    case Some(g) => HunksTotal(g.hunks)
  }

  function Total(st: State): nat {
    GroupsTotal(st.groups) + CurrentTotal(st.current) + OpenTotal(st.hunk)
  }

  lemma {:induction false} HunksTotalSnoc(hunks: seq<Hunk>, h: Hunk)
    ensures HunksTotal(hunks + [h]) == HunksTotal(hunks) + |h.lines|
  {
    if hunks == [] {
      assert hunks + [h] == [h] && [h][1..] == [];
    } else {
      assert (hunks + [h])[1..] == hunks[1..] + [h];
      HunksTotalSnoc(hunks[1..], h);
    }
  }

  lemma {:induction false} GroupsTotalSnoc(groups: seq<Group>, g: Group)
    ensures GroupsTotal(groups + [g]) == GroupsTotal(groups) + HunksTotal(g.hunks)
  {
    if groups == [] {
      assert groups + [g] == [g] && [g][1..] == [];
    } else {
      assert (groups + [g])[1..] == groups[1..] + [g];
      GroupsTotalSnoc(groups[1..], g);
    }
  }

  lemma WithHunkTotal(g: Group, hunk: Option<Hunk>)
    ensures HunksTotal(WithHunk(g, hunk).hunks) == HunksTotal(g.hunks) + OpenTotal(hunk)
  {
    if hunk.Some? {
      HunksTotalSnoc(g.hunks, hunk.value);
    }
  }

  lemma FlushKeepsTotal(st: State)
    ensures Total(Flush(st)) == Total(st)
  {
    if st.current.Some? {
      WithHunkTotal(st.current.value, st.hunk);
      GroupsTotalSnoc(st.groups, WithHunk(st.current.value, st.hunk));
    }
  }

  // ----------------------------------------------------------- only content lines add hunk lines

  predicate IsHeader(raw: string) {
    "diff --git " <= raw || "new file mode " <= raw || "+++ b/" <= raw || Metadata(raw) || "@@ " <= raw
  }

  function Counts(raw: string): nat {
    if !IsHeader(raw) && Content(raw).Some? then 1 else 0
  }

  function CountAll(raws: seq<string>): nat {
    if raws == [] then 0 else Counts(raws[0]) + CountAll(raws[1..])
  }

  lemma {:induction false} CountConcat(a: seq<string>, b: seq<string>)
    ensures CountAll(a + b) == CountAll(a) + CountAll(b)
    decreases |a|
  {
    if a == [] {
      assert a + b == b;
    } else {
      assert (a + b)[1..] == a[1..] + b;
      CountConcat(a[1..], b);
    }
  }

  lemma CountOne(raw: string)
    ensures CountAll([raw]) == Counts(raw)
  {
    assert [raw][1..] == [];
  }

  lemma StepAddsAtMost(st: State, raw: string)
    ensures Step(st, raw).Some? ==> Total(Step(st, raw).value) <= Total(st) + Counts(raw)
  {
    hide Flush;
    hide WithHunk;
    hide Trim;
    hide ParseOldStart;
    hide GroupsTotal;
    hide HunksTotal;
    FlushKeepsTotal(st);
    NoHunks();
    if st.current.Some? {
      WithHunkTotal(st.current.value, st.hunk);
    }
  }

  lemma NoHunks()
    ensures HunksTotal([]) == 0
  {
  }

  lemma {:induction false} StepsAddAtMost(st: State, raws: seq<string>)
    ensures Steps(st, raws).Some? ==> Total(Steps(st, raws).value) <= Total(st) + CountAll(raws)
    decreases |raws|
  {
    if raws != [] {
      StepAddsAtMost(st, raws[0]);
      if Step(st, raws[0]).Some? {
        StepsAddAtMost(Step(st, raws[0]).value, raws[1..]);
      }
    }
  }

  // -------------------------------------------------------------- what a rendering has to offer

  function ClashCount(lines: seq<HunkLine>): nat {
    if lines == [] then 0 else (if Clashes(lines[0]) then 1 else 0) + ClashCount(lines[1..])
  }

  function HunksClashes(hunks: seq<Hunk>): nat {
    if hunks == [] then 0 else ClashCount(hunks[0].lines) + HunksClashes(hunks[1..])
  }

  function GroupsClashes(groups: seq<Group>): nat {
    if groups == [] then 0 else HunksClashes(groups[0].hunks) + GroupsClashes(groups[1..])
  }

  lemma ContentCounts(line: HunkLine)
    requires IsLine(line.text)
    ensures Counts(ContentRaw(line)) == if Clashes(line) then 0 else 1
  {
    ContentIsNotHeader(line);
  }

  lemma {:induction false} ContentsCount(lines: seq<HunkLine>)
    requires forall i :: 0 <= i < |lines| ==> IsLine(lines[i].text)
    ensures CountAll(ContentRaws(lines)) + ClashCount(lines) == |lines|
    decreases |lines|
  {
    if lines != [] {
      ContentCounts(lines[0]);
      assert forall i :: 0 <= i < |lines[1..]| ==> lines[1..][i] == lines[i + 1];
      ContentsCount(lines[1..]);
      assert ContentRaws(lines)[1..] == ContentRaws(lines[1..]);
    }
  }

  lemma HeaderRawCounts(h: Hunk, newStart: nat)
    ensures Counts(HeaderRaw(h, newStart)) == 0
  {
  }

  lemma OneHunkCounts(h: Hunk, newStart: nat, rest: seq<string>)
    requires Printable(h)
    ensures CountAll([HeaderRaw(h, newStart)] + (ContentRaws(h.lines) + rest)) + ClashCount(h.lines)
      == |h.lines| + CountAll(rest)
  {
    hide HeaderRaw;
    hide ContentRaws;
    hide CountAll;
    hide Counts;
    HeaderRawCounts(h, newStart);
    ContentsCount(h.lines);
    CountOne(HeaderRaw(h, newStart));
    CountConcat(ContentRaws(h.lines), rest);
    CountConcat([HeaderRaw(h, newStart)], ContentRaws(h.lines) + rest);
  }

  lemma FirstHunkRaws(hunks: seq<Hunk>, shift: int) returns (newStart: nat, more: int)
    requires AllPrintable(hunks) && hunks != []
    ensures Printable(hunks[0]) && AllPrintable(hunks[1..])
    ensures HunksRaws(hunks, shift)
      == [HeaderRaw(hunks[0], newStart)] + (ContentRaws(hunks[0].lines) + HunksRaws(hunks[1..], more))
  {
    hide HeaderRaw;
    hide ContentRaws;
    var h := hunks[0];
    assert Printable(h);
    newStart := if h.oldStart + shift < 0 then 0 else h.oldStart + shift;
    more := shift + NewCount(h.lines) - OldCount(h.lines);
  }

  lemma {:induction false} HunksCount(hunks: seq<Hunk>, shift: int)
    requires AllPrintable(hunks)
    ensures CountAll(HunksRaws(hunks, shift)) + HunksClashes(hunks) == HunksTotal(hunks)
    decreases |hunks|
  {
    hide HeaderRaw;
    hide ContentRaws;
    hide ClashCount;
    if hunks != [] {
      hide CountAll;
      hide HunksRaws;
      hide AllPrintable;
      var newStart, more := FirstHunkRaws(hunks, shift);
      HunksCount(hunks[1..], more);
      OneHunkCounts(hunks[0], newStart, HunksRaws(hunks[1..], more));
    }
  }

  lemma FileHeaderCounts(path: string, isNew: bool)
    ensures CountAll(FileHeader(path, isNew)) == 0
  {
    var name := "diff --git " + ("a/" + (path + (" b/" + path)));
    var newLine := if isNew then ["new file mode 100644"] else [];
    var oldName := if isNew then "--- /dev/null" else "--- " + ("a/" + path);
    assert "--- " <= oldName && "new file mode " <= "new file mode 100644";
    CountOne(name);
    CountOne("new file mode 100644");
    CountOne(oldName);
    CountOne("+++ b/" + path);
    CountConcat([oldName], ["+++ b/" + path]);
    CountConcat(newLine, [oldName] + ["+++ b/" + path]);
    CountConcat([name], newLine + ([oldName] + ["+++ b/" + path]));
  }

  lemma {:induction false} GroupsCount(groups: seq<Group>)
    requires PrintableGroups(groups)
    ensures CountAll(GroupsRaws(groups)) + GroupsClashes(groups) == GroupsTotal(groups)
    decreases |groups|
  {
    if groups != [] {
      var g := groups[0];
      assert PrintableGroup(g);
      FileHeaderCounts(g.path, g.isNew);
      HunksCount(g.hunks, 0);
      GroupsCount(groups[1..]);
      CountConcat(HunksRaws(g.hunks, 0), GroupsRaws(groups[1..]));
      CountConcat(FileHeader(g.path, g.isNew), HunksRaws(g.hunks, 0) + GroupsRaws(groups[1..]));
    }
  }

  lemma {:induction false} ClashIsCounted(lines: seq<HunkLine>)
    ensures ClashCount(lines) == 0 <==> !AnyClash(lines)
    decreases |lines|
  {
    if lines != [] {
      ClashIsCounted(lines[1..]);
      assert forall i :: 0 <= i < |lines[1..]| ==> lines[1..][i] == lines[i + 1];
      assert forall i :: 1 <= i < |lines| ==> lines[i] == lines[1..][i - 1];
    }
  }

  lemma {:induction false} HunksClashIsCounted(hunks: seq<Hunk>)
    ensures HunksClashes(hunks) == 0 <==> forall k :: 0 <= k < |hunks| ==> !AnyClash(hunks[k].lines)
    decreases |hunks|
  {
    if hunks != [] {
      ClashIsCounted(hunks[0].lines);
      HunksClashIsCounted(hunks[1..]);
      assert forall i :: 0 <= i < |hunks[1..]| ==> hunks[1..][i] == hunks[i + 1];
      assert forall i :: 1 <= i < |hunks| ==> hunks[i] == hunks[1..][i - 1];
    }
  }

  lemma {:induction false} GroupsClashIsCounted(groups: seq<Group>)
    ensures GroupsClashes(groups) == 0 <==> forall k :: 0 <= k < |groups| ==> !GroupClashes(groups[k])
    decreases |groups|
  {
    if groups != [] {
      HunksClashIsCounted(groups[0].hunks);
      GroupsClashIsCounted(groups[1..]);
      assert forall i :: 0 <= i < |groups[1..]| ==> groups[1..][i] == groups[i + 1];
      assert forall i :: 1 <= i < |groups| ==> groups[i] == groups[1..][i - 1];
    }
  }

  /** Parsing inverts rendering exactly when no line clashes with the metadata marks
      and no path has white space at an end. */
  lemma ParseInvertsRenderIff(groups: seq<Group>)
    requires PrintableGroups(groups)
    ensures Parse(Render(groups)) == Some(groups)
      <==> forall k :: 0 <= k < |groups| ==> !GroupClashes(groups[k]) && Trim(groups[k].path) == groups[k].path
  {
    hide Parse;
    hide Render;
    hide PrintableGroups;
    hide ReadAll;
    hide GroupClashes;
    hide Trim;
    ReadIsSame(groups);
    if forall k :: 0 <= k < |groups| ==> !GroupClashes(groups[k]) {
      ParseInvertsRender(groups);
    }
    if Parse(Render(groups)) == Some(groups) {
      NoneClash(groups);
      ParseInvertsRender(groups);
    }
  }

  lemma NoneClash(groups: seq<Group>)
    requires PrintableGroups(groups) && Parse(Render(groups)) == Some(groups)
    ensures forall k :: 0 <= k < |groups| ==> !GroupClashes(groups[k])
  {
    hide PrintableGroups;
    hide GroupClashes;
    hide Flush;
    var raws := GroupsRaws(groups);
    GroupsOneLine(groups);
    SegmentsOfBody(raws);
    StepsAddAtMost(START, raws + [""]);
    FlushKeepsTotal(Steps(START, raws + [""]).value);
    CountConcat(raws, [""]);
    CountOne("");
    GroupsCount(groups);
    GroupsClashIsCounted(groups);
  }

  /** A deleted line that starts with two dashes and a space is read as a file header. */
  lemma DeletedDashesAreLost()
    ensures var groups := [Group("f", false, [Hunk(1, [HunkLine(Delete, "-- a\n")])])];
      PrintableGroups(groups) && Parse(Render(groups)) != Some(groups)
  {
    var line := HunkLine(Delete, "-- a\n");
    var h := Hunk(1, [line]);
    var g := Group("f", false, [h]);
    assert IsLine(line.text);
    assert Printable(h) && g.hunks[0] == h && PrintableGroup(g);
    assert Clashes(h.lines[0]) && AnyClash(g.hunks[0].lines) && GroupClashes([g][0]);
    ParseInvertsRenderIff([g]);
  }

  /** A path that ends in a space comes back without it. */
  lemma PathLosesSpace()
    ensures var groups := [Group("f ", false, [])];
      && PrintableGroups(groups) && !GroupClashes(groups[0])
      && Parse(Render(groups)) == Some([Group("f", false, [])])
  {
    var g := Group("f ", false, []);
    assert PrintableGroup(g) && !GroupClashes([g][0]);
    assert TrimStart("f ") == "f " && "f "[..1] == "f" && TrimEnd("f") == "f" && TrimEnd("f ") == "f";
    ParseInvertsRender([g]);
    assert ReadAll([g]) == [Group("f", false, [])];
  }

  // ----------------------------------------------------------------------- lines that mean nothing

  /** A line that starts like none of the lines a diff is made of, such as the note that
      a file does not end in a newline. */
  predicate Meaningless(raw: string) {
    raw == "" || (raw[0] != '+' && raw[0] != '-' && raw[0] != ' ' && raw[0] != '@'
      && raw[0] != 'd' && raw[0] != 'n' && raw[0] != 'i')
  }

  lemma MeaninglessStep(st: State, raw: string)
    requires Meaningless(raw)
    ensures Step(st, raw) == Some(st)
  {
    NotPrefix("diff --git ", raw, 0);
    NotPrefix("new file mode ", raw, 0);
    NotPrefix("+++ b/", raw, 0);
    NotPrefix("--- ", raw, 0);
    NotPrefix("+++ ", raw, 0);
    NotPrefix("index ", raw, 0);
    NotPrefix("@@ ", raw, 0);
  }

  /** Such a line may stand anywhere, inside a hunk too, and changes nothing. */
  lemma MeaninglessIsSkipped(before: seq<string>, raw: string, after: seq<string>)
    requires Meaningless(raw) && AllOneLine(before) && OneLine(raw) && AllOneLine(after)
    ensures Parse(Body(before + ([raw] + after))) == Parse(Body(before + after))
  {
    hide Step;
    SegmentsOfBody(before + ([raw] + after));
    SegmentsOfBody(before + after);
    Reassociate(before, [raw] + after, [""]);
    Reassociate([raw], after, [""]);
    Reassociate(before, after, [""]);
    StepsConcat(START, before, [raw] + (after + [""]));
    StepsConcat(START, before, after + [""]);
    if Steps(START, before).Some? {
      var mid := Steps(START, before).value;
      MeaninglessStep(mid, raw);
      StepsOne(mid, raw);
      StepsConcat(mid, [raw], after + [""]);
    }
  }

  /** A hunk header without a line number makes a diff malformed once a file has begun,
      whatever follows; before that it means nothing. */
  lemma HeaderWithoutNumber(before: seq<string>, rest: string, after: seq<string>)
    requires AllOneLine(before) && OneLine(rest) && AllOneLine(after) && '-' !in rest
    requires Steps(START, before).Some?
    ensures Parse(Body(before + (["@@ " + rest] + after))) ==
      if Steps(START, before).value.current.Some? then None else Parse(Body(before + after))
  {
    hide Step;
    var raw, mid := "@@ " + rest, Steps(START, before).value;
    SegmentsOfBody(before + ([raw] + after));
    SegmentsOfBody(before + after);
    Reassociate(before, [raw] + after, [""]);
    Reassociate([raw], after, [""]);
    Reassociate(before, after, [""]);
    StepsConcat(START, before, [raw] + (after + [""]));
    StepsConcat(START, before, after + [""]);
    BadHeaderStep(mid, rest);
    StepsOne(mid, raw);
    StepsConcat(mid, [raw], after + [""]);
  }

  lemma BadHeaderStep(st: State, rest: string)
    requires '-' !in rest
    ensures Step(st, "@@ " + rest) == if st.current.Some? then None else Some(st)
  {
    var raw := "@@ " + rest;
    NotPrefix("diff --git ", raw, 0);
    NotPrefix("new file mode ", raw, 0);
    NotPrefix("+++ b/", raw, 0);
    NotPrefix("--- ", raw, 0);
    NotPrefix("+++ ", raw, 0);
    NotPrefix("index ", raw, 0);
    PrefixOfConcat("@@ ", rest);
    FindNothing(rest, IsDash);
  }
}
