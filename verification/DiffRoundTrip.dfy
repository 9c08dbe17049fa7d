/** The parser inverts a renderer of unified diffs, but for white space around
    paths, when no deleted line starts with "-- " and no added line with "++ ". */
module DiffRoundTrip {
  import opened Wrappers
  import opened Seqs
  import opened JsonText
  import opened HunkApplier
  import opened UnifiedDiff

  // ------------------------------------------------------------------------------ the renderer

  function Digit(d: nat): char
    requires d < 10
  {
    '0' + d as char
  }

  function Decimal(n: nat): string {
    if n < 10 then [Digit(n)] else Decimal(n / 10) + [Digit(n % 10)]
  }

  function Mark(k: LineKind): char {
    match k
    case Context => ' '
    case Delete => '-'
    case Add => '+'
  }

  /** A hunk line without its newline, behind its mark. */
  function ContentRaw(line: HunkLine): string {
    [Mark(line.kind)] + (if line.text == "" then "" else line.text[..|line.text| - 1])
  }

  function OldCount(lines: seq<HunkLine>): nat {
    if lines == [] then 0 else (if lines[0].kind == Add then 0 else 1) + OldCount(lines[1..])
  }

  function NewCount(lines: seq<HunkLine>): nat {
    if lines == [] then 0 else (if lines[0].kind == Delete then 0 else 1) + NewCount(lines[1..])
  }

  function HeaderRaw(h: Hunk, newStart: nat): string {
    "@@ " + ("-" + (Decimal(h.oldStart) + ("," + (Decimal(OldCount(h.lines)) + (" +" + (Decimal(newStart) +
      ("," + (Decimal(NewCount(h.lines)) + " @@"))))))))
  }

  function ContentRaws(lines: seq<HunkLine>): seq<string> {
    if lines == [] then [] else [ContentRaw(lines[0])] + ContentRaws(lines[1..])
  }

  /** Text the renderer can print on one line: it ends with its only newline. */
  ghost predicate Printable(h: Hunk) {
    h.oldStart < USIZE && forall i :: 0 <= i < |h.lines| ==> IsLine(h.lines[i].text)
  }

  ghost predicate AllPrintable(hunks: seq<Hunk>) {
    forall k :: 0 <= k < |hunks| ==> Printable(hunks[k])
  }

  ghost function HunksRaws(hunks: seq<Hunk>, shift: int): seq<string>
    requires AllPrintable(hunks)
  {
    if hunks == [] then []
    else
      var h := hunks[0];
      var newStart := if h.oldStart + shift < 0 then 0 else h.oldStart + shift;
      [HeaderRaw(h, newStart)]
        + (ContentRaws(h.lines) + HunksRaws(hunks[1..], shift + NewCount(h.lines) - OldCount(h.lines)))
  }

  ghost predicate PrintableGroup(g: Group) {
    '\n' !in g.path && AllPrintable(g.hunks)
  }

  ghost predicate PrintableGroups(groups: seq<Group>) {
    forall k {:trigger groups[k]} :: 0 <= k < |groups| ==> PrintableGroup(groups[k])
  }

  function FileHeader(path: string, isNew: bool): seq<string> {
    ["diff --git " + ("a/" + (path + (" b/" + path)))]
    + ((if isNew then ["new file mode 100644"] else [])
    + ([if isNew then "--- /dev/null" else "--- " + ("a/" + path)]
    + ["+++ b/" + path]))
  }

  ghost function GroupsRaws(groups: seq<Group>): seq<string>
    requires PrintableGroups(groups)
  {
    if groups == [] then []
    else FileHeader(groups[0].path, groups[0].isNew) + (HunksRaws(groups[0].hunks, 0) + GroupsRaws(groups[1..]))
  }

  /** Every line with its newline. */
  function Body(raws: seq<string>): string {
    if raws == [] then "" else raws[0] + ("\n" + Body(raws[1..]))
  }

  ghost function Render(groups: seq<Group>): string
    requires PrintableGroups(groups)
  {
    Body(GroupsRaws(groups))
  }

  // -------------------------------------------------------------------------- splitting it again

  ghost predicate OneLine(raw: string) {
    '\n' !in raw
  }

  lemma {:induction false} FirstNewlineOf(raw: string, rest: string)
    requires OneLine(raw)
    ensures '\n' in raw + ("\n" + rest) && FirstNewline(raw + ("\n" + rest)) == |raw|
  {
    var s := raw + ("\n" + rest);
    assert s[|raw|] == '\n';
    if raw != "" {
      assert s[0] == raw[0] != '\n';
      assert s[1..] == raw[1..] + ("\n" + rest);
      FirstNewlineOf(raw[1..], rest);
    }
  }

  lemma {:induction false} SegmentsOfBody(raws: seq<string>)
    requires forall i :: 0 <= i < |raws| ==> OneLine(raws[i])
    ensures Segments(Body(raws)) == raws + [""]
  {
    if raws != [] {
      var rest := Body(raws[1..]);
      FirstNewlineOf(raws[0], rest);
      var s := raws[0] + ("\n" + rest);
      PrefixOfConcat(raws[0], "\n" + rest);
      assert s[|raws[0]| + 1..] == rest;
      SegmentsOfBody(raws[1..]);
      HeadTail(raws);
      Reassociate([raws[0]], raws[1..], [""]);
    }
  }

  // -------------------------------------------------------------------------------- the numbers

  lemma {:induction false} DigitsThen(s: string, t: string, acc: nat, n: nat)
    requires Digits(s, acc) == Some(n)
    ensures Digits(s + t, acc) == Digits(t, n)
  {
    if s == "" {
      assert s + t == t;
    } else {
      assert (s + t)[1..] == s[1..] + t;
      DigitsThen(s[1..], t, 10 * acc + (s[0] as int - '0' as int), n);
    }
  }

  lemma {:induction false} DecimalRoundTrip(n: nat)
    ensures Digits(Decimal(n), 0) == Some(n)
    ensures Decimal(n) != "" && forall i :: 0 <= i < |Decimal(n)| ==> IsAsciiDigit(Decimal(n)[i])
  {
    if n < 10 {
      assert [Digit(n)][1..] == "";
    } else {
      DecimalRoundTrip(n / 10);
      DigitsThen(Decimal(n / 10), [Digit(n % 10)], 0, n / 10);
      assert [Digit(n % 10)][1..] == "";
    }
  }

  lemma {:induction false} FindStops(s: string, t: string, p: char -> bool)
    requires forall i :: 0 <= i < |s| ==> !p(s[i])
    requires t != "" && p(t[0])
    ensures Find(s + t, p) == |s|
  {
    if s == "" {
      assert s + t == t;
    } else {
      assert (s + t)[0] == s[0] && (s + t)[1..] == s[1..] + t;
      FindStops(s[1..], t, p);
    }
  }

  /** A line number is read up to a comma, a space or the end; one that does not fit a
      machine word makes the header malformed. */
  lemma OldStartRoundTrip(n: nat, rest: string)
    requires rest == "" || rest[0] == ',' || rest[0] == ' '
    ensures ParseOldStart("-" + (Decimal(n) + rest)) == if n < USIZE then Some(n) else None
  {
    hide Decimal;
    hide Find;
    hide Digits;
    hide ParseUsize;
    hide IsAsciiDigit;
    var number := Decimal(n);
    var s := "-" + (number + rest);
    DecimalRoundTrip(n);
    FindStops("", s, IsDash);
    PrefixOfConcat("-", number + rest);
    assert "" + s == s;
    DigitsEnd(number, rest);
    PrefixOfConcat(number, rest);
    NumberParses(number, n);
  }

  lemma NumberParses(number: string, n: nat)
    requires number != "" && IsAsciiDigit(number[0]) && Digits(number, 0) == Some(n)
    ensures ParseUsize(number) == if n < USIZE then Some(n) else None
  {
    hide Digits;
  }

  lemma DigitsEnd(number: string, rest: string)
    requires forall i :: 0 <= i < |number| ==> IsAsciiDigit(number[i])
    requires rest == "" || rest[0] == ',' || rest[0] == ' '
    ensures Find(number + rest, EndsNumber) == |number|
  {
    hide Find;
    if rest == "" {
      FindNothing(number, EndsNumber);
      assert number + rest == number;
    } else {
      FindStops(number, rest, EndsNumber);
    }
  }

  lemma {:induction false} FindNothing(s: string, p: char -> bool)
    requires forall i :: 0 <= i < |s| ==> !p(s[i])
    ensures Find(s, p) == |s|
  {
    if s != "" {
      FindNothing(s[1..], p);
    }
  }

  // ---------------------------------------------------------------------- the machine on one line

  lemma StepsConcat(st: State, a: seq<string>, b: seq<string>)
    ensures Steps(st, a + b) == match Steps(st, a) case None => None case Some(mid) => Steps(mid, b)
    decreases |a|
  {
    if a == [] {
      assert a + b == b;
    } else {
      var ab := a + b;
      assert ab[0] == a[0] && ab[1..] == a[1..] + b;
      var next := Step(st, a[0]);
      if next.Some? {
        StepsConcat(next.value, a[1..], b);
      }
    }
  }

  lemma NoSteps(st: State)
    ensures Steps(st, []) == Some(st)
  {
  }

  lemma StepsOne(st: State, raw: string)
    ensures Steps(st, [raw]) == Step(st, raw)
  {
    assert [raw][1..] == [];
  }

  lemma NotPrefix(p: string, raw: string, i: nat)
    requires i < |p| && (i >= |raw| || p[i] != raw[i])
    ensures !(p <= raw)
  {
  }

  /** Lines whose text would make their raw line look like metadata. */
  predicate Clashes(line: HunkLine) {
    (line.kind == Add && "++ " <= line.text) || (line.kind == Delete && "-- " <= line.text)
  }

  lemma ContentIsNotHeader(line: HunkLine)
    requires IsLine(line.text)
    ensures var raw := ContentRaw(line);
      && !("diff --git " <= raw) && !("new file mode " <= raw) && !("index " <= raw) && !("@@ " <= raw)
      && ("+++ b/" <= raw ==> "+++ " <= raw)
      && (("--- " <= raw || "+++ " <= raw) <==> Clashes(line))
      && Content(raw) == Some(line)
      && OneLine(raw)
  {
    hide Content;
    hide Clashes;
    ContentComesBack(line);
    ClashesIff(line);
    hide ContentRaw;
    var raw := ContentRaw(line);
    assert raw[0] == Mark(line.kind);
    NotPrefix("diff --git ", raw, 0);
    NotPrefix("new file mode ", raw, 0);
    NotPrefix("index ", raw, 0);
    NotPrefix("@@ ", raw, 0);
    if "+++ b/" <= raw {
      assert "+++ " == "+++ b/"[..4] <= raw;
    }
  }

  lemma ContentComesBack(line: HunkLine)
    requires IsLine(line.text)
    ensures var raw := ContentRaw(line);
      raw != "" && raw[0] == Mark(line.kind) && Content(raw) == Some(line) && OneLine(raw)
  {
    assert ContentRaw(line)[1..] + "\n" == line.text;
  }

  lemma ClashesIff(line: HunkLine)
    requires IsLine(line.text)
    ensures "--- " <= ContentRaw(line) || "+++ " <= ContentRaw(line) <==> Clashes(line)
  {
    hide ContentRaw;
    hide IsLine;
    MarkedPrefix('+', "++ ", line);
    MarkedPrefix('-', "-- ", line);
    assert ['+'] + "++ " == "+++ " && ['-'] + "-- " == "--- ";
  }

  lemma MarkedPrefix(mark: char, p: string, line: HunkLine)
    requires IsLine(line.text) && '\n' !in p
    ensures [mark] + p <= ContentRaw(line) <==> mark == Mark(line.kind) && p <= line.text
  {
    var raw := ContentRaw(line);
    var marked := [mark] + p;
    if marked <= raw {
      assert marked[0] == raw[0];
      forall i | 0 <= i < |p|
        ensures p[i] == line.text[i]
      {
        assert marked[i + 1] == raw[i + 1];
      }
    }
    if mark == Mark(line.kind) && p <= line.text {
      assert line.text[|line.text| - 1] == '\n';
      assert p != line.text by {
        assert '\n' in line.text;
      }
      assert forall i :: 0 <= i < |marked| ==> marked[i] == raw[i];
    }
  }

  /** Inside a hunk, a line that does not clash is appended to it. */
  lemma StepContent(st: State, line: HunkLine)
    requires IsLine(line.text) && st.hunk.Some?
    ensures !Clashes(line) ==>
      Step(st, ContentRaw(line)) == Some(st.(hunk := Some(st.hunk.value.(lines := st.hunk.value.lines + [line]))))
  {
    ContentIsNotHeader(line);
  }

  lemma StepHeader(st: State, h: Hunk, newStart: nat)
    requires h.oldStart < USIZE && st.current.Some?
    ensures Step(st, HeaderRaw(h, newStart))
         == Some(st.(current := Some(WithHunk(st.current.value, st.hunk)), hunk := Some(Hunk(h.oldStart, []))))
  {
    var raw := HeaderRaw(h, newStart);
    var rest := ","
      + (Decimal(OldCount(h.lines)) + (" +" + (Decimal(newStart) + ("," + (Decimal(NewCount(h.lines)) + " @@")))));
    PrefixOfConcat("@@ ", "-" + (Decimal(h.oldStart) + rest));
    assert raw == "@@ " + ("-" + (Decimal(h.oldStart) + rest));
    assert raw[0] == '@';
    NotPrefix("diff --git ", raw, 0);
    NotPrefix("new file mode ", raw, 0);
    NotPrefix("+++ b/", raw, 0);
    NotPrefix("--- ", raw, 0);
    NotPrefix("+++ ", raw, 0);
    NotPrefix("index ", raw, 0);
    OldStartRoundTrip(h.oldStart, rest);
  }

  lemma StepPath(st: State, path: string)
    ensures Step(st, "+++ b/" + path) == Some(st.(current := Some(Group(Trim(path), st.pending, [])), pending := false))
  {
    var raw := "+++ b/" + path;
    PrefixOfConcat("+++ b/", path);
    assert raw[0] == '+';
    NotPrefix("diff --git ", raw, 0);
    NotPrefix("new file mode ", raw, 0);
  }

  lemma StepDiff(st: State, tail: string)
    ensures Step(st, "diff --git " + tail) == Some(Flush(st).(pending := false))
  {
  }

  lemma StepOldName(st: State, tail: string)
    ensures Step(st, "--- " + tail) == Some(st)
  {
    var raw := "--- " + tail;
    assert raw[0] == '-';
    NotPrefix("diff --git ", raw, 0);
    NotPrefix("new file mode ", raw, 0);
    NotPrefix("+++ b/", raw, 0);
  }

  lemma StepNewFile(st: State)
    ensures Step(st, "new file mode 100644") == Some(st.(pending := true))
  {
    var raw := "new file mode 100644";
    assert raw[0] == 'n';
    NotPrefix("diff --git ", raw, 0);
    assert "new file mode " == raw[..14];
  }

  // ------------------------------------------------------------------ the machine on whole groups

  predicate AnyClash(lines: seq<HunkLine>) {
    exists i :: 0 <= i < |lines| && Clashes(lines[i])
  }

  predicate GroupClashes(g: Group) {
    exists k :: 0 <= k < |g.hunks| && AnyClash(g.hunks[k].lines)
  }

  lemma {:induction false} StepsContent(st: State, lines: seq<HunkLine>)
    requires st.hunk.Some? && !AnyClash(lines)
    requires forall i :: 0 <= i < |lines| ==> IsLine(lines[i].text)
    ensures Steps(st, ContentRaws(lines))
         == Some(st.(hunk := Some(st.hunk.value.(lines := st.hunk.value.lines + lines))))
    decreases |lines|
  {
    if lines == [] {
      assert st.hunk.value.lines + [] == st.hunk.value.lines;
    } else {
      var next := st.(hunk := Some(st.hunk.value.(lines := st.hunk.value.lines + [lines[0]])));
      StepContent(st, lines[0]);
      assert forall i :: 0 <= i < |lines[1..]| ==> lines[1..][i] == lines[i + 1];
      StepsContent(next, lines[1..]);
      assert ContentRaws(lines)[0] == ContentRaw(lines[0]) && ContentRaws(lines)[1..] == ContentRaws(lines[1..]);
      HeadTail(lines);
      Reassociate(st.hunk.value.lines, [lines[0]], lines[1..]);
    }
  }

  /** The group the machine is working on, its open hunk included. */
  function Held(st: State): Group
    requires st.current.Some?
  {
    WithHunk(st.current.value, st.hunk)
  }

  lemma {:induction false} StepsHunks(st: State, hunks: seq<Hunk>, shift: int) returns (after: State)
    requires st.current.Some? && AllPrintable(hunks)
    requires forall k :: 0 <= k < |hunks| ==> !AnyClash(hunks[k].lines)
    ensures Steps(st, HunksRaws(hunks, shift)) == Some(after)
    ensures after.groups == st.groups && after.pending == st.pending && after.current.Some?
    ensures Held(after) == Held(st).(hunks := Held(st).hunks + hunks)
    decreases |hunks|
  {
    hide HeaderRaw;
    hide ContentRaws;
    hide Steps;
    if hunks == [] {
      NoSteps(st);
      after := st;
      assert Held(st).hunks + [] == Held(st).hunks;
    } else {
      var h := hunks[0];
      assert Printable(h);
      var newStart := if h.oldStart + shift < 0 then 0 else h.oldStart + shift;
      var more := shift + NewCount(h.lines) - OldCount(h.lines);
      var first, rest := [HeaderRaw(h, newStart)] + ContentRaws(h.lines), HunksRaws(hunks[1..], more);
      StepsHunk(st, h, newStart);
      var next := st.(current := Some(Held(st)), hunk := Some(h));
      after := StepsHunks(next, hunks[1..], more);
      StepsConcat(st, first, rest);
      Reassociate([HeaderRaw(h, newStart)], ContentRaws(h.lines), rest);
      HeadTail(hunks);
      Reassociate(Held(st).hunks, [h], hunks[1..]);
    }
  }

  /** A whole hunk: the one before it is put away, and this one is open. */
  lemma StepsHunk(st: State, h: Hunk, newStart: nat)
    requires st.current.Some? && Printable(h) && !AnyClash(h.lines)
    ensures Steps(st, [HeaderRaw(h, newStart)] + ContentRaws(h.lines))
         == Some(st.(current := Some(Held(st)), hunk := Some(h)))
  {
    hide HeaderRaw;
    var entered := st.(current := Some(Held(st)), hunk := Some(Hunk(h.oldStart, [])));
    StepHeader(st, h, newStart);
    StepsOne(st, HeaderRaw(h, newStart));
    StepsContent(entered, h.lines);
    assert [] + h.lines == h.lines;
    StepsConcat(st, [HeaderRaw(h, newStart)], ContentRaws(h.lines));
  }

  lemma StepsFileHeader(st: State, path: string, isNew: bool)
    ensures Steps(st, FileHeader(path, isNew))
         == Some(Flush(st).(current := Some(Group(Trim(path), isNew, [])), pending := false))
  {
    var tail := "a/" + (path + (" b/" + path));
    var s1 := Flush(st).(pending := false);
    var newLine := if isNew then ["new file mode 100644"] else [];
    var s2 := s1.(pending := isNew);
    var oldName := if isNew then "--- /dev/null" else "--- " + ("a/" + path);
    StepDiff(st, tail);
    StepsOne(st, "diff --git " + tail);
    StepNewFile(s1);
    StepsOne(s1, "new file mode 100644");
    assert Steps(s1, newLine) == Some(s2);
    assert "--- /dev/null" == "--- " + "/dev/null";
    StepOldName(s2, if isNew then "/dev/null" else "a/" + path);
    StepsOne(s2, oldName);
    StepPath(s2, path);
    StepsOne(s2, "+++ b/" + path);
    StepsConcat(s2, [oldName], ["+++ b/" + path]);
    StepsConcat(s1, newLine, [oldName] + ["+++ b/" + path]);
    StepsConcat(st, ["diff --git " + tail], newLine + ([oldName] + ["+++ b/" + path]));
  }

  /** The group as the parser reads it: the path loses the white space around it. */
  function Read(g: Group): Group {
    g.(path := Trim(g.path))
  }

  function ReadAll(groups: seq<Group>): (r: seq<Group>)
    ensures |r| == |groups| && forall k :: 0 <= k < |groups| ==> r[k] == Read(groups[k])
  {
    seq(|groups|, k requires 0 <= k < |groups| => Read(groups[k]))
  }

  lemma {:induction false} StepsGroups(st: State, groups: seq<Group>) returns (after: State)
    requires PrintableGroups(groups) && (st.current.None? ==> st.hunk.None?)
    requires forall k :: 0 <= k < |groups| ==> !GroupClashes(groups[k])
    ensures Steps(st, GroupsRaws(groups)) == Some(after)
    ensures Flush(after).groups == Flush(st).groups + ReadAll(groups)
    ensures after.current.None? ==> after.hunk.None?
    decreases |groups|
  {
    hide Steps;
    hide Flush;
    hide HunksRaws;
    hide FileHeader;
    if groups == [] {
      NoSteps(st);
      after := st;
      assert Flush(st).groups + ReadAll(groups) == Flush(st).groups;
    } else {
      var g := groups[0];
      assert PrintableGroup(g) && !GroupClashes(g);
      var mid := StepsGroup(st, g);
      after := StepsGroups(mid, groups[1..]);
      var front := FileHeader(g.path, g.isNew) + HunksRaws(g.hunks, 0);
      StepsConcat(st, front, GroupsRaws(groups[1..]));
      Reassociate(FileHeader(g.path, g.isNew), HunksRaws(g.hunks, 0), GroupsRaws(groups[1..]));
      assert ReadAll(groups) == [Read(g)] + ReadAll(groups[1..]);
      Reassociate(Flush(st).groups, [Read(g)], ReadAll(groups[1..]));
    }
  }

  lemma StepsGroup(st: State, g: Group) returns (after: State)
    requires PrintableGroup(g) && !GroupClashes(g) && (st.current.None? ==> st.hunk.None?)
    ensures Steps(st, FileHeader(g.path, g.isNew) + HunksRaws(g.hunks, 0)) == Some(after)
    ensures Flush(after).groups == Flush(st).groups + [Read(g)] && after.current.Some?
  {
    hide Steps;
    hide HunksRaws;
    hide FileHeader;
    StepsFileHeader(st, g.path, g.isNew);
    var begun := Flush(st).(current := Some(Group(Trim(g.path), g.isNew, [])), pending := false);
    after := StepsHunks(begun, g.hunks, 0);
    assert [] + g.hunks == g.hunks;
    StepsConcat(st, FileHeader(g.path, g.isNew), HunksRaws(g.hunks, 0));
  }

  // --------------------------------------------------------------------- rendered lines are lines

  lemma {:induction false} DecimalOneLine(n: nat)
    ensures OneLine(Decimal(n))
  {
    if n >= 10 {
      DecimalOneLine(n / 10);
    }
  }

  lemma HeaderOneLine(h: Hunk, newStart: nat)
    ensures OneLine(HeaderRaw(h, newStart))
  {
    DecimalOneLine(h.oldStart);
    DecimalOneLine(OldCount(h.lines));
    DecimalOneLine(newStart);
    DecimalOneLine(NewCount(h.lines));
  }

  ghost predicate AllOneLine(raws: seq<string>) {
    forall i :: 0 <= i < |raws| ==> OneLine(raws[i])
  }

  lemma {:induction false} ContentOneLine(lines: seq<HunkLine>)
    requires forall i :: 0 <= i < |lines| ==> IsLine(lines[i].text)
    ensures AllOneLine(ContentRaws(lines))
    decreases |lines|
  {
    if lines != [] {
      ContentIsNotHeader(lines[0]);
      ContentOneLine(lines[1..]);
    }
  }

  lemma {:induction false} HunksOneLine(hunks: seq<Hunk>, shift: int)
    requires AllPrintable(hunks)
    ensures AllOneLine(HunksRaws(hunks, shift))
    decreases |hunks|
  {
    hide HeaderRaw;
    hide ContentRaws;
    hide OneLine;
    if hunks != [] {
      var h := hunks[0];
      assert Printable(h);
      HeaderOneLine(h, if h.oldStart + shift < 0 then 0 else h.oldStart + shift);
      ContentOneLine(h.lines);
      HunksOneLine(hunks[1..], shift + NewCount(h.lines) - OldCount(h.lines));
    }
  }

  lemma {:induction false} GroupsOneLine(groups: seq<Group>)
    requires PrintableGroups(groups)
    ensures AllOneLine(GroupsRaws(groups))
    decreases |groups|
  {
    if groups != [] {
      assert PrintableGroup(groups[0]);
      HunksOneLine(groups[0].hunks, 0);
      GroupsOneLine(groups[1..]);
      FileHeaderOneLine(groups[0].path, groups[0].isNew);
    }
  }

  lemma FileHeaderOneLine(path: string, isNew: bool)
    requires OneLine(path)
    ensures AllOneLine(FileHeader(path, isNew))
  {
  }

  /** Without clashing lines, parsing what was rendered gives the groups back, but
      for white space around their paths. */
  lemma ParseInvertsRender(groups: seq<Group>)
    requires PrintableGroups(groups)
    requires forall k :: 0 <= k < |groups| ==> !GroupClashes(groups[k])
    ensures Parse(Render(groups)) == Some(ReadAll(groups))
  {
    GroupsOneLine(groups);
    SegmentsOfBody(GroupsRaws(groups));
    var after := StepsGroups(START, groups);
    StepsOne(after, "");
    EmptyStep(after);
    StepsConcat(START, GroupsRaws(groups), [""]);
    assert [] + ReadAll(groups) == ReadAll(groups);
  }

  lemma ReadIsSame(groups: seq<Group>)
    ensures ReadAll(groups) == groups <==> forall k :: 0 <= k < |groups| ==> Trim(groups[k].path) == groups[k].path
  {
    if forall k :: 0 <= k < |groups| ==> Trim(groups[k].path) == groups[k].path {
      assert forall k :: 0 <= k < |groups| ==> Read(groups[k]) == groups[k];
    } else {
      var k :| 0 <= k < |groups| && Trim(groups[k].path) != groups[k].path;
      assert ReadAll(groups)[k] != groups[k];
    }
  }

  lemma EmptyStep(st: State)
    ensures Step(st, "") == Some(st)
  {
  }
}
