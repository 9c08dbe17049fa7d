/** Applying the hunks of a unified diff to a file's text.  Applying succeeds
    exactly when the hunks are an edit script for the file, and then gives the
    script's result. */
module HunkApplier {
  import opened Seqs

  datatype LineKind = Context | Delete | Add

  datatype HunkLine = HunkLine(kind: LineKind, text: string)

  datatype Hunk = Hunk(oldStart: nat, lines: seq<HunkLine>)

  /** Why a patch is refused: a hunk starts before the previous one ended, or a
      context or deleted line is not what the file has. */
  datatype Refusal = Overlap(oldStart: nat) | Mismatch(kind: LineKind, line: nat)

  /** `OutOfRange`: a hunk starts or ends past the end of the file, where slicing the lines fails. */
  datatype Outcome = Patched(body: string) | Refused(why: Refusal) | OutOfRange

  // ------------------------------------------------------------------------------------- lines

  /** Length of the first line, its newline included. */
  function LineLength(s: string): (n: nat)
    ensures n <= |s| && (s != "" ==> n > 0)
  {
    if s == "" then 0 else if s[0] == '\n' then 1 else 1 + LineLength(s[1..])
  }

  /** The lines of a text, each with its newline; the last one may lack it. */
  function SplitInclusive(s: string): seq<string> {
    if s == "" then [] else [s[..LineLength(s)]] + SplitInclusive(s[LineLength(s)..])
  }

  lemma {:induction false} SplitLosesNothing(s: string)
    ensures Flatten(SplitInclusive(s)) == s
  {
    if s != "" {
      var n := LineLength(s);
      SplitLosesNothing(s[n..]);
      SplitAt(s, n);
      assert SplitInclusive(s)[1..] == SplitInclusive(s[n..]);
    }
  }

  /** A newline-terminated line. */
  predicate IsLine(s: string) {
    s != "" && s[|s| - 1] == '\n' && forall i :: 0 <= i < |s| - 1 ==> s[i] != '\n'
  }

  lemma {:induction false} LineLengthOf(line: string, rest: string)
    requires IsLine(line)
    ensures LineLength(line + rest) == |line|
  {
    if |line| > 1 {
      assert (line + rest)[1..] == line[1..] + rest;
      LineLengthOf(line[1..], rest);
    }
  }

  /** Newline-terminated lines survive joining and splitting. */
  lemma {:induction false} SplitJoined(lines: seq<string>)
    requires forall i :: 0 <= i < |lines| ==> IsLine(lines[i])
    ensures SplitInclusive(Flatten(lines)) == lines
  {
    if lines != [] {
      var rest := Flatten(lines[1..]);
      LineLengthOf(lines[0], rest);
      PrefixOfConcat(lines[0], rest);
      SplitJoined(lines[1..]);
      HeadTail(lines);
    }
  }

  function TrimEol(s: string): string {
    if s != "" && (s[|s| - 1] == '\n' || s[|s| - 1] == '\r') then TrimEol(s[..|s| - 1]) else s
  }

  predicate LinesEqual(a: string, b: string) {
    TrimEol(a) == TrimEol(b)
  }

  function WithNewline(s: string): string {
    if s != "" && s[|s| - 1] == '\n' then s else s + "\n"
  }

  // ------------------------------------------------------------------- what applying means

  datatype Walk = Walked(out: string, idx: nat) | Stopped(why: Refusal)

  function LineAt(orig: seq<string>, i: nat): string {
    if i < |orig| then orig[i] else ""
  }

  /** The hunk's lines from file line `idx` on. */
  function WalkLines(orig: seq<string>, lines: seq<HunkLine>, idx: nat): Walk
    decreases |lines|
  {
    if lines == [] then Walked("", idx)
    else
      match lines[0].kind
      case Add => Before(WithNewline(lines[0].text), WalkLines(orig, lines[1..], idx))
      case Context =>
        if !LinesEqual(LineAt(orig, idx), lines[0].text) then Stopped(Mismatch(Context, idx + 1))
        else Before(LineAt(orig, idx), WalkLines(orig, lines[1..], idx + 1))
      case Delete =>
        if !LinesEqual(LineAt(orig, idx), lines[0].text) then Stopped(Mismatch(Delete, idx + 1))
        else WalkLines(orig, lines[1..], idx + 1)
  }

  function Before(front: string, w: Walk): Walk {
    match w
    case Walked(out, idx) => Walked(front + out, idx)
    case Stopped(why) => Stopped(why)
  }

  /** `saturating_sub(1)`: hunk lines are numbered from one. */
  function Start(h: Hunk): nat {
    if h.oldStart == 0 then 0 else h.oldStart - 1
  }

  function ApplyFrom(orig: seq<string>, hunks: seq<Hunk>, cursor: nat): Outcome
    decreases |hunks|
  {
    if hunks == [] then (if cursor <= |orig| then Patched(Flatten(orig[cursor..])) else OutOfRange)
    else
      var start := Start(hunks[0]);
      if start < cursor then Refused(Overlap(hunks[0].oldStart))
      else if start > |orig| then OutOfRange
      else
        match WalkLines(orig, hunks[0].lines, start)
        case Stopped(why) => Refused(why)
        case Walked(out, idx) => After(Flatten(orig[cursor..start]) + out, ApplyFrom(orig, hunks[1..], idx))
  }

  function After(front: string, r: Outcome): Outcome {
    match r
    case Patched(body) => Patched(front + body)
    case Refused(why) => r
    case OutOfRange => r
  }

  function Apply(original: string, hunks: seq<Hunk>): Outcome {
    if hunks == [] then Patched(original) else ApplyFrom(SplitInclusive(original), hunks, 0)
  }

  // ----------------------------------------------------------------------- the imperative form

  method Lines(s: string) returns (lines: seq<string>)
    ensures lines == SplitInclusive(s)
  {
    lines := [];
    var rest := s;
    while rest != ""
      invariant lines + SplitInclusive(rest) == SplitInclusive(s)
      decreases |rest|
    {
      var n := LineLength(rest);
      Reassociate(lines, [rest[..n]], SplitInclusive(rest[n..]));
      lines, rest := lines + [rest[..n]], rest[n..];
    }
  }

  lemma {:induction false} FlattenSnoc(lines: seq<string>, i: nat, j: nat)
    requires i <= j < |lines|
    ensures Flatten(lines[i..j + 1]) == Flatten(lines[i..j]) + lines[j]
  {
    assert lines[i..j + 1] == lines[i..j] + [lines[j]];
    FlattenConcat(lines[i..j], [lines[j]]);
    FlattenOne(lines[j]);
  }

  /** Copy the untouched lines from `from` up to `to`. */
  method CopyLines(orig: seq<string>, from: nat, to: nat, output: string) returns (longer: string)
    requires from <= to <= |orig|
    ensures longer == output + Flatten(orig[from..to])
  {
    longer := output;
    assert longer == output + Flatten(orig[from..from]);
    for i := from to to
      invariant longer == output + Flatten(orig[from..i])
    {
      FlattenSnoc(orig, from, i);
      Reassociate(output, Flatten(orig[from..i]), orig[i]);
      longer := longer + orig[i];
    }
  }

  lemma BeforeTwice(a: string, b: string, w: Walk)
    ensures Before(a, Before(b, w)) == Before(a + b, w)
    ensures Before("", w) == w
  {
    match w
    case Walked(out, _) =>
      Reassociate(a, b, out);
      assert "" + out == out;
    case Stopped(_) =>
  }

  method WalkHunk(orig: seq<string>, lines: seq<HunkLine>, start: nat) returns (w: Walk)
    ensures w == WalkLines(orig, lines, start)
  {
    var output, idx := "", start;
    BeforeTwice("", "", WalkLines(orig, lines, start));
    assert lines[0..] == lines;
    for i := 0 to |lines|
      invariant WalkLines(orig, lines, start) == Before(output, WalkLines(orig, lines[i..], idx))
    {
      var line := lines[i];
      assert lines[i..][0] == line && lines[i..][1..] == lines[i + 1..];
      match line.kind
      case Context =>
        var actual := LineAt(orig, idx);
        if !LinesEqual(actual, line.text) {
          return Stopped(Mismatch(Context, idx + 1));
        }
        BeforeTwice(output, actual, WalkLines(orig, lines[i + 1..], idx + 1));
        output := output + actual;
        idx := idx + 1;
      case Delete =>
        if !LinesEqual(LineAt(orig, idx), line.text) {
          return Stopped(Mismatch(Delete, idx + 1));
        }
        idx := idx + 1;
      case Add =>
        BeforeTwice(output, WithNewline(line.text), WalkLines(orig, lines[i + 1..], idx));
        output := output + line.text;
        if line.text == "" || line.text[|line.text| - 1] != '\n' {
          Reassociate(output[..|output| - |line.text|], line.text, "\n");
          output := output + "\n";
        }
    }
    assert lines[|lines|..] == [] && output + "" == output;
    return Walked(output, idx);
  }

  lemma AfterTwice(a: string, b: string, r: Outcome)
    ensures After(a, After(b, r)) == After(a + b, r)
    ensures After("", r) == r
  {
    if r.Patched? {
      Reassociate(a, b, r.body);
      assert "" + r.body == r.body;
    }
  }

  method ApplyHunks(original: string, hunks: seq<Hunk>) returns (r: Outcome)
    ensures r == Apply(original, hunks)
  {
    if |hunks| == 0 {
      return Patched(original);
    }
    var orig := Lines(original);
    var output := "";
    var cursor: nat := 0;
    AfterTwice("", "", ApplyFrom(orig, hunks, 0));
    assert hunks[0..] == hunks;
    for k := 0 to |hunks|
      invariant ApplyFrom(orig, hunks, 0) == After(output, ApplyFrom(orig, hunks[k..], cursor))
    {
      var hunk := hunks[k];
      assert hunks[k..][0] == hunk && hunks[k..][1..] == hunks[k + 1..];
      var start := if hunk.oldStart == 0 then 0 else hunk.oldStart - 1;
      if start < cursor {
        return Refused(Overlap(hunk.oldStart));
      }
      if start > |orig| {
        return OutOfRange;
      }
      ghost var prelude := Flatten(orig[cursor..start]);
      ghost var before := output;
      output := CopyLines(orig, cursor, start, output);
      var w := WalkHunk(orig, hunk.lines, start);
      if w.Stopped? {
        return Refused(w.why);
      }
      AfterTwice(before, prelude + w.out, ApplyFrom(orig, hunks[k + 1..], w.idx));
      Reassociate(before, prelude, w.out);
      output := output + w.out;
      cursor := w.idx;
    }
    assert hunks[|hunks|..] == [];
    if cursor > |orig| {
      return OutOfRange;
    }
    assert orig[cursor..|orig|] == orig[cursor..];
    output := CopyLines(orig, cursor, |orig|, output);
    return Patched(output);
  }
}
