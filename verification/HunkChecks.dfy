/** What applying hunks checks, said without the walk: which lines must be the
    file's, and where. */
module HunkChecks {
  import opened Seqs
  import opened HunkApplier

  // ------------------------------------------------------------------------------ equal lines

  /** Carriage returns and newlines only. */
  predicate Endings(s: string) {
    forall i :: 0 <= i < |s| ==> s[i] == '\r' || s[i] == '\n'
  }

  /** The same text, before endings that may differ. */
  ghost predicate SameLine(a: string, b: string) {
    exists c: string, x: string, y: string :: a == c + x && b == c + y && Endings(x) && Endings(y)
  }

  lemma {:induction false} TrimTakesEndings(s: string) returns (x: string)
    ensures s == TrimEol(s) + x && Endings(x)
  {
    if s != "" && (s[|s| - 1] == '\n' || s[|s| - 1] == '\r') {
      var y := TrimTakesEndings(s[..|s| - 1]);
      x := y + [s[|s| - 1]];
      assert s == s[..|s| - 1] + [s[|s| - 1]];
      Reassociate(TrimEol(s), y, [s[|s| - 1]]);
    } else {
      x := "";
    }
  }

  lemma {:induction false} EndingsDoNotMatter(c: string, x: string)
    requires Endings(x)
    ensures TrimEol(c + x) == TrimEol(c)
    decreases |x|
  {
    if x == "" {
      assert c + x == c;
    } else {
      var n := |x| - 1;
      assert (c + x)[..|c| + n] == c + x[..n];
      EndingsDoNotMatter(c, x[..n]);
    }
  }

  /** Lines count as equal exactly when they differ in their endings at most. */
  lemma EqualIsSame(a: string, b: string)
    ensures LinesEqual(a, b) <==> SameLine(a, b)
  {
    if LinesEqual(a, b) {
      var x := TrimTakesEndings(a);
      var y := TrimTakesEndings(b);
    }
    if c: string, x: string, y: string :| a == c + x && b == c + y && Endings(x) && Endings(y) {
      EndingsDoNotMatter(c, x);
      EndingsDoNotMatter(c, y);
    }
  }

  // ---------------------------------------------------------------------------------- one hunk

  /** How many of the first `i` lines of a hunk are lines of the old file. */
  function OldBefore(lines: seq<HunkLine>, i: nat): nat
    requires i <= |lines|
  {
    if i == 0 then 0 else OldBefore(lines, i - 1) + if lines[i - 1].kind == Add then 0 else 1
  }

  /** Line `i` of a hunk at file line `start` is the file's line at its place, if it shows one. */
  ghost predicate Matches(orig: seq<string>, lines: seq<HunkLine>, start: nat, i: nat)
    requires i < |lines|
  {
    lines[i].kind != Add ==>
      var at := start + OldBefore(lines, i);
      SameLine(if at < |orig| then orig[at] else "", lines[i].text)
  }

  lemma {:induction false} OldBeforeTail(lines: seq<HunkLine>, i: nat)
    requires i < |lines|
    ensures OldBefore(lines, i + 1) == (if lines[0].kind == Add then 0 else 1) + OldBefore(lines[1..], i)
    decreases i
  {
    if i > 0 {
      OldBeforeTail(lines, i - 1);
      assert lines[1..][i - 1] == lines[i];
    }
  }

  lemma MatchesTail(orig: seq<string>, lines: seq<HunkLine>, start: nat, i: nat)
    requires i + 1 < |lines|
    ensures Matches(orig, lines, start, i + 1)
      <==> Matches(orig, lines[1..], if lines[0].kind == Add then start else start + 1, i)
  {
    hide SameLine;
    OldBeforeTail(lines, i);
  }

  lemma MatchesFirst(orig: seq<string>, lines: seq<HunkLine>, start: nat)
    requires lines != []
    ensures Matches(orig, lines, start, 0) <==> lines[0].kind == Add || LinesEqual(LineAt(orig, start), lines[0].text)
  {
    hide SameLine;
    hide LinesEqual;
    EqualIsSame(LineAt(orig, start), lines[0].text);
  }

  /** Line `i` is the first that does not match, and `why` says which and where. */
  ghost predicate StopsAt(orig: seq<string>, lines: seq<HunkLine>, start: nat, i: nat, why: Refusal) {
    && i < |lines| && !Matches(orig, lines, start, i)
    && (forall j :: 0 <= j < i ==> Matches(orig, lines, start, j))
    && why == Mismatch(lines[i].kind, start + OldBefore(lines, i) + 1)
  }

  ghost predicate AllMatch(orig: seq<string>, lines: seq<HunkLine>, start: nat) {
    forall i :: 0 <= i < |lines| ==> Matches(orig, lines, start, i)
  }

  /** A walk goes through exactly if every shown line matches, and ends behind the old
      lines shown; otherwise it stops at the first that does not, by kind and number. */
  lemma {:induction false} WalkChecks(orig: seq<string>, lines: seq<HunkLine>, start: nat)
    ensures var w := WalkLines(orig, lines, start);
      && (w.Walked? <==> AllMatch(orig, lines, start))
      && (w.Walked? ==> w.idx == start + OldBefore(lines, |lines|))
      && (w.Stopped? ==> exists i :: StopsAt(orig, lines, start, i, w.why))
    decreases |lines|
  {
    hide LinesEqual;
    hide Matches;
    hide AllMatch;
    hide StopsAt;
    if lines == [] {
      NoLines(orig, lines, start);
    } else {
      var next := if lines[0].kind == Add then start else start + 1;
      MatchesFirst(orig, lines, start);
      WalkChecks(orig, lines[1..], next);
      OldBeforeTail(lines, |lines| - 1);
      AllMatchStep(orig, lines, start);
      var w := WalkLines(orig, lines[1..], next);
      if !Matches(orig, lines, start, 0) {
        StopsFirst(orig, lines, start);
      } else if w.Stopped? {
        var i: nat :| StopsAt(orig, lines[1..], next, i, w.why);
        StopsLater(orig, lines, start, i, w.why);
      }
    }
  }

  lemma NoLines(orig: seq<string>, lines: seq<HunkLine>, start: nat)
    requires lines == []
    ensures AllMatch(orig, lines, start) && OldBefore(lines, 0) == 0
    ensures WalkLines(orig, lines, start) == Walked("", start)
  {
  }

  lemma AllMatchStep(orig: seq<string>, lines: seq<HunkLine>, start: nat)
    requires lines != []
    ensures AllMatch(orig, lines, start) <==>
      Matches(orig, lines, start, 0) && AllMatch(orig, lines[1..], if lines[0].kind == Add then start else start + 1)
  {
    hide Matches;
    var next := if lines[0].kind == Add then start else start + 1;
    forall i | 0 <= i < |lines| - 1
      ensures Matches(orig, lines, start, i + 1) <==> Matches(orig, lines[1..], next, i)
    {
      MatchesTail(orig, lines, start, i);
    }
    if Matches(orig, lines, start, 0) && AllMatch(orig, lines[1..], next) {
      forall i | 0 <= i < |lines|
        ensures Matches(orig, lines, start, i)
      {
        if i > 0 {
          MatchesTail(orig, lines, start, i - 1);
        }
      }
    }
  }

  lemma StopsFirst(orig: seq<string>, lines: seq<HunkLine>, start: nat)
    requires lines != [] && !Matches(orig, lines, start, 0)
    ensures StopsAt(orig, lines, start, 0, Mismatch(lines[0].kind, start + 1))
  {
    hide Matches;
  }

  lemma StopsLater(orig: seq<string>, lines: seq<HunkLine>, start: nat, i: nat, why: Refusal)
    requires lines != [] && Matches(orig, lines, start, 0)
    requires StopsAt(orig, lines[1..], if lines[0].kind == Add then start else start + 1, i, why)
    ensures StopsAt(orig, lines, start, i + 1, why)
  {
    hide Matches;
    OldBeforeTail(lines, i);
    MatchesTail(orig, lines, start, i);
    forall j | 0 < j < i + 1
      ensures Matches(orig, lines, start, j)
    {
      MatchesTail(orig, lines, start, j - 1);
    }
  }

  // ---------------------------------------------------------------------------------- all hunks

  /** The file line a hunk starts at: its number counts from one, and zero is the front. */
  function From(h: Hunk): nat { if h.oldStart == 0 then 0 else h.oldStart - 1 }

  function Behind(h: Hunk): nat { From(h) + OldBefore(h.lines, |h.lines|) }

  /** The hunks stand in order inside the file, and every line they show matches. */
  ghost predicate Checked(orig: seq<string>, hunks: seq<Hunk>, cursor: nat)
    decreases |hunks|
  {
    if hunks == [] then cursor <= |orig|
    else
      && cursor <= From(hunks[0]) <= |orig| && AllMatch(orig, hunks[0].lines, From(hunks[0]))
      && Checked(orig, hunks[1..], Behind(hunks[0]))
  }

  /** Why hunks are not applied: the first one that fails starts before the one before
      it ended, or behind the file, or shows a line the file does not have there. */
  ghost predicate Fails(orig: seq<string>, hunks: seq<Hunk>, cursor: nat, r: Outcome)
    decreases |hunks|
  {
    if hunks == [] then cursor > |orig| && r == OutOfRange
    else if From(hunks[0]) < cursor then r == Refused(Overlap(hunks[0].oldStart))
    else if From(hunks[0]) > |orig| then r == OutOfRange
    else if !AllMatch(orig, hunks[0].lines, From(hunks[0])) then
      r.Refused? && exists i :: StopsAt(orig, hunks[0].lines, From(hunks[0]), i, r.why)
    else Fails(orig, hunks[1..], Behind(hunks[0]), r)
  }

  lemma {:induction false} ApplyFromChecks(orig: seq<string>, hunks: seq<Hunk>, cursor: nat)
    ensures var r := ApplyFrom(orig, hunks, cursor);
      && (r.Patched? <==> Checked(orig, hunks, cursor))
      && (!r.Patched? ==> Fails(orig, hunks, cursor, r))
    decreases |hunks|
  {
    hide WalkLines;
    hide AllMatch;
    hide StopsAt;
    hide Flatten;
    if hunks != [] {
      WalkChecks(orig, hunks[0].lines, From(hunks[0]));
      ApplyFromChecks(orig, hunks[1..], Behind(hunks[0]));
    }
  }

  /** Hunks are applied exactly when they stand in order inside the file and every
      context and deleted line is the file's at its place, up to line endings;
      otherwise the outcome says what the first fault was. */
  lemma ApplyChecks(original: string, hunks: seq<Hunk>)
    ensures var r, orig := Apply(original, hunks), SplitInclusive(original);
      && (r.Patched? <==> Checked(orig, hunks, 0))
      && (!r.Patched? ==> Fails(orig, hunks, 0, r))
  {
    ApplyFromChecks(SplitInclusive(original), hunks, 0);
  }

  lemma {:induction false} CheckedHunkMatches(orig: seq<string>, hunks: seq<Hunk>, cursor: nat, k: nat)
    requires Checked(orig, hunks, cursor) && k < |hunks|
    ensures AllMatch(orig, hunks[k].lines, From(hunks[k])) && Behind(hunks[k]) <= |orig|
    decreases k
  {
    hide AllMatch;
    CheckedIsInside(orig, hunks[1..], Behind(hunks[0]));
    if k > 0 {
      CheckedHunkMatches(orig, hunks[1..], Behind(hunks[0]), k - 1);
    }
  }

  lemma CheckedIsInside(orig: seq<string>, hunks: seq<Hunk>, cursor: nat)
    requires Checked(orig, hunks, cursor)
    ensures cursor <= |orig|
  {
  }

  lemma {:induction false} OldBeforeGrows(lines: seq<HunkLine>, i: nat, j: nat)
    requires i <= j <= |lines|
    ensures OldBefore(lines, i) <= OldBefore(lines, j)
    decreases j
  {
    if i < j {
      OldBeforeGrows(lines, i, j - 1);
    }
  }

  /** Of a patched file every line that a hunk shows was there, up to its ending. */
  lemma PatchedShows(original: string, hunks: seq<Hunk>, k: nat, i: nat)
    requires Apply(original, hunks).Patched? && k < |hunks| && i < |hunks[k].lines| && hunks[k].lines[i].kind != Add
    ensures var at, orig := From(hunks[k]) + OldBefore(hunks[k].lines, i), SplitInclusive(original);
      at < |orig| && SameLine(orig[at], hunks[k].lines[i].text)
  {
    hide SameLine;
    var orig, lines := SplitInclusive(original), hunks[k].lines;
    ApplyChecks(original, hunks);
    CheckedHunkMatches(orig, hunks, 0, k);
    OldBeforeGrows(lines, i + 1, |lines|);
    assert Matches(orig, lines, From(hunks[k]), i);
  }

  /** An added line is written with one newline more if it has none at its end. */
  lemma AddedIsLine(s: string)
    ensures var added := WithNewline(s);
      && added != "" && added[|added| - 1] == '\n'
      && (added == s || (added == s + ['\n'] && (s == "" || s[|s| - 1] != '\n')))
  {
  }

  /** For instance a hunk that deletes a line the file does not have. */
  lemma OtherLineIsRefused()
    ensures Apply("b\n", [Hunk(1, [HunkLine(Delete, "a\n")])]) == Refused(Mismatch(Delete, 1))
  {
    var h := Hunk(1, [HunkLine(Delete, "a\n")]);
    assert IsLine("b\n");
    SplitJoined(["b\n"]);
    FlattenOne("b\n");
    assert TrimEol("a\n") == TrimEol("a") == "a" && TrimEol("b\n") == TrimEol("b") == "b" by {
      assert "a\n"[..1] == "a" && "b\n"[..1] == "b";
    }
  }
}
