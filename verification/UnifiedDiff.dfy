/** The unified-diff parser: a line-by-line machine over a file group, a hunk
    and the finished groups. */
module UnifiedDiff {
  import opened Wrappers
  import opened JsonText
  import opened HunkApplier

  datatype Group = Group(path: string, isNew: bool, hunks: seq<Hunk>)

  const USIZE: nat := 0x1_0000_0000_0000_0000

  // ------------------------------------------------------------------------------------- text

  /** The stretches between newlines; one more than there are newlines. */
  function Segments(s: string): seq<string> {
    if '\n' !in s then [s] else
      var n := FirstNewline(s);
      [s[..n]] + Segments(s[n + 1..])
  }

  function FirstNewline(s: string): (n: nat)
    requires '\n' in s
    ensures n < |s| && s[n] == '\n'
  {
    if s[0] == '\n' then 0 else 1 + FirstNewline(s[1..])
  }

  function TrimStart(s: string): string {
    if s != "" && IsWhitespace(s[0]) then TrimStart(s[1..]) else s
  }

  function TrimEnd(s: string): string {
    if s != "" && IsWhitespace(s[|s| - 1]) then TrimEnd(s[..|s| - 1]) else s
  }

  function Trim(s: string): string {
    TrimEnd(TrimStart(s))
  }

  /** The index of the first character with property `p`, or the length. */
  function Find(s: string, p: char -> bool): (n: nat)
    ensures n <= |s|
  {
    if s == "" || p(s[0]) then 0 else 1 + Find(s[1..], p)
  }

  function Digits(s: string, acc: nat): Option<nat> {
    if s == "" then Some(acc)
    else if IsAsciiDigit(s[0]) then Digits(s[1..], 10 * acc + (s[0] as int - '0' as int))
    else None
  }

  /** Parsing an unsigned machine number: an optional plus sign and digits, in range. */
  function ParseUsize(s: string): Option<nat> {
    var d := if s != "" && s[0] == '+' then s[1..] else s;
    if d == "" then None
    else
      match Digits(d, 0)
      case None => None
      case Some(n) => if n < USIZE then Some(n) else None
  }

  predicate IsDash(c: char) { c == '-' }
  predicate EndsNumber(c: char) { c == ',' || c == ' ' }

  /** The old start line of a hunk header, whose text after the marker is `rest`. */
  function ParseOldStart(rest: string): Option<nat> {
    var dash := Find(rest, IsDash);
    if dash == |rest| then None
    else
      var after := rest[dash + 1..];
      ParseUsize(after[..Find(after, EndsNumber)])
  }

  // ---------------------------------------------------------------------------------- the machine

  datatype State = State(groups: seq<Group>, current: Option<Group>, hunk: Option<Hunk>, pending: bool)

  function WithHunk(g: Group, hunk: Option<Hunk>): Group {
    match hunk
    case None => g
    case Some(h) => g.(hunks := g.hunks + [h])
  }

  function Flush(st: State): State {
    match st.current
    case None => st
    case Some(g) => State(st.groups + [WithHunk(g, st.hunk)], None, None, st.pending)
  }

  function Content(raw: string): Option<HunkLine> {
    if raw == "" then None
    else if raw[0] == '+' then Some(HunkLine(Add, raw[1..] + "\n"))
    else if raw[0] == '-' then Some(HunkLine(Delete, raw[1..] + "\n"))
    else if raw[0] == ' ' then Some(HunkLine(Context, raw[1..] + "\n"))
    else None
  }

  predicate Metadata(raw: string) {
    "--- " <= raw || "+++ " <= raw || "index " <= raw
  }

  /** One line of the diff; `None` when a hunk header is malformed. */
  function Step(st: State, raw: string): Option<State> {
    if "diff --git " <= raw then Some(Flush(st).(pending := false))
    else if "new file mode " <= raw then Some(st.(pending := true))
    else if "+++ b/" <= raw then Some(st.(current := Some(Group(Trim(raw[6..]), st.pending, [])), pending := false))
    else if Metadata(raw) then Some(st)
    else if "@@ " <= raw then
      match st.current {
        case None => Some(st)
        case Some(g) =>
          match ParseOldStart(raw[3..]) {
            case None => None
            case Some(n) => Some(st.(current := Some(WithHunk(g, st.hunk)), hunk := Some(Hunk(n, []))))
          }
      }
    else
      match st.hunk
      case None => Some(st)
      case Some(h) =>
        match Content(raw)
        case None => Some(st)
        case Some(line) => Some(st.(hunk := Some(h.(lines := h.lines + [line]))))
  }

  function Steps(st: State, raws: seq<string>): Option<State>
    decreases |raws|
  {
    if raws == [] then Some(st)
    else
      match Step(st, raws[0])
      case None => None
      case Some(next) => Steps(next, raws[1..])
  }

  const START := State([], None, None, false)

  /** The groups of a diff; `None` when it is malformed. */
  function Parse(body: string): Option<seq<Group>> {
    match Steps(START, Segments(body))
    case None => None
    case Some(st) => Some(Flush(st).groups)
  }

  method ParseUnifiedDiff(body: string) returns (r: Option<seq<Group>>)
    ensures r == Parse(body)
  {
    var groups: seq<Group>, current: Option<Group>, hunk: Option<Hunk>, pending := [], None, None, false;
    var raws := Segments(body);
    assert raws[0..] == raws;
    for i := 0 to |raws|
      invariant Steps(START, raws) == Steps(State(groups, current, hunk, pending), raws[i..])
    {
      var raw := raws[i];
      assert raws[i..][0] == raw && raws[i..][1..] == raws[i + 1..];
      if "diff --git " <= raw {
        if current.Some? {
          groups := groups + [WithHunk(current.value, hunk)];
          current, hunk := None, None;
        }
        pending := false;
        continue;
      }
      if "new file mode " <= raw {
        pending := true;
        continue;
      }
      if "+++ b/" <= raw {
        current := Some(Group(Trim(raw[6..]), pending, []));
        pending := false;
        continue;
      }
      if "--- " <= raw || "+++ " <= raw || "index " <= raw {
        continue;
      }
      if "@@ " <= raw {
        if current.Some? {
          current, hunk := Some(WithHunk(current.value, hunk)), None;
          var oldStart := ParseOldStart(raw[3..]);
          if oldStart.None? {
            return None;
          }
          hunk := Some(Hunk(oldStart.value, []));
        }
        continue;
      }
      if hunk.None? {
        continue;
      }
      var h := hunk.value;
      if raw != "" {
        if raw[0] == '+' {
          hunk := Some(h.(lines := h.lines + [HunkLine(Add, raw[1..] + "\n")]));
        } else if raw[0] == '-' {
          hunk := Some(h.(lines := h.lines + [HunkLine(Delete, raw[1..] + "\n")]));
        } else if raw[0] == ' ' {
          hunk := Some(h.(lines := h.lines + [HunkLine(Context, raw[1..] + "\n")]));
        }
      }
    }
    assert raws[|raws|..] == [];
    if current.Some? {
      groups := groups + [WithHunk(current.value, hunk)];
    }
    return Some(groups);
  }
}
