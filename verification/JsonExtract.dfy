/** Finding a JSON object or array inside other text by counting brackets outside
    strings, and repairing what was found. */
module JsonExtract {
  import opened Wrappers
  import opened Seqs
  import opened JsonText
  import opened JsonRepair
  import opened JsonRoundTrip

  /** What a scan counts: the braces of objects or the brackets of arrays. */
  datatype Brackets = Braces | Squares

  function Open(b: Brackets): char { if b == Braces then '{' else '[' }
  function Close(b: Brackets): char { if b == Braces then '}' else ']' }

  /** Where a scan is once the first bracket was seen. */
  datatype Scan = Scan(depth: nat, inString: bool, escape: bool)

  /** `saturating_sub(1)`. */
  function Less(depth: nat): nat {
    if depth == 0 then 0 else depth - 1
  }

  function Next(st: Scan, c: char, b: Brackets): Scan {
    if st.inString then
      if st.escape then st.(escape := false)
      else if c == '\\' then st.(escape := true)
      else if c == '"' then st.(inString := false)
      else st
    else if c == '"' then st.(inString := true)
    else if c == Open(b) then st.(depth := st.depth + 1)
    else if c == Close(b) then st.(depth := Less(st.depth))
    else st
  }

  /** The character that ends what is scanned. */
  predicate Closes(st: Scan, c: char, b: Brackets) {
    !st.inString && c == Close(b) && Less(st.depth) == 0
  }

  /** How many characters of `s` the scan reads up to that character, if it comes. */
  function EndFrom(s: string, st: Scan, b: Brackets): Option<nat> {
    if s == "" then None
    else if Closes(st, s[0], b) then Some(1)
    else Further(1, EndFrom(s[1..], Next(st, s[0], b), b))
  }

  function Further(n: nat, r: Option<nat>): Option<nat> {
    match r
    case None => None
    case Some(k) => Some(n + k)
  }

  /** The object that starts at `start` and whose end lies `r` characters after its brace. */
  function Found(text: string, start: nat, r: Option<nat>): Option<string> {
    match r
    case None => None
    case Some(k) => if start + 1 + k <= |text| then Some(text[start..start + 1 + k]) else None
  }

  const ENTERED := Scan(1, false, false)

  /** The first object of the text, from `i` on. */
  function Extract(text: string, i: nat): Option<string>
    requires i <= |text|
    decreases |text| - i
  {
    if i == |text| then None
    else if text[i] == '{' then Found(text, i, EndFrom(text[i + 1..], ENTERED, Braces))
    else Extract(text, i + 1)
  }

  lemma {:induction false} EndIsInside(s: string, st: Scan, b: Brackets)
    ensures EndFrom(s, st, b).Some? ==> 1 <= EndFrom(s, st, b).value <= |s|
  {
    if s != "" && !Closes(st, s[0], b) {
      EndIsInside(s[1..], Next(st, s[0], b), b);
    }
  }

  method ExtractFirstJsonObject(text: string) returns (r: Option<string>)
    ensures r == Extract(text, 0)
  {
    var start := -1;
    var depth: nat, inString, escape := 0, false, false;
    for index := 0 to |text|
      invariant -1 <= start < index || start == -1
      invariant start == -1 ==> !inString && !escape && Extract(text, 0) == Extract(text, index)
      invariant start >= 0 ==>
        Extract(text, 0) == Found(text, start,
          Further(index - start - 1, EndFrom(text[index..], Scan(depth, inString, escape), Braces)))
    {
      var byte := text[index];
      assert text[index..][0] == byte && text[index..][1..] == text[index + 1..];
      if start == -1 {
        if byte == '{' {
          start := index;
          depth := 1;
          assert Further(0, EndFrom(text[index + 1..], ENTERED, Braces)) == EndFrom(text[index + 1..], ENTERED, Braces);
        }
        continue;
      }
      FurtherTwice(index - start - 1,
        EndFrom(text[index + 1..], Next(Scan(depth, inString, escape), byte, Braces), Braces));
      if inString {
        if escape {
          escape := false;
          continue;
        }
        if byte == '\\' {
          escape := true;
        } else if byte == '"' {
          inString := false;
        }
        continue;
      }
      if byte == '"' {
        inString := true;
      } else if byte == '{' {
        depth := depth + 1;
      } else if byte == '}' {
        depth := if depth == 0 then 0 else depth - 1;
        if depth == 0 {
          return Some(text[start..index + 1]);
        }
      }
    }
    assert text[|text|..] == "";
    return None;
  }

  lemma ScanStep(text: string, index: nat, st: Scan, b: Brackets)
    requires index < |text|
    ensures EndFrom(text[index..], st, b)
      == if Closes(st, text[index], b) then Some(1)
        else Further(1, EndFrom(text[index + 1..], Next(st, text[index], b), b))
  {
    assert text[index..][0] == text[index] && text[index..][1..] == text[index + 1..];
  }

  lemma FurtherTwice(n: nat, r: Option<nat>)
    ensures Further(n, Further(1, r)) == Further(n + 1, r)
  {
  }

  // --------------------------------------------------------------- scanning a printed document

  /** A scan outside strings, `depth` levels down. */
  function At(depth: nat): Scan { Scan(depth, false, false) }

  /** Scanning over `part` finds no end, goes `down` levels down and ends outside strings. */
  ghost predicate Sinks(part: string, rest: string, depth: nat, down: nat, b: Brackets) {
    EndFrom(part + rest, At(depth), b) == Further(|part|, EndFrom(rest, At(depth + down), b))
  }

  lemma SinksBoth(front: string, back: string, rest: string, depth: nat, down: nat, more: nat, b: Brackets)
    requires Sinks(front, back + rest, depth, down, b) && Sinks(back, rest, depth + down, more, b)
    ensures Sinks(front + back, rest, depth, down + more, b)
  {
    hide EndFrom;
    Reassociate(front, back, rest);
    FurtherMore(|front|, |back|, EndFrom(rest, At(depth + down + more), b));
  }

  lemma NothingSinks(rest: string, depth: nat, b: Brackets)
    ensures Sinks("", rest, depth, 0, b)
  {
    hide EndFrom;
    assert "" + rest == rest;
    assert Further(0, EndFrom(rest, At(depth), b)) == EndFrom(rest, At(depth), b);
  }

  lemma FurtherMore(m: nat, n: nat, r: Option<nat>)
    ensures Further(m, Further(n, r)) == Further(m + n, r)
  {
  }

  /** One character of the scan. */
  lemma StepOn(c: char, tail: string, st: Scan, b: Brackets)
    ensures EndFrom([c] + tail, st, b)
      == if Closes(st, c, b) then Some(1) else Further(1, EndFrom(tail, Next(st, c, b), b))
  {
    Front(c, tail);
  }

  /** How many opening brackets of the kind a text holds. */
  function Openings(s: string, b: Brackets): nat {
    if s == "" then 0 else (if s[0] == Open(b) then 1 else 0) + Openings(s[1..], b)
  }

  lemma {:induction false} NoOpenings(s: string, b: Brackets)
    requires Open(b) !in s
    ensures Openings(s, b) == 0
  {
    if s != "" {
      NoOpenings(s[1..], b);
    }
  }

  /** No closing bracket of the kind and no quote. */
  ghost predicate Flat(s: string, b: Brackets) {
    forall i :: 0 <= i < |s| ==> s[i] != Close(b) && s[i] != '"'
  }

  lemma {:induction false} FlatSinks(s: string, rest: string, depth: nat, b: Brackets)
    requires Flat(s, b)
    ensures Sinks(s, rest, depth, Openings(s, b), b)
  {
    hide EndFrom;
    if s == "" {
      NothingSinks(rest, depth, b);
    } else {
      var down := if s[0] == Open(b) then 1 else 0;
      FlatSinks(s[1..], rest, depth + down, b);
      HeadTail(s);
      Reassociate([s[0]], s[1..], rest);
      StepOn(s[0], s[1..] + rest, At(depth), b);
      FurtherMore(1, |s| - 1, EndFrom(rest, At(depth + Openings(s, b)), b));
    }
  }

  /** Without brackets and quotes the scan keeps its depth. */
  lemma PlainSinks(s: string, rest: string, depth: nat, b: Brackets)
    requires Flat(s, b) && Open(b) !in s
    ensures Sinks(s, rest, depth, 0, b)
  {
    FlatSinks(s, rest, depth, b);
    NoOpenings(s, b);
  }

  /** A string body and its closing quote leave the string. */
  lemma {:induction false} BodySinks(body: string, rest: string, depth: nat, b: Brackets)
    requires IsBody(body)
    ensures EndFrom((body + "\"") + rest, Scan(depth, true, false), b)
      == Further(|body| + 1, EndFrom(rest, At(depth), b))
  {
    hide EndFrom;
    var after := EndFrom(rest, At(depth), b);
    if body == "" {
      assert ("" + "\"") + rest == ['"'] + rest;
      StepOn('"', rest, Scan(depth, true, false), b);
    } else if body[0] == '\\' {
      var tail := (body[2..] + "\"") + rest;
      assert (body + "\"") + rest == [body[0]] + ([body[1]] + tail);
      StepOn(body[0], [body[1]] + tail, Scan(depth, true, false), b);
      StepOn(body[1], tail, Scan(depth, true, true), b);
      BodySinks(body[2..], rest, depth, b);
      FurtherMore(1, |body| - 1, after);
      FurtherMore(1, |body|, after);
    } else {
      var tail := (body[1..] + "\"") + rest;
      assert (body + "\"") + rest == [body[0]] + tail;
      StepOn(body[0], tail, Scan(depth, true, false), b);
      BodySinks(body[1..], rest, depth, b);
      FurtherMore(1, |body|, after);
    }
  }

  lemma QuotedSinks(body: string, rest: string, depth: nat, b: Brackets)
    requires IsBody(body)
    ensures Sinks(Quote(body), rest, depth, 0, b)
  {
    hide EndFrom;
    var tail := (body + "\"") + rest;
    assert Quote(body) + rest == ['"'] + tail;
    StepOn('"', tail, At(depth), b);
    BodySinks(body, rest, depth, b);
    FurtherMore(1, |body| + 1, EndFrom(rest, At(depth), b));
  }

  /** How many opening brackets of the kind stand in bare values, where nothing closes them. */
  function Opened(v: Json, b: Brackets): nat {
    match v
    case Literal(_) => 0
    case Text(_) => 0
    case Bare(text) => Openings(text, b)
    case Array(_, items) => ItemsOpened(items, b)
    case Object(_, members) => MembersOpened(members, b)
  }

  function ItemsOpened(items: Items, b: Brackets): nat {
    match items
    case NoItems => 0
    case Item(_, value, _, rest) => Opened(value, b) + ItemsOpened(rest, b)
  }

  function MembersOpened(members: Members, b: Brackets): nat {
    match members
    case NoMembers => 0
    case Member(_, _, _, _, value, _, rest) => Opened(value, b) + MembersOpened(rest, b)
  }

  /** In plain JSON there are none. */
  lemma {:induction false} PlainIsUnopened(v: Json, b: Brackets)
    requires !HasBare(v)
    ensures Opened(v, b) == 0
    decreases v, 0
  {
    match v
    case Literal(_) =>
    case Text(_) =>
    case Array(_, items) => PlainItemsAreUnopened(items, b);
    case Object(_, members) => PlainMembersAreUnopened(members, b);
  }

  lemma {:induction false} PlainItemsAreUnopened(items: Items, b: Brackets)
    requires !ItemsHaveBare(items)
    ensures ItemsOpened(items, b) == 0
    decreases items, 1
  {
    match items
    case NoItems =>
    case Item(_, value, _, rest) =>
      PlainIsUnopened(value, b);
      PlainItemsAreUnopened(rest, b);
  }

  lemma {:induction false} PlainMembersAreUnopened(members: Members, b: Brackets)
    requires !MembersHaveBare(members)
    ensures MembersOpened(members, b) == 0
    decreases members, 1
  {
    match members
    case NoMembers =>
    case Member(_, _, _, _, value, _, rest) =>
      PlainIsUnopened(value, b);
      PlainMembersAreUnopened(rest, b);
  }

  lemma WordIsFlat(word: string, b: Brackets)
    requires IsKeyword(word) || IsNumber(word)
    ensures Flat(word, b) && Open(b) !in word
  {
    if !IsKeyword(word) {
      assert forall i :: 0 <= i < |word| ==> IsNumberPart(word[i]);
    }
  }

  /** A scan of a document goes down by the brackets opened in its bare values. */
  lemma {:induction false} ValueSinks(v: Json, rest: string, depth: nat, asMember: bool, b: Brackets)
    requires IsDocument(v, asMember) && depth >= 1
    ensures Sinks(Print(v, false), rest, depth, Opened(v, b), b)
    decreases v, 0
  {
    hide Sinks;
    match v
    case Literal(word) =>
      WordIsFlat(word, b);
      PlainSinks(word, rest, depth, b);
    case Text(body) => QuotedSinks(body, rest, depth, b);
    case Bare(text) =>
      assert forall i :: 0 <= i < |text| ==> !EndsBare(text[i]);
      FlatSinks(text, rest, depth, b);
    case Array(space, items) =>
      var inside := if items.NoItems? then space else PrintItems(items, false);
      ArrayInsideSinks(space, items, "]" + rest, if b == Squares then depth + 1 else depth, b);
      EnclosedSinks('[', inside, ']', rest, depth, ItemsOpened(items, b), b);
    case Object(space, members) =>
      var inside := if members.NoMembers? then space else PrintMembers(members, false);
      ObjectInsideSinks(space, members, "}" + rest, if b == Braces then depth + 1 else depth, b);
      EnclosedSinks('{', inside, '}', rest, depth, MembersOpened(members, b), b);
  }

  lemma {:induction false} ArrayInsideSinks(space: string, items: Items, rest: string, depth: nat, b: Brackets)
    requires IsSpace(space) && AreItems(items) && depth >= 1
    ensures Sinks(if items.NoItems? then space else PrintItems(items, false), rest, depth, ItemsOpened(items, b), b)
    decreases items, 2
  {
    hide Sinks;
    if items.NoItems? {
      PlainSinks(space, rest, depth, b);
    } else {
      ItemsSink(items, rest, depth, b);
    }
  }

  lemma {:induction false} ObjectInsideSinks(space: string, members: Members, rest: string, depth: nat, b: Brackets)
    requires IsSpace(space) && AreMembers(members) && depth >= 1
    ensures Sinks(if members.NoMembers? then space else PrintMembers(members, false), rest, depth,
      MembersOpened(members, b), b)
    decreases members, 2
  {
    hide Sinks;
    if members.NoMembers? {
      PlainSinks(space, rest, depth, b);
    } else {
      MembersSink(members, rest, depth, b);
    }
  }

  /** What is enclosed in brackets of the kind goes one level down and comes back
      one, never to zero; other brackets do not count. */
  lemma EnclosedSinks(open: char, inside: string, close: char, rest: string, depth: nat, down: nat, b: Brackets)
    requires (open == '{' && close == '}') || (open == '[' && close == ']')
    requires depth >= 1 && Sinks(inside, [close] + rest, if open == Open(b) then depth + 1 else depth, down, b)
    ensures Sinks([open] + (inside + [close]), rest, depth, down, b)
  {
    if open == Open(b) {
      hide EndFrom;
      var after := EndFrom(rest, At(depth + down), b);
      var tail := inside + ([close] + rest);
      assert ([open] + (inside + [close])) + rest == [open] + tail;
      StepOn(open, tail, At(depth), b);
      StepOn(close, rest, At(depth + 1 + down), b);
      FurtherMore(|inside|, 1, after);
      FurtherMore(1, |inside| + 1, after);
    } else {
      hide Sinks;
      PlainSinks([close], rest, depth + down, b);
      SinksBoth(inside, [close], rest, depth, down, 0, b);
      PlainSinks([open], (inside + [close]) + rest, depth, b);
      SinksBoth([open], inside + [close], rest, depth, 0, down, b);
    }
  }

  /** White space, a mark or a key in front. */
  lemma PlainInFront(s: string, back: string, rest: string, depth: nat, down: nat, b: Brackets)
    requires Flat(s, b) && Open(b) !in s && Sinks(back, rest, depth, down, b)
    ensures Sinks(s + back, rest, depth, down, b)
  {
    hide Sinks;
    PlainSinks(s, back + rest, depth, b);
    SinksBoth(s, back, rest, depth, 0, down, b);
  }

  lemma SpaceInFront(space: string, back: string, rest: string, depth: nat, down: nat, b: Brackets)
    requires IsSpace(space) && Sinks(back, rest, depth, down, b)
    ensures Sinks(space + back, rest, depth, down, b)
  {
    hide Sinks;
    PlainInFront(space, back, rest, depth, down, b);
  }

  lemma {:induction false} ItemsSink(items: Items, rest: string, depth: nat, b: Brackets)
    requires AreItems(items) && depth >= 1
    ensures Sinks(PrintItems(items, false), rest, depth, ItemsOpened(items, b), b)
    decreases items, 1
  {
    hide Sinks;
    match items
    case NoItems => NothingSinks(rest, depth, b);
    case Item(before, value, after, more) =>
      var tail, down := MoreItems(more, false), Opened(value, b);
      if more.NoItems? {
        NothingSinks(rest, depth + down, b);
      } else {
        ItemsSink(more, rest, depth + down, b);
        PlainInFront(",", PrintItems(more, false), rest, depth + down, ItemsOpened(more, b), b);
      }
      SpaceInFront(after, tail, rest, depth + down, ItemsOpened(more, b), b);
      ValueSinks(value, (after + tail) + rest, depth, false, b);
      SinksBoth(Print(value, false), after + tail, rest, depth, down, ItemsOpened(more, b), b);
      SpaceInFront(before, Print(value, false) + (after + tail), rest, depth, down + ItemsOpened(more, b), b);
  }

  lemma KeyInFront(key: Key, back: string, rest: string, depth: nat, down: nat, b: Brackets)
    requires IsKey(key) && Sinks(back, rest, depth, down, b)
    ensures Sinks(PrintKey(key, false) + back, rest, depth, down, b)
  {
    hide Sinks;
    match key
    case Quoted(body) =>
      QuotedSinks(body, back + rest, depth, b);
      SinksBoth(Quote(body), back, rest, depth, 0, down, b);
    case Unquoted(name) =>
      assert forall i :: 0 <= i < |name| ==> IsKeyPart(name[i]);
      PlainInFront(name, back, rest, depth, down, b);
  }

  lemma {:induction false} MembersSink(members: Members, rest: string, depth: nat, b: Brackets)
    requires AreMembers(members) && depth >= 1
    ensures Sinks(PrintMembers(members, false), rest, depth, MembersOpened(members, b), b)
    decreases members, 1
  {
    hide Sinks;
    match members
    case NoMembers => NothingSinks(rest, depth, b);
    case Member(before, key, between, gap, value, after, more) =>
      var tail, down, all := MoreMembers(more, false), Opened(value, b), MembersOpened(members, b);
      if more.NoMembers? {
        NothingSinks(rest, depth + down, b);
      } else {
        MembersSink(more, rest, depth + down, b);
        PlainInFront(",", PrintMembers(more, false), rest, depth + down, MembersOpened(more, b), b);
      }
      SpaceInFront(after, tail, rest, depth + down, MembersOpened(more, b), b);
      var s1 := after + tail;
      ValueSinks(value, s1 + rest, depth, true, b);
      SinksBoth(Print(value, false), s1, rest, depth, down, MembersOpened(more, b), b);
      var s2 := Print(value, false) + s1;
      SpaceInFront(gap, s2, rest, depth, all, b);
      var s3 := gap + s2;
      PlainInFront(":", s3, rest, depth, all, b);
      var s4 := ":" + s3;
      SpaceInFront(between, s4, rest, depth, all, b);
      var s5 := between + s4;
      KeyInFront(key, s5, rest, depth, all, b);
      SpaceInFront(before, PrintKey(key, false) + s5, rest, depth, all, b);
  }

  // ------------------------------------------------------------------------------ the theorems

  lemma {:induction false} SkipsPrefix(prefix: string, rest: string, i: nat)
    requires '{' !in prefix && i <= |prefix|
    ensures Extract(prefix + rest, i) == Extract(prefix + rest, |prefix|)
    decreases |prefix| - i
  {
    if i < |prefix| {
      assert (prefix + rest)[i] == prefix[i];
      SkipsPrefix(prefix, rest, i + 1);
    }
  }

  /** What a scan takes for the document `p` that opens `k` brackets too many: it
      goes on to where the text behind `p` closes them. */
  function Overrun(p: string, suffix: string, k: nat, b: Brackets): Option<string> {
    if k == 0 then Some(p)
    else
      EndIsInside(suffix, At(k), b);
      match EndFrom(suffix, At(k), b)
      case None => None
      case Some(n) => Some(p + suffix[..n])
  }

  lemma OverrunIsLonger(p: string, suffix: string, k: nat, b: Brackets)
    ensures Overrun(p, suffix, k, b) == Some(p) <==> k == 0
    ensures k > 0 && Overrun(p, suffix, k, b).Some? ==>
      exists more :: more != "" && Overrun(p, suffix, k, b).value == p + more
  {
    if k > 0 {
      EndIsInside(suffix, At(k), b);
      var r := EndFrom(suffix, At(k), b);
      if r.Some? {
        var more := suffix[..r.value];
        assert more != "" && Overrun(p, suffix, k, b).value == p + more;
      }
    }
  }

  /** The closing bracket behind `inside`: the end, or `k` levels above it. */
  lemma EnclosedIsFound(prefix: string, open: char, inside: string, close: char, suffix: string, k: nat, b: Brackets)
    requires open == Open(b) && close == Close(b) && Sinks(inside, [close] + suffix, 1, k, b)
    ensures var p := [open] + (inside + [close]);
      var text := prefix + (p + suffix);
      Found(text, |prefix|, EndFrom(text[|prefix| + 1..], ENTERED, b)) == Overrun(p, suffix, k, b)
  {
    hide EndFrom;
    EnclosedInText(prefix, open, inside, close, suffix);
    StepOn(close, suffix, At(1 + k), b);
    EndIsInside(suffix, At(k), b);
    var p, after := [open] + (inside + [close]), EndFrom(suffix, At(k), b);
    if k > 0 && after.Some? {
      EnclosedAndMore(prefix, p, suffix, after.value);
      assert |inside| + (1 + after.value) == |p| - 1 + after.value;
    }
  }

  lemma EnclosedInText(prefix: string, open: char, inside: string, close: char, suffix: string)
    ensures var text := prefix + (([open] + (inside + [close])) + suffix);
      && text[|prefix|] == open
      && text[|prefix| + 1..] == inside + ([close] + suffix)
      && text[|prefix|..|prefix| + 1 + (|inside| + 1)] == [open] + (inside + [close])
  {
    var text := prefix + (([open] + (inside + [close])) + suffix);
    assert text == prefix + ([open] + (inside + ([close] + suffix)));
  }

  lemma EnclosedAndMore(prefix: string, p: string, suffix: string, n: nat)
    requires n <= |suffix|
    ensures (prefix + (p + suffix))[|prefix|..|prefix| + (|p| + n)] == p + suffix[..n]
  {
  }

  /** Behind any text without a brace and before any text at all, exactly the object
      is found, unless braces stand in its bare values: then it is not. */
  lemma ExtractFindsObject(prefix: string, v: Json, suffix: string)
    requires '{' !in prefix && v.Object? && IsDocument(v, false)
    ensures var r := Extract(prefix + (Print(v, false) + suffix), 0);
      && r == Overrun(Print(v, false), suffix, Opened(v, Braces), Braces)
      && (r == Some(Print(v, false)) <==> Opened(v, Braces) == 0)
  {
    hide Sinks;
    hide Overrun;
    hide Found;
    hide EndFrom;
    var p, k := Print(v, false), Opened(v, Braces);
    SkipsPrefix(prefix, p + suffix, 0);
    var inside := if v.members.NoMembers? then v.space else PrintMembers(v.members, false);
    ObjectInsideSinks(v.space, v.members, ['}'] + suffix, 1, Braces);
    EnclosedIsFound(prefix, '{', inside, '}', suffix, k, Braces);
    EnclosedInText(prefix, '{', inside, '}', suffix);
    OverrunIsLonger(p, suffix, k, Braces);
  }

  /** A brace in a bare value is never closed, so the object around it is not found. */
  lemma BraceInBareValue()
    ensures var v := Object("", Member("", Unquoted("a"), "", "", Bare("x{y"), "", NoMembers));
      IsDocument(v, false) && Extract(Print(v, false), 0) == None
  {
    hide Extract;
    hide EndFrom;
    hide Openings;
    var v := Object("", Member("", Unquoted("a"), "", "", Bare("x{y"), "", NoMembers));
    assert IsName("a") && IsBareText("x{y");
    OneOpening();
    assert Opened(v, Braces) == 1;
    assert "" + (Print(v, false) + "") == Print(v, false);
    ExtractFindsObject("", v, "");
    NothingToScan("", At(1), Braces);
  }

  lemma OneOpening()
    ensures Openings("x{y", Braces) == 1
  {
    assert "x{y"[1..] == "{y" && "{y"[1..] == "y" && "y"[1..] == "";
  }

  lemma {:induction false} RunKeepsLength(s: string, mode: Mode)
    ensures |Run(s, mode).text| >= |s|
    decreases |s|
  {
    if s != "" {
      match mode
      case InString(escaped) => RunKeepsLength(s[1..], StringMode(s[0], escaped));
      case Outside(context) =>
        if s[0] == '"' {
          RunKeepsLength(s[1..], InString(false));
        } else if context == WantKey && KeyAhead(s) {
          KeyStep(s);
          var n := NameLength(s);
          RunKeepsLength(s[n + SpaceLength(s[n..])..], Outside(context));
        } else if context == WantValue && ValueAhead(s) {
          ValueStep(s);
          RunKeepsLength(s[BareLength(s)..], Outside(Plain));
        } else {
          RunKeepsLength(s[1..], Outside(if IsWhitespace(s[0]) then context else After(s[0])));
        }
    }
  }

  /** With more text behind it, an object is not repaired to its strict print. */
  lemma RepairKeepsMore(v: Json, more: string)
    requires v.Object? && IsDocument(v, false) && HasBare(v) && more != ""
    ensures Repair(Print(v, false) + more) != Some(Print(v, true))
  {
    hide Run;
    RunObject(v, more, Plain);
    RunKeepsLength(more, Outside(Plain));
  }

  /** A relaxed object buried in other text is found and repaired, the strict print
      coming out if some quotes were missing, exactly unless braces stand in its
      bare values. */
  lemma RecoversEmbeddedObject(prefix: string, v: Json, suffix: string)
    requires '{' !in prefix && v.Object? && IsDocument(v, false)
    ensures var r := Extract(prefix + (Print(v, false) + suffix), 0);
      r.Some? && Repair(r.value) == (if HasBare(v) then Some(Print(v, true)) else None) <==> Opened(v, Braces) == 0
  {
    hide Run;
    hide Repair;
    hide Extract;
    hide Overrun;
    hide Print;
    hide HasBare;
    hide Opened;
    hide IsDocument;
    var p, k := Print(v, false), Opened(v, Braces);
    ExtractFindsObject(prefix, v, suffix);
    OverrunIsLonger(p, suffix, k, Braces);
    assert IsSpace("");
    RepairInvertsRelaxedPrint("", v, "");
    assert "" + (p + "") == p && "" + (Print(v, true) + "") == Print(v, true);
    var r := Extract(prefix + (p + suffix), 0);
    if k > 0 && r.Some? {
      if !HasBare(v) {
        PlainIsUnopened(v, Braces);
      }
      var more :| more != "" && r.value == p + more;
      RepairKeepsMore(v, more);
    }
  }

  // ----------------------------------------------------------------------- an array after a key

  /** The first place at or after `i` where `key` stands. */
  function FindKey(text: string, key: string, i: nat): Option<nat>
    requires i <= |text|
    decreases |text| - i
  {
    if key <= text[i..] then Some(i) else if i == |text| then None else FindKey(text, key, i + 1)
  }

  lemma {:induction false} FindKeyIsFirst(text: string, key: string, i: nat)
    requires i <= |text|
    ensures match FindKey(text, key, i)
      case None => forall k :: i <= k <= |text| ==> !(key <= text[k..])
      case Some(at) =>
        && i <= at && at + |key| <= |text| && key <= text[at..]
        && forall k :: i <= k < at ==> !(key <= text[k..])
    decreases |text| - i
  {
    if !(key <= text[i..]) && i < |text| {
      FindKeyIsFirst(text, key, i + 1);
    }
  }

  /** The array whose bracket is the first one at or after `i`. */
  function ExtractArrayFrom(text: string, i: nat): Option<string>
    requires i <= |text|
    decreases |text| - i
  {
    if i == |text| then None
    else if text[i] == '[' then Found(text, i, EndFrom(text[i + 1..], ENTERED, Squares))
    else ExtractArrayFrom(text, i + 1)
  }

  function ExtractAfterKey(text: string, key: string): Option<string> {
    FindKeyIsFirst(text, key, 0);
    match FindKey(text, key, 0)
    case None => None
    case Some(at) => ExtractArrayFrom(text, at + |key|)
  }

  method FindChar(text: string, from: nat, c: char) returns (at: nat)
    requires from <= |text|
    ensures from <= at <= |text| && (at < |text| ==> text[at] == c) && forall i :: from <= i < at ==> text[i] != c
  {
    at := from;
    while at < |text| && text[at] != c
      invariant from <= at <= |text| && forall i :: from <= i < at ==> text[i] != c
    {
      at := at + 1;
    }
  }

  lemma {:induction false} NoBracketBefore(text: string, from: nat, at: nat)
    requires from <= at <= |text| && forall i :: from <= i < at ==> text[i] != '['
    ensures ExtractArrayFrom(text, from) == ExtractArrayFrom(text, at)
    decreases at - from
  {
    if from < at {
      NoBracketBefore(text, from + 1, at);
    }
  }

  method ExtractJsonArrayAfterKey(text: string, key: string) returns (r: Option<string>)
    ensures r == ExtractAfterKey(text, key)
  {
    FindKeyIsFirst(text, key, 0);
    var keyIndex := FindKey(text, key, 0);
    if keyIndex.None? {
      return None;
    }
    var start := FindChar(text, keyIndex.value + |key|, '[');
    NoBracketBefore(text, keyIndex.value + |key|, start);
    if start == |text| {
      return None;
    }
    r := MatchBracket(text, start);
  }

  /** From an opening bracket to the one that closes it. */
  method MatchBracket(text: string, start: nat) returns (r: Option<string>)
    requires start < |text| && text[start] == '['
    ensures r == Found(text, start, EndFrom(text[start + 1..], ENTERED, Squares))
  {
    hide EndFrom;
    ghost var goal := EndFrom(text[start + 1..], ENTERED, Squares);
    var depth: nat, inString, escaped := 0, false, false;
    for index := start to |text|
      invariant index == start ==> depth == 0 && !inString && !escaped
      invariant index > start ==>
        goal == Further(index - start - 1, EndFrom(text[index..], Scan(depth, inString, escaped), Squares))
    {
      var ch := text[index];
      if index > start {
        ScanStep(text, index, Scan(depth, inString, escaped), Squares);
        FurtherTwice(index - start - 1,
          EndFrom(text[index + 1..], Next(Scan(depth, inString, escaped), ch, Squares), Squares));
      }
      if inString {
        if escaped {
          escaped := false;
        } else if ch == '\\' {
          escaped := true;
        } else if ch == '"' {
          inString := false;
        }
        continue;
      }
      if ch == '"' {
        inString := true;
      } else if ch == '[' {
        depth := depth + 1;
      } else if ch == ']' {
        depth := if depth == 0 then 0 else depth - 1;
        if depth == 0 {
          return Some(text[start..index + 1]);
        }
      }
    }
    NothingToScan(text[|text|..], Scan(depth, inString, escaped), Squares);
    return None;
  }

  lemma NothingToScan(s: string, st: Scan, b: Brackets)
    requires s == ""
    ensures EndFrom(s, st, b) == None
  {
  }

  /** The first array after the first place of the key is found whole, whatever
      brackets its strings hold and whatever follows it, unless brackets stand in
      bare values inside it: then it is not. */
  lemma ExtractFindsArray(before: string, key: string, between: string, v: Json, suffix: string)
    requires v.Array? && IsDocument(v, false) && '[' !in between
    requires var text := before + (key + (between + (Print(v, false) + suffix)));
      FindKey(text, key, 0) == Some(|before|)
    ensures var r := ExtractAfterKey(before + (key + (between + (Print(v, false) + suffix))), key);
      && r == Overrun(Print(v, false), suffix, Opened(v, Squares), Squares)
      && (r == Some(Print(v, false)) <==> Opened(v, Squares) == 0)
  {
    hide Print;
    hide IsDocument;
    hide Opened;
    hide Overrun;
    hide FindKey;
    hide ExtractArrayFrom;
    var p := Print(v, false);
    var text := before + (key + (between + (p + suffix)));
    ArrayIsFound(before + (key + between), v, suffix);
    OverrunIsLonger(p, suffix, Opened(v, Squares), Squares);
    KeyThenRest(before, key, between, p + suffix);
    NoBracketBefore(text, |before| + |key|, |before| + |key| + |between|);
  }

  lemma ArrayIsFound(prefix: string, v: Json, suffix: string)
    requires v.Array? && IsDocument(v, false)
    ensures ExtractArrayFrom(prefix + (Print(v, false) + suffix), |prefix|)
         == Overrun(Print(v, false), suffix, Opened(v, Squares), Squares)
  {
    hide EndFrom;
    hide Sinks;
    hide Found;
    hide Overrun;
    hide PrintItems;
    hide ExtractArrayFrom;
    var inside := if v.items.NoItems? then v.space else PrintItems(v.items, false);
    ArrayInsideSinks(v.space, v.items, [']'] + suffix, 1, Squares);
    EnclosedIsFound(prefix, '[', inside, ']', suffix, Opened(v, Squares), Squares);
    EnclosedInText(prefix, '[', inside, ']', suffix);
    BracketHere(prefix + (Print(v, false) + suffix), |prefix|);
  }

  lemma BracketHere(text: string, i: nat)
    requires i < |text| && text[i] == '['
    ensures ExtractArrayFrom(text, i) == Found(text, i, EndFrom(text[i + 1..], ENTERED, Squares))
  {
    hide EndFrom;
  }

  lemma KeyThenRest(before: string, key: string, between: string, rest: string)
    requires '[' !in between
    ensures var text := before + (key + (between + rest));
      && text == (before + (key + between)) + rest
      && forall i :: |before| + |key| <= i < |before| + |key| + |between| ==> text[i] != '['
  {
    var text := before + (key + (between + rest));
    assert forall i :: |before| + |key| <= i < |before| + |key| + |between| ==>
      text[i] == between[i - |before| - |key|];
  }
}
