/** The repairer inverts relaxed printing: on a document with some quotes left
    out it returns the strict print, and it returns nothing exactly when no
    quotes were left out. */
module JsonRoundTrip {
  import opened Wrappers
  import opened Seqs
  import opened JsonText
  import opened JsonRepair

  /** What may follow a value: the end, space, or closing punctuation; never a colon. */
  ghost predicate Follows(rest: string) {
    && (rest == "" || EndsBare(rest[0]))
    && (SpaceLength(rest) == |rest| || rest[SpaceLength(rest)] != ':')
  }

  lemma JsonSpaceIsWhitespace(c: char)
    requires c == ' ' || c == '\t' || c == '\n' || c == '\r'
    ensures IsWhitespace(c) && c != '"' && !IsKeyStart(c) && !IsBareStart(c)
  {
  }

  lemma {:induction false} SpaceLengthOf(space: string, rest: string)
    requires IsSpace(space) && (rest == "" || !IsWhitespace(rest[0]))
    ensures SpaceLength(space + rest) == |space|
  {
    if space == "" {
      assert space + rest == rest;
    } else {
      JsonSpaceIsWhitespace(space[0]);
      assert (space + rest)[1..] == space[1..] + rest;
      SpaceLengthOf(space[1..], rest);
    }
  }

  /** Space, then a comma or a closing bracket, may follow a value. */
  lemma SpaceThenFollows(space: string, rest: string)
    requires IsSpace(space) && rest != "" && (rest[0] == ',' || rest[0] == '}' || rest[0] == ']')
    ensures Follows(space + rest)
  {
    SpaceLengthOf(space, rest);
    if space != "" {
      JsonSpaceIsWhitespace(space[0]);
      assert (space + rest)[0] == space[0];
    } else {
      assert space + rest == rest;
    }
    assert (space + rest)[|space|] == rest[0];
  }

  lemma SpaceAloneFollows(space: string)
    requires IsSpace(space)
    ensures Follows(space)
  {
    SpaceLengthOf(space, "");
    assert space + "" == space;
    if space != "" {
      JsonSpaceIsWhitespace(space[0]);
    }
  }

  // ------------------------------------------------------------------------ copied characters

  lemma Front(c: char, tail: string)
    ensures ([c] + tail)[0] == c && ([c] + tail)[..1] == [c] && ([c] + tail)[1..] == tail
  {
  }

  lemma EmitNothing(r: Repaired)
    ensures Emit("", false, r) == r
  {
    assert "" + r.text == r.text;
  }

  lemma EmitSeq(a: string, ca: bool, b: string, cb: bool, r: Repaired)
    ensures Emit(a, ca, Emit(b, cb, r)) == Emit(a + b, ca || cb, r)
  {
    Reassociate(a, b, r.text);
  }

  /** Space is copied and changes nothing. */
  lemma {:induction false} RunSpace(space: string, rest: string, context: Context)
    requires IsSpace(space)
    ensures Run(space + rest, Outside(context)) == Emit(space, false, Run(rest, Outside(context)))
  {
    if space == "" {
      assert space + rest == rest;
      EmitNothing(Run(rest, Outside(context)));
    } else {
      JsonSpaceIsWhitespace(space[0]);
      HeadTail(space);
      Reassociate([space[0]], space[1..], rest);
      Front(space[0], space[1..] + rest);
      RunSpace(space[1..], rest, context);
      EmitSeq([space[0]], false, space[1..], false, Run(rest, Outside(context)));
    }
  }

  /** Punctuation is copied and sets the context. */
  lemma RunPunctuation(c: char, rest: string, context: Context)
    requires c == '{' || c == '}' || c == '[' || c == ']' || c == ',' || c == ':'
    ensures Run([c] + rest, Outside(context)) == Emit([c], false, Run(rest, Outside(After(c))))
  {
    assert !IsKeyStart(c) && !IsBareStart(c) && !IsWhitespace(c) && c != '"';
    Front(c, rest);
  }

  /** A string body and its closing quote are copied. */
  lemma {:induction false} RunBody(body: string, rest: string)
    requires IsBody(body)
    ensures Run((body + "\"") + rest, InString(false)) == Emit(body + "\"", false, Run(rest, Outside(Plain)))
  {
    if body == "" {
      assert body + "\"" == "\"";
      Front('"', rest);
    } else if body[0] == '\\' {
      var tail := (body[2..] + "\"") + rest;
      assert (body + "\"") + rest == [body[0]] + ([body[1]] + tail);
      Front(body[0], [body[1]] + tail);
      Front(body[1], tail);
      RunBody(body[2..], rest);
      EmitSeq([body[1]], false, body[2..] + "\"", false, Run(rest, Outside(Plain)));
      EmitSeq([body[0]], false, [body[1]] + (body[2..] + "\""), false, Run(rest, Outside(Plain)));
      assert [body[0]] + ([body[1]] + (body[2..] + "\"")) == body + "\"";
    } else {
      var tail := (body[1..] + "\"") + rest;
      assert (body + "\"") + rest == [body[0]] + tail;
      Front(body[0], tail);
      RunBody(body[1..], rest);
      EmitSeq([body[0]], false, body[1..] + "\"", false, Run(rest, Outside(Plain)));
      assert [body[0]] + (body[1..] + "\"") == body + "\"";
    }
  }

  lemma RunQuoted(body: string, rest: string, context: Context)
    requires IsBody(body)
    ensures Run(Quote(body) + rest, Outside(context)) == Emit(Quote(body), false, Run(rest, Outside(Plain)))
  {
    hide Run;
    var tail := (body + "\"") + rest;
    assert Quote(body) + rest == ['"'] + tail;
    Front('"', tail);
    QuoteStep(['"'] + tail, context);
    RunBody(body, rest);
    EmitSeq(['"'], false, body + "\"", false, Run(rest, Outside(Plain)));
    assert ['"'] + (body + "\"") == Quote(body);
  }

  // --------------------------------------------------------------------------------- literals

  lemma {:induction false} NameLengthOf(name: string, rest: string)
    requires forall i :: 0 <= i < |name| ==> IsKeyPart(name[i])
    requires rest == "" || !IsKeyPart(rest[0])
    ensures NameLength(name + rest) == |name|
  {
    if name == "" {
      assert name + rest == rest;
    } else {
      assert (name + rest)[1..] == name[1..] + rest;
      NameLengthOf(name[1..], rest);
    }
  }

  lemma {:induction false} BareLengthOf(t: string, rest: string)
    requires forall i :: 0 <= i < |t| ==> !EndsBare(t[i])
    requires rest == "" || EndsBare(rest[0])
    ensures BareLength(t + rest) == |t|
  {
    if t == "" {
      assert t + rest == rest;
    } else {
      assert (t + rest)[1..] == t[1..] + rest;
      BareLengthOf(t[1..], rest);
    }
  }

  /** A character of a literal: copied with no effect once the context is plain. */
  ghost predicate Ordinary(c: char) {
    c != '"' && !IsWhitespace(c) && After(c) == Plain
  }

  lemma {:induction false} RunOrdinary(s: string, rest: string)
    requires forall i :: 0 <= i < |s| ==> Ordinary(s[i])
    ensures Run(s + rest, Outside(Plain)) == Emit(s, false, Run(rest, Outside(Plain)))
  {
    if s == "" {
      assert s + rest == rest;
      EmitNothing(Run(rest, Outside(Plain)));
    } else {
      assert Ordinary(s[0]);
      HeadTail(s);
      Reassociate([s[0]], s[1..], rest);
      Front(s[0], s[1..] + rest);
      RunOrdinary(s[1..], rest);
      EmitSeq([s[0]], false, s[1..], false, Run(rest, Outside(Plain)));
    }
  }

  /** A word whose first character triggers no rule is copied. */
  lemma RunWord(word: string, rest: string, context: Context)
    requires word != "" && forall i :: 0 <= i < |word| ==> Ordinary(word[i])
    requires context == WantKey ==> !KeyAhead(word + rest)
    requires context == WantValue ==> !ValueAhead(word + rest)
    ensures Run(word + rest, Outside(context)) == Emit(word, false, Run(rest, Outside(Plain)))
  {
    assert Ordinary(word[0]);
    HeadTail(word);
    Reassociate([word[0]], word[1..], rest);
    Front(word[0], word[1..] + rest);
    RunOrdinary(word[1..], rest);
    EmitSeq([word[0]], false, word[1..], false, Run(rest, Outside(Plain)));
  }

  lemma KeywordCharacters(word: string)
    requires IsKeyword(word)
    ensures word != "" && forall i :: 0 <= i < |word| ==> Ordinary(word[i]) && IsKeyPart(word[i]) && !EndsBare(word[i])
  {
  }

  lemma NumberCharacter(c: char)
    requires IsNumberPart(c)
    ensures Ordinary(c)
  {
  }

  lemma RunLiteral(word: string, rest: string, context: Context)
    requires (IsKeyword(word) || IsNumber(word)) && Follows(rest)
    ensures Run(word + rest, Outside(context)) == Emit(word, false, Run(rest, Outside(Plain)))
  {
    if IsKeyword(word) {
      KeywordCharacters(word);
      NameLengthOf(word, rest);
      BareLengthOf(word, rest);
      PrefixOfConcat(word, rest);
    } else {
      forall i | 0 <= i < |word|
        ensures Ordinary(word[i])
      {
        NumberCharacter(word[i]);
      }
      assert (word + rest)[0] == word[0];
    }
    RunWord(word, rest, context);
  }

  // ------------------------------------------------------------------- what gets its quotes back

  /** A bare value followed by a delimiter is quoted. */
  lemma RunBare(t: string, rest: string)
    requires IsBareText(t) && Follows(rest)
    ensures Run(t + rest, Outside(WantValue)) == Emit(Quote(t), true, Run(rest, Outside(Plain)))
  {
    BareLengthOf(t, rest);
    PrefixOfConcat(t, rest);
    assert (t + rest)[0] == t[0] != '"';
  }

  /** An identifier key, its space and the colon: the name is quoted. */
  lemma RunName(name: string, between: string, rest: string)
    requires IsName(name) && IsSpace(between)
    ensures Run(name + (between + (":" + rest)), Outside(WantKey))
         == Emit(Quote(name) + between, true, Run(":" + rest, Outside(WantKey)))
  {
    hide Run;
    hide KeyAhead;
    var s := name + (between + (":" + rest));
    NameIsAhead(name, between, rest);
    KeyStep(s);
    NameParts(name, between, ":" + rest);
  }

  lemma NameIsAhead(name: string, between: string, rest: string)
    requires IsName(name) && IsSpace(between)
    ensures var s := name + (between + (":" + rest));
      s[0] != '"' && KeyAhead(s) && NameLength(s) == |name| && SpaceLength(s[|name|..]) == |between|
  {
    hide NameLength;
    hide SpaceLength;
    var colon := ":" + rest;
    var tail := between + colon;
    SpaceLengthOf(between, colon);
    if between != "" {
      JsonSpaceIsWhitespace(between[0]);
      SpaceIsNoName(between[0]);
      assert tail[0] == between[0];
    } else {
      assert tail == colon;
    }
    NameLengthOf(name, tail);
    NameParts(name, between, colon);
    assert (name + tail)[0] == name[0] && IsKeyStart(name[0]);
  }

  lemma SpaceIsNoName(c: char)
    requires c == ' ' || c == '\t' || c == '\n' || c == '\r'
    ensures !IsKeyPart(c)
  {
  }

  lemma NameParts(name: string, between: string, colon: string)
    requires colon != ""
    ensures var s, n, w := name + (between + colon), |name|, |name| + |between|;
      && w < |s| && s[w] == colon[0]
      && s[..n] == name && s[n..] == between + colon && s[n..w] == between && s[w..] == colon
  {
  }

  // -------------------------------------------------------------------------- whole documents

  /** Four parts emitted one after the other. */
  lemma EmitFour(a: string, b: string, cb: bool, c: string, d: string, cd: bool, r: Repaired)
    ensures Emit(a, false, Emit(b, cb, Emit(c, false, Emit(d, cd, r)))) == Emit(a + (b + (c + d)), cb || cd, r)
  {
    EmitSeq(c, false, d, cd, r);
    EmitSeq(b, cb, c + d, cd, r);
    EmitSeq(a, false, b + (c + d), cb || cd, r);
  }

  lemma JoinFour(a: string, b: string, c: string, d: string, rest: string)
    ensures (a + (b + (c + d))) + rest == a + (b + (c + (d + rest)))
  {
  }

  /** The part of a list after its first element. */
  ghost function MoreItems(rest: Items, strict: bool): string {
    if rest.NoItems? then "" else "," + PrintItems(rest, strict)
  }

  ghost function MoreMembers(rest: Members, strict: bool): string {
    if rest.NoMembers? then "" else "," + PrintMembers(rest, strict)
  }

  lemma {:induction false} RunValue(v: Json, rest: string, context: Context, asMember: bool)
    requires IsDocument(v, asMember) && Follows(rest) && (asMember ==> context == WantValue)
    ensures Run(Print(v, false) + rest, Outside(context)) == Emit(Print(v, true), HasBare(v), Run(rest, Outside(Plain)))
    decreases v, 0
  {
    match v
    case Literal(word) => RunLiteral(word, rest, context);
    case Text(body) => RunQuoted(body, rest, context);
    case Bare(text) => RunBare(text, rest);
    case Array(space, items) => RunArray(v, rest, context);
    case Object(space, members) => RunObject(v, rest, context);
  }

  lemma {:induction false} RunArray(v: Json, rest: string, context: Context)
    requires v.Array? && IsSpace(v.space) && AreItems(v.items)
    ensures Run(Print(v, false) + rest, Outside(context)) == Emit(Print(v, true), HasBare(v), Run(rest, Outside(Plain)))
    decreases v.items, 2
  {
    var close := [']'] + rest;
    var inside := if v.items.NoItems? then v.space else PrintItems(v.items, false);
    var strict := if v.items.NoItems? then v.space else PrintItems(v.items, true);
    assert Print(v, false) + rest == ['['] + (inside + close);
    RunPunctuation('[', inside + close, context);
    if v.items.NoItems? {
      RunSpace(v.space, close, Plain);
    } else {
      RunItems(v.items, close, Plain);
    }
    RunPunctuation(']', rest, Plain);
    EmitBracketed('[', strict, HasBare(v), ']', Run(rest, Outside(Plain)));
  }

  lemma {:induction false} RunObject(v: Json, rest: string, context: Context)
    requires v.Object? && IsSpace(v.space) && AreMembers(v.members)
    ensures Run(Print(v, false) + rest, Outside(context)) == Emit(Print(v, true), HasBare(v), Run(rest, Outside(Plain)))
    decreases v.members, 2
  {
    var close := ['}'] + rest;
    var inside := if v.members.NoMembers? then v.space else PrintMembers(v.members, false);
    var strict := if v.members.NoMembers? then v.space else PrintMembers(v.members, true);
    assert Print(v, false) + rest == ['{'] + (inside + close);
    RunPunctuation('{', inside + close, context);
    if v.members.NoMembers? {
      RunSpace(v.space, close, WantKey);
      RunPunctuation('}', rest, WantKey);
    } else {
      RunMembers(v.members, close);
      RunPunctuation('}', rest, Plain);
    }
    EmitBracketed('{', strict, HasBare(v), '}', Run(rest, Outside(Plain)));
  }

  lemma EmitBracketed(open: char, inside: string, changed: bool, close: char, r: Repaired)
    ensures Emit([open], false, Emit(inside, changed, Emit([close], false, r)))
      == Emit([open] + (inside + [close]), changed, r)
  {
    EmitSeq(inside, changed, [close], false, r);
    EmitSeq([open], false, inside + [close], changed, r);
  }

  lemma {:induction false} RunItems(items: Items, close: string, context: Context)
    requires AreItems(items) && items.Item? && close != "" && close[0] == ']'
    ensures Run(PrintItems(items, false) + close, Outside(context))
         == Emit(PrintItems(items, true), ItemsHaveBare(items), Run(close, Outside(Plain)))
    decreases items, 1
  {
    var Item(before, value, after, rest) := items;
    var tail := MoreItems(rest, false) + close;
    JoinFour(before, Print(value, false), after, MoreItems(rest, false), close);
    RunSpace(before, Print(value, false) + (after + tail), context);
    MoreItemsStart(rest, close);
    SpaceThenFollows(after, tail);
    RunValue(value, after + tail, context, false);
    RunSpace(after, tail, Plain);
    RunMoreItems(rest, close);
    EmitFour(before, Print(value, true), HasBare(value), after, MoreItems(rest, true), ItemsHaveBare(rest),
      Run(close, Outside(Plain)));
  }

  lemma MoreItemsStart(rest: Items, close: string)
    requires close != "" && close[0] == ']'
    ensures var tail := MoreItems(rest, false) + close; tail != "" && (tail[0] == ',' || tail[0] == ']')
  {
    if rest.NoItems? {
      assert "" + close == close;
    }
  }

  lemma {:induction false} RunMoreItems(rest: Items, close: string)
    requires AreItems(rest) && close != "" && close[0] == ']'
    ensures Run(MoreItems(rest, false) + close, Outside(Plain))
         == Emit(MoreItems(rest, true), ItemsHaveBare(rest), Run(close, Outside(Plain)))
    decreases rest, 2
  {
    if rest.NoItems? {
      assert "" + close == close;
      EmitNothing(Run(close, Outside(Plain)));
    } else {
      Reassociate([','], PrintItems(rest, false), close);
      RunPunctuation(',', PrintItems(rest, false) + close, Plain);
      RunItems(rest, close, WantKey);
      EmitSeq([','], false, PrintItems(rest, true), ItemsHaveBare(rest), Run(close, Outside(Plain)));
    }
  }

  /** A key, the space after it and the colon. */
  lemma RunKey(key: Key, between: string, rest: string)
    requires IsKey(key) && IsSpace(between)
    ensures Run(PrintKey(key, false) + (between + (":" + rest)), Outside(WantKey))
         == Emit(PrintKey(key, true) + (between + ":"), key.Unquoted?, Run(rest, Outside(WantValue)))
  {
    var colon := [':'] + rest;
    if key.Unquoted? {
      RunName(key.name, between, rest);
      RunPunctuation(':', rest, WantKey);
      EmitSeq(Quote(key.name) + between, true, [':'], false, Run(rest, Outside(WantValue)));
      Reassociate(Quote(key.name), between, [':']);
    } else {
      RunQuoted(key.body, between + colon, WantKey);
      RunSpace(between, colon, Plain);
      RunPunctuation(':', rest, Plain);
      EmitSeq(between, false, [':'], false, Run(rest, Outside(WantValue)));
      EmitSeq(Quote(key.body), false, between + [':'], false, Run(rest, Outside(WantValue)));
    }
  }

  /** A member's print as key, value and what follows, and a member list's as its parts. */
  lemma MemberParts(members: Members, strict: bool, close: string)
    requires members.Member?
    ensures var Member(before, key, between, gap, value, after, rest) := members;
      && PrintMembers(members, strict) ==
           (before + (PrintKey(key, strict) + (between + ":")))
             + (gap + (Print(value, strict) + (after + MoreMembers(rest, strict))))
      && PrintMembers(members, strict) + close ==
           before + (PrintKey(key, strict)
             + (between + (":" + (gap + (Print(value, strict) + (after + (MoreMembers(rest, strict) + close)))))))
  {
    var Member(before, key, between, gap, value, after, rest) := members;
    var k, v, m := PrintKey(key, strict), Print(value, strict), MoreMembers(rest, strict);
    SevenParts(before, k, between, ":", gap, v, after, m, close);
  }

  lemma SevenParts(a: string, b: string, c: string, d: string, e: string, f: string, g: string, h: string,
      close: string)
    ensures a + (b + (c + (d + (e + (f + (g + h)))))) == (a + (b + (c + d))) + (e + (f + (g + h)))
    ensures (a + (b + (c + (d + (e + (f + (g + h))))))) + close == a + (b + (c + (d + (e + (f + (g + (h + close)))))))
  {
    var tail := e + (f + (g + h));
    JoinFour(a, b, c, d, tail);
    JoinFour(e, f, g, h, close);
    JoinFour(a, b, c, d + tail, close);
    Reassociate(d, tail, close);
  }

  lemma {:induction false} RunMembers(members: Members, close: string)
    requires AreMembers(members) && members.Member? && close != "" && close[0] == '}'
    ensures Run(PrintMembers(members, false) + close, Outside(WantKey))
         == Emit(PrintMembers(members, true), MembersHaveBare(members), Run(close, Outside(Plain)))
    decreases members, 1
  {
    var Member(before, key, between, gap, value, after, rest) := members;
    var tail := MoreMembers(rest, false) + close;
    var body := gap + (Print(value, false) + (after + tail));
    MemberParts(members, false, close);
    RunSpace(before, PrintKey(key, false) + (between + (":" + body)), WantKey);
    RunKey(key, between, body);
    EmitSeq(before, false, PrintKey(key, true) + (between + ":"), key.Unquoted?, Run(body, Outside(WantValue)));
    RunSpace(gap, Print(value, false) + (after + tail), WantValue);
    MoreMembersStart(rest, close);
    SpaceThenFollows(after, tail);
    RunValue(value, after + tail, WantValue, true);
    RunSpace(after, tail, Plain);
    RunMoreMembers(rest, close);
    EmitFour(gap, Print(value, true), HasBare(value), after, MoreMembers(rest, true), MembersHaveBare(rest),
      Run(close, Outside(Plain)));
    EmitSeq(before + (PrintKey(key, true) + (between + ":")), key.Unquoted?,
      gap + (Print(value, true) + (after + MoreMembers(rest, true))),
      HasBare(value) || MembersHaveBare(rest), Run(close, Outside(Plain)));
    MemberParts(members, true, close);
  }

  lemma MoreMembersStart(rest: Members, close: string)
    requires close != "" && close[0] == '}'
    ensures var tail := MoreMembers(rest, false) + close; tail != "" && (tail[0] == ',' || tail[0] == '}')
  {
    if rest.NoMembers? {
      assert "" + close == close;
    }
  }

  lemma {:induction false} RunMoreMembers(rest: Members, close: string)
    requires AreMembers(rest) && close != "" && close[0] == '}'
    ensures Run(MoreMembers(rest, false) + close, Outside(Plain))
         == Emit(MoreMembers(rest, true), MembersHaveBare(rest), Run(close, Outside(Plain)))
    decreases rest, 2
  {
    if rest.NoMembers? {
      assert "" + close == close;
      EmitNothing(Run(close, Outside(Plain)));
    } else {
      Reassociate([','], PrintMembers(rest, false), close);
      RunPunctuation(',', PrintMembers(rest, false) + close, Plain);
      RunMembers(rest, close);
      EmitSeq([','], false, PrintMembers(rest, true), MembersHaveBare(rest), Run(close, Outside(Plain)));
    }
  }

  /** The repairer returns the strict print of a document exactly when some
      quotes were left out, and nothing otherwise. */
  lemma RepairInvertsRelaxedPrint(before: string, v: Json, after: string)
    requires IsSpace(before) && IsDocument(v, false) && IsSpace(after)
    ensures Repair(before + (Print(v, false) + after))
         == if HasBare(v) then Some(before + (Print(v, true) + after)) else None
  {
    RunSpace(before, Print(v, false) + after, Plain);
    SpaceAloneFollows(after);
    RunValue(v, after, Plain, false);
    RunSpace(after, "", Plain);
    assert after + "" == after;
    var done := Run("", Outside(Plain));
    EmitSeq(Print(v, true), HasBare(v), after, false, done);
    EmitSeq(before, false, Print(v, true) + after, HasBare(v), done);
    assert (before + (Print(v, true) + after)) + "" == before + (Print(v, true) + after);
  }

  /** What the repairer returns needs no further repair. */
  lemma RepairIsIdempotent(before: string, v: Json, after: string)
    requires IsSpace(before) && IsDocument(v, false) && IsSpace(after)
    ensures Repair(before + (Print(v, true) + after)) == None
  {
    StrictPrintIsQuoted(v, false);
    RepairInvertsRelaxedPrint(before, WithQuotes(v), after);
  }

  // ------------------------------------------------------------------- what may lose its quotes

  predicate Letter(c: char) { 'a' <= c <= 'z' || 'A' <= c <= 'Z' }

  /** Letters, digits, `_` and `-`, a letter or `_` first. */
  predicate NameByCharacters(t: string) {
    && t != "" && (Letter(t[0]) || t[0] == '_')
    && forall i :: 0 <= i < |t| ==> Letter(t[i]) || '0' <= t[i] <= '9' || t[i] == '_' || t[i] == '-'
  }

  /** Any visible ASCII characters but comma, closing brackets, quote and backslash,
      a letter, `_`, `.` or `/` first, and no keyword. */
  predicate BareByCharacters(t: string) {
    && t != "" && (Letter(t[0]) || t[0] == '_' || t[0] == '.' || t[0] == '/')
    && t != "true" && t != "false" && t != "null"
    && forall i :: 0 <= i < |t| ==>
         '!' <= t[i] <= '~' && t[i] != ',' && t[i] != '}' && t[i] != ']' && t[i] != '"' && t[i] != '\\'
  }

  lemma TextByCharacters(t: string)
    ensures IsName(t) <==> NameByCharacters(t)
    ensures (forall i :: 0 <= i < |t| ==> '!' <= t[i] <= '~') ==> (IsBareText(t) <==> BareByCharacters(t))
  {
  }

  /** A member whose key and value lost their quotes gets them back, whatever other
      characters stand in the value: an address keeps its colon and slashes. */
  lemma OneMemberIsRepaired(key: string, value: string)
    requires NameByCharacters(key) && BareByCharacters(value)
    ensures Repair("{" + (key + (": " + (value + "}"))))
         == Some("{" + ("\"" + key + "\"" + (": " + ("\"" + value + "\"" + "}"))))
  {
    hide Repair;
    hide Print;
    hide IsDocument;
    hide HasBare;
    hide OneMember;
    var v := OneMember(key, value);
    OneMemberIsDocument(key, value);
    OneMemberPrint(key, value);
    RepairInvertsRelaxedPrint("", v, "");
    assert "" + (Print(v, false) + "") == Print(v, false) && "" + (Print(v, true) + "") == Print(v, true);
  }

  function OneMember(key: string, value: string): Json {
    Object("", Member("", Unquoted(key), "", " ", Bare(value), "", NoMembers))
  }

  lemma OneMemberIsDocument(key: string, value: string)
    requires NameByCharacters(key) && BareByCharacters(value)
    ensures IsDocument(OneMember(key, value), false) && HasBare(OneMember(key, value)) && IsSpace("")
  {
    hide IsName;
    hide IsBareText;
    TextByCharacters(key);
    TextByCharacters(value);
    assert IsSpace("") && IsSpace(" ");
    var members := OneMember(key, value).members;
    assert AreMembers(NoMembers) && IsDocument(Bare(value), true) && IsKey(Unquoted(key));
    assert AreMembers(members) && MembersHaveBare(members);
  }

  lemma OneMemberPrint(key: string, value: string)
    ensures Print(OneMember(key, value), false) == "{" + (key + (": " + (value + "}")))
    ensures Print(OneMember(key, value), true)
         == "{" + ("\"" + key + "\"" + (": " + ("\"" + value + "\"" + "}")))
  {
    var members := OneMember(key, value).members;
    assert PrintMembers(members, false) == "" + (key + ("" + (":" + (" " + (value + ("" + ""))))));
    assert PrintMembers(members, true) == "" + (Quote(key) + ("" + (":" + (" " + (Quote(value) + ("" + ""))))));
    MemberParted(key, value);
    MemberParted("\"" + key + "\"", "\"" + value + "\"");
  }

  lemma MemberParted(k: string, w: string)
    ensures "{" + (("" + (k + ("" + (":" + (" " + (w + ("" + ""))))))) + "}") == "{" + (k + (": " + (w + "}")))
  {
  }
}
