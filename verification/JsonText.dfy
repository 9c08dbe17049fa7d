/** JSON documents as agents write them: a value tree that keeps every space,
    and whose member keys and string values may have lost their quotes.  It
    prints two ways, relaxed (as written) and strict (section 2 of RFC 8259). */
module JsonText {

  datatype Json =
    | Literal(word: string)
    | Text(body: string)
    | Bare(text: string)
    | Array(space: string, items: Items)
    | Object(space: string, members: Members)

  datatype Items =
    | NoItems
    | Item(before: string, value: Json, after: string, rest: Items)

  datatype Key = Quoted(body: string) | Unquoted(name: string)

  datatype Members =
    | NoMembers
    | Member(before: string, key: Key, between: string, gap: string, value: Json, after: string, rest: Members)

  // ------------------------------------------------------------------------- character classes

  /** Unicode white space. */
  predicate IsWhitespace(c: char) {
    var n := c as int;
    || 0x09 <= n <= 0x0D || n == 0x20 || n == 0x85 || n == 0xA0 || n == 0x1680
    || 0x2000 <= n <= 0x200A || n == 0x2028 || n == 0x2029 || n == 0x202F || n == 0x205F || n == 0x3000
  }

  predicate IsAsciiAlpha(c: char) { 'a' <= c <= 'z' || 'A' <= c <= 'Z' }
  predicate IsAsciiDigit(c: char) { '0' <= c <= '9' }
  predicate IsKeyStart(c: char) { c == '_' || IsAsciiAlpha(c) }
  predicate IsKeyPart(c: char) { c == '_' || c == '-' || IsAsciiAlpha(c) || IsAsciiDigit(c) }
  predicate IsBareStart(c: char) { c == '_' || c == '.' || c == '/' || IsAsciiAlpha(c) }
  predicate EndsBare(c: char) { IsWhitespace(c) || c == ',' || c == '}' || c == ']' }

  predicate IsKeyword(word: string) { word == "true" || word == "false" || word == "null" }

  predicate IsNumberPart(c: char) { IsAsciiDigit(c) || c == '+' || c == '-' || c == '.' || c == 'e' || c == 'E' }

  /** At least every number of section 6 of RFC 8259. */
  predicate IsNumber(word: string) {
    word != "" && (IsAsciiDigit(word[0]) || word[0] == '-') && forall i :: 0 <= i < |word| ==> IsNumberPart(word[i])
  }

  /** At least every string body of section 7 of RFC 8259: quotes only after a backslash, escapes complete. */
  predicate IsBody(body: string) {
    if body == "" then true
    else if body[0] == '\\' then |body| >= 2 && IsBody(body[2..])
    else body[0] != '"' && IsBody(body[1..])
  }

  predicate IsSpace(s: string) {
    forall i :: 0 <= i < |s| ==> s[i] == ' ' || s[i] == '\t' || s[i] == '\n' || s[i] == '\r'
  }

  predicate IsName(name: string) {
    name != "" && IsKeyStart(name[0]) && forall i :: 0 <= i < |name| ==> IsKeyPart(name[i])
  }

  /** A string that can lose its quotes where an object member's value stands. */
  predicate IsBareText(t: string) {
    && t != "" && IsBareStart(t[0]) && !IsKeyword(t)
    && forall i :: 0 <= i < |t| ==> !EndsBare(t[i]) && t[i] != '"' && t[i] != '\\'
  }

  // ------------------------------------------------------------------------------ the printers

  function Quote(body: string): string {
    "\"" + body + "\""
  }

  function PrintKey(k: Key, strict: bool): string {
    match k
    case Quoted(body) => Quote(body)
    case Unquoted(name) => if strict then Quote(name) else name
  }

  function Print(v: Json, strict: bool): string {
    match v
    case Literal(word) => word
    case Text(body) => Quote(body)
    case Bare(text) => if strict then Quote(text) else text
    case Array(space, items) => "[" + ((if items.NoItems? then space else PrintItems(items, strict)) + "]")
    case Object(space, members) => "{" + ((if members.NoMembers? then space else PrintMembers(members, strict)) + "}")
  }

  function PrintItems(items: Items, strict: bool): string {
    match items
    case NoItems => ""
    case Item(before, value, after, rest) =>
      before + (Print(value, strict) + (after + (if rest.NoItems? then "" else "," + PrintItems(rest, strict))))
  }

  function PrintMembers(members: Members, strict: bool): string {
    match members
    case NoMembers => ""
    case Member(before, key, between, gap, value, after, rest) =>
      before + (PrintKey(key, strict) + (between + (":" + (gap + (Print(value, strict) +
        (after + (if rest.NoMembers? then "" else "," + PrintMembers(rest, strict))))))))
  }

  // -------------------------------------------------------------------- which trees are documents

  predicate IsKey(k: Key) {
    match k
    case Quoted(body) => IsBody(body)
    case Unquoted(name) => IsName(name)
  }

  /** A bare string may stand only as a member's value. */
  predicate IsDocument(v: Json, asMember: bool) {
    match v
    case Literal(word) => IsKeyword(word) || IsNumber(word)
    case Text(body) => IsBody(body)
    case Bare(text) => asMember && IsBareText(text)
    case Array(space, items) => IsSpace(space) && AreItems(items)
    case Object(space, members) => IsSpace(space) && AreMembers(members)
  }

  predicate AreItems(items: Items) {
    match items
    case NoItems => true
    case Item(before, value, after, rest) =>
      IsSpace(before) && IsDocument(value, false) && IsSpace(after) && AreItems(rest)
  }

  predicate AreMembers(members: Members) {
    match members
    case NoMembers => true
    case Member(before, key, between, gap, value, after, rest) =>
      && IsSpace(before) && IsKey(key) && IsSpace(between) && IsSpace(gap)
      && IsDocument(value, true) && IsSpace(after) && AreMembers(rest)
  }

  /** Something was left without its quotes. */
  predicate HasBare(v: Json) {
    match v
    case Literal(_) => false
    case Text(_) => false
    case Bare(_) => true
    case Array(_, items) => ItemsHaveBare(items)
    case Object(_, members) => MembersHaveBare(members)
  }

  predicate ItemsHaveBare(items: Items) {
    match items
    case NoItems => false
    case Item(_, value, _, rest) => HasBare(value) || ItemsHaveBare(rest)
  }

  predicate MembersHaveBare(members: Members) {
    match members
    case NoMembers => false
    case Member(_, key, _, _, value, _, rest) => key.Unquoted? || HasBare(value) || MembersHaveBare(rest)
  }

  // --------------------------------------------------------------- giving every string its quotes

  function WithQuotes(v: Json): Json {
    match v
    case Literal(_) => v
    case Text(_) => v
    case Bare(text) => Text(text)
    case Array(space, items) => Array(space, ItemsWithQuotes(items))
    case Object(space, members) => Object(space, MembersWithQuotes(members))
  }

  function ItemsWithQuotes(items: Items): Items {
    match items
    case NoItems => NoItems
    case Item(before, value, after, rest) => Item(before, WithQuotes(value), after, ItemsWithQuotes(rest))
  }

  function MembersWithQuotes(members: Members): Members {
    match members
    case NoMembers => NoMembers
    case Member(before, key, between, gap, value, after, rest) =>
      Member(before, if key.Unquoted? then Quoted(key.name) else key, between, gap, WithQuotes(value), after,
        MembersWithQuotes(rest))
  }

  lemma {:induction false} PlainIsBody(s: string)
    requires forall i :: 0 <= i < |s| ==> s[i] != '"' && s[i] != '\\'
    ensures IsBody(s)
  {
    if s != "" {
      PlainIsBody(s[1..]);
    }
  }

  /** The strict print of a document is the print of the same document with all
      its quotes, which is a document too and has nothing bare in it. */
  lemma {:induction false} StrictPrintIsQuoted(v: Json, asMember: bool)
    requires IsDocument(v, asMember)
    ensures IsDocument(WithQuotes(v), false) && !HasBare(WithQuotes(v))
    ensures Print(v, true) == Print(WithQuotes(v), false)
    decreases v, 0
  {
    match v
    case Literal(_) =>
    case Text(_) =>
    case Bare(text) => PlainIsBody(text);
    case Array(_, items) => StrictItemsAreQuoted(items);
    case Object(_, members) => StrictMembersAreQuoted(members);
  }

  lemma {:induction false} StrictItemsAreQuoted(items: Items)
    requires AreItems(items)
    ensures AreItems(ItemsWithQuotes(items)) && !ItemsHaveBare(ItemsWithQuotes(items))
    ensures PrintItems(items, true) == PrintItems(ItemsWithQuotes(items), false)
    decreases items, 1
  {
    match items
    case NoItems =>
    case Item(before, value, after, rest) =>
      StrictPrintIsQuoted(value, false);
      StrictItemsAreQuoted(rest);
  }

  lemma {:induction false} StrictMembersAreQuoted(members: Members)
    requires AreMembers(members)
    ensures AreMembers(MembersWithQuotes(members)) && !MembersHaveBare(MembersWithQuotes(members))
    ensures PrintMembers(members, true) == PrintMembers(MembersWithQuotes(members), false)
    decreases members, 1
  {
    match members
    case NoMembers =>
    case Member(before, key, between, gap, value, after, rest) =>
      StrictPrintIsQuoted(value, true);
      StrictMembersAreQuoted(rest);
      if key.Unquoted? {
        PlainIsBody(key.name);
      }
  }
}
