/** The repairer: a character machine that puts quotes back around identifier
    keys and bare values, and copies everything else. */
module JsonRepair {
  import opened Wrappers
  import opened Seqs
  import opened JsonText

  /** What the previous significant character allows here: a key after `{` or
      `,`, a value after `:`, nothing special otherwise. */
  datatype Context = WantKey | WantValue | Plain

  datatype Mode = Outside(context: Context) | InString(escaped: bool)

  function ContextAfter(previous: Option<char>): Context {
    match previous
    case None => Plain
    case Some(c) => After(c)
  }

  function After(c: char): Context {
    if c == '{' || c == ',' then WantKey else if c == ':' then WantValue else Plain
  }

  /** Length of the run of key characters at the front. */
  function NameLength(s: string): (n: nat)
    ensures n <= |s|
  {
    if s != "" && IsKeyPart(s[0]) then 1 + NameLength(s[1..]) else 0
  }

  function SpaceLength(s: string): (n: nat)
    ensures n <= |s|
  {
    if s != "" && IsWhitespace(s[0]) then 1 + SpaceLength(s[1..]) else 0
  }

  function BareLength(s: string): (n: nat)
    ensures n <= |s|
  {
    if s != "" && !EndsBare(s[0]) then 1 + BareLength(s[1..]) else 0
  }

  /** An identifier, optional space, and a colon. */
  predicate KeyAhead(s: string) {
    s != "" && IsKeyStart(s[0]) &&
    var n := NameLength(s);
    var w := n + SpaceLength(s[n..]);
    w < |s| && s[w] == ':'
  }

  predicate ValueAhead(s: string) {
    s != "" && IsBareStart(s[0]) && !IsKeyword(s[..BareLength(s)])
  }

  /** The repaired text and whether anything was put in. */
  datatype Repaired = Repaired(text: string, changed: bool)

  function Emit(front: string, changed: bool, r: Repaired): Repaired {
    Repaired(front + r.text, changed || r.changed)
  }

  function StringMode(c: char, escaped: bool): Mode {
    if escaped then InString(false)
    else if c == '\\' then InString(true)
    else if c == '"' then Outside(Plain)
    else InString(false)
  }

  /** The machine from a state on, over the remaining characters. */
  function Run(s: string, mode: Mode): Repaired
    decreases |s|
  {
    if s == "" then Repaired("", false)
    else
      match mode
      case InString(escaped) => Emit(s[..1], false, Run(s[1..], StringMode(s[0], escaped)))
      case Outside(context) => RunOutside(s, context)
  }

  function RunOutside(s: string, context: Context): Repaired
    requires s != ""
    decreases |s|, 0
  {
    if s[0] == '"' then Emit(s[..1], false, Run(s[1..], InString(false)))
    else if context == WantKey && KeyAhead(s) then
      NameIsNotEmpty(s);
      var n := NameLength(s);
      var w := n + SpaceLength(s[n..]);
      Emit(Quote(s[..n]) + s[n..w], true, Run(s[w..], Outside(context)))
    else if context == WantValue && ValueAhead(s) then
      BareIsNotEmpty(s);
      var n := BareLength(s);
      Emit(Quote(s[..n]), true, Run(s[n..], Outside(Plain)))
    else
      Emit(s[..1], false, Run(s[1..], Outside(if IsWhitespace(s[0]) then context else After(s[0]))))
  }

  lemma NameIsNotEmpty(s: string)
    requires KeyAhead(s)
    ensures NameLength(s) > 0
  {
  }

  lemma BareIsNotEmpty(s: string)
    requires ValueAhead(s)
    ensures BareLength(s) > 0
  {
  }

  function Repair(text: string): Option<string> {
    var r := Run(text, Outside(Plain));
    if r.changed then Some(r.text) else None
  }

  // ---------------------------------------------------------------------- the imperative form

  /** An identifier, where it ends, and where the space behind it ends. */
  datatype Identifier = Identifier(name: string, end: nat, afterSpace: nat)

  /** None unless the text is at its end or at a key start. */
  method ReadIdentifier(text: string, start: nat) returns (r: Option<Identifier>)
    ensures r.Some? <==> start <= |text| && (start < |text| ==> IsKeyStart(text[start]))
    ensures r.Some? ==>
      && r.value.end == start + NameLength(text[start..])
      && r.value.name == text[start..r.value.end]
      && r.value.afterSpace == r.value.end + SpaceLength(text[r.value.end..])
  {
    if start > |text| || (start < |text| && !IsKeyStart(text[start])) {
      return None;
    }
    var end := start;
    while end < |text| && IsKeyPart(text[end])
      invariant start <= end <= |text|
      invariant start + NameLength(text[start..]) == end + NameLength(text[end..])
    {
      assert text[end..][1..] == text[end + 1..];
      end := end + 1;
    }
    var afterSpace := end;
    while afterSpace < |text| && IsWhitespace(text[afterSpace])
      invariant end <= afterSpace <= |text|
      invariant end + SpaceLength(text[end..]) == afterSpace + SpaceLength(text[afterSpace..])
    {
      assert text[afterSpace..][1..] == text[afterSpace + 1..];
      afterSpace := afterSpace + 1;
    }
    return Some(Identifier(text[start..end], end, afterSpace));
  }

  datatype BareValue = BareValue(value: string, end: nat)

  /** None unless the text is at its end or at the start of a bare value. */
  method ReadBareValue(text: string, start: nat) returns (r: Option<BareValue>)
    ensures r.Some? <==> start <= |text| && (start < |text| ==> IsBareStart(text[start]))
    ensures r.Some? ==> r.value.end == start + BareLength(text[start..]) && r.value.value == text[start..r.value.end]
  {
    if start > |text| || (start < |text| && !IsBareStart(text[start])) {
      return None;
    }
    var end := start;
    while end < |text| && !EndsBare(text[end])
      invariant start <= end <= |text|
      invariant start + BareLength(text[start..]) == end + BareLength(text[end..])
    {
      assert text[end..][1..] == text[end + 1..];
      end := end + 1;
    }
    return Some(BareValue(text[start..end], end));
  }

  lemma Suffix(text: string, index: nat)
    requires index < |text|
    ensures text[index..] != "" && text[index..][0] == text[index]
    ensures text[index..][..1] == [text[index]] && text[index..][1..] == text[index + 1..]
  {
  }

  lemma KeyAheadAt(text: string, index: nat, end: nat, afterSpace: nat)
    requires index < |text| && end == index + NameLength(text[index..]) && afterSpace == end + SpaceLength(text[end..])
    ensures KeyAhead(text[index..]) <==> IsKeyStart(text[index]) && afterSpace < |text| && text[afterSpace] == ':'
  {
    assert text[index..][end - index..] == text[end..];
  }

  lemma KeySlices(text: string, index: nat, end: nat, afterSpace: nat)
    requires index <= end <= afterSpace <= |text|
    ensures text[index..][..end - index] == text[index..end]
    ensures text[index..][end - index..] == text[end..]
    ensures text[index..][end - index..afterSpace - index] == text[end..afterSpace]
    ensures text[index..][afterSpace - index..] == text[afterSpace..]
  {
  }

  // One step of the machine, rule by rule.

  lemma EndStep(mode: Mode)
    ensures Run("", mode) == Repaired("", false)
  {
  }

  lemma StringStep(s: string, escaped: bool)
    requires s != ""
    ensures Run(s, InString(escaped)) == Emit(s[..1], false, Run(s[1..], StringMode(s[0], escaped)))
  {
  }

  lemma QuoteStep(s: string, context: Context)
    requires s != "" && s[0] == '"'
    ensures Run(s, Outside(context)) == Emit(s[..1], false, Run(s[1..], InString(false)))
  {
  }

  lemma KeyStep(s: string)
    requires s != "" && s[0] != '"' && KeyAhead(s)
    ensures var n := NameLength(s);
      var w := n + SpaceLength(s[n..]);
      n > 0 && Run(s, Outside(WantKey)) == Emit(Quote(s[..n]) + s[n..w], true, Run(s[w..], Outside(WantKey)))
  {
    NameIsNotEmpty(s);
  }

  lemma KeyStepAt(text: string, index: nat, end: nat, afterSpace: nat)
    requires index < |text| && end == index + NameLength(text[index..]) && afterSpace == end + SpaceLength(text[end..])
    requires text[index] != '"' && KeyAhead(text[index..])
    ensures index < end && Run(text[index..], Outside(WantKey))
      == Emit(Quote(text[index..end]) + text[end..afterSpace], true, Run(text[afterSpace..], Outside(WantKey)))
  {
    hide Run;
    hide KeyAhead;
    KeyStep(text[index..]);
    KeySlices(text, index, end, afterSpace);
  }

  lemma ValueStep(s: string)
    requires s != "" && s[0] != '"' && ValueAhead(s)
    ensures var n := BareLength(s);
      n > 0 && Run(s, Outside(WantValue)) == Emit(Quote(s[..n]), true, Run(s[n..], Outside(Plain)))
  {
    BareIsNotEmpty(s);
  }

  lemma OtherStep(s: string, context: Context)
    requires s != "" && s[0] != '"' && !(context == WantKey && KeyAhead(s)) && !(context == WantValue && ValueAhead(s))
    ensures Run(s, Outside(context))
      == Emit(s[..1], false, Run(s[1..], Outside(if IsWhitespace(s[0]) then context else After(s[0]))))
  {
    hide KeyAhead;
    hide ValueAhead;
  }

  /** Try the key rule: the index of the colon if it applies, else the current index. */
  method TryKey(text: string, index: nat, previous: Option<char>) returns (emitted: string, next: nat)
    requires index < |text| && text[index] != '"'
    ensures next == index <==> !(ContextAfter(previous) == WantKey && KeyAhead(text[index..]))
    ensures index <= next < |text|
    ensures next > index ==>
      Run(text[index..], Outside(WantKey)) == Emit(emitted, true, Run(text[next..], Outside(WantKey)))
  {
    hide Run;
    hide RunOutside;
    hide KeyAhead;
    hide IsKeyStart;
    NoKeyWithoutStart(text, index);
    next := index;
    emitted := "";
    if IsKeyStart(text[index]) && (previous == Some('{') || previous == Some(',')) {
      var read := ReadIdentifier(text, index);
      var Identifier(name, end, afterSpace) := read.value;
      KeyAheadAt(text, index, end, afterSpace);
      if afterSpace < |text| && text[afterSpace] == ':' {
        KeyStepAt(text, index, end, afterSpace);
        next := afterSpace;
        emitted := "\"" + name + "\"" + text[end..afterSpace];
      }
    }
  }

  lemma NoKeyWithoutStart(text: string, index: nat)
    requires index < |text|
    ensures KeyAhead(text[index..]) ==> IsKeyStart(text[index])
    ensures ValueAhead(text[index..]) ==> IsBareStart(text[index])
  {
    Suffix(text, index);
  }

  /** Try the bare value rule: the end of the value if it applies, else the current index. */
  method TryValue(text: string, index: nat, previous: Option<char>) returns (emitted: string, next: nat)
    requires index < |text| && text[index] != '"'
    ensures next == index <==> !(ContextAfter(previous) == WantValue && ValueAhead(text[index..]))
    ensures index <= next <= |text|
    ensures next > index ==>
      Run(text[index..], Outside(WantValue)) == Emit(emitted, true, Run(text[next..], Outside(Plain)))
  {
    hide Run;
    hide RunOutside;
    next := index;
    emitted := "";
    Suffix(text, index);
    if previous == Some(':') && IsBareStart(text[index]) {
      var read := ReadBareValue(text, index);
      var BareValue(value, end) := read.value;
      assert text[index..][..end - index] == text[index..end] && text[index..][end - index..] == text[end..];
      if !IsKeyword(value) {
        ValueStep(text[index..]);
        next := end;
        emitted := "\"" + value + "\"";
      }
    }
  }

  lemma EmitTwice(output: string, changed: bool, front: string, c: bool, r: Repaired)
    ensures Emit(output, changed, Emit(front, c, r)) == Emit(output + front, changed || c, r)
  {
    Reassociate(output, front, r.text);
  }

  method RepairJsonLikeObject(text: string) returns (repaired: Option<string>)
    ensures repaired == Repair(text)
  {
    hide Run;
    hide RunOutside;
    hide KeyAhead;
    hide ValueAhead;
    var output, index, changed := "", 0, false;
    var previous: Option<char> := None;
    var inString, escaped := false, false;
    assert text[0..] == text;
    while index < |text|
      invariant 0 <= index <= |text|
      invariant Run(text, Outside(Plain))
        == Emit(output, changed,
          Run(text[index..], if inString then InString(escaped) else Outside(ContextAfter(previous))))
      decreases |text| - index
    {
      var ch := text[index];
      Suffix(text, index);
      ghost var rest := text[index + 1..];
      if inString {
        StringStep(text[index..], escaped);
        EmitTwice(output, changed, [ch], false, Run(rest, StringMode(ch, escaped)));
        output := output + [ch];
        index := index + 1;
        if escaped {
          escaped := false;
        } else if ch == '\\' {
          escaped := true;
        } else if ch == '"' {
          inString := false;
          previous := Some('"');
        }
        continue;
      }
      if ch == '"' {
        QuoteStep(text[index..], ContextAfter(previous));
        EmitTwice(output, changed, [ch], false, Run(rest, InString(false)));
        inString, escaped := true, false;
        output := output + [ch];
        index := index + 1;
        continue;
      }
      var front, next := TryKey(text, index, previous);
      if next > index {
        EmitTwice(output, changed, front, true, Run(text[next..], Outside(WantKey)));
        output, index, changed := output + front, next, true;
        continue;
      }
      front, next := TryValue(text, index, previous);
      if next > index {
        EmitTwice(output, changed, front, true, Run(text[next..], Outside(Plain)));
        output, index, changed := output + front, next, true;
        previous := Some('"');
        continue;
      }
      OtherStep(text[index..], ContextAfter(previous));
      EmitTwice(output, changed, [ch], false,
        Run(rest, Outside(if IsWhitespace(ch) then ContextAfter(previous) else After(ch))));
      output := output + [ch];
      index := index + 1;
      if !IsWhitespace(ch) {
        previous := Some(ch);
      }
    }
    assert text[index..] == "" && output + "" == output;
    EndStep(if inString then InString(escaped) else Outside(ContextAfter(previous)));
    if changed {
      return Some(output);
    }
    return None;
  }
}
