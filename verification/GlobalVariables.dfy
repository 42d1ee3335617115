/**
 Expansion of global variables in a text: `globalVariableApply` finds the tokens `{{global:name}}`, removes
 duplicates, and then replaces one token after the other in the whole text by split and join.
 */
module GlobalVariables {
  import opened Prelude

  // ---------------------------------------------------------------- the text level, as the service works

  /** One character of the class [0-9\w-_]. */
  predicate NameChar(c: char) {
    '0' <= c <= '9' || 'a' <= c <= 'z' || 'A' <= c <= 'Z' || c == '_' || c == '-'
  }

  /** By code: the ASCII digits, capitals and small letters, the underscore and the hyphen. */
  lemma NameCharCodes(c: char)
    ensures NameChar(c) <==>
            var n := c as int; 48 <= n < 58 || 65 <= n < 91 || 97 <= n < 123 || n == 95 || n == 45
  {
  }

  const OPEN := "{{global:"
  const CLOSE := "}}"
  const TOKEN_START_INDEX := 9
  const TOKEN_END_INDEX := 2

  function TokenText(name: string): string {
    OPEN + name + CLOSE
  }

  function NameRun(text: string): nat {
    if text != "" && NameChar(text[0]) then 1 + NameRun(text[1..]) else 0
  }

  /** The length of the match of the regular expression at the start of the text; 0 when there is none. */
  function MatchLength(text: string): (n: nat)
    ensures n <= |text|
  {
    if OPEN <= text then
      var after := text[|OPEN|..];
      var run := NameRun(after);
      if run <= |after| && CLOSE <= after[run..] then |OPEN| + run + |CLOSE| else 0
    else 0
  }

  /** `text.matchAll(variableRegex)`: the matches from left to right, without overlap. */
  function MatchAll(text: string): seq<string>
    decreases |text|
  {
    if text == "" then [] else
      var n := MatchLength(text);
      if n > 0 then [text[..n]] + MatchAll(text[n..]) else MatchAll(text[1..])
  }

  function Split(text: string, separator: string): (parts: seq<string>)
    requires separator != ""
    ensures parts != []
    decreases |text|
  {
    if text == "" then [""]
    else if separator <= text then [""] + Split(text[|separator|..], separator)
    else
      var rest := Split(text[1..], separator);
      [[text[0]] + rest[0]] + rest[1..]
  }

  function Join(parts: seq<string>, glue: string): string
    requires parts != []
  {
    if |parts| == 1 then parts[0] else parts[0] + glue + Join(parts[1..], glue)
  }

  type Values = map<string, string>

  function Pick(values: Values, language: string): string {
    if language in values then values[language] else ""
  }

  /** `getTranslation`; an unknown variable or a missing translation gives the empty string, which counts as none. */
  function Translation(variables: map<string, Values>, name: string, language: string, fallback: string): string {
    if name !in variables then ""
    else if Pick(variables[name], language) != "" then Pick(variables[name], language)
    else if Pick(variables[name], fallback) != "" then Pick(variables[name], fallback)
    else Pick(variables[name], "en-us")
  }

  /** The value in the requested language, else in the fallback language, else in en-us, else nothing. */
  lemma TranslationOrder(variables: map<string, Values>, name: string, language: string, fallback: string)
    ensures var answer := Translation(variables, name, language, fallback);
            if name !in variables then answer == "" else
              var values := variables[name];
              if language in values && values[language] != "" then answer == values[language]
              else if fallback in values && values[fallback] != "" then answer == values[fallback]
              else if "en-us" in values then answer == values["en-us"]
              else answer == ""
  {
  }

  /** The translations of some names; the empty string stands for none. */
  type Lookup = map<string, string>

  function Translations(variables: map<string, Values>, names: seq<string>, language: string, fallback: string)
    : Lookup
  {
    map name | name in names :: Translation(variables, name, language, fallback)
  }

  function Value(lookup: Lookup, name: string): string {
    if name in lookup then lookup[name] else ""
  }

  /** Replacing one token in the whole text, if it has a translation. */
  function ReplaceToken(text: string, name: string, value: string): string {
    if value != "" then Join(Split(text, TokenText(name)), value) else text
  }

  function NameOf(token: string): string
    requires |token| >= TOKEN_START_INDEX + TOKEN_END_INDEX
  {
    token[TOKEN_START_INDEX..|token| - TOKEN_END_INDEX]
  }

  /** Replacing the tokens of a list, one after the other. */
  function ReplaceEach(text: string, names: seq<string>, lookup: Lookup): string
    decreases |names|
  {
    if names == [] then text
    else ReplaceEach(ReplaceToken(text, names[0], Value(lookup, names[0])), names[1..], lookup)
  }

  function Distinct(tokens: seq<string>): seq<string> {
    if tokens == [] then [] else
      var init, last := Distinct(tokens[..|tokens| - 1]), tokens[|tokens| - 1];
      if last in init then init else init + [last]
  }

  function Names(tokens: seq<string>): seq<string>
    requires forall t <- tokens :: |t| >= TOKEN_START_INDEX + TOKEN_END_INDEX
  {
    seq(|tokens|, i requires 0 <= i < |tokens| => NameOf(tokens[i]))
  }

  /** The variable list of the service: the distinct matches in order of first occurrence, as names. */
  function VariableList(text: string): seq<string> {
    MatchesAreTokens(text);
    DistinctKeepsElements(MatchAll(text));
    Names(Distinct(MatchAll(text)))
  }

  /** The first loop: the distinct matches in order of first occurrence. */
  method CollectVariables(text: string) returns (variableList: seq<string>)
    ensures variableList == Distinct(MatchAll(text))
  {
    var matches := MatchAll(text);
    variableList := [];
    var k := 0;
    while k < |matches|
      invariant 0 <= k <= |matches|
      invariant variableList == Distinct(matches[..k])
    {
      assert matches[..k + 1][..k] == matches[..k];
      if matches[k] !in variableList {
        variableList := variableList + [matches[k]];
      }
      k := k + 1;
    }
    assert matches[..k] == matches;
  }

  method GlobalVariableApply(text: string, language: string, fallback: string, variables: map<string, Values>)
    returns (textNew: string)
    ensures var names := VariableList(text);
            textNew == ReplaceEach(text, names, Translations(variables, names, language, fallback))
  {
    var variableList := CollectVariables(text);
    MatchesAreTokens(text);
    DistinctKeepsElements(MatchAll(text));
    ghost var names := Names(variableList);
    ghost var lookup := Translations(variables, names, language, fallback);
    textNew := text;
    var index := 0;
    assert names[0..] == names;
    while index < |variableList|
      invariant 0 <= index <= |variableList|
      invariant ReplaceEach(textNew, names[index..], lookup) == ReplaceEach(text, names, lookup)
    {
      var token := variableList[index];
      assert token in MatchAll(text);
      TokenOfName(token);
      var variableName := NameOf(token);
      var variableValue := Translation(variables, variableName, language, fallback);
      OneMoreToken(textNew, names, index, lookup);
      if variableValue != "" {
        textNew := Join(Split(textNew, token), variableValue);
      }
      index := index + 1;
    }
    assert names[index..] == [];
  }

  lemma OneMoreToken(text: string, names: seq<string>, index: nat, lookup: Lookup)
    requires index < |names|
    ensures names[index] in names
    ensures ReplaceEach(text, names[index..], lookup) ==
            ReplaceEach(ReplaceToken(text, names[index], Value(lookup, names[index])), names[index + 1..], lookup)
  {
    assert names[index..][0] == names[index] && names[index..][1..] == names[index + 1..];
  }

  lemma {:induction false} NameRunBound(text: string)
    ensures NameRun(text) <= |text|
    ensures forall i | 0 <= i < NameRun(text) :: NameChar(text[i])
    ensures NameRun(text) < |text| ==> !NameChar(text[NameRun(text)])
  {
    if text != "" && NameChar(text[0]) {
      NameRunBound(text[1..]);
    }
  }

  ghost predicate IsToken(token: string) {
    exists name :: token == TokenText(name) && forall c <- name :: NameChar(c)
  }

  lemma TokenOfName(token: string)
    requires IsToken(token)
    ensures |token| >= TOKEN_START_INDEX + TOKEN_END_INDEX
    ensures TokenText(NameOf(token)) == token
    ensures forall c <- NameOf(token) :: NameChar(c)
  {
    var name :| token == TokenText(name) && forall c <- name :: NameChar(c);
    assert NameOf(token) == name;
  }

  lemma MatchIsToken(text: string)
    requires MatchLength(text) > 0
    ensures IsToken(text[..MatchLength(text)])
  {
    var after := text[|OPEN|..];
    var run := NameRun(after);
    NameRunBound(after);
    assert text == OPEN + after;
    assert after == after[..run] + after[run..];
    assert text[..MatchLength(text)] == TokenText(after[..run]);
  }

  lemma {:induction false} MatchesAreTokens(text: string)
    ensures forall t <- MatchAll(text) :: IsToken(t) && |t| >= TOKEN_START_INDEX + TOKEN_END_INDEX
    decreases |text|
  {
    if text != "" {
      var n := MatchLength(text);
      if n > 0 {
        MatchIsToken(text);
        TokenOfName(text[..n]);
        MatchesAreTokens(text[n..]);
      } else {
        MatchesAreTokens(text[1..]);
      }
    }
  }

  lemma {:induction false} DistinctKeepsElements(tokens: seq<string>)
    ensures forall t :: t in Distinct(tokens) <==> t in tokens
  {
    if tokens != [] {
      DistinctKeepsElements(tokens[..|tokens| - 1]);
      assert tokens == tokens[..|tokens| - 1] + [tokens[|tokens| - 1]];
    }
  }

  // ---------------------------------------------------------------- the structured level

  datatype Item = Chr(c: char) | Tok(name: string)

  type Template = seq<Item>

  function RenderItem(item: Item): string {
    match item
    case Chr(c) => [c]
    case Tok(name) => TokenText(name)
  }

  function Render(t: Template): string {
    if t == [] then "" else RenderItem(t[0]) + Render(t[1..])
  }

  ghost predicate Proper(t: Template) {
    forall i | 0 <= i < |t| && t[i].Tok? :: forall c <- t[i].name :: NameChar(c)
  }

  /** The literal characters up to the first token. */
  function Run(t: Template): string {
    if t == [] || t[0].Tok? then "" else [t[0].c] + Run(t[1..])
  }

  /** The name of the first token. */
  function FirstToken(t: Template): Option<string> {
    if t == [] then None else if t[0].Tok? then Some(t[0].name) else FirstToken(t[1..])
  }

  /** The token of this name does not appear among the literal characters. */
  ghost predicate Inert(t: Template, name: string) {
    t != [] ==> Inert(t[1..], name) && (t[0].Chr? ==> !(TokenText(name) <= Run(t)))
  }

  /** The literal characters right before the token `a` begin the token `b`, so a value of `a` can complete it. */
  predicate Begins(t: Template, a: string, b: string) {
    FirstToken(t) == Some(a) && |Run(t)| >= 2 && Run(t) <= TokenText(b)
  }

  predicate Hazard(t: Template, a: string, b: string) {
    t != [] && (Begins(t, a, b) || Hazard(t[1..], a, b))
  }

  /** No token of the list can be completed by a value of an earlier one. */
  ghost predicate SafeOrder(t: Template, names: seq<string>) {
    names != [] ==> (forall b <- names[1..] :: !Hazard(t, names[0], b)) && SafeOrder(t, names[1..])
  }

  function Chars(text: string): Template {
    seq(|text|, i requires 0 <= i < |text| => Chr(text[i]))
  }

  /** Reading a text as literal characters and tokens, from left to right. */
  function Parse(text: string): Template
    decreases |text|
  {
    if text == "" then [] else
      var n := MatchLength(text);
      if n >= TOKEN_START_INDEX + TOKEN_END_INDEX then [Tok(NameOf(text[..n]))] + Parse(text[n..])
      else [Chr(text[0])] + Parse(text[1..])
  }

  /** Simultaneous substitution: each token on its own, tokens without a translation verbatim. */
  function Expand(t: Template, lookup: Lookup): Template {
    if t == [] then [] else ExpandItem(t[0], lookup) + Expand(t[1..], lookup)
  }

  function ExpandItem(item: Item, lookup: Lookup): (e: Template)
    ensures e != []
  {
    if item.Tok? && Value(lookup, item.name) != "" then Chars(Value(lookup, item.name)) else [item]
  }

  lemma {:induction false} RenderConcat(a: Template, b: Template)
    ensures Render(a + b) == Render(a) + Render(b)
  {
    if a == [] {
      assert a + b == b;
    } else {
      RenderConcat(a[1..], b);
      ConcatHead(a, b);
      ConcatAssociates(RenderItem(a[0]), Render(a[1..]), Render(b));
    }
  }

  lemma {:induction false} RenderChars(text: string)
    ensures Render(Chars(text)) == text
  {
    if text != "" {
      RenderChars(text[1..]);
      assert Chars(text)[1..] == Chars(text[1..]);
      assert text == [text[0]] + text[1..];
    }
  }

  /** Parsing loses nothing. */
  lemma {:induction false} RenderParse(text: string)
    ensures Render(Parse(text)) == text && Proper(Parse(text))
    decreases |text|
  {
    if text != "" {
      var n := MatchLength(text);
      if n >= TOKEN_START_INDEX + TOKEN_END_INDEX {
        MatchIsToken(text);
        TokenOfName(text[..n]);
        RenderParse(text[n..]);
        RenderCons(Tok(NameOf(text[..n])), Parse(text[n..]));
        assert text == text[..n] + text[n..];
      } else {
        RenderParse(text[1..]);
        RenderCons(Chr(text[0]), Parse(text[1..]));
        assert text == [text[0]] + text[1..];
      }
    }
  }

  lemma RenderCons(item: Item, rest: Template)
    requires Proper(rest) && (item.Tok? ==> forall c <- item.name :: NameChar(c))
    ensures Render([item] + rest) == RenderItem(item) + Render(rest)
    ensures Proper([item] + rest)
  {
    assert ([item] + rest)[1..] == rest;
  }

  lemma {:induction false} RunIsLiteral(t: Template)
    ensures |Run(t)| <= |t| && t[..|Run(t)|] == Chars(Run(t))
    ensures |Run(t)| < |t| ==> t[|Run(t)|].Tok?
  {
    if t != [] && t[0].Chr? {
      RunIsLiteral(t[1..]);
    }
  }

  lemma RenderRun(t: Template)
    ensures |Run(t)| <= |t| && Render(t) == Run(t) + Render(t[|Run(t)|..])
  {
    RunIsLiteral(t);
    LiteralFront(t, Run(t));
  }

  lemma {:induction false} LiteralFront(t: Template, s: string)
    requires |s| <= |t| && t[..|s|] == Chars(s)
    ensures t == Chars(s) + t[|s|..] && Render(t) == s + Render(t[|s|..])
  {
    RenderConcat(Chars(s), t[|s|..]);
    RenderChars(s);
  }

  /** A token that begins at a literal character is all literal: it cannot run on into the next token. */
  lemma TokenAtLiteral(t: Template, name: string)
    requires t != [] && t[0].Chr? && (forall c <- name :: NameChar(c))
    ensures TokenText(name) <= Render(t) <==> TokenText(name) <= Run(t)
  {
    RenderRun(t);
    RunIsLiteral(t);
    var k, token := |Run(t)|, TokenText(name);
    if token <= Render(t) && k < |token| {
      var next := t[k];
      assert Render(t[k..]) == RenderItem(next) + Render(t[k..][1..]);
      assert Render(t)[k] == RenderItem(next)[0] == '{' && Render(t)[k + 1] == RenderItem(next)[1] == '{';
      assert token[2] == OPEN[2] == 'g';
      if k >= 2 {
        NoBraceInside(name, k);
      }
    }
  }

  /** At a token only that very token begins. */
  lemma OnlyThatToken(name: string, rest: string, other: string)
    requires forall c <- name :: NameChar(c)
    requires forall c <- other :: NameChar(c)
    ensures TokenText(other) <= TokenText(name) + rest <==> other == name
  {
    var text, probe := TokenText(name) + rest, TokenText(other);
    var n := |OPEN|;
    if |other| < |name| {
      assert probe[n + |other|] == '}' && text[n + |other|] == name[|other|] && name[|other|] in name;
    } else if |name| < |other| {
      assert probe[n + |name|] == other[|name|] && text[n + |name|] == '}' && other[|name|] in other;
    } else {
      assert text[..|probe|] == TokenText(name);
      assert probe[n..n + |other|] == other && TokenText(name)[n..n + |name|] == name;
    }
  }

  lemma TailIsProper(t: Template)
    requires t != [] && Proper(t)
    ensures Proper(t[1..])
  {
    assert forall i | 0 <= i < |t| - 1 :: t[1..][i] == t[i + 1];
  }

  /** Split and join, seen on the template: every occurrence of one token replaced, nothing else touched. */
  lemma {:induction false} ReplaceOnTemplate(t: Template, name: string, value: string)
    requires Proper(t) && Inert(t, name)
    requires forall c <- name :: NameChar(c)
    requires value != ""
    ensures ReplaceToken(Render(t), name, value) == Render(Expand(t, map[name := value]))
  {
    if t != [] {
      var item, rest := t[0], t[1..];
      TailIsProper(t);
      ReplaceOnTemplate(rest, name, value);
      RenderConcat(ExpandItem(item, map[name := value]), Expand(rest, map[name := value]));
      if item.Chr? {
        TokenAtLiteral(t, name);
        ReplaceAtLiteral(t, name, value);
        RenderOne(item);
      } else if item.name == name {
        ReplaceAtToken(name, Render(rest), value);
        RenderChars(value);
      } else {
        SkipToken(item.name, Render(rest), name, value);
        RenderOne(item);
      }
    }
  }

  lemma ReplaceAtLiteral(t: Template, name: string, value: string)
    requires t != [] && t[0].Chr? && !(TokenText(name) <= Render(t))
    ensures Join(Split(Render(t), TokenText(name)), value)
            == [t[0].c] + Join(Split(Render(t[1..]), TokenText(name)), value)
  {
    var text, separator := Render(t), TokenText(name);
    assert text[1..] == Render(t[1..]);
    JoinHead(t[0].c, Split(text[1..], separator), value);
  }

  lemma ReplaceAtToken(name: string, tail: string, value: string)
    ensures Join(Split(TokenText(name) + tail, TokenText(name)), value)
            == value + Join(Split(tail, TokenText(name)), value)
  {
    var text, separator := TokenText(name) + tail, TokenText(name);
    var parts := Split(tail, separator);
    assert separator <= text && text[|separator|..] == tail;
    assert Split(text, separator) == [""] + parts;
    assert ([""] + parts)[1..] == parts;
    assert Join([""] + parts, value) == "" + value + Join(parts, value);
  }

  lemma RenderOne(item: Item)
    ensures Render([item]) == RenderItem(item)
  {
    assert [item][1..] == [];
    assert Render([item]) == RenderItem(item) + Render([]);
  }

  lemma JoinHead(c: char, parts: seq<string>, glue: string)
    requires parts != []
    ensures Join([[c] + parts[0]] + parts[1..], glue) == [c] + Join(parts, glue)
  {
    var longer := [[c] + parts[0]] + parts[1..];
    assert longer[1..] == parts[1..];
    if |parts| > 1 {
      assert [c] + parts[0] + glue + Join(parts[1..], glue) == [c] + (parts[0] + glue + Join(parts[1..], glue));
    }
  }

  /** Splitting runs over a different token character by character without finding the separator inside it. */
  lemma SkipToken(name: string, tail: string, other: string, glue: string)
    requires name != other
    requires forall c <- name :: NameChar(c)
    requires forall c <- other :: NameChar(c)
    ensures Join(Split(TokenText(name) + tail, TokenText(other)), glue)
            == TokenText(name) + Join(Split(tail, TokenText(other)), glue)
  {
    var token := TokenText(name);
    OnlyThatToken(name, tail, other);
    var sep := TokenText(other);
    assert sep[0] == '{' && sep[1] == '{';
    forall k | 0 <= k < |token| ensures !(sep <= (token + tail)[k..]) {
      var text := (token + tail)[k..];
      if k == 0 {
        assert text == token + tail;
      } else {
        assert text[0] == token[k];
        if k == 1 {
          assert text[1] == token[2] == 'g';
        } else {
          NoBraceInside(name, k);
        }
      }
    }
    SkipLiteral(token, tail, TokenText(other), glue);
  }

  lemma NoBraceInside(name: string, k: nat)
    requires forall c <- name :: NameChar(c)
    requires 2 <= k < |TokenText(name)|
    ensures TokenText(name)[k] != '{'
  {
    var n := |OPEN|;
    if k < n {
      assert TokenText(name)[k] == OPEN[k];
    } else if k < n + |name| {
      assert TokenText(name)[k] == name[k - n] && name[k - n] in name;
    } else {
      assert TokenText(name)[k] == CLOSE[k - n - |name|];
    }
  }

  lemma {:induction false} SkipLiteral(head: string, tail: string, separator: string, glue: string)
    requires separator != ""
    requires forall k | 0 <= k < |head| :: !(separator <= (head + tail)[k..])
    ensures Join(Split(head + tail, separator), glue) == head + Join(Split(tail, separator), glue)
  {
    if head == "" {
      assert head + tail == tail;
    } else {
      var text := head + tail;
      assert text[0..] == text;
      assert text[1..] == head[1..] + tail;
      forall k | 0 <= k < |head[1..]| ensures !(separator <= (head[1..] + tail)[k..]) {
        assert (head[1..] + tail)[k..] == text[k + 1..];
      }
      SkipLiteral(head[1..], tail, separator, glue);
      JoinHead(text[0], Split(text[1..], separator), glue);
      assert head == [head[0]] + head[1..];
    }
  }

  /** Substituting in two rounds is one round in which the first one's translations win. */
  lemma {:induction false} ExpandTwice(t: Template, first: Lookup, second: Lookup)
    requires forall n <- first :: first[n] != ""
    ensures Expand(Expand(t, first), second) == Expand(t, second + first)
  {
    if t != [] {
      ExpandTwice(t[1..], first, second);
      var h := ExpandItem(t[0], first);
      ExpandConcat(h, Expand(t[1..], first), second);
      if t[0].Tok? && t[0].name in first {
        ExpandLiterals(h, second);
      } else {
        ExpandSingle(t[0], second);
      }
    }
  }

  lemma ExpandSingle(item: Item, lookup: Lookup)
    ensures Expand([item], lookup) == ExpandItem(item, lookup)
  {
    assert [item][1..] == [];
    assert ExpandItem(item, lookup) + [] == ExpandItem(item, lookup);
  }

  lemma {:induction false} ExpandConcat(a: Template, b: Template, lookup: Lookup)
    ensures Expand(a + b, lookup) == Expand(a, lookup) + Expand(b, lookup)
  {
    if a == [] {
      assert a + b == b;
    } else {
      ExpandConcat(a[1..], b, lookup);
      ConcatHead(a, b);
      ConcatAssociates(ExpandItem(a[0], lookup), Expand(a[1..], lookup), Expand(b, lookup));
    }
  }

  lemma {:induction false} ExpandLiterals(t: Template, lookup: Lookup)
    requires forall item <- t :: item.Chr?
    ensures Expand(t, lookup) == t
  {
    if t != [] {
      assert t[0] in t;
      ExpandLiterals(t[1..], lookup);
      assert t == [t[0]] + t[1..];
    }
  }

  // ---------------------------------------------------------------- one substitution among others

  lemma {:induction false} RunChars(value: string, t: Template)
    ensures Run(Chars(value) + t) == value + Run(t)
    ensures FirstToken(Chars(value) + t) == FirstToken(t)
  {
    if value == "" {
      assert Chars(value) + t == t;
    } else {
      CharsHead(value, t);
      RunChars(value[1..], t);
    }
  }

  lemma CharsHead(value: string, t: Template)
    requires value != ""
    ensures (Chars(value) + t)[0] == Chr(value[0]) && (Chars(value) + t)[1..] == Chars(value[1..]) + t
    ensures value == [value[0]] + value[1..]
  {
    assert Chars(value)[1..] == Chars(value[1..]);
  }

  /** A substitution leaves the literal characters in front alone, unless it happens right behind them. */
  lemma {:induction false} RunStays(t: Template, a: string, value: string)
    requires FirstToken(t) != Some(a)
    ensures var t' := Expand(t, map[a := value]); Run(t') == Run(t) && FirstToken(t') == FirstToken(t)
  {
    if t != [] && t[0].Chr? {
      RunStays(t[1..], a, value);
      RunAtChar(t[0].c, Expand(t[1..], map[a := value]));
    }
  }

  /** Then it adds its value to them. */
  lemma {:induction false} RunGrows(t: Template, a: string, value: string)
    requires value != "" && FirstToken(t) == Some(a)
    ensures Run(t) + value <= Run(Expand(t, map[a := value]))
  {
    var rest := Expand(t[1..], map[a := value]);
    if t[0].Chr? {
      RunGrows(t[1..], a, value);
      RunAtChar(t[0].c, rest);
      ConcatAssociates([t[0].c], Run(t[1..]), value);
    } else {
      RunChars(value, rest);
      assert Run(t) + value == value;
    }
  }

  lemma RunAtChar(c: char, t: Template)
    ensures Run([Chr(c)] + t) == [c] + Run(t) && FirstToken([Chr(c)] + t) == FirstToken(t)
  {
    assert ([Chr(c)] + t)[1..] == t;
  }

  /** Literal characters that are no opening braces begin no token. */
  lemma {:induction false} CharsBeginNothing(value: string, t: Template, b: string)
    requires '{' !in value
    ensures Inert(Chars(value) + t, b) <==> Inert(t, b)
    ensures forall c :: Hazard(Chars(value) + t, c, b) <==> Hazard(t, c, b)
  {
    if value == "" {
      assert Chars(value) + t == t;
    } else {
      CharsHead(value, t);
      CharsBeginNothing(value[1..], t, b);
      assert Run(Chars(value) + t)[0] == value[0] && value[0] in value;
      assert TokenText(b)[0] == '{';
    }
  }

  /** A value without opening brace completes only a token that the literals before it begin. */
  lemma NothingCompleted(t: Template, a: string, value: string, b: string)
    requires FirstToken(t) == Some(a) && t[0].Chr? && !Begins(t, a, b)
    requires value != "" && '{' !in value && !(TokenText(b) <= Run(t))
    ensures var run := Run(Expand(t, map[a := value])); !(TokenText(b) <= run) && !(run <= TokenText(b))
  {
    var run := Run(Expand(t, map[a := value]));
    RunGrows(t, a, value);
    var k := |Run(t)|;
    assert run[..k] == Run(t) && run[k] == value[0] && value[0] in value;
    assert TokenText(b)[1] == '{';
  }

  /** So substituting `a` neither forms the token `b` nor brings a literal beginning of `b` before another token. */
  lemma {:induction false} ExpandKeepsHarmless(t: Template, a: string, value: string, b: string)
    requires value != "" && '{' !in value
    requires Inert(t, b) && !Hazard(t, a, b)
    ensures var t' := Expand(t, map[a := value]);
            Inert(t', b) && forall c :: Hazard(t', c, b) ==> Hazard(t, c, b)
  {
    if t != [] {
      var t' := Expand(t, map[a := value]);
      var rest := Expand(t[1..], map[a := value]);
      ExpandKeepsHarmless(t[1..], a, value, b);
      if t[0] == Tok(a) {
        CharsBeginNothing(value, rest, b);
      } else {
        assert t' == [t[0]] + rest && t'[1..] == rest;
        if FirstToken(t) != Some(a) {
          RunStays(t, a, value);
        } else if t[0].Chr? {
          NothingCompleted(t, a, value, b);
        }
      }
    }
  }

  lemma {:induction false} ExpandKeepsSafeOrder(t: Template, a: string, value: string, names: seq<string>)
    requires value != "" && '{' !in value
    requires forall b <- names :: Inert(t, b) && !Hazard(t, a, b)
    requires SafeOrder(t, names)
    ensures SafeOrder(Expand(t, map[a := value]), names)
  {
    if names != [] {
      forall b <- names[1..] ensures b in names && !Hazard(Expand(t, map[a := value]), names[0], b) {
        ExpandKeepsHarmless(t, a, value, b);
      }
      ExpandKeepsSafeOrder(t, a, value, names[1..]);
    }
  }

  lemma {:induction false} ExpandKeepsProper(t: Template, lookup: Lookup)
    requires Proper(t)
    ensures Proper(Expand(t, lookup))
  {
    if t != [] {
      TailIsProper(t);
      ExpandKeepsProper(t[1..], lookup);
    }
  }

  /** A text as parsed has no token among its literal characters. */
  lemma {:induction false} ParsedIsInert(text: string, name: string)
    requires forall c <- name :: NameChar(c)
    ensures Inert(Parse(text), name)
    decreases |text|
  {
    if text != "" {
      var n := MatchLength(text);
      var t := Parse(text);
      if n >= TOKEN_START_INDEX + TOKEN_END_INDEX {
        ParsedIsInert(text[n..], name);
        assert t[1..] == Parse(text[n..]);
      } else {
        ParsedIsInert(text[1..], name);
        assert t[1..] == Parse(text[1..]);
        RenderParse(text);
        RenderRun(t);
        if TokenText(name) <= Run(t) {
          TokenMatches(text, name);
          assert false;
        }
      }
    }
  }

  lemma TokenMatches(text: string, name: string)
    requires TokenText(name) <= text && forall c <- name :: NameChar(c)
    ensures MatchLength(text) == |TokenText(name)|
  {
    var after := text[|OPEN|..];
    var token := TokenText(name);
    assert text[..|token|] == token;
    assert text[..|OPEN|] == token[..|OPEN|] == OPEN;
    assert after[..|name| + 2] == token[|OPEN|..] == name + CLOSE;
    var rest := after[|name|..];
    assert after == name + rest && rest[..2] == CLOSE;
    RunOfName(name, rest);
  }

  lemma {:induction false} RunOfName(name: string, rest: string)
    requires (forall c <- name :: NameChar(c)) && (rest == "" || !NameChar(rest[0]))
    ensures NameRun(name + rest) == |name|
  {
    if name == "" {
      assert name + rest == rest;
    } else {
      assert name[0] in name && forall c <- name[1..] :: c in name;
      assert (name + rest)[1..] == name[1..] + rest;
      RunOfName(name[1..], rest);
    }
  }

  // ---------------------------------------------------------------- the main results

  /** The lookup restricted to the names of a list that have a translation. */
  function Only(names: seq<string>, lookup: Lookup): Lookup {
    map n | n in names && Value(lookup, n) != "" :: lookup[n]
  }

  lemma {:induction false} ExpandExt(t: Template, f: Lookup, g: Lookup)
    requires forall item <- t | item.Tok? :: Value(f, item.name) == Value(g, item.name)
    ensures Expand(t, f) == Expand(t, g)
  {
    if t != [] {
      assert forall item <- t[1..] :: item in t;
      assert t[0] in t;
      ExpandExt(t[1..], f, g);
    }
  }

  lemma {:induction false} NothingToExpand(t: Template)
    ensures Expand(t, map[]) == t
  {
    if t != [] {
      NothingToExpand(t[1..]);
      assert t == [t[0]] + t[1..];
    }
  }

  lemma OnlyCons(name: string, rest: seq<string>, lookup: Lookup)
    requires Value(lookup, name) != ""
    ensures Only([name] + rest, lookup) == Only(rest, lookup) + map[name := Value(lookup, name)]
  {
  }

  /** When the turn of a name comes, its token is not among the literal characters. */
  ghost predicate StaysApart(t: Template, names: seq<string>, lookup: Lookup)
    decreases |names|
  {
    names != [] ==>
      var value := Value(lookup, names[0]);
      if value == "" then StaysApart(t, names[1..], lookup)
      else Inert(t, names[0]) && StaysApart(Expand(t, map[names[0] := value]), names[1..], lookup)
  }

  /** Replacing the tokens of a list in turn is substituting them all at once, as long as no token gets formed. */
  lemma {:induction false} SequentialIsSimultaneous(t: Template, names: seq<string>, lookup: Lookup)
    requires Proper(t) && StaysApart(t, names, lookup)
    requires forall n <- names :: forall c <- n :: NameChar(c)
    ensures ReplaceEach(Render(t), names, lookup) == Render(Expand(t, Only(names, lookup)))
    decreases |names|
  {
    if names == [] {
      NothingToExpand(t);
      assert Only([], lookup) == map[];
    } else {
      var name, rest := names[0], names[1..];
      assert names == [name] + rest;
      assert name in names && forall n <- rest :: n in names;
      var value := Value(lookup, name);
      if value == "" {
        SequentialIsSimultaneous(t, rest, lookup);
        SkipOfList(t, name, rest, lookup);
      } else {
        ExpandKeepsProper(t, map[name := value]);
        SequentialIsSimultaneous(Expand(t, map[name := value]), rest, lookup);
        StepOfList(t, name, rest, lookup);
      }
    }
  }

  lemma SkipOfList(t: Template, name: string, rest: seq<string>, lookup: Lookup)
    requires Value(lookup, name) == ""
    ensures ReplaceEach(Render(t), [name] + rest, lookup) == ReplaceEach(Render(t), rest, lookup)
    ensures Only([name] + rest, lookup) == Only(rest, lookup)
  {
    assert ([name] + rest)[1..] == rest;
  }

  lemma {:induction false} StepOfList(t: Template, name: string, rest: seq<string>, lookup: Lookup)
    requires Proper(t) && Inert(t, name) && (forall c <- name :: NameChar(c)) && Value(lookup, name) != ""
    requires var t' := Expand(t, map[name := lookup[name]]);
             ReplaceEach(Render(t'), rest, lookup) == Render(Expand(t', Only(rest, lookup)))
    ensures ReplaceEach(Render(t), [name] + rest, lookup) == Render(Expand(t, Only([name] + rest, lookup)))
  {
    ReplaceFirst(t, name, rest, lookup);
    OneThenTheRest(t, name, rest, lookup);
  }

  lemma {:induction false} ReplaceFirst(t: Template, a: string, rest: seq<string>, lookup: Lookup)
    requires Proper(t) && Inert(t, a) && (forall c <- a :: NameChar(c)) && Value(lookup, a) != ""
    ensures ReplaceEach(Render(t), [a] + rest, lookup) ==
            ReplaceEach(Render(Expand(t, map[a := lookup[a]])), rest, lookup)
  {
    ReplaceOnTemplate(t, a, lookup[a]);
    assert ([a] + rest)[1..] == rest;
  }

  lemma OneThenTheRest(t: Template, name: string, rest: seq<string>, lookup: Lookup)
    requires Value(lookup, name) != ""
    ensures Expand(Expand(t, map[name := lookup[name]]), Only(rest, lookup)) == Expand(t, Only([name] + rest, lookup))
  {
    ExpandTwice(t, map[name := lookup[name]], Only(rest, lookup));
    OnlyCons(name, rest, lookup);
  }

  /** Translations without opening braces form no token where none of them can complete the token of a later name. */
  lemma {:induction false} PlainStaysApart(t: Template, names: seq<string>, lookup: Lookup)
    requires (forall n <- names :: Inert(t, n)) && SafeOrder(t, names)
    requires forall n <- names :: '{' !in Value(lookup, n)
    ensures StaysApart(t, names, lookup)
    decreases |names|
  {
    if names != [] {
      var name, rest := names[0], names[1..];
      assert name in names && forall n <- rest :: n in names;
      var value := Value(lookup, name);
      if value == "" {
        PlainStaysApart(t, rest, lookup);
      } else {
        var t' := Expand(t, map[name := value]);
        ExpandKeepsSafeOrder(t, name, value, rest);
        forall n <- rest ensures Inert(t', n) {
          ExpandKeepsHarmless(t, name, value, n);
        }
        PlainStaysApart(t', rest, lookup);
      }
    }
  }

  lemma {:induction false} MatchesAreTheTokens(text: string)
    ensures forall name :: (exists item <- Parse(text) :: item == Tok(name)) ==> TokenText(name) in MatchAll(text)
    decreases |text|
  {
    if text != "" {
      var n := MatchLength(text);
      var t := Parse(text);
      var next := if n > 0 then text[n..] else text[1..];
      MatchesAreTheTokens(next);
      if n > 0 {
        MatchIsToken(text);
        TokenOfName(text[..n]);
      }
      assert t[1..] == Parse(next);
      assert MatchAll(text) == (if n > 0 then [text[..n]] else []) + MatchAll(next);
      forall name | exists item <- t :: item == Tok(name) ensures TokenText(name) in MatchAll(text) {
        if t[0] == Tok(name) {
          assert text[..n] in MatchAll(text);
        } else {
          assert Tok(name) in t[1..];
          assert exists item <- Parse(next) :: item == Tok(name);
        }
      }
    }
  }

  lemma VariableListCovers(text: string)
    ensures forall n <- VariableList(text) :: forall c <- n :: NameChar(c)
    ensures forall item <- Parse(text) | item.Tok? :: item.name in VariableList(text)
  {
    MatchesAreTokens(text);
    DistinctKeepsElements(MatchAll(text));
    MatchesAreTheTokens(text);
    var tokens := Distinct(MatchAll(text));
    var names := VariableList(text);
    forall n <- names ensures forall c <- n :: NameChar(c) {
      var i :| 0 <= i < |names| && names[i] == n;
      assert tokens[i] in tokens;
      TokenOfName(tokens[i]);
    }
    forall item <- Parse(text) | item.Tok? ensures item.name in names {
      var token := TokenText(item.name);
      assert item == Tok(item.name);
      assert token in tokens;
      var i :| 0 <= i < |tokens| && tokens[i] == token;
      assert names[i] == item.name;
    }
  }

  /**
   The service as a whole, for any translations, as long as none of them helps to form a token that is still to be
   replaced: the text with every token that has a translation replaced by it and everything else, tokens without
   translation included, left verbatim.
   */
  lemma ApplyIsExpansion(text: string, lookup: Lookup)
    requires StaysApart(Parse(text), VariableList(text), lookup)
    ensures ReplaceEach(text, VariableList(text), lookup) == Render(Expand(Parse(text), lookup))
  {
    RenderParse(text);
    VariableListCovers(text);
    SequentialIsSimultaneous(Parse(text), VariableList(text), lookup);
    ExpandExt(Parse(text), Only(VariableList(text), lookup), lookup);
  }

  /** The condition on translations is needed: with a token as translation the order of the text decides the result. */
  lemma TranslationsWithTokensInterfere()
    ensures var lookup := map["a" := TokenText("b"), "b" := "x"];
            var text := TokenText("a") + TokenText("b");
            && ReplaceEach(text, ["a", "b"], lookup) == "xx"
            && ReplaceEach(text, ["b", "a"], lookup) == TokenText("b") + "x"
  {
    var lookup := map["a" := TokenText("b"), "b" := "x"];
    FirstThenSecond("a", "b", "x", lookup);
    SecondThenFirst("a", "b", "x", lookup);
  }

  lemma FirstThenSecond(a: string, b: string, x: string, lookup: Lookup)
    requires (forall c <- a :: NameChar(c)) && (forall c <- b :: NameChar(c)) && a != b && x != ""
    requires Value(lookup, a) == TokenText(b) && Value(lookup, b) == x
    ensures ReplaceEach(TokenText(a) + TokenText(b), [a, b], lookup) == x + x
  {
    var tb := TokenText(b);
    EachOfTwo(TokenText(a) + tb, a, b, lookup);
    ReplacePair(Tok(a), Tok(b), a, tb);
    ReplacePair(Tok(b), Tok(b), b, x);
  }

  lemma SecondThenFirst(a: string, b: string, x: string, lookup: Lookup)
    requires (forall c <- a :: NameChar(c)) && (forall c <- b :: NameChar(c)) && a != b && |x| == 1
    requires Value(lookup, a) == TokenText(b) && Value(lookup, b) == x
    ensures ReplaceEach(TokenText(a) + TokenText(b), [b, a], lookup) == TokenText(b) + x
  {
    var ta := TokenText(a);
    EachOfTwo(ta + TokenText(b), b, a, lookup);
    ReplacePair(Tok(a), Tok(b), b, x);
    ReplacePair(Tok(a), Chr(x[0]), a, TokenText(b));
    assert RenderItem(Chr(x[0])) == x;
  }

  lemma EachOfTwo(text: string, first: string, second: string, lookup: Lookup)
    ensures ReplaceEach(text, [first, second], lookup) ==
            ReplaceToken(ReplaceToken(text, first, Value(lookup, first)), second, Value(lookup, second))
  {
    var after := ReplaceToken(text, first, Value(lookup, first));
    assert [first, second][1..] == [second] && [second][1..] == [];
    assert ReplaceEach(after, [second], lookup) == ReplaceToken(after, second, Value(lookup, second));
  }

  lemma ReplacePair(x: Item, y: Item, name: string, value: string)
    requires Proper([x, y]) && x.Tok? && value != "" && forall c <- name :: NameChar(c)
    ensures ReplaceToken(RenderItem(x) + RenderItem(y), name, value) ==
            (if x == Tok(name) then value else RenderItem(x)) + (if y == Tok(name) then value else RenderItem(y))
  {
    var one := map[name := value];
    assert [x, y] == [x] + [y];
    RenderConcat([x], [y]);
    RenderOne(x);
    RenderOne(y);
    InertPair(x, y, name);
    ReplaceOnTemplate([x, y], name, value);
    ExpandConcat([x], [y], one);
    ExpandSingle(x, one);
    ExpandSingle(y, one);
    RenderConcat(ExpandItem(x, one), ExpandItem(y, one));
    RenderChars(value);
  }

  lemma InertPair(x: Item, y: Item, name: string)
    requires x.Tok?
    ensures Inert([x, y], name)
  {
    assert [x, y][1..] == [y] && [y][1..] == [];
    assert |Run([y])| <= 1;
    assert Inert([], name) && Inert([y], name);
  }
}
