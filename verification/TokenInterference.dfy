/**
 Exactly when replacing the tokens of a text one after the other, as module GlobalVariables does, differs from
 replacing them all at once, and when the order of the tokens matters.
 */
module TokenInterference {
  import opened Prelude
  import opened GlobalVariables

  ghost predicate NoRepeats(names: seq<string>) {
    forall i, j | 0 <= i < j < |names| :: names[i] != names[j]
  }

  lemma {:induction false} DistinctHasNoRepeats(tokens: seq<string>)
    ensures NoRepeats(Distinct(tokens))
  {
    if tokens != [] {
      DistinctHasNoRepeats(tokens[..|tokens| - 1]);
    }
  }

  lemma VariableListHasNoRepeats(text: string)
    ensures NoRepeats(VariableList(text))
  {
    MatchesAreTokens(text);
    DistinctKeepsElements(MatchAll(text));
    DistinctHasNoRepeats(MatchAll(text));
    var tokens, names := Distinct(MatchAll(text)), VariableList(text);
    forall i, j | 0 <= i < j < |names| ensures names[i] != names[j] {
      assert tokens[i] in tokens && tokens[j] in tokens;
      TokenOfName(tokens[i]);
      TokenOfName(tokens[j]);
    }
  }

  lemma {:induction false} InertTail(h: Template, t: Template, name: string)
    requires Inert(h + t, name)
    ensures Inert(t, name)
  {
    if h == [] {
      assert h + t == t;
    } else {
      assert (h + t)[1..] == h[1..] + t;
      InertTail(h[1..], t, name);
    }
  }

  /** Where the literals before `a` begin the token `b`, the rest of that token is a value that completes it. */
  lemma {:induction false} Completion(t: Template, a: string, b: string) returns (value: string)
    requires Hazard(t, a, b) && Inert(t, b) && forall c <- b :: NameChar(c)
    ensures value != "" && '{' !in value && !Inert(Expand(t, map[a := value]), b)
  {
    if Begins(t, a, b) {
      var k := |Run(t)|;
      value := TokenText(b)[k..];
      assert TokenText(b) == Run(t) + value;
      forall i | 0 <= i < |value| ensures value[i] != '{' {
        NoBraceInside(b, k + i);
      }
      RunGrows(t, a, value);
      assert Expand(t, map[a := value])[0] == t[0];
    } else {
      value := Completion(t[1..], a, b);
      var h, rest := ExpandItem(t[0], map[a := value]), Expand(t[1..], map[a := value]);
      if Inert(h + rest, b) {
        InertTail(h, rest, b);
      }
    }
  }

  /** Replacing a token by one character in the text shortens it at least as much as doing so on the template, and more
      when the token has been formed among the literals. */
  lemma {:induction false} FormedTokenIsReplaced(t: Template, b: string, x: string)
    requires Proper(t) && |x| == 1 && forall c <- b :: NameChar(c)
    ensures var inText, onTemplate := |ReplaceToken(Render(t), b, x)|, |Render(Expand(t, map[b := x]))|;
            inText <= onTemplate && (!Inert(t, b) ==> inText < onTemplate)
    decreases |t|
  {
    if t != [] {
      var item, rest := t[0], t[1..];
      var one := map[b := x];
      TailIsProper(t);
      RenderConcat(ExpandItem(item, one), Expand(rest, one));
      RenderChars(x);
      RenderOne(item);
      if item.Chr? && TokenText(b) <= Run(t) {
        FormedTokenHere(t, b, x);
        ProperTail(t, |TokenText(b)|);
        FormedTokenIsReplaced(t[|TokenText(b)|..], b, x);
      } else {
        FormedTokenIsReplaced(rest, b, x);
        if item.Chr? {
          TokenAtLiteral(t, b);
          ReplaceAtLiteral(t, b, x);
        } else if item.name == b {
          ReplaceAtToken(b, Render(rest), x);
        } else {
          SkipToken(item.name, Render(rest), b, x);
        }
      }
    }
  }

  lemma ProperTail(t: Template, n: nat)
    requires Proper(t) && n <= |t|
    ensures Proper(t[n..])
  {
    assert forall i | 0 <= i < |t| - n :: t[n..][i] == t[n + i];
  }

  lemma FormedTokenHere(t: Template, b: string, x: string)
    requires TokenText(b) <= Run(t) && x != ""
    ensures var n := |TokenText(b)|;
            && n <= |t|
            && ReplaceToken(Render(t), b, x) == x + ReplaceToken(Render(t[n..]), b, x)
            && |Render(Expand(t, map[b := x]))| == n + |Render(Expand(t[n..], map[b := x]))|
  {
    var token, n := TokenText(b), |TokenText(b)|;
    RunIsLiteral(t);
    assert t[..n] == Chars(token) by { assert t[..n] == Chars(Run(t))[..n] && Run(t)[..n] == token; }
    LiteralFront(t, token);
    ReplaceAtToken(b, Render(t[n..]), x);
    ExpandLiteralFront(token, t[n..], map[b := x]);
  }

  lemma ExpandLiteralFront(s: string, tail: Template, lookup: Lookup)
    ensures |Render(Expand(Chars(s) + tail, lookup))| == |s| + |Render(Expand(tail, lookup))|
  {
    ExpandConcat(Chars(s), tail, lookup);
    ExpandLiterals(Chars(s), lookup);
    RenderConcat(Chars(s), Expand(tail, lookup));
    RenderChars(s);
  }

  lemma {:induction false} NothingToReplace(text: string, names: seq<string>, lookup: Lookup)
    requires forall n <- names :: Value(lookup, n) == ""
    ensures ReplaceEach(text, names, lookup) == text
    decreases |names|
  {
    if names != [] {
      assert names[0] in names;
      NothingToReplace(text, names[1..], lookup);
    }
  }

  lemma {:induction false} OneToReplace(text: string, names: seq<string>, lookup: Lookup, b: string)
    requires NoRepeats(names) && b in names && forall n <- names | n != b :: Value(lookup, n) == ""
    ensures ReplaceEach(text, names, lookup) == ReplaceToken(text, b, Value(lookup, b))
    decreases |names|
  {
    if names[0] == b {
      NothingToReplace(ReplaceToken(text, b, Value(lookup, b)), names[1..], lookup);
    } else {
      assert names[0] in names && b in names[1..];
      OneToReplace(text, names[1..], lookup, b);
    }
  }

  /** A value that forms the token of a later name gets replaced itself. */
  lemma {:induction false} FormedTokenInterferes(t: Template, a: string, value: string, rest: seq<string>, b: string,
                                                 x: string)
    requires Proper(t) && Inert(t, a) && (forall c <- a :: NameChar(c)) && (forall c <- b :: NameChar(c))
    requires NoRepeats(rest) && a !in rest && b in rest
    requires value != "" && |x| == 1 && !Inert(Expand(t, map[a := value]), b)
    ensures var lookup := map[b := x] + map[a := value];
            ReplaceEach(Render(t), [a] + rest, lookup) != Render(Expand(t, lookup))
  {
    var one, other := map[a := value], map[b := x];
    var t' := Expand(t, one);
    ReplaceFirst(t, a, rest, other + one);
    ExpandKeepsProper(t, one);
    FormedTokenIsReplaced(t', b, x);
    OneToReplace(Render(t'), rest, other + one, b);
    ExpandTwice(t, one, other);
  }

  /** Harmless-looking translations that make a completed token be replaced a second time. */
  lemma InterferenceOfTwo(t: Template, a: string, rest: seq<string>, b: string) returns (lookup: Lookup)
    requires Proper(t) && NoRepeats(rest) && a !in rest && b in rest && Hazard(t, a, b)
    requires Inert(t, a) && Inert(t, b) && (forall c <- a :: NameChar(c)) && (forall c <- b :: NameChar(c))
    ensures lookup.Keys == {a, b} && '{' !in lookup[a] && '{' !in lookup[b]
    ensures ReplaceEach(Render(t), [a] + rest, lookup) != Render(Expand(t, lookup))
  {
    var value := Completion(t, a, b);
    lookup := map[b := " "] + map[a := value];
    FormedTokenInterferes(t, a, value, rest, b, " ");
  }

  lemma {:induction false} Interference(t: Template, names: seq<string>) returns (lookup: Lookup)
    requires Proper(t) && NoRepeats(names) && !SafeOrder(t, names)
    requires forall n <- names :: Inert(t, n) && forall c <- n :: NameChar(c)
    ensures forall n <- lookup :: n in names && '{' !in lookup[n]
    ensures ReplaceEach(Render(t), names, lookup) != Render(Expand(t, lookup))
    decreases |names|
  {
    var a, rest := names[0], names[1..];
    assert names == [a] + rest && a !in rest && a in names;
    assert forall n <- rest :: n in names;
    if b :| b in rest && Hazard(t, a, b) {
      lookup := InterferenceOfTwo(t, a, rest, b);
    } else {
      lookup := Interference(t, rest);
      SkipFirst(Render(t), a, rest, lookup);
    }
  }

  lemma SkipFirst(text: string, a: string, rest: seq<string>, lookup: Lookup)
    requires a !in lookup
    ensures ReplaceEach(text, [a] + rest, lookup) == ReplaceEach(text, rest, lookup)
  {
    assert ([a] + rest)[1..] == rest;
  }

  ghost predicate Plain(lookup: Lookup) {
    forall n <- lookup :: '{' !in lookup[n]
  }

  /** The service delivers the simultaneous substitution. */
  predicate Delivers(text: string, lookup: Lookup) {
    ReplaceEach(text, VariableList(text), lookup) == Render(Expand(Parse(text), lookup))
  }

  /** What the parsed text and the variable list of a text offer. */
  lemma {:induction false} AboutTheText(text: string)
    ensures Render(Parse(text)) == text && Proper(Parse(text)) && NoRepeats(VariableList(text))
    ensures forall n <- VariableList(text) :: Inert(Parse(text), n) && forall c <- n :: NameChar(c)
  {
    RenderParse(text);
    VariableListCovers(text);
    VariableListHasNoRepeats(text);
    forall n <- VariableList(text) ensures Inert(Parse(text), n) {
      ParsedIsInert(text, n);
    }
  }

  /**
   Exactly which texts are safe: those in which no literal characters that begin a later token stand right before an
   earlier one. Then all translations without opening braces are substituted as if at once, otherwise some are not.
   */
  lemma ExactlyTheSafeTexts(text: string)
    ensures SafeOrder(Parse(text), VariableList(text)) <==>
            forall lookup: Lookup | Plain(lookup) :: Delivers(text, lookup)
  {
    var names := VariableList(text);
    AboutTheText(text);
    if SafeOrder(Parse(text), names) {
      forall lookup: Lookup | Plain(lookup) ensures Delivers(text, lookup) {
        PlainStaysApart(Parse(text), names, lookup);
        ApplyIsExpansion(text, lookup);
      }
    } else {
      var lookup := Interference(Parse(text), names);
      assert Plain(lookup) && !Delivers(text, lookup);
    }
  }

  lemma {:induction false} ListedIsToken(text: string)
    ensures forall token <- MatchAll(text) ::
              |token| >= TOKEN_START_INDEX + TOKEN_END_INDEX && Tok(NameOf(token)) in Parse(text)
    decreases |text|
  {
    if text != "" {
      var n := MatchLength(text);
      MatchesAreTokens(text);
      ListedIsToken(if n > 0 then text[n..] else text[1..]);
    }
  }

  lemma VariableIsToken(text: string, name: string)
    requires name in VariableList(text)
    ensures Tok(name) in Parse(text)
  {
    ListedIsToken(text);
    MatchesAreTokens(text);
    DistinctKeepsElements(MatchAll(text));
    var tokens, names := Distinct(MatchAll(text)), VariableList(text);
    var i :| 0 <= i < |names| && names[i] == name;
    assert tokens[i] in tokens;
  }

  lemma {:induction false} TokenAsValue(t: Template, a: string, b: string)
    requires Tok(a) in t
    ensures !Inert(Expand(t, map[a := TokenText(b)]), b)
  {
    var one := map[a := TokenText(b)];
    var h, rest := ExpandItem(t[0], one), Expand(t[1..], one);
    if t[0] == Tok(a) {
      RunChars(TokenText(b), rest);
      CharsHead(TokenText(b), rest);
      assert TokenText(b) <= Run(h + rest);
    } else {
      assert t == [t[0]] + t[1..];
      TokenAsValue(t[1..], a, b);
      if Inert(h + rest, b) {
        InertTail(h, rest, b);
      }
    }
  }

  /** Translations of any kind are safe exactly in the texts that mention no two different variables. */
  lemma AnyTranslationIsSafeExactly(text: string)
    ensures (forall lookup: Lookup :: Delivers(text, lookup)) <==> |VariableList(text)| <= 1
  {
    var t, names := Parse(text), VariableList(text);
    AboutTheText(text);
    if |names| <= 1 {
      forall lookup: Lookup ensures Delivers(text, lookup) {
        assert names != [] ==> names[0] in names && names[1..] == [];
        assert StaysApart(t, names, lookup);
        ApplyIsExpansion(text, lookup);
      }
    } else {
      var a, b, rest := names[0], names[1], names[1..];
      assert names == [a] + rest && rest[0] == b && a in names && b in names;
      VariableIsToken(text, a);
      TokenAsValue(t, a, b);
      FormedTokenInterferes(t, a, TokenText(b), rest, b, " ");
      var lookup := map[b := " "] + map[a := TokenText(b)];
      assert !Delivers(text, lookup);
    }
  }

  // ---------------------------------------------------------------- the order of the tokens

  /** The same names in some order. */
  ghost predicate Reorders(names: seq<string>, others: seq<string>) {
    NoRepeats(others) && forall n :: n in names <==> n in others
  }

  ghost predicate SameInAnyOrder(t: Template, names: seq<string>) {
    forall others: seq<string>, lookup: Lookup | Reorders(names, others) && Plain(lookup) ::
      ReplaceEach(Render(t), others, lookup) == ReplaceEach(Render(t), names, lookup)
  }

  lemma {:induction false} SafeInAnyOrder(t: Template, names: seq<string>)
    requires NoRepeats(names) && forall a <- names, b <- names | a != b :: !Hazard(t, a, b)
    ensures SafeOrder(t, names)
  {
    if names != [] {
      assert forall n <- names[1..] :: n in names && n != names[0];
      SafeInAnyOrder(t, names[1..]);
    }
  }

  lemma OnlyOfSameNames(names: seq<string>, others: seq<string>, lookup: Lookup)
    requires forall n :: n in names <==> n in others
    ensures Only(names, lookup) == Only(others, lookup)
  {
  }

  /** Without a hazard between two different names, translations without opening braces give one text in every order. */
  lemma {:induction false} OrderIsIrrelevant(t: Template, names: seq<string>, others: seq<string>, lookup: Lookup)
    requires Proper(t) && forall n <- names :: Inert(t, n) && forall c <- n :: NameChar(c)
    requires NoRepeats(names) && Reorders(names, others)
    requires forall a <- names, b <- names | a != b :: !Hazard(t, a, b)
    requires forall n <- names :: '{' !in Value(lookup, n)
    ensures ReplaceEach(Render(t), names, lookup) == ReplaceEach(Render(t), others, lookup)
  {
    SafeInAnyOrder(t, names);
    SafeInAnyOrder(t, others);
    PlainStaysApart(t, names, lookup);
    PlainStaysApart(t, others, lookup);
    OnlyOfSameNames(names, others, lookup);
    SequentialIsSimultaneous(t, names, lookup);
    SequentialIsSimultaneous(t, others, lookup);
  }

  function Except(names: seq<string>, gone: set<string>): seq<string> {
    if names == [] then [] else (if names[0] in gone then [] else [names[0]]) + Except(names[1..], gone)
  }

  lemma {:induction false} ExceptFilters(names: seq<string>, gone: set<string>)
    requires NoRepeats(names)
    ensures NoRepeats(Except(names, gone))
    ensures forall n :: n in Except(names, gone) <==> n in names && n !in gone
  {
    if names != [] {
      ExceptFilters(names[1..], gone);
      assert names == [names[0]] + names[1..];
    }
  }

  /** A blank belongs to no token, so it completes none. */
  lemma {:induction false} BlankFormsNothing(t: Template, b: string, name: string)
    requires Inert(t, name) && forall c <- name :: NameChar(c)
    ensures Inert(Expand(t, map[b := " "]), name)
  {
    if t != [] {
      var t', rest := Expand(t, map[b := " "]), Expand(t[1..], map[b := " "]);
      BlankFormsNothing(t[1..], b, name);
      if t[0] == Tok(b) {
        CharsBeginNothing(" ", rest, name);
      } else {
        assert t' == [t[0]] + rest && t'[1..] == rest;
        if FirstToken(t) != Some(b) {
          RunStays(t, b, " ");
        } else if t[0].Chr? {
          RunGrows(t, b, " ");
          var k := |Run(t)|;
          assert Run(t')[..k] == Run(t) && Run(t')[k] == ' ';
          NoBlankInToken(name);
        }
      }
    }
  }

  lemma NoBlankInToken(name: string)
    requires forall c <- name :: NameChar(c)
    ensures forall i | 0 <= i < |TokenText(name)| :: TokenText(name)[i] != ' '
  {
    var n := |OPEN|;
    forall i | 0 <= i < |TokenText(name)| ensures TokenText(name)[i] != ' ' {
      if n <= i < n + |name| {
        assert TokenText(name)[i] == name[i - n] && name[i - n] in name;
      }
    }
  }

  /** In the other order the completed token comes too late to be replaced. */
  lemma OtherOrderDelivers(t: Template, a: string, value: string, b: string, rest: seq<string>)
    requires Proper(t) && Inert(t, a) && Inert(t, b) && (forall c <- a :: NameChar(c)) && (forall c <- b :: NameChar(c))
    requires a != b && value != "" && a !in rest && b !in rest && NoRepeats(rest)
    ensures var lookup := map[b := " "] + map[a := value];
            ReplaceEach(Render(t), [b] + ([a] + rest), lookup) == Render(Expand(t, lookup))
  {
    var one, other := map[a := value], map[b := " "];
    var lookup := other + one;
    var t' := Expand(t, other);
    ReplaceFirst(t, b, [a] + rest, lookup);
    ExpandKeepsProper(t, other);
    BlankFormsNothing(t, b, a);
    ReplaceFirst(t', a, rest, lookup);
    NothingToReplace(Render(Expand(t', one)), rest, lookup);
    ExpandTwice(t, other, one);
    assert one + other == lookup;
  }

  lemma TwoOrdersDiffer(t: Template, a: string, b: string, rest: seq<string>) returns (lookup: Lookup)
    requires Proper(t) && Inert(t, a) && Inert(t, b) && (forall c <- a :: NameChar(c)) && (forall c <- b :: NameChar(c))
    requires a != b && Hazard(t, a, b) && a !in rest && b !in rest && NoRepeats(rest)
    ensures Plain(lookup)
    ensures ReplaceEach(Render(t), [a] + ([b] + rest), lookup) != ReplaceEach(Render(t), [b] + ([a] + rest), lookup)
  {
    var value := Completion(t, a, b);
    lookup := map[b := " "] + map[a := value];
    FormedTokenInterferes(t, a, value, [b] + rest, b, " ");
    OtherOrderDelivers(t, a, value, b, rest);
  }

  lemma OrderDecides(t: Template, names: seq<string>, a: string, b: string)
    requires Proper(t) && NoRepeats(names) && forall n <- names :: Inert(t, n) && forall c <- n :: NameChar(c)
    requires a in names && b in names && a != b && Hazard(t, a, b)
    ensures !SameInAnyOrder(t, names)
  {
    var rest := Except(names, {a, b});
    ExceptFilters(names, {a, b});
    var lookup := TwoOrdersDiffer(t, a, b, rest);
    InFront(names, a, b, rest);
    InFront(names, b, a, rest);
    if SameInAnyOrder(t, names) {
      InThisOrder(t, names, [a] + ([b] + rest), lookup);
      InThisOrder(t, names, [b] + ([a] + rest), lookup);
      assert false;
    }
  }

  lemma InThisOrder(t: Template, names: seq<string>, others: seq<string>, lookup: Lookup)
    requires SameInAnyOrder(t, names) && Reorders(names, others) && Plain(lookup)
    ensures ReplaceEach(Render(t), others, lookup) == ReplaceEach(Render(t), names, lookup)
  {
  }

  lemma InFront(names: seq<string>, a: string, b: string, rest: seq<string>)
    requires a in names && b in names && a != b && NoRepeats(rest)
    requires forall n :: n in rest <==> n in names && n != a && n != b
    ensures Reorders(names, [a] + ([b] + rest))
  {
  }

  /**
   Exactly when the order of the tokens is irrelevant for all translations without opening braces: no literal
   characters right before one of them begin a different one.
   */
  lemma OrderMattersExactly(t: Template, names: seq<string>)
    requires Proper(t) && NoRepeats(names) && forall n <- names :: Inert(t, n) && forall c <- n :: NameChar(c)
    ensures SameInAnyOrder(t, names) <==> forall a <- names, b <- names | a != b :: !Hazard(t, a, b)
  {
    if a, b :| a in names && b in names && a != b && Hazard(t, a, b) {
      OrderDecides(t, names, a, b);
    } else {
      NoOrderDecides(t, names);
    }
  }

  lemma NoOrderDecides(t: Template, names: seq<string>)
    requires Proper(t) && NoRepeats(names) && forall n <- names :: Inert(t, n) && forall c <- n :: NameChar(c)
    requires forall a <- names, b <- names | a != b :: !Hazard(t, a, b)
    ensures SameInAnyOrder(t, names)
  {
    forall others: seq<string>, lookup: Lookup | Reorders(names, others) && Plain(lookup)
      ensures ReplaceEach(Render(t), others, lookup) == ReplaceEach(Render(t), names, lookup)
    {
      OrderIsIrrelevant(t, names, others, lookup);
    }
  }

  /** The same for a text and the variables it mentions. */
  lemma OrderInTextMattersExactly(text: string)
    ensures SameInAnyOrder(Parse(text), VariableList(text)) <==>
            forall a <- VariableList(text), b <- VariableList(text) | a != b :: !Hazard(Parse(text), a, b)
  {
    AboutTheText(text);
    OrderMattersExactly(Parse(text), VariableList(text));
  }

  // ---------------------------------------------------------------- reading a rendered template back

  predicate IsName(name: string) {
    forall c <- name :: NameChar(c)
  }

  /** No token among the literal characters, whatever its name. */
  ghost predicate Readable(t: Template) {
    Proper(t) && forall name: string | IsName(name) :: Inert(t, name)
  }

  /** Parsing inverts rendering for exactly the templates without a token among their literals. */
  lemma ParseRender(t: Template)
    ensures Readable(t) <==> Parse(Render(t)) == t
  {
    if Readable(t) {
      ReadableIsRead(t);
    }
    if Parse(Render(t)) == t {
      RenderParse(Render(t));
      forall name: string | IsName(name) ensures Inert(t, name) {
        ParsedIsInert(Render(t), name);
      }
    }
  }

  lemma {:induction false} ReadableIsRead(t: Template)
    requires Readable(t)
    ensures Parse(Render(t)) == t
  {
    if t != [] {
      var item, rest := t[0], t[1..];
      TailIsProper(t);
      forall name: string | IsName(name) ensures Inert(rest, name) {
        assert Inert(t, name);
      }
      ReadableIsRead(rest);
      assert t == [item] + rest;
      var text := Render(t);
      assert text == RenderItem(item) + Render(rest);
      if item.Tok? {
        TokenMatches(text, item.name);
        var n := MatchLength(text);
        assert text[..n] == TokenText(item.name) && text[n..] == Render(rest);
      } else {
        LiteralIsRead(t);
        assert text[0] == item.c && text[1..] == Render(rest);
      }
    }
  }

  lemma LiteralIsRead(t: Template)
    requires Readable(t) && t != [] && t[0].Chr?
    ensures MatchLength(Render(t)) < TOKEN_START_INDEX + TOKEN_END_INDEX
  {
    var n := MatchLength(Render(t));
    if n > 0 {
      MatchIsToken(Render(t));
      TokenOfName(Render(t)[..n]);
      var name := NameOf(Render(t)[..n]);
      assert IsName(name);
      TokenAtLiteral(t, name);
    }
  }

  /** The token texts of a template, in order. */
  function TokenTexts(t: Template): seq<string> {
    if t == [] then [] else (if t[0].Tok? then [TokenText(t[0].name)] else []) + TokenTexts(t[1..])
  }

  lemma {:induction false} MatchesAreTokenTexts(text: string)
    ensures MatchAll(text) == TokenTexts(Parse(text))
    decreases |text|
  {
    if text != "" {
      var n := MatchLength(text);
      var next := if n > 0 then text[n..] else text[1..];
      MatchesAreTokenTexts(next);
      if n > 0 {
        MatchIsToken(text);
        TokenOfName(text[..n]);
      }
      assert Parse(text)[1..] == Parse(next);
    }
  }

  // ---------------------------------------------------------------- a text that goes wrong

  const NESTED := "{{{{global:a}}}} {{global:b}}"
  const NESTED_TAIL := [Chr('}')] + ([Chr('}')] + ([Chr(' ')] + ([Tok("b")] + [])))
  const NESTED_TEMPLATE := [Chr('{')] + ([Chr('{')] + ([Tok("a")] + NESTED_TAIL))
  const COMPLETING: Lookup := map["b" := " "] + map["a" := "global:b"]

  /** What the functions on templates make of one more item in front. */
  lemma OneInFront(item: Item, rest: Template, lookup: Lookup)
    ensures Render([item] + rest) == RenderItem(item) + Render(rest)
    ensures Run([item] + rest) == if item.Chr? then [item.c] + Run(rest) else ""
    ensures FirstToken([item] + rest) == if item.Chr? then FirstToken(rest) else Some(item.name)
    ensures TokenTexts([item] + rest) == (if item.Tok? then [TokenText(item.name)] else []) + TokenTexts(rest)
    ensures Expand([item] + rest, lookup) == ExpandItem(item, lookup) + Expand(rest, lookup)
  {
    assert ([item] + rest)[1..] == rest;
  }

  lemma LiteralInFront(c: char, rest: Template)
    ensures Render([Chr(c)] + rest) == [c] + Render(rest) && Run([Chr(c)] + rest) == [c] + Run(rest)
    ensures FirstToken([Chr(c)] + rest) == FirstToken(rest) && TokenTexts([Chr(c)] + rest) == TokenTexts(rest)
  {
    OneInFront(Chr(c), rest, map[]);
    assert [] + TokenTexts(rest) == TokenTexts(rest);
  }

  lemma ThreeLiterals(x: char, y: char, z: char, rest: Template)
    ensures var t := [Chr(x)] + ([Chr(y)] + ([Chr(z)] + rest));
            && Render(t) == [x, y, z] + Render(rest) && Run(t) == [x, y, z] + Run(rest)
            && FirstToken(t) == FirstToken(rest) && TokenTexts(t) == TokenTexts(rest)
  {
    LiteralInFront(z, rest);
    LiteralInFront(y, [Chr(z)] + rest);
    LiteralInFront(x, [Chr(y)] + ([Chr(z)] + rest));
  }

  lemma AboutTheTail()
    ensures Render(NESTED_TAIL) == "}} " + TokenText("b")
    ensures Run(NESTED_TAIL) == "}} " && FirstToken(NESTED_TAIL) == Some("b")
    ensures TokenTexts(NESTED_TAIL) == [TokenText("b")]
  {
    OneInFront(Tok("b"), [], map[]);
    ThreeLiterals('}', '}', ' ', [Tok("b")] + []);
  }

  /** Two literals and a token in front of the rest. */
  lemma ThreeInFront(x: char, y: char, name: string, rest: Template, lookup: Lookup)
    ensures var t := [Chr(x)] + ([Chr(y)] + ([Tok(name)] + rest));
            && Render(t) == [x] + ([y] + (TokenText(name) + Render(rest)))
            && Run(t) == [x, y] && FirstToken(t) == Some(name)
            && TokenTexts(t) == [TokenText(name)] + TokenTexts(rest)
            && Expand(t, lookup) == [Chr(x)] + ([Chr(y)] + (ExpandItem(Tok(name), lookup) + Expand(rest, lookup)))
  {
    OneInFront(Tok(name), rest, lookup);
    OneInFront(Chr(y), [Tok(name)] + rest, lookup);
    OneInFront(Chr(x), [Chr(y)] + ([Tok(name)] + rest), lookup);
  }

  lemma NestedRendered()
    ensures Render(NESTED_TEMPLATE) == NESTED
    ensures TokenTexts(NESTED_TEMPLATE) == [TokenText("a"), TokenText("b")]
  {
    AboutTheTail();
    ThreeInFront('{', '{', "a", NESTED_TAIL, map[]);
    NestedText();
  }

  lemma NestedText()
    ensures ['{'] + (['{'] + (TokenText("a") + ("}} " + TokenText("b")))) == NESTED
  {
    assert TokenText("a") == "{{global:a}}" && TokenText("b") == "{{global:b}}";
  }

  /** The literal runs are too short to hold a token. */
  lemma {:induction false} ShortRunsAreInert(t: Template, name: string)
    requires |t| < |OPEN|
    ensures Inert(t, name)
  {
    if t != [] {
      ShortRunsAreInert(t[1..], name);
      RunIsLiteral(t);
    }
  }

  lemma NestedIsReadable()
    ensures Readable(NESTED_TEMPLATE)
  {
    forall name: string | IsName(name) ensures Inert(NESTED_TEMPLATE, name) {
      ShortRunsAreInert(NESTED_TEMPLATE, name);
    }
  }

  lemma {:induction false} TwoVariables(text: string, t: Template, a: string, b: string)
    requires Readable(t) && text == Render(t) && TokenTexts(t) == [TokenText(a), TokenText(b)] && a != b
    ensures Parse(text) == t && VariableList(text) == [a, b]
  {
    ParseRender(t);
    MatchesAreTokenTexts(text);
    MatchesAreTokens(text);
    assert NameOf(TokenText(a)) == a && NameOf(TokenText(b)) == b;
    TwoAreDistinct(TokenText(a), TokenText(b));
  }

  lemma TwoAreDistinct(first: string, second: string)
    requires first != second
    ensures Distinct([first, second]) == [first, second]
  {
    assert [first, second][..1] == [first] && [first][..0] == [];
    assert Distinct([first]) == [first];
  }

  /** The first value completes the second token. */
  lemma NestedIsCompleted()
    ensures Hazard(NESTED_TEMPLATE, "a", "b")
    ensures !Inert(Expand(NESTED_TEMPLATE, map["a" := "global:b"]), "b")
  {
    var one := map["a" := "global:b"];
    var rest := Expand(NESTED_TAIL, one);
    ThreeInFront('{', '{', "a", NESTED_TAIL, one);
    AboutTheTail();
    RunStays(NESTED_TAIL, "a", "global:b");
    RunChars("global:b", rest);
    RunAtChar('{', Chars("global:b") + rest);
    RunAtChar('{', [Chr('{')] + (Chars("global:b") + rest));
    assert TokenText("b") == "{{global:b}}";
    assert TokenText("b")[..2] == "{{";
    assert Run(Expand(NESTED_TEMPLATE, one)) == "{{global:b}} ";
  }

  lemma CompletedPair(t: Template, a: string, value: string, b: string)
    requires Proper(t) && Inert(t, a) && Inert(t, b) && IsName(a) && IsName(b)
    requires a != b && value != "" && !Inert(Expand(t, map[a := value]), b)
    ensures var lookup := map[b := " "] + map[a := value];
            && ReplaceEach(Render(t), [a, b], lookup) != Render(Expand(t, lookup))
            && ReplaceEach(Render(t), [b, a], lookup) == Render(Expand(t, lookup))
  {
    FormedTokenInterferes(t, a, value, [b], b, " ");
    OtherOrderDelivers(t, a, value, b, []);
    assert [a] + [b] == [a, b] && [b] + ([a] + []) == [b, a];
  }

  /** A completed token spoils the result in the order of the text, and in that order only. */
  lemma CompletedDiffers(text: string, a: string, value: string, b: string)
    requires VariableList(text) == [a, b] && value != "" && !Inert(Expand(Parse(text), map[a := value]), b)
    ensures var lookup := map[b := " "] + map[a := value];
            !Delivers(text, lookup) && ReplaceEach(text, [a, b], lookup) != ReplaceEach(text, [b, a], lookup)
  {
    AboutTheText(text);
    assert a == VariableList(text)[0] && b == VariableList(text)[1];
    assert a in VariableList(text) && b in VariableList(text);
    CompletedPair(Parse(text), a, value, b);
  }

  lemma NestedIsRead()
    ensures Parse(NESTED) == NESTED_TEMPLATE && VariableList(NESTED) == ["a", "b"]
  {
    NestedIsReadable();
    NestedRendered();
    TwoVariables(NESTED, NESTED_TEMPLATE, "a", "b");
  }

  lemma CompletingIsPlain()
    ensures Plain(COMPLETING)
  {
    assert COMPLETING.Keys == {"a", "b"} && COMPLETING["a"] == "global:b" && COMPLETING["b"] == " ";
  }

  lemma CompletingFormsToken(text: string, t: Template)
    requires Parse(text) == t && t == NESTED_TEMPLATE
    ensures Hazard(Parse(text), "a", "b") && !Inert(Expand(Parse(text), map["a" := "global:b"]), "b")
  {
    NestedIsCompleted();
  }

  /** Texts in which tokens interfere exist: here neither the result nor its independence of the order holds. */
  lemma NestedBracesInterfere()
    ensures VariableList(NESTED) == ["a", "b"] && Hazard(Parse(NESTED), "a", "b")
    ensures Plain(COMPLETING) && !Delivers(NESTED, COMPLETING)
    ensures ReplaceEach(NESTED, ["a", "b"], COMPLETING) != ReplaceEach(NESTED, ["b", "a"], COMPLETING)
  {
    NestedIsRead();
    CompletingFormsToken(NESTED, NESTED_TEMPLATE);
    CompletingIsPlain();
    CompletedDiffers(NESTED, "a", "global:b", "b");
  }

  lemma OneTokenIsRead(name: string)
    requires IsName(name)
    ensures Parse(TokenText(name)) == [Tok(name)] && VariableList(TokenText(name)) == [name]
  {
    var t := [Tok(name)];
    RenderOne(Tok(name));
    OneIsReadable(name);
    ParseRender(t);
    OneVariable(TokenText(name), name);
  }

  lemma OneIsReadable(name: string)
    requires IsName(name)
    ensures Readable([Tok(name)])
  {
    var t := [Tok(name)];
    assert t[1..] == [];
    assert forall n: string :: Inert(t, n);
  }

  lemma OneVariable(text: string, name: string)
    requires Parse(text) == [Tok(name)]
    ensures VariableList(text) == [name]
  {
    var t := Parse(text);
    assert t[1..] == [] && TokenTexts(t) == [TokenText(name)] + TokenTexts([]);
    MatchesAreTokenTexts(text);
    MatchesAreTokens(text);
    OneIsDistinct(TokenText(name));
    assert NameOf(TokenText(name)) == name;
  }

  /** A text that is just one token becomes the translation, in the requested language if there is one. */
  lemma OneTokenBecomesItsValue(variables: map<string, Values>, name: string, language: string, fallback: string)
    requires IsName(name) && name in variables
    requires language in variables[name] && variables[name][language] != ""
    ensures var text := "{{global:" + name + "}}";
            var names := VariableList(text);
            && names == [name]
            && ReplaceEach(text, names, Translations(variables, names, language, fallback)) == variables[name][language]
  {
    var lookup := Translations(variables, [name], language, fallback);
    TranslationOrder(variables, name, language, fallback);
    OneTokenIsRead(name);
    AnyTranslationIsSafeExactly(TokenText(name));
    assert Delivers(TokenText(name), lookup);
    ExpandSingle(Tok(name), lookup);
    RenderChars(variables[name][language]);
  }

  lemma OneIsDistinct(first: string)
    ensures Distinct([first]) == [first]
  {
    assert [first][..0] == [];
  }
}
