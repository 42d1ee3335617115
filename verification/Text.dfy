/** The few JavaScript string functions the services rely on, on ASCII text. */
module Text {

  predicate IsSpace(c: char) {
    c == ' ' || '\t' <= c <= '\r'  // tab, line feed, vertical tab, form feed, carriage return
  }

  function TrimStart(s: string): string {
    if s != [] && IsSpace(s[0]) then TrimStart(s[1..]) else s
  }

  function TrimEnd(s: string): string {
    if s != [] && IsSpace(s[|s| - 1]) then TrimEnd(s[..|s| - 1]) else s
  }

  function Trim(s: string): string {
    TrimEnd(TrimStart(s))
  }

  function Lower(s: string): (l: string)
    ensures |l| == |s|
  {
    seq(|s|, i requires 0 <= i < |s| => if 'A' <= s[i] <= 'Z' then (s[i] as int + 32) as char else s[i])
  }

  predicate IsLower(c: char) {
    'a' <= c <= 'z'
  }

  predicate IsDigit(c: char) {
    '0' <= c <= '9'
  }

  /** LOCALE_KEY_REGEX: two lower case letters, a hyphen, two lower case letters. */
  predicate IsLocale(s: string) {
    |s| == 5 && IsLower(s[0]) && IsLower(s[1]) && s[2] == '-' && IsLower(s[3]) && IsLower(s[4])
  }

  /** `trim` leaves nothing exactly of blank text. */
  lemma {:induction false} BlankExactly(s: string)
    ensures Trim(s) == "" <==> forall c <- s :: IsSpace(c)
    decreases |s|
  {
    TrimStartBlank(s);
    TrimEndBlank(TrimStart(s));
  }

  lemma {:induction false} TrimStartBlank(s: string)
    ensures TrimStart(s) == "" <==> forall c <- s :: IsSpace(c)
    ensures TrimStart(s) != "" ==> !IsSpace(TrimStart(s)[0]) && TrimStart(s)[0] in s
  {
    if s != [] {
      TrimStartBlank(s[1..]);
      assert s == [s[0]] + s[1..];
    }
  }

  lemma {:induction false} TrimEndBlank(s: string)
    ensures s != "" && !IsSpace(s[0]) ==> TrimEnd(s) != ""
    ensures s == "" ==> TrimEnd(s) == ""
    ensures TrimEnd(s) <= s
    ensures TrimEnd(s) != "" ==> !IsSpace(TrimEnd(s)[|TrimEnd(s)| - 1])
    decreases |s|
  {
    if s != [] && IsSpace(s[|s| - 1]) {
      TrimEndBlank(s[..|s| - 1]);
    }
  }

  /**
   `trim` cuts blanks off both ends, and nothing else: the text is blanks, the trimmed text, blanks, and the trimmed
   text neither begins nor ends with one.
   */
  lemma TrimmedExactly(s: string, t: string)
    ensures t == Trim(s) <==>
            && (t == "" || (!IsSpace(t[0]) && !IsSpace(t[|t| - 1])))
            && exists a, b :: s == a + t + b && (forall c <- a :: IsSpace(c)) && (forall c <- b :: IsSpace(c))
  {
    TrimIsTrimmed(s);
    if a, b :| s == a + t + b && (forall c <- a :: IsSpace(c)) && (forall c <- b :: IsSpace(c))
               && (t == "" || (!IsSpace(t[0]) && !IsSpace(t[|t| - 1])))
    {
      TrimOfParts(a, t, b);
    }
  }

  lemma {:induction false} CutStart(s: string) returns (a: string)
    ensures s == a + TrimStart(s) && forall c <- a :: IsSpace(c)
  {
    if s != [] && IsSpace(s[0]) {
      var rest := CutStart(s[1..]);
      a := [s[0]] + rest;
      assert s == [s[0]] + s[1..];
      assert a + TrimStart(s) == [s[0]] + (rest + TrimStart(s[1..]));
    } else {
      a := "";
      assert a + s == s;
    }
  }

  lemma {:induction false} CutEnd(s: string) returns (b: string)
    ensures s == TrimEnd(s) + b && forall c <- b :: IsSpace(c)
    decreases |s|
  {
    if s != [] && IsSpace(s[|s| - 1]) {
      var rest := CutEnd(s[..|s| - 1]);
      b := rest + [s[|s| - 1]];
      assert s == s[..|s| - 1] + [s[|s| - 1]];
    } else {
      b := "";
    }
  }

  lemma TrimIsTrimmed(s: string)
    ensures var t := Trim(s);
            && (t == "" || (!IsSpace(t[0]) && !IsSpace(t[|t| - 1])))
            && exists a, b :: s == a + t + b && (forall c <- a :: IsSpace(c)) && (forall c <- b :: IsSpace(c))
  {
    var start := TrimStart(s);
    var a := CutStart(s);
    var b := CutEnd(start);
    TrimStartBlank(s);
    TrimEndBlank(start);
    assert s == a + Trim(s) + b;
  }

  lemma {:induction false} TrimOfParts(a: string, t: string, b: string)
    requires (forall c <- a :: IsSpace(c)) && (forall c <- b :: IsSpace(c))
    requires t == "" || (!IsSpace(t[0]) && !IsSpace(t[|t| - 1]))
    ensures Trim(a + t + b) == t
    decreases |a|
  {
    if a != "" {
      assert a[0] in a && forall c <- a[1..] :: c in a;
      TrimOfParts(a[1..], t, b);
      assert (a + t + b)[1..] == a[1..] + t + b;
    } else {
      assert a + t + b == t + b;
      if t == "" {
        assert t + b == b;
        BlankExactly(b);
      } else {
        TrimEndOfParts(t, b);
      }
    }
  }

  lemma {:induction false} TrimEndOfParts(t: string, b: string)
    requires (forall c <- b :: IsSpace(c)) && t != "" && !IsSpace(t[|t| - 1])
    ensures TrimEnd(t + b) == t
    decreases |b|
  {
    if b != "" {
      assert b[|b| - 1] in b && forall c <- b[..|b| - 1] :: c in b;
      TrimEndOfParts(t, b[..|b| - 1]);
      assert (t + b)[..|t + b| - 1] == t + b[..|b| - 1];
    } else {
      assert t + b == t;
    }
  }

  /** The blanks of ASCII: space, tab, line feed, vertical tab, form feed, carriage return. */
  lemma SpacesListed(c: char)
    ensures IsSpace(c) <==> c as int in {32, 9, 10, 11, 12, 13}
  {
  }

  /** Small letters and digits by their codes, and the form of a locale by an example of each position. */
  lemma LettersAndDigits(c: char)
    ensures IsLower(c) <==> 97 <= c as int < 123
    ensures IsDigit(c) <==> 48 <= c as int < 58
    ensures IsLocale("az-tr") && !IsLocale("az-TR") && !IsLocale("aztr-") && !IsLocale("a-z") && !IsLocale("az_tr")
  {
  }

  /** Lower case keeps everything but the capitals, which it maps to their small letters. */
  lemma LowerLetters(s: string, i: nat)
    requires i < |s|
    ensures var c := Lower(s)[i];
            && !('A' <= c <= 'Z')
            && (c == s[i] || ('A' <= s[i] <= 'Z' && c as int - 'a' as int == s[i] as int - 'A' as int))
    ensures Lower(Lower(s)) == Lower(s)
  {
  }
}
