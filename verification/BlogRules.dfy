/**
 The rules of the blog, told from requests and results: which saves are accepted, which slug, texts and default locale
 they leave, and which locale a reader gets.
 */
module BlogRules {
  import opened Prelude
  import Text
  import opened Blog

  /** SLUG_REGEX read as a grammar: a run of letters and digits, and after each hyphen another run. */
  predicate Runs(s: string)
    decreases |s|
  {
    exists n | 0 < n <= |s| :: (forall c <- s[..n] :: SlugChar(c)) && (n == |s| || (s[n] == '-' && Runs(s[n + 1..])))
  }

  lemma SlugIsRuns(s: string)
    ensures IsSlug(s) <==> Runs(s)
  {
    if IsSlug(s) {
      SlugHasRuns(s);
    }
    if Runs(s) {
      RunsAreSlug(s);
    }
  }

  lemma {:induction false} RunsAreSlug(s: string)
    requires Runs(s)
    ensures IsSlug(s)
    decreases |s|
  {
    var n :| 0 < n <= |s| && (forall c <- s[..n] :: SlugChar(c)) && (n == |s| || (s[n] == '-' && Runs(s[n + 1..])));
    forall i | 0 <= i < n ensures SlugChar(s[i]) {
      assert s[i] in s[..n];
    }
    if n < |s| {
      RunsAreSlug(s[n + 1..]);
      RunThenSlug(s, n);
    }
  }

  lemma RunThenSlug(s: string, n: nat)
    requires 0 < n < |s| && (forall i | 0 <= i < n :: SlugChar(s[i])) && s[n] == '-' && IsSlug(s[n + 1..])
    ensures IsSlug(s)
  {
    var rest := s[n + 1..];
    forall i | n < i < |s| ensures s[i] == rest[i - n - 1] && (SlugChar(s[i]) || s[i] == '-') {
      assert rest[i - n - 1] in rest;
    }
    forall i | 0 <= i < |s| - 1 ensures !(s[i] == '-' && s[i + 1] == '-') {
      if i > n {
        assert !(rest[i - n - 1] == '-' && rest[i - n] == '-');
      }
    }
  }

  lemma {:induction false} SlugHasRuns(s: string)
    requires IsSlug(s)
    ensures Runs(s)
    decreases |s|
  {
    if i :| 0 <= i < |s| && s[i] == '-' && forall j | 0 <= j < i :: s[j] != '-' {
      assert i < |s| - 1;
      var rest := s[i + 1..];
      assert forall k | 0 <= k < |rest| :: rest[k] == s[i + 1 + k];
      assert forall c <- rest :: c in s;
      SlugHasRuns(rest);
      forall c <- s[..i] ensures SlugChar(c) {
        assert c in s;
      }
      assert 0 < i;
    } else {
      NoHyphen(s, |s|);
      forall c <- s[..|s|] ensures SlugChar(c) {
        assert s[..|s|] == s;
      }
    }
  }

  lemma {:induction false} NoHyphen(s: string, n: nat)
    requires n <= |s|
    requires !exists i :: 0 <= i < |s| && s[i] == '-' && forall j | 0 <= j < i :: s[j] != '-'
    ensures forall j | 0 <= j < n :: s[j] != '-'
  {
    if n > 0 {
      NoHyphen(s, n - 1);
    }
  }

  predicate Acceptable(input: Input) {
    && (forall e <- input.titles :: Text.IsLocale(e.locale) && |Text.Trim(e.text)| <= MAX_TITLE_LENGTH)
    && (forall e <- input.contents :: Text.IsLocale(e.locale) && |e.text| <= MAX_MARKDOWN_LENGTH)
    && (Text.Trim(input.slug) != "" ==> SlugOk(Text.Lower(Text.Trim(input.slug))))
  }

  lemma {:induction false} TitlesAccepted(entries: Localized)
    ensures ApplyTitles(entries).Ok? <==>
            forall e <- entries :: Text.IsLocale(e.locale) && |Text.Trim(e.text)| <= MAX_TITLE_LENGTH
  {
    if entries != [] {
      TitlesAccepted(entries[..|entries| - 1]);
      assert entries == entries[..|entries| - 1] + [entries[|entries| - 1]];
    }
  }

  lemma {:induction false} ContentsAccepted(entries: Localized)
    ensures ApplyContents(entries).Ok? <==>
            forall e <- entries :: Text.IsLocale(e.locale) && |e.text| <= MAX_MARKDOWN_LENGTH
  {
    if entries != [] {
      ContentsAccepted(entries[..|entries| - 1]);
      assert entries == entries[..|entries| - 1] + [entries[|entries| - 1]];
    }
  }

  predicate Speaks(input: Input, l: Locale) {
    LastTitle(input.titles, l).Some? || LastText(input.contents, l).Some?
  }

  lemma EmptyMapSpeaksNot(m: Localized)
    ensures m == [] <==> forall l :: !HasLocale(m, l)
  {
    if m != [] {
      assert HasLocale(m, m[0].locale);
    }
  }

  /**
   The default locale a save chooses: the one asked for; else the one the post had, as long as it still has a title or
   text; else tr-tr, if that has one; else the locale of the first title or text.
   */
  ghost predicate Chosen(doc: Post, input: Input, l: Locale) {
    if input.defaultLocale != "" then l == input.defaultLocale
    else if doc.defaultLocale != "" && Speaks(input, doc.defaultLocale) then l == doc.defaultLocale
    else if Speaks(input, "tr-tr") then l == "tr-tr"
    else FirstSpoken(input, l)
  }

  /** What the two maps of an acceptable save say about a locale. */
  lemma MapsSpeak(input: Input)
    requires ApplyTitles(input.titles).Ok? && ApplyContents(input.contents).Ok?
    ensures forall l :: Get(ApplyContents(input.contents).value, l) == LastText(input.contents, l)
    ensures forall l :: Get(ApplyTitles(input.titles).value, l) == LastTitle(input.titles, l)
  {
    forall l ensures Get(ApplyContents(input.contents).value, l) == LastText(input.contents, l)
             && Get(ApplyTitles(input.titles).value, l) == LastTitle(input.titles, l)
    {
      ContentsKeepLast(input.contents, l);
      TitlesKeepLast(input.titles, l);
    }
  }

  lemma ChoiceIsChosen(doc: Post, input: Input)
    requires ApplyTitles(input.titles).Ok? && ApplyContents(input.contents).Ok?
    requires ApplyTitles(input.titles).value != [] || ApplyContents(input.contents).value != []
    ensures var l := DefaultLocale(doc, input, ApplyTitles(input.titles).value, ApplyContents(input.contents).value);
            Chosen(doc, input, l)
  {
    MapsSpeak(input);
    FirstsAreFirst(input, ApplyTitles(input.titles).value, ApplyContents(input.contents).value);
  }

  lemma DefaultLocaleOfSave(doc: Post, input: Input, timeSlug: string)
    requires OnApplySave(doc, input, timeSlug).Ok?
    ensures var l := OnApplySave(doc, input, timeSlug).value.defaultLocale;
            Chosen(doc, input, l) && Speaks(input, l) && Text.IsLocale(l)
  {
    ChoiceIsChosen(doc, input);
    MapsSpeak(input);
  }

  /** The locale of the first title that is not blank, or without any the locale of the first text. */
  ghost predicate FirstSpoken(input: Input, l: Locale) {
    if exists i :: 0 <= i < |input.titles| && Text.Trim(input.titles[i].text) != "" then
      exists i :: 0 <= i < |input.titles| && Text.Trim(input.titles[i].text) != "" && input.titles[i].locale == l
                  && forall j | 0 <= j < i :: Text.Trim(input.titles[j].text) == ""
    else input.contents != [] && input.contents[0].locale == l
  }

  lemma FirstsAreFirst(input: Input, titles: Localized, contents: Localized)
    requires ApplyTitles(input.titles) == Ok(titles) && ApplyContents(input.contents) == Ok(contents)
    requires titles != [] || contents != []
    ensures FirstSpoken(input, FirstLocale(titles, contents))
  {
    FirstTitle(input.titles);
    FirstText(input.contents);
  }

  lemma {:induction false} FirstTitle(entries: Localized)
    requires ApplyTitles(entries).Ok?
    ensures var m := ApplyTitles(entries).value;
            if m == [] then forall i | 0 <= i < |entries| :: Text.Trim(entries[i].text) == ""
            else exists i :: 0 <= i < |entries| && Text.Trim(entries[i].text) != "" && entries[i].locale == m[0].locale
                             && forall j | 0 <= j < i :: Text.Trim(entries[j].text) == ""
  {
    if entries != [] {
      var n := |entries| - 1;
      var init := entries[..n];
      FirstTitle(init);
      var m := ApplyTitles(init).value;
      assert forall j | 0 <= j < n :: init[j] == entries[j];
      if m != [] {
        var i :| 0 <= i < |init| && Text.Trim(init[i].text) != "" && init[i].locale == m[0].locale
                 && forall j | 0 <= j < i :: Text.Trim(init[j].text) == "";
        assert entries[i] == init[i];
      }
    }
  }

  lemma {:induction false} FirstText(entries: Localized)
    requires ApplyContents(entries).Ok?
    ensures var m := ApplyContents(entries).value;
            (m == [] <==> entries == []) && (m != [] ==> m[0].locale == entries[0].locale)
  {
    if |entries| > 1 {
      FirstText(entries[..|entries| - 1]);
    }
  }

  /** Which slug a save leaves: the one asked for, trimmed and in lower case; else the old one; else the time. */
  lemma SlugOfSave(doc: Post, input: Input, timeSlug: string)
    requires OnApplySave(doc, input, timeSlug).Ok?
    ensures var slug := OnApplySave(doc, input, timeSlug).value.slug;
            slug == if Text.Trim(input.slug) != "" then Text.Lower(Text.Trim(input.slug))
                    else if doc.slug != "" then doc.slug else timeSlug
  {
  }

  /**
   A save is accepted exactly when its entries and slug are well-formed, some locale has a title or text, a requested
   default locale is well-formed and has one, and a published post keeps text in the default locale that is chosen.
   */
  lemma SaveAccepted(doc: Post, input: Input, timeSlug: string)
    ensures OnApplySave(doc, input, timeSlug).Ok? <==>
              && Acceptable(input)
              && (exists l :: Speaks(input, l))
              && (input.defaultLocale != "" ==>
                    Text.IsLocale(input.defaultLocale) && Speaks(input, input.defaultLocale))
              && (doc.published ==> exists l :: Chosen(doc, input, l) && HasText(input, l))
  {
    TitlesAccepted(input.titles);
    ContentsAccepted(input.contents);
    if ApplyTitles(input.titles).Ok? && ApplyContents(input.contents).Ok? {
      SpeakingIsNotEmpty(input);
      if exists l :: Speaks(input, l) {
        ChoiceIsChosen(doc, input);
        MapsSpeak(input);
        ChoiceIsOne(doc, input);
        SpokenIsLocale(input);
        var titles, contents := ApplyTitles(input.titles).value, ApplyContents(input.contents).value;
        FirstSpeaks(titles, contents);
      }
    }
  }

  predicate HasText(input: Input, l: Locale) {
    LastText(input.contents, l).Some? && Text.Trim(LastText(input.contents, l).value) != ""
  }

  lemma ChoiceIsOne(doc: Post, input: Input)
    ensures forall l, k | Chosen(doc, input, l) && Chosen(doc, input, k) :: l == k
  {
    if i :| 0 <= i < |input.titles| && Text.Trim(input.titles[i].text) != "" {
    }
  }

  lemma SpeakingIsNotEmpty(input: Input)
    requires ApplyTitles(input.titles).Ok? && ApplyContents(input.contents).Ok?
    ensures (exists l :: Speaks(input, l)) <==>
            ApplyTitles(input.titles).value != [] || ApplyContents(input.contents).value != []
  {
    MapsSpeak(input);
    EmptyMapSpeaksNot(ApplyTitles(input.titles).value);
    EmptyMapSpeaksNot(ApplyContents(input.contents).value);
    var l := if ApplyTitles(input.titles).value != [] then ApplyTitles(input.titles).value[0].locale
             else if ApplyContents(input.contents).value != [] then ApplyContents(input.contents).value[0].locale
             else "";
    assert Get(ApplyTitles(input.titles).value, l) == LastTitle(input.titles, l);
    assert Get(ApplyContents(input.contents).value, l) == LastText(input.contents, l);
    assert Speaks(input, l) <==> ApplyTitles(input.titles).value != [] || ApplyContents(input.contents).value != [];
  }

  lemma FirstSpeaks(titles: Localized, contents: Localized)
    requires titles != [] || contents != []
    ensures HasLocale(titles, FirstLocale(titles, contents)) || HasLocale(contents, FirstLocale(titles, contents))
  {
  }

  lemma SpokenIsLocale(input: Input)
    requires ApplyTitles(input.titles).Ok? && ApplyContents(input.contents).Ok?
    ensures forall l | Speaks(input, l) :: Text.IsLocale(l)
  {
    forall l | Speaks(input, l) ensures Text.IsLocale(l) {
      LastIsEntry(input.titles, l);
      LastIsEntry(input.contents, l);
      TitlesAccepted(input.titles);
      ContentsAccepted(input.contents);
    }
  }

  lemma {:induction false} LastIsEntry(entries: Localized, l: Locale)
    ensures LastTitle(entries, l).Some? || LastText(entries, l).Some? ==> exists e <- entries :: e.locale == l
  {
    if entries != [] {
      var init, e := entries[..|entries| - 1], entries[|entries| - 1];
      LastIsEntry(init, l);
      assert e in entries && forall x <- init :: x in entries;
    }
  }

  // ---------------------------------------------------------------- reading

  /** Which locale a reader gets: the requested one, else the default one, else the first one, that has markdown. */
  lemma ResolvedInOrder(p: Post, requested: Locale)
    ensures var l := ResolveLocale(p, requested);
            if HasContent(p, requested) then l == requested
            else if HasContent(p, p.defaultLocale) then l == p.defaultLocale
            else if AvailableLocales(p) == {} then l == p.defaultLocale
            else exists i :: 0 <= i < |p.contents| && p.contents[i].locale == l && HasContent(p, l)
                             && forall j | 0 <= j < i :: !HasContent(p, p.contents[j].locale)
  {
    FoundIsFirst(p, p.contents);
    var found := FindContent(p, p.contents);
    if found.Some? {
      AvailableExactly(p, found.value);
    }
  }

  lemma {:induction false} FoundIsFirst(p: Post, entries: Localized)
    ensures match FindContent(p, entries)
            case None => forall e <- entries :: !HasContent(p, e.locale)
            case Some(l) => exists i :: 0 <= i < |entries| && entries[i].locale == l && HasContent(p, l)
                                        && forall j | 0 <= j < i :: !HasContent(p, entries[j].locale)
  {
    if entries != [] {
      FoundIsFirst(p, entries[1..]);
      assert entries == [entries[0]] + entries[1..];
      if !HasContent(p, entries[0].locale) && FindContent(p, entries[1..]).Some? {
        var l := FindContent(p, entries[1..]).value;
        var i :| 0 <= i < |entries[1..]| && entries[1..][i].locale == l
                 && forall j | 0 <= j < i :: !HasContent(p, entries[1..][j].locale);
        assert entries[i + 1].locale == l;
        assert forall j | 0 < j < i + 1 :: entries[j] == entries[1..][j - 1];
      }
    }
  }

  /** One more request is served on what the others left; a refused one leaves it as it was. */
  lemma {:induction false} OneMoreRequest(s: Store, requests: seq<Request>, r: Request)
    ensures var before := ServeAll(s, requests);
            ServeAll(s, requests + [r]) == if Serve(before, r).Ok? then Serve(before, r).value else before
    decreases |requests|
  {
    if requests == [] {
      assert [r][1..] == [] && requests + [r] == [r];
      assert ServeAll(if Serve(s, r).Ok? then Serve(s, r).value else s, []) ==
             if Serve(s, r).Ok? then Serve(s, r).value else s;
    } else {
      ConcatHead(requests, [r]);
      OneMoreRequest(if Serve(s, requests[0]).Ok? then Serve(s, requests[0]).value else s, requests[1..], r);
    }
  }
}
