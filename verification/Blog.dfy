/**
 The blog of the greenhat service: drafts and published posts with titles and markdown per locale, with requests
 served one at a time; a request that throws leaves the collection as it was. BlogSaves interleaves the requests.
 */
module Blog {
  import opened Prelude
  import Text

  type Id = nat
  type Locale = string

  const MAX_SLUG_LENGTH := 120
  const MAX_TITLE_LENGTH := 300
  const MAX_MARKDOWN_LENGTH := 500_000
  const FALLBACK_LOCALE := "tr-tr"

  datatype Error = BadRequest | NotFound | Conflict

  /** A JavaScript Map from locale to text: keys in order of insertion. */
  datatype Entry = Entry(locale: Locale, text: string)

  type Localized = seq<Entry>

  function Get(m: Localized, locale: Locale): Option<string> {
    if m == [] then None else if m[0].locale == locale then Some(m[0].text) else Get(m[1..], locale)
  }

  predicate HasLocale(m: Localized, locale: Locale) {
    Get(m, locale).Some?
  }

  /** `Map.set`. */
  function Put(m: Localized, locale: Locale, text: string): Localized {
    if m == [] then [Entry(locale, text)]
    else if m[0].locale == locale then [Entry(locale, text)] + m[1..]
    else [m[0]] + Put(m[1..], locale, text)
  }

  datatype Post = Post(
    slug: string,  // empty before the first save
    published: bool,
    publishedAt: Option<int>,
    defaultLocale: Locale,
    titles: Localized,
    contents: Localized,
    deactivated: bool
  )

  const NEW_POST := Post("", false, None, FALLBACK_LOCALE, [], [], false)

  /** The save request; a missing string is empty. */
  datatype Input = Input(titles: Localized, contents: Localized, defaultLocale: Locale, slug: string)

  type Store = map<Id, Post>

  // ---------------------------------------------------------------- slugs

  predicate SlugChar(c: char) {
    Text.IsLower(c) || Text.IsDigit(c)
  }

  /** SLUG_REGEX: runs of lower case letters and digits, separated by single hyphens. */
  predicate IsSlug(s: string) {
    && s != ""
    && s[0] != '-' && s[|s| - 1] != '-'
    && (forall c <- s :: SlugChar(c) || c == '-')
    && (forall i | 0 <= i < |s| - 1 :: !(s[i] == '-' && s[i + 1] == '-'))
  }

  predicate SlugOk(s: string) {
    IsSlug(s) && |s| <= MAX_SLUG_LENGTH
  }

  /** What generateTimeSlug yields: the digits of a timestamp. */
  predicate IsTimeSlug(s: string) {
    0 < |s| <= MAX_SLUG_LENGTH && forall c <- s :: Text.IsDigit(c)
  }

  /** Ok("") stands for no slug. */
  function NormalizeSlug(slug: string): Result<string, Error> {
    var normalized := Text.Lower(Text.Trim(slug));
    if normalized == "" then Ok("")
    else if SlugOk(normalized) then Ok(normalized)
    else Err(BadRequest)
  }

  // ---------------------------------------------------------------- applySave

  function ApplyTitles(entries: Localized): Result<Localized, Error> {
    if entries == [] then Ok([]) else
      var e := entries[|entries| - 1];
      var trimmed := Text.Trim(e.text);
      match ApplyTitles(entries[..|entries| - 1])
      case Err(error) => Err(error)
      case Ok(titles) =>
        if !Text.IsLocale(e.locale) || |trimmed| > MAX_TITLE_LENGTH then Err(BadRequest)
        else Ok(if trimmed != "" then Put(titles, e.locale, trimmed) else titles)
  }

  function ApplyContents(entries: Localized): Result<Localized, Error> {
    if entries == [] then Ok([]) else
      var e := entries[|entries| - 1];
      match ApplyContents(entries[..|entries| - 1])
      case Err(error) => Err(error)
      case Ok(contents) =>
        if !Text.IsLocale(e.locale) || |e.text| > MAX_MARKDOWN_LENGTH then Err(BadRequest)
        else Ok(Put(contents, e.locale, e.text))
  }

  /** The first locale of the union of titles and contents. */
  function FirstLocale(titles: Localized, contents: Localized): Locale
    requires titles != [] || contents != []
  {
    if titles != [] then titles[0].locale else contents[0].locale
  }

  function DefaultLocale(doc: Post, input: Input, titles: Localized, contents: Localized): Locale
    requires titles != [] || contents != []
  {
    if input.defaultLocale != "" then input.defaultLocale
    else if doc.defaultLocale != "" && (HasLocale(titles, doc.defaultLocale) || HasLocale(contents, doc.defaultLocale))
    then doc.defaultLocale
    else if HasLocale(titles, FALLBACK_LOCALE) || HasLocale(contents, FALLBACK_LOCALE) then FALLBACK_LOCALE
    else FirstLocale(titles, contents)
  }

  predicate NonBlank(m: Localized, locale: Locale) {
    HasLocale(m, locale) && Text.Trim(Get(m, locale).value) != ""
  }

  /** `applySave` on a document in memory. */
  function OnApplySave(doc: Post, input: Input, timeSlug: string): Result<Post, Error> {
    match (ApplyTitles(input.titles), ApplyContents(input.contents), NormalizeSlug(input.slug))
    case (Ok(titles), Ok(contents), Ok(slug)) =>
      if titles == [] && contents == [] then Err(BadRequest) else
        var locale := DefaultLocale(doc, input, titles, contents);
        if !Text.IsLocale(locale) || !(HasLocale(titles, locale) || HasLocale(contents, locale)) then Err(BadRequest)
        else if doc.published && !NonBlank(contents, locale) then Err(BadRequest)
        else Ok(doc.(titles := titles, contents := contents, defaultLocale := locale,
                     slug := if slug != "" then slug else if doc.slug != "" then doc.slug else timeSlug))
    case _ => Err(BadRequest)
  }

  method CollectTitles(entries: Localized) returns (r: Result<Localized, Error>)
    ensures r == ApplyTitles(entries)
  {
    var titles: Localized := [];
    for i := 0 to |entries|
      invariant ApplyTitles(entries[..i]) == Ok(titles)
    {
      var e := entries[i];
      assert entries[..i + 1][..i] == entries[..i];
      var trimmed := Text.Trim(e.text);
      if !Text.IsLocale(e.locale) || |trimmed| > MAX_TITLE_LENGTH {
        TitlesFail(entries, i + 1);
        return Err(BadRequest);
      }
      if trimmed != "" {
        titles := Put(titles, e.locale, trimmed);
      }
    }
    assert entries[..|entries|] == entries;
    r := Ok(titles);
  }

  method CollectContents(entries: Localized) returns (r: Result<Localized, Error>)
    ensures r == ApplyContents(entries)
  {
    var contents: Localized := [];
    for i := 0 to |entries|
      invariant ApplyContents(entries[..i]) == Ok(contents)
    {
      var e := entries[i];
      assert entries[..i + 1][..i] == entries[..i];
      if !Text.IsLocale(e.locale) || |e.text| > MAX_MARKDOWN_LENGTH {
        ContentsFail(entries, i + 1);
        return Err(BadRequest);
      }
      contents := Put(contents, e.locale, e.text);
    }
    assert entries[..|entries|] == entries;
    r := Ok(contents);
  }

  lemma {:induction false} TitlesFail(entries: Localized, n: nat)
    requires n <= |entries| && ApplyTitles(entries[..n]) == Err(BadRequest)
    ensures ApplyTitles(entries) == Err(BadRequest)
    decreases |entries| - n
  {
    if n < |entries| {
      assert entries[..n + 1][..n] == entries[..n];
      TitlesFail(entries, n + 1);
    } else {
      assert entries[..n] == entries;
    }
  }

  lemma {:induction false} ContentsFail(entries: Localized, n: nat)
    requires n <= |entries| && ApplyContents(entries[..n]) == Err(BadRequest)
    ensures ApplyContents(entries) == Err(BadRequest)
    decreases |entries| - n
  {
    if n < |entries| {
      assert entries[..n + 1][..n] == entries[..n];
      ContentsFail(entries, n + 1);
    } else {
      assert entries[..n] == entries;
    }
  }

  // ---------------------------------------------------------------- requests

  predicate Active(s: Store, id: Id) {
    id in s && !s[id].deactivated
  }

  predicate SlugTaken(s: Store, slug: string, except: set<Id>) {
    exists id :: id in s && id !in except && !s[id].deactivated && s[id].slug == slug
  }

  datatype Request =
    | Create(id: Id, input: Input, timeSlug: string)  // id is the fresh one of the new document
    | Update(id: Id, input: Input, timeSlug: string)
    | SetPublished(id: Id, published: bool, now: int)
    | Remove(id: Id)

  function Publish(doc: Post, now: int): Result<Post, Error> {
    if !NonBlank(doc.contents, doc.defaultLocale) then Err(BadRequest)
    else Ok(doc.(published := true,
                 publishedAt := if !doc.published && doc.publishedAt.None? then Some(now) else doc.publishedAt))
  }

  /** The document a request works on: a new one, or the active one with its id. */
  function Loaded(s: Store, r: Request): Result<Post, Error> {
    if r.Create? then Ok(NEW_POST)
    else if Active(s, r.id) then Ok(s[r.id])
    else Err(NotFound)
  }

  /** What a request makes of the document in memory. */
  function Changed(doc: Post, r: Request): Result<Post, Error> {
    match r
    case Create(_, input, timeSlug) => OnApplySave(doc, input, timeSlug)
    case Update(_, input, timeSlug) => OnApplySave(doc, input, timeSlug)
    case SetPublished(_, published, now) => if published then Publish(doc, now) else Ok(doc.(published := false))
    case Remove(_) => Ok(doc.(deactivated := true))
  }

  /** `ensureSlugAvailable` refuses. */
  predicate SlugRefused(s: Store, read: Post, doc: Post, r: Request) {
    match r
    case Create(_, _, _) => SlugTaken(s, doc.slug, {})
    case Update(id, _, _) => doc.slug != read.slug && SlugTaken(s, doc.slug, {id})
    case _ => false
  }

  /** Serving one request without interruption: the new collection or an error. */
  function Serve(s: Store, r: Request): Result<Store, Error> {
    if r.Create? && r.id in s then Err(Conflict) else
      match Loaded(s, r)
      case Err(error) => Err(error)
      case Ok(read) =>
        match Changed(read, r)
        case Err(error) => Err(error)
        case Ok(doc) => if SlugRefused(s, read, doc, r) then Err(Conflict) else Ok(s[r.id := doc])
  }

  /** The collection behind the service. */
  class BlogCollection {
    var posts: Store

    constructor ()
      ensures posts == map[]
    {
      posts := map[];
    }

    /** `applySave`: collect the texts, then decide on locale and slug. */
    method ApplySave(doc: Post, input: Input, timeSlug: string) returns (r: Result<Post, Error>)
      ensures r == OnApplySave(doc, input, timeSlug)
    {
      var titles := CollectTitles(input.titles);
      ErrorsAreBadRequests(input);
      if titles.Err? {
        return Err(titles.error);
      }
      var contents := CollectContents(input.contents);
      if contents.Err? {
        return Err(contents.error);
      }
      if |titles.value| == 0 && |contents.value| == 0 {
        return Err(BadRequest);
      }
      var locale := DefaultLocale(doc, input, titles.value, contents.value);
      if !Text.IsLocale(locale) || !(HasLocale(titles.value, locale) || HasLocale(contents.value, locale)) {
        return Err(BadRequest);
      }
      var changed := doc.(titles := titles.value, contents := contents.value, defaultLocale := locale);
      var slug := NormalizeSlug(input.slug);
      if slug.Err? {
        return Err(slug.error);
      }
      if slug.value != "" {
        changed := changed.(slug := slug.value);
      } else if changed.slug == "" {
        changed := changed.(slug := timeSlug);
      }
      if changed.published && !NonBlank(changed.contents, locale) {
        return Err(BadRequest);
      }
      r := Ok(changed);
    }

    method Create(id: Id, input: Input, timeSlug: string) returns (error: Option<Error>)
      requires id !in posts
      modifies this
      ensures var r := Serve(old(posts), Request.Create(id, input, timeSlug));
              if r.Ok? then error == None && posts == r.value else error == Some(r.error) && posts == old(posts)
    {
      var doc := ApplySave(NEW_POST, input, timeSlug);
      if doc.Err? {
        return Some(doc.error);
      }
      if SlugTaken(posts, doc.value.slug, {}) {
        return Some(Conflict);
      }
      posts := posts[id := doc.value];
      error := None;
    }

    method SetPublished(id: Id, published: bool, now: int) returns (error: Option<Error>)
      modifies this
      ensures var r := Serve(old(posts), Request.SetPublished(id, published, now));
              if r.Ok? then error == None && posts == r.value else error == Some(r.error) && posts == old(posts)
    {
      if !Active(posts, id) {
        return Some(NotFound);
      }
      var doc := posts[id];
      if published {
        if !NonBlank(doc.contents, doc.defaultLocale) {
          return Some(BadRequest);
        }
        if !doc.published && doc.publishedAt.None? {
          doc := doc.(publishedAt := Some(now));
        }
        doc := doc.(published := true);
      } else {
        doc := doc.(published := false);
      }
      posts := posts[id := doc];
      error := None;
    }

    method Update(id: Id, input: Input, timeSlug: string) returns (error: Option<Error>)
      modifies this
      ensures var r := Serve(old(posts), Request.Update(id, input, timeSlug));
              if r.Ok? then error == None && posts == r.value else error == Some(r.error) && posts == old(posts)
    {
      if !Active(posts, id) {
        return Some(NotFound);
      }
      var doc := ApplySave(posts[id], input, timeSlug);
      if doc.Err? {
        return Some(doc.error);
      }
      if doc.value.slug != posts[id].slug && SlugTaken(posts, doc.value.slug, {id}) {
        return Some(Conflict);
      }
      posts := posts[id := doc.value];
      error := None;
    }
  }

  lemma ErrorsAreBadRequests(input: Input)
    ensures ApplyTitles(input.titles).Err? ==> ApplyTitles(input.titles).error == BadRequest
    ensures ApplyContents(input.contents).Err? ==> ApplyContents(input.contents).error == BadRequest
  {
    TitlesCollect(input.titles);
    ContentsCollect(input.contents);
  }

  lemma {:induction false} TitlesCollect(entries: Localized)
    ensures ApplyTitles(entries).Err? ==> ApplyTitles(entries).error == BadRequest
    ensures ApplyTitles(entries).Ok? ==>
              forall e <- ApplyTitles(entries).value :: Text.IsLocale(e.locale) && e.text != ""
  {
    if entries != [] {
      var init := entries[..|entries| - 1];
      TitlesCollect(init);
      if ApplyTitles(entries).Ok? {
        var e := entries[|entries| - 1];
        PutPuts(ApplyTitles(init).value, e.locale, Text.Trim(e.text));
      }
    }
  }

  lemma {:induction false} ContentsCollect(entries: Localized)
    ensures ApplyContents(entries).Err? ==> ApplyContents(entries).error == BadRequest
    ensures ApplyContents(entries).Ok? ==> forall e <- ApplyContents(entries).value :: Text.IsLocale(e.locale)
  {
    if entries != [] {
      var init := entries[..|entries| - 1];
      ContentsCollect(init);
      if ApplyContents(entries).Ok? {
        var e := entries[|entries| - 1];
        PutPuts(ApplyContents(init).value, e.locale, e.text);
      }
    }
  }

  lemma {:induction false} PutPuts(m: Localized, locale: Locale, text: string)
    ensures forall e <- Put(m, locale, text) :: e in m || e == Entry(locale, text)
    ensures forall l :: Get(Put(m, locale, text), l) == if l == locale then Some(text) else Get(m, l)
  {
    if m != [] {
      PutPuts(m[1..], locale, text);
      assert m == [m[0]] + m[1..];
      assert ([Entry(locale, text)] + m[1..])[1..] == m[1..];
      assert ([m[0]] + Put(m[1..], locale, text))[1..] == Put(m[1..], locale, text);
    }
  }

  // ---------------------------------------------------------------- reachable collections

  ghost predicate WellFormed(p: Post) {
    SlugOk(p.slug) && Text.IsLocale(p.defaultLocale) && forall e <- p.contents :: Text.IsLocale(e.locale)
  }

  predicate PublishedOk(p: Post) {
    p.published ==> NonBlank(p.contents, p.defaultLocale) && p.publishedAt.Some?
  }

  ghost predicate PostOk(p: Post) {
    && WellFormed(p)
    && PublishedOk(p)
    && (HasLocale(p.titles, p.defaultLocale) || HasLocale(p.contents, p.defaultLocale))
  }

  ghost predicate UniqueSlugs(s: Store) {
    forall i, j | Active(s, i) && Active(s, j) && i != j :: s[i].slug != s[j].slug
  }

  ghost predicate Inv(s: Store) {
    (forall id | id in s :: PostOk(s[id])) && UniqueSlugs(s)
  }

  /** Posts never disappear, and a publication date once set stays. */
  ghost predicate DatesKept(s: Store, s': Store) {
    forall id | id in s :: id in s' && (s[id].publishedAt.Some? ==> s'[id].publishedAt == s[id].publishedAt)
  }

  lemma TimeSlugIsSlug(s: string)
    requires IsTimeSlug(s)
    ensures SlugOk(s)
  {
    assert s[0] in s && s[|s| - 1] in s;
    assert forall i | 0 <= i < |s| :: s[i] in s;
  }

  lemma ApplySaveKeepsOk(doc: Post, input: Input, timeSlug: string)
    requires doc == NEW_POST || PostOk(doc)
    requires IsTimeSlug(timeSlug)
    requires OnApplySave(doc, input, timeSlug).Ok?
    ensures PostOk(OnApplySave(doc, input, timeSlug).value)
  {
    TimeSlugIsSlug(timeSlug);
    ContentsCollect(input.contents);
  }

  predicate TimeSlugsOk(r: Request) {
    (r.Create? || r.Update?) ==> IsTimeSlug(r.timeSlug)
  }

  lemma StoringKeepsInv(s: Store, id: Id, p: Post)
    requires Inv(s) && PostOk(p)
    requires p.deactivated || (Active(s, id) && s[id].slug == p.slug) || !SlugTaken(s, p.slug, {id})
    requires id in s && s[id].publishedAt.Some? ==> p.publishedAt == s[id].publishedAt
    ensures Inv(s[id := p]) && DatesKept(s, s[id := p])
  {
    var s' := s[id := p];
    forall i, j | Active(s', i) && Active(s', j) && i != j ensures s'[i].slug != s'[j].slug {
      if i != id {
        assert Active(s, i);
      }
      if j != id {
        assert Active(s, j);
      }
    }
  }

  lemma ServeKeepsInv(s: Store, r: Request)
    requires Inv(s) && TimeSlugsOk(r) && Serve(s, r).Ok?
    ensures Inv(Serve(s, r).value) && DatesKept(s, Serve(s, r).value)
  {
    match r
    case Create(id, input, timeSlug) =>
      ApplySaveKeepsOk(NEW_POST, input, timeSlug);
      StoringKeepsInv(s, id, OnApplySave(NEW_POST, input, timeSlug).value);
    case Update(id, input, timeSlug) =>
      ApplySaveKeepsOk(s[id], input, timeSlug);
      StoringKeepsInv(s, id, OnApplySave(s[id], input, timeSlug).value);
    case SetPublished(id, published, now) =>
      StoringKeepsInv(s, id, if published then Publish(s[id], now).value else s[id].(published := false));
    case Remove(id) =>
      StoringKeepsInv(s, id, s[id].(deactivated := true));
  }

  /** A refused request changes nothing. */
  function ServeAll(s: Store, requests: seq<Request>): Store
    decreases |requests|
  {
    if requests == [] then s else
      var r := Serve(s, requests[0]);
      ServeAll(if r.Ok? then r.value else s, requests[1..])
  }

  /** In every reachable collection published posts have content, slugs are well-formed and unique, and dates stay. */
  lemma {:induction false} EveryRunKeepsInv(s: Store, requests: seq<Request>)
    requires Inv(s) && forall r <- requests :: TimeSlugsOk(r)
    ensures Inv(ServeAll(s, requests)) && DatesKept(s, ServeAll(s, requests))
    decreases |requests|
  {
    if requests != [] {
      var r := requests[0];
      assert r in requests;
      if Serve(s, r).Ok? {
        ServeKeepsInv(s, r);
      }
      assert forall q <- requests[1..] :: q in requests;
      EveryRunKeepsInv(if Serve(s, r).Ok? then Serve(s, r).value else s, requests[1..]);
    }
  }

  // ---------------------------------------------------------------- public reads

  predicate HasContent(p: Post, locale: Locale) {
    locale != "" && HasLocale(p.contents, locale) && Get(p.contents, locale).value != ""
  }

  function FindContent(p: Post, entries: Localized): Option<Locale> {
    if entries == [] then None
    else if HasContent(p, entries[0].locale) then Some(entries[0].locale)
    else FindContent(p, entries[1..])
  }

  function ResolveLocale(p: Post, requested: Locale): Locale {
    if HasContent(p, requested) then requested
    else if HasContent(p, p.defaultLocale) then p.defaultLocale
    else
      var found := FindContent(p, p.contents);
      if found.Some? then found.value else p.defaultLocale
  }

  function AvailableLocales(p: Post): set<Locale> {
    set e | e in p.contents && HasContent(p, e.locale) :: e.locale
  }

  datatype PublicPost = PublicPost(
    slug: string,
    title: string,
    markdown: string,
    locale: Locale,
    available: set<Locale>
  )

  function View(p: Post, requested: Locale): PublicPost {
    var locale := ResolveLocale(p, requested);
    var title := Get(p.titles, locale);
    var content := Get(p.contents, locale);
    PublicPost(p.slug,
               if title.Some? && title.value != "" then title.value else p.slug,
               if content.Some? then content.value else "",
               locale, AvailableLocales(p))
  }

  /** `getPublicBySlug` answers with a view of some matching document. */
  ghost predicate PublicRead(s: Store, slug: string, requested: Locale, answer: PublicPost) {
    && (requested == "" || Text.IsLocale(requested))
    && exists id :: Active(s, id) && s[id].published && s[id].slug == slug && answer == View(s[id], requested)
  }

  lemma {:induction false} GetFinds(m: Localized, locale: Locale)
    requires HasLocale(m, locale)
    ensures Entry(locale, Get(m, locale).value) in m
  {
    if m[0].locale != locale {
      GetFinds(m[1..], locale);
    }
  }

  /** The answer has the slug asked for and markdown in an available locale, the requested one if that is available. */
  ghost predicate ServesContent(s: Store, slug: string, requested: Locale, answer: PublicPost) {
    && answer.slug == slug && answer.markdown != "" && answer.title != ""
    && answer.locale in answer.available
    && (requested in answer.available ==> answer.locale == requested)
    && (exists id :: Active(s, id) && s[id].published && s[id].slug == slug && Shows(s[id], answer))
    && (forall other :: PublicRead(s, slug, requested, other) ==> other == answer)
  }

  /** Text and title are those of the locale shown, a missing title being the slug; a locale with text is available. */
  ghost predicate Shows(p: Post, answer: PublicPost) {
    && Get(p.contents, answer.locale) == Some(answer.markdown)
    && (var title := Get(p.titles, answer.locale);
        answer.title == if title.Some? && title.value != "" then title.value else p.slug)
    && (forall l :: l in answer.available <==> l != "" && HasLocale(p.contents, l) && Get(p.contents, l) != Some(""))
  }

  lemma AvailableExactly(p: Post, l: Locale)
    ensures l in AvailableLocales(p) <==> l != "" && HasLocale(p.contents, l) && Get(p.contents, l) != Some("")
  {
    if HasContent(p, l) {
      GetFinds(p.contents, l);
    }
  }

  lemma ReadServesContent(s: Store, slug: string, requested: Locale, answer: PublicPost)
    requires (forall id | id in s :: WellFormed(s[id]) && PublishedOk(s[id])) && UniqueSlugs(s)
    requires PublicRead(s, slug, requested, answer)
    ensures ServesContent(s, slug, requested, answer)
  {
    var id :| Active(s, id) && s[id].published && s[id].slug == slug && answer == View(s[id], requested);
    var p := s[id];
    assert Text.Trim("") == "";
    assert HasContent(p, p.defaultLocale);
    GetFinds(p.contents, answer.locale);
    assert Entry(answer.locale, answer.markdown) in p.contents;
    assert HasContent(p, answer.locale);
    forall l ensures l in answer.available <==> l != "" && HasLocale(p.contents, l) && Get(p.contents, l) != Some("") {
      AvailableExactly(p, l);
    }
    assert Shows(p, answer);
  }

  /**
   In every reachable collection a successful public read is determined by slug and locale and serves markdown that
   is not empty, in an available locale.
   */
  lemma PublicReadsServeContent(requests: seq<Request>, slug: string, requested: Locale, answer: PublicPost)
    requires forall r <- requests :: TimeSlugsOk(r)
    requires PublicRead(ServeAll(map[], requests), slug, requested, answer)
    ensures ServesContent(ServeAll(map[], requests), slug, requested, answer)
  {
    EveryRunKeepsInv(map[], requests);
    ReadServesContent(ServeAll(map[], requests), slug, requested, answer);
  }

  /** A locale that is not available falls back to the default one, which a published post always has. */
  lemma DefaultLocaleIsServed(s: Store, id: Id, requested: Locale)
    requires Inv(s) && Active(s, id) && s[id].published && (requested == "" || Text.IsLocale(requested))
    ensures exists answer ::
              PublicRead(s, s[id].slug, requested, answer)
              && answer.locale == if HasContent(s[id], requested) then requested else s[id].defaultLocale
  {
    var p := s[id];
    assert PostOk(p) && Text.Trim("") == "";
    assert PublicRead(s, p.slug, requested, View(p, requested));
  }

  ghost predicate Readable(s: Store, slug: string, requested: Locale) {
    exists answer :: PublicRead(s, slug, requested, answer)
  }

  /** Publishing puts a post on the public reads; taking it back to draft or removing it takes it off. */
  lemma PublicationDecidesReads(s: Store, id: Id, now: int)
    requires Inv(s) && Active(s, id)
    ensures var published := Serve(s, SetPublished(id, true, now));
            published.Ok? ==> Readable(published.value, s[id].slug, "")
    ensures var drafted := Serve(s, SetPublished(id, false, now));
            drafted.Ok? && !Readable(drafted.value, s[id].slug, "")
    ensures var removed := Serve(s, Remove(id));
            removed.Ok? && !Readable(removed.value, s[id].slug, "") && !Active(removed.value, id)
  {
    var published := Serve(s, SetPublished(id, true, now));
    if published.Ok? {
      var p := published.value[id];
      assert Active(published.value, id) && p.published && p.slug == s[id].slug;
      assert PublicRead(published.value, p.slug, "", View(p, ""));
    }
    NoOtherHasSlug(s, id, s[id].(published := false));
    NoOtherHasSlug(s, id, s[id].(deactivated := true));
  }

  lemma NoOtherHasSlug(s: Store, id: Id, p: Post)
    requires Inv(s) && Active(s, id) && (p.deactivated || !p.published)
    ensures !Readable(s[id := p], s[id].slug, "")
  {
    var s' := s[id := p];
    forall i | Active(s', i) && s'[i].published ensures s'[i].slug != s[id].slug {
      assert i != id && Active(s, i);
    }
  }

  /** An update leaves publication alone and stores the texts of the request: of several for a locale the last. */
  lemma UpdateStoresTexts(s: Store, id: Id, input: Input, timeSlug: string)
    requires Serve(s, Update(id, input, timeSlug)).Ok?
    ensures var after := Serve(s, Update(id, input, timeSlug)).value;
            && after.Keys == s.Keys && (forall i | i in s && i != id :: after[i] == s[i])
            && id in s && after[id].published == s[id].published && after[id].publishedAt == s[id].publishedAt
            && after[id].deactivated == s[id].deactivated
            && (forall l :: Get(after[id].contents, l) == LastText(input.contents, l))
            && (forall l :: Get(after[id].titles, l) == LastTitle(input.titles, l))
  {
    forall l ensures Get(ApplyContents(input.contents).value, l) == LastText(input.contents, l)
             && Get(ApplyTitles(input.titles).value, l) == LastTitle(input.titles, l)
    {
      ContentsKeepLast(input.contents, l);
      TitlesKeepLast(input.titles, l);
    }
  }

  /** The last text given for a locale. */
  function LastText(entries: Localized, locale: Locale): Option<string> {
    if entries == [] then None
    else if entries[|entries| - 1].locale == locale then Some(entries[|entries| - 1].text)
    else LastText(entries[..|entries| - 1], locale)
  }

  /** The last title given for a locale that is not blank, trimmed. */
  function LastTitle(entries: Localized, locale: Locale): Option<string> {
    if entries == [] then None else
      var e := entries[|entries| - 1];
      if e.locale == locale && Text.Trim(e.text) != "" then Some(Text.Trim(e.text))
      else LastTitle(entries[..|entries| - 1], locale)
  }

  lemma {:induction false} ContentsKeepLast(entries: Localized, l: Locale)
    requires ApplyContents(entries).Ok?
    ensures Get(ApplyContents(entries).value, l) == LastText(entries, l)
  {
    if entries != [] {
      var init, e := entries[..|entries| - 1], entries[|entries| - 1];
      ContentsKeepLast(init, l);
      PutPuts(ApplyContents(init).value, e.locale, e.text);
    }
  }

  lemma {:induction false} TitlesKeepLast(entries: Localized, l: Locale)
    requires ApplyTitles(entries).Ok?
    ensures Get(ApplyTitles(entries).value, l) == LastTitle(entries, l)
  {
    if entries != [] {
      var init, e := entries[..|entries| - 1], entries[|entries| - 1];
      TitlesKeepLast(init, l);
      PutPuts(ApplyTitles(init).value, e.locale, Text.Trim(e.text));
    }
  }
}
