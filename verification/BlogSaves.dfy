/**
 Blog requests that interleave: each reads its document in one step and saves it in a later one. A save writes the
 fields that differ from those read, to whatever is stored by then, under the unique index on active slugs.
 */
module BlogSaves {
  import opened Prelude
  import Text
  import opened Blog

  /** A request between its read and its save. */
  datatype Pending = Pending(request: Request, read: Post, doc: Post)

  /** A slug check that refuses leaves its request pending for ever. */
  datatype Session = Session(store: Store, pending: seq<Pending>)

  datatype Event =
    | Prepare(request: Request)
    | Save(k: nat)

  const START := Session(map[], [])

  function Field<T(==)>(stored: T, read: T, changed: T): T {
    if changed != read then changed else stored
  }

  function Merge(stored: Post, p: Pending): Post {
    var (read, doc) := (p.read, p.doc);
    Post(Field(stored.slug, read.slug, doc.slug),
         Field(stored.published, read.published, doc.published),
         Field(stored.publishedAt, read.publishedAt, doc.publishedAt),
         Field(stored.defaultLocale, read.defaultLocale, doc.defaultLocale),
         Field(stored.titles, read.titles, doc.titles),
         Field(stored.contents, read.contents, doc.contents),
         Field(stored.deactivated, read.deactivated, doc.deactivated))
  }

  /** What the save would leave in the collection. */
  function Written(s: Store, p: Pending): Post {
    if p.request.id in s then Merge(s[p.request.id], p) else p.doc
  }

  /** A new document needs its id unused, a change needs its document, and the index a free slug. */
  predicate Savable(s: Store, p: Pending) {
    var id, post := p.request.id, Written(s, p);
    && (p.request.Create? <==> id !in s)
    && (post.deactivated || !SlugTaken(s, post.slug, {id}))
  }

  function Next(t: Session, e: Event): Session {
    match e
    case Prepare(r) =>
      var read := Loaded(t.store, r);
      if read.Err? then t else
        var doc := Changed(read.value, r);
        if doc.Err? then t else t.(pending := t.pending + [Pending(r, read.value, doc.value)])
    case Save(k) =>
      if k >= |t.pending| then t else
        var p := t.pending[k];
        Session(if Savable(t.store, p) then t.store[p.request.id := Written(t.store, p)] else t.store,
                t.pending[..k] + t.pending[k + 1..])
  }

  function Replay(t: Session, run: seq<Event>): Session
    decreases |run|
  {
    if run == [] then t else Replay(Next(t, run[0]), run[1..])
  }

  // ---------------------------------------------------------------- what every interleaving keeps

  ghost predicate PendingOk(s: Store, p: Pending) {
    && Changed(p.read, p.request) == Ok(p.doc)
    && WellFormed(p.doc)
    && if p.request.Create? then p.read == NEW_POST else
         && p.request.id in s
         && WellFormed(p.read) && !p.read.deactivated
         && (p.read.publishedAt.Some? ==> s[p.request.id].publishedAt.Some?)
  }

  ghost predicate Inv(t: Session) {
    && (forall id | id in t.store :: WellFormed(t.store[id]))
    && UniqueSlugs(t.store)
    && (forall p <- t.pending :: PendingOk(t.store, p))
  }

  predicate TimeSlugs(e: Event) {
    e.Prepare? ==> TimeSlugsOk(e.request)
  }

  lemma PrepareKeepsInv(t: Session, r: Request)
    requires Inv(t) && TimeSlugsOk(r)
    ensures Inv(Next(t, Prepare(r)))
  {
    var read := Loaded(t.store, r);
    if read.Ok? && Changed(read.value, r).Ok? && (r.Create? || r.Update?) {
      TimeSlugIsSlug(r.timeSlug);
      ContentsCollect(r.input.contents);
    }
  }

  lemma WritingKeepsSlugs(s: Store, p: Pending)
    requires (forall id | id in s :: WellFormed(s[id])) && UniqueSlugs(s)
    requires PendingOk(s, p) && Savable(s, p)
    ensures WellFormed(Written(s, p))
    ensures UniqueSlugs(s[p.request.id := Written(s, p)])
  {
    var s' := s[p.request.id := Written(s, p)];
    forall i, j | Active(s', i) && Active(s', j) && i != j ensures s'[i].slug != s'[j].slug {
      assert i != p.request.id ==> Active(s, i);
      assert j != p.request.id ==> Active(s, j);
    }
  }

  /** A date is never taken away, so what a pending request relies on stays. */
  lemma WritingKeepsPending(s: Store, p: Pending, q: Pending)
    requires PendingOk(s, p) && PendingOk(s, q)
    ensures PendingOk(s[p.request.id := Written(s, p)], q)
  {
    assert p.read.publishedAt.Some? ==> p.doc.publishedAt == p.read.publishedAt;
    assert p.request.id in s && s[p.request.id].publishedAt.Some? ==> Written(s, p).publishedAt.Some?;
  }

  lemma SaveKeepsInv(t: Session, k: nat)
    requires Inv(t) && k < |t.pending|
    ensures Inv(Next(t, Save(k)))
  {
    var p := t.pending[k];
    var next := Next(t, Save(k));
    if Savable(t.store, p) {
      WritingKeepsSlugs(t.store, p);
      forall q <- next.pending ensures PendingOk(next.store, q) {
        assert q in t.pending;
        WritingKeepsPending(t.store, p, q);
      }
    }
  }

  /** In every interleaving slugs are well-formed and unique among active posts, and locales well-formed. */
  lemma {:induction false} EveryInterleavingKeepsSlugs(t: Session, run: seq<Event>)
    requires Inv(t) && forall e <- run :: TimeSlugs(e)
    ensures Inv(Replay(t, run))
    decreases |run|
  {
    if run != [] {
      assert TimeSlugs(run[0]);
      NextKeepsInv(t, run[0]);
      EveryInterleavingKeepsSlugs(Next(t, run[0]), run[1..]);
    }
  }

  lemma NextKeepsInv(t: Session, e: Event)
    requires Inv(t) && TimeSlugs(e)
    ensures Inv(Next(t, e))
  {
    match e
    case Prepare(r) => PrepareKeepsInv(t, r);
    case Save(k) =>
      if k < |t.pending| {
        SaveKeepsInv(t, k);
      }
  }

  // ---------------------------------------------------------------- when published posts keep content and date

  ghost predicate Served(s: Store) {
    forall id | id in s :: PublishedOk(s[id])
  }

  /**
   The content guard of an update, asked again of the stored document: only what the update writes can take the
   content of a published post away, alone or together with what is stored by now.
   */
  predicate UpdateGuard(stored: Post, p: Pending) {
    var newContents, newLocale := p.doc.contents != p.read.contents, p.doc.defaultLocale != p.read.defaultLocale;
    stored.published ==>
      && (newContents && !newLocale ==> NonBlank(p.doc.contents, stored.defaultLocale))
      && (!newContents && newLocale ==> NonBlank(stored.contents, p.doc.defaultLocale))
      && (newContents && newLocale ==> NonBlank(p.doc.contents, p.doc.defaultLocale))
  }

  /** The content guard of the request, asked again of the stored document at the moment of the save. */
  predicate GuardStillHolds(s: Store, p: Pending) {
    var id := p.request.id;
    id in s ==>
      match p.request
      case Update(_, _, _) => UpdateGuard(s[id], p)
      case SetPublished(_, true, _) => p.read.published || NonBlank(s[id].contents, s[id].defaultLocale)
      case _ => true
  }

  /** No other publication has dated a post that was read undated. */
  predicate StillUndated(s: Store, p: Pending) {
    var id := p.request.id;
    id in s && p.read.publishedAt.None? && p.doc.publishedAt.Some? && s[id].publishedAt.Some? ==>
      s[id].publishedAt == p.doc.publishedAt
  }

  /** A save that goes through although its guards no longer hold. */
  predicate Overtaken(t: Session, e: Event) {
    && e.Save? && e.k < |t.pending|
    && Savable(t.store, t.pending[e.k])
    && !(GuardStillHolds(t.store, t.pending[e.k]) && StillUndated(t.store, t.pending[e.k]))
  }

  lemma SaveServesUnlessOvertaken(s: Store, p: Pending)
    requires Served(s) && PendingOk(s, p) && Savable(s, p)
    ensures var s' := s[p.request.id := Written(s, p)];
            Served(s') && DatesKept(s, s') <==> GuardStillHolds(s, p) && StillUndated(s, p)
  {
    var id := p.request.id;
    var s' := s[id := Written(s, p)];
    assert Served(s') <==> PublishedOk(s'[id]);
    assert DatesKept(s, s') <==> (id in s && s[id].publishedAt.Some? ==> s'[id].publishedAt == s[id].publishedAt);
    WrittenPost(s, p);
  }

  lemma StepServesUnlessOvertaken(t: Session, e: Event)
    requires Inv(t) && Served(t.store)
    ensures Served(Next(t, e).store) && DatesKept(t.store, Next(t, e).store) <==> !Overtaken(t, e)
  {
    if e.Save? && e.k < |t.pending| && Savable(t.store, t.pending[e.k]) {
      SaveServesUnlessOvertaken(t.store, t.pending[e.k]);
    }
  }

  lemma WrittenPost(s: Store, p: Pending)
    requires PendingOk(s, p) && Savable(s, p)
    requires p.request.id in s ==> PublishedOk(s[p.request.id])
    ensures PublishedOk(Written(s, p)) <==> GuardStillHolds(s, p)
    ensures p.request.id in s && s[p.request.id].publishedAt.Some? ==>
              (Written(s, p).publishedAt == s[p.request.id].publishedAt <==> StillUndated(s, p))
  {
  }

  /**
   A save touches only what its request is about, so the work of others on the rest of the post survives it: an update
   writes the texts, locale and slug that it changes, a publication the status and a first date, a removal its flag.
   */
  lemma SavesKeepTheRest(s: Store, p: Pending)
    requires PendingOk(s, p) && Savable(s, p) && !p.request.Create?
    ensures var stored, written := s[p.request.id], Written(s, p);
            match p.request
            case Create(_, _, _) => true
            case Update(_, _, _) =>
              && written.published == stored.published && written.publishedAt == stored.publishedAt
              && written.deactivated == stored.deactivated
              && (if p.doc.titles == p.read.titles then written.titles == stored.titles
                  else written.titles == p.doc.titles)
              && (if p.doc.contents == p.read.contents then written.contents == stored.contents
                  else written.contents == p.doc.contents)
              && (if p.doc.slug == p.read.slug then written.slug == stored.slug else written.slug == p.doc.slug)
              && (if p.doc.defaultLocale == p.read.defaultLocale then written.defaultLocale == stored.defaultLocale
                  else written.defaultLocale == p.doc.defaultLocale)
            case SetPublished(_, wanted, now) =>
              && written == stored.(published := written.published, publishedAt := written.publishedAt)
              && (p.read.published != wanted ==> written.published == wanted)
              && (p.read.published == wanted ==> written.published == stored.published)
              && (written.publishedAt == stored.publishedAt || written.publishedAt == Some(now))
            case Remove(_) => written == stored.(deactivated := true)
  {
  }

  ghost predicate ServedThroughout(t: Session, run: seq<Event>)
    decreases |run|
  {
    && Served(t.store)
    && (run != [] ==> DatesKept(t.store, Next(t, run[0]).store) && ServedThroughout(Next(t, run[0]), run[1..]))
  }

  predicate NeverOvertaken(t: Session, run: seq<Event>)
    decreases |run|
  {
    run != [] ==> !Overtaken(t, run[0]) && NeverOvertaken(Next(t, run[0]), run[1..])
  }

  /**
   Throughout an interleaving published posts keep content and date if and only if every save still meets, on the
   stored document, the guards that its request met on the document it read.
   */
  lemma {:induction false} ServedIffNeverOvertaken(t: Session, run: seq<Event>)
    requires Inv(t) && Served(t.store) && forall e <- run :: TimeSlugs(e)
    ensures ServedThroughout(t, run) <==> NeverOvertaken(t, run)
    decreases |run|
  {
    if run != [] {
      var next := Next(t, run[0]);
      assert TimeSlugs(run[0]);
      StepServesUnlessOvertaken(t, run[0]);
      NextKeepsInv(t, run[0]);
      if Served(next.store) {
        ServedIffNeverOvertaken(next, run[1..]);
      }
    }
  }

  /** A save is not overtaken as long as nobody else wrote the post. */
  lemma UndisturbedSavesAreSafe(t: Session, k: nat)
    requires Inv(t) && Served(t.store) && k < |t.pending|
    requires var p := t.pending[k];
             p.request.Create? || (p.request.id in t.store && t.store[p.request.id] == p.read)
    ensures !Overtaken(t, Save(k))
  {
    assert PendingOk(t.store, t.pending[k]);
  }

  /**
   A schedule in which no other write to its post falls between the read and the save of any request. `late` marks
   the pending requests whose post has been written since they read it.
   */
  predicate Undisturbed(t: Session, late: seq<bool>, run: seq<Event>)
    requires |late| == |t.pending|
    decreases |run|
  {
    run != [] ==>
      && (run[0].Save? && run[0].k < |late| ==> !late[run[0].k])
      && Undisturbed(Next(t, run[0]), Marks(t, late, run[0]), run[1..])
  }

  function Marks(t: Session, late: seq<bool>, e: Event): (marks: seq<bool>)
    requires |late| == |t.pending|
    ensures |marks| == |Next(t, e).pending|
  {
    if e.Prepare? then late + seq(|Next(t, e).pending| - |late|, _ => false)
    else if e.k >= |late| then late
    else
      var written := Savable(t.store, t.pending[e.k]);
      var marked := seq(|late|, i requires 0 <= i < |late| =>
        late[i] || (written && t.pending[i].request.id == t.pending[e.k].request.id));
      marked[..e.k] + marked[e.k + 1..]
  }

  /** A request starts unmarked, and is marked by just the writes of others to its post. */
  lemma MarksExactly(t: Session, late: seq<bool>, e: Event, i: nat)
    requires |late| == |t.pending| && i < |late|
    ensures e.Prepare? ==> Marks(t, late, e)[i] == late[i]
    ensures e.Prepare? && Next(t, e) != t ==> Marks(t, late, e) == late + [false]
    ensures e.Save? && e.k < |late| && i != e.k ==>
              var wrote := Next(t, e).store != t.store || Savable(t.store, t.pending[e.k]);
              Marks(t, late, e)[if i < e.k then i else i - 1] ==
              (late[i] || (wrote && t.pending[i].request.id == t.pending[e.k].request.id))
  {
  }

  ghost predicate MarksOk(t: Session, late: seq<bool>)
    requires |late| == |t.pending|
  {
    forall i | 0 <= i < |late| && !late[i] && !t.pending[i].request.Create? ::
      t.pending[i].request.id in t.store && t.store[t.pending[i].request.id] == t.pending[i].read
  }

  lemma NextKeepsMarks(t: Session, late: seq<bool>, e: Event)
    requires |late| == |t.pending| && MarksOk(t, late)
    ensures MarksOk(Next(t, e), Marks(t, late, e))
  {
    var next, marks := Next(t, e), Marks(t, late, e);
    if e.Save? && e.k < |late| {
      forall i | 0 <= i < |marks| && !marks[i] && !next.pending[i].request.Create?
        ensures var q := next.pending[i]; q.request.id in next.store && next.store[q.request.id] == q.read
      {
        var j := if i < e.k then i else i + 1;
        assert next.pending[i] == t.pending[j] && !late[j];
      }
    }
  }

  /** In an undisturbed schedule no save is overtaken, so published posts keep content and date. */
  lemma {:induction false} UndisturbedSchedulesAreSafe(t: Session, late: seq<bool>, run: seq<Event>)
    requires Inv(t) && Served(t.store) && forall e <- run :: TimeSlugs(e)
    requires |late| == |t.pending| && MarksOk(t, late) && Undisturbed(t, late, run)
    ensures NeverOvertaken(t, run) && ServedThroughout(t, run)
    decreases |run|
  {
    if run != [] {
      var e := run[0];
      assert TimeSlugs(e);
      if e.Save? && e.k < |late| {
        UndisturbedSavesAreSafe(t, e.k);
      }
      StepServesUnlessOvertaken(t, e);
      NextKeepsInv(t, e);
      NextKeepsMarks(t, late, e);
      UndisturbedSchedulesAreSafe(Next(t, e), Marks(t, late, e), run[1..]);
    }
  }

  lemma {:induction false} ServedAtTheEnd(t: Session, run: seq<Event>)
    requires ServedThroughout(t, run)
    ensures Served(Replay(t, run).store)
    decreases |run|
  {
    if run != [] {
      ServedAtTheEnd(Next(t, run[0]), run[1..]);
    }
  }

  /** As long as no save is overtaken, public reads serve content in every interleaving. */
  lemma PublicReadsServeContent(run: seq<Event>, slug: string, requested: Locale, answer: PublicPost)
    requires NeverOvertaken(START, run) && forall e <- run :: TimeSlugs(e)
    requires PublicRead(Replay(START, run).store, slug, requested, answer)
    ensures ServesContent(Replay(START, run).store, slug, requested, answer)
  {
    EveryInterleavingKeepsSlugs(START, run);
    ServedIffNeverOvertaken(START, run);
    ServedAtTheEnd(START, run);
    ReadServesContent(Replay(START, run).store, slug, requested, answer);
  }

  // ---------------------------------------------------------------- an interleaving that goes wrong

  const WITH_TEXT := Input([], [Entry("en-us", "text")], "en-us", "post")
  const WITHOUT_TEXT := Input([], [Entry("en-us", "")], "en-us", "post")

  const PUBLICATION := Request.SetPublished(1, true, 5)
  const EMPTYING := Request.Update(1, WITHOUT_TEXT, "0")

  /** A draft is being published while its text is taken away: both requests succeed. */
  const LATE_PUBLICATION :=
    [Prepare(Create(1, WITH_TEXT, "0")), Save(0)] + [Prepare(PUBLICATION), Prepare(EMPTYING)] + [Save(1), Save(0)]

  /** The post ends up published without content. */
  lemma PublishedWithoutContent()
    ensures var s := Replay(START, LATE_PUBLICATION).store;
            1 in s && s[1].published && !NonBlank(s[1].contents, s[1].defaultLocale)
  {
    LateRun(Prepare(Create(1, WITH_TEXT, "0")), Prepare(PUBLICATION), Prepare(EMPTYING));
    CreateFull();
    PrepareBoth();
    SaveBoth();
  }

  lemma LateRun(create: Event, publish: Event, clear: Event)
    ensures Replay(START, [create, Save(0)] + [publish, clear] + [Save(1), Save(0)]) ==
            Next(Next(Next(Next(Next(Next(START, create), Save(0)), publish), clear), Save(1)), Save(0))
  {
    ReplayPairs(START, create, Save(0), publish, clear, Save(1), Save(0));
  }

  lemma ReplayPairs(t: Session, a: Event, b: Event, c: Event, d: Event, e: Event, f: Event)
    ensures Replay(t, [a, b] + [c, d] + [e, f]) == Next(Next(Next(Next(Next(Next(t, a), b), c), d), e), f)
  {
    ReplayPair(t, a, b, [c, d] + [e, f]);
    ReplayPair(Next(Next(t, a), b), c, d, [e, f]);
    ReplayPair(Next(Next(Next(Next(t, a), b), c), d), e, f, []);
    assert [a, b] + [c, d] + [e, f] == [a, b] + ([c, d] + [e, f]);
    assert [e, f] + [] == [e, f];
  }

  lemma ReplayPair(t: Session, a: Event, b: Event, rest: seq<Event>)
    ensures Replay(t, [a, b] + rest) == Replay(Next(Next(t, a), b), rest)
  {
    assert ([a, b] + rest)[1..] == [b] + rest && ([b] + rest)[1..] == rest;
  }

  const FULL := Post("post", false, None, "en-us", [], [Entry("en-us", "text")], false)
  const EMPTY := FULL.(contents := [Entry("en-us", "")])
  const PUBLISHED := FULL.(published := true, publishedAt := Some(5))

  const BOTH_PENDING := [Pending(PUBLICATION, FULL, PUBLISHED), Pending(EMPTYING, FULL, EMPTY)]

  lemma CreateFull()
    ensures Next(Next(START, Prepare(Create(1, WITH_TEXT, "0"))), Save(0)) == Session(map[1 := FULL], [])
  {
    Prepared(NEW_POST, "text");
    var request := Request.Create(1, WITH_TEXT, "0");
    assert Next(START, Prepare(request)).pending == [Pending(request, NEW_POST, FULL)];
  }

  lemma PrepareBoth()
    ensures var t := Session(map[1 := FULL], []);
            Next(Next(t, Prepare(PUBLICATION)), Prepare(EMPTYING)) == t.(pending := BOTH_PENDING)
  {
    Prepared(FULL, "");
    assert Text.Trim("text") != "" by { assert Text.TrimStart("text") == "text"; }
  }

  lemma SaveBoth()
    ensures Next(Next(Session(map[1 := FULL], BOTH_PENDING), Save(1)), Save(0)).store ==
            map[1 := EMPTY.(published := true, publishedAt := Some(5))]
  {
    assert Next(Session(map[1 := FULL], BOTH_PENDING), Save(1)) == Session(map[1 := EMPTY], [BOTH_PENDING[0]]);
  }

  lemma Prepared(doc: Post, text: string)
    requires !doc.published && text in {"", "text"}
    ensures OnApplySave(doc, Input([], [Entry("en-us", text)], "en-us", "post"), "0") ==
            Ok(doc.(slug := "post", defaultLocale := "en-us", titles := [], contents := [Entry("en-us", text)]))
  {
    var entries := [Entry("en-us", text)];
    assert entries[..0] == [];
    assert ApplyContents([]) == Ok([]);
    assert ApplyContents(entries) == Ok(Put([], "en-us", text));
    assert Text.TrimStart("post") == "post" && Text.TrimEnd("post") == "post";
    assert Text.Lower("post") == "post";
    assert SlugOk("post");
    assert NormalizeSlug("post") == Ok("post");
  }

  const RIVAL := Request.SetPublished(1, true, 6)

  const BOTH_PUBLISHING :=
    [Pending(PUBLICATION, FULL, PUBLISHED), Pending(RIVAL, FULL, PUBLISHED.(publishedAt := Some(6)))]

  lemma PreparePublications()
    ensures var t := Session(map[1 := FULL], []);
            Next(Next(t, Prepare(PUBLICATION)), Prepare(RIVAL)) == t.(pending := BOTH_PUBLISHING)
  {
    assert Text.Trim("text") != "" by { assert Text.TrimStart("text") == "text"; }
  }

  lemma SavePublications()
    ensures var t := Next(Session(map[1 := FULL], BOTH_PUBLISHING), Save(0));
            && t.store == map[1 := PUBLISHED]
            && Next(t, Save(0)).store == map[1 := PUBLISHED.(publishedAt := Some(6))]
  {
    assert Next(Session(map[1 := FULL], BOTH_PUBLISHING), Save(0))
        == Session(map[1 := PUBLISHED], [BOTH_PUBLISHING[1]]);
  }

  /** Two publications of one draft at once: the second save replaces the date that the first one stored. */
  lemma PublicationDatedAgain()
    ensures var first := [Prepare(Create(1, WITH_TEXT, "0")), Save(0)] + [Prepare(PUBLICATION), Prepare(RIVAL)];
            && Next(Replay(START, first), Save(0)).store == map[1 := PUBLISHED]
            && Next(Next(Replay(START, first), Save(0)), Save(0)).store == map[1 := PUBLISHED.(publishedAt := Some(6))]
  {
    CreateFull();
    PreparePublications();
    SavePublications();
    TwoPairs(START, Prepare(Create(1, WITH_TEXT, "0")), Save(0), Prepare(PUBLICATION), Prepare(RIVAL));
  }

  lemma TwoPairs(t: Session, a: Event, b: Event, c: Event, d: Event)
    ensures Replay(t, [a, b] + [c, d]) == Next(Next(Next(Next(t, a), b), c), d)
  {
    ReplayPair(t, a, b, [c, d]);
    ReplayPair(Next(Next(t, a), b), c, d, []);
    assert [c, d] + [] == [c, d];
  }

  // ---------------------------------------------------------------- without interleaving

  lemma SavableUnlessRefused(s: Store, p: Pending)
    requires UniqueSlugs(s) && PendingOk(s, p)
    requires if p.request.Create? then p.request.id !in s else Active(s, p.request.id) && p.read == s[p.request.id]
    ensures Savable(s, p) <==> !SlugRefused(s, p.read, p.doc, p.request)
  {
    var id := p.request.id;
    if !p.request.Create? {
      assert Written(s, p) == p.doc;
      forall other | other in s && other != id && !s[other].deactivated ensures s[other].slug != s[id].slug {
        assert Active(s, other);
      }
    }
  }

  lemma SavingAtOnce(s: Store, p: Pending)
    requires UniqueSlugs(s) && PendingOk(s, p) && Loaded(s, p.request) == Ok(p.read)
    ensures var served := Serve(s, p.request);
            (if Savable(s, p) then s[p.request.id := Written(s, p)] else s) == (if served.Ok? then served.value else s)
  {
    if !p.request.Create? || p.request.id !in s {
      SavableUnlessRefused(s, p);
      assert Written(s, p) == p.doc;
    }
  }

  /** Without interruption, reading and saving is serving the request: the index refuses what the slug check refuses. */
  lemma {:induction false} ServeIsPrepareAndSave(t: Session, r: Request)
    requires Inv(t) && TimeSlugsOk(r)
    requires Loaded(t.store, r).Ok? && Changed(Loaded(t.store, r).value, r).Ok?
    ensures var served := Serve(t.store, r);
            Replay(t, [Prepare(r), Save(|t.pending|)]) == t.(store := if served.Ok? then served.value else t.store)
  {
    var n := |t.pending|;
    var prepared := Next(t, Prepare(r));
    var p := prepared.pending[n];
    PrepareKeepsInv(t, r);
    assert PendingOk(prepared.store, p);
    SavingAtOnce(t.store, p);
    assert prepared.pending[..n] + prepared.pending[n + 1..] == t.pending;
    var saved := Next(prepared, Save(n));
    assert Replay(saved, []) == saved;
    assert [Prepare(r), Save(n)][1..] == [Save(n)];
    assert Replay(prepared, [Save(n)]) == saved;
  }
}
