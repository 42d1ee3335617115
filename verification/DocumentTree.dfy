/**
 The document tree of the greenhat service. Each article stores its parent and, to speed up subtree queries,
 the chain of its ancestors and its full path. Requests are interleaved: an addition reads its parent in one
 step and saves in a later one, and a rename or removal writes some time after its checks.
 */
module DocumentTree {
  import opened Prelude
  import Text

  type Id = nat
  type ProjectId = nat

  datatype Article = Article(
    project: ProjectId,
    parent: Option<Id>,
    ancestors: seq<Id>,
    slug: string,
    path: string,
    name: string,
    nameLower: string,
    deactivated: bool
  )

  type Store = map<Id, Article>

  datatype Error = NotFound | Forbidden | BadRequest | Conflict

  datatype AddInput = AddInput(
    project: ProjectId,
    parent: Option<Id>,
    slug: string,              // empty when missing
    name: string,
    initialLocale: string,     // empty when missing
    initialTitle: string       // empty when missing
  )

  predicate Active(s: Store, id: Id) {
    id in s && !s[id].deactivated
  }

  predicate NameTaken(s: Store, project: ProjectId, nameLower: string, except: set<Id>) {
    exists id ::
      id in s && id !in except && !s[id].deactivated && s[id].project == project && s[id].nameLower == nameLower
  }

  predicate PathTaken(s: Store, project: ProjectId, path: string) {
    exists id :: id in s && !s[id].deactivated && s[id].project == project && s[id].path == path
  }

  function ParentOk(s: Store, input: AddInput): bool {
    input.parent.Some? ==> Active(s, input.parent.value) && s[input.parent.value].project == input.project
  }

  /** The document under a parent that was just read. */
  function Draft(s: Store, input: AddInput, slug: string): Article
    requires input.parent.Some? ==> input.parent.value in s
  {
    var name := Text.Trim(input.name);
    if input.parent.Some? then
      var p := s[input.parent.value];
      Article(input.project, input.parent, p.ancestors + [input.parent.value], slug, p.path + "/" + slug,
              name, Text.Lower(name), false)
    else
      Article(input.project, None, [], slug, slug, name, Text.Lower(name), false)
  }

  function SlugOf(input: AddInput, timeSlug: string): string {
    Text.Trim(if input.slug != "" then input.slug else timeSlug)
  }

  /** `addDocument` up to its save; `timeSlug` is what generateTimeSlug returns. */
  function OnPrepare(s: Store, input: AddInput, projectActive: bool, canEdit: bool, timeSlug: string)
    : Result<Article, Error>
  {
    if !projectActive then Err(NotFound)
    else if !canEdit then Err(Forbidden)
    else if Text.Trim(input.name) == "" then Err(BadRequest)
    else if NameTaken(s, input.project, Text.Lower(Text.Trim(input.name)), {}) then Err(Conflict)
    else if !ParentOk(s, input) then Err(NotFound)
    else if (input.initialLocale != "" || input.initialTitle != "")
            && !Text.IsLocale(if input.initialLocale != "" then input.initialLocale else "tr-tr") then Err(BadRequest)
    else Ok(Draft(s, input, SlugOf(input, timeSlug)))
  }

  /** The save: required fields, and the two unique indexes over active documents. */
  predicate Savable(s: Store, d: Article) {
    && d.slug != ""
    && !NameTaken(s, d.project, d.nameLower, {})
    && !PathTaken(s, d.project, d.path)
  }

  function OnRename(s: Store, id: Id, name: string, canEdit: bool): Result<Store, Error> {
    var trimmed := Text.Trim(name);
    if !Active(s, id) then Err(NotFound)
    else if !canEdit then Err(Forbidden)
    else if trimmed == "" then Err(BadRequest)
    else if NameTaken(s, s[id].project, Text.Lower(trimmed), {id}) then Err(Conflict)
    else Ok(s[id := s[id].(name := trimmed, nameLower := Text.Lower(trimmed))])
  }

  /** The filter of the update in `removeDocumentRecursive`. */
  function Subtree(s: Store, root: Id): set<Id>
    requires root in s
  {
    set id | id in s && s[id].project == s[root].project && !s[id].deactivated
             && (id == root || root in s[id].ancestors)
  }

  function Deactivate(s: Store, ids: set<Id>): Store {
    map id | id in s :: if id in ids then s[id].(deactivated := true) else s[id]
  }

  function OnRemove(s: Store, root: Id, canEdit: bool): Result<(Store, nat), Error> {
    if !Active(s, root) then Err(NotFound)
    else if !canEdit then Err(Forbidden)
    else Ok((Deactivate(s, Subtree(s, root)), |Subtree(s, root)|))
  }

  datatype Preview = Preview(directChildrenCount: nat, descendantCount: nat, totalWillBeRemoved: nat)

  function OnPreview(s: Store, root: Id, canEdit: bool): Result<Preview, Error> {
    if !Active(s, root) then Err(NotFound)
    else if !canEdit then Err(Forbidden)
    else
      var descendants := |Descendants(s, root)|;
      Ok(Preview(|Children(s, s[root].project, Some(root))|, descendants, descendants + 1))
  }

  /** The filter of the descendant count. */
  function Descendants(s: Store, root: Id): set<Id>
    requires root in s
  {
    set id | id in s && s[id].project == s[root].project && !s[id].deactivated && root in s[id].ancestors
  }

  /** What `listDocuments` finds under a parent, or at the top when there is none. */
  function Children(s: Store, project: ProjectId, parent: Option<Id>): set<Id> {
    set id | id in s && s[id].project == project && !s[id].deactivated && s[id].parent == parent
  }

  /** Which additions pass the checks, and the document they make: below the parent that was read, under a free name. */
  lemma AdditionAccepted(s: Store, input: AddInput, projectActive: bool, canEdit: bool, timeSlug: string)
    ensures var r := OnPrepare(s, input, projectActive, canEdit, timeSlug);
            var lower := Text.Lower(Text.Trim(input.name));
            && (r.Ok? <==>
                  && projectActive && canEdit && Text.Trim(input.name) != ""
                  && (forall id | Active(s, id) && s[id].project == input.project :: s[id].nameLower != lower)
                  && (input.parent.Some? ==>
                        Active(s, input.parent.value) && s[input.parent.value].project == input.project)
                  && (input.initialLocale != "" ==> Text.IsLocale(input.initialLocale)))
            && (r.Ok? ==>
                  && r.value.project == input.project && r.value.parent == input.parent
                  && r.value.name == Text.Trim(input.name) && r.value.nameLower == lower && !r.value.deactivated
                  && r.value.slug == Text.Trim(if input.slug == "" then timeSlug else input.slug)
                  && r.value.path == (if input.parent.None? then r.value.slug
                                      else s[input.parent.value].path + "/" + r.value.slug))
  {
    if NameTaken(s, input.project, Text.Lower(Text.Trim(input.name)), {}) {
      var id :| id in s && !s[id].deactivated && s[id].project == input.project
                && s[id].nameLower == Text.Lower(Text.Trim(input.name));
      assert Active(s, id);
    }
  }

  /** Which renames are accepted: of an active document, to a name no other active document of the project has. */
  lemma RenameAccepted(s: Store, id: Id, name: string, canEdit: bool)
    ensures OnRename(s, id, name, canEdit).Ok? <==>
              && Active(s, id) && canEdit && Text.Trim(name) != ""
              && (forall i | Active(s, i) && i != id && s[i].project == s[id].project ::
                    s[i].nameLower != Text.Lower(Text.Trim(name)))
  {
    if Active(s, id) && NameTaken(s, s[id].project, Text.Lower(Text.Trim(name)), {id}) {
      var i :| i in s && i != id && !s[i].deactivated && s[i].project == s[id].project
               && s[i].nameLower == Text.Lower(Text.Trim(name));
      assert Active(s, i);
    }
  }

  /** Removal and preview need an active root and the right to edit, and nothing else. */
  lemma RemovalAccepted(s: Store, root: Id, canEdit: bool)
    ensures OnRemove(s, root, canEdit).Ok? <==> root in s && !s[root].deactivated && canEdit
    ensures OnPreview(s, root, canEdit).Ok? <==> root in s && !s[root].deactivated && canEdit
  {
  }

  /** The collection behind the service, changed one request at a time. */
  class ArticleCollection {
    var articles: Store

    constructor ()
      ensures articles == map[]
    {
      articles := map[];
    }

    method Save(id: Id, d: Article) returns (saved: bool)
      requires id !in articles
      modifies this
      ensures saved <==> Savable(old(articles), d)
      ensures articles == if saved then old(articles)[id := d] else old(articles)
    {
      saved := d.slug != "" && !NameTaken(articles, d.project, d.nameLower, {})
               && !PathTaken(articles, d.project, d.path);
      if saved {
        articles := articles[id := d];
      }
    }

    method RenameDocument(id: Id, name: string, canEdit: bool) returns (error: Option<Error>)
      modifies this
      ensures var r := OnRename(old(articles), id, name, canEdit);
              if r.Ok? then error == None && articles == r.value
              else error == Some(r.error) && articles == old(articles)
    {
      if !Active(articles, id) {
        return Some(NotFound);
      }
      var doc := articles[id];
      if !canEdit {
        return Some(Forbidden);
      }
      var trimmed := Text.Trim(name);
      if trimmed == "" {
        return Some(BadRequest);
      }
      if NameTaken(articles, doc.project, Text.Lower(trimmed), {id}) {
        return Some(Conflict);
      }
      doc := doc.(name := trimmed, nameLower := Text.Lower(trimmed));
      articles := articles[id := doc];
      error := None;
    }

    method RemoveDocumentRecursive(root: Id, canEdit: bool) returns (r: Result<nat, Error>)
      modifies this
      ensures match OnRemove(old(articles), root, canEdit)
              case Err(e) => r == Err(e) && articles == old(articles)
              case Ok((s, n)) => r == Ok(n) && articles == s
    {
      if !Active(articles, root) {
        return Err(NotFound);
      }
      if !canEdit {
        return Err(Forbidden);
      }
      var matched := Subtree(articles, root);
      articles := Deactivate(articles, matched);
      r := Ok(|matched|);
    }
  }

  // ---------------------------------------------------------------- the stored columns

  /** A document agrees with the document its parentId names. */
  ghost predicate Rooted(s: Store, a: Article) {
    match a.parent
    case None => a.ancestors == [] && a.path == a.slug
    case Some(p) =>
      && p in s
      && s[p].project == a.project
      && a.ancestors == s[p].ancestors + [p]
      && a.path == s[p].path + "/" + a.slug
  }

  ghost predicate Tree(s: Store) {
    forall id | id in s :: Rooted(s, s[id])
  }

  ghost predicate UniqueAmongActive(s: Store) {
    forall i, j | Active(s, i) && Active(s, j) && i != j && s[i].project == s[j].project ::
      s[i].path != s[j].path && s[i].nameLower != s[j].nameLower
  }

  /** No active document hangs below a removed one. */
  ghost predicate ActiveClosed(s: Store) {
    forall id | Active(s, id) && s[id].parent.Some? :: Active(s, s[id].parent.value)
  }

  // ---------------------------------------------------------------- the plain parentId relation

  /** A walk up the tree read backwards: each element is the parentId of the next. */
  ghost predicate Linked(s: Store, chain: seq<Id>) {
    && (forall i | 0 <= i < |chain| :: chain[i] in s)
    && (forall i | 0 < i < |chain| :: s[chain[i]].parent == Some(chain[i - 1]))
  }

  ghost predicate Connects(s: Store, root: Id, id: Id, chain: seq<Id>) {
    chain != [] && chain[0] == root && chain[|chain| - 1] == id && Linked(s, chain)
  }

  /** `id` is `root` or lies below it, following parentId only. */
  ghost predicate Below(s: Store, root: Id, id: Id) {
    exists chain :: Connects(s, root, id, chain)
  }

  /** The ancestors column lists, root first, exactly the documents met by following parentId. */
  lemma {:induction false} AncestorsAreTheChain(s: Store, id: Id)
    requires Tree(s) && id in s
    ensures Linked(s, s[id].ancestors + [id])
    ensures forall a <- s[id].ancestors :: a in s && s[a].project == s[id].project
    ensures s[id].ancestors == [] <==> s[id].parent.None?
    ensures s[id].ancestors != [] ==> s[s[id].ancestors[0]].parent.None?
    decreases |s[id].ancestors|
  {
    var a := s[id];
    assert Rooted(s, a);
    if a.parent.Some? {
      var p := a.parent.value;
      AncestorsAreTheChain(s, p);
      var chain := s[p].ancestors + [p];
      assert a.ancestors + [id] == chain + [id];
      assert chain[|chain| - 1] == p;
      if s[p].ancestors == [] {
        assert a.ancestors[0] == p;
      } else {
        assert a.ancestors[0] == s[p].ancestors[0];
      }
    }
  }

  lemma {:induction false} LinkedMeansAncestor(s: Store, chain: seq<Id>)
    requires Tree(s) && Linked(s, chain) && |chain| > 1
    ensures chain[0] in s[chain[|chain| - 1]].ancestors
    ensures |s[chain[0]].ancestors| < |s[chain[|chain| - 1]].ancestors|
    decreases |chain|
  {
    var last, init := chain[|chain| - 1], chain[..|chain| - 1];
    assert Rooted(s, s[last]);
    assert s[last].parent == Some(init[|init| - 1]);
    if |chain| > 2 {
      assert forall i | 0 < i < |init| :: s[init[i]].parent == Some(init[i - 1]);
      LinkedMeansAncestor(s, init);
    }
  }

  /** The index answers the closure question exactly: being below is being in the ancestors column. */
  lemma IndexIsClosure(s: Store, root: Id, id: Id)
    requires Tree(s) && root in s && id in s
    ensures Below(s, root, id) <==> id == root || root in s[id].ancestors
  {
    if Below(s, root, id) {
      var chain :| Connects(s, root, id, chain);
      if |chain| > 1 {
        LinkedMeansAncestor(s, chain);
      }
    }
    if id == root {
      assert Connects(s, root, id, [id]);
    } else if root in s[id].ancestors {
      AncestorsAreTheChain(s, id);
      var whole := s[id].ancestors + [id];
      var i :| 0 <= i < |s[id].ancestors| && s[id].ancestors[i] == root;
      var chain := whole[i..];
      assert forall j | 0 < j < |chain| :: s[chain[j]].parent == Some(chain[j - 1]) by {
        forall j | 0 < j < |chain| ensures s[chain[j]].parent == Some(chain[j - 1]) {
          assert chain[j] == whole[i + j] && chain[j - 1] == whole[i + j - 1];
        }
      }
      assert Connects(s, root, id, chain);
    }
  }

  /** The forest has no cycle. */
  lemma Acyclic(s: Store, chain: seq<Id>)
    requires Tree(s) && Linked(s, chain) && |chain| > 1
    ensures chain[0] != chain[|chain| - 1]
  {
    LinkedMeansAncestor(s, chain);
  }

  function Slugs(s: Store, ids: seq<Id>): seq<string>
    requires forall id <- ids :: id in s
  {
    seq(|ids|, i requires 0 <= i < |ids| => s[ids[i]].slug)
  }

  /** `slugs.join('/')`. */
  function JoinPath(slugs: seq<string>): string {
    if slugs == [] then ""
    else if |slugs| == 1 then slugs[0]
    else JoinPath(slugs[..|slugs| - 1]) + "/" + slugs[|slugs| - 1]
  }

  /** The path column is the slugs along the chain. */
  lemma {:induction false} PathIsTheSlugs(s: Store, id: Id)
    requires Tree(s) && id in s
    requires forall a <- s[id].ancestors :: a in s
    ensures s[id].path == JoinPath(Slugs(s, s[id].ancestors + [id]))
    decreases |s[id].ancestors|
  {
    var a := s[id];
    assert Rooted(s, a);
    if a.parent.Some? {
      var p := a.parent.value;
      assert forall x <- s[p].ancestors :: x in a.ancestors;
      PathIsTheSlugs(s, p);
      var slugs := Slugs(s, a.ancestors + [id]);
      assert slugs[..|slugs| - 1] == Slugs(s, s[p].ancestors + [p]);
    } else {
      assert a.ancestors + [id] == [id];
    }
  }

  // ---------------------------------------------------------------- removal

  ghost function ActiveBelow(s: Store, root: Id): set<Id> {
    set id | id in s && Active(s, id) && Below(s, root, id)
  }

  lemma SubtreeIsActiveBelow(s: Store, root: Id)
    requires Tree(s) && root in s
    ensures Subtree(s, root) == ActiveBelow(s, root)
  {
    forall id | id in s ensures id in Subtree(s, root) <==> Active(s, id) && Below(s, root, id) {
      IndexIsClosure(s, root, id);
      AncestorsAreTheChain(s, id);
    }
  }

  /**
   Recursive removal through the ancestors column deactivates exactly the active documents of the parentId subtree
   and leaves everything else alone; its count is what the preview announced.
   */
  lemma RemovalIsTheSubtree(s: Store, root: Id, canEdit: bool)
    requires Tree(s)
    ensures match OnRemove(s, root, canEdit)
            case Err(e) => OnPreview(s, root, canEdit) == Err(e)
            case Ok((after, count)) =>
              && after.Keys == s.Keys
              && (forall id | id in s ::
                    after[id] == s[id].(deactivated := s[id].deactivated || id in ActiveBelow(s, root)))
              && count == |ActiveBelow(s, root)|
              && OnPreview(s, root, canEdit).Ok?
              && OnPreview(s, root, canEdit).value.totalWillBeRemoved == count
  {
    if Active(s, root) && canEdit {
      SubtreeIsActiveBelow(s, root);
      SubtreeCount(s, root);
    }
  }

  /** The preview counts the active documents strictly below the root, and among them its children. */
  lemma PreviewCounts(s: Store, root: Id)
    requires Tree(s) && Active(s, root)
    ensures var preview := OnPreview(s, root, true);
            && preview.Ok?
            && preview.value.descendantCount == |ActiveBelow(s, root) - {root}|
            && preview.value.directChildrenCount == |set id | id in ActiveBelow(s, root) && s[id].parent == Some(root)|
  {
    SubtreeIsActiveBelow(s, root);
    NotItsOwnAncestor(s, root);
    assert Descendants(s, root) == ActiveBelow(s, root) - {root};
    forall id | id in s && s[id].parent == Some(root)
      ensures root in s[id].ancestors && s[id].project == s[root].project
    {
      assert Rooted(s, s[id]);
    }
    assert Children(s, s[root].project, Some(root))
        == set id | id in ActiveBelow(s, root) && s[id].parent == Some(root);
  }

  lemma SubtreeCount(s: Store, root: Id)
    requires Tree(s) && Active(s, root)
    ensures |Subtree(s, root)| == |Descendants(s, root)| + 1
  {
    NotItsOwnAncestor(s, root);
    assert Subtree(s, root) == Descendants(s, root) + {root};
  }

  lemma NotItsOwnAncestor(s: Store, id: Id)
    requires Tree(s) && id in s
    ensures id !in s[id].ancestors
  {
    if id in s[id].ancestors {
      AncestorsAreTheChain(s, id);
      var whole := s[id].ancestors + [id];
      var i :| 0 <= i < |s[id].ancestors| && s[id].ancestors[i] == id;
      var chain := whole[i..];
      forall j | 0 < j < |chain| ensures s[chain[j]].parent == Some(chain[j - 1]) {
        assert chain[j] == whole[i + j] && chain[j - 1] == whole[i + j - 1];
      }
      Acyclic(s, chain);
    }
  }

  /** In an active-closed store the removed subtree is what a user sees by opening children from the root on. */
  lemma {:induction false} SubtreeIsVisible(s: Store, chain: seq<Id>)
    requires Tree(s) && ActiveClosed(s) && Linked(s, chain) && chain != []
    requires Active(s, chain[|chain| - 1])
    ensures forall i | 0 <= i < |chain| :: Active(s, chain[i])
    ensures forall i | 0 < i < |chain| :: chain[i] in Children(s, s[chain[0]].project, Some(chain[i - 1]))
    decreases |chain|
  {
    if |chain| > 1 {
      var init := chain[..|chain| - 1];
      assert s[chain[|chain| - 1]].parent == Some(init[|init| - 1]);
      SubtreeIsVisible(s, init);
      assert Rooted(s, s[chain[|chain| - 1]]);
      assert s[init[|init| - 1]].project == s[chain[0]].project by {
        if |init| > 1 {
          assert init[|init| - 1] in Children(s, s[init[0]].project, Some(init[|init| - 2]));
        }
      }
    }
  }

  // ---------------------------------------------------------------- runs

  /** `drafts` are additions that passed their checks and have not reached the database yet. */
  datatype Session = Session(store: Store, drafts: seq<Article>)

  /**
   The checks of a rename or a removal change nothing, so only their writes are events: whatever was checked, and
   whenever, the write meets the collection as it is now. A save writes the columns that differ from those read,
   so a rename may leave any combination of the two name columns.
   */
  datatype Event =
    | Prepare(input: AddInput, projectActive: bool, canEdit: bool, timeSlug: string)
    | Save(draft: nat, id: Id)
    | Rename(id: Id, name: string, nameLower: string)
    | Remove(root: Id)

  function Next(t: Session, e: Event): Session {
    match e
    case Prepare(input, projectActive, canEdit, timeSlug) =>
      var r := OnPrepare(t.store, input, projectActive, canEdit, timeSlug);
      if r.Ok? then t.(drafts := t.drafts + [r.value]) else t
    case Save(k, id) =>
      if k < |t.drafts| && id !in t.store && Savable(t.store, t.drafts[k])
      then t.(store := t.store[id := t.drafts[k]]) else t
    case Rename(id, name, nameLower) =>
      if id in t.store && (t.store[id].deactivated || !NameTaken(t.store, t.store[id].project, nameLower, {id}))
      then t.(store := t.store[id := t.store[id].(name := name, nameLower := nameLower)]) else t
    case Remove(root) =>
      if root in t.store then t.(store := Deactivate(t.store, Subtree(t.store, root))) else t
  }

  function Replay(t: Session, run: seq<Event>): Session
    decreases |run|
  {
    if run == [] then t else Replay(Next(t, run[0]), run[1..])
  }

  ghost predicate Inv(t: Session) {
    && Tree(t.store)
    && UniqueAmongActive(t.store)
    && (forall d <- t.drafts :: Rooted(t.store, d) && !d.deactivated)
  }

  /** The columns that `Rooted` looks at never change in a stored document, and no document disappears. */
  ghost predicate Grows(s: Store, s': Store) {
    forall id | id in s :: id in s' && s'[id].project == s[id].project && s'[id].parent == s[id].parent
                           && s'[id].ancestors == s[id].ancestors
                           && s'[id].slug == s[id].slug && s'[id].path == s[id].path
  }

  lemma RootedSurvives(s: Store, s': Store, a: Article, a': Article)
    requires Rooted(s, a) && Grows(s, s')
    requires a' == a.(name := a'.name, nameLower := a'.nameLower, deactivated := a'.deactivated)
    ensures Rooted(s', a')
  {
  }

  lemma NextGrows(t: Session, e: Event)
    ensures Grows(t.store, Next(t, e).store)
  {
  }

  lemma NextKeepsInv(t: Session, e: Event)
    requires Inv(t)
    ensures Inv(Next(t, e))
  {
    NextGrows(t, e);
    NextKeepsTree(t, e);
    NextKeepsDrafts(t, e);
    NextKeepsUnique(t, e);
  }

  lemma NextKeepsTree(t: Session, e: Event)
    requires Inv(t) && Grows(t.store, Next(t, e).store)
    ensures Tree(Next(t, e).store)
  {
    var s, s' := t.store, Next(t, e).store;
    forall id | id in s' ensures Rooted(s', s'[id]) {
      if id in s {
        RootedSurvives(s, s', s[id], s'[id]);
      } else {
        RootedSurvives(s, s', t.drafts[e.draft], t.drafts[e.draft]);
      }
    }
  }

  lemma NextKeepsDrafts(t: Session, e: Event)
    requires Inv(t) && Grows(t.store, Next(t, e).store)
    ensures forall d <- Next(t, e).drafts :: Rooted(Next(t, e).store, d) && !d.deactivated
  {
    var s, s' := t.store, Next(t, e).store;
    forall d <- Next(t, e).drafts ensures Rooted(s', d) && !d.deactivated {
      if d in t.drafts {
        RootedSurvives(s, s', d, d);
      }
    }
  }

  lemma NextKeepsUnique(t: Session, e: Event)
    requires UniqueAmongActive(t.store)
    ensures UniqueAmongActive(Next(t, e).store)
  {
    var s, s' := t.store, Next(t, e).store;
    forall i, j | Active(s', i) && Active(s', j) && i != j && s'[i].project == s'[j].project
      ensures s'[i].path != s'[j].path && s'[i].nameLower != s'[j].nameLower
    {
      if i in s && j in s {
        assert Active(s, i) && Active(s, j);
      }
    }
  }

  /** In every interleaving of requests the index columns describe the parentId forest and the unique keys hold. */
  lemma {:induction false} EveryRunKeepsTheIndex(t: Session, run: seq<Event>)
    requires Inv(t)
    ensures Inv(Replay(t, run))
    decreases |run|
  {
    if run != [] {
      NextKeepsInv(t, run[0]);
      EveryRunKeepsTheIndex(Next(t, run[0]), run[1..]);
    }
  }

  /** Every stored document has a slug, so no two segments of a path run together. */
  lemma {:induction false} EveryDocumentHasASlug(t: Session, run: seq<Event>)
    requires forall id | id in t.store :: t.store[id].slug != ""
    ensures forall id | id in Replay(t, run).store :: Replay(t, run).store[id].slug != ""
    decreases |run|
  {
    if run != [] {
      EveryDocumentHasASlug(Next(t, run[0]), run[1..]);
    }
  }

  /** A save whose parent was removed after it was read. */
  predicate SavesBelowRemoved(t: Session, e: Event) {
    && e.Save? && e.draft < |t.drafts| && e.id !in t.store && Savable(t.store, t.drafts[e.draft])
    && t.drafts[e.draft].parent.Some? && !Active(t.store, t.drafts[e.draft].parent.value)
  }

  lemma SaveKeepsActiveClosed(s: Store, id: Id, d: Article)
    requires ActiveClosed(s) && id !in s && Rooted(s, d) && !d.deactivated
    ensures ActiveClosed(s[id := d]) <==> d.parent.None? || Active(s, d.parent.value)
  {
    var s' := s[id := d];
    assert Active(s', id);
    if d.parent.None? || Active(s, d.parent.value) {
      forall i | Active(s', i) && s'[i].parent.Some? ensures Active(s', s'[i].parent.value) {
        if i != id {
          assert Active(s, i);
        }
      }
    }
  }

  lemma RemoveKeepsActiveClosed(s: Store, root: Id)
    requires Tree(s) && ActiveClosed(s) && root in s
    ensures ActiveClosed(Deactivate(s, Subtree(s, root)))
  {
    var gone := Subtree(s, root);
    var s' := Deactivate(s, gone);
    forall i | Active(s', i) && s'[i].parent.Some? ensures Active(s', s'[i].parent.value) {
      var p := s[i].parent.value;
      assert Active(s, i) && i !in gone && Rooted(s, s[i]);
      assert Active(s, p);
      assert p in s[i].ancestors && forall a <- s[p].ancestors :: a in s[i].ancestors;
      assert p !in gone;
    }
  }

  lemma StepKeepsActiveClosed(t: Session, e: Event)
    requires Inv(t) && ActiveClosed(t.store)
    ensures ActiveClosed(Next(t, e).store) <==> !SavesBelowRemoved(t, e)
  {
    var s, s' := t.store, Next(t, e).store;
    match e
    case Save(k, id) =>
      if s' != s {
        SaveKeepsActiveClosed(s, id, t.drafts[k]);
        assert s'[id] == t.drafts[k];
      }
    case Remove(root) =>
      if s' != s {
        RemoveKeepsActiveClosed(s, root);
      }
    case Rename(id, name, nameLower) =>
      forall i | Active(s', i) && s'[i].parent.Some? ensures Active(s', s'[i].parent.value) {
        assert Active(s, i);
      }
    case Prepare(_, _, _, _) =>
  }

  ghost predicate ClosedThroughout(t: Session, run: seq<Event>)
    decreases |run|
  {
    ActiveClosed(t.store) && (run != [] ==> ClosedThroughout(Next(t, run[0]), run[1..]))
  }

  predicate NeverSavesBelowRemoved(t: Session, run: seq<Event>)
    decreases |run|
  {
    run != [] ==> !SavesBelowRemoved(t, run[0]) && NeverSavesBelowRemoved(Next(t, run[0]), run[1..])
  }

  /** Ancestors of active documents stay active in just the runs that save nothing below a parent removed meanwhile. */
  lemma {:induction false} ClosedIffNoLateSave(t: Session, run: seq<Event>)
    requires Inv(t) && ActiveClosed(t.store)
    ensures ClosedThroughout(t, run) <==> NeverSavesBelowRemoved(t, run)
    decreases |run|
  {
    if run != [] {
      StepKeepsActiveClosed(t, run[0]);
      NextKeepsInv(t, run[0]);
      if ActiveClosed(Next(t, run[0]).store) {
        ClosedIffNoLateSave(Next(t, run[0]), run[1..]);
      }
    }
  }

  /** A draft whose parent is removed before it is saved ends up active below a removed document. */
  lemma SaveAfterRemoval(t: Session, p: Id, k: nat, id: Id)
    requires Inv(t) && k < |t.drafts| && t.drafts[k].parent == Some(p) && Active(t.store, p)
    requires id !in t.store && Savable(t.store, t.drafts[k])
    ensures var removed := Next(t, Remove(p));
            SavesBelowRemoved(removed, Save(k, id)) && !ActiveClosed(Next(removed, Save(k, id)).store)
  {
    var removed := Next(t, Remove(p));
    var s := Next(removed, Save(k, id)).store;
    assert t.drafts[k] in t.drafts && p in Subtree(t.store, p);
    assert !Active(removed.store, p);
    assert Savable(removed.store, t.drafts[k]);
    assert Active(s, id) && s[id].parent == Some(p) && !Active(s, p);
  }

  const PARENT := Article(0, None, [], "p", "p", "p", "p", false)
  const CHILD := Article(0, Some(1), [1], "c", "p/c", "c", "c", false)

  /** The requests of two users: one adds a document below another one, which the other removes meanwhile. */
  const LATE_SAVE := [
    Prepare(AddInput(0, None, "p", "p", "", ""), true, true, "0"), Save(0, 1),
    Prepare(AddInput(0, Some(1), "c", "c", "", ""), true, true, "0"), Remove(1), Save(1, 2)
  ]

  /** Nobody is refused, and the child is active below its removed parent. */
  lemma ChildBelowRemovedParent()
    ensures Replay(Session(map[], []), LATE_SAVE).store == map[1 := PARENT.(deactivated := true), 2 := CHILD]
  {
    var run := LATE_SAVE;
    var t1 := Next(Session(map[], []), run[0]);
    Prepared("p");
    assert t1 == Session(map[], [PARENT]);
    var t2 := Next(t1, run[1]);
    assert t2 == Session(map[1 := PARENT], [PARENT]);
    var t3 := Next(t2, run[2]);
    Prepared("c");
    assert PARENT.path + "/" + "c" == "p/c" && PARENT.ancestors + [1] == [1];
    assert t3 == Session(map[1 := PARENT], [PARENT, CHILD]);
    var t4 := Next(t3, run[3]);
    assert t4.store == map[1 := PARENT.(deactivated := true)];
    var t5 := Next(t4, run[4]);
    assert t5.store == map[1 := PARENT.(deactivated := true), 2 := CHILD];
    ReplayFive(Session(map[], []), run[0], run[1], run[2], run[3], run[4]);
  }

  lemma Prepared(s: string)
    requires s == "p" || s == "c"
    ensures Text.Trim(s) == s && Text.Lower(s) == s
  {
    assert Text.TrimStart(s) == s && Text.TrimEnd(s) == s;
  }

  lemma ReplayFive(t: Session, a: Event, b: Event, c: Event, d: Event, e: Event)
    ensures Replay(t, [a, b, c, d, e]) == Next(Next(Next(Next(Next(t, a), b), c), d), e)
  {
    ReplayOne(t, a, [b, c, d, e]);
    ReplayOne(Next(t, a), b, [c, d, e]);
    ReplayOne(Next(Next(t, a), b), c, [d, e]);
    ReplayOne(Next(Next(Next(t, a), b), c), d, [e]);
    ReplayOne(Next(Next(Next(Next(t, a), b), c), d), e, []);
    assert [a, b, c, d, e] == [a] + [b, c, d, e] && [b, c, d, e] == [b] + [c, d, e] && [c, d, e] == [c] + [d, e];
    assert [d, e] == [d] + [e] && [e] == [e] + [];
  }

  lemma ReplayOne(t: Session, e: Event, rest: seq<Event>)
    ensures Replay(t, [e] + rest) == Replay(Next(t, e), rest)
  {
    assert ([e] + rest)[1..] == rest;
  }

  /** A request served without interruption; `id` is the fresh one of an added document. */
  datatype Request =
    | AddDocument(input: AddInput, projectActive: bool, canEdit: bool, timeSlug: string, id: Id)
    | RenameDocument(id: Id, name: string, canEdit: bool)
    | RemoveDocument(root: Id, canEdit: bool)

  function Serve(t: Session, r: Request): Session {
    match r
    case AddDocument(input, projectActive, canEdit, timeSlug, id) =>
      var prepared := Next(t, Prepare(input, projectActive, canEdit, timeSlug));
      if prepared == t then t else Next(prepared, Save(|t.drafts|, id))
    case RenameDocument(id, name, canEdit) =>
      var done := OnRename(t.store, id, name, canEdit);
      if done.Ok? then t.(store := done.value) else t
    case RemoveDocument(root, canEdit) =>
      var done := OnRemove(t.store, root, canEdit);
      if done.Ok? then t.(store := done.value.0) else t
  }

  function ServeAll(t: Session, requests: seq<Request>): Session
    decreases |requests|
  {
    if requests == [] then t else ServeAll(Serve(t, requests[0]), requests[1..])
  }

  /** What one uninterrupted request leaves in the collection. */
  lemma ServeServes(t: Session, r: Request)
    ensures match r
            case AddDocument(input, projectActive, canEdit, timeSlug, id) =>
              var draft := OnPrepare(t.store, input, projectActive, canEdit, timeSlug);
              Serve(t, r).store == if draft.Ok? && id !in t.store && Savable(t.store, draft.value)
                                   then t.store[id := draft.value] else t.store
            case RenameDocument(id, name, canEdit) =>
              var done := OnRename(t.store, id, name, canEdit);
              Serve(t, r).store == if done.Ok? then done.value else t.store
            case RemoveDocument(root, canEdit) =>
              var done := OnRemove(t.store, root, canEdit);
              Serve(t, r).store == if done.Ok? then done.value.0 else t.store
  {
    if r.AddDocument? {
      var prepared := Next(t, Prepare(r.input, r.projectActive, r.canEdit, r.timeSlug));
      var draft := OnPrepare(t.store, r.input, r.projectActive, r.canEdit, r.timeSlug);
      if draft.Ok? {
        assert prepared.drafts == t.drafts + [draft.value];
      }
    }
  }

  lemma {:induction false} OneMoreRequest(t: Session, requests: seq<Request>, r: Request)
    ensures ServeAll(t, requests + [r]) == Serve(ServeAll(t, requests), r)
    decreases |requests|
  {
    if requests == [] {
      assert requests + [r] == [r] && [r][1..] == [];
      assert ServeAll(Serve(t, r), []) == Serve(t, r);
    } else {
      ConcatHead(requests, [r]);
      OneMoreRequest(Serve(t, requests[0]), requests[1..], r);
    }
  }

  lemma ServeKeepsActiveClosed(t: Session, r: Request)
    requires Inv(t) && ActiveClosed(t.store)
    ensures Inv(Serve(t, r)) && ActiveClosed(Serve(t, r).store)
  {
    match r
    case AddDocument(input, projectActive, canEdit, timeSlug, id) =>
      var prepare := Prepare(input, projectActive, canEdit, timeSlug);
      var prepared := Next(t, prepare);
      NextKeepsInv(t, prepare);
      if prepared != t {
        PreparedParentIsActive(t, prepare);
        NextKeepsInv(prepared, Save(|t.drafts|, id));
        StepKeepsActiveClosed(prepared, Save(|t.drafts|, id));
      }
    case RenameDocument(id, name, canEdit) =>
      var write := Rename(id, Text.Trim(name), Text.Lower(Text.Trim(name)));
      NextKeepsInv(t, write);
      StepKeepsActiveClosed(t, write);
    case RemoveDocument(root, canEdit) =>
      NextKeepsInv(t, Remove(root));
      StepKeepsActiveClosed(t, Remove(root));
  }

  lemma PreparedParentIsActive(t: Session, e: Event)
    requires e.Prepare? && Next(t, e) != t
    ensures var next := Next(t, e);
            && next.store == t.store
            && |next.drafts| == |t.drafts| + 1
            && (next.drafts[|t.drafts|].parent.Some? ==> Active(t.store, next.drafts[|t.drafts|].parent.value))
  {
  }

  /** So with requests served one at a time no active document ever hangs below a removed one. */
  lemma {:induction false} ServedOneByOne(t: Session, requests: seq<Request>)
    requires Inv(t) && ActiveClosed(t.store)
    ensures Inv(ServeAll(t, requests)) && ActiveClosed(ServeAll(t, requests).store)
    decreases |requests|
  {
    if requests != [] {
      ServeKeepsActiveClosed(t, requests[0]);
      ServedOneByOne(Serve(t, requests[0]), requests[1..]);
    }
  }

  /**
   A rename gives the document the trimmed name and changes nothing else; from then on the name is taken in its
   project, in whatever case it is written.
   */
  lemma RenamedNameIsTaken(s: Store, id: Id, name: string, canEdit: bool, input: AddInput, timeSlug: string)
    requires OnRename(s, id, name, canEdit).Ok?
    requires input.project == s[id].project
    requires Text.Lower(Text.Trim(input.name)) == Text.Lower(Text.Trim(name)) && Text.Trim(input.name) != ""
    ensures var after := OnRename(s, id, name, canEdit).value;
            && after.Keys == s.Keys && (forall i | i in s && i != id :: after[i] == s[i])
            && after[id].name == Text.Trim(name) != ""
            && after[id] == s[id].(name := after[id].name, nameLower := after[id].nameLower)
            && OnPrepare(after, input, true, true, timeSlug) == Err(Conflict)
  {
    var after := OnRename(s, id, name, canEdit).value;
    assert !after[id].deactivated && after[id].nameLower == Text.Lower(Text.Trim(input.name));
  }
}
