/**
 Two ways of asking who may do what with an entity (entity-ownership.service.ts): checking one user against one
 entity, and searching all entities of a user. The query operators of the database are functions here.
 */
module OwnershipQueries {
  import opened Prelude
  import opened OwnershipGroups
  import opened Ownerships

  /** A disjunction of conjunctions of capabilities; None when nothing is requested. */
  type Requested = Option<seq<seq<Capability>>>

  type Teams = map<TeamId, Members>

  // ---------------------------------------------------------------- capabilities

  predicate HasAll(capabilities: seq<Capability>, wanted: seq<Capability>) {
    forall c <- wanted :: c in capabilities
  }

  predicate Satisfies(capabilities: seq<Capability>, query: Requested) {
    query.None? || query.value == [] || exists wanted <- query.value :: HasAll(capabilities, wanted)
  }

  method HasCapabilityFromInnerArray(capabilities: seq<Capability>, query: Requested) returns (has: bool)
    ensures has <==> Satisfies(capabilities, query)
  {
    if query.None? || |query.value| == 0 {
      return true;
    }
    for i := 0 to |query.value|
      invariant forall k | 0 <= k < i :: !HasAll(capabilities, query.value[k])
    {
      var wanted := query.value[i];
      var hasAll := true;
      var j := 0;
      while j < |wanted|
        invariant 0 <= j <= |wanted|
        invariant hasAll
        invariant forall k | 0 <= k < j :: wanted[k] in capabilities
      {
        var capability := wanted[j];
        if capability !in capabilities {
          assert capability in wanted;
          assert !HasAll(capabilities, wanted);
          hasAll := false;
          break;
        }
        j := j + 1;
      }
      if hasAll {
        assert HasAll(capabilities, wanted);
        return true;
      }
    }
    has := false;
  }

  // ---------------------------------------------------------------- query operators

  /** `{ capabilities: { $all: wanted } }`, which matches nothing for an empty list. */
  predicate All(capabilities: seq<Capability>, wanted: seq<Capability>) {
    wanted != [] && HasAll(capabilities, wanted)
  }

  /** `$or` over one `$all` for each conjunction. */
  predicate AnyAll(capabilities: seq<Capability>, query: seq<seq<Capability>>) {
    exists wanted <- query :: All(capabilities, wanted)
  }

  /** The inner `$elemMatch` of findUserCapabilityInGroup; the `$or` is left out for an empty request. */
  predicate EntityEntryMatches(ec: EntityCapability, entityGroup: string, entityName: string, query: Requested) {
    && ec.entityGroup == entityGroup
    && ec.entityName == entityName
    && (query.Some? && query.value != [] ==> AnyAll(ec.capabilities, query.value))
  }

  predicate TeamQueryMatches(team: Members, user: UserId, entityGroup: string, entityName: string, query: Requested) {
    exists m <- team :: m.userId == user
                        && exists ec <- m.entityCapabilities :: EntityEntryMatches(ec, entityGroup, entityName, query)
  }

  // ---------------------------------------------------------------- check

  /** `findUserCapabilityInEntity`. */
  function InEntity(list: seq<UserCapability>, user: UserId, query: Requested): Option<UserCapability> {
    if list == [] then None
    else if list[0].userId == user && Satisfies(list[0].capabilities, query) then Some(list[0])
    else InEntity(list[1..], user, query)
  }

  predicate EntryFits(ec: EntityCapability, entityGroup: string, entityName: string, query: Requested) {
    ec.entityGroup == entityGroup && ec.entityName == entityName && Satisfies(ec.capabilities, query)
  }

  function FindEntry(list: seq<EntityCapability>, entityGroup: string, entityName: string, query: Requested)
    : Option<EntityCapability>
  {
    if list == [] then None
    else if EntryFits(list[0], entityGroup, entityName, query) then Some(list[0])
    else FindEntry(list[1..], entityGroup, entityName, query)
  }

  function FindMember(team: Members, user: UserId, entityGroup: string, entityName: string, query: Requested)
    : Option<Member>
  {
    if team == [] then None
    else if team[0].userId == user
            && exists ec <- team[0].entityCapabilities :: EntryFits(ec, entityGroup, entityName, query)
    then Some(team[0])
    else FindMember(team[1..], user, entityGroup, entityName, query)
  }

  /** `findUserCapabilityInGroup`. */
  function InTeam(o: Ownership, teams: Teams, user: UserId, query: Requested): Option<UserCapability> {
    if o.team.None? || o.team.value !in teams
       || !TeamQueryMatches(teams[o.team.value], user, o.entityGroup, o.entityName, query) then None
    else
      var m := FindMember(teams[o.team.value], user, o.entityGroup, o.entityName, query);
      if m.None? then None else
        var ec := FindEntry(m.value.entityCapabilities, o.entityGroup, o.entityName, query);
        if ec.None? then None else Some(UserCapability(m.value.userId, ec.value.capabilities))
  }

  /** `findInsertedUserCapability` on the ownership it found, without role override. */
  function Check(o: Ownership, teams: Teams, user: UserId, query: Requested): Option<UserCapability> {
    var found := InEntity(o.userCapabilities, user, query);
    if found.Some? then found else InTeam(o, teams, user, query)
  }

  // ---------------------------------------------------------------- search

  /** `findEntityOwnershipGroupsByUser`: two conditions on the team, not tied to one member or one entity. */
  predicate TeamOfUser(team: Members, user: UserId, query: Requested) {
    && (exists m <- team :: m.userId == user)
    && (query.Some? ==> exists m <- team :: exists ec <- m.entityCapabilities :: AnyAll(ec.capabilities, query.value))
  }

  predicate PersonallyMatches(list: seq<UserCapability>, user: UserId, query: Requested) {
    exists uc <- list :: uc.userId == user && (query.Some? ==> AnyAll(uc.capabilities, query.value))
  }

  /**
   Whether `searchByUserRaw` for a user returns an ownership document. A request with no conjunction at all makes
   the query invalid (`$or` must not be empty), so nothing is returned.
   */
  predicate SearchReturns(o: Ownership, teams: Teams, user: UserId, entityGroup: string, entityName: string,
                          query: Requested)
  {
    && !(query.Some? && query.value == [])
    && o.entityGroup == entityGroup
    && o.entityName == entityName
    && o.entityId.Some?
    && (PersonallyMatches(o.userCapabilities, user, query)
        || (o.team.Some? && o.team.value in teams && TeamOfUser(teams[o.team.value], user, query)))
  }

  // ---------------------------------------------------------------- agreement

  lemma {:induction false} InEntityFinds(list: seq<UserCapability>, user: UserId, query: Requested)
    ensures InEntity(list, user, query).Some? ==>
              var found := InEntity(list, user, query).value;
              found in list && found.userId == user && Satisfies(found.capabilities, query)
    ensures InEntity(list, user, query).None? ==>
              forall uc <- list :: !(uc.userId == user && Satisfies(uc.capabilities, query))
  {
    if list != [] {
      InEntityFinds(list[1..], user, query);
      assert list == [list[0]] + list[1..];
    }
  }

  lemma {:induction false} FindEntryFinds(list: seq<EntityCapability>, entityGroup: string, entityName: string,
                                          query: Requested)
    ensures var found := FindEntry(list, entityGroup, entityName, query);
            && (found.Some? ==> found.value in list && EntryFits(found.value, entityGroup, entityName, query))
            && (found.None? ==> forall ec <- list :: !EntryFits(ec, entityGroup, entityName, query))
  {
    if list != [] {
      FindEntryFinds(list[1..], entityGroup, entityName, query);
      assert list == [list[0]] + list[1..];
    }
  }

  lemma {:induction false} FindMemberFinds(team: Members, user: UserId, entityGroup: string, entityName: string,
                                           query: Requested)
    ensures var found := FindMember(team, user, entityGroup, entityName, query);
            && (found.Some? ==> found.value in team && found.value.userId == user
                                && exists ec <- found.value.entityCapabilities ::
                                     EntryFits(ec, entityGroup, entityName, query))
            && (found.None? ==> forall m <- team :: m.userId == user ==>
                                  forall ec <- m.entityCapabilities :: !EntryFits(ec, entityGroup, entityName, query))
  {
    if team != [] {
      FindMemberFinds(team[1..], user, entityGroup, entityName, query);
      assert team == [team[0]] + team[1..];
    }
  }

  /** What a check returns is a capability of that user which satisfies the request. */
  lemma CheckIsSound(o: Ownership, teams: Teams, user: UserId, query: Requested)
    ensures var found := Check(o, teams, user, query);
            found.Some? ==>
              && found.value.userId == user
              && Satisfies(found.value.capabilities, query)
              && (found.value in o.userCapabilities
                  || (o.team.Some? && o.team.value in teams
                      && (exists m <- teams[o.team.value] ::
                            m.userId == user
                            && EntityCapability(o.entityGroup, o.entityName, found.value.capabilities)
                               in m.entityCapabilities)))
  {
    InEntityFinds(o.userCapabilities, user, query);
    var found := Check(o, teams, user, query);
    if found.Some? && InEntity(o.userCapabilities, user, query).None? {
      var team := teams[o.team.value];
      FindMemberFinds(team, user, o.entityGroup, o.entityName, query);
      var m := FindMember(team, user, o.entityGroup, o.entityName, query).value;
      FindEntryFinds(m.entityCapabilities, o.entityGroup, o.entityName, query);
      var ec := FindEntry(m.entityCapabilities, o.entityGroup, o.entityName, query).value;
      assert ec == EntityCapability(o.entityGroup, o.entityName, found.value.capabilities);
      assert m in team && ec in m.entityCapabilities;
    }
  }

  /** Nothing requested, or at least one conjunction and none of them empty. */
  predicate Answerable(query: Requested) {
    query.None? || (query.value != [] && forall wanted <- query.value :: wanted != [])
  }

  lemma SatisfiesMeansAnyAll(capabilities: seq<Capability>, query: Requested)
    requires Answerable(query) && query.Some? && Satisfies(capabilities, query)
    ensures AnyAll(capabilities, query.value)
  {
    var wanted :| wanted in query.value && HasAll(capabilities, wanted);
    assert All(capabilities, wanted);
  }

  /** The entity accepted by the check, if it has an id, is found by the search with the same arguments. */
  lemma AcceptedIsReturned(o: Ownership, teams: Teams, user: UserId, query: Requested)
    requires Answerable(query) && o.entityId.Some?
    requires Check(o, teams, user, query).Some?
    ensures SearchReturns(o, teams, user, o.entityGroup, o.entityName, query)
  {
    InEntityFinds(o.userCapabilities, user, query);
    var found := InEntity(o.userCapabilities, user, query);
    if found.Some? {
      if query.Some? {
        SatisfiesMeansAnyAll(found.value.capabilities, query);
      }
      assert PersonallyMatches(o.userCapabilities, user, query);
    } else {
      var team := teams[o.team.value];
      assert TeamQueryMatches(team, user, o.entityGroup, o.entityName, query);
      var m :| m in team && m.userId == user
               && exists ec <- m.entityCapabilities :: EntityEntryMatches(ec, o.entityGroup, o.entityName, query);
      assert m in team && m.userId == user;
      if query.Some? {
        var ec :| ec in m.entityCapabilities && EntityEntryMatches(ec, o.entityGroup, o.entityName, query);
        assert AnyAll(ec.capabilities, query.value);
      }
    }
  }

  /** `findEntitiesBySearchKeys`; an empty id is left out of the filter. */
  predicate KeysMatch(o: Ownership, entityGroup: string, entityName: string, entityId: string) {
    o.entityGroup == entityGroup && o.entityName == entityName && (entityId != "" ==> o.entityId == Some(entityId))
  }

  function FindFirst(docs: seq<Ownership>, entityGroup: string, entityName: string, entityId: string)
    : Option<Ownership>
  {
    if docs == [] then None
    else if KeysMatch(docs[0], entityGroup, entityName, entityId) then Some(docs[0])
    else FindFirst(docs[1..], entityGroup, entityName, entityId)
  }

  /** `findInsertedUserCapability` on the whole collection, without role override. */
  function CheckUser(docs: seq<Ownership>, teams: Teams, entityGroup: string, entityName: string, entityId: string,
                     user: UserId, query: Requested): Option<UserCapability> {
    var o := FindFirst(docs, entityGroup, entityName, entityId);
    if o.None? then None else Check(o.value, teams, user, query)
  }

  /** `searchByUserRaw` on the whole collection. */
  function SearchByUser(docs: seq<Ownership>, teams: Teams, entityGroup: string, entityName: string,
                        user: UserId, query: Requested): seq<Ownership> {
    if docs == [] then []
    else (if SearchReturns(docs[0], teams, user, entityGroup, entityName, query) then [docs[0]] else [])
         + SearchByUser(docs[1..], teams, entityGroup, entityName, user, query)
  }

  lemma {:induction false} SearchIsFilter(docs: seq<Ownership>, teams: Teams, entityGroup: string, entityName: string,
                                          user: UserId, query: Requested)
    ensures forall o :: o in SearchByUser(docs, teams, entityGroup, entityName, user, query)
                        <==> o in docs && SearchReturns(o, teams, user, entityGroup, entityName, query)
  {
    if docs != [] {
      SearchIsFilter(docs[1..], teams, entityGroup, entityName, user, query);
      assert docs == [docs[0]] + docs[1..];
    }
  }

  /** The first document with the keys is checked, if there is one. */
  lemma {:induction false} FindFirstFinds(docs: seq<Ownership>, entityGroup: string, entityName: string,
                                          entityId: string)
    ensures match FindFirst(docs, entityGroup, entityName, entityId)
            case None => forall o <- docs :: !KeysMatch(o, entityGroup, entityName, entityId)
            case Some(o) =>
              && o in docs && KeysMatch(o, entityGroup, entityName, entityId)
              && exists i :: 0 <= i < |docs| && docs[i] == o
                             && forall j | 0 <= j < i :: !KeysMatch(docs[j], entityGroup, entityName, entityId)
  {
    if docs != [] {
      var rest := docs[1..];
      FindFirstFinds(rest, entityGroup, entityName, entityId);
      assert docs == [docs[0]] + rest;
      var found := FindFirst(rest, entityGroup, entityName, entityId);
      if found.Some? && !KeysMatch(docs[0], entityGroup, entityName, entityId) {
        var i :| 0 <= i < |rest| && rest[i] == found.value
                 && forall j | 0 <= j < i :: !KeysMatch(rest[j], entityGroup, entityName, entityId);
        assert docs[i + 1] == found.value;
        assert forall j | 0 < j < i + 1 :: docs[j] == rest[j - 1];
      }
    }
  }

  /** Where one document has the keys, as the unique index has it for entities with an id, that one is checked. */
  lemma OnlyDocumentIsChecked(docs: seq<Ownership>, teams: Teams, o: Ownership, entityId: string, user: UserId,
                              query: Requested)
    requires o in docs && o.entityId == Some(entityId) && entityId != ""
    requires forall other <- docs ::
               (other.entityGroup, other.entityName, other.entityId) == (o.entityGroup, o.entityName, o.entityId) ==>
                 other == o
    ensures CheckUser(docs, teams, o.entityGroup, o.entityName, entityId, user, query) == Check(o, teams, user, query)
  {
    FindFirstFinds(docs, o.entityGroup, o.entityName, entityId);
  }

  /** On the whole collection: an entity on which a user passes the check is listed when the same user searches. */
  lemma CheckedEntityIsListed(docs: seq<Ownership>, teams: Teams, entityGroup: string, entityName: string,
                              entityId: string, user: UserId, query: Requested)
    requires Answerable(query) && entityId != ""
    requires CheckUser(docs, teams, entityGroup, entityName, entityId, user, query).Some?
    ensures exists o <- SearchByUser(docs, teams, entityGroup, entityName, user, query) ::
              o.entityGroup == entityGroup && o.entityName == entityName && o.entityId == Some(entityId)
  {
    FindFirstFinds(docs, entityGroup, entityName, entityId);
    var o := FindFirst(docs, entityGroup, entityName, entityId).value;
    AcceptedIsReturned(o, teams, user, query);
    SearchIsFilter(docs, teams, entityGroup, entityName, user, query);
  }

  /** Check implies search, for one request on every document, every team and every user. */
  ghost predicate CheckImpliesSearch(query: Requested) {
    forall o: Ownership, teams: Teams, user: UserId ::
      o.entityId.Some? && Check(o, teams, user, query).Some? ==>
        SearchReturns(o, teams, user, o.entityGroup, o.entityName, query)
  }

  /**
   The two paths agree for a request exactly when it is absent, or a non-empty list of non-empty conjunctions: an
   empty conjunction is satisfied by everyone in the check and by no one in the database.
   */
  lemma AgreeExactlyOnAnswerable(query: Requested)
    ensures CheckImpliesSearch(query) <==> Answerable(query)
  {
    if Answerable(query) {
      forall o: Ownership, teams: Teams, user: UserId | o.entityId.Some? && Check(o, teams, user, query).Some?
        ensures SearchReturns(o, teams, user, o.entityGroup, o.entityName, query)
      {
        AcceptedIsReturned(o, teams, user, query);
      }
    } else {
      var nobody := UserCapability("u", []);
      var o := Ownership("g", "n", Some("e"), None, [nobody]);
      assert Satisfies([], query) by {
        if query.value != [] {
          var wanted :| wanted in query.value && wanted == [];
          assert HasAll([], wanted);
        }
      }
      assert InEntity(o.userCapabilities, "u", query) == Some(nobody);
      assert Check(o, map[], "u", query).Some?;
      NothingMatchesNoCapabilities(query.value);
      assert forall uc <- o.userCapabilities :: uc == nobody;
      assert !SearchReturns(o, map[], "u", "g", "n", query);
    }
  }

  lemma NothingMatchesNoCapabilities(query: seq<seq<Capability>>)
    ensures !AnyAll([], query)
  {
    forall wanted <- query ensures !All([], wanted) {
      if wanted != [] {
        var capability := wanted[0];
        assert capability in wanted;
      }
    }
  }

  /** The personal part of the search is exact: it finds just the documents whose personal check succeeds. */
  lemma PersonalSearchIsExact(list: seq<UserCapability>, user: UserId, query: Requested)
    requires Answerable(query)
    ensures PersonallyMatches(list, user, query) <==> InEntity(list, user, query).Some?
  {
    InEntityFinds(list, user, query);
    if PersonallyMatches(list, user, query) {
      var uc :| uc in list && uc.userId == user && (query.Some? ==> AnyAll(uc.capabilities, query.value));
      if query.Some? {
        var wanted :| wanted in query.value && All(uc.capabilities, wanted);
        assert HasAll(uc.capabilities, wanted);
      }
      assert Satisfies(uc.capabilities, query);
    }
    if InEntity(list, user, query).Some? && query.Some? {
      SatisfiesMeansAnyAll(InEntity(list, user, query).value.capabilities, query);
    }
  }

  /** Somebody in the team, whoever he is, holds a requested conjunction on some entity. */
  ghost predicate TeamHolds(team: Members, query: seq<seq<Capability>>) {
    exists m, ec, wanted ::
      m in team && ec in m.entityCapabilities && wanted in query && HasAll(ec.capabilities, wanted)
  }

  /**
   What a search lists for a request that can be answered: the documents of that group and name that have an id, and
   on which the user passes the personal check, or whose team he belongs to while somebody there holds the request.
   */
  lemma ListedExactly(docs: seq<Ownership>, teams: Teams, entityGroup: string, entityName: string, user: UserId,
                      query: Requested, o: Ownership)
    requires Answerable(query)
    ensures o in SearchByUser(docs, teams, entityGroup, entityName, user, query) <==>
              && o in docs && o.entityGroup == entityGroup && o.entityName == entityName && o.entityId != None
              && (|| InEntity(o.userCapabilities, user, query) != None
                  || (&& o.team.Some? && o.team.value in teams
                      && (exists m <- teams[o.team.value] :: m.userId == user)
                      && (query == None || TeamHolds(teams[o.team.value], query.value))))
  {
    SearchIsFilter(docs, teams, entityGroup, entityName, user, query);
    PersonalSearchIsExact(o.userCapabilities, user, query);
    if o.team.Some? && o.team.value in teams && query.Some? {
      TeamHoldsExactly(teams[o.team.value], query);
    }
  }

  lemma TeamHoldsExactly(team: Members, query: Requested)
    requires Answerable(query) && query.Some?
    ensures (exists m <- team :: exists ec <- m.entityCapabilities :: AnyAll(ec.capabilities, query.value))
            <==> TeamHolds(team, query.value)
  {
    if TeamHolds(team, query.value) {
      var m, ec, wanted :|
        m in team && ec in m.entityCapabilities && wanted in query.value && HasAll(ec.capabilities, wanted);
      assert All(ec.capabilities, wanted);
      assert AnyAll(ec.capabilities, query.value);
    }
    if m :| m in team && exists ec <- m.entityCapabilities :: AnyAll(ec.capabilities, query.value) {
      var ec :| ec in m.entityCapabilities && AnyAll(ec.capabilities, query.value);
      var wanted :| wanted in query.value && All(ec.capabilities, wanted);
      assert HasAll(ec.capabilities, wanted);
    }
  }

  /** A request with no conjunction at all is an invalid query and lists nothing. */
  lemma {:induction false} EmptyRequestListsNothing(docs: seq<Ownership>, teams: Teams, entityGroup: string,
                                                    entityName: string, user: UserId)
    ensures SearchByUser(docs, teams, entityGroup, entityName, user, Some([])) == []
  {
    if docs != [] {
      EmptyRequestListsNothing(docs[1..], teams, entityGroup, entityName, user);
    }
  }

  // ---------------------------------------------------------------- what the search returns beyond the check

  function TeamOf(o: Ownership, teams: Teams): Members {
    if o.team.Some? && o.team.value in teams then teams[o.team.value] else []
  }

  /** The user holds these capabilities on the entity, himself or in the team. */
  predicate Covers(o: Ownership, team: Members, user: UserId, capabilities: seq<Capability>) {
    || (exists uc <- o.userCapabilities :: uc.userId == user && HasAll(uc.capabilities, capabilities))
    || (exists m <- team :: m.userId == user
                            && exists ec <- m.entityCapabilities ::
                                 ec.entityGroup == o.entityGroup && ec.entityName == o.entityName
                                 && HasAll(ec.capabilities, capabilities))
  }

  predicate CoversSome(o: Ownership, team: Members, user: UserId, query: Requested) {
    if query.None? then Covers(o, team, user, []) else exists wanted <- query.value :: Covers(o, team, user, wanted)
  }

  /** The check succeeds exactly when the user holds one of the requested conjunctions on the entity. */
  lemma CheckIsCovers(o: Ownership, teams: Teams, user: UserId, query: Requested)
    requires Answerable(query)
    ensures Check(o, teams, user, query).Some? <==> CoversSome(o, TeamOf(o, teams), user, query)
  {
    if Check(o, teams, user, query).Some? {
      FoundIsCovered(o, teams, user, query);
    }
    if CoversSome(o, TeamOf(o, teams), user, query) {
      var wanted :|
        (if query.None? then wanted == [] else wanted in query.value) && Covers(o, TeamOf(o, teams), user, wanted);
      CoveredIsFound(o, teams, user, query, wanted);
    }
  }

  lemma FoundIsCovered(o: Ownership, teams: Teams, user: UserId, query: Requested)
    requires Answerable(query) && Check(o, teams, user, query).Some?
    ensures CoversSome(o, TeamOf(o, teams), user, query)
  {
    CheckIsSound(o, teams, user, query);
    var found := Check(o, teams, user, query).value;
    var wanted :| (if query.None? then wanted == [] else wanted in query.value) && HasAll(found.capabilities, wanted);
    if found !in o.userCapabilities {
      var m :| m in TeamOf(o, teams) && m.userId == user
               && EntityCapability(o.entityGroup, o.entityName, found.capabilities) in m.entityCapabilities;
    }
    assert Covers(o, TeamOf(o, teams), user, wanted);
  }

  lemma CoveredIsFound(o: Ownership, teams: Teams, user: UserId, query: Requested, wanted: seq<Capability>)
    requires Answerable(query) && (if query.None? then wanted == [] else wanted in query.value)
    requires Covers(o, TeamOf(o, teams), user, wanted)
    ensures Check(o, teams, user, query).Some?
  {
    var team := TeamOf(o, teams);
    InEntityFinds(o.userCapabilities, user, query);
    if uc :| uc in o.userCapabilities && uc.userId == user && HasAll(uc.capabilities, wanted) {
      assert Satisfies(uc.capabilities, query);
    } else {
      var m :| m in team && m.userId == user
               && exists ec <- m.entityCapabilities ::
                    ec.entityGroup == o.entityGroup && ec.entityName == o.entityName && HasAll(ec.capabilities, wanted);
      var ec :| ec in m.entityCapabilities
                && ec.entityGroup == o.entityGroup && ec.entityName == o.entityName && HasAll(ec.capabilities, wanted);
      assert EntryFits(ec, o.entityGroup, o.entityName, query);
      FitIsFound(o, teams, user, query, m, ec);
    }
  }

  lemma FitIsFound(o: Ownership, teams: Teams, user: UserId, query: Requested, m: Member, ec: EntityCapability)
    requires Answerable(query) && m in TeamOf(o, teams) && m.userId == user
    requires ec in m.entityCapabilities && EntryFits(ec, o.entityGroup, o.entityName, query)
    ensures InTeam(o, teams, user, query).Some?
  {
    var team := TeamOf(o, teams);
    if query.Some? {
      SatisfiesMeansAnyAll(ec.capabilities, query);
    }
    assert EntityEntryMatches(ec, o.entityGroup, o.entityName, query);
    assert TeamQueryMatches(team, user, o.entityGroup, o.entityName, query);
    FindMemberFinds(team, user, o.entityGroup, o.entityName, query);
    var found := FindMember(team, user, o.entityGroup, o.entityName, query);
    FindEntryFinds(found.value.entityCapabilities, o.entityGroup, o.entityName, query);
  }

  /** The user is no member of the team, or holds on this entity whatever anyone in the team holds on any entity. */
  predicate TeamHoldsNoMore(o: Ownership, team: Members, user: UserId) {
    (exists m <- team :: m.userId == user) ==>
      && Covers(o, team, user, [])
      && (forall m <- team :: forall ec <- m.entityCapabilities :: Covers(o, team, user, ec.capabilities))
  }

  ghost predicate SearchImpliesCheck(o: Ownership, teams: Teams, user: UserId) {
    forall query | Answerable(query) ::
      SearchReturns(o, teams, user, o.entityGroup, o.entityName, query) ==> Check(o, teams, user, query).Some?
  }

  lemma ReturnedIsCovered(o: Ownership, teams: Teams, user: UserId, query: Requested)
    requires Answerable(query) && TeamHoldsNoMore(o, TeamOf(o, teams), user)
    requires SearchReturns(o, teams, user, o.entityGroup, o.entityName, query)
    ensures Check(o, teams, user, query).Some?
  {
    var team := TeamOf(o, teams);
    if PersonallyMatches(o.userCapabilities, user, query) {
      PersonalSearchIsExact(o.userCapabilities, user, query);
    } else {
      if query.Some? {
        var m :| m in team && exists ec <- m.entityCapabilities :: AnyAll(ec.capabilities, query.value);
        var ec :| ec in m.entityCapabilities && AnyAll(ec.capabilities, query.value);
        var wanted :| wanted in query.value && All(ec.capabilities, wanted);
        assert Covers(o, team, user, ec.capabilities);
        assert Covers(o, team, user, wanted);
      }
      CheckIsCovers(o, teams, user, query);
    }
  }

  /**
   Exactly for whom the search never offers an entity that the check refuses: its condition on the team is tied
   neither to the user's own entries nor to the entity, so what others hold elsewhere counts.
   */
  lemma SearchOffersNoMoreExactly(o: Ownership, teams: Teams, user: UserId)
    requires o.entityId.Some?
    ensures SearchImpliesCheck(o, teams, user) <==> TeamHoldsNoMore(o, TeamOf(o, teams), user)
  {
    var team := TeamOf(o, teams);
    if TeamHoldsNoMore(o, team, user) {
      forall query | Answerable(query) && SearchReturns(o, teams, user, o.entityGroup, o.entityName, query)
        ensures Check(o, teams, user, query).Some?
      {
        ReturnedIsCovered(o, teams, user, query);
      }
    } else {
      var query := UncheckedQuery(o, teams, user);
      assert !SearchImpliesCheck(o, teams, user);
    }
  }

  /** A request that is answered by the search and refused by the check. */
  lemma UncheckedQuery(o: Ownership, teams: Teams, user: UserId) returns (query: Requested)
    requires o.entityId.Some? && !TeamHoldsNoMore(o, TeamOf(o, teams), user)
    ensures Answerable(query) && Check(o, teams, user, query).None?
    ensures SearchReturns(o, teams, user, o.entityGroup, o.entityName, query)
  {
    var team := TeamOf(o, teams);
    if !Covers(o, team, user, []) {
      query := None;
    } else {
      var m :| m in team && exists ec <- m.entityCapabilities :: !Covers(o, team, user, ec.capabilities);
      var ec :| ec in m.entityCapabilities && !Covers(o, team, user, ec.capabilities);
      query := Some([ec.capabilities]);
      assert All(ec.capabilities, ec.capabilities);
      assert ec.capabilities in query.value;
      assert AnyAll(ec.capabilities, query.value);
    }
    CheckIsCovers(o, teams, user, query);
  }

  /** A user without any capability is offered an entity because a colleague may edit another one. */
  lemma SearchOffersRefusedEntity()
    ensures var o := Ownership("g", "n", Some("e"), Some(1), []);
            var teams: Teams := map[1 := [Member("u", [], []), Member("v", [], [EntityCapability("g", "other", [4])])]];
            var query := Some([[4]]);
            SearchReturns(o, teams, "u", "g", "n", query) && Check(o, teams, "u", query) == None
  {
    var o := Ownership("g", "n", Some("e"), Some(1), []);
    var u, v := Member("u", [], []), Member("v", [], [EntityCapability("g", "other", [4])]);
    var teams: Teams := map[1 := [u, v]];
    var query: Requested := Some([[4]]);
    assert u in teams[1] && v in teams[1] && v.entityCapabilities[0] in v.entityCapabilities;
    assert [4] in query.value && All([4], [4]) && AnyAll([4], query.value);
    assert TeamOfUser(teams[1], "u", query);
    forall m <- TeamOf(o, teams) | m.userId == "u" ensures m.entityCapabilities == [] {
    }
    CheckIsCovers(o, teams, "u", query);
  }
}
