/**
 The guards of the member controller on capability updates (eog-assertions.ts), and what they guarantee over any
 number of accepted requests.
 */
module CapabilityGuards {
  import opened Prelude
  import opened OwnershipGroups

  const EDIT: Capability := 4
  const EOG_ADJUST_MEMBERS: Capability := 6
  const EOG_ADJUST_CAPABILITIES: Capability := 7

  /** PUT :id/capability on one group. */
  datatype Request = Request(
    current: User,
    target: UserId,
    groupCaps: seq<Capability>,
    entityCaps: seq<EntityCapability>
  )

  /** `filter` by absence from another list. */
  function NotIn(a: seq<Capability>, b: seq<Capability>): seq<Capability> {
    if a == [] then [] else (if a[0] in b then [] else [a[0]]) + NotIn(a[1..], b)
  }

  /** `[...new Set(list)]`. */
  function Unique(list: seq<Capability>): seq<Capability> {
    if list == [] then [] else
      var init := Unique(list[..|list| - 1]);
      if list[|list| - 1] in init then init else init + [list[|list| - 1]]
  }

  /** `getCapabilitiesNeedAttentions`. */
  function NeedAttention(newList: seq<Capability>, oldList: seq<Capability>): seq<Capability> {
    Unique(NotIn(newList, oldList) + NotIn(oldList, newList))
  }

  lemma {:induction false} NotInIsDifference(a: seq<Capability>, b: seq<Capability>)
    ensures forall c :: c in NotIn(a, b) <==> c in a && c !in b
  {
    if a != [] {
      NotInIsDifference(a[1..], b);
      assert a == [a[0]] + a[1..];
    }
  }

  lemma {:induction false} UniqueKeepsElements(list: seq<Capability>)
    ensures forall c :: c in Unique(list) <==> c in list
    ensures forall i, j | 0 <= i < j < |Unique(list)| :: Unique(list)[i] != Unique(list)[j]
  {
    if list != [] {
      UniqueKeepsElements(list[..|list| - 1]);
      assert list == list[..|list| - 1] + [list[|list| - 1]];
    }
  }

  /** The capabilities that need attention are the symmetric difference of the two lists. */
  lemma AttentionIsDifference(newList: seq<Capability>, oldList: seq<Capability>)
    ensures forall c :: c in NeedAttention(newList, oldList) <==> (c in newList) != (c in oldList)
    ensures var needed := NeedAttention(newList, oldList);
            forall i, j | 0 <= i < j < |needed| :: needed[i] != needed[j]
  {
    NotInIsDifference(newList, oldList);
    NotInIsDifference(oldList, newList);
    UniqueKeepsElements(NotIn(newList, oldList) + NotIn(oldList, newList));
  }

  function FindEntity(list: seq<EntityCapability>, entityGroup: string, entityName: string): Option<EntityCapability> {
    if list == [] then None
    else if list[0].entityGroup == entityGroup && list[0].entityName == entityName then Some(list[0])
    else FindEntity(list[1..], entityGroup, entityName)
  }

  /** The capabilities a member has now for an entity: the first entry counts. */
  function CurrentFor(target: Option<Member>, entityGroup: string, entityName: string): seq<Capability> {
    if target.None? then [] else
      var found := FindEntity(target.value.entityCapabilities, entityGroup, entityName);
      if found.None? then [] else found.value.capabilities
  }

  predicate EntryAllowed(current: Member, target: Option<Member>, e: EntityCapability) {
    var needed := NeedAttention(e.capabilities, CurrentFor(target, e.entityGroup, e.entityName));
    var own := FindEntity(current.entityCapabilities, e.entityGroup, e.entityName);
    needed == [] || (own.Some? && forall c <- needed :: c in own.value.capabilities)
  }

  function GroupNow(target: Option<Member>): seq<Capability> {
    if target.Some? then target.value.groupCapabilities else []
  }

  predicate GroupAllowed(current: Member, needed: seq<Capability>) {
    forall c <- needed :: c in current.groupCapabilities
  }

  predicate GivesOnlyHeld(current: Member, target: Option<Member>, groupCaps: seq<Capability>,
                          entityCaps: seq<EntityCapability>)
  {
    && GroupAllowed(current, NeedAttention(groupCaps, GroupNow(target)))
    && (forall e <- entityCaps :: EntryAllowed(current, target, e))
  }

  /** The member a request is about; an invitation is about none. */
  function Target(members: Members, targetId: Option<UserId>): Option<Member> {
    if targetId.None? then None else Find(members, targetId.value)
  }

  /** Who may send the changes: admins, owners, and members who give and take only what they hold. */
  predicate MayGive(current: User, members: Members, groupCaps: seq<Capability>, entityCaps: seq<EntityCapability>,
                    targetId: Option<UserId>)
  {
    current.admin || OwnerIn(members, current.id)
    || (Find(members, current.id).Some?
        && GivesOnlyHeld(Find(members, current.id).value, Target(members, targetId), groupCaps, entityCaps))
  }

  /** The loop over the group capabilities that need attention. */
  method CheckGroupCapabilities(own: Member, groupCheck: seq<Capability>) returns (ok: bool)
    ensures ok <==> GroupAllowed(own, groupCheck)
  {
    for i := 0 to |groupCheck|
      invariant forall j | 0 <= j < i :: groupCheck[j] in own.groupCapabilities
    {
      var cap := groupCheck[i];
      if cap !in own.groupCapabilities {
        assert cap in groupCheck;
        return false;
      }
    }
    ok := true;
  }

  /** The body of the loop over the requested entity capabilities. */
  method CheckEntry(own: Member, target: Option<Member>, e: EntityCapability) returns (ok: bool)
    ensures ok <==> EntryAllowed(own, target, e)
  {
    var check := NeedAttention(e.capabilities, CurrentFor(target, e.entityGroup, e.entityName));
    if |check| == 0 {
      return true;
    }
    var ownEntity := FindEntity(own.entityCapabilities, e.entityGroup, e.entityName);
    ok := ownEntity.Some? && !exists c <- check :: c !in ownEntity.value.capabilities;
  }

  method CheckEntityCapabilities(own: Member, target: Option<Member>, entityCaps: seq<EntityCapability>)
    returns (ok: bool)
    ensures ok <==> forall e <- entityCaps :: EntryAllowed(own, target, e)
  {
    for i := 0 to |entityCaps|
      invariant forall j | 0 <= j < i :: EntryAllowed(own, target, entityCaps[j])
    {
      var allowed := CheckEntry(own, target, entityCaps[i]);
      if !allowed {
        assert entityCaps[i] in entityCaps;
        return false;
      }
    }
    ok := true;
  }

  method AssertUserDontGivingCapabilitiesDoesntHave(
    current: User, members: Members, groupCaps: seq<Capability>, entityCaps: seq<EntityCapability>,
    targetId: Option<UserId>
  ) returns (error: Option<Error>)
    ensures error.None? <==> MayGive(current, members, groupCaps, entityCaps, targetId)
    ensures error.Some? ==> error.value == Unauthorized
  {
    if current.admin {
      return None;
    }
    var found := Find(members, current.id);
    var target := Target(members, targetId);
    if found.None? {
      return Some(Unauthorized);
    }
    var own := found.value;
    if OWNER in own.groupCapabilities {
      return None;
    }
    var groupOk := CheckGroupCapabilities(own, NeedAttention(groupCaps, GroupNow(target)));
    if !groupOk {
      return Some(Unauthorized);
    }
    var entitiesOk := CheckEntityCapabilities(own, target, entityCaps);
    error := if entitiesOk then None else Some(Unauthorized);
  }

  /** `assertUserDontChangeGroupOwnerCapabilities`. */
  predicate MayChange(current: User, members: Members, targetId: UserId) {
    current.admin
    || (Find(members, current.id).Some? && Find(members, targetId).Some?
        && (OwnerIn(members, current.id) || !OwnerIn(members, targetId)))
  }

  /** `assertHasUserGroupCapability` with single capabilities as alternatives. */
  predicate HoldsOneOf(current: User, members: Members, alternatives: set<Capability>) {
    current.admin
    || exists m <- members :: m.userId == current.id && exists c <- m.groupCapabilities :: c in alternatives
  }

  predicate MayAdjust(current: User, members: Members) {
    HoldsOneOf(current, members, {OWNER, EDIT, EOG_ADJUST_CAPABILITIES})
  }

  /** `assertUserDontGivingCapabilitiesDoesntHave` for a request. */
  predicate HeldGuard(members: Members, r: Request) {
    MayGive(r.current, members, r.groupCaps, r.entityCaps, Some(r.target))
  }

  /** The whole request: three guards, then the update of the service. */
  function Serve(members: Members, r: Request): Result<Members, Error> {
    if !MayAdjust(r.current, members) then Err(Unauthorized)
    else if !MayChange(r.current, members, r.target) then Err(Unauthorized)
    else if !HeldGuard(members, r) then Err(Unauthorized)
    else Updated(members, r.target, r.groupCaps, r.entityCaps, Some(r.current))
  }

  method UpdateUserCapability(members: Members, r: Request) returns (result: Result<Members, Error>)
    ensures result == Serve(members, r)
  {
    if !MayAdjust(r.current, members) || !MayChange(r.current, members, r.target) {
      return Err(Unauthorized);
    }
    var error :=
      AssertUserDontGivingCapabilitiesDoesntHave(r.current, members, r.groupCaps, r.entityCaps, Some(r.target));
    if error.Some? {
      return Err(error.value);
    }
    result := Updated(members, r.target, r.groupCaps, r.entityCaps, Some(r.current));
  }

  /** The two lists differ only in capabilities of a third. */
  ghost predicate DiffersWithin(a: seq<Capability>, b: seq<Capability>, held: seq<Capability>) {
    forall c | (c in a) != (c in b) :: c in held
  }

  /** A requested entry differs from what the target has only in capabilities the requester holds for that entity. */
  ghost predicate EntryWithin(own: Member, target: Option<Member>, e: EntityCapability) {
    DiffersWithin(e.capabilities, CurrentFor(target, e.entityGroup, e.entityName),
                  CurrentFor(Some(own), e.entityGroup, e.entityName))
  }

  /**
   Which requests of a plain member are accepted: about another member who is no owner, and changing only
   capabilities the requester holds himself, for the group and in each listed entry. What happens to entities that
   the request leaves out is not looked at.
   */
  lemma AcceptedExactly(members: Members, r: Request)
    requires !r.current.admin && !OwnerIn(members, r.current.id) && Find(members, r.current.id).Some?
    ensures var own, target := Find(members, r.current.id).value, Find(members, r.target);
            Serve(members, r).Ok? <==>
              && (exists m <- members ::
                    m.userId == r.current.id && exists c <- m.groupCapabilities :: c == 1 || c == 4 || c == 7)
              && r.current.id != r.target
              && target.Some? && !IsOwner(target.value)
              && DiffersWithin(r.groupCaps, target.value.groupCapabilities, own.groupCapabilities)
              && (forall e <- r.entityCaps :: EntryWithin(own, target, e))
  {
    var own, target := Find(members, r.current.id).value, Find(members, r.target);
    FindFinds(members, r.target);
    AttentionIsDifference(r.groupCaps, GroupNow(target));
    forall e <- r.entityCaps
      ensures EntryAllowed(own, target, e) <==> EntryWithin(own, target, e)
    {
      EntryAllowedExactly(own, target, e);
    }
  }

  lemma EntryAllowedExactly(own: Member, target: Option<Member>, e: EntityCapability)
    ensures EntryAllowed(own, target, e) <==> EntryWithin(own, target, e)
  {
    AttentionIsDifference(e.capabilities, CurrentFor(target, e.entityGroup, e.entityName));
    var needed := NeedAttention(e.capabilities, CurrentFor(target, e.entityGroup, e.entityName));
    if needed != [] {
      var c := needed[0];
      assert c in needed;
    }
  }

  // ---------------------------------------------------------------- what an accepted request changes

  predicate Lists(r: Request, entityGroup: string, entityName: string) {
    FindEntity(r.entityCaps, entityGroup, entityName).Some?
  }

  /** An accepted request leaves the target with exactly the requested lists, and nobody else with a change. */
  lemma {:induction false} AfterServe(members: Members, r: Request)
    requires Serve(members, r).Ok?
    ensures var after := Serve(members, r).value;
            && Find(members, r.target).Some?
            && Find(after, r.target) ==
               Some(Member(Find(members, r.target).value.userId, r.groupCaps, r.entityCaps))
            && (forall u | u != r.target :: Find(after, u) == Find(members, u))
  {
    var i := FindIndex(members, r.target);
    var m := members[i].(groupCapabilities := r.groupCaps, entityCapabilities := r.entityCaps);
    forall u ensures Find(members[i := m], u) == if u == r.target then Some(m) else Find(members, u) {
      FindAfter(members, i, m, u);
    }
    FindFinds(members, r.target);
  }

  lemma {:induction false} FindAfter(members: Members, i: nat, m: Member, user: UserId)
    requires i < |members| && m.userId == members[i].userId && FindIndex(members, m.userId) == i
    ensures Find(members[i := m], user) == if user == m.userId then Some(m) else Find(members, user)
  {
    if i > 0 {
      FindAfter(members[1..], i - 1, m, user);
      assert members[i := m][1..] == members[1..][i - 1 := m];
    } else {
      assert members[i := m][1..] == members[1..];
    }
  }

  /** For every entity, the target's capabilities change only by capabilities the requester holds for it. */
  ghost predicate ChangesOnlyHeld(own: Member, before: Member, after: Member) {
    forall g, n ::
      DiffersWithin(CurrentFor(Some(after), g, n), CurrentFor(Some(before), g, n), CurrentFor(Some(own), g, n))
  }

  /** For every entity the request leaves out, the requester holds all that the target has. */
  ghost predicate HoldsAllOmitted(own: Member, before: Member, r: Request) {
    forall g, n | !Lists(r, g, n) ::
      forall c <- CurrentFor(Some(before), g, n) :: c in CurrentFor(Some(own), g, n)
  }

  /**
   The update replaces the whole list, so an accepted request of a plain member changes only what he holds if and
   only if he holds everything the target has for the entities that the request leaves out.
   */
  lemma OnlyHeldIffOmittedHeld(members: Members, r: Request)
    requires !r.current.admin && !OwnerIn(members, r.current.id) && Serve(members, r).Ok?
    ensures var own, before := Find(members, r.current.id), Find(members, r.target);
            var after := Find(Serve(members, r).value, r.target);
            && own.Some? && before.Some? && after.Some?
            && (ChangesOnlyHeld(own.value, before.value, after.value) <==> HoldsAllOmitted(own.value, before.value, r))
  {
    AfterServe(members, r);
    AcceptedExactly(members, r);
    var own, before := Find(members, r.current.id).value, Find(members, r.target).value;
    var after := Find(Serve(members, r).value, r.target).value;
    forall g, n
      ensures DiffersWithin(CurrentFor(Some(after), g, n), CurrentFor(Some(before), g, n), CurrentFor(Some(own), g, n))
              <==> Lists(r, g, n) || forall c <- CurrentFor(Some(before), g, n) :: c in CurrentFor(Some(own), g, n)
    {
      FindEntityFinds(r.entityCaps, g, n);
    }
  }

  /** All capabilities a list has for an entity, whichever of its entries they are in. */
  function AllFor(list: seq<EntityCapability>, entityGroup: string, entityName: string): set<Capability> {
    set e, c | e in list && e.entityGroup == entityGroup && e.entityName == entityName && c in e.capabilities :: c
  }

  /** What a request takes from the target without any guard looking at it: all that the first entry does not show. */
  function Unseen(before: Member, r: Request, entityGroup: string, entityName: string): set<Capability> {
    set c | c in AllFor(before.entityCapabilities, entityGroup, entityName)
            && c !in AllFor(r.entityCaps, entityGroup, entityName)
            && !(Lists(r, entityGroup, entityName) && c in CurrentFor(Some(before), entityGroup, entityName))
  }

  /** The capabilities of the one list and not of the other, over all entries for an entity, are among these. */
  ghost predicate AllWithin(a: Member, b: Member, entityGroup: string, entityName: string, held: seq<Capability>) {
    var all := AllFor(a.entityCapabilities, entityGroup, entityName);
    var other := AllFor(b.entityCapabilities, entityGroup, entityName);
    forall c | (c in all) != (c in other) :: c in held
  }

  /** The same where entries for one entity are repeated, counting all of them. */
  lemma OnlyHeldIffUnseenHeld(members: Members, r: Request)
    requires !r.current.admin && !OwnerIn(members, r.current.id) && Serve(members, r).Ok?
    ensures var own, before := Find(members, r.current.id), Find(members, r.target);
            var after := Find(Serve(members, r).value, r.target);
            && own.Some? && before.Some? && after.Some?
            && forall g, n ::
                 AllWithin(after.value, before.value, g, n, CurrentFor(own, g, n))
                 <==> forall c <- Unseen(before.value, r, g, n) :: c in CurrentFor(own, g, n)
  {
    AfterServe(members, r);
    AcceptedExactly(members, r);
    var own, before := Find(members, r.current.id).value, Find(members, r.target).value;
    var after := Find(Serve(members, r).value, r.target).value;
    forall g, n, c | (c in AllFor(r.entityCaps, g, n)) != (c in AllFor(before.entityCapabilities, g, n))
                     && c !in Unseen(before, r, g, n)
      ensures c in CurrentFor(Some(own), g, n)
    {
      SeenChangeIsHeld(own, before, r, g, n, c);
    }
  }

  lemma SeenChangeIsHeld(own: Member, before: Member, r: Request, g: string, n: string, c: Capability)
    requires forall e <- r.entityCaps :: EntryWithin(own, Some(before), e)
    requires (c in AllFor(r.entityCaps, g, n)) != (c in AllFor(before.entityCapabilities, g, n))
    requires c !in Unseen(before, r, g, n)
    ensures c in CurrentFor(Some(own), g, n)
  {
    if c in AllFor(r.entityCaps, g, n) {
      var e :| e in r.entityCaps && e.entityGroup == g && e.entityName == n && c in e.capabilities;
      FirstEntryCounts(before, g, n);
    } else {
      FindEntityFinds(r.entityCaps, g, n);
      var e := FindEntity(r.entityCaps, g, n).value;
      assert c !in e.capabilities;
    }
  }

  /** What a guard looked at, because the request lists the entity and the first entry shows it, is never unseen. */
  lemma GuardedIsSeen(before: Member, r: Request, e: EntityCapability, c: Capability)
    requires FindEntity(r.entityCaps, e.entityGroup, e.entityName) == Some(e)
    requires FindEntity(before.entityCapabilities, e.entityGroup, e.entityName) != None
    requires c in FindEntity(before.entityCapabilities, e.entityGroup, e.entityName).value.capabilities
    ensures c !in Unseen(before, r, e.entityGroup, e.entityName)
  {
  }

  lemma FirstEntryCounts(m: Member, g: string, n: string)
    ensures forall c <- CurrentFor(Some(m), g, n) :: c in AllFor(m.entityCapabilities, g, n)
  {
    FindEntityFinds(m.entityCapabilities, g, n);
  }

  /** A member without any entity capability deletes one of another member by leaving its entity out. */
  lemma OmittedEntityIsDeleted()
    ensures var owner := Member("o", [OWNER], []);
            var editor := Member("a", [EDIT], []);
            var other := Member("b", [], [EntityCapability("g", "n", [5])]);
            Serve([owner, editor, other], Request(User("a", false), "b", [], []))
            == Ok([owner, editor, other.(entityCapabilities := [])])
  {
    var owner := Member("o", [OWNER], []);
    var editor := Member("a", [EDIT], []);
    var other := Member("b", [], [EntityCapability("g", "n", [5])]);
    var members := [owner, editor, other];
    var r := Request(User("a", false), "b", [], []);
    assert members[1..] == [editor, other] && members[1..][1..] == [other];
    assert Find([other], "b") == Some(other) && FindIndex([other], "b") == 0;
    assert Find([editor, other], "b") == Some(other) && FindIndex([editor, other], "b") == 1;
    assert Find(members, "b") == Some(other) && FindIndex(members, "b") == 2;
    assert Find(members, "a") == Some(editor);
    assert editor in members && EDIT in editor.groupCapabilities && MayAdjust(r.current, members);
    AcceptedExactly(members, r);
    assert Serve(members, r).Ok?;
    assert members[2 := other.(entityCapabilities := [])] == [owner, editor, other.(entityCapabilities := [])];
  }

  /** `find`: the first entry for the entity, if there is one. */
  lemma {:induction false} FindEntityFinds(list: seq<EntityCapability>, entityGroup: string, entityName: string)
    ensures match FindEntity(list, entityGroup, entityName)
            case None => forall e <- list :: !(e.entityGroup == entityGroup && e.entityName == entityName)
            case Some(e) =>
              && e in list && e.entityGroup == entityGroup && e.entityName == entityName
              && exists i :: 0 <= i < |list| && list[i] == e
                             && forall j | 0 <= j < i ::
                                  !(list[j].entityGroup == entityGroup && list[j].entityName == entityName)
  {
    if list != [] {
      FindEntityFinds(list[1..], entityGroup, entityName);
      assert list == [list[0]] + list[1..];
      var rest := FindEntity(list[1..], entityGroup, entityName);
      if rest.Some? && !(list[0].entityGroup == entityGroup && list[0].entityName == entityName) {
        var i :| 0 <= i < |list[1..]| && list[1..][i] == rest.value
                 && forall j | 0 <= j < i ::
                      !(list[1..][j].entityGroup == entityGroup && list[1..][j].entityName == entityName);
        assert list[i + 1] == rest.value;
        assert forall j | 0 < j < i + 1 :: list[j] == list[1..][j - 1];
      }
    }
  }

  /** The sole owner of a group may demote himself: his request is accepted and leaves the group without an owner. */
  lemma SoleOwnerDemotesHimself()
    ensures var o := Member("o", [OWNER], []);
            var r := Request(User("o", false), "o", [], []);
            Sound([o]) && Serve([o], r) == Ok([o.(groupCapabilities := [])]) && !Sound([o.(groupCapabilities := [])])
  {
    var o := Member("o", [OWNER], []);
    assert o in [o] && OWNER in o.groupCapabilities;
    assert Find([o], "o") == Some(o) && FindIndex([o], "o") == 0;
    assert [o][0 := o.(groupCapabilities := [])] == [o.(groupCapabilities := [])];
  }
}
