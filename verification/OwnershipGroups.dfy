/**
 Members of an entity ownership group and the optimistic lock their changes go through. Every request reads the
 group in one step and writes it back in a later one, so requests interleave.
 */
module OwnershipGroups {
  import opened Prelude

  type UserId = string
  type GroupId = nat
  type Capability = int

  const OWNER: Capability := 1

  datatype EntityCapability = EntityCapability(entityGroup: string, entityName: string, capabilities: seq<Capability>)

  datatype Member = Member(
    userId: UserId,
    groupCapabilities: seq<Capability>,
    entityCapabilities: seq<EntityCapability>
  )

  type Members = seq<Member>

  /** The stored document; `version` is the `__v` field. */
  datatype Group = Group(members: Members, version: nat)

  datatype User = User(id: UserId, admin: bool)

  datatype Error = NotFound | Unauthorized | Conflict

  predicate IsOwner(m: Member) {
    OWNER in m.groupCapabilities
  }

  /** `find` by user id. */
  function Find(members: Members, user: UserId): Option<Member> {
    if members == [] then None
    else if members[0].userId == user then Some(members[0])
    else Find(members[1..], user)
  }

  /** `findIndex` by user id; |members| when there is none. */
  function FindIndex(members: Members, user: UserId): (i: nat)
    ensures i <= |members|
    ensures i < |members| ==> members[i].userId == user
    ensures forall j | 0 <= j < i :: members[j].userId != user
  {
    if members == [] || members[0].userId == user then 0 else 1 + FindIndex(members[1..], user)
  }

  function OwnerCount(members: Members): nat {
    if members == [] then 0 else (if IsOwner(members[0]) then 1 else 0) + OwnerCount(members[1..])
  }

  function Without(members: Members, user: UserId): Members {
    if members == [] then []
    else (if members[0].userId == user then [] else [members[0]]) + Without(members[1..], user)
  }

  predicate OwnerIn(members: Members, user: UserId) {
    var found := Find(members, user);
    found.Some? && IsOwner(found.value)
  }

  /** A request that comes from a non-admin about himself, who does not own the group. */
  predicate AboutHimself(members: Members, user: UserId, requester: Option<User>) {
    requester.Some? && !requester.value.admin && requester.value.id == user && !OwnerIn(members, requester.value.id)
  }

  /** The checks and the filter of `removeUserCapability`. */
  function Removed(members: Members, user: UserId, requester: Option<User>): Result<Members, Error> {
    if AboutHimself(members, user, requester) then Err(Unauthorized)
    else if |members| == 1 then Err(Unauthorized)
    else if OwnerIn(members, user) && OwnerCount(members) < 2 then Err(Unauthorized)
    else Ok(Without(members, user))
  }

  /** The checks and the assignments of `updateUserCapability`. */
  function Updated(members: Members, user: UserId, groupCaps: seq<Capability>, entityCaps: seq<EntityCapability>,
                   requester: Option<User>): Result<Members, Error> {
    var i := FindIndex(members, user);
    if AboutHimself(members, user, requester) then Err(Unauthorized)
    else if i == |members| then Err(NotFound)
    else Ok(members[i := members[i].(groupCapabilities := groupCaps, entityCapabilities := entityCaps)])
  }

  datatype Change =
    | Remove(user: UserId, requester: Option<User>)
    | Update(user: UserId, groupCaps: seq<Capability>, entityCaps: seq<EntityCapability>, requester: Option<User>)

  function Changed(members: Members, change: Change): Result<Members, Error> {
    match change
    case Remove(user, requester) => Removed(members, user, requester)
    case Update(user, groupCaps, entityCaps, requester) => Updated(members, user, groupCaps, entityCaps, requester)
  }

  type Store = map<GroupId, Group>

  /** The conditional update on `_id` and `__v`, and whether it modified anything. */
  function OnSave(s: Store, id: GroupId, expected: nat, members: Members): (Store, bool) {
    if id in s && s[id].version == expected then (s[id := Group(members, expected + 1)], true) else (s, false)
  }

  /** A change up to its write: the members to save, under the version that was read. */
  function OnRead(s: Store, id: GroupId, change: Change): Result<Group, Error> {
    if id !in s then Err(NotFound) else
      match Changed(s[id].members, change)
      case Ok(members) => Ok(Group(members, s[id].version))
      case Err(error) => Err(error)
  }

  function CreatedStore(s: Store, id: GroupId, creator: Member): Store {
    s[id := Group([creator.(groupCapabilities := [OWNER])], 0)]
  }

  /** A document whose array was only pushed to is saved by an atomic push that bumps the version unchecked. */
  function AddedStore(s: Store, id: GroupId, member: Member): Store
    requires id in s
  {
    s[id := Group(s[id].members + [member], s[id].version + 1)]
  }

  /** The collection of groups and the requests on it, cut at their awaits. */
  class GroupCollection {
    var groups: Store

    constructor ()
      ensures groups == map[]
    {
      groups := map[];
    }

    /**
     Up to the write: read the group, check, compute the members to save. A refusal is what the change would get in
     a serial execution; otherwise saving the result makes the serial step, unless the group was written meanwhile.
     */
    method PrepareChange(id: GroupId, change: Change) returns (r: Result<Group, Error>)
      ensures r == OnRead(groups, id, change)
      ensures r.Err? <==> SerialStep(groups, Did(id, change)).None?
      ensures r.Ok? ==> forall later: Store ::
                OnSave(later, id, r.value.version, r.value.members) ==
                if id in later && later[id].version == groups[id].version
                then (later[id := SerialStep(groups, Did(id, change)).value[id]], true) else (later, false)
    {
      if id !in groups {
        return Err(NotFound);
      }
      var group := groups[id];
      match Changed(group.members, change)
      case Ok(members) =>
        group := group.(members := members);
        r := Ok(group);
      case Err(e) =>
        r := Err(e);
    }

    method SaveUserCapabilitiesWithOptimisticLock(id: GroupId, group: Group) returns (error: Option<Error>)
      modifies this
      ensures (groups, error.None?) == OnSave(old(groups), id, group.version, group.members)
      ensures error.Some? ==> error.value == Conflict
    {
      if id in groups && groups[id].version == group.version {
        groups := groups[id := Group(group.members, group.version + 1)];
        error := None;
      } else {
        error := Some(Conflict);
      }
    }

    method PushMember(id: GroupId, member: Member)
      modifies this
      ensures groups == if id in old(groups) then AddedStore(old(groups), id, member) else old(groups)
    {
      if id in groups {
        groups := groups[id := Group(groups[id].members + [member], groups[id].version + 1)];
      }
    }
  }

  // ---------------------------------------------------------------- interleaved requests

  /** A change that was read and checked, and has not been written yet. */
  datatype Call = Call(id: GroupId, change: Change, snapshot: Group, result: Members)

  datatype Add = Add(id: GroupId, member: Member)

  /** What took effect, in order. */
  datatype Effect =
    | Created(id: GroupId, creator: Member)
    | Added(id: GroupId, member: Member)
    | Did(id: GroupId, change: Change)
    | Deleted(id: GroupId)

  datatype Session = Session(store: Store, used: set<GroupId>, calls: seq<Call>, adds: seq<Add>, log: seq<Effect>)

  const START := Session(map[], {}, [], [], [])

  datatype Event =
    | Create(id: GroupId, creator: Member)
    | Delete(id: GroupId)
    | ReadAdd(id: GroupId, member: Member)
    | CommitAdd(k: nat)
    | Read(id: GroupId, change: Change)
    | Commit(k: nat)

  function Next(t: Session, e: Event): Session {
    match e
    case Create(id, creator) =>
      if id in t.used then t
      else t.(store := CreatedStore(t.store, id, creator), used := t.used + {id}, log := t.log + [Created(id, creator)])
    case Delete(id) =>
      if id !in t.store then t else t.(store := t.store - {id}, log := t.log + [Deleted(id)])
    case ReadAdd(id, member) =>
      if id !in t.store || Find(t.store[id].members, member.userId).Some? then t
      else t.(adds := t.adds + [Add(id, member)])
    case CommitAdd(k) =>
      if k >= |t.adds| then t else
        var add := t.adds[k];
        var rest := t.(adds := t.adds[..k] + t.adds[k + 1..]);
        if add.id !in t.store then rest
        else rest.(store := AddedStore(t.store, add.id, add.member), log := t.log + [Added(add.id, add.member)])
    case Read(id, change) =>
      var r := OnRead(t.store, id, change);
      if r.Err? then t else t.(calls := t.calls + [Call(id, change, t.store[id], r.value.members)])
    case Commit(k) =>
      if k >= |t.calls| then t else
        var c := t.calls[k];
        var (store, saved) := OnSave(t.store, c.id, c.snapshot.version, c.result);
        if saved then t.(store := store, log := t.log + [Did(c.id, c.change)]) else t
  }

  function Replay(t: Session, run: seq<Event>): Session
    decreases |run|
  {
    if run == [] then t else Replay(Next(t, run[0]), run[1..])
  }

  ghost predicate CallOk(t: Session, c: Call) {
    && c.id in t.used
    && Changed(c.snapshot.members, c.change) == Ok(c.result)
    && (c.id in t.store ==> c.snapshot.version <= t.store[c.id].version)
    && (c.id in t.store && c.snapshot.version == t.store[c.id].version ==> c.snapshot.members == t.store[c.id].members)
  }

  ghost predicate Inv(t: Session) {
    && t.store.Keys <= t.used
    && (forall c <- t.calls :: CallOk(t, c))
  }

  lemma NextKeepsInv(t: Session, e: Event)
    requires Inv(t)
    ensures Inv(Next(t, e))
  {
    var next := Next(t, e);
    forall c <- next.calls ensures CallOk(next, c) {
      if c in t.calls {
        assert CallOk(t, c);
      }
    }
  }

  /** No lost update: a change that gets written replaces exactly the document it was computed from. */
  lemma CommitReplacesItsSnapshot(t: Session, k: nat)
    requires Inv(t) && k < |t.calls|
    requires Next(t, Commit(k)) != t
    ensures var c := t.calls[k];
            && c.id in t.store
            && t.store[c.id] == c.snapshot
            && Changed(t.store[c.id].members, c.change).Ok?
            && Next(t, Commit(k)).store[c.id].members == Changed(t.store[c.id].members, c.change).value
  {
    assert CallOk(t, t.calls[k]);
  }

  /** The effects applied one at a time, each read, checked and written at once; None if one would be refused. */
  function Serial(log: seq<Effect>): Option<Store> {
    if log == [] then Some(map[]) else
      var s := Serial(log[..|log| - 1]);
      if s.None? then None else SerialStep(s.value, log[|log| - 1])
  }

  function SerialStep(s: Store, effect: Effect): Option<Store> {
    match effect
    case Created(id, creator) => if id in s then None else Some(CreatedStore(s, id, creator))
    case Added(id, member) => if id in s then Some(AddedStore(s, id, member)) else None
    case Deleted(id) => if id in s then Some(s - {id}) else None
    case Did(id, change) =>
      if id !in s then None else
        match Changed(s[id].members, change)
        case Ok(members) => Some(s[id := Group(members, s[id].version + 1)])
        case Err(_) => None
  }

  /** Reading and saving at once is one serial step, and the change is refused exactly when that step is. */
  lemma ReadThenSaveIsSerial(s: Store, id: GroupId, change: Change)
    ensures match OnRead(s, id, change)
            case Ok(g) => SerialStep(s, Did(id, change)).Some?
                          && OnSave(s, id, g.version, g.members) == (SerialStep(s, Did(id, change)).value, true)
            case Err(_) => SerialStep(s, Did(id, change)).None?
  {
  }

  lemma OneMoreEffect(log: seq<Effect>, s: Store, effect: Effect)
    requires Serial(log) == Some(s)
    ensures Serial(log + [effect]) == SerialStep(s, effect)
  {
    assert (log + [effect])[..|log|] == log;
  }

  lemma CommitIsSerial(t: Session, k: nat)
    requires Inv(t) && Serial(t.log) == Some(t.store) && k < |t.calls|
    ensures Serial(Next(t, Commit(k)).log) == Some(Next(t, Commit(k)).store)
  {
    var c := t.calls[k];
    if Next(t, Commit(k)) != t {
      CommitReplacesItsSnapshot(t, k);
      OneMoreEffect(t.log, t.store, Did(c.id, c.change));
    }
  }

  lemma CreateIsSerial(t: Session, id: GroupId, creator: Member)
    requires Inv(t) && Serial(t.log) == Some(t.store)
    ensures Serial(Next(t, Create(id, creator)).log) == Some(Next(t, Create(id, creator)).store)
  {
    OneMoreEffect(t.log, t.store, Created(id, creator));
  }

  lemma DeleteIsSerial(t: Session, id: GroupId)
    requires Serial(t.log) == Some(t.store)
    ensures Serial(Next(t, Delete(id)).log) == Some(Next(t, Delete(id)).store)
  {
    OneMoreEffect(t.log, t.store, Deleted(id));
  }

  lemma AddIsSerial(t: Session, k: nat)
    requires Serial(t.log) == Some(t.store) && k < |t.adds|
    ensures Serial(Next(t, CommitAdd(k)).log) == Some(Next(t, CommitAdd(k)).store)
  {
    OneMoreEffect(t.log, t.store, Added(t.adds[k].id, t.adds[k].member));
  }

  lemma NextIsSerial(t: Session, e: Event)
    requires Inv(t) && Serial(t.log) == Some(t.store)
    ensures Serial(Next(t, e).log) == Some(Next(t, e).store)
  {
    match e
    case Create(id, creator) => CreateIsSerial(t, id, creator);
    case Delete(id) => DeleteIsSerial(t, id);
    case CommitAdd(k) =>
      if k < |t.adds| {
        AddIsSerial(t, k);
      }
    case Commit(k) =>
      if k < |t.calls| {
        CommitIsSerial(t, k);
      }
    case ReadAdd(_, _) =>
      assert Next(t, e).log == t.log && Next(t, e).store == t.store;
    case Read(_, _) =>
      assert Next(t, e).log == t.log && Next(t, e).store == t.store;
  }

  /** Every interleaving has the same outcome as the serial execution of its effects, in which no check fails. */
  lemma {:induction false} EveryRunIsSerial(t: Session, run: seq<Event>)
    requires Inv(t) && Serial(t.log) == Some(t.store)
    ensures var last := Replay(t, run);
            Inv(last) && Serial(last.log) == Some(last.store)
    decreases |run|
  {
    if run != [] {
      NextKeepsInv(t, run[0]);
      NextIsSerial(t, run[0]);
      EveryRunIsSerial(Next(t, run[0]), run[1..]);
    }
  }

  lemma Serializable(run: seq<Event>)
    ensures Serial(Replay(START, run).log) == Some(Replay(START, run).store)
  {
    EveryRunIsSerial(START, run);
  }

  // ---------------------------------------------------------------- requests served without interruption

  lemma ReplayPair(t: Session, a: Event, b: Event)
    ensures Replay(t, [a, b]) == Next(Next(t, a), b)
  {
    assert [a, b][1..] == [b] && [b][1..] == [];
    assert Replay(Next(Next(t, a), b), []) == Next(Next(t, a), b);
  }

  /** A new group belongs to its creator alone, who owns it; a deleted one is gone; no other group is touched. */
  lemma CreateAndDelete(t: Session, id: GroupId, creator: Member)
    requires id !in t.used && id !in t.store
    ensures var created := Next(t, Create(id, creator));
            var deleted := Next(created, Delete(id));
            && id in created.store && |created.store[id].members| == 1
            && created.store[id].members[0].userId == creator.userId
            && created.store[id].members[0].groupCapabilities == [1]
            && (forall i | i in t.store :: i in created.store && created.store[i] == t.store[i])
            && deleted.store == t.store
  {
  }

  /** An addition that nobody interrupts appends a new member and leaves a group alone that has him. */
  lemma {:induction false} AddIsServed(t: Session, id: GroupId, member: Member)
    requires id in t.store
    ensures var after := Replay(t, [ReadAdd(id, member), CommitAdd(|t.adds|)]);
            var g := t.store[id];
            && after.adds == t.adds
            && after.store == if exists m <- g.members :: m.userId == member.userId then t.store
                              else t.store[id := Group(g.members + [member], g.version + 1)]
  {
    FindFinds(t.store[id].members, member.userId);
    ReplayPair(t, ReadAdd(id, member), CommitAdd(|t.adds|));
    var add := Add(id, member);
    assert (t.adds + [add])[..|t.adds|] + (t.adds + [add])[|t.adds| + 1..] == t.adds;
  }

  /** A removal or update that nobody interrupts is its serial step, or changes nothing when it is refused. */
  lemma ChangeIsServed(t: Session, id: GroupId, change: Change)
    ensures var served := SerialStep(t.store, Did(id, change));
            Replay(t, [Read(id, change), Commit(|t.calls|)]).store == if served.Some? then served.value else t.store
  {
    ReplayPair(t, Read(id, change), Commit(|t.calls|));
    ReadThenSaveIsSerial(t.store, id, change);
    var r := OnRead(t.store, id, change);
    if r.Ok? {
      var c := Call(id, change, t.store[id], r.value.members);
      assert Next(t, Read(id, change)).calls == t.calls + [c] && (t.calls + [c])[|t.calls|] == c;
    }
  }

  /** A serial history creates only new groups, and adds to and deletes only existing ones. */
  lemma SerialStepsFit(s: Store, id: GroupId, member: Member)
    ensures SerialStep(s, Created(id, member)) == None <==> id in s
    ensures SerialStep(s, Added(id, member)) == None <==> id !in s
    ensures SerialStep(s, Deleted(id)) == None <==> id !in s
  {
  }

  /** One more event happens to what the others left. */
  lemma {:induction false} OneMoreEvent(t: Session, run: seq<Event>, e: Event)
    ensures Replay(t, run + [e]) == Next(Replay(t, run), e)
    decreases |run|
  {
    if run == [] {
      assert run + [e] == [e] && [e][1..] == [];
      assert Replay(Next(t, e), []) == Next(t, e);
    } else {
      ConcatHead(run, [e]);
      OneMoreEvent(Next(t, run[0]), run[1..], e);
    }
  }

  // ---------------------------------------------------------------- sound groups

  ghost predicate Distinct(members: Members) {
    forall i, j | 0 <= i < j < |members| :: members[i].userId != members[j].userId
  }

  ghost predicate HasOwner(members: Members) {
    exists m <- members :: IsOwner(m)
  }

  /** Every user at most once, and someone who owns the group; so the group is never empty. */
  ghost predicate Sound(members: Members) {
    Distinct(members) && HasOwner(members)
  }

  lemma {:induction false} FindFinds(members: Members, user: UserId)
    ensures Find(members, user).None? <==> forall m <- members :: m.userId != user
    ensures var found := Find(members, user); found.Some? ==> found.value in members && found.value.userId == user
    ensures var i := FindIndex(members, user); Find(members, user) == if i < |members| then Some(members[i]) else None
  {
    if members != [] {
      FindFinds(members[1..], user);
      assert members == [members[0]] + members[1..];
    }
  }

  lemma {:induction false} WithoutIsFilter(members: Members, user: UserId)
    ensures forall m :: m in Without(members, user) <==> m in members && m.userId != user
  {
    if members != [] {
      WithoutIsFilter(members[1..], user);
      assert members == [members[0]] + members[1..];
    }
  }

  lemma {:induction false} WithoutKeepsDistinct(members: Members, user: UserId)
    requires Distinct(members)
    ensures Distinct(Without(members, user))
  {
    if members != [] {
      var tail := members[1..];
      assert forall i | 0 <= i < |tail| :: tail[i] == members[i + 1];
      WithoutKeepsDistinct(tail, user);
      WithoutIsFilter(tail, user);
      var rest := Without(tail, user);
      forall i | 0 <= i < |rest| ensures rest[i].userId != members[0].userId {
        assert rest[i] in tail;
      }
    }
  }

  lemma {:induction false} TwoOwners(members: Members, user: UserId)
    requires Distinct(members) && OwnerCount(members) >= 2
    ensures exists m <- members :: IsOwner(m) && m.userId != user
  {
    var first, tail := members[0], members[1..];
    assert forall i | 0 <= i < |tail| :: tail[i] == members[i + 1];
    if IsOwner(first) && first.userId != user {
      assert first in members;
    } else if IsOwner(first) {
      OwnerExists(tail);
      var i :| 0 <= i < |tail| && IsOwner(tail[i]);
      assert members[i + 1] in members && first.userId != members[i + 1].userId;
    } else {
      TwoOwners(tail, user);
      var m :| m in tail && IsOwner(m) && m.userId != user;
      assert m in members;
    }
  }

  lemma {:induction false} OwnerExists(members: Members)
    ensures OwnerCount(members) > 0 <==> HasOwner(members)
  {
    if members != [] {
      OwnerExists(members[1..]);
      assert members == [members[0]] + members[1..];
    }
  }

  lemma {:induction false} TwoOwnersCount(members: Members, i: nat, j: nat)
    requires i < j < |members| && IsOwner(members[i]) && IsOwner(members[j])
    ensures OwnerCount(members) >= 2
  {
    if i > 0 {
      TwoOwnersCount(members[1..], i - 1, j - 1);
    } else {
      assert members[1..][j - 1] in members[1..];
      OwnerExists(members[1..]);
    }
  }

  /** In a sound group a member without admin role can leave exactly when he owns it together with someone else. */
  lemma LeavingNeedsASecondOwner(members: Members, user: UserId)
    requires Sound(members)
    ensures Removed(members, user, Some(User(user, false))).Ok? <==>
            && (exists m <- members :: IsOwner(m) && m.userId == user)
            && (exists m <- members :: IsOwner(m) && m.userId != user)
  {
    FindFinds(members, user);
    if Removed(members, user, Some(User(user, false))).Ok? {
      TwoOwners(members, user);
    }
    if (exists m <- members :: IsOwner(m) && m.userId == user)
       && (exists m <- members :: IsOwner(m) && m.userId != user)
    {
      var i :| 0 <= i < |members| && IsOwner(members[i]) && members[i].userId == user;
      var j :| 0 <= j < |members| && IsOwner(members[j]) && members[j].userId != user;
      assert FindIndex(members, user) == i;
      if i < j {
        TwoOwnersCount(members, i, j);
      } else {
        TwoOwnersCount(members, j, i);
      }
    }
  }

  /** An accepted removal leaves a sound group behind. */
  lemma RemovalKeepsSound(members: Members, user: UserId, requester: Option<User>)
    requires Sound(members) && Removed(members, user, requester).Ok?
    ensures Sound(Removed(members, user, requester).value)
  {
    WithoutIsFilter(members, user);
    WithoutKeepsDistinct(members, user);
    FindFinds(members, user);
    var m :| m in members && IsOwner(m);
    if m.userId == user {
      var i :| 0 <= i < |members| && members[i] == m;
      assert FindIndex(members, user) == i;
      assert OwnerIn(members, user);
      TwoOwners(members, user);
      m :| m in members && IsOwner(m) && m.userId != user;
    }
    assert m in Without(members, user);
  }

  lemma {:induction false} FindWithout(members: Members, user: UserId, u: UserId)
    ensures Find(Without(members, user), u) == if u == user then None else Find(members, u)
  {
    if members != [] {
      FindWithout(members[1..], user, u);
      var rest := Without(members[1..], user);
      assert ([members[0]] + rest)[1..] == rest && [] + rest == rest;
    }
  }

  /** An accepted removal takes all entries of the user away and leaves everybody else as he was. */
  lemma RemovalRemoves(members: Members, user: UserId, requester: Option<User>)
    requires Removed(members, user, requester).Ok?
    ensures var after := Removed(members, user, requester).value;
            && (forall u :: Find(after, u) == if u == user then None else Find(members, u))
            && (forall m :: m in after <==> m in members && m.userId != user)
  {
    WithoutIsFilter(members, user);
    forall u ensures Find(Without(members, user), u) == if u == user then None else Find(members, u) {
      FindWithout(members, user, u);
    }
  }

  /** Without a requester, by an admin or about somebody else: anyone goes but the last member and the sole owner. */
  lemma RemovingOthers(members: Members, user: UserId, requester: Option<User>)
    requires Sound(members)
    requires requester.None? || requester.value.admin || requester.value.id != user
    ensures Removed(members, user, requester).Ok? <==>
            |members| > 1 && exists m <- members :: IsOwner(m) && m.userId != user
  {
    FindFinds(members, user);
    if OwnerIn(members, user) {
      var i := FindIndex(members, user);
      if exists m <- members :: IsOwner(m) && m.userId != user {
        var j :| 0 <= j < |members| && IsOwner(members[j]) && members[j].userId != user;
        TwoOwnersCount(members, if i < j then i else j, if i < j then j else i);
      } else if OwnerCount(members) >= 2 {
        TwoOwners(members, user);
      }
    } else {
      var j :| 0 <= j < |members| && IsOwner(members[j]);
      assert members[j].userId == user ==> FindIndex(members, user) == j;
    }
  }

  /** The update takes OWNER away from the one member who has it. */
  ghost predicate DemotesSoleOwner(members: Members, user: UserId, groupCaps: seq<Capability>) {
    OWNER !in groupCaps && forall m <- members :: IsOwner(m) ==> m.userId == user
  }

  /** An accepted update keeps the group sound unless it demotes the sole owner, which an owner may do to himself. */
  lemma UpdateKeepsSound(members: Members, user: UserId, groupCaps: seq<Capability>,
                         entityCaps: seq<EntityCapability>, requester: Option<User>)
    requires Sound(members) && Updated(members, user, groupCaps, entityCaps, requester).Ok?
    ensures Sound(Updated(members, user, groupCaps, entityCaps, requester).value) <==>
            !DemotesSoleOwner(members, user, groupCaps)
    ensures Distinct(Updated(members, user, groupCaps, entityCaps, requester).value)
  {
    var i := FindIndex(members, user);
    var after := Updated(members, user, groupCaps, entityCaps, requester).value;
    assert forall j | 0 <= j < |after| && j != i :: after[j] == members[j] && after[j].userId != user;
    if OWNER in groupCaps {
      assert after[i] in after;
    } else {
      forall m | m in members && IsOwner(m) && m.userId != user ensures m in after {
        var j :| 0 <= j < |members| && members[j] == m;
        assert after[j] == m;
      }
      forall m | m in after && IsOwner(m) ensures m in members && m.userId != user {
        var j :| 0 <= j < |after| && after[j] == m;
        assert j != i;
      }
    }
  }

  ghost predicate AllSound(s: Store) {
    forall id | id in s :: Sound(s[id].members)
  }

  /** The document is still the version the call read, so its write goes through. */
  predicate Goes(s: Store, c: Call) {
    c.id in s && s[c.id].version == c.snapshot.version
  }

  /** The two ways a write can spoil a group: adding a user who was added meanwhile, and demoting the sole owner. */
  ghost predicate Spoils(t: Session, e: Event) {
    || (e.CommitAdd? && e.k < |t.adds| && t.adds[e.k].id in t.store
        && Find(t.store[t.adds[e.k].id].members, t.adds[e.k].member.userId).Some?)
    || (e.Commit? && e.k < |t.calls| && Goes(t.store, t.calls[e.k]) && t.calls[e.k].change.Update?
        && DemotesSoleOwner(t.store[t.calls[e.k].id].members, t.calls[e.k].change.user, t.calls[e.k].change.groupCaps))
  }

  lemma AddKeepsSound(members: Members, member: Member)
    requires Sound(members)
    ensures Sound(members + [member]) <==> Find(members, member.userId).None?
  {
    FindFinds(members, member.userId);
    var after := members + [member];
    var m :| m in members && IsOwner(m);
    assert m in after;
    if Find(members, member.userId).Some? {
      var i :| 0 <= i < |members| && members[i].userId == member.userId;
      assert after[i].userId == after[|members|].userId;
    } else {
      assert forall i | 0 <= i < |members| :: members[i] in members;
    }
  }

  lemma StepKeepsSound(t: Session, e: Event)
    requires Inv(t) && AllSound(t.store)
    ensures AllSound(Next(t, e).store) <==> !Spoils(t, e)
  {
    var next := Next(t, e);
    match e
    case Create(id, creator) =>
      if next.store != t.store {
        assert creator.(groupCapabilities := [OWNER]) in next.store[id].members;
      }
    case CommitAdd(k) =>
      if k < |t.adds| && t.adds[k].id in t.store {
        AddKeepsSound(t.store[t.adds[k].id].members, t.adds[k].member);
        assert next.store[t.adds[k].id].members == t.store[t.adds[k].id].members + [t.adds[k].member];
      }
    case Commit(k) =>
      if next != t {
        var c := t.calls[k];
        CommitReplacesItsSnapshot(t, k);
        var members := t.store[c.id].members;
        if c.change.Remove? {
          RemovalKeepsSound(members, c.change.user, c.change.requester);
        } else {
          UpdateKeepsSound(members, c.change.user, c.change.groupCaps, c.change.entityCaps, c.change.requester);
        }
        assert next.store[c.id].members == Changed(members, c.change).value;
        assert forall id | id in t.store && id != c.id :: next.store[id] == t.store[id];
      }
    case _ =>
  }

  ghost predicate SoundThroughout(t: Session, run: seq<Event>)
    decreases |run|
  {
    AllSound(t.store) && (run != [] ==> SoundThroughout(Next(t, run[0]), run[1..]))
  }

  ghost predicate NeverSpoils(t: Session, run: seq<Event>)
    decreases |run|
  {
    run != [] ==> !Spoils(t, run[0]) && NeverSpoils(Next(t, run[0]), run[1..])
  }

  /**
   In every interleaving of creations, additions, removals, updates and deletions all groups keep distinct members
   and an owner, if and only if no addition is overtaken by one of the same user and no sole owner is demoted.
   */
  lemma {:induction false} SoundIffNeverSpoiled(t: Session, run: seq<Event>)
    requires Inv(t) && AllSound(t.store)
    ensures SoundThroughout(t, run) <==> NeverSpoils(t, run)
    decreases |run|
  {
    if run != [] {
      StepKeepsSound(t, run[0]);
      NextKeepsInv(t, run[0]);
      if AllSound(Next(t, run[0]).store) {
        SoundIffNeverSpoiled(Next(t, run[0]), run[1..]);
      }
    }
  }

  /** Additions one at a time: none is read while another waits for its write. */
  predicate SerialAdds(t: Session, run: seq<Event>)
    decreases |run|
  {
    run != [] ==> (run[0].ReadAdd? ==> t.adds == []) && SerialAdds(Next(t, run[0]), run[1..])
  }

  predicate NoUpdates(run: seq<Event>) {
    forall e <- run :: e.Read? ==> e.change.Remove?
  }

  ghost predicate AddsAreNew(t: Session) {
    && |t.adds| <= 1
    && (forall a <- t.adds ::
          a.id in t.used && (a.id in t.store ==> Find(t.store[a.id].members, a.member.userId).None?))
    && (forall c <- t.calls :: c.change.Remove?)
  }

  lemma NextKeepsAddsNew(t: Session, e: Event)
    requires Inv(t) && AddsAreNew(t)
    requires e.ReadAdd? ==> t.adds == []
    requires e.Read? ==> e.change.Remove?
    ensures AddsAreNew(Next(t, e)) && !Spoils(t, e)
  {
    var next := Next(t, e);
    if e.Commit? && next != t {
      var c := t.calls[e.k];
      CommitReplacesItsSnapshot(t, e.k);
      WithoutIsFilter(t.store[c.id].members, c.change.user);
      forall a <- next.adds | a.id in next.store ensures Find(next.store[a.id].members, a.member.userId).None? {
        FindFinds(t.store[a.id].members, a.member.userId);
        FindFinds(next.store[a.id].members, a.member.userId);
      }
    }
  }

  /** So creations, additions one at a time and concurrent removals always leave distinct members and an owner. */
  lemma {:induction false} SerialAddsAreSafe(t: Session, run: seq<Event>)
    requires Inv(t) && AllSound(t.store) && AddsAreNew(t)
    requires SerialAdds(t, run) && NoUpdates(run)
    ensures SoundThroughout(t, run)
    decreases |run|
  {
    if run != [] {
      assert run[0] in run;
      NextKeepsAddsNew(t, run[0]);
      StepKeepsSound(t, run[0]);
      NextKeepsInv(t, run[0]);
      assert forall e <- run[1..] :: e in run;
      SerialAddsAreSafe(Next(t, run[0]), run[1..]);
    }
  }

  /** Two concurrent additions of one user both pass the check and both get pushed. */
  lemma ConcurrentAddsDuplicate(t: Session, id: GroupId, member: Member)
    requires id in t.store && t.adds == [] && Find(t.store[id].members, member.userId).None?
    ensures var t1 := Next(Next(t, ReadAdd(id, member)), ReadAdd(id, member));
            var t2 := Next(Next(t1, CommitAdd(0)), CommitAdd(0));
            id in t2.store && t2.store[id].members == t.store[id].members + [member, member]
  {
    var t1 := Next(Next(t, ReadAdd(id, member)), ReadAdd(id, member));
    assert t1.adds == [Add(id, member), Add(id, member)];
    assert Next(t1, CommitAdd(0)).adds == [Add(id, member)];
    assert t.store[id].members + [member] + [member] == t.store[id].members + [member, member];
  }
}
