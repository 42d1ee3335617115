/**
 Claiming an entity for a team (`ensureTeamOwnership`): an upsert that only inserts, followed by a read that
 verifies who owns the entity. Calls interleave, also with grants to and revocations from single users.
 */
module TeamOwnership {
  import opened Prelude
  import Groups = OwnershipGroups
  import opened Ownerships

  datatype Identity = Identity(entityGroup: string, entityName: string, entityId: string)

  /** An empty team is None. */
  datatype Claim = Claim(identity: Identity, team: Option<TeamId>, hasUsers: bool)

  function NewDoc(i: Identity, team: Option<TeamId>, users: seq<UserCapability>): Ownership {
    Ownership(i.entityGroup, i.entityName, Some(i.entityId), team, users)
  }

  /** The unique index on the identity makes the collection a map. */
  type Collection = map<Identity, Ownership>

  predicate ClaimOk(c: Claim) {
    && c.identity.entityGroup != "" && c.identity.entityName != "" && c.identity.entityId != ""
    && c.team.Some? && !c.hasUsers
  }

  /** `updateOne` with `$setOnInsert` and upsert; losing the race to another upsert is swallowed by the caller. */
  function OnUpsert(docs: Collection, c: Claim): Collection {
    if c.identity in docs then docs else docs[c.identity := NewDoc(c.identity, c.team, [])]
  }

  /** The verification by the read that follows. */
  function Verify(docs: Collection, c: Claim): Outcome {
    if c.identity in docs && docs[c.identity].team == c.team && docs[c.identity].userCapabilities == [] then Success
    else Conflict
  }

  /** A claim without interruption. */
  function OnEnsure(docs: Collection, c: Claim): (Collection, Outcome) {
    if ClaimOk(c) then (OnUpsert(docs, c), Verify(OnUpsert(docs, c), c)) else (docs, BadRequest)
  }

  datatype Outcome = Success | BadRequest | Conflict | Failed

  class OwnershipCollection {
    var docs: Collection

    constructor ()
      ensures docs == map[]
    {
      docs := map[];
    }

    method Upsert(c: Claim)
      modifies this
      ensures docs == OnUpsert(old(docs), c)
    {
      if c.identity !in docs {
        docs := docs[c.identity := NewDoc(c.identity, c.team, [])];
      }
    }

    /** A call that nobody interrupts. */
    method EnsureTeamOwnership(c: Claim) returns (r: Outcome)
      modifies this
      ensures (docs, r) == OnEnsure(old(docs), c)
    {
      if c.identity.entityGroup == "" || c.identity.entityName == "" || c.identity.entityId == "" || c.team.None?
         || c.hasUsers
      {
        return BadRequest;
      }
      Upsert(c);
      if c.identity !in docs || docs[c.identity].team != c.team || |docs[c.identity].userCapabilities| > 0 {
        return Conflict;
      }
      r := Success;
    }
  }

  // ---------------------------------------------------------------- interleaved calls

  datatype Phase = Claiming | Verifying | Done(outcome: Outcome)

  datatype Call = Call(claim: Claim, phase: Phase)

  datatype Session = Session(docs: Collection, calls: seq<Call>)

  datatype Event =
    | Begin(claim: Claim)
    | Advance(k: nat)
    | Fail(k: nat)
    | Grant(identity: Identity, grant: UserCapability)
    | Revoke(identity: Identity, user: Groups.UserId)
    | InsertPersonal(identity: Identity, grant: UserCapability)  // the entity is first registered for a user

  function Drop(users: seq<UserCapability>, user: Groups.UserId): seq<UserCapability> {
    if users == [] then [] else (if users[0].userId == user then [] else [users[0]]) + Drop(users[1..], user)
  }

  function WithUsers(docs: Collection, identity: Identity, users: seq<UserCapability>): Collection
    requires identity in docs
  {
    docs[identity := docs[identity].(userCapabilities := users)]
  }

  function SetPhase(s: Session, k: nat, phase: Phase): Session
    requires k < |s.calls|
  {
    s.(calls := s.calls[k := s.calls[k].(phase := phase)])
  }

  function Next(s: Session, e: Event): Session {
    match e
    case Begin(claim) => s.(calls := s.calls + [Call(claim, if ClaimOk(claim) then Claiming else Done(BadRequest))])
    case Fail(k) => if k < |s.calls| && !s.calls[k].phase.Done? then SetPhase(s, k, Done(Failed)) else s
    case Grant(identity, grant) =>
      if identity !in s.docs then s
      else s.(docs := WithUsers(s.docs, identity, s.docs[identity].userCapabilities + [grant]))
    case Revoke(identity, user) =>
      if identity !in s.docs then s
      else s.(docs := WithUsers(s.docs, identity, Drop(s.docs[identity].userCapabilities, user)))
    case InsertPersonal(identity, grant) =>
      if identity in s.docs then s else s.(docs := s.docs[identity := NewDoc(identity, None, [grant])])
    case Advance(k) =>
      if k >= |s.calls| then s else
        match s.calls[k].phase
        case Claiming => SetPhase(s, k, Verifying).(docs := OnUpsert(s.docs, s.calls[k].claim))
        case Verifying => SetPhase(s, k, Done(Verify(s.docs, s.calls[k].claim)))
        case Done(_) => s
  }

  function Replay(s: Session, run: seq<Event>): Session
    decreases |run|
  {
    if run == [] then s else Replay(Next(s, run[0]), run[1..])
  }

  ghost predicate CallOk(docs: Collection, c: Call) {
    && (c.phase.Verifying? ==> c.claim.identity in docs)
    && (c.phase == Done(Success) ==> c.claim.identity in docs && docs[c.claim.identity].team == c.claim.team)
  }

  ghost predicate Inv(s: Session) {
    forall c <- s.calls :: CallOk(s.docs, c)
  }

  /** No document disappears and no team is ever replaced. */
  ghost predicate TeamsKept(docs: Collection, docs': Collection) {
    forall i | i in docs :: i in docs' && docs'[i].team == docs[i].team
  }

  lemma NextKeepsInv(s: Session, e: Event)
    requires Inv(s)
    ensures Inv(Next(s, e)) && TeamsKept(s.docs, Next(s, e).docs)
  {
    var next := Next(s, e);
    forall c <- next.calls ensures CallOk(next.docs, c) {
      var i :| 0 <= i < |next.calls| && next.calls[i] == c;
      if i < |s.calls| {
        assert s.calls[i] in s.calls;
      }
    }
  }

  lemma {:induction false} EveryRunKeepsTeams(s: Session, run: seq<Event>)
    requires Inv(s)
    ensures Inv(Replay(s, run)) && TeamsKept(s.docs, Replay(s, run).docs)
    decreases |run|
  {
    if run != [] {
      NextKeepsInv(s, run[0]);
      EveryRunKeepsTeams(Next(s, run[0]), run[1..]);
    }
  }

  /** A step of the last call changes that call and the documents only. */
  lemma AdvanceLast(docs: Collection, calls: seq<Call>, c: Claim, phase: Phase)
    ensures Next(Session(docs, calls + [Call(c, phase)]), Advance(|calls|)) ==
            match phase
            case Claiming => Session(OnUpsert(docs, c), calls + [Call(c, Verifying)])
            case Verifying => Session(docs, calls + [Call(c, Done(Verify(docs, c)))])
            case Done(_) => Session(docs, calls + [Call(c, phase)])
  {
    assert forall next: Phase :: (calls + [Call(c, phase)])[|calls| := Call(c, next)] == calls + [Call(c, next)];
  }

  /** The uninterrupted claim is the run of its own steps. */
  lemma {:induction false} EnsureIsItsOwnRun(s: Session, c: Claim)
    ensures var (docs, outcome) := OnEnsure(s.docs, c);
            var n := |s.calls|;
            Replay(s, [Begin(c), Advance(n), Advance(n)]) == Session(docs, s.calls + [Call(c, Done(outcome))])
  {
    var n := |s.calls|;
    var phase := if ClaimOk(c) then Claiming else Done(BadRequest);
    AdvanceLast(s.docs, s.calls, c, phase);
    if ClaimOk(c) {
      AdvanceLast(OnUpsert(s.docs, c), s.calls, c, Verifying);
    }
    ReplayThree(s, Begin(c), Advance(n), Advance(n));
  }

  lemma ReplayThree(s: Session, a: Event, b: Event, c: Event)
    ensures Replay(s, [a, b, c]) == Next(Next(Next(s, a), b), c)
  {
    var last := Next(Next(Next(s, a), b), c);
    assert [a, b, c][1..] == [b, c] && [b, c][1..] == [c] && [c][1..] == [];
    assert Replay(last, []) == last;
    assert Replay(Next(Next(s, a), b), [c]) == last;
  }

  /**
   A claim without interruption is malformed if it leaves out the team or part of the identity or names users; it
   succeeds when the entity is new, or already owned by that team without any users; otherwise it is a conflict.
   */
  lemma ClaimOutcome(docs: Collection, c: Claim)
    ensures var i := c.identity;
            var malformed :=
              i.entityGroup == "" || i.entityName == "" || i.entityId == "" || c.team == None || c.hasUsers;
            var owned := i in docs && docs[i].team == c.team && |docs[i].userCapabilities| == 0;
            var (after, outcome) := OnEnsure(docs, c);
            && outcome == (if malformed then BadRequest else if i !in docs || owned then Success else Conflict)
            && (forall k | k in docs :: k in after && after[k] == docs[k])
            && (forall k | k in after && k !in docs :: k == i && !malformed)
            && (!malformed ==> i in after)
            && (i !in docs && !malformed ==>
                  after[i] == Ownership(i.entityGroup, i.entityName, Some(i.entityId), c.team, []))
  {
  }

  lemma {:induction false} DropDrops(users: seq<UserCapability>, user: Groups.UserId)
    ensures forall u :: u in Drop(users, user) <==> u in users && u.userId != user
  {
    if users != [] {
      DropDrops(users[1..], user);
      assert users == [users[0]] + users[1..];
    }
  }

  /** Grants and revocations change the users of an existing entity, registrations add a missing one without a team. */
  lemma OtherRequests(s: Session, identity: Identity, grant: UserCapability)
    ensures var granted := Next(s, Grant(identity, grant));
            var revoked := Next(s, Revoke(identity, grant.userId));
            var inserted := Next(s, InsertPersonal(identity, grant));
            && granted.calls == revoked.calls == inserted.calls == s.calls
            && (forall i | i in s.docs && i != identity ::
                  && i in granted.docs && i in revoked.docs && i in inserted.docs
                  && granted.docs[i] == revoked.docs[i] == inserted.docs[i] == s.docs[i])
            && (identity in s.docs ==>
                  && inserted == s
                  && granted.docs.Keys == revoked.docs.Keys == s.docs.Keys
                  && granted.docs[identity].userCapabilities == s.docs[identity].userCapabilities + [grant]
                  && (forall u :: u in revoked.docs[identity].userCapabilities <==>
                        u in s.docs[identity].userCapabilities && u.userId != grant.userId))
            && (identity !in s.docs ==>
                  && granted == revoked == s
                  && inserted.docs.Keys == s.docs.Keys + {identity}
                  && inserted.docs[identity].team == None && inserted.docs[identity].userCapabilities == [grant])
  {
    if identity in s.docs {
      DropDrops(s.docs[identity].userCapabilities, grant.userId);
    }
  }

  /** A database error ends the call it hits and nothing else. */
  lemma ErrorEndsTheCall(s: Session, k: nat)
    requires k < |s.calls| && !s.calls[k].phase.Done?
    ensures var after := Next(s, Fail(k));
            && after.docs == s.docs && |after.calls| == |s.calls|
            && after.calls[k] == Call(s.calls[k].claim, Done(Failed))
            && forall i | 0 <= i < |s.calls| && i != k :: after.calls[i] == s.calls[i]
  {
  }

  /** Two successful claims of one entity named the same team, whatever happened in between. */
  lemma OneTeamPerEntity(run: seq<Event>, i: nat, j: nat)
    requires var s := Replay(Session(map[], []), run);
             && i < |s.calls| && s.calls[i].phase == Done(Success)
             && j < |s.calls| && s.calls[j].phase == Done(Success)
             && s.calls[i].claim.identity == s.calls[j].claim.identity
    ensures var s := Replay(Session(map[], []), run);
            s.calls[i].claim.team == s.calls[j].claim.team
  {
    EveryRunKeepsTeams(Session(map[], []), run);
    var s := Replay(Session(map[], []), run);
    assert CallOk(s.docs, s.calls[i]) && CallOk(s.docs, s.calls[j]);
  }

  /** Once an entity is claimed, no continuation takes it from that team, and no other team's claim succeeds. */
  lemma FirstClaimStands(before: seq<Event>, after: seq<Event>, identity: Identity, k: nat)
    requires identity in Replay(Session(map[], []), before).docs
    requires var last := Replay(Replay(Session(map[], []), before), after);
             k < |last.calls| && last.calls[k].claim.identity == identity
    ensures var s := Replay(Session(map[], []), before);
            var last := Replay(s, after);
            && identity in last.docs
            && last.docs[identity].team == s.docs[identity].team
            && (last.calls[k].phase == Done(Success) ==> s.docs[identity].team == last.calls[k].claim.team)
  {
    EveryRunKeepsTeams(Session(map[], []), before);
    var s := Replay(Session(map[], []), before);
    EveryRunKeepsTeams(s, after);
    assert CallOk(Replay(s, after).docs, Replay(s, after).calls[k]);
  }
}
