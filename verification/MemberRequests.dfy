/**
 Requests of plain members on one group - capability updates, removals and invitations - and what they can bring
 about. Every guard reads the group anew, every write comes later, and invitations are accepted at any time.
 */
module MemberRequests {
  import opened Prelude
  import opened OwnershipGroups
  import opened CapabilityGuards

  datatype Action =
    | Change(r: Request)
    | Dismiss(current: User, target: UserId)
    | Invite(current: User, member: Member, earlier: bool)  // `earlier`: an invitation under that name is found

  function Requester(a: Action): User {
    if a.Change? then a.r.current else a.current
  }

  /** The guards passed so far; after the last one only the write is left. */
  datatype Stage = Asked | Allowed | Touching | Cleared | Finished

  datatype Pending = Pending(action: Action, stage: Stage)

  /** `invitations` are stored, `joins` are acceptances that have read the group and not written it yet. */
  datatype Traffic = Traffic(members: Members, pending: seq<Pending>, invitations: seq<Member>, joins: seq<Member>)

  datatype Event =
    | Ask(action: Action)
    | Advance(k: nat)
    | Accept(k: nat)
    | Join(k: nat)
    | Withdraw(k: nat)  // an invitation is deleted: used, refused or removed

  /** The first guard, `assertHasUserGroupCapability`. */
  predicate MayAsk(members: Members, a: Action) {
    match a
    case Change(r) => MayAdjust(r.current, members)
    case Dismiss(current, _) => HoldsOneOf(current, members, {OWNER, EDIT, EOG_ADJUST_MEMBERS})
    case Invite(current, _, _) => HoldsOneOf(current, members, {OWNER, EOG_ADJUST_MEMBERS, EOG_ADJUST_CAPABILITIES})
  }

  /** The next stage of a request that finds the group as it is now. */
  function NextStage(members: Members, p: Pending): Stage {
    match (p.stage, p.action)
    case (Asked, _) => if MayAsk(members, p.action) then Allowed else Finished
    case (Allowed, Change(r)) => if MayChange(r.current, members, r.target) then Touching else Finished
    case (Allowed, Dismiss(current, target)) => if MayChange(current, members, target) then Cleared else Finished
    case (Allowed, Invite(current, m, _)) =>
      if MayGive(current, members, m.groupCapabilities, m.entityCapabilities, None) then Cleared else Finished
    case (Touching, Change(r)) => if HeldGuard(members, r) then Cleared else Finished
    case _ => Finished
  }

  /** The write at the end; by the optimistic lock it replaces the very document it was computed from. */
  function Written(members: Members, p: Pending): Members {
    var result := match p.action
      case Change(r) => Updated(members, r.target, r.groupCaps, r.entityCaps, Some(r.current))
      case Dismiss(current, target) => Removed(members, target, Some(current))
      case Invite(_, _, _) => Ok(members);
    if p.stage == Cleared && result.Ok? then result.value else members
  }

  /** `addUserCapabilityInvite`: nobody invites himself, a member, or twice. */
  function Invited(members: Members, p: Pending): seq<Member> {
    if p.stage == Cleared && p.action.Invite? && p.action.member.userId != p.action.current.id
       && Find(members, p.action.member.userId).None? && !p.action.earlier
    then [p.action.member] else []
  }

  function DropAt<T>(items: seq<T>, k: nat): seq<T> {
    if k < |items| then items[..k] + items[k + 1..] else items
  }

  function Next(s: Traffic, e: Event): Traffic {
    match e
    case Ask(action) => s.(pending := s.pending + [Pending(action, Asked)])
    case Advance(k) =>
      if k >= |s.pending| then s else
        var p := s.pending[k];
        s.(members := Written(s.members, p),
           pending := s.pending[k := p.(stage := NextStage(s.members, p))],
           invitations := s.invitations + Invited(s.members, p))
    case Accept(k) =>
      if k < |s.invitations| && Find(s.members, s.invitations[k].userId).None?
      then s.(joins := s.joins + [s.invitations[k]]) else s
    case Join(k) =>
      if k < |s.joins| then s.(members := s.members + [s.joins[k]], joins := DropAt(s.joins, k)) else s
    case Withdraw(k) => s.(invitations := DropAt(s.invitations, k))
  }

  function Replay(s: Traffic, run: seq<Event>): Traffic
    decreases |run|
  {
    if run == [] then s else Replay(Next(s, run[0]), run[1..])
  }

  // ---------------------------------------------------------------- bounds

  /** All group capabilities anyone holds. */
  function GroupUnion(members: Members): set<Capability> {
    set m, c | m in members && c in m.groupCapabilities :: c
  }

  /** All capabilities anyone holds for one entity. */
  function EntityUnion(members: Members, entityGroup: string, entityName: string): set<Capability> {
    set m, e, c | m in members && e in m.entityCapabilities
                  && e.entityGroup == entityGroup && e.entityName == entityName && c in e.capabilities :: c
  }

  /** No capability beyond those of `start` for the group or an entity, and the same owners. */
  ghost predicate Bounded(start: Members, members: Members) {
    && GroupUnion(members) <= GroupUnion(start)
    && (forall g, n :: EntityUnion(members, g, n) <= EntityUnion(start, g, n))
    && (forall u :: OwnerIn(members, u) <==> OwnerIn(start, u))
  }

  /** The capabilities all existed at the start, and ownership is not among them. */
  ghost predicate Harmless(start: Members, groupCaps: seq<Capability>, entityCaps: seq<EntityCapability>) {
    && OWNER !in groupCaps
    && (forall c <- groupCaps :: c in GroupUnion(start))
    && (forall e <- entityCaps :: forall c <- e.capabilities :: c in EntityUnion(start, e.entityGroup, e.entityName))
  }

  ghost predicate HarmlessMember(start: Members, m: Member) {
    Harmless(start, m.groupCapabilities, m.entityCapabilities)
  }

  predicate Plain(start: Members, user: User) {
    !user.admin && !OwnerIn(start, user.id)
  }

  ghost predicate PendingOk(start: Members, p: Pending) {
    && Plain(start, Requester(p.action))
    && match p.action
       case Change(r) =>
         && (p.stage == Touching || p.stage == Cleared ==> !OwnerIn(start, r.target))
         && (p.stage == Cleared ==> Harmless(start, r.groupCaps, r.entityCaps))
       case Dismiss(_, target) => p.stage == Cleared ==> !OwnerIn(start, target)
       case Invite(_, m, _) => p.stage == Cleared ==> HarmlessMember(start, m)
  }

  ghost predicate Inv(start: Members, s: Traffic) {
    && Bounded(start, s.members)
    && (forall p <- s.pending :: PendingOk(start, p))
    && (forall m <- s.invitations :: HarmlessMember(start, m))
    && (forall m <- s.joins :: HarmlessMember(start, m))
  }

  /** What a member has for an entity is part of the union. */
  lemma CurrentIsInUnion(members: Members, target: Option<Member>, g: string, n: string)
    requires target.Some? ==> target.value in members
    ensures forall c <- CurrentFor(target, g, n) :: c in EntityUnion(members, g, n)
  {
    if target.Some? {
      var list := target.value.entityCapabilities;
      FindEntityFinds(list, g, n);
      var found := FindEntity(list, g, n);
      forall c <- CurrentFor(target, g, n) ensures c in EntityUnion(members, g, n) {
        assert target.value in members && found.value in list && c in found.value.capabilities;
      }
    }
  }

  /** What passes the last guard gives nothing that did not exist at the start. */
  lemma HeldMeansHarmless(start: Members, members: Members, current: User, groupCaps: seq<Capability>,
                          entityCaps: seq<EntityCapability>, targetId: Option<UserId>)
    requires Bounded(start, members) && Plain(start, current)
    requires targetId.Some? ==> !OwnerIn(start, targetId.value)
    requires MayGive(current, members, groupCaps, entityCaps, targetId)
    ensures Harmless(start, groupCaps, entityCaps)
  {
    assert !OwnerIn(members, current.id) && (targetId.Some? ==> !OwnerIn(members, targetId.value));
    FindFinds(members, current.id);
    var own, target := Find(members, current.id).value, Target(members, targetId);
    if targetId.Some? {
      FindFinds(members, targetId.value);
    }
    AttentionIsDifference(groupCaps, GroupNow(target));
    var needed := NeedAttention(groupCaps, GroupNow(target));
    assert OWNER in groupCaps ==> OWNER in needed;
    forall c <- groupCaps ensures c in GroupUnion(members) {
      if c in GroupNow(target) {
        assert target.value in members;
      } else {
        assert c in needed && own in members;
      }
    }
    forall e <- entityCaps ensures forall c <- e.capabilities :: c in EntityUnion(start, e.entityGroup, e.entityName) {
      EntryAllowedExactly(own, target, e);
      CurrentIsInUnion(members, target, e.entityGroup, e.entityName);
      CurrentIsInUnion(members, Some(own), e.entityGroup, e.entityName);
      assert EntityUnion(members, e.entityGroup, e.entityName) <= EntityUnion(start, e.entityGroup, e.entityName);
    }
  }

  /** Members who were there before, and harmless ones, stay within the bounds. */
  lemma UnionsStay(start: Members, members: Members, after: Members)
    requires Bounded(start, members) && forall m <- after :: m in members || HarmlessMember(start, m)
    ensures GroupUnion(after) <= GroupUnion(start)
    ensures forall g, n :: EntityUnion(after, g, n) <= EntityUnion(start, g, n)
  {
    forall c | c in GroupUnion(after) ensures c in GroupUnion(start) {
      var m :| m in after && c in m.groupCapabilities;
      assert m in members ==> c in GroupUnion(members);
    }
    forall g, n, c | c in EntityUnion(after, g, n) ensures c in EntityUnion(start, g, n) {
      var m, e :|
        m in after && e in m.entityCapabilities && e.entityGroup == g && e.entityName == n && c in e.capabilities;
      assert m in members ==> c in EntityUnion(members, g, n);
    }
  }

  lemma {:induction false} FindAfterJoin(members: Members, m: Member, u: UserId)
    ensures Find(members + [m], u) ==
            if Find(members, u).Some? then Find(members, u) else if u == m.userId then Some(m) else None
  {
    if members == [] {
      assert members + [m] == [m];
    } else {
      FindAfterJoin(members[1..], m, u);
      assert (members + [m])[1..] == members[1..] + [m];
    }
  }

  lemma ChangeKeepsBounded(start: Members, members: Members, r: Request)
    requires Bounded(start, members) && !OwnerIn(start, r.target) && Harmless(start, r.groupCaps, r.entityCaps)
    ensures Bounded(start, Written(members, Pending(Change(r), Cleared)))
  {
    var i := FindIndex(members, r.target);
    if Updated(members, r.target, r.groupCaps, r.entityCaps, Some(r.current)).Ok? {
      var m := members[i].(groupCapabilities := r.groupCaps, entityCapabilities := r.entityCaps);
      var after := members[i := m];
      forall x <- after ensures x in members || HarmlessMember(start, x) {
        var j :| 0 <= j < |after| && after[j] == x;
      }
      UnionsStay(start, members, after);
      forall u ensures OwnerIn(after, u) <==> OwnerIn(start, u) {
        FindAfter(members, i, m, u);
      }
    }
  }

  lemma DismissKeepsBounded(start: Members, members: Members, current: User, target: UserId)
    requires Bounded(start, members) && !OwnerIn(start, target)
    ensures Bounded(start, Written(members, Pending(Dismiss(current, target), Cleared)))
  {
    if Removed(members, target, Some(current)).Ok? {
      var after := Without(members, target);
      WithoutIsFilter(members, target);
      UnionsStay(start, members, after);
      forall u ensures OwnerIn(after, u) <==> OwnerIn(start, u) {
        FindWithout(members, target, u);
      }
    }
  }

  lemma JoinKeepsBounded(start: Members, members: Members, m: Member)
    requires Bounded(start, members) && HarmlessMember(start, m)
    ensures Bounded(start, members + [m])
  {
    UnionsStay(start, members, members + [m]);
    forall u ensures OwnerIn(members + [m], u) <==> OwnerIn(start, u) {
      FindAfterJoin(members, m, u);
    }
  }

  lemma StageKeepsPending(start: Members, members: Members, p: Pending)
    requires Bounded(start, members) && PendingOk(start, p)
    ensures PendingOk(start, p.(stage := NextStage(members, p)))
  {
    match (p.stage, p.action)
    case (Allowed, Invite(current, m, _)) =>
      if MayGive(current, members, m.groupCapabilities, m.entityCapabilities, None) {
        HeldMeansHarmless(start, members, current, m.groupCapabilities, m.entityCapabilities, None);
      }
    case (Touching, Change(r)) =>
      if HeldGuard(members, r) {
        HeldMeansHarmless(start, members, r.current, r.groupCaps, r.entityCaps, Some(r.target));
      }
    case _ =>
  }

  lemma AdvanceKeepsInv(start: Members, s: Traffic, k: nat)
    requires Inv(start, s) && k < |s.pending|
    ensures Inv(start, Next(s, Advance(k)))
  {
    var p := s.pending[k];
    assert p in s.pending;
    StageKeepsPending(start, s.members, p);
    if p.stage == Cleared {
      match p.action
      case Change(r) => ChangeKeepsBounded(start, s.members, r);
      case Dismiss(current, target) => DismissKeepsBounded(start, s.members, current, target);
      case Invite(_, _, _) =>
    }
    var next := Next(s, Advance(k));
    forall q <- next.pending ensures PendingOk(start, q) {
      var j :| 0 <= j < |next.pending| && next.pending[j] == q;
      assert s.pending[j] in s.pending;
    }
  }

  lemma NextKeepsInv(start: Members, s: Traffic, e: Event)
    requires Inv(start, s) && (e.Ask? ==> Plain(start, Requester(e.action)))
    ensures Inv(start, Next(s, e))
  {
    match e
    case Advance(k) =>
      if k < |s.pending| {
        AdvanceKeepsInv(start, s, k);
      }
    case Join(k) =>
      if k < |s.joins| {
        JoinKeepsBounded(start, s.members, s.joins[k]);
      }
    case _ =>
  }

  lemma {:induction false} EveryRunKeepsInv(start: Members, s: Traffic, run: seq<Event>)
    requires Inv(start, s)
    requires forall e <- run | e.Ask? :: Plain(start, Requester(e.action))
    ensures Inv(start, Replay(s, run))
    decreases |run|
  {
    if run != [] {
      assert run[0] in run;
      NextKeepsInv(start, s, run[0]);
      assert forall e <- run[1..] :: e in run;
      EveryRunKeepsInv(start, Next(s, run[0]), run[1..]);
    }
  }

  /**
   Whatever updates, removals and invitations members without admin role and without ownership send, and however
   guards, writes and acceptances interleave, nobody ends up with a capability that no one had at the start, neither
   for the group nor for any entity, and the owners stay the same.
   */
  lemma PlainMembersCannotGrow(start: Members, run: seq<Event>)
    requires forall e <- run | e.Ask? :: Plain(start, Requester(e.action))
    ensures var members := Replay(Traffic(start, [], [], []), run).members;
            && GroupUnion(members) <= GroupUnion(start)
            && (forall g, n :: EntityUnion(members, g, n) <= EntityUnion(start, g, n))
            && (forall u :: OwnerIn(members, u) <==> OwnerIn(start, u))
  {
    EveryRunKeepsInv(start, Traffic(start, [], [], []), run);
  }

  // ---------------------------------------------------------------- requests served without interruption

  lemma {:induction false} ReplayConcat(s: Traffic, a: seq<Event>, b: seq<Event>)
    ensures Replay(s, a + b) == Replay(Replay(s, a), b)
    decreases |a|
  {
    if a == [] {
      assert a + b == b;
    } else {
      ConcatHead(a, b);
      ReplayConcat(Next(s, a[0]), a[1..], b);
    }
  }

  /** The traffic with one more request at a stage. */
  function With(s: Traffic, action: Action, stage: Stage): Traffic {
    s.(pending := s.pending + [Pending(action, stage)])
  }

  /** A step of the last request. */
  lemma LastAdvances(s: Traffic, action: Action, stage: Stage)
    ensures var p := Pending(action, stage);
            Next(With(s, action, stage), Advance(|s.pending|)) ==
            With(s.(members := Written(s.members, p), invitations := s.invitations + Invited(s.members, p)),
                 action, NextStage(s.members, p))
  {
    var p := Pending(action, stage);
    var next := p.(stage := NextStage(s.members, p));
    assert (s.pending + [p])[|s.pending| := next] == s.pending + [next];
  }

  /** All steps of one request. */
  function Steps(s: Traffic, action: Action): seq<Event> {
    var step := Advance(|s.pending|);
    [Ask(action)] + [step, step] + [step, step]
  }

  lemma {:induction false} StepsAreReplayed(s: Traffic, action: Action)
    ensures var step := Advance(|s.pending|);
            Replay(s, Steps(s, action)) == Next(Next(Next(Next(With(s, action, Asked), step), step), step), step)
  {
    var step := Advance(|s.pending|);
    var asked := With(s, action, Asked);
    ReplayConcat(s, [Ask(action)] + [step, step], [step, step]);
    ReplayConcat(s, [Ask(action)], [step, step]);
    ReplayTwo(asked, step, step);
    ReplayTwo(Next(Next(asked, step), step), step, step);
    assert [Ask(action)][1..] == [] && Replay(asked, []) == asked;
  }

  lemma ReplayTwo(s: Traffic, a: Event, b: Event)
    ensures Replay(s, [a, b]) == Next(Next(s, a), b)
  {
    assert [a, b][1..] == [b] && [b][1..] == [];
    assert Replay(Next(Next(s, a), b), []) == Next(Next(s, a), b);
  }

  /** A guard changes nothing but the stage, and so does the rest once the request is finished. */
  lemma GuardStep(s: Traffic, action: Action, stage: Stage)
    requires stage != Cleared
    ensures Next(With(s, action, stage), Advance(|s.pending|)) ==
            With(s, action, NextStage(s.members, Pending(action, stage)))
  {
    LastAdvances(s, action, stage);
    assert s.invitations + [] == s.invitations;
  }

  /** What a request that passed its guards makes of the group as it is now. */
  function Done(s: Traffic, action: Action): Traffic {
    var p := Pending(action, Cleared);
    With(s.(members := Written(s.members, p), invitations := s.invitations + Invited(s.members, p)), action, Finished)
  }

  lemma DoneRests(s: Traffic, action: Action)
    ensures Next(Done(s, action), Advance(|s.pending|)) == Done(s, action)
  {
    var p := Pending(action, Cleared);
    var after := s.(members := Written(s.members, p), invitations := s.invitations + Invited(s.members, p));
    GuardStep(after, action, Finished);
  }

  lemma {:induction false} RefusedAtOnce(s: Traffic, action: Action)
    requires NextStage(s.members, Pending(action, Asked)) == Finished
    ensures Replay(s, Steps(s, action)) == With(s, action, Finished)
  {
    StepsAreReplayed(s, action);
    GuardStep(s, action, Asked);
    GuardStep(s, action, Finished);
  }

  lemma {:induction false} RefusedSecond(s: Traffic, action: Action)
    requires NextStage(s.members, Pending(action, Asked)) == Allowed
    requires NextStage(s.members, Pending(action, Allowed)) == Finished
    ensures Replay(s, Steps(s, action)) == With(s, action, Finished)
  {
    StepsAreReplayed(s, action);
    GuardStep(s, action, Asked);
    GuardStep(s, action, Allowed);
    GuardStep(s, action, Finished);
  }

  lemma {:induction false} RefusedThird(s: Traffic, action: Action)
    requires NextStage(s.members, Pending(action, Asked)) == Allowed
    requires NextStage(s.members, Pending(action, Allowed)) == Touching
    requires NextStage(s.members, Pending(action, Touching)) == Finished
    ensures Replay(s, Steps(s, action)) == With(s, action, Finished)
  {
    StepsAreReplayed(s, action);
    GuardStep(s, action, Asked);
    GuardStep(s, action, Allowed);
    GuardStep(s, action, Touching);
    GuardStep(s, action, Finished);
  }

  lemma {:induction false} PassedTwo(s: Traffic, action: Action)
    requires NextStage(s.members, Pending(action, Asked)) == Allowed
    requires NextStage(s.members, Pending(action, Allowed)) == Cleared
    ensures Replay(s, Steps(s, action)) == Done(s, action)
  {
    StepsAreReplayed(s, action);
    GuardStep(s, action, Asked);
    GuardStep(s, action, Allowed);
    LastAdvances(s, action, Cleared);
    DoneRests(s, action);
  }

  lemma {:induction false} PassedThree(s: Traffic, action: Action)
    requires NextStage(s.members, Pending(action, Asked)) == Allowed
    requires NextStage(s.members, Pending(action, Allowed)) == Touching
    requires NextStage(s.members, Pending(action, Touching)) == Cleared
    ensures Replay(s, Steps(s, action)) == Done(s, action)
  {
    StepsAreReplayed(s, action);
    GuardStep(s, action, Asked);
    GuardStep(s, action, Allowed);
    GuardStep(s, action, Touching);
    LastAdvances(s, action, Cleared);
  }

  /** An update that nobody interrupts is served as `CapabilityGuards.Serve` says. */
  lemma {:induction false} ChangeIsServed(s: Traffic, r: Request)
    ensures var served := Serve(s.members, r);
            Replay(s, Steps(s, Change(r))) ==
            With(s.(members := if served.Ok? then served.value else s.members), Change(r), Finished)
  {
    if !MayAdjust(r.current, s.members) {
      RefusedAtOnce(s, Change(r));
    } else if !MayChange(r.current, s.members, r.target) {
      RefusedSecond(s, Change(r));
    } else if !HeldGuard(s.members, r) {
      RefusedThird(s, Change(r));
    } else {
      PassedThree(s, Change(r));
      assert s.invitations + [] == s.invitations;
    }
  }

  /** A removal that nobody interrupts. */
  lemma DismissIsServed(s: Traffic, current: User, target: UserId)
    ensures var after := Replay(s, Steps(s, Dismiss(current, target)));
            var removed := Removed(s.members, target, Some(current));
            after == With(s.(members := if HoldsOneOf(current, s.members, {1, 4, 6})
                                           && MayChange(current, s.members, target) && removed.Ok?
                                        then removed.value else s.members),
                          Dismiss(current, target), Finished)
  {
    var a := Dismiss(current, target);
    if !HoldsOneOf(current, s.members, {1, 4, 6}) {
      RefusedAtOnce(s, a);
    } else if !MayChange(current, s.members, target) {
      RefusedSecond(s, a);
    } else {
      PassedTwo(s, a);
      assert s.invitations + [] == s.invitations;
    }
  }

  /** Whom a plain member can remove: anyone else who is no owner, if he holds EDIT or EOG_ADJUST_MEMBERS. */
  lemma DismissedExactly(s: Traffic, current: User, target: UserId)
    requires Plain(s.members, current) && Find(s.members, current.id).Some? && Find(s.members, target).Some?
    ensures Find(Replay(s, Steps(s, Dismiss(current, target))).members, target).None? <==>
              && current.id != target && !OwnerIn(s.members, target)
              && exists m <- s.members ::
                   m.userId == current.id && exists c <- m.groupCapabilities :: c == 1 || c == 4 || c == 6
  {
    DismissIsServed(s, current, target);
    FindFinds(s.members, current.id);
    FindFinds(s.members, target);
    FindWithout(s.members, target, target);
    if |s.members| == 1 {
      assert s.members[0].userId == current.id && s.members[0].userId == target;
    }
  }

  /** Who may invite whom: with one of three capabilities, giving only what he holds, anyone else but members. */
  predicate MayInvite(members: Members, current: User, m: Member) {
    && HoldsOneOf(current, members, {1, 6, 7})
    && MayGive(current, members, m.groupCapabilities, m.entityCapabilities, None)
    && m.userId != current.id
    && Find(members, m.userId).None?
  }

  /** An invitation that nobody interrupts is stored exactly when it is allowed and none is known under that name. */
  lemma {:induction false} InviteIsServed(s: Traffic, current: User, m: Member, earlier: bool)
    ensures Replay(s, Steps(s, Invite(current, m, earlier))) ==
            With(s.(invitations := s.invitations + if MayInvite(s.members, current, m) && !earlier then [m] else []),
                 Invite(current, m, earlier), Finished)
  {
    var a := Invite(current, m, earlier);
    assert s.invitations + [] == s.invitations;
    if !HoldsOneOf(current, s.members, {1, 6, 7}) {
      RefusedAtOnce(s, a);
    } else if !MayGive(current, s.members, m.groupCapabilities, m.entityCapabilities, None) {
      RefusedSecond(s, a);
    } else {
      PassedTwo(s, a);
    }
  }

  /** A stored invitation of somebody who is no member makes him one when he accepts, with just what it offers. */
  lemma AcceptingJoins(s: Traffic, k: nat)
    requires k < |s.invitations|
    ensures var m := s.invitations[k];
            var after := Next(Next(s, Accept(k)), Join(|s.joins|));
            after == if Find(s.members, m.userId).None? then s.(members := s.members + [m]) else s
  {
    var m := s.invitations[k];
    assert (s.joins + [m])[..|s.joins|] + (s.joins + [m])[|s.joins| + 1..] == s.joins;
  }

  /** A withdrawn invitation is gone, and nothing else is. */
  lemma WithdrawnIsGone(s: Traffic, k: nat)
    requires k < |s.invitations|
    ensures Next(s, Withdraw(k)) == s.(invitations := s.invitations[..k] + s.invitations[k + 1..])
  {
  }
}
