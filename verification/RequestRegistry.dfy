/**
 Request/response correlation of an Engine5 connection: `ongoingRequestsToComplete`, the 30 second timers
 of `sendRequest`, and the ways a request can be settled.
 */
module RequestRegistries {
  import opened Prelude

  type Id = string
  type Subject = string

  /** RESPONSE (error == false) or RESPONSE_ERROR (error == true). A missing ResponseOfMessageId is the empty string. */
  datatype Reply = Reply(of: Id, error: bool, isError: bool, content: string)

  datatype Outcome =
    | Resolved(content: string)
    | Rejected(content: string)
    | TimedOut(subject: Subject)

  datatype Settlement = Settlement(id: Id, outcome: Outcome)

  /** What the callback registered by `sendRequest` does with a reply. */
  function OutcomeOf(reply: Reply): Outcome {
    if reply.error || reply.isError then Rejected(reply.content) else Resolved(reply.content)
  }

  /** Registered callbacks, armed timers, and the settlements of request promises in order. */
  datatype Registry = Registry(ongoing: map<Id, Subject>, timers: map<Id, Subject>, log: seq<Settlement>)

  const EMPTY := Registry(map[], map[], [])

  datatype Event =
    | Register(id: Id, subject: Subject)  // the write of the request resolved
    | Respond(reply: Reply)
    | Expire(id: Id)                      // the timer of a request fires
    | Close

  function Next(r: Registry, e: Event): Registry {
    match e
    case Register(id, subject) =>
      r.(ongoing := r.ongoing[id := subject], timers := r.timers[id := subject])
    case Respond(reply) =>
      if reply.of == "" || reply.of !in r.ongoing then r
      else Registry(r.ongoing - {reply.of}, r.timers - {reply.of}, r.log + [Settlement(reply.of, OutcomeOf(reply))])
    case Expire(id) =>
      if id !in r.timers then r
      else Registry(r.ongoing - {id}, r.timers - {id}, r.log + [Settlement(id, TimedOut(r.timers[id]))])
    case Close =>
      r.(ongoing := map[])
  }

  /** The fields of the connection, updated in place. */
  class RequestRegistry {
    var ongoing: map<Id, Subject>
    var timers: map<Id, Subject>
    var log: seq<Settlement>

    function View(): Registry
      reads this
    {
      Registry(ongoing, timers, log)
    }

    constructor ()
      ensures View() == EMPTY
    {
      ongoing, timers, log := map[], map[], [];
    }

    /** The tail of `sendRequest`: arm the timeout, then register the callback. */
    method Register(id: Id, subject: Subject)
      modifies this
      ensures View() == Next(old(View()), Event.Register(id, subject))
    {
      timers := timers[id := subject];
      ongoing := ongoing[id := subject];
    }

    /** `takeRequestCallback`: look up and forget; a request without a message id has no callback. */
    method TakeRequestCallback(id: Id) returns (found: bool)
      modifies this`ongoing
      ensures found <==> id != "" && id in old(ongoing)
      ensures ongoing == if id == "" then old(ongoing) else old(ongoing) - {id}
    {
      if id == "" {
        return false;
      }
      found := id in ongoing;
      ongoing := ongoing - {id};
    }

    /** The RESPONSE and RESPONSE_ERROR branches of `processIncomingData`, with the callback they call. */
    method Respond(reply: Reply)
      modifies this
      ensures View() == Next(old(View()), Event.Respond(reply))
    {
      var found := TakeRequestCallback(reply.of);
      if found {
        ongoing := ongoing - {reply.of};
        timers := timers - {reply.of};
        log := log + [Settlement(reply.of, OutcomeOf(reply))];
      } else {
        assert ongoing == old(ongoing);
      }
    }

    /** The callback of `setTimeout`; a cleared timer does not fire. */
    method Expire(id: Id)
      modifies this
      ensures View() == Next(old(View()), Event.Expire(id))
    {
      if id in timers {
        ongoing := ongoing - {id};
        log := log + [Settlement(id, TimedOut(timers[id]))];
        timers := timers - {id};
      }
    }

    /** The loop of `close` over the registered ids; it clears no timer. */
    method Close()
      modifies this
      ensures View() == Next(old(View()), Event.Close)
    {
      var keys := ongoing.Keys;
      while keys != {}
        invariant ongoing.Keys == keys
        invariant timers == old(timers) && log == old(log)
      {
        var key :| key in keys;
        ongoing := ongoing - {key};
        keys := keys - {key};
      }
      assert ongoing == map[];
    }
  }

  // ---------------------------------------------------------------- one request on its own

  /** The life of a single request, without any other request around. */
  datatype Fate =
    | Unknown
    | Waiting(subject: Subject)   // callback registered, timer armed
    | Orphaned(subject: Subject)  // close dropped the callback, only the timer is left
    | Settled(outcome: Outcome)

  function FateNext(id: Id, fate: Fate, e: Event): Fate {
    match e
    case Register(id', subject) => if id' == id then Waiting(subject) else fate
    case Respond(reply) => if reply.of == id && fate.Waiting? then Settled(OutcomeOf(reply)) else fate
    case Expire(id') =>
      if id' == id && (fate.Waiting? || fate.Orphaned?) then Settled(TimedOut(fate.subject)) else fate
    case Close => if fate.Waiting? then Orphaned(fate.subject) else fate
  }

  function Replay(r: Registry, events: seq<Event>): Registry
    decreases |events|
  {
    if events == [] then r else Replay(Next(r, events[0]), events[1..])
  }

  function FateOf(id: Id, fate: Fate, events: seq<Event>): Fate
    decreases |events|
  {
    if events == [] then fate else FateOf(id, FateNext(id, fate, events[0]), events[1..])
  }

  function Ids(log: seq<Settlement>): set<Id> {
    set s <- log :: s.id
  }

  /** Message ids are random UUIDs: never empty and never used for a second request. */
  ghost predicate FreshIds(events: seq<Event>) {
    && (forall i | 0 <= i < |events| && events[i].Register? :: events[i].id != "")
    && (forall i, j | 0 <= i < j < |events| && events[i].Register? && events[j].Register? ::
          events[i].id != events[j].id)
  }

  ghost predicate Inv(r: Registry) {
    && r.ongoing.Keys <= r.timers.Keys
    && (forall id | id in r.ongoing :: id != "" && r.ongoing[id] == r.timers[id])
    && (forall s <- r.log :: s.id !in r.timers)
    && (forall i, j | 0 <= i < j < |r.log| :: r.log[i].id != r.log[j].id)
  }

  ghost predicate Unused(r: Registry, id: Id) {
    id !in r.timers && id !in Ids(r.log)
  }

  /** How the registry as a whole accounts for one request. */
  ghost predicate Accounts(r: Registry, id: Id, fate: Fate) {
    match fate
    case Unknown => Unused(r, id)
    case Waiting(subject) => id in r.ongoing && id in r.timers && r.timers[id] == subject && id !in Ids(r.log)
    case Orphaned(subject) => id !in r.ongoing && id in r.timers && r.timers[id] == subject && id !in Ids(r.log)
    case Settled(outcome) => id !in r.timers && Settlement(id, outcome) in r.log
  }

  lemma NextKeepsInv(r: Registry, e: Event)
    requires Inv(r)
    requires e.Register? ==> e.id != "" && Unused(r, e.id)
    ensures Inv(Next(r, e))
  {
    if e.Register? {
      forall s <- r.log ensures s.id != e.id {
        assert s.id in Ids(r.log);
      }
    }
  }

  lemma NextAccounts(r: Registry, e: Event, id: Id, fate: Fate)
    requires Inv(r) && Accounts(r, id, fate)
    requires e.Register? ==> Unused(r, e.id) && e.id != ""
    requires e.Register? && e.id == id ==> fate.Unknown?
    ensures Accounts(Next(r, e), id, FateNext(id, fate, e))
  {
    var next := Next(r, e);
    if next.log != r.log {
      var last := next.log[|next.log| - 1];
      assert next.log == r.log + [last];
      forall x: Id ensures x in Ids(next.log) <==> x in Ids(r.log) || x == last.id {
        if x in Ids(r.log) {
          var s :| s in r.log && s.id == x;
          assert s in next.log;
        }
        assert last in next.log;
      }
    }
  }

  lemma {:induction false} ReplayAccounts(r: Registry, events: seq<Event>, id: Id, fate: Fate)
    requires Inv(r) && Accounts(r, id, fate)
    requires FreshIds(events)
    requires forall e <- events | e.Register? :: Unused(r, e.id) && (e.id == id ==> fate.Unknown?)
    ensures Inv(Replay(r, events)) && Accounts(Replay(r, events), id, FateOf(id, fate, events))
    decreases |events|
  {
    if events != [] {
      var e, rest := events[0], events[1..];
      assert e in events;
      NextKeepsInv(r, e);
      NextAccounts(r, e, id, fate);
      var next := Next(r, e);
      assert forall k | 0 <= k < |rest| :: rest[k] == events[k + 1];
      forall f <- rest | f.Register?
        ensures Unused(next, f.id) && (f.id == id ==> FateNext(id, fate, e).Unknown?)
      {
        assert f in events;
        if e.Register? {
          assert e.id != f.id;
        }
        StaysUnused(r, e, f.id);
      }
      ReplayAccounts(next, rest, id, FateNext(id, fate, e));
    }
  }

  lemma StaysUnused(r: Registry, e: Event, id: Id)
    requires Inv(r) && Unused(r, id)
    requires e.Register? ==> e.id != id
    ensures Unused(Next(r, e), id)
  {
    var next := Next(r, e);
    forall s <- next.log ensures s.id != id {
      if s in r.log {
        assert s.id in Ids(r.log);
      }
    }
  }

  /**
   In every run each request fares as it would alone: other requests, unknown, late and duplicate replies do not
   touch it. It settles at most once, by the first reply bearing its id before any close, or by its own timer.
   */
  lemma EachRequestFaresAlone(events: seq<Event>, id: Id)
    requires FreshIds(events)
    ensures var r := Replay(EMPTY, events);
            && Accounts(r, id, FateOf(id, Unknown, events))
            && (forall i, j | 0 <= i < j < |r.log| :: r.log[i].id != r.log[j].id)
  {
    ReplayAccounts(EMPTY, events, id, Unknown);
  }

  /** Where a settlement comes from: a success reply, an error reply, or the request and its expired timer. */
  ghost predicate Caused(events: seq<Event>, s: Settlement) {
    match s.outcome
    case Resolved(content) => Respond(Reply(s.id, false, false, content)) in events
    case Rejected(content) =>
      exists e <- events ::
        e.Respond? && e.reply.of == s.id && e.reply.content == content && (e.reply.error || e.reply.isError)
    case TimedOut(subject) => Event.Register(s.id, subject) in events && Event.Expire(s.id) in events
  }

  lemma CausesStay(events: seq<Event>, e: Event, s: Settlement)
    requires Caused(events, s)
    ensures Caused(events + [e], s)
  {
    assert forall x <- events :: x in events + [e];
  }

  lemma {:induction false} CausedFrom(past: seq<Event>, r: Registry, events: seq<Event>)
    requires forall s <- r.log :: Caused(past, s)
    requires forall id | id in r.timers :: Event.Register(id, r.timers[id]) in past
    ensures forall s <- Replay(r, events).log :: Caused(past + events, s)
    decreases |events|
  {
    if events == [] {
      assert past + events == past;
    } else {
      var e, next := events[0], Next(r, events[0]);
      var now := past + [e];
      assert e in now && forall x <- past :: x in now;
      forall s <- next.log ensures Caused(now, s) {
        if s in r.log {
          CausesStay(past, e, s);
        }
      }
      CausedFrom(now, next, events[1..]);
      assert now + events[1..] == past + events;
    }
  }

  /**
   In every run a request is resolved only by a success reply that bears its id and content, rejected only by such an
   error reply, and timed out only by its own timer, with the subject it was registered with.
   */
  lemma EverySettlementHasItsCause(events: seq<Event>)
    ensures forall s <- Replay(EMPTY, events).log :: Caused(events, s)
  {
    CausedFrom([], EMPTY, events);
    assert [] + events == events;
  }

  /** The first reply to a waiting request settles it: an error reply rejects, any other resolves. */
  lemma ReplySettles(events: seq<Event>, reply: Reply)
    requires FreshIds(events) && FateOf(reply.of, Unknown, events).Waiting?
    ensures Replay(EMPTY, events + [Respond(reply)]).log == Replay(EMPTY, events).log +
              [Settlement(reply.of, if reply.error || reply.isError then Rejected(reply.content)
                                    else Resolved(reply.content))]
  {
    EachRequestFaresAlone(events, reply.of);
    ReplayAccounts(EMPTY, events, reply.of, Unknown);
    ReplayConcat(EMPTY, events, [Respond(reply)]);
    var r := Replay(EMPTY, events);
    assert [Respond(reply)][1..] == [];
    assert Replay(r, [Respond(reply)]) == Next(r, Respond(reply));
  }

  lemma {:induction false} FateMoves(id: Id, fate: Fate, events: seq<Event>)
    requires !fate.Unknown?
    requires forall e <- events :: !(e.Register? && e.id == id)
    ensures !FateOf(id, fate, events).Unknown?
    ensures fate.Settled? ==> FateOf(id, fate, events) == fate
    decreases |events|
  {
    if events != [] {
      FateMoves(id, FateNext(id, fate, events[0]), events[1..]);
    }
  }

  lemma {:induction false} FateConcat(id: Id, fate: Fate, a: seq<Event>, b: seq<Event>)
    ensures FateOf(id, fate, a + b) == FateOf(id, FateOf(id, fate, a), b)
    decreases |a|
  {
    if a == [] {
      assert a + b == b;
    } else {
      FateConcat(id, FateNext(id, fate, a[0]), a[1..], b);
      ConcatHead(a, b);
    }
  }

  /** Every registered request is settled or still has an armed timer, even after a close: no promise is forgotten. */
  lemma NoRequestIsForgotten(events: seq<Event>, k: nat)
    requires FreshIds(events)
    requires k < |events| && events[k].Register?
    ensures var r := Replay(EMPTY, events);
            events[k].id in r.timers <==> events[k].id !in Ids(r.log)
  {
    var id := events[k].id;
    var before, after := events[..k + 1], events[k + 1..];
    assert events == before + after;
    assert before == events[..k] + [events[k]];
    FateConcat(id, Unknown, before, after);
    FateConcat(id, Unknown, events[..k], [events[k]]);
    var was := FateOf(id, Unknown, events[..k]);
    assert [events[k]][1..] == [];
    assert FateOf(id, was, [events[k]]) == FateNext(id, was, events[k]);
    forall e <- after ensures !(e.Register? && e.id == id) {
      var j :| k + 1 <= j < |events| && events[j] == e;
    }
    FateMoves(id, FateOf(id, Unknown, before), after);
    EachRequestFaresAlone(events, id);
  }

  /** A reply nobody waits for, because it is late, duplicate, early or unknown, changes nothing at all. */
  lemma UnclaimedReplyHasNoEffect(events: seq<Event>, reply: Reply)
    requires FreshIds(events)
    requires !FateOf(reply.of, Unknown, events).Waiting?
    ensures Replay(EMPTY, events + [Respond(reply)]) == Replay(EMPTY, events)
  {
    EachRequestFaresAlone(events, reply.of);
    ReplayAccounts(EMPTY, events, reply.of, Unknown);
    ReplayConcat(EMPTY, events, [Respond(reply)]);
    var r := Replay(EMPTY, events);
    assert [Respond(reply)][1..] == [];
    assert Replay(r, [Respond(reply)]) == Next(r, Respond(reply));
  }

  lemma {:induction false} ReplayConcat(r: Registry, a: seq<Event>, b: seq<Event>)
    ensures Replay(r, a + b) == Replay(Replay(r, a), b)
    decreases |a|
  {
    if a == [] {
      assert a + b == b;
    } else {
      ReplayConcat(Next(r, a[0]), a[1..], b);
      ConcatHead(a, b);
    }
  }
}
