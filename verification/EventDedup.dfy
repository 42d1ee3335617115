/**
 De-duplication of event deliveries inside a time window (connection-message-handler.ts). The handler
 forgets old ids on every check; the reference keeps every id for ever.
 */
module EventDedup {

  type Id = string

  const TTL := 2 * 60 * 1000

  function Cleanup(processed: map<Id, int>, now: int): map<Id, int> {
    map id | id in processed && now - processed[id] <= TTL :: processed[id]
  }

  /** `isDuplicateEventMessage`; a missing message id is the empty string. */
  function Check(processed: map<Id, int>, id: Id, now: int): (map<Id, int>, bool) {
    if id == "" then (processed, false) else
      var kept := Cleanup(processed, now);
      if id in kept then (kept, true) else (kept[id := now], false)
  }

  class EventFilter {
    var processed: map<Id, int>

    constructor ()
      ensures processed == map[]
    {
      processed := map[];
    }

    method CleanupProcessedEventMessageIds(now: int)
      modifies this
      ensures processed == Cleanup(old(processed), now)
    {
      var todo := processed.Keys;
      while todo != {}
        invariant todo <= processed.Keys <= old(processed).Keys
        invariant forall id | id in processed :: processed[id] == old(processed)[id]
        invariant forall id | id in old(processed) && id !in todo ::
                    id in processed <==> now - old(processed)[id] <= TTL
        decreases todo
      {
        var id :| id in todo;
        if now - processed[id] > TTL {
          processed := processed - {id};
        }
        todo := todo - {id};
      }
    }

    method IsDuplicateEventMessage(id: Id, now: int) returns (duplicate: bool)
      modifies this
      ensures (processed, duplicate) == Check(old(processed), id, now)
    {
      if id == "" {
        return false;
      }
      CleanupProcessedEventMessageIds(now);
      if id in processed {
        return true;
      }
      processed := processed[id := now];
      duplicate := false;
    }
  }

  // ---------------------------------------------------------------- runs

  datatype Delivery = Delivery(id: Id, at: int)

  ghost predicate Monotone(run: seq<Delivery>) {
    forall i, j | 0 <= i <= j < |run| :: run[i].at <= run[j].at
  }

  /** For every delivery of a run, whether the event was handed to the callbacks. */
  function Accepted(processed: map<Id, int>, run: seq<Delivery>): (flags: seq<bool>)
    ensures |flags| == |run|
    decreases |run|
  {
    if run == [] then [] else
      var (next, duplicate) := Check(processed, run[0].id, run[0].at);
      [!duplicate] + Accepted(next, run[1..])
  }

  /** After a check no stored timestamp is older than the window, and a rejected id keeps its first timestamp. */
  lemma WindowIsBounded(processed: map<Id, int>, id: Id, now: int)
    requires id != ""
    ensures var (next, duplicate) := Check(processed, id, now);
            && (forall k | k in next :: now - next[k] <= TTL)
            && id in next
            && next[id] == (if duplicate then processed[id] else now)
  {
  }

  /** The delivery at k has an accepted predecessor j with the same id inside the window. */
  ghost predicate Repeats(run: seq<Delivery>, flags: seq<bool>, j: int, k: int)
    requires |flags| == |run| && 0 <= j < k < |run|
  {
    flags[j] && run[j].id == run[k].id && run[k].at - run[j].at <= TTL
  }

  ghost predicate AcceptedAt(run: seq<Delivery>, flags: seq<bool>, j: int, id: Id, at: int)
    requires |flags| == |run| && 0 <= j < |run|
  {
    flags[j] && run[j].id == id && run[j].at == at
  }

  /** The stored ids are exactly those accepted inside the window that ends with the next check. */
  ghost predicate Remembers(processed: map<Id, int>, run: seq<Delivery>, flags: seq<bool>, n: nat)
    requires |flags| == |run| && n < |run|
  {
    && (forall id | id in processed :: Accounted(run, flags, n, id, processed[id]))
    && (forall j | 0 <= j < n && flags[j] && run[j].id != "" && run[n].at - run[j].at <= TTL ::
          run[j].id in processed && processed[run[j].id] == run[j].at)
  }

  /** A stored timestamp is that of an accepted delivery. */
  ghost predicate Accounted(run: seq<Delivery>, flags: seq<bool>, n: nat, id: Id, at: int)
    requires |flags| == |run| && n < |run|
  {
    exists j :: 0 <= j < n && AcceptedAt(run, flags, j, id, at)
  }

  /** A delivery is ignored exactly when it has an id and repeats an accepted one; one without an id is accepted. */
  ghost predicate Justified(run: seq<Delivery>, flags: seq<bool>, k: int)
    requires |flags| == |run| && 0 <= k < |run|
  {
    !flags[k] <==> run[k].id != "" && exists j :: 0 <= j < k && Repeats(run, flags, j, k)
  }

  /**
   The flags of a run, characterised without the stored map: a delivery is ignored exactly when an accepted
   delivery of the same id lies at most TTL before it.
   */
  lemma {:induction false} AcceptedFrom(processed: map<Id, int>, run: seq<Delivery>, flags: seq<bool>, n: nat)
    requires Monotone(run) && |flags| == |run| && n <= |run|
    requires flags[n..] == Accepted(processed, run[n..])
    requires n < |run| ==> Remembers(processed, run, flags, n)
    ensures forall k | n <= k < |run| :: Justified(run, flags, k)
    decreases |run| - n
  {
    if n < |run| {
      var d := run[n];
      var (next, duplicate) := Check(processed, d.id, d.at);
      assert run[n..][0] == d && run[n..][1..] == run[n + 1..];
      assert flags[n] == flags[n..][0] == !duplicate;
      assert flags[n + 1..] == flags[n..][1..];
      FlagIsRight(processed, run, flags, n);
      if n + 1 < |run| {
        StillRemembers(processed, run, flags, n);
      }
      AcceptedFrom(next, run, flags, n + 1);
    }
  }

  lemma FlagIsRight(processed: map<Id, int>, run: seq<Delivery>, flags: seq<bool>, n: nat)
    requires |flags| == |run| && n < |run| && Remembers(processed, run, flags, n)
    requires flags[n] == !Check(processed, run[n].id, run[n].at).1
    ensures Justified(run, flags, n)
  {
    var d := run[n];
    if d.id != "" && !flags[n] {
      assert Accounted(run, flags, n, d.id, processed[d.id]);
      var j :| 0 <= j < n && AcceptedAt(run, flags, j, d.id, processed[d.id]);
      assert Repeats(run, flags, j, n);
    }
  }

  lemma StillRemembers(processed: map<Id, int>, run: seq<Delivery>, flags: seq<bool>, n: nat)
    requires Monotone(run) && |flags| == |run| && n + 1 < |run|
    requires Remembers(processed, run, flags, n)
    requires flags[n] == !Check(processed, run[n].id, run[n].at).1
    ensures Remembers(Check(processed, run[n].id, run[n].at).0, run, flags, n + 1)
  {
    var d := run[n];
    var (next, duplicate) := Check(processed, d.id, d.at);
    forall id | id in next
      ensures Accounted(run, flags, n + 1, id, next[id])
    {
      if id == d.id && !duplicate && id != "" {
        assert AcceptedAt(run, flags, n, id, next[id]);
      } else {
        assert Accounted(run, flags, n, id, processed[id]);
        var j :| 0 <= j < n && AcceptedAt(run, flags, j, id, processed[id]);
        assert AcceptedAt(run, flags, j, id, next[id]);
      }
    }
    assert d.at <= run[n + 1].at;
  }

  /**
   Under a non-decreasing clock: two accepted deliveries of one id are more than the window apart, every
   redelivery inside the window of an accepted one is ignored, and nothing else is.
   */
  lemma {:induction false} AcceptedOncePerWindow(run: seq<Delivery>)
    requires Monotone(run)
    ensures var flags := Accepted(map[], run);
            && (forall k | 0 <= k < |run| :: Justified(run, flags, k))
            && (forall j, k | 0 <= j < k < |run| && flags[j] && flags[k] && run[j].id == run[k].id != "" ::
                  run[k].at - run[j].at > TTL)
  {
    var flags := Accepted(map[], run);
    assert run[0..] == run && flags[0..] == flags;
    AcceptedFrom(map[], run, flags, 0);
    forall j, k | 0 <= j < k < |run| && flags[j] && flags[k] && run[j].id == run[k].id != ""
      ensures run[k].at - run[j].at > TTL
    {
      assert Justified(run, flags, k);
      assert !Repeats(run, flags, j, k);
    }
  }
}
