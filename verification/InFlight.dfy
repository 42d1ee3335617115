/**
 In-flight de-duplication of `getOrCallAsync`: callers that miss while a callback for the same key is pending
 share its promise. A callback outcome arrives in a later step; between steps anything may happen.
 */
module InFlight {
  import opened Prelude
  import opened Caches

  type PromiseId = nat

  /** The promise of the inner async function. */
  datatype Promise<V> =
    | Pending(key: Key, co: Option<Options>)
    | Settled(outcome: Result<Option<V>, string>)

  /** What a caller gets: a value at once, or a promise. */
  datatype Answer<V> = Cached(value: Option<V>) | Awaiting(promise: PromiseId)

  /** Promises are numbered in the order of creation. */
  datatype Service<V> = Service(cache: Cache<V>, inflight: map<Key, PromiseId>, promises: seq<Promise<V>>)

  function Initial<V>(): Service<V> {
    Service(Empty(), map[], [])
  }

  /**
   The synchronous segment of a call. `throws` is the error of a callback that throws before returning a promise:
   the `finally` then runs before the promise is entered in `inflight`.
   */
  function OnCall<V>(s: Service<V>, key: Key, co: Option<Options>, throws: Option<string>, now: int)
    : (Service<V>, Answer<V>)
  {
    var (cache, cached) := OnGet(s.cache, key, co, now);
    if cached.Some? then (s.(cache := cache), Cached(cached))
    else if key in s.inflight then (s.(cache := cache), Awaiting(s.inflight[key]))
    else
      var p := |s.promises|;
      var promise := if throws.Some? then Settled(Err(throws.value)) else Pending(key, co);
      (Service(cache, s.inflight[key := p], s.promises + [promise]), Awaiting(p))
  }

  /** The rest of the inner function, once its callback resolved or rejected. */
  function OnSettle<V>(s: Service<V>, p: PromiseId, outcome: Result<Option<V>, string>, now: int): Service<V>
    requires p < |s.promises| && s.promises[p].Pending?
  {
    var Pending(key, co) := s.promises[p];
    Service(if outcome.Ok? then OnPut(s.cache, key, outcome.value, co, now) else s.cache,
            s.inflight - {key},
            s.promises[p := Settled(outcome)])
  }

  class AsyncCacheManager<V> {
    const cache: CacheManager<V>
    var inflight: map<Key, PromiseId>
    var promises: seq<Promise<V>>

    function View(): Service<V>
      reads this, cache
    {
      Service(cache.View(), inflight, promises)
    }

    constructor ()
      ensures View() == Initial<V>()
      ensures fresh(cache)
    {
      cache := new CacheManager<V>();
      inflight, promises := map[], [];
    }

    method GetOrCallAsync(key: Key, co: Option<Options>, throws: Option<string>, now: int) returns (answer: Answer<V>)
      modifies this, cache
      ensures (View(), answer) == OnCall(old(View()), key, co, throws, now)
    {
      var cached := cache.Get(key, co, now);
      if cached.Some? {
        return Cached(cached);
      }
      if key in inflight {
        return Awaiting(inflight[key]);
      }
      var p := |promises|;
      if throws.Some? {
        promises := promises + [Settled(Err(throws.value))];
        ghost var before := inflight;
        inflight := inflight - {key};
        assert inflight == before;
      } else {
        promises := promises + [Pending(key, co)];
      }
      inflight := inflight[key := p];
      answer := Awaiting(p);
    }

    method CallbackSettled(p: PromiseId, outcome: Result<Option<V>, string>, now: int)
      requires p < |promises| && promises[p].Pending?
      modifies this, cache
      ensures View() == OnSettle(old(View()), p, outcome, now)
    {
      var key, co := promises[p].key, promises[p].co;
      if outcome.Ok? {
        cache.Put(key, outcome.value, co, now);
      }
      inflight := inflight - {key};
      promises := promises[p := Settled(outcome)];
    }

    method Clear()
      modifies this, cache
      ensures View() == old(View()).(cache := Empty(), inflight := map[])
    {
      cache.Clear();
      inflight := map[];
    }
  }

  // ---------------------------------------------------------------- runs

  datatype Event<V> =
    | Call(key: Key, co: Option<Options>, throws: Option<string>, now: int)
    | Settle(promise: PromiseId, outcome: Result<Option<V>, string>, now: int)
    | Other(op: Timed<V>)  // any synchronous cache operation but clear
    | Clear

  predicate IsPending<V>(s: Service<V>, p: int) {
    0 <= p < |s.promises| && s.promises[p].Pending?
  }

  function Next<V>(s: Service<V>, e: Event<V>): Service<V> {
    match e
    case Call(key, co, throws, now) => OnCall(s, key, co, throws, now).0
    case Settle(p, outcome, now) => if IsPending(s, p) then OnSettle(s, p, outcome, now) else s
    case Other(op) => if op.op.Clear? then s else s.(cache := Step(s.cache, op).0)
    case Clear => s.(cache := Empty(), inflight := map[])
  }

  function Replay<V>(s: Service<V>, run: seq<Event<V>>): Service<V>
    decreases |run|
  {
    if run == [] then s else Replay(Next(s, run[0]), run[1..])
  }

  /** `inflight` holds a key exactly while its one callback is pending. */
  ghost predicate Exact<V>(s: Service<V>) {
    && (forall k | k in s.inflight :: IsPending(s, s.inflight[k]) && s.promises[s.inflight[k]].key == k)
    && (forall p | IsPending(s, p) :: s.promises[p].key in s.inflight && s.inflight[s.promises[p].key] == p)
  }

  predicate StartsCallback<V>(s: Service<V>, e: Event<V>) {
    e.Call? && e.key !in s.inflight && OnGet(s.cache, e.key, e.co, e.now).1.None?
  }

  /** What breaks the bookkeeping: a callback that throws instead of rejecting, or a clear while one is pending. */
  ghost predicate Disturbs<V>(s: Service<V>, e: Event<V>) {
    || (StartsCallback(s, e) && e.throws.Some?)
    || (e.Clear? && exists p :: IsPending(s, p))
  }

  lemma StepIsExactUnlessDisturbed<V>(s: Service<V>, e: Event<V>)
    requires Exact(s)
    ensures Exact(Next(s, e)) <==> !Disturbs(s, e)
  {
    var next := Next(s, e);
    match e
    case Call(key, co, throws, now) =>
      if StartsCallback(s, e) {
        var p := |s.promises|;
        assert next.inflight[key] == p;
        assert forall q | 0 <= q < p :: next.promises[q] == s.promises[q];
        if throws.Some? {
          assert !IsPending(next, next.inflight[key]);
        } else {
          forall k | k in next.inflight
            ensures IsPending(next, next.inflight[k]) && next.promises[next.inflight[k]].key == k {}
          forall q | IsPending(next, q)
            ensures next.promises[q].key in next.inflight && next.inflight[next.promises[q].key] == q
          {
            if q < p {
              assert IsPending(s, q);
            }
          }
        }
      } else {
        assert next.inflight == s.inflight && next.promises == s.promises;
        assert forall q :: IsPending(next, q) <==> IsPending(s, q);
      }
    case Settle(p, outcome, now) =>
      assert forall q :: IsPending(next, q) ==> IsPending(s, q);
      if IsPending(s, p) {
        forall k | k in next.inflight
          ensures IsPending(next, next.inflight[k]) && next.promises[next.inflight[k]].key == k
        {
          assert s.inflight[k] != p;
        }
        forall q | IsPending(next, q)
          ensures next.promises[q].key in next.inflight && next.inflight[next.promises[q].key] == q
        {
          assert IsPending(s, q) && q != p;
        }
      }
    case Other(op) =>
      assert forall q :: IsPending(next, q) <==> IsPending(s, q);
    case Clear =>
      assert forall q :: IsPending(next, q) <==> IsPending(s, q);
  }

  ghost predicate ExactThroughout<V>(s: Service<V>, run: seq<Event<V>>)
    decreases |run|
  {
    Exact(s) && (run != [] ==> ExactThroughout(Next(s, run[0]), run[1..]))
  }

  ghost predicate Undisturbed<V>(s: Service<V>, run: seq<Event<V>>)
    decreases |run|
  {
    run != [] ==> !Disturbs(s, run[0]) && Undisturbed(Next(s, run[0]), run[1..])
  }

  /**
   Over a whole run the bookkeeping is exact, hence at most one callback per key pending, if and only if no
   callback throws synchronously and no clear happens while a callback is pending.
   */
  lemma {:induction false} ExactIffUndisturbed<V>(s: Service<V>, run: seq<Event<V>>)
    requires Exact(s)
    ensures ExactThroughout(s, run) <==> Undisturbed(s, run)
    decreases |run|
  {
    if run != [] {
      StepIsExactUnlessDisturbed(s, run[0]);
      if Exact(Next(s, run[0])) {
        ExactIffUndisturbed(Next(s, run[0]), run[1..]);
      }
    }
  }

  lemma {:induction false} UndisturbedRunIsExact<V>(s: Service<V>, run: seq<Event<V>>)
    requires Exact(s) && Undisturbed(s, run)
    ensures Exact(Replay(s, run))
    decreases |run|
  {
    if run != [] {
      StepIsExactUnlessDisturbed(s, run[0]);
      UndisturbedRunIsExact(Next(s, run[0]), run[1..]);
    }
  }

  lemma InitiallyExact<V>()
    ensures Exact(Initial<V>())
  {
    assert forall p :: !IsPending(Initial<V>(), p);
  }

  lemma AtMostOnePending<V>(run: seq<Event<V>>, p: PromiseId, q: PromiseId)
    requires Undisturbed(Initial<V>(), run)
    requires var s := Replay(Initial<V>(), run);
             IsPending(s, p) && IsPending(s, q) && s.promises[p].key == s.promises[q].key
    ensures p == q
  {
    InitiallyExact<V>();
    UndisturbedRunIsExact(Initial<V>(), run);
  }

  /** The outcome of one promise, judged by its own settlements alone. */
  function Fate<V>(p: PromiseId, now: Promise<V>, run: seq<Event<V>>): Promise<V>
    decreases |run|
  {
    if run == [] then now
    else if run[0].Settle? && run[0].promise == p && now.Pending? then Fate(p, Settled(run[0].outcome), run[1..])
    else Fate(p, now, run[1..])
  }

  lemma {:induction false} PromiseFaresAlone<V>(s: Service<V>, p: PromiseId, run: seq<Event<V>>)
    requires p < |s.promises|
    ensures var last := Replay(s, run);
            p < |last.promises| && last.promises[p] == Fate(p, s.promises[p], run)
    decreases |run|
  {
    if run != [] {
      PromiseFaresAlone(Next(s, run[0]), p, run[1..]);
    }
  }

  /**
   A caller that misses while a callback for its key is pending starts no second one; it is handed that callback's
   promise, and after any continuation of the run that promise has the outcome, success or failure, which the
   callback's first settlement gave it.
   */
  lemma JoinersShareTheOutcome<V>(before: seq<Event<V>>, p: PromiseId, co: Option<Options>, throws: Option<string>,
                                  now: int, after: seq<Event<V>>)
    requires Undisturbed(Initial<V>(), before)
    requires IsPending(Replay(Initial<V>(), before), p)
    ensures var s := Replay(Initial<V>(), before);
            var key := s.promises[p].key;
            var (joined, answer) := OnCall(s, key, co, throws, now);
            && (OnGet(s.cache, key, co, now).1.None? ==> answer == Awaiting(p))
            && joined.promises == s.promises
            && p < |Replay(joined, after).promises|
            && Replay(joined, after).promises[p] == Fate(p, s.promises[p], after)
  {
    InitiallyExact<V>();
    UndisturbedRunIsExact(Initial<V>(), before);
    var s := Replay(Initial<V>(), before);
    var (joined, answer) := OnCall(s, s.promises[p].key, co, throws, now);
    PromiseFaresAlone(joined, p, after);
  }

  /** Stuck: the key is bound to a rejected promise and no callback for it can run. */
  ghost predicate Stuck<V>(s: Service<V>, key: Key, p: PromiseId) {
    && key in s.inflight && s.inflight[key] == p
    && p < |s.promises| && s.promises[p].Settled? && s.promises[p].outcome.Err?
    && (forall q | IsPending(s, q) :: s.promises[q].key != key)
  }

  /** What a synchronous throw leads to: until the next clear every caller that misses gets that same rejection. */
  lemma {:induction false} StuckUntilClear<V>(s: Service<V>, key: Key, p: PromiseId, run: seq<Event<V>>)
    requires Stuck(s, key, p)
    requires forall e <- run :: !e.Clear?
    ensures Stuck(Replay(s, run), key, p)
    ensures Replay(s, run).promises[p] == s.promises[p]
    decreases |run|
  {
    if run != [] {
      var next := Next(s, run[0]);
      forall q | IsPending(next, q) ensures next.promises[q].key != key {
        if q < |s.promises| {
          assert IsPending(s, q);
        }
      }
      StuckUntilClear(next, key, p, run[1..]);
    }
  }

  lemma SynchronousThrowSticks<V>(s: Service<V>, e: Event<V>)
    requires Exact(s) && StartsCallback(s, e) && e.throws.Some?
    ensures Stuck(Next(s, e), e.key, |s.promises|)
    ensures Next(s, e).promises[|s.promises|] == Settled(Err(e.throws.value))
  {
    var next := Next(s, e);
    forall q | IsPending(next, q) ensures next.promises[q].key != e.key {
      if q < |s.promises| {
        assert IsPending(s, q);
      }
    }
  }

  /** A resolved callback leaves its value behind: until its livetime is over callers are served from the cache. */
  lemma ResolvedValueIsServed<V>(s: Service<V>, p: PromiseId, value: V, now: int, co: Option<Options>,
                                 throws: Option<string>, later: int)
    requires IsPending(s, p) && now <= later
    requires var life := s.promises[p].co;
             life.Some? && life.value.livetime.Some? && life.value.livetime.value != 0 ==>
               later < now + life.value.livetime.value
    ensures var settled := OnSettle(s, p, Ok(Some(value)), now);
            OnCall(settled, s.promises[p].key, co, throws, later).1 == Cached(Some(value))
  {
  }

  /** A rejected one stores nothing; either way its key is free for a new callback and the promise keeps the outcome. */
  lemma SettlingFreesTheKey<V>(s: Service<V>, p: PromiseId, outcome: Result<Option<V>, string>, now: int)
    requires Exact(s) && IsPending(s, p)
    ensures var settled := OnSettle(s, p, outcome, now);
            var key := s.promises[p].key;
            && key !in settled.inflight && settled.promises[p] == Settled(outcome)
            && (forall k | k != key ::
                  && (k in settled.inflight <==> k in s.inflight)
                  && (k in s.inflight ==> settled.inflight[k] == s.inflight[k])
                  && (k in settled.cache.entries <==> k in s.cache.entries)
                  && (k in s.cache.entries ==> settled.cache.entries[k] == s.cache.entries[k]))
            && (outcome.Err? ==> settled.cache == s.cache)
  {
  }

  /** Whatever it answers, a call treats the cache as a get does: expired entries go, ON_GET entries are prolonged. */
  lemma CallTouchesTheCacheLikeGet<V>(s: Service<V>, key: Key, co: Option<Options>, throws: Option<string>, now: int)
    ensures var (after, answer) := OnCall(s, key, co, throws, now);
            && after.cache == OnGet(s.cache, key, co, now).0
            && (answer.Cached? <==> OnGet(s.cache, key, co, now).1 != None)
            && (answer.Cached? ==> answer.value == OnGet(s.cache, key, co, now).1
                                   && after.promises == s.promises && after.inflight == s.inflight)
  {
  }

  /** The other operations act on the cache alone; a clear empties it and forgets who is in flight, but no promise. */
  lemma OtherOperations<V>(s: Service<V>, op: Timed<V>)
    ensures Next(s, Other(op)) == if op.op.Clear? then s else Service(Step(s.cache, op).0, s.inflight, s.promises)
    ensures Next<V>(s, Event.Clear).promises == s.promises
    ensures Next<V>(s, Event.Clear).inflight == map[] && Next<V>(s, Event.Clear).cache.entries == map[]
  {
  }
}
