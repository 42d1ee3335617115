/**
 The TTL cache of libs/cache-manager: a map of entries, a sorted and lazily cleaned expiry index, and one
 timer. Times are epoch milliseconds; one call of the cache happens at one instant.
 */
module Caches {
  import opened Prelude

  type Key = string

  datatype Extending = ON_GET | CONSTANT

  /** CachingOptions. */
  datatype Options = Options(livetime: Option<int>, extending: Option<Extending>)

  /** Values are what JavaScript stores: None is `undefined`. A null `expiresAt` is an endless life. */
  datatype Entry<V> = Entry(value: Option<V>, policy: Option<Extending>, expiresAt: Option<int>)

  datatype ExpireItem = ExpireItem(key: Key, expiresAt: int)

  /** `scheduler` holds the delay the armed timer was given. */
  datatype Cache<V> = Cache(entries: map<Key, Entry<V>>, expirations: seq<ExpireItem>, scheduler: Option<int>)

  const MAX_INT := 0x7fff_ffff

  function Empty<V>(): Cache<V> {
    Cache(map[], [], None)
  }

  /** The test `co?.livetime`: a missing or zero livetime counts as none. */
  function Livetime(co: Option<Options>): Option<int> {
    if co.Some? && co.value.livetime.Some? && co.value.livetime.value != 0 then co.value.livetime else None
  }

  function NewEntry<V>(value: Option<V>, co: Option<Options>, now: int): Entry<V> {
    var life := Livetime(co);
    if life.None? then Entry(value, None, None)
    else Entry(value,
               Some(if co.value.extending.Some? then co.value.extending.value else CONSTANT),
               Some(now + life.value))
  }

  predicate Expired<V>(e: Entry<V>, now: int) {
    e.expiresAt.Some? && e.expiresAt.value <= now
  }

  /** Whether a successful get prolongs the entry. */
  predicate Extends<V>(e: Entry<V>, co: Option<Options>) {
    e.policy == Some(ON_GET) && e.expiresAt.Some? && Livetime(co).Some?
  }

  // ---------------------------------------------------------------- the expiry index

  function Insert(items: seq<ExpireItem>, item: ExpireItem): seq<ExpireItem> {
    if items == [] || items[|items| - 1].expiresAt <= item.expiresAt then items + [item]
    else Insert(items[..|items| - 1], item) + [items[|items| - 1]]
  }

  /** `Array.prototype.sort` with `a.expiresAt - b.expiresAt`, which is stable. */
  function SortByExpiry(items: seq<ExpireItem>): seq<ExpireItem> {
    if items == [] then [] else Insert(SortByExpiry(items[..|items| - 1]), items[|items| - 1])
  }

  function WithoutAll(items: seq<ExpireItem>, keys: set<Key>): seq<ExpireItem> {
    if items == [] then []
    else (if items[0].key in keys then [] else [items[0]]) + WithoutAll(items[1..], keys)
  }

  /** How many items at the front are due. */
  function CountDue(items: seq<ExpireItem>, now: int): (n: nat)
    ensures n <= |items|
    ensures forall i | 0 <= i < n :: items[i].expiresAt <= now
    ensures n < |items| ==> items[n].expiresAt > now
  {
    if items == [] || items[0].expiresAt > now then 0 else 1 + CountDue(items[1..], now)
  }

  /** The lazy validation of one item: its entry still exists, is due, and has this very expiry. */
  predicate Confirms<V>(entries: map<Key, Entry<V>>, item: ExpireItem, now: int) {
    item.key in entries && Expired(entries[item.key], now) && entries[item.key].expiresAt == Some(item.expiresAt)
  }

  /** Deletes the entry of every item that is confirmed. */
  function DropDue<V>(entries: map<Key, Entry<V>>, items: seq<ExpireItem>, now: int): map<Key, Entry<V>>
    decreases |items|
  {
    if items == [] then entries else
      var item := items[|items| - 1];
      var before := DropDue(entries, items[..|items| - 1], now);
      if Confirms(before, item, now) then before - {item.key} else before
  }

  function NextDelay(items: seq<ExpireItem>, now: int): int {
    if items == [] then MAX_INT else Max(0, Min(items[0].expiresAt - now, MAX_INT))
  }

  // ---------------------------------------------------------------- operations

  function Schedule<V>(c: Cache<V>, item: ExpireItem, now: int): Cache<V> {
    var items := SortByExpiry(c.expirations + [item]);
    Cache(c.entries, items, if c.scheduler.Some? then c.scheduler else Some(NextDelay(items, now)))
  }

  function OnPut<V>(c: Cache<V>, key: Key, value: Option<V>, co: Option<Options>, now: int): Cache<V> {
    var e := NewEntry(value, co, now);
    var stored := c.(entries := c.entries[key := e]);
    if e.expiresAt.Some? then Schedule(stored, ExpireItem(key, e.expiresAt.value), now) else stored
  }

  /** Invalidation of several present keys at once; of one key for `invalidateStr`. */
  function Purge<V>(c: Cache<V>, keys: set<Key>): Cache<V> {
    if keys == {} then c else
      var items := WithoutAll(c.expirations, keys);
      Cache(c.entries - keys, items, if items == [] then None else c.scheduler)
  }

  function OnGet<V>(c: Cache<V>, key: Key, co: Option<Options>, now: int): (Cache<V>, Option<V>) {
    if key !in c.entries then (c, None) else
      var e := c.entries[key];
      if Expired(e, now) then (Purge(c, {key}), None)
      else if Extends(e, co) then
        var expiry := now + Livetime(co).value;
        var prolonged := c.(entries := c.entries[key := e.(expiresAt := Some(expiry))]);
        (Schedule(prolonged, ExpireItem(key, expiry), now), e.value)
      else (c, e.value)
  }

  function OnDrain<V>(c: Cache<V>, now: int): Cache<V> {
    var n := CountDue(c.expirations, now);
    var items := c.expirations[n..];
    Cache(DropDue(c.entries, c.expirations[..n], now), items,
          if items == [] then None else Some(NextDelay(items, now)))
  }

  /** The service object, updated in place; `getOrCallAsync` is in module InFlight. */
  class CacheManager<V> {
    var entries: map<Key, Entry<V>>
    var expirations: seq<ExpireItem>
    var scheduler: Option<int>

    function View(): Cache<V>
      reads this
    {
      Cache(entries, expirations, scheduler)
    }

    constructor ()
      ensures View() == Empty<V>()
    {
      entries, expirations, scheduler := map[], [], None;
    }

    method Has(key: Key) returns (found: bool)
      ensures found <==> key in entries
    {
      found := key in entries;
    }

    method Get(key: Key, co: Option<Options>, now: int) returns (value: Option<V>)
      modifies this
      ensures (View(), value) == OnGet(old(View()), key, co, now)
    {
      if key !in entries {
        return None;
      }
      var e := entries[key];
      if e.expiresAt.Some? && e.expiresAt.value <= now {
        InvalidateStr(key);
        return None;
      }
      if e.policy == Some(ON_GET) && e.expiresAt.Some? && Livetime(co).Some? {
        ExtendTtl(key, Livetime(co).value, now);
      }
      value := e.value;
    }

    method Put(key: Key, value: Option<V>, co: Option<Options>, now: int)
      modifies this
      ensures View() == OnPut(old(View()), key, value, co, now)
    {
      var e := NewEntry(value, co, now);
      entries := entries[key := e];
      if e.expiresAt.Some? {
        ScheduleExpire(key, e.expiresAt.value, now);
      }
    }

    /** The callback returns something, perhaps undefined, or throws; then its error is passed on and nothing stored. */
    method GetOrCall<E>(key: Key, callback: Result<Option<V>, E>, co: Option<Options>, now: int)
      returns (r: Result<Option<V>, E>)
      modifies this
      ensures var (c, cached) := OnGet(old(View()), key, co, now);
              if cached.Some? then (View(), r) == (c, Ok(cached))
              else (View(), r) == (if callback.Ok? then OnPut(c, key, callback.value, co, now) else c, callback)
    {
      var cached := Get(key, co, now);
      if cached.Some? {
        return Ok(cached);
      }
      if callback.Ok? {
        Put(key, callback.value, co, now);
      }
      r := callback;
    }

    method InvalidateStr(key: Key)
      modifies this
      ensures View() == if key in old(entries) then Purge(old(View()), {key}) else old(View())
    {
      var existed := key in entries;
      entries := entries - {key};
      if existed {
        CleanExpirations(key);
      }
    }

    method CleanExpirations(key: Key)
      modifies this`expirations, this`scheduler
      ensures expirations == WithoutAll(old(expirations), {key})
      ensures scheduler == if expirations == [] then None else old(scheduler)
    {
      expirations := WithoutAll(expirations, {key});
      if |expirations| == 0 {
        scheduler := None;
      }
    }

    /** `matching` are the strings the regular expression accepts. */
    method InvalidateRegex(matching: set<Key>)
      modifies this
      ensures View() == Purge(old(View()), old(entries).Keys * matching)
    {
      var todo := entries.Keys;
      ghost var done: set<Key> := {};
      while todo != {}
        invariant todo + done == old(entries).Keys && todo !! done
        invariant View() == Purge(old(View()), done * matching)
        decreases todo
      {
        var key :| key in todo;
        if key in matching {
          PurgeMore(old(View()), done * matching, key);
          InvalidateStr(key);
          assert (done + {key}) * matching == done * matching + {key};
        } else {
          assert (done + {key}) * matching == done * matching;
        }
        done, todo := done + {key}, todo - {key};
      }
    }

    method Clear()
      modifies this
      ensures View() == Empty<V>()
    {
      entries, expirations, scheduler := map[], [], None;
    }

    method ExtendTtl(key: Key, livetime: int, now: int)
      requires key in entries
      modifies this
      ensures View() == Schedule(
                old(View()).(entries := old(entries)[key := old(entries)[key].(expiresAt := Some(now + livetime))]),
                ExpireItem(key, now + livetime), now)
    {
      entries := entries[key := entries[key].(expiresAt := Some(now + livetime))];
      ScheduleExpire(key, now + livetime, now);
    }

    method ScheduleExpire(key: Key, expiresAt: int, now: int)
      modifies this`expirations, this`scheduler
      ensures View() == Schedule(old(View()), ExpireItem(key, expiresAt), now)
    {
      expirations := SortByExpiry(expirations + [ExpireItem(key, expiresAt)]);
      EnsureScheduler(now);
    }

    method EnsureScheduler(now: int)
      modifies this`scheduler
      ensures scheduler == if old(scheduler).Some? then old(scheduler) else Some(NextDelay(expirations, now))
    {
      if scheduler.Some? {
        return;
      }
      scheduler := Some(NextDelay(expirations, now));
    }

    /** The timer callback. */
    method DrainExpirations(now: int)
      modifies this
      ensures View() == OnDrain(old(View()), now)
    {
      scheduler := None;
      var i := 0;
      while i < |expirations| && expirations[i].expiresAt <= now
        invariant 0 <= i <= CountDue(expirations, now)
        invariant expirations == old(expirations) && scheduler.None?
        invariant entries == DropDue(old(entries), expirations[..i], now)
        decreases |expirations| - i
      {
        var item := expirations[i];
        DropOneMore(old(entries), expirations, i, now);
        if Confirms(entries, item, now) {
          entries := entries - {item.key};
        }
        i := i + 1;
      }
      if i > 0 {
        expirations := expirations[i..];
      }
      if |expirations| > 0 {
        EnsureScheduler(now);
      }
    }
  }

  lemma DropOneMore<V>(entries: map<Key, Entry<V>>, items: seq<ExpireItem>, i: nat, now: int)
    requires i < |items|
    ensures var before := DropDue(entries, items[..i], now);
            DropDue(entries, items[..i + 1], now) ==
            if Confirms(before, items[i], now) then before - {items[i].key} else before
  {
    assert items[..i + 1][..i] == items[..i];
  }

  lemma {:induction false} WithoutMore(items: seq<ExpireItem>, keys: set<Key>, key: Key)
    ensures WithoutAll(WithoutAll(items, keys), {key}) == WithoutAll(items, keys + {key})
  {
    if items != [] {
      WithoutMore(items[1..], keys, key);
      var rest := WithoutAll(items[1..], keys);
      if items[0].key !in keys {
        assert ([items[0]] + rest)[1..] == rest;
      } else {
        assert [] + rest == rest;
      }
    }
  }

  lemma PurgeMore<V>(c: Cache<V>, keys: set<Key>, key: Key)
    requires key !in keys && key in c.entries
    ensures Purge(Purge(c, keys), {key}) == Purge(c, keys + {key})
  {
    WithoutMore(c.expirations, keys, key);
    assert c.entries - keys - {key} == c.entries - (keys + {key});
    if keys == {} {
      assert keys + {key} == {key};
    } else if WithoutAll(c.expirations, keys) == [] {
      assert WithoutAll([], {key}) == [];
    }
  }

  // ---------------------------------------------------------------- faithful index

  ghost predicate Sorted(items: seq<ExpireItem>) {
    forall i, j | 0 <= i < j < |items| :: items[i].expiresAt <= items[j].expiresAt
  }

  /** Sorted, every finite life indexed under its own expiry, a timer armed exactly while the index is not empty. */
  ghost predicate Faithful<V>(c: Cache<V>) {
    && Sorted(c.expirations)
    && (forall k | k in c.entries && c.entries[k].expiresAt.Some? ::
          ExpireItem(k, c.entries[k].expiresAt.value) in c.expirations)
    && (c.scheduler.Some? <==> c.expirations != [])
  }

  lemma {:induction false} InsertInserts(items: seq<ExpireItem>, item: ExpireItem)
    ensures multiset(Insert(items, item)) == multiset(items) + multiset{item}
  {
    if items != [] && items[|items| - 1].expiresAt > item.expiresAt {
      var init, last := items[..|items| - 1], items[|items| - 1];
      assert items == init + [last];
      InsertInserts(init, item);
    }
  }

  lemma {:induction false} InsertSorts(items: seq<ExpireItem>, item: ExpireItem)
    requires Sorted(items)
    ensures Sorted(Insert(items, item))
    ensures Insert(items, item) != []
    ensures Insert(items, item)[|Insert(items, item)| - 1].expiresAt ==
            if items == [] then item.expiresAt else Max(items[|items| - 1].expiresAt, item.expiresAt)
  {
    if items != [] && items[|items| - 1].expiresAt > item.expiresAt {
      InsertSorts(items[..|items| - 1], item);
    }
  }

  /** What is assumed of the library sort holds of its model: the same items, in order of expiry. */
  lemma {:induction false} SortSorts(items: seq<ExpireItem>)
    ensures Sorted(SortByExpiry(items))
  {
    if items != [] {
      SortSorts(items[..|items| - 1]);
      InsertSorts(SortByExpiry(items[..|items| - 1]), items[|items| - 1]);
    }
  }

  lemma {:induction false} SortKeepsItems(items: seq<ExpireItem>)
    ensures multiset(SortByExpiry(items)) == multiset(items)
  {
    if items != [] {
      var init, last := items[..|items| - 1], items[|items| - 1];
      SortKeepsItems(init);
      InsertInserts(SortByExpiry(init), last);
      assert items == init + [last];
    }
  }

  lemma ScheduleIndexes<V>(c: Cache<V>, item: ExpireItem, now: int)
    requires c.scheduler.Some? <==> c.expirations != []
    ensures var s := Schedule(c, item, now);
            && Sorted(s.expirations)
            && (forall x :: x in s.expirations <==> x in c.expirations || x == item)
            && s.scheduler.Some? && s.expirations != []
  {
    var pushed := c.expirations + [item];
    SortSorts(pushed);
    SortKeepsItems(pushed);
    var s := Schedule(c, item, now);
    assert multiset(pushed) == multiset(c.expirations) + multiset{item};
    forall x ensures x in s.expirations <==> x in c.expirations || x == item {
      assert x in s.expirations <==> x in multiset(s.expirations);
      assert x in c.expirations <==> x in multiset(c.expirations);
    }
    assert item in s.expirations;
  }

  lemma {:induction false} WithoutIsFilter(items: seq<ExpireItem>, keys: set<Key>)
    ensures forall x :: x in WithoutAll(items, keys) <==> x in items && x.key !in keys
  {
    if items != [] {
      WithoutIsFilter(items[1..], keys);
      assert items == [items[0]] + items[1..];
    }
  }

  lemma {:induction false} WithoutKeepsOrder(items: seq<ExpireItem>, keys: set<Key>)
    requires Sorted(items)
    ensures Sorted(WithoutAll(items, keys))
  {
    if items != [] {
      var tail := items[1..];
      assert forall i | 0 <= i < |tail| :: tail[i] == items[i + 1];
      WithoutKeepsOrder(tail, keys);
      WithoutIsFilter(tail, keys);
      var rest := WithoutAll(tail, keys);
      forall i | 0 <= i < |rest| ensures items[0].expiresAt <= rest[i].expiresAt {
        assert rest[i] in tail;
      }
    }
  }

  lemma PurgeKeepsFaithful<V>(c: Cache<V>, keys: set<Key>)
    requires Faithful(c)
    ensures Faithful(Purge(c, keys))
  {
    WithoutKeepsOrder(c.expirations, keys);
    WithoutIsFilter(c.expirations, keys);
    if keys != {} && WithoutAll(c.expirations, keys) != [] {
      assert WithoutAll(c.expirations, keys)[0] in c.expirations;
    }
  }

  lemma PutKeepsFaithful<V>(c: Cache<V>, key: Key, value: Option<V>, co: Option<Options>, now: int)
    requires Faithful(c)
    ensures Faithful(OnPut(c, key, value, co, now))
  {
    var e := NewEntry(value, co, now);
    if e.expiresAt.Some? {
      StoreKeepsFaithful(c, key, e, now);
    }
  }

  lemma GetKeepsFaithful<V>(c: Cache<V>, key: Key, co: Option<Options>, now: int)
    requires Faithful(c)
    ensures Faithful(OnGet(c, key, co, now).0)
  {
    if key in c.entries {
      var e := c.entries[key];
      if Expired(e, now) {
        PurgeKeepsFaithful(c, {key});
      } else if Extends(e, co) {
        StoreKeepsFaithful(c, key, e.(expiresAt := Some(now + Livetime(co).value)), now);
      }
    }
  }

  /** Storing an entry of finite life together with its index item. */
  lemma StoreKeepsFaithful<V>(c: Cache<V>, key: Key, e: Entry<V>, now: int)
    requires Faithful(c) && e.expiresAt.Some?
    ensures Faithful(Schedule(c.(entries := c.entries[key := e]), ExpireItem(key, e.expiresAt.value), now))
  {
    ScheduleIndexes(c.(entries := c.entries[key := e]), ExpireItem(key, e.expiresAt.value), now);
  }

  /** The live part of a map, found by looking at every entry. */
  function Live<V>(entries: map<Key, Entry<V>>, now: int): map<Key, Entry<V>> {
    map k | k in entries && !Expired(entries[k], now) :: entries[k]
  }

  lemma {:induction false} DropDueDrops<V>(entries: map<Key, Entry<V>>, items: seq<ExpireItem>, now: int)
    ensures var left := DropDue(entries, items, now);
            && left.Keys <= entries.Keys
            && (forall k | k in left :: left[k] == entries[k])
            && (forall k | k in entries :: k !in left <==>
                  Expired(entries[k], now) && ExpireItem(k, entries[k].expiresAt.value) in items)
    decreases |items|
  {
    if items != [] {
      DropDueDrops(entries, items[..|items| - 1], now);
      assert items == items[..|items| - 1] + [items[|items| - 1]];
    }
  }

  lemma DrainDropsExpired<V>(c: Cache<V>, now: int)
    requires Faithful(c)
    ensures OnDrain(c, now).entries == Live(c.entries, now)
  {
    var due := c.expirations[..CountDue(c.expirations, now)];
    DropDueDrops(c.entries, due, now);
    DueItemsInFront(c.expirations, now);
    forall k | k in c.entries && Expired(c.entries[k], now)
      ensures ExpireItem(k, c.entries[k].expiresAt.value) in due
    {
      assert ExpireItem(k, c.entries[k].expiresAt.value) in c.expirations;
    }
  }

  /** Despite stale items, a drain removes just what a full scan for expired entries would, and re-arms for the rest. */
  lemma DrainIsFullScan<V>(c: Cache<V>, now: int)
    requires Faithful(c)
    ensures Faithful(OnDrain(c, now))
    ensures OnDrain(c, now).entries == Live(c.entries, now)
    ensures forall item <- OnDrain(c, now).expirations :: item.expiresAt > now
  {
    DrainDropsExpired(c, now);
    DueItemsInFront(c.expirations, now);
    var after := OnDrain(c, now);
    forall k | k in after.entries && after.entries[k].expiresAt.Some?
      ensures ExpireItem(k, after.entries[k].expiresAt.value) in after.expirations
    {
      assert ExpireItem(k, c.entries[k].expiresAt.value) in c.expirations;
    }
  }

  /** The timer waits exactly for the first expiry, unless that is past or further away than a timer can wait. */
  lemma DelayIsExact(items: seq<ExpireItem>, now: int)
    requires items != []
    ensures var delay, first := NextDelay(items, now), items[0].expiresAt;
            && 0 <= delay <= 0x7fff_ffff
            && (first <= now ==> delay == 0)
            && (now < first <= now + 0x7fff_ffff ==> now + delay == first)
            && (first > now + 0x7fff_ffff ==> delay == 0x7fff_ffff)
  {
  }

  /** A drain arms the timer for what is left, and an invalidation leaves no item of its keys in the index. */
  lemma IndexIsTidied<V>(c: Cache<V>, now: int, keys: set<Key>)
    ensures var drained := OnDrain(c, now);
            drained.scheduler == if drained.expirations == [] then None else Some(NextDelay(drained.expirations, now))
    ensures keys != {} ==> forall x :: x in Purge(c, keys).expirations <==> x in c.expirations && x.key !in keys
  {
    WithoutIsFilter(c.expirations, keys);
  }

  /** Storing indexes the new expiry, and arms the timer for the first one only if none is armed. */
  lemma StoringArms<V>(c: Cache<V>, key: Key, value: Option<V>, co: Option<Options>, now: int)
    requires c.scheduler.Some? <==> c.expirations != []
    ensures var after := OnPut(c, key, value, co, now);
            && key in after.entries && after.entries[key].value == value
            && (forall k | k in c.entries && k != key :: k in after.entries && after.entries[k] == c.entries[k])
            && (c.scheduler.Some? ==> after.scheduler == c.scheduler)
            && (c.scheduler.None? && after.expirations != [] ==>
                  after.scheduler == Some(NextDelay(after.expirations, now)))
            && forall x :: x in after.expirations <==>
                 x in c.expirations || (x.key == key && after.entries[key].expiresAt == Some(x.expiresAt))
  {
    var e := NewEntry(value, co, now);
    if e.expiresAt.Some? {
      ScheduleIndexes(c.(entries := c.entries[key := e]), ExpireItem(key, e.expiresAt.value), now);
    }
  }

  /** In a sorted index the due items are the counted front, and the front only. */
  lemma DueItemsInFront(items: seq<ExpireItem>, now: int)
    requires Sorted(items)
    ensures var n := CountDue(items, now);
            forall x <- items :: if x.expiresAt <= now then x in items[..n] else x in items[n..]
    ensures forall x <- items[CountDue(items, now)..] :: x.expiresAt > now
  {
    var n := CountDue(items, now);
    forall i | n <= i < |items| ensures items[i].expiresAt > now {
      assert items[n].expiresAt <= items[i].expiresAt;
    }
    assert forall i | 0 <= i < n :: items[..n][i] == items[i];
    assert forall i | n <= i < |items| :: items[n..][i - n] == items[i];
  }

  // ---------------------------------------------------------------- refinement of a timer-free map

  /** A getOrCall whose callback throws acts like a get; its error stands for the missing answer. */
  datatype Op<V> =
    | Get(key: Key, co: Option<Options>)
    | Put(key: Key, value: Option<V>, co: Option<Options>)
    | GetOrCall(key: Key, result: Option<V>, co: Option<Options>)
    | Invalidate(key: Key)
    | InvalidateRegex(matching: set<Key>)
    | Clear
    | Drain

  datatype Timed<V> = At(now: int, op: Op<V>)

  /** One operation on the cache, and what the client sees. The timer only fires while armed. */
  function Step<V>(c: Cache<V>, t: Timed<V>): (Cache<V>, Option<V>) {
    match t.op
    case Get(key, co) => OnGet(c, key, co, t.now)
    case Put(key, value, co) => (OnPut(c, key, value, co, t.now), None)
    case GetOrCall(key, result, co) =>
      var (c', cached) := OnGet(c, key, co, t.now);
      if cached.Some? then (c', cached) else (OnPut(c', key, result, co, t.now), result)
    case Invalidate(key) => (if key in c.entries then Purge(c, {key}) else c, None)
    case InvalidateRegex(matching) => (Purge(c, c.entries.Keys * matching), None)
    case Clear => (Empty(), None)
    case Drain => (if c.scheduler.Some? then OnDrain(c, t.now) else c, None)
  }

  /** The same on a plain map: nothing is ever removed by time, an expired entry just does not answer. */
  function SpecGet<V>(m: map<Key, Entry<V>>, key: Key, co: Option<Options>, now: int): (map<Key, Entry<V>>, Option<V>) {
    if key !in m || Expired(m[key], now) then (m, None)
    else if Extends(m[key], co) then (m[key := m[key].(expiresAt := Some(now + Livetime(co).value))], m[key].value)
    else (m, m[key].value)
  }

  /** What a put promises, on the plain map: the value is served until its livetime is over, or for ever without one. */
  lemma EntryLivesItsLivetime<V>(m: map<Key, Entry<V>>, key: Key, value: Option<V>, co: Option<Options>,
                                 stored: int, now: int)
    ensures var life := if co.Some? && co.value.livetime.Some? then co.value.livetime.value else 0;
            SpecGet(m[key := NewEntry(value, co, stored)], key, None, now).1
            == if life != 0 && now >= stored + life then None else value
  {
  }

  /** A get with a livetime prolongs an ON_GET entry that is still alive, and only such an entry. */
  lemma OnlyOnGetIsProlonged<V>(m: map<Key, Entry<V>>, key: Key, value: Option<V>, life: int,
                                extending: Option<Extending>, stored: int, longer: int, read: int, now: int)
    requires life > 0 && longer > 0 && stored <= read < stored + life
    ensures var put := m[key := NewEntry(value, Some(Options(Some(life), extending)), stored)];
            var got := SpecGet(put, key, Some(Options(Some(longer), None)), read);
            && got.1 == value
            && SpecGet(got.0, key, None, now).1 ==
               if now >= (if extending == Some(ON_GET) then read + longer else stored + life) then None else value
  {
  }

  function SpecStep<V>(m: map<Key, Entry<V>>, t: Timed<V>): (map<Key, Entry<V>>, Option<V>) {
    match t.op
    case Get(key, co) => SpecGet(m, key, co, t.now)
    case Put(key, value, co) => (m[key := NewEntry(value, co, t.now)], None)
    case GetOrCall(key, result, co) =>
      var (m', cached) := SpecGet(m, key, co, t.now);
      if cached.Some? then (m', cached) else (m'[key := NewEntry(result, co, t.now)], result)
    case Invalidate(key) => (m - {key}, None)
    case InvalidateRegex(matching) => (m - matching, None)
    case Clear => (map[], None)
    case Drain => (m, None)
  }

  /** The cache holds what the plain map holds, but may have lost entries that expired by `now`. */
  ghost predicate Refines<V>(entries: map<Key, Entry<V>>, m: map<Key, Entry<V>>, now: int) {
    && (forall k | k in entries :: k in m && entries[k] == m[k])
    && (forall k | k in m && k !in entries :: Expired(m[k], now))
  }

  lemma GetRefines<V>(c: Cache<V>, m: map<Key, Entry<V>>, key: Key, co: Option<Options>, now: int)
    requires Faithful(c) && Refines(c.entries, m, now)
    ensures var (c', value) := OnGet(c, key, co, now);
            var (m', expected) := SpecGet(m, key, co, now);
            value == expected && Faithful(c') && Refines(c'.entries, m', now)
  {
    GetKeepsFaithful(c, key, co, now);
  }

  lemma PutRefines<V>(c: Cache<V>, m: map<Key, Entry<V>>, key: Key, value: Option<V>, co: Option<Options>, now: int)
    requires Refines(c.entries, m, now)
    ensures Refines(OnPut(c, key, value, co, now).entries, m[key := NewEntry(value, co, now)], now)
  {
    assert OnPut(c, key, value, co, now).entries == c.entries[key := NewEntry(value, co, now)];
  }

  lemma PurgeRefines<V>(c: Cache<V>, m: map<Key, Entry<V>>, keys: set<Key>, now: int)
    requires Faithful(c) && Refines(c.entries, m, now)
    ensures Faithful(Purge(c, c.entries.Keys * keys))
    ensures Refines(Purge(c, c.entries.Keys * keys).entries, m - keys, now)
  {
    PurgeKeepsFaithful(c, c.entries.Keys * keys);
    forall k | k in c.entries && k in keys ensures k in c.entries.Keys * keys {}
  }

  lemma {:induction false} StepRefines<V>(c: Cache<V>, m: map<Key, Entry<V>>, t: Timed<V>)
    requires Faithful(c) && Refines(c.entries, m, t.now)
    ensures var (c', value) := Step(c, t);
            var (m', expected) := SpecStep(m, t);
            value == expected && Faithful(c') && Refines(c'.entries, m', t.now)
  {
    match t.op
    case Get(key, co) => GetRefines(c, m, key, co, t.now);
    case Put(key, value, co) =>
      PutKeepsFaithful(c, key, value, co, t.now);
      PutRefines(c, m, key, value, co, t.now);
    case GetOrCall(key, result, co) =>
      GetRefines(c, m, key, co, t.now);
      PutKeepsFaithful(OnGet(c, key, co, t.now).0, key, result, co, t.now);
      PutRefines(OnGet(c, key, co, t.now).0, SpecGet(m, key, co, t.now).0, key, result, co, t.now);
    case Invalidate(key) =>
      PurgeRefines(c, m, {key}, t.now);
      assert c.entries.Keys * {key} == if key in c.entries then {key} else {};
    case InvalidateRegex(matching) => PurgeRefines(c, m, matching, t.now);
    case Clear =>
    case Drain => DrainIsFullScan(c, t.now);
  }

  function Outputs<V>(c: Cache<V>, run: seq<Timed<V>>): (seq<Option<V>>, Cache<V>)
    decreases |run|
  {
    if run == [] then ([], c) else
      var (c', value) := Step(c, run[0]);
      var (rest, last) := Outputs(c', run[1..]);
      ([value] + rest, last)
  }

  function SpecOutputs<V>(m: map<Key, Entry<V>>, run: seq<Timed<V>>): (seq<Option<V>>, map<Key, Entry<V>>)
    decreases |run|
  {
    if run == [] then ([], m) else
      var (m', value) := SpecStep(m, run[0]);
      var (rest, last) := SpecOutputs(m', run[1..]);
      ([value] + rest, last)
  }

  ghost predicate Monotone<V>(run: seq<Timed<V>>) {
    forall i, j | 0 <= i <= j < |run| :: run[i].now <= run[j].now
  }

  lemma {:induction false} OutputsRefine<V>(c: Cache<V>, m: map<Key, Entry<V>>, start: int, run: seq<Timed<V>>)
    requires Faithful(c) && Refines(c.entries, m, start)
    requires Monotone(run) && (run != [] ==> start <= run[0].now)
    ensures Outputs(c, run).0 == SpecOutputs(m, run).0
    ensures Faithful(Outputs(c, run).1)
    ensures Refines(Outputs(c, run).1.entries, SpecOutputs(m, run).1, if run == [] then start else run[|run| - 1].now)
    decreases |run|
  {
    if run != [] {
      var t := run[0];
      assert Refines(c.entries, m, t.now);
      StepRefines(c, m, t);
      OutputsRefine(Step(c, t).0, SpecStep(m, t).0, t.now, run[1..]);
    }
  }

  /**
   Clients cannot tell the cache from a plain timed map: over any operations under a non-decreasing clock, with the
   timer firing at any moments, every get and getOrCall answers the same. The index stays faithful throughout.
   */
  lemma {:induction false} CacheIsATimedMap<V>(run: seq<Timed<V>>)
    requires Monotone(run)
    ensures Outputs(Empty<V>(), run).0 == SpecOutputs<V>(map[], run).0
    ensures Faithful(Outputs(Empty<V>(), run).1)
  {
    OutputsRefine(Empty<V>(), map[], if run == [] then 0 else run[0].now, run);
  }

  // ---------------------------------------------------------------- when `has` is right

  /** Whether the cache still holds a key after one more event, told from the event and the plain map before it. */
  predicate HeldAfter<V>(m: map<Key, Entry<V>>, held: bool, t: Timed<V>, key: Key) {
    match t.op
    case Put(k, _, _) => held || k == key
    case GetOrCall(k, _, _) => held || k == key
    case Get(k, _) => held && !(k == key && key in m && Expired(m[key], t.now))
    case Invalidate(k) => held && k != key
    case InvalidateRegex(matching) => held && key !in matching
    case Clear => false
    case Drain => held && !(key in m && Expired(m[key], t.now))
  }

  predicate Held<V>(m: map<Key, Entry<V>>, held: bool, run: seq<Timed<V>>, key: Key)
    decreases |run|
  {
    if run == [] then held else Held(SpecStep(m, run[0]).0, HeldAfter(m, held, run[0], key), run[1..], key)
  }

  lemma StepHolds<V>(c: Cache<V>, m: map<Key, Entry<V>>, t: Timed<V>, key: Key)
    requires Faithful(c) && Refines(c.entries, m, t.now)
    ensures key in Step(c, t).0.entries <==> HeldAfter(m, key in c.entries, t, key)
  {
    if t.op.InvalidateRegex? {
      assert key in c.entries.Keys * t.op.matching <==> key in c.entries && key in t.op.matching;
    } else if t.op.Drain? {
      if c.scheduler.Some? {
        DrainDropsExpired(c, t.now);
      }
    }
  }

  /** What `has` answers after any run, whatever index and timer do. */
  lemma {:induction false} HasIsHeld<V>(c: Cache<V>, m: map<Key, Entry<V>>, start: int, run: seq<Timed<V>>, key: Key)
    requires Faithful(c) && Refines(c.entries, m, start)
    requires Monotone(run) && (run != [] ==> start <= run[0].now)
    ensures key in Outputs(c, run).1.entries <==> Held(m, key in c.entries, run, key)
    decreases |run|
  {
    if run != [] {
      var t := run[0];
      assert Refines(c.entries, m, t.now);
      StepHolds(c, m, t, key);
      StepRefines(c, m, t);
      HasIsHeld(Step(c, t).0, SpecStep(m, t).0, t.now, run[1..], key);
    }
  }

  /** The plain map after a run from the empty one. */
  function Told<V>(run: seq<Timed<V>>): map<Key, Entry<V>> {
    SpecOutputs(map[], run).1
  }

  lemma {:induction false} OneMoreTold<V>(m: map<Key, Entry<V>>, held: bool, run: seq<Timed<V>>, t: Timed<V>, key: Key)
    ensures SpecOutputs(m, run + [t]).1 == SpecStep(SpecOutputs(m, run).1, t).0
    ensures Held(m, held, run + [t], key) == HeldAfter(SpecOutputs(m, run).1, Held(m, held, run, key), t, key)
    decreases |run|
  {
    if run == [] {
      assert run + [t] == [t] && [t][1..] == [];
      assert SpecOutputs(m, [t]).1 == SpecOutputs(SpecStep(m, t).0, []).1;
      assert Held(m, held, [t], key) == Held(SpecStep(m, t).0, HeldAfter(m, held, t, key), [], key);
    } else {
      ConcatHead(run, [t]);
      OneMoreTold(SpecStep(m, run[0]).0, HeldAfter(m, held, run[0], key), run[1..], t, key);
    }
  }

  /** The event puts the key, or finds it alive. */
  predicate Meets<V>(m: map<Key, Entry<V>>, t: Timed<V>, key: Key) {
    match t.op
    case Put(k, _, _) => k == key
    case GetOrCall(k, _, _) => k == key
    case Get(k, _) => k == key && key in m && !Expired(m[key], t.now)
    case _ => false
  }

  /** The part of a run up to the last event that put the key or found it alive. */
  function LastMet<V>(run: seq<Timed<V>>, key: Key): (n: nat)
    ensures n <= |run|
  {
    if run == [] then 0
    else if Meets(Told(run[..|run| - 1]), run[|run| - 1], key) then |run|
    else LastMet(run[..|run| - 1], key)
  }

  /** The event is a drain or a get of the key, at its expiry or later. */
  predicate Sweeps<V>(t: Timed<V>, key: Key, expiresAt: Option<int>) {
    expiresAt.Some? && expiresAt.value <= t.now && (t.op.Drain? || (t.op.Get? && t.op.key == key))
  }

  ghost predicate NotSwept<V>(run: seq<Timed<V>>, key: Key, expiresAt: Option<int>) {
    forall i | LastMet(run, key) <= i < |run| :: !Sweeps(run[i], key, expiresAt)
  }

  lemma {:induction false} HeldUnlessSwept<V>(run: seq<Timed<V>>, key: Key)
    requires Monotone(run)
    ensures Held(map[], false, run, key) <==> key in Told(run) && NotSwept(run, key, Told(run)[key].expiresAt)
    decreases |run|
  {
    if run != [] {
      var init, t := run[..|run| - 1], run[|run| - 1];
      assert run == init + [t];
      HeldUnlessSwept(init, key);
      OneMoreTold(map[], false, init, t, key);
      LastStepSweeps(init, t, key);
    }
  }

  lemma NotSweptOneMore<V>(init: seq<Timed<V>>, t: Timed<V>, key: Key, expiresAt: Option<int>)
    ensures if Meets(Told(init), t, key) then NotSwept(init + [t], key, expiresAt)
            else NotSwept(init + [t], key, expiresAt) <==> NotSwept(init, key, expiresAt) && !Sweeps(t, key, expiresAt)
  {
    var run := init + [t];
    assert run[..|run| - 1] == init && run[|run| - 1] == t;
    assert forall i | 0 <= i < |init| :: run[i] == init[i];
    if !Meets(Told(init), t, key) {
      assert LastMet(run, key) == LastMet(init, key);
    }
  }

  /** While a key is alive it cannot have been swept. */
  lemma AliveIsNotSwept<V>(run: seq<Timed<V>>, key: Key, expiresAt: Option<int>, now: int)
    requires (forall t <- run :: t.now <= now) && (expiresAt.Some? ==> now < expiresAt.value)
    ensures NotSwept(run, key, expiresAt)
  {
    forall i | 0 <= i < |run| ensures !Sweeps(run[i], key, expiresAt) {
      assert run[i] in run;
    }
  }

  lemma LastStepSweeps<V>(init: seq<Timed<V>>, t: Timed<V>, key: Key)
    requires forall x <- init :: x.now <= t.now
    ensures var held := key in Told(init) && NotSwept(init, key, Told(init)[key].expiresAt);
            var m := SpecStep(Told(init), t).0;
            HeldAfter(Told(init), held, t, key) <==> key in m && NotSwept(init + [t], key, m[key].expiresAt)
  {
    var m, m' := Told(init), SpecStep(Told(init), t).0;
    if key in m' {
      NotSweptOneMore(init, t, key, m'[key].expiresAt);
    }
    if key in m && !Expired(m[key], t.now) {
      AliveIsNotSwept(init, key, m[key].expiresAt, t.now);
    }
  }

  /** `has` says something else than get would decide. */
  predicate HasErrs<V>(run: seq<Timed<V>>, key: Key, now: int) {
    (key in Outputs(Empty<V>(), run).1.entries) != (key in Told(run) && !Expired(Told(run)[key], now))
  }

  /**
   Exactly when `has` is wrong: the last stored expiry of the key has passed, and since the key was last put or found
   alive there was neither a drain nor a get of it at or after that expiry. It never misses a live key.
   */
  lemma HasErrsExactly<V>(run: seq<Timed<V>>, key: Key, now: int)
    requires Monotone(run) && (forall t <- run :: t.now <= now)
    ensures HasErrs(run, key, now) <==>
              key in Told(run) && Expired(Told(run)[key], now) && NotSwept(run, key, Told(run)[key].expiresAt)
    ensures HasErrs(run, key, now) ==> key in Outputs(Empty<V>(), run).1.entries
  {
    var start := if run == [] then now else run[0].now;
    HasIsHeld(Empty<V>(), map[], start, run, key);
    HeldUnlessSwept(run, key);
    OutputsRefine(Empty<V>(), map[], start, run);
    assert run != [] ==> run[|run| - 1] in run;
  }

  /** `has` ignores expiry; right after a drain it agrees with the timed map. */
  lemma HasAfterDrain<V>(run: seq<Timed<V>>, now: int, key: Key)
    requires Monotone(run + [At(now, Drain)])
    ensures var c := Outputs(Empty<V>(), run).1;
            var m := Told(run);
            && (key in OnDrain(c, now).entries <==> key in m && !Expired(m[key], now))
            && (key in m && !Expired(m[key], now) ==> key in c.entries)
  {
    assert forall i | 0 <= i < |run| :: run[i] == (run + [At(now, Drain)])[i];
    assert (run + [At(now, Drain)])[|run|].now == now;
    OutputsRefine(Empty<V>(), map[], if run == [] then now else run[0].now, run);
    DrainIsFullScan(Outputs(Empty<V>(), run).1, now);
  }

  /** Without the drain it may claim an expired key: the armed timer is not brought forward for an earlier expiry. */
  lemma HasMayLie()
    ensures var life := (ms: int) => Some(Options(Some(ms), None));
            var run := [At(0, Put("slow", Some(1), life(1000))), At(0, Put("fast", Some(2), life(10)))];
            var c := Outputs(Empty<int>(), run).1;
            && c.scheduler == Some(1000)
            && "fast" in c.entries && Expired(c.entries["fast"], 500)
            && OnGet(c, "fast", None, 500).1 == None
  {
    var slow := At(0, Put("slow", Some(1), Some(Options(Some(1000), None))));
    var fast := At(0, Put("fast", Some(2), Some(Options(Some(10), None))));
    var one := Step(Empty<int>(), slow).0;
    var item := ExpireItem("slow", 1000);
    assert SortByExpiry([] + [item]) == [item] by {
      assert ([] + [item])[..0] == [];
    }
    assert one.scheduler == Some(1000);
    var two := Step(one, fast).0;
    assert two.entries["fast"].expiresAt == Some(10);
    assert [slow, fast][1..] == [fast] && [fast][1..] == [];
    assert Outputs(two, []).1 == two;
    assert Outputs(one, [fast]).1 == two;
    assert Outputs(Empty<int>(), [slow, fast]).1 == two;
  }
}
