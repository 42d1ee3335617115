/**
 The FIFO mutex of libs/async-mutex. Tasks are values of any type T; JavaScript runs one
 synchronous segment at a time, so a mutex only changes when `run` is called and when the
 promise of the executing task settles (the `finally` block of `execute`).
 */
module AsyncMutexes {
  import opened Prelude

  /** `running` is what executes: it has passed the start of `execute` and not reached its `finally`. */
  datatype Mutex<T> = Mutex(busy: bool, waiters: seq<T>, running: Option<T>)

  function Idle<T>(): Mutex<T> {
    Mutex(false, [], None)
  }

  /** `run`: the new state, and what starts executing in this segment, if anything. */
  function OnRun<T>(m: Mutex<T>, task: T): (Mutex<T>, Option<T>) {
    if !m.busy then
      (m.(busy := true, running := Some(task)), Some(task))
    else
      (m.(waiters := m.waiters + [task]), None)
  }

  /** The `finally` of `execute`: the holder resolved or rejected, hand over or release. */
  function OnSettle<T>(m: Mutex<T>): (Mutex<T>, Option<T>)
    requires m.running.Some?
  {
    if m.waiters != [] then
      (m.(waiters := m.waiters[1..], running := Some(m.waiters[0])), Some(m.waiters[0]))
    else
      (m.(busy := false, running := None), None)
  }

  /** The object of the source, updated in place. */
  class AsyncMutex<T> {
    var busy: bool
    var waiters: seq<T>
    var running: Option<T>

    function View(): Mutex<T>
      reads this
    {
      Mutex(busy, waiters, running)
    }

    constructor ()
      ensures View() == Idle<T>()
    {
      busy, waiters, running := false, [], None;
    }

    method Run(task: T) returns (started: Option<T>)
      modifies this
      ensures (View(), started) == OnRun(old(View()), task)
    {
      if !busy {
        busy := true;
        running := Some(task);
        return Some(task);
      }
      waiters := waiters + [task];
      started := None;
    }

    method Settle() returns (started: Option<T>)
      requires running.Some?
      modifies this
      ensures (View(), started) == OnSettle(old(View()))
    {
      if |waiters| > 0 {
        var next := waiters[0];
        waiters := waiters[1..];
        running := Some(next);
        started := Some(next);
      } else {
        busy := false;
        running := None;
        started := None;
      }
    }
  }

  // ---------------------------------------------------------------- runs

  datatype Step<T> = Call(task: T) | Finish

  /** A mutex with its history: every task passed to `run`, every task started, and how many settled. */
  datatype History<T> = History(mutex: Mutex<T>, called: seq<T>, started: seq<T>, settled: nat)

  function Empty<T>(): History<T> {
    History(Idle(), [], [], 0)
  }

  function Log<T>(entry: Option<T>): seq<T> {
    if entry.Some? then [entry.value] else []
  }

  /** One step; there is nothing to finish while no task runs. */
  function Next<T>(h: History<T>, step: Step<T>): History<T> {
    match step
    case Call(task) =>
      var (m, start) := OnRun(h.mutex, task);
      History(m, h.called + [task], h.started + Log(start), h.settled)
    case Finish =>
      if h.mutex.running.None? then h else
        var (m, start) := OnSettle(h.mutex);
        History(m, h.called, h.started + Log(start), h.settled + 1)
  }

  function Replay<T>(h: History<T>, steps: seq<Step<T>>): History<T>
    decreases |steps|
  {
    if steps == [] then h else Replay(Next(h, steps[0]), steps[1..])
  }

  /**
   What a FIFO mutex must look like, said only with the calls made and the number of settled tasks:
   task number `settled` (in call order) runs, everything after it waits, everything before it is done.
   */
  function Ideal<T>(called: seq<T>, settled: nat): Mutex<T>
    requires settled <= |called|
  {
    if settled < |called| then Mutex(true, called[settled + 1..], Some(called[settled]))
    else Mutex(false, [], None)
  }

  ghost predicate Fifo<T>(h: History<T>) {
    && h.settled <= |h.called|
    && h.mutex == Ideal(h.called, h.settled)
    && h.started == h.called[..Min(|h.called|, h.settled + 1)]
  }

  lemma NextKeepsFifo<T>(h: History<T>, step: Step<T>)
    requires Fifo(h)
    ensures Fifo(Next(h, step))
  {
    match step
    case Call(task) =>
      var called := h.called + [task];
      if h.settled < |h.called| {
        assert called[h.settled + 1..] == h.called[h.settled + 1..] + [task];
        assert called[..h.settled + 1] == h.called[..h.settled + 1];
      } else {
        assert called[h.settled + 1..] == [];
        assert called[..h.settled + 1] == h.called[..] + [task];
      }
    case Finish =>
      if h.mutex.running.Some? {
        assert h.called[h.settled + 1..] == [] <==> h.settled + 1 == |h.called|;
        if h.settled + 1 < |h.called| {
          assert h.called[h.settled + 1..][1..] == h.called[h.settled + 2..];
          assert h.called[..h.settled + 2] == h.called[..h.settled + 1] + [h.called[h.settled + 1]];
        }
      }
  }

  /** Every reachable mutex is the ideal one, whatever the interleaving of calls and settlements. */
  lemma {:induction false} EveryRunIsFifo<T>(h: History<T>, steps: seq<Step<T>>)
    requires Fifo(h)
    ensures Fifo(Replay(h, steps))
    decreases |steps|
  {
    if steps != [] {
      NextKeepsFifo(h, steps[0]);
      EveryRunIsFifo(Next(h, steps[0]), steps[1..]);
    }
  }

  /** At most one task executes, tasks start in call order, and `busy` is false exactly when nothing runs or waits. */
  lemma MutualExclusion<T>(steps: seq<Step<T>>)
    ensures var h := Replay(Empty<T>(), steps);
            && h.settled <= |h.started| <= h.settled + 1
            && h.started <= h.called
            && h.started + h.mutex.waiters == h.called
            && (h.mutex.running.Some? <==> |h.started| == h.settled + 1)
            && (h.mutex.running.Some? ==> h.mutex.running.value == h.started[h.settled])
            && (!h.mutex.busy <==> h.mutex.running.None? && h.mutex.waiters == [])
  {
    EveryRunIsFifo(Empty<T>(), steps);
    var h := Replay(Empty<T>(), steps);
    if h.settled < |h.called| {
      assert h.called == h.called[..h.settled + 1] + h.called[h.settled + 1..];
    } else {
      assert h.called[..|h.called|] == h.called;
    }
  }

  function Finishes<T>(n: nat): seq<Step<T>> {
    seq(n, _ => Finish)
  }

  /** No wake-up is lost: once the outstanding tasks settle one after the other, all calls have run. */
  lemma {:induction false} NoLostWakeUp<T>(h: History<T>)
    requires Fifo(h)
    ensures var done := Replay(h, Finishes(|h.called| - h.settled));
            && done.mutex == Idle<T>()
            && done.called == h.called == done.started
            && done.settled == |h.called|
    decreases |h.called| - h.settled
  {
    if h.settled == |h.called| {
      assert Finishes<T>(0) == [];
      assert h.called[..|h.called|] == h.called;
    } else {
      var n := |h.called| - h.settled;
      var next := Next(h, Finish);
      NextKeepsFifo(h, Finish);
      assert Finishes<T>(n)[1..] == Finishes<T>(n - 1);
      NoLostWakeUp(next);
    }
  }
}
