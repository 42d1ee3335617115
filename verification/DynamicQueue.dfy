/**
 The queue of libs/dynamic-queue. It appends first and then pulls its head, where AsyncMutex
 starts a free task directly; both keep the same discipline.
 */
module DynamicQueues {
  import opened Prelude
  import M = AsyncMutexes

  /** `running` is the observable subscribed by `runFirst` that has neither errored nor completed. */
  class DynamicQueue<T> {
    var tasks: seq<T>
    var busy: bool
    var running: Option<T>

    function View(): M.Mutex<T>
      reads this
    {
      M.Mutex(busy, tasks, running)
    }

    constructor ()
      ensures View() == M.Idle<T>()
    {
      tasks, busy, running := [], false, None;
    }

    method Push(task: T) returns (started: Option<T>)
      modifies this
      ensures (View(), started) == OnPush(old(View()), task)
    {
      tasks := tasks + [task];
      started := None;
      if !busy {
        busy := true;
        started := RunFirst();
      }
    }

    method RunFirst() returns (started: Option<T>)
      modifies this
      ensures (View(), started) == OnRunFirst(old(View()))
    {
      if |tasks| > 0 {
        var first := tasks[0];
        tasks := tasks[1..];
        running := Some(first);
        started := Some(first);
      } else {
        busy := false;
        running := None;
        started := None;
      }
    }
  }

  function OnRunFirst<T>(q: M.Mutex<T>): (M.Mutex<T>, Option<T>) {
    if q.waiters != [] then
      (q.(waiters := q.waiters[1..], running := Some(q.waiters[0])), Some(q.waiters[0]))
    else
      (q.(busy := false, running := None), None)
  }

  function OnPush<T>(q: M.Mutex<T>, task: T): (M.Mutex<T>, Option<T>) {
    var queued := q.(waiters := q.waiters + [task]);
    if q.busy then (queued, None) else OnRunFirst(queued.(busy := true))
  }

  /** `push`, and the `error` or `complete` notification of the running observable. */
  function Next<T>(h: M.History<T>, step: M.Step<T>): M.History<T> {
    match step
    case Call(task) =>
      var (q, start) := OnPush(h.mutex, task);
      M.History(q, h.called + [task], h.started + M.Log(start), h.settled)
    case Finish =>
      if h.mutex.running.None? then h else
        var (q, start) := OnRunFirst(h.mutex);
        M.History(q, h.called, h.started + M.Log(start), h.settled + 1)
  }

  function Replay<T>(h: M.History<T>, steps: seq<M.Step<T>>): M.History<T>
    decreases |steps|
  {
    if steps == [] then h else Replay(Next(h, steps[0]), steps[1..])
  }

  /** Step for step the queue goes through the very states of the mutex, so it is FIFO with one task at a time too. */
  lemma {:induction false} QueueIsAMutex<T>(h: M.History<T>, steps: seq<M.Step<T>>)
    requires M.Fifo(h)
    ensures Replay(h, steps) == M.Replay(h, steps)
    ensures M.Fifo(Replay(h, steps))
    decreases |steps|
  {
    if steps != [] {
      var next := Next(h, steps[0]);
      if steps[0].Call? && !h.mutex.busy {
        assert ([] + [steps[0].task])[1..] == [];
      }
      assert next == M.Next(h, steps[0]);
      M.NextKeepsFifo(h, steps[0]);
      QueueIsAMutex(next, steps[1..]);
    }
  }
}
