/**
 * The work-queue bookkeeping of rive-android's `WorkerThread`: a FIFO of work
 * items ended by a null termination token, the last pushed and last completed
 * work IDs, and the terminated flag.
 *
 * The OS thread, its mutex and its condition variables are abstracted away:
 * the body of the worker's `for (;;)` loop is one atomic step, `WorkerStep`,
 * and a blocked wait is a state in which the awaited condition does not yet
 * hold.
 */
module WorkerThreads {

  /** A `WorkID`: a 64-bit counter value (wrap-around at 2^64 is not modelled). */
  type WorkID = nat

  /** The ID that is complete from the start; `run` never hands it out. */
  const kWorkIDAlwaysFinished: WorkID := 0

  /** A queued `std::function`: a client's callable, or the null termination token. */
  datatype Work<F> = Null | Fn(f: F)

  /** What one pass through the worker's loop body did. */
  datatype StepResult =
    | WaitingForWork       // the queue was empty: the worker blocks on its condition variable
    | Completed(id: WorkID) // ran the front item; `id` is the new last completed ID
    | Stopped               // popped the termination token and left the loop

  /** The client callables in a queue, in queue order (the token is skipped). */
  function Jobs<F>(q: seq<Work<F>>): (js: seq<F>)
    ensures |js| <= |q|
  {
    if q == [] then []
    else (if q[0].Fn? then [q[0].f] else []) + Jobs(q[1..])
  }

  /** Appending an item to a queue appends its callable, if it has one, to the jobs. */
  lemma {:induction false} JobsAppend<F>(q: seq<Work<F>>, w: Work<F>)
    ensures Jobs(q + [w]) == Jobs(q) + (if w.Fn? then [w.f] else [])
  {
    if q != [] {
      assert (q + [w])[1..] == q[1..] + [w];
      JobsAppend(q[1..], w);
    } else {
      assert [w][1..] == [];
    }
  }

  /** A queue of callables only has as many jobs as items. */
  lemma {:induction false} JobsOfCallables<F>(q: seq<Work<F>>)
    requires forall k :: 0 <= k < |q| ==> q[k].Fn?
    ensures |Jobs(q)| == |q|
  {
    if q != [] {
      JobsOfCallables(q[1..]);
    }
  }

  /** A queue that holds at least one job starts with a job when a token can only be last. */
  lemma FrontIsJob<F>(q: seq<Work<F>>)
    requires forall k :: 0 <= k < |q| - 1 ==> q[k].Fn?
    requires |Jobs(q)| > 0
    ensures q[0].Fn?
  {
    assert q != [];
    if |q| == 1 {
      assert q[1..] == [];
    }
  }

  class WorkerThread<F> {
    var workQueue: seq<Work<F>>
    var lastPushedWorkID: WorkID
    var lastCompletedWorkID: WorkID
    var isTerminated: bool
    /** The worker's loop has popped the termination token and ended. */
    var exited: bool

    /** Every callable handed to `Run`, in order. */
    ghost var pushed: seq<F>
    /** Every callable the worker has run, in order. */
    ghost var completed: seq<F>

    ghost predicate Valid()
      reads this
    {
      && |pushed| == lastPushedWorkID
      && |completed| == lastCompletedWorkID
      // FIFO: what has been pushed is what has run followed by what still waits
      && pushed == completed + Jobs(workQueue)
      // the token can only be the last item ...
      && (forall k :: 0 <= k < |workQueue| - 1 ==> workQueue[k].Fn?)
      // ... and it is there exactly while the worker still has to reach it
      && (isTerminated && !exited <==> workQueue != [] && workQueue[|workQueue| - 1].Null?)
      && (exited ==> isTerminated && workQueue == [])
    }

    /**
     * What `waitUntilComplete(workID)` waits for: the last completed ID has
     * reached `workID`. `kWorkIDAlwaysFinished` is complete in every state.
     */
    predicate IsComplete(workID: WorkID): (b: bool)
      reads this
      ensures workID == kWorkIDAlwaysFinished ==> b
    {
      lastCompletedWorkID >= workID
    }

    /** The counters differ by exactly the number of callables still queued. */
    lemma Outstanding()
      requires Valid()
      ensures lastCompletedWorkID <= lastPushedWorkID
      ensures lastPushedWorkID - lastCompletedWorkID == |Jobs(workQueue)|
      ensures IsComplete(kWorkIDAlwaysFinished)
    {
    }

    constructor ()
      ensures Valid()
      ensures workQueue == [] && pushed == [] && completed == []
      ensures lastPushedWorkID == kWorkIDAlwaysFinished && lastCompletedWorkID == kWorkIDAlwaysFinished
      ensures !isTerminated && !exited
    {
      workQueue := [];
      lastPushedWorkID, lastCompletedWorkID := kWorkIDAlwaysFinished, kWorkIDAlwaysFinished;
      isTerminated, exited := false, false;
      pushed, completed := [], [];
    }

    /** `run`: enqueues a callable at the back and hands out the next ID. */
    method Run(work: Work<F>) returns (id: WorkID)
      requires Valid()
      requires work.Fn?      // clients cannot push the termination token
      requires !isTerminated
      modifies this
      ensures Valid()
      ensures id == old(lastPushedWorkID) + 1 && lastPushedWorkID == id
      ensures id != kWorkIDAlwaysFinished && !IsComplete(id)
      ensures workQueue == old(workQueue) + [work]
      ensures pushed == old(pushed) + [work.f] && completed == old(completed)
      ensures lastCompletedWorkID == old(lastCompletedWorkID)
      ensures isTerminated == old(isTerminated) && exited == old(exited)
    {
      JobsAppend(workQueue, work);
      workQueue := workQueue + [work];
      lastPushedWorkID := lastPushedWorkID + 1;
      pushed := pushed + [work.f];
      id := lastPushedWorkID;
    }

    /** `terminateThread`, up to the join: enqueues the token on the first call only. */
    method Terminate() returns (didSendTerminationToken: bool)
      requires Valid()
      modifies this
      ensures Valid() && isTerminated
      ensures didSendTerminationToken == !old(isTerminated)
      ensures didSendTerminationToken ==> workQueue == old(workQueue) + [Null]
      ensures !didSendTerminationToken ==> unchanged(this)
      ensures lastPushedWorkID == old(lastPushedWorkID) && lastCompletedWorkID == old(lastCompletedWorkID)
      ensures pushed == old(pushed) && completed == old(completed) && exited == old(exited)
    {
      didSendTerminationToken := false;
      if !isTerminated {
        JobsAppend(workQueue, Null);
        workQueue := workQueue + [Null];
        isTerminated := true;
        didSendTerminationToken := true;
      }
    }

    /**
     * One pass through the worker's loop body: wait while the queue is empty,
     * otherwise pop the front; the token ends the loop, a callable is run and
     * counted as completed.
     */
    method WorkerStep() returns (res: StepResult)
      requires Valid() && !exited
      modifies this
      ensures Valid()
      ensures old(workQueue) == [] ==> res == WaitingForWork && unchanged(this)
      ensures old(workQueue) != [] ==> workQueue == old(workQueue)[1..]
      ensures old(workQueue) != [] && old(workQueue)[0].Fn? ==>
                && res == Completed(lastCompletedWorkID)
                && lastCompletedWorkID == old(lastCompletedWorkID) + 1
                && completed == old(completed) + [old(workQueue)[0].f]
                && !exited
      ensures old(workQueue) != [] && old(workQueue)[0].Null? ==>
                && res == Stopped && exited
                && lastCompletedWorkID == old(lastCompletedWorkID)
                && lastCompletedWorkID == lastPushedWorkID   // the assert after the join
                && completed == pushed
      ensures lastPushedWorkID == old(lastPushedWorkID) && pushed == old(pushed)
      ensures isTerminated == old(isTerminated)
      ensures lastCompletedWorkID >= old(lastCompletedWorkID)
    {
      if workQueue == [] {
        return WaitingForWork;
      }
      var work := workQueue[0];
      assert workQueue == [work] + workQueue[1..];
      workQueue := workQueue[1..];
      if work.Null? {
        assert |old(workQueue)| == 1;
        exited := true;
        return Stopped;
      }
      // work(m_threadState.get()) runs here, outside the lock
      lastCompletedWorkID := lastCompletedWorkID + 1;
      completed := completed + [work.f];
      res := Completed(lastCompletedWorkID);
    }

    /**
     * `waitUntilComplete(workID)`: returns at once if the ID is complete, and
     * otherwise lets the worker step, one wake-up at a time, until it is.
     * Every ID handed out so far becomes complete, in FIFO order.
     */
    method WaitUntilComplete(workID: WorkID)
      requires Valid()
      requires workID <= lastPushedWorkID
      modifies this
      ensures Valid() && IsComplete(workID)
      ensures lastCompletedWorkID == if old(IsComplete(workID)) then old(lastCompletedWorkID) else workID
      ensures completed == pushed[..lastCompletedWorkID]
      ensures Jobs(workQueue) == pushed[lastCompletedWorkID..]
      ensures lastPushedWorkID == old(lastPushedWorkID) && pushed == old(pushed)
      ensures isTerminated == old(isTerminated) && exited == old(exited)
    {
      Outstanding();
      while lastCompletedWorkID < workID
        invariant Valid()
        invariant lastPushedWorkID == old(lastPushedWorkID) && pushed == old(pushed)
        invariant isTerminated == old(isTerminated) && exited == old(exited)
        invariant old(lastCompletedWorkID) <= lastCompletedWorkID
        invariant old(IsComplete(workID)) ==> lastCompletedWorkID == old(lastCompletedWorkID)
        invariant !old(IsComplete(workID)) ==> lastCompletedWorkID <= workID
        decreases workID - lastCompletedWorkID
      {
        Outstanding();
        FrontIsJob(workQueue);
        var _ := WorkerStep();
      }
      assert pushed == completed + Jobs(workQueue);
    }

    /** `runAndWait`: runs a callable and waits until it, and everything before it, is done. */
    method RunAndWait(work: Work<F>) returns (id: WorkID)
      requires Valid() && work.Fn? && !isTerminated
      modifies this
      ensures Valid()
      ensures id == old(lastPushedWorkID) + 1 && IsComplete(id)
      ensures lastCompletedWorkID == lastPushedWorkID == id
      ensures pushed == old(pushed) + [work.f] && completed == pushed
      ensures workQueue == []
      ensures !isTerminated
    {
      id := Run(work);
      WaitUntilComplete(id);
      Outstanding();
      JobsOfCallables(workQueue);
    }

    /**
     * The join of `terminateThread`: once the token is queued the worker runs
     * every remaining callable and then leaves its loop, after which the last
     * completed ID equals the last pushed ID.
     */
    method Join()
      requires Valid() && isTerminated
      modifies this
      ensures Valid() && exited && workQueue == []
      ensures lastCompletedWorkID == lastPushedWorkID
      ensures completed == pushed
      ensures lastPushedWorkID == old(lastPushedWorkID) && pushed == old(pushed)
    {
      while !exited
        invariant Valid() && isTerminated
        invariant lastPushedWorkID == old(lastPushedWorkID) && pushed == old(pushed)
        decreases |workQueue|
      {
        var _ := WorkerStep();
      }
      assert Jobs(workQueue) == [];
    }

    /**
     * `terminateThread` called from a thread other than the worker: sends the
     * token on the first call and then joins, after which every pushed ID is
     * complete; later calls change nothing.
     */
    method TerminateThread() returns (didSendTerminationToken: bool)
      requires Valid()
      modifies this
      ensures Valid() && isTerminated
      ensures didSendTerminationToken == !old(isTerminated)
      ensures didSendTerminationToken ==> exited && workQueue == [] && lastCompletedWorkID == lastPushedWorkID
      ensures !didSendTerminationToken ==> unchanged(this)
      ensures lastPushedWorkID == old(lastPushedWorkID) && pushed == old(pushed)
    {
      didSendTerminationToken := Terminate();
      if didSendTerminationToken {
        Join();
      }
    }
  }
}
