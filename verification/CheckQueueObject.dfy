/**
 * The critical sections of CCheckQueue as the code runs them, loops included, each proved
 * against the function the protocol steps of CheckQueue.dfy use.
 */
module CheckQueueObject {
  import opened CheckQueue

  class Queue {
    var queue: seq<Check>
    var nIdle: int
    var nTotal: int
    var fAllOk: bool
    var nTodo: int
    const nBatchSize: nat

    ghost function Model(): Shared
      reads this
    {
      Shared(queue, nIdle, nTotal, fAllOk, nTodo, nBatchSize)
    }

    constructor (batchSize: nat)
      ensures Model() == Initial(0, batchSize).q
    {
      queue, nIdle, nTotal, fAllOk, nTodo, nBatchSize := [], 0, 0, true, 0, batchSize;
    }

    /** The locked part of Add, and the notification it sends: to every worker unless one can do it all. */
    method Add(checks: seq<Check>) returns (wakeup: Wakeup)
      modifies this
      ensures Model() == Enqueue(old(Model()), checks)
      ensures wakeup == WakeupFor(|checks|)
    {
      if checks == [] {
        return Nobody;
      }
      for i := 0 to |checks|
        invariant queue == old(queue) + checks[..i]
        invariant Model() == old(Model()).(queue := queue)
      {
        queue := queue + [checks[i]];
      }
      nTodo := nTodo + |checks|;
      wakeup := if |checks| == 1 then OneWorker else AllWorkers;
    }

    /** The clean-up of the previous round at the top of the loop. */
    method FinishRound(nNow: nat, fOk: bool, fMaster: bool) returns (notifyMaster: bool)
      modifies this
      ensures (Model(), notifyMaster) == CleanUp(old(Model()), nNow, fOk, fMaster)
    {
      notifyMaster := false;
      if nNow != 0 {
        fAllOk := fAllOk && fOk;
        nTodo := nTodo - nNow;
        notifyMaster := nTodo == 0 && !fMaster;
      } else {
        nTotal := nTotal + 1;
      }
    }

    /** Moving jobs out of the queue, one at a time from the back. */
    method PopBack(nNow: nat) returns (checks: seq<Check>)
      requires nNow <= |queue|
      modifies `queue
      ensures checks == TakenFrom(old(queue), nNow) && queue == old(queue)[..|old(queue)| - nNow]
    {
      hide TakenFrom;
      checks := [];
      ghost var all := queue;
      TakenNone(all[..|all| - nNow]);
      for i := 0 to nNow
        invariant queue == all[..|all| - i]
        invariant checks + TakenFrom(queue, nNow - i) == TakenFrom(all, nNow)
      {
        var last := |queue| - 1;
        ghost var rest := TakenFrom(queue[..last], nNow - i - 1);
        TakenStep(queue, nNow - i);
        assert checks + ([queue[last]] + rest) == (checks + [queue[last]]) + rest;
        checks := checks + [queue[last]];
        queue := queue[..last];
      }
    }

    /** Deciding how much to take, and taking it. */
    method TakeBatch() returns (checks: seq<Check>, fOk: bool)
      requires queue != []
      modifies this
      ensures var n := BatchCount(old(Model()));
              checks == TakenFrom(old(queue), n) && Model() == old(Model()).(queue := old(queue)[..|old(queue)| - n])
      ensures fOk == fAllOk
    {
      var nNow := BatchCount(Shared(queue, nIdle, nTotal, fAllOk, nTodo, nBatchSize));
      checks := PopBack(nNow);
      fOk := fAllOk;
    }

    /** Executing a batch without the lock: after the first failure nothing more is evaluated. */
    static method RunBatch(checks: seq<Check>, start: bool) returns (fOk: bool)
      ensures fOk <==> start && forall i :: 0 <= i < |checks| ==> checks[i].passes
    {
      fOk := start;
      for i := 0 to |checks|
        invariant fOk <==> start && forall j :: 0 <= j < i ==> checks[j].passes
      {
        if fOk {
          fOk := checks[i].passes;
        }
      }
    }
  }

  lemma TakenStep(queue: seq<Check>, n: nat)
    requires 0 < n <= |queue|
    ensures TakenFrom(queue, n) == [queue[|queue| - 1]] + TakenFrom(queue[..|queue| - 1], n - 1)
  {
  }

  lemma TakenNone(queue: seq<Check>)
    ensures TakenFrom(queue, 0) == []
  {
  }
}
