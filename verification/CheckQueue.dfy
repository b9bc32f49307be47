/**
 * The parallel check queue of src/checkqueue.h: one master and any number of workers around a
 * mutex and two condition variables.  `Shared` is what the mutex protects.  A step of the
 * protocol is one critical section, one evaluated check, or one notification sent outside the
 * lock; steps of different threads interleave in any order and waits may end spuriously.
 */
module CheckQueue {
  import opened Arithmetic
  import opened Common

  /** A verification job; `passes` is what its operator() returns. */
  datatype Check = Check(id: nat, passes: bool)

  /** The fields guarded by m_mutex, and the batch limit. */
  datatype Shared = Shared(queue: seq<Check>, nIdle: int, nTotal: int, fAllOk: bool, nTodo: int, nBatchSize: nat)

  datatype Phase =
    | Outside                                              // the master, between calls
    | Notifying(count: nat)                                // the master in Add, lock released, notification not yet sent
    | Starting                                             // in Loop, before the first critical section
    | Blocked(notified: bool)                              // in cond.wait
    | Working(batch: seq<Check>, evaluated: nat, fOk: bool)  // running its own batch without the lock

  /** What one call of Wait was asked about and what it answered. */
  datatype Verdict = Verdict(asked: multiset<Check>, answer: bool)

  /**
   * Thread 0 is the master.  `added` are the checks added since the last Wait returned,
   * `finished` those of them evaluated or skipped so far, `verdicts` the answers given.
   */
  datatype State = State(q: Shared, threads: seq<Phase>, added: multiset<Check>, finished: multiset<Check>,
                         verdicts: seq<Verdict>)

  // ---------- the critical sections ----------

  /** An equal share of `n` among `d`, rounded down. */
  function Share(n: nat, d: int): (r: nat)
    ensures r <= n
  {
    if d <= 0 then 0 else DivBounds(n, d); n / d
  }

  /** Never more than the queue holds, so the batch can always be taken. */
  function BatchCount(q: Shared): (n: nat)
    ensures q.queue != [] ==> 1 <= n <= |q.queue|
    ensures n <= Max(1, q.nBatchSize)
  {
    Max(1, Min(q.nBatchSize, Share(|q.queue|, q.nTotal + q.nIdle + 1)))
  }

  /**
   * The batch is the largest within the limit of which every thread in the loop, every idle one
   * and one more could take as much from the queue; at least one check.
   */
  lemma BatchIsLargest(q: Shared, k: nat)
    requires q.nTotal >= 0 && q.nIdle >= 0
    ensures var d, n := q.nTotal + q.nIdle + 1, BatchCount(q);
            && (n == 1 || (n <= q.nBatchSize && n * d <= |q.queue|))
            && (1 <= k <= q.nBatchSize && k * d <= |q.queue| ==> k <= n)
  {
    hide Share;
    var d := q.nTotal + q.nIdle + 1;
    ShareIsLargest(|q.queue|, d, k);
    ShareIsLargest(|q.queue|, d, BatchCount(q));
  }

  lemma ShareIsLargest(n: nat, d: nat, k: nat)
    requires d > 0
    ensures k <= Share(n, d) <==> k * d <= n
  {
    DivBounds(n, d);
    var m := n / d;
    if k <= m { assert k * d <= m * d; } else { assert k * d >= (m + 1) * d; }
  }

  /** The last `n` checks of the queue, taken from the back one at a time. */
  function TakenFrom(queue: seq<Check>, n: nat): (batch: seq<Check>)
    requires n <= |queue|
    ensures |batch| == n
    ensures multiset(batch) + multiset(queue[..|queue| - n]) == multiset(queue)
  {
    if n == 0 then
      assert queue[..|queue|] == queue;
      []
    else
      var last := |queue| - 1;
      assert queue == queue[..last] + [queue[last]];
      assert queue[..last][..last - (n - 1)] == queue[..|queue| - n];
      [queue[last]] + TakenFrom(queue[..last], n - 1)
  }

  /** Clean-up of the previous round: true in the second component when the master is notified. */
  function CleanUp(q: Shared, nNow: nat, fOk: bool, fMaster: bool): (Shared, bool) {
    if nNow > 0 then
      var q' := q.(fAllOk := q.fAllOk && fOk, nTodo := q.nTodo - nNow);
      (q', q'.nTodo == 0 && !fMaster)
    else (q.(nTotal := q.nTotal + 1), false)
  }

  function Enqueue(q: Shared, checks: seq<Check>): Shared {
    q.(queue := q.queue + checks, nTodo := q.nTodo + |checks|)
  }

  /** Whom Add wakes once the lock is released. */
  datatype Wakeup = Nobody | OneWorker | AllWorkers

  function WakeupFor(count: nat): Wakeup {
    if count == 0 then Nobody else if count == 1 then OneWorker else AllWorkers
  }

  // ---------- the steps ----------

  datatype Action =
    | Add(checks: seq<Check>)
    | Notify(worker: nat)       // for notify_one: the worker the scheduler picks, if any is waiting
    | CallWait
    | Enter(thread: nat)        // take the mutex at the top of the loop
    | Wake(thread: nat)         // return from cond.wait, notified or not
    | Evaluate(thread: nat)     // the next check of the thread's batch

  predicate Waiting(s: State, t: nat) {
    t < |s.threads| && s.threads[t] == Blocked(false)
  }

  ghost predicate Enabled(s: State, a: Action) {
    |s.threads| > 0 &&
    match a
    case Add(_) => s.threads[0].Outside?
    case Notify(w) =>
      s.threads[0].Notifying? && (s.threads[0].count == 1 ==> (w > 0 && Waiting(s, w)) || forall v :: v > 0 ==> !Waiting(s, v))
    case CallWait => s.threads[0].Outside?
    case Enter(t) =>
      t < |s.threads| && (s.threads[t].Starting? || (s.threads[t].Working? && s.threads[t].evaluated == |s.threads[t].batch|))
    case Wake(t) => t < |s.threads| && s.threads[t].Blocked?
    case Evaluate(t) => t < |s.threads| && s.threads[t].Working? && s.threads[t].evaluated < |s.threads[t].batch|
  }

  function SetPhase(s: State, t: nat, p: Phase): State
    requires t < |s.threads|
  {
    s.(threads := s.threads[t := p])
  }

  /** Lines 91-122: the inner while loop and the taking of a batch, thread `t` holding the lock. */
  function AtLoop(s: State, t: nat): State
    requires t < |s.threads|
  {
    if s.q.queue == [] then
      if t == 0 && s.q.nTodo == 0 then
        SetPhase(s, 0, Outside).(
          q := s.q.(nTotal := s.q.nTotal - 1, fAllOk := true),
          added := multiset{}, finished := multiset{},
          verdicts := s.verdicts + [Verdict(s.added, s.q.fAllOk)])
      else SetPhase(s, t, Blocked(false)).(q := s.q.(nIdle := s.q.nIdle + 1))
    else
      var n := BatchCount(s.q);
      SetPhase(s, t, Working(TakenFrom(s.q.queue, n), 0, s.q.fAllOk)).(
        q := s.q.(queue := s.q.queue[..|s.q.queue| - n]))
  }

  /** notify_one on the master's condition variable. */
  function NotifyMaster(s: State): State
    requires |s.threads| > 0
  {
    if s.threads[0].Blocked? then SetPhase(s, 0, Blocked(true)) else s
  }

  function NotifyAll(threads: seq<Phase>): (r: seq<Phase>)
    ensures |r| == |threads|
    ensures forall t :: 0 <= t < |threads| ==>
              r[t] == if t > 0 && threads[t].Blocked? then Blocked(true) else threads[t]
  {
    seq(|threads|, t requires 0 <= t < |threads| => if t > 0 && threads[t].Blocked? then Blocked(true) else threads[t])
  }

  function Notified(s: State, w: nat, count: nat): State {
    match WakeupFor(count)
    case Nobody => s
    case OneWorker => if w > 0 && Waiting(s, w) then SetPhase(s, w, Blocked(true)) else s
    case AllWorkers => s.(threads := NotifyAll(s.threads))
  }

  /** One iteration's entry: clean up, perhaps notify the master, then the inner loop. */
  function Entered(s: State, t: nat): State
    requires t < |s.threads|
  {
    var p := s.threads[t];
    var (q', notify) := if p.Working? then CleanUp(s.q, |p.batch|, p.fOk, t == 0) else CleanUp(s.q, 0, true, t == 0);
    var clean := SetPhase(s, t, Starting).(q := q');
    AtLoop(if notify then NotifyMaster(clean) else clean, t)
  }

  function Evaluated(s: State, t: nat): State
    requires t < |s.threads| && s.threads[t].Working? && s.threads[t].evaluated < |s.threads[t].batch|
  {
    var p := s.threads[t];
    var check := p.batch[p.evaluated];
    SetPhase(s, t, Working(p.batch, p.evaluated + 1, p.fOk && check.passes)).(finished := s.finished + multiset{check})
  }

  ghost function Next(s: State, a: Action): State
    requires Enabled(s, a)
  {
    match a
    case Add(checks) =>
      if checks == [] then s
      else SetPhase(s, 0, Notifying(|checks|)).(q := Enqueue(s.q, checks), added := s.added + multiset(checks))
    case Notify(w) => SetPhase(Notified(s, w, s.threads[0].count), 0, Outside)
    case CallWait => SetPhase(s, 0, Starting)
    case Enter(t) => Entered(s, t)
    case Wake(t) => AtLoop(SetPhase(s, t, Starting).(q := s.q.(nIdle := s.q.nIdle - 1)), t)
    case Evaluate(t) => Evaluated(s, t)
  }

  /** A queue with `workers` worker threads just started. */
  function Initial(workers: nat, batchSize: nat): State {
    State(Shared([], 0, 0, true, 0, batchSize), [Outside] + seq(workers, _ => Starting), multiset{}, multiset{}, [])
  }

  // ---------- sums over the threads ----------

  function Sum(f: Phase -> int, threads: seq<Phase>): int {
    if threads == [] then 0 else f(threads[0]) + Sum(f, threads[1..])
  }

  lemma {:induction false} SumUpdate(f: Phase -> int, threads: seq<Phase>, t: nat, p: Phase)
    requires t < |threads|
    ensures Sum(f, threads[t := p]) == Sum(f, threads) - f(threads[t]) + f(p)
  {
    if t > 0 {
      assert threads[t := p][1..] == threads[1..][t - 1 := p];
      SumUpdate(f, threads[1..], t - 1, p);
    } else {
      assert threads[t := p][1..] == threads[1..];
    }
  }

  lemma {:induction false} SumSame(f: Phase -> int, a: seq<Phase>, b: seq<Phase>)
    requires |a| == |b| && forall i :: 0 <= i < |a| ==> f(a[i]) == f(b[i])
    ensures Sum(f, a) == Sum(f, b)
  {
    if a != [] {
      SumSame(f, a[1..], b[1..]);
    }
  }

  lemma {:induction false} SumAtLeast(f: Phase -> int, threads: seq<Phase>, t: nat)
    requires forall p :: f(p) >= 0
    requires t < |threads|
    ensures Sum(f, threads) >= f(threads[t])
  {
    SumNonNegative(f, threads[1..]);
    if t > 0 { SumAtLeast(f, threads[1..], t - 1); }
  }

  lemma {:induction false} SumNonNegative(f: Phase -> int, threads: seq<Phase>)
    requires forall p :: f(p) >= 0
    ensures Sum(f, threads) >= 0
  {
    if threads != [] { SumNonNegative(f, threads[1..]); }
  }

  lemma {:induction false} SumPositive(f: Phase -> int, threads: seq<Phase>) returns (t: nat)
    requires Sum(f, threads) > 0
    ensures t < |threads| && f(threads[t]) > 0
  {
    if f(threads[0]) > 0 { return 0; }
    t := SumPositive(f, threads[1..]);
    t := t + 1;
  }

  function InFlight(p: Phase): int { if p.Working? then |p.batch| else 0 }
  function Idle(p: Phase): int { if p.Blocked? then 1 else 0 }
  function InLoop(p: Phase): int { if p.Blocked? || p.Working? then 1 else 0 }

  /** The checks a thread has taken and not yet looked at. */
  function Rest(p: Phase): multiset<Check> {
    if p.Working? && p.evaluated <= |p.batch| then multiset(p.batch[p.evaluated..]) else multiset{}
  }

  function AllRest(threads: seq<Phase>): multiset<Check> {
    if threads == [] then multiset{} else Rest(threads[0]) + AllRest(threads[1..])
  }

  lemma {:induction false} AllRestUpdate(threads: seq<Phase>, t: nat, p: Phase)
    requires t < |threads|
    ensures AllRest(threads[t := p]) + Rest(threads[t]) == AllRest(threads) + Rest(p)
  {
    if t > 0 {
      assert threads[t := p][1..] == threads[1..][t - 1 := p];
      AllRestUpdate(threads[1..], t - 1, p);
      Regroup(Rest(threads[0]), AllRest(threads[1..][t - 1 := p]), Rest(threads[t]), AllRest(threads[1..]), Rest(p));
    } else {
      assert threads[t := p][1..] == threads[1..];
    }
  }

  lemma Regroup(a: multiset<Check>, b: multiset<Check>, c: multiset<Check>, b': multiset<Check>, c': multiset<Check>)
    requires b + c == b' + c'
    ensures (a + b) + c == (a + b') + c'
  {
    assert (a + b) + c == a + (b + c);
    assert (a + b') + c' == a + (b' + c');
  }

  lemma {:induction false} AllRestSame(a: seq<Phase>, b: seq<Phase>)
    requires |a| == |b| && forall i :: 0 <= i < |a| ==> Rest(a[i]) == Rest(b[i])
    ensures AllRest(a) == AllRest(b)
  {
    if a != [] { AllRestSame(a[1..], b[1..]); }
  }
}
