/**
 * What holds in every reachable state of the check queue, for every number of workers and
 * every interleaving: the counters are right, Wait answers truthfully, no wakeup is lost, and
 * Wait returns.
 */
module CheckQueueSafety {
  import opened CheckQueue

  ghost predicate AllPass(m: multiset<Check>) {
    forall c :: c in m ==> c.passes
  }

  predicate PhaseOk(p: Phase, t: nat) {
    && (t > 0 ==> !p.Outside? && !p.Notifying?)
    && (p.Working? ==> |p.batch| > 0 && p.evaluated <= |p.batch|)
  }

  ghost predicate WellFormed(s: State) {
    |s.threads| > 0 && forall t :: 0 <= t < |s.threads| ==> PhaseOk(s.threads[t], t)
  }

  /** `inside` is 1 while a thread counted in nTotal holds the lock inside the loop. */
  ghost predicate Counts(s: State, inside: int) {
    && s.q.nIdle == Sum(Idle, s.threads)
    && s.q.nTotal == Sum(InLoop, s.threads) + inside
    && s.q.nTodo == |s.q.queue| + Sum(InFlight, s.threads)
  }

  /** Every added check is queued, taken but not yet looked at, or finished; none twice. */
  ghost predicate Conserved(s: State) {
    s.added == multiset(s.q.queue) + AllRest(s.threads) + s.finished
  }

  ghost predicate Failing(p: Phase) {
    p.Working? && !p.fOk
  }

  /** A failure seen so far is recorded somewhere, and only real failures are recorded. */
  ghost predicate Evidence(s: State) {
    && (!s.q.fAllOk ==> !AllPass(s.added))
    && (forall t :: 0 <= t < |s.threads| && Failing(s.threads[t]) ==> !AllPass(s.added))
    && (!AllPass(s.finished) ==> !s.q.fAllOk || exists t :: 0 <= t < |s.threads| && Failing(s.threads[t]))
  }

  /** A master asleep without a notification has nothing to do and somebody still to wait for. */
  ghost predicate NoLostWakeup(s: State) {
    |s.threads| > 0 && s.threads[0] == Blocked(false) ==> s.q.queue == [] && s.q.nTodo > 0
  }

  ghost predicate Truthful(verdicts: seq<Verdict>) {
    forall v :: v in verdicts ==> (v.answer <==> AllPass(v.asked))
  }

  ghost predicate Invariant(s: State, inside: int) {
    WellFormed(s) && Counts(s, inside) && Conserved(s) && Evidence(s) && NoLostWakeup(s) && Truthful(s.verdicts)
  }

  // ---------- one thread changes phase ----------

  lemma PhaseChange(s: State, t: nat, p: Phase)
    requires t < |s.threads|
    ensures Sum(Idle, s.threads[t := p]) == Sum(Idle, s.threads) - Idle(s.threads[t]) + Idle(p)
    ensures Sum(InLoop, s.threads[t := p]) == Sum(InLoop, s.threads) - InLoop(s.threads[t]) + InLoop(p)
    ensures Sum(InFlight, s.threads[t := p]) == Sum(InFlight, s.threads) - InFlight(s.threads[t]) + InFlight(p)
    ensures Rest(p) == Rest(s.threads[t]) ==> AllRest(s.threads[t := p]) == AllRest(s.threads)
    ensures Rest(s.threads[t]) == multiset{} ==> AllRest(s.threads[t := p]) == AllRest(s.threads) + Rest(p)
  {
    SumUpdate(Idle, s.threads, t, p);
    SumUpdate(InLoop, s.threads, t, p);
    SumUpdate(InFlight, s.threads, t, p);
    AllRestUpdate(s.threads, t, p);
    Cancel(AllRest(s.threads[t := p]), Rest(s.threads[t]), AllRest(s.threads), Rest(p));
  }

  lemma Cancel(a: multiset<Check>, b: multiset<Check>, a': multiset<Check>, b': multiset<Check>)
    requires a + b == a' + b'
    ensures b == b' ==> a == a'
    ensures b == multiset{} ==> a == a' + b'
  {
    assert forall c :: (a + b)[c] == a[c] + b[c] && (a' + b')[c] == a'[c] + b'[c];
  }

  /** With nothing left to do, no thread has a batch and everything added is finished. */
  lemma NothingLeft(s: State, inside: int)
    requires Invariant(s, inside) && s.q.nTodo == 0
    ensures forall t :: 0 <= t < |s.threads| ==> !s.threads[t].Working?
    ensures s.finished == s.added
    ensures s.q.fAllOk <==> AllPass(s.added)
  {
    forall t | 0 <= t < |s.threads| ensures !s.threads[t].Working? {
      SumAtLeast(InFlight, s.threads, t);
      SumNonNegative(InFlight, s.threads);
    }
    assert s.q.queue == [] by { SumNonNegative(InFlight, s.threads); }
    NoRest(s.threads);
  }

  lemma {:induction false} NoRest(threads: seq<Phase>)
    requires forall t :: 0 <= t < |threads| ==> !threads[t].Working?
    ensures AllRest(threads) == multiset{}
  {
    if threads != [] { NoRest(threads[1..]); }
  }

  // ---------- the inner loop, with the lock held by thread t ----------

  lemma ReturnKeeps(s: State)
    requires Invariant(s, 1) && s.threads[0] == Starting && s.q.queue == [] && s.q.nTodo == 0
    ensures Invariant(AtLoop(s, 0), 0)
    ensures AtLoop(s, 0).verdicts == s.verdicts + [Verdict(s.added, AllPass(s.added))]
  {
    NothingLeft(s, 1);
    PhaseChange(s, 0, Outside);
    NoRest(s.threads[0 := Outside]);
  }

  lemma BlockKeeps(s: State, t: nat)
    requires Invariant(s, 1) && t < |s.threads| && s.threads[t] == Starting && s.q.queue == []
    requires !(t == 0 && s.q.nTodo == 0)
    ensures Invariant(AtLoop(s, t), 0)
  {
    hide Sum, AllRest, AllPass, Truthful, TakenFrom;
    var s' := AtLoop(s, t);
    PhaseChange(s, t, Blocked(false));
    assert t == 0 ==> s.q.nTodo > 0 by { SumNonNegative(InFlight, s.threads); }
    forall u | 0 <= u < |s.threads| && Failing(s.threads[u]) ensures Failing(s'.threads[u]) {}
  }

  lemma TakeKeeps(s: State, t: nat)
    requires Invariant(s, 1) && t < |s.threads| && s.threads[t] == Starting && s.q.queue != []
    ensures Invariant(AtLoop(s, t), 0)
  {
    hide Sum, AllRest, TakenFrom, BatchCount, AllPass, Truthful, Evidence, Conserved;
    var s' := AtLoop(s, t);
    var batch := TakenFrom(s.q.queue, BatchCount(s.q));
    PhaseChange(s, t, Working(batch, 0, s.q.fAllOk));
    TakeConserves(s, t);
    TakeEvidence(s, t);
  }

  lemma TakeConserves(s: State, t: nat)
    requires Conserved(s) && t < |s.threads| && s.threads[t] == Starting && s.q.queue != []
    ensures Conserved(AtLoop(s, t))
  {
    hide Sum, AllRest, TakenFrom, BatchCount;
    var s' := AtLoop(s, t);
    var batch := TakenFrom(s.q.queue, BatchCount(s.q));
    PhaseChange(s, t, Working(batch, 0, s.q.fAllOk));
    assert batch[0..] == batch;
    assert AllRest(s'.threads) == AllRest(s.threads) + multiset(batch);
    assert multiset(s'.q.queue) + AllRest(s'.threads) == multiset(s.q.queue) + AllRest(s.threads);
  }

  lemma TakeEvidence(s: State, t: nat)
    requires Evidence(s) && t < |s.threads| && s.threads[t] == Starting && s.q.queue != []
    ensures Evidence(AtLoop(s, t))
  {
    hide TakenFrom, BatchCount, AllPass;
    var s' := AtLoop(s, t);
    forall u | 0 <= u < |s.threads| && Failing(s.threads[u]) ensures Failing(s'.threads[u]) {}
  }

  lemma AtLoopKeeps(s: State, t: nat)
    requires Invariant(s, 1) && t < |s.threads| && s.threads[t] == Starting
    ensures Invariant(AtLoop(s, t), 0)
  {
    if s.q.queue != [] {
      TakeKeeps(s, t);
    } else if t == 0 && s.q.nTodo == 0 {
      ReturnKeeps(s);
    } else {
      BlockKeeps(s, t);
    }
  }

  // ---------- the steps ----------

  function Woken(s: State, t: nat): State
    requires t < |s.threads|
  {
    SetPhase(s, t, Starting).(q := s.q.(nIdle := s.q.nIdle - 1))
  }

  lemma WakeKeeps(s: State, t: nat)
    requires Invariant(s, 0) && t < |s.threads| && s.threads[t].Blocked?
    ensures Invariant(Woken(s, t), 1)
  {
    hide Sum, AllRest, AllPass, Truthful;
    PhaseChange(s, t, Starting);
    assert Evidence(Woken(s, t)) by {
      forall u | 0 <= u < |s.threads| && Failing(s.threads[u]) ensures Failing(Woken(s, t).threads[u]) {}
    }
  }

  lemma FirstEntryKeeps(s: State, t: nat)
    requires Invariant(s, 0) && t < |s.threads| && s.threads[t].Starting?
    ensures Invariant(SetPhase(s, t, Starting).(q := s.q.(nTotal := s.q.nTotal + 1)), 1)
  {
    assert s.threads[t := Starting] == s.threads;
  }

  /** The clean-up after a finished batch, before any notification. */
  lemma CleanedUp(s: State, t: nat, s': State)
    requires Invariant(s, 0) && t < |s.threads| && s.threads[t].Working? && s.threads[t].evaluated == |s.threads[t].batch|
    requires s' == SetPhase(s, t, Starting).(q := CleanUp(s.q, |s.threads[t].batch|, s.threads[t].fOk, t == 0).0)
    ensures WellFormed(s') && Counts(s', 1) && Conserved(s') && Evidence(s') && Truthful(s'.verdicts)
    ensures s'.threads[0] == Blocked(false) ==> s'.q.queue == [] && s'.q.nTodo >= 0
  {
    hide Sum, AllRest, AllPass, Truthful;
    var p := s.threads[t];
    PhaseChange(s, t, Starting);
    assert Rest(p) == multiset{};
    forall u | 0 <= u < |s.threads| && u != t && Failing(s.threads[u]) ensures Failing(s'.threads[u]) {}
    SumNonNegative(InFlight, s'.threads);
  }

  lemma MasterNotified(s: State)
    requires |s.threads| > 0
    requires WellFormed(s) && Counts(s, 1) && Conserved(s) && Evidence(s) && Truthful(s.verdicts)
    ensures Invariant(NotifyMaster(s), 1)
  {
    var s' := NotifyMaster(s);
    PhaseChange(s, 0, Blocked(true));
    forall u | 0 <= u < |s.threads| && Failing(s.threads[u]) ensures Failing(s'.threads[u]) {}
  }

  lemma LaterEntryKeeps(s: State, t: nat)
    requires Invariant(s, 0) && t < |s.threads| && s.threads[t].Working? && s.threads[t].evaluated == |s.threads[t].batch|
    ensures var (q', notify) := CleanUp(s.q, |s.threads[t].batch|, s.threads[t].fOk, t == 0);
            var clean := SetPhase(s, t, Starting).(q := q');
            Invariant(if notify then NotifyMaster(clean) else clean, 1)
  {
    var (q', notify) := CleanUp(s.q, |s.threads[t].batch|, s.threads[t].fOk, t == 0);
    var clean := SetPhase(s, t, Starting).(q := q');
    CleanedUp(s, t, clean);
    hide Counts, Conserved, Evidence, Truthful;
    if notify {
      MasterNotified(clean);
    }
  }

  lemma EnterKeeps(s: State, t: nat)
    requires Invariant(s, 0) && Enabled(s, Enter(t))
    ensures Invariant(Entered(s, t), 0)
  {
    hide Invariant, AtLoop;
    var p := s.threads[t];
    var (q', notify) := if p.Working? then CleanUp(s.q, |p.batch|, p.fOk, t == 0) else CleanUp(s.q, 0, true, t == 0);
    var clean := SetPhase(s, t, Starting).(q := q');
    if p.Starting? {
      FirstEntryKeeps(s, t);
    } else {
      BatchNonEmpty(s, t);
      LaterEntryKeeps(s, t);
    }
    AtLoopKeeps(if notify then NotifyMaster(clean) else clean, t);
  }

  lemma BatchNonEmpty(s: State, t: nat)
    requires Invariant(s, 0) && t < |s.threads| && s.threads[t].Working?
    ensures |s.threads[t].batch| > 0
  {
    assert PhaseOk(s.threads[t], t);
  }

  lemma EvaluateConserves(s: State, t: nat)
    requires Conserved(s) && t < |s.threads| && s.threads[t].Working? && s.threads[t].evaluated < |s.threads[t].batch|
    ensures Conserved(Evaluated(s, t))
    ensures s.threads[t].batch[s.threads[t].evaluated] in s.added
  {
    var s' := Evaluated(s, t);
    var p, p' := s.threads[t], s'.threads[t];
    var check := p.batch[p.evaluated];
    assert p.batch[p.evaluated..] == [check] + p.batch[p'.evaluated..];
    assert Rest(p) == multiset{check} + Rest(p');
    AllRestUpdate(s.threads, t, p');
    TakeOut(AllRest(s'.threads), Rest(p'), AllRest(s.threads), check);
    Regroup3(multiset(s.q.queue), AllRest(s'.threads), check, s.finished);
    assert check in s'.finished;
  }

  lemma TakeOut(a: multiset<Check>, b: multiset<Check>, a': multiset<Check>, c: Check)
    requires a + (multiset{c} + b) == a' + b
    ensures a' == a + multiset{c}
  {
    assert forall d :: (a + (multiset{c} + b))[d] == a[d] + multiset{c}[d] + b[d] && (a' + b)[d] == a'[d] + b[d];
  }

  lemma Regroup3(q: multiset<Check>, a: multiset<Check>, c: Check, f: multiset<Check>)
    ensures q + (a + multiset{c}) + f == q + a + (f + multiset{c})
  {
  }

  lemma EvaluateKeeps(s: State, t: nat)
    requires Invariant(s, 0) && t < |s.threads| && s.threads[t].Working? && s.threads[t].evaluated < |s.threads[t].batch|
    ensures Invariant(Evaluated(s, t), 0)
  {
    hide Conserved, Rest, Sum, AllRest, Truthful;
    var s' := Evaluated(s, t);
    var p, p' := s.threads[t], s'.threads[t];
    var check := p.batch[p.evaluated];
    EvaluateConserves(s, t);
    SumUpdate(Idle, s.threads, t, p');
    SumUpdate(InLoop, s.threads, t, p');
    SumUpdate(InFlight, s.threads, t, p');
    assert Evidence(s') by {
      forall u | 0 <= u < |s.threads| && Failing(s.threads[u]) ensures Failing(s'.threads[u]) {}
      if !check.passes { assert !AllPass(s.added); }
      if !AllPass(s'.finished) && AllPass(s.finished) {
        assert Failing(s'.threads[t]);
      }
    }
  }

  lemma AddKeeps(s: State, checks: seq<Check>)
    requires Invariant(s, 0) && s.threads[0].Outside? && checks != []
    ensures Invariant(Next(s, Add(checks)), 0)
  {
    hide Sum, AllRest, Truthful;
    var s' := Next(s, Add(checks));
    PhaseChange(s, 0, Notifying(|checks|));
    forall c | c in s.added ensures c in s'.added {}
    forall u | 0 <= u < |s.threads| && Failing(s.threads[u]) ensures Failing(s'.threads[u]) {}
    forall u | 0 <= u < |s.threads| && Failing(s'.threads[u]) ensures Failing(s.threads[u]) {}
  }

  /** Threads differ only in notifications that workers have received. */
  ghost predicate OnlyNotified(a: seq<Phase>, b: seq<Phase>) {
    && |a| == |b| && (|a| > 0 ==> a[0] == b[0])
    && forall t :: 0 <= t < |a| ==> b[t] == a[t] || (a[t].Blocked? && b[t] == Blocked(true))
  }

  lemma NotificationKeeps(s: State, threads: seq<Phase>)
    requires Invariant(s, 0) && OnlyNotified(s.threads, threads)
    ensures Invariant(s.(threads := threads), 0)
  {
    var n := s.(threads := threads);
    SumSame(Idle, s.threads, threads);
    SumSame(InLoop, s.threads, threads);
    SumSame(InFlight, s.threads, threads);
    AllRestSame(s.threads, threads);
    assert Evidence(n) by {
      forall u | 0 <= u < |threads| && Failing(s.threads[u]) ensures Failing(threads[u]) {}
    }
  }

  /** Leaving Add, or entering Loop: the master holds no batch before or after. */
  lemma MasterMoves(s: State, p: Phase)
    requires Invariant(s, 0) && (s.threads[0].Outside? || s.threads[0].Notifying?) && (p.Outside? || p.Starting?)
    ensures Invariant(SetPhase(s, 0, p), 0)
  {
    var s' := SetPhase(s, 0, p);
    PhaseChange(s, 0, p);
    assert Evidence(s') by {
      forall u | 0 <= u < |s.threads| && Failing(s.threads[u]) ensures Failing(s'.threads[u]) {}
    }
  }

  lemma NotifiedOnly(s: State, w: nat)
    requires |s.threads| > 0 && s.threads[0].Notifying?
    ensures var n := Notified(s, w, s.threads[0].count);
            OnlyNotified(s.threads, n.threads) && n == s.(threads := n.threads)
  {
  }

  lemma NextKeeps(s: State, a: Action)
    requires Invariant(s, 0) && Enabled(s, a)
    ensures Invariant(Next(s, a), 0)
  {
    hide Invariant, AtLoop, Entered, Evaluated, Notified;
    match a
    case Add(checks) => if checks != [] { AddKeeps(s, checks); }
    case Notify(w) =>
      NotificationKeeps(s, Notified(s, w, s.threads[0].count).threads) by { NotifiedOnly(s, w); }
      NotifiedOnly(s, w);
      MasterMoves(Notified(s, w, s.threads[0].count), Outside);
    case CallWait => MasterMoves(s, Starting);
    case Enter(t) => EnterKeeps(s, t);
    case Wake(t) =>
      WakeKeeps(s, t);
      AtLoopKeeps(Woken(s, t), t);
    case Evaluate(t) => EvaluateKeeps(s, t);
  }

  lemma {:induction false} InitialHolds(workers: nat, batchSize: nat)
    ensures Invariant(Initial(workers, batchSize), 0)
  {
    var s := Initial(workers, batchSize);
    NothingSummed(s.threads);
    NoRest(s.threads);
  }

  lemma {:induction false} NothingSummed(threads: seq<Phase>)
    requires forall t :: 0 <= t < |threads| ==> threads[t].Outside? || threads[t].Starting?
    ensures Sum(Idle, threads) == 0 && Sum(InLoop, threads) == 0 && Sum(InFlight, threads) == 0
  {
    if threads != [] { NothingSummed(threads[1..]); }
  }

  // ---------- runs ----------

  ghost predicate IsRun(run: seq<State>, actions: seq<Action>) {
    && |run| == |actions| + 1
    && forall i :: 0 <= i < |actions| ==> Enabled(run[i], actions[i]) && run[i + 1] == Next(run[i], actions[i])
  }

  /** A sleeping, un-notified master always has a worker with an unfinished batch to wait for. */
  ghost predicate SomebodyAtWork(s: State) {
    |s.threads| > 0 && s.threads[0] == Blocked(false) ==>
      s.q.queue == [] && s.q.nTodo > 0 && exists t :: 0 < t < |s.threads| && s.threads[t].Working?
  }

  lemma AtWork(s: State)
    requires Invariant(s, 0)
    ensures SomebodyAtWork(s)
  {
    if s.threads[0] == Blocked(false) {
      var t := SumPositive(InFlight, s.threads);
      assert 0 < t < |s.threads| && s.threads[t].Working?;
    }
  }

  // ---------- workers are woken ----------

  ghost predicate SomeWorkerAwake(threads: seq<Phase>) {
    exists w :: 0 < w < |threads| && threads[w] != Blocked(false)
  }

  /** With checks in the queue the workers are not all asleep without a notification, unless one is just to be sent. */
  ghost predicate WorkersWoken(s: State) {
    |s.threads| > 1 && s.q.queue != [] && !s.threads[0].Notifying? ==> SomeWorkerAwake(s.threads)
  }

  /** A notification is only sent for checks that were added. */
  ghost predicate ForSome(s: State) {
    |s.threads| > 0 && (s.threads[0].Notifying? ==> s.threads[0].count > 0)
  }

  /** The notification of Add: several checks wake every waiting worker, a single one the worker picked. */
  lemma NotifyWakes(s: State, w: nat)
    requires WellFormed(s) && Enabled(s, Notify(w))
    ensures var n, count := Next(s, Notify(w)), s.threads[0].count;
            && |n.threads| == |s.threads| && n.threads[0] == Outside && n.q == s.q
            && (count > 1 ==> forall v :: v > 0 ==> !Waiting(n, v))
            && (count == 1 && (exists v :: v > 0 && Waiting(s, v)) ==> n.threads[w] == Blocked(true))
            && (count == 1 ==> forall v :: 0 < v < |s.threads| && v != w ==> n.threads[v] == s.threads[v])
            && (forall v :: 0 < v < |s.threads| && !s.threads[v].Blocked? ==> n.threads[v] == s.threads[v])
            && (count > 0 && |s.threads| > 1 ==> SomeWorkerAwake(n.threads))
  {
    var n := Next(s, Notify(w));
    if |s.threads| > 1 && s.threads[0].count > 0 {
      var v := if s.threads[0].count == 1 && w > 0 && Waiting(s, w) then w else 1;
      assert !Waiting(s, 1) || s.threads[0].count > 1 || v == w;
      assert n.threads[v] != Blocked(false);
    }
  }

  lemma LoopWoken(s: State, t: nat)
    requires t < |s.threads| && s.threads[t] == Starting && (t == 0 ==> WorkersWoken(s)) && ForSome(s)
    ensures WorkersWoken(AtLoop(s, t)) && ForSome(AtLoop(s, t))
  {
    hide BatchCount, TakenFrom;
    var n := AtLoop(s, t);
    if n.q.queue != [] && |n.threads| > 1 && !n.threads[0].Notifying? {
      var w :| 0 < w < |s.threads| && (w == t || s.threads[w] != Blocked(false));
      assert n.threads[w] != Blocked(false);
    }
  }

  lemma EnterWoken(s: State, t: nat)
    requires WorkersWoken(s) && ForSome(s) && Enabled(s, Enter(t))
    ensures WorkersWoken(Entered(s, t)) && ForSome(Entered(s, t))
  {
    hide AtLoop;
    var p := s.threads[t];
    var (q', notify) := if p.Working? then CleanUp(s.q, |p.batch|, p.fOk, t == 0) else CleanUp(s.q, 0, true, t == 0);
    var clean := SetPhase(s, t, Starting).(q := q');
    var c := if notify then NotifyMaster(clean) else clean;
    if t == 0 { StillAwake(s.threads, c.threads); }
    LoopWoken(c, t);
  }

  lemma StillAwake(a: seq<Phase>, b: seq<Phase>)
    requires |a| == |b| && forall w :: 0 < w < |a| && a[w] != Blocked(false) ==> b[w] != Blocked(false)
    ensures SomeWorkerAwake(a) ==> SomeWorkerAwake(b)
  {
  }

  /** Every step keeps the workers woken. */
  lemma NextWoken(s: State, a: Action)
    requires WellFormed(s) && WorkersWoken(s) && ForSome(s) && Enabled(s, a)
    ensures WorkersWoken(Next(s, a)) && ForSome(Next(s, a))
  {
    hide AtLoop, Entered;
    match a
    case Add(checks) =>
    case Notify(w) => NotifyWakes(s, w);
    case CallWait => StillAwake(s.threads, Next(s, a).threads);
    case Enter(t) =>
      EnterWoken(s, t);
    case Wake(t) =>
      var woken := SetPhase(s, t, Starting).(q := s.q.(nIdle := s.q.nIdle - 1));
      StillAwake(s.threads, woken.threads);
      LoopWoken(woken, t);
    case Evaluate(t) => StillAwake(s.threads, Next(s, a).threads);
  }

  /** Whenever there are checks to do and no notification is to be sent, some worker can go on by itself. */
  lemma WorkerProceeds(s: State) returns (w: nat, a: Action)
    requires Invariant(s, 0) && WorkersWoken(s) && |s.threads| > 1 && s.q.queue != [] && !s.threads[0].Notifying?
    ensures 0 < w < |s.threads| && Driven(s, a) && (a == Enter(w) || a == Wake(w) || a == Evaluate(w))
  {
    w :| 0 < w < |s.threads| && s.threads[w] != Blocked(false);
    assert PhaseOk(s.threads[w], w);
    match s.threads[w]
    case Starting => a := Enter(w);
    case Blocked(_) => a := Wake(w);
    case Working(batch, evaluated, _) => a := if evaluated < |batch| then Evaluate(w) else Enter(w);
  }

  /** Safety over every run: right counters, truthful verdicts, no lost wakeup. */
  lemma {:induction false} EveryRun(run: seq<State>, actions: seq<Action>, workers: nat, batchSize: nat, k: nat)
    requires IsRun(run, actions) && run[0] == Initial(workers, batchSize) && k < |run|
    ensures Invariant(run[k], 0) && SomebodyAtWork(run[k]) && WorkersWoken(run[k]) && ForSome(run[k])
    decreases k
  {
    if k == 0 {
      InitialHolds(workers, batchSize);
    } else {
      EveryRun(run, actions, workers, batchSize, k - 1);
      NextKeeps(run[k - 1], actions[k - 1]);
      NextWoken(run[k - 1], actions[k - 1]);
    }
    AtWork(run[k]);
  }

  // ---------- Wait returns ----------

  /** A step nobody chose to make from outside: not a new call, not a spurious wakeup. */
  ghost predicate Driven(s: State, a: Action) {
    && Enabled(s, a) && !a.Add? && !a.CallWait?
    && (a.Wake? ==> s.threads[a.thread].notified)
  }

  /** As long as the master is inside Add or Wait, some such step is possible. */
  lemma Progress(s: State) returns (a: Action)
    requires Invariant(s, 0) && !s.threads[0].Outside?
    ensures Driven(s, a)
  {
    match s.threads[0]
    case Notifying(_) =>
      if w: nat :| w > 0 && Waiting(s, w) { a := Notify(w); } else { a := Notify(0); }
    case Starting => a := Enter(0);
    case Working(batch, evaluated, _) => a := if evaluated < |batch| then Evaluate(0) else Enter(0);
    case Blocked(notified) =>
      if notified {
        a := Wake(0);
      } else {
        AtWork(s);
        var t :| 0 < t < |s.threads| && s.threads[t].Working?;
        assert PhaseOk(s.threads[t], t);
        a := if s.threads[t].evaluated < |s.threads[t].batch| then Evaluate(t) else Enter(t);
      }
  }

  /** What a thread can still do on its own. */
  function Effort(threads: nat): Phase -> int {
    (p: Phase) => match p
      case Outside => 0
      case Notifying(_) => threads + 1
      case Starting => 1
      case Blocked(notified) => if notified then 1 else 0
      case Working(batch, evaluated, _) => |batch| - evaluated + 2
  }

  function Rank(s: State): int {
    3 * |s.q.queue| + Sum(Effort(|s.threads|), s.threads)
  }

  /** Moving one thread moves the rank by the change of its effort. */
  lemma RankChange(s: State, t: nat, p: Phase, q: Shared)
    requires t < |s.threads| && |q.queue| == |s.q.queue|
    ensures Rank(SetPhase(s, t, p).(q := q))
            == Rank(s) - Effort(|s.threads|)(s.threads[t]) + Effort(|s.threads|)(p)
  {
    SumUpdate(Effort(|s.threads|), s.threads, t, p);
  }

  lemma AtLoopDescends(s: State, t: nat)
    requires t < |s.threads| && s.threads[t] == Starting
    ensures Rank(AtLoop(s, t)) < Rank(s)
  {
    if s.q.queue != [] {
      TakeDescends(s, t);
    } else {
      RankChange(s, t, AtLoop(s, t).threads[t], AtLoop(s, t).q);
      SameRank(SetPhase(s, t, AtLoop(s, t).threads[t]).(q := AtLoop(s, t).q), AtLoop(s, t));
    }
  }

  lemma TakeDescends(s: State, t: nat)
    requires t < |s.threads| && s.threads[t] == Starting && s.q.queue != []
    ensures Rank(AtLoop(s, t)) < Rank(s)
  {
    var n := BatchCount(s.q);
    hide BatchCount;
    SumUpdate(Effort(|s.threads|), s.threads, t, Working(TakenFrom(s.q.queue, n), 0, s.q.fAllOk));
  }

  lemma {:induction false} NotifyAllEffort(n: nat, a: seq<Phase>, b: seq<Phase>)
    requires |a| == |b| && forall t :: 0 <= t < |a| ==> b[t] == a[t] || (a[t].Blocked? && b[t] == Blocked(true))
    ensures Sum(Effort(n), b) <= Sum(Effort(n), a) + |a|
  {
    if a != [] { NotifyAllEffort(n, a[1..], b[1..]); }
  }

  lemma EnterDescends(s: State, t: nat)
    requires Enabled(s, Enter(t)) && (s.threads[t].Working? ==> |s.threads[t].batch| > 0)
    ensures Rank(Entered(s, t)) < Rank(s)
  {
    hide AtLoop, Rank;
    var p := s.threads[t];
    var (q', notify) := if p.Working? then CleanUp(s.q, |p.batch|, p.fOk, t == 0) else CleanUp(s.q, 0, true, t == 0);
    var clean := SetPhase(s, t, Starting).(q := q');
    RankChange(s, t, Starting, q');
    if notify && clean.threads[0].Blocked? {
      RankChange(clean, 0, Blocked(true), q');
      assert NotifyMaster(clean) == SetPhase(clean, 0, Blocked(true)).(q := q');
    }
    AtLoopDescends(if notify then NotifyMaster(clean) else clean, t);
  }

  lemma NotifyDescends(s: State, w: nat)
    requires |s.threads| > 0 && s.threads[0].Notifying?
    ensures Rank(SetPhase(Notified(s, w, s.threads[0].count), 0, Outside)) < Rank(s)
  {
    var m := Notified(s, w, s.threads[0].count);
    NotifiedOnly(s, w);
    NotifyAllEffort(|s.threads|, s.threads, m.threads);
    hide Notified;
    SumUpdate(Effort(|s.threads|), m.threads, 0, Outside);
  }

  /** Every such step uses something up, so no schedule can keep Wait from returning. */
  lemma Descent(s: State, a: Action)
    requires Invariant(s, 0) && Driven(s, a)
    ensures Rank(Next(s, a)) < Rank(s)
  {
    hide Invariant, AtLoop, Entered, Notified, Rank;
    match a
    case Notify(w) => NotifyDescends(s, w);
    case Enter(t) =>
      if s.threads[t].Working? { BatchNonEmpty(s, t); }
      EnterDescends(s, t);
    case Wake(t) =>
      RankChange(s, t, Starting, s.q.(nIdle := s.q.nIdle - 1));
      AtLoopDescends(Woken(s, t), t);
    case Evaluate(t) =>
      RankChange(s, t, Evaluated(s, t).threads[t], s.q);
      SameRank(SetPhase(s, t, Evaluated(s, t).threads[t]).(q := s.q), Evaluated(s, t));
    case _ =>
  }

  lemma SameRank(s: State, s': State)
    requires s.q == s'.q && s.threads == s'.threads
    ensures Rank(s) == Rank(s')
  {
  }

  lemma RankNonNegative(s: State)
    requires Invariant(s, 0)
    ensures Rank(s) >= 0
  {
    EffortNonNegative(|s.threads|, s.threads);
  }

  lemma {:induction false} EffortNonNegative(n: nat, threads: seq<Phase>)
    requires forall t :: 0 <= t < |threads| && threads[t].Working? ==> threads[t].evaluated <= |threads[t].batch|
    ensures Sum(Effort(n), threads) >= 0
  {
    if threads != [] { EffortNonNegative(n, threads[1..]); }
  }

  ghost predicate IsDrivenRun(run: seq<State>, actions: seq<Action>) {
    IsRun(run, actions) && forall i :: 0 <= i < |actions| ==> Driven(run[i], actions[i])
  }

  lemma {:induction false} RankRunsDown(run: seq<State>, actions: seq<Action>, k: nat)
    requires IsDrivenRun(run, actions) && Invariant(run[0], 0) && k < |run|
    ensures Invariant(run[k], 0) && k + Rank(run[k]) <= Rank(run[0])
    decreases k
  {
    hide Invariant, Rank, Next, Enabled;
    if k > 0 {
      RankRunsDown(run, actions, k - 1);
      assert Driven(run[k - 1], actions[k - 1]);
      NextKeeps(run[k - 1], actions[k - 1]);
      Descent(run[k - 1], actions[k - 1]);
    }
  }

  /**
   * Liveness: from any state with the master inside Wait, a run of driven steps is at most
   * Rank long, and it cannot stop before the master has its answer.
   */
  lemma WaitReturns(run: seq<State>, actions: seq<Action>)
    requires IsDrivenRun(run, actions) && Invariant(run[0], 0)
    ensures |actions| <= Rank(run[0])
    ensures |run[|actions|].threads| > 0
    ensures run[|actions|].threads[0].Outside? || exists a :: Driven(run[|actions|], a)
  {
    var last := run[|actions|];
    RankRunsDown(run, actions, |actions|);
    RankNonNegative(last);
    if !last.threads[0].Outside? { var a := Progress(last); }
  }
}
