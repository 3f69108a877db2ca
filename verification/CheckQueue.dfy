/** The script check queue: a master and any number of workers share a queue
    under one mutex and run batches of checks outside it. Each stretch of code
    that holds the mutex is one atomic step; steps of different threads
    interleave freely, and a sleeping thread may wake at any moment. */
module CheckQueue {
  import opened Powers
  import opened Sums

  datatype Check = Check(tag: int, passes: bool)

  /** Where a thread stands in Loop. The master is `Outside` between two calls
      of Wait; a worker is `Outside` until its first critical section. */
  datatype Thread =
    | Outside
    | Asleep(signalled: bool)
    | Working(batch: seq<Check>, next: nat, ok: bool)

  const MASTER: nat := 0

  datatype WaitResult = WaitResult(checks: seq<Check>, result: bool)

  /** The shared fields, the threads, and two history variables: the checks added
      since Wait last returned, and what every Wait so far has returned. */
  datatype State = State(
    queue: seq<Check>, nIdle: int, nTotal: int, allOk: bool, nTodo: int,
    threads: map<nat, Thread>, round: seq<Check>, returned: seq<WaitResult>)

  datatype Step =
    | Add(checks: seq<Check>)
    | Enter(t: nat)
    | Execute(t: nat)
    | Finish(t: nat)
    | Wake(t: nat)

  predicate AllPass(checks: seq<Check>) {
    forall i :: 0 <= i < |checks| ==> checks[i].passes
  }

  function Init(workers: nat): State {
    State([], 0, 0, true, 0, Unstarted(workers), [], [])
  }

  /** The master and `workers` workers before any of them has entered Loop. */
  function Unstarted(workers: nat): map<nat, Thread> {
    if workers == 0 then map[MASTER := Outside] else Unstarted(workers - 1)[workers := Outside]
  }

  function Min(a: int, b: int): int { if a < b then a else b }
  function Max(a: int, b: int): int { if a < b then b else a }

  /** How many checks to take: never more than the queue holds. */
  function BatchSize(batchLimit: nat, queued: nat, nTotal: int, nIdle: int): (n: nat)
    requires queued > 0 && nTotal >= 0 && nIdle >= 0
    ensures 1 <= n <= queued
    ensures n == 1 || n <= batchLimit
  {
    var share := queued / (nTotal + nIdle + 1);
    assert 0 <= share <= queued;
    Max(1, Min(batchLimit, share))
  }

  /** A batch is an equal share for every thread that may help and one more, and the
      largest such share within the limit. */
  lemma BatchIsShare(batchLimit: nat, queued: nat, nTotal: int, nIdle: int)
    requires queued > 0 && nTotal >= 0 && nIdle >= 0
    ensures
      var n, helpers := BatchSize(batchLimit, queued, nTotal, nIdle), nTotal + nIdle + 1;
      && (n > 1 ==> n * helpers <= queued)
      && (n < batchLimit ==> queued < (n + 1) * helpers)
  {
    var helpers := nTotal + nIdle + 1;
    var share, n := queued / helpers, BatchSize(batchLimit, queued, nTotal, nIdle);
    DivMod(queued, helpers);
    if n <= share {
      MulMonotone(n, share, helpers);
    }
    if share <= n {
      MulMonotone(share, n, helpers);
    }
    Distribute(n, 1, helpers);
  }

  function Reversed(s: seq<Check>): (r: seq<Check>)
    ensures |r| == |s| && forall i :: 0 <= i < |s| ==> r[i] == s[|s| - 1 - i]
  {
    if s == [] then [] else [s[|s| - 1]] + Reversed(s[..|s| - 1])
  }

  /** From the top of Loop's inner `while` to the release of the mutex: return
      (master only), fall asleep, or leave with a batch. */
  function LoopTop(s: State, t: nat, batchLimit: nat): State
    requires s.nTotal >= 0 && s.nIdle >= 0
  {
    if s.queue == [] then
      if t == MASTER && s.nTodo == 0 then
        s.(nTotal := s.nTotal - 1, allOk := true, threads := s.threads[t := Outside],
           round := [], returned := s.returned + [WaitResult(s.round, s.allOk)])
      else
        s.(nIdle := s.nIdle + 1, threads := s.threads[t := Asleep(false)])
    else
      var n := BatchSize(batchLimit, |s.queue|, s.nTotal, s.nIdle);
      var cut := |s.queue| - n;
      s.(queue := s.queue[..cut], threads := s.threads[t := Working(Reversed(s.queue[cut..]), 0, s.allOk)])
  }

  /** Loop's clean-up of the previous batch, with the wake-up of the master. */
  function CleanUp(s: State, t: nat): State
    requires t in s.threads && s.threads[t].Working? && MASTER in s.threads
  {
    var w := s.threads[t];
    var todo := s.nTodo - |w.batch|;
    s.(allOk := s.allOk && w.ok, nTodo := todo,
       threads := if todo == 0 && t != MASTER && s.threads[MASTER].Asleep?
                  then s.threads[MASTER := Asleep(true)] else s.threads)
  }

  predicate Enabled(s: State, step: Step) {
    match step
    case Add(_) => MASTER in s.threads && s.threads[MASTER].Outside?
    case Enter(t) => t in s.threads && s.threads[t].Outside?
    case Execute(t) => t in s.threads && s.threads[t].Working? && s.threads[t].next < |s.threads[t].batch|
    case Finish(t) => t in s.threads && s.threads[t].Working? && s.threads[t].next == |s.threads[t].batch|
    case Wake(t) => t in s.threads && s.threads[t].Asleep?
  }

  /** No step divides by zero or takes from an empty queue while this holds. */
  predicate Safe(s: State, step: Step) {
    MASTER in s.threads && s.nTotal >= 0 && s.nIdle >= (if step.Wake? then 1 else 0)
  }

  function Apply(s: State, step: Step, batchLimit: nat): State
    requires Enabled(s, step) && Safe(s, step)
  {
    match step
    case Add(checks) =>
      s.(queue := s.queue + checks, nTodo := s.nTodo + |checks|, round := s.round + checks)
    case Enter(t) =>
      LoopTop(s.(nTotal := s.nTotal + 1), t, batchLimit)
    case Execute(t) =>
      var w := s.threads[t];
      s.(threads := s.threads[t := w.(next := w.next + 1, ok := w.ok && w.batch[w.next].passes)])
    case Finish(t) =>
      LoopTop(CleanUp(s, t), t, batchLimit)
    case Wake(t) =>
      LoopTop(s.(nIdle := s.nIdle - 1), t, batchLimit)
  }

  // ----- The invariant -----

  const InFlight := (t: nat, th: Thread) => if th.Working? then |th.batch| else 0
  const Idle := (t: nat, th: Thread) => if th.Asleep? then 1 else 0
  const Inside := (t: nat, th: Thread) => if th.Outside? then 0 else 1

  ghost predicate CountsOk(s: State) {
    && s.nTodo == |s.queue| + Total(s.threads, InFlight)
    && s.nIdle == Total(s.threads, Idle)
    && s.nTotal == Total(s.threads, Inside)
  }

  predicate ThreadOk(th: Thread) {
    th.Working? ==> |th.batch| > 0 && th.next <= |th.batch|
  }

  /** What is left of a thread's batch will leave its verdict standing. */
  predicate WillPass(th: Thread)
    requires ThreadOk(th)
  {
    th.Working? ==> th.ok && AllPass(th.batch[th.next..])
  }

  ghost predicate Threads(s: State) {
    MASTER in s.threads && forall t :: t in s.threads ==> ThreadOk(s.threads[t])
  }

  /** Nothing has failed, and nothing queued or in flight will. */
  ghost predicate Hopeful(s: State)
    requires Threads(s)
  {
    s.allOk && AllPass(s.queue) && forall t :: t in s.threads ==> WillPass(s.threads[t])
  }

  /** A sleeping master finds nothing queued, and has a wake-up coming exactly when
      nothing is left to do; otherwise it waits for someone else's batch. */
  ghost predicate MasterNotStranded(s: State) {
    MASTER in s.threads && s.threads[MASTER].Asleep? ==>
      s.queue == [] && s.nTodo >= 0 && (s.threads[MASTER].signalled <==> s.nTodo == 0)
  }

  ghost predicate Truthful(s: State) {
    forall i :: 0 <= i < |s.returned| ==> (s.returned[i].result <==> AllPass(s.returned[i].checks))
  }

  ghost predicate Inv(s: State) {
    && Threads(s)
    && CountsOk(s)
    && (Hopeful(s) <==> AllPass(s.round))
    && MasterNotStranded(s)
    && Truthful(s)
  }

  // ----- Every step keeps it -----

  lemma Moved(threads: map<nat, Thread>, t: nat, th: Thread, weight: (nat, Thread) -> int)
    requires t in threads
    ensures Total(threads[t := th], weight) == Total(threads, weight) - weight(t, threads[t]) + weight(t, th)
  {
    TotalReplace(threads, weight, t, th);
  }

  lemma CountsMoved(threads: map<nat, Thread>, t: nat, th: Thread)
    requires t in threads
    ensures Total(threads[t := th], InFlight) == Total(threads, InFlight) - InFlight(t, threads[t]) + InFlight(t, th)
    ensures Total(threads[t := th], Idle) == Total(threads, Idle) - Idle(t, threads[t]) + Idle(t, th)
    ensures Total(threads[t := th], Inside) == Total(threads, Inside) - Inside(t, threads[t]) + Inside(t, th)
  {
    Moved(threads, t, th, InFlight);
    Moved(threads, t, th, Idle);
    Moved(threads, t, th, Inside);
  }

  lemma CountsAreNatural(s: State)
    requires Threads(s) && CountsOk(s)
    ensures s.nIdle >= 0 && s.nTotal >= 0 && s.nTodo >= |s.queue|
    ensures forall t :: t in s.threads && s.threads[t].Asleep? ==> s.nIdle > 0
    ensures s.nTodo == 0 ==> forall t :: t in s.threads ==> !s.threads[t].Working?
  {
    TotalNonNegative(s.threads, InFlight);
    TotalNonNegative(s.threads, Idle);
    TotalNonNegative(s.threads, Inside);
    forall t | t in s.threads ensures Idle(t, s.threads[t]) <= s.nIdle && InFlight(t, s.threads[t]) <= s.nTodo {
      TotalAtLeast(s.threads, Idle, t);
      TotalAtLeast(s.threads, InFlight, t);
    }
  }

  lemma AllPassSplit(a: seq<Check>, b: seq<Check>)
    ensures AllPass(a + b) <==> AllPass(a) && AllPass(b)
  {
    if AllPass(a + b) {
      assert forall i :: 0 <= i < |a| ==> a[i] == (a + b)[i];
      assert forall i :: 0 <= i < |b| ==> b[i] == (a + b)[|a| + i];
    }
  }

  lemma AllPassReversed(s: seq<Check>)
    ensures AllPass(Reversed(s)) <==> AllPass(s)
  {
    var r := Reversed(s);
    assert forall i :: 0 <= i < |s| ==> r[i] == s[|s| - 1 - i];
    assert forall i :: 0 <= i < |s| ==> s[i] == r[|s| - 1 - i];
  }

  lemma HopefulMoved(s: State, t: nat, th: Thread)
    requires Threads(s) && t in s.threads && ThreadOk(th) && WillPass(s.threads[t])
    ensures Threads(s.(threads := s.threads[t := th]))
    ensures Hopeful(s.(threads := s.threads[t := th])) <==> Hopeful(s) && WillPass(th)
  {
    var s' := s.(threads := s.threads[t := th]);
    assert forall u :: u in s.threads && u != t ==> s'.threads[u] == s.threads[u];
    if Hopeful(s') { assert WillPass(s'.threads[t]); }
  }

  /** The invariant inside a critical section of thread `t`, which is counted as
      inside Loop but stands nowhere else. */
  ghost predicate InSection(s: State, t: nat) {
    && t in s.threads && s.threads[t].Outside?
    && Threads(s)
    && CountsOk(s.(nTotal := s.nTotal - 1))
    && (Hopeful(s) <==> AllPass(s.round))
    && MasterNotStranded(s)
    && Truthful(s)
  }

  lemma SleepOrReturnKeepsInv(s: State, t: nat, batchLimit: nat)
    requires InSection(s, t) && s.queue == []
    requires s.nTotal >= 0 && s.nIdle >= 0
    ensures Inv(LoopTop(s, t, batchLimit))
  {
    CountsAreNatural(s.(nTotal := s.nTotal - 1));
    var s' := LoopTop(s, t, batchLimit);
    CountsMoved(s.threads, t, s'.threads[t]);
    HopefulMoved(s, t, s'.threads[t]);
    if t == MASTER && s.nTodo == 0 {
      assert s'.threads == s.threads;
      assert Hopeful(s) <==> s.allOk;
    } else {
      assert Hopeful(s') <==> Hopeful(s.(threads := s'.threads));
    }
  }

  lemma TakeKeepsInv(s: State, t: nat, batchLimit: nat)
    requires InSection(s, t) && s.queue != []
    requires s.nTotal >= 0 && s.nIdle >= 0
    ensures Inv(LoopTop(s, t, batchLimit))
  {
    var s' := LoopTop(s, t, batchLimit);
    var th := s'.threads[t];
    CountsMoved(s.threads, t, th);
    var cut := |s.queue| - |th.batch|;
    assert s.queue == s.queue[..cut] + s.queue[cut..];
    AllPassSplit(s.queue[..cut], s.queue[cut..]);
    AllPassReversed(s.queue[cut..]);
    assert th.batch[0..] == th.batch;
    HopefulMoved(s.(queue := s'.queue), t, th);
    assert s' == s.(queue := s'.queue).(threads := s.threads[t := th]);
  }

  lemma LoopTopKeepsInv(s: State, t: nat, batchLimit: nat)
    requires t in s.threads && InSection(s.(threads := s.threads[t := Outside]), t)
    ensures s.nTotal >= 0 && s.nIdle >= 0
    ensures Inv(LoopTop(s, t, batchLimit))
  {
    var r := s.(threads := s.threads[t := Outside]);
    CountsAreNatural(r.(nTotal := r.nTotal - 1));
    var th := LoopTop(s, t, batchLimit).threads[t];
    assert r.threads[t := th] == s.threads[t := th];
    assert LoopTop(r, t, batchLimit) == LoopTop(s, t, batchLimit);
    if s.queue == [] {
      SleepOrReturnKeepsInv(r, t, batchLimit);
    } else {
      TakeKeepsInv(r, t, batchLimit);
    }
  }

  lemma AddKeepsInv(s: State, checks: seq<Check>, batchLimit: nat)
    requires Inv(s) && Enabled(s, Add(checks)) && Safe(s, Add(checks))
    ensures Inv(Apply(s, Add(checks), batchLimit))
  {
    AllPassSplit(s.queue, checks);
    AllPassSplit(s.round, checks);
    var s' := Apply(s, Add(checks), batchLimit);
    assert s'.threads == s.threads;
  }

  lemma EnterKeepsInv(s: State, t: nat, batchLimit: nat)
    requires Inv(s) && Enabled(s, Enter(t)) && Safe(s, Enter(t))
    ensures Inv(Apply(s, Enter(t), batchLimit))
  {
    var r := s.(nTotal := s.nTotal + 1);
    assert r.threads[t := Outside] == s.threads;
    LoopTopKeepsInv(r, t, batchLimit);
  }

  lemma WakeKeepsInv(s: State, t: nat, batchLimit: nat)
    requires Inv(s) && Enabled(s, Wake(t)) && Safe(s, Wake(t))
    ensures Inv(Apply(s, Wake(t), batchLimit))
  {
    var r := s.(nIdle := s.nIdle - 1, threads := s.threads[t := Outside]);
    CountsMoved(s.threads, t, Outside);
    HopefulMoved(s, t, Outside);
    assert Hopeful(r) <==> Hopeful(s.(threads := r.threads));
    LoopTopKeepsInv(s.(nIdle := s.nIdle - 1), t, batchLimit);
  }

  lemma ExecuteKeepsInv(s: State, t: nat, batchLimit: nat)
    requires Inv(s) && Enabled(s, Execute(t)) && Safe(s, Execute(t))
    ensures Inv(Apply(s, Execute(t), batchLimit))
  {
    var w := s.threads[t];
    var s' := Apply(s, Execute(t), batchLimit);
    CountsMoved(s.threads, t, s'.threads[t]);
    assert w.batch[w.next..] == [w.batch[w.next]] + w.batch[w.next + 1..];
    AllPassSplit([w.batch[w.next]], w.batch[w.next + 1..]);
    assert WillPass(w) <==> WillPass(s'.threads[t]);
    assert forall u :: u in s.threads ==> (WillPass(s.threads[u]) <==> WillPass(s'.threads[u]));
  }

  /** A finished thread as its clean-up leaves it. */
  ghost function Cleaned(s: State, t: nat): State
    requires Enabled(s, Finish(t)) && MASTER in s.threads
  {
    var c := CleanUp(s, t);
    c.(threads := c.threads[t := Outside])
  }

  lemma CleanUpCounts(s: State, t: nat)
    requires Inv(s) && Enabled(s, Finish(t))
    ensures CountsOk(Cleaned(s, t).(nTotal := s.nTotal - 1))
    ensures MasterNotStranded(Cleaned(s, t))
  {
    var r := Cleaned(s, t);
    var part := s.threads[t := Outside];
    CountsMoved(s.threads, t, Outside);
    if CleanUp(s, t).threads != s.threads {
      CountsMoved(part, MASTER, Asleep(true));
      assert r.threads == part[MASTER := Asleep(true)];
    }
    TotalAtLeast(s.threads, InFlight, t);
    TotalNonNegative(part, InFlight);
  }

  lemma CleanUpHope(s: State, t: nat)
    requires Inv(s) && Enabled(s, Finish(t))
    ensures Threads(Cleaned(s, t))
    ensures Hopeful(Cleaned(s, t)) <==> Hopeful(s)
  {
    var r := Cleaned(s, t);
    assert WillPass(s.threads[t]) <==> s.threads[t].ok;
    assert forall u :: u in s.threads && u != t ==> (WillPass(s.threads[u]) <==> WillPass(r.threads[u]));
    if Hopeful(s) {
      assert WillPass(s.threads[t]);
    }
    if Hopeful(r) {
      forall u | u in s.threads ensures WillPass(s.threads[u]) {
        assert WillPass(r.threads[u]);
      }
    }
  }

  lemma FinishKeepsInv(s: State, t: nat, batchLimit: nat)
    requires Inv(s) && Enabled(s, Finish(t)) && Safe(s, Finish(t))
    ensures Inv(Apply(s, Finish(t), batchLimit))
  {
    CleanUpCounts(s, t);
    CleanUpHope(s, t);
    LoopTopKeepsInv(CleanUp(s, t), t, batchLimit);
  }

  /** Whatever thread moves next, the move is safe and keeps the invariant. */
  lemma StepKeepsInv(s: State, step: Step, batchLimit: nat)
    requires Inv(s) && Enabled(s, step)
    ensures Safe(s, step)
    ensures Inv(Apply(s, step, batchLimit))
  {
    CountsAreNatural(s);
    match step
    case Add(checks) => AddKeepsInv(s, checks, batchLimit);
    case Enter(t) => EnterKeepsInv(s, t, batchLimit);
    case Execute(t) => ExecuteKeepsInv(s, t, batchLimit);
    case Finish(t) => FinishKeepsInv(s, t, batchLimit);
    case Wake(t) => WakeKeepsInv(s, t, batchLimit);
  }

  lemma {:induction false} InitInv(workers: nat)
    ensures Inv(Init(workers))
    ensures forall t: nat :: t in Unstarted(workers) <==> t <= workers
    ensures forall t :: t in Unstarted(workers) ==> Unstarted(workers)[t] == Outside
  {
    if workers == 0 {
      TotalAdd(map[], InFlight, MASTER, Outside);
      TotalAdd(map[], Idle, MASTER, Outside);
      TotalAdd(map[], Inside, MASTER, Outside);
      assert map[][MASTER := Outside] == Unstarted(0);
    } else {
      InitInv(workers - 1);
      TotalAdd(Unstarted(workers - 1), InFlight, workers, Outside);
      TotalAdd(Unstarted(workers - 1), Idle, workers, Outside);
      TotalAdd(Unstarted(workers - 1), Inside, workers, Outside);
    }
  }

  // ----- Over every run -----

  /** `end` is reached from `s` by letting threads move in the order of `steps`. */
  ghost predicate Run(s: State, steps: seq<Step>, batchLimit: nat, end: State)
    decreases steps
  {
    if steps == [] then s == end
    else
      && Enabled(s, steps[0]) && Safe(s, steps[0])
      && Run(Apply(s, steps[0], batchLimit), steps[1..], batchLimit, end)
  }

  lemma {:induction false} RunKeepsInv(s: State, steps: seq<Step>, batchLimit: nat, end: State)
    requires Inv(s) && Run(s, steps, batchLimit, end)
    ensures Inv(end)
    decreases steps
  {
    if steps != [] {
      StepKeepsInv(s, steps[0], batchLimit);
      RunKeepsInv(Apply(s, steps[0], batchLimit), steps[1..], batchLimit, end);
    }
  }

  /** For every interleaving: each Wait so far returned true exactly when every
      check of its round passes; the to-do count is what is queued plus what is
      in flight; a sleeping master either has a wake-up coming or waits for a
      worker that still holds checks; and no enabled step can go wrong. */
  lemma EveryInterleaving(workers: nat, steps: seq<Step>, batchLimit: nat, end: State)
    requires Run(Init(workers), steps, batchLimit, end)
    ensures forall i :: 0 <= i < |end.returned| ==>
                (end.returned[i].result <==> AllPass(end.returned[i].checks))
    ensures end.nTodo == |end.queue| + Total(end.threads, InFlight)
    ensures MASTER in end.threads
    ensures end.threads[MASTER] == Asleep(false) ==>
                exists w :: w in end.threads && w != MASTER && end.threads[w].Working?
    ensures forall step :: Enabled(end, step) ==> Safe(end, step)
  {
    InitInv(workers);
    RunKeepsInv(Init(workers), steps, batchLimit, end);
    if end.threads[MASTER] == Asleep(false) {
      var w := TotalPositive(end.threads, InFlight);
      assert w != MASTER && end.threads[w].Working?;
    }
    forall step | Enabled(end, step) ensures Safe(end, step) {
      StepKeepsInv(end, step, batchLimit);
    }
  }

  /** Wait returns only once every check is done, whoever had taken it, and the
      next round starts clean. */
  lemma ReturnMeansDone(s: State, step: Step, batchLimit: nat)
    requires Inv(s) && Enabled(s, step) && Safe(s, step)
    requires Apply(s, step, batchLimit).returned != s.returned
    ensures var s' := Apply(s, step, batchLimit);
            && s'.queue == [] && s'.nTodo == 0 && s'.allOk && s'.round == []
            && s'.threads[MASTER] == Outside
            && (forall t :: t in s'.threads ==> !s'.threads[t].Working?)
            && s'.returned == s.returned + [WaitResult(s.round, AllPass(s.round))]
  {
    StepKeepsInv(s, step, batchLimit);
    var s' := Apply(s, step, batchLimit);
    CountsAreNatural(s');
    assert |s'.returned| == |s.returned| + 1;
    assert s'.returned[|s.returned|].result <==> AllPass(s.round);
  }

  // ----- Wait returns -----

  /** The to-do count as the thread that takes a step will see it. */
  function TodoSeen(s: State, step: Step): int
    requires Enabled(s, step)
  {
    if step.Finish? then s.nTodo - |s.threads[step.t].batch| else s.nTodo
  }

  /** A step of the master that reaches the top of Loop. */
  predicate MasterLooks(step: Step) {
    step == Enter(MASTER) || step == Finish(MASTER) || step == Wake(MASTER)
  }

  /** Wait returns exactly when the master looks, finds nothing queued and nothing is left to do. */
  lemma ReturnsExactly(s: State, step: Step, batchLimit: nat)
    requires Inv(s) && Enabled(s, step) && Safe(s, step)
    ensures Apply(s, step, batchLimit).returned != s.returned <==>
            MasterLooks(step) && s.queue == [] && TodoSeen(s, step) == 0
    ensures Apply(s, step, batchLimit).returned != s.returned ==>
            Apply(s, step, batchLimit).returned == s.returned + [WaitResult(s.round, AllPass(s.round))]
  {
    var s' := Apply(s, step, batchLimit);
    if s'.returned != s.returned {
      ReturnMeansDone(s, step, batchLimit);
    }
  }

  /** A wake-up that someone asked for: only the master is woken, by the thread that did the last check. */
  predicate Prompt(s: State, step: Step) {
    step.Wake? ==> step.t == MASTER && MASTER in s.threads && s.threads[MASTER] == Asleep(true)
  }

  const Effort := (t: nat, th: Thread) =>
    match th
    case Outside => 2
    case Asleep(signalled) => if signalled then 1 else 0
    case Working(batch, next, _) => |batch| - next + 2

  /** What is left to do at most, in steps. */
  ghost function Remaining(s: State): int {
    2 * |s.queue| + Total(s.threads, Effort)
  }

  lemma RemainingIsNatural(s: State)
    requires Threads(s)
    ensures Remaining(s) >= 0
  {
    forall t | t in s.threads ensures Effort(t, s.threads[t]) >= 0 {
      assert ThreadOk(s.threads[t]);
    }
    TotalNonNegative(s.threads, Effort);
  }

  /** Taking a batch or falling asleep uses up less effort than it leaves. */
  lemma LoopTopEffort(s: State, t: nat, batchLimit: nat, th: Thread)
    requires t in s.threads && s.nTotal >= 0 && s.nIdle >= 0 && th == LoopTop(s, t, batchLimit).threads[t]
    ensures var s' := LoopTop(s, t, batchLimit);
            s'.returned == s.returned ==>
              && Remaining(s') == Remaining(s) - Effort(t, s.threads[t]) + Effort(t, th) - 2 * (|s.queue| - |s'.queue|)
              && Effort(t, th) <= (if s.queue == [] then 0 else |s.queue| - |s'.queue| + 2)
              && (s.queue != [] ==> |s'.queue| < |s.queue|)
  {
    Moved(s.threads, t, th, Effort);
  }

  /** A finished batch may wake the master, which costs one. */
  lemma CleanUpEffort(s: State, t: nat)
    requires Inv(s) && Enabled(s, Finish(t))
    ensures var c := CleanUp(s, t);
            && t in c.threads && c.threads[t] == s.threads[t] && c.queue == s.queue && c.returned == s.returned
            && Remaining(c) <= Remaining(s) + 1 && (Remaining(c) > Remaining(s) ==> c.queue == [])
  {
    var c := CleanUp(s, t);
    if c.threads != s.threads {
      Moved(s.threads, MASTER, Asleep(true), Effort);
    }
  }

  /** Every step but an addition or a spurious wake-up that does not end the wait leaves less to do. */
  lemma StepUsesEffort(s: State, step: Step, batchLimit: nat)
    requires Inv(s) && Enabled(s, step) && Safe(s, step) && Prompt(s, step) && !step.Add?
    requires Apply(s, step, batchLimit).returned == s.returned
    ensures Remaining(Apply(s, step, batchLimit)) < Remaining(s)
  {
    var s' := Apply(s, step, batchLimit);
    match step
    case Enter(t) =>
      LoopTopEffort(s.(nTotal := s.nTotal + 1), t, batchLimit, s'.threads[t]);
    case Execute(t) =>
      Moved(s.threads, t, s'.threads[t], Effort);
    case Finish(t) =>
      CountsAreNatural(s);
      CleanUpEffort(s, t);
      LoopTopEffort(CleanUp(s, t), t, batchLimit, s'.threads[t]);
    case Wake(t) =>
      ReturnsExactly(s, step, batchLimit);
  }

  /** While the master waits some thread can go on, without a spurious wake-up. */
  lemma SomeoneCanGoOn(s: State) returns (step: Step)
    requires Inv(s) && !s.threads[MASTER].Outside?
    ensures Enabled(s, step) && Prompt(s, step) && !step.Add?
  {
    if t :| t in s.threads && s.threads[t].Working? {
      assert ThreadOk(s.threads[t]);
      step := if s.threads[t].next < |s.threads[t].batch| then Execute(t) else Finish(t);
    } else {
      if s.nTodo > |s.queue| {
        var w := TotalPositive(s.threads, InFlight);
        assert false;
      }
      CountsAreNatural(s);
      step := Wake(MASTER);
    }
  }

  /** A run of steps none of which is an addition or a spurious wake-up. */
  ghost predicate PromptRun(s: State, steps: seq<Step>, batchLimit: nat, end: State)
    decreases steps
  {
    if steps == [] then s == end
    else
      && Enabled(s, steps[0]) && Safe(s, steps[0]) && Prompt(s, steps[0]) && !steps[0].Add?
      && PromptRun(Apply(s, steps[0], batchLimit), steps[1..], batchLimit, end)
  }

  lemma {:induction false} PromptIsRun(s: State, steps: seq<Step>, batchLimit: nat, end: State)
    requires PromptRun(s, steps, batchLimit, end)
    ensures Run(s, steps, batchLimit, end)
    decreases steps
  {
    if steps != [] {
      PromptIsRun(Apply(s, steps[0], batchLimit), steps[1..], batchLimit, end);
    }
  }

  /** The history of results only grows, and the master leaves only by a result. */
  lemma ResultsGrow(s: State, step: Step, batchLimit: nat)
    requires Inv(s) && Enabled(s, step) && Safe(s, step)
    ensures var s' := Apply(s, step, batchLimit);
            && |s.returned| <= |s'.returned|
            && (s'.returned == s.returned <==> |s'.returned| == |s.returned|)
            && (s'.returned == s.returned && !s.threads[MASTER].Outside? ==> !s'.threads[MASTER].Outside?)
  {
    ReturnsExactly(s, step, batchLimit);
  }

  lemma {:induction false} RunGrows(s: State, steps: seq<Step>, batchLimit: nat, end: State)
    requires Inv(s) && Run(s, steps, batchLimit, end)
    ensures Inv(end) && |s.returned| <= |end.returned|
    decreases steps
  {
    if steps != [] {
      var s' := Apply(s, steps[0], batchLimit);
      StepKeepsInv(s, steps[0], batchLimit);
      ResultsGrow(s, steps[0], batchLimit);
      RunGrows(s', steps[1..], batchLimit, end);
    }
  }

  /** However the threads are scheduled: a wait goes on for no more steps than were left to do, and
      until it has returned some thread can go on. */
  lemma {:induction false} WaitReturns(s: State, steps: seq<Step>, batchLimit: nat, end: State)
    requires Inv(s) && !s.threads[MASTER].Outside? && PromptRun(s, steps, batchLimit, end)
    requires |end.returned| == |s.returned|
    ensures |steps| <= Remaining(s)
    ensures exists step :: Enabled(end, step) && Prompt(end, step) && !step.Add?
    decreases steps
  {
    RemainingIsNatural(s);
    if steps == [] {
      var step := SomeoneCanGoOn(s);
    } else {
      var s' := Apply(s, steps[0], batchLimit);
      StepKeepsInv(s, steps[0], batchLimit);
      ResultsGrow(s, steps[0], batchLimit);
      PromptIsRun(s', steps[1..], batchLimit, end);
      RunGrows(s', steps[1..], batchLimit, end);
      StepUsesEffort(s, steps[0], batchLimit);
      WaitReturns(s', steps[1..], batchLimit, end);
    }
  }

  /** From every state in which the master waits, some run of the threads ends with the result of this round. */
  lemma {:induction false} WaitCanReturn(s: State, batchLimit: nat) returns (steps: seq<Step>, end: State)
    requires Inv(s) && !s.threads[MASTER].Outside?
    ensures PromptRun(s, steps, batchLimit, end)
    ensures end.returned == s.returned + [WaitResult(s.round, AllPass(s.round))]
    decreases Remaining(s)
  {
    RemainingIsNatural(s);
    var step := SomeoneCanGoOn(s);
    StepKeepsInv(s, step, batchLimit);
    ReturnsExactly(s, step, batchLimit);
    ResultsGrow(s, step, batchLimit);
    var s' := Apply(s, step, batchLimit);
    RemainingIsNatural(s');
    if s'.returned != s.returned {
      steps, end := [step], s';
      assert steps[1..] == [];
    } else {
      StepUsesEffort(s, step, batchLimit);
      RoundKept(s, step, batchLimit);
      steps, end := WaitCanReturn(s', batchLimit);
      var rest := steps;
      steps := [step] + rest;
      assert steps[1..] == rest;
    }
  }

  lemma RoundKept(s: State, step: Step, batchLimit: nat)
    requires Enabled(s, step) && Safe(s, step) && !step.Add? && Apply(s, step, batchLimit).returned == s.returned
    ensures Apply(s, step, batchLimit).round == s.round
  {
  }

  // ----- No check is lost -----

  /** All checks added in a run, in order. */
  function AddedIn(steps: seq<Step>): seq<Check> {
    if steps == [] then [] else (if steps[0].Add? then steps[0].checks else []) + AddedIn(steps[1..])
  }

  /** All checks of the rounds that are over, in order. */
  function Answered(returned: seq<WaitResult>): seq<Check> {
    if returned == [] then [] else Answered(returned[..|returned| - 1]) + returned[|returned| - 1].checks
  }

  /** What has been answered for and what is in the present round is what was added. */
  lemma {:induction false} NothingLost(s: State, steps: seq<Step>, batchLimit: nat, end: State)
    requires Inv(s) && Run(s, steps, batchLimit, end)
    ensures Answered(end.returned) + end.round == Answered(s.returned) + s.round + AddedIn(steps)
    decreases steps
  {
    if steps != [] {
      var s' := Apply(s, steps[0], batchLimit);
      StepKeepsInv(s, steps[0], batchLimit);
      StepLosesNone(s, steps[0], batchLimit);
      NothingLost(s', steps[1..], batchLimit, end);
      Regroup(Answered(s.returned) + s.round, if steps[0].Add? then steps[0].checks else [], AddedIn(steps[1..]));
    }
  }

  lemma Regroup(a: seq<Check>, b: seq<Check>, c: seq<Check>)
    ensures a + b + c == a + (b + c)
  {
  }

  lemma StepLosesNone(s: State, step: Step, batchLimit: nat)
    requires Inv(s) && Enabled(s, step) && Safe(s, step)
    ensures var s' := Apply(s, step, batchLimit);
            Answered(s'.returned) + s'.round == Answered(s.returned) + s.round + if step.Add? then step.checks else []
  {
    var s' := Apply(s, step, batchLimit);
    if s'.returned != s.returned {
      ReturnsExactly(s, step, batchLimit);
      ReturnMeansDone(s, step, batchLimit);
      assert s'.returned[..|s'.returned| - 1] == s.returned;
    } else if !step.Add? {
      RoundKept(s, step, batchLimit);
    }
  }

  /** In every state that can be reached: the checks of the rounds answered and of the
      present one are those that were added, and a waiting master can still be answered. */
  lemma EveryWaitReturns(workers: nat, steps: seq<Step>, batchLimit: nat, s: State)
    requires Run(Init(workers), steps, batchLimit, s)
    ensures Answered(s.returned) + s.round == AddedIn(steps)
    ensures MASTER in s.threads && !s.threads[MASTER].Outside? ==>
              exists more, end :: PromptRun(s, more, batchLimit, end) &&
                end.returned == s.returned + [WaitResult(s.round, AllPass(s.round))]
  {
    InitInv(workers);
    RunKeepsInv(Init(workers), steps, batchLimit, s);
    NothingLost(Init(workers), steps, batchLimit, s);
    if !s.threads[MASTER].Outside? {
      var more, end := WaitCanReturn(s, batchLimit);
    }
  }

  // ----- The loops of Loop as steps -----

  /** Moves the last queued checks into a batch, last one first: what LoopTop does
      for a thread that finds checks. */
  method TakeBatch(queue: seq<Check>, batchLimit: nat, nTotal: int, nIdle: int, ghost s: State, ghost t: nat)
    returns (batch: seq<Check>, rest: seq<Check>)
    requires queue != [] && queue == s.queue && nTotal == s.nTotal >= 0 && nIdle == s.nIdle >= 0
    ensures 1 <= |batch| && rest + Reversed(batch) == queue
    ensures LoopTop(s, t, batchLimit) == s.(queue := rest, threads := s.threads[t := Working(batch, 0, s.allOk)])
  {
    var nNow := BatchSize(batchLimit, |queue|, nTotal, nIdle);
    batch, rest := [], queue;
    for i := 0 to nNow
      invariant rest == queue[..|queue| - i]
      invariant |batch| == i && forall j :: 0 <= j < i ==> batch[j] == queue[|queue| - 1 - j]
    {
      batch := batch + [rest[|rest| - 1]];
      rest := rest[..|rest| - 1];
    }
    TakenIsLoopTop(s, t, batchLimit, batch, rest);
  }

  lemma TakenIsLoopTop(s: State, t: nat, batchLimit: nat, batch: seq<Check>, rest: seq<Check>)
    requires s.queue != [] && s.nTotal >= 0 && s.nIdle >= 0
    requires |batch| == BatchSize(batchLimit, |s.queue|, s.nTotal, s.nIdle) && rest == s.queue[..|s.queue| - |batch|]
    requires forall j :: 0 <= j < |batch| ==> batch[j] == s.queue[|s.queue| - 1 - j]
    ensures rest + Reversed(batch) == s.queue
    ensures LoopTop(s, t, batchLimit) == s.(queue := rest, threads := s.threads[t := Working(batch, 0, s.allOk)])
  {
    TakenFromEnd(s.queue, batch, rest);
  }

  lemma TakenFromEnd(queue: seq<Check>, batch: seq<Check>, rest: seq<Check>)
    requires |batch| <= |queue| && rest == queue[..|queue| - |batch|]
    requires forall j :: 0 <= j < |batch| ==> batch[j] == queue[|queue| - 1 - j]
    ensures batch == Reversed(queue[|queue| - |batch|..]) && rest + Reversed(batch) == queue
  {
    assert batch == Reversed(queue[|queue| - |batch|..]);
    assert rest + Reversed(batch) == queue;
  }

  /** A state in which thread t has another position. */
  ghost function At(s: State, t: nat, th: Thread): State {
    s.(threads := s.threads[t := th])
  }

  /** A thread after it has run one more check. */
  function OneRun(w: Thread): Thread
    requires w.Working? && w.next < |w.batch|
  {
    w.(next := w.next + 1, ok := w.ok && w.batch[w.next].passes)
  }

  /** A thread that goes on with its batch: its verdict is that of the checks it has run. */
  ghost predicate Ran(w: Thread, w': Thread) {
    && w.Working? && w'.Working? && w'.batch == w.batch && w.next <= w'.next <= |w.batch|
    && (w'.ok <==> w.ok && AllPass(w.batch[w.next..w'.next]))
  }

  lemma RanOne(w: Thread, w': Thread)
    requires w.Working? && w.next < |w.batch| && Ran(OneRun(w), w')
    ensures Ran(w, w')
  {
    assert w.batch[w.next..w'.next] == [w.batch[w.next]] + w.batch[w.next + 1..w'.next];
    AllPassSplit([w.batch[w.next]], w.batch[w.next + 1..w'.next]);
  }

  /** A thread can always run the rest of its batch. */
  lemma {:induction false} ExecuteRun(s: State, t: nat, batchLimit: nat) returns (steps: seq<Step>, w: Thread)
    requires Inv(s) && t in s.threads && s.threads[t].Working?
    ensures Ran(s.threads[t], w) && w.next == |w.batch|
    ensures |steps| == w.next - s.threads[t].next && forall i :: 0 <= i < |steps| ==> steps[i] == Execute(t)
    ensures Run(s, steps, batchLimit, At(s, t, w))
    decreases |s.threads[t].batch| - s.threads[t].next
  {
    w := s.threads[t];
    assert ThreadOk(w);
    if w.next == |w.batch| {
      steps := [];
      assert At(s, t, w) == s;
    } else {
      var w0 := w;
      StepKeepsInv(s, Execute(t), batchLimit);
      var s' := Apply(s, Execute(t), batchLimit);
      assert s' == At(s, t, OneRun(w0));
      steps, w := ExecuteRun(s', t, batchLimit);
      RanOne(w0, w);
      assert At(s', t, w) == At(s, t, w);
      var rest := steps;
      steps := [Execute(t)] + rest;
      assert steps[1..] == rest;
    }
  }

  /** Runs a batch outside the lock: once something failed, the rest is skipped. The
      outcome is that of as many Execute steps of the thread. */
  method RunBatch(batch: seq<Check>, allOk: bool, ghost s: State, ghost t: nat, ghost batchLimit: nat)
    returns (ok: bool, ghost steps: seq<Step>)
    requires Inv(s) && t in s.threads && s.threads[t] == Working(batch, 0, allOk)
    ensures ok <==> allOk && AllPass(batch)
    ensures |steps| == |batch| && forall i :: 0 <= i < |steps| ==> steps[i] == Execute(t)
    ensures Run(s, steps, batchLimit, At(s, t, Working(batch, |batch|, ok)))
  {
    ok := allOk;
    for i := 0 to |batch|
      invariant ok <==> allOk && AllPass(batch[..i])
    {
      assert batch[..i + 1] == batch[..i] + [batch[i]];
      if ok { ok := batch[i].passes; }
    }
    assert batch[..|batch|] == batch;
    ghost var w;
    steps, w := ExecuteRun(s, t, batchLimit);
    assert batch[0..|batch|] == batch;
  }

  /** Until it finishes, a working thread keeps its batch, whatever the others do, and
      its verdict is that of the checks it has run. */
  lemma {:induction false} BatchVerdict(s: State, steps: seq<Step>, batchLimit: nat, end: State, t: nat)
    requires Inv(s) && Run(s, steps, batchLimit, end) && Finish(t) !in steps
    requires t in s.threads && s.threads[t].Working?
    ensures t in end.threads && Ran(s.threads[t], end.threads[t])
    decreases steps
  {
    if steps == [] {
      assert ThreadOk(s.threads[t]);
    } else {
      StepKeepsInv(s, steps[0], batchLimit);
      WorkerMoves(s, steps[0], batchLimit, t);
      BatchVerdict(Apply(s, steps[0], batchLimit), steps[1..], batchLimit, end, t);
      if steps[0] == Execute(t) {
        RanOne(s.threads[t], end.threads[t]);
      }
    }
  }

  lemma WorkerMoves(s: State, step: Step, batchLimit: nat, t: nat)
    requires Enabled(s, step) && Safe(s, step) && step != Finish(t) && t in s.threads && s.threads[t].Working?
    ensures t in Apply(s, step, batchLimit).threads
    ensures Apply(s, step, batchLimit).threads[t] == if step == Execute(t) then OneRun(s.threads[t]) else s.threads[t]
  {
  }
}
