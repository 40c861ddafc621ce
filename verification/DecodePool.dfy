/** The image decoding thread pool (`DecodePool.cpp`): two stacks of tasks behind a monitor, and workers
    that sleep on it. A step is what one thread does while it holds the monitor. */
module DecodePool {
  import opened Wrappers

  type Worker = nat

  datatype Task = Task(id: nat, highPriority: bool)

  /** Where a worker is: about to take the monitor, asleep on it, woken but not yet holding it, running a
      task, or gone. */
  datatype Phase = Ready | Asleep | Woken | Busy(task: Task) | Exited

  datatype Pool = Pool(high: seq<Task>, low: seq<Task>, shuttingDown: bool, workers: map<Worker, Phase>,
                       accepted: multiset<Task>, handed: multiset<Task>)
  {
    function Queued(): nat {
      |high| + |low|
    }

    ghost predicate SomeAsleep() {
      exists w :: w in workers && workers[w].Asleep?
    }

    ghost predicate SomeExited() {
      exists w :: w in workers && workers[w].Exited?
    }

    /** Neither asleep nor gone: the worker will take the monitor again. */
    predicate Active(w: Worker) {
      w in workers && !workers[w].Asleep? && !workers[w].Exited?
    }

    function Awake(): set<Worker> {
      set w | w in workers && !workers[w].Asleep?
    }
  }

  ghost predicate Initial(p: Pool) {
    && p.high == [] && p.low == [] && !p.shuttingDown && p.accepted == p.handed == multiset{}
    && p.workers != map[] && forall w :: w in p.workers ==> p.workers[w].Ready?
  }

  /** One sleeper is woken, if there is one. */
  ghost predicate NotifyOne(before: map<Worker, Phase>, after: map<Worker, Phase>) {
    if exists w :: w in before && before[w].Asleep? then
      exists w :: w in before && before[w].Asleep? && after == before[w := Woken]
    else after == before
  }

  ghost predicate NotifyAll(before: map<Worker, Phase>, after: map<Worker, Phase>) {
    && after.Keys == before.Keys
    && forall w :: w in before ==> after[w] == if before[w].Asleep? then Woken else before[w]
  }

  ghost predicate Pushes(a: Pool, b: Pool, task: Task) {
    if a.shuttingDown then b == a
    else
      && NotifyOne(a.workers, b.workers)
      && b == a.(high := if task.highPriority then a.high + [task] else a.high,
                 low := if task.highPriority then a.low else a.low + [task],
                 accepted := a.accepted + multiset{task}, workers := b.workers)
  }

  ghost predicate RequestsShutdown(a: Pool, b: Pool) {
    NotifyAll(a.workers, b.workers) && b == a.(shuttingDown := true, workers := b.workers)
  }

  function Hand(p: Pool, w: Worker, task: Task): Pool {
    p.(workers := p.workers[w := Busy(task)], handed := p.handed + multiset{task})
  }

  /** One turn of the loop in `PopWork`, from taking the monitor to leaving it. */
  function Pop(a: Pool, w: Worker): Pool {
    if a.high != [] then
      Hand(a, w, a.high[|a.high| - 1]).(high := a.high[..|a.high| - 1])
    else if a.low != [] then
      Hand(a, w, a.low[|a.low| - 1]).(low := a.low[..|a.low| - 1])
    else if a.shuttingDown then a.(workers := a.workers[w := Exited])
    else a.(workers := a.workers[w := Asleep])
  }

  predicate MayPop(a: Pool, w: Worker) {
    w in a.workers && (a.workers[w].Ready? || a.workers[w].Woken?)
  }

  /** What a worker does on its own: a turn in `PopWork`, or the end of its task. */
  predicate Works(a: Pool, b: Pool, w: Worker) {
    || (MayPop(a, w) && b == Pop(a, w))
    || (w in a.workers && a.workers[w].Busy? && b == a.(workers := a.workers[w := Ready]))
  }

  /** A sleeper may also wake without having been notified. */
  predicate WakesAnyway(a: Pool, b: Pool, w: Worker) {
    w in a.workers && a.workers[w].Asleep? && b == a.(workers := a.workers[w := Woken])
  }

  ghost predicate Step(a: Pool, b: Pool) {
    || (exists task :: Pushes(a, b, task))
    || RequestsShutdown(a, b)
    || (exists w :: Works(a, b, w))
    || (exists w :: WakesAnyway(a, b, w))
  }

  ghost predicate IsRun(run: seq<Pool>) {
    run != [] && Initial(run[0]) && forall i :: 0 < i < |run| ==> Step(run[i - 1], run[i])
  }

  /** What every reachable state satisfies. A sleeper is never needed: there is an awake worker for every
      queued task. */
  ghost predicate Inv(p: Pool) {
    && p.workers != map[]
    && p.accepted == multiset(p.high) + multiset(p.low) + p.handed
    && (forall t <- p.high :: t.highPriority) && (forall t <- p.low :: !t.highPriority)
    && (p.SomeExited() ==> p.shuttingDown && p.Queued() == 0)
    && (p.shuttingDown ==> !p.SomeAsleep())
    && (p.SomeAsleep() ==> p.Queued() <= |p.Awake()|)
  }

  lemma {:induction false} PushKeeps(a: Pool, b: Pool, task: Task)
    requires Inv(a) && Pushes(a, b, task)
    ensures Inv(b)
  {
    if !a.shuttingDown {
      if a.SomeAsleep() {
        var w :| w in a.workers && a.workers[w].Asleep? && b.workers == a.workers[w := Woken];
        assert b.Awake() == a.Awake() + {w};
      }
    }
  }

  lemma {:induction false} ShutdownKeeps(a: Pool, b: Pool)
    requires Inv(a) && RequestsShutdown(a, b)
    ensures Inv(b)
  {
    assert forall w :: w in b.workers ==> !b.workers[w].Asleep?;
    if b.SomeExited() {
      var w :| w in b.workers && b.workers[w].Exited?;
      assert a.workers[w].Exited?;
    }
  }

  lemma {:induction false} LastOut(s: seq<Task>)
    requires s != []
    ensures multiset(s) == multiset(s[..|s| - 1]) + multiset{s[|s| - 1]}
  {
    assert s == s[..|s| - 1] + [s[|s| - 1]];
  }

  lemma {:induction false} HandKeeps(a: Pool, w: Worker, b: Pool, task: Task)
    requires Inv(a) && MayPop(a, w) && a.Queued() > 0
    requires b == Hand(a, w, task).(high := b.high, low := b.low)
    requires multiset(a.high) + multiset(a.low) == multiset(b.high) + multiset(b.low) + multiset{task}
    requires b.high <= a.high && b.low <= a.low && b.Queued() < a.Queued()
    ensures Inv(b)
  {
    assert b.Awake() == a.Awake();
    assert b.SomeExited() ==> a.SomeExited();
    assert b.SomeAsleep() ==> a.SomeAsleep();
    assert b.accepted == multiset(b.high) + multiset(b.low) + b.handed;
    hide Pool.Awake;
    hide Pool.SomeAsleep;
    hide Pool.SomeExited;
  }

  lemma {:induction false} PopHighKeeps(a: Pool, w: Worker)
    requires Inv(a) && MayPop(a, w) && a.high != []
    ensures Inv(Pop(a, w))
  {
    LastOut(a.high);
    var rest := multiset(a.high[..|a.high| - 1]);
    assert rest + multiset(a.low) + multiset{a.high[|a.high| - 1]} == multiset(a.high) + multiset(a.low);
    hide Inv;
    HandKeeps(a, w, Pop(a, w), a.high[|a.high| - 1]);
  }

  lemma {:induction false} PopLowKeeps(a: Pool, w: Worker)
    requires Inv(a) && MayPop(a, w) && a.high == [] && a.low != []
    ensures Inv(Pop(a, w))
  {
    LastOut(a.low);
    hide Inv;
    HandKeeps(a, w, Pop(a, w), a.low[|a.low| - 1]);
  }

  lemma {:induction false} PopKeeps(a: Pool, w: Worker)
    requires Inv(a) && MayPop(a, w)
    ensures Inv(Pop(a, w))
  {
    hide Inv;
    hide Pop;
    if a.high != [] {
      PopHighKeeps(a, w);
    } else if a.low != [] {
      PopLowKeeps(a, w);
    } else {
      IdleKeeps(a, w);
    }
  }

  lemma {:induction false} IdleKeeps(a: Pool, w: Worker)
    requires Inv(a) && MayPop(a, w) && a.Queued() == 0
    ensures Inv(Pop(a, w))
  {
    var b := Pop(a, w);
    if !a.shuttingDown {
      forall v | v in b.workers && b.workers[v].Exited? ensures a.SomeExited() {
        assert a.workers[v].Exited?;
      }
    }
  }

  lemma {:induction false} StepKeeps(a: Pool, b: Pool)
    requires Inv(a) && Step(a, b)
    ensures Inv(b)
  {
    if task :| Pushes(a, b, task) {
      PushKeeps(a, b, task);
    } else if RequestsShutdown(a, b) {
      ShutdownKeeps(a, b);
    } else if w :| Works(a, b, w) {
      if MayPop(a, w) && b == Pop(a, w) {
        PopKeeps(a, w);
      } else {
        assert b.Awake() == a.Awake();
      }
    } else {
      var w :| WakesAnyway(a, b, w);
      assert b.Awake() == a.Awake() + {w};
    }
  }

  /** Every state of every run satisfies the invariant. */
  lemma {:induction false} InvAlways(run: seq<Pool>, i: nat)
    requires IsRun(run) && i < |run|
    ensures Inv(run[i])
  {
    if i > 0 {
      InvAlways(run, i - 1);
      StepKeeps(run[i - 1], run[i]);
    }
  }

  /** No lost wakeup: with work queued some worker is on its way to the monitor, and once shutdown is
      requested nobody sleeps. */
  lemma {:induction false} NeverAllAsleep(run: seq<Pool>, i: nat)
    requires IsRun(run) && i < |run|
    ensures run[i].Queued() > 0 ==> exists w :: run[i].Active(w)
    ensures run[i].shuttingDown ==> forall w :: w in run[i].workers ==> run[i].Active(w) || run[i].workers[w].Exited?
  {
    InvAlways(run, i);
    var p := run[i];
    if p.Queued() > 0 {
      if p.SomeAsleep() {
        var w :| w in p.Awake();
        assert p.Active(w);
      } else {
        var w :| w in p.workers;
        assert p.Active(w);
      }
    }
  }

  /** Exactly the accepted tasks are queued or were handed out, each once; when no worker can move any more
      they have all been handed out. */
  lemma {:induction false} NothingLost(run: seq<Pool>, i: nat)
    requires IsRun(run) && i < |run|
    ensures run[i].accepted == multiset(run[i].high) + multiset(run[i].low) + run[i].handed
    ensures (forall w :: !run[i].Active(w)) ==> run[i].handed == run[i].accepted && run[i].Queued() == 0
  {
    InvAlways(run, i);
    NeverAllAsleep(run, i);
  }

  /** A low-priority task is only handed out while no high-priority one waits. */
  lemma {:induction false} HighFirst(run: seq<Pool>, i: nat, task: Task)
    requires IsRun(run) && i + 1 < |run| && !task.highPriority
    requires run[i + 1].handed == run[i].handed + multiset{task}
    ensures run[i].high == []
  {
    InvAlways(run, i);
    var a, b := run[i], run[i + 1];
    assert b.handed[task] == a.handed[task] + 1;
    assert Step(a, b);
    assert exists w :: Works(a, b, w);
    var w :| Works(a, b, w);
  }

  lemma {:induction false} StepKeepsExited(a: Pool, b: Pool, w: Worker)
    requires Inv(a) && Step(a, b) && w in a.workers && a.workers[w].Exited?
    ensures w in b.workers && b.workers[w].Exited?
  {
  }

  /** Once a worker has gone, it stays gone and the queues stay empty. */
  lemma {:induction false} EmptyAfterExit(run: seq<Pool>, i: nat, j: nat, w: Worker)
    requires IsRun(run) && i <= j < |run| && w in run[i].workers && run[i].workers[w].Exited?
    ensures w in run[j].workers && run[j].workers[w].Exited? && run[j].Queued() == 0
    decreases j
  {
    InvAlways(run, j);
    if i < j {
      EmptyAfterExit(run, i, j - 1, w);
      InvAlways(run, j - 1);
      StepKeepsExited(run[j - 1], run[j], w);
    }
  }

  // Shutting down ends

  function Working(p: Pool): set<Worker> {
    set w | w in p.workers && p.Active(w)
  }

  function Running(p: Pool): set<Worker> {
    set w | w in p.workers && p.workers[w].Busy?
  }

  /** What is left to do. */
  function Effort(p: Pool): nat {
    3 * p.Queued() + |Working(p)| + |Running(p)|
  }

  /** After shutdown was requested every change of state is a worker's, and brings the end nearer. */
  lemma {:induction false} EffortFalls(run: seq<Pool>, i: nat)
    requires IsRun(run) && i + 1 < |run| && run[i].shuttingDown
    ensures run[i + 1].shuttingDown
    ensures run[i + 1] == run[i] || Effort(run[i + 1]) < Effort(run[i])
  {
    InvAlways(run, i);
    var a, b := run[i], run[i + 1];
    assert Step(a, b);
    if w :| Works(a, b, w) {
      WorkerEffortFalls(a, b, w);
    } else if RequestsShutdown(a, b) {
      assert b.workers == a.workers;
    }
  }

  lemma {:induction false} PhaseChanges(a: Pool, b: Pool, w: Worker, phase: Phase)
    requires w in a.workers && b.workers == a.workers[w := phase]
    ensures Working(b) - {w} == Working(a) - {w} && (w in Working(b) <==> !phase.Asleep? && !phase.Exited?)
    ensures Running(b) - {w} == Running(a) - {w} && (w in Running(b) <==> phase.Busy?)
  {
  }

  lemma {:induction false} CountWithout(s: set<Worker>, w: Worker)
    ensures |s| == |s - {w}| + if w in s then 1 else 0
  {
    if w in s {
      assert s == (s - {w}) + {w};
    } else {
      assert s == s - {w};
    }
  }

  lemma {:induction false} WorkerEffortFalls(a: Pool, b: Pool, w: Worker)
    requires Inv(a) && a.shuttingDown && Works(a, b, w)
    ensures b.shuttingDown && Effort(b) < Effort(a)
  {
    PhaseChanges(a, b, w, b.workers[w]);
    CountWithout(Working(a), w);
    CountWithout(Working(b), w);
    CountWithout(Running(a), w);
    CountWithout(Running(b), w);
    assert w in Working(a) && (w in Running(a) <==> a.workers[w].Busy?);
    hide Working;
    hide Running;
    hide Inv;
  }

  /** And until the end is reached some worker can go on; at the end all are gone and all tasks were handed out. */
  lemma {:induction false} ShutdownFinishes(run: seq<Pool>, i: nat)
    requires IsRun(run) && i < |run| && run[i].shuttingDown
    ensures Effort(run[i]) > 0 ==> exists next, w :: Works(run[i], next, w)
    ensures Effort(run[i]) == 0 ==>
              run[i].handed == run[i].accepted && forall w :: w in run[i].workers ==> run[i].workers[w].Exited?
  {
    InvAlways(run, i);
    NeverAllAsleep(run, i);
    NothingLost(run, i);
    var p := run[i];
    forall w | w in Working(p) ensures exists next, w :: Works(p, next, w) {
      if p.workers[w].Busy? {
        assert Works(p, p.(workers := p.workers[w := Ready]), w);
      } else {
        assert Works(p, Pop(p, w), w);
      }
    }
    forall w | p.Active(w) ensures w in Working(p) {
    }
  }

  // The pool at work

  datatype Work = RunTask(task: Task) | Shutdown

  class DecodePoolImpl {
    var high: seq<Task>
    var low: seq<Task>
    var shuttingDown: bool
    /** Where the threads are, and what went through the pool. */
    ghost var workers: map<Worker, Phase>
    ghost var accepted: multiset<Task>
    ghost var handed: multiset<Task>

    ghost function State(): Pool
      reads this
    {
      Pool(high, low, shuttingDown, workers, accepted, handed)
    }

    constructor (ghost threads: set<Worker>)
      requires threads != {}
      ensures Initial(State()) && workers.Keys == threads
    {
      high, low, shuttingDown := [], [], false;
      workers, accepted, handed := map w | w in threads :: Ready, multiset{}, multiset{};
      new;
      ghost var w :| w in threads;
      assert w in workers;
    }

    /** The monitor's `Notify`. */
    ghost method Notify()
      modifies `workers
      ensures NotifyOne(old(workers), workers)
    {
      if w :| w in workers && workers[w].Asleep? {
        workers := workers[w := Woken];
      }
    }

    ghost method WakeAll()
      modifies `workers
      ensures NotifyAll(old(workers), workers)
    {
      workers := map w | w in workers :: if workers[w].Asleep? then Woken else workers[w];
    }

    method RequestShutdown()
      modifies this
      ensures RequestsShutdown(old(State()), State())
    {
      shuttingDown := true;
      WakeAll();
    }

    method PushWork(task: Task)
      modifies this
      ensures Pushes(old(State()), State(), task)
    {
      if shuttingDown {
        return;
      }
      if task.highPriority {
        high := high + [task];
      } else {
        low := low + [task];
      }
      accepted := accepted + multiset{task};
      Notify();
    }

    /** One turn of the loop in `PopWork`; without a result the worker waits on the monitor. */
    method PopWork(ghost w: Worker) returns (work: Option<Work>)
      requires MayPop(State(), w)
      modifies this
      ensures State() == Pop(old(State()), w)
      ensures match workers[w]
              case Busy(task) => work == Some(RunTask(task))
              case Exited => work == Some(Shutdown)
              case _ => work == None
    {
      if high != [] {
        var task;
        task, high := PopWorkFromQueue(high);
        workers, handed := workers[w := Busy(task)], handed + multiset{task};
        return Some(RunTask(task));
      }
      if low != [] {
        var task;
        task, low := PopWorkFromQueue(low);
        workers, handed := workers[w := Busy(task)], handed + multiset{task};
        return Some(RunTask(task));
      }
      if shuttingDown {
        workers := workers[w := Exited];
        return Some(Shutdown);
      }
      workers := workers[w := Asleep];
      work := None;
    }

    method PopWorkFromQueue(queue: seq<Task>) returns (task: Task, rest: seq<Task>)
      requires queue != []
      ensures queue == rest + [task]
    {
      task, rest := queue[|queue| - 1], queue[..|queue| - 1];
    }
  }

  // What happens to one task

  lemma {:induction false} StepAccepts(a: Pool, b: Pool, task: Task)
    requires Step(a, b)
    ensures b.accepted[task] >= a.accepted[task]
    ensures b.shuttingDown <==> a.shuttingDown || RequestsShutdown(a, b)
  {
    if t :| Pushes(a, b, t) {
    } else if RequestsShutdown(a, b) {
    } else if w :| Works(a, b, w) {
    }
  }

  /** Only a request sets the flag, and nothing clears it. */
  lemma {:induction false} ShuttingDownIff(run: seq<Pool>, k: nat)
    requires IsRun(run) && k < |run|
    ensures run[k].shuttingDown <==> exists i :: 0 < i <= k && RequestsShutdown(run[i - 1], run[i])
  {
    if k > 0 {
      hide Step;
      hide RequestsShutdown;
      ShuttingDownIff(run, k - 1);
      StepAccepts(run[k - 1], run[k], Task(0, true));
    }
  }

  /** A task pushed before shutdown was requested is accepted, in every state from then on; one pushed after it is
      dropped and changes nothing. */
  lemma {:induction false} AcceptedIff(run: seq<Pool>, i: nat, k: nat, task: Task)
    requires IsRun(run) && 0 < i <= k < |run| && Pushes(run[i - 1], run[i], task)
    ensures if exists j :: 0 < j < i && RequestsShutdown(run[j - 1], run[j]) then run[i] == run[i - 1]
            else run[k].accepted[task] > run[i - 1].accepted[task]
    decreases k
  {
    hide Step;
    hide RequestsShutdown;
    ShuttingDownIff(run, i - 1);
    if k > i {
      AcceptedIff(run, i, k - 1, task);
      StepAccepts(run[k - 1], run[k], task);
    }
  }

  /** The last task pushed is the first one handed out, before older ones of its own priority. */
  lemma {:induction false} LastInFirstOut(a: Pool, b: Pool, task: Task, w: Worker)
    requires Pushes(a, b, task) && !a.shuttingDown && MayPop(b, w) && (task.highPriority || a.high == [])
    ensures Pop(b, w).workers[w] == Busy(task)
  {
  }
}
