/** The worker pool as interleaved steps.

    Every step is one critical section under m_Mtx, one notification, or the end of one task; a run
    is any sequence of steps, so any interleaving of submitters, workers and Shutdown callers.
    Condition variables may wake a worker for no reason; that is a step of its own. */
module ThreadPool {

  type Task = nat

  datatype Worker =
    | AtLock            // about to take the lock and test the wait condition
    | Waiting           // inside m_Cv.wait
    | Running(task: Task)
    | Exited

  /** The shared fields, the workers, and the notifications that callers have still to make.
      `accepted`, `started` and `finished` record what happened, in order. */
  datatype Pool = Pool(
    tasks: seq<Task>,
    stopping: bool,
    workers: seq<Worker>,
    notifyOne: nat,
    notifyAll: nat,
    accepted: seq<Task>,
    started: seq<Task>,
    finished: seq<Task>)

  datatype Step =
    | Submit(task: Task)                // push under the lock; refused once stopping
    | NotifyOne(woken: nat)             // the submitter's notify_one, and whom it wakes, if any
    | Wake(worker: nat)                 // spurious wake-up
    | Enter(worker: nat)                // lock, test, then wait, leave or take a task
    | Finish(worker: nat)               // its task returns
    | SetStopping                       // Shutdown under the lock
    | NotifyAll                         // Shutdown's notify_all

  function Init(n: nat): Pool {
    Pool([], false, seq(if n == 0 then 1 else n, _ => AtLock), 0, 0, [], [], [])
  }

  predicate Sleeping(p: Pool) { Waiting in p.workers }

  /** Whether a step can happen. A notify_one wakes a sleeper if there is one. */
  predicate Enabled(p: Pool, s: Step) {
    match s
    case Submit(_) => true
    case NotifyOne(w) => p.notifyOne > 0 && (Sleeping(p) ==> w < |p.workers| && p.workers[w] == Waiting)
    case Wake(w) => w < |p.workers| && p.workers[w] == Waiting
    case Enter(w) => w < |p.workers| && p.workers[w] == AtLock
    case Finish(w) => w < |p.workers| && p.workers[w].Running?
    case SetStopping => true
    case NotifyAll => p.notifyAll > 0
  }

  function AwakeAll(ws: seq<Worker>): (r: seq<Worker>)
    ensures |r| == |ws|
    ensures forall k :: 0 <= k < |ws| ==> r[k] == if ws[k] == Waiting then AtLock else ws[k]
  {
    seq(|ws|, k requires 0 <= k < |ws| => if ws[k] == Waiting then AtLock else ws[k])
  }

  function Next(p: Pool, s: Step): Pool
    requires Enabled(p, s)
  {
    match s
    case Submit(t) =>
      if p.stopping then p
      else p.(tasks := p.tasks + [t], accepted := p.accepted + [t], notifyOne := p.notifyOne + 1)
    case NotifyOne(w) =>
      if Sleeping(p) then p.(notifyOne := p.notifyOne - 1, workers := p.workers[w := AtLock])
      else p.(notifyOne := p.notifyOne - 1)
    case Wake(w) => p.(workers := p.workers[w := AtLock])
    case Enter(w) =>
      if !p.stopping && p.tasks == [] then p.(workers := p.workers[w := Waiting])
      else if p.tasks == [] then p.(workers := p.workers[w := Exited])
      else
        p.(workers := p.workers[w := Running(p.tasks[0])], tasks := p.tasks[1..], started := p.started + [p.tasks[0]])
    case Finish(w) => p.(workers := p.workers[w := AtLock], finished := p.finished + [p.workers[w].task])
    case SetStopping => p.(stopping := true, notifyAll := p.notifyAll + 1)
    case NotifyAll => p.(notifyAll := p.notifyAll - 1, workers := AwakeAll(p.workers))
  }

  ghost predicate IsRun(p: Pool, steps: seq<Step>)
    decreases |steps|
  {
    steps == [] || (Enabled(p, steps[0]) && IsRun(Next(p, steps[0]), steps[1..]))
  }

  ghost function After(p: Pool, steps: seq<Step>): Pool
    requires IsRun(p, steps)
    decreases |steps|
  {
    if steps == [] then p else After(Next(p, steps[0]), steps[1..])
  }

  // ---------------------------------------------------------------------------------------------
  // Counting workers

  function Count(ws: seq<Worker>, w: Worker): nat {
    if ws == [] then 0 else (if ws[0] == w then 1 else 0) + Count(ws[1..], w)
  }

  function TaskOf(w: Worker): multiset<Task> { if w.Running? then multiset{w.task} else multiset{} }

  function RunningTasks(ws: seq<Worker>): multiset<Task> {
    if ws == [] then multiset{} else TaskOf(ws[0]) + RunningTasks(ws[1..])
  }

  lemma {:induction false} CountUpdate(ws: seq<Worker>, i: nat, v: Worker, w: Worker)
    requires i < |ws|
    ensures Count(ws[i := v], w) == Count(ws, w) - (if ws[i] == w then 1 else 0) + (if v == w then 1 else 0)
  {
    if i == 0 {
      assert ws[i := v][1..] == ws[1..];
    } else {
      assert ws[i := v][1..] == ws[1..][i - 1 := v];
      CountUpdate(ws[1..], i - 1, v, w);
    }
  }

  lemma {:induction false} RunningUpdate(ws: seq<Worker>, i: nat, v: Worker)
    requires i < |ws|
    ensures RunningTasks(ws[i := v]) + TaskOf(ws[i]) == RunningTasks(ws) + TaskOf(v)
  {
    hide TaskOf;
    var rest := RunningTasks(ws[1..]);
    assert RunningTasks(ws) == TaskOf(ws[0]) + rest;
    if i == 0 {
      assert ws[i := v][1..] == ws[1..];
      assert RunningTasks(ws[i := v]) == TaskOf(v) + rest;
      assert TaskOf(v) + rest + TaskOf(ws[0]) == TaskOf(ws[0]) + rest + TaskOf(v);
    } else {
      assert ws[i := v][1..] == ws[1..][i - 1 := v];
      RunningUpdate(ws[1..], i - 1, v);
      var rest' := RunningTasks(ws[1..][i - 1 := v]);
      assert RunningTasks(ws[i := v]) == TaskOf(ws[0]) + rest';
      assert TaskOf(ws[0]) + rest' + TaskOf(ws[i]) == TaskOf(ws[0]) + (rest' + TaskOf(ws[i]));
      assert TaskOf(ws[0]) + rest + TaskOf(v) == TaskOf(ws[0]) + (rest + TaskOf(v));
    }
  }

  lemma {:induction false} CountPositive(ws: seq<Worker>, w: Worker)
    ensures Count(ws, w) > 0 <==> w in ws
  {
    if ws != [] {
      CountPositive(ws[1..], w);
      assert w in ws <==> ws[0] == w || w in ws[1..];
    }
  }

  lemma {:induction false} CountAwakeAll(ws: seq<Worker>)
    ensures Count(AwakeAll(ws), Waiting) == 0
    ensures Count(AwakeAll(ws), AtLock) == Count(ws, AtLock) + Count(ws, Waiting)
    ensures Count(AwakeAll(ws), Exited) == Count(ws, Exited)
    ensures RunningTasks(AwakeAll(ws)) == RunningTasks(ws)
  {
    if ws != [] {
      assert AwakeAll(ws)[1..] == AwakeAll(ws[1..]);
      CountAwakeAll(ws[1..]);
    }
  }

  // ---------------------------------------------------------------------------------------------
  // Invariants of every run

  /** Tasks leave the queue in the order they were accepted, and every accepted task is in exactly
      one place: queued, running or finished. */
  ghost predicate Conserved(p: Pool) {
    && p.accepted == p.started + p.tasks
    && multiset(p.started) == RunningTasks(p.workers) + multiset(p.finished)
  }

  /** While a worker sleeps, every queued task has a wake-up of its own on the way: a notify_one
      still to be made, or a worker already heading for the queue. */
  ghost predicate NoLostWakeup(p: Pool) {
    Waiting in p.workers ==> |p.tasks| <= p.notifyOne + Count(p.workers, AtLock)
  }

  /** After stopping, a worker sleeps only if a notify_all is still to come. */
  ghost predicate StopHeard(p: Pool) {
    p.stopping && Waiting in p.workers ==> p.notifyAll > 0
  }

  /** A worker leaves only for good reason. */
  ghost predicate ExitsClean(p: Pool) {
    Exited in p.workers ==> p.stopping && p.tasks == []
  }

  ghost predicate Inv(p: Pool) {
    p.workers != [] && Conserved(p) && NoLostWakeup(p) && StopHeard(p) && ExitsClean(p)
  }

  lemma InvInit(n: nat)
    ensures Inv(Init(n))
  {
    NothingRunsAtStart(if n == 0 then 1 else n);
  }

  lemma NothingRunsAtStart(n: nat)
    ensures RunningTasks(seq(n, _ => AtLock)) == multiset{}
  {
    if n > 0 {
      var ws := seq(n, _ => AtLock);
      assert ws[1..] == seq(n - 1, _ => AtLock);
      NothingRunsAtStart(n - 1);
    }
  }

  /** What moving one worker from one state to another does to the counts. */
  lemma Moved(ws: seq<Worker>, w: nat, v: Worker)
    requires w < |ws| && ws[w] != v
    ensures Count(ws[w := v], AtLock)
         == Count(ws, AtLock) - (if ws[w] == AtLock then 1 else 0) + (if v == AtLock then 1 else 0)
    ensures !ws[w].Running? && !v.Running? ==> RunningTasks(ws[w := v]) == RunningTasks(ws)
    ensures ws[w].Running? && !v.Running? ==> RunningTasks(ws) == RunningTasks(ws[w := v]) + multiset{ws[w].task}
    ensures !ws[w].Running? && v.Running? ==> RunningTasks(ws[w := v]) == RunningTasks(ws) + multiset{v.task}
    ensures forall u :: u in ws[w := v] ==> u == v || u in ws
  {
    CountUpdate(ws, w, v, AtLock);
    RunningUpdate(ws, w, v);
    assert RunningTasks(ws) + multiset{} == RunningTasks(ws);
    assert RunningTasks(ws[w := v]) + multiset{} == RunningTasks(ws[w := v]);
  }

  lemma InvStep(p: Pool, s: Step)
    requires Inv(p) && Enabled(p, s)
    ensures Inv(Next(p, s))
  {
    hide Count, RunningTasks;
    match s
    case Submit(t) =>
      assert p.started + (p.tasks + [t]) == p.started + p.tasks + [t];
    case NotifyOne(w) =>
      if Sleeping(p) {
        Moved(p.workers, w, AtLock);
      }
    case Wake(w) => Moved(p.workers, w, AtLock);
    case Enter(w) => InvEnter(p, w);
    case Finish(w) => InvFinish(p, w);
    case SetStopping =>
    case NotifyAll => CountAwakeAll(p.workers);
  }

  lemma InvFinish(p: Pool, w: nat)
    requires Inv(p) && Enabled(p, Finish(w))
    ensures Inv(Next(p, Finish(w)))
  {
    hide Count, RunningTasks;
    Moved(p.workers, w, AtLock);
    assert multiset(p.finished + [p.workers[w].task]) == multiset(p.finished) + multiset{p.workers[w].task};
  }

  lemma InvEnter(p: Pool, w: nat)
    requires Inv(p) && Enabled(p, Enter(w))
    ensures Inv(Next(p, Enter(w)))
  {
    hide Count, RunningTasks;
    if p.tasks == [] {
      Moved(p.workers, w, if p.stopping then Exited else Waiting);
    } else {
      InvTake(p, w);
    }
  }

  lemma InvTake(p: Pool, w: nat)
    requires Inv(p) && Enabled(p, Enter(w)) && p.tasks != []
    ensures Inv(Next(p, Enter(w)))
  {
    hide Count, RunningTasks;
    var t := p.tasks[0];
    Moved(p.workers, w, Running(t));
    assert p.tasks == [t] + p.tasks[1..];
    assert p.started + p.tasks == p.started + [t] + p.tasks[1..];
    assert multiset(p.started + [t]) == multiset(p.started) + multiset{t};
  }

  lemma {:induction false} InvRun(p: Pool, steps: seq<Step>)
    requires Inv(p) && IsRun(p, steps)
    ensures Inv(After(p, steps))
    decreases |steps|
  {
    if steps != [] {
      InvStep(p, steps[0]);
      InvRun(Next(p, steps[0]), steps[1..]);
    }
  }

  // ---------------------------------------------------------------------------------------------
  // What users of the pool may rely on

  /** First accepted, first started; and no task is lost, invented or run twice. */
  lemma FifoAndConserved(n: nat, steps: seq<Step>)
    requires IsRun(Init(n), steps)
    ensures
      var p := After(Init(n), steps);
      && p.started <= p.accepted
      && p.accepted == p.started + p.tasks
      && multiset(p.accepted) == multiset(p.tasks) + RunningTasks(p.workers) + multiset(p.finished)
  {
    InvInit(n);
    InvRun(Init(n), steps);
    var p := After(Init(n), steps);
    assert multiset(p.started + p.tasks) == multiset(p.started) + multiset(p.tasks);
  }

  /** The tasks handed over before the first Shutdown, in order, told from the steps alone. */
  ghost function Submitted(steps: seq<Step>): seq<Task> {
    if steps == [] || steps[0] == SetStopping then []
    else (if steps[0].Submit? then [steps[0].task] else []) + Submitted(steps[1..])
  }

  lemma {:induction false} AcceptedFrom(p: Pool, steps: seq<Step>)
    requires IsRun(p, steps)
    ensures After(p, steps).accepted == p.accepted + if p.stopping then [] else Submitted(steps)
    ensures |After(p, steps).workers| == |p.workers|
    decreases |steps|
  {
    if steps != [] {
      AcceptedFrom(Next(p, steps[0]), steps[1..]);
      assert p.accepted + ([] + Submitted(steps[1..])) == p.accepted + Submitted(steps[1..]);
      if steps[0].Submit? {
        var t := steps[0].task;
        assert p.accepted + [t] + Submitted(steps[1..]) == p.accepted + ([t] + Submitted(steps[1..]));
      }
    }
  }

  /** The pool accepts exactly the tasks submitted before it was told to stop, in the order of the calls;
      and it has as many workers as it was made with, at least one. */
  lemma AcceptedIsSubmitted(n: nat, steps: seq<Step>)
    requires IsRun(Init(n), steps)
    ensures After(Init(n), steps).accepted == Submitted(steps)
    ensures |After(Init(n), steps).workers| == if n == 0 then 1 else n
  {
    AcceptedFrom(Init(n), steps);
    assert [] + Submitted(steps) == Submitted(steps);
  }

  /** So once every worker has left, exactly those tasks have run, each once. */
  lemma SubmittedAllRan(n: nat, steps: seq<Step>)
    requires IsRun(Init(n), steps) && AllExited(After(Init(n), steps))
    ensures multiset(After(Init(n), steps).finished) == multiset(Submitted(steps))
    ensures After(Init(n), steps).started == Submitted(steps)
  {
    AcceptedIsSubmitted(n, steps);
    JoinedMeansAllRan(n, steps);
  }

  /** A non-empty queue always has someone coming for it. */
  lemma QueueIsServed(n: nat, steps: seq<Step>)
    requires IsRun(Init(n), steps)
    ensures
      var p := After(Init(n), steps);
      p.tasks != [] ==> p.notifyOne > 0 || exists w :: w in p.workers && (w == AtLock || w.Running?)
  {
    InvInit(n);
    InvRun(Init(n), steps);
    var p := After(Init(n), steps);
    if p.tasks != [] && p.notifyOne == 0 {
      CountPositive(p.workers, AtLock);
      var w := p.workers[0];
      assert w in p.workers;
      if w == Waiting {
        assert AtLock in p.workers;
      } else {
        assert w != Exited;
      }
    }
  }

  /** Once stopping is set, no task is accepted any more and it stays set. */
  lemma {:induction false} NothingAcceptedAfterStop(p: Pool, steps: seq<Step>)
    requires p.stopping && IsRun(p, steps)
    ensures After(p, steps).stopping && After(p, steps).accepted == p.accepted
    decreases |steps|
  {
    if steps != [] {
      NothingAcceptedAfterStop(Next(p, steps[0]), steps[1..]);
    }
  }

  ghost predicate AllExited(p: Pool) { forall w :: w in p.workers ==> w == Exited }

  lemma NothingRunning(ws: seq<Worker>)
    requires forall w :: w in ws ==> w == Exited
    ensures RunningTasks(ws) == multiset{}
  {
    if ws != [] {
      assert ws[0] in ws && forall w :: w in ws[1..] ==> w in ws;
      NothingRunning(ws[1..]);
    }
  }

  /** When Shutdown has joined every worker, exactly the accepted tasks have run, each once. */
  lemma JoinedMeansAllRan(n: nat, steps: seq<Step>)
    requires IsRun(Init(n), steps) && AllExited(After(Init(n), steps))
    ensures
      var p := After(Init(n), steps);
      p.stopping && p.tasks == [] && p.started == p.accepted && multiset(p.finished) == multiset(p.accepted)
  {
    InvInit(n);
    InvRun(Init(n), steps);
    var p := After(Init(n), steps);
    assert p.workers[0] in p.workers;
    DoneWhenExited(p);
  }

  // ---------------------------------------------------------------------------------------------
  // Draining ends

  function Weight(w: Worker): nat {
    match w
    case AtLock => 1
    case Waiting => 2
    case Running(_) => 2
    case Exited => 0
  }

  function TotalWeight(ws: seq<Worker>): nat {
    if ws == [] then 0 else Weight(ws[0]) + TotalWeight(ws[1..])
  }

  function Measure(p: Pool): nat {
    2 * |p.tasks| + TotalWeight(p.workers) + p.notifyOne + p.notifyAll
  }

  /** The pool's own steps, as opposed to new calls of Submit and Shutdown. */
  predicate Internal(s: Step) { !s.Submit? && !s.SetStopping? }

  lemma {:induction false} WeightUpdate(ws: seq<Worker>, i: nat, v: Worker)
    requires i < |ws|
    ensures TotalWeight(ws[i := v]) == TotalWeight(ws) - Weight(ws[i]) + Weight(v)
  {
    if i == 0 {
      assert ws[i := v][1..] == ws[1..];
    } else {
      assert ws[i := v][1..] == ws[1..][i - 1 := v];
      WeightUpdate(ws[1..], i - 1, v);
    }
  }

  lemma {:induction false} WeightAwakeAll(ws: seq<Worker>)
    ensures TotalWeight(AwakeAll(ws)) <= TotalWeight(ws)
  {
    if ws != [] {
      assert AwakeAll(ws)[1..] == AwakeAll(ws[1..]);
      WeightAwakeAll(ws[1..]);
    }
  }

  /** After stopping, every internal step, a spurious wake-up included, brings the end nearer. */
  lemma DrainDecreases(p: Pool, s: Step)
    requires p.stopping && Enabled(p, s) && Internal(s)
    ensures Measure(Next(p, s)) < Measure(p)
  {
    hide TotalWeight;
    match s
    case NotifyOne(w) => if Sleeping(p) { WeightUpdate(p.workers, w, AtLock); }
    case Wake(w) => WeightUpdate(p.workers, w, AtLock);
    case Enter(w) => WeightUpdate(p.workers, w, Next(p, s).workers[w]);
    case Finish(w) => WeightUpdate(p.workers, w, AtLock);
    case NotifyAll => WeightAwakeAll(p.workers);
    case _ =>
  }

  /** And as long as a worker is left, the pool has a step to make: no deadlock. */
  lemma DrainProgresses(p: Pool) returns (s: Step)
    requires Inv(p) && p.stopping && !AllExited(p)
    ensures Enabled(p, s) && Internal(s)
  {
    var w :| w in p.workers && w != Exited;
    var i :| 0 <= i < |p.workers| && p.workers[i] == w;
    s := if w == AtLock then Enter(i) else if w == Waiting then NotifyAll else Finish(i);
  }

  /** So after stopping a run of internal steps is at most `Measure` long, and when it can go no
      further every worker has left and every accepted task has run. */
  lemma {:induction false} DrainBound(p: Pool, steps: seq<Step>)
    requires p.stopping && IsRun(p, steps) && forall k :: 0 <= k < |steps| ==> Internal(steps[k])
    ensures |steps| + Measure(After(p, steps)) <= Measure(p)
    decreases |steps|
  {
    if steps != [] {
      assert Internal(steps[0]);
      DrainDecreases(p, steps[0]);
      forall k | 0 <= k < |steps[1..]| ensures Internal(steps[1..][k]) {
        assert steps[1..][k] == steps[k + 1];
      }
      DrainBound(Next(p, steps[0]), steps[1..]);
    }
  }

  lemma DrainEnds(n: nat, before: seq<Step>, drain: seq<Step>)
    requires IsRun(Init(n), before) && After(Init(n), before).stopping
    requires IsRun(After(Init(n), before), drain) && forall k :: 0 <= k < |drain| ==> Internal(drain[k])
    requires forall s :: Internal(s) ==> !Enabled(After(After(Init(n), before), drain), s)
    ensures
      var p, q := After(Init(n), before), After(After(Init(n), before), drain);
      |drain| <= Measure(p) && AllExited(q) && multiset(q.finished) == multiset(p.accepted)
  {
    var p := After(Init(n), before);
    var q := After(p, drain);
    InvInit(n);
    InvRun(Init(n), before);
    InvRun(p, drain);
    DrainBound(p, drain);
    NothingAcceptedAfterStop(p, drain);
    if !AllExited(q) {
      var s := DrainProgresses(q);
      assert false;
    }
    DoneWhenExited(q);
  }

  // ---------------------------------------------------------------------------------------------
  // The object

  class WorkerPool {
    var tasks: seq<Task>
    var stopping: bool
    var workers: seq<Worker>
    var notifyOne: nat
    var notifyAll: nat
    ghost var accepted: seq<Task>
    ghost var started: seq<Task>
    ghost var finished: seq<Task>

    ghost function View(): Pool
      reads this
    {
      Pool(tasks, stopping, workers, notifyOne, notifyAll, accepted, started, finished)
    }

    constructor (n: nat)
      ensures View() == Init(n)
    {
      tasks, stopping := [], false;
      workers := seq(if n == 0 then 1 else n, _ => AtLock);
      notifyOne, notifyAll := 0, 0;
      accepted, started, finished := [], [], [];
    }

    /** Refused, with the pool untouched, once stopping. */
    method Submit(task: Task) returns (ok: bool)
      modifies this
      ensures View() == Next(old(View()), Step.Submit(task)) && ok == !old(stopping)
      ensures ok ==> tasks == old(tasks) + [task] && notifyOne == old(notifyOne) + 1
      ensures !ok ==> View() == old(View())
    {
      if stopping {
        return false;
      }
      tasks := tasks + [task];
      accepted := accepted + [task];
      notifyOne := notifyOne + 1;
      return true;
    }

    method SendNotifyOne(woken: nat)
      requires Enabled(View(), NotifyOne(woken))
      modifies this
      ensures View() == Next(old(View()), NotifyOne(woken))
    {
      notifyOne := notifyOne - 1;
      if Waiting in workers {
        workers := workers[woken := AtLock];
      }
    }

    method WakeUp(w: nat)
      requires Enabled(View(), Wake(w))
      modifies this
      ensures View() == Next(old(View()), Wake(w))
    {
      workers := workers[w := AtLock];
    }

    /** The critical section of the worker loop. */
    method TakeTurn(w: nat)
      requires Enabled(View(), Enter(w))
      modifies this
      ensures View() == Next(old(View()), Enter(w))
    {
      if !(stopping || tasks != []) {
        workers := workers[w := Waiting];
        return;
      }
      if stopping && tasks == [] {
        workers := workers[w := Exited];
        return;
      }
      var task := tasks[0];
      tasks := tasks[1..];
      started := started + [task];
      workers := workers[w := Running(task)];
    }

    method TaskReturns(w: nat)
      requires Enabled(View(), Finish(w))
      modifies this
      ensures View() == Next(old(View()), Finish(w))
    {
      finished := finished + [workers[w].task];
      workers := workers[w := AtLock];
    }

    method SendNotifyAll()
      requires notifyAll > 0
      modifies this
      ensures View() == Next(old(View()), Step.NotifyAll)
    {
      notifyAll := notifyAll - 1;
      workers := AwakeAll(workers);
    }

    /** Whatever the threads do next, chosen freely among all steps that can happen. */
    method AnyStep() returns (ghost step: Step)
      requires Inv(View()) && stopping && !AllExited(View())
      modifies this
      ensures Enabled(old(View()), step) && Internal(step) && View() == Next(old(View()), step)
    {
      hide Inv, Next;
      ghost var some := DrainProgresses(View());
      if
      case w :| 0 <= w < |workers| && workers[w] == AtLock =>
        step := Enter(w);
        TakeTurn(w);
      case w :| 0 <= w < |workers| && workers[w].Running? =>
        step := Finish(w);
        TaskReturns(w);
      case w :| 0 <= w < |workers| && workers[w] == Waiting =>
        step := Wake(w);
        WakeUp(w);
      case notifyAll > 0 =>
        step := Step.NotifyAll;
        SendNotifyAll();
      case w :| 0 <= w < |workers| && workers[w] == Waiting && notifyOne > 0 =>
        step := NotifyOne(w);
        SendNotifyOne(w);
      case notifyOne > 0 && Waiting !in workers =>
        step := NotifyOne(0);
        SendNotifyOne(0);
    }

    /** Sets the flag, notifies, and joins the workers, which go on in any order until all have
        left. It always returns, and then every task accepted before has run, once. */
    method Shutdown() returns (ghost steps: seq<Step>)
      requires Inv(View())
      modifies this
      ensures steps != [] && steps[0] == SetStopping && forall k :: 0 < k < |steps| ==> Internal(steps[k])
      ensures IsRun(old(View()), steps) && View() == After(old(View()), steps)
      ensures Inv(View()) && stopping && AllExited(View())
      ensures accepted == old(accepted) && multiset(finished) == multiset(accepted)
    {
      hide Inv, IsRun, After;
      InvStep(View(), SetStopping);
      FirstStep(View());
      steps := [SetStopping];
      stopping, notifyAll := true, notifyAll + 1;
      while exists w :: 0 <= w < |workers| && workers[w] != Exited
        invariant Inv(View()) && stopping && accepted == old(accepted)
        invariant steps != [] && steps[0] == SetStopping && forall k :: 0 < k < |steps| ==> Internal(steps[k])
        invariant IsRun(old(View()), steps) && View() == After(old(View()), steps)
        decreases Measure(View())
      {
        ghost var before := View();
        ghost var left :| 0 <= left < |workers| && workers[left] != Exited;
        assert before.workers[left] in before.workers;
        ghost var step := AnyStep();
        DrainDecreases(before, step);
        InvStep(before, step);
        RunExtends(old(View()), steps, step);
        steps := steps + [step];
      }
      DoneWhenExited(View());
    }
  }

  lemma FirstStep(p: Pool)
    ensures Enabled(p, SetStopping) && Next(p, SetStopping) == p.(stopping := true, notifyAll := p.notifyAll + 1)
    ensures IsRun(p, [SetStopping]) && After(p, [SetStopping]) == Next(p, SetStopping)
  {
  }

  lemma {:induction false} RunExtends(p: Pool, steps: seq<Step>, step: Step)
    requires IsRun(p, steps) && Enabled(After(p, steps), step)
    ensures IsRun(p, steps + [step]) && After(p, steps + [step]) == Next(After(p, steps), step)
    decreases |steps|
  {
    hide Next, Enabled;
    if steps == [] {
      assert ([] + [step])[1..] == [];
    } else {
      assert (steps + [step])[1..] == steps[1..] + [step];
      RunExtends(Next(p, steps[0]), steps[1..], step);
    }
  }

  lemma DoneWhenExited(p: Pool)
    requires Inv(p) && AllExited(p)
    ensures p.tasks == [] && p.started == p.accepted && multiset(p.finished) == multiset(p.accepted)
  {
    assert p.workers[0] in p.workers;
    NothingRunning(p.workers);
    assert p.started + [] == p.started;
    assert multiset{} + multiset(p.finished) == multiset(p.finished);
  }
}
