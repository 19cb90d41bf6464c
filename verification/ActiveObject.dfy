/** The active object: a queue of jobs and the thread that works it off
    (src/LetsTalk/ActiveObject.cpp, src/LetsTalk/ActiveObject.hpp lines 94-99).

    Any thread may submit jobs; startWork and stopWork are called by one owner at a time. The
    worker's reads of the keep-alive flag, its lock operations and its jobs are separate steps,
    so that submissions and stopWork fall anywhere between them. */
module ActiveObjects {

  /** A job is represented by the order in which it was made. */
  type Job = nat

  /** Where the worker thread is. NoThread is a thread object that cannot be joined. The mutex is
      held from taking it in the loop until the front job is popped, and throughout the drain. */
  datatype Worker =
    | NoThread
    | AtTest | WantLock | RanJob
    | WantDrain | Draining | RanLast
    | Exited

  /** The owner is in no call, or waits in stopWork for the thread; before is the number of jobs
      submitted when it called. */
  datatype Owner = Idle | Stopping(before: nat)

  /** submitted and executed are history. */
  datatype State = State(
    work: seq<Job>,
    keepAlive: bool,
    worker: Worker,
    owner: Owner,
    submitted: seq<Job>,
    executed: seq<Job>)

  predicate Locked(s: State) {
    s.worker == RanJob || s.worker == Draining || s.worker == RanLast
  }

  datatype Step = Submit(job: Job) | StartWork | StopWork | Join | WorkerStep

  predicate Enabled(s: State, step: Step) {
    match step
    case Submit(_) => !Locked(s)
    case StartWork => s.owner == Idle
    case StopWork => s.owner == Idle
    case Join => s.owner.Stopping? && s.worker == Exited
    case WorkerStep =>
      && s.worker != NoThread && s.worker != Exited
      && (s.worker == RanJob || s.worker == RanLast ==> s.work != [])
  }

  function RunFront(s: State, next: Worker): State
    requires s.work != []
  {
    s.(executed := s.executed + [s.work[0]], worker := next)
  }

  function PopFront(s: State, next: Worker): State
    requires s.work != []
  {
    s.(work := s.work[1..], worker := next)
  }

  function Work(s: State): State
    requires Enabled(s, WorkerStep)
  {
    match s.worker
    case AtTest => s.(worker := if s.keepAlive then WantLock else WantDrain)
    case WantLock => if s.work != [] then RunFront(s, RanJob) else s.(worker := AtTest)
    case RanJob => PopFront(s, AtTest)
    case WantDrain => s.(worker := Draining)
    case Draining => if s.work != [] then RunFront(s, RanLast) else s.(worker := Exited)
    case RanLast => PopFront(s, Draining)
  }

  function Apply(s: State, step: Step): State
    requires Enabled(s, step)
  {
    match step
    case Submit(job) => s.(work := s.work + [job], submitted := s.submitted + [job])
    case StartWork => if s.keepAlive then s else s.(keepAlive := true, worker := AtTest)
    case StopWork => s.(keepAlive := false, owner := if s.worker == NoThread then Idle else Stopping(|s.submitted|))
    case Join => s.(owner := Idle, worker := NoThread)
    case WorkerStep => Work(s)
  }

  /** The constructor starts the thread. */
  const INITIAL := State([], true, AtTest, Idle, [], [])

  /** Each state follows from the one before by the step between them. */
  ghost predicate IsRun(states: seq<State>, steps: seq<Step>) {
    && |states| == |steps| + 1
    && forall i {:trigger steps[i]} :: 0 <= i < |steps| ==>
         Enabled(states[i], steps[i]) && states[i + 1] == Apply(states[i], steps[i])
  }

  ghost predicate Reachable(s: State) {
    exists states, steps :: IsRun(states, steps) && states[0] == INITIAL && states[|steps|] == s
  }

  // ---- the invariant ----

  /** The front job has been run and not been popped. */
  predicate JustRan(s: State) {
    s.worker == RanJob || s.worker == RanLast
  }

  predicate Leaving(w: Worker) {
    w == WantDrain || w == Draining || w == RanLast || w == Exited
  }

  predicate Inv(s: State) {
    && (JustRan(s) ==> s.work != [])
    && s.submitted == s.executed + (if JustRan(s) then s.work[1..] else s.work)
    && (s.keepAlive ==> s.owner == Idle && s.worker != NoThread)
    && (!s.keepAlive && s.owner == Idle ==> s.worker == NoThread)
    && (Leaving(s.worker) ==> s.owner.Stopping?)
    && (s.owner.Stopping? ==> s.worker != NoThread && s.owner.before <= |s.submitted|)
    && (s.worker == Exited ==> s.owner.before <= |s.executed|)
  }

  lemma WorkKeeps(s: State)
    requires Inv(s) && Enabled(s, WorkerStep)
    ensures Inv(Work(s))
    ensures s.executed <= Work(s).executed && Work(s).submitted == s.submitted
  {
    if (s.worker == WantLock || s.worker == Draining) && s.work != [] {
      assert s.work == [s.work[0]] + s.work[1..];
      assert s.executed + s.work == (s.executed + [s.work[0]]) + s.work[1..];
    }
  }

  lemma StepKeeps(s: State, step: Step)
    requires Inv(s) && Enabled(s, step)
    ensures Inv(Apply(s, step))
    ensures s.executed <= Apply(s, step).executed && s.submitted <= Apply(s, step).submitted
  {
    match step
    case WorkerStep => WorkKeeps(s);
    case Submit(job) => assert s.executed + (s.work + [job]) == (s.executed + s.work) + [job];
    case _ =>
  }

  lemma {:induction false} RunKeeps(states: seq<State>, steps: seq<Step>, n: nat)
    requires IsRun(states, steps) && Inv(states[0]) && n <= |steps|
    ensures Inv(states[n])
    ensures states[0].executed <= states[n].executed && states[0].submitted <= states[n].submitted
  {
    if n > 0 {
      RunKeeps(states, steps, n - 1);
      StepKeeps(states[n - 1], steps[n - 1]);
    }
  }

  lemma ReachableInv(s: State)
    requires Reachable(s)
    ensures Inv(s)
  {
    var states, steps :| IsRun(states, steps) && states[0] == INITIAL && states[|steps|] == s;
    RunKeeps(states, steps, |steps|);
  }

  // ---- order ----

  /** The jobs that a sequence of steps submits, in order. */
  function Jobs(steps: seq<Step>): seq<Job> {
    if steps == [] then [] else
    var last := steps[|steps| - 1];
    Jobs(steps[..|steps| - 1]) + (if last.Submit? then [last.job] else [])
  }

  lemma {:induction false} SubmittedByRun(states: seq<State>, steps: seq<Step>, n: nat)
    requires IsRun(states, steps) && n <= |steps|
    ensures states[n].submitted == states[0].submitted + Jobs(steps[..n])
  {
    if n > 0 {
      SubmittedByRun(states, steps, n - 1);
      assert steps[..n][..n - 1] == steps[..n - 1];
      assert states[n] == Apply(states[n - 1], steps[n - 1]);
    }
  }

  /** Whenever the lock is free, across any starts and stops, the jobs that were submitted are those
      executed followed by the queue: every job runs at most once, in order of submission. */
  lemma JobsRunInOrder(states: seq<State>, steps: seq<Step>)
    requires IsRun(states, steps) && states[0] == INITIAL
    ensures var s := states[|steps|];
            && s.submitted == Jobs(steps)
            && (!Locked(s) ==> Jobs(steps) == s.executed + s.work)
            && s.executed <= Jobs(steps)
  {
    RunKeeps(states, steps, |steps|);
    SubmittedByRun(states, steps, |steps|);
    assert steps[..|steps|] == steps;
  }

  /** A thread is started only where none is left to join, and only the owner's stop ends it. */
  lemma ThreadsDoNotOverlap(s: State)
    requires Reachable(s)
    ensures s.owner == Idle && !s.keepAlive ==> s.worker == NoThread
    ensures s.worker == Exited ==> s.owner.Stopping?
  {
    ReachableInv(s);
  }

  // ---- progress ----

  function WorkerSteps(steps: seq<Step>): nat {
    if steps == [] then 0 else
    WorkerSteps(steps[..|steps| - 1]) + (if steps[|steps| - 1] == WorkerStep then 1 else 0)
  }

  /** How many worker steps at most until the next job that waits has run, while the object is alive. */
  function ToNext(w: Worker): nat {
    match w
    case WantLock => 1
    case AtTest => 2
    case _ => 3
  }

  /** How many worker steps at most until job number k has run. */
  function ToJob(s: State, k: nat): nat {
    if k < |s.executed| then 0 else 3 * (k - |s.executed|) + ToNext(s.worker)
  }

  /** While the object is alive the worker has a step to make, and every one of its steps brings a
      job that waits nearer; nothing else pushes it away. */
  lemma StepApproaches(s: State, step: Step, k: nat)
    requires Inv(s) && s.keepAlive && Enabled(s, step) && step != StopWork && k < |s.submitted|
    ensures Enabled(s, WorkerStep) && Apply(s, step).keepAlive
    ensures ToJob(Apply(s, step), k) <= ToJob(s, k)
    ensures step == WorkerStep && ToJob(s, k) > 0 ==> ToJob(Apply(s, step), k) < ToJob(s, k)
  {
  }

  lemma {:induction false} RunApproaches(states: seq<State>, steps: seq<Step>, n: nat, k: nat)
    requires IsRun(states, steps) && Inv(states[0]) && states[0].keepAlive && k < |states[0].submitted|
    requires StopWork !in steps && n <= |steps|
    ensures states[n].keepAlive
    ensures ToJob(states[n], k) == 0 || ToJob(states[n], k) + WorkerSteps(steps[..n]) <= ToJob(states[0], k)
  {
    if n > 0 {
      RunApproaches(states, steps, n - 1, k);
      RunKeeps(states, steps, n - 1);
      assert steps[..n][..n - 1] == steps[..n - 1];
      assert Enabled(states[n - 1], steps[n - 1]) && states[n] == Apply(states[n - 1], steps[n - 1]);
      StepApproaches(states[n - 1], steps[n - 1], k);
    }
  }

  /** Progress: from every reachable state, while the object is not stopped, every job submitted so
      far has run after at most three worker steps for it and for each job still ahead of it. */
  lemma JobsRunWithin(states: seq<State>, steps: seq<Step>, k: nat)
    requires IsRun(states, steps) && Reachable(states[0]) && states[0].keepAlive && StopWork !in steps
    requires |states[0].executed| <= k < |states[0].submitted|
    requires WorkerSteps(steps) >= 3 * (k + 1 - |states[0].executed|)
    ensures var t := states[|steps|]; k < |t.executed| && t.executed[k] == states[0].submitted[k]
  {
    ReachableInv(states[0]);
    RunApproaches(states, steps, |steps|, k);
    assert steps[..|steps|] == steps;
    RunKeeps(states, steps, |steps|);
  }

  /** The worker is never stuck while the object is alive. */
  lemma WorkerCanGoOn(s: State)
    requires Reachable(s) && s.keepAlive
    ensures Enabled(s, WorkerStep)
  {
    ReachableInv(s);
  }

  /** startWork brings a stopped object back to work, with the jobs it still has. */
  lemma StartResumes(s: State)
    requires Reachable(s) && Enabled(s, StartWork)
    ensures var t := Apply(s, StartWork); t.keepAlive && Enabled(t, WorkerStep) && t.work == s.work
  {
    ReachableInv(s);
  }

  // ---- stopping ----

  /** The run is one call of stopWork, from the call to its return, with everything the other
      threads do meanwhile. */
  ghost predicate IsStopCall(states: seq<State>, steps: seq<Step>) {
    && IsRun(states, steps) && steps != [] && steps[0] == StopWork
    && if states[0].worker == NoThread then |steps| == 1
       else |steps| > 1 && steps[|steps| - 1] == Join && forall i :: 0 < i < |steps| - 1 ==> steps[i] != Join
  }

  /** While the owner waits, the number of jobs it waits for does not change. */
  lemma {:induction false} WaitingKeepsTarget(states: seq<State>, steps: seq<Step>, n: nat)
    requires IsStopCall(states, steps) && Inv(states[0]) && states[0].worker != NoThread && 0 < n < |steps|
    ensures states[n].owner == Stopping(|states[0].submitted|)
  {
    if n == 1 {
      assert states[1] == Apply(states[0], steps[0]);
    } else {
      WaitingKeepsTarget(states, steps, n - 1);
      RunKeeps(states, steps, n - 1);
      assert states[n] == Apply(states[n - 1], steps[n - 1]);
    }
  }

  /** A stop that waited returns with every job submitted before the call executed. */
  lemma JoinedStop(states: seq<State>, steps: seq<Step>)
    requires IsStopCall(states, steps) && Inv(states[0]) && states[0].worker != NoThread
    ensures states[0].submitted <= states[|steps|].executed
  {
    var n := |steps| - 1;
    WaitingKeepsTarget(states, steps, n);
    RunKeeps(states, steps, n);
    assert Enabled(states[n], steps[n]) && states[n + 1] == Apply(states[n], Join);
    assert states[n].executed <= states[n].submitted;
  }

  /** Every job submitted before stopWork is called has run, exactly once, when it returns,
      exactly if there was a thread to join or nothing was waiting. Stopping an object that is
      stopped already runs nothing. */
  lemma StopFinishesJobs(states: seq<State>, steps: seq<Step>)
    requires IsStopCall(states, steps) && Reachable(states[0])
    ensures var before, after := states[0], states[|steps|];
            && (before.submitted <= after.executed <==> before.worker != NoThread || before.work == [])
            && after.executed <= after.submitted
  {
    var before := states[0];
    ReachableInv(before);
    RunKeeps(states, steps, |steps|);
    if before.worker != NoThread {
      JoinedStop(states, steps);
    } else {
      assert states[1] == Apply(before, steps[0]);
      assert before.submitted == before.executed + before.work;
    }
  }

  /** A job submitted between two stops, which the second one leaves in the queue. */
  lemma SecondStopRunsNothing() returns (states: seq<State>, steps: seq<Step>)
    ensures IsRun(states, steps) && states[0] == INITIAL
    ensures |steps| == 7 && steps[5..] == [Submit(7), StopWork]
    ensures states[|steps|].owner == Idle && states[|steps|].work == [7] && states[|steps|].executed == []
  {
    steps := [StopWork, WorkerStep, WorkerStep, WorkerStep, Join, Submit(7), StopWork];
    var s1 := Apply(INITIAL, StopWork);
    var s2 := Work(s1);
    var s3 := Work(s2);
    var s4 := Work(s3);
    var s5 := Apply(s4, Join);
    var s6 := Apply(s5, Submit(7));
    states := [INITIAL, s1, s2, s3, s4, s5, s6, Apply(s6, StopWork)];
  }

  // ---- stopping ends ----

  /** How far the worker is from its end once it has been told to stop. */
  function Phase(s: State): nat {
    match s.worker
    case NoThread => 0
    case Exited => 0
    case RanLast => 1
    case Draining => 1
    case WantDrain => 2
    case AtTest => 3
    case RanJob => 4
    case WantLock => 5
  }

  /** The steps left in the drain, which nobody can add to: the worker holds the lock. */
  function DrainLeft(s: State): nat {
    if Phase(s) == 1 then 2 * |s.work| + (if s.worker == Draining then 1 else 0) else 0
  }

  predicate Nearer(t: State, s: State) {
    Phase(t) < Phase(s) || (Phase(t) == Phase(s) && DrainLeft(t) < DrainLeft(s))
  }

  /** stopWork cannot hang: while the owner waits, the worker has a step to make or is done; each
      of its steps brings the end nearer in a well-founded order, and jobs submitted meanwhile do
      not push it away. Nothing else can happen but the return itself. */
  lemma StopTerminates(s: State, step: Step)
    requires Reachable(s) && s.owner.Stopping?
    ensures Enabled(s, WorkerStep) || Enabled(s, Join)
    ensures Enabled(s, step) ==>
              match step
              case WorkerStep => Nearer(Work(s), s)
              case Submit(_) => Phase(Apply(s, step)) == Phase(s) && DrainLeft(Apply(s, step)) == DrainLeft(s)
              case Join => Apply(s, step).owner == Idle
              case _ => false
  {
    ReachableInv(s);
  }

  // ---- the worker between taking and releasing the lock ----

  /** One round of the loop. */
  function Round(s: State): State
    requires s.worker == WantLock
  {
    if s.work == [] then Work(s) else Work(Work(s))
  }

  /** The drain, until the thread ends. */
  function DrainAll(s: State): State
    requires s.worker == Draining
    decreases |s.work|
  {
    if s.work == [] then Work(s) else DrainAll(Work(Work(s)))
  }

  lemma {:induction false} DrainRunsAll(s: State)
    requires s.worker == Draining
    ensures DrainAll(s) == s.(work := [], executed := s.executed + s.work, worker := Exited)
    decreases |s.work|
  {
    if s.work == [] {
      assert s.executed + s.work == s.executed;
    } else {
      DrainRunsAll(Work(Work(s)));
      assert s.work == [s.work[0]] + s.work[1..];
      assert s.executed + s.work == (s.executed + [s.work[0]]) + s.work[1..];
    }
  }

  // ---- the object ----

  /** The queue as the threads use it under the lock. */
  class ActiveObject {
    var work: seq<Job>
    var executed: seq<Job>

    constructor ()
      ensures work == [] && executed == []
    {
      work, executed := [], [];
    }

    method SubmitJob(job: Job)
      modifies this`work
      ensures executed + work == old(executed + work) + [job]
      ensures work == old(work) + [job]
    {
      work := work + [job];
    }

    /** One round of the polling loop. */
    method Poll()
      modifies this
      ensures executed + work == old(executed + work)
      ensures |executed| == |old(executed)| + if old(work) == [] then 0 else 1
      ensures forall s: State :: s.worker == WantLock && s.work == old(work) && s.executed == old(executed) ==>
                Round(s) == s.(work := work, executed := executed, worker := AtTest)
    {
      if work != [] {
        assert work == [work[0]] + work[1..];
        executed := executed + [work[0]];
        work := work[1..];
      }
    }

    /** The drain after the loop. */
    method Drain()
      modifies this
      ensures work == [] && executed == old(executed) + old(work)
      ensures forall s: State :: s.worker == Draining && s.work == old(work) && s.executed == old(executed) ==>
                DrainAll(s) == s.(work := work, executed := executed, worker := Exited)
    {
      assert executed + work == old(executed) + old(work);
      while work != []
        invariant executed + work == old(executed) + old(work)
        decreases |work|
      {
        assert work == [work[0]] + work[1..];
        assert executed + work == (executed + [work[0]]) + work[1..];
        executed := executed + [work[0]];
        work := work[1..];
      }
      forall s: State | s.worker == Draining && s.work == old(work) && s.executed == old(executed)
        ensures DrainAll(s) == s.(work := work, executed := executed, worker := Exited)
      {
        DrainRunsAll(s);
      }
    }
  }
}
