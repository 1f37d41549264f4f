/**
  The worker pool as a concurrent step system: one mutex, a condition variable with sleepers and
  pending notifications, a queue of jobs, and workers that loop over wait, take and run.  Clients
  appear only through what they do to the shared state.
 */
module ThreadPool {

  type Job = nat

  /** Where a worker is in its loop. */
  datatype Worker =
    | AtLoop           // about to lock the mutex
    | Holding          // holds the mutex and is about to test the wait condition
    | Sleeping         // blocked in wait, without the mutex
    | Woken            // notified (or spuriously awake), must lock the mutex again
    | Running(job: Job)
    | Exited

  datatype Mutex = Free | HeldByWorker(index: nat) | HeldToEnqueue(job: Job) | HeldToShutDown

  /** The shared state, with the history of what was enqueued, taken and finished.  `late` records an
      enqueue that came after the shutdown flag. */
  datatype Pool = Pool(workers: seq<Worker>, mutex: Mutex, jobs: seq<Job>, shutdown: bool,
                       pendingOne: nat, pendingAll: bool,
                       enqueued: seq<Job>, taken: seq<Job>, finished: multiset<Job>, late: bool)

  datatype Action =
    | Lock(i: nat) | Sleep(i: nat) | Exit(i: nat) | Take(i: nat) | Finish(i: nat) | WakeSpuriously(i: nat)
    | LockToEnqueue(job: Job) | Push | NotifyOne(i: nat) | NotifyNobody
    | LockToShutDown | SetShutdown | NotifyAll

  function Initial(n: nat): Pool {
    Pool(seq(n, _ => AtLoop), Free, [], false, 0, false, [], [], multiset{}, false)
  }

  predicate Is(s: Pool, i: nat, w: Worker) {
    i < |s.workers| && s.workers[i] == w
  }

  predicate Enabled(a: Action, s: Pool) {
    match a
    case Lock(i) => s.mutex == Free && (Is(s, i, AtLoop) || Is(s, i, Woken))
    case Sleep(i) => Is(s, i, Holding) && s.jobs == [] && !s.shutdown
    case Exit(i) => Is(s, i, Holding) && s.jobs == [] && s.shutdown
    case Take(i) => Is(s, i, Holding) && s.jobs != []
    case Finish(i) => i < |s.workers| && s.workers[i].Running?
    case WakeSpuriously(i) => Is(s, i, Sleeping)
    case LockToEnqueue(_) => s.mutex == Free
    case Push => s.mutex.HeldToEnqueue?
    case NotifyOne(i) => s.pendingOne > 0 && Is(s, i, Sleeping)
    case NotifyNobody => s.pendingOne > 0 && Sleeping !in s.workers
    case LockToShutDown => s.mutex == Free && !s.shutdown
    case SetShutdown => s.mutex == HeldToShutDown
    case NotifyAll => s.pendingAll
  }

  function Rouse(w: Worker): Worker {
    if w == Sleeping then Woken else w
  }

  function RouseAll(workers: seq<Worker>): (r: seq<Worker>)
    ensures |r| == |workers| && forall i :: 0 <= i < |r| ==> r[i] == Rouse(workers[i])
  {
    if workers == [] then [] else [Rouse(workers[0])] + RouseAll(workers[1..])
  }

  function Become(s: Pool, i: nat, w: Worker): Pool
    requires i < |s.workers|
  {
    s.(workers := s.workers[i := w])
  }

  function Apply(a: Action, s: Pool): Pool
    requires Enabled(a, s)
  {
    match a
    case Lock(i) => Become(s, i, Holding).(mutex := HeldByWorker(i))
    case Sleep(i) => Become(s, i, Sleeping).(mutex := Free)
    case Exit(i) => Become(s, i, Exited).(mutex := Free)
    case Take(i) =>
      Become(s, i, Running(s.jobs[0])).(mutex := Free, jobs := s.jobs[1..], taken := s.taken + [s.jobs[0]])
    case Finish(i) => Become(s, i, AtLoop).(finished := s.finished + multiset{s.workers[i].job})
    case WakeSpuriously(i) => Become(s, i, Woken)
    case LockToEnqueue(job) => s.(mutex := HeldToEnqueue(job))
    case Push => s.(mutex := Free, jobs := s.jobs + [s.mutex.job], enqueued := s.enqueued + [s.mutex.job],
                    pendingOne := s.pendingOne + 1, late := s.late || s.shutdown)
    case NotifyOne(i) => Become(s, i, Woken).(pendingOne := s.pendingOne - 1)
    case NotifyNobody => s.(pendingOne := s.pendingOne - 1)
    case LockToShutDown => s.(mutex := HeldToShutDown)
    case SetShutdown => s.(mutex := Free, shutdown := true, pendingAll := true)
    case NotifyAll => s.(workers := RouseAll(s.workers), pendingAll := false)
  }

  ghost predicate Next(s: Pool, t: Pool) {
    exists a: Action :: Enabled(a, s) && t == Apply(a, s)
  }

  /** An interleaving from the start: at each point any enabled action of any thread may come next. */
  ghost predicate IsExecution(n: nat, states: seq<Pool>)
    decreases |states|
  {
    var last := |states| - 1;
    states != [] && if last == 0 then states[0] == Initial(n)
                    else IsExecution(n, states[..last]) && Next(states[last - 1], states[last])
  }

  // ---------------------------------------------------------------- what the workers are running

  function JobsOf(w: Worker): multiset<Job> {
    if w.Running? then multiset{w.job} else multiset{}
  }

  function RunningJobs(workers: seq<Worker>): multiset<Job> {
    if workers == [] then multiset{} else JobsOf(workers[0]) + RunningJobs(workers[1..])
  }

  lemma SwapUnder(head: multiset<Job>, a: multiset<Job>, b: multiset<Job>, c: multiset<Job>, d: multiset<Job>)
    requires a + b == c + d
    ensures (head + a) + b == (head + c) + d
  {
    assert (head + a) + b == head + (a + b);
    assert (head + c) + d == head + (c + d);
  }

  lemma {:induction false} RunningAfterUpdate(workers: seq<Worker>, i: nat, w: Worker)
    requires i < |workers|
    ensures RunningJobs(workers[i := w]) + JobsOf(workers[i]) == RunningJobs(workers) + JobsOf(w)
  {
    var rest := workers[1..];
    if i == 0 {
      assert workers[0 := w][1..] == rest;
    } else {
      RunningAfterUpdate(rest, i - 1, w);
      assert workers[i := w][1..] == rest[i - 1 := w];
      SwapUnder(JobsOf(workers[0]), RunningJobs(rest[i - 1 := w]), JobsOf(rest[i - 1]), RunningJobs(rest), JobsOf(w));
      assert RunningJobs(workers[i := w]) == JobsOf(workers[0]) + RunningJobs(rest[i - 1 := w]);
    }
  }

  /** Moving a worker between points where it runs nothing changes nothing. */
  lemma IdleUpdate(workers: seq<Worker>, i: nat, w: Worker)
    requires i < |workers| && !workers[i].Running? && !w.Running?
    ensures RunningJobs(workers[i := w]) == RunningJobs(workers)
  {
    RunningAfterUpdate(workers, i, w);
    assert RunningJobs(workers[i := w]) + multiset{} == RunningJobs(workers[i := w]);
  }

  lemma {:induction false} RunningAfterRouse(workers: seq<Worker>)
    ensures RunningJobs(RouseAll(workers)) == RunningJobs(workers)
  {
    if workers != [] {
      RunningAfterRouse(workers[1..]);
    }
  }

  lemma {:induction false} NoneRunning(workers: seq<Worker>)
    requires forall i :: 0 <= i < |workers| ==> !workers[i].Running?
    ensures RunningJobs(workers) == multiset{}
  {
    if workers != [] {
      NoneRunning(workers[1..]);
    }
  }

  // ---------------------------------------------------------------- the invariant

  /** The mutex and the workers agree on who holds it. */
  ghost predicate Agree(workers: seq<Worker>, mutex: Mutex) {
    (mutex.HeldByWorker? ==> mutex.index < |workers|)
    && forall i :: 0 <= i < |workers| ==> (workers[i] == Holding <==> mutex == HeldByWorker(i))
  }

  ghost predicate MutexInv(s: Pool) {
    Agree(s.workers, s.mutex)
  }

  /** Jobs leave the queue in order, each once, and are running or finished afterwards. */
  ghost predicate QueueInv(s: Pool) {
    s.taken + s.jobs == s.enqueued && s.finished + RunningJobs(s.workers) == multiset(s.taken)
  }

  predicate Awake(w: Worker) {
    w != Sleeping && w != Exited
  }

  /** A queued job with a sleeper about finds either a worker awake or a notification on its way. */
  ghost predicate WakeupInv(s: Pool) {
    s.jobs != [] && Sleeping in s.workers && s.pendingOne == 0 && !s.pendingAll ==>
      exists i :: 0 <= i < |s.workers| && Awake(s.workers[i])
  }

  ghost predicate Without(workers: seq<Worker>, w: Worker) {
    forall i :: 0 <= i < |workers| ==> workers[i] != w
  }

  /** After the flag and its broadcast nobody sleeps, and nobody leaves before the flag or while jobs remain. */
  ghost predicate ShutdownInv(s: Pool) {
    (s.shutdown && !s.pendingAll ==> Without(s.workers, Sleeping))
    && (!s.shutdown || !(s.late || s.jobs == []) ==> Without(s.workers, Exited))
    && (s.pendingAll || s.late ==> s.shutdown)
  }

  ghost predicate Inv(s: Pool) {
    MutexInv(s) && QueueInv(s) && WakeupInv(s) && ShutdownInv(s)
  }

  lemma InitialInv(n: nat)
    ensures Inv(Initial(n))
  {
    NoneRunning(Initial(n).workers);
  }

  lemma StepKeepsMutex(a: Action, s: Pool)
    requires MutexInv(s) && Enabled(a, s)
    ensures MutexInv(Apply(a, s))
  {
    match a
    case Lock(i) => assert Agree(s.workers[i := Holding], HeldByWorker(i));
    case Sleep(i) => assert Agree(s.workers[i := Sleeping], Free);
    case Exit(i) => assert Agree(s.workers[i := Exited], Free);
    case Take(i) => assert Agree(s.workers[i := Running(s.jobs[0])], Free);
    case Finish(i) => assert Agree(s.workers[i := AtLoop], s.mutex);
    case WakeSpuriously(i) => assert Agree(s.workers[i := Woken], s.mutex);
    case NotifyOne(i) => assert Agree(s.workers[i := Woken], s.mutex);
    case NotifyAll => assert Agree(RouseAll(s.workers), s.mutex);
    case _ => assert Apply(a, s).workers == s.workers;
  }

  lemma TakenOneMore(taken: seq<Job>, jobs: seq<Job>, finished: multiset<Job>, running: multiset<Job>,
                     running1: multiset<Job>)
    requires jobs != [] && finished + running == multiset(taken)
    requires running1 + multiset{} == running + multiset{jobs[0]}
    ensures (taken + [jobs[0]]) + jobs[1..] == taken + jobs
    ensures finished + running1 == multiset(taken + [jobs[0]])
  {
    assert running1 + multiset{} == running1;
    assert multiset(taken + [jobs[0]]) == (finished + running) + multiset{jobs[0]};
  }

  lemma TakeKeepsQueue(s: Pool, i: nat)
    requires Inv(s) && Enabled(Take(i), s)
    ensures QueueInv(Apply(Take(i), s))
  {
    RunningAfterUpdate(s.workers, i, Running(s.jobs[0]));
    TakenOneMore(s.taken, s.jobs, s.finished, RunningJobs(s.workers), RunningJobs(s.workers[i := Running(s.jobs[0])]));
  }

  lemma FinishKeepsQueue(s: Pool, i: nat)
    requires Inv(s) && Enabled(Finish(i), s)
    ensures QueueInv(Apply(Finish(i), s))
  {
    var job := s.workers[i].job;
    RunningAfterUpdate(s.workers, i, AtLoop);
    var running := RunningJobs(s.workers[i := AtLoop]);
    assert running + multiset{job} == RunningJobs(s.workers);
    assert (s.finished + multiset{job}) + running == s.finished + (running + multiset{job});
  }

  lemma StepKeepsQueue(a: Action, s: Pool)
    requires Inv(s) && Enabled(a, s)
    ensures QueueInv(Apply(a, s))
  {
    match a
    case Lock(i) => IdleUpdate(s.workers, i, Holding);
    case Sleep(i) => IdleUpdate(s.workers, i, Sleeping);
    case Exit(i) => IdleUpdate(s.workers, i, Exited);
    case Take(i) => TakeKeepsQueue(s, i);
    case Finish(i) => FinishKeepsQueue(s, i);
    case WakeSpuriously(i) => IdleUpdate(s.workers, i, Woken);
    case NotifyOne(i) => IdleUpdate(s.workers, i, Woken);
    case NotifyAll => RunningAfterRouse(s.workers);
    case Push => assert s.taken + (s.jobs + [s.mutex.job]) == (s.taken + s.jobs) + [s.mutex.job];
    case _ =>
  }

  lemma StepKeepsWakeup(a: Action, s: Pool)
    requires Inv(s) && Enabled(a, s)
    ensures WakeupInv(Apply(a, s))
  {
    var t := Apply(a, s);
    match a
    case Lock(i) => assert Awake(t.workers[i]);
    case Take(i) => assert Awake(t.workers[i]);
    case Finish(i) => assert Awake(t.workers[i]);
    case WakeSpuriously(i) => assert Awake(t.workers[i]);
    case NotifyOne(i) => assert Awake(t.workers[i]);
    case _ =>
  }

  lemma MoveKeepsShutdown(a: Action, s: Pool, i: nat, w: Worker)
    requires ShutdownInv(s) && Enabled(a, s)
    requires i < |s.workers| && Apply(a, s).workers == s.workers[i := w]
    requires (a == Lock(i) && w == Holding) || (a == Sleep(i) && w == Sleeping) || (a == Exit(i) && w == Exited)
             || (a == Take(i) && w.Running?) || (a == Finish(i) && w == AtLoop)
             || ((a == WakeSpuriously(i) || a == NotifyOne(i)) && w == Woken)
    ensures ShutdownInv(Apply(a, s))
  {
    assert Without(s.workers, Exited) && w != Exited ==> Without(s.workers[i := w], Exited);
    assert Without(s.workers, Sleeping) && w != Sleeping ==> Without(s.workers[i := w], Sleeping);
  }

  lemma RouseKeepsShutdown(s: Pool)
    requires ShutdownInv(s) && Enabled(NotifyAll, s)
    ensures ShutdownInv(Apply(NotifyAll, s))
  {
    assert Without(RouseAll(s.workers), Sleeping);
    assert Without(s.workers, Exited) ==> Without(RouseAll(s.workers), Exited);
  }

  /** The steps of other threads leave the workers where they are. */
  lemma OthersKeepShutdown(a: Action, s: Pool)
    requires ShutdownInv(s) && Enabled(a, s) && Apply(a, s).workers == s.workers && !a.NotifyAll?
    requires !a.Lock? && !a.Sleep? && !a.Exit? && !a.Take? && !a.Finish? && !a.WakeSpuriously? && !a.NotifyOne?
    ensures ShutdownInv(Apply(a, s))
  {
  }

  lemma StepKeepsShutdown(a: Action, s: Pool)
    requires ShutdownInv(s) && Enabled(a, s)
    ensures ShutdownInv(Apply(a, s))
  {
    match a
    case Lock(i) => MoveKeepsShutdown(a, s, i, Holding);
    case Sleep(i) => MoveKeepsShutdown(a, s, i, Sleeping);
    case Exit(i) => MoveKeepsShutdown(a, s, i, Exited);
    case Take(i) => MoveKeepsShutdown(a, s, i, Running(s.jobs[0]));
    case Finish(i) => MoveKeepsShutdown(a, s, i, AtLoop);
    case WakeSpuriously(i) => MoveKeepsShutdown(a, s, i, Woken);
    case NotifyOne(i) => MoveKeepsShutdown(a, s, i, Woken);
    case NotifyAll => RouseKeepsShutdown(s);
    case _ => OthersKeepShutdown(a, s);
  }

  lemma StepKeepsInv(a: Action, s: Pool)
    requires Inv(s) && Enabled(a, s)
    ensures Inv(Apply(a, s)) && |Apply(a, s).workers| == |s.workers|
  {
    StepKeepsMutex(a, s);
    StepKeepsQueue(a, s);
    StepKeepsWakeup(a, s);
    StepKeepsShutdown(a, s);
  }

  /** Induction over interleavings: what holds at the start and survives every step holds throughout. */
  lemma {:induction false} ExecutionKeeps(property: Pool -> bool, n: nat, states: seq<Pool>, k: nat)
    requires property(Initial(n))
    requires forall s: Pool, t: Pool :: property(s) && Next(s, t) ==> property(t)
    requires IsExecution(n, states) && k < |states|
    ensures property(states[k])
    decreases |states|
  {
    var last := |states| - 1;
    if last == 0 {
      assert states[0] == Initial(n);
    } else if k < last {
      ExecutionKeeps(property, n, states[..last], k);
    } else {
      ExecutionKeeps(property, n, states[..last], last - 1);
      assert Next(states[last - 1], states[last]);
    }
  }

  /** Every state of every interleaving satisfies the invariant. */
  lemma ExecutionKeepsInv(n: nat, states: seq<Pool>, k: nat)
    requires IsExecution(n, states) && k < |states|
    ensures Inv(states[k]) && |states[k].workers| == n
  {
    InitialInv(n);
    forall s: Pool, t: Pool | (Inv(s) && |s.workers| == n) && Next(s, t)
      ensures Inv(t) && |t.workers| == n
    {
      var a: Action :| Enabled(a, s) && t == Apply(a, s);
      StepKeepsInv(a, s);
    }
    ExecutionKeeps(s => Inv(s) && |s.workers| == n, n, states, k);
  }

  // ---------------------------------------------------------------- safety

  /** Jobs are taken once each, in the order they were enqueued, and a taken job is running or finished. */
  lemma TakenInOrder(n: nat, states: seq<Pool>, k: nat)
    requires IsExecution(n, states) && k < |states|
    ensures var s := states[k];
            s.enqueued == s.taken + s.jobs && multiset(s.taken) == s.finished + RunningJobs(s.workers)
  {
    ExecutionKeepsInv(n, states, k);
  }

  ghost predicate AllSleeping(s: Pool) {
    forall i :: 0 <= i < |s.workers| ==> s.workers[i] == Sleeping
  }

  /** No wakeup is lost: with a job queued and every worker asleep, a notification is still to come. */
  lemma NoLostWakeup(n: nat, states: seq<Pool>, k: nat)
    requires n >= 1 && IsExecution(n, states) && k < |states|
    requires states[k].jobs != [] && AllSleeping(states[k])
    ensures states[k].pendingOne > 0 || states[k].pendingAll
  {
    ExecutionKeepsInv(n, states, k);
    assert states[k].workers[0] == Sleeping;
  }

  ghost predicate AllExited(s: Pool) {
    forall i :: 0 <= i < |s.workers| ==> s.workers[i] == Exited
  }

  /** Once every worker has been joined, and nothing was enqueued after the shutdown flag, every job
      that was ever enqueued has run. */
  lemma JoinedMeansDone(n: nat, states: seq<Pool>, k: nat)
    requires n >= 1 && IsExecution(n, states) && k < |states|
    requires AllExited(states[k]) && !states[k].late
    ensures states[k].finished == multiset(states[k].enqueued) && states[k].jobs == []
  {
    ExecutionKeepsInv(n, states, k);
    NoneRunning(states[k].workers);
    assert states[k].workers[0] == Exited;
    assert states[k].taken + [] == states[k].taken;
  }

  // ---------------------------------------------------------------- progress

  /** The actions of the pool itself: no new request from a client and no spurious wakeup. */
  predicate Internal(a: Action) {
    !a.WakeSpuriously? && !a.LockToEnqueue? && !a.LockToShutDown?
  }

  function Rank(w: Worker): nat {
    match w
    case Sleeping => 0
    case Exited => 0
    case Holding => 1
    case AtLoop => 2
    case Woken => 2
    case Running(_) => 3
  }

  function Ranks(workers: seq<Worker>): nat {
    if workers == [] then 0 else Rank(workers[0]) + Ranks(workers[1..])
  }

  lemma {:induction false} RanksAfterUpdate(workers: seq<Worker>, i: nat, w: Worker)
    requires i < |workers|
    ensures Ranks(workers[i := w]) + Rank(workers[i]) == Ranks(workers) + Rank(w)
  {
    if i == 0 {
      assert workers[0 := w][1..] == workers[1..];
    } else {
      RanksAfterUpdate(workers[1..], i - 1, w);
      assert workers[i := w][1..] == workers[1..][i - 1 := w];
    }
  }

  lemma {:induction false} RanksAfterRouse(workers: seq<Worker>)
    ensures Ranks(RouseAll(workers)) <= Ranks(workers) + 2 * |workers|
  {
    if workers != [] {
      RanksAfterRouse(workers[1..]);
    }
  }

  function MutexWork(s: Pool): nat {
    match s.mutex
    case HeldToEnqueue(_) => 7
    case HeldToShutDown => 2 * |s.workers| + 2
    case _ => 0
  }

  /** The work left to the pool itself. */
  function Work(s: Pool): nat {
    Ranks(s.workers) + 3 * |s.jobs| + 3 * s.pendingOne + (if s.pendingAll then 2 * |s.workers| + 1 else 0)
      + MutexWork(s)
  }

  /** Every internal action uses up work, so between client requests the pool comes to rest. */
  lemma InternalStepsUseUpWork(a: Action, s: Pool)
    requires Inv(s) && Internal(a) && Enabled(a, s)
    ensures Work(Apply(a, s)) < Work(s)
  {
    match a
    case Lock(i) => MoveUsesUpWork(a, s, i, Holding);
    case Sleep(i) => MoveUsesUpWork(a, s, i, Sleeping);
    case Exit(i) => MoveUsesUpWork(a, s, i, Exited);
    case Take(i) => MoveUsesUpWork(a, s, i, Running(s.jobs[0]));
    case Finish(i) => MoveUsesUpWork(a, s, i, AtLoop);
    case NotifyOne(i) => MoveUsesUpWork(a, s, i, Woken);
    case Push => assert Work(Apply(a, s)) < Work(s);
    case NotifyNobody => assert Work(Apply(a, s)) < Work(s);
    case SetShutdown => assert Work(Apply(a, s)) < Work(s);
    case NotifyAll =>
      RanksAfterRouse(s.workers);
      assert Work(Apply(a, s)) < Work(s);
  }

  lemma MoveUsesUpWork(a: Action, s: Pool, i: nat, w: Worker)
    requires Inv(s) && Internal(a) && Enabled(a, s)
    requires i < |s.workers| && Apply(a, s).workers == s.workers[i := w]
    requires a == Lock(i) || a == Sleep(i) || a == Exit(i) || a == Take(i) || a == Finish(i) || a == NotifyOne(i)
    ensures Work(Apply(a, s)) < Work(s)
  {
    assert Apply(a, s).workers[i] == w;
    RanksAfterUpdate(s.workers, i, w);
  }

  ghost predicate InternalNext(s: Pool, t: Pool) {
    exists a: Action :: Internal(a) && Enabled(a, s) && t == Apply(a, s)
  }

  ghost predicate IsInternalRun(states: seq<Pool>)
    decreases |states|
  {
    var last := |states| - 1;
    states != [] && (last > 0 ==> IsInternalRun(states[..last]) && InternalNext(states[last - 1], states[last]))
  }

  /** Left to itself the pool comes to rest: each of its own steps is paid for by work. */
  lemma {:induction false} InternalRunsAreBounded(states: seq<Pool>)
    requires IsInternalRun(states) && Inv(states[0])
    ensures Inv(states[|states| - 1]) && |states| - 1 + Work(states[|states| - 1]) <= Work(states[0])
    decreases |states|
  {
    var last := |states| - 1;
    if last > 0 {
      InternalRunsAreBounded(states[..last]);
      InternalNextUsesUpWork(states[last - 1], states[last]);
    }
  }

  lemma InternalNextUsesUpWork(s: Pool, t: Pool)
    requires Inv(s) && InternalNext(s, t)
    ensures Inv(t) && Work(t) < Work(s)
  {
    var a: Action :| Internal(a) && Enabled(a, s) && t == Apply(a, s);
    StepKeepsInv(a, s);
    InternalStepsUseUpWork(a, s);
  }

  /** No internal action is possible. */
  ghost predicate AtRest(s: Pool) {
    forall a: Action :: Internal(a) ==> !Enabled(a, s)
  }

  function HolderAction(s: Pool): Action
    requires s.mutex.HeldByWorker?
  {
    if s.jobs != [] then Take(s.mutex.index) else if s.shutdown then Exit(s.mutex.index) else Sleep(s.mutex.index)
  }

  lemma HolderCanMove(s: Pool)
    requires Inv(s) && s.mutex.HeldByWorker?
    ensures Internal(HolderAction(s)) && Enabled(HolderAction(s), s)
  {
    assert s.workers[s.mutex.index] == Holding;
  }

  lemma RestingMutex(s: Pool)
    requires Inv(s) && AtRest(s)
    ensures s.mutex == Free && s.pendingOne == 0 && !s.pendingAll
  {
    assert !Enabled(Push, s) && !Enabled(SetShutdown, s) && !Enabled(NotifyAll, s) && !Enabled(NotifyNobody, s);
    if s.mutex.HeldByWorker? {
      HolderCanMove(s);
    }
    if Sleeping in s.workers {
      var j :| 0 <= j < |s.workers| && s.workers[j] == Sleeping;
      assert !Enabled(NotifyOne(j), s);
    }
  }

  /** A resting pool of at least one worker has run every job, as long as nothing was enqueued after the
      shutdown flag; and once the flag is set every worker has exited, so the joins return. */
  lemma RestMeansDone(n: nat, states: seq<Pool>, k: nat)
    requires n >= 1 && IsExecution(n, states) && k < |states|
    requires AtRest(states[k]) && !states[k].late
    ensures states[k].jobs == [] && states[k].finished == multiset(states[k].enqueued)
    ensures states[k].shutdown ==> AllExited(states[k])
    ensures !states[k].shutdown ==> AllSleeping(states[k])
  {
    var s := states[k];
    ExecutionKeepsInv(n, states, k);
    RestingMutex(s);
    forall i | 0 <= i < n
      ensures s.workers[i] == Sleeping || s.workers[i] == Exited
    {
      assert !Enabled(Lock(i), s) && !Enabled(Finish(i), s);
    }
    NoneRunning(s.workers);
    assert s.workers[0] in s.workers;
    assert s.taken + [] == s.taken;
  }
}
