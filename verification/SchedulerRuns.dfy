/** Runs of the thread library: any thread that has the processor makes any call, and what holds in all of them. */
module SchedulerRuns {
  import opened Options
  import opened Queues
  import opened Schedulers
  import opened SchedulerInvariants
  import opened SchedulerCalls

  /** What the running thread does next. A timer interrupt is a yield to any thread. */
  datatype Call =
    | DoCreate | DoYield(want: int) | DoExit | DoKill(tid: int) | DoWait(tid: int)
    | NewQueue(nr: nat) | DoSleep(nr: nat) | DoWakeup(nr: nat, all: bool)
    | NewLock(lock: nat, unset: int) | DoAcquire(lock: nat) | DoRelease(lock: nat)
    | NewCv(cv: nat) | DoCvWait(cv: nat, lock: nat) | DoCvWake(cv: nat, lock: nat, all: bool)
    | Finish

  /**
   * What the library demands of its callers: queues, locks and condition variables exist (and are new when created),
   * a killed thread does not wait for a lock, a condition or in a user queue, and a thread waited for has not exited.
   * A thread that has just been switched to first finishes its sleep. The owner of a new lock is whatever its memory holds.
   */
  ghost predicate Allowed(s: State, r: nat, c: Call) {
    if RestOf(s, r) != ToUser then c == Finish
    else match c
      case DoKill(tid) => tid >= 0 ==> forall p | p in s.queues && !p.OnThread? :: tid !in s.queues[p]
      case DoWait(tid) => tid >= 0 ==> StatusOf(s, tid) != Some(EXITED)
      case NewQueue(nr) => OnUser(nr) !in s.queues
      case DoSleep(nr) => OnUser(nr) in s.queues
      case DoWakeup(nr, _) => OnUser(nr) in s.queues
      case NewLock(l, _) => l !in s.locks
      case DoAcquire(l) => l in s.locks
      case DoRelease(l) => l in s.locks
      case NewCv(c) => OnCv(c) !in s.queues
      case DoCvWait(c, l) => OnCv(c) in s.queues && l in s.locks
      case DoCvWake(c, l, _) => OnCv(c) in s.queues && l in s.locks
      case Finish => false
      case _ => true
  }

  /** None when the program ends or the thread spins forever on a lock with interrupts off. */
  ghost function Effect(s: State, r: nat, c: Call): Option<Outcome>
    requires Allowed(s, r, c)
    requires RestOf(s, r).ToAcquire? ==> RestOf(s, r).lock in s.locks
  {
    match c
    case DoCreate => Some(Create(s, r))
    case DoYield(want) => Some(Yield(s, r, want))
    case DoExit => Exit(s, r)
    case DoKill(tid) => Some(Kill(s, r, tid))
    case DoWait(tid) => Some(Wait(s, r, tid))
    case NewQueue(nr) => Some(Outcome(s.(queues := s.queues[OnUser(nr) := []]), r, 0))
    case DoSleep(nr) => Some(Sleep(s, r, OnUser(nr), AfterSleep))
    case DoWakeup(nr, all) => Some(Wakeup(s, r, OnUser(nr), all))
    case NewLock(l, unset) => Some(Outcome(s.(queues := s.queues[OnLock(l) := []], locks := s.locks[l := Lock(false, unset)]), r, 0))
    case DoAcquire(l) => Acquire(s, r, l)
    case DoRelease(l) => Some(Outcome(Release(s, r, l), r, 0))
    case NewCv(c) => Some(Outcome(s.(queues := s.queues[OnCv(c) := []]), r, 0))
    case DoCvWait(c, l) => CvWait(s, r, c, l)
    case DoCvWake(c, l, all) => Some(Outcome(CvWake(s, r, c, l, all), r, 0))
    case Finish => Resume(s, r)
  }

  ghost predicate Step(s: State, r: nat, c: Call, s': State, r': nat) {
    && Allowed(s, r, c) && (RestOf(s, r).ToAcquire? ==> RestOf(s, r).lock in s.locks)
    && Effect(s, r, c).Some? && Effect(s, r, c).value.state == s' && Effect(s, r, c).value.running == r'
  }

  /** A new, empty queue. */
  lemma NewQueueKeeps(s: State, r: nat, p: Place)
    requires Inv(s, r) && p !in s.queues && (p.OnUser? || p.OnCv?)
    ensures Inv(s.(queues := s.queues[p := []]), r)
  {
    var s' := s.(queues := s.queues[p := []]);
    forall q ensures QueueAt(s', q) == QueueAt(s, q) {}
    forall t: nat ensures ThreadGood(s', r, t) {
      assert ThreadGood(s, r, t);
      assert Waits(s', t) <==> Waits(s, t) by {
        assert forall q :: t in QueueAt(s', q) <==> t in QueueAt(s, q);
      }
    }
    forall q ensures QueueGood(s', q) { assert QueueGood(s, q); }
    forall t: nat, q, q' ensures OnePlace(s', t, q, q') { assert OnePlace(s, t, q, q'); }
    forall l: nat ensures LockGood(s', l) { assert LockGood(s, l); }
    forall t: nat, u: nat ensures OneExited(s', t, u) { assert OneExited(s, t, u); }
  }

  lemma NewLockKeeps(s: State, r: nat, l: nat, unset: int)
    requires Inv(s, r) && l !in s.locks
    ensures Inv(s.(queues := s.queues[OnLock(l) := []], locks := s.locks[l := Lock(false, unset)]), r)
  {
    var s' := s.(queues := s.queues[OnLock(l) := []], locks := s.locks[l := Lock(false, unset)]);
    assert LockGood(s, l);
    forall q ensures QueueAt(s', q) == QueueAt(s, q) {}
    forall t: nat ensures ThreadGood(s', r, t) {
      assert ThreadGood(s, r, t);
      assert Waits(s', t) <==> Waits(s, t) by {
        assert forall q :: t in QueueAt(s', q) <==> t in QueueAt(s, q);
      }
    }
    forall q ensures QueueGood(s', q) { assert QueueGood(s, q); }
    forall t: nat, q, q' ensures OnePlace(s', t, q, q') { assert OnePlace(s, t, q, q'); }
    forall k: nat ensures LockGood(s', k) { assert LockGood(s, k); }
    forall t: nat, u: nat ensures OneExited(s', t, u) { assert OneExited(s, t, u); }
  }

  /** Every call keeps the invariant. */
  lemma StepKeepsInv(s: State, r: nat, c: Call, s': State, r': nat)
    requires Inv(s, r) && Step(s, r, c, s', r')
    ensures Inv(s', r')
  {
    hide Inv, Create, Yield, Exit, Kill, Wait, Sleep, Acquire, Release, CvWait, CvWake, Resume, Woken;
    match c
    case DoCreate => CreateKeeps(s, r);
    case DoYield(want) => YieldKeeps(s, r, want);
    case DoExit => ExitKeeps(s, r);
    case DoKill(tid) => KillKeeps(s, r, tid);
    case DoWait(tid) => WaitKeeps(s, r, tid);
    case NewQueue(nr) => NewQueueKeeps(s, r, OnUser(nr));
    case DoSleep(nr) => SleepKeeps(s, r, OnUser(nr), AfterSleep);
    case DoWakeup(nr, all) =>
      WokenKeeps(s, r, OnUser(nr), |QueueAt(s, OnUser(nr))|);
      WokenKeeps(s, r, OnUser(nr), if QueueAt(s, OnUser(nr)) == [] then 0 else 1);
    case NewLock(l, unset) => NewLockKeeps(s, r, l, unset);
    case DoAcquire(l) => AcquireKeeps(s, r, l);
    case DoRelease(l) => ReleaseKeeps(s, r, l);
    case NewCv(cv) => NewQueueKeeps(s, r, OnCv(cv));
    case DoCvWait(cv, l) => CvWaitKeeps(s, r, cv, l);
    case DoCvWake(cv, l, all) => CvWakeKeeps(s, r, cv, l, all);
    case Finish => ResumeKeeps(s, r);
  }

  // ---------------------------------------------------------------- whole runs

  datatype Config = Config(state: State, running: nat)

  /** The state after thread_init: the first thread runs. */
  ghost predicate Initial(c: Config) {
    && c.running == 0 && |c.state.threads| == MAX_THREADS
    && (forall t: nat | t < MAX_THREADS :: c.state.threads[t] == if t == 0 then Some(Thread(0, RUNNING, ToUser)) else None)
    && c.state.ready == [] && c.state.queues == map[OnThread(0) := []] && c.state.locks == map[] && c.state.log == []
  }

  ghost predicate Moves(a: Config, c: Call, b: Config) {
    Step(a.state, a.running, c, b.state, b.running)
  }

  ghost predicate Follows(run: seq<Config>, calls: seq<Call>, i: nat) {
    i < |calls| && i + 1 < |run| ==> Moves(run[i], calls[i], run[i + 1])
  }

  /** A run that makes the listed calls, one after the other, each by the thread that runs then. */
  ghost predicate Run(run: seq<Config>, calls: seq<Call>) {
    && |run| == |calls| + 1 && Initial(run[0])
    && forall i: nat :: Follows(run, calls, i)
  }

  lemma InitialInv(c: Config)
    requires Initial(c)
    ensures Inv(c.state, c.running)
  {
    var s := c.state;
    forall p ensures QueueAt(s, p) == [] && QueueGood(s, p) {}
    forall t: nat ensures ThreadGood(s, 0, t) {
      assert !Waits(s, t);
    }
    forall t: nat, p, q ensures OnePlace(s, t, p, q) {}
    forall l: nat ensures LockGood(s, l) {}
    forall t: nat, u: nat ensures OneExited(s, t, u) {}
  }

  lemma {:induction false} RunKeepsInv(run: seq<Config>, calls: seq<Call>, i: nat)
    requires Run(run, calls) && i < |run|
    ensures Inv(run[i].state, run[i].running)
  {
    if i == 0 {
      InitialInv(run[0]);
    } else {
      RunKeepsInv(run, calls, i - 1);
      assert Follows(run, calls, i - 1);
      StepKeepsInv(run[i - 1].state, run[i - 1].running, calls[i - 1], run[i].state, run[i].running);
    }
  }

  /** The scheduler invariant, in every state of every run. */
  lemma SchedulerInvariant(run: seq<Config>, calls: seq<Call>, i: nat)
    requires Run(run, calls) && i < |run|
    ensures var s := run[i].state;
            && (forall t: nat :: StatusOf(s, t) == Some(RUNNING) <==> t == run[i].running)
            && (forall t: nat :: StatusOf(s, t) == Some(READY) <==> t in s.ready) && Distinct(s.ready)
            && (forall t: nat :: StatusOf(s, t) == Some(BLOCKED) <==> Waits(s, t))
            && (forall p :: Distinct(QueueAt(s, p)))
            && (forall t: nat, p, q | t in QueueAt(s, p) && t in QueueAt(s, q) :: p == q)
            && (forall t: nat | t < |s.threads| && s.threads[t].Some? :: s.threads[t].value.id == t)
            && (forall t: nat, u: nat | StatusOf(s, t) == StatusOf(s, u) == Some(EXITED) :: t == u)
  {
    RunKeepsInv(run, calls, i);
    var s, r := run[i].state, run[i].running;
    forall t: nat
      ensures StatusOf(s, t) == Some(RUNNING) <==> t == r
      ensures StatusOf(s, t) == Some(READY) <==> t in s.ready
      ensures StatusOf(s, t) == Some(BLOCKED) <==> Waits(s, t)
      ensures t < |s.threads| && s.threads[t].Some? ==> s.threads[t].value.id == t
    {
      assert ThreadGood(s, r, t);
    }
    forall p ensures Distinct(QueueAt(s, p)) { assert QueueGood(s, p); }
    forall t: nat, p, q | t in QueueAt(s, p) && t in QueueAt(s, q) ensures p == q { assert OnePlace(s, t, p, q); }
    forall t: nat, u: nat | StatusOf(s, t) == StatusOf(s, u) == Some(EXITED) ensures t == u { assert OneExited(s, t, u); }
  }

  /**
   * Mutual exclusion, in every state of every run: a lock was only ever taken while nobody held it and only ever given
   * back by its holder; the library knows the holder; and somebody holds a lock that threads wait for.
   */
  lemma MutualExclusion(run: seq<Config>, calls: seq<Call>, i: nat, l: nat)
    requires Run(run, calls) && i < |run| && l in run[i].state.locks
    ensures var s := run[i].state;
            && Alternates(s.log, l)
            && (s.locks[l].acquired <==> Holder(s.log, l).Some?)
            && (s.locks[l].acquired ==> Holder(s.log, l) == Some(s.locks[l].owner))
            && (QueueAt(s, OnLock(l)) != [] ==> s.locks[l].acquired)
  {
    RunKeepsInv(run, calls, i);
    assert LockGood(run[i].state, l);
  }

  // ---------------------------------------------------------------- numbers and threads

  /** Thread t exists and has not exited, so its number is not given to a new thread. */
  predicate Alive(s: State, t: nat) {
    StatusOf(s, t).Some? && StatusOf(s, t) != Some(EXITED)
  }

  /** A thread stays alive until it exits or is killed, and only a call of its own changes what it has left to do. */
  lemma StaysAlive(s: State, r: nat, c: Call, s': State, r': nat, t: nat)
    requires Inv(s, r) && Step(s, r, c, s', r') && Alive(s, t) && c != DoKill(t) && !(c == DoExit && r == t)
    ensures Alive(s', t) && (t != r ==> RestOf(s', t) == RestOf(s, t))
  {
    hide Inv, Create, Yield, Exit, Kill, Wait, Sleep, Wakeup, Acquire, Release, CvWait, CvWake, Resume, FreeExited, RestOf, StatusOf;
    ghost var kept := RestKept(s, s', t);
    match c
    case DoCreate => CreateDoes(s, r);
    case DoYield(want) => YieldDoes(s, r, want);
    case DoExit => ExitDoes(s, r);
    case DoKill(tid) => KillDoes(s, r, tid);
    case DoWait(tid) => WaitDoes(s, r, tid);
    case DoSleep(nr) => SleepDoes(s, r, OnUser(nr), AfterSleep);
    case DoWakeup(nr, all) => WakeupDoes(s, r, OnUser(nr), all);
    case NewQueue(_) => SameThreads(s, s', t);
    case NewLock(_, _) => SameThreads(s, s', t);
    case NewCv(_) => SameThreads(s, s', t);
    case _ => LockCallKeeps(s, r, c, s', r', t);
  }

  lemma LockCallKeeps(s: State, r: nat, c: Call, s': State, r': nat, t: nat)
    requires Inv(s, r) && Step(s, r, c, s', r') && Alive(s, t)
    requires c.DoAcquire? || c.DoRelease? || c.DoCvWait? || c.DoCvWake? || c.Finish?
    ensures Alive(s', t) && (t != r ==> RestOf(s', t) == RestOf(s, t))
  {
    hide Inv, Acquire, Release, CvWait, CvWake, Resume, FreeExited, RestOf, StatusOf;
    ghost var kept := RestKept(s, s', t);
    match c
    case DoAcquire(l) => AcquireDoes(s, r, l);
    case DoRelease(l) => ReleaseDoes(s, r, l);
    case DoCvWait(cv, l) =>
      ReleaseDoes(s, r, l);
      AcquireDoes(s, r, l);
      CvWaitIsAtomic(s, r, cv, l);
      kept := RestKept(Release(s, r, l), s', t);
    case DoCvWake(cv, l, all) => CvWakeDoes(s, r, cv, l, all);
    case Finish =>
      ResumeDoes(s, r);
      kept := RestKept(s, FreeExited(s), t) && RestKept(FreeExited(s), s', t);
  }

  lemma SameThreads(s: State, s': State, t: nat)
    requires s'.threads == s.threads
    ensures StatusOf(s', t) == StatusOf(s, t) && RestOf(s', t) == RestOf(s, t)
  {}

  /**
   * Holders are thread numbers. Between i and j the number t stands for one and the same thread, if that thread neither
   * exits nor is killed: so the lock it took is given back by the thread that took it.
   */
  lemma {:induction false} SameThread(run: seq<Config>, calls: seq<Call>, i: nat, j: nat, t: nat)
    requires Run(run, calls) && i <= j < |run| && Alive(run[i].state, t)
    requires forall k | i <= k < j :: calls[k] != DoKill(t) && !(calls[k] == DoExit && run[k].running == t)
    ensures forall k | i <= k <= j :: Alive(run[k].state, t)
    decreases j - i
  {
    hide Inv, Step, Initial;
    if i < j {
      SameThread(run, calls, i, j - 1, t);
      RunKeepsInv(run, calls, j - 1);
      assert Follows(run, calls, j - 1);
      StaysAlive(run[j - 1].state, run[j - 1].running, calls[j - 1], run[j].state, run[j].running, t);
    }
  }

  // ---------------------------------------------------------------- coming back from a call

  /** A thread that sleeps in lock_acquire or cv_wait gets back to user code only by taking the lock. */
  lemma HoldsLockOnReturn(s: State, r: nat, c: Call, s': State, r': nat, t: nat)
    requires Inv(s, r) && Step(s, r, c, s', r') && RestOf(s, t).ToAcquire? && Alive(s, t) && c != DoKill(t)
    ensures var l := RestOf(s, t).lock;
            || RestOf(s', t) == ToAcquire(l)
            || (RestOf(s', t) == ToUser && r == t == r' && Holder(s'.log, l) == Some(t) && s'.log == s.log + [Acquired(t, l)])
  {
    if t != r {
      StaysAlive(s, r, c, s', r', t);
    } else {
      ResumeDoes(s, r);
    }
  }

  /** Thread t runs user code: it has come back from the call it made last. */
  predicate InUser(c: Config, t: nat) {
    c.running == t && RestOf(c.state, t) == ToUser
  }

  /** Thread t is in a call that ends with it taking the lock, or has just come back with the lock. */
  predicate TryingFor(c: Config, t: nat, l: nat) {
    Alive(c.state, t) && (RestOf(c.state, t) == ToAcquire(l) || (InUser(c, t) && Holder(c.state.log, l) == Some(t)))
  }

  /** Thread t calls lock_acquire, or cv_wait with the lock. */
  predicate CallsFor(c: Call, l: nat) {
    c == DoAcquire(l) || (c.DoCvWait? && c.lock == l)
  }

  lemma StartsTrying(s: State, c: Call, b: Config, t: nat, l: nat)
    requires Inv(s, t) && Step(s, t, c, b.state, b.running) && CallsFor(c, l)
    ensures TryingFor(b, t, l)
  {
    hide Inv, Acquire, Release, CvWait;
    AcquireDoes(s, t, l);
    if c.DoCvWait? {
      ReleaseDoes(s, t, l);
      CvWaitIsAtomic(s, t, c.cv, l);
    }
    Running(s, t);
  }

  lemma Running(s: State, r: nat)
    requires Inv(s, r)
    ensures StatusOf(s, r) == Some(RUNNING)
  {
    assert ThreadGood(s, r, r);
  }

  /**
   * In every run, a thread that calls lock_acquire or cv_wait and is not killed holds the lock when it is first back in
   * user code, however often it has to sleep before.
   */
  lemma {:induction false} ReturnsWithLock(run: seq<Config>, calls: seq<Call>, i: nat, j: nat, t: nat, l: nat)
    requires Run(run, calls) && i < j < |run| && run[i].running == t && CallsFor(calls[i], l)
    requires forall k | i <= k < j :: calls[k] != DoKill(t)
    requires forall k | i < k < j :: !InUser(run[k], t)
    ensures TryingFor(run[j], t, l)
    ensures InUser(run[j], t) ==> Holder(run[j].state.log, l) == Some(t)
  {
    hide Inv, Step;
    RunKeepsInv(run, calls, j - 1);
    assert Follows(run, calls, j - 1);
    var a, b := run[j - 1], run[j];
    if j == i + 1 {
      StartsTrying(a.state, calls[i], b, t, l);
    } else {
      ReturnsWithLock(run, calls, i, j - 1, t, l);
      KeepsTrying(a, calls[j - 1], b, t, l);
    }
  }

  lemma KeepsTrying(a: Config, c: Call, b: Config, t: nat, l: nat)
    requires Inv(a.state, a.running) && Moves(a, c, b) && TryingFor(a, t, l) && !InUser(a, t) && c != DoKill(t)
    ensures TryingFor(b, t, l)
  {
    hide Inv, Effect;
    StaysAlive(a.state, a.running, c, b.state, b.running, t);
    HoldsLockOnReturn(a.state, a.running, c, b.state, b.running, t);
  }

  // ---------------------------------------------------------------- waking up

  /** The call wakes thread t, which waits in queue p. */
  predicate Wakes(s: State, r: nat, c: Call, t: nat, p: Place)
    requires t in QueueAt(s, p)
  {
    match c
    case DoExit => p == OnThread(r)
    case DoKill(tid) => tid >= 0 && p == OnThread(tid) && CanTarget(s, r, tid)
    case DoWakeup(nr, all) => p == OnUser(nr) && (all || t == QueueAt(s, p)[0])
    case DoRelease(l) => p == OnLock(l) && Holder(s.log, l) == Some(r)
    case DoCvWait(_, l) => p == OnLock(l) && Holder(s.log, l) == Some(r)
    case DoCvWake(cv, l, all) => p == OnCv(cv) && l in s.locks && s.locks[l].owner == r && (all || t == QueueAt(s, p)[0])
    case _ => false
  }

  /** What the step does with thread t, which waits in queue p. */
  ghost predicate WaitsOrWoken(s: State, r: nat, c: Call, s': State, t: nat, p: Place)
    requires t in QueueAt(s, p)
  {
    && (t in QueueAt(s', p) <==> !Wakes(s, r, c, t, p))
    && (Wakes(s, r, c, t, p) ==> StatusOf(s', t) == Some(READY) || StatusOf(s', t) == Some(RUNNING))
  }

  /**
   * A thread waits until it is woken, and no longer: it leaves its queue exactly by a call that is to wake it, and then it
   * is ready or runs.
   */
  lemma WaitsUntilWoken(s: State, r: nat, c: Call, s': State, r': nat, t: nat, p: Place)
    requires Inv(s, r) && Step(s, r, c, s', r') && t in QueueAt(s, p) && c != DoKill(t)
    ensures t in QueueAt(s', p) <==> !Wakes(s, r, c, t, p)
    ensures Wakes(s, r, c, t, p) ==> t in s'.ready || r' == t
  {
    hide Inv, Step, Wakes;
    StepKeepsInv(s, r, c, s', r');
    ReadyOrRuns(s', r', t);
    match c
    case DoCreate => ThreadCallWakes(s, r, c, s', r', t, p);
    case DoYield(_) => ThreadCallWakes(s, r, c, s', r', t, p);
    case DoExit => ThreadCallWakes(s, r, c, s', r', t, p);
    case DoKill(_) => ThreadCallWakes(s, r, c, s', r', t, p);
    case DoWait(_) => ThreadCallWakes(s, r, c, s', r', t, p);
    case DoSleep(_) => ThreadCallWakes(s, r, c, s', r', t, p);
    case DoWakeup(_, _) => ThreadCallWakes(s, r, c, s', r', t, p);
    case NewQueue(_) => NewWakes(s, r, c, s', r', t, p);
    case NewLock(_, _) => NewWakes(s, r, c, s', r', t, p);
    case NewCv(_) => NewWakes(s, r, c, s', r', t, p);
    case _ => LockCallWakes(s, r, c, s', r', t, p);
  }

  lemma ThreadCallWakes(s: State, r: nat, c: Call, s': State, r': nat, t: nat, p: Place)
    requires Inv(s, r) && Step(s, r, c, s', r') && t in QueueAt(s, p) && c != DoKill(t)
    requires c.DoCreate? || c.DoYield? || c.DoExit? || c.DoKill? || c.DoWait? || c.DoSleep? || c.DoWakeup?
    ensures WaitsOrWoken(s, r, c, s', t, p)
  {
    hide Inv, Create, Yield, Exit, Kill, Wait, Sleep, Wakeup, StatusOf;
    Waiting(s, r, t, p);
    match c
    case DoCreate => CreateDoes(s, r);
    case DoYield(want) => YieldDoes(s, r, want);
    case DoExit => ExitDoes(s, r);
    case DoKill(tid) =>
      KillDoes(s, r, tid);
      if tid >= 0 {
        WithoutMembers(QueueAt(s, p), tid);
      }
    case DoWait(tid) => WaitDoes(s, r, tid);
    case DoSleep(nr) => SleepDoes(s, r, OnUser(nr), AfterSleep);
    case DoWakeup(nr, all) => WakeupDoes(s, r, OnUser(nr), all);
  }

  lemma LockCallWakes(s: State, r: nat, c: Call, s': State, r': nat, t: nat, p: Place)
    requires Inv(s, r) && Step(s, r, c, s', r') && t in QueueAt(s, p)
    requires c.DoAcquire? || c.DoRelease? || c.DoCvWait? || c.DoCvWake? || c.Finish?
    ensures WaitsOrWoken(s, r, c, s', t, p)
  {
    hide Inv, Acquire, Release, CvWait, CvWake, Resume, FreeExited, StatusOf;
    Waiting(s, r, t, p);
    match c
    case DoAcquire(l) => AcquireDoes(s, r, l);
    case DoRelease(l) => ReleaseDoes(s, r, l);
    case DoCvWait(cv, l) =>
      HolderOwns(s, r, l);
      ReleaseDoes(s, r, l);
      AcquireDoes(s, r, l);
      CvWaitIsAtomic(s, r, cv, l);
    case DoCvWake(cv, l, all) => CvWakeDoes(s, r, cv, l, all);
    case Finish => ResumeDoes(s, r);
  }

  lemma NewWakes(s: State, r: nat, c: Call, s': State, r': nat, t: nat, p: Place)
    requires Inv(s, r) && Step(s, r, c, s', r') && t in QueueAt(s, p) && (c.NewQueue? || c.NewLock? || c.NewCv?)
    ensures WaitsOrWoken(s, r, c, s', t, p)
  {
    if c.NewLock? {
      HolderOwns(s, r, c.lock);
    }
  }

  /** In every run, a thread that waits in a queue and is not killed runs again only after a call that is to wake it. */
  lemma {:induction false} RunsOnlyIfWoken(run: seq<Config>, calls: seq<Call>, i: nat, j: nat, t: nat, p: Place) returns (k: nat)
    requires Run(run, calls) && i <= j < |run| && t in QueueAt(run[i].state, p) && run[j].running == t
    requires forall k | i <= k < j :: calls[k] != DoKill(t)
    ensures i <= k < j && t in QueueAt(run[k].state, p) && Wakes(run[k].state, run[k].running, calls[k], t, p)
    decreases j - i
  {
    hide Inv, Step, Initial, Wakes;
    RunKeepsInv(run, calls, i);
    var s, r := run[i].state, run[i].running;
    Waiting(s, r, t, p);
    if Wakes(s, r, calls[i], t, p) {
      k := i;
    } else {
      assert Follows(run, calls, i);
      WaitsUntilWoken(s, r, calls[i], run[i + 1].state, run[i + 1].running, t, p);
      k := RunsOnlyIfWoken(run, calls, i + 1, j, t, p);
    }
  }

  lemma Waiting(s: State, r: nat, t: nat, p: Place)
    requires Inv(s, r) && t in QueueAt(s, p)
    ensures StatusOf(s, t) == Some(BLOCKED) && t != r && Distinct(QueueAt(s, p))
  {
    assert ThreadGood(s, r, t) && ThreadGood(s, r, r) && QueueGood(s, p);
  }

  lemma ReadyOrRuns(s: State, r: nat, t: nat)
    requires Inv(s, r)
    ensures StatusOf(s, t) == Some(READY) <==> t in s.ready
    ensures StatusOf(s, t) == Some(RUNNING) ==> t == r
  {
    assert ThreadGood(s, r, t);
  }

  lemma HolderOwns(s: State, r: nat, l: nat)
    requires Inv(s, r)
    ensures Holder(s.log, l) == Some(r) ==> l in s.locks && s.locks[l].owner == r
    ensures l !in s.locks || Holder(s.log, l) == None ==> QueueAt(s, OnLock(l)) == []
  {
    assert LockGood(s, l);
  }

  // ---------------------------------------------------------------- what goes wrong, and exactly when

  /**
   * Signalling has an effect exactly if the lock names the caller as its owner, whether or not the caller still holds it,
   * or ever did: the owner of a new lock is not set.
   */
  lemma SignalChecksLastOwner(s: State, r: nat, c: nat, l: nat)
    requires Inv(s, r) && l in s.locks && QueueAt(s, OnCv(c)) != []
    ensures StatusOf(CvWake(s, r, c, l, false), QueueAt(s, OnCv(c))[0]) == Some(READY) <==> s.locks[l].owner == r
    ensures s.locks[l].owner == r ==> (Holder(s.log, l) == Some(r) <==> s.locks[l].acquired)
  {
    var t, p := QueueAt(s, OnCv(c))[0], OnCv(c);
    assert t in QueueAt(s, p);
    assert ThreadGood(s, r, t) && LockGood(s, l);
    WokenCore(s, r, p, 1);
    assert QueueAt(s, p)[..1] == [t];
  }

  /** A thread that waits for one that has exited is lost: once that one is reclaimed it is blocked but in no queue. */
  lemma WaitForExitedIsLost(s: State, r: nat, tid: nat)
    requires Inv(s, r) && StatusOf(s, tid) == Some(EXITED) && s.ready != []
    ensures var s' := FreeExited(Wait(s, r, tid).state); StatusOf(s', r) == Some(BLOCKED) && !Waits(s', r)
  {
    assert ThreadGood(s, r, tid) && ThreadGood(s, r, r) && ThreadGood(s, r, s.ready[0]);
    var w := Wait(s, r, tid).state;
    var i := FirstExited(w.threads, 0);
    assert StatusOf(w, tid) == Some(EXITED) && StatusOf(w, i) == Some(EXITED);
    assert OneExited(s, i, tid);
    forall p ensures r !in QueueAt(FreeExited(w), p) {
      assert r in QueueAt(s, p) ==> Waits(s, r);
    }
  }

  // ---------------------------------------------------------------- bounded waiting

  /** How a call changes a ready queue that is not empty: one thread n leaves it, if it was there, and others join at the end. */
  lemma ReadyAfter(s: State, r: nat, c: Call, s': State, r': nat) returns (n: nat, tail: seq<nat>)
    requires Inv(s, r) && Step(s, r, c, s', r') && s.ready != []
    ensures s'.ready == Without(s.ready, n) + tail && n !in s'.ready
    ensures n in s.ready ==> n == r' || c == DoKill(n)
    ensures r' != r ==> n == r' && (r' == s.ready[0] || (c.DoYield? && c.want == r'))
  {
    hide Inv, Create, Yield, Exit, Kill, Wait, Sleep, Wakeup, FreeExited, StatusOf, Without;
    StepKeepsInv(s, r, c, s', r');
    NotReady(s, r);
    NotReady(s', r');
    WithoutAbsent(s.ready, r);
    WithoutFirst(s.ready);
    n, tail := r', if |s'.ready| > |s.ready| then s'.ready[|s.ready|..] else [];
    match c
    case DoCreate => CreateDoes(s, r);
    case DoYield(want) =>
      YieldDoes(s, r, want);
      tail := if r' == r then [] else [r];
    case DoExit =>
      ExitDoes(s, r);
      tail := QueueAt(s, OnThread(r));
      assert ([r'] + s'.ready)[0] == r' && s'.ready == ([r'] + s'.ready)[1..] == s.ready[1..] + tail;
    case DoKill(tid) =>
      KillDoes(s, r, tid);
      if CanTarget(s, r, tid) {
        n, tail := tid, QueueAt(s, OnThread(tid));
        ReadyOrRuns(s', r', tid);
      }
    case DoWait(tid) => WaitDoes(s, r, tid);
    case DoSleep(nr) => SleepDoes(s, r, OnUser(nr), AfterSleep);
    case DoWakeup(nr, all) => WakeupDoes(s, r, OnUser(nr), all);
    case NewQueue(_) =>
    case NewLock(_, _) =>
    case NewCv(_) =>
    case _ => tail := LockCallReady(s, r, c, s', r');
  }

  lemma LockCallReady(s: State, r: nat, c: Call, s': State, r': nat) returns (tail: seq<nat>)
    requires Inv(s, r) && Step(s, r, c, s', r') && s.ready != []
    requires c.DoAcquire? || c.DoRelease? || c.DoCvWait? || c.DoCvWake? || c.Finish?
    ensures if r' == r then s'.ready == s.ready + tail else r' == s.ready[0] && s'.ready == s.ready[1..] + tail
  {
    hide Inv, Acquire, Release, CvWait, CvWake, Resume, FreeExited, StatusOf, RestOf, RestKept, Holder, QueueAt, LocksKept;
    match c {
      case DoAcquire(l) => AcquireDoes(s, r, l);
      case DoRelease(l) => ReleaseDoes(s, r, l);
      case DoCvWait(cv, l) =>
        ReleaseDoes(s, r, l);
        AcquireDoes(s, r, l);
        CvWaitIsAtomic(s, r, cv, l);
      case DoCvWake(cv, l, all) => CvWakeDoes(s, r, cv, l, all);
      case Finish => ResumeDoes(s, r);
    }
    tail := s'.ready[if r' == r then |s.ready| else |s.ready| - 1..];
  }

  lemma NotReady(s: State, r: nat)
    requires Inv(s, r)
    ensures r !in s.ready && |s.threads| == MAX_THREADS
  {
    assert ThreadGood(s, r, r);
  }

  /**
   * A ready thread never falls back in the ready queue, and gets one place further whenever another is dispatched from
   * the head of the queue: by a yield to any thread, a sleep or an exit.
   */
  lemma PositionNeverGrows(s: State, r: nat, c: Call, s': State, r': nat, t: nat)
    requires Inv(s, r) && Step(s, r, c, s', r') && t in s.ready && t in s'.ready
    ensures Pos(s'.ready, t) <= Pos(s.ready, t)
    ensures r' != r && (r' == s.ready[0] || !(c.DoYield? && c.want >= 0)) ==> Pos(s'.ready, t) == Pos(s.ready, t) - 1
  {
    var n, tail := ReadyAfter(s, r, c, s', r');
    PosWithout(s.ready, n, t);
    PosAppend(Without(s.ready, n), tail, t);
  }

  /** The steps between i and j at which the first of the ready threads was dispatched. */
  function HeadDispatches(run: seq<Config>, i: nat, j: nat): nat
    requires j < |run|
  {
    if j <= i then 0
    else HeadDispatches(run, i, j - 1) +
         (if run[j].running != run[j - 1].running && run[j - 1].state.ready != []
             && run[j].running == run[j - 1].state.ready[0] then 1 else 0)
  }

  /** While a thread stays ready, the dispatches from the head of the queue are at most as many as threads were before it. */
  lemma {:induction false} DispatchesAhead(run: seq<Config>, calls: seq<Call>, i: nat, j: nat, t: nat)
    requires Run(run, calls) && i <= j < |run|
    requires forall k | i <= k <= j :: t in run[k].state.ready
    ensures HeadDispatches(run, i, j) + Pos(run[j].state.ready, t) <= Pos(run[i].state.ready, t)
    decreases j - i
  {
    hide Inv, Step, Initial;
    if i < j {
      DispatchesAhead(run, calls, i, j - 1, t);
      RunKeepsInv(run, calls, j - 1);
      assert Follows(run, calls, j - 1);
      PositionNeverGrows(run[j - 1].state, run[j - 1].running, calls[j - 1], run[j].state, run[j].running, t);
    }
  }

  /** A thread leaves the ready queue only by running or by being killed. */
  lemma ReadyUntilRun(s: State, r: nat, c: Call, s': State, r': nat, t: nat)
    requires Inv(s, r) && Step(s, r, c, s', r') && t in s.ready && c != DoKill(t) && r' != t
    ensures t in s'.ready
  {
    var n, tail := ReadyAfter(s, r, c, s', r');
    WithoutMembers(s.ready, n);
  }

  /** From i to j thread t neither runs nor is killed. */
  ghost predicate KeptWaiting(run: seq<Config>, calls: seq<Call>, i: nat, j: nat, t: nat)
    requires |run| == |calls| + 1 && j < |run|
  {
    && (forall k | i <= k < j :: calls[k] != DoKill(t))
    && (forall k | i < k <= j :: run[k].running != t)
  }

  lemma {:induction false} StaysReady(run: seq<Config>, calls: seq<Call>, i: nat, j: nat, t: nat)
    requires Run(run, calls) && i <= j < |run| && t in run[i].state.ready && KeptWaiting(run, calls, i, j, t)
    ensures forall k | i <= k <= j :: t in run[k].state.ready
    decreases j - i
  {
    if i < j {
      StaysReady(run, calls, i, j - 1, t);
      RunKeepsInv(run, calls, j - 1);
      assert Follows(run, calls, j - 1);
      ReadyUntilRun(run[j - 1].state, run[j - 1].running, calls[j - 1], run[j].state, run[j].running, t);
    }
  }

  /**
   * Bounded waiting: a thread in position k of the ready queue that is not killed runs before the queue's head has been
   * dispatched more than k times.
   */
  lemma BoundedWaiting(run: seq<Config>, calls: seq<Call>, i: nat, j: nat, t: nat)
    requires Run(run, calls) && i <= j < |run| && t in run[i].state.ready
    requires forall k | i <= k < j :: calls[k] != DoKill(t)
    requires HeadDispatches(run, i, j) > Pos(run[i].state.ready, t)
    ensures exists k | i < k <= j :: run[k].running == t
  {
    if KeptWaiting(run, calls, i, j, t) {
      StaysReady(run, calls, i, j, t);
      DispatchesAhead(run, calls, i, j, t);
    }
  }
}
