/**
 * What each call of the thread library does, as its callers see it: who runs afterwards, who is ready or waits, in which
 * order, who holds which lock, what every thread has left to do, and what is returned.
 */
module SchedulerCalls {
  import opened Options
  import opened Queues
  import opened Schedulers
  import opened SchedulerInvariants

  /** Threads other than those named keep their status, except that an exited one may have been reclaimed. */
  ghost predicate OthersKeep(s: State, s': State, t: nat) {
    StatusOf(s', t) == StatusOf(s, t) || (StatusOf(s, t) == Some(EXITED) && StatusOf(s', t) == None)
  }

  /** What thread t has left to do is the same, if it still exists. */
  ghost predicate RestKept(s: State, s': State, t: nat) {
    StatusOf(s', t).Some? ==> RestOf(s', t) == RestOf(s, t)
  }

  ghost predicate LocksKept(s: State, s': State) {
    s'.locks == s.locks && s'.log == s.log
  }

  /** The first ready thread runs; r is last in queue p, with `rest` to do when it wakes; nothing else has changed. */
  ghost predicate Asleep(s: State, o: Outcome, r: nat, p: Place, rest: Rest)
    requires s.ready != []
  {
    && o.running == s.ready[0] && o.state.ready == s.ready[1..] && LocksKept(s, o.state)
    && QueueAt(o.state, p) == QueueAt(s, p) + [r] && (forall q | q != p :: QueueAt(o.state, q) == QueueAt(s, q))
    && StatusOf(o.state, r) == Some(BLOCKED) && RestOf(o.state, r) == rest && StatusOf(o.state, o.running) == Some(RUNNING)
    && (forall t: nat | t != r && t != o.running :: StatusOf(o.state, t) == StatusOf(s, t))
    && (forall t: nat | t != r :: RestKept(s, o.state, t))
  }

  /** Thread r runs on, holding lock l, with nothing left to do; nothing else has changed. */
  ghost predicate Took(s: State, o: Outcome, r: nat, l: nat) {
    && o.running == r && Holder(o.state.log, l) == Some(r)
    && o.state.locks == s.locks[l := Lock(true, r)] && o.state.log == s.log + [Acquired(r, l)]
    && o.state.ready == s.ready && o.state.queues == s.queues
    && (forall t: nat :: StatusOf(o.state, t) == StatusOf(s, t))
    && RestOf(o.state, r) == ToUser && (forall t: nat | t != r :: RestKept(s, o.state, t))
  }

  // ---------------------------------------------------------------- what the parts of a call leave alone

  lemma SwitchedFrame(s: State, r: nat, n: nat, status: Status, rest: Rest, place: Option<Place>)
    ensures var s' := Switched(s, r, n, status, rest, place);
            && LocksKept(s, s') && (forall t: nat | t != r :: RestKept(s, s', t)) && (StatusOf(s, r).Some? ==> RestOf(s', r) == rest)
            && (forall p :: QueueAt(s', p) == if p in s.queues && place == Some(p) then QueueAt(s, p) + [r] else QueueAt(s, p))
            && s'.ready == Without(s.ready, n) + (if status == READY then [r] else [])
  {}

  lemma WokenFrame(s: State, p: Place, n: nat)
    requires n <= |QueueAt(s, p)|
    ensures var s' := Woken(s, p, n);
            && LocksKept(s, s') && (forall t: nat :: RestOf(s', t) == RestOf(s, t))
            && (forall q :: QueueAt(s', q) == if q == p then QueueAt(s, p)[n..] else QueueAt(s, q))
            && s'.ready == s.ready + QueueAt(s, p)[..n]
  {}

  lemma FreedFrame(s: State)
    ensures LocksKept(s, FreeExited(s)) && forall t: nat :: RestKept(s, FreeExited(s), t)
  {}

  // ---------------------------------------------------------------- threads

  /** A new thread has the lowest number that is not in use, is last in the ready queue, and has an empty wait queue. */
  lemma CreateDoes(s: State, r: nat)
    requires Inv(s, r)
    ensures var o := Create(s, r);
            if o.ret == THREAD_NOMORE then o.state == s && o.running == r
            else
              && 0 <= o.ret < MAX_THREADS && o.running == r && LocksKept(s, o.state)
              && (StatusOf(s, o.ret) == None || StatusOf(s, o.ret) == Some(EXITED))
              && (forall t: nat | t < o.ret :: StatusOf(s, t).Some? && StatusOf(s, t) != Some(EXITED))
              && StatusOf(o.state, o.ret) == Some(READY) && RestOf(o.state, o.ret) == ToUser && o.state.ready == s.ready + [o.ret]
              && (forall p :: QueueAt(o.state, p) == QueueAt(s, p))
              && (forall t: nat | t != o.ret :: StatusOf(o.state, t) == StatusOf(s, t) && RestKept(s, o.state, t))
  {
    CreateKeeps(s, r);
    var id := FirstFree(s.threads, 0);
    if id < |s.threads| {
      assert ThreadGood(s, r, id);
    }
  }

  /** Yielding runs the thread asked for if it is ready, or the first ready one, and leaves the caller last in the ready queue. */
  lemma YieldDoes(s: State, r: nat, want: int)
    requires Inv(s, r)
    ensures var o := Yield(s, r, want);
            && (if want == THREAD_SELF || want == r then o.running == r && o.ret == r
                else if want == THREAD_ANY then
                  if s.ready == [] then o.running == r && o.ret == THREAD_NONE else o.running == o.ret == s.ready[0]
                else if 0 <= want < MAX_THREADS && StatusOf(s, want) == Some(READY) then o.running == o.ret == want
                else o.running == r && o.ret == THREAD_INVALID)
            && o.state.ready == (if o.running == r then s.ready else Without(s.ready, o.running) + [r])
            && LocksKept(s, o.state) && (forall p :: QueueAt(o.state, p) == QueueAt(s, p))
            && (forall t: nat | t != r && t != o.running :: OthersKeep(s, o.state, t) && StatusOf(o.state, t) != Some(EXITED))
            && StatusOf(o.state, o.running) == Some(RUNNING) && (o.running != r ==> StatusOf(o.state, r) == Some(READY))
            && (forall t: nat | t != r :: RestKept(s, o.state, t))
            && RestOf(o.state, r) == if o.running == r then RestOf(s, r) else ToUser
  {
    hide Core, Switched, FreeExited;
    var s1, o := FreeExited(s), Yield(s, r, want);
    FreeExitedKeeps(s, r);
    FreedFrame(s);
    NoneExited(s1, r);
    CoreThread(s, r, r);
    CoreThread(s1, r, r);
    if want >= 0 {
      CoreThread(s, r, want);
      CoreThread(s1, r, want);
    }
    if want == THREAD_SELF || want == r {
    } else if want == THREAD_ANY {
      if s1.ready != [] {
        CoreThread(s, r, s.ready[0]);
        YieldToDoes(s1, r, s1.ready[0]);
      }
    } else if 0 <= want < MAX_THREADS && StatusOf(s, want) == Some(READY) {
      YieldToDoes(s1, r, want);
    }
    RestsKept(s, s1, o.state, r);
  }

  lemma RestsKept(s: State, s1: State, s2: State, r: nat)
    requires forall t: nat | t != r :: RestKept(s, s1, t) && RestKept(s1, s2, t)
    requires forall t: nat | StatusOf(s2, t).Some? :: StatusOf(s1, t).Some?
    ensures forall t: nat | t != r :: RestKept(s, s2, t)
  {
    forall t: nat | t != r ensures RestKept(s, s2, t) {
      assert RestKept(s, s1, t) && RestKept(s1, s2, t);
    }
  }

  lemma CoreThread(s: State, r: nat, t: nat)
    requires Core(s, r)
    ensures ThreadGood(s, r, t) && |s.threads| == MAX_THREADS
  {}

  lemma YieldToDoes(s: State, r: nat, n: nat)
    requires Core(s, r) && n in s.ready && forall t: nat :: StatusOf(s, t) != Some(EXITED)
    ensures var o := YieldTo(s, r, n);
            && o.running == o.ret == n && o.state.ready == Without(s.ready, n) + [r]
            && LocksKept(s, o.state) && (forall p :: QueueAt(o.state, p) == QueueAt(s, p))
            && (forall t: nat :: StatusOf(o.state, t) == if t == r then Some(READY) else if t == n then Some(RUNNING) else StatusOf(s, t))
            && RestOf(o.state, r) == ToUser && (forall t: nat | t != r :: RestKept(s, o.state, t))
  {
    hide Core, Switched;
    CoreThread(s, r, r);
    YieldToIs(s, r, n);
    SwitchedCore(s, r, n, READY, ToUser, None);
    SwitchedFrame(s, r, n, READY, ToUser, None);
  }

  /** Sleeping puts the caller last in the queue and runs the first ready thread; it fails exactly if there is none. */
  lemma SleepDoes(s: State, r: nat, p: Place, rest: Rest)
    requires Inv(s, r) && CanBecome(s, r, BLOCKED, rest, Some(p))
    ensures var o := Sleep(s, r, p, rest);
            if s.ready == [] then o == Outcome(s, r, THREAD_NONE) else o.ret == o.running && Asleep(s, o, r, p, rest)
  {
    hide Core, Switched;
    if s.ready != [] {
      CoreThread(s, r, r);
      CoreThread(s, r, s.ready[0]);
      WithoutFirst(s.ready);
      SwitchedCore(s, r, s.ready[0], BLOCKED, rest, Some(p));
      SwitchedFrame(s, r, s.ready[0], BLOCKED, rest, Some(p));
      assert s.ready[1..] + [] == s.ready[1..];
    }
  }

  /** Waking returns how many threads it woke, and they join the ready queue in the order in which they went to sleep. */
  lemma WakeupDoes(s: State, r: nat, p: Place, all: bool)
    requires Inv(s, r)
    ensures var o := Wakeup(s, r, p, all); var q := QueueAt(s, p);
            && o.running == r && o.ret == (if all then |q| else if q == [] then 0 else 1) && Roused(s, o.state, p, o.ret)
  {
    hide Core, Woken;
    var q := QueueAt(s, p);
    WokenCore(s, r, p, |q|);
    WokenFrame(s, p, |q|);
    WokenCore(s, r, p, if q == [] then 0 else 1);
    WokenFrame(s, p, if q == [] then 0 else 1);
  }

  /** The first n threads of queue p are ready, behind those that were, in order; nothing else has changed. */
  ghost predicate Roused(s: State, s': State, p: Place, n: nat) {
    var q := QueueAt(s, p);
    && n <= |q| && s'.ready == s.ready + q[..n] && QueueAt(s', p) == q[n..] && LocksKept(s, s')
    && (forall u | u != p :: QueueAt(s', u) == QueueAt(s, u))
    && (forall t: nat :: StatusOf(s', t) == if t in q[..n] then Some(READY) else StatusOf(s, t))
    && (forall t: nat :: RestOf(s', t) == RestOf(s, t))
  }

  /** Of two threads in a queue, the one that went to sleep first is woken no later and is then ahead in the ready queue. */
  lemma WakeupIsFifo(s: State, r: nat, p: Place, all: bool, t: nat, u: nat)
    requires Inv(s, r) && t in QueueAt(s, p) && u in QueueAt(s, p) && Pos(QueueAt(s, p), t) < Pos(QueueAt(s, p), u)
    ensures var s' := Wakeup(s, r, p, all).state;
            u in s'.ready ==> t in s'.ready && Pos(s'.ready, t) < Pos(s'.ready, u)
  {
    var o, q := Wakeup(s, r, p, all), QueueAt(s, p);
    WakeupDoes(s, r, p, all);
    assert ThreadGood(s, r, t) && ThreadGood(s, r, u) && QueueGood(s, p);
    if u in o.state.ready {
      var ts := q[..o.ret];
      assert u in ts;
      PosBelow(q, o.ret, u);
      assert q[Pos(q, t)] == t && ts[Pos(q, t)] == t;
      PosBelow(q, o.ret, t);
      PosAfter(s.ready, ts, t);
      PosAfter(s.ready, ts, u);
    }
  }

  lemma {:induction false} PosBelow(q: seq<nat>, n: nat, t: nat)
    requires n <= |q| && t in q[..n]
    ensures t in q && Pos(q, t) < n && Pos(q[..n], t) == Pos(q, t)
  {
    assert q == q[..n] + q[n..];
    PosAppend(q[..n], q[n..], t);
  }

  lemma {:induction false} PosAfter(a: seq<nat>, b: seq<nat>, t: nat)
    requires t !in a && t in b
    ensures Pos(a + b, t) == |a| + Pos(b, t)
  {
    if a == [] {
      assert a + b == b;
    } else {
      assert (a + b)[1..] == a[1..] + b;
      PosAfter(a[1..], b, t);
    }
  }

  /** An exit up to the switch: the threads that wait for r are awake. */
  lemma ExitWakes(s: State, r: nat)
    requires Inv(s, r)
    ensures var s2, waiters := WokenAll(Forgotten(FreeExited(s), r), OnThread(r)), QueueAt(s, OnThread(r));
            && Core(s2, r) && s2.ready == s.ready + waiters && QueueAt(s2, OnThread(r)) == []
            && (forall t: nat :: StatusOf(s2, t) != Some(EXITED))
            && (forall t: nat :: if t in waiters then StatusOf(s2, t) == Some(READY) else OthersKeep(s, s2, t))
            && LocksKept(s, s2) && (forall t: nat :: RestKept(s, s2, t))
            && (forall p | p != OnThread(r) :: QueueAt(s2, p) == QueueAt(s, p))
  {
    hide Woken;
    var s1 := FreeExited(s);
    FreedFrame(s);
    FreeExitedKeeps(s, r);
    NoneExited(s1, r);
    assert ThreadGood(s1, r, r);
    ForgottenSame(s1, r, r);
    var q := QueueAt(s1, OnThread(r));
    assert q == QueueAt(s, OnThread(r)) && q[..|q|] == q;
    WokenCore(s1, r, OnThread(r), |q|);
    WokenFrame(s1, OnThread(r), |q|);
    var s2 := WokenAll(s1, OnThread(r));
    forall t: nat ensures RestKept(s, s2, t) {
      assert RestKept(s, s1, t) && ThreadGood(s1, r, t);
      assert t in q ==> Waits(s1, t);
    }
  }

  /**
   * Exiting makes the threads waiting for r ready and runs the first ready thread; the program ends exactly if no other
   * thread is ready and none waits for r.
   */
  lemma ExitDoes(s: State, r: nat)
    requires Inv(s, r)
    ensures Exit(s, r).None? <==> s.ready == [] && QueueAt(s, OnThread(r)) == []
    ensures Exit(s, r).Some? ==>
              var o, waiters := Exit(s, r).value, QueueAt(s, OnThread(r));
              && [o.running] + o.state.ready == s.ready + waiters && LocksKept(s, o.state)
              && StatusOf(o.state, r) == Some(EXITED) && StatusOf(o.state, o.running) == Some(RUNNING)
              && (forall t: nat | t in waiters && t != o.running && t != r :: StatusOf(o.state, t) == Some(READY))
              && (forall t: nat | t != r && t != o.running && t !in waiters ::
                    OthersKeep(s, o.state, t) && StatusOf(o.state, t) != Some(EXITED))
              && (forall p :: QueueAt(o.state, p) == if p == OnThread(r) then [] else QueueAt(s, p))
              && (forall t: nat | t != r :: RestKept(s, o.state, t))
  {
    hide Core, AllReady, FreeExited, Forgotten, Switched, Woken;
    ExitWakes(s, r);
    var s2 := WokenAll(Forgotten(FreeExited(s), r), OnThread(r));
    if s2.ready != [] {
      CoreThread(s2, r, r);
      CoreThread(s2, r, s2.ready[0]);
      WithoutFirst(s2.ready);
      SwitchedCore(s2, r, s2.ready[0], EXITED, ToUser, None);
      SwitchedFrame(s2, r, s2.ready[0], EXITED, ToUser, None);
      assert s2.ready[1..] + [] == s2.ready[1..];
      RestsKept(s, s2, Exit(s, r).value.state, r);
    }
  }

  /**
   * Killing wakes the threads that wait for the victim; the victim is in no queue any more and does not run. Of it and a
   * thread that has exited before, the one with the lower number is reclaimed.
   */
  lemma KillDoes(s: State, r: nat, tid: int)
    requires Inv(s, r)
    requires tid >= 0 ==> forall p | p in s.queues && !p.OnThread? :: tid !in s.queues[p]
    ensures var o := Kill(s, r, tid);
            && o.running == r
            && (o.ret == THREAD_INVALID <==> !CanTarget(s, r, tid))
            && (o.ret == THREAD_INVALID ==> o.state == s)
            && (CanTarget(s, r, tid) ==>
                  && o.ret == tid && LocksKept(s, o.state)
                  && StatusOf(o.state, tid) == (if exists e: nat :: e < tid && StatusOf(s, e) == Some(EXITED) then Some(EXITED) else None)
                  && (forall t: nat | t in QueueAt(s, OnThread(tid)) :: StatusOf(o.state, t) == Some(READY))
                  && (forall t: nat | t != tid && t !in QueueAt(s, OnThread(tid)) ::
                        StatusOf(o.state, t) == if StatusOf(s, t) == Some(EXITED) && t < tid then None else StatusOf(s, t))
                  && o.state.ready == Without(s.ready, tid) + QueueAt(s, OnThread(tid))
                  && (forall p :: QueueAt(o.state, p) == if p == OnThread(tid) then [] else Without(QueueAt(s, p), tid))
                  && (forall t: nat :: RestKept(s, o.state, t)))
  {
    hide Core, AllReady, FreeExited, Forgotten, Woken, Killed;
    if CanTarget(s, r, tid) {
      KilledDoes(s, r, tid);
      FreedFrame(Killed(s, tid));
      FreeExitedKeeps(Killed(s, tid), r);
      FreesLower(s, r, tid);
      forall t: nat ensures RestKept(s, Kill(s, r, tid).state, t) {
        assert RestKept(Killed(s, tid), FreeExited(Killed(s, tid)), t);
      }
    }
  }

  /** A kill up to the reclaiming. */
  lemma KilledDoes(s: State, r: nat, tid: nat)
    requires Inv(s, r) && CanTarget(s, r, tid) && forall p | p in s.queues && !p.OnThread? :: tid !in s.queues[p]
    ensures var k, waiters := Killed(s, tid), QueueAt(s, OnThread(tid));
            && Core(k, r) && LocksKept(s, k) && k.ready == Without(s.ready, tid) + waiters
            && (forall t: nat :: StatusOf(k, t) == if t == tid then Some(EXITED) else if t in waiters then Some(READY) else StatusOf(s, t))
            && tid !in waiters && (forall t: nat | t in waiters :: StatusOf(s, t) == Some(BLOCKED))
            && (forall p :: QueueAt(k, p) == if p == OnThread(tid) then [] else Without(QueueAt(s, p), tid))
            && (forall t: nat :: RestOf(k, t) == RestOf(s, t))
  {
    var p: Place := OnThread(tid);
    var q := QueueAt(s, p);
    assert q[..|q|] == q && QueueGood(s, p);
    forall t: nat | t in q ensures StatusOf(s, t) == Some(BLOCKED) {
      assert ThreadGood(s, r, t);
    }
    KilledIs(s, r, tid);
    WokenCore(s, r, p, |q|);
    WokenFrame(s, p, |q|);
    MarkedCore(WokenAll(s, p), r, tid);
    MarkedFrame(WokenAll(s, p), tid);
    hide Core, Forgotten, Woken, Killed, Marked;
    WithoutConcat(s.ready, q, tid);
  }

  lemma MarkedFrame(s: State, tid: nat)
    requires forall p | p in s.queues && !p.OnThread? :: tid !in s.queues[p]
    ensures var s' := Marked(s, tid);
            && LocksKept(s, s') && s'.ready == Without(s.ready, tid) && (forall t: nat :: RestOf(s', t) == RestOf(s, t))
            && (forall p :: QueueAt(s', p) == Without(QueueAt(s, p), tid))
  {
    forall p | p in s.queues && !p.OnThread? ensures Without(s.queues[p], tid) == s.queues[p] {
      WithoutAbsent(s.queues[p], tid);
    }
  }

  /** After a kill at most two threads have exited, and the one with the lower number is reclaimed. */
  lemma FreesLower(s: State, r: nat, tid: nat)
    requires Inv(s, r) && Core(Killed(s, tid), r) && StatusOf(s, tid).Some?
    requires forall t: nat :: StatusOf(Killed(s, tid), t) == Some(EXITED) <==> t == tid || StatusOf(s, t) == Some(EXITED)
    ensures var k := FreeExited(Killed(s, tid));
            && (StatusOf(k, tid) == None <==> !exists e: nat :: e < tid && StatusOf(s, e) == Some(EXITED))
            && (forall t: nat | t != tid && StatusOf(s, t) == Some(EXITED) :: StatusOf(k, t) == None <==> t < tid)
  {
    var k := Killed(s, tid);
    var i := FirstExited(k.threads, 0);
    assert StatusOf(k, tid) == Some(EXITED);
    assert i < |k.threads| && StatusOf(k, i) == Some(EXITED);
    forall e: nat | StatusOf(s, e) == Some(EXITED) ensures i == e || i == tid {
      assert OneExited(s, e, i);
      assert StatusOf(k, e) == Some(EXITED);
    }
    forall e: nat | StatusOf(k, e) == Some(EXITED) ensures i <= e {}
  }

  /** Waiting for another existing thread puts the caller last in that thread's queue; it returns at once if no thread is ready. */
  lemma WaitDoes(s: State, r: nat, tid: int)
    requires Inv(s, r) && (tid >= 0 ==> StatusOf(s, tid) != Some(EXITED))
    ensures var o := Wait(s, r, tid);
            if !CanTarget(s, r, tid) then o == Outcome(s, r, THREAD_INVALID)
            else if s.ready == [] then o == Outcome(s, r, tid)
            else o.ret == tid && Asleep(s, o, r, OnThread(tid), AfterSleep)
  {
    if CanTarget(s, r, tid) {
      assert ThreadGood(s, r, tid);
      SleepDoes(s, r, OnThread(tid), AfterSleep);
    }
  }

  // ---------------------------------------------------------------- locks and condition variables

  /**
   * Acquiring takes the lock exactly if nobody holds it. Else the caller goes last in the lock's queue, if another thread
   * can run, and it tries again when it wakes.
   */
  lemma AcquireDoes(s: State, r: nat, l: nat)
    requires Inv(s, r) && l in s.locks
    ensures Acquire(s, r, l).None? <==> Holder(s.log, l).Some? && s.ready == []
    ensures Acquire(s, r, l).Some? ==>
              var o := Acquire(s, r, l).value;
              if Holder(s.log, l).None? then Took(s, o, r, l) else Asleep(s, o, r, OnLock(l), ToAcquire(l))
  {
    CoreThread(s, r, r);
    assert LockGood(s, l);
    hide Core, Sleep, Asleep, WithStatus, Took;
    if !s.locks[l].acquired {
      TakeDoes(s, r, l);
    } else if s.ready != [] {
      SleepDoes(s, r, OnLock(l), ToAcquire(l));
    }
  }

  lemma TakeDoes(s: State, r: nat, l: nat)
    requires l in s.locks && !s.locks[l].acquired && StatusOf(s, r) == Some(RUNNING)
    ensures Took(s, Acquire(s, r, l).value, r, l)
  {
    var s' := Acquire(s, r, l).value.state;
    assert s'.log[..|s.log|] == s.log;
  }

  /** Releasing has an effect exactly if the caller holds the lock: it is free then, and all who wait for it are ready, in order. */
  lemma ReleaseDoes(s: State, r: nat, l: nat)
    requires Inv(s, r) && l in s.locks
    ensures var s' := Release(s, r, l); var waiters := QueueAt(s, OnLock(l));
            if Holder(s.log, l) == Some(r) then
              && Holder(s'.log, l) == None && QueueAt(s', OnLock(l)) == [] && s'.ready == s.ready + waiters
              && s'.locks == s.locks[l := Lock(false, r)] && s'.log == s.log + [Released(r, l)]
              && (forall t: nat :: StatusOf(s', t) == if t in waiters then Some(READY) else StatusOf(s, t))
              && (forall p | p != OnLock(l) :: QueueAt(s', p) == QueueAt(s, p))
              && (forall t: nat :: RestOf(s', t) == RestOf(s, t))
            else s' == s
  {
    assert LockGood(s, l);
    WokenStatus(s, r, OnLock(l), |QueueAt(s, OnLock(l))|);
    assert QueueAt(s, OnLock(l))[..|QueueAt(s, OnLock(l))|] == QueueAt(s, OnLock(l));
  }

  /**
   * Waiting on a condition by the owner of the lock: the lock is given back and the thread is last in the condition's
   * queue before any other thread runs, and it tries for the lock when it wakes. If no other thread is ready to run, it
   * goes on at once, with the lock. For another thread the call is no more than an attempt to take the lock.
   */
  lemma CvWaitIsAtomic(s: State, r: nat, c: nat, l: nat)
    requires Inv(s, r) && l in s.locks && OnCv(c) in s.queues
    ensures s.locks[l].owner != r ==> CvWait(s, r, c, l) == Acquire(s, r, l)
    ensures s.locks[l].owner == r ==>
              && CvWait(s, r, c, l).Some?
              && var o := CvWait(s, r, c, l).value; var s1 := Release(s, r, l); var waiters := QueueAt(s, OnLock(l));
                 && s1.ready == s.ready + waiters && s1.locks[l] == Lock(false, r) && Holder(s1.log, l) == None
                 && if s.ready + waiters == [] then Took(s1, o, r, l)
                    else Asleep(s1, o, r, OnCv(c), ToAcquire(l)) && QueueAt(o.state, OnCv(c)) == QueueAt(s, OnCv(c)) + [r]
  {
    if s.locks[l].owner == r {
      var s1 := Release(s, r, l);
      assert LockGood(s, l);
      ReleaseDoes(s, r, l);
      ReleaseKeeps(s, r, l);
      assert s.ready + [] == s.ready;
      AcquireDoes(s1, r, l);
      if s1.ready != [] {
        SleepDoes(s1, r, OnCv(c), ToAcquire(l));
      }
    }
  }

  /** By the owner of the lock a broadcast wakes all who wait for the condition and a signal the first; by others nobody is woken. */
  lemma CvWakeDoes(s: State, r: nat, c: nat, l: nat, all: bool)
    requires Inv(s, r) && l in s.locks
    ensures var q := QueueAt(s, OnCv(c));
            Roused(s, CvWake(s, r, c, l, all), OnCv(c), if s.locks[l].owner != r || q == [] then 0 else if all then |q| else 1)
  {
    WakeupDoes(s, r, OnCv(c), all);
    assert s.ready + [] == s.ready;
  }

  /**
   * A thread that runs again first reclaims the exited thread. After a plain sleep it then has nothing left to do; if it
   * slept for a lock it tries to take that lock.
   */
  lemma ResumeDoes(s: State, r: nat)
    requires Inv(s, r) && RestOf(s, r) != ToUser
    ensures var s1 := FreeExited(s);
            && Inv(s1, r) && (forall t: nat :: StatusOf(s1, t) != Some(EXITED) && OthersKeep(s, s1, t) && RestKept(s, s1, t))
            && LocksKept(s, s1) && s1.ready == s.ready && (forall p :: QueueAt(s1, p) == QueueAt(s, p))
    ensures RestOf(s, r).ToAcquire? ==> RestOf(s, r).lock in s.locks
    ensures var s1 := FreeExited(s);
            match RestOf(s, r)
            case ToUser => true
            case AfterSleep =>
              && Resume(s, r).Some?
              && var o := Resume(s, r).value;
                 && o.running == r && RestOf(o.state, r) == ToUser && o.state == s1.(threads := o.state.threads)
                 && (forall t: nat :: StatusOf(o.state, t) == StatusOf(s1, t)) && (forall t: nat | t != r :: RestKept(s1, o.state, t))
            case ToAcquire(l) =>
              && (Resume(s, r).None? <==> Holder(s.log, l).Some? && s.ready == [])
              && (Resume(s, r).Some? ==>
                    if Holder(s.log, l).None? then Took(s1, Resume(s, r).value, r, l)
                    else Asleep(s1, Resume(s, r).value, r, OnLock(l), ToAcquire(l)))
  {
    hide Core, FreeExited;
    FreedFrame(s);
    FreeExitedKeeps(s, r);
    NoneExited(FreeExited(s), r);
    CoreThread(s, r, r);
    CoreThread(FreeExited(s), r, r);
    if RestOf(s, r).ToAcquire? {
      AcquireDoes(FreeExited(s), r, RestOf(s, r).lock);
    }
  }
}
