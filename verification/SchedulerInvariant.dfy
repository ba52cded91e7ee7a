/** What every call of the thread library keeps: who runs, who is ready, who waits where, and who holds which lock. */
module SchedulerInvariants {
  import opened Options
  import opened Queues
  import opened Schedulers

  /** The thread that holds lock l after the logged calls. */
  function Holder(log: seq<LockEvent>, l: nat): Option<nat> {
    if log == [] then None
    else
      var last := log[|log| - 1];
      if last.lock != l then Holder(log[..|log| - 1], l) else if last.Acquired? then Some(last.tid) else None
  }

  /** Lock l was only ever taken while nobody held it, and given back by the thread that held it. */
  predicate Alternates(log: seq<LockEvent>, l: nat) {
    log == [] ||
    (var before, last := log[..|log| - 1], log[|log| - 1];
     Alternates(before, l) && (last.lock == l ==> Holder(before, l) == if last.Acquired? then None else Some(last.tid)))
  }

  /** Thread t waits in some queue. */
  ghost predicate Waits(s: State, t: nat) {
    exists p :: t in QueueAt(s, p)
  }

  ghost predicate ThreadGood(s: State, r: nat, t: nat) {
    var status := StatusOf(s, t);
    && (t < |s.threads| && s.threads[t].Some? ==> s.threads[t].value.id == t)
    && (OnThread(t) in s.queues <==> status.Some?)
    && (status == Some(RUNNING) <==> t == r)
    && (status == Some(READY) <==> t in s.ready)
    && (status == Some(BLOCKED) <==> Waits(s, t))
    && (status == Some(EXITED) ==> QueueAt(s, OnThread(t)) == [])
    && (RestOf(s, t).ToAcquire? ==> RestOf(s, t).lock in s.locks)
  }

  ghost predicate QueueGood(s: State, p: Place) {
    Distinct(QueueAt(s, p)) && (p.OnThread? ==> p.tid !in QueueAt(s, p))
  }

  ghost predicate OnePlace(s: State, t: nat, p: Place, q: Place) {
    t in QueueAt(s, p) && t in QueueAt(s, q) ==> p == q
  }

  ghost predicate LockGood(s: State, l: nat) {
    && (OnLock(l) in s.queues <==> l in s.locks)
    && Alternates(s.log, l)
    && if l in s.locks && s.locks[l].acquired then s.locks[l].owner >= 0 && Holder(s.log, l) == Some(s.locks[l].owner)
       else QueueAt(s, OnLock(l)) == [] && Holder(s.log, l) == None
  }

  ghost predicate OneExited(s: State, t: nat, u: nat) {
    StatusOf(s, t) == Some(EXITED) && StatusOf(s, u) == Some(EXITED) ==> t == u
  }

  /** Everything but the bound on exited threads. */
  ghost predicate Core(s: State, r: nat) {
    && |s.threads| == MAX_THREADS && Distinct(s.ready)
    && (forall t: nat :: ThreadGood(s, r, t))
    && (forall p :: QueueGood(s, p))
    && (forall t: nat, p, q :: OnePlace(s, t, p, q))
    && (forall l: nat :: LockGood(s, l))
  }

  /**
   * The invariant of the library when interrupts are on: exactly thread r runs, the ready queue lists each ready thread
   * once, each blocked thread is in exactly one wait queue, and at most one exited thread is not reclaimed.
   */
  ghost predicate Inv(s: State, r: nat) {
    Core(s, r) && forall t: nat, u: nat :: OneExited(s, t, u)
  }

  // ---------------------------------------------------------------- reclaiming

  lemma ReclaimedCore(s: State, r: nat, i: nat)
    requires Core(s, r) && StatusOf(s, i) == Some(EXITED)
    ensures Core(Reclaimed(s, i), r) && Reclaimed(s, i).ready == s.ready
  {
    var s' := Reclaimed(s, i);
    assert ThreadGood(s, r, i);
    WithoutAbsent(s.ready, i);
    forall p ensures QueueAt(s', p) == QueueAt(s, p) {}
    forall t: nat ensures ThreadGood(s', r, t) {
      assert ThreadGood(s, r, t);
      if Waits(s, t) {
        var p :| t in QueueAt(s, p);
        assert t in QueueAt(s', p);
      }
    }
    forall p ensures QueueGood(s', p) { assert QueueGood(s, p); }
    forall t: nat, p, q ensures OnePlace(s', t, p, q) { assert OnePlace(s, t, p, q); }
    forall l: nat ensures LockGood(s', l) { assert LockGood(s, l); }
  }

  /** Freeing exited threads keeps the invariant and touches neither the ready queue nor any waiting thread. */
  lemma FreeExitedKeeps(s: State, r: nat)
    requires Core(s, r)
    ensures var s' := FreeExited(s);
            && Core(s', r) && s'.ready == s.ready && s'.locks == s.locks && s'.log == s.log
            && (forall p :: QueueAt(s', p) == QueueAt(s, p)) && (forall p | p in s'.queues :: p in s.queues)
            && (forall p | p in s.queues && !p.OnThread? :: p in s'.queues)
            && (forall t: nat :: StatusOf(s', t) == StatusOf(s, t) || (StatusOf(s, t) == Some(EXITED) && StatusOf(s', t) == None))
            && RestOf(s', r) == RestOf(s, r)
    ensures Inv(s, r) ==> forall t: nat :: StatusOf(FreeExited(s), t) != Some(EXITED)
  {
    var i := FirstExited(s.threads, 0);
    if i < |s.threads| {
      ReclaimedCore(s, r, i);
      assert ThreadGood(s, r, i) && ThreadGood(s, r, r);
      if Inv(s, r) {
        forall t: nat ensures StatusOf(FreeExited(s), t) != Some(EXITED) {
          assert OneExited(s, t, i);
        }
      }
    }
  }

  // ---------------------------------------------------------------- waking

  lemma WokenStatus(s: State, r: nat, p: Place, n: nat)
    requires Core(s, r) && n <= |QueueAt(s, p)|
    ensures forall t | t in QueueAt(s, p)[..n] :: StatusOf(s, t) == Some(BLOCKED) && t !in s.ready
    ensures forall t: nat :: StatusOf(Woken(s, p, n), t) == if t in QueueAt(s, p)[..n] then Some(READY) else StatusOf(s, t)
  {
    forall t | t in QueueAt(s, p)[..n] ensures StatusOf(s, t) == Some(BLOCKED) && t !in s.ready {
      assert t in QueueAt(s, p) && ThreadGood(s, r, t);
    }
  }

  /** Waking the first n threads of a queue. */
  lemma WokenCore(s: State, r: nat, p: Place, n: nat)
    requires Core(s, r) && n <= |QueueAt(s, p)|
    ensures Core(Woken(s, p, n), r)
    ensures forall t: nat :: StatusOf(Woken(s, p, n), t) == if t in QueueAt(s, p)[..n] then Some(READY) else StatusOf(s, t)
  {
    hide AllReady, ThreadGood;
    var s', ts := Woken(s, p, n), QueueAt(s, p)[..n];
    WokenStatus(s, r, p, n);
    if p in s.queues {
      assert QueueGood(s, p);
      forall t: nat ensures t in QueueAt(s, p) <==> t in ts || t in s.queues[p][n..] {
        assert s.queues[p] == ts + s.queues[p][n..];
      }
      forall t: nat ensures ThreadGood(s', r, t) {
        WokenThread(s, r, p, n, t);
      }
      forall q ensures QueueGood(s', q) { assert QueueGood(s, q); }
      forall t: nat, q, q' ensures OnePlace(s', t, q, q') { assert OnePlace(s, t, q, q'); }
      forall l: nat ensures LockGood(s', l) { assert LockGood(s, l); }
      DistinctConcat(s.ready, ts);
    }
  }

  lemma WokenThread(s: State, r: nat, p: Place, n: nat, t: nat)
    requires Core(s, r) && n <= |QueueAt(s, p)| && p in s.queues
    ensures ThreadGood(Woken(s, p, n), r, t)
  {
    var s', ts := Woken(s, p, n), QueueAt(s, p)[..n];
    assert ThreadGood(s, r, t) && QueueGood(s, p);
    assert s.queues[p] == ts + s.queues[p][n..];
    if t in ts {
      assert t in QueueAt(s, p);
      forall q ensures t !in QueueAt(s', q) {
        assert OnePlace(s, t, p, q);
      }
    } else if Waits(s, t) {
      var q :| t in QueueAt(s, q);
      assert t in QueueAt(s', q);
    }
    assert forall q | t in QueueAt(s', q) :: t in QueueAt(s, q);
  }

  // ---------------------------------------------------------------- switching

  /** What the running thread may become when it gives up the processor. */
  ghost predicate CanBecome(s: State, r: nat, status: Status, rest: Rest, place: Option<Place>) {
    && (rest.ToAcquire? ==> rest.lock in s.locks)
    && match status
       case RUNNING => false
       case READY => place == None
       case BLOCKED => place.Some? && place.value in s.queues && place.value != OnThread(r)
                       && (place.value.OnLock? ==> place.value.lock in s.locks && s.locks[place.value.lock].acquired)
                       && (place.value.OnThread? ==> StatusOf(s, place.value.tid) != Some(EXITED))
       case EXITED => place == None && QueueAt(s, OnThread(r)) == []
  }

  lemma SwitchedThread(s: State, r: nat, n: nat, status: Status, rest: Rest, place: Option<Place>, t: nat)
    requires Core(s, r) && n in s.ready && CanBecome(s, r, status, rest, place)
    ensures ThreadGood(Switched(s, r, n, status, rest, place), n, t)
  {
    var s' := Switched(s, r, n, status, rest, place);
    WithoutMembers(s.ready, n);
    assert ThreadGood(s, r, t) && ThreadGood(s, r, n) && ThreadGood(s, r, r);
    if Waits(s, t) {
      var p :| t in QueueAt(s, p);
      assert t in QueueAt(s', p);
    }
    if t == r && status == BLOCKED {
      assert t in QueueAt(s', place.value);
    }
    forall p | t in QueueAt(s', p) ensures t in QueueAt(s, p) || (t == r && status == BLOCKED) {}
  }

  lemma SwitchedCore(s: State, r: nat, n: nat, status: Status, rest: Rest, place: Option<Place>)
    requires Core(s, r) && n in s.ready && CanBecome(s, r, status, rest, place)
    ensures Core(Switched(s, r, n, status, rest, place), n)
    ensures forall t: nat :: StatusOf(Switched(s, r, n, status, rest, place), t) ==
              if t == r then Some(status) else if t == n then Some(RUNNING) else StatusOf(s, t)
  {
    var s' := Switched(s, r, n, status, rest, place);
    WithoutMembers(s.ready, n);
    assert ThreadGood(s, r, n) && ThreadGood(s, r, r);
    forall p ensures r !in QueueAt(s, p) { assert r in QueueAt(s, p) ==> Waits(s, r); }
    forall t: nat ensures ThreadGood(s', n, t) { SwitchedThread(s, r, n, status, rest, place, t); }
    forall p ensures QueueGood(s', p) { assert QueueGood(s, p); }
    forall t: nat, p | t in QueueAt(s', p) ensures t in QueueAt(s, p) || (t == r && place == Some(p)) {}
    forall t: nat, p, q ensures OnePlace(s', t, p, q) { assert OnePlace(s, t, p, q); }
    forall l: nat ensures LockGood(s', l) { assert LockGood(s, l); }
  }

  // ---------------------------------------------------------------- the calls on threads

  lemma CreateKeeps(s: State, r: nat)
    requires Inv(s, r)
    ensures var o := Create(s, r);
            && Inv(o.state, r) && o.running == r
            && (o.ret == THREAD_NOMORE <==> forall t: nat | t < MAX_THREADS :: StatusOf(s, t).Some? && StatusOf(s, t) != Some(EXITED))
            && (o.ret == THREAD_NOMORE || (
                  && 0 <= o.ret < MAX_THREADS && (StatusOf(s, o.ret) == None || StatusOf(s, o.ret) == Some(EXITED))
                  && StatusOf(o.state, o.ret) == Some(READY) && o.state.ready == s.ready + [o.ret]))
  {
    var id := FirstFree(s.threads, 0);
    if id < |s.threads| {
      var s' := Create(s, r).state;
      assert ThreadGood(s, r, id) && ThreadGood(s, r, r);
      forall p ensures QueueAt(s', p) == QueueAt(s, p) {}
      forall t: nat ensures ThreadGood(s', r, t) {
        assert ThreadGood(s, r, t);
        assert Waits(s, t) <==> Waits(s', t) by {
          assert forall p :: t in QueueAt(s', p) <==> t in QueueAt(s, p);
        }
      }
      forall p ensures QueueGood(s', p) { assert QueueGood(s, p); }
      forall t: nat, p, q ensures OnePlace(s', t, p, q) { assert OnePlace(s, t, p, q); }
      forall l: nat ensures LockGood(s', l) { assert LockGood(s, l); }
      forall t: nat, u: nat ensures OneExited(s', t, u) { assert OneExited(s, t, u); }
    } else {
      assert forall t: nat | t < MAX_THREADS :: s.threads[t].Some?;
    }
  }

  /** A state without exited threads that satisfies the rest of the invariant satisfies all of it, and has nothing to free. */
  lemma NoneExited(s: State, r: nat)
    requires Core(s, r) && forall t: nat :: StatusOf(s, t) != Some(EXITED)
    ensures Inv(s, r) && FreeExited(s) == s
  {
    forall t: nat, u: nat ensures OneExited(s, t, u) {}
    var i := FirstExited(s.threads, 0);
    assert StatusOf(s, i) != Some(EXITED);
  }

  /** A switch keeps the invariant if afterwards at most one thread has exited. */
  lemma SwitchedKeeps(s: State, r: nat, n: nat, status: Status, rest: Rest, place: Option<Place>)
    requires Inv(s, r) && n in s.ready && CanBecome(s, r, status, rest, place)
    requires status == EXITED ==> forall t: nat :: StatusOf(s, t) != Some(EXITED)
    ensures Inv(Switched(s, r, n, status, rest, place), n)
  {
    SwitchedCore(s, r, n, status, rest, place);
    var s' := Switched(s, r, n, status, rest, place);
    forall t: nat, u: nat ensures OneExited(s', t, u) { assert OneExited(s, t, u); }
  }

  lemma YieldKeeps(s: State, r: nat, want: int)
    requires Inv(s, r)
    ensures var o := Yield(s, r, want); Inv(o.state, o.running)
  {
    var s1 := FreeExited(s);
    FreeExitedKeeps(s, r);
    NoneExited(s1, r);
    if want == THREAD_SELF || want == r {
    } else if want == THREAD_ANY {
      if s1.ready != [] {
        YieldToIs(s1, r, s1.ready[0]);
        SwitchedKeeps(s1, r, s1.ready[0], READY, ToUser, None);
      }
    } else if 0 <= want < |s1.threads| && StatusOf(s1, want) == Some(READY) {
      assert ThreadGood(s1, r, want);
      YieldToIs(s1, r, want);
      SwitchedKeeps(s1, r, want, READY, ToUser, None);
    }
  }

  /** The second reclaiming in a yield finds nothing. */
  lemma YieldToIs(s: State, r: nat, n: nat)
    requires Core(s, r) && forall t: nat :: StatusOf(s, t) != Some(EXITED)
    ensures YieldTo(s, r, n) == Outcome(Switched(s, r, n, READY, ToUser, None), n, n)
  {
    var s1 := s.(ready := Without(s.ready, n));
    var i := FirstExited(s1.threads, 0);
    assert StatusOf(s, i) != Some(EXITED);
    WithoutMembers(s.ready, n);
    WithoutAbsent(Without(s.ready, n), n);
    assert FreeExited(s1) == s1;
  }

  lemma SleepKeeps(s: State, r: nat, p: Place, rest: Rest)
    requires Inv(s, r) && CanBecome(s, r, BLOCKED, rest, Some(p))
    ensures var o := Sleep(s, r, p, rest); Inv(o.state, o.running)
  {
    if s.ready != [] {
      SwitchedKeeps(s, r, s.ready[0], BLOCKED, rest, Some(p));
    }
  }

  lemma WokenKeeps(s: State, r: nat, p: Place, n: nat)
    requires Inv(s, r) && n <= |QueueAt(s, p)|
    ensures Inv(Woken(s, p, n), r)
  {
    WokenCore(s, r, p, n);
    var s' := Woken(s, p, n);
    forall t: nat, u: nat ensures OneExited(s', t, u) { assert OneExited(s, t, u); }
  }

  /** A thread that is not blocked is in no queue to be deleted from. */
  lemma ForgottenSame(s: State, r: nat, t: nat)
    requires Core(s, r) && StatusOf(s, t) != Some(BLOCKED)
    ensures Forgotten(s, t) == s
  {
    assert ThreadGood(s, r, t);
    forall p | p in s.queues ensures Without(s.queues[p], t) == s.queues[p] {
      assert t !in QueueAt(s, p);
      WithoutAbsent(s.queues[p], t);
    }
    assert Forgotten(s, t).queues == s.queues;
  }

  lemma ExitKeeps(s: State, r: nat)
    requires Inv(s, r)
    ensures var o := Exit(s, r); o.Some? ==> Inv(o.value.state, o.value.running)
  {
    var s1 := FreeExited(s);
    FreeExitedKeeps(s, r);
    NoneExited(s1, r);
    assert ThreadGood(s1, r, r);
    ForgottenSame(s1, r, r);
    var s2 := WokenAll(s1, OnThread(r));
    WokenKeeps(s1, r, OnThread(r), |QueueAt(s1, OnThread(r))|);
    WokenCore(s1, r, OnThread(r), |QueueAt(s1, OnThread(r))|);
    assert QueueAt(s2, OnThread(r)) == [];
    if s2.ready != [] {
      SwitchedKeeps(s2, r, s2.ready[0], EXITED, ToUser, None);
    }
  }

  /** What is left of a kill once the threads waiting for tid are awake. */
  function Marked(s: State, tid: nat): State {
    Forgotten(WithStatus(s, tid, EXITED, RestOf(s, tid)).(ready := Without(s.ready, tid)), tid)
  }

  /** A kill might as well wake the waiting threads first. */
  lemma KilledIs(s: State, r: nat, tid: nat)
    requires Core(s, r) && StatusOf(s, tid).Some?
    ensures Killed(s, tid) == Marked(WokenAll(s, OnThread(tid)), tid)
  {
    var p := OnThread(tid);
    assert ThreadGood(s, r, tid) && QueueGood(s, p);
    var s1, s2 := WithStatus(s, tid, EXITED, RestOf(s, tid)).(ready := Without(s.ready, tid)), WokenAll(s, p);
    WithoutConcat(s.ready, s.queues[p], tid);
    assert s.queues[p][..|s.queues[p]|] == s.queues[p];
    var k1, k2 := WokenAll(s1, p), WithStatus(s2, tid, EXITED, RestOf(s2, tid)).(ready := Without(s2.ready, tid));
    assert k1.threads == k2.threads && k1.queues == k2.queues && k1.ready == k2.ready;
  }

  lemma MarkedCore(s: State, r: nat, tid: nat)
    requires Core(s, r) && StatusOf(s, tid).Some? && tid != r && QueueAt(s, OnThread(tid)) == []
    requires forall p | p in s.queues && !p.OnThread? :: tid !in s.queues[p]
    ensures Core(Marked(s, tid), r)
    ensures forall t: nat :: StatusOf(Marked(s, tid), t) == if t == tid then Some(EXITED) else StatusOf(s, t)
  {
    var s' := Marked(s, tid);
    WithoutMembers(s.ready, tid);
    forall p ensures Distinct(QueueAt(s', p)) && forall t :: t in QueueAt(s', p) <==> t in QueueAt(s, p) && t != tid {
      assert QueueGood(s, p);
      WithoutMembers(QueueAt(s, p), tid);
    }
    forall t: nat ensures ThreadGood(s', r, t) {
      assert ThreadGood(s, r, t);
      if Waits(s, t) {
        var p :| t in QueueAt(s, p);
        assert t != tid ==> t in QueueAt(s', p);
      }
      assert Waits(s', t) <==> Waits(s, t) && t != tid;
    }
    forall p ensures QueueGood(s', p) { assert QueueGood(s, p); }
    forall t: nat, p, q ensures OnePlace(s', t, p, q) { assert OnePlace(s, t, p, q); }
    forall l: nat ensures LockGood(s', l) { assert LockGood(s, l); }
  }

  /** Killing a thread that is not waiting for a lock, a condition or in a queue of the user's. */
  lemma KillKeeps(s: State, r: nat, tid: int)
    requires Inv(s, r)
    requires tid >= 0 ==> forall p | p in s.queues && !p.OnThread? :: tid !in s.queues[p]
    ensures Inv(Kill(s, r, tid).state, r) && Kill(s, r, tid).running == r
  {
    hide Core, Forgotten, WithStatus;
    if CanTarget(s, r, tid) {
      var s1, p: Place := WokenAll(s, OnThread(tid)), OnThread(tid);
      KilledIs(s, r, tid);
      WokenCore(s, r, p, |QueueAt(s, p)|);
      assert QueueAt(s1, p) == [];
      MarkedCore(s1, r, tid);
      forall t: nat, u: nat | StatusOf(Killed(s, tid), t) == StatusOf(Killed(s, tid),
                                                                      u) == Some(EXITED) && t != tid && u != tid ensures t == u {
        assert OneExited(s, t, u);
      }
      FreeOneOfTwo(Killed(s, tid), r, tid);
    }
  }

  /** If two threads may have exited, freeing one leaves at most one. */
  lemma FreeOneOfTwo(s: State, r: nat, tid: nat)
    requires Core(s, r) && StatusOf(s, tid) == Some(EXITED)
    requires forall t: nat, u: nat | StatusOf(s, t) == StatusOf(s, u) == Some(EXITED) && t != tid && u != tid :: t == u
    ensures Inv(FreeExited(s), r)
  {
    FreeExitedKeeps(s, r);
    var i := FirstExited(s.threads, 0);
    assert StatusOf(s, i) == Some(EXITED);
    forall t: nat, u: nat ensures OneExited(FreeExited(s), t, u) {}
  }

  lemma WaitKeeps(s: State, r: nat, tid: int)
    requires Inv(s, r) && (tid >= 0 ==> StatusOf(s, tid) != Some(EXITED))
    ensures var o := Wait(s, r, tid); Inv(o.state, o.running)
  {
    if CanTarget(s, r, tid) {
      assert ThreadGood(s, r, tid);
      SleepKeeps(s, r, OnThread(tid), AfterSleep);
    }
  }

  // ---------------------------------------------------------------- the calls on locks and condition variables

  /** The running thread goes on with nothing left to do. */
  lemma ResumedKeeps(s: State, r: nat)
    requires Inv(s, r)
    ensures Inv(WithStatus(s, r, RUNNING, ToUser), r)
    ensures forall t: nat :: StatusOf(WithStatus(s, r, RUNNING, ToUser), t) == StatusOf(s, t)
  {
    var s' := WithStatus(s, r, RUNNING, ToUser);
    assert ThreadGood(s, r, r);
    forall p ensures QueueAt(s', p) == QueueAt(s, p) {}
    forall t: nat ensures ThreadGood(s', r, t) {
      assert ThreadGood(s, r, t);
      assert Waits(s', t) <==> Waits(s, t) by {
        assert forall p :: t in QueueAt(s', p) <==> t in QueueAt(s, p);
      }
    }
    forall p ensures QueueGood(s', p) { assert QueueGood(s, p); }
    forall t: nat, p, q ensures OnePlace(s', t, p, q) { assert OnePlace(s, t, p, q); }
    forall l: nat ensures LockGood(s', l) { assert LockGood(s, l); }
    forall t: nat, u: nat ensures OneExited(s', t, u) { assert OneExited(s, t, u); }
  }

  /** Taking a free lock, or giving back one that r holds and nobody waits for. */
  lemma LockEventKeeps(s: State, r: nat, l: nat, e: LockEvent)
    requires Inv(s, r) && l in s.locks && e.tid == r && e.lock == l
    requires if e.Acquired? then !s.locks[l].acquired
             else s.locks[l].acquired && s.locks[l].owner == r && QueueAt(s, OnLock(l)) == []
    ensures Inv(s.(locks := s.locks[l := Lock(e.Acquired?, r)], log := s.log + [e]), r)
  {
    var s' := s.(locks := s.locks[l := Lock(e.Acquired?, r)], log := s.log + [e]);
    assert s'.log[..|s.log|] == s.log;
    forall p ensures QueueAt(s', p) == QueueAt(s, p) {}
    forall t: nat ensures ThreadGood(s', r, t) {
      assert ThreadGood(s, r, t);
      assert Waits(s', t) <==> Waits(s, t) by {
        assert forall p :: t in QueueAt(s', p) <==> t in QueueAt(s, p);
      }
    }
    forall p ensures QueueGood(s', p) { assert QueueGood(s, p); }
    forall t: nat, p, q ensures OnePlace(s', t, p, q) { assert OnePlace(s, t, p, q); }
    forall k: nat ensures LockGood(s', k) { assert LockGood(s, k) && LockGood(s, l); }
    forall t: nat, u: nat ensures OneExited(s', t, u) { assert OneExited(s, t, u); }
  }

  lemma AcquireKeeps(s: State, r: nat, l: nat)
    requires Inv(s, r) && l in s.locks
    ensures var o := Acquire(s, r, l); o.Some? ==> Inv(o.value.state, o.value.running)
  {
    assert LockGood(s, l);
    if !s.locks[l].acquired {
      ResumedKeeps(s, r);
      LockEventKeeps(WithStatus(s, r, RUNNING, ToUser), r, l, Acquired(r, l));
    } else if s.ready != [] {
      SleepKeeps(s, r, OnLock(l), ToAcquire(l));
    }
  }

  /** Releasing wakes everybody who waits for the lock, in order; it may do so before or after it marks the lock free. */
  lemma ReleaseKeeps(s: State, r: nat, l: nat)
    requires Inv(s, r) && l in s.locks
    ensures var s' := Release(s, r, l); Inv(s', r) && s'.locks.Keys == s.locks.Keys && s'.queues.Keys == s.queues.Keys
    ensures s.locks[l].owner == r ==> !Release(s, r, l).locks[l].acquired
  {
    if s.locks[l].acquired && s.locks[l].owner == r {
      var s1, p := WokenAll(s, OnLock(l)), OnLock(l);
      assert LockGood(s, l);
      WokenKeeps(s, r, p, |QueueAt(s, p)|);
      assert QueueAt(s1, p) == [];
      LockEventKeeps(s1, r, l, Released(r, l));
      assert Release(s, r, l) == s1.(locks := s1.locks[l := Lock(false, r)], log := s1.log + [Released(r, l)]);
    }
  }

  lemma CvWaitKeeps(s: State, r: nat, c: nat, l: nat)
    requires Inv(s, r) && l in s.locks && OnCv(c) in s.queues
    ensures var o := CvWait(s, r, c, l); o.Some? ==> Inv(o.value.state, o.value.running)
  {
    AcquireKeeps(s, r, l);
    ReleaseKeeps(s, r, l);
    if s.locks[l].owner == r {
      var s1 := Release(s, r, l);
      AcquireKeeps(s1, r, l);
      if s1.ready != [] {
        SleepKeeps(s1, r, OnCv(c), ToAcquire(l));
      }
    }
  }

  lemma CvWakeKeeps(s: State, r: nat, c: nat, l: nat, all: bool)
    requires Inv(s, r) && l in s.locks
    ensures Inv(CvWake(s, r, c, l, all), r)
  {
    WokenKeeps(s, r, OnCv(c), |QueueAt(s, OnCv(c))|);
    WokenKeeps(s, r, OnCv(c), if QueueAt(s, OnCv(c)) == [] then 0 else 1);
  }

  lemma ResumeKeeps(s: State, r: nat)
    requires Inv(s, r)
    ensures RestOf(s, r).ToAcquire? ==> RestOf(s, r).lock in s.locks
    ensures var o := Resume(s, r); o.Some? ==> Inv(o.value.state, o.value.running)
  {
    assert ThreadGood(s, r, r);
    FreeExitedKeeps(s, r);
    NoneExited(FreeExited(s), r);
    ResumedKeeps(FreeExited(s), r);
    if RestOf(s, r).ToAcquire? {
      AcquireKeeps(FreeExited(s), r, RestOf(s, r).lock);
    }
  }
}
