/**
 * The thread library as it is kept in memory: a table, lists and locks changed in place, each call proved against its
 * effect in Schedulers.
 */
module ThreadLibraries {
  import opened Options
  import opened Queues
  import opened Schedulers
  import opened SchedulerInvariants
  import SchedulerRuns

  class ThreadLibrary {
    const threads: array<Option<Thread>>
    var ready: seq<nat>
    var queues: map<Place, seq<nat>>
    var locks: map<nat, Lock>
    ghost var log: seq<LockEvent>

    ghost function View(): State
      reads this, threads
    {
      State(threads[..], ready, queues, locks, log)
    }

    /** A library with one thread, which runs. */
    constructor ()
      ensures fresh(threads) && SchedulerRuns.Initial(SchedulerRuns.Config(View(), 0)) && Inv(View(), 0)
    {
      threads := new Option<Thread>[MAX_THREADS](_ => None);
      ready, queues, locks, log := [], map[OnThread(0) := []], map[], [];
      new;
      threads[0] := Some(Thread(0, RUNNING, ToUser));
      SchedulerRuns.InitialInv(SchedulerRuns.Config(View(), 0));
    }

    lemma InvHasQueues(r: nat)
      requires Inv(View(), r)
      ensures HaveQueues(View()) && threads.Length == MAX_THREADS && StatusOf(View(), r) == Some(RUNNING)
    {
      forall t: nat ensures OnThread(t) in queues <==> StatusOf(View(), t).Some? {
        assert ThreadGood(View(), r, t);
      }
      assert ThreadGood(View(), r, r);
    }

    method ThreadId(ghost r: nat) returns (id: int)
      requires Inv(View(), r)
      ensures id == r
    {
      assert ThreadGood(View(), r, r);
      var i := 0;
      while i < MAX_THREADS
        invariant 0 <= i <= MAX_THREADS && r >= i
      {
        assert ThreadGood(View(), r, i);
        if threads[i].Some? && threads[i].value.status == RUNNING {
          return i;
        }
        i := i + 1;
      }
      assert false;
    }

    method GetId() returns (id: int)
      requires threads.Length == MAX_THREADS
      ensures var j := FirstFree(threads[..], 0); id == if j == MAX_THREADS then THREAD_NOMORE else j
    {
      var i := 0;
      while i < MAX_THREADS
        invariant 0 <= i <= MAX_THREADS && FirstFree(threads[..], 0) == FirstFree(threads[..], i)
      {
        if threads[i].None? || threads[i].value.status == EXITED {
          return i;
        }
        i := i + 1;
      }
      return THREAD_NOMORE;
    }

    method SetStatus(t: nat, status: Status, rest: Rest)
      requires StatusOf(View(), t).Some?
      modifies threads
      ensures View() == WithStatus(old(View()), t, status, rest)
    {
      threads[t] := Some(threads[t].value.(status := status, rest := rest));
    }

    /** Frees the first exited thread, if there is one. */
    method FreeFirstExited()
      modifies `ready, `queues, threads
      ensures View() == FreeExited(old(View()))
    {
      var i := 0;
      while i < threads.Length
        invariant 0 <= i <= threads.Length && View() == old(View())
        invariant FirstExited(threads[..], 0) == FirstExited(threads[..], i)
      {
        if threads[i].Some? && threads[i].value.status == EXITED {
          ready := Delete(ready, i);
          queues := queues - {OnThread(i)};
          threads[i] := None;
          return;
        }
        i := i + 1;
      }
    }

    /** Deletes t from the wait queues of all threads. */
    method DeleteFromAllQueues(t: nat)
      requires HaveQueues(View())
      modifies `queues
      ensures View() == Forgotten(old(View()), t)
    {
      hide StatusOf;
      ghost var s := View();
      for i := 0 to threads.Length
        invariant PartlyForgotten(s.queues, queues, t, i) && View() == s.(queues := queues)
      {
        SlotStatus(s, i);
        assert OnThread(i) in s.queues <==> StatusOf(s, i).Some?;
        ForgetStep(s.queues, queues, t, i);
        if threads[i].Some? {
          var rest := Delete(queues[OnThread(i)], t);
          queues := queues[OnThread(i) := rest];
        }
      }
      forall p | p in queues ensures p.OnThread? ==> p.tid < threads.Length {
        if p.OnThread? {
          assert StatusOf(s, p.tid).Some?;
          SlotStatus(s, p.tid);
        }
      }
      assert queues == Forgotten(s, t).queues;
    }

    /** Moves the first thread of a queue to the end of the ready queue. */
    method WakeFirst(p: Place)
      requires p in queues && queues[p] != [] && StatusOf(View(), queues[p][0]).Some?
      modifies `ready, `queues, threads
      ensures View() == Woken(old(View()), p, 1)
    {
      var wakeId := queues[p][0];
      WithoutFirst(queues[p]);
      var rest := Delete(queues[p], wakeId);
      queues := queues[p := rest];
      ready := ready + [wakeId];
      threads[wakeId] := Some(threads[wakeId].value.(status := READY));
      assert old(queues)[p][..1] == [wakeId];
      assert threads[..] == AllReady(old(threads[..]), [wakeId]);
    }

    /** Wakes the first or all threads of a queue, in the order in which they went to sleep, and returns how many. */
    method Wakeup(p: Place, all: bool, ghost r: nat) returns (count: int)
      requires CanWake(View(), p)
      modifies `ready, `queues, threads
      ensures var o := Schedulers.Wakeup(old(View()), r, p, all); View() == o.state && count == o.ret
      ensures all ==> View() == WokenAll(old(View()), p)
    {
      ghost var s := View();
      if p !in queues || queues[p] == [] {
        if p in queues {
          NoneWoken(s, p);
        }
        return 0;
      }
      NoneWoken(s, p);
      if all {
        count := 0;
        while queues[p] != []
          invariant 0 <= count <= |s.queues[p]| && View() == Woken(s, p, count) && p in queues
          decreases |s.queues[p]| - count
        {
          assert s.queues[p][count] in QueueAt(s, p);
          WokenMore(s, p, count);
          WakeFirst(p);
          count := count + 1;
        }
      } else {
        assert s.queues[p][0] in QueueAt(s, p);
        WokenMore(s, p, 0);
        WakeFirst(p);
        count := 1;
      }
    }

    /** Switches to thread n of the ready queue. */
    method SwitchTo(n: nat, r: nat, status: Status, rest: Rest, place: Option<Place>)
      requires StatusOf(View(), n).Some? && StatusOf(View(), r).Some?
      requires place.Some? ==> place.value in queues
      modifies `ready, `queues, threads
      ensures View() == Switched(old(View()), r, n, status, rest, place)
    {
      ready := Delete(ready, n);
      SetStatus(n, RUNNING, threads[n].value.rest);
      SetStatus(r, status, rest);
      if status == READY {
        ready := ready + [r];
      }
      if place.Some? {
        queues := queues[place.value := queues[place.value] + [r]];
      }
    }

    method CreateThread(ghost r: nat) returns (ret: int)
      requires Inv(View(), r)
      modifies `ready, `queues, threads
      ensures var o := Create(old(View()), r); View() == o.state && ret == o.ret
      ensures Inv(View(), r)
    {
      CreateKeeps(View(), r);
      InvHasQueues(r);
      var id := GetId();
      if id == THREAD_NOMORE {
        return id;
      }
      threads[id] := Some(Thread(id, READY, ToUser));
      queues := queues[OnThread(id) := []];
      ready := ready + [id];
      return id;
    }

    /** Up to the switch; `ret` is what the call returns once the thread runs again. */
    method YieldThread(want: int, ghost r: nat) returns (running: nat, ret: int)
      requires Inv(View(), r)
      modifies `ready, `queues, threads
      ensures Outcome(View(), running, ret) == Yield(old(View()), r, want)
      ensures Inv(View(), running)
    {
      YieldKeeps(View(), r, want);
      FreeExitedKeeps(View(), r);
      var me := ThreadId(r);
      FreeFirstExited();
      InvHasQueues(r);
      var n: nat;
      if want == THREAD_SELF || want == me {
        return me, me;
      } else if want == THREAD_ANY {
        if ready == [] {
          return me, THREAD_NONE;
        }
        n := ready[0];
      } else if 0 <= want < threads.Length && threads[want].Some? && threads[want].value.status == READY {
        n := want;
      } else {
        return me, THREAD_INVALID;
      }
      assert ThreadGood(View(), r, n) && ThreadGood(View(), r, me);
      DispatchReady(n, me);
      return n, n;
    }

    /** The second half of a yield. */
    method DispatchReady(n: nat, me: nat)
      requires StatusOf(View(), n) == Some(READY) && StatusOf(View(), me) == Some(RUNNING)
      modifies `ready, `queues, threads
      ensures View() == YieldTo(old(View()), me, n).state
    {
      ready := Delete(ready, n);
      FreeFirstExited();
      SwitchTo(n, me, READY, ToUser, None);
    }

    method SleepThread(p: Place, rest: Rest, ghost r: nat) returns (running: nat, ret: int)
      requires Inv(View(), r) && CanBecome(View(), r, BLOCKED, rest, Some(p))
      modifies `ready, `queues, threads
      ensures Outcome(View(), running, ret) == Sleep(old(View()), r, p, rest)
      ensures Inv(View(), running)
    {
      SleepKeeps(View(), r, p, rest);
      InvHasQueues(r);
      var me := ThreadId(r);
      if ready == [] {
        return me, THREAD_NONE;
      }
      var n := ready[0];
      assert ThreadGood(View(), r, n);
      SwitchTo(n, me, BLOCKED, rest, Some(p));
      return n, n;
    }

    method WaitForThread(tid: int, ghost r: nat) returns (running: nat, ret: int)
      requires Inv(View(), r) && (tid >= 0 ==> StatusOf(View(), tid) != Some(EXITED))
      modifies `ready, `queues, threads
      ensures Outcome(View(), running, ret) == Wait(old(View()), r, tid)
      ensures Inv(View(), running)
    {
      InvHasQueues(r);
      var me := ThreadId(r);
      if !(0 <= tid < threads.Length && threads[tid].Some? && tid != me) {
        return me, THREAD_INVALID;
      }
      assert StatusOf(View(), tid).Some?;
      running, ret := SleepThread(OnThread(tid), AfterSleep, r);
      ret := tid;
    }

    /** Ends the running thread; `ended` says that the program ends with it. */
    method ExitThread(ghost r: nat) returns (running: nat, ended: bool)
      requires Inv(View(), r)
      modifies `ready, `queues, threads
      ensures ended <==> Exit(old(View()), r).None?
      ensures !ended ==> Outcome(View(), running, THREAD_NONE) == Exit(old(View()), r).value && Inv(View(), running)
    {
      ghost var s := View();
      ExitKeeps(s, r);
      FreeExitedKeeps(s, r);
      FreeFirstExited();
      NoneExited(View(), r);
      InvHasQueues(r);
      var me := ThreadId(r);
      ForgottenSame(View(), r, me);
      DeleteFromAllQueues(me);
      InvCanWake(View(), r, OnThread(me));
      WokenKeeps(View(), r, OnThread(me), |QueueAt(View(), OnThread(me))|);
      var count := Wakeup(OnThread(me), true, r);
      assert View() == WokenAll(Forgotten(FreeExited(s), r), OnThread(r));
      if ready == [] {
        return me, true;
      }
      var n := ready[0];
      assert ThreadGood(View(), r, n);
      InvHasQueues(r);
      SwitchTo(n, me, EXITED, ToUser, None);
      return n, false;
    }

    /** Tries to take a lock; without the lock and with no thread to switch to, the code would loop forever. */
    method AcquireLock(l: nat, ghost r: nat) returns (running: nat)
      requires Inv(View(), r) && l in locks && Acquire(View(), r, l).Some?
      modifies `ready, `queues, `locks, `log, threads
      ensures View() == Acquire(old(View()), r, l).value.state && running == Acquire(old(View()), r, l).value.running
      ensures Inv(View(), running)
    {
      AcquireKeeps(View(), r, l);
      assert LockGood(View(), l);
      InvHasQueues(r);
      var me := ThreadId(r);
      if locks[l].acquired {
        var ret;
        running, ret := SleepThread(OnLock(l), ToAcquire(l), r);
        return;
      }
      SetStatus(me, RUNNING, ToUser);
      locks := locks[l := Lock(true, me)];
      log := log + [Acquired(me, l)];
      return me;
    }

    method ReleaseLock(l: nat, ghost r: nat)
      requires Inv(View(), r) && l in locks
      modifies `ready, `queues, `locks, `log, threads
      ensures View() == Release(old(View()), r, l) && Inv(View(), r)
      ensures locks.Keys == old(locks).Keys && queues.Keys == old(queues).Keys
    {
      ghost var s := View();
      ReleaseKeeps(s, r, l);
      assert LockGood(s, l);
      var me := ThreadId(r);
      if locks[l].acquired && me == locks[l].owner {
        InvCanWake(View(), r, OnLock(l));
        locks := locks[l := Lock(false, me)];
        log := log + [Released(me, l)];
        forall t | t in QueueAt(View(), OnLock(l)) ensures StatusOf(View(), t).Some? {
          assert t in QueueAt(s, OnLock(l)) && StatusOf(s, t).Some?;
        }
        var count := Wakeup(OnLock(l), true, r);
      }
    }

    method WaitOnCv(c: nat, l: nat, ghost r: nat) returns (running: nat)
      requires Inv(View(), r) && l in locks && OnCv(c) in queues && CvWait(View(), r, c, l).Some?
      modifies `ready, `queues, `locks, `log, threads
      ensures View() == CvWait(old(View()), r, c, l).value.state && running == CvWait(old(View()), r, c, l).value.running
      ensures Inv(View(), running)
    {
      ReleaseKeeps(View(), r, l);
      var me := ThreadId(r);
      if locks[l].owner == me {
        ReleaseLock(l, r);
        if ready != [] {
          var ret;
          running, ret := SleepThread(OnCv(c), ToAcquire(l), r);
          return;
        }
      }
      running := AcquireLock(l, r);
    }

    method WakeCv(c: nat, l: nat, all: bool, ghost r: nat)
      requires Inv(View(), r) && l in locks && OnCv(c) in queues
      modifies `ready, `queues, threads
      ensures View() == CvWake(old(View()), r, c, l, all) && Inv(View(), r)
    {
      CvWakeKeeps(View(), r, c, l, all);
      var me := ThreadId(r);
      if locks[l].owner == me {
        InvCanWake(View(), r, OnCv(c));
        NoneWoken(View(), OnCv(c));
        var count := Wakeup(OnCv(c), all, r);
      }
    }

    /** What the running thread does first when it comes out of a sleep. */
    method FinishSleep(ghost r: nat) returns (running: nat)
      requires Inv(View(), r) && RestOf(View(), r) != ToUser
      requires RestOf(View(), r).ToAcquire? ==> RestOf(View(), r).lock in locks
      requires Resume(View(), r).Some?
      modifies `ready, `queues, `locks, `log, threads
      ensures View() == Resume(old(View()), r).value.state && running == Resume(old(View()), r).value.running
      ensures Inv(View(), running)
    {
      ResumeKeeps(View(), r);
      FreeExitedKeeps(View(), r);
      NoneExited(FreeExited(View()), r);
      InvHasQueues(r);
      var me := ThreadId(r);
      var rest := threads[me].value.rest;
      FreeFirstExited();
      InvHasQueues(r);
      if rest.ToAcquire? {
        running := AcquireLock(rest.lock, r);
      } else {
        SetStatus(me, RUNNING, ToUser);
        running := me;
      }
    }

    method KillThread(tid: int, ghost r: nat) returns (ret: int)
      requires Inv(View(), r)
      requires tid >= 0 ==> forall p | p in queues && !p.OnThread? :: tid !in queues[p]
      modifies `ready, `queues, threads
      ensures View() == Kill(old(View()), r, tid).state && ret == Kill(old(View()), r, tid).ret
      ensures Inv(View(), r)
    {
      KillKeeps(View(), r, tid);
      InvHasQueues(r);
      var me := ThreadId(r);
      if !(0 <= tid < threads.Length && threads[tid].Some? && tid != me) {
        return THREAD_INVALID;
      }
      MidKill(View(), r, tid);
      hide Inv, HaveQueues, CanWake, Woken, Forgotten;
      SetStatus(tid, EXITED, threads[tid].value.rest);
      ready := Delete(ready, tid);
      var count := Wakeup(OnThread(tid), true, r);
      DeleteFromAllQueues(tid);
      FreeFirstExited();
      return tid;
    }
  }

  /** Each thread in the table has a wait queue, and no other thread has. */
  ghost predicate HaveQueues(s: State) {
    forall t: nat :: OnThread(t) in s.queues <==> StatusOf(s, t).Some?
  }

  /** The threads in queue p exist. */
  ghost predicate CanWake(s: State, p: Place) {
    forall t | t in QueueAt(s, p) :: StatusOf(s, t).Some?
  }

  lemma InvCanWake(s: State, r: nat, p: Place)
    requires Inv(s, r)
    ensures CanWake(s, p)
  {
    forall t | t in QueueAt(s, p) ensures StatusOf(s, t).Some? {
      assert ThreadGood(s, r, t);
    }
  }

  /** In the middle of a kill: the threads waiting for the killed one can be woken, and all threads still have their queues. */
  lemma MidKill(s: State, r: nat, tid: nat)
    requires Inv(s, r) && StatusOf(s, tid).Some?
    ensures var s1 := WithStatus(s, tid, EXITED, RestOf(s, tid)).(ready := Without(s.ready, tid));
            CanWake(s1, OnThread(tid)) && HaveQueues(WokenAll(s1, OnThread(tid)))
  {
    var s1, p: Place := WithStatus(s, tid, EXITED, RestOf(s, tid)).(ready := Without(s.ready, tid)), OnThread(tid);
    InvCanWake(s, r, p);
    assert ThreadGood(s, r, tid);
    forall t | t in QueueAt(s1, p) ensures StatusOf(s1, t).Some? {
      assert t in QueueAt(s, p);
    }
    var s2 := WokenAll(s1, p);
    forall t: nat ensures OnThread(t) in s2.queues <==> StatusOf(s2, t).Some? {
      assert ThreadGood(s, r, t);
      SlotStatus(s, t);
      SlotStatus(s2, t);
    }
  }

  lemma SlotStatus(s: State, t: nat)
    ensures StatusOf(s, t).Some? <==> t < |s.threads| && s.threads[t].Some?
  {}

  /** The wait queues of the first n threads no longer list t. */
  ghost predicate PartlyForgotten(before: map<Place, seq<nat>>, after: map<Place, seq<nat>>, t: nat, n: nat) {
    && after.Keys == before.Keys
    && forall p | p in after :: after[p] == if p.OnThread? && p.tid < n then Without(before[p], t) else before[p]
  }

  lemma ForgetStep(before: map<Place, seq<nat>>, after: map<Place, seq<nat>>, t: nat, n: nat)
    requires PartlyForgotten(before, after, t, n)
    ensures var p := OnThread(n);
            PartlyForgotten(before, if p in after then after[p := Without(after[p], t)] else after, t, n + 1)
  {}

  lemma NoneWoken(s: State, p: Place)
    requires p in s.queues
    ensures Woken(s, p, 0) == s
  {
    assert AllReady(s.threads, []) == s.threads;
    assert s.queues[p][0..] == s.queues[p] && s.ready + [] == s.ready;
  }

  /** Waking one more thread. */
  lemma WokenMore(s: State, p: Place, k: nat)
    requires p in s.queues && k < |s.queues[p]| && StatusOf(s, s.queues[p][k]).Some?
    ensures var w := Woken(s, p, k);
            p in w.queues && w.queues[p] != [] && StatusOf(w, w.queues[p][0]).Some? && Woken(w, p, 1) == Woken(s, p, k + 1)
  {
    var w, q := Woken(s, p, k), s.queues[p];
    var t := q[k];
    assert w.queues[p] == q[k..] && q[k..][..1] == [t] && q[..k + 1] == q[..k] + [t] && q[k..][1..] == q[k + 1..];
    assert AllReady(w.threads, [t]) == AllReady(s.threads, q[..k + 1]);
    assert w.ready + [t] == s.ready + q[..k + 1];
  }
}
