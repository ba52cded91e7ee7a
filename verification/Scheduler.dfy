/**
 * The state of the user-level thread library and the effect of each call on it, between two points where interrupts
 * are on. A call that switches threads has its effect up to the switch; what the thread has left to do is recorded.
 */
module Schedulers {
  import opened Options
  import opened Queues

  type Positive = n: nat | n > 0 witness 1

  /** How many threads there can be; nothing depends on its value. */
  const MAX_THREADS: Positive
  const THREAD_ANY: int := -1
  const THREAD_SELF: int := -2
  const THREAD_INVALID: int := -3
  const THREAD_NONE: int := -4
  const THREAD_NOMORE: int := -5

  datatype Status = RUNNING | READY | BLOCKED | EXITED

  /** What a thread does when it runs next: nothing special, finish a sleep, or finish a sleep and try to take a lock. */
  datatype Rest = ToUser | AfterSleep | ToAcquire(lock: nat)

  datatype Thread = Thread(id: nat, status: Status, rest: Rest)

  /** The wait queues: one for each thread, lock and condition variable, and those created by user code. */
  datatype Place = OnThread(tid: nat) | OnLock(lock: nat) | OnCv(cv: nat) | OnUser(nr: nat)

  /** `owner` is the last thread that took the lock; it is not set before the first one, and not reset on release. */
  datatype Lock = Lock(acquired: bool, owner: int)

  datatype LockEvent = Acquired(tid: nat, lock: nat) | Released(tid: nat, lock: nat)

  /** `log` records the calls that took or gave back a lock. */
  datatype State = State(threads: seq<Option<Thread>>, ready: seq<nat>, queues: map<Place, seq<nat>>, locks: map<nat, Lock>,
                         log: seq<LockEvent>)

  /** The effect of a call: the new state, the thread that runs then, and what the call returns when it does. */
  datatype Outcome = Outcome(state: State, running: nat, ret: int)

  function StatusOf(s: State, t: nat): Option<Status> {
    if t < |s.threads| && s.threads[t].Some? then Some(s.threads[t].value.status) else None
  }

  function RestOf(s: State, t: nat): Rest {
    if t < |s.threads| && s.threads[t].Some? then s.threads[t].value.rest else ToUser
  }

  function QueueAt(s: State, p: Place): seq<nat> {
    if p in s.queues then s.queues[p] else []
  }

  function WithStatus(s: State, t: nat, status: Status, rest: Rest): (r: State)
    ensures r == s.(threads := r.threads) && |r.threads| == |s.threads|
  {
    if StatusOf(s, t) == None then s
    else s.(threads := s.threads[t := Some(s.threads[t].value.(status := status, rest := rest))])
  }

  // ---------------------------------------------------------------- reclaiming

  /** The first slot from i on with an exited thread, or the number of slots. */
  function FirstExited(threads: seq<Option<Thread>>, i: nat): (j: nat)
    requires i <= |threads|
    ensures i <= j <= |threads|
    ensures j < |threads| ==> threads[j].Some? && threads[j].value.status == EXITED
    ensures forall k | i <= k < j :: !(threads[k].Some? && threads[k].value.status == EXITED)
    decreases |threads| - i
  {
    if i == |threads| || (threads[i].Some? && threads[i].value.status == EXITED) then i else FirstExited(threads, i + 1)
  }

  /** Frees thread i and its wait queue, whoever still waits there. */
  function Reclaimed(s: State, i: nat): State
    requires i < |s.threads|
  {
    s.(threads := s.threads[i := None], ready := Without(s.ready, i), queues := s.queues - {OnThread(i)})
  }

  /** Frees one exited thread, if there is one. */
  function FreeExited(s: State): (r: State)
    ensures |r.threads| == |s.threads|
  {
    var i := FirstExited(s.threads, 0);
    if i < |s.threads| then Reclaimed(s, i) else s
  }

  /** The first slot from i on that a new thread can take. */
  function FirstFree(threads: seq<Option<Thread>>, i: nat): (j: nat)
    requires i <= |threads|
    ensures i <= j <= |threads|
    ensures j < |threads| ==> threads[j].None? || threads[j].value.status == EXITED
    ensures forall k | i <= k < j :: threads[k].Some? && threads[k].value.status != EXITED
    decreases |threads| - i
  {
    if i == |threads| || threads[i].None? || threads[i].value.status == EXITED then i else FirstFree(threads, i + 1)
  }

  // ---------------------------------------------------------------- waking

  /** The listed threads made ready. */
  function AllReady(threads: seq<Option<Thread>>, ts: seq<nat>): (r: seq<Option<Thread>>)
    ensures |r| == |threads|
    ensures forall i: nat | i < |threads| ::
              r[i] == if i in ts && threads[i].Some? then Some(threads[i].value.(status := READY)) else threads[i]
  {
    seq(|threads|, i requires 0 <= i < |threads| =>
      if i in ts && threads[i].Some? then Some(threads[i].value.(status := READY)) else threads[i])
  }

  /** Moves the first n threads waiting in a queue to the end of the ready queue, in order. */
  function Woken(s: State, p: Place, n: nat): (r: State)
    requires n <= |QueueAt(s, p)|
    ensures |r.threads| == |s.threads|
  {
    if p !in s.queues then s
    else s.(threads := AllReady(s.threads, s.queues[p][..n]), ready := s.ready + s.queues[p][..n],
            queues := s.queues[p := s.queues[p][n..]])
  }

  function WokenAll(s: State, p: Place): State {
    Woken(s, p, |QueueAt(s, p)|)
  }

  function WokenOne(s: State, p: Place): State {
    Woken(s, p, if QueueAt(s, p) == [] then 0 else 1)
  }

  // ---------------------------------------------------------------- switching

  /** Thread r stops running with the given status, put into a wait queue if there is one, and thread n of the ready queue runs. */
  function Switched(s: State, r: nat, n: nat, status: Status, rest: Rest, place: Option<Place>): State {
    var queues := if place.Some? && place.value in s.queues then s.queues[place.value := s.queues[place.value] + [r]] else s.queues;
    var ready := Without(s.ready, n) + (if status == READY then [r] else []);
    WithStatus(WithStatus(s, n, RUNNING, RestOf(s, n)), r, status, rest).(ready := ready, queues := queues)
  }

  /** Deletes t from the wait queues of all threads. */
  function Forgotten(s: State, t: nat): State {
    s.(queues := map p | p in s.queues :: if p.OnThread? then Without(s.queues[p], t) else s.queues[p])
  }

  // ---------------------------------------------------------------- calls on threads

  function Create(s: State, r: nat): Outcome {
    var id := FirstFree(s.threads, 0);
    if id == |s.threads| then Outcome(s, r, THREAD_NOMORE)
    else Outcome(s.(threads := s.threads[id := Some(Thread(id, READY, ToUser))], ready := s.ready + [id],
                    queues := s.queues[OnThread(id) := []]), r, id)
  }

  function Yield(s: State, r: nat, want: int): Outcome {
    var s1 := FreeExited(s);
    if want == THREAD_SELF || want == r then Outcome(s1, r, r)
    else if want == THREAD_ANY then
      if s1.ready == [] then Outcome(s1, r, THREAD_NONE) else YieldTo(s1, r, s1.ready[0])
    else if 0 <= want < |s1.threads| && StatusOf(s1, want) == Some(READY) then YieldTo(s1, r, want)
    else Outcome(s1, r, THREAD_INVALID)
  }

  /** The second half of a yield frees exited threads once more before it switches. */
  function YieldTo(s: State, r: nat, n: nat): Outcome {
    Outcome(Switched(FreeExited(s.(ready := Without(s.ready, n))), r, n, READY, ToUser, None), n, n)
  }

  /** Sleeping on a queue fails if no other thread is ready. */
  function Sleep(s: State, r: nat, p: Place, rest: Rest): Outcome {
    if s.ready == [] then Outcome(s, r, THREAD_NONE)
    else Outcome(Switched(s, r, s.ready[0], BLOCKED, rest, Some(p)), s.ready[0], s.ready[0])
  }

  function Wakeup(s: State, r: nat, p: Place, all: bool): Outcome {
    if QueueAt(s, p) == [] then Outcome(s, r, 0)
    else if all then Outcome(WokenAll(s, p), r, |QueueAt(s, p)|)
    else Outcome(WokenOne(s, p), r, 1)
  }

  predicate CanTarget(s: State, r: nat, tid: int) {
    0 <= tid < |s.threads| && s.threads[tid].Some? && tid != r
  }

  function Wait(s: State, r: nat, tid: int): Outcome {
    if !CanTarget(s, r, tid) then Outcome(s, r, THREAD_INVALID)
    else Sleep(s, r, OnThread(tid), AfterSleep).(ret := tid)
  }

  /** Exiting wakes the threads that wait for r. None when the program ends, because no thread is left to run. */
  function Exit(s: State, r: nat): Option<Outcome> {
    var s1 := WokenAll(Forgotten(FreeExited(s), r), OnThread(r));
    if s1.ready == [] then None
    else Some(Outcome(Switched(s1, r, s1.ready[0], EXITED, ToUser, None), s1.ready[0], THREAD_NONE))
  }

  function Kill(s: State, r: nat, tid: int): Outcome {
    if !CanTarget(s, r, tid) then Outcome(s, r, THREAD_INVALID)
    else Outcome(FreeExited(Killed(s, tid)), r, tid)
  }

  function Killed(s: State, tid: nat): State {
    var s1 := WithStatus(s, tid, EXITED, RestOf(s, tid));
    Forgotten(WokenAll(s1.(ready := Without(s1.ready, tid)), OnThread(tid)), tid)
  }

  // ---------------------------------------------------------------- locks and condition variables

  /** Takes the lock if it is free, else sleeps on it. None when no thread is ready: the loop then spins forever. */
  function Acquire(s: State, r: nat, l: nat): Option<Outcome>
    requires l in s.locks
  {
    if !s.locks[l].acquired then
      Some(Outcome(WithStatus(s, r, RUNNING, ToUser).(locks := s.locks[l := Lock(true, r)], log := s.log + [Acquired(r, l)]), r, 0))
    else if s.ready == [] then None
    else Some(Sleep(s, r, OnLock(l), ToAcquire(l)))
  }

  function Release(s: State, r: nat, l: nat): State
    requires l in s.locks
  {
    if s.locks[l].acquired && s.locks[l].owner == r then
      WokenAll(s.(locks := s.locks[l := Lock(false, r)], log := s.log + [Released(r, l)]), OnLock(l))
    else s
  }

  /** Gives the lock back and sleeps, unless r is not the last to have taken it; in the end it takes the lock. */
  function CvWait(s: State, r: nat, c: nat, l: nat): Option<Outcome>
    requires l in s.locks
  {
    if s.locks[l].owner != r then Acquire(s, r, l)
    else
      var s1 := Release(s, r, l);
      if s1.ready == [] then Acquire(s1, r, l)
      else Some(Sleep(s1, r, OnCv(c), ToAcquire(l)))
  }

  function CvWake(s: State, r: nat, c: nat, l: nat, all: bool): State
    requires l in s.locks
  {
    if s.locks[l].owner == r then (if all then WokenAll(s, OnCv(c)) else WokenOne(s, OnCv(c))) else s
  }

  /** What a thread does first when it runs again after a sleep. */
  function Resume(s: State, r: nat): Option<Outcome>
    requires RestOf(s, r).ToAcquire? ==> RestOf(s, r).lock in s.locks
  {
    match RestOf(s, r)
    case ToUser => None
    case AfterSleep => Some(Outcome(WithStatus(FreeExited(s), r, RUNNING, ToUser), r, 0))
    case ToAcquire(l) => Acquire(FreeExited(s), r, l)
  }
}
