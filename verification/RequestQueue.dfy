/** The circular buffer of connections between the accepting threads and the workers, as a monitor with two conditions. */
module RequestQueues {
  import opened Cyclic

  /** The buffer with its two indices and the number of connections in it. Only the first `size` cells are used. */
  datatype Ring = Ring(buffer: seq<int>, first: nat, last: nat, count: nat)

  ghost predicate Good(r: Ring, size: nat) {
    && 0 < size <= |r.buffer| && r.first < size && r.count <= size
    && r.last == Nth(r.first, r.count, size)
  }

  /** The waiting connections, oldest first. */
  ghost function Contents(r: Ring, size: nat): (q: seq<int>)
    requires Good(r, size)
    ensures |q| == r.count
  {
    seq(r.count, i requires 0 <= i < r.count => r.buffer[Nth(r.first, i, size)])
  }

  function Put(r: Ring, size: nat, fd: int): Ring
    requires r.last < |r.buffer| && size > 0
  {
    Ring(r.buffer[r.last := fd], r.first, (r.last + 1) % size, r.count + 1)
  }

  function Take(r: Ring, size: nat): (int, Ring)
    requires r.first < |r.buffer| && size > 0 && r.count > 0
  {
    (r.buffer[r.first], Ring(r.buffer, (r.first + 1) % size, r.last, r.count - 1))
  }

  /** A connection put into a buffer that is not full goes to the end and overwrites no other. */
  lemma PutAppends(r: Ring, size: nat, fd: int)
    requires Good(r, size) && r.count < size
    ensures Good(Put(r, size, fd), size) && Contents(Put(r, size, fd), size) == Contents(r, size) + [fd]
  {
    var r' := Put(r, size, fd);
    NthNext(r.first, r.count, size);
    forall i: nat | i < r.count ensures Nth(r.first, i, size) != r.last {
      NthInjective(r.first, i, r.count, size);
    }
    assert forall i | 0 <= i < r.count + 1 :: Contents(r', size)[i] == (Contents(r, size) + [fd])[i];
  }

  /** Taking from a buffer that is not empty yields the oldest connection. */
  lemma TakeOldest(r: Ring, size: nat)
    requires Good(r, size) && r.count > 0
    ensures var (fd, r') := Take(r, size); Good(r', size) && Contents(r, size) == [fd] + Contents(r', size)
  {
    var (fd, r') := Take(r, size);
    ModOf(r.first, 0, r.first, size);
    forall i: nat ensures Nth(r'.first, i, size) == Nth(r.first, i + 1, size) {
      NextThenNth(r.first, i, size);
    }
    assert forall i | 0 <= i < r.count :: Contents(r, size)[i] == ([fd] + Contents(r', size))[i];
  }

  lemma NextThenNth(first: nat, i: nat, size: nat)
    requires size > 0 && first < size
    ensures Nth((first + 1) % size, i, size) == Nth(first, i + 1, size)
  {
    var q, r := (first + 1 + i) / size, (first + 1 + i) % size;
    assert first + 1 + i == size * q + r;
    if first + 1 < size {
      ModOf(first + 1, 0, first + 1, size);
    } else {
      ModOf(first + 1, 1, 0, size);
      if q == 0 {
        assert false;
      } else {
        assert i == size * (q - 1) + r;
        ModOf(i, q - 1, r, size);
      }
    }
  }

  /** The buffer as the server keeps it. */
  class RequestBuffer {
    const size: nat
    const buffer: array<int>
    var first: nat
    var last: nat
    var count: nat

    ghost function View(): Ring
      reads this, buffer
    {
      Ring(buffer[..], first, last, count)
    }

    constructor (size: nat)
      requires size > 0
      ensures Good(View(), this.size) && this.size == size && Contents(View(), size) == [] && fresh(buffer)
    {
      this.size := size;
      buffer := new int[size + 1](_ => 0);
      first, last, count := 0, 0, 0;
      new;
      ModOf(0, 0, 0, size);
    }

    /** Puts a connection at the end; `wake` says whether to broadcast that the buffer is not empty any more. */
    method Send(fd: int) returns (wake: bool)
      requires Good(View(), size) && count < size
      modifies `last, `count, buffer
      ensures Good(View(), size) && View() == Put(old(View()), size, fd)
      ensures Contents(View(), size) == old(Contents(View(), size)) + [fd]
      ensures wake <==> old(Contents(View(), size)) == []
    {
      PutAppends(View(), size, fd);
      buffer[last] := fd;
      wake := count == 0;
      last := (last + 1) % size;
      count := count + 1;
    }

    /** Takes the oldest connection; `wake` says whether to broadcast that the buffer is not full any more. */
    method Receive() returns (fd: int, wake: bool)
      requires Good(View(), size) && count > 0
      modifies `first, `count
      ensures Good(View(), size) && (fd, View()) == Take(old(View()), size)
      ensures old(Contents(View(), size)) == [fd] + Contents(View(), size)
      ensures wake <==> |old(Contents(View(), size))| == size
    {
      TakeOldest(View(), size);
      fd := buffer[first];
      wake := count == size;
      first := (first + 1) % size;
      count := count - 1;
    }
  }

  // ---------------------------------------------------------------- the monitor

  /** A thread outside its critical section. Waiting threads have been on a condition since they last held the lock. */
  datatype Thread =
    | Sending(fd: int)
    | WaitingFull(fd: int)
    | Delivered(fd: int)
    | Asking
    | WaitingEmpty
    | Serving(fd: int)

  /** The buffer, the threads, and every connection sent and received so far. */
  datatype State = State(ring: Ring, threads: map<nat, Thread>, sent: seq<int>, received: seq<int>)

  /** All threads waiting until the buffer is not full contend for the lock again. */
  function WakeFull(threads: map<nat, Thread>): map<nat, Thread> {
    map t | t in threads :: if threads[t].WaitingFull? then Sending(threads[t].fd) else threads[t]
  }

  function WakeEmpty(threads: map<nat, Thread>): map<nat, Thread> {
    map t | t in threads :: if threads[t].WaitingEmpty? then Asking else threads[t]
  }

  /** The critical section of server_request: wait while the buffer is full, else send. */
  ghost predicate SendSection(size: nat, s: State, s': State, t: nat, fd: int) {
    if s.ring.count == size then
      s' == s.(threads := s.threads[t := WaitingFull(fd)])
    else
      && size > 0 && s.ring.last < |s.ring.buffer|
      && s' == State(Put(s.ring, size, fd),
                     (if s.ring.count == 0 then WakeEmpty(s.threads) else s.threads)[t := Delivered(fd)],
                     s.sent + [fd], s.received)
  }

  /** The critical section of a worker: wait while the buffer is empty, else receive. */
  ghost predicate ReceiveSection(size: nat, s: State, s': State, t: nat) {
    if s.ring.count == 0 then
      s' == s.(threads := s.threads[t := WaitingEmpty])
    else
      && size > 0 && s.ring.first < |s.ring.buffer|
      && var (fd, r) := Take(s.ring, size);
         s' == State(r, (if s.ring.count == size then WakeFull(s.threads) else s.threads)[t := Serving(fd)], s.sent, s.received + [fd])
  }

  /** One step of thread t. A waiting thread may also wake up without being signalled, and then waits or goes on. */
  ghost predicate Step(size: nat, s: State, s': State, t: nat) {
    if t !in s.threads then
      s' == s.(threads := s.threads[t := Asking]) || exists fd :: s' == s.(threads := s.threads[t := Sending(fd)])
    else match s.threads[t]
      case Sending(fd) => SendSection(size, s, s', t, fd)
      case WaitingFull(fd) => s' == s.(threads := s.threads[t := Sending(fd)])
      case Delivered(_) => false
      case Asking => ReceiveSection(size, s, s', t)
      case WaitingEmpty => s' == s.(threads := s.threads[t := Asking])
      case Serving(_) => s' == s.(threads := s.threads[t := Asking])
  }

  /** A thread that still waits has a reason to: no wakeup was lost. */
  ghost predicate WaitsRightly(size: nat, s: State, t: nat) {
    t in s.threads ==>
      && (s.threads[t].WaitingFull? ==> s.ring.count == size)
      && (s.threads[t].WaitingEmpty? ==> s.ring.count == 0)
  }

  ghost predicate Inv(size: nat, s: State) {
    && Good(s.ring, size)
    && s.sent == s.received + Contents(s.ring, size)
    && forall t: nat :: WaitsRightly(size, s, t)
  }

  lemma StepKeepsInv(size: nat, s: State, s': State, t: nat)
    requires Inv(size, s) && Step(size, s, s', t)
    ensures Inv(size, s')
  {
    if t in s.threads && s.threads[t].Sending? && s.ring.count < size {
      PutAppends(s.ring, size, s.threads[t].fd);
    }
    if t in s.threads && s.threads[t].Asking? && s.ring.count > 0 {
      TakeOldest(s.ring, size);
    }
    forall u: nat ensures WaitsRightly(size, s', u) {
      assert WaitsRightly(size, s, u);
    }
  }

  ghost predicate SomeStep(size: nat, s: State, s': State) {
    exists t: nat :: Step(size, s, s', t)
  }

  ghost predicate Follows(size: nat, states: seq<State>, i: nat) {
    i + 1 < |states| ==> SomeStep(size, states[i], states[i + 1])
  }

  /** A run of any number of threads from the empty buffer. */
  ghost predicate Run(size: nat, states: seq<State>) {
    && states != [] && 0 < size <= |states[0].ring.buffer|
    && states[0] == State(Ring(states[0].ring.buffer, 0, 0, 0), map[], [], [])
    && forall i: nat :: Follows(size, states, i)
  }

  /**
   * In every state of every run: connections are received in the order they were sent, each exactly once, except for
   * those still in the buffer; the indices agree with the count; and a thread waits only while its reason holds.
   */
  lemma {:induction false} QueueIsFifo(size: nat, states: seq<State>, i: nat)
    requires Run(size, states) && i < |states|
    ensures var s := states[i];
            && Inv(size, s)
            && s.received <= s.sent && |s.sent| - |s.received| == s.ring.count <= size
            && s.ring.last == (s.ring.first + s.ring.count) % size
            && (forall t | t in s.threads && s.threads[t].WaitingFull? :: s.ring.count == size)
            && (forall t | t in s.threads && s.threads[t].WaitingEmpty? :: s.ring.count == 0)
  {
    if i == 0 {
      ModOf(0, 0, 0, size);
    } else {
      QueueIsFifo(size, states, i - 1);
      assert Follows(size, states, i - 1);
      var t: nat :| Step(size, states[i - 1], states[i], t);
      StepKeepsInv(size, states[i - 1], states[i], t);
    }
    forall t: nat ensures WaitsRightly(size, states[i], t) {}
  }

  /** The two sides never wait for each other: while a sender waits, a worker that asks is served at once, and vice versa. */
  lemma NeverBothWait(size: nat, s: State, t: nat, u: nat)
    requires Inv(size, s) && t in s.threads && u in s.threads
    ensures !(s.threads[t].WaitingFull? && s.threads[u].WaitingEmpty?)
    ensures s.threads[t].WaitingFull? && s.threads[u].Asking? ==>
              exists s' :: Step(size, s, s', u) && s'.threads[u].Serving? && s'.threads[t].Sending?
    ensures s.threads[t].WaitingEmpty? && s.threads[u].Sending? ==>
              exists s' :: Step(size, s, s', u) && s'.threads[u].Delivered? && s'.threads[t].Asking?
  {
    assert WaitsRightly(size, s, t) && WaitsRightly(size, s, u);
    if s.threads[t].WaitingFull? && s.threads[u].Asking? {
      var (fd, r) := Take(s.ring, size);
      assert Step(size, s, State(r, WakeFull(s.threads)[u := Serving(fd)], s.sent, s.received + [fd]), u);
    }
    if s.threads[t].WaitingEmpty? && s.threads[u].Sending? {
      var fd := s.threads[u].fd;
      ModOf(s.ring.first, 0, s.ring.first, size);
      assert Step(size, s, State(Put(s.ring, size, fd), WakeEmpty(s.threads)[u := Delivered(fd)], s.sent + [fd], s.received), u);
    }
  }
}
