/** Requests going through the file cache, in any number and with their critical sections interleaved in any order. */
module CacheRuns {
  import opened Options
  import opened FileCaches

  /** The files of the server, which do not change; a name that is not in it cannot be read. */
  type Disk = map<Name, seq<schar>>

  /** Where the bytes to send are: in the cached file of a slot, or in a buffer of the request's own. */
  datatype Source = Shared(slot: nat) | Own(data: seq<schar>)

  /** How far a request has come. `pin` is the cached file it counts as using. */
  datatype Phase =
    | Parsed(name: Name)
    | Missed(name: Name)
    | Loaded(name: Name, data: seq<schar>)
    | Sending(name: Name, source: Source, pin: Option<nat>)
    | Sent(name: Name, reply: Option<seq<schar>>, pin: Option<nat>)
    | Done(name: Name, reply: Option<seq<schar>>)

  datatype State = State(cache: Cache, requests: map<nat, Phase>)

  /** The request path without a cache: read the file and send it, or give up. */
  function WithoutCache(disk: Disk, name: Name): Option<seq<schar>> {
    if name in disk then Some(disk[name]) else None
  }

  function Pin(p: Phase): Option<nat> {
    match p
    case Sending(_, _, pin) => pin
    case Sent(_, _, pin) => pin
    case _ => None
  }

  /** The bytes a request sends; None stands for memory that was freed meanwhile. */
  function BytesFrom(table: Table, source: Source): Option<seq<schar>> {
    match source
    case Own(data) => Some(data)
    case Shared(slot) => if slot < |table| && table[slot].Some? then Some(table[slot].value.data) else None
  }

  /** Request t, in phase p, takes its next step: each critical section is one step, and so is each thing done outside. */
  ghost predicate Advance(disk: Disk, max: int, s: State, s': State, t: nat, p: Phase) {
    match p
    case Parsed(name) =>
      && |s.cache.table| > 0 && Ends(s.cache.table, name)
      && var (c, slot) := Acquire(s.cache, name);
         s' == State(c, s.requests[t := if slot.Some? then Sending(name, Shared(slot.value), slot) else Missed(name)])
    case Missed(name) =>
      s' == State(s.cache, s.requests[t := if name in disk then Loaded(name, disk[name]) else Done(name, None)])
    case Loaded(name, data) =>
      && |s.cache.table| > 0 && Ends(s.cache.table, name)
      && var (c, slot) := Store(s.cache, max, name, data);
         var mine := slot.Some? && Lookup(s.cache.table, name).None?;
         s' == State(c, s.requests[t := Sending(name, if mine then Shared(slot.value) else Own(data), slot)])
    case Sending(name, source, pin) =>
      s' == State(s.cache, s.requests[t := Sent(name, BytesFrom(s.cache.table, source), pin)])
    case Sent(name, reply, pin) =>
      && (pin.Some? ==> pin.value < |s.cache.table| && s.cache.table[pin.value].Some? && s.cache.table[pin.value].value.active > 0)
      && s' == State(if pin.Some? then Released(s.cache, pin.value) else s.cache, s.requests[t := Done(name, reply)])
    case Done(_, _) => false
  }

  /** A request arrives, or one that has arrived advances. */
  ghost predicate Step(disk: Disk, max: int, s: State, s': State, t: nat) {
    if t in s.requests then Advance(disk, max, s, s', t, s.requests[t])
    else exists name :: s' == State(s.cache, s.requests[t := Parsed(name)])
  }

  // ---------------------------------------------------------------- the invariant

  ghost function Holders(requests: map<nat, Phase>, i: nat): set<nat> {
    set t | t in requests && Pin(requests[t]) == Some(i)
  }

  /** A cached file is what the disk holds, and is used by as many requests as it says. */
  ghost predicate SlotGood(disk: Disk, s: State, i: nat) {
    && Active(s.cache.table, i) == |Holders(s.requests, i)|
    && (i < |s.cache.table| && s.cache.table[i].Some? ==>
          WithoutCache(disk, s.cache.table[i].value.key) == Some(s.cache.table[i].value.data))
  }

  ghost predicate HasFile(table: Table, i: nat, name: Name) {
    i < |table| && table[i].Some? && table[i].value.key == name
  }

  /** What a request holds is there, and what it sends or has sent is right. */
  ghost predicate PhaseGood(disk: Disk, table: Table, p: Phase) {
    && (Pin(p).Some? ==> HasFile(table, Pin(p).value, p.name))
    && match p
       case Parsed(_) => true
       case Missed(_) => true
       case Loaded(name, data) => WithoutCache(disk, name) == Some(data)
       case Sending(name, Shared(slot), pin) => pin == Some(slot)
       case Sending(name, Own(data), pin) => WithoutCache(disk, name) == Some(data)
       case Sent(name, reply, pin) => WithoutCache(disk, name) == reply
       case Done(name, reply) => WithoutCache(disk, name) == reply
  }

  ghost predicate RequestGood(disk: Disk, s: State, t: nat) {
    t in s.requests ==> PhaseGood(disk, s.cache.table, s.requests[t])
  }

  ghost predicate Inv(disk: Disk, max: int, s: State) {
    && Valid(s.cache, max)
    && (forall i: nat :: SlotGood(disk, s, i))
    && (forall t: nat :: RequestGood(disk, s, t))
  }

  lemma HoldersAfter(requests: map<nat, Phase>, t: nat, p: Phase, i: nat)
    ensures |Holders(requests[t := p], i)| + (if t in requests && Pin(requests[t]) == Some(i) then 1 else 0)
            == |Holders(requests, i)| + (if Pin(p) == Some(i) then 1 else 0)
  {
    var before, after := Holders(requests, i), Holders(requests[t := p], i);
    var others := before - {t};
    assert before == if t in requests && Pin(requests[t]) == Some(i) then others + {t} else others;
    assert after == if Pin(p) == Some(i) then others + {t} else others;
  }

  /** Nobody's pinned file is evicted or replaced by a critical section. */
  lemma PinnedStays(disk: Disk, max: int, s: State, r: Cache, slot: Option<nat>, name: Name, data: seq<schar>, t: nat)
    requires Inv(disk, max, s) && Kept(s.cache, r, slot, name, data) && t in s.requests
    ensures PhaseGood(disk, r.table, s.requests[t])
  {
    var p := s.requests[t];
    assert RequestGood(disk, s, t);
    if Pin(p).Some? {
      var i := Pin(p).value;
      assert t in Holders(s.requests, i);
      assert SlotGood(disk, s, i) && SlotKept(s.cache.table, r.table, i, slot, name, data);
    }
  }

  /** A critical section that leaves request t using `slot` keeps the invariant. */
  lemma SectionKeepsInv(disk: Disk, max: int, s: State, r: Cache, slot: Option<nat>, name: Name, data: seq<schar>, t: nat, p: Phase)
    requires Inv(disk, max, s) && Kept(s.cache, r, slot, name, data) && Valid(r, max)
    requires t in s.requests && Pin(s.requests[t]) == None && Pin(p) == slot && PhaseGood(disk, r.table, p)
    requires slot.Some? ==> WithoutCache(disk, name) == Some(data)
    ensures Inv(disk, max, State(r, s.requests[t := p]))
  {
    var s' := State(r, s.requests[t := p]);
    forall i: nat ensures SlotGood(disk, s', i) {
      assert SlotGood(disk, s, i) && SlotKept(s.cache.table, r.table, i, slot, name, data);
      HoldersAfter(s.requests, t, p, i);
    }
    forall u: nat ensures RequestGood(disk, s', u) {
      if u in s.requests && u != t {
        PinnedStays(disk, max, s, r, slot, name, data, u);
      }
    }
  }

  /** A step outside the critical sections changes only its own request. */
  lemma LocalKeepsInv(disk: Disk, max: int, s: State, t: nat, p: Phase)
    requires Inv(disk, max, s) && PhaseGood(disk, s.cache.table, p)
    requires Pin(p) == if t in s.requests then Pin(s.requests[t]) else None
    ensures Inv(disk, max, State(s.cache, s.requests[t := p]))
  {
    var s' := State(s.cache, s.requests[t := p]);
    forall i: nat ensures SlotGood(disk, s', i) {
      assert SlotGood(disk, s, i);
      HoldersAfter(s.requests, t, p, i);
    }
    forall u: nat ensures RequestGood(disk, s', u) {
      assert RequestGood(disk, s, u);
    }
  }

  lemma ReleaseKeepsInv(disk: Disk, max: int, s: State, t: nat, i: nat, p: Phase)
    requires Inv(disk, max, s) && t in s.requests && Pin(s.requests[t]) == Some(i) && Pin(p) == None
    requires i < |s.cache.table| && s.cache.table[i].Some? && s.cache.table[i].value.active > 0
    requires PhaseGood(disk, s.cache.table, p)
    ensures Inv(disk, max, State(Released(s.cache, i), s.requests[t := p]))
  {
    var s' := State(Released(s.cache, i), s.requests[t := p]);
    ActiveKeepsValid(s.cache, max, i, s.cache.table[i].value.active - 1);
    forall j: nat ensures SlotGood(disk, s', j) {
      assert SlotGood(disk, s, j);
      HoldersAfter(s.requests, t, p, j);
    }
    forall u: nat ensures RequestGood(disk, s', u) {
      assert RequestGood(disk, s, u);
    }
  }

  lemma LookKeepsInv(disk: Disk, max: int, s: State, s': State, t: nat)
    requires Inv(disk, max, s) && t in s.requests && s.requests[t].Parsed? && Advance(disk, max, s, s', t, s.requests[t])
    ensures Inv(disk, max, s')
  {
    var name := s.requests[t].name;
    var (c, slot) := Acquire(s.cache, name);
    var data := if slot.Some? then s.cache.table[slot.value].value.data else [];
    assert slot.Some? ==> SlotGood(disk, s, slot.value);
    AcquireCorrect(s.cache, max, name, data);
    SectionKeepsInv(disk, max, s, c, slot, name, data, t, s'.requests[t]);
  }

  lemma OfferKeepsInv(disk: Disk, max: int, s: State, s': State, t: nat)
    requires Inv(disk, max, s) && t in s.requests && s.requests[t].Loaded? && Advance(disk, max, s, s', t, s.requests[t])
    ensures Inv(disk, max, s')
  {
    var Loaded(name, data) := s.requests[t];
    assert RequestGood(disk, s, t);
    StoreCorrect(s.cache, max, name, data);
    var (c, slot) := Store(s.cache, max, name, data);
    SectionKeepsInv(disk, max, s, c, slot, name, data, t, s'.requests[t]);
  }

  lemma StepKeepsInv(disk: Disk, max: int, s: State, s': State, t: nat)
    requires Inv(disk, max, s) && Step(disk, max, s, s', t)
    ensures Inv(disk, max, s')
  {
    if t !in s.requests {
      var name :| s' == State(s.cache, s.requests[t := Parsed(name)]);
      LocalKeepsInv(disk, max, s, t, Parsed(name));
    } else {
      assert RequestGood(disk, s, t);
      match s.requests[t]
      case Parsed(_) => LookKeepsInv(disk, max, s, s', t);
      case Loaded(_, _) => OfferKeepsInv(disk, max, s, s', t);
      case Missed(_) => LocalKeepsInv(disk, max, s, t, s'.requests[t]);
      case Sending(_, source, pin) =>
        if source.Shared? {
          assert SlotGood(disk, s, source.slot);
        }
        LocalKeepsInv(disk, max, s, t, s'.requests[t]);
      case Sent(_, _, pin) =>
        if pin.Some? {
          ReleaseKeepsInv(disk, max, s, t, pin.value, s'.requests[t]);
        } else {
          LocalKeepsInv(disk, max, s, t, s'.requests[t]);
        }
    }
  }

  // ---------------------------------------------------------------- what each step does

  /** How many steps a request has left at most. */
  function StepsLeft(p: Phase): nat {
    match p
    case Parsed(_) => 5
    case Missed(_) => 4
    case Loaded(_, _) => 3
    case Sending(_, _, _) => 2
    case Sent(_, _, _) => 1
    case Done(_, _) => 0
  }

  ghost predicate Cached(table: Table, name: Name)
    requires |table| > 0
  {
    exists slot: nat :: FoundAt(table, name, slot)
  }

  /** What a step does with request t, which goes from phase p to phase p'. */
  ghost predicate Does(disk: Disk, max: int, c: Cache, c': Cache, p: Phase, p': Phase)
    requires |c.table| > 0
  {
    match p
    case Parsed(name) =>
      if Cached(c.table, name) then
        p'.Sending? && p'.pin.Some? && p'.source == Shared(p'.pin.value) && FoundAt(c.table, name, p'.pin.value)
        && TookFile(c, c', p'.pin.value, name)
      else p' == Missed(name) && c' == c
    case Missed(name) => c' == c && if name in disk then p' == Loaded(name, disk[name]) else p' == Done(name, None)
    case Loaded(name, data) =>
      && p'.Sending? && Offered(c, c', p'.pin, max, name, data)
      && p'.source == if p'.pin.Some? && !Cached(c.table, name) then Shared(p'.pin.value) else Own(data)
    case Sending(name, _, pin) => c' == c && p' == Sent(name, WithoutCache(disk, name), pin)
    case Sent(name, reply, pin) => p' == Done(name, reply) && if pin.Some? then GaveBack(c, c', pin.value) else c' == c
    case Done(_, _) => false
  }

  /**
   * A request is served from the cache exactly if its file can be found there, and else the file it read is offered to the
   * cache. Every step brings a request nearer to its end, and changes no other request.
   */
  lemma StepDoes(disk: Disk, max: int, s: State, s': State, t: nat)
    requires Inv(disk, max, s) && Step(disk, max, s, s', t) && t in s.requests
    ensures t in s'.requests && s'.requests == s.requests[t := s'.requests[t]]
    ensures s'.requests[t].name == s.requests[t].name && StepsLeft(s'.requests[t]) < StepsLeft(s.requests[t])
    ensures Does(disk, max, s.cache, s'.cache, s.requests[t], s'.requests[t])
  {
    hide Valid, Acquire, Store, FoundAt, TookFile, Offered, Lookup, Ends;
    assert RequestGood(disk, s, t);
    match s.requests[t]
    case Parsed(name) =>
      AcquireDoes(s.cache, max, name);
      FoundIff(s.cache.table, name);
      assert Acquire(s.cache, name).1.Some? <==> Cached(s.cache.table, name);
    case Loaded(name, data) =>
      StoreDoes(s.cache, max, name, data);
      FoundIff(s.cache.table, name);
    case Sending(name, source, _) =>
      if source.Shared? {
        assert SlotGood(disk, s, source.slot);
      }
    case _ =>
  }

  // ---------------------------------------------------------------- whole runs

  ghost predicate Initial(s: State) {
    && s.requests == map[] && s.cache.queue == [] && s.cache.currSize == 0 && |s.cache.table| > 0
    && forall i | 0 <= i < |s.cache.table| :: s.cache.table[i] == None
  }

  ghost predicate SomeStep(disk: Disk, max: int, s: State, s': State) {
    exists t: nat :: Step(disk, max, s, s', t)
  }

  ghost predicate Follows(disk: Disk, max: int, states: seq<State>, i: nat) {
    i + 1 < |states| ==> SomeStep(disk, max, states[i], states[i + 1])
  }

  /** A run from the empty cache: at every step any one request arrives or advances. */
  ghost predicate Run(disk: Disk, max: int, states: seq<State>) {
    && states != [] && Initial(states[0])
    && forall i: nat :: Follows(disk, max, states, i)
  }

  lemma {:induction false} RunKeepsInv(disk: Disk, max: int, states: seq<State>, i: nat)
    requires Run(disk, max, states) && max >= 0 && i < |states|
    ensures Inv(disk, max, states[i])
  {
    if i == 0 {
      var s := states[0];
      forall j: nat ensures QueuedIffUsed(s.cache, j) && SlotGood(disk, s, j) && RequestGood(disk, s, j) {
        assert Holders(s.requests, j) == {};
      }
    } else {
      RunKeepsInv(disk, max, states, i - 1);
      assert Follows(disk, max, states, i - 1);
      var t: nat :| Step(disk, max, states[i - 1], states[i], t);
      StepKeepsInv(disk, max, states[i - 1], states[i], t);
    }
  }

  /**
   * The cache is transparent: in every state of every run, whatever the interleaving, a request that has finished replied
   * what it would have without a cache, and one about to send finds exactly those bytes (they were not evicted).
   */
  lemma CacheIsTransparent(disk: Disk, max: int, states: seq<State>, i: nat, t: nat)
    requires Run(disk, max, states) && max >= 0 && i < |states| && t in states[i].requests
    ensures var p := states[i].requests[t];
            && (p.Done? ==> p.reply == WithoutCache(disk, p.name))
            && (p.Sending? ==> BytesFrom(states[i].cache.table, p.source) == WithoutCache(disk, p.name) && p.name in disk)
  {
    RunKeepsInv(disk, max, states, i);
    assert RequestGood(disk, states[i], t);
    var p := states[i].requests[t];
    if p.Sending? && p.source.Shared? {
      assert SlotGood(disk, states[i], p.source.slot);
    }
  }

  /** In every state of every run, a cached file is in use by exactly as many requests as its count says. */
  lemma ActiveCountsHolders(disk: Disk, max: int, states: seq<State>, i: nat, slot: nat)
    requires Run(disk, max, states) && max >= 0 && i < |states|
    ensures var s := states[i];
            && Active(s.cache.table, slot) == |Holders(s.requests, slot)|
            && s.cache.currSize == Bytes(s.cache.table, s.cache.queue) <= max
  {
    RunKeepsInv(disk, max, states, i);
    assert SlotGood(disk, states[i], slot);
  }

  /** In every run a request is served from the cache exactly if its file can be found there, and every step does what it should. */
  lemma RunDoes(disk: Disk, max: int, states: seq<State>, i: nat, t: nat)
    requires Run(disk, max, states) && max >= 0 && i + 1 < |states|
    requires t in states[i].requests && Step(disk, max, states[i], states[i + 1], t)
    ensures |states[i].cache.table| > 0 && t in states[i + 1].requests
    ensures Does(disk, max, states[i].cache, states[i + 1].cache, states[i].requests[t], states[i + 1].requests[t])
    ensures StepsLeft(states[i + 1].requests[t]) < StepsLeft(states[i].requests[t])
  {
    hide Does, Step;
    RunKeepsInv(disk, max, states, i);
    StepDoes(disk, max, states[i], states[i + 1], t);
  }

  /** A request can always go on, except that a search for its name may never end. */
  lemma CanAdvanceIff(disk: Disk, max: int, s: State, t: nat)
    requires Inv(disk, max, s) && t in s.requests
    ensures var p := s.requests[t];
            (exists s' :: Step(disk, max, s, s', t)) <==> !p.Done? && ((p.Parsed? || p.Loaded?) ==> Ends(s.cache.table, p.name))
  {
    var p := s.requests[t];
    assert RequestGood(disk, s, t);
    match p
    case Parsed(name) =>
      if Ends(s.cache.table, name) {
        var (c, slot) := Acquire(s.cache, name);
        assert Step(disk, max, s, State(c, s.requests[t := if slot.Some? then Sending(name, Shared(slot.value), slot) else Missed(name)]),
                    t);
      }
    case Missed(name) =>
      assert Step(disk, max, s, State(s.cache, s.requests[t := if name in disk then Loaded(name, disk[name]) else Done(name, None)]), t);
    case Loaded(name, data) =>
      if Ends(s.cache.table, name) {
        var (c, slot) := Store(s.cache, max, name, data);
        var mine := slot.Some? && Lookup(s.cache.table, name).None?;
        assert Step(disk, max, s, State(c, s.requests[t := Sending(name, if mine then Shared(slot.value) else Own(data), slot)]), t);
      }
    case Sending(name, source, pin) =>
      assert Step(disk, max, s, State(s.cache, s.requests[t := Sent(name, BytesFrom(s.cache.table, source), pin)]), t);
    case Sent(name, reply, pin) =>
      if pin.Some? {
        assert SlotGood(disk, s, pin.value) && t in Holders(s.requests, pin.value);
      }
      assert Step(disk, max, s, State(if pin.Some? then Released(s.cache, pin.value) else s.cache, s.requests[t := Done(name, reply)]), t);
    case Done(_, _) =>
  }

  /** With only nonempty files, and more slots than bytes, no request ever gets stuck. */
  lemma NeverStuck(disk: Disk, max: int, s: State, t: nat)
    requires Inv(disk, max, s) && t in s.requests && !s.requests[t].Done?
    requires max < |s.cache.table| && forall name | name in disk :: disk[name] != []
    ensures exists s' :: Step(disk, max, s, s', t)
  {
    CanAdvanceIff(disk, max, s, t);
    forall i: nat | i < |s.cache.table| && s.cache.table[i].Some? ensures |s.cache.table[i].value.data| > 0 {
      assert SlotGood(disk, s, i);
    }
    SearchEnds(s.cache, max, s.requests[t].name);
  }
}
