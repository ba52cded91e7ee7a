/** When all files of the server fit into the cache together: nothing is ever evicted, and no file is missed once it was served. */
module CacheHits {
  import opened Cyclic
  import opened Options
  import opened Queues
  import opened FileCaches
  import opened CacheRuns

  // ---------------------------------------------------------------- the bytes of all files

  ghost function DiskBytes(disk: Disk): nat
    decreases |disk|
  {
    if disk == map[] then 0
    else
      var name :| name in disk;
      |disk[name]| + DiskBytes(disk - {name})
  }

  lemma {:induction false} DiskBytesWithout(disk: Disk, name: Name)
    requires name in disk
    ensures DiskBytes(disk) == |disk[name]| + DiskBytes(disk - {name})
    decreases |disk|
  {
    var first :| first in disk && DiskBytes(disk) == |disk[first]| + DiskBytes(disk - {first});
    if first != name {
      DiskBytesWithout(disk - {first}, name);
      DiskBytesWithout(disk - {name}, first);
      assert disk - {first} - {name} == disk - {name} - {first};
    }
  }

  /** Slot i holds a file of the disk. */
  ghost predicate HoldsFile(disk: Disk, table: Table, i: nat) {
    i < |table| && table[i].Some? && table[i].value.key in disk && disk[table[i].value.key] == table[i].value.data
  }

  /** Different files of the disk are no larger together than the disk. */
  lemma {:induction false} BytesFit(disk: Disk, table: Table, q: seq<nat>)
    requires UniqueKeys(table) && Distinct(q) && forall i | i in q :: HoldsFile(disk, table, i)
    ensures Bytes(table, q) <= DiskBytes(disk)
  {
    if q != [] {
      assert HoldsFile(disk, table, q[0]);
      var name := table[q[0]].value.key;
      DiskBytesWithout(disk, name);
      forall i | i in q[1..] ensures HoldsFile(disk - {name}, table, i) {
        assert HoldsFile(disk, table, i);
      }
      BytesFit(disk - {name}, table, q[1..]);
    }
  }

  // ---------------------------------------------------------------- the invariant

  /** The file in slot i can be found. */
  ghost predicate Reached(table: Table, i: nat)
    requires |table| > 0
  {
    i < |table| && table[i].Some? ==> FoundAt(table, table[i].value.key, i)
  }

  /** The request has what it asked for from the cache or the disk. */
  predicate Served(p: Phase) {
    p.Sending? || p.Sent? || (p.Done? && p.reply.Some?)
  }

  /** Every cached file can be found, under a name of its own, and every file that was served is cached. */
  ghost predicate Settled(s: State) {
    && |s.cache.table| > 0 && UniqueKeys(s.cache.table)
    && (forall i: nat :: Reached(s.cache.table, i))
    && (forall t | t in s.requests && Served(s.requests[t]) :: HasSlot(s.cache.table, s.requests[t].name))
  }

  /** All files of the first table are in the same slots of the second. */
  ghost predicate Grows(table: Table, table': Table) {
    && |table'| == |table|
    && forall i: nat | i < |table| && table[i].Some? :: table'[i].Some? && table'[i].value.key == table[i].value.key
  }

  lemma GrowsFound(table: Table, table': Table, name: Name, i: nat)
    requires Grows(table, table') && |table| > 0 && FoundAt(table, name, i)
    ensures FoundAt(table', name, i)
  {
    var d: nat :| Reaches(table, name, d) && i == Nth(Home(name, |table|), d, |table|) && forall e: nat | e < d :: !Reaches(table, name, e);
    forall e: nat | e <= d ensures Reaches(table', name, e) <==> Reaches(table, name, e) {
      GrowsReaches(table, table', name, d, e);
    }
  }

  /** Up to where a file is reached, the same files are reached after others were added. */
  lemma GrowsReaches(table: Table, table': Table, name: Name, d: nat, e: nat)
    requires Grows(table, table') && |table| > 0 && Reaches(table, name, d) && e <= d
    ensures Reaches(table', name, e) <==> Reaches(table, name, e)
  {
    hide Home, Nth;
    var home := Home(name, |table|);
    assert table[Nth(home, e, |table|)].Some?;
  }

  /** If nothing but the number of users changes, everything stays as settled as it was. */
  lemma SameFilesSettled(s: State, s': State, t: nat)
    requires Settled(s) && Grows(s.cache.table, s'.cache.table) && Grows(s'.cache.table, s.cache.table)
    requires t in s'.requests && s'.requests == s.requests[t := s'.requests[t]]
    requires Served(s'.requests[t]) ==> HasSlot(s.cache.table, s'.requests[t].name)
    ensures Settled(s')
  {
    forall i: nat ensures Reached(s'.cache.table, i) {
      assert Reached(s.cache.table, i);
      if i < |s'.cache.table| && s'.cache.table[i].Some? {
        GrowsFound(s.cache.table, s'.cache.table, s'.cache.table[i].value.key, i);
      }
    }
  }

  lemma SlotsCached(s: State)
    requires Settled(s)
    ensures forall name | HasSlot(s.cache.table, name) :: Cached(s.cache.table, name)
  {
    forall i: nat | i < |s.cache.table| && s.cache.table[i].Some? ensures Cached(s.cache.table, s.cache.table[i].value.key) {
      assert Reached(s.cache.table, i);
    }
  }

  /** A file that is not found is not cached, and then there is room for it. */
  lemma RoomForMissed(disk: Disk, max: int, s: State, name: Name)
    requires Inv(disk, max, s) && Settled(s) && DiskBytes(disk) <= max && name in disk && !Cached(s.cache.table, name)
    ensures !HasSlot(s.cache.table, name) && |disk[name]| <= max - s.cache.currSize
  {
    var c := s.cache;
    SlotsCached(s);
    forall i | i in c.queue ensures HoldsFile(disk - {name}, c.table, i) {
      assert QueuedIffUsed(c, i) && SlotGood(disk, s, i);
    }
    BytesFit(disk - {name}, c.table, c.queue);
    DiskBytesWithout(disk, name);
  }

  /** Caching a file for which there is room evicts nothing. */
  lemma AddedInRoom(c: Cache, r: Cache, slot: Option<nat>, victims: seq<nat>, max: int, name: Name, data: seq<schar>)
    requires Valid(c, max) && Added(c, r, slot, victims, max, name, data) && |data| <= max - c.currSize && !HasSlot(c.table, name)
    ensures victims == [] && slot.Some? && Grows(c.table, r.table) && FoundAt(r.table, name, slot.value)
    ensures forall i: nat | i < |r.table| && i != slot.value :: r.table[i] == c.table[i]
    ensures slot.value < |c.table| && c.table[slot.value].None?
  {
    BytesSplit(c.table, c.queue);
    assert Bytes(c.table, Evictable(c.table, c.queue)[..0]) == 0;
  }

  lemma OfferSettled(disk: Disk, max: int, s: State, s': State, t: nat)
    requires Inv(disk, max, s) && Settled(s) && DiskBytes(disk) <= max && Step(disk, max, s, s', t)
    requires t in s.requests && s.requests[t].Loaded?
    ensures Settled(s') && Grows(s.cache.table, s'.cache.table)
  {
    hide Inv, Valid, Step, Settled, HasSlot, UniqueKeys, Added, TookFile;
    StepDoes(disk, max, s, s', t);
    var Loaded(name, data) := s.requests[t];
    var c, c', slot := s.cache, s'.cache, s'.requests[t].pin;
    RightData(disk, max, s, t);
    if Cached(c.table, name) {
      var i: nat :| FoundAt(c.table, name, i);
      TookSettled(s, s', t, i);
    } else {
      RoomForMissed(disk, max, s, name);
      var victims :| Added(c, c', slot, victims, max, name, data);
      AddedInRoom(c, c', slot, victims, max, name, data);
      AddedSettled(s, s', t, slot.value);
    }
  }

  lemma RightData(disk: Disk, max: int, s: State, t: nat)
    requires Inv(disk, max, s) && t in s.requests && s.requests[t].Loaded?
    ensures s.requests[t].name in disk && disk[s.requests[t].name] == s.requests[t].data && Valid(s.cache, max)
  {
    assert RequestGood(disk, s, t);
  }

  lemma TookSettled(s: State, s': State, t: nat, i: nat)
    requires Settled(s) && t in s'.requests && s'.requests == s.requests[t := s'.requests[t]]
    requires FoundAt(s.cache.table, s'.requests[t].name, i) && TookFile(s.cache, s'.cache, i, s'.requests[t].name)
    ensures Settled(s') && Grows(s.cache.table, s'.cache.table)
  {
    SameFilesSettled(s, s', t);
  }

  lemma AddedSettled(s: State, s': State, t: nat, slot: nat)
    requires Settled(s) && t in s'.requests && s'.requests == s.requests[t := s'.requests[t]]
    requires Grows(s.cache.table, s'.cache.table) && !HasSlot(s.cache.table, s'.requests[t].name)
    requires FoundAt(s'.cache.table, s'.requests[t].name, slot) && slot < |s.cache.table| && s.cache.table[slot].None?
    requires forall i: nat | i < |s.cache.table| && i != slot :: s'.cache.table[i] == s.cache.table[i]
    ensures Settled(s')
  {
    var table, table' := s.cache.table, s'.cache.table;
    forall i: nat ensures Reached(table', i) {
      assert Reached(table, i);
      if i < |table'| && table'[i].Some? && i != slot {
        GrowsFound(table, table', table[i].value.key, i);
      }
    }
  }

  lemma StepKeepsSettled(disk: Disk, max: int, s: State, s': State, t: nat)
    requires Inv(disk, max, s) && Settled(s) && DiskBytes(disk) <= max && Step(disk, max, s, s', t)
    ensures Settled(s') && Grows(s.cache.table, s'.cache.table)
  {
    if t !in s.requests {
      SameFilesSettled(s, s', t);
    } else if s.requests[t].Loaded? {
      OfferSettled(disk, max, s, s', t);
    } else {
      StepDoes(disk, max, s, s', t);
      SameFilesSettled(s, s', t);
    }
  }

  // ---------------------------------------------------------------- whole runs

  lemma {:induction false} RunSettled(disk: Disk, max: int, states: seq<State>, i: nat)
    requires Run(disk, max, states) && max >= 0 && i < |states| && DiskBytes(disk) <= max
    ensures Settled(states[i])
  {
    if i > 0 {
      RunSettled(disk, max, states, i - 1);
      RunKeepsInv(disk, max, states, i - 1);
      assert Follows(disk, max, states, i - 1);
      var t: nat :| Step(disk, max, states[i - 1], states[i], t);
      StepKeepsSettled(disk, max, states[i - 1], states[i], t);
    }
  }

  /** If all files fit into the cache together, then in every run a cached file stays where it is: nothing is ever evicted. */
  lemma {:induction false} NothingEvicted(disk: Disk, max: int, states: seq<State>, i: nat, j: nat)
    requires Run(disk, max, states) && max >= 0 && i <= j < |states| && DiskBytes(disk) <= max
    ensures Grows(states[i].cache.table, states[j].cache.table)
    decreases j - i
  {
    if i < j {
      NothingEvicted(disk, max, states, i, j - 1);
      RunSettled(disk, max, states, j - 1);
      RunKeepsInv(disk, max, states, j - 1);
      assert Follows(disk, max, states, j - 1);
      var t: nat :| Step(disk, max, states[j - 1], states[j], t);
      StepKeepsSettled(disk, max, states[j - 1], states[j], t);
    }
  }

  lemma ServedIsCached(s: State, s': State, t: nat)
    requires Settled(s) && Settled(s') && Grows(s.cache.table, s'.cache.table) && t in s.requests && Served(s.requests[t])
    ensures Cached(s'.cache.table, s.requests[t].name)
  {
    SlotsCached(s');
    var i :| 0 <= i < |s.cache.table| && s.cache.table[i].Some? && s.cache.table[i].value.key == s.requests[t].name;
    assert s'.cache.table[i].Some?;
  }

  /**
   * If all files fit into the cache together, then in every run, once a request for a file was served, each later request
   * for it, u, is served from the cache.
   */
  lemma ServedOnceHitsAlways(disk: Disk, max: int, states: seq<State>, i: nat, j: nat, t: nat, u: nat)
    requires Run(disk, max, states) && max >= 0 && i <= j && j + 1 < |states| && DiskBytes(disk) <= max
    requires t in states[i].requests && Served(states[i].requests[t])
    requires u in states[j].requests && states[j].requests[u] == Parsed(states[i].requests[t].name)
    requires Step(disk, max, states[j], states[j + 1], u)
    ensures var p := states[j + 1].requests[u]; p.Sending? && p.source.Shared?
  {
    hide Inv, Run, Step, Settled, Cached, HasSlot;
    NothingEvicted(disk, max, states, i, j);
    RunSettled(disk, max, states, i);
    RunSettled(disk, max, states, j);
    RunKeepsInv(disk, max, states, j);
    ServedIsCached(states[i], states[j], t);
    StepDoes(disk, max, states[j], states[j + 1], u);
  }
}
