/** The web server's file cache: an open-addressing table, a queue of its slots in order of use, and the bytes it holds. */
module FileCaches {
  import opened Cyclic
  import opened Options
  import opened Queues

  /** A signed C character. */
  newtype schar = x: int | -128 <= x < 128

  type Name = seq<schar>

  /** A cached file, with the number of requests that are using it. */
  datatype Entry = Entry(key: Name, data: seq<schar>, active: nat)

  type Table = seq<Option<Entry>>

  /** The value of a cache between two critical sections. */
  datatype Cache = Cache(table: Table, queue: seq<nat>, currSize: int)

  // ---------------------------------------------------------------- probing

  const WORD64: nat := 0x1_0000_0000_0000_0000

  /** The djb2 hash, in 64-bit arithmetic. */
  function Hash(name: Name): (h: nat)
    ensures h < WORD64
  {
    if name == [] then 5381
    else (33 * Hash(name[..|name| - 1]) + name[|name| - 1] as int) % WORD64
  }

  function Home(name: Name, size: nat): (i: nat)
    requires size > 0
    ensures i < size
  {
    Hash(name) % size
  }

  /** Where probing stops: at an empty slot, or at an entry with that name. */
  predicate Stops(table: Table, name: Name, i: nat)
    requires i < |table|
  {
    table[i].None? || table[i].value.key == name
  }

  /** Probing for `name` from slot i stops after passing d slots. */
  ghost predicate StopsAfter(table: Table, name: Name, i: nat, d: nat)
    requires |table| > 0
  {
    && d < |table| && Stops(table, name, Nth(i, d, |table|))
    && forall e: nat | e < d :: !Stops(table, name, Nth(i, e, |table|))
  }

  /** Whether probing ends at all. If it does not, the loop in the code runs forever. */
  ghost predicate Ends(table: Table, name: Name)
    requires |table| > 0
  {
    exists d: nat :: StopsAfter(table, name, Home(name, |table|), d)
  }

  /** Probing ends exactly if some slot is empty or holds the name. */
  lemma EndsIff(table: Table, name: Name)
    requires |table| > 0
    ensures Ends(table, name) <==> exists i: nat | i < |table| :: Stops(table, name, i)
  {
    var home := Home(name, |table|);
    if i: nat :| i < |table| && Stops(table, name, i) {
      NthCovers(home, i, |table|);
      var d: nat :| d < |table| && Nth(home, d, |table|) == i;
      FirstStop(table, name, home, d);
    }
  }

  lemma {:induction false} FirstStop(table: Table, name: Name, i: nat, d: nat)
    requires d < |table| && Stops(table, name, Nth(i, d, |table|))
    ensures exists d': nat :: d' <= d && StopsAfter(table, name, i, d')
  {
    if e: nat :| e < d && Stops(table, name, Nth(i, e, |table|)) {
      FirstStop(table, name, i, e);
    } else {
      assert StopsAfter(table, name, i, d);
    }
  }

  lemma StopUnique(table: Table, name: Name, i: nat, d: nat, d': nat)
    requires |table| > 0 && StopsAfter(table, name, i, d) && StopsAfter(table, name, i, d')
    ensures d == d'
  {
    if d < d' {
      assert false;
    }
  }

  /** The slot where probing for a name stops. */
  ghost function Probe(table: Table, name: Name): (s: nat)
    requires |table| > 0 && Ends(table, name)
    ensures s < |table| && Stops(table, name, s)
  {
    var d: nat :| StopsAfter(table, name, Home(name, |table|), d);
    Nth(Home(name, |table|), d, |table|)
  }

  lemma ProbeIs(table: Table, name: Name, d: nat)
    requires |table| > 0 && StopsAfter(table, name, Home(name, |table|), d)
    ensures Ends(table, name) && Probe(table, name) == Nth(Home(name, |table|), d, |table|)
  {
    var d': nat :| StopsAfter(table, name, Home(name, |table|), d') && Probe(table, name) == Nth(Home(name, |table|), d', |table|);
    StopUnique(table, name, Home(name, |table|), d, d');
  }

  /** The home slot of a name that probing finds somewhere is occupied. */
  lemma HomeOccupied(table: Table, name: Name)
    requires |table| > 0 && Ends(table, name)
    ensures table[Probe(table, name)].Some? ==> table[Home(name, |table|)].Some?
    ensures table[Probe(table, name)].None? ==> Probe(table, name) == Home(name, |table|) || table[Home(name, |table|)].Some?
  {
    var home := Home(name, |table|);
    var d: nat :| StopsAfter(table, name, home, d) && Probe(table, name) == Nth(home, d, |table|);
    ModOf(home, 0, home, |table|);
    if d > 0 {
      assert !Stops(table, name, Nth(home, 0, |table|));
    }
  }

  /**
   * If probing stops at an empty slot, then after any slots are emptied it still does, at the same slot or before:
   * an insertion after an eviction finds an empty slot and replaces no entry.
   */
  lemma EvictionKeepsMiss(table: Table, table': Table, name: Name)
    requires |table| == |table'| > 0 && Ends(table, name) && table[Probe(table, name)].None?
    requires forall i: nat | i < |table| :: table'[i] == table[i] || table'[i].None?
    ensures Ends(table', name) && table'[Probe(table', name)].None?
  {
    var home := Home(name, |table|);
    var d: nat :| StopsAfter(table, name, home, d) && Probe(table, name) == Nth(home, d, |table|);
    FirstStop(table', name, home, d);
    var d': nat :| d' <= d && StopsAfter(table', name, home, d');
    ProbeIs(table', name, d');
    if d' < d {
      assert !Stops(table, name, Nth(home, d', |table|));
    }
  }

  /** The slot that holds a name, as far as probing can tell. */
  ghost function Lookup(table: Table, name: Name): (slot: Option<nat>)
    requires |table| > 0 && Ends(table, name)
    ensures slot.Some? ==> slot.value < |table| && table[slot.value].Some? && table[slot.value].value.key == name
  {
    if table[Probe(table, name)].Some? then Some(Probe(table, name)) else None
  }

  /** The name is d slots after its home and no slot in between is empty. */
  ghost predicate Reaches(table: Table, name: Name, d: nat)
    requires |table| > 0
  {
    var home := Home(name, |table|);
    && d < |table| && table[Nth(home, d, |table|)].Some? && table[Nth(home, d, |table|)].value.key == name
    && forall e: nat | e < d :: table[Nth(home, e, |table|)].Some?
  }

  /** Slot s is the first from the home of the name on that holds it, and no slot in between is empty. */
  ghost predicate FoundAt(table: Table, name: Name, s: nat)
    requires |table| > 0
  {
    exists d: nat ::
      Reaches(table, name, d) && s == Nth(Home(name, |table|), d, |table|) && forall e: nat | e < d :: !Reaches(table, name, e)
  }

  /** A cached file is found exactly if no slot between its home and its own was emptied. */
  lemma FoundIff(table: Table, name: Name)
    requires |table| > 0 && Ends(table, name)
    ensures Lookup(table, name).Some? <==> exists d: nat :: Reaches(table, name, d)
    ensures forall s: nat :: Lookup(table, name) == Some(s) <==> FoundAt(table, name, s)
  {
    var home := Home(name, |table|);
    var d: nat :| StopsAfter(table, name, home, d) && Probe(table, name) == Nth(home, d, |table|);
    if Lookup(table, name).Some? {
      forall e: nat | e < d ensures table[Nth(home, e, |table|)].Some? && !Reaches(table, name, e) {
        assert !Stops(table, name, Nth(home, e, |table|));
      }
      assert Reaches(table, name, d);
    } else if d': nat :| Reaches(table, name, d') {
      FirstStop(table, name, home, d');
    }
  }

  /** A file put where probing for it stops is found there. */
  lemma FilledIsFound(table: Table, name: Name, e: Entry)
    requires |table| > 0 && Ends(table, name) && table[Probe(table, name)].None? && e.key == name
    ensures FoundAt(table[Probe(table, name) := Some(e)], name, Probe(table, name))
  {
    var s, home := Probe(table, name), Home(name, |table|);
    var table' := table[s := Some(e)];
    var d: nat :| StopsAfter(table, name, home, d) && s == Nth(home, d, |table|);
    forall k: nat | k < d ensures table'[Nth(home, k, |table|)].Some? && !Reaches(table', name, k) {
      assert !Stops(table, name, Nth(home, k, |table|));
    }
    assert Reaches(table', name, d);
  }

  predicate HasSlot(table: Table, name: Name) {
    exists i | 0 <= i < |table| :: table[i].Some? && table[i].value.key == name
  }

  // ---------------------------------------------------------------- the queue

  /** The queue with i moved, or added, to its end. */
  function Touched(q: seq<nat>, i: nat): seq<nat> {
    Without(q, i) + [i]
  }

  lemma TouchedMembers(q: seq<nat>, i: nat)
    requires Distinct(q) && i in q
    ensures Distinct(Touched(q, i)) && forall x :: x in Touched(q, i) <==> x in q
  {
    WithoutMembers(q, i);
  }

  /** The size of the file in slot i, 0 for an empty slot. */
  function SizeAt(table: Table, i: nat): nat {
    if i < |table| && table[i].Some? then |table[i].value.data| else 0
  }

  /** The bytes held by the listed slots. */
  function Bytes(table: Table, q: seq<nat>): nat {
    if q == [] then 0 else SizeAt(table, q[0]) + Bytes(table, q[1..])
  }

  lemma {:induction false} BytesConcat(table: Table, a: seq<nat>, b: seq<nat>)
    ensures Bytes(table, a + b) == Bytes(table, a) + Bytes(table, b)
  {
    if a == [] {
      assert a + b == b;
    } else {
      assert (a + b)[1..] == a[1..] + b;
      BytesConcat(table, a[1..], b);
    }
  }

  lemma {:induction false} BytesWithout(table: Table, q: seq<nat>, i: nat)
    requires i in q
    ensures Bytes(table, Without(q, i)) == Bytes(table, q) - SizeAt(table, i)
  {
    if q[0] != i {
      BytesWithout(table, q[1..], i);
      assert Without(q, i)[1..] == Without(q[1..], i);
    }
  }

  lemma {:induction false} BytesSame(table: Table, table': Table, q: seq<nat>)
    requires forall i | i in q :: SizeAt(table', i) == SizeAt(table, i)
    ensures Bytes(table', q) == Bytes(table, q)
  {
    if q != [] {
      BytesSame(table, table', q[1..]);
    }
  }

  // ---------------------------------------------------------------- the invariant

  ghost predicate QueuedIffUsed(c: Cache, i: nat) {
    i in c.queue <==> i < |c.table| && c.table[i].Some?
  }

  /** The queue lists every occupied slot exactly once, and the sizes add up to no more than the limit. */
  ghost predicate Valid(c: Cache, max: int) {
    && |c.table| > 0 && Distinct(c.queue)
    && (forall i: nat :: QueuedIffUsed(c, i))
    && c.currSize == Bytes(c.table, c.queue) <= max
  }

  /** Moving an occupied slot to the end of the queue keeps the invariant, whichever slot it is. */
  lemma TouchKeepsValid(c: Cache, max: int, i: nat)
    requires Valid(c, max) && i < |c.table| && c.table[i].Some?
    ensures Valid(c.(queue := Touched(c.queue, i)), max)
  {
    assert QueuedIffUsed(c, i);
    TouchedMembers(c.queue, i);
    BytesConcat(c.table, Without(c.queue, i), [i]);
    BytesWithout(c.table, c.queue, i);
    var c' := c.(queue := Touched(c.queue, i));
    forall j: nat ensures QueuedIffUsed(c', j) {
      assert QueuedIffUsed(c, j);
    }
  }

  /** Changing how many requests use an entry keeps the invariant. */
  lemma ActiveKeepsValid(c: Cache, max: int, i: nat, active: nat)
    requires Valid(c, max) && i < |c.table| && c.table[i].Some?
    ensures Valid(c.(table := c.table[i := Some(c.table[i].value.(active := active))]), max)
  {
    var c' := c.(table := c.table[i := Some(c.table[i].value.(active := active))]);
    BytesSame(c.table, c'.table, c.queue);
    forall j: nat ensures QueuedIffUsed(c', j) {
      assert QueuedIffUsed(c, j);
    }
  }

  // ---------------------------------------------------------------- eviction

  predicate Unpinned(table: Table, i: nat) {
    i < |table| && table[i].Some? && table[i].value.active == 0
  }

  /** The slots of the queue that no request is using, in order. */
  function Evictable(table: Table, q: seq<nat>): seq<nat> {
    if q == [] then [] else (if Unpinned(table, q[0]) then [q[0]] else []) + Evictable(table, q[1..])
  }

  /** The slots of the queue that some request is using, in order. */
  function Pinned(table: Table, q: seq<nat>): seq<nat> {
    if q == [] then [] else (if Unpinned(table, q[0]) then [] else [q[0]]) + Pinned(table, q[1..])
  }

  /** The table with slot i empty. */
  function Emptied(table: Table, i: nat): (t: Table)
    ensures |t| == |table|
  {
    if i < |table| then table[i := None] else table
  }

  /** The cache without the file in slot i. */
  function Removed(c: Cache, i: nat): Cache {
    Cache(Emptied(c.table, i), Without(c.queue, i), c.currSize - SizeAt(c.table, i))
  }

  function RemovedAll(c: Cache, slots: seq<nat>): Cache
    decreases |slots|
  {
    if slots == [] then c else RemovedAll(Removed(c, slots[0]), slots[1..])
  }

  /** Goes along the rest of the queue, removing unpinned files, until n bytes fit. */
  function LruDelete(c: Cache, rest: seq<nat>, max: int, n: int): (r: Cache)
    ensures |r.table| == |c.table|
    ensures forall i | 0 <= i < |c.table| :: r.table[i] == c.table[i] || (r.table[i].None? && Unpinned(c.table, i))
    decreases |rest|
  {
    if rest == [] || max - c.currSize >= n then c
    else LruDelete(if Unpinned(c.table, rest[0]) then Removed(c, rest[0]) else c, rest[1..], max, n)
  }

  /** Tries to make room for n bytes. */
  function Evict(c: Cache, max: int, n: int): (r: (Cache, bool)) {
    if n > max then (c, false)
    else if n <= max - c.currSize then (c, true)
    else if c.queue == [] then (c, false)
    else var r := LruDelete(c, c.queue, max, n); (r, max - r.currSize >= n)
  }

  lemma RemovedKeepsValid(c: Cache, max: int, i: nat)
    requires Valid(c, max) && i < |c.table| && c.table[i].Some?
    ensures Valid(Removed(c, i), max)
  {
    var c' := Removed(c, i);
    assert QueuedIffUsed(c, i);
    WithoutMembers(c.queue, i);
    BytesWithout(c.table, c.queue, i);
    BytesSame(c.table, c'.table, c'.queue);
    forall j: nat ensures QueuedIffUsed(c', j) {
      assert QueuedIffUsed(c, j);
    }
  }

  /** The first k evictable files are what must go to make room for n bytes: with fewer removed they do not fit. */
  ghost predicate ShortestPrefix(c: Cache, victims: seq<nat>, max: int, n: int, k: nat) {
    && k <= |victims|
    && (forall j | 0 <= j < k :: max - (c.currSize - Bytes(c.table, victims[..j])) < n)
    && (k < |victims| ==> max - (c.currSize - Bytes(c.table, victims[..k])) >= n)
  }

  lemma {:induction false} EvictableMembers(table: Table, q: seq<nat>)
    requires Distinct(q)
    ensures Distinct(Evictable(table, q))
    ensures forall i :: i in Evictable(table, q) <==> i in q && Unpinned(table, i)
  {
    if q != [] {
      EvictableMembers(table, q[1..]);
      assert forall i :: i in q <==> i == q[0] || i in q[1..];
    }
  }

  lemma {:induction false} EvictableElsewhere(table: Table, q: seq<nat>, i: nat)
    requires i !in q
    ensures Evictable(Emptied(table, i), q) == Evictable(table, q)
    ensures Bytes(Emptied(table, i), q) == Bytes(table, q)
  {
    if q != [] {
      EvictableElsewhere(table, q[1..], i);
    }
  }

  lemma NoBytes(table: Table, q: seq<nat>)
    ensures q == [] ==> Bytes(table, q) == 0
  {}

  /** How much is left once i and then j victims are gone. */
  lemma LeftAfter(c: Cache, i: nat, victims: seq<nat>, j: nat)
    requires i !in victims && j <= |victims|
    ensures c.currSize - Bytes(c.table, ([i] + victims)[..j + 1]) == Removed(c, i).currSize - Bytes(Removed(c, i).table, victims[..j])
  {
    assert ([i] + victims)[..j + 1][1..] == victims[..j];
    EvictableElsewhere(c.table, victims[..j], i);
  }

  /** If k further victims are the shortest prefix once i is gone, then with i they are before. */
  lemma PrefixStep(c: Cache, i: nat, victims: seq<nat>, max: int, n: int, k: nat)
    requires i !in victims && max - c.currSize < n
    requires ShortestPrefix(Removed(c, i), victims, max, n, k)
    ensures ShortestPrefix(c, [i] + victims, max, n, k + 1)
    ensures RemovedAll(c, ([i] + victims)[..k + 1]) == RemovedAll(Removed(c, i), victims[..k])
  {
    hide Bytes, Removed;
    var c', all := Removed(c, i), [i] + victims;
    forall j | 0 <= j < k + 1 ensures max - (c.currSize - Bytes(c.table, all[..j])) < n {
      if j > 0 {
        LeftAfter(c, i, victims, j - 1);
        assert max - (c'.currSize - Bytes(c'.table, victims[..j - 1])) < n;
      } else {
        NoBytes(c.table, all[..0]);
      }
    }
    LeftAfter(c, i, victims, k);
    assert all[..k + 1][1..] == victims[..k];
  }

  /** Eviction removes exactly the shortest prefix of unpinned files that makes room, or all of them. */
  lemma {:induction false} DeletesShortestPrefix(c: Cache, rest: seq<nat>, max: int, n: int) returns (k: nat)
    requires Distinct(rest)
    ensures ShortestPrefix(c, Evictable(c.table, rest), max, n, k)
    ensures LruDelete(c, rest, max, n) == RemovedAll(c, Evictable(c.table, rest)[..k])
    decreases |rest|
  {
    if rest == [] || max - c.currSize >= n {
      k := 0;
      assert Evictable(c.table, rest)[..0] == [];
    } else {
      var i, tail := rest[0], rest[1..];
      if Unpinned(c.table, i) {
        EvictableElsewhere(c.table, tail, i);
        EvictableMembers(c.table, tail);
        k := DeletesShortestPrefix(Removed(c, i), tail, max, n);
        PrefixStep(c, i, Evictable(c.table, tail), max, n, k);
        k := k + 1;
      } else {
        k := DeletesShortestPrefix(c, tail, max, n);
      }
    }
  }

  /** The queue without the listed slots. */
  function Minus(q: seq<nat>, slots: seq<nat>): seq<nat> {
    if q == [] then [] else (if q[0] in slots then [] else [q[0]]) + Minus(q[1..], slots)
  }

  lemma {:induction false} MinusWithout(q: seq<nat>, i: nat, slots: seq<nat>)
    requires Distinct(q)
    ensures Minus(Without(q, i), slots) == Minus(q, [i] + slots)
  {
    if q != [] {
      MinusWithout(q[1..], i, slots);
      if q[0] == i {
        MinusAbsent(q[1..], i, slots);
      } else {
        assert Without(q, i)[1..] == Without(q[1..], i);
      }
    }
  }

  lemma {:induction false} MinusAbsent(q: seq<nat>, i: nat, slots: seq<nat>)
    requires i !in q
    ensures Minus(q, [i] + slots) == Minus(q, slots)
  {
    if q != [] {
      MinusAbsent(q[1..], i, slots);
    }
  }

  lemma {:induction false} MinusNone(q: seq<nat>)
    ensures Minus(q, []) == q
  {
    if q != [] {
      MinusNone(q[1..]);
    }
  }

  /** Removing a list of files empties exactly their slots and keeps the rest of the queue in order. */
  lemma {:induction false} RemovedAllIs(c: Cache, max: int, slots: seq<nat>)
    requires Valid(c, max) && Distinct(slots) && forall i | i in slots :: i in c.queue
    ensures var r := RemovedAll(c, slots);
            && Valid(r, max) && |r.table| == |c.table| && r.queue == Minus(c.queue, slots)
            && (forall i: nat | i < |c.table| :: r.table[i] == if i in slots then None else c.table[i])
            && r.currSize == c.currSize - Bytes(c.table, slots)
    decreases |slots|
  {
    if slots == [] {
      MinusNone(c.queue);
    } else {
      var i, tail := slots[0], slots[1..];
      assert QueuedIffUsed(c, i);
      RemovedKeepsValid(c, max, i);
      WithoutMembers(c.queue, i);
      RemovedAllIs(Removed(c, i), max, tail);
      assert [i] + tail == slots;
      MinusWithout(c.queue, i, tail);
      EvictableElsewhere(c.table, tail, i);
    }
  }

  lemma {:induction false} BytesSplit(table: Table, q: seq<nat>)
    ensures Bytes(table, q) == Bytes(table, Evictable(table, q)) + Bytes(table, Pinned(table, q))
  {
    if q != [] {
      BytesSplit(table, q[1..]);
      BytesConcat(table, if Unpinned(table, q[0]) then [q[0]] else [], Evictable(table, q[1..]));
      BytesConcat(table, if Unpinned(table, q[0]) then [] else [q[0]], Pinned(table, q[1..]));
    }
  }

  /** What eviction does to a valid cache: the shortest prefix of unpinned files in queue order goes, and nothing else changes. */
  lemma EvictRemoves(c: Cache, max: int, n: int) returns (victims: seq<nat>)
    requires Valid(c, max)
    ensures var r := Evict(c, max, n).0;
            && Valid(r, max) && r == RemovedAll(c, victims) && r.queue == Minus(c.queue, victims)
            && r.currSize == c.currSize - Bytes(c.table, victims)
            && (forall i: nat | i < |c.table| :: r.table[i] == if i in victims then None else c.table[i])
    ensures |victims| <= |Evictable(c.table, c.queue)| && victims == Evictable(c.table, c.queue)[..|victims|]
    ensures if n <= max then ShortestPrefix(c, Evictable(c.table, c.queue), max, n, |victims|) else victims == []
    ensures Evict(c, max, n).1 <==> n <= max - Evict(c, max, n).0.currSize
  {
    var all := Evictable(c.table, c.queue);
    EvictableMembers(c.table, c.queue);
    var k := DeletesShortestPrefix(c, c.queue, max, n);
    victims := if n > max then [] else all[..k];
    RemovedAllIs(c, max, victims);
    NoBytes(c.table, all[..0]);
  }

  /** Room for n bytes can be made exactly if the files in use leave that much. */
  lemma EvictSucceedsIff(c: Cache, max: int, n: int)
    requires Valid(c, max)
    ensures Evict(c, max, n).1 <==> n <= max - Bytes(c.table, Pinned(c.table, c.queue))
  {
    var all := Evictable(c.table, c.queue);
    var victims := EvictRemoves(c, max, n);
    BytesSplit(c.table, c.queue);
    BytesConcat(c.table, victims, all[|victims|..]);
    assert victims + all[|victims|..] == all;
  }

  // ---------------------------------------------------------------- the critical sections of a request

  ghost function Insert(c: Cache, max: int, name: Name, data: seq<schar>): (r: (Cache, Option<nat>))
    requires |c.table| > 0 && Ends(c.table, name)
  {
    if Lookup(c.table, name).Some? then (c, Lookup(c.table, name))
    else
      var (evicted, ok) := Evict(c, max, |data|);
      if !ok then (evicted, None)
      else
        EvictionKeepsMiss(c.table, evicted.table, name);
        var s := Probe(evicted.table, name);
        (Cache(evicted.table[s := Some(Entry(name, data, 0))], evicted.queue + [s], evicted.currSize + |data|), Some(s))
  }

  /** A request takes the file in slot s, and its home slot becomes the most recently used. */
  function Used(c: Cache, s: nat, name: Name): Cache
    requires s < |c.table| && c.table[s].Some?
  {
    Cache(c.table[s := Some(c.table[s].value.(active := c.table[s].value.active + 1))], Touched(c.queue, Home(name, |c.table|)), c.currSize)
  }

  /** Looks a file up and takes it if it is there. */
  ghost function Acquire(c: Cache, name: Name): (Cache, Option<nat>)
    requires |c.table| > 0 && Ends(c.table, name)
  {
    match Lookup(c.table, name)
    case None => (c, None)
    case Some(s) => (Used(c, s, name), Some(s))
  }

  /** Offers a file that was just read to the cache, and takes the cached one if it is there or fits. */
  ghost function Store(c: Cache, max: int, name: Name, data: seq<schar>): (Cache, Option<nat>)
    requires |c.table| > 0 && Ends(c.table, name)
  {
    var (r, slot) := Insert(c, max, name, data);
    match slot
    case None => (r, None)
    case Some(s) => (Used(r, s, name), Some(s))
  }

  /** A request is done with the file in slot s. */
  function Released(c: Cache, s: nat): Cache
    requires s < |c.table| && c.table[s].Some? && c.table[s].value.active > 0
  {
    c.(table := c.table[s := Some(c.table[s].value.(active := c.table[s].value.active - 1))])
  }

  /** The file in slot s has one user less, and nothing else has changed. */
  ghost predicate GaveBack(c: Cache, r: Cache, s: nat) {
    && |r.table| == |c.table| && s < |c.table| && r.queue == c.queue && r.currSize == c.currSize
    && c.table[s].Some? && r.table[s].Some? && r.table[s].value == c.table[s].value.(active := r.table[s].value.active)
    && Active(r.table, s) + 1 == Active(c.table, s)
    && (forall i: nat | i < |c.table| && i != s :: r.table[i] == c.table[i])
  }

  /** How many requests use the file in slot i. */
  function Active(table: Table, i: nat): nat {
    if i < |table| && table[i].Some? then table[i].value.active else 0
  }

  /** Slot i of the two tables holds the same file, or was given up while nobody used it, or took in the named file. */
  ghost predicate SlotKept(table: Table, table': Table, i: nat, slot: Option<nat>, name: Name, data: seq<schar>)
    requires |table'| == |table|
  {
    i < |table| ==>
      && Active(table', i) == Active(table, i) + (if slot == Some(i) then 1 else 0)
      && (table'[i].None? ==> table[i].None? || Active(table, i) == 0)
      && (table'[i].Some? ==>
            || (table[i].Some? && table'[i].value.key == table[i].value.key && table'[i].value.data == table[i].value.data)
            || (slot == Some(i) && Active(table, i) == 0 && table'[i].value.key == name && table'[i].value.data == data))
  }

  /** A critical section keeps every file that is in use, and returns a slot with the file asked for. */
  ghost predicate Kept(c: Cache, r: Cache, slot: Option<nat>, name: Name, data: seq<schar>) {
    && |r.table| == |c.table|
    && (forall i: nat :: SlotKept(c.table, r.table, i, slot, name, data))
    && (slot.Some? ==> slot.value < |r.table| && r.table[slot.value].Some? && r.table[slot.value].value.key == name)
  }

  /** Taking a file keeps the cache valid although it is the home slot that moves in the queue, because that one is occupied too. */
  lemma UsedKeepsValid(c: Cache, max: int, s: nat, name: Name)
    requires Valid(c, max) && s < |c.table| && c.table[s].Some? && c.table[Home(name, |c.table|)].Some?
    ensures Valid(Used(c, s, name), max)
  {
    TouchKeepsValid(c, max, Home(name, |c.table|));
    ActiveKeepsValid(c.(queue := Touched(c.queue, Home(name, |c.table|))), max, s, c.table[s].value.active + 1);
  }

  /** The file in slot s has one user more, its home slot is last in the queue, and nothing else has changed. */
  ghost predicate TookFile(c: Cache, r: Cache, s: nat, name: Name)
    requires |c.table| > 0
  {
    && |r.table| == |c.table| && s < |c.table| && c.table[s].Some? && r.currSize == c.currSize
    && r.table[s] == Some(c.table[s].value.(active := c.table[s].value.active + 1))
    && (forall i: nat | i < |c.table| && i != s :: r.table[i] == c.table[i])
    && MovedToEnd(c.queue, r.queue, Home(name, |c.table|))
  }

  lemma UsedDoes(c: Cache, max: int, s: nat, name: Name)
    requires Valid(c, max) && s < |c.table| && c.table[s].Some? && c.table[Home(name, |c.table|)].Some?
    ensures TookFile(c, Used(c, s, name), s, name)
  {
    assert QueuedIffUsed(c, Home(name, |c.table|));
    WithoutThenEnd(c.queue, Home(name, |c.table|));
  }

  /** A request takes the file it asks for exactly if that can be found, and else leaves the cache alone. */
  lemma AcquireDoes(c: Cache, max: int, name: Name)
    requires Valid(c, max) && Ends(c.table, name)
    ensures var (r, slot) := Acquire(c, name);
            && (slot.Some? <==> exists d: nat :: Reaches(c.table, name, d)) && (slot.None? ==> r == c)
            && (slot.Some? ==> FoundAt(c.table, name, slot.value) && TookFile(c, r, slot.value, name))
  {
    hide Hash, Home, Used, Touched, Reaches, Stops, StopsAfter;
    HomeOccupied(c.table, name);
    FoundIff(c.table, name);
    var slot := Lookup(c.table, name);
    if slot.Some? {
      assert FoundAt(c.table, name, slot.value);
      UsedDoes(c, max, slot.value, name);
    }
  }

  lemma AcquireCorrect(c: Cache, max: int, name: Name, data: seq<schar>)
    requires Valid(c, max) && Ends(c.table, name)
    ensures var (r, slot) := Acquire(c, name); Valid(r, max) && Kept(c, r, slot, name, data)
    ensures Acquire(c, name).1.None? ==> Acquire(c, name).0 == c
  {
    HomeOccupied(c.table, name);
    var slot := Lookup(c.table, name);
    if slot.Some? {
      UsedKeepsValid(c, max, slot.value, name);
    }
    var r := Acquire(c, name).0;
    forall i: nat ensures SlotKept(c.table, r.table, i, slot, name, data) {}
  }

  /** Insertion fills one empty slot and queues it, after evicting what must go, and only if the name was not found. */
  lemma InsertCorrect(c: Cache, max: int, name: Name, data: seq<schar>)
    requires Valid(c, max) && Ends(c.table, name)
    ensures var (r, slot) := Insert(c, max, name, data);
            && Valid(r, max)
            && (slot.Some? ==> slot.value < |r.table| && r.table[slot.value].Some? && r.table[slot.value].value.key == name
                               && r.table[Home(name, |c.table|)].Some?)
            && |r.table| == |c.table|
            && (forall i: nat | i < |c.table| :: r.table[i] == c.table[i]
                  || (r.table[i].None? && Unpinned(c.table, i))
                  || (slot == Some(i) && Active(c.table, i) == 0 && r.table[i] == Some(Entry(name, data, 0))))
            && (slot.None? <==> Lookup(c.table, name).None? && |data| > max - Bytes(c.table, Pinned(c.table, c.queue)))
            && (slot.Some? && Lookup(c.table, name).None? ==> r.queue == Evict(c, max, |data|).0.queue + [slot.value])
  {
    hide Bytes, Pinned, Evict, Hash, Stops, Distinct, QueuedIffUsed;
    HomeOccupied(c.table, name);
    EvictSafe(c, max, |data|);
    if Lookup(c.table, name).None? {
      var (evicted, ok) := Evict(c, max, |data|);
      if ok {
        EvictionKeepsMiss(c.table, evicted.table, name);
        HomeOccupied(evicted.table, name);
        InsertKeepsValid(evicted, max, Probe(evicted.table, name), Entry(name, data, 0));
      }
    }
  }

  /** Eviction keeps the cache valid and touches only files that nobody uses. */
  lemma EvictSafe(c: Cache, max: int, n: int)
    requires Valid(c, max)
    ensures var (r, ok) := Evict(c, max, n);
            && Valid(r, max) && |r.table| == |c.table| && (ok ==> r.currSize + n <= max)
            && (forall i: nat | i < |c.table| :: r.table[i] == c.table[i] || (r.table[i].None? && Unpinned(c.table, i)))
            && (ok <==> n <= max - Bytes(c.table, Pinned(c.table, c.queue)))
  {
    var victims := EvictRemoves(c, max, n);
    EvictSucceedsIff(c, max, n);
    EvictableMembers(c.table, c.queue);
  }

  lemma InsertKeepsValid(c: Cache, max: int, s: nat, e: Entry)
    requires Valid(c, max) && s < |c.table| && c.table[s].None? && c.currSize + |e.data| <= max
    ensures Valid(Cache(c.table[s := Some(e)], c.queue + [s], c.currSize + |e.data|), max)
  {
    var r := Cache(c.table[s := Some(e)], c.queue + [s], c.currSize + |e.data|);
    assert QueuedIffUsed(c, s);
    BytesConcat(r.table, c.queue, [s]);
    BytesSame(c.table, r.table, c.queue);
    forall i: nat ensures QueuedIffUsed(r, i) {
      assert QueuedIffUsed(c, i);
    }
  }

  // ---------------------------------------------------------------- files that are there and not found

  /** No two slots hold files of the same name. */
  predicate UniqueKeys(table: Table) {
    forall i, j | 0 <= i < |table| && 0 <= j < |table| && table[i].Some? && table[j].Some? && table[i].value.key == table[j].value.key ::
      i == j
  }

  /** Caching a file that was not found keeps the names unique exactly if the file really is not in the table once room was made. */
  lemma UniqueAfterInsert(c: Cache, max: int, name: Name, data: seq<schar>)
    requires Valid(c, max) && Ends(c.table, name) && UniqueKeys(c.table)
    requires Lookup(c.table, name) == None && Insert(c, max, name, data).1.Some?
    ensures UniqueKeys(Insert(c, max, name, data).0.table) <==> !HasSlot(Evict(c, max, |data|).0.table, name)
  {
    hide Evict, Hash, Stops, Distinct, QueuedIffUsed;
    var evicted := Evict(c, max, |data|).0;
    EvictSafe(c, max, |data|);
    EvictionKeepsMiss(c.table, evicted.table, name);
    var s, r := Probe(evicted.table, name), Insert(c, max, name, data).0;
    assert r.table == evicted.table[s := Some(Entry(name, data, 0))];
    if i: nat :| i < |evicted.table| && evicted.table[i].Some? && evicted.table[i].value.key == name {
      assert r.table[i].value.key == r.table[s].value.key && i != s;
    }
  }

  lemma ProbeAt(table: Table, name: Name, home: nat, d: nat)
    requires |table| == 2 && home == Home(name, 2) && d < 2 && StopsAfter(table, name, home, d)
    ensures Ends(table, name) && Probe(table, name) == Nth(home, d, 2)
  {
    ProbeIs(table, name, d);
  }

  /** The names [3] and [5] have the same home in a table of two. */
  lemma SameHome()
    ensures Home([3], 2) == Home([5], 2) == 0 && Nth(0, 0, 2) == 0 && Nth(0, 1, 2) == 1
  {
    var a: Name, b: Name := [3], [5];
    assert a[..0] == b[..0] == [];
    assert Hash([]) == 5381 && Hash(a) == 177576 && Hash(b) == 177578;
  }

  /**
   * A file can be in the cache and not be found. Two files with the same home are cached in an empty table of two;
   * making room for one byte evicts the first; then the second is there, but probing for it stops at the emptied home
   * slot. Caching it again puts the same name in the table twice.
   */
  lemma FalseMiss(x: schar, y: schar) returns (c0: Cache, c1: Cache, c2: Cache, c3: Cache, c4: Cache)
    ensures c0 == Cache([None, None], [], 0) && Valid(c0, 2) && Ends(c0.table, [5])
    ensures c1 == Insert(c0, 2, [5], [x]).0 && Ends(c1.table, [3])
    ensures c2 == Insert(c1, 2, [3], [y]).0 && Valid(c2, 2) && UniqueKeys(c2.table)
    ensures (c3, true) == Evict(c2, 2, 1) && Valid(c3, 2) && HasSlot(c3.table, [3]) && Ends(c3.table, [3])
    ensures Lookup(c3.table, [3]) == None
    ensures c4 == Insert(c3, 2, [3], [y]).0 && Valid(c4, 2) && c4.table == [Some(Entry([3], [y], 0)), Some(Entry([3], [y], 0))]
  {
    hide Hash, Home, Nth, Lookup, Probe, Insert, Valid;
    c0, c1, c2 := TwoCached(x, y);
    SameHome();
    EvictFirst(c2);
    EvictSafe(c2, 2, 1);
    c3 := Evict(c2, 2, 1).0;
    assert c3.table[1].value.key == [3];
    assert StopsAfter(c3.table, [3], 0, 0);
    ProbeAt(c3.table, [3], 0, 0);
    InsertAt(c3, 2, [3], [y], 0);
    c4 := Insert(c3, 2, [3], [y]).0;
  }

  /** Two files with the same home, cached in an empty table of two. */
  lemma TwoCached(x: schar, y: schar) returns (c0: Cache, c1: Cache, c2: Cache)
    ensures c0 == Cache([None, None], [], 0) && Valid(c0, 2) && Ends(c0.table, [5])
    ensures c1 == Insert(c0, 2, [5], [x]).0 && Ends(c1.table, [3])
    ensures c2 == Insert(c1, 2, [3], [y]).0 && Valid(c2, 2)
    ensures c2 == Cache([Some(Entry([5], [x], 0)), Some(Entry([3], [y], 0))], [0, 1], 2)
  {
    c0 := Cache([None, None], [], 0);
    forall i: nat ensures QueuedIffUsed(c0, i) {}
    hide Hash, Home, Nth, Lookup, Probe, Insert, Valid;
    SameHome();
    assert StopsAfter(c0.table, [5], 0, 0);
    ProbeAt(c0.table, [5], 0, 0);
    InsertAt(c0, 2, [5], [x], 0);
    c1 := Insert(c0, 2, [5], [x]).0;
    assert c1.table == [Some(Entry([5], [x], 0)), None] && c1.queue == [0];
    assert StopsAfter(c1.table, [3], 0, 1);
    ProbeAt(c1.table, [3], 0, 1);
    InsertAt(c1, 2, [3], [y], 1);
    c2 := Insert(c1, 2, [3], [y]).0;
    assert c2.table == [Some(Entry([5], [x], 0)), Some(Entry([3], [y], 0))] && c2.queue == [0, 1];
  }

  lemma EvictFirst(c: Cache)
    requires |c.table| == 2 && c.table[0].Some? && c.table[0].value.active == 0 && |c.table[0].value.data| == 1
    requires c.queue == [0, 1] && c.currSize == 2
    ensures Evict(c, 2, 1) == (Cache([None, c.table[1]], [1], 1), true)
  {
    assert c.queue[1..] == [1] && Without([0, 1], 0) == [1];
    assert c.table[0 := None] == [None, c.table[1]];
  }

  /** Caching a file for which there is room. */
  lemma InsertAt(c: Cache, max: int, name: Name, data: seq<schar>, s: nat)
    requires Valid(c, max) && Ends(c.table, name) && Probe(c.table, name) == s
    requires c.table[s].None? && c.currSize + |data| <= max && c.currSize >= 0
    ensures Lookup(c.table, name) == None
    ensures Insert(c, max, name, data) == (Cache(c.table[s := Some(Entry(name, data, 0))], c.queue + [s], c.currSize + |data|), Some(s))
    ensures Valid(Insert(c, max, name, data).0, max)
  {
    InsertKeepsValid(c, max, s, Entry(name, data, 0));
  }

  lemma StoreCorrect(c: Cache, max: int, name: Name, data: seq<schar>)
    requires Valid(c, max) && Ends(c.table, name)
    ensures var (r, slot) := Store(c, max, name, data); Valid(r, max) && Kept(c, r, slot, name, data)
  {
    InsertCorrect(c, max, name, data);
    var (inserted, slot) := Insert(c, max, name, data);
    if slot.Some? {
      UsedKeepsValid(inserted, max, slot.value, name);
    }
    var r := Store(c, max, name, data).0;
    forall i: nat ensures SlotKept(c.table, r.table, i, slot, name, data) {}
  }

  /**
   * What offering a file that was not found does to the cache: the victims, which are the shortest prefix of the unused
   * files that makes room, or all of them, are gone; the file is where a search for it stops, with one user, and its home
   * slot last in the queue. It is refused exactly if the files in use leave too little room.
   */
  ghost predicate Added(c: Cache, r: Cache, slot: Option<nat>, victims: seq<nat>, max: int, name: Name, data: seq<schar>)
    requires |c.table| > 0
  {
    var all := Evictable(c.table, c.queue);
    && |victims| <= |all| && victims == all[..|victims|]
    && (if |data| > max then victims == [] else ShortestPrefix(c, all, max, |data|, |victims|))
    && (slot.None? <==> |data| > max - Bytes(c.table, Pinned(c.table, c.queue)))
    && |r.table| == |c.table|
    && (forall i: nat | i < |c.table| && slot != Some(i) :: r.table[i] == if i in victims then None else c.table[i])
    && r.currSize == c.currSize - Bytes(c.table, victims) + (if slot.Some? then |data| else 0)
    && (slot.None? ==> r.queue == Minus(c.queue, victims))
    && (slot.Some? ==>
          && slot.value < |c.table| && (c.table[slot.value].None? || slot.value in victims)
          && r.table[slot.value] == Some(Entry(name, data, 1)) && FoundAt(r.table, name, slot.value)
          && MovedToEnd(Minus(c.queue, victims) + [slot.value], r.queue, Home(name, |c.table|)))
  }

  /** What offering a file does: it is cached after evictions if it was not found, and else the cached one is taken. */
  ghost predicate Offered(c: Cache, r: Cache, slot: Option<nat>, max: int, name: Name, data: seq<schar>)
    requires |c.table| > 0
  {
    && (forall s: nat | FoundAt(c.table, name, s) :: slot == Some(s) && TookFile(c, r, s, name))
    && ((forall s: nat :: !FoundAt(c.table, name, s)) ==> exists victims :: Added(c, r, slot, victims, max, name, data))
  }

  /** The same section offers the file and counts the request as its user. */
  lemma StoreDoes(c: Cache, max: int, name: Name, data: seq<schar>)
    requires Valid(c, max) && Ends(c.table, name)
    ensures Offered(c, Store(c, max, name, data).0, Store(c, max, name, data).1, max, name, data)
  {
    FoundIff(c.table, name);
    HomeOccupied(c.table, name);
    if Lookup(c.table, name).Some? {
      UsedDoes(c, max, Lookup(c.table, name).value, name);
    } else {
      StoreAdds(c, max, name, data);
    }
  }

  lemma StoreAdds(c: Cache, max: int, name: Name, data: seq<schar>)
    requires Valid(c, max) && Ends(c.table, name) && Lookup(c.table, name) == None
    ensures exists victims :: Added(c, Store(c, max, name, data).0, Store(c, max, name, data).1, victims, max, name, data)
  {
    hide Hash, Home, Used, Touched, Reaches, Stops, StopsAfter, Evict, Bytes, FoundAt, Evictable, Pinned, Minus;
    var victims := EvictRemoves(c, max, |data|);
    var evicted, ok := Evict(c, max, |data|).0, Evict(c, max, |data|).1;
    EvictSafe(c, max, |data|);
    InsertCorrect(c, max, name, data);
    if ok {
      EvictionKeepsMiss(c.table, evicted.table, name);
      var inserted, s := Insert(c, max, name, data).0, Probe(evicted.table, name);
      FilledIsFound(evicted.table, name, Entry(name, data, 1));
      UsedDoes(inserted, max, s, name);
      assert Used(inserted, s, name).table == evicted.table[s := Some(Entry(name, data, 1))];
    }
    assert Added(c, Store(c, max, name, data).0, Store(c, max, name, data).1, victims, max, name, data);
  }

  /** A file that is refused although the cache could hold it alone has evicted every file that is not in use. */
  lemma RefusalEvictsAll(c: Cache, r: Cache, victims: seq<nat>, max: int, name: Name, data: seq<schar>)
    requires Valid(c, max) && Added(c, r, None, victims, max, name, data) && |data| <= max
    ensures victims == Evictable(c.table, c.queue)
  {
    var all := Evictable(c.table, c.queue);
    BytesSplit(c.table, c.queue);
    BytesConcat(c.table, victims, all[|victims|..]);
    assert victims + all[|victims|..] == all;
  }

  /** What a request just used goes to the safe end of the queue exactly if it sits in its home slot. */
  lemma UsedIsLastIff(c: Cache, s: nat, name: Name)
    requires s < |c.table| && c.table[s].Some?
    ensures Used(c, s, name).queue != []
    ensures Used(c, s, name).queue[|Used(c, s, name).queue| - 1] == s <==> s == Home(name, |c.table|)
  {}

  // ---------------------------------------------------------------- when probing ends

  lemma {:induction false} DistinctBound(q: seq<nat>, n: nat)
    requires Distinct(q) && forall i: nat | i < n :: i in q
    ensures |q| >= n
    decreases n
  {
    if n > 0 {
      WithoutMembers(q, n - 1);
      WithoutShorter(q, n - 1);
      DistinctBound(Without(q, n - 1), n - 1);
    }
  }

  lemma {:induction false} AtLeastOneEach(table: Table, q: seq<nat>)
    requires forall i | i in q :: SizeAt(table, i) > 0
    ensures Bytes(table, q) >= |q|
  {
    if q != [] {
      AtLeastOneEach(table, q[1..]);
    }
  }

  /** If no cached file is empty and the table has more slots than the cache may hold bytes, every search ends. */
  lemma SearchEnds(c: Cache, max: int, name: Name)
    requires Valid(c, max) && max < |c.table|
    requires forall i: nat | i < |c.table| && c.table[i].Some? :: |c.table[i].value.data| > 0
    ensures Ends(c.table, name)
  {
    EndsIff(c.table, name);
    forall i | i in c.queue ensures SizeAt(c.table, i) > 0 {
      assert QueuedIffUsed(c, i);
    }
    AtLeastOneEach(c.table, c.queue);
    if forall i: nat | i < |c.table| :: c.table[i].Some? {
      forall i: nat | i < |c.table| ensures i in c.queue {
        assert QueuedIffUsed(c, i);
      }
      DistinctBound(c.queue, |c.table|);
      assert false;
    }
    var i: nat :| i < |c.table| && c.table[i].None?;
    assert Stops(c.table, name, i);
  }

  /** Empty files can fill the table: after caching one in a table of one slot, a search for another name never ends. */
  lemma SearchCanHang(name: Name, other: Name)
    requires name != other
    ensures var c := Cache([None], [], 0);
            && Valid(c, 1) && Ends(c.table, name)
            && Valid(Insert(c, 1, name, []).0, 1) && !Ends(Insert(c, 1, name, []).0.table, other)
  {
    var c := Cache([None], [], 0);
    forall i: nat ensures QueuedIffUsed(c, i) {}
    EndsIff(c.table, name);
    assert Stops(c.table, name, 0);
    InsertCorrect(c, 1, name, []);
    var r := Insert(c, 1, name, []).0;
    EndsIff(r.table, other);
  }

  // ---------------------------------------------------------------- sizes

  function TableBytes(table: Table): nat {
    if table == [] then 0 else TableBytes(table[..|table| - 1]) + SizeAt(table, |table| - 1)
  }

  lemma NoMembers(q: seq<nat>)
    ensures (forall i :: i !in q) ==> q == []
  {
    if q != [] {
      assert q[0] in q;
    }
  }

  lemma {:induction false} BytesOfTable(table: Table, q: seq<nat>, n: nat)
    requires Distinct(q) && n <= |table|
    requires forall i: nat | i < |table| :: i in q <==> i < n && table[i].Some?
    requires forall i | i in q :: i < |table|
    ensures Bytes(table, q) == TableBytes(table[..n])
    decreases n
  {
    if n == 0 {
      NoMembers(q);
    } else {
      assert table[..n][..n - 1] == table[..n - 1];
      if n - 1 in q {
        WithoutMembers(q, n - 1);
        BytesWithout(table, q, n - 1);
        BytesOfTable(table, Without(q, n - 1), n - 1);
      } else {
        BytesOfTable(table, q, n - 1);
      }
    }
  }

  /** curr_size is the sum of the sizes of all files in the table, and within the limit. */
  lemma SizeIsSum(c: Cache, max: int)
    requires Valid(c, max)
    ensures c.currSize == TableBytes(c.table) <= max
  {
    forall i: nat ensures i in c.queue <==> i < |c.table| && c.table[i].Some? {
      assert QueuedIffUsed(c, i);
    }
    BytesOfTable(c.table, c.queue, |c.table|);
    assert c.table[..|c.table|] == c.table;
  }
}
