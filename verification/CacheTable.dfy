/** The file cache as the server keeps it: an array and a queue changed in place, each operation proved against its value in FileCaches. */
module CacheTables {
  import opened Cyclic
  import opened Queues
  import opened Options
  import opened FileCaches

  class FileCache {
    const maxSize: int
    const table: array<Option<Entry>>
    /** Slots in order of use; the end is the most recently used. */
    var queue: seq<nat>
    var currSize: int

    ghost function View(): Cache
      reads this, table
    {
      Cache(table[..], queue, currSize)
    }

    constructor (maxSize: int, tableSize: nat)
      requires maxSize > 0 && tableSize > 0
      ensures Valid(View(), maxSize) && this.maxSize == maxSize && table.Length == tableSize && fresh(table)
      ensures forall i | 0 <= i < tableSize :: table[i] == None
    {
      this.maxSize := maxSize;
      table := new Option<Entry>[tableSize](_ => None);
      queue := [];
      currSize := 0;
      new;
      forall i: nat ensures QueuedIffUsed(View(), i) {}
    }

    /** The probing loop of lookup and insertion. It requires that probing ends: otherwise the loop would not either. */
    method ProbeFor(name: Name) returns (index: nat)
      requires table.Length > 0 && Ends(table[..], name)
      ensures index == Probe(table[..], name)
    {
      ghost var home, size := Home(name, table.Length), table.Length;
      ghost var last: nat :| StopsAfter(table[..], name, home, last);
      ghost var d: nat := 0;
      index := Home(name, table.Length);
      ModOf(index, 0, index, table.Length);
      while table[index].Some? && table[index].value.key != name
        invariant d <= last && index == Nth(home, d, size)
        decreases last - d
      {
        NthNext(home, d, size);
        index := (index + 1) % table.Length;
        d := d + 1;
      }
      ProbeIs(table[..], name, d);
    }

    method Find(name: Name) returns (slot: Option<nat>)
      requires table.Length > 0 && Ends(table[..], name)
      ensures slot == Lookup(table[..], name)
    {
      var index := ProbeFor(name);
      if table[index].Some? && table[index].value.key == name {
        return Some(index);
      }
      return None;
    }

    method LruAdd(index: nat)
      modifies `queue
      ensures queue == old(queue) + [index]
    {
      queue := queue + [index];
    }

    method LruUpdate(index: nat)
      modifies `queue
      ensures queue == Touched(old(queue), index)
    {
      queue := Delete(queue, index);
      queue := queue + [index];
    }

    /** Deletes unused files in queue order until `size` bytes fit. */
    method DeleteLeastUsed(size: int) returns (ok: bool)
      requires forall k | 0 <= k < |queue| :: queue[k] < table.Length
      modifies `queue, `currSize, table
      ensures View() == LruDelete(old(View()), old(queue), maxSize, size)
      ensures ok <==> maxSize - currSize >= size
    {
      var rest: seq<nat> := queue;
      while rest != [] && maxSize - currSize < size
        invariant forall k | 0 <= k < |rest| :: rest[k] < table.Length
        invariant LruDelete(View(), rest, maxSize, size) == LruDelete(old(View()), old(queue), maxSize, size)
        decreases |rest|
      {
        var i := rest[0];
        var next: seq<nat> := rest[1..];
        if table[i].Some? && table[i].value.active == 0 {
          ghost var before := View();
          currSize := currSize - |table[i].value.data|;
          table[i] := None;
          queue := Delete(queue, i);
          assert View() == Removed(before, i);
        }
        rest := next;
      }
      ok := maxSize - currSize >= size;
    }

    /** Makes room for `size` bytes if that is possible. */
    method MakeRoom(size: int) returns (ok: bool)
      requires Valid(View(), maxSize)
      modifies `queue, `currSize, table
      ensures (View(), ok) == Evict(old(View()), maxSize, size)
    {
      forall k | 0 <= k < |queue| ensures queue[k] < table.Length {
        assert QueuedIffUsed(View(), queue[k]);
      }
      if size > maxSize {
        return false;
      }
      if size <= maxSize - currSize {
        return true;
      }
      if queue == [] {
        return false;
      }
      ok := DeleteLeastUsed(size);
    }

    method TableInsert(name: Name, data: seq<schar>) returns (slot: nat)
      requires table.Length > 0 && Ends(table[..], name)
      modifies `queue, `currSize, table
      ensures slot == Probe(old(table[..]), name)
      ensures View() == Cache(old(table[..])[slot := Some(Entry(name, data, 0))], old(queue) + [slot], old(currSize) + |data|)
    {
      slot := ProbeFor(name);
      table[slot] := Some(Entry(name, data, 0));
      currSize := currSize + |data|;
      LruAdd(slot);
    }

    /** Puts the file into the cache unless its name is already there or it cannot be made to fit. */
    method Add(name: Name, data: seq<schar>) returns (slot: Option<nat>)
      requires Valid(View(), maxSize) && Ends(table[..], name)
      modifies `queue, `currSize, table
      ensures (View(), slot) == Insert(old(View()), maxSize, name, data)
    {
      slot := Find(name);
      if slot.Some? {
        return;
      }
      EvictSafe(View(), maxSize, |data|);
      var ok := MakeRoom(|data|);
      if ok {
        EvictionKeepsMiss(old(table[..]), table[..], name);
        var s := TableInsert(name, data);
        return Some(s);
      }
    }

    method Use(s: nat, name: Name)
      requires s < table.Length && table[s].Some?
      modifies `queue, table
      ensures View() == Used(old(View()), s, name)
    {
      table[s] := Some(table[s].value.(active := table[s].value.active + 1));
      LruUpdate(Home(name, table.Length));
    }

    /** The first critical section of a request: a cached file is taken, and its bytes are what will be sent. */
    method TakeCached(name: Name) returns (slot: Option<nat>)
      requires Valid(View(), maxSize) && Ends(table[..], name)
      modifies `queue, table
      ensures (View(), slot) == Acquire(old(View()), name)
      ensures Valid(View(), maxSize) && Kept(old(View()), View(), slot, name, [])
      ensures slot.Some? <==> exists d: nat :: Reaches(old(table[..]), name, d)
      ensures slot.Some? ==> FoundAt(old(table[..]), name, slot.value) && TookFile(old(View()), View(), slot.value, name)
      ensures slot.None? ==> View() == old(View())
    {
      AcquireCorrect(View(), maxSize, name, []);
      AcquireDoes(View(), maxSize, name);
      slot := Find(name);
      if slot.Some? {
        Use(slot.value, name);
      }
    }

    /** The second critical section, after the file was read. */
    method OfferFile(name: Name, data: seq<schar>) returns (slot: Option<nat>)
      requires Valid(View(), maxSize) && Ends(table[..], name)
      modifies `queue, `currSize, table
      ensures (View(), slot) == Store(old(View()), maxSize, name, data)
      ensures Valid(View(), maxSize) && Kept(old(View()), View(), slot, name, data)
      ensures Offered(old(View()), View(), slot, maxSize, name, data)
    {
      StoreCorrect(View(), maxSize, name, data);
      StoreDoes(View(), maxSize, name, data);
      InsertCorrect(View(), maxSize, name, data);
      slot := Add(name, data);
      if slot.Some? {
        Use(slot.value, name);
      }
    }

    /** The third critical section, after sending. */
    method LetGo(s: nat)
      requires Valid(View(), maxSize) && s < table.Length && table[s].Some? && table[s].value.active > 0
      modifies table
      ensures View() == Released(old(View()), s) && Valid(View(), maxSize) && GaveBack(old(View()), View(), s)
    {
      ActiveKeepsValid(View(), maxSize, s, table[s].value.active - 1);
      table[s] := Some(table[s].value.(active := table[s].value.active - 1));
    }
  }
}
