/** What a write costs in blocks, told from the state before it: how far it gets, and which blocks it leaves behind. */
module WriteCosts {
  import opened Blocks
  import opened BlockTree
  import opened Errors
  import opened Inodes

  /** Some block from `first` up to (not including) n lies from a up to b. */
  predicate Touches(first: nat, n: nat, a: nat, b: nat) {
    first < n && first < b && a < n
  }

  function RowStart(i: nat): nat {
    FIRST_DOUBLE + i * NR_INDIRECT_BLOCKS
  }

  /** How many blocks mapping logical block m takes once the blocks from `first` up to m are mapped. */
  function Extra(data: seq<Block>, d: Dinode, first: nat, m: nat): nat
    requires first <= m < MAX_BLOCK_NR
  {
    if !IsHole(data, d, m) then 0
    else match DataSlot(m)
      case Direct(_) => 1
      case Single(i) => 1 + (if d.indirect == 0 && (i == 0 || m == first) then 1 else 0)
      case Leaf(i, j) =>
        1 + (if Ptr(data, d, Middle(i)) == 0 && (j == 0 || m == first) then 1 else 0)
          + (if d.dindirect == 0 && (m == FIRST_DOUBLE || m == first) then 1 else 0)
  }

  /** How many blocks mapping the logical blocks from `first` up to n takes: the missing data blocks and the missing index blocks. */
  function Cost(data: seq<Block>, d: Dinode, first: nat, n: nat): nat
    requires n <= first || n <= MAX_BLOCK_NR
  {
    if n <= first then 0 else Cost(data, d, first, n - 1) + Extra(data, d, first, n - 1)
  }

  /** The first block from n to `last` that cannot be had: it is beyond the largest file or costs more than is free. */
  function Stop(data: seq<Block>, d: Dinode, first: nat, n: nat, last: nat, free: nat): (m: nat)
    requires first <= n <= last + 1
    ensures n <= m <= last + 1 && (m == n || m <= MAX_BLOCK_NR)
    decreases last + 1 - n
  {
    if n > last || n >= MAX_BLOCK_NR || Cost(data, d, first, n + 1) > free then n else Stop(data, d, first, n + 1, last, free)
  }

  lemma {:induction false} CostMonotone(data: seq<Block>, d: Dinode, first: nat, m: nat, n: nat)
    requires m <= n <= MAX_BLOCK_NR
    ensures Cost(data, d, first, m) <= Cost(data, d, first, n)
    decreases n - m
  {
    if m < n && first < n {
      CostMonotone(data, d, first, m, n - 1);
    }
  }

  /** Everything before the stop can be paid for, and the stop cannot: so all can be had exactly if the whole cost is free. */
  lemma {:induction false} StopIs(data: seq<Block>, d: Dinode, first: nat, n: nat, last: nat, free: nat)
    requires first <= n <= last + 1 && (n == first || (n <= MAX_BLOCK_NR && Cost(data, d, first, n) <= free))
    ensures var m := Stop(data, d, first, n, last, free);
            && (m == first || (m <= MAX_BLOCK_NR && Cost(data, d, first, m) <= free))
            && (m <= last && m < MAX_BLOCK_NR ==> Cost(data, d, first, m + 1) > free)
            && (m > last <==> n > last || (last < MAX_BLOCK_NR && Cost(data, d, first, last + 1) <= free))
    decreases last + 1 - n
  {
    hide Extra, Cost;
    if !(n > last || n >= MAX_BLOCK_NR || Cost(data, d, first, n + 1) > free) {
      StopIs(data, d, first, n + 1, last, free);
    } else if n <= last < MAX_BLOCK_NR {
      CostMonotone(data, d, first, n + 1, last + 1);
    }
  }

  /** Blocks that are mapped cost nothing. */
  lemma {:induction false} NoCost(data: seq<Block>, d: Dinode, first: nat, n: nat)
    requires n <= MAX_BLOCK_NR && forall m: nat | first <= m < n :: !IsHole(data, d, m)
    ensures Cost(data, d, first, n) == 0
  {
    if first < n {
      NoCost(data, d, first, n - 1);
    }
  }

  /** What costs nothing is mapped. */
  lemma {:induction false} CostsNothing(data: seq<Block>, d: Dinode, first: nat, n: nat)
    requires n <= MAX_BLOCK_NR && Cost(data, d, first, n) == 0
    ensures forall m: nat | first <= m < n :: !IsHole(data, d, m)
  {
    if first < n {
      CostsNothing(data, d, first, n - 1);
    }
  }

  // ---------------------------------------------------------------- the index blocks on the way

  ghost predicate RowReached(data0: seq<Block>, d0: Dinode, data: seq<Block>, d: Dinode, first: nat, n: nat, i: nat) {
    i < NR_INDIRECT_BLOCKS ==>
      (Ptr(data, d, Middle(i)) == 0 <==> Ptr(data0, d0, Middle(i)) == 0 && !Touches(first, n, RowStart(i), RowStart(i + 1)))
  }

  /** Which index blocks are missing once the blocks from `first` up to n are mapped. */
  ghost predicate Reached(data0: seq<Block>, d0: Dinode, data: seq<Block>, d: Dinode, first: nat, n: nat) {
    && (d.indirect == 0 <==> d0.indirect == 0 && !Touches(first, n, NR_DIRECT_BLOCKS, FIRST_DOUBLE))
    && (d.dindirect == 0 <==> d0.dindirect == 0 && !Touches(first, n, FIRST_DOUBLE, MAX_BLOCK_NR))
    && forall i: nat :: RowReached(data0, d0, data, d, first, n, i)
  }

  lemma ReachedFirst(data: seq<Block>, d: Dinode, first: nat)
    ensures Reached(data, d, data, d, first, first)
  {
    forall i: nat ensures RowReached(data, d, data, d, first, first, i) {}
  }

  /** So what block n needs now is what it was going to cost. */
  lemma NeedIsExtra(data0: seq<Block>, d0: Dinode, data: seq<Block>, d: Dinode, first: nat, n: nat)
    requires first <= n < MAX_BLOCK_NR && Reached(data0, d0, data, d, first, n)
    requires IsHole(data, d, n) <==> IsHole(data0, d0, n)
    ensures Need(data, d, n) == Extra(data0, d0, first, n)
  {
    if n >= FIRST_DOUBLE {
      assert RowReached(data0, d0, data, d, first, n, RowOf(n));
    }
  }

  /** Block n is mapped, through index blocks of which only those on the way to n may be new. */
  ghost predicate IndexGrown(data: seq<Block>, d: Dinode, data': seq<Block>, d': Dinode, n: nat) {
    && (if NR_DIRECT_BLOCKS <= n < FIRST_DOUBLE then d'.indirect != 0 else d'.indirect == d.indirect)
    && (if FIRST_DOUBLE <= n < MAX_BLOCK_NR then d'.dindirect != 0 && Ptr(data', d',
                                                                          Middle(RowOf(n))) != 0 else d'.dindirect == d.dindirect)
    && RowsKept(data, d, data', d', n)
  }

  /** Mapping block n and then overwriting it. */
  lemma GrownIndex(data1: seq<Block>, table1: map<nat, Dinode>, data2: seq<Block>, table2: map<nat, Dinode>, data3: seq<Block>, k: nat,
                   n: nat, ret: int)
    requires Grown(data1, table1, data2, table2, k, n, ret) && ret > 0 && Phys(data2, table2[k], n) == ret
    requires OnlyMoved(data2, table2, data3, table2, k, DataSlot(n), ret)
    ensures k in table1 && k in table2 && IndexGrown(data1, table1[k], data3, table2[k], n)
  {
    var d := table2[k];
    forall i: nat | i != RowOf(n) ensures RowKept(data1, table1[k], data3, d, i) {
      assert PtrMoved(data2, table2, data3, table2, k, DataSlot(n), ret, k, Middle(i));
      assert RowKept(data1, table1[k], data2, d, i);
    }
    if n >= FIRST_DOUBLE {
      assert PtrMoved(data2, table2, data3, table2, k, DataSlot(n), ret, k, Middle(RowOf(n)));
    }
  }

  lemma ReachedMore(data0: seq<Block>, d0: Dinode, data1: seq<Block>, d1: Dinode, data: seq<Block>, d: Dinode, first: nat, n: nat)
    requires first <= n < MAX_BLOCK_NR && Reached(data0, d0, data1, d1, first, n) && IndexGrown(data1, d1, data, d, n)
    ensures Reached(data0, d0, data, d, first, n + 1)
  {
    var next := n + 1;
    forall i: nat ensures RowReached(data0, d0, data, d, first, next, i) {
      assert RowReached(data0, d0, data1, d1, first, n, i);
      if i != RowOf(n) {
        assert RowKept(data1, d1, data, d, i);
      }
    }
  }

  /**
   * A write that began with `free0` free blocks has mapped the blocks from `first` up to n: it has paid for them and for
   * nothing else, and where it will stop is still what it was at the start.
   */
  ghost predicate PaidFor(data0: seq<Block>, d0: Dinode, free0: nat, dirty0: bool, first: nat, n: nat, last: nat,
                          data: seq<Block>, d: Dinode, free: nat, dirty: bool)
  {
    && first <= n <= last + 1 && (n == first || n <= MAX_BLOCK_NR)
    && free0 == free + Cost(data0, d0, first, n)
    && Reached(data0, d0, data, d, first, n)
    && Stop(data0, d0, first, first, last, free0) == Stop(data0, d0, first, n, last, free0)
    && (dirty <==> dirty0 || Cost(data0, d0, first, n) > 0)
  }

  /** Such a write stops at block n, and leaves this inode and so many free blocks. */
  ghost predicate StopsAt(data0: seq<Block>, d0: Dinode, free0: nat, dirty0: bool, first: nat, n: nat, last: nat, d: Dinode, dirty: bool,
                          free: int) {
    && first <= n <= last && (n == first || n <= MAX_BLOCK_NR) && n == Stop(data0, d0, first, first, last, free0)
    && (d.dindirect != 0 <==> d0.dindirect != 0 || Touches(first, n, FIRST_DOUBLE, MAX_BLOCK_NR)
                              || (FIRST_DOUBLE <= n < MAX_BLOCK_NR && free0 == Cost(data0, d0, first, n) + 1))
    && (dirty <==> dirty0 || if n >= MAX_BLOCK_NR then Cost(data0, d0, first, n) > 0 else free0 > 0)
    && free == free0 - Cost(data0, d0, first, n) - if KeepsDouble(data0, d0, first, n, free0) then 1 else 0
  }

  /** A write that stops at block n takes the double indirect block for it and then runs out, leaving that block behind empty. */
  predicate KeepsDouble(data: seq<Block>, d: Dinode, first: nat, n: nat, free: nat)
    requires n <= first || n <= MAX_BLOCK_NR
  {
    && FIRST_DOUBLE <= n < MAX_BLOCK_NR && (n == first || n == FIRST_DOUBLE)
    && d.dindirect == 0 && free == Cost(data, d, first, n) + 1
  }

  lemma StopsAnySize(data0: seq<Block>, d0: Dinode, free0: nat, dirty0: bool, first: nat, n: nat, last: nat, d: Dinode, dirty: bool,
                     free: int, size: nat)
    requires StopsAt(data0, d0, free0, dirty0, first, n, last, d, dirty, free)
    ensures StopsAt(data0, d0, free0, dirty0, first, n, last, d.(size := size), dirty, free)
  {}

  /** The allocation of block n failed. */
  lemma StopsHere(data0: seq<Block>, d0: Dinode, free0: nat, dirty0: bool, first: nat, n: nat, last: nat,
                  data1: seq<Block>, d1: Dinode, free1: nat, dirty1: bool, d: Dinode, dirty: bool, free: nat)
    requires PaidFor(data0, d0, free0, dirty0, first, n, last, data1, d1, free1, dirty1) && n <= last
    requires n >= MAX_BLOCK_NR ==> d == d1 && dirty == dirty1 && free == free1
    requires n < MAX_BLOCK_NR ==>
               && free1 < Extra(data0, d0, first, n) && (dirty <==> dirty1 || free1 > 0)
               && if LeavesDouble(d1, free1, n) then d.dindirect != 0 && free == 0 else d.dindirect == d1.dindirect && free == free1
    ensures StopsAt(data0, d0, free0, dirty0, first, n, last, d, dirty, free)
  {
    hide Extra;
  }

  /** The allocation of block n succeeded, and then the block was overwritten. */
  lemma GoesOn(data0: seq<Block>, d0: Dinode, free0: nat, dirty0: bool, first: nat, n: nat, last: nat,
               data1: seq<Block>, d1: Dinode, free1: nat, dirty1: bool, data: seq<Block>, d: Dinode, free: nat, dirty: bool)
    requires PaidFor(data0, d0, free0, dirty0, first, n, last, data1, d1, free1, dirty1) && n <= last && n < MAX_BLOCK_NR
    requires free1 == free + Extra(data0, d0, first, n) && IndexGrown(data1, d1, data, d, n)
    requires dirty <==> dirty1 || (free1 > 0 && Extra(data0, d0, first, n) > 0)
    ensures PaidFor(data0, d0, free0, dirty0, first, n + 1, last, data, d, free, dirty)
  {
    hide Reached, Extra, IndexGrown;
    ReachedMore(data0, d0, data1, d1, data, d, first, n);
  }

  // ---------------------------------------------------------------- what a write does, from the state before it

  function Max(a: nat, b: nat): nat {
    if a >= b then a else b
  }

  /** The last logical block that an access to n bytes at `start` looks at. */
  function LastBlock(start: nat, n: nat): (last: nat)
    ensures last >= start / BLOCK_SIZE
  {
    if n == 0 then start / BLOCK_SIZE else (start + n - 1) / BLOCK_SIZE
  }

  /** Where a write of n bytes at `start` with `free` free blocks stops: one past its last block, or at the first block it cannot have. */
  function WriteEnd(data: seq<Block>, d: Dinode, start: nat, n: nat, free: nat): (end: nat)
    ensures start / BLOCK_SIZE <= end <= LastBlock(start, n) + 1 && (end == start / BLOCK_SIZE || end <= MAX_BLOCK_NR)
  {
    Stop(data, d, start / BLOCK_SIZE, start / BLOCK_SIZE, LastBlock(start, n), free)
  }

  /** What the write returns. */
  function WriteReturns(data: seq<Block>, d: Dinode, start: nat, n: nat, free: nat): int {
    var end := WriteEnd(data, d, start, n, free);
    if end > LastBlock(start, n) then n else if end >= MAX_BLOCK_NR then -EFBIG else -ENOSPC
  }

  /** How many bytes it writes. */
  function WriteLength(data: seq<Block>, d: Dinode, start: nat, n: nat, free: nat): (length: nat)
    ensures length <= n
  {
    var end := WriteEnd(data, d, start, n, free);
    if end > LastBlock(start, n) then n else if end == start / BLOCK_SIZE then 0 else end * BLOCK_SIZE - start
  }

  /** The size of the file afterwards. Running out of space before the last block leaves it alone. */
  function NewSize(data: seq<Block>, d: Dinode, start: nat, n: nat, free: nat): nat {
    var end, last := WriteEnd(data, d, start, n, free), LastBlock(start, n);
    if (if end > last then n > 0 else end == last || end >= MAX_BLOCK_NR)
    then Max(d.size, start + WriteLength(data, d, start, n, free))
    else d.size
  }

  /** Whether the inode has a double indirect block afterwards: it had one, a block was mapped through it, or it was left behind. */
  predicate DoubleAfter(data: seq<Block>, d: Dinode, start: nat, n: nat, free: nat) {
    var first, end := start / BLOCK_SIZE, WriteEnd(data, d, start, n, free);
    || d.dindirect != 0
    || Touches(first, end, FIRST_DOUBLE, MAX_BLOCK_NR)
    || (FIRST_DOUBLE <= end <= LastBlock(start, n) && end < MAX_BLOCK_NR && free == Cost(data, d, first, end) + 1)
  }

  /** Whether the inode is dirty after the write: it was, the write succeeded, or a block was taken, be it to be given back. */
  predicate DirtyAfter(data: seq<Block>, d: Dinode, dirty: bool, start: nat, n: nat, free: nat) {
    var first, end := start / BLOCK_SIZE, WriteEnd(data, d, start, n, free);
    || dirty || end > LastBlock(start, n)
    || (if end >= MAX_BLOCK_NR then (end > first && Cost(data, d, first, MAX_BLOCK_NR) > 0) else free > 0)
  }

  /** The write stops at a block for which it takes the double indirect block and then runs out, leaving it behind empty. */
  predicate LeftBehind(data: seq<Block>, d: Dinode, start: nat, n: nat, free: nat) {
    var end := WriteEnd(data, d, start, n, free);
    end <= LastBlock(start, n) && KeepsDouble(data, d, start / BLOCK_SIZE, end, free)
  }

  /** How many blocks are free afterwards. */
  function FreeAfter(data: seq<Block>, d: Dinode, start: nat, n: nat, free: nat): int {
    free - Cost(data, d, start / BLOCK_SIZE, WriteEnd(data, d, start, n, free)) - if LeftBehind(data, d, start, n, free) then 1 else 0
  }

  /** All that the state before a write says about its end: what it returns and writes, and the inode and the free blocks afterwards. */
  ghost predicate Outcome(data0: seq<Block>, d0: Dinode, dirty0: bool, free0: nat, start: nat, n: nat, ret: int, written: nat, d: Dinode,
                          dirty: bool, free: int) {
    && ret == WriteReturns(data0, d0, start, n, free0)
    && written == WriteLength(data0, d0, start, n, free0)
    && d.size == NewSize(data0, d0, start, n, free0)
    && (dirty <==> DirtyAfter(data0, d0, dirty0, start, n, free0))
    && (d.dindirect != 0 <==> DoubleAfter(data0, d0, start, n, free0))
    && free == FreeAfter(data0, d0, start, n, free0)
  }

  lemma OutcomeSays(data0: seq<Block>, d0: Dinode, dirty0: bool, free0: nat, start: nat, n: nat, ret: int, written: nat, d: Dinode,
                    dirty: bool, free: int)
    requires Outcome(data0, d0, dirty0, free0, start, n, ret, written, d, dirty, free)
    ensures ret == n || ret == -EFBIG || ret == -ENOSPC
    ensures (dirty0 ==> dirty) && (LosesSize(data0, d0, dirty0, start, n, free0) ==> !dirty)
  {
    hide Stop, Cost;
  }

  /** Whether a covered file is covered after the write, see Reclaim.CoveredAfterWrite. */
  predicate StaysCovered(data: seq<Block>, d: Dinode, start: nat, n: nat, free: nat) {
    var first, end, last := start / BLOCK_SIZE, WriteEnd(data, d, start, n, free), LastBlock(start, n);
    if end > last then n > 0 || first * BLOCK_SIZE < d.size
    else if end >= MAX_BLOCK_NR then end > first || d.dindirect != 0
    else if end < last then !LeftBehind(data, d, start, n, free) && (end == first || (end - 1) * BLOCK_SIZE < d.size)
    else if end > first then !LeftBehind(data, d, start, n, free)
    else d.dindirect != 0 || (LeftBehind(data, d, start, n, free) <==> start > FIRST_DOUBLE * BLOCK_SIZE)
  }

  /** Whether a write changes the size in memory without marking the inode dirty, so that it may never reach the disk. */
  predicate LosesSize(data: seq<Block>, d: Dinode, dirty: bool, start: nat, n: nat, free: nat) {
    var first, end, last := start / BLOCK_SIZE, WriteEnd(data, d, start, n, free), LastBlock(start, n);
    && !dirty && end <= last
    && (if end >= MAX_BLOCK_NR then end == first || Cost(data, d, first, MAX_BLOCK_NR) == 0 else end == last && free == 0)
    && start + WriteLength(data, d, start, n, free) > d.size
  }

  lemma LosesSizeIff(data: seq<Block>, d: Dinode, dirty: bool, start: nat, n: nat, free: nat)
    ensures LosesSize(data, d, dirty, start, n, free) <==>
              !DirtyAfter(data, d, dirty, start, n, free) && NewSize(data, d, start, n, free) != d.size
  {}

  /** Whether appending n bytes fails after raising the size, so that a part of them stays at the end of the file. */
  predicate Tears(data: seq<Block>, d: Dinode, n: nat, free: nat) {
    var first, end, last := d.size / BLOCK_SIZE, WriteEnd(data, d, d.size, n, free), LastBlock(d.size, n);
    first < end <= last && (end == last || end >= MAX_BLOCK_NR)
  }

  lemma TearsIff(data: seq<Block>, d: Dinode, n: nat, free: nat)
    requires WriteReturns(data, d, d.size, n, free) < 0 && n > 0
    ensures WriteLength(data, d, d.size, n, free) < n
    ensures NewSize(data, d, d.size, n, free) ==
              if Tears(data, d, n, free) then d.size + WriteLength(data, d, d.size, n, free) else d.size
    ensures NewSize(data, d, d.size, n, free) != d.size <==> Tears(data, d, n, free)
  {
    hide Stop;
  }

  /** A write succeeds exactly if it ends within the largest file and all missing blocks are free. */
  lemma WriteSucceedsIff(data: seq<Block>, d: Dinode, start: nat, n: nat, free: nat)
    ensures WriteReturns(data, d, start, n, free) >= 0 <==>
              LastBlock(start, n) < MAX_BLOCK_NR && Cost(data, d, start / BLOCK_SIZE, LastBlock(start, n) + 1) <= free
  {
    StopIs(data, d, start / BLOCK_SIZE, start / BLOCK_SIZE, LastBlock(start, n), free);
  }
}
