/** Directories as logs of variable-length records: the byte format, and the map from names to inode numbers it stands for. */
module Directories {
  import opened Blocks
  import opened Options

  const INVALID_INODE_NR: int := -1
  const HEADER_SIZE: nat := 8
  const HALF_RANGE: int := 0x8000_0000

  /** A name, without the zero byte that ends it on disk. */
  type Name = seq<byte>

  /** A directory entry; a negative inode number marks one that was removed. */
  datatype Record = Record(inodeNr: int, name: Name)

  const DOT: Name := [46]
  const DOTDOT: Name := [46, 46]

  predicate IsDots(name: Name) {
    name == DOT || name == DOTDOT
  }

  type Log = seq<Record>

  // ---------------------------------------------------------------- bytes

  /** The four bytes of a little-endian word. */
  function WordBytes4(w: nat): (b: seq<byte>)
    requires w < WORD_LIMIT
    ensures |b| == 4
  {
    [(w % 0x100) as byte, (w / 0x100 % 0x100) as byte, (w / 0x1_0000 % 0x100) as byte, (w / 0x100_0000) as byte]
  }

  function WordOf4(b: seq<byte>): (w: nat)
    requires |b| == 4
    ensures w < WORD_LIMIT
  {
    b[0] as int + 0x100 * b[1] as int + 0x1_0000 * b[2] as int + 0x100_0000 * b[3] as int
  }

  lemma WordRoundTrip(w: nat)
    requires w < WORD_LIMIT
    ensures WordOf4(WordBytes4(w)) == w
  {
    WordSplit(w);
  }

  /** A signed 32-bit number as a word. */
  function ToWord(x: int): (w: nat)
    requires -HALF_RANGE <= x < HALF_RANGE
    ensures w < WORD_LIMIT
  {
    if x < 0 then x + WORD_LIMIT else x
  }

  function FromWord(w: nat): (x: int)
    requires w < WORD_LIMIT
    ensures -HALF_RANGE <= x < HALF_RANGE
  {
    if w >= HALF_RANGE then w - WORD_LIMIT else w
  }

  lemma SignedRoundTrip(x: int)
    requires -HALF_RANGE <= x < HALF_RANGE
    ensures FromWord(WordOf4(WordBytes4(ToWord(x)))) == x
  {
    WordRoundTrip(ToWord(x));
  }

  /** A name as C sees it: no zero byte, and short enough for its length field. */
  predicate ValidName(name: Name) {
    |name| + 1 < HALF_RANGE && forall i | 0 <= i < |name| :: name[i] != 0
  }

  predicate ValidRecord(r: Record) {
    INVALID_INODE_NR <= r.inodeNr < HALF_RANGE && ValidName(r.name)
  }

  ghost predicate ValidLog(log: Log) {
    forall i | 0 <= i < |log| :: ValidRecord(log[i])
  }

  /** The header and the name with its zero byte. */
  function Encode(r: Record): (b: seq<byte>)
    requires ValidRecord(r)
    ensures |b| == Size(r)
  {
    WordBytes4(ToWord(|r.name| + 1)) + WordBytes4(ToWord(r.inodeNr)) + r.name + [0]
  }

  function Size(r: Record): (n: nat)
    ensures n > HEADER_SIZE
  {
    HEADER_SIZE + |r.name| + 1
  }

  /** The directory file. */
  ghost function Flatten(log: Log): (b: seq<byte>)
    requires ValidLog(log)
    ensures |b| == Offset(log, |log|)
  {
    if log == [] then [] else
      assert log[..|log| - 1] == log[..|log| - 1][..|log| - 1];
      OffsetPrefix(log, |log| - 1, |log| - 1);
      Flatten(log[..|log| - 1]) + Encode(log[|log| - 1])
  }

  /** Where record i starts. */
  function Offset(log: Log, i: nat): nat
    requires i <= |log|
  {
    if i == 0 then 0 else Offset(log, i - 1) + Size(log[i - 1])
  }

  lemma {:induction false} OffsetPrefix(log: Log, n: nat, i: nat)
    requires i <= n <= |log|
    ensures Offset(log[..n], i) == Offset(log, i)
  {
    if i > 0 {
      OffsetPrefix(log, n, i - 1);
    }
  }

  lemma {:induction false} OffsetMonotone(log: Log, i: nat, j: nat)
    requires i <= j <= |log|
    ensures Offset(log, i) + HEADER_SIZE * (j - i) <= Offset(log, j)
    decreases j - i
  {
    if i < j {
      OffsetMonotone(log, i, j - 1);
    }
  }

  lemma SubSlice(bytes: seq<byte>, lo: nat, hi: nat, a: nat, b: nat)
    requires a <= b && lo + b <= hi <= |bytes|
    ensures bytes[lo..hi][a..b] == bytes[lo + a..lo + b]
  {
    var inner := bytes[lo..hi];
    forall i | a <= i < b ensures inner[i] == bytes[lo + i] {}
  }

  /** Record i occupies exactly the bytes between its offset and the next. */
  lemma {:induction false} RecordAt(log: Log, i: nat)
    requires ValidLog(log) && i < |log|
    ensures Offset(log, i + 1) <= |Flatten(log)|
    ensures Flatten(log)[Offset(log, i)..Offset(log, i + 1)] == Encode(log[i])
    decreases |log|
  {
    hide Encode, Size;
    var n := |log| - 1;
    OffsetMonotone(log, i + 1, |log|);
    OffsetPrefix(log, n, n);
    var front := Flatten(log[..n]);
    if i < n {
      RecordAt(log[..n], i);
      OffsetPrefix(log, n, i);
      OffsetPrefix(log, n, i + 1);
      OffsetMonotone(log, i + 1, n);
      assert Flatten(log)[Offset(log, i)..Offset(log, i + 1)] == front[Offset(log, i)..Offset(log, i + 1)];
    }
  }

  /** What the scanner makes of the bytes at an offset: the record there and the offset of the next, or the end of the directory. */
  function Next(bytes: seq<byte>, offset: nat): Option<(Record, nat)> {
    if offset + HEADER_SIZE > |bytes| then None
    else
      var len := FromWord(WordOf4(bytes[offset..offset + 4]));
      if len <= 0 || offset + HEADER_SIZE + len > |bytes| then None
      else Some((Record(FromWord(WordOf4(bytes[offset + 4..offset + 8])), bytes[offset + HEADER_SIZE..offset + HEADER_SIZE + len - 1]),
                 offset + HEADER_SIZE + len))
  }

  lemma DecodeEncoded(bytes: seq<byte>, offset: nat, r: Record)
    requires ValidRecord(r) && offset + Size(r) <= |bytes| && bytes[offset..offset + Size(r)] == Encode(r)
    ensures Next(bytes, offset) == Some((r, offset + Size(r)))
  {
    hide WordBytes4, WordOf4, ToWord, FromWord;
    var e := Encode(r);
    SubSlice(bytes, offset, offset + Size(r), 0, 4);
    SubSlice(bytes, offset, offset + Size(r), 4, 8);
    SubSlice(bytes, offset, offset + Size(r), 8, 8 + |r.name|);
    assert e[0..4] == WordBytes4(ToWord(|r.name| + 1)) && e[4..8] == WordBytes4(ToWord(r.inodeNr)) && e[8..8 + |r.name|] == r.name;
    SignedRoundTrip(|r.name| + 1);
    SignedRoundTrip(r.inodeNr);
  }

  /** Scanning a directory yields its records in order and ends exactly at its size. */
  lemma ScanLog(log: Log, i: nat)
    requires ValidLog(log) && i <= |log|
    ensures Next(Flatten(log), Offset(log, i)) == if i == |log| then None else Some((log[i], Offset(log, i + 1)))
    ensures Offset(log, i) >= |Flatten(log)| <==> i == |log|
  {
    OffsetMonotone(log, i, |log|);
    if i < |log| {
      RecordAt(log, i);
      DecodeEncoded(Flatten(log), Offset(log, i), log[i]);
    }
  }

  /** Two logs with the same bytes are the same: what was written parses back in just one way. */
  lemma {:induction false} FlattenInjective(a: Log, b: Log, n: nat)
    requires ValidLog(a) && ValidLog(b) && Flatten(a) == Flatten(b) && n <= |a|
    ensures n <= |b| && a[..n] == b[..n] && Offset(a, n) == Offset(b, n)
    ensures n == |a| ==> a == b
  {
    hide Flatten, Next, ValidRecord, Size;
    if n > 0 {
      FlattenInjective(a, b, n - 1);
      ScanLog(a, n - 1);
      ScanLog(b, n - 1);
    }
    if n == |a| {
      ScanLog(a, n);
      ScanLog(b, n);
    }
  }

  // ---------------------------------------------------------------- operations on the log

  predicate IsLive(r: Record) {
    r.inodeNr >= 0
  }

  predicate Is(r: Record, name: Name) {
    IsLive(r) && r.name == name
  }

  /** A removed record whose space a record with this name fits exactly. */
  predicate Reusable(r: Record, name: Name) {
    !IsLive(r) && |r.name| == |name|
  }

  /** The first live record from i on with that name, or the number of records. */
  function Find(log: Log, name: Name, i: nat): (k: nat)
    requires i <= |log|
    ensures i <= k <= |log|
    ensures k < |log| ==> Is(log[k], name)
    ensures forall j | i <= j < k :: !Is(log[j], name)
    decreases |log| - i
  {
    if i == |log| || Is(log[i], name) then i else Find(log, name, i + 1)
  }

  function Lookup(log: Log, name: Name): Option<int> {
    var k := Find(log, name, 0);
    if k < |log| then Some(log[k].inodeNr) else None
  }

  /** Where adding a name stops scanning: at a live record with it, at a removed one it can reuse, or at the end. */
  function AddStop(log: Log, name: Name, i: nat): (k: nat)
    requires i <= |log|
    ensures i <= k <= |log|
    ensures k < |log| ==> Is(log[k], name) || Reusable(log[k], name)
    ensures forall j | i <= j < k :: !Is(log[j], name) && !Reusable(log[j], name)
    decreases |log| - i
  {
    if i == |log| || Is(log[i], name) || Reusable(log[i], name) then i else AddStop(log, name, i + 1)
  }

  /** The log with record k written, where k may be just beyond the end. */
  function Written(log: Log, k: nat, r: Record): Log
    requires k <= |log|
  {
    if k < |log| then log[k := r] else log + [r]
  }

  /** None when the name is found. */
  function Add(log: Log, name: Name, inodeNr: int): Option<Log> {
    var k := AddStop(log, name, 0);
    if k < |log| && Is(log[k], name) then None else Some(Written(log, k, Record(inodeNr, name)))
  }

  function Remove(log: Log, name: Name): Option<Log> {
    var k := Find(log, name, 0);
    if k < |log| then Some(log[k := log[k].(inodeNr := INVALID_INODE_NR)]) else None
  }

  /** The names and inode numbers of the live records. */
  function Entries(log: Log): map<Name, int> {
    if log == [] then map[]
    else
      var last := log[|log| - 1];
      if IsLive(last) then Entries(log[..|log| - 1])[last.name := last.inodeNr] else Entries(log[..|log| - 1])
  }

  ghost predicate NotBoth(log: Log, i: nat, j: nat) {
    i < j < |log| && IsLive(log[i]) && IsLive(log[j]) ==> log[i].name != log[j].name
  }

  /** No name is in the directory twice. */
  ghost predicate UniqueNames(log: Log) {
    forall i: nat, j: nat :: NotBoth(log, i, j)
  }

  lemma UniquePrefix(log: Log, n: nat)
    requires UniqueNames(log) && n <= |log|
    ensures UniqueNames(log[..n])
  {
    forall i: nat, j: nat ensures NotBoth(log[..n], i, j) {
      assert NotBoth(log, i, j);
    }
  }

  /** The map holds exactly the live records. */
  lemma {:induction false} EntriesAre(log: Log, name: Name)
    requires UniqueNames(log)
    ensures name in Entries(log) <==> exists i: nat :: i < |log| && Is(log[i], name)
    ensures forall i: nat | i < |log| && Is(log[i], name) :: name in Entries(log) && Entries(log)[name] == log[i].inodeNr
  {
    if log != [] {
      var n := |log| - 1;
      UniquePrefix(log, n);
      EntriesAre(log[..n], name);
      forall i: nat | i < |log| && Is(log[i], name)
        ensures name in Entries(log) && Entries(log)[name] == log[i].inodeNr
      {
        if i < n {
          assert Is(log[..n][i], name) && NotBoth(log, i, n);
        }
      }
      if name in Entries(log) {
        if Is(log[n], name) {
        } else {
          var i: nat :| i < n && Is(log[..n][i], name);
          assert Is(log[i], name);
        }
      }
    }
  }

  /** Lookup is lookup in the map. */
  lemma LookupIsMap(log: Log, name: Name)
    requires UniqueNames(log)
    ensures Lookup(log, name) == if name in Entries(log) then Some(Entries(log)[name]) else None
  {
    EntriesAre(log, name);
    var k := Find(log, name, 0);
    if k < |log| {
      assert Is(log[k], name);
    }
  }

  /** Two logs stand for the same map if for every name they have the same live record. */
  lemma SameEntries(log: Log, m: map<Name, int>)
    requires UniqueNames(log)
    requires forall name :: name in m <==> exists i: nat :: i < |log| && Is(log[i], name)
    requires forall i: nat | i < |log| && IsLive(log[i]) && log[i].name in m :: m[log[i].name] == log[i].inodeNr
    ensures Entries(log) == m
  {
    forall name ensures name in Entries(log) <==> name in m {
      EntriesAre(log, name);
    }
    forall name | name in m ensures Entries(log)[name] == m[name] {
      EntriesAre(log, name);
      var i: nat :| i < |log| && Is(log[i], name);
    }
  }

  /** Writing a record over a removed one, or at the end, with a name not in use adds it to the map. */
  lemma WrittenAdds(log: Log, k: nat, r: Record)
    requires UniqueNames(log) && k <= |log| && IsLive(r) && r.name !in Entries(log)
    requires k < |log| ==> !IsLive(log[k])
    ensures UniqueNames(Written(log, k, r)) && Entries(Written(log, k, r)) == Entries(log)[r.name := r.inodeNr]
  {
    var log' := Written(log, k, r);
    EntriesAre(log, r.name);
    forall i: nat, j: nat ensures NotBoth(log', i, j) {
      assert NotBoth(log, i, j);
      assert i < |log| ==> !Is(log[i], r.name);
      assert j < |log| ==> !Is(log[j], r.name);
    }
    var m := Entries(log)[r.name := r.inodeNr];
    forall name ensures name in m <==> exists i: nat :: i < |log'| && Is(log'[i], name) {
      EntriesAre(log, name);
      if name == r.name {
        assert Is(log'[k], name);
      } else if name in Entries(log) {
        var i: nat :| i < |log| && Is(log[i], name);
        assert i != k && Is(log'[i], name);
      }
    }
    forall i: nat | i < |log'| && IsLive(log'[i]) ensures m[log'[i].name] == log'[i].inodeNr {
      if i != k {
        EntriesAre(log, log[i].name);
        assert Is(log[i], log[i].name);
      }
    }
    SameEntries(log', m);
  }

  lemma {:induction false} SameSizesSameOffsets(log: Log, log': Log, i: nat)
    requires i <= |log| <= |log'| && forall j | 0 <= j < |log| :: Size(log'[j]) == Size(log[j])
    ensures Offset(log', i) == Offset(log, i)
  {
    if i > 0 {
      SameSizesSameOffsets(log, log', i - 1);
    }
  }

  /**
   * Adding a name that is not in the directory updates the map, moves no record, and changes only one record, which was
   * a removed one, or appends one.
   */
  lemma AddIsUpdate(log: Log, name: Name, inodeNr: nat)
    requires UniqueNames(log) && name !in Entries(log)
    ensures Add(log, name, inodeNr).Some?
    ensures var log' := Add(log, name, inodeNr).value;
            && UniqueNames(log') && Entries(log') == Entries(log)[name := inodeNr]
            && |log| <= |log'| <= |log| + 1
            && (forall i: nat | i <= |log| :: Offset(log', i) == Offset(log, i))
            && (forall i: nat | i < |log| && IsLive(log[i]) :: log'[i] == log[i])
  {
    var k := AddStop(log, name, 0);
    EntriesAre(log, name);
    assert k < |log| ==> !Is(log[k], name);
    WrittenAdds(log, k, Record(inodeNr, name));
    forall i: nat | i <= |log| ensures Offset(Written(log, k, Record(inodeNr, name)), i) == Offset(log, i) {
      SameSizesSameOffsets(log, Written(log, k, Record(inodeNr, name)), i);
    }
  }

  /** Adding without looking first: a name is refused exactly if it comes before every removed record that fits it. */
  lemma AddRefusesIff(log: Log, name: Name, inodeNr: nat)
    ensures Add(log, name, inodeNr).None? <==>
              Find(log, name, 0) < |log| && forall j | 0 <= j < Find(log, name, 0) :: !Reusable(log[j], name)
  {
    var k, f := AddStop(log, name, 0), Find(log, name, 0);
    if k < |log| && Is(log[k], name) {
      assert f == k;
    }
  }

  /** So adding alone can put a name into a directory twice; that is why creation looks the name up first. */
  lemma AddCanDuplicate(name: Name, other: Name, a: nat, b: nat)
    requires |name| == |other|
    ensures var log := [Record(INVALID_INODE_NR, other), Record(a, name)];
            UniqueNames(log) && Add(log, name, b).Some? && !UniqueNames(Add(log, name, b).value)
  {
    var log := [Record(INVALID_INODE_NR, other), Record(a, name)];
    forall i: nat, j: nat ensures NotBoth(log, i, j) {}
    assert AddStop(log, name, 0) == 0;
    assert !NotBoth(Add(log, name, b).value, 0, 1);
  }

  /** Removing a name takes it out of the map and changes nothing else. */
  lemma RemoveIsDelete(log: Log, name: Name)
    requires UniqueNames(log)
    ensures Remove(log, name).None? <==> name !in Entries(log)
    ensures Remove(log, name).Some? ==>
              var log' := Remove(log, name).value;
              && UniqueNames(log') && Entries(log') == Entries(log) - {name} && |log'| == |log|
              && (forall i: nat | i <= |log| :: Offset(log', i) == Offset(log, i))
  {
    EntriesAre(log, name);
    var k := Find(log, name, 0);
    if k < |log| {
      assert Is(log[k], name);
      var log' := log[k := log[k].(inodeNr := INVALID_INODE_NR)];
      forall i: nat, j: nat ensures NotBoth(log', i, j) { assert NotBoth(log, i, j); }
      forall n ensures n in Entries(log) - {name} <==> exists i: nat :: i < |log'| && Is(log'[i], n) {
        EntriesAre(log, n);
        forall i: nat | i < |log'| && Is(log'[i], n) ensures n in Entries(log) && n != name {
          assert Is(log[i], n) && NotBoth(log, i, k) && NotBoth(log, k, i);
        }
        if n in Entries(log) && n != name {
          var i: nat :| i < |log| && Is(log[i], n);
          assert i != k && Is(log'[i], n);
        }
      }
      forall i: nat | i < |log'| && IsLive(log'[i]) && log'[i].name in Entries(log) - {name}
        ensures Entries(log)[log'[i].name] == log'[i].inodeNr
      {
        EntriesAre(log, log[i].name);
        assert Is(log[i], log[i].name);
      }
      SameEntries(log', Entries(log) - {name});
      forall i: nat | i <= |log| ensures Offset(log', i) == Offset(log, i) {
        SameSizesSameOffsets(log, log', i);
      }
    }
  }

  // ---------------------------------------------------------------- writing a record

  /** The last record ends the directory. */
  lemma FlattenLast(log: Log, r: Record)
    requires ValidLog(log) && ValidRecord(r)
    ensures ValidLog(log + [r]) && Flatten(log + [r]) == Flatten(log) + Encode(r)
  {
    assert (log + [r])[..|log|] == log;
  }

  lemma ValidParts(log: Log, k: nat)
    requires ValidLog(log) && k <= |log|
    ensures ValidLog(log[..k]) && ValidLog(log[k..])
  {}

  lemma {:induction false} FlattenConcat(a: Log, b: Log)
    requires ValidLog(a) && ValidLog(b)
    ensures ValidLog(a + b) && Flatten(a + b) == Flatten(a) + Flatten(b)
  {
    hide Encode, Size, Flatten, ValidRecord, ValidLog;
    if b == [] {
      assert a + b == a;
      NothingFlat(b);
    } else {
      var front, last := b[..|b| - 1], b[|b| - 1];
      LastValid(b);
      ValidParts(b, |b| - 1);
      FlattenConcat(a, front);
      FlattenLast(a + front, last);
      FlattenLast(front, last);
      assert a + b == a + front + [last] && b == front + [last];
    }
  }

  lemma LastValid(log: Log)
    requires ValidLog(log) && log != []
    ensures ValidRecord(log[|log| - 1])
  {}

  lemma NothingFlat(log: Log)
    requires log == []
    ensures ValidLog(log) && Flatten(log) == []
  {}

  /** The directory before record k, the record, and the directory after it. */
  lemma SplitAt(log: Log, k: nat)
    requires ValidLog(log) && k < |log|
    ensures ValidLog(log[..k]) && ValidRecord(log[k]) && ValidLog(log[k + 1..]) && |Flatten(log[..k])| == Offset(log, k)
    ensures Flatten(log) == Flatten(log[..k]) + Encode(log[k]) + Flatten(log[k + 1..])
  {
    ValidParts(log, k);
    ValidParts(log, k + 1);
    LastValid(log[..k + 1]);
    hide Encode, Size, Flatten, ValidRecord, ValidLog;
    var a, b := log[..k], log[k + 1..];
    OffsetPrefix(log, k, k);
    FlattenLast(a, log[k]);
    CutAround(log, k);
    FlattenConcat(log[..k + 1], b);
  }

  lemma CutAround(log: Log, k: nat)
    requires k < |log|
    ensures log[..k + 1] == log[..k] + [log[k]] && log == log[..k + 1] + log[k + 1..]
  {}

  /** Rewriting a record in place changes its bytes and no others. */
  lemma RewriteRecord(log: Log, k: nat, r: Record)
    requires ValidLog(log) && k < |log| && ValidRecord(r) && Size(r) == Size(log[k])
    ensures ValidLog(log[k := r]) && Offset(log, k) + Size(r) <= |Flatten(log)|
    ensures Flatten(log[k := r]) == Flatten(log)[..Offset(log, k)] + Encode(r) + Flatten(log)[Offset(log, k) + Size(r)..]
  {
    hide Encode, Size, Flatten, Offset;
    SplitAt(log, k);
    SplitAt(log[k := r], k);
    assert log[k := r][..k] == log[..k] && log[k := r][k + 1..] == log[k + 1..];
  }

  /** One more record of a directory whose bytes begin with those of another. */
  lemma SameRecord(a: Log, b: Log, m: nat)
    requires ValidLog(a) && ValidLog(b) && Flatten(a) <= Flatten(b) && m < |a| && m <= |b| && Offset(a, m) == Offset(b, m)
    ensures m < |b| && a[m] == b[m] && Offset(a, m + 1) == Offset(b, m + 1)
  {
    ScanLog(a, m);
    RecordAt(a, m);
    ScanLog(b, m);
    hide Flatten, Encode, Size, ValidRecord, Next;
    SameNext(Flatten(a), Flatten(b), Offset(a, m), a[m]);
  }

  /** A directory whose bytes begin with those of another begins with its records. */
  lemma {:induction false} FlattenPrefix(a: Log, b: Log, n: nat)
    requires ValidLog(a) && ValidLog(b) && Flatten(a) <= Flatten(b) && n <= |a|
    ensures n <= |b| && a[..n] == b[..n] && Offset(a, n) == Offset(b, n)
  {
    hide Flatten, ValidLog, Offset;
    if n == 0 {
      NoOffset(a, 0);
      NoOffset(b, 0);
    } else {
      FlattenPrefix(a, b, n - 1);
      SameRecord(a, b, n - 1);
      assert a[..n] == a[..n - 1] + [a[n - 1]];
    }
  }

  lemma NoOffset(log: Log, i: nat)
    requires i == 0
    ensures Offset(log, i) == 0
  {}

  lemma SameNext(a: seq<byte>, b: seq<byte>, off: nat, r: Record)
    requires a <= b && ValidRecord(r) && off + Size(r) <= |a| && a[off..off + Size(r)] == Encode(r)
    ensures Next(b, off) == Some((r, off + Size(r)))
  {
    assert b[off..off + Size(r)] == a[off..off + Size(r)];
    DecodeEncoded(b, off, r);
  }

  /** A record of which only a part was appended: the directory is a log again exactly if the part is nothing or everything. */
  lemma TornRecord(log: Log, r: Record, n: nat)
    requires ValidLog(log) && ValidRecord(r) && n <= Size(r)
    ensures (exists log' :: ValidLog(log') && Flatten(log') == Flatten(log) + Encode(r)[..n]) <==> n == 0 || n == Size(r)
  {
    hide Flatten, Encode, Size, ValidRecord;
    if n == 0 {
      assert Flatten(log) + Encode(r)[..n] == Flatten(log);
    } else if n == Size(r) {
      FlattenLast(log, r);
      assert Encode(r)[..n] == Encode(r);
    } else if log' :| ValidLog(log') && Flatten(log') == Flatten(log) + Encode(r)[..n] {
      FlattenPrefix(log, log', |log|);
      ScanLog(log', |log|);
      RecordAt(log', |log|);
      OffsetMonotone(log', |log| + 1, |log'|);
      SameLength(Flatten(log) + Encode(r), Flatten(log'), Offset(log, |log|), r, log'[|log|]);
    }
  }

  /** The length of a record is in its first four bytes. */
  lemma SameLength(a: seq<byte>, b: seq<byte>, off: nat, r: Record, q: Record)
    requires ValidRecord(r) && ValidRecord(q) && off + Size(r) <= |a| && off + Size(q) <= |b|
    requires a[off..off + Size(r)] == Encode(r) && b[off..off + Size(q)] == Encode(q) && a[off..off + 4] == b[off..off + 4]
    ensures Size(r) == Size(q)
  {
    DecodeEncoded(a, off, r);
    DecodeEncoded(b, off, q);
  }
}
