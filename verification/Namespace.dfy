/** The tree of directories and files, as the directory logs describe it, and the commands that change it. */
module Namespaces {
  import opened Errors
  import opened Options
  import opened Directories

  const ROOT: nat := 0

  /** The logs of all directories by inode number, the numbers of all files, and the current directory. */
  datatype Space = Space(dirs: map<nat, Log>, files: set<nat>, cur: nat)

  function EntriesOf(s: Space, d: nat): map<Name, int> {
    if d in s.dirs then Entries(s.dirs[d]) else map[]
  }

  /** What `..` says. */
  function Parent(s: Space, d: nat): int {
    var e := EntriesOf(s, d);
    if DOTDOT in e then e[DOTDOT] else INVALID_INODE_NR
  }

  /** Directory p has an entry of that name, other than `.` and `..`, for inode t. */
  predicate IsChild(s: Space, p: int, name: Name, t: nat) {
    p >= 0 && name in EntriesOf(s, p) && !IsDots(name) && EntriesOf(s, p)[name] == t
  }

  ghost predicate HasEntry(s: Space, p: int, t: nat) {
    exists name :: IsChild(s, p, name, t)
  }

  ghost predicate DirGood(s: Space, rank: map<nat, nat>, d: nat) {
    d in s.dirs ==>
      && UniqueNames(s.dirs[d]) && DOT in EntriesOf(s, d) && EntriesOf(s, d)[DOT] == d && d !in s.files
      && d in rank && Parent(s, d) >= 0 && Parent(s, d) in s.dirs && Parent(s, d) in rank
      && if d == ROOT then Parent(s, d) == ROOT else rank[Parent(s, d)] < rank[d] && HasEntry(s, Parent(s, d), d)
  }

  ghost predicate FileGood(s: Space, f: nat) {
    f in s.files ==> exists p :: HasEntry(s, p, f)
  }

  ghost predicate ChildGood(s: Space, p: int, name: Name, t: nat) {
    IsChild(s, p, name, t) ==> t in s.files || (t in s.dirs && t != ROOT && Parent(s, t) == p)
  }

  ghost predicate OneEntry(s: Space, t: nat, p: int, name: Name, q: int, name': Name) {
    IsChild(s, p, name, t) && IsChild(s, q, name', t) ==> p == q && name == name'
  }

  /**
   * The directories form a tree: `rank` falls from each directory to its parent, `..` names the only directory that has
   * an entry for it, and every inode but the root has exactly one entry.
   */
  ghost predicate IsTree(s: Space, rank: map<nat, nat>) {
    && ROOT in s.dirs && s.cur in s.dirs
    && (forall d: nat :: DirGood(s, rank, d))
    && (forall f: nat :: FileGood(s, f))
    && (forall p, name, t: nat :: ChildGood(s, p, name, t))
    && (forall t: nat, p, name, q, name' :: OneEntry(s, t, p, name, q, name'))
  }

  // ---------------------------------------------------------------- paths

  /** The first record for an inode number from i on. */
  function FirstFor(log: Log, nr: nat, i: nat): (k: nat)
    requires i <= |log|
    ensures i <= k <= |log| && (k < |log| ==> log[k].inodeNr == nr)
    ensures forall j | i <= j < k :: log[j].inodeNr != nr
    decreases |log| - i
  {
    if i == |log| || log[i].inodeNr == nr then i else FirstFor(log, nr, i + 1)
  }

  /** A directory that is not the root is found in its parent, under a name of its own. */
  lemma FoundInParent(s: Space, rank: map<nat, nat>, d: nat)
    requires IsTree(s, rank) && d in s.dirs && d != ROOT
    ensures Parent(s, d) >= 0 && Parent(s, d) in s.dirs && Parent(s, d) in rank && d in rank && rank[Parent(s, d)] < rank[d]
    ensures var log := s.dirs[Parent(s, d)]; var k := FirstFor(log, d, 0);
            k < |log| && IsChild(s, Parent(s, d), log[k].name, d)
  {
    assert DirGood(s, rank, d);
    var p := Parent(s, d);
    assert DirGood(s, rank, p);
    var log, k := s.dirs[p], FirstFor(s.dirs[p], d, 0);
    var name :| IsChild(s, p, name, d);
    EntriesAre(log, name);
    var i: nat :| i < |log| && Is(log[i], name);
    assert log[i].inodeNr == d;
    EntriesAre(log, log[k].name);
    assert Is(log[k], log[k].name);
  }

  /** The names that pwd prints, from the root down. It stops at the directory that is its own parent. */
  ghost function Pwd(s: Space, rank: map<nat, nat>, d: nat): (path: seq<Name>)
    requires IsTree(s, rank) && d in s.dirs
    ensures d in rank
    decreases if d in rank then rank[d] else 0
  {
    assert DirGood(s, rank, d);
    var p := Parent(s, d);
    if p == d then []
    else
      FoundInParent(s, rank, d);
      Pwd(s, rank, p) + [s.dirs[p][FirstFor(s.dirs[p], d, 0)].name]
  }

  /** Follows a path from directory d, one lookup after the other. */
  function Resolve(s: Space, d: nat, path: seq<Name>): Option<int>
    decreases |path|
  {
    if path == [] then Some(d)
    else if d !in s.dirs then None
    else
      var t := Lookup(s.dirs[d], path[0]);
      if t.None? || t.value < 0 then None else Resolve(s, t.value, path[1..])
  }

  lemma {:induction false} ResolveMore(s: Space, d: nat, path: seq<Name>, name: Name)
    requires Resolve(s, d, path).Some? && Resolve(s, d, path).value >= 0
    ensures Resolve(s, d, path + [name]) == Resolve(s, Resolve(s, d, path).value, [name])
    decreases |path|
  {
    if path == [] {
      assert path + [name] == [name];
    } else {
      var t := Lookup(s.dirs[d], path[0]);
      assert (path + [name])[1..] == path[1..] + [name];
      ResolveMore(s, t.value, path[1..], name);
    }
  }

  /** Printing the path of a directory ends at the root, and following the path from the root leads back to the directory. */
  lemma {:induction false} PwdResolves(s: Space, rank: map<nat, nat>, d: nat)
    requires IsTree(s, rank) && d in s.dirs
    ensures Resolve(s, ROOT, Pwd(s, rank, d)) == Some(d)
    ensures Pwd(s, rank, d) == [] <==> d == ROOT
    ensures forall i | 0 <= i < |Pwd(s, rank, d)| :: !IsDots(Pwd(s, rank, d)[i])
    decreases if d in rank then rank[d] else 0
  {
    assert DirGood(s, rank, d);
    var p := Parent(s, d);
    if d != ROOT {
      FoundInParent(s, rank, d);
      PwdResolves(s, rank, p);
      var name := s.dirs[p][FirstFor(s.dirs[p], d, 0)].name;
      ResolveMore(s, ROOT, Pwd(s, rank, p), name);
      assert DirGood(s, rank, p);
      LookupIsMap(s.dirs[p], name);
      assert [name][1..] == [];
    }
  }

  /** `..` names the one directory that has an entry for d, and there is one such entry. */
  lemma UniqueParent(s: Space, rank: map<nat, nat>, d: nat, p: int, name: Name)
    requires IsTree(s, rank) && d in s.dirs && IsChild(s, p, name, d)
    ensures d != ROOT && Parent(s, d) == p && forall q, name' | IsChild(s, q, name', d) :: q == p && name' == name
  {
    assert DirGood(s, rank, d) && ChildGood(s, p, name, d);
    forall q, name' | IsChild(s, q, name', d) ensures q == p && name' == name {
      assert OneEntry(s, d, p, name, q, name');
    }
  }

  // ---------------------------------------------------------------- the commands

  /** A new directory: itself and its parent. */
  function EmptyDirectory(nr: nat, parent: nat): Log {
    [Record(nr, DOT), Record(parent, DOTDOT)]
  }

  /** Creates a file or directory in the current directory, with a new inode number. */
  function Create(s: Space, isDir: bool, name: Name, nr: nat): (Space, int)
    requires s.cur in s.dirs
  {
    var log := s.dirs[s.cur];
    if Lookup(log, name).Some? then (s, -EEXIST)
    else match Add(log, name, nr)
      case None => (s, -EEXIST)
      case Some(log') =>
        if isDir then (Space(s.dirs[s.cur := log'][nr := EmptyDirectory(nr, s.cur)], s.files, s.cur), 0)
        else (Space(s.dirs[s.cur := log'], s.files + {nr}, s.cur), 0)
  }

  /** A directory with live entries besides `.` and `..`. */
  ghost predicate IsOccupied(s: Space, t: int) {
    t in s.dirs && exists i | 0 <= i < |s.dirs[t]| :: IsLive(s.dirs[t][i]) && !IsDots(s.dirs[t][i].name)
  }

  /** Removes a file or an empty directory from the current directory. */
  ghost function Rm(s: Space, name: Name): (Space, int)
    requires s.cur in s.dirs
  {
    var log := s.dirs[s.cur];
    var target := Lookup(log, name);
    if IsDots(name) then (s, -EINVAL)
    else if target.None? then (s, -ENOENT)
    else if IsOccupied(s, target.value) then (s, -ENOTEMPTY)
    else match Remove(log, name)
      case None => (s, -ENOENT)
      case Some(log') =>
        if target.value < 0 then (s, -ENOENT)
        else (Space(s.dirs[s.cur := log'] - {target.value}, s.files - {target.value}, s.cur), target.value)
  }

  /** Changes the current directory. */
  function Cd(s: Space, name: Name): (Space, int)
    requires s.cur in s.dirs
  {
    match Lookup(s.dirs[s.cur], name)
    case None => (s, -ENOENT)
    case Some(t) => if t < 0 then (s, -ENOENT) else if t !in s.dirs then (s, -ENOTDIR) else (s.(cur := t), 0)
  }

  // ---------------------------------------------------------------- what the commands keep

  lemma EmptyDirectoryEntries(nr: nat, parent: nat)
    ensures UniqueNames(EmptyDirectory(nr, parent))
    ensures Entries(EmptyDirectory(nr, parent)) == map[DOT := nr as int, DOTDOT := parent as int]
  {
    var log := EmptyDirectory(nr, parent);
    forall i: nat, j: nat ensures NotBoth(log, i, j) {}
    var self := [Record(nr, DOT)];
    assert self[..0] == [] && Entries(self) == map[DOT := nr as int];
    assert log[..1] == self;
    assert Entries(log) == Entries(log[..1])[DOTDOT := parent as int];
  }

  /** The new entry and the old ones after a creation. */
  lemma CreatedEntries(s: Space, rank: map<nat, nat>, isDir: bool, name: Name, nr: nat)
    requires IsTree(s, rank) && nr !in s.dirs && nr !in s.files && Create(s, isDir, name, nr).1 == 0
    ensures var s' := Create(s, isDir, name, nr).0;
            && name !in EntriesOf(s, s.cur) && !IsDots(name)
            && (forall d: nat :: EntriesOf(s', d) ==
                  if d == nr && isDir then map[DOT := nr as int, DOTDOT := s.cur as int]
                  else if d == s.cur then EntriesOf(s, d)[name := nr] else EntriesOf(s, d))
            && (forall d | d in s'.dirs :: d in s.dirs || (d == nr && isDir))
            && (forall d | d in s'.dirs && (d in s.dirs ==> UniqueNames(s.dirs[d])) :: UniqueNames(s'.dirs[d]))
  {
    assert DirGood(s, rank, s.cur);
    LookupIsMap(s.dirs[s.cur], name);
    AddIsUpdate(s.dirs[s.cur], name, nr);
    EmptyDirectoryEntries(nr, s.cur);
  }

  /** Which entries there are after a creation. */
  lemma CreatedChildren(s: Space, rank: map<nat, nat>, isDir: bool, name: Name, nr: nat, p: int, n: Name, t: nat)
    requires IsTree(s, rank) && nr !in s.dirs && nr !in s.files && Create(s, isDir, name, nr).1 == 0
    ensures IsChild(Create(s, isDir, name, nr).0, p, n, t) <==> IsChild(s, p, n, t) || (p == s.cur && n == name && t == nr)
    ensures t == nr ==> !IsChild(s, p, n, t)
  {
    CreatedEntries(s, rank, isDir, name, nr);
    assert ChildGood(s, p, n, t);
    if p >= 0 {
      assert EntriesOf(s, nr) == map[];
    }
  }

  /** Directory d refers to itself and to its parent as it should. */
  ghost predicate SelfIs(s: Space, d: nat, parent: int) {
    d in s.dirs && UniqueNames(s.dirs[d]) && DOT in EntriesOf(s, d) && EntriesOf(s, d)[DOT] == d && Parent(s, d) == parent
  }

  ghost predicate GrownChild(s: Space, s': Space, name: Name, nr: nat, p: int, n: Name, t: nat) {
    && (IsChild(s', p, n, t) <==> IsChild(s, p, n, t) || (p == s.cur && n == name && t == nr))
    && (IsChild(s, p, n, t) ==> t != nr)
  }

  ghost predicate GrownDir(s: Space, s': Space, d: nat) {
    d in s.dirs && SelfIs(s, d, Parent(s, d)) ==> SelfIs(s', d, Parent(s, d))
  }

  /** The current directory has one more entry, for inode nr. */
  ghost predicate Grown(s: Space, s': Space, isDir: bool, name: Name, nr: nat) {
    && nr !in s.dirs && nr !in s.files && s'.cur == s.cur
    && s'.dirs.Keys == s.dirs.Keys + (if isDir then {nr} else {}) && s'.files == s.files + (if isDir then {} else {nr})
    && (forall p: int, n, t: nat :: GrownChild(s, s', name, nr, p, n, t))
    && (forall d: nat :: GrownDir(s, s', d))
    && (isDir ==> SelfIs(s', nr, s.cur))
  }

  lemma CreateGrows(s: Space, rank: map<nat, nat>, isDir: bool, name: Name, nr: nat)
    requires IsTree(s, rank) && nr !in s.dirs && nr !in s.files && Create(s, isDir, name, nr).1 == 0
    ensures Grown(s, Create(s, isDir, name, nr).0, isDir, name, nr)
  {
    var s' := Create(s, isDir, name, nr).0;
    CreatedEntries(s, rank, isDir, name, nr);
    forall p: int, n, t: nat ensures GrownChild(s, s', name, nr, p, n, t) {
      CreatedChildren(s, rank, isDir, name, nr, p, n, t);
    }
  }

  lemma GrownIsTree(s: Space, rank: map<nat, nat>, s': Space, isDir: bool, name: Name, nr: nat)
    requires IsTree(s, rank) && Grown(s, s', isDir, name, nr) && s.cur in rank
    ensures IsTree(s', if isDir then rank[nr := rank[s.cur] + 1] else rank)
  {
    hide EntriesOf, Parent, IsChild, UniqueNames;
    var rank' := if isDir then rank[nr := rank[s.cur] + 1] else rank;
    forall p: int, t: nat ensures HasEntry(s, p, t) ==> HasEntry(s', p, t) {
      if n :| IsChild(s, p, n, t) {
        assert GrownChild(s, s', name, nr, p, n, t);
      }
    }
    assert GrownChild(s, s', name, nr, s.cur, name, nr) && HasEntry(s', s.cur, nr);
    assert DirGood(s, rank, ROOT) && DirGood(s, rank, s.cur);
    forall d: nat ensures DirGood(s', rank', d) {
      assert DirGood(s, rank, d) && GrownDir(s, s', d);
    }
    forall f: nat ensures FileGood(s', f) {
      assert FileGood(s, f);
      if f in s.files {
        var p :| HasEntry(s, p, f);
        assert HasEntry(s', p, f);
      }
    }
    forall p, n, t: nat ensures ChildGood(s', p, n, t) {
      assert ChildGood(s, p, n, t) && GrownChild(s, s', name, nr, p, n, t) && DirGood(s, rank, t) && GrownDir(s, s', t);
    }
    forall t: nat, p, n, q, n' ensures OneEntry(s', t, p, n, q, n') {
      assert OneEntry(s, t, p, n, q, n') && GrownChild(s, s', name, nr, p, n, t) && GrownChild(s, s', name, nr, q, n', t);
    }
  }

  /** Creation fails exactly if the name is there, and else gives a tree again. */
  lemma CreateKeepsTree(s: Space, rank: map<nat, nat>, isDir: bool, name: Name, nr: nat)
    requires IsTree(s, rank) && nr !in s.dirs && nr !in s.files
    ensures Create(s, isDir, name, nr).1 == -EEXIST <==> name in EntriesOf(s, s.cur)
    ensures Create(s, isDir, name, nr).1 == -EEXIST ==> Create(s, isDir, name, nr).0 == s
    ensures Create(s, isDir, name, nr).1 == -EEXIST || Create(s, isDir, name, nr).1 == 0
    ensures s.cur in rank
    ensures Create(s, isDir, name, nr).1 == 0 ==>
              IsTree(Create(s, isDir, name, nr).0, if isDir then rank[nr := rank[s.cur] + 1] else rank)
  {
    assert DirGood(s, rank, s.cur);
    LookupIsMap(s.dirs[s.cur], name);
    if name !in EntriesOf(s, s.cur) {
      AddIsUpdate(s.dirs[s.cur], name, nr);
      CreateGrows(s, rank, isDir, name, nr);
      GrownIsTree(s, rank, Create(s, isDir, name, nr).0, isDir, name, nr);
    }
  }

  /** An unoccupied directory has no child. */
  lemma NoChildren(s: Space, rank: map<nat, nat>, t: int, name: Name, u: nat)
    requires IsTree(s, rank) && !IsOccupied(s, t)
    ensures !IsChild(s, t, name, u)
  {
    if IsChild(s, t, name, u) {
      assert DirGood(s, rank, t);
      EntriesAre(s.dirs[t], name);
    }
  }

  /** What is removed: the one entry of a file or a directory without children, which is neither the root nor the current directory. */
  lemma RemovedEntries(s: Space, rank: map<nat, nat>, name: Name)
    requires IsTree(s, rank) && Rm(s, name).1 >= 0
    ensures var (s', t) := Rm(s, name);
            && IsChild(s, s.cur, name, t) && t != s.cur && t != ROOT && !IsOccupied(s, t)
            && s'.dirs.Keys == s.dirs.Keys - {t} && s'.files == s.files - {t} && s'.cur == s.cur
            && (forall d: nat | d != t :: EntriesOf(s', d) == if d == s.cur then EntriesOf(s, d) - {name} else EntriesOf(s, d))
            && (forall d | d in s'.dirs :: UniqueNames(s'.dirs[d]))
            && (forall d: nat | d in s.dirs && d != t :: Parent(s', d) == Parent(s, d) && Parent(s, d) != t)
  {
    assert DirGood(s, rank, s.cur);
    LookupIsMap(s.dirs[s.cur], name);
    RemoveIsDelete(s.dirs[s.cur], name);
    var (s', t) := Rm(s, name);
    assert IsChild(s, s.cur, name, t) && ChildGood(s, s.cur, name, t) && DirGood(s, rank, t) && DirGood(s, rank, ROOT);
    forall d | d in s'.dirs ensures UniqueNames(s'.dirs[d]) {
      assert DirGood(s, rank, d);
    }
    forall d: nat | d in s.dirs && d != t ensures Parent(s', d) == Parent(s, d) && Parent(s, d) != t {
      assert DirGood(s, rank, d);
      if d != ROOT && Parent(s, d) == t {
        var n :| IsChild(s, t, n, d);
        NoChildren(s, rank, t, n, d);
      }
    }
  }

  lemma RemovedChildren(s: Space, rank: map<nat, nat>, name: Name, p: int, n: Name, u: nat)
    requires IsTree(s, rank) && Rm(s, name).1 >= 0
    ensures IsChild(Rm(s, name).0, p, n, u) <==> IsChild(s, p, n, u) && !(p == s.cur && n == name)
    ensures IsChild(Rm(s, name).0, p, n, u) ==> u != Rm(s, name).1
  {
    RemovedEntries(s, rank, name);
    var (s', t) := Rm(s, name);
    if p == t {
      NoChildren(s, rank, t, n, u);
    }
    assert OneEntry(s, t, p, n, s.cur, name);
  }

  /** Removing from a tree gives a tree, in which the current directory still is. */
  lemma RmKeepsTree(s: Space, rank: map<nat, nat>, name: Name)
    requires IsTree(s, rank)
    ensures Rm(s, name).1 < 0 ==> Rm(s, name).0 == s
    ensures IsTree(Rm(s, name).0, rank)
  {
    if Rm(s, name).1 >= 0 {
      var (s', t) := Rm(s, name);
      RemovedEntries(s, rank, name);
      forall p, u: nat ensures HasEntry(s, p, u) && u != t ==> HasEntry(s', p, u) {
        if n :| IsChild(s, p, n, u) {
          RemovedChildren(s, rank, name, p, n, u);
        }
      }
      forall d: nat ensures DirGood(s', rank, d) { assert DirGood(s, rank, d); }
      forall f: nat ensures FileGood(s', f) {
        assert FileGood(s, f);
        if f in s.files {
          var p :| HasEntry(s, p, f);
          assert f != t ==> HasEntry(s', p, f);
        }
      }
      forall p, n, u: nat ensures ChildGood(s', p, n, u) {
        assert ChildGood(s, p, n, u);
        RemovedChildren(s, rank, name, p, n, u);
      }
      forall u: nat, p, n, q, n' ensures OneEntry(s', u, p, n, q, n') {
        assert OneEntry(s, u, p, n, q, n');
        RemovedChildren(s, rank, name, p, n, u);
        RemovedChildren(s, rank, name, q, n', u);
      }
    }
  }

  lemma CdKeepsTree(s: Space, rank: map<nat, nat>, name: Name)
    requires IsTree(s, rank)
    ensures IsTree(Cd(s, name).0, rank) && (Cd(s, name).1 < 0 ==> Cd(s, name).0 == s)
  {
    AnyCurrent(s, rank, Cd(s, name).0.cur);
  }

  /** Any directory of the tree can be the current one. */
  lemma AnyCurrent(s: Space, rank: map<nat, nat>, t: nat)
    requires IsTree(s, rank) && t in s.dirs
    ensures IsTree(s.(cur := t), rank)
  {
    var s' := s.(cur := t);
    forall d: nat ensures DirGood(s', rank, d) {
      assert DirGood(s, rank, d);
      assert d != ROOT && d in s.dirs ==> HasEntry(s', Parent(s, d), d) by {
        if n :| IsChild(s, Parent(s, d), n, d) { assert IsChild(s', Parent(s, d), n, d); }
      }
    }
    forall f: nat ensures FileGood(s', f) {
      assert FileGood(s, f);
      if f in s.files {
        var p :| HasEntry(s, p, f);
        var n :| IsChild(s, p, n, f);
        assert IsChild(s', p, n, f) && HasEntry(s', p, f);
      }
    }
    forall p, n, t: nat ensures ChildGood(s', p, n, t) {
      assert ChildGood(s, p, n, t);
    }
    forall t: nat, p, n, q, n' ensures OneEntry(s', t, p, n, q, n') {
      assert OneEntry(s, t, p, n, q, n');
    }
  }

  // ---------------------------------------------------------------- whole sessions

  datatype Command = Make(isDir: bool, name: Name, nr: nat) | Delete(name: Name) | Enter(name: Name)

  /** A command; a new inode gets a number that no directory and no file has. */
  ghost predicate Step(s: Space, c: Command, s': Space) {
    && s.cur in s.dirs
    && match c
       case Make(isDir, name, nr) => nr !in s.dirs && nr !in s.files && s' == Create(s, isDir, name, nr).0
       case Delete(name) => s' == Rm(s, name).0
       case Enter(name) => s' == Cd(s, name).0
  }

  ghost predicate Follows(states: seq<Space>, commands: seq<Command>, i: nat) {
    i < |commands| && i + 1 < |states| ==> Step(states[i], commands[i], states[i + 1])
  }

  /** A session that starts with the root directory alone. */
  ghost predicate Session(states: seq<Space>, commands: seq<Command>) {
    && |states| == |commands| + 1
    && states[0] == Space(map[ROOT := EmptyDirectory(ROOT, ROOT)], {}, ROOT)
    && forall i: nat :: Follows(states, commands, i)
  }

  /**
   * In every state of every session the directories form a tree, and for every directory, the current one included,
   * pwd ends and prints a path that leads back to it.
   */
  lemma {:induction false} NamespaceIsTree(states: seq<Space>, commands: seq<Command>, i: nat) returns (rank: map<nat, nat>)
    requires Session(states, commands) && i < |states|
    ensures IsTree(states[i], rank)
    ensures forall d: nat | d in states[i].dirs :: Resolve(states[i], ROOT, Pwd(states[i], rank, d)) == Some(d)
  {
    if i == 0 {
      rank := map[ROOT := 0];
      RootIsTree(states[0]);
    } else {
      var before := NamespaceIsTree(states, commands, i - 1);
      assert Follows(states, commands, i - 1);
      var s := states[i - 1];
      rank := before;
      match commands[i - 1]
      case Make(isDir, name, nr) =>
        CreateKeepsTree(s, before, isDir, name, nr);
        if isDir && Create(s, isDir, name, nr).1 == 0 {
          rank := before[nr := before[s.cur] + 1];
        }
      case Delete(name) => RmKeepsTree(s, before, name);
      case Enter(name) => CdKeepsTree(s, before, name);
    }
    forall d: nat | d in states[i].dirs ensures Resolve(states[i], ROOT, Pwd(states[i], rank, d)) == Some(d) {
      PwdResolves(states[i], rank, d);
    }
  }

  lemma RootIsTree(s: Space)
    requires s == Space(map[ROOT := EmptyDirectory(ROOT, ROOT)], {}, ROOT)
    ensures IsTree(s, map[ROOT := 0])
  {
    EmptyDirectoryEntries(ROOT, ROOT);
    forall d: nat ensures DirGood(s, map[ROOT := 0], d) {}
    forall p, n, t: nat ensures ChildGood(s, p, n, t) && !IsChild(s, p, n, t) {}
    forall t: nat, p, n, q, n' ensures OneEntry(s, t, p, n, q, n') {}
    forall f: nat ensures FileGood(s, f) {}
  }
}
