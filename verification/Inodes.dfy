/** The overlay's table of inode numbers (`InodeTable` of src/fs.rs). */
module Inodes {
  import opened Wrappers
  import opened Paths

  /** Paths are relative to the mount root, so the root is empty. */
  const ROOT: Path := []
  const ROOT_INO: nat := 1

  datatype Table = Table(byIno: map<nat, Path>, byPath: map<Path, nat>, next: nat)

  datatype Op = Intern(path: Path) | Forget(path: Path) | Rename(from: Path, to: Path)

  function New(): Table { Table(map[ROOT_INO := ROOT], map[ROOT := ROOT_INO], ROOT_INO + 1) }

  function InternStep(t: Table, path: Path): (Table, nat)
  {
    if path in t.byPath then (t, t.byPath[path])
    else (Table(t.byIno[t.next := path], t.byPath[path := t.next], t.next + 1), t.next)
  }

  function ForgetStep(t: Table, path: Path): Table
  {
    if path in t.byPath then t.(byIno := t.byIno - {t.byPath[path]}, byPath := t.byPath - {path}) else t
  }

  function RenameStep(t: Table, from: Path, to: Path): Table
  {
    if from in t.byPath then
      var ino := t.byPath[from];
      t.(byIno := t.byIno[ino := to], byPath := (t.byPath - {from, to})[to := ino])
    else t
  }

  function Step(t: Table, op: Op): Table
  {
    match op
    case Intern(path) => InternStep(t, path).0
    case Forget(path) => ForgetStep(t, path)
    case Rename(from, to) => RenameStep(t, from, to)
  }

  function Run(t: Table, ops: seq<Op>): Table
  {
    if ops == [] then t else Step(Run(t, ops[..|ops| - 1]), ops[|ops| - 1])
  }

  /** The table as an object. */
  class InodeTable {
    var byIno: map<nat, Path>
    var byPath: map<Path, nat>
    var next: nat

    ghost function Abs(): Table
      reads this
    {
      Table(byIno, byPath, next)
    }

    constructor ()
      ensures Abs() == New()
    {
      byIno, byPath := map[ROOT_INO := ROOT], map[ROOT := ROOT_INO];
      next := ROOT_INO + 1;
    }

    method Intern(path: Path) returns (ino: nat)
      modifies this
      ensures (Abs(), ino) == InternStep(old(Abs()), path)
    {
      if path in byPath {
        return byPath[path];
      }
      ino := next;
      next := next + 1;
      byIno := byIno[ino := path];
      byPath := byPath[path := ino];
    }

    method ForgetPath(path: Path)
      modifies this
      ensures Abs() == ForgetStep(old(Abs()), path)
    {
      if path in byPath {
        var ino := byPath[path];
        byPath := byPath - {path};
        byIno := byIno - {ino};
      }
    }

    method Rename(from: Path, to: Path)
      modifies this
      ensures Abs() == RenameStep(old(Abs()), from, to)
    {
      if from in byPath {
        var ino := byPath[from];
        byPath := byPath - {from};
        byPath := byPath - {to};
        byIno := byIno[ino := to];
        byPath := byPath[to := ino];
        assert old(byPath) - {from} - {to} == old(byPath) - {from, to};
      }
    }
  }

  // ---- What every run keeps ----

  /** The mount root is never forgotten, renamed or overwritten. */
  predicate OffRoot(op: Op)
  {
    match op
    case Intern(_) => true
    case Forget(path) => path != ROOT
    case Rename(from, to) => from != ROOT && to != ROOT
  }

  ghost predicate AllOffRoot(ops: seq<Op>)
  {
    forall i :: 0 <= i < |ops| ==> OffRoot(ops[i])
  }

  /** Every path entry points to a number that maps back to the path, numbers in
      use are below the next one, and the root keeps its own. */
  ghost predicate Valid(t: Table)
  {
    && (forall p :: p in t.byPath ==> t.byPath[p] in t.byIno && t.byIno[t.byPath[p]] == p)
    && (forall i :: i in t.byIno ==> i < t.next)
    && ROOT in t.byPath && t.byPath[ROOT] == ROOT_INO
  }

  lemma StepKeepsValid(t: Table, op: Op)
    requires Valid(t) && OffRoot(op)
    ensures Valid(Step(t, op))
  {}

  lemma {:induction false} RunKeepsValid(t: Table, ops: seq<Op>)
    requires Valid(t) && AllOffRoot(ops)
    ensures Valid(Run(t, ops))
  {
    if ops != [] {
      RunKeepsValid(t, ops[..|ops| - 1]);
      StepKeepsValid(Run(t, ops[..|ops| - 1]), ops[|ops| - 1]);
    }
  }

  lemma StepNumbers(t: Table, op: Op)
    requires Valid(t)
    ensures t.next <= Step(t, op).next
    ensures forall i :: i in Step(t, op).byIno ==> i in t.byIno || i == t.next < Step(t, op).next
  {}

  /** A number once issued and gone never comes back. */
  lemma {:induction false} NumbersNeverReused(t: Table, ops: seq<Op>, ino: nat)
    requires Valid(t) && AllOffRoot(ops) && ino < t.next && ino !in t.byIno
    ensures ino !in Run(t, ops).byIno && ino < Run(t, ops).next
  {
    if ops != [] {
      var front := ops[..|ops| - 1];
      NumbersNeverReused(t, front, ino);
      RunKeepsValid(t, front);
      StepNumbers(Run(t, front), ops[|ops| - 1]);
    }
  }

  /** Interning a path pairs it with the number returned, both ways: the number
      it has, or else a new one; all other entries stay. */
  lemma InternPairs(t: Table, path: Path)
    requires Valid(t)
    ensures
      var (u, ino) := InternStep(t, path);
      && Valid(u) && path in u.byPath && u.byPath[path] == ino && ino in u.byIno && u.byIno[ino] == path
      && (path in t.byPath ==> u == t && ino == t.byPath[path])
      && (path !in t.byPath ==> ino !in t.byIno && t.next <= ino < u.next)
      && (forall p :: p in t.byPath ==> p in u.byPath && u.byPath[p] == t.byPath[p])
      && (forall i :: i in t.byIno ==> i in u.byIno && u.byIno[i] == t.byIno[i])
  {}

  /** Forgetting a path removes it and its number and nothing else. */
  lemma ForgetRemoves(t: Table, path: Path)
    requires Valid(t) && path != ROOT
    ensures
      var u := ForgetStep(t, path);
      && Valid(u) && u.byPath == t.byPath - {path}
      && u.byIno == t.byIno - (if path in t.byPath then {t.byPath[path]} else {})
  {
    if path !in t.byPath {
      assert t.byPath - {path} == t.byPath && t.byIno - {} == t.byIno;
    }
  }

  /** The number of a forgotten path is not given out again, to any path, after
      any run. */
  lemma ForgottenForGood(t: Table, path: Path, ops: seq<Op>, q: Path)
    requires Valid(t) && path in t.byPath && path != ROOT && AllOffRoot(ops)
    ensures InternStep(Run(ForgetStep(t, path), ops), q).1 != t.byPath[path]
  {
    ForgetRemoves(t, path);
    var u := ForgetStep(t, path);
    NumbersNeverReused(u, ops, t.byPath[path]);
    RunKeepsValid(u, ops);
    InternPairs(Run(u, ops), q);
  }

  // ---- An inode follows its file ----

  /** Where the file at `p` is after the operation, if it still exists. */
  function FollowStep(t: Table, op: Op, p: Path): Option<Path>
  {
    match op
    case Intern(_) => Some(p)
    case Forget(path) => if path == p then None else Some(p)
    case Rename(from, to) =>
      if from == p then Some(to) else if to == p && from in t.byPath then None else Some(p)
  }

  function Follow(t: Table, ops: seq<Op>, p: Path): Option<Path>
  {
    if ops == [] then Some(p)
    else
      var q := Follow(t, ops[..|ops| - 1], p);
      if q.None? then None else FollowStep(Run(t, ops[..|ops| - 1]), ops[|ops| - 1], q.value)
  }

  /** A number handed out for a path names the file through every rename, as
      long as the file is not removed or overwritten. */
  lemma {:induction false} NumberFollowsFile(t: Table, ops: seq<Op>, p: Path)
    requires Valid(t) && AllOffRoot(ops) && p in t.byPath && Follow(t, ops, p).Some?
    ensures
      var u, q := Run(t, ops), Follow(t, ops, p).value;
      && q in u.byPath && u.byPath[q] == t.byPath[p]
      && t.byPath[p] in u.byIno && u.byIno[t.byPath[p]] == q
      && InternStep(u, q) == (u, t.byPath[p])
  {
    if ops != [] {
      var front := ops[..|ops| - 1];
      NumberFollowsFile(t, front, p);
      RunKeepsValid(t, front);
    }
    RunKeepsValid(t, ops);
  }

  // ---- Numbers without a path ----

  ghost predicate Orphan(t: Table, i: nat)
  {
    i in t.byIno && !(t.byIno[i] in t.byPath && t.byPath[t.byIno[i]] == i)
  }

  /** The number displaced by a rename onto an existing path. */
  function DisplacedBy(t: Table, op: Op): set<nat>
  {
    if op.Rename? && op.from in t.byPath && op.to in t.byPath && op.from != op.to then {t.byPath[op.to]} else {}
  }

  function Displaced(t: Table, ops: seq<Op>): set<nat>
  {
    if ops == [] then {}
    else Displaced(t, ops[..|ops| - 1]) + DisplacedBy(Run(t, ops[..|ops| - 1]), ops[|ops| - 1])
  }

  lemma RenameOrphans(t: Table, from: Path, to: Path, i: nat)
    requires Valid(t)
    ensures Orphan(RenameStep(t, from, to), i) <==> Orphan(t, i) || i in DisplacedBy(t, Rename(from, to))
  {}

  lemma StepOrphans(t: Table, op: Op, i: nat)
    requires Valid(t)
    ensures Orphan(Step(t, op), i) <==> Orphan(t, i) || i in DisplacedBy(t, op)
  {
    match op
    case Rename(from, to) => RenameOrphans(t, from, to, i);
    case Intern(_) =>
    case Forget(_) =>
  }

  /** The numbers in the table that no path points to are exactly those whose
      path was the target of a rename: they stay, and are never paired again. */
  lemma {:induction false} OrphansAreDisplaced(ops: seq<Op>, i: nat)
    requires AllOffRoot(ops)
    ensures Orphan(Run(New(), ops), i) <==> i in Displaced(New(), ops)
  {
    if ops != [] {
      var front := ops[..|ops| - 1];
      OrphansAreDisplaced(front, i);
      RunKeepsValid(New(), front);
      StepOrphans(Run(New(), front), ops[|ops| - 1], i);
    }
  }
}
