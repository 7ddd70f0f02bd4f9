/** Resolving `.` and `..` without touching the filesystem
    (`lexically_normalize` and its use in src/fs.rs), judged by walking a tree
    of directories without symlinks. */
module LexicalPath {
  import opened Wrappers

  datatype Component = RootDir | CurDir | ParentDir | Normal(name: string)

  /** The components of a path, as `Path::components` yields them. */
  type Path = seq<Component>

  // ---- Normalisation ----

  /** `PathBuf::push` of one component: the root replaces everything. */
  function Push(out: Path, c: Component): Path
  {
    if c.RootDir? then [c] else out + [c]
  }

  function NormStep(out: Path, c: Component): Path
  {
    match c
    case CurDir => out
    case ParentDir => if out != [] && out[|out| - 1].Normal? then out[..|out| - 1] else out
    case RootDir => Push(out, c)
    case Normal(_) => Push(out, c)
  }

  function NormFrom(out: Path, p: Path): Path
  {
    if p == [] then out else NormStep(NormFrom(out, p[..|p| - 1]), p[|p| - 1])
  }

  function Norm(p: Path): Path { NormFrom([], p) }

  /** `lexically_normalize`. */
  method LexicallyNormalize(p: Path) returns (out: Path)
    ensures out == Norm(p)
  {
    out := [];
    for i := 0 to |p|
      invariant out == Norm(p[..i])
    {
      assert p[..i + 1][..i] == p[..i];
      match p[i] {
        case CurDir =>
        case ParentDir =>
          if out != [] && out[|out| - 1].Normal? {
            out := out[..|out| - 1];
          }
        case _ =>
          out := Push(out, p[i]);
      }
    }
    assert p[..|p|] == p;
  }

  /** Only an optional root in front, then names. */
  predicate IsNormal(p: Path)
  {
    forall i :: 0 <= i < |p| ==> p[i].Normal? || (i == 0 && p[i].RootDir?)
  }

  lemma {:induction false} NormFromIsNormal(out: Path, p: Path)
    requires IsNormal(out)
    ensures IsNormal(NormFrom(out, p))
  {
    if p != [] {
      NormFromIsNormal(out, p[..|p| - 1]);
    }
  }

  lemma {:induction false} NormFromConcat(out: Path, p: Path, q: Path)
    ensures NormFrom(out, p + q) == NormFrom(NormFrom(out, p), q)
  {
    if q == [] {
      assert p + q == p;
    } else {
      assert (p + q)[..|p + q| - 1] == p + q[..|q| - 1];
      NormFromConcat(out, p, q[..|q| - 1]);
    }
  }

  lemma {:induction false} NormOfNormal(p: Path)
    requires IsNormal(p)
    ensures Norm(p) == p
  {
    if p != [] {
      NormOfNormal(p[..|p| - 1]);
      assert p == p[..|p| - 1] + [p[|p| - 1]];
    }
  }

  /** The result has no `.` and no `..`, and normalising it again changes
      nothing. */
  lemma NormIsNormal(p: Path)
    ensures IsNormal(Norm(p)) && Norm(Norm(p)) == Norm(p)
  {
    NormFromIsNormal([], p);
    NormOfNormal(Norm(p));
  }

  predicate IsAbsolute(p: Path) { p != [] && p[0].RootDir? }

  /** `Path::join`: an absolute path replaces. */
  function Join(p: Path, q: Path): Path { if IsAbsolute(q) then q else p + q }

  /** Normalising a prefix first makes no difference. */
  lemma NormJoin(p: Path, q: Path)
    ensures Norm(Join(p, q)) == Norm(Join(Norm(p), q))
  {
    NormIsNormal(p);
    NormFromConcat([], p, q);
    NormFromConcat([], Norm(p), q);
  }

  lemma {:induction false} NormAbsolute(p: Path)
    requires IsAbsolute(p)
    ensures IsAbsolute(Norm(p))
  {
    if |p| == 1 {
      assert p[..0] == [] && Norm(p) == Push([], p[0]);
    } else {
      NormAbsolute(p[..|p| - 1]);
    }
  }

  // ---- Walking a tree ----

  /** Directories with their entries, and the parent of every node. */
  datatype Tree = Tree(root: nat, entries: map<nat, map<string, nat>>, parent: map<nat, nat>)

  /** An entry's node has the directory as parent, one name in it, and is not
      the root; the root is a directory and its own parent. */
  ghost predicate IsTree(t: Tree)
  {
    && t.root in t.entries && t.root in t.parent && t.parent[t.root] == t.root
    && (forall d, n :: d in t.entries && n in t.entries[d] ==> Hangs(t, d, t.entries[d][n]))
    && (forall d, n, m :: d in t.entries && n in t.entries[d] && m in t.entries[d] && n != m ==>
                            t.entries[d][n] != t.entries[d][m])
  }

  predicate Hangs(t: Tree, d: nat, v: nat)
  {
    v in t.parent && t.parent[v] == d && v != t.root
  }

  function WalkStep(t: Tree, v: nat, c: Component): Option<nat>
  {
    match c
    case RootDir => Some(t.root)
    case CurDir => if v in t.entries then Some(v) else None
    case ParentDir => if v in t.entries && v in t.parent then Some(t.parent[v]) else None
    case Normal(name) =>
      if v in t.entries && name in t.entries[v] then Some(t.entries[v][name]) else None
  }

  /** The node reached from `v`, component by component. */
  function WalkFrom(t: Tree, v: nat, p: Path): Option<nat>
  {
    if p == [] then Some(v)
    else
      var u := WalkFrom(t, v, p[..|p| - 1]);
      if u.None? then None else WalkStep(t, u.value, p[|p| - 1])
  }

  function Walk(t: Tree, p: Path): Option<nat> { WalkFrom(t, t.root, p) }

  lemma {:induction false} WalkConcat(t: Tree, v: nat, p: Path, q: Path)
    ensures WalkFrom(t, v, p + q) ==
            if WalkFrom(t, v, p).None? then None else WalkFrom(t, WalkFrom(t, v, p).value, q)
  {
    if q == [] {
      assert p + q == p;
    } else {
      assert (p + q)[..|p + q| - 1] == p + q[..|q| - 1];
      WalkConcat(t, v, p, q[..|q| - 1]);
    }
  }

  /** Walking a normalised path and then one step is walking the normalised
      longer path. */
  lemma NormStepWalks(t: Tree, out: Path, v: nat, c: Component)
    requires IsTree(t) && IsNormal(out) && IsAbsolute(out) && Walk(t, out) == Some(v) && WalkStep(t, v, c).Some?
    ensures Walk(t, NormStep(out, c)) == WalkStep(t, v, c)
  {
    match c
    case CurDir =>
    case RootDir =>
      assert NormStep(out, c) == [c] && [c][..0] == [];
      assert WalkFrom(t, t.root, [c][..0]) == Some(t.root);
    case Normal(_) => assert (out + [c])[..|out|] == out;
    case ParentDir =>
      if !out[|out| - 1].Normal? {
        assert |out| == 1 && out[..0] == [];
      }
  }

  /** Wherever walking an absolute path leads, walking its normal form leads
      too. */
  lemma {:induction false} NormKeepsMeaning(t: Tree, p: Path)
    requires IsTree(t) && IsAbsolute(p) && Walk(t, p).Some?
    ensures Walk(t, Norm(p)) == Walk(t, p)
  {
    if |p| == 1 {
      assert p[..0] == [] && Norm(p) == Push([], p[0]) == p;
    } else {
      var front := p[..|p| - 1];
      NormKeepsMeaning(t, front);
      NormAbsolute(front);
      NormIsNormal(front);
      NormStepWalks(t, Norm(front), Walk(t, front).value, p[|p| - 1]);
    }
  }

  // ---- Inside the overlay or not ----

  /** `v` is `u` or lies below it. */
  ghost predicate Under(t: Tree, u: nat, v: nat)
  {
    exists names: Path :: IsNames(names) && WalkFrom(t, u, names) == Some(v)
  }

  predicate IsNames(p: Path) { forall i :: 0 <= i < |p| ==> p[i].Normal? }

  /** A node has only one normal path. */
  lemma {:induction false} NormalPathUnique(t: Tree, a: Path, b: Path)
    requires IsTree(t) && IsNormal(a) && IsNormal(b) && IsAbsolute(a) && IsAbsolute(b)
    requires Walk(t, a).Some? && Walk(t, a) == Walk(t, b)
    ensures a == b
    decreases |a|
  {
    if |a| > 1 && |b| > 1 {
      NormalPathUnique(t, a[..|a| - 1], b[..|b| - 1]);
      assert a == a[..|a| - 1] + [a[|a| - 1]] && b == b[..|b| - 1] + [b[|b| - 1]];
    } else if |a| == 1 {
      assert a[..0] == [] && Walk(t, a) == Some(t.root);
    } else {
      assert b[..0] == [] && Walk(t, b) == Some(t.root);
    }
  }

  /** A path leads into the directory `m` exactly when its normal form starts
      with `m`: the lexical test decides where the link really leads. */
  lemma WithinIffPrefix(t: Tree, m: Path, p: Path)
    requires IsTree(t) && IsNormal(m) && IsAbsolute(m) && IsAbsolute(p)
    requires Walk(t, m).Some? && Walk(t, p).Some?
    ensures m <= Norm(p) <==> Under(t, Walk(t, m).value, Walk(t, p).value)
  {
    var u, v, np := Walk(t, m).value, Walk(t, p).value, Norm(p);
    NormKeepsMeaning(t, p);
    NormAbsolute(p);
    NormIsNormal(p);
    if m <= np {
      var names := np[|m|..];
      assert np == m + names;
      WalkConcat(t, t.root, m, names);
      assert IsNames(names);
    }
    if Under(t, u, v) {
      var names: Path :| IsNames(names) && WalkFrom(t, u, names) == Some(v);
      WalkConcat(t, t.root, m, names);
      NormalPathUnique(t, m + names, np);
    }
  }

  /** `Path::parent`, or the whole path when there is none. */
  function Containing(p: Path): Path
  {
    if p != [] && !p[|p| - 1].RootDir? then p[..|p| - 1] else p
  }

  /** `symlink_target_within_overlay` for a link at `rel` below `mount` whose
      target reads `target`; an unreadable link counts as escaping. */
  predicate TargetWithin(mount: Path, rel: Path, target: Option<Path>)
  {
    target.Some? && mount <= Norm(Join(Containing(Join(mount, rel)), target.value))
  }

  lemma UnreadableEscapes(mount: Path, rel: Path)
    ensures !TargetWithin(mount, rel, None)
  {}

  /** On a tree in which the link's directory and its target exist, the answer
      is whether following the link from its directory, the mount root plus all
      of `rel` but its last name, ends at or below the mount root. */
  lemma TargetWithinIsRight(t: Tree, mount: Path, rel: Path, target: Path)
    requires IsTree(t) && IsNormal(mount) && IsAbsolute(mount) && IsNames(rel) && rel != []
    requires Walk(t, mount).Some? && Walk(t, mount + rel[..|rel| - 1]).Some?
    requires WalkFrom(t, Walk(t, mount + rel[..|rel| - 1]).value, target).Some?
    ensures TargetWithin(mount, rel, Some(target)) <==>
              Under(t, Walk(t, mount).value, WalkFrom(t, Walk(t, mount + rel[..|rel| - 1]).value, target).value)
  {
    var dir := mount + rel[..|rel| - 1];
    assert Containing(Join(mount, rel)) == dir;
    var whole := Join(dir, target);
    WalkConcat(t, t.root, dir, target);
    if IsAbsolute(target) {
      RootRestarts(t, Walk(t, dir).value, target);
    }
    WithinIffPrefix(t, mount, whole);
  }

  /** An absolute path leads to the same node from everywhere. */
  lemma {:induction false} RootRestarts(t: Tree, v: nat, p: Path)
    requires IsAbsolute(p)
    ensures WalkFrom(t, v, p) == Walk(t, p)
  {
    if |p| == 1 {
      assert p[..0] == [] && WalkFrom(t, v, p[..0]) == Some(v);
      assert WalkFrom(t, t.root, p[..0]) == Some(t.root);
    } else {
      RootRestarts(t, v, p[..|p| - 1]);
    }
  }
}
