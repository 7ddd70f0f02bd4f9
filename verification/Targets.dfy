/** Which directories get an overlay (`dedup_targets` of src/main.rs). */
module Targets {
  import opened Paths

  /** No proper ancestor of the path is among the candidates. */
  ghost predicate Outermost(cs: seq<Path>, p: Path)
  {
    forall i :: 0 <= i < |cs| ==> !(cs[i] < p)
  }

  /** The positions to keep: first appearances of outermost candidates. */
  ghost predicate Survives(cs: seq<Path>, i: nat)
    requires i < |cs|
  {
    Outermost(cs, cs[i]) && forall j :: 0 <= j < i ==> cs[j] != cs[i]
  }

  /** The candidates at surviving positions below `n`, in order. */
  ghost function SurvivorsTo(cs: seq<Path>, n: nat): seq<Path>
    requires n <= |cs|
  {
    if n == 0 then []
    else SurvivorsTo(cs, n - 1) + if Survives(cs, n - 1) then [cs[n - 1]] else []
  }

  /** What the overlays should be: the outermost candidates, each once, in the
      order of first appearance. */
  ghost function Survivors(cs: seq<Path>): seq<Path> { SurvivorsTo(cs, |cs|) }

  /** `retain(|kept| !kept.starts_with(dir))`. */
  function Outside(ts: seq<Path>, dir: Path): seq<Path>
  {
    if ts == [] then []
    else Outside(ts[..|ts| - 1], dir) + if dir <= ts[|ts| - 1] then [] else [ts[|ts| - 1]]
  }

  // ---- The survivors and their candidates ----

  lemma {:induction false} SurvivorsIn(cs: seq<Path>, n: nat, p: Path)
    requires n <= |cs|
    ensures p in SurvivorsTo(cs, n) <==> exists i :: 0 <= i < n && Survives(cs, i) && cs[i] == p
  {
    if n > 0 {
      SurvivorsIn(cs, n - 1, p);
    }
  }

  /** The first appearance of a candidate. */
  lemma {:induction false} FirstAppearance(cs: seq<Path>, i: nat) returns (j: nat)
    requires i < |cs|
    ensures j <= i && cs[j] == cs[i] && forall k :: 0 <= k < j ==> cs[k] != cs[i]
  {
    if k :| 0 <= k < i && cs[k] == cs[i] {
      j := FirstAppearance(cs, k);
    } else {
      j := i;
    }
  }

  /** As a set, the survivors are the outermost candidates, so the order of the
      candidates does not matter. */
  lemma SurvivorsAreOutermost(cs: seq<Path>, p: Path)
    ensures p in Survivors(cs) <==> p in cs && Outermost(cs, p)
  {
    SurvivorsIn(cs, |cs|, p);
    if p in cs && Outermost(cs, p) {
      var i :| 0 <= i < |cs| && cs[i] == p;
      var j := FirstAppearance(cs, i);
      assert Survives(cs, j);
    }
  }

  lemma OrderDoesNotMatter(cs: seq<Path>, ds: seq<Path>, p: Path)
    requires forall q :: q in cs <==> q in ds
    ensures p in Survivors(cs) <==> p in Survivors(ds)
  {
    SurvivorsAreOutermost(cs, p);
    SurvivorsAreOutermost(ds, p);
    OutermostIn(cs, p);
    OutermostIn(ds, p);
  }

  lemma OutermostIn(cs: seq<Path>, p: Path)
    ensures Outermost(cs, p) <==> forall q :: q in cs ==> !(q < p)
  {
    forall i | 0 <= i < |cs| ensures cs[i] in cs {}
  }

  /** Every candidate lies under a survivor. */
  lemma {:induction false} SurvivorsCover(cs: seq<Path>, p: Path) returns (t: Path)
    requires p in cs
    ensures t in Survivors(cs) && t <= p
    decreases |p|
  {
    SurvivorsAreOutermost(cs, p);
    if Outermost(cs, p) {
      t := p;
    } else {
      var i :| 0 <= i < |cs| && cs[i] < p;
      t := SurvivorsCover(cs, cs[i]);
    }
  }

  /** No survivor lies under another, and none appears twice. */
  lemma SurvivorsAreApart(cs: seq<Path>, a: nat, b: nat)
    requires a < |Survivors(cs)| && b < |Survivors(cs)| && a != b
    ensures !(Survivors(cs)[a] <= Survivors(cs)[b])
  {
    var ts := Survivors(cs);
    assert ts[a] in ts && ts[b] in ts;
    SurvivorsAreOutermost(cs, ts[a]);
    SurvivorsAreOutermost(cs, ts[b]);
    assert ts[a] in cs;
    NoRepeat(cs, |cs|);
  }

  lemma {:induction false} NoRepeat(cs: seq<Path>, n: nat)
    requires n <= |cs|
    ensures forall a, b :: 0 <= a < b < |SurvivorsTo(cs, n)| ==> SurvivorsTo(cs, n)[a] != SurvivorsTo(cs, n)[b]
  {
    if n > 0 {
      NoRepeat(cs, n - 1);
      if Survives(cs, n - 1) {
        SurvivorsIn(cs, n - 1, cs[n - 1]);
        assert cs[n - 1] !in SurvivorsTo(cs, n - 1);
      }
    }
  }

  /** Where the survivors stand among the candidates. */
  lemma {:induction false} Positions(cs: seq<Path>, n: nat) returns (ps: seq<nat>)
    requires n <= |cs|
    ensures |ps| == |SurvivorsTo(cs, n)|
    ensures forall a :: 0 <= a < |ps| ==> ps[a] < n && Survives(cs, ps[a]) && SurvivorsTo(cs, n)[a] == cs[ps[a]]
    ensures forall a, b :: 0 <= a < b < |ps| ==> ps[a] < ps[b]
  {
    ps := [];
    if n > 0 {
      ps := Positions(cs, n - 1);
      if Survives(cs, n - 1) {
        ps := ps + [n - 1];
      }
    }
  }

  /** Survivors stand in the order of their first appearance. */
  lemma SurvivorsInOrder(cs: seq<Path>, a: nat, b: nat) returns (i: nat, j: nat)
    requires a < b < |Survivors(cs)|
    ensures i < j < |cs| && cs[i] == Survivors(cs)[a] && cs[j] == Survivors(cs)[b]
    ensures forall k :: 0 <= k < i ==> cs[k] != cs[i]
    ensures forall k :: 0 <= k < j ==> cs[k] != cs[j]
  {
    var ps := Positions(cs, |cs|);
    i, j := ps[a], ps[b];
  }

  // ---- The loop ----

  /** One more candidate changes the standing of an earlier one only by being
      its proper ancestor. */
  lemma StillSurvives(cs: seq<Path>, d: Path, i: nat)
    requires i < |cs|
    ensures Survives(cs + [d], i) <==> Survives(cs, i) && !(d < cs[i])
  {
    var more := cs + [d];
    assert forall j :: 0 <= j < |cs| ==> more[j] == cs[j];
    assert more[|cs|] == d;
  }

  lemma {:induction false} CoveredAddsNothing(cs: seq<Path>, d: Path, n: nat)
    requires Covered(cs, d) && n <= |cs|
    ensures SurvivorsTo(cs + [d], n) == SurvivorsTo(cs, n)
  {
    if n > 0 {
      CoveredAddsNothing(cs, d, n - 1);
      StillSurvives(cs, d, n - 1);
      var c :| 0 <= c < |cs| && cs[c] <= d;
      assert d < cs[n - 1] ==> cs[c] < cs[n - 1];
    }
  }

  lemma {:induction false} SupersedesNested(cs: seq<Path>, d: Path, n: nat)
    requires !Covered(cs, d) && n <= |cs|
    ensures SurvivorsTo(cs + [d], n) == Outside(SurvivorsTo(cs, n), d)
  {
    if n > 0 {
      SupersedesNested(cs, d, n - 1);
      StillSurvives(cs, d, n - 1);
      if Survives(cs, n - 1) {
        var front := SurvivorsTo(cs, n - 1);
        assert (front + [cs[n - 1]])[..|front|] == front;
        assert cs[n - 1] != d;
      } else {
        assert SurvivorsTo(cs, n) == SurvivorsTo(cs, n - 1);
      }
    }
  }

  lemma LastSurvives(cs: seq<Path>, d: Path)
    ensures Survives(cs + [d], |cs|) <==> !Covered(cs, d)
  {
    var more := cs + [d];
    assert forall j :: 0 <= j < |cs| ==> more[j] == cs[j];
  }

  /** The survivors after one more candidate, as the loop computes them. */
  lemma SurvivorsSnoc(cs: seq<Path>, d: Path)
    ensures Survivors(cs + [d]) ==
            if Covered(cs, d) then Survivors(cs) else Outside(Survivors(cs), d) + [d]
  {
    LastSurvives(cs, d);
    if Covered(cs, d) {
      CoveredAddsNothing(cs, d, |cs|);
    } else {
      SupersedesNested(cs, d, |cs|);
    }
  }

  /** Looking at the kept ones is as good as looking at all. */
  lemma CoverAgrees(cs: seq<Path>, d: Path)
    ensures Covered(cs, d) <==> Covered(Survivors(cs), d)
  {
    var ts := Survivors(cs);
    if Covered(cs, d) {
      var i :| 0 <= i < |cs| && cs[i] <= d;
      var t := SurvivorsCover(cs, cs[i]);
      var j :| 0 <= j < |ts| && ts[j] == t;
      assert ts[j] <= d;
    }
    if Covered(ts, d) {
      var j :| 0 <= j < |ts| && ts[j] <= d;
      SurvivorsAreOutermost(cs, ts[j]);
      assert ts[j] in cs;
      var i :| 0 <= i < |cs| && cs[i] == ts[j];
    }
  }

  /** `dedup_targets`. */
  method DedupTargets(candidates: seq<Path>) returns (targets: seq<Path>)
    ensures targets == Survivors(candidates)
  {
    targets := [];
    for i := 0 to |candidates|
      invariant targets == Survivors(candidates[..i])
    {
      var dir := candidates[i];
      assert candidates[..i + 1] == candidates[..i] + [dir];
      SurvivorsSnoc(candidates[..i], dir);
      CoverAgrees(candidates[..i], dir);
      if Covered(targets, dir) {
        continue;
      }
      targets := Outside(targets, dir) + [dir];
    }
    assert candidates[..|candidates|] == candidates;
  }
}
