/** The file-access gate (`DirGate` of src/profiles/npm.rs) over every sequence
    of requests and every way the user may answer. */
module Gate {
  import opened Paths

  datatype State = State(allowed: seq<Path>, denied: seq<Path>)

  /** A request, and what the user would answer if asked now. */
  datatype Call = Call(path: Path, answer: bool)

  predicate Asks(s: State, path: Path) { !Covered(s.allowed, path) && !Covered(s.denied, path) }

  predicate Decides(s: State, c: Call)
  {
    Covered(s.allowed, c.path) || (Asks(s, c.path) && c.answer)
  }

  function Next(s: State, c: Call): State
  {
    if !Asks(s, c.path) then s
    else if c.answer then s.(allowed := s.allowed + [c.path])
    else s.(denied := s.denied + [c.path])
  }

  function Run(s: State, cs: seq<Call>): State
  {
    if cs == [] then s else Next(Run(s, cs[..|cs| - 1]), cs[|cs| - 1])
  }

  /** The gate as an object. */
  class DirGate {
    var allowed: seq<Path>
    var denied: seq<Path>

    ghost function Abs(): State
      reads this
    {
      State(allowed, denied)
    }

    constructor (preapproved: seq<Path>)
      ensures Abs() == State(preapproved, [])
    {
      allowed, denied := preapproved, [];
    }

    /** `allow`: the user is asked only when no earlier decision covers the
        path; the answer is then remembered. */
    method Allow(path: Path, answer: bool) returns (decision: bool, asked: bool)
      modifies this
      ensures Abs() == Next(old(Abs()), Call(path, answer))
      ensures decision == Decides(old(Abs()), Call(path, answer))
      ensures asked == Asks(old(Abs()), path)
    {
      var i := 0;
      while i < |allowed|
        invariant 0 <= i <= |allowed| && !Covered(allowed[..i], path)
      {
        if allowed[i] <= path {
          return true, false;
        }
        assert allowed[..i + 1] == allowed[..i] + [allowed[i]];
        i := i + 1;
      }
      assert allowed[..i] == allowed;
      i := 0;
      while i < |denied|
        invariant 0 <= i <= |denied| && !Covered(denied[..i], path)
      {
        if denied[i] <= path {
          return false, false;
        }
        assert denied[..i + 1] == denied[..i] + [denied[i]];
        i := i + 1;
      }
      assert denied[..i] == denied;
      if answer {
        allowed := allowed + [path];
      } else {
        denied := denied + [path];
      }
      return answer, true;
    }
  }

  // ---- What the lists hold after a run ----

  ghost predicate AskedAt(s: State, cs: seq<Call>, i: int)
  {
    0 <= i < |cs| && Asks(Run(s, cs[..i]), cs[i].path)
  }

  ghost predicate AllowedAt(s: State, cs: seq<Call>, i: int)
  {
    0 <= i < |cs| && Decides(Run(s, cs[..i]), cs[i])
  }

  lemma AskedBefore(s: State, cs: seq<Call>, n: nat, i: int)
    requires n <= |cs| && 0 <= i < n
    ensures AskedAt(s, cs[..n], i) == AskedAt(s, cs, i)
  {
    assert cs[..n][..i] == cs[..i];
  }

  /** In the run, `p` was asked about and answered so. */
  ghost predicate Answered(s: State, cs: seq<Call>, p: Path, answer: bool)
  {
    exists i :: AskedAt(s, cs, i) && cs[i] == Call(p, answer)
  }

  lemma AnsweredStep(s: State, cs: seq<Call>, p: Path, answer: bool)
    requires cs != []
    ensures
      var front, last := cs[..|cs| - 1], cs[|cs| - 1];
      Answered(s, cs, p, answer) <==>
        Answered(s, front, p, answer) || (Asks(Run(s, front), last.path) && last == Call(p, answer))
  {
    if Answered(s, cs, p, answer) {
      AnsweredBefore(s, cs, p, answer);
    }
    if Answered(s, cs[..|cs| - 1], p, answer) {
      AnsweredStill(s, cs, p, answer);
    }
    assert AskedAt(s, cs, |cs| - 1) == Asks(Run(s, cs[..|cs| - 1]), cs[|cs| - 1].path);
  }

  lemma AnsweredBefore(s: State, cs: seq<Call>, p: Path, answer: bool)
    requires cs != [] && Answered(s, cs, p, answer)
    ensures Answered(s, cs[..|cs| - 1], p, answer)
         || (Asks(Run(s, cs[..|cs| - 1]), cs[|cs| - 1].path) && cs[|cs| - 1] == Call(p, answer))
  {
    var i :| AskedAt(s, cs, i) && cs[i] == Call(p, answer);
    var front := cs[..|cs| - 1];
    if i < |front| {
      AnsweredAt(s, front, cs, i, p, answer);
    } else {
      assert cs[..i] == front;
    }
  }

  lemma AnsweredAt(s: State, front: seq<Call>, cs: seq<Call>, i: nat, p: Path, answer: bool)
    requires i < |front| && front <= cs && AskedAt(s, cs, i) && cs[i] == Call(p, answer)
    ensures Answered(s, front, p, answer)
  {
    assert cs[..|front|] == front;
    AskedBefore(s, cs, |front|, i);
    assert AskedAt(s, front, i) && front[i] == Call(p, answer);
  }

  lemma AnsweredStill(s: State, cs: seq<Call>, p: Path, answer: bool)
    requires cs != [] && Answered(s, cs[..|cs| - 1], p, answer)
    ensures Answered(s, cs, p, answer)
  {
    var i :| AskedAt(s, cs[..|cs| - 1], i) && cs[..|cs| - 1][i] == Call(p, answer);
    AskedBefore(s, cs, |cs| - 1, i);
    assert cs[..|cs| - 1][i] == cs[i];
  }

  /** The allow list is the pre-approved paths and those asked about and
      approved; the deny list is those asked about and refused. */
  lemma {:induction false} Lists(s: State, cs: seq<Call>, p: Path)
    ensures p in Run(s, cs).allowed <==> p in s.allowed || Answered(s, cs, p, true)
    ensures p in Run(s, cs).denied <==> p in s.denied || Answered(s, cs, p, false)
  {
    if cs != [] {
      Lists(s, cs[..|cs| - 1], p);
      AnsweredStep(s, cs, p, true);
      AnsweredStep(s, cs, p, false);
    }
  }

  lemma CoveredByMember(ps: seq<Path>, path: Path)
    ensures Covered(ps, path) <==> exists p :: p in ps && p <= path
  {
    if Covered(ps, path) {
      var i :| 0 <= i < |ps| && ps[i] <= path;
      assert ps[i] in ps;
    }
  }

  /** Before step `j`, a path at or above `path` was asked about and answered
      so. */
  ghost predicate AnsweredAbove(s: State, cs: seq<Call>, j: nat, path: Path, answer: bool)
  {
    exists i :: i < j && AskedAt(s, cs, i) && cs[i].answer == answer && cs[i].path <= path
  }

  lemma AnsweredInFront(s: State, cs: seq<Call>, j: nat, path: Path, answer: bool)
    requires j <= |cs|
    ensures AnsweredAbove(s, cs, j, path, answer) <==> exists p :: p <= path && Answered(s, cs[..j], p, answer)
  {
    if i :| i < j && AskedAt(s, cs, i) && cs[i].answer == answer && cs[i].path <= path {
      AskedBefore(s, cs, j, i);
      assert cs[..j][i] == cs[i];
      assert Answered(s, cs[..j], cs[i].path, answer);
    }
    if p :| p <= path && Answered(s, cs[..j], p, answer) {
      var i :| AskedAt(s, cs[..j], i) && cs[..j][i] == Call(p, answer);
      AskedBefore(s, cs, j, i);
      assert cs[i] == cs[..j][i];
    }
  }

  /** A path is let through by the lists at step `j` exactly if it lies under a
      pre-approved path or one asked about before and approved; and likewise
      for refusal. */
  lemma ListsCover(s: State, cs: seq<Call>, j: nat, path: Path)
    requires j <= |cs|
    ensures Covered(Run(s, cs[..j]).allowed, path) <==> Covered(s.allowed, path) || AnsweredAbove(s, cs, j, path, true)
    ensures Covered(Run(s, cs[..j]).denied, path) <==> Covered(s.denied, path) || AnsweredAbove(s, cs, j, path, false)
  {
    var t := Run(s, cs[..j]);
    CoveredByMember(t.allowed, path);
    CoveredByMember(s.allowed, path);
    CoveredByMember(t.denied, path);
    CoveredByMember(s.denied, path);
    AnsweredInFront(s, cs, j, path, true);
    AnsweredInFront(s, cs, j, path, false);
    forall p: Path
      ensures p in t.allowed <==> p in s.allowed || Answered(s, cs[..j], p, true)
      ensures p in t.denied <==> p in s.denied || Answered(s, cs[..j], p, false)
    {
      Lists(s, cs[..j], p);
    }
  }

  // ---- Theorems about every run ----

  /** What is decided at step `j` of a run from a new gate: the user is asked
      exactly when neither a pre-approved path nor an earlier answer covers the
      path; it is allowed when a pre-approved or approved path covers it, refused
      when only a refused one does, and as the user says otherwise. */
  lemma EveryDecision(preapproved: seq<Path>, cs: seq<Call>, j: nat)
    requires j < |cs|
    ensures
      var s, p := State(preapproved, []), cs[j].path;
      var yes := Covered(preapproved, p) || AnsweredAbove(s, cs, j, p, true);
      var no := AnsweredAbove(s, cs, j, p, false);
      && (AskedAt(s, cs, j) <==> !yes && !no)
      && (AllowedAt(s, cs, j) <==> yes || (!no && cs[j].answer))
  {
    ListsCover(State(preapproved, []), cs, j, cs[j].path);
  }

  /** No path is asked about twice, and none that lies under an earlier asked
      one. */
  lemma NeverAskedUnderAsked(s: State, cs: seq<Call>, i: nat, j: nat)
    requires AskedAt(s, cs, i) && AskedAt(s, cs, j) && i < j
    ensures !(cs[i].path <= cs[j].path)
  {
    ListsCover(s, cs, j, cs[j].path);
  }

  /** Pre-approved paths, and everything under them, pass without asking. */
  lemma PreapprovedNeverAsks(s: State, cs: seq<Call>, i: nat)
    requires i < |cs| && Covered(s.allowed, cs[i].path)
    ensures AllowedAt(s, cs, i) && !AskedAt(s, cs, i)
  {
    ListsCover(s, cs, i, cs[i].path);
  }

  /** An allow is permanent, also for everything under the path. */
  lemma AllowIsPermanent(s: State, cs: seq<Call>, i: nat, j: nat)
    requires AllowedAt(s, cs, i) && i < j < |cs| && cs[i].path <= cs[j].path
    ensures AllowedAt(s, cs, j) && !AskedAt(s, cs, j)
  {
    ListsCover(s, cs, i, cs[i].path);
    ListsCover(s, cs, j, cs[j].path);
    if Covered(s.allowed, cs[i].path) {
      CoveredByMember(s.allowed, cs[i].path);
      CoveredByMember(s.allowed, cs[j].path);
    }
  }

  /** A deny is permanent unless, in between, a proper ancestor was asked about
      and approved. */
  lemma DenyIsPermanentUnlessAncestorApproved(s: State, cs: seq<Call>, i: nat, j: nat)
    requires i < j < |cs| && cs[i].path == cs[j].path && !AllowedAt(s, cs, i)
    ensures AllowedAt(s, cs, j) <==>
              exists k :: i < k < j && AskedAt(s, cs, k) && cs[k].answer && cs[k].path < cs[i].path
  {
    var p := cs[i].path;
    ListsCover(s, cs, i, p);
    ListsCover(s, cs, j, p);
    assert AskedAt(s, cs, i) ==> !cs[i].answer;
    assert Covered(Run(s, cs[..j]).denied, p);
    forall k | i < k < j && AskedAt(s, cs, k) && cs[k].path <= p
      ensures cs[k].path < p
    {
      ListsCover(s, cs, k, p);
      assert Covered(Run(s, cs[..k]).denied, p);
    }
  }

  /** A refused file, its directory approved, the file again: now allowed. */
  lemma DenialLifted(dir: string, file: string) returns (s: State, cs: seq<Call>)
    ensures s == State([], [])
    ensures cs == [Call([dir, file], false), Call([dir], true), Call([dir, file], false)]
    ensures !AllowedAt(s, cs, 0) && AllowedAt(s, cs, 2)
  {
    s := State([], []);
    cs := [Call([dir, file], false), Call([dir], true), Call([dir, file], false)];
    var refused := State([], [[dir, file]]);
    assert cs[..0] == [] && cs[..1][..0] == [];
    assert Run(s, cs[..1]) == Next(s, cs[0]) == refused;
    assert AskedAt(s, cs, 1) && cs[1].path < cs[0].path;
    DenyIsPermanentUnlessAncestorApproved(s, cs, 0, 2);
  }

  /** If no requested path is a proper ancestor of another, every path keeps the
      decision of its first request. */
  lemma DecisionsAreConstant(s: State, cs: seq<Call>, i: nat, j: nat)
    requires i < j < |cs| && cs[i].path == cs[j].path
    requires forall a, b :: 0 <= a < |cs| && 0 <= b < |cs| ==> !(cs[a].path < cs[b].path)
    ensures AllowedAt(s, cs, i) == AllowedAt(s, cs, j)
  {
    if AllowedAt(s, cs, i) {
      AllowIsPermanent(s, cs, i, j);
    } else {
      DenyIsPermanentUnlessAncestorApproved(s, cs, i, j);
    }
  }
}
