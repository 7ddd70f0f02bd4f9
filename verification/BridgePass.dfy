/** What one complete pass of the stack loop over a connection achieves. */
module BridgePass {
  import opened Wrappers
  import opened Bridge
  import opened BridgeLaws

  // ---- Passes ----

  /** The steps up to the end of one treatment by `service_conns`, interleaved
      with anything the proxy does. */
  predicate WithinPass(acts: seq<Action>)
  {
    forall i :: 0 <= i < |acts| ==> InPass(acts[i])
  }

  predicate InPass(a: Action) { !a.NetPoll? && !a.CheckReap? }

  /** One treatment, complete with its last step. */
  predicate IsPass(acts: seq<Action>)
  {
    acts != [] && acts[|acts| - 1] == CheckReap && WithinPass(acts[..|acts| - 1])
  }

  /** The steps after `base` are one pass. */
  predicate PassSince(base: seq<Action>, acts: seq<Action>)
  {
    base < acts && IsPass(acts[|base|..])
  }

  /** The last step of a pass. */
  lemma LastStep(s: State, acts: seq<Action>)
    requires Legal(s, acts + [CheckReap])
    ensures Legal(s, acts) && Exec(s, acts).0.pc == Reap
    ensures Exec(s, acts + [CheckReap]).0 == ReapStep(Exec(s, acts).0).0
  {
    assert (acts + [CheckReap])[..|acts|] == acts;
  }

  /** Every step of the run was so. */
  ghost predicate Throughout(Q: (State, Action) -> bool, s: State, acts: seq<Action>)
  {
    forall i :: 0 <= i < |acts| ==> Q(Exec(s, acts[..i]).0, acts[i])
  }

  lemma ThroughoutFront(Q: (State, Action) -> bool, s: State, acts: seq<Action>)
    requires acts != [] && Throughout(Q, s, acts)
    ensures Throughout(Q, s, acts[..|acts| - 1])
    ensures Q(Exec(s, acts[..|acts| - 1]).0, acts[|acts| - 1])
  {
    var front := acts[..|acts| - 1];
    assert forall i :: 0 <= i < |front| ==> front[i] == acts[i] && front[..i] == acts[..i];
  }

  /** What each step of a pass keeps, the pass keeps. */
  lemma {:induction false} Kept(P: State -> bool, Q: (State, Action) -> bool, s: State, acts: seq<Action>)
    requires P(s) && Legal(s, acts) && WithinPass(acts) && Throughout(Q, s, acts)
    requires forall t, a :: P(t) && Enabled(t, a) && InPass(a) && Q(t, a) ==> P(Apply(t, a).0)
    ensures P(Exec(s, acts).0)
  {
    if acts != [] {
      ThroughoutFront(Q, s, acts);
      Kept(P, Q, s, acts[..|acts| - 1]);
    }
  }

  predicate Any(s: State, a: Action) { true }

  /** The run `acts` from a connection's start `s` ends in `t` with history `h`. */
  ghost predicate RunsTo(s: State, acts: seq<Action>, t: State, h: History)
  {
    forall x {:trigger Unfold(x)} :: Unfold(x) && x == acts ==>
      Start(s) && Legal(s, x) && Exec(s, x).0 == t && HistoryOf(s, x) == h
  }

  lemma RunsToOne(s: State, acts: seq<Action>, t: State, h: History, t1: State, h1: History)
    requires RunsTo(s, acts, t, h) && RunsTo(s, acts, t1, h1)
    ensures t == t1 && h == h1
  {
    assert Unfold(acts);
  }

  lemma RunsToInv(s: State, acts: seq<Action>, t: State, h: History)
    requires RunsTo(s, acts, t, h)
    ensures Inv(t, h)
  {
    assert Unfold(acts);
    RunKeepsInv(s, acts);
  }

  lemma OneStepBack(s: State, acts: seq<Action>, a: Action, t: State, h: History) returns (t0: State, h0: History)
    requires RunsTo(s, acts + [a], t, h)
    ensures RunsTo(s, acts, t0, h0) && Enabled(t0, a)
    ensures t == Apply(t0, a).0 && h == Record(h0, Apply(t0, a).1)
  {
    assert Unfold(acts + [a]);
    assert (acts + [a])[..|acts|] == acts;
    RunSnoc(s, acts + [a]);
    t0, h0 := Exec(s, acts).0, HistoryOf(s, acts);
  }

  // ---- Shutting down ----

  /** How far a pass that began after the proxy's shutdown must have come. */
  predicate ShutPass(s: State)
  {
    && !s.fromApp.tx
    && (s.pc == Fin ==> s.pending.Some? || s.writeClosed)
    && (s.pc == Pull || s.pc == Eof || s.pc == Reap || s.pc == Gone ==> s.pending.Some? || s.sentFin)
  }

  lemma ShutPassStep(s: State, a: Action)
    requires ShutPass(s) && Enabled(s, a) && InPass(a)
    ensures ShutPass(Apply(s, a).0)
  {
    match a
    case DrainOne(out) => assert ShutPass(DrainStep(s, out).0);
    case SendFin => assert ShutPass(FinStep(s).0);
    case PullOne(n) => assert ShutPass(PullStep(s, n).0);
    case PollRead(room) => assert ShutPass(ReadStep(s, room).0);
    case _ =>
  }

  /** A pass that begins after the proxy shut its side down ends with the FIN
      sent or with bytes the socket would not take yet. */
  lemma FinNotForgotten(s: State, acts: seq<Action>)
    requires s.pc == Idle && !s.fromApp.tx
    requires Legal(s, acts + [CheckReap]) && WithinPass(acts)
    ensures Exec(s, acts + [CheckReap]).0.pending.Some? || Exec(s, acts + [CheckReap]).0.sentFin
  {
    LastStep(s, acts);
    forall t, a | ShutPass(t) && Enabled(t, a) && InPass(a) ensures ShutPass(Apply(t, a).0) {
      ShutPassStep(t, a);
    }
    Kept(ShutPass, Any, s, acts);
  }

  // ---- End of stream ----

  /** The peer is done and everything it sent was pulled, on an established
      connection. */
  predicate NothingMore(s: State)
  {
    && PeerDone(s.tcp) && s.rx == []
    && (s.established || (s.pc == Idle && MaySend(s.tcp)))
    && (s.pc == Reap || s.pc == Gone ==> !s.toApp.tx)
  }

  lemma NothingMoreStep(s: State, a: Action)
    requires NothingMore(s) && Enabled(s, a) && InPass(a)
    ensures NothingMore(Apply(s, a).0)
  {}

  /** A pass over a connection whose peer has finished, with nothing left in the
      socket, ends with the proxy's read side closed. */
  lemma EofNotForgotten(s: State, acts: seq<Action>)
    requires s.pc == Idle && NothingMore(s)
    requires Legal(s, acts + [CheckReap]) && WithinPass(acts)
    ensures !Exec(s, acts + [CheckReap]).0.toApp.tx
  {
    LastStep(s, acts);
    forall t, a | NothingMore(t) && Enabled(t, a) && InPass(a) ensures NothingMore(Apply(t, a).0) {
      NothingMoreStep(t, a);
    }
    Kept(NothingMore, Any, s, acts);
  }

  // ---- Connections given up, and the others ----

  /** Bytes arrived for a proxy that dropped its stream. */
  predicate Abandoned(s: State)
  {
    && !s.toApp.rx && s.rx != []
    && (if s.pc == Eof || s.pc == Reap then s.tcp == Closed else s.toApp.tx)
  }

  lemma AbandonedStep(s: State, a: Action)
    requires Abandoned(s) && Enabled(s, a) && InPass(a)
    ensures Abandoned(Apply(s, a).0)
  {}

  /** A pass over an abandoned connection aborts and reaps it. */
  lemma AbandonedIsReaped(s: State, acts: seq<Action>)
    requires s.pc == Idle && Abandoned(s)
    requires Legal(s, acts + [CheckReap]) && WithinPass(acts)
    ensures Exec(s, acts + [CheckReap]).0.pc == Gone
  {
    LastStep(s, acts);
    forall t, a | Abandoned(t) && Enabled(t, a) && InPass(a) ensures Abandoned(Apply(t, a).0) {
      AbandonedStep(t, a);
    }
    Kept(Abandoned, Any, s, acts);
  }

  /** The connection is up, or the proxy has given it up. */
  predicate UpOrDropped(s: State)
  {
    !s.toApp.rx || (PastHandshake(s.tcp) && s.tcp != Closed)
  }

  lemma UpOrDroppedStep(s: State, a: Action)
    requires UpOrDropped(s) && Enabled(s, a) && InPass(a)
    ensures UpOrDropped(Apply(s, a).0)
  {}

  /** A pass never ends a connection that is up and whose stream is held. */
  lemma LiveIsNotReaped(s: State, acts: seq<Action>)
    requires s.pc == Idle && UpOrDropped(s)
    requires Legal(s, acts + [CheckReap]) && WithinPass(acts)
    ensures
      var t := Exec(s, acts + [CheckReap]).0;
      t.toApp.rx ==> t.pc == Idle && t.tcp != Closed
  {
    LastStep(s, acts);
    forall t, a | UpOrDropped(t) && Enabled(t, a) && InPass(a) ensures UpOrDropped(Apply(t, a).0) {
      UpOrDroppedStep(t, a);
    }
    Kept(UpOrDropped, Any, s, acts);
  }

  // ---- Sending ----

  predicate TakesAll(out: Outcome, buf: seq<byte>) { out.Took? && |buf| <= out.n }

  /** If the step offers bytes to the socket, the socket takes them all. */
  predicate Willing(s: State, a: Action)
  {
    && (a.FlushPending? && s.pending.Some? ==> TakesAll(a.out, s.pending.value))
    && (a.DrainOne? && s.pending.None? && s.fromApp.items != [] ==> TakesAll(a.out, s.fromApp.items[0]))
  }

  predicate NothingStashed(s: State)
  {
    s.pc == Drain || s.pc == Fin || s.pc == Pull || s.pc == Eof || s.pc == Reap ==> s.pending.None?
  }

  lemma NothingStashedStep(s: State, a: Action)
    requires NothingStashed(s) && Enabled(s, a) && InPass(a) && Willing(s, a)
    ensures NothingStashed(Apply(s, a).0)
  {}

  /** A remainder is left stashed only if the socket declined something. */
  lemma StashOnlyIfDeclined(s: State, acts: seq<Action>)
    requires s.pc == Idle && Throughout(Willing, s, acts)
    requires Legal(s, acts + [CheckReap]) && WithinPass(acts)
    ensures Exec(s, acts + [CheckReap]).0.pending.None?
  {
    LastStep(s, acts);
    forall t, a | NothingStashed(t) && Enabled(t, a) && InPass(a) && Willing(t, a)
      ensures NothingStashed(Apply(t, a).0)
    {
      NothingStashedStep(t, a);
    }
    Kept(NothingStashed, Willing, s, acts);
  }

  /** The bytes `w`, accepted before the pass, are in the socket once the queue
      was drained, unless a remainder is stashed. */
  ghost predicate SentSoFar(s: State, h: History, w: seq<byte>)
  {
    && w <= h.wrote
    && (s.pc == Fin || s.pc == Pull || s.pc == Eof || s.pc == Reap ==> s.pending.Some? || w <= h.sent)
  }

  lemma DrainSends(s: State, h: History, out: Outcome, w: seq<byte>)
    requires Inv(s, h) && s.pc == Drain && w <= h.wrote
    ensures SentSoFar(DrainStep(s, out).0, Record(h, DrainStep(s, out).1), w)
  {
    if s.pending.None? && s.fromApp.items == [] {
      assert h.sent + ([] + Concat([])) == h.sent;
    }
  }

  /** The other steps take no accepted byte back. */
  lemma OtherStepSends(s: State, h: History, a: Action, w: seq<byte>)
    requires Enabled(s, a) && InPass(a) && !a.DrainOne? && SentSoFar(s, h, w)
    ensures SentSoFar(Apply(s, a).0, Record(h, Apply(s, a).1), w)
  {}

  lemma SentSoFarStep(s: State, h: History, a: Action, w: seq<byte>)
    requires Inv(s, h) && Enabled(s, a) && InPass(a) && SentSoFar(s, h, w)
    ensures SentSoFar(Apply(s, a).0, Record(h, Apply(s, a).1), w)
  {
    if a.DrainOne? {
      DrainSends(s, h, a.out, w);
    } else {
      OtherStepSends(s, h, a, w);
    }
  }

  lemma {:induction false} SentSoFarRun(s: State, base: seq<Action>, b: State, hb: History,
                                        more: seq<Action>, t: State, h: History)
    requires RunsTo(s, base, b, hb) && RunsTo(s, base + more, t, h) && WithinPass(more) && b.pc == Idle
    ensures SentSoFar(t, h, hb.wrote)
    decreases |more|
  {
    if more == [] {
      assert base + more == base;
      RunsToOne(s, base, b, hb, t, h);
    } else {
      var front, a := more[..|more| - 1], more[|more| - 1];
      assert base + more == (base + front) + [a];
      var t0, h0 := OneStepBack(s, base + front, a, t, h);
      SentSoFarRun(s, base, b, hb, front, t0, h0);
      RunsToInv(s, base + front, t0, h0);
      SentSoFarStep(t0, h0, a, hb.wrote);
    }
  }

  lemma ReapSends(s: State, h: History, w: seq<byte>)
    requires SentSoFar(s, h, w) && s.pc == Reap
    ensures ReapStep(s).0.pending.Some? || w <= Record(h, ReapStep(s).1).sent
  {}

  /** After a pass every byte accepted before it is in the socket, unless a
      remainder is stashed. */
  lemma PassSends(s: State, base: seq<Action>, b: State, hb: History, acts: seq<Action>, t: State, h: History)
    requires RunsTo(s, base, b, hb) && RunsTo(s, acts, t, h) && PassSince(base, acts) && b.pc == Idle
    ensures t.pending.Some? || hb.wrote <= h.sent
  {
    var pass := acts[|base|..];
    var more := pass[..|pass| - 1];
    assert acts == (base + more) + [CheckReap];
    var t0, h0 := OneStepBack(s, base + more, CheckReap, t, h);
    SentSoFarRun(s, base, b, hb, more, t0, h0);
    ReapSends(t0, h0, hb.wrote);
  }

  // ---- Receiving ----

  /** If the step may move bytes to the proxy, the channel has room and the
      socket hands out some. */
  predicate Moves(s: State, a: Action)
  {
    a.PullOne? && s.toApp.tx && s.toApp.rx && s.rx != [] ==> |s.toApp.items| < CHAN_CAP && a.n > 0
  }

  predicate PulledDry(s: State)
  {
    s.pc == Eof || s.pc == Reap ==> s.rx == [] || !s.toApp.tx
  }

  lemma PulledDryStep(s: State, a: Action)
    requires PulledDry(s) && Enabled(s, a) && InPass(a) && Moves(s, a)
    ensures PulledDry(Apply(s, a).0)
  {}

  /** Bytes stay in the socket only if the channel was full or the socket gave
      nothing, or the proxy's read side is closed. */
  lemma PassPulls(s: State, acts: seq<Action>)
    requires s.pc == Idle && Throughout(Moves, s, acts)
    requires Legal(s, acts + [CheckReap]) && WithinPass(acts)
    ensures
      var t := Exec(s, acts + [CheckReap]).0;
      t.rx == [] || !t.toApp.tx
  {
    LastStep(s, acts);
    forall t, a | PulledDry(t) && Enabled(t, a) && InPass(a) && Moves(t, a)
      ensures PulledDry(Apply(t, a).0)
    {
      PulledDryStep(t, a);
    }
    Kept(PulledDry, Moves, s, acts);
  }

  // ---- All of it, anywhere in a run ----

  /** What holds after a pass of the state before it. */
  predicate Achieves(before: State, after: State)
  {
    && (!before.fromApp.tx ==> after.pending.Some? || after.sentFin)
    && (NothingMore(before) ==> !after.toApp.tx)
    && (Abandoned(before) ==> after.pc == Gone)
    && (UpOrDropped(before) && after.toApp.rx ==> after.pc == Idle && after.tcp != Closed)
  }

  /** And what the pass moved. */
  ghost predicate MovesBytes(s: State, pass: seq<Action>, t: State)
  {
    && (Throughout(Willing, s, pass) ==> t.pending.None?)
    && (Throughout(Moves, s, pass) ==> t.rx == [] || !t.toApp.tx)
  }

  lemma PassAchieves(s: State, pass: seq<Action>)
    requires Legal(s, pass) && IsPass(pass) && s.pc == Idle
    ensures Achieves(s, Exec(s, pass).0)
  {
    var front := pass[..|pass| - 1];
    assert pass == front + [CheckReap];
    if !s.fromApp.tx {
      FinNotForgotten(s, front);
    }
    if NothingMore(s) {
      EofNotForgotten(s, front);
    }
    if Abandoned(s) {
      AbandonedIsReaped(s, front);
    }
    if UpOrDropped(s) {
      LiveIsNotReaped(s, front);
    }
  }

  lemma PassMovesBytes(s: State, pass: seq<Action>)
    requires Legal(s, pass) && IsPass(pass) && s.pc == Idle
    ensures MovesBytes(s, pass, Exec(s, pass).0)
  {
    var front := pass[..|pass| - 1];
    assert pass == front + [CheckReap];
    if Throughout(Willing, s, pass) {
      ThroughoutFront(Willing, s, pass);
      StashOnlyIfDeclined(s, front);
    }
    if Throughout(Moves, s, pass) {
      ThroughoutFront(Moves, s, pass);
      PassPulls(s, front);
    }
  }

  lemma {:induction false} RunSuffix(s: State, base: seq<Action>, more: seq<Action>)
    requires Legal(s, base + more)
    ensures Legal(s, base) && Legal(Exec(s, base).0, more)
    ensures Exec(Exec(s, base).0, more).0 == Exec(s, base + more).0
  {
    if more == [] {
      assert base + more == base;
    } else {
      assert (base + more)[..|base + more| - 1] == base + more[..|more| - 1];
      RunSuffix(s, base, more[..|more| - 1]);
    }
  }

  lemma SuffixRuns(s: State, base: seq<Action>, b: State, hb: History, acts: seq<Action>, t: State, h: History)
    requires RunsTo(s, base, b, hb) && RunsTo(s, acts, t, h) && base <= acts
    ensures Legal(b, acts[|base|..]) && Exec(b, acts[|base|..]).0 == t
  {
    var pass := acts[|base|..];
    assert acts == base + pass;
    assert Legal(s, acts) && Exec(s, acts).0 == t by { assert Unfold(acts); }
    assert Exec(s, base).0 == b by { assert Unfold(base); }
    RunSuffix(s, base, pass);
  }

  /** A pass anywhere in a run: what it achieves, what it moves, and that every
      byte accepted before it is then in the socket unless a remainder is
      stashed, which needs a socket that declined. */
  lemma LaterPassAchieves(s: State, base: seq<Action>, b: State, hb: History,
                          acts: seq<Action>, t: State, h: History)
    requires RunsTo(s, base, b, hb) && RunsTo(s, acts, t, h) && PassSince(base, acts) && b.pc == Idle
    ensures Achieves(b, t) && MovesBytes(b, acts[|base|..], t)
    ensures t.pending.Some? || hb.wrote <= h.sent
  {
    SuffixRuns(s, base, b, hb, acts, t, h);
    PassAchieves(b, acts[|base|..]);
    PassMovesBytes(b, acts[|base|..]);
    PassSends(s, base, b, hb, acts, t, h);
  }
}
