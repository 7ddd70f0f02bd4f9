/** What every run of the bridge keeps. */
module BridgeLaws {
  import opened Wrappers
  import opened Bridge

  // ---- Bookkeeping lemmas ----

  lemma {:induction false} ConcatSnoc(items: seq<seq<byte>>, x: seq<byte>)
    ensures Concat(items + [x]) == Concat(items) + x
  {
    if items == [] {
      assert (items + [x])[1..] == [];
      assert Concat([x]) == x + [];
    } else {
      assert (items + [x])[1..] == items[1..] + [x];
      ConcatSnoc(items[1..], x);
    }
  }

  lemma {:induction false} ConcatLength(items: seq<seq<byte>>)
    requires forall i :: 0 <= i < |items| ==> |items[i]| <= CHUNK
    ensures |Concat(items)| <= |items| * CHUNK
  {
    if items != [] {
      ConcatLength(items[1..]);
    }
  }

  // ---- The invariant ----

  /** Proxy to stack: accepted == sent ++ stashed remainder ++ queued. */
  ghost predicate OutConserved(s: State, h: History)
  {
    s.pc != Gone ==> h.wrote == h.sent + (Held(s.pending) + Concat(s.fromApp.items))
  }

  /** Socket to stack: everything that arrived is pulled or still buffered. */
  ghost predicate SocketConserved(s: State, h: History) { h.arrived == h.pulled + s.rx }

  /** Stack to proxy: pulled == delivered ++ unread remainder ++ queued. */
  ghost predicate InConserved(s: State, h: History)
  {
    s.toApp.rx ==> h.pulled == h.delivered + (Held(s.readRem) + Concat(s.toApp.items))
  }

  ghost predicate Bounded(s: State)
  {
    && |s.toApp.items| <= CHAN_CAP && |s.fromApp.items| <= CHAN_CAP
    && (forall i :: 0 <= i < |s.toApp.items| ==> 1 <= |s.toApp.items[i]| <= CHUNK)
    && (s.readRem.Some? ==> 1 <= |s.readRem.value| <= CHUNK)
  }

  ghost predicate FinOrdered(s: State, h: History)
  {
    && h.fins == (if s.sentFin then 1 else 0)
    && (s.writeClosed ==> !s.fromApp.tx && s.fromApp.items == [])
    && (s.sentFin ==> s.writeClosed && s.pending.None? && h.wrote == h.sent && LocalDone(s.tcp))
  }

  ghost predicate EofOrdered(s: State)
  {
    && (s.established ==> PastHandshake(s.tcp))
    && (s.pc == Gone ==> s.tcp == Closed && !s.toApp.tx && !s.fromApp.rx)
    && (s.pc != Gone ==> s.fromApp.rx)
    && (s.toApp.rx && !s.toApp.tx && s.tcp != Closed ==> s.established && s.rx == [] && PeerDone(s.tcp))
    && (!s.toApp.rx ==> !s.fromApp.tx)
  }

  ghost predicate Inv(s: State, h: History)
  {
    && OutConserved(s, h)
    && SocketConserved(s, h)
    && InConserved(s, h)
    && Bounded(s)
    && FinOrdered(s, h)
    && EofOrdered(s)
  }

  lemma SplitAt(before: seq<byte>, data: seq<byte>, n: nat, after: seq<byte>)
    requires n <= |data|
    ensures before + (data + after) == (before + data[..n]) + (data[n..] + after)
    ensures before + (data + after) == (before + data) + after
  {
    assert data == data[..n] + data[n..];
  }

  lemma DropEmptyNone(items: seq<seq<byte>>)
    requires forall i :: 0 <= i < |items| ==> 1 <= |items[i]|
    ensures DropEmpty(items) == items
  {}

  /** Handing out part of `data` keeps the invariant of a state that holds all
      of it aside. */
  lemma DeliverKeepsInv(s: State, h: History, data: seq<byte>, room: nat)
    requires Inv(s.(readRem := Some(data)), h) && s.toApp.rx
    ensures Inv(Deliver(s, data, room).0, Record(h, Deliver(s, data, room).1))
  {
    var n, queued := Min(room, |data|), Concat(s.toApp.items);
    SplitAt(h.delivered, data, n, queued);
    assert n == |data| ==> data[..n] == data && [] + queued == queued;
  }

  /** Taking the next chunk off the channel. */
  lemma TakeKeepsInv(s: State, h: History)
    requires Inv(s, h) && s.readRem.None? && s.toApp.items != []
    ensures Inv(s.(toApp := s.toApp.(items := s.toApp.items[1..]), readRem := Some(s.toApp.items[0])), h)
  {
    var first, more := s.toApp.items[0], s.toApp.items[1..];
    assert [] + Concat(s.toApp.items) == first + Concat(more);
    assert forall i :: 0 <= i < |more| ==> more[i] == s.toApp.items[i + 1];
  }

  /** With no empty chunk queued, a read takes at most one chunk. */
  lemma ReadShape(s: State, room: nat)
    requires Bounded(s)
    ensures ReadStep(s, room) ==
            if s.readRem.Some? then Deliver(s, s.readRem.value, room)
            else if s.toApp.items == [] then (s, if s.toApp.tx then ReadPending else ReadEof)
            else Deliver(s.(toApp := s.toApp.(items := s.toApp.items[1..])), s.toApp.items[0], room)
  {
    DropEmptyNone(s.toApp.items);
    assert s.toApp.items == [] ==> s.(toApp := s.toApp.(items := [])) == s;
  }

  /** Popping the first chunk, empty or not, leaves the outcome of the read. */
  lemma ReadSkips(s: State, room: nat)
    requires s.readRem.None? && s.toApp.items != []
    ensures
      var popped := s.(toApp := s.toApp.(items := s.toApp.items[1..]));
      ReadStep(s, room) ==
        if s.toApp.items[0] == [] then ReadStep(popped, room)
        else ReadStep(popped.(readRem := Some(s.toApp.items[0])), room)
  {}

  lemma ReadKeepsInv(s: State, h: History, room: nat)
    requires Inv(s, h) && s.toApp.rx
    ensures Inv(ReadStep(s, room).0, Record(h, ReadStep(s, room).1))
  {
    ReadShape(s, room);
    var (s1, e) := ReadStep(s, room);
    if s.readRem.Some? {
      assert s.(readRem := Some(s.readRem.value)) == s;
      DeliverKeepsInv(s, h, s.readRem.value, room);
    } else if s.toApp.items == [] {
      assert s1 == s && Record(h, e) == h;
    } else {
      TakeKeepsInv(s, h);
      DeliverKeepsInv(s.(toApp := s.toApp.(items := s.toApp.items[1..])), h, s.toApp.items[0], room);
    }
  }

  lemma WriteKeepsInv(s: State, h: History, data: seq<byte>)
    requires Inv(s, h)
    ensures Inv(WriteStep(s, data).0, Record(h, WriteStep(s, data).1))
  {
    if WriteStep(s, data).1.Wrote? {
      ConcatSnoc(s.fromApp.items, data);
      var held, queued := Held(s.pending), Concat(s.fromApp.items);
      assert (h.sent + (held + queued)) + data == h.sent + (held + (queued + data));
    }
  }

  /** `push_out` keeps the invariant of a state that holds `buf` aside. */
  lemma PushKeepsInv(s: State, h: History, buf: seq<byte>, out: Outcome)
    requires Inv(s.(pending := Some(buf)), h) && s.pc != Gone
    ensures Inv(PushOut(s, buf, out).0, Record(h, PushOut(s, buf, out).1))
  {
    if out.Took? {
      var n := Min(out.n, |buf|);
      var queued := Concat(s.fromApp.items);
      SplitAt(h.sent, buf, n, queued);
      assert n == |buf| ==> buf[..n] == buf && [] + queued == queued;
    }
  }

  lemma DrainKeepsInv(s: State, h: History, out: Outcome)
    requires Inv(s, h) && s.pc == Drain
    ensures Inv(DrainStep(s, out).0, Record(h, DrainStep(s, out).1))
  {
    if s.pending.None? && s.fromApp.items != [] {
      var buf := s.fromApp.items[0];
      var s1 := s.(fromApp := s.fromApp.(items := s.fromApp.items[1..]));
      assert [] + Concat(s.fromApp.items) == buf + Concat(s1.fromApp.items);
      PushKeepsInv(s1, h, buf, out);
    }
  }

  lemma MoveConserves(s: State, h: History, got: nat)
    requires SocketConserved(s, h) && InConserved(s, h) && s.toApp.rx && got <= |s.rx|
    ensures h.arrived == (h.pulled + s.rx[..got]) + s.rx[got..]
    ensures h.pulled + s.rx[..got] == h.delivered + (Held(s.readRem) + Concat(s.toApp.items + [s.rx[..got]]))
  {
    var chunk, rem, queued := s.rx[..got], Held(s.readRem), Concat(s.toApp.items);
    ConcatSnoc(s.toApp.items, chunk);
    assert (h.delivered + (rem + queued)) + chunk == h.delivered + (rem + (queued + chunk));
    assert s.rx == chunk + s.rx[got..];
  }

  /** Moving the first `got` bytes of the socket onto the channel. */
  lemma MoveKeepsInv(s: State, h: History, got: nat)
    requires Inv(s, h) && s.pc == Pull && s.toApp.tx && s.toApp.rx && |s.toApp.items| < CHAN_CAP
    requires 1 <= got <= |s.rx| && got <= CHUNK
    ensures Inv(s.(rx := s.rx[got..], toApp := s.toApp.(items := s.toApp.items + [s.rx[..got]])),
                Record(h, Pulled(s.rx[..got])))
  {
    MoveConserves(s, h, got);
  }

  lemma PullKeepsInv(s: State, h: History, n: nat)
    requires Inv(s, h) && s.pc == Pull
    ensures Inv(PullStep(s, n).0, Record(h, PullStep(s, n).1))
  {
    if PullStep(s, n).1.Pulled? {
      MoveKeepsInv(s, h, Min(n, Min(|s.rx|, CHUNK)));
    }
  }

  lemma FinKeepsInv(s: State, h: History)
    requires Inv(s, h) && s.pc == Fin
    ensures Inv(FinStep(s).0, Record(h, FinStep(s).1))
  {
    if FinStep(s).1.FinSent? {
      assert h.sent + ([] + Concat([])) == h.sent;
    }
  }

  lemma NetKeepsInv(s: State, h: History, after: Tcp, arrived: seq<byte>)
    requires Inv(s, h) && Enabled(s, NetPoll(after, arrived))
    ensures Inv(Apply(s, NetPoll(after, arrived)).0, Record(h, Arrived(arrived)))
  {
    assert (h.pulled + s.rx) + arrived == h.pulled + (s.rx + arrived);
  }

  lemma LeaveKeepsInv(s: State, h: History, a: Action)
    requires Inv(s, h) && Enabled(s, a) && (a.PollShutdown? || a.DropStream?)
    ensures Inv(Apply(s, a).0, Record(h, Apply(s, a).1))
  {}

  lemma EofKeepsInv(s: State, h: History)
    requires Inv(s, h) && s.pc == Eof
    ensures Inv(EofStep(s).0, h)
  {}

  lemma ReapKeepsInv(s: State, h: History)
    requires Inv(s, h) && s.pc == Reap
    ensures Inv(ReapStep(s).0, h)
  {}

  lemma BeginKeepsInv(s: State, h: History)
    requires Inv(s, h) && s.pc == Idle
    ensures Inv(Apply(s, Begin).0, h)
  {}

  lemma FlushKeepsInv(s: State, h: History, out: Outcome)
    requires Inv(s, h) && s.pc == Flush
    ensures Inv(Apply(s, FlushPending(out)).0, Record(h, Apply(s, FlushPending(out)).1))
  {
    if s.pending.Some? {
      assert s.(pc := Drain).(pending := Some(s.pending.value)) == s.(pc := Drain);
      PushKeepsInv(s.(pc := Drain), h, s.pending.value, out);
    }
  }

  /** Every step of either thread keeps the invariant. */
  lemma StepKeepsInv(s: State, h: History, a: Action)
    requires Inv(s, h) && Enabled(s, a)
    ensures Inv(Apply(s, a).0, Record(h, Apply(s, a).1))
  {
    match a
    case FlushPending(out) => FlushKeepsInv(s, h, out);
    case DrainOne(out) => DrainKeepsInv(s, h, out);
    case PullOne(n) => PullKeepsInv(s, h, n);
    case NetPoll(after, arrived) => NetKeepsInv(s, h, after, arrived);
    case SendFin => FinKeepsInv(s, h);
    case PollRead(room) => ReadKeepsInv(s, h, room);
    case PollWrite(data) => WriteKeepsInv(s, h, data);
    case Begin => BeginKeepsInv(s, h);
    case CheckEof => EofKeepsInv(s, h);
    case CheckReap => ReapKeepsInv(s, h);
    case PollShutdown => LeaveKeepsInv(s, h, a);
    case DropStream => LeaveKeepsInv(s, h, a);
  }

  function HistoryOf(s: State, acts: seq<Action>): History
  {
    Observed(s.rx, Exec(s, acts).1)
  }

  /** One more step of a run. */
  lemma RunSnoc(s: State, acts: seq<Action>)
    requires acts != []
    ensures
      var front, a := acts[..|acts| - 1], acts[|acts| - 1];
      var (s1, e) := Apply(Exec(s, front).0, a);
      && Exec(s, acts) == (s1, Exec(s, front).1 + [e])
      && HistoryOf(s, acts) == Record(HistoryOf(s, front), e)
  {
    var ev := Exec(s, acts[..|acts| - 1]).1;
    var e := Exec(s, acts).1[|acts| - 1];
    assert (ev + [e])[..|ev|] == ev;
  }

  /** Under every interleaving of the two threads, every pattern of short sends
      and every behaviour of the network, the invariant holds. */
  lemma {:induction false} RunKeepsInv(s: State, acts: seq<Action>)
    requires Start(s) && Legal(s, acts)
    ensures Inv(Exec(s, acts).0, HistoryOf(s, acts))
  {
    if acts == [] {
      assert [] + s.rx == s.rx;
    } else {
      var front := acts[..|acts| - 1];
      RunKeepsInv(s, front);
      RunSnoc(s, acts);
      StepKeepsInv(Exec(s, front).0, HistoryOf(s, front), acts[|acts| - 1]);
    }
  }

  // ---- Theorems about every run ----

  /** While the connection is live, the bytes `poll_write` accepted are, in
      order, those the socket took, the stashed remainder and the queue. */
  lemma ProxyToStack(s: State, acts: seq<Action>)
    requires Start(s) && Legal(s, acts)
    ensures
      var (s1, h) := (Exec(s, acts).0, HistoryOf(s, acts));
      && (s1.pc != Gone ==> h.wrote == h.sent + (Held(s1.pending) + Concat(s1.fromApp.items)))
      && (s1.pc != Gone ==> h.sent <= h.wrote)
  {
    RunKeepsInv(s, acts);
  }

  /** While the proxy holds its stream, the bytes taken out of the socket are,
      in order, those delivered, the unread remainder and the queue; at most
      seventeen chunks of them wait. */
  lemma StackToProxy(s: State, acts: seq<Action>)
    requires Start(s) && Legal(s, acts) && Exec(s, acts).0.toApp.rx
    ensures
      var (s1, h) := (Exec(s, acts).0, HistoryOf(s, acts));
      && h.pulled == h.delivered + (Held(s1.readRem) + Concat(s1.toApp.items))
      && h.arrived == h.pulled + s1.rx
      && h.delivered <= h.arrived
      && |h.pulled| - |h.delivered| <= (16 + 1) * 2048
  {
    RunKeepsInv(s, acts);
    ConcatLength(Exec(s, acts).0.toApp.items);
  }

  /** `close` is called at most once, and once it was, every byte `poll_write`
      accepted is in the socket. */
  lemma FinAtMostOnce(s: State, acts: seq<Action>)
    requires Start(s) && Legal(s, acts)
    ensures HistoryOf(s, acts).fins <= 1
    ensures HistoryOf(s, acts).fins == 1 ==> HistoryOf(s, acts).wrote == HistoryOf(s, acts).sent
  {
    RunKeepsInv(s, acts);
  }

  /** When `close` is called, the socket has already taken every byte that
      `poll_write` accepts in the whole run, before or after. */
  lemma {:induction false} FinIsFinal(s: State, acts: seq<Action>, i: nat)
    requires Start(s) && Legal(s, acts) && i < |acts| && Exec(s, acts).1[i].FinSent?
    ensures Legal(s, acts[..i])
    ensures HistoryOf(s, acts[..i]).wrote == HistoryOf(s, acts[..i]).sent
    ensures HistoryOf(s, acts[..i]).sent == HistoryOf(s, acts).wrote
    ensures Exec(s, acts).0.sentFin && HistoryOf(s, acts).wrote == HistoryOf(s, acts).sent
  {
    var n := |acts| - 1;
    var front := acts[..n];
    var (s1, ev) := Exec(s, front);
    RunKeepsInv(s, front);
    RunKeepsInv(s, acts);
    RunSnoc(s, acts);
    if i == n {
      FinStepAlone(s1, HistoryOf(s, front), acts[n]);
    } else {
      assert Exec(s, acts).1[i] == ev[i];
      assert front[..i] == acts[..i];
      FinIsFinal(s, front, i);
      AfterFin(s1, HistoryOf(s, front), acts[n]);
    }
  }

  lemma FinStepAlone(s: State, h: History, a: Action)
    requires Inv(s, h) && Enabled(s, a) && Apply(s, a).1.FinSent?
    ensures h.wrote == h.sent && Record(h, FinSent).wrote == h.wrote && Apply(s, a).0.sentFin
  {
    assert a.SendFin?;
    assert h.sent + ([] + Concat([])) == h.sent;
  }

  lemma AfterFin(s: State, h: History, a: Action)
    requires Inv(s, h) && Enabled(s, a) && s.sentFin
    ensures Record(h, Apply(s, a).1).wrote == h.wrote && Apply(s, a).0.sentFin
  {}

  /** A read with room in its buffer that is ready returns at least one byte or
      is the end of the stream. */
  lemma ReadyMeansBytesOrEof(s: State, acts: seq<Action>, room: nat)
    requires Start(s) && Legal(s, acts) && Exec(s, acts).0.toApp.rx && room > 0
    ensures
      var e := Apply(Exec(s, acts).0, PollRead(room)).1;
      e.ReadPending? || e.ReadEof? || (e.Delivered? && 1 <= |e.bytes| <= room)
  {
    RunKeepsInv(s, acts);
    ReadShape(Exec(s, acts).0, room);
  }

  /** End of stream comes only after everything taken from the socket was
      delivered; and, while the socket is not closed, only after establishment
      and the peer's FIN, with every byte that ever arrived delivered. */
  lemma EofAfterAllBytes(s: State, acts: seq<Action>, room: nat)
    requires Start(s) && Legal(s, acts) && Exec(s, acts).0.toApp.rx
    requires Apply(Exec(s, acts).0, PollRead(room)).1.ReadEof?
    ensures
      var (s1, h) := (Exec(s, acts).0, HistoryOf(s, acts));
      && h.delivered == h.pulled
      && (s1.tcp != Closed ==> s1.established && PeerDone(s1.tcp) && h.delivered == h.arrived)
  {
    RunKeepsInv(s, acts);
    var (s1, h) := (Exec(s, acts).0, HistoryOf(s, acts));
    ReadShape(s1, room);
    assert h.delivered + ([] + Concat([])) == h.delivered;
    assert h.pulled + [] == h.pulled;
  }

  /** The proxy still holds its stream and has read it to the end. */
  predicate AtEof(s: State)
  {
    s.toApp.rx && !s.toApp.tx && s.readRem.None? && s.toApp.items == []
  }

  lemma ReadAtEof(s: State, room: nat)
    requires s.toApp.rx
    ensures AtEof(s) ==> ReadStep(s, room) == (s, ReadEof)
  {
    assert AtEof(s) ==> s.(toApp := s.toApp.(items := [])) == s;
  }

  lemma EofStays(s: State, h: History, a: Action)
    requires Enabled(s, a) && AtEof(s)
    ensures Record(h, Apply(s, a).1).delivered == h.delivered
    ensures Apply(s, a).0.toApp.rx ==> AtEof(Apply(s, a).0)
  {
    if a.PollRead? {
      ReadAtEof(s, a.room);
    }
  }

  lemma DroppedStays(s: State, h: History, a: Action)
    requires Enabled(s, a) && !s.toApp.rx
    ensures !Apply(s, a).0.toApp.rx && Record(h, Apply(s, a).1).delivered == h.delivered
  {}

  /** End of stream is final: if it was reached after `n` steps, then whatever
      both threads did next, nothing more was delivered, and of a stream not
      dropped meanwhile every read returns end of stream. */
  lemma {:induction false} EofIsFinal(s: State, acts: seq<Action>, n: nat)
    requires Start(s) && Legal(s, acts) && n <= |acts| && AtEof(Exec(s, acts[..n]).0)
    ensures HistoryOf(s, acts).delivered == HistoryOf(s, acts[..n]).delivered
    ensures Exec(s, acts).0.toApp.rx ==>
              AtEof(Exec(s, acts).0) && forall room :: Apply(Exec(s, acts).0, PollRead(room)).1 == ReadEof
  {
    if Exec(s, acts).0.toApp.rx {
      forall room ensures AtEof(Exec(s, acts).0) ==> ReadStep(Exec(s, acts).0, room).1 == ReadEof {
        ReadAtEof(Exec(s, acts).0, room);
      }
    }
    if n == |acts| {
      assert acts[..n] == acts;
    } else {
      var front, a := acts[..|acts| - 1], acts[|acts| - 1];
      assert front[..n] == acts[..n];
      EofIsFinal(s, front, n);
      RunSnoc(s, acts);
      var s1, h := Exec(s, front).0, HistoryOf(s, front);
      if s1.toApp.rx {
        EofStays(s1, h, a);
      } else {
        DroppedStays(s1, h, a);
      }
    }
  }

  // ---- What each call of the proxy is answered with ----

  /** The bytes on their way to the proxy. */
  function Waiting(s: State): seq<byte> { Held(s.readRem) + Concat(s.toApp.items) }

  lemma NothingWaits(s: State)
    requires Bounded(s)
    ensures Waiting(s) == [] <==> s.readRem.None? && s.toApp.items == []
  {
    if s.toApp.items != [] {
      assert Concat(s.toApp.items)[0] == s.toApp.items[0][0];
    }
  }

  lemma DeliverTakesFront(s: State, data: seq<byte>, room: nat, queued: seq<byte>)
    requires room > 0 && data != [] && Concat(s.toApp.items) == queued
    ensures
      var (t, e) := Deliver(s, data, room);
      e.Delivered? && 1 <= |e.bytes| <= room && data + queued == e.bytes + Waiting(t)
  {
    var n := Min(room, |data|);
    assert data + queued == data[..n] + (data[n..] + queued);
    assert n == |data| ==> data[..n] == data && [] + queued == queued;
  }

  /** In every reachable state a read with room gets a non-empty front part of
      what waits, if anything waits; otherwise it is told to wait while the stack
      still holds its end, and end of stream when it does not. */
  lemma ReadOutcome(s: State, acts: seq<Action>, room: nat)
    requires Start(s) && Legal(s, acts) && Exec(s, acts).0.toApp.rx && room > 0
    ensures
      var s1 := Exec(s, acts).0;
      var (t, e) := Apply(s1, PollRead(room));
      if Waiting(s1) != [] then e.Delivered? && 1 <= |e.bytes| <= room && Waiting(s1) == e.bytes + Waiting(t)
      else e == if s1.toApp.tx then ReadPending else ReadEof
  {
    RunKeepsInv(s, acts);
    var s1 := Exec(s, acts).0;
    ReadShape(s1, room);
    NothingWaits(s1);
    if s1.readRem.Some? {
      DeliverTakesFront(s1, s1.readRem.value, room, Concat(s1.toApp.items));
    } else if s1.toApp.items != [] {
      var more := s1.toApp.items[1..];
      DeliverTakesFront(s1.(toApp := s1.toApp.(items := more)), s1.toApp.items[0], room, Concat(more));
      assert [] + Concat(s1.toApp.items) == s1.toApp.items[0] + Concat(more);
    }
  }

  /** A write is accepted whole exactly when neither side has given the channel
      up and fewer than sixteen writes are queued; broken exactly when one has. */
  lemma WriteOutcome(s: State, data: seq<byte>)
    requires s.toApp.rx
    ensures
      var e := Apply(s, PollWrite(data)).1;
      && (e == Wrote(data) <==> s.fromApp.tx && s.fromApp.rx && |s.fromApp.items| < 16)
      && (e == WriteBroken <==> !s.fromApp.tx || !s.fromApp.rx)
      && (e == Wrote(data) || e == WriteBroken || e == WritePending)
  {}

  lemma ShutStays(s: State, a: Action)
    requires Enabled(s, a)
    ensures a.PollShutdown? || a.DropStream? || !s.fromApp.tx ==> !Apply(s, a).0.fromApp.tx
  {}

  /** After a shutdown every write is refused, for good. */
  lemma {:induction false} ShutdownIsFinal(s: State, acts: seq<Action>, i: nat, data: seq<byte>)
    requires Legal(s, acts) && i < |acts| && (acts[i].PollShutdown? || acts[i].DropStream?)
    ensures !Exec(s, acts).0.fromApp.tx && Apply(Exec(s, acts).0, PollWrite(data)).1 == WriteBroken
  {
    var front := acts[..|acts| - 1];
    if i < |front| {
      ShutdownIsFinal(s, front, i, data);
    }
    ShutStays(Exec(s, front).0, acts[|acts| - 1]);
  }

  lemma EstablishedStep(s: State, a: Action)
    requires Enabled(s, a)
    ensures Apply(s, a).0.established <==> s.established || (a.Begin? && MaySend(s.tcp))
  {}

  /** The `i`th step began a pass with the socket able to send. */
  ghost predicate BeganAble(s: State, acts: seq<Action>, i: int)
  {
    0 <= i < |acts| && acts[i].Begin? && MaySend(Exec(s, acts[..i]).0.tcp)
  }

  lemma BeganBefore(s: State, acts: seq<Action>, i: int)
    requires acts != []
    ensures BeganAble(s, acts, i) <==>
              BeganAble(s, acts[..|acts| - 1], i)
              || (i == |acts| - 1 && acts[i].Begin? && MaySend(Exec(s, acts[..|acts| - 1]).0.tcp))
  {
    if 0 <= i < |acts| {
      assert acts[..|acts| - 1][..i] == acts[..i];
    }
  }

  ghost predicate EverBeganAble(s: State, acts: seq<Action>) { exists i :: BeganAble(s, acts, i) }

  lemma EverBeganSnoc(s: State, acts: seq<Action>)
    requires acts != []
    ensures EverBeganAble(s, acts) <==>
              EverBeganAble(s, acts[..|acts| - 1])
              || (acts[|acts| - 1].Begin? && MaySend(Exec(s, acts[..|acts| - 1]).0.tcp))
  {
    forall i ensures BeganAble(s, acts, i) <==>
                BeganAble(s, acts[..|acts| - 1], i)
                || (i == |acts| - 1 && acts[i].Begin? && MaySend(Exec(s, acts[..|acts| - 1]).0.tcp))
    {
      BeganBefore(s, acts, i);
    }
  }

  lemma EstablishedSnoc(s: State, acts: seq<Action>)
    requires acts != [] && Legal(s, acts)
    ensures Exec(s, acts).0.established <==>
              Exec(s, acts[..|acts| - 1]).0.established
              || (acts[|acts| - 1].Begin? && MaySend(Exec(s, acts[..|acts| - 1]).0.tcp))
  {
    EstablishedStep(Exec(s, acts[..|acts| - 1]).0, acts[|acts| - 1]);
  }

  /** A connection counts as established exactly when some pass began with the
      socket able to send. */
  lemma {:induction false} EstablishedIff(s: State, acts: seq<Action>)
    requires Start(s) && Legal(s, acts)
    ensures Exec(s, acts).0.established <==> EverBeganAble(s, acts)
  {
    if acts != [] {
      EstablishedIff(s, acts[..|acts| - 1]);
      EstablishedSnoc(s, acts);
      EverBeganSnoc(s, acts);
    }
  }
}
