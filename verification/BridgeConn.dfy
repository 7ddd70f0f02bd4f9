/** A connection as the source writes it: fields that `poll_read`, `poll_write`,
    `poll_shutdown` and `service_conns` update. Each object records, in ghost
    state, the steps of `Bridge` it has taken; `Valid` says that these are a legal
    run ending in the object's present state, so everything `BridgeLaws` proves of
    runs holds of the object. */
module BridgeConn {
  import opened Wrappers
  import opened Bridge
  import BridgeLaws
  import BridgePass

  /** A TCP socket of the stack: its state, its receive buffer and all it has
      taken for sending. How much it will take is left open. */
  class Socket {
    /** Its number in the socket set. */
    ghost const id: nat
    var tcp: Tcp
    var rx: seq<byte>
    ghost var tx: seq<byte>

    constructor (ghost id: nat)
      ensures this.id == id && tcp == Listen && rx == [] && tx == []
    {
      this.id := id;
      tcp, rx, tx := Listen, [], [];
    }

    /** `can_send`: false when not in a sending state or when the transmit
        buffer is full, which may be the case at any time. */
    method CanSend() returns (b: bool)
      ensures b ==> MaySend(tcp)
    {
      var full: bool := *;
      b := MaySend(tcp) && !full;
    }

    /** `send_slice`: an error or some front part taken. */
    method SendSlice(buf: seq<byte>) returns (r: Option<nat>)
      modifies this`tx
      ensures r.Some? ==> r.value <= |buf| && tx == old(tx) + buf[..r.value]
      ensures r.None? ==> tx == old(tx)
    {
      var n: nat, error: bool := *, *;
      if error || n > |buf| {
        return None;
      }
      tx := tx + buf[..n];
      return Some(n);
    }

    /** `recv` with a closure that takes at most CHUNK bytes; a result of
        nothing stands for an error or an empty slice. */
    method Recv() returns (chunk: seq<byte>)
      modifies this`rx
      ensures |chunk| <= CHUNK && |chunk| <= |old(rx)|
      ensures chunk == old(rx)[..|chunk|] && rx == old(rx)[|chunk|..]
    {
      var n: nat := *;
      n := Min(n, Min(|rx|, CHUNK));
      chunk, rx := rx[..n], rx[n..];
    }
  }

  datatype WriteResult = Accepted(n: nat) | BrokenPipe | WriteNotReady

  datatype ReadResult = Ready(bytes: seq<byte>) | ReadNotReady

  class Conn {
    const sock: Socket
    const port: nat

    // the two channels
    var toApp: Chan
    var fromApp: Chan
    // SmoltcpStream: leftover chunk and offset into it
    var readRem: Option<(seq<byte>, nat)>
    // NetConn
    var pendingOut: Option<seq<byte>>
    var appWriteClosed: bool
    var sentFin: bool
    var established: bool

    ghost const start: State
    ghost const tx0: seq<byte>
    ghost var pc: Pc
    ghost var acts: seq<Action>

    ghost predicate WellFormed()
      reads this
    {
      readRem.Some? ==> readRem.value.1 < |readRem.value.0|
    }

    ghost function Abs(): State
      reads this, sock
    {
      State(sock.tcp, sock.rx, toApp, fromApp, pendingOut, appWriteClosed, sentFin, established, Unread(readRem), pc)
    }

    ghost predicate Valid()
      reads this, sock
    {
      WellFormed() && Reached(Abs(), sock.tx)
    }

    /** The recorded steps are a legal run ending in `s`, in which the socket took
        what makes `tx`. */
    ghost predicate Reached(s: State, tx: seq<byte>)
      reads this
    {
      forall t {:trigger Unfold(t)} :: Unfold(t) && t == s ==>
        && Start(start) && Legal(start, acts) && Exec(start, acts).0 == t
        && tx == tx0 + BridgeLaws.HistoryOf(start, acts).sent
    }

    /** Conservation, FIN and EOF order hold of the object's fields and the
        history of its calls; the socket took exactly what the history says. */
    lemma ValidIsInv()
      requires Valid()
      ensures BridgeLaws.Inv(Abs(), BridgeLaws.HistoryOf(start, acts))
      ensures sock.tx == tx0 + BridgeLaws.HistoryOf(start, acts).sent
    {
      assert Unfold(Abs());
      BridgeLaws.RunKeepsInv(start, acts);
    }

    /** Just made, on a socket that has accepted and not closed. */
    ghost predicate Newborn()
      reads this, sock
    {
      && toApp == Chan([], true, true) && fromApp == Chan([], true, true)
      && readRem.None? && pendingOut.None? && !appWriteClosed && !sentFin && !established
      && pc == Idle && acts == []
      && start == Fresh(sock.tcp, sock.rx) && tx0 == sock.tx && !sock.tcp.Listen? && !sock.tcp.Closed?
    }

    lemma NewbornIsValid()
      requires Newborn()
      ensures Valid() && pc == Idle
    {
      assert tx0 + [] == tx0;
    }

    /** `stream::channel` and `NetConn::new` for a socket just promoted. */
    constructor (sock: Socket, port: nat)
      requires !sock.tcp.Listen? && !sock.tcp.Closed?
      ensures Newborn() && Valid()
      ensures this.sock == sock && this.port == port
    {
      this.sock, this.port := sock, port;
      toApp, fromApp := Chan([], true, true), Chan([], true, true);
      readRem, pendingOut := None, None;
      appWriteClosed, sentFin, established := false, false, false;
      start, tx0 := Fresh(sock.tcp, sock.rx), sock.tx;
      pc, acts := Idle, [];
      new;
      NewbornIsValid();
    }

    /** Record that the fields and the socket, which had taken `tx`, have just
        made step `a` from state `s`, in a pass that began after `base`. */
    ghost method Took(s: State, tx: seq<byte>, a: Action, base: seq<Action>)
      requires WellFormed() && Reached(s, tx) && Enabled(s, a)
      requires Abs() == Apply(s, a).0 && sock.tx == TxAfter(tx, Apply(s, a).1)
      requires Within(base, acts)
      modifies this`acts
      ensures Valid() && acts == old(acts) + [a]
      ensures !a.NetPoll? && !a.CheckReap? ==> Within(base, acts)
      ensures a.CheckReap? ==> BridgePass.PassSince(base, acts)
    {
      assert Unfold(s);
      ghost var longer := acts + [a];
      assert longer[..|acts|] == acts;
      BridgeLaws.RunSnoc(start, longer);
      TxGrows(tx0, BridgeLaws.HistoryOf(start, acts), Apply(s, a).1);
      WithinSnoc(base, acts, a);
      acts := longer;
    }

    // ---- The proxy's thread ----

    method PollRead(room: nat) returns (r: ReadResult)
      requires Valid() && toApp.rx
      modifies this`readRem, this`toApp, this`acts
      ensures Valid() && acts == old(acts) + [Action.PollRead(room)]
      ensures match Apply(old(Abs()), Action.PollRead(room)).1
              case Delivered(bytes) => r == Ready(bytes)
              case ReadEof => r == Ready([])
              case _ => r == ReadNotReady
    {
      ghost var s, tx := Abs(), sock.tx;
      Refill(room);
      ghost var ready := Abs();
      if readRem.Some? {
        var bytes := CopyOut(room);
        r := Ready(bytes);
      } else {
        assert ready.(toApp := ready.toApp.(items := [])) == ready;
        r := if toApp.tx then ReadNotReady else Ready([]);
      }
      Took(s, tx, Action.PollRead(room), acts);
    }

    /** The receiving part of the loop: take chunks off the channel, skipping
        empty ones, until one is at hand or none is left. */
    method Refill(ghost room: nat)
      requires WellFormed()
      modifies this`readRem, this`toApp
      ensures WellFormed() && (readRem.Some? || toApp.items == [])
      ensures ReadStep(Abs(), room) == ReadStep(old(Abs()), room)
      ensures toApp.tx == old(toApp.tx)
    {
      while readRem.None? && toApp.items != []
        invariant WellFormed() && toApp.tx == old(toApp.tx)
        invariant ReadStep(Abs(), room) == ReadStep(old(Abs()), room)
        decreases |toApp.items|
      {
        BridgeLaws.ReadSkips(Abs(), room);
        var v := toApp.items[0];
        toApp := toApp.(items := toApp.items[1..]);
        if v != [] {
          readRem := Some((v, 0));
          assert v[0..] == v;
        }
      }
    }

    /** Copy out of the leftover chunk. */
    method CopyOut(room: nat) returns (bytes: seq<byte>)
      requires WellFormed() && readRem.Some?
      modifies this`readRem
      ensures WellFormed()
      ensures (Abs(), Delivered(bytes)) == ReadStep(old(Abs()), room)
    {
      var (data, off) := readRem.value;
      var n := Min(room, |data| - off);
      bytes := data[off..off + n];
      assert bytes == data[off..][..n] && data[off + n..] == data[off..][n..];
      if off + n >= |data| {
        readRem := None;
      } else {
        readRem := Some((data, off + n));
      }
    }

    method PollWrite(data: seq<byte>) returns (r: WriteResult)
      requires Valid() && toApp.rx
      modifies this`fromApp, this`acts
      ensures Valid() && acts == old(acts) + [Action.PollWrite(data)]
      ensures match Apply(old(Abs()), Action.PollWrite(data)).1
              case Wrote(d) => d == data && r == Accepted(|data|)
              case WritePending => r == WriteNotReady
              case _ => r == BrokenPipe
    {
      ghost var s, tx := Abs(), sock.tx;
      if !fromApp.tx || !fromApp.rx {
        r := BrokenPipe;
      } else if |fromApp.items| < CHAN_CAP {
        fromApp := fromApp.(items := fromApp.items + [data]);
        r := Accepted(|data|);
      } else {
        r := WriteNotReady;
      }
      Took(s, tx, Action.PollWrite(data), acts);
    }

    method PollShutdown()
      requires Valid() && toApp.rx
      modifies this`fromApp, this`acts
      ensures Valid() && acts == old(acts) + [Action.PollShutdown]
    {
      ghost var s, tx := Abs(), sock.tx;
      fromApp := fromApp.(tx := false);
      Took(s, tx, Action.PollShutdown, acts);
    }

    /** Dropping the `SmoltcpStream` drops its ends of both channels. */
    method DropStream()
      requires Valid() && toApp.rx
      modifies this`fromApp, this`toApp, this`acts
      ensures Valid() && acts == old(acts) + [Action.DropStream]
    {
      ghost var s, tx := Abs(), sock.tx;
      fromApp := fromApp.(tx := false);
      toApp := Chan([], toApp.tx, false);
      Took(s, tx, Action.DropStream, acts);
    }

    /** Anything the proxy may do in one go. */
    method ProxyAct(ghost base: seq<Action>)
      requires Valid() && Within(base, acts)
      modifies this`readRem, this`toApp, this`fromApp, this`acts
      ensures Valid() && Within(base, acts)
    {
      if !toApp.rx {
        return;
      }
      ghost var before := acts;
      var choice: nat := *;
      if choice == 0 {
        var room: nat := *;
        var r := PollRead(room);
      } else if choice == 1 {
        var data: seq<byte> := *;
        var r := PollWrite(data);
      } else if choice == 2 {
        PollShutdown();
      } else {
        DropStream();
      }
      WithinSnoc(base, before, acts[|before|]);
    }

    /** The other thread runs for a while. */
    method ProxyTurn(ghost base: seq<Action>)
      requires Valid() && Within(base, acts)
      modifies this`readRem, this`toApp, this`fromApp, this`acts
      ensures Valid() && Within(base, acts)
    {
      var n :| 0 <= n;
      for i := 0 to n
        invariant Valid() && Within(base, acts)
      {
        ProxyAct(base);
      }
    }

    // ---- The stack loop's thread ----

    /** Polling the interface changed the socket. */
    method NetChanged(after: Tcp, arrived: seq<byte>)
      requires Valid() && pc == Idle && NetMay(sock.tcp, after, arrived)
      modifies this`acts, sock
      ensures Valid() && acts == old(acts) + [NetPoll(after, arrived)]
      ensures sock.tcp == after && sock.rx == old(sock.rx) + arrived
    {
      ghost var s, tx := Abs(), sock.tx;
      sock.tcp, sock.rx := after, sock.rx + arrived;
      Took(s, tx, NetPoll(after, arrived), acts);
    }

    /** `push_out`. */
    method PushOut(buf: seq<byte>) returns (ghost out: Outcome)
      modifies this`pendingOut, sock`tx
      ensures OutcomeMay(sock.tcp, out)
      ensures pendingOut == Left(buf, out) && sock.tx == old(sock.tx) + Taken(buf, out)
    {
      var ok := sock.CanSend();
      if !ok {
        pendingOut := Some(buf);
        return Blocked;
      }
      var n := sock.SendSlice(buf);
      match n
      case Some(k) =>
        if k < |buf| {
          pendingOut := Some(buf[k..]);
        } else {
          pendingOut := None;
        }
        return Outcome.Took(k);
      case None =>
        pendingOut := Some(buf);
        return Refused;
    }

    method LatchEstablished(ghost base: seq<Action>)
      requires Valid() && Within(base, acts) && pc == Idle
      modifies this`established, this`pc, this`acts
      ensures Valid() && pc == Flush && Within(base, acts)
    {
      ghost var s, tx := Abs(), sock.tx;
      established := established || MaySend(sock.tcp);
      pc := Flush;
      Took(s, tx, Begin, base);
    }

    /** Flush the stashed remainder first. */
    method FlushStash(ghost base: seq<Action>)
      requires Valid() && Within(base, acts) && pc == Flush
      modifies this`pendingOut, this`pc, this`acts, sock`tx
      ensures Valid() && pc == Drain && Within(base, acts)
    {
      ghost var s, tx := Abs(), sock.tx;
      ghost var out := Blocked;
      if pendingOut.Some? {
        var buf := pendingOut.value;
        pendingOut := None;
        out := PushOut(buf);
      }
      pc := Drain;
      Took(s, tx, FlushPending(out), base);
    }

    /** One turn of the loop over `from_app`; false when it is left. */
    method TryRecv(ghost base: seq<Action>) returns (more: bool)
      requires Valid() && Within(base, acts) && pc == Drain
      modifies this`pendingOut, this`fromApp, this`appWriteClosed, this`pc, this`acts, sock`tx
      ensures Valid() && Within(base, acts)
      ensures more ==> pc == Drain && |fromApp.items| < |old(fromApp.items)|
      ensures !more ==> pc == Fin
    {
      ghost var s, tx := Abs(), sock.tx;
      ghost var out := Blocked;
      more := false;
      if pendingOut.None? {
        if fromApp.items != [] {
          var buf := fromApp.items[0];
          fromApp := fromApp.(items := fromApp.items[1..]);
          out := PushOut(buf);
          more := true;
        } else if !fromApp.tx {
          appWriteClosed := true;
        }
      }
      if !more {
        pc := Fin;
      }
      Took(s, tx, DrainOne(out), base);
    }

    method MaybeFin(ghost base: seq<Action>)
      requires Valid() && Within(base, acts) && pc == Fin
      modifies this`sentFin, this`pc, this`acts, sock`tcp
      ensures Valid() && pc == Pull && Within(base, acts)
    {
      ghost var s, tx := Abs(), sock.tx;
      if appWriteClosed && pendingOut.None? && !sentFin {
        sock.tcp := AfterClose(sock.tcp);
        sentFin := true;
      }
      pc := Pull;
      Took(s, tx, SendFin, base);
    }

    /** One turn of the loop over the socket's bytes; false when it is left. */
    method TryForward(ghost base: seq<Action>) returns (more: bool)
      requires Valid() && Within(base, acts) && pc == Pull
      modifies this`toApp, this`pc, this`acts, sock
      ensures Valid() && Within(base, acts)
      ensures more ==> pc == Pull && |sock.rx| < |old(sock.rx)|
      ensures !more ==> pc == Eof
    {
      ghost var s, tx := Abs(), sock.tx;
      ghost var n := 0;
      more := false;
      if sock.rx != [] && toApp.tx {
        if !toApp.rx {
          sock.tcp := Closed;
          toApp := toApp.(tx := false);
        } else if |toApp.items| < CHAN_CAP {
          var chunk := sock.Recv();
          if chunk != [] {
            toApp := toApp.(items := toApp.items + [chunk]);
            n, more := |chunk|, true;
          } else {
            assert s.rx[0..] == s.rx;
          }
        }
      }
      if !more {
        pc := Eof;
      }
      Took(s, tx, PullOne(n), base);
    }

    method MaybeEof(ghost base: seq<Action>)
      requires Valid() && Within(base, acts) && pc == Eof
      modifies this`toApp, this`pc, this`acts
      ensures Valid() && pc == Reap && Within(base, acts)
    {
      ghost var s, tx := Abs(), sock.tx;
      if established && !MayRecv(sock.tcp, sock.rx) {
        toApp := toApp.(tx := false);
      }
      pc := Reap;
      Took(s, tx, CheckEof, base);
    }

    method MaybeReap(ghost base: seq<Action>) returns (reaped: bool)
      requires Valid() && Within(base, acts) && pc == Reap
      modifies this`toApp, this`fromApp, this`pc, this`acts
      ensures Valid() && BridgePass.PassSince(base, acts)
      ensures reaped == sock.tcp.Closed?
      ensures pc == if reaped then Gone else Idle
    {
      ghost var s, tx := Abs(), sock.tx;
      reaped := sock.tcp.Closed?;
      if reaped {
        toApp := toApp.(tx := false);
        fromApp := Chan([], fromApp.tx, false);
        pc := Gone;
      } else {
        pc := Idle;
      }
      Took(s, tx, CheckReap, base);
    }

    /** The loop over `from_app`. The proxy's thread may run before each turn,
        though only finitely often in one pass: a proxy that wrote for ever
        would keep the loop going. */
    method DrainLoop(ghost base: seq<Action>)
      requires Valid() && Within(base, acts) && pc == Drain
      modifies this`readRem, this`toApp, this`fromApp, this`pendingOut, this`appWriteClosed, this`pc, this`acts, sock`tx
      ensures Valid() && pc == Fin && Within(base, acts)
    {
      var turns :| 0 <= turns;
      var more := true;
      while more
        invariant Valid() && Within(base, acts)
        invariant 0 <= turns
        invariant pc == if more then Drain else Fin
        decreases turns, if more then 1 + |fromApp.items| else 0
      {
        if turns > 0 {
          ProxyTurn(base);
          turns := turns - 1;
        }
        more := TryRecv(base);
      }
    }

    /** The loop over the socket's bytes. */
    method PullLoop(ghost base: seq<Action>)
      requires Valid() && Within(base, acts) && pc == Pull
      modifies this`readRem, this`toApp, this`fromApp, this`pc, this`acts, sock
      ensures Valid() && pc == Eof && Within(base, acts)
    {
      var more := true;
      while more
        invariant Valid() && Within(base, acts)
        invariant pc == if more then Pull else Eof
        decreases if more then 1 + |sock.rx| else 0
      {
        ProxyTurn(base);
        more := TryForward(base);
      }
    }

    /** What the socket has taken once it has everything accepted so far. */
    ghost function Owed(): seq<byte>
      reads this
    {
      tx0 + BridgeLaws.HistoryOf(start, acts).wrote
    }

    lemma ValidRuns()
      requires Valid()
      ensures BridgePass.RunsTo(start, acts, Abs(), BridgeLaws.HistoryOf(start, acts))
    {
      assert Unfold(Abs());
    }

    /** A pass since `base`, where the state was `s`, did what it should. */
    lemma PassDid(s: State, base: seq<Action>, h: History)
      requires Valid() && BridgePass.PassSince(base, acts)
      requires BridgePass.RunsTo(start, base, s, h) && s.pc == Idle
      ensures BridgePass.Achieves(s, Abs()) && BridgePass.MovesBytes(s, acts[|base|..], Abs())
      ensures pendingOut.Some? || tx0 + h.wrote <= sock.tx
    {
      ValidRuns();
      var h1 := BridgeLaws.HistoryOf(start, acts);
      BridgePass.LaterPassAchieves(start, base, s, h, acts, Abs(), h1);
      assert sock.tx == tx0 + h1.sent by { ValidIsInv(); }
      assert h.wrote <= h1.sent ==> tx0 + h.wrote <= tx0 + h1.sent;
    }

    /** The body of `service_conns` for this connection, with the proxy's
        thread running in between. */
    method Pass(ghost base: seq<Action>) returns (reaped: bool)
      requires Valid() && pc == Idle && Within(base, acts)
      modifies this, sock
      ensures Valid() && BridgePass.PassSince(base, acts)
      ensures reaped == sock.tcp.Closed?
      ensures pc == if reaped then Gone else Idle
    {
      ProxyTurn(base);
      LatchEstablished(base);
      FlushStash(base);
      DrainLoop(base);
      MaybeFin(base);
      PullLoop(base);
      MaybeEof(base);
      reaped := MaybeReap(base);
    }

    /** One complete pass: every byte accepted before it is in the socket, unless
        a remainder is stashed, which needs a socket that declined; a shut stream
        has its FIN sent or such a remainder; the socket is read dry unless the
        channel filled up; a finished connection has the proxy's read side
        closed; an abandoned one is gone, one that is up stays. */
    method Service() returns (reaped: bool)
      requires Valid() && pc == Idle
      modifies this, sock
      ensures Valid() && BridgePass.PassSince(old(acts), acts)
      ensures BridgePass.Achieves(old(Abs()), Abs())
      ensures BridgePass.MovesBytes(old(Abs()), acts[|old(acts)|..], Abs())
      ensures pendingOut.Some? || old(Owed()) <= sock.tx
      ensures reaped == sock.tcp.Closed?
      ensures pc == if reaped then Gone else Idle
    {
      ghost var s, base, h := Abs(), acts, BridgeLaws.HistoryOf(start, acts);
      ValidRuns();
      reaped := Pass(base);
      PassDid(s, base, h);
    }
  }

  /** Since `base` one pass over the connection is under way. */
  ghost predicate Within(base: seq<Action>, acts: seq<Action>)
  {
    forall t {:trigger Unfold(t)} :: Unfold(t) && t == acts ==> base <= t && BridgePass.WithinPass(t[|base|..])
  }

  lemma WithinSnoc(base: seq<Action>, acts: seq<Action>, a: Action)
    requires Within(base, acts)
    ensures !a.NetPoll? && !a.CheckReap? ==> Within(base, acts + [a])
    ensures a.CheckReap? ==> BridgePass.PassSince(base, acts + [a])
  {
    assert Unfold(acts);
    var longer := acts + [a];
    assert longer[..|acts|] == acts;
    assert longer[|base|..] == acts[|base|..] + [a];
    assert longer[|base|..][..|acts| - |base|] == acts[|base|..];
  }

  /** The part of a leftover chunk after its offset. */
  function Unread(rem: Option<(seq<byte>, nat)>): Option<seq<byte>>
  {
    if rem.Some? && rem.value.1 <= |rem.value.0| then Some(rem.value.0[rem.value.1..]) else None
  }

  /** What `push_out` leaves stashed. */
  function Left(buf: seq<byte>, out: Outcome): Option<seq<byte>>
  {
    match out
    case Took(k) => if k < |buf| then Some(buf[k..]) else None
    case _ => Some(buf)
  }

  /** What `push_out` gave to the socket. */
  function Taken(buf: seq<byte>, out: Outcome): seq<byte>
  {
    if out.Took? then buf[..Min(out.n, |buf|)] else []
  }

  /** What the socket has taken after event `e`. */
  function TxAfter(tx: seq<byte>, e: Event): seq<byte>
  {
    if e.Sent? then tx + e.bytes else tx
  }

  lemma TxGrows(tx0: seq<byte>, h: History, e: Event)
    ensures TxAfter(tx0 + h.sent, e) == tx0 + Record(h, e).sent
  {}
}
