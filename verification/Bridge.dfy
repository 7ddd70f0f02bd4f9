/** One connection of the byte bridge as a step system: the proxy's stream on one
    side, the stack loop's bookkeeping on the other, two bounded channels between
    them, and the TCP socket. Every channel operation is one step, so a run is an
    arbitrary interleaving of the two threads (src/mitm/stack.rs and
    src/mitm/stream.rs). */
module Bridge {
  import opened Wrappers

  const CHAN_CAP: nat := 16
  const CHUNK: nat := 2048

  // ---- The TCP socket, as far as the bridge relies on it ----

  datatype Tcp =
    | Listen | SynSent | SynReceived | Established | FinWait1 | FinWait2
    | CloseWait | Closing | LastAck | TimeWait | Closed

  predicate MaySend(t: Tcp) { t.Established? || t.CloseWait? }

  /** True while more may come or something is still buffered. */
  predicate MayRecv(t: Tcp, rx: seq<byte>)
  {
    t.Established? || t.FinWait1? || t.FinWait2? || rx != []
  }

  function AfterClose(t: Tcp): Tcp
  {
    match t
    case Listen => Closed
    case SynSent => Closed
    case SynReceived => FinWait1
    case Established => FinWait1
    case CloseWait => LastAck
    case _ => t
  }

  /** The peer's FIN has been received, or the socket is dead. */
  predicate PeerDone(t: Tcp)
  {
    t.CloseWait? || t.Closing? || t.LastAck? || t.TimeWait? || t.Closed?
  }

  /** Our own FIN is on its way or the socket is dead: no more can be sent. */
  predicate LocalDone(t: Tcp)
  {
    t.FinWait1? || t.FinWait2? || t.Closing? || t.LastAck? || t.TimeWait? || t.Closed?
  }

  predicate PastHandshake(t: Tcp) { !t.Listen? && !t.SynSent? && !t.SynReceived? }

  /** What polling the interface may do to a socket: any state change that does
      not go back behind the handshake, our FIN or the peer's, or revive a closed
      socket, and new bytes only before the peer's FIN was processed. */
  predicate NetMay(before: Tcp, after: Tcp, arrived: seq<byte>)
  {
    && (PastHandshake(before) ==> PastHandshake(after))
    && (LocalDone(before) ==> LocalDone(after))
    && (PeerDone(before) ==> PeerDone(after) && arrived == [])
    && (before.Closed? ==> after.Closed?)
  }

  /** What `send_slice` did: no room, some front part taken, or an error. */
  datatype Outcome = Blocked | Took(n: nat) | Refused

  predicate OutcomeMay(t: Tcp, o: Outcome) { o.Blocked? || MaySend(t) }

  // ---- State ----

  /** A bounded FIFO channel. `tx`, `rx`: that end has not been dropped. */
  datatype Chan = Chan(items: seq<seq<byte>>, tx: bool, rx: bool)

  /** Where the stack loop is inside its treatment of this connection. */
  datatype Pc = Idle | Flush | Drain | Fin | Pull | Eof | Reap | Gone

  datatype State = State(
    tcp: Tcp, rx: seq<byte>,
    toApp: Chan, fromApp: Chan,
    pending: Option<seq<byte>>, writeClosed: bool, sentFin: bool, established: bool,
    readRem: Option<seq<byte>>,
    pc: Pc)

  /** A connection as promoted, on a socket that may already hold bytes. */
  function Fresh(tcp: Tcp, rx: seq<byte>): State
  {
    State(tcp, rx, Chan([], true, true), Chan([], true, true), None, false, false, false, None, Idle)
  }

  // ---- Steps ----

  datatype Action =
    // the proxy's thread
    | PollRead(room: nat)
    | PollWrite(data: seq<byte>)
    | PollShutdown
    | DropStream
    // the stack loop's thread, outside and inside service_conns
    | NetPoll(after: Tcp, arrived: seq<byte>)
    | Begin
    | FlushPending(out: Outcome)
    | DrainOne(out: Outcome)
    | SendFin
    | PullOne(n: nat)
    | CheckEof
    | CheckReap

  datatype Event =
    | Wrote(data: seq<byte>) | WriteBroken | WritePending
    | Delivered(bytes: seq<byte>) | ReadEof | ReadPending
    | Arrived(bytes: seq<byte>)
    | Sent(bytes: seq<byte>) | FinSent | Pulled(bytes: seq<byte>) | Aborted
    | Quiet

  predicate Enabled(s: State, a: Action)
  {
    match a
    case PollRead(_) => s.toApp.rx
    case PollWrite(_) => s.toApp.rx
    case PollShutdown => s.toApp.rx
    case DropStream => s.toApp.rx
    case NetPoll(after, arrived) => s.pc == Idle && NetMay(s.tcp, after, arrived)
    case Begin => s.pc == Idle
    case FlushPending(out) => s.pc == Flush && OutcomeMay(s.tcp, out)
    case DrainOne(out) => s.pc == Drain && OutcomeMay(s.tcp, out)
    case SendFin => s.pc == Fin
    case PullOne(_) => s.pc == Pull
    case CheckEof => s.pc == Eof
    case CheckReap => s.pc == Reap
  }

  function DropEmpty(items: seq<seq<byte>>): seq<seq<byte>>
  {
    if items != [] && items[0] == [] then DropEmpty(items[1..]) else items
  }

  /** Hand out up to `room` bytes of `data` and keep the rest. */
  function Deliver(s: State, data: seq<byte>, room: nat): (State, Event)
  {
    var n := Min(room, |data|);
    (s.(readRem := if n == |data| then None else Some(data[n..])), Delivered(data[..n]))
  }

  function ReadStep(s: State, room: nat): (State, Event)
  {
    if s.readRem.Some? then Deliver(s, s.readRem.value, room)
    else
      var items := DropEmpty(s.toApp.items);
      if items == [] then
        (s.(toApp := s.toApp.(items := [])), if s.toApp.tx then ReadPending else ReadEof)
      else
        Deliver(s.(toApp := s.toApp.(items := items[1..])), items[0], room)
  }

  function WriteStep(s: State, data: seq<byte>): (State, Event)
  {
    if !s.fromApp.tx || !s.fromApp.rx then (s, WriteBroken)
    else if |s.fromApp.items| < CHAN_CAP then
      (s.(fromApp := s.fromApp.(items := s.fromApp.items + [data])), Wrote(data))
    else (s, WritePending)
  }

  /** `push_out`. */
  function PushOut(s: State, buf: seq<byte>, out: Outcome): (State, Event)
  {
    match out
    case Blocked => (s.(pending := Some(buf)), Quiet)
    case Refused => (s.(pending := Some(buf)), Quiet)
    case Took(k) =>
      var n := Min(k, |buf|);
      (s.(pending := if n < |buf| then Some(buf[n..]) else None), Sent(buf[..n]))
  }

  function DrainStep(s: State, out: Outcome): (State, Event)
  {
    if s.pending.Some? then (s.(pc := Fin), Quiet)
    else if s.fromApp.items != [] then
      PushOut(s.(fromApp := s.fromApp.(items := s.fromApp.items[1..])), s.fromApp.items[0], out)
    else (s.(pc := Fin, writeClosed := s.writeClosed || !s.fromApp.tx), Quiet)
  }

  function FinStep(s: State): (State, Event)
  {
    if s.writeClosed && s.pending.None? && !s.sentFin then
      (s.(tcp := AfterClose(s.tcp), sentFin := true, pc := Pull), FinSent)
    else (s.(pc := Pull), Quiet)
  }

  /** One turn of the receive loop: leave it, abort, or move one chunk. */
  function PullStep(s: State, n: nat): (State, Event)
  {
    if s.rx == [] || !s.toApp.tx then (s.(pc := Eof), Quiet)
    else if !s.toApp.rx then
      (s.(tcp := Closed, toApp := s.toApp.(tx := false), pc := Eof), Aborted)
    else if |s.toApp.items| >= CHAN_CAP then (s.(pc := Eof), Quiet)
    else
      var got := Min(n, Min(|s.rx|, CHUNK));
      if got == 0 then (s.(pc := Eof), Quiet)
      else
        (s.(rx := s.rx[got..], toApp := s.toApp.(items := s.toApp.items + [s.rx[..got]])),
         Pulled(s.rx[..got]))
  }

  function EofStep(s: State): (State, Event)
  {
    if s.established && !MayRecv(s.tcp, s.rx) then
      (s.(toApp := s.toApp.(tx := false), pc := Reap), Quiet)
    else (s.(pc := Reap), Quiet)
  }

  /** Removing the connection drops the stack's ends of both channels. */
  function ReapStep(s: State): (State, Event)
  {
    if s.tcp == Closed then
      (s.(toApp := s.toApp.(tx := false), fromApp := Chan([], s.fromApp.tx, false), pc := Gone), Quiet)
    else (s.(pc := Idle), Quiet)
  }

  function Apply(s: State, a: Action): (State, Event)
  {
    match a
    case PollRead(room) => ReadStep(s, room)
    case PollWrite(data) => WriteStep(s, data)
    case PollShutdown => (s.(fromApp := s.fromApp.(tx := false)), Quiet)
    case DropStream =>
      (s.(fromApp := s.fromApp.(tx := false), toApp := Chan([], s.toApp.tx, false)), Quiet)
    case NetPoll(after, arrived) => (s.(tcp := after, rx := s.rx + arrived), Arrived(arrived))
    case Begin => (s.(established := s.established || MaySend(s.tcp), pc := Flush), Quiet)
    case FlushPending(out) =>
      if s.pending.Some? then PushOut(s.(pc := Drain), s.pending.value, out) else (s.(pc := Drain), Quiet)
    case DrainOne(out) => DrainStep(s, out)
    case SendFin => FinStep(s)
    case PullOne(n) => PullStep(s, n)
    case CheckEof => EofStep(s)
    case CheckReap => ReapStep(s)
  }

  // ---- Runs ----

  function Exec(s: State, acts: seq<Action>): (r: (State, seq<Event>))
    ensures |r.1| == |acts|
  {
    if acts == [] then (s, [])
    else
      var (s1, ev) := Exec(s, acts[..|acts| - 1]);
      var (s2, e) := Apply(s1, acts[|acts| - 1]);
      (s2, ev + [e])
  }

  predicate Legal(s: State, acts: seq<Action>)
  {
    acts == [] ||
    (Legal(s, acts[..|acts| - 1]) && Enabled(Exec(s, acts[..|acts| - 1]).0, acts[|acts| - 1]))
  }

  /** A connection starts on a socket that left the listening state and is not
      closed. */
  predicate Start(s: State)
  {
    !s.tcp.Listen? && !s.tcp.Closed? && s == Fresh(s.tcp, s.rx)
  }

  // ---- What a run did, read off its events ----

  /** Bytes accepted from the proxy, taken by the socket, received by the
      socket, taken out of it, handed to the proxy; and the FINs sent. */
  datatype History = History(
    wrote: seq<byte>, sent: seq<byte>,
    arrived: seq<byte>, pulled: seq<byte>, delivered: seq<byte>,
    fins: nat)

  function Record(h: History, e: Event): History
  {
    match e
    case Wrote(data) => h.(wrote := h.wrote + data)
    case Sent(bytes) => h.(sent := h.sent + bytes)
    case Arrived(bytes) => h.(arrived := h.arrived + bytes)
    case Pulled(bytes) => h.(pulled := h.pulled + bytes)
    case Delivered(bytes) => h.(delivered := h.delivered + bytes)
    case FinSent => h.(fins := h.fins + 1)
    case _ => h
  }

  /** `rx`: what the socket held when the connection was promoted. */
  function Observed(rx: seq<byte>, ev: seq<Event>): History
  {
    if ev == [] then History([], [], rx, [], [], 0)
    else Record(Observed(rx, ev[..|ev| - 1]), ev[|ev| - 1])
  }

  function Concat(items: seq<seq<byte>>): seq<byte>
  {
    if items == [] then [] else items[0] + Concat(items[1..])
  }

  function Held(o: Option<seq<byte>>): seq<byte>
  {
    if o.Some? then o.value else []
  }
}
