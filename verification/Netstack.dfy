/** The stack loop of src/mitm/stack.rs: the socket set, the listeners kept per
    port and the promoted connections, over any number of iterations. */
module Netstack {
  import opened Wrappers
  import opened Bridge
  import opened BridgeConn
  import BridgeLaws
  import BridgePass

  const LISTEN_BACKLOG: nat := 8

  type Port = nat
  type SocketId = nat
  type Listener = (SocketId, Port)

  /** What the proxy is told about a connection: its stream and port. */
  datatype NewConn = NewConn(conn: Conn, port: Port)

  // ---- Lists of listeners ----

  function Count(ls: seq<Listener>, port: Port): nat
  {
    if ls == [] then 0
    else Count(ls[..|ls| - 1], port) + if ls[|ls| - 1].1 == port then 1 else 0
  }

  ghost function Ids(ls: seq<Listener>): set<SocketId>
  {
    set i | 0 <= i < |ls| :: ls[i].0
  }

  ghost predicate NoRepeat(ls: seq<Listener>)
  {
    forall i, j :: 0 <= i < j < |ls| ==> ls[i].0 != ls[j].0
  }

  function Without(ls: seq<Listener>, i: nat): seq<Listener>
    requires i < |ls|
  {
    ls[..i] + ls[i + 1..]
  }

  /** The TCP sockets of the set are the disjoint union of the listeners, none
      listed twice, and the connections; the DNS socket is none of them. */
  ghost predicate Partitioned(ids: set<SocketId>, ls: seq<Listener>, live: set<SocketId>, dns: SocketId)
  {
    dns !in ids && NoRepeat(ls) && Ids(ls) !! live && ids == Ids(ls) + live
  }

  lemma IdsAdd(ls: seq<Listener>, l: Listener)
    ensures Ids(ls + [l]) == Ids(ls) + {l.0}
  {
    var more := ls + [l];
    assert forall i :: 0 <= i < |ls| ==> more[i] == ls[i];
    assert more[|ls|] == l;
  }

  lemma IdsWithout(ls: seq<Listener>, i: nat)
    requires i < |ls| && NoRepeat(ls)
    ensures Ids(Without(ls, i)) == Ids(ls) - {ls[i].0} && NoRepeat(Without(ls, i))
  {
    var less := Without(ls, i);
    assert forall j :: 0 <= j < |less| ==> less[j] == ls[if j < i then j else j + 1];
    forall h | h in Ids(ls) - {ls[i].0}
      ensures h in Ids(less)
    {
      var j :| 0 <= j < |ls| && ls[j].0 == h;
      assert less[if j < i then j else j - 1] == ls[j];
    }
  }

  lemma PartitionAdd(ids: set<SocketId>, ls: seq<Listener>, live: set<SocketId>, dns: SocketId, l: Listener)
    requires Partitioned(ids, ls, live, dns) && l.0 !in ids && l.0 != dns
    ensures Partitioned(ids + {l.0}, ls + [l], live, dns)
  {
    IdsAdd(ls, l);
    forall i | 0 <= i < |ls|
      ensures ls[i].0 != l.0
    {
      assert ls[i].0 in Ids(ls);
    }
  }

  /** Taking a listener off the list, its socket closed or become a connection. */
  lemma PartitionRemove(ids: set<SocketId>, ls: seq<Listener>, live: set<SocketId>, dns: SocketId, i: nat)
    requires Partitioned(ids, ls, live, dns) && i < |ls|
    ensures ls[i].0 in ids && ls[i].0 !in live
    ensures Partitioned(ids - {ls[i].0}, Without(ls, i), live, dns)
    ensures Partitioned(ids, Without(ls, i), live + {ls[i].0}, dns)
  {
    assert ls[i].0 in Ids(ls);
    IdsWithout(ls, i);
  }

  lemma {:induction false} CountConcat(ls: seq<Listener>, ms: seq<Listener>, p: Port)
    ensures Count(ls + ms, p) == Count(ls, p) + Count(ms, p)
  {
    if ms == [] {
      assert ls + ms == ls;
    } else {
      assert (ls + ms)[..|ls + ms| - 1] == ls + ms[..|ms| - 1];
      CountConcat(ls, ms[..|ms| - 1], p);
    }
  }

  lemma CountAdd(ls: seq<Listener>, l: Listener, p: Port)
    ensures Count(ls + [l], p) == Count(ls, p) + if l.1 == p then 1 else 0
  {
    assert (ls + [l])[..|ls|] == ls;
  }

  lemma CountWithout(ls: seq<Listener>, i: nat, p: Port)
    requires i < |ls|
    ensures Count(Without(ls, i), p) == Count(ls, p) - if ls[i].1 == p then 1 else 0
  {
    var a, b := ls[..i], ls[i + 1..];
    CountConcat(a, b, p);
    assert ls == (a + [ls[i]]) + b;
    CountConcat(a + [ls[i]], b, p);
    CountAdd(a, ls[i], p);
  }

  // ---- What promotion should do ----

  ghost predicate Known(ls: seq<Listener>, st: map<SocketId, Tcp>)
  {
    forall i :: 0 <= i < |ls| ==> ls[i].0 in st
  }

  /** The listeners still waiting, given the state of every socket. */
  ghost function Waiting(ls: seq<Listener>, st: map<SocketId, Tcp>): seq<Listener>
    requires Known(ls, st)
  {
    if ls == [] then []
    else
      var front, last := ls[..|ls| - 1], ls[|ls| - 1];
      if st[last.0].Listen? then Waiting(front, st) + [last] else Waiting(front, st)
  }

  lemma {:induction false} WaitingListen(ls: seq<Listener>, st: map<SocketId, Tcp>)
    requires Known(ls, st)
    ensures forall i :: 0 <= i < |Waiting(ls, st)| ==>
              Waiting(ls, st)[i].0 in st && st[Waiting(ls, st)[i].0].Listen?
  {
    if ls != [] {
      WaitingListen(ls[..|ls| - 1], st);
    }
  }

  /** The listeners that accepted a connection. */
  ghost function Accepting(ls: seq<Listener>, st: map<SocketId, Tcp>): seq<Listener>
    requires Known(ls, st)
  {
    if ls == [] then []
    else
      var front, last := ls[..|ls| - 1], ls[|ls| - 1];
      if !st[last.0].Listen? && !st[last.0].Closed? then Accepting(front, st) + [last] else Accepting(front, st)
  }

  ghost function PortsOf(ls: seq<Listener>): seq<Port>
  {
    seq(|ls|, i requires 0 <= i < |ls| => ls[i].1)
  }

  /** `promote_listeners` has looked at the first `k` of the listeners `all`;
      `ls` is its list now, with `i` its index, `ports` what was announced since
      and `live` the connections since `live0`. */
  ghost predicate Promoting(ls: seq<Listener>, i: int, all: seq<Listener>, k: nat, st: map<SocketId, Tcp>,
                            ports: seq<Port>, live: set<SocketId>, live0: set<SocketId>)
  {
    && 0 <= i <= |ls| && k <= |all| && Known(all, st)
    && ls[..i] == Waiting(all[..k], st) && ls[i..] == all[k..]
    && ports == PortsOf(Accepting(all[..k], st))
    && live == live0 + Ids(Accepting(all[..k], st))
  }

  /** Where `promote_listeners` is, and what it started from. */
  datatype Promotion = Promotion(all: seq<Listener>, k: nat, st: map<SocketId, Tcp>, ports: seq<Port>,
                                 conns: map<SocketId, Conn>, announced: seq<NewConn>)

  lemma PromotingAt(ls: seq<Listener>, i: int, all: seq<Listener>, k: nat, st: map<SocketId, Tcp>,
                    ports: seq<Port>, live: set<SocketId>, live0: set<SocketId>)
    requires Promoting(ls, i, all, k, st, ports, live, live0) && i < |ls|
    ensures k < |all| && ls[i] == all[k] && ls[i].0 in st
  {
    assert ls[i] == ls[i..][0];
  }

  lemma PromotingStep(ls: seq<Listener>, i: int, all: seq<Listener>, k: nat, st: map<SocketId, Tcp>,
                      ports: seq<Port>, live: set<SocketId>, live0: set<SocketId>)
    requires Promoting(ls, i, all, k, st, ports, live, live0) && i < |ls|
    ensures ls[i].0 in st
    ensures
      var (h, port) := ls[i];
      if st[h].Listen? then Promoting(ls, i + 1, all, k + 1, st, ports, live, live0)
      else if st[h].Closed? then Promoting(Without(ls, i), i, all, k + 1, st, ports, live, live0)
      else Promoting(Without(ls, i), i, all, k + 1, st, ports + [port], live + {h}, live0)
  {
    PromotingAt(ls, i, all, k, st, ports, live, live0);
    var l, accepting := all[k], Accepting(all[..k], st);
    assert all[..k + 1][..k] == all[..k];
    assert ls[..i + 1] == ls[..i] + [l] && ls[i + 1..] == ls[i..][1..] == all[k + 1..];
    assert Without(ls, i)[..i] == ls[..i] && Without(ls, i)[i..] == ls[i + 1..];
    IdsAdd(accepting, l);
    assert PortsOf(accepting + [l]) == PortsOf(accepting) + [l.1];
  }

  /** Loop invariant of `promote_listeners`: the
      announcements grew by the promoted ports, old connections are kept. */
  ghost predicate Promoted(i: int, p: Promotion, ls: seq<Listener>,
                           conns: map<SocketId, Conn>, announced: seq<NewConn>)
  {
    && Promoting(ls, i, p.all, p.k, p.st, p.ports, conns.Keys, p.conns.Keys)
    && Ports(announced) == Ports(p.announced) + p.ports
    && (forall h :: h in p.conns ==> h in conns && conns[h] == p.conns[h])
  }

  lemma PassWaiting(i: int, p: Promotion, ls: seq<Listener>,
                    conns: map<SocketId, Conn>, announced: seq<NewConn>)
    requires Promoted(i, p, ls, conns, announced)
    requires i < |ls| && ls[i].0 in p.st && p.st[ls[i].0].Listen?
    ensures Promoted(i + 1, p.(k := p.k + 1), ls, conns, announced)
  {
    PromotingStep(ls, i, p.all, p.k, p.st, p.ports, conns.Keys, p.conns.Keys);
  }

  lemma PassClosed(i: int, p: Promotion, ls: seq<Listener>,
                   conns: map<SocketId, Conn>, announced: seq<NewConn>)
    requires Promoted(i, p, ls, conns, announced)
    requires i < |ls| && ls[i].0 in p.st && p.st[ls[i].0].Closed?
    ensures Promoted(i, p.(k := p.k + 1), Without(ls, i), conns, announced)
  {
    PromotingStep(ls, i, p.all, p.k, p.st, p.ports, conns.Keys, p.conns.Keys);
  }

  lemma PassAccepting(i: int, p: Promotion, ls: seq<Listener>,
                      conns: map<SocketId, Conn>, announced: seq<NewConn>, c: Conn)
    requires Promoted(i, p, ls, conns, announced)
    requires i < |ls| && ls[i].0 in p.st && !p.st[ls[i].0].Listen? && !p.st[ls[i].0].Closed? && ls[i].0 !in conns
    ensures
      var (h, port) := ls[i];
      Promoted(i, p.(k := p.k + 1, ports := p.ports + [port]), Without(ls, i),
               conns[h := c], announced + [NewConn(c, port)])
  {
    var (h, port) := ls[i];
    PromotingStep(ls, i, p.all, p.k, p.st, p.ports, conns.Keys, p.conns.Keys);
    assert Ports(announced + [NewConn(c, port)]) == Ports(announced) + [port];
    assert conns[h := c].Keys == conns.Keys + {h};
  }

  /** Listening on a port fails only for port 0. */
  predicate Listens(port: Port) { port != 0 }

  lemma Above(used: set<nat>) returns (h: nat)
    ensures forall k :: k in used ==> k < h
    decreases used
  {
    if used == {} {
      h := 0;
    } else {
      var k :| k in used;
      var rest := Above(used - {k});
      h := if rest > k then rest else k + 1;
      assert forall j :: j in used ==> j == k || j in used - {k};
    }
  }

  lemma Unused(used: set<nat>)
    ensures exists h: nat :: h !in used
  {
    var h := Above(used);
    assert h !in used;
  }

  /** Every live connection was announced; none was announced twice; each under
      its own port. */
  ghost predicate AnnouncedIn(announced: seq<NewConn>, conns: map<SocketId, Conn>)
  {
    && (forall i, j :: 0 <= i < j < |announced| ==> announced[i].conn != announced[j].conn)
    && (forall i :: 0 <= i < |announced| ==> announced[i].port == announced[i].conn.port)
    && (forall h :: h in conns ==> exists i :: 0 <= i < |announced| && announced[i].conn == conns[h])
  }

  /** Each number names its own socket, and each connection runs on the socket
      of its number. */
  ghost predicate Linked(sockets: map<SocketId, Socket>, conns: map<SocketId, Conn>)
  {
    && (forall h :: h in sockets ==> sockets[h].id == h)
    && (forall h :: h in conns ==> h in sockets && conns[h].sock == sockets[h])
  }

  ghost predicate Backlog(listeners: seq<Listener>)
  {
    forall p :: Count(listeners, p) <= LISTEN_BACKLOG
  }

  /** The stack's own books are in order. */
  ghost predicate Consistent(sockets: map<SocketId, Socket>, listeners: seq<Listener>,
                             conns: map<SocketId, Conn>, announced: seq<NewConn>, dns: SocketId)
  {
    && Partitioned(sockets.Keys, listeners, conns.Keys, dns)
    && Linked(sockets, conns)
    && AnnouncedIn(announced, conns)
    && Backlog(listeners)
  }

  lemma ConsistentAdd(sockets: map<SocketId, Socket>, listeners: seq<Listener>,
                      conns: map<SocketId, Conn>, announced: seq<NewConn>, dns: SocketId,
                      l: Listener, sock: Socket)
    requires Consistent(sockets, listeners, conns, announced, dns)
    requires l.0 !in sockets && l.0 != dns && Count(listeners, l.1) < LISTEN_BACKLOG
    requires sock.id == l.0
    ensures Consistent(sockets[l.0 := sock], listeners + [l], conns, announced, dns)
  {
    PartitionAdd(sockets.Keys, listeners, conns.Keys, dns, l);
    assert sockets[l.0 := sock].Keys == sockets.Keys + {l.0};
    forall p ensures Count(listeners + [l], p) <= LISTEN_BACKLOG {
      CountAdd(listeners, l, p);
    }
  }

  lemma BacklogWithout(listeners: seq<Listener>, i: nat)
    requires Backlog(listeners) && i < |listeners|
    ensures Backlog(Without(listeners, i))
  {
    forall p ensures Count(Without(listeners, i), p) <= LISTEN_BACKLOG {
      CountWithout(listeners, i, p);
    }
  }

  lemma ConsistentDrop(sockets: map<SocketId, Socket>, listeners: seq<Listener>,
                       conns: map<SocketId, Conn>, announced: seq<NewConn>, dns: SocketId, i: nat)
    requires Consistent(sockets, listeners, conns, announced, dns) && i < |listeners|
    ensures Consistent(sockets - {listeners[i].0}, Without(listeners, i), conns, announced, dns)
  {
    var h := listeners[i].0;
    PartitionRemove(sockets.Keys, listeners, conns.Keys, dns, i);
    assert (sockets - {h}).Keys == sockets.Keys - {h};
    BacklogWithout(listeners, i);
  }

  lemma ConsistentPromote(sockets: map<SocketId, Socket>, listeners: seq<Listener>,
                          conns: map<SocketId, Conn>, announced: seq<NewConn>, dns: SocketId, i: nat, c: Conn)
    requires Consistent(sockets, listeners, conns, announced, dns) && i < |listeners| && listeners[i].0 in sockets
    requires c.sock == sockets[listeners[i].0] && c.port == listeners[i].1
    requires forall j :: 0 <= j < |announced| ==> announced[j].conn != c
    ensures listeners[i].0 !in conns
    ensures Consistent(sockets, Without(listeners, i), conns[listeners[i].0 := c],
                       announced + [NewConn(c, c.port)], dns)
  {
    var h := listeners[i].0;
    PartitionRemove(sockets.Keys, listeners, conns.Keys, dns, i);
    assert conns[h := c].Keys == conns.Keys + {h};
    BacklogWithout(listeners, i);
    AnnounceOne(announced, conns, h, c);
  }

  lemma AnnounceOne(announced: seq<NewConn>, conns: map<SocketId, Conn>, h: SocketId, c: Conn)
    requires AnnouncedIn(announced, conns)
    requires forall j :: 0 <= j < |announced| ==> announced[j].conn != c
    ensures AnnouncedIn(announced + [NewConn(c, c.port)], conns[h := c])
  {
    var more := announced + [NewConn(c, c.port)];
    var live := conns[h := c];
    forall k | k in live
      ensures exists i :: 0 <= i < |more| && more[i].conn == live[k]
    {
      if k == h {
        assert more[|announced|].conn == c;
      } else {
        var i :| 0 <= i < |announced| && announced[i].conn == conns[k];
        assert more[i].conn == conns[k];
      }
    }
  }

  lemma ConsistentReap(sockets: map<SocketId, Socket>, listeners: seq<Listener>,
                       conns: map<SocketId, Conn>, announced: seq<NewConn>, dns: SocketId, h: SocketId)
    requires Consistent(sockets, listeners, conns, announced, dns) && h in conns
    ensures Consistent(sockets - {h}, listeners, conns - {h}, announced, dns)
  {
    assert (sockets - {h}).Keys == sockets.Keys - {h} && (conns - {h}).Keys == conns.Keys - {h};
    assert forall k :: k in conns - {h} ==> (conns - {h})[k] == conns[k];
  }

  /** What a connection looked like before a pass. */
  datatype Mark = Mark(acts: seq<Action>, state: State, accepted: seq<byte>)

  ghost function MarkOf(c: Conn): Mark
    reads c, c.sock
  {
    Mark(c.acts, c.Abs(), c.Owed())
  }

  /** The connection has had one complete pass since the mark, and that pass did
      what it should. */
  ghost predicate Passed(c: Conn, m: Mark)
    reads c, c.sock
  {
    forall a {:trigger Unfold(a)} :: Unfold(a) && a == m ==>
      && BridgePass.PassSince(a.acts, c.acts)
      && BridgePass.Achieves(a.state, c.Abs())
      && BridgePass.MovesBytes(a.state, c.acts[|a.acts|..], c.Abs())
      && (c.pendingOut.Some? || a.accepted <= c.sock.tx)
  }

  ghost function Ports(announced: seq<NewConn>): seq<Port>
  {
    seq(|announced|, i requires 0 <= i < |announced| => announced[i].port)
  }

  class Stack {
    const dns: SocketId
    var sockets: map<SocketId, Socket>
    var listeners: seq<Listener>
    var conns: map<SocketId, Conn>
    var wantedPorts: set<Port>
    var announced: seq<NewConn>

    /** Each connection has taken a legal run of bridge steps, and the loop is
        between two passes over it. */
    ghost predicate ConnsValid()
      reads this`conns, conns.Values, set c | c in conns.Values :: c.sock
    {
      forall d: SocketId {:trigger Unfold(d)} :: Unfold(d) && d == dns ==>
        forall h :: h in conns ==> conns[h].pc == Idle && conns[h].Valid()
    }

    ghost predicate Book()
      reads this
    {
      forall d: SocketId {:trigger Unfold(d)} :: Unfold(d) && d == dns ==>
        Consistent(sockets, listeners, conns, announced, d)
    }

    ghost predicate Valid()
      reads this, conns.Values, set c | c in conns.Values :: c.sock
    {
      Book() && ConnsValid()
    }

    /** `Stack::new` up to its first `ensure_listeners`. */
    constructor (dns: SocketId, https: Port)
      ensures Valid() && sockets == map[] && conns == map[] && wantedPorts == {https}
    {
      this.dns := dns;
      sockets, listeners, conns := map[], [], map[];
      wantedPorts, announced := {https}, [];
    }

    /** `SocketSet::add`: any number not in use, also one used before. */
    method FreeId() returns (h: SocketId)
      ensures h !in sockets && h != dns
    {
      Unused(sockets.Keys + {dns});
      h :| h !in sockets.Keys + {dns};
    }

    /** `ensure_listeners`. */
    method EnsureListeners()
      requires Book()
      modifies this`sockets, this`listeners
      ensures Book() && old(listeners) <= listeners
      ensures fresh(sockets.Values - old(sockets.Values))
      ensures forall p :: Count(listeners, p) ==
                if p in wantedPorts && Listens(p) then LISTEN_BACKLOG else old(Count(listeners, p))
    {
      var todo := wantedPorts;
      while todo != {}
        invariant todo <= wantedPorts
        invariant Book() && old(listeners) <= listeners
        invariant fresh(sockets.Values - old(sockets.Values))
        invariant forall p :: Count(listeners, p) ==
                    if p in wantedPorts - todo && Listens(p) then LISTEN_BACKLOG else old(Count(listeners, p))
      {
        var port :| port in todo;
        ListenOn(port, old(listeners));
        todo := todo - {port};
      }
    }

    /** Top up the listeners of one port. */
    method ListenOn(port: Port, ghost base: seq<Listener>)
      requires Book() && base <= listeners
      modifies this`sockets, this`listeners
      ensures Book() && base <= listeners
      ensures fresh(sockets.Values - old(sockets.Values))
      ensures forall p :: Count(listeners, p) ==
                if p == port && Listens(p) then LISTEN_BACKLOG else old(Count(listeners, p))
    {
      var have := Count(listeners, port);
      assert have <= LISTEN_BACKLOG by { assert Unfold(dns); }
      for i := have to LISTEN_BACKLOG
        invariant Book() && base <= listeners
        invariant fresh(sockets.Values - old(sockets.Values))
        invariant forall p :: Count(listeners, p) ==
                    if p == port && Listens(p) then i else old(Count(listeners, p))
      {
        if Listens(port) {
          AddListener(port, base);
        }
      }
    }

    method AddListener(port: Port, ghost base: seq<Listener>)
      requires Book() && Count(listeners, port) < LISTEN_BACKLOG && base <= listeners
      modifies this`sockets, this`listeners
      ensures Book() && base <= listeners
      ensures fresh(sockets.Values - old(sockets.Values))
      ensures forall p :: Count(listeners, p) == old(Count(listeners, p)) + if p == port then 1 else 0
    {
      var h := FreeId();
      var sock := new Socket(h);
      assert Unfold(dns);
      ConsistentAdd(sockets, listeners, conns, announced, dns, (h, port), sock);
      forall p ensures Count(listeners + [(h, port)], p) == Count(listeners, p) + if p == port then 1 else 0 {
        CountAdd(listeners, (h, port), p);
      }
      sockets := sockets[h := sock];
      listeners := listeners + [(h, port)];
    }

    ghost function States(): map<SocketId, Tcp>
      reads this, sockets.Values
    {
      map h | h in sockets :: sockets[h].tcp
    }

    /** No socket state differs from what it was in `st`. */
    ghost predicate SameStates(st: map<SocketId, Tcp>)
      reads this`sockets, sockets.Values
    {
      forall h :: h in sockets ==> h in st && sockets[h].tcp == st[h]
    }

    /** A listener whose socket has closed is dropped with its socket. */
    method DropListener(i: nat)
      requires Book() && i < |listeners|
      modifies this`sockets, this`listeners
      ensures Book()
      ensures listeners == Without(old(listeners), i)
      ensures sockets == old(sockets) - {old(listeners)[i].0}
    {
      var (h, port) := listeners[i];
      assert Unfold(dns);
      ConsistentDrop(sockets, listeners, conns, announced, dns, i);
      listeners := listeners[..i] + listeners[i + 1..];
      sockets := sockets - {h};
    }

    /** A listener that accepted becomes a connection and is announced. */
    method Promote(i: nat)
      requires Book() && i < |listeners| && listeners[i].0 in sockets
      requires !sockets[listeners[i].0].tcp.Listen? && !sockets[listeners[i].0].tcp.Closed?
      modifies this`listeners, this`conns, this`announced
      ensures Book()
      ensures listeners == Without(old(listeners), i)
      ensures
        var (h, port) := old(listeners)[i];
        && h !in old(conns) && h in conns && conns == old(conns)[h := conns[h]]
        && announced == old(announced) + [NewConn(conns[h], port)]
        && fresh(conns[h]) && conns[h].Newborn()
    {
      var (h, port) := listeners[i];
      var c := new Conn(sockets[h], port);
      assert Unfold(dns);
      ConsistentPromote(sockets, listeners, conns, announced, dns, i, c);
      listeners := listeners[..i] + listeners[i + 1..];
      conns := conns[h := c];
      announced := announced + [NewConn(c, port)];
    }

    /** Every connection is one of `before`, or new. */
    ghost predicate NewOnes(before: set<SocketId>)
      reads this`conns, conns.Values, set c | c in conns.Values :: c.sock
    {
      forall h :: h in conns && h !in before ==> conns[h].Newborn()
    }

    /** The loop invariant of `promote_listeners`. */
    ghost predicate Underway(i: int, p: Promotion)
      reads this, sockets.Values, conns.Values, set c | c in conns.Values :: c.sock
    {
      && Book() && Promoted(i, p, listeners, conns, announced)
      && SameStates(p.st) && NewOnes(p.conns.Keys)
    }

    method PassClosedListener(i: nat, ghost p: Promotion)
      requires Underway(i, p) && i < |listeners| && listeners[i].0 in sockets
      requires sockets[listeners[i].0].tcp.Closed?
      modifies this`sockets, this`listeners
      ensures Underway(i, p.(k := p.k + 1)) && |listeners| == |old(listeners)| - 1
      ensures sockets.Values <= old(sockets.Values)
    {
      PassClosed(i, p, listeners, conns, announced);
      DropListener(i);
    }

    method PassAcceptingListener(i: nat, ghost p: Promotion) returns (ghost q: Promotion)
      requires Underway(i, p) && i < |listeners| && listeners[i].0 in sockets
      requires !sockets[listeners[i].0].tcp.Listen? && !sockets[listeners[i].0].tcp.Closed?
      modifies this`listeners, this`conns, this`announced
      ensures q == p.(k := p.k + 1, ports := q.ports)
      ensures Underway(i, q) && |listeners| == |old(listeners)| - 1
      ensures fresh(conns.Values - old(conns.Values))
    {
      var (h, port) := listeners[i];
      Promote(i);
      PassAccepting(i, p, old(listeners), old(conns), old(announced), conns[h]);
      q := p.(k := p.k + 1, ports := p.ports + [port]);
    }

    /** One turn of the loop of `promote_listeners`. */
    method PassListener(i: nat, ghost p: Promotion) returns (next: nat, ghost q: Promotion)
      requires Underway(i, p) && i < |listeners|
      modifies this`sockets, this`listeners, this`conns, this`announced
      ensures q == p.(k := p.k + 1, ports := q.ports)
      ensures Underway(next, q) && |listeners| - next < old(|listeners|) - i
      ensures fresh(conns.Values - old(conns.Values)) && sockets.Values <= old(sockets.Values)
    {
      var (h, port) := listeners[i];
      ListenersKnown();
      next, q := i, p.(k := p.k + 1);
      if sockets[h].tcp.Listen? {
        PassWaiting(i, p, listeners, conns, announced);
        next := i + 1;
      } else if sockets[h].tcp.Closed? {
        PassClosedListener(i, p);
      } else {
        q := PassAcceptingListener(i, p);
      }
    }

    /** `promote_listeners`: waiting listeners stay in order; each one that
        accepted becomes a new connection on its own socket, announced once, in
        order, under its port; closed ones go. */
    method PromoteListeners()
      requires Book()
      modifies this`sockets, this`listeners, this`conns, this`announced
      ensures Book() && Known(old(listeners), old(States()))
      ensures listeners == Waiting(old(listeners), old(States()))
      ensures Ports(announced) == Ports(old(announced)) + PortsOf(Accepting(old(listeners), old(States())))
      ensures conns.Keys == old(conns).Keys + Ids(Accepting(old(listeners), old(States())))
      ensures forall h :: h in old(conns) ==> conns[h] == old(conns)[h]
      ensures NewOnes(old(conns).Keys) && SameStates(old(States()))
      ensures fresh(conns.Values - old(conns.Values)) && sockets.Values <= old(sockets.Values)
    {
      ghost var p := Promotion(listeners, 0, States(), [], conns, announced);
      assert Known(listeners, p.st) by { ListenersKnown(); }
      var i := 0;
      while i < |listeners|
        invariant 0 <= i && Underway(i, p)
        invariant fresh(conns.Values - old(conns.Values)) && sockets.Values <= old(sockets.Values)
        invariant p == Promotion(old(listeners), p.k, old(States()), p.ports, old(conns), old(announced))
        decreases |listeners| - i
      {
        i, p := PassListener(i, p);
      }
      assert p.all[..p.k] == p.all && listeners[..i] == listeners;
    }

    /** Connections stay valid when the old ones are untouched and the others
        are new. */
    twostate lemma ConnsKept()
      requires old(ConnsValid())
      requires forall h :: h in conns && h in old(conns) ==>
                 conns[h] == old(conns)[h] && unchanged(conns[h]) && unchanged(conns[h].sock)
      requires forall h :: h in conns && h !in old(conns) ==> conns[h].Newborn()
      ensures ConnsValid()
    {
      assert Unfold(dns);
      forall h | h in conns
        ensures conns[h].pc == Idle && conns[h].Valid()
      {
        if h !in old(conns) {
          conns[h].NewbornIsValid();
        }
      }
    }

    lemma ListenersKnown()
      requires Book()
      ensures Known(listeners, States())
      ensures forall i :: 0 <= i < |listeners| ==> listeners[i].0 in sockets
    {
      assert Unfold(dns);
      forall i | 0 <= i < |listeners|
        ensures listeners[i].0 in sockets
      {
        assert listeners[i].0 in Ids(listeners);
      }
    }

    /** The connections other than `h` are valid. */
    ghost predicate OthersValid(h: SocketId)
      reads this`conns, conns.Values, set c | c in conns.Values :: c.sock
    {
      forall d: SocketId {:trigger Unfold(d)} :: Unfold(d) && d == dns ==>
        forall k :: k in conns && k != h ==> conns[k].pc == Idle && conns[k].Valid()
    }

    /** Only the connection `h` was touched: the others are still valid. */
    twostate lemma OthersKept(h: SocketId)
      requires old(Valid()) && h in old(conns) && conns == old(conns)
      requires forall k :: k in conns && k != h ==> unchanged(conns[k]) && unchanged(conns[k].sock)
      ensures OthersValid(h)
    {
      assert Unfold(dns);
    }

    lemma Apart(h: SocketId)
      requires Book() && h in conns
      ensures forall k :: k in conns && k != h ==> conns[k] != conns[h] && conns[k].sock != conns[h].sock
    {
      assert Unfold(dns);
    }

    /** A complete pass over one connection. */
    method PassOver(h: SocketId) returns (reaped: bool)
      requires Valid() && h in conns
      modifies conns[h], conns[h].sock
      ensures OthersValid(h) && conns[h].Valid()
      ensures reaped == conns[h].sock.tcp.Closed?
      ensures conns[h].pc == if reaped then Gone else Idle
      ensures Passed(conns[h], old(MarkOf(conns[h])))
    {
      Apart(h);
      assert conns[h].pc == Idle && conns[h].Valid() by { assert Unfold(dns); }
      reaped := conns[h].Service();
      OthersKept(h);
    }

    /** A closed connection goes with its socket. */
    method Reap(h: SocketId)
      requires Book() && OthersValid(h) && h in conns
      modifies this`sockets, this`conns
      ensures Valid() && conns == old(conns) - {h} && sockets == old(sockets) - {h}
    {
      assert Unfold(dns);
      ConsistentReap(sockets, listeners, conns, announced, dns, h);
      conns := conns - {h};
      sockets := sockets - {h};
      KeptWithout(h);
    }

    twostate lemma KeptWithout(h: SocketId)
      requires old(OthersValid(h)) && conns == old(conns) - {h}
      requires forall k :: k in conns ==> unchanged(conns[k]) && unchanged(conns[k].sock)
      ensures ConnsValid()
    {
      assert Unfold(dns);
    }

    lemma AllValid(h: SocketId)
      requires OthersValid(h) && h in conns && conns[h].pc == Idle && conns[h].Valid()
      ensures ConnsValid()
    {
      assert Unfold(dns);
    }

    /** One turn of `service_conns`. */
    method ServiceOne(h: SocketId) returns (reaped: bool)
      requires Valid() && h in conns
      modifies this`sockets, this`conns, conns[h], conns[h].sock
      ensures Valid() && Passed(old(conns)[h], old(MarkOf(conns[h])))
      ensures reaped == old(conns)[h].sock.tcp.Closed?
      ensures conns == if reaped then old(conns) - {h} else old(conns)
      ensures sockets == if reaped then old(sockets) - {h} else old(sockets)
    {
      OwnSockets();
      var sock := sockets[h];
      reaped := PassOver(h);
      if sock.tcp.Closed? {
        Reap(h);
      } else {
        AllValid(h);
      }
    }

    /** `service_conns`: every connection has one complete pass, after which a
        shut stream has its FIN sent or bytes waiting and a finished connection
        its read side closed; those found closed are removed with their sockets
        and no other is; no socket number is looked up after it was freed. */
    method ServiceConns()
      requires Valid()
      modifies this`sockets, this`conns, conns.Values, set c | c in conns.Values :: c.sock
      ensures Valid()
      ensures forall h :: h in old(conns) ==> Passed(old(conns)[h], old(MarkOf(conns[h])))
      ensures forall h :: h in old(conns) ==> (h in conns <==> !old(conns)[h].sock.tcp.Closed?)
      ensures conns.Keys <= old(conns).Keys && forall h :: h in conns ==> conns[h] == old(conns)[h]
      ensures sockets.Values <= old(sockets.Values) && wantedPorts == old(wantedPorts)
    {
      ghost var live, marks := conns, map h | h in conns :: MarkOf(conns[h]);
      OwnSockets();
      var todo := conns.Keys;
      while todo != {}
        invariant Valid() && todo <= conns.Keys <= live.Keys
        invariant forall h :: h in conns ==> conns[h] == live[h]
        invariant Swept(live, marks, todo) && sockets.Values <= old(sockets.Values)
      {
        var h :| h in todo;
        ServiceNext(h, live, marks, todo);
        todo := todo - {h};
      }
    }

    /** How far `service_conns` is with the connections `live`: the ones in
        `todo` are as marked, the others have had their pass since, and of these
        the closed ones are gone. */
    ghost predicate Swept(live: map<SocketId, Conn>, marks: map<SocketId, Mark>, todo: set<SocketId>)
      reads this`conns, live.Values, set c | c in live.Values :: c.sock
    {
      forall h :: h in live ==>
        && live[h].sock.id == h && h in marks
        && (if h in todo then MarkOf(live[h]) == marks[h]
            else Passed(live[h], marks[h]) && (h in conns <==> !live[h].sock.tcp.Closed?))
    }

    method ServiceNext(h: SocketId, ghost live: map<SocketId, Conn>, ghost marks: map<SocketId, Mark>,
                       ghost todo: set<SocketId>)
      requires Valid() && h in todo && h in conns && h in live && conns[h] == live[h]
      requires Swept(live, marks, todo)
      modifies this`sockets, this`conns, conns[h], conns[h].sock
      ensures Valid() && Swept(live, marks, todo - {h})
      ensures old(conns).Keys - {h} <= conns.Keys <= old(conns).Keys
      ensures forall k :: k in conns ==> conns[k] == old(conns)[k]
      ensures sockets.Values <= old(sockets.Values)
    {
      var reaped := ServiceOne(h);
    }

    lemma OwnSockets()
      requires Book()
      ensures forall h :: h in conns ==> h in sockets && conns[h].sock == sockets[h] && conns[h].sock.id == h
    {
      assert Unfold(dns);
    }

    // ---- The interface, the proxy and the whole loop ----

    /** Every connection has taken at least the steps in `base`. */
    ghost predicate Since(base: map<SocketId, seq<Action>>)
      reads this`conns, conns.Values
    {
      forall h :: h in conns ==> h in base && base[h] <= conns[h].acts
    }

    ghost function Steps(): map<SocketId, seq<Action>>
      reads this`conns, conns.Values
    {
      map h | h in conns :: conns[h].acts
    }

    /** `Tun::drain` learns the ports the child dials. */
    method Dial(ports: set<Port>)
      requires Valid()
      modifies this`wantedPorts
      ensures Valid() && wantedPorts == old(wantedPorts) + ports
    {
      wantedPorts := wantedPorts + ports;
      ConnsKept();
    }

    /** Polling changed a connection's socket. */
    method PollConn(h: SocketId, ghost base: seq<Action>)
      requires Valid() && h in conns && base <= conns[h].acts
      modifies conns[h], conns[h].sock
      ensures Valid() && base <= conns[h].acts
    {
      var c := conns[h];
      Apart(h);
      assert c.pc == Idle && c.Valid() by { assert Unfold(dns); }
      var after, arrived := *, *;
      if NetMay(c.sock.tcp, after, arrived) {
        c.NetChanged(after, arrived);
      }
      OthersKept(h);
      AllValid(h);
    }

    /** Polling changed a listener's socket: it accepted, received or closed. */
    method PollListener(h: SocketId)
      requires Valid() && h in sockets && h !in conns
      modifies sockets[h]
      ensures Valid()
    {
      NotAConn(h);
      var sock := sockets[h];
      var after, arrived := *, *;
      if NetMay(sock.tcp, after, arrived) {
        sock.tcp, sock.rx := after, sock.rx + arrived;
      }
      ConnsKept();
    }

    lemma NotAConn(h: SocketId)
      requires Book() && h in sockets && h !in conns
      ensures forall k :: k in conns ==> conns[k].sock != sockets[h]
    {
      assert Unfold(dns);
    }

    /** `iface.poll`: any socket may change. */
    method PollInterface(ghost base: map<SocketId, seq<Action>>)
      requires Valid() && Since(base)
      modifies sockets.Values, conns.Values, set c | c in conns.Values :: c.sock
      ensures Valid() && Since(base)
    {
      var todo := sockets.Keys;
      while todo != {}
        invariant Valid() && todo <= sockets.Keys && Since(base)
      {
        var h :| h in todo;
        if h in conns {
          Apart(h);
          PollConn(h, base[h]);
        } else {
          PollListener(h);
        }
        todo := todo - {h};
      }
    }

    /** Between two iterations the proxy uses its streams. */
    method ProxyUses(h: SocketId, ghost base: seq<Action>)
      requires Valid() && h in conns && base <= conns[h].acts
      modifies conns[h]
      ensures Valid() && base <= conns[h].acts
    {
      var c := conns[h];
      Apart(h);
      assert c.pc == Idle && c.Valid() by { assert Unfold(dns); }
      ghost var before := c.acts;
      c.ProxyTurn(before);
      assert base <= c.acts by { assert Unfold(c.acts); }
      OthersKept(h);
      AllValid(h);
    }

    method ProxiesRun(ghost base: map<SocketId, seq<Action>>)
      requires Valid() && Since(base)
      modifies conns.Values
      ensures Valid() && Since(base)
    {
      var todo := conns.Keys;
      while todo != {}
        invariant Valid() && todo <= conns.Keys && Since(base)
      {
        var h :| h in todo;
        Apart(h);
        ProxyUses(h, base[h]);
        todo := todo - {h};
      }
    }

    /** No listener has accepted or closed without being dealt with. */
    ghost predicate AllListening()
      reads this, sockets.Values
    {
      forall i :: 0 <= i < |listeners| ==> listeners[i].0 in sockets && sockets[listeners[i].0].tcp.Listen?
    }

    /** Every wanted port has its full backlog of listeners. */
    ghost predicate Topped()
      reads this
    {
      forall p :: p in wantedPorts && Listens(p) ==> Count(listeners, p) == LISTEN_BACKLOG
    }

    method EnsureListenersValid()
      requires Valid()
      modifies this`sockets, this`listeners
      ensures Valid() && Topped() && fresh(sockets.Values - old(sockets.Values))
    {
      EnsureListeners();
      ConnsKept();
    }

    method PromoteListenersValid()
      requires Valid()
      modifies this`sockets, this`listeners, this`conns, this`announced
      ensures Valid() && AllListening()
      ensures fresh(conns.Values - old(conns.Values)) && sockets.Values <= old(sockets.Values)
    {
      PromoteListeners();
      ConnsKept();
      ListenersKnown();
      WaitingListen(old(listeners), old(States()));
    }

    lemma SocksInSet()
      requires Book()
      ensures (set c | c in conns.Values :: c.sock) <= sockets.Values
    {
      assert Unfold(dns);
    }
  }

  /** `run`, for any number of iterations, any ports the child dials, any
      behaviour of the network and any use the proxy makes of its streams: at
      the end the books are in order, every wanted port has its listeners and
      every live connection has taken a legal run of bridge steps. */
  method RunLoop(dns: SocketId, https: Port, iterations: nat) returns (stack: Stack)
    ensures stack.Valid() && stack.Topped() && https in stack.wantedPorts
  {
    stack := new Stack(dns, https);
    stack.EnsureListenersValid();
    for i := 0 to iterations
      invariant stack.Valid() && fresh(stack) && stack.Topped() && https in stack.wantedPorts
      invariant fresh(stack.sockets.Values) && fresh(stack.conns.Values)
    {
      Accept(stack);
      Serve(stack);
    }
  }

  /** The first half of an iteration: learn ports, poll, promote. Every listener
      that accepted is promoted and every closed one dropped. */
  method Accept(stack: Stack)
    requires stack.Valid()
    modifies stack, stack.sockets.Values, stack.conns.Values
    ensures stack.Valid() && stack.AllListening() && old(stack.wantedPorts) <= stack.wantedPorts
    ensures fresh(stack.sockets.Values - old(stack.sockets.Values))
    ensures fresh(stack.conns.Values - old(stack.conns.Values))
  {
    var dialled: set<Port> := *;
    stack.Dial(dialled);
    stack.EnsureListenersValid();
    stack.SocksInSet();
    stack.PollInterface(stack.Steps());
    stack.PromoteListenersValid();
  }

  /** Somewhere after `base` the connection had a complete pass. */
  ghost predicate Treated(base: seq<Action>, acts: seq<Action>)
  {
    exists n: nat :: n <= |acts| && BridgePass.PassSince(base, acts[..n])
  }

  /** Each connection in `mid` was in `base` and has had its pass since. */
  ghost predicate PassedSince(base: map<SocketId, seq<Action>>, mid: map<SocketId, seq<Action>>)
  {
    forall h :: h in mid ==> h in base && BridgePass.PassSince(base[h], mid[h])
  }

  lemma StillTreated(stack: Stack, base: map<SocketId, seq<Action>>, mid: map<SocketId, seq<Action>>)
    requires PassedSince(base, mid) && stack.Since(mid)
    ensures forall h :: h in stack.conns ==> h in base && Treated(base[h], stack.conns[h].acts)
  {
    forall h | h in stack.conns
      ensures h in base && Treated(base[h], stack.conns[h].acts)
    {
      assert stack.conns[h].acts[..|mid[h]|] == mid[h];
    }
  }

  /** The end of an iteration: top up, poll, and wait while the proxy runs. */
  method TopUpAndWait(stack: Stack, ghost base: map<SocketId, seq<Action>>)
    requires stack.Valid() && stack.Since(base)
    modifies stack`sockets, stack`listeners, stack.sockets.Values, stack.conns.Values
    ensures stack.Valid() && stack.Topped() && stack.Since(base)
    ensures stack.conns == old(stack.conns) && stack.wantedPorts == old(stack.wantedPorts)
    ensures fresh(stack.sockets.Values - old(stack.sockets.Values))
  {
    stack.EnsureListenersValid();
    stack.SocksInSet();
    stack.PollInterface(base);
    stack.ProxiesRun(base);
  }

  /** `service_conns`, as far as the end of the iteration needs to know. */
  method ServiceAll(stack: Stack)
    requires stack.Valid()
    modifies stack`sockets, stack`conns, stack.sockets.Values, stack.conns.Values
    ensures stack.Valid() && PassedSince(old(stack.Steps()), stack.Steps())
    ensures stack.wantedPorts == old(stack.wantedPorts)
    ensures stack.sockets.Values <= old(stack.sockets.Values) && stack.conns.Values <= old(stack.conns.Values)
  {
    ghost var marks := map h | h in stack.conns :: MarkOf(stack.conns[h]);
    stack.SocksInSet();
    stack.ServiceConns();
    forall h | h in stack.conns
      ensures h in marks && BridgePass.PassSince(marks[h].acts, stack.conns[h].acts)
    {
      assert Unfold(marks[h]);
    }
  }

  /** The second half: service, then the end of the iteration. Every connection
      that is left has had its pass. */
  method Serve(stack: Stack)
    requires stack.Valid()
    modifies stack, stack.sockets.Values, stack.conns.Values
    ensures stack.Valid() && stack.Topped() && stack.wantedPorts == old(stack.wantedPorts)
    ensures fresh(stack.sockets.Values - old(stack.sockets.Values))
    ensures stack.conns.Values <= old(stack.conns.Values)
    ensures forall h :: h in stack.conns ==>
              h in old(stack.Steps()) && Treated(old(stack.Steps())[h], stack.conns[h].acts)
  {
    ghost var base := stack.Steps();
    ServiceAll(stack);
    ghost var mid := stack.Steps();
    TopUpAndWait(stack, mid);
    StillTreated(stack, base, mid);
  }

  /** So everything proved of bridge runs holds of every live connection. */
  lemma LiveConnsConserve(stack: Stack, h: SocketId)
    requires stack.Valid() && h in stack.conns
    ensures
      var c := stack.conns[h];
      && c.WellFormed() && BridgeLaws.Inv(c.Abs(), BridgeLaws.HistoryOf(c.start, c.acts))
      && c.sock.tx == c.tx0 + BridgeLaws.HistoryOf(c.start, c.acts).sent
  {
    var c := stack.conns[h];
    assert c.Valid() by { assert Unfold(stack.dns); }
    c.ValidIsInv();
  }
}
