/**
  A connection as its two ends see it: what one receives is what the other sent. The rings of all
  indices run side by side; the ports of the connection pick two of them.
*/
module Connections {
  import opened RingProtocol
  import opened RingInvariant
  import opened RingRuns
  import opened RingReuse
  import opened PortValues
  import RingNames
  import Handshake
  import Sockets

  /** The rings in shared memory, by index. */
  type Rings = map<nat, State>

  /** A step of some thread on the ring of some index. */
  datatype Event = Event(ring: nat, a: Action)

  ghost predicate AllFormed(rings: Rings) {
    forall i :: i in rings ==> Formed(rings[i])
  }

  ghost predicate LegalEvents(rings: Rings, events: seq<Event>)
    requires AllFormed(rings)
    decreases |events|
  {
    events == [] ||
    (var e := events[0];
     && e.ring in rings && Enabled(rings[e.ring].c, e.a)
     && LegalEvents(rings[e.ring := Step(rings[e.ring], e.a)], events[1..]))
  }

  ghost function After(rings: Rings, events: seq<Event>): (rings': Rings)
    requires AllFormed(rings) && LegalEvents(rings, events)
    ensures AllFormed(rings')
    decreases |events|
  {
    if events == [] then rings
    else After(rings[events[0].ring := Step(rings[events[0].ring], events[0].a)], events[1..])
  }

  /** The steps on one ring. */
  function StepsOn(events: seq<Event>, i: nat): seq<Action> {
    if events == [] then []
    else if events[0].ring == i then [events[0].a] + StepsOn(events[1..], i)
    else StepsOn(events[1..], i)
  }

  /** Each ring runs as if it were alone. */
  lemma {:induction false} EachOnItsOwn(rings: Rings, events: seq<Event>, i: nat)
    requires AllFormed(rings) && LegalEvents(rings, events) && i in rings
    ensures Legal(rings[i], StepsOn(events, i))
    ensures i in After(rings, events) && After(rings, events)[i] == Exec(rings[i], StepsOn(events, i))
    decreases |events|
  {
    if events != [] {
      var e := events[0];
      var rings' := rings[e.ring := Step(rings[e.ring], e.a)];
      EachOnItsOwn(rings', events[1..], i);
      if e.ring == i { ExecCons(rings[i], e.a, StepsOn(events[1..], i)); }
    }
  }

  // ---------------------------------------------------------------- orderly use of a ring

  /** Only thread `w` writes and only thread `r` reads. */
  ghost predicate OneToOne(ring: State, acts: seq<Action>, w: nat, r: nat)
    requires Formed(ring)
  {
    SoleWriter(ring, w) && OnlyWriter(acts, w) && SoleReader(ring, r) && OnlyReader(acts, r)
  }

  /** The ring is empty and either is used by one writer and one reader, or its swaps meet the
      hypotheses for many. */
  ghost predicate Orderly(ring: State, acts: seq<Action>)
    requires Formed(ring) && Legal(ring, acts)
  {
    && Inv(ring) && ring.c.mem.head == ring.c.mem.tail
    && ((TailRooms(ring, acts) && HeadLaps(ring, acts)) || exists w, r :: OneToOne(ring, acts, w, r))
  }

  lemma OrderlyIsFresh(ring: State, acts: seq<Action>)
    requires Formed(ring) && Legal(ring, acts) && Orderly(ring, acts)
    ensures FreshOnly(ring, acts)
  {
    if !(TailRooms(ring, acts) && HeadLaps(ring, acts)) {
      var w, r :| OneToOne(ring, acts, w, r);
      RunInv(ring, acts, w, r);
    }
    WrapTells(ring);
    LeftoverComesFirst(ring, acts);
    assert Leftover(ring) == [];
  }

  // ---------------------------------------------------------------- what the two ends see

  /** The index of the ring a pair of ports names is that of an initialised ring. */
  ghost predicate Attached(names: RingNames.Names, rings: Rings, p: RingNames.Pair) {
    p in names.table && names.table[p] in rings
  }

  /** The bytes that a socket's calls of `sendto` have put in since. */
  ghost function Sent(fd: int, names: RingNames.Names, rings: Rings, rings': Rings): seq<Byte>
    requires IsPort(LocalPort(fd)) && IsPort(RemotePort(fd))
    requires Attached(names, rings, Sockets.SendRing(fd)) && Attached(names, rings', Sockets.SendRing(fd))
    requires var k := names.table[Sockets.SendRing(fd)]; rings[k].x.accepted <= rings'[k].x.accepted
  {
    var k := names.table[Sockets.SendRing(fd)];
    AcceptedBytes(NewlyAccepted(rings[k], rings'[k]))
  }

  /** The bytes that a socket's calls of `recvfrom` have returned since. */
  ghost function Received(fd: int, names: RingNames.Names, rings: Rings, rings': Rings): seq<Byte>
    requires IsPort(LocalPort(fd)) && IsPort(RemotePort(fd))
    requires Attached(names, rings, Sockets.RecvRing(fd)) && Attached(names, rings', Sockets.RecvRing(fd))
    requires var k := names.table[Sockets.RecvRing(fd)]; rings[k].x.delivered <= rings'[k].x.delivered
  {
    var k := names.table[Sockets.RecvRing(fd)];
    DeliveredBytes(NewlyDelivered(rings[k], rings'[k]))
  }

  /** The ring of a pair is used in order during the events. */
  ghost predicate OrderlyPair(names: RingNames.Names, rings: Rings, events: seq<Event>, p: RingNames.Pair)
    requires AllFormed(rings) && LegalEvents(rings, events)
  {
    Attached(names, rings, p) &&
    var k := names.table[p];
    Legal(rings[k], StepsOn(events, k)) && Orderly(rings[k], StepsOn(events, k))
  }

  /** One direction: what comes out of the ring of a pair is a prefix of what goes in. */
  lemma OneWay(names: RingNames.Names, rings: Rings, events: seq<Event>, p: RingNames.Pair)
    requires AllFormed(rings) && LegalEvents(rings, events) && OrderlyPair(names, rings, events, p)
    ensures var (k, rings') := (names.table[p], After(rings, events));
      && k in rings'
      && rings[k].x.accepted <= rings'[k].x.accepted && rings[k].x.delivered <= rings'[k].x.delivered
      && DeliveredBytes(NewlyDelivered(rings[k], rings'[k])) <= AcceptedBytes(NewlyAccepted(rings[k], rings'[k]))
  {
    var k := names.table[p];
    EachOnItsOwn(rings, events, k);
    OrderlyIsFresh(rings[k], StepsOn(events, k));
  }

  /** A descriptor's two rings exist before and after, and their logs have only grown. */
  ghost predicate Bound(names: RingNames.Names, rings: Rings, rings': Rings, fd: int)
    requires IsPort(LocalPort(fd)) && IsPort(RemotePort(fd))
  {
    var (p, q) := (Sockets.SendRing(fd), Sockets.RecvRing(fd));
    && Attached(names, rings, p) && Attached(names, rings', p)
    && Attached(names, rings, q) && Attached(names, rings', q)
    && rings[names.table[p]].x.accepted <= rings'[names.table[p]].x.accepted
    && rings[names.table[q]].x.delivered <= rings'[names.table[q]].x.delivered
  }

  /** The two rings of a descriptor are used in order during the events. */
  ghost predicate OrderlySocket(fd: int, names: RingNames.Names, rings: Rings, events: seq<Event>)
    requires AllFormed(rings) && LegalEvents(rings, events)
  {
    && IsPort(LocalPort(fd)) && IsPort(RemotePort(fd))
    && OrderlyPair(names, rings, events, Sockets.SendRing(fd))
    && OrderlyPair(names, rings, events, Sockets.RecvRing(fd))
  }

  /** Two descriptors wired crosswise: each receives a prefix of what the other sends. */
  ghost predicate Talk(x: int, y: int, names: RingNames.Names, rings: Rings, rings': Rings) {
    && IsPort(LocalPort(x)) && IsPort(RemotePort(x)) && IsPort(LocalPort(y)) && IsPort(RemotePort(y))
    && Bound(names, rings, rings', x) && Bound(names, rings, rings', y)
    && Received(y, names, rings, rings') <= Sent(x, names, rings, rings')
    && Received(x, names, rings, rings') <= Sent(y, names, rings, rings')
  }

  lemma WiredTalk(x: int, y: int, names: RingNames.Names, rings: Rings, events: seq<Event>)
    requires AllFormed(rings) && LegalEvents(rings, events) && OrderlySocket(x, names, rings, events)
    requires IsPort(LocalPort(y)) && IsPort(RemotePort(y))
    requires Sockets.SendRing(x) == Sockets.RecvRing(y) && Sockets.SendRing(y) == Sockets.RecvRing(x)
    ensures Talk(x, y, names, rings, After(rings, events))
  {
    OneWay(names, rings, events, Sockets.SendRing(x));
    OneWay(names, rings, events, Sockets.RecvRing(x));
  }

  /** The byte streams of a connection. A client wins a server's port and finishes connecting, and the
      server accepts. Then, whatever happens on all the rings, each end receives a prefix of what the
      other has sent over the two descriptors, if the two rings were empty when the connection got
      them and are used in order. */
  lemma ConnectionStreams(s: Handshake.State, acts: seq<Handshake.Action>, c: nat, stored: seq<int>,
                          names: RingNames.Names, rings: Rings, events: seq<Event>)
    requires Sockets.Connection(s, acts, c) && s.clients[c].port <= 32767 && |stored| == FD_LIMIT
    requires AllFormed(rings) && LegalEvents(rings, events)
    requires OrderlySocket(Sockets.ClientSide(s, acts, c), names, rings, events)
    ensures Sockets.Accepted(s, acts, c) >= FD_LIMIT
    ensures Talk(Sockets.ClientSide(s, acts, c), Sockets.ServerSide(s, acts, c, stored), names, rings,
                 After(rings, events))
  {
    Sockets.FullDuplex(s, acts, c, stored, names, 1);
    WiredTalk(Sockets.ClientSide(s, acts, c), Sockets.ServerSide(s, acts, c, stored), names, rings, events);
  }
}
