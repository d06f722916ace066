/**
  A connection's byte stream from call to call: what `recvfrom` has returned on one side is what the
  other side has sent so far, from the front; and all of it once `recvfrom` has returned 0.
*/
module ConnectionEnds {
  import opened RingProtocol
  import opened RingInvariant
  import opened RingRuns
  import opened RingReuse
  import opened PortValues
  import opened Connections
  import RingNames
  import Handshake
  import Sockets
  import EndOfStream
  import ReceiveCalls

  /** The bytes of all results, in order. */
  function Handed(end: EndOfStream.System): seq<Byte> {
    DeliveredBytes(end.results)
  }

  /** On a ring that was empty: the results are a prefix of what was accepted since, and all of it once
      everything is delivered. */
  lemma ResultsFollow(end: EndOfStream.System, end': EndOfStream.System)
    requires Inv(end.ring) && end.ring.x.h == end.ring.x.t && Inv(end'.ring)
    requires end.ring.x.accepted <= end'.ring.x.accepted
    requires end'.ring.x.delivered == end.ring.x.delivered + end'.results
    ensures Handed(end') <= AcceptedBytes(NewlyAccepted(end.ring, end'.ring))
    ensures EndOfStream.Drained(end'.ring) ==> Handed(end') == AcceptedBytes(NewlyAccepted(end.ring, end'.ring))
  {
    var first, more := Stream(end.ring.x), AcceptedBytes(NewlyAccepted(end.ring, end'.ring));
    Suffix(end.ring.x.accepted, end'.ring.x.accepted);
    AcceptedConcat(end.ring.x.accepted, NewlyAccepted(end.ring, end'.ring));
    DeliveredConcat(end.ring.x.delivered, end'.results);
    assert first[..|first|] == first;
    PrefixAfter(first, more, |first|, Handed(end'));
    assert first[|first|..] + more == more;
    if EndOfStream.Drained(end'.ring) { Cancel(first, Handed(end'), more); }
  }

  lemma Cancel(a: seq<Byte>, b: seq<Byte>, c: seq<Byte>)
    requires a + b == a + c
    ensures b == c
  {
    assert (a + b)[|a|..] == b && (a + c)[|a|..] == c;
  }

  // ---------------------------------------------------------------- one side

  /** `end` are the receivers on descriptor `fd`: they read the ring `fd` receives from, poll the entry
      of the port at the other end, and their moves are what happens on that ring during the events. */
  ghost predicate Receives(fd: int, names: RingNames.Names, rings: Rings, events: seq<Event>,
                           end: EndOfStream.System, moves: seq<EndOfStream.Move>)
    requires AllFormed(rings) && LegalEvents(rings, events)
  {
    && IsPort(LocalPort(fd)) && IsPort(RemotePort(fd)) && Attached(names, rings, Sockets.RecvRing(fd))
    && var k := names.table[Sockets.RecvRing(fd)];
    && end.ring == rings[k] && end.peer.port == RemotePort(fd)
    && EndOfStream.Sound(end) && EndOfStream.LegalMoves(end, moves)
    && StepsOn(events, k) == EndOfStream.RingSteps(end, moves)
  }

  /** The ring that `fd` receives from is the one `other` sends to, and its logs have only grown. */
  ghost predicate Linked(fd: int, other: int, names: RingNames.Names, rings: Rings, rings': Rings) {
    && IsPort(LocalPort(fd)) && IsPort(RemotePort(fd)) && IsPort(LocalPort(other)) && IsPort(RemotePort(other))
    && var (p, q) := (Sockets.RecvRing(fd), Sockets.SendRing(other));
    && Attached(names, rings, p) && Attached(names, rings', p)
    && Attached(names, rings, q) && Attached(names, rings', q)
    && rings[names.table[p]].x.delivered <= rings'[names.table[p]].x.delivered
    && rings[names.table[q]].x.accepted <= rings'[names.table[q]].x.accepted
  }

  /** Some call of `recvfrom` with a positive length has returned 0. */
  predicate ReturnedZero(end: EndOfStream.System, r: nat) {
    r < |end.receivers| && end.receivers[r].at == EndOfStream.Done(0) && end.receivers[r].len > 0
  }

  /** What one side's calls of `recvfrom` have returned, against what the other side has sent. */
  ghost predicate Answers(fd: int, other: int, names: RingNames.Names, rings: Rings, rings': Rings,
                          end: EndOfStream.System) {
    && Linked(fd, other, names, rings, rings')
    && Handed(end) == Received(fd, names, rings, rings')
    && Handed(end) <= Sent(other, names, rings, rings')
    && forall r :: 0 <= r < |end.receivers| && ReturnedZero(end, r) ==>
         end.receivers[r].saw && Handed(end) == Sent(other, names, rings, rings')
  }

  /** The end of a run of the receivers, on an empty ring: the results follow what was accepted. */
  lemma RunAnswers(end: EndOfStream.System, moves: seq<EndOfStream.Move>)
    requires EndOfStream.Begins(end) && end.ring.c.mem.head == end.ring.c.mem.tail
    requires EndOfStream.LegalMoves(end, moves) && EndOfStream.RealFds(moves) && EndOfStream.Meets(end, moves)
    ensures var end' := EndOfStream.After(end, moves);
      && end.ring.x.accepted <= end'.ring.x.accepted && end.ring.x.delivered <= end'.ring.x.delivered
      && NewlyDelivered(end.ring, end'.ring) == end'.results
      && var sent := AcceptedBytes(NewlyAccepted(end.ring, end'.ring));
      && Handed(end') <= sent
      && forall r :: 0 <= r < |end'.receivers| && ReturnedZero(end', r) ==>
           end'.receivers[r].saw && Handed(end') == sent
  {
    var end' := EndOfStream.After(end, moves);
    LogsGrow(end.ring, EndOfStream.RingSteps(end, moves));
    EndOfStream.BeginsInv(end);
    EndOfStream.MovesInv(end, moves);
    EndOfStream.ZeroMeansEnd(end, moves);
    ReceiveCalls.ResultsAreDelivered(end, moves);
    WrapTells(end.ring);
    ResultsFollow(end, end');
  }

  lemma SideAnswers(fd: int, other: int, names: RingNames.Names, rings: Rings, events: seq<Event>,
                    end: EndOfStream.System, moves: seq<EndOfStream.Move>)
    requires AllFormed(rings) && LegalEvents(rings, events) && Receives(fd, names, rings, events, end, moves)
    requires IsPort(LocalPort(other)) && IsPort(RemotePort(other)) && Sockets.SendRing(other) == Sockets.RecvRing(fd)
    requires EndOfStream.Begins(end) && end.ring.c.mem.head == end.ring.c.mem.tail
    requires EndOfStream.RealFds(moves) && EndOfStream.Meets(end, moves)
    ensures Answers(fd, other, names, rings, After(rings, events), EndOfStream.After(end, moves))
  {
    EachOnItsOwn(rings, events, names.table[Sockets.RecvRing(fd)]);
    RunAnswers(end, moves);
  }

  // ---------------------------------------------------------------- the two ends of a connection

  /** What the descriptor of one side stands for, in a process with the array `stored` on the server's
      side. */
  ghost function Mine(s: Handshake.State, acts: seq<Handshake.Action>, c: nat, stored: seq<int>, server: bool): int
    requires Sockets.Connection(s, acts, c) && |stored| == FD_LIMIT && Sockets.Accepted(s, acts, c) >= 0
  {
    if server then Sockets.ServerSide(s, acts, c, stored) else Sockets.ClientSide(s, acts, c)
  }

  /** The other side's end in the port table. */
  function Peer(s: Handshake.State, c: nat, server: bool): Handshake.End
    requires c < |s.clients| && s.clients[c].Claimed?
  {
    if server then Handshake.ClientEnd(s.clients[c].port, c) else Handshake.ServerEnd(s.clients[c].server)
  }

  /** When both sides are connected, both ends are open. */
  lemma BothOpen(s: Handshake.State, acts: seq<Handshake.Action>, c: nat, server: bool)
    requires Sockets.Connection(s, acts, c)
    ensures var ports := Handshake.Exec(Handshake.Step(s, Handshake.Swap(c)), acts);
      Handshake.Inv(ports) && Handshake.Open(ports, Peer(s, c, server))
  {
    var pc, s1 := s.clients[c], Handshake.Step(s, Handshake.Swap(c));
    Handshake.WinnerTakes(s, c);
    Handshake.RunInv(s1, acts);
    Handshake.AcceptReadsWinner(s1, acts, pc.server);
    Handshake.RecordRun(s1, acts, c, pc.fd, pc.server, pc.port);
  }

  /** `end` starts on one side of the connection, before anybody receives, on an empty ring. */
  ghost predicate Starts(end: EndOfStream.System, s: Handshake.State, acts: seq<Handshake.Action>, c: nat, server: bool)
    requires Sockets.Connection(s, acts, c)
  {
    && Inv(end.ring) && end.ring.c.mem.head == end.ring.c.mem.tail
    && (forall u :: 0 <= u < |end.ring.c.threads| ==> !end.ring.c.threads[u].Reading())
    && (forall u :: 0 <= u < |end.receivers| ==> end.receivers[u].at.Outside? && !end.receivers[u].saw)
    && end.ports == Handshake.Exec(Handshake.Step(s, Handshake.Swap(c)), acts) && end.peer == Peer(s, c, server)
    && end.results == [] && !end.closed
  }

  /** The whole of a connection. A client wins a server's port and finishes connecting, and the server
      accepts; on either side any number of threads start to receive on an empty ring. Then, whatever
      happens on all the rings and the port table, if every send of the peer finishes before it closes:
      what this side's calls of `recvfrom` have returned is always a prefix of what the other side has
      sent; and when one with a positive length returns 0, it saw the peer's entry as 0 after the peer
      closed, and this side's calls have returned all that the other side has sent. */
  lemma StreamIsReturned(s: Handshake.State, acts: seq<Handshake.Action>, c: nat, stored: seq<int>, server: bool,
                         names: RingNames.Names, rings: Rings, events: seq<Event>,
                         end: EndOfStream.System, moves: seq<EndOfStream.Move>)
    requires Sockets.Connection(s, acts, c) && s.clients[c].port <= 32767 && |stored| == FD_LIMIT
    requires Sockets.Accepted(s, acts, c) >= 0 && Starts(end, s, acts, c, server)
    requires AllFormed(rings) && LegalEvents(rings, events)
    requires Receives(Mine(s, acts, c, stored, server), names, rings, events, end, moves)
    requires EndOfStream.RealFds(moves) && EndOfStream.Meets(end, moves)
    ensures Answers(Mine(s, acts, c, stored, server), Mine(s, acts, c, stored, !server), names, rings,
                    After(rings, events), EndOfStream.After(end, moves))
  {
    Sockets.FullDuplex(s, acts, c, stored, names, 1);
    BothOpen(s, acts, c, server);
    SideAnswers(Mine(s, acts, c, stored, server), Mine(s, acts, c, stored, !server), names, rings, events, end, moves);
  }
}
