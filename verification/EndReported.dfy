/**
  Whether `recvfrom` ever reports the end of the stream. It does so exactly when the receiver finds
  the peer's entry 0; and since a closed peer's port is free to be taken again, it may not.
*/
module EndReported {
  import opened RingProtocol
  import opened RingInvariant
  import opened RingRuns
  import opened RingSolo
  import opened EndOfStream
  import opened SecondRead
  import opened PortValues
  import Handshake

  /** The peer has closed, everything has been delivered, and receiver `r` is about to look. */
  ghost predicate Ended(s: System, r: nat) {
    EosInv(s) && s.closed && s.ring.x.h == s.ring.x.t && r < |s.receivers| && s.receivers[r].at.Check?
  }

  /** Only receiver `r` moves. */
  ghost predicate OnlyReceiver(moves: seq<Move>, r: nat) {
    forall m :: m in moves ==> m == Look(r) || (m.Read? && m.a.t == r)
  }

  // ---------------------------------------------------------------- the entry is not 0

  /** The receiver is going round: the ring looks empty to it, and the entry is not 0. */
  ghost predicate Polling(s: System, r: nat) {
    && Sound(s) && r < |s.receivers| && s.ring.c.mem.head == s.ring.c.mem.oldtail && Entry(s) != 0
    && match s.ring.c.threads[r]
       case Idle => s.receivers[r].at.Check?
       case ReadStart(_) => s.receivers[r].at.Again?
       case ReadHead(_, head) => s.receivers[r].at.Again? && head == s.ring.c.mem.head
       case _ => false
  }

  lemma PollingStep(s: System, r: nat, m: Move)
    requires Polling(s, r) && EndOfStream.Enabled(s, m) && OnlyReceiver([m], r)
    ensures Polling(Advance(s, m), r)
  {
    assert m in [m];
  }

  lemma {:induction false} PollsOn(s: System, r: nat, moves: seq<Move>)
    requires Polling(s, r) && LegalMoves(s, moves) && OnlyReceiver(moves, r)
    ensures Polling(After(s, moves), r)
    decreases |moves|
  {
    if moves != [] {
      assert forall m :: m in [moves[0]] ==> m in moves;
      PollingStep(s, r, moves[0]);
      PollsOn(Advance(s, moves[0]), r, moves[1..]);
    }
  }

  // ---------------------------------------------------------------- the entry is 0

  /** One look and one `rb_read` of an empty ring. */
  lemma Reports(s: System, r: nat) returns (moves: seq<Move>)
    requires Sound(s) && r < |s.receivers| && s.receivers[r].at.Check? && s.ring.c.threads[r].Idle?
    requires Entry(s) == 0 && s.ring.c.mem.head == s.ring.c.mem.oldtail
    ensures LegalMoves(s, moves) && OnlyReceiver(moves, r)
    ensures r < |After(s, moves).receivers| && After(s, moves).receivers[r].at == Done(0)
  {
    var s1 := Advance(s, Look(r));
    var s2 := Advance(s1, Read(Load(r)));
    ThreeMoves(s, Look(r), Read(Load(r)), Read(Load(r)));
    moves := [Look(r), Read(Load(r)), Read(Load(r))];
  }

  lemma EmptyWords(s: System, r: nat)
    requires Ended(s, r)
    ensures s.ring.c.threads[r].Idle? && s.ring.c.mem.head == s.ring.c.mem.oldtail
  {
    assert ReceiverOk(s, r);
    NothingPending(s.ring);
  }

  /** `recvfrom` returns 0 after these moves. */
  ghost predicate Returns(s: System, r: nat, moves: seq<Move>)
    requires Sound(s)
  {
    && LegalMoves(s, moves) && OnlyReceiver(moves, r)
    && r < |After(s, moves).receivers| && After(s, moves).receivers[r].at.Done?
  }

  /** Once the peer has closed and everything has been delivered, a receiver that runs alone returns
      if and only if the peer's entry is 0; otherwise it polls for ever. */
  lemma ReportedExactly(s: System, r: nat)
    requires Ended(s, r)
    ensures (exists moves :: Returns(s, r, moves)) <==> Entry(s) == 0
  {
    EmptyWords(s, r);
    if Entry(s) == 0 {
      var moves := Reports(s, r);
      assert Returns(s, r, moves);
    } else {
      forall moves ensures !Returns(s, r, moves) {
        if LegalMoves(s, moves) && OnlyReceiver(moves, r) { PollsOn(s, r, moves); }
      }
    }
  }

  // ---------------------------------------------------------------- a port taken again

  /** A step that takes the port of an end that has just closed: a server binds it, or a client that
      connects elsewhere claims it because no lower port is free. */
  ghost predicate Retakes(ports: Handshake.State, end: Handshake.End, step: Handshake.Action)
    requires Handshake.Sized(ports)
  {
    match step
    case Bind(port, pid) => port == end.port && IsPort(port) && IsPid(pid)
    case Claim(d) =>
      && d < |ports.clients| && ports.clients[d].Loaded? && (end.ClientEnd? ==> d != end.c)
      && IsPort(end.port) && forall p :: 1 <= p < end.port ==> ports.table[p] != 0
    case _ => false
  }

  lemma {:induction false} FirstFreeIs(table: seq<int>, i: nat, port: nat)
    requires i <= port < |table| && table[port] == 0 && forall p :: i <= p < port ==> table[p] != 0
    ensures Handshake.FirstFree(table, i) == port
    decreases port - i
  {
    if i < port { FirstFreeIs(table, i + 1, port); }
  }

  lemma Retaken(ports: Handshake.State, end: Handshake.End, step: Handshake.Action)
    requires Handshake.Inv(ports) && Handshake.Open(ports, end) && Handshake.Enabled(ports, Handshake.CloseOf(end))
    requires Retakes(ports, end, step)
    ensures var closed := Handshake.Step(ports, Handshake.CloseOf(end));
      && Handshake.Enabled(closed, step) && Handshake.RealFd(step)
      && Handshake.Step(closed, step).table[end.port] != 0
  {
    var closed := Handshake.Step(ports, Handshake.CloseOf(end));
    assert closed.table == ports.table[end.port := 0];
    if step.Claim? {
      FirstFreeIs(closed.table, 1, end.port);
      assert Handshake.ClientOk(ports, step.c);
      ClaimIsTaken(ports.clients[step.c].fd, ports.pids[step.c]);
    }
  }

  /** The end can be missed. A receiver that has everything is about to look; the peer closes, and its
      port is taken again first. From then on the receiver, alone, never returns. */
  lemma EndCanBeMissed(s: System, r: nat, step: Handshake.Action)
    requires EosInv(s) && r < |s.receivers| && s.receivers[r].at.Check? && s.ring.x.h == s.ring.x.t
    requires SendsFinished(s.ring) && !s.closed
    requires Handshake.Enabled(s.ports, Handshake.CloseOf(s.peer)) && Retakes(s.ports, s.peer, step)
    ensures var moves := [Table(Handshake.CloseOf(s.peer)), Table(step)];
      LegalMoves(s, moves) && Ended(After(s, moves), r)
      && forall more :: !Returns(After(s, moves), r, more)
  {
    Retaken(s.ports, s.peer, step);
    TwoMoves(s, Table(Handshake.CloseOf(s.peer)), Table(step));
    TableMove(s, Handshake.CloseOf(s.peer));
    TableMove(Advance(s, Table(Handshake.CloseOf(s.peer))), step);
    ReportedExactly(Advance(Advance(s, Table(Handshake.CloseOf(s.peer))), Table(step)), r);
  }

  lemma TwoMoves(s: System, a: Move, b: Move)
    requires Sound(s) && EndOfStream.Enabled(s, a) && EndOfStream.Enabled(Advance(s, a), b)
    ensures LegalMoves(s, [a, b]) && After(s, [a, b]) == Advance(Advance(s, a), b)
  {
    ThenMove(s, [], a);
    assert [] + [a] == [a];
    ThenMove(s, [a], b);
    assert [a] + [b] == [a, b];
  }
}
