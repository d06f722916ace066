/**
  When `recvfrom` returns, and what. Any number of threads receive from a ring, each polling the ring
  and the peer's entry in the port table; the peer's threads write to the ring and then close; and
  everybody uses the port table.
*/
module EndOfStream {
  import opened RingProtocol
  import opened RingInvariant
  import opened RingRuns
  import Handshake

  /** Where a thread is: outside `recvfrom`, in its first `rb_read`, about to look at the peer's entry,
      in the `rb_read` of another round, in the last `rb_read` after the entry was seen as 0, or back
      with a result. */
  datatype Recv = Outside | First | Check | Again | Last | Done(ret: nat)
  {
    predicate InRead() { First? || Again? || Last? }
    predicate Out() { Outside? || Done? }
  }

  /** A thread as a receiver: where it is, the length its call asked for, and, as history, whether the
      call saw the peer's entry as 0 after the peer had closed. */
  datatype Receiver = Receiver(at: Recv, len: nat, saw: bool)

  /** The ring from the peer, the port table, the peer's end of the connection, and the receivers; as
      history, what calls of `recvfrom` have returned, in order, and whether the peer has closed. */
  datatype System = System(ring: State, ports: Handshake.State, peer: Handshake.End,
                           receivers: seq<Receiver>, results: seq<Delivered>, closed: bool)

  datatype Move =
    | Call(r: nat, len: nat)         // enter `recvfrom`
    | Read(a: Action)                // a step of a receiver's `rb_read`
    | Look(r: nat)                   // read the peer's entry and act on it
    | Write(a: Action)               // a step of the peer's `rb_write`
    | Table(step: Handshake.Action)  // a step on the port table; the peer's close is one of them

  /** Every send on the ring has finished. */
  ghost predicate SendsFinished(ring: State) {
    forall u :: 0 <= u < |ring.c.threads| ==> !ring.c.threads[u].Writing()
  }

  ghost predicate Sound(s: System) {
    && Formed(s.ring) && |s.receivers| == |s.ring.c.threads|
    && Handshake.Sized(s.ports) && s.peer.port < |s.ports.table|
  }

  /** What a receiver reads when it looks. */
  ghost function Entry(s: System): int
    requires Handshake.Sized(s.ports) && s.peer.port < |s.ports.table|
  {
    s.ports.table[s.peer.port]
  }

  /** The peer closes only after its sends, and sends nothing after that. */
  ghost predicate Enabled(s: System, m: Move)
    requires Sound(s)
  {
    match m
    case Call(r, _) => r < |s.receivers| && s.receivers[r].at.Out() && s.ring.c.threads[r].Idle?
    case Read(a) =>
      && a.t < |s.receivers| && s.receivers[a.t].at.InRead() && !a.StartRead? && !a.StartWrite?
      && RingProtocol.Enabled(s.ring.c, a)
    case Look(r) => r < |s.receivers| && s.receivers[r].at.Check? && s.ring.c.threads[r].Idle?
    case Write(a) =>
      && a.t < |s.receivers| && s.receivers[a.t].at.Out() && !a.StartRead? && (a.StartWrite? ==> !s.closed)
      && RingProtocol.Enabled(s.ring.c, a)
    case Table(step) =>
      Handshake.Enabled(s.ports, step) && (step == Handshake.CloseOf(s.peer) && !s.closed ==> SendsFinished(s.ring))
  }

  /** The step of the ring that a move takes, if it takes one. */
  function RingStep(s: System, m: Move): seq<Action> {
    match m
    case Call(r, len) => [StartRead(r, len)]
    case Read(a) => [a]
    case Look(r) => if r < |s.receivers| then [StartRead(r, s.receivers[r].len)] else []
    case Write(a) => [a]
    case Table(_) => []
  }

  /** The receiver after its `rb_read` returned `ret`. */
  function Returned(at: Recv, ret: nat): Recv {
    if ret == 0 && !at.Last? then Check else Done(ret)
  }

  /** A receiver after a step of its `rb_read` that leads to `ring'`. */
  ghost function AfterRead(s: System, a: Action, ring': State): Receiver
    requires Sound(s) && Enabled(s, Read(a)) && |ring'.c.threads| == |s.ring.c.threads|
  {
    var ret := if a.Cas? then s.ring.c.threads[a.t].len else 0;
    var rc := s.receivers[a.t];
    rc.(at := if ring'.c.threads[a.t].Idle? then Returned(rc.at, ret) else rc.at)
  }

  /** What `recvfrom` hands to its caller when it returns: the front of the buffer that `rb_read` filled. */
  ghost function Handed(s: System, a: Action, after: Receiver): seq<Delivered>
    requires Sound(s) && Enabled(s, Read(a))
  {
    var pc := s.ring.c.threads[a.t];
    if a.Cas? && pc.ReadCopy? && after.at.Done? && 0 < after.at.ret <= pc.len
    then [Delivered(a.t, after.len, Output(pc.buf, after.at.ret))]
    else []
  }

  ghost function Advance(s: System, m: Move): (s': System)
    requires Sound(s) && Enabled(s, m)
    ensures Sound(s') && s'.peer == s.peer
    ensures s'.ring == var a := RingStep(s, m); if a == [] then s.ring else RingProtocol.Step(s.ring, a[0])
  {
    match m
    case Call(r, len) =>
      s.(ring := RingProtocol.Step(s.ring, StartRead(r, len)),
         receivers := s.receivers[r := Receiver(First, len, false)])
    case Read(a) =>
      var ring' := RingProtocol.Step(s.ring, a);
      var after := AfterRead(s, a, ring');
      s.(ring := ring', receivers := s.receivers[a.t := after], results := s.results + Handed(s, a, after))
    case Look(r) =>
      var rc := s.receivers[r];
      s.(ring := RingProtocol.Step(s.ring, StartRead(r, rc.len)),
         receivers := s.receivers[r := rc.(at := if Entry(s) == 0 then Last else Again,
                                           saw := rc.saw || (Entry(s) == 0 && s.closed))])
    case Write(a) => s.(ring := RingProtocol.Step(s.ring, a))
    case Table(step) =>
      s.(ports := Handshake.Step(s.ports, step), closed := s.closed || step == Handshake.CloseOf(s.peer))
  }

  /** A connection over a ring in any state, before anybody receives, while the peer's end is open. */
  ghost predicate Begins(s: System) {
    && Sound(s) && Inv(s.ring) && Handshake.Inv(s.ports) && Handshake.Open(s.ports, s.peer)
    && (forall u :: 0 <= u < |s.receivers| ==> s.receivers[u].at.Outside? && !s.receivers[u].saw)
    && (forall u :: 0 <= u < |s.ring.c.threads| ==> !s.ring.c.threads[u].Reading())
    && s.results == [] && !s.closed
  }

  // ---------------------------------------------------------------- the invariant

  /** Until the peer closes its entry is not 0; after that nothing is written. */
  ghost predicate PeerOk(s: System)
    requires Sound(s)
  {
    && Handshake.Inv(s.ports) && (!s.closed ==> Handshake.Open(s.ports, s.peer))
    && (s.closed ==> SendsFinished(s.ring))
  }

  /** A thread reads only for `recvfrom`, and with the length its caller asked for. */
  ghost predicate InStep(s: System, r: nat)
    requires Sound(s) && r < |s.receivers|
  {
    var (rc, pc) := (s.receivers[r], s.ring.c.threads[r]);
    && (rc.at.InRead() <==> pc.Reading()) && (rc.at.Check? ==> pc.Idle?)
    && (pc.Reading() ==> s.ring.x.snaps[r].asked == rc.len)
  }

  /** The last `rb_read` comes after the peer's close. Then nothing is written, so the head it loads
      stays less than a lap behind, and 0 means that everything is delivered. */
  ghost predicate EndOk(s: System, r: nat)
    requires Sound(s) && r < |s.receivers|
  {
    var rc := s.receivers[r];
    && (rc.at.Last? || rc.at == Done(0) ==> rc.saw) && (rc.saw ==> s.closed)
    && (rc.at.Last? && s.ring.c.threads[r].ReadHead? ==> s.ring.x.o < s.ring.x.snaps[r].head + s.ring.c.Cap())
    && (rc.at == Done(0) && rc.len > 0 ==> s.ring.x.h == s.ring.x.t)
  }

  ghost predicate ReceiverOk(s: System, r: nat)
    requires Sound(s) && r < |s.receivers|
  {
    InStep(s, r) && EndOk(s, r)
  }

  ghost predicate EosInv(s: System) {
    && Sound(s) && Inv(s.ring) && PeerOk(s)
    && forall r {:trigger ReceiverOk(s, r)} :: 0 <= r < |s.receivers| ==> ReceiverOk(s, r)
  }

  lemma BeginsInv(s: System)
    requires Begins(s)
    ensures EosInv(s)
  {
    forall r | 0 <= r < |s.receivers| ensures ReceiverOk(s, r) {
      assert s.receivers[r].at.Outside? && !s.ring.c.threads[r].Reading();
    }
  }

  lemma OldestPending(s: State) returns (w: nat)
    requires Inv(s) && s.x.queue != []
    ensures w < |s.c.threads| && s.c.threads[w].WriteCopy?
  {
    w := s.x.queue[0];
  }

  /** With every send finished, everything reserved is published. */
  lemma NothingPending(ring: State)
    requires Inv(ring) && SendsFinished(ring)
    ensures ring.x.o == ring.x.t
  {
    if ring.x.queue != [] {
      var w := OldestPending(ring);
      assert false;
    }
  }

  // ---------------------------------------------------------------- the ring's part of a move

  /** With no send running, no step of a thread that starts none changes the published position or
      starts a send, and the head moves no further than that. */
  lemma QuietSide(ring: State, a: Action)
    requires Inv(ring) && SendsFinished(ring) && RingProtocol.Enabled(ring.c, a) && !a.StartWrite?
    requires HeadLap(ring, a)
    ensures Settled(ring, RingProtocol.Step(ring, a))
  {
    RoomWithoutWriters(ring, a);
    StepInv(ring, a);
    QuietStep(ring, a);
  }

  /** Nothing was written, and at most something read. */
  ghost predicate Settled(ring: State, ring': State) {
    && SendsFinished(ring') && ring'.x.o == ring.x.o && ring'.x.t == ring.x.t
    && ring.x.h <= ring'.x.h <= ring'.x.t
  }

  lemma QuietStep(ring: State, a: Action)
    requires Formed(ring) && SendsFinished(ring) && RingProtocol.Enabled(ring.c, a) && !a.StartWrite?
    ensures var ring' := RingProtocol.Step(ring, a);
      SendsFinished(ring') && ring'.x.o == ring.x.o && ring'.x.t == ring.x.t && ring.x.h <= ring'.x.h
  {
  }

  lemma RoomWithoutWriters(ring: State, a: Action)
    requires Formed(ring) && SendsFinished(ring) && RingProtocol.Enabled(ring.c, a)
    ensures TailRoom(ring, a)
  {
  }

  /** A receiver while another thread steps. */
  lemma OtherReceiver(s: System, s': System, r: nat)
    requires Sound(s) && Sound(s') && r < |s.receivers| == |s'.receivers| && ReceiverOk(s, r)
    requires s'.receivers[r] == s.receivers[r] && s'.ring.c.threads[r] == s.ring.c.threads[r]
    requires s'.ring.x.snaps[r] == s.ring.x.snaps[r] && s'.ring.c.Cap() == s.ring.c.Cap()
    requires s.closed ==> s'.closed && Settled(s.ring, s'.ring)
    ensures ReceiverOk(s', r)
  {
  }

  /** A move of thread `t` on the ring keeps the invariant if it keeps that of `t` as a receiver. */
  lemma ThreadMove(s: System, m: Move, t: nat)
    requires EosInv(s) && Enabled(s, m) && RingStep(s, m) != [] && RingStep(s, m)[0].t == t
    requires var a := RingStep(s, m)[0]; TailRoom(s.ring, a) && HeadLap(s.ring, a)
    requires t < |s.receivers| && ReceiverOk(Advance(s, m), t)
    ensures EosInv(Advance(s, m))
  {
    var a, s' := RingStep(s, m)[0], Advance(s, m);
    StepInv(s.ring, a);
    if s.closed { QuietSide(s.ring, a); }
    forall r | 0 <= r < |s.receivers| ensures ReceiverOk(s', r) {
      assert ReceiverOk(s, r);
      if r != t { OtherReceiver(s, s', r); }
    }
  }

  // ---------------------------------------------------------------- moves

  lemma CallMove(s: System, r: nat, len: nat)
    requires EosInv(s) && Enabled(s, Call(r, len))
    ensures EosInv(Advance(s, Call(r, len)))
  {
    ThreadMove(s, Call(r, len), r);
  }

  /** A receiver that sees the entry as 0 knows that the peer has closed. */
  lemma LookMove(s: System, r: nat)
    requires EosInv(s) && Enabled(s, Look(r))
    ensures EosInv(Advance(s, Look(r)))
  {
    assert ReceiverOk(s, r);
    if !s.closed { Handshake.OpenIsNotZero(s.ports, s.peer); }
    ThreadMove(s, Look(r), r);
  }

  lemma WriteMove(s: System, a: Action)
    requires EosInv(s) && Enabled(s, Write(a)) && TailRoom(s.ring, a) && HeadLap(s.ring, a)
    ensures EosInv(Advance(s, Write(a)))
  {
    assert ReceiverOk(s, a.t);
    WriterAsReceiver(s, a);
    ThreadMove(s, Write(a), a.t);
  }

  lemma WriterAsReceiver(s: System, a: Action)
    requires EosInv(s) && Enabled(s, Write(a)) && ReceiverOk(s, a.t) && HeadLap(s.ring, a)
    ensures ReceiverOk(Advance(s, Write(a)), a.t)
  {
    WriterOutside(s, a);
    if s.closed { QuietSide(s.ring, a); }
  }

  /** A thread that writes is outside `recvfrom`, and stays there. */
  lemma WriterOutside(s: System, a: Action)
    requires Sound(s) && Enabled(s, Write(a)) && InStep(s, a.t)
    ensures InStep(Advance(s, Write(a)), a.t) && Advance(s, Write(a)).receivers[a.t] == s.receivers[a.t]
    ensures !RingProtocol.Step(s.ring, a).c.threads[a.t].Reading()
  {
  }

  /** In the last `rb_read` a head just loaded is less than a lap behind, and 0 means empty. */
  lemma LastLoad(s: System, r: nat)
    requires EosInv(s) && r < |s.receivers| && s.receivers[r].at.Last? && RingProtocol.Enabled(s.ring.c, Load(r))
    ensures var ring' := RingProtocol.Step(s.ring, Load(r));
      && (ring'.c.threads[r].ReadHead? ==> ring'.x.o < ring'.x.snaps[r].head + ring'.c.Cap())
      && (ring'.c.threads[r].Idle? && s.receivers[r].len > 0 ==> ring'.x.h == ring'.x.t)
  {
    assert ReceiverOk(s, r);
    NothingPending(s.ring);
    if s.ring.c.threads[r].ReadHead? { ReadZeroMeansEmpty(s.ring, r); }
  }

  lemma ReadInStep(s: System, a: Action)
    requires EosInv(s) && Enabled(s, Read(a))
    ensures InStep(Advance(s, Read(a)), a.t)
  {
    assert ReceiverOk(s, a.t);
  }

  lemma ReadEnd(s: System, a: Action)
    requires EosInv(s) && Enabled(s, Read(a)) && HeadLap(s.ring, a)
    ensures EndOk(Advance(s, Read(a)), a.t)
  {
    assert ReceiverOk(s, a.t);
    if s.closed { QuietSide(s.ring, a); }
    if s.receivers[a.t].at.Last? && a.Load? { LastLoad(s, a.t); }
  }

  lemma ReadMove(s: System, a: Action)
    requires EosInv(s) && Enabled(s, Read(a)) && TailRoom(s.ring, a) && HeadLap(s.ring, a)
    ensures EosInv(Advance(s, Read(a)))
  {
    ReadInStep(s, a);
    ReadEnd(s, a);
    ThreadMove(s, Read(a), a.t);
  }

  lemma TableMove(s: System, step: Handshake.Action)
    requires EosInv(s) && Enabled(s, Table(step)) && Handshake.RealFd(step)
    ensures EosInv(Advance(s, Table(step)))
  {
    Handshake.StepInv(s.ports, step);
    if !s.closed && step != Handshake.CloseOf(s.peer) { Handshake.OpenStays(s.ports, step, s.peer); }
    forall r | 0 <= r < |s.receivers| ensures ReceiverOk(Advance(s, Table(step)), r) {
      assert ReceiverOk(s, r);
    }
  }

  // ---------------------------------------------------------------- runs

  ghost predicate LegalMoves(s: System, moves: seq<Move>)
    requires Sound(s)
    decreases |moves|
  {
    moves == [] || (Enabled(s, moves[0]) && LegalMoves(Advance(s, moves[0]), moves[1..]))
  }

  ghost function After(s: System, moves: seq<Move>): (s': System)
    requires Sound(s) && LegalMoves(s, moves)
    ensures Sound(s') && s'.peer == s.peer
    decreases |moves|
  {
    if moves == [] then s else After(Advance(s, moves[0]), moves[1..])
  }

  /** What the run does to the ring is a run of the ring. */
  ghost function RingSteps(s: System, moves: seq<Move>): (acts: seq<Action>)
    requires Sound(s) && LegalMoves(s, moves)
    ensures Legal(s.ring, acts) && Exec(s.ring, acts) == After(s, moves).ring
    decreases |moves|
  {
    if moves == [] then []
    else
      var (a, rest) := (RingStep(s, moves[0]), RingSteps(Advance(s, moves[0]), moves[1..]));
      if a != [] then
        ExecCons(s.ring, a[0], rest);
        [a[0]] + rest
      else rest
  }

  ghost predicate RealFds(moves: seq<Move>) {
    forall i :: 0 <= i < |moves| && moves[i].Table? ==> Handshake.RealFd(moves[i].step)
  }

  /** The ring's part of a move meets the hypotheses for many threads. */
  ghost predicate MeetsOne(s: System, m: Move)
    requires Sound(s) && Enabled(s, m)
  {
    m.Read? || m.Write? ==> TailRoom(s.ring, m.a) && HeadLap(s.ring, m.a)
  }

  ghost predicate Meets(s: System, moves: seq<Move>)
    requires Sound(s) && LegalMoves(s, moves)
    decreases |moves|
  {
    moves == [] || (MeetsOne(s, moves[0]) && Meets(Advance(s, moves[0]), moves[1..]))
  }

  lemma MoveInv(s: System, m: Move)
    requires EosInv(s) && Enabled(s, m) && RealFds([m]) && MeetsOne(s, m)
    ensures EosInv(Advance(s, m))
  {
    match m {
      case Call(r, len) => CallMove(s, r, len);
      case Look(r) => LookMove(s, r);
      case Read(a) => ReadMove(s, a);
      case Write(a) => WriteMove(s, a);
      case Table(step) => assert [m][0].step == step; TableMove(s, step);
    }
  }

  lemma {:induction false} MovesInv(s: System, moves: seq<Move>)
    requires EosInv(s) && LegalMoves(s, moves) && RealFds(moves) && Meets(s, moves)
    ensures EosInv(After(s, moves))
    decreases |moves|
  {
    if moves != [] {
      MoveInv(s, moves[0]);
      MovesInv(Advance(s, moves[0]), moves[1..]);
    }
  }

  /** A run meets the hypotheses when its part on the ring does. */
  lemma {:induction false} RingMeets(s: System, moves: seq<Move>)
    requires Sound(s) && LegalMoves(s, moves)
    requires TailRooms(s.ring, RingSteps(s, moves)) && HeadLaps(s.ring, RingSteps(s, moves))
    ensures Meets(s, moves)
    decreases |moves|
  {
    if moves != [] {
      var a, rest := RingStep(s, moves[0]), RingSteps(Advance(s, moves[0]), moves[1..]);
      if a != [] { assert ([a[0]] + rest)[1..] == rest; }
      RingMeets(Advance(s, moves[0]), moves[1..]);
    }
  }

  // ---------------------------------------------------------------- the end of the stream

  /** Everything committed to the ring has been delivered. */
  ghost predicate Drained(ring: State) {
    DeliveredBytes(ring.x.delivered) == AcceptedBytes(ring.x.accepted)
  }

  lemma EmptyIsDrained(ring: State)
    requires LogsOk(ring.x) && ring.x.h == ring.x.t
    ensures Drained(ring)
  {
    assert Stream(ring.x)[..ring.x.t] == Stream(ring.x);
  }

  /** What the rule promises of the state a run ends in. */
  ghost predicate ZeroAtEnd(s: System) {
    forall r :: 0 <= r < |s.receivers| && s.receivers[r].at == Done(0) && s.receivers[r].len > 0 ==>
      s.receivers[r].saw && s.closed && Drained(s.ring)
  }

  /** The end-of-stream rule, with any number of senders and receivers. If every send of the peer
      finishes before it closes, `recvfrom` with a positive length returns 0 only when it saw the
      peer's entry as 0 after the peer closed, and every byte committed to the ring has been
      delivered. */
  lemma ZeroMeansEnd(s: System, moves: seq<Move>)
    requires Begins(s) && LegalMoves(s, moves) && RealFds(moves) && Meets(s, moves)
    ensures ZeroAtEnd(After(s, moves))
  {
    BeginsInv(s);
    MovesInv(s, moves);
    InvGivesRule(After(s, moves));
  }

  lemma InvGivesRule(s: System)
    requires EosInv(s)
    ensures ZeroAtEnd(s)
  {
    forall r | 0 <= r < |s.receivers| && s.receivers[r].at == Done(0) && s.receivers[r].len > 0
      ensures s.receivers[r].saw && s.closed && Drained(s.ring)
    {
      assert ReceiverOk(s, r);
      EmptyIsDrained(s.ring);
    }
  }

  /** With one sending thread and one receiving thread no hypothesis on the ring is needed. */
  lemma ZeroMeansEndOneToOne(s: System, w: nat, r: nat, moves: seq<Move>)
    requires Begins(s) && LegalMoves(s, moves) && RealFds(moves)
    requires SoleWriter(s.ring, w) && OnlyWriter(RingSteps(s, moves), w)
    requires SoleReader(s.ring, r) && OnlyReader(RingSteps(s, moves), r)
    ensures ZeroAtEnd(After(s, moves))
  {
    RunInv(s.ring, RingSteps(s, moves), w, r);
    RingMeets(s, moves);
    ZeroMeansEnd(s, moves);
  }
}
