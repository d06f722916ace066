/**
  Why `recvfrom` reads once more after it has seen the peer's entry as 0.
*/
module SecondRead {
  import opened RingProtocol
  import opened RingInvariant
  import opened RingRuns
  import opened RingSolo
  import opened EndOfStream
  import Handshake

  lemma {:induction false} ThenMove(s: System, moves: seq<Move>, m: Move)
    requires Sound(s) && LegalMoves(s, moves) && EndOfStream.Enabled(After(s, moves), m)
    ensures LegalMoves(s, moves + [m]) && After(s, moves + [m]) == Advance(After(s, moves), m)
    decreases |moves|
  {
    if moves == [] {
      assert [] + [m] == [m] && [m][1..] == [];
      assert After(Advance(s, m), []) == Advance(s, m);
    } else {
      assert (moves + [m])[1..] == moves[1..] + [m];
      ThenMove(Advance(s, moves[0]), moves[1..], m);
    }
  }

  lemma ThreeMoves(s: System, a: Move, b: Move, c: Move)
    requires Sound(s) && EndOfStream.Enabled(s, a) && EndOfStream.Enabled(Advance(s, a), b)
    requires EndOfStream.Enabled(Advance(Advance(s, a), b), c)
    ensures LegalMoves(s, [a, b, c]) && After(s, [a, b, c]) == Advance(Advance(Advance(s, a), b), c)
  {
    ThenMove(s, [], a);
    assert [] + [a] == [a];
    ThenMove(s, [a], b);
    assert [a] + [b] == [a, b];
    ThenMove(s, [a, b], c);
    assert [a, b] + [c] == [a, b, c];
  }

  /** A write of thread `w`, which receives nothing, changes only the ring. */
  lemma {:induction false} ThenWrites(s: System, moves: seq<Move>, w: nat, acts: seq<Action>)
    returns (moves': seq<Move>)
    requires Sound(s) && LegalMoves(s, moves) && !After(s, moves).closed
    requires var s1 := After(s, moves); w < |s1.receivers| && s1.receivers[w].at.Out() && Legal(s1.ring, acts)
    requires forall a :: a in acts ==> a.t == w && !a.StartRead?
    ensures LegalMoves(s, moves')
    ensures var s1 := After(s, moves); After(s, moves') == s1.(ring := Exec(s1.ring, acts))
    decreases |acts|
  {
    if acts == [] {
      moves' := moves;
    } else {
      ThenMove(s, moves, Write(acts[0]));
      moves' := ThenWrites(s, moves + [Write(acts[0])], w, acts[1..]);
    }
  }

  /** The receiver's first `rb_read` on an empty ring returns 0. */
  lemma FirstReadEmpty(s: System, r: nat, len: nat) returns (moves: seq<Move>)
    requires Sound(s) && Quiet(s.ring) && s.ring.x.h == s.ring.x.t
    requires r < |s.receivers| && s.receivers[r].at.Outside? && s.ring.c.threads[r].Idle?
    ensures LegalMoves(s, moves)
    ensures After(s, moves) ==
      s.(ring := ReaderLoaded(s.ring, r, len), receivers := s.receivers[r := Receiver(Check, len, false)])
    ensures Quiet(ReaderLoaded(s.ring, r, len)) && ReaderLoaded(s.ring, r, len).c == s.ring.c
  {
    ReadSizeIsDistance(s.ring.x.h, s.ring.x.o, s.ring.c.Cap());
    SoloReaderStart(s.ring, r, len);
    var s1 := Advance(s, Call(r, len));
    var s2 := Advance(s1, Read(Load(r)));
    ThreeSteps(s.ring, StartRead(r, len), Load(r), Load(r));
    ThreeMoves(s, Call(r, len), Read(Load(r)), Read(Load(r)));
    moves := [Call(r, len), Read(Load(r)), Read(Load(r))];
    assert s.ring.c.threads[r := Idle] == s.ring.c.threads;
  }

  /** Why `recvfrom` reads once more after seeing 0. On every empty ring there is a run in which
      `rb_read` returned 0, then the peer wrote and closed: the receiver now finds the entry 0,
      although a byte is still undelivered. Returning 0 here would lose it. */
  lemma SecondReadNeeded(s: System, r: nat, w: nat) returns (moves: seq<Move>)
    requires Begins(s) && Quiet(s.ring) && s.ring.x.h == s.ring.x.t && SendsFinished(s.ring)
    requires r < |s.receivers| && w < |s.receivers| && w != r
    requires s.ring.c.threads[r].Idle? && s.ring.c.threads[w].Idle?
    requires Handshake.Enabled(s.ports, Handshake.CloseOf(s.peer))
    ensures LegalMoves(s, moves)
    ensures var s' := After(s, moves);
      && r < |s'.receivers| && s'.receivers[r].at == Check && s'.receivers[r].len > 0
      && Entry(s') == 0 && !Drained(s'.ring)
  {
    var ring1 := ReaderLoaded(s.ring, r, 1);
    moves := FirstReadEmpty(s, r, 1);
    var write := SoloWrite(ring1, w, [0]);
    ByteWaits(ring1, Exec(ring1, write), w);
    moves := ThenWrites(s, moves, w, write);
    moves := ThenClose(s, moves);
  }

  /** A byte written alone to an empty ring waits there. */
  lemma ByteWaits(ring: State, ring': State, w: nat)
    requires Quiet(ring) && ring.x.h == ring.x.t && SendsFinished(ring)
    requires w < |ring.c.threads| && WriteDone(ring, ring', w, [0])
    ensures SendsFinished(ring') && !Drained(ring')
  {
    WriteSizeIsRoom(ring.x.h, ring.x.t, ring.c.Cap());
    assert |DeliveredBytes(ring'.x.delivered)| == ring'.x.h && |AcceptedBytes(ring'.x.accepted)| == ring'.x.t;
  }

  /** The peer closes, and nothing else changes. */
  lemma ThenClose(s: System, moves: seq<Move>) returns (moves': seq<Move>)
    requires Sound(s) && LegalMoves(s, moves)
    requires var s1 := After(s, moves);
      SendsFinished(s1.ring) && Handshake.Enabled(s1.ports, Handshake.CloseOf(s1.peer))
      && (s1.peer.ClientEnd? ==> Handshake.Open(s1.ports, s1.peer))
    ensures LegalMoves(s, moves')
    ensures var (s1, s') := (After(s, moves), After(s, moves'));
      Entry(s') == 0 && s'.ring == s1.ring && s'.receivers == s1.receivers
  {
    var close := Table(Handshake.CloseOf(s.peer));
    ThenMove(s, moves, close);
    moves' := moves + [close];
  }
}
