/**
  What `recvfrom` hands to its callers: each call the bytes of the one successful `rb_read` it made, or
  nothing; and all of them together exactly what was delivered from the ring.
*/
module ReceiveCalls {
  import opened RingProtocol
  import opened RingInvariant
  import opened RingRuns
  import opened RingCalls
  import opened EndOfStream
  import Handshake

  // ---------------------------------------------------------------- all calls together

  /** The results so far are what the ring has delivered beyond `base`: by whom, for which length, and
      which bytes. */
  ghost predicate InLog(s: System, base: seq<Delivered>) {
    s.ring.x.delivered == base + s.results
  }

  lemma InLogStep(s: System, m: Move, base: seq<Delivered>)
    requires EosInv(s) && EndOfStream.Enabled(s, m) && InLog(s, base)
    ensures InLog(Advance(s, m), base)
  {
    var a := RingStep(s, m);
    if a != [] && a[0].t < |s.receivers| {
      assert ReceiverOk(s, a[0].t);
      OneHanded(s, m);
    }
  }

  /** A move delivers exactly what it hands over. */
  lemma OneHanded(s: System, m: Move)
    requires Sound(s) && EndOfStream.Enabled(s, m) && RingStep(s, m) != []
    requires RingStep(s, m)[0].t < |s.receivers| && InStep(s, RingStep(s, m)[0].t)
    ensures Advance(s, m).results == s.results + Delivers(s.ring, RingStep(s, m)[0])
    ensures Advance(s, m).ring.x.delivered == s.ring.x.delivered + Delivers(s.ring, RingStep(s, m)[0])
  {
  }

  /** The entry that a step adds to the ring's log of reads. */
  ghost function Delivers(ring: State, a: Action): seq<Delivered>
    requires Formed(ring) && RingProtocol.Enabled(ring.c, a)
  {
    var pc := ring.c.threads[a.t];
    if a.Cas? && pc.ReadCopy? && CasHits(ring.c, a.t)
    then [Delivered(a.t, ring.x.snaps[a.t].asked, Output(pc.buf, pc.len))]
    else []
  }

  lemma {:induction false} InLogRun(s: System, moves: seq<Move>, base: seq<Delivered>)
    requires EosInv(s) && LegalMoves(s, moves) && RealFds(moves) && Meets(s, moves) && InLog(s, base)
    ensures InLog(After(s, moves), base)
    decreases |moves|
  {
    if moves != [] {
      InLogStep(s, moves[0], base);
      MoveInv(s, moves[0]);
      InLogRun(Advance(s, moves[0]), moves[1..], base);
    }
  }

  /** Over every run, whatever was delivered from the ring has been returned by `recvfrom`, and nothing
      else: the same threads, lengths asked for and bytes, in the same order. */
  lemma ResultsAreDelivered(s: System, moves: seq<Move>)
    requires Begins(s) && LegalMoves(s, moves) && RealFds(moves) && Meets(s, moves)
    ensures After(s, moves).ring.x.delivered == s.ring.x.delivered + After(s, moves).results
  {
    BeginsInv(s);
    InLogRun(s, moves, s.ring.x.delivered);
  }

  // ---------------------------------------------------------------- one call

  /** A thread's entries in the ring's log and in the results, with at most one more than before. */
  ghost predicate Gained(s: System, r: nat, log: seq<seq<Byte>>, results: seq<seq<Byte>>, more: seq<seq<Byte>>) {
    DeliveredBy(s.ring.x.delivered, r) == log + more && DeliveredBy(s.results, r) == results + more
  }

  /** Where a call of `recvfrom` is, and what it has gained. */
  ghost predicate CallAt(s: System, r: nat, len: nat, log: seq<seq<Byte>>, results: seq<seq<Byte>>, got: seq<Byte>)
    requires Sound(s) && r < |s.receivers|
  {
    var (rc, pc) := (s.receivers[r], s.ring.c.threads[r]);
    && rc.len == len
    && match rc.at
       case Outside => false
       case Check => pc.Idle? && Gained(s, r, log, results, [])
       case Done(ret) =>
         && !pc.Reading() && ret <= len && (ret > 0 ==> |got| == ret)
         && Gained(s, r, log, results, if ret > 0 then [got] else [])
       case _ => pc.Reading() && pc.len <= len && Gained(s, r, log, results, [])
  }

  /** The bytes the call has got after a move. */
  ghost function Gets(s: System, m: Move, r: nat, got: seq<Byte>): seq<Byte>
    requires Sound(s) && EndOfStream.Enabled(s, m) && r < |s.receivers|
  {
    if m == Read(Cas(r)) && s.ring.c.threads[r].ReadCopy?
    then Output(s.ring.c.threads[r].buf, s.ring.c.threads[r].len) else got
  }

  /** A step of `rb_read`: it goes on, with a length no larger; or it ends, and then has delivered
      something exactly when a swap ended it. */
  lemma ReaderStep(ring: State, a: Action)
    requires Formed(ring) && RingProtocol.Enabled(ring.c, a) && ring.c.threads[a.t].Reading()
    ensures var (pc, pc') := (ring.c.threads[a.t], RingProtocol.Step(ring, a).c.threads[a.t]);
      && (pc'.Reading() || pc'.Idle?) && (pc'.Reading() ==> pc'.len <= pc.len)
      && (pc'.Idle? && a.Cas? <==> a.Cas? && pc.ReadCopy? && CasHits(ring.c, a.t))
  {
  }

  /** What that step hands over, if it does. */
  lemma ReadHands(s: System, a: Action)
    requires Sound(s) && EndOfStream.Enabled(s, Read(a)) && s.ring.c.threads[a.t].Reading()
    ensures var (pc, after) := (s.ring.c.threads[a.t], AfterRead(s, a, RingProtocol.Step(s.ring, a)));
      Handed(s, a, after) ==
        if a.Cas? && CasHits(s.ring.c, a.t) then [Delivered(a.t, after.len, Output(pc.buf, pc.len))] else []
  {
    ReaderStep(s.ring, a);
  }

  /** Where the receiver is after that step. */
  lemma ReadLeads(s: System, a: Action)
    requires Sound(s) && EndOfStream.Enabled(s, Read(a)) && s.ring.c.threads[a.t].Reading()
    ensures var (pc, pc') := (s.ring.c.threads[a.t], RingProtocol.Step(s.ring, a).c.threads[a.t]);
      var (rc, after) := (s.receivers[a.t], AfterRead(s, a, RingProtocol.Step(s.ring, a)));
      && after.len == rc.len && (pc'.Reading() || pc'.Idle?)
      && (pc'.Reading() ==> after.at == rc.at && pc'.len <= pc.len)
      && (pc'.Idle? ==> after.at == if a.Cas? then Done(pc.len) else if rc.at.Last? then Done(0) else Check)
      && (a.Cas? ==> pc.ReadCopy? && pc.len > 0 && (pc'.Idle? <==> CasHits(s.ring.c, a.t)))
  {
    ReaderStep(s.ring, a);
  }

  /** What a receiver's step adds to the results. */
  lemma ReadResults(s: System, a: Action)
    requires Sound(s) && EndOfStream.Enabled(s, Read(a)) && s.ring.c.threads[a.t].Reading()
    ensures var pc := s.ring.c.threads[a.t];
      DeliveredBy(Advance(s, Read(a)).results, a.t) ==
        DeliveredBy(s.results, a.t) + if a.Cas? && CasHits(s.ring.c, a.t) then [Output(pc.buf, pc.len)] else []
  {
    ReadHands(s, a);
    var pc, after := s.ring.c.threads[a.t], AfterRead(s, a, RingProtocol.Step(s.ring, a));
    if a.Cas? && CasHits(s.ring.c, a.t) {
      DeliveredByAppend(s.results, Delivered(a.t, after.len, Output(pc.buf, pc.len)), a.t);
    } else {
      assert s.results + [] == s.results;
    }
  }

  /** What it adds to the two logs. */
  lemma ReadGains(s: System, a: Action, log: seq<seq<Byte>>, results: seq<seq<Byte>>)
    requires Sound(s) && EndOfStream.Enabled(s, Read(a)) && s.ring.c.threads[a.t].Reading()
    requires Gained(s, a.t, log, results, [])
    ensures var pc := s.ring.c.threads[a.t];
      Gained(Advance(s, Read(a)), a.t, log, results,
             if a.Cas? && CasHits(s.ring.c, a.t) then [Output(pc.buf, pc.len)] else [])
  {
    LogStep(s.ring, a, a.t);
    ReadResults(s, a);
    ReaderStep(s.ring, a);
  }

  /** A step of the receiver's `rb_read`. */
  lemma CallAtRead(s: System, a: Action, r: nat, len: nat, log: seq<seq<Byte>>, results: seq<seq<Byte>>, got: seq<Byte>)
    requires Sound(s) && EndOfStream.Enabled(s, Read(a)) && r < |s.receivers| && CallAt(s, r, len, log, results, got)
    requires a.t == r
    ensures CallAt(Advance(s, Read(a)), r, len, log, results, Gets(s, Read(a), r, got))
  {
    ReadLeads(s, a);
    ReadGains(s, a, log, results);
  }

  /** A look, or a write by the same thread after the call. */
  lemma CallAtSelf(s: System, m: Move, r: nat, len: nat, log: seq<seq<Byte>>, results: seq<seq<Byte>>, got: seq<Byte>)
    requires Sound(s) && EndOfStream.Enabled(s, m) && r < |s.receivers| && CallAt(s, r, len, log, results, got)
    requires m == Look(r) || (m.Write? && m.a.t == r)
    ensures CallAt(Advance(s, m), r, len, log, results, got)
  {
    LogStep(s.ring, RingStep(s, m)[0], r);
  }

  /** A move of another thread. */
  lemma CallAtOther(s: System, m: Move, r: nat, len: nat, log: seq<seq<Byte>>, results: seq<seq<Byte>>, got: seq<Byte>)
    requires Sound(s) && EndOfStream.Enabled(s, m) && r < |s.receivers| && CallAt(s, r, len, log, results, got)
    requires RingStep(s, m) != [] && RingStep(s, m)[0].t != r
    ensures CallAt(Advance(s, m), r, len, log, results, got)
  {
    var a := RingStep(s, m)[0];
    LogStep(s.ring, a, r);
    if m.Read? {
      var handed := Handed(s, a, AfterRead(s, a, RingProtocol.Step(s.ring, a)));
      if handed != [] { DeliveredByAppend(s.results, handed[0], r); } else { assert s.results + [] == s.results; }
    }
  }

  lemma CallAtStep(s: System, m: Move, r: nat, len: nat, log: seq<seq<Byte>>, results: seq<seq<Byte>>, got: seq<Byte>)
    requires Sound(s) && EndOfStream.Enabled(s, m) && r < |s.receivers| && CallAt(s, r, len, log, results, got)
    requires !(m.Call? && m.r == r)
    ensures CallAt(Advance(s, m), r, len, log, results, Gets(s, m, r, got))
  {
    if RingStep(s, m) != [] {
      if RingStep(s, m)[0].t != r { CallAtOther(s, m, r, len, log, results, got); }
      else if m.Read? { CallAtRead(s, m.a, r, len, log, results, got); }
      else { CallAtSelf(s, m, r, len, log, results, got); }
    }
  }

  /** Thread `r` makes no other call. */
  ghost predicate NoCall(moves: seq<Move>, r: nat) {
    forall m :: m in moves && m.Call? ==> m.r != r
  }

  lemma {:induction false} CallAtRun(s: System, moves: seq<Move>, r: nat, len: nat, log: seq<seq<Byte>>,
                                     results: seq<seq<Byte>>, got: seq<Byte>) returns (all: seq<Byte>)
    requires Sound(s) && LegalMoves(s, moves) && r < |s.receivers| && CallAt(s, r, len, log, results, got)
    requires NoCall(moves, r)
    ensures r < |After(s, moves).receivers| && CallAt(After(s, moves), r, len, log, results, all)
    decreases |moves|
  {
    if moves == [] {
      all := got;
    } else {
      assert moves[0] in moves;
      CallAtStep(s, moves[0], r, len, log, results, got);
      all := CallAtRun(Advance(s, moves[0]), moves[1..], r, len, log, results, Gets(s, moves[0], r, got));
    }
  }

  /** A call of `recvfrom`, over every run. While it has not returned, it has taken nothing from the
      ring. It has returned `ret > 0` exactly when it has taken one piece, of `ret` bytes and no more
      than it asked for, and that piece is what it returned; and 0 exactly when it has taken none. */
  lemma ReceiveExactly(s: System, r: nat, len: nat, moves: seq<Move>) returns (got: seq<Byte>)
    requires Sound(s) && EndOfStream.Enabled(s, Call(r, len)) && LegalMoves(Advance(s, Call(r, len)), moves)
    requires NoCall(moves, r)
    ensures var s' := After(Advance(s, Call(r, len)), moves);
      var (log, results) := (DeliveredBy(s.ring.x.delivered, r), DeliveredBy(s.results, r));
      && r < |s'.receivers| && var at := s'.receivers[r].at;
      && (!at.Done? ==> Gained(s', r, log, results, []))
      && (at.Done? && at.ret > 0 ==> Gained(s', r, log, results, [got]) && |got| == at.ret <= len)
      && (at == Done(0) ==> Gained(s', r, log, results, []))
  {
    var s1 := Advance(s, Call(r, len));
    LogStep(s.ring, StartRead(r, len), r);
    got := CallAtRun(s1, moves, r, len, DeliveredBy(s.ring.x.delivered, r), DeliveredBy(s.results, r), []);
  }
}
