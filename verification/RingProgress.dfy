/**
  Progress of the ring: pending reservations can always be published, and contention is paid for
  by somebody else's success.
*/
module RingProgress {
  import opened FiniteSets
  import opened Residues
  import opened RingProtocol
  import opened RingInvariant
  import opened RingRuns

  // ---------------------------------------------------------------- the commit chain drains

  /** Bytes a pending writer has yet to copy. */
  ghost function Missing(pc: Pc): set<nat>
    requires pc.WriteCopy?
  {
    set k: nat | 0 <= k < pc.len && k !in pc.copied
  }

  /** Steps left for the writers of a queue: their missing bytes and one swap each. */
  ghost function Left(s: State, q: seq<nat>): nat
    requires forall i :: 0 <= i < |q| ==> q[i] < |s.c.threads| && s.c.threads[q[i]].WriteCopy?
  {
    if q == [] then 0 else |Missing(s.c.threads[q[0]])| + 1 + Left(s, q[1..])
  }

  /** The work left for a queue depends on its own writers only. */
  lemma {:induction false} LeftFrame(s: State, s': State, q: seq<nat>)
    requires forall i :: 0 <= i < |q| ==> q[i] < |s.c.threads| && s.c.threads[q[i]].WriteCopy?
    requires |s'.c.threads| == |s.c.threads|
    requires forall i :: 0 <= i < |q| ==> s'.c.threads[q[i]] == s.c.threads[q[i]]
    ensures Left(s', q) == Left(s, q)
  {
    if q != [] { LeftFrame(s, s', q[1..]); }
  }

  /** In every state with pending reservations there is exactly one writer whose swap on `oldtail`
      can succeed, now or after it has copied its bytes: the oldest. */
  lemma OnePublisher(s: State, w: nat)
    requires Inv(s) && s.x.queue != [] && w < |s.c.threads| && s.c.threads[w].WriteCopy?
    ensures w == s.x.queue[0] <==> s.c.threads[w].tail == s.c.mem.oldtail
    ensures Enabled(s.c, Cas(w)) ==> (CasHits(s.c, w) <==> w == s.x.queue[0])
    ensures s.x.o < s.x.t
  {
    assert ThreadOk(s, w);
    PublisherIsOldest(s, w);
  }

  /** Draining leaves readers, the logs and the reserved end alone. */
  ghost predicate SameLogs(x: History, x': History) {
    x'.h == x.h && x'.t == x.t && x'.delivered == x.delivered && x'.accepted == x.accepted
  }

  lemma DrainByte(s: State, k: nat)
    requires Inv(s) && s.x.queue != [] && Enabled(s.c, Copy(s.x.queue[0], k))
    ensures var s' := Step(s, Copy(s.x.queue[0], k));
      s'.x == s.x && Inv(s') && Left(s', s.x.queue) == Left(s, s.x.queue) - 1
  {
    WriteByteInv(s, s.x.queue[0], k);
    LeftByte(s, Step(s, Copy(s.x.queue[0], k)), s.x.queue, k);
  }

  lemma LeftByte(s: State, s': State, q: seq<nat>, k: nat)
    requires |s'.c.threads| == |s.c.threads| && q != []
    requires forall i :: 0 <= i < |q| ==> q[i] < |s.c.threads| && s.c.threads[q[i]].WriteCopy?
    requires forall i :: 0 < i < |q| ==> s'.c.threads[q[i]] == s.c.threads[q[i]]
    requires var pc := s.c.threads[q[0]];
      k in Missing(pc) && s'.c.threads[q[0]] == pc.(copied := pc.copied + {k})
    ensures Left(s', q) == Left(s, q) - 1
  {
    assert Missing(s'.c.threads[q[0]]) == Missing(s.c.threads[q[0]]) - {k};
    LeftFrame(s, s', q[1..]);
  }

  lemma DrainPublish(s: State)
    requires Inv(s) && s.x.queue != [] && Enabled(s.c, Cas(s.x.queue[0]))
    ensures var s' := Step(s, Cas(s.x.queue[0]));
      SameLogs(s.x, s'.x) && s'.x.queue == s.x.queue[1..] && Inv(s') && Left(s', s'.x.queue) == Left(s, s.x.queue) - 1
  {
    var w, q := s.x.queue[0], s.x.queue;
    PublisherIsOldest(s, w);
    PublishEffect(s, w);
    PublishInv(s, w);
    LeftPublish(s, Publish(s, w), q);
  }

  lemma LeftPublish(s: State, s': State, q: seq<nat>)
    requires |s'.c.threads| == |s.c.threads| && q != []
    requires forall i :: 0 <= i < |q| ==> q[i] < |s.c.threads| && s.c.threads[q[i]].WriteCopy?
    requires forall i :: 0 < i < |q| ==> s'.c.threads[q[i]] == s.c.threads[q[i]]
    requires s.c.threads[q[0]].Complete()
    ensures Left(s', q[1..]) == Left(s, q) - 1
  {
    assert Missing(s.c.threads[q[0]]) == {};
    LeftFrame(s, s', q[1..]);
  }

  /** The next useful step: a missing byte of the oldest writer, or its swap. */
  lemma DrainStep(s: State) returns (a: Action)
    requires Inv(s) && s.x.queue != []
    ensures Enabled(s.c, a) && a.t == s.x.queue[0] && (a.Copy? || a.Cas?)
    ensures var s' := Step(s, a);
      && Inv(s') && SameLogs(s.x, s'.x) && Left(s', s'.x.queue) == Left(s, s.x.queue) - 1
      && (s'.x.queue == s.x.queue || s'.x.queue == s.x.queue[1..])
  {
    var w := s.x.queue[0];
    var pc := s.c.threads[w];
    if k: nat :| k < pc.len && k !in pc.copied {
      a := Copy(w, k);
      DrainByte(s, k);
    } else {
      a := Cas(w);
      DrainPublish(s);
    }
  }

  /** Only pending writers of the queue act, and only by copying or swapping. */
  ghost predicate ByPending(acts: seq<Action>, q: seq<nat>) {
    forall a :: a in acts ==> a.t in q && (a.Copy? || a.Cas?)
  }

  /** From every state the pending writers alone, run in reservation order, bring the ring to
      `oldtail == tail` in exactly as many steps as there are missing bytes and pending writers. */
  lemma {:induction false} Drain(s: State) returns (acts: seq<Action>)
    requires Inv(s)
    ensures Legal(s, acts) && |acts| == Left(s, s.x.queue) && ByPending(acts, s.x.queue)
    ensures Inv(Exec(s, acts)) && SameLogs(s.x, Exec(s, acts).x)
    ensures Exec(s, acts).x.queue == [] && Exec(s, acts).x.o == Exec(s, acts).x.t
    decreases Left(s, s.x.queue)
  {
    acts := [];
    if s.x.queue != [] {
      var a := DrainStep(s);
      var rest := Drain(Step(s, a));
      ExecCons(s, a, rest);
      assert forall w :: w in Step(s, a).x.queue ==> w in s.x.queue;
      acts := [a] + rest;
    }
  }

  // ---------------------------------------------------------------- amortised lock-freedom

  /** Writers about to swap `tail` although it has moved since they loaded it. */
  ghost function StaleWriters(s: State): set<nat>
    requires Sized(s)
  {
    set u: nat | 0 <= u < |s.c.threads| && s.c.threads[u].WriteCas? && s.x.snaps[u].pos != s.x.t
  }

  /** Readers between their load of `head` and their swap although it has moved since. */
  ghost function StaleReaders(s: State): set<nat>
    requires Sized(s)
  {
    set u: nat | 0 <= u < |s.c.threads| && (s.c.threads[u].ReadHead? || s.c.threads[u].ReadCopy?)
                 && s.x.snaps[u].head != s.x.h
  }

  ghost predicate PcTracked(pc: Pc, snap: Snap, n: nat)
    requires n > 0
  {
    match pc
    case ReadHead(_, head) => head == Wrap(snap.head, n)
    case ReadCopy(_, head, _) => head == Wrap(snap.head, n)
    case WriteCas(_, _, tail) => tail == Wrap(snap.pos, n)
    case _ => true
  }

  /** What the potentials need: shared words and snapshots are residues of their positions. No
      relation between the three positions is used, so no lap hypothesis is. */
  ghost predicate Tracked(s: State) {
    && Formed(s)
    && s.c.mem.head == Wrap(s.x.h, s.c.Cap()) && s.c.mem.tail == Wrap(s.x.t, s.c.Cap())
    && forall u :: 0 <= u < |s.c.threads| ==> PcTracked(s.c.threads[u], s.x.snaps[u], s.c.Cap())
  }

  lemma TrackedStep(s: State, a: Action)
    requires Tracked(s) && Enabled(s.c, a)
    ensures Tracked(Step(s, a))
  {
    TrackedThread(s, a);
    if a.Cas? && CasHits(s.c, a.t) {
      if s.c.threads[a.t].ReadCopy? {
        DeliverEffect(s, a.t);
      } else if s.c.threads[a.t].WriteCas? {
        ReserveEffect(s, a.t);
      }
    }
  }

  lemma TrackedThread(s: State, a: Action)
    requires Tracked(s) && Enabled(s.c, a)
    ensures var s' := Step(s, a); PcTracked(s'.c.threads[a.t], s'.x.snaps[a.t], s.c.Cap())
  {
  }

  /** Only the given threads call `rb_write` (`rb_read`). */
  ghost predicate WritersAmong(s: State, acts: seq<Action>, writers: set<nat>) {
    && (forall u :: 0 <= u < |s.c.threads| && s.c.threads[u].Writing() ==> u in writers)
    && (forall i :: 0 <= i < |acts| && acts[i].StartWrite? ==> acts[i].t in writers)
  }

  ghost predicate ReadersAmong(s: State, acts: seq<Action>, readers: set<nat>) {
    && (forall u :: 0 <= u < |s.c.threads| && s.c.threads[u].Reading() ==> u in readers)
    && (forall i :: 0 <= i < |acts| && acts[i].StartRead? ==> acts[i].t in readers)
  }

  /** Misses so far and stale snapshots (misses to come) are paid for by the successes of others.
      The successes themselves are added on both sides. */
  ghost predicate Paid(misses: nat, stale: nat, hits: nat, threads: nat) {
    misses + stale + hits <= threads * hits
  }

  lemma PaidHit(misses: nat, stale: nat, stale': nat, hits: nat, threads: nat)
    requires Paid(misses, stale, hits, threads) && stale' < threads
    ensures Paid(misses, stale', hits + 1, threads)
  {
    assert threads * (hits + 1) == threads * hits + threads;
  }

  lemma StaleBelow(stale: set<nat>, all: set<nat>, t: nat)
    requires stale <= all - {t} && t in all
    ensures |stale| < |all|
  {
    SubsetSize(stale, all - {t});
  }

  lemma TailHit(s: State, t: nat, writers: set<nat>)
    requires Tracked(s) && Enabled(s.c, Cas(t)) && s.c.threads[t].WriteCas? && WritersAmong(s, [], writers)
    requires Paid(s.x.tailMisses, |StaleWriters(s)|, |s.x.accepted|, |writers|)
    ensures var s' := Reserve(s, t); Paid(s'.x.tailMisses, |StaleWriters(s')|, |s'.x.accepted|, |writers|)
  {
    var s' := Reserve(s, t);
    StaleBelow(StaleWriters(s'), writers, t);
    PaidHit(s.x.tailMisses, |StaleWriters(s)|, |StaleWriters(s')|, |s.x.accepted|, |writers|);
  }

  lemma HeadHit(s: State, t: nat, readers: set<nat>)
    requires Tracked(s) && Enabled(s.c, Cas(t)) && s.c.threads[t].ReadCopy? && ReadersAmong(s, [], readers)
    requires Paid(s.x.headMisses, |StaleReaders(s)|, |s.x.delivered|, |readers|)
    ensures var s' := Deliver(s, t); Paid(s'.x.headMisses, |StaleReaders(s')|, |s'.x.delivered|, |readers|)
  {
    var s' := Deliver(s, t);
    StaleBelow(StaleReaders(s'), readers, t);
    PaidHit(s.x.headMisses, |StaleReaders(s)|, |StaleReaders(s')|, |s.x.delivered|, |readers|);
  }

  /** How one step moves the writers' account. */
  lemma TailAccount(s: State, a: Action, writers: set<nat>)
    requires Tracked(s) && Enabled(s.c, a) && WritersAmong(s, [a], writers)
    requires Paid(s.x.tailMisses, |StaleWriters(s)|, |s.x.accepted|, |writers|)
    ensures var s' := Step(s, a);
      Paid(s'.x.tailMisses, |StaleWriters(s')|, |s'.x.accepted|, |writers|)
  {
    if a.Cas? && s.c.threads[a.t].WriteCas? {
      if CasHits(s.c, a.t) {
        ReserveEffect(s, a.t);
        TailHit(s, a.t, writers);
      } else {
        assert a.t in StaleWriters(s);
        assert StaleWriters(Step(s, a)) == StaleWriters(s) - {a.t};
      }
    } else {
      assert StaleWriters(Step(s, a)) == StaleWriters(s);
    }
  }

  /** How one step moves the readers' account. */
  lemma HeadAccount(s: State, a: Action, readers: set<nat>)
    requires Tracked(s) && Enabled(s.c, a) && ReadersAmong(s, [a], readers)
    requires Paid(s.x.headMisses, |StaleReaders(s)|, |s.x.delivered|, |readers|)
    ensures var s' := Step(s, a);
      Paid(s'.x.headMisses, |StaleReaders(s')|, |s'.x.delivered|, |readers|)
  {
    if a.Cas? && s.c.threads[a.t].ReadCopy? {
      if CasHits(s.c, a.t) {
        DeliverEffect(s, a.t);
        HeadHit(s, a.t, readers);
      } else {
        assert a.t in StaleReaders(s);
        assert StaleReaders(Step(s, a)) == StaleReaders(s) - {a.t};
      }
    } else {
      assert StaleReaders(Step(s, a)) <= StaleReaders(s);
      SubsetSize(StaleReaders(Step(s, a)), StaleReaders(s));
    }
  }

  lemma AmongStep(s: State, acts: seq<Action>, writers: set<nat>, readers: set<nat>)
    requires Formed(s) && acts != [] && Enabled(s.c, acts[0])
    requires WritersAmong(s, acts, writers) && ReadersAmong(s, acts, readers)
    ensures WritersAmong(Step(s, acts[0]), acts[1..], writers) && ReadersAmong(Step(s, acts[0]), acts[1..], readers)
  {
  }

  lemma {:induction false} AccountsRun(s: State, acts: seq<Action>, writers: set<nat>, readers: set<nat>)
    requires Tracked(s) && Legal(s, acts) && WritersAmong(s, acts, writers) && ReadersAmong(s, acts, readers)
    requires Paid(s.x.tailMisses, |StaleWriters(s)|, |s.x.accepted|, |writers|)
    requires Paid(s.x.headMisses, |StaleReaders(s)|, |s.x.delivered|, |readers|)
    ensures var s' := Exec(s, acts);
      && Paid(s'.x.tailMisses, |StaleWriters(s')|, |s'.x.accepted|, |writers|)
      && Paid(s'.x.headMisses, |StaleReaders(s')|, |s'.x.delivered|, |readers|)
    decreases |acts|
  {
    if acts != [] {
      var a, rest := acts[0], acts[1..];
      assert WritersAmong(s, [a], writers) && ReadersAmong(s, [a], readers);
      TrackedStep(s, a);
      TailAccount(s, a, writers);
      HeadAccount(s, a, readers);
      AmongStep(s, acts, writers, readers);
      AccountsRun(Step(s, a), rest, writers, readers);
    }
  }

  /** Over every run from an initialised segment, with W threads that write and R that read,
      failed swaps on `tail` number at most (W - 1) times the successful ones, and failed swaps on
      `head` at most (R - 1) times. */
  lemma AmortisedLockFreedom(content: seq<Byte>, threads: nat, acts: seq<Action>, writers: set<nat>, readers: set<nat>)
    requires 2 <= |content| && Legal(Init(content, threads), acts)
    requires forall i :: 0 <= i < |acts| && acts[i].StartWrite? ==> acts[i].t in writers
    requires forall i :: 0 <= i < |acts| && acts[i].StartRead? ==> acts[i].t in readers
    ensures var x := Exec(Init(content, threads), acts).x;
      && x.tailMisses <= (|writers| - 1) * |x.accepted|
      && x.headMisses <= (|readers| - 1) * |x.delivered|
  {
    var s := Init(content, threads);
    assert StaleWriters(s) == {} && StaleReaders(s) == {};
    AccountsRun(s, acts, writers, readers);
  }
}
