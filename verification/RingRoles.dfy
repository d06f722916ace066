/**
  Which threads may share a ring: the answer in terms of who calls `rb_write` and who `rb_read`.
*/
module RingRoles {
  import opened FiniteSets
  import opened RingProtocol
  import opened RingInvariant
  import opened RingRuns
  import opened RingLap

  /** With these writers and readers, every run from an initialised segment keeps the invariant. */
  ghost predicate Safe(content: seq<Byte>, threads: nat, writers: set<nat>, readers: set<nat>)
    requires 2 <= |content|
  {
    forall acts: seq<Action> :: Legal(Init(content, threads), acts) && Roles(acts, writers, readers) ==>
      Inv(Exec(Init(content, threads), acts))
  }

  ghost predicate OneOrNone(writers: set<nat>, readers: set<nat>) {
    writers == {} || readers == {} || (|writers| == 1 && |readers| == 1)
  }

  // ---------------------------------------------------------------- one side does nothing

  /** Nothing is ever written. */
  lemma {:induction false} OnlyReaders(s: State, acts: seq<Action>, readers: set<nat>)
    requires Inv(s) && Legal(s, acts) && Roles(acts, {}, readers) && s.x.t == 0
    requires forall u :: 0 <= u < |s.c.threads| ==> !s.c.threads[u].Writing()
    ensures Inv(Exec(s, acts))
    decreases |acts|
  {
    if acts != [] {
      var a := acts[0];
      assert a in acts;
      if a.t < |s.c.threads| { assert ThreadOk(s, a.t); }
      StepInv(s, a);
      OnlyReaders(Step(s, a), acts[1..], readers);
    }
  }

  /** Nobody is in `rb_read`, and nothing was delivered. */
  ghost predicate NoReads(s: State) {
    s.x.h == 0 && forall u :: 0 <= u < |s.c.threads| ==> !s.c.threads[u].Reading()
  }

  lemma NoReadsStep(s: State, a: Action)
    requires Formed(s) && Enabled(s.c, a) && NoReads(s) && !a.StartRead?
    ensures NoReads(Step(s, a)) && HeadLap(s, a)
  {
  }

  /** Every head value that was loaded is 0 and current, so there is room. */
  lemma NoReadsRoom(s: State, a: Action)
    requires Inv(s) && Enabled(s.c, a) && s.x.h == 0
    ensures TailRoom(s, a)
  {
    if a.Cas? && s.c.threads[a.t].WriteCas? && CasHits(s.c, a.t) {
      SoleWriterLap(s, a.t);
      ReserveRoom(s, a.t);
    }
  }

  /** Nothing is ever read. */
  lemma {:induction false} OnlyWriters(s: State, acts: seq<Action>, writers: set<nat>)
    requires Inv(s) && Legal(s, acts) && Roles(acts, writers, {}) && NoReads(s)
    ensures Inv(Exec(s, acts))
    decreases |acts|
  {
    if acts != [] {
      var a := acts[0];
      assert a in acts;
      NoReadsStep(s, a);
      NoReadsRoom(s, a);
      StepInv(s, a);
      OnlyWriters(Step(s, a), acts[1..], writers);
    }
  }

  // ---------------------------------------------------------------- one on each side

  lemma Single(a: set<nat>) returns (x: nat)
    requires |a| == 1
    ensures a == {x}
  {
    x :| x in a;
    assert |a - {x}| == 0;
    assert a == (a - {x}) + {x};
  }

  lemma OneEach(content: seq<Byte>, threads: nat, acts: seq<Action>, writers: set<nat>, readers: set<nat>)
    requires 2 <= |content| && Legal(Init(content, threads), acts) && Roles(acts, writers, readers)
    requires |writers| == 1 && |readers| == 1
    ensures Inv(Exec(Init(content, threads), acts))
  {
    var w := Single(writers);
    var r := Single(readers);
    assert forall i :: 0 <= i < |acts| ==> acts[i] in acts;
    OneToOneIsDelivered(content, threads, acts, w, r);
  }

  // ---------------------------------------------------------------- more

  lemma WiderRoles(acts: seq<Action>, w: set<nat>, r: set<nat>, writers: set<nat>, readers: set<nat>)
    requires Roles(acts, w, r) && w <= writers && r <= readers
    ensures Roles(acts, writers, readers)
  {
  }

  /** Two writers and a reader, or two readers and a writer, can break the ring. */
  lemma Breaks(content: seq<Byte>, threads: nat, writers: set<nat>, readers: set<nat>) returns (acts: seq<Action>)
    requires 2 <= |content| && writers != {} && readers != {} && (|writers| >= 2 || |readers| >= 2)
    requires forall u :: u in writers + readers ==> u < threads
    ensures Legal(Init(content, threads), acts) && Roles(acts, writers, readers)
    ensures !Inv(Exec(Init(content, threads), acts))
  {
    if |writers| >= 2 {
      var r :| r in readers;
      var z := Another(writers, r);
      var w := Another(writers, z);
      assert r in writers + readers && z in writers + readers && w in writers + readers;
      acts := TailLapNeeded(content, threads, z, w, r);
      WiderRoles(acts, {z, w}, {r}, writers, readers);
    } else {
      var w :| w in writers;
      var z := Another(readers, w);
      var r := Another(readers, z);
      assert r in writers + readers && z in writers + readers && w in writers + readers;
      acts := HeadLapNeeded(content, threads, z, w, r);
      WiderRoles(acts, {w}, {z, r}, writers, readers);
    }
  }

  /** At every capacity: every run of a ring keeps the invariant if and only if nobody writes to it,
      nobody reads from it, or one thread writes and one reads. */
  lemma SafeRoles(content: seq<Byte>, threads: nat, writers: set<nat>, readers: set<nat>)
    requires 2 <= |content| && forall u :: u in writers + readers ==> u < threads
    ensures Safe(content, threads, writers, readers) <==> OneOrNone(writers, readers)
  {
    InitInv(content, threads);
    if OneOrNone(writers, readers) {
      forall acts: seq<Action> | Legal(Init(content, threads), acts) && Roles(acts, writers, readers)
        ensures Inv(Exec(Init(content, threads), acts))
      {
        if writers == {} { OnlyReaders(Init(content, threads), acts, readers); }
        else if readers == {} { OnlyWriters(Init(content, threads), acts, writers); }
        else { OneEach(content, threads, acts, writers, readers); }
      }
    } else {
      NotOne(writers);
      NotOne(readers);
      var acts := Breaks(content, threads, writers, readers);
    }
  }

  lemma NotOne(a: set<nat>)
    ensures a != {} && |a| != 1 ==> |a| >= 2
  {
  }
}
