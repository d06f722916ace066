/**
  Whole runs of the ring: what any number of readers and writers see over any interleaving.
*/
module RingRuns {
  import opened Residues
  import opened RingProtocol
  import opened RingInvariant

  // ---------------------------------------------------------------- hypotheses on runs

  /** Every successful swap on `tail` in the run reserves room that is there. */
  ghost predicate TailRooms(s: State, acts: seq<Action>)
    requires Formed(s) && Legal(s, acts)
    decreases |acts|
  {
    acts == [] || (TailRoom(s, acts[0]) && TailRooms(Step(s, acts[0]), acts[1..]))
  }

  /** Every successful swap on `tail` in the run finds the head in the lap of the tail. */
  ghost predicate TailLaps(s: State, acts: seq<Action>)
    requires Formed(s) && Legal(s, acts)
    decreases |acts|
  {
    acts == [] || (TailLap(s, acts[0]) && TailLaps(Step(s, acts[0]), acts[1..]))
  }

  /** Every successful swap on `head` in the run is less than a lap after its head load. */
  ghost predicate HeadLaps(s: State, acts: seq<Action>)
    requires Formed(s) && Legal(s, acts)
    decreases |acts|
  {
    acts == [] || (HeadLap(s, acts[0]) && HeadLaps(Step(s, acts[0]), acts[1..]))
  }

  /** Only thread `w` ever calls `rb_write`. */
  ghost predicate OnlyWriter(acts: seq<Action>, w: nat) {
    forall i :: 0 <= i < |acts| && acts[i].StartWrite? ==> acts[i].t == w
  }

  /** Only thread `r` ever calls `rb_read`. */
  ghost predicate OnlyReader(acts: seq<Action>, r: nat) {
    forall i :: 0 <= i < |acts| && acts[i].StartRead? ==> acts[i].t == r
  }

  /** No thread but `w` is writing, and nothing was reserved since `w` loaded the head. */
  ghost predicate SoleWriter(s: State, w: nat)
    requires Formed(s)
  {
    && (forall u :: 0 <= u < |s.c.threads| && u != w ==> !s.c.threads[u].Writing())
    && (w < |s.c.threads| && (s.c.threads[w].WriteHead? || s.c.threads[w].WriteCas?) ==>
          s.x.t < s.x.snaps[w].head + s.c.Cap())
  }

  /** No thread but `r` is reading, and nothing was delivered since `r` loaded the head. */
  ghost predicate SoleReader(s: State, r: nat)
    requires Formed(s)
  {
    && (forall u :: 0 <= u < |s.c.threads| && u != r ==> !s.c.threads[u].Reading())
    && (r < |s.c.threads| && (s.c.threads[r].ReadHead? || s.c.threads[r].ReadCopy?) ==> s.x.snaps[r].head == s.x.h)
  }

  // ---------------------------------------------------------------- composing runs

  lemma ExecCons(s: State, a: Action, rest: seq<Action>)
    requires Formed(s) && Enabled(s.c, a) && Legal(Step(s, a), rest)
    ensures Legal(s, [a] + rest) && Exec(s, [a] + rest) == Exec(Step(s, a), rest)
  {
    assert ([a] + rest)[1..] == rest;
  }

  lemma {:induction false} ExecAppend(s: State, a: seq<Action>, b: seq<Action>)
    requires Formed(s) && Legal(s, a) && Legal(Exec(s, a), b)
    ensures Legal(s, a + b) && Exec(s, a + b) == Exec(Exec(s, a), b)
    decreases |a|
  {
    if a == [] {
      assert a + b == b;
    } else {
      ExecAppend(Step(s, a[0]), a[1..], b);
      assert (a + b)[1..] == a[1..] + b;
    }
  }

  // ---------------------------------------------------------------- one writer, one reader

  lemma SoleWriterStep(s: State, a: Action, w: nat)
    requires Inv(s) && Enabled(s.c, a) && SoleWriter(s, w)
    requires a.StartWrite? ==> a.t == w
    ensures TailLap(s, a) && TailRoom(s, a)
    ensures SoleWriter(Step(s, a), w)
  {
    if a.Cas? && s.c.threads[a.t].WriteCas? && CasHits(s.c, a.t) {
      SoleWriterLap(s, a.t);
      ReserveRoom(s, a.t);
    }
    SoleWriterStays(s, a, w);
  }

  lemma SoleWriterLap(s: State, w: nat)
    requires Inv(s) && w < |s.c.threads| && s.c.threads[w].WriteCas? && s.x.t < s.x.snaps[w].head + s.c.Cap()
    ensures SameLaps(s, w)
  {
    assert ThreadOk(s, w);
  }

  lemma SoleWriterStays(s: State, a: Action, w: nat)
    requires Formed(s) && s.x.t < s.x.h + s.c.Cap() && Enabled(s.c, a) && SoleWriter(s, w)
    requires a.StartWrite? ==> a.t == w
    ensures SoleWriter(Step(s, a), w)
  {
  }

  lemma SoleReaderStep(s: State, a: Action, r: nat)
    requires Inv(s) && Enabled(s.c, a) && SoleReader(s, r)
    requires a.StartRead? ==> a.t == r
    ensures HeadLap(s, a)
    ensures SoleReader(Step(s, a), r)
  {
  }

  // ---------------------------------------------------------------- safety over runs

  /** Every run keeps the invariant. A hypothesis is needed only on the side that has several
      threads: a sole writer meets `TailRooms` and a sole reader meets `HeadLaps`. */
  lemma {:induction false} RunInv(s: State, acts: seq<Action>, w: nat, r: nat)
    requires Inv(s) && Legal(s, acts)
    requires TailRooms(s, acts) || (SoleWriter(s, w) && OnlyWriter(acts, w))
    requires HeadLaps(s, acts) || (SoleReader(s, r) && OnlyReader(acts, r))
    ensures Inv(Exec(s, acts))
    ensures TailRooms(s, acts) && HeadLaps(s, acts)
    decreases |acts|
  {
    if acts != [] {
      var a, rest := acts[0], acts[1..];
      if !TailRooms(s, acts) { SoleWriterStep(s, a, w); }
      if !HeadLaps(s, acts) { SoleReaderStep(s, a, r); }
      StepInv(s, a);
      assert OnlyWriter(acts, w) ==> OnlyWriter(rest, w);
      assert OnlyReader(acts, r) ==> OnlyReader(rest, r);
      RunInv(Step(s, a), rest, w, r);
    }
  }

  /** The invariant holds at every point of the run. */
  ghost predicate Always(s: State, acts: seq<Action>)
    requires Formed(s) && Legal(s, acts)
    decreases |acts|
  {
    Inv(s) && (acts == [] || Always(Step(s, acts[0]), acts[1..]))
  }

  /** The hypothesis on `tail` is exact: it holds of a run if and only if the invariant is never
      broken. */
  lemma {:induction false} AlwaysExact(s: State, acts: seq<Action>)
    requires Inv(s) && Legal(s, acts) && HeadLaps(s, acts)
    ensures Always(s, acts) <==> TailRooms(s, acts)
    decreases |acts|
  {
    if acts != [] {
      var a := acts[0];
      if TailRoom(s, a) {
        StepInv(s, a);
        AlwaysExact(Step(s, a), acts[1..]);
      } else {
        NoRoomBreaks(s, a);
      }
    }
  }

  lemma NoRoomBreaks(s: State, a: Action)
    requires Inv(s) && Enabled(s.c, a) && !TailRoom(s, a)
    ensures !Inv(Step(s, a))
  {
    ReserveEffect(s, a.t);
  }

  /** A run meets it when every successful swap on `tail` finds the head in the lap of the tail. */
  lemma {:induction false} LapsGiveRoom(s: State, acts: seq<Action>)
    requires Inv(s) && Legal(s, acts) && TailLaps(s, acts) && HeadLaps(s, acts)
    ensures TailRooms(s, acts)
    decreases |acts|
  {
    if acts != [] {
      var a := acts[0];
      if a.Cas? && s.c.threads[a.t].WriteCas? && CasHits(s.c, a.t) { ReserveRoom(s, a.t); }
      StepInv(s, a);
      LapsGiveRoom(Step(s, a), acts[1..]);
    }
  }

  /** The first of the two main results: from an initialised segment, whatever the interleaving,
      what readers received in the order of their swaps is a prefix of what writers put in, in
      the order of theirs; each entry of the two logs is one whole call. */
  lemma StreamIsDelivered(content: seq<Byte>, threads: nat, acts: seq<Action>)
    requires 2 <= |content| && Legal(Init(content, threads), acts)
    requires TailRooms(Init(content, threads), acts) && HeadLaps(Init(content, threads), acts)
    ensures var x := Exec(Init(content, threads), acts).x;
      && DeliveredBytes(x.delivered) <= AcceptedBytes(x.accepted)
      && |DeliveredBytes(x.delivered)| == x.h
      && (forall i :: 0 <= i < |x.accepted| ==> x.accepted[i].bytes <= x.accepted[i].input)
      && (forall i :: 0 <= i < |x.delivered| ==> |x.delivered[i].bytes| <= x.delivered[i].asked)
  {
    InitInv(content, threads);
    RunInv(Init(content, threads), acts, 0, 0);
  }

  /** The second: with one writer and one reader no hypothesis is needed. */
  lemma OneToOneIsDelivered(content: seq<Byte>, threads: nat, acts: seq<Action>, w: nat, r: nat)
    requires 2 <= |content| && Legal(Init(content, threads), acts)
    requires OnlyWriter(acts, w) && OnlyReader(acts, r)
    ensures Inv(Exec(Init(content, threads), acts))
    ensures var x := Exec(Init(content, threads), acts).x;
      DeliveredBytes(x.delivered) <= AcceptedBytes(x.accepted) && |DeliveredBytes(x.delivered)| == x.h
  {
    InitInv(content, threads);
    RunInv(Init(content, threads), acts, w, r);
  }

  // ---------------------------------------------------------------- the swaps compare residues

  /** A swap on `head` that succeeds is faithful exactly when it meets the lap hypothesis. */
  lemma HeadCasFaithful(s: State, t: nat)
    requires Inv(s) && Enabled(s.c, Cas(t)) && s.c.threads[t].ReadCopy? && CasHits(s.c, t)
    ensures s.x.snaps[t].head == s.x.h <==> HeadLap(s, Cas(t))
  {
    if HeadLap(s, Cas(t)) { DeliverFaithful(s, t); }
  }

  /** A successful swap on `tail` keeps the invariant exactly when the reserved length fits the
      room there is now. When the head is in the lap of the tail it always does; when the writer took
      all the room it had computed, only then. */
  lemma TailCasExact(s: State, t: nat)
    requires Inv(s) && Enabled(s.c, Cas(t)) && s.c.threads[t].WriteCas? && CasHits(s.c, t)
    ensures Inv(Step(s, Cas(t))) <==> s.x.t + s.c.threads[t].len < s.x.h + s.c.Cap()
    ensures SameLaps(s, t) ==> Inv(Step(s, Cas(t)))
    ensures s.c.threads[t].len == WriteSize(Wrap(s.x.snaps[t].head, s.c.Cap()), s.c.mem.tail, s.c.Cap()) ==>
      (Inv(Step(s, Cas(t))) <==> SameLaps(s, t))
  {
    ReserveExact(s, t);
    RoomByLaps(s, t);
    if SameLaps(s, t) { ReserveRoom(s, t); }
  }

  lemma ReserveExact(s: State, t: nat)
    requires Inv(s) && Enabled(s.c, Cas(t)) && s.c.threads[t].WriteCas? && CasHits(s.c, t)
    ensures Inv(Step(s, Cas(t))) <==> s.x.t + s.c.threads[t].len < s.x.h + s.c.Cap()
  {
    ReserveEffect(s, t);
    if s.x.t + s.c.threads[t].len < s.x.h + s.c.Cap() { ReserveInv(s, t); }
  }

  /** All the room a writer computed is there now exactly when the head is in the lap of the tail. */
  lemma RoomByLaps(s: State, t: nat)
    requires Inv(s) && Enabled(s.c, Cas(t)) && s.c.threads[t].WriteCas?
    ensures s.x.t + WriteSize(Wrap(s.x.snaps[t].head, s.c.Cap()), s.c.mem.tail, s.c.Cap()) < s.x.h + s.c.Cap()
      <==> SameLaps(s, t)
  {
    assert ThreadOk(s, t);
    RoomIsSameLaps(s.x.snaps[t].head, s.x.h, s.x.t, s.c.Cap());
  }

  /** For `oldtail` no hypothesis is needed: equal residues mean equal positions. */
  lemma OldtailCasFaithful(s: State, w: nat)
    requires Inv(s) && w < |s.c.threads| && s.c.threads[w].WriteCopy?
    ensures s.c.threads[w].tail == s.c.mem.oldtail <==> s.x.snaps[w].pos == s.x.o
  {
    assert ThreadOk(s, w);
    PublisherIsOldest(s, w);
    var q := s.x.queue;
    if w != q[0] {
      var i :| 0 < i < |q| && q[i] == w;
      QueueOrder(s, 0, i);
    }
  }

  // ---------------------------------------------------------------- optimistic reads

  /** The cells a transfer of `len` bytes from `start` uses. */
  ghost function Cells(start: nat, len: nat, n: nat): iset<nat>
    requires start < n && len < n
  {
    iset k: nat | k < len :: Slot(start, len, k, n)
  }

  /** The cell a step writes, if it writes one. */
  ghost function WrittenCells(s: State, a: Action): iset<nat>
    requires Formed(s) && Enabled(s.c, a)
  {
    if a.Copy? && s.c.threads[a.t].WriteCopy? then
      iset{Slot(s.c.threads[a.t].tail, s.c.threads[a.t].len, a.k, s.c.Cap())}
    else iset{}
  }

  /** No step of the run writes any of the cells. */
  ghost predicate Untouched(s: State, acts: seq<Action>, cells: iset<nat>)
    requires Formed(s) && Legal(s, acts)
    decreases |acts|
  {
    acts == [] || (WrittenCells(s, acts[0]) !! cells && Untouched(Step(s, acts[0]), acts[1..], cells))
  }

  /** A cell of the unread published bytes is not in any pending reservation. */
  lemma UnreadCellApart(s: State, k: nat, len: nat, w: nat, j: nat)
    requires Inv(s) && k < len < s.c.Cap() && s.x.h + len <= s.x.o
    requires w < |s.c.threads| && s.c.threads[w].WriteCopy? && j < s.c.threads[w].len
    ensures Slot(Wrap(s.x.h, s.c.Cap()), len, k, s.c.Cap())
         != Slot(s.c.threads[w].tail, s.c.threads[w].len, j, s.c.Cap())
  {
    PendingPlace(s, w);
    SlotIsResidue(s.x.h, len, k, s.c.Cap());
    SlotIsResidue(From(s, w), s.c.threads[w].len, j, s.c.Cap());
    CellsDiffer(s.x.h + k, From(s, w) + j, s.x.h, s.c.Cap());
  }

  /** While a reader's head value is current, no writer's byte lands in the cells it copies. */
  lemma ReaderCellsApart(s: State, a: Action, len: nat)
    requires Inv(s) && Enabled(s.c, a) && len < s.c.Cap() && s.x.h + len <= s.x.o
    ensures WrittenCells(s, a) !! Cells(s.c.mem.head, len, s.c.Cap())
  {
    if a.Copy? && s.c.threads[a.t].WriteCopy? {
      forall k: nat | k < len
        ensures Slot(s.c.mem.head, len, k, s.c.Cap()) !in WrittenCells(s, a)
      {
        UnreadCellApart(s, k, len, a.t, a.k);
      }
    }
  }

  /** The head position never moves back, nor does the published one. */
  lemma {:induction false} HeadMonotone(s: State, acts: seq<Action>)
    requires Formed(s) && Legal(s, acts)
    ensures s.x.h <= Exec(s, acts).x.h && s.x.o <= Exec(s, acts).x.o
    decreases |acts|
  {
    if acts != [] { HeadMonotone(Step(s, acts[0]), acts[1..]); }
  }

  /** Thread `r` only copies during the run: it stays in the same call of `rb_read`. */
  ghost predicate OnlyCopies(acts: seq<Action>, r: nat) {
    forall i :: 0 <= i < |acts| && acts[i].t == r ==> acts[i].Copy?
  }

  lemma {:induction false} SameCall(s: State, acts: seq<Action>, r: nat)
    requires Formed(s) && Legal(s, acts) && OnlyCopies(acts, r)
    requires r < |s.c.threads| && s.c.threads[r].ReadCopy?
    ensures var (pc, pc') := (s.c.threads[r], Exec(s, acts).c.threads[r]);
      pc'.ReadCopy? && pc'.len == pc.len && pc'.head == pc.head && Exec(s, acts).x.snaps[r] == s.x.snaps[r]
    decreases |acts|
  {
    if acts != [] {
      var s' := Step(s, acts[0]);
      assert acts[0].t == r ==> acts[0].Copy?;
      assert OnlyCopies(acts[1..], r);
      SameCall(s', acts[1..], r);
    }
  }

  /** As long as the head has not moved, nothing is written to the `len` unread cells at it. */
  lemma {:induction false} UntouchedWhileCurrent(s: State, acts: seq<Action>, len: nat)
    requires Inv(s) && Legal(s, acts) && TailRooms(s, acts) && HeadLaps(s, acts)
    requires len < s.c.Cap() && s.x.h + len <= s.x.o && s.x.h == Exec(s, acts).x.h
    ensures Untouched(s, acts, Cells(s.c.mem.head, len, s.c.Cap()))
    decreases |acts|
  {
    if acts != [] {
      var s', rest := Step(s, acts[0]), acts[1..];
      HeadMonotone(s', rest);
      HeadMonotone(s, [acts[0]]);
      ReaderCellsApart(s, acts[0], len);
      StepInv(s, acts[0]);
      UntouchedWhileCurrent(s', rest, len);
    }
  }

  /** If the swap at the end of the call succeeds, the head was current from the start. */
  lemma CurrentThroughout(s: State, acts: seq<Action>, r: nat)
    requires Inv(s) && Legal(s, acts) && OnlyCopies(acts, r)
    requires r < |s.c.threads| && s.c.threads[r].ReadCopy?
    requires Exec(s, acts).x.snaps[r].head == Exec(s, acts).x.h
    ensures s.x.h == Exec(s, acts).x.h && s.c.threads[r].head == s.c.mem.head
    ensures s.x.h + s.c.threads[r].len <= s.x.o
  {
    SameCall(s, acts, r);
    HeadMonotone(s, acts);
    assert ThreadOk(s, r);
  }

  /** A reader runs its copy loop while any number of others run (`acts`), and its swap on `head`
      then succeeds: its buffer is exactly the next bytes of the stream, from the head position it
      started at. */
  lemma OptimisticReadValid(s: State, acts: seq<Action>, r: nat)
    requires Inv(s) && Legal(s, acts) && TailRooms(s, acts) && HeadLaps(s, acts) && OnlyCopies(acts, r)
    requires r < |s.c.threads| && s.c.threads[r].ReadCopy?
    requires var s' := Exec(s, acts); Enabled(s'.c, Cas(r)) && CasHits(s'.c, r) && HeadLap(s', Cas(r))
    ensures var (s', len) := (Exec(s, acts), s.c.threads[r].len); NextBytes(s', r, len) && s'.x.h == s.x.h
  {
    SameCall(s, acts, r);
    RunInv(s, acts, 0, 0);
    BufferIsNext(Exec(s, acts), r);
    CurrentThroughout(s, acts, r);
  }

  /** Reader `r` has copied all `len` bytes of its call, from a head position that is current, and
      they are the next bytes of the stream. */
  ghost predicate NextBytes(s: State, r: nat, len: nat)
    requires Formed(s) && r < |s.c.threads|
  {
    var pc := s.c.threads[r];
    && pc.ReadCopy? && pc.Complete() && pc.len == len && s.x.snaps[r].head == s.x.h
    && s.x.h + len <= |Stream(s.x)| && Output(pc.buf, len) == Stream(s.x)[s.x.h..s.x.h + len]
  }

  lemma BufferIsNext(s: State, r: nat)
    requires Inv(s) && Enabled(s.c, Cas(r)) && s.c.threads[r].ReadCopy? && CasHits(s.c, r) && HeadLap(s, Cas(r))
    ensures NextBytes(s, r, s.c.threads[r].len)
  {
    DeliverFaithful(s, r);
  }

  /** ... and no byte was written to any cell it copies from, by anyone, in the meantime. */
  lemma OptimisticReadUntouched(s: State, acts: seq<Action>, r: nat)
    requires Inv(s) && Legal(s, acts) && TailRooms(s, acts) && HeadLaps(s, acts) && OnlyCopies(acts, r)
    requires r < |s.c.threads| && s.c.threads[r].ReadCopy?
    requires var s' := Exec(s, acts); Enabled(s'.c, Cas(r)) && CasHits(s'.c, r) && HeadLap(s', Cas(r))
    ensures Untouched(s, acts, Cells(s.c.threads[r].head, s.c.threads[r].len, s.c.Cap()))
  {
    OptimisticReadValid(s, acts, r);
    CurrentThroughout(s, acts, r);
    UntouchedWhileCurrent(s, acts, s.c.threads[r].len);
  }

  // ---------------------------------------------------------------- return value 0

  /** A reader's load of `oldtail` ends the call with 0 exactly when nothing was asked for or
      the ring is empty at that moment, as long as its head value is less than a lap old. */
  lemma ReadZeroMeansEmpty(s: State, r: nat)
    requires Inv(s) && Enabled(s.c, Load(r)) && s.c.threads[r].ReadHead?
    requires s.x.o < s.x.snaps[r].head + s.c.Cap()
    ensures Step(s, Load(r)).c.threads[r].Idle? <==> s.x.snaps[r].asked == 0 || s.x.h == s.x.o == s.x.snaps[r].head
  {
    var snap := s.x.snaps[r];
    assert ThreadOk(s, r);
    ReadSizeIsDistance(snap.head, s.x.o, s.c.Cap());
  }

  /** A writer's load of `tail` ends the call with 0 exactly when nothing was offered or the tail is
      one cell short of whole laps past the loaded head, as it is when the ring is full and the head
      less than a lap old. */
  lemma WriteZeroMeansFull(s: State, w: nat)
    requires Inv(s) && Enabled(s.c, Load(w)) && s.c.threads[w].WriteHead?
    ensures s.x.snaps[w].head <= s.x.t
    ensures Step(s, Load(w)).c.threads[w].Idle? <==>
      s.c.threads[w].input == [] || Wrap(s.x.t - s.x.snaps[w].head, s.c.Cap()) == s.c.Cap() - 1
  {
    assert ThreadOk(s, w);
    WriteSizeAnyLap(s.x.snaps[w].head, s.x.t, s.c.Cap());
  }
}
