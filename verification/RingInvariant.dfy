/**
  What every step of the ring protocol keeps.
*/
module RingInvariant {
  import opened Residues
  import opened RingProtocol

  function Stream(x: History): seq<Byte> { AcceptedBytes(x.accepted) }

  // ---------------------------------------------------------------- invariant

  /** The three words are residues of absolute positions at most a lap minus one apart. */
  ghost predicate WordsOk(mem: Memory, x: History)
    requires |mem.content| > 0
  {
    var n := |mem.content|;
    && x.h <= x.o <= x.t < x.h + n
    && mem.head == Wrap(x.h, n) && mem.oldtail == Wrap(x.o, n) && mem.tail == Wrap(x.t, n)
  }

  /** The logs: the stream has length `t` and the deliveries so far are its first `h` bytes. */
  ghost predicate LogsOk(x: History) {
    && |Stream(x)| == x.t
    && x.h <= x.t
    && DeliveredBytes(x.delivered) == Stream(x)[..x.h]
    && (forall i :: 0 <= i < |x.accepted| ==>
          0 < |x.accepted[i].bytes| && x.accepted[i].bytes <= x.accepted[i].input)
    && (forall i :: 0 <= i < |x.delivered| ==> 0 < |x.delivered[i].bytes| <= x.delivered[i].asked)
  }

  /** Cell contents agree with the stream on the positions `from..to`. */
  ghost predicate Holds(content: seq<Byte>, stream: seq<Byte>, from: nat, to: nat)
    requires |content| > 0
  {
    && to <= |stream|
    && forall i :: from <= i < to ==> content[Wrap(i, |content|)] == stream[i]
  }

  ghost predicate ReaderOk(pc: Pc, snap: Snap, h: nat, o: nat, stream: seq<Byte>, n: nat)
    requires n > 0
  {
    match pc
    case ReadStart(len) => len <= snap.asked && (len == 0 ==> snap.asked == 0)
    case ReadHead(len, head) =>
      len <= snap.asked && (len == 0 ==> snap.asked == 0) && snap.head <= h && head == Wrap(snap.head, n)
    case ReadCopy(len, head, buf) =>
      && len <= snap.asked && snap.head <= h && head == Wrap(snap.head, n)
      && (snap.head == h ==>
            && h + len <= o <= |stream|
            && forall k :: k in buf && k < len ==> buf[k] == stream[h + k])
    case _ => true
  }

  ghost predicate WriterOk(pc: Pc, snap: Snap, h: nat, o: nat, t: nat, stream: seq<Byte>, content: seq<Byte>)
    requires |content| > 0
  {
    var n := |content|;
    match pc
    case WriteStart(len, input) => len <= snap.asked == |input| && (len == 0 ==> input == [])
    case WriteHead(len, input, head) =>
      len <= snap.asked == |input| && (len == 0 ==> input == []) && snap.head <= h && head == Wrap(snap.head, n)
    case WriteCas(len, input, tail) =>
      && len <= snap.asked == |input| && snap.head <= h && snap.head <= snap.pos <= t && tail == Wrap(snap.pos, n)
      && len <= WriteSize(Wrap(snap.head, n), Wrap(snap.pos, n), n)
    case WriteCopy(len, input, tail, copied) =>
      && len <= |input|
      && o <= snap.pos && snap.pos + len <= t <= |stream| && tail == Wrap(snap.pos, n)
      && stream[snap.pos..snap.pos + len] == input[..len]
      && (forall k :: k in copied && k < len ==> content[Wrap(snap.pos + k, n)] == input[k])
    case _ => true
  }

  /** The reservation of a writer: the positions from its reserved start to its end. */
  function From(s: State, w: nat): nat
    requires w < |s.x.snaps|
  {
    s.x.snaps[w].pos
  }

  function To(s: State, w: nat): nat
    requires w < |s.x.snaps| && w < |s.c.threads| && s.c.threads[w].WriteCopy?
  {
    s.x.snaps[w].pos + s.c.threads[w].len
  }

  ghost predicate QueueMembers(s: State)
    requires Sized(s)
  {
    && (forall i :: 0 <= i < |s.x.queue| ==> s.x.queue[i] < |s.c.threads| && s.c.threads[s.x.queue[i]].WriteCopy?)
    && (forall i, j :: 0 <= i < j < |s.x.queue| ==> s.x.queue[i] != s.x.queue[j])
    && (forall w :: 0 <= w < |s.c.threads| && s.c.threads[w].WriteCopy? ==> w in s.x.queue)
  }

  /** The reservations, in queue order, are adjacent and cut `o..t` into non-empty pieces. */
  ghost predicate QueueTiles(s: State)
    requires Sized(s) && QueueMembers(s)
  {
    var q := s.x.queue;
    if q == [] then s.x.o == s.x.t
    else
      && From(s, q[0]) == s.x.o
      && To(s, q[|q| - 1]) == s.x.t
      && forall i :: 0 <= i < |q| - 1 ==> To(s, q[i]) == From(s, q[i + 1])
  }

  ghost predicate ThreadOk(s: State, u: nat)
    requires Formed(s) && u < |s.c.threads|
  {
    && ReaderOk(s.c.threads[u], s.x.snaps[u], s.x.h, s.x.o, Stream(s.x), s.c.Cap())
    && WriterOk(s.c.threads[u], s.x.snaps[u], s.x.h, s.x.o, s.x.t, Stream(s.x), s.c.mem.content)
  }

  ghost predicate ThreadsOk(s: State)
    requires Formed(s)
  {
    forall u :: 0 <= u < |s.c.threads| ==> ThreadOk(s, u)
  }

  ghost predicate Inv(s: State) {
    && Formed(s)
    && WordsOk(s.c.mem, s.x)
    && LogsOk(s.x)
    && Holds(s.c.mem.content, Stream(s.x), s.x.h, s.x.o)
    && QueueMembers(s) && QueueTiles(s)
    && ThreadsOk(s)
  }

  // ---------------------------------------------------------------- hypotheses on swaps

  /** A swap on `tail` that succeeds reserves room that is there now. */
  ghost predicate TailRoom(s: State, a: Action)
    requires Formed(s) && Enabled(s.c, a)
  {
    a.Cas? && s.c.threads[a.t].WriteCas? && CasHits(s.c, a.t) ==> s.x.t + s.c.threads[a.t].len < s.x.h + s.c.Cap()
  }

  /** The head has made as many whole laps past the loaded head as the tail has; in particular, when
      the tail is less than a lap past it. */
  ghost predicate SameLaps(s: State, t: nat)
    requires Formed(s) && t < |s.c.threads|
  {
    var from := s.x.snaps[t].head;
    from <= s.x.h <= s.x.t && Laps(s.x.h - from, s.c.Cap()) == Laps(s.x.t - from, s.c.Cap())
  }

  /** A swap on `tail` that succeeds does so with the head in the lap of the tail. */
  ghost predicate TailLap(s: State, a: Action)
    requires Formed(s) && Enabled(s.c, a)
  {
    a.Cas? && s.c.threads[a.t].WriteCas? && CasHits(s.c, a.t) ==> SameLaps(s, a.t)
  }

  /** A swap on `head` that succeeds does so less than a lap after the head value was loaded. */
  ghost predicate HeadLap(s: State, a: Action)
    requires Formed(s) && Enabled(s.c, a)
  {
    a.Cas? && s.c.threads[a.t].ReadCopy? && CasHits(s.c, a.t) ==> s.x.h < s.x.snaps[a.t].head + s.c.Cap()
  }

  // ---------------------------------------------------------------- small facts

  lemma AcceptedAppend(log: seq<Accepted>, e: Accepted)
    ensures AcceptedBytes(log + [e]) == AcceptedBytes(log) + e.bytes
  {
    assert (log + [e])[..|log|] == log;
  }

  lemma DeliveredAppend(log: seq<Delivered>, e: Delivered)
    ensures DeliveredBytes(log + [e]) == DeliveredBytes(log) + e.bytes
  {
    assert (log + [e])[..|log|] == log;
  }

  /** The slot of byte `k` is the residue of its absolute position. */
  lemma SlotIsResidue(pos: nat, len: nat, k: nat, n: nat)
    requires n > 0 && k < len < n
    ensures Slot(Wrap(pos, n), len, k, n) == Wrap(pos + k, n)
  {
    WrapAdd(pos, k, n);
  }

  lemma NewWord(pos: nat, len: nat, n: nat)
    requires n > 0 && len < n
    ensures (Wrap(pos, n) + len) % n == Wrap(pos + len, n)
  {
    WrapAdd(pos, len, n);
    RemainderOnce(Wrap(pos, n) + len, n);
  }

  lemma ReadSizeIsDistance(h: nat, o: nat, n: nat)
    requires n > 0 && h <= o < h + n
    ensures ReadSize(Wrap(h, n), Wrap(o, n), n) == o - h
  {
    WrapAdd(h, o - h, n);
  }

  lemma WriteSizeIsRoom(h: nat, t: nat, n: nat)
    requires n > 0 && h <= t < h + n
    ensures WriteSize(Wrap(h, n), Wrap(t, n), n) == h + n - 1 - t
  {
    WrapAdd(h, t - h, n);
  }

  /** The computed room, however many laps the tail is ahead of the loaded head. */
  lemma {:induction false} WriteSizeAnyLap(from: nat, t: nat, n: nat)
    requires n > 0 && from <= t
    ensures WriteSize(Wrap(from, n), Wrap(t, n), n) == n - 1 - Wrap(t - from, n)
    decreases t
  {
    if t < from + n {
      WriteSizeIsRoom(from, t, n);
    } else {
      WriteSizeAnyLap(from, t - n, n);
    }
  }

  /** That room is there now exactly when the head has made the same laps as the tail. */
  lemma RoomIsSameLaps(from: nat, h: nat, t: nat, n: nat)
    requires n > 0 && from <= h <= t
    ensures t + WriteSize(Wrap(from, n), Wrap(t, n), n) < h + n <==> Laps(h - from, n) == Laps(t - from, n)
  {
    WriteSizeAnyLap(from, t, n);
    RoundDown(h - from, t - from, n);
  }

  /** What the three words hold: the absolute positions modulo the capacity. */
  lemma WordsAreRemainders(s: State)
    requires Inv(s)
    ensures var (mem, x, n) := (s.c.mem, s.x, s.c.Cap());
      mem.head == x.h % n && mem.oldtail == x.o % n && mem.tail == x.t % n
  {
    WrapIsRemainder(s.x.h, s.c.Cap());
    WrapIsRemainder(s.x.o, s.c.Cap());
    WrapIsRemainder(s.x.t, s.c.Cap());
  }

  /** Later reservations in the queue start after earlier ones end. */
  lemma {:induction false} QueueOrder(s: State, i: nat, j: nat)
    requires Sized(s) && QueueMembers(s) && QueueTiles(s)
    requires i < j < |s.x.queue|
    ensures To(s, s.x.queue[i]) <= From(s, s.x.queue[j])
    decreases j
  {
    var q := s.x.queue;
    if i < j - 1 {
      QueueOrder(s, i, j - 1);
      assert To(s, q[j - 1]) == From(s, q[j]);
    }
  }

  /** Two pending writers' reservations are disjoint. */
  lemma PendingDisjoint(s: State, u: nat, w: nat)
    requires Sized(s) && QueueMembers(s) && QueueTiles(s)
    requires u != w && u < |s.c.threads| && w < |s.c.threads|
    requires s.c.threads[u].WriteCopy? && s.c.threads[w].WriteCopy?
    ensures To(s, u) <= From(s, w) || To(s, w) <= From(s, u)
  {
    var i :| 0 <= i < |s.x.queue| && s.x.queue[i] == u;
    var j :| 0 <= j < |s.x.queue| && s.x.queue[j] == w;
    if i < j { QueueOrder(s, i, j); } else { QueueOrder(s, j, i); }
  }

  /** What one thread knows survives a delivery. */
  lemma ThreadDelivered(pc: Pc, snap: Snap, h: nat, h': nat, o: nat, t: nat, stream: seq<Byte>, content: seq<Byte>)
    requires |content| > 0 && h < h'
    requires ReaderOk(pc, snap, h, o, stream, |content|) && WriterOk(pc, snap, h, o, t, stream, content)
    ensures ReaderOk(pc, snap, h', o, stream, |content|) && WriterOk(pc, snap, h', o, t, stream, content)
  {
  }

  /** ... a reservation by another thread ... */
  lemma ThreadReserved(pc: Pc, snap: Snap, h: nat, o: nat, t: nat, stream: seq<Byte>, more: seq<Byte>,
                       content: seq<Byte>)
    requires |content| > 0 && |stream| == t && o <= t
    requires ReaderOk(pc, snap, h, o, stream, |content|) && WriterOk(pc, snap, h, o, t, stream, content)
    ensures ReaderOk(pc, snap, h, o, stream + more, |content|)
    ensures WriterOk(pc, snap, h, o, t + |more|, stream + more, content)
  {
    if pc.WriteCopy? {
      assert (stream + more)[snap.pos..snap.pos + pc.len] == stream[snap.pos..snap.pos + pc.len];
    }
  }

  /** ... a publication by another thread ... */
  lemma ThreadPublished(pc: Pc, snap: Snap, h: nat, o: nat, o': nat, t: nat, stream: seq<Byte>, content: seq<Byte>)
    requires |content| > 0 && o <= o' <= |stream| && (pc.WriteCopy? ==> o' <= snap.pos)
    requires ReaderOk(pc, snap, h, o, stream, |content|) && WriterOk(pc, snap, h, o, t, stream, content)
    ensures ReaderOk(pc, snap, h, o', stream, |content|) && WriterOk(pc, snap, h, o', t, stream, content)
  {
  }

  /** ... and a byte copied to a position outside its own reservation. */
  lemma ThreadCellWritten(pc: Pc, p: nat, snap: Snap, h: nat, o: nat, t: nat, stream: seq<Byte>,
                          content: seq<Byte>, content': seq<Byte>)
    requires |content'| == |content| > 0 && h <= o
    requires forall i :: h <= i < t && i != p ==> content'[Wrap(i, |content|)] == content[Wrap(i, |content|)]
    requires pc.WriteCopy? ==> !(snap.pos <= p < snap.pos + pc.len)
    requires WriterOk(pc, snap, h, o, t, stream, content)
    ensures WriterOk(pc, snap, h, o, t, stream, content')
  {
  }

  // ---------------------------------------------------------------- preservation, step by step

  lemma InitInv(content: seq<Byte>, threads: nat)
    requires 2 <= |content|
    ensures Inv(Init(content, threads))
  {
  }

  /** Thread `u` is pending in both states, over the same positions, or in neither. */
  ghost predicate SamePending(s: State, s': State, u: nat)
    requires Sized(s) && Sized(s') && u < |s.c.threads| && u < |s'.c.threads|
  {
    && s'.c.threads[u].WriteCopy? == s.c.threads[u].WriteCopy?
    && (s.c.threads[u].WriteCopy? ==> To(s', u) == To(s, u) && From(s', u) == From(s, u))
  }

  /** Steps that leave the pending writers where they are keep the queue. */
  lemma QueueFrame(s: State, s': State)
    requires Sized(s) && QueueMembers(s) && QueueTiles(s) && Sized(s') && |s'.c.threads| == |s.c.threads|
    requires s'.x.queue == s.x.queue && s'.x.o == s.x.o && s'.x.t == s.x.t
    requires forall u :: 0 <= u < |s.c.threads| ==> SamePending(s, s', u)
    ensures QueueMembers(s') && QueueTiles(s')
  {
    var q := s.x.queue;
    assert forall i :: 0 <= i < |q| ==> SamePending(s, s', q[i]);
    forall w | 0 <= w < |s'.c.threads| && s'.c.threads[w].WriteCopy? ensures w in q {
      assert SamePending(s, s', w);
    }
  }

  /** Steps that touch neither shared words nor cells nor logs keep everything but one thread. */
  lemma LocalStepInv(s: State, s': State, t: nat)
    requires Inv(s) && Formed(s')
    requires s'.c.mem == s.c.mem && |s'.c.threads| == |s.c.threads| && t < |s.c.threads|
    requires s'.x.h == s.x.h && s'.x.o == s.x.o && s'.x.t == s.x.t
    requires s'.x.accepted == s.x.accepted && s'.x.delivered == s.x.delivered && s'.x.queue == s.x.queue
    requires forall u :: 0 <= u < |s.c.threads| && u != t ==>
               s'.c.threads[u] == s.c.threads[u] && s'.x.snaps[u] == s.x.snaps[u]
    requires !s.c.threads[t].WriteCopy? && !s'.c.threads[t].WriteCopy?
    requires ReaderOk(s'.c.threads[t], s'.x.snaps[t], s.x.h, s.x.o, Stream(s.x), s.c.Cap())
    requires WriterOk(s'.c.threads[t], s'.x.snaps[t], s.x.h, s.x.o, s.x.t, Stream(s.x), s.c.mem.content)
    ensures Inv(s')
  {
    QueueFrame(s, s');
    forall u | 0 <= u < |s.c.threads| ensures ThreadOk(s', u) {
      assert ThreadOk(s, u);
    }
  }

  lemma StartInv(s: State, a: Action)
    requires Inv(s) && Enabled(s.c, a) && (a.StartRead? || a.StartWrite?)
    ensures Inv(Step(s, a))
  {
    assert ThreadOk(s, a.t);
    LocalStepInv(s, Step(s, a), a.t);
  }

  /** Loading `oldtail`: a reader whose head value is still current sees exactly what is unread. */
  lemma LoadOldtailOk(mem: Memory, x: History, pc: Pc, snap: Snap)
    requires |mem.content| > 0 && WordsOk(mem, x) && |Stream(x)| == x.t
    requires pc.ReadHead? && PcFits(pc, |mem.content|)
    requires ReaderOk(pc, snap, x.h, x.o, Stream(x), |mem.content|)
    ensures ReaderOk(LoadPc(mem, pc), snap.(pos := x.o), x.h, x.o, Stream(x), |mem.content|)
  {
    if snap.head == x.h { ReadSizeIsDistance(x.h, x.o, |mem.content|); }
  }

  /** Loading `tail`: the length is cut to the room computed from the two loaded words. */
  lemma LoadTailOk(mem: Memory, x: History, pc: Pc, snap: Snap)
    requires |mem.content| > 0 && WordsOk(mem, x)
    requires pc.WriteHead? && PcFits(pc, |mem.content|)
    requires WriterOk(pc, snap, x.h, x.o, x.t, Stream(x), mem.content)
    ensures WriterOk(LoadPc(mem, pc), snap.(pos := x.t), x.h, x.o, x.t, Stream(x), mem.content)
  {
  }

  lemma LoadInv(s: State, t: nat)
    requires Inv(s) && Enabled(s.c, Load(t))
    ensures Inv(Step(s, Load(t)))
  {
    var pc, snap := s.c.threads[t], s.x.snaps[t];
    assert ThreadOk(s, t);
    if pc.ReadHead? {
      LoadOldtailOk(s.c.mem, s.x, pc, snap);
    } else if pc.WriteHead? {
      LoadTailOk(s.c.mem, s.x, pc, snap);
    }
    LocalStepInv(s, Step(s, Load(t)), t);
  }

  /** A reader whose head value is current copies a byte of the stream. */
  lemma ByteRead(pc: Pc, k: nat, snap: Snap, h: nat, o: nat, stream: seq<Byte>, content: seq<Byte>)
    requires |content| > 0 && pc.ReadCopy? && k < pc.len < |content| && pc.head < |content|
    requires ReaderOk(pc, snap, h, o, stream, |content|) && Holds(content, stream, h, o)
    ensures var byte := content[Slot(pc.head, pc.len, k, |content|)];
      ReaderOk(pc.(buf := pc.buf[k := byte]), snap, h, o, stream, |content|)
  {
    SlotIsResidue(snap.head, pc.len, k, |content|);
    if snap.head == h { assert h <= h + k < o; }
  }

  lemma ReadByteInv(s: State, t: nat, k: nat)
    requires Inv(s) && Enabled(s.c, Copy(t, k)) && s.c.threads[t].ReadCopy?
    ensures Inv(Step(s, Copy(t, k)))
  {
    var x, snap, pc := s.x, s.x.snaps[t], s.c.threads[t];
    assert ThreadOk(s, t);
    ByteRead(pc, k, snap, x.h, x.o, Stream(x), s.c.mem.content);
    LocalStepInv(s, Step(s, Copy(t, k)), t);
  }

  /** Where a pending reservation lies. */
  lemma PendingPlace(s: State, w: nat)
    requires Inv(s) && w < |s.c.threads| && s.c.threads[w].WriteCopy?
    ensures s.x.h <= s.x.o <= From(s, w) && To(s, w) <= s.x.t < s.x.h + s.c.Cap()
    ensures s.c.threads[w].tail == Wrap(From(s, w), s.c.Cap()) && 0 < s.c.threads[w].len < s.c.Cap()
  {
    assert ThreadOk(s, w);
  }

  /** Two positions in one lap have different cells. */
  lemma CellsDiffer(i: nat, p: nat, h: nat, n: nat)
    requires n > 0 && h <= i < h + n && h <= p < h + n && i != p
    ensures Wrap(i, n) != Wrap(p, n)
  {
    if Wrap(i, n) == Wrap(p, n) {
      if i <= p { WrapInjective(i, p, n); } else { WrapInjective(p, i, n); }
    }
  }

  /** A byte copied into a reservation leaves every other position's cell alone. */
  lemma WriteByteCells(s: State, t: nat, k: nat)
    requires Inv(s) && Enabled(s.c, Copy(t, k)) && s.c.threads[t].WriteCopy?
    ensures var (n, p, content') := (s.c.Cap(), From(s, t) + k, Step(s, Copy(t, k)).c.mem.content);
      && s.x.o <= p < s.x.t
      && content'[Wrap(p, n)] == s.c.threads[t].input[k]
      && forall i :: s.x.h <= i < s.x.t && i != p ==> content'[Wrap(i, n)] == s.c.mem.content[Wrap(i, n)]
  {
    PendingPlace(s, t);
    OneCellWritten(s.c.mem.content, s.c.threads[t], s.x.snaps[t].pos, k, s.x.h, s.x.t);
  }

  lemma OneCellWritten(content: seq<Byte>, pc: Pc, from: nat, k: nat, h: nat, t: nat)
    requires pc.WriteCopy? && k < pc.len < |content| && pc.len <= |pc.input|
    requires pc.tail == Wrap(from, |content|)
    requires h <= from && from + pc.len <= t < h + |content|
    ensures var (n, p) := (|content|, from + k);
      var content' := content[Slot(pc.tail, pc.len, k, n) := pc.input[k]];
      && content'[Wrap(p, n)] == pc.input[k]
      && forall i :: h <= i < t && i != p ==> content'[Wrap(i, n)] == content[Wrap(i, n)]
  {
    var n, p := |content|, from + k;
    SlotIsResidue(from, pc.len, k, n);
    forall i | h <= i < t && i != p ensures Wrap(i, n) != Wrap(p, n) {
      CellsDiffer(i, p, h, n);
    }
  }

  /** The copier itself: one more of its cells holds its byte. */
  lemma SelfCellWritten(pc: Pc, k: nat, snap: Snap, h: nat, o: nat, t: nat, stream: seq<Byte>,
                        content: seq<Byte>, content': seq<Byte>)
    requires |content'| == |content| > 0 && h <= o
    requires pc.WriteCopy? && k < pc.len && WriterOk(pc, snap, h, o, t, stream, content)
    requires content'[Wrap(snap.pos + k, |content|)] == pc.input[k]
    requires forall i :: h <= i < t && i != snap.pos + k ==> content'[Wrap(i, |content|)] == content[Wrap(i, |content|)]
    ensures WriterOk(pc.(copied := pc.copied + {k}), snap, h, o, t, stream, content')
  {
    var pc' := pc.(copied := pc.copied + {k});
    forall j | j in pc'.copied && j < pc.len ensures content'[Wrap(snap.pos + j, |content|)] == pc.input[j] {
      if j != k { assert j in pc.copied; }
    }
  }

  lemma WriteByteThread(s: State, t: nat, k: nat, u: nat)
    requires Inv(s) && Enabled(s.c, Copy(t, k)) && s.c.threads[t].WriteCopy? && u < |s.c.threads|
    ensures ThreadOk(Step(s, Copy(t, k)), u)
  {
    var s', x, pc, snap := Step(s, Copy(t, k)), s.x, s.c.threads[u], s.x.snaps[u];
    assert ThreadOk(s, u);
    WriteByteCells(s, t, k);
    if u == t {
      SelfCellWritten(pc, k, snap, x.h, x.o, x.t, Stream(x), s.c.mem.content, s'.c.mem.content);
    } else {
      if pc.WriteCopy? { PendingDisjoint(s, u, t); }
      ThreadCellWritten(pc, From(s, t) + k, snap, x.h, x.o, x.t, Stream(x), s.c.mem.content, s'.c.mem.content);
    }
  }

  lemma WriteByteThreads(s: State, t: nat, k: nat)
    requires Inv(s) && Enabled(s.c, Copy(t, k)) && s.c.threads[t].WriteCopy?
    ensures ThreadsOk(Step(s, Copy(t, k)))
  {
    var s' := Step(s, Copy(t, k));
    forall u | 0 <= u < |s.c.threads|
      ensures ThreadOk(s', u)
    {
      WriteByteThread(s, t, k, u);
    }
  }

  lemma WriteByteInv(s: State, t: nat, k: nat)
    requires Inv(s) && Enabled(s.c, Copy(t, k)) && s.c.threads[t].WriteCopy?
    ensures Inv(Step(s, Copy(t, k)))
  {
    var s' := Step(s, Copy(t, k));
    WriteByteCells(s, t, k);
    WriteByteThreads(s, t, k);
    QueueFrame(s, s');
    assert Holds(s'.c.mem.content, Stream(s.x), s.x.h, s.x.o);
  }

  lemma MissInv(s: State, t: nat)
    requires Inv(s) && Enabled(s.c, Cas(t)) && !CasHits(s.c, t)
    ensures Inv(Step(s, Cas(t)))
  {
    if s.c.threads[t].WriteCopy? {
      assert Step(s, Cas(t)) == s;
    } else {
      assert ThreadOk(s, t);
      LocalStepInv(s, Step(s, Cas(t)), t);
    }
  }

  /** Delivery: the swap on `head` succeeds, so nothing moved since the load and the buffer is
      exactly the next `len` bytes of the stream. */
  lemma DeliverFaithful(s: State, t: nat)
    requires Inv(s) && Enabled(s.c, Cas(t)) && s.c.threads[t].ReadCopy? && CasHits(s.c, t) && HeadLap(s, Cas(t))
    ensures s.x.snaps[t].head == s.x.h
    ensures var pc := s.c.threads[t];
      s.x.h + pc.len <= s.x.o <= |Stream(s.x)| && Output(pc.buf, pc.len) == Stream(s.x)[s.x.h..s.x.h + pc.len]
  {
    assert ThreadOk(s, t);
    WrapInjective(s.x.snaps[t].head, s.x.h, s.c.Cap());
  }

  lemma DeliverLogs(x: History, e: Delivered)
    requires LogsOk(x) && 0 < |e.bytes| <= e.asked
    requires x.h + |e.bytes| <= x.t && e.bytes == Stream(x)[x.h..x.h + |e.bytes|]
    ensures LogsOk(x.(h := x.h + |e.bytes|, delivered := x.delivered + [e]))
  {
    DeliveredAppend(x.delivered, e);
    assert Stream(x)[..x.h] + e.bytes == Stream(x)[..x.h + |e.bytes|];
  }

  /** The effect of a successful swap on `head`, in absolute terms. */
  function Deliver(s: State, t: nat): State
    requires Formed(s) && Enabled(s.c, Cas(t)) && s.c.threads[t].ReadCopy?
  {
    var pc := s.c.threads[t];
    State(Concrete(s.c.mem.(head := Wrap(s.x.h + pc.len, s.c.Cap())), s.c.threads[t := Idle]),
          s.x.(h := s.x.h + pc.len,
               delivered := s.x.delivered + [Delivered(t, s.x.snaps[t].asked, Output(pc.buf, pc.len))]))
  }

  lemma DeliverEffect(s: State, t: nat)
    requires Formed(s) && Enabled(s.c, Cas(t)) && s.c.threads[t].ReadCopy? && CasHits(s.c, t)
    requires s.c.mem.head == Wrap(s.x.h, s.c.Cap())
    ensures Step(s, Cas(t)) == Deliver(s, t)
  {
    NewWord(s.x.h, s.c.threads[t].len, s.c.Cap());
  }

  lemma DeliverThreads(s: State, t: nat)
    requires Formed(s) && ThreadsOk(s) && Enabled(s.c, Cas(t)) && s.c.threads[t].ReadCopy?
    ensures ThreadsOk(Deliver(s, t))
  {
    var s', x := Deliver(s, t), s.x;
    forall u | 0 <= u < |s.c.threads|
      ensures ThreadOk(s', u)
    {
      assert ThreadOk(s, u);
      if u != t {
        ThreadDelivered(s.c.threads[u], x.snaps[u], x.h, s'.x.h, x.o, x.t, Stream(x), s.c.mem.content);
      }
    }
  }

  lemma DeliverShared(s: State, t: nat)
    requires Inv(s) && Enabled(s.c, Cas(t)) && s.c.threads[t].ReadCopy? && CasHits(s.c, t) && HeadLap(s, Cas(t))
    ensures var s' := Deliver(s, t);
      Formed(s') && WordsOk(s'.c.mem, s'.x) && LogsOk(s'.x) && Holds(s'.c.mem.content, Stream(s'.x), s'.x.h, s'.x.o)
  {
    DeliverFaithful(s, t);
    assert ThreadOk(s, t);
    DeliverLogs(s.x, Delivered(t, s.x.snaps[t].asked, Output(s.c.threads[t].buf, s.c.threads[t].len)));
  }

  lemma DeliverInv(s: State, t: nat)
    requires Inv(s) && Enabled(s.c, Cas(t)) && s.c.threads[t].ReadCopy? && CasHits(s.c, t) && HeadLap(s, Cas(t))
    ensures Inv(Deliver(s, t))
  {
    DeliverShared(s, t);
    DeliverThreads(s, t);
    QueueFrame(s, Deliver(s, t));
  }

  /** Reservation: the room computed from the loaded head is room now. */
  lemma ReserveRoom(s: State, t: nat)
    requires Inv(s) && Enabled(s.c, Cas(t)) && s.c.threads[t].WriteCas? && CasHits(s.c, t) && TailLap(s, Cas(t))
    ensures s.x.t < s.x.snaps[t].head + s.c.Cap() ==> s.x.snaps[t].pos == s.x.t
    ensures s.x.t + s.c.threads[t].len < s.x.h + s.c.Cap()
  {
    var snap := s.x.snaps[t];
    assert ThreadOk(s, t);
    if s.x.t < snap.head + s.c.Cap() { WrapInjective(snap.pos, s.x.t, s.c.Cap()); }
    RoomIsSameLaps(snap.head, s.x.h, s.x.t, s.c.Cap());
  }

  lemma ReserveLogs(x: History, e: Accepted)
    requires LogsOk(x) && 0 < |e.bytes| && e.bytes <= e.input
    ensures var x' := x.(t := x.t + |e.bytes|, accepted := x.accepted + [e]);
      LogsOk(x') && Stream(x') == Stream(x) + e.bytes
  {
    AcceptedAppend(x.accepted, e);
    assert (Stream(x) + e.bytes)[..x.h] == Stream(x)[..x.h];
  }

  /** The effect of a successful swap on `tail`, in absolute terms. */
  function Reserve(s: State, t: nat): State
    requires Formed(s) && Enabled(s.c, Cas(t)) && s.c.threads[t].WriteCas?
  {
    var pc := s.c.threads[t];
    State(Concrete(s.c.mem.(tail := Wrap(s.x.t + pc.len, s.c.Cap())),
                   s.c.threads[t := WriteCopy(pc.len, pc.input, pc.tail, {})]),
          s.x.(t := s.x.t + pc.len, accepted := s.x.accepted + [Accepted(t, pc.input, pc.input[..pc.len])],
               snaps := s.x.snaps[t := s.x.snaps[t].(pos := s.x.t)], queue := s.x.queue + [t]))
  }

  lemma ReserveEffect(s: State, t: nat)
    requires Formed(s) && Enabled(s.c, Cas(t)) && s.c.threads[t].WriteCas? && CasHits(s.c, t)
    requires s.c.mem.tail == Wrap(s.x.t, s.c.Cap())
    ensures Step(s, Cas(t)) == Reserve(s, t)
  {
    NewWord(s.x.t, s.c.threads[t].len, s.c.Cap());
  }

  lemma ReserveMembers(s: State, t: nat)
    requires Formed(s) && QueueMembers(s) && Enabled(s.c, Cas(t)) && s.c.threads[t].WriteCas?
    ensures QueueMembers(Reserve(s, t)) && t !in s.x.queue
  {
    var s', q := Reserve(s, t), s.x.queue;
    var q' := s'.x.queue;
    assert forall i :: 0 <= i < |q| ==> q'[i] == q[i] && q[i] != t;
    assert q'[|q|] == t;
    forall w | 0 <= w < |s'.c.threads| && s'.c.threads[w].WriteCopy? ensures w in q' {
      if w != t { assert w in q; }
    }
  }

  lemma ReserveQueue(s: State, t: nat)
    requires Formed(s) && QueueMembers(s) && QueueTiles(s) && Enabled(s.c, Cas(t)) && s.c.threads[t].WriteCas?
    ensures var s' := Reserve(s, t); QueueMembers(s') && QueueTiles(s')
  {
    ReserveMembers(s, t);
    var s', q := Reserve(s, t), s.x.queue;
    forall i | 0 <= i < |q|
      ensures s'.x.queue[i] == q[i] && To(s', q[i]) == To(s, q[i]) && From(s', q[i]) == From(s, q[i])
    {
      assert q[i] != t;
    }
  }

  /** The reserving thread: its reservation is the new end of the stream. */
  lemma ReserveSelf(s: State, t: nat)
    requires Formed(s) && |Stream(s.x)| == s.x.t && s.x.o <= s.x.t && s.c.mem.tail == Wrap(s.x.t, s.c.Cap())
    requires ThreadsOk(s) && Enabled(s.c, Cas(t)) && s.c.threads[t].WriteCas? && CasHits(s.c, t)
    ensures var (s', x, pc) := (Reserve(s, t), s.x, s.c.threads[t]);
      WriterOk(s'.c.threads[t], s'.x.snaps[t], x.h, x.o, x.t + pc.len, Stream(x) + pc.input[..pc.len], s.c.mem.content)
  {
    assert ThreadOk(s, t);
  }

  lemma ReserveThreads(s: State, t: nat)
    requires Formed(s) && |Stream(s.x)| == s.x.t && s.x.o <= s.x.t && s.c.mem.tail == Wrap(s.x.t, s.c.Cap())
    requires ThreadsOk(s) && Enabled(s.c, Cas(t)) && s.c.threads[t].WriteCas? && CasHits(s.c, t)
    requires Stream(Reserve(s, t).x) == Stream(s.x) + s.c.threads[t].input[..s.c.threads[t].len]
    ensures ThreadsOk(Reserve(s, t))
  {
    var s', x, pc := Reserve(s, t), s.x, s.c.threads[t];
    var more := pc.input[..pc.len];
    forall u | 0 <= u < |s.c.threads|
      ensures ThreadOk(s', u)
    {
      assert ThreadOk(s, u);
      if u == t {
        ReserveSelf(s, t);
      } else {
        ThreadReserved(s.c.threads[u], x.snaps[u], x.h, x.o, x.t, Stream(x), more, s.c.mem.content);
      }
    }
  }

  lemma ReserveShared(s: State, t: nat)
    requires Inv(s) && Enabled(s.c, Cas(t)) && s.c.threads[t].WriteCas?
    requires s.x.t + s.c.threads[t].len < s.x.h + s.c.Cap()
    ensures var (s', pc) := (Reserve(s, t), s.c.threads[t]);
      && Formed(s') && WordsOk(s'.c.mem, s'.x) && LogsOk(s'.x)
      && Stream(s'.x) == Stream(s.x) + pc.input[..pc.len]
      && Holds(s'.c.mem.content, Stream(s'.x), s'.x.h, s'.x.o)
  {
    var pc := s.c.threads[t];
    ReserveLogs(s.x, Accepted(t, pc.input, pc.input[..pc.len]));
  }

  lemma ReserveInv(s: State, t: nat)
    requires Inv(s) && Enabled(s.c, Cas(t)) && s.c.threads[t].WriteCas? && CasHits(s.c, t)
    requires s.x.t + s.c.threads[t].len < s.x.h + s.c.Cap()
    ensures Inv(Reserve(s, t))
  {
    ReserveShared(s, t);
    ReserveQueue(s, t);
    ReserveThreads(s, t);
  }

  /** Only the oldest reservation can pass the swap on `oldtail`. */
  lemma PublisherIsOldest(s: State, w: nat)
    requires Inv(s) && w < |s.c.threads| && s.c.threads[w].WriteCopy?
    ensures s.x.queue != []
    ensures s.c.threads[w].tail == s.c.mem.oldtail <==> w == s.x.queue[0]
  {
    var n, q := s.c.Cap(), s.x.queue;
    assert ThreadOk(s, w);
    var i :| 0 <= i < |q| && q[i] == w;
    if 0 < i {
      QueueOrder(s, 0, i);
      if Wrap(From(s, w), n) == Wrap(s.x.o, n) { WrapInjective(s.x.o, From(s, w), n); }
    }
  }

  /** The effect of a successful swap on `oldtail`, in absolute terms. */
  function Publish(s: State, t: nat): State
    requires Formed(s) && Enabled(s.c, Cas(t)) && s.c.threads[t].WriteCopy? && s.x.queue != []
  {
    var pc := s.c.threads[t];
    State(Concrete(s.c.mem.(oldtail := Wrap(s.x.o + pc.len, s.c.Cap())), s.c.threads[t := Idle]),
          s.x.(o := s.x.o + pc.len, queue := s.x.queue[1..]))
  }

  lemma PublishEffect(s: State, t: nat)
    requires Formed(s) && Enabled(s.c, Cas(t)) && s.c.threads[t].WriteCopy? && CasHits(s.c, t) && s.x.queue != []
    requires s.c.mem.oldtail == Wrap(s.x.o, s.c.Cap())
    ensures Step(s, Cas(t)) == Publish(s, t)
  {
    NewWord(s.x.o, s.c.threads[t].len, s.c.Cap());
  }

  /** The writers behind the publisher start at or after its end. */
  lemma PublishBehind(s: State, t: nat, u: nat)
    requires Sized(s) && QueueMembers(s) && QueueTiles(s) && s.x.queue != [] && s.x.queue[0] == t
    requires u < |s.c.threads| && u != t && s.c.threads[u].WriteCopy?
    ensures u in s.x.queue[1..] && To(s, t) <= From(s, u)
  {
    var q := s.x.queue;
    var i :| 0 <= i < |q| && q[i] == u;
    assert q[1..][i - 1] == u;
    QueueOrder(s, 0, i);
  }

  lemma PublishMembers(s: State, t: nat)
    requires Formed(s) && QueueMembers(s) && QueueTiles(s) && s.x.queue != [] && s.x.queue[0] == t
    requires Enabled(s.c, Cas(t))
    ensures QueueMembers(Publish(s, t))
  {
    var s' := Publish(s, t);
    forall u | 0 <= u < |s'.c.threads| && s'.c.threads[u].WriteCopy? ensures u in s'.x.queue {
      PublishBehind(s, t, u);
    }
  }

  lemma PublishTiles(s: State, t: nat)
    requires Formed(s) && QueueMembers(s) && QueueTiles(s) && s.x.queue != [] && s.x.queue[0] == t
    requires Enabled(s.c, Cas(t)) && QueueMembers(Publish(s, t))
    ensures QueueTiles(Publish(s, t))
  {
    var s', q := Publish(s, t), s.x.queue;
    forall i | 0 <= i < |q| - 1
      ensures To(s', q[1..][i]) == To(s, q[i + 1]) && From(s', q[1..][i]) == From(s, q[i + 1])
    {
      assert q[i + 1] != q[0];
    }
  }

  lemma PublishQueue(s: State, t: nat)
    requires Formed(s) && QueueMembers(s) && QueueTiles(s) && s.x.queue != [] && s.x.queue[0] == t
    requires Enabled(s.c, Cas(t))
    ensures QueueMembers(Publish(s, t)) && QueueTiles(Publish(s, t))
  {
    PublishMembers(s, t);
    PublishTiles(s, t);
  }

  /** The publisher has copied every byte of its reservation. */
  lemma PublishHolds(pc: Pc, snap: Snap, h: nat, o: nat, t: nat, stream: seq<Byte>, content: seq<Byte>)
    requires |content| > 0 && pc.WriteCopy? && pc.Complete() && snap.pos == o
    requires WriterOk(pc, snap, h, o, t, stream, content) && Holds(content, stream, h, o)
    ensures Holds(content, stream, h, o + pc.len)
  {
    forall i | o <= i < o + pc.len ensures content[Wrap(i, |content|)] == stream[i] {
      var k := i - o;
      assert k in pc.copied;
      assert content[Wrap(snap.pos + k, |content|)] == pc.input[k];
      assert stream[o..o + pc.len][k] == pc.input[..pc.len][k];
    }
  }

  lemma PublishThreads(s: State, t: nat)
    requires Inv(s) && Enabled(s.c, Cas(t)) && s.c.threads[t].WriteCopy? && s.x.queue != [] && s.x.queue[0] == t
    ensures ThreadsOk(Publish(s, t))
  {
    var s', x := Publish(s, t), s.x;
    assert ThreadOk(s, t);
    forall u | 0 <= u < |s.c.threads|
      ensures ThreadOk(s', u)
    {
      assert ThreadOk(s, u);
      if u != t {
        if s.c.threads[u].WriteCopy? { PublishBehind(s, t, u); }
        ThreadPublished(s.c.threads[u], x.snaps[u], x.h, x.o, s'.x.o, x.t, Stream(x), s.c.mem.content);
      }
    }
  }

  lemma PublishWords(s: State, t: nat)
    requires Formed(s) && WordsOk(s.c.mem, s.x) && Enabled(s.c, Cas(t)) && s.c.threads[t].WriteCopy?
    requires s.x.queue != [] && s.x.o + s.c.threads[t].len <= s.x.t
    ensures Formed(Publish(s, t)) && WordsOk(Publish(s, t).c.mem, Publish(s, t).x)
  {
  }

  lemma PublishShared(s: State, t: nat)
    requires Inv(s) && Enabled(s.c, Cas(t)) && s.c.threads[t].WriteCopy? && s.x.queue != [] && s.x.queue[0] == t
    ensures var s' := Publish(s, t);
      Formed(s') && WordsOk(s'.c.mem, s'.x) && LogsOk(s'.x) && Holds(s'.c.mem.content, Stream(s'.x), s'.x.h, s'.x.o)
  {
    assert ThreadOk(s, t);
    PublishWords(s, t);
    PublishHolds(s.c.threads[t], s.x.snaps[t], s.x.h, s.x.o, s.x.t, Stream(s.x), s.c.mem.content);
  }

  lemma PublishInv(s: State, t: nat)
    requires Inv(s) && Enabled(s.c, Cas(t)) && s.c.threads[t].WriteCopy? && s.x.queue != [] && s.x.queue[0] == t
    ensures Inv(Publish(s, t))
  {
    PublishShared(s, t);
    PublishQueue(s, t);
    PublishThreads(s, t);
  }

  /** Every step keeps the invariant. */
  lemma StepInv(s: State, a: Action)
    requires Inv(s) && Enabled(s.c, a) && TailRoom(s, a) && HeadLap(s, a)
    ensures Inv(Step(s, a))
  {
    match a {
      case StartRead(_, _) => StartInv(s, a);
      case StartWrite(_, _) => StartInv(s, a);
      case Load(t) => LoadInv(s, t);
      case Copy(t, k) => if s.c.threads[t].ReadCopy? { ReadByteInv(s, t, k); } else { WriteByteInv(s, t, k); }
      case Cas(t) =>
        if !CasHits(s.c, t) { MissInv(s, t); }
        else {
          match s.c.threads[t] {
            case ReadCopy(_, _, _) => DeliverInv(s, t); DeliverEffect(s, t);
            case WriteCas(_, _, _) => ReserveInv(s, t); ReserveEffect(s, t);
            case WriteCopy(_, _, _, _) => PublisherIsOldest(s, t); PublishInv(s, t); PublishEffect(s, t);
          }
        }
    }
  }
}
