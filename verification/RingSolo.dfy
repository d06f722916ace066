/**
  A call that runs without interference does exactly what the sequential ring does.
*/
module RingSolo {
  import opened Residues
  import opened RingProtocol
  import opened RingInvariant
  import opened RingRuns
  import ByteRing

  ghost function View(s: State): ByteRing.Ring
    requires Formed(s)
  {
    ByteRing.Ring(s.c.mem.head, s.c.mem.tail, s.c.mem.content)
  }

  /** No reservation is pending. */
  ghost predicate Quiet(s: State) { Inv(s) && s.x.queue == [] }

  /** Every thread but `t` is where it was. */
  ghost predicate OthersSame(s: State, s': State, t: nat) {
    && |s'.c.threads| == |s.c.threads| && |s'.x.snaps| == |s.x.snaps| == |s.c.threads|
    && forall u :: 0 <= u < |s.c.threads| && u != t ==>
         s'.c.threads[u] == s.c.threads[u] && s'.x.snaps[u] == s.x.snaps[u]
  }

  ghost predicate By(acts: seq<Action>, t: nat) {
    forall a :: a in acts ==> a.t == t
  }

  // ---------------------------------------------------------------- copy loops

  lemma SlotIsAround(start: nat, len: nat, k: nat, n: nat)
    requires start < n && k < len < n
    ensures Slot(start, len, k, n) == ByteRing.Around(start + k, n)
  {
  }

  /** One more byte of a block. */
  lemma BlockGrows(data: seq<Byte>, at: nat, bytes: seq<Byte>, i: nat)
    requires at < |data| && i < |bytes| < |data|
    ensures ByteRing.BlockWrite(data, at, bytes[..i])[ByteRing.Around(at + i, |data|) := bytes[i]]
         == ByteRing.BlockWrite(data, at, bytes[..i + 1])
  {
    var grown := ByteRing.BlockWrite(data, at, bytes[..i])[ByteRing.Around(at + i, |data|) := bytes[i]];
    forall j | 0 <= j < |data| ensures grown[j] == ByteRing.BlockWrite(data, at, bytes[..i + 1])[j] {
      ByteRing.BlockWriteCell(data, at, bytes[..i], j);
      ByteRing.BlockWriteCell(data, at, bytes[..i + 1], j);
    }
  }

  ghost predicate Upto(done: set<nat>, i: nat) {
    forall k: nat :: k in done <==> k < i
  }

  /** A lone writer has copied bytes `..i` of its input over `data`. */
  ghost predicate CopiedIn(s: State, t: nat, i: nat, data: seq<Byte>)
    requires Formed(s)
  {
    && t < |s.c.threads| && s.c.threads[t].WriteCopy? && |data| == s.c.Cap()
    && i <= s.c.threads[t].len && Upto(s.c.threads[t].copied, i)
    && s.c.mem.content == ByteRing.BlockWrite(data, s.c.threads[t].tail, s.c.threads[t].input[..i])
  }

  lemma SoloCopyInStep(s: State, t: nat, i: nat, data: seq<Byte>)
    requires Formed(s) && CopiedIn(s, t, i, data) && i < s.c.threads[t].len
    ensures Enabled(s.c, Copy(t, i))
    ensures var s' := Step(s, Copy(t, i));
      && CopiedIn(s', t, i + 1, data) && s'.x == s.x && OthersSame(s, s', t)
      && s'.c.mem == s.c.mem.(content := s'.c.mem.content)
      && s'.c.threads[t] == s.c.threads[t].(copied := s'.c.threads[t].copied)
  {
    var pc := s.c.threads[t];
    SlotIsAround(pc.tail, pc.len, i, s.c.Cap());
    BlockGrows(data, pc.tail, pc.input[..pc.len], i);
    assert pc.input[..pc.len][..i] == pc.input[..i] && pc.input[..pc.len][..i + 1] == pc.input[..i + 1];
  }

  /** The writer's copy loop, from byte `i` on, with nobody else running. */
  lemma {:induction false} SoloCopyIn(s: State, t: nat, i: nat, data: seq<Byte>) returns (acts: seq<Action>)
    requires Formed(s) && CopiedIn(s, t, i, data)
    ensures Legal(s, acts) && By(acts, t) && (forall a :: a in acts ==> a.Copy?)
    ensures var (s', pc) := (Exec(s, acts), s.c.threads[t]);
      && CopiedIn(s', t, pc.len, data) && s'.x == s.x && OthersSame(s, s', t)
      && s'.c.mem == s.c.mem.(content := s'.c.mem.content)
      && s'.c.threads[t] == pc.(copied := s'.c.threads[t].copied)
    decreases s.c.threads[t].len - i
  {
    acts := [];
    if i < s.c.threads[t].len {
      SoloCopyInStep(s, t, i, data);
      var rest := SoloCopyIn(Step(s, Copy(t, i)), t, i + 1, data);
      ExecCons(s, Copy(t, i), rest);
      acts := [Copy(t, i)] + rest;
    }
  }

  /** The reader's copy loop. */
  lemma {:induction false} SoloCopyOut(s: State, t: nat, i: nat) returns (acts: seq<Action>)
    requires Formed(s) && t < |s.c.threads| && s.c.threads[t].ReadCopy?
    requires i <= s.c.threads[t].len && Upto(s.c.threads[t].buf.Keys, i)
    ensures Legal(s, acts) && By(acts, t) && (forall a :: a in acts ==> a.Copy?)
    ensures var (s', pc) := (Exec(s, acts), s.c.threads[t]);
      && s'.x == s.x && OthersSame(s, s', t) && s'.c.mem == s.c.mem
      && s'.c.threads[t].ReadCopy? && s'.c.threads[t].len == pc.len && s'.c.threads[t].head == pc.head
      && s'.c.threads[t].Complete()
    decreases s.c.threads[t].len - i
  {
    acts := [];
    var pc := s.c.threads[t];
    if i < pc.len {
      var s1 := Step(s, Copy(t, i));
      assert s1.c.threads[t].buf.Keys == pc.buf.Keys + {i};
      var rest := SoloCopyOut(s1, t, i + 1);
      ExecCons(s, Copy(t, i), rest);
      acts := [Copy(t, i)] + rest;
    }
  }

  // ---------------------------------------------------------------- whole calls

  /** What a lone writer's two loads lead to. */
  ghost function WriterLoaded(s: State, t: nat, input: seq<Byte>): State
    requires Formed(s) && t < |s.c.threads|
  {
    var k := Min(WriteSize(s.c.mem.head, s.c.mem.tail, s.c.Cap()), |input|);
    State(s.c.(threads := s.c.threads[t := if k == 0 then Idle else WriteCas(k, input, s.c.mem.tail)]),
          s.x.(snaps := s.x.snaps[t := Snap(s.x.h, s.x.t, |input|)]))
  }

  lemma ThenOne(s: State, acts: seq<Action>, a: Action)
    requires Formed(s) && Legal(s, acts) && Enabled(Exec(s, acts).c, a)
    ensures Legal(s, acts + [a]) && Exec(s, acts + [a]) == Step(Exec(s, acts), a)
  {
    ExecCons(Exec(s, acts), a, []);
    assert [a] + [] == [a];
    ExecAppend(s, acts, [a]);
  }

  lemma ThreeSteps(s: State, a: Action, b: Action, c: Action)
    requires Formed(s) && Enabled(s.c, a) && Enabled(Step(s, a).c, b) && Enabled(Step(Step(s, a), b).c, c)
    ensures Legal(s, [a, b, c]) && Exec(s, [a, b, c]) == Step(Step(Step(s, a), b), c)
  {
    ThenOne(s, [], a);
    assert [] + [a] == [a];
    ThenOne(s, [a], b);
    assert [a] + [b] == [a, b];
    ThenOne(s, [a, b], c);
    assert [a, b] + [c] == [a, b, c];
  }

  lemma SoloWriterLoads(s: State, t: nat, input: seq<Byte>)
    requires Formed(s) && t < |s.c.threads| && s.c.threads[t].Idle?
    ensures Legal(s, [StartWrite(t, input), Load(t), Load(t)])
    ensures Exec(s, [StartWrite(t, input), Load(t), Load(t)]) == WriterLoaded(s, t, input)
  {
    var s1 := Step(s, StartWrite(t, input));
    var s2 := Step(s1, Load(t));
    assert s2.c == s.c.(threads := s.c.threads[t := WriteHead(|input|, input, s.c.mem.head)]);
    assert s2.x == s.x.(snaps := s.x.snaps[t := Snap(s.x.h, 0, |input|)]);
    ThreeSteps(s, StartWrite(t, input), Load(t), Load(t));
  }

  lemma {:induction false} NoLaps(s: State, acts: seq<Action>)
    requires Formed(s) && Legal(s, acts)
    requires forall a :: a in acts ==> !a.Cas?
    ensures TailRooms(s, acts) && HeadLaps(s, acts)
    decreases |acts|
  {
    if acts != [] { NoLaps(Step(s, acts[0]), acts[1..]); }
  }

  lemma SoloWriterStart(s: State, t: nat, input: seq<Byte>)
    requires Inv(s) && t < |s.c.threads| && s.c.threads[t].Idle?
    ensures Legal(s, [StartWrite(t, input), Load(t), Load(t)])
    ensures Exec(s, [StartWrite(t, input), Load(t), Load(t)]) == WriterLoaded(s, t, input)
    ensures Inv(WriterLoaded(s, t, input))
  {
    var loads := [StartWrite(t, input), Load(t), Load(t)];
    SoloWriterLoads(s, t, input);
    NoLaps(s, loads);
    RunInv(s, loads, t, t);
  }

  /** `rb_write` up to its reservation: both loads and the swap on `tail`. */
  lemma SoloReserve(s: State, t: nat, input: seq<Byte>) returns (acts: seq<Action>)
    requires Quiet(s) && t < |s.c.threads| && s.c.threads[t].Idle? && input != [] && s.x.t < s.x.h + s.c.Cap() - 1
    ensures Legal(s, acts) && By(acts, t) && (forall a :: a in acts ==> !a.StartRead?)
    ensures var k := Min(s.x.h + s.c.Cap() - 1 - s.x.t, |input|);
      Inv(Exec(s, acts)) && Exec(s, acts) == Reserved(s, t, input, k)
  {
    WriteSizeIsRoom(s.x.h, s.x.t, s.c.Cap());
    var loads := [StartWrite(t, input), Load(t), Load(t)];
    SoloWriterStart(s, t, input);
    var s3 := WriterLoaded(s, t, input);
    ReserveInv(s3, t);
    ReserveEffect(s3, t);
    ThenOne(s, loads, Cas(t));
    acts := loads + [Cas(t)];
  }

  /** The state after a lone writer's reservation of `k` bytes. */
  ghost function Reserved(s: State, t: nat, input: seq<Byte>, k: nat): State
    requires Formed(s) && t < |s.c.threads| && k <= |input|
  {
    State(Concrete(s.c.mem.(tail := Wrap(s.x.t + k, s.c.Cap())),
                   s.c.threads[t := WriteCopy(k, input, s.c.mem.tail, {})]),
          s.x.(t := s.x.t + k, accepted := s.x.accepted + [Accepted(t, input, input[..k])],
               snaps := s.x.snaps[t := Snap(s.x.h, s.x.t, |input|)], queue := [t]))
  }

  // ---------------------------------------------------------------- a write without interference

  ghost function Written(s: State, t: nat, input: seq<Byte>, k: nat): State
    requires Formed(s) && t < |s.c.threads| && k <= |input| && k < s.c.Cap()
  {
    var tail := Wrap(s.x.t + k, s.c.Cap());
    State(s.c.(mem := Memory(s.c.mem.head, tail, tail, ByteRing.BlockWrite(s.c.mem.content, s.c.mem.tail, input[..k]))),
          s.x.(t := s.x.t + k, o := s.x.t + k, accepted := s.x.accepted + [Accepted(t, input, input[..k])],
               snaps := s.x.snaps[t := Snap(s.x.h, s.x.t, |input|)]))
  }

  /** A lone writer has copied all `k` bytes of its reservation. */
  ghost predicate CopiedAll(s: State, s2: State, t: nat, input: seq<Byte>, k: nat)
    requires Formed(s) && t < |s.c.threads| && k <= |input|
  {
    && Formed(s2) && CopiedIn(s2, t, k, s.c.mem.content) && s2.x == Reserved(s, t, input, k).x
    && s2.c.mem == Reserved(s, t, input, k).c.mem.(content := s2.c.mem.content) && OthersSame(s, s2, t)
    && s2.c.threads[t] == WriteCopy(k, input, s.c.mem.tail, s2.c.threads[t].copied)
  }

  lemma PublishWritten(s: State, s2: State, t: nat, input: seq<Byte>, k: nat)
    requires Formed(s) && t < |s.c.threads| && s.c.threads[t].Idle? && k <= |input| && 0 < k < s.c.Cap()
    requires s.x.queue == [] && s.x.o == s.x.t
    requires CopiedAll(s, s2, t, input, k)
    ensures Publish(s2, t) == Written(s, t, input, k)
  {
    assert s2.c.threads[t := Idle] == s.c.threads;
  }

  lemma SoloCopyAll(s: State, t: nat, input: seq<Byte>, k: nat) returns (copies: seq<Action>)
    requires Formed(s) && t < |s.c.threads| && k <= |input| && 0 < k < s.c.Cap()
    requires Inv(Reserved(s, t, input, k))
    ensures Legal(Reserved(s, t, input, k), copies) && By(copies, t) && (forall a :: a in copies ==> !a.StartRead?)
    ensures var s2 := Exec(Reserved(s, t, input, k), copies); Inv(s2) && CopiedAll(s, s2, t, input, k)
  {
    var s1 := Reserved(s, t, input, k);
    assert ByteRing.BlockWrite(s.c.mem.content, s.c.mem.tail, input[..0]) == s.c.mem.content;
    copies := SoloCopyIn(s1, t, 0, s.c.mem.content);
    CopiesInv(s1, copies, t);
  }

  lemma CopiesInv(s: State, acts: seq<Action>, t: nat)
    requires Inv(s) && Legal(s, acts) && forall a :: a in acts ==> a.Copy?
    ensures Inv(Exec(s, acts))
  {
    NoLaps(s, acts);
    RunInv(s, acts, t, t);
  }

  /** The copy loop and the publication that end a lone write. */
  lemma SoloPublish(s: State, t: nat, input: seq<Byte>, k: nat) returns (acts: seq<Action>)
    requires Quiet(s) && t < |s.c.threads| && s.c.threads[t].Idle? && k <= |input| && 0 < k < s.c.Cap()
    requires Inv(Reserved(s, t, input, k))
    ensures Legal(Reserved(s, t, input, k), acts) && By(acts, t) && (forall a :: a in acts ==> !a.StartRead?)
    ensures Exec(Reserved(s, t, input, k), acts) == Written(s, t, input, k) && Inv(Written(s, t, input, k))
  {
    var s1 := Reserved(s, t, input, k);
    var copies := SoloCopyAll(s, t, input, k);
    PublishWritten(s, Exec(s1, copies), t, input, k);
    LonePublish(Exec(s1, copies), t);
    ThenOne(s1, copies, Cas(t));
    acts := copies + [Cas(t)];
  }

  lemma LonePublish(s: State, t: nat)
    requires Inv(s) && s.x.queue == [t] && Enabled(s.c, Cas(t))
    ensures s.c.threads[t].WriteCopy? && Step(s, Cas(t)) == Publish(s, t) && Inv(Publish(s, t))
  {
    PublisherIsOldest(s, t);
    PublishEffect(s, t);
    PublishInv(s, t);
  }

  lemma WrittenIsFastWrite(s: State, t: nat, input: seq<Byte>)
    requires Quiet(s) && t < |s.c.threads|
    ensures var (k, res) := (Min(s.x.h + s.c.Cap() - 1 - s.x.t, |input|), ByteRing.FastWrite(View(s), input));
      && k < s.c.Cap() && k == Min(WriteSize(s.c.mem.head, s.c.mem.tail, s.c.Cap()), |input|)
      && res.1 == k && View(Written(s, t, input, k)) == res.0
  {
    WriteSizeIsRoom(s.x.h, s.x.t, s.c.Cap());
    var k := Min(s.x.h + s.c.Cap() - 1 - s.x.t, |input|);
    WrapAdd(s.x.t, k, s.c.Cap());
    if k == 0 {
      assert ByteRing.BlockWrite(s.c.mem.content, s.c.mem.tail, input[..0]) == s.c.mem.content;
    }
  }

  /** A lone call that takes or gives nothing. */
  lemma SoloNothing(s: State, t: nat, s': State)
    requires Quiet(s) && t < |s.c.threads| && s.c.threads[t].Idle? && Inv(s') && |s'.x.snaps| == |s.x.snaps|
    requires s'.c == s.c && s'.x == s.x.(snaps := s'.x.snaps)
    requires forall u :: 0 <= u < |s.c.threads| && u != t ==> s'.x.snaps[u] == s.x.snaps[u]
    ensures Quiet(s') && OthersSame(s, s', t) && View(s') == View(s)
  {
  }

  /** What a lone write leaves behind, in terms of the sequential write. */
  ghost predicate WriteDone(s: State, s': State, t: nat, input: seq<Byte>)
    requires Formed(s) && t < |s.c.threads|
  {
    var res := ByteRing.FastWrite(View(s), input);
    && Quiet(s') && OthersSame(s, s', t) && s'.c.threads[t].Idle?
    && View(s') == res.0
    && s'.x.accepted == s.x.accepted + (if res.1 == 0 then [] else [Accepted(t, input, input[..res.1])])
    && s'.x.t == s.x.t + res.1 && s'.x.h == s.x.h && s'.x.delivered == s.x.delivered
  }

  /** A lone `rb_write` is the sequential write: the same count, data area and indices, and the
      bytes it took are the next entry of the log. */
  lemma SoloWrite(s: State, t: nat, input: seq<Byte>) returns (acts: seq<Action>)
    requires Quiet(s) && t < |s.c.threads| && s.c.threads[t].Idle?
    ensures Legal(s, acts) && By(acts, t) && WriteDone(s, Exec(s, acts), t, input)
    ensures forall a :: a in acts ==> !a.StartRead?
  {
    var k := Min(s.x.h + s.c.Cap() - 1 - s.x.t, |input|);
    WrittenIsFastWrite(s, t, input);
    if k == 0 {
      acts := [StartWrite(t, input), Load(t), Load(t)];
      SoloWriterStart(s, t, input);
      assert s.c.threads[t := Idle] == s.c.threads;
      SoloNothing(s, t, WriterLoaded(s, t, input));
    } else {
      var reserve := SoloReserve(s, t, input);
      var publish := SoloPublish(s, t, input, k);
      ExecAppend(s, reserve, publish);
      acts := reserve + publish;
    }
  }

  // ---------------------------------------------------------------- a read without interference

  /** How much a lone reader takes. */
  function ReadLen(s: State, len: nat): nat
    requires Formed(s)
  {
    Min(ReadSize(s.c.mem.head, s.c.mem.oldtail, s.c.Cap()), len)
  }

  ghost function ReaderLoaded(s: State, t: nat, len: nat): State
    requires Formed(s) && t < |s.c.threads|
  {
    var k := ReadLen(s, len);
    State(s.c.(threads := s.c.threads[t := if k == 0 then Idle else ReadCopy(k, s.c.mem.head, map[])]),
          s.x.(snaps := s.x.snaps[t := Snap(s.x.h, s.x.o, len)]))
  }

  lemma SoloReaderLoads(s: State, t: nat, len: nat)
    requires Formed(s) && t < |s.c.threads| && s.c.threads[t].Idle?
    ensures Legal(s, [StartRead(t, len), Load(t), Load(t)])
    ensures Exec(s, [StartRead(t, len), Load(t), Load(t)]) == ReaderLoaded(s, t, len)
  {
    var s1 := Step(s, StartRead(t, len));
    var s2 := Step(s1, Load(t));
    assert s2.c == s.c.(threads := s.c.threads[t := ReadHead(len, s.c.mem.head)]);
    assert s2.x == s.x.(snaps := s.x.snaps[t := Snap(s.x.h, 0, len)]);
    ThreeSteps(s, StartRead(t, len), Load(t), Load(t));
  }

  lemma SoloReaderStart(s: State, t: nat, len: nat)
    requires Inv(s) && t < |s.c.threads| && s.c.threads[t].Idle?
    ensures Legal(s, [StartRead(t, len), Load(t), Load(t)])
    ensures Exec(s, [StartRead(t, len), Load(t), Load(t)]) == ReaderLoaded(s, t, len) && Inv(ReaderLoaded(s, t, len))
  {
    var loads := [StartRead(t, len), Load(t), Load(t)];
    SoloReaderLoads(s, t, len);
    NoLaps(s, loads);
    RunInv(s, loads, t, t);
  }

  ghost function Taken(s: State, t: nat, len: nat, k: nat): State
    requires Formed(s) && t < |s.c.threads| && s.x.h + k <= |Stream(s.x)|
  {
    State(s.c.(mem := s.c.mem.(head := Wrap(s.x.h + k, s.c.Cap()))),
          s.x.(h := s.x.h + k, delivered := s.x.delivered + [Delivered(t, len, Stream(s.x)[s.x.h..s.x.h + k])],
               snaps := s.x.snaps[t := Snap(s.x.h, s.x.o, len)]))
  }

  lemma LoneDeliver(s: State, t: nat)
    requires Inv(s) && Enabled(s.c, Cas(t)) && s.c.threads[t].ReadCopy? && CasHits(s.c, t) && HeadLap(s, Cas(t))
    ensures Step(s, Cas(t)) == Deliver(s, t) && Inv(Deliver(s, t))
    ensures var pc := s.c.threads[t];
      s.x.h + pc.len <= |Stream(s.x)| && Output(pc.buf, pc.len) == Stream(s.x)[s.x.h..s.x.h + pc.len]
  {
    DeliverFaithful(s, t);
    DeliverEffect(s, t);
    DeliverInv(s, t);
  }

  lemma DeliverLeaves(s: State, s2: State, t: nat, len: nat)
    requires Formed(s) && Formed(s2) && t < |s.c.threads| && s.c.threads[t].Idle?
    requires s2.x == ReaderLoaded(s, t, len).x && s2.c.mem == s.c.mem && OthersSame(s, s2, t)
    requires s2.c.threads[t].ReadCopy? && s2.c.threads[t].Complete()
    requires s.x.h + s2.c.threads[t].len <= |Stream(s.x)|
    requires Output(s2.c.threads[t].buf, s2.c.threads[t].len) == Stream(s.x)[s.x.h..s.x.h + s2.c.threads[t].len]
    ensures Deliver(s2, t) == Taken(s, t, len, s2.c.threads[t].len)
  {
    assert s2.c.threads[t := Idle] == s.c.threads;
  }

  /** A lone reader has copied all the bytes of its call. */
  ghost predicate CopiedOut(s: State, s2: State, t: nat, len: nat)
    requires Formed(s) && t < |s.c.threads|
  {
    && Inv(s2) && s2.x == ReaderLoaded(s, t, len).x && s2.c.mem == s.c.mem && OthersSame(s, s2, t)
    && s2.c.threads[t].ReadCopy? && s2.c.threads[t].Complete()
    && s2.c.threads[t].head == s.c.mem.head && s2.c.threads[t].len == ReadLen(s, len)
  }

  lemma SoloCopyOutAll(s: State, t: nat, len: nat) returns (copies: seq<Action>)
    requires Formed(s) && t < |s.c.threads| && Inv(ReaderLoaded(s, t, len)) && ReadLen(s, len) > 0
    ensures Legal(ReaderLoaded(s, t, len), copies) && By(copies, t) && (forall a :: a in copies ==> !a.StartWrite?)
    ensures CopiedOut(s, Exec(ReaderLoaded(s, t, len), copies), t, len)
  {
    copies := SoloCopyOut(ReaderLoaded(s, t, len), t, 0);
    CopiesInv(ReaderLoaded(s, t, len), copies, t);
  }

  /** After the copy loop the reader's swap succeeds, and its buffer is the stream's next bytes. */
  lemma DeliverTaken(s: State, s2: State, t: nat, len: nat)
    requires Formed(s) && t < |s.c.threads| && s.c.threads[t].Idle? && s.c.mem.head == Wrap(s.x.h, s.c.Cap())
    requires CopiedOut(s, s2, t, len)
    ensures Enabled(s2.c, Cas(t))
    ensures var k := ReadLen(s, len);
      && s.x.h + k <= |Stream(s.x)|
      && Step(s2, Cas(t)) == Taken(s, t, len, k) && Inv(Taken(s, t, len, k))
  {
    LoneDeliver(s2, t);
    DeliverLeaves(s, s2, t, len);
  }

  /** The copy loop and the swap that end a lone read. */
  lemma SoloDeliver(s: State, t: nat, len: nat) returns (acts: seq<Action>)
    requires Formed(s) && t < |s.c.threads| && s.c.threads[t].Idle? && s.c.mem.head == Wrap(s.x.h, s.c.Cap())
    requires Inv(ReaderLoaded(s, t, len)) && ReadLen(s, len) > 0
    ensures Legal(ReaderLoaded(s, t, len), acts) && By(acts, t) && (forall a :: a in acts ==> !a.StartWrite?)
    ensures var k := ReadLen(s, len);
      && s.x.h + k <= |Stream(s.x)|
      && Exec(ReaderLoaded(s, t, len), acts) == Taken(s, t, len, k) && Inv(Taken(s, t, len, k))
  {
    var s1 := ReaderLoaded(s, t, len);
    var copies := SoloCopyOutAll(s, t, len);
    DeliverTaken(s, Exec(s1, copies), t, len);
    ThenOne(s1, copies, Cas(t));
    acts := copies + [Cas(t)];
  }

  /** The cells at the head hold the next bytes of the stream. */
  lemma BlockIsStream(s: State, k: nat)
    requires Inv(s) && s.x.h + k <= s.x.o && k < s.c.Cap()
    ensures ByteRing.BlockRead(s.c.mem.content, s.c.mem.head, k) == Stream(s.x)[s.x.h..s.x.h + k]
  {
    forall i | 0 <= i < k
      ensures ByteRing.BlockRead(s.c.mem.content, s.c.mem.head, k)[i] == Stream(s.x)[s.x.h..s.x.h + k][i]
    {
      ByteRing.BlockReadAt(s.c.mem.content, s.c.mem.head, k, i);
      WrapAdd(s.x.h, i, s.c.Cap());
    }
  }

  lemma TakenIsFastRead(s: State, t: nat, len: nat)
    requires Quiet(s) && t < |s.c.threads|
    ensures var (k, res) := (Min(s.x.o - s.x.h, len), ByteRing.FastRead(View(s), len));
      && s.x.h + k <= |Stream(s.x)| && k == ReadLen(s, len)
      && res.1 == Stream(s.x)[s.x.h..s.x.h + k] && View(Taken(s, t, len, k)) == res.0
  {
    ReadSizeIsDistance(s.x.h, s.x.o, s.c.Cap());
    var k := Min(s.x.o - s.x.h, len);
    if k > 0 {
      WrapAdd(s.x.h, k, s.c.Cap());
      BlockIsStream(s, k);
    } else {
      assert Stream(s.x)[s.x.h..s.x.h] == [];
    }
  }

  /** What a lone read leaves behind, in terms of the sequential read. */
  ghost predicate ReadDone(s: State, s': State, t: nat, len: nat)
    requires Formed(s) && t < |s.c.threads|
  {
    var res := ByteRing.FastRead(View(s), len);
    && Quiet(s') && OthersSame(s, s', t) && s'.c.threads[t].Idle?
    && View(s') == res.0
    && s'.x.delivered == s.x.delivered + (if res.1 == [] then [] else [Delivered(t, len, res.1)])
    && s'.x.h == s.x.h + |res.1| && s'.x.t == s.x.t && s'.x.accepted == s.x.accepted
  }

  lemma ReadNothing(s: State, t: nat, len: nat)
    requires Quiet(s) && t < |s.c.threads| && s.c.threads[t].Idle? && Inv(ReaderLoaded(s, t, len))
    requires Min(s.x.o - s.x.h, len) == 0
    ensures ReadDone(s, ReaderLoaded(s, t, len), t, len)
  {
    TakenIsFastRead(s, t, len);
    assert s.c.threads[t := Idle] == s.c.threads;
    SoloNothing(s, t, ReaderLoaded(s, t, len));
  }

  lemma ReadSomething(s: State, t: nat, len: nat, k: nat)
    requires Quiet(s) && t < |s.c.threads| && s.c.threads[t].Idle? && k == Min(s.x.o - s.x.h, len) > 0
    requires s.x.h + k <= |Stream(s.x)| && Inv(Taken(s, t, len, k))
    ensures ReadDone(s, Taken(s, t, len, k), t, len)
  {
    TakenIsFastRead(s, t, len);
  }

  lemma SoloDeliverDone(s: State, t: nat, len: nat) returns (acts: seq<Action>)
    requires Quiet(s) && t < |s.c.threads| && s.c.threads[t].Idle? && Min(s.x.o - s.x.h, len) > 0
    requires Inv(ReaderLoaded(s, t, len))
    ensures Legal(ReaderLoaded(s, t, len), acts) && By(acts, t) && (forall a :: a in acts ==> !a.StartWrite?)
    ensures ReadDone(s, Exec(ReaderLoaded(s, t, len), acts), t, len)
  {
    ReadSizeIsDistance(s.x.h, s.x.o, s.c.Cap());
    acts := SoloDeliver(s, t, len);
    ReadSomething(s, t, len, Min(s.x.o - s.x.h, len));
  }

  /** A lone `rb_read` is the sequential read: the same bytes, data area and indices. */
  lemma SoloRead(s: State, t: nat, len: nat) returns (acts: seq<Action>)
    requires Quiet(s) && t < |s.c.threads| && s.c.threads[t].Idle?
    ensures Legal(s, acts) && By(acts, t) && ReadDone(s, Exec(s, acts), t, len)
    ensures forall a :: a in acts ==> !a.StartWrite?
  {
    var loads := [StartRead(t, len), Load(t), Load(t)];
    SoloReaderStart(s, t, len);
    ReadSizeIsDistance(s.x.h, s.x.o, s.c.Cap());
    var k := Min(s.x.o - s.x.h, len);
    if k == 0 {
      ReadNothing(s, t, len);
      acts := loads;
    } else {
      var deliver := SoloDeliverDone(s, t, len);
      ExecAppend(s, loads, deliver);
      acts := loads + deliver;
    }
  }
}
