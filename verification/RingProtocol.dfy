/**
  The lock-free byte ring shared by any number of readers and writers.

  Each load of a shared word, each copied byte and each compare-and-swap is a step of its own;
  a copy may visit its bytes in any order. `Concrete` holds what the running program holds.
  `History` is bookkeeping computed from the steps (`Record`); no step ever consults it.
*/
module RingProtocol {
  import opened Residues

  newtype Byte = b: int | 0 <= b < 256

  /** The three shared words and the data area; the capacity is the length of the data area. */
  datatype Memory = Memory(head: nat, tail: nat, oldtail: nat, content: seq<Byte>)

  /** Where a thread is inside `rb_read` or `rb_write`, with its locals. */
  datatype Pc =
    | Idle
    | ReadStart(len: nat)
    | ReadHead(len: nat, head: nat)
    | ReadCopy(len: nat, head: nat, buf: map<nat, Byte>)
    | WriteStart(len: nat, input: seq<Byte>)
    | WriteHead(len: nat, input: seq<Byte>, head: nat)
    | WriteCas(len: nat, input: seq<Byte>, tail: nat)
    | WriteCopy(len: nat, input: seq<Byte>, tail: nat, copied: set<nat>)
  {
    predicate Reading() { ReadStart? || ReadHead? || ReadCopy? }
    predicate Writing() { WriteStart? || WriteHead? || WriteCas? || WriteCopy? }

    /** The copy loop has visited every byte. */
    predicate Complete() {
      match this
      case ReadCopy(len, _, buf) => forall k :: 0 <= k < len ==> k in buf
      case WriteCopy(len, _, _, copied) => forall k :: 0 <= k < len ==> k in copied
      case _ => false
    }
  }

  datatype Concrete = Concrete(mem: Memory, threads: seq<Pc>) {
    function Cap(): nat { |mem.content| }
  }

  datatype Action =
    | StartRead(t: nat, len: nat)
    | StartWrite(t: nat, input: seq<Byte>)
    | Load(t: nat)
    | Copy(t: nat, k: nat)
    | Cas(t: nat)

  // ---------------------------------------------------------------- local computations

  function ReadSize(head: nat, tail: nat, n: nat): (size: nat)
    requires head < n && tail < n
    ensures size < n
  {
    if tail >= head then tail - head else tail + n - head
  }

  function WriteSize(head: nat, tail: nat, n: nat): (size: nat)
    requires head < n && tail < n
    ensures size < n
  {
    if head > tail then head - tail - 1 else head + n - tail - 1
  }

  function Min(a: nat, b: nat): nat { if a < b then a else b }

  /** The cell that byte `k` of a transfer of `len` bytes from `start` uses: one `memcpy` when
      the transfer does not reach the end of the data area, otherwise two. */
  function Slot(start: nat, len: nat, k: nat, n: nat): (slot: nat)
    requires start < n && k < len < n
    ensures slot < n
  {
    if start + len < n then start + k
    else
      var remain := n - start;
      if k < remain then start + k else k - remain
  }

  // ---------------------------------------------------------------- concrete steps

  /** Indices held in shared words and locals stay inside the data area. */
  predicate PcFits(pc: Pc, n: nat) {
    match pc
    case Idle => true
    case ReadStart(_) => true
    case ReadHead(_, head) => head < n
    case ReadCopy(len, head, buf) => head < n && 0 < len < n && forall k :: k in buf ==> k < len
    case WriteStart(len, input) => len <= |input|
    case WriteHead(len, input, head) => head < n && len <= |input|
    case WriteCas(len, input, tail) => tail < n && 0 < len < n && len <= |input|
    case WriteCopy(len, input, tail, copied) =>
      tail < n && 0 < len < n && len <= |input| && forall k :: k in copied ==> k < len
  }

  predicate Fits(c: Concrete) {
    && 2 <= c.Cap()
    && c.mem.head < c.Cap() && c.mem.tail < c.Cap() && c.mem.oldtail < c.Cap()
    && forall t :: 0 <= t < |c.threads| ==> PcFits(c.threads[t], c.Cap())
  }

  predicate Enabled(c: Concrete, a: Action) {
    && a.t < |c.threads|
    && var pc := c.threads[a.t];
      match a
      case StartRead(_, _) => pc.Idle?
      case StartWrite(_, _) => pc.Idle?
      case Load(_) => pc.ReadStart? || pc.ReadHead? || pc.WriteStart? || pc.WriteHead?
      case Copy(_, k) =>
        (pc.ReadCopy? && k < pc.len && k !in pc.buf) || (pc.WriteCopy? && k < pc.len && k !in pc.copied)
      case Cas(_) => pc.WriteCas? || ((pc.ReadCopy? || pc.WriteCopy?) && pc.Complete())
  }

  /** The compare half of the thread's compare-and-swap. */
  predicate CasHits(c: Concrete, t: nat)
    requires Enabled(c, Cas(t))
  {
    match c.threads[t]
    case ReadCopy(_, head, _) => c.mem.head == head
    case WriteCas(_, _, tail) => c.mem.tail == tail
    case WriteCopy(_, _, tail, _) => c.mem.oldtail == tail
  }

  /** A load, and the local computation up to the next access to shared memory. */
  function LoadPc(mem: Memory, pc: Pc): Pc
    requires mem.head < |mem.content| && mem.tail < |mem.content| && mem.oldtail < |mem.content|
    requires PcFits(pc, |mem.content|)
    requires pc.ReadStart? || pc.ReadHead? || pc.WriteStart? || pc.WriteHead?
  {
    match pc
    case ReadStart(len) => ReadHead(len, mem.head)
    case ReadHead(len, head) =>
      var len' := Min(ReadSize(head, mem.oldtail, |mem.content|), len);
      if len' == 0 then Idle else ReadCopy(len', head, map[])
    case WriteStart(len, input) => WriteHead(len, input, mem.head)
    case WriteHead(len, input, head) =>
      var len' := Min(WriteSize(head, mem.tail, |mem.content|), len);
      if len' == 0 then Idle else WriteCas(len', input, mem.tail)
  }

  function CopyStep(c: Concrete, t: nat, k: nat): Concrete
    requires Fits(c) && Enabled(c, Copy(t, k))
  {
    var n := c.Cap();
    match c.threads[t]
    case ReadCopy(len, head, buf) =>
      c.(threads := c.threads[t := ReadCopy(len, head, buf[k := c.mem.content[Slot(head, len, k, n)]])])
    case WriteCopy(len, input, tail, copied) =>
      Concrete(c.mem.(content := c.mem.content[Slot(tail, len, k, n) := input[k]]),
               c.threads[t := WriteCopy(len, input, tail, copied + {k})])
  }

  function CasStep(c: Concrete, t: nat): Concrete
    requires Fits(c) && Enabled(c, Cas(t))
  {
    var n := c.Cap();
    match c.threads[t]
    case ReadCopy(len, head, _) =>
      if CasHits(c, t) then Concrete(c.mem.(head := (head + len) % n), c.threads[t := Idle])
      else c.(threads := c.threads[t := ReadStart(len)])
    case WriteCas(len, input, tail) =>
      if CasHits(c, t) then Concrete(c.mem.(tail := (tail + len) % n), c.threads[t := WriteCopy(len, input, tail, {})])
      else c.(threads := c.threads[t := WriteStart(len, input)])
    case WriteCopy(len, _, tail, _) =>
      if CasHits(c, t) then Concrete(c.mem.(oldtail := (tail + len) % n), c.threads[t := Idle])
      else c
  }

  function ConcreteStep(c: Concrete, a: Action): (c': Concrete)
    requires Fits(c) && Enabled(c, a)
    ensures Fits(c') && c'.Cap() == c.Cap() && |c'.threads| == |c.threads|
    ensures forall u :: 0 <= u < |c.threads| && u != a.t ==> c'.threads[u] == c.threads[u]
  {
    match a
    case StartRead(t, len) => c.(threads := c.threads[t := ReadStart(len)])
    case StartWrite(t, input) => c.(threads := c.threads[t := WriteStart(|input|, input)])
    case Load(t) => c.(threads := c.threads[t := LoadPc(c.mem, c.threads[t])])
    case Copy(t, k) => CopyStep(c, t, k)
    case Cas(t) => CasStep(c, t)
  }

  // ---------------------------------------------------------------- history

  /** Absolute positions behind the residues a thread has loaded, and the length its caller asked
      for. `head` belongs to the load of the head word; `pos` to the load of `oldtail` (reader) or
      of `tail` (writer), and after a successful reservation it is the reserved start. */
  datatype Snap = Snap(head: nat, pos: nat, asked: nat)

  /** One accepted write: what the caller offered and the part that was taken. */
  datatype Accepted = Accepted(who: nat, input: seq<Byte>, bytes: seq<Byte>)

  /** One successful read: how much the caller asked for and what its buffer received. */
  datatype Delivered = Delivered(who: nat, asked: nat, bytes: seq<Byte>)

  datatype History = History(
    h: nat, o: nat, t: nat,
    accepted: seq<Accepted>,     // in the order of successful swaps on `tail`
    delivered: seq<Delivered>,   // in the order of successful swaps on `head`
    headMisses: nat, tailMisses: nat,
    snaps: seq<Snap>,
    queue: seq<nat>)             // writers between reservation and publication, in reservation order

  datatype State = State(c: Concrete, x: History)

  /** The caller's buffer as a sequence, once every byte has been copied. */
  function Output(buf: map<nat, Byte>, len: nat): (bytes: seq<Byte>)
    requires forall k :: 0 <= k < len ==> k in buf
    ensures |bytes| == len
  {
    seq(len, k requires 0 <= k < len => buf[k])
  }

  function RecordLoad(c: Concrete, x: History, t: nat): History
    requires Enabled(c, Load(t)) && |x.snaps| == |c.threads|
  {
    match c.threads[t]
    case ReadStart(_) => x.(snaps := x.snaps[t := x.snaps[t].(head := x.h)])
    case WriteStart(_, _) => x.(snaps := x.snaps[t := x.snaps[t].(head := x.h)])
    case ReadHead(_, _) => x.(snaps := x.snaps[t := x.snaps[t].(pos := x.o)])
    case WriteHead(_, _, _) => x.(snaps := x.snaps[t := x.snaps[t].(pos := x.t)])
  }

  function RecordCas(c: Concrete, x: History, t: nat): History
    requires Fits(c) && Enabled(c, Cas(t)) && |x.snaps| == |c.threads|
  {
    var hit := CasHits(c, t);
    match c.threads[t]
    case ReadCopy(len, _, buf) =>
      if hit then
        x.(h := x.h + len, delivered := x.delivered + [Delivered(t, x.snaps[t].asked, Output(buf, len))])
      else x.(headMisses := x.headMisses + 1)
    case WriteCas(len, input, _) =>
      if hit then
        x.(t := x.t + len, accepted := x.accepted + [Accepted(t, input, input[..len])],
           snaps := x.snaps[t := x.snaps[t].(pos := x.t)], queue := x.queue + [t])
      else x.(tailMisses := x.tailMisses + 1)
    case WriteCopy(len, _, _, _) =>
      if hit then x.(o := x.o + len, queue := if x.queue == [] then [] else x.queue[1..])
      else x
  }

  function Record(c: Concrete, x: History, a: Action): (x': History)
    requires Fits(c) && Enabled(c, a) && |x.snaps| == |c.threads|
    ensures |x'.snaps| == |x.snaps|
    ensures forall u :: 0 <= u < |x.snaps| && u != a.t ==> x'.snaps[u] == x.snaps[u]
  {
    match a
    case StartRead(t, len) => x.(snaps := x.snaps[t := Snap(0, 0, len)])
    case StartWrite(t, input) => x.(snaps := x.snaps[t := Snap(0, 0, |input|)])
    case Load(t) => RecordLoad(c, x, t)
    case Copy(_, _) => x
    case Cas(t) => RecordCas(c, x, t)
  }

  // ---------------------------------------------------------------- runs

  predicate Sized(s: State) { |s.x.snaps| == |s.c.threads| }

  predicate Formed(s: State) { Fits(s.c) && Sized(s) }

  function Step(s: State, a: Action): (s': State)
    requires Formed(s) && Enabled(s.c, a)
    ensures Formed(s') && s'.c.Cap() == s.c.Cap() && |s'.c.threads| == |s.c.threads|
  {
    State(ConcreteStep(s.c, a), Record(s.c, s.x, a))
  }

  /** The actions can be taken one after another. */
  predicate Legal(s: State, acts: seq<Action>)
    requires Formed(s)
    decreases |acts|
  {
    acts == [] || (Enabled(s.c, acts[0]) && Legal(Step(s, acts[0]), acts[1..]))
  }

  function Exec(s: State, acts: seq<Action>): (s': State)
    requires Formed(s) && Legal(s, acts)
    ensures Formed(s') && s'.c.Cap() == s.c.Cap() && |s'.c.threads| == |s.c.threads|
    decreases |acts|
  {
    if acts == [] then s else Exec(Step(s, acts[0]), acts[1..])
  }

  /** An initialised segment: all three words are 0; `threads` threads are about to use it. */
  function Init(content: seq<Byte>, threads: nat): (s: State)
    requires 2 <= |content|
    ensures Formed(s)
  {
    State(Concrete(Memory(0, 0, 0, content), seq(threads, _ => Idle)),
          History(0, 0, 0, [], [], 0, 0, seq(threads, _ => Snap(0, 0, 0)), []))
  }

  /** The bytes of all accepted writes, in reservation order: the stream. */
  function AcceptedBytes(log: seq<Accepted>): seq<Byte> {
    if log == [] then [] else AcceptedBytes(log[..|log| - 1]) + log[|log| - 1].bytes
  }

  function DeliveredBytes(log: seq<Delivered>): seq<Byte> {
    if log == [] then [] else DeliveredBytes(log[..|log| - 1]) + log[|log| - 1].bytes
  }
}
