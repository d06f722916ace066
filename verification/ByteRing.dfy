/**
  Sequential reading of the ring, on values: the form with two block copies, the form that moves
  one byte at a time, and the bounded queue that both implement.
*/
module ByteRing {
  import opened Residues
  import opened RingProtocol

  datatype Ring = Ring(begin: nat, end: nat, data: seq<Byte>) {
    predicate Valid() { 1 <= |data| && begin < |data| && end < |data| }
  }

  function Used(r: Ring): nat
    requires r.Valid()
  {
    ReadSize(r.begin, r.end, |r.data|)
  }

  function Room(r: Ring): nat
    requires r.Valid()
  {
    WriteSize(r.begin, r.end, |r.data|)
  }

  /** An index at most one lap too far, brought back into the data area. */
  function Around(i: nat, n: nat): nat { if i < n then i else i - n }

  /** This is what `%` computes there. */
  lemma AroundIsRemainder(i: nat, n: nat)
    requires 0 < n && i < 2 * n
    ensures i % n == Around(i, n)
  {
    RemainderOnce(i, n);
  }

  /** The queue a ring stands for: the cells from `begin` up to `end`, wrapping around. */
  function Contents(r: Ring): (q: seq<Byte>)
    requires r.Valid()
    ensures |q| == Used(r)
  {
    seq(Used(r), i requires 0 <= i < Used(r) => r.data[Around(r.begin + i, |r.data|)])
  }

  // ---------------------------------------------------------------- one byte at a time

  function Put(r: Ring, b: Byte): (r': Ring)
    requires r.Valid()
    ensures r'.Valid() && |r'.data| == |r.data|
  {
    Ring(r.begin, Around(r.end + 1, |r.data|), r.data[r.end := b])
  }

  function Drop(r: Ring): (r': Ring)
    requires r.Valid()
    ensures r'.Valid() && |r'.data| == |r.data|
  {
    Ring(Around(r.begin + 1, |r.data|), r.end, r.data)
  }

  /** Put bytes until the ring is full or the input is used up; the count of bytes put. */
  function SimpleWrite(r: Ring, input: seq<Byte>): (res: (Ring, nat))
    requires r.Valid()
    ensures res.0.Valid() && |res.0.data| == |r.data|
    decreases |input|
  {
    if Around(r.end + 1, |r.data|) == r.begin || input == [] then (r, 0)
    else
      var (r', k) := SimpleWrite(Put(r, input[0]), input[1..]);
      (r', k + 1)
  }

  /** Take bytes until the ring is empty or `len` have been taken. */
  function SimpleRead(r: Ring, len: nat): (res: (Ring, seq<Byte>))
    requires r.Valid()
    ensures res.0.Valid() && |res.0.data| == |r.data|
    decreases len
  {
    if r.begin == r.end || len == 0 then (r, [])
    else
      var (r', out) := SimpleRead(Drop(r), len - 1);
      (r', [r.data[r.begin]] + out)
  }

  // ---------------------------------------------------------------- two block copies

  function BlockWrite(data: seq<Byte>, at: nat, bytes: seq<Byte>): (data': seq<Byte>)
    requires at < |data| && |bytes| < |data|
    ensures |data'| == |data|
  {
    if at + |bytes| < |data| then data[..at] + bytes + data[at + |bytes|..]
    else
      var remain := |data| - at;
      bytes[remain..] + data[|bytes| - remain..at] + bytes[..remain]
  }

  function BlockRead(data: seq<Byte>, at: nat, len: nat): (bytes: seq<Byte>)
    requires at < |data| && len < |data|
    ensures |bytes| == len
  {
    if at + len < |data| then data[at..at + len]
    else
      var remain := |data| - at;
      data[at..] + data[..len - remain]
  }

  /** The bytes written from the end index on, and the index moved past them. */
  function PutBlock(r: Ring, bytes: seq<Byte>): (r': Ring)
    requires r.Valid() && |bytes| < |r.data|
    ensures r'.Valid() && |r'.data| == |r.data|
  {
    Ring(r.begin, Around(r.end + |bytes|, |r.data|), BlockWrite(r.data, r.end, bytes))
  }

  function FastWrite(r: Ring, input: seq<Byte>): (res: (Ring, nat))
    requires r.Valid()
    ensures res.0.Valid() && |res.0.data| == |r.data| && res.1 <= |input|
  {
    var k := Min(Room(r), |input|);
    if k == 0 then (r, 0)
    else (PutBlock(r, input[..k]), k)
  }

  function FastRead(r: Ring, len: nat): (res: (Ring, seq<Byte>))
    requires r.Valid()
    ensures res.0.Valid() && |res.0.data| == |r.data| && |res.1| <= len
  {
    var k := Min(Used(r), len);
    if k == 0 then (r, [])
    else (Ring(Around(r.begin + k, |r.data|), r.end, r.data), BlockRead(r.data, r.begin, k))
  }

  // ---------------------------------------------------------------- facts about blocks

  lemma BlockReadAt(data: seq<Byte>, at: nat, len: nat, i: nat)
    requires at < |data| && i < len < |data|
    ensures BlockRead(data, at, len)[i] == data[Around(at + i, |data|)]
  {
  }

  lemma BlockWriteAt(data: seq<Byte>, at: nat, bytes: seq<Byte>, i: nat)
    requires at < |data| && i < |bytes| < |data|
    ensures BlockWrite(data, at, bytes)[Around(at + i, |data|)] == bytes[i]
  {
  }

  lemma BlockWriteElsewhere(data: seq<Byte>, at: nat, bytes: seq<Byte>, i: nat)
    requires at < |data| && |bytes| <= i < |data| && |bytes| < |data|
    ensures BlockWrite(data, at, bytes)[Around(at + i, |data|)] == data[Around(at + i, |data|)]
  {
  }

  /** How far cell `j` lies after cell `at`, going around. */
  function Distance(at: nat, j: nat, n: nat): nat
    requires at < n && j < n
  {
    if at <= j then j - at else j + n - at
  }

  /** A block write seen from one cell. */
  lemma BlockWriteCell(data: seq<Byte>, at: nat, bytes: seq<Byte>, j: nat)
    requires at < |data| && |bytes| < |data| && j < |data|
    ensures var i := Distance(at, j, |data|);
      BlockWrite(data, at, bytes)[j] == if i < |bytes| then bytes[i] else data[j]
  {
    var i := Distance(at, j, |data|);
    assert Around(at + i, |data|) == j;
    if i < |bytes| { BlockWriteAt(data, at, bytes, i); } else { BlockWriteElsewhere(data, at, bytes, i); }
  }

  lemma BlockWriteFirstAt(data: seq<Byte>, at: nat, bytes: seq<Byte>, j: nat)
    requires at < |data| && 0 < |bytes| < |data| && j < |data|
    ensures BlockWrite(data, at, bytes)[j] == BlockWrite(data[at := bytes[0]], Around(at + 1, |data|), bytes[1..])[j]
  {
    BlockWriteCell(data, at, bytes, j);
    BlockWriteCell(data[at := bytes[0]], Around(at + 1, |data|), bytes[1..], j);
  }

  /** A block can be written first byte first. */
  lemma BlockWriteFirst(data: seq<Byte>, at: nat, bytes: seq<Byte>)
    requires at < |data| && 0 < |bytes| < |data|
    ensures BlockWrite(data, at, bytes) == BlockWrite(data[at := bytes[0]], Around(at + 1, |data|), bytes[1..])
  {
    forall j | 0 <= j < |data|
      ensures BlockWrite(data, at, bytes)[j] == BlockWrite(data[at := bytes[0]], Around(at + 1, |data|), bytes[1..])[j]
    {
      BlockWriteFirstAt(data, at, bytes, j);
    }
  }

  lemma BlockReadFirst(data: seq<Byte>, at: nat, len: nat)
    requires at < |data| && 0 < len < |data|
    ensures BlockRead(data, at, len) == [data[at]] + BlockRead(data, Around(at + 1, |data|), len - 1)
  {
    forall i | 0 <= i < len
      ensures BlockRead(data, at, len)[i] == ([data[at]] + BlockRead(data, Around(at + 1, |data|), len - 1))[i]
    {
      BlockReadAt(data, at, len, i);
      if 0 < i { BlockReadAt(data, Around(at + 1, |data|), len - 1, i - 1); }
    }
  }

  // ---------------------------------------------------------------- the fast form is the simple form

  lemma PutRoom(r: Ring, b: Byte)
    requires r.Valid()
    ensures Room(r) == 0 <==> Around(r.end + 1, |r.data|) == r.begin
    ensures Room(r) > 0 ==> Room(Put(r, b)) == Room(r) - 1
  {
  }

  lemma DropUsed(r: Ring)
    requires r.Valid()
    ensures Used(r) == 0 <==> r.begin == r.end
    ensures Used(r) > 0 ==> Used(Drop(r)) == Used(r) - 1
  {
  }

  lemma PutBlockFirst(r: Ring, bytes: seq<Byte>)
    requires r.Valid() && 0 < |bytes| < |r.data|
    ensures PutBlock(r, bytes) == PutBlock(Put(r, bytes[0]), bytes[1..])
  {
    BlockWriteFirst(r.data, r.end, bytes);
  }

  lemma PutNothing(r: Ring)
    requires r.Valid() && 1 < |r.data|
    ensures PutBlock(r, []) == r
  {
  }

  lemma FastWriteFirst(r: Ring, input: seq<Byte>)
    requires r.Valid() && Room(r) > 0 && input != []
    ensures var (r', k) := FastWrite(Put(r, input[0]), input[1..]); FastWrite(r, input) == (r', k + 1)
  {
    var k := Min(Room(r), |input|);
    PutRoom(r, input[0]);
    PutBlockFirst(r, input[..k]);
    assert input[..k][1..] == input[1..][..k - 1];
    PutNothing(Put(r, input[0]));
  }

  lemma FastReadFirst(r: Ring, len: nat)
    requires r.Valid() && Used(r) > 0 && len > 0
    ensures var (r', out) := FastRead(Drop(r), len - 1); FastRead(r, len) == (r', [r.data[r.begin]] + out)
  {
    DropUsed(r);
    BlockReadFirst(r.data, r.begin, Min(Used(r), len));
  }

  lemma {:induction false} FastWriteIsSimple(r: Ring, input: seq<Byte>)
    requires r.Valid()
    ensures FastWrite(r, input) == SimpleWrite(r, input)
    decreases |input|
  {
    if input != [] {
      PutRoom(r, input[0]);
      if Room(r) > 0 {
        FastWriteFirst(r, input);
        FastWriteIsSimple(Put(r, input[0]), input[1..]);
      }
    }
  }

  lemma {:induction false} FastReadIsSimple(r: Ring, len: nat)
    requires r.Valid()
    ensures FastRead(r, len) == SimpleRead(r, len)
    decreases len
  {
    DropUsed(r);
    if Used(r) > 0 && len > 0 {
      FastReadFirst(r, len);
      FastReadIsSimple(Drop(r), len - 1);
    }
  }

  // ---------------------------------------------------------------- both are a bounded queue

  /** The end index is `Used` cells after the begin index. */
  lemma EndOf(r: Ring)
    requires r.Valid()
    ensures r.end == Around(r.begin + Used(r), |r.data|) && Used(r) + Room(r) == |r.data| - 1
  {
  }

  /** Writing appends as much of the input as fits in a queue of capacity `n - 1`. */
  lemma WriteIsEnqueue(r: Ring, input: seq<Byte>)
    requires r.Valid()
    ensures var (r', k) := FastWrite(r, input);
      && k == Min(|r.data| - 1 - |Contents(r)|, |input|)
      && Contents(r') == Contents(r) + input[..k]
  {
    var used := Used(r);
    var (r', k) := FastWrite(r, input);
    EndOf(r);
    if k > 0 {
      EndOf(r');
      assert Used(r') == used + k;
      forall i | 0 <= i < used + k ensures Contents(r')[i] == (Contents(r) + input[..k])[i] {
        PutBlockAt(r, input[..k], i);
      }
    }
  }

  /** Entry `i` of the contents after a block write. */
  lemma PutBlockAt(r: Ring, bytes: seq<Byte>, i: nat)
    requires r.Valid() && |bytes| <= Room(r) && i < Used(r) + |bytes|
    ensures PutBlock(r, bytes).data[Around(r.begin + i, |r.data|)] ==
      if i < Used(r) then r.data[Around(r.begin + i, |r.data|)] else bytes[i - Used(r)]
  {
    var n, used := |r.data|, Used(r);
    EndOf(r);
    if i < used {
      BlockWriteElsewhere(r.data, r.end, bytes, n - used + i);
      assert Around(r.end + (n - used + i), n) == Around(r.begin + i, n);
    } else {
      BlockWriteAt(r.data, r.end, bytes, i - used);
      assert Around(r.end + (i - used), n) == Around(r.begin + i, n);
    }
  }

  /** Reading removes as much from the front as was asked for and is there. */
  lemma ReadIsDequeue(r: Ring, len: nat)
    requires r.Valid()
    ensures var (r', out) := FastRead(r, len);
      && |out| == Min(|Contents(r)|, len)
      && Contents(r) == out + Contents(r')
  {
    var n, used := |r.data|, Used(r);
    var (r', out) := FastRead(r, len);
    var k := |out|;
    EndOf(r);
    if k > 0 {
      EndOf(r');
      assert Used(r') == used - k;
      forall i | 0 <= i < used ensures Contents(r)[i] == (out + Contents(r'))[i] {
        if i < k {
          BlockReadAt(r.data, r.begin, k, i);
        } else {
          assert Around(r'.begin + (i - k), n) == Around(r.begin + i, n);
        }
      }
    }
  }

  // ---------------------------------------------------------------- any sequence of operations

  datatype Op = Read(len: nat) | Write(input: seq<Byte>)

  /** What an operation returns: the bytes read, or the count written. */
  datatype Reply = Bytes(bytes: seq<Byte>) | Count(count: nat)

  function FastOp(r: Ring, op: Op): (res: (Ring, Reply))
    requires r.Valid()
    ensures res.0.Valid()
  {
    match op
    case Read(len) => var (r', out) := FastRead(r, len); (r', Bytes(out))
    case Write(input) => var (r', k) := FastWrite(r, input); (r', Count(k))
  }

  function SimpleOp(r: Ring, op: Op): (res: (Ring, Reply))
    requires r.Valid()
    ensures res.0.Valid()
  {
    match op
    case Read(len) => var (r', out) := SimpleRead(r, len); (r', Bytes(out))
    case Write(input) => var (r', k) := SimpleWrite(r, input); (r', Count(k))
  }

  /** The same operation on a queue that holds at most `cap` bytes. */
  function QueueOp(q: seq<Byte>, cap: nat, op: Op): (res: (seq<Byte>, Reply))
    requires |q| <= cap
    ensures |res.0| <= cap
  {
    match op
    case Read(len) => var k := Min(|q|, len); (q[k..], Bytes(q[..k]))
    case Write(input) => var k := Min(cap - |q|, |input|); (q + input[..k], Count(k))
  }

  function FastRun(r: Ring, ops: seq<Op>): (res: (Ring, seq<Reply>))
    requires r.Valid()
    ensures res.0.Valid()
    decreases |ops|
  {
    if ops == [] then (r, []) else
      var (r', reply) := FastOp(r, ops[0]);
      var (r'', replies) := FastRun(r', ops[1..]);
      (r'', [reply] + replies)
  }

  function SimpleRun(r: Ring, ops: seq<Op>): (res: (Ring, seq<Reply>))
    requires r.Valid()
    ensures res.0.Valid()
    decreases |ops|
  {
    if ops == [] then (r, []) else
      var (r', reply) := SimpleOp(r, ops[0]);
      var (r'', replies) := SimpleRun(r', ops[1..]);
      (r'', [reply] + replies)
  }

  function QueueRun(q: seq<Byte>, cap: nat, ops: seq<Op>): (res: (seq<Byte>, seq<Reply>))
    requires |q| <= cap
    decreases |ops|
  {
    if ops == [] then (q, []) else
      var (q', reply) := QueueOp(q, cap, ops[0]);
      var (q'', replies) := QueueRun(q', cap, ops[1..]);
      (q'', [reply] + replies)
  }

  lemma OpsAgree(r: Ring, op: Op)
    requires r.Valid()
    ensures FastOp(r, op) == SimpleOp(r, op)
  {
    match op {
      case Read(len) => FastReadIsSimple(r, len);
      case Write(input) => FastWriteIsSimple(r, input);
    }
  }

  /** After any sequence of operations the two forms have given the same replies and left the
      same data area and indices. */
  lemma {:induction false} FastRefinesSimple(r: Ring, ops: seq<Op>)
    requires r.Valid()
    ensures FastRun(r, ops) == SimpleRun(r, ops)
    decreases |ops|
  {
    if ops != [] {
      OpsAgree(r, ops[0]);
      FastRefinesSimple(FastOp(r, ops[0]).0, ops[1..]);
    }
  }

  lemma OpIsQueueOp(r: Ring, op: Op)
    requires r.Valid()
    ensures var (r', reply) := FastOp(r, op);
      |r'.data| == |r.data| && QueueOp(Contents(r), |r.data| - 1, op) == (Contents(r'), reply)
  {
    match op {
      case Read(len) => ReadIsDequeue(r, len);
      case Write(input) => WriteIsEnqueue(r, input);
    }
  }

  /** ... and those are the replies of a first-in first-out queue of capacity `n - 1`. */
  lemma {:induction false} RingRefinesQueue(r: Ring, ops: seq<Op>)
    requires r.Valid()
    ensures var (r', replies) := FastRun(r, ops);
      QueueRun(Contents(r), |r.data| - 1, ops) == (Contents(r'), replies)
    decreases |ops|
  {
    if ops != [] {
      OpIsQueueOp(r, ops[0]);
      RingRefinesQueue(FastOp(r, ops[0]).0, ops[1..]);
    }
  }
}
