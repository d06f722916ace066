/**
  The two sequential rings as objects: `RingBuffer` is shm/RingBuffer.cpp with no other thread
  running, `CircularBuffer` is the byte-at-a-time ring of workspace/ringbuffer.cpp.
*/
module RingBuffers {
  import opened RingProtocol
  import opened ByteRing

  method Memcpy(dst: array<Byte>, to: nat, src: array<Byte>, from: nat, count: nat)
    requires dst != src && to + count <= dst.Length && from + count <= src.Length
    modifies dst
    ensures forall j :: 0 <= j < dst.Length ==>
      dst[j] == if to <= j < to + count then src[from + (j - to)] else old(dst[j])
  {
    forall i | 0 <= i < count {
      dst[to + i] := src[from + i];
    }
  }

  class RingBuffer {
    var head: nat
    var tail: nat
    var oldtail: nat
    const content: array<Byte>

    /** No write is in flight between calls, so `oldtail` has caught up with `tail`. */
    ghost predicate Valid()
      reads this
    {
      2 <= content.Length && head < content.Length && tail < content.Length && oldtail == tail
    }

    ghost function View(): Ring
      reads this, content
    {
      Ring(head, tail, content[..])
    }

    constructor (capacity: nat)
      requires 2 <= capacity
      ensures Valid() && fresh(content) && content.Length == capacity
      ensures Contents(View()) == []
    {
      head, tail, oldtail := 0, 0, 0;
      content := new Byte[capacity];
    }

    /** The one or two block copies out of the data area. */
    method CopyOut(at: nat, output: array<Byte>, count: nat)
      requires at < content.Length && count < content.Length && count <= output.Length && output != content
      modifies output
      ensures output[..] == BlockRead(content[..], at, count) + old(output[count..])
    {
      ghost var bytes := BlockRead(content[..], at, count);
      if at + count < content.Length {
        Memcpy(output, 0, content, at, count);
      } else {
        var remain := content.Length - at;
        Memcpy(output, 0, content, at, remain);
        Memcpy(output, remain, content, 0, count - remain);
      }
      forall i | 0 <= i < count ensures output[i] == bytes[i] {
        BlockReadAt(content[..], at, count, i);
      }
    }

    /** The one or two block copies into the data area. */
    method CopyIn(at: nat, input: array<Byte>, count: nat)
      requires at < content.Length && count < content.Length && count <= input.Length && input != content
      modifies content
      ensures content[..] == BlockWrite(old(content[..]), at, input[..count])
    {
      ghost var was, bytes := content[..], input[..count];
      if at + count < content.Length {
        Memcpy(content, at, input, 0, count);
      } else {
        var remain := content.Length - at;
        Memcpy(content, at, input, 0, remain);
        Memcpy(content, 0, input, remain, count - remain);
      }
      forall j | 0 <= j < content.Length ensures content[j] == BlockWrite(was, at, bytes)[j] {
        BlockWriteCell(was, at, bytes, j);
      }
    }

    /** `rb_read`: the swap on `head` cannot fail, so the body runs once. */
    method Read(len: nat, output: array<Byte>) returns (ret: nat)
      requires Valid() && len <= output.Length && output != content
      modifies this`head, output
      ensures Valid()
      ensures ret <= len && (View(), output[..ret]) == FastRead(old(View()), len)
      ensures ret == Min(|old(Contents(View()))|, len)
      ensures old(Contents(View())) == output[..ret] + Contents(View())
      ensures output[ret..] == old(output[ret..])
    {
      ReadIsDequeue(View(), len);
      ret := len;
      var h, t := head, oldtail;
      var size := if t >= h then t - h else t + content.Length - h;
      if size < ret { ret := size; }
      if ret == 0 { return; }
      CopyOut(h, output, ret);
      AroundIsRemainder(h + ret, content.Length);
      head := (h + ret) % content.Length;
    }

    /** `rb_write`: neither swap can fail. */
    method Write(len: nat, input: array<Byte>) returns (ret: nat)
      requires Valid() && len <= input.Length && input != content
      modifies this`tail, this`oldtail, content
      ensures Valid()
      ensures (View(), ret) == FastWrite(old(View()), input[..len])
      ensures ret <= len && ret == Min(content.Length - 1 - |old(Contents(View()))|, len)
      ensures Contents(View()) == old(Contents(View())) + input[..ret]
    {
      WriteIsEnqueue(View(), input[..len]);
      ret := len;
      var h, t := head, tail;
      var size := if h > t then h - t - 1 else h + content.Length - t - 1;
      if size < ret { ret := size; }
      assert input[..len][..ret] == input[..ret];
      if ret == 0 { return; }
      AroundIsRemainder(t + ret, content.Length);
      var newTail := (t + ret) % content.Length;
      tail := newTail;
      CopyIn(t, input, ret);
      oldtail := newTail;
    }
  }

  /** One more byte of a byte-at-a-time read that has given `out` so far. */
  lemma ReadOneMore(start: Ring, len: nat, r: Ring, n: nat, out: seq<Byte>)
    requires start.Valid() && r.Valid() && r.begin != r.end && n > 0
    requires SimpleRead(start, len) == (SimpleRead(r, n).0, out + SimpleRead(r, n).1)
    ensures SimpleRead(start, len) ==
      (SimpleRead(Drop(r), n - 1).0, out + [r.data[r.begin]] + SimpleRead(Drop(r), n - 1).1)
  {
    var b, rest := r.data[r.begin], SimpleRead(Drop(r), n - 1).1;
    assert out + ([b] + rest) == out + [b] + rest;
  }

  class CircularBuffer {
    var beginIdx: nat
    var endIdx: nat
    const size: nat
    const data: array<Byte>

    ghost predicate Valid()
      reads this
    {
      1 <= size == data.Length && beginIdx < size && endIdx < size
    }

    ghost function View(): Ring
      reads this, data
    {
      Ring(beginIdx, endIdx, data[..])
    }

    constructor (size: nat)
      requires 1 <= size
      ensures Valid() && fresh(data) && this.size == size
      ensures Contents(View()) == []
    {
      beginIdx, endIdx := 0, 0;
      this.size := size;
      data := new Byte[size];
    }

    method Read(len: nat, output: array<Byte>) returns (readSize: nat)
      requires Valid() && len <= output.Length && output != data
      modifies this`beginIdx, output
      ensures Valid()
      ensures readSize <= len && (View(), output[..readSize]) == SimpleRead(old(View()), len)
      ensures output[readSize..] == old(output[readSize..])
    {
      var begin: nat, end: nat := beginIdx, endIdx;
      readSize := 0;
      ghost var start, was := View(), output[..];
      assert output[..0] + SimpleRead(start, len).1 == SimpleRead(start, len).1;
      while begin != end && readSize != len
        invariant begin < size && end == endIdx && readSize <= len
        invariant data[..] == start.data
        invariant forall i :: readSize <= i < output.Length ==> output[i] == was[i]
        invariant var (r, rest) := SimpleRead(Ring(begin, end, data[..]), len - readSize);
          SimpleRead(start, len) == (r, output[..readSize] + rest)
        decreases len - readSize
      {
        ghost var out := output[..readSize];
        ReadOneMore(start, len, Ring(begin, end, data[..]), len - readSize, out);
        output[readSize] := data[begin];
        assert output[..readSize + 1] == out + [data[begin]];
        readSize := readSize + 1;
        AroundIsRemainder(begin + 1, size);
        begin := (begin + 1) % size;
      }
      beginIdx := begin;
      assert output[..readSize] + [] == output[..readSize];
    }

    method Write(len: nat, input: array<Byte>) returns (writtenSize: nat)
      requires Valid() && len <= input.Length && input != data
      modifies this`endIdx, data
      ensures Valid()
      ensures (View(), writtenSize) == SimpleWrite(old(View()), input[..len])
    {
      var begin: nat, end: nat := beginIdx, endIdx;
      writtenSize := 0;
      AroundIsRemainder(end + 1, size);
      while (end + 1) % size != begin && writtenSize != len
        invariant begin == beginIdx && end < size && writtenSize <= len
        invariant (end + 1) % size == Around(end + 1, size)
        invariant SimpleWrite(old(View()), input[..len]) ==
          var (r, k) := SimpleWrite(Ring(begin, end, data[..]), input[writtenSize..len]); (r, writtenSize + k)
        decreases len - writtenSize
      {
        ghost var r := Ring(begin, end, data[..]);
        assert input[writtenSize..len][1..] == input[writtenSize + 1..len];
        data[end] := input[writtenSize];
        assert data[..] == r.data[end := input[writtenSize]];
        writtenSize := writtenSize + 1;
        end := (end + 1) % size;
        AroundIsRemainder(end + 1, size);
      }
      endIdx := end;
    }
  }
}
