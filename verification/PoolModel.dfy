/**
  The index pool on values: one free list per channel of `size` indices, and the global numbering.
*/
module PoolModel {

  /** The key of the first channel's segment; channel `c` has this key plus `c`. */
  const POOL_SHM_KEY := 0x3f3f3f3f

  /** The free lists of the channels, head first. */
  type Lists = seq<seq<nat>>

  /** How many indices the first `c` channels have. */
  function Base(c: nat, size: nat): nat {
    if c == 0 then 0 else Base(c - 1, size) + size
  }

  /** The free list of a new channel: 1, 2, ..., size. */
  function Fresh(size: nat): (free: seq<nat>)
    ensures |free| == size && forall i :: 0 <= i < size ==> free[i] == i + 1
  {
    seq(size, i => i + 1)
  }

  ghost predicate FreeOk(free: seq<nat>, size: nat) {
    && (forall i :: 0 <= i < |free| ==> 1 <= free[i] <= size)
    && (forall i, j :: 0 <= i < j < |free| ==> free[i] != free[j])
  }

  ghost predicate ListsOk(p: Lists, size: nat) {
    && size > 0 && p != []
    && forall c :: 0 <= c < |p| ==> FreeOk(p[c], size)
  }

  // ---------------------------------------------------------------- operations

  /** Walk the channels from `c`, whose indices start after `prefix`, to the first one with a free
      index; past the last channel, append a fresh one. */
  function GetFrom(p: Lists, size: nat, c: nat, prefix: nat): (res: (nat, Lists))
    requires c <= |p| && size > 0
    decreases |p| - c
  {
    if c == |p| then (prefix + 1, p + [Fresh(size)[1..]])
    else if p[c] != [] then (prefix + p[c][0], p[c := p[c][1..]])
    else GetFrom(p, size, c + 1, prefix + size)
  }

  function Get(p: Lists, size: nat): (nat, Lists)
    requires size > 0
  {
    GetFrom(p, size, 0, 0)
  }

  /** The channel and local index of a global index, by repeated subtraction. */
  function Locate(index: nat, size: nat): (nat, nat)
    requires size > 0
    decreases index
  {
    if index > size then
      var (c, r) := Locate(index - size, size);
      (c + 1, r)
    else (0, index)
  }

  function Release(p: Lists, size: nat, index: nat): Lists
    requires size > 0 && Locate(index, size).0 < |p|
  {
    var (c, r) := Locate(index, size);
    p[c := [r] + p[c]]
  }

  // ---------------------------------------------------------------- live indices

  ghost predicate IsLive(p: Lists, size: nat, index: nat)
    requires size > 0
  {
    var (c, r) := Locate(index, size);
    1 <= index && c < |p| && r !in p[c]
  }

  ghost function Live(p: Lists, size: nat): set<nat>
    requires size > 0
  {
    set i: nat | 1 <= i <= Base(|p|, size) && IsLive(p, size, i)
  }

  // ---------------------------------------------------------------- numbering

  lemma {:induction false} BaseMonotone(c: nat, d: nat, size: nat)
    requires c <= d
    ensures Base(c, size) <= Base(d, size)
    ensures c < d ==> Base(c, size) + size <= Base(d, size)
  {
    if c < d { BaseMonotone(c, d - 1, size); }
  }

  lemma {:induction false} BaseIsProduct(c: nat, size: nat)
    ensures Base(c, size) == c * size
  {
    if c > 0 {
      BaseIsProduct(c - 1, size);
      assert c * size == (c - 1) * size + size;
    }
  }

  /** The subtraction loop of `release` is the exact inverse of the prefix numbering of `get`. */
  lemma {:induction false} LocateInverse(c: nat, r: nat, size: nat)
    requires size > 0 && 1 <= r <= size
    ensures Locate(Base(c, size) + r, size) == (c, r)
  {
    if c > 0 { LocateInverse(c - 1, r, size); }
  }

  lemma {:induction false} LocateExact(index: nat, size: nat)
    requires size > 0 && 1 <= index
    ensures var (c, r) := Locate(index, size); 1 <= r <= size && index == Base(c, size) + r
  {
    if index > size { LocateExact(index - size, size); }
  }

  /** Channels in range are exactly the indices in range. */
  lemma LocateInRange(index: nat, size: nat, n: nat)
    requires size > 0 && 1 <= index
    ensures Locate(index, size).0 < n <==> index <= Base(n, size)
  {
    LocateExact(index, size);
    var c := Locate(index, size).0;
    if c < n { BaseMonotone(c, n, size); } else { BaseMonotone(n, c, size); }
  }

  lemma LiveCriterion(p: Lists, size: nat, index: nat)
    requires size > 0
    ensures index in Live(p, size) <==> IsLive(p, size, index)
  {
    if 1 <= index { LocateInRange(index, size, |p|); }
  }

  /** Live and free indices partition 1 .. size * channels. */
  lemma Partition(p: Lists, size: nat, c: nat, r: nat)
    requires size > 0 && c < |p| && 1 <= r <= size
    ensures 1 <= c * size + r <= |p| * size
    ensures c * size + r in Live(p, size) <==> r !in p[c]
  {
    BaseIsProduct(c, size);
    BaseIsProduct(|p|, size);
    LocateInverse(c, r, size);
    LocateInRange(Base(c, size) + r, size, |p|);
    LiveCriterion(p, size, Base(c, size) + r);
  }

  lemma NothingLive(size: nat)
    requires size > 0
    ensures Live([Fresh(size)], size) == {}
  {
    assert Base(1, size) == Base(0, size) + size;
    forall i | 1 <= i <= size ensures i !in Live([Fresh(size)], size) {
      LiveCriterion([Fresh(size)], size, i);
      assert Fresh(size)[i - 1] == i;
    }
  }

  // ---------------------------------------------------------------- get

  /** The channel `get` takes its index from: the first one that is not exhausted. */
  function FirstFree(p: Lists, c: nat): (d: nat)
    requires c <= |p|
    ensures c <= d <= |p|
    ensures d < |p| ==> p[d] != []
    ensures forall e :: c <= e < d ==> p[e] == []
    decreases |p| - c
  {
    if c == |p| || p[c] != [] then c else FirstFree(p, c + 1)
  }

  lemma {:induction false} GetFromExact(p: Lists, size: nat, c: nat)
    requires c <= |p| && size > 0
    ensures var d := FirstFree(p, c);
      GetFrom(p, size, c, Base(c, size)) ==
        if d < |p| then (Base(d, size) + p[d][0], p[d := p[d][1..]])
        else (Base(d, size) + 1, p + [Fresh(size)[1..]])
    decreases |p| - c
  {
    if c < |p| && p[c] == [] { GetFromExact(p, size, c + 1); }
  }

  /** Taking local index `r` out of the free list of channel `d` makes one index live. */
  lemma LiveTake(p: Lists, p': Lists, size: nat, d: nat, r: nat)
    requires size > 0 && |p'| == |p| && d < |p| && 1 <= r <= size
    requires forall c :: 0 <= c < |p| && c != d ==> p'[c] == p[c]
    requires r in p[d] && r !in p'[d] && forall q :: q != r ==> (q in p'[d] <==> q in p[d])
    ensures Base(d, size) + r !in Live(p, size)
    ensures Live(p', size) == Live(p, size) + {Base(d, size) + r}
  {
    LocateInverse(d, r, size);
    forall i ensures i in Live(p', size) <==> i in Live(p, size) || i == Base(d, size) + r {
      LiveCriterion(p, size, i);
      LiveCriterion(p', size, i);
      if 1 <= i { LocateExact(i, size); }
    }
    LiveCriterion(p, size, Base(d, size) + r);
  }

  lemma LiveAppend(p: Lists, free: seq<nat>, size: nat)
    requires size > 0 && forall q: nat :: q in free <==> 2 <= q <= size
    ensures Base(|p|, size) + 1 !in Live(p, size)
    ensures Live(p + [free], size) == Live(p, size) + {Base(|p|, size) + 1}
  {
    LocateInverse(|p|, 1, size);
    var p' := p + [free];
    forall i ensures i in Live(p', size) <==> i in Live(p, size) || i == Base(|p|, size) + 1 {
      LiveCriterion(p, size, i);
      LiveCriterion(p', size, i);
      if 1 <= i { LocateExact(i, size); }
    }
    LiveCriterion(p, size, Base(|p|, size) + 1);
  }

  lemma TailOf(free: seq<nat>, size: nat)
    requires FreeOk(free, size) && free != []
    ensures FreeOk(free[1..], size) && free[0] in free && free[0] !in free[1..]
    ensures forall q :: q != free[0] ==> (q in free[1..] <==> q in free)
  {
    assert free == [free[0]] + free[1..];
  }

  /** Taking the first free index of channel `d`. */
  lemma TakeFrom(p: Lists, size: nat, d: nat)
    requires ListsOk(p, size) && d < |p| && p[d] != []
    ensures var (index, p') := (Base(d, size) + p[d][0], p[d := p[d][1..]]);
      ListsOk(p', size) && index >= 1 && index !in Live(p, size) && Live(p', size) == Live(p, size) + {index}
  {
    assert FreeOk(p[d], size);
    TailOf(p[d], size);
    LiveTake(p, p[d := p[d][1..]], size, d, p[d][0]);
  }

  /** Taking index 1 of an appended channel. */
  lemma TakeFromNew(p: Lists, size: nat)
    requires ListsOk(p, size)
    ensures var (index, p') := (Base(|p|, size) + 1, p + [Fresh(size)[1..]]);
      ListsOk(p', size) && index >= 1 && index !in Live(p, size) && Live(p', size) == Live(p, size) + {index}
  {
    FreshTail(size);
    LiveAppend(p, Fresh(size)[1..], size);
  }

  /** What a `get` does to the pool. */
  ghost predicate Got(p: Lists, size: nat, index: nat, p': Lists)
    requires size > 0
  {
    && ListsOk(p', size)
    && index >= 1 && index !in Live(p, size) && Live(p', size) == Live(p, size) + {index}
    && |p'| == (if FirstFree(p, 0) == |p| then |p| + 1 else |p|)
  }

  /** `get` returns an index that was not live and makes it live, and nothing else changes. A
      channel is appended exactly when every existing one is exhausted. */
  lemma GetIsFresh(p: Lists, size: nat)
    requires ListsOk(p, size)
    ensures var (index, p') := Get(p, size); Got(p, size, index, p')
  {
    GetFromExact(p, size, 0);
    var d := FirstFree(p, 0);
    if d < |p| { TakeFrom(p, size, d); } else { TakeFromNew(p, size); }
  }

  lemma FreshTail(size: nat)
    requires size > 0
    ensures forall q: nat :: q in Fresh(size)[1..] <==> 2 <= q <= size
    ensures FreeOk(Fresh(size)[1..], size)
  {
    forall q: nat | 2 <= q <= size ensures q in Fresh(size)[1..] {
      assert Fresh(size)[1..][q - 2] == q;
    }
  }

  /** A legal `release` takes back exactly the index it is given. */
  lemma ReleaseIsExact(p: Lists, size: nat, index: nat)
    requires ListsOk(p, size) && index in Live(p, size)
    ensures Locate(index, size).0 < |p|
    ensures var p' := Release(p, size, index);
      ListsOk(p', size) && |p'| == |p| && Live(p', size) == Live(p, size) - {index}
  {
    LiveCriterion(p, size, index);
    LocateExact(index, size);
    var (c, r) := Locate(index, size);
    var p' := Release(p, size, index);
    assert FreeOk(p[c], size);
    assert p'[c] == [r] + p[c];
    LiveTake(p', p, size, c, r);
  }

  /** `release` undoes `get` exactly, when no channel had to be appended. */
  lemma ReleaseUndoesGet(p: Lists, size: nat)
    requires ListsOk(p, size) && FirstFree(p, 0) < |p|
    ensures var (index, p') := Get(p, size); Locate(index, size).0 < |p'| && Release(p', size, index) == p
  {
    GetFromExact(p, size, 0);
    var d := FirstFree(p, 0);
    assert FreeOk(p[d], size);
    LocateInverse(d, p[d][0], size);
    assert [p[d][0]] + p[d][1..] == p[d];
  }

  // ---------------------------------------------------------------- the free list inside an array

  function Rest(free: seq<nat>): seq<nat> {
    if free == [] then [] else free[1..]
  }

  /** What the cell of the `i`-th free index holds: the next free index, or 0 at the end. */
  function Link(free: seq<nat>, i: nat): nat {
    if i < |free| then free[i] else 0
  }

  /** Cell 0 heads a chain through the cells of the free indices that ends at 0. */
  ghost predicate IsChain(address: seq<nat>, size: nat, free: seq<nat>) {
    && |address| == size + 2 && FreeOk(free, size)
    && address[0] == Link(free, 0)
    && forall i :: 0 <= i < |free| ==> address[free[i]] == Link(free, i + 1)
  }

  /** Unlinking the first index; on an empty chain cell 0 is its own successor and nothing changes. */
  lemma PopChain(address: seq<nat>, size: nat, free: seq<nat>)
    requires IsChain(address, size, free)
    ensures address[0] < |address|
    ensures IsChain(address[0 := address[address[0]]], size, Rest(free))
  {
    if free != [] {
      var rest, after := free[1..], address[0 := address[address[0]]];
      TailOf(free, size);
      forall i | 0 <= i < |rest| ensures after[rest[i]] == Link(rest, i + 1) {
        assert rest[i] == free[i + 1] && Link(rest, i + 1) == Link(free, i + 2);
      }
    }
  }

  /** Linking an index in front. */
  lemma PushChain(address: seq<nat>, size: nat, free: seq<nat>, index: nat)
    requires IsChain(address, size, free) && 1 <= index <= size && index !in free
    ensures IsChain(address[index := address[0]][0 := index], size, [index] + free)
  {
    var free', after := [index] + free, address[index := address[0]][0 := index];
    forall i | 0 <= i < |free'| ensures after[free'[i]] == Link(free', i + 1) {
      assert Link(free', i + 1) == Link(free, i);
      if i > 0 { assert free'[i] == free[i - 1]; }
    }
  }
}
