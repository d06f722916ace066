/**
  How far the pool grows: over any sequence of gets and legal releases starting from a fresh pool,
  the channel count and the highest index issued are determined by the peak number of live indices.
*/
module PoolGrowth {
  import opened FiniteSets
  import opened PoolModel

  datatype Op = GetOp | ReleaseOp(index: nat)

  /** A pool with its history: the most indices live at once, the highest index issued, and per
      channel the highest local index issued. */
  datatype Track = Track(lists: Lists, peak: nat, top: nat, marks: seq<nat>)

  function Max(a: nat, b: nat): nat { if a < b then b else a }

  ghost function Start(size: nat): Track { Track([Fresh(size)], 0, 0, [0]) }

  ghost predicate Legal(tr: Track, size: nat, op: Op)
    requires size > 0
  {
    op.ReleaseOp? ==> op.index in Live(tr.lists, size)
  }

  ghost function Marks(tr: Track): seq<nat>
    requires |tr.marks| == |tr.lists|
  {
    var d := FirstFree(tr.lists, 0);
    if d < |tr.lists| then tr.marks[d := Max(tr.marks[d], tr.lists[d][0])] else tr.marks + [1]
  }

  ghost function Do(tr: Track, size: nat, op: Op): Track
    requires ListsOk(tr.lists, size) && |tr.marks| == |tr.lists| && Legal(tr, size, op)
  {
    match op
    case GetOp =>
      var (index, lists) := Get(tr.lists, size);
      Track(lists, Max(tr.peak, |Live(lists, size)|), Max(tr.top, index), Marks(tr))
    case ReleaseOp(index) =>
      ReleaseIsExact(tr.lists, size, index);
      tr.(lists := Release(tr.lists, size, index))
  }

  // ---------------------------------------------------------------- counting

  ghost function Interval(n: nat): (r: set<nat>)
    ensures forall i :: i in r <==> 1 <= i <= n
    ensures |r| == n
  {
    if n == 0 then {} else Interval(n - 1) + {n}
  }

  lemma LiveAtMost(p: Lists, size: nat)
    requires size > 0
    ensures |Live(p, size)| <= Base(|p|, size)
  {
    SubsetSize(Live(p, size), Interval(Base(|p|, size)));
  }

  /** If the first `n` indices are live, at least `n` are. */
  lemma LiveAtLeast(p: Lists, size: nat, n: nat)
    requires size > 0 && Interval(n) <= Live(p, size)
    ensures n <= |Live(p, size)|
  {
    SubsetSize(Interval(n), Live(p, size));
  }

  /** When the channels before `d` are exhausted and channel `d` has only indices above `m` free,
      the first `Base(d) + m` indices are all live. */
  lemma PrefixLive(p: Lists, size: nat, d: nat, m: nat)
    requires size > 0 && d < |p| && m <= size
    requires forall c :: 0 <= c < d ==> p[c] == []
    requires forall r :: r in p[d] ==> r > m
    ensures Base(d, size) + m <= |Live(p, size)|
  {
    forall i | i in Interval(Base(d, size) + m) ensures i in Live(p, size) {
      LocateExact(i, size);
      var (c, r) := Locate(i, size);
      if c > d { BaseMonotone(d + 1, c, size); }
      LiveCriterion(p, size, i);
    }
    LiveAtLeast(p, size, Base(d, size) + m);
  }

  // ---------------------------------------------------------------- the invariant

  /** The free list of a channel whose highest issued index is `m`: indices given back, then the
      never-issued ones in ascending order. */
  ghost predicate MarkOk(free: seq<nat>, size: nat, m: nat) {
    && m <= size && |free| >= size - m
    && (forall j :: 0 <= j < |free| ==>
          if j < |free| - (size - m) then free[j] <= m else free[j] == size + 1 - (|free| - j))
  }

  /** The channel count that a peak of `n` live indices calls for: max(1, ceil(n / size)). */
  function Needed(n: nat, size: nat): nat
    requires size > 0
    decreases n
  {
    if n <= size then 1 else 1 + Needed(n - size, size)
  }

  lemma {:induction false} NeededExact(n: nat, size: nat, c: nat)
    requires size > 0 && c >= 1
    requires n <= Base(c, size) && (c > 1 ==> Base(c - 1, size) < n)
    ensures Needed(n, size) == c
    decreases n
  {
    if n > size {
      BaseShift(c, size);
      if c > 2 { BaseShift(c - 1, size); }
      NeededExact(n - size, size, c - 1);
    }
  }

  lemma {:induction false} BaseShift(c: nat, size: nat)
    requires c >= 1
    ensures Base(c, size) == size + Base(c - 1, size)
  {
  }

  /** `Needed` is the ceiling of the quotient, and at least 1. */
  lemma {:induction false} NeededIsCeiling(n: nat, size: nat)
    requires size > 0
    ensures var c := Needed(n, size);
      n <= c * size && (c == 1 || (c - 1) * size < n)
    decreases n
  {
    if n > size {
      NeededIsCeiling(n - size, size);
      var c := Needed(n, size);
      assert c * size == (c - 1) * size + size;
      assert (c - 1) * size == (c - 2) * size + size;
    }
  }

  /** The peak has called for exactly the channels there are. */
  ghost predicate Counted(tr: Track, size: nat) {
    && ListsOk(tr.lists, size)
    && |Live(tr.lists, size)| <= tr.peak <= Base(|tr.lists|, size)
    && (|tr.lists| > 1 ==> Base(|tr.lists| - 1, size) < tr.peak)
  }

  /** No index above the peak was ever issued. */
  ghost predicate Marked(tr: Track, size: nat) {
    && |tr.marks| == |tr.lists| && tr.top <= tr.peak
    && forall c :: 0 <= c < |tr.lists| ==>
         MarkOk(tr.lists[c], size, tr.marks[c]) && (tr.marks[c] > 0 ==> Base(c, size) + tr.marks[c] <= tr.peak)
  }

  ghost predicate Grown(tr: Track, size: nat) { Counted(tr, size) && Marked(tr, size) }

  lemma StartGrown(size: nat)
    requires size > 0
    ensures Grown(Start(size), size) && Live([Fresh(size)], size) == {}
  {
    NothingLive(size);
  }

  /** Popping a channel's free list: either an index given back earlier, or the next new one. */
  lemma PopMark(free: seq<nat>, size: nat, m: nat)
    requires MarkOk(free, size, m) && FreeOk(free, size) && free != []
    ensures MarkOk(free[1..], size, Max(m, free[0]))
    ensures free[0] <= m || (free[0] == m + 1 && forall r :: r in free[1..] ==> r > m + 1)
  {
  }

  /** An index above the mark was never issued, so it is free. */
  lemma AboveMark(free: seq<nat>, size: nat, m: nat, r: nat)
    requires MarkOk(free, size, m) && 1 <= r <= size
    ensures r in free || r <= m
  {
    if r > m { assert free[|free| - (size + 1 - r)] == r; }
  }

  lemma PushMark(free: seq<nat>, size: nat, m: nat, r: nat)
    requires MarkOk(free, size, m) && 1 <= r <= size && r !in free
    ensures MarkOk([r] + free, size, m)
  {
    AboveMark(free, size, m, r);
  }

  lemma GetCounted(tr: Track, size: nat)
    requires Counted(tr, size) && |tr.marks| == |tr.lists|
    ensures Counted(Do(tr, size, GetOp), size)
  {
    var p, p' := tr.lists, Get(tr.lists, size).1;
    GetIsFresh(p, size);
    LiveAtMost(p', size);
    if FirstFree(p, 0) == |p| {
      GetFromExact(p, size, 0);
      FreshTail(size);
      PrefixLive(p', size, |p|, 1);
    }
  }

  /** The index just issued is at most the number of indices now live, or was issued before. */
  lemma GetOldMarked(tr: Track, size: nat)
    requires Grown(tr, size) && FirstFree(tr.lists, 0) < |tr.lists|
    ensures Marked(Do(tr, size, GetOp), size)
  {
    var p, d := tr.lists, FirstFree(tr.lists, 0);
    GetFromExact(p, size, 0);
    assert FreeOk(p[d], size) && MarkOk(p[d], size, tr.marks[d]);
    PopMark(p[d], size, tr.marks[d]);
    if p[d][0] > tr.marks[d] { PrefixLive(p[d := p[d][1..]], size, d, p[d][0]); }
  }

  lemma GetNewMarked(tr: Track, size: nat)
    requires Grown(tr, size) && FirstFree(tr.lists, 0) == |tr.lists|
    ensures Marked(Do(tr, size, GetOp), size)
  {
    GetFromExact(tr.lists, size, 0);
    FreshTail(size);
    PrefixLive(tr.lists + [Fresh(size)[1..]], size, |tr.lists|, 1);
  }

  lemma ReleaseGrown(tr: Track, size: nat, index: nat)
    requires Grown(tr, size) && Legal(tr, size, ReleaseOp(index))
    ensures Grown(Do(tr, size, ReleaseOp(index)), size)
  {
    ReleaseIsExact(tr.lists, size, index);
    LiveCriterion(tr.lists, size, index);
    LocateExact(index, size);
    var (c, r) := Locate(index, size);
    PushMark(tr.lists[c], size, tr.marks[c], r);
    SubsetSize(Live(Release(tr.lists, size, index), size), Live(tr.lists, size));
  }

  // ---------------------------------------------------------------- runs

  ghost predicate LegalRun(tr: Track, size: nat, ops: seq<Op>)
    requires Grown(tr, size)
    decreases |ops|
  {
    ops == [] ||
    (Legal(tr, size, ops[0]) && (DoGrown(tr, size, ops[0]); LegalRun(Do(tr, size, ops[0]), size, ops[1..])))
  }

  lemma DoGrown(tr: Track, size: nat, op: Op)
    requires Grown(tr, size) && Legal(tr, size, op)
    ensures Grown(Do(tr, size, op), size)
  {
    if op.GetOp? {
      GetCounted(tr, size);
      if FirstFree(tr.lists, 0) < |tr.lists| { GetOldMarked(tr, size); } else { GetNewMarked(tr, size); }
    } else {
      ReleaseGrown(tr, size, op.index);
    }
  }

  ghost function Run(tr: Track, size: nat, ops: seq<Op>): (tr': Track)
    requires Grown(tr, size) && LegalRun(tr, size, ops)
    ensures Grown(tr', size)
    decreases |ops|
  {
    if ops == [] then tr else
      DoGrown(tr, size, ops[0]);
      Run(Do(tr, size, ops[0]), size, ops[1..])
  }

  /** The exact growth bound: after any legal run from a fresh pool there are max(1, ceil(peak / size))
      channels, and no index above the peak number of simultaneously live indices was ever issued. */
  lemma GrowthIsExact(size: nat, ops: seq<Op>)
    requires size > 0 && Grown(Start(size), size) && LegalRun(Start(size), size, ops)
    ensures var tr := Run(Start(size), size, ops);
      && |tr.lists| == Needed(tr.peak, size)
      && tr.top <= tr.peak
  {
    var tr := Run(Start(size), size, ops);
    NeededExact(tr.peak, size, |tr.lists|);
  }
}
