/**
  The integers that key shared segments: rings, per-port index tables, pool channels and the listen
  table all draw from one 32-bit key space. While at most 32767 rings are live at once they never
  meet.
*/
module SharedKeys {
  import opened PoolModel
  import opened PoolGrowth
  import RingNames

  const CHANNEL_SIZE := 4094
  const LISTEN_PID_TABLE_KEY := 0x4f4f4f4f

  function RingKey(index: nat): nat { RingNames.RbInit(index).key }
  function BlockKey(port: RingNames.Port): nat { port as int }
  function ChannelKey(c: nat): nat { POOL_SHM_KEY + c }

  // ---------------------------------------------------------------- naming with its history

  /** Ring naming together with the history of the pool behind it. */
  datatype Tracked = Tracked(names: RingNames.Names, pool: Track)

  ghost predicate Joined(t: Tracked, size: nat) {
    RingNames.Agree(t.names, size) && Grown(t.pool, size) && t.pool.lists == t.names.lists
  }

  ghost function LookupPool(t: Tracked, size: nat, p: RingNames.Pair): Track
    requires Joined(t, size)
  {
    if p in t.names.table then t.pool else Do(t.pool, size, GetOp)
  }

  /** Looking a pair up is a `get` exactly when the pair has no entry. */
  lemma LookupJoined(t: Tracked, size: nat, p: RingNames.Pair)
    requires Joined(t, size)
    ensures Joined(Tracked(RingNames.GetIdx(t.names, size, p).1, LookupPool(t, size, p)), size)
  {
    RingNames.GetIdxAgrees(t.names, size, p);
    if p !in t.names.table { DoGrown(t.pool, size, GetOp); }
  }

  ghost function ClosePool(t: Tracked, size: nat, p: RingNames.Pair): Track
    requires Joined(t, size)
  {
    LookupJoined(t, size, p);
    RingNames.GetIdxAgrees(t.names, size, p);
    Do(LookupPool(t, size, p), size, ReleaseOp(RingNames.GetIdx(t.names, size, p).0))
  }

  lemma CloseJoined(t: Tracked, size: nat, p: RingNames.Pair)
    requires Joined(t, size)
    ensures Joined(Tracked(RingNames.Close(t.names, size, p), ClosePool(t, size, p)), size)
  {
    LookupJoined(t, size, p);
    RingNames.GetIdxAgrees(t.names, size, p);
    RingNames.CloseReleases(t.names, size, p);
    RingNames.CloseAgrees(t.names, size, p);
    DoGrown(LookupPool(t, size, p), size, ReleaseOp(RingNames.GetIdx(t.names, size, p).0));
  }

  ghost function Advance(t: Tracked, size: nat, op: RingNames.Op): (t': Tracked)
    requires Joined(t, size)
    ensures Joined(t', size) && t'.names == RingNames.Do(t.names, size, op)
  {
    match op
    case Lookup(p) => LookupJoined(t, size, p); Tracked(RingNames.GetIdx(t.names, size, p).1, LookupPool(t, size, p))
    case Attach(k) => RingNames.RbGetAgrees(t.names, size, k); t.(names := RingNames.RbGet(t.names, k).1)
    case CloseRing(p) => CloseJoined(t, size, p); Tracked(RingNames.Close(t.names, size, p), ClosePool(t, size, p))
  }

  ghost function History(t: Tracked, size: nat, ops: seq<RingNames.Op>): (t': Tracked)
    requires Joined(t, size)
    ensures Joined(t', size) && t'.names == RingNames.Run(t.names, size, ops)
    decreases |ops|
  {
    if ops == [] then t else History(Advance(t, size, ops[0]), size, ops[1..])
  }

  ghost function Begin(size: nat): (t: Tracked)
    requires size > 0
    ensures Joined(t, size)
  {
    RingNames.StartAgrees(size);
    StartGrown(size);
    Tracked(RingNames.Start(size), Start(size))
  }

  /** Whatever is looked up and closed, an index in the table is at most the peak number of live
      rings, and the pool has exactly the channels the peak calls for. */
  lemma IndicesBounded(size: nat, ops: seq<RingNames.Op>, p: RingNames.Pair)
    requires size > 0
    ensures var t := History(Begin(size), size, ops);
      && (p in t.names.table ==> 1 <= t.names.table[p] <= t.pool.peak)
      && |t.names.lists| == Needed(t.pool.peak, size)
  {
    var t := History(Begin(size), size, ops);
    NeededExact(t.pool.peak, size, |t.names.lists|);
    if p in t.names.table {
      assert t.names.table[p] in t.names.table.Values;
      LiveIsIssued(t.pool, size, t.names.table[p]);
    }
  }

  /** A live index was issued, so it is at most the peak. */
  lemma LiveIsIssued(tr: Track, size: nat, index: nat)
    requires Grown(tr, size) && index in Live(tr.lists, size)
    ensures 1 <= index <= tr.peak
  {
    LiveCriterion(tr.lists, size, index);
    LocateExact(index, size);
    var (c, r) := Locate(index, size);
    assert MarkOk(tr.lists[c], size, tr.marks[c]);
    AboveMark(tr.lists[c], size, tr.marks[c], r);
  }

  // ---------------------------------------------------------------- keys

  /** A ring key is a positive 32-bit key exactly for the indices 1 .. 32767. */
  lemma RingKeyFits(index: nat)
    ensures 0 < RingKey(index) < 0x8000_0000 <==> 1 <= index <= 32767
  {
  }

  /** The key of a ring is its index in the upper half: nothing below, and the index back. The key of a
      port's block lies in the lower half and is the port. */
  lemma RingKeyDecodes(index: nat, port: RingNames.Port)
    ensures RingKey(index) % 0x1_0000 == 0 && RingKey(index) / 0x1_0000 == index
    ensures BlockKey(port) / 0x1_0000 == 0 && BlockKey(port) % 0x1_0000 == port as int
  {
  }

  lemma NineChannels(peak: nat)
    requires peak <= 32767
    ensures Needed(peak, CHANNEL_SIZE) <= 9
  {
    NeededIsCeiling(peak, CHANNEL_SIZE);
  }

  lemma KeyRanges(i: nat, j: nat, port: RingNames.Port, other: RingNames.Port, c: nat, d: nat)
    requires 1 <= i <= 32767 && 1 <= j <= 32767 && c < 9 && d < 9
    ensures 0 < RingKey(i) < 0x8000_0000 && (RingKey(i) == RingKey(j) ==> i == j)
    ensures (BlockKey(port) == BlockKey(other) ==> port == other) && (ChannelKey(c) == ChannelKey(d) ==> c == d)
    ensures RingKey(i) != BlockKey(port) && RingKey(i) != ChannelKey(c) && RingKey(i) != LISTEN_PID_TABLE_KEY
    ensures BlockKey(port) != ChannelKey(c) && BlockKey(port) != LISTEN_PID_TABLE_KEY
    ensures ChannelKey(c) != LISTEN_PID_TABLE_KEY
  {
  }

  /** Two rings of the table and two pool channels. */
  ghost predicate Present(n: RingNames.Names, p: RingNames.Pair, q: RingNames.Pair, c: nat, d: nat) {
    p in n.table && q in n.table && c < |n.lists| && d < |n.lists|
  }

  ghost predicate Apart(n: RingNames.Names, p: RingNames.Pair, q: RingNames.Pair, port: RingNames.Port,
                        other: RingNames.Port, c: nat, d: nat)
    requires Present(n, p, q, c, d)
  {
    var ring := RingKey(n.table[p]);
    && 0 < ring < 0x8000_0000 && (ring == RingKey(n.table[q]) ==> p == q)
    && (BlockKey(port) == BlockKey(other) ==> port == other) && (ChannelKey(c) == ChannelKey(d) ==> c == d)
    && ring != BlockKey(port) && ring != ChannelKey(c) && ring != LISTEN_PID_TABLE_KEY
    && BlockKey(port) != ChannelKey(c) && BlockKey(port) != LISTEN_PID_TABLE_KEY
    && ChannelKey(c) != LISTEN_PID_TABLE_KEY
  }

  /** In every reachable state with a peak of at most 32767 live rings: every ring key fits; rings
      of different pairs, blocks of different ports and different channels have different keys; and
      ring keys, port-block keys, channel keys and the listen-table key never coincide. */
  lemma KeysApart(ops: seq<RingNames.Op>, p: RingNames.Pair, q: RingNames.Pair, port: RingNames.Port,
                  other: RingNames.Port, c: nat, d: nat)
    ensures var t := History(Begin(CHANNEL_SIZE), CHANNEL_SIZE, ops);
      t.pool.peak <= 32767 && Present(t.names, p, q, c, d) ==> Apart(t.names, p, q, port, other, c, d)
  {
    var t := History(Begin(CHANNEL_SIZE), CHANNEL_SIZE, ops);
    if t.pool.peak <= 32767 && Present(t.names, p, q, c, d) {
      IndicesBounded(CHANNEL_SIZE, ops, p);
      IndicesBounded(CHANNEL_SIZE, ops, q);
      NineChannels(t.pool.peak);
      KeyRanges(t.names.table[p], t.names.table[q], port, other, c, d);
    }
  }
}
