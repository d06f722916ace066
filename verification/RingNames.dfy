/**
  How a pair of ports names a ring: a table from port pairs to pool indices and, in each process, a
  cache from indices to handles.
*/
module RingNames {
  import opened PoolModel
  import PortValues

  /** Source port 0 would key a private segment, so ports start at 1. */
  newtype Port = p: int | 1 <= p < PortValues.PORT_NUMBER witness 1

  /** Source port, then destination port. */
  datatype Pair = Pair(src: Port, dst: Port)

  /** A ring this process has attached: its pool index and the key of its segment. */
  datatype Handle = Handle(index: nat, key: nat)

  /** `table` holds the non-zero entries of all the per-source-port arrays. */
  datatype Names = Names(table: map<Pair, nat>, lists: Lists, memo: map<nat, Handle>)

  function RbInit(index: nat): Handle { Handle(index, index * 65536) }

  // ---------------------------------------------------------------- operations

  function GetIdx(n: Names, size: nat, p: Pair): (nat, Names)
    requires size > 0
  {
    if p in n.table then (n.table[p], n)
    else
      var (index, lists) := Get(n.lists, size);
      (index, n.(table := n.table[p := index], lists := lists))
  }

  function RbGet(n: Names, k: nat): (Handle, Names) {
    if k in n.memo then (n.memo[k], n)
    else (RbInit(k), n.(memo := n.memo[k := RbInit(k)]))
  }

  function ClearIdx(n: Names, p: Pair): Names { n.(table := n.table - {p}) }

  /** The ring part of `close`: look the ring up (creating it if need be), clear its entry and give
      its index back. */
  function Close(n: Names, size: nat, p: Pair): Names
    requires Agree(n, size)
  {
    var (k, n1) := GetIdx(n, size, p);
    var (reader, n2) := RbGet(n1, k);
    CloseReleases(n, size, p);
    ClearIdx(n2, p).(lists := Release(n2.lists, size, reader.index))
  }

  // ---------------------------------------------------------------- the invariant

  /** The table is an injective view of the pool's live set, and a cached handle under `k` is a
      handle of index `k`. */
  ghost predicate Agree(n: Names, size: nat) {
    && ListsOk(n.lists, size)
    && n.table.Values == Live(n.lists, size)
    && (forall p, q :: p in n.table && q in n.table && n.table[p] == n.table[q] ==> p == q)
    && (forall k :: k in n.memo ==> n.memo[k] == RbInit(k))
  }

  ghost function Start(size: nat): Names { Names(map[], [Fresh(size)], map[]) }

  lemma StartAgrees(size: nat)
    requires size > 0
    ensures Agree(Start(size), size)
  {
    NothingLive(size);
  }

  /** Entry 0 means free: no entry of the table is 0. */
  lemma EntriesPositive(n: Names, size: nat)
    requires Agree(n, size)
    ensures forall p :: p in n.table ==> n.table[p] >= 1
  {
    forall p | p in n.table ensures n.table[p] >= 1 {
      assert n.table[p] in n.table.Values;
    }
  }

  lemma GetIdxAgrees(n: Names, size: nat, p: Pair)
    requires Agree(n, size)
    ensures var (k, n') := GetIdx(n, size, p);
      && Agree(n', size) && p in n'.table && n'.table[p] == k && k in Live(n'.lists, size)
      && n'.table - {p} == n.table - {p} && n'.memo == n.memo
      && (p in n.table ==> n' == n)
      && (p !in n.table ==> k !in Live(n.lists, size) && Live(n'.lists, size) == Live(n.lists, size) + {k})
  {
    var (k, n') := GetIdx(n, size, p);
    if p in n.table {
      assert n.table[p] in n.table.Values;
    } else {
      GetIsFresh(n.lists, size);
      assert n'.table[p] in n'.table.Values;
      forall i ensures i in n'.table.Values <==> i in n.table.Values || i == k {
        if i in n.table.Values {
          var q :| q in n.table && n.table[q] == i;
          assert n'.table[q] == i;
        }
      }
      forall q | q in n.table ensures n.table[q] != k {
        assert n.table[q] in n.table.Values;
      }
    }
  }

  lemma RbGetAgrees(n: Names, size: nat, k: nat)
    requires Agree(n, size)
    ensures var (h, n') := RbGet(n, k);
      Agree(n', size) && h == RbInit(k) && n'.table == n.table && n'.lists == n.lists && k in n'.memo
  {
  }

  /** The handle that `close` destroys carries the index whose entry it clears, and that index is
      live, so the release is legal. */
  lemma CloseReleases(n: Names, size: nat, p: Pair)
    requires Agree(n, size)
    ensures var (k, n1) := GetIdx(n, size, p);
      var (reader, n2) := RbGet(n1, k);
      && Agree(n2, size) && n2.table == n1.table && n2.lists == n1.lists
      && reader.index == k == n2.table[p] && k in Live(n2.lists, size)
      && Locate(reader.index, size).0 < |n2.lists|
  {
    GetIdxAgrees(n, size, p);
    var (k, n1) := GetIdx(n, size, p);
    RbGetAgrees(n1, size, k);
    ReleaseIsExact(n1.lists, size, k);
  }

  /** Taking an entry out of the table takes exactly its value out of the values. */
  lemma ValuesWithout(table: map<Pair, nat>, p: Pair)
    requires p in table && forall q, r :: q in table && r in table && table[q] == table[r] ==> q == r
    ensures (table - {p}).Values == table.Values - {table[p]}
  {
    var rest := table - {p};
    forall i ensures i in rest.Values <==> i in table.Values && i != table[p] {
      if i in table.Values && i != table[p] {
        var q :| q in table && table[q] == i;
        assert rest[q] == i;
      }
    }
  }

  /** `close` keeps the agreement, clears the entry of its pair and no other, and releases exactly
      the index that entry held; for a ring that was never used the live set does not change. */
  lemma CloseAgrees(n: Names, size: nat, p: Pair)
    requires Agree(n, size)
    ensures var n' := Close(n, size, p);
      && Agree(n', size) && n'.table == n.table - {p}
      && Live(n'.lists, size) == Live(n.lists, size) - (if p in n.table then {n.table[p]} else {})
  {
    GetIdxAgrees(n, size, p);
    CloseReleases(n, size, p);
    var (k, n1) := GetIdx(n, size, p);
    var (reader, n2) := RbGet(n1, k);
    ReleaseIsExact(n2.lists, size, k);
    ValuesWithout(n2.table, p);
    assert n.table - {p} == n1.table - {p};
  }

  /** Closing a never-used ring gives the pool back exactly as it was, unless the lookup had to
      append a channel. */
  lemma CloseUnusedRestores(n: Names, size: nat, p: Pair)
    requires Agree(n, size) && p !in n.table && FirstFree(n.lists, 0) < |n.lists|
    ensures Close(n, size, p).lists == n.lists && Close(n, size, p).table == n.table
  {
    GetIdxAgrees(n, size, p);
    CloseReleases(n, size, p);
    ReleaseUndoesGet(n.lists, size);
  }

  // ---------------------------------------------------------------- any sequence of operations

  datatype Op = Lookup(p: Pair) | Attach(k: nat) | CloseRing(p: Pair)

  ghost function Do(n: Names, size: nat, op: Op): (n': Names)
    requires Agree(n, size)
    ensures Agree(n', size)
  {
    match op
    case Lookup(p) => GetIdxAgrees(n, size, p); GetIdx(n, size, p).1
    case Attach(k) => RbGetAgrees(n, size, k); RbGet(n, k).1
    case CloseRing(p) => CloseAgrees(n, size, p); Close(n, size, p)
  }

  ghost function Run(n: Names, size: nat, ops: seq<Op>): Names
    requires Agree(n, size)
    decreases |ops|
  {
    if ops == [] then n else Run(Do(n, size, ops[0]), size, ops[1..])
  }

  /** A pair is named exactly when it was looked up after its last close. */
  function Named(ops: seq<Op>, before: bool, p: Pair): bool
    decreases |ops|
  {
    if ops == [] then before
    else
      var last := ops[|ops| - 1];
      if last == Lookup(p) then true
      else if last == CloseRing(p) then false
      else Named(ops[..|ops| - 1], before, p)
  }

  lemma {:induction false} RunSnoc(n: Names, size: nat, ops: seq<Op>, op: Op)
    requires Agree(n, size)
    ensures Agree(Run(n, size, ops), size) && Run(n, size, ops + [op]) == Do(Run(n, size, ops), size, op)
    decreases |ops|
  {
    if ops == [] {
      assert [] + [op] == [op] && [op][1..] == [];
    } else {
      RunSnoc(Do(n, size, ops[0]), size, ops[1..], op);
      assert (ops + [op])[1..] == ops[1..] + [op];
    }
  }

  /** After any sequence of lookups, attachments and closes the table and the pool still agree, and
      which pairs have an entry follows from their last lookup or close. */
  lemma {:induction false} RunNames(n: Names, size: nat, ops: seq<Op>, p: Pair)
    requires Agree(n, size)
    ensures var n' := Run(n, size, ops);
      Agree(n', size) && (p in n'.table <==> Named(ops, p in n.table, p))
    decreases |ops|
  {
    if ops != [] {
      var init, op := ops[..|ops| - 1], ops[|ops| - 1];
      assert ops == init + [op];
      RunSnoc(n, size, init, op);
      RunNames(n, size, init, p);
      var n' := Run(n, size, init);
      match op {
        case Lookup(q) => GetIdxAgrees(n', size, q); EntryElsewhere(n'.table, GetIdx(n', size, q).1.table, q, p);
        case Attach(k) => RbGetAgrees(n', size, k);
        case CloseRing(q) => CloseAgrees(n', size, q);
      }
    }
  }

  /** From an empty table and pool, exactly the pairs looked up since their last close have an entry,
      and the agreement holds. */
  lemma TableFollowsPool(size: nat, ops: seq<Op>, p: Pair)
    requires size > 0 && Agree(Start(size), size)
    ensures var n := Run(Start(size), size, ops);
      Agree(n, size) && (p in n.table <==> Named(ops, false, p))
  {
    RunNames(Start(size), size, ops, p);
  }

  lemma EntryElsewhere(a: map<Pair, nat>, b: map<Pair, nat>, q: Pair, p: Pair)
    requires a - {q} == b - {q}
    ensures p != q ==> (p in a <==> p in b)
  {
    assert p != q ==> (p in a <==> p in a - {q}) && (p in b <==> p in b - {q});
  }
}
