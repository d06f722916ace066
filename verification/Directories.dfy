/**
  Ring naming as an object: the shared table, this process's handle cache, and the pool behind them.
*/
module Directories {
  import opened PoolModel
  import opened Pools
  import RingNames

  class Directory {
    const pool: Pool
    var table: map<RingNames.Pair, nat>
    var rbMemo: map<nat, RingNames.Handle>

    ghost function View(): RingNames.Names
      reads this, pool
    {
      RingNames.Names(table, pool.lists, rbMemo)
    }

    ghost predicate Valid()
      reads this, pool, pool.Repr, pool.chans, set c | c in pool.chans :: c.address
    {
      this !in pool.Repr && pool.Valid() && RingNames.Agree(View(), pool.size)
    }

    constructor (pool: Pool)
      requires pool.Valid() && pool.lists == [Fresh(pool.size)]
      ensures Valid() && this.pool == pool && View() == RingNames.Start(pool.size)
    {
      this.pool := pool;
      table, rbMemo := map[], map[];
      RingNames.StartAgrees(pool.size);
    }

    method GetIdx(p: RingNames.Pair) returns (ret: nat)
      requires Valid()
      modifies this`table, pool.Repr
      ensures Valid() && fresh(pool.Repr - old(pool.Repr))
      ensures (ret, View()) == RingNames.GetIdx(old(View()), pool.size, p)
    {
      RingNames.GetIdxAgrees(View(), pool.size, p);
      ret := if p in table then table[p] else 0;
      RingNames.EntriesPositive(View(), pool.size);
      if ret == 0 {
        ret := pool.Get();
        table := table[p := ret];
      }
    }

    method RbGet(k: nat) returns (reader: RingNames.Handle)
      requires Valid()
      modifies this`rbMemo
      ensures Valid()
      ensures (reader, View()) == RingNames.RbGet(old(View()), k)
    {
      if k !in rbMemo {
        rbMemo := rbMemo[k := RingNames.RbInit(k)];
      }
      reader := rbMemo[k];
    }

    /** `rb_get` of what `get_idx` returns. */
    method Attach(p: RingNames.Pair) returns (reader: RingNames.Handle)
      requires Valid()
      modifies this, pool.Repr
      ensures Valid() && fresh(pool.Repr - old(pool.Repr))
      ensures p in table && reader == RingNames.RbInit(table[p]) && table[p] in Live(pool.lists, pool.size)
      ensures table - {p} == old(table) - {p} && (p in old(table) ==> table[p] == old(table)[p])
      ensures p in old(table) ==> table == old(table)
    {
      RingNames.GetIdxAgrees(View(), pool.size, p);
      var k := GetIdx(p);
      RingNames.RbGetAgrees(View(), pool.size, k);
      reader := RbGet(k);
    }

    /** The ring part of `close`: `clear_idx` after the lookup, then `rb_destroy`. */
    method Close(p: RingNames.Pair)
      requires Valid()
      modifies this, pool.Repr
      ensures Valid() && fresh(pool.Repr - old(pool.Repr))
      ensures View() == RingNames.Close(old(View()), pool.size, p)
      ensures table == old(table) - {p}
      ensures Live(pool.lists, pool.size) ==
        Live(old(pool.lists), pool.size) - (if p in old(table) then {old(table)[p]} else {})
    {
      RingNames.CloseAgrees(View(), pool.size, p);
      RingNames.CloseReleases(View(), pool.size, p);
      var k := GetIdx(p);
      var reader := RbGet(k);
      table := table - {p};
      pool.Release(reader.index);
    }
  }
}
