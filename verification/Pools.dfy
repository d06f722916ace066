/**
  The pool as objects: `Channel` keeps its free list inside its `address` array, `Pool` walks a
  growing chain of channels.
*/
module Pools {
  import opened PoolModel

  class Channel {
    const size: nat
    const key: nat
    const address: array<nat>
    var next: Channel?

    ghost predicate Holds(free: seq<nat>)
      reads address
    {
      size > 0 && IsChain(address[..], size, free)
    }

    /** A new channel: the chain runs through all its cells in ascending order. */
    constructor (key: nat, size: nat)
      requires size > 0
      ensures this.key == key && this.size == size && next == null && fresh(address)
      ensures Holds(Fresh(size)) && address[size + 1] == 0
    {
      this.key, this.size := key, size;
      var cells := new nat[size + 2];
      address := cells;
      next := null;
      new;
      for i := 0 to size + 1
        invariant address.Length == size + 2 && next == null
        invariant forall j :: 0 <= j < i ==> address[j] == j + 1
      {
        address[i] := i + 1;
      }
      address[size] := 0;
      address[size + 1] := 0;
    }

    /** The first free index, or 0 when there is none; the swap on cell 0 cannot fail. */
    method Get(ghost free: seq<nat>) returns (ret: nat)
      requires Holds(free)
      modifies address
      ensures ret == if free == [] then 0 else free[0]
      ensures Holds(Rest(free))
      ensures address[size + 1] == old(address[size + 1])
    {
      PopChain(address[..], size, free);
      ret := address[0];
      var newNext := address[ret];
      address[0] := newNext;
    }

    method Release(index: nat, ghost free: seq<nat>)
      requires Holds(free) && 1 <= index <= size && index !in free
      modifies address
      ensures Holds([index] + free)
      ensures address[size + 1] == old(address[size + 1])
    {
      PushChain(address[..], size, free, index);
      var oldNext := address[0];
      address[index] := oldNext;
      address[0] := index;
    }

    /** A fresh successor with the next key, which is also recorded in the last cell. */
    method AllocNextChannel(ghost free: seq<nat>)
      requires Holds(free)
      modifies this, address
      ensures next != null && fresh(next) && fresh(next.address) && next.next == null
      ensures next.key == key + 1 && next.size == size
      ensures next.Holds(Fresh(size)) && next.address[size + 1] == 0
      ensures Holds(free) && address[size + 1] == key + 1
    {
      var channel := new Channel(key + 1, size);
      next := channel;
      address[size + 1] := key + 1;
    }
  }

  lemma ListsRest(p: Lists, size: nat, c: nat)
    requires ListsOk(p, size) && c < |p|
    ensures ListsOk(p[c := Rest(p[c])], size)
  {
    assert FreeOk(p[c], size);
  }

  lemma ListsPush(p: Lists, size: nat, c: nat, local: nat)
    requires ListsOk(p, size) && c < |p| && 1 <= local <= size && local !in p[c]
    ensures ListsOk(p[c := [local] + p[c]], size)
  {
    assert FreeOk(p[c], size);
  }

  /** `get` on pool `was` has come to channel `c`; the free lists are now `now`. */
  ghost predicate Walking(was: Lists, now: Lists, size: nat, c: nat, prefix: nat)
    requires size > 0
  {
    && c < |now| && c <= |was|
    && now == (if c < |was| then was else was + [Fresh(size)])
    && Get(was, size) == GetFrom(was, size, c, prefix)
  }

  /** Either the channel has an index to give, or the walk goes on with the next channel. */
  lemma WalkStep(was: Lists, now: Lists, size: nat, c: nat, prefix: nat)
    requires size > 0 && Walking(was, now, size, c, prefix)
    ensures now[c] != [] ==> Get(was, size) == (prefix + now[c][0], now[c := Rest(now[c])])
    ensures now[c] == [] ==> now[c := Rest(now[c])] == now
    ensures now[c] == [] && c + 1 < |now| ==> Walking(was, now, size, c + 1, prefix + size)
    ensures now[c] == [] && c + 1 == |now| ==> Walking(was, now + [Fresh(size)], size, c + 1, prefix + size)
  {
    if c == |was| {
      assert now[c := Rest(now[c])] == was + [Fresh(size)[1..]];
    }
  }

  /** The channel and local index that `release` has to reach. */
  lemma ReleaseTarget(p: Lists, size: nat, index: nat)
    requires ListsOk(p, size) && index in Live(p, size)
    ensures var (c, r) := Locate(index, size);
      && 1 <= index && 1 <= r <= size && c < |p| && r !in p[c]
      && PoolModel.Release(p, size, index) == p[c := [r] + p[c]]
  {
    LiveCriterion(p, size, index);
    LocateExact(index, size);
  }

  class Pool {
    const size: nat
    const head: Channel
    ghost var chans: seq<Channel>
    ghost var lists: Lists
    ghost var Repr: set<object>

    ghost var place: map<object, nat>

    /** Channel `c` of the chain holds free list `c`, in cells of its own. */
    ghost predicate ChannelOk(c: nat)
      requires c < |chans| == |lists|
      reads this, chans[c], chans[c].address
    {
      && chans[c] in Repr && chans[c].address in Repr
      && chans[c].address in place && place[chans[c].address] == c
      && chans[c].size == size && chans[c].key == POOL_SHM_KEY + c
      && chans[c].next == (if c + 1 < |chans| then chans[c + 1] else null)
      && chans[c].Holds(lists[c])
      && chans[c].address[size + 1] == (if c + 1 < |chans| then POOL_SHM_KEY + c + 1 else 0)
    }

    ghost predicate Valid()
      reads this, Repr, chans, set c | c in chans :: c.address
    {
      && this in Repr && |chans| == |lists| && ListsOk(lists, size) && chans[0] == head
      && forall c {:trigger ChannelOk(c)} :: 0 <= c < |chans| ==> ChannelOk(c)
    }

    lemma Owned(c: nat)
      requires Valid() && c < |chans|
      ensures chans[c] in Repr && chans[c].address in Repr && chans[c].size == size
      ensures c + 1 < |chans| ==> chans[c].next == chans[c + 1]
    {
      assert ChannelOk(c);
    }

    constructor (size: nat)
      requires size > 0
      ensures Valid() && fresh(Repr) && this.size == size && lists == [Fresh(size)]
    {
      this.size := size;
      var channel := new Channel(POOL_SHM_KEY, size);
      head := channel;
      chans, lists := [channel], [Fresh(size)];
      place := map[channel.address := 0];
      Repr := {this, channel, channel.address};
    }

    /** Rewriting the cells of channel `c` and its free list leaves the other channels as they were. */
    twostate lemma ChannelsKept(c: nat)
      requires old(Valid()) && c < |chans| && ListsOk(lists, size)
      requires chans == old(chans) && Repr == old(Repr) && place == old(place)
      requires |lists| == |old(lists)| && forall d :: 0 <= d < |lists| && d != c ==> lists[d] == old(lists[d])
      requires forall o :: o in Repr && o != this && o != chans[c].address ==> unchanged(o)
      requires chans[c].size == size && chans[c].Holds(lists[c])
      requires chans[c].address[size + 1] == old(chans[c].address[size + 1])
      ensures Valid()
    {
      assert old(ChannelOk(c));
      forall d | 0 <= d < |chans| ensures ChannelOk(d) {
        assert old(ChannelOk(d));
        if d != c { assert unchanged(chans[d].address); }
      }
    }

    /** Pop the free list of channel `c`. */
    method Take(current: Channel, ghost c: nat) returns (r: nat)
      requires Valid() && c < |chans| && current == chans[c]
      modifies current.address, this`lists
      ensures Valid()
      ensures r == Link(old(lists[c]), 0) && (r > 0 <==> old(lists[c]) != []) && current.size == size
      ensures lists == old(lists)[c := Rest(old(lists[c]))]
    {
      assert ChannelOk(c);
      ListsRest(lists, size, c);
      assert FreeOk(lists[c], size);
      r := current.Get(lists[c]);
      lists := lists[c := Rest(lists[c])];
      ChannelsKept(c);
    }

    /** Push a local index that is not free onto the free list of channel `c`. */
    method Give(current: Channel, local: nat, ghost c: nat)
      requires Valid() && c < |chans| && current == chans[c] && 1 <= local <= size && local !in lists[c]
      modifies current.address, this`lists
      ensures Valid()
      ensures lists == old(lists)[c := [local] + old(lists[c])]
    {
      assert ChannelOk(c);
      ListsPush(lists, size, c, local);
      current.Release(local, lists[c]);
      lists := lists[c := [local] + lists[c]];
      ChannelsKept(c);
    }

    /** Append a fresh channel after the last one. */
    method Extend(last: Channel)
      requires Valid() && last == chans[|chans| - 1]
      modifies last, last.address, this
      ensures Valid() && fresh(Repr - old(Repr)) && old(Repr) <= Repr
      ensures |chans| == |old(chans)| + 1 && chans[..|old(chans)|] == old(chans) && last.next == chans[|old(chans)|]
      ensures lists == old(lists) + [Fresh(size)]
    {
      assert ChannelOk(|chans| - 1) && FreeOk(lists[|chans| - 1], size);
      last.AllocNextChannel(lists[|chans| - 1]);
      chans, lists, place := chans + [last.next], lists + [Fresh(size)], place[last.next.address := |chans|];
      Repr := Repr + {last.next, last.next.address};
      forall d | 0 <= d < |chans| ensures ChannelOk(d) {
        assert d < |old(chans)| ==> old(ChannelOk(d));
      }
    }

    /** The channel after `current`, appended first if there is none. */
    method Advance(current: Channel, ghost c: nat) returns (next: Channel)
      requires Valid() && c < |chans| && current == chans[c]
      modifies Repr
      ensures Valid() && fresh(Repr - old(Repr))
      ensures c + 1 < |chans| && next == chans[c + 1]
      ensures lists == old(lists) + (if c + 1 < |old(lists)| then [] else [Fresh(size)])
    {
      assert ChannelOk(c);
      if current.next == null {
        Extend(current);
      }
      next := current.next;
    }

    /** The walk starts at the first channel and appends one when it runs off the end. */
    method Get() returns (index: nat)
      requires Valid()
      modifies Repr
      ensures Valid() && fresh(Repr - old(Repr))
      ensures (index, lists) == PoolModel.Get(old(lists), size)
    {
      var current, prefix := head, 0;
      ghost var c := 0;
      while true
        invariant Valid() && fresh(Repr - old(Repr))
        invariant c < |chans| && current == chans[c] && prefix >= 0
        invariant Walking(old(lists), lists, size, c, prefix)
        decreases |old(lists)| + 1 - c
      {
        Owned(c);
        WalkStep(old(lists), lists, size, c, prefix);
        var r := Take(current, c);
        if r > 0 {
          return prefix + r;
        }
        prefix := prefix + current.size;
        current := Advance(current, c);
        c := c + 1;
      }
    }

    /** The subtraction loop finds the channel of a live index, which takes it back. */
    method Release(index: nat)
      requires Valid() && index in Live(lists, size)
      modifies Repr
      ensures Valid() && Repr == old(Repr)
      ensures Locate(index, size).0 < |old(lists)| && lists == PoolModel.Release(old(lists), size, index)
      ensures Live(lists, size) == Live(old(lists), size) - {index}
    {
      ReleaseIsExact(lists, size, index);
      ReleaseTarget(lists, size, index);
      var current, local := head, index;
      ghost var c := 0;
      while local > current.size
        invariant c < |chans| && current == chans[c] && local >= 1
        invariant Locate(index, size) == (c + Locate(local, size).0, Locate(local, size).1)
        decreases local
      {
        assert ChannelOk(c);
        local := local - current.size;
        current := current.next;
        c := c + 1;
      }
      assert ChannelOk(c);
      Give(current, local, c);
    }
  }
}
