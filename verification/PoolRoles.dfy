/**
  Which threads may share a channel, in terms of who gets and who releases; and the runs that break
  it. Thread `z` is slow, `g` gets, and `r` releases; `g` and `r` may be one thread.
*/
module PoolRoles {
  import opened FiniteSets
  import opened PoolModel
  import opened PoolConcurrent

  /** Only `getters` get, and only `releasers` release. */
  ghost predicate Roles(acts: seq<Action>, getters: set<nat>, releasers: set<nat>) {
    forall a :: a in acts ==> (a.StartGet? ==> a.t in getters) && (a.StartRelease? ==> a.t in releasers)
  }

  lemma Then(s: State, acts: seq<Action>, a: Action)
    requires Inside(s) && Legal(s, acts) && Enabled(Exec(s, acts), a)
    ensures Legal(s, acts + [a]) && Exec(s, acts + [a]) == Step(Exec(s, acts), a)
    decreases |acts|
  {
    if acts == [] {
      assert [] + [a] == [a];
    } else {
      Then(Step(s, acts[0]), acts[1..], a);
      assert (acts + [a])[1..] == acts[1..] + [a];
    }
  }

  /** A getter that runs alone. */
  lemma LoneGet(s: State, acts: seq<Action>, t: nat) returns (acts': seq<Action>)
    requires Inside(s) && Legal(s, acts)
    requires var s1 := Exec(s, acts); t < |s1.threads| && s1.threads[t].Idle?
    ensures Legal(s, acts') && forall a :: a in acts' ==> a in acts || a == StartGet(t) || a == Go(t)
    ensures var (s1, s') := (Exec(s, acts), Exec(s, acts'));
      s' == s1.(address := s1.address[0 := s1.address[s1.address[0]]], free := Rest(s1.free),
                live := if s1.address[0] == 0 then s1.live else s1.live + {s1.address[0]})
  {
    var s1 := Exec(s, acts);
    acts' := LoadTwo(s, acts, t);
    Then(s, acts', Go(t));
    acts' := acts' + [Go(t)];
    assert s1.threads[t := Idle] == s1.threads;
  }

  /** A getter up to its swap. */
  lemma LoadTwo(s: State, acts: seq<Action>, t: nat) returns (acts': seq<Action>)
    requires Inside(s) && Legal(s, acts)
    requires var s1 := Exec(s, acts); t < |s1.threads| && s1.threads[t].Idle?
    ensures Legal(s, acts') && forall a :: a in acts' ==> a in acts || a == StartGet(t) || a == Go(t)
    ensures var s1 := Exec(s, acts);
      Exec(s, acts') == s1.(threads := s1.threads[t := GetCas(s1.address[0], s1.address[s1.address[0]])])
  {
    Then(s, acts, StartGet(t));
    Then(s, acts + [StartGet(t)], Go(t));
    Then(s, acts + [StartGet(t)] + [Go(t)], Go(t));
    acts' := acts + [StartGet(t)] + [Go(t)] + [Go(t)];
  }

  /** A releaser that runs alone. */
  lemma LoneRelease(s: State, acts: seq<Action>, t: nat, index: nat) returns (acts': seq<Action>)
    requires Inside(s) && Legal(s, acts)
    requires var s1 := Exec(s, acts);
      t < |s1.threads| && s1.threads[t].Idle? && index in s1.live && index !in s1.flight
    ensures Legal(s, acts') && forall a :: a in acts' ==> a in acts || a == StartRelease(t, index) || a == Go(t)
    ensures var (s1, s') := (Exec(s, acts), Exec(s, acts'));
      s' == s1.(address := s1.address[index := s1.address[0]][0 := index], free := [index] + s1.free,
                live := s1.live - {index})
  {
    var s1 := Exec(s, acts);
    Then(s, acts, StartRelease(t, index));
    Then(s, acts + [StartRelease(t, index)], Go(t));
    Then(s, acts + [StartRelease(t, index)] + [Go(t)], Go(t));
    Then(s, acts + [StartRelease(t, index)] + [Go(t)] + [Go(t)], Go(t));
    acts' := acts + [StartRelease(t, index)] + [Go(t)] + [Go(t)] + [Go(t)];
    assert s1.threads[t := Idle] == s1.threads;
    assert s1.flight[index := t] - {index} == s1.flight;
  }

  // ---------------------------------------------------------------- two getters and a releaser

  ghost predicate Cast(n: nat, z: nat, g: nat, r: nat) {
    z < n && g < n && r < n && z != g && z != r
  }

  /** The chain offers an index that is owned, and everybody is idle. */
  ghost predicate OffersOwned(s: State, g: nat) {
    && Inside(s) && g < |s.threads| && s.threads[g].Idle?
    && 1 <= s.address[0] && s.address[0] in s.live
  }

  /** The next step of getter `g` succeeds and returns an index that a caller owns. */
  ghost predicate HandsOutOwned(s: State, g: nat) {
    && Inside(s) && Enabled(s, Go(g)) && s.threads[g].GetCas? && s.threads[g].ret == s.address[0]
    && 1 <= s.address[0] && s.address[0] in s.live
  }

  /** Two slots or more: `z` is about to swap 1 for 2 when `g` takes both. */
  lemma BothTaken(size: nat, n: nat, z: nat, g: nat, r: nat) returns (acts: seq<Action>)
    requires size >= 2 && Cast(n, z, g, r) && Inside(Init(size, n))
    ensures Legal(Init(size, n), acts) && Roles(acts, {z, g}, {r})
    ensures var s := Exec(Init(size, n), acts);
      && s.threads == Init(size, n).threads[z := GetCas(1, 2)] && s.live == {1, 2} && s.flight == map[]
  {
    var s := Init(size, n);
    acts := SlowLoaded(size, n, z, g, r);
    acts := LoneGet(s, acts, g);
    assert Exec(s, acts).address[0] == 2 && Exec(s, acts).live == {1};
    acts := LoneGet(s, acts, g);
  }

  lemma SlowLoaded(size: nat, n: nat, z: nat, g: nat, r: nat) returns (acts: seq<Action>)
    requires size >= 2 && Cast(n, z, g, r) && Inside(Init(size, n))
    ensures Legal(Init(size, n), acts) && Roles(acts, {z, g}, {r})
    ensures Exec(Init(size, n), acts) == Init(size, n).(threads := Init(size, n).threads[z := GetCas(1, 2)])
  {
    acts := LoadTwo(Init(size, n), [], z);
  }

  lemma StaleSuccessor(size: nat, n: nat, z: nat, g: nat, r: nat) returns (acts: seq<Action>)
    requires size >= 2 && Cast(n, z, g, r) && Inside(Init(size, n))
    ensures Legal(Init(size, n), acts) && Roles(acts, {z, g}, {r}) && OffersOwned(Exec(Init(size, n), acts), g)
  {
    var s := Init(size, n);
    acts := BothTaken(size, n, z, g, r);
    acts := LoneRelease(s, acts, r, 1);
    Then(s, acts, Go(z));
    acts := acts + [Go(z)];
  }

  /** One slot: it is taken, and `z` loads 0 from cell 0 of the empty channel ... */
  lemma EmptyLoaded(n: nat, z: nat, g: nat, r: nat) returns (acts: seq<Action>)
    requires Cast(n, z, g, r) && Inside(Init(1, n))
    ensures Legal(Init(1, n), acts) && Roles(acts, {z, g}, {r})
    ensures var s := Exec(Init(1, n), acts);
      && s.threads == Init(1, n).threads[z := GetHead(0)] && s.address == [0, 0, 0]
      && s.live == {1} && s.flight == map[]
  {
    var s := Init(1, n);
    acts := LoneGet(s, [], g);
    assert Exec(s, acts).address == [0, 0, 0] && Exec(s, acts).live == {1};
    Then(s, acts, StartGet(z));
    Then(s, acts + [StartGet(z)], Go(z));
    acts := acts + [StartGet(z)] + [Go(z)];
  }

  /** ... and after a release it takes the released index for the successor of cell 0. */
  lemma EmptyTaken(n: nat, z: nat, g: nat, r: nat) returns (acts: seq<Action>)
    requires Cast(n, z, g, r) && Inside(Init(1, n))
    ensures Legal(Init(1, n), acts) && Roles(acts, {z, g}, {r})
    ensures var s := Exec(Init(1, n), acts);
      && s.threads == Init(1, n).threads[z := GetCas(0, 1)] && s.address == [1, 0, 0] && s.live == {}
  {
    var s := Init(1, n);
    acts := EmptyLoaded(n, z, g, r);
    acts := LoneRelease(s, acts, r, 1);
    assert Exec(s, acts).address == [1, 0, 0];
    Then(s, acts, Go(z));
    acts := acts + [Go(z)];
  }

  lemma EmptySuccessor(n: nat, z: nat, g: nat, r: nat) returns (acts: seq<Action>)
    requires Cast(n, z, g, r) && Inside(Init(1, n))
    ensures Legal(Init(1, n), acts) && Roles(acts, {z, g}, {r}) && OffersOwned(Exec(Init(1, n), acts), g)
  {
    var s := Init(1, n);
    acts := EmptyTaken(n, z, g, r);
    acts := LoneGet(s, acts, g);
    assert Exec(s, acts).address == [0, 0, 0];
    Then(s, acts, Go(z));
    acts := acts + [Go(z)];
  }

  /** With two getters and a releaser, a channel of any size is driven to hand out an index twice: a
      slow getter's swap has installed a successor that was taken meanwhile, and the other getter's
      next step returns it although a caller still owns it. */
  lemma OverlapIsUnsafe(size: nat, n: nat, z: nat, g: nat, r: nat) returns (acts: seq<Action>)
    requires size >= 1 && Cast(n, z, g, r) && Inside(Init(size, n))
    ensures Legal(Init(size, n), acts) && Roles(acts, {z, g}, {r}) && HandsOutOwned(Exec(Init(size, n), acts), g)
  {
    if size == 1 { acts := EmptySuccessor(n, z, g, r); } else { acts := StaleSuccessor(size, n, z, g, r); }
    acts := LoadTwo(Init(size, n), acts, g);
  }

  lemma HandedOutTwice(s: State, g: nat)
    requires HandsOutOwned(s, g)
    ensures !Intact(s)
  {
  }

  // ---------------------------------------------------------------- safe roles

  /** With these getters and releasers, every run from a new channel leaves it intact. */
  ghost predicate Safe(size: nat, n: nat, getters: set<nat>, releasers: set<nat>)
    requires Inside(Init(size, n))
  {
    forall acts: seq<Action> :: Legal(Init(size, n), acts) && Roles(acts, getters, releasers) ==>
      Intact(Exec(Init(size, n), acts))
  }

  /** Only `g` gets, so gets never overlap. */
  lemma {:induction false} OneGets(s: State, acts: seq<Action>, g: nat, releasers: set<nat>)
    requires Inside(s) && Legal(s, acts) && Roles(acts, {g}, releasers)
    requires forall u :: 0 <= u < |s.threads| && u != g ==> !s.threads[u].Getting()
    ensures OneGetterRun(s, acts)
    decreases |acts|
  {
    if acts != [] {
      assert acts[0] in acts;
      OneGets(Step(s, acts[0]), acts[1..], g, releasers);
    }
  }

  /** Nobody releases, so gets never overlap releases. */
  lemma {:induction false} NoneReleases(s: State, acts: seq<Action>, getters: set<nat>)
    requires Inside(s) && Legal(s, acts) && Roles(acts, getters, {})
    requires forall u :: 0 <= u < |s.threads| ==> !s.threads[u].Releasing()
    ensures NoOverlapRun(s, acts)
    decreases |acts|
  {
    if acts != [] {
      assert acts[0] in acts;
      NoneReleases(Step(s, acts[0]), acts[1..], getters);
    }
  }

  lemma SafeRun(size: nat, n: nat, acts: seq<Action>, getters: set<nat>, releasers: set<nat>)
    requires size >= 1 && Inside(Init(size, n)) && Legal(Init(size, n), acts) && Roles(acts, getters, releasers)
    requires |getters| <= 1 || releasers == {}
    ensures Intact(Exec(Init(size, n), acts))
  {
    if releasers == {} {
      NoneReleases(Init(size, n), acts, getters);
    } else {
      var g := if getters == {} then 0 else var x :| x in getters; x;
      AtMostOne(getters, g);
      OneGets(Init(size, n), acts, g, releasers);
    }
    PoolIsSafe(size, n, acts);
  }

  lemma AtMostOne(a: set<nat>, x: nat)
    requires |a| <= 1 && (a == {} || x in a)
    ensures a <= {x}
  {
    if x in a { assert |a - {x}| == 0; }
  }

  lemma Breaks(size: nat, n: nat, getters: set<nat>, releasers: set<nat>) returns (acts: seq<Action>)
    requires size >= 1 && Inside(Init(size, n)) && |getters| >= 2 && releasers != {}
    requires forall u :: u in getters + releasers ==> u < n
    ensures Legal(Init(size, n), acts) && Roles(acts, getters, releasers)
    ensures !Intact(Exec(Init(size, n), acts))
  {
    var r :| r in releasers;
    var z := Another(getters, r);
    var g := Another(getters, z);
    assert r in getters + releasers && z in getters + releasers && g in getters + releasers;
    acts := OverlapIsUnsafe(size, n, z, g, r);
    HandedOutTwice(Exec(Init(size, n), acts), g);
  }

  /** For every size: every run of a channel leaves it intact if and only if at most one thread gets
      or no thread releases. */
  lemma SafeRoles(size: nat, n: nat, getters: set<nat>, releasers: set<nat>)
    requires size >= 1 && Inside(Init(size, n)) && forall u :: u in getters + releasers ==> u < n
    ensures Safe(size, n, getters, releasers) <==> |getters| <= 1 || releasers == {}
  {
    if |getters| <= 1 || releasers == {} {
      forall acts: seq<Action> | Legal(Init(size, n), acts) && Roles(acts, getters, releasers)
        ensures Intact(Exec(Init(size, n), acts))
      {
        SafeRun(size, n, acts, getters, releasers);
      }
    } else {
      var acts := Breaks(size, n, getters, releasers);
    }
  }
}
