/**
  What one call of `get` or `release` on a shared channel does, among any number of others.
*/
module PoolCalls {
  import opened PoolModel
  import opened PoolConcurrent

  // ---------------------------------------------------------------- how a call ends

  /** A `get` ends only with a swap that succeeds: cell 0 still held the index it loaded. It takes that
      index, which was free and nobody's, or it returns 0 and nothing was free. */
  lemma GetEnds(s: State, a: Action, t: nat)
    requires Intact(s) && Enabled(s, a) && t < |s.threads|
    requires s.threads[t].Getting() && !Step(s, a).threads[t].Getting()
    ensures a == Go(t) && s.threads[t].GetCas? && s.address[0] == s.threads[t].ret && Step(s, a).threads[t].Idle?
    ensures var (ret, s') := (s.threads[t].ret, Step(s, a));
      if ret == 0 then s.free == [] && s'.live == s.live
      else ret in s.free && ret !in s.live && s'.live == s.live + {ret}
  {
  }

  /** A `release` ends only with a swap that succeeds, and its index is then the first free one. */
  lemma ReleaseEnds(s: State, a: Action, t: nat)
    requires Intact(s) && Enabled(s, a) && t < |s.threads|
    requires s.threads[t].Releasing() && !Step(s, a).threads[t].Releasing()
    ensures a == Go(t) && s.threads[t].RelCas? && s.address[0] == s.threads[t].oldNext && Step(s, a).threads[t].Idle?
    ensures var (index, s') := (s.threads[t].index, Step(s, a));
      && s'.free == [index] + s.free && index !in s.free && s'.address[0] == index
      && index in s.flight && index !in s'.flight
  {
    assert ReleaserOk(s, t);
  }

  // ---------------------------------------------------------------- one get over a run

  /** The indices that steps of thread `t` make owned, step by step. */
  ghost function Takes(s: State, acts: seq<Action>, t: nat): seq<set<nat>>
    requires Inside(s) && Legal(s, acts)
    decreases |acts|
  {
    if acts == [] then []
    else
      var s' := Step(s, acts[0]);
      (if acts[0].t == t && s'.live > s.live then [s'.live - s.live] else []) + Takes(s', acts[1..], t)
  }

  /** Thread `t` starts no other call. */
  ghost predicate NoStart(acts: seq<Action>, t: nat) {
    forall a :: a in acts && a.t == t ==> a.Go?
  }

  /** The call of thread `t` ends in the run at a step that finds no free index. */
  ghost predicate EndsEmpty(s: State, acts: seq<Action>, t: nat)
    requires Inside(s) && Legal(s, acts) && t < |s.threads|
    decreases |acts|
  {
    acts != [] &&
    var s' := Step(s, acts[0]);
    (s.threads[t].Getting() && !s'.threads[t].Getting() && s.free == []) || EndsEmpty(s', acts[1..], t)
  }

  lemma {:induction false} IdleTakes(s: State, acts: seq<Action>, t: nat)
    requires Inside(s) && Legal(s, acts) && t < |s.threads| && s.threads[t].Idle? && NoStart(acts, t)
    ensures Takes(s, acts, t) == [] && Exec(s, acts).threads[t].Idle?
    decreases |acts|
  {
    if acts != [] {
      assert acts[0] in acts;
      IdleTakes(Step(s, acts[0]), acts[1..], t);
    }
  }

  /** A step of a `get` that does not end it makes nothing owned. */
  lemma GetGoesOn(s: State, a: Action, t: nat)
    requires Inside(s) && Enabled(s, a) && t < |s.threads| && a.t == t
    requires s.threads[t].Getting() && Step(s, a).threads[t].Getting()
    ensures Step(s, a).live == s.live
  {
  }

  /** What a `get` has taken by the end of a run. */
  ghost predicate Took(s: State, acts: seq<Action>, t: nat, i: nat)
    requires Inside(s) && Legal(s, acts) && t < |s.threads|
  {
    var (pc, taken) := (Exec(s, acts).threads[t], Takes(s, acts, t));
    && (pc.Getting() || pc.Idle?)
    && (pc.Getting() ==> taken == [])
    && (pc.Idle? ==> (taken == [] && EndsEmpty(s, acts, t)) || (taken == [{i}] && 1 <= i <= s.size))
  }

  lemma {:induction false} GetRun(s: State, acts: seq<Action>, t: nat) returns (i: nat)
    requires Intact(s) && Legal(s, acts) && CurrentRun(s, acts) && t < |s.threads|
    requires s.threads[t].Getting() && NoStart(acts, t)
    ensures Took(s, acts, t, i)
    decreases |acts|
  {
    i := 0;
    if acts != [] {
      var a, s' := acts[0], Step(s, acts[0]);
      assert a in acts;
      CurrentStep(s, a);
      if s'.threads[t].Getting() {
        if a.t == t { GetGoesOn(s, a, t); }
        i := GetRun(s', acts[1..], t);
      } else {
        GetEnds(s, a, t);
        IdleTakes(s', acts[1..], t);
        i := s.threads[t].ret;
        if i != 0 { assert s'.live - s.live == {i}; }
      }
    }
  }

  /** A `get`, over every run in which swaps install current successors: while it has not ended it has
      taken nothing; when it has ended it has taken exactly one index, or it found the channel empty at
      its last step. */
  lemma GetExactly(s: State, t: nat, acts: seq<Action>) returns (i: nat)
    requires Intact(s) && Enabled(s, StartGet(t)) && Legal(Step(s, StartGet(t)), acts)
    requires CurrentRun(Step(s, StartGet(t)), acts) && NoStart(acts, t)
    ensures Took(Step(s, StartGet(t)), acts, t, i)
  {
    CurrentStep(s, StartGet(t));
    i := GetRun(Step(s, StartGet(t)), acts, t);
  }

  // ---------------------------------------------------------------- progress

  /** How many more steps a call needs when nobody else runs: a stale load costs one more round. */
  ghost function Rank(s: State, t: nat): nat
    requires Inside(s) && t < |s.threads|
  {
    match s.threads[t]
    case Idle => 0
    case GetStart => 3
    case GetHead(ret) => if ret == s.address[0] then 2 else 5
    case GetCas(ret, _) => if ret == s.address[0] then 1 else 4
    case RelStart(_) => 3
    case RelHead(_, oldNext) => if oldNext == s.address[0] then 2 else 5
    case RelCas(_, oldNext) => if oldNext == s.address[0] then 1 else 4
  }

  /** From any point of a `get` or `release`, the thread alone ends it in exactly that many steps. */
  lemma {:induction false} AloneEnds(s: State, t: nat) returns (acts: seq<Action>)
    requires Inside(s) && t < |s.threads|
    ensures Legal(s, acts) && |acts| == Rank(s, t) <= 5 && (forall a :: a in acts ==> a == Go(t))
    ensures Exec(s, acts).threads[t].Idle?
    decreases Rank(s, t)
  {
    if s.threads[t].Idle? {
      acts := [];
    } else {
      var s' := Step(s, Go(t));
      var rest := AloneEnds(s', t);
      acts := [Go(t)] + rest;
      assert acts[1..] == rest;
    }
  }
}
