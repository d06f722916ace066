/**
  One channel's free list shared by any number of threads that get and release indices at the same
  time. Every load, store and compare-and-swap is a step of its own.
*/
module PoolConcurrent {
  import opened PoolModel

  datatype Pc =
    | Idle
    | GetStart
    | GetHead(ret: nat)                        // `ret` loaded from cell 0
    | GetCas(ret: nat, newNext: nat)           // its successor loaded from cell `ret`
    | RelStart(index: nat)
    | RelHead(index: nat, oldNext: nat)        // `oldNext` loaded from cell 0
    | RelCas(index: nat, oldNext: nat)         // and stored into cell `index`
  {
    predicate Getting() { GetStart? || GetHead? || GetCas? }
    predicate Releasing() { RelStart? || RelHead? || RelCas? }
  }

  /** The shared cells and the threads; and, as history, the free list, the indices callers own,
      and which thread is giving back which index. */
  datatype State = State(size: nat, address: seq<nat>, threads: seq<Pc>,
                         free: seq<nat>, live: set<nat>, flight: map<nat, nat>)

  datatype Action = StartGet(t: nat) | StartRelease(t: nat, index: nat) | Go(t: nat)

  /** Releases are legal: a caller gives back an index it owns. */
  predicate Enabled(s: State, a: Action) {
    && a.t < |s.threads|
    && match a
       case StartGet(t) => s.threads[t].Idle?
       case StartRelease(t, index) => s.threads[t].Idle? && index in s.live
       case Go(t) => !s.threads[t].Idle?
  }

  /** Cell numbers held in cells and locals stay inside the array. */
  ghost predicate PcInside(pc: Pc, size: nat) {
    match pc
    case GetHead(ret) => ret <= size
    case GetCas(ret, newNext) => ret <= size && newNext <= size
    case RelStart(index) => 1 <= index <= size
    case RelHead(index, oldNext) => 1 <= index <= size && oldNext <= size
    case RelCas(index, oldNext) => 1 <= index <= size && oldNext <= size
    case _ => true
  }

  ghost predicate Inside(s: State) {
    && |s.address| == s.size + 2
    && (forall i :: 0 <= i <= s.size ==> s.address[i] <= s.size)
    && (forall t :: 0 <= t < |s.threads| ==> PcInside(s.threads[t], s.size))
    && (forall r :: r in s.live ==> 1 <= r <= s.size)
  }

  ghost function GoStep(s: State, t: nat): State
    requires Inside(s) && Enabled(s, Go(t))
  {
    match s.threads[t]
    case GetStart => s.(threads := s.threads[t := GetHead(s.address[0])])
    case GetHead(ret) => s.(threads := s.threads[t := GetCas(ret, s.address[ret])])
    case GetCas(ret, newNext) =>
      if s.address[0] != ret then s.(threads := s.threads[t := GetStart])
      else s.(address := s.address[0 := newNext], threads := s.threads[t := Idle],
              free := Rest(s.free), live := if ret == 0 then s.live else s.live + {ret})
    case RelStart(index) => s.(threads := s.threads[t := RelHead(index, s.address[0])])
    case RelHead(index, oldNext) =>
      s.(address := s.address[index := oldNext], threads := s.threads[t := RelCas(index, oldNext)])
    case RelCas(index, oldNext) =>
      if s.address[0] != oldNext then s.(threads := s.threads[t := RelStart(index)])
      else s.(address := s.address[0 := index], threads := s.threads[t := Idle],
              free := [index] + s.free, flight := s.flight - {index})
  }

  ghost function Step(s: State, a: Action): (s': State)
    requires Inside(s) && Enabled(s, a)
    ensures Inside(s') && s'.size == s.size && |s'.threads| == |s.threads|
  {
    match a
    case StartGet(t) => s.(threads := s.threads[t := GetStart])
    case StartRelease(t, index) =>
      s.(threads := s.threads[t := RelStart(index)], live := s.live - {index}, flight := s.flight[index := t])
    case Go(t) => GoStep(s, t)
  }

  /** A new channel with `n` idle threads. */
  ghost function Init(size: nat, n: nat): State {
    State(size, seq(size + 2, i => if i < size then i + 1 else 0),
          seq(n, _ => Idle), Fresh(size), {}, map[])
  }

  // ---------------------------------------------------------------- the invariant

  /** Thread `t` is giving back index `r`. */
  ghost predicate Flies(s: State, t: nat, r: nat) {
    t < |s.threads| && s.threads[t].Releasing() && s.threads[t].index == r
  }

  ghost predicate ReleaserOk(s: State, t: nat)
    requires Inside(s) && t < |s.threads|
  {
    && (s.threads[t].Releasing() ==> s.threads[t].index in s.flight && s.flight[s.threads[t].index] == t)
    && (s.threads[t].RelCas? ==> s.address[s.threads[t].index] == s.threads[t].oldNext)
  }

  /** The chain is intact, and every index is in exactly one of: the free list, a caller's hands,
      a release under way. */
  ghost predicate Intact(s: State) {
    && Inside(s) && IsChain(s.address, s.size, s.free)
    && (forall t {:trigger ReleaserOk(s, t)} :: 0 <= t < |s.threads| ==> ReleaserOk(s, t))
    && (forall r :: r in s.flight ==> 1 <= r <= s.size && Flies(s, s.flight[r], r) && r !in s.free && r !in s.live)
    && (forall r :: r in s.live ==> r !in s.free)
    && (forall r :: 1 <= r <= s.size ==> r in s.free || r in s.live || r in s.flight)
  }

  /** The successor a getter has loaded is still right if its swap would succeed. */
  ghost predicate LinkCurrent(s: State, t: nat)
    requires Inside(s) && t < |s.threads|
  {
    s.threads[t].GetCas? && s.address[0] == s.threads[t].ret ==> s.address[s.threads[t].ret] == s.threads[t].newNext
  }

  lemma InitIntact(size: nat, n: nat)
    requires size > 0
    ensures Intact(Init(size, n))
  {
    var s := Init(size, n);
    forall r | 1 <= r <= size ensures r in s.free {
      assert s.free[r - 1] == r;
    }
    assert IsChain(s.address, size, s.free);
    assert forall t :: 0 <= t < n ==> s.threads[t].Idle?;
  }

  // ---------------------------------------------------------------- steps

  lemma QuietStep(s: State, s': State, t: nat)
    requires Intact(s) && Inside(s') && t < |s.threads| == |s'.threads|
    requires s' == s.(threads := s.threads[t := s'.threads[t]])
    requires !s'.threads[t].RelCas? && s'.threads[t].Releasing() == s.threads[t].Releasing()
    requires s.threads[t].Releasing() ==> s'.threads[t].index == s.threads[t].index
    ensures Intact(s')
  {
    forall u | 0 <= u < |s.threads| ensures ReleaserOk(s', u) {
      assert ReleaserOk(s, u);
    }
    forall r | r in s.flight ensures Flies(s', s.flight[r], r) {
      assert Flies(s, s.flight[r], r);
    }
  }

  lemma StartReleaseIntact(s: State, t: nat, index: nat)
    requires Intact(s) && Enabled(s, StartRelease(t, index))
    ensures Intact(Step(s, StartRelease(t, index)))
  {
    var s' := Step(s, StartRelease(t, index));
    forall u | 0 <= u < |s.threads| ensures ReleaserOk(s', u) {
      assert ReleaserOk(s, u);
    }
    forall r | r in s'.flight ensures Flies(s', s'.flight[r], r) {
      assert r != index ==> Flies(s, s.flight[r], r);
    }
  }

  /** The releaser's store goes to the cell of an index that is in nobody else's hands. */
  lemma StoreIntact(s: State, t: nat)
    requires Intact(s) && Enabled(s, Go(t)) && s.threads[t].RelHead?
    ensures Intact(Step(s, Go(t)))
  {
    var s', index := Step(s, Go(t)), s.threads[t].index;
    assert ReleaserOk(s, t);
    assert IsChain(s'.address, s.size, s.free);
    forall u | 0 <= u < |s.threads| ensures ReleaserOk(s', u) {
      assert ReleaserOk(s, u);
    }
    forall r | r in s.flight ensures Flies(s', s.flight[r], r) {
      assert Flies(s, s.flight[r], r);
    }
  }

  /** A successful push is right whatever happened since the releaser's load of cell 0. */
  lemma PushIntact(s: State, t: nat)
    requires Intact(s) && Enabled(s, Go(t)) && s.threads[t].RelCas? && s.address[0] == s.threads[t].oldNext
    ensures Intact(Step(s, Go(t)))
    ensures var (s', index) := (Step(s, Go(t)), s.threads[t].index);
      s'.free == [index] + s.free && s'.live == s.live && index !in s'.flight
  {
    var s', index := Step(s, Go(t)), s.threads[t].index;
    assert ReleaserOk(s, t);
    PushChain(s.address, s.size, s.free, index);
    assert s.address[index := s.address[0]] == s.address;
    forall u | 0 <= u < |s.threads| ensures ReleaserOk(s', u) {
      assert ReleaserOk(s, u);
    }
    forall r | r in s'.flight ensures Flies(s', s'.flight[r], r) && r !in s'.free {
      assert Flies(s, s.flight[r], r);
    }
  }

  /** A successful pop through a current successor hands out an index nobody has, or 0 when the
      channel is empty. */
  lemma PopIntact(s: State, t: nat)
    requires Intact(s) && Enabled(s, Go(t)) && s.threads[t].GetCas? && s.address[0] == s.threads[t].ret
    requires LinkCurrent(s, t)
    ensures Intact(Step(s, Go(t)))
    ensures var ret := s.threads[t].ret;
      && ret == Link(s.free, 0) && ret !in s.live && ret !in s.flight
      && Step(s, Go(t)).live == (if s.free == [] then s.live else s.live + {ret})
  {
    var s', ret := Step(s, Go(t)), s.threads[t].ret;
    PopChain(s.address, s.size, s.free);
    if s.free != [] {
      TailOf(s.free, s.size);
      assert ret in s.free;
    }
    forall u | 0 <= u < |s.threads| ensures ReleaserOk(s', u) {
      assert ReleaserOk(s, u);
    }
    forall r | r in s.flight ensures Flies(s', s.flight[r], r) && r !in s'.free {
      assert Flies(s, s.flight[r], r);
    }
  }

  /** Every step keeps the chain and the partition, if a getter's swap that is about to succeed
      goes through a current successor. */
  lemma StepIntact(s: State, a: Action)
    requires Intact(s) && Enabled(s, a) && LinkCurrent(s, a.t)
    ensures Intact(Step(s, a))
  {
    var t := a.t;
    if a.StartRelease? {
      StartReleaseIntact(s, t, a.index);
    } else if a.Go? && s.threads[t].RelHead? {
      StoreIntact(s, t);
    } else if a.Go? && s.threads[t].RelCas? && s.address[0] == s.threads[t].oldNext {
      PushIntact(s, t);
    } else if a.Go? && s.threads[t].GetCas? && s.address[0] == s.threads[t].ret {
      PopIntact(s, t);
    } else {
      QuietStep(s, Step(s, a), t);
    }
  }

  // ---------------------------------------------------------------- when successors stay current

  /** No get overlaps another get: each starts when no other thread is in one. */
  ghost predicate OneGetter(s: State, a: Action)
    requires Enabled(s, a)
  {
    a.StartGet? ==> forall u :: 0 <= u < |s.threads| ==> !s.threads[u].Getting()
  }

  /** No get overlaps a release. */
  ghost predicate NoOverlap(s: State, a: Action)
    requires Enabled(s, a)
  {
    && (a.StartGet? ==> forall u :: 0 <= u < |s.threads| ==> !s.threads[u].Releasing())
    && (a.StartRelease? ==> forall u :: 0 <= u < |s.threads| ==> !s.threads[u].Getting())
  }

  /** What a getter has loaded, when only it pops: a free index stays linked to the same successor
      until it is popped, and an empty channel can only have become non-empty. */
  ghost predicate GetterOk(s: State, t: nat)
    requires t < |s.threads|
  {
    match s.threads[t]
    case GetHead(ret) => ret == 0 || ret in s.free
    case GetCas(ret, newNext) =>
      if ret == 0 then newNext == 0 || s.free != []
      else ret in s.free && ret < |s.address| && s.address[ret] == newNext
    case _ => true
  }

  ghost predicate SoleGetterOk(s: State) {
    && (forall t, u :: 0 <= t < |s.threads| && 0 <= u < |s.threads| && t != u ==>
          !(s.threads[t].Getting() && s.threads[u].Getting()))
    && (forall t {:trigger GetterOk(s, t)} :: 0 <= t < |s.threads| ==> GetterOk(s, t))
  }

  /** With gets and releases apart: only cell 0 changes while anyone is getting, and once it is 0
      it stays 0. */
  ghost predicate PhaseThread(s: State, t: nat)
    requires t < |s.threads|
  {
    match s.threads[t]
    case GetHead(ret) => ret == 0 ==> s.free == []
    case GetCas(ret, newNext) =>
      if ret == 0 then newNext == 0 && s.free == [] else ret < |s.address| && s.address[ret] == newNext
    case _ => true
  }

  ghost predicate OneKind(s: State) {
    forall t, u :: 0 <= t < |s.threads| && 0 <= u < |s.threads| ==>
      !(s.threads[t].Getting() && s.threads[u].Releasing())
  }

  ghost predicate PhaseOk(s: State) {
    OneKind(s) && forall t {:trigger PhaseThread(s, t)} :: 0 <= t < |s.threads| ==> PhaseThread(s, t)
  }

  lemma SoleGetterLinks(s: State, t: nat)
    requires Intact(s) && SoleGetterOk(s) && t < |s.threads|
    ensures LinkCurrent(s, t)
  {
    assert GetterOk(s, t);
  }

  lemma PhaseLinks(s: State, t: nat)
    requires Intact(s) && PhaseOk(s) && t < |s.threads|
    ensures LinkCurrent(s, t)
  {
    assert PhaseThread(s, t);
  }

  /** The stepping thread itself. */
  lemma GetterOkSelf(s: State, a: Action)
    requires Intact(s) && Enabled(s, a) && GetterOk(s, a.t)
    ensures GetterOk(Step(s, a), a.t)
  {
    if a.Go? && s.threads[a.t].GetStart? && s.free != [] {
      assert s.address[0] in s.free;
    }
    if a.Go? && s.threads[a.t].GetHead? && s.threads[a.t].ret == 0 && s.free == [] {
      assert s.address[0] == 0;
    }
  }

  /** The getter, while another thread, which is not getting, steps. */
  lemma GetterOkOther(s: State, a: Action, u: nat)
    requires Intact(s) && Enabled(s, a) && u < |s.threads| && u != a.t && GetterOk(s, u)
    requires !s.threads[a.t].Getting()
    ensures GetterOk(Step(s, a), u)
  {
    assert ReleaserOk(s, a.t);
  }

  lemma SoleGetterStep(s: State, a: Action)
    requires Intact(s) && SoleGetterOk(s) && Enabled(s, a) && OneGetter(s, a)
    ensures SoleGetterOk(Step(s, a))
  {
    forall u | 0 <= u < |s.threads| ensures GetterOk(Step(s, a), u) {
      assert GetterOk(s, u);
      if u == a.t {
        GetterOkSelf(s, a);
      } else if s.threads[u].Getting() {
        GetterOkOther(s, a, u);
      }
    }
  }

  lemma PhaseStep(s: State, a: Action)
    requires Intact(s) && PhaseOk(s) && Enabled(s, a) && NoOverlap(s, a)
    ensures PhaseOk(Step(s, a))
  {
    OneKindStep(s, a);
    forall u | 0 <= u < |s.threads| ensures PhaseThread(Step(s, a), u) {
      assert PhaseThread(s, u);
      PhaseThreadStep(s, a, u);
    }
  }

  lemma OneKindStep(s: State, a: Action)
    requires Inside(s) && OneKind(s) && Enabled(s, a) && NoOverlap(s, a)
    ensures OneKind(Step(s, a))
  {
  }

  lemma PhaseThreadStep(s: State, a: Action, u: nat)
    requires Intact(s) && OneKind(s) && Enabled(s, a) && u < |s.threads| && PhaseThread(s, u)
    ensures PhaseThread(Step(s, a), u)
  {
    if a.Go? && s.threads[a.t].GetStart? && s.free != [] {
      assert s.address[0] in s.free;
    }
    assert s.threads[u].Getting() ==> !s.threads[a.t].Releasing();
  }

  // ---------------------------------------------------------------- runs

  ghost predicate Legal(s: State, acts: seq<Action>)
    requires Inside(s)
    decreases |acts|
  {
    acts == [] || (Enabled(s, acts[0]) && Legal(Step(s, acts[0]), acts[1..]))
  }

  ghost function Exec(s: State, acts: seq<Action>): (s': State)
    requires Inside(s) && Legal(s, acts)
    ensures Inside(s') && s'.size == s.size && |s'.threads| == |s.threads|
    decreases |acts|
  {
    if acts == [] then s else Exec(Step(s, acts[0]), acts[1..])
  }

  ghost predicate OneGetterRun(s: State, acts: seq<Action>)
    requires Inside(s) && Legal(s, acts)
    decreases |acts|
  {
    acts == [] || (OneGetter(s, acts[0]) && OneGetterRun(Step(s, acts[0]), acts[1..]))
  }

  ghost predicate NoOverlapRun(s: State, acts: seq<Action>)
    requires Inside(s) && Legal(s, acts)
    decreases |acts|
  {
    acts == [] || (NoOverlap(s, acts[0]) && NoOverlapRun(Step(s, acts[0]), acts[1..]))
  }

  lemma {:induction false} RunIntact(s: State, acts: seq<Action>)
    requires Intact(s) && Legal(s, acts)
    requires (SoleGetterOk(s) && OneGetterRun(s, acts)) || (PhaseOk(s) && NoOverlapRun(s, acts))
    ensures Intact(Exec(s, acts))
    ensures forall t :: 0 <= t < |Exec(s, acts).threads| ==> LinkCurrent(Exec(s, acts), t)
    decreases |acts|
  {
    if acts == [] {
      forall t | 0 <= t < |s.threads| ensures LinkCurrent(s, t) {
        if SoleGetterOk(s) { SoleGetterLinks(s, t); } else { PhaseLinks(s, t); }
      }
    } else {
      var a := acts[0];
      if SoleGetterOk(s) && OneGetterRun(s, acts) {
        SoleGetterLinks(s, a.t);
        SoleGetterStep(s, a);
      } else {
        PhaseLinks(s, a.t);
        PhaseStep(s, a);
      }
      StepIntact(s, a);
      RunIntact(Step(s, a), acts[1..]);
    }
  }

  /** The main result: from a new channel, over every interleaving of any number of threads in
      which gets do not overlap one another, or gets do not overlap releases, the chain stays
      acyclic and ends at 0, and free, owned and in-flight indices partition 1 .. size. */
  lemma PoolIsSafe(size: nat, n: nat, acts: seq<Action>)
    requires size > 0 && Inside(Init(size, n)) && Legal(Init(size, n), acts)
    requires OneGetterRun(Init(size, n), acts) || NoOverlapRun(Init(size, n), acts)
    ensures Intact(Exec(Init(size, n), acts))
  {
    InitIntact(size, n);
    RunIntact(Init(size, n), acts);
  }

  /** So no index is handed out twice: after any such run, the next swap of a getter to succeed takes
      an index that no caller owns and no release is giving back, or 0 when none is free. */
  lemma HandsOutFresh(size: nat, n: nat, acts: seq<Action>, t: nat)
    requires size > 0 && Inside(Init(size, n)) && Legal(Init(size, n), acts)
    requires OneGetterRun(Init(size, n), acts) || NoOverlapRun(Init(size, n), acts)
    requires var s := Exec(Init(size, n), acts);
      Enabled(s, Go(t)) && s.threads[t].GetCas? && s.address[0] == s.threads[t].ret
    ensures var s := Exec(Init(size, n), acts); var ret := s.threads[t].ret;
      && (ret == 0 <==> s.free == []) && ret !in s.live && ret !in s.flight
      && Step(s, Go(t)).live == (if ret == 0 then s.live else s.live + {ret})
  {
    InitIntact(size, n);
    RunIntact(Init(size, n), acts);
    PopIntact(Exec(Init(size, n), acts), t);
  }

  /** A successful pop keeps the pool intact exactly when the successor it installs is current. */
  lemma PopExact(s: State, t: nat)
    requires Intact(s) && Enabled(s, Go(t)) && s.threads[t].GetCas? && s.address[0] == s.threads[t].ret
    ensures Intact(Step(s, Go(t))) <==> s.address[s.threads[t].ret] == s.threads[t].newNext
  {
    PopChain(s.address, s.size, s.free);
    if s.address[s.threads[t].ret] == s.threads[t].newNext { PopIntact(s, t); }
  }

  /** Every swap of a getter that succeeds installs the current successor. */
  ghost predicate Current(s: State, a: Action)
    requires Inside(s) && Enabled(s, a)
  {
    a.Go? ==> LinkCurrent(s, a.t)
  }

  ghost predicate CurrentRun(s: State, acts: seq<Action>)
    requires Inside(s) && Legal(s, acts)
    decreases |acts|
  {
    acts == [] || (Current(s, acts[0]) && CurrentRun(Step(s, acts[0]), acts[1..]))
  }

  /** The pool is intact at every point of the run. */
  ghost predicate Always(s: State, acts: seq<Action>)
    requires Inside(s) && Legal(s, acts)
    decreases |acts|
  {
    Intact(s) && (acts == [] || Always(Step(s, acts[0]), acts[1..]))
  }

  /** Over every run, the pool is intact throughout if and only if every successful swap of a getter
      installs the successor of that moment. */
  lemma {:induction false} AlwaysExact(s: State, acts: seq<Action>)
    requires Intact(s) && Legal(s, acts)
    ensures Always(s, acts) <==> CurrentRun(s, acts)
    decreases |acts|
  {
    if acts != [] {
      var a := acts[0];
      if Current(s, a) {
        CurrentStep(s, a);
        AlwaysExact(Step(s, a), acts[1..]);
      } else {
        PopExact(s, a.t);
      }
    }
  }

  lemma CurrentStep(s: State, a: Action)
    requires Intact(s) && Enabled(s, a) && Current(s, a)
    ensures Intact(Step(s, a))
  {
    match a {
      case StartGet(t) => QuietStep(s, Step(s, a), t);
      case StartRelease(t, index) => StartReleaseIntact(s, t, index);
      case Go(t) => StepIntact(s, a);
    }
  }
}
