/**
  A ring handed from one connection to the next. Releasing an index leaves the segment as it is, so
  the next user of that index starts from whatever state the last one left.
*/
module RingReuse {
  import opened RingProtocol
  import opened RingInvariant
  import opened RingRuns
  import opened RingSolo
  import ByteRing

  // ---------------------------------------------------------------- what a run adds to the logs

  lemma {:induction false} LogsGrow(s: State, acts: seq<Action>)
    requires Formed(s) && Legal(s, acts)
    ensures s.x.accepted <= Exec(s, acts).x.accepted && s.x.delivered <= Exec(s, acts).x.delivered
    decreases |acts|
  {
    if acts != [] { LogsGrow(Step(s, acts[0]), acts[1..]); }
  }

  /** The writes accepted, and the reads delivered, since state `s`. */
  function NewlyAccepted(s: State, s': State): seq<Accepted>
    requires s.x.accepted <= s'.x.accepted
  {
    s'.x.accepted[|s.x.accepted|..]
  }

  function NewlyDelivered(s: State, s': State): seq<Delivered>
    requires s.x.delivered <= s'.x.delivered
  {
    s'.x.delivered[|s.x.delivered|..]
  }

  lemma {:induction false} AcceptedConcat(a: seq<Accepted>, b: seq<Accepted>)
    ensures AcceptedBytes(a + b) == AcceptedBytes(a) + AcceptedBytes(b)
    decreases |b|
  {
    if b == [] {
      assert a + b == a;
    } else {
      var init, e := b[..|b| - 1], b[|b| - 1];
      assert a + b == (a + init) + [e] && b == init + [e];
      AcceptedConcat(a, init);
      AcceptedAppend(a + init, e);
      AcceptedAppend(init, e);
    }
  }

  lemma {:induction false} DeliveredConcat(a: seq<Delivered>, b: seq<Delivered>)
    ensures DeliveredBytes(a + b) == DeliveredBytes(a) + DeliveredBytes(b)
    decreases |b|
  {
    if b == [] {
      assert a + b == a;
    } else {
      var init, e := b[..|b| - 1], b[|b| - 1];
      assert a + b == (a + init) + [e] && b == init + [e];
      DeliveredConcat(a, init);
      DeliveredAppend(a + init, e);
      DeliveredAppend(init, e);
    }
  }

  lemma Suffix<T>(first: seq<T>, more: seq<T>)
    requires first <= more
    ensures more == first + more[|first|..]
  {
  }

  /** Two splits of prefixes of one sequence. */
  lemma PrefixAfter(first: seq<Byte>, more: seq<Byte>, h: nat, got: seq<Byte>)
    requires h <= |first| && first[..h] + got <= first + more
    ensures got <= first[h..] + more
  {
    assert first + more == first[..h] + (first[h..] + more);
    forall i | 0 <= i < |got| ensures got[i] == (first[h..] + more)[i] {
      assert (first[..h] + got)[h + i] == got[i];
    }
  }

  // ---------------------------------------------------------------- the hand-over

  /** Bytes reserved before `s` and not delivered by then. */
  ghost function Leftover(s: State): seq<Byte>
    requires Inv(s)
  {
    Stream(s.x)[s.x.h..]
  }

  /** From any state, whatever runs: what readers receive from then on is a prefix of the bytes left
      over followed by what writers put in from then on. */
  lemma LeftoverComesFirst(s: State, acts: seq<Action>)
    requires Inv(s) && Legal(s, acts) && TailRooms(s, acts) && HeadLaps(s, acts)
    ensures var s' := Exec(s, acts);
      && s.x.accepted <= s'.x.accepted && s.x.delivered <= s'.x.delivered
      && DeliveredBytes(NewlyDelivered(s, s')) <= Leftover(s) + AcceptedBytes(NewlyAccepted(s, s'))
  {
    var s' := Exec(s, acts);
    LogsGrow(s, acts);
    RunInv(s, acts, 0, 0);
    Suffix(s.x.accepted, s'.x.accepted);
    Suffix(s.x.delivered, s'.x.delivered);
    AcceptedConcat(s.x.accepted, NewlyAccepted(s, s'));
    DeliveredConcat(s.x.delivered, NewlyDelivered(s, s'));
    PrefixAfter(Stream(s.x), AcceptedBytes(NewlyAccepted(s, s')), s.x.h, DeliveredBytes(NewlyDelivered(s, s')));
  }

  /** From `s` on, whatever runs, readers receive a prefix of what writers put in from `s` on. */
  ghost predicate Clean(s: State)
    requires Inv(s)
  {
    forall acts: seq<Action> :: Legal(s, acts) && TailRooms(s, acts) && HeadLaps(s, acts) ==> FreshOnly(s, acts)
  }

  ghost predicate FreshOnly(s: State, acts: seq<Action>)
    requires Formed(s) && Legal(s, acts)
  {
    var s' := Exec(s, acts);
    && s.x.accepted <= s'.x.accepted && s.x.delivered <= s'.x.delivered
    && DeliveredBytes(NewlyDelivered(s, s')) <= AcceptedBytes(NewlyAccepted(s, s'))
  }

  /** A thread that only reads, with nobody else running, meets both hypotheses. */
  lemma {:induction false} LoneReader(s: State, acts: seq<Action>, t: nat)
    requires Formed(s) && Legal(s, acts) && By(acts, t) && t < |s.c.threads|
    requires forall a :: a in acts ==> !a.StartWrite?
    requires !s.c.threads[t].Writing()
    requires s.c.threads[t].ReadHead? || s.c.threads[t].ReadCopy? ==> s.x.snaps[t].head == s.x.h
    ensures TailRooms(s, acts) && HeadLaps(s, acts)
    decreases |acts|
  {
    if acts != [] {
      assert acts[0].t == t && !acts[0].StartWrite?;
      LoneReader(Step(s, acts[0]), acts[1..], t);
    }
  }

  /** A lone read takes the first byte left over, though nothing was written since. */
  lemma StaleRead(s: State, t: nat) returns (acts: seq<Action>)
    requires Quiet(s) && t < |s.c.threads| && s.c.threads[t].Idle? && s.x.h < s.x.t
    ensures Legal(s, acts) && TailRooms(s, acts) && HeadLaps(s, acts) && !FreshOnly(s, acts)
  {
    acts := SoloRead(s, t, 1);
    LoneReader(s, acts, t);
    NotFresh(s, Exec(s, acts), t);
  }

  lemma NotFresh(s: State, s': State, t: nat)
    requires Quiet(s) && t < |s.c.threads| && s.x.h < s.x.t && ReadDone(s, s', t, 1)
    ensures s.x.accepted <= s'.x.accepted && s.x.delivered <= s'.x.delivered
    ensures !(DeliveredBytes(NewlyDelivered(s, s')) <= AcceptedBytes(NewlyAccepted(s, s')))
  {
    ReadSizeIsDistance(s.x.h, s.x.t, s.c.Cap());
    var out := ByteRing.FastRead(View(s), 1).1;
    assert NewlyDelivered(s, s') == [Delivered(t, 1, out)];
    DeliveredAppend([], Delivered(t, 1, out));
    assert [] + [Delivered(t, 1, out)] == [Delivered(t, 1, out)];
    assert NewlyAccepted(s, s') == [];
  }

  /** A quiet ring with an idle thread can be handed to a new connection safely if and only if it is
      empty: `head` equals `tail` when it changes hands. */
  lemma CleanHandOver(s: State, t: nat)
    requires Quiet(s) && t < |s.c.threads| && s.c.threads[t].Idle?
    ensures Clean(s) <==> s.c.mem.head == s.c.mem.tail
  {
    WrapTells(s);
    if s.x.h == s.x.t {
      forall acts: seq<Action> | Legal(s, acts) && TailRooms(s, acts) && HeadLaps(s, acts) ensures FreshOnly(s, acts) {
        LeftoverComesFirst(s, acts);
        assert Leftover(s) == [];
      }
    } else {
      var acts := StaleRead(s, t);
    }
  }

  lemma WrapTells(s: State)
    requires Inv(s)
    ensures s.c.mem.head == s.c.mem.tail <==> s.x.h == s.x.t
  {
    ReadSizeIsDistance(s.x.h, s.x.t, s.c.Cap());
  }
}
