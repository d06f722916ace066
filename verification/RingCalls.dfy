/**
  What one call of `rb_write` or `rb_read` does, among any number of other calls: how many bytes it
  moves, in how many pieces, and when it gives up. A call is watched from outside, through its loads
  and what it adds to the log.
*/
module RingCalls {
  import opened Residues
  import opened RingProtocol
  import opened RingInvariant
  import opened RingRuns

  // ---------------------------------------------------------------- the watcher

  /** How far a try has come: nothing loaded, the head loaded, both words loaded. */
  datatype Phase = Fresh | HeadLoaded | BothLoaded

  /** What a watcher knows of a call: the head position at the last load of `head`; the least of the
      length asked for and the room that each try found between its two loaded words; and whether the
      call has entered the log. */
  datatype Attempt = Attempt(phase: Phase, head: nat, least: nat, entered: bool)

  /** The writes of thread `t` in the log, as the bytes they put in. */
  function AcceptedBy(log: seq<Accepted>, t: nat): seq<seq<Byte>> {
    if log == [] then []
    else
      var (rest, e) := (AcceptedBy(log[..|log| - 1], t), log[|log| - 1]);
      if e.who == t then rest + [e.bytes] else rest
  }

  /** The reads of thread `t` in the log, as the bytes they gave. */
  function DeliveredBy(log: seq<Delivered>, t: nat): seq<seq<Byte>> {
    if log == [] then []
    else
      var (rest, e) := (DeliveredBy(log[..|log| - 1], t), log[|log| - 1]);
      if e.who == t then rest + [e.bytes] else rest
  }

  /** The entries of thread `t`, for a writer or for a reader. */
  function Entries(x: History, t: nat, write: bool): seq<seq<Byte>> {
    if write then AcceptedBy(x.accepted, t) else DeliveredBy(x.delivered, t)
  }

  /** The room for a writer, or the bytes for a reader, between a head position loaded before and the
      tail now. */
  function Room(s: State, head: nat, write: bool): nat
    requires Formed(s)
  {
    if write then WriteSize(Wrap(head, s.c.Cap()), Wrap(s.x.t, s.c.Cap()), s.c.Cap())
    else ReadSize(Wrap(head, s.c.Cap()), Wrap(s.x.o, s.c.Cap()), s.c.Cap())
  }

  /** A try loads the head, then the tail; a swap that adds nothing to the log sends it back. */
  function Watched(s: State, a: Action, t: nat, write: bool, call: Attempt): Attempt
    requires Formed(s) && Enabled(s.c, a)
  {
    if a == Load(t) then
      if call.phase.Fresh? then call.(phase := HeadLoaded, head := s.x.h)
      else call.(phase := BothLoaded, least := Min(call.least, Room(s, call.head, write)))
    else if a == Cas(t) && !call.entered then
      if Entries(Step(s, a).x, t, write) == Entries(s.x, t, write) then call.(phase := Fresh)
      else call.(entered := true)
    else call
  }

  /** The call at the end of a run. */
  function Watch(s: State, acts: seq<Action>, t: nat, write: bool, call: Attempt): Attempt
    requires Formed(s) && Legal(s, acts)
    decreases |acts|
  {
    if acts == [] then call else Watch(Step(s, acts[0]), acts[1..], t, write, Watched(s, acts[0], t, write, call))
  }

  /** Thread `t` starts no other call. */
  ghost predicate NoStart(acts: seq<Action>, t: nat) {
    forall a :: a in acts && a.t == t ==> !a.StartRead? && !a.StartWrite?
  }

  // ---------------------------------------------------------------- what every run keeps

  /** The three words are residues of the positions, whatever runs. */
  ghost predicate Located(s: State) {
    && Formed(s)
    && s.c.mem.head == Wrap(s.x.h, s.c.Cap()) && s.c.mem.tail == Wrap(s.x.t, s.c.Cap())
    && s.c.mem.oldtail == Wrap(s.x.o, s.c.Cap())
  }

  lemma LocatedStep(s: State, a: Action)
    requires Located(s) && Enabled(s.c, a)
    ensures Located(Step(s, a))
  {
    if a.Cas? && CasHits(s.c, a.t) {
      match s.c.threads[a.t] {
        case ReadCopy(len, _, _) => NewWord(s.x.h, len, s.c.Cap());
        case WriteCas(len, _, _) => NewWord(s.x.t, len, s.c.Cap());
        case WriteCopy(len, _, _, _) => NewWord(s.x.o, len, s.c.Cap());
      }
    }
  }

  /** Every reachable state is such a one. */
  lemma {:induction false} LocatedRun(s: State, acts: seq<Action>)
    requires Located(s) && Legal(s, acts)
    ensures Located(Exec(s, acts))
    decreases |acts|
  {
    if acts != [] {
      LocatedStep(s, acts[0]);
      LocatedRun(Step(s, acts[0]), acts[1..]);
    }
  }

  lemma LocatedFromStart(content: seq<Byte>, threads: nat, acts: seq<Action>)
    requires 2 <= |content| && Legal(Init(content, threads), acts)
    ensures Located(Exec(Init(content, threads), acts))
  {
    LocatedRun(Init(content, threads), acts);
  }

  lemma AcceptedByAppend(log: seq<Accepted>, e: Accepted, t: nat)
    ensures AcceptedBy(log + [e], t) == AcceptedBy(log, t) + if e.who == t then [e.bytes] else []
  {
    assert (log + [e])[..|log|] == log;
  }

  lemma DeliveredByAppend(log: seq<Delivered>, e: Delivered, t: nat)
    ensures DeliveredBy(log + [e], t) == DeliveredBy(log, t) + if e.who == t then [e.bytes] else []
  {
    assert (log + [e])[..|log|] == log;
  }

  /** What a step adds to the log of thread `t`. */
  lemma LogStep(s: State, a: Action, t: nat)
    requires Formed(s) && Enabled(s.c, a) && t < |s.c.threads|
    ensures var (x, x', pc) := (s.x, Step(s, a).x, s.c.threads[t]);
      var hit := a == Cas(t) && CasHits(s.c, t);
      && AcceptedBy(x'.accepted, t) ==
           AcceptedBy(x.accepted, t) + (if hit && pc.WriteCas? then [pc.input[..pc.len]] else [])
      && DeliveredBy(x'.delivered, t) ==
           DeliveredBy(x.delivered, t) + (if hit && pc.ReadCopy? then [Output(pc.buf, pc.len)] else [])
  {
    if a.Cas? && CasHits(s.c, a.t) {
      match s.c.threads[a.t] {
        case ReadCopy(len, _, buf) =>
          DeliveredByAppend(s.x.delivered, Delivered(a.t, s.x.snaps[a.t].asked, Output(buf, len)), t);
        case WriteCas(len, input, _) => AcceptedByAppend(s.x.accepted, Accepted(a.t, input, input[..len]), t);
        case _ =>
      }
    }
  }

  // ---------------------------------------------------------------- rb_write

  /** Where a watched `rb_write` is: `base` are the thread's entries from before the call. */
  ghost predicate Writes(s: State, t: nat, input: seq<Byte>, call: Attempt, base: seq<seq<Byte>>)
    requires Formed(s) && t < |s.c.threads|
  {
    && AcceptedBy(s.x.accepted, t) == base + (if call.entered then [input[..Min(call.least, |input|)]] else [])
    && call.least <= |input|
    && match s.c.threads[t]
       case WriteStart(len, i) => i == input && call.phase.Fresh? && len == call.least && !call.entered
       case WriteHead(len, i, head) =>
         && i == input && call.phase.HeadLoaded? && len == call.least && !call.entered
         && head == Wrap(call.head, s.c.Cap())
       case WriteCas(len, i, _) => i == input && call.phase.BothLoaded? && len == call.least && !call.entered
       case WriteCopy(len, i, _, _) => i == input && call.phase.BothLoaded? && len == call.least && call.entered
       case Idle => call.phase.BothLoaded? && (call.entered <==> call.least > 0)
       case _ => false
  }

  lemma WritesStep(s: State, a: Action, t: nat, input: seq<Byte>, call: Attempt, base: seq<seq<Byte>>)
    requires Located(s) && Enabled(s.c, a) && t < |s.c.threads| && Writes(s, t, input, call, base) && NoStart([a], t)
    ensures Writes(Step(s, a), t, input, Watched(s, a, t, true, call), base)
  {
    assert a in [a];
    LogStep(s, a, t);
  }

  lemma {:induction false} WritesRun(s: State, acts: seq<Action>, t: nat, input: seq<Byte>, call: Attempt,
                                      base: seq<seq<Byte>>)
    requires Located(s) && Legal(s, acts) && t < |s.c.threads| && Writes(s, t, input, call, base) && NoStart(acts, t)
    ensures Writes(Exec(s, acts), t, input, Watch(s, acts, t, true, call), base)
    decreases |acts|
  {
    if acts != [] {
      assert forall a :: a in [acts[0]] ==> a in acts;
      WritesStep(s, acts[0], t, input, call, base);
      LocatedStep(s, acts[0]);
      WritesRun(Step(s, acts[0]), acts[1..], t, input, Watched(s, acts[0], t, true, call), base);
    }
  }

  /** A call of `rb_write`, over every run. When it has ended, both words have been loaded since its
      last failed swap, and its log has gained one entry of exactly the least of what was offered and
      the room its tries have found; none exactly when that is 0. Before that it has gained nothing or
      is copying that entry. */
  lemma WriteExactly(s: State, t: nat, input: seq<Byte>, acts: seq<Action>)
    requires Located(s) && Enabled(s.c, StartWrite(t, input)) && NoStart(acts, t)
    requires Legal(Step(s, StartWrite(t, input)), acts)
    ensures var s1 := Step(s, StartWrite(t, input));
      var (s', call) := (Exec(s1, acts), Watch(s1, acts, t, true, Attempt(Fresh, 0, |input|, false)));
      var (was, now, pc) := (AcceptedBy(s.x.accepted, t), AcceptedBy(s'.x.accepted, t), s'.c.threads[t]);
      && call.least <= |input|
      && (pc.Idle? ==> call.phase.BothLoaded? && now == was + if call.least == 0 then [] else [input[..call.least]])
      && (!pc.Idle? ==> now == was + if pc.WriteCopy? then [input[..call.least]] else [])
      && (pc.WriteCopy? ==> call.least > 0)
  {
    var s1 := Step(s, StartWrite(t, input));
    LocatedStep(s, StartWrite(t, input));
    WritesRun(s1, acts, t, input, Attempt(Fresh, 0, |input|, false), AcceptedBy(s.x.accepted, t));
  }

  // ---------------------------------------------------------------- rb_read

  /** Where a watched `rb_read` is; `got` is what it has added to the log. */
  ghost predicate Reads(s: State, t: nat, asked: nat, call: Attempt, base: seq<seq<Byte>>, got: seq<Byte>)
    requires Formed(s) && t < |s.c.threads|
  {
    && DeliveredBy(s.x.delivered, t) == base + (if call.entered then [got] else [])
    && call.least <= asked
    && match s.c.threads[t]
       case ReadStart(len) => call.phase.Fresh? && len == call.least && !call.entered
       case ReadHead(len, head) =>
         call.phase.HeadLoaded? && len == call.least && !call.entered && head == Wrap(call.head, s.c.Cap())
       case ReadCopy(len, _, _) => call.phase.BothLoaded? && len == call.least && !call.entered
       case Idle =>
         call.phase.BothLoaded? && (call.entered <==> call.least > 0) && (call.entered ==> |got| == call.least)
       case _ => false
  }

  /** What the call has added once it has taken step `a`. */
  ghost function Gets(s: State, a: Action, t: nat, got: seq<Byte>): seq<Byte>
    requires Formed(s) && Enabled(s.c, a)
  {
    if a == Cas(t) && s.c.threads[t].ReadCopy? then Output(s.c.threads[t].buf, s.c.threads[t].len) else got
  }

  lemma ReadsStep(s: State, a: Action, t: nat, asked: nat, call: Attempt, base: seq<seq<Byte>>, got: seq<Byte>)
    requires Located(s) && Enabled(s.c, a) && t < |s.c.threads| && NoStart([a], t)
    requires Reads(s, t, asked, call, base, got)
    ensures Reads(Step(s, a), t, asked, Watched(s, a, t, false, call), base, Gets(s, a, t, got))
  {
    assert a in [a];
    LogStep(s, a, t);
  }

  lemma {:induction false} ReadsRun(s: State, acts: seq<Action>, t: nat, asked: nat, call: Attempt,
                                     base: seq<seq<Byte>>, got: seq<Byte>) returns (all: seq<Byte>)
    requires Located(s) && Legal(s, acts) && t < |s.c.threads| && NoStart(acts, t)
    requires Reads(s, t, asked, call, base, got)
    ensures Reads(Exec(s, acts), t, asked, Watch(s, acts, t, false, call), base, all)
    decreases |acts|
  {
    if acts == [] {
      all := got;
    } else {
      assert forall a :: a in [acts[0]] ==> a in acts;
      ReadsStep(s, acts[0], t, asked, call, base, got);
      LocatedStep(s, acts[0]);
      var (call', got') := (Watched(s, acts[0], t, false, call), Gets(s, acts[0], t, got));
      all := ReadsRun(Step(s, acts[0]), acts[1..], t, asked, call', base, got');
    }
  }

  /** A call of `rb_read`, over every run: when it has ended its log has gained one entry, of exactly
      the least of what was asked for and the bytes its tries have found; none exactly when that is 0;
      and before that none. */
  lemma ReadExactly(s: State, t: nat, asked: nat, acts: seq<Action>) returns (got: seq<Byte>)
    requires Located(s) && Enabled(s.c, StartRead(t, asked)) && NoStart(acts, t)
    requires Legal(Step(s, StartRead(t, asked)), acts)
    ensures var s1 := Step(s, StartRead(t, asked));
      var (s', call) := (Exec(s1, acts), Watch(s1, acts, t, false, Attempt(Fresh, 0, asked, false)));
      var (was, now, pc) := (DeliveredBy(s.x.delivered, t), DeliveredBy(s'.x.delivered, t), s'.c.threads[t]);
      && call.least <= asked
      && (pc.Idle? ==> call.phase.BothLoaded? && now == was + if call.least == 0 then [] else [got])
      && (pc.Idle? && call.least > 0 ==> |got| == call.least)
      && (!pc.Idle? ==> now == was)
  {
    var s1 := Step(s, StartRead(t, asked));
    LocatedStep(s, StartRead(t, asked));
    got := ReadsRun(s1, acts, t, asked, Attempt(Fresh, 0, asked, false), DeliveredBy(s.x.delivered, t), []);
  }
}
