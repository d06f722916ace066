/**
  The hypotheses on swaps cannot be dropped: at every capacity there are runs in which a stale swap
  succeeds because the word it compares has come round to the same residue. Thread `z` sleeps in the
  middle of a call while thread `w` writes and thread `r` reads; `w` and `r` may be one thread.
*/
module RingLap {
  import opened Residues
  import opened RingProtocol
  import opened RingInvariant
  import opened RingRuns
  import opened RingSolo
  import ByteRing

  lemma QuietSizes(s: State)
    requires Quiet(s)
    ensures ByteRing.Used(View(s)) == s.x.t - s.x.h
    ensures ByteRing.Room(View(s)) == s.x.h + s.c.Cap() - 1 - s.x.t
  {
    ReadSizeIsDistance(s.x.h, s.x.t, s.c.Cap());
    WriteSizeIsRoom(s.x.h, s.x.t, s.c.Cap());
  }

  function Zeros(n: nat): (bytes: seq<Byte>)
    ensures |bytes| == n
  {
    seq(n, _ => 0)
  }

  /** Only `writers` call `rb_write`, and only `readers` call `rb_read`. */
  ghost predicate Roles(acts: seq<Action>, writers: set<nat>, readers: set<nat>) {
    forall a :: a in acts ==> (a.StartWrite? ==> a.t in writers) && (a.StartRead? ==> a.t in readers)
  }

  /** The sleeper is neither the writer nor the reader. */
  ghost predicate Cast(s: State, z: nat, w: nat, r: nat) {
    && z < |s.c.threads| && w < |s.c.threads| && r < |s.c.threads| && z != w && z != r
    && s.c.threads[w].Idle? && s.c.threads[r].Idle?
  }

  /** The cast is still there, and `z` has not moved. */
  ghost predicate StillAsleep(s: State, s': State, z: nat, w: nat, r: nat)
    requires Sized(s) && z < |s.c.threads|
  {
    Cast(s', z, w, r) && Sized(s') && s'.c.threads[z] == s.c.threads[z] && s'.x.snaps[z] == s.x.snaps[z]
  }

  // ---------------------------------------------------------------- undisturbed traffic

  /** `n` bytes are written undisturbed. */
  lemma Fill(s: State, z: nat, w: nat, r: nat, n: nat) returns (acts: seq<Action>)
    requires Quiet(s) && Cast(s, z, w, r) && s.x.t + n < s.x.h + s.c.Cap()
    ensures Legal(s, acts) && Roles(acts, {w}, {r})
    ensures var s' := Exec(s, acts);
      Quiet(s') && StillAsleep(s, s', z, w, r) && s'.x.t == s.x.t + n && s'.x.h == s.x.h
  {
    acts := SoloWrite(s, w, Zeros(n));
    QuietSizes(s);
  }

  /** `n` bytes are read undisturbed. */
  lemma Drink(s: State, z: nat, w: nat, r: nat, n: nat) returns (acts: seq<Action>)
    requires Quiet(s) && Cast(s, z, w, r) && s.x.h + n <= s.x.t
    ensures Legal(s, acts) && Roles(acts, {w}, {r})
    ensures var s' := Exec(s, acts);
      Quiet(s') && StillAsleep(s, s', z, w, r) && s'.x.t == s.x.t && s'.x.h == s.x.h + n
  {
    acts := SoloRead(s, r, n);
    QuietSizes(s);
  }

  /** `n` bytes go through an empty ring. */
  lemma PassThrough(s: State, z: nat, w: nat, r: nat, n: nat) returns (acts: seq<Action>)
    requires Quiet(s) && Cast(s, z, w, r) && s.x.t == s.x.h && n < s.c.Cap()
    ensures Legal(s, acts) && Roles(acts, {w}, {r})
    ensures var s' := Exec(s, acts);
      Quiet(s') && StillAsleep(s, s', z, w, r) && s'.x.t == s'.x.h == s.x.t + n
  {
    var a := Fill(s, z, w, r, n);
    var b := Drink(Exec(s, a), z, w, r, n);
    ExecAppend(s, a, b);
    acts := a + b;
  }

  // ---------------------------------------------------------------- a slow writer

  /** `z` has called `rb_write` with all that fits, and has loaded `head` when it was 0. */
  ghost predicate Asleep(s: State, z: nat, w: nat, r: nat) {
    Quiet(s) && Cast(s, z, w, r) && s.c.threads[z] == WriteHead(s.c.Cap() - 1, Zeros(s.c.Cap() - 1), 0)
  }

  lemma HeadLoaded(s: State, z: nat, w: nat, r: nat) returns (acts: seq<Action>)
    requires 2 <= s.c.Cap() && s == Init(s.c.mem.content, |s.c.threads|) && Cast(s, z, w, r)
    ensures Legal(s, acts) && Roles(acts, {z}, {})
    ensures var s' := Exec(s, acts); Asleep(s', z, w, r) && s'.x.h == s'.x.t == 0
  {
    InitInv(s.c.mem.content, |s.c.threads|);
    var start := StartWrite(z, Zeros(s.c.Cap() - 1));
    ThenOne(s, [], start);
    assert [] + [start] == [start];
    ThenOne(s, [start], Load(z));
    acts := [start] + [Load(z)];
    NoLaps(s, acts);
    RunInv(s, acts, 0, 0);
  }

  /** A lap passes while `z` sleeps ... */
  lemma LapPasses(s: State, z: nat, w: nat, r: nat) returns (acts: seq<Action>)
    requires Asleep(s, z, w, r) && s.x.h == s.x.t == 0
    ensures Legal(s, acts) && Roles(acts, {w}, {r})
    ensures var s' := Exec(s, acts); Asleep(s', z, w, r) && s'.x.t == s'.x.h == s.c.Cap() - 1
  {
    acts := PassThrough(s, z, w, r, s.c.Cap() - 1);
  }

  /** ... and with one byte more the tail comes round to 0. */
  lemma TailComesRound(s: State, z: nat, w: nat, r: nat) returns (acts: seq<Action>)
    requires Asleep(s, z, w, r) && s.x.t == s.x.h == s.c.Cap() - 1
    ensures Legal(s, acts) && Roles(acts, {w}, {r})
    ensures CameRound(Exec(s, acts), z, w, r)
  {
    acts := Fill(s, z, w, r, 1);
    WrapAdd(0, s.c.Cap(), s.c.Cap());
  }

  ghost predicate CameRound(s: State, z: nat, w: nat, r: nat) {
    && Asleep(s, z, w, r) && s.x.h == s.c.Cap() - 1 && s.x.t == s.x.o == s.c.Cap()
    && s.c.mem.tail == s.c.mem.oldtail == 0 && s.c.mem.head == s.c.Cap() - 1
  }

  /** `z` has reserved all but one of the cells, when all but one were in use. */
  ghost predicate OverReserved(s: State, z: nat, w: nat, r: nat) {
    var n := s.c.Cap();
    && Formed(s) && Cast(s, z, w, r) && s.c.threads[z] == WriteCopy(n - 1, Zeros(n - 1), 0, {})
    && s.x.h == n - 1 && s.x.o == n && s.x.t == 2 * n - 1 && s.x.queue == [z]
    && s.c.mem.head == n - 1 && s.c.mem.oldtail == 0
  }

  /** `z` wakes up: its swap succeeds. */
  lemma WakeAndReserve(s: State, z: nat, w: nat, r: nat) returns (acts: seq<Action>)
    requires CameRound(s, z, w, r)
    ensures Legal(s, acts) && Roles(acts, {}, {}) && OverReserved(Exec(s, acts), z, w, r)
  {
    LoadInv(s, z);
    ThenOne(s, [], Load(z));
    assert [] + [Load(z)] == [Load(z)];
    ThenOne(s, [Load(z)], Cas(z));
    acts := [Load(z)] + [Cas(z)];
  }

  /** A whole ring of bytes is published and undelivered, and the ring looks empty. */
  ghost predicate LooksEmpty(s: State, z: nat, w: nat, r: nat) {
    && Formed(s) && Cast(s, z, w, r) && s.c.threads[z].Idle?
    && s.x.o == s.x.t == s.x.h + s.c.Cap() && s.c.mem.head == s.c.mem.oldtail
  }

  /** It copies its bytes and publishes them. */
  lemma PublishAll(s: State, z: nat, w: nat, r: nat) returns (acts: seq<Action>)
    requires OverReserved(s, z, w, r)
    ensures Legal(s, acts) && Roles(acts, {}, {}) && LooksEmpty(Exec(s, acts), z, w, r)
  {
    assert ByteRing.BlockWrite(s.c.mem.content, 0, Zeros(s.c.Cap() - 1)[..0]) == s.c.mem.content;
    var copies := SoloCopyIn(s, z, 0, s.c.mem.content);
    CopiedThenPublished(Exec(s, copies), z, w, r);
    ThenOne(s, copies, Cas(z));
    acts := copies + [Cas(z)];
  }

  lemma CopiedThenPublished(s: State, z: nat, w: nat, r: nat)
    requires Formed(s) && Cast(s, z, w, r) && s.c.threads[z].WriteCopy? && s.c.threads[z].Complete()
    requires var n := s.c.Cap();
      && s.c.threads[z].len == n - 1 && s.c.threads[z].tail == s.c.mem.oldtail == 0 && s.c.mem.head == n - 1
      && s.x.h == n - 1 && s.x.o == n && s.x.t == 2 * n - 1
    ensures Enabled(s.c, Cas(z)) && LooksEmpty(Step(s, Cas(z)), z, w, r)
  {
    RemainderOnce(s.c.Cap() - 1, s.c.Cap());
  }

  /** A slow writer: it loads `head`, a lap passes, it loads `tail`, and reserves room that is not
      there. Once it has published, a whole ring of bytes is undelivered and the words of the ring
      say that it is empty. */
  lemma TailLapNeeded(content: seq<Byte>, threads: nat, z: nat, w: nat, r: nat) returns (acts: seq<Action>)
    requires 2 <= |content| && z < threads && w < threads && r < threads && z != w && z != r
    ensures Legal(Init(content, threads), acts) && Roles(acts, {z, w}, {r})
    ensures LooksEmpty(Exec(Init(content, threads), acts), z, w, r)
  {
    var s := Init(content, threads);
    var begin := SleepThroughLap(s, z, w, r);
    var rest := WakeToPublish(Exec(s, begin), z, w, r);
    ExecAppend(s, begin, rest);
    acts := begin + rest;
  }

  lemma SleepThroughLap(s: State, z: nat, w: nat, r: nat) returns (acts: seq<Action>)
    requires 2 <= s.c.Cap() && s == Init(s.c.mem.content, |s.c.threads|) && Cast(s, z, w, r)
    ensures Legal(s, acts) && Roles(acts, {z, w}, {r}) && CameRound(Exec(s, acts), z, w, r)
  {
    var begin := HeadLoaded(s, z, w, r);
    var lap := WholeLap(Exec(s, begin), z, w, r);
    ExecAppend(s, begin, lap);
    acts := begin + lap;
  }

  lemma WholeLap(s: State, z: nat, w: nat, r: nat) returns (acts: seq<Action>)
    requires Asleep(s, z, w, r) && s.x.h == s.x.t == 0
    ensures Legal(s, acts) && Roles(acts, {w}, {r}) && CameRound(Exec(s, acts), z, w, r)
  {
    var lap := LapPasses(s, z, w, r);
    var one := TailComesRound(Exec(s, lap), z, w, r);
    ExecAppend(s, lap, one);
    acts := lap + one;
  }

  lemma WakeToPublish(s: State, z: nat, w: nat, r: nat) returns (acts: seq<Action>)
    requires CameRound(s, z, w, r)
    ensures Legal(s, acts) && Roles(acts, {}, {}) && LooksEmpty(Exec(s, acts), z, w, r)
  {
    var reserve := WakeAndReserve(s, z, w, r);
    var publish := PublishAll(Exec(s, reserve), z, w, r);
    ExecAppend(s, reserve, publish);
    acts := reserve + publish;
  }

  /** There `rb_read`, for any length, returns 0 and delivers nothing. */
  lemma NothingToRead(s: State, z: nat, w: nat, r: nat, len: nat)
    requires LooksEmpty(s, z, w, r)
    ensures Legal(s, [StartRead(r, len), Load(r), Load(r)])
    ensures var s' := Exec(s, [StartRead(r, len), Load(r), Load(r)]);
      s'.c == s.c && s'.x == s.x.(snaps := s'.x.snaps)
  {
    SoloReaderLoads(s, r, len);
    assert s.c.threads[r := Idle] == s.c.threads;
  }

  // ---------------------------------------------------------------- a slow reader

  /** `z` has copied the only byte of the stream and is about to swap. */
  ghost predicate AboutToSwap(s: State, z: nat, w: nat, r: nat) {
    && Quiet(s) && Cast(s, z, w, r) && s.x.h == 0 && s.x.t == 1
    && var pc := s.c.threads[z]; pc.ReadCopy? && pc.len == 1 && pc.head == 0 && pc.Complete()
  }

  /** `z` loads `head` and `oldtail` and copies the one byte there is, but does not swap. */
  lemma CopyOnly(s: State, z: nat, w: nat, r: nat) returns (acts: seq<Action>)
    requires Quiet(s) && Cast(s, z, w, r) && s.c.threads[z].Idle? && s.x.h == 0 && s.x.t == 1
    ensures Legal(s, acts) && Roles(acts, {}, {z}) && AboutToSwap(Exec(s, acts), z, w, r)
  {
    var loads := LoadForOne(s, z, w, r);
    CopyTheByte(Exec(s, loads), z, w, r);
    ThenOne(s, loads, Copy(z, 0));
    acts := loads + [Copy(z, 0)];
  }

  /** `z` is about to copy the only byte of the stream. */
  ghost predicate AboutToCopy(s: State, z: nat, w: nat, r: nat) {
    && Quiet(s) && Cast(s, z, w, r) && s.x.h == 0 && s.x.t == 1
    && s.c.threads[z] == ReadCopy(1, 0, map[])
  }

  lemma LoadForOne(s: State, z: nat, w: nat, r: nat) returns (acts: seq<Action>)
    requires Quiet(s) && Cast(s, z, w, r) && s.c.threads[z].Idle? && s.x.h == 0 && s.x.t == 1
    ensures Legal(s, acts) && Roles(acts, {}, {z}) && AboutToCopy(Exec(s, acts), z, w, r)
  {
    acts := [StartRead(z, 1), Load(z), Load(z)];
    SoloReaderStart(s, z, 1);
    LoadedForOne(s, z, w, r);
  }

  lemma LoadedForOne(s: State, z: nat, w: nat, r: nat)
    requires Quiet(s) && Cast(s, z, w, r) && s.x.h == 0 && s.x.t == 1 && Inv(ReaderLoaded(s, z, 1))
    ensures AboutToCopy(ReaderLoaded(s, z, 1), z, w, r)
  {
    ReadSizeIsDistance(0, 1, s.c.Cap());
  }

  lemma CopyTheByte(s: State, z: nat, w: nat, r: nat)
    requires AboutToCopy(s, z, w, r)
    ensures Enabled(s.c, Copy(z, 0)) && AboutToSwap(Step(s, Copy(z, 0)), z, w, r)
  {
    ByteCopied(s, z);
    ReadByteInv(s, z, 0);
  }

  lemma ByteCopied(s: State, z: nat)
    requires Formed(s) && z < |s.c.threads| && s.c.threads[z] == ReadCopy(1, 0, map[])
    ensures Enabled(s.c, Copy(z, 0))
    ensures var (s', pc) := (Step(s, Copy(z, 0)), Step(s, Copy(z, 0)).c.threads[z]);
      pc.ReadCopy? && pc.len == 1 && pc.head == 0 && pc.Complete() && OthersSame(s, s', z) && s'.x == s.x
  {
  }

  /** A slow reader: it copies a byte, a lap passes, and its swap delivers that byte again. */
  lemma HeadLapNeeded(content: seq<Byte>, threads: nat, z: nat, w: nat, r: nat) returns (acts: seq<Action>)
    requires 2 <= |content| && z < threads && w < threads && r < threads && z != w && z != r
    ensures Legal(Init(content, threads), acts) && Roles(acts, {w}, {z, r})
    ensures var x := Exec(Init(content, threads), acts).x;
      !(DeliveredBytes(x.delivered) <= AcceptedBytes(x.accepted))
  {
    var s := Init(content, threads);
    var first := OneByteCopied(s, z, w, r);
    var rest := LapThenDeliver(Exec(s, first), z, w, r);
    ExecAppend(s, first, rest);
    acts := first + rest;
  }

  lemma OneByteCopied(s: State, z: nat, w: nat, r: nat) returns (acts: seq<Action>)
    requires 2 <= s.c.Cap() && s == Init(s.c.mem.content, |s.c.threads|) && Cast(s, z, w, r)
    ensures Legal(s, acts) && Roles(acts, {w}, {z, r}) && AboutToSwap(Exec(s, acts), z, w, r)
  {
    InitInv(s.c.mem.content, |s.c.threads|);
    var first := Fill(s, z, w, r, 1);
    var copy := CopyOnly(Exec(s, first), z, w, r);
    ExecAppend(s, first, copy);
    acts := first + copy;
  }

  lemma LapThenDeliver(s: State, z: nat, w: nat, r: nat) returns (acts: seq<Action>)
    requires AboutToSwap(s, z, w, r)
    ensures Legal(s, acts) && Roles(acts, {w}, {r})
    ensures var x := Exec(s, acts).x; !(DeliveredBytes(x.delivered) <= AcceptedBytes(x.accepted))
  {
    var lap := HeadComesRound(s, z, w, r);
    DeliveredTooMuch(Exec(s, lap), z);
    ThenOne(s, lap, Cas(z));
    acts := lap + [Cas(z)];
  }

  /** `z` would deliver again: the ring is empty and the swap on `head` would succeed. */
  ghost predicate SwapsOnEmpty(s: State, z: nat) {
    Quiet(s) && s.x.h == s.x.t && Enabled(s.c, Cas(z)) && s.c.threads[z].ReadCopy? && CasHits(s.c, z)
  }

  lemma HeadComesRound(s: State, z: nat, w: nat, r: nat) returns (acts: seq<Action>)
    requires AboutToSwap(s, z, w, r)
    ensures Legal(s, acts) && Roles(acts, {w}, {r}) && SwapsOnEmpty(Exec(s, acts), z)
  {
    var n := s.c.Cap();
    var a := Drink(s, z, w, r, 1);
    var b := PassThrough(Exec(s, a), z, w, r, n - 1);
    WrapAdd(0, n, n);
    ExecAppend(s, a, b);
    acts := a + b;
  }

  /** A swap on `head` that succeeds on an empty ring delivers a byte too many. */
  lemma DeliveredTooMuch(s: State, z: nat)
    requires SwapsOnEmpty(s, z)
    ensures var x := Step(s, Cas(z)).x; !(DeliveredBytes(x.delivered) <= AcceptedBytes(x.accepted))
  {
    var pc := s.c.threads[z];
    DeliverEffect(s, z);
    DeliveredAppend(s.x.delivered, Delivered(z, s.x.snaps[z].asked, Output(pc.buf, pc.len)));
  }
}
