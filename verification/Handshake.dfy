/**
  The connection handshake over the shared port table: any number of clients connect, and any
  number of servers bind and close, with the steps of `connect` interleaving freely. `bind` and the
  port scan are single steps.
*/
module Handshake {
  import opened PortValues

  /** Where a client is in `connect`, with its locals. */
  datatype Pc =
    | Idle
    | Loaded(fd: nat, server: nat, pid: nat)                 // the server's entry was read as `pid`
    | Claimed(fd: nat, server: nat, pid: nat, port: nat)     // a free port now carries the client's mark
    | Won(fd: nat, server: nat, port: nat)                   // the swap on the server's entry succeeded
    | Lost(fd: nat, port: nat)                               // it failed
    | Connected(fd: nat, server: nat, port: nat)
  {
    /** The client holds `port` in the table. */
    predicate Holds() { Claimed? || Won? || Lost? || Connected? }
  }

  /** History: who is behind an entry. A server's `client` is the port it was taken by, or 0. */
  datatype Owner = Nobody | Server(pid: nat, client: nat) | Client(c: nat)

  /** Client `c` runs in process `pids[c]`; `stored` is each process's array of what `connect` has
      stored for its descriptors. */
  datatype State = State(table: seq<int>, pids: seq<nat>, clients: seq<Pc>,
                         stored: map<nat, seq<int>>, owner: seq<Owner>)

  datatype Action =
    | Bind(port: nat, pid: nat)
    | CloseServer(port: nat)
    | Load(c: nat, fd: nat, server: nat)
    | Claim(c: nat)
    | Swap(c: nat)
    | Finish(c: nat)
    | CloseClient(c: nat)

  /** The lowest free port from `i` on, or 0. */
  function FirstFree(table: seq<int>, i: nat): (port: nat)
    ensures port == 0 || (i <= port < |table| && table[port] == 0)
    decreases |table| - i
  {
    if i >= |table| then 0 else if table[i] == 0 then i else FirstFree(table, i + 1)
  }

  /** Ports held in locals index the table, descriptors the array. */
  predicate PcSized(pc: Pc) {
    && (!pc.Idle? ==> pc.fd < FD_LIMIT)
    && (pc.Holds() ==> pc.port < PORT_NUMBER)
    && (pc.Loaded? || pc.Claimed? ==> pc.server < PORT_NUMBER)
  }

  predicate Sized(s: State) {
    && |s.table| == |s.owner| == PORT_NUMBER && |s.clients| == |s.pids|
    && (forall c :: 0 <= c < |s.pids| ==> s.pids[c] in s.stored && |s.stored[s.pids[c]]| == FD_LIMIT)
    && (forall c :: 0 <= c < |s.clients| ==> PcSized(s.clients[c]))
  }

  predicate Enabled(s: State, a: Action)
    requires Sized(s)
  {
    match a
    case Bind(port, pid) => IsPort(port) && IsPid(pid)
    case CloseServer(port) => IsPort(port) && s.owner[port].Server?
    case Load(c, fd, server) => c < |s.clients| && s.clients[c].Idle? && fd < FD_LIMIT && IsPort(server)
    case Claim(c) => c < |s.clients| && s.clients[c].Loaded?
    case Swap(c) => c < |s.clients| && s.clients[c].Claimed?
    case Finish(c) => c < |s.clients| && (s.clients[c].Won? || s.clients[c].Lost?)
    case CloseClient(c) => c < |s.clients| && s.clients[c].Connected?
  }

  /** The compare half of the swap on the server's entry. */
  predicate SwapHits(s: State, c: nat)
    requires Sized(s) && Enabled(s, Swap(c))
  {
    Unsigned(s.table[s.clients[c].server]) == s.clients[c].pid
  }

  function SetEntry(s: State, port: nat, value: int, owner: Owner): State
    requires Sized(s) && port < PORT_NUMBER
  {
    s.(table := s.table[port := value], owner := s.owner[port := owner])
  }

  function Step(s: State, a: Action): (s': State)
    requires Sized(s) && Enabled(s, a)
    ensures Sized(s') && |s'.clients| == |s.clients| && s'.pids == s.pids
  {
    match a
    case Bind(port, pid) =>
      if s.table[port] != 0 then s else SetEntry(s, port, pid, Server(pid, 0))
    case CloseServer(port) => SetEntry(s, port, 0, Nobody)
    case Load(c, fd, server) =>
      var pid := Unsigned(s.table[server]);
      if pid >= PID_LIMIT || pid == 0 then s
      else s.(clients := s.clients[c := Loaded(fd, server, pid)])
    case Claim(c) =>
      var (pc, port) := (s.clients[c], FirstFree(s.table, 1));
      if port == 0 then s.(clients := s.clients[c := Idle])
      else
        SetEntry(s, port, Fd2Port(pc.fd, s.pids[c]), Client(c))
        .(clients := s.clients[c := Claimed(pc.fd, pc.server, pc.pid, port)])
    case Swap(c) =>
      var pc := s.clients[c];
      if SwapHits(s, c) then
        SetEntry(s, pc.server, TakenBy(pc.port),
                 if s.owner[pc.server].Server? then s.owner[pc.server].(client := pc.port) else Nobody)
        .(clients := s.clients[c := Won(pc.fd, pc.server, pc.port)])
      else s.(clients := s.clients[c := Lost(pc.fd, pc.port)])
    case Finish(c) =>
      var pc := s.clients[c];
      if pc.Won? then
        SetEntry(s, pc.port, CONNECTED, Client(c))
        .(clients := s.clients[c := Connected(pc.fd, pc.server, pc.port)],
          stored := s.stored[s.pids[c] := s.stored[s.pids[c]][pc.fd := ClientIdx(pc.server, pc.port)]])
      else SetEntry(s, pc.port, 0, Nobody).(clients := s.clients[c := Idle])
    case CloseClient(c) =>
      SetEntry(s, s.clients[c].port, 0, Nobody).(clients := s.clients[c := Idle])
  }

  /** The descriptor a client connects with is not 0: only then does its mark on a port differ from
      that of a listening server. */
  predicate RealFd(a: Action) { a.Load? ==> a.fd >= 1 }

  predicate RealFds(acts: seq<Action>) {
    forall a :: a in acts ==> RealFd(a)
  }

  /** An all-zero table and nobody connected. */
  function Init(pids: seq<nat>): (s: State)
    ensures Sized(s)
  {
    State(seq(PORT_NUMBER, _ => 0), pids, seq(|pids|, _ => Idle), map p | p in pids :: seq(FD_LIMIT, _ => 0),
          seq(PORT_NUMBER, _ => Nobody))
  }

  // ---------------------------------------------------------------- the invariant

  /** The entry of a port and who is behind it. */
  ghost predicate EntryOk(s: State, port: nat)
    requires Sized(s) && port < PORT_NUMBER
  {
    match s.owner[port]
    case Nobody => s.table[port] == 0
    case Server(pid, client) =>
      IsPid(pid) && client < PORT_NUMBER && s.table[port] == (if client == 0 then pid else TakenBy(client))
    case Client(c) =>
      && c < |s.clients| && s.clients[c].Holds() && s.clients[c].port == port
      && s.table[port] == (if s.clients[c].Connected? then CONNECTED else Fd2Port(s.clients[c].fd, s.pids[c]))
  }

  ghost predicate ClientOk(s: State, c: nat)
    requires Sized(s) && c < |s.clients|
  {
    var pc := s.clients[c];
    && (!pc.Idle? ==> 1 <= pc.fd < FD_LIMIT)
    && (pc.Holds() ==> IsPort(pc.port) && s.owner[pc.port] == Client(c))
    && (pc.Loaded? || pc.Claimed? ==> IsPid(pc.pid) && IsPort(pc.server))
    && (pc.Won? || pc.Connected? ==> IsPort(pc.server) && pc.server != pc.port)
  }

  ghost predicate Inv(s: State) {
    && Sized(s)
    && (forall c :: 0 <= c < |s.pids| ==> IsPid(s.pids[c]))
    && (forall port {:trigger EntryOk(s, port)} :: 0 <= port < PORT_NUMBER ==> EntryOk(s, port))
    && (forall c {:trigger ClientOk(s, c)} :: 0 <= c < |s.clients| ==> ClientOk(s, c))
  }

  lemma InitInv(pids: seq<nat>)
    requires forall c :: 0 <= c < |pids| ==> IsPid(pids[c])
    ensures Inv(Init(pids))
  {
  }

  /** What `connect` sees in an entry says who is behind it: nothing, a server nobody has taken, or
      something else. */
  lemma ClassFollowsOwner(s: State, port: nat)
    requires Inv(s) && port < PORT_NUMBER
    ensures ClassOf(s.table[port]) ==
      match s.owner[port]
      case Nobody => Free
      case Server(_, client) => if client == 0 then Listening else Taken
      case Client(_) => Taken
  {
    assert EntryOk(s, port);
    match s.owner[port] {
      case Nobody =>
      case Server(pid, client) =>
      case Client(c) =>
        assert ClientOk(s, c);
        ClaimIsTaken(s.clients[c].fd, s.pids[c]);
    }
  }

  /** A swap that succeeds does so on the entry of a server that nobody has taken. */
  lemma SwapMeetsServer(s: State, c: nat)
    requires Inv(s) && Enabled(s, Swap(c)) && SwapHits(s, c)
    ensures var sp := s.clients[c].server; s.owner[sp] == Server(s.clients[c].pid, 0)
  {
    assert ClientOk(s, c);
    ClassFollowsOwner(s, s.clients[c].server);
    assert EntryOk(s, s.clients[c].server);
  }

  /** It succeeds exactly when the server whose entry the client loaded is still there, untaken. */
  lemma SwapExact(s: State, c: nat)
    requires Inv(s) && Enabled(s, Swap(c))
    ensures SwapHits(s, c) <==> s.owner[s.clients[c].server] == Server(s.clients[c].pid, 0)
  {
    assert ClientOk(s, c);
    assert EntryOk(s, s.clients[c].server);
    if SwapHits(s, c) { SwapMeetsServer(s, c); }
  }

  /** `bind` puts the process into a free entry, and leaves any other alone. */
  lemma BindExact(s: State, port: nat, pid: nat)
    requires Inv(s) && Enabled(s, Bind(port, pid))
    ensures var s' := Step(s, Bind(port, pid));
      if s.table[port] == 0 then
        s'.table == s.table[port := pid] && s'.owner == s.owner[port := Server(pid, 0)] && s'.clients == s.clients
      else s' == s
  {
  }

  // ---------------------------------------------------------------- preservation

  /** A step that rewrites the entry of one port, and moves at most one client. */
  lemma EntryStep(s: State, s': State, port: nat, c: nat)
    requires Inv(s) && Sized(s') && port < PORT_NUMBER && s'.pids == s.pids && |s'.clients| == |s.clients|
    requires forall p :: 0 <= p < PORT_NUMBER && p != port ==> s'.table[p] == s.table[p] && s'.owner[p] == s.owner[p]
    requires forall d :: 0 <= d < |s.clients| && d != c ==> s'.clients[d] == s.clients[d] && s.owner[port] != Client(d)
    requires EntryOk(s', port) && (c < |s.clients| ==> ClientOk(s', c))
    requires forall p :: 0 <= p < PORT_NUMBER && p != port && s.owner[p] == Client(c) ==> EntryOk(s', p)
    ensures Inv(s')
  {
    forall p | 0 <= p < PORT_NUMBER ensures EntryOk(s', p) {
      assert EntryOk(s, p);
    }
    forall d | 0 <= d < |s.clients| ensures ClientOk(s', d) {
      assert ClientOk(s, d);
    }
  }

  /** A step that moves one client and rewrites no entry. */
  lemma ClientStep(s: State, s': State, c: nat)
    requires Inv(s) && Sized(s') && c < |s.clients| == |s'.clients|
    requires s' == s.(clients := s.clients[c := s'.clients[c]]) && ClientOk(s', c)
    requires s.clients[c].Holds() == s'.clients[c].Holds()
    requires s.clients[c].Holds() ==>
               && s'.clients[c].port == s.clients[c].port && s'.clients[c].fd == s.clients[c].fd
               && !s.clients[c].Connected? && !s'.clients[c].Connected?
    ensures Inv(s')
  {
    forall p | 0 <= p < PORT_NUMBER ensures EntryOk(s', p) {
      assert EntryOk(s, p);
    }
    forall d | 0 <= d < |s.clients| ensures ClientOk(s', d) {
      assert ClientOk(s, d);
    }
  }

  /** A client is behind the entry of the port it holds, and no other. */
  lemma Behind(s: State, c: nat, p: nat)
    requires Inv(s) && c < |s.clients| && p < PORT_NUMBER
    ensures s.owner[p] == Client(c) <==> s.clients[c].Holds() && s.clients[c].port == p
  {
    assert EntryOk(s, p) && ClientOk(s, c);
  }

  lemma NotBehind(s: State, port: nat)
    requires Inv(s) && port < PORT_NUMBER && s.table[port] == 0
    ensures s.owner[port] == Nobody
  {
    ClassFollowsOwner(s, port);
  }

  lemma ServerStepInv(s: State, a: Action)
    requires Inv(s) && Enabled(s, a) && (a.Bind? || a.CloseServer?)
    ensures Inv(Step(s, a))
  {
    if a.CloseServer? || s.table[a.port] == 0 {
      if a.Bind? { NotBehind(s, a.port); }
      forall p | 0 <= p < PORT_NUMBER ensures s.owner[p] != Client(|s.clients|) {
        assert EntryOk(s, p);
      }
      EntryStep(s, Step(s, a), a.port, |s.clients|);
    }
  }

  lemma LoadInv(s: State, c: nat, fd: nat, server: nat)
    requires Inv(s) && Enabled(s, Load(c, fd, server)) && fd >= 1
    ensures Inv(Step(s, Load(c, fd, server)))
  {
    assert ClientOk(s, c);
    var s' := Step(s, Load(c, fd, server));
    if s' != s { ClientStep(s, s', c); }
  }

  lemma ClaimInv(s: State, c: nat)
    requires Inv(s) && Enabled(s, Claim(c))
    ensures Inv(Step(s, Claim(c)))
  {
    assert ClientOk(s, c);
    var s', port := Step(s, Claim(c)), FirstFree(s.table, 1);
    if port == 0 {
      ClientStep(s, s', c);
    } else {
      NotBehind(s, port);
      forall p | 0 <= p < PORT_NUMBER ensures s.owner[p] != Client(c) {
        Behind(s, c, p);
      }
      EntryStep(s, s', port, c);
    }
  }

  lemma SwapInv(s: State, c: nat)
    requires Inv(s) && Enabled(s, Swap(c))
    ensures Inv(Step(s, Swap(c)))
  {
    assert ClientOk(s, c);
    var s', pc := Step(s, Swap(c)), s.clients[c];
    if SwapHits(s, c) {
      SwapMeetsServer(s, c);
      assert EntryOk(s, pc.port);
      forall p | 0 <= p < PORT_NUMBER && p != pc.server && s.owner[p] == Client(c) ensures EntryOk(s', p) {
        Behind(s, c, p);
      }
      EntryStep(s, s', pc.server, c);
    } else {
      ClientStep(s, s', c);
    }
  }

  lemma OwnEntryInv(s: State, a: Action)
    requires Inv(s) && Enabled(s, a) && (a.Finish? || a.CloseClient?)
    ensures Inv(Step(s, a))
  {
    var c := a.c;
    assert ClientOk(s, c);
    forall p | 0 <= p < PORT_NUMBER && p != s.clients[c].port ensures s.owner[p] != Client(c) {
      Behind(s, c, p);
    }
    EntryStep(s, Step(s, a), s.clients[c].port, c);
  }

  /** Every step keeps the invariant. */
  lemma StepInv(s: State, a: Action)
    requires Inv(s) && Enabled(s, a) && RealFd(a)
    ensures Inv(Step(s, a))
  {
    match a {
      case Bind(_, _) => ServerStepInv(s, a);
      case CloseServer(_) => ServerStepInv(s, a);
      case Load(c, fd, server) => LoadInv(s, c, fd, server);
      case Claim(c) => ClaimInv(s, c);
      case Swap(c) => SwapInv(s, c);
      case Finish(_) => OwnEntryInv(s, a);
      case CloseClient(_) => OwnEntryInv(s, a);
    }
  }

  // ---------------------------------------------------------------- runs

  predicate Legal(s: State, acts: seq<Action>)
    requires Sized(s)
    decreases |acts|
  {
    acts == [] || (Enabled(s, acts[0]) && Legal(Step(s, acts[0]), acts[1..]))
  }

  function Exec(s: State, acts: seq<Action>): (s': State)
    requires Sized(s) && Legal(s, acts)
    ensures Sized(s') && |s'.clients| == |s.clients| && s'.pids == s.pids
    decreases |acts|
  {
    if acts == [] then s else Exec(Step(s, acts[0]), acts[1..])
  }

  lemma {:induction false} Then(s: State, acts: seq<Action>, a: Action)
    requires Sized(s) && Legal(s, acts) && Enabled(Exec(s, acts), a)
    ensures Legal(s, acts + [a]) && Exec(s, acts + [a]) == Step(Exec(s, acts), a)
    decreases |acts|
  {
    if acts == [] {
      assert [] + [a] == [a] && [a][1..] == [];
    } else {
      assert (acts + [a])[1..] == acts[1..] + [a];
      Then(Step(s, acts[0]), acts[1..], a);
    }
  }

  lemma {:induction false} RunInv(s: State, acts: seq<Action>)
    requires Inv(s) && Legal(s, acts) && RealFds(acts)
    ensures Inv(Exec(s, acts))
    decreases |acts|
  {
    if acts != [] {
      StepInv(s, acts[0]);
      RunInv(Step(s, acts[0]), acts[1..]);
    }
  }

  /** Claimed client ports are distinct, and distinct from every server port. */
  lemma PortsAreDistinct(pids: seq<nat>, acts: seq<Action>, c: nat, d: nat)
    requires (forall i :: 0 <= i < |pids| ==> IsPid(pids[i])) && Legal(Init(pids), acts) && RealFds(acts)
    requires c < |pids| && d < |pids| && c != d
    requires Exec(Init(pids), acts).clients[c].Holds() && Exec(Init(pids), acts).clients[d].Holds()
    ensures var s := Exec(Init(pids), acts);
      s.clients[c].port != s.clients[d].port && !s.owner[s.clients[c].port].Server?
  {
    InitInv(pids);
    RunInv(Init(pids), acts);
    assert ClientOk(Exec(Init(pids), acts), c) && ClientOk(Exec(Init(pids), acts), d);
  }

  // ---------------------------------------------------------------- one winner per bind

  /** How many swaps on the entry of server port `p` succeed in the run. */
  function Wins(s: State, acts: seq<Action>, p: nat): nat
    requires Sized(s) && Legal(s, acts)
    decreases |acts|
  {
    if acts == [] then 0
    else
      (if acts[0].Swap? && SwapHits(s, acts[0].c) && s.clients[acts[0].c].server == p then 1 else 0)
      + Wins(Step(s, acts[0]), acts[1..], p)
  }

  predicate IsTaken(s: State, p: nat)
    requires Sized(s)
  {
    p < PORT_NUMBER && s.owner[p].Server? && s.owner[p].client != 0
  }

  /** Behind port `p` is the server of process `pid`. */
  ghost predicate BoundBy(s: State, p: nat, pid: nat)
    requires Sized(s)
  {
    p < PORT_NUMBER && s.owner[p].Server? && s.owner[p].pid == pid
  }

  lemma BinderStays(s: State, a: Action, p: nat, pid: nat)
    requires Inv(s) && Enabled(s, a) && BoundBy(s, p, pid) && a != CloseServer(p)
    ensures BoundBy(Step(s, a), p, pid)
  {
    ClassFollowsOwner(s, p);
    assert EntryOk(s, p);
    match a {
      case Swap(c) => if SwapHits(s, c) { SwapMeetsServer(s, c); }
      case Finish(c) => assert ClientOk(s, c);
      case CloseClient(c) => assert ClientOk(s, c);
      case _ =>
    }
  }

  lemma {:induction false} BinderRests(s: State, acts: seq<Action>, p: nat, pid: nat)
    requires Inv(s) && Legal(s, acts) && RealFds(acts) && BoundBy(s, p, pid) && CloseServer(p) !in acts
    ensures Inv(Exec(s, acts)) && BoundBy(Exec(s, acts), p, pid)
    decreases |acts|
  {
    if acts != [] {
      BinderStays(s, acts[0], p, pid);
      StepInv(s, acts[0]);
      BinderRests(Step(s, acts[0]), acts[1..], p, pid);
    }
  }

  /** The process a winning client signals is the one that bound the port: between a `bind` that
      succeeds and the server's close, a swap on that port succeeds only for a client that loaded that
      process's number. */
  lemma BinderIsSignalled(s: State, p: nat, pid: nat, acts: seq<Action>, c: nat)
    requires Inv(s) && Enabled(s, Bind(p, pid)) && s.table[p] == 0
    requires Legal(Step(s, Bind(p, pid)), acts) && RealFds(acts) && CloseServer(p) !in acts
    requires var s' := Exec(Step(s, Bind(p, pid)), acts);
      Enabled(s', Swap(c)) && s'.clients[c].server == p && SwapHits(s', c)
    ensures Exec(Step(s, Bind(p, pid)), acts).clients[c].pid == pid
  {
    BindExact(s, p, pid);
    StepInv(s, Bind(p, pid));
    BinderRests(Step(s, Bind(p, pid)), acts, p, pid);
    SwapMeetsServer(Exec(Step(s, Bind(p, pid)), acts), c);
  }

  /** Until the server closes it, a taken port stays taken by the same client. */
  lemma TakenStays(s: State, a: Action, p: nat)
    requires Inv(s) && Enabled(s, a) && IsTaken(s, p) && a != CloseServer(p)
    ensures Step(s, a).owner[p] == s.owner[p] && Step(s, a).table[p] == s.table[p]
    ensures a.Swap? && SwapHits(s, a.c) ==> s.clients[a.c].server != p
  {
    ClassFollowsOwner(s, p);
    match a {
      case Bind(port, _) =>
      case CloseServer(port) =>
      case Load(_, _, _) =>
      case Claim(c) =>
      case Swap(c) => if SwapHits(s, c) { SwapMeetsServer(s, c); }
      case Finish(c) => assert ClientOk(s, c);
      case CloseClient(c) => assert ClientOk(s, c);
    }
  }

  /** Between two closes of a server port, over every interleaving, at most one connect succeeds;
      none does if the port is already taken. */
  lemma {:induction false} OneWinner(s: State, acts: seq<Action>, p: nat)
    requires Inv(s) && Legal(s, acts) && RealFds(acts) && IsPort(p) && CloseServer(p) !in acts
    ensures Wins(s, acts, p) <= (if IsTaken(s, p) then 0 else 1)
    decreases |acts|
  {
    if acts != [] {
      var a, s' := acts[0], Step(s, acts[0]);
      StepInv(s, a);
      OneWinner(s', acts[1..], p);
      if IsTaken(s, p) {
        TakenStays(s, a, p);
      } else if a.Swap? && SwapHits(s, a.c) && s.clients[a.c].server == p {
        SwapMeetsServer(s, a.c);
        assert ClientOk(s, a.c);
      }
    }
  }

  // ---------------------------------------------------------------- losing leaves no trace

  /** While a client holds a port, nobody else's step touches its entry. */
  lemma OwnEntryStays(s: State, a: Action, c: nat)
    requires Inv(s) && Enabled(s, a) && c < |s.clients| && s.clients[c].Holds()
    requires a.Bind? || a.CloseServer? || a.c != c
    ensures var s' := Step(s, a); var port := s.clients[c].port;
      s'.clients[c] == s.clients[c] && s'.owner[port] == s.owner[port] && s'.table[port] == s.table[port]
  {
    assert ClientOk(s, c);
    ClassFollowsOwner(s, s.clients[c].port);
    match a {
      case Swap(d) => if SwapHits(s, d) { SwapMeetsServer(s, d); }
      case Finish(d) => assert ClientOk(s, d);
      case CloseClient(d) => assert ClientOk(s, d);
      case _ =>
    }
  }

  /** Client `c` takes no step. */
  ghost predicate Rests(acts: seq<Action>, c: nat) {
    forall a :: a in acts ==> a.Bind? || a.CloseServer? || a.c != c
  }

  lemma {:induction false} OwnEntryRests(s: State, acts: seq<Action>, c: nat)
    requires Inv(s) && Legal(s, acts) && RealFds(acts) && c < |s.clients| && s.clients[c].Holds() && Rests(acts, c)
    ensures var s' := Exec(s, acts); var port := s.clients[c].port;
      s'.clients[c] == s.clients[c] && s'.owner[port] == s.owner[port] && s'.table[port] == s.table[port]
    decreases |acts|
  {
    if acts != [] {
      OwnEntryStays(s, acts[0], c);
      StepInv(s, acts[0]);
      OwnEntryRests(Step(s, acts[0]), acts[1..], c);
    }
  }

  /** A client whose swap failed still has its own mark in the port it claimed when it rolls back,
      however long the others ran in between; the roll-back frees that entry and changes no other. */
  lemma LoserRestores(s: State, acts: seq<Action>, c: nat)
    requires Inv(s) && Enabled(s, Swap(c)) && !SwapHits(s, c)
    requires Legal(Step(s, Swap(c)), acts) && RealFds(acts) && Rests(acts, c)
    ensures var (s', port) := (Exec(Step(s, Swap(c)), acts), s.clients[c].port);
      && Enabled(s', Finish(c))
      && s'.owner[port] == Client(c) && s'.table[port] == s.table[port] == Fd2Port(s.clients[c].fd, s.pids[c])
      && Step(s', Finish(c)).table == s'.table[port := 0]
      && Step(s', Finish(c)).owner == s'.owner[port := Nobody]
  {
    assert ClientOk(s, c) && EntryOk(s, s.clients[c].port);
    StepInv(s, Swap(c));
    OwnEntryRests(Step(s, Swap(c)), acts, c);
  }

  // ---------------------------------------------------------------- what accept reads

  /** While the server keeps the port open after a successful swap, the entry decodes to the
      winning client's port, and that port is not the server's own. */
  lemma {:induction false} AcceptReadsWinner(s: State, acts: seq<Action>, p: nat)
    requires Inv(s) && Legal(s, acts) && RealFds(acts) && IsTaken(s, p) && CloseServer(p) !in acts
    ensures var s' := Exec(s, acts);
      s'.owner[p] == s.owner[p] && s'.table[p] % PORT_NUMBER == s.owner[p].client
    decreases |acts|
  {
    if acts == [] {
      assert EntryOk(s, p);
      TakenDecodes(s.owner[p].client);
    } else {
      TakenStays(s, acts[0], p);
      StepInv(s, acts[0]);
      AcceptReadsWinner(Step(s, acts[0]), acts[1..], p);
    }
  }

  lemma WinnerTakes(s: State, c: nat)
    requires Inv(s) && Enabled(s, Swap(c)) && SwapHits(s, c)
    ensures var (s', pc) := (Step(s, Swap(c)), s.clients[c]);
      && Inv(s') && IsTaken(s', pc.server) && s'.owner[pc.server].client == pc.port
      && s'.clients[c] == Won(pc.fd, pc.server, pc.port) && pc.port != pc.server && IsPort(pc.port) && IsPort(pc.server)
  {
    SwapMeetsServer(s, c);
    StepInv(s, Swap(c));
    assert ClientOk(s, c) && ClientOk(Step(s, Swap(c)), c);
  }

  // ---------------------------------------------------------------- what connect records

  /** In its process no other client uses the descriptor of `c`, as when each descriptor belongs to
      one socket. */
  ghost predicate FdAlone(s: State, c: nat)
    requires Sized(s) && c < |s.clients|
  {
    && !s.clients[c].Idle?
    && forall d :: 0 <= d < |s.clients| && d != c && s.pids[d] == s.pids[c] ==>
         s.clients[d].Idle? || s.clients[d].fd != s.clients[c].fd
  }

  /** ... and once `c` is connected, the process has its ports on record. */
  ghost predicate OnRecord(s: State, c: nat)
    requires Sized(s) && c < |s.clients|
  {
    var pc := s.clients[c];
    FdAlone(s, c) && (pc.Connected? ==> s.stored[s.pids[c]][pc.fd] == ClientIdx(pc.server, pc.port))
  }

  /** No other client of the process starts to connect with the descriptor `fd`. */
  ghost predicate OwnFd(s: State, a: Action, c: nat, fd: nat)
    requires Sized(s) && Enabled(s, a) && c < |s.clients|
  {
    a.Load? && a.c != c && s.pids[a.c] == s.pids[c] ==> a.fd != fd
  }

  ghost predicate OwnFdRun(s: State, acts: seq<Action>, c: nat, fd: nat)
    requires Sized(s) && Legal(s, acts) && c < |s.clients|
    decreases |acts|
  {
    acts == [] || (OwnFd(s, acts[0], c, fd) && OwnFdRun(Step(s, acts[0]), acts[1..], c, fd))
  }

  /** A client that has won keeps its ports, and its process keeps them on record, until it closes. */
  ghost predicate HasWon(s: State, c: nat, fd: nat, server: nat, port: nat)
    requires Sized(s) && c < |s.clients|
  {
    s.clients[c] == Won(fd, server, port) || s.clients[c] == Connected(fd, server, port)
  }

  lemma RecordStep(s: State, a: Action, c: nat, fd: nat, server: nat, port: nat)
    requires Sized(s) && Enabled(s, a) && c < |s.clients| && HasWon(s, c, fd, server, port) && OnRecord(s, c)
    requires a != CloseClient(c) && OwnFd(s, a, c, fd)
    ensures HasWon(Step(s, a), c, fd, server, port) && OnRecord(Step(s, a), c)
  {
  }

  lemma {:induction false} RecordRun(s: State, acts: seq<Action>, c: nat, fd: nat, server: nat, port: nat)
    requires Sized(s) && Legal(s, acts) && c < |s.clients| && HasWon(s, c, fd, server, port) && OnRecord(s, c)
    requires CloseClient(c) !in acts && OwnFdRun(s, acts, c, fd)
    ensures HasWon(Exec(s, acts), c, fd, server, port) && OnRecord(Exec(s, acts), c)
    decreases |acts|
  {
    if acts != [] {
      RecordStep(s, acts[0], c, fd, server, port);
      RecordRun(Step(s, acts[0]), acts[1..], c, fd, server, port);
    }
  }

  // ---------------------------------------------------------------- one end of a connection

  /** The server of a port that has been taken, or a client that has won, with its port. */
  datatype End = ServerEnd(port: nat) | ClientEnd(port: nat, c: nat)

  function CloseOf(end: End): Action {
    match end
    case ServerEnd(port) => CloseServer(port)
    case ClientEnd(_, c) => CloseClient(c)
  }

  ghost predicate Open(s: State, end: End)
    requires Sized(s)
  {
    match end
    case ServerEnd(port) => IsTaken(s, port)
    case ClientEnd(port, c) =>
      c < |s.clients| && (s.clients[c].Won? || s.clients[c].Connected?) && s.clients[c].port == port
  }

  /** Until it closes, an open end stays open and its entry is not 0, whatever anybody does. */
  lemma OpenStays(s: State, a: Action, end: End)
    requires Inv(s) && Enabled(s, a) && Open(s, end) && a != CloseOf(end)
    ensures Open(Step(s, a), end)
  {
    match end {
      case ServerEnd(port) => TakenStays(s, a, port);
      case ClientEnd(_, _) =>
    }
  }

  lemma OpenIsNotZero(s: State, end: End)
    requires Inv(s) && Open(s, end)
    ensures end.port < PORT_NUMBER && s.table[end.port] != 0
  {
    if end.ClientEnd? { assert ClientOk(s, end.c); }
    ClassFollowsOwner(s, end.port);
  }

  // ---------------------------------------------------------------- descriptor 0

  /** With descriptor 0 a client's mark on its own port reads as a listening server: another client
      wins that port, which nobody bound, and overwrites the mark. */
  lemma ZeroDescriptorConfuses(pids: seq<nat>) returns (acts: seq<Action>)
    requires |pids| == 2 && IsPid(pids[0]) && IsPid(pids[1])
    ensures Legal(Init(pids), acts) && forall a :: a in acts && a.Bind? ==> a.port != 1
    ensures var s := Exec(Init(pids), acts);
      && s.clients[1] == Won(1, 1, 2)
      && s.clients[0].Holds() && s.clients[0].port == 1 && s.table[1] != Fd2Port(0, pids[0])
  {
    var s := Init(pids);
    acts := [];
    Then(s, acts, Bind(5, pids[0]));
    acts := acts + [Bind(5, pids[0])];
    Then(s, acts, Load(0, 0, 5));
    acts := acts + [Load(0, 0, 5)];
    Then(s, acts, Claim(0));
    acts := acts + [Claim(0)];
    assert Exec(s, acts).table[1] == pids[0];
    Then(s, acts, Load(1, 1, 1));
    acts := acts + [Load(1, 1, 1)];
    assert FirstFree(Exec(s, acts).table, 2) == 2;
    Then(s, acts, Claim(1));
    acts := acts + [Claim(1)];
    assert Exec(s, acts).clients[1] == Claimed(1, 1, pids[0], 2);
    Then(s, acts, Swap(1));
    acts := acts + [Swap(1)];
  }
}
