/**
  The port table as an object, and the wiring of a connected pair of sockets: which rings the two
  ends send to and receive from.
*/
module Sockets {
  import opened PortValues
  import PoolModel
  import RingNames
  import Handshake
  import Directories

  class PortTable {
    const address: array<int>

    ghost predicate Valid() { address.Length == PORT_NUMBER }

    constructor ()
      ensures Valid() && fresh(address)
      ensures address[..] == seq(PORT_NUMBER, _ => 0)
    {
      address := new int[PORT_NUMBER](_ => 0);
    }

    /** The scan for the lowest free port from 1 up, which then carries `idx`; 0 when there is none. */
    method GetFreePort(idx: int) returns (port: nat)
      requires Valid()
      modifies address
      ensures port == Handshake.FirstFree(old(address[..]), 1)
      ensures address[..] == if port == 0 then old(address[..]) else old(address[..])[port := idx]
    {
      for i := 1 to PORT_NUMBER
        invariant address[..] == old(address[..])
        invariant Handshake.FirstFree(address[..], 1) == Handshake.FirstFree(address[..], i)
      {
        if address[i] == 0 {
          address[i] := idx;
          return i;
        }
      }
      return 0;
    }

    /** `bind` succeeds exactly on a free entry, and changes no other. */
    method Bind(port: nat, pid: nat) returns (ret: int)
      requires Valid() && IsPort(port) && IsPid(pid)
      modifies address
      ensures ret == (if old(address[port]) == 0 then 0 else -1)
      ensures address[..] == if ret == 0 then old(address[..])[port := pid] else old(address[..])
    {
      if address[port] != 0 {
        return -1;
      }
      address[port] := pid;
      return 0;
    }
  }

  /** The scan returns a port exactly when some port from `i` on is free, and then the lowest. */
  lemma {:induction false} FirstFreeIsLowest(table: seq<int>, i: nat)
    requires i >= 1
    ensures var port := Handshake.FirstFree(table, i);
      && (port == 0 <==> forall p :: i <= p < |table| ==> table[p] != 0)
      && (forall p :: i <= p < port && p < |table| ==> table[p] != 0)
    decreases |table| - i
  {
    if i < |table| && table[i] != 0 { FirstFreeIsLowest(table, i + 1); }
  }

  // ---------------------------------------------------------------- wiring

  /** `sendto` writes to the ring of (local, remote). */
  function SendRing(fd: int): RingNames.Pair
    requires IsPort(LocalPort(fd)) && IsPort(RemotePort(fd))
  {
    RingNames.Pair(LocalPort(fd) as RingNames.Port, RemotePort(fd) as RingNames.Port)
  }

  /** `recvfrom` reads the ring of (remote, local). */
  function RecvRing(fd: int): RingNames.Pair
    requires IsPort(LocalPort(fd)) && IsPort(RemotePort(fd))
  {
    RingNames.Pair(RemotePort(fd) as RingNames.Port, LocalPort(fd) as RingNames.Port)
  }

  /** A descriptor below 1024 stands for the value `connect` stored for it; others for themselves. */
  function Resolve(fd: nat, stored: seq<int>): int
    requires |stored| == FD_LIMIT
  {
    if fd < FD_LIMIT then stored[fd] else fd
  }

  /** The client's descriptor stands for `ClientIdx`, the server's is `AcceptFd`: each end's send
      ring is the other end's receive ring, and the two differ when the ports do. */
  lemma EndsMatch(clientPort: nat, serverPort: nat)
    requires IsPort(clientPort) && IsPort(serverPort)
    ensures var (x, y) := (ClientIdx(serverPort, clientPort), AcceptFd(clientPort, serverPort));
      && LocalPort(x) == clientPort == RemotePort(y) && RemotePort(x) == serverPort == LocalPort(y)
      && SendRing(x) == RecvRing(y) == RingNames.Pair(clientPort as RingNames.Port, serverPort as RingNames.Port)
      && SendRing(y) == RecvRing(x) == RingNames.Pair(serverPort as RingNames.Port, clientPort as RingNames.Port)
      && (SendRing(x) != SendRing(y) <==> clientPort != serverPort)
  {
    PackedPorts(serverPort, clientPort);
    PackedPorts(clientPort, serverPort);
  }

  /** An accepted descriptor is looked up in no array: whatever is stored there, the calls that are
      given it work on the server's own port and the client's. */
  lemma AcceptedResolves(clientPort: nat, serverPort: nat, stored: seq<int>)
    requires IsPort(clientPort) && IsPort(serverPort) && clientPort <= 32767 && |stored| == FD_LIMIT
    ensures var fd := AcceptFd(clientPort, serverPort);
      fd >= FD_LIMIT && LocalPort(Resolve(fd, stored)) == serverPort && RemotePort(Resolve(fd, stored)) == clientPort
  {
    AcceptFdUsable(clientPort, serverPort);
    PackedPorts(clientPort, serverPort);
  }

  /** A small descriptor stands for the ports that its process has stored for it. */
  lemma StoredResolves(fd: nat, stored: seq<int>, clientPort: nat, serverPort: nat)
    requires fd < FD_LIMIT == |stored| && stored[fd] == ClientIdx(serverPort, clientPort)
    requires IsPort(clientPort) && IsPort(serverPort)
    ensures LocalPort(Resolve(fd, stored)) == clientPort && RemotePort(Resolve(fd, stored)) == serverPort
  {
    PackedPorts(serverPort, clientPort);
  }

  /** What `accept` returns while server port `p` is open in state `s`. */
  function Accept(s: Handshake.State, p: nat): int
    requires Handshake.Sized(s) && p < PORT_NUMBER
  {
    AcceptFd(s.table[p] % PORT_NUMBER, p)
  }

  /** Client `c` wins its server's port in state `s`; then others run, and the client finishes
      (`acts`), while the server stays open, the client does not close, and no other client of the
      process uses its descriptor. */
  ghost predicate Connection(s: Handshake.State, acts: seq<Handshake.Action>, c: nat) {
    && Handshake.Inv(s) && Handshake.Enabled(s, Handshake.Swap(c)) && Handshake.SwapHits(s, c)
    && Handshake.FdAlone(s, c)
    && var s1 := Handshake.Step(s, Handshake.Swap(c));
    && Handshake.Legal(s1, acts) && Handshake.RealFds(acts)
    && Handshake.OwnFdRun(s1, acts, c, s.clients[c].fd)
    && Handshake.CloseServer(s.clients[c].server) !in acts && Handshake.CloseClient(c) !in acts
    && Handshake.Exec(s1, acts).clients[c].Connected?
  }

  /** The client's end of that connection: what its descriptor stands for in its process. */
  ghost function ClientSide(s: Handshake.State, acts: seq<Handshake.Action>, c: nat): int
    requires Connection(s, acts, c)
  {
    var s' := Handshake.Exec(Handshake.Step(s, Handshake.Swap(c)), acts);
    Resolve(s.clients[c].fd, s'.stored[s'.pids[c]])
  }

  /** What `accept` has returned to the server at the end of it. */
  ghost function Accepted(s: Handshake.State, acts: seq<Handshake.Action>, c: nat): int
    requires Connection(s, acts, c)
  {
    Accept(Handshake.Exec(Handshake.Step(s, Handshake.Swap(c)), acts), s.clients[c].server)
  }

  /** The server's end: what that descriptor stands for in a process with the array `stored`. A negative
      one would index the array out of bounds. */
  ghost function ServerSide(s: Handshake.State, acts: seq<Handshake.Action>, c: nat, stored: seq<int>): int
    requires Connection(s, acts, c) && |stored| == FD_LIMIT && Accepted(s, acts, c) >= 0
  {
    Resolve(Accepted(s, acts, c), stored)
  }

  /** `connect` has recorded the client's port and the server's, and `accept` returns them packed. */
  lemma SidesRecorded(s: Handshake.State, acts: seq<Handshake.Action>, c: nat)
    requires Connection(s, acts, c)
    ensures var pc := s.clients[c];
      && IsPort(pc.port) && IsPort(pc.server) && pc.port != pc.server
      && ClientSide(s, acts, c) == ClientIdx(pc.server, pc.port)
      && Accepted(s, acts, c) == AcceptFd(pc.port, pc.server)
  {
    var pc, s1 := s.clients[c], Handshake.Step(s, Handshake.Swap(c));
    Handshake.WinnerTakes(s, c);
    Handshake.AcceptReadsWinner(s1, acts, pc.server);
    Handshake.RecordRun(s1, acts, c, pc.fd, pc.server, pc.port);
  }

  /** Full-duplex wiring. After a win and an accept, if the client's port is at most 32767, the
      server's descriptor stands for itself in every process, each end sends to the ring the other
      receives from, and in any agreeing table the two rings have different indices. */
  lemma FullDuplex(s: Handshake.State, acts: seq<Handshake.Action>, c: nat, stored: seq<int>,
                   names: RingNames.Names, size: nat)
    requires Connection(s, acts, c) && s.clients[c].port <= 32767 && |stored| == FD_LIMIT
    ensures Accepted(s, acts, c) >= FD_LIMIT
    ensures var (x, y, pc) := (ClientSide(s, acts, c), ServerSide(s, acts, c, stored), s.clients[c]);
      && LocalPort(x) == RemotePort(y) == pc.port && RemotePort(x) == LocalPort(y) == pc.server
      && IsPort(pc.port) && IsPort(pc.server)
      && SendRing(x) == RecvRing(y) && SendRing(y) == RecvRing(x) && SendRing(x) != SendRing(y)
      && (RingNames.Agree(names, size) && SendRing(x) in names.table && SendRing(y) in names.table ==>
            names.table[SendRing(x)] != names.table[SendRing(y)])
  {
    var pc := s.clients[c];
    SidesRecorded(s, acts, c);
    AcceptedResolves(pc.port, pc.server, stored);
    EndsMatch(pc.port, pc.server);
  }

  // ---------------------------------------------------------------- connect and close with no other process running

  /** What a lone `connect` returns. */
  function ConnectResult(table: seq<int>, serverPort: nat): int
    requires serverPort < |table|
  {
    var pid := Unsigned(table[serverPort]);
    if pid >= PID_LIMIT then -1 else if pid == 0 then -2 else if Handshake.FirstFree(table, 1) == 0 then -1 else 0
  }

  /** Each result by the class of the server's entry: -1 when somebody has taken the port, -2 when
      nobody listens there, and for a listening server 0 exactly when some port is free. */
  lemma ResultsByClass(table: seq<int>, serverPort: nat)
    requires |table| == PORT_NUMBER && serverPort < |table|
    ensures var (ret, kind) := (ConnectResult(table, serverPort), ClassOf(table[serverPort]));
      && (kind == Taken ==> ret == -1) && (kind == Free ==> ret == -2)
      && (kind == Listening ==> ret == if exists p :: 1 <= p < PORT_NUMBER && table[p] == 0 then 0 else -1)
  {
    FirstFreeIsLowest(table, 1);
  }

  /** The table after a lone `connect` that succeeds. */
  function ConnectedTable(table: seq<int>, serverPort: nat): seq<int>
    requires serverPort < |table| && ConnectResult(table, serverPort) == 0
  {
    var clientPort := Handshake.FirstFree(table, 1);
    table[serverPort := TakenBy(clientPort)][clientPort := CONNECTED]
  }

  /** A client of the handshake that runs alone does what the lone `connect` does: it fails and
      leaves the table as it was, or ends connected with the table so changed. */
  lemma LoneConnect(s: Handshake.State, c: nat, fd: nat, serverPort: nat) returns (acts: seq<Handshake.Action>)
    requires Handshake.Sized(s) && c < |s.clients| && s.clients[c].Idle? && fd < FD_LIMIT && IsPort(serverPort)
    ensures Handshake.Legal(s, acts)
    ensures var s' := Handshake.Exec(s, acts);
      if ConnectResult(s.table, serverPort) == 0 then
        && s'.table == ConnectedTable(s.table, serverPort)
        && s'.clients == s.clients[c := Handshake.Connected(fd, serverPort, Handshake.FirstFree(s.table, 1))]
        && var idx := ClientIdx(serverPort, Handshake.FirstFree(s.table, 1));
        && s'.stored == s.stored[s.pids[c] := s.stored[s.pids[c]][fd := idx]]
      else s'.table == s.table && s'.clients == s.clients && s'.stored == s.stored
  {
    acts := [];
    Handshake.Then(s, acts, Handshake.Load(c, fd, serverPort));
    acts := acts + [Handshake.Load(c, fd, serverPort)];
    if Handshake.Exec(s, acts) != s {
      Handshake.Then(s, acts, Handshake.Claim(c));
      acts := acts + [Handshake.Claim(c)];
      if Handshake.FirstFree(s.table, 1) != 0 {
        Handshake.Then(s, acts, Handshake.Swap(c));
        acts := acts + [Handshake.Swap(c)];
        Handshake.Then(s, acts, Handshake.Finish(c));
        acts := acts + [Handshake.Finish(c)];
      }
    }
  }

  /** One process's socket calls, over the shared port table and ring naming. */
  class SocketLayer {
    const ports: PortTable
    const clientFdToIdx: array<int>
    const names: Directories.Directory

    ghost predicate Valid()
      reads names, names.pool, names.pool.Repr, names.pool.chans, set c | c in names.pool.chans :: c.address
    {
      && ports.Valid() && clientFdToIdx.Length == FD_LIMIT && clientFdToIdx != ports.address
      && names.Valid() && ports.address !in names.pool.Repr && clientFdToIdx !in names.pool.Repr
    }

    constructor (ports: PortTable, names: Directories.Directory)
      requires ports.Valid() && names.Valid() && ports.address !in names.pool.Repr
      ensures Valid() && this.ports == ports && this.names == names && fresh(clientFdToIdx)
      ensures clientFdToIdx[..] == seq(FD_LIMIT, _ => 0)
    {
      this.ports, this.names := ports, names;
      clientFdToIdx := new int[FD_LIMIT](_ => 0);
    }

    /** `connect` with no other process running, so that its swap succeeds. */
    method Connect(fd: nat, serverPort: nat, pid: nat) returns (ret: int)
      requires Valid() && fd < FD_LIMIT && IsPort(serverPort) && IsPid(pid)
      modifies ports.address, clientFdToIdx, names, names.pool.Repr
      ensures Valid()
      ensures ret == ConnectResult(old(ports.address[..]), serverPort)
      ensures ClassOf(old(ports.address[serverPort])) == Taken ==> ret == -1
      ensures ClassOf(old(ports.address[serverPort])) == Free ==> ret == -2
      ensures ClassOf(old(ports.address[serverPort])) == Listening ==>
        ret == if exists p :: 1 <= p < PORT_NUMBER && old(ports.address[..])[p] == 0 then 0 else -1
      ensures ret != 0 ==>
        && ports.address[..] == old(ports.address[..]) && clientFdToIdx[..] == old(clientFdToIdx[..])
        && names.View() == old(names.View())
      ensures ret == 0 ==>
        && var clientPort := Handshake.FirstFree(old(ports.address[..]), 1);
        && var p := RingNames.Pair(serverPort as RingNames.Port, clientPort as RingNames.Port);
        && ports.address[..] == ConnectedTable(old(ports.address[..]), serverPort)
        && clientFdToIdx[..] == old(clientFdToIdx[..])[fd := ClientIdx(serverPort, clientPort)]
        && var (k, looked) := RingNames.GetIdx(old(names.View()), names.pool.size, p);
        && names.View() == RingNames.RbGet(looked, k).1
    {
      ResultsByClass(ports.address[..], serverPort);
      var serverPid := Unsigned(ports.address[serverPort]);
      if serverPid >= PID_LIMIT { return -1; }
      if serverPid == 0 { return -2; }
      var clientPort := ports.GetFreePort(Fd2Port(fd, pid));
      if clientPort == 0 { return -1; }
      var idx := ClientIdx(serverPort, clientPort);
      PackedPorts(serverPort, clientPort);
      ports.address[serverPort] := TakenBy(clientPort);
      ports.address[clientPort] := CONNECTED;
      clientFdToIdx[fd] := idx;
      var k := names.GetIdx(RingNames.Pair(RemotePort(idx) as RingNames.Port, LocalPort(idx) as RingNames.Port));
      var reader := names.RbGet(k);
      return 0;
    }

    /** The ring that `sendto` writes to: from the socket's own port to the port at the other end. */
    method Writer(fd: nat) returns (writer: RingNames.Handle)
      requires Valid()
      requires var x := Resolve(fd, clientFdToIdx[..]); IsPort(LocalPort(x)) && IsPort(RemotePort(x))
      modifies names, names.pool.Repr
      ensures Valid()
      ensures var x := Resolve(fd, clientFdToIdx[..]);
        && var p := RingNames.Pair(LocalPort(x) as RingNames.Port, RemotePort(x) as RingNames.Port);
        && p == SendRing(x) && p in names.table && writer == RingNames.RbInit(names.table[p])
        && (p in old(names.table) ==> names.table == old(names.table))
      ensures ports.address[..] == old(ports.address[..]) && clientFdToIdx[..] == old(clientFdToIdx[..])
    {
      var x: int := fd;
      if fd < FD_LIMIT { x := clientFdToIdx[fd]; }
      var p := RingNames.Pair(LocalPort(x) as RingNames.Port, RemotePort(x) as RingNames.Port);
      writer := names.Attach(p);
    }

    /** The ring that `recvfrom` reads: from the port at the other end to the socket's own. */
    method Reader(fd: nat) returns (reader: RingNames.Handle)
      requires Valid()
      requires var x := Resolve(fd, clientFdToIdx[..]); IsPort(LocalPort(x)) && IsPort(RemotePort(x))
      modifies names, names.pool.Repr
      ensures Valid()
      ensures var x := Resolve(fd, clientFdToIdx[..]);
        && var p := RingNames.Pair(RemotePort(x) as RingNames.Port, LocalPort(x) as RingNames.Port);
        && p == RecvRing(x) && p in names.table && reader == RingNames.RbInit(names.table[p])
        && (p in old(names.table) ==> names.table == old(names.table))
      ensures ports.address[..] == old(ports.address[..]) && clientFdToIdx[..] == old(clientFdToIdx[..])
    {
      var x: int := fd;
      if fd < FD_LIMIT { x := clientFdToIdx[fd]; }
      var p := RingNames.Pair(RemotePort(x) as RingNames.Port, LocalPort(x) as RingNames.Port);
      reader := names.Attach(p);
    }

    /** `close` frees the socket's own port and lets go of the ring it receives from. */
    method Close(fd: nat)
      requires Valid()
      requires var x := Resolve(fd, clientFdToIdx[..]); IsPort(LocalPort(x)) && IsPort(RemotePort(x))
      modifies ports.address, names, names.pool.Repr
      ensures Valid()
      ensures var x := Resolve(fd, old(clientFdToIdx[..]));
        && ports.address[..] == old(ports.address[..])[LocalPort(x) := 0]
        && clientFdToIdx[..] == old(clientFdToIdx[..])
        && names.View() == RingNames.Close(old(names.View()), names.pool.size, RecvRing(x))
    {
      var x: int := fd;
      if fd < FD_LIMIT { x := clientFdToIdx[fd]; }
      ports.address[LocalPort(x)] := 0;
      names.Close(RingNames.Pair(RemotePort(x) as RingNames.Port, LocalPort(x) as RingNames.Port));
    }
  }

  /** What `close` clears on the two descriptors of a connection. On the accepted one, whatever the
      process has stored: the server's port, and the ring from the client's port to the server's. On the
      client's: the client's port, and the ring the other way. */
  lemma ClosesOwn(clientPort: nat, serverPort: nat, fd: nat, stored: seq<int>, names: RingNames.Names, size: nat)
    requires IsPort(clientPort) && IsPort(serverPort) && clientPort <= 32767 && RingNames.Agree(names, size)
    requires fd < FD_LIMIT == |stored| && stored[fd] == ClientIdx(serverPort, clientPort)
    ensures var (x, y) := (Resolve(fd, stored), Resolve(AcceptFd(clientPort, serverPort), stored));
      var (up, down) := (RingNames.Pair(clientPort as RingNames.Port, serverPort as RingNames.Port),
                         RingNames.Pair(serverPort as RingNames.Port, clientPort as RingNames.Port));
      && IsPort(RemotePort(x)) && IsPort(RemotePort(y))
      && LocalPort(y) == serverPort && RingNames.Close(names, size, RecvRing(y)).table == names.table - {up}
      && LocalPort(x) == clientPort && RingNames.Close(names, size, RecvRing(x)).table == names.table - {down}
  {
    AcceptedResolves(clientPort, serverPort, stored);
    StoredResolves(fd, stored, clientPort, serverPort);
    EndsMatch(clientPort, serverPort);
    RingNames.CloseAgrees(names, size, RecvRing(Resolve(AcceptFd(clientPort, serverPort), stored)));
    RingNames.CloseAgrees(names, size, RecvRing(Resolve(fd, stored)));
  }

  /** The ring that a successful `connect` looks up is the one its descriptor receives from. */
  lemma ConnectLooksUpOwn(fd: nat, stored: seq<int>, clientPort: nat, serverPort: nat)
    requires fd < FD_LIMIT == |stored| && IsPort(clientPort) && IsPort(serverPort)
    ensures var x := Resolve(fd, stored[fd := ClientIdx(serverPort, clientPort)]);
      && IsPort(LocalPort(x)) && IsPort(RemotePort(x))
      && RecvRing(x) == RingNames.Pair(serverPort as RingNames.Port, clientPort as RingNames.Port)
  {
    PackedPorts(serverPort, clientPort);
  }

  // ---------------------------------------------------------------- what a connection leaves behind

  /** A sequence of calls on two rings: lookups by `connect`, `sendto`, `recvfrom` and `close`,
      attachments, and closes. */
  ghost predicate OnTwoRings(ops: seq<RingNames.Op>, p: RingNames.Pair, q: RingNames.Pair) {
    forall i :: 0 <= i < |ops| ==>
      ops[i].Attach? || ops[i] == RingNames.Lookup(p) || ops[i] == RingNames.Lookup(q)
      || ops[i] == RingNames.CloseRing(p) || ops[i] == RingNames.CloseRing(q)
  }

  /** The names that belong to neither ring. */
  function Others(n: RingNames.Names, p: RingNames.Pair, q: RingNames.Pair): map<RingNames.Pair, nat> {
    n.table - {p} - {q}
  }

  lemma OtherNamesStay(n: RingNames.Names, size: nat, p: RingNames.Pair, q: RingNames.Pair, op: RingNames.Op)
    requires RingNames.Agree(n, size) && OnTwoRings([op], p, q)
    ensures Others(RingNames.Do(n, size, op), p, q) == Others(n, p, q)
  {
    var n' := RingNames.Do(n, size, op);
    assert [op][0] == op;
    match op {
      case Lookup(r) =>
        RingNames.GetIdxAgrees(n, size, r);
        TwoLess(n.table, n'.table, p, q, r);
      case Attach(k) => RingNames.RbGetAgrees(n, size, k);
      case CloseRing(r) =>
        RingNames.CloseAgrees(n, size, r);
        TwoLess(n.table, n'.table, p, q, r);
    }
  }

  lemma TwoLess(a: map<RingNames.Pair, nat>, b: map<RingNames.Pair, nat>,
                p: RingNames.Pair, q: RingNames.Pair, r: RingNames.Pair)
    requires (r == p || r == q) && a - {r} == b - {r}
    ensures a - {p} - {q} == b - {p} - {q}
  {
    assert a - {p} - {q} == (a - {r}) - {p} - {q};
    assert b - {p} - {q} == (b - {r}) - {p} - {q};
  }

  lemma {:induction false} OthersStay(n: RingNames.Names, size: nat, p: RingNames.Pair, q: RingNames.Pair,
                                     ops: seq<RingNames.Op>)
    requires RingNames.Agree(n, size) && OnTwoRings(ops, p, q)
    ensures Others(RingNames.Run(n, size, ops), p, q) == Others(n, p, q)
    decreases |ops|
  {
    if ops != [] {
      assert OnTwoRings([ops[0]], p, q);
      OtherNamesStay(n, size, p, q, ops[0]);
      OthersStay(RingNames.Do(n, size, ops[0]), size, p, q, ops[1..]);
    }
  }

  /** A name beyond those of `rest` keeps an index live beyond theirs. */
  lemma MoreNamesMoreLive(n: RingNames.Names, rest: map<RingNames.Pair, nat>, size: nat, p: RingNames.Pair)
    requires RingNames.Agree(n, size) && p in n.table && p !in rest
    requires forall r :: r in rest ==> r in n.table && n.table[r] == rest[r]
    ensures n.table[p] in PoolModel.Live(n.lists, size) && n.table[p] !in rest.Values
  {
    assert n.table[p] in n.table.Values;
  }

  /** What two rings leave behind. Over every sequence of calls on them, in any order, the names and
      the live indices end up being those of the other rings if and only if neither pair is looked
      up after its last close. */
  lemma LeavesNothing(n: RingNames.Names, size: nat, p: RingNames.Pair, q: RingNames.Pair, ops: seq<RingNames.Op>)
    requires RingNames.Agree(n, size) && OnTwoRings(ops, p, q)
    ensures var n' := RingNames.Run(n, size, ops);
      var released := !RingNames.Named(ops, p in n.table, p) && !RingNames.Named(ops, q in n.table, q);
      && (n'.table == Others(n, p, q) <==> released)
      && (PoolModel.Live(n'.lists, size) == Others(n, p, q).Values <==> released)
  {
    var n' := RingNames.Run(n, size, ops);
    RingNames.RunNames(n, size, ops, p);
    RingNames.RunNames(n, size, ops, q);
    OthersStay(n, size, p, q, ops);
    if p in n'.table { MoreNamesMoreLive(n', Others(n, p, q), size, p); }
    if q in n'.table { MoreNamesMoreLive(n', Others(n, p, q), size, q); }
    if p !in n'.table && q !in n'.table { assert n'.table == Others(n', p, q); }
  }

  /** So a connection whose rings were not in use before leaves nothing behind if and only if neither
      ring is used again after it was closed. */
  lemma SessionLeavesNothing(n: RingNames.Names, size: nat, p: RingNames.Pair, q: RingNames.Pair,
                             ops: seq<RingNames.Op>)
    requires RingNames.Agree(n, size) && OnTwoRings(ops, p, q) && p !in n.table && q !in n.table
    ensures var n' := RingNames.Run(n, size, ops);
      (n'.table == n.table && PoolModel.Live(n'.lists, size) == PoolModel.Live(n.lists, size))
      <==> (!RingNames.Named(ops, false, p) && !RingNames.Named(ops, false, q))
  {
    LeavesNothing(n, size, p, q, ops);
    assert Others(n, p, q) == n.table;
  }

  /** The calls of a connection in which the server still sends after the client has closed, and then
      closes too: `x` is the client's side and `y` the server's. */
  function LateSend(x: int, y: int): seq<RingNames.Op>
    requires IsPort(LocalPort(x)) && IsPort(RemotePort(x)) && IsPort(LocalPort(y)) && IsPort(RemotePort(y))
  {
    [RingNames.Lookup(RecvRing(x)),      // the client connects
     RingNames.Lookup(SendRing(x)),      // and sends
     RingNames.CloseRing(RecvRing(x)),   // the client closes
     RingNames.Lookup(SendRing(y)),      // the server sends
     RingNames.CloseRing(RecvRing(y))]   // the server closes
  }

  /** That connection leaves a named, live ring behind, which nobody will close. */
  lemma LateSendLeaks(clientPort: nat, serverPort: nat, size: nat)
    requires IsPort(clientPort) && IsPort(serverPort) && clientPort != serverPort && size > 0
    requires RingNames.Agree(RingNames.Start(size), size)
    ensures var (x, y) := (ClientIdx(serverPort, clientPort), AcceptFd(clientPort, serverPort));
      && IsPort(LocalPort(x)) && IsPort(RemotePort(x)) && IsPort(LocalPort(y)) && IsPort(RemotePort(y))
      && var n := RingNames.Run(RingNames.Start(size), size, LateSend(x, y));
      && SendRing(y) in n.table && n.table[SendRing(y)] in PoolModel.Live(n.lists, size)
  {
    EndsMatch(clientPort, serverPort);
    var (x, y) := (ClientIdx(serverPort, clientPort), AcceptFd(clientPort, serverPort));
    var ops := LateSend(x, y);
    LastIsLookup(ops, SendRing(y));
    RingNames.RunNames(RingNames.Start(size), size, ops, SendRing(y));
    var n := RingNames.Run(RingNames.Start(size), size, ops);
    assert n.table[SendRing(y)] in n.table.Values;
  }

  lemma LastIsLookup(ops: seq<RingNames.Op>, p: RingNames.Pair)
    requires |ops| == 5 && ops[3] == RingNames.Lookup(p) && ops[4] != RingNames.CloseRing(p)
    ensures RingNames.Named(ops, false, p)
  {
    assert RingNames.Named(ops[..4], false, p);
  }
}
