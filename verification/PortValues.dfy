/**
  The 32-bit values that ports, descriptors and processes are packed into, with the source's shifts
  and masks written as arithmetic; the last section checks that reading against bit vectors.
*/
module PortValues {

  const PORT_NUMBER := 65536
  const PID_LIMIT := 0x40_0000          // 1 << MAX_PID_BITS
  const FD_LIMIT := 1024

  /** The value a 32-bit `int` holds after being given the low 32 bits of `x`. */
  function ToInt32(x: int): (v: int)
    ensures -0x8000_0000 <= v < 0x8000_0000
  {
    var low := x % 0x1_0000_0000;
    if low < 0x8000_0000 then low else low - 0x1_0000_0000
  }

  /** The same 32 bits read as unsigned. */
  function Unsigned(v: int): (u: nat)
    ensures u < 0x1_0000_0000
  {
    v % 0x1_0000_0000
  }

  // ---------------------------------------------------------------- port-table entries

  /** What `get_free_port` writes into a client's entry: `(fd << 22) | pid`. */
  function Fd2Port(fd: nat, pid: nat): int { ToInt32(fd * PID_LIMIT + pid) }

  /** What `connect` swaps into a server's entry: `client_port | (1 << 22)`. */
  function TakenBy(clientPort: nat): int { clientPort + PID_LIMIT }

  const CONNECTED := -1

  /** What `connect` sees in an entry, comparing it as unsigned. */
  datatype Class = Free | Listening | Taken

  function ClassOf(v: int): Class {
    var u := Unsigned(v);
    if u >= PID_LIMIT then Taken else if u == 0 then Free else Listening
  }

  predicate IsPid(pid: nat) { 1 <= pid < PID_LIMIT }
  predicate IsPort(port: nat) { 1 <= port < PORT_NUMBER }

  /** A claim is told from a listening entry exactly because descriptors start at 1. */
  lemma ClaimIsTaken(fd: nat, pid: nat)
    requires fd < FD_LIMIT && IsPid(pid)
    ensures ClassOf(Fd2Port(fd, pid)) == Taken <==> fd >= 1
    ensures fd == 0 ==> ClassOf(Fd2Port(fd, pid)) == Listening
  {
    assert fd * PID_LIMIT + pid < 0x1_0000_0000;
  }

  /** A client's mark holds its descriptor and its process. */
  lemma MarkDecodes(fd: nat, pid: nat)
    requires fd < FD_LIMIT && IsPid(pid)
    ensures Unsigned(Fd2Port(fd, pid)) / PID_LIMIT == fd && Unsigned(Fd2Port(fd, pid)) % PID_LIMIT == pid
  {
    assert fd * PID_LIMIT + pid < 0x1_0000_0000;
  }

  lemma EntryClasses(pid: nat, clientPort: nat)
    requires IsPid(pid) && IsPort(clientPort)
    ensures ClassOf(0) == Free && ClassOf(pid) == Listening
    ensures ClassOf(TakenBy(clientPort)) == Taken && ClassOf(CONNECTED) == Taken
    ensures Unsigned(CONNECTED) == 0xFFFF_FFFF
  {
  }

  /** `accept` recovers the client's port from the server's entry. */
  lemma TakenDecodes(clientPort: nat)
    requires IsPort(clientPort)
    ensures TakenBy(clientPort) % PORT_NUMBER == clientPort && TakenBy(clientPort) / PID_LIMIT == 1
  {
  }

  // ---------------------------------------------------------------- descriptors

  function LocalPort(x: int): (p: nat)
    ensures p < PORT_NUMBER
  {
    x % PORT_NUMBER
  }

  function RemotePort(x: int): (p: nat)
    ensures p < PORT_NUMBER
  {
    (x / PORT_NUMBER) % PORT_NUMBER
  }

  /** What `connect` stores for its descriptor: `(server_port << 16) | client_port`. */
  function ClientIdx(serverPort: nat, clientPort: nat): int { ToInt32(serverPort * PORT_NUMBER + clientPort) }

  /** What `accept` returns: `(client_port << 16) | server_port`. */
  function AcceptFd(clientPort: nat, serverPort: nat): int { ToInt32(clientPort * PORT_NUMBER + serverPort) }

  /** Packing then unpacking gives the ports back, also when the packed value is negative. */
  lemma PackedPorts(high: nat, low: nat)
    requires high < PORT_NUMBER && low < PORT_NUMBER
    ensures var x := ToInt32(high * PORT_NUMBER + low); LocalPort(x) == low && RemotePort(x) == high
  {
    var v := high * PORT_NUMBER + low;
    var x := ToInt32(v);
    if v < 0x8000_0000 {
      assert x == v;
    } else {
      assert x == (high - PORT_NUMBER) * PORT_NUMBER + low;
    }
  }

  /** The descriptor `accept` returns is taken at face value by the other calls, rather than looked
      up as a small descriptor, exactly when the client's port is at most 32767; beyond that it is
      negative. */
  lemma AcceptFdUsable(clientPort: nat, serverPort: nat)
    requires IsPort(clientPort) && IsPort(serverPort)
    ensures AcceptFd(clientPort, serverPort) >= FD_LIMIT <==> clientPort <= 32767
    ensures AcceptFd(clientPort, serverPort) < 0 <==> clientPort > 32767
  {
  }

  // ---------------------------------------------------------------- the bit-level reading

  lemma OrOfDisjointIsSum(x: bv32, y: bv32)
    requires x & y == 0
    ensures x | y == x + y
  {
  }

  lemma ShiftsAreProducts(x: bv32)
    ensures x << 16 == x * 0x1_0000 && x << 22 == x * 0x40_0000
  {
  }

  lemma ShiftedApart(high: bv32, low: bv32)
    ensures low < 0x1_0000 ==> (high << 16) & low == 0
    ensures low < 0x40_0000 ==> (high << 22) & low == 0
  {
  }

  /** Packing two ports adds the shifted one to the other. */
  lemma PortsPackedIsSum(high: bv32, low: bv32)
    requires low < 0x1_0000
    ensures (high << 16) | low == high * 0x1_0000 + low
  {
    ShiftedApart(high, low);
    ShiftsAreProducts(high);
    OrOfDisjointIsSum(high << 16, low);
  }

  /** So does packing a descriptor and a process. */
  lemma MarkIsSum(fd: bv32, pid: bv32)
    requires pid < 0x40_0000
    ensures (fd << 22) | pid == fd * 0x40_0000 + pid
  {
    ShiftedApart(fd, pid);
    ShiftsAreProducts(fd);
    OrOfDisjointIsSum(fd << 22, pid);
  }

  lemma MasksAreRemainders(x: bv32)
    ensures x & 0xFFFF == x % 0x1_0000
    ensures (x >> 16) & 0xFFFF == x / 0x1_0000
  {
  }
}
