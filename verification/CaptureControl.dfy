/** Turning packet capture on and off: which port owns the capture memory of which socket. */
module CaptureControl {

  const MAX_LCORE := 128
  const MAX_ETHPORTS := 32
  const MAX_NUMA_NODES := 8

  /** The port, lcore and socket layout, fixed after start-up: RX queue count and lcores of
      each port, the ports each lcore receives from, and the socket of each lcore. */
  datatype Topology = Topology(rxcnt: seq<nat>, portLids: seq<seq<nat>>, rxPids: seq<seq<nat>>, socketOf: seq<nat>)
  {
    predicate Valid() {
      && |rxcnt| == |portLids| <= MAX_ETHPORTS
      && |rxPids| == |socketOf| == MAX_LCORE
      && (forall p | 0 <= p < |portLids| :: forall i | 0 <= i < |portLids[p]| :: portLids[p][i] < MAX_LCORE)
      && (forall l | 0 <= l < MAX_LCORE :: socketOf[l] < MAX_NUMA_NODES)
    }

    /** lcore `lid` receives from port `pid` */
    predicate Receives(lid: nat, pid: nat)
      requires lid < |rxPids|
    {
      pid in rxPids[lid]
    }
  }

  /** capture_t without the memory itself: whether there is any, and who uses it. */
  datatype Socket = Socket(mz: bool, lcore: nat, port: nat)

  /** CAPTURE_PKTS of every port, and the capture of every socket. */
  datatype State = State(flags: seq<bool>, socks: seq<Socket>)

  datatype Outcome =
    | AlreadyOn | NoRxQueue | NoRxLcore | NoMemory | SocketBusy | Enabled
    | AlreadyOff | LostRxQueue | LostSocket | Disabled

  /** The first lcore of the port's list that receives from it, or MAX_LCORE. */
  function RxLcore(t: Topology, pid: nat, i: nat): (lid: nat)
    requires t.Valid() && pid < |t.portLids| && i <= |t.portLids[pid]|
    ensures lid <= MAX_LCORE && (lid < MAX_LCORE ==> t.Receives(lid, pid))
    decreases |t.portLids[pid]| - i
  {
    if i == |t.portLids[pid]| then MAX_LCORE
    else if t.Receives(t.portLids[pid][i], pid) then t.portLids[pid][i]
    else RxLcore(t, pid, i + 1)
  }

  /** The first socket from `sid` on that has memory and names the port. */
  function OwnedSocket(s: State, pid: nat, sid: nat): (r: nat)
    requires sid <= |s.socks|
    ensures sid <= r <= |s.socks|
    ensures r < |s.socks| ==> s.socks[r].mz && s.socks[r].port == pid
    ensures forall k | sid <= k < r :: !(s.socks[k].mz && s.socks[k].port == pid)
    decreases |s.socks| - sid
  {
    if sid == |s.socks| || (s.socks[sid].mz && s.socks[sid].port == pid) then sid
    else OwnedSocket(s, pid, sid + 1)
  }

  function Idle(x: Socket): Socket { x.(lcore := MAX_LCORE, port := MAX_ETHPORTS) }

  /** pktgen_set_capture */
  function SetCapture(t: Topology, s: State, pid: nat, on: bool): (State, Outcome)
    requires t.Valid() && pid < |s.flags| == |t.rxcnt| && |s.socks| == MAX_NUMA_NODES
  {
    if on then
      if s.flags[pid] then (s, AlreadyOn)
      else if t.rxcnt[pid] == 0 then (s, NoRxQueue)
      else
        var lid := RxLcore(t, pid, 0);
        if lid == MAX_LCORE then (s, NoRxLcore)
        else
          var sid := t.socketOf[lid];
          if !s.socks[sid].mz then (s, NoMemory)
          else if s.socks[sid].lcore != MAX_LCORE then (s, SocketBusy)
          else (State(s.flags[pid := true], s.socks[sid := Socket(true, lid, pid)]), Enabled)
    else
      if !s.flags[pid] then (s, AlreadyOff)
      else if t.rxcnt[pid] == 0 then (s, LostRxQueue)
      else
        var sid := OwnedSocket(s, pid, 0);
        if sid == |s.socks| then (s, LostSocket)
        else (State(s.flags[pid := false], s.socks[sid := Idle(s.socks[sid])]), Disabled)
  }

  // ---------------------------------------------------------------- runs of commands

  datatype Command = Command(pid: nat, on: bool)

  ghost predicate Allowed(t: Topology, cs: seq<Command>) {
    forall i | 0 <= i < |cs| :: cs[i].pid < |t.rxcnt|
  }

  function Run(t: Topology, s: State, cs: seq<Command>): State
    requires t.Valid() && |s.flags| == |t.rxcnt| && |s.socks| == MAX_NUMA_NODES && Allowed(t, cs)
    decreases |cs|
  {
    if cs == [] then s else Run(t, SetCapture(t, s, cs[0].pid, cs[0].on).0, cs[1..])
  }

  /** pktgen_packet_capture_init for every socket; `mz` says where memory could be reserved. */
  function Init(ports: nat, mz: seq<bool>): State {
    State(seq(ports, _ => false), seq(|mz|, i requires 0 <= i < |mz| => Socket(mz[i], MAX_LCORE, MAX_ETHPORTS)))
  }

  /** A busy socket has memory, and one lcore of its own that receives from the port it names. */
  predicate SocketOk(t: Topology, s: State, sid: nat)
    requires t.Valid() && |s.flags| == |t.rxcnt| && sid < |s.socks|
  {
    var x := s.socks[sid];
    if x.lcore == MAX_LCORE then x.port == MAX_ETHPORTS
    else x.mz && x.port < |s.flags| && s.flags[x.port] && t.rxcnt[x.port] > 0
         && x.lcore < MAX_LCORE && t.socketOf[x.lcore] == sid && t.Receives(x.lcore, x.port)
  }

  predicate Names(s: State, sid: nat, pid: nat)
    requires sid < |s.socks|
  {
    s.socks[sid].mz && s.socks[sid].port == pid
  }

  ghost predicate Inv(t: Topology, s: State) {
    && t.Valid() && |s.flags| == |t.rxcnt| && |s.socks| == MAX_NUMA_NODES
    && (forall sid | 0 <= sid < |s.socks| :: SocketOk(t, s, sid))
    && (forall pid | 0 <= pid < |s.flags| :: s.flags[pid] ==> exists sid :: 0 <= sid < |s.socks| && Names(s, sid, pid))
    && (forall a, b, pid | 0 <= a < |s.socks| && 0 <= b < |s.socks| && 0 <= pid < |s.flags|
                           && Names(s, a, pid) && Names(s, b, pid) :: a == b)
  }

  lemma EnabledKeepsInv(t: Topology, s: State, pid: nat)
    requires Inv(t, s) && pid < |s.flags| && SetCapture(t, s, pid, true).1.Enabled?
    ensures Inv(t, SetCapture(t, s, pid, true).0)
  {
    var s' := SetCapture(t, s, pid, true).0;
    var lid := RxLcore(t, pid, 0);
    var sid := t.socketOf[lid];
    forall k | 0 <= k < |s'.socks| ensures SocketOk(t, s', k) {
      assert SocketOk(t, s, k);
    }
    forall p | 0 <= p < |s'.flags| && s'.flags[p]
      ensures exists k :: 0 <= k < |s'.socks| && Names(s', k, p)
    {
      if p == pid {
        assert Names(s', sid, pid);
      } else {
        var k :| 0 <= k < |s.socks| && Names(s, k, p);
        assert SocketOk(t, s, sid);
        assert Names(s', k, p);
      }
    }
    forall a, b, p | 0 <= a < |s'.socks| && 0 <= b < |s'.socks| && 0 <= p < |s'.flags|
                     && Names(s', a, p) && Names(s', b, p)
      ensures a == b
    {
      assert SocketOk(t, s, a) && SocketOk(t, s, b);
      assert (a != sid ==> Names(s, a, p)) && (b != sid ==> Names(s, b, p));
    }
  }

  lemma DisabledKeepsInv(t: Topology, s: State, pid: nat)
    requires Inv(t, s) && pid < |s.flags| && SetCapture(t, s, pid, false).1.Disabled?
    ensures Inv(t, SetCapture(t, s, pid, false).0)
  {
    var s' := SetCapture(t, s, pid, false).0;
    var sid := OwnedSocket(s, pid, 0);
    assert Names(s, sid, pid);
    forall k | 0 <= k < |s'.socks| ensures SocketOk(t, s', k) {
      assert SocketOk(t, s, k);
      assert k != sid ==> !Names(s, k, pid);
    }
    forall p | 0 <= p < |s'.flags| && s'.flags[p]
      ensures exists k :: 0 <= k < |s'.socks| && Names(s', k, p)
    {
      var k :| 0 <= k < |s.socks| && Names(s, k, p);
      assert Names(s', k, p);
    }
    forall a, b, p | 0 <= a < |s'.socks| && 0 <= b < |s'.socks| && 0 <= p < |s'.flags|
                     && Names(s', a, p) && Names(s', b, p)
      ensures a == b
    {
      assert Names(s, a, p) && Names(s, b, p);
    }
  }

  /** Every command keeps the invariant, and neither branch that "should never happen" is taken. */
  lemma CommandKeepsInv(t: Topology, s: State, pid: nat, on: bool)
    requires Inv(t, s) && pid < |s.flags|
    ensures Inv(t, SetCapture(t, s, pid, on).0)
    ensures !SetCapture(t, s, pid, on).1.LostRxQueue? && !SetCapture(t, s, pid, on).1.LostSocket?
  {
    if s.flags[pid] {
      var sid :| 0 <= sid < |s.socks| && Names(s, sid, pid);
      assert SocketOk(t, s, sid);
    }
    match SetCapture(t, s, pid, on).1
    case Enabled => EnabledKeepsInv(t, s, pid);
    case Disabled => DisabledKeepsInv(t, s, pid);
    case _ =>
  }

  lemma {:induction false} RunKeepsInv(t: Topology, s: State, cs: seq<Command>)
    requires Inv(t, s) && Allowed(t, cs)
    ensures Inv(t, Run(t, s, cs))
    decreases |cs|
  {
    if cs != [] {
      CommandKeepsInv(t, s, cs[0].pid, cs[0].on);
      RunKeepsInv(t, SetCapture(t, s, cs[0].pid, cs[0].on).0, cs[1..]);
    }
  }

  /** After any commands: CAPTURE_PKTS is set for a port exactly when one socket with memory,
      and only one, names it; and the next command takes no "should never happen" branch. */
  lemma OwnershipOverRuns(t: Topology, mz: seq<bool>, cs: seq<Command>, pid: nat)
    requires t.Valid() && |mz| == MAX_NUMA_NODES && Allowed(t, cs) && pid < |t.rxcnt|
    ensures var s := Run(t, Init(|t.rxcnt|, mz), cs);
            && pid < |s.flags| == |t.rxcnt| && |s.socks| == MAX_NUMA_NODES
            && (s.flags[pid] <==> exists sid :: 0 <= sid < |s.socks| && Names(s, sid, pid))
            && (forall a, b | 0 <= a < |s.socks| && 0 <= b < |s.socks| && Names(s, a, pid) && Names(s, b, pid) ::
                  a == b)
            && forall on :: !SetCapture(t, s, pid, on).1.LostRxQueue? && !SetCapture(t, s, pid, on).1.LostSocket?
  {
    var s0 := Init(|t.rxcnt|, mz);
    assert Inv(t, s0);
    RunKeepsInv(t, s0, cs);
    var s := Run(t, s0, cs);
    forall on ensures !SetCapture(t, s, pid, on).1.LostRxQueue? && !SetCapture(t, s, pid, on).1.LostSocket? {
      CommandKeepsInv(t, s, pid, on);
    }
    forall sid | 0 <= sid < |s.socks| && Names(s, sid, pid) ensures s.flags[pid] {
      assert SocketOk(t, s, sid);
    }
  }

  /** The test in pktgen_main_receive before a burst is captured. */
  predicate Captures(t: Topology, s: State, lid: nat, pid: nat)
    requires t.Valid() && |s.socks| == MAX_NUMA_NODES && lid < MAX_LCORE && pid < |s.flags|
  {
    s.flags[pid] && s.socks[t.socketOf[lid]].port == pid && s.socks[t.socketOf[lid]].lcore == lid
  }

  /** A capture memory never has two writers: whoever passes the receive test on a socket is
      determined by it, and a capturing port is captured by exactly one lcore. */
  lemma SingleWriter(t: Topology, s: State, pid: nat)
    requires Inv(t, s) && pid < |s.flags|
    ensures forall l1, p1, l2, p2 | 0 <= l1 < MAX_LCORE && 0 <= l2 < MAX_LCORE
              && 0 <= p1 < |s.flags| && 0 <= p2 < |s.flags|
              && t.socketOf[l1] == t.socketOf[l2] && Captures(t, s, l1, p1) && Captures(t, s, l2, p2)
              :: l1 == l2 && p1 == p2
    ensures s.flags[pid] <==> exists lid :: 0 <= lid < MAX_LCORE && Captures(t, s, lid, pid)
    ensures forall l1, l2 | 0 <= l1 < MAX_LCORE && 0 <= l2 < MAX_LCORE
              && Captures(t, s, l1, pid) && Captures(t, s, l2, pid) :: l1 == l2
  {
    if s.flags[pid] {
      var sid :| 0 <= sid < |s.socks| && Names(s, sid, pid);
      assert SocketOk(t, s, sid);
      assert Captures(t, s, s.socks[sid].lcore, pid);
    }
    forall l1, l2 | 0 <= l1 < MAX_LCORE && 0 <= l2 < MAX_LCORE && Captures(t, s, l1, pid) && Captures(t, s, l2, pid)
      ensures l1 == l2
    {
      assert SocketOk(t, s, t.socketOf[l1]) && SocketOk(t, s, t.socketOf[l2]);
      assert Names(s, t.socketOf[l1], pid) && Names(s, t.socketOf[l2], pid);
    }
  }

  /** Disabling undoes enabling: flags and sockets are as before. */
  lemma DisableUndoesEnable(t: Topology, s: State, pid: nat)
    requires Inv(t, s) && pid < |s.flags| && SetCapture(t, s, pid, true).1.Enabled?
    ensures SetCapture(t, SetCapture(t, s, pid, true).0, pid, false) == (s, Disabled)
  {
    var s1 := SetCapture(t, s, pid, true).0;
    var sid := t.socketOf[RxLcore(t, pid, 0)];
    assert SocketOk(t, s, sid);
    EnabledKeepsInv(t, s, pid);
    assert Names(s1, sid, pid) && Names(s1, OwnedSocket(s1, pid, 0), pid);
    assert s1.socks[sid := Idle(s1.socks[sid])] == s.socks;
    assert s1.flags[pid := false] == s.flags;
  }

  /** `i` is the first place in the list of port `pid` with an lcore that receives from it, or its end. */
  ghost predicate FirstReceiver(t: Topology, pid: nat, i: nat)
    requires t.Valid() && pid < |t.portLids|
  {
    && i <= |t.portLids[pid]|
    && (forall j | 0 <= j < i :: pid !in t.rxPids[t.portLids[pid][j]])
    && (i < |t.portLids[pid]| ==> pid in t.rxPids[t.portLids[pid][i]])
  }

  lemma {:induction false} RxLcoreIsFirst(t: Topology, pid: nat, k: nat) returns (i: nat)
    requires t.Valid() && pid < |t.portLids| && k <= |t.portLids[pid]|
    requires forall j | 0 <= j < k :: pid !in t.rxPids[t.portLids[pid][j]]
    ensures FirstReceiver(t, pid, i)
    ensures RxLcore(t, pid, k) == if i < |t.portLids[pid]| then t.portLids[pid][i] else MAX_LCORE
    decreases |t.portLids[pid]| - k
  {
    if k == |t.portLids[pid]| || t.Receives(t.portLids[pid][k], pid) {
      i := k;
    } else {
      i := RxLcoreIsFirst(t, pid, k + 1);
    }
  }

  /**
   * Enabling succeeds exactly when the port is off, has a receive queue and an lcore that receives
   * from it, and the first such lcore's socket has memory that nobody uses. That lcore then gets
   * it; otherwise nothing changes.
   */
  lemma EnableSucceedsExactly(t: Topology, s: State, pid: nat, i: nat)
    requires Inv(t, s) && pid < |s.flags| && FirstReceiver(t, pid, i)
    ensures var (s', o) := SetCapture(t, s, pid, true);
            var lids := t.portLids[pid];
            if !s.flags[pid] && t.rxcnt[pid] > 0 && i < |lids| && s.socks[t.socketOf[lids[i]]].mz
               && s.socks[t.socketOf[lids[i]]].lcore == MAX_LCORE
            then
              && o == Enabled && s'.flags == s.flags[pid := true]
              && s'.socks == s.socks[t.socketOf[lids[i]] := Socket(true, lids[i], pid)]
            else o != Enabled && s' == s
  {
    var i' := RxLcoreIsFirst(t, pid, 0);
    assert i' == i;
  }

  /** Disabling succeeds exactly when the port is on; its flag and its socket are given up, and no other. */
  lemma DisableSucceedsExactly(t: Topology, s: State, pid: nat)
    requires Inv(t, s) && pid < |s.flags|
    ensures var (s', o) := SetCapture(t, s, pid, false);
            && (o == Disabled <==> s.flags[pid])
            && s'.flags == s.flags[pid := false] && |s'.socks| == |s.socks|
            && forall k | 0 <= k < |s.socks| ::
                 s'.socks[k] == if s.socks[k].port == pid then Socket(true, MAX_LCORE, MAX_ETHPORTS) else s.socks[k]
  {
    CommandKeepsInv(t, s, pid, false);
    forall k | 0 <= k < |s.socks|
      ensures s.socks[k].port == pid ==> Names(s, k, pid) && s.flags[pid]
    {
      assert SocketOk(t, s, k);
    }
  }

  // ---------------------------------------------------------------- the command itself

  class Control {
    const topo: Topology
    var flags: seq<bool>
    var socks: seq<Socket>

    ghost function St(): State
      reads this
    {
      State(flags, socks)
    }

    ghost predicate Valid()
      reads this
    {
      Inv(topo, St())
    }

    constructor (topo: Topology, mz: seq<bool>)
      requires topo.Valid() && |mz| == MAX_NUMA_NODES
      ensures Valid() && this.topo == topo && St() == Init(|topo.rxcnt|, mz)
      ensures |flags| == |topo.rxcnt| && forall p | 0 <= p < |flags| :: !flags[p]
      ensures |socks| == |mz| && forall k | 0 <= k < |mz| :: socks[k] == Socket(mz[k], 128, 32)
    {
      this.topo := topo;
      flags := seq(|topo.rxcnt|, _ => false);
      socks := seq(|mz|, i requires 0 <= i < |mz| => Socket(mz[i], MAX_LCORE, MAX_ETHPORTS));
    }

    /** The nested search over the port's lcores and their receive ports. */
    method FindRxLcore(pid: nat) returns (lid: nat)
      requires topo.Valid() && pid < |topo.portLids|
      ensures lid == RxLcore(topo, pid, 0)
    {
      var lidIdx := 0;
      while lidIdx < |topo.portLids[pid]|
        invariant lidIdx <= |topo.portLids[pid]|
        invariant RxLcore(topo, pid, 0) == RxLcore(topo, pid, lidIdx)
      {
        lid := topo.portLids[pid][lidIdx];
        var rxid := 0;
        while rxid < |topo.rxPids[lid]|
          invariant rxid <= |topo.rxPids[lid]| && pid !in topo.rxPids[lid][..rxid]
        {
          if topo.rxPids[lid][rxid] == pid {
            return;
          }
          rxid := rxid + 1;
        }
        lidIdx := lidIdx + 1;
      }
      lid := MAX_LCORE;
    }

    method Set(pid: nat, on: bool) returns (o: Outcome)
      requires Valid() && pid < |flags|
      modifies this`flags, this`socks
      ensures Valid() && (St(), o) == SetCapture(topo, old(St()), pid, on)
      ensures !o.LostRxQueue? && !o.LostSocket?
    {
      CommandKeepsInv(topo, St(), pid, on);
      if on {
        if flags[pid] { return AlreadyOn; }
        if topo.rxcnt[pid] == 0 { return NoRxQueue; }
        var lid := FindRxLcore(pid);
        if lid == MAX_LCORE { return NoRxLcore; }
        var sid := topo.socketOf[lid];
        if !socks[sid].mz { return NoMemory; }
        if socks[sid].lcore != MAX_LCORE { return SocketBusy; }
        socks := socks[sid := Socket(true, lid, pid)];
        flags := flags[pid := true];
        return Enabled;
      }
      if !flags[pid] { return AlreadyOff; }
      if topo.rxcnt[pid] == 0 { return LostRxQueue; }
      var sid := 0;
      while sid < |socks| && !(socks[sid].mz && socks[sid].port == pid)
        invariant sid <= |socks| && OwnedSocket(St(), pid, 0) == OwnedSocket(St(), pid, sid)
      {
        sid := sid + 1;
      }
      if sid == |socks| { return LostSocket; }
      socks := socks[sid := Idle(socks[sid])];
      flags := flags[pid := false];
      return Disabled;
    }
  }
}
