/** A learning switch: a controller learns which port each host is on and installs flows so as not to be asked again. */
module LearningSwitch {
  import opened Wrappers

  type Mac = nat
  type Port = nat
  type Dpid = nat

  datatype Packet = Packet(src: Mac, dst: Mac, lldp: bool)

  datatype Action = Output(port: Port) | Flood

  /** The match of an installed flow. */
  datatype Key = Key(inPort: Port, dst: Mac, src: Mac)

  /** A packet sent to the controller; `None` is OFP_NO_BUFFER. */
  datatype PacketIn = PacketIn(dpid: Dpid, inPort: Port, packet: Packet, buffer: Option<nat>)

  datatype Message =
    | FlowMod(dpid: Dpid, key: Key, port: Port, buffer: Option<nat>)
    | PacketOut(dpid: Dpid, inPort: Port, buffer: Option<nat>, data: Option<Packet>, action: Action)

  type Tables = map<Dpid, map<Mac, Port>>

  // ----- What the handler decides -----

  function TableOf(tables: Tables, d: Dpid): map<Mac, Port> {
    if d in tables then tables[d] else map[]
  }

  /** The tables after a packet-in; link discovery is ignored. */
  function Learned(tables: Tables, m: PacketIn): Tables {
    if m.packet.lldp then tables
    else tables[m.dpid := TableOf(tables, m.dpid)[m.packet.src := m.inPort]]
  }

  function Decide(table: map<Mac, Port>, dst: Mac): Action {
    if dst in table then Output(table[dst]) else Flood
  }

  /** Where the controller sends a packet, given its tables; link discovery goes nowhere. */
  function SlowPath(tables: Tables, m: PacketIn): Option<Action> {
    if m.packet.lldp then None else Some(Decide(TableOf(Learned(tables, m), m.dpid), m.packet.dst))
  }

  /**
   * The messages of the handler. A flow-mod carries the buffer unless there is none or its number
   * is 0, which counts as none; a packet-out follows only where the flow-mod was not to release
   * the buffered packet.
   */
  function Reply(tables: Tables, m: PacketIn): seq<Message> {
    match SlowPath(tables, m)
    case None => []
    case Some(Flood) => [Release(m, Flood)]
    case Some(Output(p)) =>
      var key := Key(m.inPort, m.packet.dst, m.packet.src);
      if m.buffer == None then [FlowMod(m.dpid, key, p, None), Release(m, Output(p))]
      else if m.buffer == Some(0) then [FlowMod(m.dpid, key, p, None)]
      else [FlowMod(m.dpid, key, p, m.buffer)]
  }

  function Release(m: PacketIn, action: Action): Message {
    PacketOut(m.dpid, m.inPort, m.buffer, if m.buffer == None then Some(m.packet) else None, action)
  }

  /** The application object. `sent` is the messages it has handed to the switches. */
  class SimpleSwitch13 {
    var macToPort: Tables
    var sent: seq<Message>

    constructor ()
      ensures macToPort == map[] && sent == []
    {
      macToPort, sent := map[], [];
    }

    method AddFlow(dpid: Dpid, key: Key, port: Port, bufferId: Option<nat>)
      modifies this`sent
      ensures sent == old(sent) + [FlowMod(dpid, key, port, if bufferId == Some(0) then None else bufferId)]
    {
      if bufferId.Some? && bufferId.value != 0 {
        sent := sent + [FlowMod(dpid, key, port, bufferId)];
      } else {
        sent := sent + [FlowMod(dpid, key, port, None)];
      }
    }

    method PacketInHandler(msg: PacketIn)
      modifies this
      ensures macToPort == Learned(old(macToPort), msg)
      ensures sent == old(sent) + Reply(old(macToPort), msg)
    {
      var pkt := msg.packet;
      if pkt.lldp {
        return;
      }
      if msg.dpid !in macToPort {
        macToPort := macToPort[msg.dpid := map[]];
      }
      var table: map<Mac, Port> := macToPort[msg.dpid];
      macToPort := macToPort[msg.dpid := table[pkt.src := msg.inPort]];
      var outPort := Flood;
      if pkt.dst in macToPort[msg.dpid] {
        outPort := Output(macToPort[msg.dpid][pkt.dst]);
      }
      if outPort != Flood {
        var key := Key(msg.inPort, pkt.dst, pkt.src);
        if msg.buffer != None {
          AddFlow(msg.dpid, key, outPort.port, msg.buffer);
          return;
        } else {
          AddFlow(msg.dpid, key, outPort.port, None);
        }
      }
      var data := None;
      if msg.buffer == None {
        data := Some(pkt);
      }
      sent := sent + [PacketOut(msg.dpid, msg.inPort, msg.buffer, data, outPort)];
    }
  }

  // ----- Delivery of the packet that was asked about -----

  /** Whether a message makes the switch send the packet of `m`: its own data, or the buffer that holds it. */
  predicate Delivers(msg: Message, m: PacketIn) {
    match msg
    case FlowMod(_, _, _, b) => b.Some? && b == m.buffer
    case PacketOut(_, _, b, data, _) => if b.Some? then b == m.buffer else data == Some(m.packet)
  }

  function Deliveries(msgs: seq<Message>, m: PacketIn): nat {
    if msgs == [] then 0 else (if Delivers(msgs[0], m) then 1 else 0) + Deliveries(msgs[1..], m)
  }

  /**
   * The packet is sent on exactly once, unless it is link discovery, or it waits in buffer 0 and
   * its destination is known: the number 0 is taken for no buffer when the flow-mod is built and
   * for a buffer when the packet-out is left out.
   */
  lemma DeliveredExactly(tables: Tables, m: PacketIn)
    ensures var known := m.packet.dst in TableOf(Learned(tables, m), m.dpid);
            Deliveries(Reply(tables, m), m) ==
            if m.packet.lldp || (known && m.buffer == Some(0)) then 0 else 1
  {
    var r := Reply(tables, m);
    if |r| == 2 {
      assert r[1..] == [r[1]] && r[1..][1..] == [];
    } else if |r| == 1 {
      assert r[1..] == [];
    }
  }

  /** Where a message sends the packet it delivers. */
  function Route(msg: Message): Action {
    match msg
    case FlowMod(_, _, port, _) => Output(port)
    case PacketOut(_, _, _, _, action) => action
  }

  /** Every message that delivers the packet does so on its own switch and where the controller decided. */
  lemma DeliveredWhereDecided(tables: Tables, m: PacketIn, x: Message)
    requires x in Reply(tables, m)
    ensures Delivers(x, m) ==> SlowPath(tables, m) == Some(Route(x))
    ensures x.dpid == m.dpid && (x.PacketOut? ==> x.inPort == m.inPort)
  {
  }

  /** Where the messages send the packet; `None` is nowhere. */
  function Delivered(msgs: seq<Message>, m: PacketIn): (a: Option<Action>)
    ensures a == None <==> forall x | x in msgs :: !Delivers(x, m)
    ensures a != None ==> exists x :: x in msgs && Delivers(x, m) && a == Some(Route(x))
    decreases msgs
  {
    if msgs == [] then None
    else if Delivers(msgs[0], m) then Some(Route(msgs[0]))
    else Delivered(msgs[1..], m)
  }

  /** So the messages do what the controller decided, but for a packet in buffer 0 with a known destination. */
  lemma DeliversDecision(tables: Tables, m: PacketIn)
    ensures var a, decided := Delivered(Reply(tables, m), m), SlowPath(tables, m);
            if m.buffer == Some(0) && decided != None && decided != Some(Flood) then a == None else a == decided
  {
    var r := Reply(tables, m);
    DeliveredExactly(tables, m);
    if |r| == 2 {
      assert r == [r[0]] + [r[1]];
    } else if |r| == 1 {
      assert r == [r[0]];
    }
    if exists x :: x in r && Delivers(x, m) {
      var x :| x in r && Delivers(x, m);
      DeliveredWhereDecided(tables, m, x);
    }
  }

  /** One flow is installed if the destination is known, for packets like this one, and none otherwise. */
  lemma InstallsExactly(tables: Tables, m: PacketIn, flows: map<(Dpid, Key), Port>)
    ensures InstallAll(flows, Reply(tables, m)) ==
            match SlowPath(tables, m) {
              case Some(Output(p)) => flows[(m.dpid, Key(m.inPort, m.packet.dst, m.packet.src)) := p]
              case _ => flows
            }
  {
    var r := Reply(tables, m);
    if |r| == 2 {
      assert r[1..] == [r[1]];
      var once := Install(flows, r[0]);
      assert InstallAll(once, [r[1]]) == InstallAll(Install(once, r[1]), []);
    } else if |r| == 1 {
      assert r[1..] == [];
    }
  }

  // ----- What the tables know -----

  /** A packet shows where host `a` is. */
  predicate Heard(m: PacketIn, d: Dpid, a: Mac) {
    !m.packet.lldp && m.dpid == d && m.packet.src == a
  }

  function LearnAll(tables: Tables, ms: seq<PacketIn>): Tables {
    if ms == [] then tables else Learned(LearnAll(tables, ms[..|ms| - 1]), ms[|ms| - 1])
  }

  /** The tables hold for each switch and host the port it was heard on last, and nothing else. */
  lemma {:induction false} TablesByHistory(ms: seq<PacketIn>, d: Dpid, a: Mac, k: nat)
    requires k < |ms| ==> Heard(ms[k], d, a)
    requires forall j | k < j < |ms| :: !Heard(ms[j], d, a)
    requires k >= |ms| ==> forall j | 0 <= j < |ms| :: !Heard(ms[j], d, a)
    ensures var t := LearnAll(map[], ms);
            if k < |ms| then d in t && a in t[d] && t[d][a] == ms[k].inPort else d !in t || a !in t[d]
  {
    if ms != [] {
      var n := |ms| - 1;
      var before, m := ms[..n], ms[n];
      assert Heard(m, d, a) <==> k == n;
      if k != n {
        forall j | 0 <= j < n && (k < j || k >= |ms|)
          ensures !Heard(before[j], d, a)
        {
          assert before[j] == ms[j];
        }
        TablesByHistory(before, d, a, k);
      }
    }
  }

  lemma {:induction false} DirectAt(tables: Tables, ms: seq<PacketIn>, i: nat)
    requires i < |ms|
    ensures |DirectRun(tables, ms)| == |ms|
    ensures DirectRun(tables, ms)[i] == SlowPath(LearnAll(tables, ms[..i]), ms[i])
    decreases ms
  {
    assert |ms| == 1 ==> DirectRun(Learned(tables, ms[0]), ms[1..]) == [];
    if i > 0 {
      DirectAt(Learned(tables, ms[0]), ms[1..], i - 1);
      assert ms[1..][..i - 1] == ms[1..i];
      LearnFirst(tables, ms[..i]);
      assert ms[..i][1..] == ms[1..i];
    } else if |ms| > 1 {
      DirectAt(Learned(tables, ms[0]), ms[1..], 0);
    }
  }

  lemma {:induction false} LearnFirst(tables: Tables, ms: seq<PacketIn>)
    requires ms != []
    ensures LearnAll(tables, ms) == LearnAll(Learned(tables, ms[0]), ms[1..])
  {
    var n := |ms| - 1;
    if n > 0 {
      LearnFirst(tables, ms[..n]);
      assert ms[..n][1..] == ms[1..][..n - 1];
    } else {
      assert ms[..0] == [];
    }
  }

  /**
   * The controller sends a packet to the port on which its destination was heard last, by the
   * packet itself at the latest, and floods it if it was never heard; `k` is that last packet.
   */
  lemma SentWhereLastHeard(ms: seq<PacketIn>, i: nat, k: nat)
    requires i < |ms| && !ms[i].packet.lldp
    requires k <= i ==> Heard(ms[k], ms[i].dpid, ms[i].packet.dst)
    requires forall j | k < j <= i :: !Heard(ms[j], ms[i].dpid, ms[i].packet.dst)
    requires k > i ==> forall j | 0 <= j <= i :: !Heard(ms[j], ms[i].dpid, ms[i].packet.dst)
    ensures |DirectRun(map[], ms)| == |ms|
    ensures DirectRun(map[], ms)[i] == Some(if k <= i then Output(ms[k].inPort) else Flood)
  {
    DirectAt(map[], ms, i);
    var heard := ms[..i + 1];
    assert heard[..i] == ms[..i];
    TablesByHistory(heard, ms[i].dpid, ms[i].packet.dst, k);
  }

  // ----- The switches and the controller as one asynchronous system -----

  /** `flows` are the installed flows of each switch, `asked` and `sent` the messages under way. */
  datatype State = State(tables: Tables, flows: map<(Dpid, Key), Port>, asked: seq<PacketIn>, sent: seq<Message>)

  datatype Event =
    | Arrive(m: PacketIn)
    | HandleAt(i: nat)
    | ApplyAt(j: nat)
    | Evict(d: Dpid, key: Key)

  const INIT := State(map[], map[], [], [])

  function KeyOf(m: PacketIn): (Dpid, Key) {
    (m.dpid, Key(m.inPort, m.packet.dst, m.packet.src))
  }

  predicate Hit(s: State, m: PacketIn) {
    KeyOf(m) in s.flows
  }

  function Install(flows: map<(Dpid, Key), Port>, msg: Message): map<(Dpid, Key), Port> {
    if msg.FlowMod? then flows[(msg.dpid, msg.key) := msg.port] else flows
  }

  /** A packet without a flow goes to the controller; messages overtake each other at will. */
  function Next(s: State, e: Event): State {
    match e
    case Arrive(m) => if Hit(s, m) then s else s.(asked := s.asked + [m])
    case HandleAt(i) =>
      if i < |s.asked| then
        var m := s.asked[i];
        s.(tables := Learned(s.tables, m), asked := s.asked[..i] + s.asked[i + 1..],
           sent := s.sent + Reply(s.tables, m))
      else s
    case ApplyAt(j) =>
      if j < |s.sent| then s.(flows := Install(s.flows, s.sent[j]), sent := s.sent[..j] + s.sent[j + 1..]) else s
    case Evict(d, key) => s.(flows := s.flows - {(d, key)})
  }

  function Run(s: State, es: seq<Event>): State {
    if es == [] then s else Next(Run(s, es[..|es| - 1]), es[|es| - 1])
  }

  /** Which port of each switch a host is behind. */
  type Homes = (Dpid, Mac) -> Port

  predicate AtHome(m: PacketIn, home: Homes) {
    m.packet.lldp || m.inPort == home(m.dpid, m.packet.src)
  }

  /** Hosts stay where they are: every packet comes in on its sender's port. */
  predicate StaticHosts(es: seq<Event>, home: Homes) {
    forall k | 0 <= k < |es| && es[k].Arrive? :: AtHome(es[k].m, home)
  }

  /** A flow is cached knowledge: both ends are in the table, on the ports the flow names. */
  predicate Cached(tables: Tables, d: Dpid, key: Key, p: Port) {
    var t := TableOf(tables, d);
    key.src in t && t[key.src] == key.inPort && key.dst in t && t[key.dst] == p
  }

  ghost predicate Inv(s: State, home: Homes) {
    && (forall d, a | a in TableOf(s.tables, d) :: TableOf(s.tables, d)[a] == home(d, a))
    && (forall i | 0 <= i < |s.asked| :: AtHome(s.asked[i], home))
    && (forall f | f in s.flows :: Cached(s.tables, f.0, f.1, s.flows[f]))
    && (forall j | 0 <= j < |s.sent| && s.sent[j].FlowMod? ::
          Cached(s.tables, s.sent[j].dpid, s.sent[j].key, s.sent[j].port))
  }

  lemma NextInv(s: State, e: Event, home: Homes)
    requires Inv(s, home) && (e.Arrive? ==> AtHome(e.m, home))
    ensures Inv(Next(s, e), home)
  {
    if e.HandleAt? && e.i < |s.asked| {
      HandleInv(s, e.i, home);
    }
  }

  lemma HandleInv(s: State, i: nat, home: Homes)
    requires Inv(s, home) && i < |s.asked|
    ensures Inv(Next(s, HandleAt(i)), home)
  {
    var m, s' := s.asked[i], Next(s, HandleAt(i));
    assert AtHome(m, home);
    var added := Reply(s.tables, m);
    forall d, key, p | Cached(s.tables, d, key, p)
      ensures Cached(s'.tables, d, key, p)
    {
      assert key.src in TableOf(s.tables, d) && key.dst in TableOf(s.tables, d);
    }
    forall j | 0 <= j < |s'.sent| && s'.sent[j].FlowMod?
      ensures Cached(s'.tables, s'.sent[j].dpid, s'.sent[j].key, s'.sent[j].port)
    {
      if j < |s.sent| {
        assert s'.sent[j] == s.sent[j];
      } else {
        assert s'.sent[j] == added[j - |s.sent|];
      }
    }
  }

  lemma {:induction false} RunInv(es: seq<Event>, home: Homes)
    requires StaticHosts(es, home)
    ensures Inv(Run(INIT, es), home)
  {
    if es != [] {
      var k := |es| - 1;
      RunInv(es[..k], home);
      NextInv(Run(INIT, es[..k]), es[k], home);
    }
  }

  /**
   * The flow table is transparent: in every run, a packet that hits a flow leaves by the port the
   * controller would have chosen with its tables of that moment, and the controller would not have
   * learned anything from it. Link discovery is the exception: the controller would have dropped it.
   */
  lemma FlowsAreTransparent(es: seq<Event>, home: Homes, m: PacketIn)
    requires StaticHosts(es, home) && Hit(Run(INIT, es), m)
    ensures var s := Run(INIT, es);
            && (SlowPath(s.tables, m) == Some(Output(s.flows[KeyOf(m)])) <==> !m.packet.lldp)
            && Learned(s.tables, m) == s.tables
  {
    RunInv(es, home);
    var s := Run(INIT, es);
    var f := KeyOf(m);
    assert Cached(s.tables, f.0, f.1, s.flows[f]);
    var t := TableOf(s.tables, m.dpid);
    assert t[m.packet.src := m.inPort] == t;
    assert s.tables[m.dpid := t] == s.tables;
  }

  lemma AskAndAnswer(s: State, m: PacketIn) returns (s': State)
    requires !Hit(s, m)
    ensures s' == Run(s, [Arrive(m), HandleAt(|s.asked|)])
    ensures s' == State(Learned(s.tables, m), s.flows, s.asked, s.sent + Reply(s.tables, m))
  {
    RunTwo(s, Arrive(m), HandleAt(|s.asked|));
    var s1 := Next(s, Arrive(m));
    assert s1.asked[|s.asked|] == m && s1.asked[..|s.asked|] + s1.asked[|s.asked| + 1..] == s.asked;
    s' := Next(s1, HandleAt(|s.asked|));
  }

  lemma FlowModFirst(tables: Tables, m: PacketIn, p: Port)
    requires SlowPath(tables, m) == Some(Output(p))
    ensures var r := Reply(tables, m);
            r != [] && r[0].FlowMod? && r[0].dpid == m.dpid && r[0].port == p
            && r[0].key == Key(m.inPort, m.packet.dst, m.packet.src)
  {
  }

  lemma ApplyOne(s: State, k: nat) returns (s': State)
    requires k < |s.sent| && s.sent[k].FlowMod?
    ensures s' == Run(s, [ApplyAt(k)]) && s'.asked == s.asked
    ensures s'.flows == s.flows[(s.sent[k].dpid, s.sent[k].key) := s.sent[k].port]
  {
    s' := Next(s, ApplyAt(k));
    assert Run(s, [ApplyAt(k)]) == Next(Run(s, []), ApplyAt(k));
  }

  /** And flows do get installed: a known destination is asked about once, and then its packets hit. */
  lemma AskedOnce(s: State, m: PacketIn, p: Port)
    requires !Hit(s, m) && SlowPath(s.tables, m) == Some(Output(p))
    ensures var s' := Run(s, [Arrive(m), HandleAt(|s.asked|)] + [ApplyAt(|s.sent|)]);
            && s'.flows == s.flows[(m.dpid, Key(m.inPort, m.packet.dst, m.packet.src)) := p]
            && s'.asked == s.asked && Hit(s', m)
  {
    var k := |s.sent|;
    var s1 := AskAndAnswer(s, m);
    FlowModFirst(s.tables, m, p);
    assert s1.sent[k] == Reply(s.tables, m)[0];
    var s2 := ApplyOne(s1, k);
    RunAppend(s, [Arrive(m), HandleAt(|s.asked|)], [ApplyAt(k)]);
  }

  /** A flow that is evicted, and no other, has its packets asked about again. */
  lemma EvictedAsksAgain(s: State, m: PacketIn)
    ensures var s' := Next(s, Evict(m.dpid, Key(m.inPort, m.packet.dst, m.packet.src)));
            && !Hit(s', m) && Next(s', Arrive(m)).asked == s.asked + [m]
            && forall x | KeyOf(x) != KeyOf(m) :: Hit(s', x) == Hit(s, x)
  {
  }

  /**
   * The assumption is needed: as soon as the destination of any installed flow is heard on another
   * port, the flow still sends to the old port what the controller would send to the new one.
   */
  lemma MoveMakesStale(es: seq<Event>, home: Homes, m: PacketIn, q: Port)
    requires StaticHosts(es, home) && Hit(Run(INIT, es), m)
    requires !m.packet.lldp && m.packet.src != m.packet.dst && q != Run(INIT, es).flows[KeyOf(m)]
    ensures var s := Run(INIT, es);
            var moved := PacketIn(m.dpid, q, Packet(m.packet.dst, m.packet.dst, false), None);
            var s' := Run(INIT, es + [Arrive(moved), HandleAt(|s.asked|)]);
            s'.flows == s.flows && SlowPath(s'.tables, m) == Some(Output(q))
  {
    var s := Run(INIT, es);
    var moved := PacketIn(m.dpid, q, Packet(m.packet.dst, m.packet.dst, false), None);
    RunInv(es, home);
    assert Cached(s.tables, m.dpid, KeyOf(m).1, s.flows[KeyOf(m)]);
    assert !Hit(s, moved);
    RunAppend(INIT, es, [Arrive(moved), HandleAt(|s.asked|)]);
    var _ := AskAndAnswer(s, moved);
  }

  lemma RunTwo(s: State, a: Event, b: Event)
    ensures Run(s, [a, b]) == Next(Next(s, a), b)
  {
    assert [a, b][..1] == [a] && [a][..0] == [];
    assert Run(s, [a]) == Next(Run(s, []), a);
  }

  lemma {:induction false} RunAppend(s: State, xs: seq<Event>, ys: seq<Event>)
    ensures Run(s, xs + ys) == Run(Run(s, xs), ys)
  {
    if ys == [] {
      assert xs + ys == xs;
    } else {
      var k := |ys| - 1;
      RunAppend(s, xs, ys[..k]);
      assert (xs + ys)[..|xs + ys| - 1] == xs + ys[..k];
    }
  }

  // ----- The fast form against the simple one -----

  /** A switch whose questions are answered before the next packet comes in. */
  datatype Prompt = Prompt(tables: Tables, flows: map<(Dpid, Key), Port>)

  function InstallAll(flows: map<(Dpid, Key), Port>, msgs: seq<Message>): map<(Dpid, Key), Port>
    decreases msgs
  {
    if msgs == [] then flows else InstallAll(Install(flows, msgs[0]), msgs[1..])
  }

  /** Where a packet goes, by its flow or by the controller's messages, and what the two know afterwards. */
  function Serve(s: Prompt, m: PacketIn): (Option<Action>, Prompt) {
    if KeyOf(m) in s.flows then (Some(Output(s.flows[KeyOf(m)])), s)
    else (Delivered(Reply(s.tables, m), m), Prompt(Learned(s.tables, m), InstallAll(s.flows, Reply(s.tables, m))))
  }

  /** Where the packets go with the flow table in front of the controller. */
  function CachedRun(s: Prompt, ms: seq<PacketIn>): seq<Option<Action>>
    decreases ms
  {
    if ms == [] then [] else [Serve(s, ms[0]).0] + CachedRun(Serve(s, ms[0]).1, ms[1..])
  }

  /** Where they go when the controller is asked about every one. */
  function DirectRun(tables: Tables, ms: seq<PacketIn>): seq<Option<Action>>
    decreases ms
  {
    if ms == [] then [] else [SlowPath(tables, ms[0])] + DirectRun(Learned(tables, ms[0]), ms[1..])
  }

  ghost predicate PromptInv(s: Prompt, home: Homes) {
    Inv(State(s.tables, s.flows, [], []), home)
  }

  /**
   * Where a packet goes against where the controller would send it: elsewhere only if a flow
   * forwards link discovery, or if the packet waits in buffer 0 while a flow is made for it.
   */
  predicate Served(fast: Option<Action>, slow: Option<Action>, m: PacketIn, hit: bool) {
    if m.packet.lldp then slow == None && (hit <==> fast != None)
    else if !hit && m.buffer == Some(0) && slow != Some(Flood) then fast == None
    else fast == slow && slow != None
  }

  lemma ServeAgrees(s: Prompt, m: PacketIn, home: Homes)
    requires PromptInv(s, home) && AtHome(m, home)
    ensures PromptInv(Serve(s, m).1, home)
    ensures Served(Serve(s, m).0, SlowPath(s.tables, m), m, KeyOf(m) in s.flows)
    ensures Serve(s, m).1.tables == Learned(s.tables, m)
  {
    if KeyOf(m) in s.flows {
      assert Cached(s.tables, m.dpid, KeyOf(m).1, s.flows[KeyOf(m)]);
      var t := TableOf(s.tables, m.dpid);
      assert t[m.packet.src := m.inPort] == t;
      assert s.tables[m.dpid := t] == s.tables;
    } else {
      DeliversDecision(s.tables, m);
      var asked := State(s.tables, s.flows, [m], []);
      HandleInv(asked, 0, home);
      var r := Reply(s.tables, m);
      var answered := Next(asked, HandleAt(0));
      assert answered.sent == r;
      InstallInv(answered, r, home);
    }
  }

  lemma {:induction false} InstallInv(s: State, msgs: seq<Message>, home: Homes)
    requires Inv(s, home)
    requires forall j | 0 <= j < |msgs| && msgs[j].FlowMod? :: Cached(s.tables, msgs[j].dpid, msgs[j].key, msgs[j].port)
    ensures PromptInv(Prompt(s.tables, InstallAll(s.flows, msgs)), home)
    decreases msgs
  {
    if msgs != [] {
      InstallInv(s.(flows := Install(s.flows, msgs[0])), msgs[1..], home);
    }
  }

  /**
   * As long as hosts stay where they are, a packet goes where the controller would send it, by a
   * flow or by the messages sent for it, with two exceptions: link discovery can be forwarded by a
   * flow, and a packet in buffer 0 can be left there. Neither disturbs the packets after it.
   */
  lemma {:induction false} CacheRefinesController(s: Prompt, ms: seq<PacketIn>, home: Homes)
    requires PromptInv(s, home) && forall i | 0 <= i < |ms| :: AtHome(ms[i], home)
    ensures var fast, slow := CachedRun(s, ms), DirectRun(s.tables, ms);
            && |fast| == |slow| == |ms|
            && forall i | 0 <= i < |ms| ::
                 if ms[i].packet.lldp then slow[i] == None
                 else slow[i] != None &&
                      (fast[i] == slow[i] || (fast[i] == None && ms[i].buffer == Some(0) && slow[i] != Some(Flood)))
    decreases ms
  {
    if ms != [] {
      ServeAgrees(s, ms[0], home);
      CacheRefinesController(Serve(s, ms[0]).1, ms[1..], home);
      RunsUnfold(s, ms);
    }
  }

  lemma RunsUnfold(s: Prompt, ms: seq<PacketIn>)
    requires ms != []
    ensures CachedRun(s, ms) == [Serve(s, ms[0]).0] + CachedRun(Serve(s, ms[0]).1, ms[1..])
    ensures DirectRun(s.tables, ms) == [SlowPath(s.tables, ms[0])] + DirectRun(Learned(s.tables, ms[0]), ms[1..])
  {
  }

  lemma SameFromTheStart(ms: seq<PacketIn>, home: Homes)
    requires forall i | 0 <= i < |ms| :: AtHome(ms[i], home)
    requires forall i | 0 <= i < |ms| :: !ms[i].packet.lldp && ms[i].buffer != Some(0)
    ensures CachedRun(Prompt(map[], map[]), ms) == DirectRun(map[], ms)
  {
    CacheRefinesController(Prompt(map[], map[]), ms, home);
  }
}
