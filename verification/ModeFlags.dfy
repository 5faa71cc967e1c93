/** The traffic modes of a port: commands over one word of flags that must stay mutually exclusive. */
module ModeFlags {
  import opened Words
  import opened PacketSizes
  import opened Wrappers
  import F = Flags

  datatype Mode =
    | Pcap | Range | Sequence | Latency | Rate | Random
    | Vlan | Mpls | QinQ | GreIpv4 | GreEther | Vxlan

  const SENDING_PACKETS := 30
  const NUM_SEQ_PKTS := 16
  const TSTAMP_SIZE := 16

  function BitOf(m: Mode): nat {
    match m
    case Pcap => 12
    case Range => 13
    case Sequence => 14
    case Latency => 15
    case Rate => 16
    case Random => 17
    case Vlan => 20
    case Mpls => 21
    case QinQ => 22
    case GreIpv4 => 23
    case GreEther => 24
    case Vxlan => 25
  }

  function Bit(k: nat): Word
    requires k < 32
  {
    Shl(ONE, k)
  }

  function Mask(m: Mode): Word {
    Bit(BitOf(m))
  }

  function ExclusiveModes(): Word {
    Or(Or(Or(Or(Or(Mask(Pcap), Mask(Range)), Mask(Sequence)), Mask(Random)), Mask(Latency)), Mask(Rate))
  }

  function ExclusivePktModes(): Word {
    Or(Or(Or(Or(Or(Mask(Vlan), Mask(Vxlan)), Mask(Mpls)), Mask(QinQ)), Mask(GreIpv4)), Mask(GreEther))
  }

  /** Flag `k` of the word, counted from the lowest bit. */
  predicate Has(w: Word, k: nat)
    requires k < 32
  {
    w[31 - k]
  }

  /** Whether `k` is the bit of a mode. */
  predicate IsModeBit(k: nat) {
    12 <= k <= 17 || 20 <= k <= 25
  }

  /** The word says that the port is in mode `m`, or in none, and in no other. */
  predicate Says(w: Word, m: Option<Mode>) {
    forall x: Mode :: Has(w, BitOf(x)) <==> m == Some(x)
  }

  /** Two words that differ in mode bits only. */
  predicate SameOthers(v: Word, w: Word) {
    forall k | 0 <= k < 32 && !IsModeBit(k) :: Has(v, k) == Has(w, k)
  }

  lemma BitAt(j: nat, k: nat)
    requires j < 32 && k < 32
    ensures Has(Bit(j), k) <==> k == j
  {
  }

  lemma OrBit(a: Word, b: Word, k: nat)
    requires k < 32
    ensures Has(Or(a, b), k) <==> Has(a, k) || Has(b, k)
  {
  }

  lemma ModesBits(k: nat)
    requires k < 32
    ensures Has(ExclusiveModes(), k) <==> 12 <= k <= 17
  {
    BitAt(12, k);
    BitAt(13, k);
    BitAt(14, k);
    BitAt(15, k);
    BitAt(16, k);
    BitAt(17, k);
    var m1 := Or(Mask(Pcap), Mask(Range));
    OrBit(Mask(Pcap), Mask(Range), k);
    var m2 := Or(m1, Mask(Sequence));
    OrBit(m1, Mask(Sequence), k);
    var m3 := Or(m2, Mask(Random));
    OrBit(m2, Mask(Random), k);
    var m4 := Or(m3, Mask(Latency));
    OrBit(m3, Mask(Latency), k);
    var m5 := Or(m4, Mask(Rate));
    OrBit(m4, Mask(Rate), k);
    assert ExclusiveModes() == m5;
  }

  lemma PktModesBits(k: nat)
    requires k < 32
    ensures Has(ExclusivePktModes(), k) <==> 20 <= k <= 25
  {
    BitAt(20, k);
    BitAt(21, k);
    BitAt(22, k);
    BitAt(23, k);
    BitAt(24, k);
    BitAt(25, k);
    var m1 := Or(Mask(Vlan), Mask(Vxlan));
    OrBit(Mask(Vlan), Mask(Vxlan), k);
    var m2 := Or(m1, Mask(Mpls));
    OrBit(m1, Mask(Mpls), k);
    var m3 := Or(m2, Mask(QinQ));
    OrBit(m2, Mask(QinQ), k);
    var m4 := Or(m3, Mask(GreIpv4));
    OrBit(m3, Mask(GreIpv4), k);
    var m5 := Or(m4, Mask(GreEther));
    OrBit(m4, Mask(GreEther), k);
    assert ExclusivePktModes() == m5;
  }

  lemma DoBit(op: F.Op, w: Word, k: nat)
    requires k < 32
    ensures Has(F.Do(op, w), k) == if Has(op.mask, k) then op.SetFlags? else Has(w, k)
  {
  }

  /** Clearing both groups and setting one bit, as every command does to enable a mode. */
  function Enabled(w: Word, m: Mode): Word {
    F.Do(F.SetFlags(Mask(m)), F.Do(F.ClrFlags(ExclusivePktModes()), F.Do(F.ClrFlags(ExclusiveModes()), w)))
  }

  function Disabled(w: Word, m: Mode): Word {
    F.Do(F.ClrFlags(Mask(m)), w)
  }

  lemma EnabledBit(w: Word, m: Mode, k: nat)
    requires k < 32
    ensures Has(Enabled(w, m), k) == if IsModeBit(k) then k == BitOf(m) else Has(w, k)
  {
    var w1 := F.Do(F.ClrFlags(ExclusiveModes()), w);
    var w2 := F.Do(F.ClrFlags(ExclusivePktModes()), w1);
    ModesBits(k);
    PktModesBits(k);
    BitAt(BitOf(m), k);
    DoBit(F.ClrFlags(ExclusiveModes()), w, k);
    DoBit(F.ClrFlags(ExclusivePktModes()), w1, k);
    DoBit(F.SetFlags(Mask(m)), w2, k);
  }

  lemma DisabledBit(w: Word, m: Mode, k: nat)
    requires k < 32
    ensures Has(Disabled(w, m), k) == (Has(w, k) && k != BitOf(m))
  {
    BitAt(BitOf(m), k);
    DoBit(F.ClrFlags(Mask(m)), w, k);
  }

  lemma EnabledBits(w: Word, m: Mode) returns (v: Word)
    ensures v == Enabled(w, m)
    ensures forall k | 0 <= k < 32 :: Has(v, k) == if IsModeBit(k) then k == BitOf(m) else Has(w, k)
  {
    v := Enabled(w, m);
    forall k | 0 <= k < 32
      ensures Has(v, k) == if IsModeBit(k) then k == BitOf(m) else Has(w, k)
    {
      EnabledBit(w, m, k);
    }
  }

  lemma DisabledBits(w: Word, m: Mode) returns (v: Word)
    ensures v == Disabled(w, m)
    ensures forall k | 0 <= k < 32 :: Has(v, k) == (Has(w, k) && k != BitOf(m))
  {
    v := Disabled(w, m);
    forall k | 0 <= k < 32
      ensures Has(v, k) == (Has(w, k) && k != BitOf(m))
    {
      DisabledBit(w, m, k);
    }
  }

  lemma ExclusiveByBits(w: Word, m: Mode, v: Word)
    requires forall k | 0 <= k < 32 :: Has(v, k) == if IsModeBit(k) then k == BitOf(m) else Has(w, k)
    ensures Says(v, Some(m)) && SameOthers(w, v)
  {
    forall x: Mode
      ensures Has(v, BitOf(x)) <==> Some(m) == Some(x)
    {
      BitsDiffer(x, m);
    }
  }

  /** Enabling leaves exactly the new mode, whatever was there, and no other flag changes. */
  lemma EnableIsExclusive(w: Word, m: Mode)
    ensures Says(Enabled(w, m), Some(m)) && SameOthers(w, Enabled(w, m))
  {
    var v := EnabledBits(w, m);
    ExclusiveByBits(w, m, v);
  }

  lemma BitsDiffer(x: Mode, y: Mode)
    ensures BitOf(x) == BitOf(y) ==> x == y
    ensures IsModeBit(BitOf(x)) && BitOf(x) < 32
  {
  }

  lemma KeptByBits(w: Word, m: Mode, was: Option<Mode>, v: Word)
    requires forall k | 0 <= k < 32 :: Has(v, k) == (Has(w, k) && k != BitOf(m))
    ensures SameOthers(w, v)
    ensures Says(w, was) ==> Says(v, if was == Some(m) then None else was)
  {
    BitsDiffer(m, m);
    forall x: Mode
      ensures Has(v, BitOf(x)) <==> x != m && Has(w, BitOf(x))
    {
      BitsDiffer(x, m);
    }
  }

  /** Disabling a mode ends that mode and preserves any other, and no other flag changes. */
  lemma DisableKeepsOthers(w: Word, m: Mode, was: Option<Mode>)
    ensures SameOthers(w, Disabled(w, m))
    ensures Says(w, was) ==> Says(Disabled(w, m), if was == Some(m) then None else was)
  {
    var v := DisabledBits(w, m);
    KeptByBits(w, m, was, v);
  }

  /** Switching a mode on leaves that mode alone and every other flag; switching it off only takes its own flag. */
  predicate Switched(v: Word, w: Word, m: Mode, on: bool) {
    if on then Says(w, Some(m)) && SameOthers(v, w)
    else forall k | 0 <= k < 32 :: Has(w, k) == (Has(v, k) && k != BitOf(m))
  }

  lemma Switches(v: Word, m: Mode, on: bool)
    ensures Switched(v, if on then Enabled(v, m) else Disabled(v, m), m, on)
  {
    EnableIsExclusive(v, m);
    var _ := DisabledBits(v, m);
  }

  // ----- The commands -----

  /**
   * `Switch` stands for the commands of a mode with a switch, `SetSeqCnt` for the sequence count,
   * and `Other` for everything else that updates flags, starting and stopping included. `gap` is
   * the number of cycles between bursts that a computation of the rate gives at that moment.
   */
  datatype Command = Switch(mode: Mode, on: bool, gap: nat) | SetSeqCnt(cnt: nat) | Other(op: F.Op)

  /** A port as far as the commands go; `pcapPackets` is how many packets a loaded file has. */
  datatype Port = Port(flags: Word, pcapPackets: nat, seqCnt: nat, pktSize: nat, txCycles: nat)

  predicate Sending(p: Port) {
    Has(p.flags, SENDING_PACKETS)
  }

  /** Range is refused while packets are sent, and pcap commands need a file with packets. */
  predicate Refused(p: Port, c: Command) {
    c.Switch? && ((c.mode == Range && c.on && Sending(p)) || (c.mode == Pcap && p.pcapPackets == 0))
  }

  /** The mode after a command, without any flags. */
  function NextMode(m: Option<Mode>, p: Port, c: Command): Option<Mode> {
    if Refused(p, c) then m
    else
      match c
      case Switch(x, on, _) => if on then Some(x) else if m == Some(x) then None else m
      case SetSeqCnt(n) => if n > 0 then Some(Sequence) else if m == Some(Sequence) then None else m
      case Other(_) => m
  }

  /** The packet size that the latency commands set: room for a time stamp is added once and taken off. */
  function LatencySize(size: nat, on: bool): nat {
    if on then if size < MIN_PKT_SIZE + TSTAMP_SIZE then size + TSTAMP_SIZE else size
    else if size >= MIN_PKT_SIZE + TSTAMP_SIZE then size - TSTAMP_SIZE
    else size
  }

  /** The stored gap: forgotten by the pcap command, computed again by those of range and rate. */
  function CyclesAfter(cycles: nat, m: Mode, gap: nat): nat {
    match m
    case Pcap => 0
    case Range => gap
    case Rate => gap
    case _ => cycles
  }

  function Exec(p: Port, c: Command): Port {
    if Refused(p, c) then p
    else
      match c
      case Switch(m, on, gap) =>
        var q := p.(flags := if on then Enabled(p.flags, m) else Disabled(p.flags, m),
                    txCycles := CyclesAfter(p.txCycles, m, gap));
        if m == Latency then q.(pktSize := LatencySize(p.pktSize, on)) else q
      case SetSeqCnt(n) =>
        var cnt := if n > NUM_SEQ_PKTS then NUM_SEQ_PKTS else n;
        p.(seqCnt := cnt, flags := if cnt > 0 then Enabled(p.flags, Sequence) else Disabled(p.flags, Sequence))
      case Other(op) => p.(flags := F.Do(op, p.flags))
  }

  class PortInfo {
    var flags: Word
    var pcapPackets: nat
    var seqCnt: nat
    var pktSize: nat
    var txCycles: nat

    function State(): Port
      reads this
    {
      Port(flags, pcapPackets, seqCnt, pktSize, txCycles)
    }

    method SetPortFlags(mask: Word)
      modifies this`flags
      ensures flags == F.Do(F.SetFlags(mask), old(flags))
    {
      flags := Or(flags, mask);
    }

    method ClrPortFlags(mask: Word)
      modifies this`flags
      ensures flags == F.Do(F.ClrFlags(mask), old(flags))
    {
      flags := And(flags, Not(mask));
    }

    /** The commands for VLAN, MPLS, Q-in-Q, GRE, VxLAN, random and rate. */
    method EnableMode(m: Mode, on: bool, gap: nat)
      requires m != Pcap && m != Range && m != Sequence && m != Latency
      modifies this
      ensures State() == Exec(old(State()), Switch(m, on, gap))
      ensures Switched(old(flags), flags, m, on) && txCycles == if m == Rate then gap else old(txCycles)
      ensures pcapPackets == old(pcapPackets) && seqCnt == old(seqCnt) && pktSize == old(pktSize)
    {
      Switches(flags, m, on);
      if on {
        ClrPortFlags(ExclusiveModes());
        ClrPortFlags(ExclusivePktModes());
        SetPortFlags(Mask(m));
      } else {
        ClrPortFlags(Mask(m));
      }
      if m == Rate {
        txCycles := gap;
      }
    }

    method EnablePcap(on: bool)
      modifies this
      ensures State() == Exec(old(State()), Switch(Pcap, on, 0))
      ensures if pcapPackets == 0 then flags == old(flags) && txCycles == old(txCycles)
              else Switched(old(flags), flags, Pcap, on) && txCycles == 0
      ensures pcapPackets == old(pcapPackets) && seqCnt == old(seqCnt) && pktSize == old(pktSize)
    {
      Switches(flags, Pcap, on);
      if pcapPackets != 0 {
        if on {
          ClrPortFlags(ExclusiveModes());
          ClrPortFlags(ExclusivePktModes());
          SetPortFlags(Mask(Pcap));
        } else {
          ClrPortFlags(Mask(Pcap));
        }
        txCycles := 0;
      }
    }

    method EnableRange(on: bool, gap: nat)
      modifies this
      ensures State() == Exec(old(State()), Switch(Range, on, gap))
      ensures if on && Has(old(flags), 30) then flags == old(flags) && txCycles == old(txCycles)
              else Switched(old(flags), flags, Range, on) && txCycles == gap
      ensures pcapPackets == old(pcapPackets) && seqCnt == old(seqCnt) && pktSize == old(pktSize)
    {
      Switches(flags, Range, on);
      if on {
        if flags[31 - SENDING_PACKETS] {
          return;
        }
        ClrPortFlags(ExclusiveModes());
        ClrPortFlags(ExclusivePktModes());
        SetPortFlags(Mask(Range));
      } else {
        ClrPortFlags(Mask(Range));
      }
      txCycles := gap;
    }

    method EnableLatency(on: bool)
      modifies this
      ensures State() == Exec(old(State()), Switch(Latency, on, 0))
      ensures Switched(old(flags), flags, Latency, on)
      ensures pktSize == old(pktSize) + (if on && old(pktSize) < 76 then 16 else 0)
                         - if !on && old(pktSize) >= 76 then 16 else 0
      ensures pcapPackets == old(pcapPackets) && seqCnt == old(seqCnt) && txCycles == old(txCycles)
    {
      Switches(flags, Latency, on);
      if on {
        ClrPortFlags(ExclusiveModes());
        ClrPortFlags(ExclusivePktModes());
        SetPortFlags(Mask(Latency));
        if pktSize < MIN_PKT_SIZE + TSTAMP_SIZE {
          pktSize := pktSize + TSTAMP_SIZE;
        }
      } else {
        if pktSize >= MIN_PKT_SIZE + TSTAMP_SIZE {
          pktSize := pktSize - TSTAMP_SIZE;
        }
        ClrPortFlags(Mask(Latency));
      }
    }

    method SetPortSeqCnt(n: nat)
      modifies this
      ensures State() == Exec(old(State()), SetSeqCnt(n))
      ensures Switched(old(flags), flags, Sequence, n > 0)
      ensures seqCnt <= n && seqCnt <= 16 && (seqCnt == n || seqCnt == 16)
      ensures pcapPackets == old(pcapPackets) && pktSize == old(pktSize) && txCycles == old(txCycles)
    {
      Switches(flags, Sequence, n > 0);
      var cnt := n;
      if cnt > NUM_SEQ_PKTS {
        cnt := NUM_SEQ_PKTS;
      }
      seqCnt := cnt;
      if cnt != 0 {
        ClrPortFlags(ExclusiveModes());
        ClrPortFlags(ExclusivePktModes());
        SetPortFlags(Mask(Sequence));
      } else {
        ClrPortFlags(Mask(Sequence));
      }
    }
  }

  // ----- Every run of commands -----

  /** The other updates of the word leave the mode bits alone. */
  predicate Harmless(c: Command) {
    c.Other? ==> forall k | 0 <= k < 32 && IsModeBit(k) :: !Has(c.op.mask, k)
  }

  function Run(p: Port, cs: seq<Command>): Port {
    if cs == [] then p else Exec(Run(p, cs[..|cs| - 1]), cs[|cs| - 1])
  }

  /** The mode that was enabled last and not disabled since. */
  function ModeAfter(m: Option<Mode>, p: Port, cs: seq<Command>): Option<Mode> {
    if cs == [] then m
    else NextMode(ModeAfter(m, p, cs[..|cs| - 1]), Run(p, cs[..|cs| - 1]), cs[|cs| - 1])
  }

  lemma SwitchSays(w: Word, m: Option<Mode>, x: Mode, on: bool)
    requires Says(w, m)
    ensures Says(if on then Enabled(w, x) else Disabled(w, x), if on then Some(x) else if m == Some(x) then None else m)
  {
    EnableIsExclusive(w, x);
    DisableKeepsOthers(w, x, m);
  }

  /** What a command that is not refused does to the word. */
  lemma ExecFlags(p: Port, c: Command)
    requires !Refused(p, c)
    ensures Exec(p, c).flags == match c
              case Switch(m, on, _) => if on then Enabled(p.flags, m) else Disabled(p.flags, m)
              case SetSeqCnt(n) => if n > 0 then Enabled(p.flags, Sequence) else Disabled(p.flags, Sequence)
              case Other(op) => F.Do(op, p.flags)
  {
  }

  lemma ExecSays(p: Port, m: Option<Mode>, c: Command)
    requires Says(p.flags, m) && Harmless(c)
    ensures Says(Exec(p, c).flags, NextMode(m, p, c))
  {
    if !Refused(p, c) {
      ExecFlags(p, c);
      match c
      case Switch(x, on, _) => SwitchSays(p.flags, m, x, on);
      case SetSeqCnt(n) => SwitchSays(p.flags, m, Sequence, n > 0);
      case Other(op) => OtherKeepsModes(p.flags, m, op);
    }
  }

  lemma OtherKeepsModes(w: Word, m: Option<Mode>, op: F.Op)
    requires Says(w, m) && Harmless(Other(op))
    ensures Says(F.Do(op, w), m)
  {
    forall x: Mode
      ensures Has(F.Do(op, w), BitOf(x)) <==> m == Some(x)
    {
      BitsDiffer(x, x);
      DoBit(op, w, BitOf(x));
    }
  }

  /** After every run of commands the word names at most one mode, the one last enabled. */
  lemma {:induction false} ModesAreExclusive(p: Port, m: Option<Mode>, cs: seq<Command>)
    requires Says(p.flags, m) && forall i | 0 <= i < |cs| :: Harmless(cs[i])
    ensures Says(Run(p, cs).flags, ModeAfter(m, p, cs))
  {
    if cs != [] {
      ModesAreExclusive(p, m, cs[..|cs| - 1]);
      ExecSays(Run(p, cs[..|cs| - 1]), ModeAfter(m, p, cs[..|cs| - 1]), cs[|cs| - 1]);
    }
  }

  /** A mode command never changes another flag: whether the port sends is not its business. */
  lemma ModeCommandsKeepOthers(p: Port, c: Command)
    requires !c.Other?
    ensures SameOthers(p.flags, Exec(p, c).flags)
  {
    if !Refused(p, c) {
      var x := if c.Switch? then c.mode else Sequence;
      EnableIsExclusive(p.flags, x);
      DisableKeepsOthers(p.flags, x, None);
    }
  }

  // ----- What is sent -----

  datatype Pool = TxPool | RangePool | SeqPool | RatePool | PcapPool

  /** The pool that the transmit loop takes packets from: the flags are looked at in this order. */
  method ChoosePool(flags: Word) returns (mp: Pool)
    ensures mp == if Has(flags, 13) then RangePool else if Has(flags, 14) then SeqPool
                  else if Has(flags, 16) then RatePool else if Has(flags, 12) then PcapPool else TxPool
  {
    mp := TxPool;
    var some := Or(Or(Or(Mask(Range), Mask(Pcap)), Mask(Sequence)), Mask(Rate));
    AnyOf(flags);
    if And(flags, some) != Zeros(32) {
      if Has(flags, BitOf(Range)) {
        mp := RangePool;
      } else if Has(flags, BitOf(Sequence)) {
        mp := SeqPool;
      } else if Has(flags, BitOf(Rate)) {
        mp := RatePool;
      } else if Has(flags, BitOf(Pcap)) {
        mp := PcapPool;
      }
    }
  }

  lemma BitTop(j: nat, i: nat)
    requires j < 32 && i < 32
    ensures Bit(j)[i] <==> i == 31 - j
  {
  }

  lemma AnyBit(w: Word, some: Word)
    requires forall i | 0 <= i < 32 :: some[i] <==> i == 19 || i == 18 || i == 17 || i == 15
    ensures And(w, some) != Zeros(32) <==> w[19] || w[18] || w[17] || w[15]
  {
    var a := And(w, some);
    if w[19] || w[18] || w[17] || w[15] {
      assert a[19] || a[18] || a[17] || a[15];
    } else {
      assert a == Zeros(32);
    }
  }

  lemma AnyOf(w: Word)
    ensures And(w, Or(Or(Or(Mask(Range), Mask(Pcap)), Mask(Sequence)), Mask(Rate))) != Zeros(32) <==>
            Has(w, 13) || Has(w, 12) || Has(w, 14) || Has(w, 16)
  {
    var some := Or(Or(Or(Mask(Range), Mask(Pcap)), Mask(Sequence)), Mask(Rate));
    forall i | 0 <= i < 32
      ensures some[i] <==> i == 19 || i == 18 || i == 17 || i == 15
    {
      BitTop(12, i);
      BitTop(13, i);
      BitTop(14, i);
      BitTop(16, i);
    }
    AnyBit(w, some);
  }

  /** A port in one of the four modes with a pool sends from that pool, and in any other from the common one. */
  method ChoosePoolOf(flags: Word, m: Option<Mode>) returns (mp: Pool)
    requires Says(flags, m)
    ensures mp == RangePool <==> m == Some(Range)
    ensures mp == SeqPool <==> m == Some(Sequence)
    ensures mp == RatePool <==> m == Some(Rate)
    ensures mp == PcapPool <==> m == Some(Pcap)
  {
    assert Has(flags, 13) == Has(flags, BitOf(Range)) && Has(flags, 14) == Has(flags, BitOf(Sequence));
    assert Has(flags, 16) == Has(flags, BitOf(Rate)) && Has(flags, 12) == Has(flags, BitOf(Pcap));
    mp := ChoosePool(flags);
  }

  /** Latency mode on and off gives back the packet size exactly when the stamp had to be made room for. */
  lemma LatencyRoundTrip(p: Port)
    ensures Exec(Exec(p, Switch(Latency, true, 0)), Switch(Latency, false, 0)).pktSize == p.pktSize <==>
            p.pktSize < MIN_PKT_SIZE + TSTAMP_SIZE && p.pktSize >= MIN_PKT_SIZE
  {
  }
}
