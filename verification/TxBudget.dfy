/** The transmit budget of one pktgen port: several TX queues claim packets from one
    shared counter with a compare-and-set loop, fill a burst, and push it into a driver
    that may take only part of it, while a command thread starts, primes and stops the
    port. Every atomic access of the C code is one event; a run is any interleaving. */
module TxBudget {

  /** DEFAULT_PKT_BURST: the size of a queue's mbuf table and the largest tx_burst. */
  const MAX_BURST := 64

  /** Where a TX queue stands between two atomic accesses. */
  datatype Phase =
    | Idle                                        // between two rounds of the main loop
    | Testing                                     // SENDING_PACKETS was seen set
    | Claiming(burst: nat)                        // about to read the counter
    | Comparing(burst: nat, seen: nat, at: nat)   // read `seen`; `at` is the epoch of that read
    | Stopping                                    // the claim returned 0
    | Filling(claim: nat)                         // about to allocate mbufs
    | Entering                                    // about to enter pktgen_send_burst
    | Sending(left: nat)                          // at the head of the driver loop
    | Driving(left: nat)                          // SENDING_PACKETS seen set, calling the driver

  /** A TX queue: `len` is tx_mbufs.len; `fails` and `wins` count its cmpset outcomes. */
  datatype Queue = Queue(phase: Phase, len: nat, fails: nat, wins: nat)

  /** Where the command thread stands. */
  datatype Control =
    | Ready
    | Loading(target: nat)   // start saw SENDING_PACKETS clear
    | Loaded                 // current_tx_count stored, not yet read back
    | Arming                 // about to set SENDING_PACKETS

  /** What happened so far, in packets; `epoch` counts stores and successful cmpsets. */
  datatype Totals = Totals(loaded: nat, dropped: nat, claimed: nat, free: nat,
                           shortfall: nat, accepted: nat, abandoned: nat,
                           loads: nat, epoch: nat)

  datatype State = State(cnt: nat, sending: bool, forever: bool, burst: nat,
                         ctl: Control, queues: seq<Queue>, tot: Totals)

  datatype Event =
    | Begin(q: nat)
    | TestForever(q: nat)
    | ReadCount(q: nat)
    | Cmpset(q: nat)
    | StopSelf(q: nat)
    | Allocate(q: nat, got: nat)
    | EnterBurst(q: nat)
    | TestSending(q: nat)
    | DriverAccept(q: nat, taken: nat)
    | Flush(q: nat)
    | StartCmd(count: nat)
    | LoadCount
    | CheckCount
    | Arm
    | PrimeCmd(count: nat)
    | StopCmd
    | SetBurst(burst: nat)

  predicate IsCommand(e: Event) {
    e.StartCmd? || e.LoadCount? || e.CheckCount? || e.Arm? || e.PrimeCmd? || e.StopCmd? || e.SetBurst?
  }

  function Min(a: nat, b: nat): nat { if a < b then a else b }

  /** `cnt = txCnt - txLen` in uint16_t, clamped to tx_burst. */
  function ToAllocate(claim: nat, len: nat, burst: nat): nat {
    Min((claim - len) % 0x1_0000, burst)
  }

  /** single_set_tx_burst */
  function ClampBurst(burst: nat): nat {
    if burst == 0 then 1 else Min(burst, MAX_BURST)
  }

  // ---------------------------------------------------------------- the protocol

  predicate Enabled(s: State, e: Event) {
    if IsCommand(e) then
      match e
      case LoadCount => s.ctl.Loading?
      case CheckCount => s.ctl.Loaded?
      case Arm => s.ctl.Arming?
      case _ => s.ctl.Ready?
    else
      e.q < |s.queues| &&
      var p := s.queues[e.q].phase;
      match e
      case Begin(_) => p.Idle? && s.sending
      case TestForever(_) => p.Testing?
      case ReadCount(_) => p.Claiming?
      case Cmpset(_) => p.Comparing?
      case StopSelf(_) => p.Stopping?
      case Allocate(q, got) => p.Filling? && got <= ToAllocate(p.claim, s.queues[q].len, s.burst)
      case EnterBurst(_) => p.Entering?
      case TestSending(_) => p.Sending?
      case DriverAccept(_, taken) => p.Driving? && taken <= p.left
      case Flush(_) => p.Idle?
      case _ => false
  }

  function Put(s: State, q: nat, x: Queue): State
    requires q < |s.queues|
  {
    s.(queues := s.queues[q := x])
  }

  function StepQueue(s: State, e: Event): State
    requires !IsCommand(e) && Enabled(s, e)
  {
    var x := s.queues[e.q];
    var t := s.tot;
    match e
    case Begin(q) => Put(s, q, x.(phase := Testing))
    case TestForever(q) =>
      if s.forever then
        Put(s, q, x.(phase := Filling(s.burst))).(tot := t.(free := t.free + s.burst))
      else
        Put(s, q, x.(phase := Claiming(s.burst)))
    case ReadCount(q) =>
      if s.cnt == 0 then Put(s, q, x.(phase := Stopping))
      else Put(s, q, x.(phase := Comparing(x.phase.burst, s.cnt, t.epoch)))
    case Cmpset(q) =>
      if s.cnt == x.phase.seen then
        var take := Min(x.phase.seen, x.phase.burst);
        Put(s, q, x.(phase := Filling(take), wins := x.wins + 1)).(
          cnt := s.cnt - take,
          tot := t.(claimed := t.claimed + take, epoch := t.epoch + 1))
      else
        Put(s, q, x.(phase := Claiming(x.phase.burst), fails := x.fails + 1))
    case StopSelf(q) =>
      Put(s, q, x.(phase := Entering)).(sending := false, forever := false)
    case Allocate(q, got) =>
      Put(s, q, x.(phase := Entering, len := x.len + got)).(
        tot := t.(shortfall := t.shortfall + if x.phase.claim >= got then x.phase.claim - got else 0))
    case EnterBurst(q) =>
      if x.len == 0 then Put(s, q, x.(phase := Idle))
      else Put(s, q, x.(phase := Sending(x.len), len := 0))
    case TestSending(q) =>
      var left := x.phase.left;
      if left == 0 then Put(s, q, x.(phase := Idle))
      else if s.sending then Put(s, q, x.(phase := Driving(left)))
      else Put(s, q, x.(phase := Idle)).(tot := t.(abandoned := t.abandoned + left))
    case DriverAccept(q, taken) =>
      Put(s, q, x.(phase := Sending(x.phase.left - taken))).(tot := t.(accepted := t.accepted + taken))
    case Flush(q) => Put(s, q, x.(phase := Entering))
  }

  /** Storing a new budget overwrites what was left of the old one. */
  function Load(s: State, count: nat, ctl: Control): State {
    s.(cnt := count, ctl := ctl,
       tot := s.tot.(loaded := s.tot.loaded + count, dropped := s.tot.dropped + s.cnt,
                     loads := s.tot.loads + 1, epoch := s.tot.epoch + 1))
  }

  function StepCommand(s: State, e: Event): State
    requires IsCommand(e) && Enabled(s, e)
  {
    match e
    case StartCmd(count) => if s.sending then s else s.(ctl := Loading(count))
    case LoadCount => Load(s, s.ctl.target, Loaded)
    case CheckCount => s.(ctl := Arming, forever := s.forever || s.cnt == 0)
    case Arm => s.(ctl := Ready, sending := true)
    case PrimeCmd(count) => Load(s, count, Arming)
    case StopCmd => if s.sending then s.(sending := false, forever := false) else s
    case SetBurst(burst) => s.(burst := ClampBurst(burst))
  }

  function Step(s: State, e: Event): State
    requires Enabled(s, e)
  {
    if IsCommand(e) then StepCommand(s, e) else StepQueue(s, e)
  }

  predicate Valid(s: State, es: seq<Event>)
    decreases |es|
  {
    es == [] || (Enabled(s, es[0]) && Valid(Step(s, es[0]), es[1..]))
  }

  function After(s: State, es: seq<Event>): State
    requires Valid(s, es)
    decreases |es|
  {
    if es == [] then s else After(Step(s, es[0]), es[1..])
  }

  function Init(n: nat, burst: nat): State {
    State(0, false, false, ClampBurst(burst), Ready, seq(n, _ => Queue(Idle, 0, 0, 0)),
          Totals(0, 0, 0, 0, 0, 0, 0, 0, 0))
  }

  // ---------------------------------------------------------------- sums over queues

  function InFlight(x: Queue): nat {
    match x.phase
    case Filling(claim) => claim + x.len
    case Sending(left) => left + x.len
    case Driving(left) => left + x.len
    case _ => x.len
  }

  function TotalInFlight(qs: seq<Queue>): nat {
    if qs == [] then 0 else InFlight(qs[0]) + TotalInFlight(qs[1..])
  }

  lemma {:induction false} InFlightUpdate(qs: seq<Queue>, i: nat, x: Queue)
    requires i < |qs|
    ensures TotalInFlight(qs[i := x]) + InFlight(qs[i]) == TotalInFlight(qs) + InFlight(x)
  {
    if i == 0 {
      assert qs[i := x][1..] == qs[1..];
    } else {
      InFlightUpdate(qs[1..], i - 1, x);
      assert qs[i := x][1..] == qs[1..][i - 1 := x];
    }
  }

  lemma {:induction false} NothingInFlight(qs: seq<Queue>)
    requires forall i | 0 <= i < |qs| :: InFlight(qs[i]) == 0
    ensures TotalInFlight(qs) == 0
  {
    if qs != [] {
      NothingInFlight(qs[1..]);
    }
  }

  /** What a queue that has passed the SENDING_PACKETS test can still take from the counter. */
  function Claimable(x: Queue, burst: nat): nat {
    match x.phase
    case Testing => burst
    case Claiming(b) => b
    case Comparing(b, _, _) => b
    case _ => 0
  }

  function TotalClaimable(qs: seq<Queue>, burst: nat): nat {
    if qs == [] then 0 else Claimable(qs[0], burst) + TotalClaimable(qs[1..], burst)
  }

  lemma {:induction false} ClaimableUpdate(qs: seq<Queue>, i: nat, x: Queue, burst: nat)
    requires i < |qs|
    ensures TotalClaimable(qs[i := x], burst) + Claimable(qs[i], burst)
         == TotalClaimable(qs, burst) + Claimable(x, burst)
  {
    if i == 0 {
      assert qs[i := x][1..] == qs[1..];
    } else {
      ClaimableUpdate(qs[1..], i - 1, x, burst);
      assert qs[i := x][1..] == qs[1..][i - 1 := x];
    }
  }

  // ---------------------------------------------------------------- the invariant

  /** Every queue: bursts fit the table, packets sit in the table only between allocation
      and pktgen_send_burst, a stale read is provably stale, and each failed cmpset is
      paid for by a store or by a success of another queue. */
  predicate QueueOk(x: Queue, cnt: nat, epoch: nat) {
    && (!x.phase.Entering? ==> x.len == 0)
    && x.len <= MAX_BURST
    && x.fails + x.wins <= epoch
    && match x.phase
       case Claiming(b) => 1 <= b <= MAX_BURST
       case Comparing(b, seen, at) =>
         && 1 <= b <= MAX_BURST && seen > 0
         && x.fails + x.wins <= at <= epoch
         && (at == epoch ==> seen == cnt)
       case Filling(claim) => 1 <= claim <= MAX_BURST
       case Sending(left) => left <= MAX_BURST
       case Driving(left) => 1 <= left <= MAX_BURST
       case _ => true
  }

  ghost predicate Inv(s: State) {
    && 1 <= s.burst <= MAX_BURST
    && (forall i | 0 <= i < |s.queues| :: QueueOk(s.queues[i], s.cnt, s.tot.epoch))
    && s.cnt + s.tot.claimed + s.tot.dropped == s.tot.loaded
    && s.tot.claimed + s.tot.free
       == s.tot.accepted + s.tot.abandoned + s.tot.shortfall + TotalInFlight(s.queues)
    && s.tot.epoch <= s.tot.claimed + s.tot.loads
    && (s.forever ==> s.sending || s.ctl.Arming?)
    && (s.ctl.Loading? || s.ctl.Loaded? ==> !s.sending)
  }

  lemma InitInv(n: nat, burst: nat)
    ensures Inv(Init(n, burst))
  {
    NothingInFlight(Init(n, burst).queues);
  }

  /** The queue that moves stays well formed and its packets stay accounted for. */
  lemma MovedQueueOk(s: State, e: Event)
    requires !IsCommand(e) && Enabled(s, e) && 1 <= s.burst <= MAX_BURST
    requires QueueOk(s.queues[e.q], s.cnt, s.tot.epoch)
    ensures var s' := StepQueue(s, e); var x, x' := s.queues[e.q], s'.queues[e.q];
            && QueueOk(x', s'.cnt, s'.tot.epoch)
            && (s'.tot.epoch == s.tot.epoch ==> s'.cnt == s.cnt) && s.tot.epoch <= s'.tot.epoch
            && s'.cnt + s'.tot.claimed == s.cnt + s.tot.claimed
            && s'.tot.epoch - s.tot.epoch <= s'.tot.claimed - s.tot.claimed
            && (s'.tot.claimed + s'.tot.free) - (s.tot.claimed + s.tot.free)
               == (s'.tot.accepted + s'.tot.abandoned + s'.tot.shortfall)
                  - (s.tot.accepted + s.tot.abandoned + s.tot.shortfall)
                  + InFlight(x') - InFlight(x)
  {
  }

  /** The others keep standing well: nothing of theirs changes but the counter and the epoch. */
  lemma OthersStayOk(s: State, e: Event, i: nat)
    requires Inv(s) && !IsCommand(e) && Enabled(s, e) && i < |s.queues|
    ensures var s' := StepQueue(s, e); |s'.queues| == |s.queues| && QueueOk(s'.queues[i], s'.cnt, s'.tot.epoch)
  {
    MovedQueueOk(s, e);
    assert QueueOk(s.queues[i], s.cnt, s.tot.epoch);
  }

  lemma StepQueueInv(s: State, e: Event)
    requires Inv(s) && !IsCommand(e) && Enabled(s, e)
    ensures Inv(Step(s, e))
  {
    var s' := StepQueue(s, e);
    forall i | 0 <= i < |s.queues|
      ensures |s'.queues| == |s.queues| && QueueOk(s'.queues[i], s'.cnt, s'.tot.epoch)
    {
      OthersStayOk(s, e, i);
    }
    MovedQueueOk(s, e);
    InFlightUpdate(s.queues, e.q, s'.queues[e.q]);
    assert s'.queues == s.queues[e.q := s'.queues[e.q]];
  }

  lemma StepInv(s: State, e: Event)
    requires Inv(s) && Enabled(s, e)
    ensures Inv(Step(s, e))
  {
    if IsCommand(e) {
      var s' := StepCommand(s, e);
      forall i | 0 <= i < |s'.queues|
        ensures QueueOk(s'.queues[i], s'.cnt, s'.tot.epoch)
      {
        assert QueueOk(s.queues[i], s.cnt, s.tot.epoch);
      }
    } else {
      StepQueueInv(s, e);
    }
  }

  lemma {:induction false} RunInv(s: State, es: seq<Event>)
    requires Inv(s) && Valid(s, es)
    ensures Inv(After(s, es))
    decreases |es|
  {
    if es != [] {
      StepInv(s, es[0]);
      RunInv(Step(s, es[0]), es[1..]);
    }
  }

  lemma {:induction false} RunConcat(s: State, a: seq<Event>, b: seq<Event>)
    requires Valid(s, a)
    ensures Valid(s, a + b) <==> Valid(After(s, a), b)
    ensures Valid(s, a + b) ==> After(s, a + b) == After(After(s, a), b)
    decreases |a|
  {
    if a == [] {
      assert a + b == b;
    } else {
      assert (a + b)[1..] == a[1..] + b;
      RunConcat(Step(s, a[0]), a[1..], b);
    }
  }

  // ---------------------------------------------------------------- conservation

  /** Over every interleaving the counter, the claims and the overwritten budget account
      for every packet ever stored, and every claimed packet is in exactly one place. */
  lemma Conservation(n: nat, burst: nat, es: seq<Event>)
    requires Valid(Init(n, burst), es)
    ensures var s := After(Init(n, burst), es);
            && s.cnt + s.tot.claimed + s.tot.dropped == s.tot.loaded
            && s.tot.claimed + s.tot.free
               == s.tot.accepted + s.tot.abandoned + s.tot.shortfall + TotalInFlight(s.queues)
            && s.tot.accepted <= s.tot.loaded + s.tot.free
    ensures forall q | q in After(Init(n, burst), es).queues ::
              && q.len <= MAX_BURST
              && (q.phase.Filling? ==> 1 <= q.phase.claim <= MAX_BURST && q.len == 0)
  {
    InitInv(n, burst);
    RunInv(Init(n, burst), es);
  }

  /** The uint16_t subtraction fills the claim exactly when the packets already waiting in
      the table are no more than the claim; otherwise it wraps and asks for a full burst. */
  lemma AllocationIsExact(claim: nat, len: nat, burst: nat)
    requires 1 <= claim <= burst <= MAX_BURST && len <= MAX_BURST
    ensures len + ToAllocate(claim, len, burst) == claim <==> len <= claim
    ensures len > claim ==> ToAllocate(claim, len, burst) == burst
  {
    if len <= claim {
      assert (claim - len) % 0x1_0000 == claim - len;
    } else {
      assert (claim - len) % 0x1_0000 == claim - len + 0x1_0000;
    }
  }

  // ---------------------------------------------------------------- lock-freedom

  predicate LoadFree(es: seq<Event>) {
    forall e | e in es :: !e.LoadCount? && !e.PrimeCmd?
  }

  /** cmpset outcomes so far, plus the failure a stale read is about to cause. */
  function Owed(x: Queue, epoch: nat): nat {
    x.fails + x.wins + if x.phase.Comparing? && x.phase.at < epoch then 1 else 0
  }

  lemma StepOwes(s: State, e: Event, q: nat)
    requires Inv(s) && Enabled(s, e) && q < |s.queues| && !e.LoadCount? && !e.PrimeCmd?
    ensures var s' := Step(s, e);
            && |s'.queues| == |s.queues|
            && Owed(s'.queues[q], s'.tot.epoch) + s.tot.epoch <= Owed(s.queues[q], s.tot.epoch) + s'.tot.epoch
            && s'.tot.epoch + s'.cnt <= s.tot.epoch + s.cnt
  {
    assert QueueOk(s.queues[q], s.cnt, s.tot.epoch);
    if !IsCommand(e) {
      MovedQueueOk(s, e);
    }
  }

  lemma {:induction false} RunOwes(s: State, es: seq<Event>, q: nat)
    requires Inv(s) && Valid(s, es) && q < |s.queues| && LoadFree(es)
    ensures var s' := After(s, es);
            && |s'.queues| == |s.queues|
            && Owed(s'.queues[q], s'.tot.epoch) + s.tot.epoch <= Owed(s.queues[q], s.tot.epoch) + s'.tot.epoch
            && s'.tot.epoch + s'.cnt <= s.tot.epoch + s.cnt
    decreases |es|
  {
    if es != [] {
      StepOwes(s, es[0], q);
      StepInv(s, es[0]);
      RunOwes(Step(s, es[0]), es[1..], q);
    }
  }

  /** Between two stores of the counter, a queue that is not already comparing fails at most
      once per success of another queue, and all successes together are bounded by the
      packets they took: nobody can retry more often than the counter it started from. */
  lemma RetriesArePaidFor(n: nat, burst: nat, before: seq<Event>, es: seq<Event>, q: nat)
    requires Valid(Init(n, burst), before)
    requires var s := After(Init(n, burst), before);
             Valid(s, es) && LoadFree(es) && q < |s.queues| && !s.queues[q].phase.Comparing?
    ensures var s := After(Init(n, burst), before);
            var s' := After(s, es);
            && q < |s'.queues|
            && var fails, wins := s'.queues[q].fails - s.queues[q].fails, s'.queues[q].wins - s.queues[q].wins;
            && fails + wins <= s'.tot.epoch - s.tot.epoch
            && s'.tot.epoch - s.tot.epoch <= s.cnt - s'.cnt
            && fails + wins <= s.cnt
  {
    InitInv(n, burst);
    RunInv(Init(n, burst), before);
    RunOwes(After(Init(n, burst), before), es, q);
  }

  /** The claims run dry: between two stores a counter at 0 stays there, a queue that has had as
      many cmpset outcomes as there were packets has left none, and whoever then reads the
      counter gets no packets and goes on to stop the port. */
  lemma CallersGetZero(n: nat, burst: nat, before: seq<Event>, es: seq<Event>, q: nat)
    requires Valid(Init(n, burst), before)
    requires var s := After(Init(n, burst), before);
             Valid(s, es) && LoadFree(es) && q < |s.queues| && !s.queues[q].phase.Comparing?
    ensures var s := After(Init(n, burst), before);
            var s' := After(s, es);
            && q < |s'.queues|
            && var x, x' := s.queues[q], s'.queues[q];
            && (s.cnt == 0 ==> s'.cnt == 0)
            && ((x'.fails - x.fails) + (x'.wins - x.wins) >= s.cnt ==> s'.cnt == 0)
            && (s'.cnt == 0 && Enabled(s', ReadCount(q)) ==> Step(s', ReadCount(q)).queues[q].phase == Stopping)
  {
    InitInv(n, burst);
    RunInv(Init(n, burst), before);
    var s := After(Init(n, burst), before);
    RunOwes(s, es, q);
    RunInv(s, es);
    EpochGrows(s, es);
  }

  lemma {:induction false} EpochGrows(s: State, es: seq<Event>)
    requires Inv(s) && Valid(s, es)
    ensures s.tot.epoch <= After(s, es).tot.epoch
    decreases |es|
  {
    if es != [] {
      StepInv(s, es[0]);
      EpochGrows(Step(s, es[0]), es[1..]);
    }
  }

  // ---------------------------------------------------------------- stopping

  predicate NoCommand(es: seq<Event>) {
    forall e | e in es :: !IsCommand(e)
  }

  /** What the driver may still take from calls that it is already in. */
  function InDriver(qs: seq<Queue>): nat {
    if qs == [] then 0
    else (if qs[0].phase.Driving? then qs[0].phase.left else 0) + InDriver(qs[1..])
  }

  lemma {:induction false} InDriverUpdate(qs: seq<Queue>, i: nat, x: Queue)
    requires i < |qs|
    ensures InDriver(qs[i := x]) + (if qs[i].phase.Driving? then qs[i].phase.left else 0)
         == InDriver(qs) + (if x.phase.Driving? then x.phase.left else 0)
  {
    if i == 0 {
      assert qs[i := x][1..] == qs[1..];
    } else {
      InDriverUpdate(qs[1..], i - 1, x);
      assert qs[i := x][1..] == qs[1..][i - 1 := x];
    }
  }

  lemma StoppedStep(s: State, e: Event)
    requires !s.sending && !s.forever && !IsCommand(e) && Enabled(s, e)
    ensures var s' := Step(s, e);
            && !s'.sending && !s'.forever && s'.ctl == s.ctl
            && s'.tot.accepted + InDriver(s'.queues) <= s.tot.accepted + InDriver(s.queues)
  {
    var s' := Step(s, e);
    InDriverUpdate(s.queues, e.q, s'.queues[e.q]);
    assert s'.queues == s.queues[e.q := s'.queues[e.q]];
  }

  /** A port that does not send stays so until a command: no queue begins a round, and the driver
      takes no more than what it was called with before. */
  lemma {:induction false} StaysStopped(s: State, es: seq<Event>)
    requires !s.sending && !s.forever && Valid(s, es) && NoCommand(es)
    ensures var s' := After(s, es);
            && !s'.sending && !s'.forever && s'.ctl == s.ctl
            && (forall r :: !Enabled(s', Begin(r)))
            && s'.tot.accepted + InDriver(s'.queues) <= s.tot.accepted + InDriver(s.queues)
    decreases |es|
  {
    if es != [] {
      StoppedStep(s, es[0]);
      StaysStopped(Step(s, es[0]), es[1..]);
    }
  }

  /** A queue that got nothing stops the port, for all its queues and until the next command. */
  lemma EmptyCounterStops(s: State, q: nat, es: seq<Event>)
    requires Enabled(s, StopSelf(q)) && Valid(Step(s, StopSelf(q)), es) && NoCommand(es)
    ensures var s' := After(Step(s, StopSelf(q)), es);
            && !s'.sending && !s'.forever && s'.ctl == s.ctl && (forall r :: !Enabled(s', Begin(r)))
            && s'.tot.accepted <= s.tot.accepted + InDriver(s.queues)
  {
    var s1 := Step(s, StopSelf(q));
    InDriverUpdate(s.queues, q, s1.queues[q]);
    StaysStopped(s1, es);
  }

  /** So does a stop command, at any moment at which it can be given. */
  lemma StopCommandStops(s: State, es: seq<Event>)
    requires Inv(s) && Enabled(s, StopCmd) && Valid(Step(s, StopCmd), es) && NoCommand(es)
    ensures var s' := After(Step(s, StopCmd), es);
            && !s'.sending && !s'.forever && (forall r :: !Enabled(s', Begin(r)))
            && s'.tot.accepted <= s.tot.accepted + InDriver(s.queues)
  {
    StaysStopped(Step(s, StopCmd), es);
  }

  /** A port that has stopped can be started again: the next start stores its count, whatever the
      queues that lag behind do in between, and a port that sends is left alone. */
  lemma StartStores(s: State, count: nat, es: seq<Event>)
    requires Inv(s) && Enabled(s, StartCmd(count))
    ensures s.sending ==> Step(s, StartCmd(count)) == s
    ensures !s.sending && NoCommand(es) && Valid(Step(s, StartCmd(count)), es) ==>
              Valid(s, [StartCmd(count)] + es + [LoadCount])
              && After(s, [StartCmd(count)] + es + [LoadCount]).cnt == count
  {
    if !s.sending && NoCommand(es) && Valid(Step(s, StartCmd(count)), es) {
      var s1 := Step(s, StartCmd(count));
      StaysStopped(s1, es);
      var s2 := After(s1, es);
      var last := Prepend(s2, LoadCount, []);
      RunConcat(s1, es, last);
      var run := Prepend(s, StartCmd(count), es + last);
      assert run == [StartCmd(count)] + es + [LoadCount];
    }
  }

  /** A burst from 1 to 64 is stored and the nearest of these for any other; claims under way keep theirs. */
  lemma BurstIsClamped(s: State, burst: nat)
    requires Enabled(s, SetBurst(burst))
    ensures var s' := Step(s, SetBurst(burst));
            && s'.(burst := s.burst) == s && 1 <= s'.burst <= 64
            && (1 <= burst <= 64 ==> s'.burst == burst)
            && (burst == 0 ==> s'.burst == 1) && (burst > 64 ==> s'.burst == 64)
  {
  }

  /** A cmpset that fails proves that the counter was stored or taken from since the read. */
  lemma FailureIsSomebodysProgress(n: nat, burst: nat, es: seq<Event>, q: nat)
    requires Valid(Init(n, burst), es)
    requires var s := After(Init(n, burst), es);
             q < |s.queues| && s.queues[q].phase.Comparing? && s.queues[q].phase.seen != s.cnt
    ensures var s := After(Init(n, burst), es);
            s.queues[q].phase.at < s.tot.epoch
            && Step(s, Cmpset(q)).queues[q].phase == Claiming(s.queues[q].phase.burst)
            && Step(s, Cmpset(q)).cnt == s.cnt
  {
    InitInv(n, burst);
    RunInv(Init(n, burst), es);
    var s := After(Init(n, burst), es);
    assert QueueOk(s.queues[q], s.cnt, s.tot.epoch);
  }

  // ---------------------------------------------------------------- the budget is kept

  /** Every start in the run stores more than the queues still inside a claim can take. */
  predicate QuietStarts(s: State, es: seq<Event>)
    requires Valid(s, es)
    decreases |es|
  {
    es == [] ||
    ((es[0].LoadCount? ==> s.ctl.target > TotalClaimable(s.queues, s.burst)) &&
     QuietStarts(Step(s, es[0]), es[1..]))
  }

  ghost predicate BudgetInv(s: State) {
    && Inv(s) && !s.forever && s.tot.free == 0
    && (s.ctl.Loaded? ==> s.cnt > TotalClaimable(s.queues, s.burst))
  }

  lemma ClaimableShrinks(s: State, e: Event)
    requires Inv(s) && s.ctl.Loaded? && !s.forever && !IsCommand(e) && Enabled(s, e)
    ensures var s' := Step(s, e);
            && s'.ctl.Loaded? && !s'.forever && s'.burst == s.burst && s'.tot.free == s.tot.free
            && s'.cnt + TotalClaimable(s.queues, s.burst) >= s.cnt + TotalClaimable(s'.queues, s.burst)
  {
    var s' := Step(s, e);
    ClaimableUpdate(s.queues, e.q, s'.queues[e.q], s.burst);
    assert s'.queues == s.queues[e.q := s'.queues[e.q]];
  }

  lemma BudgetStep(s: State, e: Event)
    requires BudgetInv(s) && Enabled(s, e)
    requires e.LoadCount? ==> s.ctl.target > TotalClaimable(s.queues, s.burst)
    ensures BudgetInv(Step(s, e))
  {
    StepInv(s, e);
    if s.ctl.Loaded? && !IsCommand(e) {
      ClaimableShrinks(s, e);
    }
  }

  lemma {:induction false} BudgetRun(s: State, es: seq<Event>)
    requires BudgetInv(s) && Valid(s, es) && QuietStarts(s, es)
    ensures BudgetInv(After(s, es))
    decreases |es|
  {
    if es != [] {
      BudgetStep(s, es[0]);
      BudgetRun(Step(s, es[0]), es[1..]);
    }
  }

  /** When every start is quiet, no interleaving sends more than was stored: what the driver
      took, what was given up, what is in flight and what is left add up to it exactly. */
  lemma FiniteRunKeepsBudget(n: nat, burst: nat, es: seq<Event>)
    requires Valid(Init(n, burst), es) && QuietStarts(Init(n, burst), es)
    ensures var s := After(Init(n, burst), es);
            && !s.forever
            && s.tot.accepted + s.tot.abandoned + s.tot.shortfall + TotalInFlight(s.queues)
               + s.cnt + s.tot.dropped == s.tot.loaded
  {
    InitInv(n, burst);
    BudgetRun(Init(n, burst), es);
  }

  // ---------------------------------------------------------------- when a start misfires

  /** Start reads the counter back after storing it. If queues that had already passed the
      SENDING_PACKETS test empty it in between, start concludes that transmit_count was 0. */
  ghost predicate CanMisfire(s: State) {
    exists es :: IsMisfire(s, es)
  }

  ghost predicate IsMisfire(s: State, es: seq<Event>) {
    && (forall e | e in es :: !IsCommand(e))
    && Valid(s, [LoadCount] + es + [CheckCount])
    && After(s, [LoadCount] + es + [CheckCount]).forever
  }

  /** One lagging queue completes its claim. */
  lemma {:induction false} TakeClaim(s: State, i: nat) returns (es: seq<Event>)
    requires Inv(s) && s.ctl.Loaded? && !s.forever && s.cnt > 0
    requires i < |s.queues| && Claimable(s.queues[i], s.burst) > 0
    ensures Valid(s, es) && forall e | e in es :: !IsCommand(e)
    ensures var s' := After(s, es);
            && s'.ctl.Loaded? && !s'.forever && s'.burst == s.burst
            && s'.cnt == s.cnt - Min(s.cnt, Claimable(s.queues[i], s.burst))
            && |s'.queues| == |s.queues| && s'.queues[i + 1..] == s.queues[i + 1..]
            && s'.queues[i].phase.Filling? && s'.tot.loaded == s.tot.loaded
    decreases if s.queues[i].phase.Testing? then 3
              else if s.queues[i].phase.Claiming? then 1
              else if s.queues[i].phase.Comparing? && s.queues[i].phase.seen == s.cnt then 0 else 2
  {
    var x := s.queues[i];
    var e := if x.phase.Testing? then TestForever(i)
             else if x.phase.Claiming? then ReadCount(i) else Cmpset(i);
    var s1 := Step(s, e);
    StepInv(s, e);
    var rest := [];
    if e.Cmpset? && x.phase.seen == s.cnt {
      assert Valid(s1, rest);
    } else {
      rest := TakeClaim(s1, i);
    }
    es := [e] + rest;
    assert es[0] == e && es[1..] == rest;
  }

  /** The queues from `i` on claim in turn until the counter is empty; `last` took the rest. */
  lemma {:induction false} Drain(s: State, i: nat) returns (es: seq<Event>, last: nat)
    requires Inv(s) && s.ctl.Loaded? && !s.forever
    requires i <= |s.queues| && s.cnt <= TotalClaimable(s.queues[i..], s.burst)
    ensures Valid(s, es) && forall e | e in es :: !IsCommand(e)
    ensures var s' := After(s, es);
            && s'.ctl.Loaded? && s'.cnt == 0 && |s'.queues| == |s.queues| && s'.tot.loaded == s.tot.loaded
            && (s.cnt > 0 ==> last < |s.queues| && s'.queues[last].phase.Filling?)
    ensures s.cnt == 0 ==> es == []
    decreases |s.queues| - i
  {
    es, last := [], i;
    if s.cnt > 0 {
      assert s.queues[i..][0] == s.queues[i] && s.queues[i..][1..] == s.queues[i + 1..];
      if Claimable(s.queues[i], s.burst) == 0 {
        es, last := Drain(s, i + 1);
      } else {
        var take := TakeClaim(s, i);
        RunInv(s, take);
        var s1 := After(s, take);
        assert |s1.queues[i + 1..]| == |s.queues[i + 1..]|;
        var rest, j := Drain(s1, i + 1);
        RunConcat(s, take, rest);
        es, last := take + rest, if s1.cnt > 0 then j else i;
      }
    }
  }

  lemma {:induction false} StaysLoaded(s: State, es: seq<Event>)
    requires Inv(s) && s.ctl.Loaded? && !s.forever && Valid(s, es) && forall e | e in es :: !IsCommand(e)
    ensures var s' := After(s, es);
            && Inv(s') && s'.ctl.Loaded? && !s'.forever
            && s'.cnt + TotalClaimable(s.queues, s.burst) >= s.cnt
    decreases |es|
  {
    if es != [] {
      ClaimableShrinks(s, es[0]);
      StepInv(s, es[0]);
      StaysLoaded(Step(s, es[0]), es[1..]);
    }
  }

  /** A start of a nonzero count can end in endless sending exactly when the count is no more
      than what the queues still inside a claim can take: an exact, checkable condition. */
  lemma MisfireCondition(n: nat, burst: nat, before: seq<Event>)
    requires Valid(Init(n, burst), before)
    requires var s := After(Init(n, burst), before); s.ctl.Loading? && s.ctl.target > 0
    ensures var s := After(Init(n, burst), before);
            CanMisfire(s) <==> s.ctl.target <= TotalClaimable(s.queues, s.burst)
  {
    InitInv(n, burst);
    RunInv(Init(n, burst), before);
    var s := After(Init(n, burst), before);
    var s1 := Step(s, LoadCount);
    StepInv(s, LoadCount);
    assert Valid(s, [LoadCount]) && After(s, [LoadCount]) == s1 by {
      assert [LoadCount][1..] == [];
    }
    if s.ctl.target <= TotalClaimable(s.queues, s.burst) {
      assert s1.queues[0..] == s1.queues;
      var es, _ := Drain(s1, 0);
      CheckAfter(s, s1, es);
      assert IsMisfire(s, es);
    } else {
      forall es | IsMisfire(s, es) ensures false {
        RunConcat(s, [LoadCount], es + [CheckCount]);
        assert [LoadCount] + es + [CheckCount] == [LoadCount] + (es + [CheckCount]);
        PrefixValid(s1, es, [CheckCount]);
        StaysLoaded(s1, es);
        CheckAfter(s, s1, es);
      }
    }
  }

  /** Queue `q` stands at `phase` with an empty table; everything else is as in `s`. */
  predicate StandsAt(s: State, s': State, q: nat, phase: Phase, len: nat, accepted: nat)
    requires q < |s.queues|
  {
    && s'.sending && s'.forever && s'.ctl.Ready? && s'.burst == s.burst
    && |s'.queues| == |s.queues|
    && s'.queues[q].phase == phase && s'.queues[q].len == len
    && s'.tot.loaded == s.tot.loaded && s'.tot.accepted == accepted
  }

  /** The driver takes the one packet that was allocated. */
  lemma DriveOne(s: State, s': State, q: nat) returns (es: seq<Event>)
    requires q < |s.queues| && s.burst >= 1 && StandsAt(s, s', q, Entering, 1, s.tot.accepted)
    ensures Valid(s', es) && StandsAt(s, After(s', es), q, Idle, 0, s.tot.accepted + 1)
  {
    var s2 := Step(s', EnterBurst(q));
    var s3 := Step(s2, TestSending(q));
    var s4 := Step(s3, DriverAccept(q, 1));
    assert StandsAt(s, s4, q, Sending(0), 0, s.tot.accepted + 1);
    es := Prepend(s4, TestSending(q), []);
    es := Prepend(s3, DriverAccept(q, 1), es);
    es := Prepend(s2, TestSending(q), es);
    es := Prepend(s', EnterBurst(q), es);
  }

  /** One round of a queue in endless mode puts one more packet on the wire. */
  lemma SendOneMore(s: State, q: nat) returns (es: seq<Event>)
    requires q < |s.queues| && s.burst >= 1
    requires exists c: nat | c >= 1 :: c <= MAX_BURST && StandsAt(s, s, q, Filling(c), 0, s.tot.accepted)
    ensures Valid(s, es) && StandsAt(s, After(s, es), q, Filling(s.burst), 0, s.tot.accepted + 1)
  {
    var c := s.queues[q].phase.claim;
    assert 1 <= ToAllocate(c, 0, s.burst);
    var s1 := Step(s, Allocate(q, 1));
    var drive := DriveOne(s, s1, q);
    var s2 := After(s1, drive);
    var s3 := Step(s2, Begin(q));
    var again := Prepend(s3, TestForever(q), []);
    again := Prepend(s2, Begin(q), again);
    RunConcat(s1, drive, again);
    es := Prepend(s, Allocate(q, 1), drive + again);
  }

  lemma Prepend(s: State, e: Event, es: seq<Event>) returns (run: seq<Event>)
    requires Enabled(s, e) && Valid(Step(s, e), es)
    ensures run == [e] + es && Valid(s, run) && After(s, run) == After(Step(s, e), es)
  {
    run := [e] + es;
    assert run[0] == e && run[1..] == es;
  }

  lemma {:induction false} SendForever(s: State, q: nat, k: nat) returns (es: seq<Event>)
    requires Inv(s) && s.sending && s.forever && s.ctl.Ready?
    requires q < |s.queues| && s.queues[q].phase.Filling?
    ensures Valid(s, es)
    ensures After(s, es).tot.loaded == s.tot.loaded && After(s, es).tot.accepted == s.tot.accepted + k
    decreases k
  {
    es := [];
    if k > 0 {
      assert QueueOk(s.queues[q], s.cnt, s.tot.epoch);
      assert StandsAt(s, s, q, Filling(s.queues[q].phase.claim), 0, s.tot.accepted);
      var one := SendOneMore(s, q);
      RunInv(s, one);
      var rest := SendForever(After(s, one), q, k - 1);
      RunConcat(s, one, rest);
      es := one + rest;
    }
  }

  /** A misfired start can exceed the stored budget by any amount. */
  lemma MisfireOversends(n: nat, burst: nat, before: seq<Event>, k: nat) returns (es: seq<Event>)
    requires Valid(Init(n, burst), before)
    requires var s := After(Init(n, burst), before);
             s.ctl.Loading? && 0 < s.ctl.target <= TotalClaimable(s.queues, s.burst)
    ensures Valid(Init(n, burst), before + es)
    ensures var s' := After(Init(n, burst), before + es); s'.tot.accepted >= s'.tot.loaded + k
  {
    InitInv(n, burst);
    RunInv(Init(n, burst), before);
    var s := After(Init(n, burst), before);
    var s1 := Step(s, LoadCount);
    StepInv(s, LoadCount);
    assert s1.queues[0..] == s1.queues;
    var drain, q := Drain(s1, 0);
    RunInv(s1, drain);
    var s2 := After(s1, drain);
    var s3 := Step(s2, CheckCount);
    var s4 := Step(s3, Arm);
    StepInv(s2, CheckCount);
    StepInv(s3, Arm);
    var send := SendForever(s4, q, s1.tot.loaded + k);
    var tail := Prepend(s3, Arm, send);
    tail := Prepend(s2, CheckCount, tail);
    RunConcat(s1, drain, tail);
    es := Prepend(s, LoadCount, drain + tail);
    RunConcat(Init(n, burst), before, es);
  }

  /** One queue passes the flag test, the port is stopped and started again with a single packet. */
  lemma LagAndRestart(s: State) returns (es: seq<Event>)
    requires |s.queues| == 1 && s.queues[0].phase == Idle && s.sending && s.ctl == Ready && s.burst >= 1
    ensures Valid(s, es)
    ensures var r := After(s, es); r.ctl.Loading? && 0 < r.ctl.target <= TotalClaimable(r.queues, r.burst)
  {
    var s1 := Step(s, Begin(0));
    var s2 := Step(s1, StopCmd);
    es := Prepend(s2, StartCmd(1), []);
    es := Prepend(s1, StopCmd, es);
    es := Prepend(s, Begin(0), es);
  }

  /** A start that nobody disturbs: the port sends its count, or without end if that is 0. */
  lemma StartQuietly(s: State, count: nat) returns (es: seq<Event>)
    requires !s.sending && s.ctl == Ready
    ensures es == [StartCmd(count), LoadCount, CheckCount, Arm] && Valid(s, es)
    ensures var r := After(s, es);
            && r.queues == s.queues && r.sending && r.ctl == Ready && r.burst == s.burst
            && r.cnt == count && (r.forever <==> s.forever || count == 0)
  {
    var s1 := Step(s, StartCmd(count));
    var s2 := Step(s1, LoadCount);
    var s3 := Step(s2, CheckCount);
    es := Prepend(s3, Arm, []);
    es := Prepend(s2, CheckCount, es);
    es := Prepend(s1, LoadCount, es);
    es := Prepend(s, StartCmd(count), es);
  }

  /** A prime command has the port send its count, also when it is sending already. */
  lemma PrimeQuietly(s: State, count: nat) returns (es: seq<Event>)
    requires s.ctl == Ready
    ensures es == [PrimeCmd(count), Arm] && Valid(s, es)
    ensures var r := After(s, es); r == Load(s, count, Ready).(sending := true) && r.cnt == count
  {
    es := Prepend(Step(s, PrimeCmd(count)), Arm, []);
    es := Prepend(s, PrimeCmd(count), es);
  }

  /** States from which a start misfires are reached. */
  lemma MisfireIsReachable() returns (before: seq<Event>)
    ensures Valid(Init(1, 1), before)
    ensures var s := After(Init(1, 1), before);
            s.ctl.Loading? && 0 < s.ctl.target <= TotalClaimable(s.queues, s.burst)
  {
    var s := Init(1, 1);
    assert |s.queues| == 1 && s.queues[0].phase == Idle && s.burst == 1;
    var first := StartQuietly(s, 1);
    var again := LagAndRestart(After(s, first));
    RunConcat(s, first, again);
    before := first + again;
  }

  /** So a run exists, of a port with one queue that is only ever given single packets to send, that
      exceeds all it was given by any number. */
  lemma MisfireHappens(k: nat) returns (es: seq<Event>)
    ensures Valid(Init(1, 1), es)
    ensures var s := After(Init(1, 1), es); s.tot.accepted >= s.tot.loaded + k
  {
    var before := MisfireIsReachable();
    var rest := MisfireOversends(1, 1, before, k);
    es := before + rest;
  }

  lemma {:induction false} PrefixValid(s: State, a: seq<Event>, b: seq<Event>)
    requires Valid(s, a + b)
    ensures Valid(s, a)
    decreases |a|
  {
    if a != [] {
      assert (a + b)[1..] == a[1..] + b;
      PrefixValid(Step(s, a[0]), a[1..], b);
    }
  }

  lemma CheckAfter(s: State, s1: State, es: seq<Event>)
    requires Enabled(s, LoadCount) && s1 == Step(s, LoadCount)
    requires Valid(s1, es) && After(s1, es).ctl.Loaded?
    ensures Valid(s, [LoadCount] + es + [CheckCount])
    ensures After(s, [LoadCount] + es + [CheckCount]).forever <==> After(s1, es).forever || After(s1, es).cnt == 0
  {
    var run := [LoadCount] + es + [CheckCount];
    assert run[0] == LoadCount && run[1..] == es + [CheckCount];
    RunConcat(s1, es, [CheckCount]);
    assert [CheckCount][1..] == [];
  }
}
