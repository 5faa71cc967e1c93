/** Pacing: from a percentage of the link speed to a gap in clock cycles, and from the gap to a throughput. */
module Pacing {
  import opened Wrappers

  // ----- The gap -----

  /** Packets per second: whole packets per second on the link, times the percentage, cut off. */
  function Pps(link: nat, wireBits: nat, txRate: real): (pps: nat)
    requires wireBits > 0 && txRate >= 0.0
  {
    var share := (link / wireBits) as real * txRate / 100.0;
    assert share >= 0.0;
    share.Floor
  }

  /** Cycles per packet, cut off; a whole second when there is no rate. */
  function Cpp(hz: nat, pps: nat): nat {
    if pps > 0 then hz / pps else hz
  }

  function Gap(hz: nat, pps: nat, burst: nat, txcnt: nat): nat {
    Cpp(hz, pps) * burst * txcnt
  }

  lemma ShareAtMost(q: real, percent: real)
    requires q >= 0.0 && 0.0 <= percent <= 100.0
    ensures q * percent / 100.0 <= q
  {
    assert q * (100.0 - percent) >= 0.0;
    assert q * percent == q * 100.0 - q * (100.0 - percent);
  }

  lemma PpsAtMost(link: nat, wireBits: nat, txRate: real)
    requires wireBits > 0 && 0.0 <= txRate <= 100.0
    ensures Pps(link, wireBits, txRate) <= link / wireBits
  {
    ShareAtMost((link / wireBits) as real, txRate);
  }

  /** Up to 100 percent the rate never asks for more bits than the link carries. */
  lemma NotOverLineRate(link: nat, wireBits: nat, txRate: real)
    requires wireBits > 0 && 0.0 <= txRate <= 100.0
    ensures Pps(link, wireBits, txRate) * wireBits <= link
  {
    var q, pps := link / wireBits, Pps(link, wireBits, txRate);
    PpsAtMost(link, wireBits, txRate);
    QuotientBound(link, wireBits);
    MulLe(pps, q, wireBits);
  }

  lemma QuotientBound(n: nat, d: nat)
    requires d > 0
    ensures n / d * d <= n
  {
    assert n == d * (n / d) + n % d;
  }

  /** The gap of one packet is the second divided by the rate, to the cycle. */
  lemma CppBounds(hz: nat, pps: nat)
    requires pps > 0
    ensures Cpp(hz, pps) * pps <= hz < (Cpp(hz, pps) + 1) * pps
    ensures Cpp(hz, pps) == 0 <==> pps > hz
  {
    var c := hz / pps;
    assert hz == pps * c + hz % pps;
    assert (c + 1) * pps == c * pps + pps;
    if c > 0 {
      assert c * pps >= pps;
    }
  }

  /** The rate is the percentage of the whole packets per second, to the packet. */
  lemma PpsBounds(link: nat, wireBits: nat, txRate: real)
    requires wireBits > 0 && txRate >= 0.0
    ensures var share := (link / wireBits) as real * txRate / 100.0;
            Pps(link, wireBits, txRate) as real <= share < Pps(link, wireBits, txRate) as real + 1.0
  {
  }

  /**
   * All the queues together send `burst * txcnt` packets in a gap, which is the time these packets
   * take at the rate, short of it by less than a cycle for each; without a rate, a second for each.
   */
  lemma GapBounds(hz: nat, pps: nat, burst: nat, txcnt: nat)
    requires burst > 0 && txcnt > 0
    ensures var gap, k := Gap(hz, pps, burst, txcnt), burst * txcnt;
            if pps > 0 then gap * pps <= hz * k < (gap + k) * pps else gap == hz * k
  {
    var c, k := Cpp(hz, pps), burst * txcnt;
    MulLe(1, txcnt, burst);
    assert Gap(hz, pps, burst, txcnt) == c * k;
    if pps > 0 {
      CppBounds(hz, pps);
      GapScales(hz, pps, c, k);
    }
  }

  lemma GapScales(hz: nat, pps: nat, c: nat, k: nat)
    requires k > 0 && c * pps <= hz < (c + 1) * pps
    ensures c * k * pps <= hz * k < (c * k + k) * pps
  {
    MulLe(c * pps, hz, k);
    MulLe(hz + 1, (c + 1) * pps, k);
    MulSum(hz, 1, k);
    MulSum(c, 1, k);
    Reorder(c, k, pps);
    Reorder(c + 1, k, pps);
  }

  // ----- The transmit loop -----

  /**
   * One pass of the loop: the clock, whether the link is up, and what others have stored as the
   * port's gap since the last pass: another lcore of the port, or a command that resets it to 0.
   */
  datatype Tick = Tick(now: nat, link: bool, stored: Option<nat>)

  /** The stored gap that a pass sees; 0 as long as it is not known. */
  function Seen(t: Tick, cycles: nat): nat {
    if t.stored.Some? then t.stored.value else cycles
  }

  /** The times at which bursts are started, `gap` being the gap when it is computed. */
  function Sends(ticks: seq<Tick>, cycles: nat, next: nat, gap: nat): seq<nat>
    decreases ticks
  {
    if ticks == [] then []
    else
      var now, seen := ticks[0].now, Seen(ticks[0], cycles);
      if seen == 0 then
        if ticks[0].link then Sends(ticks[1..], gap, now + gap, gap) else Sends(ticks[1..], 0, next, gap)
      else if now >= next then [now] + Sends(ticks[1..], seen, now + seen, gap)
      else Sends(ticks[1..], seen, next, gap)
  }

  class PortInfo {
    const hz: nat
    const link: nat
    const wireBits: nat
    const txRate: real
    const txBurst: nat
    const txcnt: nat
    var txPps: nat
    var txCycles: nat

    constructor (hz: nat, link: nat, wireBits: nat, txRate: real, txBurst: nat, txcnt: nat)
      requires wireBits > 0 && txRate >= 0.0
      ensures Valid() && txCycles == 0
      ensures this.hz == hz && this.link == link && this.wireBits == wireBits && this.txRate == txRate
      ensures this.txBurst == txBurst && this.txcnt == txcnt
    {
      this.hz, this.link, this.wireBits, this.txRate := hz, link, wireBits, txRate;
      this.txBurst, this.txcnt := txBurst, txcnt;
      txPps, txCycles := 0, 0;
    }

    predicate Valid()
      reads this
    {
      wireBits > 0 && txRate >= 0.0
    }

    function Rate(): nat
      requires wireBits > 0 && txRate >= 0.0
    {
      Pps(link, wireBits, txRate)
    }

    method PacketRate()
      requires Valid()
      modifies this
      ensures Valid() && txPps == Rate() && txCycles == Gap(hz, Rate(), txBurst, txcnt)
    {
      var share := (link / wireBits) as real * txRate / 100.0;
      assert share >= 0.0;
      var pps := share.Floor;
      var cpp := if pps > 0 then hz / pps else hz;
      txPps := pps;
      txCycles := cpp * txBurst * txcnt;
    }

    /** Waits for the link, then starts a burst whenever the gap has passed since the last one. */
    method TxLoop(ticks: seq<Tick>, start: nat) returns (times: seq<nat>)
      requires Valid()
      modifies this
      ensures times == Sends(ticks, old(txCycles), start + old(txCycles), Gap(hz, Rate(), txBurst, txcnt))
    {
      ghost var gap := Gap(hz, Rate(), txBurst, txcnt);
      var next: nat := start + txCycles;
      ghost var all := Sends(ticks, txCycles, next, gap);
      times := [];
      var i := 0;
      while i < |ticks|
        invariant 0 <= i <= |ticks| && Valid()
        invariant all == times + Sends(ticks[i..], txCycles, next, gap)
      {
        var now := ticks[i].now;
        assert ticks[i..][1..] == ticks[i + 1..];
        if ticks[i].stored.Some? {
          txCycles := ticks[i].stored.value;
        }
        if txCycles == 0 {
          if ticks[i].link {
            PacketRate();
            next := now + txCycles;
          }
        } else if now >= next {
          next := now + txCycles;
          times := times + [now];
        }
        i := i + 1;
      }
    }
  }

  // ----- What the loop achieves -----

  /** Bursts are at least `gap` apart. */
  predicate Spaced(times: seq<nat>, gap: nat) {
    forall i | 0 <= i < |times| - 1 :: times[i] + gap <= times[i + 1]
  }

  /** Consecutive bursts are at most `wait` apart. */
  predicate Prompt(times: seq<nat>, wait: nat) {
    forall i | 0 <= i < |times| - 1 :: times[i + 1] <= times[i] + wait
  }

  /** The clock never goes back. */
  predicate Monotone(ticks: seq<Tick>) {
    forall i, j | 0 <= i < j < |ticks| :: ticks[i].now <= ticks[j].now
  }

  /** The clock is read at least every `g` cycles. */
  predicate Polled(ticks: seq<Tick>, g: nat) {
    forall i | 0 <= i < |ticks| - 1 :: ticks[i + 1].now <= ticks[i].now + g
  }

  /** Others store the same gap, or reset it. */
  predicate OneRate(ticks: seq<Tick>, gap: nat) {
    forall i | 0 <= i < |ticks| && ticks[i].stored.Some? :: ticks[i].stored.value in {0, gap}
  }

  /** Others store the gap at most; no command resets it. */
  predicate Undisturbed(ticks: seq<Tick>, gap: nat) {
    forall i | 0 <= i < |ticks| && ticks[i].stored.Some? :: ticks[i].stored.value == gap
  }

  /**
   * Re-arming from the current time keeps bursts at least the gap apart, whoever computes the gap
   * and however often it is reset.
   */
  lemma {:induction false} SendsSpaced(ticks: seq<Tick>, cycles: nat, next: nat, gap: nat)
    requires cycles in {0, gap} && OneRate(ticks, gap) && Monotone(ticks)
    ensures Spaced(Sends(ticks, cycles, next, gap), gap)
    ensures Sends(ticks, cycles, next, gap) != [] ==>
              Sends(ticks, cycles, next, gap)[0] >= next || Sends(ticks, cycles, next, gap)[0] >= ticks[0].now + gap
    decreases ticks
  {
    if ticks != [] {
      var now, seen := ticks[0].now, Seen(ticks[0], cycles);
      if seen == 0 {
        SendsSpaced(ticks[1..], if ticks[0].link then gap else 0, if ticks[0].link then now + gap else next, gap);
      } else {
        SendsSpaced(ticks[1..], seen, if now >= next then now + seen else next, gap);
      }
    }
  }

  /** A gap of 0 is taken for one that is not known yet, and the loop never sends. */
  lemma {:induction false} NoGapNeverSends(ticks: seq<Tick>, next: nat)
    requires Undisturbed(ticks, 0)
    ensures Sends(ticks, 0, next, 0) == []
    decreases ticks
  {
    if ticks != [] {
      NoGapNeverSends(ticks[1..], if ticks[0].link then ticks[0].now else next);
    }
  }

  /** Once the gap is known, the clock passing the next time starts a burst. */
  lemma {:induction false} ArmedSends(ticks: seq<Tick>, next: nat, gap: nat, j: nat)
    requires gap > 0 && Undisturbed(ticks, gap) && j < |ticks| && ticks[j].now >= next
    ensures Sends(ticks, gap, next, gap) != []
    decreases j
  {
    if ticks[0].now < next {
      ArmedSends(ticks[1..], next, gap, j - 1);
    }
  }

  /** Without the link, and as long as nobody else stores a gap, nothing is sent. */
  lemma {:induction false} NoLinkNeverSends(ticks: seq<Tick>, next: nat, gap: nat)
    requires forall i | 0 <= i < |ticks| :: !ticks[i].link && ticks[i].stored in {None, Some(0)}
    ensures Sends(ticks, 0, next, gap) == []
    decreases ticks
  {
    if ticks != [] {
      NoLinkNeverSends(ticks[1..], next, gap);
    }
  }

  /** A gap `c` that somebody else stores is enough to send, without the link and before it is computed here. */
  lemma {:induction false} StoredGapSends(ticks: seq<Tick>, cycles: nat, next: nat, gap: nat, c: nat, i: nat, j: nat)
    requires c > 0 && i <= j < |ticks| && ticks[i].stored == Some(c) && ticks[j].now >= next
    requires forall k | 0 <= k < i :: !ticks[k].link && Seen(ticks[k], 0) == 0
    requires forall k | i < k < |ticks| :: ticks[k].stored in {None, Some(c)}
    requires i > 0 ==> cycles == 0
    ensures var s := Sends(ticks, cycles, next, gap); s != [] && s[0] >= next
    decreases i
  {
    if i > 0 {
      StoredGapSends(ticks[1..], 0, next, gap, c, i - 1, j - 1);
    } else {
      HeldGapSends(ticks, cycles, next, gap, c, j);
    }
  }

  lemma {:induction false} HeldGapSends(ticks: seq<Tick>, cycles: nat, next: nat, gap: nat, c: nat, j: nat)
    requires c > 0 && j < |ticks| && Seen(ticks[0], cycles) == c && ticks[j].now >= next
    requires forall k | 0 < k < |ticks| :: ticks[k].stored in {None, Some(c)}
    ensures var s := Sends(ticks, cycles, next, gap); s != [] && s[0] >= next
    decreases j
  {
    if ticks[0].now < next {
      HeldGapSends(ticks[1..], c, next, gap, c, j - 1);
    }
  }

  lemma {:induction false} SendsSome(ticks: seq<Tick>, cycles: nat, next: nat, gap: nat, i: nat, j: nat)
    requires gap > 0 && cycles in {0, gap} && Undisturbed(ticks, gap) && Monotone(ticks)
    requires i < j < |ticks| && ticks[i].link && ticks[j].now >= next && ticks[j].now >= ticks[i].now + gap
    ensures Sends(ticks, cycles, next, gap) != []
    decreases i
  {
    var now, seen := ticks[0].now, Seen(ticks[0], cycles);
    if seen == 0 {
      if ticks[0].link {
        ArmedSends(ticks[1..], now + gap, gap, j - 1);
      } else {
        SendsSome(ticks[1..], 0, next, gap, i - 1, j - 1);
      }
    } else if now < next {
      ArmedSends(ticks[1..], next, gap, j - 1);
    }
  }

  /** A loop that sees the link and then the clock pass the gap sends if and only if there is a gap. */
  lemma SendsExactly(ticks: seq<Tick>, next: nat, gap: nat, i: nat, j: nat)
    requires Undisturbed(ticks, gap) && Monotone(ticks)
    requires i < j < |ticks| && ticks[i].link && ticks[j].now >= next && ticks[j].now >= ticks[i].now + gap
    ensures Sends(ticks, 0, next, gap) != [] <==> gap > 0
  {
    if gap > 0 {
      SendsSome(ticks, 0, next, gap, i, j);
    } else {
      NoGapNeverSends(ticks, next);
    }
  }

  lemma GapIsZeroExactly(hz: nat, pps: nat, burst: nat, txcnt: nat)
    requires hz > 0 && burst > 0 && txcnt > 0
    ensures Gap(hz, pps, burst, txcnt) == 0 <==> pps > hz
  {
    if pps > 0 {
      CppBounds(hz, pps);
    }
    var c := Cpp(hz, pps);
    if c > 0 {
      MulLe(1, c, burst);
      MulLe(1, c * burst, txcnt);
    }
  }

  /** The port never sends, with the link up and for however long, if and only if its rate exceeds the clock. */
  lemma NeverSendsExactly(hz: nat, pps: nat, burst: nat, txcnt: nat, ticks: seq<Tick>, next: nat, i: nat, j: nat)
    requires hz > 0 && burst > 0 && txcnt > 0
    requires Undisturbed(ticks, Gap(hz, pps, burst, txcnt)) && Monotone(ticks)
    requires i < j < |ticks| && ticks[i].link && ticks[j].now >= next
    requires ticks[j].now >= ticks[i].now + Gap(hz, pps, burst, txcnt)
    ensures Sends(ticks, 0, next, Gap(hz, pps, burst, txcnt)) == [] <==> pps > hz
  {
    GapIsZeroExactly(hz, pps, burst, txcnt);
    SendsExactly(ticks, next, Gap(hz, pps, burst, txcnt), i, j);
  }

  /** There are such rates: smallest packets on a link of 100 Gbit/s, with a clock of 100 MHz. */
  lemma FastLinkNeverSends(ticks: seq<Tick>, next: nat, burst: nat, txcnt: nat)
    requires burst > 0 && txcnt > 0 && Undisturbed(ticks, 0)
    ensures var pps := Pps(100_000_000_000, 672, 100.0);
            pps > 100_000_000 && Sends(ticks, 0, next, Gap(100_000_000, pps, burst, txcnt)) == []
  {
    var pps := Pps(100_000_000_000, 672, 100.0);
    assert 100_000_000_000 / 672 == 148_809_523;
    assert pps == 148_809_523;
    GapIsZeroExactly(100_000_000, pps, burst, txcnt);
    NoGapNeverSends(ticks, next);
  }

  /** The loop never stops: the clock is not seen a gap past its last burst. */
  lemma {:induction false} SendsOn(ticks: seq<Tick>, cycles: nat, next: nat, gap: nat)
    requires gap > 0 && cycles in {0, gap} && Undisturbed(ticks, gap)
    ensures var s := Sends(ticks, cycles, next, gap); s != [] ==> ticks[|ticks| - 1].now < s[|s| - 1] + gap
    decreases ticks
  {
    if ticks != [] {
      var now, seen := ticks[0].now, Seen(ticks[0], cycles);
      if seen == 0 {
        SendsOn(ticks[1..], if ticks[0].link then gap else 0, if ticks[0].link then now + gap else next, gap);
      } else {
        SendsOn(ticks[1..], gap, if now >= next then now + gap else next, gap);
        if |ticks| > 1 && now >= next && ticks[|ticks| - 1].now >= now + gap {
          ArmedSends(ticks[1..], now + gap, gap, |ticks| - 2);
        }
      }
    }
  }

  lemma {:induction false} SendsSoon(ticks: seq<Tick>, cycles: nat, next: nat, gap: nat, g: nat)
    requires gap > 0 && cycles in {0, gap} && Undisturbed(ticks, gap) && Polled(ticks, g)
    ensures var s := Sends(ticks, cycles, next, gap);
            && Prompt(s, gap + g)
            && (s != [] && Seen(ticks[0], cycles) == gap && ticks[0].now <= next + g ==> s[0] <= next + g)
    decreases ticks
  {
    if ticks != [] {
      var now, seen := ticks[0].now, Seen(ticks[0], cycles);
      if seen == 0 {
        SendsSoon(ticks[1..], if ticks[0].link then gap else 0, if ticks[0].link then now + gap else next, gap, g);
      } else {
        SendsSoon(ticks[1..], gap, if now >= next then now + gap else next, gap, g);
      }
    }
  }

  /**
   * A loop that reads the clock at least every `g` cycles is late by at most that, and whenever
   * the clock has passed the gap since a burst, the next one has been started.
   */
  lemma SendsPrompt(ticks: seq<Tick>, cycles: nat, next: nat, gap: nat, g: nat)
    requires gap > 0 && cycles in {0, gap} && Undisturbed(ticks, gap) && Polled(ticks, g)
    ensures var s := Sends(ticks, cycles, next, gap);
            Prompt(s, gap + g) && (s != [] ==> ticks[|ticks| - 1].now < s[|s| - 1] + gap)
  {
    SendsSoon(ticks, cycles, next, gap, g);
    SendsOn(ticks, cycles, next, gap);
  }

  lemma {:induction false} ArmedOften(ticks: seq<Tick>, next: nat, gap: nat, g: nat)
    requires gap > 0 && Undisturbed(ticks, gap) && Polled(ticks, g) && ticks != [] && ticks[0].now <= next + g
    ensures ticks[|ticks| - 1].now <= next + g + |Sends(ticks, gap, next, gap)| * (gap + g)
    decreases ticks
  {
    var now, s := ticks[0].now, Sends(ticks, gap, next, gap);
    assert |s| * (gap + g) >= 0;
    if now >= next {
      var rest := Sends(ticks[1..], gap, now + gap, gap);
      assert |s| == 1 + |rest|;
      MulSum(1, |rest|, gap + g);
      assert |rest| * (gap + g) >= 0;
      if |ticks| > 1 {
        ArmedOften(ticks[1..], now + gap, gap, g);
      }
    } else if |ticks| > 1 {
      ArmedOften(ticks[1..], next, gap, g);
    }
  }

  /** From a pass with the link up on, a burst is started at least every `gap + g` cycles. */
  lemma SendsOften(ticks: seq<Tick>, cycles: nat, next: nat, gap: nat, g: nat)
    requires gap > 0 && cycles in {0, gap} && Undisturbed(ticks, gap) && Polled(ticks, g)
    requires ticks != [] && ticks[0].link && next <= ticks[0].now + gap
    ensures ticks[|ticks| - 1].now <= ticks[0].now + (|Sends(ticks, cycles, next, gap)| + 1) * (gap + g)
  {
    var now, seen, s := ticks[0].now, Seen(ticks[0], cycles), Sends(ticks, cycles, next, gap);
    MulSum(|s|, 1, gap + g);
    assert |s| * (gap + g) >= 0;
    if |ticks| > 1 {
      if seen == 0 {
        ArmedOften(ticks[1..], now + gap, gap, g);
      } else if now >= next {
        ArmedOften(ticks[1..], now + gap, gap, g);
        MulSum(1, |s| - 1, gap + g);
      } else {
        ArmedOften(ticks[1..], next, gap, g);
      }
    }
  }

  // ----- Throughput of all the queues of a port -----

  /** A burst as it was started. */
  datatype Burst = Burst(at: nat, packets: nat)

  function Times(bs: seq<Burst>): (ts: seq<nat>)
    ensures |ts| == |bs| && forall i | 0 <= i < |bs| :: ts[i] == bs[i].at
  {
    if bs == [] then [] else [bs[0].at] + Times(bs[1..])
  }

  /** The packets of the bursts that a queue starts from `a` on, for `w` cycles. */
  function Started(bs: seq<Burst>, a: nat, w: nat): nat {
    if bs == [] then 0 else (if a <= bs[0].at <= a + w then bs[0].packets else 0) + Started(bs[1..], a, w)
  }

  function StartedByAll(queues: seq<seq<Burst>>, a: nat, w: nat): nat {
    if queues == [] then 0 else Started(queues[0], a, w) + StartedByAll(queues[1..], a, w)
  }

  predicate Paced(bs: seq<Burst>, gap: nat, burst: nat) {
    Spaced(Times(bs), gap) && forall i | 0 <= i < |bs| :: bs[i].packets <= burst
  }

  lemma PacedTail(bs: seq<Burst>, gap: nat, burst: nat)
    requires Paced(bs, gap, burst) && bs != []
    ensures Paced(bs[1..], gap, burst)
    ensures |bs| > 1 ==> bs[0].at + gap <= bs[1].at
  {
    var ts, us := Times(bs), Times(bs[1..]);
    forall i | 0 <= i < |us| - 1
      ensures us[i] + gap <= us[i + 1]
    {
      assert ts[i + 1] + gap <= ts[i + 2];
    }
    if |bs| > 1 {
      assert ts[0] + gap <= ts[1];
    }
  }

  /** After the window nothing counts. */
  lemma {:induction false} StartedLate(bs: seq<Burst>, a: nat, w: nat, gap: nat, burst: nat)
    requires Paced(bs, gap, burst) && (bs != [] ==> bs[0].at > a + w)
    ensures Started(bs, a, w) == 0
  {
    if bs != [] {
      PacedTail(bs, gap, burst);
      StartedLate(bs[1..], a, w, gap, burst);
    }
  }

  lemma MulSum(x: nat, y: nat, g: nat)
    ensures (x + y) * g == x * g + y * g
  {
  }

  lemma MulLe(x: nat, y: nat, g: nat)
    requires x <= y
    ensures x * g <= y * g
  {
  }

  /** One queue: a burst for every gap that fits into the rest of the window, and one more. */
  lemma {:induction false} QueueBound(bs: seq<Burst>, a: nat, w: nat, gap: nat, burst: nat)
    requires Paced(bs, gap, burst) && bs != [] && a <= bs[0].at <= a + w
    ensures Started(bs, a, w) * gap <= burst * (a + w - bs[0].at + gap)
  {
    PacedTail(bs, gap, burst);
    var rest, left := Started(bs[1..], a, w), a + w - bs[0].at;
    MulSum(bs[0].packets, rest, gap);
    MulLe(bs[0].packets, burst, gap);
    if |bs| > 1 && bs[1].at <= a + w {
      QueueBound(bs[1..], a, w, gap, burst);
      BurstFits(rest, gap, burst, a + w - bs[1].at, left);
    } else {
      StartedLate(bs[1..], a, w, gap, burst);
      MulSum(left, gap, burst);
    }
  }

  lemma BurstFits(rest: nat, gap: nat, burst: nat, left: nat, right: nat)
    requires rest * gap <= burst * (left + gap) && left + gap <= right
    ensures rest * gap + burst * gap <= burst * (right + gap)
  {
    MulLe(left + gap, right, burst);
    assert burst * (right + gap) == burst * right + burst * gap;
    assert (left + gap) * burst == burst * (left + gap) && right * burst == burst * right;
  }

  /** A queue in any window, bursts before it left out. */
  lemma {:induction false} WindowBound(bs: seq<Burst>, a: nat, w: nat, gap: nat, burst: nat)
    requires Paced(bs, gap, burst)
    ensures Started(bs, a, w) * gap <= burst * (w + gap)
  {
    if bs == [] {
      assert burst * (w + gap) >= 0;
    } else if bs[0].at < a {
      PacedTail(bs, gap, burst);
      WindowBound(bs[1..], a, w, gap, burst);
    } else {
      if bs[0].at <= a + w {
        QueueBound(bs, a, w, gap, burst);
        MulLe(a + w - bs[0].at + gap, w + gap, burst);
        assert (w + gap) * burst == burst * (w + gap);
        assert (a + w - bs[0].at + gap) * burst == burst * (a + w - bs[0].at + gap);
      } else {
        StartedLate(bs, a, w, gap, burst);
        assert burst * (w + gap) >= 0;
      }
    }
  }

  lemma {:induction false} AllBound(queues: seq<seq<Burst>>, a: nat, w: nat, gap: nat, burst: nat)
    requires forall q | 0 <= q < |queues| :: Paced(queues[q], gap, burst)
    ensures StartedByAll(queues, a, w) * gap <= |queues| * (burst * (w + gap))
  {
    if queues != [] {
      AllBound(queues[1..], a, w, gap, burst);
      WindowBound(queues[0], a, w, gap, burst);
      MulSum(Started(queues[0], a, w), StartedByAll(queues[1..], a, w), gap);
      MulSum(1, |queues| - 1, burst * (w + gap));
    }
  }

  /**
   * In any window of `w` cycles the queues of a port together start at most w / cpp packets, plus
   * one burst for each queue, whatever the phases of their loops.
   */
  lemma ThroughputBound(queues: seq<seq<Burst>>, a: nat, w: nat, cpp: nat, burst: nat)
    requires cpp > 0 && burst > 0 && |queues| > 0
    requires forall q | 0 <= q < |queues| :: Paced(queues[q], cpp * burst * |queues|, burst)
    ensures StartedByAll(queues, a, w) * cpp <= w + |queues| * burst * cpp
  {
    var n, k := StartedByAll(queues, a, w), |queues| * burst;
    var gap := cpp * burst * |queues|;
    AllBound(queues, a, w, gap, burst);
    Regroup(cpp, burst, |queues|, w, n);
    Cancel(n * cpp, w + k * cpp, k);
  }

  lemma Regroup(cpp: nat, burst: nat, txcnt: nat, w: nat, n: nat)
    ensures var k := txcnt * burst;
            && n * (cpp * burst * txcnt) == n * cpp * k
            && txcnt * (burst * (w + cpp * burst * txcnt)) == (w + k * cpp) * k
  {
    var k := txcnt * burst;
    assert cpp * burst * txcnt == cpp * k;
    assert n * (cpp * k) == n * cpp * k;
    assert txcnt * (burst * (w + cpp * k)) == k * (w + cpp * k);
  }

  lemma Cancel(x: nat, y: nat, k: nat)
    requires k > 0 && x * k <= y * k
    ensures x <= y
  {
    if x > y {
      assert (y + 1) * k == y * k + k;
      MulLe(y + 1, x, k);
    }
  }

  /**
   * Over one second: the cut-off division lets the port run faster than the rate it computed, by
   * less than one part in cpp, besides the first burst of every queue.
   */
  lemma PerSecond(queues: seq<seq<Burst>>, a: nat, hz: nat, pps: nat, burst: nat)
    requires 0 < pps <= hz && burst > 0 && |queues| > 0
    requires forall q | 0 <= q < |queues| :: Paced(queues[q], Gap(hz, pps, burst, |queues|), burst)
    ensures StartedByAll(queues, a, hz) * Cpp(hz, pps) < (Cpp(hz, pps) + 1) * pps + |queues| * burst * Cpp(hz, pps)
  {
    CppBounds(hz, pps);
    ThroughputBound(queues, a, hz, Cpp(hz, pps), burst);
  }

  /**
   * Both together: queues that are driven by the loop keep the bound, each with its own clock
   * readings and next time, whether it computes the port's gap or finds it stored.
   */
  lemma PortThroughput(queues: seq<seq<Burst>>, ticks: seq<seq<Tick>>, cycles: seq<nat>, next: seq<nat>,
                       a: nat, w: nat, hz: nat, pps: nat, burst: nat)
    requires |queues| == |ticks| == |cycles| == |next| > 0 && burst > 0
    requires forall q | 0 <= q < |queues| ::
               DrivenBy(queues[q], ticks[q], cycles[q], next[q], Gap(hz, pps, burst, |queues|))
    requires forall q | 0 <= q < |queues| :: Monotone(ticks[q])
    requires forall q | 0 <= q < |queues| :: forall i | 0 <= i < |queues[q]| :: queues[q][i].packets <= burst
    ensures StartedByAll(queues, a, w) * Cpp(hz, pps) <= w + |queues| * burst * Cpp(hz, pps)
  {
    var gap := Gap(hz, pps, burst, |queues|);
    forall q | 0 <= q < |queues|
      ensures Paced(queues[q], gap, burst)
    {
      assert DrivenBy(queues[q], ticks[q], cycles[q], next[q], gap);
      SendsSpaced(ticks[q], cycles[q], next[q], gap);
    }
    if Cpp(hz, pps) > 0 {
      ThroughputBound(queues, a, w, Cpp(hz, pps), burst);
    }
  }

  /** The bursts of a queue are those that the loop starts. */
  predicate DrivenBy(bs: seq<Burst>, ticks: seq<Tick>, cycles: nat, next: nat, gap: nat) {
    cycles in {0, gap} && OneRate(ticks, gap) && Times(bs) == Sends(ticks, cycles, next, gap)
  }

  // ----- The throughput that is reached -----

  function Packets(bs: seq<Burst>): nat {
    if bs == [] then 0 else bs[0].packets + Packets(bs[1..])
  }

  function AllPackets(queues: seq<seq<Burst>>): nat {
    if queues == [] then 0 else Packets(queues[0]) + AllPackets(queues[1..])
  }

  /** A queue that starts full bursts from a pass with the link up on, for at least `w` cycles. */
  predicate Busy(bs: seq<Burst>, ticks: seq<Tick>, cycles: nat, next: nat, gap: nat, burst: nat, g: nat, w: nat) {
    && cycles in {0, gap} && Undisturbed(ticks, gap) && Polled(ticks, g) && Times(bs) == Sends(ticks, cycles, next, gap)
    && (forall i | 0 <= i < |bs| :: bs[i].packets == burst)
    && ticks != [] && ticks[0].link && next <= ticks[0].now + gap && ticks[|ticks| - 1].now >= ticks[0].now + w
  }

  lemma {:induction false} FullBursts(bs: seq<Burst>, burst: nat)
    requires forall i | 0 <= i < |bs| :: bs[i].packets == burst
    ensures Packets(bs) == |bs| * burst
  {
    if bs != [] {
      FullBursts(bs[1..], burst);
      MulSum(1, |bs| - 1, burst);
    }
  }

  /** One queue: a burst for every gap and delay of the time, but for the last one. */
  lemma QueueReaches(bs: seq<Burst>, ticks: seq<Tick>, cycles: nat, next: nat, gap: nat, burst: nat, g: nat, w: nat)
    requires gap > 0 && Busy(bs, ticks, cycles, next, gap, burst, g, w)
    ensures burst * w <= (Packets(bs) + burst) * (gap + g)
  {
    SendsOften(ticks, cycles, next, gap, g);
    FullBursts(bs, burst);
    MulSum(|bs|, 1, burst);
    MulLe(w, (|bs| + 1) * (gap + g), burst);
    Reorder(|bs| + 1, gap + g, burst);
    assert w * burst == burst * w;
  }

  lemma Reorder(x: nat, y: nat, z: nat)
    ensures x * y * z == x * z * y
  {
  }

  lemma {:induction false} AllReach(queues: seq<seq<Burst>>, gap: nat, burst: nat, g: nat, w: nat)
    requires forall q | 0 <= q < |queues| :: burst * w <= (Packets(queues[q]) + burst) * (gap + g)
    ensures |queues| * (burst * w) <= (AllPackets(queues) + |queues| * burst) * (gap + g)
  {
    if queues != [] {
      AllReach(queues[1..], gap, burst, g, w);
      MulSum(1, |queues| - 1, burst * w);
      MulSum(1, |queues| - 1, burst);
      MulSum(Packets(queues[0]) + burst, AllPackets(queues[1..]) + (|queues| - 1) * burst, gap + g);
    }
  }

  lemma AllReachGap(queues: seq<seq<Burst>>, ticks: seq<seq<Tick>>, cycles: seq<nat>, next: seq<nat>, w: nat, gap: nat,
                    burst: nat, g: nat)
    requires |queues| == |ticks| == |cycles| == |next| && gap > 0
    requires forall q | 0 <= q < |queues| :: Busy(queues[q], ticks[q], cycles[q], next[q], gap, burst, g, w)
    ensures |queues| * (burst * w) <= (AllPackets(queues) + |queues| * burst) * (gap + g)
  {
    forall q | 0 <= q < |queues|
      ensures burst * w <= (Packets(queues[q]) + burst) * (gap + g)
    {
      QueueReaches(queues[q], ticks[q], cycles[q], next[q], gap, burst, g, w);
    }
    AllReach(queues, gap, burst, g, w);
  }

  lemma GapPositive(hz: nat, pps: nat, burst: nat, txcnt: nat)
    requires Gap(hz, pps, burst, txcnt) > 0
    ensures burst > 0 && txcnt > 0
  {
  }

  /** A bound in gaps, as a bound at the rate. */
  lemma GapToRate(x: nat, n: nat, gap: nat, g: nat, pps: nat, k: nat)
    requires x <= n * (gap + g) && (pps > 0 ==> gap * pps <= k)
    ensures x * pps <= n * (k + g * pps)
  {
    if pps == 0 {
      assert n * (k + g * pps) >= 0;
      return;
    }
    MulLe(x, n * (gap + g), pps);
    assert n * (gap + g) * pps == n * (gap * pps + g * pps);
    MulLe(gap * pps + g * pps, k + g * pps, n);
  }

  lemma ReachedAtRate(n: nat, w: nat, total: nat, gap: nat, g: nat, hz: nat, pps: nat, burst: nat)
    requires gap == Gap(hz, pps, burst, n) > 0 && n * (burst * w) <= (total + n * burst) * (gap + g)
    ensures n * (burst * w) * pps <= (total + n * burst) * (hz * (burst * n) + g * pps)
  {
    GapPositive(hz, pps, burst, n);
    GapBounds(hz, pps, burst, n);
    GapToRate(n * (burst * w), total + n * burst, gap, g, pps, hz * (burst * n));
  }

  /**
   * The rate is reached: in `w` cycles of a clock with `hz` in a second the queues together start
   * as many packets as the rate allows, but for one burst each and for what the polling delay `g`
   * adds to every gap.
   */
  lemma PortReaches(queues: seq<seq<Burst>>, ticks: seq<seq<Tick>>, cycles: seq<nat>, next: seq<nat>,
                    w: nat, hz: nat, pps: nat, burst: nat, g: nat, gap: nat)
    requires |queues| == |ticks| == |cycles| == |next| && gap == Gap(hz, pps, burst, |queues|) > 0
    requires forall q | 0 <= q < |queues| :: Busy(queues[q], ticks[q], cycles[q], next[q], gap, burst, g, w)
    ensures var n := |queues|;
            n * (burst * w) * pps <= (AllPackets(queues) + n * burst) * (hz * (burst * n) + g * pps)
  {
    AllReachGap(queues, ticks, cycles, next, w, gap, burst, g);
    ReachedAtRate(|queues|, w, AllPackets(queues), gap, g, hz, pps, burst);
  }
}
