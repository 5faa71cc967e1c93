/** The transmit path of one queue as it runs, with what the other queues and the driver do fed in. */
module TxPath {
  import opened Driver
  import opened TxBudget

  // ----- The claim -----

  /** What others do to the counter: queues take from it, a start or prime command stores a new count. */
  datatype Other = Take(n: nat) | Store(count: nat)

  function CountAfter(cnt: nat, ops: seq<Other>): nat
    decreases ops
  {
    if ops == [] then cnt
    else
      match ops[0]
      case Take(n) => CountAfter(cnt - Min(n, cnt), ops[1..])
      case Store(count) => CountAfter(count, ops[1..])
  }

  /** The counter after some of that, and what was taken, stored and overwritten. */
  datatype Balance = Balance(cnt: nat, taken: nat, loaded: nat, dropped: nat, stores: nat)

  function Meanwhile(b: Balance, ops: seq<Other>): (r: Balance)
    ensures r.cnt + r.taken + r.dropped + b.loaded == b.cnt + b.taken + b.dropped + r.loaded
    ensures r.cnt == CountAfter(b.cnt, ops)
    ensures r.taken >= b.taken && r.stores >= b.stores
    ensures r.cnt != b.cnt ==> r.taken + r.stores > b.taken + b.stores
    decreases ops
  {
    if ops == [] then b
    else
      match ops[0]
      case Take(n) => Meanwhile(b.(cnt := b.cnt - Min(n, b.cnt), taken := b.taken + Min(n, b.cnt)), ops[1..])
      case Store(count) =>
        Meanwhile(b.(cnt := count, loaded := b.loaded + count, dropped := b.dropped + b.cnt, stores := b.stores + 1),
                  ops[1..])
  }

  class TxCounter {
    var cnt: nat

    constructor (count: nat)
      ensures cnt == count
    {
      cnt := count;
    }

    /**
     * Claims up to `burst` packets. `others[r]` is what others do between the read and the
     * compare-and-set of round `r`. Nothing is lost, a claim is short only when it empties the
     * counter, and every round that fails has seen a packet taken or a count stored.
     */
    method TxCount(burst: nat, others: seq<seq<Other>>) returns (claim: nat, ghost b: Balance, rounds: nat)
      requires burst > 0
      modifies this
      ensures b.cnt == cnt + claim && old(cnt) + b.loaded == cnt + claim + b.taken + b.dropped
      ensures claim <= burst && (claim < burst ==> cnt == 0)
      ensures 1 <= rounds <= b.taken + b.stores + 1
      ensures others == [] ==> b == Balance(old(cnt), 0, 0, 0, 0)
    {
      claim, rounds, b := 0, 0, Balance(cnt, 0, 0, 0, 0);
      var success := false;
      while !success
        invariant b.cnt == cnt + claim && old(cnt) + b.loaded == b.cnt + b.taken + b.dropped && claim <= burst
        invariant success ==> 1 <= rounds <= b.taken + b.stores + 1 && (claim < burst ==> cnt == 0)
        invariant !success ==> claim == 0 && rounds <= b.taken + b.stores && rounds <= |others|
        invariant others == [] ==> b == Balance(old(cnt), 0, 0, 0, 0)
        decreases !success, |others| - rounds
      {
        var tmp1 := cnt;
        rounds := rounds + 1;
        if tmp1 == 0 {
          return;
        }
        var tmp2 := if tmp1 > burst then burst else tmp1;
        if rounds <= |others| {
          b := Meanwhile(b, others[rounds - 1]);
          cnt := CountAfter(cnt, others[rounds - 1]);
        }
        if cnt == tmp1 {
          cnt := tmp1 - tmp2;
          claim := tmp2;
          success := true;
        }
      }
    }
  }

  // ----- The table -----

  /** Whether filling the table behind `waiting` packets, from a pool of `pool`, stays inside it. */
  predicate StaysInside(claim: nat, waiting: nat, burst: nat, pool: nat) {
    waiting <= claim || waiting + Min(burst, pool) <= MAX_BURST
  }

  /** The exact condition for a fill that does not write past the table. */
  lemma FillStaysInside(claim: nat, waiting: nat, burst: nat, pool: nat)
    requires 1 <= claim <= burst <= MAX_BURST && waiting <= MAX_BURST
    ensures waiting + Min(ToAllocate(claim, waiting, burst), pool) <= MAX_BURST <==>
            StaysInside(claim, waiting, burst, pool)
  {
    AllocationIsExact(claim, waiting, burst);
  }

  class TxQueue {
    /** The packets of the queue's table, `len` of them waiting. */
    const table: array<nat>
    var len: nat
    /** What the driver took, in order, and what was given up when sending was switched off. */
    var sent: seq<nat>
    var abandoned: seq<nat>

    ghost predicate Valid()
      reads this
    {
      table.Length == MAX_BURST && len <= MAX_BURST
    }

    function Waiting(): seq<nat>
      requires len <= table.Length
      reads this, table
    {
      table[..len]
    }

    constructor ()
      ensures Valid() && len == 0 && sent == [] && abandoned == [] && fresh(table)
    {
      table := new nat[MAX_BURST];
      len, sent, abandoned := 0, [], [];
    }

    /** Empties the table into the driver, which takes `driver[t]` in turn `t`; then sending goes off. */
    method SendBurst(driver: seq<nat>)
      requires Valid()
      modifies this
      ensures Valid() && len == 0
      ensures var t, w := Taken(old(len), driver), old(Waiting());
              sent == old(sent) + w[..t] && abandoned == old(abandoned) + w[t..]
    {
      ghost var w := Waiting();
      var cnt: nat, pkts: nat := len, 0;
      if cnt == 0 {
        return;
      }
      len := 0;
      var turn := 0;
      while cnt > 0 && turn < |driver|
        invariant 0 <= turn <= |driver| && len == 0 && pkts + cnt == |w| <= table.Length && w == table[..|w|]
        invariant pkts + Taken(cnt, driver[turn..]) == Taken(|w|, driver)
        invariant sent == old(sent) + w[..pkts] && abandoned == old(abandoned)
        decreases |driver| - turn
      {
        assert driver[turn..][1..] == driver[turn + 1..];
        var ret := if driver[turn] < cnt then driver[turn] else cnt;
        assert w[..pkts] + table[pkts..pkts + ret] == w[..pkts + ret];
        sent := sent + table[pkts..pkts + ret];
        pkts := pkts + ret;
        cnt := cnt - ret;
        turn := turn + 1;
      }
      assert w[pkts..] == table[pkts..pkts + cnt];
      abandoned := abandoned + table[pkts..pkts + cnt];
    }

    /** A single packet waits until there is a burst: afterwards less than a burst waits. */
    method SendMbuf(m: nat, burst: nat, driver: seq<nat>)
      requires Valid() && 1 <= burst <= MAX_BURST && len < MAX_BURST
      modifies this, table
      ensures Valid() && len < burst
      ensures old(len) + 1 < burst ==>
                Waiting() == old(Waiting()) + [m] && sent == old(sent) && abandoned == old(abandoned)
      ensures old(len) + 1 >= burst ==>
                var w, t := old(Waiting()) + [m], Taken(old(len) + 1, driver);
                len == 0 && sent == old(sent) + w[..t] && abandoned == old(abandoned) + w[t..]
    {
      table[len] := m;
      len := len + 1;
      assert Waiting() == old(Waiting()) + [m];
      if len >= burst {
        SendBurst(driver);
      }
    }

    /** The pool's packets go behind those that wait. */
    method Fill(pkts: seq<nat>)
      requires Valid() && len + |pkts| <= MAX_BURST
      modifies this`len, table
      ensures Valid() && Waiting() == old(Waiting()) + pkts
    {
      var idx := 0;
      while idx < |pkts|
        invariant 0 <= idx <= |pkts| && len == old(len)
        invariant table[..len + idx] == old(Waiting()) + pkts[..idx]
      {
        table[len + idx] := pkts[idx];
        idx := idx + 1;
      }
      len := len + |pkts|;
    }

    /**
     * One round: claim, fill the table, send. `pool` is the packets that the pool can still give.
     * A round that would write past the table ends there, with `overrun`; in every other round
     * what waited and what was allocated is sent or given up, in order, and adds up to the claim
     * and the shortfall. More is sent than was claimed exactly when more waited than that.
     */
    method SendPkts(count: TxCounter, forever: bool, burst: nat, others: seq<seq<Other>>, pool: seq<nat>,
                    driver: seq<nat>)
      returns (claim: nat, got: nat, overrun: bool, ghost b: Balance)
      requires Valid() && 1 <= burst <= MAX_BURST
      modifies this, table, count
      ensures Valid() && claim <= burst && got <= |pool|
      ensures if forever then claim == burst && count.cnt == old(count.cnt)
              else old(count.cnt) + b.loaded == count.cnt + claim + b.taken + b.dropped
                   && (claim < burst ==> count.cnt == 0)
      ensures !forever && others == [] ==> b == Balance(old(count.cnt), 0, 0, 0, 0)
      ensures got == Min(if claim == 0 then 0 else if old(len) <= claim then claim - old(len) else burst, |pool|)
      ensures overrun <==> claim > 0 && !StaysInside(claim, old(len), burst, |pool|)
      ensures !overrun ==>
                var w := old(Waiting()) + pool[..got];
                var t := Taken(|w|, driver);
                len == 0 && sent == old(sent) + w[..t] && abandoned == old(abandoned) + w[t..]
      ensures !overrun ==>
                |sent| + |abandoned| == old(|sent| + |abandoned|) + old(len) + got
                && (claim > 0 && |pool| >= burst && old(len) <= claim ==> old(len) + got == claim)
                && (old(len) + got > claim <==> old(len) > claim)
    {
      got, overrun, b := 0, false, Balance(count.cnt, 0, 0, 0, 0);
      if forever {
        claim := burst;
      } else {
        var rounds;
        claim, b, rounds := count.TxCount(burst, others);
        if claim == 0 {
          assert Waiting() + pool[..0] == Waiting();
          SendBurst(driver);
          return;
        }
      }
      var txLen := len;
      AllocationIsExact(claim, txLen, burst);
      FillStaysInside(claim, txLen, burst, |pool|);
      var cnt := (claim - txLen) % 0x1_0000;
      if cnt > burst {
        cnt := burst;
      }
      got := Min(cnt, |pool|);
      if txLen + got > MAX_BURST {
        overrun := true;
        return;
      }
      Fill(pool[..got]);
      SendBurst(driver);
    }
  }

  /**
   * The fill can leave the table: ten single packets wait, five packets are left to send, and the
   * wrapped subtraction asks for a whole burst behind the ten.
   */
  method OverrunHappens(pool: seq<nat>) returns (overrun: bool)
    requires |pool| >= MAX_BURST
    ensures overrun
  {
    var queue := new TxQueue();
    var i := 0;
    while i < 10
      invariant 0 <= i <= 10 && queue.Valid() && queue.len == i && fresh(queue) && fresh(queue.table)
    {
      queue.SendMbuf(i, MAX_BURST, []);
      i := i + 1;
    }
    var count := new TxCounter(5);
    var claim, got;
    ghost var b;
    claim, got, overrun, b := queue.SendPkts(count, false, MAX_BURST, [], pool, []);
  }
}
