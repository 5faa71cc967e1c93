/** The random-bitfield settings of a port, and the burst loop that applies them before every attempt to send. */
module RandomBits {
  import opened Words
  import opened Bitfields
  import opened Driver

  // ----- Bits of the active-spec vector -----

  lemma BitOfIndex(idx: nat, k: nat)
    requires idx < 32 && k < 32
    ensures On(Shl(ONE, idx), k) <==> k == idx
  {
  }

  lemma BitOff(w: Word, idx: nat)
    requires idx < 32
    ensures forall k | 0 <= k < 32 :: On(And(w, Not(Shl(ONE, idx))), k) <==> k != idx && On(w, k)
  {
    forall k | 0 <= k < 32
      ensures On(And(w, Not(Shl(ONE, idx))), k) <==> k != idx && On(w, k)
    {
      BitOfIndex(idx, k);
    }
  }

  lemma BitOn(w: Word, idx: nat)
    requires idx < 32
    ensures forall k | 0 <= k < 32 :: On(Or(w, Shl(ONE, idx)), k) <==> k == idx || On(w, k)
  {
    forall k | 0 <= k < 32
      ensures On(Or(w, Shl(ONE, idx)), k) <==> k == idx || On(w, k)
    {
      BitOfIndex(idx, k);
    }
  }

  lemma ShiftOnce(w: Word, k: nat)
    requires k < 32
    ensures Shr(Shr(w, k), 1) == Shr(w, k + 1)
  {
  }

  lemma ShrBit(w: Word, k: nat)
    requires k < 32
    ensures Shr(w, k)[31] == On(w, k)
  {
  }

  /** Once nothing is left of the vector no later spec is active. */
  lemma {:induction false} NothingLeft(p: seq<Byte>, specs: seq<Spec>, active: Word, k: nat, rnd: Source, n: nat)
    requires k <= MAX_RND_BITFIELDS && AllInRange(specs, active, p) && Shr(active, k) == Zeros(32)
    ensures ApplyFrom(p, specs, active, k, rnd, n) == p
    ensures DrawCount(specs, active, k, MAX_RND_BITFIELDS) == 0
    decreases MAX_RND_BITFIELDS - k
  {
    if k < MAX_RND_BITFIELDS {
      ShrBit(active, k);
      ShiftOnce(active, k);
      assert Shr(Zeros(32), 1) == Zeros(32);
      NothingLeft(p, specs, active, k + 1, rnd, n);
    }
  }

  /** The scan is before index `k`, with `left` still to look at, `p` and `n` so far, `goal` and `total` in sight. */
  ghost predicate Scanning(left: Word, p: seq<Byte>, specs: seq<Spec>, active: Word, k: nat, rnd: Source, n: nat,
                           goal: seq<Byte>, total: nat)
  {
    && k <= MAX_RND_BITFIELDS && left == Shr(active, k) && AllInRange(specs, active, p)
    && goal == ApplyFrom(p, specs, active, k, rnd, n)
    && total == n + DrawCount(specs, active, k, MAX_RND_BITFIELDS)
  }

  lemma ScanNext(left: Word, p: seq<Byte>, specs: seq<Spec>, active: Word, k: nat, rnd: Source, n: nat,
                 goal: seq<Byte>, total: nat)
    returns (left': Word, p': seq<Byte>, n': nat)
    requires Scanning(left, p, specs, active, k, rnd, n, goal, total) && left != Zeros(32)
    ensures k < MAX_RND_BITFIELDS && left[31] == On(active, k) && AllInRange(specs, active, p)
    ensures left' == Shr(left, 1) && p' == Step(p, specs, active, k, rnd, n) && n' == n + Cost(specs, active, k)
    ensures Scanning(left', p', specs, active, k + 1, rnd, n', goal, total)
  {
    left', p', n' := Shr(left, 1), Step(p, specs, active, k, rnd, n), n + Cost(specs, active, k);
    ShrBit(active, k);
    ShiftOnce(active, k);
  }

  // ----- Memory -----

  lemma StoreOver(p: seq<Byte>, at: nat, v: Word, w: Word)
    requires at + 4 <= |p|
    ensures Load(Store(p, at, v), at) == v
    ensures Store(Store(p, at, v), at, w) == Store(p, at, w)
  {
  }

  method StoreWord(pkt: array<Byte>, at: nat, w: Word)
    requires at + 4 <= pkt.Length
    modifies pkt
    ensures pkt[..] == Store(old(pkt[..]), at, w)
  {
    pkt[at] := w[24..];
    pkt[at + 1] := w[16..24];
    pkt[at + 2] := w[8..16];
    pkt[at + 3] := w[..8];
  }

  lemma OrNothing(w: Word, x: Word)
    ensures Or(w, And(x, Zeros(32))) == w
  {
  }

  lemma FoldNext(t: string, i: nat, c: Kind)
    requires i < |t|
    ensures Fold(t[..i + 1], c) == Push(Fold(t[..i], c), KindOf(t[i]) == c)
  {
    assert t[..i + 1][..i] == t[..i];
  }

  /** The three masks so far: one of them gets the new bit. */
  method PushChar(c: char, mask0: Word, mask1: Word, maskRnd: Word)
    returns (known: bool, m0: Word, m1: Word, mRnd: Word)
    ensures known <==> c in "01.xX"
    ensures known ==> m0 == Push(mask0, KindOf(c) == Clear) && m1 == Push(mask1, KindOf(c) == Set)
    ensures known ==> mRnd == Push(maskRnd, KindOf(c) == Random)
  {
    known, m0, m1, mRnd := true, Shl(mask0, 1), Shl(mask1, 1), Shl(maskRnd, 1);
    match c {
      case '0' => m0 := Inc(m0);
      case '1' => m1 := Inc(m1);
      case '.' =>
      case 'x' => mRnd := Inc(mRnd);
      case 'X' => mRnd := Inc(mRnd);
      case _ => known := false;
    }
  }

  /** The masks after the first `i` characters of a template. */
  predicate Scanned(mask: string, i: nat, mask0: Word, mask1: Word, maskRnd: Word)
    requires i <= |mask|
  {
    mask0 == Fold(mask[..i], Clear) && mask1 == Fold(mask[..i], Set) && maskRnd == Fold(mask[..i], Random)
  }

  lemma ScannedNext(mask: string, i: nat, mask0: Word, mask1: Word, maskRnd: Word)
    returns (m0: Word, m1: Word, mRnd: Word)
    requires i < |mask| && Scanned(mask, i, mask0, mask1, maskRnd)
    ensures m0 == Push(mask0, KindOf(mask[i]) == Clear) && m1 == Push(mask1, KindOf(mask[i]) == Set)
    ensures mRnd == Push(maskRnd, KindOf(mask[i]) == Random) && Scanned(mask, i + 1, m0, m1, mRnd)
  {
    FoldNext(mask, i, Clear);
    FoldNext(mask, i, Set);
    FoldNext(mask, i, Random);
    m0, m1 := Fold(mask[..i + 1], Clear), Fold(mask[..i + 1], Set);
    mRnd := Fold(mask[..i + 1], Random);
  }

  /** Reads a template from left to right, shifting the masks and filling them at the right. */
  method Scan(mask: string) returns (known: bool, mask0: Word, mask1: Word, maskRnd: Word)
    ensures known <==> forall j | 0 <= j < |mask| :: mask[j] in "01.xX"
    ensures known ==> mask0 == Fold(mask, Clear) && mask1 == Fold(mask, Set) && maskRnd == Fold(mask, Random)
  {
    known, mask0, mask1, maskRnd := true, Zeros(32), Zeros(32), Zeros(32);
    var i := 0;
    while i < |mask|
      invariant 0 <= i <= |mask| && Scanned(mask, i, mask0, mask1, maskRnd)
      invariant known && forall j | 0 <= j < i :: mask[j] in "01.xX"
    {
      ghost var m0, m1, mRnd := ScannedNext(mask, i, mask0, mask1, maskRnd);
      known, mask0, mask1, maskRnd := PushChar(mask[i], mask0, mask1, maskRnd);
      if !known {
        return;
      }
      i := i + 1;
    }
    assert mask[..i] == mask;
  }

  class RndBits {
    var active: Word
    const specs: array<Spec>
    ghost var rules: seq<Rule>

    ghost predicate Valid()
      reads this, specs
    {
      specs.Length == MAX_RND_BITFIELDS && Settings(specs[..], rules, active)
    }

    /** Every bitfield is set to an unknown template, which is refused, and then switched off. */
    constructor ()
      ensures Valid() && fresh(specs)
      ensures forall k | 0 <= k < MAX_RND_BITFIELDS :: !On(active, k)
    {
      active := Zeros(32);
      specs := new Spec[MAX_RND_BITFIELDS];
      rules := Blank(MAX_RND_BITFIELDS);
      new;
      var i := 0;
      while i < MAX_RND_BITFIELDS
        invariant 0 <= i <= MAX_RND_BITFIELDS && Valid() && fresh(specs)
        invariant forall k | 0 <= k < MAX_RND_BITFIELDS :: !On(active, k)
      {
        var _ := SetField(i, 0, "????????????????????????????????");
        var _ := SetField(i, 0, "");
        i := i + 1;
      }
    }

    /**
     * Compiles `mask` into bitfield `idx`. An index or a mask out of range and an unknown character
     * change nothing; an empty mask switches the bitfield off.
     */
    method SetField(idx: Octet, offset: Octet, mask: string) returns (result: Word)
      requires Valid()
      modifies this, specs
      ensures Valid() && result == active
      ensures idx >= MAX_RND_BITFIELDS || !IsTemplate(mask) ==>
                active == old(active) && specs[..] == old(specs[..]) && rules == old(rules)
      ensures idx < MAX_RND_BITFIELDS && mask == "" ==>
                specs[..] == old(specs[..]) && rules == old(rules)
                && forall k | 0 <= k < MAX_RND_BITFIELDS :: On(active, k) <==> k != idx && old(On(active, k))
      ensures idx < MAX_RND_BITFIELDS && mask != "" && IsTemplate(mask) ==>
                specs[..] == old(specs[..])[idx := Compile(Rule(offset, mask))]
                && rules == old(rules)[idx := Rule(offset, mask)]
                && forall k | 0 <= k < MAX_RND_BITFIELDS :: On(active, k) <==> k == idx || old(On(active, k))
    {
      if idx >= MAX_RND_BITFIELDS {
        return active;
      }
      if |mask| > MAX_BITFIELD_SIZE {
        return active;
      }
      if |mask| == 0 {
        BitOff(active, idx);
        active := And(active, Not(Shl(ONE, idx)));
        return active;
      }

      var known, mask0, mask1, maskRnd := Scan(mask);
      if !known {
        return active;
      }
      var padLen := MAX_BITFIELD_SIZE - |mask|;
      mask0, mask1, maskRnd := Shl(mask0, padLen), Shl(mask1, padLen), Shl(maskRnd, padLen);
      BitOn(active, idx);
      active := Or(active, Shl(ONE, idx));
      specs[idx] := Spec(offset, Swap(Not(Or(mask0, maskRnd))), Swap(mask1), Swap(maskRnd));
      rules := rules[idx := Rule(offset, mask)];
      CompileRealises(Rule(offset, mask));
      return active;
    }

    /** Applies the active bitfields to one packet in place; `n` counts the values drawn so far. */
    method ApplyOne(pkt: array<Byte>, rnd: Source, n: nat) returns (drawn: nat)
      requires AllInRange(specs[..], active, pkt[..])
      modifies pkt
      ensures pkt[..] == ApplyFrom(old(pkt[..]), specs[..], active, 0, rnd, n)
      ensures drawn == n + DrawCount(specs[..], active, 0, MAX_RND_BITFIELDS)
    {
      ghost var ss, on, cur, used := specs[..], active, pkt[..], n;
      ghost var goal, total := ApplyFrom(cur, ss, on, 0, rnd, n), n + DrawCount(ss, on, 0, MAX_RND_BITFIELDS);
      var left, k := active, 0;
      drawn := n;
      while left != Zeros(32)
        invariant 0 <= k <= MAX_RND_BITFIELDS && ss == specs[..] && on == active && cur == pkt[..] && used == drawn
        invariant Scanning(left, cur, ss, on, k, rnd, used, goal, total)
        decreases MAX_RND_BITFIELDS - k
      {
        ghost var left', cur', used' := ScanNext(left, cur, ss, on, k, rnd, used, goal, total);
        drawn := Visit(left[31], k, pkt, rnd, drawn);
        left, k := Shr(left, 1), k + 1;
        cur, used := cur', used';
      }
      NothingLeft(cur, ss, on, k, rnd, used);
    }

    /** One round of the scan: `hit` is the lowest bit left of the vector. */
    method Visit(hit: bool, k: nat, pkt: array<Byte>, rnd: Source, n: nat) returns (drawn: nat)
      requires k < MAX_RND_BITFIELDS && hit == On(active, k) && AllInRange(specs[..], active, pkt[..])
      modifies pkt
      ensures pkt[..] == Step(old(pkt[..]), specs[..], active, k, rnd, n)
      ensures drawn == n + Cost(specs[..], active, k)
    {
      drawn := n;
      if hit {
        drawn := Merged(specs[k], pkt, rnd, drawn);
      }
    }

    /** One bitfield on one packet: clear, set, and only then the random bits, if there are any. */
    method Merged(s: Spec, pkt: array<Byte>, rnd: Source, n: nat) returns (drawn: nat)
      requires InRange(s, pkt[..])
      modifies pkt
      ensures pkt[..] == Patch(old(pkt[..]), s, Drawn(s, rnd, n))
      ensures drawn == n + if Draws(s) then 1 else 0
    {
      ghost var p := pkt[..];
      var w := And(Load(pkt[..], s.offset), s.andMask);
      StoreWord(pkt, s.offset, w);
      StoreOver(p, s.offset, w, Or(w, s.orMask));
      w := Or(Load(pkt[..], s.offset), s.orMask);
      StoreWord(pkt, s.offset, w);
      drawn := n;
      if s.rndMask != Zeros(32) {
        var value := And(rnd(drawn), s.rndMask);
        drawn := drawn + 1;
        StoreOver(p, s.offset, w, Or(w, value));
        StoreWord(pkt, s.offset, Or(Load(pkt[..], s.offset), value));
      } else {
        OrNothing(w, Zeros(32));
      }
    }
  }

  function Blank(n: nat): (r: seq<Rule>)
    ensures |r| == n
  {
    if n == 0 then [] else Blank(n - 1) + [Rule(0, "")]
  }

  // ----- Sending -----

  /** Room for a bitfield at any offset, which every packet buffer has. */
  const ROOM := 255 + 4

  predicate Buffers(pkts: seq<array<Byte>>) {
    && (forall i, j | 0 <= i < j < |pkts| :: pkts[i] != pkts[j])
    && forall i | 0 <= i < |pkts| :: pkts[i].Length >= ROOM
  }

  predicate AllRoomy(ps: seq<seq<Byte>>) {
    forall i | 0 <= i < |ps| :: |ps[i]| >= ROOM
  }

  /** The burst's packets `ps` after their bitfields are set, the first one with the values from `n` on. */
  function Applied(ps: seq<seq<Byte>>, specs: seq<Spec>, active: Word, rnd: Source, n: nat): (rs: seq<seq<Byte>>)
    requires |specs| == MAX_RND_BITFIELDS && AllRoomy(ps)
    ensures |rs| == |ps|
  {
    if ps == [] then []
    else
      [ApplyFrom(ps[0], specs, active, 0, rnd, n)]
      + Applied(ps[1..], specs, active, rnd, n + DrawCount(specs, active, 0, MAX_RND_BITFIELDS))
  }

  lemma Roomy(specs: seq<Spec>, active: Word, p: seq<Byte>)
    requires |specs| == MAX_RND_BITFIELDS && |p| >= ROOM
    ensures AllInRange(specs, active, p)
  {
  }

  lemma OutcomeByIndex(was: bool, specs: seq<Spec>, rules: seq<Rule>, active: Word, rnd: Source, n: nat, i: nat,
                       m: nat, q: nat)
    requires |specs| == |rules| == MAX_RND_BITFIELDS
    requires m == n + PacketDraws(DrawCount(specs, active, 0, MAX_RND_BITFIELDS), i)
    ensures var d := Decider(rules, active, 0, q);
            Outcome(was, specs, rules, active, 0, rnd, m, q) ==
            Decided(rules, d, q, was, if d == -1 then Zeros(32) else rnd(DrawIndex(specs, active, n, i, d)))
  {
  }

  /**
   * Every bit of every packet of a burst: the deciding bitfield decides it, an X with the value of
   * the generator that has its index.
   */
  lemma BurstBits(ps: seq<seq<Byte>>, specs: seq<Spec>, rules: seq<Rule>, active: Word, rnd: Source, n: nat,
                  i: nat, q: nat)
    requires Settings(specs, rules, active) && AllRoomy(ps)
    requires i < |ps| && q < 8 * |ps[i]|
    ensures var d, r := Decider(rules, active, 0, q), Applied(ps, specs, active, rnd, n)[i];
            |r| == |ps[i]| && PacketBit(r, q) ==
            Decided(rules, d, q, PacketBit(ps[i], q),
                    if d == -1 then Zeros(32) else rnd(DrawIndex(specs, active, n, i, d)))
  {
    var goal := Applied(ps, specs, active, rnd, n);
    var _, _ := StartServing(ps, specs, active, rnd, n);
    var m := ServingAt(goal, ps, i, specs, active, rnd, n);
    var _ := ServeNext(goal, ps, i, specs, active, rnd, m);
    FinalBits(ps[i], specs, rules, active, 0, rnd, m, q);
    OutcomeByIndex(PacketBit(ps[i], q), specs, rules, active, rnd, n, i, m, q);
  }

  /** And no other bitfield and no other packet uses that value. */
  lemma OwnDraw(specs: seq<Spec>, rules: seq<Rule>, active: Word, n: nat, i: nat, q: nat, j: nat, e: nat)
    requires Settings(specs, rules, active) && RandomAt(rules, active, q)
    requires e < MAX_RND_BITFIELDS && On(active, e) && Draws(specs[e])
    ensures var d := Decider(rules, active, 0, q);
            DrawIndex(specs, active, n, i, d) == DrawIndex(specs, active, n, j, e) <==> i == j && d == e
  {
    var d := Decider(rules, active, 0, q);
    RandomDraws(specs[d], rules[d], q);
    DrawsDiffer(specs, active, n, i, d, j, e);
  }

  function Contents(pkts: seq<array<Byte>>): (ps: seq<seq<Byte>>)
    reads pkts
    ensures |ps| == |pkts| && forall i | 0 <= i < |pkts| :: ps[i] == pkts[i][..]
  {
    if pkts == [] then [] else [pkts[0][..]] + Contents(pkts[1..])
  }

  lemma {:induction false} NothingApplied(ps: seq<seq<Byte>>, specs: seq<Spec>, active: Word, rnd: Source, n: nat)
    requires |specs| == MAX_RND_BITFIELDS && AllRoomy(ps)
    requires active == Zeros(32)
    ensures Applied(ps, specs, active, rnd, n) == ps
  {
    if ps != [] {
      NothingLeft(ps[0], specs, active, 0, rnd, n);
      NothingApplied(ps[1..], specs, active, rnd, n);
    }
  }

  lemma {:induction false} NothingDrawn(specs: seq<Spec>, active: Word, k: nat)
    requires k <= |specs| == MAX_RND_BITFIELDS && active == Zeros(32)
    ensures DrawCount(specs, active, k, MAX_RND_BITFIELDS) == 0
    decreases MAX_RND_BITFIELDS - k
  {
    if k < MAX_RND_BITFIELDS {
      NothingDrawn(specs, active, k + 1);
    }
  }

  /** The packets `ps` are to become `goal`; those from `i` on are still to come, `n` values having been drawn. */
  ghost predicate Serving(goal: seq<seq<Byte>>, ps: seq<seq<Byte>>, i: nat, specs: seq<Spec>, active: Word,
                          rnd: Source, n: nat)
  {
    && |specs| == MAX_RND_BITFIELDS && AllRoomy(ps)
    && i <= |ps| == |goal| && goal[i..] == Applied(ps[i..], specs, active, rnd, n)
  }

  lemma StartServing(ps: seq<seq<Byte>>, specs: seq<Spec>, active: Word, rnd: Source, n: nat)
    returns (goal: seq<seq<Byte>>, each: nat)
    requires |specs| == MAX_RND_BITFIELDS && AllRoomy(ps)
    ensures goal == Applied(ps, specs, active, rnd, n) && each == DrawCount(specs, active, 0, MAX_RND_BITFIELDS)
    ensures Serving(goal, ps, 0, specs, active, rnd, n)
  {
    goal, each := Applied(ps, specs, active, rnd, n), DrawCount(specs, active, 0, MAX_RND_BITFIELDS);
    assert goal[0..] == goal && ps[0..] == ps;
  }

  lemma ServeNext(goal: seq<seq<Byte>>, ps: seq<seq<Byte>>, i: nat, specs: seq<Spec>, active: Word, rnd: Source, n: nat)
    returns (n': nat)
    requires Serving(goal, ps, i, specs, active, rnd, n) && i < |ps|
    ensures |specs| == MAX_RND_BITFIELDS && AllInRange(specs, active, ps[i])
    ensures n' == n + DrawCount(specs, active, 0, MAX_RND_BITFIELDS)
    ensures i < |goal| && goal[i] == ApplyFrom(ps[i], specs, active, 0, rnd, n)
    ensures Serving(goal, ps, i + 1, specs, active, rnd, n')
  {
    n' := n + DrawCount(specs, active, 0, MAX_RND_BITFIELDS);
    assert goal[i] == goal[i..][0];
    assert goal[i + 1..] == goal[i..][1..];
    assert ps[i + 1..] == ps[i..][1..];
  }

  /** When packet `i` is served, each one before it has drawn its values. */
  lemma {:induction false} ServingAt(goal: seq<seq<Byte>>, ps: seq<seq<Byte>>, i: nat, specs: seq<Spec>, active: Word,
                                     rnd: Source, n: nat)
    returns (m: nat)
    requires Serving(goal, ps, 0, specs, active, rnd, n) && i <= |ps|
    ensures |specs| == MAX_RND_BITFIELDS && Serving(goal, ps, i, specs, active, rnd, m)
    ensures m == n + PacketDraws(DrawCount(specs, active, 0, MAX_RND_BITFIELDS), i)
  {
    if i == 0 {
      m := n;
    } else {
      var m' := ServingAt(goal, ps, i - 1, specs, active, rnd, n);
      m := ServeNext(goal, ps, i - 1, specs, active, rnd, m');
    }
  }

  /** The packets before `i` are as they are to become, the others as they were. */
  ghost predicate Served(pkts: seq<array<Byte>>, goal: seq<seq<Byte>>, ps: seq<seq<Byte>>, i: nat)
    reads pkts
  {
    && Buffers(pkts) && |pkts| == |goal| == |ps|
    && forall j | 0 <= j < |pkts| :: pkts[j][..] == if j < i then goal[j] else ps[j]
  }

  lemma AllServed(pkts: seq<array<Byte>>, goal: seq<seq<Byte>>, ps: seq<seq<Byte>>)
    requires Served(pkts, goal, ps, |pkts|)
    ensures Contents(pkts) == goal
  {
  }

  /** Packet `i` of the burst. */
  method ServeOne(bits: RndBits, pkt: array<Byte>, rnd: Source, n: nat, ghost goal: seq<seq<Byte>>,
                  ghost ps: seq<seq<Byte>>, ghost i: nat) returns (drawn: nat)
    requires Serving(goal, ps, i, bits.specs[..], bits.active, rnd, n) && i < |ps| && pkt[..] == ps[i]
    modifies pkt
    ensures i < |goal| && pkt[..] == goal[i]
    ensures drawn == n + DrawCount(bits.specs[..], bits.active, 0, MAX_RND_BITFIELDS)
    ensures Serving(goal, ps, i + 1, bits.specs[..], bits.active, rnd, drawn)
  {
    ghost var ss, on := bits.specs[..], bits.active;
    ghost var used := ServeNext(goal, ps, i, ss, on, rnd, n);
    drawn := bits.ApplyOne(pkt, rnd, n);
    assert bits.specs[..] == ss && drawn == used;
  }

  method ServeAt(bits: RndBits, pkts: seq<array<Byte>>, rnd: Source, n: nat, ghost goal: seq<seq<Byte>>,
                 ghost ps: seq<seq<Byte>>, i: nat) returns (drawn: nat)
    requires Serving(goal, ps, i, bits.specs[..], bits.active, rnd, n) && i < |ps| && Served(pkts, goal, ps, i)
    modifies pkts[i]
    ensures drawn == n + DrawCount(bits.specs[..], bits.active, 0, MAX_RND_BITFIELDS)
    ensures Serving(goal, ps, i + 1, bits.specs[..], bits.active, rnd, drawn) && Served(pkts, goal, ps, i + 1)
  {
    drawn := ServeOne(bits, pkts[i], rnd, n, goal, ps, i);
  }

  /** The loop over the packets of a burst. */
  method ApplyEach(bits: RndBits, pkts: seq<array<Byte>>, rnd: Source, n: nat) returns (drawn: nat)
    requires Buffers(pkts) && bits.specs.Length == MAX_RND_BITFIELDS
    modifies pkts
    ensures Contents(pkts) == Applied(old(Contents(pkts)), bits.specs[..], bits.active, rnd, n)
    ensures drawn == n + PacketDraws(DrawCount(bits.specs[..], bits.active, 0, MAX_RND_BITFIELDS), |pkts|)
  {
    ghost var ps, ss, on := Contents(pkts), bits.specs[..], bits.active;
    ghost var goal, each := StartServing(ps, ss, on, rnd, n);
    drawn := n;
    var i := 0;
    while i < |pkts|
      invariant 0 <= i <= |pkts| && drawn == n + PacketDraws(each, i)
      invariant bits.specs[..] == ss && bits.active == on
      invariant Serving(goal, ps, i, ss, on, rnd, drawn) && Served(pkts, goal, ps, i)
    {
      drawn := ServeAt(bits, pkts, rnd, drawn, goal, ps, i);
      i := i + 1;
    }
    AllServed(pkts, goal, ps);
  }

  /** Applies the active bitfields to a burst of packets in place. */
  method ApplyAll(bits: RndBits, pkts: seq<array<Byte>>, rnd: Source, n: nat) returns (drawn: nat)
    requires Buffers(pkts) && bits.specs.Length == MAX_RND_BITFIELDS
    modifies pkts
    ensures Contents(pkts) == Applied(old(Contents(pkts)), bits.specs[..], bits.active, rnd, n)
    ensures drawn == n + PacketDraws(DrawCount(bits.specs[..], bits.active, 0, MAX_RND_BITFIELDS), |pkts|)
  {
    if bits.active == Zeros(32) {
      NothingApplied(Contents(pkts), bits.specs[..], bits.active, rnd, n);
      NothingDrawn(bits.specs[..], bits.active, 0);
      PacketDrawsIs(0, |pkts|);
      return n;
    }
    drawn := ApplyEach(bits, pkts, rnd, n);
  }

  predicate AllSettled(ps: seq<seq<Byte>>, rs: seq<seq<Byte>>, rules: seq<Rule>, active: Word)
    requires |rules| == MAX_RND_BITFIELDS
  {
    |ps| == |rs| && forall i | 0 <= i < |ps| :: Settled(ps[i], rs[i], rules, active)
  }

  /** Each packet is untouched or has been prepared for an earlier attempt. */
  predicate Ready(ps: seq<seq<Byte>>, rs: seq<seq<Byte>>, rules: seq<Rule>, active: Word)
    requires |rules| == MAX_RND_BITFIELDS
  {
    |ps| == |rs| && forall i | 0 <= i < |ps| :: rs[i] == ps[i] || Settled(ps[i], rs[i], rules, active)
  }

  lemma {:induction false} AppliedSettles(ps: seq<seq<Byte>>, rs: seq<seq<Byte>>, specs: seq<Spec>, rules: seq<Rule>,
                                          active: Word, rnd: Source, n: nat)
    requires Settings(specs, rules, active) && Ready(ps, rs, rules, active)
    requires AllRoomy(rs)
    ensures AllSettled(ps, Applied(rs, specs, active, rnd, n), rules, active)
  {
    if rs != [] {
      ReapplySettles(ps[0], rs[0], specs, rules, active, rnd, n);
      AppliedSettles(ps[1..], rs[1..], specs, rules, active, rnd, n + DrawCount(specs, active, 0, MAX_RND_BITFIELDS));
    }
  }

  /** After some turns: `wire` has been taken by the driver, `rest` is left. */
  ghost predicate Progress(ps: seq<seq<Byte>>, wire: seq<seq<Byte>>, rest: seq<seq<Byte>>, driver: seq<nat>, turn: nat,
                           rules: seq<Rule>, active: Word)
    requires |rules| == MAX_RND_BITFIELDS
  {
    && turn <= |driver| && |wire| + |rest| == |ps|
    && |wire| + Taken(|rest|, driver[turn..]) == Taken(|ps|, driver)
    && AllSettled(ps[..|wire|], wire, rules, active) && Ready(ps[|wire|..], rest, rules, active)
  }

  lemma ProgressStep(ps: seq<seq<Byte>>, wire: seq<seq<Byte>>, rest: seq<seq<Byte>>, driver: seq<nat>, turn: nat,
                     specs: seq<Spec>, rules: seq<Rule>, active: Word, rnd: Source, n: nat)
    returns (wire': seq<seq<Byte>>, rest': seq<seq<Byte>>)
    requires Settings(specs, rules, active) && Progress(ps, wire, rest, driver, turn, rules, active)
    requires AllRoomy(rest)
    requires rest != [] && turn < |driver|
    ensures var cur := Applied(rest, specs, active, rnd, n);
            var ret := if driver[turn] < |rest| then driver[turn] else |rest|;
            wire' == wire + cur[..ret] && rest' == cur[ret..]
    ensures Progress(ps, wire', rest', driver, turn + 1, rules, active)
  {
    AppliedSettles(ps[|wire|..], rest, specs, rules, active, rnd, n);
    var cur := Applied(rest, specs, active, rnd, n);
    var ret := if driver[turn] < |rest| then driver[turn] else |rest|;
    wire', rest' := wire + cur[..ret], cur[ret..];
    TakeSome(ps, wire, cur, ret, rules, active);
    assert driver[turn..][1..] == driver[turn + 1..];
  }

  lemma ProgressEnds(ps: seq<seq<Byte>>, wire: seq<seq<Byte>>, rest: seq<seq<Byte>>, driver: seq<nat>, turn: nat,
                     rules: seq<Rule>, active: Word)
    requires |rules| == MAX_RND_BITFIELDS && Progress(ps, wire, rest, driver, turn, rules, active)
    requires rest == [] || turn == |driver|
    ensures |wire| == Taken(|ps|, driver) && |wire| <= |ps| && AllSettled(ps[..|wire|], wire, rules, active)
  {
  }

  lemma TakeSome(ps: seq<seq<Byte>>, wire: seq<seq<Byte>>, cur: seq<seq<Byte>>, ret: nat, rules: seq<Rule>,
                 active: Word)
    requires |rules| == MAX_RND_BITFIELDS && |wire| + |cur| == |ps| && ret <= |cur|
    requires AllSettled(ps[..|wire|], wire, rules, active) && AllSettled(ps[|wire|..], cur, rules, active)
    ensures AllSettled(ps[..|wire| + ret], wire + cur[..ret], rules, active)
    ensures Ready(ps[|wire| + ret..], cur[ret..], rules, active)
  {
    var k := |wire|;
    forall i | 0 <= i < k + ret
      ensures Settled(ps[..k + ret][i], (wire + cur[..ret])[i], rules, active)
    {
      if i < k {
        assert Settled(ps[..k][i], wire[i], rules, active);
      } else {
        assert Settled(ps[k..][i - k], cur[i - k], rules, active);
      }
    }
    forall i | 0 <= i < |cur| - ret
      ensures Settled(ps[k + ret..][i], cur[ret..][i], rules, active)
    {
      assert Settled(ps[k..][i + ret], cur[i + ret], rules, active);
    }
  }

  lemma SettledPlain(ps: seq<seq<Byte>>, wire: seq<seq<Byte>>, specs: seq<Spec>, rules: seq<Rule>, active: Word,
                     rnd: Source, n: nat)
    requires Settings(specs, rules, active) && NoRandom(rules, active) && AllSettled(ps, wire, rules, active)
    requires AllRoomy(ps)
    ensures forall i | 0 <= i < |wire| :: wire[i] == ApplyFrom(ps[i], specs, active, 0, rnd, n)
  {
    forall i | 0 <= i < |wire|
      ensures wire[i] == ApplyFrom(ps[i], specs, active, 0, rnd, n)
    {
      ReapplySettles(ps[i], ps[i], specs, rules, active, rnd, n);
      SettledOnce(ps[i], wire[i], ApplyFrom(ps[i], specs, active, 0, rnd, n), rules, active);
    }
  }

  /** One attempt: prepares all packets that are left and hands the driver as many as it takes. */
  method Attempt(bits: RndBits, left: seq<array<Byte>>, accept: nat, rnd: Source, n: nat)
    returns (taken: seq<seq<Byte>>, rest: seq<array<Byte>>, drawn: nat)
    requires Buffers(left) && bits.specs.Length == MAX_RND_BITFIELDS
    modifies left
    ensures var cur := Applied(old(Contents(left)), bits.specs[..], bits.active, rnd, n);
            var ret := if accept < |left| then accept else |left|;
            taken == cur[..ret] && rest == left[ret..] && Contents(rest) == cur[ret..]
    ensures drawn == n + PacketDraws(DrawCount(bits.specs[..], bits.active, 0, MAX_RND_BITFIELDS), |left|)
  {
    drawn := ApplyAll(bits, left, rnd, n);
    var ret := if accept < |left| then accept else |left|;
    taken, rest := Contents(left)[..ret], left[ret..];
  }

  lemma BuffersTail(pkts: seq<array<Byte>>, k: nat)
    requires Buffers(pkts) && k <= |pkts|
    ensures Buffers(pkts[k..]) && forall i | 0 <= i < |pkts[k..]| :: pkts[k..][i] in pkts
  {
    var rest := pkts[k..];
    forall i, j | 0 <= i < j < |rest|
      ensures rest[i] != rest[j]
    {
      assert rest[i] == pkts[k + i] && rest[j] == pkts[k + j];
    }
  }

  /** One turn of the loop, with what it means for the burst `ps`. */
  method Turn(bits: RndBits, wire: seq<seq<Byte>>, left: seq<array<Byte>>, driver: seq<nat>, turn: nat, rnd: Source,
              n: nat, ghost ps: seq<seq<Byte>>)
    returns (wire': seq<seq<Byte>>, left': seq<array<Byte>>, drawn: nat)
    requires bits.Valid() && Buffers(left) && left != [] && turn < |driver|
    requires Progress(ps, wire, Contents(left), driver, turn, bits.rules, bits.active)
    modifies left
    ensures Buffers(left') && forall i | 0 <= i < |left'| :: left'[i] in left
    ensures Progress(ps, wire', Contents(left'), driver, turn + 1, bits.rules, bits.active)
  {
    ghost var ss, rules, on := bits.specs[..], bits.rules, bits.active;
    ghost var wire1, rest1 := ProgressStep(ps, wire, Contents(left), driver, turn, ss, rules, on, rnd, n);
    var taken;
    taken, left', drawn := Attempt(bits, left, driver[turn], rnd, n);
    wire' := wire + taken;
    BuffersTail(left, |left| - |left'|);
    assert wire' == wire1 && Contents(left') == rest1 && bits.rules == rules && bits.active == on;
  }

  /** The loop of the burst: goes on while packets are left and sending is not switched off. */
  method SendLoop(bits: RndBits, pkts: seq<array<Byte>>, driver: seq<nat>, rnd: Source, n: nat)
    returns (wire: seq<seq<Byte>>)
    requires Buffers(pkts) && bits.Valid()
    modifies pkts
    ensures bits.Valid() && |wire| == Taken(|pkts|, driver)
    ensures AllSettled(old(Contents(pkts))[..|wire|], wire, bits.rules, bits.active)
  {
    ghost var ps := Contents(pkts);
    var left, turn, drawn := pkts, 0, n;
    wire := [];
    while left != [] && turn < |driver|
      invariant bits.Valid() && Buffers(left) && forall i | 0 <= i < |left| :: left[i] in pkts
      invariant Progress(ps, wire, Contents(left), driver, turn, bits.rules, bits.active)
      decreases |driver| - turn
    {
      wire, left, drawn := Turn(bits, wire, left, driver, turn, rnd, drawn, ps);
      turn := turn + 1;
    }
    ProgressEnds(ps, wire, Contents(left), driver, turn, bits.rules, bits.active);
  }

  /**
   * Sends a burst. The settings are applied to all packets that are left before every attempt;
   * the driver accepts `driver[t]` of them in turn `t`, and sending is switched off after the last.
   * What goes on the wire is a prefix of the burst in order, each packet's decided bits as after
   * one application; without X it is exactly that.
   */
  method SendBurst(bits: RndBits, pkts: seq<array<Byte>>, driver: seq<nat>, rnd: Source, n: nat)
    returns (wire: seq<seq<Byte>>)
    requires Buffers(pkts) && bits.Valid()
    modifies pkts
    ensures bits.Valid() && |wire| == Taken(|pkts|, driver)
    ensures AllSettled(old(Contents(pkts))[..|wire|], wire, bits.rules, bits.active)
    ensures NoRandom(bits.rules, bits.active) ==>
              forall i | 0 <= i < |wire| ::
                wire[i] == ApplyFrom(old(Contents(pkts))[..|wire|][i], bits.specs[..], bits.active, 0, rnd, n)
  {
    ghost var ps := Contents(pkts);
    wire := SendLoop(bits, pkts, driver, rnd, n);
    if NoRandom(bits.rules, bits.active) {
      SettledPlain(ps[..|wire|], wire, bits.specs[..], bits.rules, bits.active, rnd, n);
    }
  }

  // ----- Printing -----

  /** The source's test of one bit of a mask. */
  lemma MaskTest(m: Word, i: nat)
    requires i < 32
    ensures And(m, Shl(ONE, 31 - i)) != Zeros(32) <==> m[i]
  {
    var a := And(m, Shl(ONE, 31 - i));
    if !m[i] {
      assert a == Zeros(32);
    } else {
      assert a[i];
    }
  }

  /** The test of one bit of a stored mask. */
  function Tested(m: Word, mask: Word, i: nat): (b: bool)
    requires i < 32 && mask == Shl(ONE, 31 - i)
    ensures b == Swap(m)[i]
  {
    MaskTest(Swap(m), i);
    And(Swap(m), mask) != Zeros(32)
  }

  /** Prints the masks of a bitfield: for a compiled template, the template padded with dots. */
  method ConvertBitfield(bf: Spec) returns (t: string)
    ensures |t| == MAX_BITFIELD_SIZE && forall i | 0 <= i < MAX_BITFIELD_SIZE :: t[i] == Shown(bf, i)
    ensures forall r: Rule | Realises(bf, r) && IsTemplate(r.template) :: IsPrinted(t, r.template)
  {
    var p := new char[MAX_BITFIELD_SIZE](_ => '.');
    var i := 0;
    while i < MAX_BITFIELD_SIZE
      invariant 0 <= i <= MAX_BITFIELD_SIZE
      invariant forall j | 0 <= j < i :: p[j] == Shown(bf, j)
    {
      var mask := Shl(ONE, MAX_BITFIELD_SIZE - i - 1);
      var random, kept, one := Tested(bf.rndMask, mask, i), Tested(bf.andMask, mask, i), Tested(bf.orMask, mask, i);
      p[i] := if random then 'X' else if !kept then '0' else if one then '1' else '.';
      i := i + 1;
    }
    t := p[..];
    forall r: Rule | Realises(bf, r) && IsTemplate(r.template)
      ensures IsPrinted(t, r.template)
    {
      PrintsTemplate(bf, r, t);
    }
  }
}
