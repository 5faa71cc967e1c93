/**
 * Random bitfields: a template over 0 1 . X is compiled to three masks, applied to packets through
 * the active-spec bits, and printed back.
 */
module Bitfields {
  import opened Words

  const MAX_RND_BITFIELDS := 32
  const MAX_BITFIELD_SIZE := 32

  type Octet = n: nat | n < 256

  /** The masks of one bitfield, in network byte order as they are stored. */
  datatype Spec = Spec(offset: Octet, andMask: Word, orMask: Word, rndMask: Word)

  /** What the user asked for. */
  datatype Rule = Rule(offset: Octet, template: string)

  /** The stream of values of the random number generator. */
  type Source = nat -> Word

  // ----- Compiling a template -----

  datatype Kind = Clear | Set | Random | Ignore

  predicate IsTemplate(t: string) {
    |t| <= MAX_BITFIELD_SIZE && forall i | 0 <= i < |t| :: t[i] in "01.xX"
  }

  function KindOf(c: char): Kind {
    if c == '0' then Clear else if c == '1' then Set else if c == 'x' || c == 'X' then Random else Ignore
  }

  /** What a template says about the `i`-th bit from its offset; nothing past its end. */
  function KindAt(t: string, i: nat): Kind {
    if i < |t| then KindOf(t[i]) else Ignore
  }

  /** One round of the accumulator: shift left and fill at the right. */
  function Push(m: Word, hit: bool): Word {
    if hit then Inc(Shl(m, 1)) else Shl(m, 1)
  }

  /** The accumulator of kind `c` after a whole template. */
  function Fold(t: string, c: Kind): Word {
    if t == "" then Zeros(32) else Push(Fold(t[..|t| - 1], c), KindOf(t[|t| - 1]) == c)
  }

  function MaskOf(t: string, c: Kind): Word
    requires |t| <= MAX_BITFIELD_SIZE
  {
    Shl(Fold(t, c), MAX_BITFIELD_SIZE - |t|)
  }

  function Compile(r: Rule): Spec
    requires |r.template| <= MAX_BITFIELD_SIZE
  {
    var t := r.template;
    Spec(r.offset, Swap(Not(Or(MaskOf(t, Clear), MaskOf(t, Random)))), Swap(MaskOf(t, Set)), Swap(MaskOf(t, Random)))
  }

  lemma PushBits(m: Word, hit: bool, i: nat)
    requires i < 32
    ensures Push(m, hit)[i] == if i == 31 then hit else m[i + 1]
  {
    var s := Shl(m, 1);
    assert !s[31];
    assert Inc(s) == s[..31] + [true];
  }

  lemma {:induction false} FoldBits(t: string, c: Kind, k: nat)
    requires |t| <= 32 && k < 32
    ensures Fold(t, c)[31 - k] <==> k < |t| && KindOf(t[|t| - 1 - k]) == c
  {
    if t != "" {
      PushBits(Fold(t[..|t| - 1], c), KindOf(t[|t| - 1]) == c, 31 - k);
      if k > 0 {
        FoldBits(t[..|t| - 1], c, k - 1);
      }
    }
  }

  /** A mask has exactly the bits whose character is of its kind. */
  lemma MaskBits(t: string, c: Kind, i: nat)
    requires |t| <= MAX_BITFIELD_SIZE && i < 32
    ensures MaskOf(t, c)[i] <==> i < |t| && KindOf(t[i]) == c
  {
    if i < |t| {
      FoldBits(t, c, |t| - 1 - i);
    }
  }

  /** The stored masks, read back in network order, say what the template says at every position. */
  predicate Realises(s: Spec, r: Rule) {
    && s.offset == r.offset
    && forall i | 0 <= i < 32 :: BitsAre(s, i, KindAt(r.template, i))
  }

  predicate BitsAre(s: Spec, i: nat, k: Kind)
    requires i < 32
  {
    && (Swap(s.andMask)[i] <==> k != Clear && k != Random)
    && (Swap(s.orMask)[i] <==> k == Set)
    && (Swap(s.rndMask)[i] <==> k == Random)
  }

  lemma CompileRealises(r: Rule)
    requires |r.template| <= MAX_BITFIELD_SIZE
    ensures Realises(Compile(r), r)
  {
    var t := r.template;
    SwapTwice(Not(Or(MaskOf(t, Clear), MaskOf(t, Random))));
    SwapTwice(MaskOf(t, Set));
    SwapTwice(MaskOf(t, Random));
    forall i | 0 <= i < 32
      ensures BitsAre(Compile(r), i, KindAt(t, i))
    {
      MaskBits(t, Clear, i);
      MaskBits(t, Set, i);
      MaskBits(t, Random, i);
    }
  }

  /** The masks are determined by what they say. */
  lemma RealisesOnce(s: Spec, s': Spec, r: Rule, r': Rule)
    requires Realises(s, r) && Realises(s', r') && r.offset == r'.offset
    requires forall i | 0 <= i < 32 :: KindAt(r.template, i) == KindAt(r'.template, i)
    ensures s == s'
  {
    forall i | 0 <= i < 32
      ensures Swap(s.andMask)[i] == Swap(s'.andMask)[i]
      ensures Swap(s.orMask)[i] == Swap(s'.orMask)[i]
      ensures Swap(s.rndMask)[i] == Swap(s'.rndMask)[i]
    {
      assert BitsAre(s, i, KindAt(r.template, i)) && BitsAre(s', i, KindAt(r'.template, i));
    }
    SameWhenSwapped(s.andMask, s'.andMask);
    SameWhenSwapped(s.orMask, s'.orMask);
    SameWhenSwapped(s.rndMask, s'.rndMask);
  }

  lemma SameWhenSwapped(a: Word, b: Word)
    requires forall i | 0 <= i < 32 :: Swap(a)[i] == Swap(b)[i]
    ensures a == b
  {
    assert Swap(a) == Swap(b);
    SwapTwice(a);
    SwapTwice(b);
  }

  // ----- Applying one bitfield -----

  predicate InRange(s: Spec, p: seq<Byte>) {
    s.offset + 4 <= |p|
  }

  function Merge(s: Spec, w: Word, rnd: Word): Word {
    Or(Or(And(w, s.andMask), s.orMask), And(rnd, s.rndMask))
  }

  function Patch(p: seq<Byte>, s: Spec, rnd: Word): (r: seq<Byte>)
    requires InRange(s, p)
    ensures |r| == |p|
  {
    Store(p, s.offset, Merge(s, Load(p, s.offset), rnd))
  }

  predicate InWindow(r: Rule, q: nat) {
    8 * r.offset <= q < 8 * r.offset + 32
  }

  /** What a rule says about packet bit `q`. */
  function Says(r: Rule, q: nat): Kind {
    if InWindow(r, q) then KindAt(r.template, q - 8 * r.offset) else Ignore
  }

  /** The meaning of a template character for one bit. */
  function Meaning(k: Kind, was: bool, rnd: bool): bool {
    match k
    case Clear => false
    case Set => true
    case Random => rnd
    case Ignore => was
  }

  lemma MergeBits(s: Spec, r: Rule, w: Word, rnd: Word, i: nat)
    requires Realises(s, r) && i < 32
    ensures Swap(Merge(s, w, rnd))[i] == Meaning(KindAt(r.template, i), Swap(w)[i], Swap(rnd)[i])
  {
    assert BitsAre(s, i, KindAt(r.template, i));
    SwapCommutes(w, s.andMask);
    SwapCommutes(And(w, s.andMask), s.orMask);
    SwapCommutes(rnd, s.rndMask);
    SwapCommutes(Or(And(w, s.andMask), s.orMask), And(rnd, s.rndMask));
  }

  /** The random bit that a rule uses for packet bit `q`. */
  function RndBit(r: Rule, rnd: Word, q: nat): bool {
    InWindow(r, q) && Swap(rnd)[q - 8 * r.offset]
  }

  /** Applying a compiled template realises its string, bit by bit in wire order, and nothing else. */
  lemma PatchBits(p: seq<Byte>, s: Spec, r: Rule, rnd: Word, q: nat)
    requires Realises(s, r) && InRange(s, p) && q < 8 * |p|
    ensures PacketBit(Patch(p, s, rnd), q) == Meaning(Says(r, q), PacketBit(p, q), RndBit(r, rnd, q))
  {
    var w := Load(p, s.offset);
    StoreBits(p, s.offset, Merge(s, w, rnd), q);
    if InWindow(r, q) {
      LoadBits(p, s.offset, q - 8 * s.offset);
      MergeBits(s, r, w, rnd, q - 8 * s.offset);
    }
  }

  /** Bitfields with disjoint windows may be applied in either order. */
  lemma DisjointCommute(p: seq<Byte>, s: Spec, t: Spec, x: Word, y: Word)
    requires InRange(s, p) && InRange(t, p)
    requires s.offset + 4 <= t.offset || t.offset + 4 <= s.offset
    ensures Patch(Patch(p, s, x), t, y) == Patch(Patch(p, t, y), s, x)
  {
    assert Load(Patch(p, s, x), t.offset) == Load(p, t.offset);
    assert Load(Patch(p, t, y), s.offset) == Load(p, s.offset);
  }

  // ----- Applying the active bitfields -----

  /** Bit `k` of the active-spec vector, the lowest bit first. */
  predicate On(active: Word, k: nat)
    requires k < 32
  {
    active[31 - k]
  }

  /** The settings of a port: `rules` is what the user asked for, `specs` what is stored. */
  predicate Settings(specs: seq<Spec>, rules: seq<Rule>, active: Word) {
    && |specs| == |rules| == MAX_RND_BITFIELDS
    && forall k | 0 <= k < MAX_RND_BITFIELDS && On(active, k) ::
         Realises(specs[k], rules[k])
  }

  predicate AllInRange(specs: seq<Spec>, active: Word, p: seq<Byte>) {
    |specs| == MAX_RND_BITFIELDS && forall k | 0 <= k < MAX_RND_BITFIELDS && On(active, k) :: InRange(specs[k], p)
  }

  predicate Draws(s: Spec) {
    s.rndMask != Zeros(32)
  }

  /** The value merged by `s` when `n` values were drawn before: nothing is drawn for an empty mask. */
  function Drawn(s: Spec, rnd: Source, n: nat): Word {
    if Draws(s) then rnd(n) else Zeros(32)
  }

  /** How many values index `k` takes from the generator. */
  function Cost(specs: seq<Spec>, active: Word, k: nat): nat
    requires k < |specs| == MAX_RND_BITFIELDS
  {
    if On(active, k) && Draws(specs[k]) then 1 else 0
  }

  /** How many values the indices `k..m` take. */
  function DrawCount(specs: seq<Spec>, active: Word, k: nat, m: nat): nat
    requires k <= m <= |specs| == MAX_RND_BITFIELDS
    decreases m - k
  {
    if k == m then 0 else Cost(specs, active, k) + DrawCount(specs, active, k + 1, m)
  }

  /** The indices among `k..m` that draw. */
  function Drawers(specs: seq<Spec>, active: Word, k: nat, m: nat): set<nat>
    requires m <= |specs| == MAX_RND_BITFIELDS
  {
    set i: nat | k <= i < m && On(active, i) && Draws(specs[i])
  }

  /** One value is drawn for every active bitfield with random bits, and none for the others. */
  lemma {:induction false} OneDrawEach(specs: seq<Spec>, active: Word, k: nat, m: nat)
    requires k <= m <= |specs| == MAX_RND_BITFIELDS
    ensures DrawCount(specs, active, k, m) == |Drawers(specs, active, k, m)|
    decreases m - k
  {
    if k < m {
      OneDrawEach(specs, active, k + 1, m);
      var rest := Drawers(specs, active, k + 1, m);
      if On(active, k) && Draws(specs[k]) {
        assert Drawers(specs, active, k, m) == rest + {k};
      } else {
        assert Drawers(specs, active, k, m) == rest;
      }
    } else {
      assert Drawers(specs, active, k, m) == {};
    }
  }

  lemma {:induction false} DrawCountSplit(specs: seq<Spec>, active: Word, k: nat, j: nat, m: nat)
    requires k <= j <= m <= |specs| == MAX_RND_BITFIELDS
    ensures DrawCount(specs, active, k, m) == DrawCount(specs, active, k, j) + DrawCount(specs, active, j, m)
    decreases j - k
  {
    if k < j {
      DrawCountSplit(specs, active, k + 1, j, m);
    }
  }

  /** What `i` packets draw that draw `each`. */
  function PacketDraws(each: nat, i: nat): nat {
    if i == 0 then 0 else PacketDraws(each, i - 1) + each
  }

  lemma {:induction false} PacketDrawsIs(each: nat, i: nat)
    ensures PacketDraws(each, i) == i * each
  {
    if i > 0 {
      PacketDrawsIs(each, i - 1);
    }
  }

  lemma {:induction false} LaterPacket(each: nat, i: nat, j: nat)
    requires i < j
    ensures PacketDraws(each, i) + each <= PacketDraws(each, j)
    decreases j
  {
    if i + 1 < j {
      LaterPacket(each, i, j - 1);
    }
  }

  /** Which value of the generator bitfield `d` takes for the `i`-th packet of a burst that starts at value `n`. */
  function DrawIndex(specs: seq<Spec>, active: Word, n: nat, i: nat, d: nat): nat
    requires d <= |specs| == MAX_RND_BITFIELDS
  {
    var each, own := DrawCount(specs, active, 0, MAX_RND_BITFIELDS), DrawCount(specs, active, 0, d);
    n + PacketDraws(each, i) + own
  }

  /** A packet's draws are fewer than `each`, those of all its bitfields. */
  lemma DrawsInPacket(specs: seq<Spec>, active: Word, d: nat)
    requires d < |specs| == MAX_RND_BITFIELDS && On(active, d) && Draws(specs[d])
    ensures DrawCount(specs, active, 0, d) < DrawCount(specs, active, 0, MAX_RND_BITFIELDS)
  {
    DrawCountSplit(specs, active, 0, d, MAX_RND_BITFIELDS);
    assert DrawCount(specs, active, d, MAX_RND_BITFIELDS) >= 1;
  }

  /** No two random bitfields of a packet, and no two packets of a burst, share a value of the generator. */
  lemma DrawsDiffer(specs: seq<Spec>, active: Word, n: nat, i: nat, d: nat, j: nat, e: nat)
    requires d < |specs| == MAX_RND_BITFIELDS && On(active, d) && Draws(specs[d])
    requires e < MAX_RND_BITFIELDS && On(active, e) && Draws(specs[e])
    ensures DrawIndex(specs, active, n, i, d) == DrawIndex(specs, active, n, j, e) <==> i == j && d == e
  {
    var each := DrawCount(specs, active, 0, MAX_RND_BITFIELDS);
    DrawsInPacket(specs, active, d);
    DrawsInPacket(specs, active, e);
    if i < j {
      LaterPacket(each, i, j);
    } else if j < i {
      LaterPacket(each, j, i);
    } else if d < e {
      DrawsGrow(specs, active, d, e);
    } else if e < d {
      DrawsGrow(specs, active, e, d);
    }
  }

  lemma DrawsGrow(specs: seq<Spec>, active: Word, d: nat, e: nat)
    requires d < e < |specs| == MAX_RND_BITFIELDS && On(active, d) && Draws(specs[d])
    ensures DrawCount(specs, active, 0, d) < DrawCount(specs, active, 0, e)
  {
    DrawCountSplit(specs, active, 0, d, e);
    assert DrawCount(specs, active, d, e) >= 1;
  }

  function Step(p: seq<Byte>, specs: seq<Spec>, active: Word, k: nat, rnd: Source, n: nat): (r: seq<Byte>)
    requires k < MAX_RND_BITFIELDS && AllInRange(specs, active, p)
    ensures |r| == |p|
  {
    if On(active, k) then Patch(p, specs[k], Drawn(specs[k], rnd, n)) else p
  }

  /** The active specs `k..32` applied in index order, `n` values having been drawn before. */
  function ApplyFrom(p: seq<Byte>, specs: seq<Spec>, active: Word, k: nat, rnd: Source, n: nat): (r: seq<Byte>)
    requires k <= MAX_RND_BITFIELDS && AllInRange(specs, active, p)
    ensures |r| == |p|
    decreases MAX_RND_BITFIELDS - k
  {
    if k == MAX_RND_BITFIELDS then p
    else ApplyFrom(Step(p, specs, active, k, rnd, n), specs, active, k + 1, rnd, n + Cost(specs, active, k))
  }

  /** Whether rule `k` is active and says something about packet bit `q`. */
  predicate Governs(rules: seq<Rule>, active: Word, k: nat, q: nat)
    requires k < |rules| == MAX_RND_BITFIELDS
  {
    On(active, k) && Says(rules[k], q) != Ignore
  }

  /** The last rule from index `k` on that governs packet bit `q`, or -1. */
  function Decider(rules: seq<Rule>, active: Word, k: nat, q: nat): (d: int)
    requires k <= |rules| == MAX_RND_BITFIELDS
    ensures d == -1 || (k <= d < MAX_RND_BITFIELDS && Governs(rules, active, d, q))
    decreases MAX_RND_BITFIELDS - k
  {
    if k == MAX_RND_BITFIELDS then -1
    else
      var d := Decider(rules, active, k + 1, q);
      if d == -1 && Governs(rules, active, k, q) then k else d
  }

  lemma {:induction false} DeciderIsLast(rules: seq<Rule>, active: Word, k: nat, q: nat, j: nat)
    requires k <= j < |rules| == MAX_RND_BITFIELDS
    requires Governs(rules, active, j, q)
    ensures j <= Decider(rules, active, k, q)
    decreases j - k
  {
    if k < j {
      DeciderIsLast(rules, active, k + 1, q, j);
    }
  }

  /** Rule `d` decides a bit, its draw being `x`. */
  function Decided(rules: seq<Rule>, d: int, q: nat, was: bool, x: Word): bool
    requires -1 <= d < |rules|
  {
    if d == -1 then was else Meaning(Says(rules[d], q), was, RndBit(rules[d], x, q))
  }

  /** A bitfield draws if and only if its template has an X. */
  lemma DrawsExactly(s: Spec, r: Rule)
    requires Realises(s, r)
    ensures Draws(s) <==> exists i :: 0 <= i < 32 && KindAt(r.template, i) == Random
  {
    if Draws(s) {
      if forall i | 0 <= i < 32 :: KindAt(r.template, i) != Random {
        forall i | 0 <= i < 32
          ensures Swap(s.rndMask)[i] == Swap(Zeros(32))[i]
        {
          assert BitsAre(s, i, KindAt(r.template, i));
          SwapBit(Zeros(32), i);
        }
        SameWhenSwapped(s.rndMask, Zeros(32));
        assert false;
      }
    }
    forall i | 0 <= i < 32 && KindAt(r.template, i) == Random
      ensures Draws(s)
    {
      assert BitsAre(s, i, Random);
      SwapBit(s.rndMask, i);
    }
  }

  /** A rule with an X draws. */
  lemma RandomDraws(s: Spec, r: Rule, q: nat)
    requires Realises(s, r) && Says(r, q) == Random
    ensures Draws(s)
  {
    var i := q - 8 * r.offset;
    assert BitsAre(s, i, Random);
    SwapBit(s.rndMask, i);
  }

  lemma StepBits(p: seq<Byte>, specs: seq<Spec>, rules: seq<Rule>, active: Word, k: nat, rnd: Source, n: nat, q: nat)
    requires k < MAX_RND_BITFIELDS && Settings(specs, rules, active) && AllInRange(specs, active, p)
    requires q < 8 * |p|
    ensures PacketBit(Step(p, specs, active, k, rnd, n), q) ==
            Decided(rules, if Governs(rules, active, k, q) then k else -1, q, PacketBit(p, q), rnd(n))
  {
    if On(active, k) {
      PatchBits(p, specs[k], rules[k], Drawn(specs[k], rnd, n), q);
      if Says(rules[k], q) == Random {
        RandomDraws(specs[k], rules[k], q);
      }
    }
  }

  /**
   * What becomes of packet bit `q`: the last active rule from index `k` on that says something
   * about it decides it, with its own random draw for an X; a bit no rule mentions is kept.
   */
  function Outcome(was: bool, specs: seq<Spec>, rules: seq<Rule>, active: Word, k: nat,
                   rnd: Source, n: nat, q: nat): bool
    requires k <= |specs| == |rules| == MAX_RND_BITFIELDS
  {
    var d := Decider(rules, active, k, q);
    Decided(rules, d, q, was, rnd(if d == -1 then n else n + DrawCount(specs, active, k, d)))
  }

  /** The outcome can be computed one rule at a time. */
  lemma OutcomeStep(was: bool, specs: seq<Spec>, rules: seq<Rule>, active: Word, k: nat, rnd: Source, n: nat, q: nat)
    requires k < |specs| == |rules| == MAX_RND_BITFIELDS
    ensures Outcome(was, specs, rules, active, k, rnd, n, q) ==
            Outcome(Decided(rules, if Governs(rules, active, k, q) then k else -1, q, was, rnd(n)),
                    specs, rules, active, k + 1, rnd, n + Cost(specs, active, k), q)
  {
  }

  /** One index further: the packet, the number of draws and the bit that is watched. */
  lemma NextIndex(p: seq<Byte>, specs: seq<Spec>, rules: seq<Rule>, active: Word, k: nat, rnd: Source, n: nat, q: nat)
    returns (p': seq<Byte>, n': nat)
    requires k < MAX_RND_BITFIELDS && Settings(specs, rules, active) && AllInRange(specs, active, p)
    requires q < 8 * |p|
    ensures |p'| == |p| && AllInRange(specs, active, p')
    ensures ApplyFrom(p, specs, active, k, rnd, n) == ApplyFrom(p', specs, active, k + 1, rnd, n')
    ensures Outcome(PacketBit(p, q), specs, rules, active, k, rnd, n, q) ==
            Outcome(PacketBit(p', q), specs, rules, active, k + 1, rnd, n', q)
  {
    p', n' := Step(p, specs, active, k, rnd, n), n + Cost(specs, active, k);
    StepBits(p, specs, rules, active, k, rnd, n, q);
    OutcomeStep(PacketBit(p, q), specs, rules, active, k, rnd, n, q);
  }

  lemma {:induction false} FinalBits(p: seq<Byte>, specs: seq<Spec>, rules: seq<Rule>, active: Word, k: nat,
                                     rnd: Source, n: nat, q: nat)
    requires k <= MAX_RND_BITFIELDS && Settings(specs, rules, active) && AllInRange(specs, active, p)
    requires q < 8 * |p|
    ensures PacketBit(ApplyFrom(p, specs, active, k, rnd, n), q) ==
            Outcome(PacketBit(p, q), specs, rules, active, k, rnd, n, q)
    decreases MAX_RND_BITFIELDS - k
  {
    if k < MAX_RND_BITFIELDS {
      var p', n' := NextIndex(p, specs, rules, active, k, rnd, n, q);
      FinalBits(p', specs, rules, active, k + 1, rnd, n', q);
    }
  }

  // ----- Applying the settings again -----

  /** Whether an X decides packet bit `q`. */
  predicate RandomAt(rules: seq<Rule>, active: Word, q: nat)
    requires |rules| == MAX_RND_BITFIELDS
  {
    var d := Decider(rules, active, 0, q);
    d != -1 && Says(rules[d], q) == Random
  }

  /** `r` is `p` with every bit decided, the random ones in some way. */
  predicate Settled(p: seq<Byte>, r: seq<Byte>, rules: seq<Rule>, active: Word)
    requires |rules| == MAX_RND_BITFIELDS
  {
    && |r| == |p|
    && forall q | 0 <= q < 8 * |p| && !RandomAt(rules, active, q) ::
         PacketBit(r, q) == Decided(rules, Decider(rules, active, 0, q), q, PacketBit(p, q), Zeros(32))
  }

  /**
   * However often the settings are applied again, before a retry, every bit that no X decides is
   * what the first application made it.
   */
  lemma ReapplySettles(p: seq<Byte>, r: seq<Byte>, specs: seq<Spec>, rules: seq<Rule>, active: Word, rnd: Source,
                       n: nat)
    requires Settings(specs, rules, active) && AllInRange(specs, active, p)
    requires r == p || Settled(p, r, rules, active)
    ensures Settled(p, ApplyFrom(r, specs, active, 0, rnd, n), rules, active)
  {
    var a := ApplyFrom(r, specs, active, 0, rnd, n);
    forall q | 0 <= q < 8 * |p| && !RandomAt(rules, active, q)
      ensures PacketBit(a, q) == Decided(rules, Decider(rules, active, 0, q), q, PacketBit(p, q), Zeros(32))
    {
      FinalBits(r, specs, rules, active, 0, rnd, n, q);
    }
  }

  /** No active template holds an X. */
  predicate NoRandom(rules: seq<Rule>, active: Word) {
    |rules| == MAX_RND_BITFIELDS
    && forall k | 0 <= k < MAX_RND_BITFIELDS && On(active, k) :: 'x' !in rules[k].template && 'X' !in rules[k].template
  }

  lemma SettledOnce(p: seq<Byte>, r: seq<Byte>, s: seq<Byte>, rules: seq<Rule>, active: Word)
    requires NoRandom(rules, active) && Settled(p, r, rules, active) && Settled(p, s, rules, active)
    ensures r == s
  {
    forall q | 0 <= q < 8 * |p|
      ensures PacketBit(r, q) == PacketBit(s, q)
    {
      assert !RandomAt(rules, active, q);
    }
    SamePacket(r, s);
  }

  /** Without X the whole application is idempotent, even when windows overlap. */
  lemma ApplyIdempotent(p: seq<Byte>, specs: seq<Spec>, rules: seq<Rule>, active: Word, rnd: Source, n: nat, m: nat)
    requires Settings(specs, rules, active) && AllInRange(specs, active, p) && NoRandom(rules, active)
    ensures var once := ApplyFrom(p, specs, active, 0, rnd, n);
            ApplyFrom(once, specs, active, 0, rnd, m) == once
  {
    var once := ApplyFrom(p, specs, active, 0, rnd, n);
    ReapplySettles(p, p, specs, rules, active, rnd, n);
    ReapplySettles(p, once, specs, rules, active, rnd, m);
    SettledOnce(p, once, ApplyFrom(once, specs, active, 0, rnd, m), rules, active);
  }

  /** A bit outside every active window keeps its value. */
  lemma OutsideUntouched(p: seq<Byte>, specs: seq<Spec>, rules: seq<Rule>, active: Word, rnd: Source, n: nat, q: nat)
    requires Settings(specs, rules, active) && AllInRange(specs, active, p) && q < 8 * |p|
    requires forall k | 0 <= k < MAX_RND_BITFIELDS && On(active, k) :: !InWindow(rules[k], q)
    ensures PacketBit(ApplyFrom(p, specs, active, 0, rnd, n), q) == PacketBit(p, q)
  {
    FinalBits(p, specs, rules, active, 0, rnd, n, q);
  }

  // ----- Printing -----

  function CharOf(k: Kind): char {
    match k
    case Clear => '0'
    case Set => '1'
    case Random => 'X'
    case Ignore => '.'
  }

  /** What a stored bitfield shows at position `i`; the random mask is looked at first. */
  function Shown(s: Spec, i: nat): char
    requires i < 32
  {
    if Swap(s.rndMask)[i] then 'X' else if !Swap(s.andMask)[i] then '0' else if Swap(s.orMask)[i] then '1' else '.'
  }

  /** `t` is the template as it is printed: padded with dots to 32 characters, with X for x. */
  predicate IsPrinted(t: string, template: string) {
    && |t| == MAX_BITFIELD_SIZE
    && forall i | 0 <= i < MAX_BITFIELD_SIZE ::
         t[i] == if i >= |template| then '.' else if template[i] == 'x' then 'X' else template[i]
  }

  /** Printing the masks of a template gives back the template, padded. */
  lemma PrintsTemplate(s: Spec, r: Rule, t: string)
    requires Realises(s, r) && IsTemplate(r.template)
    requires |t| == MAX_BITFIELD_SIZE && forall i | 0 <= i < MAX_BITFIELD_SIZE :: t[i] == Shown(s, i)
    ensures IsPrinted(t, r.template)
  {
    forall i | 0 <= i < MAX_BITFIELD_SIZE
      ensures t[i] == if i >= |r.template| then '.' else if r.template[i] == 'x' then 'X' else r.template[i]
    {
      assert BitsAre(s, i, KindAt(r.template, i));
      assert t[i] == CharOf(KindAt(r.template, i));
    }
  }

  /** Compiling the printed form gives back the same three masks. */
  lemma RecompilePrinted(offset: Octet, template: string, t: string)
    requires IsTemplate(template) && IsPrinted(t, template)
    ensures IsTemplate(t) && Compile(Rule(offset, t)) == Compile(Rule(offset, template))
  {
    CompileRealises(Rule(offset, t));
    CompileRealises(Rule(offset, template));
    forall i | 0 <= i < 32
      ensures t[i] in "01.xX" && KindAt(t, i) == KindAt(template, i)
    {
      assert i < |template| ==> template[i] in "01.xX";
    }
    RealisesOnce(Compile(Rule(offset, t)), Compile(Rule(offset, template)), Rule(offset, t), Rule(offset, template));
  }
}
