/** The range generator: packet fields that step through an interval in fixed-width arithmetic. */
module Range {
  import opened PacketSizes

  /** How one field is stepped: its start value, and the increment and bounds that the user set. */
  datatype Field = Field(start: nat, inc: nat, min: nat, max: nat)

  /** All four values fit in a field of `w` values. */
  predicate Fits(f: Field, w: nat) {
    f.start < w && f.inc < w && f.min < w && f.max < w
  }

  /** One step of a field that is `w` values wide: the sum wraps before it is compared with the bounds. */
  function Step(v: nat, f: Field, w: nat): (r: nat)
    requires v < w && Fits(f, w)
    ensures r < w
  {
    var s := (v + f.inc) % w;
    if s < f.min then f.max else if s > f.max then f.min else s
  }

  /** The next value of a field; without an increment it is always the start value. */
  function Next(v: nat, f: Field, w: nat): (r: nat)
    requires v < w && Fits(f, w)
    ensures r < w
  {
    if f.inc != 0 then Step(v, f, w) else f.start
  }

  /** A step lands between the bounds, whatever the increment; with the bounds swapped it lands on one of them. */
  lemma StepStaysInRange(v: nat, f: Field, w: nat)
    requires v < w && Fits(f, w)
    ensures f.min <= f.max ==> f.min <= Step(v, f, w) <= f.max
    ensures f.min > f.max ==> Step(v, f, w) == f.min || Step(v, f, w) == f.max
  {
  }

  // ----- The n-th value -----

  function Nth(v: nat, f: Field, w: nat, n: nat): (r: nat)
    requires v < w && Fits(f, w)
    ensures r < w
  {
    if n == 0 then v else Step(Nth(v, f, w, n - 1), f, w)
  }

  /** The value `n` packets after `v`; a field without an increment is set back to its start by the first of them. */
  function After(v: nat, f: Field, w: nat, n: nat): nat
    requires v < w && Fits(f, w)
  {
    if f.inc != 0 then Nth(v, f, w, n) else if n > 0 then f.start else v
  }

  /** How many values a field has before it starts again. */
  function Period(f: Field): (p: nat)
    requires f.inc > 0 && f.min <= f.max
    ensures p > 0
  {
    (f.max - f.min) / f.inc + 1
  }

  /** The last value before the field starts again. */
  function Last(f: Field): nat
    requires f.inc > 0 && f.min <= f.max
  {
    f.min + (Period(f) - 1) * f.inc
  }

  /** What a caller can check: going past the last value does not wrap, or wraps to the first, or there is one value. */
  predicate Restarts(f: Field, w: nat)
    requires f.inc > 0 && f.min <= f.max
  {
    Last(f) + f.inc < w || Last(f) + f.inc - w == f.min || f.min == f.max
  }

  function ClosedForm(f: Field, n: nat): nat
    requires f.inc > 0 && f.min <= f.max
  {
    f.min + n % Period(f) * f.inc
  }

  lemma MulBounds(p: int, d: int)
    requires p > 0
    ensures d >= 1 ==> p * d >= p
    ensures d <= -1 ==> p * d <= -p
  {
    if d >= 1 {
      assert p * d == p + p * (d - 1);
    } else if d <= -1 {
      assert p * d == -p + p * (d + 1);
    }
  }

  lemma ModUnique(n: nat, p: nat, q: int, k: nat)
    requires k < p && n == p * q + k
    ensures n % p == k
  {
    var q' := n / p;
    assert n == p * q' + n % p;
    assert p * (q - q') == p * q - p * q';
    MulBounds(p, q - q');
  }

  /** A sum of two values of a field wraps at most once. */
  lemma WrapOnce(s: nat, w: nat)
    requires 0 < w && s < 2 * w
    ensures s % w == if s < w then s else s - w
  {
    ModUnique(s, w, if s < w then 0 else 1, if s < w then s else s - w);
  }

  lemma NextRemainder(n: nat, p: nat)
    requires p > 0
    ensures (n + 1) % p == if n % p == p - 1 then 0 else n % p + 1
  {
    var q, k := n / p, n % p;
    assert n == p * q + k;
    if k == p - 1 {
      assert p * (q + 1) == p * q + p;
      ModUnique(n + 1, p, q + 1, 0);
    } else {
      ModUnique(n + 1, p, q, k + 1);
    }
  }

  lemma PeriodBounds(f: Field)
    requires f.inc > 0 && f.min <= f.max
    ensures f.min <= Last(f) <= f.max < Last(f) + f.inc
    ensures f.min == f.max ==> Last(f) == f.min
  {
    var d, q := f.max - f.min, (f.max - f.min) / f.inc;
    assert d == f.inc * q + d % f.inc;
    assert Period(f) - 1 == q && q * f.inc == f.inc * q;
  }

  lemma StepPast(l: nat, f: Field, w: nat)
    requires Fits(f, w) && f.min <= l <= f.max < l + f.inc && (f.min == f.max ==> l == f.min)
    ensures Step(l, f, w) == f.min <==> l + f.inc < w || l + f.inc - w == f.min || f.min == f.max
  {
    WrapOnce(l + f.inc, w);
  }

  /** The step after the last value leads back to the first, exactly under the condition. */
  lemma StepFromLast(f: Field, w: nat)
    requires Fits(f, w) && f.inc > 0 && f.min <= f.max
    ensures Last(f) < w && (Step(Last(f), f, w) == f.min <==> Restarts(f, w))
  {
    PeriodBounds(f);
    StepPast(Last(f), f, w);
  }

  lemma MulMonotone(k: nat, m: nat, c: nat)
    requires k < m
    ensures k * c + c == (k + 1) * c <= m * c
  {
    assert m * c == (k + 1) * c + (m - k - 1) * c;
    assert (m - k - 1) * c >= 0;
  }

  lemma StepUp(v: nat, f: Field, w: nat)
    requires Fits(f, w) && f.min <= v && v + f.inc <= f.max
    ensures Step(v, f, w) == v + f.inc
  {
    WrapOnce(v + f.inc, w);
  }

  /** Before the last value a step just adds the increment. */
  lemma StepInside(f: Field, w: nat, k: nat)
    requires Fits(f, w) && f.inc > 0 && f.min <= f.max && k < Period(f) - 1
    ensures f.min + k * f.inc < w && Step(f.min + k * f.inc, f, w) == f.min + (k + 1) * f.inc
  {
    PeriodBounds(f);
    MulMonotone(k, Period(f) - 1, f.inc);
    assert k * f.inc >= 0;
    StepUp(f.min + k * f.inc, f, w);
  }

  /** From its minimum a field runs through its values in arithmetic progression and starts again. */
  lemma {:induction false} NthClosed(f: Field, w: nat, n: nat)
    requires Fits(f, w) && f.inc > 0 && f.min <= f.max && (Restarts(f, w) || n < Period(f))
    ensures Nth(f.min, f, w, n) == ClosedForm(f, n)
  {
    var p := Period(f);
    if n == 0 {
      ModUnique(0, p, 0, 0);
    } else {
      NthClosed(f, w, n - 1);
      NextRemainder(n - 1, p);
      if (n - 1) % p == p - 1 {
        if n < p {
          ModUnique(n - 1, p, 0, n - 1);
        }
        StepFromLast(f, w);
      } else {
        StepInside(f, w, (n - 1) % p);
      }
    }
  }

  /** The closed form holds for every n exactly when going past the last value restarts the field. */
  lemma ClosedFormExactly(f: Field, w: nat)
    requires Fits(f, w) && f.inc > 0 && f.min <= f.max
    ensures (forall n: nat :: Nth(f.min, f, w, n) == ClosedForm(f, n)) <==> Restarts(f, w)
  {
    var p := Period(f);
    if Restarts(f, w) {
      forall n: nat
        ensures Nth(f.min, f, w, n) == ClosedForm(f, n)
      {
        NthClosed(f, w, n);
      }
    } else {
      NthClosed(f, w, p - 1);
      ModUnique(p - 1, p, 0, p - 1);
      ModUnique(p, p, 1, 0);
      StepFromLast(f, w);
      assert Nth(f.min, f, w, p) != ClosedForm(f, p);
    }
  }

  /** A field over its full width counts modulo the width. */
  lemma {:induction false} FullWidth(v: nat, f: Field, w: nat, n: nat)
    requires v < w && Fits(f, w) && f.min == 0 && f.max == w - 1
    ensures Nth(v, f, w, n) == (v + n * f.inc) % w
  {
    if n == 0 {
      ModUnique(v, w, 0, v);
    } else {
      FullWidth(v, f, w, n - 1);
      var s := v + (n - 1) * f.inc;
      assert v + n * f.inc == s + f.inc;
      AddAfterMod(s, f.inc, w);
    }
  }

  lemma AddAfterMod(s: nat, d: nat, w: nat)
    requires w > 0
    ensures (s % w + d) % w == (s + d) % w
  {
    var q, r := s / w, (s + d) / w;
    assert s == w * q + s % w && s + d == w * r + (s + d) % w;
    assert s % w + d == w * (r - q) + (s + d) % w;
    ModUnique(s % w + d, w, r - q, (s + d) % w);
  }

  // ----- Counting down -----

  /** The field seen from the other end. */
  function Mirror(f: Field, w: nat): Field
    requires Fits(f, w) && f.inc > 0
  {
    Field(w - 1 - f.start, w - f.inc, w - 1 - f.max, w - 1 - f.min)
  }

  /** Stepping up and stepping down by a wrapping increment are mirror images. */
  lemma StepMirror(v: nat, f: Field, w: nat)
    requires v < w && Fits(f, w) && f.inc > 0 && f.min <= f.max
    ensures Step(w - 1 - v, Mirror(f, w), w) == w - 1 - Step(v, f, w)
  {
    WrapOnce(v + f.inc, w);
    WrapOnce(w - 1 - v + (w - f.inc), w);
  }

  lemma {:induction false} NthMirror(v: nat, f: Field, w: nat, n: nat)
    requires v < w && Fits(f, w) && f.inc > 0 && f.min <= f.max
    ensures Nth(w - 1 - v, Mirror(f, w), w, n) == w - 1 - Nth(v, f, w, n)
  {
    if n > 0 {
      NthMirror(v, f, w, n - 1);
      StepMirror(Nth(v, f, w, n - 1), f, w);
    }
  }

  /** An increment of w - d counts down by d from the maximum and starts again there. */
  lemma CountsDown(f: Field, w: nat, d: nat, n: nat)
    requires Fits(f, w) && 0 < d < w && f.inc == w - d && f.min <= f.max
    requires Restarts(Mirror(f, w), w)
    ensures var p := (f.max - f.min) / d + 1;
            Nth(f.max, f, w, n) == f.max - n % p * d
  {
    NthMirror(f.max, f, w, n);
    NthClosed(Mirror(f, w), w, n);
  }

  // ----- Several fields together -----

  ghost predicate Repeats(f: Field, w: nat, l: nat)
    requires Fits(f, w)
  {
    forall n: nat {:trigger Nth(f.min, f, w, n)} :: Nth(f.min, f, w, n + l) == Nth(f.min, f, w, n)
  }

  lemma ShiftRemainder(n: nat, l: nat, p: nat)
    requires p > 0 && l % p == 0
    ensures (n + l) % p == n % p
  {
    assert l == p * (l / p) && n == p * (n / p) + n % p;
    assert n + l == p * (n / p + l / p) + n % p;
    ModUnique(n + l, p, n / p + l / p, n % p);
  }

  /** A field repeats after `l` packets exactly when its period divides `l`. */
  lemma RepeatsExactly(f: Field, w: nat, l: nat)
    requires Fits(f, w) && f.inc > 0 && f.min <= f.max && Restarts(f, w)
    ensures Repeats(f, w, l) <==> l % Period(f) == 0
  {
    var p := Period(f);
    if l % p == 0 {
      forall n: nat
        ensures Nth(f.min, f, w, n + l) == Nth(f.min, f, w, n)
      {
        NthClosed(f, w, n + l);
        NthClosed(f, w, n);
        ShiftRemainder(n, l, p);
      }
    } else {
      NthClosed(f, w, l);
      assert l % p * f.inc > 0;
      assert Nth(f.min, f, w, 0 + l) != Nth(f.min, f, w, 0);
    }
  }

  /** The packets as a whole repeat exactly after the common multiples of the periods. */
  lemma TogetherExactly(fs: seq<Field>, ws: seq<nat>, l: nat)
    requires |fs| == |ws|
    requires forall i | 0 <= i < |fs| ::
               Fits(fs[i], ws[i]) && fs[i].inc > 0 && fs[i].min <= fs[i].max && Restarts(fs[i], ws[i])
    ensures (forall i | 0 <= i < |fs| :: Repeats(fs[i], ws[i], l)) <==>
            (forall i | 0 <= i < |fs| :: l % Period(fs[i]) == 0)
  {
    forall i | 0 <= i < |fs|
      ensures Repeats(fs[i], ws[i], l) <==> l % Period(fs[i]) == 0
    {
      RepeatsExactly(fs[i], ws[i], l);
    }
  }

  // ----- The port's generator -----

  const PORT_WIDTH: nat := 0x1_0000
  const TTL_WIDTH: nat := 0x100
  const ADDR_WIDTH: nat := 0x1_0000_0000

  predicate LegalSize(n: nat) {
    MIN_PKT_SIZE <= n <= MAX_PKT_SIZE
  }

  /** What the commands keep of the size settings, whether or not the bounds are in order. */
  predicate LegalSizes(f: Field) {
    LegalSize(f.start) && LegalSize(f.min) && LegalSize(f.max) && f.inc <= PG_ETHER_MAX_LEN
  }

  /** A size as the user gives it, with the checksum, clamped and taken off. */
  function Clamped(size: nat): (r: nat)
    ensures LegalSize(r)
  {
    if size < PG_ETHER_MIN_LEN then MIN_PKT_SIZE
    else if size > PG_ETHER_MAX_LEN then MAX_PKT_SIZE
    else size - PG_ETHER_CRC_LEN
  }

  function SizeCommand(f: Field, what: string, size: nat): Field {
    if what == "inc" || what == "increment" then
      f.(inc := if size > PG_ETHER_MAX_LEN then PG_ETHER_MAX_LEN else size)
    else if what == "start" then f.(start := Clamped(size))
    else if what == "min" || what == "minimum" then f.(min := Clamped(size))
    else if what == "max" || what == "maximum" then f.(max := Clamped(size))
    else f
  }

  datatype RangePacket = RangePacket(sport: nat, dport: nat, ttl: nat, src: nat, dst: nat, pktSize: nat)

  predicate Narrow(p: RangePacket) {
    && p.sport < PORT_WIDTH && p.dport < PORT_WIDTH && p.ttl < TTL_WIDTH
    && p.src < ADDR_WIDTH && p.dst < ADDR_WIDTH && p.pktSize < PORT_WIDTH
  }

  /** From 64 to 1518 bytes the checksum is taken off; below and above it is the smallest and the largest size. */
  predicate IsClamped(size: nat, r: nat) {
    if 64 <= size <= 1518 then r + 4 == size else r == if size < 64 then 60 else 1514
  }

  /** Each setting is changed by its own words and by no others. */
  lemma SizeWords(f: Field, what: string, size: nat)
    ensures var r := SizeCommand(f, what, size);
            && (if what in {"inc", "increment"} then r.inc <= size && (r.inc == size || r.inc == 1518 < size)
                else r.inc == f.inc)
            && (if what == "start" then IsClamped(size, r.start) else r.start == f.start)
            && (if what in {"min", "minimum"} then IsClamped(size, r.min) else r.min == f.min)
            && (if what in {"max", "maximum"} then IsClamped(size, r.max) else r.max == f.max)
  {
  }

  class RangePort {
    var sportRange: Field
    var dportRange: Field
    var ttlRange: Field
    var srcRange: Field
    var dstRange: Field
    var sizeRange: Field

    var sport: nat
    var dport: nat
    var ttl: nat
    var src: nat
    var dst: nat
    var pktSize: nat

    predicate Valid()
      reads this
    {
      && Fits(sportRange, PORT_WIDTH) && sport < PORT_WIDTH && Fits(dportRange, PORT_WIDTH) && dport < PORT_WIDTH
      && Fits(ttlRange, TTL_WIDTH) && ttl < TTL_WIDTH
      && Fits(srcRange, ADDR_WIDTH) && src < ADDR_WIDTH && Fits(dstRange, ADDR_WIDTH) && dst < ADDR_WIDTH
      && LegalSizes(sizeRange) && LegalSize(pktSize)
    }

    /** A 16-bit or 8-bit field: both bounds are compared with, one after the other. */
    static method StepField(v: nat, f: Field, w: nat) returns (r: nat)
      requires v < w && Fits(f, w)
      ensures r == Next(v, f, w)
    {
      if f.inc != 0 {
        r := (v + f.inc) % w;
        if r < f.min {
          r := f.max;
        }
        if r > f.max {
          r := f.min;
        }
      } else {
        r := f.start;
      }
    }

    /** An address: the second bound is compared with only when the first was kept. */
    static method StepAddress(v: nat, f: Field) returns (r: nat)
      requires v < ADDR_WIDTH && Fits(f, ADDR_WIDTH)
      ensures r == Next(v, f, ADDR_WIDTH)
    {
      if f.inc != 0 {
        r := (v + f.inc) % ADDR_WIDTH;
        if r < f.min {
          r := f.max;
        } else if r > f.max {
          r := f.min;
        }
      } else {
        r := f.start;
      }
    }

    /** The next packet. */
    method Construct()
      requires Valid()
      modifies this`sport, this`dport, this`ttl, this`src, this`dst, this`pktSize
      ensures Valid()
      ensures sport == Next(old(sport), sportRange, PORT_WIDTH) && dport == Next(old(dport), dportRange, PORT_WIDTH)
      ensures ttl == Next(old(ttl), ttlRange, TTL_WIDTH)
      ensures src == Next(old(src), srcRange, ADDR_WIDTH) && dst == Next(old(dst), dstRange, ADDR_WIDTH)
      ensures pktSize == Next(old(pktSize), sizeRange, PORT_WIDTH)
    {
      sport := StepField(sport, sportRange, PORT_WIDTH);
      dport := StepField(dport, dportRange, PORT_WIDTH);
      ttl := StepField(ttl, ttlRange, TTL_WIDTH);
      src := StepAddress(src, srcRange);
      dst := StepAddress(dst, dstRange);
      pktSize := StepSize(pktSize, sizeRange);
    }

    /** The fields of the packet that is under construction. */
    function Fields(): RangePacket
      reads this
    {
      RangePacket(sport, dport, ttl, src, dst, pktSize)
    }

    /** Fills a pool of `n` buffers: a packet is constructed for each of them and copied into it. */
    method SetupPool(n: nat) returns (pool: seq<RangePacket>)
      requires Valid()
      modifies this`sport, this`dport, this`ttl, this`src, this`dst, this`pktSize
      ensures Valid() && |pool| == n
      ensures forall i | 0 <= i < n :: Is(pool[i], i + 1, old(Fields()))
      ensures Is(Fields(), n, old(Fields()))
    {
      pool := [];
      var i := 0;
      while i < n
        invariant 0 <= i <= n && Valid() && |pool| == i
        invariant Is(Fields(), i, old(Fields()))
        invariant forall j | 0 <= j < i :: Is(pool[j], j + 1, old(Fields()))
      {
        Construct();
        pool := pool + [Fields()];
        i := i + 1;
      }
    }

    /** The `n`-th packet after one with the fields `p`. */
    predicate Is(x: RangePacket, n: nat, p: RangePacket)
      requires Valid() && Narrow(p)
      reads this
    {
      && x.sport == After(p.sport, sportRange, PORT_WIDTH, n) && x.dport == After(p.dport, dportRange, PORT_WIDTH, n)
      && x.ttl == After(p.ttl, ttlRange, TTL_WIDTH, n)
      && x.src == After(p.src, srcRange, ADDR_WIDTH, n) && x.dst == After(p.dst, dstRange, ADDR_WIDTH, n)
      && x.pktSize == After(p.pktSize, sizeRange, PORT_WIDTH, n)
    }

    /** The packet size, computed in 32 bits from its 16. */
    static method StepSize(v: nat, f: Field) returns (r: nat)
      requires LegalSize(v) && LegalSizes(f)
      ensures r == Next(v, f, PORT_WIDTH) && LegalSize(r)
    {
      if f.inc != 0 {
        r := v;
        r := r + f.inc;
        if r < f.min {
          r := f.max;
        } else if r > f.max {
          r := f.min;
        }
      } else {
        r := f.start;
      }
    }

    /** The size command; a `what` it does not know changes nothing. */
    method SetPktSize(what: string, size: nat)
      requires Valid()
      modifies this`sizeRange
      ensures Valid() && sizeRange == SizeCommand(old(sizeRange), what, size)
    {
      if what == "inc" || what == "increment" {
        var s := size;
        if s > PG_ETHER_MAX_LEN {
          s := PG_ETHER_MAX_LEN;
        }
        sizeRange := sizeRange.(inc := s);
      } else {
        var s := size;
        if s < PG_ETHER_MIN_LEN {
          s := MIN_PKT_SIZE;
        } else if s > PG_ETHER_MAX_LEN {
          s := MAX_PKT_SIZE;
        } else {
          s := s - PG_ETHER_CRC_LEN;
        }
        if what == "start" {
          sizeRange := sizeRange.(start := s);
        } else if what == "min" || what == "minimum" {
          sizeRange := sizeRange.(min := s);
        } else if what == "max" || what == "maximum" {
          sizeRange := sizeRange.(max := s);
        }
      }
    }
  }

  // ----- Every run of size commands and packets -----

  datatype SizeState = SizeState(range: Field, pktSize: nat)

  datatype SizeEvent = Command(what: string, size: nat) | Packet

  const SIZE_SETUP := SizeState(Field(MIN_PKT_SIZE, 0, MIN_PKT_SIZE, MAX_PKT_SIZE), MIN_PKT_SIZE)

  predicate SizeInv(s: SizeState) {
    LegalSizes(s.range) && LegalSize(s.pktSize)
  }

  function SizeStep(s: SizeState, e: SizeEvent): (r: SizeState)
    requires SizeInv(s)
    ensures SizeInv(r)
  {
    match e
    case Command(what, size) => s.(range := SizeCommand(s.range, what, size))
    case Packet => s.(pktSize := Next(s.pktSize, s.range, PORT_WIDTH))
  }

  function SizeRun(es: seq<SizeEvent>): (s: SizeState)
    ensures SizeInv(s)
  {
    if es == [] then SIZE_SETUP else SizeStep(SizeRun(es[..|es| - 1]), es[|es| - 1])
  }

  /**
   * Every packet of every run has a legal size, with or without its bounds in order; after a
   * packet that was stepped the size also lies between the bounds, if they are.
   */
  lemma SizesAreLegal(es: seq<SizeEvent>)
    ensures LegalSize(SizeRun(es).pktSize)
    ensures var s := SizeRun(es);
            es != [] && es[|es| - 1].Packet? && s.range.inc != 0 && s.range.min <= s.range.max ==>
              s.range.min <= s.pktSize <= s.range.max
  {
    if es != [] && es[|es| - 1].Packet? {
      var s := SizeRun(es[..|es| - 1]);
      if s.range.inc != 0 {
        StepStaysInRange(s.pktSize, s.range, PORT_WIDTH);
      }
    }
  }
}
