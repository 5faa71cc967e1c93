/** The xorshift64* generator behind the random bitfields. Its state update is a permutation
    of the 64-bit words, so no seed is lost, no two seeds merge, and every seed recurs. */
module Xorshift {

  const STATES: nat := 0x1_0000_0000_0000_0000

  function Xor(a: bv64, b: bv64): bv64 { a ^ b }
  function Right12(a: bv64): bv64 { a >> 12 }
  function Right24(a: bv64): bv64 { a >> 24 }
  function Right27(a: bv64): bv64 { a >> 27 }
  function Right48(a: bv64): bv64 { a >> 48 }
  function Right54(a: bv64): bv64 { a >> 54 }
  function Left25(a: bv64): bv64 { a << 25 }
  function Left50(a: bv64): bv64 { a << 50 }

  /** The three updates of one call. */
  function StepA(x: bv64): bv64 { Xor(x, Right12(x)) }
  function StepB(x: bv64): bv64 { Xor(x, Left25(x)) }
  function StepC(x: bv64): bv64 { Xor(x, Right27(x)) }

  /** The state a call leaves behind. */
  function Next(x: bv64): bv64 { StepC(StepB(StepA(x))) }

  lemma XorIs(a: bv64, b: bv64) ensures Xor(a, b) == a ^ b {}
  lemma Right12Is(a: bv64) ensures Right12(a) == a >> 12 {}
  lemma Left25Is(a: bv64) ensures Left25(a) == a << 25 {}
  lemma Right27Is(a: bv64) ensures Right27(a) == a >> 27 {}

  lemma NextByShifts(x: bv64, a: bv64, b: bv64)
    requires a == Xor(x, Right12(x)) && b == Xor(a, Left25(a))
    ensures Next(x) == Xor(b, Right27(b))
  {
  }

  // ---------------------------------------------------------------- undoing one call

  // The squares of the steps and the fourth power of StepA; their squares shift everything out.
  function StepA2(x: bv64): bv64 { Xor(x, Right24(x)) }
  function StepA4(x: bv64): bv64 { Xor(x, Right48(x)) }
  function StepB2(x: bv64): bv64 { Xor(x, Left50(x)) }
  function StepC2(x: bv64): bv64 { Xor(x, Right54(x)) }

  function UndoA(y: bv64): bv64 { StepA4(StepA2(StepA(y))) }
  function UndoB(y: bv64): bv64 { StepB2(StepB(y)) }
  function UndoC(y: bv64): bv64 { StepC2(StepC(y)) }

  function Prev(y: bv64): bv64 { UndoA(UndoB(UndoC(y))) }

  lemma Telescope(a: bv64, b: bv64, c: bv64) ensures Xor(Xor(a, b), Xor(b, c)) == Xor(a, c) {}
  lemma XorZero(a: bv64) ensures Xor(a, 0) == a {}

  lemma Right12IsLinear(a: bv64, b: bv64) ensures Right12(Xor(a, b)) == Xor(Right12(a), Right12(b)) {}
  lemma Right24IsLinear(a: bv64, b: bv64) ensures Right24(Xor(a, b)) == Xor(Right24(a), Right24(b)) {}
  lemma Right27IsLinear(a: bv64, b: bv64) ensures Right27(Xor(a, b)) == Xor(Right27(a), Right27(b)) {}
  lemma Right48IsLinear(a: bv64, b: bv64) ensures Right48(Xor(a, b)) == Xor(Right48(a), Right48(b)) {}
  lemma Right54IsLinear(a: bv64, b: bv64) ensures Right54(Xor(a, b)) == Xor(Right54(a), Right54(b)) {}
  lemma Left25IsLinear(a: bv64, b: bv64) ensures Left25(Xor(a, b)) == Xor(Left25(a), Left25(b)) {}
  lemma Left50IsLinear(a: bv64, b: bv64) ensures Left50(Xor(a, b)) == Xor(Left50(a), Left50(b)) {}

  lemma Right12Twice(a: bv64) ensures Right12(Right12(a)) == Right24(a) {}
  lemma Right24Twice(a: bv64) ensures Right24(Right24(a)) == Right48(a) {}
  lemma Right27Twice(a: bv64) ensures Right27(Right27(a)) == Right54(a) {}
  lemma Left25Twice(a: bv64) ensures Left25(Left25(a)) == Left50(a) {}
  lemma Right48Twice(a: bv64) ensures Right48(Right48(a)) == 0 {}
  lemma Right54Twice(a: bv64) ensures Right54(Right54(a)) == 0 {}
  lemma Left50Twice(a: bv64) ensures Left50(Left50(a)) == 0 {}

  lemma SquareA(x: bv64)
    ensures StepA(StepA(x)) == StepA2(x)
  {
    Right12IsLinear(x, Right12(x));
    Right12Twice(x);
    Telescope(x, Right12(x), Right24(x));
  }

  lemma SquareA2(x: bv64)
    ensures StepA2(StepA2(x)) == StepA4(x)
  {
    Right24IsLinear(x, Right24(x));
    Right24Twice(x);
    Telescope(x, Right24(x), Right48(x));
  }

  lemma SquareA4(x: bv64)
    ensures StepA4(StepA4(x)) == x
  {
    Right48IsLinear(x, Right48(x));
    Right48Twice(x);
    Telescope(x, Right48(x), 0);
    XorZero(x);
  }

  lemma SquareB(x: bv64)
    ensures StepB(StepB(x)) == StepB2(x)
  {
    Left25IsLinear(x, Left25(x));
    Left25Twice(x);
    Telescope(x, Left25(x), Left50(x));
  }

  lemma SquareB2(x: bv64)
    ensures StepB2(StepB2(x)) == x
  {
    Left50IsLinear(x, Left50(x));
    Left50Twice(x);
    Telescope(x, Left50(x), 0);
    XorZero(x);
  }

  lemma SquareC(x: bv64)
    ensures StepC(StepC(x)) == StepC2(x)
  {
    Right27IsLinear(x, Right27(x));
    Right27Twice(x);
    Telescope(x, Right27(x), Right54(x));
  }

  lemma SquareC2(x: bv64)
    ensures StepC2(StepC2(x)) == x
  {
    Right54IsLinear(x, Right54(x));
    Right54Twice(x);
    Telescope(x, Right54(x), 0);
    XorZero(x);
  }

  lemma ACommutesWithA2(x: bv64)
    ensures StepA(StepA2(x)) == StepA2(StepA(x))
  {
    SquareA(x);
    SquareA(StepA(x));
  }

  lemma UndoesA(x: bv64)
    ensures UndoA(StepA(x)) == x && StepA(UndoA(x)) == x
  {
    SquareA(x);
    SquareA2(x);
    SquareA4(x);
    var z := StepA2(StepA(x));
    SquareA2(z);
    ACommutesWithA2(StepA2(z));
    ACommutesWithA2(z);
    SquareA2(StepA(z));
    ACommutesWithA2(StepA(x));
  }

  lemma UndoesB(x: bv64)
    ensures UndoB(StepB(x)) == x && StepB(UndoB(x)) == x
  {
    SquareB(x);
    SquareB2(x);
    SquareB(StepB(x));
    SquareB(StepB(StepB(x)));
  }

  lemma UndoesC(x: bv64)
    ensures UndoC(StepC(x)) == x && StepC(UndoC(x)) == x
  {
    SquareC(x);
    SquareC2(x);
    SquareC(StepC(x));
    SquareC(StepC(StepC(x)));
  }

  /** Every state has exactly one predecessor. */
  lemma NextIsPermutation(x: bv64)
    ensures Prev(Next(x)) == x && Next(Prev(x)) == x
  {
    UndoesA(x);
    UndoesB(StepA(x));
    UndoesC(StepB(StepA(x)));
    UndoesC(x);
    UndoesB(UndoC(x));
    UndoesA(UndoB(UndoC(x)));
  }

  lemma ZeroIsFixed()
    ensures Next(0) == 0
  {
  }

  // ---------------------------------------------------------------- runs

  function Iter(x: bv64, n: nat): bv64 {
    if n == 0 then x else Next(Iter(x, n - 1))
  }

  /** After any number of calls: distinct seeds stay distinct, and only 0 leads to 0. */
  lemma {:induction false} RunsNeverMerge(x: bv64, y: bv64, n: nat)
    ensures Iter(x, n) == Iter(y, n) <==> x == y
    ensures Iter(x, n) == 0 <==> x == 0
  {
    if n > 0 {
      RunsNeverMerge(x, y, n - 1);
      NextIsPermutation(Iter(x, n - 1));
      NextIsPermutation(Iter(y, n - 1));
      ZeroIsFixed();
      NextIsPermutation(0);
    }
  }

  lemma {:induction false} IterAdds(x: bv64, m: nat, n: nat)
    ensures Iter(x, m + n) == Iter(Iter(x, m), n)
  {
    if n > 0 {
      IterAdds(x, m, n - 1);
    }
  }

  lemma WordIsItsValue(x: bv64)
    ensures (x as nat) as bv64 == x && x as nat < STATES
  {
  }

  function Value(x: bv64): nat { x as nat }

  /** Things numbered below `n` without repetition are at most `n`. */
  lemma {:induction false} NumberedBelow<T(!new)>(s: set<T>, number: T -> nat, n: nat)
    requires forall x | x in s :: number(x) < n
    requires forall x, y | x in s && y in s && number(x) == number(y) :: x == y
    ensures |s| <= n
  {
    if w :| w in s && number(w) == n - 1 {
      NumberedBelow(s - {w}, number, n - 1);
    } else if n > 0 {
      NumberedBelow(s, number, n - 1);
    } else {
      assert s == {};
    }
  }

  lemma WordsCard(s: set<bv64>)
    ensures |s| <= STATES
  {
    forall x | x in s ensures Value(x) < STATES { WordIsItsValue(x); }
    forall x, y | x in s && y in s && Value(x) == Value(y) ensures x == y {
      WordIsItsValue(x);
      WordIsItsValue(y);
    }
    NumberedBelow(s, Value, STATES);
  }

  ghost predicate Reached(x: bv64, n: nat, y: bv64) {
    exists i :: 0 <= i < n && Iter(x, i) == y
  }

  /** The first `n` states of a run that repeats none of them. */
  lemma {:induction false} DistinctStates(x: bv64, n: nat) returns (s: set<bv64>)
    requires forall i, j :: 0 <= i < j < n ==> Iter(x, i) != Iter(x, j)
    ensures |s| == n && forall y | y in s :: Reached(x, n, y)
  {
    s := {};
    if n > 0 {
      var rest := DistinctStates(x, n - 1);
      assert !Reached(x, n - 1, Iter(x, n - 1));
      s := rest + {Iter(x, n - 1)};
      forall y | y in s ensures Reached(x, n, y) {
        assert y in rest ==> Reached(x, n - 1, y);
      }
    }
  }

  /** Every seed comes back: it lies on a cycle, with no lead-in. */
  lemma SeedRecurs(x: bv64)
    ensures exists n: nat :: 0 < n <= STATES && Iter(x, n) == x
  {
    if forall i, j :: 0 <= i < j < STATES + 1 ==> Iter(x, i) != Iter(x, j) {
      var s := DistinctStates(x, STATES + 1);
      WordsCard(s);
      assert false;
    }
    var i, j :| 0 <= i < j < STATES + 1 && Iter(x, i) == Iter(x, j);
    IterAdds(x, j - i, i);
    RunsNeverMerge(x, Iter(x, j - i), i);
    assert 0 < j - i <= STATES && Iter(x, j - i) == x;
  }

  // ---------------------------------------------------------------- outputs

  /** The multiplier is odd, so it has an inverse: the state can be told from the output. */
  lemma OutputGivesState(x: bv64)
    ensures x * 0x2545_F491_4F6C_DD1D * 0x5907_1D96_D81E_CD35 == x
  {
  }

  lemma OutputsDiffer(x: bv64, y: bv64)
    ensures x * 0x2545_F491_4F6C_DD1D == y * 0x2545_F491_4F6C_DD1D <==> x == y
  {
  }

  /** The n-th outputs of two generators agree only if their seeds do. */
  lemma OutputsNeverMerge(x: bv64, y: bv64, n: nat)
    ensures Iter(x, n) * 0x2545_F491_4F6C_DD1D == Iter(y, n) * 0x2545_F491_4F6C_DD1D <==> x == y
  {
    RunsNeverMerge(x, y, n);
    OutputsDiffer(Iter(x, n), Iter(y, n));
  }

  /** The generator object: xor_state and the call that updates it. */
  class Generator {
    var state: bv64
    ghost var calls: nat
    ghost var seed: bv64

    ghost predicate Valid()
      reads this
    {
      state == Iter(seed, calls) && seed != 0
    }

    constructor (seed: bv64)
      requires seed != 0
      ensures Valid() && this.seed == seed && calls == 0
    {
      state := seed;
      this.seed := seed;
      calls := 0;
    }

    /** The three in-place updates. */
    method Update()
      requires Valid()
      modifies this
      ensures Valid() && seed == old(seed) && calls == old(calls) + 1
      ensures state != 0 && state == Next(old(state))
    {
      var x := state;
      x := Xor(x, Right12(x));
      x := Xor(x, Left25(x));
      x := Xor(x, Right27(x));
      state := x;
      calls := calls + 1;
      RunsNeverMerge(seed, seed, calls);
    }

    method Call() returns (r: bv64)
      requires Valid()
      modifies this
      ensures Valid() && seed == old(seed) && calls == old(calls) + 1
      ensures state != 0 && state == Next(old(state)) && r == state * 0x2545_F491_4F6C_DD1D
    {
      Update();
      r := state * 0x2545_F491_4F6C_DD1D;
    }
  }
}
