/** The Lehmer generator: seed <- seed * 16807 mod 2^31 - 1, with the division replaced by a shift
    and an add, and the period the source's comment claims for it. */
module Random {
  import opened Bits

  const M: nat := 2147483647
  const A: nat := 16807
  /** The inverse of A modulo M. */
  const B: nat := 1407677000

  /** The mathematical step. */
  function Lehmer(x: nat): nat {
    x * A % M
  }

  /** The step the code takes, whose fixed point M the mathematical step does not have. */
  function NextState(x: nat): nat {
    if x == M then M else Lehmer(x)
  }

  function After(x: nat, k: nat): nat {
    if k == 0 then x else NextState(After(x, k - 1))
  }

  function Power(x: nat, k: nat): nat {
    if k == 0 then 1 else x * Power(x, k - 1)
  }

  /** k mathematical steps. */
  function Steps(x: nat, k: nat): nat {
    if k == 0 then x else Lehmer(Steps(x, k - 1))
  }

  /** `(s & M) != 0 ? (s & M) : 1`. */
  function GoodSeed(s: u32): nat {
    if And(s, M) != 0 then And(s, M) else 1
  }

  lemma GoodSeedValue(s: u32)
    ensures GoodSeed(s) == if s % 0x8000_0000 != 0 then s % 0x8000_0000 else 1
    ensures 1 <= GoodSeed(s) <= M
  {
    MaskM(s);
  }

  function Folded(product: nat): nat {
    product / 0x8000_0000 + product % 0x8000_0000
  }

  /** `(product >> 31) + (product & M)`. */
  method Fold(product: nat) returns (r: nat)
    ensures r == Folded(product)
  {
    MaskM(product);
    r := product / 0x8000_0000 + And(product, M);
  }

  /** The reduction by shift and add overflows neither word and needs at most one subtraction. */
  lemma FastReduction(seed: nat)
    requires 1 <= seed <= M
    ensures var folded := Folded(seed * A);
            && seed * A < 0x1_0000_0000_0000_0000
            && 0 < folded < 0x1_0000_0000
            && (if folded > M then folded - M else folded) == NextState(seed)
            && 1 <= NextState(seed) <= M
  {
    var product := seed * A;
    var hi, lo := product / 0x8000_0000, product % 0x8000_0000;
    MaskM(product);
    assert product == hi * M + (hi + lo);
    if seed < M {
      NonZero(seed);
      if hi + lo > M {
        DivModUnique(product, M, hi + 1, hi + lo - M);
      } else if hi + lo < M {
        DivModUnique(product, M, hi, hi + lo);
      } else {
        DivModUnique(product, M, hi + 1, 0);
        assert false;
      }
    }
  }

  lemma MaskM(x: nat)
    ensures And(x, M) == x % 0x8000_0000
  {
    Pow2At32();
    AndMask(x, 31);
    assert Pow2(32) == 2 * Pow2(31);
  }

  class Random {
    var seed: nat

    ghost predicate Valid()
      reads this
    {
      1 <= seed <= M
    }

    constructor (s: u32)
      ensures Valid() && seed == GoodSeed(s)
    {
      GoodSeedValue(s);
      seed := GoodSeed(s);
    }

    method Reset(s: u32)
      modifies this
      ensures Valid() && seed == GoodSeed(s)
    {
      GoodSeedValue(s);
      seed := GoodSeed(s);
    }

    /** One step: 64-bit product, fold at bit 31 truncated to 32 bits, one conditional subtract. */
    method Next() returns (r: nat)
      requires Valid()
      modifies this
      ensures Valid() && r == seed
      ensures seed == NextState(old(seed))
    {
      var product := seed * A;
      FastReduction(seed);
      var folded := Fold(product);
      seed := folded % 0x1_0000_0000;
      if seed > M {
        seed := seed - M;
      }
      return seed;
    }

    /** k calls in a row. */
    method Skip(k: nat) returns (r: nat)
      requires Valid()
      modifies this
      ensures Valid() && r == seed
      ensures seed == After(old(seed), k)
      ensures old(seed) < M ==> 1 <= seed < M && seed == old(seed) * Power(A, k) % M
    {
      r := seed;
      for i := 0 to k
        invariant Valid() && r == seed == After(old(seed), i)
      {
        r := Next();
      }
      if old(seed) < M {
        AfterIsSteps(old(seed), k);
        StepsClosed(old(seed), k);
      }
    }
  }

  lemma {:induction false} AfterIsSteps(x: nat, k: nat)
    requires 0 < x < M
    ensures After(x, k) == Steps(x, k)
  {
    if k > 0 {
      AfterIsSteps(x, k - 1);
      StepsClosed(x, k - 1);
    }
  }

  lemma {:induction false} StuckAtM(k: nat)
    ensures After(M, k) == M
  {
    if k > 0 { StuckAtM(k - 1); }
  }

  // ---------------------------------------------------------------- modular arithmetic

  lemma MulModLeft(x: int, y: int, m: int)
    requires m > 0
    ensures x % m * y % m == x * y % m
  {
    var q := x / m;
    assert x == m * q + x % m;
    assert x * y == x % m * y + (q * y) * m;
    ModAddMultiple(x % m * y, q * y, m);
  }

  lemma MulModRight(x: int, y: int, m: int)
    requires m > 0
    ensures x * (y % m) % m == x * y % m
  {
    MulModLeft(y, x, m);
  }

  /** Multiplying by B undoes a step. */
  lemma Undo(x: nat)
    requires x < M
    ensures Lehmer(x) * B % M == x
  {
    MulModLeft(x * A, B, M);
    assert A * B == 11017 * M + 1;
    assert x * A * B == x + (11017 * x) * M;
    ModAddMultiple(x, 11017 * x, M);
  }

  lemma NonZero(x: nat)
    requires 0 < x < M
    ensures 0 < Lehmer(x) < M
  {
    Undo(x);
  }

  /** The step is injective, and onto: every seed has exactly one predecessor. */
  lemma StepBijective(x: nat, y: nat)
    requires 0 < x < M && 0 < y < M
    ensures Lehmer(x) == Lehmer(y) ==> x == y
    ensures 0 < y * B % M < M && Lehmer(y * B % M) == y
  {
    Undo(x);
    Undo(y);
    var z := y * B % M;
    MulModLeft(y * B, A, M);
    assert A * B == 11017 * M + 1;
    assert y * B * A == y + (11017 * y) * M;
    ModAddMultiple(y, 11017 * y, M);
  }

  lemma StepMultiplies(x: nat, p: nat)
    ensures x * p >= 0 && Lehmer(x * p % M) == x * (A * p) % M
  {
    MulPositive(x, p);
    MulModLeft(x * p, A, M);
    assert x * p * A == x * (A * p);
  }

  /** k steps multiply by the k-th power, and never leave [1, M - 1]. */
  lemma {:induction false} StepsClosed(x: nat, k: nat)
    requires 0 < x < M
    ensures Steps(x, k) == x * Power(A, k) % M
    ensures 0 < Steps(x, k) < M
  {
    if k > 0 {
      var p := Power(A, k - 1);
      StepsClosed(x, k - 1);
      NonZero(Steps(x, k - 1));
      StepMultiplies(x, p);
    }
  }
}
