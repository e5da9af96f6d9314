/** The generator's comment says that every good seed "will end up cycling through every number in
    [1, M-1]".  The proof: 16807 has multiplicative order M - 1 modulo M, because the order is
    divisible by each prime power of M - 1 = 2 * 9 * 7 * 11 * 31 * 151 * 331. */
module RandomPeriod {
  import opened Bits
  import opened Random
  import opened RandomPowers

  // ---------------------------------------------------------------- orders

  ghost predicate IsOrder(x: nat, d: nat) {
    d > 0 && PowerMod(x, d) == 1 && forall j :: 0 < j < d ==> PowerMod(x, j) != 1
  }

  lemma OrderExists(x: nat, n: nat) returns (d: nat)
    requires n > 0 && PowerMod(x, n) == 1
    ensures IsOrder(x, d) && d <= n
  {
    d := 1;
    while PowerMod(x, d) != 1
      invariant 0 < d <= n
      invariant forall j :: 0 < j < d ==> PowerMod(x, j) != 1
      decreases n - d
    {
      d := d + 1;
    }
  }

  /** Every exponent that gives 1 is a multiple of the order. */
  lemma OrderDivides(x: nat, d: nat, n: nat)
    requires IsOrder(x, d) && PowerMod(x, n) == 1
    ensures n % d == 0
  {
    var q, r := n / d, n % d;
    MulPositive(d, q);
    assert n == d * q + r;
    PowerModMul(x, d, q);
    OnePower(q);
    PowerModAdd(x, d * q, r);
  }

  lemma {:induction false} OnePower(k: nat)
    ensures PowerMod(1, k) == 1
  {
    if k > 0 { OnePower(k - 1); }
  }

  predicate Prime(q: nat) {
    q > 1 && forall d: nat :: 1 < d < q ==> q % d != 0
  }

  lemma SmallDivisor(q: nat, d: nat) returns (s: nat)
    requires 1 < d < q && q % d == 0
    ensures 1 < s && s * s <= q && q % s == 0
  {
    var m := q / d;
    assert q == d * m;
    if d <= m {
      MulPositive(d, m - d);
      return d;
    }
    MulPositive(m, d - m);
    assert m != 1 && m != 0;
    DivModUnique(q, m, d, 0);
    return m;
  }

  lemma SmallSquare(s: nat)
    requires s * s <= 331
    ensures s < 19
  {
    if s >= 19 { MulPositive(s - 19, s + 19); }
  }

  lemma PrimeFactors(q: nat)
    requires q == 2 || q == 7 || q == 11 || q == 31 || q == 151 || q == 331
    ensures Prime(q)
  {
    forall d: nat | 1 < d < q ensures q % d != 0 {
      if q % d == 0 {
        var s := SmallDivisor(q, d);
        SmallSquare(s);
        assert false;
      }
    }
  }

  /** A prime q divides the order as soon as A^(N/q) is not 1. */
  lemma PrimeDividesOrder(q: nat, cofactor: nat, d: nat)
    requires Prime(q) && q * cofactor == N
    requires IsOrder(A, d) && PowerMod(A, N) == 1 && PowerMod(A, cofactor) != 1
    ensures d % q == 0
  {
    var y := PowerMod(A, cofactor);
    PowerModMul(A, cofactor, q);
    var o := OrderExists(y, q);
    OrderDivides(y, o, q);
    if o == 1 {
      PowerOne(y);
      assert false;
    } else if o < q {
      assert false;
    }
    YieldsOne(cofactor, d);
    OrderDivides(y, q, d);
  }

  lemma YieldsOne(cofactor: nat, d: nat)
    requires PowerMod(A, d) == 1
    ensures PowerMod(PowerMod(A, cofactor), d) == 1
  {
    PowerModMul(A, cofactor, d);
    PowerModMul(A, d, cofactor);
    OnePower(cofactor);
    assert cofactor * d == d * cofactor;
  }

  /** 9 divides the order too: the order of A^(N/9) divides 9 and is not 1 or 3. */
  lemma NineDividesOrder(d: nat)
    requires IsOrder(A, d) && PowerMod(A, N) == 1 && PowerMod(A, 715827882) != 1
    ensures d % 9 == 0
  {
    PowerModMul(A, 238609294, 9);
    PowerModMul(A, 238609294, 3);
    OrderIsNine(PowerMod(A, 238609294));
    YieldsOne(238609294, d);
    OrderDivides(PowerMod(A, 238609294), 9, d);
  }

  lemma OrderIsNine(y: nat)
    requires PowerMod(y, 9) == 1 && PowerMod(y, 3) != 1
    ensures IsOrder(y, 9)
  {
    var o := OrderExists(y, 9);
    OrderDivides(y, o, 9);
    assert o == 1 || o == 3 || o == 9;
    if o == 1 {
      PowerModMul(y, 1, 3);
      OnePower(3);
      assert false;
    }
  }

  /** Coprime divisors multiply; u and v are their Bezout coefficients. */
  lemma CoprimeDivisors(x: nat, a: nat, b: nat, u: int, v: int)
    requires a > 0 && b > 0 && x % a == 0 && x % b == 0 && u * a + v * b == 1
    ensures a * b > 0 && x % (a * b) == 0
  {
    var s, t := x / a, x / b;
    assert a * b > 0 by { MulPositive(a - 1, b); assert a * b == (a - 1) * b + b; }
    assert x == a * s && x == b * t;
    assert x == u * a * x + v * b * x by { assert (u * a + v * b) * x == u * a * x + v * b * x; }
    assert u * a * x == (a * b) * (u * t) by { assert u * a * (b * t) == (a * b) * (u * t); }
    assert v * b * x == (a * b) * (v * s) by { assert v * b * (a * s) == (a * b) * (v * s); }
    assert x == (a * b) * (u * t + v * s) + 0;
    DivModUnique(x, a * b, u * t + v * s, 0);
  }

  predicate Divisible(d: nat) {
    && d % 2 == 0 && d % 9 == 0 && d % 7 == 0 && d % 11 == 0
    && d % 31 == 0 && d % 151 == 0 && d % 331 == 0
  }

  lemma OrderIsFull()
    ensures IsOrder(A, N)
  {
    FullPower();
    var d := OrderExists(A, N);
    assert Divisible(d) by {
      PowersOfF();
      PrimeFactors(2);
      PrimeDividesOrder(2, 1073741823, d);
      PowersOfG();
      NineDividesOrder(d);
      PrimeFactors(11);
      PrimeDividesOrder(11, 195225786, d);
      PrimeFactors(331);
      PrimeDividesOrder(331, 6487866, d);
      PowersOfH();
      PrimeFactors(7);
      PrimeDividesOrder(7, 306783378, d);
      PrimeFactors(31);
      PrimeDividesOrder(31, 69273666, d);
      PrimeFactors(151);
      PrimeDividesOrder(151, 14221746, d);
    }
    AllFactorsDivide(d);
  }

  lemma AllFactorsDivide(d: nat)
    requires 0 < d <= N
    requires Divisible(d)
    ensures d == N
  {
    CoprimeDivisors(d, 2, 9, 5, -1);
    CoprimeDivisors(d, 18, 7, 2, -5);
    CoprimeDivisors(d, 126, 11, 9, -103);
    CoprimeDivisors(d, 1386, 31, 24, -1073);
    CoprimeDivisors(d, 42966, 151, 35, -9959);
    CoprimeDivisors(d, 6487866, 331, 56, -1097645);
  }

  // ---------------------------------------------------------------- the cycle

  lemma {:induction false} PowersInRange(k: nat)
    ensures 0 < PowerMod(A, k) < M && PowerMod(A, k) == Steps(1, k)
  {
    StepsClosed(1, k);
  }

  /** No power repeats before the order. */
  lemma {:induction false} PowersDistinct(i: nat, j: nat)
    requires i < j && j - i < N
    ensures PowerMod(A, i) != PowerMod(A, j)
  {
    if i == 0 {
      OrderIsFull();
    } else {
      PowersDistinct(i - 1, j - 1);
      PowersInRange(i - 1);
      PowersInRange(j - 1);
      PowersInRange(i);
      PowersInRange(j);
      StepBijective(PowerMod(A, i - 1), PowerMod(A, j - 1));
    }
  }

  ghost function FirstPowers(k: nat): set<nat> {
    if k == 0 then {} else FirstPowers(k - 1) + {PowerMod(A, k - 1)}
  }

  lemma {:induction false} FirstPowersMembers(k: nat)
    ensures forall y :: y in FirstPowers(k) <==> exists i: nat :: i < k && PowerMod(A, i) == y
  {
    if k > 0 { FirstPowersMembers(k - 1); }
  }

  lemma {:induction false} FirstPowersCount(k: nat)
    requires k <= N
    ensures |FirstPowers(k)| == k
  {
    if k > 0 {
      FirstPowersCount(k - 1);
      FirstPowersMembers(k - 1);
      forall i: nat | i < k - 1 ensures PowerMod(A, i) != PowerMod(A, k - 1) {
        PowersDistinct(i, k - 1);
      }
    }
  }

  ghost function Seeds(k: nat): set<nat> {
    if k == 0 then {} else Seeds(k - 1) + {k}
  }

  lemma {:induction false} SeedsCount(k: nat)
    ensures |Seeds(k)| == k
    ensures forall x :: x in Seeds(k) <==> 0 < x <= k
  {
    if k > 0 { SeedsCount(k - 1); }
  }

  lemma SameSizeSubset(a: set<nat>, b: set<nat>)
    requires a <= b && |a| == |b|
    ensures a == b
  {
    assert |b - a| == |b| - |a|;
  }

  /** Every seed is a power of A: the distinct powers leave none out. */
  lemma EverySeedIsAPower(y: nat) returns (k: nat)
    requires 0 < y < M
    ensures k < N && PowerMod(A, k) == y
  {
    FirstPowersMembers(N);
    FirstPowersCount(N);
    SeedsCount(N);
    forall z | z in FirstPowers(N) ensures z in Seeds(N) {
      var i: nat :| i < N && PowerMod(A, i) == z;
      PowersInRange(i);
    }
    SameSizeSubset(FirstPowers(N), Seeds(N));
    assert y in Seeds(N);
    k :| k < N && PowerMod(A, k) == y;
  }

  /** The period is full: from any good seed each number in [1, M - 1] comes up exactly once in
      every M - 1 consecutive states. */
  lemma FullCycle(x: nat, y: nat)
    requires 0 < x < M && 0 < y < M
    ensures exists k: nat :: k < N && Steps(x, k) == y
    ensures forall i: nat, j: nat :: i < N && j < N && Steps(x, i) == y && Steps(x, j) == y ==> i == j
    ensures Steps(x, N) == x
  {
    var a := EverySeedIsAPower(x);
    var b := EverySeedIsAPower(y);
    var k := if a <= b then b - a else b + N - a;
    FromPower(x, a, k);
    FromPower(x, a, N);
    AroundOnce(a);
    AroundOnce(b);
    assert Steps(x, k) == y;
    forall i: nat, j: nat | i < N && j < N && Steps(x, i) == y && Steps(x, j) == y ensures i == j {
      FromPower(x, a, i);
      FromPower(x, a, j);
      if i < j { PowersDistinct(a + i, a + j); }
      if j < i { PowersDistinct(a + j, a + i); }
    }
  }

  lemma FromPower(x: nat, a: nat, k: nat)
    requires 0 < x < M && PowerMod(A, a) == x
    ensures Steps(x, k) == PowerMod(A, a + k)
  {
    StepsClosed(x, k);
    PowerModAdd(A, a, k);
    MulModRight(x, Power(A, k), M);
  }

  lemma AroundOnce(k: nat)
    ensures PowerMod(A, k + N) == PowerMod(A, k)
  {
    FullPower();
    PowerModAdd(A, k, N);
  }

  ghost predicate Reaches(x: nat, y: nat) {
    exists k: nat :: After(x, k) == y
  }

  /** A constructed generator reaches every number in [1, M - 1] exactly when the low 31 bits of
      its seed are not all ones; with all ones the state is M for ever. */
  lemma ReachesEverything(s: u32)
    ensures (forall y :: 0 < y < M ==> Reaches(GoodSeed(s), y)) <==> s % 0x8000_0000 != 0x7fff_ffff
  {
    var x := GoodSeed(s);
    GoodSeedValue(s);
    if x < M {
      forall y | 0 < y < M ensures Reaches(x, y) {
        FullCycle(x, y);
        var k: nat :| k < N && Steps(x, k) == y;
        AfterIsSteps(x, k);
      }
    } else {
      if Reaches(x, 1) {
        var k: nat :| After(x, k) == 1;
        StuckAtM(k);
        assert false;
      }
    }
  }
}
