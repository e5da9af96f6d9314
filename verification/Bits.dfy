/** Machine words as natural numbers.  `x << k` and `x >> k` are written as multiplication and
    division by a power of two, truncation to w bits as `% Pow2(w)`; the bitwise operators are
    defined bit by bit, and the lemmas say what the source's masks compute. */
module Bits {

  type u32 = x: int | 0 <= x < 0x1_0000_0000
  type u64 = x: int | 0 <= x < 0x1_0000_0000_0000_0000
  type i64 = x: int | -0x8000_0000_0000_0000 <= x < 0x8000_0000_0000_0000

  /** A value stored in a 32-bit `int`, in two's complement. */
  function Int32(n: int): int {
    (n + 0x8000_0000) % 0x1_0000_0000 - 0x8000_0000
  }

  lemma Int32Next(n: int)
    ensures Int32(Int32(n) + 1) == Int32(n + 1)
  {}

  function Pow2(k: nat): (p: nat)
    ensures p > 0
  {
    if k == 0 then 1 else 2 * Pow2(k - 1)
  }

  function And(a: nat, b: nat): nat {
    if a == 0 || b == 0 then 0 else (if a % 2 == 1 && b % 2 == 1 then 1 else 0) + 2 * And(a / 2, b / 2)
  }

  function Or(a: nat, b: nat): nat {
    if a == 0 then b
    else if b == 0 then a
    else (if a % 2 == 1 || b % 2 == 1 then 1 else 0) + 2 * Or(a / 2, b / 2)
  }

  function Xor(a: nat, b: nat): nat {
    if a == 0 then b
    else if b == 0 then a
    else (a + b) % 2 + 2 * Xor(a / 2, b / 2)
  }

  lemma DivModUnique(x: int, m: int, q: int, r: int)
    requires 0 <= r < m && x == m * q + r
    ensures x / m == q && x % m == r
  {
    var q', r' := x / m, x % m;
    assert m * (q - q') == r' - r;
    MultipleTooLarge(m, q - q');
  }

  /** The only multiple of m strictly between -m and m is 0. */
  lemma MultipleTooLarge(m: int, d: int)
    requires m > 0
    ensures d != 0 ==> m * d >= m || m * d <= -m
  {
    if d > 0 { MulPositive(m, d - 1); }
    if d < 0 { MulPositive(m, -d - 1); }
  }

  lemma MulPositive(a: int, b: int)
    requires a >= 0 && b >= 0
    ensures a * b >= 0
  {}

  lemma {:induction false} Pow2Add(j: nat, k: nat)
    ensures Pow2(j + k) == Pow2(j) * Pow2(k)
  {
    if j > 0 {
      Pow2Add(j - 1, k);
      assert Pow2(j) * Pow2(k) == 2 * (Pow2(j - 1) * Pow2(k));
    }
  }

  lemma {:induction false} Pow2Monotone(j: nat, k: nat)
    requires j <= k
    ensures Pow2(j) <= Pow2(k)
  {
    if j < k { Pow2Monotone(j, k - 1); }
  }

  lemma Pow2At7()
    ensures Pow2(7) == 0x80
  {}

  lemma Pow2At8()
    ensures Pow2(8) == 0x100
  {}

  lemma Pow2At32()
    ensures Pow2(32) == 0x1_0000_0000
  {
    Pow2At8();
    Pow2Add(8, 8);
    Pow2Add(16, 16);
  }

  lemma Pow2At56()
    ensures Pow2(56) == 0x100_0000_0000_0000
  {
    Pow2Add(8, 16);
    Pow2Add(8, 8);
    Pow2At8();
    Pow2At32();
    Pow2Add(24, 32);
  }

  lemma Pow2At64()
    ensures Pow2(64) == 0x1_0000_0000_0000_0000
  {
    Pow2At32();
    Pow2Add(32, 32);
  }

  lemma HalvedDivMod(a: nat, p: nat)
    requires p > 0
    ensures a / (2 * p) == a / 2 / p && a % (2 * p) == a % 2 + 2 * (a / 2 % p)
  {
    var q, r := a / 2 / p, a / 2 % p;
    assert a / 2 == p * q + r;
    assert a == (2 * p) * q + (a % 2 + 2 * r) by { assert (2 * p) * q == 2 * (p * q); }
    DivModUnique(a, 2 * p, q, a % 2 + 2 * r);
  }

  /** The low k bits: `a & (2^k - 1)`. */
  lemma {:induction false} AndMask(a: nat, k: nat)
    ensures And(a, Pow2(k) - 1) == a % Pow2(k)
  {
    if k == 0 {
    } else if a == 0 {
      DivModUnique(0, Pow2(k), 0, 0);
    } else {
      var p := Pow2(k - 1);
      AndMask(a / 2, k - 1);
      HalvedDivMod(a, p);
      AndOdd(a, p - 1);
    }
  }

  lemma AndOdd(a: nat, b: nat)
    ensures And(a, 2 * b + 1) == a % 2 + 2 * And(a / 2, b)
  {
    assert (2 * b + 1) / 2 == b;
  }

  /** Testing one bit: `a & 2^k`. */
  lemma {:induction false} AndBit(a: nat, k: nat)
    ensures And(a, Pow2(k)) == if a / Pow2(k) % 2 == 1 then Pow2(k) else 0
  {
    if k == 0 {
      assert And(a / 2, 0) == 0;
    } else if a > 0 {
      var p := Pow2(k - 1);
      AndBit(a / 2, k - 1);
      HalvedDivMod(a, p);
      assert And(a, 2 * p) == 2 * And(a / 2, p);
      assert 2 * p / 2 == p;
    } else {
      assert 0 / Pow2(k) == 0;
    }
  }

  /** Setting one bit: `a | 2^k` adds it when it is clear. */
  lemma {:induction false} OrBit(a: nat, k: nat)
    ensures Or(a, Pow2(k)) == if a / Pow2(k) % 2 == 1 then a else a + Pow2(k)
  {
    if k == 0 {
      assert Or(a / 2, 0) == a / 2;
    } else if a > 0 {
      var p := Pow2(k - 1);
      OrBit(a / 2, k - 1);
      HalvedDivMod(a, p);
      assert 2 * p / 2 == p;
    } else {
      assert 0 / Pow2(k) == 0;
    }
  }

  /** The low k bits of x are zero. */
  predicate LowBitsClear(x: nat, k: nat) {
    k == 0 || (x % 2 == 0 && LowBitsClear(x / 2, k - 1))
  }

  lemma {:induction false} MultipleClear(q: nat, k: nat)
    ensures q * Pow2(k) >= 0 && LowBitsClear(q * Pow2(k), k)
  {
    MulPositive(q, Pow2(k));
    if k > 0 {
      MultipleClear(q, k - 1);
      assert q * Pow2(k) == 2 * (q * Pow2(k - 1));
    }
  }

  /** `|` is `+` when the right operand has only bits above the left one. */
  lemma {:induction false} OrDisjoint(r: nat, x: nat, k: nat)
    requires r < Pow2(k) && LowBitsClear(x, k)
    ensures Or(r, x) == r + x
  {
    if r > 0 && x > 0 { OrDisjoint(r / 2, x / 2, k - 1); }
  }

  lemma {:induction false} OrCommutes(a: nat, b: nat)
    ensures Or(a, b) == Or(b, a)
  {
    if a > 0 && b > 0 { OrCommutes(a / 2, b / 2); }
  }

  /** `(q << k) | r` for r below 2^k. */
  lemma OrLow(q: nat, r: nat, k: nat)
    requires r < Pow2(k)
    ensures q * Pow2(k) >= 0 && Or(q * Pow2(k), r) == q * Pow2(k) + r
  {
    MultipleClear(q, k);
    OrDisjoint(r, q * Pow2(k), k);
    OrCommutes(r, q * Pow2(k));
  }

  /** `^` with k ones is the complement of a k-bit number. */
  lemma {:induction false} XorOnes(a: nat, k: nat)
    requires a < Pow2(k)
    ensures Xor(a, Pow2(k) - 1) == Pow2(k) - 1 - a
  {
    if a > 0 && k > 0 {
      var ones, p := Pow2(k) - 1, Pow2(k - 1);
      OddNumber(a, ones, p);
      XorOnes(a / 2, k - 1);
      XorUnfold(a, ones, ones / 2);
    }
  }

  lemma XorUnfold(a: nat, b: nat, half: nat)
    requires a > 0 && b > 0 && half == b / 2
    ensures Xor(a, b) == (a + b) % 2 + 2 * Xor(a / 2, half)
  {}

  lemma OddNumber(a: nat, b: nat, p: nat)
    requires p > 0 && b == 2 * p - 1
    ensures b > 0 && b / 2 == p - 1 && (a + b) % 2 + 2 * (p - 1 - a / 2) == b - a
  {}

  lemma ModOfMod(x: int, a: int, b: int)
    requires a > 0 && b > 0
    ensures a * b > 0 && x % (a * b) % a == x % a
  {
    var m := a * b;
    assert m > 0 by { assert a * b >= a * 1; }
    var q, r := x / m, x % m;
    assert x == m * q + r;
    var q', r' := r / a, r % a;
    assert x == a * (b * q + q') + r' by { assert m * q == a * (b * q); }
    DivModUnique(x, a, b * q + q', r');
  }

  lemma ModAddMultiple(r: int, k: int, m: int)
    requires m > 0
    ensures (r + k * m) % m == r % m
  {
    var q, t := r / m, r % m;
    assert r + k * m == m * (q + k) + t;
    DivModUnique(r + k * m, m, q + k, t);
  }

  lemma ShiftSplit(m: nat, p: nat, h: nat)
    requires p > 0 && h > 0
    ensures m * p == (p * h) * (m / h) + m % h * p
    ensures 0 <= m % h * p <= p * h - p
  {
    var q, t := m / h, m % h;
    assert m == h * q + t;
    assert h * q * p == (p * h) * q;
    MulPositive(t, p);
    MulPositive(h - 1 - t, p);
  }

  /** One step of a shift-accumulating decoder: or-ing `m << s`, truncated to w bits, into an
      s-bit accumulator adds m * 2^s modulo 2^w. */
  lemma OrShifted(r: nat, m: nat, s: nat, w: nat)
    requires r < Pow2(s) && s <= w
    ensures m * Pow2(s) >= 0
    ensures Or(r, m * Pow2(s) % Pow2(w)) == (r + m * Pow2(s)) % Pow2(w)
  {
    var p, h := Pow2(s), Pow2(w - s);
    MulPositive(m, p);
    Pow2Add(s, w - s);
    ShiftSplit(m, p, h);
    var q, t := m / h, m % h;
    DivModUnique(m * p, Pow2(w), q, t * p);
    DivModUnique(r + m * p, Pow2(w), q, r + t * p);
    MultipleClear(t, s);
    OrDisjoint(r, t * p, s);
  }

  /** Two shifts are one. */
  lemma QuotientOfQuotient(v: nat, a: nat, b: nat)
    requires a > 0 && b > 0
    ensures a * b > 0 && v / (a * b) == v / a / b
    ensures v % (a * b) == a * (v / a % b) + v % a
  {
    var x, r := v / a, v % a;
    var q, d := x / b, x % b;
    MixedDigits(a, b, d, r);
    Regroup(a, b, q, d);
    assert v == a * x + r && x == b * q + d;
    DivModUnique(v, a * b, q, a * d + r);
  }

  lemma MixedDigits(a: int, b: int, d: int, r: int)
    requires 0 <= r < a && 0 <= d < b
    ensures 0 <= a * d + r < a * b
  {
    MulPositive(a, d);
    MulPositive(a, b - 1 - d);
    assert a * (b - 1 - d) == a * b - a - a * d;
  }

  lemma Regroup(a: int, b: int, q: int, d: int)
    ensures a * (b * q + d) == (a * b) * q + a * d
  {
    assert a * (b * q) == (a * b) * q;
  }

  lemma QuotientPositive(x: nat, p: nat)
    requires p > 0
    ensures x / p >= 0
  {
    var q, r := x / p, x % p;
    assert x == p * q + r;
    if q < 0 { MulPositive(p, -q - 1); }
  }

  lemma CutThenShift(v: nat, a: nat, b: nat)
    requires a > 0 && b > 0
    ensures a * b > 0 && v % (a * b) / a == v / a % b
  {
    QuotientOfQuotient(v, a, b);
    DivModUnique(v % (a * b), a, v / a % b, v % a);
  }

  /** Cutting to m bits keeps the bits below m. */
  lemma CutKeepsDigit(v: nat, k: nat, w: nat, m: nat)
    requires k + w <= m
    ensures v % Pow2(m) / Pow2(k) % Pow2(w) == v / Pow2(k) % Pow2(w)
  {
    Pow2Add(k, m - k);
    CutThenShift(v, Pow2(k), Pow2(m - k));
    QuotientPositive(v, Pow2(k));
    CutTwice(v / Pow2(k), w, m - k);
  }

  lemma CutTwice(x: nat, w: nat, m: nat)
    requires w <= m
    ensures x % Pow2(m) % Pow2(w) == x % Pow2(w)
  {
    Pow2Add(w, m - w);
    ModOfMod(x, Pow2(w), Pow2(m - w));
  }
}
