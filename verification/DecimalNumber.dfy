/** ConsumeDecimalNumber: overflow-exact parsing of a 64-bit decimal prefix. */
module DecimalNumber {
  import opened Bits
  import opened Bytes

  const MAX_UINT64: nat := 0xffff_ffff_ffff_ffff

  predicate IsDigit(b: byte) { 48 <= b <= 57 }

  /** The length of the maximal prefix of digits. */
  function DigitRun(s: Bytes): (n: nat)
    ensures n <= |s|
    ensures forall i :: 0 <= i < n ==> 48 <= s[i] <= 57
    ensures n < |s| ==> s[n] < 48 || s[n] > 57
  {
    if s == [] || !IsDigit(s[0]) then 0 else 1 + DigitRun(s[1..])
  }

  /** The number a string of digits denotes, most significant first. */
  function DecimalValue(s: Bytes): int {
    if s == [] then 0 else 10 * DecimalValue(s[..|s| - 1]) + (s[|s| - 1] as int - 48)
  }

  lemma ValueSnoc(s: Bytes, i: nat)
    requires i < |s|
    ensures DecimalValue(s[..i + 1]) == 10 * DecimalValue(s[..i]) + (s[i] as int - 48)
  {
    assert s[..i + 1][..i] == s[..i];
  }

  lemma {:induction false} ValueMonotone(s: Bytes, i: nat, j: nat)
    requires i <= j <= |s| && forall k :: 0 <= k < j ==> IsDigit(s[k])
    ensures 0 <= DecimalValue(s[..i]) <= DecimalValue(s[..j])
    decreases j
  {
    if i < j {
      ValueMonotone(s, i, j - 1);
      ValueSnoc(s, j - 1);
    } else if i > 0 {
      ValueMonotone(s, i - 1, j - 1);
      ValueSnoc(s, i - 1);
    }
  }

  /** How much is consumed: the digits, as long as their value fits in 64 bits. */
  ghost predicate Consumes(s: Bytes, m: nat) {
    && m <= DigitRun(s)
    && DecimalValue(s[..m]) <= MAX_UINT64
    && (m < DigitRun(s) ==> DecimalValue(s[..m + 1]) > MAX_UINT64)
  }

  /** What is consumed is the longest prefix of digits whose value fits. */
  lemma ConsumedIsLongest(s: Bytes, m: nat, k: nat)
    requires Consumes(s, m)
    ensures m <= |s| && DecimalValue(s[..m]) <= 0xffff_ffff_ffff_ffff
    ensures forall i :: 0 <= i < m ==> 48 <= s[i] <= 57
    ensures m < k <= |s| && (forall i :: 0 <= i < k ==> 48 <= s[i] <= 57) ==>
              DecimalValue(s[..k]) > 0xffff_ffff_ffff_ffff
  {
    if m < k <= |s| && forall i :: 0 <= i < k ==> 48 <= s[i] <= 57 {
      RunAtLeast(s, k);
      ValueMonotone(s, m + 1, k);
    }
  }

  /** What the caller expects: a digit prefix that is not empty and denotes a 64-bit number. */
  ghost predicate Readable(s: Bytes) {
    DigitRun(s) > 0 && DecimalValue(s[..DigitRun(s)]) <= MAX_UINT64
  }

  /** What the code accepts: its digit counter is an `int`, which must have come out positive. */
  ghost predicate Accepted(s: Bytes) {
    Int32(DigitRun(s)) > 0 && DecimalValue(s[..DigitRun(s)]) <= MAX_UINT64
  }

  /** The code accepts exactly what the caller expects, unless the number of digits modulo 2^32 is
      zero or from 2^31 on; no run of fewer than 2^31 digits is refused. */
  lemma AcceptedIsReadable(s: Bytes)
    ensures Accepted(s) ==> Readable(s)
    ensures Readable(s) ==> (Accepted(s) <==> 0 < DigitRun(s) % 0x1_0000_0000 < 0x8000_0000)
    ensures DigitRun(s) < 0x8000_0000 ==> (Accepted(s) <==> Readable(s))
  {}

  /** The shortest input that is wrongly refused: 2^31 zeros. */
  lemma TooManyZeros(tail: Bytes)
    requires tail == [] || !IsDigit(tail[0])
    ensures var s := Repeat(48, 0x8000_0000) + tail; Readable(s) && !Accepted(s)
  {
    ZerosRead(0x8000_0000, tail);
  }

  lemma ZerosRead(n: nat, tail: Bytes)
    requires tail == [] || !IsDigit(tail[0])
    ensures var s := Repeat(48, n) + tail; DigitRun(s) == n && DecimalValue(s[..n]) == 0
  {
    var s := Repeat(48, n) + tail;
    RunIs(s, n);
    assert s[..n] == Repeat(48, n);
    ZerosAreZero(n);
  }

  lemma {:induction false} ZerosAreZero(n: nat)
    ensures DecimalValue(Repeat(48, n)) == 0
  {
    if n > 0 {
      assert Repeat(48, n)[..n - 1] == Repeat(48, n - 1);
      ZerosAreZero(n - 1);
    }
  }

  lemma OverflowTest(v: int, delta: int)
    requires 0 <= v <= MAX_UINT64 && 0 <= delta <= 9
    ensures 10 * v + delta > MAX_UINT64 <==>
            v > MAX_UINT64 / 10 || (v == MAX_UINT64 / 10 && delta > MAX_UINT64 % 10)
  {}

  /** Yields the value of the digit prefix and removes exactly the prefix, or fails; a failure by
      overflow of the value leaves the digits from the overflowing one on. */
  method ConsumeDecimalNumber(input: ByteString) returns (ok: bool, val: nat)
    modifies input
    ensures var s, n := old(input.bytes), DigitRun(old(input.bytes));
            && (ok <==> Accepted(s))
            && (ok ==> val == DecimalValue(s[..n]) && input.bytes == s[n..])
            && (exists m: nat :: Consumes(s, m) && input.bytes == s[m..])
  {
    ghost var s, i := input.bytes, 0;
    var v, digits := 0, 0;
    while input.bytes != []
      invariant i <= |s| && digits == Int32(i) && input.bytes == s[i..]
      invariant forall k :: 0 <= k < i ==> IsDigit(s[k])
      invariant v == DecimalValue(s[..i]) && 0 <= v <= MAX_UINT64
      decreases |s| - i
    {
      var c := input.bytes[0];
      if 48 <= c <= 57 {
        Int32Next(i);
        digits := Int32(digits + 1);
        var delta := c - 48;
        OverflowTest(v, delta);
        ValueSnoc(s, i);
        RunAtLeast(s, i + 1);
        if v > MAX_UINT64 / 10 || (v == MAX_UINT64 / 10 && delta > MAX_UINT64 % 10) {
          ValueMonotone(s, i + 1, DigitRun(s));
          assert Consumes(s, i);
          return false, 0;
        }
        v := v * 10 + delta;
        input.bytes := input.bytes[1..];
        i := i + 1;
      } else {
        break;
      }
    }
    RunIs(s, i);
    assert Consumes(s, i);
    return digits > 0, v;
  }

  lemma {:induction false} RunAtLeast(s: Bytes, i: nat)
    requires i <= |s| && forall k :: 0 <= k < i ==> IsDigit(s[k])
    ensures DigitRun(s) >= i
  {
    if i > 0 { RunAtLeast(s[1..], i - 1); }
  }

  lemma RunIs(s: Bytes, i: nat)
    requires i <= |s| && (forall k :: 0 <= k < i ==> IsDigit(s[k])) && (i < |s| ==> !IsDigit(s[i]))
    ensures DigitRun(s) == i
  {
    RunAtLeast(s, i);
  }
}
