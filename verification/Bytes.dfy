/** Byte strings, the fixed-width little-endian codec and the lexicographic order. */
module Bytes {
  import opened Bits

  type byte = x: int | 0 <= x < 256
  type Bytes = seq<byte>

  datatype Option<+T> = None | Some(value: T)

  /** A `std::string *` or `Slice *` parameter: a cell whose byte string a callee replaces. */
  class ByteString {
    var bytes: Bytes

    constructor (s: Bytes)
      ensures bytes == s
    {
      bytes := s;
    }
  }

  lemma AppendAssociative<T>(a: seq<T>, b: seq<T>, c: seq<T>)
    ensures (a + b) + c == a + (b + c)
  {}

  lemma SliceOfPrefix(b: Bytes, h: Bytes, from: nat, to: nat)
    requires from <= to <= |h| <= |b| && b[..|h|] == h
    ensures b[from..to] == h[from..to]
  {
    forall i | from <= i < to ensures b[i] == h[i] {
      assert b[..|h|][i] == h[i];
    }
  }

  function Repeat(b: byte, n: nat): (s: Bytes)
    ensures |s| == n && forall i :: 0 <= i < n ==> s[i] == b
  {
    seq(n, _ => b)
  }

  function Concat(parts: seq<Bytes>): Bytes {
    if parts == [] then [] else parts[0] + Concat(parts[1..])
  }

  function Reverse<T>(s: seq<T>): (r: seq<T>)
    ensures |r| == |s|
  {
    if s == [] then [] else Reverse(s[1..]) + [s[0]]
  }

  lemma {:induction false} ReverseAt<T>(s: seq<T>, i: nat)
    requires i < |s|
    ensures Reverse(s)[i] == s[|s| - 1 - i]
  {
    if i < |s| - 1 { ReverseAt(s[1..], i); }
  }

  lemma ReverseTwice<T>(s: seq<T>)
    ensures Reverse(Reverse(s)) == s
  {
    var r := Reverse(s);
    forall i | 0 <= i < |s| ensures Reverse(r)[i] == s[i] {
      ReverseAt(r, i);
      ReverseAt(s, |s| - 1 - i);
    }
  }

  /** n bytes, least significant first (EncodeFixed16/32/64). */
  function LittleEndian(v: nat, n: nat): (s: Bytes)
    ensures |s| == n
  {
    if n == 0 then [] else [v % 256] + LittleEndian(v / 256, n - 1)
  }

  /** The number n bytes denote (DecodeFixed16/32/64). */
  function FromLittleEndian(s: Bytes): nat {
    if s == [] then 0 else s[0] + 256 * FromLittleEndian(s[1..])
  }

  lemma {:induction false} FixedBound(s: Bytes)
    ensures FromLittleEndian(s) < Pow2(8 * |s|)
  {
    if s != [] {
      FixedBound(s[1..]);
      Pow2Add(8, 8 * (|s| - 1));
      Pow2At8();
    }
  }

  /** Fixed-width numbers survive encoding, and every n-byte string is the encoding of one. */
  lemma {:induction false} FixedRoundTrip(v: nat, n: nat)
    requires v < Pow2(8 * n)
    ensures FromLittleEndian(LittleEndian(v, n)) == v
  {
    if n > 0 {
      Pow2Add(8, 8 * (n - 1));
      Pow2At8();
      FixedRoundTrip(v / 256, n - 1);
      assert LittleEndian(v, n)[1..] == LittleEndian(v / 256, n - 1);
    }
  }

  lemma {:induction false} FixedRoundTripBytes(s: Bytes)
    ensures LittleEndian(FromLittleEndian(s), |s|) == s
  {
    if s != [] {
      FixedRoundTripBytes(s[1..]);
      var rest := FromLittleEndian(s[1..]);
      DivModUnique(s[0] + 256 * rest, 256, rest, s[0]);
      assert s == [s[0]] + s[1..];
    }
  }

  /** Byte i of the encoding is digit i of the number, counted from the least significant. */
  lemma {:induction false} LittleEndianAt(v: nat, n: nat, i: nat)
    requires i < n
    ensures LittleEndian(v, n)[i] == v / Pow2(8 * i) % 256
  {
    if i > 0 {
      LittleEndianAt(v / 256, n - 1, i - 1);
      Pow2Add(8, 8 * (i - 1));
      Pow2At8();
      QuotientOfQuotient(v, 256, Pow2(8 * (i - 1)));
    }
  }

  // ---------------------------------------------------------------- the order of byte strings

  function Min(a: nat, b: nat): nat { if a < b then a else b }

  /** memcmp over the first n bytes, as a sign. */
  function Memcmp(a: Bytes, b: Bytes, n: nat): int
    requires n <= |a| && n <= |b|
  {
    if n == 0 then 0
    else if a[0] < b[0] then -1
    else if a[0] > b[0] then 1
    else Memcmp(a[1..], b[1..], n - 1)
  }

  /** Slice::compare. */
  function Compare(a: Bytes, b: Bytes): int {
    var r := Memcmp(a, b, Min(|a|, |b|));
    if r == 0 then (if |a| < |b| then -1 else if |a| > |b| then 1 else 0) else r
  }

  predicate StartsWith(s: Bytes, x: Bytes) {
    |s| >= |x| && Memcmp(s, x, |x|) == 0
  }

  /** Reference definition of a < b: the first difference decides, and a proper prefix is less. */
  ghost predicate LexLess(a: Bytes, b: Bytes) {
    exists k: nat :: DiffersFirstAt(a, b, k)
  }

  ghost predicate DiffersFirstAt(a: Bytes, b: Bytes, k: nat) {
    k <= |a| && k < |b| && a[..k] == b[..k] && (k == |a| || a[k] < b[k])
  }

  lemma {:induction false} CompareStep(a: Bytes, b: Bytes)
    requires a != [] && b != [] && a[0] == b[0]
    ensures Compare(a, b) == Compare(a[1..], b[1..])
  {}

  lemma FirstOfPrefix(a: Bytes, b: Bytes, k: nat)
    requires 0 < k <= |a| && k <= |b| && a[..k] == b[..k]
    ensures a[0] == b[0]
  {
    assert a[0] == a[..k][0] && b[0] == b[..k][0];
  }

  lemma {:induction false} CompareNegative(a: Bytes, b: Bytes)
    ensures Compare(a, b) < 0 <==> LexLess(a, b)
  {
    if a == [] || b == [] || a[0] != b[0] {
      if Compare(a, b) < 0 { assert DiffersFirstAt(a, b, 0); }
      if k: nat :| DiffersFirstAt(a, b, k) {
        assert k == 0 by { if k > 0 { FirstOfPrefix(a, b, k); } }
      }
    } else {
      CompareStep(a, b);
      CompareNegative(a[1..], b[1..]);
      if k: nat :| DiffersFirstAt(a[1..], b[1..], k) {
        assert a[..k + 1] == [a[0]] + a[1..][..k] && b[..k + 1] == [b[0]] + b[1..][..k];
        assert DiffersFirstAt(a, b, k + 1);
      }
      if k: nat :| DiffersFirstAt(a, b, k) {
        assert a[1..][..k - 1] == a[..k][1..] && b[1..][..k - 1] == b[..k][1..];
        assert DiffersFirstAt(a[1..], b[1..], k - 1);
      }
    }
  }

  lemma {:induction false} CompareAntisymmetric(a: Bytes, b: Bytes)
    ensures Compare(a, b) == -Compare(b, a)
    ensures Compare(a, b) == 0 <==> a == b
  {
    if a != [] && b != [] && a[0] == b[0] {
      CompareStep(a, b);
      CompareStep(b, a);
      CompareAntisymmetric(a[1..], b[1..]);
      assert a == [a[0]] + a[1..] && b == [b[0]] + b[1..];
    }
  }

  lemma {:induction false} CompareTransitive(a: Bytes, b: Bytes, c: Bytes)
    requires Compare(a, b) <= 0 && Compare(b, c) <= 0
    ensures Compare(a, c) <= 0
    ensures Compare(a, b) < 0 || Compare(b, c) < 0 ==> Compare(a, c) < 0
  {
    if a != [] && b != [] && c != [] && a[0] == b[0] && b[0] == c[0] {
      CompareStep(a, b);
      CompareStep(b, c);
      CompareStep(a, c);
      CompareTransitive(a[1..], b[1..], c[1..]);
    }
  }

  /** The first difference decides by the unsigned value of the bytes, and a proper prefix is less. */
  lemma {:induction false} CompareAtDifference(p: Bytes, x: byte, y: byte, a: Bytes, b: Bytes)
    requires x < y
    ensures Compare(p + [x] + a, p + [y] + b) < 0 && Compare(p, p + [x] + a) < 0
  {
    var s, t := p + [x] + a, p + [y] + b;
    if p != [] {
      CompareStep(s, t);
      CompareStep(p, s);
      assert s[1..] == p[1..] + [x] + a && t[1..] == p[1..] + [y] + b;
      CompareAtDifference(p[1..], x, y, a, b);
    }
  }

  lemma {:induction false} StartsWithIsPrefix(s: Bytes, x: Bytes)
    ensures StartsWith(s, x) <==> x <= s
  {
    if x != [] && s != [] && s[0] == x[0] {
      StartsWithIsPrefix(s[1..], x[1..]);
      assert s == [s[0]] + s[1..] && x == [x[0]] + x[1..];
    }
  }
}
