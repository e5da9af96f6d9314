/** GenerateKeyFromInt: a number as a big-endian key padded with '0', and when that keeps order. */
module KeyGenerator {
  import opened Bits
  import opened Bytes

  /** n bytes of v, most significant first. */
  function BigEndian(v: nat, n: nat): (s: Bytes)
    ensures |s| == n
  {
    if n == 0 then [] else BigEndian(v / 256, n - 1) + [v % 256]
  }

  /** The key generated for v: at most eight bytes of number, then ASCII zeros. */
  function Key(v: nat, numKeys: nat, keySize: nat): Bytes
    requires numKeys > 0
  {
    var n := Min(keySize, 8);
    BigEndian(v % numKeys, n) + Repeat(48, keySize - n)
  }

  // ---------------------------------------------------------------- order

  lemma {:induction false} CompareSnoc(a: Bytes, b: Bytes, x: byte, y: byte)
    requires |a| == |b|
    ensures Compare(a + [x], b + [y]) == if Compare(a, b) == 0 then Compare([x], [y]) else Compare(a, b)
  {
    if a == [] {
      assert a + [x] == [x] && b + [y] == [y];
    } else if a[0] == b[0] {
      CompareStep(a + [x], b + [y]);
      CompareStep(a, b);
      assert (a + [x])[1..] == a[1..] + [x] && (b + [y])[1..] == b[1..] + [y];
      CompareSnoc(a[1..], b[1..], x, y);
    }
  }

  lemma {:induction false} CompareSameTail(a: Bytes, b: Bytes, t: Bytes)
    requires |a| == |b|
    ensures Compare(a + t, b + t) == Compare(a, b)
  {
    if a == [] {
      assert a + t == t && b + t == t;
      CompareAntisymmetric(t, t);
    } else if a[0] == b[0] {
      CompareStep(a + t, b + t);
      CompareStep(a, b);
      assert (a + t)[1..] == a[1..] + t && (b + t)[1..] == b[1..] + t;
      CompareSameTail(a[1..], b[1..], t);
    }
  }

  function Sign(x: int): int { if x < 0 then -1 else if x > 0 then 1 else 0 }

  lemma DigitOrder(a: int, b: int, x: byte, y: byte)
    ensures Compare([x], [y]) == Sign(x as int - y as int)
    ensures Sign(256 * a + x - (256 * b + y)) == if a == b then Sign(x as int - y as int) else Sign(a - b)
  {
    assert Memcmp([x][1..], [y][1..], 0) == 0;
    assert Memcmp([x], [y], 1) == Sign(x as int - y as int);
  }

  lemma ModByte(v: nat, p: nat)
    requires p > 0
    ensures v % (256 * p) == 256 * (v / 256 % p) + v % 256
    ensures v / (256 * p) == v / 256 / p
  {
    var q, r := v / 256 / p, v / 256 % p;
    assert v / 256 == p * q + r;
    assert v == (256 * p) * q + (256 * r + v % 256) by { assert (256 * p) * q == 256 * (p * q); }
    DivModUnique(v, 256 * p, q, 256 * r + v % 256);
  }

  /** Big-endian strings compare as the numbers do, up to the bytes that were kept. */
  lemma {:induction false} BigEndianOrder(v: nat, w: nat, n: nat)
    ensures Compare(BigEndian(v, n), BigEndian(w, n)) == Sign(v % Pow2(8 * n) - w % Pow2(8 * n))
  {
    if n > 0 {
      var p := Pow2(8 * (n - 1));
      assert Pow2(8 * n) == 256 * p by { Pow2Add(8, 8 * (n - 1)); Pow2At8(); }
      var a, b, x, y := v / 256, w / 256, v % 256, w % 256;
      BigEndianOrder(a, b, n - 1);
      CompareSnoc(BigEndian(a, n - 1), BigEndian(b, n - 1), x, y);
      ModByte(v, p);
      ModByte(w, p);
      DigitOrder(a % p, b % p, x, y);
    }
  }

  /** For all numbers: keys compare as the numbers do after the reduction modulo num_keys and the cut
      to the bytes the key has for them. */
  lemma KeyOrder(v: nat, w: nat, numKeys: nat, keySize: nat)
    requires numKeys > 0
    ensures var p := Pow2(8 * Min(keySize, 8));
            Compare(Key(v, numKeys, keySize), Key(w, numKeys, keySize)) == Sign(v % numKeys % p - w % numKeys % p)
  {
    var n := Min(keySize, 8);
    var x, y := v % numKeys, w % numKeys;
    CompareSameTail(BigEndian(x, n), BigEndian(y, n), Repeat(48, keySize - n));
    BigEndianOrder(x, y, n);
  }

  /** The number a byte string denotes, most significant byte first. */
  function FromBigEndian(s: Bytes): nat {
    if s == [] then 0 else 256 * FromBigEndian(s[..|s| - 1]) + s[|s| - 1]
  }

  lemma {:induction false} BigEndianReads(v: nat, n: nat)
    ensures FromBigEndian(BigEndian(v, n)) == v % Pow2(8 * n)
  {
    if n > 0 {
      var p := Pow2(8 * (n - 1));
      assert Pow2(8 * n) == 256 * p by {
        Pow2Add(8, 8 * (n - 1));
        Pow2At8();
      }
      BigEndianReads(v / 256, n - 1);
      ModByte(v, p);
      var s := BigEndian(v, n);
      assert s[..|s| - 1] == BigEndian(v / 256, n - 1);
    }
  }

  /** The bytes of the key for any number: the first eight, or all if there are fewer, hold the number
      modulo num_keys, and every later byte is ASCII '0'. */
  lemma KeyBytes(v: nat, numKeys: nat, keySize: nat)
    requires numKeys > 0
    ensures var key, n := Key(v, numKeys, keySize), Min(keySize, 8);
            && |key| == keySize
            && FromBigEndian(key[..n]) == v % numKeys % Pow2(8 * n)
            && (forall i :: n <= i < keySize ==> key[i] == 48)
  {
    var n := Min(keySize, 8);
    BigEndianReads(v % numKeys, n);
    assert Key(v, numKeys, keySize)[..n] == BigEndian(v % numKeys, n);
  }

  ghost predicate OrderPreserving(numKeys: nat, keySize: nat)
    requires numKeys > 0
  {
    forall v: nat, w: nat :: v < numKeys && w < numKeys ==>
      Sign(Compare(Key(v, numKeys, keySize), Key(w, numKeys, keySize))) == Sign(v - w)
  }

  ghost predicate Injective(numKeys: nat, keySize: nat)
    requires numKeys > 0
  {
    forall v: nat, w: nat :: v < numKeys && w < numKeys && Key(v, numKeys, keySize) == Key(w, numKeys, keySize)
      ==> v == w
  }

  /** Integer order is key order, and keys are distinct, exactly when the numbers fit in the bytes
      the key has for them. */
  lemma KeysKeepOrder(numKeys: nat, keySize: nat)
    requires numKeys > 0
    ensures OrderPreserving(numKeys, keySize) <==> numKeys <= Pow2(8 * Min(keySize, 8))
    ensures Injective(numKeys, keySize) <==> numKeys <= Pow2(8 * Min(keySize, 8))
  {
    var p := Pow2(8 * Min(keySize, 8));
    if numKeys <= p {
      forall v: nat, w: nat | v < numKeys && w < numKeys
        ensures Compare(Key(v, numKeys, keySize), Key(w, numKeys, keySize)) == Sign(v - w)
      {
        KeyOrder(v, w, numKeys, keySize);
        DivModUnique(v, numKeys, 0, v);
        DivModUnique(w, numKeys, 0, w);
        DivModUnique(v, p, 0, v);
        DivModUnique(w, p, 0, w);
      }
      forall v: nat, w: nat | v < numKeys && w < numKeys && Key(v, numKeys, keySize) == Key(w, numKeys, keySize)
        ensures v == w
      {
        CompareAntisymmetric(Key(v, numKeys, keySize), Key(w, numKeys, keySize));
        assert Compare(Key(v, numKeys, keySize), Key(w, numKeys, keySize)) == Sign(v - w);
      }
    } else {
      KeyOrder(0, p, numKeys, keySize);
      DivModUnique(0, numKeys, 0, 0);
      DivModUnique(p, numKeys, 0, p);
      DivModUnique(0, p, 0, 0);
      DivModUnique(p, p, 1, 0);
      CompareAntisymmetric(Key(0, numKeys, keySize), Key(p, numKeys, keySize));
      assert Key(0, numKeys, keySize) == Key(p, numKeys, keySize);
    }
  }

  /** 257 keys of one byte: the first and the last are the same. */
  lemma KeysCollide()
    ensures Key(0, 257, 1) == Key(256, 257, 1)
  {
    assert BigEndian(256, 1) == BigEndian(1, 0) + [0] && BigEndian(0, 1) == BigEndian(0, 0) + [0];
  }

  // ---------------------------------------------------------------- the in-place writer

  lemma {:induction false} BigEndianDigit(v: nat, n: nat, i: nat)
    requires i < n
    ensures BigEndian(v, n)[i] == v / Pow2(8 * (n - i - 1)) % 256
  {
    if i < n - 1 {
      BigEndianDigit(v / 256, n - 1, i);
      var p := Pow2(8 * (n - i - 2));
      assert Pow2(8 * (n - i - 1)) == 256 * p by { Pow2Add(8, 8 * (n - i - 2)); Pow2At8(); }
      ModByte(v, p);
    }
  }

  /** `y & mask`, for the mask 0xFF. */
  method MaskByte(y: nat, mask: nat) returns (b: byte)
    requires mask == 0xFF
    ensures b == y % 256
  {
    Pow2At8();
    AndMask(y, 8);
    b := And(y, mask);
  }

  /** `(x >> shift) & 0xFF`. */
  method LowByte(x: nat, shift: nat) returns (b: byte)
    ensures b == x / Pow2(shift) % 256
  {
    QuotientPositive(x, Pow2(shift));
    b := MaskByte(x / Pow2(shift), 0xFF);
  }

  /** GenerateKeyFromInt on a caller's buffer: fills its first keySize bytes. */
  method GenerateKeyFromInt(v: u64, numKeys: u64, key: array<byte>, keySize: nat) returns (s: Bytes)
    requires numKeys > 0 && keySize <= key.Length
    modifies key
    ensures s == key[..] && s == Key(v, numKeys, keySize) + old(key[keySize..])
  {
    var x := v % numKeys;
    var n := Min(keySize, 8);
    for i := 0 to n
      invariant forall k :: 0 <= k < i ==> key[k] == BigEndian(x, n)[k]
      invariant key[keySize..] == old(key[keySize..])
    {
      BigEndianDigit(x, n, i);
      key[i] := LowByte(x, 8 * (n - i - 1));
    }
    forall i | n <= i < keySize {
      key[i] := 48;
    }
    s := key[..];
    assert key[..keySize] == Key(v, numKeys, keySize);
    assert key[..] == key[..keySize] + key[keySize..];
  }
}
