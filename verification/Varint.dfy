/** Variable-length integers: unsigned LEB128 (section 7.6 of DWARF 5), seven bits per byte, least
    significant first, with bit 7 set on every byte but the last. */
module Varint {
  import opened Bits
  import opened Bytes

  // ---------------------------------------------------------------- the format

  function Leb128(v: nat): (s: Bytes)
    ensures s != []
  {
    if v < 128 then [v] else [v % 128 + 128] + Leb128(v / 128)
  }

  /** The number the low seven bits of a byte string denote. */
  function Septets(s: Bytes): nat {
    if s == [] then 0 else s[0] % 128 + 128 * Septets(s[1..])
  }

  /** Index of the first byte without the continuation bit, or |s| if there is none. */
  function StopIndex(s: Bytes): (i: nat)
    ensures i <= |s|
    ensures i < |s| ==> s[i] < 128
    ensures forall j :: 0 <= j < i ==> s[j] >= 128
  {
    if s == [] || s[0] < 128 then 0 else 1 + StopIndex(s[1..])
  }

  datatype Reading = Reading(value: nat, length: nat)

  /** Reads one varint of at most maxLength bytes from the front of s, truncated to a word. */
  function Decode(s: Bytes, maxLength: nat, bits: nat): Option<Reading> {
    var i := StopIndex(s);
    if i < |s| && i < maxLength then Some(Reading(Septets(s[..i + 1]) % Pow2(bits), i + 1)) else None
  }

  function Decode32(s: Bytes): Option<Reading> { Decode(s, 5, 32) }

  function Decode64(s: Bytes): Option<Reading> { Decode(s, 10, 64) }

  // ---------------------------------------------------------------- laws of the format

  lemma {:induction false} StopIndexUnique(s: Bytes, i: nat)
    requires i < |s| && s[i] < 128 && forall j :: 0 <= j < i ==> s[j] >= 128
    ensures StopIndex(s) == i
  {
    if i > 0 { StopIndexUnique(s[1..], i - 1); }
  }

  lemma {:induction false} SeptetsAppend(s: Bytes, b: byte)
    ensures Septets(s + [b]) == Septets(s) + b % 128 * Pow2(7 * |s|)
  {
    if s == [] {
      assert s + [b] == [b] && [b][1..] == [];
    } else {
      var p := Pow2(7 * (|s| - 1));
      SeptetsAppend(s[1..], b);
      assert (s + [b])[1..] == s[1..] + [b];
      assert Pow2(7 * |s|) == 128 * p by { Pow2Add(7, 7 * (|s| - 1)); Pow2At7(); }
      NextDigit(b % 128, p);
    }
  }

  lemma NextDigit(x: int, p: int)
    ensures x * (128 * p) == 128 * (x * p)
  {}

  lemma {:induction false} SeptetsBound(s: Bytes)
    ensures Septets(s) < Pow2(7 * |s|)
  {
    if s != [] {
      SeptetsBound(s[1..]);
      Pow2Add(7, 7 * (|s| - 1));
      Pow2At7();
    }
  }

  /** The encoding of v is terminated by its last byte only and denotes v. */
  lemma {:induction false} Leb128Reads(v: nat, tail: Bytes)
    ensures StopIndex(Leb128(v) + tail) == |Leb128(v)| - 1
    ensures Septets(Leb128(v)) == v
  {
    if v >= 128 {
      Leb128Reads(v / 128, tail);
      var s := Leb128(v) + tail;
      assert s[1..] == Leb128(v / 128) + tail;
      assert Leb128(v)[1..] == Leb128(v / 128);
    } else {
      assert [v as byte][1..] == [];
    }
  }

  /** The encoding uses the fewest bytes that hold v. */
  lemma {:induction false} Leb128Length(v: nat, k: nat)
    requires k > 0
    ensures |Leb128(v)| <= k <==> v < Pow2(7 * k)
  {
    Pow2At7();
    Pow2Add(7, 7 * (k - 1));
    if v < 128 {
      Pow2Monotone(7, 7 * k);
    } else if k > 1 {
      Leb128Length(v / 128, k - 1);
    }
  }

  lemma WordLengths(v: nat)
    ensures v < 0x1_0000_0000 ==> |Leb128(v)| <= 5
    ensures v < 0x1_0000_0000_0000_0000 ==> |Leb128(v)| <= 10
  {
    Leb128Length(v, 5);
    Leb128Length(v, 10);
    Pow2At32();
    Pow2Monotone(32, 35);
    Pow2At64();
    Pow2Monotone(64, 70);
  }

  lemma DecodeEncoded(v: nat, tail: Bytes, maxLength: nat, bits: nat)
    requires |Leb128(v)| <= maxLength && v < Pow2(bits)
    ensures Decode(Leb128(v) + tail, maxLength, bits) == Some(Reading(v, |Leb128(v)|))
  {
    Leb128Reads(v, tail);
    DivModUnique(v, Pow2(bits), 0, v);
    DecodeCode(Leb128(v), tail, v, maxLength, bits);
  }

  lemma DecodeCode(code: Bytes, tail: Bytes, v: nat, maxLength: nat, bits: nat)
    requires code != [] && StopIndex(code + tail) == |code| - 1 && |code| <= maxLength
    requires Septets(code) == v && v % Pow2(bits) == v
    ensures Decode(code + tail, maxLength, bits) == Some(Reading(v, |code|))
  {
    assert (code + tail)[..|code|] == code;
  }

  /** Both decoders undo the encoding and leave what follows it. */
  lemma RoundTrip(v: nat, tail: Bytes)
    ensures v < 0x1_0000_0000 ==> Decode32(Leb128(v) + tail) == Some(Reading(v, |Leb128(v)|))
    ensures v < 0x1_0000_0000_0000_0000 ==> Decode64(Leb128(v) + tail) == Some(Reading(v, |Leb128(v)|))
  {
    WordLengths(v);
    Pow2At32();
    Pow2At64();
    if v < 0x1_0000_0000 { DecodeEncoded(v, tail, 5, 32); }
    if v < 0x1_0000_0000_0000_0000 { DecodeEncoded(v, tail, 10, 64); }
  }

  /** What a decoded prefix says about the bytes: re-encoding reproduces them exactly when they
      are minimal (no zero byte at the end) and nothing was cut off by the word. */
  lemma Canonical(s: Bytes)
    requires Decode64(s).Some?
    ensures var r := Decode64(s).value;
            Leb128(r.value) == s[..r.length] <==>
            (r.length == 1 || s[r.length - 1] != 0) && Septets(s[..r.length]) < Pow2(64)
  {
    var r := Decode64(s).value;
    var p := s[..r.length];
    if Septets(p) < Pow2(64) {
      DivModUnique(Septets(p), Pow2(64), 0, Septets(p));
      CanonicalPrefix(p);
    } else {
      assert r.value < Pow2(64);
      Leb128Reads(r.value, []);
      assert Septets(Leb128(r.value)) != Septets(p);
    }
  }

  lemma {:induction false} CanonicalPrefix(p: Bytes)
    requires p != [] && p[|p| - 1] < 128 && forall j :: 0 <= j < |p| - 1 ==> p[j] >= 128
    ensures Leb128(Septets(p)) == p <==> |p| == 1 || p[|p| - 1] != 0
  {
    if |p| == 1 {
      assert p[1..] == [];
    } else {
      var t := p[1..];
      assert t[|t| - 1] == p[|p| - 1];
      CanonicalPrefix(t);
      CanonicalStep(Septets(p), p, Septets(t));
      if Septets(t) == 0 { SeptetsZero(t); }
    }
  }

  lemma CanonicalStep(v: nat, p: Bytes, w: nat)
    requires |p| > 1 && p[0] >= 128 && v == p[0] % 128 + 128 * w
    ensures w > 0 ==> (Leb128(v) == p <==> Leb128(w) == p[1..])
    ensures w == 0 ==> Leb128(v) != p
  {
    if w > 0 {
      ContinuedCode(p[0], w);
      ConsEqual(p[0], Leb128(w), p);
    }
  }

  lemma ContinuedCode(b: byte, w: nat)
    requires b >= 128 && w > 0
    ensures Leb128(b % 128 + 128 * w) == [b] + Leb128(w)
  {
    DivModUnique(b % 128 + 128 * w, 128, w, b % 128);
  }

  lemma ConsEqual(b: byte, t: Bytes, s: Bytes)
    requires s != [] && s[0] == b
    ensures [b] + t == s <==> t == s[1..]
  {
    assert ([b] + t)[1..] == t;
    assert s == [s[0]] + s[1..];
  }

  lemma {:induction false} SeptetsZero(p: Bytes)
    requires p != [] && p[|p| - 1] < 128 && Septets(p) == 0
    ensures p[|p| - 1] == 0
  {
    if |p| > 1 { SeptetsZero(p[1..]); }
  }

  /** On every byte string the 32-bit decoder succeeds exactly when one of the first five bytes
      lacks the continuation bit, and then agrees with the 64-bit decoder modulo 2^32. */
  lemma Decoders(s: Bytes)
    ensures Decode32(s).Some? <==> exists i :: 0 <= i < |s| && i < 5 && s[i] < 128
    ensures Decode64(s).Some? <==> exists i :: 0 <= i < |s| && i < 10 && s[i] < 128
    ensures Decode32(s).Some? ==>
              Decode64(s).Some? && Decode32(s).value.length == Decode64(s).value.length &&
              Decode32(s).value.value == Decode64(s).value.value % 0x1_0000_0000
  {
    var i := StopIndex(s);
    if i < |s| {
      Pow2At32();
      Pow2Add(32, 32);
      ModOfMod(Septets(s[..i + 1]), Pow2(32), Pow2(32));
    }
  }

  /** Byte i of the encoding holds digit i to base 128, least significant first, and the continuation
      bit on all bytes but the last. */
  lemma {:induction false} Leb128At(v: nat, i: nat)
    requires i < |Leb128(v)|
    ensures Leb128(v)[i] == v / Pow2(7 * i) % 128 + if i < |Leb128(v)| - 1 then 128 else 0
  {
    if i > 0 {
      Leb128At(v / 128, i - 1);
      Pow2Add(7, 7 * (i - 1));
      Pow2At7();
      QuotientOfQuotient(v, 128, Pow2(7 * (i - 1)));
    }
  }

  lemma {:induction false} SeptetsDigit(p: Bytes, i: nat)
    requires i < |p|
    ensures Septets(p) / Pow2(7 * i) % 128 == p[i] % 128
  {
    var rest := Septets(p[1..]);
    DivModUnique(Septets(p), 128, rest, p[0] % 128);
    if i > 0 {
      SeptetsDigit(p[1..], i - 1);
      Pow2Add(7, 7 * (i - 1));
      Pow2At7();
      QuotientOfQuotient(Septets(p), 128, Pow2(7 * (i - 1)));
    }
  }

  /** What the 64-bit decoder returns on any byte string, canonical or not: it reads up to the first
      byte without the continuation bit, byte i holds digit i of the value, and of a tenth byte one
      bit counts. */
  lemma DecodedDigits(s: Bytes, i: nat)
    requires Decode64(s).Some? && i < Decode64(s).value.length
    ensures var r := Decode64(s).value;
            && r.length <= |s| && r.length <= 10 && r.value < Pow2(64)
            && (s[i] < 128 <==> i == r.length - 1)
            && r.value / Pow2(7 * i) % (if i < 9 then 128 else 2) == s[i] % (if i < 9 then 128 else 2)
  {
    var p := s[..Decode64(s).value.length];
    SeptetsDigit(p, i);
    Pow2At7();
    assert Pow2(1) == 2 by { assert Pow2(0) == 1; }
    CutDigit(Septets(p), p[i], 64, 7 * i, if i < 9 then 7 else 1);
  }

  lemma CutDigit(v: nat, b: byte, bits: nat, k: nat, w: nat)
    requires v / Pow2(k) % Pow2(7) == b % Pow2(7) && k + w <= bits && w <= 7
    ensures v % Pow2(bits) / Pow2(k) % Pow2(w) == b % Pow2(w)
  {
    CutKeepsDigit(v, k, w, bits);
    QuotientPositive(v, Pow2(k));
    CutTwice(v / Pow2(k), w, 7);
    CutTwice(b, w, 7);
  }

  /** Nothing is in the value beyond the bytes read. */
  lemma DecodedBound(s: Bytes)
    requires Decode64(s).Some?
    ensures Decode64(s).value.value < Pow2(7 * Decode64(s).value.length)
  {
    var r := Decode64(s).value;
    var v := Septets(s[..r.length]);
    SeptetsBound(s[..r.length]);
    if v < Pow2(64) { DivModUnique(v, Pow2(64), 0, v); }
  }

  // ---------------------------------------------------------------- encoders

  lemma ContinuationByte(v: nat)
    ensures Or(And(v, 127), 128) == v % 128 + 128
    ensures Or(v, 128) % 256 == v % 128 + 128
  {
    MaskSeven(v);
    SetLowSeven(v % 128);
    SetSeven(v);
    BitSevenSet(v);
  }

  lemma SetLowSeven(x: nat)
    requires x < 128
    ensures Or(x, 128) == x + 128
  {
    SetSeven(x);
  }

  lemma MaskSeven(v: nat)
    ensures And(v, 127) == v % 128
  {
    Pow2At7();
    AndMask(v, 7);
  }

  lemma SetSeven(v: nat)
    ensures Or(v, 128) == if v / 128 % 2 == 1 then v else v + 128
  {
    Pow2At7();
    OrBit(v, 7);
  }

  lemma BitSevenSet(v: nat)
    ensures (if v / 128 % 2 == 1 then v else v + 128) % 256 == v % 128 + 128
  {}

  /** An encoder's pointer has advanced from `at` to `ptr`, and the encoding of `rest` is still to
      be written: nothing else of the buffer has changed. */
  ghost predicate Encoding(before: Bytes, now: Bytes, at: nat, v: nat, ptr: nat, rest: nat) {
    && at <= ptr && ptr + |Leb128(rest)| == at + |Leb128(v)| <= |before| == |now|
    && now[..at] == before[..at]
    && now[at..ptr] + Leb128(rest) == Leb128(v)
    && now[ptr..] == before[ptr..]
  }

  lemma EncodingStep(before: Bytes, now: Bytes, at: nat, v: nat, ptr: nat, rest: nat)
    requires Encoding(before, now, at, v, ptr, rest) && rest >= 128
    ensures ptr < |now|
    ensures Encoding(before, now[ptr := rest % 128 + 128], at, v, ptr + 1, rest / 128)
  {
    var b := rest % 128 + 128;
    var now' := now[ptr := b];
    assert now'[at..ptr + 1] == now[at..ptr] + [b];
    assert now[at..ptr] + Leb128(rest) == now'[at..ptr + 1] + Leb128(rest / 128);
    assert now'[ptr + 1..] == now[ptr..][1..] && before[ptr + 1..] == before[ptr..][1..];
    assert now'[..at] == now[..at];
  }

  lemma EncodingEnd(before: Bytes, now: Bytes, at: nat, v: nat, ptr: nat, rest: nat)
    requires Encoding(before, now, at, v, ptr, rest) && rest < 128
    ensures ptr < |now| && ptr + 1 == at + |Leb128(v)|
    ensures now[ptr := rest] == before[..at] + Leb128(v) + before[ptr + 1..]
  {
    assert now[at..ptr] + [rest] == Leb128(v);
    assert now[ptr..][1..] == before[ptr..][1..];
  }

  /** `*(ptr++) = x | B`: the store truncates to a byte, which drops the digits above. */
  method StoreContinued(dst: array<byte>, ptr: nat, x: nat, ghost before: Bytes, ghost at: nat, ghost v: nat)
    returns (next: nat)
    requires Encoding(before, dst[..], at, v, ptr, x) && x >= 128
    modifies dst
    ensures next == ptr + 1 && Encoding(before, dst[..], at, v, next, x / 128)
  {
    ContinuationByte(x);
    EncodingStep(before, dst[..], at, v, ptr, x);
    dst[ptr] := Or(x, 128) % 256;
    next := ptr + 1;
  }

  /** `*(ptr++) = x`. */
  method StoreLast(dst: array<byte>, ptr: nat, x: nat, ghost before: Bytes, ghost at: nat, ghost v: nat)
    returns (next: nat)
    requires Encoding(before, dst[..], at, v, ptr, x) && x < 128
    modifies dst
    ensures next == ptr + 1 == at + |Leb128(v)|
    ensures dst[..] == before[..at] + Leb128(v) + before[next..]
  {
    EncodingEnd(before, dst[..], at, v, ptr, x);
    dst[ptr] := x;
    next := ptr + 1;
  }

  /** EncodeVarint64: the loop writes the encoding of v at `at` and nothing else. */
  method EncodeVarint64(dst: array<byte>, at: nat, v: u64) returns (ptr: nat)
    requires at + |Leb128(v)| <= dst.Length
    modifies dst
    ensures ptr == at + |Leb128(v)|
    ensures dst[..] == old(dst[..at]) + Leb128(v) + old(dst[ptr..])
  {
    ghost var before := dst[..];
    var rest: nat := v;
    ptr := at;
    while rest >= 128
      invariant Encoding(before, dst[..], at, v, ptr, rest)
      decreases rest
    {
      ContinuationByte(rest);
      EncodingStep(before, dst[..], at, v, ptr, rest);
      dst[ptr] := Or(And(rest, 127), 128);
      ptr := ptr + 1;
      rest := rest / 128;
    }
    ptr := StoreLast(dst, ptr, rest, before, at, v);
  }

  /** EncodeVarint32: the five-way unrolled stores emit exactly what the loop emits. */
  method EncodeVarint32(dst: array<byte>, at: nat, v: u32) returns (ptr: nat)
    requires at + |Leb128(v)| <= dst.Length
    modifies dst
    ensures ptr == at + |Leb128(v)|
    ensures dst[..] == old(dst[..at]) + Leb128(v) + old(dst[ptr..])
  {
    ghost var s := dst[..];
    var a, b, c, d := v / 0x80, v / 0x4000, v / 0x20_0000, v / 0x1000_0000;
    assert a == v / 128 && b == a / 128 && c == b / 128 && d == c / 128;
    if v < 0x80 {
      ptr := StoreLast(dst, at, v, s, at, v);
    } else if v < 0x4000 {
      ptr := StoreContinued(dst, at, v, s, at, v);
      ptr := StoreLast(dst, ptr, a, s, at, v);
    } else if v < 0x20_0000 {
      ptr := StoreContinued(dst, at, v, s, at, v);
      ptr := StoreContinued(dst, ptr, a, s, at, v);
      ptr := StoreLast(dst, ptr, b, s, at, v);
    } else if v < 0x1000_0000 {
      ptr := StoreContinued(dst, at, v, s, at, v);
      ptr := StoreContinued(dst, ptr, a, s, at, v);
      ptr := StoreContinued(dst, ptr, b, s, at, v);
      ptr := StoreLast(dst, ptr, c, s, at, v);
    } else {
      ptr := StoreContinued(dst, at, v, s, at, v);
      ptr := StoreContinued(dst, ptr, a, s, at, v);
      ptr := StoreContinued(dst, ptr, b, s, at, v);
      ptr := StoreContinued(dst, ptr, c, s, at, v);
      ptr := StoreLast(dst, ptr, d, s, at, v);
    }
  }

  /** VarintLength. */
  method VarintLength(v: u64) returns (len: nat)
    ensures len == |Leb128(v)|
    ensures 1 <= len <= 10
  {
    len := 1;
    var rest: nat := v;
    while rest >= 128
      invariant len - 1 + |Leb128(rest)| == |Leb128(v)|
    {
      rest := rest / 128;
      len := len + 1;
    }
    WordLengths(v);
  }

  // ---------------------------------------------------------------- decoders

  /** `byte & 128` and `byte & 127`. */
  method SplitByte(b: byte) returns (more: bool, low: nat)
    ensures more <==> b >= 128
    ensures low == b % 128
  {
    Pow2At7();
    AndBit(b, 7);
    AndMask(b, 7);
    more := And(b, 128) != 0;
    low := And(b, 127);
  }

  /** One round of the decoder loop: the accumulator stays the value of the bytes consumed. */
  method Accumulate(s: Bytes, p: nat, i: nat, result: nat, shift: nat, bits: nat)
    returns (sum: nat, more: bool)
    requires p <= i < |s| && shift == 7 * (i - p) <= bits
    requires result == Septets(s[p..i]) % Pow2(bits)
    ensures more <==> s[i] >= 128
    ensures sum == Septets(s[p..i + 1]) % Pow2(bits)
  {
    var low;
    more, low := SplitByte(s[i]);
    AccumulatedValue(s, p, i, result, bits);
    sum := Or(result, (if more then low else s[i]) * Pow2(shift) % Pow2(bits));
  }

  lemma AccumulatedValue(s: Bytes, p: nat, i: nat, result: nat, bits: nat)
    requires p <= i < |s| && 7 * (i - p) <= bits
    requires result == Septets(s[p..i]) % Pow2(bits)
    ensures s[i] % 128 * Pow2(7 * (i - p)) >= 0
    ensures Or(result, s[i] % 128 * Pow2(7 * (i - p)) % Pow2(bits))
         == Septets(s[p..i + 1]) % Pow2(bits)
  {
    var done := s[p..i];
    SeptetsBound(done);
    Pow2Monotone(7 * |done|, bits);
    DivModUnique(Septets(done), Pow2(bits), 0, Septets(done));
    OrShifted(result, s[i] % 128, 7 * |done|, bits);
    SeptetsAppend(done, s[i]);
    assert s[p..i + 1] == done + [s[i]];
  }

  lemma StopsHere(s: Bytes, p: nat, limit: nat, i: nat, maxLength: nat, bits: nat)
    requires p <= i < limit <= |s| && i - p < maxLength
    requires s[i] < 128 && forall j :: p <= j < i ==> s[j] >= 128
    ensures Decode(s[p..limit], maxLength, bits)
         == Some(Reading(Septets(s[p..i + 1]) % Pow2(bits), i + 1 - p))
  {
    StopIndexUnique(s[p..limit], i - p);
    assert s[p..limit][..i + 1 - p] == s[p..i + 1];
  }

  lemma NeverStops(s: Bytes, p: nat, limit: nat, i: nat, maxLength: nat, bits: nat)
    requires p <= i <= limit <= |s| && (i == limit || i - p >= maxLength)
    requires forall j :: p <= j < i ==> s[j] >= 128
    ensures Decode(s[p..limit], maxLength, bits) == None
  {
    var t := s[p..limit];
    var k := StopIndex(t);
    if k < |t| { assert t[k] == s[p + k]; }
  }

  /** The loop of both decoders, for words of `bits` bits; `s[p..limit]` is all it may look at. */
  method ReadVarint(s: Bytes, p: nat, limit: nat, lastShift: nat, bits: nat, ghost maxLength: nat)
    returns (r: Option<Reading>)
    requires p <= limit <= |s|
    requires lastShift + 7 == 7 * maxLength && lastShift <= bits
    ensures r == Decode(s[p..limit], maxLength, bits)
  {
    var result, shift, i := 0, 0, p;
    DivModUnique(0, Pow2(bits), 0, 0);
    while shift <= lastShift && i < limit
      invariant p <= i <= limit && shift == 7 * (i - p) <= lastShift + 7
      invariant forall j :: p <= j < i ==> s[j] >= 128
      invariant result == Septets(s[p..i]) % Pow2(bits)
    {
      var more;
      result, more := Accumulate(s, p, i, result, shift, bits);
      if !more {
        StopsHere(s, p, limit, i, maxLength, bits);
        return Some(Reading(result, i + 1 - p));
      }
      i, shift := i + 1, shift + 7;
    }
    NeverStops(s, p, limit, i, maxLength, bits);
    return None;
  }

  method GetVarint32PtrFallback(s: Bytes, p: nat, limit: nat) returns (r: Option<Reading>)
    requires p <= limit <= |s|
    ensures r == Decode32(s[p..limit])
  {
    r := ReadVarint(s, p, limit, 28, 32, 5);
  }

  /** GetVarint32Ptr: the one-byte fast path, else the loop. */
  method GetVarint32Ptr(s: Bytes, p: nat, limit: nat) returns (r: Option<Reading>)
    requires p <= limit <= |s|
    ensures r == Decode32(s[p..limit])
  {
    if p < limit {
      var more, _ := SplitByte(s[p]);
      if !more {
        StopsHere(s, p, limit, p, 5, 32);
        OneByte(s[p]);
        assert s[p..p + 1] == [s[p]];
        return Some(Reading(s[p], 1));
      }
    }
    r := GetVarint32PtrFallback(s, p, limit);
  }

  lemma OneByte(b: byte)
    requires b < 128
    ensures Septets([b]) % Pow2(32) == b
  {
    Pow2At32();
    assert Septets([b][1..]) == 0;
  }

  method GetVarint64Ptr(s: Bytes, p: nat, limit: nat) returns (r: Option<Reading>)
    requires p <= limit <= |s|
    ensures r == Decode64(s[p..limit])
  {
    r := ReadVarint(s, p, limit, 63, 64, 10);
  }
}
