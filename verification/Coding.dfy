/** The Put and Get families over strings and slices, zigzag, and length-prefixed slices. */
module Coding {
  import opened Bits
  import opened Bytes
  import opened Varint

  // ---------------------------------------------------------------- zigzag

  const TWO_64: nat := 0x1_0000_0000_0000_0000

  /** `(uint64(l) << 1) ^ uint64(l >> 63)`: the arithmetic shift yields all ones or all zeros. */
  function I64ToZigzag(l: i64): nat {
    Xor(l % TWO_64 * 2 % TWO_64, if l < 0 then TWO_64 - 1 else 0)
  }

  /** `(n >> 1) ^ -int64(n & 1)`, converted to a signed word. */
  function ZigzagToI64(n: u64): int {
    var x := Xor(n / 2, if n % 2 == 1 then TWO_64 - 1 else 0);
    if x < 0x8000_0000_0000_0000 then x else x - TWO_64
  }

  /** Small magnitudes of either sign become small codes: 0, -1, 1, -2, ... are 0, 1, 2, 3, ... */
  lemma ZigzagCode(l: i64)
    ensures I64ToZigzag(l) == if l >= 0 then 2 * l else -2 * l - 1
    ensures I64ToZigzag(l) < TWO_64
  {
    Pow2At64();
    DivModUnique(l, TWO_64, if l < 0 then -1 else 0, if l < 0 then l + TWO_64 else l);
    var shifted := l % TWO_64 * 2;
    DivModUnique(shifted, TWO_64, if l < 0 then 1 else 0, if l < 0 then 2 * l + TWO_64 else 2 * l);
    if l < 0 { XorOnes(shifted % TWO_64, 64); }
  }

  lemma ZigzagInverse(n: u64)
    ensures ZigzagToI64(n) == if n % 2 == 0 then n / 2 else -(n / 2) - 1
  {
    Pow2At64();
    if n % 2 == 1 { XorOnes(n / 2, 64); }
  }

  /** Zigzag is a bijection between signed and unsigned words. */
  lemma ZigzagBijection(l: i64, n: u64)
    ensures I64ToZigzag(l) < TWO_64 && ZigzagToI64(I64ToZigzag(l)) == l
    ensures -0x8000_0000_0000_0000 <= ZigzagToI64(n) < 0x8000_0000_0000_0000
    ensures I64ToZigzag(ZigzagToI64(n)) == n
  {
    ZigzagCode(l);
    ZigzagInverse(I64ToZigzag(l));
    ZigzagInverse(n);
    ZigzagCode(ZigzagToI64(n));
  }

  // ---------------------------------------------------------------- Put: appending to a string

  method PutVarint32(dst: ByteString, v: u32)
    modifies dst
    ensures dst.bytes == old(dst.bytes) + Leb128(v)
  {
    WordLengths(v);
    var buf := new byte[5];
    var ptr := EncodeVarint32(buf, 0, v);
    assert buf[..ptr] == Leb128(v);
    dst.bytes := dst.bytes + buf[..ptr];
  }

  method PutVarint64(dst: ByteString, v: u64)
    modifies dst
    ensures dst.bytes == old(dst.bytes) + Leb128(v)
  {
    WordLengths(v);
    var buf := new byte[10];
    var ptr := EncodeVarint64(buf, 0, v);
    assert buf[..ptr] == Leb128(v);
    dst.bytes := dst.bytes + buf[..ptr];
  }

  method PutVarsignedint64(dst: ByteString, v: i64)
    modifies dst
    ensures dst.bytes == old(dst.bytes) + Leb128(I64ToZigzag(v))
  {
    ZigzagCode(v);
    PutVarint64(dst, I64ToZigzag(v));
  }

  /** The second and later values of a scratch buffer that holds `done` so far. */
  method Encode32After(buf: array<byte>, at: nat, v: u32, ghost done: Bytes) returns (ptr: nat)
    requires at + |Leb128(v)| <= buf.Length && buf[..at] == done
    modifies buf
    ensures ptr == at + |Leb128(v)| <= buf.Length && buf[..ptr] == done + Leb128(v)
  {
    ptr := EncodeVarint32(buf, at, v);
    assert buf[..ptr] == done + Leb128(v);
  }

  method Encode64After(buf: array<byte>, at: nat, v: u64, ghost done: Bytes) returns (ptr: nat)
    requires at + |Leb128(v)| <= buf.Length && buf[..at] == done
    modifies buf
    ensures ptr == at + |Leb128(v)| <= buf.Length && buf[..ptr] == done + Leb128(v)
  {
    ptr := EncodeVarint64(buf, at, v);
    assert buf[..ptr] == done + Leb128(v);
  }

  /** The multi-value forms: one scratch buffer of the source's size always suffices. */
  method PutVarint32Varint32(dst: ByteString, v1: u32, v2: u32)
    modifies dst
    ensures dst.bytes == old(dst.bytes) + Leb128(v1) + Leb128(v2)
  {
    WordLengths(v1);
    WordLengths(v2);
    var buf := new byte[10];
    var ptr := Encode32After(buf, 0, v1, []);
    assert buf[..ptr] == Leb128(v1);
    ptr := Encode32After(buf, ptr, v2, Leb128(v1));
    dst.bytes := dst.bytes + buf[..ptr];
  }

  method PutVarint32Varint32Varint32(dst: ByteString, v1: u32, v2: u32, v3: u32)
    modifies dst
    ensures dst.bytes == old(dst.bytes) + Leb128(v1) + Leb128(v2) + Leb128(v3)
  {
    WordLengths(v1);
    WordLengths(v2);
    WordLengths(v3);
    var buf := new byte[15];
    var ptr := Encode32After(buf, 0, v1, []);
    assert buf[..ptr] == Leb128(v1);
    ptr := Encode32After(buf, ptr, v2, Leb128(v1));
    ptr := Encode32After(buf, ptr, v3, Leb128(v1) + Leb128(v2));
    dst.bytes := dst.bytes + buf[..ptr];
  }

  method PutVarint64Varint64(dst: ByteString, v1: u64, v2: u64)
    modifies dst
    ensures dst.bytes == old(dst.bytes) + Leb128(v1) + Leb128(v2)
  {
    WordLengths(v1);
    WordLengths(v2);
    var buf := new byte[20];
    var ptr := Encode64After(buf, 0, v1, []);
    assert buf[..ptr] == Leb128(v1);
    ptr := Encode64After(buf, ptr, v2, Leb128(v1));
    dst.bytes := dst.bytes + buf[..ptr];
  }

  method PutVarint32Varint64(dst: ByteString, v1: u32, v2: u64)
    modifies dst
    ensures dst.bytes == old(dst.bytes) + Leb128(v1) + Leb128(v2)
  {
    WordLengths(v1);
    WordLengths(v2);
    var buf := new byte[15];
    var ptr := Encode32After(buf, 0, v1, []);
    assert buf[..ptr] == Leb128(v1);
    ptr := Encode64After(buf, ptr, v2, Leb128(v1));
    dst.bytes := dst.bytes + buf[..ptr];
  }

  method PutVarint32Varint32Varint64(dst: ByteString, v1: u32, v2: u32, v3: u64)
    modifies dst
    ensures dst.bytes == old(dst.bytes) + Leb128(v1) + Leb128(v2) + Leb128(v3)
  {
    WordLengths(v1);
    WordLengths(v2);
    WordLengths(v3);
    var buf := new byte[20];
    var ptr := Encode32After(buf, 0, v1, []);
    assert buf[..ptr] == Leb128(v1);
    ptr := Encode32After(buf, ptr, v2, Leb128(v1));
    ptr := Encode64After(buf, ptr, v3, Leb128(v1) + Leb128(v2));
    dst.bytes := dst.bytes + buf[..ptr];
  }

  method PutFixed32(dst: ByteString, v: u32)
    modifies dst
    ensures dst.bytes == old(dst.bytes) + LittleEndian(v, 4)
  {
    dst.bytes := dst.bytes + LittleEndian(v, 4);
  }

  method PutFixed64(dst: ByteString, v: u64)
    modifies dst
    ensures dst.bytes == old(dst.bytes) + LittleEndian(v, 8)
  {
    dst.bytes := dst.bytes + LittleEndian(v, 8);
  }

  /** The length of the data, cut to 32 bits, and then all of the data. */
  function LengthPrefixed(data: Bytes): Bytes {
    Leb128(|data| % 0x1_0000_0000) + data
  }

  method PutLengthPrefixedSlice(dst: ByteString, value: Bytes)
    modifies dst
    ensures dst.bytes == old(dst.bytes) + LengthPrefixed(value)
  {
    PutVarint32(dst, |value| % 0x1_0000_0000);
    dst.bytes := dst.bytes + value;
  }

  /** Sums the part sizes, writes the prefix, then appends part by part and the padding. */
  method PutLengthPrefixedSlicePartsWithPadding(dst: ByteString, parts: seq<Bytes>, padding: nat)
    modifies dst
    ensures dst.bytes == old(dst.bytes) + LengthPrefixed(Concat(parts) + Repeat(0, padding))
  {
    var total := padding;
    for i := 0 to |parts|
      invariant total == padding + |Concat(parts[..i])|
      invariant dst.bytes == old(dst.bytes)
    {
      ConcatAppend(parts, i);
      total := total + |parts[i]|;
    }
    assert parts[..|parts|] == parts;
    PutVarint32(dst, total % 0x1_0000_0000);
    ghost var written := dst.bytes;
    for i := 0 to |parts|
      invariant dst.bytes == written + Concat(parts[..i])
    {
      ConcatAppend(parts, i);
      dst.bytes := dst.bytes + parts[i];
    }
    assert parts[..|parts|] == parts;
    dst.bytes := dst.bytes + Repeat(0, padding);
  }

  lemma {:induction false} ConcatAppend(parts: seq<Bytes>, i: nat)
    requires i < |parts|
    ensures Concat(parts[..i + 1]) == Concat(parts[..i]) + parts[i]
  {
    if i == 0 {
      assert parts[..1] == [parts[0]];
    } else {
      ConcatAppend(parts[1..], i - 1);
      assert parts[..i + 1][1..] == parts[1..][..i] && parts[..i][1..] == parts[1..][..i - 1];
    }
  }

  // ---------------------------------------------------------------- Get: consuming a slice

  method GetVarint32(input: ByteString) returns (r: Option<nat>)
    modifies input
    ensures match Decode32(old(input.bytes))
            case None => r == None && input.bytes == old(input.bytes)
            case Some(d) => r == Some(d.value) && input.bytes == old(input.bytes)[d.length..]
  {
    assert input.bytes[0..|input.bytes|] == input.bytes;
    var d := GetVarint32Ptr(input.bytes, 0, |input.bytes|);
    if d == None { return None; }
    input.bytes := input.bytes[d.value.length..];
    return Some(d.value.value);
  }

  method GetVarint64(input: ByteString) returns (r: Option<nat>)
    modifies input
    ensures match Decode64(old(input.bytes))
            case None => r == None && input.bytes == old(input.bytes)
            case Some(d) => r == Some(d.value) && input.bytes == old(input.bytes)[d.length..]
  {
    assert input.bytes[0..|input.bytes|] == input.bytes;
    var d := GetVarint64Ptr(input.bytes, 0, |input.bytes|);
    if d == None { return None; }
    input.bytes := input.bytes[d.value.length..];
    return Some(d.value.value);
  }

  lemma Decoded64IsWord(s: Bytes)
    ensures Decode64(s).Some? ==> Decode64(s).value.value < TWO_64
  {
    Pow2At64();
  }

  /** The output is written even when the call fails: it is then 0. */
  method GetVarsignedint64(input: ByteString) returns (ok: bool, value: int)
    modifies input
    ensures Decode64(old(input.bytes)).Some? ==> Decode64(old(input.bytes)).value.value < TWO_64
    ensures match Decode64(old(input.bytes))
            case None => !ok && value == 0 && input.bytes == old(input.bytes)
            case Some(d) => ok && value == ZigzagToI64(d.value) && input.bytes == old(input.bytes)[d.length..]
  {
    Decoded64IsWord(input.bytes);
    ZigzagInverse(0);
    var u := GetVarint64(input);
    value := ZigzagToI64(if u == None then 0 else u.value);
    ok := u != None;
  }

  method GetFixed64(input: ByteString) returns (r: Option<nat>)
    modifies input
    ensures if |old(input.bytes)| < 8 then r == None && input.bytes == old(input.bytes)
            else r == Some(FromLittleEndian(old(input.bytes)[..8])) && input.bytes == old(input.bytes)[8..]
  {
    if |input.bytes| < 8 { return None; }
    r := Some(FromLittleEndian(input.bytes[..8]));
    input.bytes := input.bytes[8..];
  }

  method GetFixed32(input: ByteString) returns (r: Option<nat>)
    modifies input
    ensures if |old(input.bytes)| < 4 then r == None && input.bytes == old(input.bytes)
            else r == Some(FromLittleEndian(old(input.bytes)[..4])) && input.bytes == old(input.bytes)[4..]
  {
    if |input.bytes| < 4 { return None; }
    r := Some(FromLittleEndian(input.bytes[..4]));
    input.bytes := input.bytes[4..];
  }

  /** Reads a length and that many bytes.  When the length itself is readable but the data is
      short, the call fails with the length already consumed. */
  method GetLengthPrefixedSlice(input: ByteString) returns (r: Option<Bytes>)
    modifies input
    ensures match DecodeItem(PREFIXED, old(input.bytes))
            case Some(d) => r == Some(d.value.data) && input.bytes == d.rest
            case None => r == None && input.bytes == AfterFailedSlice(old(input.bytes))
  {
    var len := GetVarint32(input);
    if len.Some? && |input.bytes| >= len.value {
      r := Some(input.bytes[..len.value]);
      input.bytes := input.bytes[len.value..];
    } else {
      r := None;
    }
  }

  function AfterFailedSlice(s: Bytes): Bytes {
    match Decode32(s)
    case None => s
    case Some(d) => s[d.length..]
  }

  // ---------------------------------------------------------------- heterogeneous records

  datatype Kind = VARINT32 | VARINT64 | SIGNED64 | FIXED32 | FIXED64 | PREFIXED

  datatype Item =
    | Varint32(v32: u32) | Varint64(v64: u64) | Signed64(s64: i64)
    | Fixed32(f32: u32) | Fixed64(f64: u64)
    | Slice(data: Bytes) | Parts(parts: seq<Bytes>, padding: nat)

  datatype Value = Number(number: int) | Data(data: Bytes)

  datatype Decoded = Decoded(value: Value, rest: Bytes)

  function KindOf(x: Item): Kind {
    match x
    case Varint32(_) => VARINT32
    case Varint64(_) => VARINT64
    case Signed64(_) => SIGNED64
    case Fixed32(_) => FIXED32
    case Fixed64(_) => FIXED64
    case _ => PREFIXED
  }

  /** What a reader is meant to see. */
  function ValueOf(x: Item): Value {
    match x
    case Varint32(v) => Number(v)
    case Varint64(v) => Number(v)
    case Signed64(v) => Number(v)
    case Fixed32(v) => Number(v)
    case Fixed64(v) => Number(v)
    case Slice(data) => Data(data)
    case Parts(parts, padding) => Data(Concat(parts) + Repeat(0, padding))
  }

  /** Length prefixes are 32 bits wide. */
  predicate Fits(x: Item) {
    ValueOf(x).Data? ==> |ValueOf(x).data| < 0x1_0000_0000
  }

  function EncodeItem(x: Item): Bytes {
    match x
    case Varint32(v) => Leb128(v)
    case Varint64(v) => Leb128(v)
    case Signed64(v) => Leb128(I64ToZigzag(v))
    case Fixed32(v) => LittleEndian(v, 4)
    case Fixed64(v) => LittleEndian(v, 8)
    case Slice(data) => LengthPrefixed(data)
    case Parts(parts, padding) => LengthPrefixed(Concat(parts) + Repeat(0, padding))
  }

  function DecodeItem(kind: Kind, s: Bytes): (r: Option<Decoded>)
    ensures kind == PREFIXED && r.Some? ==> r.value.value.Data?
  {
    match kind
    case VARINT32 =>
      (match Decode32(s) case None => None case Some(d) => Some(Decoded(Number(d.value), s[d.length..])))
    case VARINT64 =>
      (match Decode64(s) case None => None case Some(d) => Some(Decoded(Number(d.value), s[d.length..])))
    case SIGNED64 =>
      (match Decode64(s)
       case None => None
       case Some(d) => Decoded64IsWord(s); Some(Decoded(Number(ZigzagToI64(d.value)), s[d.length..])))
    case FIXED32 =>
      if |s| < 4 then None else Some(Decoded(Number(FromLittleEndian(s[..4])), s[4..]))
    case FIXED64 =>
      if |s| < 8 then None else Some(Decoded(Number(FromLittleEndian(s[..8])), s[8..]))
    case PREFIXED =>
      (match Decode32(s)
       case None => None
       case Some(d) =>
         var t := s[d.length..];
         if |t| >= d.value then Some(Decoded(Data(t[..d.value]), t[d.value..])) else None)
  }

  function EncodeAll(xs: seq<Item>): Bytes {
    if xs == [] then [] else EncodeItem(xs[0]) + EncodeAll(xs[1..])
  }

  datatype DecodedAll = DecodedAll(values: seq<Value>, rest: Bytes)

  function DecodeAll(kinds: seq<Kind>, s: Bytes): Option<DecodedAll> {
    if kinds == [] then Some(DecodedAll([], s))
    else match DecodeItem(kinds[0], s)
      case None => None
      case Some(d) =>
        match DecodeAll(kinds[1..], d.rest)
        case None => None
        case Some(e) => Some(DecodedAll([d.value] + e.values, e.rest))
  }

  function Kinds(xs: seq<Item>): seq<Kind> { seq(|xs|, i requires 0 <= i < |xs| => KindOf(xs[i])) }

  function Values(xs: seq<Item>): seq<Value> { seq(|xs|, i requires 0 <= i < |xs| => ValueOf(xs[i])) }

  lemma VarintThenTail(v: nat, s: Bytes, tail: Bytes)
    requires s == Leb128(v) + tail
    ensures v < 0x1_0000_0000 ==> Decode32(s) == Some(Reading(v, |Leb128(v)|))
    ensures v < TWO_64 ==> Decode64(s) == Some(Reading(v, |Leb128(v)|))
    ensures s[|Leb128(v)|..] == tail
  {
    RoundTrip(v, tail);
  }

  lemma FixedThenTail(v: nat, n: nat, tail: Bytes)
    requires v < Pow2(8 * n)
    ensures FromLittleEndian((LittleEndian(v, n) + tail)[..n]) == v
    ensures (LittleEndian(v, n) + tail)[n..] == tail
  {
    FixedRoundTrip(v, n);
    assert (LittleEndian(v, n) + tail)[..n] == LittleEndian(v, n);
  }

  /** What a length-prefixed slice of any length is read back as. */
  lemma PrefixedReads(data: Bytes, tail: Bytes)
    ensures var n, t := |data| % 0x1_0000_0000, data + tail;
            DecodeItem(PREFIXED, LengthPrefixed(data) + tail) == Some(Decoded(Data(t[..n]), t[n..]))
  {
    var n := |data| % 0x1_0000_0000;
    AppendAssociative(Leb128(n), data, tail);
    PrefixThenTail(n, data + tail);
  }

  lemma PrefixThenTail(n: nat, t: Bytes)
    requires n < 0x1_0000_0000 && n <= |t|
    ensures DecodeItem(PREFIXED, Leb128(n) + t) == Some(Decoded(Data(t[..n]), t[n..]))
  {
    VarintThenTail(n, Leb128(n) + t, t);
  }

  /** A length-prefixed slice is read back whole exactly when its length fits in 32 bits; the
      writer's cast loses the rest of a longer length. */
  lemma PrefixedRoundTrip(data: Bytes, tail: Bytes)
    ensures DecodeItem(PREFIXED, LengthPrefixed(data) + tail) == Some(Decoded(Data(data), tail))
            <==> |data| < 0x1_0000_0000
  {
    PrefixedReads(data, tail);
    CutLength(|data|);
    CutData(data, tail, |data| % 0x1_0000_0000);
  }

  lemma CutLength(length: nat)
    ensures length % 0x1_0000_0000 <= length
    ensures length % 0x1_0000_0000 == length <==> length < 0x1_0000_0000
  {}

  lemma CutData(data: Bytes, tail: Bytes, n: nat)
    requires n <= |data|
    ensures (data + tail)[..n] == data && (data + tail)[n..] == tail <==> n == |data|
  {
    assert |(data + tail)[..n]| == n;
  }

  /** The prefix is a varint of the length, cut to 32 bits, and all the data follows it. */
  lemma PrefixIsVarint(data: Bytes, tail: Bytes)
    ensures DecodeItem(VARINT32, LengthPrefixed(data) + tail)
         == Some(Decoded(Number(|data| % 0x1_0000_0000), data + tail))
  {
    var n := |data| % 0x1_0000_0000;
    AppendAssociative(Leb128(n), data, tail);
    VarintThenTail(n, Leb128(n) + (data + tail), data + tail);
  }

  /** Reading a slice from any byte string reads a varint and then that many bytes, and succeeds
      exactly when both are there; after a failure the varint stays consumed. */
  lemma PrefixedReading(s: Bytes)
    ensures match DecodeItem(VARINT32, s)
            case None => DecodeItem(PREFIXED, s) == None && AfterFailedSlice(s) == s
            case Some(d) =>
              var n := d.value.number;
              if 0 <= n <= |d.rest|
              then DecodeItem(PREFIXED, s) == Some(Decoded(Data(d.rest[..n]), d.rest[n..]))
              else DecodeItem(PREFIXED, s) == None && AfterFailedSlice(s) == d.rest
  {}

  /** The smallest slice that is not read back: 2^32 bytes are written under length 0. */
  lemma FourGibibytesAreLost(tail: Bytes)
    ensures var data := Repeat(7, 0x1_0000_0000);
            DecodeItem(PREFIXED, LengthPrefixed(data) + tail) == Some(Decoded(Data([]), data + tail))
  {
    PrefixedReads(Repeat(7, 0x1_0000_0000), tail);
  }

  lemma SignedRoundTrip(v: i64, tail: Bytes)
    ensures DecodeItem(SIGNED64, Leb128(I64ToZigzag(v)) + tail) == Some(Decoded(Number(v), tail))
  {
    ZigzagBijection(v, 0);
    VarintThenTail(I64ToZigzag(v), Leb128(I64ToZigzag(v)) + tail, tail);
  }

  lemma Fixed32RoundTrip(v: u32, tail: Bytes)
    ensures DecodeItem(FIXED32, LittleEndian(v, 4) + tail) == Some(Decoded(Number(v), tail))
  {
    Pow2At32();
    FixedThenTail(v, 4, tail);
  }

  lemma Fixed64RoundTrip(v: u64, tail: Bytes)
    ensures DecodeItem(FIXED64, LittleEndian(v, 8) + tail) == Some(Decoded(Number(v), tail))
  {
    Pow2At64();
    FixedThenTail(v, 8, tail);
  }

  lemma ItemRoundTrip(x: Item, tail: Bytes)
    ensures DecodeItem(KindOf(x), EncodeItem(x) + tail) == Some(Decoded(ValueOf(x), tail)) <==> Fits(x)
  {
    match x
    case Varint32(v) => VarintThenTail(v, EncodeItem(x) + tail, tail);
    case Varint64(v) => VarintThenTail(v, EncodeItem(x) + tail, tail);
    case Signed64(v) => SignedRoundTrip(v, tail);
    case Fixed32(v) => Fixed32RoundTrip(v, tail);
    case Fixed64(v) => Fixed64RoundTrip(v, tail);
    case Slice(data) => PrefixedRoundTrip(data, tail);
    case Parts(parts, padding) => PrefixedRoundTrip(ValueOf(x).data, tail);
  }

  predicate AllFit(xs: seq<Item>) {
    forall i :: 0 <= i < |xs| ==> Fits(xs[i])
  }

  /** A list of items is read back in order by the matching readers, with the bytes after it
      untouched, exactly when every length prefix fits. */
  lemma {:induction false} RecordRoundTrip(xs: seq<Item>, tail: Bytes)
    ensures DecodeAll(Kinds(xs), EncodeAll(xs) + tail) == Some(DecodedAll(Values(xs), tail)) <==> AllFit(xs)
  {
    if xs == [] {
      assert EncodeAll(xs) + tail == tail;
      assert Kinds(xs) == [] && Values(xs) == [];
    } else {
      var first, after := EncodeItem(xs[0]), EncodeAll(xs[1..]) + tail;
      AppendAssociative(first, EncodeAll(xs[1..]), tail);
      KindsAndValues(xs);
      AllFitStep(xs);
      RecordRoundTrip(xs[1..], tail);
      var d := ItemReads(xs[0], after);
      ReadFirst(Kinds(xs), first + after, d, ValueOf(xs[0]), Values(xs[1..]), tail);
    }
  }

  /** Every written item is read as something: itself, if it fits, or data of another length. */
  lemma ItemReads(x: Item, tail: Bytes) returns (d: Decoded)
    ensures DecodeItem(KindOf(x), EncodeItem(x) + tail) == Some(d)
    ensures if Fits(x) then d == Decoded(ValueOf(x), tail) else d.value != ValueOf(x)
  {
    if Fits(x) {
      ItemRoundTrip(x, tail);
      d := Decoded(ValueOf(x), tail);
    } else {
      PrefixedReads(ValueOf(x).data, tail);
      d := DecodeItem(KindOf(x), EncodeItem(x) + tail).value;
    }
  }

  lemma ReadFirst(kinds: seq<Kind>, s: Bytes, d: Decoded, v: Value, values: seq<Value>, tail: Bytes)
    requires kinds != [] && DecodeItem(kinds[0], s) == Some(d)
    ensures DecodeAll(kinds, s) == Some(DecodedAll([v] + values, tail)) <==>
            d.value == v && DecodeAll(kinds[1..], d.rest) == Some(DecodedAll(values, tail))
  {
    var rest := DecodeAll(kinds[1..], d.rest);
    if rest.Some? {
      ConsCancels(d.value, rest.value.values, v, values);
    }
  }

  lemma AllFitStep(xs: seq<Item>)
    requires xs != []
    ensures AllFit(xs) <==> Fits(xs[0]) && AllFit(xs[1..])
  {
    if Fits(xs[0]) && AllFit(xs[1..]) {
      forall i | 0 <= i < |xs| ensures Fits(xs[i]) {
        assert i > 0 ==> xs[i] == xs[1..][i - 1];
      }
    }
  }

  lemma ConsCancels(v: Value, vs: seq<Value>, v': Value, vs': seq<Value>)
    ensures [v] + vs == [v'] + vs' <==> v == v' && vs == vs'
  {
    assert ([v] + vs)[0] == v && ([v] + vs)[1..] == vs && ([v'] + vs')[0] == v' && ([v'] + vs')[1..] == vs';
  }

  lemma KindsAndValues(xs: seq<Item>)
    requires xs != []
    ensures Kinds(xs) == [KindOf(xs[0])] + Kinds(xs[1..]) && Kinds(xs)[1..] == Kinds(xs[1..])
    ensures Values(xs) == [ValueOf(xs[0])] + Values(xs[1..])
  {}

  /** Hence no two records of the same shape share an encoding, even with different tails. */
  lemma RecordsUnambiguous(xs: seq<Item>, ys: seq<Item>, tail: Bytes, tail': Bytes)
    requires Kinds(xs) == Kinds(ys)
    requires AllFit(xs) && AllFit(ys)
    requires EncodeAll(xs) + tail == EncodeAll(ys) + tail'
    ensures Values(xs) == Values(ys) && tail == tail'
  {
    RecordRoundTrip(xs, tail);
    RecordRoundTrip(ys, tail');
  }

  /** The Put call for one item. */
  method PutItem(dst: ByteString, x: Item)
    modifies dst
    ensures dst.bytes == old(dst.bytes) + EncodeItem(x)
  {
    match x {
      case Varint32(v) => PutVarint32(dst, v);
      case Varint64(v) => PutVarint64(dst, v);
      case Signed64(v) => PutVarsignedint64(dst, v);
      case Fixed32(v) => PutFixed32(dst, v);
      case Fixed64(v) => PutFixed64(dst, v);
      case Slice(data) => PutLengthPrefixedSlice(dst, data);
      case Parts(parts, padding) => PutLengthPrefixedSlicePartsWithPadding(dst, parts, padding);
    }
  }

  /** The Get call for one kind of item. */
  method GetItem(input: ByteString, kind: Kind) returns (r: Option<Value>)
    modifies input
    ensures match DecodeItem(kind, old(input.bytes))
            case None => r == None
            case Some(d) => r == Some(d.value) && input.bytes == d.rest
  {
    if kind == PREFIXED {
      var data := GetLengthPrefixedSlice(input);
      return if data.Some? then Some(Data(data.value)) else None;
    }
    var n: Option<int> := None;
    match kind {
      case VARINT32 => n := GetVarint32(input);
      case VARINT64 => n := GetVarint64(input);
      case SIGNED64 =>
        var ok, value := GetVarsignedint64(input);
        n := if ok then Some(value) else None;
      case FIXED32 => n := GetFixed32(input);
      case FIXED64 => n := GetFixed64(input);
      case PREFIXED =>
    }
    return if n.Some? then Some(Number(n.value)) else None;
  }

  method PutItems(dst: ByteString, xs: seq<Item>)
    modifies dst
    ensures dst.bytes == old(dst.bytes) + EncodeAll(xs)
  {
    for i := 0 to |xs|
      invariant dst.bytes + EncodeAll(xs[i..]) == old(dst.bytes) + EncodeAll(xs)
    {
      EncodeSplit(xs[i..]);
      assert dst.bytes + EncodeAll(xs[i..]) == (dst.bytes + EncodeItem(xs[i])) + EncodeAll(xs[i + 1..]);
      PutItem(dst, xs[i]);
    }
    assert EncodeAll(xs[|xs|..]) == [];
  }

  lemma EncodeSplit(xs: seq<Item>)
    requires xs != []
    ensures EncodeAll(xs) == EncodeItem(xs[0]) + EncodeAll(xs[1..])
  {}

  /** Stops at the first reader that fails. */
  method GetItems(input: ByteString, kinds: seq<Kind>) returns (r: Option<seq<Value>>)
    modifies input
    ensures match DecodeAll(kinds, old(input.bytes))
            case None => r == None
            case Some(d) => r == Some(d.values) && input.bytes == d.rest
  {
    if kinds == [] { return Some([]); }
    var first := GetItem(input, kinds[0]);
    if first == None { return None; }
    var others := GetItems(input, kinds[1..]);
    return if others == None then None else Some([first.value] + others.value);
  }

  /** Writing a list of items through the Put calls and reading it back through the Get calls returns
      the list and leaves the bytes that follow, exactly when every length prefix fits. */
  method WriteThenRead(xs: seq<Item>, tail: Bytes) returns (r: Option<seq<Value>>, rest: Bytes)
    ensures r == Some(Values(xs)) && rest == tail <==> AllFit(xs)
  {
    var s := new ByteString([]);
    PutItems(s, xs);
    assert s.bytes == EncodeAll(xs);
    s.bytes := s.bytes + tail;
    RecordRoundTrip(xs, tail);
    r := GetItems(s, Kinds(xs));
    rest := s.bytes;
  }
}
