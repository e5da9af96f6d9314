/** Internal keys: a user key followed by a 64-bit footer that packs a 56-bit sequence number over
    an 8-bit value type; their codec, their order, and the keys built to bound or separate others. */
module InternalKeys {
  import opened Bits
  import opened Bytes
  import opened Format

  const MAX_SEQUENCE: nat := 0xff_ffff_ffff_ffff
  const TYPE_DELETION: byte := 0x0
  const TYPE_RANGE_DELETION: byte := 0xF
  const TYPE_FOR_SEEK: byte := 0x14

  predicate IsValueType(t: byte) {
    t <= 0x2 || t == 0x7 || t == 0x11 || t == 0x14
  }

  predicate IsExtendedValueType(t: byte) {
    IsValueType(t) || t == TYPE_RANGE_DELETION
  }

  datatype ParsedKey = ParsedKey(userKey: Bytes, sequence: nat, kind: byte) {
    /** What PackSequenceAndType asserts. */
    predicate Valid() {
      sequence <= MAX_SEQUENCE && IsExtendedValueType(kind)
    }
  }

  // ---------------------------------------------------------------- the codec

  /** `(seq << 8) | t` on 64-bit words. */
  function Pack(sequence: nat, kind: byte): nat {
    Or(sequence * 256 % 0x1_0000_0000_0000_0000, kind)
  }

  lemma PackValue(sequence: nat, kind: byte)
    ensures Pack(sequence, kind) == sequence % 0x100_0000_0000_0000 * 256 + kind < 0x1_0000_0000_0000_0000
    ensures sequence <= MAX_SEQUENCE ==> Pack(sequence, kind) == sequence * 256 + kind
  {
    ShiftCuts(sequence);
    ShiftedOr(sequence % 0x100_0000_0000_0000, kind);
  }

  /** The shift loses all but 56 bits. */
  lemma ShiftCuts(sequence: nat)
    ensures sequence * 256 % 0x1_0000_0000_0000_0000 == sequence % 0x100_0000_0000_0000 * 256
  {
    var q, r := sequence / 0x100_0000_0000_0000, sequence % 0x100_0000_0000_0000;
    DivModUnique(sequence * 256, 0x1_0000_0000_0000_0000, q, r * 256);
  }

  lemma ShiftedOr(sequence: nat, kind: byte)
    ensures Or(sequence * 256, kind) == sequence * 256 + kind
  {
    Pow2At8();
    OrLow(sequence, kind, 8);
  }

  function Encode(k: ParsedKey): (s: Bytes)
    ensures |s| == |k.userKey| + 8
  {
    k.userKey + LittleEndian(Pack(k.sequence, k.kind), 8)
  }

  function UserKey(s: Bytes): Bytes
    requires |s| >= 8
  {
    s[..|s| - 8]
  }

  function Footer(s: Bytes): nat
    requires |s| >= 8
  {
    FromLittleEndian(s[|s| - 8..])
  }

  /** The fields ParseInternalKey fills in, whatever it then returns. */
  function Fields(s: Bytes): ParsedKey
    requires |s| >= 8
  {
    ParsedKey(UserKey(s), Footer(s) / 256, Footer(s) % 256)
  }

  function ParseInternalKey(s: Bytes): Option<ParsedKey> {
    if |s| < 8 then None
    else if IsExtendedValueType(Fields(s).kind) then Some(Fields(s)) else None
  }

  method AppendInternalKey(result: ByteString, k: ParsedKey)
    requires k.Valid()
    modifies result
    ensures result.bytes == old(result.bytes) + Encode(k)
  {
    result.bytes := result.bytes + k.userKey;
    result.bytes := result.bytes + LittleEndian(Pack(k.sequence, k.kind), 8);
  }

  lemma FooterOfEncoded(k: ParsedKey)
    requires k.sequence <= MAX_SEQUENCE
    ensures UserKey(Encode(k)) == k.userKey
    ensures Footer(Encode(k)) == k.sequence * 256 + k.kind
  {
    PackValue(k.sequence, k.kind);
    Pow2At64();
    FixedRoundTrip(Pack(k.sequence, k.kind), 8);
    assert Encode(k)[|k.userKey|..] == LittleEndian(Pack(k.sequence, k.kind), 8);
  }

  /** Every valid key is parsed back from its encoding. */
  lemma ParseEncoded(k: ParsedKey)
    requires k.Valid()
    ensures ParseInternalKey(Encode(k)) == Some(k)
  {
    FooterOfEncoded(k);
    DivModUnique(k.sequence * 256 + k.kind, 256, k.sequence, k.kind);
  }

  lemma FooterBound(s: Bytes)
    requires |s| >= 8
    ensures Footer(s) < 0x1_0000_0000_0000_0000
  {
    FixedBound(s[|s| - 8..]);
    Pow2At64();
  }

  /** Every byte string that parses is the encoding of what it parses to. */
  lemma EncodeParsed(s: Bytes)
    requires ParseInternalKey(s).Some?
    ensures ParseInternalKey(s).value.Valid()
    ensures Encode(ParseInternalKey(s).value) == s
  {
    var k, t := Fields(s), s[|s| - 8..];
    FooterBound(s);
    PackValue(k.sequence, k.kind);
    assert Pack(k.sequence, k.kind) == FromLittleEndian(t);
    FixedRoundTripBytes(t);
    assert s == UserKey(s) + t;
  }

  /** Parsing on the bytes: the user key comes first, then the type, then seven bytes of sequence,
      least significant first; exactly the seven types of the inline and meta blocks are accepted. */
  lemma ParsedBytes(s: Bytes)
    requires |s| >= 8
    ensures var n := |s| - 8;
            && Fields(s) == ParsedKey(s[..n], FromLittleEndian(s[n + 1..]), s[n])
            && ParseInternalKey(s) ==
               if s[n] in {0x0, 0x1, 0x2, 0x7, 0xF, 0x11, 0x14} then Some(Fields(s)) else None
  {
    var n := |s| - 8;
    var t := s[n..];
    assert t[0] == s[n] && t[1..] == s[n + 1..];
    DivModUnique(FromLittleEndian(t), 256, FromLittleEndian(t[1..]), t[0]);
  }

  lemma ShortString(s: Bytes)
    requires |s| < 8
    ensures ParseInternalKey(s) == None
  {}

  // ---------------------------------------------------------------- the user comparator

  /** A user comparator: three-way comparison and the two key-shortening functions. */
  datatype Comparator = Comparator(
    compare: (Bytes, Bytes) -> int,
    findShortestSeparator: (Bytes, Bytes) -> Bytes,
    findShortSuccessor: Bytes -> Bytes)
  {
    /** The comparison is a total preorder: different byte strings may compare equal. */
    ghost predicate Ordered() {
      && (forall a, b :: compare(a, b) < 0 <==> compare(b, a) > 0)
      && (forall a, b, c :: compare(a, b) <= 0 && compare(b, c) <= 0 ==> compare(a, c) <= 0)
    }

    /** What the Comparator interface promises of its implementations. */
    ghost predicate Contract() {
      && Ordered()
      && (forall s, limit :: compare(s, limit) < 0 ==>
            && compare(s, findShortestSeparator(s, limit)) <= 0
            && compare(findShortestSeparator(s, limit), limit) < 0)
      && (forall k :: compare(k, findShortSuccessor(k)) <= 0)
    }
  }

  /** Slice::compare with shortening functions that do nothing, which the interface allows. */
  const BYTEWISE := Comparator((a, b) => Compare(a, b), (s, limit) => s, k => k)

  lemma BytewiseContract()
    ensures BYTEWISE.Contract()
  {
    forall a, b ensures BYTEWISE.compare(a, b) < 0 <==> BYTEWISE.compare(b, a) > 0 {
      CompareAntisymmetric(a, b);
    }
    forall a, b, c | BYTEWISE.compare(a, b) <= 0 && BYTEWISE.compare(b, c) <= 0
      ensures BYTEWISE.compare(a, c) <= 0
    {
      CompareTransitive(a, b, c);
    }
    forall k ensures BYTEWISE.compare(k, BYTEWISE.findShortSuccessor(k)) <= 0 {
      CompareAntisymmetric(k, k);
    }
    forall s, limit | BYTEWISE.compare(s, limit) < 0
      ensures BYTEWISE.compare(s, BYTEWISE.findShortestSeparator(s, limit)) <= 0
    {
      CompareAntisymmetric(s, s);
    }
  }

  // ---------------------------------------------------------------- the order of internal keys

  /** InternalKeyComparator::Compare on encoded keys: user key, then the footer, descending. */
  function CompareEncoded(c: Comparator, a: Bytes, b: Bytes): int
    requires |a| >= 8 && |b| >= 8
  {
    var r := c.compare(UserKey(a), UserKey(b));
    if r == 0 then (if Footer(a) > Footer(b) then -1 else if Footer(a) < Footer(b) then 1 else r) else r
  }

  /** Compare on parsed keys: user key, then sequence and type, both descending. */
  function CompareParsed(c: Comparator, a: ParsedKey, b: ParsedKey): int {
    var r := c.compare(a.userKey, b.userKey);
    if r == 0 then
      if a.sequence > b.sequence then -1
      else if a.sequence < b.sequence then 1
      else if a.kind > b.kind then -1
      else if a.kind < b.kind then 1
      else r
    else r
  }

  /** CompareKeySeq: the value type is shifted out. */
  function CompareKeySeq(c: Comparator, a: Bytes, b: Bytes): int
    requires |a| >= 8 && |b| >= 8
  {
    var r := c.compare(UserKey(a), UserKey(b));
    if r == 0 then
      if Footer(a) / 256 > Footer(b) / 256 then -1 else if Footer(a) / 256 < Footer(b) / 256 then 1 else r
    else r
  }

  /** One 64-bit comparison of the footers orders by sequence and then by type, on every pair of
      byte strings long enough to hold a footer. */
  lemma EncodedOrderIsParsedOrder(c: Comparator, a: Bytes, b: Bytes)
    requires |a| >= 8 && |b| >= 8
    ensures CompareEncoded(c, a, b) == CompareParsed(c, Fields(a), Fields(b))
  {}

  /** The order ignoring types is a coarsening: it never contradicts the full order, and only
      keys that agree on user key and sequence become equal. */
  lemma KeySeqCoarsens(c: Comparator, a: Bytes, b: Bytes)
    requires |a| >= 8 && |b| >= 8
    ensures CompareKeySeq(c, a, b) < 0 ==> CompareEncoded(c, a, b) < 0
    ensures CompareEncoded(c, a, b) <= 0 ==> CompareKeySeq(c, a, b) <= 0
    ensures CompareKeySeq(c, a, b) == 0 <==>
            c.compare(UserKey(a), UserKey(b)) == 0 && Fields(a).sequence == Fields(b).sequence
  {}

  lemma UserOrder(c: Comparator, x: Bytes, y: Bytes, z: Bytes)
    requires c.Ordered()
    ensures c.compare(x, x) == 0
    ensures c.compare(x, y) == 0 <==> c.compare(y, x) == 0
    ensures c.compare(x, y) <= 0 && c.compare(y, z) <= 0 ==> c.compare(x, z) <= 0
    ensures c.compare(x, y) < 0 && c.compare(y, z) <= 0 ==> c.compare(x, z) < 0
    ensures c.compare(x, y) <= 0 && c.compare(y, z) < 0 ==> c.compare(x, z) < 0
  {
    assert c.compare(x, z) == 0 ==> c.compare(z, x) == 0;
  }

  /** Internal keys are totally preordered whenever user keys are. */
  lemma InternalOrder(c: Comparator, x: Bytes, y: Bytes, z: Bytes)
    requires c.Ordered() && |x| >= 8 && |y| >= 8 && |z| >= 8
    ensures CompareEncoded(c, x, x) == 0
    ensures CompareEncoded(c, x, y) < 0 <==> CompareEncoded(c, y, x) > 0
    ensures CompareEncoded(c, x, y) <= 0 && CompareEncoded(c, y, z) <= 0 ==> CompareEncoded(c, x, z) <= 0
    ensures CompareEncoded(c, x, y) < 0 && CompareEncoded(c, y, z) <= 0 ==> CompareEncoded(c, x, z) < 0
    ensures CompareEncoded(c, x, y) <= 0 && CompareEncoded(c, y, z) < 0 ==> CompareEncoded(c, x, z) < 0
  {
    UserOrder(c, UserKey(x), UserKey(y), UserKey(z));
    UserOrder(c, UserKey(y), UserKey(z), UserKey(x));
    UserOrder(c, UserKey(z), UserKey(x), UserKey(y));
  }

  /** Under the bytewise comparator it is a total order: only identical keys compare equal. */
  lemma BytewiseTotal(a: Bytes, b: Bytes)
    requires |a| >= 8 && |b| >= 8
    ensures CompareEncoded(BYTEWISE, a, b) == 0 <==> a == b
  {
    CompareAntisymmetric(UserKey(a), UserKey(b));
    FixedRoundTripBytes(a[|a| - 8..]);
    FixedRoundTripBytes(b[|b| - 8..]);
    assert a == UserKey(a) + a[|a| - 8..] && b == UserKey(b) + b[|b| - 8..];
  }

  // ---------------------------------------------------------------- bounds for one user key

  /** InternalKey: the encoded key.  The Set...PossibleForUserKey methods append to it. */
  class InternalKey {
    var rep: Bytes

    constructor ()
      ensures rep == []
    {
      rep := [];
    }

    method SetMaxPossibleForUserKey(userKey: Bytes)
      modifies this
      ensures rep == MaxPossible(old(rep), userKey)
    {
      var k := ParsedKey(userKey, 0, 0);
      rep := rep + Encode(k);
      assert rep == MaxPossible(old(rep), userKey);
    }

    method SetMinPossibleForUserKey(userKey: Bytes)
      modifies this
      ensures rep == MinPossible(old(rep), userKey)
    {
      var k := ParsedKey(userKey, MAX_SEQUENCE, TYPE_FOR_SEEK);
      rep := rep + Encode(k);
      assert rep == MinPossible(old(rep), userKey);
    }
  }

  /** What is already in the key becomes part of the user key. */
  function MaxPossible(rep: Bytes, userKey: Bytes): Bytes {
    Encode(ParsedKey(rep + userKey, 0, 0))
  }

  function MinPossible(rep: Bytes, userKey: Bytes): Bytes {
    Encode(ParsedKey(rep + userKey, MAX_SEQUENCE, TYPE_FOR_SEEK))
  }

  ghost predicate BoundsAbove(c: Comparator, bound: Bytes, userKey: Bytes)
    requires |bound| >= 8
  {
    forall k: ParsedKey :: k.Valid() && k.userKey == userKey ==> CompareEncoded(c, Encode(k), bound) <= 0
  }

  ghost predicate BoundsBelow(c: Comparator, bound: Bytes, userKey: Bytes)
    requires |bound| >= 8
  {
    forall k: ParsedKey :: k.Valid() && k.userKey == userKey ==> CompareEncoded(c, bound, Encode(k)) <= 0
  }

  /** The maximal key is at or above every valid key of the user key exactly when what the object
      held before does not push it below; an empty object always qualifies. */
  lemma MaxPossibleBounds(c: Comparator, rep: Bytes, userKey: Bytes)
    requires c.Ordered()
    ensures BoundsAbove(c, MaxPossible(rep, userKey), userKey) <==> c.compare(userKey, rep + userKey) <= 0
    ensures rep == [] ==> BoundsAbove(c, MaxPossible(rep, userKey), userKey)
  {
    var bound := MaxPossible(rep, userKey);
    FooterOfEncoded(ParsedKey(rep + userKey, 0, 0));
    if c.compare(userKey, rep + userKey) <= 0 {
      forall k: ParsedKey | k.Valid() && k.userKey == userKey
        ensures CompareEncoded(c, Encode(k), bound) <= 0
      {
        FooterOfEncoded(k);
      }
    } else {
      var k := ParsedKey(userKey, 0, 0);
      FooterOfEncoded(k);
      assert CompareEncoded(c, Encode(k), bound) > 0;
    }
    if rep == [] {
      assert rep + userKey == userKey;
      UserOrder(c, userKey, userKey, userKey);
    }
  }

  lemma MinPossibleBounds(c: Comparator, rep: Bytes, userKey: Bytes)
    requires c.Ordered()
    ensures BoundsBelow(c, MinPossible(rep, userKey), userKey) <==> c.compare(rep + userKey, userKey) <= 0
    ensures rep == [] ==> BoundsBelow(c, MinPossible(rep, userKey), userKey)
  {
    var bound := MinPossible(rep, userKey);
    FooterOfEncoded(ParsedKey(rep + userKey, MAX_SEQUENCE, TYPE_FOR_SEEK));
    if c.compare(rep + userKey, userKey) <= 0 {
      forall k: ParsedKey | k.Valid() && k.userKey == userKey
        ensures CompareEncoded(c, bound, Encode(k)) <= 0
      {
        FooterOfEncoded(k);
      }
    } else {
      var k := ParsedKey(userKey, MAX_SEQUENCE, TYPE_FOR_SEEK);
      FooterOfEncoded(k);
      assert CompareEncoded(c, bound, Encode(k)) > 0;
    }
    if rep == [] {
      assert rep + userKey == userKey;
      UserOrder(c, userKey, userKey, userKey);
    }
  }

  /** A bytewise-compared object that already holds a key cannot yield both bounds. */
  lemma ReusedKeyLosesABound(rep: Bytes, userKey: Bytes)
    requires rep != []
    ensures !(BoundsAbove(BYTEWISE, MaxPossible(rep, userKey), userKey)
              && BoundsBelow(BYTEWISE, MinPossible(rep, userKey), userKey))
  {
    BytewiseContract();
    MaxPossibleBounds(BYTEWISE, rep, userKey);
    MinPossibleBounds(BYTEWISE, rep, userKey);
    CompareAntisymmetric(userKey, rep + userKey);
    assert |rep + userKey| != |userKey|;
  }

  /** RangeTombstone::SerializeEndKey. */
  function SerializeEndKey(endKey: Bytes): Bytes {
    Encode(ParsedKey(endKey, MAX_SEQUENCE, TYPE_RANGE_DELETION))
  }

  /** A tombstone's end key is above everything before the end user key, below everything after
      it, and below a valid key of that user key exactly when the key's sequence is not the
      maximum or its type is smaller.  The source promises "any other" key of the user key. */
  lemma EndKeyExclusive(c: Comparator, endKey: Bytes, k: ParsedKey)
    requires c.Ordered() && k.Valid()
    ensures c.compare(k.userKey, endKey) < 0 ==> CompareEncoded(c, Encode(k), SerializeEndKey(endKey)) < 0
    ensures c.compare(endKey, k.userKey) < 0 ==> CompareEncoded(c, SerializeEndKey(endKey), Encode(k)) < 0
    ensures c.compare(endKey, k.userKey) == 0 ==>
              (CompareEncoded(c, SerializeEndKey(endKey), Encode(k)) < 0 <==>
               k.sequence < MAX_SEQUENCE || k.kind < TYPE_RANGE_DELETION)
  {
    FooterOfEncoded(k);
    FooterOfEncoded(ParsedKey(endKey, MAX_SEQUENCE, TYPE_RANGE_DELETION));
  }

  /** The seek key of the same user key is another key, and sorts before the end key. */
  lemma EndKeyNotFirst(c: Comparator, endKey: Bytes)
    requires c.Ordered()
    ensures CompareEncoded(c, MinPossible([], endKey), SerializeEndKey(endKey)) < 0
  {
    var seek := ParsedKey(endKey, MAX_SEQUENCE, TYPE_FOR_SEEK);
    assert [] + endKey == endKey;
    FooterOfEncoded(seek);
    FooterOfEncoded(ParsedKey(endKey, MAX_SEQUENCE, TYPE_RANGE_DELETION));
    UserOrder(c, endKey, endKey, endKey);
  }

  /** What the three bounds parse to. */
  lemma BoundsParse(rep: Bytes, userKey: Bytes)
    ensures ParseInternalKey(MaxPossible(rep, userKey)) == Some(ParsedKey(rep + userKey, 0, 0x0))
    ensures ParseInternalKey(MinPossible(rep, userKey)) == Some(ParsedKey(rep + userKey, 0xff_ffff_ffff_ffff, 0x14))
    ensures ParseInternalKey(SerializeEndKey(userKey)) == Some(ParsedKey(userKey, 0xff_ffff_ffff_ffff, 0xF))
  {
    ParseEncoded(ParsedKey(rep + userKey, 0, 0));
    ParseEncoded(ParsedKey(rep + userKey, MAX_SEQUENCE, TYPE_FOR_SEEK));
    ParseEncoded(ParsedKey(userKey, MAX_SEQUENCE, TYPE_RANGE_DELETION));
  }

  // ---------------------------------------------------------------- separators and successors

  const SEEK_FOOTER: Bytes := LittleEndian(Pack(MAX_SEQUENCE, TYPE_FOR_SEEK), 8)

  /** The shortened user key is taken only when it is no longer and strictly greater. */
  predicate Taken(c: Comparator, key: Bytes, tmp: Bytes)
    requires |key| >= 8
  {
    |tmp| <= |UserKey(key)| && c.compare(UserKey(key), tmp) < 0
  }

  function Shortened(c: Comparator, key: Bytes, tmp: Bytes): Bytes
    requires |key| >= 8
  {
    if Taken(c, key, tmp) then tmp + SEEK_FOOTER else key
  }

  function Separator(c: Comparator, start: Bytes, limit: Bytes): Bytes
    requires |start| >= 8 && |limit| >= 8
  {
    Shortened(c, start, c.findShortestSeparator(UserKey(start), UserKey(limit)))
  }

  function Successor(c: Comparator, key: Bytes): Bytes
    requires |key| >= 8
  {
    Shortened(c, key, c.findShortSuccessor(UserKey(key)))
  }

  lemma ShortenedIsAbove(c: Comparator, key: Bytes, tmp: Bytes)
    requires c.Ordered() && |key| >= 8
    ensures 8 <= |Shortened(c, key, tmp)| <= |key|
    ensures CompareEncoded(c, key, Shortened(c, key, tmp)) <= 0
    ensures Shortened(c, key, tmp) != key ==> CompareEncoded(c, key, Shortened(c, key, tmp)) < 0
  {
    InternalOrder(c, key, key, key);
    assert UserKey(tmp + SEEK_FOOTER) == tmp;
  }

  /** For any two keys the separator is an internal key, no longer than start, at or above everything
      at or below start. */
  lemma SeparatorIsAbove(c: Comparator, start: Bytes, limit: Bytes)
    requires c.Ordered() && |start| >= 8 && |limit| >= 8
    ensures 8 <= |Separator(c, start, limit)| <= |start|
    ensures forall k: Bytes :: |k| >= 8 && CompareEncoded(c, k, start) <= 0 ==>
              CompareEncoded(c, k, Separator(c, start, limit)) <= 0
  {
    var s := Separator(c, start, limit);
    ShortenedIsAbove(c, start, c.findShortestSeparator(UserKey(start), UserKey(limit)));
    forall k: Bytes | |k| >= 8 && CompareEncoded(c, k, start) <= 0 ensures CompareEncoded(c, k, s) <= 0 {
      InternalOrder(c, k, start, s);
    }
  }

  /** The user keys are in order, or the comparator's answer is not taken. */
  predicate SafeToShorten(c: Comparator, start: Bytes, limit: Bytes)
    requires |start| >= 8 && |limit| >= 8
  {
    || c.compare(UserKey(start), UserKey(limit)) < 0
    || !Taken(c, start, c.findShortestSeparator(UserKey(start), UserKey(limit)))
  }

  /** For start < limit the separator lies below limit, which is the source's second inner assertion,
      exactly when shortening was safe: the comparator promises nothing about equal user keys. */
  lemma SeparatorIsBelow(c: Comparator, start: Bytes, limit: Bytes)
    requires c.Contract() && |start| >= 8 && |limit| >= 8 && CompareEncoded(c, start, limit) < 0
    ensures |Separator(c, start, limit)| >= 8
    ensures CompareEncoded(c, Separator(c, start, limit), limit) < 0 <==> SafeToShorten(c, start, limit)
  {
    var us, ul := UserKey(start), UserKey(limit);
    var tmp := c.findShortestSeparator(us, ul);
    assert UserKey(tmp + SEEK_FOOTER) == tmp;
    UserOrder(c, ul, us, tmp);
    UserOrder(c, us, ul, tmp);
    UserOrder(c, tmp, ul, tmp);
  }

  /** Then, and only then, it splits everything at or below start from everything at or above limit. */
  lemma SeparatorSeparates(c: Comparator, start: Bytes, limit: Bytes)
    requires c.Contract() && |start| >= 8 && |limit| >= 8 && CompareEncoded(c, start, limit) < 0
    ensures |Separator(c, start, limit)| >= 8
    ensures (forall k: Bytes :: |k| >= 8 && CompareEncoded(c, limit, k) <= 0 ==>
              CompareEncoded(c, Separator(c, start, limit), k) < 0) <==> SafeToShorten(c, start, limit)
  {
    var s := Separator(c, start, limit);
    SeparatorIsBelow(c, start, limit);
    InternalOrder(c, limit, limit, limit);
    if SafeToShorten(c, start, limit) {
      forall k: Bytes | |k| >= 8 && CompareEncoded(c, limit, k) <= 0 ensures CompareEncoded(c, s, k) < 0 {
        InternalOrder(c, s, limit, k);
      }
    } else {
      assert CompareEncoded(c, limit, limit) <= 0 && !(CompareEncoded(c, s, limit) < 0);
    }
  }

  /** A bytewise comparator that raises a one-byte key unless it is below the limit. */
  const RAISING := Comparator(
    (a, b) => Compare(a, b), (s, limit) => if |s| == 1 && Compare(s, limit) >= 0 then [255] else s, k => k)

  lemma RaisingContract()
    ensures RAISING.Contract()
  {
    BytewiseContract();
    assert forall a, b :: RAISING.compare(a, b) == BYTEWISE.compare(a, b);
    forall s, limit | RAISING.compare(s, limit) < 0 ensures RAISING.findShortestSeparator(s, limit) == s {}
    forall s ensures Compare(s, s) == 0 { CompareAntisymmetric(s, s); }
  }

  /** It keeps the contract, and its separator of two versions of one user key lies above both. */
  lemma SeparatorOvershoots()
    ensures RAISING.Contract()
    ensures var start, limit := Encode(ParsedKey([0], 2, 1)), Encode(ParsedKey([0], 1, 1));
            && CompareEncoded(RAISING, start, limit) < 0
            && |Separator(RAISING, start, limit)| >= 8
            && CompareEncoded(RAISING, limit, Separator(RAISING, start, limit)) < 0
  {
    RaisingContract();
    var a, b := ParsedKey([0], 2, 1), ParsedKey([0], 1, 1);
    FooterOfEncoded(a);
    FooterOfEncoded(b);
    CompareAntisymmetric([0], [0]);
    ZeroBelowMax();
    assert Separator(RAISING, Encode(a), Encode(b)) == [255] + SEEK_FOOTER;
    assert UserKey([255] + SEEK_FOOTER) == [255];
  }

  lemma ZeroBelowMax()
    ensures Compare([0], [255]) < 0
  {
    assert Memcmp([0], [255], 1) == -1;
  }

  /** InternalKeyComparator::FindShortestSeparator on any two keys.  The source's first inner
      assertion always holds, its second one whenever the user keys are in order. */
  method FindShortestSeparator(c: Comparator, start: ByteString, limit: Bytes)
    requires c.Contract() && |start.bytes| >= 8 && |limit| >= 8
    modifies start
    ensures start.bytes == Separator(c, old(start.bytes), limit)
  {
    var userStart, userLimit := UserKey(start.bytes), UserKey(limit);
    var tmp := c.findShortestSeparator(userStart, userLimit);
    if |tmp| <= |userStart| && c.compare(userStart, tmp) < 0 {
      tmp := tmp + SEEK_FOOTER;
      assert UserKey(tmp) == c.findShortestSeparator(userStart, userLimit);
      assert CompareEncoded(c, start.bytes, tmp) < 0;
      assert c.compare(userStart, userLimit) < 0 ==> CompareEncoded(c, tmp, limit) < 0;
      start.bytes := tmp;
    }
  }

  /** The successor is an internal key at or above its input and no longer. */
  lemma SuccessorIsAbove(c: Comparator, key: Bytes)
    requires c.Contract() && |key| >= 8
    ensures 8 <= |Successor(c, key)| <= |key|
    ensures forall k: Bytes :: |k| >= 8 && CompareEncoded(c, k, key) <= 0 ==>
              CompareEncoded(c, k, Successor(c, key)) <= 0
  {
    ShortenedIsAbove(c, key, c.findShortSuccessor(UserKey(key)));
    forall k: Bytes | |k| >= 8 && CompareEncoded(c, k, key) <= 0
      ensures CompareEncoded(c, k, Successor(c, key)) <= 0
    {
      InternalOrder(c, k, key, Successor(c, key));
    }
  }

  method FindShortSuccessor(c: Comparator, key: ByteString)
    requires c.Contract() && |key.bytes| >= 8
    modifies key
    ensures key.bytes == Successor(c, old(key.bytes))
  {
    var userKey := UserKey(key.bytes);
    var tmp := c.findShortSuccessor(userKey);
    if |tmp| <= |userKey| && c.compare(userKey, tmp) < 0 {
      tmp := tmp + SEEK_FOOTER;
      assert UserKey(tmp) == c.findShortSuccessor(userKey);
      assert CompareEncoded(c, key.bytes, tmp) < 0;
      key.bytes := tmp;
    }
  }

  /** When the comparator's answer is no longer than the user key and above it, the result is the
      earliest key of that answer; otherwise it is the input. */
  lemma ShortenedIsEarliest(c: Comparator, key: Bytes, tmp: Bytes)
    requires c.Ordered() && |key| >= 8
    ensures var result := Shortened(c, key, tmp);
            if |tmp| <= |key| - 8 && c.compare(key[..|key| - 8], tmp) < 0 then
              && result == tmp + [0x14, 0xff, 0xff, 0xff, 0xff, 0xff, 0xff, 0xff]
              && ParseInternalKey(result) == Some(ParsedKey(tmp, 0xff_ffff_ffff_ffff, 0x14))
              && BoundsBelow(c, result, tmp)
            else result == key
  {
    if Taken(c, key, tmp) {
      SeekFooterBytes();
      var k := ParsedKey(tmp, MAX_SEQUENCE, TYPE_FOR_SEEK);
      ParseEncoded(k);
      MinPossibleBounds(c, [], tmp);
      assert [] + tmp == tmp && Encode(k) == tmp + SEEK_FOOTER;
    }
  }

  lemma SeekFooterBytes()
    ensures SEEK_FOOTER == [0x14, 0xff, 0xff, 0xff, 0xff, 0xff, 0xff, 0xff]
  {
    PackValue(MAX_SEQUENCE, TYPE_FOR_SEEK);
    var t: Bytes := [0x14, 0xff, 0xff, 0xff, 0xff, 0xff, 0xff, 0xff];
    FixedRoundTripBytes(t);
    AllOnes(t);
  }

  lemma AllOnes(t: Bytes)
    requires t == [0x14, 0xff, 0xff, 0xff, 0xff, 0xff, 0xff, 0xff]
    ensures FromLittleEndian(t) == 0xffff_ffff_ffff_ff14
  {
    assert t[7..] == [0xff] && t[7..][1..] == [];
    assert FromLittleEndian(t[7..]) == 0xff;
    assert t[6..][1..] == t[7..] && FromLittleEndian(t[6..]) == 0xffff;
    assert t[5..][1..] == t[6..] && FromLittleEndian(t[5..]) == 0xff_ffff;
    assert t[4..][1..] == t[5..] && FromLittleEndian(t[4..]) == 0xffff_ffff;
    assert t[3..][1..] == t[4..] && FromLittleEndian(t[3..]) == 0xff_ffff_ffff;
    assert t[2..][1..] == t[3..] && FromLittleEndian(t[2..]) == 0xffff_ffff_ffff;
    assert t[1..][1..] == t[2..] && FromLittleEndian(t[1..]) == 0xff_ffff_ffff_ffff;
  }

  lemma SeparatorIsEarliest(c: Comparator, start: Bytes, limit: Bytes)
    requires c.Ordered() && |start| >= 8 && |limit| >= 8
    ensures var tmp := c.findShortestSeparator(start[..|start| - 8], limit[..|limit| - 8]);
            var result := Separator(c, start, limit);
            if |tmp| <= |start| - 8 && c.compare(start[..|start| - 8], tmp) < 0 then
              && result == tmp + [0x14, 0xff, 0xff, 0xff, 0xff, 0xff, 0xff, 0xff]
              && ParseInternalKey(result) == Some(ParsedKey(tmp, 0xff_ffff_ffff_ffff, 0x14))
              && BoundsBelow(c, result, tmp)
            else result == start
  {
    ShortenedIsEarliest(c, start, c.findShortestSeparator(UserKey(start), UserKey(limit)));
  }

  lemma SuccessorIsEarliest(c: Comparator, key: Bytes)
    requires c.Ordered() && |key| >= 8
    ensures var tmp, result := c.findShortSuccessor(key[..|key| - 8]), Successor(c, key);
            if |tmp| <= |key| - 8 && c.compare(key[..|key| - 8], tmp) < 0 then
              && result == tmp + [0x14, 0xff, 0xff, 0xff, 0xff, 0xff, 0xff, 0xff]
              && ParseInternalKey(result) == Some(ParsedKey(tmp, 0xff_ffff_ffff_ffff, 0x14))
              && BoundsBelow(c, result, tmp)
            else result == key
  {
    ShortenedIsEarliest(c, key, c.findShortSuccessor(UserKey(key)));
  }

  // ---------------------------------------------------------------- the merge heaps' comparison

  /** heap_merger::KeyComparor: parses both keys and compares field by field. */
  function ParsedComparor(key1: Bytes, key2: Bytes): int
    requires |key1| >= 8 && |key2| >= 8
  {
    CompareParsed(BYTEWISE, Fields(key1), Fields(key2))
  }

  /** slice_merge_heap::KeyComparor: the same on the leading 16 bytes of two entries. */
  function KeyComparor(p1: Bytes, p2: Bytes): int
    requires |p1| >= KEY_LENGTH && |p2| >= KEY_LENGTH
  {
    ParsedComparor(p1[..KEY_LENGTH], p2[..KEY_LENGTH])
  }

  /** As three-way comparisons both are the internal-key order under the bytewise comparator. */
  lemma ParsedComparorIsInternalOrder(key1: Bytes, key2: Bytes)
    requires |key1| >= 8 && |key2| >= 8
    ensures ParsedComparor(key1, key2) == CompareEncoded(BYTEWISE, key1, key2)
    ensures ParsedComparor(key1, key2) == 0 <==> key1 == key2
  {
    EncodedOrderIsParsedOrder(BYTEWISE, key1, key2);
    BytewiseTotal(key1, key2);
  }

  lemma KeyComparorIsInternalOrder(p1: Bytes, p2: Bytes)
    requires |p1| >= KEY_LENGTH && |p2| >= KEY_LENGTH
    ensures KeyComparor(p1, p2) == CompareEncoded(BYTEWISE, p1[..KEY_LENGTH], p2[..KEY_LENGTH])
    ensures KeyComparor(p1, p2) == 0 <==> p1[..KEY_LENGTH] == p2[..KEY_LENGTH]
  {
    ParsedComparorIsInternalOrder(p1[..KEY_LENGTH], p2[..KEY_LENGTH]);
  }

  /** std::priority_queue takes the comparison's result as "less than": any nonzero value. */
  predicate HeapLess(p1: Bytes, p2: Bytes)
    requires |p1| >= KEY_LENGTH && |p2| >= KEY_LENGTH
  {
    KeyComparor(p1, p2) != 0
  }

  /** Two entries, each of which a heap takes to be less than the other. */
  lemma HeapLessBothWays(value: Bytes)
    ensures var p, q := Repeat(1, KEY_LENGTH) + value, Repeat(2, KEY_LENGTH) + value; HeapLess(p, q) && HeapLess(q, p)
  {
    var p, q := Repeat(1, KEY_LENGTH) + value, Repeat(2, KEY_LENGTH) + value;
    assert p[..KEY_LENGTH][0] == 1 && q[..KEY_LENGTH][0] == 2;
    KeyComparorIsInternalOrder(p, q);
    KeyComparorIsInternalOrder(q, p);
  }

  /** That relation is asymmetric, as a heap needs, exactly on collections with a single key. */
  lemma HeapLessAsymmetric(entries: set<Bytes>)
    requires forall e :: e in entries ==> |e| >= KEY_LENGTH
    ensures (forall p, q :: p in entries && q in entries && HeapLess(p, q) ==> !HeapLess(q, p)) <==>
            (forall p, q :: p in entries && q in entries ==> p[..KEY_LENGTH] == q[..KEY_LENGTH])
  {
    forall p, q | p in entries && q in entries
      ensures HeapLess(p, q) <==> p[..KEY_LENGTH] != q[..KEY_LENGTH]
    {
      KeyComparorIsInternalOrder(p, q);
    }
  }
}
