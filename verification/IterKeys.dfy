/** IterKey: a key kept in a 32-byte inline buffer, a heap buffer or external memory, and its
    refinement of a plain byte string over every run. */
module IterKeys {
  import opened Bytes
  import opened InternalKeys

  const INLINE_SIZE: nat := 32

  /** The key, whether it lives in external memory, and which kind of key it is. */
  datatype Abs = Abs(key: Bytes, pinned: bool, isUserKey: bool)

  /** memcpy(dst + at, src, |src|). */
  method CopyInto(dst: array<byte>, at: nat, src: Bytes)
    requires at + |src| <= dst.Length
    modifies dst
    ensures dst[..at + |src|] == old(dst[..at]) + src
  {
    forall i | 0 <= i < |src| {
      dst[at + i] := src[i];
    }
  }

  method CopyParts(dst: array<byte>, a: Bytes, b: Bytes, c: Bytes, d: Bytes)
    requires |a| + |b| + |c| + |d| <= dst.Length
    modifies dst
    ensures dst[..|a| + |b| + |c| + |d|] == a + b + c + d
  {
    if |a| > 0 {
      CopyInto(dst, 0, a);
    }
    CopyInto(dst, |a|, b);
    CopyInto(dst, |a| + |b|, c);
    CopyInto(dst, |a| + |b| + |c|, d);
  }

  class IterKey {
    /** The inline buffer, the buffer in use, and the pointer to the key. */
    const space: array<byte>
    var buf: array<byte>
    var key: array<byte>
    var keyOff: nat
    var keySize: nat
    var bufSize: nat
    var isUserKey: bool

    ghost predicate Valid()
      reads this
    {
      && BufferValid()
      && (if IsKeyPinned() then key != buf && key != space && keyOff + keySize <= key.Length
          else keySize <= bufSize)
    }

    ghost predicate BufferValid()
      reads this
    {
      && space.Length == INLINE_SIZE && buf.Length == bufSize
      && (if buf == space then bufSize == INLINE_SIZE else bufSize > INLINE_SIZE)
    }

    /** `key_ != buf_`. */
    predicate IsKeyPinned()
      reads this
    {
      !(key == buf && keyOff == 0)
    }

    ghost function Value(): Abs
      requires Valid()
      reads this, key
    {
      Abs(key[keyOff..keyOff + keySize], IsKeyPinned(), isUserKey)
    }

    constructor ()
      ensures Valid() && fresh(space) && buf == space
      ensures Value() == Abs([], false, true)
    {
      var s := new byte[INLINE_SIZE];
      space, buf, key := s, s, s;
      keyOff, keySize, bufSize, isUserKey := 0, 0, INLINE_SIZE, true;
    }

    /** GetKey. */
    method GetKey() returns (k: Bytes)
      requires Valid()
      ensures k == Value().key
    {
      k := key[keyOff..keyOff + keySize];
    }

    /** GetUserKey: an internal key without its footer. */
    method GetUserKey() returns (k: Bytes)
      requires Valid() && (isUserKey || keySize >= 8)
      ensures k == if isUserKey then Value().key else UserKey(Value().key)
    {
      k := if isUserKey then key[keyOff..keyOff + keySize] else key[keyOff..keyOff + keySize - 8];
      assert !isUserKey ==> k == Value().key[..keySize - 8];
    }

    method SetIsUserKey(b: bool)
      requires Valid()
      modifies this`isUserKey
      ensures Valid() && Value() == old(Value()).(isUserKey := b)
    {
      isUserKey := b;
    }

    method Clear()
      requires Valid()
      modifies this`keySize
      ensures Valid() && Value() == old(Value()).(key := [])
    {
      keySize := 0;
    }

    method ResetBuffer()
      requires BufferValid()
      modifies this`buf, this`bufSize, this`keySize
      ensures BufferValid() && buf == space && keySize == 0
    {
      if buf != space {
        buf := space;
      }
      bufSize := INLINE_SIZE;
      keySize := 0;
    }

    /** Replaces the buffer by a larger one; what it held is gone. */
    method EnlargeBufferIfNeeded(size: nat)
      requires BufferValid()
      modifies this`buf, this`bufSize, this`keySize
      ensures BufferValid() && bufSize == (if size > old(bufSize) then size else old(bufSize))
      ensures buf == old(buf) || fresh(buf)
      ensures size <= old(bufSize) ==> buf == old(buf) && keySize == old(keySize)
    {
      if size > bufSize {
        ResetBuffer();
        buf := new byte[size];
        bufSize := size;
      }
    }

    /** SetKeyImpl: copies the key into the buffer, or points at it. */
    method SetKeyImpl(mem: array<byte>, off: nat, len: nat, copy: bool)
      requires Valid() && mem != buf && mem != space && off + len <= mem.Length
      modifies this`buf, this`bufSize, this`keySize, this`key, this`keyOff, buf
      ensures Valid() && bufSize >= old(bufSize) && (buf == old(buf) || fresh(buf))
      ensures Value() == Abs(mem[off..off + len], !copy, isUserKey)
      ensures key == mem || key == buf
    {
      if copy {
        EnlargeBufferIfNeeded(len);
        CopyInto(buf, 0, mem[off..off + len]);
        key, keyOff := buf, 0;
      } else {
        key, keyOff := mem, off;
      }
      keySize := len;
    }

    /** SetKey: the kind of key is the one set before. */
    method SetKey(mem: array<byte>, off: nat, len: nat, copy: bool)
      requires Valid() && mem != buf && mem != space && off + len <= mem.Length
      modifies this`buf, this`bufSize, this`keySize, this`key, this`keyOff, buf
      ensures Valid() && bufSize >= old(bufSize) && (buf == old(buf) || fresh(buf))
      ensures Value() == Abs(mem[off..off + len], !copy, old(isUserKey))
    {
      SetKeyImpl(mem, off, len, copy);
    }

    method SetUserKey(mem: array<byte>, off: nat, len: nat, copy: bool)
      requires Valid() && mem != buf && mem != space && off + len <= mem.Length
      modifies this`buf, this`bufSize, this`keySize, this`key, this`keyOff, this`isUserKey, buf
      ensures Valid() && bufSize >= old(bufSize) && (buf == old(buf) || fresh(buf))
      ensures Value() == Abs(mem[off..off + len], !copy, true)
    {
      isUserKey := true;
      SetKeyImpl(mem, off, len, copy);
    }

    method SetInternalKey(mem: array<byte>, off: nat, len: nat, copy: bool)
      requires Valid() && mem != buf && mem != space && off + len <= mem.Length
      modifies this`buf, this`bufSize, this`keySize, this`key, this`keyOff, this`isUserKey, buf
      ensures Valid() && bufSize >= old(bufSize) && (buf == old(buf) || fresh(buf))
      ensures Value() == Abs(mem[off..off + len], !copy, false)
    {
      isUserKey := false;
      SetKeyImpl(mem, off, len, copy);
    }

    /** Keeps the first `shared` bytes of the key and appends. */
    method TrimAppend(shared: nat, mem: array<byte>, off: nat, len: nat)
      requires Valid() && shared <= keySize
      requires mem != buf && mem != space && off + len <= mem.Length
      modifies this`buf, this`bufSize, this`keySize, this`key, this`keyOff, buf
      ensures Valid() && bufSize >= old(bufSize) && (buf == old(buf) || fresh(buf)) && key == buf
      ensures Value() == Abs(old(Value()).key[..shared] + mem[off..off + len], false, isUserKey)
    {
      KeepShared(shared, shared + len);
      CopyInto(buf, shared, mem[off..off + len]);
      key, keyOff := buf, 0;
      keySize := shared + len;
    }

    /** The first half of TrimAppend: makes room and puts the shared bytes in the buffer. */
    method KeepShared(shared: nat, total: nat)
      requires Valid() && shared <= keySize && shared <= total
      modifies this`buf, this`bufSize, this`keySize, buf
      ensures BufferValid() && bufSize >= old(bufSize) && bufSize >= total && (buf == old(buf) || fresh(buf))
      ensures buf[..shared] == old(Value()).key[..shared]
    {
      assert Value().key[..shared] == key[keyOff..keyOff + shared];
      if IsKeyPinned() {
        EnlargeBufferIfNeeded(total);
        CopyInto(buf, 0, key[keyOff..keyOff + shared]);
      } else if total > bufSize {
        var p := new byte[total];
        CopyInto(p, 0, key[..shared]);
        buf := p;
        bufSize := total;
      }
    }

    /** Copies a pinned key into the buffer. */
    method OwnKey()
      requires Valid() && IsKeyPinned()
      modifies this`buf, this`bufSize, this`keySize, this`key, this`keyOff, buf
      ensures Valid() && bufSize >= old(bufSize) && (buf == old(buf) || fresh(buf)) && key == buf
      ensures Value() == old(Value()).(pinned := false)
    {
      var size := keySize;
      ghost var owned := Value().key;
      EnlargeBufferIfNeeded(size);
      keySize := size;
      assert key[keyOff..keyOff + keySize] == owned;
      CopyInto(buf, 0, key[keyOff..keyOff + keySize]);
      key, keyOff := buf, 0;
    }

    /** Overwrites the footer of an owned internal key in place. */
    method UpdateInternalKey(seqno: nat, t: byte)
      requires Valid() && !IsKeyPinned() && keySize >= 8
      modifies buf
      ensures Valid() && Value() == old(Value()).(key := UserKey(old(Value()).key) + LittleEndian(Pack(seqno, t), 8))
    {
      CopyInto(buf, keySize - 8, LittleEndian(Pack(seqno, t), 8));
      assert old(Value()).key == old(buf[..keySize]);
    }

    /** SetInternalKey from a prefix, a user key, an optional timestamp (empty if absent) and the
        footer's fields. */
    method SetInternalKeyParts(prefix: Bytes, userKey: Bytes, ts: Bytes, seqno: nat, t: byte)
      requires Valid() && ParsedKey(userKey, seqno, t).Valid()
      modifies this`buf, this`bufSize, this`keySize, this`key, this`keyOff, this`isUserKey, buf
      ensures Valid() && bufSize >= old(bufSize) && (buf == old(buf) || fresh(buf)) && key == buf
      ensures Value() == Abs(Encode(ParsedKey(prefix + userKey + ts, seqno, t)), false, false)
    {
      var total := |prefix| + |userKey| + 8 + |ts|;
      EnlargeBufferIfNeeded(total);
      var footer := LittleEndian(Pack(seqno, t), 8);
      CopyParts(buf, prefix, userKey, ts, footer);
      assert prefix + userKey + ts + footer == Encode(ParsedKey(prefix + userKey + ts, seqno, t));
      key, keyOff := buf, 0;
      keySize := total;
      isUserKey := false;
    }
  }

  // ---------------------------------------------------------------- runs

  datatype Op =
    | SetKey(bytes: Bytes, copy: bool)
    | SetUserKey(bytes: Bytes, copy: bool)
    | SetInternalKey(bytes: Bytes, copy: bool)
    | SetInternalKeyParts(prefix: Bytes, userKey: Bytes, ts: Bytes, seqno: nat, kind: byte)
    | SetIsUserKey(b: bool)
    | TrimAppend(shared: nat, bytes: Bytes)
    | OwnKey
    | UpdateInternalKey(seqno: nat, kind: byte)
    | Clear

  /** The assertions of the source. */
  predicate Legal(a: Abs, op: Op) {
    match op
    case TrimAppend(shared, _) => shared <= |a.key|
    case OwnKey => a.pinned
    case UpdateInternalKey(_, _) => !a.pinned && |a.key| >= 8
    case SetInternalKeyParts(_, userKey, _, seqno, kind) => ParsedKey(userKey, seqno, kind).Valid()
    case _ => true
  }

  /** What each operation does to a plain byte string. */
  function Step(a: Abs, op: Op): Abs
    requires Legal(a, op)
  {
    match op
    case SetKey(bytes, copy) => Abs(bytes, !copy, a.isUserKey)
    case SetUserKey(bytes, copy) => Abs(bytes, !copy, true)
    case SetInternalKey(bytes, copy) => Abs(bytes, !copy, false)
    case SetInternalKeyParts(prefix, userKey, ts, seqno, kind) =>
      Abs(Encode(ParsedKey(prefix + userKey + ts, seqno, kind)), false, false)
    case SetIsUserKey(b) => a.(isUserKey := b)
    case TrimAppend(shared, bytes) => Abs(a.key[..shared] + bytes, false, a.isUserKey)
    case OwnKey => a.(pinned := false)
    case UpdateInternalKey(seqno, kind) =>
      a.(key := UserKey(a.key) + LittleEndian(Pack(seqno, kind), 8))
    case Clear => a.(key := [])
  }

  predicate AllLegal(a: Abs, ops: seq<Op>)
    decreases |ops|
  {
    ops == [] || (Legal(a, ops[0]) && AllLegal(Step(a, ops[0]), ops[1..]))
  }

  function Run(a: Abs, ops: seq<Op>): Abs
    requires AllLegal(a, ops)
    decreases |ops|
  {
    if ops == [] then a else Run(Step(a, ops[0]), ops[1..])
  }

  /** One operation; the bytes it is given lie in memory of their own. */
  method Apply(k: IterKey, op: Op)
    requires k.Valid() && Legal(k.Value(), op)
    modifies k, k.buf
    ensures k.Valid() && k.Value() == Step(old(k.Value()), op)
    ensures k.bufSize >= old(k.bufSize) && (k.buf == old(k.buf) || fresh(k.buf))
  {
    match op {
      case SetKey(_, _) => ApplySet(k, op);
      case SetUserKey(_, _) => ApplySet(k, op);
      case SetInternalKey(_, _) => ApplySet(k, op);
      case SetInternalKeyParts(prefix, userKey, ts, seqno, kind) =>
        k.SetInternalKeyParts(prefix, userKey, ts, seqno, kind);
      case SetIsUserKey(b) => k.SetIsUserKey(b);
      case TrimAppend(shared, bytes) =>
        TrimFrom(k, shared, bytes);
      case OwnKey => k.OwnKey();
      case UpdateInternalKey(seqno, kind) => k.UpdateInternalKey(seqno, kind);
      case Clear => k.Clear();
    }
  }

  method TrimFrom(k: IterKey, shared: nat, bytes: Bytes)
    requires k.Valid() && shared <= |k.Value().key|
    modifies k, k.buf
    ensures k.Valid() && k.Value() == Abs(old(k.Value()).key[..shared] + bytes, false, k.isUserKey)
    ensures k.isUserKey == old(k.isUserKey)
    ensures k.bufSize >= old(k.bufSize) && (k.buf == old(k.buf) || fresh(k.buf))
  {
    var mem := External(bytes);
    k.TrimAppend(shared, mem, 0, |bytes|);
  }

  /** Memory of the caller that holds these bytes. */
  method External(bytes: Bytes) returns (mem: array<byte>)
    ensures fresh(mem) && mem.Length == |bytes| && mem[0..|bytes|] == bytes
  {
    mem := new byte[|bytes|](i requires 0 <= i < |bytes| => bytes[i]);
  }

  method ApplySet(k: IterKey, op: Op)
    requires k.Valid() && (op.SetKey? || op.SetUserKey? || op.SetInternalKey?)
    modifies k, k.buf
    ensures k.Valid() && k.Value() == Step(old(k.Value()), op)
    ensures k.bufSize >= old(k.bufSize) && (k.buf == old(k.buf) || fresh(k.buf))
  {
    var mem := External(op.bytes);
    match op {
      case SetKey(bytes, copy) => k.SetKey(mem, 0, |bytes|, copy);
      case SetUserKey(bytes, copy) => k.SetUserKey(mem, 0, |bytes|, copy);
      case SetInternalKey(bytes, copy) => k.SetInternalKey(mem, 0, |bytes|, copy);
    }
  }

  /** Over any run the object's key is the plain byte string's, wherever it is stored, and the
      buffer never shrinks. */
  method RunAll(k: IterKey, ops: seq<Op>)
    requires k.Valid() && AllLegal(k.Value(), ops)
    modifies k, k.buf
    ensures k.Valid() && k.Value() == Run(old(k.Value()), ops)
    ensures k.bufSize >= old(k.bufSize) >= INLINE_SIZE && (k.buf == old(k.buf) || fresh(k.buf))
    decreases |ops|
  {
    if ops != [] {
      Apply(k, ops[0]);
      RunAll(k, ops[1..]);
    }
  }

  /** Runs that differ only in whether keys are copied or pinned. */
  predicate SameButStorage(ops: seq<Op>, ops': seq<Op>) {
    |ops| == |ops'| && forall i :: 0 <= i < |ops| ==> Copying(ops[i]) == Copying(ops'[i])
  }

  function Copying(op: Op): Op {
    if op.SetKey? || op.SetUserKey? || op.SetInternalKey? then op.(copy := true) else op
  }

  /** Where the key is stored never shows: such runs end in the same key. */
  lemma {:induction false} StorageInvisible(a: Abs, a': Abs, ops: seq<Op>, ops': seq<Op>)
    requires a'.key == a.key && a'.isUserKey == a.isUserKey
    requires SameButStorage(ops, ops') && AllLegal(a, ops) && AllLegal(a', ops')
    ensures Run(a, ops).key == Run(a', ops').key && Run(a, ops).isUserKey == Run(a', ops').isUserKey
    decreases |ops|
  {
    if ops != [] {
      assert Copying(ops[0]) == Copying(ops'[0]);
      var b, b' := Step(a, ops[0]), Step(a', ops'[0]);
      assert b'.key == b.key && b'.isUserKey == b.isUserKey;
      assert SameButStorage(ops[1..], ops'[1..]) by {
        forall i | 0 <= i < |ops[1..]| ensures Copying(ops[1..][i]) == Copying(ops'[1..][i]) {
          assert Copying(ops[i + 1]) == Copying(ops'[i + 1]);
        }
      }
      StorageInvisible(b, b', ops[1..], ops'[1..]);
    }
  }

  /** Updating the footer in place changes the sequence and type that are parsed, and nothing else. */
  lemma UpdateChangesFooterOnly(a: Abs, seqno: nat, kind: byte)
    requires Legal(a, UpdateInternalKey(seqno, kind)) && ParsedKey([], seqno, kind).Valid()
    ensures ParseInternalKey(Step(a, UpdateInternalKey(seqno, kind)).key)
         == Some(ParsedKey(UserKey(a.key), seqno, kind))
  {
    ParseEncoded(ParsedKey(UserKey(a.key), seqno, kind));
  }

  // ---------------------------------------------------------------- what GetUserKey returns after a run

  lemma {:induction false} RunSplit(a: Abs, xs: seq<Op>, ys: seq<Op>)
    requires AllLegal(a, xs + ys)
    ensures AllLegal(a, xs) && AllLegal(Run(a, xs), ys) && Run(a, xs + ys) == Run(Run(a, xs), ys)
    decreases |xs|
  {
    if xs == [] {
      assert xs + ys == ys;
    } else {
      assert (xs + ys)[1..] == xs[1..] + ys;
      RunSplit(Step(a, xs[0]), xs[1..], ys);
    }
  }

  /** The operations that say which kind of key it is. */
  predicate SetsKind(op: Op) {
    op.SetUserKey? || op.SetInternalKey? || op.SetInternalKeyParts? || op.SetIsUserKey?
  }

  lemma {:induction false} KindKept(a: Abs, ops: seq<Op>)
    requires AllLegal(a, ops) && forall i :: 0 <= i < |ops| ==> !SetsKind(ops[i])
    ensures Run(a, ops).isUserKey == a.isUserKey
    decreases |ops|
  {
    if ops != [] {
      KindKept(Step(a, ops[0]), ops[1..]);
    }
  }

  /** Taking ownership keeps the key, and updating the footer keeps what is before it. */
  lemma {:induction false} KeyKept(a: Abs, ops: seq<Op>)
    requires AllLegal(a, ops) && forall i :: 0 <= i < |ops| ==> ops[i].OwnKey? || ops[i].UpdateInternalKey?
    ensures (forall i :: 0 <= i < |ops| ==> ops[i].OwnKey?) ==> Run(a, ops).key == a.key
    ensures |Run(a, ops).key| == |a.key|
    ensures |a.key| >= 8 ==> Run(a, ops).key[..|a.key| - 8] == a.key[..|a.key| - 8]
    decreases |ops|
  {
    if ops != [] {
      var b := Step(a, ops[0]);
      assert |b.key| == |a.key| && (|a.key| >= 8 ==> b.key[..|a.key| - 8] == a.key[..|a.key| - 8]);
      KeyKept(b, ops[1..]);
    }
  }

  /** After a run whose last setter is SetUserKey(b), the user key is b. */
  method ReadUserKey(k: IterKey, before: seq<Op>, b: Bytes, copy: bool, later: seq<Op>) returns (r: Bytes)
    requires k.Valid() && AllLegal(k.Value(), before + ([SetUserKey(b, copy)] + later))
    requires forall i :: 0 <= i < |later| ==> later[i].OwnKey?
    modifies k, k.buf
    ensures r == b
  {
    ghost var a := k.Value();
    RunSplit(a, before, [SetUserKey(b, copy)] + later);
    assert ([SetUserKey(b, copy)] + later)[1..] == later;
    KeyKept(Step(Run(a, before), SetUserKey(b, copy)), later);
    KindKept(Step(Run(a, before), SetUserKey(b, copy)), later);
    RunAll(k, before + ([SetUserKey(b, copy)] + later));
    r := k.GetUserKey();
  }

  /** After one whose last setter is SetInternalKey(key), it is the user key of that key, even if the
      footer is updated later. */
  method ReadInternalKey(k: IterKey, before: seq<Op>, key: ParsedKey, copy: bool, later: seq<Op>) returns (r: Bytes)
    requires k.Valid() && AllLegal(k.Value(), before + ([SetInternalKey(Encode(key), copy)] + later))
    requires forall i :: 0 <= i < |later| ==> later[i].OwnKey? || later[i].UpdateInternalKey?
    modifies k, k.buf
    ensures r == key.userKey
  {
    ghost var a := k.Value();
    var last := SetInternalKey(Encode(key), copy);
    RunSplit(a, before, [last] + later);
    assert ([last] + later)[1..] == later;
    KeyKept(Step(Run(a, before), last), later);
    KindKept(Step(Run(a, before), last), later);
    assert Encode(key)[..|Encode(key)| - 8] == key.userKey;
    RunAll(k, before + ([last] + later));
    r := k.GetUserKey();
  }

  /** After one whose last setter takes the parts, it is the prefix, the user key and the timestamp. */
  method ReadPartsKey(k: IterKey, before: seq<Op>, prefix: Bytes, key: ParsedKey, ts: Bytes, later: seq<Op>)
    returns (r: Bytes)
    requires k.Valid()
    requires AllLegal(k.Value(),
                      before + ([SetInternalKeyParts(prefix, key.userKey, ts, key.sequence, key.kind)] + later))
    requires forall i :: 0 <= i < |later| ==> later[i].OwnKey? || later[i].UpdateInternalKey?
    modifies k, k.buf
    ensures r == prefix + key.userKey + ts
  {
    ghost var a := k.Value();
    var last := SetInternalKeyParts(prefix, key.userKey, ts, key.sequence, key.kind);
    var whole := ParsedKey(prefix + key.userKey + ts, key.sequence, key.kind);
    RunSplit(a, before, [last] + later);
    assert ([last] + later)[1..] == later;
    KeyKept(Step(Run(a, before), last), later);
    KindKept(Step(Run(a, before), last), later);
    assert Encode(whole)[..|Encode(whole)| - 8] == whole.userKey;
    RunAll(k, before + ([last] + later));
    r := k.GetUserKey();
  }

  /** As long as nothing sets the kind, whatever else is appended, trimmed or replaced, a user key is
      returned whole and an internal key without its last eight bytes. */
  method ReadSameKind(k: IterKey, ops: seq<Op>) returns (whole: Bytes, r: Bytes)
    requires k.Valid() && AllLegal(k.Value(), ops) && forall i :: 0 <= i < |ops| ==> !SetsKind(ops[i])
    requires !k.isUserKey ==> |Run(k.Value(), ops).key| >= 8
    modifies k, k.buf
    ensures whole == Run(old(k.Value()), ops).key
    ensures r == if old(k.isUserKey) then whole else whole[..|whole| - 8]
  {
    KindKept(k.Value(), ops);
    RunAll(k, ops);
    whole := k.GetKey();
    r := k.GetUserKey();
  }
}
