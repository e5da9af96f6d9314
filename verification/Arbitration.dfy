/** BaselineMerger::Arbitration: decides about the previous entry when the next one arrives, and
    replaces deleted entries by tombstones. */
module Arbitration {
  import opened Bits
  import opened Bytes
  import opened InternalKeys
  import opened Format

  datatype FilterLogic = RemoveRedundant | DeletePrefix | DeleteVersion
  datatype FilterArgs = FilterArgs(seqno: nat, prefix: Bytes)
  datatype Action = DeleteLast | AcceptEntry

  /** An entry: a 16-byte internal key and a 10-byte value. */
  predicate Entry(e: Bytes) { |e| == ENTRY_LENGTH }

  function K(e: Bytes): ParsedKey
    requires |e| >= KEY_LENGTH
  {
    Fields(e[..KEY_LENGTH])
  }

  /** EncodeDeletedKey: the same user key, sequence and value, with the deletion type. */
  function Tombstone(e: Bytes): Bytes
    requires |e| >= ENTRY_LENGTH
  {
    Encode(K(e).(kind := TYPE_DELETION)) + e[KEY_LENGTH..ENTRY_LENGTH]
  }

  /** The rule: is `last` deleted when `current` follows it? */
  predicate Drops(logic: FilterLogic, bound: FilterArgs, last: Bytes, current: Bytes)
    requires |last| >= KEY_LENGTH && |current| >= KEY_LENGTH
  {
    match logic
    case RemoveRedundant => K(last).userKey == K(current).userKey
    case DeletePrefix => StartsWith(K(last).userKey, bound.prefix)
    case DeleteVersion =>
      && StartsWith(K(last).userKey, bound.prefix)
      && K(last).userKey == K(current).userKey
      && K(last).sequence < bound.seqno
  }

  /** What `Slice(const char *)` makes of a pointer: the bytes before the first zero. */
  function CString(s: Bytes): Bytes {
    if s == [] || s[0] == 0 then [] else [s[0]] + CString(s[1..])
  }

  class BaselineMerger {
    const logic: FilterLogic
    const bound: FilterArgs
    var lastEntry: Bytes
    var abandoned: seq<Bytes>

    constructor (logic: FilterLogic, bound: FilterArgs)
      ensures this.logic == logic && this.bound == bound && lastEntry == [] && abandoned == []
    {
      this.logic, this.bound, lastEntry, abandoned := logic, bound, [], [];
    }

    /** Arbitration; `result` is None where the source leaves its result buffer alone. */
    method Arbitrate(current: Bytes) returns (action: Action, result: Option<Bytes>)
      requires current != [] && lastEntry != [] ==> |lastEntry| >= ENTRY_LENGTH && |current| >= KEY_LENGTH
      modifies this`abandoned
      ensures current == [] || lastEntry == [] ==>
                action == AcceptEntry && result == None && abandoned == old(abandoned)
      ensures current != [] && lastEntry != [] ==>
                if Drops(logic, bound, lastEntry, current)
                then action == DeleteLast && result == Some(Tombstone(lastEntry))
                     && abandoned == old(abandoned) + [lastEntry]
                else action == AcceptEntry && result == Some(lastEntry) && abandoned == old(abandoned)
    {
      if current == [] || lastEntry == [] { return AcceptEntry, None; }
      var last, cur := K(lastEntry), K(current);
      match logic {
        case RemoveRedundant =>
          if last.userKey == cur.userKey {
            abandoned := abandoned + [lastEntry];
            return DeleteLast, Some(Tombstone(lastEntry));
          } else {
            return AcceptEntry, Some(lastEntry);
          }
        case DeletePrefix =>
          if StartsWith(last.userKey, bound.prefix) {
            abandoned := abandoned + [lastEntry];
            return DeleteLast, Some(Tombstone(lastEntry));
          } else {
            return AcceptEntry, Some(lastEntry);
          }
        case DeleteVersion =>
          if StartsWith(last.userKey, bound.prefix) {
            if last.userKey == cur.userKey {
              if last.sequence < bound.seqno {
                abandoned := abandoned + [lastEntry];
                return DeleteLast, Some(Tombstone(lastEntry));
              }
            }
          }
          return AcceptEntry, Some(lastEntry);
      }
    }

    /** The loop of MergeEntries as it stands: it passes each entry's pointer as a C string, which runs
        on into the file buffer, and never sets the last entry, so it decides nothing.  `reach` is
        what lies in memory from each popped pointer on. */
    method DriveAsWritten(reach: seq<Bytes>) returns (decisions: seq<(Action, Option<Bytes>)>)
      requires lastEntry == []
      modifies this`abandoned
      ensures abandoned == old(abandoned) && |decisions| == |reach|
      ensures forall i :: 0 <= i < |reach| ==> decisions[i] == (AcceptEntry, None)
    {
      decisions := [];
      for i := 0 to |reach|
        invariant abandoned == old(abandoned)
        invariant |decisions| == i && forall k :: 0 <= k < i ==> decisions[k] == (AcceptEntry, None)
      {
        var action, result := Arbitrate(CString(reach[i]));
        decisions := decisions + [(action, result)];
      }
    }

    /** The intended use of Arbitration over a stream: each call decides about the entry before, and
        the last entry passes through. */
    method Drive(stream: seq<Bytes>) returns (out: seq<Bytes>)
      requires lastEntry == [] && EntryStream(stream)
      modifies this
      ensures out == Emitted(logic, bound, stream)
      ensures abandoned == old(abandoned) + Abandoned(logic, bound, stream)
    {
      out := [];
      ghost var emitted, goal := Emitted(logic, bound, stream), abandoned + Abandoned(logic, bound, stream);
      ghost var k := 0;
      for i := 0 to |stream|
        invariant k == if i == 0 then 0 else i - 1
        invariant lastEntry == if i == 0 then [] else stream[k]
        invariant out == emitted[..k] && abandoned + Abandoned(logic, bound, stream[k..]) == goal
      {
        ghost var before := abandoned;
        var action, result := Arbitrate(stream[i]);
        if result.Some? {
          assert i > 0 && lastEntry == stream[k] && k + 1 == i;
          out := out + [result.value];
          EmittedStep(logic, bound, stream, k, before);
          k := k + 1;
        }
        lastEntry := stream[i];
      }
      if stream != [] {
        out := out + [lastEntry];
        EmittedLast(logic, bound, stream);
      }
    }
  }

  // ---------------------------------------------------------------- what is emitted

  predicate EntryStream(s: seq<Bytes>) {
    forall i :: 0 <= i < |s| ==> Entry(s[i])
  }

  predicate Dropped(logic: FilterLogic, bound: FilterArgs, s: seq<Bytes>, i: nat)
    requires EntryStream(s) && i < |s|
  {
    i + 1 < |s| && Drops(logic, bound, s[i], s[i + 1])
  }

  /** Position by position, the entry or its tombstone. */
  function Emitted(logic: FilterLogic, bound: FilterArgs, s: seq<Bytes>): (out: seq<Bytes>)
    requires EntryStream(s)
    ensures |out| == |s|
  {
    seq(|s|, i requires 0 <= i < |s| => if Dropped(logic, bound, s, i) then Tombstone(s[i]) else s[i])
  }

  /** The replaced entries, in order. */
  function Abandoned(logic: FilterLogic, bound: FilterArgs, s: seq<Bytes>): seq<Bytes>
    requires EntryStream(s)
  {
    if |s| < 2 then []
    else (if Drops(logic, bound, s[0], s[1]) then [s[0]] else []) + Abandoned(logic, bound, s[1..])
  }

  lemma EmittedStep(logic: FilterLogic, bound: FilterArgs, s: seq<Bytes>, i: nat, before: seq<Bytes>)
    requires EntryStream(s) && i + 1 < |s|
    ensures var out, drops := Emitted(logic, bound, s), Drops(logic, bound, s[i], s[i + 1]);
            && out[..i + 1] == out[..i] + [if drops then Tombstone(s[i]) else s[i]]
            && before + Abandoned(logic, bound, s[i..])
               == (if drops then before + [s[i]] else before) + Abandoned(logic, bound, s[i + 1..])
  {
    var t, a := s[i..], Abandoned(logic, bound, s[i + 1..]);
    assert t[0] == s[i] && t[1] == s[i + 1] && t[1..] == s[i + 1..];
    AbandonedCons(logic, bound, t);
    OneMore(Emitted(logic, bound, s), i);
    if Drops(logic, bound, s[i], s[i + 1]) {
      AppendAssociative(before, [s[i]], a);
    }
  }

  lemma OneMore(out: seq<Bytes>, i: nat)
    requires i < |out|
    ensures out[..i + 1] == out[..i] + [out[i]]
  {}

  lemma EmittedLast(logic: FilterLogic, bound: FilterArgs, s: seq<Bytes>)
    requires EntryStream(s) && s != []
    ensures var out, k := Emitted(logic, bound, s), |s| - 1;
            out == out[..k] + [s[k]] && Abandoned(logic, bound, s[k..]) == []
  {}

  // ---------------------------------------------------------------- tombstones

  /** A tombstone keeps the user key, the sequence and the value; only the type changes. */
  lemma TombstoneFields(e: Bytes)
    requires Entry(e)
    ensures Entry(Tombstone(e)) && K(Tombstone(e)) == K(e).(kind := TYPE_DELETION)
    ensures Tombstone(e)[KEY_LENGTH..] == e[KEY_LENGTH..]
  {
    var key := e[..KEY_LENGTH];
    FooterBound(key);
    var k := K(e).(kind := TYPE_DELETION);
    assert Tombstone(e)[..KEY_LENGTH] == Encode(k);
    ParseEncoded(k);
  }

  /** What an emitted entry is, in terms of its input. */
  lemma EmittedFields(logic: FilterLogic, bound: FilterArgs, s: seq<Bytes>, i: nat)
    requires EntryStream(s) && i < |s|
    ensures var out := Emitted(logic, bound, s);
            && Entry(out[i])
            && K(out[i]) == K(s[i]).(kind := if Dropped(logic, bound, s, i) then TYPE_DELETION else K(s[i]).kind)
            && out[i][KEY_LENGTH..] == s[i][KEY_LENGTH..]
  {
    TombstoneFields(s[i]);
  }

  lemma EmittedEntries(logic: FilterLogic, bound: FilterArgs, s: seq<Bytes>)
    requires EntryStream(s)
    ensures EntryStream(Emitted(logic, bound, s))
  {
    forall i | 0 <= i < |s| ensures Entry(Emitted(logic, bound, s)[i]) {
      EmittedFields(logic, bound, s, i);
    }
  }

  // ---------------------------------------------------------------- on the bytes

  /** Which entries of any stream are dropped: the rules compare the first eight bytes of an entry, its
      user key, with those of the next one and with the prefix, and bytes 9 to 15, its sequence, with
      the bound. */
  lemma DroppedBytes(bound: FilterArgs, s: seq<Bytes>, i: nat)
    requires EntryStream(s) && i < |s|
    ensures Dropped(RemoveRedundant, bound, s, i) <==> i + 1 < |s| && s[i][..8] == s[i + 1][..8]
    ensures Dropped(DeletePrefix, bound, s, i) <==> i + 1 < |s| && bound.prefix <= s[i][..8]
    ensures Dropped(DeleteVersion, bound, s, i) <==>
            && i + 1 < |s| && bound.prefix <= s[i][..8] && s[i][..8] == s[i + 1][..8]
            && FromLittleEndian(s[i][9..16]) < bound.seqno
  {
    KeyBytes(s[i]);
    StartsWithIsPrefix(s[i][..8], bound.prefix);
    if i + 1 < |s| { KeyBytes(s[i + 1]); }
  }

  lemma KeyBytes(e: Bytes)
    requires Entry(e)
    ensures K(e) == ParsedKey(e[..8], FromLittleEndian(e[9..16]), e[8])
  {
    var key := e[..KEY_LENGTH];
    ParsedBytes(key);
    assert key[..8] == e[..8] && key[9..] == e[9..16];
  }

  /** A tombstone differs from the entry in one byte: the type is set to deletion, which is 0. */
  lemma TombstoneBytes(e: Bytes)
    requires Entry(e)
    ensures Tombstone(e) == e[..8] + [0] + e[9..]
  {
    KeyBytes(e);
    DeletionFooter(e[9..16], 8);
    assert e[..8] + ([0] + e[9..16]) + e[16..26] == e[..8] + [0] + e[9..];
  }

  lemma DeletionFooter(t: Bytes, n: nat)
    requires |t| == 7 && n == 8
    ensures LittleEndian(Pack(FromLittleEndian(t), 0), n) == [0] + t
  {
    FixedBound(t);
    Pow2At56();
    PackValue(FromLittleEndian(t), 0);
    var footer := [0] + t;
    assert footer[1..] == t;
    FixedRoundTripBytes(footer);
  }

  /** What is emitted and abandoned on any stream, byte by byte. */
  lemma EmittedBytes(logic: FilterLogic, bound: FilterArgs, s: seq<Bytes>, i: nat)
    requires EntryStream(s) && i < |s|
    ensures Emitted(logic, bound, s)[i] ==
            if Dropped(logic, bound, s, i) then s[i][..8] + [0] + s[i][9..] else s[i]
  {
    TombstoneBytes(s[i]);
  }

  // ---------------------------------------------------------------- order

  /** Strictly ascending in the merge order. */
  ghost predicate Sorted(s: seq<Bytes>)
    requires EntryStream(s)
  {
    forall i, j :: 0 <= i < j < |s| ==> KeyComparor(s[i], s[j]) < 0
  }

  predicate SameVersion(a: Bytes, b: Bytes)
    requires Entry(a) && Entry(b)
  {
    K(a).userKey == K(b).userKey && K(a).sequence == K(b).sequence
  }

  /** The order of entries in terms of their keys. */
  lemma OrderOfKeys(a: Bytes, b: Bytes)
    requires Entry(a) && Entry(b)
    ensures KeyComparor(a, b) < 0 <==>
            (|| Compare(K(a).userKey, K(b).userKey) < 0
             || (K(a).userKey == K(b).userKey &&
                 (K(a).sequence > K(b).sequence || (K(a).sequence == K(b).sequence && K(a).kind > K(b).kind))))
  {
    CompareAntisymmetric(K(a).userKey, K(b).userKey);
  }

  /** Ascending in the merge order; entries with the same key, and whole duplicates, may repeat. */
  ghost predicate Ascending(s: seq<Bytes>)
    requires EntryStream(s)
  {
    forall i, j :: 0 <= i < j < |s| ==> KeyComparor(s[i], s[j]) <= 0
  }

  lemma SameOrder(a: Bytes, b: Bytes)
    requires Entry(a) && Entry(b)
    ensures KeyComparor(a, b) == 0 <==> K(a) == K(b)
  {
    CompareAntisymmetric(K(a).userKey, K(b).userKey);
  }

  /** In an ascending stream what lies between two entries of one user key has that user key too, and
      what lies between two entries of one version has that version. */
  lemma Contiguous(s: seq<Bytes>, i: nat, k: nat, j: nat)
    requires EntryStream(s) && Ascending(s) && i < k <= j < |s|
    requires K(s[i]).userKey == K(s[j]).userKey
    ensures K(s[k]).userKey == K(s[i]).userKey
    ensures K(s[i]).sequence >= K(s[k]).sequence
    ensures K(s[i]).sequence == K(s[j]).sequence ==> K(s[k]).sequence == K(s[i]).sequence
  {
    OrderOfKeys(s[i], s[k]);
    SameOrder(s[i], s[k]);
    var a, b := K(s[i]).userKey, K(s[k]).userKey;
    CompareAntisymmetric(a, b);
    if k < j {
      OrderOfKeys(s[k], s[j]);
      SameOrder(s[k], s[j]);
      CompareAntisymmetric(b, a);
    }
  }

  /** The emitted stream is strictly sorted too exactly when no deleted entry is followed by another
      entry of the same user key and sequence; in particular whenever versions are distinct. */
  lemma EmittedSorted(logic: FilterLogic, bound: FilterArgs, s: seq<Bytes>)
    requires EntryStream(s) && Sorted(s)
    ensures EntryStream(Emitted(logic, bound, s))
    ensures Sorted(Emitted(logic, bound, s)) <==>
            (forall i :: 0 <= i < |s| - 1 && Dropped(logic, bound, s, i) ==> !SameVersion(s[i], s[i + 1]))
  {
    var out := Emitted(logic, bound, s);
    EmittedEntries(logic, bound, s);
    if i :| 0 <= i < |s| - 1 && Dropped(logic, bound, s, i) && SameVersion(s[i], s[i + 1]) {
      EmittedFields(logic, bound, s, i);
      EmittedFields(logic, bound, s, i + 1);
      OrderOfKeys(out[i], out[i + 1]);
      CompareAntisymmetric(K(s[i]).userKey, K(s[i]).userKey);
      assert !(KeyComparor(out[i], out[i + 1]) < 0);
    } else {
      forall i, j | 0 <= i < j < |s| ensures KeyComparor(out[i], out[j]) < 0 {
        EmittedPair(logic, bound, s, i, j);
      }
    }
  }

  lemma EmittedPair(logic: FilterLogic, bound: FilterArgs, s: seq<Bytes>, i: nat, j: nat)
    requires EntryStream(s) && Sorted(s) && i < j < |s|
    requires Dropped(logic, bound, s, i) ==> !SameVersion(s[i], s[i + 1])
    ensures EntryStream(Emitted(logic, bound, s))
    ensures KeyComparor(Emitted(logic, bound, s)[i], Emitted(logic, bound, s)[j]) < 0
  {
    var out := Emitted(logic, bound, s);
    EmittedEntries(logic, bound, s);
    EmittedFields(logic, bound, s, i);
    EmittedFields(logic, bound, s, j);
    OrderOfKeys(s[i], s[j]);
    OrderOfKeys(out[i], out[j]);
    if SameVersion(s[i], s[j]) {
      assert Ascending(s);
      Contiguous(s, i, i + 1, j);
    }
  }

  /** An ascending stream stays ascending exactly when each dropped entry that is followed by one of
      its version is followed by a deletion, dropped or original. */
  lemma EmittedAscending(logic: FilterLogic, bound: FilterArgs, s: seq<Bytes>)
    requires EntryStream(s) && Ascending(s)
    ensures EntryStream(Emitted(logic, bound, s))
    ensures Ascending(Emitted(logic, bound, s)) <==> TombstonesLast(logic, bound, s)
  {
    var out := Emitted(logic, bound, s);
    EmittedEntries(logic, bound, s);
    if TombstonesLast(logic, bound, s) {
      forall i, j | 0 <= i < j < |s| ensures KeyComparor(out[i], out[j]) <= 0 {
        AscendingPair(logic, bound, s, i, j);
      }
    } else {
      var i :| 0 <= i < |s| - 1 && Dropped(logic, bound, s, i) && SameVersion(s[i], s[i + 1])
               && !Dropped(logic, bound, s, i + 1) && K(s[i + 1]).kind != TYPE_DELETION;
      EmittedFields(logic, bound, s, i);
      EmittedFields(logic, bound, s, i + 1);
      OrderOfKeys(out[i], out[i + 1]);
      SameOrder(out[i], out[i + 1]);
      CompareAntisymmetric(K(s[i]).userKey, K(s[i]).userKey);
      assert !(KeyComparor(out[i], out[i + 1]) <= 0);
    }
  }

  predicate TombstonesLast(logic: FilterLogic, bound: FilterArgs, s: seq<Bytes>)
    requires EntryStream(s)
  {
    forall i :: 0 <= i < |s| - 1 && Dropped(logic, bound, s, i) && SameVersion(s[i], s[i + 1]) ==>
      Dropped(logic, bound, s, i + 1) || K(s[i + 1]).kind == TYPE_DELETION
  }

  lemma AscendingPair(logic: FilterLogic, bound: FilterArgs, s: seq<Bytes>, i: nat, j: nat)
    requires EntryStream(s) && Ascending(s) && TombstonesLast(logic, bound, s) && i < j < |s|
    ensures EntryStream(Emitted(logic, bound, s))
    ensures KeyComparor(Emitted(logic, bound, s)[i], Emitted(logic, bound, s)[j]) <= 0
  {
    var out := Emitted(logic, bound, s);
    EmittedEntries(logic, bound, s);
    EmittedFields(logic, bound, s, i);
    EmittedFields(logic, bound, s, j);
    OrderOfKeys(s[i], s[j]);
    SameOrder(s[i], s[j]);
    OrderOfKeys(out[i], out[j]);
    SameOrder(out[i], out[j]);
    if SameVersion(s[i], s[j]) && Dropped(logic, bound, s, i) {
      DeletedAfter(logic, bound, s, i, j);
    }
  }

  /** Within one version, everything behind a dropped entry is emitted as a deletion. */
  lemma {:induction false} DeletedAfter(logic: FilterLogic, bound: FilterArgs, s: seq<Bytes>, i: nat, j: nat)
    requires EntryStream(s) && Ascending(s) && TombstonesLast(logic, bound, s) && i < j < |s|
    requires SameVersion(s[i], s[j]) && Dropped(logic, bound, s, i)
    ensures Dropped(logic, bound, s, j) || K(s[j]).kind == TYPE_DELETION
    decreases j - i
  {
    Contiguous(s, i, i + 1, j);
    if i + 1 < j {
      if Dropped(logic, bound, s, i + 1) {
        DeletedAfter(logic, bound, s, i + 1, j);
      } else {
        TypesDescend(s, i + 1, j);
      }
    }
  }

  lemma TypesDescend(s: seq<Bytes>, i: nat, j: nat)
    requires EntryStream(s) && Ascending(s) && i < j < |s| && SameVersion(s[i], s[j])
    ensures K(s[i]).kind >= K(s[j]).kind
  {
    OrderOfKeys(s[i], s[j]);
    SameOrder(s[i], s[j]);
    CompareAntisymmetric(K(s[j]).userKey, K(s[j]).userKey);
  }

  /** Two byte-identical entries: the first is abandoned and emitted as a tombstone, which then
      precedes the second. */
  lemma DuplicatesBreakOrder(e: Bytes, bound: FilterArgs)
    requires Entry(e) && K(e).kind != TYPE_DELETION
    ensures EntryStream([e, e]) && Ascending([e, e])
    ensures Emitted(RemoveRedundant, bound, [e, e]) == [Tombstone(e), e]
    ensures Abandoned(RemoveRedundant, bound, [e, e]) == [e]
    ensures EntryStream(Emitted(RemoveRedundant, bound, [e, e])) && !Ascending(Emitted(RemoveRedundant, bound, [e, e]))
  {
    var s := [e, e];
    SameOrder(e, e);
    EmittedAscending(RemoveRedundant, bound, s);
    assert Dropped(RemoveRedundant, bound, s, 0) && SameVersion(s[0], s[1]) && !Dropped(RemoveRedundant, bound, s, 1);
    assert s[1..] == [e];
  }

  /** Two entries of one version, the first replaced: the tombstone no longer sorts first. */
  lemma EqualVersionsBreakOrder(userKey: Bytes, value: Bytes, bound: FilterArgs)
    requires |userKey| == 8 && |value| == 10
    ensures var s := [Encode(ParsedKey(userKey, 5, 2)) + value, Encode(ParsedKey(userKey, 5, 1)) + value];
            EntryStream(s) && Sorted(s) && EntryStream(Emitted(RemoveRedundant, bound, s))
            && !Sorted(Emitted(RemoveRedundant, bound, s))
  {
    var a, b := ParsedKey(userKey, 5, 2), ParsedKey(userKey, 5, 1);
    var s := [Encode(a) + value, Encode(b) + value];
    assert s[0][..KEY_LENGTH] == Encode(a) && s[1][..KEY_LENGTH] == Encode(b);
    ParseEncoded(a);
    ParseEncoded(b);
    OrderOfKeys(s[0], s[1]);
    EmittedSorted(RemoveRedundant, bound, s);
    assert Dropped(RemoveRedundant, bound, s, 0) && SameVersion(s[0], s[1]);
  }

  // ---------------------------------------------------------------- which entries survive

  /** Some later entry of the stream has the same user key. */
  predicate HasOlder(s: seq<Bytes>, i: nat)
    requires EntryStream(s) && i < |s|
  {
    exists j :: i < j < |s| && K(s[j]).userKey == K(s[i]).userKey
  }

  /** On an ascending stream, duplicates admitted, the rules mean what they say about the whole stream,
      though each decision sees only the next entry: an entry is redundant when any later entry has its
      user key. */
  lemma RulesOnSortedStreams(bound: FilterArgs, s: seq<Bytes>, i: nat)
    requires EntryStream(s) && Ascending(s) && i < |s|
    ensures Dropped(RemoveRedundant, bound, s, i) <==> HasOlder(s, i)
    ensures Dropped(DeletePrefix, bound, s, i) <==> i + 1 < |s| && bound.prefix <= K(s[i]).userKey
    ensures Dropped(DeleteVersion, bound, s, i) <==>
            bound.prefix <= K(s[i]).userKey && K(s[i]).sequence < bound.seqno && HasOlder(s, i)
  {
    StartsWithIsPrefix(K(s[i]).userKey, bound.prefix);
    if j :| i < j < |s| && K(s[j]).userKey == K(s[i]).userKey {
      Contiguous(s, i, i + 1, j);
    }
  }

  /** Removing redundant versions keeps exactly one entry per user key, the one with the smallest
      sequence: the oldest version survives. */
  lemma OldestSurvives(bound: FilterArgs, s: seq<Bytes>, i: nat) returns (j: nat)
    requires EntryStream(s) && Ascending(s) && i < |s|
    ensures i <= j < |s| && K(s[j]).userKey == K(s[i]).userKey && !Dropped(RemoveRedundant, bound, s, j)
    ensures forall k :: 0 <= k < |s| && K(s[k]).userKey == K(s[i]).userKey ==>
              K(s[k]).sequence >= K(s[j]).sequence
              && (k != j ==> Dropped(RemoveRedundant, bound, s, k))
  {
    j := i;
    while Dropped(RemoveRedundant, bound, s, j)
      invariant i <= j < |s| && K(s[j]).userKey == K(s[i]).userKey
      decreases |s| - j
    {
      j := j + 1;
    }
    RulesOnSortedStreams(bound, s, j);
    forall k | 0 <= k < |s| && K(s[k]).userKey == K(s[i]).userKey
      ensures K(s[k]).sequence >= K(s[j]).sequence && (k != j ==> Dropped(RemoveRedundant, bound, s, k))
    {
      if k < j {
        Contiguous(s, k, j, j);
        RulesOnSortedStreams(bound, s, k);
        assert K(s[j]).userKey == K(s[k]).userKey;
      }
    }
  }

  /** The members of s at the positions that are, or are not, dropped. */
  function Restricted(logic: FilterLogic, bound: FilterArgs, s: seq<Bytes>, t: seq<Bytes>, dropped: bool): seq<Bytes>
    requires EntryStream(s) && |t| == |s|
  {
    if s == [] then []
    else (if Dropped(logic, bound, s, 0) == dropped then [t[0]] else [])
         + Restricted(logic, bound, s[1..], t[1..], dropped)
  }

  /** What is abandoned is the stream at the dropped positions, and what is emitted elsewhere is the
      stream there, unchanged. */
  lemma {:induction false} KeptAndAbandoned(logic: FilterLogic, bound: FilterArgs, s: seq<Bytes>)
    requires EntryStream(s)
    ensures |Abandoned(logic, bound, s)| <= |s|
    ensures Abandoned(logic, bound, s) == Restricted(logic, bound, s, s, true)
    ensures Restricted(logic, bound, s, Emitted(logic, bound, s), false) == Restricted(logic, bound, s, s, false)
  {
    if s != [] {
      KeptAndAbandoned(logic, bound, s[1..]);
      EmittedTail(logic, bound, s);
    }
  }

  lemma EmittedTail(logic: FilterLogic, bound: FilterArgs, s: seq<Bytes>)
    requires EntryStream(s) && s != []
    ensures Emitted(logic, bound, s)[1..] == Emitted(logic, bound, s[1..])
  {
    forall i | 0 <= i < |s| - 1 ensures Dropped(logic, bound, s, i + 1) == Dropped(logic, bound, s[1..], i) {}
  }

  /** At the dropped positions the tombstones of what is abandoned are emitted, in order. */
  lemma {:induction false} TombstonesOfAbandoned(logic: FilterLogic, bound: FilterArgs, s: seq<Bytes>)
    requires EntryStream(s)
    ensures EntryStream(Abandoned(logic, bound, s))
    ensures Restricted(logic, bound, s, Emitted(logic, bound, s), true) == Tombstones(Abandoned(logic, bound, s))
  {
    if s != [] {
      var a, out := Abandoned(logic, bound, s[1..]), Emitted(logic, bound, s);
      TombstonesOfAbandoned(logic, bound, s[1..]);
      EmittedTail(logic, bound, s);
      EmittedHead(logic, bound, s);
      AbandonedCons(logic, bound, s);
      var rest := Restricted(logic, bound, s[1..], out[1..], true);
      assert rest == Tombstones(a);
      if Dropped(logic, bound, s, 0) {
        TombstonesCons(s[0], a);
        assert Restricted(logic, bound, s, out, true) == [out[0]] + rest;
      } else {
        assert Restricted(logic, bound, s, out, true) == [] + rest;
      }
    }
  }

  lemma AbandonedCons(logic: FilterLogic, bound: FilterArgs, s: seq<Bytes>)
    requires EntryStream(s) && s != []
    ensures var a := Abandoned(logic, bound, s[1..]);
            Abandoned(logic, bound, s) == if Dropped(logic, bound, s, 0) then [s[0]] + a else a
  {}

  lemma EmittedHead(logic: FilterLogic, bound: FilterArgs, s: seq<Bytes>)
    requires EntryStream(s) && s != []
    ensures Emitted(logic, bound, s)[0] == if Dropped(logic, bound, s, 0) then Tombstone(s[0]) else s[0]
  {}

  lemma TombstonesCons(e: Bytes, s: seq<Bytes>)
    requires Entry(e) && EntryStream(s)
    ensures Tombstones([e] + s) == [Tombstone(e)] + Tombstones(s)
  {
    assert ([e] + s)[1..] == s;
  }

  function Tombstones(s: seq<Bytes>): seq<Bytes>
    requires EntryStream(s)
  {
    if s == [] then [] else [Tombstone(s[0])] + Tombstones(s[1..])
  }
}
