# Verified core of an LSM compaction bench

A Dafny model of the parts of the compaction bench that carry hard promises, with proofs that hold
for every input, every run or every reachable state.

- **Owned state.** `Cleanable` (a callback list with an embedded head), `PinnableSlice` (a byte view
  that is owned or pinned) and `IterKey` (a key kept inline, on the heap or outside) are classes over
  real pointers and buffers. Cleanables and slices are run together: any run of their operations on
  any mixed population shows exactly what an abstract run over callback lists and byte strings
  computes. Callbacks are conserved exactly when the run loses no list, which happens only by moving
  a Cleanable onto a pending list or delegating it to itself, and the number of heap nodes that leak
  is exactly the number these operations strand.
- **Codecs and key order.** LEB128 varints (section 7.6 of DWARF 5), zigzag, length-prefixed slices,
  and internal keys with a packed 56-bit sequence and 8-bit type; the encoded and the parsed order;
  bounds, separators and successors under an abstract user comparator.
- **Tables, merging and arithmetic.** The 8 KiB gear blocks, the plain-table loader, tombstone
  arbitration over streams, the Lehmer generator down to its full period, order-preserving key
  generation and overflow-exact decimal parsing.

Bitwise operators are defined bit by bit (`Bits.dfy`) and tied to arithmetic by lemmas. Integers are
unbounded; the truncations, wrap-arounds and shifts that an input can reach are written out. Signed
overflow, which C++ leaves undefined, wraps in two's complement, and lengths are taken to fit the
64-bit `size_t`. A `std::string *` or `Slice *` parameter is a `ByteString` object whose bytes the
callee replaces. A call through a cleanup pointer appends to the log of a `World`, which also knows
the live heap nodes.

Where a promise is false of the code, the code is kept, a lemma or a contract shows where it fails,
and an if-and-only-if says when the promise holds:

| promise | where it fails | exact condition |
|---|---|---|
| a `Cleanable` loses no callback | moved onto while pending: `CleanableRuns.MoveLoses`; delegated to itself: `CleanableRuns.SelfDelegationLoses` | `CleanableRuns.Conservation` |
| no heap node leaks | moved onto two pending callbacks: `CleanableRuns.LeakANode` | `CleanableRuns.RunAll` (the exact number) |
| a `PinnableSlice` shows what was put in and trimmed | trimmed or shown after `Reset`: `PinnableSliceRuns.ResetRevived` | `PinnableSliceRuns.RunShowsPlain` |
| a move keeps the view | pinned on its own string member, which the move clears: `PinnableSlices.MoveDangles` | `PinnableSlices.PinnableSlice.MoveFrom` |
| a length-prefixed slice is read back | 4 GiB or more: `Coding.FourGibibytesAreLost` | `Coding.PrefixedRoundTrip` |
| `SetMin/MaxPossibleForUserKey` give bounds | `rep_` not empty: `InternalKeys.ReusedKeyLosesABound` | `InternalKeys.MinPossibleBounds`, `MaxPossibleBounds` |
| a tombstone's end key is below any other key of its user key | the seek key: `InternalKeys.EndKeyNotFirst` | `InternalKeys.EndKeyExclusive` |
| a separator lies below the limit | two versions of one user key: `InternalKeys.SeparatorOvershoots` | `InternalKeys.SeparatorIsBelow` |
| `KeyComparor` is a less-than for a heap | two different keys: `InternalKeys.HeapLessBothWays` | `InternalKeys.HeapLessAsymmetric` |
| arbitration keeps a stream sorted | two entries of one version: `Arbitration.EqualVersionsBreakOrder` | `Arbitration.EmittedSorted` |
| a good seed cycles through every number | low 31 bits all ones: `Random.StuckAtM` | `RandomPeriod.ReachesEverything` |
| generated keys keep integer order | 257 keys of one byte: `KeyGenerator.KeysCollide` | `KeyGenerator.KeysKeepOrder` |
| a gear block is 8 KiB | 8129 bytes of values: `GearTable.OversizedBlock` | `GearTable.BlockSize` |
| a gear block holds all entries given | 2^31 of them: `GearTable.NoneAdded` | `GearTable.Added` |
| the loader stays inside its buffer | 536870907 bytes: `PlainTable.LastSliceOverruns` | `PlainTable.InBounds` |
| a 64-bit decimal number is accepted | 2^31 zeros: `DecimalNumber.TooManyZeros` | `DecimalNumber.AcceptedIsReadable` |

Where comments and code disagree the model follows the code: `SerializeEndKey` promises to precede
"any other internal-key with the same user-key"; `Random::Next` says that the reduced value cannot be
M, which is so only for seeds other than M; "remove redundant" keeps the oldest version of a key, not
the newest.

## Model

| member | source | states |
|---|---|---|
| Bits.AndMask | utils/coding.h:291 | masking with 2^k - 1 is the remainder modulo 2^k, for the operators defined bit by bit |
| Bits.OrDisjoint | db_format/dbformat.cc:32 | or-ing a low part into a multiple of a power of two adds it |
| Bytes.FixedRoundTrip | utils/coding.h:164-229 | n little-endian bytes decode to the number encoded, for every width |
| Bytes.FixedRoundTripBytes | utils/coding.h:164-229 | every byte string is the encoding of the number it decodes to |
| Bytes.LittleEndianAt | utils/coding.h:196-229 | byte i is digit i to base 256, least significant first |
| Bytes.CompareNegative | include/slice.h:251-262 | compare is negative exactly when the first difference, or a proper prefix, decides so |
| Bytes.CompareAtDifference | include/slice.h:251-262 | after any common prefix the smaller unsigned byte decides, and a proper prefix is less |
| Bytes.CompareAntisymmetric | include/slice.h:251-262 | compare is antisymmetric and zero exactly on equal strings |
| Bytes.CompareTransitive | include/slice.h:251-262 | compare is transitive, strictly if either step is |
| Bytes.StartsWithIsPrefix | include/slice.h:119-121 | starts_with is the prefix relation, both ways |
| Varint.EncodeVarint64 | utils/coding.h:287-296 | the loop writes exactly the LEB128 encoding at the pointer, changes no other byte, returns the end |
| Varint.EncodeVarint32 | utils/coding.cc:19-45 | the five-way unrolled stores write the same bytes as the loop |
| Varint.VarintLength | utils/coding.h:361-368 | the length of the encoding, between 1 and 10 |
| Varint.Leb128Length | utils/coding.h:361-368 | k bytes suffice exactly when v < 2^(7k): encodings are minimal |
| Varint.WordLengths | utils/coding.h:265-332 | at most 5 bytes for 32-bit and 10 for 64-bit words |
| Varint.RoundTrip | utils/coding.cc:51-84 | both decoders undo the encoding and stop where it stops, whatever follows |
| Varint.Canonical | utils/coding.cc:69-84 | re-encoding a decoded prefix gives the same bytes exactly when it had no zero last byte and fits 64 bits |
| Varint.Leb128At | utils/coding.h:287-296 | byte i holds digit i to base 128, least significant first, and all bytes but the last the continuation bit |
| Varint.DecodedDigits | utils/coding.cc:69-84 | on any byte string: reads up to the first byte without the continuation bit; byte i is digit i of the value, and one bit of a tenth byte counts |
| Varint.DecodedBound | utils/coding.cc:69-84 | nothing is in the value beyond the bytes read |
| Varint.Decoders | utils/coding.cc:51-84 | on every byte string: success exactly when a stop byte is among the first 5 (10), same stop, 32-bit value is the 64-bit one modulo 2^32 |
| Varint.ReadVarint | utils/coding.cc:51-84 | the shift-and-or loop computes the format's decoding of the bytes before limit and of nothing else |
| Varint.GetVarint32PtrFallback | utils/coding.cc:51-67 | is the 32-bit decoding of [p, limit) on all byte strings |
| Varint.GetVarint32Ptr | utils/coding.h:182-193 | the fast path agrees with the fallback |
| Varint.GetVarint64Ptr | utils/coding.cc:69-84 | is the 64-bit decoding of [p, limit) on all byte strings |
| Coding.ZigzagCode | utils/coding.h:93-95 | the shift-and-xor code of l is 2l or -2l-1 |
| Coding.ZigzagInverse | utils/coding.h:97-99 | the decoding alternates signs by parity |
| Coding.ZigzagBijection | utils/coding.h:93-99 | zigzag is a bijection of the signed and unsigned 64-bit words |
| Coding.PutVarint32 | utils/coding.h:265-269 | appends the encoding; five bytes of scratch suffice |
| Coding.PutVarint64 | utils/coding.h:298-302 | appends the encoding; ten bytes of scratch suffice |
| Coding.PutVarsignedint64 | utils/coding.h:304-309 | appends the encoding of the zigzag code |
| Coding.PutVarint32Varint32 | utils/coding.h:271-276 | appends both encodings; 10 bytes of scratch suffice |
| Coding.PutVarint32Varint32Varint32 | utils/coding.h:278-285 | appends the three encodings; 15 bytes suffice |
| Coding.PutVarint64Varint64 | utils/coding.h:311-316 | appends both encodings; 20 bytes suffice |
| Coding.PutVarint32Varint64 | utils/coding.h:318-323 | appends both encodings; 15 bytes suffice |
| Coding.PutVarint32Varint32Varint64 | utils/coding.h:325-332 | appends the three encodings; 20 bytes suffice |
| Coding.PutFixed32 | utils/coding.h:243-252 | appends four little-endian bytes |
| Coding.PutFixed64 | utils/coding.h:254-263 | appends eight little-endian bytes |
| Coding.PutLengthPrefixedSlice | utils/coding.h:334-337 | appends the length cut to 32 bits and all the data |
| Coding.PutLengthPrefixedSlicePartsWithPadding | utils/coding.h:339-359 | the two loops append the length-prefixed form of the concatenated parts and the padding |
| Coding.GetVarint32 | utils/coding.h:397-407 | consumes exactly the decoded prefix, or nothing on failure |
| Coding.GetVarint64 | utils/coding.h:409-419 | consumes exactly the decoded prefix, or nothing on failure |
| Coding.GetVarsignedint64 | utils/coding.h:109-115 | reads a zigzag word; on failure consumes nothing and yields 0 |
| Coding.GetFixed32 | utils/coding.h:379-386 | reads four bytes, or fails untouched on short input |
| Coding.GetFixed64 | utils/coding.h:370-377 | reads eight bytes, or fails untouched on short input |
| Coding.GetLengthPrefixedSlice | utils/coding.h:465-474 | returns the data and leaves the rest; on short data fails with the length already consumed |
| Coding.PrefixedRoundTrip | utils/coding.h:334-337 | a slice is read back whole exactly when its length is below 2^32 |
| Coding.FourGibibytesAreLost | utils/coding.h:334-337 | 2^32 bytes are written under length 0 and read back as nothing |
| Coding.PrefixIsVarint | utils/coding.h:334-337 | the prefix reads as a varint of the length modulo 2^32, with all the data behind it |
| Coding.PrefixedReading | utils/coding.h:465-474 | on any byte string a slice is a varint and that many bytes, read exactly when both are there |
| Coding.ItemRoundTrip | utils/coding.h:265-474 | every kind of item is read back, with its tail, exactly when it fits |
| Coding.RecordRoundTrip | utils/coding.h:265-474 | any heterogeneous list is read back in order with the bytes after it left, exactly when every length prefix fits 32 bits |
| Coding.RecordsUnambiguous | utils/coding.h:265-474 | records of one shape never share an encoding, even with different tails |
| Coding.PutItems | utils/coding.h:265-359 | the Put calls write the encoding of any list |
| Coding.GetItems | utils/coding.h:370-474 | the Get calls compute the decoding, stopping at the first failure |
| Coding.WriteThenRead | utils/coding.h:265-474 | Put calls followed by Get calls return the list and the tail, exactly under that condition |
| InternalKeys.PackValue | db_format/dbformat.cc:29-33 | shift-or packing is the low 56 bits of the sequence times 256 plus the type, for any sequence |
| InternalKeys.AppendInternalKey | db_format/dbformat.cc:73-76 | appends the encoded key |
| InternalKeys.ParseEncoded | db_format/dbformat.h:303-314 | parsing undoes encoding on every valid key |
| InternalKeys.EncodeParsed | db_format/dbformat.h:303-314 | encoding undoes parsing on every byte string that parses |
| InternalKeys.ParsedBytes | db_format/dbformat.h:303-314 | on the bytes: the user key, then the type, then seven bytes of sequence; exactly seven types are accepted |
| InternalKeys.BytewiseContract | include/comparator.h:39-81 | Slice::compare with do-nothing shortening meets the comparator contract |
| InternalKeys.EncodedOrderIsParsedOrder | db_format/dbformat.h:652-669 | the single footer comparison equals the field-by-field comparison, on all strings of 8 bytes or more |
| InternalKeys.KeySeqCoarsens | db_format/dbformat.h:671-688 | CompareKeySeq never contradicts Compare and equates exactly equal user keys and sequences |
| InternalKeys.InternalOrder | db_format/dbformat.h:652-669 | internal keys are totally preordered whenever user keys are |
| InternalKeys.BytewiseTotal | db_format/dbformat.h:652-669 | under the bytewise comparator only identical keys compare equal |
| InternalKeys.InternalKey.SetMaxPossibleForUserKey | db_format/dbformat.h:246-249 | appends the key with sequence 0 and type 0 to what was there |
| InternalKeys.InternalKey.SetMinPossibleForUserKey | db_format/dbformat.h:253-256 | appends the key with the maximal sequence and the seek type |
| InternalKeys.MaxPossibleBounds | db_format/dbformat.h:244-249 | at or above every valid key of the user key, exactly when the old contents do not push it below |
| InternalKeys.MinPossibleBounds | db_format/dbformat.h:251-256 | at or below every valid key of the user key, exactly when the old contents do not push it above |
| InternalKeys.BoundsParse | db_format/dbformat.h:244-256 | the sequence and type the bounds and a tombstone's end key parse to |
| InternalKeys.ReusedKeyLosesABound | db_format/dbformat.h:244-256 | an object that already holds a key never yields both bounds |
| InternalKeys.EndKeyExclusive | db_format/dbformat.h:640-649 | above every smaller user key, below every larger one, and exactly which keys of the end user key it precedes |
| InternalKeys.EndKeyNotFirst | db_format/dbformat.h:640-649 | the seek key of the same user key sorts before the end key |
| InternalKeys.SeparatorIsAbove | db_format/dbformat.cc:137-154 | for any two keys the separator is no longer than start and at or above everything that start is |
| InternalKeys.SeparatorIsBelow | db_format/dbformat.cc:144-151 | for start below limit, the second inner assertion holds exactly when the user keys are in order or the comparator's answer is not taken |
| InternalKeys.SeparatorSeparates | db_format/dbformat.cc:137-154 | exactly then the separator is below everything at or above limit |
| InternalKeys.SeparatorOvershoots | db_format/dbformat.cc:144-151 | a comparator within its contract and two versions of one user key whose separator lies above both |
| InternalKeys.FindShortestSeparator | db_format/dbformat.cc:137-154 | computes the separator for any two keys; the first inner assertion always holds, the second when the user keys are in order |
| InternalKeys.SeparatorIsEarliest | db_format/dbformat.cc:144-153 | when the comparator's answer is no longer and above, the result is that answer with the bytes 14 ff ff ff ff ff ff ff, it parses, and it is at or below every key of the answer; otherwise the start is unchanged |
| InternalKeys.SuccessorIsAbove | db_format/dbformat.cc:156-169 | the successor is no longer and at or above everything at or below its input |
| InternalKeys.FindShortSuccessor | db_format/dbformat.cc:156-169 | computes the successor; the inner assertion always holds |
| InternalKeys.SuccessorIsEarliest | db_format/dbformat.cc:160-168 | the same for the successor |
| InternalKeys.ParsedComparorIsInternalOrder | include/merger.h:47-68 | the heap's three-way comparison is the encoded internal-key order, zero exactly on identical keys |
| InternalKeys.KeyComparorIsInternalOrder | include/stream_merger.cc:67-88 | the same for the leading 16 bytes of entries |
| InternalKeys.HeapLessBothWays | include/stream_merger.cc:91 | two entries that are each less than the other |
| InternalKeys.HeapLessAsymmetric | include/stream_merger.cc:91 | used as less-than it is asymmetric exactly on collections with a single key |
| Cleanables.InsertAllIsDelegated | utils/cleanable.cc:39-54 | one-by-one registration leaves the head first, the delegated callbacks reversed behind it, then the rest |
| Cleanables.RegisteredOrder | utils/cleanable.cc:69-82 | registrations run as the first, then the others latest first, by position |
| Cleanables.DelegatedOrder | utils/cleanable.cc:39-54 | where each callback lies after delegation, by position |
| Cleanables.Cleanable.RegisterCleanup | utils/cleanable.cc:69-82 | inserts behind the first callback; the list stays acyclic and at most one node is allocated |
| Cleanables.Cleanable.RegisterNode | utils/cleanable.cc:56-67 | takes over the node, or copies it into an empty head and deletes it |
| Cleanables.Cleanable.TakeNodes | utils/cleanable.cc:46-51 | the loop hands over every node and leaks none |
| Cleanables.Cleanable.DelegateCleanupsTo | utils/cleanable.cc:39-54 | the target gets the stated order and all nodes, the source ends empty; delegating to itself the object ends empty too |
| Cleanables.Cleanable.DelegateToSelf | utils/cleanable.cc:39-54 | the aliased case: the loop ends although the list becomes cyclic, one node is allocated, and the object is left empty with its nodes still live |
| Cleanables.Cleanable.MoveFrom | utils/cleanable.cc:14-21 | the target takes the source's list in place of its own, the source ends empty; self-move changes nothing |
| Cleanables.Cleanable.DoCleanup | utils/cleanable.h:63-73 | runs the whole list once in order and deletes each node once |
| Cleanables.Cleanable.Reset | utils/cleanable.h:41-45 | the same, and the object ends empty |
| CleanableRuns.RunAccounts | utils/cleanable.cc:14-82 | over every run, registrations are pending, run or lost, with multiplicity |
| CleanableRuns.LostGrows | utils/cleanable.cc:14-54 | a run loses nothing exactly when no move hits a pending list and no pending object delegates to itself |
| CleanableRuns.Conservation | utils/cleanable.cc:14-82 | each registration is pending once or has run once, exactly under that condition |
| CleanableRuns.MoveLoses | utils/cleanable.cc:14-21 | a registered callback that never runs |
| CleanableRuns.SelfDelegationLoses | utils/cleanable.cc:39-54 | another one, lost by delegating to itself |
| CleanableRuns.ApplyRegister | utils/cleanable.cc:69-82 | on any population: lists stay disjoint, live and well formed, and the abstract step is taken on lists and on the number of live nodes |
| CleanableRuns.ApplyDelegate | utils/cleanable.cc:39-67 | the same for delegation, to itself included |
| CleanableRuns.ApplyMove | utils/cleanable.cc:14-21 | the same for moves, onto pending lists included |
| CleanableRuns.ApplyReset | utils/cleanable.h:41-45 | the same for reset |
| CleanableRuns.RunStrands | utils/cleanable.cc:14-82 | the nodes in no list are those the run's moves onto lists of several callbacks and delegations to oneself strand, counted exactly |
| CleanableRuns.LeakedMembers | utils/cleanable.cc:14-82 | a live node has leaked exactly if no object of the population has it in its list |
| CleanableRuns.LeaksCounted | utils/cleanable.cc:14-82 | as many nodes have leaked as the abstract state says are stranded |
| CleanableRuns.RunAll | utils/cleanable.cc:14-82 | any run on any population of objects shows exactly the abstract run, order included, and adds to the leaked nodes exactly the number it strands |
| CleanableRuns.LeakANode | utils/cleanable.cc:14-21 | moving onto two pending callbacks leaks one node |
| CleanableRuns.TwoAreStranded | utils/cleanable.cc:14-21 | moving onto one pending callback loses it and strands nothing |
| PinnableSlices.PinnableSlice.PinSlice | include/slice.h:159-167 | shows the given bytes, wherever they lie, and registers the cleanup |
| PinnableSlices.PinnableSlice.PinSliceFrom | include/slice.h:169-176 | shows the given bytes and takes over the other object's callbacks in delegation order |
| PinnableSlices.PinnableSlice.PinSelf | include/slice.h:186-191 | shows the whole string |
| PinnableSlices.PinnableSlice.PinSelfCopy | include/slice.h:178-184 | copies the bytes and shows them |
| PinnableSlices.PinnableSlice.RemovePrefix | include/slice.h:203-212 | trims the view, pinned or owned; an empty stale view comes back as the string |
| PinnableSlices.PinnableSlice.RemoveSuffix | include/slice.h:193-201 | the same at the other end |
| PinnableSlices.TrimmedMeans | include/slice.h:193-212 | what trimming does to the view and to the string, pinned, shown or stale |
| PinnableSlices.PinnableSlice.Reset | include/slice.h:214-218 | runs the cleanups, shows nothing, unpins, keeps the string's bytes |
| PinnableSlices.PinnableSlice.MoveFrom | utils/slice.cc:214-239 | transfers view and callbacks, runs the target's own, leaves the source empty and unpinned, keeps the two apart; a non-empty view into the source's own string member is lost, any other kept; self-move changes nothing |
| PinnableSlices.MoveDangles | utils/slice.cc:214-239 | a slice pinned on its own string member, whose view dangles after a move |
| PinnableSliceRuns.StepShowsPlain | include/slice.h:159-218 | a step changes the views as it changes plain strings exactly when it does not trim or show a stale view |
| PinnableSliceRuns.RunShowsPlain | include/slice.h:159-218 | the same for every run of both PinSlice, both PinSelf, trimming, Reset, moves and the inherited operations |
| PinnableSliceRuns.ResetRevived | include/slice.h:186-218 | removing nothing, or PinSelf(), after Reset brings the old bytes back |
| PinnableSliceRuns.OnlyResetMakesStale | include/slice.h:159-218 | a slice becomes stale only by Reset, or by a move from a stale one |
| PinnableSliceRuns.MoveTransfers | utils/slice.cc:214-239 | a move hands over the view and all callbacks in order, runs the target's own, loses none and leaves the source empty and unpinned |
| PinnableSliceRuns.RunConserves | utils/slice.cc:214-239 | every run keeps all callbacks accounted for, and loses some exactly by operations on the Cleanable base: a move of slices resets its target first |
| PinnableSliceRuns.Conservation | include/slice.h:138-230 | from fresh slices and Cleanables each registered callback is pending in one object or has run, once per registration, exactly when the run loses no list |
| PinnableSliceObjects.ApplyMove | utils/slice.cc:214-239 | a move between members of a population keeps all slices valid and separate and takes the abstract step on views, callback lists and live nodes |
| PinnableSliceObjects.ApplyPinFrom | include/slice.h:169-176 | taking over the callbacks of any object of the population, another slice or the slice itself included, is the abstract step |
| PinnableSliceObjects.Apply | include/slice.h:144-230 | every operation on the objects is the abstract step on views and callback lists |
| PinnableSliceRuns.RunStrands | include/slice.h:144-230 | only operations on the Cleanable base strand nodes, in the exact number; moves of slices strand none |
| PinnableSliceObjects.RunAll | include/slice.h:144-230 | any run on any mixed population shows exactly the abstract run, callback order included, and adds to the leaked nodes exactly the number it strands |
| PinnableSliceObjects.ObjectsWellShown | include/slice.h:144-230 | what objects show always meets the premise of the plain-string theorem |
| IterKeys.IterKey.GetKey | db_format/dbformat.h:362 | returns the abstract key wherever it is stored |
| IterKeys.IterKey.GetUserKey | db_format/dbformat.h:369-376 | returns the abstract key without its footer, if it has one |
| IterKeys.IterKey.EnlargeBufferIfNeeded | db_format/dbformat.cc:171-179 | a larger request gets a buffer of exactly that size, any other keeps buffer and key size |
| IterKeys.IterKey.SetKeyImpl | db_format/dbformat.h:521-534 | the key becomes the given bytes, copied or pinned |
| IterKeys.IterKey.SetKey | db_format/dbformat.h:413-416 | the given bytes become the key, of the kind set before |
| IterKeys.IterKey.SetUserKey | db_format/dbformat.h:418-421 | the given bytes become the key, a user key |
| IterKeys.IterKey.SetInternalKey | db_format/dbformat.h:423-426 | the given bytes become the key, an internal key |
| IterKeys.IterKey.TrimAppend | db_format/dbformat.h:386-411 | the key becomes its shared prefix and the new bytes, in all three storage cases |
| IterKeys.IterKey.OwnKey | db_format/dbformat.h:439-445 | only the storage changes |
| IterKeys.IterKey.UpdateInternalKey | db_format/dbformat.h:449-454 | overwrites the footer in place |
| IterKeys.IterKey.SetInternalKeyParts | db_format/dbformat.h:458-479 | the key is the encoding of prefix, user key and timestamp with the footer |
| IterKeys.RunAll | db_format/dbformat.h:386-558 | over any run the key is the plain byte string's, owned keys fit the buffer, and it never shrinks below 32 bytes or its old size |
| IterKeys.StorageInvisible | db_format/dbformat.h:413-426 | runs that differ only in copying or pinning end in the same key |
| IterKeys.ReadUserKey | db_format/dbformat.h:369-376 | after any run whose last setter is SetUserKey(b), GetUserKey returns b |
| IterKeys.ReadInternalKey | db_format/dbformat.h:369-376 | after any run whose last setter is SetInternalKey of an encoded key, GetUserKey returns its user key, whatever footer updates follow |
| IterKeys.ReadPartsKey | db_format/dbformat.h:458-479 | after one that sets the parts, it returns prefix, user key and timestamp |
| IterKeys.ReadSameKind | db_format/dbformat.h:359-411 | trimming, appending, owning and replacing keep the kind of key: a user key is returned whole, an internal key without eight bytes |
| IterKeys.UpdateChangesFooterOnly | db_format/dbformat.h:449-454 | the updated key parses to the old user key with the new sequence and type |
| GearTable.GearBlock.AddBlock | tables/gear_table/gear_table.cc:23-32 | the block is header, values in order, filler, keys reversed, of the entries the `int` counter counts |
| GearTable.Added | tables/gear_table/gear_table.cc:25-29 | the counter counts all entries exactly when there are fewer than 2^31 |
| GearTable.AddedCount | tables/gear_table/gear_table.cc:25-29 | how many entries are added for any count, by its low 32 bits |
| GearTable.NoneAdded | tables/gear_table/gear_table.cc:25-29 | of 2^31 entries none is added |
| GearTable.GearBlock.ComposeResults | tables/gear_table/gear_table.cc:34-62 | writes the sixteen header words, values, filler and keys |
| GearTable.ToDiskFormat | tables/gear_table/gear_table.cc:69-88 | appends one block per 312 entries |
| GearTable.BlockSize | tables/gear_table/gear_table.cc:35-37 | a block is 8192 bytes exactly when its contents fit |
| GearTable.OversizedBlock | tables/gear_table/gear_table.cc:35-37 | 8129 bytes of values give a block of 8192 + 2^32 bytes |
| GearTable.BlockFits | db_format/on_board_format.h:12-18 | 312 entries always fit: the filler length never underflows |
| GearTable.ContentLayout | tables/gear_table/gear_table.cc:34-62 | for any content: the sixteen header words, eleven of them 0, the values, a filler of 'h' only, and the keys, each at its place |
| GearTable.HeaderFields | tables/gear_table/gear_table.cc:34-62 | the header read back gives the id, the entry count, the key and value bytes, and a filler of 'h' that completes 8192 |
| GearTable.GearLayout | tables/gear_table/gear_table.cc:69-88 | ceil(n/312) blocks; entry e has its value and key at the offsets of slot e % 312 of block e / 312 |
| GearTable.GearImage | tables/gear_table/gear_table.cc:69-88 | every block of the image, beside its entries: id 0, the counts, zero words, and 'h' from the values to the keys |
| GearTable.GearRoundTrip | tables/gear_table/gear_table.cc:69-88 | a reader of those offsets recovers both lists, and the format is injective |
| PlainTable.PlainTable.ToDiskFormat | tables/plain_table/plain_table.cc:7-13 | appends the records back to back |
| PlainTable.PlainTable.Load | include/stream_merger.cc:165-183 | what was read, however much, survives the double reversal |
| PlainTable.InBounds | include/stream_merger.cc:195-205 | the loop stays inside the 512 MiB buffer exactly for sizes up to 536870906 |
| PlainTable.LastSliceOverruns | include/stream_merger.cc:195-205 | with one byte more its last slice runs past the end |
| PlainTable.PlainTable.NextEntry | include/stream_merger.cc:21-29 | the 26 bytes at the cursor, and the offset behind them |
| PlainTable.LoadEntries | include/stream_merger.cc:195-205 | the loop terminates with every 26-byte slice of the file in order |
| PlainTable.EverySlice | include/stream_merger.cc:21-29 | the slices cover the file, none lies wholly behind it, and each is the 26 bytes at its place |
| PlainTable.LoadAll | include/stream_merger.cc:192-205 | over all files: exactly their entries, in order, and the right count |
| PlainTable.FileRoundTrip | tables/plain_table/plain_table.cc:7-13 | the slices of a written file, with any bytes behind it, are the n records |
| PlainTable.ShortRead | tables/table_builder.cc:26-35 | after a short read the whole records come first and at most one other slice follows |
| PlainTable.WriteThenLoad | include/stream_merger.cc:165-205 | writing and loading returns the records |
| Arbitration.BaselineMerger.Arbitrate | include/stream_merger.cc:106-157 | which entry is dropped under each rule, what is emitted and what is abandoned |
| Arbitration.BaselineMerger.DriveAsWritten | include/stream_merger.cc:212-218 | the source's loop accepts every entry, writes no result and abandons nothing |
| Arbitration.BaselineMerger.Drive | include/stream_merger.cc:106-157 | driven over a stream as intended it emits position by position the entry or its tombstone; abandoned are exactly the replaced ones |
| Arbitration.TombstoneFields | include/stream_merger.cc:96-104 | a tombstone parses to the same user key and sequence with the deletion type, and keeps the value |
| Arbitration.TombstoneBytes | include/stream_merger.cc:96-104 | a tombstone differs from the entry in its ninth byte alone, which is 0 |
| Arbitration.DroppedBytes | include/stream_merger.cc:115-154 | on any stream, by the bytes of an entry and the next one, which entries each rule drops |
| Arbitration.EmittedBytes | include/stream_merger.cc:96-157 | each emitted entry byte by byte |
| Arbitration.AbandonedCons | include/stream_merger.cc:115-154 | on any stream an entry is abandoned exactly if it is dropped, in order |
| Arbitration.EmittedFields | include/stream_merger.cc:96-157 | what each emitted entry parses to |
| Arbitration.EmittedSorted | include/stream_merger.cc:106-157 | a strictly sorted stream stays so exactly when no dropped entry is followed by one of the same version |
| Arbitration.EmittedAscending | include/stream_merger.cc:106-157 | a stream with duplicates stays ascending exactly when each dropped entry followed by one of its version is followed by a deletion |
| Arbitration.DuplicatesBreakOrder | include/stream_merger.cc:116-126 | of two identical entries the first is abandoned and its tombstone precedes the second |
| Arbitration.EqualVersionsBreakOrder | include/stream_merger.cc:115-126 | two entries of one version whose emitted form is out of order |
| Arbitration.RulesOnSortedStreams | include/stream_merger.cc:115-154 | on ascending streams, duplicates admitted, the pairwise decisions are properties of the whole stream |
| Arbitration.OldestSurvives | include/stream_merger.cc:116-126 | on such streams one entry per user key survives, and no other has a smaller sequence |
| Arbitration.KeptAndAbandoned | include/stream_merger.cc:106-157 | what is abandoned is the stream at the dropped positions; what is emitted elsewhere is the stream there, unchanged |
| Arbitration.TombstonesOfAbandoned | include/stream_merger.cc:96-157 | what is emitted at the dropped positions is the tombstones of what is abandoned, in order |
| Random.GoodSeedValue | include/random.h:29 | the low 31 bits, or 1; always in [1, M] |
| Random.FastReduction | include/random.h:41-59 | the fold overflows neither word and with one subtraction is the exact remainder |
| Random.Random.Next | include/random.h:41-59 | the 64/32-bit code takes the mathematical step |
| Random.Random.Skip | include/random.h:41-59 | after k calls the state is seed * 16807^k mod M, in [1, M-1] |
| Random.StepBijective | include/random.h:41-59 | the step is injective and onto [1, M-1] |
| Random.StuckAtM | include/random.h:42-47 | from M the state never changes |
| RandomPeriod.OrderIsFull | include/random.h:45-47 | 16807 has multiplicative order M-1 modulo M |
| RandomPeriod.FullCycle | include/random.h:45-47 | from any good seed every number in [1, M-1] comes up exactly once in M-1 states |
| RandomPeriod.ReachesEverything | include/random.h:29-47 | a constructed generator does so exactly when the seed's low 31 bits are not all ones |
| KeyGenerator.BigEndianOrder | tools/gear_bench_classes.cc:39-43 | big-endian strings compare as the numbers modulo 256^n |
| KeyGenerator.KeyOrder | tools/gear_bench_classes.cc:28-52 | for all numbers, keys compare as the numbers modulo num_keys and then modulo 256^min(key_size, 8) |
| KeyGenerator.KeyBytes | tools/gear_bench_classes.cc:36-50 | for all numbers, the leading bytes denote the number modulo num_keys, and every later byte is '0' |
| KeyGenerator.KeysKeepOrder | tools/gear_bench_classes.cc:28-52 | keys keep integer order, and are distinct, exactly when num_keys <= 256^min(key_size, 8) |
| KeyGenerator.KeysCollide | tools/gear_bench_classes.cc:28-52 | the first and the last of 257 one-byte keys are the same |
| KeyGenerator.GenerateKeyFromInt | tools/gear_bench_classes.cc:36-51 | fills the buffer with the big-endian number and '0' padding, and touches nothing behind |
| DecimalNumber.ConsumeDecimalNumber | utils/string_util.cc:157-179 | succeeds exactly when the digit prefix is below 2^64 and its length is positive as an `int`; value, bytes removed, and bytes removed on failure |
| DecimalNumber.AcceptedIsReadable | utils/string_util.cc:159-178 | that is every non-empty prefix below 2^64, exactly unless its length modulo 2^32 is 0 or from 2^31 on |
| DecimalNumber.ConsumedIsLongest | utils/string_util.cc:160-176 | what is removed is the longest prefix of digits whose value fits 64 bits |
| DecimalNumber.TooManyZeros | utils/string_util.cc:159-178 | 2^31 zeros denote 0 and are refused |
| DecimalNumber.ValueMonotone | utils/string_util.cc:163-172 | more digits never decrease the value, so the first overflow decides |

## Left out

- Arbitration.BaselineMerger.Drive: the intended loop; the source's own one (`DriveAsWritten`) never sets `last_entry`. `EncodeDeletedKey` (include/stream_merger.cc:96-104) returns a slice into a local string that is gone when it returns; the model takes it as a value.
- Bytes.CompareNegative: only the sign of memcmp is modelled, not its magnitude.
- PinnableSliceObjects.RunAll: pins memory that no slice of the population writes, and slices do not share a caller's string; bytes written through `GetSelf()` before `PinSelf()` are not an operation of the run.
- PinnableSlices.PinnableSlice.MoveFrom: two different slices over one caller's string are not separate, so a write to one would show in the other.
- Cleanables.Cleanable.DoCleanup: callbacks are logged and do nothing else. One that registers on the object being reset is outside the model: from the second callback on, its registration lands behind the cursor and `Reset` drops it (utils/cleanable.h:63-73), another way to lose a callback.
- IterKeys.IterKey.SetKeyImpl: the given bytes lie outside the key's own buffers, as `memcpy` requires of a copy; a pin into them would be freed or overwritten by the next copy.
- IterKeys.IterKey.TrimAppend: likewise.
- IterKeys.RunAll: the bytes given to a set-key call lie outside the key's own buffers; `Reserve` on an owned key and `EncodeLengthPrefixedKey`, which leaves the size alone, are not modelled.
- GearTable.ToDiskFormat: the block id is 0 in every block, as in the source, which never increments it; `FromDiskFormat` is a stub there, so the reader is a reference definition.
- PlainTable.PlainTable.Load: one read call that does not fail; what it does not fill is arbitrary.
- PlainTable.LoadEntries: only where `PlainTable.InBounds` holds; past the buffer the source reads memory that is not its own.
- KeyGenerator.GenerateKeyFromInt: little-endian hosts, and a caller's buffer; with a null key the source writes through an empty slice.
- InternalKeys.KeyComparorIsInternalOrder: keys shorter than 8 bytes leave the source's fields unset; `stream_merger_heap::KeyComparor` parses its first argument twice and is not modelled; nothing is claimed about the order a heap pops entries in.
- The user comparator is a record of functions with a contract, not a class hierarchy; timestamps inside user keys are part of the comparison.
- The fixed-width codec models little-endian hosts; 16-bit forms would repeat the wider ones.
- The move constructor of PinnableSlice, which leaves `buf_` unset when the source is pinned.
- `Merger::DoFilter`, `DropRedundantKeys`, `PickUniqueVersion`: they read the back of a vector just cleared.
- On-board blocks and their readers: no writer matches the readers' offsets.
- Table files, flushing, FPGA stubs, `Status`, formatting, the benchmark driver, `port/`: plumbing or system calls.
- `BlockBasedTable`, `CuckooTable`: empty bodies. `SliceTransform`, `UserComparatorWrapper`, `Random32`, `Random64`: easy or built on library code.
