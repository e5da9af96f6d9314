/** GearTable's disk format: 8 KiB blocks with a 64-byte header, values growing forward after it and
    keys growing backward from the end. */
module GearTable {
  import opened Bits
  import opened Bytes
  import opened Coding
  import opened Format

  const FILLER: byte := 104
  const TWO_32: nat := 0x1_0000_0000

  /** `BLOCK_SIZE - (HEADER_LENGTH + keys + values)`, truncated to an unsigned 32-bit word. */
  function PlaceholderLength(keyBytes: nat, valueBytes: nat): nat {
    (BLOCK_SIZE - (HEADER_LENGTH + keyBytes + valueBytes)) % TWO_32
  }

  /** Consecutive little-endian 32-bit words. */
  function Words(ws: seq<u32>): (s: Bytes)
    ensures |s| == 4 * |ws|
  {
    if ws == [] then [] else LittleEndian(ws[0], 4) + Words(ws[1..])
  }

  /** Sixteen words: five fields and eleven unused ones. */
  function HeaderWords(id: nat, count: nat, keyBytes: nat, valueBytes: nat): (ws: seq<u32>)
    ensures |ws| == 16 && ws[1] == count % TWO_32
  {
    [id % TWO_32, count % TWO_32, keyBytes % TWO_32, valueBytes % TWO_32,
     PlaceholderLength(keyBytes, valueBytes), 0, 0, 0, 0, 0, 0, 0, 0, 0, 0, 0]
  }

  function Header(id: nat, count: nat, keyBytes: nat, valueBytes: nat): (h: Bytes)
    ensures |h| == HEADER_LENGTH
  {
    Words(HeaderWords(id, count, keyBytes, valueBytes))
  }

  /** One block: header, values in order, filler, keys in reverse order. */
  function Block(id: nat, keys: seq<Bytes>, values: seq<Bytes>): Bytes {
    Content(id, |keys|, Concat(Reverse(keys)), Concat(values))
  }

  function Content(id: nat, count: nat, kc: Bytes, vc: Bytes): Bytes {
    Header(id, count, |kc|, |vc|) + vc + Repeat(FILLER, PlaceholderLength(|kc|, |vc|)) + kc
  }

  /** How many entries the loop over an `int` counter adds. */
  function Added(n: nat): (m: nat)
    ensures m <= n
    ensures m == n <==> n < 0x8000_0000
  {
    if Int32(n) > 0 then Int32(n) else 0
  }

  /** The count is what the low 32 bits denote as a signed word, if that is positive. */
  lemma AddedCount(n: nat)
    ensures var low := n % TWO_32; Added(n) == if low < 0x8000_0000 then low else 0
  {}

  /** The first count that is lost: it comes out negative, and no entry is added. */
  lemma NoneAdded()
    ensures Added(0x8000_0000) == 0
  {}

  /** The header holds the count's 32 bits, whatever their sign. */
  lemma WrappedCount(id: nat, n: nat, kc: Bytes, vc: Bytes)
    ensures Content(id, Int32(n) % TWO_32, kc, vc) == Content(id, n, kc, vc)
  {
    WrappedWord(n);
  }

  lemma WrappedWord(n: nat)
    ensures Int32(n) % TWO_32 % TWO_32 == n % TWO_32
  {}

  type BlockWriter = (seq<Bytes>, seq<Bytes>) -> Bytes

  /** What ToDiskFormat writes for up to 312 entries: every block carries id 0. */
  const GEAR: BlockWriter := (keys, values) => Block(0, keys, values)

  /** The whole table: a block per 312 entries. */
  function Disk(block: BlockWriter, keys: seq<Bytes>, values: seq<Bytes>): Bytes
    requires |keys| == |values|
    decreases |keys|
  {
    if keys == [] then []
    else
      var n := Min(MAX_ENTRY_IN_BLOCK, |keys|);
      block(keys[..n], values[..n]) + Disk(block, keys[n..], values[n..])
  }

  // ---------------------------------------------------------------- the writer

  class GearBlock {
    const blockId: nat
    var numOfEntries: int
    var keyContent: Bytes
    var valueContent: Bytes
    var contentBlock: ByteString

    constructor (id: nat)
      ensures blockId == id && numOfEntries == 0 && keyContent == valueContent == []
      ensures fresh(contentBlock) && contentBlock.bytes == []
    {
      blockId, numOfEntries, keyContent, valueContent := id, 0, [], [];
      contentBlock := new ByteString([]);
    }

    /** AddBlock on a new block.  The entry count is an `int`: from 2^31 entries on it wraps, and only
        the entries it counts are added. */
    method AddBlock(keys: seq<Bytes>, values: seq<Bytes>)
      requires |keys| == |values| && keyContent == valueContent == [] && contentBlock.bytes == []
      modifies this, contentBlock
      ensures contentBlock == old(contentBlock)
      ensures var n := Added(|keys|);
              contentBlock.bytes == Content(blockId, |keys|, Concat(Reverse(keys[..n])), Concat(values[..n]))
      ensures |keys| < 0x8000_0000 ==> contentBlock.bytes == Block(blockId, keys, values)
    {
      numOfEntries := Int32(|keys|);
      var n := Added(|keys|);
      ghost var ks := keys[..n];
      for i := 0 to n
        invariant contentBlock == old(contentBlock) && contentBlock.bytes == [] && numOfEntries == Int32(|keys|)
        invariant keyContent == Concat(Reverse(ks)[..i])
        invariant valueContent == Concat(values[..i])
      {
        ReverseAt(ks, i);
        ConcatAppend(Reverse(ks), i);
        ConcatAppend(values, i);
        keyContent := keyContent + keys[n - i - 1];
        valueContent := valueContent + values[i];
      }
      assert Reverse(ks)[..n] == Reverse(ks);
      ComposeResults();
      WrappedCount(blockId, |keys|, keyContent, valueContent);
      assert n == |keys| ==> keys[..n] == keys && values[..n] == values;
    }

    method ComposeResults()
      requires contentBlock.bytes == []
      modifies contentBlock
      ensures contentBlock.bytes == Content(blockId, numOfEntries % TWO_32, keyContent, valueContent)
    {
      var placeholder := PlaceholderLength(|keyContent|, |valueContent|);
      PutWords(contentBlock, HeaderWords(blockId, numOfEntries % TWO_32, |keyContent|, |valueContent|));
      contentBlock.bytes := contentBlock.bytes + valueContent;
      contentBlock.bytes := contentBlock.bytes + Repeat(FILLER, placeholder);
      contentBlock.bytes := contentBlock.bytes + keyContent;
    }
  }

  /** A row of PutFixed32 calls. */
  method PutWords(dst: ByteString, ws: seq<u32>)
    modifies dst
    ensures dst.bytes == old(dst.bytes) + Words(ws)
  {
    for i := 0 to |ws|
      invariant dst.bytes + Words(ws[i..]) == old(dst.bytes) + Words(ws)
    {
      AppendAssociative(dst.bytes, LittleEndian(ws[i], 4), Words(ws[i + 1..]));
      assert ws[i..][1..] == ws[i + 1..];
      PutFixed32(dst, ws[i]);
    }
    assert Words(ws[|ws|..]) == [];
  }

  /** GearTable::ToDiskFormat: appends the table to the buffer. */
  method ToDiskFormat(keyList: seq<Bytes>, valueList: seq<Bytes>, buffer: ByteString)
    requires |keyList| == |valueList|
    modifies buffer
    ensures buffer.bytes == old(buffer.bytes) + Disk(GEAR, keyList, valueList)
  {
    var i := 0;
    ghost var goal := buffer.bytes + Disk(GEAR, keyList, valueList);
    while i < |keyList|
      invariant 0 <= i
      invariant var k := Min(i, |keyList|); buffer.bytes + Disk(GEAR, keyList[k..], valueList[k..]) == goal
    {
      var end := if i + MAX_ENTRY_IN_BLOCK > |keyList| then |keyList| else i + MAX_ENTRY_IN_BLOCK;
      var temp := new GearBlock(0);
      temp.AddBlock(keyList[i..end], valueList[i..end]);
      DiskStep(GEAR, keyList, valueList, i, end);
      AppendAssociative(buffer.bytes, temp.contentBlock.bytes, Disk(GEAR, keyList[end..], valueList[end..]));
      buffer.bytes := buffer.bytes + temp.contentBlock.bytes;
      i := i + MAX_ENTRY_IN_BLOCK;
    }
    assert Disk(GEAR, keyList[|keyList|..], valueList[|keyList|..]) == [];
  }

  lemma DiskStep(block: BlockWriter, keys: seq<Bytes>, values: seq<Bytes>, i: nat, end: nat)
    requires |keys| == |values| && i < |keys| && end == Min(i + MAX_ENTRY_IN_BLOCK, |keys|)
    ensures Disk(block, keys[i..], values[i..])
         == block(keys[i..end], values[i..end]) + Disk(block, keys[end..], values[end..])
  {
    var ks, vs, n := keys[i..], values[i..], end - i;
    assert ks[..n] == keys[i..end] && vs[..n] == values[i..end];
    assert ks[n..] == keys[end..] && vs[n..] == values[end..];
  }

  // ---------------------------------------------------------------- layout

  /** A block is 8 KiB exactly when its contents fit; otherwise the filler's length wraps around. */
  lemma BlockSize(id: nat, keys: seq<Bytes>, values: seq<Bytes>)
    ensures |Block(id, keys, values)| == BLOCK_SIZE <==>
            HEADER_LENGTH + |Concat(Reverse(keys))| + |Concat(values)| <= BLOCK_SIZE
  {}

  /** 8129 bytes of values and no key bytes: the filler takes 2^32 - 1 bytes. */
  lemma OversizedBlock(value: Bytes)
    requires |value| == 8129
    ensures |Block(0, [[]], [value])| == BLOCK_SIZE + TWO_32
  {
    SingleEntry([], value);
    ContentSize(0, 1, [], value);
  }

  lemma SingleEntry(key: Bytes, value: Bytes)
    ensures Block(0, [key], [value]) == Content(0, 1, key, value)
  {
    ConcatOne(key);
    ConcatOne(value);
    assert [key][1..] == [];
    assert Reverse([key]) == [key];
  }

  lemma ConcatOne(s: Bytes)
    ensures Concat([s]) == s
  {
    assert [s][1..] == [];
  }

  lemma ContentSize(id: nat, count: nat, kc: Bytes, vc: Bytes)
    ensures |Content(id, count, kc, vc)| == HEADER_LENGTH + |kc| + |vc| + PlaceholderLength(|kc|, |vc|)
  {}

  lemma ReverseUniform(keys: seq<Bytes>, width: nat)
    requires Uniform(keys, width)
    ensures Uniform(Reverse(keys), width)
  {
    forall i | 0 <= i < |keys| ensures |Reverse(keys)[i]| == width {
      ReverseAt(keys, i);
    }
  }

  /** A full block of 312 entries leaves room for the filler, which never underflows. */
  lemma BlockFits(id: nat, keys: seq<Bytes>, values: seq<Bytes>)
    requires Entries(keys, values) && |keys| <= MAX_ENTRY_IN_BLOCK
    ensures |Block(id, keys, values)| == BLOCK_SIZE
    ensures |Concat(Reverse(keys))| == 16 * |keys| && |Concat(values)| == 10 * |keys|
  {
    ReverseUniform(keys, KEY_LENGTH);
    UniformConcat(Reverse(keys), KEY_LENGTH);
    UniformConcat(values, VALUE_LENGTH);
  }

  /** Value v and key k lie in slot j of block b of the image. */
  predicate InSlot(d: Bytes, b: nat, j: nat, k: Bytes, v: Bytes) {
    var start, end := BLOCK_SIZE * b, BLOCK_SIZE * (b + 1);
    var at := start + HEADER_LENGTH + VALUE_LENGTH * j;
    && j < MAX_ENTRY_IN_BLOCK && |d| >= end
    && d[at..at + VALUE_LENGTH] == v
    && d[end - KEY_LENGTH * (j + 1)..end - KEY_LENGTH * j] == k
  }

  lemma FramedSlot(header: Bytes, vc: Bytes, filler: Bytes, kc: Bytes, n: nat, j: nat)
    requires |header| == 64 && |vc| == 10 * n && |kc| == 16 * n && j < n <= 312
    requires |header + vc + filler + kc| == 8192
    ensures var k, v := kc[16 * (n - 1 - j)..16 * (n - 1 - j) + 16], vc[10 * j..10 * j + 10];
            InSlot(header + vc + filler + kc, 0, j, k, v)
  {
    var d, x, y, z := header + vc + filler + kc, 64 + 10 * j, 8192 - 16 * (j + 1), 16 * (n - 1 - j);
    assert d[x..x + 10] == vc[10 * j..10 * j + 10];
    assert d[y..y + 16] == kc[z..z + 16];
  }

  /** Where entry j of a block lies. */
  lemma BlockLayout(id: nat, keys: seq<Bytes>, values: seq<Bytes>, j: nat)
    requires Entries(keys, values) && |keys| <= MAX_ENTRY_IN_BLOCK && j < |keys|
    ensures InSlot(Block(id, keys, values), 0, j, keys[j], values[j])
  {
    BlockFits(id, keys, values);
    var kc, vc, n := Concat(Reverse(keys)), Concat(values), |keys|;
    FramedSlot(Header(id, n, |kc|, |vc|), vc, Repeat(FILLER, PlaceholderLength(|kc|, |vc|)), kc, n, j);
    ReverseUniform(keys, KEY_LENGTH);
    UniformAt(values, VALUE_LENGTH, j);
    UniformAt(Reverse(keys), KEY_LENGTH, n - 1 - j);
    ReverseAt(keys, n - 1 - j);
  }

  function Blocks(n: nat): nat {
    (n + MAX_ENTRY_IN_BLOCK - 1) / MAX_ENTRY_IN_BLOCK
  }

  datatype Table = Table(keys: seq<Bytes>, values: seq<Bytes>)

  /** Reads one block: the entry count from the header, then the entries by their offsets. */
  function ReadBlock(b: Bytes): Option<Table> {
    if |b| != BLOCK_SIZE then None
    else
      var n := FromLittleEndian(b[4..8]);
      if n > MAX_ENTRY_IN_BLOCK then None
      else Some(Table(seq(n, j requires 0 <= j < n => b[8192 - 16 * (j + 1)..8192 - 16 * j]),
                      seq(n, j requires 0 <= j < n => b[64 + 10 * j..64 + 10 * j + 10])))
  }

  function ReadDisk(d: Bytes): Option<Table>
    decreases |d|
  {
    if d == [] then Some(Table([], []))
    else if |d| < BLOCK_SIZE then None
    else match ReadBlock(d[..BLOCK_SIZE])
      case None => None
      case Some(t) =>
        match ReadDisk(d[BLOCK_SIZE..])
        case None => None
        case Some(u) => Some(Table(t.keys + u.keys, t.values + u.values))
  }

  /** A block writer that fills 8 KiB, puts every entry in its slot, and can be read back. */
  ghost predicate Sound(block: BlockWriter) {
    forall ks, vs :: Entries(ks, vs) && |ks| <= MAX_ENTRY_IN_BLOCK ==>
      && |block(ks, vs)| == BLOCK_SIZE
      && ReadBlock(block(ks, vs)) == Some(Table(ks, vs))
      && (forall j :: 0 <= j < |ks| ==> InSlot(block(ks, vs), 0, j, ks[j], vs[j]))
  }

  lemma {:induction false} WordAt(ws: seq<u32>, i: nat)
    requires i < |ws|
    ensures Words(ws)[4 * i..4 * i + 4] == LittleEndian(ws[i], 4)
  {
    var first, t := LittleEndian(ws[0], 4), Words(ws[1..]);
    if i > 0 {
      WordAt(ws[1..], i - 1);
      SliceBehind(first, t, 4 * (i - 1), 4 * (i - 1) + 4);
    } else {
      assert (first + t)[0..4] == first;
    }
  }

  lemma SliceBehind(first: Bytes, t: Bytes, x: nat, y: nat)
    requires x <= y <= |t|
    ensures (first + t)[|first| + x..|first| + y] == t[x..y]
  {}

  lemma WordRoundTrip(v: u32)
    ensures FromLittleEndian(LittleEndian(v, 4)) == v
  {
    Pow2At32();
    FixedRoundTrip(v, 4);
  }

  function Field(b: Bytes, i: nat): nat
    requires 4 * i + 4 <= |b|
  {
    FromLittleEndian(b[4 * i..4 * i + 4])
  }

  /** The i-th 32-bit field of a string that starts with these words. */
  lemma FieldAt(b: Bytes, ws: seq<u32>, i: nat)
    requires |b| >= 4 * |ws| && b[..4 * |ws|] == Words(ws) && i < |ws|
    ensures Field(b, i) == ws[i]
  {
    WordAt(ws, i);
    SliceOfPrefix(b, Words(ws), 4 * i, 4 * i + 4);
    WordRoundTrip(ws[i]);
  }

  lemma BlockStartsWithHeader(id: nat, keys: seq<Bytes>, values: seq<Bytes>)
    ensures var b, kc, vc := Block(id, keys, values), Concat(Reverse(keys)), Concat(values);
            |b| >= 64 && b[..64] == Words(HeaderWords(id, |keys|, |kc|, |vc|))
  {}

  /** The sixteen header words of any content, and what lies behind them: the values, the filler, which
      is all 'h', and the keys. */
  lemma ContentLayout(id: nat, count: nat, kc: Bytes, vc: Bytes)
    ensures var c, filler := Content(id, count, kc, vc), PlaceholderLength(|kc|, |vc|);
            && |c| == 64 + |vc| + filler + |kc| && c[64..64 + |vc|] == vc && c[|c| - |kc|..] == kc
            && (forall x :: 64 + |vc| <= x < |c| - |kc| ==> c[x] == 104)
            && Field(c, 0) == id % TWO_32 && Field(c, 1) == count % TWO_32
            && Field(c, 2) == |kc| % TWO_32 && Field(c, 3) == |vc| % TWO_32 && Field(c, 4) == filler
            && (forall x :: 20 <= x < 64 ==> c[x] == 0)
  {
    var c, ws := Content(id, count, kc, vc), HeaderWords(id, count, |kc|, |vc|);
    ContentSize(id, count, kc, vc);
    FramedContent(Words(ws), vc, PlaceholderLength(|kc|, |vc|), kc);
    FieldAt(c, ws, 0);
    FieldAt(c, ws, 1);
    FieldAt(c, ws, 2);
    FieldAt(c, ws, 3);
    FieldAt(c, ws, 4);
    forall x | 20 <= x < 64 ensures c[x] == 0 {
      ZeroWords(ws, 5, x);
      assert c[..64][x] == c[x];
    }
  }

  /** Zero words are zero bytes. */
  lemma {:induction false} ZeroWords(ws: seq<u32>, k: nat, x: nat)
    requires k <= |ws| && 4 * k <= x < 4 * |ws| && forall i :: k <= i < |ws| ==> ws[i] == 0
    ensures Words(ws)[x] == 0
  {
    if x >= 4 {
      ZeroWords(ws[1..], if k > 0 then k - 1 else 0, x - 4);
    } else {
      ZeroWord(ws[0], 4, x);
    }
  }

  lemma ZeroWord(v: nat, n: nat, k: nat)
    requires v == 0 && k < n
    ensures LittleEndian(v, n)[k] == 0
  {
    ZeroDigits(n, k);
  }

  lemma {:induction false} ZeroDigits(n: nat, k: nat)
    requires k < n
    ensures LittleEndian(0, n)[k] == 0
  {
    if k > 0 { ZeroDigits(n - 1, k - 1); }
  }

  lemma FramedContent(header: Bytes, vc: Bytes, filler: nat, kc: Bytes)
    requires |header| == 64
    ensures var c := header + vc + Repeat(FILLER, filler) + kc;
            && c[..64] == header && c[64..64 + |vc|] == vc && c[|c| - |kc|..] == kc
            && (forall x :: 64 + |vc| <= x < |c| - |kc| ==> c[x] == FILLER)
  {}

  /** The header describes the block: how many entries, how many bytes of keys and of values, and a
      filler that makes up exactly what is left of the 8 KiB; between them lie only filler bytes. */
  lemma HeaderFields(id: nat, keys: seq<Bytes>, values: seq<Bytes>)
    requires Entries(keys, values) && |keys| <= MAX_ENTRY_IN_BLOCK
    ensures |Block(id, keys, values)| == BLOCK_SIZE
    ensures Described(Block(id, keys, values), 0, id % TWO_32, |keys|)
  {
    BlockFits(id, keys, values);
    DescribedContent(id, |keys|, Concat(Reverse(keys)), Concat(values));
  }

  lemma DescribedContent(id: nat, n: nat, kc: Bytes, vc: Bytes)
    requires n <= 312 && |kc| == 16 * n && |vc| == 10 * n
    ensures Described(Content(id, n, kc, vc), 0, id % TWO_32, n)
  {
    FillerLength(n);
    ContentLayout(id, n, kc, vc);
    DescribedFlat(Content(id, n, kc, vc), id % TWO_32, n);
  }

  lemma FillerLength(n: nat)
    requires n <= 312
    ensures PlaceholderLength(16 * n, 10 * n) == 8192 - 64 - 26 * n
    ensures 16 * n % TWO_32 == 16 * n && 10 * n % TWO_32 == 10 * n && n % TWO_32 == n
  {}

  lemma DescribedFlat(c: Bytes, id: nat, n: nat)
    requires |c| == 8192 && n <= 312
    requires Field(c, 0) == id && Field(c, 1) == n && Field(c, 2) == 16 * n && Field(c, 3) == 10 * n
    requires Field(c, 4) == 8192 - 64 - 26 * n && forall x :: 20 <= x < 64 ==> c[x] == 0
    requires forall x :: 64 + 10 * n <= x < 8192 - 16 * n ==> c[x] == 104
    ensures Described(c, 0, id, n)
  {}

  /** Block b of an image carries this id and n entries, its unused words are 0 and its filler is 'h'. */
  predicate Described(d: Bytes, b: nat, id: nat, n: nat) {
    && |d| >= 8192 * (b + 1) && n <= 312
    && Field(d, 2048 * b) == id && Field(d, 2048 * b + 1) == n
    && Field(d, 2048 * b + 2) == 16 * n && Field(d, 2048 * b + 3) == 10 * n
    && Field(d, 2048 * b + 4) == 8192 - 64 - 26 * n
    && (forall x :: 8192 * b + 20 <= x < 8192 * b + 64 ==> d[x] == 0)
    && (forall x :: 8192 * b + 64 + 10 * n <= x < 8192 * (b + 1) - 16 * n ==> d[x] == 104)
  }

  lemma ReadSlots(b: Bytes, keys: seq<Bytes>, values: seq<Bytes>)
    requires |b| == BLOCK_SIZE && |keys| == |values| <= MAX_ENTRY_IN_BLOCK
    requires FromLittleEndian(b[4..8]) == |keys|
    requires forall j :: 0 <= j < |keys| ==> InSlot(b, 0, j, keys[j], values[j])
    ensures ReadBlock(b) == Some(Table(keys, values))
  {
    var t := ReadBlock(b).value;
    forall j | 0 <= j < |keys| ensures t.keys[j] == keys[j] && t.values[j] == values[j] {
      assert InSlot(b, 0, j, keys[j], values[j]);
      assert 8192 * 0 + 64 + 10 * j == 64 + 10 * j && 8192 * (0 + 1) - 16 * (j + 1) == 8192 - 16 * (j + 1);
    }
    assert t.keys == keys && t.values == values;
  }

  /** The gear block writer is sound. */
  lemma GearIsSound()
    ensures Sound(GEAR)
  {
    forall ks, vs | Entries(ks, vs) && |ks| <= MAX_ENTRY_IN_BLOCK
      ensures && |GEAR(ks, vs)| == BLOCK_SIZE && ReadBlock(GEAR(ks, vs)) == Some(Table(ks, vs))
              && (forall j :: 0 <= j < |ks| ==> InSlot(GEAR(ks, vs), 0, j, ks[j], vs[j]))
    {
      BlockFits(0, ks, vs);
      HeaderFields(0, ks, vs);
      forall j | 0 <= j < |ks| ensures InSlot(Block(0, ks, vs), 0, j, ks[j], vs[j]) {
        BlockLayout(0, ks, vs, j);
      }
      ReadSlots(Block(0, ks, vs), ks, vs);
    }
  }

  lemma ChunkEntries(keys: seq<Bytes>, values: seq<Bytes>, n: nat)
    requires Entries(keys, values) && n <= |keys|
    ensures Entries(keys[..n], values[..n]) && Entries(keys[n..], values[n..])
  {}

  lemma {:induction false} DiskSize(block: BlockWriter, keys: seq<Bytes>, values: seq<Bytes>)
    requires Sound(block) && Entries(keys, values)
    ensures |Disk(block, keys, values)| == BLOCK_SIZE * Blocks(|keys|)
    decreases |keys|
  {
    if keys != [] {
      var n := Min(MAX_ENTRY_IN_BLOCK, |keys|);
      ChunkEntries(keys, values, n);
      assert |block(keys[..n], values[..n])| == BLOCK_SIZE;
      DiskSize(block, keys[n..], values[n..]);
    }
  }

  lemma SlotOfPrefix(first: Bytes, rest: Bytes, j: nat, k: Bytes, v: Bytes)
    requires |first| == BLOCK_SIZE && InSlot(first, 0, j, k, v)
    ensures InSlot(first + rest, 0, j, k, v)
  {
    var d, x, y := first + rest, 64 + 10 * j, 8192 - 16 * (j + 1);
    assert d[x..x + 10] == first[x..x + 10];
    assert d[y..y + 16] == first[y..y + 16];
  }

  lemma SlotOfSuffix(first: Bytes, rest: Bytes, b: nat, j: nat, k: Bytes, v: Bytes)
    requires |first| == BLOCK_SIZE && InSlot(rest, b, j, k, v)
    ensures InSlot(first + rest, b + 1, j, k, v)
  {
    var d, x, y := first + rest, 8192 * b + 64 + 10 * j, 8192 * (b + 1) - 16 * (j + 1);
    assert d[x + 8192..x + 8192 + 10] == rest[x..x + 10];
    assert d[y + 8192..y + 8192 + 16] == rest[y..y + 16];
  }

  lemma FirstBlockSlot(block: BlockWriter, keys: seq<Bytes>, values: seq<Bytes>, j: nat)
    requires Sound(block) && Entries(keys, values) && j < 312 && j < |keys|
    ensures InSlot(Disk(block, keys, values), 0, j, keys[j], values[j])
  {
    var n := Min(MAX_ENTRY_IN_BLOCK, |keys|);
    ChunkEntries(keys, values, n);
    var first := block(keys[..n], values[..n]);
    assert InSlot(first, 0, j, keys[..n][j], values[..n][j]);
    SlotOfPrefix(first, Disk(block, keys[n..], values[n..]), j, keys[j], values[j]);
  }

  lemma LaterBlockSlot(block: BlockWriter, keys: seq<Bytes>, values: seq<Bytes>, b: nat, j: nat, k: Bytes, v: Bytes)
    requires Sound(block) && Entries(keys, values) && |keys| > 312
    requires InSlot(Disk(block, keys[312..], values[312..]), b, j, k, v)
    ensures InSlot(Disk(block, keys, values), b + 1, j, k, v)
  {
    ChunkEntries(keys, values, 312);
    var first := block(keys[..312], values[..312]);
    assert |first| == BLOCK_SIZE;
    SlotOfSuffix(first, Disk(block, keys[312..], values[312..]), b, j, k, v);
  }

  lemma {:induction false} DiskSlots(
    block: BlockWriter, keys: seq<Bytes>, values: seq<Bytes>, b: nat, j: nat, k: Bytes, v: Bytes)
    requires Sound(block) && Entries(keys, values) && j < 312 && 312 * b + j < |keys|
    requires keys[312 * b + j] == k && values[312 * b + j] == v
    ensures InSlot(Disk(block, keys, values), b, j, k, v)
    decreases b
  {
    if b == 0 {
      FirstBlockSlot(block, keys, values, j);
    } else {
      ChunkEntries(keys, values, 312);
      DiskSlots(block, keys[312..], values[312..], b - 1, j, k, v);
      LaterBlockSlot(block, keys, values, b - 1, j, k, v);
    }
  }

  /** Block b of the image is the block of its entries. */
  lemma {:induction false} DiskBlock(
    block: BlockWriter, keys: seq<Bytes>, values: seq<Bytes>, b: nat, from: nat, n: nat)
    requires Sound(block) && Entries(keys, values) && from == 312 * b < |keys| && n == Min(312, |keys| - from)
    ensures |Disk(block, keys, values)| >= 8192 * (b + 1)
    ensures Disk(block, keys, values)[8192 * b..8192 * (b + 1)] == block(keys[from..from + n], values[from..from + n])
    decreases b
  {
    if b == 0 {
      FirstBlock(block, keys, values, n);
    } else {
      ChunkEntries(keys, values, 312);
      DiskBlock(block, keys[312..], values[312..], b - 1, from - 312, n);
      LaterDiskBlock(block, keys, values, b);
      SliceOfRest(keys, from, n);
      SliceOfRest(values, from, n);
    }
  }

  lemma LaterDiskBlock(block: BlockWriter, keys: seq<Bytes>, values: seq<Bytes>, b: nat)
    requires Sound(block) && Entries(keys, values) && |keys| > 312 && b > 0
    requires |Disk(block, keys[312..], values[312..])| >= 8192 * b
    ensures |Disk(block, keys, values)| >= 8192 * (b + 1)
    ensures Disk(block, keys, values)[8192 * b..8192 * (b + 1)]
         == Disk(block, keys[312..], values[312..])[8192 * (b - 1)..8192 * b]
  {
    ChunkEntries(keys, values, 312);
    var first := block(keys[..312], values[..312]);
    assert |first| == BLOCK_SIZE;
    LaterBlock(first, Disk(block, keys[312..], values[312..]), b);
  }

  lemma FirstBlock(block: BlockWriter, keys: seq<Bytes>, values: seq<Bytes>, n: nat)
    requires Sound(block) && Entries(keys, values) && 0 < |keys| && n == Min(312, |keys|)
    ensures |Disk(block, keys, values)| >= 8192
    ensures Disk(block, keys, values)[0..8192] == block(keys[0..n], values[0..n])
  {
    ChunkEntries(keys, values, n);
    var first, rest := block(keys[..n], values[..n]), Disk(block, keys[n..], values[n..]);
    assert |first| == BLOCK_SIZE;
    assert (first + rest)[0..8192] == first;
    assert keys[0..n] == keys[..n] && values[0..n] == values[..n];
  }

  lemma LaterBlock(first: Bytes, rest: Bytes, b: nat)
    requires |first| == 8192 && b > 0 && |rest| >= 8192 * b
    ensures (first + rest)[8192 * b..8192 * (b + 1)] == rest[8192 * (b - 1)..8192 * b]
  {}

  lemma SliceOfRest(parts: seq<Bytes>, from: nat, n: nat)
    requires 312 <= from && from + n <= |parts|
    ensures parts[312..][from - 312..from - 312 + n] == parts[from..from + n]
  {}

  lemma DescribedInside(d: Bytes, blk: Bytes, b: nat, id: nat, n: nat)
    requires |d| >= 8192 * (b + 1) && d[8192 * b..8192 * (b + 1)] == blk
    requires |blk| == 8192 && Described(blk, 0, id, n)
    ensures Described(d, b, id, n)
  {
    ImageField(d, blk, b, 0);
    ImageField(d, blk, b, 1);
    ImageField(d, blk, b, 2);
    ImageField(d, blk, b, 3);
    ImageField(d, blk, b, 4);
    forall x | 8192 * b <= x < 8192 * (b + 1) ensures d[x] == blk[x - 8192 * b] {
      ImageByte(d, blk, b, x - 8192 * b);
    }
  }

  lemma ImageByte(d: Bytes, blk: Bytes, b: nat, k: nat)
    requires |d| >= 8192 * (b + 1) && d[8192 * b..8192 * (b + 1)] == blk && k < 8192
    ensures d[8192 * b + k] == blk[k]
  {}

  lemma ImageField(d: Bytes, blk: Bytes, b: nat, i: nat)
    requires |d| >= 8192 * (b + 1) && d[8192 * b..8192 * (b + 1)] == blk && i < 16
    ensures Field(d, 2048 * b + i) == Field(blk, i)
  {
    InnerSlice(d, 8192 * b, blk, 4 * i, 4 * i + 4);
  }

  lemma InnerSlice(d: Bytes, start: nat, blk: Bytes, x: nat, y: nat)
    requires start + |blk| <= |d| && d[start..start + |blk|] == blk && x <= y <= |blk|
    ensures d[start + x..start + y] == blk[x..y]
  {
    var s := d[start..start + |blk|];
    forall k | 0 <= k < y - x ensures d[start + x..start + y][k] == blk[x..y][k] {
      assert s[x + k] == blk[x + k];
    }
  }

  /** Every block of a written table, byte for byte beside its entries: id 0, the counts, eleven zero
      words, and 'h' between the values and the keys. */
  lemma GearImage(keys: seq<Bytes>, values: seq<Bytes>, b: nat)
    requires Entries(keys, values) && 312 * b < |keys|
    ensures var d, n, end := Disk(GEAR, keys, values), Min(312, |keys| - 312 * b), 8192 * (b + 1);
            && |d| >= end
            && Field(d, 2048 * b) == 0 && Field(d, 2048 * b + 1) == n
            && Field(d, 2048 * b + 2) == 16 * n && Field(d, 2048 * b + 3) == 10 * n
            && Field(d, 2048 * b + 4) == 8192 - 64 - 26 * n
            && (forall x :: 8192 * b + 20 <= x < 8192 * b + 64 ==> d[x] == 0)
            && (forall x :: 8192 * b + 64 + 10 * n <= x < end - 16 * n ==> d[x] == 104)
  {
    GearIsSound();
    GearIsTidy();
    DiskDescribed(GEAR, keys, values, b, Min(312, |keys| - 312 * b));
  }

  /** A block writer that fills in the header and the filler. */
  ghost predicate Tidy(block: BlockWriter) {
    forall ks, vs :: Entries(ks, vs) && |ks| <= MAX_ENTRY_IN_BLOCK ==> Described(block(ks, vs), 0, 0, |ks|)
  }

  lemma GearIsTidy()
    ensures Tidy(GEAR)
  {
    forall ks, vs | Entries(ks, vs) && |ks| <= MAX_ENTRY_IN_BLOCK ensures Described(GEAR(ks, vs), 0, 0, |ks|) {
      HeaderFields(0, ks, vs);
    }
  }

  lemma DiskDescribed(block: BlockWriter, keys: seq<Bytes>, values: seq<Bytes>, b: nat, n: nat)
    requires Sound(block) && Tidy(block) && Entries(keys, values) && 312 * b < |keys|
    requires n == Min(312, |keys| - 312 * b)
    ensures Described(Disk(block, keys, values), b, 0, n)
  {
    var from := 312 * b;
    var ks, vs := keys[from..from + n], values[from..from + n];
    DiskBlock(block, keys, values, b, from, n);
    assert Entries(ks, vs);
    DescribedInside(Disk(block, keys, values), block(ks, vs), b, 0, n);
  }

  lemma ReadFirst(first: Bytes, rest: Bytes, ks: seq<Bytes>, vs: seq<Bytes>, ks': seq<Bytes>, vs': seq<Bytes>)
    requires |first| == BLOCK_SIZE && ReadBlock(first) == Some(Table(ks, vs)) && ReadDisk(rest) == Some(Table(ks', vs'))
    ensures ReadDisk(first + rest) == Some(Table(ks + ks', vs + vs'))
  {
    assert (first + rest)[..BLOCK_SIZE] == first && (first + rest)[BLOCK_SIZE..] == rest;
  }

  lemma Rejoin(parts: seq<Bytes>, n: nat)
    requires n <= |parts|
    ensures parts[..n] + parts[n..] == parts
  {}

  lemma {:induction false} DiskReadsBack(block: BlockWriter, keys: seq<Bytes>, values: seq<Bytes>)
    requires Sound(block) && Entries(keys, values)
    ensures ReadDisk(Disk(block, keys, values)) == Some(Table(keys, values))
    decreases |keys|
  {
    if keys != [] {
      var n := Min(MAX_ENTRY_IN_BLOCK, |keys|);
      ChunkEntries(keys, values, n);
      var first, rest := block(keys[..n], values[..n]), Disk(block, keys[n..], values[n..]);
      DiskReadsBack(block, keys[n..], values[n..]);
      assert |first| == BLOCK_SIZE && ReadBlock(first) == Some(Table(keys[..n], values[..n]));
      ReadFirst(first, rest, keys[..n], values[..n], keys[n..], values[n..]);
      Rejoin(keys, n);
      Rejoin(values, n);
    }
  }

  /** The layout of a written table: one 8 KiB block per 312 entries, rounded up, and entry e's value
      and key at the offsets of slot e % 312 of block e / 312. */
  lemma GearLayout(keys: seq<Bytes>, values: seq<Bytes>)
    requires Entries(keys, values)
    ensures |Disk(GEAR, keys, values)| == BLOCK_SIZE * Blocks(|keys|)
    ensures forall e :: 0 <= e < |keys| ==>
              InSlot(Disk(GEAR, keys, values), e / 312, e % 312, keys[e], values[e])
  {
    GearIsSound();
    DiskSize(GEAR, keys, values);
    forall e | 0 <= e < |keys| ensures InSlot(Disk(GEAR, keys, values), e / 312, e % 312, keys[e], values[e]) {
      DiskSlots(GEAR, keys, values, e / 312, e % 312, keys[e], values[e]);
    }
  }

  /** A reader built on those offsets recovers both lists, so no two tables share an image. */
  lemma GearRoundTrip(keys: seq<Bytes>, values: seq<Bytes>, keys': seq<Bytes>, values': seq<Bytes>)
    requires Entries(keys, values) && Entries(keys', values')
    ensures ReadDisk(Disk(GEAR, keys, values)) == Some(Table(keys, values))
    ensures Disk(GEAR, keys, values) == Disk(GEAR, keys', values') ==> keys == keys' && values == values'
  {
    GearIsSound();
    DiskReadsBack(GEAR, keys, values);
    DiskReadsBack(GEAR, keys', values');
  }
}
