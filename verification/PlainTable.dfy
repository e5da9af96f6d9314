/** Plain tables: 26-byte records written back to back, and the loader that reads them with a
    cursor after reversing the file twice. */
module PlainTable {
  import opened Bytes
  import opened Coding
  import opened Format

  /** How much of a file MergeEntries asks for. */
  const READ_LENGTH: nat := 0x2000_0000

  /** The records of a table, one string per entry. */
  function Records(keys: seq<Bytes>, values: seq<Bytes>): (rs: seq<Bytes>)
    requires |keys| == |values|
    ensures |rs| == |keys|
    ensures forall i :: 0 <= i < |rs| ==> rs[i] == keys[i] + values[i]
  {
    seq(|keys|, i requires 0 <= i < |keys| => keys[i] + values[i])
  }

  /** The entries a loader sees: ceil(size / 26) slices of 26 bytes. */
  function Slices(content: Bytes, size: nat): seq<Bytes>
    requires ENTRY_LENGTH * Count(size) <= |content|
  {
    seq(Count(size), i requires 0 <= i < Count(size) => content[26 * i..26 * i + 26])
  }

  function Count(size: nat): nat {
    (size + 25) / 26
  }

  /** The slices cover the file and no slice lies wholly behind it; each is the 26 bytes at its place. */
  lemma EverySlice(content: Bytes, size: nat, i: nat, k: nat)
    requires ENTRY_LENGTH * Count(size) <= |content| && i < Count(size) && k < 26
    ensures var slices := Slices(content, size);
            && 26 * (|slices| - 1) < size <= 26 * |slices|
            && |slices[i]| == 26 && slices[i][k] == content[26 * i + k]
  {}

  class PlainTable {
    var keyList: seq<Bytes>
    var valueList: seq<Bytes>
    var readEntries: nat
    var fileContent: Bytes
    var fileSize: nat

    constructor (keys: seq<Bytes>, values: seq<Bytes>)
      ensures keyList == keys && valueList == values && readEntries == 0 && fileContent == [] && fileSize == 0
    {
      keyList, valueList, readEntries, fileContent, fileSize := keys, values, 0, [], 0;
    }

    /** PlainTable::ToDiskFormat: appends key and value of every entry. */
    method ToDiskFormat(buffer: ByteString)
      requires |keyList| == |valueList|
      modifies buffer
      ensures buffer.bytes == old(buffer.bytes) + Concat(Records(keyList, valueList))
    {
      ghost var rs := Records(keyList, valueList);
      for i := 0 to |keyList|
        invariant buffer.bytes == old(buffer.bytes) + Concat(rs[..i])
      {
        ConcatAppend(rs, i);
        AppendAssociative(old(buffer.bytes), Concat(rs[..i]), rs[i]);
        AppendAssociative(buffer.bytes, keyList[i], valueList[i]);
        buffer.bytes := buffer.bytes + keyList[i];
        buffer.bytes := buffer.bytes + valueList[i];
      }
      assert rs[..|keyList|] == rs;
    }

    /** `got` bytes of the file, which may be fewer than it has, are read into a string of the requested
        length: what lies behind them is whatever the fresh memory held.  Then the string is reversed
        twice. */
    method Load(file: Bytes, got: nat, junk: Bytes)
      requires got <= |file| && got + |junk| == READ_LENGTH
      modifies this`fileContent, this`fileSize
      ensures fileContent == file[..got] + junk && fileSize == got
    {
      fileContent, fileSize := file[..got] + junk, got;
      ReverseTwice(fileContent);
      fileContent := Reverse(fileContent);
      fileContent := Reverse(fileContent);
    }

    /** NextEntry: the slice at the cursor; returns the offset behind it. */
    method NextEntry() returns (entry: Bytes, pos: nat)
      requires ENTRY_LENGTH * (readEntries + 1) <= |fileContent|
      modifies this`readEntries
      ensures readEntries == old(readEntries) + 1
      ensures entry == fileContent[26 * old(readEntries)..26 * readEntries] && pos == 26 * readEntries
    {
      entry := fileContent[readEntries * 26..readEntries * 26 + 26];
      readEntries := readEntries + 1;
      pos := readEntries * 26;
    }
  }

  ghost predicate Loadable(t: PlainTable)
    reads t
  {
    t.readEntries == 0 && ENTRY_LENGTH * Count(t.fileSize) <= |t.fileContent|
  }

  /** The loop stays inside the buffer exactly when at most 536870906 of its 536870912 bytes are the
      file's; with more, its last slice runs past the end. */
  lemma InBounds(size: nat)
    requires size <= READ_LENGTH
    ensures ENTRY_LENGTH * Count(size) <= READ_LENGTH <==> size <= 536870906
  {}

  /** A file six bytes short of the buffer still fits; one byte more and it does not. */
  lemma LastSliceOverruns()
    ensures ENTRY_LENGTH * Count(536870906) <= READ_LENGTH < ENTRY_LENGTH * Count(536870907)
  {}

  /** The loop over one file: every slice in file order, and then it stops. */
  method LoadEntries(t: PlainTable) returns (entries: seq<Bytes>)
    requires Loadable(t)
    modifies t`readEntries
    ensures entries == Slices(t.fileContent, t.fileSize) && t.readEntries == Count(t.fileSize)
  {
    entries := [];
    var pos := 0;
    while pos < t.fileSize
      invariant t.readEntries == |entries| <= Count(t.fileSize) && pos == 26 * t.readEntries
      invariant entries == Slices(t.fileContent, t.fileSize)[..|entries|]
      decreases Count(t.fileSize) - t.readEntries
    {
      var entry;
      ghost var k := t.readEntries;
      entry, pos := t.NextEntry();
      assert entry == Slices(t.fileContent, t.fileSize)[k];
      entries := entries + [entry];
    }
  }

  /** What a loader knows of a file: the string it was read into and its length. */
  datatype File = File(content: Bytes, size: nat) {
    predicate Holds() { ENTRY_LENGTH * Count(size) <= |content| }
  }

  ghost function AsFile(t: PlainTable): File
    reads t
  {
    File(t.fileContent, t.fileSize)
  }

  predicate AllHold(files: seq<File>) {
    forall i :: 0 <= i < |files| ==> files[i].Holds()
  }

  function AllSlices(files: seq<File>): seq<Bytes>
    requires AllHold(files)
  {
    if files == [] then []
    else assert files[0].Holds(); Slices(files[0].content, files[0].size) + AllSlices(files[1..])
  }

  lemma {:induction false} AllSlicesSnoc(files: seq<File>, i: nat)
    requires AllHold(files) && i < |files| && files[i].Holds()
    ensures AllSlices(files[..i + 1]) == AllSlices(files[..i]) + Slices(files[i].content, files[i].size)
  {
    if i == 0 {
      assert files[..1][1..] == [];
    } else {
      AllSlicesSnoc(files[1..], i - 1);
      assert files[..i + 1][1..] == files[1..][..i] && files[..i][1..] == files[1..][..i - 1];
    }
  }

  /** The loader loop of MergeEntries over all files: what goes into the heap is the entries of the
      files, in order, and nothing else; the counter counts them. */
  method LoadAll(ts: seq<PlainTable>, ghost files: seq<File>) returns (heap: seq<Bytes>, added: nat)
    requires AllHold(files) && |files| == |ts|
    requires forall i :: 0 <= i < |ts| ==> ts[i].readEntries == 0 && AsFile(ts[i]) == files[i]
    requires forall i, j :: 0 <= i < j < |ts| ==> ts[i] != ts[j]
    modifies ts
    ensures heap == AllSlices(files) && added == |heap|
  {
    heap, added := [], 0;
    for i := 0 to |ts|
      invariant forall k :: i <= k < |ts| ==> ts[k].readEntries == 0 && AsFile(ts[k]) == files[k]
      invariant heap == AllSlices(files[..i]) && added == |heap|
    {
      assert files[i].Holds();
      AllSlicesSnoc(files, i);
      var entries := LoadEntries(ts[i]);
      heap, added := heap + entries, added + |entries|;
    }
    assert files[..|ts|] == files;
  }

  // ---------------------------------------------------------------- what is written is what is read

  lemma RecordAt(rs: seq<Bytes>, tail: Bytes, i: nat)
    requires Uniform(rs, ENTRY_LENGTH) && i < |rs|
    ensures |Concat(rs)| == 26 * |rs| && (Concat(rs) + tail)[26 * i..26 * i + 26] == rs[i]
  {
    UniformConcat(rs, ENTRY_LENGTH);
    UniformAt(rs, ENTRY_LENGTH, i);
    assert (Concat(rs) + tail)[..|Concat(rs)|] == Concat(rs);
    SliceOfPrefix(Concat(rs) + tail, Concat(rs), 26 * i, 26 * i + 26);
  }

  /** A table written to disk, read into a longer string and sliced by the loader is the table: the
      same n records in file order, and n slices. */
  lemma FileRoundTrip(keys: seq<Bytes>, values: seq<Bytes>, junk: Bytes)
    requires Entries(keys, values)
    ensures var file := Concat(Records(keys, values));
            && |file| == 26 * |keys| && Count(|file|) == |keys|
            && Slices(file + junk, |file|) == Records(keys, values)
  {
    var rs := Records(keys, values);
    var file := Concat(rs);
    if rs != [] { RecordAt(rs, junk, 0); }
    forall i | 0 <= i < |rs| ensures Slices(file + junk, |file|)[i] == rs[i] {
      RecordAt(rs, junk, i);
    }
  }

  /** A short read yields the records it has whole, and at most one slice that is not a record. */
  lemma ShortRead(keys: seq<Bytes>, values: seq<Bytes>, got: nat, junk: Bytes)
    requires Entries(keys, values) && got <= 26 * |keys| && got + |junk| == READ_LENGTH
    requires ENTRY_LENGTH * Count(got) <= READ_LENGTH
    ensures |Concat(Records(keys, values))| == 26 * |keys|
    ensures var slices := Slices(Concat(Records(keys, values))[..got] + junk, got);
            && got / 26 <= |slices| <= got / 26 + 1
            && slices[..got / 26] == Records(keys, values)[..got / 26]
  {
    var rs := Records(keys, values);
    UniformConcat(rs, ENTRY_LENGTH);
    var read := Concat(rs)[..got] + junk;
    var slices := Slices(read, got);
    forall i | 0 <= i < got / 26 ensures slices[i] == rs[i] {
      RecordAt(rs, [], i);
      assert Concat(rs) + [] == Concat(rs);
      assert read[26 * i..26 * i + 26] == Concat(rs)[26 * i..26 * i + 26];
    }
  }

  /** Writing a table and loading the file returns its records. */
  method WriteThenLoad(keys: seq<Bytes>, values: seq<Bytes>, junk: Bytes) returns (entries: seq<Bytes>)
    requires Entries(keys, values) && 26 * |keys| + |junk| == READ_LENGTH
    ensures entries == Records(keys, values)
  {
    FileRoundTrip(keys, values, junk);
    var disk := new ByteString([]);
    var writer := new PlainTable(keys, values);
    writer.ToDiskFormat(disk);
    assert disk.bytes == Concat(Records(keys, values));
    var reader := new PlainTable([], []);
    assert disk.bytes[..26 * |keys|] == disk.bytes;
    reader.Load(disk.bytes, 26 * |keys|, junk);
    entries := LoadEntries(reader);
  }
}
