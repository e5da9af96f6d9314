/** The lengths of the on-board format, and lists of strings of one length laid end to end. */
module Format {
  import opened Bytes

  const BLOCK_SIZE: nat := 8192
  const HEADER_LENGTH: nat := 64
  const MAX_ENTRY_IN_BLOCK: nat := 312
  const KEY_LENGTH: nat := 16
  const VALUE_LENGTH: nat := 10
  const ENTRY_LENGTH: nat := 26

  predicate Uniform(parts: seq<Bytes>, width: nat) {
    forall i :: 0 <= i < |parts| ==> |parts[i]| == width
  }

  predicate Entries(keys: seq<Bytes>, values: seq<Bytes>) {
    |keys| == |values| && Uniform(keys, KEY_LENGTH) && Uniform(values, VALUE_LENGTH)
  }

  lemma {:induction false} UniformConcat(parts: seq<Bytes>, width: nat)
    requires Uniform(parts, width)
    ensures |Concat(parts)| == width * |parts|
  {
    if parts != [] {
      UniformConcat(parts[1..], width);
      assert width * |parts| == width + width * (|parts| - 1);
    }
  }

  lemma {:induction false} UniformAt(parts: seq<Bytes>, width: nat, j: nat)
    requires Uniform(parts, width) && j < |parts|
    ensures 0 <= width * j <= width * j + width <= |Concat(parts)|
    ensures Concat(parts)[width * j..width * j + width] == parts[j]
  {
    UniformConcat(parts[1..], width);
    if j > 0 {
      UniformAt(parts[1..], width, j - 1);
      assert width * j == width + width * (j - 1);
      var t := Concat(parts[1..]);
      assert Concat(parts)[width * j..width * j + width] == t[width * (j - 1)..width * (j - 1) + width];
    } else {
      assert width * 0 == 0;
    }
  }
}
