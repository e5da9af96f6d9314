/** The objects of a mixed population of PinnableSlices and Cleanables refine the abstract runs. */
module PinnableSliceObjects {
  import opened Bytes
  import opened Cleanables
  import opened PinnableSlices
  import opened PinnableSliceRuns
  import CR = CleanableRuns

  /** The first Cleanables are the bases of the slices. */
  ghost predicate Bases(ps: seq<PinnableSlice>, cs: seq<Cleanable>) {
    |ps| <= |cs| && forall i :: 0 <= i < |ps| ==> ps[i].cleanups == cs[i]
  }

  /** What one slice contributes: its identity, where it points, and what it shows. */
  datatype Snap = Snap(slice: PinnableSlice, self: ByteString, buf: ByteString, data: ByteString,
                       used: bool, valid: bool, value: Abs)

  ghost function SnapOf(p: PinnableSlice): Snap
    reads p, p.buf, p.data
  {
    Snap(p, p.selfSpace, p.buf, p.data, p.pinned || p.size > 0, p.ViewValid() && !p.PinnedOnItself(), p.Value())
  }

  ghost function Snaps(ps: seq<PinnableSlice>): seq<Snap>
    reads ps, set p | p in ps :: p.buf, set p | p in ps :: p.data
  {
    seq(|ps|, i requires 0 <= i < |ps| reads ps, set p | p in ps :: p.buf, set p | p in ps :: p.data => SnapOf(ps[i]))
  }

  /** ViewsSeparate. */
  predicate Apart(a: Snap, b: Snap) {
    && a.slice != b.slice && a.self != b.self
    && a.self != b.buf && b.self != a.buf && a.buf != b.buf
    && (a.used ==> a.data != b.self && a.data != b.buf)
    && (b.used ==> b.data != a.self && b.data != a.buf)
  }

  ghost predicate Well(snaps: seq<Snap>) {
    && (forall i :: 0 <= i < |snaps| ==> snaps[i].valid)
    && (forall i, j :: 0 <= i < j < |snaps| ==> Apart(snaps[i], snaps[j]))
  }

  predicate Shown(snaps: seq<Snap>, slices: seq<Abs>) {
    |slices| == |snaps| && forall i :: 0 <= i < |snaps| ==> snaps[i].value == slices[i]
  }

  /** Valid slices that share no storage one of them may write, and what they show. */
  ghost predicate Slices(ps: seq<PinnableSlice>, slices: seq<Abs>)
    reads ps, set p | p in ps :: p.buf, set p | p in ps :: p.data
  {
    Well(Snaps(ps)) && Shown(Snaps(ps), slices)
  }

  /** Memory that no slice may write. */
  predicate Foreign(snaps: seq<Snap>, mem: ByteString) {
    forall k :: 0 <= k < |snaps| ==> mem != snaps[k].self && mem != snaps[k].buf
  }

  /** One slice kept its string, and looks at what it looked at, at its string or at new memory. */
  lemma ReplaceOne(snaps: seq<Snap>, i: nat, x: Snap)
    requires Well(snaps) && i < |snaps| && x.valid
    requires x.slice == snaps[i].slice && x.self == snaps[i].self && x.buf == snaps[i].buf
    requires || (x.data == snaps[i].data && (x.used ==> snaps[i].used))
             || x.data == x.buf
             || Foreign(snaps, x.data)
    ensures Well(snaps[i := x])
  {}

  /** Slice i took what slice j had, and slice j fell back on its own string. */
  lemma ReplaceTwo(snaps: seq<Snap>, i: nat, x: Snap, j: nat, y: Snap)
    requires Well(snaps) && i < |snaps| && j < |snaps| && i != j && x.valid && y.valid && Apart(x, y)
    requires x.slice == snaps[i].slice && x.self == snaps[i].self
    requires y.slice == snaps[j].slice && y.self == snaps[j].self
    requires x.buf == snaps[i].buf || x.buf == x.self || x.buf == snaps[j].buf
    requires (x.data == snaps[j].data && (x.used ==> snaps[j].used)) || x.data == x.buf
    requires y.buf == y.self && y.data == y.self
    ensures Well(snaps[i := x][j := y])
  {
    var new' := snaps[i := x][j := y];
    forall a, b | 0 <= a < b < |snaps| ensures Apart(new'[a], new'[b]) {
      var k := if a == i || a == j then b else a;
      if k != i && k != j {
        ApartAfterMove(snaps, i, x, j, y, k);
      }
    }
  }

  lemma ApartAfterMove(snaps: seq<Snap>, i: nat, x: Snap, j: nat, y: Snap, k: nat)
    requires Well(snaps) && i < |snaps| && j < |snaps| && k < |snaps| && i != j && k != i && k != j
    requires x.slice == snaps[i].slice && x.self == snaps[i].self
    requires y.slice == snaps[j].slice && y.self == snaps[j].self
    requires x.buf == snaps[i].buf || x.buf == x.self || x.buf == snaps[j].buf
    requires (x.data == snaps[j].data && (x.used ==> snaps[j].used)) || x.data == x.buf
    requires y.buf == y.self && y.data == y.self
    ensures Apart(x, snaps[k]) && Apart(y, snaps[k]) && Apart(snaps[k], x) && Apart(snaps[k], y)
  {
    assert Apart(snaps[i], snaps[k]) || Apart(snaps[k], snaps[i]);
    assert Apart(snaps[j], snaps[k]) || Apart(snaps[k], snaps[j]);
  }

  lemma Neighbours(snaps: seq<Snap>, i: nat, k: nat)
    requires Well(snaps) && i < |snaps| && k < |snaps| && i != k
    ensures Apart(snaps[i], snaps[k])
  {
    assert Apart(snaps[k], snaps[i]) || Apart(snaps[i], snaps[k]);
  }

  /** Every slice but i and j is as it was. */
  ghost predicate OthersKept(ps: seq<PinnableSlice>, snaps: seq<Snap>, i: nat, j: nat)
    reads ps, set p | p in ps :: p.buf, set p | p in ps :: p.data
  {
    |snaps| == |ps| && forall k :: 0 <= k < |ps| && k != i && k != j ==> SnapOf(ps[k]) == snaps[k]
  }

  lemma SlicesAfterOne(ps: seq<PinnableSlice>, snaps: seq<Snap>, slices: seq<Abs>, i: nat, x: Snap)
    requires Well(snaps) && Shown(snaps, slices) && OthersKept(ps, snaps, i, i) && i < |ps|
    requires x == SnapOf(ps[i]) && x.valid
    requires x.slice == snaps[i].slice && x.self == snaps[i].self && x.buf == snaps[i].buf
    requires || (x.data == snaps[i].data && (x.used ==> snaps[i].used))
             || x.data == x.buf
             || Foreign(snaps, x.data)
    ensures Slices(ps, slices[i := x.value])
  {
    ReplaceOne(snaps, i, x);
    assert Snaps(ps) == snaps[i := x];
  }

  lemma SlicesAfterTwo(
    ps: seq<PinnableSlice>, snaps: seq<Snap>, slices: seq<Abs>, i: nat, x: Snap, j: nat, y: Snap)
    requires Well(snaps) && Shown(snaps, slices) && OthersKept(ps, snaps, i, j) && i < |ps| && j < |ps| && i != j
    requires x == SnapOf(ps[i]) && y == SnapOf(ps[j]) && x.valid && y.valid && Apart(x, y)
    requires x.slice == snaps[i].slice && x.self == snaps[i].self
    requires y.slice == snaps[j].slice && y.self == snaps[j].self
    requires x.buf == snaps[i].buf || x.buf == x.self || x.buf == snaps[j].buf
    requires (x.data == snaps[j].data && (x.used ==> snaps[j].used)) || x.data == x.buf
    requires y.buf == y.self && y.data == y.self
    ensures Slices(ps, slices[i := x.value][j := y.value])
  {
    ReplaceTwo(snaps, i, x, j, y);
    assert Snaps(ps) == snaps[i := x][j := y];
  }

  /** The strings a slice may write. */
  ghost predicate StringsIn(ps: seq<PinnableSlice>, strings: set<ByteString>)
    reads ps
  {
    forall i :: 0 <= i < |ps| ==> ps[i].buf in strings && ps[i].selfSpace in strings
  }

  // Each operation is applied in three layers: the object's method beside the other Cleanables, what
  // it does to their population, and what it does to the population of slices.

  method PinAt(w: World, p: PinnableSlice, cs: seq<Cleanable>, i: nat, mem: ByteString, c: Callback)
    requires CR.Population(w, cs) && i < |cs| && c.fn != NULL
    requires p.cleanups == cs[i] && p.ViewValid() && !p.pinned
    modifies p`data, p`off, p`size, p`pinned, cs[i], w`live
    ensures forall k :: 0 <= k < |cs| ==> CR.Owns(w, cs[k])
    ensures cs[i].pending == Insert(old(cs[i].pending), c)
    ensures w.live >= old(w.live) && fresh(w.live - old(w.live)) && w.live - old(w.live) <= CR.Held(cs)[i]
    ensures CR.Moved(old(CR.Held(cs)), CR.Held(cs), i, i, w.live - old(w.live))
    ensures CR.KeepsLive(old(CR.Held(cs)), CR.Held(cs), i, i)
    ensures p.ViewValid() && p.data == mem && p.Value() == old(p.Value()).(view := mem.bytes, pinned := true)
  {
    p.PinSlice(w, mem, 0, |mem.bytes|, c);
    assert mem.bytes[0..0 + |mem.bytes|] == mem.bytes;
    forall k | 0 <= k < |cs| && k != i ensures CR.Owns(w, cs[k]) {
      assert old(CR.Owns(w, cs[k]));
    }
  }

  method BasePin(w: World, p: PinnableSlice, cs: seq<Cleanable>, i: nat, mem: ByteString, c: Callback,
                 ghost b: CR.State)
    requires CR.Population(w, cs) && CR.Shows(w, cs, b) && i < |cs| && c.fn != NULL
    requires p.cleanups == cs[i] && p.ViewValid() && !p.pinned
    modifies p`data, p`off, p`size, p`pinned, cs[i], w`live
    ensures CR.Population(w, cs) && CR.Shows(w, cs, CR.Step(b, CR.Register(i, c)))
    ensures fresh(w.live - old(w.live))
    ensures p.ViewValid() && p.data == mem && p.Value() == old(p.Value()).(view := mem.bytes, pinned := true)
  {
    ghost var live, held := w.live, CR.Held(cs);
    CR.SizeAt(w, cs, i);
    PinAt(w, p, cs, i, mem, c);
    CR.Settle(w, cs, held, i, i, w.live - live);
    CR.SizeAt(w, cs, i);
    CR.LiveGrew(live, w.live, held, CR.Held(cs), i, i);
  }

  method PinFromAt(w: World, p: PinnableSlice, cs: seq<Cleanable>, j: nat, i: nat, mem: ByteString)
    requires CR.Population(w, cs) && i < |cs| && j < |cs|
    requires p.cleanups == cs[i] && p.ViewValid() && !p.pinned
    modifies p`data, p`off, p`size, p`pinned, cs[i], cs[j], cs[j].repr, w`live
    ensures forall k :: 0 <= k < |cs| ==> CR.Owns(w, cs[k])
    ensures cs[j].pending == [] && cs[j].repr == {}
    ensures i != j ==> cs[i].pending == Delegated(old(cs[i].pending), old(cs[j].pending))
    ensures i != j ==> cs[i].repr == old(cs[i].repr) + old(cs[j].repr) + (w.live - old(w.live))
    ensures forall k :: 0 <= k < |cs| && k != i && k != j ==> cs[k].repr == old(cs[k].repr)
    ensures w.live >= old(w.live) && fresh(w.live - old(w.live))
    ensures i == j ==> |w.live| == |old(w.live)| + if old(cs[i].pending) == [] then 0 else 1
    ensures p.ViewValid() && p.data == mem && p.Value() == old(p.Value()).(view := mem.bytes, pinned := true)
  {
    ghost var held := CR.Held(cs);
    assert held[i] == cs[i].repr && held[j] == cs[j].repr;
    assert forall k :: 0 <= k < |cs| && k != j ==> held[k] !! held[j];
    assert i != j ==> cs[i] != cs[j];
    assert CR.Owns(w, cs[i]) && CR.Owns(w, cs[j]);
    p.PinSliceFrom(w, mem, 0, |mem.bytes|, cs[j]);
    assert mem.bytes[0..0 + |mem.bytes|] == mem.bytes;
    forall k | 0 <= k < |cs| && k != i && k != j ensures CR.Owns(w, cs[k]) {
      assert old(CR.Owns(w, cs[k])) && cs[k].repr == held[k] && held[k] !! held[j];
    }
  }

  method PinFromSized(w: World, p: PinnableSlice, cs: seq<Cleanable>, j: nat, i: nat, mem: ByteString)
    requires CR.Population(w, cs) && i < |cs| && j < |cs|
    requires p.cleanups == cs[i] && p.ViewValid() && !p.pinned
    modifies p`data, p`off, p`size, p`pinned, cs[i], cs[j], cs[j].repr, w`live
    ensures CR.Population(w, cs) && fresh(w.live - old(w.live))
    ensures cs[j].pending == []
    ensures i != j ==> cs[i].pending == Delegated(old(cs[i].pending), old(cs[j].pending))
    ensures |w.live| == |old(w.live)| + if old(cs[i].pending) == [] || old(cs[j].pending) == [] then 0 else 1
    ensures p.ViewValid() && p.data == mem && p.Value() == old(p.Value()).(view := mem.bytes, pinned := true)
  {
    ghost var live, held := w.live, CR.Held(cs);
    CR.SizeAt(w, cs, i);
    CR.SizeAt(w, cs, j);
    CR.HeldIsLive(w, cs);
    PinFromAt(w, p, cs, j, i, mem);
    CR.DelegationMoves(live, w.live, held, CR.Held(cs), i, j);
    CR.Settle(w, cs, held, i, j, w.live - live);
    if i != j {
      CR.SizeAt(w, cs, i);
      CR.LiveGrew(live, w.live, held, CR.Held(cs), i, j);
    }
  }

  method BasePinFrom(w: World, p: PinnableSlice, cs: seq<Cleanable>, j: nat, i: nat, mem: ByteString, ghost b: CR.State)
    requires CR.Population(w, cs) && CR.Shows(w, cs, b) && i < |cs| && j < |cs|
    requires p.cleanups == cs[i] && p.ViewValid() && !p.pinned
    modifies p`data, p`off, p`size, p`pinned, cs[i], cs[j], cs[j].repr, w`live
    ensures CR.Population(w, cs) && CR.Shows(w, cs, CR.Step(b, CR.Delegate(j, i))) && fresh(w.live - old(w.live))
    ensures p.ViewValid() && p.data == mem && p.Value() == old(p.Value()).(view := mem.bytes, pinned := true)
  {
    PinFromSized(w, p, cs, j, i, mem);
    forall k | 0 <= k < |cs| ensures cs[k].pending == CR.Step(b, CR.Delegate(j, i)).lists[k] {
      CR.DelegatedLists(b, j, i, k);
    }
  }

  method ResetAt(w: World, p: PinnableSlice, cs: seq<Cleanable>, i: nat)
    requires CR.Population(w, cs) && i < |cs| && p.cleanups == cs[i] && p.ViewValid()
    modifies p`size, p`pinned, cs[i], w
    ensures forall k :: 0 <= k < |cs| ==> CR.Owns(w, cs[k])
    ensures cs[i].pending == [] && w.ran == old(w.ran) + old(cs[i].pending)
    ensures w.live == old(w.live) - old(cs[i].repr)
    ensures CR.Moved(old(CR.Held(cs)), CR.Held(cs), i, i, {}) && CR.Held(cs)[i] == {}
    ensures p.ViewValid() && p.Value() == Abs([], false, p.buf.bytes)
  {
    ghost var held := CR.Held(cs);
    assert held[i] == cs[i].repr;
    p.Reset(w);
    forall k | 0 <= k < |cs| && k != i ensures CR.Owns(w, cs[k]) {
      assert old(CR.Owns(w, cs[k])) && cs[k].repr == held[k] && held[k] !! held[i];
    }
  }

  method BaseReset(w: World, p: PinnableSlice, cs: seq<Cleanable>, i: nat, ghost b: CR.State)
    requires CR.Population(w, cs) && CR.Shows(w, cs, b) && i < |cs| && p.cleanups == cs[i] && p.ViewValid()
    modifies p`size, p`pinned, cs[i], w
    ensures CR.Population(w, cs) && CR.Shows(w, cs, CR.Step(b, CR.Reset(i))) && w.live <= old(w.live)
    ensures p.ViewValid() && p.Value() == Abs([], false, p.buf.bytes)
  {
    ghost var held := CR.Held(cs);
    CR.SizeAt(w, cs, i);
    CR.LiveShrank(w.live, held[i]);
    ResetAt(w, p, cs, i);
    CR.Settle(w, cs, held, i, i, {});
  }

  ghost predicate Different(ps: seq<PinnableSlice>, i: nat) {
    i < |ps| && forall k :: 0 <= k < |ps| && k != i ==> ps[k] != ps[i]
  }

  method PinBeside(w: World, p: PinnableSlice, ps: seq<PinnableSlice>, cs: seq<Cleanable>, i: nat, mem: ByteString,
                   c: Callback, ghost b: CR.State, ghost snaps: seq<Snap>)
    requires CR.Population(w, cs) && CR.Shows(w, cs, b) && i < |cs| && c.fn != NULL
    requires Different(ps, i) && p == ps[i] && snaps == Snaps(ps) && p.cleanups == cs[i] && p.ViewValid() && !p.pinned
    modifies p`data, p`off, p`size, p`pinned, cs[i], w`live
    ensures CR.Population(w, cs) && CR.Shows(w, cs, CR.Step(b, CR.Register(i, c)))
    ensures fresh(w.live - old(w.live))
    ensures p.ViewValid() && p.data == mem && p.Value() == old(p.Value()).(view := mem.bytes, pinned := true)
    ensures OthersKept(ps, snaps, i, i)
  {
    BasePin(w, p, cs, i, mem, c, b);
    forall k | 0 <= k < |ps| && k != i ensures SnapOf(ps[k]) == snaps[k] {
      assert old(SnapOf(ps[k])) == snaps[k];
    }
  }

  method ApplyPin(w: World, ps: seq<PinnableSlice>, cs: seq<Cleanable>, i: nat, mem: ByteString, c: Callback,
                  ghost slices: seq<Abs>, ghost b: CR.State)
    requires CR.Population(w, cs) && CR.Shows(w, cs, b) && Bases(ps, cs) && Slices(ps, slices)
    requires i < |ps| && !slices[i].pinned && c.fn != NULL && Foreign(Snaps(ps), mem)
    modifies ps[i], cs[i], w`live
    ensures CR.Population(w, cs) && CR.Shows(w, cs, CR.Step(b, CR.Register(i, c)))
    ensures Slices(ps, slices[i := slices[i].(view := mem.bytes, pinned := true)])
    ensures fresh(w.live - old(w.live)) && ps[i].buf == old(ps[i].buf)
  {
    ghost var snaps := Snaps(ps);
    assert SnapOf(ps[i]) == snaps[i];
    AllDifferent(ps, i);
    PinBeside(w, ps[i], ps, cs, i, mem, c, b, snaps);
    ghost var x := SnapOf(ps[i]);
    assert x.valid && x.data == mem;
    SlicesAfterOne(ps, snaps, slices, i, x);
  }

  lemma AllDifferent(ps: seq<PinnableSlice>, i: nat)
    requires Well(Snaps(ps)) && i < |ps|
    ensures Different(ps, i)
  {
    var snaps := Snaps(ps);
    forall k | 0 <= k < |ps| && k != i ensures ps[k] != ps[i] {
      Neighbours(snaps, i, k);
      assert snaps[k].slice == ps[k] && snaps[i].slice == ps[i];
    }
  }

  method PinFromBeside(w: World, p: PinnableSlice, ps: seq<PinnableSlice>, cs: seq<Cleanable>, j: nat, i: nat,
                       mem: ByteString, ghost b: CR.State, ghost snaps: seq<Snap>)
    requires CR.Population(w, cs) && CR.Shows(w, cs, b) && i < |cs| && j < |cs|
    requires Different(ps, i) && p == ps[i] && snaps == Snaps(ps) && p.cleanups == cs[i] && p.ViewValid() && !p.pinned
    modifies p`data, p`off, p`size, p`pinned, cs[i], cs[j], cs[j].repr, w`live
    ensures CR.Population(w, cs) && CR.Shows(w, cs, CR.Step(b, CR.Delegate(j, i))) && fresh(w.live - old(w.live))
    ensures p.ViewValid() && p.data == mem && p.Value() == old(p.Value()).(view := mem.bytes, pinned := true)
    ensures OthersKept(ps, snaps, i, i)
  {
    BasePinFrom(w, p, cs, j, i, mem, b);
    forall k | 0 <= k < |ps| && k != i ensures SnapOf(ps[k]) == snaps[k] {
      assert old(SnapOf(ps[k])) == snaps[k];
    }
  }

  method ApplyPinFrom(w: World, ps: seq<PinnableSlice>, cs: seq<Cleanable>, i: nat, mem: ByteString, j: nat,
                      ghost slices: seq<Abs>, ghost b: CR.State)
    requires CR.Population(w, cs) && CR.Shows(w, cs, b) && Bases(ps, cs) && Slices(ps, slices)
    requires i < |ps| && !slices[i].pinned && j < |cs| && Foreign(Snaps(ps), mem)
    modifies ps[i], cs[i], cs[j], cs[j].repr, w`live
    ensures CR.Population(w, cs) && CR.Shows(w, cs, CR.Step(b, CR.Delegate(j, i)))
    ensures Slices(ps, slices[i := slices[i].(view := mem.bytes, pinned := true)])
    ensures fresh(w.live - old(w.live)) && ps[i].buf == old(ps[i].buf)
  {
    ghost var snaps := Snaps(ps);
    assert SnapOf(ps[i]) == snaps[i];
    AllDifferent(ps, i);
    PinFromBeside(w, ps[i], ps, cs, j, i, mem, b, snaps);
    ghost var x := SnapOf(ps[i]);
    assert x.valid && x.data == mem;
    SlicesAfterOne(ps, snaps, slices, i, x);
  }

  method ApplyReset(w: World, ps: seq<PinnableSlice>, cs: seq<Cleanable>, i: nat,
                    ghost slices: seq<Abs>, ghost b: CR.State)
    requires CR.Population(w, cs) && CR.Shows(w, cs, b) && Bases(ps, cs) && Slices(ps, slices) && i < |ps|
    modifies ps[i], cs[i], w
    ensures CR.Population(w, cs) && CR.Shows(w, cs, CR.Step(b, CR.Reset(i)))
    ensures Slices(ps, slices[i := Abs([], false, slices[i].buf)])
    ensures w.live <= old(w.live) && ps[i].buf == old(ps[i].buf)
  {
    ghost var snaps := Snaps(ps);
    assert SnapOf(ps[i]) == snaps[i];
    AllDifferent(ps, i);
    BaseReset(w, ps[i], cs, i, b);
    forall k | 0 <= k < |ps| && k != i ensures SnapOf(ps[k]) == snaps[k] {
      assert old(SnapOf(ps[k])) == snaps[k];
    }
    SlicesAfterOne(ps, snaps, slices, i, SnapOf(ps[i]));
  }

  /** The move itself, and that the other slices keep their views. */
  method MoveBeside(w: World, ps: seq<PinnableSlice>, i: nat, j: nat, ghost snaps: seq<Snap>)
    requires snaps == Snaps(ps) && Well(snaps) && i < |ps| && j < |ps| && i != j
    requires ps[i].cleanups.Valid() && ps[j].cleanups.Valid() && ps[i].cleanups.repr <= w.live
    requires ps[i].cleanups != ps[j].cleanups && ps[i].cleanups.repr !! ps[j].cleanups.repr
    modifies ps[i], ps[i].cleanups, ps[i].selfSpace, ps[j], ps[j].cleanups, ps[j].selfSpace, w
    ensures ps[i].cleanups.Valid() && ps[i].cleanups.pending == old(ps[j].cleanups.pending)
    ensures ps[i].cleanups.repr == old(ps[j].cleanups.repr)
    ensures ps[j].cleanups.Valid() && ps[j].cleanups.pending == [] && ps[j].cleanups.repr == {}
    ensures w.ran == old(w.ran) + old(ps[i].cleanups.pending) && w.live == old(w.live) - old(ps[i].cleanups.repr)
    ensures ps[i].MovedView(ps[j], snaps[i].value, snaps[j].value, snaps[i].buf, snaps[j].buf, snaps[j].data)
    ensures ps[i].MoveKeepsView(ps[j], snaps[j].value, false)
    ensures OthersKept(ps, snaps, i, j)
  {
    assert SnapOf(ps[i]) == snaps[i] && SnapOf(ps[j]) == snaps[j];
    Neighbours(snaps, i, j);
    ps[i].MoveFrom(w, ps[j]);
    forall k | 0 <= k < |ps| && k != i && k != j ensures SnapOf(ps[k]) == snaps[k] {
      Neighbours(snaps, i, k);
      Neighbours(snaps, j, k);
      assert old(SnapOf(ps[k])) == snaps[k];
    }
  }

  method MoveAt(w: World, ps: seq<PinnableSlice>, cs: seq<Cleanable>, i: nat, j: nat, ghost snaps: seq<Snap>)
    requires CR.Population(w, cs) && i < |ps| <= |cs| && j < |ps| && i != j
    requires snaps == Snaps(ps) && Well(snaps) && ps[i].cleanups == cs[i] && ps[j].cleanups == cs[j]
    modifies ps[i], cs[i], ps[i].selfSpace, ps[j], cs[j], ps[j].selfSpace, w
    ensures forall k :: 0 <= k < |cs| ==> CR.Owns(w, cs[k])
    ensures cs[i].pending == old(cs[j].pending) && cs[j].pending == []
    ensures w.ran == old(w.ran) + old(cs[i].pending) && w.live == old(w.live) - old(cs[i].repr)
    ensures CR.Moved(old(CR.Held(cs)), CR.Held(cs), i, j, {}) && CR.Held(cs)[i] == old(cs[j].repr)
    ensures ps[i].MovedView(ps[j], snaps[i].value, snaps[j].value, snaps[i].buf, snaps[j].buf, snaps[j].data)
    ensures ps[i].MoveKeepsView(ps[j], snaps[j].value, false)
    ensures OthersKept(ps, snaps, i, j)
  {
    ghost var held := CR.Held(cs);
    assert held[i] == cs[i].repr && held[j] == cs[j].repr && held[i] !! held[j] && cs[i] != cs[j];
    MoveBeside(w, ps, i, j, snaps);
    forall k | 0 <= k < |cs| && k != i && k != j ensures CR.Owns(w, cs[k]) {
      assert old(CR.Owns(w, cs[k])) && cs[k].repr == held[k] && held[k] !! held[i];
    }
  }

  method MoveSized(w: World, ps: seq<PinnableSlice>, cs: seq<Cleanable>, i: nat, j: nat, ghost snaps: seq<Snap>)
    requires CR.Population(w, cs) && i < |ps| <= |cs| && j < |ps| && i != j
    requires snaps == Snaps(ps) && Well(snaps) && ps[i].cleanups == cs[i] && ps[j].cleanups == cs[j]
    modifies ps[i], cs[i], ps[i].selfSpace, ps[j], cs[j], ps[j].selfSpace, w
    ensures CR.Population(w, cs) && w.live <= old(w.live)
    ensures cs[i].pending == old(cs[j].pending) && cs[j].pending == []
    ensures w.ran == old(w.ran) + old(cs[i].pending) && |w.live| == |old(w.live)| - Nodes(old(cs[i].pending))
    ensures ps[i].MovedView(ps[j], snaps[i].value, snaps[j].value, snaps[i].buf, snaps[j].buf, snaps[j].data)
    ensures ps[i].MoveKeepsView(ps[j], snaps[j].value, false)
    ensures OthersKept(ps, snaps, i, j)
  {
    ghost var held := CR.Held(cs);
    CR.SizeAt(w, cs, i);
    CR.LiveShrank(w.live, held[i]);
    MoveAt(w, ps, cs, i, j, snaps);
    CR.Settle(w, cs, held, i, j, {});
  }

  /** A move hands over the view and all pending cleanups, and leaves the source empty. */
  method ApplyMove(w: World, ps: seq<PinnableSlice>, cs: seq<Cleanable>, i: nat, j: nat,
                   ghost slices: seq<Abs>, ghost b: CR.State)
    requires CR.Population(w, cs) && CR.Shows(w, cs, b) && Bases(ps, cs) && Slices(ps, slices)
    requires i < |ps| && j < |ps| && i != j
    modifies ps[i], cs[i], ps[i].selfSpace, ps[j], cs[j], ps[j].selfSpace, w
    ensures CR.Population(w, cs) && CR.Shows(w, cs, CR.Step(CR.Step(b, CR.Reset(i)), CR.Move(i, j)))
    ensures var a, c := slices[i], slices[j];
            Slices(ps, slices[i := c.(buf := if c.pinned then a.buf else c.buf)][j := EMPTY])
    ensures w.live <= old(w.live)
    ensures ps[i].buf in {old(ps[i].buf), ps[i].selfSpace, old(ps[j].buf)} && ps[j].buf == ps[j].selfSpace
  {
    ghost var snaps := Snaps(ps);
    assert SnapOf(ps[i]) == snaps[i] && SnapOf(ps[j]) == snaps[j];
    MoveSized(w, ps, cs, i, j, snaps);
    SlicesAfterTwo(ps, snaps, slices, i, SnapOf(ps[i]), j, SnapOf(ps[j]));
  }

  /** Copying, trimming and showing touch one slice and its string, and no callback. */
  method ApplyView(ps: seq<PinnableSlice>, op: Op, ghost s: State)
    requires Slices(ps, s.slices) && Legal(s, op)
    requires op.Show? || op.Copy? || op.RemovePrefix? || op.RemoveSuffix?
    modifies ps[op.target], ps[op.target].buf
    ensures Slices(ps, Step(s, op).slices) && ps[op.target].buf == old(ps[op.target].buf)
  {
    var i := op.target;
    ghost var snaps := Snaps(ps);
    assert SnapOf(ps[i]) == snaps[i];
    ViewBeside(ps[i], ps, i, op, snaps);
    SlicesAfterOne(ps, snaps, s.slices, i, SnapOf(ps[i]));
  }

  method ViewBeside(p: PinnableSlice, ps: seq<PinnableSlice>, i: nat, op: Op, ghost snaps: seq<Snap>)
    requires snaps == Snaps(ps) && Well(snaps) && i < |ps| && p == ps[i]
    requires p.ViewValid() && (op.Show? || op.Copy? ==> !p.pinned)
    requires op.Show? || op.Copy? || ((op.RemovePrefix? || op.RemoveSuffix?) && op.n <= |p.View()|)
    modifies p`data, p`off, p`size, p.buf
    ensures p.ViewValid() && p.data == (if p.pinned then old(p.data) else p.buf)
    ensures p.Value() == ViewStep(old(p.Value()), op)
    ensures OthersKept(ps, snaps, i, i)
  {
    assert SnapOf(p) == snaps[i];
    ViewOp(p, op);
    forall k | 0 <= k < |ps| && k != i ensures SnapOf(ps[k]) == snaps[k] {
      Neighbours(snaps, i, k);
      assert old(SnapOf(ps[k])) == snaps[k];
    }
  }

  function ViewStep(a: Abs, op: Op): Abs
    requires (op.RemovePrefix? || op.RemoveSuffix?) ==> op.n <= |a.view|
  {
    match op
    case Show(_) => a.(view := a.buf)
    case Copy(_, bytes) => a.(view := bytes, buf := bytes)
    case RemovePrefix(_, n) => Trimmed(a, n, |a.view|)
    case RemoveSuffix(_, n) => Trimmed(a, 0, |a.view| - n)
    case _ => a
  }

  method ViewOp(p: PinnableSlice, op: Op)
    requires p.ViewValid() && (op.Show? || op.Copy? ==> !p.pinned)
    requires op.Show? || op.Copy? || ((op.RemovePrefix? || op.RemoveSuffix?) && op.n <= |p.View()|)
    modifies p`data, p`off, p`size, p.buf
    ensures p.ViewValid() && p.data == if p.pinned then old(p.data) else p.buf
    ensures p.Value() == ViewStep(old(p.Value()), op)
  {
    match op {
      case Show(_) => p.PinSelf();
      case Copy(_, bytes) => p.PinSelfCopy(bytes);
      case RemovePrefix(_, n) => p.RemovePrefix(n);
      case RemoveSuffix(_, n) => p.RemoveSuffix(n);
    }
  }

  ghost predicate Good(w: World, ps: seq<PinnableSlice>, cs: seq<Cleanable>, s: State)
    reads w, cs, w.live, ps, set p | p in ps :: p.buf, set p | p in ps :: p.data
  {
    CR.Population(w, cs) && CR.Shows(w, cs, s.base) && Bases(ps, cs) && Slices(ps, s.slices)
  }

  /** External memory for a pinned view. */
  method NewMemory(w: World, ps: seq<PinnableSlice>, cs: seq<Cleanable>, bytes: Bytes, ghost s: State)
    returns (mem: ByteString)
    requires Good(w, ps, cs, s)
    ensures Good(w, ps, cs, s) && mem.bytes == bytes && Foreign(Snaps(ps), mem)
  {
    ghost var snaps := Snaps(ps);
    mem := new ByteString(bytes);
    assert Foreign(snaps, mem);
    assert Snaps(ps) == snaps;
  }

  method StepPin(
    w: World, ps: seq<PinnableSlice>, cs: seq<Cleanable>, op: Op, ghost s: State, ghost strings: set<ByteString>)
    requires Good(w, ps, cs, s) && Legal(s, op) && StringsIn(ps, strings) && op.Pin?
    modifies w, cs, ps
    ensures Good(w, ps, cs, Step(s, op)) && StringsIn(ps, strings) && fresh(w.live - old(w.live))
  {
    var mem := NewMemory(w, ps, cs, op.bytes, s);
    ApplyPin(w, ps, cs, op.target, mem, op.callback, s.slices, s.base);
  }

  method StepPinFrom(
    w: World, ps: seq<PinnableSlice>, cs: seq<Cleanable>, op: Op, ghost s: State, ghost strings: set<ByteString>)
    requires Good(w, ps, cs, s) && Legal(s, op) && StringsIn(ps, strings) && op.PinFrom?
    modifies w, cs, w.live, ps
    ensures Good(w, ps, cs, Step(s, op)) && StringsIn(ps, strings) && fresh(w.live - old(w.live))
  {
    assert CR.Owns(w, cs[op.source]);
    var mem := NewMemory(w, ps, cs, op.bytes, s);
    PinFromGood(w, ps, cs, op.target, mem, op.source, s, strings);
  }

  method PinFromGood(w: World, ps: seq<PinnableSlice>, cs: seq<Cleanable>, i: nat, mem: ByteString, j: nat,
                     ghost s: State, ghost strings: set<ByteString>)
    requires Good(w, ps, cs, s) && Legal(s, PinFrom(i, mem.bytes, j)) && StringsIn(ps, strings)
    requires Foreign(Snaps(ps), mem)
    modifies ps[i], cs[i], cs[j], cs[j].repr, w`live
    ensures Good(w, ps, cs, Step(s, PinFrom(i, mem.bytes, j))) && StringsIn(ps, strings)
    ensures fresh(w.live - old(w.live))
  {
    ApplyPinFrom(w, ps, cs, i, mem, j, s.slices, s.base);
  }

  method StepReset(
    w: World, ps: seq<PinnableSlice>, cs: seq<Cleanable>, op: Op, ghost s: State, ghost strings: set<ByteString>)
    requires Good(w, ps, cs, s) && Legal(s, op) && StringsIn(ps, strings) && op.Reset?
    modifies w, cs, ps
    ensures Good(w, ps, cs, Step(s, op)) && StringsIn(ps, strings) && w.live <= old(w.live)
  {
    ApplyReset(w, ps, cs, op.target, s.slices, s.base);
  }

  method StepMove(
    w: World, ps: seq<PinnableSlice>, cs: seq<Cleanable>, op: Op, ghost s: State, ghost strings: set<ByteString>)
    requires Good(w, ps, cs, s) && Legal(s, op) && StringsIn(ps, strings) && op.Move?
    modifies w, cs, ps, strings
    ensures Good(w, ps, cs, Step(s, op)) && StringsIn(ps, strings) && w.live <= old(w.live)
  {
    if op.target != op.source { ApplyMove(w, ps, cs, op.target, op.source, s.slices, s.base); }
  }

  method StepBase(
    w: World, ps: seq<PinnableSlice>, cs: seq<Cleanable>, op: Op, ghost s: State, ghost strings: set<ByteString>)
    requires Good(w, ps, cs, s) && Legal(s, op) && StringsIn(ps, strings) && op.Base?
    modifies w, cs, w.live
    ensures Good(w, ps, cs, Step(s, op)) && StringsIn(ps, strings) && fresh(w.live - old(w.live))
  {
    CR.Apply(w, cs, op.op, s.base);
  }

  method StepView(
    w: World, ps: seq<PinnableSlice>, cs: seq<Cleanable>, op: Op, ghost s: State, ghost strings: set<ByteString>)
    requires Good(w, ps, cs, s) && Legal(s, op) && StringsIn(ps, strings)
    requires op.Show? || op.Copy? || op.RemovePrefix? || op.RemoveSuffix?
    modifies ps, strings
    ensures Good(w, ps, cs, Step(s, op)) && StringsIn(ps, strings) && w.live == old(w.live)
  {
    ApplyView(ps, op, s);
  }

  /** One operation on the objects is the abstract step. */
  method Apply(
    w: World, ps: seq<PinnableSlice>, cs: seq<Cleanable>, op: Op, ghost s: State, ghost strings: set<ByteString>)
    requires Good(w, ps, cs, s) && Legal(s, op) && StringsIn(ps, strings)
    modifies w, cs, w.live, ps, strings
    ensures Good(w, ps, cs, Step(s, op)) && StringsIn(ps, strings) && fresh(w.live - old(w.live))
  {
    match op {
      case Base(_) => StepBase(w, ps, cs, op, s, strings);
      case Pin(_, _, _) => StepPin(w, ps, cs, op, s, strings);
      case PinFrom(_, _, _) => StepPinFrom(w, ps, cs, op, s, strings);
      case Reset(_) => StepReset(w, ps, cs, op, s, strings);
      case Move(_, _) => StepMove(w, ps, cs, op, s, strings);
      case _ => StepView(w, ps, cs, op, s, strings);
    }
  }

  method ApplyAll(w: World, ps: seq<PinnableSlice>, cs: seq<Cleanable>, ops: seq<Op>,
                  ghost s: State, ghost strings: set<ByteString>)
    requires Good(w, ps, cs, s) && AllLegal(s, ops) && StringsIn(ps, strings)
    modifies w, cs, w.live, ps, strings
    ensures Good(w, ps, cs, Run(s, ops))
    decreases |ops|
  {
    if ops != [] {
      Apply(w, ps, cs, ops[0], s, strings);
      ApplyAll(w, ps, cs, ops[1..], Step(s, ops[0]), strings);
    }
  }

  /** Any run on any mixed population shows exactly what the abstract run computes, views and
      callbacks and their order included, and leaks exactly as many nodes as its operations on the
      Cleanable base strand.  `strings` are the strings the slices may write. */
  method RunAll(w: World, ps: seq<PinnableSlice>, cs: seq<Cleanable>, ops: seq<Op>,
                ghost s: State, ghost strings: set<ByteString>)
    requires Good(w, ps, cs, s) && AllLegal(s, ops) && StringsIn(ps, strings)
    modifies w, cs, w.live, ps, strings
    ensures Good(w, ps, cs, Run(s, ops))
    ensures |CR.Leaked(w, cs)| == |old(CR.Leaked(w, cs))| + StrandedIn(s, ops)
  {
    CR.LeaksCounted(w, cs, s.base);
    ApplyAll(w, ps, cs, ops, s, strings);
    RunStrands(s, ops);
    CR.LeaksCounted(w, cs, Run(s, ops).base);
  }

  /** What the objects show always satisfies the premise of the plain-string theorem. */
  lemma ObjectsWellShown(ps: seq<PinnableSlice>, s: State)
    requires Slices(ps, s.slices)
    ensures AllWellShown(s)
  {
    forall i | 0 <= i < |s.slices| ensures WellShown(s.slices[i]) {
      assert SnapOf(ps[i]) == Snaps(ps)[i];
    }
  }
}
