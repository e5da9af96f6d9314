/** PinnableSlice: a byte view that is either owned (kept in a string) or pinned (external memory
    released by cleanups), and its refinement of a plain string. */
module PinnableSlices {
  import opened Bytes
  import opened Cleanables

  // ---------------------------------------------------------------- the abstract slice

  /** What a PinnableSlice shows, whether it is pinned, and what its string holds. */
  datatype Abs = Abs(view: Bytes, pinned: bool, buf: Bytes)

  /** Trimming an unpinned slice erases from the string and shows the whole of it, so that a view
      that was empty comes back as the string. */
  function Trimmed(a: Abs, from: nat, to: nat): Abs
    requires from <= to <= |a.view|
  {
    var rest := if !a.pinned && a.view == [] then a.buf else a.view[from..to];
    a.(view := rest, buf := if a.pinned then a.buf else rest)
  }

  /** Trimming a pinned slice leaves the string alone, trimming a shown string erases from it, and
      trimming an empty view of an unpinned slice shows the string. */
  lemma TrimmedMeans(a: Abs, from: nat, to: nat)
    requires from <= to <= |a.view|
    ensures Trimmed(a, from, to).pinned == a.pinned
    ensures a.pinned ==> Trimmed(a, from, to).view == a.view[from..to] && Trimmed(a, from, to).buf == a.buf
    ensures !a.pinned && a.view != [] ==>
              Trimmed(a, from, to).view == a.view[from..to] && Trimmed(a, from, to).buf == a.view[from..to]
    ensures !a.pinned && a.view == [] ==> Trimmed(a, from, to).view == a.buf && Trimmed(a, from, to).buf == a.buf
  {}

  lemma SliceOfSlice(s: Bytes, off: nat, size: nat, from: nat, to: nat)
    requires off + size <= |s| && from <= to <= size
    ensures s[off..off + size][from..to] == s[off + from..off + to]
  {
    var t, u := s[off..off + size][from..to], s[off + from..off + to];
    assert |t| == |u|;
    forall i | 0 <= i < |t| ensures t[i] == u[i] {}
  }

  /** Erasing from either end of a whole string, or nothing from a stale one. */
  lemma Erased(s: Bytes, size: nat, n: nat)
    requires n <= size <= |s| && (size == 0 || size == |s|)
    ensures s[..size - n] + s[size..] == if size == 0 then s else s[0..size - n]
    ensures s[n..] == if size == 0 then s else s[n..size]
  {
    if size == 0 {
      assert s[..0] + s[0..] == s;
    } else {
      assert s[size..] == [];
    }
  }

  class PinnableSlice {
    /** The Cleanable base, the string member, and the string in use. */
    const cleanups: Cleanable
    const selfSpace: ByteString
    var buf: ByteString
    /** The Slice base: a pointer into `data` and a length. */
    var data: ByteString
    var off: nat
    var size: nat
    var pinned: bool

    ghost predicate Valid()
      reads this, cleanups, cleanups.repr, buf, data
    {
      cleanups.Valid() && ViewValid()
    }

    /** An unpinned slice is empty or shows its whole string. */
    ghost predicate ViewValid()
      reads this, buf, data
    {
      if pinned then off + size <= |data.bytes|
      else size == 0 || (data == buf && off == 0 && size == |buf.bytes|)
    }

    ghost function View(): Bytes
      reads this, data
    {
      if off + size <= |data.bytes| then data.bytes[off..off + size] else []
    }

    ghost function Value(): Abs
      reads this, buf, data
    {
      Abs(View(), pinned, buf.bytes)
    }

    /** Pinned on the bytes of its own string member, which a move clears. */
    ghost predicate PinnedOnItself()
      reads this
    {
      pinned && data == selfSpace
    }

    constructor ()
      ensures Valid() && fresh(cleanups) && fresh(selfSpace) && buf == data == selfSpace
      ensures cleanups.pending == [] && cleanups.repr == {} && Value() == Abs([], false, [])
    {
      var c := new Cleanable();
      var s := new ByteString([]);
      cleanups, selfSpace, buf, data := c, s, s, s;
      off, size, pinned := 0, 0, false;
    }

    /** PinnableSlice(std::string *): the caller's string is the one in use, and not yet shown. */
    constructor OnString(text: ByteString)
      ensures Valid() && fresh(cleanups) && fresh(selfSpace) && buf == text
      ensures cleanups.pending == [] && cleanups.repr == {} && Value() == Abs([], false, text.bytes)
    {
      var c := new Cleanable();
      var s := new ByteString([]);
      cleanups, selfSpace, buf, data := c, s, text, s;
      off, size, pinned := 0, 0, false;
    }

    /** What both forms of PinSlice do to the view. */
    method Point(s: ByteString, from: nat, len: nat)
      requires from + len <= |s.bytes|
      modifies this`data, this`off, this`size, this`pinned
      ensures ViewValid() && data == s
      ensures Value() == old(Value()).(view := s.bytes[from..from + len], pinned := true)
    {
      pinned, data, off, size := true, s, from, len;
    }

    /** PinSlice(s, f, arg1, arg2). */
    method PinSlice(w: World, s: ByteString, from: nat, len: nat, c: Callback)
      requires Valid() && !pinned && from + len <= |s.bytes| && c.fn != NULL
      modifies this`data, this`off, this`size, this`pinned, cleanups, w`live
      ensures Valid() && data == s
      ensures Value() == old(Value()).(view := s.bytes[from..from + len], pinned := true)
      ensures cleanups.pending == Insert(old(cleanups.pending), c)
      ensures old(cleanups.repr) <= cleanups.repr && fresh(cleanups.repr - old(cleanups.repr))
      ensures w.live == old(w.live) + (cleanups.repr - old(cleanups.repr))
    {
      Point(s, from, len);
      cleanups.RegisterCleanup(w, c);
    }

    /** PinSlice(s, cleanable): takes over all of the cleanable's callbacks. */
    method PinSliceFrom(w: World, s: ByteString, from: nat, len: nat, c: Cleanable)
      requires Valid() && !pinned && from + len <= |s.bytes|
      requires c.Valid() && c.repr <= w.live && (c == cleanups || c.repr !! cleanups.repr)
      modifies this`data, this`off, this`size, this`pinned, cleanups, c, c.repr, w`live
      ensures Valid() && data == s && c.Valid() && c.pending == [] && c.repr == {}
      ensures Value() == old(Value()).(view := s.bytes[from..from + len], pinned := true)
      ensures w.live >= old(w.live) && fresh(w.live - old(w.live))
      ensures c != cleanups ==>
                && cleanups.pending == Delegated(old(cleanups.pending), old(c.pending))
                && cleanups.repr == old(c.repr) + old(cleanups.repr) + (w.live - old(w.live))
      ensures old(c.pending) == [] ==> w.live == old(w.live)
      ensures c == cleanups && old(c.pending) != [] ==> |w.live| == |old(w.live)| + 1
    {
      Point(s, from, len);
      c.DelegateCleanupsTo(w, cleanups);
    }

    /** PinSelf(): shows the string. */
    method PinSelf()
      requires !pinned
      modifies this`data, this`off, this`size
      ensures ViewValid() && data == buf && off == 0 && size == |buf.bytes|
      ensures Value() == old(Value()).(view := buf.bytes)
    {
      data, off, size := buf, 0, |buf.bytes|;
    }

    /** PinSelf(slice): copies into the string and shows it. */
    method PinSelfCopy(s: Bytes)
      requires ViewValid() && !pinned
      modifies this`data, this`off, this`size, buf
      ensures ViewValid() && data == buf && Value() == old(Value()).(view := s, buf := s)
    {
      buf.bytes := s;
      PinSelf();
    }

    method RemovePrefix(n: nat)
      requires ViewValid() && n <= size
      modifies this`data, this`off, this`size, buf
      ensures ViewValid() && data == if pinned then old(data) else buf
      ensures Value() == Trimmed(old(Value()), n, |old(Value()).view|)
    {
      if pinned {
        SliceOfSlice(data.bytes, off, size, n, size);
        off, size := off + n, size - n;
      } else {
        Erased(buf.bytes, size, n);
        assert size > 0 ==> View() == buf.bytes;
        buf.bytes := buf.bytes[n..];
        PinSelf();
      }
    }

    /** `erase(size() - n, n)` on the string, from the view's length. */
    method RemoveSuffix(n: nat)
      requires ViewValid() && n <= size
      modifies this`data, this`off, this`size, buf
      ensures ViewValid() && data == if pinned then old(data) else buf
      ensures Value() == Trimmed(old(Value()), 0, |old(Value()).view| - n)
    {
      if pinned {
        SliceOfSlice(data.bytes, off, size, 0, size - n);
        size := size - n;
      } else {
        Erased(buf.bytes, size, n);
        assert size > 0 ==> View() == buf.bytes;
        buf.bytes := buf.bytes[..size - n] + buf.bytes[size..];
        PinSelf();
      }
    }

    /** Reset: runs the cleanups and forgets the view; the string keeps its bytes. */
    method Reset(w: World)
      requires Valid() && cleanups.repr <= w.live
      modifies this`size, this`pinned, cleanups, w
      ensures Valid() && cleanups.pending == [] && cleanups.repr == {}
      ensures Value() == Abs([], false, old(buf.bytes))
      ensures w.ran == old(w.ran) + old(cleanups.pending) && w.live == old(w.live) - old(cleanups.repr)
    {
      cleanups.Reset(w);
      pinned, size := false, 0;
    }

    /** Move assignment onto a constructed object: the target's own callbacks run, then the list, the
        view and the string change hands. */
    method MoveFrom(w: World, other: PinnableSlice)
      requires Valid() && cleanups.repr <= w.live
      requires other != this ==> other.Valid() && Separate(this, other)
      modifies this, cleanups, selfSpace, other, other.cleanups, other.selfSpace, w
      ensures other == this ==>
                && Value() == old(Value()) && Valid() && data == old(data) && buf == old(buf)
                && cleanups.pending == old(cleanups.pending) && cleanups.repr == old(cleanups.repr)
                && w.ran == old(w.ran) && w.live == old(w.live)
      ensures other != this ==>
                && cleanups.Valid() && cleanups.pending == old(other.cleanups.pending)
                && cleanups.repr == old(other.cleanups.repr)
                && other.cleanups.Valid() && other.cleanups.pending == [] && other.cleanups.repr == {}
                && w.ran == old(w.ran) + old(cleanups.pending) && w.live == old(w.live) - old(cleanups.repr)
      ensures other != this ==>
                MovedView(other, old(Value()), old(other.Value()), old(buf), old(other.buf), old(other.data))
      ensures other != this ==> MoveKeepsView(other, old(other.Value()), old(other.PinnedOnItself()))
    {
      if this != other {
        MoveCleanups(w, other.cleanups);
        MoveView(other);
      }
    }

    /** The Cleanable half of the move: its target is empty, so nothing is lost. */
    method MoveCleanups(w: World, given: Cleanable)
      requires cleanups.Valid() && given.Valid() && given != cleanups
      requires cleanups.repr !! given.repr && cleanups.repr <= w.live
      modifies cleanups, given, w
      ensures cleanups.Valid() && cleanups.pending == old(given.pending) && cleanups.repr == old(given.repr)
      ensures given.Valid() && given.pending == [] && given.repr == {}
      ensures w.ran == old(w.ran) + old(cleanups.pending) && w.live == old(w.live) - old(cleanups.repr)
    {
      cleanups.Reset(w);
      cleanups.MoveFrom(given);
    }

    /** Where the two objects point after a move. */
    ghost predicate MovedView(other: PinnableSlice, was: Abs, given: Abs, wasBuf: ByteString, givenBuf: ByteString,
                              givenData: ByteString)
      reads this, other, buf, other.buf, other.data
    {
      && pinned == given.pinned && buf.bytes == (if pinned then was.buf else given.buf)
      && (if pinned then buf == wasBuf && data == givenData
          else (buf == selfSpace || buf == givenBuf) && (data == givenData || data == buf))
      && other.ViewValid() && other.Value() == Abs([], false, [])
      && other.buf == other.data == other.selfSpace
    }

    /** The view survives the move, unless it pointed into the string member that the move clears:
        then, if there was anything to see, it points past the end. */
    ghost predicate MoveKeepsView(other: PinnableSlice, given: Abs, onItself: bool)
      reads this, other, buf, data
    {
      if onItself then given.view != [] ==> !ViewValid()
      else ViewValid() && View() == given.view && ViewsSeparate(this, other)
    }

    /** The Slice and string half of the move. */
    method MoveView(other: PinnableSlice)
      requires ViewValid() && other.ViewValid() && ViewsSeparate(this, other)
      modifies this`data, this`off, this`size, this`pinned, this`buf, selfSpace
      modifies other`data, other`off, other`size, other`pinned, other`buf, other.selfSpace
      ensures MovedView(other, old(Value()), old(other.Value()), old(buf), old(other.buf), old(other.data))
      ensures MoveKeepsView(other, old(other.Value()), old(other.PinnedOnItself()))
    {
      TakeView(other);
      other.Forget();
    }

    method TakeView(other: PinnableSlice)
      requires ViewsSeparate(this, other)
      modifies this`data, this`off, this`size, this`pinned, this`buf, selfSpace
      ensures size == other.size && pinned == other.pinned
      ensures pinned ==> data == other.data && off == other.off && buf == old(buf) && buf.bytes == old(buf.bytes)
      ensures !pinned && other.buf == other.selfSpace ==>
                data == buf == selfSpace && off == 0 && buf.bytes == other.buf.bytes
      ensures !pinned && other.buf != other.selfSpace ==> data == other.data && off == other.off && buf == other.buf
    {
      size := other.size;
      pinned := other.pinned;
      if pinned {
        data, off := other.data, other.off;
      } else {
        if other.buf == other.selfSpace {
          selfSpace.bytes := other.selfSpace.bytes;
          buf := selfSpace;
          data, off := buf, 0;
        } else {
          buf := other.buf;
          data, off := other.data, other.off;
        }
      }
    }

    /** What a move leaves behind. */
    method Forget()
      modifies this`data, this`off, this`size, this`pinned, this`buf, selfSpace
      ensures buf == data == selfSpace && selfSpace.bytes == [] && off == 0 && size == 0 && !pinned
    {
      selfSpace.bytes := [];
      buf := selfSpace;
      pinned := false;
      PinSelf();
    }
  }

  /** Two slices share no storage they may write, and show nothing the other may write. */
  ghost predicate Separate(p: PinnableSlice, q: PinnableSlice)
    reads p, q, p.cleanups, q.cleanups
  {
    ViewsSeparate(p, q) && p.cleanups != q.cleanups && p.cleanups.repr !! q.cleanups.repr
  }

  ghost predicate ViewsSeparate(p: PinnableSlice, q: PinnableSlice)
    reads p, q
  {
    && p != q && p.selfSpace != q.selfSpace
    && p.selfSpace != q.buf && q.selfSpace != p.buf && p.buf != q.buf
    && (p.pinned || p.size > 0 ==> p.data != q.selfSpace && p.data != q.buf)
    && (q.pinned || q.size > 0 ==> q.data != p.selfSpace && q.data != p.buf)
  }

  /** A slice pinned on its own string member, then moved: the new owner's view dangles. */
  method MoveDangles(w: World, c: Callback) returns (q: PinnableSlice)
    requires c.fn != NULL
    modifies w
    ensures !q.ViewValid()
  {
    var p := new PinnableSlice();
    p.PinSelfCopy([1]);
    p.Reset(w);
    p.PinSlice(w, p.selfSpace, 0, 1, c);
    q := new PinnableSlice();
    q.MoveFrom(w, p);
  }
}
