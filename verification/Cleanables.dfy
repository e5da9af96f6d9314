/** Cleanable: a list of cleanup callbacks whose first element is embedded in the object and whose
    others are heap nodes.  The list of pending callbacks is the abstract value. */
module Cleanables {
  import opened Bytes

  /** A null function pointer. */
  const NULL: nat := 0

  datatype Callback = Callback(fn: nat, arg1: int, arg2: int)

  /** What lies outside the objects: the callbacks that have run, and the heap nodes that have been
      allocated and not deleted. */
  class World {
    var ran: seq<Callback>
    ghost var live: set<Cleanup>

    constructor ()
      ensures ran == [] && live == {}
    {
      ran, live := [], {};
    }

    /** A call through a cleanup function pointer. */
    method Call(c: Callback)
      requires c.fn != NULL
      modifies this`ran
      ensures ran == old(ran) + [c]
    {
      ran := ran + [c];
    }

    /** `delete c`: only a live node may be deleted. */
    method Delete(c: Cleanup)
      requires c in live
      modifies this`live
      ensures live == old(live) - {c}
    {
      live := live - {c};
    }
  }

  class Cleanup {
    var fn: nat
    var arg1: int
    var arg2: int
    var next: Cleanup?

    function Value(): Callback
      reads this
    {
      Callback(fn, arg1, arg2)
    }
  }

  // ---------------------------------------------------------------- the abstract list

  /** A new callback goes behind the first one. */
  function Insert(pending: seq<Callback>, c: Callback): seq<Callback> {
    if pending == [] then [c] else [pending[0], c] + pending[1..]
  }

  lemma InsertTail(p: seq<Callback>, c: Callback)
    requires p != []
    ensures Insert(p, c) != [] && Insert(p, c)[0] == p[0] && Insert(p, c)[1..] == [c] + p[1..]
  {}

  function InsertAll(pending: seq<Callback>, cs: seq<Callback>): seq<Callback>
    decreases |cs|
  {
    if cs == [] then pending else InsertAll(Insert(pending, cs[0]), cs[1..])
  }

  /** The order delegation leaves: the target's first callback stays first, the delegated ones
      follow it in reverse, then the rest of the target.  An empty target takes the source's
      first callback as its own first. */
  function Delegated(target: seq<Callback>, source: seq<Callback>): seq<Callback> {
    if source == [] then target
    else if target == [] then [source[0]] + Reverse(source[1..])
    else [target[0]] + Reverse(source) + target[1..]
  }

  lemma {:induction false} InsertAllIsDelegated(target: seq<Callback>, source: seq<Callback>)
    ensures InsertAll(target, source) == Delegated(target, source)
    decreases |source|
  {
    if source != [] {
      var rest := source[1..];
      InsertAllIsDelegated(Insert(target, source[0]), rest);
      if target == [] {
        assert Delegated([source[0]], rest) == [source[0]] + Reverse(rest);
      } else {
        assert Reverse(source) == Reverse(rest) + [source[0]];
        assert Insert(target, source[0])[1..] == [source[0]] + target[1..];
      }
    }
  }

  /** The order of a list built by registrations alone: the first callback, then the others with the
      latest in front. */
  lemma RegisteredOrder(cs: seq<Callback>)
    requires cs != []
    ensures var p := InsertAll([], cs);
            && |p| == |cs| && p[0] == cs[0]
            && forall i :: 0 < i < |cs| ==> p[i] == cs[|cs| - i]
  {
    InsertAllIsDelegated([], cs);
    var others := cs[1..];
    forall i | 0 < i < |cs| ensures ([cs[0]] + Reverse(others))[i] == cs[|cs| - i] {
      ReverseAt(others, i - 1);
      assert others[|others| - i] == cs[|cs| - i];
    }
  }

  /** Where each callback comes to lie when a list is delegated to another one. */
  lemma DelegatedOrder(target: seq<Callback>, source: seq<Callback>)
    requires target != []
    ensures var d, n := Delegated(target, source), |source|;
            && |d| == |target| + n && d[0] == target[0]
            && (forall i :: 0 < i <= n ==> d[i] == source[n - i])
            && (forall i :: 0 < i < |target| ==> d[i + n] == target[i])
            && Delegated(target, []) == target
  {
    var r, n := Reverse(source), |source|;
    if n > 0 {
      forall k | 0 <= k < n ensures r[k] == source[n - 1 - k] {
        ReverseAt(source, k);
      }
      Spliced(target, r);
    }
  }

  lemma Spliced(target: seq<Callback>, r: seq<Callback>)
    requires target != []
    ensures var d := [target[0]] + r + target[1..];
            && |d| == |target| + |r| && d[0] == target[0]
            && (forall i :: 0 < i <= |r| ==> d[i] == r[i - 1])
            && (forall i :: 0 < i < |target| ==> d[i + |r|] == target[i])
  {}

  // ---------------------------------------------------------------- the class

  /** `first` starts an acyclic list whose nodes hold exactly these callbacks and are exactly the
      members of `repr`. */
  ghost predicate Linked(first: Cleanup?, calls: seq<Callback>, repr: set<Cleanup>)
    reads repr
    decreases |calls|
  {
    if calls == [] then first == null && repr == {}
    else first != null && first in repr && first.fn != NULL && first.Value() == calls[0]
         && Linked(first.next, calls[1..], repr - {first})
  }

  lemma LinkedCons(n: Cleanup, calls: seq<Callback>, repr: set<Cleanup>)
    requires Linked(n.next, calls, repr) && n.fn != NULL && n !in repr
    ensures Linked(n, [n.Value()] + calls, repr + {n})
  {
    assert ([n.Value()] + calls)[1..] == calls;
    assert repr + {n} - {n} == repr;
  }

  lemma {:induction false} LinkedSize(first: Cleanup?, calls: seq<Callback>, repr: set<Cleanup>)
    requires Linked(first, calls, repr)
    ensures |repr| == |calls|
    decreases |calls|
  {
    if calls != [] {
      LinkedSize(first.next, calls[1..], repr - {first});
    }
  }

  /** How many heap nodes a list takes: all but its first callback need one. */
  function Nodes(pending: seq<Callback>): nat {
    if pending == [] then 0 else |pending| - 1
  }

  lemma ReprSize(x: Cleanable)
    requires x.Valid()
    ensures |x.repr| == Nodes(x.pending)
  {
    if x.pending != [] {
      LinkedSize(x.next, x.pending[1..], x.repr);
    }
  }

  lemma OneMore(live: set<Cleanup>, was: set<Cleanup>, repr: set<Cleanup>)
    requires was <= repr && |repr| == |was| + 1 && live !! (repr - was)
    ensures |live + (repr - was)| == |live| + 1
  {
    assert repr == was + (repr - was);
  }

  class Cleanable {
    var fn: nat
    var arg1: int
    var arg2: int
    var next: Cleanup?
    /** The callbacks of the embedded head and of the heap nodes behind it, in order, and the set of
        those nodes. */
    ghost var pending: seq<Callback>
    ghost var repr: set<Cleanup>

    /** The list is acyclic and ends, every node holds a function, and without a head function
        there is no list. */
    ghost predicate Valid()
      reads this, repr
    {
      if fn == NULL then next == null && pending == [] && repr == {}
      else pending != [] && pending[0] == Callback(fn, arg1, arg2) && Linked(next, pending[1..], repr)
    }

    constructor ()
      ensures Valid() && pending == [] && repr == {}
    {
      fn, next, pending, repr := NULL, null, [], {};
    }

    /** RegisterCleanup(function, arg1, arg2). */
    method RegisterCleanup(w: World, c: Callback)
      requires Valid() && c.fn != NULL
      modifies this, w`live
      ensures Valid() && pending == Insert(old(pending), c)
      ensures fresh(repr - old(repr)) && old(repr) <= repr
      ensures w.live == old(w.live) + (repr - old(repr))
    {
      if fn == NULL {
        fn, arg1, arg2 := c.fn, c.arg1, c.arg2;
        pending := [c];
      } else {
        var n := new Cleanup;
        n.next := next;
        next := n;
        n.fn, n.arg1, n.arg2 := c.fn, c.arg1, c.arg2;
        w.live := w.live + {n};
        LinkedCons(n, pending[1..], repr);
        InsertTail(pending, c);
        pending, repr := Insert(pending, c), repr + {n};
      }
    }

    /** RegisterCleanup(Cleanup *c): takes over the node, or copies it into the head and deletes it. */
    method RegisterNode(w: World, c: Cleanup)
      requires Valid() && c !in repr && c.fn != NULL && c in w.live
      modifies this, c, w`live
      ensures Valid() && pending == Insert(old(pending), old(c.Value()))
      ensures if old(pending) == [] then repr == {} && w.live == old(w.live) - {c}
              else repr == old(repr) + {c} && w.live == old(w.live)
    {
      if fn == NULL {
        fn, arg1, arg2 := c.fn, c.arg1, c.arg2;
        w.Delete(c);
        pending := [c.Value()];
      } else {
        c.next := next;
        next := c;
        LinkedCons(c, pending[1..], repr);
        InsertTail(pending, c.Value());
        pending, repr := Insert(pending, c.Value()), repr + {c};
      }
    }

    /** Hands every callback over, one by one: the head by value, the nodes themselves.  An object
        that delegates to itself ends empty, with all its callbacks lost. */
    method DelegateCleanupsTo(w: World, other: Cleanable)
      requires Valid() && other.Valid() && repr <= w.live
      requires other == this || repr !! other.repr
      modifies this, repr, other, w`live
      ensures Valid() && pending == [] && repr == {}
      ensures w.live >= old(w.live) && fresh(w.live - old(w.live))
      ensures old(pending) == [] ==> w.live == old(w.live)
      ensures other == this && old(pending) != [] ==> |w.live| == |old(w.live)| + 1
      ensures other != this ==>
                && other.Valid() && other.pending == Delegated(old(other.pending), old(pending))
                && other.repr == old(repr) + old(other.repr) + (w.live - old(w.live))
    {
      if fn == NULL {
        return;
      }
      if other == this {
        DelegateToSelf(w);
      } else {
        DelegateToOther(w, other);
      }
    }

    /** DelegateCleanupsTo between two objects. */
    method DelegateToOther(w: World, other: Cleanable)
      requires Valid() && fn != NULL && other.Valid() && other != this && repr <= w.live && repr !! other.repr
      modifies this, repr, other, w`live
      ensures Valid() && pending == [] && repr == {}
      ensures w.live >= old(w.live) && fresh(w.live - old(w.live))
      ensures other.Valid() && other.pending == Delegated(old(other.pending), old(pending))
      ensures other.repr == old(repr) + old(other.repr) + (w.live - old(w.live))
    {
      InsertAllIsDelegated(other.pending, pending);
      other.RegisterCleanup(w, Callback(fn, arg1, arg2));
      other.TakeNodes(w, next, pending[1..], repr);
      fn, next, pending, repr := NULL, null, [], {};
    }

    /** Registers the callback of a head that is in use. */
    method CopyHead(w: World)
      requires Valid() && fn != NULL
      modifies this, w`live
      ensures Valid() && pending != [] && fresh(repr - old(repr)) && old(repr) <= repr
      ensures fn != NULL && w.live == old(w.live) + (repr - old(repr)) && |w.live| == |old(w.live)| + 1
    {
      ReprSize(this);
      RegisterCleanup(w, Callback(fn, arg1, arg2));
      ReprSize(this);
      OneMore(old(w.live), old(repr), repr);
    }

    /** DelegateCleanupsTo when both objects are this one.  The head is copied into a new node, every
        node is spliced in front of itself, and the head forgets the cyclic list that results. */
    method DelegateToSelf(w: World)
      requires Valid() && fn != NULL
      modifies this, repr, w`live
      ensures Valid() && pending == [] && repr == {}
      ensures w.live >= old(w.live) && fresh(w.live - old(w.live)) && |w.live| == |old(w.live)| + 1
    {
      CopyHead(w);
      SpliceOntoSelf(next, pending[1..], repr);
      fn, next, pending, repr := NULL, null, [], {};
    }

    /** Its loop: each node is still well linked when the loop reaches it, and no longer afterwards. */
    method SpliceOntoSelf(first: Cleanup?, ghost calls: seq<Callback>, ghost nodes: set<Cleanup>)
      requires Linked(first, calls, nodes)
      modifies this`next, nodes
    {
      var c := first;
      ghost var later, left := calls, nodes;
      while c != null
        invariant Linked(c, later, left) && left <= nodes
        decreases |later|
      {
        var nextNode := c.next;
        c.next := next;
        next := c;
        later, left := later[1..], left - {c};
        c := nextNode;
      }
    }

    /** The loop of DelegateCleanupsTo, on the receiving side. */
    method TakeNodes(w: World, first: Cleanup?, ghost calls: seq<Callback>, ghost mine: set<Cleanup>)
      requires Valid() && pending != []
      requires Linked(first, calls, mine) && mine !! repr && mine <= w.live
      modifies this, mine, w`live
      ensures Valid() && pending == InsertAll(old(pending), calls)
      ensures repr == mine + old(repr) && w.live == old(w.live)
    {
      var c := first;
      ghost var later, left := calls, mine;
      while c != null
        invariant Valid() && pending != [] && w.live == old(w.live)
        invariant Linked(c, later, left) && left !! repr && left <= mine
        invariant left + repr == mine + old(repr)
        invariant InsertAll(pending, later) == InsertAll(old(pending), calls)
        decreases |later|
      {
        var nextNode := c.next;
        RegisterNode(w, c);
        later, left := later[1..], left - {c};
        c := nextNode;
      }
    }

    /** Move assignment: the list this object held before is overwritten. */
    method MoveFrom(other: Cleanable)
      requires Valid() && other.Valid()
      modifies this, other
      ensures Valid() && other.Valid()
      ensures other == this ==> pending == old(pending) && repr == old(repr)
      ensures other != this ==>
                && pending == old(other.pending) && repr == old(other.repr)
                && other.pending == [] && other.repr == {}
    {
      if this != other {
        fn, arg1, arg2, next := other.fn, other.arg1, other.arg2, other.next;
        pending, repr := other.pending, other.repr;
        other.fn, other.next := NULL, null;
        other.pending, other.repr := [], {};
      }
    }

    /** Reset: runs the list in order, deletes its nodes, and empties the object. */
    method Reset(w: World)
      requires Valid() && repr <= w.live
      modifies this, w
      ensures Valid() && pending == [] && repr == {}
      ensures w.ran == old(w.ran) + old(pending)
      ensures w.live == old(w.live) - old(repr)
    {
      DoCleanup(w);
      fn, next, pending, repr := NULL, null, [], {};
    }

    method DoCleanup(w: World)
      requires Valid() && repr <= w.live
      modifies w
      ensures w.ran == old(w.ran) + pending
      ensures w.live == old(w.live) - repr
    {
      if fn != NULL {
        AppendAssociative(w.ran, [pending[0]], pending[1..]);
        assert pending == [pending[0]] + pending[1..];
        w.Call(Callback(fn, arg1, arg2));
        var c := next;
        ghost var later, left := pending[1..], repr;
        while c != null
          invariant Linked(c, later, left) && left <= w.live
          invariant w.ran + later == old(w.ran) + pending
          invariant w.live - left == old(w.live) - repr
          decreases |later|
        {
          AppendAssociative(w.ran, [later[0]], later[1..]);
          assert later == [later[0]] + later[1..];
          w.Call(c.Value());
          var nextNode := c.next;
          w.Delete(c);
          later, left := later[1..], left - {c};
          c := nextNode;
        }
      }
    }
  }
}
