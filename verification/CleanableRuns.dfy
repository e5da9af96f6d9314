/** Runs of register, delegate, move and reset over any population of Cleanables: the objects refine
    a list of callback lists, and callbacks are conserved. */
module CleanableRuns {
  import opened Cleanables

  datatype Op =
    | Register(target: nat, callback: Callback)
    | Delegate(source: nat, target: nat)
    | Move(target: nat, source: nat)
    | Reset(target: nat)

  /** The pending list of every object, what has run, what move assignments and delegations to
      oneself lost, what was ever registered, and how many heap nodes are allocated. */
  datatype State = State(
    lists: seq<seq<Callback>>, ran: seq<Callback>, lost: seq<Callback>, registered: seq<Callback>, nodes: int)

  /** Indices name objects of the population, and functions are not null. */
  predicate Legal(n: nat, op: Op) {
    && op.target < n
    && (op.Register? ==> op.callback.fn != NULL)
    && (op.Delegate? ==> op.source < n)
    && (op.Move? ==> op.source < n)
  }

  function Step(s: State, op: Op): (t: State)
    requires Legal(|s.lists|, op)
    ensures |t.lists| == |s.lists|
  {
    var mine := s.lists[op.target];
    match op
    case Register(i, c) =>
      s.(lists := s.lists[i := Insert(mine, c)], registered := s.registered + [c],
         nodes := s.nodes + if mine == [] then 0 else 1)
    case Delegate(j, i) =>
      var nodes := s.nodes + if mine == [] || s.lists[j] == [] then 0 else 1;
      if i == j then s.(lists := s.lists[i := []], lost := s.lost + mine, nodes := nodes)
      else s.(lists := s.lists[i := Delegated(mine, s.lists[j])][j := []], nodes := nodes)
    case Move(i, j) =>
      if i == j then s
      else s.(lists := s.lists[i := s.lists[j]][j := []], lost := s.lost + mine)
    case Reset(i) =>
      s.(lists := s.lists[i := []], ran := s.ran + mine, nodes := s.nodes - Nodes(mine))
  }

  predicate AllLegal(n: nat, ops: seq<Op>) {
    forall k :: 0 <= k < |ops| ==> Legal(n, ops[k])
  }

  function Run(s: State, ops: seq<Op>): (t: State)
    requires AllLegal(|s.lists|, ops)
    ensures |t.lists| == |s.lists|
    decreases |ops|
  {
    if ops == [] then s else Run(Step(s, ops[0]), ops[1..])
  }

  // ---------------------------------------------------------------- conservation

  /** How often c is pending, over all objects. */
  function PendingCount(lists: seq<seq<Callback>>, c: Callback): nat {
    if lists == [] then 0 else Count(lists[0], c) + PendingCount(lists[1..], c)
  }

  function Count(s: seq<Callback>, c: Callback): nat {
    multiset(s)[c]
  }

  function Unaccounted(s: State, c: Callback): int {
    Count(s.registered, c) - PendingCount(s.lists, c) - Count(s.ran, c) - Count(s.lost, c)
  }

  /** Every registered callback is accounted for: pending, run, or overwritten. */
  ghost predicate Accounted(s: State) {
    forall c :: Unaccounted(s, c) == 0
  }

  lemma {:induction false} CountUpdate(lists: seq<seq<Callback>>, i: nat, l: seq<Callback>, c: Callback)
    requires i < |lists|
    ensures PendingCount(lists[i := l], c) == PendingCount(lists, c) - Count(lists[i], c) + Count(l, c)
  {
    if i == 0 {
      assert lists[0 := l][1..] == lists[1..];
    } else {
      CountUpdate(lists[1..], i - 1, l, c);
      assert lists[i := l][1..] == lists[1..][i - 1 := l];
    }
  }

  lemma CountAppend(a: seq<Callback>, b: seq<Callback>, c: Callback)
    ensures Count(a + b, c) == Count(a, c) + Count(b, c)
  {}

  lemma CountInsert(p: seq<Callback>, x: Callback, c: Callback)
    ensures Count(Insert(p, x), c) == Count(p, c) + Count([x], c)
  {
    if p != [] {
      assert p == [p[0]] + p[1..];
      assert Insert(p, x) == [p[0]] + [x] + p[1..];
    }
  }

  lemma {:induction false} CountInsertAll(p: seq<Callback>, s: seq<Callback>, c: Callback)
    ensures Count(InsertAll(p, s), c) == Count(p, c) + Count(s, c)
    decreases |s|
  {
    if s != [] {
      CountInsert(p, s[0], c);
      CountInsertAll(Insert(p, s[0]), s[1..], c);
      CountAppend([s[0]], s[1..], c);
      assert s == [s[0]] + s[1..];
    }
  }

  lemma CountDelegated(p: seq<Callback>, s: seq<Callback>, c: Callback)
    ensures Count(Delegated(p, s), c) == Count(p, c) + Count(s, c)
  {
    InsertAllIsDelegated(p, s);
    CountInsertAll(p, s, c);
  }

  /** Two lists change at once. */
  lemma CountUpdateTwo(lists: seq<seq<Callback>>, i: nat, l: seq<Callback>, j: nat, c: Callback)
    requires i < |lists| && j < |lists| && i != j
    ensures PendingCount(lists[i := l][j := []], c) ==
            PendingCount(lists, c) - Count(lists[i], c) - Count(lists[j], c) + Count(l, c)
  {
    CountUpdate(lists, i, l, c);
    CountUpdate(lists[i := l], j, [], c);
  }

  lemma StepCounts(s: State, op: Op, c: Callback)
    requires Legal(|s.lists|, op)
    ensures Unaccounted(Step(s, op), c) == Unaccounted(s, c)
  {
    var i, mine := op.target, s.lists[op.target];
    match op
    case Register(_, x) =>
      CountInsert(mine, x, c);
      CountUpdate(s.lists, i, Insert(mine, x), c);
      CountAppend(s.registered, [x], c);
    case Delegate(j, _) =>
      if i == j {
        CountUpdate(s.lists, i, [], c);
        CountAppend(s.lost, mine, c);
      } else {
        CountDelegated(mine, s.lists[j], c);
        CountUpdateTwo(s.lists, i, Delegated(mine, s.lists[j]), j, c);
      }
    case Move(_, j) =>
      if i != j {
        CountUpdateTwo(s.lists, i, s.lists[j], j, c);
        CountAppend(s.lost, mine, c);
      }
    case Reset(_) =>
      CountUpdate(s.lists, i, [], c);
      CountAppend(s.ran, mine, c);
  }

  lemma StepAccounts(s: State, op: Op)
    requires Legal(|s.lists|, op) && Accounted(s)
    ensures Accounted(Step(s, op))
  {
    forall c ensures Unaccounted(Step(s, op), c) == 0 {
      StepCounts(s, op, c);
      assert Unaccounted(s, c) == 0;
    }
  }

  lemma {:induction false} RunAccounts(s: State, ops: seq<Op>)
    requires AllLegal(|s.lists|, ops) && Accounted(s)
    ensures Accounted(Run(s, ops))
    decreases |ops|
  {
    if ops != [] {
      StepAccounts(s, ops[0]);
      RunAccounts(Step(s, ops[0]), ops[1..]);
    }
  }

  /** The two ways to lose a list: moving another object onto it, and delegating it to itself. */
  predicate Loses(s: State, op: Op)
    requires Legal(|s.lists|, op)
  {
    && s.lists[op.target] != []
    && (|| (op.Move? && op.source != op.target)
        || (op.Delegate? && op.source == op.target))
  }

  predicate NeverLoses(s: State, ops: seq<Op>)
    requires AllLegal(|s.lists|, ops)
    decreases |ops|
  {
    ops == [] || (!Loses(s, ops[0]) && NeverLoses(Step(s, ops[0]), ops[1..]))
  }

  lemma StepLoses(s: State, op: Op)
    requires Legal(|s.lists|, op)
    ensures |s.lost| <= |Step(s, op).lost|
    ensures Step(s, op).lost == s.lost <==> !Loses(s, op)
  {}

  lemma {:induction false} LostGrows(s: State, ops: seq<Op>)
    requires AllLegal(|s.lists|, ops)
    ensures |s.lost| <= |Run(s, ops).lost|
    ensures Run(s, ops).lost == s.lost <==> NeverLoses(s, ops)
    decreases |ops|
  {
    if ops != [] {
      StepLoses(s, ops[0]);
      LostGrows(Step(s, ops[0]), ops[1..]);
    }
  }

  function Start(n: nat): State {
    State(seq(n, _ => []), [], [], [], 0)
  }

  lemma {:induction false} NothingPending(n: nat, c: Callback)
    ensures PendingCount(Start(n).lists, c) == 0
  {
    if n > 0 {
      NothingPending(n - 1, c);
      assert Start(n).lists[1..] == Start(n - 1).lists;
    }
  }

  lemma {:induction false} StartAccounts(n: nat)
    ensures Accounted(Start(n))
  {
    forall c ensures Unaccounted(Start(n), c) == 0 { NothingPending(n, c); }
  }

  /** Each registration of a callback is pending in exactly one object or has run exactly once. */
  ghost predicate Conserved(s: State) {
    forall c :: Count(s.registered, c) == PendingCount(s.lists, c) + Count(s.ran, c)
  }

  lemma ConservedMeansNothingLost(s: State)
    requires Accounted(s)
    ensures Conserved(s) <==> s.lost == []
  {
    if s.lost != [] {
      var c := s.lost[0];
      assert Count(s.lost, c) > 0 && Unaccounted(s, c) == 0;
      assert Count(s.registered, c) != PendingCount(s.lists, c) + Count(s.ran, c);
    } else {
      forall c ensures Count(s.registered, c) == PendingCount(s.lists, c) + Count(s.ran, c) {
        assert Count(s.lost, c) == 0 && Unaccounted(s, c) == 0;
      }
    }
  }

  /** From a fresh population, callbacks are conserved precisely when every move found an empty
      target and no object with callbacks delegated to itself. */
  lemma Conservation(n: nat, ops: seq<Op>)
    requires AllLegal(n, ops)
    ensures Conserved(Run(Start(n), ops)) <==> NeverLoses(Start(n), ops)
  {
    StartAccounts(n);
    RunAccounts(Start(n), ops);
    LostGrows(Start(n), ops);
    ConservedMeansNothingLost(Run(Start(n), ops));
  }

  /** Moving onto a pending list drops it: registered, never to run. */
  lemma MoveLoses(c: Callback)
    requires c.fn != NULL
    ensures var t := Run(Start(2), [Register(0, c), Move(0, 1), Reset(0), Reset(1)]);
            t.registered == [c] && t.ran == [] && t.lists == [[], []]
  {
    var s := Start(2);
    var s1 := Step(s, Register(0, c));
    var s2 := Step(s1, Move(0, 1));
    var s3 := Step(s2, Reset(0));
    var s4 := Step(s3, Reset(1));
    var ops := [Register(0, c), Move(0, 1), Reset(0), Reset(1)];
    assert ops[1..] == [Move(0, 1), Reset(0), Reset(1)];
    assert ops[1..][1..] == [Reset(0), Reset(1)];
    assert ops[1..][1..][1..] == [Reset(1)];
    assert Run(s4, []) == s4;
    assert Run(s3, [Reset(1)]) == s4;
    assert Run(s2, [Reset(0), Reset(1)]) == s4;
    assert Run(s1, [Move(0, 1), Reset(0), Reset(1)]) == s4;
    assert s4.lists == [[], []];
  }

  /** So does delegating to oneself. */
  lemma SelfDelegationLoses(c: Callback)
    requires c.fn != NULL
    ensures var t := Run(Start(1), [Register(0, c), Delegate(0, 0), Reset(0)]);
            t.registered == [c] && t.ran == [] && t.lists == [[]]
  {
    var s := Start(1);
    var s1 := Step(s, Register(0, c));
    var s2 := Step(s1, Delegate(0, 0));
    var s3 := Step(s2, Reset(0));
    var ops := [Register(0, c), Delegate(0, 0), Reset(0)];
    assert ops[1..] == [Delegate(0, 0), Reset(0)];
    assert ops[1..][1..] == [Reset(0)];
    assert Run(s3, []) == s3;
    assert Run(s2, [Reset(0)]) == s3;
    assert Run(s1, [Delegate(0, 0), Reset(0)]) == s3;
    assert s3.lists == [[]];
  }

  // ---------------------------------------------------------------- stranded nodes

  /** How many heap nodes the lists take. */
  function NodesIn(lists: seq<seq<Callback>>): nat {
    if lists == [] then 0 else Nodes(lists[0]) + NodesIn(lists[1..])
  }

  /** How many allocated nodes are in no list: nothing can free them any more. */
  function Stranded(s: State): int {
    s.nodes - NodesIn(s.lists)
  }

  /** A move strands the nodes of the list it overwrites, and a delegation to oneself all nodes, the
      one it allocates included.  A list of one callback has no node: losing it strands nothing. */
  function StrandedBy(s: State, op: Op): nat
    requires Legal(|s.lists|, op)
  {
    var mine := s.lists[op.target];
    if op.Move? && op.source != op.target then Nodes(mine)
    else if op.Delegate? && op.source == op.target then |mine|
    else 0
  }

  function StrandedIn(s: State, ops: seq<Op>): nat
    requires AllLegal(|s.lists|, ops)
    decreases |ops|
  {
    if ops == [] then 0 else StrandedBy(s, ops[0]) + StrandedIn(Step(s, ops[0]), ops[1..])
  }

  lemma {:induction false} NodesUpdate(lists: seq<seq<Callback>>, i: nat, l: seq<Callback>)
    requires i < |lists|
    ensures NodesIn(lists[i := l]) == NodesIn(lists) - Nodes(lists[i]) + Nodes(l)
  {
    if i == 0 {
      assert lists[0 := l][1..] == lists[1..];
    } else {
      NodesUpdate(lists[1..], i - 1, l);
      assert lists[i := l][1..] == lists[1..][i - 1 := l];
    }
  }

  lemma NodesUpdateTwo(lists: seq<seq<Callback>>, i: nat, l: seq<Callback>, j: nat)
    requires i < |lists| && j < |lists| && i != j
    ensures NodesIn(lists[i := l][j := []]) == NodesIn(lists) - Nodes(lists[i]) - Nodes(lists[j]) + Nodes(l)
  {
    NodesUpdate(lists, i, l);
    NodesUpdate(lists[i := l], j, []);
  }

  lemma {:induction false} NothingStranded(n: nat)
    ensures Stranded(Start(n)) == 0
  {
    if n > 0 {
      NothingStranded(n - 1);
      assert Start(n).lists[1..] == Start(n - 1).lists;
    }
  }

  lemma StepStrands(s: State, op: Op)
    requires Legal(|s.lists|, op)
    ensures Stranded(Step(s, op)) == Stranded(s) + StrandedBy(s, op)
    ensures StrandedBy(s, op) > 0 ==> Loses(s, op)
  {
    var i, mine := op.target, s.lists[op.target];
    match op
    case Register(_, x) => NodesUpdate(s.lists, i, Insert(mine, x));
    case Delegate(j, _) =>
      if i == j {
        NodesUpdate(s.lists, i, []);
      } else {
        NodesUpdateTwo(s.lists, i, Delegated(mine, s.lists[j]), j);
      }
    case Move(_, j) => if i != j { NodesUpdateTwo(s.lists, i, s.lists[j], j); }
    case Reset(_) => NodesUpdate(s.lists, i, []);
  }

  lemma {:induction false} RunStrands(s: State, ops: seq<Op>)
    requires AllLegal(|s.lists|, ops)
    ensures Stranded(Run(s, ops)) == Stranded(s) + StrandedIn(s, ops)
    decreases |ops|
  {
    if ops != [] {
      StepStrands(s, ops[0]);
      RunStrands(Step(s, ops[0]), ops[1..]);
    }
  }

  // ---------------------------------------------------------------- the objects refine the lists

  ghost predicate Owns(w: World, x: Cleanable)
    reads w, x, w.live
  {
    x.repr <= w.live && x.Valid()
  }

  ghost function Held(cs: seq<Cleanable>): seq<set<Cleanup>>
    reads cs
  {
    seq(|cs|, i requires 0 <= i < |cs| reads cs => cs[i].repr)
  }

  ghost predicate Disjoint(held: seq<set<Cleanup>>) {
    forall i, j :: 0 <= i < j < |held| ==> held[i] !! held[j]
  }

  predicate Distinct(cs: seq<Cleanable>) {
    forall i, j :: 0 <= i < j < |cs| ==> cs[i] != cs[j]
  }

  /** A population: distinct well-formed objects with disjoint lists of live nodes.  Nothing is
      freed twice or used after it is freed, because only live nodes are in a list. */
  ghost predicate Population(w: World, cs: seq<Cleanable>)
    reads w, cs, w.live
  {
    Distinct(cs) && Disjoint(Held(cs)) && forall i :: 0 <= i < |cs| ==> Owns(w, cs[i])
  }

  ghost predicate Shows(w: World, cs: seq<Cleanable>, s: State)
    reads w, cs
  {
    && |s.lists| == |cs| && w.ran == s.ran && |w.live| == s.nodes
    && (forall i :: 0 <= i < |cs| ==> cs[i].pending == s.lists[i])
  }

  /** Only lists i and j changed; list i took nodes from both and from outside, list j is empty. */
  ghost predicate Moved(held: seq<set<Cleanup>>, held': seq<set<Cleanup>>, i: nat, j: nat, extra: set<Cleanup>) {
    && |held| == |held'| && i < |held| && j < |held|
    && (forall k :: 0 <= k < |held| && k != i && k != j ==> held'[k] == held[k])
    && (forall k :: 0 <= k < |held| ==> held[k] !! extra)
    && held'[i] <= held[i] + held[j] + extra && (i == j || held'[j] == {})
  }

  lemma StillDisjoint(held: seq<set<Cleanup>>, held': seq<set<Cleanup>>, i: nat, j: nat, extra: set<Cleanup>)
    requires Disjoint(held) && Moved(held, held', i, j, extra)
    ensures Disjoint(held')
  {
    forall a, b | 0 <= a < b < |held'| ensures held'[a] !! held'[b] {
      if a == i {
        assert b != j ==> held[b] !! held[i] + held[j] + extra;
      } else if b == i {
        assert a != j ==> held[a] !! held[i] + held[j] + extra;
      }
    }
  }

  /** Lists i and j together keep all their nodes. */
  ghost predicate KeepsLive(held: seq<set<Cleanup>>, held': seq<set<Cleanup>>, i: nat, j: nat)
    requires |held| == |held'| && i < |held| && j < |held|
  {
    held[i] + held[j] <= held'[i] + held'[j]
  }

  /** So objects whose lists have changed like that are a population again. */
  lemma Settle(w: World, cs: seq<Cleanable>, held: seq<set<Cleanup>>, i: nat, j: nat, extra: set<Cleanup>)
    requires Distinct(cs) && (forall k :: 0 <= k < |cs| ==> Owns(w, cs[k]))
    requires Disjoint(held) && Moved(held, Held(cs), i, j, extra)
    ensures Population(w, cs)
  {
    StillDisjoint(held, Held(cs), i, j, extra);
  }

  lemma SizeAt(w: World, cs: seq<Cleanable>, k: nat)
    requires k < |cs| && Owns(w, cs[k])
    ensures |Held(cs)[k]| == Nodes(cs[k].pending)
  {
    ReprSize(cs[k]);
  }

  /** Lists i and j took in exactly the new nodes. */
  lemma LiveGrew(
    live: set<Cleanup>, live': set<Cleanup>, held: seq<set<Cleanup>>, held': seq<set<Cleanup>>, i: nat, j: nat)
    requires live <= live' && Disjoint(held) && Moved(held, held', i, j, live' - live)
    requires KeepsLive(held, held', i, j) && live' - live <= held'[i]
    ensures |live'| - |live| == |held'[i]| - |held[i]| - if i == j then 0 else |held[j]|
  {
    var extra := live' - live;
    assert live' == live + extra;
    if i == j {
      assert held'[i] == held[i] + extra;
    } else {
      assert held[i] !! held[j] && held'[i] == held[i] + held[j] + extra;
      assert |held[i] + held[j]| == |held[i]| + |held[j]|;
    }
  }

  lemma HeldIsLive(w: World, cs: seq<Cleanable>)
    requires Population(w, cs)
    ensures forall k :: 0 <= k < |cs| ==> Held(cs)[k] <= w.live
  {
    forall k | 0 <= k < |cs| ensures Held(cs)[k] <= w.live {
      assert Owns(w, cs[k]);
    }
  }

  /** Delegation moves the nodes like that. */
  lemma DelegationMoves(live: set<Cleanup>, live': set<Cleanup>, held: seq<set<Cleanup>>, held': seq<set<Cleanup>>,
                        i: nat, j: nat)
    requires |held| == |held'| && i < |held| && j < |held| && forall k :: 0 <= k < |held| ==> held[k] <= live
    requires held'[j] == {} && (i != j ==> held'[i] == held[i] + held[j] + (live' - live))
    requires forall k :: 0 <= k < |held| && k != i && k != j ==> held'[k] == held[k]
    ensures Moved(held, held', i, j, live' - live)
    ensures i != j ==> KeepsLive(held, held', i, j) && live' - live <= held'[i]
  {}

  /** What delegation leaves at each index. */
  lemma DelegatedLists(s: State, j: nat, i: nat, k: nat)
    requires i < |s.lists| && j < |s.lists| && k < |s.lists|
    ensures Step(s, Delegate(j, i)).lists[k]
         == if k == j then [] else if k == i then Delegated(s.lists[i], s.lists[j]) else s.lists[k]
  {}

  method RegisterAt(w: World, cs: seq<Cleanable>, i: nat, c: Callback)
    requires Population(w, cs) && i < |cs| && c.fn != NULL
    modifies cs[i], w`live
    ensures forall k :: 0 <= k < |cs| ==> Owns(w, cs[k])
    ensures cs[i].pending == Insert(old(cs[i].pending), c)
    ensures forall k :: 0 <= k < |cs| && k != i ==> cs[k].pending == old(cs[k].pending)
    ensures w.live >= old(w.live) && fresh(w.live - old(w.live))
    ensures Moved(old(Held(cs)), Held(cs), i, i, w.live - old(w.live)) && KeepsLive(old(Held(cs)), Held(cs), i, i)
    ensures w.live - old(w.live) <= Held(cs)[i]
  {
    cs[i].RegisterCleanup(w, c);
    forall k | 0 <= k < |cs| && k != i ensures Owns(w, cs[k]) {
      assert old(Owns(w, cs[k]));
    }
  }

  method ApplyRegister(w: World, cs: seq<Cleanable>, i: nat, c: Callback, ghost s: State)
    requires Population(w, cs) && Shows(w, cs, s) && Legal(|cs|, Register(i, c))
    modifies cs[i], w`live
    ensures Population(w, cs) && Shows(w, cs, Step(s, Register(i, c))) && fresh(w.live - old(w.live))
  {
    ghost var live, held := w.live, Held(cs);
    SizeAt(w, cs, i);
    RegisterAt(w, cs, i, c);
    Settle(w, cs, held, i, i, w.live - live);
    SizeAt(w, cs, i);
    LiveGrew(live, w.live, held, Held(cs), i, i);
  }

  method DelegateAt(w: World, cs: seq<Cleanable>, j: nat, i: nat)
    requires Population(w, cs) && i < |cs| && j < |cs|
    modifies cs[i], cs[j], cs[j].repr, w`live
    ensures forall k :: 0 <= k < |cs| ==> Owns(w, cs[k])
    ensures cs[j].pending == []
    ensures i != j ==> cs[i].pending == Delegated(old(cs[i].pending), old(cs[j].pending))
    ensures forall k :: 0 <= k < |cs| && k != i && k != j ==> cs[k].pending == old(cs[k].pending)
    ensures w.live >= old(w.live) && fresh(w.live - old(w.live))
    ensures Moved(old(Held(cs)), Held(cs), i, j, w.live - old(w.live))
    ensures i != j ==> KeepsLive(old(Held(cs)), Held(cs), i, j) && w.live - old(w.live) <= Held(cs)[i]
    ensures i == j ==> |w.live| == |old(w.live)| + if old(cs[i].pending) == [] then 0 else 1
  {
    ghost var held := Held(cs);
    assert held[i] == cs[i].repr && held[j] == cs[j].repr;
    assert forall k :: 0 <= k < |cs| && k != j ==> held[k] !! held[j];
    assert i != j ==> cs[i] != cs[j];
    cs[j].DelegateCleanupsTo(w, cs[i]);
    forall k | 0 <= k < |cs| && k != i && k != j ensures Owns(w, cs[k]) {
      assert old(Owns(w, cs[k])) && cs[k].repr == held[k] && held[k] !! held[j];
    }
  }

  /** Delegation allocates one node, for the head it hands over, unless one of the lists is empty. */
  method DelegateSized(w: World, cs: seq<Cleanable>, j: nat, i: nat)
    requires Population(w, cs) && i < |cs| && j < |cs|
    modifies cs[i], cs[j], cs[j].repr, w`live
    ensures Population(w, cs) && fresh(w.live - old(w.live))
    ensures cs[j].pending == []
    ensures i != j ==> cs[i].pending == Delegated(old(cs[i].pending), old(cs[j].pending))
    ensures forall k :: 0 <= k < |cs| && k != i && k != j ==> cs[k].pending == old(cs[k].pending)
    ensures |w.live| == |old(w.live)| + if old(cs[i].pending) == [] || old(cs[j].pending) == [] then 0 else 1
  {
    ghost var live, held := w.live, Held(cs);
    SizeAt(w, cs, i);
    SizeAt(w, cs, j);
    DelegateAt(w, cs, j, i);
    Settle(w, cs, held, i, j, w.live - live);
    if i != j {
      SizeAt(w, cs, i);
      LiveGrew(live, w.live, held, Held(cs), i, j);
    }
  }

  method ApplyDelegate(w: World, cs: seq<Cleanable>, j: nat, i: nat, ghost s: State)
    requires Population(w, cs) && Shows(w, cs, s) && Legal(|cs|, Delegate(j, i))
    modifies cs[i], cs[j], cs[j].repr, w`live
    ensures Population(w, cs) && Shows(w, cs, Step(s, Delegate(j, i))) && fresh(w.live - old(w.live))
  {
    DelegateSized(w, cs, j, i);
    forall k | 0 <= k < |cs| ensures cs[k].pending == Step(s, Delegate(j, i)).lists[k] {
      DelegatedLists(s, j, i, k);
    }
  }

  /** A move keeps the population in every case. */
  method ApplyMove(w: World, cs: seq<Cleanable>, i: nat, j: nat, ghost s: State)
    requires Population(w, cs) && Shows(w, cs, s) && Legal(|cs|, Move(i, j))
    modifies cs[i], cs[j]
    ensures Population(w, cs) && Shows(w, cs, Step(s, Move(i, j)))
  {
    ghost var held := Held(cs);
    cs[i].MoveFrom(cs[j]);
    Settle(w, cs, held, i, j, {});
  }

  method ResetAt(w: World, cs: seq<Cleanable>, i: nat)
    requires Population(w, cs) && i < |cs|
    modifies cs[i], w
    ensures forall k :: 0 <= k < |cs| ==> Owns(w, cs[k])
    ensures cs[i].pending == [] && w.ran == old(w.ran) + old(cs[i].pending)
    ensures forall k :: 0 <= k < |cs| && k != i ==> cs[k].pending == old(cs[k].pending)
    ensures w.live == old(w.live) - old(Held(cs)[i])
    ensures Moved(old(Held(cs)), Held(cs), i, i, {})
  {
    ghost var held := Held(cs);
    assert held[i] == cs[i].repr;
    cs[i].Reset(w);
    forall k | 0 <= k < |cs| && k != i ensures Owns(w, cs[k]) {
      assert old(Owns(w, cs[k])) && cs[k].repr == held[k] && held[k] !! held[i];
    }
  }

  lemma LiveShrank(live: set<Cleanup>, gone: set<Cleanup>)
    requires gone <= live
    ensures |live - gone| == |live| - |gone|
  {
    assert live == (live - gone) + gone;
  }

  method ApplyReset(w: World, cs: seq<Cleanable>, i: nat, ghost s: State)
    requires Population(w, cs) && Shows(w, cs, s) && Legal(|cs|, Reset(i))
    modifies cs[i], w
    ensures Population(w, cs) && Shows(w, cs, Step(s, Reset(i))) && w.live <= old(w.live)
  {
    ghost var live, held := w.live, Held(cs);
    SizeAt(w, cs, i);
    LiveShrank(live, held[i]);
    ResetAt(w, cs, i);
    Settle(w, cs, held, i, i, {});
  }

  // ---------------------------------------------------------------- runs of objects

  /** The live nodes that are in no list. */
  ghost function Leaked(w: World, cs: seq<Cleanable>): set<Cleanup>
    reads w, cs
  {
    w.live - Union(Held(cs))
  }

  ghost function Union(held: seq<set<Cleanup>>): set<Cleanup> {
    if held == [] then {} else held[0] + Union(held[1..])
  }

  lemma {:induction false} UnionMembers(held: seq<set<Cleanup>>, n: Cleanup)
    ensures n in Union(held) <==> exists k :: 0 <= k < |held| && n in held[k]
  {
    if held != [] {
      UnionMembers(held[1..], n);
      if k :| 0 <= k < |held[1..]| && n in held[1..][k] {
        assert n in held[k + 1];
      }
      if k :| 0 < k < |held| && n in held[k] {
        assert n in held[1..][k - 1];
      }
    }
  }

  /** A live node has leaked exactly if no object of the population can reach it. */
  lemma LeakedMembers(w: World, cs: seq<Cleanable>, n: Cleanup)
    ensures n in Leaked(w, cs) <==> n in w.live && forall k :: 0 <= k < |cs| ==> n !in cs[k].repr
  {
    UnionMembers(Held(cs), n);
    assert forall k :: 0 <= k < |cs| ==> Held(cs)[k] == cs[k].repr;
  }

  lemma {:induction false} UnionSize(held: seq<set<Cleanup>>, lists: seq<seq<Callback>>)
    requires Disjoint(held) && |held| == |lists|
    requires forall k :: 0 <= k < |held| ==> |held[k]| == Nodes(lists[k])
    ensures |Union(held)| == NodesIn(lists)
  {
    if held != [] {
      assert forall k :: 0 <= k < |held| - 1 ==> held[1..][k] == held[k + 1];
      UnionSize(held[1..], lists[1..]);
      forall n | n in held[0] ensures n !in Union(held[1..]) {
        UnionMembers(held[1..], n);
      }
      assert held[0] !! Union(held[1..]);
    }
  }

  /** As many nodes have leaked as the abstract state says are stranded. */
  lemma LeaksCounted(w: World, cs: seq<Cleanable>, s: State)
    requires Population(w, cs) && Shows(w, cs, s)
    ensures |Leaked(w, cs)| == Stranded(s)
  {
    var held := Held(cs);
    forall k | 0 <= k < |cs| ensures |held[k]| == Nodes(s.lists[k]) {
      SizeAt(w, cs, k);
    }
    UnionSize(held, s.lists);
    forall n | n in Union(held) ensures n in w.live {
      UnionMembers(held, n);
      var k :| 0 <= k < |held| && n in held[k];
      assert Owns(w, cs[k]);
    }
    LiveShrank(w.live, Union(held));
  }

  method Apply(w: World, cs: seq<Cleanable>, op: Op, ghost s: State)
    requires Population(w, cs) && Shows(w, cs, s) && Legal(|cs|, op)
    modifies w, cs, w.live
    ensures Population(w, cs) && Shows(w, cs, Step(s, op)) && fresh(w.live - old(w.live))
  {
    match op {
      case Register(i, c) => ApplyRegister(w, cs, i, c, s);
      case Delegate(j, i) => ApplyDelegate(w, cs, j, i, s);
      case Move(i, j) => ApplyMove(w, cs, i, j, s);
      case Reset(i) => ApplyReset(w, cs, i, s);
    }
  }

  method ApplyAll(w: World, cs: seq<Cleanable>, ops: seq<Op>, ghost s: State)
    requires Population(w, cs) && Shows(w, cs, s) && AllLegal(|cs|, ops)
    modifies w, cs, w.live
    ensures Population(w, cs) && Shows(w, cs, Run(s, ops))
    decreases |ops|
  {
    if ops != [] {
      Apply(w, cs, ops[0], s);
      ApplyAll(w, cs, ops[1..], Step(s, ops[0]));
    }
  }

  /** Any run on any population shows exactly what the abstract run computes, order included, and
      leaks exactly as many nodes as its moves and delegations strand. */
  method RunAll(w: World, cs: seq<Cleanable>, ops: seq<Op>, ghost s: State)
    requires Population(w, cs) && Shows(w, cs, s) && AllLegal(|cs|, ops)
    modifies w, cs, w.live
    ensures Population(w, cs) && Shows(w, cs, Run(s, ops))
    ensures |Leaked(w, cs)| == |old(Leaked(w, cs))| + StrandedIn(s, ops)
  {
    LeaksCounted(w, cs, s);
    ApplyAll(w, cs, ops, s);
    RunStrands(s, ops);
    LeaksCounted(w, cs, Run(s, ops));
  }

  method NewPair() returns (w: World, cs: seq<Cleanable>)
    ensures fresh(w) && fresh(set x | x in cs) && |cs| == 2 && w.live == {}
    ensures Population(w, cs) && Shows(w, cs, Start(2))
  {
    w := new World();
    var a := new Cleanable();
    var b := new Cleanable();
    cs := [a, b];
  }

  /** Two callbacks moved over: both are lost, and the node of the second leaks.  With one callback
      nothing leaks, though it is lost. */
  method LeakANode(c: Callback, d: Callback) returns (w: World, cs: seq<Cleanable>)
    requires c.fn != NULL && d.fn != NULL
    ensures |Leaked(w, cs)| == 1
  {
    w, cs := NewPair();
    ghost var s := Start(2);
    var ops := [Register(0, c), Register(0, d), Move(0, 1)];
    LeaksCounted(w, cs, s);
    TwoAreStranded(c, d);
    RunAll(w, cs, ops, s);
  }

  lemma TwoAreStranded(c: Callback, d: Callback)
    requires c.fn != NULL && d.fn != NULL
    ensures Stranded(Start(2)) == 0
    ensures StrandedIn(Start(2), [Register(0, c), Register(0, d), Move(0, 1)]) == 1
    ensures StrandedIn(Start(2), [Register(0, c), Move(0, 1)]) == 0
  {
    var s := Start(2);
    NothingStranded(2);
    var s1 := Step(s, Register(0, c));
    var s2 := Step(s1, Register(0, d));
    assert s1.lists[0] == [c] && s2.lists[0] == [c, d];
    var ops, few := [Register(0, c), Register(0, d), Move(0, 1)], [Register(0, c), Move(0, 1)];
    assert ops[1..] == [Register(0, d), Move(0, 1)] && ops[1..][1..] == [Move(0, 1)] && few[1..] == [Move(0, 1)];
    assert StrandedIn(s2, [Move(0, 1)]) == 1 + StrandedIn(Step(s2, Move(0, 1)), []);
    assert StrandedIn(s1, [Register(0, d), Move(0, 1)]) == 1;
    assert StrandedIn(s1, [Move(0, 1)]) == 0 + StrandedIn(Step(s1, Move(0, 1)), []);
  }
}
