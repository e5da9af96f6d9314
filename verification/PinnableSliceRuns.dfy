/** Runs over any mixed population of PinnableSlices and Cleanables.  The objects refine abstract
    slices and callback lists; the slices show plain strings exactly as long as no stale view comes
    back; and callbacks are conserved exactly as long as the run loses no list. */
module PinnableSliceRuns {
  import opened Bytes
  import opened Cleanables
  import opened PinnableSlices
  import CR = CleanableRuns

  /** The operations of a slice, and those of any Cleanable: the objects 0, 1, ... are the bases of
      the slices, and the plain Cleanables follow. */
  datatype Op =
    | Pin(target: nat, bytes: Bytes, callback: Callback)
    | PinFrom(target: nat, bytes: Bytes, source: nat)
    | Show(target: nat)
    | Copy(target: nat, bytes: Bytes)
    | RemovePrefix(target: nat, n: nat)
    | RemoveSuffix(target: nat, n: nat)
    | Reset(target: nat)
    | Move(target: nat, source: nat)
    | Base(op: CR.Op)

  datatype State = State(slices: seq<Abs>, base: CR.State)

  /** The assertions of the source: only an unpinned slice is pinned, filled or shown, and no more is
      trimmed than is shown. */
  predicate Legal(s: State, op: Op) {
    && |s.slices| <= |s.base.lists|
    && match op
       case Base(o) => CR.Legal(|s.base.lists|, o)
       case Pin(i, _, c) => i < |s.slices| && !s.slices[i].pinned && c.fn != NULL
       case PinFrom(i, _, k) => i < |s.slices| && !s.slices[i].pinned && k < |s.base.lists|
       case Show(i) => i < |s.slices| && !s.slices[i].pinned
       case Copy(i, _) => i < |s.slices| && !s.slices[i].pinned
       case RemovePrefix(i, n) => i < |s.slices| && n <= |s.slices[i].view|
       case RemoveSuffix(i, n) => i < |s.slices| && n <= |s.slices[i].view|
       case Reset(i) => i < |s.slices|
       case Move(i, j) => i < |s.slices| && j < |s.slices|
  }

  const EMPTY := Abs([], false, [])

  function SliceStep(s: State, op: Op): (t: seq<Abs>)
    requires Legal(s, op)
    ensures |t| == |s.slices|
  {
    var ss := s.slices;
    match op
    case Base(_) => ss
    case Pin(i, bytes, _) => ss[i := ss[i].(view := bytes, pinned := true)]
    case PinFrom(i, bytes, _) => ss[i := ss[i].(view := bytes, pinned := true)]
    case Show(i) => ss[i := ss[i].(view := ss[i].buf)]
    case Copy(i, bytes) => ss[i := ss[i].(view := bytes, buf := bytes)]
    case RemovePrefix(i, n) => ss[i := Trimmed(ss[i], n, |ss[i].view|)]
    case RemoveSuffix(i, n) => ss[i := Trimmed(ss[i], 0, |ss[i].view| - n)]
    case Reset(i) => ss[i := Abs([], false, ss[i].buf)]
    case Move(i, j) =>
      if i == j then ss else ss[i := ss[j].(buf := if ss[j].pinned then ss[i].buf else ss[j].buf)][j := EMPTY]
  }

  /** What happens to the callbacks: a move assignment of slices resets the target first. */
  function BaseStep(s: State, op: Op): (t: CR.State)
    requires Legal(s, op)
    ensures |t.lists| == |s.base.lists|
  {
    match op
    case Base(o) => CR.Step(s.base, o)
    case Pin(i, _, c) => CR.Step(s.base, CR.Register(i, c))
    case PinFrom(i, _, k) => CR.Step(s.base, CR.Delegate(k, i))
    case Reset(i) => CR.Step(s.base, CR.Reset(i))
    case Move(i, j) => if i == j then s.base else CR.Step(CR.Step(s.base, CR.Reset(i)), CR.Move(i, j))
    case _ => s.base
  }

  function Step(s: State, op: Op): (t: State)
    requires Legal(s, op)
    ensures |t.slices| == |s.slices| && |t.base.lists| == |s.base.lists|
  {
    State(SliceStep(s, op), BaseStep(s, op))
  }

  predicate AllLegal(s: State, ops: seq<Op>)
    decreases |ops|
  {
    ops == [] || (Legal(s, ops[0]) && AllLegal(Step(s, ops[0]), ops[1..]))
  }

  function Run(s: State, ops: seq<Op>): (t: State)
    requires AllLegal(s, ops)
    ensures |t.slices| == |s.slices| && |t.base.lists| == |s.base.lists|
    decreases |ops|
  {
    if ops == [] then s else Run(Step(s, ops[0]), ops[1..])
  }

  // ---------------------------------------------------------------- the plain string

  predicate PlainLegal(texts: seq<Bytes>, op: Op) {
    match op
    case Base(_) => true
    case RemovePrefix(i, n) => i < |texts| && n <= |texts[i]|
    case RemoveSuffix(i, n) => i < |texts| && n <= |texts[i]|
    case Move(i, j) => i < |texts| && j < |texts|
    case _ => op.target < |texts|
  }

  /** What each operation is meant to do to the bytes shown. */
  function PlainStep(texts: seq<Bytes>, op: Op): (t: seq<Bytes>)
    requires PlainLegal(texts, op)
    ensures |t| == |texts|
  {
    match op
    case Base(_) => texts
    case Pin(i, bytes, _) => texts[i := bytes]
    case PinFrom(i, bytes, _) => texts[i := bytes]
    case Show(_) => texts
    case Copy(i, bytes) => texts[i := bytes]
    case RemovePrefix(i, n) => texts[i := texts[i][n..]]
    case RemoveSuffix(i, n) => texts[i := texts[i][..|texts[i]| - n]]
    case Reset(i) => texts[i := []]
    case Move(i, j) => if i == j then texts else texts[i := texts[j]][j := []]
  }

  function Views(s: State): seq<Bytes> {
    seq(|s.slices|, i requires 0 <= i < |s.slices| => s.slices[i].view)
  }

  /** An unpinned slice whose view is empty while its string is not: what Reset leaves. */
  predicate Stale(a: Abs) {
    !a.pinned && a.view == [] && a.buf != []
  }

  /** An unpinned slice shows nothing or its whole string: true of every object. */
  predicate WellShown(a: Abs) {
    a.pinned || a.view == [] || a.view == a.buf
  }

  predicate AllWellShown(s: State) {
    forall i :: 0 <= i < |s.slices| ==> WellShown(s.slices[i])
  }

  /** The step trims or shows a stale slice, which brings its old bytes back. */
  predicate Revives(s: State, op: Op)
    requires Legal(s, op)
  {
    (op.RemovePrefix? || op.RemoveSuffix? || op.Show?) && Stale(s.slices[op.target])
  }

  /** Every step does to the views what it does to plain strings, exactly when it does not trim or
      show a stale slice. */
  lemma StepShowsPlain(s: State, op: Op)
    requires Legal(s, op) && AllWellShown(s)
    ensures AllWellShown(Step(s, op))
    ensures Views(Step(s, op)) == PlainStep(Views(s), op) <==> !Revives(s, op)
  {
    var t, plain := Step(s, op), PlainStep(Views(s), op);
    StepWellShown(s, op);
    if Revives(s, op) {
      assert Views(t)[op.target] == s.slices[op.target].buf;
      assert plain[op.target] == [];
    } else {
      forall k | 0 <= k < |s.slices| ensures Views(t)[k] == plain[k] {
        SliceShowsPlain(s, op, k);
      }
    }
  }

  lemma SliceShowsPlain(s: State, op: Op, k: nat)
    requires Legal(s, op) && AllWellShown(s) && !Revives(s, op) && k < |s.slices|
    ensures Step(s, op).slices[k].view == PlainStep(Views(s), op)[k]
  {
    var a := s.slices[k];
    assert Views(s)[k] == a.view && WellShown(a);
    if op.RemovePrefix? && op.target == k {
      assert a.view[op.n..|a.view|] == a.view[op.n..];
    } else if op.RemoveSuffix? && op.target == k {
      assert a.view[0..|a.view| - op.n] == a.view[..|a.view| - op.n];
    }
  }

  lemma StepWellShown(s: State, op: Op)
    requires Legal(s, op) && AllWellShown(s)
    ensures AllWellShown(Step(s, op))
  {}

  /** The views follow the plain strings through every step of the run. */
  predicate FollowsPlain(s: State, ops: seq<Op>)
    requires AllLegal(s, ops)
    decreases |ops|
  {
    ops == [] ||
    (Views(Step(s, ops[0])) == PlainStep(Views(s), ops[0]) && FollowsPlain(Step(s, ops[0]), ops[1..]))
  }

  predicate NeverRevives(s: State, ops: seq<Op>)
    requires AllLegal(s, ops)
    decreases |ops|
  {
    ops == [] || (!Revives(s, ops[0]) && NeverRevives(Step(s, ops[0]), ops[1..]))
  }

  lemma {:induction false} RunShowsPlain(s: State, ops: seq<Op>)
    requires AllLegal(s, ops) && AllWellShown(s)
    ensures FollowsPlain(s, ops) <==> NeverRevives(s, ops)
    decreases |ops|
  {
    if ops != [] {
      StepShowsPlain(s, ops[0]);
      RunShowsPlain(Step(s, ops[0]), ops[1..]);
    }
  }

  /** Only Reset makes a slice stale; a move may hand staleness over, and everything else ends it or
      leaves it. */
  lemma OnlyResetMakesStale(s: State, op: Op, k: nat)
    requires Legal(s, op) && AllWellShown(s) && k < |s.slices|
    requires Stale(Step(s, op).slices[k])
    ensures op == Reset(k) || Stale(s.slices[k]) || (op.Move? && op.target == k && Stale(s.slices[op.source]))
  {
    if (op.RemovePrefix? || op.RemoveSuffix?) && op.target == k {
      assert WellShown(s.slices[k]);
    }
  }

  /** A move between two slices hands over the view and, with its order, every callback; the target's
      own callbacks run, and the source is left empty and unpinned. */
  lemma MoveTransfers(s: State, i: nat, j: nat)
    requires Legal(s, Move(i, j)) && i != j
    ensures var t, a, b := Step(s, Move(i, j)), s.slices[i], s.slices[j];
            && t.slices[i].view == b.view && t.slices[i].pinned == b.pinned
            && t.slices[i].buf == (if b.pinned then a.buf else b.buf)
            && t.slices[j] == Abs([], false, [])
            && t.base.lists[i] == s.base.lists[j] && t.base.lists[j] == []
            && t.base.ran == s.base.ran + s.base.lists[i] && t.base.lost == s.base.lost
            && (forall k :: 0 <= k < |s.slices| && k != i && k != j ==> t.slices[k] == s.slices[k])
            && (forall k :: 0 <= k < |s.base.lists| && k != i && k != j ==> t.base.lists[k] == s.base.lists[k])
  {}

  function Start(n: nat, m: nat): State {
    State(seq(n, _ => EMPTY), CR.Start(n + m))
  }

  /** Removing nothing after Reset brings the old bytes back, and so does PinSelf(). */
  lemma ResetRevived(bytes: Bytes, last: Op)
    requires bytes != [] && last in {RemovePrefix(0, 0), RemoveSuffix(0, 0), Show(0)}
    ensures var ops := [Copy(0, bytes), Reset(0), last];
            AllLegal(Start(1, 0), ops) && Run(Start(1, 0), ops).slices[0].view == bytes
  {
    var ops := [Copy(0, bytes), Reset(0), last];
    var s := Start(1, 0);
    var s1 := Step(s, ops[0]);
    var s2 := Step(s1, ops[1]);
    var s3 := Step(s2, ops[2]);
    assert ops[1..] == [ops[1], ops[2]] && ops[1..][1..] == [ops[2]] && ops[1..][1..][1..] == [];
    assert AllLegal(s3, []) && AllLegal(s2, ops[1..][1..]) && AllLegal(s1, ops[1..]);
    assert Run(s2, ops[1..][1..]) == s3;
    assert Run(s1, ops[1..]) == s3;
  }

  // ---------------------------------------------------------------- conservation

  /** Only operations on the Cleanable base can lose a list; a move of slices never does. */
  predicate Loses(s: State, op: Op)
    requires Legal(s, op)
  {
    match op
    case Base(o) => CR.Loses(s.base, o)
    case PinFrom(i, _, k) => k == i && s.base.lists[i] != []
    case _ => false
  }

  predicate NeverLoses(s: State, ops: seq<Op>)
    requires AllLegal(s, ops)
    decreases |ops|
  {
    ops == [] || (!Loses(s, ops[0]) && NeverLoses(Step(s, ops[0]), ops[1..]))
  }

  function Registers(op: Op): seq<Callback> {
    if op.Pin? then [op.callback]
    else if op.Base? && op.op.Register? then [op.op.callback]
    else []
  }

  function Registered(ops: seq<Op>): seq<Callback> {
    if ops == [] then [] else Registers(ops[0]) + Registered(ops[1..])
  }

  /** A step of a slice is none, one or two steps of its Cleanable base. */
  lemma StepConserves(s: State, op: Op)
    requires Legal(s, op) && CR.Accounted(s.base)
    ensures CR.Accounted(Step(s, op).base)
    ensures Step(s, op).base.registered == s.base.registered + Registers(op)
    ensures |s.base.lost| <= |Step(s, op).base.lost|
    ensures Step(s, op).base.lost == s.base.lost <==> !Loses(s, op)
  {
    match op
    case Base(o) =>
      CR.StepAccounts(s.base, o);
      CR.StepLoses(s.base, o);
    case Pin(i, _, c) => CR.StepAccounts(s.base, CR.Register(i, c));
    case PinFrom(i, _, k) =>
      CR.StepAccounts(s.base, CR.Delegate(k, i));
      CR.StepLoses(s.base, CR.Delegate(k, i));
    case Reset(i) => CR.StepAccounts(s.base, CR.Reset(i));
    case Move(i, j) =>
      if i != j {
        CR.StepAccounts(s.base, CR.Reset(i));
        CR.StepAccounts(CR.Step(s.base, CR.Reset(i)), CR.Move(i, j));
      }
    case _ =>
  }

  lemma {:induction false} RunConserves(s: State, ops: seq<Op>)
    requires AllLegal(s, ops) && CR.Accounted(s.base)
    ensures CR.Accounted(Run(s, ops).base)
    ensures Run(s, ops).base.registered == s.base.registered + Registered(ops)
    ensures |s.base.lost| <= |Run(s, ops).base.lost|
    ensures Run(s, ops).base.lost == s.base.lost <==> NeverLoses(s, ops)
    decreases |ops|
  {
    if ops != [] {
      StepConserves(s, ops[0]);
      RunConserves(Step(s, ops[0]), ops[1..]);
      AppendAssociative(s.base.registered, Registers(ops[0]), Registered(ops[1..]));
    }
  }

  /** From fresh slices and Cleanables, every callback ever registered is pending in one object or
      has run, once per registration, exactly when the run loses no list. */
  lemma Conservation(n: nat, m: nat, ops: seq<Op>)
    requires AllLegal(Start(n, m), ops)
    ensures var t := Run(Start(n, m), ops).base;
            && t.registered == Registered(ops)
            && (CR.Conserved(t) <==> NeverLoses(Start(n, m), ops))
  {
    CR.StartAccounts(n + m);
    RunConserves(Start(n, m), ops);
    CR.ConservedMeansNothingLost(Run(Start(n, m), ops).base);
    assert [] + Registered(ops) == Registered(ops);
  }

  // ---------------------------------------------------------------- stranded nodes

  /** Heap nodes that the step leaves in no list; a move of slices strands none. */
  function StrandedBy(s: State, op: Op): nat
    requires Legal(s, op)
  {
    match op
    case Base(o) => CR.StrandedBy(s.base, o)
    case PinFrom(i, _, k) => CR.StrandedBy(s.base, CR.Delegate(k, i))
    case _ => 0
  }

  function StrandedIn(s: State, ops: seq<Op>): nat
    requires AllLegal(s, ops)
    decreases |ops|
  {
    if ops == [] then 0 else StrandedBy(s, ops[0]) + StrandedIn(Step(s, ops[0]), ops[1..])
  }

  lemma StepStrands(s: State, op: Op)
    requires Legal(s, op)
    ensures CR.Stranded(Step(s, op).base) == CR.Stranded(s.base) + StrandedBy(s, op)
    ensures StrandedBy(s, op) > 0 ==> Loses(s, op)
  {
    match op
    case Base(o) => CR.StepStrands(s.base, o);
    case Pin(i, _, c) => CR.StepStrands(s.base, CR.Register(i, c));
    case PinFrom(i, _, k) => CR.StepStrands(s.base, CR.Delegate(k, i));
    case Reset(i) => CR.StepStrands(s.base, CR.Reset(i));
    case Move(i, j) =>
      if i != j {
        CR.StepStrands(s.base, CR.Reset(i));
        CR.StepStrands(CR.Step(s.base, CR.Reset(i)), CR.Move(i, j));
      }
    case _ =>
  }

  lemma {:induction false} RunStrands(s: State, ops: seq<Op>)
    requires AllLegal(s, ops)
    ensures CR.Stranded(Run(s, ops).base) == CR.Stranded(s.base) + StrandedIn(s, ops)
    decreases |ops|
  {
    if ops != [] {
      StepStrands(s, ops[0]);
      RunStrands(Step(s, ops[0]), ops[1..]);
    }
  }
}
