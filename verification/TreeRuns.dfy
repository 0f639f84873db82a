/** Whole runs of `Insert` and `Remove`, and how few items a tall tree can hold. */
module TreeRuns {
  import opened Types
  import opened TreeModel
  import opened TreeInsert
  import opened TreeRemove

  // ----- runs -----

  datatype Op = Insert(key: Key, rid: Rid) | Remove(key: Key)

  /** The root, if the header names one, and the next page id. */
  datatype State = State(root: Option<Tree>, next: PageId)

  function Step(c: Config, st: State, op: Op): State
    requires c.Ok()
  {
    match (op, st.root)
    case (Insert(k, v), None) => State(Some(Leaf(st.next, [Item(k, v)], INVALID_PAGE_ID)), st.next + 1)
    case (Insert(k, v), Some(t)) => var (t', n) := InsertTree(c, t, Item(k, v), st.next); State(Some(t'), n)
    case (Remove(_), None) => st
    case (Remove(k), Some(t)) => State(RemoveTree(c, t, k), st.next)
  }

  function Run(c: Config, st: State, ops: seq<Op>): State
    requires c.Ok()
  {
    if ops == [] then st else Step(c, Run(c, st, ops[..|ops| - 1]), ops[|ops| - 1])
  }

  /** What an operation should do to a finite map: an existing key is never overwritten. */
  function Expected(m: map<int, Rid>, op: Op): map<int, Rid> {
    match op
    case Insert(k, v) => if k in m then m else m[k := v]
    case Remove(k) => m - {k}
  }

  function ExpectedRun(m: map<int, Rid>, ops: seq<Op>): map<int, Rid> {
    if ops == [] then m else Expected(ExpectedRun(m, ops[..|ops| - 1]), ops[|ops| - 1])
  }

  ghost predicate StateOk(c: Config, st: State) {
    st.next >= 0 && (st.root.Some? ==> TreeOk(c, st.root.value, st.next))
  }

  function StateDict(st: State): map<int, Rid> {
    if st.root.None? then map[] else Dict(Items(st.root.value))
  }

  lemma StepOk(c: Config, st: State, op: Op)
    requires c.Ok() && StateOk(c, st)
    ensures StateOk(c, Step(c, st, op)) && st.next <= Step(c, st, op).next
    ensures StateDict(Step(c, st, op)) == Expected(StateDict(st), op)
    ensures op.Insert? && (st.root.Some? ==> Capped(c, st.root.value)) ==> Capped(c, Step(c, st, op).root.value)
  {
    match st.root
    case None =>
      if op.Insert? {
        var items := [Item(op.key, op.rid)];
        assert items[..0] == [] && Dict(items) == map[op.key := op.rid];
      }
    case Some(t) =>
      if op.Insert? {
        InsertTreeOk(c, t, Item(op.key, op.rid), st.next);
        InsertTreeDict(c, t, Item(op.key, op.rid), st.next);
      } else {
        RemoveTreeOk(c, t, op.key, st.next);
        RemoveTreeDict(c, t, op.key, st.next);
      }
  }

  /** Every run from a valid state stays valid and computes the finite map, key by key. */
  lemma {:induction false} RunOk(c: Config, st: State, ops: seq<Op>)
    requires c.Ok() && StateOk(c, st)
    ensures StateOk(c, Run(c, st, ops)) && StateDict(Run(c, st, ops)) == ExpectedRun(StateDict(st), ops)
  {
    if ops != [] {
      var n := |ops| - 1;
      RunOk(c, st, ops[..n]);
      StepOk(c, Run(c, st, ops[..n]), ops[n]);
    }
  }

  /** Runs of `Insert` alone, from an empty tree, never leave an internal page above its maximum size. */
  lemma {:induction false} InsertRunCapped(c: Config, first: PageId, ops: seq<Op>)
    requires c.Ok() && first >= 0 && forall i :: 0 <= i < |ops| ==> ops[i].Insert?
    ensures var st := Run(c, State(None, first), ops); StateOk(c, st) && (st.root.Some? ==> Capped(c, st.root.value))
  {
    if ops != [] {
      var n := |ops| - 1;
      InsertRunCapped(c, first, ops[..n]);
      StepOk(c, Run(c, State(None, first), ops[..n]), ops[n]);
    }
  }

  // ----- height -----

  function Pow(b: nat, e: nat): nat {
    if e == 0 then 1 else b * Pow(b, e - 1)
  }

  lemma {:induction false} KidsHold(c: Config, kids: seq<Tree>, h: nat, low: nat)
    requires forall i :: 0 <= i < |kids| ==> low <= |Items(kids[i])|
    ensures |kids| * low <= |ItemsOf(kids)|
  {
    if kids != [] {
      KidsHold(c, kids[1..], h, low);
      assert |kids| * low == low + |kids[1..]| * low;
    }
  }

  lemma MulAssoc(a: nat, b: nat, c: nat)
    ensures a * (b * c) == (a * b) * c
  {
  }

  lemma MulMono(a: nat, b: nat, c: nat)
    requires a <= b
    ensures a * c <= b * c
  {
  }

  /** A page below the root carries at least this many items. */
  lemma {:induction false} SubtreeHolds(c: Config, t: Tree, h: nat, b: Box)
    requires Inv(t, h, b) && Healthy(c, t) && Sized(c, t)
    ensures Pow(c.InternalMin(), h) * (c.leafMax / 2) <= |Items(t)|
    decreases h
  {
    var m, q := c.InternalMin(), c.leafMax / 2;
    if t.Node? {
      var low := Pow(m, h - 1) * q;
      ChildrenHold(c, t, h, b);
      MulMono(m, |t.kids|, low);
      MulAssoc(m, Pow(m, h - 1), q);
    }
  }

  lemma {:induction false} ChildrenHold(c: Config, t: Tree, h: nat, b: Box)
    requires t.Node? && Inv(t, h, b) && Sized(c, t)
    ensures h > 0 && |t.kids| * (Pow(c.InternalMin(), h - 1) * (c.leafMax / 2)) <= |Items(t)|
    decreases h, 0
  {
    var bs := Bounds(b.lo, t.seps, b.hi);
    assert SizedAll(c, t.kids);
    forall i | 0 <= i < |t.kids| ensures Pow(c.InternalMin(), h - 1) * (c.leafMax / 2) <= |Items(t.kids[i])| {
      SubtreeHolds(c, t.kids[i], h - 1, Box(bs[i], bs[i + 1], NextOf(t.kids, i, b.next)));
    }
    KidsHold(c, t.kids, h - 1, Pow(c.InternalMin(), h - 1) * (c.leafMax / 2));
  }

  /**
   * A tree of `levels >= 2` levels holds at least 2 * internalMin^(levels - 2) * (leafMax / 2) items, so the
   * search path is logarithmic in their number.
   */
  lemma TallTreeIsFull(c: Config, t: Tree, bound: PageId, levels: nat)
    requires c.Ok() && TreeOk(c, t, bound) && levels == Height(t) + 1 && levels >= 2
    ensures 2 * (Pow((c.internalMax + 1) / 2, levels - 2) * (c.leafMax / 2)) <= |Items(t)|
  {
    ChildrenHold(c, t, Height(t), ROOT_BOX);
    MulMono(2, |t.kids|, Pow(c.InternalMin(), levels - 2) * (c.leafMax / 2));
  }
}
