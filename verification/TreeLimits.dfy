/**
 * What runs do not keep: a removal that leaves an internal page above `internal_max_size_`, and leaves that fall
 * below `GetMinSize()` when `leaf_max_size_` is odd. Both start from the empty tree.
 */
module TreeLimits {
  import opened Types
  import opened TreeModel
  import opened TreeInsert
  import opened TreeRemove
  import opened TreeRuns
  import opened TreeSearch
  import opened Zipper

  lemma RunMore(c: Config, st: State, ops: seq<Op>, op: Op)
    requires c.Ok()
    ensures Run(c, st, ops + [op]) == Step(c, Run(c, st, ops), op)
  {
    assert (ops + [op])[..|ops|] == ops;
  }

  lemma OneStepDown(path: Path, t: Tree, key: int, i: nat)
    requires t.Node? && |t.kids| == |t.seps| + 1 && Route(t.seps, key) == i
    ensures i < |t.kids| && Descend(path, t, key) == Descend(path + [FrameAt(t, i, HoleOf(path))], t.kids[i], key)
  {
  }

  // ----- a removal that overfills a page -----

  const SMALL := Config(2, 3)

  function Entry(key: int): Item {
    Item(key, Rid(key, 0))
  }

  /** The trees of the run, each named by what its leaves hold. */
  const LEAF_1 := Leaf(0, [Entry(1)], 1)
  const LEAF_2 := Leaf(1, [Entry(2)], 3)
  const T13 := Leaf(0, [Entry(1), Entry(3)], INVALID_PAGE_ID)
  const T1_23 := Node(2, [2], [LEAF_1, Leaf(1, [Entry(2), Entry(3)], INVALID_PAGE_ID)])
  const T1_2_36 := Node(2, [2, 3], [LEAF_1, LEAF_2, Leaf(3, [Entry(3), Entry(6)], INVALID_PAGE_ID)])
  const LEFT := Node(2, [2], [LEAF_1, LEAF_2])
  const RIGHT := Node(5, [6], [Leaf(3, [Entry(3)], 4), Leaf(4, [Entry(6), Entry(7)], INVALID_PAGE_ID)])
  const FULL_TREE := Node(6, [3], [LEFT, RIGHT])
  const OVERFULL := Node(2, [2, 3, 7], [LEAF_1, LEAF_2, Leaf(3, [Entry(6)], 4), Leaf(4, [Entry(7)], INVALID_PAGE_ID)])

  const FILL_UP: seq<Op> := [] + [Insert(1, Rid(1, 0))] + [Insert(3, Rid(3, 0))] + [Insert(2, Rid(2, 0))] + [Insert(6, Rid(6, 0))] + [Insert(7, Rid(7, 0))]

  /** A leaf that is the root. */
  lemma InsertAtRoot(c: Config, items: seq<Item>, it: Item, n: PageId, i: nat)
    requires c.Ok() && LeafIndex(items, it.key) == i && !FoundAt(items, i, it.key)
    ensures InsertTree(c, Leaf(0, items, INVALID_PAGE_ID), it, n)
      == var u := LeafInsert(c, Leaf(0, items, INVALID_PAGE_ID), i, it, n); Ascend(c, [], u, if u.Split? then n + 1 else n)
  {
  }

  lemma First3()
    ensures Step(SMALL, State(Some(Leaf(0, [Entry(1)], INVALID_PAGE_ID)), 1), Insert(3, Rid(3, 0))) == State(Some(T13), 1)
  {
    InsertAtRoot(SMALL, [Entry(1)], Entry(3), 1, 1);
    assert InsertAt([Entry(1)], 1, Entry(3)) == [Entry(1), Entry(3)];
  }

  lemma Then2()
    ensures Step(SMALL, State(Some(T13), 1), Insert(2, Rid(2, 0))) == State(Some(T1_23), 3)
  {
    assert LeafIndex(T13.items, 2) == 1;
    InsertAtRoot(SMALL, T13.items, Entry(2), 1, 1);
    assert T13.items[..1] == [Entry(1)] && T13.items[1..] == [Entry(3)];
    assert InsertAt([Entry(3)], 0, Entry(2)) == [Entry(2), Entry(3)];
  }

  /** A leaf right below the root. */
  lemma InsertBelowRoot(c: Config, t: Tree, it: Item, n: PageId, j: nat, i: nat)
    requires c.Ok() && t.Node? && |t.kids| == |t.seps| + 1 && Route(t.seps, it.key) == j && j < |t.kids| && t.kids[j].Leaf?
    requires LeafIndex(t.kids[j].items, it.key) == i && !FoundAt(t.kids[j].items, i, it.key)
    ensures InsertTree(c, t, it, n)
      == var u := LeafInsert(c, t.kids[j], i, it, n); Ascend(c, [FrameAt(t, j, ROOT_BOX)], u, if u.Split? then n + 1 else n)
  {
    OneStepDown([], t, it.key, j);
    assert [] + [FrameAt(t, j, ROOT_BOX)] == [FrameAt(t, j, ROOT_BOX)];
  }

  lemma Slots67()
    ensures Route([2], 6) == 1 && LeafIndex([Entry(2), Entry(3)], 6) == 2 && Route([2, 3], 7) == 2 && LeafIndex([Entry(3), Entry(6)], 7) == 2
  {
  }

  /** The new item goes behind the last one of a full leaf. */
  lemma SplitsBehind(id: PageId, a: Item, b: Item, it: Item, next: PageId, n: PageId)
    ensures LeafInsert(SMALL, Leaf(id, [a, b], next), 2, it, n) == Split(Leaf(id, [a], n), b.key, Leaf(n, [b, it], next))
  {
    assert [a, b][..1] == [a] && [a, b][1..] == [b] && InsertAt([b], 1, it) == [b, it];
  }

  lemma Then6()
    ensures Step(SMALL, State(Some(T1_23), 3), Insert(6, Rid(6, 0))) == State(Some(T1_2_36), 4)
  {
    hide Route, LeafIndex, LeafInsert, InsertTree, NodeInsert, Ascend;
    var f, r := FrameAt(T1_23, 1, ROOT_BOX), Leaf(3, [Entry(3), Entry(6)], INVALID_PAGE_ID);
    Slots67();
    InsertBelowRoot(SMALL, T1_23, Entry(6), 3, 1, 2);
    SplitsBehind(1, Entry(2), Entry(3), Entry(6), INVALID_PAGE_ID, 3);
    Widens6(f, r);
  }

  lemma Widens6(f: Frame, r: Tree)
    requires f == FrameAt(T1_23, 1, ROOT_BOX) && r == Leaf(3, [Entry(3), Entry(6)], INVALID_PAGE_ID)
    ensures Ascend(SMALL, [f], Split(LEAF_2, 3, r), 4) == (T1_2_36, 4)
  {
    assert Widened(f, LEAF_2, 3, r) == T1_2_36;
    assert NodeInsert(SMALL, f, LEAF_2, 3, r, 4) == Fits(T1_2_36);
    assert Init([f]) == [] && Ascend(SMALL, [], Fits(T1_2_36), 4) == (T1_2_36, 4);
  }

  lemma Then7()
    ensures Step(SMALL, State(Some(T1_2_36), 4), Insert(7, Rid(7, 0))) == State(Some(FULL_TREE), 7)
  {
    hide Route, LeafIndex, LeafInsert, InsertTree, NodeInsert, Ascend;
    var f, l, r := FrameAt(T1_2_36, 2, ROOT_BOX), Leaf(3, [Entry(3)], 4), Leaf(4, [Entry(6), Entry(7)], INVALID_PAGE_ID);
    Slots67();
    InsertBelowRoot(SMALL, T1_2_36, Entry(7), 4, 2, 2);
    SplitsBehind(3, Entry(3), Entry(6), Entry(7), INVALID_PAGE_ID, 4);
    Cuts7(f, l, r);
  }

  lemma Cuts7(f: Frame, l: Tree, r: Tree)
    requires f == FrameAt(T1_2_36, 2, ROOT_BOX) && l == Leaf(3, [Entry(3)], 4) && r == Leaf(4, [Entry(6), Entry(7)], INVALID_PAGE_ID)
    ensures Ascend(SMALL, [f], Split(l, 6, r), 5) == (FULL_TREE, 7)
  {
    hide Ascend;
    var wide := Node(2, [2, 3, 6], [LEAF_1, LEAF_2, l, r]);
    assert Widened(f, l, 6, r) == wide;
    assert wide.kids[..2] == LEFT.kids && wide.kids[2..] == RIGHT.kids && wide.seps[..1] == [2] && wide.seps[2..] == [6];
    assert NodeInsert(SMALL, f, l, 6, r, 5) == Split(LEFT, 3, RIGHT);
    AscendTwice(f, l, 6, r, 5);
  }

  lemma AscendTwice(f: Frame, l: Tree, up: int, r: Tree, n: PageId)
    requires NodeInsert(SMALL, f, l, up, r, n) == Split(LEFT, 3, RIGHT)
    ensures Ascend(SMALL, [f], Split(l, up, r), n) == (Node(n + 1, [3], [LEFT, RIGHT]), n + 2)
  {
    assert Init([f]) == [];
  }

  const REPAIRED := Node(5, [7], [Leaf(3, [Entry(6)], 4), Leaf(4, [Entry(7)], INVALID_PAGE_ID)])

  lemma FindsLeaf3(f: Frame, f1: Frame)
    requires f == FrameAt(FULL_TREE, 1, ROOT_BOX) && f1 == FrameAt(RIGHT, 0, Hole(f))
    ensures Descend([], FULL_TREE, 3) == Descent([f, f1], RIGHT.kids[0])
  {
    assert Route([3], 3) == 1 && Route([6], 3) == 0;
    OneStepDown([], FULL_TREE, 3, 1);
    OneStepDown([] + [f], RIGHT, 3, 0);
    assert [] + [f] + [f1] == [f, f1];
  }

  lemma EmptiesLeaf3()
    ensures LeafIndex([Entry(3)], 3) == 0 && FoundAt([Entry(3)], 0, 3) && RemoveAt([Entry(3)], 0) == []
  {
  }

  /** The emptied leaf 3 borrows from leaf 4 at slot 1; the flag then merges two pages that are full enough. */
  lemma Remove3()
    ensures RemoveTree(SMALL, FULL_TREE, 3) == Some(OVERFULL)
  {
    hide Descend, LeafIndex, RemoveAt, RepairLeaf, Hole;
    var f := FrameAt(FULL_TREE, 1, ROOT_BOX);
    var f1 := FrameAt(RIGHT, 0, Hole(f));
    FindsLeaf3(f, f1);
    EmptiesLeaf3();
    assert RemoveTree(SMALL, FULL_TREE, 3) == RepairLeaf(SMALL, [f, f1], Leaf(3, [], 4));
    RepairsLeaf3(f, f1);
  }

  lemma RepairsLeaf3(f: Frame, f1: Frame)
    requires f == FrameAt(FULL_TREE, 1, ROOT_BOX) && f1 == FrameAt(RIGHT, 0, Hole(f))
    ensures RepairLeaf(SMALL, [f, f1], Leaf(3, [], 4)) == Some(OVERFULL)
  {
    hide AscendRemove, Rebalance, CanRebalance, Hole;
    BorrowsAtSlot1(f1);
    assert Init([f, f1]) == [f];
    MergesHealthyPages(f, REPAIRED);
  }

  lemma BorrowsAtSlot1(f: Frame)
    requires f.id == 5 && f.seps == [6] && f.left == [] && f.right == RIGHT.kids[1..]
    ensures var short := Fill(f, Leaf(3, [], 4));
      && CanRebalance(SMALL, short, 0)
      && Rebalance(SMALL, short, 0) == (REPAIRED, true)
  {
    var empty, sibling := Leaf(3, [], 4), RIGHT.kids[1];
    var short := Fill(f, empty);
    assert short.kids == [empty, sibling] && Choose(SMALL, short, 0) == BorrowRight;
    var all := empty.items + sibling.items;
    assert all == sibling.items && all[..1] == [Entry(6)] && all[1..] == [Entry(7)];
    var q := Pair(Leaf(3, [Entry(6)], 4), 7, Leaf(4, [Entry(7)], INVALID_PAGE_ID));
    assert Resplit(PairAt(short, 0), 1) == q;
    assert [6][0 := 7] == [7] && short.kids[0 := q.l][1 := q.r] == [q.l, q.r];
  }

  lemma MergesHealthyPages(f: Frame, right: Tree)
    requires f == FrameAt(FULL_TREE, 1, ROOT_BOX)
    requires right == REPAIRED
    ensures AscendRemove(SMALL, [f], right, true) == OVERFULL
  {
    var up := Fill(f, right);
    assert up.kids == [LEFT, right];
    assert Choose(SMALL, up, 1) == MergeLeft;
    assert Merged(Pair(LEFT, 3, right)) == OVERFULL;
    var root := Node(6, [], [OVERFULL]);
    assert RemoveAt([3], 0) == [] && up.kids[..0] + [OVERFULL] + up.kids[2..] == [OVERFULL];
    assert Rebalance(SMALL, up, 1) == (root, true);
    assert Init([f]) == [];
    assert AscendRemove(SMALL, [], root, true) == OVERFULL;
  }

  /**
   * From the empty tree, five insertions and the removal of key 3 leave a page with four children where three are
   * allowed. All but the last step keep every page within its maximum.
   */
  lemma RemoveCanOverfill()
    ensures var before, after := Run(SMALL, State(None, 0), FILL_UP), Run(SMALL, State(None, 0), FILL_UP + [Remove(3)]);
      && before == State(Some(FULL_TREE), 7) && Capped(SMALL, FULL_TREE) && after == State(Some(OVERFULL), 7)
      && |OVERFULL.kids| == 4 > SMALL.internalMax && !Capped(SMALL, OVERFULL)
  {
    hide Step, Run, Capped;
    Filled();
    Remove3();
    Removed(SMALL, FULL_TREE, 3, 7);
    RunMore(SMALL, State(None, 0), FILL_UP, Remove(3));
    FullTreeCapped();
  }

  lemma Removed(c: Config, t: Tree, key: Key, n: PageId)
    requires c.Ok()
    ensures Step(c, State(Some(t), n), Remove(key)) == State(RemoveTree(c, t, key), n)
  {
  }

  lemma FullTreeCapped()
    ensures Capped(SMALL, FULL_TREE) && !Capped(SMALL, OVERFULL)
  {
    assert CappedAll(SMALL, LEFT.kids) && CappedAll(SMALL, RIGHT.kids);
  }

  lemma Filled()
    ensures Run(SMALL, State(None, 0), FILL_UP) == State(Some(FULL_TREE), 7)
  {
    hide Step, Run;
    var st, ops := State(None, 0), [];
    NoOps(SMALL, st);
    RunMore(SMALL, st, [], Insert(1, Rid(1, 0)));
    First1();
    First3();
    Then2();
    Then6();
    Then7();
    ops := [] + [Insert(1, Rid(1, 0))];
    RunMore(SMALL, st, ops, Insert(3, Rid(3, 0)));
    ops := ops + [Insert(3, Rid(3, 0))];
    RunMore(SMALL, st, ops, Insert(2, Rid(2, 0)));
    ops := ops + [Insert(2, Rid(2, 0))];
    RunMore(SMALL, st, ops, Insert(6, Rid(6, 0)));
    ops := ops + [Insert(6, Rid(6, 0))];
    RunMore(SMALL, st, ops, Insert(7, Rid(7, 0)));
  }

  lemma NoOps(c: Config, st: State)
    requires c.Ok()
    ensures Run(c, st, []) == st
  {
  }

  lemma First1()
    ensures Step(SMALL, State(None, 0), Insert(1, Rid(1, 0))) == State(Some(Leaf(0, [Entry(1)], INVALID_PAGE_ID)), 1)
  {
  }

  // ----- a leaf with a gap behind it -----

  const GAP_TREE := Node(2, [5], [Leaf(0, [Entry(1)], 1), Leaf(1, [Entry(5)], INVALID_PAGE_ID)])
  const T1_57 := Node(2, [5], [Leaf(0, [Entry(1)], 1), Leaf(1, [Entry(5), Entry(7)], INVALID_PAGE_ID)])

  const GAP_RUN: seq<Op> := [] + [Insert(1, Rid(1, 0))] + [Insert(5, Rid(5, 0))] + [Insert(7, Rid(7, 0))] + [Remove(7)]

  lemma Then5()
    ensures Step(SMALL, State(Some(Leaf(0, [Entry(1)], INVALID_PAGE_ID)), 1), Insert(5, Rid(5, 0)))
      == State(Some(Leaf(0, [Entry(1), Entry(5)], INVALID_PAGE_ID)), 1)
  {
    InsertAtRoot(SMALL, [Entry(1)], Entry(5), 1, 1);
    assert InsertAt([Entry(1)], 1, Entry(5)) == [Entry(1), Entry(5)];
  }

  lemma ThenSplit()
    ensures Step(SMALL, State(Some(Leaf(0, [Entry(1), Entry(5)], INVALID_PAGE_ID)), 1), Insert(7, Rid(7, 0))) == State(Some(T1_57), 3)
  {
    assert LeafIndex([Entry(1), Entry(5)], 7) == 2;
    InsertAtRoot(SMALL, [Entry(1), Entry(5)], Entry(7), 1, 2);
    SplitsBehind(0, Entry(1), Entry(5), Entry(7), INVALID_PAGE_ID, 1);
  }

  lemma Remove7()
    ensures RemoveTree(SMALL, T1_57, 7) == Some(GAP_TREE)
  {
    var f, leaf := FrameAt(T1_57, 1, ROOT_BOX), T1_57.kids[1];
    assert Route([5], 7) == 1 && LeafIndex(leaf.items, 7) == 1;
    OneStepDown([], T1_57, 7, 1);
    assert [] + [f] == [f] && Init([f]) == [];
    assert RemoveAt(leaf.items, 1) == [Entry(5)];
    assert Fill(f, GAP_TREE.kids[1]) == GAP_TREE;
    assert Plug([], GAP_TREE) == GAP_TREE && Plug([f], GAP_TREE.kids[1]) == GAP_TREE;
  }

  /** Keys 1, 5 and 7, and 7 taken out again: separator 5 between the leaves {1} and {5}. */
  lemma GapReached()
    ensures Run(SMALL, State(None, 0), GAP_RUN) == State(Some(GAP_TREE), 3)
  {
    hide Step, Run;
    var st, ops := State(None, 0), [];
    NoOps(SMALL, st);
    First1();
    Then5();
    ThenSplit();
    Remove7();
    Removed(SMALL, T1_57, 7, 3);
    RunMore(SMALL, st, [], Insert(1, Rid(1, 0)));
    ops := [] + [Insert(1, Rid(1, 0))];
    RunMore(SMALL, st, ops, Insert(5, Rid(5, 0)));
    ops := ops + [Insert(5, Rid(5, 0))];
    RunMore(SMALL, st, ops, Insert(7, Rid(7, 0)));
    ops := ops + [Insert(7, Rid(7, 0))];
    RunMore(SMALL, st, ops, Remove(7));
  }

  // ----- the minimum size of leaves -----

  /** Every leaf below the root has `GetMinSize()` items. */
  ghost predicate LeavesFull(c: Config, t: Tree) {
    t.Node? ==> forall i :: 0 <= i < |t.kids| ==> (t.kids[i].Leaf? ==> c.LeafMin() <= |t.kids[i].items|) && LeavesFull(c, t.kids[i])
  }

  ghost predicate KeepsLeafMin(c: Config, first: PageId, ops: seq<Op>)
    requires c.Ok()
  {
    var st := Run(c, State(None, first), ops);
    st.root.Some? ==> LeavesFull(c, st.root.value)
  }

  /** With an even maximum half the maximum is the minimum. */
  lemma {:induction false} EvenLeavesFull(c: Config, t: Tree)
    requires c.leafMax % 2 == 0 && Sized(c, t)
    ensures LeavesFull(c, t)
  {
    if t.Node? {
      assert SizedAll(c, t.kids);
      forall i | 0 <= i < |t.kids| ensures (t.kids[i].Leaf? ==> c.LeafMin() <= |t.kids[i].items|) && LeavesFull(c, t.kids[i]) {
        EvenLeavesFull(c, t.kids[i]);
      }
    }
  }

  /** The keys `top`, `top - 1`, ..., inserted in that order, `n` of them. */
  function Falling(top: Key, n: nat): seq<Op>
    requires top - n + 1 >= MIN_KEY
  {
    if n == 0 then [] else Falling(top, n - 1) + [Insert(top - n + 1, Rid(0, 0))]
  }

  function FallingItems(top: int, n: nat): (items: seq<Item>)
    ensures |items| == n
  {
    if n == 0 then [] else [Item(top - n + 1, Rid(0, 0))] + FallingItems(top, n - 1)
  }

  lemma {:induction false} BelowAll(items: seq<Item>, key: int)
    requires forall i :: 0 <= i < |items| ==> key < items[i].key
    ensures LeafIndex(items, key) == 0
  {
    if items != [] {
      BelowAll(items[..|items| - 1], key);
    }
  }

  lemma {:induction false} FallingAbove(top: int, n: nat)
    ensures forall i :: 0 <= i < n ==> top - n < FallingItems(top, n)[i].key
  {
    if n > 0 {
      FallingAbove(top, n - 1);
    }
  }

  lemma {:induction false} FallingRun(c: Config, first: PageId, top: Key, n: nat)
    requires c.Ok() && 1 <= n <= c.leafMax && top - n + 1 >= MIN_KEY
    ensures Run(c, State(None, first), Falling(top, n)) == State(Some(Leaf(first, FallingItems(top, n), INVALID_PAGE_ID)), first + 1)
  {
    hide Step, Run, InsertTree, LeafIndex, InsertAt, Falling, FallingItems;
    var st, it := State(None, first), Item(top - n + 1, Rid(0, 0));
    FallingIs(top, n);
    RunMore(c, st, Falling(top, n - 1), Insert(top - n + 1, Rid(0, 0)));
    if n == 1 {
      NoOps(c, st);
      IntoEmpty(c, first, it);
    } else {
      FallingRun(c, first, top, n - 1);
      var items := FallingItems(top, n - 1);
      FallingAbove(top, n - 1);
      BelowAll(items, it.key);
      AtFront(items, it);
      LowestIntoLeaf(c, first, items, it, first + 1);
    }
  }

  lemma FallingIs(top: Key, n: nat)
    requires n >= 1 && top - n + 1 >= MIN_KEY
    ensures Falling(top, n) == Falling(top, n - 1) + [Insert(top - n + 1, Rid(0, 0))]
    ensures FallingItems(top, n) == [Item(top - n + 1, Rid(0, 0))] + FallingItems(top, n - 1)
    ensures n == 1 ==> Falling(top, 0) == [] && FallingItems(top, 1) == [Item(top, Rid(0, 0))]
  {
  }

  lemma AtFront(items: seq<Item>, it: Item)
    ensures InsertAt(items, 0, it) == [it] + items
  {
  }

  lemma IntoEmpty(c: Config, id: PageId, it: Item)
    requires c.Ok() && MIN_KEY <= it.key <= MAX_KEY
    ensures Step(c, State(None, id), Insert(it.key, it.rid)) == State(Some(Leaf(id, [it], INVALID_PAGE_ID)), id + 1)
  {
  }

  lemma RootLeaf(c: Config, id: PageId, items: seq<Item>, it: Item, n: PageId)
    requires c.Ok() && LeafIndex(items, it.key) == 0 && !FoundAt(items, 0, it.key) && MIN_KEY <= it.key <= MAX_KEY
    ensures var u := LeafInsert(c, Leaf(id, items, INVALID_PAGE_ID), 0, it, n);
      Step(c, State(Some(Leaf(id, items, INVALID_PAGE_ID)), n), Insert(it.key, it.rid))
        == if u.Fits? then State(Some(u.t), n) else State(Some(Node(n + 1, [u.up], [u.l, u.r])), n + 2)
  {
  }

  /** A key below all others goes to slot 0 of the only leaf. */
  lemma LowestIntoLeaf(c: Config, id: PageId, items: seq<Item>, it: Item, n: PageId)
    requires c.Ok() && LeafIndex(items, it.key) == 0 && !FoundAt(items, 0, it.key) && MIN_KEY <= it.key <= MAX_KEY
    requires |items| < c.leafMax
    ensures Step(c, State(Some(Leaf(id, items, INVALID_PAGE_ID)), n), Insert(it.key, it.rid))
      == State(Some(Leaf(id, InsertAt(items, 0, it), INVALID_PAGE_ID)), n)
  {
    hide Step;
    RootLeaf(c, id, items, it, n);
  }

  lemma LowestIntoFullLeaf(c: Config, id: PageId, items: seq<Item>, it: Item, n: PageId)
    requires c.Ok() && LeafIndex(items, it.key) == 0 && !FoundAt(items, 0, it.key) && MIN_KEY <= it.key <= MAX_KEY
    requires |items| == c.leafMax
    ensures var m := c.LeafMin();
      Step(c, State(Some(Leaf(id, items, INVALID_PAGE_ID)), n), Insert(it.key, it.rid))
      == State(Some(Node(n + 1, [items[m].key], [Leaf(id, InsertAt(items[..m], 0, it), n), Leaf(n, items[m..], INVALID_PAGE_ID)])), n + 2)
  {
    hide Step;
    RootLeaf(c, id, items, it, n);
  }

  predicate SecondLeafHas(st: State, n: nat) {
    st.root.Some? && st.root.value.Node? && |st.root.value.kids| == 2 && st.root.value.kids[1].Leaf? && |st.root.value.kids[1].items| == n
  }

  /** `leafMax + 1` falling keys: the second leaf gets what is left above the middle. */
  lemma FallingSplits(c: Config, first: PageId, top: Key)
    requires c.Ok() && top - c.leafMax >= MIN_KEY
    ensures SecondLeafHas(Run(c, State(None, first), Falling(top, c.leafMax + 1)), c.leafMax / 2)
  {
    hide Step, Run, InsertTree, LeafIndex, InsertAt, Falling, FallingItems;
    var n, items := c.leafMax + 1, FallingItems(top, c.leafMax);
    var it := Item(top - n + 1, Rid(0, 0));
    FallingIs(top, n);
    FallingRun(c, first, top, c.leafMax);
    RunMore(c, State(None, first), Falling(top, c.leafMax), Insert(top - n + 1, Rid(0, 0)));
    FallingAbove(top, c.leafMax);
    BelowAll(items, it.key);
    LowestIntoFullLeaf(c, first, items, it, first + 1);
  }

  /**
   * Leaves below the root keep `GetMinSize()` over every run from the empty tree if and only if `leaf_max_size_` is
   * even; when it is odd, falling keys leave a leaf one item short. The sizes are C++ `int`s.
   */
  lemma LeafMinIffEven(c: Config, first: PageId)
    requires c.Ok() && c.leafMax <= MAX_KEY && first >= 0
    ensures c.leafMax % 2 == 0 <==> forall ops :: KeepsLeafMin(c, first, ops)
    ensures c.leafMax % 2 == 1 ==> !KeepsLeafMin(c, first, Falling(c.leafMax, c.leafMax + 1))
  {
    hide Run, TreeOk, Falling, Sized, LeavesFull;
    if c.leafMax % 2 == 0 {
      forall ops ensures KeepsLeafMin(c, first, ops) {
        RunOk(c, State(None, first), ops);
        var st := Run(c, State(None, first), ops);
        if st.root.Some? {
          SizedOf(c, st.root.value, st.next);
          EvenLeavesFull(c, st.root.value);
        }
      }
    } else {
      FallingSplits(c, first, c.leafMax);
      ShortLeafShows(c, Run(c, State(None, first), Falling(c.leafMax, c.leafMax + 1)).root.value);
      assert !KeepsLeafMin(c, first, Falling(c.leafMax, c.leafMax + 1));
    }
  }

  lemma SizedOf(c: Config, t: Tree, bound: PageId)
    requires TreeOk(c, t, bound)
    ensures Sized(c, t)
  {
  }

  lemma ShortLeafShows(c: Config, t: Tree)
    requires t.Node? && |t.kids| == 2 && t.kids[1].Leaf? && |t.kids[1].items| < c.LeafMin()
    ensures !LeavesFull(c, t)
  {
  }
}
