/** The chain of leaves: `next_page_id_` lists the leaves of the tree in order, from the leftmost to the rightmost. */
module TreeChain {
  import opened Types
  import opened TreeModel
  import opened TreeSearch
  import opened Zipper

  function Leaves(t: Tree): seq<Tree> {
    match t
    case Leaf(_, _, _) => [t]
    case Node(_, _, kids) => LeavesOf(kids)
  }

  function LeavesOf(kids: seq<Tree>): seq<Tree> {
    if kids == [] then [] else Leaves(kids[0]) + LeavesOf(kids[1..])
  }

  function ItemsIn(leaves: seq<Tree>): seq<Item> {
    if leaves == [] then [] else Items(leaves[0]) + ItemsIn(leaves[1..])
  }

  function NextLeaf(leaves: seq<Tree>, i: nat, next: PageId): PageId {
    if i + 1 < |leaves| then leaves[i + 1].id else next
  }

  /** Each leaf points to the one after it, and the last one to `next`. */
  ghost predicate Chain(leaves: seq<Tree>, next: PageId) {
    forall i :: 0 <= i < |leaves| ==> leaves[i].Leaf? && leaves[i].next == NextLeaf(leaves, i, next)
  }

  lemma ChainConcat(a: seq<Tree>, b: seq<Tree>, mid: PageId, next: PageId)
    requires Chain(a, mid) && Chain(b, next) && b != [] && b[0].id == mid
    ensures Chain(a + b, next)
  {
    var ls := a + b;
    forall i | 0 <= i < |ls| ensures ls[i].Leaf? && ls[i].next == NextLeaf(ls, i, next) {
      if i < |a| {
        assert ls[i] == a[i] && a[i].next == NextLeaf(a, i, mid);
      } else {
        assert ls[i] == b[i - |a|] && b[i - |a|].next == NextLeaf(b, i - |a|, next);
      }
    }
  }

  lemma {:induction false} TreeChainOk(t: Tree, h: nat, box: Box)
    requires Inv(t, h, box)
    ensures var ls := Leaves(t); ls != [] && ls[0].id == First(t) && Chain(ls, box.next)
    decreases h, 0
  {
    if t.Node? {
      KidsChainOk(Bounds(box.lo, t.seps, box.hi), t.kids, h - 1, box.next);
    }
  }

  lemma {:induction false} KidsChainOk(bs: seq<int>, kids: seq<Tree>, h: nat, next: PageId)
    requires Seg(bs, kids, h, next) && kids != []
    ensures var ls := LeavesOf(kids); ls != [] && ls[0].id == First(kids[0]) && Chain(ls, next)
    decreases h, 1, |kids|
  {
    TreeChainOk(kids[0], h, Box(bs[0], bs[1], NextOf(kids, 0, next)));
    if |kids| > 1 {
      SegSlice(bs, kids, h, next, 1, |kids|);
      assert bs[1..|kids| + 1] == bs[1..] && kids[1..|kids|] == kids[1..];
      KidsChainOk(bs[1..], kids[1..], h, next);
      ChainConcat(Leaves(kids[0]), LeavesOf(kids[1..]), First(kids[1]), next);
    } else {
      assert LeavesOf(kids) == Leaves(kids[0]);
    }
  }

  lemma RegroupItems(a: seq<Item>, b: seq<Item>, c: seq<Item>)
    ensures a + (b + c) == (a + b) + c
  {
  }

  lemma {:induction false} ItemsInConcat(a: seq<Tree>, b: seq<Tree>)
    ensures ItemsIn(a + b) == ItemsIn(a) + ItemsIn(b)
  {
    if a == [] {
      assert a + b == b;
    } else {
      var rest := a[1..];
      ItemsInConcat(rest, b);
      assert (a + b)[0] == a[0] && (a + b)[1..] == rest + b;
      assert ItemsIn(a + b) == Items(a[0]) + ItemsIn(rest + b);
      hide Items, ItemsIn;
      RegroupItems(Items(a[0]), ItemsIn(rest), ItemsIn(b));
    }
  }

  lemma {:induction false} LeavesHoldItems(t: Tree)
    ensures ItemsIn(Leaves(t)) == Items(t)
    decreases t, 0
  {
    match t
    case Leaf(_, _, _) => assert [t][1..] == [];
    case Node(_, _, kids) => LeavesOfHoldItems(kids);
  }

  lemma {:induction false} LeavesOfHoldItems(kids: seq<Tree>)
    ensures ItemsIn(LeavesOf(kids)) == ItemsOf(kids)
    decreases kids, 0
  {
    if kids != [] {
      LeavesHoldItems(kids[0]);
      LeavesOfHoldItems(kids[1..]);
      ItemsInConcat(Leaves(kids[0]), LeavesOf(kids[1..]));
    }
  }

  lemma {:induction false} LeavesStored(s: Store, t: Tree)
    requires Represents(s, t)
    ensures forall i :: 0 <= i < |Leaves(t)| ==> Represents(s, Leaves(t)[i])
    decreases t, 0
  {
    if t.Node? {
      LeavesOfStored(s, t.kids);
    }
  }

  lemma {:induction false} LeavesOfStored(s: Store, kids: seq<Tree>)
    requires RepresentsAll(s, kids)
    ensures forall i :: 0 <= i < |LeavesOf(kids)| ==> Represents(s, LeavesOf(kids)[i])
    decreases kids, 0
  {
    if kids != [] {
      LeavesStored(s, kids[0]);
      LeavesOfStored(s, kids[1..]);
    }
  }

  /** A leaf below the root is never empty. */
  lemma {:induction false} LeavesFilled(c: Config, t: Tree)
    requires c.Ok() && Sized(c, t) && (t.Leaf? ==> 1 <= |t.items|)
    ensures forall i :: 0 <= i < |Leaves(t)| ==> Leaves(t)[i].Leaf? && 1 <= |Leaves(t)[i].items|
    decreases t, 0
  {
    if t.Node? {
      LeavesOfFilled(c, t.kids);
    }
  }

  lemma {:induction false} LeavesOfFilled(c: Config, kids: seq<Tree>)
    requires c.Ok() && SizedAll(c, kids)
    ensures forall i :: 0 <= i < |LeavesOf(kids)| ==> LeavesOf(kids)[i].Leaf? && 1 <= |LeavesOf(kids)[i].items|
    decreases kids, 0
  {
    if kids != [] {
      assert Healthy(c, kids[0]) && Sized(c, kids[0]);
      LeavesFilled(c, kids[0]);
      LeavesOfFilled(c, kids[1..]);
    }
  }

  /** The leaves are pages of the tree, each with its own id. */
  lemma {:induction false} LeafIdsCounted(t: Tree, x: PageId)
    ensures IdCount(Leaves(t), x) <= Count(t, x)
    decreases t, 0
  {
    match t
    case Leaf(_, _, _) => assert [t][1..] == [];
    case Node(_, _, kids) => LeafIdsOfCounted(kids, x);
  }

  function IdCount(ls: seq<Tree>, x: PageId): nat {
    if ls == [] then 0 else (if ls[0].id == x then 1 else 0) + IdCount(ls[1..], x)
  }

  lemma {:induction false} IdCountConcat(a: seq<Tree>, b: seq<Tree>, x: PageId)
    ensures IdCount(a + b, x) == IdCount(a, x) + IdCount(b, x)
  {
    if a == [] {
      assert a + b == b;
    } else {
      IdCountConcat(a[1..], b, x);
      assert (a + b)[0] == a[0] && (a + b)[1..] == a[1..] + b;
    }
  }

  lemma {:induction false} LeafIdsOfCounted(kids: seq<Tree>, x: PageId)
    ensures IdCount(LeavesOf(kids), x) <= CountOf(kids, x)
    decreases kids, 0
  {
    if kids != [] {
      LeafIdsCounted(kids[0], x);
      LeafIdsOfCounted(kids[1..], x);
      IdCountConcat(Leaves(kids[0]), LeavesOf(kids[1..]), x);
    }
  }

  lemma {:induction false} IdCountAt(ls: seq<Tree>, i: nat)
    requires i < |ls|
    ensures IdCount(ls, ls[i].id) >= 1
  {
    if i > 0 {
      IdCountAt(ls[1..], i - 1);
    }
  }

  lemma IdsDiffer(ls: seq<Tree>, i: nat, j: nat)
    requires i < j < |ls| && forall x :: IdCount(ls, x) <= 1
    ensures ls[i].id != ls[j].id
  {
    IdCountConcat(ls[..j], ls[j..], ls[j].id);
    assert ls == ls[..j] + ls[j..];
    IdCountAt(ls[..j], i);
    IdCountAt(ls[j..], 0);
  }

  // ----- positions in the chain -----

  /** Slot `index` of leaf `i` is position `n` of the whole contents; past the end only in the last leaf. */
  ghost predicate Spot(ls: seq<Tree>, i: nat, index: nat, n: nat) {
    && i < |ls| && ls[i].Leaf? && n == |ItemsIn(ls[..i])| + index
    && index <= |ls[i].items| && (index == |ls[i].items| ==> i == |ls| - 1)
  }

  lemma SplitAt(ls: seq<Tree>, i: nat)
    requires i < |ls| && ls[i].Leaf?
    ensures ItemsIn(ls) == ItemsIn(ls[..i]) + ls[i].items + ItemsIn(ls[i + 1..])
    ensures ItemsIn(ls[..i + 1]) == ItemsIn(ls[..i]) + ls[i].items
  {
    hide ItemsIn;
    assert ls == ls[..i] + ([ls[i]] + ls[i + 1..]) && ls[..i + 1] == ls[..i] + [ls[i]];
    ItemsInConcat(ls[..i], [ls[i]] + ls[i + 1..]);
    ItemsInConcat(ls[..i], [ls[i]]);
    FirstItems(ls[i], ls[i + 1..]);
  }

  lemma FirstItems(leaf: Tree, rest: seq<Tree>)
    requires leaf.Leaf?
    ensures ItemsIn([leaf] + rest) == leaf.items + ItemsIn(rest) && ItemsIn([leaf]) == leaf.items
  {
    assert ([leaf] + rest)[1..] == rest && [leaf][1..] == [];
  }

  /** The item at a spot, and the end of the contents. */
  lemma SpotItem(ls: seq<Tree>, i: nat, index: nat, n: nat)
    requires Spot(ls, i, index, n)
    ensures index < |ls[i].items| ==> n < |ItemsIn(ls)| && ItemsIn(ls)[n] == ls[i].items[index]
    ensures index == |ls[i].items| ==> n == |ItemsIn(ls)|
  {
    SplitAt(ls, i);
    if index == |ls[i].items| {
      assert ls[i + 1..] == [];
    }
  }

  /** `operator++`: the next slot, or slot 0 of the next leaf when this one is used up. */
  lemma SpotNext(ls: seq<Tree>, i: nat, index: nat, n: nat)
    requires Spot(ls, i, index, n) && index < |ls[i].items|
    requires forall j :: 0 <= j < |ls| ==> ls[j].Leaf? && 1 <= |ls[j].items|
    ensures if index + 1 == |ls[i].items| && i + 1 < |ls| then Spot(ls, i + 1, 0, n + 1) else Spot(ls, i, index + 1, n + 1)
  {
    SplitAt(ls, i);
  }

  lemma EndOf(a: seq<Tree>, b: seq<Tree>)
    requires b != []
    ensures (a + b)[|a + b| - 1] == b[|b| - 1]
  {
  }

  lemma LastLeaf(kids: seq<Tree>)
    requires kids != [] && Leaves(kids[|kids| - 1]) != []
    ensures var ls, last := LeavesOf(kids), Leaves(kids[|kids| - 1]);
      ls != [] && ls[|ls| - 1] == last[|last| - 1]
  {
    var front, last := kids[..|kids| - 1], kids[|kids| - 1];
    assert kids == front + [last];
    ConcatLeaves(front, [last]);
    assert [last][1..] == [] && LeavesOf([last]) == Leaves(last);
    EndOf(LeavesOf(front), Leaves(last));
  }

  lemma FirstLeaf(kids: seq<Tree>)
    requires kids != [] && Leaves(kids[0]) != []
    ensures LeavesOf(kids) != [] && LeavesOf(kids)[0] == Leaves(kids[0])[0]
  {
  }

  /** The chain of a valid tree: linked in order, ending at the last leaf, no leaf empty or listed twice. */
  ghost predicate ChainOk(t: Tree, s: Store) {
    var ls := Leaves(t);
    && ls != [] && Chain(ls, INVALID_PAGE_ID) && ItemsIn(ls) == Items(t)
    && (forall i :: 0 <= i < |ls| ==> 1 <= |ls[i].items| && ls[i].id in s && s[ls[i].id] == LeafPage(ls[i].items, ls[i].next))
    && (forall i, j :: 0 <= i < j < |ls| ==> ls[i].id != ls[j].id)
  }

  lemma TreeIsChained(c: Config, t: Tree, s: Store, bound: PageId)
    requires c.Ok() && TreeOk(c, t, bound) && Represents(s, t)
    ensures ChainOk(t, s)
  {
    var ls := Leaves(t);
    TreeChainOk(t, Height(t), ROOT_BOX);
    LeavesHoldItems(t);
    LeavesStored(s, t);
    LeavesFilled(c, t);
    forall x ensures IdCount(ls, x) <= 1 {
      LeafIdsCounted(t, x);
    }
    forall i, j | 0 <= i < j < |ls| ensures ls[i].id != ls[j].id {
      IdsDiffer(ls, i, j);
    }
    forall i | 0 <= i < |ls| ensures 1 <= |ls[i].items| && ls[i].id in s && s[ls[i].id] == LeafPage(ls[i].items, ls[i].next) {
      assert Represents(s, ls[i]);
    }
  }

  lemma FirstSpot(t: Tree, s: Store)
    requires ChainOk(t, s)
    ensures Leaves(t) != [] && Spot(Leaves(t), 0, 0, 0)
  {
    assert ItemsIn(Leaves(t)[..0]) == [];
  }

  lemma LastSpot(t: Tree, s: Store)
    requires ChainOk(t, s)
    ensures var ls := Leaves(t);
      ls != [] && ls[|ls| - 1].Leaf? && Spot(ls, |ls| - 1, |ls[|ls| - 1].items|, |Items(t)|)
  {
    var ls := Leaves(t);
    SplitAt(ls, |ls| - 1);
    assert ls[..|ls| - 1 + 1] == ls;
  }

  // ----- the leaf a search ends at, as a place in the chain -----

  function LeavesBefore(path: Path): seq<Tree> {
    if path == [] then [] else LeavesBefore(Init(path)) + LeavesOf(Last(path).left)
  }

  function LeavesAfter(path: Path): seq<Tree> {
    if path == [] then [] else LeavesOf(Last(path).right) + LeavesAfter(Init(path))
  }

  lemma Associate(a: seq<Tree>, b: seq<Tree>, c: seq<Tree>)
    ensures a + (b + c) == a + b + c
  {
  }

  lemma {:induction false} ConcatLeaves(a: seq<Tree>, b: seq<Tree>)
    ensures LeavesOf(a + b) == LeavesOf(a) + LeavesOf(b)
  {
    hide Leaves;
    if a == [] {
      assert a + b == b;
    } else {
      ConcatLeaves(a[1..], b);
      assert (a + b)[0] == a[0] && (a + b)[1..] == a[1..] + b;
      Associate(Leaves(a[0]), LeavesOf(a[1..]), LeavesOf(b));
    }
  }

  lemma FillLeaves(f: Frame, t: Tree)
    ensures Leaves(Fill(f, t)) == LeavesOf(f.left) + Leaves(t) + LeavesOf(f.right)
  {
    ConcatLeaves(f.left + [t], f.right);
    ConcatLeaves(f.left, [t]);
    assert [t][1..] == [] && LeavesOf([t]) == Leaves(t);
  }

  lemma Regroup(a: seq<Tree>, b: seq<Tree>, c: seq<Tree>, d: seq<Tree>, e: seq<Tree>)
    ensures a + (b + c + d) + e == (a + b) + c + (d + e)
  {
  }

  lemma {:induction false} PlugLeaves(path: Path, t: Tree)
    ensures Leaves(Plug(path, t)) == LeavesBefore(path) + Leaves(t) + LeavesAfter(path)
    decreases |path|
  {
    if path != [] {
      var f := Last(path);
      PlugLeaves(Init(path), Fill(f, t));
      FillLeaves(f, t);
      Regroup(LeavesBefore(Init(path)), LeavesOf(f.left), Leaves(t), LeavesOf(f.right), LeavesAfter(Init(path)));
    }
  }

  lemma {:induction false} LeavesBeforeItems(path: Path)
    ensures ItemsIn(LeavesBefore(path)) == Before(path)
    decreases |path|
  {
    if path != [] {
      LeavesBeforeItems(Init(path));
      ItemsInConcat(LeavesBefore(Init(path)), LeavesOf(Last(path).left));
      LeavesOfHoldItems(Last(path).left);
    }
  }

  lemma {:induction false} LeafIndexIs(items: seq<Item>, key: int, n: nat)
    requires n <= |items|
    requires forall j :: 0 <= j < n ==> items[j].key < key
    requires forall j :: n <= j < |items| ==> key <= items[j].key
    ensures LeafIndex(items, key) == n
  {
    if items != [] && key <= items[|items| - 1].key {
      LeafIndexIs(items[..|items| - 1], key, n);
    }
  }

  lemma LowerBoundInRun(a: seq<Item>, s: seq<Item>, b: seq<Item>, lo: int, hi: int, key: int)
    requires Within(a, MIN_KEY, lo) && Within(b, hi, MAX_KEY + 1) && lo <= key < hi && Sorted(s)
    ensures LeafIndex(a + s + b, key) == |a| + LeafIndex(s, key)
  {
    var all := a + s + b;
    LeafIndexBounds(s, key);
    assert forall j :: 0 <= j < |a| ==> all[j] == a[j];
    assert forall j :: 0 <= j < |s| ==> all[|a| + j] == s[j];
    assert forall j :: 0 <= j < |b| ==> all[|a| + |s| + j] == b[j];
    LeafIndexIs(all, key, |a| + LeafIndex(s, key));
  }
}
