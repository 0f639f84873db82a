/** `IndexIterator` and the three ways to make one. */
module Iterators {
  import opened Types
  import opened BPlusTrees
  import opened Latches
  import opened Pages
  import opened TreeAscent
  import opened TreeChain
  import opened TreeLimits
  import opened TreeModel
  import opened TreeRuns
  import opened TreeSearch
  import opened Zipper

  class IndexIterator {
    const tree: BPlusTree
    var pageId: PageId
    var index: int

    constructor (tree: BPlusTree, pageId: PageId, index: int)
      ensures this.tree == tree && this.pageId == pageId && this.index == index
    {
      this.tree, this.pageId, this.index := tree, pageId, index;
    }

    /** The iterator stands at position `n` of the contents, in leaf `i` of the chain. */
    ghost predicate At(i: int, n: nat)
      reads this, tree, tree.pages.Values
    {
      && tree.Valid() && tree.root.Some? && index >= 0 && i >= 0
      && var ls := Leaves(tree.root.value);
         Spot(ls, i, index, n) && pageId == ls[i].id
    }

    ghost predicate Somewhere(n: nat)
      reads this, tree, tree.pages.Values
    {
      exists i: int :: At(i, n)
    }

    /** A leaf of a valid chain is stored and not empty. */
    ghost predicate OfChain(leaf: Tree) {
      leaf.Leaf? && leaf.id >= 0 && 1 <= |leaf.items|
    }

    /** What the page behind the iterator looks like. */
    lemma Here(i: nat, n: nat)
      requires At(i, n)
      ensures var ls := Leaves(tree.root.value);
        && ChainOk(tree.root.value, tree.Snap()) && tree.StoreOk() && pageId in tree.pages && 0 <= pageId < tree.nextId
        && var p := tree.pages[pageId];
           && p.isLeaf && p.items == ls[i].items
           && p.next == NextLeaf(ls, i, INVALID_PAGE_ID) && index <= |ls[i].items|
      ensures forall i' :: 0 <= i' < |Leaves(tree.root.value)| ==> OfChain(Leaves(tree.root.value)[i'])
    {
      TreeIsChained(tree.cfg, tree.root.value, tree.Snap(), tree.nextId);
      var ls := Leaves(tree.root.value);
      assert tree.Snap()[pageId] == tree.pages[pageId].Value();
      assert forall i' :: 0 <= i' < |ls| ==> ls[i'].id in tree.pages;
      assert forall i' :: 0 <= i' < |ls| ==> OfChain(ls[i']);
    }

    method IsEnd(ghost i: nat, ghost n: nat) returns (b: bool)
      requires At(i, n)
      ensures b <==> n == |Items(tree.root.value)|
    {
      hide Sound, Tidy, Locked;
      Here(i, n);
      SpotItem(Leaves(tree.root.value), i, index, n);
      ghost var g;
      var page;
      page, g := tree.Acquire(pageId, NoGuards(tree.nextId));
      b := page.GetNextPageId(g) == INVALID_PAGE_ID && index == page.GetSize(g);
    }

    /** `operator*`; `None` is the exception at the end. */
    method Deref(ghost i: nat, ghost n: nat) returns (r: Option<Item>)
      requires At(i, n)
      ensures r == if n < |Items(tree.root.value)| then Some(Items(tree.root.value)[n]) else None
    {
      hide Sound, Tidy, Locked;
      Here(i, n);
      SpotItem(Leaves(tree.root.value), i, index, n);
      var end := IsEnd(i, n);
      if end {
        return None;
      }
      ghost var g;
      var page;
      page, g := tree.Acquire(pageId, NoGuards(tree.nextId));
      r := if index < 0 || index >= page.GetSize(g) then None else Some(page.ItemAt(index, g));
    }

    /** `operator++`; false is the exception at the end. */
    method Next(ghost i: nat, ghost n: nat) returns (ok: bool, ghost i': nat)
      requires At(i, n)
      modifies this
      ensures ok <==> n < |Items(tree.root.value)|
      ensures if ok then At(i', n + 1) else At(i, n)
    {
      hide Spot, ChainOk, Leaves, Items, Sound, Tidy, Locked, BPlusTree.Valid, BPlusTree.Snap, BPlusTree.StoreOk;
      Here(i, n);
      i' := i;
      SpotItem(Leaves(tree.root.value), i, index, n);
      var end := IsEnd(i, n);
      if end {
        return false, i;
      }
      SpotNext(Leaves(tree.root.value), i, index, n);
      ghost var g;
      var page;
      page, g := tree.Acquire(pageId, NoGuards(tree.nextId));
      index := index + 1;
      if index == page.GetSize(g) && page.GetNextPageId(g) != INVALID_PAGE_ID {
        pageId, index, i' := page.GetNextPageId(g), 0, i + 1;
      }
      ok := true;
    }
  }

  /** What a valid tree with a root offers for a walk. */
  lemma Chained(tree: BPlusTree)
    requires tree.Valid() && tree.root.Some?
    ensures tree.StoreOk() && 0 <= tree.headerId < tree.nextId && tree.rootId == tree.root.value.id != INVALID_PAGE_ID
    ensures ChainOk(tree.root.value, tree.Snap()) && Represents(tree.Snap(), tree.root.value)
    ensures TreeOk(tree.cfg, tree.root.value, tree.nextId) && Inv(tree.root.value, Height(tree.root.value), ROOT_BOX)
    ensures forall x :: x in tree.Snap() ==> x >= 0
  {
    TreeIsChained(tree.cfg, tree.root.value, tree.Snap(), tree.nextId);
  }

  lemma HeaderThere(tree: BPlusTree)
    requires tree.Valid()
    ensures tree.StoreOk() && tree.TreeStored() && 0 <= tree.headerId < tree.nextId && (tree.rootId == INVALID_PAGE_ID <==> tree.root.None?)
  {
  }

  /** Subtrees of one store with the same id have the same height. */
  lemma {:induction false} SameIdSameHeight(s: Store, t: Tree, h: nat, b: Box, t': Tree, h': nat, b': Box)
    requires Represents(s, t) && Inv(t, h, b) && Represents(s, t') && Inv(t', h', b') && t.id == t'.id
    ensures h == h'
    decreases h
  {
    assert s[t.id] == PageOf(t) == PageOf(t');
    if t.Node? {
      FirstChild(s, t, h, b);
      FirstChild(s, t', h', b');
      assert Ids(t.kids)[0] == Ids(t'.kids)[0];
      SameIdSameHeight(s, t.kids[0], h - 1, FirstBox(t, b), t'.kids[0], h' - 1, FirstBox(t', b'));
    }
  }

  /** The header page and the page reached are held, after `steps` steps down. */
  ghost predicate OnTheWay(tree: BPlusTree, g: Guards, id: PageId, steps: int) {
    && g.held == {tree.headerId, id} && id != tree.headerId && g.count == 2 && g.peak == (if steps == 0 then 2 else 3)
  }

  lemma NextDown(tree: BPlusTree, t: Tree, h: nat, b: Box, kid: Tree, b': Box)
    requires tree.StoreOk() && Represents(tree.Snap(), t) && Inv(t, h, b) && h > 0 && Represents(tree.Snap(), kid) && Inv(kid, h - 1, b')
    ensures kid.id in tree.pages && kid.id != t.id && kid.id != tree.headerId && 0 <= kid.id < tree.nextId
  {
    if kid.id == t.id {
      SameIdSameHeight(tree.Snap(), t, h, b, kid, h - 1, b');
    }
  }

  /** The way down the left edge; each page is released once its child is held. */
  method Leftmost(tree: BPlusTree, ghost g: Guards) returns (id: PageId, ghost g': Guards)
    requires tree.Valid() && tree.root.Some? && g.held == {tree.headerId} && g.count == g.peak == 1 && g.next == tree.nextId
    ensures var ls := Leaves(tree.root.value); ls != [] && id == ls[0].id
    ensures OnTheWay(tree, g', id, Height(tree.root.value)) && g'.first == g.first && g'.next == g.next
  {
    hide Sound, Tidy, Locked, Unlocked, ChainOk, Inv, Leaves, Bounds, Represents, BPlusTree.StoreOk, BPlusTree.Snap, BPlusTree.Valid;
    id := tree.GetRootPageId(g);
    ghost var s, whole := tree.Snap(), tree.root.value;
    ghost var t, h, b := whole, Height(whole), ROOT_BOX;
    Chained(tree);
    RepresentedHere(s, t);
    tree.PageFacts(id);
    var page;
    page, g' := tree.Acquire(id, g);
    while !page.IsLeaf(g')
      invariant 0 <= h <= Height(whole)
      invariant id == t.id && id in tree.pages && page == tree.pages[id] && page.id == id && id in s && s[id] == page.Value() && Represents(s, t) && Inv(t, h, b)
      invariant Leaves(t) != [] && Leaves(t)[0] == Leaves(whole)[0]
      invariant OnTheWay(tree, g', id, Height(whole) - h) && g'.first == g.first && g'.next == g.next
      decreases h
    {
      RepresentedHere(s, t);
      FirstChild(s, t, h, b);
      var child := page.ValueAt(0, g');
      NextDown(tree, t, h, b, t.kids[0], FirstBox(t, b));
      HandOver(g', tree.headerId, id, child);
      page, g' := tree.Acquire(child, g');
      g' := Unlocked(g', id);
      id := child;
      b := FirstBox(t, b);
      t, h := t.kids[0], h - 1;
    }
    RepresentedHere(s, t);
    LeafHeight(t, h, b);
    OneLeaf(t);
  }

  lemma OneLeaf(t: Tree)
    requires t.Leaf?
    ensures Leaves(t) == [t]
  {
  }

  /** `Begin`: slot 0 of the leftmost leaf, or the default iterator of an empty tree. */
  method Begin(tree: BPlusTree) returns (it: IndexIterator, ghost log: seq<Event>)
    requires tree.Valid()
    ensures fresh(it) && it.tree == tree
    ensures tree.root.None? ==> it.pageId == INVALID_PAGE_ID && it.index == 0
    ensures tree.root.Some? ==> it.At(0, 0)
    ensures OneWay(tree, log)
  {
    hide ChainOk, Spot, Leaves, Items, Sound, Tidy, Locked, Unlocked, BPlusTree.Valid, BPlusTree.Snap, BPlusTree.StoreOk, TreeOk, Represents, Inv;
    HeaderThere(tree);
    ghost var g := Locked(NoGuards(tree.nextId), tree.headerId);
    var empty := tree.GetRootPageId(g) == INVALID_PAGE_ID;
    g := Unlocked(g, tree.headerId);
    var id := INVALID_PAGE_ID;
    if !empty {
      Chained(tree);
      FirstSpot(tree.root.value, tree.Snap());
      id, g := Leftmost(tree, Locked(g, tree.headerId));
      g := Unlocked(Unlocked(g, id), tree.headerId);
    }
    it := new IndexIterator(tree, id, 0);
    ReadOff(g);
    log := g.log;
  }

  /** The guards of one way down: at most the header page and two pages below each other. */
  ghost predicate OneWay(tree: BPlusTree, log: seq<Event>)
    reads tree
  {
    && Legal(tree.nextId, log) && HeldAfter(log) == {} && NextAfter(tree.nextId, log) == tree.nextId
    && MostHeld(log) == Smaller(tree.Levels() + 1, 3)
  }

  function FirstBox(t: Tree, b: Box): Box
    requires t.Node? && |t.kids| == |t.seps| + 1
  {
    var bs := Bounds(b.lo, t.seps, b.hi);
    Box(bs[0], bs[1], NextOf(t.kids, 0, b.next))
  }

  function LastBox(t: Tree, b: Box): Box
    requires t.Node? && |t.kids| == |t.seps| + 1
  {
    var bs, n := Bounds(b.lo, t.seps, b.hi), |t.kids|;
    Box(bs[n - 1], bs[n], b.next)
  }

  lemma FirstChild(s: Store, t: Tree, h: nat, b: Box)
    requires t.Node? && Inv(t, h, b) && Represents(s, t)
    ensures h > 0 && |t.kids| == |t.seps| + 1 && Inv(t.kids[0], h - 1, FirstBox(t, b)) && Represents(s, t.kids[0])
    ensures Leaves(t.kids[0]) != [] && Leaves(t) != [] && Leaves(t.kids[0])[0] == Leaves(t)[0]
  {
    assert RepresentsAll(s, t.kids);
    TreeChainOk(t.kids[0], h - 1, FirstBox(t, b));
    FirstLeaf(t.kids);
  }

  lemma LastChild(s: Store, t: Tree, h: nat, b: Box)
    requires t.Node? && Inv(t, h, b) && Represents(s, t)
    ensures h > 0 && |t.kids| == |t.seps| + 1
    ensures var last := t.kids[|t.kids| - 1];
      && Inv(last, h - 1, LastBox(t, b)) && Represents(s, last) && Leaves(last) != [] && Leaves(t) != []
      && Leaves(last)[|Leaves(last)| - 1] == Leaves(t)[|Leaves(t)| - 1]
  {
    assert RepresentsAll(s, t.kids);
    var bs, n := Bounds(b.lo, t.seps, b.hi), |t.kids|;
    assert Inv(t.kids[n - 1], h - 1, Box(bs[n - 1], bs[n], NextOf(t.kids, n - 1, b.next)));
    TreeChainOk(t.kids[n - 1], h - 1, LastBox(t, b));
    LastLeaf(t.kids);
  }

  /** The way down the right edge, likewise. */
  method Rightmost(tree: BPlusTree, ghost g: Guards) returns (id: PageId, page: Page, ghost g': Guards)
    requires tree.Valid() && tree.root.Some? && g.held == {tree.headerId} && g.count == g.peak == 1 && g.next == tree.nextId
    ensures var ls := Leaves(tree.root.value);
      && ls != [] && ls[|ls| - 1].Leaf? && id == ls[|ls| - 1].id && page.id == id && page.Value() == PageOf(ls[|ls| - 1])
    ensures OnTheWay(tree, g', id, Height(tree.root.value)) && g'.first == g.first && g'.next == g.next
  {
    hide Sound, Tidy, Locked, Unlocked, ChainOk, Inv, Leaves, Bounds, Represents, BPlusTree.StoreOk, BPlusTree.Snap, BPlusTree.Valid;
    id := tree.GetRootPageId(g);
    ghost var s, whole, ls := tree.Snap(), tree.root.value, Leaves(tree.root.value);
    ghost var t, h, b := whole, Height(whole), ROOT_BOX;
    Chained(tree);
    RepresentedHere(s, t);
    tree.PageFacts(id);
    page, g' := tree.Acquire(id, g);
    while !page.IsLeaf(g')
      invariant 0 <= h <= Height(whole)
      invariant id == t.id && id in tree.pages && page == tree.pages[id] && page.id == id && id in s && s[id] == page.Value() && Represents(s, t) && Inv(t, h, b)
      invariant Leaves(t) != [] && Leaves(t)[|Leaves(t)| - 1] == ls[|ls| - 1]
      invariant OnTheWay(tree, g', id, Height(whole) - h) && g'.first == g.first && g'.next == g.next
      decreases h
    {
      RepresentedHere(s, t);
      LastChild(s, t, h, b);
      var child := page.ValueAt(page.GetSize(g') - 1, g');
      NextDown(tree, t, h, b, t.kids[|t.kids| - 1], LastBox(t, b));
      HandOver(g', tree.headerId, id, child);
      page, g' := tree.Acquire(child, g');
      g' := Unlocked(g', id);
      id := child;
      b := LastBox(t, b);
      t, h := t.kids[|t.kids| - 1], h - 1;
    }
    RepresentedHere(s, t);
    LeafHeight(t, h, b);
    OneLeaf(t);
  }

  lemma LeafHeight(t: Tree, h: nat, b: Box)
    requires Inv(t, h, b)
    ensures t.Leaf? <==> h == 0
  {
  }

  /** `End`: one past the last slot of the rightmost leaf. */
  method End(tree: BPlusTree) returns (it: IndexIterator, ghost log: seq<Event>)
    requires tree.Valid()
    ensures fresh(it) && it.tree == tree
    ensures tree.root.None? ==> it.pageId == INVALID_PAGE_ID && it.index == 0
    ensures tree.root.Some? ==> it.At(|Leaves(tree.root.value)| - 1, |Items(tree.root.value)|)
    ensures OneWay(tree, log)
  {
    hide ChainOk, Spot, Leaves, Items, Sound, Tidy, Locked, Unlocked, BPlusTree.Valid, BPlusTree.Snap, BPlusTree.StoreOk, TreeOk, Represents, Inv;
    HeaderThere(tree);
    ghost var g := Locked(NoGuards(tree.nextId), tree.headerId);
    var empty := tree.GetRootPageId(g) == INVALID_PAGE_ID;
    g := Unlocked(g, tree.headerId);
    var id, index := INVALID_PAGE_ID, 0;
    if !empty {
      Chained(tree);
      LastSpot(tree.root.value, tree.Snap());
      var page;
      id, page, g := Rightmost(tree, Locked(g, tree.headerId));
      index := page.GetSize(g);
      g := Unlocked(Unlocked(g, id), tree.headerId);
    }
    it := new IndexIterator(tree, id, index);
    ReadOff(g);
    log := g.log;
  }

  /** Comparing with `End()` tells whether every position has been visited. */
  lemma SameAsEnd(it: IndexIterator, end: IndexIterator, i: nat, n: nat)
    requires it.tree == end.tree && it.At(i, n)
    requires end.At(|Leaves(it.tree.root.value)| - 1, |Items(it.tree.root.value)|)
    ensures it.pageId == end.pageId && it.index == end.index <==> n == |Items(it.tree.root.value)|
    ensures n <= |Items(it.tree.root.value)|
  {
    hide BPlusTree.Valid, BPlusTree.Snap, BPlusTree.StoreOk, Items, Leaves, ItemsIn, ChainOk;
    var ls := Leaves(it.tree.root.value);
    it.Here(i, n);
    SpotItem(ls, i, it.index, n);
    SpotItem(ls, |ls| - 1, end.index, |Items(it.tree.root.value)|);
  }

  /** The loop every caller writes: from `Begin()` to `End()`, reading each pair. */
  method Collect(tree: BPlusTree) returns (items: seq<Item>)
    requires tree.Valid()
    ensures items == if tree.root.None? then [] else Items(tree.root.value)
  {
    hide Leaves, Items, BPlusTree.Valid, BPlusTree.Snap, IndexIterator.At, OneWay;
    var it, end;
    ghost var log;
    it, log := Begin(tree);
    end, log := End(tree);
    items := [];
    ghost var all := if tree.root.None? then [] else Items(tree.root.value);
    ghost var i := 0;
    while it.pageId != end.pageId || it.index != end.index
      invariant fresh(it) && it.tree == tree && items <= all
      invariant tree.root.None? ==> it.pageId == end.pageId && it.index == end.index
      invariant tree.root.Some? ==> it.At(i, |items|) && end.At(|Leaves(tree.root.value)| - 1, |all|)
      decreases |all| - |items|
    {
      SameAsEnd(it, end, i, |items|);
      var r := it.Deref(i, |items|);
      var ok;
      ok, i := it.Next(i, |items|);
      items := items + [r.value];
    }
    if tree.root.Some? {
      SameAsEnd(it, end, i, |items|);
    }
  }

  /** The leaf `key` is routed to has a key at or above it, or is the last leaf. */
  predicate LandsInside(t: Tree, key: int) {
    var leaf := Descend([], t, key).leaf;
    leaf.Leaf? && (LeafIndex(leaf.items, key) < |leaf.items| || leaf.next == INVALID_PAGE_ID)
  }

  /** The slot found in the leaf is the lower bound of `key` in the whole contents. */
  lemma LowerBoundSpot(c: Config, s: Store, whole: Tree, key: int, d: Descent, bound: PageId)
    requires AtLeaf(c, s, whole, key, d, bound) && d.leaf.Leaf?
    ensures var ls, i0 := Leaves(whole), |LeavesBefore(d.path)|;
      && i0 < |ls| && ls[i0] == d.leaf
      && LeafIndex(Items(whole), key) == |ItemsIn(ls[..i0])| + LeafIndex(d.leaf.items, key)
  {
    DescendOk(c, whole, key, bound);
    PlugLeaves(d.path, d.leaf);
    LeavesBeforeItems(d.path);
    OutsideHole(d.path, 0, d.leaf.id);
    AroundIsConcat(d.path, d.leaf.items);
    var b := HoleOf(d.path);
    LowerBoundInRun(Before(d.path), d.leaf.items, After(d.path), b.lo, b.hi, key);
    assert Leaves(whole)[..|LeavesBefore(d.path)|] == LeavesBefore(d.path);
  }

  /** The slot is a position in the chain exactly when it does not fall past the end of a leaf that has a successor. */
  lemma LandsExactly(c: Config, s: Store, whole: Tree, key: int, d: Descent, bound: PageId)
    requires AtLeaf(c, s, whole, key, d, bound) && d.leaf.Leaf? && forall x :: x in s ==> x >= 0
    ensures var ls, n := Leaves(whole), LeafIndex(Items(whole), key);
      (exists i :: 0 <= i < |ls| && Spot(ls, i, LeafIndex(d.leaf.items, key), n) && ls[i].id == d.leaf.id) <==> LandsInside(whole, key)
  {
    TreeIsChained(c, whole, s, bound);
    LowerBoundSpot(c, s, whole, key, d, bound);
    var ls, i0, index, n := Leaves(whole), |LeavesBefore(d.path)|, LeafIndex(d.leaf.items, key), LeafIndex(Items(whole), key);
    assert ls[i0].next == NextLeaf(ls, i0, INVALID_PAGE_ID);
    if LandsInside(whole, key) {
      assert i0 + 1 < |ls| ==> ls[i0 + 1].id in s;
      assert Spot(ls, i0, index, n);
    } else {
      forall i | 0 <= i < |ls| && ls[i].id == d.leaf.id ensures !Spot(ls, i, index, n) {
        assert i == i0;
      }
    }
  }

  lemma NoSpot(it: IndexIterator, i: int, n: nat)
    requires it.tree.root.Some?
    requires forall i :: 0 <= i < |Leaves(it.tree.root.value)| && Leaves(it.tree.root.value)[i].id == it.pageId
               ==> it.index < 0 || !Spot(Leaves(it.tree.root.value), i, it.index, n)
    ensures !it.At(i, n)
  {
    hide Leaves, ItemsIn, BPlusTree.Valid;
  }

  /** An iterator on the slot the search found is at a position of the contents exactly when the search landed inside. */
  lemma StandsAt(it: IndexIterator, key: int, d: Descent)
    requires it.tree.Valid() && it.tree.root.Some? && AtLeaf(it.tree.cfg, it.tree.Snap(), it.tree.root.value, key, d, it.tree.nextId)
    requires d.leaf.Leaf? && it.pageId == d.leaf.id && it.index == LeafIndex(d.leaf.items, key)
    ensures it.Somewhere(LeafIndex(Items(it.tree.root.value), key)) <==> LandsInside(it.tree.root.value, key)
  {
    hide AtLeaf, ItemsIn, Leaves, Items, LandsInside, ChainOk, Represents, TreeOk, Inv, BPlusTree.Valid, BPlusTree.Snap, BPlusTree.StoreOk;
    var whole, n := it.tree.root.value, LeafIndex(Items(it.tree.root.value), key);
    Chained(it.tree);
    LandsExactly(it.tree.cfg, it.tree.Snap(), whole, key, d, it.tree.nextId);
    var ls := Leaves(whole);
    if LandsInside(whole, key) {
      var i :| 0 <= i < |ls| && Spot(ls, i, LeafIndex(d.leaf.items, key), n) && ls[i].id == d.leaf.id;
      assert it.At(i, n);
    } else {
      forall i: int ensures !it.At(i, n) {
        NoSpot(it, i, n);
      }
    }
  }

  /** The search of `Begin(key)` in a tree that has a root. */
  method LeafSlot(tree: BPlusTree, key: Key, ghost g: Guards) returns (leafId: PageId, index: nat, ghost d: Descent, ghost g': Guards)
    requires tree.StoreOk() && tree.TreeStored() && tree.root.Some? && g.held == {tree.headerId} && g.count == g.peak == 1 && g.next == tree.nextId
    ensures AtLeaf(tree.cfg, tree.Snap(), tree.root.value, key, d, tree.nextId) && d.leaf.Leaf?
    ensures leafId == d.leaf.id && index == LeafIndex(d.leaf.items, key)
    ensures g'.held == {} && g'.peak == (if Height(tree.root.value) == 0 then 2 else 3) && g'.first == g.first && g'.next == g.next
  {
    hide AtLeaf, Sound, Tidy, Locked, Unlocked, BPlusTree.Snap, BPlusTree.StoreOk, BPlusTree.TreeStored, Sorted;
    var page;
    leafId, page, d, g' := tree.FindLeafPage(key, g);
    AtLeafFacts(tree.cfg, tree.Snap(), tree.root.value, key, d, tree.nextId);
    tree.PageFacts(leafId);
    index := page.LeafKeyIndex(key, g');
    g' := Unlocked(Unlocked(g', leafId), tree.headerId);
  }

  /** `Begin(key)`; `None` is the exception an empty tree raises, whose root page id cannot be fetched. */
  method BeginAt(tree: BPlusTree, key: Key) returns (r: Option<IndexIterator>, ghost log: seq<Event>)
    requires tree.Valid()
    ensures r.None? <==> tree.root.None?
    ensures r.Some? ==>
      var n := LeafIndex(Items(tree.root.value), key);
      && fresh(r.value) && r.value.tree == tree
      && (r.value.Somewhere(n) <==> LandsInside(tree.root.value, key))
      && var leaf := Descend([], tree.root.value, key).leaf;
         leaf.Leaf? && r.value.pageId == leaf.id && r.value.index == LeafIndex(leaf.items, key)
    ensures OneWay(tree, log)
  {
    hide AtLeaf, Sound, Tidy, Locked, Unlocked, BPlusTree.Valid, BPlusTree.Snap, BPlusTree.StoreOk, BPlusTree.TreeStored, TreeOk, Represents, Inv, LandsInside, Sorted, Leaves, Items, IndexIterator.At, IndexIterator.Somewhere;
    HeaderThere(tree);
    ghost var g := Locked(NoGuards(tree.nextId), tree.headerId);
    if tree.GetRootPageId(g) == INVALID_PAGE_ID {
      g := Unlocked(g, tree.headerId);
      ReadOff(g);
      return None, g.log;
    }
    var leafId, index;
    ghost var d;
    leafId, index, d, g := LeafSlot(tree, key, g);
    var it := new IndexIterator(tree, leafId, index);
    StandsAt(it, key, d);
    AtLeafFacts(tree.cfg, tree.Snap(), tree.root.value, key, d, tree.nextId);
    ReadOff(g);
    r, log := Some(it), g.log;
  }

  /**
   * In the tree that the run `GAP_RUN` leaves, `Begin(3)` stops at the end of the leaf {1} although the next leaf
   * holds 5: it does not move on.
   */
  lemma BeginCanStopShort()
    ensures Run(SMALL, State(None, 0), GAP_RUN) == State(Some(GAP_TREE), 3) && !LandsInside(GAP_TREE, 3)
    ensures Items(GAP_TREE) == [Entry(1), Entry(5)]
  {
    var a, b := GAP_TREE.kids[0], GAP_TREE.kids[1];
    GapReached();
    TwoKids(a, b);
    assert Route([5], 3) == 0;
    assert Descend([], GAP_TREE, 3).leaf == a;
    assert LeafIndex(a.items, 3) == 1;
  }
}
