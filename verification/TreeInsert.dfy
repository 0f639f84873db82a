/**
 * `BPlusTree::Insert` as a function on trees: one leaf step, then one step per ancestor until a page has room.
 *
 * The three cases of an internal split (the new child left of, at or right of the middle) are one function
 * here, "insert, then cut at the minimum size"; the page methods are proved to do exactly that in place.
 */
module TreeInsert {
  import opened Types
  import opened TreeModel
  import opened TreeSearch
  import opened Zipper

  /** What one level hands to the level above: a finished subtree, or two with the key that divides them. */
  datatype Carry = Fits(t: Tree) | Split(l: Tree, up: int, r: Tree)

  function InsertAt<T>(s: seq<T>, i: nat, x: T): (r: seq<T>)
    requires i <= |s|
    ensures |r| == |s| + 1 && r[i] == x
  {
    s[..i] + [x] + s[i..]
  }

  /** The leaf step: `it` goes to slot `i`, after a split when the page is full. */
  function LeafInsert(c: Config, leaf: Tree, i: nat, it: Item, newId: PageId): Carry
    requires leaf.Leaf? && c.Ok() && i <= |leaf.items|
  {
    var m := c.LeafMin();
    if |leaf.items| < c.leafMax then
      Fits(leaf.(items := InsertAt(leaf.items, i, it)))
    else if m <= i then
      var r := InsertAt(leaf.items[m..], i - m, it);
      Split(Leaf(leaf.id, leaf.items[..m], newId), r[0].key, Leaf(newId, r, leaf.next))
    else
      Split(Leaf(leaf.id, InsertAt(leaf.items[..m], i, it), newId), leaf.items[m].key, Leaf(newId, leaf.items[m..], leaf.next))
  }

  /** The ancestor with its child replaced by `l` and `r`, before any split. */
  function Widened(f: Frame, l: Tree, up: int, r: Tree): Tree {
    var i := if |f.left| <= |f.seps| then |f.left| else 0;
    Node(f.id, InsertAt(f.seps, i, up), f.left + [l, r] + f.right)
  }

  /** An internal page cut in two, keeping `n` children on the left. */
  function Cut(t: Tree, n: nat, newId: PageId): Carry
    requires t.Node? && 0 < n <= |t.seps| && |t.seps| < |t.kids|
  {
    Split(Node(t.id, t.seps[..n - 1], t.kids[..n]), t.seps[n - 1], Node(newId, t.seps[n..], t.kids[n..]))
  }

  function NodeInsert(c: Config, f: Frame, l: Tree, up: int, r: Tree, newId: PageId): Carry {
    var t := Widened(f, l, up, r);
    if |f.left| + 1 + |f.right| < c.internalMax || !(0 < c.InternalMin() <= |t.seps| < |t.kids|) then Fits(t)
    else Cut(t, c.InternalMin(), newId)
  }

  /** The ascent: the finished tree and the next unused page id. */
  function Ascend(c: Config, path: Path, u: Carry, newId: PageId): (Tree, PageId)
    decreases |path|
  {
    match u
    case Fits(t) => (Plug(path, t), newId)
    case Split(l, up, r) =>
      if path == [] then (Node(newId, [up], [l, r]), newId + 1)
      else
        var u' := NodeInsert(c, Last(path), l, up, r, newId);
        Ascend(c, Init(path), u', if u'.Split? then newId + 1 else newId)
  }

  /** `Insert` on a non-empty tree; `newId` is the page id `NewPage` hands out next. */
  function InsertTree(c: Config, t: Tree, it: Item, newId: PageId): (Tree, PageId)
    requires c.Ok()
  {
    var d := Descend([], t, it.key);
    if !d.leaf.Leaf? then (t, newId)
    else
      var i := LeafIndex(d.leaf.items, it.key);
      if FoundAt(d.leaf.items, i, it.key) then (t, newId)
      else
        var u := LeafInsert(c, d.leaf, i, it, newId);
        Ascend(c, d.path, u, if u.Split? then newId + 1 else newId)
  }

  // ----- what holds between two levels -----

  function CarryItems(u: Carry): seq<Item> {
    match u
    case Fits(t) => Items(t)
    case Split(l, _, r) => Items(l) + Items(r)
  }

  ghost function CarryCount(u: Carry, x: PageId): nat {
    match u
    case Fits(t) => Count(t, x)
    case Split(l, _, r) => Count(l, x) + Count(r, x)
  }

  function CarryId(u: Carry): PageId {
    if u.Fits? then u.t.id else u.l.id
  }

  function CarryFirst(u: Carry): PageId {
    if u.Fits? then First(u.t) else First(u.l)
  }

  /** The carried subtrees keep to the bounds of the one subtree they replace. */
  ghost predicate KeepsBox(u: Carry, h: nat, b: Box) {
    match u
    case Fits(t) => Inv(t, h, b)
    case Split(l, up, r) =>
      b.lo < up < b.hi && Inv(l, h, Box(b.lo, up, First(r))) && Inv(r, h, Box(up, b.hi, b.next))
  }

  ghost predicate CarryInv(path: Path, u: Carry, h: nat) {
    PathInv(path, h, CarryFirst(u)) && KeepsBox(u, h, HoleOf(path))
  }

  ghost predicate CarrySized(c: Config, path: Path, u: Carry) {
    && PathSized(c, path)
    && match u
       case Fits(t) => FocusSized(c, path, t)
       case Split(l, _, r) => Sized(c, l) && Healthy(c, l) && Sized(c, r) && Healthy(c, r)
  }

  ghost predicate CarryCapped(c: Config, path: Path, u: Carry) {
    && PathCapped(c, path)
    && match u
       case Fits(t) => Capped(c, t)
       case Split(l, _, r) => Capped(c, l) && Capped(c, r)
  }

  /** No page id twice, and none outside [0, newId), over the path and the carried subtrees together. */
  ghost predicate CarryDistinct(path: Path, u: Carry, newId: PageId) {
    forall x :: PathCount(path, x) + CarryCount(u, x) <= if 0 <= x < newId then 1 else 0
  }

  /** Inserting on either side of the cut is inserting before cutting. */
  lemma InsertAcrossCut<T>(s: seq<T>, m: nat, i: nat, x: T)
    requires m <= |s| && i <= |s|
    ensures m <= i ==> s[..m] + InsertAt(s[m..], i - m, x) == InsertAt(s, i, x)
    ensures i <= m ==> InsertAt(s[..m], i, x) + s[m..] == InsertAt(s, i, x)
  {
  }

  lemma SortedInsert(items: seq<Item>, it: Item, lo: int, hi: int)
    requires Sorted(items) && Within(items, lo, hi) && lo <= it.key < hi
    requires !FoundAt(items, LeafIndex(items, it.key), it.key)
    ensures var s := InsertAt(items, LeafIndex(items, it.key), it); Sorted(s) && Within(s, lo, hi)
  {
    LeafIndexBounds(items, it.key);
  }

  lemma LeafInsertItems(c: Config, leaf: Tree, i: nat, it: Item, newId: PageId)
    requires c.Ok() && leaf.Leaf? && i <= |leaf.items|
    ensures var u := LeafInsert(c, leaf, i, it, newId);
      && CarryItems(u) == InsertAt(leaf.items, i, it) && CarryId(u) == leaf.id
      && forall x :: CarryCount(u, x) == Count(leaf, x) + (if u.Split? && x == newId then 1 else 0)
  {
    if c.leafMax <= |leaf.items| {
      InsertAcrossCut(leaf.items, c.LeafMin(), i, it);
    }
  }

  /**
   * The pages the leaf step leaves: the items with the new one in its slot, cut behind the minimum size, or behind
   * one more if the new one is among them; the new page comes second in the chain and its first key goes up.
   */
  lemma LeafInsertPages(c: Config, leaf: Tree, i: nat, it: Item, newId: PageId)
    requires c.Ok() && leaf.Leaf? && i <= |leaf.items|
    ensures var u, m, all := LeafInsert(c, leaf, i, it, newId), (c.leafMax + 1) / 2, leaf.items[..i] + [it] + leaf.items[i..];
      if |leaf.items| < c.leafMax then u == Fits(Leaf(leaf.id, all, leaf.next))
      else
        var n := if m <= i then m else m + 1;
        n < |all| && u == Split(Leaf(leaf.id, all[..n], newId), all[n].key, Leaf(newId, all[n..], leaf.next))
  {
    if c.leafMax <= |leaf.items| {
      var m, all := (c.leafMax + 1) / 2, leaf.items[..i] + [it] + leaf.items[i..];
      if m <= i {
        assert all[..m] == leaf.items[..m];
        assert all[m..] == leaf.items[m..][..i - m] + [it] + leaf.items[m..][i - m..];
      } else {
        assert all[..m + 1] == leaf.items[..m][..i] + [it] + leaf.items[..m][i..];
        assert all[m + 1..] == leaf.items[m..];
      }
    }
  }

  /** Cutting a sorted run inside both halves' bounds. */
  lemma CutSorted(a: seq<Item>, b: seq<Item>, lo: int, hi: int)
    requires Sorted(a + b) && Within(a + b, lo, hi) && a != [] && b != []
    ensures Sorted(a) && Sorted(b) && lo < b[0].key < hi && Within(a, lo, b[0].key) && Within(b, b[0].key, hi)
  {
    var s := a + b;
    assert forall i :: 0 <= i < |a| ==> a[i] == s[i];
    assert forall i :: 0 <= i < |b| ==> b[i] == s[|a| + i];
    assert s[0].key < s[|a|].key;
  }

  lemma LeafInsertInv(c: Config, leaf: Tree, i: nat, it: Item, newId: PageId, b: Box)
    requires c.Ok() && leaf.Leaf? && Inv(leaf, 0, b) && b.lo <= it.key < b.hi
    requires i == LeafIndex(leaf.items, it.key) && !FoundAt(leaf.items, i, it.key)
    ensures var u := LeafInsert(c, leaf, i, it, newId); KeepsBox(u, 0, b) && CarryFirst(u) == leaf.id
  {
    var u := LeafInsert(c, leaf, i, it, newId);
    LeafInsertItems(c, leaf, i, it, newId);
    SortedInsert(leaf.items, it, b.lo, b.hi);
    if u.Split? {
      CutSorted(u.l.items, u.r.items, b.lo, b.hi);
    }
  }

  lemma LeafInsertSized(c: Config, path: Path, leaf: Tree, i: nat, it: Item, newId: PageId)
    requires c.Ok() && leaf.Leaf? && i <= |leaf.items| && PathSized(c, path) && FocusSized(c, path, leaf)
    ensures CarrySized(c, path, LeafInsert(c, leaf, i, it, newId))
  {
  }

  /** One step up keeps the invariant, the contents and the page ids. */
  lemma NodeInsertInv(c: Config, path: Path, l: Tree, up: int, r: Tree, h: nat, newId: PageId)
    requires c.Ok() && path != [] && CarryInv(path, Split(l, up, r), h)
    ensures var u := NodeInsert(c, Last(path), l, up, r, newId);
      CarryInv(Init(path), u, h + 1) && CarryId(u) == Last(path).id
  {
    var f, b := Last(path), HoleOf(path);
    var bm := [b.lo, up, b.hi];
    assert Seg(bm, [l, r], h, b.next);
    FillMany(f, h, bm, [l, r]);
    assert bm[1..2] == [up];
    var t := Widened(f, l, up, r);
    assert Inv(t, h + 1, f.box) && First(t) == FirstOf(f.left, First(l));
    if NodeInsert(c, f, l, up, r, newId).Split? {
      CutInv(t, c.InternalMin(), h + 1, f.box, newId);
    }
  }

  lemma CutBounds(lo: int, seps: seq<int>, hi: int, n: nat)
    requires Increasing(Bounds(lo, seps, hi)) && 0 < n <= |seps|
    ensures lo < seps[n - 1] < hi
    ensures var bs := Bounds(lo, seps, hi);
      bs[0..n + 1] == Bounds(lo, seps[..n - 1], seps[n - 1]) && bs[n..|seps| + 2] == Bounds(seps[n - 1], seps[n..], hi)
  {
    var bs := Bounds(lo, seps, hi);
    assert bs[0] < bs[n] < bs[|seps| + 1];
  }

  lemma CutInv(t: Tree, n: nat, h: nat, b: Box, newId: PageId)
    requires t.Node? && Inv(t, h, b) && 0 < n <= |t.seps| < |t.kids|
    ensures var u := Cut(t, n, newId); KeepsBox(u, h, b) && CarryFirst(u) == First(t)
  {
    hide Increasing;
    CutBounds(b.lo, t.seps, b.hi, n);
    var bs, k := Bounds(b.lo, t.seps, b.hi), |t.kids|;
    SegSlice(bs, t.kids, h - 1, b.next, 0, n);
    SegSlice(bs, t.kids, h - 1, b.next, n, k);
    assert t.kids[0..n] == t.kids[..n] && t.kids[n..k] == t.kids[n..];
  }

  lemma CutItems(t: Tree, n: nat, newId: PageId)
    requires t.Node? && 0 < n <= |t.seps| < |t.kids|
    ensures CarryItems(Cut(t, n, newId)) == Items(t)
  {
    ConcatItems(t.kids[..n], t.kids[n..]);
    assert t.kids == t.kids[..n] + t.kids[n..];
  }

  lemma NodeInsertItems(c: Config, path: Path, l: Tree, up: int, r: Tree, newId: PageId)
    requires path != []
    ensures var u, f := NodeInsert(c, Last(path), l, up, r, newId), Last(path);
      CarryItems(u) == ItemsOf(f.left) + (Items(l) + Items(r)) + ItemsOf(f.right)
  {
    var f := Last(path);
    TwoKids(l, r);
    ConcatItems(f.left, [l, r]);
    ConcatItems(f.left + [l, r], f.right);
    if NodeInsert(c, f, l, up, r, newId).Split? {
      CutItems(Widened(f, l, up, r), c.InternalMin(), newId);
    }
  }

  lemma NodeInsertCount(c: Config, path: Path, l: Tree, up: int, r: Tree, newId: PageId, x: PageId)
    requires path != []
    ensures var u := NodeInsert(c, Last(path), l, up, r, newId);
      CarryCount(u, x) == FrameCount(Last(path), x) + Count(l, x) + Count(r, x) + (if u.Split? && x == newId then 1 else 0)
  {
    var f := Last(path);
    var t := Widened(f, l, up, r);
    TwoKids(l, r);
    ConcatCounts(f.left, [l, r], x);
    ConcatCounts(f.left + [l, r], f.right, x);
    if NodeInsert(c, f, l, up, r, newId).Split? {
      ConcatCounts(t.kids[..c.InternalMin()], t.kids[c.InternalMin()..], x);
      assert t.kids == t.kids[..c.InternalMin()] + t.kids[c.InternalMin()..];
    }
  }

  lemma NodeInsertDistinct(c: Config, path: Path, l: Tree, up: int, r: Tree, newId: PageId)
    requires path != [] && newId >= 0 && CarryDistinct(path, Split(l, up, r), newId)
    ensures var u := NodeInsert(c, Last(path), l, up, r, newId);
      CarryDistinct(Init(path), u, if u.Split? then newId + 1 else newId)
  {
    var u := NodeInsert(c, Last(path), l, up, r, newId);
    var newId' := if u.Split? then newId + 1 else newId;
    forall x ensures PathCount(Init(path), x) + CarryCount(u, x) <= if 0 <= x < newId' then 1 else 0 {
      NodeInsertCount(c, path, l, up, r, newId, x);
      assert PathCount(path, x) + CarryCount(Split(l, up, r), x) <= if 0 <= x < newId then 1 else 0;
    }
  }

  lemma NodeInsertSized(c: Config, path: Path, l: Tree, up: int, r: Tree, h: nat, newId: PageId)
    requires c.Ok() && path != [] && CarrySized(c, path, Split(l, up, r)) && CarryInv(path, Split(l, up, r), h)
    ensures var u := NodeInsert(c, Last(path), l, up, r, newId); CarrySized(c, Init(path), u)
    ensures CarryCapped(c, path, Split(l, up, r)) ==> CarryCapped(c, Init(path), NodeInsert(c, Last(path), l, up, r, newId))
  {
    hide Inv, KeepsBox, PathInv, SizedAll, CappedAll, PathSized, PathCapped, FocusSized;
    WidenedSized(c, path, l, up, r, h);
    if CarryCapped(c, path, Split(l, up, r)) {
      WidenedCapped(c, path, l, up, r, h);
    }
    var t := Widened(Last(path), l, up, r);
    if NodeInsert(c, Last(path), l, up, r, newId).Split? {
      CutSized(c, t, c.InternalMin());
    }
  }

  lemma WidenedSized(c: Config, path: Path, l: Tree, up: int, r: Tree, h: nat)
    requires path != [] && CarrySized(c, path, Split(l, up, r)) && CarryInv(path, Split(l, up, r), h)
    ensures var t := Widened(Last(path), l, up, r);
      && SizedAll(c, t.kids) && PathSized(c, Init(path)) && |t.kids| == |t.seps| + 1 && FocusSized(c, Init(path), t)
  {
  }

  lemma WidenedCapped(c: Config, path: Path, l: Tree, up: int, r: Tree, h: nat)
    requires path != [] && CarryCapped(c, path, Split(l, up, r)) && CarryInv(path, Split(l, up, r), h)
    ensures var t := Widened(Last(path), l, up, r);
      CappedAll(c, t.kids) && PathCapped(c, Init(path)) && |t.kids| == |t.seps| + 1 <= c.internalMax + 1
  {
  }

  lemma CutSized(c: Config, t: Tree, m: nat)
    requires t.Node? && 0 < m <= |t.seps| < |t.kids|
    ensures SizedAll(c, t.kids) ==> SizedAll(c, t.kids[..m]) && SizedAll(c, t.kids[m..])
    ensures CappedAll(c, t.kids) ==> CappedAll(c, t.kids[..m]) && CappedAll(c, t.kids[m..])
  {
  }

  // ----- the whole ascent, and the whole operation -----

  lemma NewRootInv(l: Tree, up: int, r: Tree, h: nat, newId: PageId)
    requires KeepsBox(Split(l, up, r), h, ROOT_BOX)
    ensures Inv(Node(newId, [up], [l, r]), h + 1, ROOT_BOX)
  {
    var bm := [ROOT_BOX.lo, up, ROOT_BOX.hi];
    assert Seg(bm, [l, r], h, ROOT_BOX.next) && bm == Bounds(ROOT_BOX.lo, [up], ROOT_BOX.hi);
  }

  lemma {:induction false} AscendInv(c: Config, path: Path, u: Carry, h: nat, newId: PageId)
    requires c.Ok() && CarryInv(path, u, h)
    ensures var t := Ascend(c, path, u, newId).0; Inv(t, Height(t), ROOT_BOX)
    ensures Height(Ascend(c, path, u, newId).0) <= h + |path| + 1
    decreases |path|
  {
    hide Inv, PathInv, NodeInsert;
    match u
    case Fits(t) =>
      PlugInv(path, h, t);
      InvHeight(Plug(path, t), h + |path|, ROOT_BOX);
    case Split(l, up, r) =>
      if path == [] {
        NewRootInv(l, up, r, h, newId);
        InvHeight(Node(newId, [up], [l, r]), h + 1, ROOT_BOX);
      } else {
        NodeInsertInv(c, path, l, up, r, h, newId);
        var u' := NodeInsert(c, Last(path), l, up, r, newId);
        AscendInv(c, Init(path), u', h + 1, if u'.Split? then newId + 1 else newId);
      }
  }

  lemma {:induction false} AscendItems(c: Config, path: Path, u: Carry, newId: PageId)
    ensures Items(Ascend(c, path, u, newId).0) == Around(path, CarryItems(u))
    decreases |path|
  {
    match u
    case Fits(t) => PlugItems(path, t);
    case Split(l, up, r) =>
      if path == [] {
        TwoKids(l, r);
      } else {
        NodeInsertItems(c, path, l, up, r, newId);
        var u' := NodeInsert(c, Last(path), l, up, r, newId);
        AscendItems(c, Init(path), u', if u'.Split? then newId + 1 else newId);
      }
  }

  lemma {:induction false} AscendDistinct(c: Config, path: Path, u: Carry, newId: PageId)
    requires newId >= 0 && CarryDistinct(path, u, newId)
    ensures var (t, newId') := Ascend(c, path, u, newId); Distinct(t, newId') && newId <= newId'
    decreases |path|
  {
    match u
    case Fits(t) =>
      forall x ensures Count(Plug(path, t), x) <= if 0 <= x < newId then 1 else 0 {
        PlugCount(path, t, x);
        assert PathCount(path, x) + CarryCount(u, x) <= if 0 <= x < newId then 1 else 0;
      }
    case Split(l, up, r) =>
      if path == [] {
        TwoKids(l, r);
        forall x ensures Count(Node(newId, [up], [l, r]), x) <= if 0 <= x < newId + 1 then 1 else 0 {
          assert PathCount(path, x) + CarryCount(u, x) <= if 0 <= x < newId then 1 else 0;
        }
      } else {
        NodeInsertDistinct(c, path, l, up, r, newId);
        var u' := NodeInsert(c, Last(path), l, up, r, newId);
        AscendDistinct(c, Init(path), u', if u'.Split? then newId + 1 else newId);
      }
  }

  lemma {:induction false} AscendIds(c: Config, path: Path, u: Carry, newId: PageId, x: PageId)
    ensures var (t, newId') := Ascend(c, path, u, newId);
      newId <= newId' && Count(t, x) == PathCount(path, x) + CarryCount(u, x) + if newId <= x < newId' then 1 else 0
    decreases |path|
  {
    match u
    case Fits(t) => PlugCount(path, t, x);
    case Split(l, up, r) =>
      if path == [] {
        TwoKids(l, r);
      } else {
        NodeInsertCount(c, path, l, up, r, newId, x);
        var u' := NodeInsert(c, Last(path), l, up, r, newId);
        AscendIds(c, Init(path), u', if u'.Split? then newId + 1 else newId, x);
      }
  }

  lemma {:induction false} AscendSized(c: Config, path: Path, u: Carry, h: nat, newId: PageId)
    requires c.Ok() && CarrySized(c, path, u) && CarryInv(path, u, h)
    ensures RootSized(c, Ascend(c, path, u, newId).0)
    ensures CarryCapped(c, path, u) ==> Capped(c, Ascend(c, path, u, newId).0)
    decreases |path|
  {
    match u
    case Fits(t) =>
      PlugSized(c, path, t);
      if CarryCapped(c, path, u) {
        PlugCapped(c, path, t);
      }
    case Split(l, up, r) =>
      if path != [] {
        NodeInsertSized(c, path, l, up, r, h, newId);
        NodeInsertInv(c, path, l, up, r, h, newId);
        var u' := NodeInsert(c, Last(path), l, up, r, newId);
        AscendSized(c, Init(path), u', h + 1, if u'.Split? then newId + 1 else newId);
      }
  }

  /** Insert keeps the tree invariant; pages are only ever capped, never overfilled. */
  lemma InsertTreeOk(c: Config, t: Tree, it: Item, newId: PageId)
    requires c.Ok() && TreeOk(c, t, newId) && newId >= 0 && MIN_KEY <= it.key <= MAX_KEY
    ensures var (t', newId') := InsertTree(c, t, it, newId);
      TreeOk(c, t', newId') && newId <= newId' && Height(t') <= Height(t) + 1
    ensures Capped(c, t) ==> Capped(c, InsertTree(c, t, it, newId).0)
  {
    hide Descend, LeafInsert, Ascend, Inv, PathInv, PathSized, FocusSized, FocusDistinct, CarryInv, CarrySized, CarryDistinct, CarryCapped,
      LeafIndex, Capped, PathCapped, Around, Items, Height;
    DescendOk(c, t, it.key, newId);
    var d := Descend([], t, it.key);
    var i := LeafIndex(d.leaf.items, it.key);
    if !FoundAt(d.leaf.items, i, it.key) {
      var u := LeafInsert(c, d.leaf, i, it, newId);
      var newId' := if u.Split? then newId + 1 else newId;
      LeafCarries(c, d.path, d.leaf, i, it, newId);
      AscendInv(c, d.path, u, 0, newId');
      AscendSized(c, d.path, u, 0, newId');
      AscendDistinct(c, d.path, u, newId');
      if Capped(c, t) {
        DescendCapped(c, [], t, it.key);
        LeafCarriesCapped(c, d.path, d.leaf, i, it, newId);
      }
    }
  }

  /** What the leaf step hands to the ascent. */
  lemma LeafCarries(c: Config, path: Path, leaf: Tree, i: nat, it: Item, newId: PageId)
    requires c.Ok() && leaf.Leaf? && newId >= 0 && PathInv(path, 0, leaf.id) && Inv(leaf, 0, HoleOf(path))
    requires HoleOf(path).lo <= it.key < HoleOf(path).hi && i == LeafIndex(leaf.items, it.key) && !FoundAt(leaf.items, i, it.key)
    requires PathSized(c, path) && FocusSized(c, path, leaf) && FocusDistinct(path, leaf, newId)
    ensures var u := LeafInsert(c, leaf, i, it, newId);
      && CarryInv(path, u, 0) && CarrySized(c, path, u) && CarryDistinct(path, u, if u.Split? then newId + 1 else newId)
  {
    hide LeafInsert, KeepsBox, PathInv, Inv, CarrySized, PathSized, FocusSized, LeafIndex;
    LeafInsertInv(c, leaf, i, it, newId, HoleOf(path));
    LeafInsertItems(c, leaf, i, it, newId);
    LeafInsertSized(c, path, leaf, i, it, newId);
    var u := LeafInsert(c, leaf, i, it, newId);
    forall x ensures PathCount(path, x) + CarryCount(u, x) <= if 0 <= x < (if u.Split? then newId + 1 else newId) then 1 else 0 {
      assert PathCount(path, x) + Count(leaf, x) <= if 0 <= x < newId then 1 else 0;
    }
  }

  lemma LeafCarriesCapped(c: Config, path: Path, leaf: Tree, i: nat, it: Item, newId: PageId)
    requires c.Ok() && leaf.Leaf? && i <= |leaf.items| && PathCapped(c, path)
    ensures CarryCapped(c, path, LeafInsert(c, leaf, i, it, newId))
  {
  }

  /** `Insert` keeps every page of the tree, and every page id it takes is a new page of the tree: none is lost. */
  lemma InsertTreeIds(c: Config, t: Tree, it: Item, newId: PageId)
    requires c.Ok() && TreeOk(c, t, newId) && MIN_KEY <= it.key <= MAX_KEY
    ensures var (t', newId') := InsertTree(c, t, it, newId);
      newId <= newId' && forall x :: Count(t', x) == Count(t, x) + if newId <= x < newId' then 1 else 0
  {
    hide LeafInsert, Ascend, TreeOk, LeafIndex, FocusDistinct, PathInv, Inv, PathSized, FocusSized;
    DescendOk(c, t, it.key, newId);
    var d := Descend([], t, it.key);
    var i := LeafIndex(d.leaf.items, it.key);
    if !FoundAt(d.leaf.items, i, it.key) {
      var u := LeafInsert(c, d.leaf, i, it, newId);
      var next := if u.Split? then newId + 1 else newId;
      LeafInsertItems(c, d.leaf, i, it, newId);
      AscendIds(c, d.path, u, next, 0);
      forall x ensures Count(Ascend(c, d.path, u, next).0, x) == Count(t, x) + if newId <= x < Ascend(c, d.path, u, next).1 then 1 else 0 {
        AscendIds(c, d.path, u, next, x);
        PlugCount(d.path, d.leaf, x);
      }
    }
  }

  lemma InsertTreeSkips(c: Config, t: Tree, it: Item, newId: PageId)
    requires c.Ok() && Descend([], t, it.key).leaf.Leaf?
    requires var leaf := Descend([], t, it.key).leaf; FoundAt(leaf.items, LeafIndex(leaf.items, it.key), it.key)
    ensures InsertTree(c, t, it, newId) == (t, newId)
  {
  }

  lemma InsertInside<T>(a: seq<T>, s: seq<T>, b: seq<T>, i: nat, x: T)
    requires i <= |s|
    ensures a + InsertAt(s, i, x) + b == InsertAt(a + s + b, |a| + i, x)
  {
  }

  /** Insert adds one item at its place in key order, and nothing else; an existing key changes nothing. */
  lemma InsertTreeItems(c: Config, t: Tree, it: Item, newId: PageId)
    requires c.Ok() && TreeOk(c, t, newId) && MIN_KEY <= it.key <= MAX_KEY
    ensures var t' := InsertTree(c, t, it, newId).0;
      if HasKey(Items(t), it.key) then t' == t
      else exists n :: 0 <= n <= |Items(t)| && Items(t') == InsertAt(Items(t), n, it)
  {
    DescendOk(c, t, it.key, newId);
    FoundInLeaf(c, t, it.key, newId);
    var d := Descend([], t, it.key);
    var i := LeafIndex(d.leaf.items, it.key);
    if !HasKey(Items(t), it.key) {
      var u := LeafInsert(c, d.leaf, i, it, newId);
      LeafInsertItems(c, d.leaf, i, it, newId);
      AscendItems(c, d.path, u, if u.Split? then newId + 1 else newId);
      AroundIsConcat(d.path, d.leaf.items);
      AroundIsConcat(d.path, CarryItems(u));
      InsertInside(Before(d.path), d.leaf.items, After(d.path), i, it);
    }
  }

  lemma {:induction false} DictInsert(items: seq<Item>, n: nat, it: Item)
    requires n <= |items| && !HasKey(items, it.key)
    ensures Dict(InsertAt(items, n, it)) == Dict(items)[it.key := it.rid]
  {
    var s, k := InsertAt(items, n, it), |items| - 1;
    if n == |items| {
      assert s[..n] == items;
    } else {
      assert s[..|s| - 1] == InsertAt(items[..k], n, it);
      DictInsert(items[..k], n, it);
    }
  }

  /** The map view: a new key is added with its value, an old key keeps the value it has. */
  lemma InsertTreeDict(c: Config, t: Tree, it: Item, newId: PageId)
    requires c.Ok() && TreeOk(c, t, newId) && newId >= 0 && MIN_KEY <= it.key <= MAX_KEY
    ensures var t', m := InsertTree(c, t, it, newId).0, Dict(Items(t));
      Dict(Items(t')) == if it.key in m then m else m[it.key := it.rid]
    ensures HasKey(Items(t), it.key) <==> it.key in Dict(Items(t))
  {
    var t' := InsertTree(c, t, it, newId).0;
    InsertTreeOk(c, t, it, newId);
    InsertTreeItems(c, t, it, newId);
    InvItems(t, Height(t), ROOT_BOX);
    InvItems(t', Height(t'), ROOT_BOX);
    DictEntries(Items(t));
    if !HasKey(Items(t), it.key) {
      var n :| 0 <= n <= |Items(t)| && Items(t') == InsertAt(Items(t), n, it);
      DictInsert(Items(t), n, it);
    }
  }
}
