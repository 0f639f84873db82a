/**
 * The page-level operations seen as walks over a stored tree: down to a leaf, and back up after a split.
 *
 * `Visiting`, `AtLeaf` and `Climbing` are the invariants of the three loops; each lemma is one turn of one of them.
 */
module TreeAscent {
  import opened Types
  import opened TreeModel
  import opened TreeInsert
  import opened TreeRemove
  import opened TreeSearch
  import opened TreeStore
  import opened Zipper

  function PathIds(path: Path): (ids: seq<PageId>)
    ensures |ids| == |path|
  {
    seq(|path|, i requires 0 <= i < |path| => path[i].id)
  }

  lemma PathIdsSplit(path: Path)
    requires path != []
    ensures PathIds(path) == PathIds(Init(path)) + [Last(path).id] && PathIds(path)[..|path| - 1] == PathIds(Init(path))
    ensures PathIds(path)[|path| - 1] == Last(path).id
  {
  }

  lemma {:induction false} PathIdCounted(path: Path, x: PageId)
    requires x in PathIds(path)
    ensures PathCount(path, x) >= 1
    decreases |path|
  {
    var i :| 0 <= i < |path| && path[i].id == x;
    if i < |path| - 1 {
      assert Init(path)[i].id == x && PathIds(Init(path))[i] == x;
      PathIdCounted(Init(path), x);
    }
  }

  /** A page in the hole is none of the pages of the path. */
  lemma FocusNotOnPath(path: Path, t: Tree, bound: PageId)
    requires FocusDistinct(path, t, bound)
    ensures t.id !in PathIds(path)
  {
    assert Count(t, t.id) >= 1 && PathCount(path, t.id) + Count(t, t.id) <= 1;
    if t.id in PathIds(path) {
      PathIdCounted(path, t.id);
    }
  }

  lemma FocusFromPlug(c: Config, path: Path, t: Tree, whole: Tree, bound: PageId)
    requires TreeOk(c, whole, bound) && Plug(path, t) == whole
    ensures FocusDistinct(path, t, bound)
  {
    forall x ensures PathCount(path, x) + Count(t, x) <= if 0 <= x < bound then 1 else 0 {
      PlugCount(path, t, x);
    }
  }

  /** A search for `key` has come down `path` to the subtree `t` of `whole`, all of it stored in `s`. */
  ghost predicate Visiting(s: Store, whole: Tree, path: Path, t: Tree, h: nat, key: int) {
    && PathInv(path, h, First(t)) && Inv(t, h, HoleOf(path))
    && HoleOf(path).lo <= key < HoleOf(path).hi
    && Represents(s, t) && RepresentsPath(s, path, t.id)
    && Plug(path, t) == whole && Descend(path, t, key) == Descend([], whole, key)
  }

  lemma VisitRoot(c: Config, s: Store, t: Tree, key: int, bound: PageId)
    requires TreeOk(c, t, bound) && Represents(s, t) && MIN_KEY <= key <= MAX_KEY
    ensures Visiting(s, t, [], t, Height(t), key)
  {
  }

  lemma VisitChild(c: Config, s: Store, whole: Tree, path: Path, t: Tree, h: nat, key: int, bound: PageId)
    requires TreeOk(c, whole, bound) && Visiting(s, whole, path, t, h, key) && t.Node?
    ensures h > 0 && Route(t.seps, key) < |t.kids|
    ensures var i := Route(t.seps, key);
      var path' := path + [FrameAt(t, i, HoleOf(path))];
      && Visiting(s, whole, path', t.kids[i], h - 1, key)
      && PathIds(path') == PathIds(path) + [t.id] && t.kids[i].id !in PathIds(path')
  {
    DescendStep(path, t, h, key);
    var i := Route(t.seps, key);
    var path' := path + [FrameAt(t, i, HoleOf(path))];
    assert Init(path') == path;
    UnfillRepresents(s, t, i, HoleOf(path));
    FocusFromPlug(c, path', t.kids[i], whole, bound);
    FocusNotOnPath(path', t.kids[i], bound);
  }

  lemma SepsSorted(lo: int, seps: seq<int>, hi: int, keys: seq<int>)
    requires Increasing(Bounds(lo, seps, hi)) && |keys| == |seps| + 1 && keys[1..] == seps
    ensures SortedKeys(keys)
  {
    var bs := Bounds(lo, seps, hi);
    assert forall i :: 1 <= i < |keys| ==> keys[i] == bs[i];
  }

  /** What the code reads off the page it has come to. */
  lemma VisitPage(s: Store, whole: Tree, path: Path, t: Tree, h: nat, key: int)
    requires Visiting(s, whole, path, t, h, key)
    ensures t.id in s && s[t.id] == PageOf(t)
    ensures t.Node? ==> Increasing(Bounds(HoleOf(path).lo, t.seps, HoleOf(path).hi)) && |t.kids| == |t.seps| + 1
    ensures t.Leaf? ==> h == 0 && Descend([], whole, key) == Descent(path, t)
    ensures RepresentsPath(s, path, t.id) && Represents(s, t)
  {
    if t.Node? {
      assert Seg(Bounds(HoleOf(path).lo, t.seps, HoleOf(path).hi), t.kids, h - 1, HoleOf(path).next);
    }
  }

  /** The search for `key` in `whole` has ended at `d`, and the pages of `s` hold all of it. */
  ghost predicate AtLeaf(c: Config, s: Store, whole: Tree, key: int, d: Descent, bound: PageId) {
    && c.Ok() && bound >= 0 && TreeOk(c, whole, bound) && Represents(s, whole) && MIN_KEY <= key <= MAX_KEY
    && d == Descend([], whole, key) && d.leaf.Leaf?
    && RepresentsPath(s, d.path, d.leaf.id) && Represents(s, d.leaf)
  }

  lemma AtLeafFacts(c: Config, s: Store, whole: Tree, key: int, d: Descent, bound: PageId)
    requires AtLeaf(c, s, whole, key, d, bound)
    ensures d == Descend([], whole, key) && d.leaf.Leaf? && d.leaf.id in s && s[d.leaf.id] == LeafPage(d.leaf.items, d.leaf.next)
    ensures Sorted(d.leaf.items) && d.leaf.id !in PathIds(d.path) && |d.path| == Height(whole)
    ensures HasKey(Items(whole), key) <==> FoundAt(d.leaf.items, LeafIndex(d.leaf.items, key), key)
  {
    DescendOk(c, whole, key, bound);
    FoundInLeaf(c, whole, key, bound);
    FocusNotOnPath(d.path, d.leaf, bound);
  }

  /** The page id of the root, seen from the hole. */
  function RootIdOf(path: Path, u: Carry): PageId {
    if path == [] then CarryId(u) else path[0].id
  }

  lemma {:induction false} PlugId(path: Path, t: Tree)
    ensures Plug(path, t).id == if path == [] then t.id else path[0].id
    decreases |path|
  {
    if path != [] {
      PlugId(Init(path), Fill(Last(path), t));
    }
  }

  /** The state of the ascent: what is carried, stored in `s`, still leads to `target`. */
  ghost predicate Climbing(c: Config, s: Store, path: Path, u: Carry, h: nat, newId: PageId, target: (Tree, PageId)) {
    && c.Ok() && newId >= 0 && CarryInv(path, u, h) && CarryDistinct(path, u, newId) && RepresentsCarry(s, path, u)
    && Ascend(c, path, u, newId) == target
  }

  lemma ClimbStart(c: Config, s: Store, s': Store, whole: Tree, it: Item, d: Descent, newId: PageId)
    requires AtLeaf(c, s, whole, it.key, d, newId) && d.leaf.Leaf?
    requires var i := LeafIndex(d.leaf.items, it.key);
      && !FoundAt(d.leaf.items, i, it.key)
      && SameExcept(s, s', {d.leaf.id, newId}) && HoldsCarry(s', LeafInsert(c, d.leaf, i, it, newId))
    ensures var u := LeafInsert(c, d.leaf, LeafIndex(d.leaf.items, it.key), it, newId);
      && Climbing(c, s', d.path, u, 0, if u.Split? then newId + 1 else newId, InsertTree(c, whole, it, newId))
      && CarryId(u) == d.leaf.id
      && whole.id == RootIdOf(d.path, u)
  {
    DescendOk(c, whole, it.key, newId);
    var i := LeafIndex(d.leaf.items, it.key);
    var u := LeafInsert(c, d.leaf, i, it, newId);
    LeafInsertInv(c, d.leaf, i, it, newId, HoleOf(d.path));
    LeafInsertItems(c, d.leaf, i, it, newId);
    LeafInsertStore(s, s', d.path, d.leaf, u, newId);
    assert FocusDistinct(d.path, d.leaf, newId);
    assert CarryDistinct(d.path, u, if u.Split? then newId + 1 else newId);
    PlugId(d.path, d.leaf);
  }

  lemma ClimbFacts(c: Config, s: Store, path: Path, u: Carry, h: nat, newId: PageId, target: (Tree, PageId))
    requires Climbing(c, s, path, u, h, newId, target) && u.Split?
    ensures path != [] ==>
      var f := Last(path);
      && f.id in s && s[f.id] == InternalPage(f.seps, Ids(f.left) + [u.l.id] + Ids(f.right))
      && |f.seps| == |f.left| + |f.right| && Increasing(Bounds(f.box.lo, f.seps, f.box.hi))
      && Hole(f).lo < u.up < Hole(f).hi
    ensures CarryId(u) !in PathIds(path)
  {
    assert Count(u.l, u.l.id) >= 1 && PathCount(path, u.l.id) + CarryCount(u, u.l.id) <= 1;
    if u.l.id in PathIds(path) {
      PathIdCounted(path, u.l.id);
    }
  }

  lemma ClimbStep(c: Config, s: Store, s': Store, path: Path, u: Carry, h: nat, newId: PageId, target: (Tree, PageId))
    requires Climbing(c, s, path, u, h, newId, target) && u.Split? && path != []
    requires SameExcept(s, s', {Last(path).id, newId})
    requires HoldsCarry(s', NodeInsert(c, Last(path), u.l, u.up, u.r, newId))
    ensures var u' := NodeInsert(c, Last(path), u.l, u.up, u.r, newId);
      && Climbing(c, s', Init(path), u', h + 1, if u'.Split? then newId + 1 else newId, target)
      && RootIdOf(Init(path), u') == RootIdOf(path, u) && CarryId(u') == Last(path).id
      && PathIds(Init(path)) == PathIds(path)[..|path| - 1]
  {
    NodeInsertInv(c, path, u.l, u.up, u.r, h, newId);
    NodeInsertDistinct(c, path, u.l, u.up, u.r, newId);
    NodeInsertStore(c, s, s', path, u.l, u.up, u.r, newId);
  }

  lemma ClimbRoot(c: Config, s: Store, s': Store, u: Carry, h: nat, newId: PageId, target: (Tree, PageId))
    requires Climbing(c, s, [], u, h, newId, target) && u.Split? && SameExcept(s, s', {})
    requires Holds(s', Node(newId, [u.up], [u.l, u.r]))
    ensures Climbing(c, s', [], Fits(Node(newId, [u.up], [u.l, u.r])), h + 1, newId + 1, target)
  {
    var t := Node(newId, [u.up], [u.l, u.r]);
    var bm := [ROOT_BOX.lo, u.up, ROOT_BOX.hi];
    assert Seg(bm, [u.l, u.r], h, ROOT_BOX.next) && bm == Bounds(ROOT_BOX.lo, [u.up], ROOT_BOX.hi);
    TwoKids(u.l, u.r);
    assert CarryDistinct([], Fits(t), newId + 1) by {
      forall x ensures PathCount([], x) + CarryCount(Fits(t), x) <= if 0 <= x < newId + 1 then 1 else 0 {
        assert PathCount([], x) + CarryCount(u, x) <= if 0 <= x < newId then 1 else 0;
      }
    }
    RepresentsFrame(s, s', u.l, {});
    RepresentsFrame(s, s', u.r, {});
    assert RepresentsAll(s', t.kids);
  }

  lemma ClimbDone(c: Config, s: Store, path: Path, u: Carry, h: nat, newId: PageId, target: (Tree, PageId))
    requires Climbing(c, s, path, u, h, newId, target) && u.Fits?
    ensures Represents(s, target.0) && target.1 == newId && target.0.id == RootIdOf(path, u)
  {
    PlugRepresents(s, path, u.t);
    PlugId(path, u.t);
  }

  /** The slot `KeyIndex` finds for a key that belongs between the two separators of the hole. */
  lemma SlotIs(f: Frame, up: int, keys: seq<int>, index: nat)
    requires |f.seps| == |f.left| + |f.right| && Increasing(Bounds(f.box.lo, f.seps, f.box.hi))
    requires Hole(f).lo < up < Hole(f).hi
    requires |keys| == |f.seps| + 1 && keys[1..] == f.seps
    requires 1 <= index && (index <= |keys| || index == 1)
    requires forall j :: 1 <= j < index && j < |keys| ==> keys[j] < up
    requires forall j :: index <= j < |keys| ==> up <= keys[j]
    ensures index == |f.left| + 1
  {
    var bs := Bounds(f.box.lo, f.seps, f.box.hi);
    assert forall j :: 1 <= j < |keys| ==> keys[j] == bs[j];
  }

  /** The pages an ancestor step leaves, in terms of the ancestor's own slots. */
  lemma NodeInsertPages(c: Config, f: Frame, l: Tree, up: int, r: Tree, newId: PageId)
    requires c.Ok() && |f.seps| == |f.left| + |f.right|
    ensures var u, m := NodeInsert(c, f, l, up, r, newId), (c.internalMax + 1) / 2;
      var seps, ids := InsertAt(f.seps, |f.left|, up), InsertAt(Ids(f.left) + [l.id] + Ids(f.right), |f.left| + 1, r.id);
      && |seps| == |ids| - 1
      && CarryId(u) == f.id
      && if |seps| < c.internalMax then u.Fits? && PageOf(u.t) == InternalPage(seps, ids)
         else
           && u.Split? && m <= |seps| && u.up == seps[m - 1] && u.r.id == newId
           && PageOf(u.l) == InternalPage(seps[..m - 1], ids[..m]) && PageOf(u.r) == InternalPage(seps[m..], ids[m..])
  {
    WidenedIds(f, l, up, r);
    var t := Widened(f, l, up, r);
    if |t.seps| >= c.internalMax {
      assert Ids(t.kids[..c.InternalMin()]) == Ids(t.kids)[..c.InternalMin()];
      assert Ids(t.kids[c.InternalMin()..]) == Ids(t.kids)[c.InternalMin()..];
    }
  }

  // ----- the ascent of `Remove` -----

  /**
   * The state of the loop over the ancestors: the pages hold a whole tree in which only `t` may be short, the
   * ascent from here leads to `target`, and a pending `oldKey` lies strictly inside the bounds of `t`.
   */
  ghost predicate Mending(c: Config, s: Store, path: Path, t: Tree, h: nat, bound: PageId,
                          key: int, keyUpdate: bool, oldKey: int, target: Tree) {
    && AscentInv(c, path, t, h, bound) && Represents(s, t) && RepresentsPath(s, path, t.id)
    && AscendRemove(c, path, t, keyUpdate) == target
    && HoleOf(path).lo <= key < HoleOf(path).hi
    && (keyUpdate ==> HoleOf(path).lo < oldKey < HoleOf(path).hi)
  }

  /** The `oldKey` of one level is no separator one level up: the rewrite inside the ascent never fires. */
  lemma OldKeyIsNoSeparator(f: Frame, h: nat, first: PageId, oldKey: int)
    requires FrameInv(f, h, first) && Hole(f).lo < oldKey < Hole(f).hi
    ensures oldKey !in f.seps
  {
    var bs := Bounds(f.box.lo, f.seps, f.box.hi);
    assert Increasing(bs) && Hole(f).lo == bs[|f.left|] && Hole(f).hi == bs[|f.left| + 1];
    hide FrameInv, Hole;
    NoBoundBetween(bs, |f.left|, oldKey);
    assert forall i :: 0 <= i < |f.seps| ==> f.seps[i] == bs[i + 1];
  }

  lemma NoBoundBetween(bs: seq<int>, j: nat, x: int)
    requires Increasing(bs) && j + 1 < |bs| && bs[j] < x < bs[j + 1]
    ensures x !in bs
  {
    forall i | 0 <= i < |bs| ensures bs[i] != x {
      assert i < j ==> bs[i] < bs[j];
      assert j + 1 < i ==> bs[j + 1] < bs[i];
    }
  }

  /** The key is routed to the hole. */
  lemma RoutedToHole(f: Frame, h: nat, first: PageId, key: int)
    requires FrameInv(f, h, first) && Hole(f).lo <= key < Hole(f).hi
    ensures Route(f.seps, key) == |f.left| && f.box.lo <= key < f.box.hi
  {
    RouteBetween(f.box.lo, f.seps, f.box.hi, |f.left|, key);
  }

  lemma RouteBetween(lo: int, seps: seq<int>, hi: int, i: nat, key: int)
    requires Increasing(Bounds(lo, seps, hi)) && i <= |seps|
    requires Bounds(lo, seps, hi)[i] <= key < Bounds(lo, seps, hi)[i + 1]
    ensures Route(seps, key) == i && lo <= key < hi
  {
    hide Route;
    forall j | 0 <= j < |seps| ensures if j < i then seps[j] <= key else key < seps[j] {
      BoundsAround(lo, seps, hi, i, j);
    }
    BoundsAround(lo, seps, hi, i, 0);
    RouteIs(seps, key, i);
  }

  lemma BoundsAround(lo: int, seps: seq<int>, hi: int, i: nat, j: nat)
    requires Increasing(Bounds(lo, seps, hi)) && i <= |seps|
    ensures var bs := Bounds(lo, seps, hi);
      j < |seps| ==> if j < i then seps[j] <= bs[i] else bs[i + 1] <= seps[j]
    ensures lo <= Bounds(lo, seps, hi)[i] && Bounds(lo, seps, hi)[i + 1] <= hi
  {
    var bs := Bounds(lo, seps, hi);
    assert j < |seps| ==> seps[j] == bs[j + 1];
    assert bs[0] == lo && bs[|seps| + 1] == hi;
  }

  lemma FillDistinct(path: Path, t: Tree, bound: PageId)
    requires path != [] && FocusDistinct(path, t, bound)
    ensures forall x :: PathCount(Init(path), x) + Count(Fill(Last(path), t), x) <= if 0 <= x < bound then 1 else 0
  {
    forall x ensures PathCount(Init(path), x) + Count(Fill(Last(path), t), x) <= if 0 <= x < bound then 1 else 0 {
      FillCount(Last(path), t, x);
      assert PathCount(path, x) + Count(t, x) <= if 0 <= x < bound then 1 else 0;
    }
  }

  /** The parent of the page under repair, ready for `RepairChild`. */
  ghost predicate ParentReady(c: Config, s: Store, up: Tree, slot: nat) {
    CanRebalance(c, up, slot) && Represents(s, up) && forall x :: Count(up, x) <= 1
  }

  lemma MendFacts(c: Config, s: Store, path: Path, t: Tree, h: nat, bound: PageId, key: int, keyUpdate: bool, oldKey: int, target: Tree)
    requires Mending(c, s, path, t, h, bound, key, keyUpdate, oldKey, target)
    ensures t.Node? && t.id in s && s[t.id] == PageOf(t) && |t.kids| >= 1 && FocusDistinct(path, t, bound)
    ensures path != [] ==>
      var f := Last(path);
      && ParentReady(c, s, Fill(f, t), |f.left|) && s[f.id] == PageOf(Fill(f, t)) && f.id in s
      && Increasing(Bounds(f.box.lo, f.seps, f.box.hi)) && Route(f.seps, key) == |f.left|
      && (keyUpdate ==> oldKey !in f.seps)
  {
    if path != [] {
      var f := Last(path);
      assert Repairable(c, t);
      ParentStep(c, path, t, h, bound);
      FillRepresents(s, f, t);
      FillDistinct(path, t, bound);
      RoutedToHole(f, h, First(t), key);
      if keyUpdate {
        OldKeyIsNoSeparator(f, h, First(t), oldKey);
      }
    }
  }

  lemma MendDone(c: Config, s: Store, path: Path, t: Tree, h: nat, bound: PageId, key: int, keyUpdate: bool, oldKey: int, target: Tree)
    requires Mending(c, s, path, t, h, bound, key, keyUpdate, oldKey, target)
    requires path != [] && !keyUpdate && |t.kids| >= c.InternalMin()
    ensures Represents(s, target) && target.id == path[0].id
  {
    PlugRepresents(s, path, t);
    PlugId(path, t);
  }

  /** Only a root of its own is the page the header names; it collapses when it has a single child. */
  lemma MendRoot(c: Config, s: Store, path: Path, t: Tree, h: nat, bound: PageId, key: int, keyUpdate: bool, oldKey: int, target: Tree)
    requires Mending(c, s, path, t, h, bound, key, keyUpdate, oldKey, target)
    requires t.id == if path == [] then t.id else path[0].id
    ensures path == [] && Represents(s, target)
    ensures target.id == if |t.kids| == 1 then Ids(t.kids)[0] else t.id
  {
    assert path != [] ==> PathIds(path)[0] == path[0].id;
    FocusNotOnPath(path, t, bound);
    assert RepresentsAll(s, t.kids);
  }

  lemma SepInside(lo: int, seps: seq<int>, hi: int, j: nat)
    requires Increasing(Bounds(lo, seps, hi)) && j < |seps|
    ensures lo < seps[j] < hi
  {
    var bs := Bounds(lo, seps, hi);
    assert bs[0] < bs[j + 1] < bs[|seps| + 1];
  }

  /** What a repair touches lies below the parent, so the path above is as it was. */
  lemma MendPath(s: Store, s': Store, path: Path, t: Tree, j: nat, bound: PageId)
    requires path != [] && FocusDistinct(path, t, bound) && RepresentsPath(s, path, t.id)
    requires var up := Fill(Last(path), t); HasPair(up, j) && SameExcept(s, s', {up.id, up.kids[j].id, up.kids[j + 1].id})
    ensures RepresentsPath(s', Init(path), Last(path).id)
  {
    var up := Fill(Last(path), t);
    FillDistinct(path, t, bound);
    var changed := {up.id, up.kids[j].id, up.kids[j + 1].id};
    forall x | x in changed ensures PathCount(Init(path), x) == 0 {
      KidCount(up.kids, j, x);
      KidCount(up.kids, j + 1, x);
      assert Count(up, x) >= 1;
    }
    RepresentsPathFrame(s, s', Init(path), Last(path).id, changed);
  }

  lemma MendStep(c: Config, s: Store, s': Store, path: Path, t: Tree, h: nat, bound: PageId,
                 key: int, keyUpdate: bool, oldKey: int, oldKey': int, target: Tree)
    requires Mending(c, s, path, t, h, bound, key, keyUpdate, oldKey, target)
    requires path != [] && !(!keyUpdate && |t.kids| >= c.InternalMin())
    requires var up, slot := Fill(Last(path), t), |Last(path).left|;
      && CanRebalance(c, up, slot)
      && var j := PairIndex(Choose(c, up, slot), slot);
         && oldKey' == up.seps[j] && Represents(s', Rebalance(c, up, slot).0)
         && SameExcept(s, s', {up.id, up.kids[j].id, up.kids[j + 1].id})
    ensures var up, slot := Fill(Last(path), t), |Last(path).left|;
      var (t', ku) := Rebalance(c, up, slot);
      Mending(c, s', Init(path), t', h + 1, bound, key, ku, oldKey', target) && t'.id == Last(path).id
  {
    var f := Last(path);
    var up, slot := Fill(f, t), |f.left|;
    var j := PairIndex(Choose(c, up, slot), slot);
    ParentStep(c, path, t, h, bound);
    RepairKeeps(Choose(c, up, slot), up, j, 0);
    MendPath(s, s', path, t, j, bound);
    RoutedToHole(f, h, First(t), key);
    SepInside(f.box.lo, f.seps, f.box.hi, j);
  }

  /** A sibling of the page under repair is neither on the path nor part of the subtree. */
  lemma SiblingApart(path: Path, t: Tree, bound: PageId, i: nat)
    requires path != [] && FocusDistinct(path, t, bound)
    requires i < |Fill(Last(path), t).kids| && i != |Last(path).left|
    ensures var x := Fill(Last(path), t).kids[i].id; x !in PathIds(path) && Count(t, x) == 0
  {
    var f := Last(path);
    var x := Fill(f, t).kids[i].id;
    if i < |f.left| {
      KidCount(f.left, i, x);
    } else {
      assert Fill(f, t).kids[i] == f.right[i - |f.left| - 1];
      KidCount(f.right, i - |f.left| - 1, x);
    }
    assert FrameCount(f, x) >= 1 && PathCount(path, x) + Count(t, x) <= 1;
    FillDistinct(path, t, bound);
    FillCount(f, t, x);
    if x in PathIds(path) {
      assert PathIds(path) == PathIds(Init(path)) + [f.id];
      if x in PathIds(Init(path)) {
        PathIdCounted(Init(path), x);
      }
    }
  }

  /** The pages still held after a repair are in the repaired subtree or above it. */
  lemma MendHeld(c: Config, path: Path, t: Tree, bound: PageId, x: PageId)
    requires path != [] && FocusDistinct(path, t, bound) && CanRebalance(c, Fill(Last(path), t), |Last(path).left|)
    requires x in PathIds(path) || Count(t, x) >= 1
    ensures var t' := Rebalance(c, Fill(Last(path), t), |Last(path).left|).0;
      && (x == t.id || x in PathIds(Init(path)) || Count(t', x) >= 1)
      && var w := Choose(c, Fill(Last(path), t), |Last(path).left|); (w.BorrowLeft? || w.BorrowRight? ==> x in PathIds(Init(path)) || Count(t', x) >= 1)
  {
    var f := Last(path);
    var up, slot := Fill(f, t), |f.left|;
    var w := Choose(c, up, slot);
    var j := PairIndex(w, slot);
    FillDistinct(path, t, bound);
    assert forall y :: Count(up, y) <= 1;
    assert PathIds(path) == PathIds(Init(path)) + [f.id];
    assert up.kids[slot] == t;
    FillCount(f, t, x);
    hide Fill, Choose, Count, PathCount, PathIds;
    RepairKeeps(w, up, j, x);
    PairAlone(up, j);
    RootCounts(Rebalance(c, up, slot).0);
  }

  lemma RootCounts(t: Tree)
    ensures Count(t, t.id) >= 1
  {
  }

  /** The key is gone from the leaf `leaf`, which may now be short; `target` is what the repair will make of it. */
  ghost predicate Deleted(c: Config, s: Store, path: Path, leaf: Tree, bound: PageId, key: int, target: Option<Tree>) {
    && ShortLeaf(c, path, leaf, bound) && Represents(s, leaf) && RepresentsPath(s, path, leaf.id)
    && RepairLeaf(c, path, leaf) == target
    && HoleOf(path).lo <= key < HoleOf(path).hi
  }

  lemma DeletedStart(c: Config, s: Store, s': Store, whole: Tree, key: int, d: Descent, bound: PageId)
    requires AtLeaf(c, s, whole, key, d, bound) && d.leaf.Leaf?
    requires var i := LeafIndex(d.leaf.items, key);
      && FoundAt(d.leaf.items, i, key) && SameExcept(s, s', {d.leaf.id})
      && Holds(s', d.leaf.(items := RemoveAt(d.leaf.items, i)))
    ensures var leaf' := d.leaf.(items := RemoveAt(d.leaf.items, LeafIndex(d.leaf.items, key)));
      Deleted(c, s', d.path, leaf', bound, key, RemoveTree(c, whole, key))
    ensures whole.id == if d.path == [] then d.leaf.id else d.path[0].id
  {
    DescendOk(c, whole, key, bound);
    ShortLeafAfterDelete(c, d.path, d.leaf, LeafIndex(d.leaf.items, key), bound);
    assert Count(d.leaf, d.leaf.id) == 1;
    assert PathCount(d.path, d.leaf.id) + Count(d.leaf, d.leaf.id) <= 1;
    RepresentsPathFrame(s, s', d.path, d.leaf.id, {d.leaf.id});
    PlugId(d.path, d.leaf);
  }

  /** The leaf keeps enough items, or is the root: nothing above it changes. */
  lemma DeletedDone(c: Config, s: Store, path: Path, leaf: Tree, bound: PageId, key: int, target: Option<Tree>)
    requires Deleted(c, s, path, leaf, bound, key, target)
    ensures leaf.Leaf? && FocusDistinct(path, leaf, bound)
    ensures |leaf.items| >= c.LeafMin() ==>
      target.Some? && Represents(s, target.value) && target.value.id == if path == [] then leaf.id else path[0].id
    ensures |leaf.items| < c.LeafMin() && path == [] ==>
      target == if leaf.items == [] then None else Some(leaf)
    ensures Represents(s, leaf)
  {
    PlugRepresents(s, path, leaf);
    PlugId(path, leaf);
  }

  lemma DeletedFacts(c: Config, s: Store, path: Path, leaf: Tree, bound: PageId, key: int, target: Option<Tree>)
    requires Deleted(c, s, path, leaf, bound, key, target) && leaf.Leaf? && |leaf.items| < c.LeafMin() && path != []
    ensures var f := Last(path);
      && ParentReady(c, s, Fill(f, leaf), |f.left|) && s[f.id] == PageOf(Fill(f, leaf)) && f.id in s
      && Increasing(Bounds(f.box.lo, f.seps, f.box.hi)) && Route(f.seps, key) == |f.left|
  {
    var f := Last(path);
    ParentStep(c, path, leaf, 0, bound);
    FillRepresents(s, f, leaf);
    FillDistinct(path, leaf, bound);
    RoutedToHole(f, 0, leaf.id, key);
  }

  lemma MendStart(c: Config, s: Store, s': Store, path: Path, leaf: Tree, bound: PageId, key: int, oldKey': int, target: Option<Tree>)
    requires Deleted(c, s, path, leaf, bound, key, target) && leaf.Leaf? && |leaf.items| < c.LeafMin() && path != []
    requires var up, slot := Fill(Last(path), leaf), |Last(path).left|;
      && CanRebalance(c, up, slot)
      && var j := PairIndex(Choose(c, up, slot), slot);
         && oldKey' == up.seps[j] && Represents(s', Rebalance(c, up, slot).0)
         && SameExcept(s, s', {up.id, up.kids[j].id, up.kids[j + 1].id})
    ensures var up, slot := Fill(Last(path), leaf), |Last(path).left|;
      var (t', ku) := Rebalance(c, up, slot);
      && target.Some? && t'.id == Last(path).id
      && Mending(c, s', Init(path), t', 1, bound, key, ku, oldKey', target.value)
  {
    hide RepairPair, AscendRemove, Represents, RepresentsPath, AscentInv;
    var f := Last(path);
    var up, slot := Fill(f, leaf), |f.left|;
    var j := PairIndex(Choose(c, up, slot), slot);
    ParentStep(c, path, leaf, 0, bound);
    RepairKeeps(Choose(c, up, slot), up, j, 0);
    MendPath(s, s', path, leaf, j, bound);
    RoutedToHole(f, 0, leaf.id, key);
    SepInside(f.box.lo, f.seps, f.box.hi, j);
  }
}
