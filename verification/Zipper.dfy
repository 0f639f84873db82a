/**
 * A tree with one hole: the ancestors that `FindAndLock` leaves in `write_set_`, root first.
 *
 * Going one level up is `Fill(Last(path), t)`, which leaves `Plug` unchanged by definition; the lemmas say what
 * a whole tree owes to its hole.
 */
module Zipper {
  import opened Types
  import opened TreeModel

  /** An internal page with its `|left|`-th child taken out, and the bounds the page inherits. */
  datatype Frame = Frame(id: PageId, seps: seq<int>, left: seq<Tree>, right: seq<Tree>, box: Box)

  type Path = seq<Frame>

  function Last(path: Path): Frame
    requires path != []
  {
    path[|path| - 1]
  }

  function Init(path: Path): Path
    requires path != []
  {
    path[..|path| - 1]
  }

  function Fill(f: Frame, t: Tree): Tree {
    Node(f.id, f.seps, f.left + [t] + f.right)
  }

  function Plug(path: Path, t: Tree): Tree {
    if path == [] then t else Plug(Init(path), Fill(Last(path), t))
  }

  function FrameAt(t: Tree, i: nat, box: Box): Frame
    requires t.Node? && i < |t.kids|
  {
    Frame(t.id, t.seps, t.kids[..i], t.kids[i + 1..], box)
  }

  /** The bounds the hole inherits. */
  function Hole(f: Frame): Box {
    var bs := Bounds(f.box.lo, f.seps, f.box.hi);
    if |f.left| + 1 < |bs| then Box(bs[|f.left|], bs[|f.left| + 1], FirstOf(f.right, f.box.next)) else f.box
  }

  function HoleOf(path: Path): Box {
    if path == [] then ROOT_BOX else Hole(Last(path))
  }

  ghost predicate FrameInv(f: Frame, h: nat, first: PageId) {
    && |f.seps| == |f.left| + |f.right|
    && var bs := Bounds(f.box.lo, f.seps, f.box.hi);
       && Increasing(bs)
       && Seg(bs[..|f.left| + 1], f.left, h, first)
       && Seg(bs[|f.left| + 1..], f.right, h, f.box.next)
  }

  /** The path fits any subtree of height `h` and leftmost leaf `first` that keeps to `HoleOf(path)`. */
  ghost predicate PathInv(path: Path, h: nat, first: PageId) {
    path != [] ==>
      var f := Last(path);
      && FrameInv(f, h, first)
      && f.box == HoleOf(Init(path))
      && PathInv(Init(path), h + 1, FirstOf(f.left, first))
  }

  lemma FillBounds(lo: int, seps: seq<int>, hi: int, i: nat, bm: seq<int>, n: nat)
    requires i <= |seps| && 0 < n < |bm| && bm[0] == Bounds(lo, seps, hi)[i]
    ensures var bs := Bounds(lo, seps, hi);
      bs[..i + 1][..i] + (bm[..n] + bs[i + 1..]) == Bounds(lo, seps[..i] + bm[1..n] + seps[i..], hi)
  {
  }

  /** Filling the hole with a run of subtrees that starts and ends at the hole's bounds. */
  lemma FillMany(f: Frame, h: nat, bm: seq<int>, mid: seq<Tree>)
    requires mid != [] && FrameInv(f, h, First(mid[0]))
    requires Seg(bm, mid, h, Hole(f).next) && bm[0] == Hole(f).lo && bm[|mid|] == Hole(f).hi
    ensures Inv(Node(f.id, f.seps[..|f.left|] + bm[1..|mid|] + f.seps[|f.left|..], f.left + mid + f.right), h + 1, f.box)
    ensures First(Node(f.id, [], f.left + mid + f.right)) == FirstOf(f.left, First(mid[0]))
  {
    var bs, i, n := Bounds(f.box.lo, f.seps, f.box.hi), |f.left|, |mid|;
    SegConcat(bm, mid, bs[i + 1..], f.right, h, f.box.next);
    SegConcat(bs[..i + 1], f.left, bm[..n] + bs[i + 1..], mid + f.right, h, f.box.next);
    FillBounds(f.box.lo, f.seps, f.box.hi, i, bm, n);
    assert f.left + (mid + f.right) == f.left + mid + f.right;
  }

  lemma FillInv(f: Frame, h: nat, t: Tree)
    requires FrameInv(f, h, First(t)) && Inv(t, h, Hole(f))
    ensures Inv(Fill(f, t), h + 1, f.box) && First(Fill(f, t)) == FirstOf(f.left, First(t))
  {
    var b := Hole(f);
    assert [t][..] == [t];
    FillMany(f, h, [b.lo, b.hi], [t]);
    assert f.seps[..|f.left|] + [b.lo, b.hi][1..1] + f.seps[|f.left|..] == f.seps;
  }

  lemma UnfillInv(t: Tree, h: nat, box: Box, i: nat)
    requires t.Node? && Inv(t, h, box) && i < |t.kids|
    ensures var f := FrameAt(t, i, box);
      && FrameInv(f, h - 1, First(t.kids[i])) && Inv(t.kids[i], h - 1, Hole(f))
      && Fill(f, t.kids[i]) == t && First(t) == FirstOf(f.left, First(t.kids[i]))
  {
    hide FrameInv, Increasing;
    UnfillFrame(t, h, box, i);
    var bs := Bounds(box.lo, t.seps, box.hi);
    assert t.kids[..i] + [t.kids[i]] + t.kids[i + 1..] == t.kids;
    assert Inv(t.kids[i], h - 1, Box(bs[i], bs[i + 1], NextOf(t.kids, i, box.next)));
  }

  lemma UnfillFrame(t: Tree, h: nat, box: Box, i: nat)
    requires t.Node? && Inv(t, h, box) && i < |t.kids|
    ensures FrameInv(FrameAt(t, i, box), h - 1, First(t.kids[i]))
  {
    var bs := Bounds(box.lo, t.seps, box.hi);
    SegSlice(bs, t.kids, h - 1, box.next, 0, i);
    SegSlice(bs, t.kids, h - 1, box.next, i + 1, |t.kids|);
    assert bs[0..i + 1] == bs[..i + 1] && bs[i + 1..|t.kids| + 1] == bs[i + 1..];
    assert t.kids[0..i] == t.kids[..i] && t.kids[i + 1..|t.kids|] == t.kids[i + 1..];
  }

  lemma {:induction false} PlugInv(path: Path, h: nat, t: Tree)
    requires PathInv(path, h, First(t)) && Inv(t, h, HoleOf(path))
    ensures Inv(Plug(path, t), h + |path|, ROOT_BOX)
    decreases |path|
  {
    if path != [] {
      FillInv(Last(path), h, t);
      PlugInv(Init(path), h + 1, Fill(Last(path), t));
    }
  }

  // ----- contents and page ids around the hole -----

  function Before(path: Path): seq<Item> {
    if path == [] then [] else Before(Init(path)) + ItemsOf(Last(path).left)
  }

  function After(path: Path): seq<Item> {
    if path == [] then [] else ItemsOf(Last(path).right) + After(Init(path))
  }

  /** The items of the whole tree when the hole holds `items`. */
  function Around(path: Path, items: seq<Item>): seq<Item>
    decreases |path|
  {
    if path == [] then items
    else Around(Init(path), ItemsOf(Last(path).left) + items + ItemsOf(Last(path).right))
  }

  lemma {:induction false} AroundIsConcat(path: Path, items: seq<Item>)
    ensures Around(path, items) == Before(path) + items + After(path)
    decreases |path|
  {
    if path != [] {
      var f := Last(path);
      AroundIsConcat(Init(path), ItemsOf(f.left) + items + ItemsOf(f.right));
    }
  }

  ghost function PathCount(path: Path, x: PageId): nat {
    if path == [] then 0 else FrameCount(Last(path), x) + PathCount(Init(path), x)
  }

  ghost function FrameCount(f: Frame, x: PageId): nat {
    (if f.id == x then 1 else 0) + CountOf(f.left, x) + CountOf(f.right, x)
  }

  /** No page id twice, and none outside [0, bound), over the path and the subtree in its hole together. */
  ghost predicate FocusDistinct(path: Path, t: Tree, bound: PageId) {
    forall x :: PathCount(path, x) + Count(t, x) <= if 0 <= x < bound then 1 else 0
  }

  lemma FillItems(f: Frame, t: Tree)
    ensures Items(Fill(f, t)) == ItemsOf(f.left) + Items(t) + ItemsOf(f.right)
  {
    ConcatItems(f.left + [t], f.right);
    ConcatItems(f.left, [t]);
    OneKid(t);
  }

  lemma FillCount(f: Frame, t: Tree, x: PageId)
    ensures Count(Fill(f, t), x) == FrameCount(f, x) + Count(t, x)
  {
    ConcatCounts(f.left + [t], f.right, x);
    ConcatCounts(f.left, [t], x);
    OneKid(t);
  }

  lemma {:induction false} PlugItems(path: Path, t: Tree)
    ensures Items(Plug(path, t)) == Around(path, Items(t))
    decreases |path|
  {
    if path != [] {
      var f := Last(path);
      PlugItems(Init(path), Fill(f, t));
      FillItems(f, t);
    }
  }

  lemma {:induction false} PlugCount(path: Path, t: Tree, x: PageId)
    ensures Count(Plug(path, t), x) == PathCount(path, x) + Count(t, x)
    decreases |path|
  {
    if path != [] {
      PlugCount(Init(path), Fill(Last(path), t), x);
      FillCount(Last(path), t, x);
    }
  }

  /** Everything outside the hole lies outside the hole's bounds. */
  lemma {:induction false} OutsideHole(path: Path, h: nat, first: PageId)
    requires PathInv(path, h, first)
    ensures Within(Before(path), MIN_KEY, HoleOf(path).lo)
    ensures Within(After(path), HoleOf(path).hi, MAX_KEY + 1)
    ensures MIN_KEY <= HoleOf(path).lo < HoleOf(path).hi <= MAX_KEY + 1
    decreases |path|
  {
    if path != [] {
      var f := Last(path);
      OutsideHole(Init(path), h + 1, FirstOf(f.left, first));
      var bs := Bounds(f.box.lo, f.seps, f.box.hi);
      SegItems(bs[..|f.left| + 1], f.left, h, first);
      SegItems(bs[|f.left| + 1..], f.right, h, f.box.next);
    }
  }

  // ----- pages around the hole -----

  /** The pages of the path and of everything beside it; `hole` is the page id found in the hole. */
  ghost predicate RepresentsPath(s: Store, path: Path, hole: PageId) {
    path != [] ==>
      var f := Last(path);
      && f.id in s && s[f.id] == InternalPage(f.seps, Ids(f.left) + [hole] + Ids(f.right))
      && RepresentsAll(s, f.left) && RepresentsAll(s, f.right)
      && RepresentsPath(s, Init(path), f.id)
  }

  lemma {:induction false} RepresentsPathFrame(s: Store, s': Store, path: Path, hole: PageId, changed: set<PageId>)
    requires RepresentsPath(s, path, hole) && SameExcept(s, s', changed)
    requires forall x :: x in changed ==> PathCount(path, x) == 0
    ensures RepresentsPath(s', path, hole)
    decreases |path|
  {
    if path != [] {
      var f := Last(path);
      assert FrameCount(f, f.id) > 0;
      RepresentsAllFrame(s, s', f.left, changed);
      RepresentsAllFrame(s, s', f.right, changed);
      RepresentsPathFrame(s, s', Init(path), f.id, changed);
    }
  }

  lemma FillRepresents(s: Store, f: Frame, t: Tree)
    requires Represents(s, t) && RepresentsAll(s, f.left) && RepresentsAll(s, f.right)
    requires f.id in s && s[f.id] == InternalPage(f.seps, Ids(f.left) + [t.id] + Ids(f.right))
    ensures Represents(s, Fill(f, t))
  {
    assert Ids(f.left + [t] + f.right) == Ids(f.left) + [t.id] + Ids(f.right);
  }

  lemma UnfillRepresents(s: Store, t: Tree, i: nat, box: Box)
    requires t.Node? && i < |t.kids| && Represents(s, t)
    ensures var f := FrameAt(t, i, box);
      && f.id in s && s[f.id] == InternalPage(f.seps, Ids(f.left) + [t.kids[i].id] + Ids(f.right))
      && RepresentsAll(s, f.left) && RepresentsAll(s, f.right) && Represents(s, t.kids[i])
  {
    var f := FrameAt(t, i, box);
    assert Ids(t.kids) == Ids(f.left) + [t.kids[i].id] + Ids(f.right);
  }

  lemma {:induction false} PlugRepresents(s: Store, path: Path, t: Tree)
    requires RepresentsPath(s, path, t.id) && Represents(s, t)
    ensures Represents(s, Plug(path, t))
    decreases |path|
  {
    if path != [] {
      FillRepresents(s, Last(path), t);
      PlugRepresents(s, Init(path), Fill(Last(path), t));
    }
  }

  // ----- occupancy around the hole -----

  ghost predicate PathSized(c: Config, path: Path) {
    forall j :: 0 <= j < |path| ==>
      && SizedAll(c, path[j].left) && SizedAll(c, path[j].right)
      && (if j == 0 then 2 else c.InternalMin()) <= |path[j].left| + 1 + |path[j].right|
  }

  ghost predicate FocusSized(c: Config, path: Path, t: Tree) {
    if path == [] then RootSized(c, t) else Sized(c, t) && Healthy(c, t)
  }

  lemma {:induction false} PlugSized(c: Config, path: Path, t: Tree)
    requires PathSized(c, path) && FocusSized(c, path, t)
    ensures RootSized(c, Plug(path, t))
    decreases |path|
  {
    if path != [] {
      var f := Last(path);
      assert SizedAll(c, Fill(f, t).kids);
      PlugSized(c, Init(path), Fill(f, t));
    }
  }

  ghost predicate PathCapped(c: Config, path: Path) {
    forall j :: 0 <= j < |path| ==>
      && CappedAll(c, path[j].left) && CappedAll(c, path[j].right)
      && |path[j].left| + 1 + |path[j].right| <= c.internalMax
  }

  lemma {:induction false} PlugCapped(c: Config, path: Path, t: Tree)
    requires PathCapped(c, path)
    ensures Capped(c, t) <==> Capped(c, Plug(path, t))
    decreases |path|
  {
    if path != [] {
      var f := Last(path);
      assert Fill(f, t).kids[|f.left|] == t;
      PlugCapped(c, Init(path), Fill(f, t));
    }
  }

  // ----- descent -----

  /** The child `FindAndLock` descends into: the number of separators not above `key`. */
  function Route(seps: seq<int>, key: int): (i: nat)
    ensures i <= |seps|
  {
    if seps == [] then 0
    else if seps[|seps| - 1] <= key then |seps|
    else Route(seps[..|seps| - 1], key)
  }

  lemma {:induction false} RouteBounds(lo: int, seps: seq<int>, hi: int, key: int)
    requires Increasing(Bounds(lo, seps, hi)) && lo <= key < hi
    ensures var bs, i := Bounds(lo, seps, hi), Route(seps, key); bs[i] <= key < bs[i + 1]
  {
    var bs, n := Bounds(lo, seps, hi), |seps|;
    if seps != [] && key < seps[n - 1] {
      assert Bounds(lo, seps[..n - 1], seps[n - 1]) == bs[..n + 1];
      RouteBounds(lo, seps[..n - 1], seps[n - 1], key);
    }
  }

  lemma {:induction false} RouteIs(seps: seq<int>, key: int, i: nat)
    requires i <= |seps|
    requires forall j :: 0 <= j < i ==> seps[j] <= key
    requires forall j :: i <= j < |seps| ==> key < seps[j]
    ensures Route(seps, key) == i
  {
    if seps != [] && key < seps[|seps| - 1] {
      RouteIs(seps[..|seps| - 1], key, i);
    }
  }

  datatype Descent = Descent(path: Path, leaf: Tree)

  /** The pages `FindAndLock` visits below a path, and the leaf it ends at. */
  function Descend(path: Path, t: Tree, key: int): Descent
    decreases t
  {
    match t
    case Leaf(_, _, _) => Descent(path, t)
    case Node(_, seps, kids) =>
      var i := Route(seps, key);
      if i < |kids| then Descend(path + [FrameAt(t, i, HoleOf(path))], kids[i], key) else Descent(path, t)
  }

  /** One step down keeps the invariant and splits neither contents nor page ids. */
  lemma DescendStep(path: Path, t: Tree, h: nat, key: int)
    requires t.Node? && PathInv(path, h, First(t)) && Inv(t, h, HoleOf(path))
    requires HoleOf(path).lo <= key < HoleOf(path).hi
    ensures var i := Route(t.seps, key);
      && i < |t.kids| && h > 0
      && var path' := path + [FrameAt(t, i, HoleOf(path))];
         && PathInv(path', h - 1, First(t.kids[i])) && Inv(t.kids[i], h - 1, HoleOf(path'))
         && HoleOf(path').lo <= key < HoleOf(path').hi
         && Plug(path', t.kids[i]) == Plug(path, t)
  {
    var b, i := HoleOf(path), Route(t.seps, key);
    RouteBounds(b.lo, t.seps, b.hi, key);
    UnfillInv(t, h, b, i);
    var path' := path + [FrameAt(t, i, b)];
    assert Init(path') == path;
  }

  lemma {:induction false} DescendInv(path: Path, t: Tree, h: nat, key: int)
    requires PathInv(path, h, First(t)) && Inv(t, h, HoleOf(path))
    requires HoleOf(path).lo <= key < HoleOf(path).hi
    ensures var d := Descend(path, t, key);
      && d.leaf.Leaf? && |d.path| == |path| + h
      && PathInv(d.path, 0, d.leaf.id) && Inv(d.leaf, 0, HoleOf(d.path))
      && HoleOf(d.path).lo <= key < HoleOf(d.path).hi
      && Plug(d.path, d.leaf) == Plug(path, t)
    decreases h
  {
    if t.Node? {
      DescendStep(path, t, h, key);
      var i := Route(t.seps, key);
      DescendInv(path + [FrameAt(t, i, HoleOf(path))], t.kids[i], h - 1, key);
    }
  }

  /** Occupancy seen from the leaf: the ancestors and everything beside them, and the leaf itself. */
  lemma {:induction false} DescendSized(c: Config, path: Path, t: Tree, key: int)
    requires PathSized(c, path) && FocusSized(c, path, t)
    ensures var d := Descend(path, t, key); PathSized(c, d.path) && FocusSized(c, d.path, d.leaf)
    decreases t
  {
    if t.Node? {
      var i := Route(t.seps, key);
      if i < |t.kids| {
        assert SizedAll(c, t.kids);
        assert Healthy(c, t.kids[i]) && Sized(c, t.kids[i]);
        DescendSized(c, path + [FrameAt(t, i, HoleOf(path))], t.kids[i], key);
      }
    }
  }

  lemma {:induction false} DescendCapped(c: Config, path: Path, t: Tree, key: int)
    requires PathCapped(c, path) && Capped(c, t)
    ensures var d := Descend(path, t, key); PathCapped(c, d.path) && Capped(c, d.leaf)
    decreases t
  {
    if t.Node? {
      var i := Route(t.seps, key);
      if i < |t.kids| {
        DescendCapped(c, path + [FrameAt(t, i, HoleOf(path))], t.kids[i], key);
      }
    }
  }
}
