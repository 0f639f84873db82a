/**
 * `BPlusTree::Remove` as a function on trees: delete in the leaf, then borrow or merge level by level.
 *
 * `keyUpdate` is the flag of the C++ loop. When it is set the loop skips its "page is full enough" exit, so a
 * page that needs no repair is rebalanced all the same; that is kept here.
 */
module TreeRemove {
  import opened Types
  import opened TreeModel
  import opened TreeSearch
  import opened Zipper

  function RemoveAt<T>(s: seq<T>, i: nat): (r: seq<T>)
    requires i < |s|
    ensures |r| == |s| - 1
  {
    s[..i] + s[i + 1..]
  }

  /** Two neighbouring pages and the separator between them. */
  datatype Pair = Pair(l: Tree, sep: int, r: Tree)

  predicate SameKind(l: Tree, r: Tree) {
    (l.Leaf? <==> r.Leaf?) && (l.Node? ==> |l.kids| == |l.seps| + 1 && |r.kids| == |r.seps| + 1)
  }

  /** The pair with its entries shared out again, `n` of them to the left page. */
  function Resplit(p: Pair, n: nat): Pair
    requires SameKind(p.l, p.r) && 0 < n < Size(p.l) + Size(p.r)
  {
    if p.l.Leaf? then
      var all := p.l.items + p.r.items;
      Pair(p.l.(items := all[..n]), all[n].key, p.r.(items := all[n..]))
    else
      var seps, kids := p.l.seps + [p.sep] + p.r.seps, p.l.kids + p.r.kids;
      Pair(Node(p.l.id, seps[..n - 1], kids[..n]), seps[n - 1], Node(p.r.id, seps[n..], kids[n..]))
  }

  /** The right page emptied into the left one. */
  function Merged(p: Pair): Tree
    requires SameKind(p.l, p.r)
  {
    if p.l.Leaf? then Leaf(p.l.id, p.l.items + p.r.items, p.r.next)
    else Node(p.l.id, p.l.seps + [p.sep] + p.r.seps, p.l.kids + p.r.kids)
  }

  predicate HasPair(t: Tree, j: nat) {
    t.Node? && |t.kids| == |t.seps| + 1 && j < |t.seps| && SameKind(t.kids[j], t.kids[j + 1])
  }

  function PairAt(t: Tree, j: nat): Pair
    requires HasPair(t, j)
  {
    Pair(t.kids[j], t.seps[j], t.kids[j + 1])
  }

  function WithPair(t: Tree, j: nat, p: Pair): Tree
    requires HasPair(t, j)
  {
    Node(t.id, t.seps[j := p.sep], t.kids[j := p.l][j + 1 := p.r])
  }

  function WithMerged(t: Tree, j: nat, m: Tree): Tree
    requires HasPair(t, j)
  {
    Node(t.id, RemoveAt(t.seps, j), t.kids[..j] + [m] + t.kids[j + 2..])
  }

  datatype Repair = BorrowLeft | BorrowRight | MergeLeft | MergeRight

  function MinSize(c: Config, t: Tree): nat {
    if t.Leaf? then c.LeafMin() else c.InternalMin()
  }

  /** The branch the code takes for child `i`: the left sibling is asked first, and merged with if both are low. */
  function Choose(c: Config, t: Tree, i: nat): Repair
    requires t.Node? && i < |t.kids|
  {
    if i > 0 && Size(t.kids[i - 1]) > MinSize(c, t.kids[i]) then BorrowLeft
    else if i + 1 < |t.kids| && Size(t.kids[i + 1]) > MinSize(c, t.kids[i]) then BorrowRight
    else if i > 0 then MergeLeft
    else MergeRight
  }

  /** Which pair of children the branch works on. */
  function PairIndex(w: Repair, i: nat): nat
    requires i > 0 || w.BorrowRight? || w.MergeRight?
  {
    if w.BorrowLeft? || w.MergeLeft? then i - 1 else i
  }

  /** What `Rebalance` needs: child `i` has a sibling, and no child is an empty page in the wrong place. */
  predicate CanRebalance(c: Config, t: Tree, i: nat) {
    && c.Ok() && t.Node? && i < |t.kids| == |t.seps| + 1 && |t.kids| >= 2
    && (i > 0 ==> SameKind(t.kids[i - 1], t.kids[i]))
    && (i + 1 < |t.kids| ==> SameKind(t.kids[i], t.kids[i + 1]))
  }

  function RepairPair(w: Repair, t: Tree, j: nat): Tree
    requires HasPair(t, j)
    requires w.BorrowLeft? ==> Size(t.kids[j]) > 1
    requires w.BorrowRight? ==> Size(t.kids[j + 1]) > 1
  {
    var p := PairAt(t, j);
    match w
    case BorrowLeft => WithPair(t, j, Resplit(p, Size(p.l) - 1))
    case BorrowRight => WithPair(t, j, Resplit(p, Size(p.l) + 1))
    case MergeLeft => WithMerged(t, j, Merged(p))
    case MergeRight => WithMerged(t, j, Merged(p))
  }

  /** One level of the ascent. The second component says whether slot 1 was touched, the new `key_update`. */
  function Rebalance(c: Config, t: Tree, i: nat): (Tree, bool)
    requires CanRebalance(c, t, i)
  {
    var w := Choose(c, t, i);
    var j := PairIndex(w, i);
    (RepairPair(w, t, j), j == 0)
  }

  /** The loop over the ancestors, `t` being the current internal page. */
  function AscendRemove(c: Config, path: Path, t: Tree, keyUpdate: bool): Tree
    decreases |path|
  {
    if !t.Node? then Plug(path, t)
    else if path == [] then
      if |t.kids| == 1 then t.kids[0] else t
    else
      var up, i := Fill(Last(path), t), |Last(path).left|;
      if !keyUpdate && |t.kids| >= c.InternalMin() then Plug(path, t)
      else if CanRebalance(c, up, i) then
        var (t', ku) := Rebalance(c, up, i);
        AscendRemove(c, Init(path), t', ku)
      else Plug(path, t)
  }

  /** After the deletion in the leaf; `None` is the tree whose root page id is invalid. */
  function RepairLeaf(c: Config, path: Path, leaf: Tree): Option<Tree>
    requires leaf.Leaf?
  {
    if |leaf.items| >= c.LeafMin() then Some(Plug(path, leaf))
    else if path == [] then (if leaf.items == [] then None else Some(leaf))
    else
      var up, i := Fill(Last(path), leaf), |Last(path).left|;
      if CanRebalance(c, up, i) then
        var (t', ku) := Rebalance(c, up, i);
        Some(AscendRemove(c, Init(path), t', ku))
      else Some(Plug(path, leaf))
  }

  /** `Remove` on a non-empty tree. */
  function RemoveTree(c: Config, t: Tree, key: int): Option<Tree> {
    var d := Descend([], t, key);
    if !d.leaf.Leaf? then Some(t)
    else
      var i := LeafIndex(d.leaf.items, key);
      if !FoundAt(d.leaf.items, i, key) then Some(t)
      else RepairLeaf(c, d.path, d.leaf.(items := RemoveAt(d.leaf.items, i)))
  }

  // ----- one pair of pages -----

  ghost predicate PairInv(p: Pair, h: nat, b: Box) {
    b.lo < p.sep < b.hi && Inv(p.l, h, Box(b.lo, p.sep, First(p.r))) && Inv(p.r, h, Box(p.sep, b.hi, b.next))
  }

  /** The items of a pair are one sorted run. */
  lemma JoinSorted(a: seq<Item>, b: seq<Item>, lo: int, mid: int, hi: int)
    requires Sorted(a) && Sorted(b) && Within(a, lo, mid) && Within(b, mid, hi) && lo <= mid <= hi
    ensures Sorted(a + b) && Within(a + b, lo, hi)
  {
  }

  /** The children of a pair are one run with the separator in the middle. */
  lemma JoinSeg(p: Pair, h: nat, b: Box)
    requires PairInv(p, h, b) && p.l.Node?
    ensures h > 0 && p.r.Node?
    ensures Seg(Bounds(b.lo, p.l.seps + [p.sep] + p.r.seps, b.hi), p.l.kids + p.r.kids, h - 1, b.next)
  {
    var b1, b2 := Bounds(b.lo, p.l.seps, p.sep), Bounds(p.sep, p.r.seps, b.hi);
    SegConcat(b1, p.l.kids, b2, p.r.kids, h - 1, b.next);
    assert b1[..|p.l.kids|] + b2 == Bounds(b.lo, p.l.seps + [p.sep] + p.r.seps, b.hi);
  }

  lemma MergedInv(p: Pair, h: nat, b: Box)
    requires PairInv(p, h, b)
    ensures SameKind(p.l, p.r) && Inv(Merged(p), h, b) && First(Merged(p)) == First(p.l)
  {
    if p.l.Leaf? {
      JoinSorted(p.l.items, p.r.items, b.lo, p.sep, b.hi);
    } else {
      JoinSeg(p, h, b);
    }
  }

  lemma SplitSorted(s: seq<Item>, n: nat, lo: int, hi: int)
    requires Sorted(s) && Within(s, lo, hi) && 0 < n < |s|
    ensures lo < s[n].key < hi && Sorted(s[..n]) && Sorted(s[n..])
    ensures Within(s[..n], lo, s[n].key) && Within(s[n..], s[n].key, hi)
  {
    assert s[0].key < s[n].key;
  }

  lemma SplitSeg(seps: seq<int>, kids: seq<Tree>, n: nat, h: nat, b: Box)
    requires |kids| == |seps| + 1 && 0 < n < |kids| && Seg(Bounds(b.lo, seps, b.hi), kids, h, b.next)
    ensures b.lo < seps[n - 1] < b.hi
    ensures Seg(Bounds(b.lo, seps[..n - 1], seps[n - 1]), kids[..n], h, First(kids[n]))
    ensures Seg(Bounds(seps[n - 1], seps[n..], b.hi), kids[n..], h, b.next)
  {
    var bs, k := Bounds(b.lo, seps, b.hi), |kids|;
    SegSlice(bs, kids, h, b.next, 0, n);
    SegSlice(bs, kids, h, b.next, n, k);
    assert bs[0] < bs[n] < bs[k];
    assert bs[0..n + 1] == Bounds(b.lo, seps[..n - 1], seps[n - 1]) && kids[0..n] == kids[..n];
    assert bs[n..k + 1] == Bounds(seps[n - 1], seps[n..], b.hi) && kids[n..k] == kids[n..];
  }

  lemma ResplitInv(p: Pair, n: nat, h: nat, b: Box)
    requires PairInv(p, h, b) && 0 < n < Size(p.l) + Size(p.r)
    ensures SameKind(p.l, p.r) && PairInv(Resplit(p, n), h, b) && First(Resplit(p, n).l) == First(p.l)
  {
    if p.l.Leaf? {
      JoinSorted(p.l.items, p.r.items, b.lo, p.sep, b.hi);
      SplitSorted(p.l.items + p.r.items, n, b.lo, b.hi);
    } else {
      JoinSeg(p, h, b);
      SplitSeg(p.l.seps + [p.sep] + p.r.seps, p.l.kids + p.r.kids, n, h - 1, b);
    }
  }

  /** Sharing out and merging lose no item and no page; merging frees the right page's id. */
  lemma ResplitKeeps(p: Pair, n: nat)
    requires SameKind(p.l, p.r) && 0 < n < Size(p.l) + Size(p.r)
    ensures var q := Resplit(p, n);
      && Items(q.l) + Items(q.r) == Items(p.l) + Items(p.r)
      && forall x :: Count(q.l, x) + Count(q.r, x) == Count(p.l, x) + Count(p.r, x)
  {
    if p.l.Node? {
      var kids := p.l.kids + p.r.kids;
      assert kids == kids[..n] + kids[n..];
      ConcatItems(p.l.kids, p.r.kids);
      ConcatItems(kids[..n], kids[n..]);
      var q := Resplit(p, n);
      forall x ensures Count(q.l, x) + Count(q.r, x) == Count(p.l, x) + Count(p.r, x) {
        ConcatCounts(p.l.kids, p.r.kids, x);
        ConcatCounts(kids[..n], kids[n..], x);
      }
    }
  }

  lemma MergedKeeps(p: Pair)
    requires SameKind(p.l, p.r)
    ensures Items(Merged(p)) == Items(p.l) + Items(p.r)
    ensures forall x :: Count(p.l, x) + Count(p.r, x) == Count(Merged(p), x) + (if x == p.r.id then 1 else 0)
  {
    if p.l.Node? {
      ConcatItems(p.l.kids, p.r.kids);
      forall x ensures CountOf(p.l.kids + p.r.kids, x) == CountOf(p.l.kids, x) + CountOf(p.r.kids, x) {
        ConcatCounts(p.l.kids, p.r.kids, x);
      }
    }
  }

  // ----- one parent page -----

  lemma PairFromParent(t: Tree, j: nat, h: nat, b: Box)
    requires t.Node? && Inv(t, h, b) && j + 1 < |t.kids|
    ensures h > 0 && HasPair(t, j)
    ensures var bs := Bounds(b.lo, t.seps, b.hi);
      PairInv(PairAt(t, j), h - 1, Box(bs[j], bs[j + 2], if j + 2 < |t.kids| then First(t.kids[j + 2]) else b.next))
  {
    var bs := Bounds(b.lo, t.seps, b.hi);
    assert Inv(t.kids[j], h - 1, Box(bs[j], bs[j + 1], NextOf(t.kids, j, b.next)));
    assert Inv(t.kids[j + 1], h - 1, Box(bs[j + 1], bs[j + 2], NextOf(t.kids, j + 1, b.next)));
  }

  lemma PairSeg(p: Pair, h: nat, b: Box)
    requires PairInv(p, h, b)
    ensures Seg([b.lo, p.sep, b.hi], [p.l, p.r], h, b.next)
  {
  }

  lemma WithPairInv(t: Tree, j: nat, p: Pair, h: nat, b: Box)
    requires Inv(t, h, b) && HasPair(t, j) && h > 0
    requires First(p.l) == First(t.kids[j])
    requires var bs := Bounds(b.lo, t.seps, b.hi);
      PairInv(p, h - 1, Box(bs[j], bs[j + 2], if j + 2 < |t.kids| then First(t.kids[j + 2]) else b.next))
    ensures Inv(WithPair(t, j, p), h, b) && First(WithPair(t, j, p)) == First(t)
  {
    var bs := Bounds(b.lo, t.seps, b.hi);
    var bm, mid := [bs[j], p.sep, bs[j + 2]], [p.l, p.r];
    var next := if j + 2 < |t.kids| then First(t.kids[j + 2]) else b.next;
    PairSeg(p, h - 1, Box(bs[j], bs[j + 2], next));
    BoundsUpdate(b.lo, t.seps, b.hi, j, p.sep);
    assert t.kids[..j] + mid + t.kids[j + 2..] == t.kids[j := p.l][j + 1 := p.r];
    assert Seg(bs, t.kids, h - 1, b.next);
    hide Bounds;
    SegReplace(bs, t.kids, h - 1, b.next, j, j + 2, bm, mid);
  }

  lemma BoundsUpdate(lo: int, seps: seq<int>, hi: int, j: nat, sep: int)
    requires j < |seps|
    ensures var bs := Bounds(lo, seps, hi);
      bs[..j] + [bs[j], sep, bs[j + 2]][..2] + bs[j + 2..] == Bounds(lo, seps[j := sep], hi)
  {
  }

  lemma WithMergedInv(t: Tree, j: nat, m: Tree, h: nat, b: Box)
    requires Inv(t, h, b) && HasPair(t, j) && h > 0
    requires First(m) == First(t.kids[j])
    requires var bs := Bounds(b.lo, t.seps, b.hi);
      Inv(m, h - 1, Box(bs[j], bs[j + 2], if j + 2 < |t.kids| then First(t.kids[j + 2]) else b.next))
    ensures Inv(WithMerged(t, j, m), h, b) && First(WithMerged(t, j, m)) == First(t)
  {
    var bs := Bounds(b.lo, t.seps, b.hi);
    var bm := [bs[j], bs[j + 2]];
    var next := if j + 2 < |t.kids| then First(t.kids[j + 2]) else b.next;
    assert bs[j] < bs[j + 1] < bs[j + 2];
    assert Seg(bm, [m], h - 1, next);
    SegReplace(bs, t.kids, h - 1, b.next, j, j + 2, bm, [m]);
    BoundsRemove(b.lo, t.seps, b.hi, j);
  }

  lemma BoundsRemove(lo: int, seps: seq<int>, hi: int, j: nat)
    requires j < |seps|
    ensures var bs := Bounds(lo, seps, hi);
      bs[..j] + [bs[j], bs[j + 2]][..1] + bs[j + 2..] == Bounds(lo, RemoveAt(seps, j), hi)
  {
  }

  lemma ThreeParts(kids: seq<Tree>, j: nat, mid: seq<Tree>, x: PageId)
    requires j + 2 <= |kids|
    ensures var kids' := kids[..j] + mid + kids[j + 2..];
      && ItemsOf(kids') == ItemsOf(kids[..j]) + ItemsOf(mid) + ItemsOf(kids[j + 2..])
      && CountOf(kids', x) == CountOf(kids[..j], x) + CountOf(mid, x) + CountOf(kids[j + 2..], x)
  {
    ConcatItems(kids[..j] + mid, kids[j + 2..]);
    ConcatItems(kids[..j], mid);
    ConcatCounts(kids[..j] + mid, kids[j + 2..], x);
    ConcatCounts(kids[..j], mid, x);
  }

  /** A repaired parent holds the same items, and each page id at most as often as before. */
  lemma RepairKeeps(w: Repair, t: Tree, j: nat, x: PageId)
    requires HasPair(t, j)
    requires w.BorrowLeft? ==> Size(t.kids[j]) > 1
    requires w.BorrowRight? ==> Size(t.kids[j + 1]) > 1
    ensures var t' := RepairPair(w, t, j);
      && Items(t') == Items(t) && t'.id == t.id
      && Count(t', x) == Count(t, x) - (if (w.MergeLeft? || w.MergeRight?) && x == t.kids[j + 1].id then 1 else 0)
  {
    hide Resplit, Merged;
    var p := PairAt(t, j);
    TwoKids(p.l, p.r);
    assert t.kids == t.kids[..j] + [p.l, p.r] + t.kids[j + 2..];
    ThreeParts(t.kids, j, [p.l, p.r], x);
    if w.BorrowLeft? || w.BorrowRight? {
      var n := if w.BorrowLeft? then Size(p.l) - 1 else Size(p.l) + 1;
      var q := Resplit(p, n);
      ResplitKeeps(p, n);
      TwoKids(q.l, q.r);
      assert t.kids[j := q.l][j + 1 := q.r] == t.kids[..j] + [q.l, q.r] + t.kids[j + 2..];
      ThreeParts(t.kids, j, [q.l, q.r], x);
    } else {
      MergedKeeps(p);
      OneKid(Merged(p));
      ThreeParts(t.kids, j, [Merged(p)], x);
    }
  }

  lemma RepairInv(w: Repair, t: Tree, j: nat, h: nat, b: Box)
    requires HasPair(t, j) && Inv(t, h, b)
    requires w.BorrowLeft? ==> Size(t.kids[j]) > 1
    requires w.BorrowRight? ==> Size(t.kids[j + 1]) > 1
    ensures Inv(RepairPair(w, t, j), h, b) && First(RepairPair(w, t, j)) == First(t)
  {
    PairFromParent(t, j, h, b);
    var p, bs := PairAt(t, j), Bounds(b.lo, t.seps, b.hi);
    var b' := Box(bs[j], bs[j + 2], if j + 2 < |t.kids| then First(t.kids[j + 2]) else b.next);
    if w.BorrowLeft? || w.BorrowRight? {
      var n := if w.BorrowLeft? then Size(p.l) - 1 else Size(p.l) + 1;
      ResplitInv(p, n, h - 1, b');
      WithPairInv(t, j, Resplit(p, n), h, b);
    } else {
      MergedInv(p, h - 1, b');
      WithMergedInv(t, j, Merged(p), h, b);
    }
  }

  lemma RebalanceReady(c: Config, t: Tree, i: nat, h: nat, b: Box)
    requires c.Ok() && t.Node? && Inv(t, h, b) && i < |t.kids| && |t.kids| >= 2
    ensures CanRebalance(c, t, i)
  {
    if i > 0 {
      PairFromParent(t, i - 1, h, b);
    }
    if i + 1 < |t.kids| {
      PairFromParent(t, i, h, b);
    }
  }

  /** One step of the ascent keeps the structure, the items and the page ids, whichever branch it takes. */
  lemma RebalanceInv(c: Config, t: Tree, i: nat, h: nat, b: Box)
    requires CanRebalance(c, t, i) && Inv(t, h, b)
    ensures var t' := Rebalance(c, t, i).0;
      && Inv(t', h, b) && First(t') == First(t) && t'.id == t.id && Items(t') == Items(t)
      && forall x :: Count(t', x) <= Count(t, x)
  {
    var w := Choose(c, t, i);
    RepairInv(w, t, PairIndex(w, i), h, b);
    RepairKeeps(w, t, PairIndex(w, i), 0);
    forall x ensures Count(Rebalance(c, t, i).0, x) <= Count(t, x) {
      RepairKeeps(w, t, PairIndex(w, i), x);
    }
  }

  /** Children `a` and `a + 1` of a page have `m` and `n` entries now; the others are as before. */
  ghost predicate PairHas(t: Tree, t': Tree, a: nat, m: int, n: int) {
    && t.Node? && t'.Node? && a + 1 < |t.kids| == |t'.kids| && Size(t'.kids[a]) == m && Size(t'.kids[a + 1]) == n
    && forall k :: 0 <= k < |t.kids| && k != a && k != a + 1 ==> t'.kids[k] == t.kids[k]
  }

  /** Children `a` and `a + 1` are one with `m` entries; the others are as before. */
  ghost predicate PairJoined(t: Tree, t': Tree, a: nat, m: int) {
    && t.Node? && t'.Node? && a + 1 < |t.kids| == |t'.kids| + 1 && Size(t'.kids[a]) == m
    && forall k :: 0 <= k < |t'.kids| && k != a ==> t'.kids[k] == t.kids[if k < a then k else k + 1]
  }

  /**
   * Which sibling pays and how much: one entry from the left one if it is above the minimum, else one from the right
   * one, else the pages are merged, to the left if there is a left one. The flag is for the first two children.
   */
  lemma RebalanceSizes(c: Config, t: Tree, i: nat)
    requires CanRebalance(c, t, i)
    ensures var (t', flag) := Rebalance(c, t, i);
      var own, low := Size(t.kids[i]), if t.kids[i].Leaf? then (c.leafMax + 1) / 2 else (c.internalMax + 1) / 2;
      if i > 0 && Size(t.kids[i - 1]) > low then PairHas(t, t', i - 1, Size(t.kids[i - 1]) - 1, own + 1) && (flag <==> i == 1)
      else if i + 1 < |t.kids| && Size(t.kids[i + 1]) > low then PairHas(t, t', i, own + 1, Size(t.kids[i + 1]) - 1) && (flag <==> i == 0)
      else if i > 0 then PairJoined(t, t', i - 1, Size(t.kids[i - 1]) + own) && (flag <==> i == 1)
      else PairJoined(t, t', 0, own + Size(t.kids[1])) && flag
  {
    hide RepairPair, PairHas, PairJoined;
    ChosenFits(c, t, i);
    RepairSizes(Choose(c, t, i), t, PairIndex(Choose(c, t, i), i));
  }

  lemma RepairSizes(w: Repair, t: Tree, j: nat)
    requires HasPair(t, j)
    requires w.BorrowLeft? ==> Size(t.kids[j]) > 1
    requires w.BorrowRight? ==> Size(t.kids[j + 1]) > 1
    ensures var t', l, r := RepairPair(w, t, j), Size(t.kids[j]), Size(t.kids[j + 1]);
      match w
      case BorrowLeft => PairHas(t, t', j, l - 1, r + 1)
      case BorrowRight => PairHas(t, t', j, l + 1, r - 1)
      case _ => PairJoined(t, t', j, l + r)
  {
    hide Resplit, Merged, RemoveAt;
    var p := PairAt(t, j);
    match w
    case BorrowLeft => ResplitSizes(p, Size(p.l) - 1);
    case BorrowRight => ResplitSizes(p, Size(p.l) + 1);
    case _ => MergedSize(p);
  }

  lemma ResplitSizes(p: Pair, n: nat)
    requires SameKind(p.l, p.r) && 0 < n < Size(p.l) + Size(p.r)
    ensures Size(Resplit(p, n).l) == n && Size(Resplit(p, n).r) == Size(p.l) + Size(p.r) - n
  {
  }

  lemma MergedSize(p: Pair)
    requires SameKind(p.l, p.r)
    ensures Size(Merged(p)) == Size(p.l) + Size(p.r)
  {
  }

  lemma RebalanceId(c: Config, t: Tree, i: nat)
    requires CanRebalance(c, t, i)
    ensures Rebalance(c, t, i).0.id == t.id
  {
  }

  // ----- the pages a repair leaves -----

  /** Two neighbouring pages and the separator their parent's page has between them. */
  datatype Sides = Sides(left: PageValue, sep: int, right: PageValue)

  function Entries(v: PageValue): nat {
    match v
    case LeafPage(items, _) => |items|
    case InternalPage(_, children) => |children|
  }

  predicate Alike(v: Sides) {
    match v.left
    case LeafPage(_, _) => v.right.LeafPage?
    case InternalPage(seps, children) => |children| == |seps| + 1 && v.right.InternalPage? && |v.right.children| == |v.right.seps| + 1
  }

  /** The entries shared out again, `n` of them to the left page. */
  function Shared(v: Sides, n: nat): Sides
    requires Alike(v) && 0 < n < Entries(v.left) + Entries(v.right)
  {
    match v.left
    case LeafPage(items, next) =>
      var all := items + v.right.items;
      Sides(LeafPage(all[..n], next), all[n].key, LeafPage(all[n..], v.right.next))
    case InternalPage(seps, children) =>
      var s, c := seps + [v.sep] + v.right.seps, children + v.right.children;
      Sides(InternalPage(s[..n - 1], c[..n]), s[n - 1], InternalPage(s[n..], c[n..]))
  }

  /** The right page emptied into the left one. */
  function Joined(v: Sides): PageValue
    requires Alike(v)
  {
    match v.left
    case LeafPage(items, _) => LeafPage(items + v.right.items, v.right.next)
    case InternalPage(seps, children) => InternalPage(seps + [v.sep] + v.right.seps, children + v.right.children)
  }

  function SidesOf(p: Pair): Sides {
    Sides(PageOf(p.l), p.sep, PageOf(p.r))
  }

  /** Sharing out entries of pages is sharing out entries of the subtrees behind them. */
  lemma SharedPages(p: Pair, n: nat)
    requires SameKind(p.l, p.r) && 0 < n < Size(p.l) + Size(p.r)
    ensures Alike(SidesOf(p)) && Entries(PageOf(p.l)) == Size(p.l) && Entries(PageOf(p.r)) == Size(p.r)
    ensures Shared(SidesOf(p), n) == SidesOf(Resplit(p, n))
  {
    if p.l.Node? {
      var kids := p.l.kids + p.r.kids;
      assert Ids(kids) == Ids(p.l.kids) + Ids(p.r.kids);
      assert Ids(kids[..n]) == Ids(kids)[..n] && Ids(kids[n..]) == Ids(kids)[n..];
    }
  }

  lemma JoinedPages(p: Pair)
    requires SameKind(p.l, p.r)
    ensures Alike(SidesOf(p)) && Joined(SidesOf(p)) == PageOf(Merged(p))
  {
    if p.l.Node? {
      assert Ids(p.l.kids + p.r.kids) == Ids(p.l.kids) + Ids(p.r.kids);
    }
  }

  /** The parent's page when the pair is replaced or merged. */
  lemma ParentPages(t: Tree, j: nat, q: Pair, m: Tree)
    requires HasPair(t, j)
    requires q.l.id == t.kids[j].id && q.r.id == t.kids[j + 1].id && m.id == t.kids[j].id
    ensures PageOf(WithPair(t, j, q)) == InternalPage(t.seps[j := q.sep], Ids(t.kids))
    ensures PageOf(WithMerged(t, j, m)) == InternalPage(RemoveAt(t.seps, j), RemoveAt(Ids(t.kids), j + 1))
  {
    assert Ids(t.kids[j := q.l][j + 1 := q.r]) == Ids(t.kids);
    assert Ids(t.kids[..j] + [m] + t.kids[j + 2..]) == RemoveAt(Ids(t.kids), j + 1);
  }

  // ----- occupancy -----

  /** The state of the child under repair: one entry short at most, and a leaf only when it is really low. */
  ghost predicate Repairable(c: Config, t: Tree) {
    match t
    case Leaf(_, items, _) => c.leafMax / 2 <= |items| + 1 && |items| < c.LeafMin()
    case Node(_, _, kids) => c.InternalMin() <= |kids| + 1 && SizedAll(c, kids)
  }

  ghost predicate SizedBut(c: Config, kids: seq<Tree>, i: nat) {
    forall j :: 0 <= j < |kids| && j != i ==> Healthy(c, kids[j]) && Sized(c, kids[j])
  }

  lemma PairSized(c: Config, w: Repair, p: Pair)
    requires c.Ok() && SameKind(p.l, p.r)
    requires Sized(c, p.l) && Sized(c, p.r)
    requires if w.BorrowLeft? || w.MergeLeft? then Healthy(c, p.l) && Repairable(c, p.r) else Repairable(c, p.l) && Healthy(c, p.r)
    requires match w
             case BorrowLeft => Size(p.l) > MinSize(c, p.r)
             case BorrowRight => Size(p.r) > MinSize(c, p.l)
             case MergeLeft => Size(p.l) <= MinSize(c, p.r)
             case MergeRight => Size(p.r) <= MinSize(c, p.l)
    ensures w.BorrowLeft? || w.BorrowRight? ==>
      var n := if w.BorrowLeft? then Size(p.l) - 1 else Size(p.l) + 1;
      && 0 < n < Size(p.l) + Size(p.r)
      && Healthy(c, Resplit(p, n).l) && Sized(c, Resplit(p, n).l)
      && Healthy(c, Resplit(p, n).r) && Sized(c, Resplit(p, n).r)
    ensures w.MergeLeft? || w.MergeRight? ==> Healthy(c, Merged(p)) && Sized(c, Merged(p))
  {
    assert p.l.Node? ==> SizedAll(c, p.l.kids + p.r.kids);
  }

  /** The branch taken has a pair to work on. */
  lemma ChosenFits(c: Config, t: Tree, i: nat)
    requires CanRebalance(c, t, i)
    ensures var w := Choose(c, t, i);
      && (i > 0 || w.BorrowRight? || w.MergeRight?)
      && var j := PairIndex(w, i);
         HasPair(t, j) && (w.BorrowLeft? ==> Size(t.kids[j]) > 1) && (w.BorrowRight? ==> Size(t.kids[j + 1]) > 1) && (i == j || i == j + 1)
  {
  }

  lemma ChosenSized(c: Config, t: Tree, i: nat)
    requires CanRebalance(c, t, i) && SizedBut(c, t.kids, i) && Repairable(c, t.kids[i])
    ensures var w := Choose(c, t, i);
      var p := PairAt(t, PairIndex(w, i));
      && (w.BorrowLeft? || w.BorrowRight? ==>
            var n := if w.BorrowLeft? then Size(p.l) - 1 else Size(p.l) + 1;
            && 0 < n < Size(p.l) + Size(p.r)
            && Healthy(c, Resplit(p, n).l) && Sized(c, Resplit(p, n).l)
            && Healthy(c, Resplit(p, n).r) && Sized(c, Resplit(p, n).r))
      && (w.MergeLeft? || w.MergeRight? ==> Healthy(c, Merged(p)) && Sized(c, Merged(p)))
  {
    hide Resplit, Merged;
    var w := Choose(c, t, i);
    PairSized(c, w, PairAt(t, PairIndex(w, i)));
  }

  lemma PairReplacedSized(c: Config, t: Tree, i: nat, j: nat, p: Pair)
    requires HasPair(t, j) && (i == j || i == j + 1) && SizedBut(c, t.kids, i)
    requires Healthy(c, p.l) && Sized(c, p.l) && Healthy(c, p.r) && Sized(c, p.r)
    ensures SizedAll(c, WithPair(t, j, p).kids) && |WithPair(t, j, p).kids| == |t.kids|
  {
  }

  lemma MergedReplacedSized(c: Config, t: Tree, i: nat, j: nat, m: Tree)
    requires HasPair(t, j) && (i == j || i == j + 1) && SizedBut(c, t.kids, i)
    requires Healthy(c, m) && Sized(c, m)
    ensures SizedAll(c, WithMerged(t, j, m).kids) && |WithMerged(t, j, m).kids| == |t.kids| - 1
  {
  }

  lemma RepairSized(c: Config, t: Tree, i: nat)
    requires CanRebalance(c, t, i) && SizedBut(c, t.kids, i) && Repairable(c, t.kids[i])
    ensures var t' := Rebalance(c, t, i).0; SizedAll(c, t'.kids) && |t.kids| <= |t'.kids| + 1
  {
    hide Healthy, Sized, SizedAll, SizedBut, Repairable, Resplit, Merged, Choose;
    var w := Choose(c, t, i);
    ChosenFits(c, t, i);
    var j := PairIndex(w, i);
    var p := PairAt(t, j);
    ChosenSized(c, t, i);
    if w.BorrowLeft? || w.BorrowRight? {
      PairReplacedSized(c, t, i, j, Resplit(p, if w.BorrowLeft? then Size(p.l) - 1 else Size(p.l) + 1));
    } else {
      MergedReplacedSized(c, t, i, j, Merged(p));
    }
  }

  // ----- the whole ascent, and the whole operation -----

  /** What the loop keeps: a whole tree in which only the current page may be short, by one child. */
  ghost predicate AscentInv(c: Config, path: Path, t: Tree, h: nat, bound: PageId) {
    && c.Ok() && t.Node?
    && PathInv(path, h, First(t)) && Inv(t, h, HoleOf(path))
    && PathSized(c, path) && SizedAll(c, t.kids)
    && (if path == [] then 1 else c.InternalMin() - 1) <= |t.kids|
    && FocusDistinct(path, t, bound)
  }

  lemma ParentInv(c: Config, path: Path, t: Tree, h: nat)
    requires c.Ok() && path != [] && PathInv(path, h, First(t)) && Inv(t, h, HoleOf(path)) && PathSized(c, path)
    ensures var up, i := Fill(Last(path), t), |Last(path).left|;
      && CanRebalance(c, up, i) && Inv(up, h + 1, HoleOf(Init(path))) && PathInv(Init(path), h + 1, First(up))
      && Items(up) == ItemsOf(Last(path).left) + Items(t) + ItemsOf(Last(path).right)
  {
    var f := Last(path);
    FillInv(f, h, t);
    FillItems(f, t);
    RebalanceReady(c, Fill(f, t), |f.left|, h + 1, f.box);
  }

  lemma ParentSized(c: Config, path: Path, t: Tree)
    requires path != [] && PathSized(c, path) && Repairable(c, t)
    requires CanRebalance(c, Fill(Last(path), t), |Last(path).left|)
    ensures var t' := Rebalance(c, Fill(Last(path), t), |Last(path).left|).0;
      SizedAll(c, t'.kids) && PathSized(c, Init(path)) && (if |path| == 1 then 1 else c.InternalMin() - 1) <= |t'.kids|
  {
    var f := Last(path);
    var up := Fill(f, t);
    assert up.kids[|f.left|] == t && SizedBut(c, up.kids, |f.left|);
    RepairSized(c, up, |f.left|);
  }

  lemma ParentDistinct(path: Path, t: Tree, t': Tree, bound: PageId)
    requires path != [] && FocusDistinct(path, t, bound)
    requires forall x :: Count(t', x) <= Count(Fill(Last(path), t), x)
    ensures FocusDistinct(Init(path), t', bound)
  {
    forall x ensures PathCount(Init(path), x) + Count(t', x) <= if 0 <= x < bound then 1 else 0 {
      FillCount(Last(path), t, x);
      assert PathCount(path, x) + Count(t, x) <= if 0 <= x < bound then 1 else 0;
    }
  }

  /** The parent of the page under repair is ready for `Rebalance`, and the result is the next current page. */
  lemma ParentStep(c: Config, path: Path, t: Tree, h: nat, bound: PageId)
    requires c.Ok() && path != [] && PathInv(path, h, First(t)) && Inv(t, h, HoleOf(path))
    requires PathSized(c, path) && Repairable(c, t) && FocusDistinct(path, t, bound)
    ensures CanRebalance(c, Fill(Last(path), t), |Last(path).left|)
    ensures var t' := Rebalance(c, Fill(Last(path), t), |Last(path).left|).0;
      && AscentInv(c, Init(path), t', h + 1, bound)
      && Around(Init(path), Items(t')) == Around(path, Items(t))
  {
    ParentInv(c, path, t, h);
    RebalanceInv(c, Fill(Last(path), t), |Last(path).left|, h + 1, HoleOf(Init(path)));
    ParentSized(c, path, t);
    var t' := Rebalance(c, Fill(Last(path), t), |Last(path).left|).0;
    ParentDistinct(path, t, t', bound);
  }

  lemma PlugOk(c: Config, path: Path, t: Tree, h: nat, bound: PageId)
    requires PathInv(path, h, First(t)) && Inv(t, h, HoleOf(path))
    requires PathSized(c, path) && FocusSized(c, path, t) && FocusDistinct(path, t, bound)
    ensures TreeOk(c, Plug(path, t), bound) && Height(Plug(path, t)) == h + |path|
    ensures Items(Plug(path, t)) == Around(path, Items(t))
  {
    PlugInv(path, h, t);
    InvHeight(Plug(path, t), h + |path|, ROOT_BOX);
    PlugSized(c, path, t);
    PlugItems(path, t);
    forall x ensures Count(Plug(path, t), x) <= if 0 <= x < bound then 1 else 0 {
      PlugCount(path, t, x);
      assert PathCount(path, x) + Count(t, x) <= if 0 <= x < bound then 1 else 0;
    }
  }

  /** A root with a single child hands the tree over to that child. */
  lemma CollapseOk(c: Config, t: Tree, h: nat, bound: PageId)
    requires AscentInv(c, [], t, h, bound) && |t.kids| == 1
    ensures TreeOk(c, t.kids[0], bound) && Items(t.kids[0]) == Items(t) && Height(t.kids[0]) < h
  {
    var bs := Bounds(MIN_KEY, t.seps, MAX_KEY + 1);
    assert Inv(t, h, ROOT_BOX) && Seg(bs, t.kids, h - 1, INVALID_PAGE_ID);
    assert Inv(t.kids[0], h - 1, Box(bs[0], bs[1], NextOf(t.kids, 0, INVALID_PAGE_ID)));
    InvHeight(t.kids[0], h - 1, ROOT_BOX);
    assert t.kids == [t.kids[0]];
    OneKid(t.kids[0]);
    forall x ensures Count(t.kids[0], x) <= if 0 <= x < bound then 1 else 0 {
      KidCount(t.kids, 0, x);
      assert PathCount([], x) + Count(t, x) <= if 0 <= x < bound then 1 else 0;
    }
  }

  lemma {:induction false} AscendRemoveOk(c: Config, path: Path, t: Tree, h: nat, ku: bool, bound: PageId)
    requires AscentInv(c, path, t, h, bound)
    ensures var r := AscendRemove(c, path, t, ku);
      TreeOk(c, r, bound) && Items(r) == Around(path, Items(t)) && Height(r) <= h + |path|
    decreases |path|
  {
    if path == [] {
      if |t.kids| == 1 {
        CollapseOk(c, t, h, bound);
      } else {
        PlugOk(c, path, t, h, bound);
      }
    } else if !ku && |t.kids| >= c.InternalMin() {
      PlugOk(c, path, t, h, bound);
    } else {
      ParentStep(c, path, t, h, bound);
      var (t', ku') := Rebalance(c, Fill(Last(path), t), |Last(path).left|);
      AscendRemoveOk(c, Init(path), t', h + 1, ku', bound);
    }
  }

  /** The leaf after the deletion, before any repair. */
  ghost predicate ShortLeaf(c: Config, path: Path, leaf: Tree, bound: PageId) {
    && c.Ok() && leaf.Leaf? && PathInv(path, 0, leaf.id) && Inv(leaf, 0, HoleOf(path))
    && PathSized(c, path) && FocusDistinct(path, leaf, bound)
    && |leaf.items| <= c.leafMax && (path != [] ==> c.leafMax / 2 <= |leaf.items| + 1)
  }

  lemma UnderflowOk(c: Config, path: Path, leaf: Tree, bound: PageId)
    requires ShortLeaf(c, path, leaf, bound) && path != [] && |leaf.items| < c.LeafMin()
    ensures CanRebalance(c, Fill(Last(path), leaf), |Last(path).left|)
    ensures var (t', ku) := Rebalance(c, Fill(Last(path), leaf), |Last(path).left|);
      var r := AscendRemove(c, Init(path), t', ku);
      TreeOk(c, r, bound) && Items(r) == Around(path, leaf.items) && Height(r) <= |path|
  {
    hide Rebalance, AscendRemove, TreeOk, Around, AscentInv;
    ParentStep(c, path, leaf, 0, bound);
    var (t', ku) := Rebalance(c, Fill(Last(path), leaf), |Last(path).left|);
    AscendRemoveOk(c, Init(path), t', 1, ku, bound);
  }

  lemma RepairLeafOk(c: Config, path: Path, leaf: Tree, bound: PageId)
    requires ShortLeaf(c, path, leaf, bound)
    ensures var r := RepairLeaf(c, path, leaf);
      if r.None? then Around(path, leaf.items) == []
      else TreeOk(c, r.value, bound) && Items(r.value) == Around(path, leaf.items) && Height(r.value) <= |path|
  {
    if |leaf.items| >= c.LeafMin() {
      PlugOk(c, path, leaf, 0, bound);
    } else if path == [] {
      if leaf.items != [] {
        PlugOk(c, path, leaf, 0, bound);
      }
    } else {
      UnderflowOk(c, path, leaf, bound);
    }
  }

  lemma SortedRemove(items: seq<Item>, i: nat, lo: int, hi: int)
    requires Sorted(items) && Within(items, lo, hi) && i < |items|
    ensures Sorted(RemoveAt(items, i)) && Within(RemoveAt(items, i), lo, hi)
  {
  }

  lemma ShortLeafAfterDelete(c: Config, path: Path, leaf: Tree, i: nat, bound: PageId)
    requires c.Ok() && leaf.Leaf? && PathInv(path, 0, leaf.id) && Inv(leaf, 0, HoleOf(path))
    requires PathSized(c, path) && FocusSized(c, path, leaf) && FocusDistinct(path, leaf, bound) && i < |leaf.items|
    ensures ShortLeaf(c, path, leaf.(items := RemoveAt(leaf.items, i)), bound)
  {
    var leaf' := leaf.(items := RemoveAt(leaf.items, i));
    SortedRemove(leaf.items, i, HoleOf(path).lo, HoleOf(path).hi);
    assert Inv(leaf', 0, HoleOf(path));
    forall x ensures PathCount(path, x) + Count(leaf', x) <= if 0 <= x < bound then 1 else 0 {
      assert PathCount(path, x) + Count(leaf, x) <= if 0 <= x < bound then 1 else 0;
    }
  }

  /** Removing `key` leaves its leaf, which is not the root, with too few items. */
  predicate Underflows(c: Config, t: Tree, key: int) {
    var d := Descend([], t, key);
    d.path != [] && d.leaf.Leaf? && FoundAt(d.leaf.items, LeafIndex(d.leaf.items, key), key) && |d.leaf.items| - 1 < c.LeafMin()
  }

  lemma RemoveTreeSkips(c: Config, t: Tree, key: int)
    requires var leaf := Descend([], t, key).leaf; leaf.Leaf? && !FoundAt(leaf.items, LeafIndex(leaf.items, key), key)
    ensures RemoveTree(c, t, key) == Some(t)
  {
  }

  lemma RemoveInside<T>(a: seq<T>, s: seq<T>, b: seq<T>, i: nat)
    requires i < |s|
    ensures a + RemoveAt(s, i) + b == RemoveAt(a + s + b, |a| + i)
  {
  }

  lemma RemoveAround(path: Path, items: seq<Item>, i: nat)
    requires i < |items|
    ensures var all, n := Around(path, items), |Before(path)| + i;
      n < |all| && all[n] == items[i] && Around(path, RemoveAt(items, i)) == RemoveAt(all, n)
  {
    hide Around, RemoveAt, Before, After;
    AroundIsConcat(path, items);
    AroundIsConcat(path, RemoveAt(items, i));
    RemoveInside(Before(path), items, After(path), i);
  }

  /** The case in which the leaf holds the key: the item at its place in the whole contents goes. */
  lemma RemoveFound(c: Config, t: Tree, key: int, bound: PageId)
    requires c.Ok() && TreeOk(c, t, bound) && MIN_KEY <= key <= MAX_KEY
    requires var leaf := Descend([], t, key).leaf; leaf.Leaf? && FoundAt(leaf.items, LeafIndex(leaf.items, key), key)
    ensures var r, d := RemoveTree(c, t, key), Descend([], t, key);
      var n := |Before(d.path)| + LeafIndex(d.leaf.items, key);
      && n < |Items(t)| && Items(t)[n].key == key
      && (if r.None? then [] else Items(r.value)) == RemoveAt(Items(t), n)
      && (r.Some? ==> TreeOk(c, r.value, bound) && Height(r.value) <= Height(t))
  {
    hide RepairLeaf, TreeOk, ShortLeaf, Inv, PathInv, PathSized, FocusSized, FocusDistinct, Descend, LeafIndex, Items, Around;
    DescendOk(c, t, key, bound);
    var d := Descend([], t, key);
    var i := LeafIndex(d.leaf.items, key);
    var leaf' := d.leaf.(items := RemoveAt(d.leaf.items, i));
    assert RemoveTree(c, t, key) == RepairLeaf(c, d.path, leaf');
    hide RemoveTree, RemoveAt;
    ShortLeafAfterDelete(c, d.path, d.leaf, i, bound);
    RepairLeafOk(c, d.path, leaf', bound);
    RemoveAround(d.path, d.leaf.items, i);
  }

  /** Remove keeps the tree invariant and takes out exactly the item with the key, if there is one. */
  lemma RemoveTreeOk(c: Config, t: Tree, key: int, bound: PageId)
    requires c.Ok() && TreeOk(c, t, bound) && MIN_KEY <= key <= MAX_KEY
    ensures var r := RemoveTree(c, t, key);
      && (r.Some? ==> TreeOk(c, r.value, bound) && Height(r.value) <= Height(t))
      && var s := if r.None? then [] else Items(r.value);
         if HasKey(Items(t), key)
         then exists n :: 0 <= n < |Items(t)| && Items(t)[n].key == key && s == RemoveAt(Items(t), n)
         else r == Some(t)
  {
    hide TreeOk, RemoveTree, Descend, LeafIndex, Items, RemoveAt;
    FoundInLeaf(c, t, key, bound);
    DescendOk(c, t, key, bound);
    var leaf := Descend([], t, key).leaf;
    if FoundAt(leaf.items, LeafIndex(leaf.items, key), key) {
      RemoveFound(c, t, key, bound);
    } else {
      RemoveTreeSkips(c, t, key);
    }
  }

  lemma RemoveTreeKeeps(c: Config, t: Tree, key: int, bound: PageId)
    requires c.Ok() && TreeOk(c, t, bound) && MIN_KEY <= key <= MAX_KEY
    ensures var r := RemoveTree(c, t, key); r.Some? ==> TreeOk(c, r.value, bound) && Height(r.value) <= Height(t)
  {
    hide TreeOk, RemoveTree, HasKey, RemoveAt;
    RemoveTreeOk(c, t, key, bound);
  }

  lemma FrontOfRemove<T>(s: seq<T>, n: nat)
    requires n < |s| - 1
    ensures RemoveAt(s, n)[..|s| - 2] == RemoveAt(s[..|s| - 1], n) && RemoveAt(s, n)[|s| - 2] == s[|s| - 1]
  {
    var front, last := s[..|s| - 1], s[|s| - 1];
    assert s[n + 1..] == front[n + 1..] + [last];
    assert RemoveAt(s, n) == RemoveAt(front, n) + [last];
  }

  lemma {:induction false} DictRemove(items: seq<Item>, n: nat)
    requires n < |items| && Sorted(items)
    ensures Dict(RemoveAt(items, n)) == Dict(items) - {items[n].key}
  {
    hide RemoveAt;
    var s, k := RemoveAt(items, n), |items| - 1;
    if n == k {
      LastOfRemove(items);
      LastKeyNew(items);
    } else {
      FrontOfRemove(items, n);
      assert items[..k][n] == items[n] && items[n].key != items[k].key;
      DictRemove(items[..k], n);
    }
  }

  lemma LastOfRemove<T>(s: seq<T>)
    requires s != []
    ensures RemoveAt(s, |s| - 1) == s[..|s| - 1]
  {
  }

  lemma LastKeyNew(items: seq<Item>)
    requires items != [] && Sorted(items)
    ensures items[|items| - 1].key !in Dict(items[..|items| - 1])
  {
    hide Dict;
    DictEntries(items[..|items| - 1]);
  }

  lemma NoEntries()
    ensures Dict([]) == map[]
  {
  }

  lemma ItemsSorted(c: Config, t: Tree, bound: PageId)
    requires TreeOk(c, t, bound)
    ensures Sorted(Items(t))
  {
    InvItems(t, Height(t), ROOT_BOX);
  }

  /** The map view: the key is gone, and every other key keeps its value. */
  lemma RemoveTreeDict(c: Config, t: Tree, key: int, bound: PageId)
    requires c.Ok() && TreeOk(c, t, bound) && MIN_KEY <= key <= MAX_KEY
    ensures var r := RemoveTree(c, t, key);
      (if r.None? then map[] else Dict(Items(r.value))) == Dict(Items(t)) - {key}
  {
    hide TreeOk, RemoveTree, RemoveAt, Dict, Items, Sorted;
    ItemsSorted(c, t, bound);
    RemoveTreeOk(c, t, key, bound);
    DictEntries(Items(t));
    NoEntries();
    if HasKey(Items(t), key) {
      var r := RemoveTree(c, t, key);
      var s := if r.None? then [] else Items(r.value);
      var n :| 0 <= n < |Items(t)| && Items(t)[n].key == key && s == RemoveAt(Items(t), n);
      DictRemove(Items(t), n);
    }
  }
}
