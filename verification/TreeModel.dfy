/**
 * The tree a store of pages stands for.
 *
 * A `Tree` value is the shape reachable from the root page: page ids, separators and slots. Slot 0 of an
 * internal page's key array is never read, so `seps[i - 1]` here is `key_array_[i]` there. `Inv` is the
 * structural invariant, `Sized` the occupancy invariant and `Represents` ties a tree to the pages of a store.
 */
module TreeModel {
  import opened Types

  /** `leaf_max_size_` and `internal_max_size_`. */
  datatype Config = Config(leafMax: nat, internalMax: nat) {
    /** Below these sizes a split leaves an empty leaf or a page with a single child. */
    predicate Ok() {
      leafMax >= 2 && internalMax >= 3
    }

    function LeafMin(): nat {
      (leafMax + 1) / 2
    }

    function InternalMin(): nat {
      (internalMax + 1) / 2
    }
  }

  datatype Tree =
    | Leaf(id: PageId, items: seq<Item>, next: PageId)
    | Node(id: PageId, seps: seq<int>, kids: seq<Tree>)

  /** What a subtree inherits from its ancestors: keys in [lo, hi), and the leaf that follows its last leaf. */
  datatype Box = Box(lo: int, hi: int, next: PageId)

  const ROOT_BOX := Box(MIN_KEY, MAX_KEY + 1, INVALID_PAGE_ID)

  function Size(t: Tree): nat {
    if t.Leaf? then |t.items| else |t.kids|
  }

  /** The page id of the leftmost leaf. */
  function First(t: Tree): PageId {
    match t
    case Leaf(id, _, _) => id
    case Node(_, _, kids) => if kids == [] then INVALID_PAGE_ID else First(kids[0])
  }

  function FirstOf(kids: seq<Tree>, next: PageId): PageId {
    if kids == [] then next else First(kids[0])
  }

  function NextOf(kids: seq<Tree>, i: nat, next: PageId): PageId {
    if i + 1 < |kids| then First(kids[i + 1]) else next
  }

  function Bounds(lo: int, seps: seq<int>, hi: int): seq<int> {
    [lo] + seps + [hi]
  }

  ghost predicate Increasing(bs: seq<int>) {
    forall i, j :: 0 <= i < j < |bs| ==> bs[i] < bs[j]
  }

  ghost predicate Sorted(items: seq<Item>) {
    forall i, j :: 0 <= i < j < |items| ==> items[i].key < items[j].key
  }

  ghost predicate Within(items: seq<Item>, lo: int, hi: int) {
    forall i :: 0 <= i < |items| ==> lo <= items[i].key < hi
  }

  /**
   * Structure: leaves sorted inside their bounds, separators strictly between the inherited bounds, every
   * leaf at depth `h`, and each leaf linked to the leaf after it.
   */
  ghost predicate Inv(t: Tree, h: nat, box: Box)
    decreases h, 0
  {
    match t
    case Leaf(_, items, next) =>
      h == 0 && next == box.next && box.lo < box.hi && Sorted(items) && Within(items, box.lo, box.hi)
    case Node(_, seps, kids) =>
      h > 0 && |kids| == |seps| + 1 && Seg(Bounds(box.lo, seps, box.hi), kids, h - 1, box.next)
  }

  /** A run of neighbouring subtrees: `kids[i]` lies between `bs[i]` and `bs[i + 1]`. */
  ghost predicate Seg(bs: seq<int>, kids: seq<Tree>, h: nat, next: PageId)
    decreases h, 1
  {
    && |bs| == |kids| + 1
    && Increasing(bs)
    && forall i :: 0 <= i < |kids| ==> Inv(kids[i], h, Box(bs[i], bs[i + 1], NextOf(kids, i, next)))
  }

  lemma SegSlice(bs: seq<int>, kids: seq<Tree>, h: nat, next: PageId, a: nat, b: nat)
    requires Seg(bs, kids, h, next) && a <= b <= |kids|
    ensures Seg(bs[a..b + 1], kids[a..b], h, if b < |kids| then First(kids[b]) else next)
  {
    var bs', kids' := bs[a..b + 1], kids[a..b];
    var next' := if b < |kids| then First(kids[b]) else next;
    forall i | 0 <= i < |kids'|
      ensures Inv(kids'[i], h, Box(bs'[i], bs'[i + 1], NextOf(kids', i, next')))
    {
      assert Inv(kids[a + i], h, Box(bs[a + i], bs[a + i + 1], NextOf(kids, a + i, next)));
    }
  }

  lemma SegConcat(b1: seq<int>, k1: seq<Tree>, b2: seq<int>, k2: seq<Tree>, h: nat, next: PageId)
    requires Seg(b1, k1, h, FirstOf(k2, next)) && Seg(b2, k2, h, next)
    requires b1[|k1|] == b2[0]
    ensures Seg(b1[..|k1|] + b2, k1 + k2, h, next)
  {
    var n := |k1|;
    var bs, kids := b1[..n] + b2, k1 + k2;
    forall i | 0 <= i < |kids|
      ensures Inv(kids[i], h, Box(bs[i], bs[i + 1], NextOf(kids, i, next)))
    {
      if i < n {
        assert Inv(k1[i], h, Box(b1[i], b1[i + 1], NextOf(k1, i, FirstOf(k2, next))));
      } else {
        assert Inv(k2[i - n], h, Box(b2[i - n], b2[i - n + 1], NextOf(k2, i - n, next)));
      }
    }
  }

  /** Replacing `kids[a..b]` by a run with the same outer bounds and the same leftmost leaf. */
  lemma SegReplace(bs: seq<int>, kids: seq<Tree>, h: nat, next: PageId, a: nat, b: nat, bm: seq<int>, mid: seq<Tree>)
    requires Seg(bs, kids, h, next) && a < b <= |kids| && mid != []
    requires Seg(bm, mid, h, if b < |kids| then First(kids[b]) else next)
    requires bm[0] == bs[a] && bm[|mid|] == bs[b] && First(mid[0]) == First(kids[a])
    ensures Seg(bs[..a] + bm[..|mid|] + bs[b..], kids[..a] + mid + kids[b..], h, next)
  {
    SegSlice(bs, kids, h, next, 0, a);
    SegSlice(bs, kids, h, next, b, |kids|);
    assert bs[b..|kids| + 1] == bs[b..] && kids[b..|kids|] == kids[b..];
    SegConcat(bm, mid, bs[b..], kids[b..], h, next);
    SegConcat(bs[0..a + 1], kids[0..a], bm[..|mid|] + bs[b..], mid + kids[b..], h, next);
    assert bs[0..a + 1][..a] + (bm[..|mid|] + bs[b..]) == bs[..a] + bm[..|mid|] + bs[b..];
    assert kids[0..a] + (mid + kids[b..]) == kids[..a] + mid + kids[b..];
  }

  // ----- contents, page ids and pages -----

  function Items(t: Tree): seq<Item> {
    match t
    case Leaf(_, items, _) => items
    case Node(_, _, kids) => ItemsOf(kids)
  }

  function ItemsOf(kids: seq<Tree>): seq<Item> {
    if kids == [] then [] else Items(kids[0]) + ItemsOf(kids[1..])
  }

  /** How often a page id occurs in a tree. */
  ghost function Count(t: Tree, x: PageId): nat {
    match t
    case Leaf(id, _, _) => if id == x then 1 else 0
    case Node(id, _, kids) => (if id == x then 1 else 0) + CountOf(kids, x)
  }

  ghost function CountOf(kids: seq<Tree>, x: PageId): nat {
    if kids == [] then 0 else Count(kids[0], x) + CountOf(kids[1..], x)
  }

  /** No page is reachable twice, and no reachable id is as large as the next id to be handed out. */
  ghost predicate Distinct(t: Tree, bound: int) {
    && (forall x :: Count(t, x) <= 1)
    && (forall x :: x < 0 || bound <= x ==> Count(t, x) == 0)
  }

  lemma Associate(a: seq<Item>, b: seq<Item>, c: seq<Item>)
    ensures a + (b + c) == a + b + c
  {
  }

  lemma {:induction false} ConcatItems(a: seq<Tree>, b: seq<Tree>)
    ensures ItemsOf(a + b) == ItemsOf(a) + ItemsOf(b)
  {
    hide Items;
    if a == [] {
      assert a + b == b;
    } else {
      ConcatItems(a[1..], b);
      assert (a + b)[0] == a[0] && (a + b)[1..] == a[1..] + b;
      Associate(Items(a[0]), ItemsOf(a[1..]), ItemsOf(b));
    }
  }

  lemma {:induction false} ConcatCounts(a: seq<Tree>, b: seq<Tree>, x: PageId)
    ensures CountOf(a + b, x) == CountOf(a, x) + CountOf(b, x)
  {
    if a == [] {
      assert a + b == b;
    } else {
      ConcatCounts(a[1..], b, x);
      assert (a + b)[0] == a[0] && (a + b)[1..] == a[1..] + b;
    }
  }

  lemma OneKid(t: Tree)
    ensures ItemsOf([t]) == Items(t) && forall x :: CountOf([t], x) == Count(t, x)
  {
    assert [t][1..] == [];
  }

  lemma TwoKids(l: Tree, r: Tree)
    ensures ItemsOf([l, r]) == Items(l) + Items(r)
    ensures forall x :: CountOf([l, r], x) == Count(l, x) + Count(r, x)
  {
    OneKid(r);
    assert [l, r][1..] == [r];
  }

  lemma {:induction false} KidCount(kids: seq<Tree>, i: nat, x: PageId)
    requires i < |kids|
    ensures Count(kids[i], x) <= CountOf(kids, x)
  {
    if i > 0 {
      KidCount(kids[1..], i - 1, x);
    }
  }

  /** What a page holds; slot 0 of an internal page's key array is junk and not part of the value. */
  datatype PageValue =
    | LeafPage(items: seq<Item>, next: PageId)
    | InternalPage(seps: seq<int>, children: seq<PageId>)

  type Store = map<PageId, PageValue>

  function Ids(kids: seq<Tree>): (ids: seq<PageId>)
    ensures |ids| == |kids|
  {
    seq(|kids|, i requires 0 <= i < |kids| => kids[i].id)
  }

  function PageOf(t: Tree): PageValue {
    match t
    case Leaf(_, items, next) => LeafPage(items, next)
    case Node(_, seps, kids) => InternalPage(seps, Ids(kids))
  }

  ghost predicate Represents(s: Store, t: Tree) {
    && t.id in s && s[t.id] == PageOf(t)
    && (t.Node? ==> RepresentsAll(s, t.kids))
  }

  ghost predicate RepresentsAll(s: Store, kids: seq<Tree>) {
    forall i :: 0 <= i < |kids| ==> Represents(s, kids[i])
  }

  /** `s'` keeps every page of `s` whose id is not in `changed`. */
  ghost predicate SameExcept(s: Store, s': Store, changed: set<PageId>) {
    forall x :: x in s && x !in changed ==> x in s' && s'[x] == s[x]
  }

  lemma RepresentedHere(s: Store, t: Tree)
    requires Represents(s, t)
    ensures t.id in s && s[t.id] == PageOf(t)
  {
  }

  /** Two changes in a row, the second one allowed as much as both. */
  lemma SameThrough(s0: Store, s1: Store, s2: Store, a: set<PageId>, b: set<PageId>)
    requires SameExcept(s0, s1, a) && SameExcept(s1, s2, b) && a <= b
    ensures SameExcept(s0, s2, b)
  {
  }

  /** A page that changed already, or a new one, changes once more. */
  lemma SameApart(s0: Store, s1: Store, s2: Store, a: PageId, b: PageId)
    requires SameExcept(s0, s1, {a}) && SameExcept(s1, s2, {b}) && (b == a || b !in s0)
    ensures SameExcept(s0, s2, {a}) && forall x :: x in s1 && x != b ==> x in s2 && s2[x] == s1[x]
  {
  }

  /** A new page, and then changes to it and to the page `a`. */
  lemma SameNew(s0: Store, s1: Store, s2: Store, a: PageId, n: PageId)
    requires SameExcept(s0, s1, {}) && SameExcept(s1, s2, {a, n}) && n !in s0
    ensures SameExcept(s0, s2, {a})
  {
  }

  lemma SameFresh(s0: Store, s1: Store, s2: Store, n: PageId)
    requires SameExcept(s0, s1, {}) && SameExcept(s1, s2, {n}) && n !in s0
    ensures SameExcept(s0, s2, {})
  {
  }

  lemma Unchanged(s: Store, a: set<PageId>)
    ensures SameExcept(s, s, a)
  {
  }

  lemma SameMore(s: Store, s': Store, a: set<PageId>, b: set<PageId>)
    requires SameExcept(s, s', a) && forall x :: x in a ==> x in b || x !in s
    ensures SameExcept(s, s', b)
  {
  }

  /** A page outside a tree can change without the tree noticing. */
  lemma {:induction false} RepresentsFrame(s: Store, s': Store, t: Tree, changed: set<PageId>)
    requires Represents(s, t) && SameExcept(s, s', changed)
    requires forall x :: x in changed ==> Count(t, x) == 0
    ensures Represents(s', t)
    decreases t, 0
  {
    assert Count(t, t.id) > 0;
    if t.Node? {
      RepresentsAllFrame(s, s', t.kids, changed);
    }
  }

  lemma {:induction false} RepresentsAllFrame(s: Store, s': Store, kids: seq<Tree>, changed: set<PageId>)
    requires RepresentsAll(s, kids) && SameExcept(s, s', changed)
    requires forall x :: x in changed ==> CountOf(kids, x) == 0
    ensures RepresentsAll(s', kids)
    decreases kids, 0
  {
    forall i | 0 <= i < |kids| ensures Represents(s', kids[i]) {
      forall x | x in changed ensures Count(kids[i], x) == 0 {
        KidCount(kids, i, x);
      }
      RepresentsFrame(s, s', kids[i], changed);
    }
  }

  // ----- occupancy -----

  /** Bounds on a page other than the root. An odd `leafMax` leaves one item less than `LeafMin()` in a split. */
  ghost predicate Healthy(c: Config, t: Tree) {
    match t
    case Leaf(_, items, _) => c.leafMax / 2 <= |items| <= c.leafMax
    case Node(_, _, kids) => c.InternalMin() <= |kids|
  }

  ghost predicate Sized(c: Config, t: Tree) {
    t.Node? ==> SizedAll(c, t.kids)
  }

  ghost predicate SizedAll(c: Config, kids: seq<Tree>) {
    forall i :: 0 <= i < |kids| ==> Healthy(c, kids[i]) && Sized(c, kids[i])
  }

  ghost predicate RootSized(c: Config, t: Tree) {
    && Sized(c, t)
    && match t
       case Leaf(_, items, _) => 1 <= |items| <= c.leafMax
       case Node(_, _, kids) => 2 <= |kids|
  }

  /** No internal page above `internal_max_size_`. */
  ghost predicate Capped(c: Config, t: Tree) {
    t.Node? ==> |t.kids| <= c.internalMax && CappedAll(c, t.kids)
  }

  ghost predicate CappedAll(c: Config, kids: seq<Tree>) {
    forall i :: 0 <= i < |kids| ==> Capped(c, kids[i])
  }

  // ----- order of the contents -----

  lemma {:induction false} InvItems(t: Tree, h: nat, box: Box)
    requires Inv(t, h, box)
    ensures Sorted(Items(t)) && Within(Items(t), box.lo, box.hi) && box.lo < box.hi
    decreases h, 0
  {
    if t.Node? {
      var bs := Bounds(box.lo, t.seps, box.hi);
      SegItems(bs, t.kids, h - 1, box.next);
    }
  }

  lemma {:induction false} SegItems(bs: seq<int>, kids: seq<Tree>, h: nat, next: PageId)
    requires Seg(bs, kids, h, next)
    ensures Sorted(ItemsOf(kids)) && Within(ItemsOf(kids), bs[0], bs[|kids|])
    decreases h, 1, |kids|
  {
    if kids != [] {
      InvItems(kids[0], h, Box(bs[0], bs[1], NextOf(kids, 0, next)));
      SegSlice(bs, kids, h, next, 1, |kids|);
      assert bs[1..|kids| + 1] == bs[1..] && kids[1..|kids|] == kids[1..];
      SegItems(bs[1..], kids[1..], h, next);
    }
  }

  function Height(t: Tree): nat {
    match t
    case Leaf(_, _, _) => 0
    case Node(_, _, kids) => if kids == [] then 0 else 1 + Height(kids[0])
  }

  lemma {:induction false} InvHeight(t: Tree, h: nat, box: Box)
    requires Inv(t, h, box)
    ensures Height(t) == h
    decreases h
  {
    if t.Node? {
      var bs := Bounds(box.lo, t.seps, box.hi);
      InvHeight(t.kids[0], h - 1, Box(bs[0], bs[1], NextOf(t.kids, 0, box.next)));
    }
  }

  /** Everything a tree reached by `Insert` and `Remove` satisfies; `bound` is the next page id to be handed out. */
  ghost predicate TreeOk(c: Config, t: Tree, bound: PageId) {
    Inv(t, Height(t), ROOT_BOX) && RootSized(c, t) && Distinct(t, bound)
  }

  // ----- contents as a finite map -----

  /** The map a sorted run of items stands for. */
  function Dict(items: seq<Item>): map<int, Rid> {
    if items == [] then map[] else Dict(items[..|items| - 1])[items[|items| - 1].key := items[|items| - 1].rid]
  }

  lemma {:induction false} DictHolds(items: seq<Item>, i: nat)
    requires Sorted(items) && i < |items|
    ensures items[i].key in Dict(items) && Dict(items)[items[i].key] == items[i].rid
  {
    var n := |items| - 1;
    if i < n {
      DictHolds(items[..n], i);
      assert items[..n][i] == items[i];
    }
  }

  lemma {:induction false} DictFrom(items: seq<Item>, k: int) returns (i: nat)
    requires k in Dict(items)
    ensures i < |items| && items[i].key == k
  {
    var n := |items| - 1;
    i := n;
    if items[n].key != k {
      i := DictFrom(items[..n], k);
      assert items[..n][i] == items[i];
    }
  }

  /** The map of a sorted run has its keys and their record ids, and nothing else. */
  lemma DictEntries(items: seq<Item>)
    requires Sorted(items)
    ensures forall k :: k in Dict(items) <==> exists i :: 0 <= i < |items| && items[i].key == k
    ensures forall i :: 0 <= i < |items| ==> items[i].key in Dict(items) && Dict(items)[items[i].key] == items[i].rid
  {
    hide Dict;
    forall i | 0 <= i < |items| ensures items[i].key in Dict(items) && Dict(items)[items[i].key] == items[i].rid {
      DictHolds(items, i);
    }
    forall k | k in Dict(items) ensures exists i :: 0 <= i < |items| && items[i].key == k {
      var i := DictFrom(items, k);
    }
  }
}
