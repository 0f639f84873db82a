/** The page stores before and after one step of an ascent: if the touched pages are right, the trees are represented. */
module TreeStore {
  import opened Types
  import opened TreeModel
  import opened TreeInsert
  import opened TreeRemove
  import opened Zipper

  ghost predicate Holds(s: Store, t: Tree) {
    t.id in s && s[t.id] == PageOf(t)
  }

  ghost predicate RepresentsCarry(s: Store, path: Path, u: Carry) {
    && RepresentsPath(s, path, CarryId(u))
    && match u
       case Fits(t) => Represents(s, t)
       case Split(l, _, r) => Represents(s, l) && Represents(s, r)
  }

  /** The top pages of the carried subtrees are in the store. */
  ghost predicate HoldsCarry(s: Store, u: Carry) {
    match u
    case Fits(t) => Holds(s, t)
    case Split(l, _, r) => Holds(s, l) && Holds(s, r)
  }

  lemma LeafInsertStore(s: Store, s': Store, path: Path, leaf: Tree, u: Carry, newId: PageId)
    requires leaf.Leaf? && RepresentsPath(s, path, leaf.id) && FocusDistinct(path, leaf, newId)
    requires SameExcept(s, s', {leaf.id, newId}) && HoldsCarry(s', u) && CarryId(u) == leaf.id
    requires match u case Fits(t) => t.Leaf? case Split(l, _, r) => l.Leaf? && r.Leaf?
    ensures RepresentsCarry(s', path, u)
  {
    assert Count(leaf, leaf.id) == 1;
    RepresentsPathFrame(s, s', path, leaf.id, {leaf.id, newId});
  }

  lemma WidenedIds(f: Frame, l: Tree, up: int, r: Tree)
    requires |f.left| <= |f.seps|
    ensures Ids(Widened(f, l, up, r).kids) == InsertAt(Ids(f.left) + [l.id] + Ids(f.right), |f.left| + 1, r.id)
    ensures Widened(f, l, up, r).seps == InsertAt(f.seps, |f.left|, up)
  {
  }

  /** The id of the last ancestor and the new id occur nowhere around or below the hole. */
  lemma OnlyInFrame(path: Path, l: Tree, up: int, r: Tree, newId: PageId)
    requires path != [] && CarryDistinct(path, Split(l, up, r), newId)
    ensures var f := Last(path);
      forall x :: x in {f.id, newId} ==>
        PathCount(Init(path), x) == CountOf(f.left, x) == CountOf(f.right, x) == Count(l, x) == Count(r, x) == 0
  {
    var f := Last(path);
    forall x | x in {f.id, newId}
      ensures PathCount(Init(path), x) == CountOf(f.left, x) == CountOf(f.right, x) == Count(l, x) == Count(r, x) == 0
    {
      assert FrameCount(f, f.id) >= 1;
      assert PathCount(path, x) + CarryCount(Split(l, up, r), x) <= if 0 <= x < newId then 1 else 0;
    }
  }

  lemma NodeInsertStore(c: Config, s: Store, s': Store, path: Path, l: Tree, up: int, r: Tree, newId: PageId)
    requires path != [] && RepresentsCarry(s, path, Split(l, up, r)) && CarryDistinct(path, Split(l, up, r), newId)
    requires SameExcept(s, s', {Last(path).id, newId})
    requires HoldsCarry(s', NodeInsert(c, Last(path), l, up, r, newId))
    ensures RepresentsCarry(s', Init(path), NodeInsert(c, Last(path), l, up, r, newId))
  {
    var f, changed := Last(path), {Last(path).id, newId};
    OnlyInFrame(path, l, up, r, newId);
    RepresentsPathFrame(s, s', Init(path), f.id, changed);
    RepresentsAllFrame(s, s', f.left, changed);
    RepresentsAllFrame(s, s', f.right, changed);
    RepresentsFrame(s, s', l, changed);
    RepresentsFrame(s, s', r, changed);
    assert RepresentsAll(s', f.left + [l, r] + f.right);
  }

  /** The ids touched by a repair occur nowhere else below the parent. */
  lemma PairAlone(t: Tree, j: nat)
    requires HasPair(t, j) && forall x :: Count(t, x) <= 1
    ensures var l, r := t.kids[j], t.kids[j + 1];
      forall x :: x in {t.id, l.id, r.id} ==>
        && CountOf(t.kids[..j], x) == 0 && CountOf(t.kids[j + 2..], x) == 0
        && (l.Node? ==> CountOf(l.kids, x) == 0) && (r.Node? ==> CountOf(r.kids, x) == 0)
    ensures t.id != t.kids[j].id && t.kids[j].id != t.kids[j + 1].id && t.kids[j + 1].id != t.id
  {
    var l, r := t.kids[j], t.kids[j + 1];
    assert t.kids == t.kids[..j] + [l, r] + t.kids[j + 2..];
    TwoKids(l, r);
    forall x ensures Count(t, x) == (if t.id == x then 1 else 0) + CountOf(t.kids[..j], x) + Count(l, x) + Count(r, x) + CountOf(t.kids[j + 2..], x) {
      ThreeParts(t.kids, j, [l, r], x);
    }
    assert Count(t, t.id) <= 1 && Count(t, l.id) <= 1 && Count(t, r.id) <= 1;
  }

  lemma RestFrame(s: Store, s': Store, t: Tree, j: nat)
    requires HasPair(t, j) && Represents(s, t) && forall x :: Count(t, x) <= 1
    requires SameExcept(s, s', {t.id, t.kids[j].id, t.kids[j + 1].id})
    ensures RepresentsAll(s', t.kids[..j]) && RepresentsAll(s', t.kids[j + 2..])
    ensures t.kids[j].Node? ==> RepresentsAll(s', t.kids[j].kids + t.kids[j + 1].kids)
  {
    var l, r := t.kids[j], t.kids[j + 1];
    var changed := {t.id, l.id, r.id};
    PairAlone(t, j);
    assert Represents(s, l) && Represents(s, r);
    RepresentsAllFrame(s, s', t.kids[..j], changed);
    RepresentsAllFrame(s, s', t.kids[j + 2..], changed);
    if l.Node? {
      RepresentsAllFrame(s, s', l.kids, changed);
      RepresentsAllFrame(s, s', r.kids, changed);
    }
  }

  /** The parent's page with another separator behind slot `j`, and the pages of the pair shared out again. */
  ghost predicate HoldsShared(s: Store, t: Tree, j: nat, v: Sides)
    requires HasPair(t, j)
  {
    && t.id in s && s[t.id] == InternalPage(t.seps[j := v.sep], Ids(t.kids))
    && t.kids[j].id in s && s[t.kids[j].id] == v.left && t.kids[j + 1].id in s && s[t.kids[j + 1].id] == v.right
  }

  lemma BorrowStore(s: Store, s': Store, t: Tree, j: nat, n: nat)
    requires HasPair(t, j) && Represents(s, t) && (forall x :: Count(t, x) <= 1)
    requires SameExcept(s, s', {t.id, t.kids[j].id, t.kids[j + 1].id})
    requires 0 < n < Size(t.kids[j]) + Size(t.kids[j + 1])
    requires Alike(SidesOf(PairAt(t, j))) && Entries(PageOf(t.kids[j])) == Size(t.kids[j]) && Entries(PageOf(t.kids[j + 1])) == Size(t.kids[j + 1])
    requires HoldsShared(s', t, j, Shared(SidesOf(PairAt(t, j)), n))
    ensures Represents(s', WithPair(t, j, Resplit(PairAt(t, j), n)))
  {
    hide Shared;
    RestFrame(s, s', t, j);
    var q := Resplit(PairAt(t, j), n);
    SharedPages(PairAt(t, j), n);
    ParentPages(t, j, q, q.l);
    assert Represents(s', q.l) && Represents(s', q.r);
    assert t.kids[j := q.l][j + 1 := q.r] == t.kids[..j] + [q.l, q.r] + t.kids[j + 2..];
  }

  lemma MergeStore(s: Store, s': Store, t: Tree, j: nat)
    requires HasPair(t, j) && Represents(s, t) && (forall x :: Count(t, x) <= 1)
    requires SameExcept(s, s', {t.id, t.kids[j].id, t.kids[j + 1].id})
    requires t.id in s' && s'[t.id] == InternalPage(RemoveAt(t.seps, j), RemoveAt(Ids(t.kids), j + 1))
    requires Alike(SidesOf(PairAt(t, j))) && t.kids[j].id in s' && s'[t.kids[j].id] == Joined(SidesOf(PairAt(t, j)))
    ensures Represents(s', WithMerged(t, j, Merged(PairAt(t, j))))
  {
    hide Joined;
    RestFrame(s, s', t, j);
    var m := Merged(PairAt(t, j));
    JoinedPages(PairAt(t, j));
    ParentPages(t, j, PairAt(t, j), m);
    assert Represents(s', m);
  }
}
