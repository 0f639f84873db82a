/**
 * When `Remove` pushes an internal page above `internal_max_size_`.
 *
 * The loop of `Remove` skips its "page is full enough" exit while `key_update` is set, so a page that needs no
 * repair can be given children. `RemoveOverfills` says exactly when, from the sizes of the pages on the search path
 * and of their siblings before the removal.
 */
module TreeOverfill {
  import opened Types
  import opened TreeModel
  import opened TreeRemove
  import opened TreeSearch
  import opened Zipper

  /** The repair of child `i` leaves the child, or the page it is merged into, above the maximum size. */
  predicate Overfills(c: Config, t: Tree, i: nat)
    requires CanRebalance(c, t, i) && t.kids[i].Node?
  {
    match Choose(c, t, i)
    case BorrowLeft => c.internalMax <= |t.kids[i].kids|
    case BorrowRight => c.internalMax <= |t.kids[i].kids|
    case MergeLeft => c.internalMax < |t.kids[i - 1].kids| + |t.kids[i].kids|
    case MergeRight => c.internalMax < |t.kids[i].kids| + |t.kids[i + 1].kids|
  }

  // ----- the same from sizes: those of the pages on the search path and of their siblings, before the removal -----

  /** The branch for a page with the siblings of `f`, `low` being the minimum size on its level. */
  function Branch(low: nat, f: Frame): Repair {
    if f.left != [] && Size(f.left[|f.left| - 1]) > low then BorrowLeft
    else if f.right != [] && Size(f.right[0]) > low then BorrowRight
    else if f.left != [] then MergeLeft
    else MergeRight
  }

  /** How many entries the branch leaves in the page that had `n`, or in the page it is merged into. */
  function Grows(w: Repair, f: Frame, n: nat): nat {
    match w
    case BorrowLeft => n + 1
    case BorrowRight => n + 1
    case MergeLeft => if f.left == [] then n else Size(f.left[|f.left| - 1]) + n
    case MergeRight => if f.right == [] then n else n + Size(f.right[0])
  }

  /** How many children the branch leaves the parent, and whether slot 1 was touched: the size and flag one level up. */
  function After(w: Repair, f: Frame): (nat, bool) {
    var i, merged := |f.left|, w.MergeLeft? || w.MergeRight?;
    (if merged then i + |f.right| else i + 1 + |f.right|, i == if w.BorrowLeft? || w.MergeLeft? then 1 else 0)
  }

  /**
   * Some turn of the ascent overfills a page, for a current page with `n` children. Only a turn that `keyUpdate`
   * forced on a page in no need can.
   */
  predicate AscentOverfills(c: Config, path: Path, n: nat, keyUpdate: bool)
    decreases |path|
  {
    path != [] && (keyUpdate || n < c.InternalMin()) &&
    var f := Last(path);
    var w := Branch(c.InternalMin(), f);
    || (keyUpdate && c.InternalMin() <= n && c.internalMax < Grows(w, f, n))
    || AscentOverfills(c, Init(path), After(w, f).0, After(w, f).1)
  }

  /** What a caller can read off the search path before `Remove` to know whether it will overfill a page. */
  predicate RemoveOverfills(c: Config, t: Tree, key: int) {
    Underflows(c, t, key) &&
    var path := Descend([], t, key).path;
    var (n, keyUpdate) := After(Branch(c.LeafMin(), Last(path)), Last(path));
    AscentOverfills(c, Init(path), n, keyUpdate)
  }

  /** The sizes tell what a turn does. */
  lemma TurnIs(c: Config, f: Frame, t: Tree)
    requires CanRebalance(c, Fill(f, t), |f.left|)
    ensures var up, i, w := Fill(f, t), |f.left|, Branch(MinSize(c, t), f);
      && up.kids[i] == t && Choose(c, up, i) == w
      && |Rebalance(c, up, i).0.kids| == After(w, f).0 && Rebalance(c, up, i).1 == After(w, f).1
      && (t.Node? ==> (Overfills(c, up, i) <==> c.internalMax < Grows(w, f, |t.kids|)))
  {
    var up, i := Fill(f, t), |f.left|;
    assert up.kids[i] == t;
    assert f.left != [] ==> up.kids[i - 1] == f.left[|f.left| - 1];
    assert f.right != [] ==> up.kids[i + 1] == f.right[0];
  }

  lemma CappedConcat(c: Config, a: seq<Tree>, b: seq<Tree>, n: nat)
    requires n <= |a| + |b|
    ensures CappedAll(c, a + b) <==> CappedAll(c, a) && CappedAll(c, b)
    ensures CappedAll(c, a + b) <==> CappedAll(c, (a + b)[..n]) && CappedAll(c, (a + b)[n..])
  {
    var s := a + b;
    assert forall i :: 0 <= i < |a| ==> a[i] == s[i];
    assert forall i :: 0 <= i < |b| ==> b[i] == s[|a| + i];
    assert forall i :: 0 <= i < n ==> s[..n][i] == s[i];
    assert forall i :: 0 <= i < |s| - n ==> s[n..][i] == s[n + i];
  }

  /** The children of the repaired pages are the children of the two pages before. */
  lemma PairCapped(c: Config, w: Repair, p: Pair)
    requires SameKind(p.l, p.r) && p.l.Node?
    requires w.BorrowLeft? ==> Size(p.l) > 1
    requires w.BorrowRight? ==> Size(p.r) > 1
    ensures w.MergeLeft? || w.MergeRight? ==>
      (CappedAll(c, Merged(p).kids) <==> CappedAll(c, p.l.kids) && CappedAll(c, p.r.kids))
    ensures w.BorrowLeft? || w.BorrowRight? ==>
      var q := Resplit(p, if w.BorrowLeft? then Size(p.l) - 1 else Size(p.l) + 1);
      CappedAll(c, q.l.kids) && CappedAll(c, q.r.kids) <==> CappedAll(c, p.l.kids) && CappedAll(c, p.r.kids)
  {
    CappedConcat(c, p.l.kids, p.r.kids, if w.BorrowLeft? then Size(p.l) - 1 else if w.BorrowRight? then Size(p.l) + 1 else 0);
  }

  lemma ReplacedCapped(c: Config, kids: seq<Tree>, j: nat, mid: seq<Tree>)
    requires j + 2 <= |kids|
    ensures CappedAll(c, kids[..j] + mid + kids[j + 2..]) <==>
      CappedAll(c, kids[..j]) && CappedAll(c, mid) && CappedAll(c, kids[j + 2..])
    ensures CappedAll(c, kids) <==> CappedAll(c, kids[..j]) && CappedAll(c, kids[j..j + 2]) && CappedAll(c, kids[j + 2..])
  {
    CappedConcat(c, kids[..j] + mid, kids[j + 2..], 0);
    CappedConcat(c, kids[..j], mid, 0);
    CappedConcat(c, kids[..j] + kids[j..j + 2], kids[j + 2..], 0);
    CappedConcat(c, kids[..j], kids[j..j + 2], 0);
    assert kids == kids[..j] + kids[j..j + 2] + kids[j + 2..];
  }

  /** The kids a repair leaves: those beside the pair, and the repaired page or pages. */
  lemma RepairedKids(w: Repair, t: Tree, j: nat)
    requires HasPair(t, j)
    requires w.BorrowLeft? ==> Size(t.kids[j]) > 1
    requires w.BorrowRight? ==> Size(t.kids[j + 1]) > 1
    ensures var p := PairAt(t, j);
      RepairPair(w, t, j).kids == t.kids[..j] + (
        if w.MergeLeft? || w.MergeRight? then [Merged(p)]
        else var q := Resplit(p, if w.BorrowLeft? then Size(p.l) - 1 else Size(p.l) + 1); [q.l, q.r]) + t.kids[j + 2..]
  {
  }

  lemma CappedFew(c: Config, a: Tree, b: Tree)
    ensures CappedAll(c, [a]) <==> Capped(c, a)
    ensures CappedAll(c, [a, b]) <==> Capped(c, a) && Capped(c, b)
  {
    assert [a][0] == a && [a, b][0] == a && [a, b][1] == b;
  }

  /** The pages a repair leaves: capped exactly when the counts fit and nothing below is overfull. */
  lemma PairFits(c: Config, w: Repair, p: Pair)
    requires SameKind(p.l, p.r) && p.l.Node? && |p.l.kids| <= c.internalMax && |p.r.kids| <= c.internalMax
    requires w.BorrowLeft? ==> Size(p.l) > 1
    requires w.BorrowRight? ==> Size(p.r) > 1
    ensures var below := CappedAll(c, p.l.kids) && CappedAll(c, p.r.kids);
      match w
      case BorrowLeft =>
        var q := Resplit(p, Size(p.l) - 1); CappedAll(c, [q.l, q.r]) <==> below && |p.r.kids| < c.internalMax
      case BorrowRight =>
        var q := Resplit(p, Size(p.l) + 1); CappedAll(c, [q.l, q.r]) <==> below && |p.l.kids| < c.internalMax
      case _ => CappedAll(c, [Merged(p)]) <==> below && |p.l.kids| + |p.r.kids| <= c.internalMax
  {
    PairCapped(c, w, p);
    if w.MergeLeft? || w.MergeRight? {
      CappedFew(c, Merged(p), Merged(p));
    } else {
      var q := Resplit(p, if w.BorrowLeft? then Size(p.l) - 1 else Size(p.l) + 1);
      CappedFew(c, q.l, q.r);
    }
  }

  /** The repaired children are capped exactly when those beside the pair are and the repaired pages are. */
  lemma RepairedCapped(c: Config, w: Repair, t: Tree, j: nat)
    requires HasPair(t, j)
    requires w.BorrowLeft? ==> Size(t.kids[j]) > 1
    requires w.BorrowRight? ==> Size(t.kids[j + 1]) > 1
    ensures var p := PairAt(t, j);
      CappedAll(c, RepairPair(w, t, j).kids) <==>
        && CappedAll(c, t.kids[..j]) && CappedAll(c, t.kids[j + 2..])
        && if w.MergeLeft? || w.MergeRight? then CappedAll(c, [Merged(p)])
           else var q := Resplit(p, if w.BorrowLeft? then Size(p.l) - 1 else Size(p.l) + 1); CappedAll(c, [q.l, q.r])
  {
    var p := PairAt(t, j);
    RepairedKids(w, t, j);
    if w.MergeLeft? || w.MergeRight? {
      ReplacedCapped(c, t.kids, j, [Merged(p)]);
    } else {
      var q := Resplit(p, if w.BorrowLeft? then Size(p.l) - 1 else Size(p.l) + 1);
      ReplacedCapped(c, t.kids, j, [q.l, q.r]);
    }
  }

  /** One repair of capped pages stays capped exactly when it does not overfill a page. */
  lemma RepairCapped(c: Config, t: Tree, i: nat)
    requires CanRebalance(c, t, i) && t.kids[i].Node? && |t.kids| <= c.internalMax && CappedAll(c, t.kids)
    ensures CappedAll(c, Rebalance(c, t, i).0.kids) <==> !Overfills(c, t, i)
    ensures |t.kids[i].kids| < c.InternalMin() ==> !Overfills(c, t, i)
    ensures |Rebalance(c, t, i).0.kids| <= c.internalMax
  {
    hide Resplit, Merged, RepairPair;
    var w := Choose(c, t, i);
    var j := PairIndex(w, i);
    var p := PairAt(t, j);
    assert Capped(c, p.l) && Capped(c, p.r);
    ReplacedCapped(c, t.kids, j, []);
    RepairedCapped(c, w, t, j);
    PairFits(c, w, p);
    RepairedSize(w, t, j);
  }

  lemma RepairedSize(w: Repair, t: Tree, j: nat)
    requires HasPair(t, j)
    requires w.BorrowLeft? ==> Size(t.kids[j]) > 1
    requires w.BorrowRight? ==> Size(t.kids[j + 1]) > 1
    ensures |RepairPair(w, t, j).kids| <= |t.kids|
  {
  }

  /** An overfull page two levels down is still there after a repair. */
  lemma RepairUncapped(c: Config, t: Tree, i: nat)
    requires CanRebalance(c, t, i) && t.kids[i].Node? && !CappedAll(c, t.kids[i].kids)
    ensures !CappedAll(c, Rebalance(c, t, i).0.kids)
  {
    hide RepairPair;
    var w := Choose(c, t, i);
    var j := PairIndex(w, i);
    var p := PairAt(t, j);
    RepairedCapped(c, w, t, j);
    PairCapped(c, w, p);
    if w.MergeLeft? || w.MergeRight? {
      CappedFew(c, Merged(p), Merged(p));
    } else {
      var q := Resplit(p, if w.BorrowLeft? then Size(p.l) - 1 else Size(p.l) + 1);
      CappedFew(c, q.l, q.r);
    }
  }

  lemma {:induction false} AscentUncapped(c: Config, path: Path, t: Tree, h: nat, ku: bool, bound: PageId)
    requires AscentInv(c, path, t, h, bound) && !CappedAll(c, t.kids)
    ensures !Capped(c, AscendRemove(c, path, t, ku))
    decreases |path|
  {
    hide Rebalance;
    if path == [] {
    } else if !ku && |t.kids| >= c.InternalMin() {
      UncappedPlug(c, path, t);
    } else {
      var up, i := Fill(Last(path), t), |Last(path).left|;
      ParentStep(c, path, t, h, bound);
      assert up.kids[i] == t;
      RepairUncapped(c, up, i);
      var (t', ku') := Rebalance(c, up, i);
      AscentUncapped(c, Init(path), t', h + 1, ku', bound);
    }
  }

  lemma {:induction false} UncappedPlug(c: Config, path: Path, t: Tree)
    requires !Capped(c, t)
    ensures !Capped(c, Plug(path, t))
    decreases |path|
  {
    if path != [] {
      var f := Last(path);
      assert Fill(f, t).kids[|f.left|] == t;
      UncappedPlug(c, Init(path), Fill(f, t));
    }
  }

  /** The ascent leaves every internal page within its maximum exactly when no turn overfills. */
  lemma {:induction false} AscentCapped(c: Config, path: Path, t: Tree, h: nat, ku: bool, bound: PageId)
    requires AscentInv(c, path, t, h, bound) && PathCapped(c, path) && Capped(c, t)
    ensures Capped(c, AscendRemove(c, path, t, ku)) <==> !AscentOverfills(c, path, |t.kids|, ku)
    decreases |path|
  {
    hide Rebalance, Overfills, Branch, Grows, After, Choose, AscentInv, PathCapped, CappedAll, CanRebalance;
    NodeHere(c, path, t, h, bound);
    if path == [] {
      RootCapped(c, t);
    } else if !ku && |t.kids| >= c.InternalMin() {
      PlugCapped(c, path, t);
    } else {
      var f := Last(path);
      var up, i := Fill(f, t), |f.left|;
      AscentUp(c, path, t, h, bound);
      TurnIs(c, f, t);
      FillCapped(c, path, t);
      RepairCapped(c, up, i);
      var (t', ku') := Rebalance(c, up, i);
      if Overfills(c, up, i) {
        AscentUncapped(c, Init(path), t', h + 1, ku', bound);
      } else {
        AscentCapped(c, Init(path), t', h + 1, ku', bound);
      }
    }
  }

  lemma NodeHere(c: Config, path: Path, t: Tree, h: nat, bound: PageId)
    requires AscentInv(c, path, t, h, bound)
    ensures t.Node?
  {
  }

  lemma RootCapped(c: Config, t: Tree)
    requires t.Node? && Capped(c, t)
    ensures |t.kids| == 1 ==> Capped(c, t.kids[0])
  {
  }

  lemma AscentUp(c: Config, path: Path, t: Tree, h: nat, bound: PageId)
    requires AscentInv(c, path, t, h, bound) && path != []
    ensures CanRebalance(c, Fill(Last(path), t), |Last(path).left|)
    ensures AscentInv(c, Init(path), Rebalance(c, Fill(Last(path), t), |Last(path).left|).0, h + 1, bound)
  {
    ParentStep(c, path, t, h, bound);
  }

  lemma FillCapped(c: Config, path: Path, t: Tree)
    requires path != [] && PathCapped(c, path) && Capped(c, t)
    ensures var up := Fill(Last(path), t); CappedAll(c, up.kids) && |up.kids| <= c.internalMax && PathCapped(c, Init(path))
  {
  }

  /** `Remove` keeps every internal page within its maximum if and only if `RemoveOverfills` says it will not. */
  lemma RemoveCapped(c: Config, t: Tree, key: int, bound: PageId)
    requires c.Ok() && TreeOk(c, t, bound) && MIN_KEY <= key <= MAX_KEY && Capped(c, t)
    ensures var r := RemoveTree(c, t, key);
      (r.Some? ==> Capped(c, r.value)) <==> !RemoveOverfills(c, t, key)
  {
    hide TreeOk, Descend, LeafIndex, AscendRemove, AscentOverfills, RemoveAt, Rebalance, Branch, After, AscentInv, PathInv, FocusDistinct;
    DescendOk(c, t, key, bound);
    DescendCapped(c, [], t, key);
    var d := Descend([], t, key);
    var i := LeafIndex(d.leaf.items, key);
    if FoundAt(d.leaf.items, i, key) {
      var leaf' := d.leaf.(items := RemoveAt(d.leaf.items, i));
      ShortLeafAfterDelete(c, d.path, d.leaf, i, bound);
      if |leaf'.items| >= c.LeafMin() {
        PlugCapped(c, d.path, leaf');
      } else if d.path != [] {
        UnderflowCapped(c, d.path, leaf', bound);
      }
    }
  }

  lemma UnderflowCapped(c: Config, path: Path, leaf: Tree, bound: PageId)
    requires ShortLeaf(c, path, leaf, bound) && path != [] && |leaf.items| < c.LeafMin() && PathCapped(c, path) && Capped(c, leaf)
    ensures var (n, keyUpdate) := After(Branch(c.LeafMin(), Last(path)), Last(path));
      RepairLeaf(c, path, leaf).Some? && (Capped(c, RepairLeaf(c, path, leaf).value) <==> !AscentOverfills(c, Init(path), n, keyUpdate))
  {
    hide Rebalance, Branch, After, AscendRemove, AscentOverfills;
    var up, slot := Fill(Last(path), leaf), |Last(path).left|;
    ParentStep(c, path, leaf, 0, bound);
    TurnIs(c, Last(path), leaf);
    FillCapped(c, path, leaf);
    LeavesCapped(c, up, slot);
    AscentCapped(c, Init(path), Rebalance(c, up, slot).0, 1, Rebalance(c, up, slot).1, bound);
  }

  lemma LeavesCapped(c: Config, t: Tree, i: nat)
    requires CanRebalance(c, t, i) && t.kids[i].Leaf? && CappedAll(c, t.kids) && |t.kids| <= c.internalMax
    ensures Capped(c, Rebalance(c, t, i).0)
  {
  }
}
