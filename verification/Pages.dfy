/**
 * Leaf and internal pages, changed in place by the loops of `Insert`, `Remove` and `Merge`.
 *
 * The slot arrays are growable sequences: `Remove` may push an internal page past its maximum size, and the C++
 * arrays carry no bound check. A slot beyond the page's size does not exist here.
 *
 * Whatever a caller reads or changes, it does while `g` says that it holds the page's guard.
 */
module Pages {
  import opened Latches
  import opened Types
  import opened TreeModel
  import opened TreeInsert
  import opened TreeRemove
  import opened TreeSearch
  import opened Zipper

  class Page {
    const id: PageId
    var isLeaf: bool
    var maxSize: nat
    var items: seq<Item>
    var next: PageId
    var keys: seq<int>
    var kids: seq<PageId>

    predicate Shape()
      reads this
    {
      !isLeaf ==> |keys| == |kids|
    }

    function Seps(): seq<int>
      reads this
    {
      if keys == [] then [] else keys[1..]
    }

    function Value(): PageValue
      reads this
    {
      if isLeaf then LeafPage(items, next) else InternalPage(Seps(), kids)
    }

    function MinSize(): nat
      reads this
    {
      (maxSize + 1) / 2
    }

    function Size(): nat
      reads this
    {
      if isLeaf then |items| else |kids|
    }

    // ----- what a caller may read; like every method below, only under the page's guard -----

    function IsLeaf(ghost g: Guards): bool
      requires id in g.held
      reads this
    {
      isLeaf
    }

    function GetSize(ghost g: Guards): nat
      requires id in g.held
      reads this
    {
      Size()
    }

    function GetMinSize(ghost g: Guards): nat
      requires id in g.held
      reads this
    {
      MinSize()
    }

    function GetMaxSize(ghost g: Guards): nat
      requires id in g.held
      reads this
    {
      maxSize
    }

    function GetNextPageId(ghost g: Guards): PageId
      requires id in g.held
      reads this
    {
      next
    }

    function ItemAt(i: nat, ghost g: Guards): Item
      requires id in g.held && i < |items|
      reads this
    {
      items[i]
    }

    function KeyAt(i: nat, ghost g: Guards): int
      requires id in g.held && i < |keys|
      reads this
    {
      keys[i]
    }

    function ValueAt(i: nat, ghost g: Guards): PageId
      requires id in g.held && i < |kids|
      reads this
    {
      kids[i]
    }

    method SetNextPageId(p: PageId, ghost g: Guards)
      requires id in g.held
      modifies this`next
      ensures next == p
    {
      next := p;
    }

    /** A page nobody has written: zeros from the disk manager. */
    constructor (id: PageId)
      ensures this.id == id && !isLeaf && keys == [] && kids == [] && items == []
    {
      this.id, isLeaf, maxSize, items, next, keys, kids := id, false, 0, [], 0, [], [];
    }

    method InitLeaf(max: nat, ghost g: Guards)
      requires id in g.held
      modifies this`isLeaf, this`maxSize, this`items, this`next
      ensures isLeaf && maxSize == max && items == [] && next == INVALID_PAGE_ID
    {
      isLeaf, maxSize, items, next := true, max, [], INVALID_PAGE_ID;
    }

    method InitInternal(max: nat, ghost g: Guards)
      requires id in g.held
      modifies this`isLeaf, this`maxSize, this`keys, this`kids
      ensures !isLeaf && maxSize == max && keys == [] && kids == []
    {
      isLeaf, maxSize, keys, kids := false, max, [], [];
    }

    // ----- searching -----

    method LeafKeyIndex(key: int, ghost g: Guards) returns (i: nat)
      requires id in g.held
      requires isLeaf && Sorted(items)
      ensures i == LeafIndex(items, key)
    {
      hide Sound, Tidy;
      LeafIndexBounds(items, key);
      var l, r := 0, |items|;
      while l < r
        invariant 0 <= l <= LeafIndex(items, key) <= r <= |items|
      {
        var mid := l + (r - l) / 2;
        if key == items[mid].key {
          LeafIndexAt(items, mid);
          return mid;
        } else if key < items[mid].key {
          r := mid;
        } else {
          l := mid + 1;
        }
      }
      return l;
    }

    /** Slot 0 holds no key, so the search runs over the slots 1 to size - 1. */
    method InternalKeyIndex(key: int, ghost g: Guards) returns (i: nat)
      requires id in g.held
      requires !isLeaf && Shape() && SortedKeys(keys)
      ensures 1 <= i && (i <= |keys| || i == 1)
      ensures forall j :: 1 <= j < i && j < |keys| ==> keys[j] < key
      ensures forall j :: i <= j < |keys| ==> key <= keys[j]
    {
      hide Sound, Tidy;
      var l, r := 1, |keys|;
      while l < r
        invariant 1 <= l && (l <= r <= |keys| || (l == 1 && r == |keys|))
        invariant forall j :: 1 <= j < l && j < |keys| ==> keys[j] < key
        invariant forall j :: r <= j < |keys| ==> key < keys[j]
      {
        var mid := l + (r - l) / 2;
        if key == keys[mid] {
          return mid;
        } else if key < keys[mid] {
          r := mid;
        } else {
          l := mid + 1;
        }
      }
      return l;
    }

    /** The child slot that `FindLeafPage`, `FindAndLock` and `Remove` derive from `KeyIndex`. */
    method ChildSlot(key: int, ghost g: Guards) returns (i: nat)
      requires id in g.held
      requires !isLeaf && Shape() && SortedKeys(keys) && |kids| > 0
      ensures i == Route(Seps(), key) && i < |kids|
    {
      hide Sound, Tidy;
      var index: int := InternalKeyIndex(key, g);
      if index >= |kids| {
        index := index - 1;
      } else if key != keys[index] {
        index := index - 1;
      }
      if index < 0 {
        index := 0;
      }
      RouteIs(Seps(), key, index);
      i := index;
    }

    // ----- leaf slots -----

    method InsertItem(index: nat, it: Item, ghost g: Guards)
      requires id in g.held
      requires isLeaf && index <= |items|
      modifies this`items
      ensures items == InsertAt(old(items), index, it)
    {
      hide InsertAt, Opening, Sound, Tidy;
      ghost var was := items;
      var i := |items|;
      items := items + [it];
      OpeningStart(was, it);
      while i > index
        invariant index <= i < |items| == |was| + 1 && Opening(was, items, i)
      {
        OpeningStep(was, items, i);
        items := items[i := items[i - 1]];
        i := i - 1;
      }
      OpeningDone(was, items, index, it);
      items := items[index := it];
    }

    method RemoveItem(index: nat, ghost g: Guards)
      requires id in g.held
      requires isLeaf && index < |items|
      modifies this`items
      ensures items == RemoveAt(old(items), index)
    {
      hide RemoveAt, Closing, Sound, Tidy;
      ghost var was := items;
      var i := index;
      ClosingStart(was, index);
      while i < |items| - 1
        invariant index <= i < |items| == |was| && Closing(was, items, index, i)
      {
        ClosingStep(was, items, index, i);
        items := items[i := items[i + 1]];
        i := i + 1;
      }
      ClosingDone(was, items, index);
      items := items[..|items| - 1];
    }

    /** Moves the slots from `from` on to the end of `dst`: the loop of a leaf split and of a leaf merge. */
    method MoveItems(dst: Page, from: nat, ghost g: Guards)
      requires id in g.held && dst.id in g.held
      requires isLeaf && dst.isLeaf && dst != this && from <= |items|
      modifies this`items, dst`items
      ensures items == old(items)[..from]
      ensures dst.items == old(dst.items) + old(items)[from..]
    {
      hide Sound, Tidy;
      var j := from;
      while j < |items|
        invariant from <= j <= |items| && items == old(items)
        invariant dst.items == old(dst.items) + old(items)[from..j]
      {
        dst.items := dst.items + [items[j]];
        j := j + 1;
      }
      items := items[..from];
    }

    // ----- internal slots -----

    /** Opens slot `index` in both arrays and fills it. */
    method InsertChild(index: nat, key: int, kid: PageId, ghost g: Guards)
      requires id in g.held
      requires !isLeaf && Shape() && 1 <= index <= |kids|
      modifies this`keys, this`kids
      ensures Shape() && keys == InsertAt(old(keys), index, key) && kids == InsertAt(old(kids), index, kid)
      ensures Seps() == InsertAt(old(Seps()), index - 1, key)
    {
      hide InsertAt, Opening, Sound, Tidy;
      ghost var k, c := keys, kids;
      var i := |kids|;
      keys, kids := keys + [key], kids + [kid];
      OpeningStart(k, key);
      OpeningStart(c, kid);
      while i > index
        invariant index <= i < |kids| == |keys| == |k| + 1 && Opening(k, keys, i) && Opening(c, kids, i)
      {
        OpeningStep(k, keys, i);
        OpeningStep(c, kids, i);
        keys, kids := keys[i := keys[i - 1]], kids[i := kids[i - 1]];
        i := i - 1;
      }
      OpeningDone(k, keys, index, key);
      OpeningDone(c, kids, index, kid);
      keys, kids := keys[index := key], kids[index := kid];
      InsertTail(k, index, key);
    }

    /** Closes slot `index` in both arrays. */
    method RemoveChild(index: nat, ghost g: Guards)
      requires id in g.held
      requires !isLeaf && Shape() && 1 <= index < |kids|
      modifies this`keys, this`kids
      ensures Shape() && keys == RemoveAt(old(keys), index) && kids == RemoveAt(old(kids), index)
      ensures Seps() == RemoveAt(old(Seps()), index - 1)
    {
      hide RemoveAt, Closing, Sound, Tidy;
      ghost var k, c := keys, kids;
      var i := index;
      ClosingStart(k, index);
      ClosingStart(c, index);
      while i < |kids| - 1
        invariant index <= i < |kids| == |keys| == |k| && Closing(k, keys, index, i) && Closing(c, kids, index, i)
      {
        ClosingStep(k, keys, index, i);
        ClosingStep(c, kids, index, i);
        keys, kids := keys[i := keys[i + 1]], kids[i := kids[i + 1]];
        i := i + 1;
      }
      ClosingDone(k, keys, index);
      ClosingDone(c, kids, index);
      keys, kids := keys[..|keys| - 1], kids[..|kids| - 1];
      RemoveTail(k, index);
    }

    /** Moves the slots from `from` up to `to` to the end of `dst` and leaves the source alone. */
    method CopyChildren(dst: Page, from: nat, to: nat, ghost g: Guards)
      requires id in g.held && dst.id in g.held
      requires !isLeaf && Shape() && !dst.isLeaf && dst.Shape() && dst != this && from <= to <= |kids|
      modifies dst`keys, dst`kids
      ensures dst.keys == old(dst.keys) + keys[from..to] && dst.kids == old(dst.kids) + kids[from..to]
    {
      hide Sound, Tidy;
      var i := from;
      while i < to
        invariant from <= i <= to
        invariant dst.keys == old(dst.keys) + keys[from..i] && dst.kids == old(dst.kids) + kids[from..i]
      {
        dst.keys, dst.kids := dst.keys + [keys[i]], dst.kids + [kids[i]];
        i := i + 1;
      }
    }

    /** Drops the slots from `n` on. */
    method Truncate(n: nat, ghost g: Guards)
      requires id in g.held
      requires !isLeaf && Shape() && n <= |kids|
      modifies this`keys, this`kids
      ensures Shape() && keys == old(keys)[..n] && kids == old(kids)[..n]
    {
      hide Sound, Tidy;
      keys, kids := keys[..n], kids[..n];
    }

    /** Appends one slot. */
    method Append(key: int, kid: PageId, ghost g: Guards)
      requires id in g.held
      requires !isLeaf && Shape()
      modifies this`keys, this`kids
      ensures Shape() && keys == old(keys) + [key] && kids == old(kids) + [kid]
    {
      hide Sound, Tidy;
      keys, kids := keys + [key], kids + [kid];
    }

    /** A new root: the old root in slot 0 and its new sibling behind it. */
    method FillRoot(left: PageId, up: int, right: PageId, ghost g: Guards)
      requires id in g.held
      requires !isLeaf && keys == [] && kids == []
      modifies this`keys, this`kids
      ensures Shape() && Seps() == [up] && kids == [left, right]
    {
      hide Sound, Tidy;
      Append(0, left, g);
      assert keys == [0] && kids == [left];
      var index := InternalKeyIndex(up, g);
      InsertChild(index, up, right, g);
    }

    /** Shifts every slot up by one; slots 0 and 1 then hold the same entry. */
    method OpenFront(ghost g: Guards)
      requires id in g.held
      requires !isLeaf && Shape() && kids != []
      modifies this`keys, this`kids
      ensures Shape() && keys == [old(keys)[0]] + old(keys) && kids == [old(kids)[0]] + old(kids)
    {
      hide Opening, Sound, Tidy;
      ghost var k, c := keys, kids;
      var i := |kids|;
      keys, kids := keys + [0], kids + [INVALID_PAGE_ID];
      OpeningStart(k, 0);
      OpeningStart(c, INVALID_PAGE_ID);
      while i > 0
        invariant 0 <= i < |kids| == |keys| == |k| + 1 && Opening(k, keys, i) && Opening(c, kids, i)
        invariant i < |k| ==> keys[i] == k[i] && kids[i] == c[i]
      {
        OpeningStep(k, keys, i);
        OpeningStep(c, kids, i);
        keys, kids := keys[i := keys[i - 1]], kids[i := kids[i - 1]];
        i := i - 1;
      }
      OpenedFront(k, keys);
      OpenedFront(c, kids);
    }

    /** Shifts every slot down by one, dropping the first child; slot 0 of the key array is cleared. */
    method CloseFront(ghost g: Guards)
      requires id in g.held
      requires !isLeaf && Shape() && kids != []
      modifies this`keys, this`kids
      ensures Shape() && kids == old(kids)[1..]
      ensures |old(kids)| > 1 ==> Seps() == old(Seps())[1..]
    {
      hide Closing, Sound, Tidy;
      ghost var k, c := keys, kids;
      var i := 0;
      ClosingStart(k, 0);
      ClosingStart(c, 0);
      while i < |kids| - 1
        invariant 0 <= i < |kids| == |keys| == |k| && Closing(k, keys, 0, i) && Closing(c, kids, 0, i)
      {
        ClosingStep(k, keys, 0, i);
        ClosingStep(c, kids, 0, i);
        keys, kids := keys[i := keys[i + 1]], kids[i := kids[i + 1]];
        i := i + 1;
      }
      ClosedFront(k, keys, 0);
      ClosedFront(c, kids, 0);
      keys := keys[0 := 0];
      keys, kids := keys[..|keys| - 1], kids[..|kids| - 1];
    }

    /** This page and `dst` hold the slots of `k`, `c` with (`key`, `kid`) inserted at `index`, cut at `m`. */
    ghost predicate CutInTwo(dst: Page, k: seq<int>, c: seq<PageId>, index: nat, key: int, kid: PageId, m: nat, up: int)
      requires |k| == |c| && 1 <= index <= |c| && 1 <= m <= |c|
      reads this, dst
    {
      Shape() && dst.Shape() && CutSlots(keys, kids, dst.keys, dst.kids, k, c, index, key, kid, m, up)
    }

    /** The new child becomes the first child of the new page. */
    method SplitAt(dst: Page, mid: nat, key: int, kid: PageId, ghost g: Guards)
      requires id in g.held && dst.id in g.held
      requires !isLeaf && Shape() && dst != this && !dst.isLeaf && dst.keys == [] && dst.kids == []
      requires 1 <= mid <= |kids|
      modifies this`keys, this`kids, dst`keys, dst`kids
      ensures CutInTwo(dst, old(keys), old(kids), mid, key, kid, mid, key)
    {
      hide InsertAt, CutSlots, Sound, Tidy;
      ghost var k, c := keys, kids;
      dst.Append(0, kid, g);
      CopyChildren(dst, mid, |kids|, g);
      Truncate(mid, g);
      assert dst.keys == [0] + k[mid..] && dst.kids == [kid] + c[mid..];
      SplitAtCase(k, c, mid, key, kid);
    }

    /** The new child goes to the left page, which gives one more child away. */
    method SplitBelow(dst: Page, index: nat, m: nat, key: int, kid: PageId, ghost g: Guards) returns (up: int)
      requires id in g.held && dst.id in g.held
      requires !isLeaf && Shape() && dst != this && !dst.isLeaf && dst.keys == [] && dst.kids == []
      requires 1 <= index < m <= |kids|
      modifies this`keys, this`kids, dst`keys, dst`kids
      ensures CutInTwo(dst, old(keys), old(kids), index, key, kid, m, up)
    {
      hide InsertAt, CutSlots, Sound, Tidy;
      ghost var k, c := keys, kids;
      var mid := m - 1;
      up := keys[mid];
      dst.Append(0, kids[mid], g);
      assert dst.keys == [0] && dst.kids == [c[mid]];
      CopyChildren(dst, mid + 1, |kids|, g);
      assert k[m..|k|] == k[m..] && c[m..|c|] == c[m..];
      Truncate(mid, g);
      InsertChild(index, key, kid, g);
      SplitBelowCase(k, c, index, key, kid, m);
    }

    /** The new child goes into the middle of the new page. */
    method SplitAbove(dst: Page, index: nat, mid: nat, key: int, kid: PageId, ghost g: Guards) returns (up: int)
      requires id in g.held && dst.id in g.held
      requires !isLeaf && Shape() && dst != this && !dst.isLeaf && dst.keys == [] && dst.kids == []
      requires 1 <= mid < index <= |kids|
      modifies this`keys, this`kids, dst`keys, dst`kids
      ensures CutInTwo(dst, old(keys), old(kids), index, key, kid, mid, up)
    {
      hide InsertAt, CutSlots, Sound, Tidy;
      ghost var k, c := keys, kids;
      up := keys[mid];
      dst.Append(0, kids[mid], g);
      assert dst.keys == [0] && dst.kids == [c[mid]];
      CopyChildren(dst, mid + 1, index, g);
      dst.Append(key, kid, g);
      CopyChildren(dst, index, |kids|, g);
      Truncate(mid, g);
      assert dst.keys == [0] + k[mid + 1..index] + [key] + k[index..];
      assert dst.kids == [c[mid]] + c[mid + 1..index] + [kid] + c[index..];
      SplitAboveCase(k, c, index, key, kid, mid);
    }

    /**
     * Splits a full page while inserting a child, `dst` being the new right page: the three cases of the code.
     * Whatever the case, the result is "insert, then cut at the minimum size".
     */
    method InsertAndSplit(dst: Page, index: nat, key: int, kid: PageId, ghost g: Guards) returns (up: int)
      requires id in g.held && dst.id in g.held
      requires !isLeaf && Shape() && dst != this && !dst.isLeaf && dst.keys == [] && dst.kids == []
      requires 1 <= index <= |kids| && 1 <= MinSize() <= |kids|
      modifies this`keys, this`kids, dst`keys, dst`kids
      ensures CutInTwo(dst, old(keys), old(kids), index, key, kid, MinSize(), up)
    {
      hide CutSlots, Sound, Tidy;
      var mid := MinSize();
      if mid == index {
        SplitAt(dst, mid, key, kid, g);
        up := key;
      } else if index < mid {
        up := SplitBelow(dst, index, mid, key, kid, g);
      } else {
        up := SplitAbove(dst, index, mid, key, kid, g);
      }
    }

    /** `Merge`: the separator and every slot of `r` move to the end of `this`, and the parent slot goes. */
    method MergeFrom(r: Page, parent: Page, parentIndex: nat, ghost g: Guards)
      requires id in g.held && r.id in g.held && parent.id in g.held
      requires !isLeaf && Shape() && !r.isLeaf && r.Shape() && !parent.isLeaf && parent.Shape()
      requires this != r && this != parent && r != parent
      requires r.kids != [] && kids != [] && 1 <= parentIndex < |parent.kids|
      modifies this`keys, this`kids, r`keys, r`kids, parent`keys, parent`kids
      ensures Shape() && r.Shape() && parent.Shape() && r.kids == []
      ensures kids == old(kids) + old(r.kids)
      ensures Seps() == old(Seps()) + [old(parent.keys)[parentIndex]] + old(r.Seps())
      ensures parent.kids == RemoveAt(old(parent.kids), parentIndex)
      ensures parent.Seps() == RemoveAt(old(parent.Seps()), parentIndex - 1)
    {
      hide RemoveAt, Sound, Tidy;
      MovedOver(kids, parent.keys[parentIndex], r.kids);
      MovedOver(keys, parent.keys[parentIndex], r.keys);
      MovedOver(kids, 0, r.kids);
      Append(parent.keys[parentIndex], r.kids[0], g);
      r.CopyChildren(this, 1, |r.kids|, g);
      r.Truncate(0, g);
      parent.RemoveChild(parentIndex, g);
    }

    // ----- borrowing and merging; `this` is the page under repair, or the left page of a merge -----

    /** The last item of the left sibling becomes the first item; it is the new separator. */
    method BorrowItemLeft(l: Page, parent: Page, parentIndex: nat, ghost g: Guards)
      requires id in g.held && l.id in g.held && parent.id in g.held
      requires isLeaf && l.isLeaf && l != this && l.items != []
      requires !parent.isLeaf && parent.Shape() && 1 <= parentIndex < |parent.kids|
      modifies this`items, l`items, parent`keys
      ensures l.items == old(l.items)[..|old(l.items)| - 1] && items == [old(l.items)[|old(l.items)| - 1]] + old(items)
      ensures parent.Shape() && parent.Seps() == old(parent.Seps())[parentIndex - 1 := items[0].key]
    {
      hide Sound, Tidy;
      InsertItem(0, l.items[|l.items| - 1], g);
      l.items := l.items[..|l.items| - 1];
      parent.keys := parent.keys[parentIndex := items[0].key];
    }

    /** The first item of the right sibling becomes the last item; the sibling's next item is the new separator. */
    method BorrowItemRight(r: Page, parent: Page, parentIndex: nat, ghost g: Guards)
      requires id in g.held && r.id in g.held && parent.id in g.held
      requires isLeaf && r.isLeaf && r != this && |r.items| > 1
      requires !parent.isLeaf && parent.Shape() && parentIndex + 1 < |parent.kids|
      modifies this`items, r`items, parent`keys
      ensures r.items == old(r.items)[1..] && items == old(items) + [old(r.items)[0]]
      ensures parent.Shape() && parent.Seps() == old(parent.Seps())[parentIndex := r.items[0].key]
    {
      hide Sound, Tidy;
      items := items + [r.items[0]];
      r.RemoveItem(0, g);
      parent.keys := parent.keys[parentIndex + 1 := r.items[0].key];
    }

    /** Every item of `r` moves to the end of `this`, which takes over its place in the leaf chain. */
    method MergeLeafFrom(r: Page, parent: Page, parentIndex: nat, ghost g: Guards)
      requires id in g.held && r.id in g.held && parent.id in g.held
      requires isLeaf && r.isLeaf && r != this
      requires !parent.isLeaf && parent.Shape() && 1 <= parentIndex < |parent.kids|
      modifies this`items, this`next, r`items, parent`keys, parent`kids
      ensures items == old(items) + old(r.items) && next == r.next && r.items == []
      ensures parent.Shape() && parent.kids == RemoveAt(old(parent.kids), parentIndex)
      ensures parent.Seps() == RemoveAt(old(parent.Seps()), parentIndex - 1)
    {
      hide Sound, Tidy;
      r.MoveItems(this, 0, g);
      next := r.next;
      parent.RemoveChild(parentIndex, g);
    }

    /** The last child of the left sibling becomes the first child; the separators rotate through the parent. */
    method BorrowChildLeft(l: Page, parent: Page, parentIndex: nat, ghost g: Guards)
      requires id in g.held && l.id in g.held && parent.id in g.held
      requires !isLeaf && Shape() && kids != [] && !l.isLeaf && l.Shape() && |l.kids| > 1
      requires !parent.isLeaf && parent.Shape() && 1 <= parentIndex < |parent.kids|
      requires l != this && parent != this && parent != l
      modifies this`keys, this`kids, l`keys, l`kids, parent`keys
      ensures Shape() && l.Shape() && parent.Shape()
      ensures var n := |old(l.kids)| - 1;
        && l.kids == old(l.kids)[..n] && l.Seps() == old(l.Seps())[..n - 1]
        && kids == [old(l.kids)[n]] + old(kids) && Seps() == [old(parent.Seps())[parentIndex - 1]] + old(Seps())
        && parent.Seps() == old(parent.Seps())[parentIndex - 1 := old(l.Seps())[n - 1]]
    {
      hide Sound, Tidy;
      var n := |l.kids| - 1;
      ghost var k, c := keys, kids;
      OpenFront(g);
      keys, kids := keys[1 := parent.keys[parentIndex]], kids[0 := l.kids[n]];
      FrontSet(k, c, parent.keys[parentIndex], l.kids[n]);
      parent.keys := parent.keys[parentIndex := l.keys[n]];
      l.Truncate(n, g);
    }

    /** The first child of the right sibling becomes the last child; the separators rotate through the parent. */
    method BorrowChildRight(r: Page, parent: Page, parentIndex: nat, ghost g: Guards)
      requires id in g.held && r.id in g.held && parent.id in g.held
      requires !isLeaf && Shape() && kids != [] && !r.isLeaf && r.Shape() && |r.kids| > 1
      requires !parent.isLeaf && parent.Shape() && parentIndex + 1 < |parent.kids|
      requires r != this && parent != this && parent != r
      modifies this`keys, this`kids, r`keys, r`kids, parent`keys
      ensures Shape() && r.Shape() && parent.Shape()
      ensures r.kids == old(r.kids)[1..] && r.Seps() == old(r.Seps())[1..]
      ensures kids == old(kids) + [old(r.kids)[0]] && Seps() == old(Seps()) + [old(parent.Seps())[parentIndex]]
      ensures parent.Seps() == old(parent.Seps())[parentIndex := old(r.Seps())[0]]
    {
      hide Sound, Tidy;
      Append(parent.keys[parentIndex + 1], r.kids[0], g);
      parent.keys := parent.keys[parentIndex + 1 := r.keys[1]];
      r.CloseFront(g);
    }

    // ----- the same for either kind of page -----

    /** This page and its right neighbour, with the separator in slot `slot` of the parent between them. */
    ghost function Beside(parent: Page, slot: nat, r: Page): Sides
      requires 1 <= slot <= |parent.Seps()|
      reads this, parent, r
    {
      Sides(Value(), parent.Seps()[slot - 1], r.Value())
    }

    /** The last entry of the left page moves to the front of this one. */
    method TakeFromLeft(l: Page, parent: Page, slot: nat, ghost g: Guards)
      requires id in g.held && l.id in g.held && parent.id in g.held
      requires l != this && parent != this && parent != l && Shape() && l.Shape() && !parent.isLeaf && parent.Shape()
      requires 1 <= slot < |parent.kids| && Alike(l.Beside(parent, slot, this)) && l.Size() > 1
      modifies this`items, this`keys, this`kids, l`items, l`keys, l`kids, parent`keys
      ensures Shape() && l.Shape() && parent.Shape() && |parent.Seps()| == |old(parent.Seps())|
      ensures l.Beside(parent, slot, this) == Shared(old(l.Beside(parent, slot, this)), old(l.Size()) - 1)
      ensures parent.Seps() == old(parent.Seps())[slot - 1 := parent.Seps()[slot - 1]]
    {
      hide Sound, Tidy;
      ghost var was := l.Beside(parent, slot, this);
      if IsLeaf(g) {
        BorrowItemLeft(l, parent, slot, g);
        LastItem(was);
      } else {
        BorrowChildLeft(l, parent, slot, g);
        LastChild(was);
      }
    }

    /** The first entry of the right page moves to the end of this one. */
    method TakeFromRight(r: Page, parent: Page, slot: nat, ghost g: Guards)
      requires id in g.held && r.id in g.held && parent.id in g.held
      requires r != this && parent != this && parent != r && Shape() && r.Shape() && !parent.isLeaf && parent.Shape()
      requires slot + 1 < |parent.kids| && Alike(Beside(parent, slot + 1, r)) && r.Size() > 1
      modifies this`items, this`keys, this`kids, r`items, r`keys, r`kids, parent`keys
      ensures Shape() && r.Shape() && parent.Shape() && |parent.Seps()| == |old(parent.Seps())|
      ensures Beside(parent, slot + 1, r) == Shared(old(Beside(parent, slot + 1, r)), old(Size()) + 1)
      ensures parent.Seps() == old(parent.Seps())[slot := parent.Seps()[slot]]
    {
      hide Sound, Tidy;
      ghost var was := Beside(parent, slot + 1, r);
      if IsLeaf(g) {
        BorrowItemRight(r, parent, slot, g);
        FirstItem(was);
      } else {
        BorrowChildRight(r, parent, slot, g);
        FirstChild(was);
      }
    }

    /** The right page is emptied into this one, and its slot leaves the parent. */
    method Absorb(r: Page, parent: Page, slot: nat, ghost g: Guards)
      requires id in g.held && r.id in g.held && parent.id in g.held
      requires r != this && parent != this && parent != r && Shape() && r.Shape() && !parent.isLeaf && parent.Shape()
      requires 1 <= slot < |parent.kids| && Alike(Beside(parent, slot, r))
      modifies this`items, this`next, this`keys, this`kids, r`items, r`keys, r`kids, parent`keys, parent`kids
      ensures Shape() && r.Shape() && parent.Shape() && Value() == Joined(old(Beside(parent, slot, r)))
      ensures parent.kids == RemoveAt(old(parent.kids), slot) && parent.Seps() == RemoveAt(old(parent.Seps()), slot - 1)
    {
      hide RemoveAt, Sound, Tidy;
      if IsLeaf(g) {
        MergeLeafFrom(r, parent, slot, g);
      } else {
        MergeFrom(r, parent, slot, g);
      }
    }
  }

  lemma LastItem(v: Sides)
    requires Alike(v) && v.left.LeafPage? && |v.left.items| > 1
    ensures var n, l := |v.left.items| - 1, v.left.items;
      Shared(v, n) == Sides(LeafPage(l[..n], v.left.next), l[n].key, LeafPage([l[n]] + v.right.items, v.right.next))
  {
    var n, l, all := |v.left.items| - 1, v.left.items, v.left.items + v.right.items;
    assert all[..n] == l[..n] && all[n..] == [l[n]] + v.right.items;
  }

  lemma LastChild(v: Sides)
    requires Alike(v) && v.left.InternalPage? && |v.left.children| > 1
    ensures var n, s, c := |v.left.children| - 1, v.left.seps, v.left.children;
      Shared(v, n) == Sides(InternalPage(s[..n - 1], c[..n]), s[n - 1], InternalPage([v.sep] + v.right.seps, [c[n]] + v.right.children))
  {
    var n, s, c := |v.left.children| - 1, v.left.seps + [v.sep] + v.right.seps, v.left.children + v.right.children;
    assert c[..n] == v.left.children[..n] && c[n..] == [v.left.children[n]] + v.right.children;
    assert s[..n - 1] == v.left.seps[..n - 1] && s[n..] == [v.sep] + v.right.seps;
  }

  lemma FirstItem(v: Sides)
    requires Alike(v) && v.left.LeafPage? && |v.right.items| > 1
    ensures var l, r := v.left.items, v.right.items;
      Shared(v, |l| + 1) == Sides(LeafPage(l + [r[0]], v.left.next), r[1].key, LeafPage(r[1..], v.right.next))
  {
    var n, all := |v.left.items| + 1, v.left.items + v.right.items;
    assert all[..n] == v.left.items + [v.right.items[0]] && all[n..] == v.right.items[1..];
  }

  lemma FirstChild(v: Sides)
    requires Alike(v) && v.left.InternalPage? && |v.right.children| > 1
    ensures var s, c := v.right.seps, v.right.children;
      Shared(v, |v.left.children| + 1) ==
        Sides(InternalPage(v.left.seps + [v.sep], v.left.children + [c[0]]), s[0], InternalPage(s[1..], c[1..]))
  {
    var n, s, c := |v.left.children|, v.left.seps + [v.sep] + v.right.seps, v.left.children + v.right.children;
    assert c[..n + 1] == v.left.children + [v.right.children[0]] && c[n + 1..] == v.right.children[1..];
    assert s[..n] == v.left.seps + [v.sep] && s[n + 1..] == v.right.seps[1..];
  }

  /** The slots behind `i` have been shifted up by one, slot `i` is free. */
  ghost predicate Opening<T(!new)>(was: seq<T>, now: seq<T>, i: nat) {
    && i < |now| == |was| + 1
    && (forall j :: 0 <= j < i ==> now[j] == was[j]) && (forall j :: i < j < |now| ==> now[j] == was[j - 1])
  }

  lemma OpeningStart<T(!new)>(was: seq<T>, x: T)
    ensures Opening(was, was + [x], |was|)
  {
  }

  lemma OpeningStep<T(!new)>(was: seq<T>, now: seq<T>, i: nat)
    requires Opening(was, now, i) && i > 0
    ensures i < |now| && Opening(was, now[i := now[i - 1]], i - 1) && now[i - 1] == was[i - 1]
  {
  }

  /** Shifting the slots from `index` on up by one and filling the slot is an insertion. */
  lemma OpeningDone<T(!new)>(was: seq<T>, now: seq<T>, index: nat, x: T)
    requires Opening(was, now, index)
    ensures index < |now| && now[index := x] == InsertAt(was, index, x)
  {
  }

  lemma OpenedFront<T(!new)>(was: seq<T>, now: seq<T>)
    requires Opening(was, now, 0) && was != [] && now[0] == was[0]
    ensures now == [was[0]] + was
  {
  }

  /** The slots from `index` up to `i` have been filled from the slot behind. */
  ghost predicate Closing<T(!new)>(was: seq<T>, now: seq<T>, index: nat, i: nat) {
    && index <= i < |now| == |was|
    && (forall j :: 0 <= j < i ==> now[j] == was[if j < index then j else j + 1]) && (forall j :: i < j < |now| ==> now[j] == was[j])
  }

  lemma ClosingStart<T(!new)>(was: seq<T>, index: nat)
    requires index < |was|
    ensures Closing(was, was, index, index)
  {
  }

  lemma ClosingStep<T(!new)>(was: seq<T>, now: seq<T>, index: nat, i: nat)
    requires Closing(was, now, index, i) && i + 1 < |was|
    ensures i + 1 < |now| && Closing(was, now[i := now[i + 1]], index, i + 1)
  {
  }

  /** Filling the slots from `index` on from the slot behind and dropping the last one is a removal. */
  lemma ClosingDone<T(!new)>(was: seq<T>, now: seq<T>, index: nat)
    requires was != [] && Closing(was, now, index, |was| - 1)
    ensures |now| == |was| > index && now[..|now| - 1] == RemoveAt(was, index)
  {
  }

  lemma ClosedFront<T(!new)>(was: seq<T>, now: seq<T>, x: T)
    requires was != [] && Closing(was, now, 0, |was| - 1)
    ensures |now| == |was| && now[..|now| - 1] == was[1..]
    ensures |was| > 1 ==> now[0 := x][..|now| - 1][1..] == was[2..]
  {
  }

  lemma MovedOver<T>(a: seq<T>, x: T, r: seq<T>)
    requires r != []
    ensures a + [r[0]] + r[1..|r|] == a + r
    ensures a != [] ==> (a + [x] + r[1..|r|])[1..] == a[1..] + [x] + r[1..]
  {
  }

  lemma FrontSet(k: seq<int>, c: seq<PageId>, key: int, kid: PageId)
    requires k != [] && c != []
    ensures ([k[0]] + k)[1 := key][1..] == [key] + k[1..] && ([c[0]] + c)[0 := kid] == [kid] + c
  {
  }

  lemma FrontKey(a: seq<int>, key: int, b: seq<int>)
    ensures ([0] + a + [key] + b)[1..] == a + [key] + b
  {
  }

  /** Keys and children of a left and a right page are those of `k` and `c` after the insertion, cut at `m`. */
  ghost predicate CutSlots(lk: seq<int>, lc: seq<PageId>, rk: seq<int>, rc: seq<PageId>,
                           k: seq<int>, c: seq<PageId>, index: nat, key: int, kid: PageId, m: nat, up: int)
    requires |k| == |c| && 1 <= index <= |c| && 1 <= m <= |c|
  {
    var s, d := InsertAt(k[1..], index - 1, key), InsertAt(c, index, kid);
    && lk != [] && rk != [] && lk[1..] == s[..m - 1] && lc == d[..m] && up == s[m - 1] && rk[1..] == s[m..] && rc == d[m..]
  }

  /** Cutting behind an insertion. */
  lemma CutBehind<T>(s: seq<T>, i: nat, x: T, m: nat)
    requires i < m <= |s| + 1
    ensures InsertAt(s, i, x)[..m] == InsertAt(s[..m - 1], i, x) && InsertAt(s, i, x)[m..] == s[m - 1..]
  {
    var a, b := s[..i] + [x] + s[i..m - 1], s[m - 1..];
    assert s[i..] == s[i..m - 1] + b;
    assert InsertAt(s, i, x) == a + b;
    assert s[..m - 1][..i] == s[..i] && s[..m - 1][i..] == s[i..m - 1];
  }

  /** Cutting in front of an insertion. */
  lemma CutInFront<T>(s: seq<T>, i: nat, x: T, m: nat)
    requires m <= i <= |s|
    ensures InsertAt(s, i, x)[..m] == s[..m] && InsertAt(s, i, x)[m..] == s[m..i] + [x] + s[i..]
  {
    var a, b := s[..m], s[m..i] + [x] + s[i..];
    assert s[..i] == a + s[m..i];
    assert InsertAt(s, i, x) == a + b;
  }

  lemma SplitAtCase(k: seq<int>, c: seq<PageId>, m: nat, key: int, kid: PageId)
    requires |k| == |c| && 1 <= m <= |c|
    ensures CutSlots(k[..m], c[..m], [0] + k[m..], [kid] + c[m..], k, c, m, key, kid, m, key)
  {
    CutInFront(k[1..], m - 1, key, m - 1);
    CutInFront(c, m, kid, m);
    CutBehind(k[1..], m - 1, key, m);
    hide InsertAt;
    assert k[1..][..m - 1] == k[..m][1..] && k[1..][m - 1..] == k[m..] == ([0] + k[m..])[1..];
    assert c[m..m] == [];
  }

  lemma SplitBelowCase(k: seq<int>, c: seq<PageId>, index: nat, key: int, kid: PageId, m: nat)
    requires |k| == |c| && 1 <= index < m <= |c|
    ensures CutSlots(InsertAt(k[..m - 1], index, key), InsertAt(c[..m - 1], index, kid), [0] + k[m..], [c[m - 1]] + c[m..],
                     k, c, index, key, kid, m, k[m - 1])
  {
    hide InsertAt;
    var tail := k[1..];
    CutBehind(tail, index - 1, key, m - 1);
    CutBehind(tail, index - 1, key, m);
    CutBehind(c, index, kid, m);
    InsertTail(k[..m - 1], index, key);
    assert tail[..m - 2] == k[..m - 1][1..] && tail[m - 1..] == k[m..] == ([0] + k[m..])[1..];
    assert InsertAt(tail, index - 1, key)[m - 1..][0] == tail[m - 2..][0];
  }

  lemma SplitAboveCase(k: seq<int>, c: seq<PageId>, index: nat, key: int, kid: PageId, m: nat)
    requires |k| == |c| && 1 <= m < index <= |c|
    ensures CutSlots(k[..m], c[..m], [0] + k[m + 1..index] + [key] + k[index..], [c[m]] + c[m + 1..index] + [kid] + c[index..],
                     k, c, index, key, kid, m, k[m])
  {
    hide InsertAt;
    var tail := k[1..];
    CutInFront(tail, index - 1, key, m - 1);
    CutInFront(tail, index - 1, key, m);
    CutInFront(c, index, kid, m);
    FrontKey(k[m + 1..index], key, k[index..]);
    assert tail[..m - 1] == k[..m][1..];
    assert tail[m..index - 1] == k[m + 1..index] && tail[index - 1..] == k[index..];
    assert InsertAt(tail, index - 1, key)[..m][m - 1] == tail[..m][m - 1];
    assert c[m..index] == [c[m]] + c[m + 1..index];
  }

  lemma LeafIndexAt(items: seq<Item>, i: nat)
    requires Sorted(items) && i < |items|
    ensures LeafIndex(items, items[i].key) == i
  {
    LeafIndexBounds(items, items[i].key);
  }

  lemma InsertTail(s: seq<int>, i: nat, x: int)
    requires 1 <= i <= |s|
    ensures InsertAt(s, i, x)[1..] == InsertAt(s[1..], i - 1, x)
  {
  }

  lemma RemoveTail(s: seq<int>, i: nat)
    requires 1 <= i < |s|
    ensures RemoveAt(s, i)[1..] == RemoveAt(s[1..], i - 1)
  {
  }
}
