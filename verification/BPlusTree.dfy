/**
 * The B+ tree over pages: `GetValue`, `Insert` and `Remove` as the code runs them, page by page.
 *
 * `pages` holds the page objects by id, as the buffer pool hands them out. A page is only obtained by `Acquire` or
 * `NewPage`, which take its guard, and only read or changed while the guard is held; the ghost value `g` that goes
 * with every operation is the history of its guards.
 */
module BPlusTrees {
  import opened Latches
  import opened Types
  import opened Pages
  import opened TreeAscent
  import opened TreeModel
  import opened TreeInsert
  import opened TreeRemove
  import opened TreeSearch
  import opened TreeStore
  import opened Zipper

  /** The pages a search for `key` passes through, root first. */
  ghost function SearchPath(root: Option<Tree>, key: int): seq<PageId> {
    if root.None? then [] else PathIds(Descend([], root.value, key).path) + [Descend([], root.value, key).leaf.id]
  }

  lemma NoPath(key: int, header: PageId)
    ensures SearchPath(None, key) == [] && SetOf(SearchPath(None, key) + [header]) == {header}
  {
    HeaderOnly(header);
  }

  class BPlusTree {
    const cfg: Config
    const headerId: PageId
    /** `root_page_id_` on the header page. */
    var rootId: PageId
    var pages: map<PageId, Page>
    /** The buffer pool's `next_page_id_`. */
    var nextId: PageId
    ghost var root: Option<Tree>

    ghost function Snap(): Store
      reads this`pages, pages.Values
    {
      map id | id in pages :: pages[id].Value()
    }

    ghost predicate StoreOk()
      reads this`pages, this`nextId, pages.Values
    {
      && cfg.Ok() && 0 <= headerId < nextId && headerId !in pages
      && (forall id :: id in pages ==>
            && 0 <= id < nextId && pages[id].id == id && pages[id].Shape()
            && pages[id].maxSize == if pages[id].isLeaf then cfg.leafMax else cfg.internalMax)
    }

    /** The pages hold the tree `root`, rooted at `rootId`. */
    ghost predicate TreeStored()
      reads this`pages, this`nextId, this`root, this`rootId, pages.Values
    {
      match root
      case None => rootId == INVALID_PAGE_ID
      case Some(t) => rootId == t.id && Represents(Snap(), t) && TreeOk(cfg, t, nextId)
    }

    ghost predicate Valid()
      reads this, pages.Values
    {
      StoreOk() && TreeStored()
    }

    /** The finite map the tree stands for. */
    ghost function Contents(): map<int, Rid>
      reads this`root
    {
      if root.None? then map[] else Dict(Items(root.value))
    }

    constructor (header: PageId, firstFree: PageId, leafMax: nat, internalMax: nat)
      requires 0 <= header < firstFree && leafMax >= 2 && internalMax >= 3
      ensures Valid() && Contents() == map[] && cfg == Config(leafMax, internalMax)
    {
      cfg := Config(leafMax, internalMax);
      headerId, rootId, pages, nextId := header, INVALID_PAGE_ID, map[], firstFree;
      root := None;
    }

    // ----- pages and their guards -----

    lemma PageFacts(id: PageId)
      requires StoreOk() && (id in pages || id in Snap())
      ensures id in pages && 0 <= id < nextId && id != headerId && pages[id].id == id && pages[id].Shape() && Snap()[id] == pages[id].Value()
      ensures pages[id].maxSize == if pages[id].isLeaf then cfg.leafMax else cfg.internalMax
      ensures id in Snap() && pages[id] in pages.Values
    {
    }

    lemma StoreFacts()
      requires StoreOk()
      ensures cfg.Ok() && 0 <= headerId < nextId && headerId !in pages && nextId !in Snap()
    {
    }

    /** The only way to a page that exists: its guard, which nobody in this operation may hold already. */
    method Acquire(id: PageId, ghost g: Guards) returns (p: Page, ghost g': Guards)
      requires StoreOk() && (id in pages || id in Snap()) && id !in g.held && g.next == nextId
      ensures id in pages && id in Snap() && p == pages[id] && p.id == id && p.Shape() && Snap()[id] == p.Value() && g' == Locked(g, id)
    {
      hide Sound, Tidy;
      p := pages[id];
      g' := Locked(g, id);
    }

    /** The page behind a guard that is held. */
    method Guarded(id: PageId, ghost g: Guards) returns (p: Page)
      requires StoreOk() && (id in pages || id in Snap()) && id in g.held
      ensures id in pages && id in Snap() && p == pages[id] && p.id == id && p.Shape() && Snap()[id] == p.Value()
    {
      hide Sound, Tidy;
      p := pages[id];
    }

    /** `NewPage`, `WritePage` of the new id and the page's `Init`. */
    method NewPage(leaf: bool, ghost g: Guards) returns (id: PageId, p: Page, ghost g': Guards)
      requires StoreOk() && g.next == nextId
      modifies this`pages, this`nextId
      ensures StoreOk() && id == old(nextId) && nextId == id + 1 && g' == Created(g)
      ensures id !in old(pages) && pages == old(pages)[id := p] && fresh(p) && p.id == id
      ensures p.isLeaf == leaf && p.items == [] && p.keys == [] && p.kids == []
      ensures p.maxSize == (if leaf then cfg.leafMax else cfg.internalMax) && (leaf ==> p.next == INVALID_PAGE_ID)
      ensures SameExcept(old(Snap()), Snap(), {}) && id !in old(Snap()) && id in Snap() && Snap()[id] == p.Value()
    {
      hide Sound, Tidy;
      hide StoreOk, SameExcept, Created, Sound, Tidy;
      StoreFacts();
      id := nextId;
      g' := Created(g);
      p := new Page(id);
      if leaf {
        p.InitLeaf(cfg.leafMax, g');
      } else {
        p.InitInternal(cfg.internalMax, g');
      }
      AddPage(p);
    }

    /** The pool knows one more page. */
    method AddPage(p: Page)
      requires StoreOk() && p.id == nextId && p !in pages.Values && p.Shape()
      requires p.maxSize == if p.isLeaf then cfg.leafMax else cfg.internalMax
      modifies this`pages, this`nextId
      ensures StoreOk() && nextId == old(nextId) + 1 && p.id !in old(pages) && pages == old(pages)[p.id := p]
      ensures SameExcept(old(Snap()), Snap(), {}) && p.id !in old(Snap()) && p.id in Snap() && Snap()[p.id] == p.Value()
    {
      nextId := nextId + 1;
      pages := pages[p.id := p];
    }

    function GetRootPageId(ghost g: Guards): PageId
      requires headerId in g.held
      reads this`rootId
    {
      rootId
    }

    method SetRootPageId(id: PageId, ghost g: Guards)
      requires headerId in g.held
      modifies this`rootId
      ensures rootId == id
    {
      hide Sound, Tidy;
      rootId := id;
    }

    // ----- search -----

    /** One turn of the descent: the child `key` is routed to. */
    method FetchChild(page: Page, key: int, ghost whole: Tree, ghost path: Path, ghost t: Tree, ghost h: nat, ghost g: Guards)
      returns (id: PageId, ghost path': Path, ghost t': Tree)
      requires StoreOk() && TreeOk(cfg, whole, nextId) && Visiting(Snap(), whole, path, t, h, key) && t.Node?
      requires t.id in pages && page == pages[t.id] && t.id in g.held
      ensures h > 0 && Visiting(Snap(), whole, path', t', h - 1, key) && id == t'.id && id in pages
      ensures |path'| == |path| + 1 && PathIds(path') == PathIds(path) + [t.id] && id !in PathIds(path) && id != t.id
    {
      hide Locked, Unlocked, Created, Sound, Tidy, StoreOk, TreeOk, Visiting, Snap;
      PageFacts(t.id);
      ghost var s := Snap();
      VisitPage(s, whole, path, t, h, key);
      SepsSorted(HoleOf(path).lo, t.seps, HoleOf(path).hi, page.keys);
      VisitChild(cfg, s, whole, path, t, h, key, nextId);
      var i := page.ChildSlot(key, g);
      id := page.ValueAt(i, g);
      path', t' := path + [FrameAt(t, i, HoleOf(path))], t.kids[i];
      VisitPage(s, whole, path', t', h - 1, key);
      PageFacts(id);
    }

    /** Locks the pages from the root down to the leaf for `key`; the leaf's id is the last of `writeSet`. */
    method FindAndLock(key: int, ghost g: Guards) returns (writeSet: seq<PageId>, ghost d: Descent, ghost g': Guards)
      requires StoreOk() && TreeStored() && root.Some? && MIN_KEY <= key <= MAX_KEY
      requires g.held == {headerId} && g.count == g.peak == 1 && g.next == nextId
      ensures AtLeaf(cfg, Snap(), root.value, key, d, nextId)
      ensures d == Descend([], root.value, key) && writeSet == SearchPath(root, key) == PathIds(d.path) + [d.leaf.id]
      ensures NoRepeat(writeSet + [headerId]) && g'.held == SetOf(writeSet + [headerId])
      ensures g'.count == g'.peak == 2 + Height(root.value) && g'.first == g.first && g'.next == g.next
    {
      hide Visiting, Locked, Unlocked, Created, Sound, Tidy, SetOf, NoRepeat, Represents, TreeOk, StoreOk, Snap;
      ghost var whole := root.value;
      var id := GetRootPageId(g);
      writeSet := [];
      ghost var path, t, h := [], whole, Height(whole);
      StoreFacts();
      VisitRoot(cfg, Snap(), whole, key, nextId);
      VisitPage(Snap(), whole, path, t, h, key);
      PageFacts(id);
      TwoPages(id, headerId);
      var page;
      page, g' := Acquire(id, g);
      while !page.IsLeaf(g')
        invariant Visiting(Snap(), whole, path, t, h, key)
        invariant id == t.id && id in pages && page == pages[id] && page.id == id && (page.isLeaf <==> t.Leaf?) && writeSet == PathIds(path)
        invariant NoRepeat(writeSet + [id] + [headerId]) && g'.held == SetOf(writeSet + [id] + [headerId])
        invariant id in g'.held && g'.first == g.first && g'.next == g.next
        invariant g'.count == g'.peak == 2 + |path| && |path| + h == Height(whole)
        decreases h
      {
        var child;
        child, path, t := FetchChild(page, key, whole, path, t, h, g');
        PageFacts(child);
        WithOne(writeSet + [id], child, [headerId]);
        InSet(writeSet + [id] + [headerId], child);
        InSet(writeSet + [id] + [child] + [headerId], child);
        writeSet := writeSet + [id];
        page, g' := Acquire(child, g');
        id, h := child, h - 1;
        VisitPage(Snap(), whole, path, t, h, key);
      }
      VisitPage(Snap(), whole, path, t, h, key);
      writeSet := writeSet + [id];
      d := Descent(path, t);
    }

    // ----- insertion -----

    /** What a step hands up, as the code's `up_key` and `new_child_id`. */
    static ghost predicate Announces(u: Carry, up: Option<int>, child: Option<PageId>) {
      match u
      case Fits(_) => up == None && child == None
      case Split(_, key, r) => up == Some(key) && child == Some(r.id)
    }

    /** Moves the upper part of a leaf to an empty page and links that page in behind it. */
    method MoveUpper(page: Page, r: Page, ghost g: Guards)
      requires StoreOk() && page.id in pages && pages[page.id] == page && r.id in pages && pages[r.id] == r && page != r
      requires page.isLeaf && r.isLeaf && r.items == [] && cfg.leafMax <= |page.items| && page.id in g.held && r.id in g.held
      modifies page`items, page`next, r`items, r`next
      ensures StoreOk() && SameExcept(old(Snap()), Snap(), {page.id, r.id})
      ensures Snap()[page.id] == LeafPage(old(page.items)[..cfg.LeafMin()], r.id)
      ensures Snap()[r.id] == LeafPage(old(page.items)[cfg.LeafMin()..], old(page.next))
    {
      hide Sound, Tidy;
      page.MoveItems(r, page.GetMinSize(g), g);
      r.SetNextPageId(page.GetNextPageId(g), g);
      page.SetNextPageId(r.id, g);
    }

    /** Splits a full leaf into itself and a new page. */
    method SplitLeaf(page: Page, ghost g: Guards) returns (newId: PageId, newPage: Page, ghost g': Guards)
      requires StoreOk() && page.id in pages && pages[page.id] == page && page.isLeaf && cfg.leafMax <= |page.items|
      requires page.id in g.held && g.next == nextId
      modifies this`pages, this`nextId, page`items, page`next
      ensures StoreOk() && newId == old(nextId) && nextId == newId + 1 && g' == Created(g)
      ensures newId !in old(pages) && pages == old(pages)[newId := newPage] && fresh(newPage) && newPage.id == newId
      ensures SameExcept(old(Snap()), Snap(), {page.id}) && page.id in Snap() && newId in Snap()
      ensures Snap()[page.id] == LeafPage(old(page.items)[..cfg.LeafMin()], newId)
      ensures Snap()[newId] == LeafPage(old(page.items)[cfg.LeafMin()..], old(page.next))
    {
      hide Locked, Unlocked, Created, Sound, Tidy, StoreOk, SameExcept;
      ghost var s := Snap();
      PageFacts(page.id);
      newId, newPage, g' := NewPage(true, g);
      ghost var s1 := Snap();
      MoveUpper(page, newPage, g');
      SameNew(s, s1, Snap(), page.id, newId);
    }

    /**
     * Splits a full leaf; the item goes to slot `index` of `target`, which is the page `guard`. The guard of the other
     * half is dropped.
     */
    method MakeRoom(page: Page, id: PageId, slot: nat, ghost g: Guards)
      returns (target: Page, index: nat, guard: PageId, up: Option<int>, child: Option<PageId>, ghost g': Guards)
      requires StoreOk() && id in pages && pages[id] == page && page.isLeaf && slot <= |page.items| && cfg.leafMax <= |page.items|
      requires id in g.held && g.next == nextId
      modifies this`pages, this`nextId, page`items, page`next
      ensures StoreOk() && fresh(pages.Values - old(pages.Values)) && SameExcept(old(Snap()), Snap(), {id})
      ensures nextId == old(nextId) + 1 && child == Some(old(nextId)) && old(nextId) in pages && id in pages && id != old(nextId)
      ensures var s, m, n := old(page.items), cfg.LeafMin(), old(nextId);
        && m < |s| && up == Some(s[m].key) && Snap()[id] == LeafPage(s[..m], n) && Snap()[n] == LeafPage(s[m..], old(page.next))
        && if m <= slot then index == slot - m && guard == n else index == slot && guard == id
      ensures guard in pages && target == pages[guard] && (target == page || fresh(target)) && target.id == guard
      ensures g' == Unlocked(Created(g), if guard == id then old(nextId) else id)
    {
      hide Locked, Unlocked, Created, Sound, Tidy;
      ghost var was := Snap();
      var newId, newPage;
      newId, newPage, g' := SplitLeaf(page, g);
      index, target, guard := slot, page, id;
      if index >= page.GetMinSize(g') {
        index, target, guard := index - page.GetMinSize(g'), newPage, newId;
        g' := Unlocked(g', id);
      }
      up, child := Some(newPage.ItemAt(0, g').key), Some(newId);
      if guard == id {
        g' := Unlocked(g', newId);
      }
    }

    /** Puts an item into a leaf page that has room. */
    method PutItem(page: Page, slot: nat, it: Item, ghost g: Guards)
      requires StoreOk() && page.id in pages && pages[page.id] == page && page.isLeaf && slot <= |page.items| && page.id in g.held
      modifies page`items
      ensures StoreOk() && SameExcept(old(Snap()), Snap(), {page.id})
      ensures page.Value() == Snap()[page.id] == LeafPage(InsertAt(old(page.items), slot, it), page.next)
    {
      hide InsertAt, Sound, Tidy;
      page.InsertItem(slot, it, g);
    }

    /** Inserts an item into a leaf page, splitting it first when it is full. `guard` is the page that took the item. */
    method InsertLeafEntry(page: Page, id: PageId, slot: nat, it: Item, ghost g: Guards)
      returns (up: Option<int>, child: Option<PageId>, guard: PageId, ghost g': Guards)
      requires StoreOk() && id in pages && pages[id] == page && page.isLeaf && slot <= |page.items|
      requires id in g.held && g.next == nextId
      modifies this`pages, this`nextId, page`items, page`next
      ensures StoreOk() && fresh(pages.Values - old(pages.Values))
      ensures SameExcept(old(Snap()), Snap(), {id}) && id in pages
      ensures var s, next, m, n := old(page.items), old(page.next), cfg.LeafMin(), old(nextId);
        if |s| < cfg.leafMax then
          && up == None && child == None && guard == id && nextId == n && g' == g
          && Snap()[id] == LeafPage(InsertAt(s, slot, it), next)
        else
          && child == Some(n) && nextId == n + 1 && m < |s| && n in pages
          && g' == Unlocked(Created(g), if guard == id then n else id)
          && if m <= slot then
               && guard == n && up == Some(InsertAt(s[m..], slot - m, it)[0].key)
               && Snap()[id] == LeafPage(s[..m], n) && Snap()[n] == LeafPage(InsertAt(s[m..], slot - m, it), next)
             else
               && guard == id && up == Some(s[m].key)
               && Snap()[id] == LeafPage(InsertAt(s[..m], slot, it), n) && Snap()[n] == LeafPage(s[m..], next)
    {
      hide Locked, Unlocked, Created, Sound, Tidy, InsertAt, StoreOk, SameExcept;
      PageFacts(id);
      StoreFacts();
      ghost var s0 := Snap();
      Unchanged(s0, {id});
      up, child, guard, g' := None, None, id, g;
      var index, target := slot, page;
      if page.GetSize(g) >= page.GetMaxSize(g) {
        target, index, guard, up, child, g' := MakeRoom(page, id, slot, g);
      }
      ghost var s1 := Snap();
      PageFacts(guard);
      PutItem(target, index, it, g');
      if child == Some(guard) {
        up := Some(target.ItemAt(0, g').key);
      }
      SameApart(s0, s1, Snap(), id, guard);
    }

    /** The leaf level of `Insert`. `guard` is the leaf page still locked. */
    method InsertIntoLeaf(leafId: PageId, slot: nat, it: Item, ghost leaf: Tree, ghost g: Guards)
      returns (up: Option<int>, child: Option<PageId>, guard: PageId, ghost u: Carry, ghost g': Guards)
      requires StoreOk() && leaf.Leaf? && leafId == leaf.id && Holds(Snap(), leaf) && slot <= |leaf.items|
      requires leafId in g.held && g.next == nextId
      modifies this`pages, this`nextId, pages[leafId]
      ensures StoreOk() && fresh(pages.Values - old(pages.Values))
      ensures u == LeafInsert(cfg, leaf, slot, it, old(nextId)) && Announces(u, up, child)
      ensures nextId == old(nextId) + if u.Split? then 1 else 0
      ensures SameExcept(old(Snap()), Snap(), {leafId, old(nextId)}) && HoldsCarry(Snap(), u)
      ensures if u.Fits? then guard == leafId && g' == g
              else guard in {leafId, old(nextId)} && g' == Unlocked(Created(g), if guard == leafId then old(nextId) else leafId)
    {
      hide Locked, Unlocked, Created, Sound, Tidy, InsertAt, StoreOk;
      var page := Guarded(leafId, g);
      assert Snap()[leafId] == page.Value();
      StoreFacts();
      u := LeafInsert(cfg, leaf, slot, it, nextId);
      up, child, guard, g' := InsertLeafEntry(page, leafId, slot, it, g);
    }

    /** Inserts a child into a page and moves the upper part to an empty page. */
    method DivideChildren(page: Page, r: Page, index: nat, key: int, kid: PageId, ghost g: Guards) returns (up: int)
      requires StoreOk() && page.id in pages && pages[page.id] == page && r.id in pages && pages[r.id] == r && page != r
      requires !page.isLeaf && !r.isLeaf && r.keys == [] && r.kids == [] && 1 <= index <= |page.kids| && cfg.internalMax <= |page.kids|
      requires page.id in g.held && r.id in g.held
      modifies page`keys, page`kids, r`keys, r`kids
      ensures StoreOk() && SameExcept(old(Snap()), Snap(), {page.id, r.id})
      ensures var s, c, m := InsertAt(old(page.Seps()), index - 1, key), InsertAt(old(page.kids), index, kid), cfg.InternalMin();
        up == s[m - 1] && Snap()[page.id] == InternalPage(s[..m - 1], c[..m]) && Snap()[r.id] == InternalPage(s[m..], c[m..])
    {
      hide InsertAt, Sound, Tidy;
      up := page.InsertAndSplit(r, index, key, kid, g);
    }

    /** Inserts a child into a full internal page and moves the upper part to a new page. */
    method SplitInternal(page: Page, index: nat, key: int, kid: PageId, ghost g: Guards)
      returns (up: int, newId: PageId, ghost g': Guards)
      requires StoreOk() && page.id in pages && pages[page.id] == page && !page.isLeaf && 1 <= index <= |page.kids|
      requires cfg.internalMax <= |page.kids| && page.id in g.held && g.next == nextId
      modifies this`pages, this`nextId, page`keys, page`kids
      ensures StoreOk() && fresh(pages.Values - old(pages.Values)) && SameExcept(old(Snap()), Snap(), {page.id})
      ensures newId == old(nextId) && nextId == newId + 1 && g' == Unlocked(Created(g), newId)
      ensures var s, c, m := InsertAt(old(page.Seps()), index - 1, key), InsertAt(old(page.kids), index, kid), cfg.InternalMin();
        && newId in pages && page.id in pages && up == s[m - 1]
        && Snap()[page.id] == InternalPage(s[..m - 1], c[..m]) && Snap()[newId] == InternalPage(s[m..], c[m..])
    {
      hide Locked, Unlocked, Created, Sound, Tidy, InsertAt, StoreOk, SameExcept;
      ghost var s := Snap();
      PageFacts(page.id);
      StoreFacts();
      var newPage;
      newId, newPage, g' := NewPage(false, g);
      ghost var s1 := Snap();
      up := DivideChildren(page, newPage, index, key, kid, g');
      SameNew(s, s1, Snap(), page.id, newId);
      g' := Unlocked(g', newId);
    }

    /** Puts an entry into an internal page that has room. */
    method PutChild(page: Page, index: nat, key: int, kid: PageId, ghost g: Guards)
      requires StoreOk() && page.id in pages && pages[page.id] == page && !page.isLeaf && 1 <= index <= |page.kids| && page.id in g.held
      modifies page`keys, page`kids
      ensures StoreOk() && SameExcept(old(Snap()), Snap(), {page.id})
      ensures Snap()[page.id] == InternalPage(InsertAt(old(page.Seps()), index - 1, key), InsertAt(old(page.kids), index, kid))
    {
      hide InsertAt, Sound, Tidy;
      page.InsertChild(index, key, kid, g);
    }

    /** Inserts an entry into an internal page, splitting the page when it is full. */
    method InsertEntry(page: Page, index: nat, key: int, kid: PageId, ghost g: Guards)
      returns (up: Option<int>, child: Option<PageId>, ghost g': Guards)
      requires StoreOk() && page.id in pages && pages[page.id] == page && !page.isLeaf && 1 <= index <= |page.kids|
      requires page.id in g.held && g.next == nextId
      modifies this`pages, this`nextId, page`keys, page`kids
      ensures StoreOk() && fresh(pages.Values - old(pages.Values)) && SameExcept(old(Snap()), Snap(), {page.id}) && page.id in pages
      ensures var s, c, m := InsertAt(old(page.Seps()), index - 1, key), InsertAt(old(page.kids), index, kid), cfg.InternalMin();
        if old(|page.kids|) < cfg.internalMax then
          && up == None && child == None && nextId == old(nextId) && g' == g
          && Snap()[page.id] == InternalPage(s, c)
        else
          && up == Some(s[m - 1]) && child == Some(old(nextId)) && nextId == old(nextId) + 1 && old(nextId) in pages
          && g' == Unlocked(Created(g), old(nextId))
          && Snap()[page.id] == InternalPage(s[..m - 1], c[..m]) && Snap()[old(nextId)] == InternalPage(s[m..], c[m..])
    {
      hide Locked, Unlocked, Created, Sound, Tidy, InsertAt, StoreOk, SameExcept;
      PageFacts(page.id);
      if page.GetSize(g) >= page.GetMaxSize(g) {
        var k, newId;
        k, newId, g' := SplitInternal(page, index, key, kid, g);
        up, child := Some(k), Some(newId);
      } else {
        PutChild(page, index, key, kid, g);
        up, child, g' := None, None, g;
      }
    }

    /** The slot of a new separator: just behind the child that was split. */
    method FindSlot(page: Page, up: int, ghost f: Frame, ghost g: Guards) returns (index: nat)
      requires page.id in g.held
      requires !page.isLeaf && page.Shape() && page.keys != [] && page.Seps() == f.seps
      requires |f.seps| == |f.left| + |f.right| && Increasing(Bounds(f.box.lo, f.seps, f.box.hi))
      requires Hole(f).lo < up < Hole(f).hi
      ensures index == |f.left| + 1
    {
      hide Sound, Tidy;
      SepsSorted(f.box.lo, f.seps, f.box.hi, page.keys);
      index := page.InternalKeyIndex(up, g);
      SlotIs(f, up, page.keys, index);
    }

    /** Hangs `child` next to the child it was split from, splitting the page when it is full. */
    method InsertIntoParent(parentId: PageId, up: int, child: PageId, ghost f: Frame, ghost l: Tree, ghost r: Tree, ghost g: Guards)
      returns (up': Option<int>, child': Option<PageId>, ghost u: Carry, ghost g': Guards)
      requires StoreOk() && parentId == f.id && f.id in pages && child == r.id
      requires Snap()[f.id] == InternalPage(f.seps, Ids(f.left) + [l.id] + Ids(f.right))
      requires |f.seps| == |f.left| + |f.right| && Increasing(Bounds(f.box.lo, f.seps, f.box.hi))
      requires Hole(f).lo < up < Hole(f).hi
      requires parentId in g.held && g.next == nextId
      modifies this`pages, this`nextId, pages[parentId]
      ensures StoreOk() && fresh(pages.Values - old(pages.Values))
      ensures u == NodeInsert(cfg, f, l, up, r, old(nextId)) && Announces(u, up', child')
      ensures nextId == old(nextId) + if u.Split? then 1 else 0
      ensures SameExcept(old(Snap()), Snap(), {parentId, old(nextId)}) && HoldsCarry(Snap(), u)
      ensures g' == if u.Fits? then g else Unlocked(Created(g), old(nextId))
    {
      hide NodeInsert, Locked, Unlocked, Created, Sound, Tidy, InsertAt, StoreOk, SameExcept, HoldsCarry, Announces;
      var page := Guarded(parentId, g);
      assert Snap()[parentId] == page.Value();
      var index := FindSlot(page, up, f, g);
      hide Increasing, Hole, Bounds;
      StoreFacts();
      ghost var s, n := Snap(), nextId;
      u := NodeInsert(cfg, f, l, up, r, n);
      up', child', g' := InsertEntry(page, index, up, child, g);
      CarryStored(Snap(), f, l, up, r, n, up', child');
      SameMore(s, Snap(), {parentId}, {parentId, n});
    }

    /** The pages `InsertEntry` leaves are those of the ancestor step. */
    lemma CarryStored(s: Store, f: Frame, l: Tree, up: int, r: Tree, n: PageId, up': Option<int>, child': Option<PageId>)
      requires cfg.Ok() && |f.seps| == |f.left| + |f.right| && f.id in s
      requires var seps, ids, m := InsertAt(f.seps, |f.left|, up), InsertAt(Ids(f.left) + [l.id] + Ids(f.right), |f.left| + 1, r.id), cfg.InternalMin();
        if |seps| < cfg.internalMax then up' == None && child' == None && s[f.id] == InternalPage(seps, ids)
        else
          && up' == Some(seps[m - 1]) && child' == Some(n) && n in s
          && s[f.id] == InternalPage(seps[..m - 1], ids[..m]) && s[n] == InternalPage(seps[m..], ids[m..])
      ensures var u := NodeInsert(cfg, f, l, up, r, n); Announces(u, up', child') && HoldsCarry(s, u) && (u.Fits? <==> child' == None)
    {
      hide NodeInsert, InsertAt;
      NodeInsertPages(cfg, f, l, up, r, n);
    }

    /** Fills the page of a new root. */
    method FillRoot(page: Page, left: PageId, up: int, right: PageId, ghost g: Guards)
      requires StoreOk() && page.id in pages && pages[page.id] == page && page.id in g.held
      requires !page.isLeaf && page.keys == [] && page.kids == []
      modifies page`keys, page`kids
      ensures StoreOk() && SameExcept(old(Snap()), Snap(), {page.id})
      ensures Snap()[page.id] == InternalPage([up], [left, right])
    {
      hide Sound, Tidy;
      page.FillRoot(left, up, right, g);
    }

    /** `NewPage` for a root with the two given children; the header page names it. */
    method GrowRoot(left: PageId, up: int, right: PageId, ghost l: Tree, ghost r: Tree, ghost g: Guards)
      returns (newId: PageId, ghost t: Tree, ghost g': Guards)
      requires StoreOk() && left == l.id && right == r.id && headerId in g.held && g.next == nextId
      modifies this`pages, this`nextId, this`rootId
      ensures StoreOk() && fresh(pages.Values - old(pages.Values)) && g' == Created(g)
      ensures t == Node(old(nextId), [up], [l, r]) && newId == rootId == t.id && nextId == old(nextId) + 1
      ensures SameExcept(old(Snap()), Snap(), {}) && Holds(Snap(), t)
    {
      hide Locked, Unlocked, Created, Sound, Tidy, StoreOk, SameExcept;
      ghost var s := Snap();
      var page;
      newId, page, g' := NewPage(false, g);
      SetRootPageId(newId, g');
      ghost var s1 := Snap();
      FillRoot(page, left, up, right, g');
      SameFresh(s, s1, Snap(), newId);
      t := Node(newId, [up], [l, r]);
    }

    /** The guards held between two turns of the loop over the ancestors, in the order they are dropped at the end. */
    function ClimbChain(above: seq<PageId>, current: PageId, first: bool, leafGuard: PageId): seq<PageId> {
      above + (if first then [] else [current]) + [leafGuard, headerId]
    }

    ghost predicate ClimbGuards(g: Guards, above: seq<PageId>, current: PageId, first: bool, leafGuard: PageId, limit: int, newId: PageId) {
      var chain := ClimbChain(above, current, first, leafGuard);
      && NoRepeat(chain) && g.held == SetOf(chain) && g.count <= limit && g.peak == limit + 1 && g.next == newId
    }

    lemma ClimbHeld(g: Guards, above: seq<PageId>, current: PageId, first: bool, leafGuard: PageId, limit: int, newId: PageId)
      requires ClimbGuards(g, above, current, first, leafGuard, limit, newId)
      ensures headerId in g.held && (!first ==> current in g.held) && forall x :: x in above ==> x in g.held
      ensures g.next == newId && g.count <= limit && g.peak == limit + 1
    {
      hide Sound, Tidy;
      var chain := ClimbChain(above, current, first, leafGuard);
      assert chain[|chain| - 1] == headerId;
      assert !first ==> chain[|above|] == current;
      forall x | x in above ensures x in chain {
        var i :| 0 <= i < |above| && above[i] == x;
        assert chain[i] == x;
      }
    }

    /** One turn takes the parent over as the current page; the old one's guard goes, unless it is the leaf's. */
    lemma ClimbTurn(g: Guards, g': Guards, above: seq<PageId>, parent: PageId, current: PageId, first: bool, leafGuard: PageId,
                    limit: int, newId: PageId, newId': PageId)
      requires ClimbGuards(g, above + [parent], current, first, leafGuard, limit, newId)
      requires g'.held == g.held - (if first then {} else {current}) && g'.count <= limit && g'.peak == limit + 1 && g'.next == newId'
      ensures ClimbGuards(g', above, parent, false, leafGuard, limit, newId')
    {
      hide NoRepeat, SetOf, Sound, Tidy;
      if !first {
        WithoutOne(above + [parent], current, [leafGuard, headerId]);
      }
      assert ClimbChain(above + [parent], current, true, leafGuard) == ClimbChain(above, parent, false, leafGuard)
          == above + [parent] + [leafGuard, headerId] by {
        assert above + [parent] + [] == above + [parent];
      }
    }

    /** At the end the guards still held are those of the chain, and a new root takes the place of the old one. */
    lemma ClimbStill(g: Guards, above: seq<PageId>, current: PageId, first: bool, leafGuard: PageId, limit: int, newId: PageId)
      requires ClimbGuards(g, above, current, first, leafGuard, limit, newId)
      ensures var chain := ClimbChain(above, current, first, leafGuard); NoRepeat(chain) && g.held == SetOf(chain)
    {
      hide Sound, Tidy;
    }

    lemma RootTaken(g: Guards, g': Guards, current: PageId, first: bool, leafGuard: PageId, limit: int, newId: PageId)
      requires ClimbGuards(g, [], current, first, leafGuard, limit, newId) && newId !in g.held
      requires g'.held == g.held + {newId} - (if first then {} else {current})
      ensures var chain := ClimbChain([], newId, false, leafGuard); NoRepeat(chain) && g'.held == SetOf(chain)
    {
      hide Sound, Tidy;
      var rest := [leafGuard, headerId];
      assert ClimbChain([], newId, false, leafGuard) == [] + [newId] + rest;
      if first {
        assert ClimbChain([], current, true, leafGuard) == [] + rest;
      } else {
        assert ClimbChain([], current, false, leafGuard) == [] + [current] + rest;
        WithoutOne([], current, rest);
      }
      assert forall x :: x in rest ==> x in g.held;
      hide NoRepeat, SetOf;
      WithOne([], newId, rest);
    }

    /** The loop over the ancestors after a split. The leaf's guard stays to the end; then every guard is dropped. */
    method Climb(writeSet: seq<PageId>, leafId: PageId, leafGuard: PageId, upKey: int, childId: PageId,
                 ghost path: Path, ghost u: Carry, ghost target: (Tree, PageId), ghost g: Guards, ghost limit: int)
      returns (ghost g': Guards)
      requires StoreOk() && Climbing(cfg, Snap(), path, u, 0, nextId, target) && Announces(u, Some(upKey), Some(childId))
      requires writeSet == PathIds(path) && leafId == CarryId(u) && rootId == RootIdOf(path, u)
      requires ClimbGuards(g, writeSet, leafId, true, leafGuard, limit, nextId)
      modifies this`pages, this`nextId, this`rootId, pages.Values
      ensures StoreOk() && fresh(pages.Values - old(pages.Values))
      ensures Represents(Snap(), target.0) && rootId == target.0.id && nextId == target.1
      ensures g'.held == {} && g'.peak == limit + 1 && g'.next == nextId >= old(nextId) && g'.first == g.first
      ensures g.seen <= g'.seen && SameExcept(old(Snap()), Snap(), g'.seen)
    {
      hide Climbing, ClimbGuards, Locked, Unlocked, Created, Sound, Tidy, Represents, SameExcept, NoRepeat, SetOf, PathIds, StoreOk, Snap;
      var current, up, child, stack, first := leafId, Some(upKey), Some(childId), writeSet, true;
      ghost var p, v, h := path, u, 0;
      g' := g;
      assert SameExcept(Snap(), Snap(), g.seen) by { Unchanged(Snap(), g.seen); }
      while up.Some? && |stack| > 0
        invariant StoreOk() && fresh(pages.Values - old(pages.Values))
        invariant Climbing(cfg, Snap(), p, v, h, nextId, target) && Announces(v, up, child)
        invariant stack == PathIds(p) && current == CarryId(v) && rootId == RootIdOf(p, v)
        invariant ClimbGuards(g', stack, current, first, leafGuard, limit, nextId) && g'.first == g.first && nextId >= old(nextId)
        invariant g.seen <= g'.seen && SameExcept(old(Snap()), Snap(), g'.seen)
        decreases |p|
      {
        PathIdsSplit(p);
        var parent := stack[|stack| - 1];
        stack := stack[..|stack| - 1];
        ghost var w, s, seen := v, Snap(), g'.seen;
        up, child, w, g' := ClimbOnce(parent, current, up.value, child.value, first, leafGuard, p, v, h, target, g', limit);
        SameThrough(old(Snap()), s, Snap(), seen, g'.seen);
        current, first := parent, false;
        p, v, h := Init(p), w, h + 1;
      }
      ClimbHeld(g', stack, current, first, leafGuard, limit, nextId);
      if up.Some? {
        ghost var s, n, seen, t := Snap(), nextId, g'.seen, target.0;
        ClimbFacts(cfg, s, p, v, h, n, target);
        ghost var was := g';
        var newRoot;
        newRoot, t, g' := GrowRoot(current, up.value, child.value, v.l, v.r, g');
        ClimbRoot(cfg, s, Snap(), v, h, n, target);
        v, h := Fits(t), h + 1;
        SameMore(s, Snap(), {}, g'.seen);
        SameThrough(old(Snap()), s, Snap(), seen, g'.seen);
        if !first {
          g' := Unlocked(g', current);
        }
        RootTaken(was, g', current, first, leafGuard, limit, n);
        current, first := newRoot, false;
      } else {
        ClimbStill(g', stack, current, first, leafGuard, limit, nextId);
      }
      ClimbDone(cfg, Snap(), p, v, h, nextId, target);
      g' := ReleaseAll(ClimbChain(stack, current, first, leafGuard), g');
    }

    /** One turn of that loop. */
    method ClimbOnce(parent: PageId, current: PageId, up: int, child: PageId, first: bool, ghost leafGuard: PageId,
                     ghost p: Path, ghost v: Carry, ghost h: nat, ghost target: (Tree, PageId), ghost g: Guards, ghost limit: int)
      returns (up': Option<int>, child': Option<PageId>, ghost w: Carry, ghost g': Guards)
      requires StoreOk() && Climbing(cfg, Snap(), p, v, h, nextId, target) && Announces(v, Some(up), Some(child))
      requires p != [] && parent == Last(p).id && current == CarryId(v)
      requires ClimbGuards(g, PathIds(p), current, first, leafGuard, limit, nextId)
      modifies this`pages, this`nextId, pages.Values
      ensures StoreOk() && fresh(pages.Values - old(pages.Values))
      ensures Climbing(cfg, Snap(), Init(p), w, h + 1, nextId, target) && Announces(w, up', child')
      ensures CarryId(w) == parent && RootIdOf(Init(p), w) == RootIdOf(p, v) && PathIds(Init(p)) == PathIds(p)[..|p| - 1]
      ensures ClimbGuards(g', PathIds(Init(p)), parent, false, leafGuard, limit, nextId) && g'.first == g.first && nextId >= old(nextId)
      ensures g.seen <= g'.seen && SameExcept(old(Snap()), Snap(), g'.seen)
    {
      hide Climbing, ClimbGuards, Locked, Unlocked, Created, Sound, SameExcept, NodeInsert, HoldsCarry, StoreOk, Tidy, Snap;
      ghost var s, n := Snap(), nextId;
      ClimbFacts(cfg, s, p, v, h, n, target);
      assert PathIds(p)[|p| - 1] == parent;
      ClimbHeld(g, PathIds(p), current, first, leafGuard, limit, n);
      StoreFacts();
      PageFacts(parent);
      up', child', w, g' := InsertIntoParent(parent, up, child, Last(p), v.l, v.r, g);
      ClimbStep(cfg, s, Snap(), p, v, h, n, target);
      AllSeen(g, parent);
      SameMore(s, Snap(), {parent, n}, g'.seen);
      assert PathIds(p) == PathIds(Init(p)) + [parent];
      if !first {
        g' := Unlocked(g', current);
      }
      ClimbTurn(g, g', PathIds(Init(p)), parent, current, first, leafGuard, limit, n, nextId);
    }

    /** `Insert` once the leaf is found and known not to hold the key. Every guard is dropped at the end. */
    method InsertBelow(writeSet: seq<PageId>, leafId: PageId, slot: nat, it: Item, ghost whole: Tree, ghost d: Descent, ghost g: Guards)
      returns (ghost g': Guards)
      requires StoreOk() && AtLeaf(cfg, Snap(), whole, it.key, d, nextId) && rootId == whole.id
      requires leafId == d.leaf.id && writeSet == PathIds(d.path)
      requires slot == LeafIndex(d.leaf.items, it.key) && !FoundAt(d.leaf.items, slot, it.key)
      requires LeafGuards(g, writeSet, leafId, Height(whole) + 2, nextId)
      modifies this`pages, this`nextId, this`rootId, pages.Values
      ensures StoreOk() && fresh(pages.Values - old(pages.Values))
      ensures var target := InsertTree(cfg, whole, it, old(nextId));
        Represents(Snap(), target.0) && rootId == target.0.id && nextId == target.1
      ensures g'.held == {} && g'.next == nextId && g'.first == g.first
      ensures g'.peak == Height(whole) + if nextId == old(nextId) then 2 else 3
      ensures g.seen <= g'.seen && SameExcept(old(Snap()), Snap(), g'.seen)
    {
      hide Climbing, InsertTree, LeafInsert, AtLeaf, Locked, Unlocked, Created, Sound, LeafGuards, SameExcept, ClimbGuards, HoldsCarry, NoRepeat, SetOf, PathIds, StoreOk, Tidy, Snap;
      AtLeafFacts(cfg, Snap(), whole, it.key, d, nextId);
      LeafHeld(g, writeSet, leafId, Height(whole) + 2, nextId);
      StoreFacts();
      ghost var s, n, target := Snap(), nextId, InsertTree(cfg, whole, it, nextId);
      var up, child, guard;
      ghost var u;
      PageFacts(leafId);
      up, child, guard, u, g' := InsertIntoLeaf(leafId, slot, it, d.leaf, g);
      ClimbStart(cfg, s, Snap(), whole, it, d, n);
      ghost var s1, seen := Snap(), g'.seen;
      AllSeen(g, leafId);
      SameMore(s, s1, {leafId, n}, seen);
      if up.Some? {
        LeafSplit(g, g', writeSet, leafId, guard, Height(whole) + 2, n);
        g' := Climb(writeSet, leafId, guard, up.value, child.value, d.path, u, target, g', Height(whole) + 2);
        SameThrough(s, s1, Snap(), seen, g'.seen);
      } else {
        ClimbDone(cfg, Snap(), d.path, u, 0, nextId, target);
        g' := ReleaseAll(writeSet + [leafId] + [headerId], g');
      }
    }

    /** The guards after the descent: header, path and leaf. */
    ghost predicate LeafGuards(g: Guards, writeSet: seq<PageId>, leafId: PageId, limit: int, newId: PageId) {
      && NoRepeat(writeSet + [leafId] + [headerId]) && g.held == SetOf(writeSet + [leafId] + [headerId])
      && g.count == g.peak == limit && g.next == newId
    }

    lemma LeafHeld(g: Guards, writeSet: seq<PageId>, leafId: PageId, limit: int, newId: PageId)
      requires LeafGuards(g, writeSet, leafId, limit, newId)
      ensures leafId in g.held && headerId in g.held && leafId != headerId && forall x :: x in writeSet ==> x in g.held
      ensures g.count == g.peak == limit && g.next == newId
      ensures NoRepeat(writeSet + [leafId] + [headerId]) && g.held == SetOf(writeSet + [leafId] + [headerId])
    {
      hide Sound, Tidy;
      var chain := writeSet + [leafId] + [headerId];
      assert chain[|writeSet|] == leafId && chain[|writeSet| + 1] == headerId;
      forall x | x in writeSet ensures x in chain {
        var i :| 0 <= i < |writeSet| && writeSet[i] == x;
        assert chain[i] == x;
      }
    }

    /** After a split the leaf guard is the one on either half. */
    lemma LeafSplit(g: Guards, g': Guards, writeSet: seq<PageId>, leafId: PageId, guard: PageId, limit: int, newId: PageId)
      requires LeafGuards(g, writeSet, leafId, limit, newId) && newId >= 0 && guard in {leafId, newId}
      requires g' == Unlocked(Created(g), if guard == leafId then newId else leafId)
      ensures ClimbGuards(g', writeSet, leafId, true, guard, limit, newId + 1)
    {
      hide Locked, Unlocked, Created, Sound, NoRepeat, SetOf, Tidy;
      LeafHeld(g, writeSet, leafId, limit, newId);
      assert ClimbChain(writeSet, leafId, true, guard) == writeSet + [guard] + [headerId] by {
        assert writeSet + [] == writeSet && [guard, headerId] == [guard] + [headerId];
      }
      if guard == newId {
        WithoutOne(writeSet, leafId, [headerId]);
        WithOne(writeSet, newId, [headerId]);
      }
    }

    // ----- removal -----

    /** `parent` is the page of `t`, and `l` and `r` are the pages of its children `j` and `j + 1`. */
    ghost predicate PairPages(t: Tree, j: nat, parent: Page, l: Page, r: Page)
      reads this`pages, this`nextId, pages.Values
    {
      && StoreOk() && HasPair(t, j) && Represents(Snap(), t) && (forall x :: Count(t, x) <= 1)
      && var a, b := t.kids[j].id, t.kids[j + 1].id;
         && t.id in pages && a in pages && b in pages
         && parent == pages[t.id] && l == pages[a] && r == pages[b]
    }

    /** Three different pages of the store: an internal page and two pages below it. */
    ghost predicate Three(parent: Page, l: Page, r: Page)
      reads this`pages, this`nextId, pages.Values
    {
      && StoreOk() && parent.id in pages && l.id in pages && r.id in pages
      && pages[parent.id] == parent && pages[l.id] == l && pages[r.id] == r
      && parent != l && l != r && r != parent && !parent.isLeaf && parent.Shape() && l.Shape() && r.Shape()
    }

    lemma PairReady(t: Tree, j: nat, parent: Page, l: Page, r: Page)
      requires PairPages(t, j, parent, l, r)
      ensures HasPair(t, j) && Three(parent, l, r) && {parent, l, r} <= pages.Values && parent.id == t.id
      ensures l.id == t.kids[j].id && r.id == t.kids[j + 1].id && t.kids[j].id != t.kids[j + 1].id
      ensures parent.Seps() == t.seps && parent.kids == Ids(t.kids) && |parent.keys| == |t.kids| == |t.seps| + 1
      ensures forall i :: 1 <= i < |t.kids| ==> parent.keys[i] == t.seps[i - 1]
      ensures l.Beside(parent, j + 1, r) == SidesOf(PairAt(t, j)) && Alike(SidesOf(PairAt(t, j)))
      ensures l.Size() == Size(t.kids[j]) == Entries(PageOf(t.kids[j])) && r.Size() == Size(t.kids[j + 1]) == Entries(PageOf(t.kids[j + 1]))
      ensures Represents(Snap(), t) && (forall x :: Count(t, x) <= 1)
    {
      PairAlone(t, j);
      assert RepresentsAll(Snap(), t.kids);
      assert Represents(Snap(), t.kids[j]) && Represents(Snap(), t.kids[j + 1]);
      assert Snap()[t.id] == parent.Value() && Snap()[t.kids[j].id] == l.Value() && Snap()[t.kids[j + 1].id] == r.Value();
    }

    /** Moves the last entry of `l` to the front of `r`. */
    method BorrowFromLeft(parent: Page, l: Page, r: Page, slot: nat, ghost g: Guards)
      requires Three(parent, l, r) && parent.id in g.held && l.id in g.held && r.id in g.held
      requires 1 <= slot < |parent.kids| && Alike(l.Beside(parent, slot, r)) && l.Size() > 1
      modifies parent`keys, l`items, l`keys, l`kids, r`items, r`keys, r`kids
      ensures Three(parent, l, r) && SameExcept(old(Snap()), Snap(), {parent.id, l.id, r.id})
      ensures var v := Shared(old(l.Beside(parent, slot, r)), old(l.Size()) - 1);
        && Snap()[l.id] == v.left && Snap()[r.id] == v.right
        && Snap()[parent.id] == InternalPage(old(parent.Seps())[slot - 1 := v.sep], old(parent.kids))
    {
      hide Shared, Alike, Sound, Tidy;
      r.TakeFromLeft(l, parent, slot, g);
    }

    /** Moves the first entry of `r` to the end of `l`. */
    method BorrowFromRight(parent: Page, l: Page, r: Page, slot: nat, ghost g: Guards)
      requires Three(parent, l, r) && parent.id in g.held && l.id in g.held && r.id in g.held
      requires slot + 1 < |parent.kids| && Alike(l.Beside(parent, slot + 1, r)) && r.Size() > 1
      modifies parent`keys, l`items, l`keys, l`kids, r`items, r`keys, r`kids
      ensures Three(parent, l, r) && SameExcept(old(Snap()), Snap(), {parent.id, l.id, r.id})
      ensures var v := Shared(old(l.Beside(parent, slot + 1, r)), old(l.Size()) + 1);
        && Snap()[l.id] == v.left && Snap()[r.id] == v.right
        && Snap()[parent.id] == InternalPage(old(parent.Seps())[slot := v.sep], old(parent.kids))
    {
      hide Shared, Alike, Sound, Tidy;
      l.TakeFromRight(r, parent, slot, g);
    }

    /** Empties `r` into `l` and takes its slot out of the parent. */
    method MergePages(parent: Page, l: Page, r: Page, slot: nat, ghost g: Guards)
      requires Three(parent, l, r) && parent.id in g.held && l.id in g.held && r.id in g.held
      requires 1 <= slot < |parent.kids| && Alike(l.Beside(parent, slot, r))
      modifies parent`keys, parent`kids, l`items, l`next, l`keys, l`kids, r`items, r`keys, r`kids
      ensures Three(parent, l, r) && SameExcept(old(Snap()), Snap(), {parent.id, l.id, r.id})
      ensures Snap()[l.id] == Joined(old(l.Beside(parent, slot, r)))
      ensures Snap()[parent.id] == InternalPage(RemoveAt(old(parent.Seps()), slot - 1), RemoveAt(old(parent.kids), slot))
    {
      hide Joined, Alike, RemoveAt, Sound, Tidy;
      l.Absorb(r, parent, slot, g);
    }

    /** Which branch `RepairChild` took, and what it means for the pages. */
    ghost predicate Repaired(s: Store, w: Repair, t: Tree, slot: nat, keyUpdate: bool, oldKey: int)
      reads this`pages, this`nextId, pages.Values
    {
      && t.Node? && slot < |t.kids| && (slot > 0 || w.BorrowRight? || w.MergeRight?) && HasPair(t, PairIndex(w, slot))
      && (w.BorrowLeft? ==> Size(t.kids[slot - 1]) > 1) && (w.BorrowRight? ==> Size(t.kids[slot + 1]) > 1)
      && var j := PairIndex(w, slot);
         && StoreOk() && Represents(Snap(), RepairPair(w, t, j))
         && SameExcept(s, Snap(), {t.id, t.kids[j].id, t.kids[j + 1].id})
         && keyUpdate == (j == 0) && oldKey == t.seps[j]
    }

    /** The pages the repair of child `slot` may touch. */
    ghost predicate RepairReady(t: Tree, slot: nat, parent: Page, child: Page)
      reads this`pages, this`nextId, pages.Values
    {
      && StoreOk() && CanRebalance(cfg, t, slot) && Represents(Snap(), t) && (forall x :: Count(t, x) <= 1)
      && t.id in pages && t.kids[slot].id in pages && parent == pages[t.id] && child == pages[t.kids[slot].id]
    }

    lemma RepairPages(t: Tree, slot: nat, parent: Page, child: Page)
      requires RepairReady(t, slot, parent, child)
      ensures !parent.isLeaf && parent.Shape() && parent.Seps() == t.seps && parent.kids == Ids(t.kids)
      ensures parent.id == t.id && child.id == t.kids[slot].id && CanRebalance(cfg, t, slot)
      ensures child.Size() == Size(t.kids[slot]) && child.MinSize() == MinSize(cfg, t.kids[slot])
      ensures forall i :: 0 <= i < |t.kids| ==>
        && t.kids[i].id in pages && pages[t.kids[i].id].Size() == Size(t.kids[i])
        && pages[t.kids[i].id].MinSize() == MinSize(cfg, t.kids[i])
      ensures slot > 0 ==> PairPages(t, slot - 1, parent, pages[t.kids[slot - 1].id], child)
      ensures slot + 1 < |t.kids| ==> PairPages(t, slot, parent, child, pages[t.kids[slot + 1].id])
    {
      assert Snap()[t.id] == parent.Value();
      assert RepresentsAll(Snap(), t.kids);
      forall i | 0 <= i < |t.kids|
        ensures t.kids[i].id in pages && pages[t.kids[i].id].Value() == PageOf(t.kids[i])
      {
        assert Represents(Snap(), t.kids[i]);
        assert Snap()[t.kids[i].id] == pages[t.kids[i].id].Value();
      }
    }

    /** Borrows from the left sibling and drops its guard. */
    method RepairByLeft(parent: Page, l: Page, child: Page, slot: nat, ghost t: Tree, ghost g: Guards)
      returns (keyUpdate: bool, oldKey: int, ghost g': Guards)
      requires RepairReady(t, slot, parent, child) && slot >= 1 && PairPages(t, slot - 1, parent, l, child) && Size(t.kids[slot - 1]) > 1
      requires t.id in g.held && t.kids[slot - 1].id in g.held && t.kids[slot].id in g.held
      modifies pages.Values
      ensures Repaired(old(Snap()), BorrowLeft, t, slot, keyUpdate, oldKey)
      ensures g' == Unlocked(g, t.kids[slot - 1].id) && SameExcept(old(Snap()), Snap(), g'.seen)
    {
      hide Represents, Resplit, Shared, Locked, Unlocked, Created, Sound, Tidy, StoreOk, PairPages, SameExcept, RepairReady, HasPair, Alike;
      RepairPages(t, slot, parent, child);
      ghost var s := Snap();
      keyUpdate, oldKey := slot == 1, parent.KeyAt(slot, g);
      ghost var n := Size(t.kids[slot - 1]) - 1;
      PairReady(t, slot - 1, parent, l, child);
      BorrowFromLeft(parent, l, child, slot, g);
      BorrowStore(s, Snap(), t, slot - 1, n);
      g' := Unlocked(g, t.kids[slot - 1].id);
      AllSeen(g, t.id);
      AllSeen(g, t.kids[slot - 1].id);
      AllSeen(g, t.kids[slot].id);
      SameMore(s, Snap(), {t.id, t.kids[slot - 1].id, t.kids[slot].id}, g'.seen);
    }

    /** Borrows from the right sibling and drops its guard. */
    method RepairByRight(parent: Page, child: Page, r: Page, slot: nat, ghost t: Tree, ghost g: Guards)
      returns (keyUpdate: bool, oldKey: int, ghost g': Guards)
      requires RepairReady(t, slot, parent, child) && slot + 1 < |t.kids| && PairPages(t, slot, parent, child, r) && Size(t.kids[slot + 1]) > 1
      requires t.id in g.held && t.kids[slot].id in g.held && t.kids[slot + 1].id in g.held
      modifies pages.Values
      ensures Repaired(old(Snap()), BorrowRight, t, slot, keyUpdate, oldKey)
      ensures g' == Unlocked(g, t.kids[slot + 1].id) && SameExcept(old(Snap()), Snap(), g'.seen)
    {
      hide Represents, Resplit, Shared, Locked, Unlocked, Created, Sound, Tidy, StoreOk, PairPages, SameExcept, RepairReady, HasPair, Alike;
      RepairPages(t, slot, parent, child);
      ghost var s := Snap();
      keyUpdate, oldKey := slot == 0, parent.KeyAt(slot + 1, g);
      ghost var n := Size(t.kids[slot]) + 1;
      PairReady(t, slot, parent, child, r);
      BorrowFromRight(parent, child, r, slot, g);
      BorrowStore(s, Snap(), t, slot, n);
      g' := Unlocked(g, t.kids[slot + 1].id);
      AllSeen(g, t.id);
      AllSeen(g, t.kids[slot].id);
      AllSeen(g, t.kids[slot + 1].id);
      SameMore(s, Snap(), {t.id, t.kids[slot].id, t.kids[slot + 1].id}, g'.seen);
    }

    /** Merges the pages `l` and `r`, one of them the child's, and drops both guards, the right page's first. */
    method RepairByMerge(parent: Page, l: Page, r: Page, slot: nat, ghost j: nat, ghost w: Repair, ghost t: Tree, ghost g: Guards)
      returns (keyUpdate: bool, oldKey: int, ghost g': Guards)
      requires PairPages(t, j, parent, l, r) && t.id in g.held && t.kids[j].id in g.held && t.kids[j + 1].id in g.held
      requires slot < |t.kids| && w == (if slot >= 1 then MergeLeft else MergeRight) && j == PairIndex(w, slot)
      modifies pages.Values
      ensures Repaired(old(Snap()), w, t, slot, keyUpdate, oldKey)
      ensures t.kids[j].id != t.kids[j + 1].id && g' == Unlocked(Unlocked(g, t.kids[j + 1].id), t.kids[j].id)
      ensures SameExcept(old(Snap()), Snap(), g'.seen)
    {
      hide Represents, Merged, Joined, RemoveAt, Locked, Unlocked, Created, Sound, Tidy, StoreOk, SameExcept, PairPages, HasPair, Alike;
      ghost var s := Snap();
      PairReady(t, j, parent, l, r);
      var mSlot := if slot >= 1 then slot else slot + 1;
      keyUpdate, oldKey := mSlot == 1, parent.KeyAt(mSlot, g);
      MergePages(parent, l, r, mSlot, g);
      MergeStore(s, Snap(), t, j);
      AllSeen(g, t.id);
      AllSeen(g, t.kids[j].id);
      AllSeen(g, t.kids[j + 1].id);
      g' := Unlocked(Unlocked(g, t.kids[j + 1].id), t.kids[j].id);
      SameMore(s, Snap(), {t.id, t.kids[j].id, t.kids[j + 1].id}, g'.seen);
    }

    /** A sibling's page, under its guard, and whether it has an entry to spare. */
    method Ask(id: PageId, ghost sibling: Tree, ghost g: Guards) returns (spare: bool, page: Page, ghost g': Guards)
      requires StoreOk() && id in pages && id !in g.held && g.next == nextId
      requires pages[id].Size() == Size(sibling) && pages[id].MinSize() == MinSize(cfg, sibling)
      ensures page == pages[id] && g' == Locked(g, id) && spare == (Size(sibling) > MinSize(cfg, sibling))
    {
      hide Locked, Unlocked, Created, Sound, Tidy;
      page, g' := Acquire(id, g);
      spare := page.GetSize(g') > page.GetMinSize(g');
    }

    /** Merges the child with its left sibling, or with the right one if it has none to the left. */
    method MergeEither(parent: Page, child: Page, slot: nat, ghost t: Tree, ghost g: Guards)
      returns (keyUpdate: bool, oldKey: int, ghost g': Guards)
      requires RepairReady(t, slot, parent, child) && t.id in g.held && t.kids[slot].id in g.held && g.next == nextId
      requires forall i :: 0 <= i < |t.kids| && i != slot ==> t.kids[i].id !in g.held
      modifies pages.Values
      ensures Repaired(old(Snap()), if slot >= 1 then MergeLeft else MergeRight, t, slot, keyUpdate, oldKey)
      ensures Spent(g, g', t.kids[slot].id, true) && SameExcept(old(Snap()), Snap(), g'.seen)
    {
      hide RepairPair, Represents, Repaired, Locked, Unlocked, Created, Sound, Tidy, SameExcept, PairPages, StoreOk, Spent, Snap;
      RepairPages(t, slot, parent, child);
      var mSlot := if slot >= 1 then slot - 1 else slot + 1;
      var mId := parent.ValueAt(mSlot, g);
      KidAllocated(t, slot, mSlot, parent, child);
      var other;
      other, g' := Acquire(mId, g);
      SpentOne(g, mId, t.kids[slot].id);
      if slot >= 1 {
        keyUpdate, oldKey, g' := RepairByMerge(parent, other, child, slot, slot - 1, MergeLeft, t, g');
      } else {
        keyUpdate, oldKey, g' := RepairByMerge(parent, child, other, slot, slot, MergeRight, t, g');
      }
    }

    lemma KidAllocated(t: Tree, slot: nat, i: nat, parent: Page, child: Page)
      requires RepairReady(t, slot, parent, child) && i < |t.kids|
      ensures t.kids[i].id in pages && 0 <= t.kids[i].id < nextId && StoreOk()
    {
      RepairPages(t, slot, parent, child);
    }

    /** The left sibling, if there is one, has nothing to spare. */
    method RepairElse(parent: Page, child: Page, slot: nat, ghost t: Tree, ghost g: Guards)
      returns (merged: bool, keyUpdate: bool, oldKey: int, ghost g': Guards)
      requires RepairReady(t, slot, parent, child) && t.id in g.held && t.kids[slot].id in g.held && g.next == nextId
      requires forall i :: 0 <= i < |t.kids| && i != slot ==> t.kids[i].id !in g.held
      requires slot >= 1 ==> Size(t.kids[slot - 1]) <= MinSize(cfg, t.kids[slot - 1])
      modifies pages.Values
      ensures Repaired(old(Snap()), Choose(cfg, t, slot), t, slot, keyUpdate, oldKey)
      ensures var w := Choose(cfg, t, slot); merged == (w.MergeLeft? || w.MergeRight?)
      ensures Spent(g, g', t.kids[slot].id, merged) && SameExcept(old(Snap()), Snap(), g'.seen)
    {
      hide RepairPair, Represents, Repaired, Locked, Unlocked, Created, Sound, Tidy, SameExcept, PairPages, StoreOk, Spent, Snap;
      RepairPages(t, slot, parent, child);
      merged := true;
      if slot + 1 < parent.GetSize(g) {
        var rId := parent.ValueAt(slot + 1, g);
        var spare, r;
        KidAllocated(t, slot, slot + 1, parent, child);
        spare, r, g' := Ask(rId, t.kids[slot + 1], g);
        SpentOne(g, rId, t.kids[slot].id);
        if spare {
          merged := false;
          keyUpdate, oldKey, g' := RepairByRight(parent, child, r, slot, t, g');
          return;
        }
        ghost var g1 := Unlocked(g', rId);
        keyUpdate, oldKey, g' := MergeEither(parent, child, slot, t, g1);
        SpentMore(g, g1, g', t.kids[slot].id, true);
      } else {
        keyUpdate, oldKey, g' := MergeEither(parent, child, slot, t, g);
      }
    }

    /**
     * One level of repair for the child in slot `slot`: the left sibling is asked first, then the right one, and
     * with no entry to spare the child is merged, with the left sibling if there is one. The code spells this out
     * once for leaves and once for internal pages. `oldKey` is the separator that was touched. A merge drops the
     * child's guard.
     */
    method RepairChild(parent: Page, child: Page, slot: nat, ghost t: Tree, ghost g: Guards)
      returns (merged: bool, keyUpdate: bool, oldKey: int, ghost g': Guards)
      requires RepairReady(t, slot, parent, child) && t.id in g.held && t.kids[slot].id in g.held && g.next == nextId
      requires forall i :: 0 <= i < |t.kids| && i != slot ==> t.kids[i].id !in g.held
      modifies pages.Values
      ensures Repaired(old(Snap()), Choose(cfg, t, slot), t, slot, keyUpdate, oldKey)
      ensures var w := Choose(cfg, t, slot); merged == (w.MergeLeft? || w.MergeRight?)
      ensures Spent(g, g', t.kids[slot].id, merged) && SameExcept(old(Snap()), Snap(), g'.seen)
    {
      hide RepairPair, Represents, Repaired, Locked, Unlocked, Created, Sound, Tidy, SameExcept, PairPages, StoreOk, Spent, Snap;
      RepairPages(t, slot, parent, child);
      if slot >= 1 {
        var lId := parent.ValueAt(slot - 1, g);
        var spare, l;
        KidAllocated(t, slot, slot - 1, parent, child);
        spare, l, g' := Ask(lId, t.kids[slot - 1], g);
        SpentOne(g, lId, t.kids[slot].id);
        if spare {
          merged := false;
          keyUpdate, oldKey, g' := RepairByLeft(parent, l, child, slot, t, g');
          return;
        }
        ghost var g1 := Unlocked(g', lId);
        merged, keyUpdate, oldKey, g' := RepairElse(parent, child, slot, t, g1);
        SpentMore(g, g1, g', t.kids[slot].id, merged);
      } else {
        merged, keyUpdate, oldKey, g' := RepairElse(parent, child, slot, t, g);
      }
    }

    lemma AllSeen(g: Guards, x: PageId)
      ensures x in g.held ==> x in g.seen
    {
      hide Locked, Unlocked, Created, Sound;
    }

    /** The guards held between two turns of the ascent of `Remove`; `kept` is the leaf's, if it was not merged away. */
    function MendChain(above: seq<PageId>, current: PageId, kept: seq<PageId>): seq<PageId> {
      above + [current] + (kept + [headerId])
    }

    ghost predicate Holding(g: Guards, path: Path, t: Tree, kept: seq<PageId>, newId: PageId) {
      var chain := MendChain(PathIds(path), t.id, kept);
      && NoRepeat(chain) && g.held == SetOf(chain) && g.next == newId && forall x :: x in kept ==> Count(t, x) >= 1
    }

    lemma HoldingFacts(g: Guards, path: Path, t: Tree, kept: seq<PageId>, newId: PageId)
      requires Holding(g, path, t, kept, newId)
      ensures t.id in g.held && headerId in g.held && t.id !in PathIds(path) && g.next == newId
      ensures forall x :: x in g.held <==> x == headerId || x in PathIds(path) || x == t.id || x in kept
      ensures forall x :: x in kept ==> x != t.id && x !in PathIds(path) && Count(t, x) >= 1
      ensures NoRepeat(MendChain(PathIds(path), t.id, kept)) && g.held == SetOf(MendChain(PathIds(path), t.id, kept))
    {
      hide Sound, Tidy;
      var above, rest := PathIds(path), kept + [headerId];
      var chain := above + [t.id] + rest;
      assert chain[|above|] == t.id;
      WithoutOne(above, t.id, rest);
      forall x | x in kept ensures x !in above {
        Disjoint(above, rest, x);
      }
    }

    /** The order in which an early exit drops the guards: the page's own before its parent's. */
    lemma HoldingExit(g: Guards, path: Path, t: Tree, kept: seq<PageId>, newId: PageId)
      requires Holding(g, path, t, kept, newId) && path != []
      ensures var run := PathIds(Init(path)) + [t.id] + [Last(path).id] + (kept + [headerId]); NoRepeat(run) && SetOf(run) == g.held
    {
      hide NoRepeat, SetOf, Locked, Unlocked, Created, Sound, Tidy;
      PathIdsSplit(path);
      Swapped(PathIds(Init(path)), Last(path).id, t.id, kept + [headerId]);
    }

    lemma Disjoint(a: seq<PageId>, b: seq<PageId>, x: PageId)
      requires NoRepeat(a + b) && x in b
      ensures x !in a
    {
      var j :| 0 <= j < |b| && b[j] == x;
      assert (a + b)[|a| + j] == x;
      forall i | 0 <= i < |a| ensures a[i] != x {
        assert (a + b)[i] == a[i];
      }
    }

    /** Siblings of the subtree under repair are not held. */
    lemma SiblingsFree(g: Guards, path: Path, t: Tree, kept: seq<PageId>)
      requires StoreOk() && Holding(g, path, t, kept, nextId) && path != [] && FocusDistinct(path, t, nextId)
      requires Represents(Snap(), Fill(Last(path), t))
      ensures var up := Fill(Last(path), t);
        && up.id in g.held && up.kids[|Last(path).left|].id in g.held
        && forall i :: 0 <= i < |up.kids| && i != |Last(path).left| ==> up.kids[i].id !in g.held
    {
      hide Holding, Locked, Unlocked, Created, Sound, Tidy;
      HoldingFacts(g, path, t, kept, nextId);
      var up := Fill(Last(path), t);
      assert PathIds(path)[|path| - 1] == up.id;
      assert RepresentsAll(Snap(), up.kids);
      forall i | 0 <= i < |up.kids| && i != |Last(path).left| ensures up.kids[i].id !in g.held {
        SiblingApart(path, t, nextId, i);
        assert Represents(Snap(), up.kids[i]);
      }
    }

    /** Once the repaired page's own guard is gone, the guards fit the next turn. */
    lemma AfterDrop(g: Guards, g': Guards, path: Path, t: Tree, kept: seq<PageId>, newId: PageId)
      requires Holding(g, path, t, kept, newId) && path != [] && FocusDistinct(path, t, newId)
      requires CanRebalance(cfg, Fill(Last(path), t), |Last(path).left|)
      requires g'.held == g.held - {t.id} && g'.next == newId
      ensures Holding(g', Init(path), Rebalance(cfg, Fill(Last(path), t), |Last(path).left|).0, kept, newId)
    {
      hide Rebalance, RepairPair, Locked, Unlocked, Created, Sound, Tidy;
      var t' := Rebalance(cfg, Fill(Last(path), t), |Last(path).left|).0;
      HoldingFacts(g, path, t, kept, newId);
      assert PathIds(path) == PathIds(Init(path)) + [Last(path).id];
      RebalanceId(cfg, Fill(Last(path), t), |Last(path).left|);
      assert MendChain(PathIds(Init(path)), t'.id, kept) == PathIds(path) + (kept + [headerId]);
      WithoutOne(PathIds(path), t.id, kept + [headerId]);
      forall x | x in kept ensures Count(t', x) >= 1 {
        MendHeld(cfg, path, t, newId, x);
      }
    }

    /** A leaf that was not merged keeps its guard to the end. */
    lemma AfterLeafBorrow(g: Guards, g': Guards, path: Path, leaf: Tree, newId: PageId)
      requires Holding(g, path, leaf, [], newId) && path != [] && FocusDistinct(path, leaf, newId)
      requires CanRebalance(cfg, Fill(Last(path), leaf), |Last(path).left|)
      requires var w := Choose(cfg, Fill(Last(path), leaf), |Last(path).left|); w.BorrowLeft? || w.BorrowRight?
      requires g'.held == g.held && g'.next == newId
      ensures Holding(g', Init(path), Rebalance(cfg, Fill(Last(path), leaf), |Last(path).left|).0, [leaf.id], newId)
    {
      hide Rebalance, RepairPair, Locked, Unlocked, Created, Sound, Tidy, Choose;
      var t' := Rebalance(cfg, Fill(Last(path), leaf), |Last(path).left|).0;
      HoldingFacts(g, path, leaf, [], newId);
      assert PathIds(path) == PathIds(Init(path)) + [Last(path).id];
      RebalanceId(cfg, Fill(Last(path), leaf), |Last(path).left|);
      assert MendChain(PathIds(Init(path)), t'.id, [leaf.id]) == MendChain(PathIds(path), leaf.id, []);
      LeafCounts(leaf);
      MendHeld(cfg, path, leaf, newId, leaf.id);
    }

    lemma LeafCounts(t: Tree)
      ensures Count(t, t.id) >= 1
    {
    }

    /**
     * The slot of the current page in its parent. A pending `oldKey` is looked up among the parent's separators and
     * never found there, so the rewrite the code would do has nothing to rewrite.
     */
    method FindShort(parent: Page, page: Page, key: int, keyUpdate: bool, oldKey: int,
                     ghost path: Path, ghost t: Tree, ghost h: nat, ghost target: Tree, ghost g: Guards)
      returns (slot: nat)
      requires StoreOk() && Mending(cfg, Snap(), path, t, h, nextId, key, keyUpdate, oldKey, target) && path != []
      requires Last(path).id in pages && t.id in pages && parent == pages[Last(path).id] && page == pages[t.id]
      requires parent.id in g.held && page.id in g.held
      ensures slot == |Last(path).left| && RepairReady(Fill(Last(path), t), slot, parent, page)
      ensures t.Node? && page.Size() == |t.kids| && page.MinSize() == cfg.InternalMin()
    {
      hide Mending, Represents, Locked, Unlocked, Created, Sound, Tidy;
      ghost var s, up := Snap(), Fill(Last(path), t);
      MendFacts(cfg, s, path, t, h, nextId, key, keyUpdate, oldKey, target);
      assert s[Last(path).id] == parent.Value() && s[t.id] == page.Value();
      SepsSorted(Last(path).box.lo, up.seps, Last(path).box.hi, parent.keys);
      slot := parent.ChildSlot(key, g);
      if keyUpdate {
        var index := parent.InternalKeyIndex(oldKey, g);
        assert forall i :: 1 <= i < |parent.keys| ==> parent.keys[i] == up.seps[i - 1];
        if index < parent.GetSize(g) && parent.KeyAt(index, g) == oldKey {
          assert false;
        }
      }
    }

    /** One turn of the loop over the ancestors: `oldKey` is looked up and never found, then the page is repaired. */
    method MendOnce(parentId: PageId, current: PageId, key: int, keyUpdate: bool, oldKey: int, ghost kept: seq<PageId>,
                    ghost path: Path, ghost t: Tree, ghost h: nat, ghost target: Tree, ghost g: Guards)
      returns (done: bool, keyUpdate': bool, oldKey': int, ghost t': Tree, ghost g': Guards)
      requires StoreOk() && Mending(cfg, Snap(), path, t, h, nextId, key, keyUpdate, oldKey, target)
      requires path != [] && parentId == Last(path).id && current == t.id && Holding(g, path, t, kept, nextId)
      modifies pages.Values
      ensures StoreOk() && g'.first == g.first
      ensures if done then Represents(Snap(), target) && target.id == path[0].id && g' == g
              else
                && Mending(cfg, Snap(), Init(path), t', h + 1, nextId, key, keyUpdate', oldKey', target)
                && t'.id == parentId && Holding(g', Init(path), t', kept, nextId)
                && g'.count == g.count - 1 && g'.peak == Larger(g.peak, g.count + 1)
      ensures g.seen <= g'.seen && SameExcept(old(Snap()), Snap(), g'.seen)
    {
      hide Mending, RepairPair, Represents, Choose, Holding, Locked, Unlocked, Created, Sound, Tidy, SameExcept, PathIds, StoreOk, Snap, RepairReady, FocusDistinct, CanRebalance;
      ghost var s, up := Snap(), Fill(Last(path), t);
      MendFacts(cfg, s, path, t, h, nextId, key, keyUpdate, oldKey, target);
      HoldingFacts(g, path, t, kept, nextId);
      SiblingsFree(g, path, t, kept);
      var parent := Guarded(parentId, g);
      var page := Guarded(current, g);
      var slot := FindShort(parent, page, key, keyUpdate, oldKey, path, t, h, target, g);
      if !keyUpdate && page.GetSize(g) >= page.GetMinSize(g) {
        MendDone(cfg, s, path, t, h, nextId, key, keyUpdate, oldKey, target);
        Unchanged(s, g.seen);
        done, keyUpdate', oldKey', t', g' := true, false, 0, t, g;
        return;
      }
      var merged;
      merged, keyUpdate', oldKey', g' := RepairChild(parent, page, slot, up, g);
      done, t' := false, Rebalance(cfg, up, slot).0;
      MendStep(cfg, s, Snap(), path, t, h, nextId, key, keyUpdate, oldKey, oldKey', target);
      if !merged {
        g' := Unlocked(g', current);
      }
      AfterDrop(g, g', path, t, kept, nextId);
    }

    /** At the root: a page with a single child hands the root over to it. */
    method Collapse(current: PageId, ghost v: Tree, ghost g: Guards)
      requires StoreOk() && current in Snap() && Snap()[current] == PageOf(v) && v.Node? && |v.kids| >= 1
      requires current in g.held && headerId in g.held
      modifies this`rootId
      ensures rootId == if |v.kids| == 1 then v.kids[0].id else old(rootId)
    {
      hide Locked, Unlocked, Created, Sound, Tidy;
      var page := Guarded(current, g);
      assert Snap()[current] == page.Value();
      if page.GetSize(g) == 1 {
        SetRootPageId(page.ValueAt(0, g), g);
      } else if page.GetSize(g) == 0 {
        assert false;
      }
    }

    /** The loop over the ancestors after a leaf has borrowed or been merged; every guard is dropped at the end. */
    method Mend(writeSet: seq<PageId>, pageId: PageId, kept: seq<PageId>, key: int, keyUpdate: bool, oldKey: int,
                ghost path: Path, ghost t: Tree, ghost h: nat, ghost target: Tree, ghost g: Guards)
      returns (ghost g': Guards)
      requires StoreOk() && Mending(cfg, Snap(), path, t, h, nextId, key, keyUpdate, oldKey, target)
      requires writeSet == PathIds(path) && pageId == t.id && Holding(g, path, t, kept, nextId) && g.count < g.peak
      requires rootId == if path == [] then t.id else path[0].id
      modifies this`rootId, pages.Values
      ensures StoreOk() && Represents(Snap(), target) && rootId == target.id
      ensures g'.held == {} && g'.peak == g.peak && g'.first == g.first && g'.next == nextId
      ensures g.seen <= g'.seen && SameExcept(old(Snap()), Snap(), g'.seen)
    {
      hide Mending, Holding, Locked, Unlocked, Created, Sound, Tidy, SameExcept, Represents, PathIds, NoRepeat, SetOf, StoreOk, Snap;
      var current, stack, ku, ok := pageId, writeSet, keyUpdate, oldKey;
      ghost var p, v, hh := path, t, h;
      g' := g;
      Unchanged(Snap(), g.seen);
      while true
        invariant StoreOk() && Mending(cfg, Snap(), p, v, hh, nextId, key, ku, ok, target)
        invariant stack == PathIds(p) && current == v.id && Holding(g', p, v, kept, nextId)
        invariant g'.count < g'.peak == g.peak && g'.first == g.first
        invariant rootId == if p == [] then v.id else p[0].id
        invariant g.seen <= g'.seen && SameExcept(old(Snap()), Snap(), g'.seen)
        decreases |p|
      {
        MendFacts(cfg, Snap(), p, v, hh, nextId, key, ku, ok, target);
        HoldingFacts(g', p, v, kept, nextId);
        if current == GetRootPageId(g') {
          MendRoot(cfg, Snap(), p, v, hh, nextId, key, ku, ok, target);
          Collapse(current, v, g');
          g' := ReleaseAll(MendChain(stack, current, kept), g');
          return;
        }
        PathIdsSplit(p);
        var parent := stack[|stack| - 1];
        stack := stack[..|stack| - 1];
        var done;
        ghost var v', s, seen := v, Snap(), g'.seen;
        done, ku, ok, v', g' := MendOnce(parent, current, key, ku, ok, kept, p, v, hh, target, g');
        SameThrough(old(Snap()), s, Snap(), seen, g'.seen);
        if done {
          HoldingExit(g', p, v, kept, nextId);
          g' := ReleaseAll(stack + [current] + [parent] + (kept + [headerId]), g');
          return;
        }
        current := parent;
        p, v, hh := Init(p), v', hh + 1;
      }
    }

    /** The underfull leaf's page, its parent, and its slot there. */
    method FindShortLeaf(parentId: PageId, leafId: PageId, key: int, ghost path: Path, ghost leaf: Tree, ghost target: Option<Tree>, ghost g: Guards)
      returns (parent: Page, page: Page, slot: nat)
      requires StoreOk() && Deleted(cfg, Snap(), path, leaf, nextId, key, target)
      requires leaf.Leaf? && |leaf.items| < cfg.LeafMin() && path != [] && parentId == Last(path).id && leafId == leaf.id
      requires parentId in g.held && leafId in g.held
      ensures slot == |Last(path).left| && RepairReady(Fill(Last(path), leaf), slot, parent, page)
    {
      hide Deleted, Represents, Locked, Unlocked, Created, Sound, Tidy;
      ghost var s, up := Snap(), Fill(Last(path), leaf);
      DeletedFacts(cfg, s, path, leaf, nextId, key, target);
      DeletedDone(cfg, s, path, leaf, nextId, key, target);
      RepresentedHere(s, leaf);
      parent := Guarded(parentId, g);
      page := Guarded(leafId, g);
      assert s[parentId] == parent.Value();
      SepsSorted(Last(path).box.lo, up.seps, Last(path).box.hi, parent.keys);
      slot := parent.ChildSlot(key, g);
    }

    /** An underfull leaf below the root: repair it, then go up. */
    method RepairUnderflow(writeSet: seq<PageId>, leafId: PageId, key: int,
                           ghost path: Path, ghost leaf: Tree, ghost target: Option<Tree>, ghost g: Guards)
      returns (ghost g': Guards)
      requires StoreOk() && Deleted(cfg, Snap(), path, leaf, nextId, key, target)
      requires leaf.Leaf? && |leaf.items| < cfg.LeafMin() && path != [] && FocusDistinct(path, leaf, nextId)
      requires writeSet == PathIds(path) && leafId == leaf.id && rootId == path[0].id
      requires Holding(g, path, leaf, [], nextId) && g.count == g.peak
      modifies this`rootId, pages.Values
      ensures StoreOk() && target.Some? && Represents(Snap(), target.value) && rootId == target.value.id
      ensures g'.held == {} && g'.peak == g.peak + 1 && g'.first == g.first && g'.next == nextId
      ensures g.seen <= g'.seen && SameExcept(old(Snap()), Snap(), g'.seen)
    {
      hide Deleted, Mending, Holding, RepairPair, Represents, Choose, Locked, Unlocked, Created, Sound, Tidy, SameExcept, PathIds, StoreOk, RepairReady, Snap;
      ghost var s, up := Snap(), Fill(Last(path), leaf);
      DeletedFacts(cfg, s, path, leaf, nextId, key, target);
      HoldingFacts(g, path, leaf, [], nextId);
      DeletedDone(cfg, s, path, leaf, nextId, key, target);
      PathIdsSplit(path);
      SiblingsFree(g, path, leaf, []);
      var parentId := writeSet[|writeSet| - 1];
      var parent, page, slot := FindShortLeaf(parentId, leafId, key, path, leaf, target, g);
      var merged, ku, oldKey;
      merged, ku, oldKey, g' := RepairChild(parent, page, slot, up, g);
      ghost var s1, seen := Snap(), g'.seen;
      MendStart(cfg, s, s1, path, leaf, nextId, key, oldKey, target);
      if merged {
        AfterDrop(g, g', path, leaf, [], nextId);
      } else {
        AfterLeafBorrow(g, g', path, leaf, nextId);
      }
      g' := Mend(writeSet[..|writeSet| - 1], parentId, if merged then [] else [leafId], key, ku, oldKey,
                 Init(path), Rebalance(cfg, up, slot).0, 1, target.value, g');
      SameThrough(s, s1, Snap(), seen, g'.seen);
    }

    /** Takes the item in slot `index` out of a leaf page. */
    method DeleteAt(page: Page, leafId: PageId, index: nat, ghost g: Guards)
      requires StoreOk() && leafId in pages && pages[leafId] == page && page.isLeaf && index < |page.items| && leafId in g.held
      modifies page`items
      ensures StoreOk() && SameExcept(old(Snap()), Snap(), {leafId})
      ensures leafId in Snap() && Snap()[leafId] == LeafPage(RemoveAt(old(page.items), index), page.next)
    {
      hide Locked, Unlocked, Created, Sound, Tidy, RemoveAt;
      ghost var was := Snap();
      page.RemoveItem(index, g);
      assert forall x :: x in was && x != leafId ==> x in pages && pages[x].Value() == was[x];
    }

    /** The first half of `Remove`: lock the way down and take the item out of its leaf. */
    method TakeOut(key: int, ghost g: Guards)
      returns (found: bool, writeSet: seq<PageId>, page: Page, ghost path: Path, ghost leaf: Tree, ghost g': Guards)
      requires Valid() && root.Some? && MIN_KEY <= key <= MAX_KEY
      requires g.held == {headerId} && g.count == g.peak == 1 && g.next == nextId
      modifies pages.Values
      ensures StoreOk() && leaf.id in pages && pages[leaf.id] == page
      ensures !found ==> RemoveTree(cfg, root.value, key) == Some(root.value) && Represents(Snap(), root.value) && rootId == root.value.id
      ensures found ==> leaf.Leaf? && Deleted(cfg, Snap(), path, leaf, nextId, key, RemoveTree(cfg, root.value, key))
      ensures found ==> page.isLeaf && |page.items| == |leaf.items| && rootId == if path == [] then leaf.id else path[0].id
      ensures path == Descend([], root.value, key).path
      ensures var l := Descend([], root.value, key).leaf;
        l.Leaf? && found == FoundAt(l.items, LeafIndex(l.items, key), key) && (found ==> |leaf.items| == |l.items| - 1)
      ensures writeSet == PathIds(path) + [leaf.id] == SearchPath(root, key) && |path| == Height(root.value)
      ensures Holding(g', path, leaf, [], nextId) && g'.count == g'.peak == 2 + |path| && g'.first == g.first
      ensures SameExcept(old(Snap()), Snap(), g'.seen)
    {
      hide AtLeaf, Deleted, RemoveTree, Represents, PathIds, Locked, Unlocked, Created, Sound, Tidy, SameExcept, SetOf, NoRepeat, StoreOk, Snap;
      ghost var whole, s := root.value, Snap();
      ghost var d;
      writeSet, d, g' := FindAndLock(key, g);
      path, leaf := d.path, d.leaf;
      AtLeafFacts(cfg, s, whole, key, d, nextId);
      assert writeSet + [headerId] == MendChain(PathIds(path), leaf.id, []);
      HoldingFacts(g', path, leaf, [], nextId);
      page := Guarded(writeSet[|writeSet| - 1], g');
      assert s[leaf.id] == page.Value();
      var index := page.LeafKeyIndex(key, g');
      found := index < page.GetSize(g') && page.ItemAt(index, g').key == key;
      if !found {
        RemoveTreeSkips(cfg, whole, key);
        Unchanged(s, g'.seen);
        return;
      }
      DeleteAt(page, writeSet[|writeSet| - 1], index, g');
      leaf := leaf.(items := RemoveAt(leaf.items, index));
      PageFacts(leaf.id);
      DeletedStart(cfg, s, Snap(), whole, key, d, nextId);
      AllSeen(g', leaf.id);
      SameMore(s, Snap(), {leaf.id}, g'.seen);
    }

    /** `Remove` on a tree that has a root. */
    method RemoveNonEmpty(key: int, ghost g: Guards) returns (ghost g': Guards)
      requires Valid() && root.Some? && MIN_KEY <= key <= MAX_KEY
      requires g.held == {headerId} && g.count == g.peak == 1 && g.next == nextId
      modifies this`rootId, pages.Values
      ensures StoreOk()
      ensures match RemoveTree(cfg, root.value, key)
              case None => rootId == INVALID_PAGE_ID
              case Some(t) => Represents(Snap(), t) && rootId == t.id
      ensures g'.held == {} && g'.first == g.first && g'.next == nextId
      ensures g'.peak == Height(root.value) + if Underflows(cfg, root.value, key) then 3 else 2
      ensures SetOf(SearchPath(root, key) + [headerId]) <= g'.seen && SameExcept(old(Snap()), Snap(), g'.seen)
    {
      hide Deleted, RemoveTree, Represents, Holding, FocusDistinct, TreeStored, PathIds, Locked, Unlocked, Created, Sound, Tidy, SameExcept, SetOf, NoRepeat, SearchPath, StoreOk, Valid, Height, Snap;
      ghost var s, target := Snap(), RemoveTree(cfg, root.value, key);
      var found, writeSet, page;
      ghost var path, leaf;
      found, writeSet, page, path, leaf, g' := TakeOut(key, g);
      HoldingFacts(g', path, leaf, [], nextId);
      assert writeSet + [headerId] == MendChain(PathIds(path), leaf.id, []);
      RunSeen(g', writeSet + [headerId]);
      if !found {
        g' := ReleaseAll(writeSet + [headerId], g');
        return;
      }
      DeletedDone(cfg, Snap(), path, leaf, nextId, key, target);
      PageFacts(leaf.id);
      if page.GetSize(g') >= page.GetMinSize(g') {
        g' := ReleaseAll(writeSet + [headerId], g');
        return;
      }
      var leafId := writeSet[|writeSet| - 1];
      writeSet := writeSet[..|writeSet| - 1];
      if |writeSet| == 0 {
        if page.GetSize(g') == 0 {
          SetRootPageId(INVALID_PAGE_ID, g');
        }
        assert [leafId] + [headerId] == MendChain([], leaf.id, []);
        g' := ReleaseAll([leafId] + [headerId], g');
        return;
      }
      ghost var s1, seen := Snap(), g'.seen;
      g' := RepairUnderflow(writeSet, leafId, key, path, leaf, target, g');
      SameThrough(s, s1, Snap(), seen, g'.seen);
    }

    lemma RunSeen(g: Guards, ids: seq<PageId>)
      requires g.held == SetOf(ids)
      ensures SetOf(ids) <= g.seen
    {
      hide SetOf;
      forall x | x in g.held ensures x in g.seen {
      }
    }

    /** `Insert` into a tree that has a root. */
    method InsertNonEmpty(it: Item, ghost g: Guards) returns (ok: bool, ghost g': Guards)
      requires Valid() && root.Some? && MIN_KEY <= it.key <= MAX_KEY
      requires g.held == {headerId} && g.count == g.peak == 1 && g.next == nextId
      modifies this`pages, this`nextId, this`rootId, pages.Values
      ensures StoreOk() && fresh(pages.Values - old(pages.Values))
      ensures ok <==> !HasKey(Items(old(root.value)), it.key)
      ensures var target := InsertTree(cfg, old(root.value), it, old(nextId));
        Represents(Snap(), target.0) && rootId == target.0.id && nextId == target.1
      ensures g'.held == {} && g'.first == g.first && g'.next == nextId
      ensures g'.peak == Height(old(root.value)) + if nextId == old(nextId) then 2 else 3
      ensures SetOf(SearchPath(old(root), it.key) + [headerId]) <= g'.seen && SameExcept(old(Snap()), Snap(), g'.seen)
    {
      hide InsertTree, AtLeaf, Represents, PathIds, Locked, Unlocked, Created, Sound, Tidy, SameExcept, SetOf, NoRepeat, TreeOk, HasKey, SearchPath, StoreOk, Height, Snap;
      ghost var whole, locked := root.value, SearchPath(root, it.key) + [headerId];
      var writeSet;
      ghost var d;
      writeSet, d, g' := FindAndLock(it.key, g);
      AtLeafFacts(cfg, Snap(), whole, it.key, d, nextId);
      RunSeen(g', locked);
      var leafId := writeSet[|writeSet| - 1];
      InSet(writeSet + [headerId], leafId);
      assert (writeSet + [headerId])[|writeSet| - 1] == leafId;
      var page := Guarded(leafId, g');
      assert Snap()[leafId] == page.Value();
      var index := page.LeafKeyIndex(it.key, g');
      if index < page.GetSize(g') && page.ItemAt(index, g').key == it.key {
        StoreFacts();
        InsertTreeSkips(cfg, whole, it, nextId);
        Unchanged(Snap(), g'.seen);
        g' := ReleaseAll(writeSet + [headerId], g');
        ok := false;
        return;
      }
      writeSet := writeSet[..|writeSet| - 1];
      assert writeSet == PathIds(d.path) && locked == writeSet + [leafId] + [headerId];
      g' := InsertBelow(writeSet, leafId, index, it, whole, d, g');
      ok := true;
    }

    // ----- the public operations -----

    /** `FindLeafPage`: each page is released once its child is held. */
    method FindLeafPage(key: int, ghost g: Guards) returns (leafId: PageId, page: Page, ghost d: Descent, ghost g': Guards)
      requires StoreOk() && TreeStored() && root.Some? && MIN_KEY <= key <= MAX_KEY
      requires g.held == {headerId} && g.count == g.peak == 1 && g.next == nextId
      ensures AtLeaf(cfg, Snap(), root.value, key, d, nextId) && leafId == d.leaf.id && leafId in pages && page == pages[leafId]
      ensures g'.held == {headerId, leafId} && leafId != headerId && g'.count == 2 && g'.first == g.first && g'.next == nextId
      ensures g'.peak == (if Height(root.value) == 0 then 2 else 3) && g'.seen == g.seen + SetOf(SearchPath(root, key))
    {
      hide Visiting, Locked, Unlocked, Created, Sound, Tidy, TreeOk, Represents, SetOf, StoreOk, Snap;
      ghost var whole := root.value;
      leafId := GetRootPageId(g);
      ghost var path, t, h := [], whole, Height(whole);
      StoreFacts();
      VisitRoot(cfg, Snap(), whole, key, nextId);
      VisitPage(Snap(), whole, path, t, h, key);
      PageFacts(leafId);
      page, g' := Acquire(leafId, g);
      assert PathIds(path) + [leafId] == [] + [leafId];
      HeaderOnly(leafId);
      while !page.IsLeaf(g')
        invariant Visiting(Snap(), whole, path, t, h, key)
        invariant leafId == t.id && leafId in pages && page == pages[leafId] && page.id == leafId && (page.isLeaf <==> t.Leaf?)
        invariant g'.held == {headerId, leafId} && headerId != leafId && g'.count == 2 && g'.first == g.first && g'.next == nextId
        invariant |path| + h == Height(whole) && g'.peak == if path == [] then 2 else 3
        invariant g'.seen == g.seen + SetOf(PathIds(path) + [leafId])
        decreases h
      {
        var child;
        child, path, t := FetchChild(page, key, whole, path, t, h, g');
        h := h - 1;
        PageFacts(child);
        HandOver(g', headerId, leafId, child);
        page, g' := Acquire(child, g');
        g' := Unlocked(g', leafId);
        PathAndHeader(PathIds(path), child);
        leafId := child;
        VisitPage(Snap(), whole, path, t, h, key);
      }
      VisitPage(Snap(), whole, path, t, h, key);
      d := Descent(path, t);
    }

    /** The value stored under `key`, if any. `log` is what it locked and released. */
    method GetValue(key: Key) returns (r: Option<Rid>, ghost log: seq<Event>)
      requires Valid()
      ensures r == if key in Contents() then Some(Contents()[key]) else None
      ensures Legal(nextId, log) && HeldAfter(log) == {} && NextAfter(nextId, log) == nextId
      ensures MostHeld(log) == Smaller(Levels() + 1, 3) && LockedIn(log) == SetOf(SearchPath(root, key) + [headerId])
    {
      hide AtLeaf, Locked, Unlocked, Created, Sound, Tidy, SetOf, TreeOk, Dict, Items, Height;
      ghost var g := Locked(NoGuards(nextId), headerId);
      assert rootId == INVALID_PAGE_ID <==> root.None?;
      if GetRootPageId(g) == INVALID_PAGE_ID {
        NoPath(key, headerId);
        g := Unlocked(g, headerId);
        ReadOff(g);
        return None, g.log;
      }
      hide SearchPath, Represents;
      var leafId, page;
      ghost var d;
      leafId, page, d, g := FindLeafPage(key, g);
      AtLeafFacts(cfg, Snap(), root.value, key, d, nextId);
      LookupIsMapLookup(cfg, root.value, key, nextId);
      assert Snap()[leafId] == page.Value();
      var index := page.LeafKeyIndex(key, g);
      if index < page.GetSize(g) && page.ItemAt(index, g).key == key {
        r := Some(page.ItemAt(index, g).rid);
        g := Unlocked(Unlocked(g, leafId), headerId);
      } else {
        r := None;
        g := Unlocked(Unlocked(g, headerId), leafId);
      }
      PathAndHeader(SearchPath(root, key), headerId);
      ReadOff(g);
      log := g.log;
    }

    /**
     * Adds `key` with `rid` unless the key is there. `log` is what it locked and released: never a page it held,
     * nothing held at the end, every changed and every new page locked, and two pages more than there are levels
     * at once when a page was split, one more otherwise.
     */
    method Insert(key: Key, rid: Rid) returns (ok: bool, ghost log: seq<Event>)
      requires Valid()
      modifies this`pages, this`nextId, this`rootId, this`root, pages.Values
      ensures Valid() && fresh(pages.Values - old(pages.Values))
      ensures ok <==> key !in old(Contents())
      ensures Contents() == if ok then old(Contents())[key := rid] else old(Contents())
      ensures root == Some(if old(root).None? then Leaf(old(nextId), [Item(key, rid)], INVALID_PAGE_ID)
                           else InsertTree(cfg, old(root).value, Item(key, rid), old(nextId)).0)
      ensures nextId == if old(root).None? then old(nextId) + 1 else InsertTree(cfg, old(root).value, Item(key, rid), old(nextId)).1
      ensures old(CappedRoot()) ==> CappedRoot()
      ensures Legal(old(nextId), log) && HeldAfter(log) == {} && NextAfter(old(nextId), log) == nextId
      ensures MostHeld(log) == old(Levels()) + if nextId == old(nextId) then 1 else 2
      ensures SetOf(SearchPath(old(root), key) + [headerId]) <= LockedIn(log) && SameExcept(old(Snap()), Snap(), LockedIn(log))
      ensures forall x :: old(nextId) <= x < nextId ==> x in LockedIn(log)
    {
      hide TreeStored, InsertTree, Sound, Tidy, SetOf, SameExcept, SearchPath, Height, Items, Dict;
      ghost var g := Locked(NoGuards(nextId), headerId);
      RootIdTells();
      if GetRootPageId(g) == INVALID_PAGE_ID {
        ok := true;
        g := InsertFirst(Item(key, rid), g);
      } else {
        ok, g := InsertAgain(Item(key, rid), g);
      }
      ReadOff(g);
      log := g.log;
    }

    lemma RootIdTells()
      requires Valid()
      ensures rootId == INVALID_PAGE_ID <==> root.None?
    {
    }

    /** `Insert` into the empty tree. */
    method InsertFirst(it: Item, ghost g: Guards) returns (ghost g': Guards)
      requires Valid() && root.None? && MIN_KEY <= it.key <= MAX_KEY
      requires g.held == {headerId} && g.count == g.peak == 1 && g.next == nextId
      modifies this`pages, this`nextId, this`rootId, this`root
      ensures Valid() && fresh(pages.Values - old(pages.Values)) && nextId == old(nextId) + 1
      ensures root == Some(Leaf(old(nextId), [it], INVALID_PAGE_ID)) && Contents() == map[it.key := it.rid] && CappedRoot()
      ensures g'.held == {} && g'.peak == 2 && g'.first == g.first && g'.next == nextId
      ensures SetOf(SearchPath(old(root), it.key) + [headerId]) <= g'.seen && SameExcept(old(Snap()), Snap(), g'.seen)
    {
      hide Sound, SameExcept, SetOf, Represents, TreeOk, Items, Dict, Tidy;
      ghost var s := Snap();
      g' := FirstLeaf(it, g);
      root := Some(Leaf(rootId, [it], INVALID_PAGE_ID));
      FirstLeafOk(rootId, it);
      SameMore(s, Snap(), {}, g'.seen);
      HeaderOnly(headerId);
    }

    /** `Insert` into a tree that has a root, with what it means for the map. */
    method InsertAgain(it: Item, ghost g: Guards) returns (ok: bool, ghost g': Guards)
      requires Valid() && root.Some? && MIN_KEY <= it.key <= MAX_KEY
      requires g.held == {headerId} && g.count == g.peak == 1 && g.next == nextId
      modifies this`pages, this`nextId, this`rootId, this`root, pages.Values
      ensures Valid() && fresh(pages.Values - old(pages.Values))
      ensures ok <==> it.key !in old(Contents())
      ensures Contents() == if ok then old(Contents())[it.key := it.rid] else old(Contents())
      ensures var (t, n) := InsertTree(cfg, old(root).value, it, old(nextId)); root == Some(t) && nextId == n
      ensures old(CappedRoot()) ==> CappedRoot()
      ensures g'.held == {} && g'.first == g.first && g'.next == nextId
      ensures g'.peak == old(Levels()) + if nextId == old(nextId) then 1 else 2
      ensures SetOf(SearchPath(old(root), it.key) + [headerId]) <= g'.seen && SameExcept(old(Snap()), Snap(), g'.seen)
    {
      hide InsertTree, TreeOk, Items, Dict, Represents, SameExcept, SetOf, SearchPath, Height, Capped, HasKey, Sound, Tidy;
      ghost var whole, n := root.value, nextId;
      InsertTreeOk(cfg, whole, it, n);
      InsertTreeDict(cfg, whole, it, n);
      ok, g' := InsertNonEmpty(it, g);
      root := Some(InsertTree(cfg, whole, it, n).0);
    }

    /** The root of a tree with one item. */
    method FirstLeaf(it: Item, ghost g: Guards) returns (ghost g': Guards)
      requires StoreOk() && g.held == {headerId} && g.count == g.peak == 1 && g.next == nextId
      modifies this`pages, this`nextId, this`rootId
      ensures StoreOk() && fresh(pages.Values - old(pages.Values))
      ensures rootId == old(nextId) && nextId == rootId + 1 && Represents(Snap(), Leaf(rootId, [it], INVALID_PAGE_ID))
      ensures g'.held == {} && g'.peak == 2 && g'.first == g.first && g'.next == nextId && headerId in g'.seen
      ensures SameExcept(old(Snap()), Snap(), {})
    {
      hide Locked, Unlocked, Created, Sound, Tidy, StoreOk, SameExcept;
      ghost var s := Snap();
      AllSeen(g, headerId);
      StoreFacts();
      var id, page;
      id, page, g' := NewPage(true, g);
      SetRootPageId(id, g');
      ghost var s1 := Snap();
      PutItem(page, 0, it, g');
      SameFresh(s, s1, Snap(), id);
      g' := Unlocked(Unlocked(g', id), headerId);
    }

    lemma FirstLeafOk(id: PageId, it: Item)
      requires cfg.Ok() && id >= 0 && MIN_KEY <= it.key <= MAX_KEY
      ensures var t := Leaf(id, [it], INVALID_PAGE_ID); TreeOk(cfg, t, id + 1) && Dict(Items(t)) == map[it.key := it.rid]
    {
      assert [it][..0] == [];
    }

    /** Takes `key` out, if it is there. `log` as for `Insert`; a leaf that gets too small costs one page more at once. */
    method Remove(key: Key) returns (ghost log: seq<Event>)
      requires Valid()
      modifies this`rootId, this`root, pages.Values
      ensures Valid()
      ensures Contents() == old(Contents()) - {key}
      ensures root == if old(root).None? then None else RemoveTree(cfg, old(root).value, key)
      ensures Legal(nextId, log) && HeldAfter(log) == {} && NextAfter(nextId, log) == nextId
      ensures MostHeld(log) == old(Levels()) + if old(root).Some? && Underflows(cfg, old(root).value, key) then 2 else 1
      ensures SetOf(SearchPath(old(root), key) + [headerId]) <= LockedIn(log) && SameExcept(old(Snap()), Snap(), LockedIn(log))
    {
      hide TreeStored, RemoveTree, Underflows, Locked, Unlocked, Created, Sound, Tidy, SetOf, SameExcept, SearchPath, Height, Items, Dict;
      ghost var g := Locked(NoGuards(nextId), headerId);
      RootIdTells();
      if GetRootPageId(g) == INVALID_PAGE_ID {
        NoPath(key, headerId);
        Unchanged(Snap(), g.seen);
        g := Unlocked(g, headerId);
      } else {
        g := RemoveAgain(key, g);
      }
      ReadOff(g);
      log := g.log;
    }

    /** `Remove` on a tree that has a root, with what it means for the map. */
    method RemoveAgain(key: Key, ghost g: Guards) returns (ghost g': Guards)
      requires Valid() && root.Some? && g.held == {headerId} && g.count == g.peak == 1 && g.next == nextId
      modifies this`rootId, this`root, pages.Values
      ensures Valid() && Contents() == old(Contents()) - {key} && root == RemoveTree(cfg, old(root).value, key)
      ensures g'.held == {} && g'.first == g.first && g'.next == nextId
      ensures g'.peak == old(Levels()) + if Underflows(cfg, old(root).value, key) then 2 else 1
      ensures SetOf(SearchPath(old(root), key) + [headerId]) <= g'.seen && SameExcept(old(Snap()), Snap(), g'.seen)
    {
      hide RemoveTree, TreeOk, Items, Dict, Represents, SameExcept, SetOf, SearchPath, Height, Underflows, Locked, Unlocked, Created, Sound, Tidy;
      ghost var whole := root.value;
      RemoveTreeKeeps(cfg, whole, key, nextId);
      RemoveTreeDict(cfg, whole, key, nextId);
      g' := RemoveNonEmpty(key, g);
      root := RemoveTree(cfg, whole, key);
    }

    /** The number of pages on a path from the root to a leaf. */
    ghost function Levels(): nat
      reads this`root
    {
      if root.None? then 0 else Height(root.value) + 1
    }

    ghost predicate CappedRoot()
      reads this`root
    {
      root.Some? ==> Capped(cfg, root.value)
    }
  }
}
