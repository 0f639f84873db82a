/**
 * The buffer pool, its frames, its disk and its page guards as objects. Each method is proved to make the step of
 * the same name on `View()`, the pool as a value; what the steps promise is proved about those values.
 */
module BufferPools {
  import opened Types
  import opened ArcModel
  import opened ArcReplacers
  import opened PoolModel

  class FrameHeader {
    const frameId: FrameId
    var data: Data
    var pin: int
    var dirty: bool

    constructor (id: FrameId)
      ensures frameId == id && data == Zeros() && pin == 0 && !dirty
    {
      frameId, data, pin, dirty := id, Zeros(), 0, false;
    }

    method Reset()
      modifies this
      ensures data == Zeros() && pin == 0 && !dirty
    {
      data, pin, dirty := Zeros(), 0, false;
    }
  }

  class DiskManager {
    var pages: map<PageId, Data>

    constructor ()
      ensures pages == map[]
    {
      pages := map[];
    }

    method AllocatePage(p: PageId)
      requires p !in pages
      modifies this
      ensures pages == old(pages)[p := Zeros()]
    {
      pages := pages[p := Zeros()];
    }

    /** A page never seen before is allocated, and reads as zeros. */
    method ReadPage(p: PageId) returns (d: Data)
      modifies this
      ensures d == (if p in old(pages) then old(pages)[p] else Zeros()) && pages == old(pages)[p := d]
    {
      if p !in pages {
        AllocatePage(p);
      }
      d := pages[p];
    }

    method WritePage(p: PageId, d: Data)
      modifies this
      ensures pages == old(pages)[p := d]
    {
      if p !in pages {
        AllocatePage(p);
      }
      pages := pages[p := d];
    }
  }

  ghost function Snaps(fs: seq<FrameHeader>): (r: seq<Frame>)
    reads fs
    ensures |r| == |fs| && forall i :: 0 <= i < |fs| ==> r[i] == Frame(fs[i].data, fs[i].pin, fs[i].dirty)
  {
    if fs == [] then [] else [Frame(fs[0].data, fs[0].pin, fs[0].dirty)] + Snaps(fs[1..])
  }

  class BufferPoolManager {
    const frames: seq<FrameHeader>
    const replacer: ArcReplacer
    const disk: DiskManager
    var table: map<PageId, FrameId>
    var free: seq<FrameId>
    var next: PageId
    var diskReads: nat
    var diskWrites: nat
    var hits: nat
    var misses: nat
    /** The guards callers hold; the objects themselves belong to the callers. */
    ghost var guards: map<GuardId, Guard>

    /** Frames are numbered by their position. */
    ghost predicate Numbered() {
      forall i :: 0 <= i < |frames| ==> frames[i].frameId == i
    }

    ghost function View(): Pool
      reads this, frames, replacer, disk
    {
      Pool(Snaps(frames), table, free, replacer.State(), disk.pages, next, guards, diskReads, diskWrites, hits, misses)
    }

    ghost predicate Valid()
      reads this, frames, replacer, disk
    {
      Numbered() && PoolInv(View())
    }

    constructor (n: nat)
      requires n < TWO_TO_64
      ensures Valid() && View() == Init(n)
      ensures fresh(replacer) && fresh(disk) && forall i :: 0 <= i < |frames| ==> fresh(frames[i])
    {
      hide PoolInv, Snaps, Zeros;
      var fs: seq<FrameHeader>, ids: seq<FrameId> := [], [];
      var i := 0;
      while i < n
        invariant 0 <= i <= n && |fs| == |ids| == i
        invariant forall j :: 0 <= j < i ==> fresh(fs[j]) && fs[j].frameId == j && ids[j] == j
        invariant forall j :: 0 <= j < i ==> fs[j].data == Zeros() && fs[j].pin == 0 && !fs[j].dirty
      {
        var frame := new FrameHeader(i);
        fs, ids := fs + [frame], ids + [i];
        i := i + 1;
      }
      frames, free, table, next := fs, ids, map[], 0;
      replacer := new ArcReplacer(n);
      disk := new DiskManager();
      diskReads, diskWrites, hits, misses := 0, 0, 0, 0;
      guards := map[];
      new;
      InitOk(n);
      assert View().frames == Init(n).frames;
      assert View().free == Init(n).free;
    }

    method NewPage() returns (p: PageId)
      requires Valid()
      modifies this
      ensures Valid() && p == old(next) && View() == Next(old(View()), New)
    {
      hide PoolInv;
      NewPageOk(View());
      p := next;
      next := next + 1;
    }

    /** `PageSwitch(true, ...)`: the frame's bytes go to the disk copy of the page. */
    method PageOut(p: PageId, f: FrameId)
      requires f < |frames|
      modifies this`diskWrites, disk
      ensures disk.pages == old(disk.pages)[p := frames[f].data] && diskWrites == old(diskWrites) + 1
    {
      disk.WritePage(p, frames[f].data);
      diskWrites := diskWrites + 1;
    }

    /** `Reset` and `PageSwitch(false, ...)`: the frame gets the disk copy of the page. */
    method PageIn(p: PageId, f: FrameId)
      requires f < |frames| && Numbered()
      modifies this`diskReads, this`misses, this`table, disk, frames[f]
      ensures View() == Load(old(View()), p, f)
    {
      hide Zeros, Snaps;
      frames[f].Reset();
      var d := disk.ReadPage(p);
      frames[f].data := d;
      diskReads := diskReads + 1;
      table := table[p := f];
      misses := misses + 1;
      assert Snaps(frames) == Put(old(Snaps(frames)), f, Frame(d, 0, false));
    }

    /** The loop over the page table, in whatever order the table is stored. */
    method FindPage(f: FrameId) returns (q: Option<PageId>)
      ensures q.Some? ==> q.value in table && table[q.value] == f
      ensures q.None? ==> forall p :: p in table ==> table[p] != f
    {
      var todo := table.Items;
      while todo != {}
        invariant todo <= table.Items && forall p :: p in table && table[p] == f ==> (p, f) in todo
      {
        var entry :| entry in todo;
        if entry.1 == f {
          return Some(entry.0);
        }
        todo := todo - {entry};
      }
      return None;
    }

    /** Makes room for a page by evicting another one, written back first if it is dirty. */
    method Vacate(f: FrameId)
      requires f < |frames| && forall p, q :: p in table && q in table && table[p] == f && table[q] == f ==> p == q
      modifies this`table, this`diskWrites, disk
      ensures View() == Release(old(View()), f)
    {
      hide Snaps;
      ghost var s := View();
      var q := FindPage(f);
      if q.Some? {
        if frames[f].dirty {
          PageOut(q.value, f);
        }
        table := table - {q.value};
        ReleaseAlone(s, q.value, f);
        assert Snaps(frames) == s.frames;
        assert View() == Unmap(s, q.value, f);
      }
    }

    /** The part of `CheckedReadPage` and `CheckedWritePage` under the latch. */
    method BringPage(p: PageId) returns (r: Option<FrameId>)
      requires Valid()
      modifies this, frames, replacer, disk
      ensures match Bring(old(View()), p) {
        case None => r.None? && View() == old(View())
        case Some(b) => r == Some(b.0) && View() == b.1
      }
    {
      ghost var s := View();
      hide PoolInv, Load, Release;
      if p < 0 || p >= next {
        return None;
      }
      if p in table {
        hits := hits + 1;
        return Some(table[p]);
      }
      if |free| > 0 {
        FirstFree(s);
        var f := free[0];
        free := free[1..];
        PageIn(p, f);
        return Some(f);
      }
      r := BringVictim(p);
    }

    /** The last resort: a frame the replacer gives up. */
    method BringVictim(p: PageId) returns (r: Option<FrameId>)
      requires Valid()
      modifies this, frames, replacer, disk
      ensures r == Evict(old(replacer.State())).0
      ensures View() == if r.None? then old(View()) else Load(Release(old(View()).(arc := Evict(old(replacer.State())).1), r.value), p, r.value)
    {
      ghost var s := View();
      hide Evict, PoolInv, Load, Release;
      VictimFits(s);
      r := replacer.Evict();
      if r.Some? {
        assert View() == s.(arc := Evict(s.arc).1);
        Vacate(r.value);
        PageIn(p, r.value);
      }
    }

    /** Records the access to the page in frame `f` and makes its guard. */
    method MakeGuard(p: PageId, f: FrameId, exclusive: bool, ghost id: GuardId) returns (guard: PageGuard)
      requires Numbered() && id !in guards && Pin(View(), p, f, exclusive, id).Some?
      modifies this, frames, replacer
      ensures Pin(old(View()), p, f, exclusive, id) == Some(View())
      ensures fresh(guard) && guard.valid && guard.exclusive == exclusive && guard.id == id && guard.On(this)
    {
      hide Snaps, ArcModel.RecordAccess, ArcModel.SetEvictable;
      ghost var s := View();
      var known := replacer.RecordAccess(f, p);
      assert f < |frames| && known && ArcModel.SetEvictable(replacer.State(), f, false).Some?;
      guard := new PageGuard(p, frames[f], exclusive, replacer, disk, this, id);
      assert Snaps(frames) == Put(s.frames, f, s.frames[f].(pin := s.frames[f].pin + 1));
    }

    /** `CheckedReadPage` (`exclusive` false) and `CheckedWritePage`; `None` exactly when the fetch is refused. */
    method Fetch(p: PageId, exclusive: bool, ghost id: GuardId) returns (r: Option<PageGuard>)
      requires Valid() && id !in guards
      modifies this, frames, replacer, disk
      ensures Valid()
      ensures r.None? <==> Refused(old(View()), p)
      ensures r.None? ==> View() == old(View())
      ensures r.Some? ==> Fetched(old(View()), View(), p, exclusive, id) && PoolModel.Fetch(old(View()), p, exclusive, id) == Some(View())
      ensures r.Some? ==> p in table && Brought(old(View()), View(), p, table[p])
      ensures r.Some? ==> fresh(r.value) && r.value.valid && r.value.exclusive == exclusive && r.value.id == id && r.value.On(this)
    {
      hide PoolInv, Snaps, Bring, Pin, Refused, Fetched, Brought;
      ghost var s := View();
      FetchOk(s, p, exclusive, id);
      var b := BringPage(p);
      if b.None? {
        return None;
      }
      BringGuards(s, p);
      var guard := MakeGuard(p, b.value, exclusive, id);
      FetchedInv(s, View(), p, exclusive, id);
      FetchBrings(s, p, exclusive, id);
      return Some(guard);
    }

    method FlushPage(p: PageId) returns (found: bool)
      requires Valid()
      modifies this, frames, disk
      ensures Valid() && found == (0 <= p < old(next) && p in old(table)) && View() == PoolModel.FlushPage(old(View()), p)
    {
      hide PoolInv, Snaps, Logical, SameContents, OnDisk;
      ghost var s := View();
      FlushPageOk(s, p);
      TableFits(s, p);
      if p < 0 || p >= next {
        return false;
      }
      if p !in table {
        return false;
      }
      var f := table[p];
      if !frames[f].dirty {
        return true;
      }
      PageOut(p, f);
      frames[f].dirty := false;
      assert Snaps(frames) == Put(s.frames, f, s.frames[f].(dirty := false));
      return true;
    }

    /** Every page of the table, in whatever order the table is stored; `order` names it. */
    method FlushAllPages() returns (ghost order: seq<PageId>)
      requires Valid()
      modifies this, frames, disk
      ensures Valid() && NoDup(order) && (forall p :: p in order <==> p in old(table)) && View() == FlushEach(old(View()), order)
      ensures forall p :: OnDisk(disk.pages, p) == Logical(old(View()), p)
      ensures forall p :: p in table ==> table[p] < |frames| && !frames[table[p]].dirty
    {
      hide PoolInv, Snaps, FlushEach, OnDisk, Logical, PoolModel.FlushPage;
      ghost var s := View();
      order := [];
      var todo := table.Items;
      assert FlushEach(s, []) == s by { FlushNone(s); }
      while todo != {}
        invariant Valid() && View() == FlushEach(s, order) && table == s.table && NoDup(order)
        invariant todo <= table.Items
        invariant forall p :: p in order <==> p in table && (p, table[p]) !in todo
      {
        var entry :| entry in todo;
        var found := FlushPage(entry.0);
        FlushLast(s, order, entry.0);
        FlushPageOk(FlushEach(s, order), entry.0);
        order := order + [entry.0];
        todo := todo - {entry};
      }
      FlushAllOk(s, order);
    }

    method GetPinCount(p: PageId) returns (n: Option<int>)
      requires Valid()
      ensures n == if 0 <= p < next && p in table then Some(|GuardsOn(View().guards, table[p])|) else None
    {
      TableFits(View(), p);
      assert PinsOk(View());
      hide PoolInv;
      if p < 0 || p >= next {
        return None;
      }
      if p !in table {
        return None;
      }
      return Some(frames[table[p]].pin);
    }
  }

  lemma FlushNone(s: Pool)
    ensures FlushEach(s, []) == s
  {
  }

  lemma {:induction false} FlushLast(s: Pool, order: seq<PageId>, p: PageId)
    ensures FlushEach(s, order + [p]) == PoolModel.FlushPage(FlushEach(s, order), p)
    decreases |order|
  {
    hide PoolModel.FlushPage;
    if order == [] {
      assert [p] == [] + [p];
      FlushNone(PoolModel.FlushPage(s, p));
    } else {
      FlushLast(PoolModel.FlushPage(s, order[0]), order[1..], p);
      assert (order + [p])[1..] == order[1..] + [p];
    }
  }

  /** Read and write guards differ only in `exclusive`: whether `GetDataMut` is there. */
  class PageGuard {
    var page: PageId
    var frame: FrameHeader
    var valid: bool
    const exclusive: bool
    var replacer: ArcReplacer
    var disk: DiskManager
    ghost var id: GuardId

    /** The guard is one of `pool`'s live guards, and points where the pool says. */
    ghost predicate On(pool: BufferPoolManager)
      reads this, pool
    {
      && replacer == pool.replacer && disk == pool.disk
      && frame.frameId < |pool.frames| && pool.frames[frame.frameId] == frame
      && id in pool.guards && pool.guards[id] == Guard(page, frame.frameId, exclusive)
    }

    /** Pins the frame. */
    constructor (p: PageId, frame: FrameHeader, exclusive: bool, replacer: ArcReplacer, disk: DiskManager, ghost pool: BufferPoolManager, ghost id: GuardId)
      requires replacer == pool.replacer && disk == pool.disk && frame.frameId < |pool.frames| && pool.frames[frame.frameId] == frame
      modifies frame`pin, replacer, pool`guards
      ensures valid && this.exclusive == exclusive && this.id == id && On(pool)
      ensures frame.pin == old(frame.pin) + 1 && pool.guards == old(pool.guards)[id := Guard(p, frame.frameId, exclusive)]
      ensures replacer.State() == Or(ArcModel.SetEvictable(old(replacer.State()), frame.frameId, false), old(replacer.State()))
    {
      this.page, this.frame, this.exclusive, this.replacer, this.disk, this.id := p, frame, exclusive, replacer, disk, id;
      valid := true;
      new;
      frame.pin := frame.pin + 1;
      var known := replacer.SetEvictable(frame.frameId, false);
      pool.guards := pool.guards[id := Guard(p, frame.frameId, exclusive)];
    }

    method GetData() returns (d: Data)
      requires valid
      ensures d == frame.data
    {
      d := frame.data;
    }

    /** Unpins the frame, once. */
    method Drop(ghost pool: BufferPoolManager)
      requires pool.Valid() && (valid ==> On(pool))
      modifies this`valid, frame`pin, replacer, pool`guards
      ensures !valid && pool.Valid() && pool.guards == if old(valid) then old(pool.guards) - {id} else old(pool.guards)
      ensures pool.View() == if old(valid) then PoolModel.Drop(old(pool.View()), id) else old(pool.View())
    {
      hide PoolInv, Snaps, Logical, SameContents, ArcModel.SetEvictable;
      if valid {
        ghost var s := pool.View();
        DropOk(s, id);
        valid := false;
        frame.pin := frame.pin - 1;
        if frame.pin == 0 {
          var known := replacer.SetEvictable(frame.frameId, true);
        }
        pool.guards := pool.guards - {id};
        assert Snaps(pool.frames) == Put(s.frames, frame.frameId, s.frames[frame.frameId].(pin := s.frames[frame.frameId].pin - 1));
      }
    }

    /** A caller's write through `GetDataMut`: any new bytes, and the frame is dirty. */
    method SetData(d: Data, ghost pool: BufferPoolManager)
      requires pool.Valid() && valid && exclusive && On(pool)
      modifies frame`data, frame`dirty
      ensures pool.Valid() && pool.View() == Write(old(pool.View()), id, d)
    {
      hide PoolInv, Snaps, Logical;
      ghost var s := pool.View();
      WriteOk(s, id, d);
      frame.dirty := true;
      frame.data := d;
      assert Snaps(pool.frames) == Put(s.frames, frame.frameId, s.frames[frame.frameId].(data := d, dirty := true));
    }

    method Flush(ghost pool: BufferPoolManager)
      requires pool.Valid() && valid && On(pool)
      modifies frame`dirty, disk
      ensures pool.Valid() && pool.View() == GuardFlush(old(pool.View()), id)
      ensures !frame.dirty && pool.diskWrites == old(pool.diskWrites) && disk.pages == old(disk.pages)[page := frame.data]
    {
      hide PoolInv, Snaps, Logical, SameContents, OnDisk;
      ghost var s := pool.View();
      GuardFlushOk(s, id);
      disk.WritePage(page, frame.data);
      frame.dirty := false;
      assert Snaps(pool.frames) == Put(s.frames, frame.frameId, s.frames[frame.frameId].(dirty := false));
    }

    /** Move assignment: what this guard held is dropped, and it takes over what `that` held. */
    method Assign(that: PageGuard, ghost pool: BufferPoolManager)
      requires pool.Valid() && (valid ==> On(pool)) && (that.valid ==> that.On(pool)) && that.exclusive == exclusive
      requires this != that && valid && that.valid ==> id != that.id
      modifies this, that, frame`pin, replacer, pool`guards
      ensures pool.Valid()
      ensures this == that ==> valid == old(valid) && pool.View() == old(pool.View())
      ensures this != that ==> !that.valid && valid == old(that.valid) && (valid ==> On(pool) && id == old(that.id))
      ensures this != that ==> page == old(that.page) && frame == old(that.frame)
      ensures this != that ==> pool.View() == if old(valid) then PoolModel.Drop(old(pool.View()), old(id)) else old(pool.View())
    {
      hide PoolInv, Snaps, PoolModel.Drop, BufferPoolManager.View, BufferPoolManager.Valid;
      if this == that {
        return;
      }
      Drop(pool);
      TakeOver(that, pool);
    }

    /** The fields of `that`; the pool, its frames, replacer and disk are other objects. */
    method TakeOver(that: PageGuard, ghost pool: BufferPoolManager)
      requires pool.Valid() && this != that && (that.valid ==> that.On(pool)) && that.exclusive == exclusive
      modifies this, that
      ensures pool.Valid() && pool.View() == old(pool.View())
      ensures !that.valid && valid == old(that.valid) && page == old(that.page) && frame == old(that.frame) && id == old(that.id)
      ensures valid ==> On(pool)
    {
      hide PoolInv, BufferPoolManager.View, BufferPoolManager.Valid;
      valid, page, frame, replacer, disk, id := that.valid, that.page, that.frame, that.replacer, that.disk, that.id;
      that.valid := false;
    }
  }

  lemma FetchedInv(s: Pool, s': Pool, p: PageId, x: bool, g: GuardId)
    requires Fetched(s, s', p, x, g)
    ensures PoolInv(s')
  {
  }

  lemma BringGuards(s: Pool, p: PageId)
    ensures Bring(s, p).Some? ==> Bring(s, p).value.1.guards == s.guards
  {
    hide Evict;
  }

  lemma VictimFits(s: Pool)
    requires PoolInv(s)
    ensures var e := Evict(s.arc);
      && (e.0.None? ==> e.1 == s.arc)
      && (e.0.Some? ==> e.0.value < |s.frames| && forall p, q :: p in s.table && q in s.table && s.table[p] == e.0.value && s.table[q] == e.0.value ==> p == q)
  {
    hide Evict, ArcInv, PinsOk, CleanOk;
    EvictOk(s.arc);
    if Evict(s.arc).0.Some? {
      assert Evict(s.arc).0.value in Owners(s.arc);
    }
  }
}
