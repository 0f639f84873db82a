/**
 * The buffer pool as a state machine: frames, page table, free list, replacer, disk, and the guards still held.
 *
 * Bringing a page in, recording the access and pinning the frame are one step here; the code releases the pool's
 * latch between them, so this atomicity is an assumption about its callers. `rwlatch_` is not modelled: the facts
 * below hold whichever guards are held together.
 */
module PoolModel {
  import opened Types
  import opened ArcModel

  const PAGE_SIZE: int := 4096

  /** The bytes of a page or frame. */
  type Data = seq<bv8>

  function Zeros(): Data {
    seq(PAGE_SIZE, _ => 0)
  }

  type GuardId = nat

  datatype Frame = Frame(data: Data, pin: int, dirty: bool)

  datatype Guard = Guard(page: PageId, frame: FrameId, exclusive: bool)

  datatype Pool = Pool(
    frames: seq<Frame>, table: map<PageId, FrameId>, free: seq<FrameId>, arc: Arc, disk: map<PageId, Data>, next: PageId,
    guards: map<GuardId, Guard>, diskReads: nat, diskWrites: nat, hits: nat, misses: nat)

  // ----- steps -----

  /** What the disk holds for a page; one never written reads as zeros. */
  function OnDisk(disk: map<PageId, Data>, p: PageId): Data {
    if p in disk then disk[p] else Zeros()
  }

  /** The contents of a page, wherever they are. */
  function Logical(s: Pool, p: PageId): Data {
    if p in s.table && s.table[p] < |s.frames| then s.frames[s.table[p]].data else OnDisk(s.disk, p)
  }

  function Put(frames: seq<Frame>, f: FrameId, x: Frame): seq<Frame> {
    if f < |frames| then frames[f := x] else frames
  }

  /** Reading page `p` into the reset frame `f`. The disk remembers a page it was asked for. */
  function Load(s: Pool, p: PageId, f: FrameId): Pool {
    var d := OnDisk(s.disk, p);
    s.(frames := Put(s.frames, f, Frame(d, 0, false)), table := s.table[p := f], disk := s.disk[p := d],
       diskReads := s.diskReads + 1, misses := s.misses + 1)
  }

  ghost predicate Maps(s: Pool, f: FrameId) {
    exists q :: q in s.table && s.table[q] == f
  }

  /** Writing a frame back under its page, if it is dirty, and taking the page out of the table. */
  function Unmap(s: Pool, q: PageId, f: FrameId): Pool {
    var dirty := f < |s.frames| && s.frames[f].dirty;
    s.(disk := if dirty then s.disk[q := s.frames[f].data] else s.disk, diskWrites := if dirty then s.diskWrites + 1 else s.diskWrites,
       table := s.table - {q})
  }

  /** The page at which the loop over the page table stops. */
  ghost function Occupant(s: Pool, f: FrameId): (q: PageId)
    requires Maps(s, f)
    ensures q in s.table && s.table[q] == f
  {
    var q :| q in s.table && s.table[q] == f;
    q
  }

  ghost function Release(s: Pool, f: FrameId): Pool {
    if Maps(s, f) then Unmap(s, Occupant(s, f), f) else s
  }

  /** The frame that will hold page `p`, with the page in it. */
  ghost function Bring(s: Pool, p: PageId): Option<(FrameId, Pool)> {
    if p < 0 || p >= s.next then None
    else if p in s.table then Some((s.table[p], s.(hits := s.hits + 1)))
    else if s.free != [] then Some((s.free[0], Load(s.(free := s.free[1..]), p, s.free[0])))
    else
      var e := Evict(s.arc);
      if e.0.None? then None
      else Some((e.0.value, Load(Release(s.(arc := e.1), e.0.value), p, e.0.value)))
  }

  /** The access is recorded and the new guard pins the frame. */
  function Pin(s: Pool, p: PageId, f: FrameId, exclusive: bool, g: GuardId): Option<Pool> {
    var r := RecordAccess(s.arc, f, p);
    if r.None? || f >= |s.frames| then None
    else
      var e := SetEvictable(r.value, f, false);
      if e.None? then None
      else Some(s.(arc := e.value, frames := Put(s.frames, f, s.frames[f].(pin := s.frames[f].pin + 1)),
                   guards := s.guards[g := Guard(p, f, exclusive)]))
  }

  /** `CheckedReadPage` and `CheckedWritePage`. */
  ghost function Fetch(s: Pool, p: PageId, exclusive: bool, g: GuardId): Option<Pool> {
    var b := Bring(s, p);
    if b.None? then None else Pin(b.value.1, p, b.value.0, exclusive, g)
  }

  function Drop(s: Pool, g: GuardId): Pool {
    if g !in s.guards || s.guards[g].frame >= |s.frames| then s
    else
      var f := s.guards[g].frame;
      var frame := s.frames[f].(pin := s.frames[f].pin - 1);
      s.(frames := Put(s.frames, f, frame), guards := s.guards - {g},
         arc := if frame.pin == 0 then Or(SetEvictable(s.arc, f, true), s.arc) else s.arc)
  }

  /** A change made through `GetDataMut`. */
  function Write(s: Pool, g: GuardId, d: Data): Pool {
    if g !in s.guards || s.guards[g].frame >= |s.frames| then s
    else
      var f := s.guards[g].frame;
      s.(frames := Put(s.frames, f, s.frames[f].(data := d, dirty := true)))
  }

  /** A guard's own `Flush` writes its page out, dirty or not; it is not counted in `disk_writes_`. */
  function GuardFlush(s: Pool, g: GuardId): Pool {
    if g !in s.guards || s.guards[g].frame >= |s.frames| then s
    else
      var f := s.guards[g].frame;
      s.(disk := s.disk[s.guards[g].page := s.frames[f].data], frames := Put(s.frames, f, s.frames[f].(dirty := false)))
  }

  function FlushPage(s: Pool, p: PageId): Pool {
    if p < 0 || p >= s.next || p !in s.table || s.table[p] >= |s.frames| || !s.frames[s.table[p]].dirty then s
    else
      var f := s.table[p];
      s.(disk := s.disk[p := s.frames[f].data], frames := Put(s.frames, f, s.frames[f].(dirty := false)), diskWrites := s.diskWrites + 1)
  }

  /** Flushing the pages of `todo` one after the other, in the order of the page table, whatever that is. */
  ghost function FlushEach(s: Pool, todo: seq<PageId>): Pool
    decreases |todo|
  {
    if todo == [] then s else FlushEach(FlushPage(s, todo[0]), todo[1..])
  }

  datatype Step =
    | New
    | Get(page: PageId, exclusive: bool, guard: GuardId)
    | Change(guard: GuardId, data: Data)
    | Leave(guard: GuardId)
    | Save(guard: GuardId)
    | Flush(page: PageId)
    | FlushAll(order: seq<PageId>)

  // ----- the invariant -----

  /** Which page each frame holds, as the replacer sees it. */
  ghost function Owners(a: Arc): map<FrameId, PageId> {
    map f | f in a.alive :: a.alive[f].pageId
  }

  /** The free list and the frames holding a page partition the frames. */
  ghost predicate FramesOk(s: Pool, owner: map<FrameId, PageId>) {
    && NoDup(s.free)
    && (forall f :: f in s.free ==> f < |s.frames| && f !in owner)
    && (forall f :: f in owner ==> f < |s.frames|)
    && (forall f: FrameId :: f < |s.frames| && f !in s.free ==> f in owner)
  }

  /** The page table and the frames' pages are inverse to each other, so the table is injective. */
  ghost predicate TableOk(s: Pool, owner: map<FrameId, PageId>) {
    && (forall p :: p in s.table ==> s.table[p] in owner && owner[s.table[p]] == p)
    && (forall f :: f in owner ==> owner[f] in s.table && s.table[owner[f]] == f)
    && (forall p :: p in s.table ==> 0 <= p < s.next)
    && (forall p :: p in s.disk ==> 0 <= p < s.next)
  }

  ghost function GuardsOn(guards: map<GuardId, Guard>, f: FrameId): set<GuardId> {
    set g | g in guards && guards[g].frame == f
  }

  /** A frame's pin count is the number of live guards on it, and a guarded page stays in the guard's frame. */
  ghost predicate PinsOk(s: Pool) {
    && (forall f: FrameId :: f < |s.frames| ==> s.frames[f].pin == |GuardsOn(s.guards, f)|)
    && (forall g :: g in s.guards ==> s.guards[g].page in s.table && s.table[s.guards[g].page] == s.guards[g].frame)
  }

  ghost predicate CleanOk(s: Pool) {
    forall p :: p in s.table && s.table[p] < |s.frames| && !s.frames[s.table[p]].dirty ==> s.frames[s.table[p]].data == OnDisk(s.disk, p)
  }

  ghost predicate StoreOk(s: Pool, owner: map<FrameId, PageId>) {
    && FramesOk(s, owner) && TableOk(s, owner) && PinsOk(s) && CleanOk(s)
    && s.next >= 0 && s.diskReads == s.misses && |s.frames| == s.arc.size
  }

  /** A frame may be evicted exactly when no guard pins it. */
  ghost predicate FlagsOk(s: Pool) {
    forall f :: f in s.arc.alive && f < |s.frames| ==> (s.arc.alive[f].evictable <==> s.frames[f].pin == 0)
  }

  ghost predicate PoolInv(s: Pool) {
    ArcInv(s.arc) && StoreOk(s, Owners(s.arc)) && FlagsOk(s)
  }

  /** Same contents for every page. */
  ghost predicate SameContents(s: Pool, s': Pool) {
    s'.next == s.next && forall p :: Logical(s', p) == Logical(s, p)
  }

  // ----- bringing a page in -----

  /** Everything is in order except that frame `f` is neither free nor in use. */
  ghost predicate Gap(s: Pool, owner: map<FrameId, PageId>, f: FrameId) {
    && NoDup(s.free) && f !in s.free && f !in owner && f < |s.frames|
    && (forall h :: h in s.free ==> h < |s.frames| && h !in owner)
    && (forall h :: h in owner ==> h < |s.frames|)
    && (forall h: FrameId :: h < |s.frames| && h !in s.free && h != f ==> h in owner)
    && TableOk(s, owner) && PinsOk(s) && CleanOk(s)
    && s.next >= 0 && s.diskReads == s.misses && |s.frames| == s.arc.size
  }

  lemma LoadPins(s: Pool, owner: map<FrameId, PageId>, p: PageId, f: FrameId)
    requires PinsOk(s) && TableOk(s, owner) && f !in owner && f < |s.frames| && p !in s.table
    ensures PinsOk(Load(s, p, f))
  {
    assert GuardsOn(s.guards, f) == {};
  }

  lemma LoadTable(s: Pool, owner: map<FrameId, PageId>, p: PageId, f: FrameId)
    requires TableOk(s, owner) && f !in owner && p !in s.table && 0 <= p < s.next
    ensures TableOk(Load(s, p, f), owner[f := p])
  {
  }

  lemma LoadClean(s: Pool, owner: map<FrameId, PageId>, p: PageId, f: FrameId)
    requires TableOk(s, owner) && CleanOk(s) && f !in owner && f < |s.frames| && p !in s.table
    ensures CleanOk(Load(s, p, f)) && SameContents(s, Load(s, p, f))
  {
    hide Zeros;
  }

  lemma LoadGap(s: Pool, owner: map<FrameId, PageId>, p: PageId, f: FrameId)
    requires Gap(s, owner, f) && 0 <= p < s.next && p !in s.table
    ensures StoreOk(Load(s, p, f), owner[f := p]) && SameContents(s, Load(s, p, f))
  {
    hide TableOk, CleanOk, PinsOk, SameContents, NoDup;
    LoadPins(s, owner, p, f);
    LoadTable(s, owner, p, f);
    LoadClean(s, owner, p, f);
  }

  lemma FreeGap(s: Pool)
    requires StoreOk(s, Owners(s.arc)) && s.free != []
    ensures Gap(s.(free := s.free[1..]), Owners(s.arc), s.free[0]) && SameContents(s, s.(free := s.free[1..]))
  {
    hide Owners, TableOk, CleanOk, Zeros;
    var s' := s.(free := s.free[1..]);
    FrontOff(s.free);
    FrameTable(s, s', Owners(s.arc));
  }

  lemma FrontOff(free: seq<FrameId>)
    requires NoDup(free) && free != []
    ensures NoDup(free[1..]) && free[0] in free && free[0] !in free[1..]
    ensures forall h :: h in free <==> h == free[0] || h in free[1..]
  {
  }

  lemma FrameTable(s: Pool, s': Pool, owner: map<FrameId, PageId>)
    requires s'.table == s.table && s'.frames == s.frames && s'.disk == s.disk && s'.next == s.next
    ensures TableOk(s', owner) == TableOk(s, owner) && CleanOk(s') == CleanOk(s)
  {
  }

  /** No guard is on a frame that is not pinned. */
  lemma NoGuardOn(s: Pool, f: FrameId)
    requires PinsOk(s) && f < |s.frames| && s.frames[f].pin == 0
    ensures forall g :: g in s.guards ==> s.guards[g].frame != f
  {
    assert |GuardsOn(s.guards, f)| == 0;
    forall g | g in s.guards ensures s.guards[g].frame != f {
      assert g !in GuardsOn(s.guards, f);
    }
  }

  lemma UnmapPins(s: Pool, q: PageId, f: FrameId)
    requires PinsOk(s) && f < |s.frames| && s.frames[f].pin == 0 && q in s.table && s.table[q] == f
    ensures PinsOk(Unmap(s, q, f))
  {
    hide GuardsOn;
    NoGuardOn(s, f);
  }

  lemma UnmapTable(s: Pool, owner: map<FrameId, PageId>, q: PageId, f: FrameId)
    requires TableOk(s, owner) && f in owner && owner[f] == q
    ensures TableOk(Unmap(s, q, f), owner - {f}) && q in s.table && s.table[q] == f
  {
  }

  lemma UnmapClean(s: Pool, owner: map<FrameId, PageId>, q: PageId, f: FrameId)
    requires TableOk(s, owner) && CleanOk(s) && f in owner && owner[f] == q && f < |s.frames|
    ensures CleanOk(Unmap(s, q, f)) && SameContents(s, Unmap(s, q, f))
  {
    hide Zeros;
  }

  lemma VictimGap(s: Pool, owner: map<FrameId, PageId>, q: PageId, f: FrameId)
    requires StoreOk(s, owner) && f in owner && owner[f] == q && s.frames[f].pin == 0
    ensures Gap(Unmap(s, q, f), owner - {f}, f) && SameContents(s, Unmap(s, q, f))
  {
    hide TableOk, CleanOk, PinsOk, SameContents, NoDup;
    UnmapTable(s, owner, q, f);
    UnmapPins(s, q, f);
    UnmapClean(s, owner, q, f);
  }

  // ----- pinning -----

  /** What pinning needs: the page in its frame, and a replacer that knows every frame except perhaps this one. */
  ghost predicate Ready(s: Pool, owner: map<FrameId, PageId>, p: PageId, f: FrameId) {
    && ArcInv(s.arc) && StoreOk(s, owner) && f in owner && owner[f] == p
    && (forall h :: h in s.arc.alive ==> h in owner && s.arc.alive[h].pageId == owner[h])
    && (forall h :: h in owner && h != f ==> h in s.arc.alive)
    && FlagsOk(s) && (f !in s.arc.alive ==> s.frames[f].pin == 0)
  }

  lemma PinArc(a: Arc, f: FrameId, p: PageId)
    requires ArcInv(a) && CanRecord(a, f, p)
    ensures var r := RecordAccess(a, f, p);
      && r.Some? && SetEvictable(r.value, f, false).Some?
      && var e := SetEvictable(r.value, f, false).value;
         && ArcInv(e) && e.size == a.size && f in e.alive && e.alive[f].pageId == p && !e.alive[f].evictable
         && (forall g :: g != f ==> (g in e.alive <==> g in a.alive) && (g in a.alive ==> e.alive[g] == a.alive[g]))
  {
    hide ArcInv, RecordAccess, SetEvictable;
    RecordAccessOk(a, f, p);
    SetEvictableOk(RecordAccess(a, f, p).value, f, false);
  }

  /** Adding a guard to a frame and to its pin count. */
  lemma PinCount(s: Pool, s': Pool, p: PageId, f: FrameId, x: bool, g: GuardId)
    requires PinsOk(s) && f < |s.frames| && p in s.table && s.table[p] == f && g !in s.guards
    requires s'.frames == s.frames[f := s.frames[f].(pin := s.frames[f].pin + 1)] && s'.table == s.table
    requires s'.guards == s.guards[g := Guard(p, f, x)]
    ensures PinsOk(s')
  {
    hide GuardsOn;
    OneMoreGuard(s.guards, g, Guard(p, f, x));
  }

  lemma OneMoreGuard(guards: map<GuardId, Guard>, g: GuardId, q: Guard)
    requires g !in guards
    ensures |GuardsOn(guards[g := q], q.frame)| == |GuardsOn(guards, q.frame)| + 1
    ensures forall h :: h != q.frame ==> GuardsOn(guards[g := q], h) == GuardsOn(guards, h)
  {
    assert GuardsOn(guards[g := q], q.frame) == GuardsOn(guards, q.frame) + {g};
  }

  lemma PinStore(s: Pool, s': Pool, owner: map<FrameId, PageId>, p: PageId, f: FrameId, x: bool, g: GuardId)
    requires StoreOk(s, owner) && f in owner && owner[f] == p && g !in s.guards
    requires s' == s.(arc := s'.arc, frames := s.frames[f := s.frames[f].(pin := s.frames[f].pin + 1)], guards := s.guards[g := Guard(p, f, x)])
    requires s'.arc.size == s.arc.size
    ensures StoreOk(s', owner) && SameContents(s, s')
  {
    hide PinsOk, Zeros;
    PinCount(s, s', p, f, x, g);
  }

  /** What the replacer does when the access is recorded and the frame kept from eviction. */
  lemma PinRecords(a: Arc, f: FrameId, p: PageId)
    requires ArcInv(a) && CanRecord(a, f, p)
    ensures var r := RecordAccess(a, f, p);
      r.Some? && SetEvictable(r.value, f, false).Some? && Moves(a, SetEvictable(r.value, f, false).value, p, f, f in a.alive, false)
  {
    hide ArcInv, RecordAccess, SetEvictable, Moves, Recorded, CanRecord;
    PinArc(a, f, p);
    RecordMoves(a, p, f);
    RecordAccessOk(a, f, p);
    SetEvictableOk(RecordAccess(a, f, p).value, f, false);
    SameMoves(a, RecordAccess(a, f, p).value, SetEvictable(RecordAccess(a, f, p).value, f, false).value, p, f, f in a.alive, false);
  }

  /** Pinning always succeeds there, records the access, and closes the invariant. */
  lemma PinOk(s: Pool, owner: map<FrameId, PageId>, p: PageId, f: FrameId, x: bool, g: GuardId)
    requires Ready(s, owner, p, f) && g !in s.guards
    ensures var r := Pin(s, p, f, x, g);
      && r.Some? && PoolInv(r.value) && SameContents(s, r.value)
      && r.value.guards == s.guards[g := Guard(p, f, x)] && r.value.table == s.table
      && r.value.frames == s.frames[f := s.frames[f].(pin := s.frames[f].pin + 1)]
      && r.value == s.(arc := r.value.arc, frames := r.value.frames, guards := r.value.guards)
      && Moves(s.arc, r.value.arc, p, f, f in s.arc.alive, false)
  {
    hide ArcInv, RecordAccess, SetEvictable, StoreOk, Ready, SameContents, FlagsOk, Owners, Moves;
    ReadyFacts(s, owner, p, f);
    PinArc(s.arc, f, p);
    PinRecords(s.arc, f, p);
    var s' := Pin(s, p, f, x, g).value;
    PinStore(s, s', owner, p, f, x, g);
    PinFlags(s, s', owner, p, f);
  }

  lemma ReadyFacts(s: Pool, owner: map<FrameId, PageId>, p: PageId, f: FrameId)
    requires Ready(s, owner, p, f)
    ensures ArcInv(s.arc) && CanRecord(s.arc, f, p) && StoreOk(s, owner) && f in owner && owner[f] == p && f < |s.frames|
  {
    hide ArcInv, PinsOk, CleanOk, NoDup, FlagsOk;
  }

  /** After pinning the replacer knows every frame in use, and only unpinned frames may be evicted. */
  lemma PinFlags(s: Pool, s': Pool, owner: map<FrameId, PageId>, p: PageId, f: FrameId)
    requires Ready(s, owner, p, f) && f < |s.frames|
    requires s'.frames == s.frames[f := s.frames[f].(pin := s.frames[f].pin + 1)]
    requires f in s'.arc.alive && s'.arc.alive[f].pageId == p && !s'.arc.alive[f].evictable
    requires forall h :: h != f ==> (h in s'.arc.alive <==> h in s.arc.alive) && (h in s.arc.alive ==> s'.arc.alive[h] == s.arc.alive[h])
    ensures Owners(s'.arc) == owner && FlagsOk(s')
  {
    hide ArcInv, FramesOk, TableOk, CleanOk, GuardsOn;
    assert s.frames[f].pin >= 0;
  }

  lemma PinPositive(s: Pool, g: GuardId)
    requires PinsOk(s) && g in s.guards && s.guards[g].frame < |s.frames|
    ensures s.frames[s.guards[g].frame].pin > 0
  {
    assert g in GuardsOn(s.guards, s.guards[g].frame);
  }

  // ----- fetching -----

  ghost predicate AllPinned(s: Pool) {
    forall f: FrameId :: f < |s.frames| ==> s.frames[f].pin > 0
  }

  /** The pool cannot produce the page: it was never allocated, or there is no room for it. */
  ghost predicate Refused(s: Pool, p: PageId) {
    !(0 <= p < s.next) || (p !in s.table && s.free == [] && AllPinned(s))
  }

  lemma EvictIffUnpinned(s: Pool)
    requires PoolInv(s) && s.free == []
    ensures Evict(s.arc).0.None? <==> AllPinned(s)
  {
    hide Evict, ArcInv, TableOk, CleanOk, Evicted;
    EvictOk(s.arc);
    assert forall f: FrameId :: f < |s.frames| ==> f in s.arc.alive by { assert forall f :: f in Owners(s.arc) <==> f in s.arc.alive; }
    assert forall f: FrameId :: f in s.arc.alive ==> f < |s.frames| by { assert forall f :: f in Owners(s.arc) <==> f in s.arc.alive; }
    assert PinsOk(s);
    if !AllPinned(s) {
      var f: FrameId :| f < |s.frames| && s.frames[f].pin <= 0;
      assert CanEvict(s.arc, f);
    }
  }

  /** Counting a hit changes nothing else. */
  lemma HitKeeps(s: Pool, s': Pool, owner: map<FrameId, PageId>)
    requires s' == s.(hits := s'.hits)
    ensures FramesOk(s', owner) == FramesOk(s, owner) && TableOk(s', owner) == TableOk(s, owner) && PinsOk(s') == PinsOk(s)
    ensures CleanOk(s') == CleanOk(s) && FlagsOk(s') == FlagsOk(s) && SameContents(s, s')
  {
  }

  lemma KnownFrame(s: Pool, p: PageId)
    requires PoolInv(s) && p in s.table
    ensures var f, owner := s.table[p], Owners(s.arc); f in owner && owner[f] == p && f in s.arc.alive && 0 <= p < s.next
    ensures forall h :: h in Owners(s.arc) <==> h in s.arc.alive
    ensures forall h :: h in s.arc.alive ==> Owners(s.arc)[h] == s.arc.alive[h].pageId
  {
    hide ArcInv, FramesOk, PinsOk, CleanOk, FlagsOk;
  }

  lemma BringHit(s: Pool, p: PageId)
    requires PoolInv(s) && p in s.table
    ensures Bring(s, p) == Some((s.table[p], s.(hits := s.hits + 1)))
    ensures Ready(s.(hits := s.hits + 1), Owners(s.arc), p, s.table[p]) && SameContents(s, s.(hits := s.hits + 1))
  {
    hide ArcInv, Evict, Load, Release, FramesOk, TableOk, PinsOk, CleanOk, FlagsOk, SameContents, Owners;
    KnownFrame(s, p);
    HitKeeps(s, s.(hits := s.hits + 1), Owners(s.arc));
  }

  lemma BringFree(s: Pool, p: PageId)
    requires PoolInv(s) && 0 <= p < s.next && p !in s.table && s.free != []
    ensures var f, s1 := s.free[0], Load(s.(free := s.free[1..]), p, s.free[0]);
      && Bring(s, p) == Some((f, s1)) && Ready(s1, Owners(s.arc)[f := p], p, f) && SameContents(s, s1)
  {
    hide ArcInv, TableOk, CleanOk, SameContents, PinsOk, NoDup;
    FreeGap(s);
    LoadGap(s.(free := s.free[1..]), Owners(s.arc), p, s.free[0]);
    SameTwice(s, s.(free := s.free[1..]), Load(s.(free := s.free[1..]), p, s.free[0]));
  }

  lemma SameTwice(s: Pool, s1: Pool, s2: Pool)
    requires SameContents(s, s1) && SameContents(s1, s2)
    ensures SameContents(s, s2)
  {
  }

  /** The loop over the page table can only stop at the page the replacer has for the frame. */
  lemma ReleaseIs(s: Pool, owner: map<FrameId, PageId>, f: FrameId)
    requires TableOk(s, owner) && f in owner
    ensures Release(s, f) == Unmap(s, owner[f], f)
  {
    hide Unmap;
    var q := owner[f];
    assert q in s.table && s.table[q] == f;
  }

  lemma BringVictim(s: Pool, p: PageId)
    requires PoolInv(s) && 0 <= p < s.next && p !in s.table && s.free == [] && Evict(s.arc).0.Some?
    ensures var b := Bring(s, p);
      && b.Some? && Evict(s.arc).0 == Some(b.value.0)
      && Ready(b.value.1, Owners(s.arc)[b.value.0 := p], p, b.value.0) && SameContents(s, b.value.1)
  {
    hide ArcInv, Evict, SameContents, PinsOk, CleanOk;
    EvictOk(s.arc);
    var f, t := Evict(s.arc).0.value, s.(arc := Evict(s.arc).1);
    assert f in Owners(s.arc);
    VictimReady(s, t, p, f);
  }

  lemma NewOwner(owner: map<FrameId, PageId>, f: FrameId, p: PageId)
    ensures (owner - {f})[f := p] == owner[f := p]
  {
  }

  /** With the victim gone from the replacer, its frame holds the new page and the rest is as before. */
  lemma ReplacedReady(s: Pool, s': Pool, p: PageId, f: FrameId)
    requires FlagsOk(s) && ArcInv(s'.arc) && s'.arc.alive == s.arc.alive - {f} && StoreOk(s', Owners(s.arc)[f := p])
    requires f < |s'.frames| == |s.frames| && s'.frames[f].pin == 0 && forall h :: 0 <= h < |s.frames| && h != f ==> s'.frames[h] == s.frames[h]
    ensures Ready(s', Owners(s.arc)[f := p], p, f)
  {
    hide ArcInv, StoreOk;
  }

  lemma VictimReady(s: Pool, t: Pool, p: PageId, f: FrameId)
    requires PoolInv(s) && 0 <= p < s.next && p !in s.table && CanEvict(s.arc, f)
    requires t == s.(arc := t.arc) && ArcInv(t.arc) && t.arc.alive == s.arc.alive - {f} && t.arc.size == s.arc.size
    ensures var s1 := Load(Release(t, f), p, f); Ready(s1, Owners(s.arc)[f := p], p, f) && SameContents(s, s1)
  {
    hide ArcInv, StoreOk, Gap, SameContents, Unmap, Load, Release, FlagsOk, Owners;
    var owner := Owners(s.arc);
    VictimOwned(s, f);
    NewArc(s, t, owner);
    ReleaseIs(t, owner, f);
    VictimGap(t, owner, owner[f], f);
    var u := Unmap(t, owner[f], f);
    UnmapKeeps(t, owner[f], f);
    LoadGap(u, owner - {f}, p, f);
    NewOwner(owner, f, p);
    LoadKeeps(u, p, f);
    SameTwice(s, t, u);
    SameTwice(s, u, Load(u, p, f));
    ReplacedReady(s, Load(u, p, f), p, f);
  }

  lemma VictimOwned(s: Pool, f: FrameId)
    requires PoolInv(s) && CanEvict(s.arc, f)
    ensures var owner := Owners(s.arc);
      f in owner && owner[f] == s.arc.alive[f].pageId && f < |s.frames| && s.frames[f].pin == 0 && TableOk(s, owner)
  {
    hide ArcInv, TableOk, PinsOk, CleanOk, NoDup;
    assert f in Owners(s.arc);
  }

  lemma LoadKeeps(s: Pool, p: PageId, f: FrameId)
    requires f < |s.frames|
    ensures var s' := Load(s, p, f);
      s'.arc == s.arc && |s'.frames| == |s.frames| && s'.frames[f].pin == 0 && forall h :: 0 <= h < |s.frames| && h != f ==> s'.frames[h] == s.frames[h]
  {
  }

  lemma UnmapKeeps(s: Pool, q: PageId, f: FrameId)
    ensures var u := Unmap(s, q, f); u.table == s.table - {q} && u.arc == s.arc && u.frames == s.frames && u.next == s.next
  {
  }

  lemma NewArc(s: Pool, t: Pool, owner: map<FrameId, PageId>)
    requires StoreOk(s, owner) && t == s.(arc := t.arc) && t.arc.size == s.arc.size
    ensures StoreOk(t, owner) && SameContents(s, t)
  {
  }

  /** A successful fetch: one more guard, on the page it asked for, and nothing else changed for anyone. */
  ghost predicate Fetched(s: Pool, s': Pool, p: PageId, x: bool, g: GuardId) {
    && PoolInv(s') && SameContents(s, s') && p in s'.table
    && s'.guards == s.guards[g := Guard(p, s'.table[p], x)]
    && (p in s.table ==> s'.table == s.table && s'.hits == s.hits + 1 && s'.misses == s.misses)
    && (p !in s.table ==> s'.hits == s.hits && s'.misses == s.misses + 1)
  }

  /** Bringing a page in touches no guard, and counts a hit or a miss. */
  lemma BringCounts(s: Pool, p: PageId)
    requires Bring(s, p).Some?
    ensures var s1 := Bring(s, p).value.1;
      && s1.guards == s.guards && p in s1.table
      && (p in s.table ==> s1.table == s.table && s1.hits == s.hits + 1 && s1.misses == s.misses)
      && (p !in s.table ==> s1.hits == s.hits && s1.misses == s.misses + 1)
  {
    hide Evict;
  }

  lemma ReadyTable(s: Pool, owner: map<FrameId, PageId>, p: PageId, f: FrameId)
    requires Ready(s, owner, p, f)
    ensures p in s.table && s.table[p] == f
  {
  }

  lemma FetchReady(s: Pool, owner: map<FrameId, PageId>, p: PageId, x: bool, g: GuardId)
    requires Bring(s, p).Some? && Ready(Bring(s, p).value.1, owner, p, Bring(s, p).value.0) && SameContents(s, Bring(s, p).value.1)
    requires g !in s.guards
    ensures Fetch(s, p, x, g).Some? && Fetched(s, Fetch(s, p, x, g).value, p, x, g)
  {
    hide PoolInv, Ready, Pin, SameContents, Bring;
    var (f, s1) := Bring(s, p).value;
    ReadyTable(s1, owner, p, f);
    BringCounts(s, p);
    PinOk(s1, owner, p, f, x, g);
    SameTwice(s, s1, Pin(s1, p, f, x, g).value);
  }

  /** A fetch is refused exactly when `Refused` says so; otherwise it succeeds and changes no page's contents. */
  lemma FetchOk(s: Pool, p: PageId, x: bool, g: GuardId)
    requires PoolInv(s) && g !in s.guards
    ensures Fetch(s, p, x, g).None? <==> Refused(s, p)
    ensures Bring(s, p).Some? ==> Fetch(s, p, x, g).Some?
    ensures Fetch(s, p, x, g).Some? ==> Fetched(s, Fetch(s, p, x, g).value, p, x, g)
  {
    hide PoolInv, Ready, Pin, SameContents, Evict, AllPinned, Release;
    if 0 <= p < s.next {
      if p in s.table {
        BringHit(s, p);
        FetchReady(s, Owners(s.arc), p, x, g);
      } else if s.free != [] {
        BringFree(s, p);
        FetchReady(s, Owners(s.arc)[s.free[0] := p], p, x, g);
      } else {
        EvictIffUnpinned(s);
        if Evict(s.arc).0.Some? {
          BringVictim(s, p);
          FetchReady(s, Owners(s.arc)[Bring(s, p).value.0 := p], p, x, g);
        }
      }
    }
  }

  /** The frame page `p` comes to: its own, else the first free one, else the one of the page that is displaced. */
  ghost predicate Housed(s: Pool, s': Pool, p: PageId, f: FrameId) {
    if p in s.table then f == s.table[p] && s'.table == s.table && s'.free == s.free
    else if s.free != [] then f == s.free[0] && s'.free == s.free[1..] && s'.table == s.table[p := f]
    else
      && Victim(s.arc, f) && f in s.arc.alive && s'.free == s.free && s'.table == (s.table - {s.arc.alive[f].pageId})[p := f]
  }

  ghost predicate Displaces(s: Pool, p: PageId) {
    p !in s.table && s.free == []
  }

  /** What bringing page `p` into frame `f` costs: a disk read on a miss, and a disk write if the page displaced is dirty. */
  ghost predicate Counted(s: Pool, s': Pool, p: PageId, f: FrameId) {
    var miss := if p in s.table then 0 else 1;
    && s'.hits == s.hits + 1 - miss && s'.misses == s.misses + miss && s'.diskReads == s.diskReads + miss
    && s'.diskWrites == s.diskWrites + if Displaces(s, p) && f < |s.frames| && s.frames[f].dirty then 1 else 0
  }

  /** One frame holds the page, pinned once more, and clean if it was read now; the others are as before. */
  ghost predicate Framed(s: Pool, s': Pool, p: PageId, f: FrameId, pins: int) {
    && f < |s.frames| == |s'.frames|
    && s'.frames[f] == (if p in s.table then s.frames[f].(pin := s.frames[f].pin + pins) else Frame(Logical(s, p), pins, false))
    && forall h :: 0 <= h < |s.frames| && h != f ==> s'.frames[h] == s.frames[h]
  }

  /** Only the page that is displaced may have another disk copy than before. */
  ghost predicate Stored(s: Pool, s': Pool, p: PageId, f: FrameId) {
    forall q :: OnDisk(s'.disk, q)
      == if Displaces(s, p) && f < |s.frames| && s.frames[f].dirty && q in s.table && s.table[q] == f then s.frames[f].data else OnDisk(s.disk, q)
  }

  /** All a successful fetch does, apart from its guard. */
  ghost predicate Brought(s: Pool, s': Pool, p: PageId, f: FrameId) {
    && Housed(s, s', p, f) && Counted(s, s', p, f) && Framed(s, s', p, f, 1) && Stored(s, s', p, f)
    && Moves(s.arc, s'.arc, p, f, p in s.table, Displaces(s, p))
  }

  lemma HitBrings(s: Pool, p: PageId)
    requires PoolInv(s) && p in s.table
    ensures Bring(s, p).Some? && var (f, s1) := Bring(s, p).value;
      Housed(s, s1, p, f) && Counted(s, s1, p, f) && Framed(s, s1, p, f, 0) && Stored(s, s1, p, f) && s1.arc == s.arc
  {
    hide ArcInv, Evict, Load, Release, CleanOk, PinsOk, FlagsOk, OnDisk, Zeros;
  }

  lemma LoadIs(s: Pool, p: PageId, f: FrameId)
    requires f < |s.frames|
    ensures var s1 := Load(s, p, f);
      && s1.table == s.table[p := f] && s1.free == s.free && s1.arc == s.arc && |s1.frames| == |s.frames|
      && s1.frames[f] == Frame(OnDisk(s.disk, p), 0, false) && (forall h :: 0 <= h < |s.frames| && h != f ==> s1.frames[h] == s.frames[h])
      && (forall q :: OnDisk(s1.disk, q) == OnDisk(s.disk, q))
      && s1.hits == s.hits && s1.misses == s.misses + 1 && s1.diskReads == s.diskReads + 1 && s1.diskWrites == s.diskWrites
  {
    hide Zeros;
  }

  lemma UnmapIs(s: Pool, q: PageId, f: FrameId)
    requires f < |s.frames|
    ensures var u, dirty := Unmap(s, q, f), s.frames[f].dirty;
      && u == s.(disk := u.disk, diskWrites := s.diskWrites + (if dirty then 1 else 0), table := s.table - {q})
      && forall r :: OnDisk(u.disk, r) == if dirty && r == q then s.frames[f].data else OnDisk(s.disk, r)
  {
    hide Zeros;
  }

  lemma FreeBrings(s: Pool, p: PageId)
    requires PoolInv(s) && 0 <= p < s.next && p !in s.table && s.free != []
    ensures Bring(s, p).Some? && var (f, s1) := Bring(s, p).value;
      Housed(s, s1, p, f) && Counted(s, s1, p, f) && Framed(s, s1, p, f, 0) && Stored(s, s1, p, f) && s1.arc == s.arc
  {
    hide PoolInv, Evict, Load, Release, OnDisk;
    FirstFree(s);
    LoadIs(s.(free := s.free[1..]), p, s.free[0]);
    NotInTable(s, p);
  }

  lemma FirstFree(s: Pool)
    requires PoolInv(s) && s.free != []
    ensures s.free[0] < |s.frames|
  {
    assert s.free[0] in s.free;
  }

  lemma NotInTable(s: Pool, p: PageId)
    requires p !in s.table
    ensures Logical(s, p) == OnDisk(s.disk, p)
  {
  }

  /** The page of frame `f` written back and page `p` read in its place. */
  lemma Swapped(s: Pool, q: PageId, p: PageId, f: FrameId)
    requires f < |s.frames| && q in s.table && s.table[q] == f && p !in s.table && forall r :: r in s.table && s.table[r] == f ==> r == q
    ensures var s1, dirty := Load(Unmap(s, q, f), p, f), s.frames[f].dirty;
      && s1.table == (s.table - {q})[p := f] && s1.free == s.free && s1.arc == s.arc && |s1.frames| == |s.frames|
      && s1.frames[f] == Frame(Logical(s, p), 0, false) && (forall h :: 0 <= h < |s.frames| && h != f ==> s1.frames[h] == s.frames[h])
      && (forall r :: OnDisk(s1.disk, r) == if dirty && r in s.table && s.table[r] == f then s.frames[f].data else OnDisk(s.disk, r))
      && s1.hits == s.hits && s1.misses == s.misses + 1 && s1.diskReads == s.diskReads + 1
      && s1.diskWrites == s.diskWrites + if dirty then 1 else 0
  {
    hide Load, Unmap, OnDisk;
    UnmapIs(s, q, f);
    LoadIs(Unmap(s, q, f), p, f);
    NotInTable(s, p);
  }

  lemma VictimBrings(s: Pool, p: PageId)
    requires PoolInv(s) && 0 <= p < s.next && p !in s.table && s.free == [] && Evict(s.arc).0.Some?
    ensures Bring(s, p).Some? && var (f, s1) := Bring(s, p).value;
      && Housed(s, s1, p, f) && Counted(s, s1, p, f) && Framed(s, s1, p, f, 0) && Stored(s, s1, p, f)
      && Evict(s.arc) == (Some(f), s1.arc) && (forall h :: h in s.arc.alive ==> s.arc.alive[h].pageId != p)
  {
    hide PoolInv, Evict, Load, Unmap, Release, OnDisk, Victim, Logical, CanEvict, ArcInv;
    ArcOf(s);
    VictimMayGo(s.arc);
    var f, t, q := Evict(s.arc).0.value, s.(arc := Evict(s.arc).1), s.arc.alive[Evict(s.arc).0.value].pageId;
    VictimOf(s, f, p);
    assert Release(t, f) == Unmap(t, q, f) by { ReleaseAlone(t, q, f); }
    Swapped(t, q, p, f);
    assert Logical(t, p) == Logical(s, p) by { SameLogical(s, t, p); }
  }

  lemma VictimMayGo(a: Arc)
    requires ArcInv(a) && Evict(a).0.Some?
    ensures var f := Evict(a).0.value; CanEvict(a, f) && f in a.alive && Victim(a, f)
  {
    hide ArcInv, Evict, Victim, TakenOut, LeastRecent;
    EvictOk(a);
  }

  lemma SameLogical(s: Pool, t: Pool, p: PageId)
    requires t == s.(arc := t.arc)
    ensures Logical(t, p) == Logical(s, p)
  {
  }

  lemma ArcOf(s: Pool)
    requires PoolInv(s)
    ensures ArcInv(s.arc)
  {
  }

  /** What the table says of a frame that may be evicted. */
  lemma VictimOf(s: Pool, f: FrameId, p: PageId)
    requires PoolInv(s) && CanEvict(s.arc, f) && p !in s.table
    ensures var q := s.arc.alive[f].pageId; f < |s.frames| && q in s.table && s.table[q] == f && q != p
    ensures forall r :: r in s.table && s.table[r] == f ==> r == s.arc.alive[f].pageId
    ensures forall h :: h in s.arc.alive ==> s.arc.alive[h].pageId != p
  {
    hide ArcInv, PinsOk, CleanOk, FlagsOk, NoDup;
    assert f in Owners(s.arc);
    assert forall h :: h in s.arc.alive ==> h in Owners(s.arc);
  }

  lemma ReleaseAlone(s: Pool, q: PageId, f: FrameId)
    requires q in s.table && s.table[q] == f && forall p :: p in s.table && s.table[p] == f ==> p == q
    ensures Release(s, f) == Unmap(s, q, f)
  {
  }

  /** What the replacer does for a page that has just been brought in. */
  lemma PinMoves(s: Pool, s1: Pool, owner: map<FrameId, PageId>, p: PageId, f: FrameId, x: bool, g: GuardId)
    requires PoolInv(s) && Ready(s1, owner, p, f) && g !in s1.guards && s1.arc.size == s.arc.size
    requires if Displaces(s, p) then Evict(s.arc) == (Some(f), s1.arc) && forall h :: h in s.arc.alive ==> s.arc.alive[h].pageId != p else s1.arc == s.arc
    requires p in s.table <==> f in s1.arc.alive
    ensures Pin(s1, p, f, x, g).Some? && Moves(s.arc, Pin(s1, p, f, x, g).value.arc, p, f, p in s.table, Displaces(s, p))
  {
    hide PoolInv, ArcInv, Ready, RecordAccess, Evict, Moves, CanRecord;
    ReadyFacts(s1, owner, p, f);
    ArcOf(s);
    if Displaces(s, p) {
      EvictMoves(s.arc, p);
    } else {
      RecordMoves(s.arc, p, f);
    }
    RecordAccessOk(s1.arc, f, p);
    var a1 := RecordAccess(s1.arc, f, p).value;
    SetEvictableOk(a1, f, false);
    SameMoves(s.arc, a1, SetEvictable(a1, f, false).value, p, f, p in s.table, Displaces(s, p));
  }

  /** Pinning after that changes the frame's pin count, the guards and the replacer. */
  lemma PinBrings(s: Pool, s1: Pool, s': Pool, p: PageId, f: FrameId)
    requires Housed(s, s1, p, f) && Counted(s, s1, p, f) && Framed(s, s1, p, f, 0) && Stored(s, s1, p, f)
    requires s' == s1.(arc := s'.arc, frames := s1.frames[f := s1.frames[f].(pin := s1.frames[f].pin + 1)], guards := s'.guards)
    requires Moves(s.arc, s'.arc, p, f, p in s.table, Displaces(s, p))
    ensures p in s'.table && s'.table[p] == f && Brought(s, s', p, f)
  {
    hide Moves, Victim, OnDisk, Logical;
  }

  /** Before pinning: what was brought is ready, and the replacer has its frame exactly if the page was there before. */
  lemma BringReady(s: Pool, p: PageId) returns (owner: map<FrameId, PageId>)
    requires PoolInv(s) && Bring(s, p).Some?
    ensures var (f, s1) := Bring(s, p).value;
      && Ready(s1, owner, p, f) && Housed(s, s1, p, f) && Counted(s, s1, p, f) && Framed(s, s1, p, f, 0) && Stored(s, s1, p, f)
      && (p in s.table <==> f in s1.arc.alive) && s1.guards == s.guards && s1.arc.size == s.arc.size
      && if Displaces(s, p) then Evict(s.arc) == (Some(f), s1.arc) && forall h :: h in s.arc.alive ==> s.arc.alive[h].pageId != p else s1.arc == s.arc
  {
    hide PoolInv, Ready, Evict, Release, Load, Housed, Counted, Framed, Stored, Victim, TakenOut, LeastRecent;
    BringCounts(s, p);
    if p in s.table {
      owner := Owners(s.arc);
      KnownFrame(s, p);
      BringHit(s, p);
      HitBrings(s, p);
    } else if s.free != [] {
      owner := Owners(s.arc)[s.free[0] := p];
      FreeUnknown(s);
      BringFree(s, p);
      FreeBrings(s, p);
    } else {
      ArcOf(s);
      EvictOk(s.arc);
      owner := Owners(s.arc)[Bring(s, p).value.0 := p];
      BringVictim(s, p);
      VictimBrings(s, p);
    }
  }

  lemma FreeUnknown(s: Pool)
    requires PoolInv(s) && s.free != []
    ensures s.free[0] !in s.arc.alive
  {
    assert s.free[0] in s.free;
    assert forall h :: h in s.arc.alive ==> h in Owners(s.arc);
  }

  /**
   * Where a successful fetch puts its page and what else moves: the frame, the table, the free list and the counters;
   * the frame goes to the front of MFU if the page was resident or is remembered and to the front of MRU if not, all
   * other frames keep their order, and a page is displaced only without a free frame: the least recent evictable one
   * of the list that pays.
   */
  lemma FetchBrings(s: Pool, p: PageId, x: bool, g: GuardId)
    requires PoolInv(s) && g !in s.guards && Fetch(s, p, x, g).Some?
    ensures var s' := Fetch(s, p, x, g).value; p in s'.table && Brought(s, s', p, s'.table[p])
  {
    hide PoolInv, Ready, Pin, Bring, Evict, Moves, Housed, Counted, Framed, Stored, Brought, SameContents;
    var owner := BringReady(s, p);
    var (f, s1) := Bring(s, p).value;
    PinMoves(s, s1, owner, p, f, x, g);
    PinOk(s1, owner, p, f, x, g);
    PinBrings(s, s1, Pin(s1, p, f, x, g).value, p, f);
  }

  // ----- the other steps -----

  /** A guard looks at a frame that exists and holds the guard's page. */
  lemma GuardSees(s: Pool, g: GuardId)
    requires PoolInv(s) && g in s.guards
    ensures var q := s.guards[g];
      && q.frame < |s.frames| && q.frame in s.arc.alive && s.arc.alive[q.frame].pageId == q.page
      && q.page in s.table && s.table[q.page] == q.frame && 0 <= q.page < s.next
      && s.frames[q.frame].data == Logical(s, q.page) && s.frames[q.frame].pin > 0
  {
    hide ArcInv, CleanOk, NoDup;
    assert s.guards[g].frame in Owners(s.arc);
    PinPositive(s, g);
  }

  /** The frame of page `p` gets other bytes or another flag, and perhaps the disk copy of `p` follows. */
  ghost predicate FrameChanged(s: Pool, s': Pool, p: PageId, f: FrameId) {
    && p in s.table && s.table[p] == f && f < |s.frames|
    && s' == s.(frames := s'.frames, disk := s'.disk, diskWrites := s'.diskWrites)
    && |s'.frames| == |s.frames| && s'.frames == s.frames[f := s'.frames[f]] && s'.frames[f].pin == s.frames[f].pin
    && (s'.disk == s.disk || s'.disk == s.disk[p := s'.frames[f].data])
    && (s'.frames[f].dirty || OnDisk(s'.disk, p) == s'.frames[f].data)
  }

  lemma ChangePins(s: Pool, s': Pool, p: PageId, f: FrameId)
    requires FrameChanged(s, s', p, f) && PinsOk(s)
    ensures PinsOk(s') && (FlagsOk(s) ==> FlagsOk(s'))
  {
    hide GuardsOn;
  }

  lemma ChangeTable(s: Pool, s': Pool, owner: map<FrameId, PageId>, p: PageId, f: FrameId)
    requires FrameChanged(s, s', p, f) && FramesOk(s, owner) && TableOk(s, owner)
    ensures FramesOk(s', owner) && TableOk(s', owner)
  {
    hide NoDup;
  }

  lemma ChangeClean(s: Pool, s': Pool, owner: map<FrameId, PageId>, p: PageId, f: FrameId)
    requires FrameChanged(s, s', p, f) && TableOk(s, owner) && CleanOk(s)
    ensures CleanOk(s') && Logical(s', p) == s'.frames[f].data && forall q :: q != p ==> Logical(s', q) == Logical(s, q)
  {
    hide Zeros;
  }

  /** Changing a frame's bytes and dirty flag, and perhaps the disk copy of its page. */
  lemma ChangeFrame(s: Pool, s': Pool, p: PageId, f: FrameId)
    requires PoolInv(s) && FrameChanged(s, s', p, f)
    ensures PoolInv(s') && forall q :: q != p ==> Logical(s', q) == Logical(s, q)
    ensures Logical(s', p) == s'.frames[f].data
  {
    hide ArcInv, FramesOk, TableOk, PinsOk, CleanOk, FlagsOk, Logical;
    var owner := Owners(s.arc);
    ChangePins(s, s', p, f);
    ChangeTable(s, s', owner, p, f);
    ChangeClean(s, s', owner, p, f);
  }

  /** Apart from one frame's bytes and flag, and from the disk and its count of writes, the pool is as before. */
  ghost predicate OnlyFrame(s: Pool, s': Pool, f: FrameId) {
    && s' == s.(frames := s'.frames, disk := s'.disk, diskWrites := s'.diskWrites)
    && f < |s.frames| == |s'.frames| && s'.frames[f].pin == s.frames[f].pin
    && forall h :: 0 <= h < |s.frames| && h != f ==> s'.frames[h] == s.frames[h]
  }

  /** A write changes the contents of the guard's page and of no other, and makes its frame dirty. */
  lemma WriteOk(s: Pool, g: GuardId, d: Data)
    requires PoolInv(s) && g in s.guards
    ensures var s', p := Write(s, g, d), s.guards[g].page;
      && PoolInv(s') && s'.next == s.next && s'.guards == s.guards && Logical(s', p) == d
      && (forall q :: q != p ==> Logical(s', q) == Logical(s, q))
      && OnlyFrame(s, s', s.guards[g].frame) && s'.frames[s.guards[g].frame].dirty && s'.disk == s.disk && s'.diskWrites == s.diskWrites
  {
    hide PoolInv, OnDisk;
    GuardSees(s, g);
    ChangeFrame(s, Write(s, g, d), s.guards[g].page, s.guards[g].frame);
  }

  /**
   * A guard's flush changes no contents, writes its page to disk without counting it, and leaves its frame clean;
   * every other frame, every other page's disk copy and all counters are as before.
   */
  lemma GuardFlushOk(s: Pool, g: GuardId)
    requires PoolInv(s) && g in s.guards
    ensures var s', p, f := GuardFlush(s, g), s.guards[g].page, s.guards[g].frame;
      && PoolInv(s') && SameContents(s, s') && s'.guards == s.guards && OnDisk(s'.disk, p) == Logical(s, p)
      && (forall q :: q != p ==> OnDisk(s'.disk, q) == OnDisk(s.disk, q))
      && OnlyFrame(s, s', f) && !s'.frames[f].dirty && s'.diskWrites == s.diskWrites
  {
    hide PoolInv;
    GuardSees(s, g);
    ChangeFrame(s, GuardFlush(s, g), s.guards[g].page, s.guards[g].frame);
  }

  /** So neither `FlushPage` nor an eviction of that page writes it again: not at once, and not after the guard is gone. */
  lemma GuardFlushSaves(s: Pool, g: GuardId, p: PageId, x: bool, h: GuardId)
    requires PoolInv(s) && g in s.guards
    ensures var s1, q := GuardFlush(s, g), s.guards[g]; var s2 := Drop(s1, g);
      && FlushPage(s1, q.page) == s1 && FlushPage(s2, q.page) == s2 && s2.diskWrites == s.diskWrites
      && (h !in s2.guards && Fetch(s2, p, x, h).Some? ==>
            var s3 := Fetch(s2, p, x, h).value; p in s3.table && (s3.table[p] == q.frame ==> s3.diskWrites == s.diskWrites))
  {
    hide PoolInv, GuardFlush, Drop, FlushPage, Fetch, SameContents, OnDisk, Logical, Housed, Framed, Stored, Moves;
    GuardFlushOk(s, g);
    var s1, q := GuardFlush(s, g), s.guards[g];
    DropOk(s1, g);
    var s2 := Drop(s1, g);
    GuardSees(s, g);
    FlushesNothing(s1, q.page);
    FlushesNothing(s2, q.page);
    if h !in s2.guards && Fetch(s2, p, x, h).Some? {
      FetchBrings(s2, p, x, h);
    }
  }

  lemma FlushesNothing(s: Pool, p: PageId)
    ensures p in s.table && s.table[p] < |s.frames| && !s.frames[s.table[p]].dirty ==> FlushPage(s, p) == s
  {
  }

  lemma FlushPageOk(s: Pool, p: PageId)
    requires PoolInv(s)
    ensures var s' := FlushPage(s, p);
      && PoolInv(s') && SameContents(s, s') && s'.guards == s.guards && s'.table == s.table
      && (0 <= p < s.next ==> OnDisk(s'.disk, p) == Logical(s, p))
      && (forall q :: q != p ==> OnDisk(s'.disk, q) == OnDisk(s.disk, q))
      && (if p in s.table then OnlyFrame(s, s', s.table[p]) && !s'.frames[s.table[p]].dirty else s' == s)
      && s'.diskWrites == s.diskWrites + if p in s.table && s.table[p] < |s.frames| && s.frames[s.table[p]].dirty then 1 else 0
  {
    hide PoolInv, Logical, Zeros;
    TableFits(s, p);
    CleanPage(s, p);
    if p in s.table && s.frames[s.table[p]].dirty {
      ChangeFrame(s, FlushPage(s, p), p, s.table[p]);
      LogicalIs(s, p);
    }
  }

  lemma LogicalIs(s: Pool, p: PageId)
    ensures p in s.table && s.table[p] < |s.frames| ==> Logical(s, p) == s.frames[s.table[p]].data
  {
  }

  /** A page that is not in the pool, or not dirty there, is on disk as it is. */
  lemma CleanPage(s: Pool, p: PageId)
    requires PoolInv(s)
    ensures p !in s.table || (s.table[p] < |s.frames| && !s.frames[s.table[p]].dirty) ==> Logical(s, p) == OnDisk(s.disk, p)
  {
    hide ArcInv, FramesOk, TableOk, PinsOk, FlagsOk, Zeros;
  }

  lemma TableFits(s: Pool, p: PageId)
    requires PoolInv(s)
    ensures p in s.table ==> s.table[p] < |s.frames| && 0 <= p < s.next
  {
  }

  lemma {:induction false} FlushEachOk(s: Pool, todo: seq<PageId>)
    requires PoolInv(s)
    ensures var s' := FlushEach(s, todo);
      && PoolInv(s') && SameContents(s, s') && s'.guards == s.guards && s'.table == s.table
      && (forall p :: p in todo && 0 <= p < s.next ==> OnDisk(s'.disk, p) == Logical(s, p))
      && (forall p :: p !in todo ==> OnDisk(s'.disk, p) == OnDisk(s.disk, p))
    decreases |todo|
  {
    hide PoolInv, FlushPage, OnDisk, Logical;
    if todo != [] {
      var s1 := FlushPage(s, todo[0]);
      FlushPageOk(s, todo[0]);
      FlushEachOk(s1, todo[1..]);
      assert forall p :: p in todo <==> p == todo[0] || p in todo[1..];
    }
  }

  /** Flushing touches the disk and the dirty flags, which only go down, and the pages flushed end clean. */
  lemma {:induction false} FlushEachFrames(s: Pool, todo: seq<PageId>)
    requires PoolInv(s)
    ensures var s' := FlushEach(s, todo);
      && s' == s.(frames := s'.frames, disk := s'.disk, diskWrites := s'.diskWrites) && |s'.frames| == |s.frames|
      && (forall h :: 0 <= h < |s.frames| ==> s'.frames[h] == s.frames[h] || s'.frames[h] == s.frames[h].(dirty := false))
      && (forall p :: p in todo && p in s.table ==> s.table[p] < |s.frames| && !s'.frames[s.table[p]].dirty)
    decreases |todo|
  {
    hide PoolInv, FlushPage, OnDisk, Logical, SameContents;
    if todo != [] {
      var p, s1 := todo[0], FlushPage(s, todo[0]);
      FlushPageOk(s, p);
      FlushKeepsData(s, p);
      FlushEachFrames(s1, todo[1..]);
      forall q | q in todo && q in s.table ensures s.table[q] < |s.frames| && !FlushEach(s1, todo[1..]).frames[s.table[q]].dirty {
        TableFits(s, q);
        assert q == p || q in todo[1..];
      }
    }
  }

  lemma FlushKeepsData(s: Pool, p: PageId)
    ensures |FlushPage(s, p).frames| == |s.frames|
    ensures forall h :: 0 <= h < |s.frames| ==> FlushPage(s, p).frames[h] == s.frames[h] || FlushPage(s, p).frames[h] == s.frames[h].(dirty := false)
  {
  }

  /**
   * After flushing every page of the table, in any order, the disk alone holds every page's contents, no page is
   * dirty, and all but the disk and those flags is as before.
   */
  lemma FlushAllOk(s: Pool, todo: seq<PageId>)
    requires PoolInv(s) && forall p :: p in s.table ==> p in todo
    ensures var s' := FlushEach(s, todo);
      && PoolInv(s') && SameContents(s, s') && s'.guards == s.guards
      && (forall p :: OnDisk(s'.disk, p) == Logical(s, p))
      && s' == s.(frames := s'.frames, disk := s'.disk, diskWrites := s'.diskWrites) && |s'.frames| == |s.frames|
      && (forall h :: 0 <= h < |s.frames| ==> s'.frames[h] == s.frames[h] || s'.frames[h] == s.frames[h].(dirty := false))
      && forall p :: p in s.table ==> s.table[p] < |s.frames| && !s'.frames[s.table[p]].dirty
  {
    hide PoolInv, OnDisk, Logical, FlushEach;
    FlushEachOk(s, todo);
    FlushEachFrames(s, todo);
    forall p ensures OnDisk(FlushEach(s, todo).disk, p) == Logical(s, p) {
      if p in s.table {
        TableFits(s, p);
      } else {
        NotInTable(FlushEach(s, todo), p);
        assert Logical(FlushEach(s, todo), p) == Logical(s, p);
      }
    }
  }

  /** One guard fewer on one frame. */
  lemma DropCount(s: Pool, s': Pool, g: GuardId)
    requires PinsOk(s) && g in s.guards && s.guards[g].frame < |s.frames|
    requires var f := s.guards[g].frame; s'.frames == s.frames[f := s.frames[f].(pin := s.frames[f].pin - 1)]
    requires s'.guards == s.guards - {g} && s'.table == s.table
    ensures PinsOk(s') && s'.frames[s.guards[g].frame].pin >= 0
  {
    hide GuardsOn;
    OneLessGuard(s.guards, g);
  }

  lemma OneLessGuard(guards: map<GuardId, Guard>, g: GuardId)
    requires g in guards
    ensures |GuardsOn(guards - {g}, guards[g].frame)| == |GuardsOn(guards, guards[g].frame)| - 1
    ensures forall h :: h != guards[g].frame ==> GuardsOn(guards - {g}, h) == GuardsOn(guards, h)
  {
    var f := guards[g].frame;
    assert GuardsOn(guards - {g}, f) == GuardsOn(guards, f) - {g} && g in GuardsOn(guards, f);
  }

  lemma DropStore(s: Pool, s': Pool, owner: map<FrameId, PageId>, g: GuardId)
    requires StoreOk(s, owner) && g in s.guards && s.guards[g].frame < |s.frames|
    requires var f := s.guards[g].frame; s' == s.(arc := s'.arc, frames := s.frames[f := s.frames[f].(pin := s.frames[f].pin - 1)], guards := s.guards - {g})
    requires s'.arc.size == s.arc.size
    ensures StoreOk(s', owner) && SameContents(s, s') && s'.frames[s.guards[g].frame].pin >= 0
  {
    hide PinsOk, Zeros;
    DropCount(s, s', g);
  }

  /**
   * Dropping a guard changes no contents; its frame becomes evictable when it was the last one. Nothing else is
   * changed: one pin less, one guard less, and at most one flag in the replacer with the count of such flags.
   */
  lemma DropOk(s: Pool, g: GuardId)
    requires PoolInv(s) && g in s.guards
    ensures var s', f := Drop(s, g), s.guards[g].frame;
      && PoolInv(s') && SameContents(s, s') && s'.guards == s.guards - {g} && s'.table == s.table
      && s' == s.(arc := s'.arc, frames := s'.frames, guards := s'.guards)
      && f < |s.frames| && s'.frames == s.frames[f := s.frames[f].(pin := s.frames[f].pin - 1)]
      && s'.arc == s.arc.(alive := s'.arc.alive, curr := s'.arc.curr)
  {
    hide ArcInv, PinsOk, CleanOk, SameContents, SetEvictable, FramesOk, TableOk;
    GuardSees(s, g);
    var f, s' := s.guards[g].frame, Drop(s, g);
    SetEvictableOk(s.arc, f, true);
    DropStore(s, s', Owners(s.arc), g);
    assert Owners(s'.arc) == Owners(s.arc);
  }

  lemma NewPageKeeps(s: Pool, owner: map<FrameId, PageId>)
    requires TableOk(s, owner) && FramesOk(s, owner) && PinsOk(s) && CleanOk(s) && FlagsOk(s)
    ensures var s' := s.(next := s.next + 1);
      && TableOk(s', owner) && FramesOk(s', owner) && PinsOk(s') && CleanOk(s') && FlagsOk(s')
      && (forall p :: Logical(s', p) == Logical(s, p)) && Logical(s', s.next) == Zeros()
  {
    hide NoDup, Zeros;
  }

  lemma NewPageOk(s: Pool)
    requires PoolInv(s)
    ensures var s' := s.(next := s.next + 1);
      && PoolInv(s') && (forall p :: Logical(s', p) == Logical(s, p)) && Logical(s', s.next) == Zeros()
  {
    hide ArcInv, TableOk, FramesOk, PinsOk, CleanOk, FlagsOk, Logical, Zeros;
    NewPageKeeps(s, Owners(s.arc));
  }

  // ----- runs -----

  function Init(n: nat): Pool {
    Pool(seq(n, _ => Frame(Zeros(), 0, false)), map[], seq(n, i => i), Empty(n), map[], 0,
         map[], 0, 0, 0, 0)
  }

  /** A new pool is in order: all frames free, to be taken in the order of their numbers, and nothing else anywhere. */
  lemma InitOk(n: nat)
    requires n < TWO_TO_64
    ensures PoolInv(Init(n))
    ensures var s := Init(n);
      && |s.frames| == |s.free| == n && (forall i :: 0 <= i < n ==> s.free[i] == i && s.frames[i].pin == 0 && !s.frames[i].dirty)
      && s.table == map[] && s.disk == map[] && s.guards == map[] && s.next == 0
      && s.hits == s.misses == s.diskReads == s.diskWrites == 0 && s.arc == Empty(n)
  {
    hide Zeros;
    var s := Init(n);
    assert Evictable(s.arc) == {};
    assert forall f :: GuardsOn(s.guards, f) == {};
    assert Owners(s.arc) == map[];
    assert FramesOk(s, map[]) by {
      forall f: FrameId | f < n ensures f in s.free { assert s.free[f] == f; }
    }
  }

  /** What a caller may do: name a new guard when fetching, use a guard it holds, write only through a write guard. */
  ghost predicate Legal(s: Pool, step: Step) {
    match step
    case Get(_, _, g) => g !in s.guards
    case Change(g, _) => g in s.guards && s.guards[g].exclusive
    case Leave(g) => g in s.guards
    case Save(g) => g in s.guards
    case FlushAll(order) => NoDup(order) && forall p :: p in order <==> p in s.table
    case _ => true
  }

  ghost function Next(s: Pool, step: Step): Pool {
    match step
    case New => s.(next := s.next + 1)
    case Get(p, x, g) => var r := Fetch(s, p, x, g); if r.Some? then r.value else s
    case Change(g, d) => Write(s, g, d)
    case Leave(g) => Drop(s, g)
    case Save(g) => GuardFlush(s, g)
    case Flush(p) => FlushPage(s, p)
    case FlushAll(order) => FlushEach(s, order)
  }

  /** The plain map the pool stands for, and which page each guard is on. */
  datatype Plain = Plain(next: PageId, pages: map<PageId, Data>, open: map<GuardId, PageId>)

  ghost function Abstract(s: Pool): Plain {
    Plain(s.next, map p | 0 <= p < s.next :: Logical(s, p), map g | g in s.guards :: s.guards[g].page)
  }

  /** The same step on the plain map; only a fetch has a choice, to be refused. */
  ghost predicate PlainStep(c: Plain, c': Plain, step: Step) {
    match step
    case New => c' == c.(next := c.next + 1, pages := c.pages[c.next := Zeros()])
    case Get(p, _, g) => c' == c || (0 <= p < c.next && c' == c.(open := c.open[g := p]))
    case Change(g, d) => g in c.open && c' == c.(pages := c.pages[c.open[g] := d])
    case Leave(g) => c' == c.(open := c.open - {g})
    case _ => c' == c
  }

  lemma SameAbstract(s: Pool, s': Pool)
    requires SameContents(s, s')
    ensures Abstract(s').pages == Abstract(s).pages && Abstract(s').next == Abstract(s).next
  {
  }

  lemma FetchRefines(s: Pool, p: PageId, x: bool, g: GuardId)
    requires PoolInv(s) && Legal(s, Get(p, x, g))
    ensures PoolInv(Next(s, Get(p, x, g))) && PlainStep(Abstract(s), Abstract(Next(s, Get(p, x, g))), Get(p, x, g))
  {
    hide PoolInv, Fetch, SameContents, Logical, Refused;
    FetchOk(s, p, x, g);
    if Fetch(s, p, x, g).Some? {
      var s' := Fetch(s, p, x, g).value;
      SameAbstract(s, s');
      assert 0 <= p < s.next by { NotRefused(s, p); }
      assert Abstract(s').open == Abstract(s).open[g := p];
    }
  }

  lemma NotRefused(s: Pool, p: PageId)
    requires !Refused(s, p)
    ensures 0 <= p < s.next
  {
  }

  /** Every legal step keeps the invariant and does to the plain map what its name says. */
  lemma StepRefines(s: Pool, step: Step)
    requires PoolInv(s) && Legal(s, step)
    ensures PoolInv(Next(s, step)) && PlainStep(Abstract(s), Abstract(Next(s, step)), step)
  {
    hide PoolInv, Fetch, Write, Drop, GuardFlush, FlushPage, FlushEach, SameContents, Logical, NoDup, Zeros, OnDisk;
    var s' := Next(s, step);
    match step
    case New =>
      NewPageOk(s);
      assert Abstract(s').pages == Abstract(s).pages[s.next := Zeros()] by { assert s.next >= 0 by { NextOk(s); } }
    case Get(p, x, g) => FetchRefines(s, p, x, g);
    case Change(g, d) =>
      WriteOk(s, g, d);
      GuardSees(s, g);
      assert Abstract(s').pages == Abstract(s).pages[s.guards[g].page := d];
    case Leave(g) =>
      DropOk(s, g);
      SameAbstract(s, s');
      assert Abstract(s').open == Abstract(s).open - {g};
    case Save(g) =>
      GuardFlushOk(s, g);
      SameAbstract(s, s');
    case Flush(p) =>
      FlushPageOk(s, p);
      SameAbstract(s, s');
    case FlushAll(order) =>
      FlushEachOk(s, order);
      SameAbstract(s, s');
  }

  lemma NextOk(s: Pool)
    requires PoolInv(s)
    ensures s.next >= 0
  {
  }

  ghost function Run(s: Pool, steps: seq<Step>): Pool
    decreases |steps|
  {
    if steps == [] then s else Run(Next(s, steps[0]), steps[1..])
  }

  ghost predicate AllLegal(s: Pool, steps: seq<Step>)
    decreases |steps|
  {
    steps == [] || (Legal(s, steps[0]) && AllLegal(Next(s, steps[0]), steps[1..]))
  }

  ghost predicate PlainRun(c: Plain, c': Plain, steps: seq<Step>)
    decreases |steps|
  {
    if steps == [] then c' == c else exists c1 :: PlainStep(c, c1, steps[0]) && PlainRun(c1, c', steps[1..])
  }

  /** Over every run the pool keeps its invariant and is indistinguishable from a plain map of pages. */
  lemma {:induction false} RunRefines(s: Pool, steps: seq<Step>)
    requires PoolInv(s) && AllLegal(s, steps)
    ensures PoolInv(Run(s, steps)) && PlainRun(Abstract(s), Abstract(Run(s, steps)), steps)
    decreases |steps|
  {
    hide PoolInv, Legal, Next, PlainStep, Abstract;
    if steps != [] {
      StepRefines(s, steps[0]);
      RunRefines(Next(s, steps[0]), steps[1..]);
    }
  }

  /** Through a guard one sees exactly its page's contents in the plain map. */
  lemma GuardShowsPage(s: Pool, g: GuardId)
    requires PoolInv(s) && g in s.guards
    ensures var c, q := Abstract(s), s.guards[g];
      && q.frame < |s.frames| && q.page in c.pages && s.frames[q.frame].data == c.pages[q.page]
  {
    hide PoolInv, Logical;
    GuardSees(s, g);
  }

  /** What was last written to page `p` in a run, `d` if nothing was. */
  ghost function LastWritten(s: Pool, steps: seq<Step>, p: PageId, d: Data): Data
    decreases |steps|
  {
    if steps == [] then d
    else
      var step := steps[0];
      LastWritten(Next(s, step), steps[1..], p,
                  if step.Change? && step.guard in s.guards && s.guards[step.guard].page == p then step.data else d)
  }

  lemma StepContents(s: Pool, step: Step, p: PageId)
    requires PoolInv(s) && Legal(s, step)
    ensures Logical(Next(s, step), p)
      == if step.Change? && step.guard in s.guards && s.guards[step.guard].page == p then step.data else Logical(s, p)
  {
    hide PoolInv, Fetch, Write, Drop, GuardFlush, FlushPage, FlushEach, Logical, NoDup, Zeros, OnDisk, Refused, OnlyFrame, Fetched;
    match step
    case New => NewPageOk(s);
    case Get(q, x, g) =>
      FetchOk(s, q, x, g);
      if Fetch(s, q, x, g).Some? {
        FetchedSame(s, Fetch(s, q, x, g).value, q, x, g);
      }
    case Change(g, d) => WriteOk(s, g, d);
    case Leave(g) => DropOk(s, g);
    case Save(g) => GuardFlushOk(s, g);
    case Flush(q) => FlushPageOk(s, q);
    case FlushAll(order) => FlushEachOk(s, order);
  }

  lemma FetchedSame(s: Pool, s': Pool, p: PageId, x: bool, g: GuardId)
    requires Fetched(s, s', p, x, g)
    ensures SameContents(s, s')
  {
  }

  lemma {:induction false} RunContents(s: Pool, steps: seq<Step>, p: PageId)
    requires PoolInv(s) && AllLegal(s, steps)
    ensures Logical(Run(s, steps), p) == LastWritten(s, steps, p, Logical(s, p))
    decreases |steps|
  {
    hide PoolInv, Legal, Next, Logical;
    if steps != [] {
      StepRefines(s, steps[0]);
      StepContents(s, steps[0], p);
      RunContents(Next(s, steps[0]), steps[1..], p);
    }
  }

  /** Over every run of a new pool a page reads as what was last written to it, and as 4096 zero bytes before that. */
  lemma ReadsLastWrite(n: nat, steps: seq<Step>, p: PageId, zeros: Data)
    requires n < TWO_TO_64 && AllLegal(Init(n), steps)
    requires |zeros| == 4096 && forall i :: 0 <= i < 4096 ==> zeros[i] == 0
    ensures Logical(Run(Init(n), steps), p) == LastWritten(Init(n), steps, p, zeros)
  {
    hide PoolInv, AllLegal, Run, LastWritten;
    InitOk(n);
    RunContents(Init(n), steps, p);
    assert Zeros() == zeros;
  }

  ghost predicate Keeps(step: Step, g: GuardId) {
    step != Leave(g)
  }

  lemma StepKeepsGuard(s: Pool, step: Step, g: GuardId)
    requires PoolInv(s) && Legal(s, step) && g in s.guards && Keeps(step, g)
    ensures g in Next(s, step).guards && Next(s, step).guards[g] == s.guards[g]
  {
    hide PoolInv, Fetch, Drop, FlushPage, FlushEach, SameContents, Refused;
    match step
    case Get(p, x, h) => FetchOk(s, p, x, h);
    case Leave(h) => DropOk(s, h);
    case Flush(p) => FlushPageOk(s, p);
    case FlushAll(order) => FlushEachOk(s, order);
    case _ =>
  }

  /** While a guard is held, no run of other operations moves its page to another frame. */
  lemma {:induction false} GuardedFrameFixed(s: Pool, steps: seq<Step>, g: GuardId)
    requires PoolInv(s) && AllLegal(s, steps) && g in s.guards && forall i :: 0 <= i < |steps| ==> Keeps(steps[i], g)
    ensures var s', q := Run(s, steps), s.guards[g];
      && g in s'.guards && s'.guards[g] == q && q.page in s'.table && s'.table[q.page] == q.frame
    decreases |steps|
  {
    hide PoolInv, Legal, Next;
    if steps == [] {
      GuardSees(s, g);
    } else {
      StepRefines(s, steps[0]);
      StepKeepsGuard(s, steps[0], g);
      GuardedFrameFixed(Next(s, steps[0]), steps[1..], g);
    }
  }

  /** How many fetches of a run succeed. */
  ghost function Successes(s: Pool, steps: seq<Step>): nat
    decreases |steps|
  {
    if steps == [] then 0
    else (if steps[0].Get? && !Refused(s, steps[0].page) then 1 else 0) + Successes(Next(s, steps[0]), steps[1..])
  }

  lemma {:induction false} FlushEachCounts(s: Pool, todo: seq<PageId>)
    ensures var s' := FlushEach(s, todo); s'.hits == s.hits && s'.misses == s.misses
    decreases |todo|
  {
    if todo != [] {
      FlushEachCounts(FlushPage(s, todo[0]), todo[1..]);
    }
  }

  /** Hits and misses together count the successful fetches, and the disk is read once per miss. */
  lemma {:induction false} RunCounts(s: Pool, steps: seq<Step>)
    requires PoolInv(s) && AllLegal(s, steps)
    ensures var s' := Run(s, steps);
      && s'.hits + s'.misses == s.hits + s.misses + Successes(s, steps)
      && s'.diskReads == s'.misses
    decreases |steps|
  {
    hide PoolInv, Fetch, FlushEach, SameContents, Refused;
    if steps == [] {
      assert s.diskReads == s.misses by { ReadsAreMisses(s); }
    } else {
      StepRefines(s, steps[0]);
      match steps[0] {
        case Get(p, x, g) => FetchOk(s, p, x, g);
        case FlushAll(order) => FlushEachCounts(s, order);
        case _ =>
      }
      RunCounts(Next(s, steps[0]), steps[1..]);
    }
  }

  lemma ReadsAreMisses(s: Pool)
    requires PoolInv(s)
    ensures s.diskReads == s.misses
  {
  }

  // ----- write-backs -----

  ghost predicate AllClean(s: Pool) {
    forall p :: p in s.table && s.table[p] < |s.frames| ==> !s.frames[s.table[p]].dirty
  }

  /** Bringing a page in writes back the page it displaces only if that one is dirty. */
  lemma BringClean(s: Pool, p: PageId)
    requires AllClean(s) && Bring(s, p).Some?
    ensures var s1 := Bring(s, p).value.1; AllClean(s1) && s1.diskWrites == s.diskWrites
  {
    hide Evict, Zeros;
  }

  lemma PinClean(s: Pool, p: PageId, f: FrameId, x: bool, g: GuardId)
    requires AllClean(s) && Pin(s, p, f, x, g).Some?
    ensures var s1 := Pin(s, p, f, x, g).value; AllClean(s1) && s1.diskWrites == s.diskWrites
  {
    hide RecordAccess, SetEvictable;
  }

  lemma {:induction false} FlushEachClean(s: Pool, todo: seq<PageId>)
    requires AllClean(s)
    ensures FlushEach(s, todo) == s
    decreases |todo|
  {
    if todo != [] {
      FlushEachClean(s, todo[1..]);
    }
  }

  lemma StepClean(s: Pool, step: Step)
    requires AllClean(s) && !step.Change?
    ensures AllClean(Next(s, step)) && Next(s, step).diskWrites == s.diskWrites
  {
    hide Bring, Pin, FlushEach, SetEvictable;
    match step
    case Get(p, x, g) =>
      var b := Bring(s, p);
      if b.Some? {
        BringClean(s, p);
        if Pin(b.value.1, p, b.value.0, x, g).Some? {
          PinClean(b.value.1, p, b.value.0, x, g);
        }
      }
    case FlushAll(order) => FlushEachClean(s, order);
    case _ =>
  }

  /** A run without writes, from a pool without dirty pages, never writes to disk through the pool. */
  lemma {:induction false} ReadsWriteNothing(s: Pool, steps: seq<Step>)
    requires AllClean(s) && forall i :: 0 <= i < |steps| ==> !steps[i].Change?
    ensures AllClean(Run(s, steps)) && Run(s, steps).diskWrites == s.diskWrites
    decreases |steps|
  {
    hide AllClean, Next;
    if steps != [] {
      StepClean(s, steps[0]);
      ReadsWriteNothing(Next(s, steps[0]), steps[1..]);
    }
  }

  /** Flushing a page writes once if it is dirty and not at all otherwise. */
  lemma FlushPageWrites(s: Pool, p: PageId)
    requires PoolInv(s)
    ensures var s', dirty := FlushPage(s, p), p in s.table && s.frames[s.table[p]].dirty;
      && s'.diskWrites == s.diskWrites + (if dirty then 1 else 0)
      && (p in s.table ==> !s'.frames[s.table[p]].dirty)
      && forall q :: q in s.table && q != p ==> s'.frames[s.table[q]].dirty == s.frames[s.table[q]].dirty
  {
    TableFits(s, p);
    forall q | q in s.table && q != p ensures s.table[q] < |s.frames| && FlushPage(s, p).frames[s.table[q]].dirty == s.frames[s.table[q]].dirty {
      TableFits(s, q);
      if p in s.table {
        DifferentFrames(s, p, q);
      }
    }
  }

  lemma DifferentFrames(s: Pool, p: PageId, q: PageId)
    requires PoolInv(s) && p in s.table && q in s.table && p != q
    ensures s.table[p] != s.table[q]
  {
  }

  /** How many of the listed pages are dirty. */
  ghost function DirtyCount(s: Pool, todo: seq<PageId>): nat
    decreases |todo|
  {
    if todo == [] then 0
    else (if todo[0] in s.table && s.table[todo[0]] < |s.frames| && s.frames[s.table[todo[0]]].dirty then 1 else 0) + DirtyCount(s, todo[1..])
  }

  /** Changing one page's flag does not change the count over a list without it. */
  lemma {:induction false} DirtyElsewhere(s: Pool, s': Pool, p: PageId, todo: seq<PageId>)
    requires s'.table == s.table && |s'.frames| == |s.frames| && p !in todo
    requires forall q :: q in s.table && q != p && s.table[q] < |s.frames| ==> s'.frames[s.table[q]].dirty == s.frames[s.table[q]].dirty
    ensures DirtyCount(s', todo) == DirtyCount(s, todo)
    decreases |todo|
  {
    if todo != [] {
      DirtyElsewhere(s, s', p, todo[1..]);
    }
  }

  /** `FlushAllPages` writes each dirty page exactly once and no other. */
  lemma {:induction false} FlushAllWrites(s: Pool, todo: seq<PageId>)
    requires PoolInv(s) && NoDup(todo)
    ensures FlushEach(s, todo).diskWrites == s.diskWrites + DirtyCount(s, todo)
    decreases |todo|
  {
    hide PoolInv, FlushPage, SameContents, OnDisk, Logical;
    if todo != [] {
      var p, s1 := todo[0], FlushPage(s, todo[0]);
      FlushPageOk(s, p);
      FlushPageWrites(s, p);
      TableFits(s, p);
      FlushKeepsFrames(s, p);
      assert p !in todo[1..];
      DirtyElsewhere(s, s1, p, todo[1..]);
      FlushAllWrites(s1, todo[1..]);
    }
  }

  lemma FlushKeepsFrames(s: Pool, p: PageId)
    ensures |FlushPage(s, p).frames| == |s.frames|
  {
  }

  // ----- enough frames -----

  ghost function FramesOf(guards: map<GuardId, Guard>): set<FrameId> {
    set g | g in guards :: guards[g].frame
  }

  lemma {:induction false} FewFrames(guards: map<GuardId, Guard>)
    ensures |FramesOf(guards)| <= |guards|
    decreases |guards|
  {
    if guards != map[] {
      var g :| g in guards;
      var rest := guards - {g};
      assert rest.Keys == guards.Keys - {g};
      assert |rest| == |guards| - 1;
      FewFrames(rest);
      assert FramesOf(guards) == FramesOf(rest) + {guards[g].frame} by {
        forall h | h in guards ensures guards[h].frame in FramesOf(rest) + {guards[g].frame} {
          assert h != g ==> h in rest && rest[h] == guards[h];
        }
      }
    } else {
      assert FramesOf(guards) == {};
    }
  }

  lemma {:induction false} FramesUpTo(s: set<FrameId>, n: nat)
    requires forall f: FrameId :: f < n ==> f in s
    ensures n <= |s|
    decreases n
  {
    if n > 0 {
      FramesUpTo(s - {n - 1}, n - 1);
      assert |s - {n - 1}| == |s| - 1;
    }
  }

  /** With fewer live guards than frames no fetch of an allocated page is refused. */
  lemma RoomToFetch(s: Pool, p: PageId)
    requires PoolInv(s) && 0 <= p < s.next && |s.guards| < |s.frames|
    ensures !Refused(s, p)
  {
    if AllPinned(s) {
      assert PinsOk(s);
      hide PoolInv;
      forall f: FrameId | f < |s.frames| ensures f in FramesOf(s.guards) {
        assert s.frames[f].pin > 0;
        assert |GuardsOn(s.guards, f)| > 0;
        var g :| g in GuardsOn(s.guards, f);
        assert s.guards[g].frame == f;
      }
      FramesUpTo(FramesOf(s.guards), |s.frames|);
      FewFrames(s.guards);
      assert false;
    }
  }
}
