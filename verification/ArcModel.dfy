/**
 * The ARC replacer as a function on states: four lists, two maps, the count of evictable frames and the target.
 *
 * `size_t` is 64 bits wide, and the target is an unsigned number: lowering it below zero wraps around before the
 * code's `max(..., 0)` sees it. Nothing below depends on the target being small. `None` as a result stands for
 * the code's `logic_error`, for a division by zero, and for the nested `Evict` that would lock its own latch again.
 */
module ArcModel {
  import opened Types

  type FrameId = nat

  const TWO_TO_64: int := 0x1_0000_0000_0000_0000

  function Wrap(x: int): (r: int)
    ensures 0 <= r < TWO_TO_64
  {
    x % TWO_TO_64
  }

  datatype ArcStatus = MRU | MFU | MRUGhost | MFUGhost

  datatype FrameStatus = FrameStatus(pageId: PageId, frameId: FrameId, evictable: bool, status: ArcStatus)

  datatype Arc = Arc(
    mru: seq<FrameId>, mfu: seq<FrameId>, mruGhost: seq<PageId>, mfuGhost: seq<PageId>,
    alive: map<FrameId, FrameStatus>, ghosts: map<PageId, FrameStatus>,
    curr: int, target: int, size: int)

  // ----- lists -----

  /** `std::list::remove`. */
  function Without<T(==)>(s: seq<T>, x: T): seq<T> {
    if s == [] then [] else if s[0] == x then Without(s[1..], x) else [s[0]] + Without(s[1..], x)
  }

  function DropAt<T>(s: seq<T>, i: nat): seq<T>
    requires i < |s|
  {
    s[..i] + s[i + 1..]
  }

  ghost predicate NoDup<T(!new)>(s: seq<T>) {
    forall i, j :: 0 <= i < j < |s| ==> s[i] != s[j]
  }

  lemma {:induction false} WithoutIs<T(!new)>(s: seq<T>, x: T)
    requires NoDup(s)
    ensures NoDup(Without(s, x)) && forall y :: y in Without(s, x) <==> y in s && y != x
  {
    if s != [] {
      WithoutIs(s[1..], x);
      var w := Without(s[1..], x);
      assert forall y :: y in s <==> y == s[0] || y in s[1..];
      assert s[0] !in s[1..];
      if s[0] != x {
        assert forall y :: y in [s[0]] + w <==> y == s[0] || y in w;
      }
    }
  }

  lemma DropAtIs<T(!new)>(s: seq<T>, i: nat)
    requires NoDup(s) && i < |s|
    ensures NoDup(DropAt(s, i)) && forall y :: y in DropAt(s, i) <==> y in s && y != s[i]
  {
    var d := DropAt(s, i);
    forall y | y in s && y != s[i] ensures y in d {
      var j :| 0 <= j < |s| && s[j] == y;
      assert d[if j < i then j else j - 1] == y;
    }
  }

  lemma PushFrontIs<T(!new)>(s: seq<T>, x: T)
    requires NoDup(s) && x !in s
    ensures NoDup([x] + s) && forall y :: y in [x] + s <==> y == x || y in s
  {
  }

  /** `s'` is `s` without `x`, everything else in its old order; the same list if `x` is not in it. */
  ghost predicate TakenOut<T(!new)>(s: seq<T>, s': seq<T>, x: T) {
    if x in s then exists i :: 0 <= i < |s| && s[i] == x && s' == s[..i] + s[i + 1..] else s' == s
  }

  /** `x` is the first of `s'`, and the rest is `s` without it. */
  ghost predicate InFront<T(!new)>(s: seq<T>, s': seq<T>, x: T) {
    s' != [] && s'[0] == x && TakenOut(s, s'[1..], x)
  }

  lemma {:induction false} WithoutTakes<T(!new)>(s: seq<T>, x: T)
    requires NoDup(s)
    ensures TakenOut(s, Without(s, x), x)
  {
    if x !in s {
      WithoutAbsent(s, x);
    } else if s[0] == x {
      WithoutAbsent(s[1..], x);
      assert Without(s, x) == s[..0] + s[0 + 1..];
    } else {
      WithoutTakes(s[1..], x);
      var i :| 0 <= i < |s[1..]| && s[1..][i] == x && Without(s[1..], x) == s[1..][..i] + s[1..][i + 1..];
      assert s[i + 1] == x && Without(s, x) == s[..i + 1] + s[i + 1 + 1..];
    }
  }

  lemma {:induction false} WithoutAbsent<T>(s: seq<T>, x: T)
    requires x !in s
    ensures Without(s, x) == s
  {
    if s != [] {
      WithoutAbsent(s[1..], x);
    }
  }

  // ----- operations -----

  function SetEvictable(a: Arc, f: FrameId, b: bool): Option<Arc> {
    if f !in a.alive then None
    else if a.alive[f].evictable == b then Some(a)
    else Some(a.(alive := a.alive[f := a.alive[f].(evictable := b)], curr := Wrap(if b then a.curr + 1 else a.curr - 1)))
  }

  function Max(x: int, y: int): int {
    if x < y then y else x
  }

  function Min(x: int, y: int): int {
    if y < x then y else x
  }

  /** How far a ghost hit moves the target. */
  function Shift(other: nat, own: nat): nat
    requires own > 0
  {
    Max(other / own, 1)
  }

  /** A hit in a ghost list moves the target towards that list and takes the page off it. */
  function GhostHit(a: Arc, p: PageId): Option<Arc>
    requires p in a.ghosts
  {
    match a.ghosts[p].status
    case MRUGhost =>
      if a.mruGhost == [] then None
      else Some(a.(target := Min(Wrap(a.target + Shift(|a.mfuGhost|, |a.mruGhost|)), a.size), mruGhost := Without(a.mruGhost, p)))
    case MFUGhost =>
      if a.mfuGhost == [] then None
      else Some(a.(target := Max(Wrap(a.target - Shift(|a.mruGhost|, |a.mfuGhost|)), 0), mfuGhost := Without(a.mfuGhost, p)))
    case _ => None
  }

  function RecordAccess(a: Arc, f: FrameId, p: PageId): Option<Arc> {
    if f in a.alive then
      match a.alive[f].status
      case MRU => Some(a.(mru := Without(a.mru, f), mfu := [f] + a.mfu, alive := a.alive[f := a.alive[f].(status := MFU)]))
      case MFU => Some(a.(mfu := [f] + Without(a.mfu, f)))
      case _ => None
    else if p in a.ghosts then
      match GhostHit(a, p)
      case None => None
      case Some(hit) => Admit(hit, f, p, FrameStatus(a.ghosts[p].pageId, f, false, MFU))
    else
      Grown(a.(alive := a.alive[f := FrameStatus(p, f, false, MRU)], mru := [f] + a.mru))
  }

  /** A page comes back from a ghost list. */
  function Admit(a: Arc, f: FrameId, p: PageId, st: FrameStatus): Option<Arc> {
    Grown(a.(ghosts := a.ghosts - {p}, alive := a.alive[f := st], mfu := [f] + a.mfu))
  }

  /** The check after an insertion; the `Evict` it guards would wait for the latch its caller holds. */
  function Grown(a: Arc): Option<Arc> {
    if |a.alive| > a.size then None else Some(a)
  }

  predicate CanEvict(a: Arc, f: FrameId) {
    f in a.alive && a.alive[f].evictable
  }

  /** The scan from the back of a list: how many slots from the front are left when it stops, 0 if it finds nothing. */
  function Scan(a: Arc, s: seq<FrameId>): (n: nat)
    ensures n <= |s|
  {
    if s == [] then 0 else if CanEvict(a, s[|s| - 1]) then |s| else Scan(a, s[..|s| - 1])
  }

  /** `MRU` and `MFU` also name the two lists an eviction can go to. */
  predicate Alive(stat: ArcStatus) {
    stat == MRU || stat == MFU
  }

  function ListOf(a: Arc, stat: ArcStatus): seq<FrameId> {
    if stat == MFU then a.mfu else a.mru
  }

  function GhostOf(stat: ArcStatus): ArcStatus {
    if stat == MRU then MRUGhost else MFUGhost
  }

  /** The frame in slot `i` of a list goes, and its page to the front of that list's ghost. */
  function Take(a: Arc, stat: ArcStatus, i: nat): Arc
    requires i < |ListOf(a, stat)| && ListOf(a, stat)[i] in a.alive
  {
    var f, rest := ListOf(a, stat)[i], DropAt(ListOf(a, stat), i);
    var st := a.alive[f];
    var a' := a.(ghosts := a.ghosts[st.pageId := st.(status := GhostOf(stat))], alive := a.alive - {f}, curr := Wrap(a.curr - 1));
    if stat == MFU then a'.(mfu := rest, mfuGhost := [st.pageId] + a.mfuGhost) else a'.(mru := rest, mruGhost := [st.pageId] + a.mruGhost)
  }

  function TryEvict(a: Arc, stat: ArcStatus): (Option<FrameId>, Arc) {
    var list := ListOf(a, stat);
    var n := Scan(a, list);
    if n == 0 || list[n - 1] !in a.alive then (None, a) else (Some(list[n - 1]), Take(a, stat, n - 1))
  }

  function FirstOf(x: (Option<FrameId>, Arc), y: (Option<FrameId>, Arc)): (Option<FrameId>, Arc) {
    if x.0.Some? then x else y
  }

  function Evict(a: Arc): (Option<FrameId>, Arc) {
    var r, f := TryEvict(a, MRU), TryEvict(a, MFU);
    if a.curr == 0 then (None, a)
    else if |a.mru| > a.target && (r.0.Some? || f.0.Some?) then FirstOf(r, f)
    else if |a.mfu| >= Wrap(a.size - a.target) && (r.0.Some? || f.0.Some?) then FirstOf(f, r)
    else FirstOf(r, f)
  }

  // ----- the invariant -----

  ghost function Evictable(a: Arc): set<FrameId> {
    set f | f in a.alive && a.alive[f].evictable
  }

  ghost predicate ListsOk(a: Arc) {
    && NoDup(a.mru) && NoDup(a.mfu)
    && (forall f :: f in a.alive <==> f in a.mru || f in a.mfu)
    && (forall f :: !(f in a.mru && f in a.mfu))
    && (forall f :: f in a.alive ==> a.alive[f].frameId == f && a.alive[f].status == if f in a.mru then MRU else MFU)
  }

  ghost predicate GhostsOk(a: Arc) {
    && NoDup(a.mruGhost) && NoDup(a.mfuGhost)
    && (forall p :: p in a.ghosts <==> p in a.mruGhost || p in a.mfuGhost)
    && (forall p :: !(p in a.mruGhost && p in a.mfuGhost))
    && (forall p :: p in a.ghosts ==> a.ghosts[p].pageId == p && a.ghosts[p].status == if p in a.mruGhost then MRUGhost else MFUGhost)
  }

  ghost predicate PagesOk(a: Arc) {
    && (forall f, g :: f in a.alive && g in a.alive && f != g ==> a.alive[f].pageId != a.alive[g].pageId)
    && (forall f :: f in a.alive ==> a.alive[f].pageId !in a.ghosts)
  }

  ghost predicate CountOk(a: Arc) {
    && a.curr == |Evictable(a)| && 0 <= a.target < TWO_TO_64 && 0 <= a.size < TWO_TO_64
    && forall f :: f in a.alive ==> 0 <= f < a.size
  }

  ghost predicate ArcInv(a: Arc) {
    ListsOk(a) && GhostsOk(a) && PagesOk(a) && CountOk(a)
  }

  /** The replacer remembers page `p`, in whichever of the four lists. */
  ghost predicate Known(a: Arc, p: PageId) {
    p in a.ghosts || exists f :: f in a.alive && a.alive[f].pageId == p
  }

  // ----- counting -----

  lemma {:induction false} FramesBelow(s: set<FrameId>, n: nat)
    requires forall f :: f in s ==> 0 <= f < n
    ensures |s| <= n
    decreases n
  {
    if n > 0 {
      var t := s - {n - 1};
      FramesBelow(t, n - 1);
      assert s == t || s == t + {n - 1};
    } else {
      assert s == {};
    }
  }

  /** With frame ids below the replacer's size there are never more alive entries than that. */
  lemma AliveFits(a: Arc)
    requires a.size >= 0 && forall f :: f in a.alive ==> 0 <= f < a.size
    ensures |a.alive| <= a.size
  {
    FramesBelow(a.alive.Keys, a.size);
    assert |a.alive| == |a.alive.Keys|;
  }

  // ----- SetEvictable -----

  lemma SetEvictableCount(a: Arc, f: FrameId, b: bool)
    requires CountOk(a) && f in a.alive && a.alive[f].evictable != b
    ensures CountOk(SetEvictable(a, f, b).value)
  {
    var a' := SetEvictable(a, f, b).value;
    var e := Evictable(a);
    FramesBelow(e, a.size);
    FramesBelow(e + {f}, a.size);
    assert f in e <==> !b;
    assert Evictable(a') == if b then e + {f} else e - {f};
    hide Evictable;
  }

  /**
   * `SetEvictable` fails exactly for an unknown frame, changes one flag and nothing else, and keeps the count of
   * evictable frames.
   */
  lemma SetEvictableOk(a: Arc, f: FrameId, b: bool)
    requires ArcInv(a)
    ensures var r := SetEvictable(a, f, b);
      && (r.Some? <==> f in a.alive)
      && (r.Some? ==> ArcInv(r.value) && r.value.alive == a.alive[f := a.alive[f].(evictable := b)]
                      && r.value.curr == |Evictable(r.value)| && r.value == a.(alive := r.value.alive, curr := r.value.curr))
  {
    hide CountOk;
    if f in a.alive && a.alive[f].evictable != b {
      SetEvictableCount(a, f, b);
      CountIs(SetEvictable(a, f, b).value);
    } else if f in a.alive {
      assert a.alive == a.alive[f := a.alive[f].(evictable := b)];
      CountIs(a);
    }
  }

  lemma CountIs(a: Arc)
    requires CountOk(a)
    ensures a.curr == |Evictable(a)|
  {
  }

  // ----- RecordAccess -----

  /** The buffer pool's protocol: a frame is recorded with the page it holds. */
  ghost predicate CanRecord(a: Arc, f: FrameId, p: PageId) {
    && f < a.size
    && (f in a.alive ==> a.alive[f].pageId == p)
    && (f !in a.alive ==> forall g :: g in a.alive ==> a.alive[g].pageId != p)
  }

  /** What a recorded access leaves: the frame alive with its page, and every other frame as it was. */
  ghost predicate Recorded(a: Arc, a': Arc, f: FrameId, p: PageId) {
    && f in a'.alive && a'.alive[f].pageId == p
    && a'.alive[f].evictable == (f in a.alive && a.alive[f].evictable)
    && (forall g :: g != f ==> (g in a'.alive <==> g in a.alive) && (g in a.alive ==> a'.alive[g] == a.alive[g]))
    && (forall q :: q in a'.ghosts <==> q in a.ghosts && q != p)
    && a'.size == a.size
  }

  lemma RecordAlive(a: Arc, f: FrameId, p: PageId)
    requires ArcInv(a) && CanRecord(a, f, p) && f in a.alive
    ensures var r := RecordAccess(a, f, p); r.Some? && ListsOk(r.value) && GhostsOk(r.value) && PagesOk(r.value) && Recorded(a, r.value, f, p)
  {
    hide CountOk, Without, GhostsOk, PagesOk, Recorded, NoDup;
    WithoutIs(a.mru, f);
    WithoutIs(a.mfu, f);
    PushFrontIs(if f in a.mru then a.mfu else Without(a.mfu, f), f);
    RecordAliveRest(a, f, p);
  }

  lemma RecordAliveRest(a: Arc, f: FrameId, p: PageId)
    requires ArcInv(a) && CanRecord(a, f, p) && f in a.alive
    ensures var r := RecordAccess(a, f, p); r.Some? && GhostsOk(r.value) && PagesOk(r.value) && Recorded(a, r.value, f, p)
  {
    hide CountOk, Without, NoDup;
  }

  /** What coming back from a ghost list changes, whichever list it was. */
  lemma RecordGhostIs(a: Arc, f: FrameId, p: PageId)
    requires ArcInv(a) && CanRecord(a, f, p) && f !in a.alive && p in a.ghosts
    ensures var r := RecordAccess(a, f, p);
      && r.Some?
      && r.value.alive == a.alive[f := FrameStatus(p, f, false, MFU)] && r.value.ghosts == a.ghosts - {p}
      && r.value.mru == a.mru && r.value.mfu == [f] + a.mfu && r.value.curr == a.curr && r.value.size == a.size
      && r.value.mruGhost == (if p in a.mruGhost then Without(a.mruGhost, p) else a.mruGhost)
      && r.value.mfuGhost == (if p in a.mruGhost then a.mfuGhost else Without(a.mfuGhost, p))
      && 0 <= r.value.target < TWO_TO_64
  {
    hide ListsOk, PagesOk;
    AliveFits(a.(alive := a.alive[f := FrameStatus(p, f, false, MFU)]));
  }

  lemma RecordGhost(a: Arc, f: FrameId, p: PageId)
    requires ArcInv(a) && CanRecord(a, f, p) && f !in a.alive && p in a.ghosts
    ensures var r := RecordAccess(a, f, p); r.Some? && ListsOk(r.value) && GhostsOk(r.value) && PagesOk(r.value) && Recorded(a, r.value, f, p)
  {
    hide RecordAccess, CountOk, Without, PagesOk, GhostsOk, NoDup;
    RecordGhostIs(a, f, p);
    PushFrontIs(a.mfu, f);
    BackAlive(a, RecordAccess(a, f, p).value, f, p);
  }

  /** The page leaves its ghost list and is alive. */
  lemma BackAlive(a: Arc, a': Arc, f: FrameId, p: PageId)
    requires GhostsOk(a) && PagesOk(a) && CanRecord(a, f, p) && f !in a.alive && p in a.ghosts
    requires a'.alive == a.alive[f := FrameStatus(p, f, false, MFU)] && a'.ghosts == a.ghosts - {p}
    requires a'.mruGhost == (if p in a.mruGhost then Without(a.mruGhost, p) else a.mruGhost)
    requires a'.mfuGhost == (if p in a.mruGhost then a.mfuGhost else Without(a.mfuGhost, p))
    ensures GhostsOk(a') && PagesOk(a')
  {
    hide Without, NoDup;
    WithoutIs(a.mruGhost, p);
    WithoutIs(a.mfuGhost, p);
  }

  lemma RecordNew(a: Arc, f: FrameId, p: PageId)
    requires ArcInv(a) && CanRecord(a, f, p) && f !in a.alive && p !in a.ghosts
    ensures var r := RecordAccess(a, f, p); r.Some? && ListsOk(r.value) && GhostsOk(r.value) && PagesOk(r.value) && Recorded(a, r.value, f, p)
  {
    hide PagesOk, GhostsOk, CountOk, NoDup;
    PushFrontIs(a.mru, f);
    RecordNewRest(a, f, p);
  }

  lemma RecordNewRest(a: Arc, f: FrameId, p: PageId)
    requires ArcInv(a) && CanRecord(a, f, p) && f !in a.alive && p !in a.ghosts
    ensures var r := RecordAccess(a, f, p); r.Some? && GhostsOk(r.value) && PagesOk(r.value)
  {
    hide ListsOk, NoDup;
    AliveFits(a.(alive := a.alive[f := FrameStatus(p, f, false, MRU)]));
  }

  lemma HitCounters(a: Arc, p: PageId)
    requires CountOk(a) && p in a.ghosts && GhostHit(a, p).Some?
    ensures var hit := GhostHit(a, p).value; hit.curr == a.curr && 0 <= hit.target < TWO_TO_64
  {
    hide Without, Evictable, Shift, Wrap;
  }

  lemma RecordCounters(a: Arc, f: FrameId, p: PageId)
    requires CountOk(a) && RecordAccess(a, f, p).Some?
    ensures RecordAccess(a, f, p).value.curr == a.curr && 0 <= RecordAccess(a, f, p).value.target < TWO_TO_64
  {
    hide Without, Evictable, GhostHit;
    if p in a.ghosts && GhostHit(a, p).Some? {
      HitCounters(a, p);
    }
  }

  lemma RecordCount(a: Arc, a': Arc, f: FrameId, p: PageId)
    requires CountOk(a) && Recorded(a, a', f, p) && CanRecord(a, f, p)
    requires a'.curr == a.curr && 0 <= a'.target < TWO_TO_64
    ensures CountOk(a')
  {
    assert Evictable(a') == Evictable(a);
  }

  /**
   * Under the pool's protocol `RecordAccess` never throws, never divides by zero and never reaches the nested
   * `Evict`; the remembered pages gain the recorded one and lose none.
   */
  lemma RecordAccessOk(a: Arc, f: FrameId, p: PageId)
    requires ArcInv(a) && CanRecord(a, f, p)
    ensures var r := RecordAccess(a, f, p);
      && r.Some? && ArcInv(r.value) && Recorded(a, r.value, f, p)
      && forall q :: Known(r.value, q) <==> Known(a, q) || q == p
  {
    hide ListsOk, GhostsOk, PagesOk, CountOk, RecordAccess, Recorded, Known;
    if f in a.alive {
      RecordAlive(a, f, p);
    } else if p in a.ghosts {
      RecordGhost(a, f, p);
    } else {
      RecordNew(a, f, p);
    }
    var a' := RecordAccess(a, f, p).value;
    RecordCounters(a, f, p);
    RecordCount(a, a', f, p);
    RecordKnown(a, a', f, p);
  }

  lemma RecordKnown(a: Arc, a': Arc, f: FrameId, p: PageId)
    requires Recorded(a, a', f, p) && CanRecord(a, f, p)
    ensures forall q :: Known(a', q) <==> Known(a, q) || q == p
  {
    forall q ensures Known(a', q) <==> Known(a, q) || q == p {
      if Known(a, q) && q != p && q !in a.ghosts {
        var g :| g in a.alive && a.alive[g].pageId == q;
        assert g in a'.alive && a'.alive[g].pageId == q;
      }
      if Known(a', q) && q !in a'.ghosts {
        var g :| g in a'.alive && a'.alive[g].pageId == q;
        assert g != f ==> g in a.alive && a.alive[g].pageId == q;
      }
    }
  }

  /** Where the frame of an access ends up in the two lists, if page `p` was `seen` before and if not. */
  ghost predicate Placed(a: Arc, a': Arc, f: FrameId, seen: bool) {
    if seen then InFront(a.mfu, a'.mfu, f) && TakenOut(a.mru, a'.mru, f) else InFront(a.mru, a'.mru, f) && TakenOut(a.mfu, a'.mfu, f)
  }

  /**
   * A frame seen before, alive or as a ghost, goes to the front of MFU, a new page to the front of MRU; wherever
   * frame and page were before they are taken out, and the rest of every list keeps its order.
   */
  lemma RecordPlaces(a: Arc, f: FrameId, p: PageId)
    requires ArcInv(a) && CanRecord(a, f, p)
    ensures var r := RecordAccess(a, f, p);
      && r.Some? && Placed(a, r.value, f, f in a.alive || p in a.ghosts)
      && TakenOut(a.mruGhost, r.value.mruGhost, p) && TakenOut(a.mfuGhost, r.value.mfuGhost, p)
  {
    hide CountOk, NoDup, Known, Recorded, Without, TakenOut, RecordAccess;
    RecordAccessOk(a, f, p);
    RecordLists(a, f, p);
    RecordGhosts(a, f, p);
    WithoutTakes(a.mru, f);
    WithoutTakes(a.mfu, f);
    WithoutTakes(a.mruGhost, p);
    WithoutTakes(a.mfuGhost, p);
    assert ([f] + Without(a.mfu, f))[1..] == Without(a.mfu, f) && ([f] + Without(a.mru, f))[1..] == Without(a.mru, f);
    assert [] + Without(a.mfu, f) == Without(a.mfu, f) && [] + Without(a.mru, f) == Without(a.mru, f);
  }

  lemma RecordLists(a: Arc, f: FrameId, p: PageId)
    requires ArcInv(a) && CanRecord(a, f, p) && RecordAccess(a, f, p).Some?
    ensures var a', seen := RecordAccess(a, f, p).value, f in a.alive || p in a.ghosts;
      && a'.mfu == (if seen then [f] else []) + Without(a.mfu, f) && a'.mru == (if seen then [] else [f]) + Without(a.mru, f)
  {
    hide GhostHit, Admit, CountOk, GhostsOk, PagesOk, NoDup, Without;
    if f !in a.mfu {
      WithoutAbsent(a.mfu, f);
    }
    if f !in a.mru {
      WithoutAbsent(a.mru, f);
    }
    if f !in a.alive && p in a.ghosts {
      RecordGhostIs(a, f, p);
    }
  }

  lemma RecordGhosts(a: Arc, f: FrameId, p: PageId)
    requires ArcInv(a) && CanRecord(a, f, p) && RecordAccess(a, f, p).Some?
    ensures var a' := RecordAccess(a, f, p).value; a'.mruGhost == Without(a.mruGhost, p) && a'.mfuGhost == Without(a.mfuGhost, p)
  {
    hide GhostHit, Admit, CountOk, ListsOk, NoDup, Without;
    if p !in a.mruGhost {
      WithoutAbsent(a.mruGhost, p);
    }
    if p !in a.mfuGhost {
      WithoutAbsent(a.mfuGhost, p);
    }
    if f !in a.alive && p in a.ghosts {
      RecordGhostIs(a, f, p);
    }
  }

  /** A hit in the MFU ghost list whose step is larger than the target: larger than 0, or than that many times the list. */
  predicate WouldWrap(a: Arc, f: FrameId, p: PageId) {
    f !in a.alive && p in a.mfuGhost && (a.target == 0 || (a.target + 1) * |a.mfuGhost| <= |a.mruGhost|)
  }

  /** `d` is how often a list of `own` goes into one of `other`, but at least 1. */
  ghost predicate IsStep(d: int, other: nat, own: nat) {
    1 <= d && other < (d + 1) * own && (d * own <= other || d == 1)
  }

  /** What an access makes of the target, as plain arithmetic on 64 bits, from the lengths of the ghost lists. */
  ghost predicate TargetMoves(t: int, t': int, size: int, inMRUGhost: bool, inMFUGhost: bool, mruGhosts: nat, mfuGhosts: nat) {
    if inMRUGhost then
      exists d :: IsStep(d, mfuGhosts, mruGhosts)
                  && t' == var sum := (t + d) % 0x1_0000_0000_0000_0000; if sum < size then sum else size
    else if inMFUGhost then
      exists d :: IsStep(d, mruGhosts, mfuGhosts) && t' == (t - d) % 0x1_0000_0000_0000_0000
    else t' == t
  }

  lemma QuotientIs(x: nat, d: nat)
    requires d > 0
    ensures x / d * d <= x < (x / d + 1) * d
  {
  }

  lemma ShiftIs(other: nat, own: nat)
    requires own > 0
    ensures IsStep(Shift(other, own), other, own)
  {
    QuotientIs(other, own);
  }

  lemma TimesGrows(q: nat, d: nat)
    requires d > 0
    ensures q <= q * d
  {
  }

  lemma StepFits(d: int, other: nat, own: nat)
    requires IsStep(d, other, own) && own > 0
    ensures d <= other || d == 1
  {
    TimesGrows(d, own);
  }

  lemma TimesLess(x: nat, y: nat, d: nat)
    requires x < y
    ensures x * d + d <= y * d
  {
    assert y * d == x * d + (y - x) * d;
    TimesGrows(d, y - x);
  }

  /** The step is larger than `t` exactly when `t + 1` times the list's own length still fits into the other one's. */
  lemma StepLarger(d: int, other: nat, own: nat, t: nat)
    requires IsStep(d, other, own) && own > 0
    ensures t < d <==> t == 0 || (t + 1) * own <= other
  {
    if t < d {
      if t + 1 < d {
        TimesLess(t + 1, d, own);
      }
    } else if t > d {
      TimesLess(d + 1, t + 1, own);
    }
  }

  lemma WrapIs(x: int)
    ensures 0 <= x < TWO_TO_64 ==> Wrap(x) == x
    ensures -TWO_TO_64 <= x < 0 ==> Wrap(x) == x + TWO_TO_64
  {
  }

  lemma HitTarget(a: Arc, p: PageId)
    requires GhostsOk(a) && CountOk(a) && p in a.ghosts && GhostHit(a, p).Some?
    ensures TargetMoves(a.target, GhostHit(a, p).value.target, a.size, p in a.mruGhost, p in a.mfuGhost, |a.mruGhost|, |a.mfuGhost|)
  {
    hide Without, Shift, IsStep, NoDup, Evictable;
    if p in a.mruGhost {
      ShiftIs(|a.mfuGhost|, |a.mruGhost|);
    } else {
      ShiftIs(|a.mruGhost|, |a.mfuGhost|);
    }
  }

  lemma NoHitTarget(a: Arc, f: FrameId, p: PageId)
    requires RecordAccess(a, f, p).Some?
    ensures f !in a.alive && p in a.ghosts ==> GhostHit(a, p).Some? && RecordAccess(a, f, p).value.target == GhostHit(a, p).value.target
    ensures f in a.alive || p !in a.ghosts ==> RecordAccess(a, f, p).value.target == a.target
  {
    hide GhostHit, Without;
  }

  /**
   * A hit in the MRU ghost list raises the target, up to the size, a hit in the MFU ghost list lowers it, both by how
   * often the list that was hit goes into the other one, but at least by 1; no other access moves it.
   */
  lemma RecordTarget(a: Arc, f: FrameId, p: PageId)
    requires ArcInv(a) && CanRecord(a, f, p)
    ensures var r, back := RecordAccess(a, f, p), f !in a.alive;
      r.Some? && TargetMoves(a.target, r.value.target, a.size, back && p in a.mruGhost, back && p in a.mfuGhost, |a.mruGhost|, |a.mfuGhost|)
  {
    hide RecordAccess, GhostHit, Recorded, Known, TargetMoves, ListsOk, PagesOk, NoDup, Evictable;
    RecordAccessOk(a, f, p);
    NoHitTarget(a, f, p);
    if f !in a.alive && p in a.ghosts {
      HitTarget(a, p);
    } else {
      NoMove(a.target, a.size, |a.mruGhost|, |a.mfuGhost|);
    }
  }

  lemma NoMove(t: int, size: int, m: nat, n: nat)
    ensures TargetMoves(t, t, size, false, false, m, n)
  {
  }

  /** The target stays between 0 and the size exactly as long as no hit in the MFU ghost list asks for too large a step. */
  lemma TargetInRange(a: Arc, f: FrameId, p: PageId)
    requires ArcInv(a) && CanRecord(a, f, p) && a.target <= a.size
    requires a.size + |a.mruGhost| < TWO_TO_64 && a.size + |a.mfuGhost| + 1 < TWO_TO_64
    ensures var r := RecordAccess(a, f, p); r.Some? && (r.value.target <= a.size <==> !WouldWrap(a, f, p))
  {
    hide RecordAccess, IsStep, ListsOk, PagesOk, NoDup, Evictable;
    RecordTarget(a, f, p);
    if f !in a.alive && p in a.mruGhost {
      var d :| IsStep(d, |a.mfuGhost|, |a.mruGhost|)
               && RecordAccess(a, f, p).value.target == var sum := (a.target + d) % 0x1_0000_0000_0000_0000; if sum < a.size then sum else a.size;
      assert RecordAccess(a, f, p).value.target <= a.size;
    } else if f !in a.alive && p in a.mfuGhost {
      var d :| IsStep(d, |a.mruGhost|, |a.mfuGhost|) && RecordAccess(a, f, p).value.target == (a.target - d) % 0x1_0000_0000_0000_0000;
      StepFits(d, |a.mruGhost|, |a.mfuGhost|);
      StepPositive(d, |a.mruGhost|, |a.mfuGhost|);
      StepLarger(d, |a.mruGhost|, |a.mfuGhost|, a.target);
      WrapIs(a.target - d);
      assert Wrap(a.target - d) == (a.target - d) % 0x1_0000_0000_0000_0000;
    }
  }

  lemma StepPositive(d: int, other: nat, own: nat)
    requires IsStep(d, other, own)
    ensures d >= 1
  {
  }

  // ----- Evict -----

  lemma {:induction false} ScanIs(a: Arc, s: seq<FrameId>)
    ensures var n := Scan(a, s);
      && (n > 0 ==> CanEvict(a, s[n - 1]))
      && forall j :: n <= j < |s| ==> !CanEvict(a, s[j])
  {
    if s != [] && !CanEvict(a, s[|s| - 1]) {
      ScanIs(a, s[..|s| - 1]);
    }
  }

  /** `victim` is the evictable frame of `list` that was placed there longest ago. */
  ghost predicate LeastRecent(a: Arc, list: seq<FrameId>, victim: FrameId) {
    exists i :: 0 <= i < |list| && list[i] == victim && CanEvict(a, victim) && forall j :: i < j < |list| ==> !CanEvict(a, list[j])
  }

  ghost predicate HasEvictable(a: Arc, list: seq<FrameId>) {
    exists i :: 0 <= i < |list| && CanEvict(a, list[i])
  }

  /** The state after `f` has been evicted from its list, which keeps its order. */
  ghost predicate Evicted(a: Arc, a': Arc, f: FrameId) {
    && CanEvict(a, f) && a'.alive == a.alive - {f} && a'.size == a.size && a'.target == a.target
    && TakenOut(a.mru, a'.mru, f) && TakenOut(a.mfu, a'.mfu, f)
    && var p := a.alive[f].pageId;
       if f in a.mru then
         && LeastRecent(a, a.mru, f) && a'.mruGhost == [p] + a.mruGhost && a'.mfuGhost == a.mfuGhost
         && a'.ghosts == a.ghosts[p := a.alive[f].(status := MRUGhost)]
       else
         && LeastRecent(a, a.mfu, f) && a'.mfuGhost == [p] + a.mfuGhost && a'.mruGhost == a.mruGhost
         && a'.ghosts == a.ghosts[p := a.alive[f].(status := MFUGhost)]
  }

  /**
   * The frame an eviction takes: MRU pays when it is above the target or MFU is below its share, else MFU; if that
   * list has nothing to give, the other one does.
   */
  ghost predicate Victim(a: Arc, f: FrameId) {
    var fromMRU := |a.mru| > a.target || |a.mfu| < (a.size - a.target) % 0x1_0000_0000_0000_0000;
    LeastRecent(a, if (if fromMRU then HasEvictable(a, a.mru) else !HasEvictable(a, a.mfu)) then a.mru else a.mfu, f)
  }

  lemma EvictCount(a: Arc, a': Arc, f: FrameId)
    requires CountOk(a) && CanEvict(a, f) && a'.alive == a.alive - {f} && a'.size == a.size && a'.target == a.target
    requires a'.curr == Wrap(a.curr - 1)
    ensures CountOk(a')
  {
    FramesBelow(Evictable(a), a.size);
    assert Evictable(a') == Evictable(a) - {f};
  }

  lemma InList(a: Arc, stat: ArcStatus, i: nat)
    requires ListsOk(a) && Alive(stat) && i < |ListOf(a, stat)|
    ensures var f := ListOf(a, stat)[i]; f in a.alive && (f in a.mru <==> stat == MRU) && (f in a.mfu <==> stat == MFU)
    ensures NoDup(a.mru) && NoDup(a.mfu)
  {
  }

  lemma TakeOk(a: Arc, stat: ArcStatus, i: nat)
    requires ArcInv(a) && Alive(stat) && i < |ListOf(a, stat)| && CanEvict(a, ListOf(a, stat)[i])
    ensures ArcInv(Take(a, stat, i))
  {
    hide CountOk, ListsOk, GhostsOk, PagesOk, NoDup, Wrap, DropAt;
    var f, a' := ListOf(a, stat)[i], Take(a, stat, i);
    assert CountOk(a);
    InList(a, stat, i);
    DropAtIs(ListOf(a, stat), i);
    EvictCount(a, a', f);
    TryLists(a, a', f);
  }

  lemma DropTakes<T(!new)>(s: seq<T>, i: nat)
    requires i < |s|
    ensures TakenOut(s, DropAt(s, i), s[i])
  {
  }

  lemma TakeEvicts(a: Arc, stat: ArcStatus, i: nat)
    requires ArcInv(a) && Alive(stat) && i < |ListOf(a, stat)| && CanEvict(a, ListOf(a, stat)[i])
    requires forall j :: i < j < |ListOf(a, stat)| ==> !CanEvict(a, ListOf(a, stat)[j])
    ensures Evicted(a, Take(a, stat, i), ListOf(a, stat)[i])
  {
    hide CountOk, GhostsOk, PagesOk, ListsOk, NoDup, Wrap, DropAt;
    InList(a, stat, i);
    assert LeastRecent(a, ListOf(a, stat), ListOf(a, stat)[i]);
    DropTakes(ListOf(a, stat), i);
  }

  lemma TryEvictOk(a: Arc, stat: ArcStatus)
    requires ArcInv(a) && Alive(stat)
    ensures var (r, a') := TryEvict(a, stat);
      && (r.Some? <==> HasEvictable(a, ListOf(a, stat))) && (r.None? ==> a' == a)
      && (r.Some? ==> LeastRecent(a, ListOf(a, stat), r.value) && Evicted(a, a', r.value) && ArcInv(a'))
  {
    hide ArcInv, Take, Evicted;
    ScanIs(a, ListOf(a, stat));
    var n := Scan(a, ListOf(a, stat));
    if n > 0 {
      TakeOk(a, stat, n - 1);
      TakeEvicts(a, stat, n - 1);
    }
  }

  /** Moving one frame from a list to the front of its ghost list keeps lists, maps and pages in step. */
  lemma TryLists(a: Arc, a': Arc, f: FrameId)
    requires ListsOk(a) && GhostsOk(a) && PagesOk(a) && f in a.alive
    requires NoDup(a'.mru) && NoDup(a'.mfu) && a'.alive == a.alive - {f}
    requires forall g :: g in a'.mru <==> g in a.mru && g != f
    requires forall g :: g in a'.mfu <==> g in a.mfu && g != f
    requires var p := a.alive[f].pageId;
      && a'.ghosts == a.ghosts[p := a.alive[f].(status := if f in a.mru then MRUGhost else MFUGhost)]
      && a'.mruGhost == (if f in a.mru then [p] + a.mruGhost else a.mruGhost)
      && a'.mfuGhost == (if f in a.mru then a.mfuGhost else [p] + a.mfuGhost)
    ensures ListsOk(a') && GhostsOk(a') && PagesOk(a')
  {
    TryGhosts(a, a', f);
  }

  lemma TryGhosts(a: Arc, a': Arc, f: FrameId)
    requires GhostsOk(a) && PagesOk(a) && f in a.alive
    requires var p := a.alive[f].pageId;
      && a'.ghosts == a.ghosts[p := a.alive[f].(status := if f in a.mru then MRUGhost else MFUGhost)]
      && a'.mruGhost == (if f in a.mru then [p] + a.mruGhost else a.mruGhost)
      && a'.mfuGhost == (if f in a.mru then a.mfuGhost else [p] + a.mfuGhost)
    ensures GhostsOk(a')
  {
    hide NoDup;
    var p := a.alive[f].pageId;
    PushFrontIs(if f in a.mru then a.mruGhost else a.mfuGhost, p);
  }

  lemma EvictableIffCount(a: Arc)
    requires ArcInv(a)
    ensures a.curr == 0 <==> !HasEvictable(a, a.mru) && !HasEvictable(a, a.mfu)
    ensures a.curr == 0 <==> !exists f :: CanEvict(a, f)
  {
    if a.curr == 0 {
      assert Evictable(a) == {};
      assert forall f :: CanEvict(a, f) ==> f in Evictable(a);
    } else {
      var f :| f in Evictable(a);
      assert f in a.mru || f in a.mfu;
    }
  }

  /**
   * `Evict` finds a frame exactly when some frame may be evicted, for every value of the target, wrapped or not.
   * The victim was placed longest ago among the evictable frames of the list that pays, its page moves to the front
   * of that list's ghost, and the frames left keep their order.
   */
  lemma EvictOk(a: Arc)
    requires ArcInv(a)
    ensures var (r, a') := Evict(a);
      && (r.Some? <==> exists f :: CanEvict(a, f))
      && (r.None? ==> a' == a)
      && (r.Some? ==> Evicted(a, a', r.value) && ArcInv(a') && Victim(a, r.value))
  {
    hide TryEvict, Evicted, ArcInv, HasEvictable, LeastRecent;
    TryEvictOk(a, MRU);
    TryEvictOk(a, MFU);
    EvictableIffCount(a);
  }

  /** Which list pays, if it can: MRU when it is above the target or MFU is below its share, else MFU. */
  lemma EvictPrefers(a: Arc)
    requires ArcInv(a) && Evict(a).0.Some?
    ensures var f, fromMRU := Evict(a).0.value, |a.mru| > a.target || |a.mfu| < (a.size - a.target) % 0x1_0000_0000_0000_0000;
      && (fromMRU && HasEvictable(a, a.mru) ==> f in a.mru)
      && (!fromMRU && HasEvictable(a, a.mfu) ==> f in a.mfu)
  {
    hide Evict, ArcInv, HasEvictable;
    EvictOk(a);
  }

  lemma EvictKnown(a: Arc, q: PageId)
    requires ArcInv(a)
    ensures Known(Evict(a).1, q) <==> Known(a, q)
  {
    hide TryEvict, Evict, ListsOk, CountOk, GhostsOk, LeastRecent;
    EvictOk(a);
    var (r, a') := Evict(a);
    if r.Some? {
      var f := r.value;
      if Known(a, q) && q !in a.ghosts {
        var g :| g in a.alive && a.alive[g].pageId == q;
        assert g != f ==> g in a'.alive && a'.alive[g].pageId == q;
      }
      if Known(a', q) && q !in a'.ghosts {
        var g :| g in a'.alive && a'.alive[g].pageId == q;
        assert g in a.alive && a.alive[g].pageId == q;
      }
    }
  }

  // ----- one page comes in -----

  /**
   * What bringing page `p` into frame `f` does to lists and target: `hit` if it was there, `displaced` if the frame
   * was taken from another page, which then is the newest ghost of its list before `p` leaves the ghosts.
   */
  ghost predicate Moves(a: Arc, a': Arc, p: PageId, f: FrameId, hit: bool, displaced: bool) {
    var out := if displaced && f in a.alive then [a.alive[f].pageId] else [];
    var mruGhost, mfuGhost := if f in a.mru then out + a.mruGhost else a.mruGhost, if f in a.mru then a.mfuGhost else out + a.mfuGhost;
    && Placed(a, a', f, hit || p in a.ghosts)
    && TakenOut(mruGhost, a'.mruGhost, p) && TakenOut(mfuGhost, a'.mfuGhost, p)
    && TargetMoves(a.target, a'.target, a.size, !hit && p in a.mruGhost, !hit && p in a.mfuGhost, |mruGhost|, |mfuGhost|)
  }

  /** Two takings-out of the same frame are one. */
  lemma PlacedAfter(a: Arc, a1: Arc, a': Arc, f: FrameId, seen: bool)
    requires TakenOut(a.mru, a1.mru, f) && TakenOut(a.mfu, a1.mfu, f) && f !in a1.mru && f !in a1.mfu && Placed(a1, a', f, seen)
    ensures Placed(a, a', f, seen)
  {
  }

  /** Only the lists and the target matter here, not the flag that pinning changes. */
  lemma SameMoves(a: Arc, a1: Arc, a2: Arc, p: PageId, f: FrameId, hit: bool, displaced: bool)
    requires Moves(a, a1, p, f, hit, displaced)
    requires a2 == a1.(alive := a2.alive, curr := a2.curr)
    ensures Moves(a, a2, p, f, hit, displaced)
  {
    hide TakenOut, TargetMoves;
  }

  lemma RecordMoves(a: Arc, p: PageId, f: FrameId)
    requires ArcInv(a) && CanRecord(a, f, p)
    ensures RecordAccess(a, f, p).Some? && Moves(a, RecordAccess(a, f, p).value, p, f, f in a.alive, false)
  {
    hide ArcInv, RecordAccess, Placed, TakenOut, TargetMoves, CanRecord;
    RecordPlaces(a, f, p);
    RecordTarget(a, f, p);
    assert [] + a.mruGhost == a.mruGhost && [] + a.mfuGhost == a.mfuGhost;
  }

  /** The same for a frame that an eviction has just given up. */
  lemma EvictMoves(a: Arc, p: PageId)
    requires ArcInv(a) && Evict(a).0.Some? && CanRecord(Evict(a).1, Evict(a).0.value, p)
    requires forall g :: g in a.alive ==> a.alive[g].pageId != p
    ensures var (r, a1) := Evict(a);
      RecordAccess(a1, r.value, p).Some? && Moves(a, RecordAccess(a1, r.value, p).value, p, r.value, false, true)
  {
    hide ArcInv, Evict, RecordAccess, Placed, TakenOut, TargetMoves, CanRecord, LeastRecent, Victim;
    EvictOk(a);
    var (r, a1) := Evict(a);
    var f := r.value;
    RecordPlaces(a1, f, p);
    RecordTarget(a1, f, p);
    InLists(a, f);
    InLists(a1, f);
    GhostsIn(a, p);
    PlacedAfter(a, a1, RecordAccess(a1, f, p).value, f, p in a.ghosts);
  }

  lemma InLists(a: Arc, f: FrameId)
    requires ArcInv(a)
    ensures f in a.mru || f in a.mfu <==> f in a.alive
  {
  }

  lemma GhostsIn(a: Arc, p: PageId)
    requires ArcInv(a)
    ensures p in a.mruGhost || p in a.mfuGhost <==> p in a.ghosts
  {
  }

  // ----- runs -----

  datatype ArcOp = Record(frame: FrameId, page: PageId) | SetFlag(frame: FrameId, flag: bool) | EvictOne

  function ArcStep(a: Arc, op: ArcOp): Arc {
    match op
    case Record(f, p) => Or(RecordAccess(a, f, p), a)
    case SetFlag(f, b) => Or(SetEvictable(a, f, b), a)
    case EvictOne => Evict(a).1
  }

  function Or(r: Option<Arc>, a: Arc): Arc {
    if r.Some? then r.value else a
  }

  function ArcRun(a: Arc, ops: seq<ArcOp>): Arc
    decreases |ops|
  {
    if ops == [] then a else ArcRun(ArcStep(a, ops[0]), ops[1..])
  }

  /** Every access in the run is one the buffer pool could make. */
  ghost predicate Obeys(a: Arc, ops: seq<ArcOp>)
    decreases |ops|
  {
    ops == [] || ((ops[0].Record? ==> CanRecord(a, ops[0].frame, ops[0].page)) && Obeys(ArcStep(a, ops[0]), ops[1..]))
  }

  function PagesRecorded(ops: seq<ArcOp>): set<PageId> {
    if ops == [] then {} else (if ops[0].Record? then {ops[0].page} else {}) + PagesRecorded(ops[1..])
  }

  lemma SetEvictableKnown(a: Arc, f: FrameId, b: bool, q: PageId)
    ensures Known(Or(SetEvictable(a, f, b), a), q) <==> Known(a, q)
  {
    var a' := Or(SetEvictable(a, f, b), a);
    if Known(a, q) && q !in a.ghosts {
      var g :| g in a.alive && a.alive[g].pageId == q;
      assert g in a'.alive && a'.alive[g].pageId == q;
    }
  }

  /**
   * Over every run that follows the pool's protocol the invariant holds, no access fails, and the four lists
   * together remember exactly the pages ever recorded.
   */
  lemma {:induction false} ArcRunOk(a: Arc, ops: seq<ArcOp>)
    requires ArcInv(a) && Obeys(a, ops)
    ensures ArcInv(ArcRun(a, ops)) && ArcRun(a, ops).size == a.size
    ensures forall q :: Known(ArcRun(a, ops), q) <==> Known(a, q) || q in PagesRecorded(ops)
    decreases |ops|
  {
    hide ArcInv, Known, RecordAccess, SetEvictable, Evict, Evicted;
    if ops != [] {
      var op, a' := ops[0], ArcStep(a, ops[0]);
      match op {
        case Record(f, p) => RecordAccessOk(a, f, p);
        case SetFlag(f, b) =>
          SetEvictableOk(a, f, b);
          forall q ensures Known(a', q) <==> Known(a, q) { SetEvictableKnown(a, f, b, q); }
        case EvictOne =>
          EvictOk(a);
          EvictSize(a);
          forall q ensures Known(a', q) <==> Known(a, q) { EvictKnown(a, q); }
      }
      ArcRunOk(a', ops[1..]);
    }
  }

  lemma EvictSize(a: Arc)
    ensures Evict(a).1.size == a.size
  {
  }

  function AlivePages(alive: map<FrameId, FrameStatus>): set<PageId> {
    set f | f in alive :: alive[f].pageId
  }

  /** Frames with different pages have as many pages as there are frames. */
  lemma {:induction false} AlivePagesCount(alive: map<FrameId, FrameStatus>)
    requires forall f, g :: f in alive && g in alive && f != g ==> alive[f].pageId != alive[g].pageId
    ensures |AlivePages(alive)| == |alive|
    decreases |alive|
  {
    if alive != map[] {
      var f :| f in alive;
      var rest := alive - {f};
      assert rest.Keys == alive.Keys - {f};
      AlivePagesCount(rest);
      PagesBut(alive, f);
    } else {
      assert AlivePages(alive) == {};
    }
  }

  lemma PagesBut(alive: map<FrameId, FrameStatus>, f: FrameId)
    requires f in alive && forall f, g :: f in alive && g in alive && f != g ==> alive[f].pageId != alive[g].pageId
    ensures AlivePages(alive) == AlivePages(alive - {f}) + {alive[f].pageId} && alive[f].pageId !in AlivePages(alive - {f})
  {
    var rest := alive - {f};
    forall g | g in alive ensures alive[g].pageId in AlivePages(rest) + {alive[f].pageId} {
      assert g != f ==> g in rest && rest[g] == alive[g];
    }
  }

  lemma UnionSize(s: set<PageId>, t: set<PageId>)
    requires s !! t
    ensures |s + t| == |s| + |t|
  {
  }

  /** The pages in the four lists: those of the live frames, and the ghosts. */
  lemma KnownPages(a: Arc, pages: set<PageId>)
    requires PagesOk(a) && forall q :: Known(a, q) <==> q in pages
    ensures AlivePages(a.alive) + a.ghosts.Keys == pages && AlivePages(a.alive) !! a.ghosts.Keys
  {
    forall q ensures q in AlivePages(a.alive) + a.ghosts.Keys <==> q in pages {
      assert q in pages <==> Known(a, q);
    }
  }

  lemma KnownCount(a: Arc, pages: set<PageId>)
    requires PagesOk(a) && forall q :: Known(a, q) <==> q in pages
    ensures |a.alive| + |a.ghosts| == |pages|
  {
    hide Known, AlivePages;
    AlivePagesCount(a.alive);
    KnownPages(a, pages);
    UnionSize(AlivePages(a.alive), a.ghosts.Keys);
    assert |a.ghosts.Keys| == |a.ghosts|;
  }

  /** What the constructor makes. */
  function Empty(n: int): Arc {
    Arc([], [], [], [], map[], map[], 0, 0, n)
  }

  lemma EmptyOk(n: nat)
    requires n < TWO_TO_64
    ensures ArcInv(Empty(n)) && forall q :: !Known(Empty(n), q)
  {
    assert Evictable(Empty(n)) == {};
  }

  /**
   * The ghost lists are never trimmed: after any run from the start, live and ghost entries together are exactly as
   * many as the pages ever recorded. The bound of the ARC paper, twice the size, holds just as long as no more
   * pages than that have been seen.
   */
  lemma EntriesAreRecorded(n: nat, ops: seq<ArcOp>)
    requires n < TWO_TO_64 && Obeys(Empty(n), ops)
    ensures var b := ArcRun(Empty(n), ops);
      && |b.alive| + |b.ghosts| == |PagesRecorded(ops)|
      && (|b.alive| + |b.ghosts| <= 2 * n <==> |PagesRecorded(ops)| <= 2 * n)
  {
    hide ListsOk, GhostsOk, CountOk, Known, ArcRun, Obeys, PagesRecorded, PagesOk;
    EmptyOk(n);
    ArcRunOk(Empty(n), ops);
    KnownCount(ArcRun(Empty(n), ops), PagesRecorded(ops));
  }

  /** One page after the other through frame 0: brought in, released, evicted. */
  function Parade(first: PageId, m: nat): seq<ArcOp>
    decreases m
  {
    if m == 0 then [] else [Record(0, first), SetFlag(0, true), EvictOne] + Parade(first + 1, m - 1)
  }

  /** One round leaves no frame alive and one ghost more. */
  lemma ParadeRound(a: Arc, p: PageId)
    requires ArcInv(a) && a.alive == map[] && a.size >= 1 && !Known(a, p)
    ensures var a1 := ArcStep(a, Record(0, p)); var a2 := ArcStep(a1, SetFlag(0, true)); var a3 := ArcStep(a2, EvictOne);
      && CanRecord(a, 0, p) && ArcInv(a3) && a3.alive == map[] && a3.size == a.size
      && forall q :: Known(a3, q) <==> Known(a, q) || q == p
  {
    hide ArcInv, RecordAccess, SetEvictable, Evict, LeastRecent, Known;
    RecordAccessOk(a, 0, p);
    var a1 := ArcStep(a, Record(0, p));
    SetEvictableOk(a1, 0, true);
    var a2 := ArcStep(a1, SetFlag(0, true));
    assert CanEvict(a2, 0);
    EvictOk(a2);
    forall q ensures Known(ArcStep(a2, EvictOne), q) <==> Known(a, q) || q == p {
      SetEvictableKnown(a1, 0, true, q);
      EvictKnown(a2, q);
    }
  }

  lemma OneStep(a: Arc, op: ArcOp, rest: seq<ArcOp>)
    ensures ArcRun(a, [op] + rest) == ArcRun(ArcStep(a, op), rest)
    ensures Obeys(a, [op] + rest) <==> (op.Record? ==> CanRecord(a, op.frame, op.page)) && Obeys(ArcStep(a, op), rest)
  {
    assert ([op] + rest)[1..] == rest;
  }

  lemma OnePage(op: ArcOp, rest: seq<ArcOp>)
    ensures PagesRecorded([op] + rest) == (if op.Record? then {op.page} else {}) + PagesRecorded(rest)
    ensures PagesRecorded([]) == {}
  {
    assert ([op] + rest)[1..] == rest;
  }

  lemma {:induction false} ParadeOk(a: Arc, first: PageId, m: nat)
    requires ArcInv(a) && a.alive == map[] && a.size >= 1 && forall q :: first <= q ==> !Known(a, q)
    ensures Obeys(a, Parade(first, m))
    decreases m
  {
    hide ArcInv, ArcStep, Known, CanRecord, Obeys, PagesRecorded, ArcRun;
    if m == 0 {
      NoOps(a);
    } else {
      var x, y, z, rest := Record(0, first), SetFlag(0, true), EvictOne, Parade(first + 1, m - 1);
      ParadeRound(a, first);
      var a1 := ArcStep(a, x);
      var a2 := ArcStep(a1, y);
      ParadeOk(ArcStep(a2, z), first + 1, m - 1);
      OneStep(a2, z, rest);
      OneStep(a1, y, [z] + rest);
      OneStep(a, x, [y] + ([z] + rest));
      ParadeIs(first, m);
    }
  }

  lemma ParadeIs(first: PageId, m: nat)
    requires m > 0
    ensures Parade(first, m) == [Record(0, first)] + ([SetFlag(0, true)] + ([EvictOne] + Parade(first + 1, m - 1)))
  {
  }

  lemma {:induction false} ParadePages(first: PageId, m: nat)
    ensures |PagesRecorded(Parade(first, m))| == m && forall q :: q in PagesRecorded(Parade(first, m)) ==> first <= q
    decreases m
  {
    hide PagesRecorded, Parade;
    if m == 0 {
      OnePage(EvictOne, []);
      assert Parade(first, 0) == [] by { NoParade(first); }
    } else {
      var rest := Parade(first + 1, m - 1);
      ParadePages(first + 1, m - 1);
      OnePage(EvictOne, rest);
      OnePage(SetFlag(0, true), [EvictOne] + rest);
      OnePage(Record(0, first), [SetFlag(0, true)] + ([EvictOne] + rest));
      ParadeIs(first, m);
    }
  }

  lemma NoParade(first: PageId)
    ensures Parade(first, 0) == []
  {
  }

  /** Every number of entries is reached, whatever the size: a replacer of size 1 or more can be made to hold `m`. */
  lemma EntriesWithoutBound(n: nat, m: nat)
    requires 1 <= n < TWO_TO_64
    ensures Obeys(Empty(n), Parade(0, m))
    ensures var b := ArcRun(Empty(n), Parade(0, m)); |b.alive| + |b.ghosts| == |PagesRecorded(Parade(0, m))| == m
  {
    hide ArcInv, Known, ArcRun, Obeys, PagesRecorded, Parade;
    EmptyOk(n);
    ParadeOk(Empty(n), 0, m);
    ParadePages(0, m);
    EntriesAreRecorded(n, Parade(0, m));
  }

  const LOW_TARGET: Arc := Arc([], [], [], [7], map[], map[7 := FrameStatus(7, 0, true, MFUGhost)], 0, 0, 1)

  /** A replacer of size 1 sees page 7 twice and evicts it, with the target still at 0. */
  lemma LowTargetReached()
    ensures var run := [Record(0, 7)] + ([Record(0, 7)] + ([SetFlag(0, true)] + ([EvictOne] + [])));
      Obeys(Empty(1), run) && ArcRun(Empty(1), run) == LOW_TARGET
  {
    hide ArcRun, Obeys;
    var x, s := Record(0, 7), FrameStatus(7, 0, false, MRU);
    var a1 := Empty(1).(alive := map[0 := s], mru := [0]);
    var a2 := Empty(1).(alive := map[0 := s.(status := MFU)], mfu := [0]);
    var a3 := Empty(1).(alive := map[0 := s.(status := MFU, evictable := true)], mfu := [0], curr := 1);
    assert ArcStep(Empty(1), x) == a1;
    assert ArcStep(a1, x) == a2;
    assert ArcStep(a2, SetFlag(0, true)) == a3;
    assert ArcStep(a3, EvictOne) == LOW_TARGET by { LastFrame(a3); }
    OneStep(a3, EvictOne, []);
    OneStep(a2, SetFlag(0, true), [EvictOne] + []);
    OneStep(a1, x, [SetFlag(0, true)] + ([EvictOne] + []));
    OneStep(Empty(1), x, [x] + ([SetFlag(0, true)] + ([EvictOne] + [])));
    NoOps(LOW_TARGET);
  }

  lemma NoOps(a: Arc)
    ensures ArcRun(a, []) == a && Obeys(a, [])
  {
  }

  lemma LastFrame(a: Arc)
    requires a == Empty(1).(alive := map[0 := FrameStatus(7, 0, true, MFU)], mfu := [0], curr := 1)
    ensures Evict(a) == (Some(0), LOW_TARGET)
  {
    assert Scan(a, a.mru) == 0 && Scan(a, a.mfu) == 1;
    assert DropAt([0], 0) == [] && [7] + [] == [7];
  }

  /** The next access to page 7 leaves the target at 2^64 - 1; the code's `max(..., 0)` comes too late. */
  lemma TargetCanWrap()
    ensures exists run :: Obeys(Empty(1), run) && ArcRun(Empty(1), run) == LOW_TARGET
    ensures CanRecord(LOW_TARGET, 0, 7) && WouldWrap(LOW_TARGET, 0, 7)
    ensures RecordAccess(LOW_TARGET, 0, 7).Some? && RecordAccess(LOW_TARGET, 0, 7).value.target == TWO_TO_64 - 1
  {
    hide ArcInv, RecordAccess, CanRecord, ArcRun, Obeys;
    LowTargetReached();
    LowTargetOk();
    RecordTarget(LOW_TARGET, 0, 7);
  }

  lemma LowTargetOk()
    ensures ArcInv(LOW_TARGET) && CanRecord(LOW_TARGET, 0, 7)
  {
    assert Evictable(LOW_TARGET) == {};
  }
}
