/**
 * What the four lists of the ARC replacer mean: over every run they say which pages have been seen once and which
 * more often, and in what order the frames were last used. Nothing but the history of accesses decides this.
 */
module ArcHistory {
  import opened Types
  import opened ArcModel

  /** How often page `p` has been recorded. */
  ghost function Times(ops: seq<ArcOp>, p: PageId): nat {
    if ops == [] then 0
    else
      var last := ops[|ops| - 1];
      Times(ops[..|ops| - 1], p) + if last.Record? && last.page == p then 1 else 0
  }

  /** When frame `f` was last recorded, counted from 1; 0 if never. */
  ghost function LastUse(ops: seq<ArcOp>, f: FrameId): (n: nat)
    ensures n <= |ops|
  {
    if ops == [] then 0
    else
      var last := ops[|ops| - 1];
      if last.Record? && last.frame == f then |ops| else LastUse(ops[..|ops| - 1], f)
  }

  lemma {:induction false} RunLast(a: Arc, ops: seq<ArcOp>, op: ArcOp)
    ensures ArcRun(a, ops + [op]) == ArcStep(ArcRun(a, ops), op)
    ensures Obeys(a, ops + [op]) <==> Obeys(a, ops) && (op.Record? ==> CanRecord(ArcRun(a, ops), op.frame, op.page))
    decreases |ops|
  {
    hide ArcStep, CanRecord, ArcRun, Obeys;
    if ops == [] {
      OneStep(a, op, []);
      NoOps(ArcStep(a, op));
      NoOps(a);
      assert [] + [op] == [op] + [];
    } else {
      RunLast(ArcStep(a, ops[0]), ops[1..], op);
      OneStep(a, ops[0], ops[1..]);
      OneStep(a, ops[0], ops[1..] + [op]);
      assert ops == [ops[0]] + ops[1..] && ops + [op] == [ops[0]] + (ops[1..] + [op]);
    }
  }

  /** MRU and its ghost list have the pages seen once, MFU and its ghost list those seen more often. */
  ghost predicate Sides(a: Arc, ops: seq<ArcOp>) {
    && (forall f :: f in a.mru ==> f in a.alive && Times(ops, a.alive[f].pageId) == 1)
    && (forall f :: f in a.mfu ==> f in a.alive && Times(ops, a.alive[f].pageId) >= 2)
    && (forall p :: p in a.mruGhost ==> Times(ops, p) == 1)
    && (forall p :: p in a.mfuGhost ==> Times(ops, p) >= 2)
    && (forall p :: !Known(a, p) ==> Times(ops, p) == 0)
  }

  /** The frames of a list stand in the order of their last use, the latest first. */
  ghost predicate Recent(list: seq<FrameId>, ops: seq<ArcOp>) {
    forall i, j :: 0 <= i < j < |list| ==> LastUse(ops, list[i]) > LastUse(ops, list[j])
  }

  ghost predicate Told(a: Arc, ops: seq<ArcOp>) {
    Sides(a, ops) && Recent(a.mru, ops) && Recent(a.mfu, ops)
  }

  lemma MoreTimes(ops: seq<ArcOp>, op: ArcOp)
    ensures forall p :: Times(ops + [op], p) == Times(ops, p) + if op.Record? && op.page == p then 1 else 0
    ensures forall f :: LastUse(ops + [op], f) == if op.Record? && op.frame == f then |ops| + 1 else LastUse(ops, f)
  {
    assert (ops + [op])[..|ops + [op]| - 1] == ops;
  }

  lemma TakenOutIs<T(!new)>(s: seq<T>, s': seq<T>, x: T)
    requires NoDup(s) && TakenOut(s, s', x)
    ensures forall y :: y in s' <==> y in s && y != x
  {
    if x in s {
      var i :| 0 <= i < |s| && s[i] == x && s' == s[..i] + s[i + 1..];
      forall y | y in s && y != x ensures y in s' {
        var j :| 0 <= j < |s| && s[j] == y;
        assert s'[if j < i then j else j - 1] == y;
      }
    }
  }

  lemma InFrontIs<T(!new)>(s: seq<T>, s': seq<T>, x: T)
    requires NoDup(s) && InFront(s, s', x)
    ensures forall y :: y in s' <==> y in s || y == x
  {
    hide NoDup, TakenOut;
    TakenOutIs(s, s'[1..], x);
    assert s' == [x] + s'[1..];
  }

  /** Taking a frame out keeps the order; what is said of the frames left may grow by a use of that frame. */
  lemma RecentOut(list: seq<FrameId>, list': seq<FrameId>, f: FrameId, ops: seq<ArcOp>, ops': seq<ArcOp>)
    requires Recent(list, ops) && TakenOut(list, list', f) && NoDup(list)
    requires forall g :: g != f ==> LastUse(ops', g) == LastUse(ops, g)
    ensures Recent(list', ops')
  {
    hide TakenOut, NoDup, LastUse;
    TakenOutIs(list, list', f);
    forall i, j | 0 <= i < j < |list'| ensures LastUse(ops', list'[i]) > LastUse(ops', list'[j]) {
      assert list'[i] != f && list'[j] != f by { assert list'[i] in list' && list'[j] in list'; }
      OutAt(list, list', f, i, j);
    }
  }

  lemma OutAt(list: seq<FrameId>, list': seq<FrameId>, f: FrameId, i: nat, j: nat)
    requires TakenOut(list, list', f) && i < j < |list'|
    ensures exists i', j' :: 0 <= i' < j' < |list| && list[i'] == list'[i] && list[j'] == list'[j]
  {
    if f in list {
      var k :| 0 <= k < |list| && list[k] == f && list' == list[..k] + list[k + 1..];
      var i', j' := if i < k then i else i + 1, if j < k then j else j + 1;
      assert list[i'] == list'[i] && list[j'] == list'[j];
    } else {
      assert list[i] == list'[i] && list[j] == list'[j];
    }
  }

  lemma RecentFront(list: seq<FrameId>, list': seq<FrameId>, f: FrameId, ops: seq<ArcOp>, p: PageId)
    requires Recent(list, ops) && InFront(list, list', f) && NoDup(list)
    ensures Recent(list', ops + [Record(f, p)])
  {
    hide TakenOut;
    var ops' := ops + [Record(f, p)];
    MoreTimes(ops, Record(f, p));
    RecentOut(list, list'[1..], f, ops, ops');
    TakenOutIs(list, list'[1..], f);
    forall i, j | 0 <= i < j < |list'| ensures LastUse(ops', list'[i]) > LastUse(ops', list'[j]) {
      assert list'[j] == list'[1..][j - 1] && list'[1..][j - 1] in list'[1..];
      if i > 0 {
        assert list'[i] == list'[1..][i - 1];
      }
    }
  }

  lemma Lists(a: Arc)
    requires ArcInv(a)
    ensures NoDup(a.mru) && NoDup(a.mfu) && NoDup(a.mruGhost) && NoDup(a.mfuGhost) && PagesOk(a)
    ensures forall f :: f in a.alive <==> f in a.mru || f in a.mfu
    ensures forall f :: !(f in a.mru && f in a.mfu)
    ensures forall p :: p in a.ghosts <==> p in a.mruGhost || p in a.mfuGhost
  {
  }

  lemma RecordTold(a: Arc, ops: seq<ArcOp>, f: FrameId, p: PageId)
    requires ArcInv(a) && CanRecord(a, f, p) && Told(a, ops)
    ensures RecordAccess(a, f, p).Some? && Told(RecordAccess(a, f, p).value, ops + [Record(f, p)])
  {
    hide ArcInv, RecordAccess, Recorded, Known, NoDup, TakenOut, InFront, Sides, Recent;
    RecordAccessOk(a, f, p);
    RecordPlaces(a, f, p);
    Lists(a);
    MoreTimes(ops, Record(f, p));
    RecordSides(a, RecordAccess(a, f, p).value, ops, f, p);
    if f in a.alive || p in a.ghosts {
      RecentFront(a.mfu, RecordAccess(a, f, p).value.mfu, f, ops, p);
      RecentOut(a.mru, RecordAccess(a, f, p).value.mru, f, ops, ops + [Record(f, p)]);
    } else {
      RecentFront(a.mru, RecordAccess(a, f, p).value.mru, f, ops, p);
      RecentOut(a.mfu, RecordAccess(a, f, p).value.mfu, f, ops, ops + [Record(f, p)]);
    }
  }

  lemma RecordSides(a: Arc, a': Arc, ops: seq<ArcOp>, f: FrameId, p: PageId)
    requires ArcInv(a) && ArcInv(a') && CanRecord(a, f, p) && Sides(a, ops) && Recorded(a, a', f, p)
    requires Placed(a, a', f, f in a.alive || p in a.ghosts)
    requires TakenOut(a.mruGhost, a'.mruGhost, p) && TakenOut(a.mfuGhost, a'.mfuGhost, p)
    requires forall q :: Known(a', q) <==> Known(a, q) || q == p
    ensures Sides(a', ops + [Record(f, p)])
  {
    hide ArcInv, NoDup, TakenOut, InFront, Times, Recorded, CanRecord, PagesOk, Known;
    Lists(a);
    Lists(a');
    MoreTimes(ops, Record(f, p));
    TakenOutIs(a.mruGhost, a'.mruGhost, p);
    TakenOutIs(a.mfuGhost, a'.mfuGhost, p);
    if f in a.alive || p in a.ghosts {
      InFrontIs(a.mfu, a'.mfu, f);
      TakenOutIs(a.mru, a'.mru, f);
    } else {
      InFrontIs(a.mru, a'.mru, f);
      TakenOutIs(a.mfu, a'.mfu, f);
    }
    TimesBefore(a, ops, f, p);
    forall g | g in a'.alive ensures OneSide(a', ops + [Record(f, p)], g) {
      OtherPage(a, a', f, p, g);
      assert g != f ==> OneSide(a, ops, g);
    }
  }

  /** What `Sides` says of one live frame. */
  ghost predicate OneSide(a: Arc, ops: seq<ArcOp>, f: FrameId)
    requires f in a.alive
  {
    (f in a.mru ==> Times(ops, a.alive[f].pageId) == 1) && (f in a.mfu ==> Times(ops, a.alive[f].pageId) >= 2)
  }

  lemma TimesBefore(a: Arc, ops: seq<ArcOp>, f: FrameId, p: PageId)
    requires ArcInv(a) && CanRecord(a, f, p) && Sides(a, ops)
    ensures if f in a.alive || p in a.ghosts then Times(ops, p) >= 1 else Times(ops, p) == 0
  {
    hide Times, NoDup;
    if f !in a.alive && p !in a.ghosts {
      assert !Known(a, p);
    }
  }

  lemma OtherPage(a: Arc, a': Arc, f: FrameId, p: PageId, g: FrameId)
    requires Recorded(a, a', f, p) && PagesOk(a') && g in a'.alive
    ensures if g == f then a'.alive[g].pageId == p else g in a.alive && a'.alive[g] == a.alive[g] && a'.alive[g].pageId != p
  {
  }

  lemma EvictTold(a: Arc, ops: seq<ArcOp>)
    requires ArcInv(a) && Told(a, ops)
    ensures Told(Evict(a).1, ops + [EvictOne])
  {
    hide ArcInv, Evict, Known, NoDup, TakenOut, Sides, Recent, Victim, LeastRecent, PagesOk;
    EvictOk(a);
    Lists(a);
    MoreTimes(ops, EvictOne);
    var (r, a') := Evict(a);
    if r.Some? {
      forall q ensures Known(a', q) <==> Known(a, q) { EvictKnown(a, q); }
      EvictSides(a, a', ops, r.value);
      RecentOut(a.mru, a'.mru, r.value, ops, ops + [EvictOne]);
      RecentOut(a.mfu, a'.mfu, r.value, ops, ops + [EvictOne]);
    } else {
      SameTold(a, a, ops, EvictOne);
    }
  }

  lemma EvictSides(a: Arc, a': Arc, ops: seq<ArcOp>, f: FrameId)
    requires ArcInv(a) && Sides(a, ops) && Evicted(a, a', f) && forall q :: Known(a', q) <==> Known(a, q)
    ensures Sides(a', ops + [EvictOne])
  {
    hide ArcInv, NoDup, TakenOut, Known, Times, LeastRecent;
    Lists(a);
    MoreTimes(ops, EvictOne);
    TakenOutIs(a.mru, a'.mru, f);
    TakenOutIs(a.mfu, a'.mfu, f);
  }

  /** An operation that is no access and moves nothing. */
  lemma SameTold(a: Arc, a': Arc, ops: seq<ArcOp>, op: ArcOp)
    requires Told(a, ops) && !op.Record? && a'.mru == a.mru && a'.mfu == a.mfu && a'.mruGhost == a.mruGhost && a'.mfuGhost == a.mfuGhost
    requires forall q :: Known(a', q) <==> Known(a, q)
    requires forall f :: f in a.alive ==> f in a'.alive && a'.alive[f].pageId == a.alive[f].pageId
    ensures Told(a', ops + [op])
  {
    hide Known, Times, LastUse;
    MoreTimes(ops, op);
  }

  lemma StepTold(a: Arc, ops: seq<ArcOp>, op: ArcOp)
    requires ArcInv(a) && Told(a, ops) && (op.Record? ==> CanRecord(a, op.frame, op.page))
    ensures Told(ArcStep(a, op), ops + [op])
  {
    hide ArcInv, RecordAccess, SetEvictable, Evict, Told, Known, CanRecord;
    match op
    case Record(f, p) => RecordTold(a, ops, f, p);
    case SetFlag(f, b) =>
      SetEvictableOk(a, f, b);
      forall q ensures Known(ArcStep(a, op), q) <==> Known(a, q) { SetEvictableKnown(a, f, b, q); }
      SameTold(a, ArcStep(a, op), ops, op);
    case EvictOne => EvictTold(a, ops);
  }

  /**
   * Over every run of a new replacer: MRU and its ghost list have exactly the pages recorded once, MFU and its ghost
   * list those recorded more often, and the frames of either list stand in the order of their last use.
   */
  lemma {:induction false} HistoryDecides(n: nat, ops: seq<ArcOp>)
    requires n < TWO_TO_64 && Obeys(Empty(n), ops)
    ensures ArcInv(ArcRun(Empty(n), ops)) && Told(ArcRun(Empty(n), ops), ops)
    decreases |ops|
  {
    hide ArcInv, Told, ArcRun, Obeys, ArcStep, Known, PagesRecorded;
    EmptyOk(n);
    ArcRunOk(Empty(n), ops);
    if ops == [] {
      NoOps(Empty(n));
      NothingTold(n);
    } else {
      var init, op := ops[..|ops| - 1], ops[|ops| - 1];
      assert ops == init + [op];
      RunLast(Empty(n), init, op);
      HistoryDecides(n, init);
      StepTold(ArcRun(Empty(n), init), init, op);
    }
  }

  lemma NothingTold(n: nat)
    ensures Told(Empty(n), [])
  {
  }

  /** After every run of a new replacer the victim is the frame used longest ago of those in its list that may go. */
  lemma EvictsLeastRecentlyUsed(n: nat, ops: seq<ArcOp>, g: FrameId)
    requires n < TWO_TO_64 && Obeys(Empty(n), ops)
    ensures var b := ArcRun(Empty(n), ops); var r := Evict(b).0;
      r.Some? && CanEvict(b, g) && g != r.value && (g in b.mru <==> r.value in b.mru) ==> LastUse(ops, r.value) < LastUse(ops, g)
  {
    hide ArcInv, ArcRun, Obeys, Evict, Sides, LastUse, TakenOut, NoDup, Victim;
    HistoryDecides(n, ops);
    var b := ArcRun(Empty(n), ops);
    EvictOk(b);
    Lists(b);
  }
}
