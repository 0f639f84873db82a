/**
 * The tree on the buffer pool: the locks and releases of a tree operation, as `Latches` records them, are steps of
 * the pool, and they are all served exactly when the pool has as many frames as the operation holds pages at once.
 */
module TreePool {
  import opened Types
  import opened ArcModel
  import opened PoolModel
  import L = Latches

  /** The guard of a page is named by the page. */
  function Name(p: PageId): GuardId {
    if p < 0 then 0 else p
  }

  /** `exclusive` tells `WritePage` from `ReadPage`. */
  function StepOf(e: L.Event, exclusive: bool): Step {
    match e
    case Alloc(_) => New
    case Lock(p) => Get(p, exclusive, Name(p))
    case Unlock(p) => Leave(Name(p))
  }

  function StepsOf(log: seq<L.Event>, exclusive: bool): seq<Step> {
    if log == [] then [] else StepsOf(L.Front(log), exclusive) + [StepOf(L.Latest(log), exclusive)]
  }

  /** Event by event: a new page, a fetch of the page asked for, and the drop of its guard. */
  lemma {:induction false} StepsAre(log: seq<L.Event>, exclusive: bool, i: nat)
    requires i < |log| && log[i].page >= 0
    ensures |StepsOf(log, exclusive)| == |log|
    ensures var e, p := log[i], log[i].page;
      StepsOf(log, exclusive)[i] == if e.Alloc? then New else if e.Lock? then Get(p, exclusive, p) else Leave(p)
    decreases |log|
  {
    StepsLength(log, exclusive);
    StepsLength(L.Front(log), exclusive);
    if i < |log| - 1 {
      StepsAre(L.Front(log), exclusive, i);
    }
  }

  lemma {:induction false} StepsLength(log: seq<L.Event>, exclusive: bool)
    ensures |StepsOf(log, exclusive)| == |log|
    decreases |log|
  {
    if log != [] {
      StepsLength(L.Front(log), exclusive);
    }
  }

  /** No fetch of the run is refused. */
  ghost predicate Served(s: Pool, steps: seq<Step>)
    decreases |steps|
  {
    steps == [] || ((steps[0].Get? ==> !Refused(s, steps[0].page)) && Served(Next(s, steps[0]), steps[1..]))
  }

  lemma {:induction false} OneMore(s: Pool, steps: seq<Step>, step: Step)
    ensures Run(s, steps + [step]) == Next(Run(s, steps), step)
    ensures AllLegal(s, steps + [step]) <==> AllLegal(s, steps) && Legal(Run(s, steps), step)
    ensures Served(s, steps + [step]) <==> Served(s, steps) && (step.Get? ==> !Refused(Run(s, steps), step.page))
    decreases |steps|
  {
    hide Next, Legal, Refused;
    if steps == [] {
      assert [step][1..] == [];
    } else {
      OneMore(Next(s, steps[0]), steps[1..], step);
      assert (steps + [step])[1..] == steps[1..] + [step];
    }
  }

  /** There is one guard for each held page, named by it and on it, of the kind asked for. */
  ghost predicate Guarding(guards: map<GuardId, Guard>, held: set<PageId>, x: bool) {
    && |guards| == |held| && (forall p :: p in held ==> p >= 0)
    && (forall g: GuardId :: g in guards <==> g in held) && (forall g :: g in guards ==> guards[g].page == g && guards[g].exclusive == x)
  }

  lemma GuardingMore(guards: map<GuardId, Guard>, held: set<PageId>, p: PageId, q: Guard)
    requires Guarding(guards, held, q.exclusive) && p >= 0 && p !in held && q.page == p
    ensures Guarding(guards[p := q], held + {p}, q.exclusive) && |held + {p}| == |held| + 1
  {
    L.SetGrows(held, p);
  }

  lemma GuardingLess(guards: map<GuardId, Guard>, held: set<PageId>, p: PageId, x: bool)
    requires Guarding(guards, held, x) && p in held
    ensures p >= 0 && p in guards && Guarding(guards - {p}, held - {p}, x)
  {
    L.SetShrinks(held, p);
    assert (guards - {p}).Keys == guards.Keys - {p};
  }

  /** The pool after the steps of a history: its guards are those of the pages held. */
  ghost predicate Follows(s: Pool, frames: nat, first: PageId, log: seq<L.Event>, x: bool) {
    PoolInv(s) && |s.frames| == frames && s.next == L.NextAfter(first, log) && Guarding(s.guards, L.HeldAfter(log), x)
  }

  lemma BringFrames(s: Pool, p: PageId)
    ensures Bring(s, p).Some? ==> |Bring(s, p).value.1.frames| == |s.frames|
  {
    hide Evict;
  }

  lemma GetFrames(s: Pool, p: PageId, x: bool, g: GuardId)
    ensures Fetch(s, p, x, g).Some? ==> |Fetch(s, p, x, g).value.frames| == |s.frames|
  {
    hide Bring, RecordAccess, SetEvictable;
    BringFrames(s, p);
  }

  /** Guards on different pages are on different frames. */
  lemma {:induction false} FramesApart(guards: map<GuardId, Guard>)
    requires forall g, h :: g in guards && h in guards && g != h ==> guards[g].frame != guards[h].frame
    ensures |FramesOf(guards)| == |guards|
    decreases |guards|
  {
    if guards == map[] {
      assert FramesOf(guards) == {};
    } else {
      var g :| g in guards;
      var rest := guards - {g};
      assert rest.Keys == guards.Keys - {g};
      FramesApart(rest);
      FramesBut(guards, g);
    }
  }

  lemma FramesBut(guards: map<GuardId, Guard>, g: GuardId)
    requires g in guards && forall g, h :: g in guards && h in guards && g != h ==> guards[g].frame != guards[h].frame
    ensures FramesOf(guards) == FramesOf(guards - {g}) + {guards[g].frame} && guards[g].frame !in FramesOf(guards - {g})
  {
    forall h | h in guards ensures guards[h].frame in FramesOf(guards - {g}) + {guards[g].frame} {
      assert h != g ==> h in guards - {g} && (guards - {g})[h] == guards[h];
    }
  }

  lemma NoMoreThanFrames(s: Pool)
    requires PoolInv(s) && forall g :: g in s.guards ==> s.guards[g].page == g
    ensures |s.guards| <= |s.frames|
  {
    hide PoolInv;
    forall g | g in s.guards ensures s.guards[g].frame < |s.frames| && s.guards[g].page in s.table && s.table[s.guards[g].page] == s.guards[g].frame {
      GuardSees(s, g);
    }
    forall g, h | g in s.guards && h in s.guards && g != h ensures s.guards[g].frame != s.guards[h].frame {
      DifferentFrames(s, s.guards[g].page, s.guards[h].page);
    }
    FramesApart(s.guards);
    FramesBelow(FramesOf(s.guards), |s.frames|);
  }

  /** One event on a pool that has followed so far. */
  lemma FollowOne(s: Pool, frames: nat, first: PageId, log: seq<L.Event>, e: L.Event, x: bool)
    requires Follows(s, frames, first, log, x) && L.MayFollow(first, log, e)
    ensures Legal(s, StepOf(e, x))
    ensures e.Lock? ==> (!Refused(s, e.page) <==> |L.HeldAfter(log)| + 1 <= frames)
    ensures (e.Lock? ==> !Refused(s, e.page)) ==> Follows(Next(s, StepOf(e, x)), frames, first, log + [e], x)
  {
    hide Follows, L.MayFollow, Fetch, Refused, Drop, L.HeldAfter, L.NextAfter;
    match e
    case Alloc(p) => FollowAlloc(s, frames, first, log, p, x);
    case Unlock(p) => FollowUnlock(s, frames, first, log, p, x);
    case Lock(p) => FollowLock(s, frames, first, log, p, x);
  }

  lemma FollowAlloc(s: Pool, frames: nat, first: PageId, log: seq<L.Event>, p: PageId, x: bool)
    requires Follows(s, frames, first, log, x) && L.MayFollow(first, log, L.Alloc(p))
    ensures Follows(s.(next := s.next + 1), frames, first, log + [L.Alloc(p)], x)
  {
    hide PoolInv, Guarding, Logical, Zeros, L.HeldAfter, L.NextAfter;
    L.Extend(first, log, L.Alloc(p));
    NewPageOk(s);
  }

  lemma FollowUnlock(s: Pool, frames: nat, first: PageId, log: seq<L.Event>, p: PageId, x: bool)
    requires Follows(s, frames, first, log, x) && L.MayFollow(first, log, L.Unlock(p))
    ensures p >= 0 && p in s.guards && Follows(Drop(s, p), frames, first, log + [L.Unlock(p)], x)
  {
    hide PoolInv, SameContents, Guarding, Drop, L.HeldAfter, L.NextAfter;
    L.Extend(first, log, L.Unlock(p));
    GuardingLess(s.guards, L.HeldAfter(log), p, x);
    DropOk(s, p);
    LeaveKeeps(s, p);
  }

  lemma FollowLock(s: Pool, frames: nat, first: PageId, log: seq<L.Event>, p: PageId, x: bool)
    requires Follows(s, frames, first, log, x) && L.MayFollow(first, log, L.Lock(p))
    ensures p >= 0 && p !in s.guards && (!Refused(s, p) <==> |L.HeldAfter(log)| + 1 <= frames)
    ensures !Refused(s, p) ==> Fetch(s, p, x, p).Some? && Follows(Fetch(s, p, x, p).value, frames, first, log + [L.Lock(p)], x)
  {
    hide PoolInv, Fetch, Refused, Guarding, L.HeldAfter, L.NextAfter;
    L.Extend(first, log, L.Lock(p));
    NotYet(s.guards, L.HeldAfter(log), p, x);
    FetchOk(s, p, x, p);
    if |s.guards| < |s.frames| {
      RoomToFetch(s, p);
    }
    if !Refused(s, p) {
      var s' := Fetch(s, p, x, p).value;
      GetFrames(s, p, x, p);
      GuardingMore(s.guards, L.HeldAfter(log), p, Guard(p, s'.table[p], x));
      NotYet(s'.guards, L.HeldAfter(log) + {p}, p, x);
      NoMoreThanFrames(s');
    }
  }

  lemma NotYet(guards: map<GuardId, Guard>, held: set<PageId>, p: PageId, x: bool)
    requires Guarding(guards, held, x) && p >= 0
    ensures |guards| == |held| && (p in guards <==> p in held) && forall g :: g in guards ==> guards[g].page == g
  {
  }

  lemma LeaveKeeps(s: Pool, g: GuardId)
    ensures |Drop(s, g).frames| == |s.frames| && Drop(s, g).next == s.next
  {
  }

  /**
   * A legal history on a pool without guards is a legal run of the pool, and no fetch of it is refused if and only
   * if the pool has at least as many frames as pages are held at once. Served to the end, the pool's guards are
   * those of the pages still held.
   */
  lemma {:induction false} HistoryServed(s: Pool, log: seq<L.Event>, x: bool)
    requires PoolInv(s) && s.guards == map[] && L.Legal(s.next, log)
    ensures Served(s, StepsOf(log, x)) <==> L.MostHeld(log) <= |s.frames|
    ensures Served(s, StepsOf(log, x)) ==> AllLegal(s, StepsOf(log, x)) && Follows(Run(s, StepsOf(log, x)), |s.frames|, s.next, log, x)
  {
    hide PoolInv, Legal, Next, Refused, L.MayFollow;
    if log != [] {
      var front, e := L.Front(log), L.Latest(log);
      assert log == front + [e];
      HistoryServed(s, front, x);
      OneMore(s, StepsOf(front, x), StepOf(e, x));
      L.Extend(s.next, front, e);
      if Served(s, StepsOf(front, x)) {
        FollowOne(Run(s, StepsOf(front, x)), |s.frames|, s.next, front, e, x);
        HeldGrows(s.next, front, e);
      }
    }
  }

  lemma HeldGrows(first: PageId, log: seq<L.Event>, e: L.Event)
    requires L.MayFollow(first, log, e)
    ensures |L.HeldAfter(log + [e])| <= (if e.Lock? then |L.HeldAfter(log)| + 1 else |L.HeldAfter(log)|)
    ensures e.Lock? ==> |L.HeldAfter(log + [e])| == |L.HeldAfter(log)| + 1
    ensures |L.HeldAfter(log)| <= L.MostHeld(log)
  {
    L.Extend(first, log, e);
  }

  /**
   * What `Insert`, `Remove` and `GetValue` promise of their histories is enough: with two frames more than the tree
   * has levels and no other guards, the pool serves the whole operation and ends without guards.
   */
  lemma OperationServed(s: Pool, log: seq<L.Event>, levels: nat, x: bool)
    requires PoolInv(s) && s.guards == map[] && L.Legal(s.next, log) && L.HeldAfter(log) == {}
    requires L.MostHeld(log) <= levels + 2 <= |s.frames|
    ensures var s' := Run(s, StepsOf(log, x));
      && AllLegal(s, StepsOf(log, x)) && Served(s, StepsOf(log, x))
      && PoolInv(s') && s'.guards == map[] && s'.next == L.NextAfter(s.next, log)
  {
    hide PoolInv, L.Legal, L.MostHeld, L.NextAfter, AllLegal, Run;
    HistoryServed(s, log, x);
  }
}
