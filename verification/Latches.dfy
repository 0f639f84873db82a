/**
 * Page guards as a history: which pages an operation asks for, locks and releases, and when.
 *
 * A `Guards` value goes with every operation on the tree. It can only grow by the steps below, so its history is
 * legal by construction: a new page gets the next id, only an allocated page that is not held is locked (asking for
 * a page that is already held would wait for ever), and only a page that is held is released.
 */
module Latches {
  import opened Types

  datatype Event = Alloc(page: PageId) | Lock(page: PageId) | Unlock(page: PageId)

  function Front(log: seq<Event>): seq<Event>
    requires log != []
  {
    log[..|log| - 1]
  }

  function Latest(log: seq<Event>): Event
    requires log != []
  {
    log[|log| - 1]
  }

  /** The pages held after a history. */
  function HeldAfter(log: seq<Event>): set<PageId> {
    if log == [] then {}
    else
      match Latest(log)
      case Alloc(_) => HeldAfter(Front(log))
      case Lock(p) => HeldAfter(Front(log)) + {p}
      case Unlock(p) => HeldAfter(Front(log)) - {p}
  }

  /** The pages a history ever locks. */
  function LockedIn(log: seq<Event>): set<PageId> {
    if log == [] then {} else (if Latest(log).Lock? then {Latest(log).page} else {}) + LockedIn(Front(log))
  }

  /** The next page id to be handed out after a history that starts at `first`. */
  function NextAfter(first: PageId, log: seq<Event>): PageId {
    if log == [] then first else if Latest(log).Alloc? then Latest(log).page + 1 else NextAfter(first, Front(log))
  }

  ghost predicate MayFollow(first: PageId, log: seq<Event>, e: Event) {
    match e
    case Alloc(p) => p == NextAfter(first, log)
    case Lock(p) => p !in HeldAfter(log) && 0 <= p < NextAfter(first, log)
    case Unlock(p) => p in HeldAfter(log)
  }

  ghost predicate Legal(first: PageId, log: seq<Event>) {
    log == [] || (Legal(first, Front(log)) && MayFollow(first, Front(log), Latest(log)))
  }

  /** The largest number of pages held at once in the course of a history. */
  function MostHeld(log: seq<Event>): nat {
    if log == [] then 0 else Larger(MostHeld(Front(log)), |HeldAfter(log)|)
  }

  function Larger(a: int, b: int): (m: int)
    ensures m >= a && m >= b && (m == a || m == b)
  {
    if a < b then b else a
  }

  function Smaller(a: int, b: int): (m: int)
    ensures m <= a && m <= b && (m == a || m == b)
  {
    if a < b then a else b
  }

  /** A history together with what can be read off it. */
  datatype History = History(first: PageId, log: seq<Event>, held: set<PageId>, seen: set<PageId>, next: PageId, count: int, peak: int)

  ghost predicate Sound(g: History) {
    && Legal(g.first, g.log) && g.held == HeldAfter(g.log) && g.seen == LockedIn(g.log) && g.next == NextAfter(g.first, g.log)
    && g.count == |g.held| <= g.peak == MostHeld(g.log)
  }

  /** What a history also keeps: held pages are allocated and were locked, and every page it created was locked. */
  ghost predicate Tidy(g: History) {
    && (forall x :: x in g.held ==> 0 <= x < g.next && x in g.seen)
    && (forall x :: g.first <= x < g.next ==> x in g.seen)
  }

  /** One more event. */
  lemma Extend(first: PageId, log: seq<Event>, e: Event)
    ensures var more := log + [e];
      && HeldAfter(more) == (match e case Alloc(_) => HeldAfter(log) case Lock(p) => HeldAfter(log) + {p} case Unlock(p) => HeldAfter(log) - {p})
      && LockedIn(more) == (if e.Lock? then {e.page} else {}) + LockedIn(log)
      && NextAfter(first, more) == (if e.Alloc? then e.page + 1 else NextAfter(first, log))
      && MostHeld(more) == Larger(MostHeld(log), |HeldAfter(more)|)
      && (Legal(first, more) <==> Legal(first, log) && MayFollow(first, log, e))
  {
    assert Front(log + [e]) == log && Latest(log + [e]) == e;
  }

  // ----- what a history is, event by event -----

  /** Every event of a legal history is one that may follow what was before it. */
  lemma {:induction false} LegalIs(first: PageId, log: seq<Event>)
    ensures Legal(first, log) <==> forall i :: 0 <= i < |log| ==> MayFollow(first, log[..i], log[i])
    decreases |log|
  {
    hide MayFollow;
    if log != [] {
      var n := |log| - 1;
      LegalIs(first, log[..n]);
      assert forall i :: 0 <= i < n ==> log[..n][..i] == log[..i];
      if Legal(first, log) {
        forall i | 0 <= i < |log| ensures MayFollow(first, log[..i], log[i]) {
          assert i < n ==> MayFollow(first, log[..n][..i], log[..n][i]);
        }
      } else if MayFollow(first, log[..n], log[n]) {
        var i :| 0 <= i < n && !MayFollow(first, log[..n][..i], log[..n][i]);
        assert !MayFollow(first, log[..i], log[i]);
      }
    }
  }

  /** A page is held when it has been locked and not been unlocked since. */
  ghost predicate StillLocked(log: seq<Event>, p: PageId, i: int) {
    0 <= i < |log| && log[i] == Lock(p) && forall j :: i < j < |log| ==> log[j] != Unlock(p)
  }

  lemma {:induction false} HeldIs(log: seq<Event>, p: PageId)
    ensures p in HeldAfter(log) <==> exists i :: StillLocked(log, p, i)
    ensures p in LockedIn(log) <==> Lock(p) in log
    decreases |log|
  {
    if log != [] {
      var n := |log| - 1;
      HeldIs(log[..n], p);
      assert log == log[..n] + [log[n]];
      if log[n] == Lock(p) {
        assert StillLocked(log, p, n);
      } else if log[n] == Unlock(p) {
        assert forall i :: !StillLocked(log, p, i);
      } else {
        forall i ensures StillLocked(log, p, i) <==> StillLocked(log[..n], p, i) {
        }
      }
    }
  }

  /** `MostHeld` is the largest number of pages held after any part of the history. */
  lemma {:induction false} MostHeldIs(log: seq<Event>)
    ensures forall k :: 0 <= k <= |log| ==> |HeldAfter(log[..k])| <= MostHeld(log)
    ensures exists k :: 0 <= k <= |log| && |HeldAfter(log[..k])| == MostHeld(log)
    decreases |log|
  {
    hide HeldAfter;
    var n := |log|;
    assert log[..n] == log;
    if n == 0 {
      assert |HeldAfter(log[..0])| == 0 by { NothingHeld(); }
    } else {
      MostHeldIs(log[..n - 1]);
      forall k | 0 <= k <= n ensures |HeldAfter(log[..k])| <= MostHeld(log) {
        assert k < n ==> log[..n - 1][..k] == log[..k];
      }
      var k :| 0 <= k <= n - 1 && |HeldAfter(log[..n - 1][..k])| == MostHeld(log[..n - 1]);
      assert log[..n - 1][..k] == log[..k];
      assert |HeldAfter(log[..if MostHeld(log) == MostHeld(log[..n - 1]) then k else n])| == MostHeld(log);
    }
  }

  lemma NothingHeld()
    ensures HeldAfter([]) == {}
  {
  }

  /** The ids handed out are those from `first` up to the next one. */
  lemma {:induction false} AllocatedIs(first: PageId, log: seq<Event>)
    requires Legal(first, log)
    ensures first <= NextAfter(first, log) && forall x :: first <= x < NextAfter(first, log) <==> Alloc(x) in log
    decreases |log|
  {
    if log != [] {
      var n := |log| - 1;
      AllocatedIs(first, log[..n]);
      assert log == log[..n] + [log[n]];
    }
  }

  type Guards = g: History | Sound(g) && Tidy(g) witness History(0, [], {}, {}, 0, 0, 0)

  /** Nothing locked yet; `first` is the next page id to be handed out. */
  ghost function NoGuards(first: PageId): (g: Guards)
    ensures g.first == g.next == first && g.log == [] && g.held == g.seen == {} && g.count == g.peak == 0
  {
    History(first, [], {}, {}, first, 0, 0)
  }

  lemma SetGrows(s: set<PageId>, p: PageId)
    requires p !in s
    ensures |s + {p}| == |s| + 1
  {
  }

  lemma SetShrinks(s: set<PageId>, p: PageId)
    requires p in s
    ensures |s - {p}| == |s| - 1
  {
  }

  /** A history grows soundly by an event that may follow. */
  lemma Grown(g: History, g': History, e: Event)
    requires Sound(g) && MayFollow(g.first, g.log, e)
    requires g'.first == g.first && g'.log == g.log + [e] && g'.peak == Larger(g.peak, g'.count)
    requires match e
             case Alloc(p) => g'.held == g.held && g'.seen == g.seen && g'.next == p + 1 && g'.count == g.count
             case Lock(p) => g'.held == g.held + {p} && g'.seen == g.seen + {p} && g'.next == g.next && g'.count == g.count + 1
             case Unlock(p) => g'.held == g.held - {p} && g'.seen == g.seen && g'.next == g.next && g'.count == g.count - 1
    ensures Sound(g')
  {
    hide HeldAfter, LockedIn, NextAfter, MostHeld, Legal;
    Extend(g.first, g.log, e);
    match e
    case Alloc(_) =>
    case Lock(p) => SetGrows(g.held, p);
    case Unlock(p) => SetShrinks(g.held, p);
  }

  /** The guard of an allocated page. */
  ghost function Locked(g: Guards, id: PageId): (g': Guards)
    requires id !in g.held && 0 <= id < g.next
    ensures g'.first == g.first && g'.next == g.next && g'.log == g.log + [Lock(id)]
    ensures g'.held == g.held + {id} && g'.seen == g.seen + {id}
    ensures g'.count == g.count + 1 && g'.peak == Larger(g.peak, g.count + 1)
  {
    var g' := History(g.first, g.log + [Lock(id)], g.held + {id}, g.seen + {id}, g.next, g.count + 1, Larger(g.peak, g.count + 1));
    Grown(g, g', Lock(id));
    g'
  }

  ghost function Unlocked(g: Guards, id: PageId): (g': Guards)
    requires id in g.held
    ensures g'.first == g.first && g'.next == g.next && g'.log == g.log + [Unlock(id)]
    ensures g'.held == g.held - {id} && g'.seen == g.seen
    ensures g'.count == g.count - 1 && g'.peak == g.peak
  {
    var g' := History(g.first, g.log + [Unlock(id)], g.held - {id}, g.seen, g.next, g.count - 1, g.peak);
    Grown(g, g', Unlock(id));
    g'
  }

  /** A new page and its guard: `NewPage` and then `WritePage`. */
  ghost function Created(g: Guards): (g': Guards)
    requires g.next >= 0
    ensures g'.first == g.first && g'.next == g.next + 1 && g'.log == g.log + [Alloc(g.next)] + [Lock(g.next)] && g.next !in g.held
    ensures g'.held == g.held + {g.next} && g'.seen == g.seen + {g.next}
    ensures g'.count == g.count + 1 && g'.peak == Larger(g.peak, g.count + 1)
  {
    var g1 := History(g.first, g.log + [Alloc(g.next)], g.held, g.seen, g.next + 1, g.count, g.peak);
    Grown(g, g1, Alloc(g.next));
    var g' := History(g.first, g1.log + [Lock(g.next)], g.held + {g.next}, g.seen + {g.next}, g.next + 1, g.count + 1, Larger(g.peak, g.count + 1));
    Grown(g1, g', Lock(g.next));
    g'
  }

  /** Some guards were taken on the way, one at a time, and given back; the guard of `own` too, if `dropped`. */
  ghost predicate Spent(g: Guards, g': Guards, own: PageId, dropped: bool) {
    && g'.held == (if dropped then g.held - {own} else g.held) && g'.count == (if dropped then g.count - 1 else g.count)
    && g'.peak == Larger(g.peak, g.count + 1) && g'.first == g.first && g'.next == g.next && g.seen <= g'.seen
  }

  lemma SpentOne(g: Guards, id: PageId, own: PageId)
    requires id !in g.held && 0 <= id < g.next && own in g.held
    ensures var g1 := Locked(g, id);
      && Spent(g, Unlocked(g1, id), own, false) && Unlocked(g1, id).held == g.held && Unlocked(g1, id).next == g.next
      && Spent(g, Unlocked(Unlocked(g1, id), own), own, true) && Spent(g, Unlocked(Unlocked(g1, own), id), own, true)
  {
  }

  lemma SpentMore(g: Guards, g1: Guards, g2: Guards, own: PageId, dropped: bool)
    requires Spent(g, g1, own, false) && Spent(g1, g2, own, dropped)
    ensures Spent(g, g2, own, dropped)
  {
  }

  // ----- runs of pages to be released -----

  ghost function SetOf(ids: seq<PageId>): set<PageId> {
    set x | x in ids
  }

  lemma HeaderOnly(header: PageId)
    ensures SetOf([] + [header]) == {header}
  {
  }

  lemma PathAndHeader(path: seq<PageId>, header: PageId)
    ensures SetOf(path + [header]) == {header} + SetOf(path)
  {
  }

  /** From page to child: the child's guard is taken, then the page's given back. */
  lemma HandOver(g: Guards, header: PageId, page: PageId, child: PageId)
    requires g.held == {header, page} && child !in g.held && header != page && 0 <= child < g.next && g.count == 2 && 2 <= g.peak <= 3
    ensures var g' := Unlocked(Locked(g, child), page);
      && g'.held == {header, child} && g'.count == 2 && g'.peak == 3 && g'.first == g.first && g'.next == g.next && g'.seen == g.seen + {child}
  {
  }

  /** What a finished history tells. */
  lemma ReadOff(g: Guards)
    ensures Legal(g.first, g.log) && HeldAfter(g.log) == g.held && LockedIn(g.log) == g.seen
    ensures NextAfter(g.first, g.log) == g.next && MostHeld(g.log) == g.peak
    ensures forall x :: g.first <= x < g.next ==> x in g.seen
  {
  }

  ghost predicate NoRepeat(ids: seq<PageId>) {
    forall i, j :: 0 <= i < j < |ids| ==> ids[i] != ids[j]
  }

  /** Taking one page out of a run without repeats takes it out of the set. */
  lemma WithoutOne(a: seq<PageId>, x: PageId, b: seq<PageId>)
    requires NoRepeat(a + [x] + b)
    ensures NoRepeat(a + b) && x !in a + b && SetOf(a + b) == SetOf(a + [x] + b) - {x} && x in SetOf(a + [x] + b)
  {
    var s := a + [x] + b;
    assert s[|a|] == x;
    forall i | 0 <= i < |a + b| ensures (a + b)[i] != x && (a + b)[i] in s {
      assert (a + b)[i] == s[if i < |a| then i else i + 1];
    }
    forall y | y in s && y != x ensures y in a + b {
      var i :| 0 <= i < |s| && s[i] == y;
      assert (a + b)[if i < |a| then i else i - 1] == y;
    }
    forall i, j | 0 <= i < j < |a + b| ensures (a + b)[i] != (a + b)[j] {
      assert (a + b)[i] == s[if i < |a| then i else i + 1] && (a + b)[j] == s[if j < |a| then j else j + 1];
    }
  }

  /** Adding a new page to a run without repeats. */
  lemma WithOne(a: seq<PageId>, x: PageId, b: seq<PageId>)
    requires NoRepeat(a + b) && x !in a && x !in b
    ensures NoRepeat(a + [x] + b) && SetOf(a + [x] + b) == SetOf(a + b) + {x}
  {
    var s := a + [x] + b;
    forall i, j | 0 <= i < j < |s| ensures s[i] != s[j] {
      assert i != |a| ==> s[i] == (a + b)[if i < |a| then i else i - 1];
      assert j != |a| ==> s[j] == (a + b)[if j < |a| then j else j - 1];
    }
    forall y | y in SetOf(s) ensures y in SetOf(a + b) + {x} {
    }
    forall y | y in a + b ensures y in s {
      var i :| 0 <= i < |a + b| && (a + b)[i] == y;
      assert s[if i < |a| then i else i + 1] == y;
    }
  }

  lemma TwoPages(a: PageId, b: PageId)
    requires a != b
    ensures NoRepeat([] + [a] + [b]) && SetOf([] + [a] + [b]) == {a, b}
  {
  }

  lemma Swapped(a: seq<PageId>, x: PageId, y: PageId, b: seq<PageId>)
    requires NoRepeat(a + [x] + [y] + b)
    ensures NoRepeat(a + [y] + [x] + b) && SetOf(a + [y] + [x] + b) == SetOf(a + [x] + [y] + b)
  {
    var s, t := a + [x] + [y] + b, a + [y] + [x] + b;
    assert s == a + [x] + ([y] + b) && t == a + [y] + ([x] + b);
    WithoutOne(a, x, [y] + b);
    assert a + ([y] + b) == a + [y] + b;
    assert forall i :: 0 <= i < |t| ==> t[i] == s[if i == |a| then |a| + 1 else if i == |a| + 1 then |a| else i];
  }

  lemma InSet(ids: seq<PageId>, x: PageId)
    ensures x in SetOf(ids) <==> x in ids
  {
  }

  lemma NothingYet(ids: seq<PageId>)
    ensures SetOf(ids[..0]) == {}
  {
  }

  lemma NextOne(ids: seq<PageId>, i: nat)
    requires NoRepeat(ids) && i < |ids|
    ensures SetOf(ids[..i + 1]) == SetOf(ids[..i]) + {ids[i]} && ids[i] in SetOf(ids) && ids[i] !in SetOf(ids[..i])
  {
    assert ids[..i + 1] == ids[..i] + [ids[i]];
  }

  /** Releases pages in order, as the code pops its guards and leaves its scopes. */
  method ReleaseAll(ids: seq<PageId>, ghost g: Guards) returns (ghost g': Guards)
    requires NoRepeat(ids) && SetOf(ids) <= g.held
    ensures g'.held == g.held - SetOf(ids) && g'.count == g.count - |ids|
    ensures g'.first == g.first && g'.next == g.next && g'.seen == g.seen && g'.peak == g.peak
  {
    hide Sound, Tidy, SetOf, NoRepeat;
    assert SetOf(ids[..0]) == {} by { NothingYet(ids); }
    g' := g;
    var i := 0;
    while i < |ids|
      invariant 0 <= i <= |ids|
      invariant g'.held == g.held - SetOf(ids[..i]) && g'.count == g.count - i
      invariant g'.first == g.first && g'.next == g.next && g'.seen == g.seen && g'.peak == g.peak
    {
      NextOne(ids, i);
      g' := Unlocked(g', ids[i]);
      i := i + 1;
    }
    assert ids[..i] == ids;
  }
}
