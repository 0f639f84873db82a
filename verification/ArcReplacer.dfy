/** The ARC replacer as an object. Each method is proved to do what the function of the same name does to its state. */
module ArcReplacers {
  import opened Types
  import opened ArcModel

  class ArcReplacer {
    var mru: seq<FrameId>
    var mfu: seq<FrameId>
    var mruGhost: seq<PageId>
    var mfuGhost: seq<PageId>
    var alive: map<FrameId, FrameStatus>
    var ghosts: map<PageId, FrameStatus>
    var curr: int
    var target: int
    const size: int

    ghost function State(): Arc
      reads this
    {
      Arc(mru, mfu, mruGhost, mfuGhost, alive, ghosts, curr, target, size)
    }

    constructor (frames: nat)
      requires frames < TWO_TO_64
      ensures size == frames && State() == Empty(frames) && ArcInv(State())
    {
      size := frames;
      mru, mfu, mruGhost, mfuGhost := [], [], [], [];
      alive, ghosts := map[], map[];
      curr, target := 0, 0;
      new;
      assert Evictable(State()) == {};
    }

    method Size() returns (n: int)
      ensures n == curr && (ArcInv(State()) ==> n == |Evictable(State())|)
    {
      n := curr;
    }

    /** `ok` is false where the code throws. */
    method SetEvictable(f: FrameId, b: bool) returns (ok: bool)
      modifies this
      ensures ok <==> ArcModel.SetEvictable(old(State()), f, b).Some?
      ensures State() == if ok then ArcModel.SetEvictable(old(State()), f, b).value else old(State())
    {
      if f !in alive {
        return false;
      }
      if alive[f].evictable != b {
        alive := alive[f := alive[f].(evictable := b)];
        if b {
          curr := Wrap(curr + 1);
        } else {
          curr := Wrap(curr - 1);
        }
      }
      return true;
    }

    /** A hit in a ghost list: the target moves towards that list, and the page leaves it. */
    method HitGhost(p: PageId) returns (ok: bool)
      requires p in ghosts
      modifies this
      ensures ok <==> GhostHit(old(State()), p).Some?
      ensures ok ==> State() == GhostHit(old(State()), p).value
    {
      var st := ghosts[p];
      if st.status == MRUGhost {
        if |mruGhost| == 0 {
          return false;
        }
        target := Min(Wrap(target + Shift(|mfuGhost|, |mruGhost|)), size);
        mruGhost := Without(mruGhost, p);
      } else if st.status == MFUGhost {
        if |mfuGhost| == 0 {
          return false;
        }
        target := Max(Wrap(target - Shift(|mruGhost|, |mfuGhost|)), 0);
        mfuGhost := Without(mfuGhost, p);
      } else {
        return false;
      }
      return true;
    }

    /** `ok` is false where the code throws, divides by zero or waits for its own latch. */
    method RecordAccess(f: FrameId, p: PageId) returns (ok: bool)
      modifies this
      ensures ok <==> ArcModel.RecordAccess(old(State()), f, p).Some?
      ensures ok ==> State() == ArcModel.RecordAccess(old(State()), f, p).value
    {
      hide GhostHit;
      if f in alive {
        var st := alive[f];
        if st.status == MRU {
          mru := Without(mru, f);
          mfu := [f] + mfu;
          alive := alive[f := st.(status := MFU)];
        } else if st.status == MFU {
          mfu := Without(mfu, f);
          mfu := [f] + mfu;
        } else {
          return false;
        }
      } else if p in ghosts {
        var st := ghosts[p];
        ok := HitGhost(p);
        if !ok {
          return;
        }
        ghosts := ghosts - {p};
        alive := alive[f := FrameStatus(st.pageId, f, false, MFU)];
        mfu := [f] + mfu;
        if |alive| > size {
          return false;
        }
      } else {
        alive := alive[f := FrameStatus(p, f, false, MRU)];
        mru := [f] + mru;
        if |alive| > size {
          return false;
        }
      }
      return true;
    }

    /** The scan both lists share: from the back, to the first frame that may go. */
    method ScanBack(list: seq<FrameId>) returns (n: nat)
      ensures n == Scan(State(), list)
    {
      n := |list|;
      assert list[..n] == list;
      while n > 0 && !(list[n - 1] in alive && alive[list[n - 1]].evictable)
        invariant n <= |list| && Scan(State(), list) == Scan(State(), list[..n])
      {
        assert list[..n][..n - 1] == list[..n - 1];
        n := n - 1;
      }
      assert n > 0 ==> list[..n][n - 1] == list[n - 1];
    }

    /** The closure `try_evict`: `stat` says which list to scan. */
    method TryEvict(stat: ArcStatus) returns (r: Option<FrameId>)
      requires Alive(stat)
      modifies this
      ensures (r, State()) == ArcModel.TryEvict(old(State()), stat)
    {
      var list := if stat == MFU then mfu else mru;
      var n := ScanBack(list);
      if n == 0 || list[n - 1] !in alive {
        return None;
      }
      var f := list[n - 1];
      var st := alive[f];
      if stat == MFU {
        mfuGhost, mfu := [st.pageId] + mfuGhost, mfu[..n - 1] + mfu[n..];
      } else {
        mruGhost, mru := [st.pageId] + mruGhost, mru[..n - 1] + mru[n..];
      }
      ghosts := ghosts[st.pageId := st.(status := if stat == MRU then MRUGhost else MFUGhost)];
      alive := alive - {f};
      curr := Wrap(curr - 1);
      return Some(f);
    }

    method Evict() returns (r: Option<FrameId>)
      modifies this
      ensures (r, State()) == ArcModel.Evict(old(State()))
    {
      hide ArcModel.TryEvict;
      if curr == 0 {
        return None;
      }
      NoneKeeps(State());
      if |mru| > target {
        r := TryEvict(MRU);
        if r.Some? {
          return;
        }
        r := TryEvict(MFU);
        if r.Some? {
          return;
        }
      }
      if |mfu| >= Wrap(size - target) {
        r := TryEvict(MFU);
        if r.Some? {
          return;
        }
        r := TryEvict(MRU);
        if r.Some? {
          return;
        }
      }
      r := TryEvict(MRU);
      if r.Some? {
        return;
      }
      r := TryEvict(MFU);
    }
  }

  lemma NoneKeeps(a: Arc)
    ensures forall stat :: ArcModel.TryEvict(a, stat).0.None? ==> ArcModel.TryEvict(a, stat).1 == a
  {
  }
}
