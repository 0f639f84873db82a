/**
 * The block nested loop join. A row is found by its record id and names the next one; a table is the chain from its
 * first row. `pages` are the pages the buffer pool can bring in.
 */
module BlockJoins {
  import opened Types

  datatype Row = Row(next: Rid, col1: int)

  type Table = map<Rid, Row>

  /** One entry of a block: the join column, and the row it came from. */
  datatype Entry = Entry(col1: int, rid: Rid)

  type Match = (Rid, Rid)

  // ----- chains -----

  /** `rows` is the chain that starts at `start`. */
  ghost predicate Linked(t: Table, start: Rid, rows: seq<Rid>)
    decreases |rows|
  {
    if rows == [] then start.pageId == -1 || start.slot == -1
    else rows[0] == start && start.pageId != -1 && start.slot != -1 && start in t && Linked(t, t[start].next, rows[1..])
  }

  ghost predicate OnPages(rows: seq<Rid>, pages: set<PageId>) {
    forall i :: 0 <= i < |rows| ==> rows[i].pageId in pages
  }

  lemma {:induction false} LinkedOnce(t: Table, start: Rid, rows: seq<Rid>, other: seq<Rid>)
    requires Linked(t, start, rows) && Linked(t, start, other)
    ensures rows == other
    decreases |rows|
  {
    if rows != [] {
      LinkedOnce(t, t[start].next, rows[1..], other[1..]);
      assert rows == [rows[0]] + rows[1..] && other == [other[0]] + other[1..];
    }
  }

  lemma {:induction false} LinkedFrom(t: Table, start: Rid, rows: seq<Rid>, i: nat)
    requires Linked(t, start, rows) && i < |rows|
    ensures rows[i] in t && Linked(t, rows[i], rows[i..])
    decreases |rows|
  {
    if i > 0 {
      LinkedFrom(t, t[start].next, rows[1..], i - 1);
      assert rows[1..][i - 1..] == rows[i..];
    } else {
      assert rows[0..] == rows;
    }
  }

  lemma LinkedRows(t: Table, start: Rid, rows: seq<Rid>)
    requires Linked(t, start, rows)
    ensures forall r :: r in rows ==> r in t
  {
    forall i | 0 <= i < |rows| ensures rows[i] in t {
      LinkedFrom(t, start, rows, i);
    }
  }

  /** A finite chain visits no row twice. */
  lemma LinkedDistinct(t: Table, start: Rid, rows: seq<Rid>)
    requires Linked(t, start, rows)
    ensures forall i, j :: 0 <= i < j < |rows| ==> rows[i] != rows[j]
  {
    forall i, j | 0 <= i < j < |rows| ensures rows[i] != rows[j] {
      LinkedFrom(t, start, rows, i);
      LinkedFrom(t, start, rows, j);
      if rows[i] == rows[j] {
        LinkedOnce(t, rows[i], rows[i..], rows[j..]);
      }
    }
  }

  // ----- what the join computes -----

  ghost function Pair(lt: Table, rt: Table, l: Rid, r: Rid): seq<Match> {
    if l in lt && r in rt && lt[l].col1 == rt[r].col1 then [(l, r)] else []
  }

  /** A block against one right row, in the order of the block. */
  ghost function Probe(lt: Table, rt: Table, block: seq<Rid>, r: Rid): seq<Match> {
    if block == [] then [] else Pair(lt, rt, block[0], r) + Probe(lt, rt, block[1..], r)
  }

  /** A block against all right rows, in the order of the right chain. */
  ghost function BlockJoin(lt: Table, rt: Table, block: seq<Rid>, right: seq<Rid>): seq<Match> {
    if right == [] then [] else Probe(lt, rt, block, right[0]) + BlockJoin(lt, rt, block, right[1..])
  }

  ghost function JoinBlocks(lt: Table, rt: Table, blocks: seq<seq<Rid>>, right: seq<Rid>): seq<Match> {
    if blocks == [] then [] else BlockJoin(lt, rt, blocks[0], right) + JoinBlocks(lt, rt, blocks[1..], right)
  }

  /** One left row against all right rows. */
  ghost function RowJoin(lt: Table, rt: Table, l: Rid, right: seq<Rid>): seq<Match> {
    if right == [] then [] else Pair(lt, rt, l, right[0]) + RowJoin(lt, rt, l, right[1..])
  }

  /** The naive join: for every left row, for every right row. */
  ghost function Naive(lt: Table, rt: Table, left: seq<Rid>, right: seq<Rid>): seq<Match> {
    if left == [] then [] else RowJoin(lt, rt, left[0], right) + Naive(lt, rt, left[1..], right)
  }

  ghost function Flatten(blocks: seq<seq<Rid>>): seq<Rid> {
    if blocks == [] then [] else blocks[0] + Flatten(blocks[1..])
  }

  // ----- the blocked join is the naive join -----

  lemma {:induction false} AddRow(lt: Table, rt: Table, l: Rid, block: seq<Rid>, right: seq<Rid>)
    ensures multiset(BlockJoin(lt, rt, [l] + block, right)) == multiset(RowJoin(lt, rt, l, right)) + multiset(BlockJoin(lt, rt, block, right))
  {
    if right != [] {
      AddRow(lt, rt, l, block, right[1..]);
      FirstProbe(lt, rt, l, block, right[0]);
      Shuffle(Pair(lt, rt, l, right[0]), Probe(lt, rt, block, right[0]), RowJoin(lt, rt, l, right[1..]),
              BlockJoin(lt, rt, block, right[1..]), BlockJoin(lt, rt, [l] + block, right[1..]));
    }
  }

  lemma Shuffle(p: seq<Match>, q: seq<Match>, a: seq<Match>, b: seq<Match>, ab: seq<Match>)
    requires multiset(ab) == multiset(a) + multiset(b)
    ensures multiset((p + q) + ab) == multiset(p + a) + multiset(q + b)
  {
  }

  lemma FirstProbe(lt: Table, rt: Table, l: Rid, block: seq<Rid>, r: Rid)
    ensures Probe(lt, rt, [l] + block, r) == Pair(lt, rt, l, r) + Probe(lt, rt, block, r)
  {
    assert ([l] + block)[1..] == block;
  }

  /** Exchanging the loops changes the order of the matches, not which there are or how often. */
  lemma {:induction false} BlockIsNaive(lt: Table, rt: Table, block: seq<Rid>, right: seq<Rid>)
    ensures multiset(BlockJoin(lt, rt, block, right)) == multiset(Naive(lt, rt, block, right))
  {
    if block == [] {
      EmptyBlock(lt, rt, right);
    } else {
      BlockIsNaive(lt, rt, block[1..], right);
      AddRow(lt, rt, block[0], block[1..], right);
      assert block == [block[0]] + block[1..];
    }
  }

  lemma {:induction false} EmptyBlock(lt: Table, rt: Table, right: seq<Rid>)
    ensures BlockJoin(lt, rt, [], right) == []
  {
    if right != [] {
      EmptyBlock(lt, rt, right[1..]);
    }
  }

  lemma {:induction false} NaiveAppend(lt: Table, rt: Table, a: seq<Rid>, b: seq<Rid>, right: seq<Rid>)
    ensures Naive(lt, rt, a + b, right) == Naive(lt, rt, a, right) + Naive(lt, rt, b, right)
  {
    if a == [] {
      assert a + b == b;
    } else {
      NaiveAppend(lt, rt, a[1..], b, right);
      assert (a + b)[1..] == a[1..] + b;
      Regroup(RowJoin(lt, rt, a[0], right), Naive(lt, rt, a[1..], right), Naive(lt, rt, b, right));
    }
  }

  /** However the left chain is cut into blocks, the matches are those of the naive join. */
  lemma {:induction false} BlockedIsNaive(lt: Table, rt: Table, blocks: seq<seq<Rid>>, right: seq<Rid>)
    ensures multiset(JoinBlocks(lt, rt, blocks, right)) == multiset(Naive(lt, rt, Flatten(blocks), right))
  {
    if blocks != [] {
      BlockedIsNaive(lt, rt, blocks[1..], right);
      BlockIsNaive(lt, rt, blocks[0], right);
      NaiveAppend(lt, rt, blocks[0], Flatten(blocks[1..]), right);
    }
  }

  lemma {:induction false} RowJoinCount(lt: Table, rt: Table, l: Rid, right: seq<Rid>, m: Match)
    requires forall i, j :: 0 <= i < j < |right| ==> right[i] != right[j]
    ensures multiset(RowJoin(lt, rt, l, right))[m]
      == if m.0 == l && m.1 in right && l in lt && m.1 in rt && lt[l].col1 == rt[m.1].col1 then 1 else 0
  {
    if right != [] {
      RowJoinCount(lt, rt, l, right[1..], m);
    }
  }

  /** In the naive join of chains without repeated rows, each equal pair occurs once, and nothing else occurs. */
  lemma {:induction false} NaiveCount(lt: Table, rt: Table, left: seq<Rid>, right: seq<Rid>, m: Match)
    requires forall i, j :: 0 <= i < j < |left| ==> left[i] != left[j]
    requires forall i, j :: 0 <= i < j < |right| ==> right[i] != right[j]
    ensures multiset(Naive(lt, rt, left, right))[m]
      == if m.0 in left && m.1 in right && m.0 in lt && m.1 in rt && lt[m.0].col1 == rt[m.1].col1 then 1 else 0
  {
    if left != [] {
      NaiveCount(lt, rt, left[1..], right, m);
      RowJoinCount(lt, rt, left[0], right, m);
    }
  }

  // ----- how blocks are cut -----

  /** The rows taken while the count of pages allows; the count goes up when a row is on another page than the last. */
  ghost function BlockRows(rows: seq<Rid>, page: PageId, count: int, size: nat): (n: nat)
    ensures n <= |rows|
  {
    if rows == [] || count > size then 0
    else 1 + BlockRows(rows[1..], rows[0].pageId, if rows[0].pageId == page then count else count + 1, size)
  }

  ghost function Blocks(rows: seq<Rid>, size: nat): seq<seq<Rid>>
    requires size >= 1
    decreases |rows|
  {
    if rows == [] then []
    else
      var n := BlockRows(rows, rows[0].pageId, 1, size);
      [rows[..n]] + Blocks(rows[n..], size)
  }

  /** How often the page changes along the rows, starting from a page. */
  ghost function Switches(rows: seq<Rid>, page: PageId): nat {
    if rows == [] then 0 else (if rows[0].pageId == page then 0 else 1) + Switches(rows[1..], rows[0].pageId)
  }

  /** A block stops at the end of the chain, or with the first row of its page number `size + 1`. */
  lemma {:induction false} BlockEnds(rows: seq<Rid>, page: PageId, count: int, size: nat)
    requires 1 <= count <= size + 1
    ensures var n := BlockRows(rows, page, count, size);
      && count + Switches(rows[..n], page) <= size + 1
      && (n < |rows| ==> count + Switches(rows[..n], page) == size + 1)
      && forall k :: 0 <= k < n ==> count + Switches(rows[..k], page) <= size
  {
    var n := BlockRows(rows, page, count, size);
    if n > 0 {
      var count' := if rows[0].pageId == page then count else count + 1;
      BlockEnds(rows[1..], rows[0].pageId, count', size);
      assert rows[..n][1..] == rows[1..][..n - 1];
      forall k | 0 <= k < n ensures count + Switches(rows[..k], page) <= size {
        if k > 0 {
          assert rows[..k][1..] == rows[1..][..k - 1];
        }
      }
    }
  }

  /** The page of row `k` is another one than just before. */
  ghost predicate Turn(rows: seq<Rid>, page: PageId, k: nat)
    requires k < |rows|
  {
    rows[k].pageId != if k == 0 then page else rows[k - 1].pageId
  }

  ghost function Turns(rows: seq<Rid>, page: PageId): set<nat> {
    set k: nat | k < |rows| && Turn(rows, page, k)
  }

  lemma {:induction false} LastSwitch(rows: seq<Rid>, page: PageId)
    requires rows != []
    ensures var n := |rows| - 1; Switches(rows, page) == Switches(rows[..n], page) + if Turn(rows, page, n) then 1 else 0
  {
    var n := |rows| - 1;
    if n > 0 {
      LastSwitch(rows[1..], rows[0].pageId);
      assert rows[1..][..n - 1] == rows[..n][1..];
    }
  }

  lemma {:induction false} SwitchesAreTurns(rows: seq<Rid>, page: PageId)
    ensures Switches(rows, page) == |Turns(rows, page)|
    decreases |rows|
  {
    hide Switches;
    if rows == [] {
      NoSwitch(rows, 0, page);
      assert rows[..0] == rows && Turns(rows, page) == {};
    } else {
      var n := |rows| - 1;
      LastSwitch(rows, page);
      SwitchesAreTurns(rows[..n], page);
      assert forall k: nat :: k < n ==> (Turn(rows, page, k) <==> Turn(rows[..n], page, k));
      assert Turns(rows, page) == if Turn(rows, page, n) then Turns(rows[..n], page) + {n} else Turns(rows[..n], page);
    }
  }

  /** Every block but the last goes on to the first row of its page number `size + 1`, and none beyond it. */
  lemma {:induction false} BlocksAreFull(rows: seq<Rid>, size: nat, i: nat)
    requires size >= 1 && i < |Blocks(rows, size)|
    ensures var block := Blocks(rows, size)[i];
      && block != [] && |Turns(block, block[0].pageId)| <= size
      && (i < |Blocks(rows, size)| - 1 ==> |Turns(block, block[0].pageId)| == size)
      && forall k :: 0 <= k < |block| ==> |Turns(block[..k], block[0].pageId)| < size
    decreases |rows|
  {
    hide Turns, Switches;
    var n := BlockRows(rows, rows[0].pageId, 1, size);
    if i > 0 {
      BlocksAreFull(rows[n..], size, i - 1);
    } else {
      var block := rows[..n];
      assert block == Blocks(rows, size)[0];
      BlockEnds(rows, rows[0].pageId, 1, size);
      SwitchesAreTurns(block, rows[0].pageId);
      forall k | 0 <= k < n ensures |Turns(block[..k], rows[0].pageId)| < size {
        assert block[..k] == rows[..k];
        SwitchesAreTurns(rows[..k], rows[0].pageId);
      }
    }
  }

  /** The blocks are consecutive, none is empty, and together they are the left chain. */
  lemma {:induction false} BlocksCover(rows: seq<Rid>, size: nat)
    requires size >= 1
    ensures Flatten(Blocks(rows, size)) == rows && forall i :: 0 <= i < |Blocks(rows, size)| ==> Blocks(rows, size)[i] != []
    decreases |rows|
  {
    if rows != [] {
      var n := BlockRows(rows, rows[0].pageId, 1, size);
      BlocksCover(rows[n..], size);
      assert rows == rows[..n] + rows[n..];
    }
  }

  /** For every block size from 1 up the result holds each pair of rows with equal columns once, and nothing else. */
  lemma JoinIsExact(lt: Table, rt: Table, leftStart: Rid, rightStart: Rid, left: seq<Rid>, right: seq<Rid>, size: nat)
    requires Linked(lt, leftStart, left) && Linked(rt, rightStart, right) && size >= 1
    ensures multiset(JoinBlocks(lt, rt, Blocks(left, size), right)) == multiset(Naive(lt, rt, left, right))
    ensures (forall l :: l in left ==> l in lt) && (forall r :: r in right ==> r in rt)
    ensures forall m: Match ::
      multiset(JoinBlocks(lt, rt, Blocks(left, size), right))[m] == if m.0 in left && m.1 in right && lt[m.0].col1 == rt[m.1].col1 then 1 else 0
  {
    hide JoinBlocks, Naive;
    BlocksCover(left, size);
    BlockedIsNaive(lt, rt, Blocks(left, size), right);
    LinkedDistinct(lt, leftStart, left);
    LinkedDistinct(rt, rightStart, right);
    LinkedRows(lt, leftStart, left);
    LinkedRows(rt, rightStart, right);
    forall m: Match ensures multiset(Naive(lt, rt, left, right))[m] == if m.0 in left && m.1 in right && lt[m.0].col1 == rt[m.1].col1 then 1 else 0 {
      NaiveCount(lt, rt, left, right, m);
    }
  }

  // ----- the order of the result -----

  /** Where a match comes from: the number of the block, the place in the right chain, and the place in the block. */
  type Origin = (nat, nat, nat)

  ghost predicate Sooner(o: Origin, o': Origin) {
    o.0 < o'.0 || (o.0 == o'.0 && (o.1 < o'.1 || (o.1 == o'.1 && o.2 < o'.2)))
  }

  ghost predicate Increasing(os: seq<Origin>) {
    forall i, j :: 0 <= i < j < |os| ==> Sooner(os[i], os[j])
  }

  ghost predicate ComeFrom(ms: seq<Match>, os: seq<Origin>, blocks: seq<seq<Rid>>, right: seq<Rid>) {
    |ms| == |os| && forall i :: 0 <= i < |ms| ==>
      os[i].0 < |blocks| && os[i].1 < |right| && os[i].2 < |blocks[os[i].0]| && ms[i] == (blocks[os[i].0][os[i].2], right[os[i].1])
  }

  lemma Joined(a: seq<Origin>, b: seq<Origin>)
    requires Increasing(a) && Increasing(b) && forall x, y :: x in a && y in b ==> Sooner(x, y)
    ensures Increasing(a + b)
  {
    forall i, j | 0 <= i < j < |a + b| ensures Sooner((a + b)[i], (a + b)[j]) {
      if i < |a| <= j {
        assert a[i] in a && b[j - |a|] in b;
      }
    }
  }

  lemma {:induction false} ProbeOrigins(lt: Table, rt: Table, blocks: seq<seq<Rid>>, right: seq<Rid>, b: nat, y: nat, x: nat) returns (os: seq<Origin>)
    requires b < |blocks| && y < |right| && x <= |blocks[b]|
    ensures Increasing(os) && ComeFrom(Probe(lt, rt, blocks[b][x..], right[y]), os, blocks, right)
    ensures forall o :: o in os ==> o.0 == b && o.1 == y && o.2 >= x
    decreases |blocks[b]| - x
  {
    os := [];
    if x < |blocks[b]| {
      var rest := ProbeOrigins(lt, rt, blocks, right, b, y, x + 1);
      var first := if Pair(lt, rt, blocks[b][x], right[y]) == [] then [] else [(b, y, x)];
      os := first + rest;
      assert blocks[b][x..][1..] == blocks[b][x + 1..];
      Joined(first, rest);
    }
  }

  lemma {:induction false} ScanOrigins(lt: Table, rt: Table, blocks: seq<seq<Rid>>, right: seq<Rid>, b: nat, y: nat) returns (os: seq<Origin>)
    requires b < |blocks| && y <= |right|
    ensures Increasing(os) && ComeFrom(BlockJoin(lt, rt, blocks[b], right[y..]), os, blocks, right)
    ensures forall o :: o in os ==> o.0 == b && o.1 >= y
    decreases |right| - y
  {
    hide Probe;
    os := [];
    if y < |right| {
      var first := ProbeOrigins(lt, rt, blocks, right, b, y, 0);
      var rest := ScanOrigins(lt, rt, blocks, right, b, y + 1);
      os := first + rest;
      assert right[y..][1..] == right[y + 1..] && blocks[b][0..] == blocks[b];
      Joined(first, rest);
    }
  }

  lemma {:induction false} JoinOrigins(lt: Table, rt: Table, blocks: seq<seq<Rid>>, right: seq<Rid>, b: nat) returns (os: seq<Origin>)
    requires b <= |blocks|
    ensures Increasing(os) && ComeFrom(JoinBlocks(lt, rt, blocks[b..], right), os, blocks, right)
    ensures forall o :: o in os ==> o.0 >= b
    decreases |blocks| - b
  {
    hide BlockJoin;
    os := [];
    if b < |blocks| {
      var first := ScanOrigins(lt, rt, blocks, right, b, 0);
      var rest := JoinOrigins(lt, rt, blocks, right, b + 1);
      os := first + rest;
      assert blocks[b..][1..] == blocks[b + 1..] && right[0..] == right;
      Joined(first, rest);
    }
  }

  /** The matches stand in the order of their blocks, within a block in that of the right chain, and then in that of the block. */
  lemma JoinInOrder(lt: Table, rt: Table, blocks: seq<seq<Rid>>, right: seq<Rid>)
    ensures exists os :: Increasing(os) && ComeFrom(JoinBlocks(lt, rt, blocks, right), os, blocks, right)
  {
    var os := JoinOrigins(lt, rt, blocks, right, 0);
    assert blocks[0..] == blocks;
  }

  /** What the executor leaves, as a multiset of pairs of rows. */
  lemma JoinedIs(lt: Table, rt: Table, leftStart: Rid, rightStart: Rid, left: seq<Rid>, right: seq<Rid>, size: nat, ok: bool, results: seq<Match>)
    requires Linked(lt, leftStart, left) && Linked(rt, rightStart, right)
    requires results == if ok && size >= 1 then JoinBlocks(lt, rt, Blocks(left, size), right) else []
    ensures (forall l :: l in left ==> l in lt) && (forall r :: r in right ==> r in rt)
    ensures forall m: Match ::
      multiset(results)[m] == if ok && size >= 1 && m.0 in left && m.1 in right && lt[m.0].col1 == rt[m.1].col1 then 1 else 0
  {
    hide JoinBlocks, Naive, Blocks;
    LinkedRows(lt, leftStart, left);
    LinkedRows(rt, rightStart, right);
    if size >= 1 {
      JoinIsExact(lt, rt, leftStart, rightStart, left, right, size);
    }
  }

  // ----- page guards -----

  /** Read guards are shared: a page may be open more than once. */
  datatype Event = Open(page: PageId) | Close(page: PageId)

  function Before(log: seq<Event>): seq<Event>
    requires log != []
  {
    log[..|log| - 1]
  }

  function Latest(log: seq<Event>): Event
    requires log != []
  {
    log[|log| - 1]
  }

  /** The pages that are open after a history, with how often. */
  function OpenAfter(log: seq<Event>): multiset<PageId> {
    if log == [] then multiset{}
    else if Latest(log).Open? then OpenAfter(Before(log)) + multiset{Latest(log).page}
    else OpenAfter(Before(log)) - multiset{Latest(log).page}
  }

  /** Only pages the pool can bring in are opened, and only open pages are closed. */
  ghost predicate Proper(pages: set<PageId>, log: seq<Event>) {
    log == [] || (Proper(pages, Before(log)) && Latest(log).page in if Latest(log).Open? then multiset(pages) else OpenAfter(Before(log)))
  }

  function MostOpen(log: seq<Event>): nat {
    if log == [] then 0 else Larger(MostOpen(Before(log)), |OpenAfter(log)|)
  }

  function Larger(a: int, b: int): (m: int)
    ensures m >= a && m >= b && (m == a || m == b)
  {
    if a < b then b else a
  }

  /** A page is open as often as it has been opened and not closed. */
  lemma {:induction false} OpenIs(pages: set<PageId>, log: seq<Event>, p: PageId)
    requires Proper(pages, log)
    ensures OpenAfter(log)[p] + multiset(log)[Close(p)] == multiset(log)[Open(p)]
    decreases |log|
  {
    hide OpenAfter, Proper;
    if log == [] {
      NothingOpen();
    } else {
      var front, e := Before(log), Latest(log);
      assert log == front + [e];
      LastEvent(pages, front, e);
      OpenIs(pages, front, p);
      OneMoreEvent(front, e, p);
    }
  }

  lemma OneMoreEvent(log: seq<Event>, e: Event, p: PageId)
    ensures multiset(log + [e])[Open(p)] == multiset(log)[Open(p)] + if e == Open(p) then 1 else 0
    ensures multiset(log + [e])[Close(p)] == multiset(log)[Close(p)] + if e == Close(p) then 1 else 0
  {
  }

  lemma LastEvent(pages: set<PageId>, log: seq<Event>, e: Event)
    requires Proper(pages, log + [e])
    ensures OpenAfter(log + [e]) == if e.Open? then OpenAfter(log) + multiset{e.page} else OpenAfter(log) - multiset{e.page}
    ensures Proper(pages, log) && (e.Close? ==> e.page in OpenAfter(log))
  {
    assert Before(log + [e]) == log && Latest(log + [e]) == e;
  }

  /** `MostOpen` is the largest number of guards open after any part of the history. */
  lemma {:induction false} MostOpenIs(log: seq<Event>)
    ensures forall k :: 0 <= k <= |log| ==> |OpenAfter(log[..k])| <= MostOpen(log)
    ensures exists k :: 0 <= k <= |log| && |OpenAfter(log[..k])| == MostOpen(log)
    decreases |log|
  {
    hide OpenAfter;
    var n := |log|;
    assert log[..n] == log;
    if n == 0 {
      assert |OpenAfter(log[..0])| == 0 by { NothingOpen(); }
    } else {
      MostOpenIs(log[..n - 1]);
      forall k | 0 <= k <= n ensures |OpenAfter(log[..k])| <= MostOpen(log) {
        assert k < n ==> log[..n - 1][..k] == log[..k];
      }
      var k :| 0 <= k <= n - 1 && |OpenAfter(log[..n - 1][..k])| == MostOpen(log[..n - 1]);
      assert log[..n - 1][..k] == log[..k];
      assert |OpenAfter(log[..if MostOpen(log) == MostOpen(log[..n - 1]) then k else n])| == MostOpen(log);
    }
  }

  lemma NothingOpen()
    ensures OpenAfter([]) == multiset{}
  {
  }

  /** A history of guards together with what can be read off it. */
  datatype History = History(pages: set<PageId>, log: seq<Event>, open: multiset<PageId>, count: int, peak: int)

  ghost predicate Sound(h: History) {
    Proper(h.pages, h.log) && h.open == OpenAfter(h.log) && h.count == |h.open| <= h.peak == MostOpen(h.log)
  }

  type Guards = h: History | Sound(h) witness History({}, [], multiset{}, 0, 0)

  ghost function NoGuards(pages: set<PageId>): (h: Guards)
    ensures h == History(pages, [], multiset{}, 0, 0)
  {
    History(pages, [], multiset{}, 0, 0)
  }

  lemma Extend(pages: set<PageId>, log: seq<Event>, e: Event)
    ensures var more := log + [e];
      && OpenAfter(more) == (if e.Open? then OpenAfter(log) + multiset{e.page} else OpenAfter(log) - multiset{e.page})
      && (Proper(pages, more) <==> Proper(pages, log) && e.page in if e.Open? then multiset(pages) else OpenAfter(log))
      && MostOpen(more) == Larger(MostOpen(log), |OpenAfter(more)|)
  {
    assert Before(log + [e]) == log && Latest(log + [e]) == e;
  }

  /** A history grows soundly by an event that is allowed. */
  lemma Grown(h: History, h': History, e: Event)
    requires Sound(h) && e.page in if e.Open? then multiset(h.pages) else OpenAfter(h.log)
    requires h'.pages == h.pages && h'.log == h.log + [e] && h'.peak == Larger(h.peak, h'.count)
    requires if e.Open? then h'.open == h.open + multiset{e.page} && h'.count == h.count + 1
             else h'.open == h.open - multiset{e.page} && h'.count == h.count - 1
    ensures Sound(h')
  {
    hide Proper, OpenAfter, MostOpen;
    Extend(h.pages, h.log, e);
  }

  /** `ReadPage` of a page the pool can bring in. */
  ghost function Opened(h: Guards, page: PageId): (h': Guards)
    requires page in h.pages
    ensures h'.pages == h.pages && h'.open == h.open + multiset{page} && h'.count == h.count + 1 && h'.peak == Larger(h.peak, h.count + 1)
  {
    var h' := History(h.pages, h.log + [Open(page)], h.open + multiset{page}, h.count + 1, Larger(h.peak, h.count + 1));
    Grown(h, h', Open(page));
    h'
  }

  ghost function Closed(h: Guards, page: PageId): (h': Guards)
    requires page in h.open
    ensures h'.pages == h.pages && h'.open == h.open - multiset{page} && h'.count == h.count - 1 && h'.peak == h.peak
  {
    var h' := History(h.pages, h.log + [Close(page)], h.open - multiset{page}, h.count - 1, h.peak);
    Grown(h, h', Close(page));
    h'
  }

  lemma ReadOff(h: Guards)
    ensures Proper(h.pages, h.log) && OpenAfter(h.log) == h.open && MostOpen(h.log) == h.peak
  {
  }

  /** The row in a slot of an open page. */
  function RowOn(t: Table, page: PageId, slot: int, ghost h: Guards): Row
    requires page in h.open && Rid(page, slot) in t
  {
    t[Rid(page, slot)]
  }

  /** What a block's code holds beyond `h0`: the guards in its vector and the current one. */
  ghost predicate Holds(h: Guards, h0: Guards, held: seq<PageId>, page: PageId) {
    h.open == h0.open + multiset(held) + multiset{page} && h.pages == h0.pages && h.count == h0.count + |held| + 1
  }

  lemma FirstOpened(h0: Guards, page: PageId)
    requires page in h0.pages
    ensures Holds(Opened(h0, page), h0, [], page) && Opened(h0, page).peak == Larger(h0.peak, h0.count + 1)
  {
    hide Sound;
  }

  lemma NextOpened(h: Guards, h0: Guards, held: seq<PageId>, page: PageId, to: PageId)
    requires Holds(h, h0, held, page) && to in h.pages
    ensures Holds(Opened(h, to), h0, held + [page], to) && Opened(h, to).peak == Larger(h.peak, h0.count + |held| + 2)
    ensures h.peak == Larger(h0.peak, h0.count + |held| + 1) ==> Opened(h, to).peak == Larger(h0.peak, h0.count + |held| + 2)
  {
    hide Sound;
  }

  lemma MovedOn(h: Guards, h0: Guards, page: PageId, to: PageId)
    requires Holds(h, h0, [], page) && to in h.pages
    ensures page in Opened(h, to).open && Holds(Closed(Opened(h, to), page), h0, [], to)
    ensures Closed(Opened(h, to), page).peak == Larger(h.peak, h0.count + 2)
  {
    hide Sound;
  }

  lemma LastClosed(h: Guards, h0: Guards, held: seq<PageId>, page: PageId)
    requires Holds(h, h0, held, page)
    ensures page in h.open && h.count == h0.count + |held| + 1 && h.pages == h0.pages
    ensures Closed(h, page).open == h0.open + multiset(held) && Closed(h, page).count == h0.count + |held|
    ensures Closed(h, page).pages == h0.pages && Closed(h, page).peak == h.peak
    ensures held == [] ==> Closed(h, page).open == h0.open
  {
    hide Sound;
  }

  lemma SameHeld(h: Guards, h': Guards, h0: Guards, held: seq<PageId>, page: PageId)
    requires Holds(h, h0, held, page) && h'.open == h.open && h'.pages == h.pages && h'.count == h.count
    ensures page in h'.open && Closed(h', page).open == h0.open + multiset(held) && Closed(h', page).count == h0.count + |held|
    ensures Closed(h', page).pages == h0.pages && Closed(h', page).peak == h'.peak
  {
    hide Sound;
  }

  lemma StillOn(rows: seq<Rid>, n: nat, pages: set<PageId>)
    requires OnPages(rows, pages) && n <= |rows|
    ensures OnPages(rows[n..], pages)
  {
  }

  method CloseAll(pages: seq<PageId>, ghost h: Guards, ghost rest: multiset<PageId>) returns (ghost h': Guards)
    requires h.open == rest + multiset(pages)
    ensures h'.open == rest && h'.count == h.count - |pages| && h'.pages == h.pages && h'.peak == h.peak
  {
    hide Sound;
    h' := h;
    var i := 0;
    assert pages[0..] == pages;
    while i < |pages|
      invariant 0 <= i <= |pages| && h'.open == rest + multiset(pages[i..])
      invariant h'.count == h.count - i && h'.pages == h.pages && h'.peak == h.peak
    {
      assert pages[i..] == [pages[i]] + pages[i + 1..];
      h' := Closed(h', pages[i]);
      i := i + 1;
    }
  }

  /** The guards of a scan of the right chain: one, and a second one while it goes from page to page. */
  ghost function ScanPeak(right: seq<Rid>, page: PageId): nat {
    if Switches(right, page) > 0 then 2 else 1
  }

  /** The guards of one block: those of its pages and those of the scan. */
  ghost function BlockPeak(block: seq<Rid>, page: PageId, right: seq<Rid>, rightPage: PageId): nat {
    1 + Switches(block, page) + ScanPeak(right, rightPage)
  }

  /** The guards a whole join holds at once at most: those of its largest block, unless it stops before. */
  ghost function JoinPeak(left: seq<Rid>, right: seq<Rid>, rightPage: PageId, size: nat, readable: bool): nat
    decreases |left|
  {
    if left == [] then 0
    else if size == 0 then 1
    else
      var n := BlockRows(left, left[0].pageId, 1, size);
      if !readable then 1 + Switches(left[..n], left[0].pageId)
      else Larger(BlockPeak(left[..n], left[0].pageId, right, rightPage), JoinPeak(left[n..], right, rightPage, size, readable))
  }

  /** Three pages more than the block size are enough. */
  lemma {:induction false} JoinPeakFits(left: seq<Rid>, right: seq<Rid>, rightPage: PageId, size: nat, readable: bool)
    ensures JoinPeak(left, right, rightPage, size, readable) <= size + 3
    ensures Switches(right, rightPage) == 0 ==> JoinPeak(left, right, rightPage, size, readable) <= size + 2
    decreases |left|
  {
    if left != [] && size > 0 {
      var n := BlockRows(left, left[0].pageId, 1, size);
      BlockEnds(left, left[0].pageId, 1, size);
      JoinPeakFits(left[n..], right, rightPage, size, readable);
    }
  }

  /** A left chain that visits more pages than the block size needs all of them. */
  lemma JoinPeakReached(left: seq<Rid>, right: seq<Rid>, rightPage: PageId, size: nat)
    requires size >= 1 && left != [] && Switches(left, left[0].pageId) >= size && Switches(right, rightPage) > 0
    ensures JoinPeak(left, right, rightPage, size, true) == size + 3
  {
    var n := BlockRows(left, left[0].pageId, 1, size);
    BlockEnds(left, left[0].pageId, 1, size);
    if n == |left| {
      assert left[..n] == left;
    }
    JoinPeakFits(left, right, rightPage, size, true);
  }

  // ----- the executor -----

  /** The entries of a block say where its rows are and what their columns hold. */
  ghost predicate Describes(items: seq<Entry>, t: Table, rows: seq<Rid>) {
    |items| == |rows| && forall i :: 0 <= i < |rows| ==> rows[i] in t && items[i] == Entry(t[rows[i]].col1, rows[i])
  }

  lemma Regroup(a: seq<Match>, b: seq<Match>, c: seq<Match>)
    ensures a + (b + c) == (a + b) + c
  {
  }

  ghost predicate Adds(done: seq<Match>, more: seq<Match>, all: seq<Match>) {
    done + more == all
  }

  lemma Added(a: seq<Match>, b: seq<Match>, all: seq<Match>)
    ensures Adds(a, b, all) <==> a + b == all
    ensures Adds(a, [], all) <==> a == all
  {
    assert a + [] == a;
  }

  lemma MoreAdded(a: seq<Match>, b: seq<Match>, c: seq<Match>, all: seq<Match>)
    requires Adds(a, b + c, all)
    ensures Adds(a + b, c, all) && (c == [] ==> a + b == all)
  {
    Regroup(a, b, c);
  }

  lemma NoRows(rows: seq<Rid>, page: PageId)
    ensures BlockRows(rows, page, 1, 0) == 0
  {
  }

  lemma NoBlocks(lt: Table, rt: Table, size: nat, right: seq<Rid>)
    ensures size >= 1 ==> JoinBlocks(lt, rt, Blocks([], size), right) == []
  {
  }

  lemma FirstBlock(lt: Table, rt: Table, rows: seq<Rid>, size: nat, right: seq<Rid>)
    requires size >= 1 && rows != []
    ensures var n := BlockRows(rows, rows[0].pageId, 1, size);
      && n > 0
      && JoinBlocks(lt, rt, Blocks(rows, size), right) == BlockJoin(lt, rt, rows[..n], right) + JoinBlocks(lt, rt, Blocks(rows[n..], size), right)
  {
    var n := BlockRows(rows, rows[0].pageId, 1, size);
    assert Blocks(rows, size)[1..] == Blocks(rows[n..], size);
  }

  /** The row at the front of what is left of a chain. */
  lemma NextRow(t: Table, curr: Rid, rows: seq<Rid>, i: nat)
    requires i <= |rows| && Linked(t, curr, rows[i..])
    ensures curr.IsValid() <==> i < |rows|
    ensures i < |rows| ==> rows[i] == curr && curr in t && Linked(t, t[curr].next, rows[i + 1..])
  {
    if i < |rows| {
      assert rows[i..][0] == rows[i] && rows[i..][1..] == rows[i + 1..];
    }
  }

  lemma NextProbe(lt: Table, rt: Table, block: seq<Rid>, rows: seq<Rid>, i: nat)
    requires i < |rows|
    ensures BlockJoin(lt, rt, block, rows[i..]) == Probe(lt, rt, block, rows[i]) + BlockJoin(lt, rt, block, rows[i + 1..])
  {
    assert rows[i..][0] == rows[i] && rows[i..][1..] == rows[i + 1..];
  }

  lemma NoProbe(lt: Table, rt: Table, block: seq<Rid>)
    ensures BlockJoin(lt, rt, block, []) == []
  {
  }

  lemma NextSwitch(rows: seq<Rid>, i: nat, n: nat, page: PageId)
    requires i < n <= |rows|
    ensures Switches(rows[i..n], page) == (if rows[i].pageId == page then 0 else 1) + Switches(rows[i + 1..n], rows[i].pageId)
  {
    assert rows[i..n][0] == rows[i] && rows[i..n][1..] == rows[i + 1..n];
  }

  lemma NoSwitch(rows: seq<Rid>, n: nat, page: PageId)
    requires n <= |rows|
    ensures Switches(rows[n..n], page) == 0 && Switches(rows[..0], page) == 0
  {
  }

  /** The peak `goal` is what the rest of the scan leads to. */
  ghost predicate Reaches(peak: int, count: int, rows: seq<Rid>, page: PageId, goal: int) {
    peak >= count + 1 && Larger(peak, count + ScanPeak(rows, page)) == goal
  }

  lemma ScanStart(rows: seq<Rid>, page: PageId, count: int, peak: int)
    ensures Reaches(Larger(peak, count + 1), count, rows, page, Larger(peak, count + ScanPeak(rows, page)))
  {
  }

  lemma ScanTurn(rows: seq<Rid>, j: nat, page: PageId, count: int, peak: int, goal: int)
    requires j < |rows| && Reaches(peak, count, rows[j..], page, goal)
    ensures rows[j].pageId == page ==> Reaches(peak, count, rows[j + 1..], page, goal)
    ensures rows[j].pageId != page ==> Reaches(Larger(peak, count + 2), count, rows[j + 1..], rows[j].pageId, goal)
  {
    assert rows[j..][0] == rows[j] && rows[j..][1..] == rows[j + 1..];
  }

  lemma ScanEnd(page: PageId, count: int, peak: int, goal: int)
    requires Reaches(peak, count, [], page, goal)
    ensures peak == goal
  {
  }

  lemma NextTaken(rows: seq<Rid>, i: nat, page: PageId, count: int, size: nat)
    requires i <= |rows|
    ensures BlockRows(rows[i..], page, count, size) ==
      if i == |rows| || count > size then 0
      else 1 + BlockRows(rows[i + 1..], rows[i].pageId, if rows[i].pageId == page then count else count + 1, size)
    ensures i + BlockRows(rows[i..], page, count, size) <= |rows|
  {
    if i < |rows| {
      assert rows[i..][0] == rows[i] && rows[i..][1..] == rows[i + 1..];
    }
  }

  lemma NothingYet(t: Table, rows: seq<Rid>)
    ensures Describes([], t, rows[..0])
  {
  }

  lemma OneMore(items: seq<Entry>, t: Table, rows: seq<Rid>, i: nat)
    requires i < |rows| && rows[i] in t && Describes(items, t, rows[..i])
    ensures Describes(items + [Entry(t[rows[i]].col1, rows[i])], t, rows[..i + 1])
  {
  }

  class BlockNestedLoopJoin {
    var results: seq<Match>

    /**
     * Takes one block off the left chain. `page` is the page of the current guard, `held` are those of the guards
     * moved into the block's vector before.
     */
    method ReadBlock(left: Table, start: Rid, size: nat, ghost rows: seq<Rid>, ghost h: Guards)
      returns (items: seq<Entry>, curr: Rid, held: seq<PageId>, page: PageId, ghost h': Guards)
      requires Linked(left, start, rows) && rows != [] && OnPages(rows, h.pages)
      ensures var n := BlockRows(rows, start.pageId, 1, size);
        && Describes(items, left, rows[..n]) && |items| == n && Linked(left, curr, rows[n..])
        && |held| == Switches(rows[..n], start.pageId)
      ensures Holds(h', h, held, page) && h'.peak == Larger(h.peak, h.count + |held| + 1)
    {
      hide Sound, Opened, Closed, Holds, Larger, Linked, Describes, BlockRows, Switches;
      assert rows[0..] == rows;
      NextRow(left, start, rows, 0);
      items, curr, held := [], start, [];
      NothingYet(left, rows);
      FirstOpened(h, start.pageId);
      h' := Opened(h, start.pageId);
      page := start.pageId;
      var count := 1;
      ghost var n := BlockRows(rows, start.pageId, 1, size);
      ghost var i := 0;
      while count <= size && curr.IsValid()
        invariant i <= n <= |rows| && n == i + BlockRows(rows[i..], page, count, size)
        invariant Linked(left, curr, rows[i..]) && Describes(items, left, rows[..i])
        invariant |items| == i && |held| + 1 == count && count + Switches(rows[i..n], page) == 1 + Switches(rows[..n], start.pageId)
        invariant Holds(h', h, held, page) && h'.pages == h.pages && h'.peak == Larger(h.peak, h.count + |held| + 1)
        decreases |rows| - i
      {
        NextRow(left, curr, rows, i);
        NextTaken(rows, i, page, count, size);
        NextSwitch(rows, i, n, page);
        OneMore(items, left, rows, i);
        if page != curr.pageId {
          NextOpened(h', h, held, page, curr.pageId);
          held := held + [page];
          h' := Opened(h', curr.pageId);
          page := curr.pageId;
          count := count + 1;
        }
        LastClosed(h', h, held, page);
        var row := RowOn(left, page, curr.slot, h');
        items := items + [Entry(row.col1, curr)];
        curr := row.next;
        i := i + 1;
        NextTaken(rows, i, page, count, size);
      }
      NextRow(left, curr, rows, i);
      NextTaken(rows, i, page, count, size);
      NoSwitch(rows, n, page);
    }

    /** Compares one right row, whose column holds `col1`, with the whole block. */
    method ProbeRow(items: seq<Entry>, curr: Rid, col1: int, ghost right: Table, ghost left: Table, ghost block: seq<Rid>)
      requires Describes(items, left, block) && curr in right && col1 == right[curr].col1
      modifies this
      ensures results == old(results) + Probe(left, right, block, curr)
    {
      var i := 0;
      while i < |items|
        invariant 0 <= i <= |items|
        invariant results + Probe(left, right, block[i..], curr) == old(results) + Probe(left, right, block, curr)
      {
        assert block[i..][0] == block[i] && block[i..][1..] == block[i + 1..];
        Regroup(results, Pair(left, right, block[i], curr), Probe(left, right, block[i + 1..], curr));
        if items[i].col1 == col1 {
          results := results + [(items[i].rid, curr)];
        }
        i := i + 1;
      }
      assert block[i..] == [];
    }

    /** The guard of the row's page: if it is another one, it is taken before the old guard goes. */
    static method TurnTo(page: PageId, to: PageId, ghost rows: seq<Rid>, ghost j: nat, ghost h0: Guards, ghost goal: int, ghost h: Guards)
      returns (page': PageId, ghost h': Guards)
      requires j < |rows| && rows[j].pageId == to && to in h.pages
      requires Holds(h, h0, [], page) && Reaches(h.peak, h0.count, rows[j..], page, goal)
      ensures page' == to && to in h'.open && h'.pages == h.pages
      ensures Holds(h', h0, [], to) && Reaches(h'.peak, h0.count, rows[j + 1..], to, goal)
    {
      hide Sound, Reaches, Holds, Opened, Closed, Larger;
      ScanTurn(rows, j, page, h0.count, h.peak, goal);
      page', h' := page, h;
      if page != to {
        MovedOn(h, h0, page, to);
        h' := Closed(Opened(h, to), page);
        page' := to;
      }
      LastClosed(h', h0, [], page');
    }

    /** Scans the right chain once, comparing every row with the whole block. `ok` is false where `ReadPage` throws. */
    method ScanRight(items: seq<Entry>, right: Table, start: Rid, pages: set<PageId>, ghost left: Table, ghost block: seq<Rid>, ghost rows: seq<Rid>, ghost h: Guards)
      returns (ok: bool, ghost h': Guards)
      requires Describes(items, left, block) && Linked(right, start, rows) && OnPages(rows, pages) && h.pages == pages
      modifies this
      ensures ok <==> start.pageId in pages
      ensures results == if ok then old(results) + BlockJoin(left, right, block, rows) else old(results)
      ensures h'.open == h.open && h'.pages == h.pages && h'.count == h.count
      ensures h'.peak == if !ok then h.peak else Larger(h.peak, h.count + ScanPeak(rows, start.pageId))
    {
      hide Adds, Sound, Probe, BlockJoin, Switches, ScanPeak, Reaches, Linked, Describes, Opened, Closed, Holds, Larger;
      h' := h;
      if start.pageId !in pages {
        return false, h;
      }
      var curr, page := start, start.pageId;
      FirstOpened(h, page);
      h' := Opened(h, page);
      ghost var j, goal := 0, Larger(h.peak, h.count + ScanPeak(rows, page));
      ghost var all := results + BlockJoin(left, right, block, rows);
      Added(results, BlockJoin(left, right, block, rows), all);
      assert rows[0..] == rows;
      ScanStart(rows, page, h.count, h.peak);
      while curr.IsValid()
        invariant j <= |rows| && Linked(right, curr, rows[j..])
        invariant Adds(results, BlockJoin(left, right, block, rows[j..]), all)
        invariant Holds(h', h, [], page) && h'.pages == h.pages
        invariant Reaches(h'.peak, h.count, rows[j..], page, goal)
        decreases |rows| - j
      {
        NextRow(right, curr, rows, j);
        NextProbe(left, right, block, rows, j);
        page, h' := TurnTo(page, curr.pageId, rows, j, h, goal, h');
        var row := RowOn(right, page, curr.slot, h');
        ghost var before := results;
        ProbeRow(items, curr, row.col1, right, left, block);
        MoreAdded(before, Probe(left, right, block, curr), BlockJoin(left, right, block, rows[j + 1..]), all);
        curr := row.next;
        j := j + 1;
      }
      NextRow(right, curr, rows, j);
      NoProbe(left, right, block);
      Added(results, [], all);
      assert rows[j..] == [];
      ScanEnd(page, h.count, h'.peak, goal);
      LastClosed(h', h, [], page);
      h' := Closed(h', page);
      ok := true;
    }

    /** One turn of the outer loop: a block is read and, unless it is empty, joined with the right chain. */
    method JoinBlock(left: Table, right: Table, start: Rid, rightStart: Rid, size: nat, pages: set<PageId>,
                     ghost rows: seq<Rid>, ghost r: seq<Rid>, ghost h: Guards)
      returns (empty: bool, ok: bool, next: Rid, ghost h': Guards)
      requires Linked(left, start, rows) && rows != [] && OnPages(rows, pages) && h.pages == pages && h.open == multiset{} && h.count == 0
      requires Linked(right, rightStart, r) && OnPages(r, pages)
      modifies this
      ensures var n := BlockRows(rows, start.pageId, 1, size);
        && (empty <==> n == 0) && (ok <==> !empty && rightStart.pageId in pages) && Linked(left, next, rows[n..])
        && results == (if ok then old(results) + BlockJoin(left, right, rows[..n], r) else old(results))
        && h'.peak == Larger(h.peak, 1 + Switches(rows[..n], start.pageId) + if ok then ScanPeak(r, rightStart.pageId) else 0)
      ensures h'.open == multiset{} && h'.count == 0 && h'.pages == pages
    {
      hide BlockRows, BlockJoin, Switches, Sound, ScanPeak, Describes, Opened, Closed, Holds, Linked, OnPages;
      ghost var n := BlockRows(rows, start.pageId, 1, size);
      var items, held, page;
      items, next, held, page, h' := ReadBlock(left, start, size, rows, h);
      LastClosed(h', h, held, page);
      empty, ok := items == [], false;
      if !empty {
        ghost var h1 := h';
        ok, h' := ScanRight(items, right, rightStart, pages, left, rows[..n], r, h');
        SameHeld(h1, h', h, held, page);
      }
      h' := Closed(h', page);
      h' := CloseAll(held, h', h.open);
    }

    /**
     * Joins the chain `l` with the chain `r`. It fails exactly when there is a block to join and the page of
     * `rightStart` cannot be read, which is how an empty right side given by the default record id ends. `log` is
     * what it opened and closed: no guard is left, however it ends.
     */
    method ExecuteJoin(left: Table, right: Table, leftStart: Rid, rightStart: Rid, size: nat, pages: set<PageId>, ghost l: seq<Rid>, ghost r: seq<Rid>)
      returns (ok: bool, ghost log: seq<Event>)
      requires Linked(left, leftStart, l) && Linked(right, rightStart, r) && OnPages(l, pages) && OnPages(r, pages)
      modifies this
      ensures ok <==> l == [] || size == 0 || rightStart.pageId in pages
      ensures results == if ok && size >= 1 then JoinBlocks(left, right, Blocks(l, size), r) else []
      ensures (forall row :: row in l ==> row in left) && (forall row :: row in r ==> row in right)
      ensures forall m: Match ::
        multiset(results)[m] == if ok && size >= 1 && m.0 in l && m.1 in r && left[m.0].col1 == right[m.1].col1 then 1 else 0
      ensures Proper(pages, log) && OpenAfter(log) == multiset{}
      ensures MostOpen(log) == JoinPeak(l, r, rightStart.pageId, size, rightStart.pageId in pages)
    {
      hide BlockRows, BlockJoin, JoinBlocks, Blocks, Switches, Sound, JoinPeak, ScanPeak, Linked, OnPages, Along, Larger, Proper, OpenAfter, MostOpen;
      results := [];
      ghost var readable := rightStart.pageId in pages;
      ghost var h := NoGuards(pages);
      var curr := leftStart;
      ghost var rest := l;
      ChainEnds(left, curr, rest);
      AlongStart(left, right, l, r, rightStart.pageId, size, readable);
      while curr.IsValid()
        invariant Linked(left, curr, rest) && OnPages(rest, pages) && (curr.IsValid() <==> rest != []) && (rest != [] ==> rest[0] == curr)
        invariant h.open == multiset{} && h.count == 0 && h.pages == pages
        invariant Along(left, right, l, rest, r, rightStart.pageId, size, readable, results, h.peak)
        decreases |rest|
      {
        BlockStep(left, right, l, rest, r, rightStart.pageId, size, readable, results, h.peak);
        ghost var n := BlockRows(rest, curr.pageId, 1, size);
        var empty, next;
        empty, ok, next, h := JoinBlock(left, right, curr, rightStart, size, pages, rest, r, h);
        if empty || !ok {
          ReadOff(h);
          JoinedIs(left, right, leftStart, rightStart, l, r, size, empty, results);
          return empty, h.log;
        }
        StillOn(rest, n, pages);
        curr, rest := next, rest[n..];
        ChainEnds(left, curr, rest);
      }
      AlongEnd(left, right, l, r, rightStart.pageId, size, readable, results, h.peak);
      ReadOff(h);
      JoinedIs(left, right, leftStart, rightStart, l, r, size, true, results);
      return true, h.log;
    }
  }

  /** What the outer loop keeps: with the blocks still to come, the results and the peak are those of the whole join. */
  ghost predicate Along(lt: Table, rt: Table, l: seq<Rid>, rest: seq<Rid>, r: seq<Rid>, rightPage: PageId, size: nat, readable: bool,
                        results: seq<Match>, peak: int) {
    && (size == 0 ==> rest == l) && (rest != l ==> readable) && (rest == l ==> results == [])
    && (size >= 1 ==> results + JoinBlocks(lt, rt, Blocks(rest, size), r) == JoinBlocks(lt, rt, Blocks(l, size), r))
    && peak >= 0 && Larger(peak, JoinPeak(rest, r, rightPage, size, readable)) == JoinPeak(l, r, rightPage, size, readable)
  }

  lemma AlongStart(lt: Table, rt: Table, l: seq<Rid>, r: seq<Rid>, rightPage: PageId, size: nat, readable: bool)
    ensures Along(lt, rt, l, l, r, rightPage, size, readable, [], 0)
  {
    if size >= 1 {
      var all := JoinBlocks(lt, rt, Blocks(l, size), r);
      assert [] + all == all;
    }
  }

  lemma BlockStep(lt: Table, rt: Table, l: seq<Rid>, rest: seq<Rid>, r: seq<Rid>, rightPage: PageId, size: nat, readable: bool,
                  results: seq<Match>, peak: int)
    requires Along(lt, rt, l, rest, r, rightPage, size, readable, results, peak) && rest != []
    ensures var n, page := BlockRows(rest, rest[0].pageId, 1, size), rest[0].pageId;
      var guards := 1 + Switches(rest[..n], page);
      && (n == 0 <==> size == 0)
      && (n == 0 || !readable ==> results == [] && l != [] && Larger(peak, guards) == JoinPeak(l, r, rightPage, size, readable))
      && (n > 0 && readable ==>
            Along(lt, rt, l, rest[n..], r, rightPage, size, readable, results + BlockJoin(lt, rt, rest[..n], r),
                  Larger(peak, guards + ScanPeak(r, rightPage))))
  {
    hide BlockRows, BlockJoin, JoinBlocks, Blocks, Switches, JoinPeak, ScanPeak;
    var n := BlockRows(rest, rest[0].pageId, 1, size);
    PeakStep(rest, r, rightPage, size, readable);
    NoRows(rest, rest[0].pageId);
    if size >= 1 {
      FirstBlock(lt, rt, rest, size, r);
      Regroup(results, BlockJoin(lt, rt, rest[..n], r), JoinBlocks(lt, rt, Blocks(rest[n..], size), r));
    }
  }

  lemma AlongEnd(lt: Table, rt: Table, l: seq<Rid>, r: seq<Rid>, rightPage: PageId, size: nat, readable: bool, results: seq<Match>, peak: int)
    requires Along(lt, rt, l, [], r, rightPage, size, readable, results, peak)
    ensures l == [] || (size >= 1 && readable)
    ensures results == if size >= 1 then JoinBlocks(lt, rt, Blocks(l, size), r) else []
    ensures peak == JoinPeak(l, r, rightPage, size, readable)
  {
    NoPeak(r, rightPage, size, readable);
    NoBlocks(lt, rt, size, r);
    assert results + [] == results;
  }

  lemma ChainEnds(t: Table, curr: Rid, rows: seq<Rid>)
    requires Linked(t, curr, rows)
    ensures curr.IsValid() <==> rows != []
    ensures rows != [] ==> rows[0] == curr
  {
  }

  /** What one block adds to the peak. */
  lemma PeakStep(left: seq<Rid>, right: seq<Rid>, rightPage: PageId, size: nat, readable: bool)
    requires left != []
    ensures var n, page := BlockRows(left, left[0].pageId, 1, size), left[0].pageId;
      var guards := 1 + Switches(left[..n], page);
      && (size == 0 ==> n == 0 && guards == 1)
      && JoinPeak(left, right, rightPage, size, readable) ==
           if size == 0 || !readable then guards
           else Larger(guards + ScanPeak(right, rightPage), JoinPeak(left[n..], right, rightPage, size, readable))
  {
  }

  lemma NoPeak(right: seq<Rid>, rightPage: PageId, size: nat, readable: bool)
    ensures JoinPeak([], right, rightPage, size, readable) == 0
  {
  }
}
