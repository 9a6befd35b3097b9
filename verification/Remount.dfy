/** The free lists across a clean unmount and mount (bbuild.c): they are saved to log pages taken from themselves,
    read back, and the pages given back. */
module Remount {
  import opened Ranges
  import opened FreeSpace
  import opened Balloc
  import opened BallocLists
  import opened RangeLog
  import Bbuild
  import L = Layout

  function RunsOf(lists: seq<FreeList>): (out: seq<seq<Range>>)
    reads lists
    ensures |out| == |lists| && forall c :: 0 <= c < |lists| ==> out[c] == lists[c].runs
  {
    if lists == [] then [] else RunsOf(lists[..|lists| - 1]) + [lists[|lists| - 1].runs]
  }

  /** The ranges share no block. */
  predicate Disjoint(rs: seq<Range>) {
    forall i, j :: 0 <= i < j < |rs| ==> Span(rs[i]) !! Span(rs[j])
  }

  predicate Nonempty(rs: seq<Range>) {
    forall i :: 0 <= i < |rs| ==> rs[i].low <= rs[i].high
  }

  lemma BlocksMore(rs: seq<Range>, r: Range)
    ensures Blocks(rs + [r]) == Blocks(rs) + Span(r) && Total(rs + [r]) == Total(rs) + Size(r)
  {
    BlocksConcat(rs, [r]);
    BlocksOne(r);
  }

  lemma SpanInBlocks(rs: seq<Range>, i: nat)
    requires i < |rs|
    ensures Span(rs[i]) <= Blocks(rs)
  {
    hide Blocks;
    forall b | b in Span(rs[i])
      ensures b in Blocks(rs)
    {
      BlocksAt(rs, i, b);
    }
  }

  /** A range apart from all blocks covered so far keeps the list disjoint. */
  lemma DisjointMore(rs: seq<Range>, r: Range)
    requires Disjoint(rs) && Span(r) !! Blocks(rs)
    ensures Disjoint(rs + [r])
  {
    hide Blocks, Span;
    var out := rs + [r];
    forall i, j | 0 <= i < j < |out|
      ensures Span(out[i]) !! Span(out[j])
    {
      if j == |rs| {
        SpanInBlocks(rs, i);
      }
    }
  }

  // ----- where granted pages lie -----

  /** The range lies in the area of list c. */
  predicate Home(lists: seq<FreeList>, r: Range, c: nat) {
    c < |lists| && lists[c].start <= r.low <= r.high <= lists[c].end
  }

  ghost predicate InOne(lists: seq<FreeList>, r: Range) {
    exists c: nat :: Home(lists, r, c)
  }

  /** The range lies in one area and stops before its last block. */
  ghost predicate Inner(lists: seq<FreeList>, r: Range) {
    exists c: nat :: Home(lists, r, c) && r.high < lists[c].end
  }

  /** Every piece lies in one area, and only the last one may hold its area's last block. */
  ghost predicate Placed(lists: seq<FreeList>, grants: seq<Range>) {
    && (forall i :: 0 <= i < |grants| ==> InOne(lists, grants[i]))
    && (forall i :: 0 <= i < |grants| - 1 ==> Inner(lists, grants[i]))
  }

  ghost predicate AllInner(lists: seq<FreeList>, grants: seq<Range>) {
    forall i :: 0 <= i < |grants| ==> Inner(lists, grants[i])
  }

  lemma PlacedMore(lists: seq<FreeList>, grants: seq<Range>, r: Range, c: nat)
    requires AllInner(lists, grants) && Home(lists, r, c)
    ensures Placed(lists, grants + [r])
    ensures r.high < lists[c].end ==> AllInner(lists, grants + [r])
  {
    var out := grants + [r];
    forall i | 0 <= i < |out|
      ensures InOne(lists, out[i])
    {
      if i < |grants| {
        assert Inner(lists, grants[i]);
      } else {
        assert Home(lists, out[i], c);
      }
    }
  }

  /** Two pieces that follow each other lie in one area, unless the first holds its area's last block. */
  lemma Follows(lists: seq<FreeList>, a: Range, b: Range)
    requires BallocLists.Apart(lists) && Inner(lists, a) && InOne(lists, b) && b.low == a.high + 1
    ensures InOne(lists, Range(a.low, b.high))
    ensures Inner(lists, b) ==> Inner(lists, Range(a.low, b.high))
  {
    var c: nat :| Home(lists, a, c) && a.high < lists[c].end;
    assert forall d: nat :: Home(lists, b, d) ==> d == c;
    var d: nat :| Home(lists, b, d);
    assert Home(lists, Range(a.low, b.high), c);
  }

  // ----- room for the logs -----

  /** The last range of the list holds more blocks than asked for and the dead zone together. */
  predicate Roomy(runs: seq<Range>, need: nat) {
    runs != [] && Size(runs[|runs| - 1]) > need + DEAD_ZONE_BLOCKS
  }

  ghost predicate AllRoomy(lists: seq<FreeList>, need: nat)
    reads lists
  {
    forall i :: 0 <= i < |lists| ==> Roomy(lists[i].runs, need)
  }

  /** A list with room serves its own requests for log pages and refuses none. */
  lemma RoomyServes(list: FreeList, need: nat, num: nat)
    requires list.Valid() && Roomy(list.runs, need) && num <= need
    ensures !list.NotEnough(num, true) && !list.Refused(false, true, num)
  {
    hide Blocks, Coalesced, Distinct;
    var n := |list.runs| - 1;
    DerefEnds(list.ids, list.nextId);
    TotalLast(list.runs);
    FirstBelow(list.runs);
  }

  lemma TotalLast(rs: seq<Range>)
    requires rs != [] && Coalesced(rs)
    ensures Total(rs) >= Size(rs[|rs| - 1])
  {}

  lemma FirstBelow(rs: seq<Range>)
    requires rs != [] && Coalesced(rs)
    ensures rs[0].low <= rs[|rs| - 1].low
  {}

  /** Log pages are taken from the front, so what is left has room for the rest. */
  lemma RoomyLeft(was: seq<Range>, now: seq<Range>, need: nat, num: nat, n: nat, b: nat)
    requires Coalesced(was) && Coalesced(now) && Roomy(was, need) && num <= need
    requires Given(was, false, true, num, false, n, b) && Blocks(now) == Blocks(was) - Span(Range(b, b + n - 1))
    ensures n <= num && Roomy(now, need - n)
  {
    hide Blocks, Given, Span, Coalesced;
    PlainGiven(was, true, num, false, n, b);
    CutExact(was, 0, b, b + n - 1);
    CutCoalesced(was, 0, b, b + n - 1);
    CoalescedUnique(now, Cut(was, 0, b, b + n - 1));
  }

  /** not_enough_blocks for log pages, told by the ranges. */
  predicate Short(runs: seq<Range>, num: nat) {
    Total(runs) < num || runs == [] || runs[|runs| - 1].high - runs[0].low < DEAD_ZONE_BLOCKS
  }

  predicate MostBlocks(runs: seq<seq<Range>>, c: nat) {
    && c < |runs| && (forall i :: 0 <= i < |runs| ==> Total(runs[i]) <= Total(runs[c]))
    && forall i :: 0 <= i < c ==> Total(runs[i]) < Total(runs[c])
  }

  /** A request for log pages on a CPU is refused: its own list is short of blocks, and so is the fullest. */
  ghost predicate Refuses(runs: seq<seq<Range>>, cpu: nat, num: nat) {
    cpu < |runs| && Short(runs[cpu], num) && exists c: nat :: MostBlocks(runs, c) && Short(runs[c], num)
  }

  lemma ShortIs(list: FreeList, num: nat)
    requires list.Valid()
    ensures list.NotEnough(num, true) <==> Short(list.runs, num)
    ensures list.Refused(false, true, num) <==> Short(list.runs, num)
  {
    hide Blocks, Coalesced, Distinct, Total;
    if list.runs != [] {
      DerefEnds(list.ids, list.nextId);
    }
  }

  lemma MostIs(lists: seq<FreeList>, c: nat)
    requires Good(lists) && Fullest(lists, c)
    ensures MostBlocks(RunsOf(lists), c)
  {
    hide FreeList.Names, FreeList.Tree, Total;
    assert forall i :: 0 <= i < |lists| ==> lists[i].Valid();
  }

  // ----- saving -----

  /** nova_allocate_inode_log_pages: pages come in as few pieces as the allocator manages; it falls short if and only
      if a request is refused. The k-th request is made on CPU `at(k)`. */
  method AllocatePages(lists: seq<FreeList>, at: nat -> nat, num: nat, ghost spare: nat)
    returns (grants: seq<Range>, ok: bool)
    requires Good(lists) && num < 0x1_0000_0000 && forall k :: at(k) < |lists|
    modifies lists
    ensures Good(lists) && Nonempty(grants) && Disjoint(grants) && Placed(lists, grants)
    ensures Blocks(grants) <= old(AllFree(lists)) && AllFree(lists) == old(AllFree(lists)) - Blocks(grants)
    ensures (ok <==> num > 0 && Total(grants) == num) && Total(grants) <= num
    ensures !ok && num > 0 ==> Refuses(RunsOf(lists), at(|grants|), num - Total(grants))
    ensures old(AllRoomy(lists, num + spare)) ==> (num > 0 ==> ok) && AllRoomy(lists, spare)
    ensures forall i :: 0 <= i < |lists| ==> lists[i].numNodes <= old(lists[i].numNodes)
  {
    hide Blocks, Total, Span, Good, AllFree, Disjoint, Nonempty, Placed, AllInner, AllRoomy, Refuses;
    grants := [];
    var left: nat := num;
    NoGrants();
    NonePlaced(lists);
    while left > 0
      invariant left <= num && Good(lists) && Nonempty(grants) && Disjoint(grants) && Total(grants) + left == num
      invariant Placed(lists, grants) && (left > 0 ==> AllInner(lists, grants))
      invariant Blocks(grants) <= old(AllFree(lists)) && AllFree(lists) == old(AllFree(lists)) - Blocks(grants)
      invariant old(AllRoomy(lists, num + spare)) ==> AllRoomy(lists, left + spare)
      invariant forall i :: 0 <= i < |lists| ==> lists[i].numNodes <= old(lists[i].numNodes)
      decreases left
    {
      var got, b, home := TakePages(lists, at(|grants|), left, spare);
      if got <= 0 {
        return grants, false;
      }
      var r := Range(b, b + got - 1);
      BlocksMore(grants, r);
      DisjointMore(grants, r);
      NonemptyMore(grants, r);
      PlacedMore(lists, grants, r, home);
      grants := grants + [r];
      left := left - got;
    }
    ok := num > 0;
  }

  /** One request for log pages: refused, or answered with a range of one list that reaches its end only if it is all
      that was asked for. */
  method TakePages(lists: seq<FreeList>, cpu: nat, num: nat, ghost spare: nat) returns (n: int, b: nat, ghost home: nat)
    requires Good(lists) && cpu < |lists| && 0 < num < 0x1_0000_0000
    modifies lists
    ensures Good(lists)
    ensures n <= 0 ==> unchanged(lists) && Refuses(RunsOf(lists), cpu, num)
    ensures n > 0 ==>
              && n <= num && Home(lists, Range(b, b + n - 1), home) && (n < num ==> b + n - 1 < lists[home].end)
              && Span(Range(b, b + n - 1)) <= old(AllFree(lists))
              && AllFree(lists) == old(AllFree(lists)) - Span(Range(b, b + n - 1))
    ensures old(AllRoomy(lists, num + spare)) ==> n > 0 && AllRoomy(lists, num - n + spare)
    ensures forall i :: 0 <= i < |lists| ==> lists[i].numNodes <= old(lists[i].numNodes)
  {
    hide Blocks, Total, Span, Good, AllFree, AllRoomy, Refuses, Answers, Given, Coalesced, Within, FreeList.Valid;
    ghost var was := RunsOf(lists);
    ghost var roomy := AllRoomy(lists, num + spare);
    if roomy {
      NotRefused(lists, cpu, num, num + spare);
    }
    RunsSound(lists);
    ghost var got;
    n, b, got, home := NewBlocks(lists, cpu, num, 1, true, false);
    if n <= 0 {
      StillRefuses(lists, cpu, num, n, got, b, home);
    } else if roomy {
      RoomyStep(lists, was, home, num + spare, num, n, b);
    }
  }

  lemma RoomyStep(lists: seq<FreeList>, was: seq<seq<Range>>, home: nat, need: nat, num: nat, n: nat, b: nat)
    requires Good(lists) && |was| == |lists| && home < |lists| && num <= need
    requires forall i :: 0 <= i < |was| ==> Roomy(was[i], need)
    requires forall i :: 0 <= i < |lists| && i != home ==> lists[i].runs == was[i]
    requires Coalesced(was[home]) && Given(was[home], false, true, num, false, n, b)
    requires Blocks(lists[home].runs) == Blocks(was[home]) - Span(Range(b, b + n - 1))
    ensures n <= num && AllRoomy(lists, need - n)
  {
    hide Given, Blocks, Span;
    RoomyLeft(was[home], lists[home].runs, need, num, n, b);
  }

  lemma StillRefuses(lists: seq<FreeList>, cpu: nat, num: nat, ret: int, got: nat, b: nat, home: nat)
    requires Good(lists) && cpu < |lists| && ret < 0 && Answers(lists, cpu, num, false, true, false, ret, got, b, home)
    ensures Refuses(RunsOf(lists), cpu, num)
  {
    hide FreeList.NotEnough, FreeList.Refused, Short, MostBlocks, Given;
    ShortIs(lists[cpu], num);
    ShortIs(lists[home], num);
    MostIs(lists, home);
  }

  lemma NotRefused(lists: seq<FreeList>, cpu: nat, num: nat, need: nat)
    requires Good(lists) && cpu < |lists| && AllRoomy(lists, need) && num <= need
    ensures forall ret, got, b, home :: Answers(lists, cpu, num, false, true, false, ret, got, b, home) ==> ret >= 0
    ensures forall i :: 0 <= i < |lists| ==> Roomy(RunsOf(lists)[i], need)
  {
    RoomyServes(lists[cpu], need, num);
  }

  lemma NonePlaced(lists: seq<FreeList>)
    ensures Placed(lists, []) && AllInner(lists, [])
  {}

  lemma NoGrants()
    ensures Nonempty([]) && Disjoint([]) && Blocks([]) == {} && Total([]) == 0
  {}

  lemma NonemptyMore(rs: seq<Range>, r: Range)
    requires Nonempty(rs) && r.low <= r.high
    ensures Nonempty(rs + [r])
  {}

  /** Each list's area is a stretch of perList blocks. */
  ghost predicate Areas(lists: seq<FreeList>, perList: nat) {
    perList > 0 && forall c :: 0 <= c < |lists| ==> AreaAt(lists, perList, c)
  }

  ghost predicate AreaAt(lists: seq<FreeList>, perList: nat, c: nat)
    requires c < |lists|
  {
    c * perList <= lists[c].start && lists[c].end < (c + 1) * perList
  }

  function SumNodes(lists: seq<FreeList>, n: nat): nat
    requires n <= |lists|
    reads lists
  {
    if n == 0 then 0 else SumNodes(lists, n - 1) + lists[n - 1].numNodes
  }

  /** Pages for this many nodes. */
  function PagesFor(nodes: nat): (pages: nat)
    ensures nodes <= PER_PAGE * pages < nodes + PER_PAGE
  {
    nodes / PER_PAGE + if nodes % PER_PAGE != 0 then 1 else 0
  }

  /** nova_save_blocknode_mappings_to_log: the pages are sized before they are taken from the lists, and taking
      them never makes more nodes. */
  method SaveBlockNodes(lists: seq<FreeList>, perList: nat, at: nat -> nat)
    returns (ok: bool, grants: seq<Range>, pages: seq<seq<Entry>>, tail: nat)
    requires Good(lists) && SumNodes(lists, |lists|) < 0x1_0000_0000 && forall k :: at(k) < |lists|
    modifies lists
    ensures Good(lists) && Nonempty(grants) && Disjoint(grants) && Placed(lists, grants)
    ensures Blocks(grants) <= old(AllFree(lists)) && AllFree(lists) == old(AllFree(lists)) - Blocks(grants)
    ensures var need := PagesFor(old(SumNodes(lists, |lists|)));
            && (ok <==> need > 0 && Total(grants) == need) && Total(grants) <= need
            && (!ok && need > 0 ==> Refuses(RunsOf(lists), at(|grants|), need - Total(grants)))
            && (old(AllRoomy(lists, need)) ==> ok)
    ensures ok ==> Filled(pages, tail) && Flat(pages) == EncodeAll(ByBlock(perList), RunsOf(lists))
  {
    hide Blocks, Total, Span, Good, AllFree, Disjoint, Nonempty, Placed, Filled, Flat, EncodeAll, Count, Refuses;
    hide AllRoomy;
    pages, tail := [], 0;
    var nodes := 0;
    for c := 0 to |lists|
      invariant nodes == SumNodes(lists, c)
    {
      nodes := nodes + lists[c].numNodes;
    }
    var numPages := nodes / PER_PAGE;
    if nodes % PER_PAGE != 0 {
      numPages := numPages + 1;
    }
    ghost var before := NodeCounts(lists);
    SomeNodes(lists, at(0), PagesFor(nodes));
    grants, ok := AllocatePages(lists, at, numPages, 0);
    if !ok {
      return;
    }
    NodesShrink(lists, before);
    pages, tail := Save(ByBlock(perList), RunsOf(lists), numPages);
  }

  /** Lists with room have nodes to save. */
  lemma SomeNodes(lists: seq<FreeList>, c: nat, need: nat)
    requires Good(lists) && c < |lists|
    ensures AllRoomy(lists, need) ==> SumNodes(lists, |lists|) > 0
  {
    if AllRoomy(lists, need) {
      assert Roomy(lists[c].runs, need);
      NodeCount(lists[c]);
      SumReaches(lists, c, |lists|);
    }
  }

  lemma {:induction false} SumReaches(lists: seq<FreeList>, c: nat, n: nat)
    requires c < n <= |lists|
    ensures SumNodes(lists, n) >= lists[c].numNodes
  {
    if c < n - 1 {
      SumReaches(lists, c, n - 1);
    }
  }

  ghost function NodeCounts(lists: seq<FreeList>): (out: seq<nat>)
    reads lists
    ensures |out| == |lists| && forall c :: 0 <= c < |lists| ==> out[c] == lists[c].numNodes
    ensures SumOf(out, |out|) == SumNodes(lists, |lists|)
  {
    var out := seq(|lists|, c requires 0 <= c < |lists| reads lists => lists[c].numNodes);
    SumSame(lists, out, |lists|);
    out
  }

  ghost function SumOf(counts: seq<nat>, n: nat): nat
    requires n <= |counts|
  {
    if n == 0 then 0 else SumOf(counts, n - 1) + counts[n - 1]
  }

  lemma {:induction false} SumSame(lists: seq<FreeList>, counts: seq<nat>, n: nat)
    requires n <= |lists| == |counts| && forall c :: 0 <= c < |lists| ==> counts[c] == lists[c].numNodes
    ensures SumOf(counts, n) == SumNodes(lists, n)
  {
    if n > 0 {
      SumSame(lists, counts, n - 1);
    }
  }

  /** The runs to save are no more than the nodes counted before. */
  lemma NodesShrink(lists: seq<FreeList>, before: seq<nat>)
    requires Good(lists) && |before| == |lists| && forall c :: 0 <= c < |lists| ==> lists[c].numNodes <= before[c]
    ensures Count(RunsOf(lists)) <= SumOf(before, |before|)
  {
    hide Count, RunsOf;
    NodesUpto(lists, before, |lists|);
    assert RunsOf(lists)[..|lists|] == RunsOf(lists);
  }

  lemma {:induction false} NodesUpto(lists: seq<FreeList>, before: seq<nat>, n: nat)
    requires Good(lists) && |before| == |lists| && n <= |lists|
    requires forall c :: 0 <= c < |lists| ==> lists[c].numNodes <= before[c]
    ensures Count(RunsOf(lists)[..n]) <= SumOf(before, n)
  {
    hide FreeList.Valid;
    if n > 0 {
      NodesUpto(lists, before, n - 1);
      var runs := RunsOf(lists);
      assert runs[..n][..n - 1] == runs[..n - 1] && runs[..n][n - 1] == runs[n - 1];
      NodeCount(lists[n - 1]);
    }
  }

  /** The nodes counted are the ranges of the lists. */
  lemma {:induction false} NodesAreRuns(lists: seq<FreeList>, n: nat)
    requires Good(lists) && n <= |lists|
    ensures SumNodes(lists, n) == Count(RunsOf(lists)[..n])
  {
    hide FreeList.Valid;
    if n > 0 {
      NodesAreRuns(lists, n - 1);
      var runs := RunsOf(lists);
      assert runs[..n][..n - 1] == runs[..n - 1] && runs[..n][n - 1] == runs[n - 1];
      NodeCount(lists[n - 1]);
    }
  }

  lemma PagesFewer(a: nat, b: nat)
    requires a <= b
    ensures PagesFor(a) <= PagesFor(b)
  {}

  lemma NodeCount(list: FreeList)
    requires list.Valid()
    ensures |list.runs| == list.numNodes
  {}

  // ----- loading -----

  /** The loaded ranges go into the new lists one by one. */
  method FillLists(lists: seq<FreeList>, loaded: seq<seq<Range>>)
    requires Good(lists) && |loaded| == |lists| && forall c :: 0 <= c < |lists| ==> lists[c].runs == []
    requires forall c :: 0 <= c < |lists| ==> Coalesced(loaded[c]) && Within(loaded[c], lists[c].start, lists[c].end)
    modifies lists
    ensures Good(lists) && RunsOf(lists) == loaded
  {
    hide FreeList.Valid, Coalesced, Within;
    for c := 0 to |lists|
      invariant forall i :: 0 <= i < |lists| ==> lists[i].Valid()
      invariant forall i :: 0 <= i < |lists| ==> lists[i].runs == if i < c then loaded[i] else []
    {
      Bbuild.Others(lists, c);
      FillOne(lists[c], loaded[c]);
    }
  }

  method FillOne(list: FreeList, nodes: seq<Range>)
    requires list.Valid() && list.runs == [] && Coalesced(nodes) && Within(nodes, list.start, list.end)
    modifies list
    ensures list.Valid() && list.runs == nodes
  {
    hide FreeList.Tree, FreeList.Names, Blocks, Total;
    for i := 0 to |nodes|
      invariant list.Valid() && list.runs == nodes[..i]
    {
      list.InsertLast(nodes[i].low, nodes[i].high);
      assert nodes[..i + 1] == nodes[..i] + [nodes[i]];
    }
    assert nodes[..|nodes|] == nodes;
  }

  /** nova_free_contiguous_log_blocks: pieces that follow each other are freed as one; none of the runs reaches
      from one area into another. */
  method MergeGrants(lists: seq<FreeList>, grants: seq<Range>) returns (runs: seq<Range>)
    requires Nonempty(grants) && Disjoint(grants) && BallocLists.Apart(lists) && Placed(lists, grants)
    ensures Nonempty(runs) && Disjoint(runs) && Blocks(runs) == Blocks(grants)
    ensures forall i :: 0 <= i < |runs| ==> InOne(lists, runs[i])
  {
    hide Blocks, Span, Disjoint, Nonempty, InOne, Inner, BallocLists.Apart;
    runs := [];
    NoGrants();
    if grants == [] {
      return;
    }
    NonemptyAt(grants, 0);
    var run := grants[0];
    MergeFirst(grants);
    for i := 1 to |grants|
      invariant Nonempty(runs) && Disjoint(runs) && run.low <= run.high
      invariant Span(run) !! Blocks(runs) && Blocks(runs) + Span(run) == Blocks(grants[..i])
      invariant InOne(lists, run) && (i < |grants| ==> Inner(lists, run))
      invariant forall j :: 0 <= j < |runs| ==> InOne(lists, runs[j])
    {
      NonemptyAt(grants, i);
      MergeNext(grants, i);
      if grants[i].low == run.high + 1 {
        SpanJoin(run, grants[i]);
        Follows(lists, run, grants[i]);
        run := Range(run.low, grants[i].high);
      } else {
        BlocksMore(runs, run);
        DisjointMore(runs, run);
        NonemptyMore(runs, run);
        runs := runs + [run];
        run := grants[i];
      }
    }
    BlocksMore(runs, run);
    DisjointMore(runs, run);
    NonemptyMore(runs, run);
    runs := runs + [run];
    assert grants[..|grants|] == grants;
  }

  lemma NonemptyAt(rs: seq<Range>, i: nat)
    requires Nonempty(rs) && i < |rs|
    ensures rs[i].low <= rs[i].high
  {}

  lemma MergeFirst(grants: seq<Range>)
    requires grants != []
    ensures Blocks(grants[..1]) == Span(grants[0]) && Blocks([]) == {}
  {
    assert grants[..1] == [grants[0]];
    BlocksOne(grants[0]);
  }

  lemma MergeNext(grants: seq<Range>, i: nat)
    requires Disjoint(grants) && i < |grants|
    ensures Blocks(grants[..i + 1]) == Blocks(grants[..i]) + Span(grants[i]) && Span(grants[i]) !! Blocks(grants[..i])
  {
    hide Blocks;
    assert grants[..i + 1] == grants[..i] + [grants[i]];
    BlocksMore(grants[..i], grants[i]);
    forall b | b in Blocks(grants[..i])
      ensures b !in Span(grants[i])
    {
      var k := BlocksIndex(grants[..i], b);
      assert b in Span(grants[k]);
    }
  }

  lemma SpanJoin(a: Range, b: Range)
    requires a.low <= a.high && b.low == a.high + 1 && b.low <= b.high
    ensures Span(Range(a.low, b.high)) == Span(a) + Span(b)
  {}

  /** A shape for a tree of n ranges: any will do. */
  function SomeShape(lo: nat, hi: nat): (t: Shape)
    requires lo <= hi
    ensures Over(t, lo, hi)
    decreases hi - lo
  {
    if lo == hi then Nil else At(Nil, lo, SomeShape(lo + 1, hi))
  }

  /** nova_free_inode_log: all pages go back to the lists they came from. */
  method FreePages(lists: seq<FreeList>, perList: nat, grants: seq<Range>)
    requires Good(lists) && Areas(lists, perList) && Nonempty(grants) && Disjoint(grants) && Placed(lists, grants)
    requires Blocks(grants) !! AllFree(lists)
    modifies lists
    ensures Good(lists) && AllFree(lists) == old(AllFree(lists)) + Blocks(grants)
  {
    hide Blocks, Span, Disjoint, Nonempty, AllFree, FreeList.Valid, BallocLists.Apart, Areas, InOne;
    AreasUnit(lists, perList);
    var runs := MergeGrants(lists, grants);
    NoGrants();
    for i := 0 to |runs|
      invariant Good(lists) && AllFree(lists) == old(AllFree(lists)) + Blocks(runs[..i])
    {
      var (r, c) := (runs[i], runs[i].low / perList);
      NonemptyAt(runs, i);
      MergeNext(runs, i);
      SpanInBlocks(runs, i);
      HomeIs(lists, perList, r);
      var ret := Release(lists, perList, SomeShape(0, |lists[c].runs|), r.low, r.high - r.low + 1);
    }
    assert runs[..|runs|] == runs;
  }

  /** The list of a run is that of its first block. */
  lemma HomeIs(lists: seq<FreeList>, perList: nat, r: Range)
    requires Areas(lists, perList) && InOne(lists, r)
    ensures perList > 0 && r.low / perList < |lists|
    ensures var (list, n) := (lists[r.low / perList], r.high - r.low + 1);
            list.start <= r.low && r.low + n <= list.end + 1 && n > 0
    ensures Range(r.low, r.low + (r.high - r.low + 1) - 1) == r
  {
    var c: nat :| Home(lists, r, c);
    assert AreaAt(lists, perList, c);
    InStretch(r.low, perList, c);
  }

  /** nova_init_blockmap_from_inode: the nodes are read back into new lists and the pages given back, so that the
      free set is the one before saving. */
  method LoadBlockNodes(lists: seq<FreeList>, perList: nat, pages: seq<seq<Entry>>, tail: nat, grants: seq<Range>,
                        ghost saved: seq<seq<Range>>, ghost before: set<nat>)
    requires Good(lists) && Areas(lists, perList) && forall c :: 0 <= c < |lists| ==> lists[c].runs == []
    requires |saved| == |lists| && Filled(pages, tail) && Flat(pages) == EncodeAll(ByBlock(perList), saved)
    requires forall c :: 0 <= c < |lists| ==> Coalesced(saved[c]) && Within(saved[c], lists[c].start, lists[c].end)
    requires Nonempty(grants) && Disjoint(grants) && Placed(lists, grants)
    requires Blocks(grants) <= before && UnionOf(saved) == before - Blocks(grants)
    modifies lists
    ensures Good(lists) && AllFree(lists) == before
  {
    hide Blocks, Span, Disjoint, Nonempty, AllFree, Good, FreeList.Valid, Filled, Flat, EncodeAll, Distribute,
    Coalesced,
      Within, UnionOf, Tellable, Placed, Areas;
    AreasUnit(lists, perList);
    SavedTellable(lists, perList, saved);
    RoundTrip(ByBlock(perList), saved);
    var loaded := Load(ByBlock(perList), |lists|, pages, tail);
    FillLists(lists, loaded);
    LoadedFree(lists, saved);
    FreePages(lists, perList, grants);
  }

  lemma AreasUnit(lists: seq<FreeList>, perList: nat)
    requires Areas(lists, perList)
    ensures perList > 0
  {}

  ghost function UnionOf(saved: seq<seq<Range>>): set<nat> {
    Union(seq(|saved|, c requires 0 <= c < |saved| => Blocks(saved[c])))
  }

  lemma LoadedFree(lists: seq<FreeList>, saved: seq<seq<Range>>)
    requires RunsOf(lists) == saved
    ensures AllFree(lists) == UnionOf(saved)
  {
    assert FreeSets(lists) == seq(|saved|, c requires 0 <= c < |saved| => Blocks(saved[c]));
  }

  lemma SavedTellable(lists: seq<FreeList>, perList: nat, saved: seq<seq<Range>>)
    requires Areas(lists, perList) && |saved| == |lists|
    requires forall c :: 0 <= c < |lists| ==> Coalesced(saved[c]) && Within(saved[c], lists[c].start, lists[c].end)
    ensures AllTellable(ByBlock(perList), saved)
  {
    forall c, i | 0 <= c < |saved| && 0 <= i < |saved[c]|
      ensures Tellable(ByBlock(perList), c, saved[c][i])
    {
      var r := saved[c][i];
      assert AreaAt(lists, perList, c);
      assert lists[c].start <= r.low <= r.high <= lists[c].end;
      InStretch(r.low, perList, c);
    }
  }

  lemma InStretch(x: nat, unit: nat, c: nat)
    requires unit > 0 && c * unit <= x < (c + 1) * unit
    ensures x / unit == c
  {
    Bbuild.DivBounds(x, unit, c);
    Bbuild.DivBounds(x, unit, c + 1);
  }

  lemma RunsSound(lists: seq<FreeList>)
    requires Good(lists)
    ensures forall c :: 0 <= c < |lists| ==>
              Coalesced(lists[c].runs) && Within(lists[c].runs, lists[c].start, lists[c].end)
  {}

  /** New lists over the same areas. */
  lemma SameAreas(lists: seq<FreeList>, again: seq<FreeList>, perList: nat, grants: seq<Range>)
    requires |lists| == |again|
    requires forall c :: 0 <= c < |lists| ==> again[c].start == lists[c].start && again[c].end == lists[c].end
    requires Areas(lists, perList) && Placed(lists, grants)
    ensures Areas(again, perList) && Placed(again, grants)
  {
    forall c | 0 <= c < |again|
      ensures AreaAt(again, perList, c)
    {
      assert AreaAt(lists, perList, c);
    }
    assert forall r: Range, c: nat :: Home(lists, r, c) <==> Home(again, r, c);
  }

  /** Taking pages leaves no more nodes to save. */
  lemma NodesFewer(lists: seq<FreeList>, before: seq<nat>)
    requires |before| == |lists| && forall c :: 0 <= c < |lists| ==> lists[c].numNodes <= before[c]
    ensures SumNodes(lists, |lists|) <= SumOf(before, |before|)
  {
    SumFewer(lists, before, |lists|);
  }

  lemma {:induction false} SumFewer(lists: seq<FreeList>, before: seq<nat>, n: nat)
    requires n <= |lists| == |before| && forall c :: 0 <= c < |lists| ==> lists[c].numNodes <= before[c]
    ensures SumNodes(lists, n) <= SumOf(before, n)
  {
    if n > 0 {
      SumFewer(lists, before, n - 1);
    }
  }

  /** The areas of the lists are those that nova_init_free_list lays out. */
  lemma LaidOut(lists: seq<FreeList>, initsize: nat, cpus: nat)
    requires L.Enough(initsize, cpus) && |lists| == cpus
    requires forall c :: 0 <= c < cpus ==>
               lists[c].start == L.Init(initsize, cpus, c).start && lists[c].end == L.Init(initsize, cpus, c).end
    ensures Areas(lists, L.PerList(initsize, cpus))
  {
    hide L.Init, L.PerList;
    var per := L.PerList(initsize, cpus);
    L.PerPositive(initsize, cpus);
    forall c | 0 <= c < cpus
      ensures AreaAt(lists, per, c)
    {
      L.RegionsInOrder(initsize, cpus, c);
      assert per * c == c * per && per * (c + 1) == (c + 1) * per;
    }
  }
}
