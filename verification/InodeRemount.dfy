/** The inode maps saved at unmount and read back at mount (bbuild.c): like the free lists, they go to log pages taken
    from the free lists. */
module InodeRemount {
  import opened Ranges
  import opened Balloc
  import opened BallocLists
  import opened RangeLog
  import opened Inodes
  import R = Remount

  const MAX_CPUS := 256

  function RunsOf(maps: seq<Map>): (lists: seq<seq<Range>>)
    ensures |lists| == |maps| && forall c :: 0 <= c < |maps| ==> lists[c] == maps[c].runs
  {
    seq(|maps|, c requires 0 <= c < |maps| => maps[c].runs)
  }

  function SumNodes(maps: seq<Map>, k: nat): nat
    requires k <= |maps|
  {
    if k == 0 then 0 else SumNodes(maps, k - 1) + maps[k - 1].nodes
  }

  lemma {:induction false} NodesAreRuns(maps: seq<Map>, k: nat)
    requires k <= |maps| && forall c :: 0 <= c < |maps| ==> maps[c].nodes == |maps[c].runs|
    ensures SumNodes(maps, k) == Count(RunsOf(maps)[..k])
  {
    hide RunsOf;
    if k > 0 {
      NodesAreRuns(maps, k - 1);
      assert RunsOf(maps)[..k][..k - 1] == RunsOf(maps)[..k - 1];
    }
  }

  /** Internal numbers are far below the tag, and the tag holds up to 256 CPUs. */
  lemma MapsTellable(maps: seq<Map>, next: nat)
    requires |maps| <= MAX_CPUS && forall c :: 0 <= c < |maps| ==> Tree(maps[c], next)
    ensures AllTellable(ByTag, RunsOf(maps))
  {
    forall c, i | 0 <= c < |maps| && 0 <= i < |maps[c].runs|
      ensures Tellable(ByTag, c, RunsOf(maps)[c][i])
    {
      assert Tree(maps[c], next);
      assert maps[c].runs[i].low <= maps[c].runs[i].high <= MAX_INODE - 2;
    }
  }

  lemma {:induction false} LowRises(rs: seq<Range>, i: nat)
    requires Coalesced(rs) && i < |rs|
    ensures 2 * i <= rs[i].low
  {
    if i > 0 {
      LowRises(rs, i - 1);
      assert rs[i - 1].low <= rs[i - 1].high && rs[i - 1].high + 1 < rs[i].low;
    }
  }

  /** The nodes of all maps fit a number of pages that the allocator can be asked for. */
  lemma {:induction false} NodesBounded(maps: seq<Map>, next: nat, k: nat)
    requires k <= |maps| && forall c :: 0 <= c < |maps| ==> Tree(maps[c], next)
    ensures SumNodes(maps, k) <= k * 0x4000_0000
  {
    if k > 0 {
      NodesBounded(maps, next, k - 1);
      var m := maps[k - 1];
      assert Tree(m, next);
      if m.runs != [] {
        LowRises(m.runs, |m.runs| - 1);
        assert m.runs[|m.runs| - 1].low <= m.runs[|m.runs| - 1].high <= MAX_INODE - 2;
      }
    }
  }

  method CountNodes(maps: seq<Map>, ghost next: nat) returns (nodes: nat)
    requires forall c :: 0 <= c < |maps| ==> Tree(maps[c], next) && maps[c].runs != []
    ensures nodes == SumNodes(maps, |maps|) >= |maps|
  {
    hide SumNodes, Coalesced, Within;
    nodes := 0;
    SumNone(maps);
    for i := 0 to |maps|
      invariant nodes == SumNodes(maps, i) && nodes >= i
    {
      assert Tree(maps[i], next);
      SumMore(maps, i);
      nodes := nodes + maps[i].nodes;
    }
  }

  /** nova_save_inode_list_to_log: the pages leave the free lists, and every node is on them. */
  method SaveInodeList(lists: seq<FreeList>, at: nat -> nat, maps: seq<Map>, ghost next: nat, ghost spare: nat)
    returns (ok: bool, grants: seq<Range>, pages: seq<seq<Entry>>, tail: nat)
    requires Good(lists) && forall k :: at(k) < |lists|
    requires 0 < |maps| <= MAX_CPUS && forall c :: 0 <= c < |maps| ==> Tree(maps[c], next) && maps[c].runs != []
    modifies lists
    ensures Good(lists) && R.Nonempty(grants) && R.Disjoint(grants) && R.Placed(lists, grants)
    ensures Blocks(grants) <= old(AllFree(lists)) && AllFree(lists) == old(AllFree(lists)) - Blocks(grants)
    ensures var need := R.PagesFor(SumNodes(maps, |maps|));
            && (ok <==> Total(grants) == need) && need > 0 && Total(grants) <= need
            && (!ok ==> R.Refuses(R.RunsOf(lists), at(|grants|), need - Total(grants)))
            && (old(R.AllRoomy(lists, need + spare)) ==> ok && R.AllRoomy(lists, spare))
    ensures ok ==> Filled(pages, tail) && Flat(pages) == EncodeAll(ByTag, RunsOf(maps))
    ensures forall i :: 0 <= i < |lists| ==> lists[i].numNodes <= old(lists[i].numNodes)
  {
    hide Flat, Filled, EncodeAll, Count, RunsOf, SumNodes, Coalesced, Within, Blocks, Total, Good, AllFree, R.Disjoint;
    hide R.Nonempty, R.Placed, R.Refuses, R.AllRoomy;
    pages, tail := [], 0;
    var nodes := CountNodes(maps, next);
    var blocks := nodes / PER_PAGE;
    if nodes % PER_PAGE != 0 {
      blocks := blocks + 1;
    }
    NodesBounded(maps, next, |maps|);
    NodesAreRuns(maps, |maps|);
    assert RunsOf(maps)[..|maps|] == RunsOf(maps);
    grants, ok := R.AllocatePages(lists, at, blocks, spare);
    if !ok {
      return;
    }
    pages, tail := Save(ByTag, RunsOf(maps), blocks);
  }

  lemma SumNone(maps: seq<Map>)
    ensures SumNodes(maps, 0) == 0
  {}

  lemma SumMore(maps: seq<Map>, k: nat)
    requires k < |maps|
    ensures SumNodes(maps, k + 1) == SumNodes(maps, k) + maps[k].nodes
  {}

  /** The map that reading a list of nodes builds, with node identities from `id` on. */
  function Loaded(list: seq<Range>, id: nat): Map {
    Map(list, seq(|list|, i requires 0 <= i < |list| => id + i), id, |list|, 0, 0)
  }

  lemma LoadedTree(m: Map, was: nat, id: nat, next: nat, high: nat)
    requires Tree(m, was) && Anchored(m, high) && id + |m.runs| <= next
    ensures Tree(Loaded(m.runs, id), next) && Anchored(Loaded(m.runs, id), high)
  {}

  lemma {:induction false} HeldSame(a: seq<Map>, b: seq<Map>, cpus: nat, k: nat)
    requires k <= |a| == |b| && forall c :: 0 <= c < |a| ==> a[c].runs == b[c].runs
    ensures Held(a, cpus, k) == Held(b, cpus, k)
  {
    hide Blocks, Own;
    if k > 0 {
      HeldSame(a, b, cpus, k - 1);
    }
  }

  /** The walk of nova_init_inode_list_from_inode: the maps as saved; the counter is the number of the numbers. */
  method ReadMaps(cpus: nat, pages: seq<seq<Entry>>, tail: nat, ghost saved: seq<Map>, ghost was: nat)
    returns (maps: seq<Map>, used: nat, next: nat)
    requires 0 < cpus == |saved| <= MAX_CPUS
    requires forall c :: 0 <= c < cpus ==> Tree(saved[c], was) && Anchored(saved[c], RangeHigh(cpus))
    requires Filled(pages, tail) && Flat(pages) == EncodeAll(ByTag, RunsOf(saved))
    ensures |maps| == cpus && forall c :: 0 <= c < cpus ==> maps[c].runs == saved[c].runs
    ensures forall c :: 0 <= c < cpus ==> Tree(maps[c], next) && Anchored(maps[c], RangeHigh(cpus))
    ensures used == Sum(saved, cpus)
  {
    hide Flat, Filled, EncodeAll, RunsOf, Tree, Anchored, RangeHigh, Distribute, Sum, Total, AllTellable, Loaded;
    MapsTellable(saved, was);
    var lists := Load(ByTag, cpus, pages, tail);
    RoundTrip(ByTag, RunsOf(saved));
    maps, used, next := [], 0, 0;
    TotalsNone(saved);
    for c := 0 to cpus
      invariant |maps| == c && used == Sum(saved, c)
      invariant forall i :: 0 <= i < c ==>
                  maps[i].runs == saved[i].runs && Tree(maps[i], next) && Anchored(maps[i], RangeHigh(cpus))
    {
      var list := lists[c];
      var ids, size := [], 0;
      var before := next;
      TotalNone(list);
      for i := 0 to |list|
        invariant next == before + i && |ids| == i && (forall j :: 0 <= j < i ==> ids[j] == before + j)
        invariant size == Total(list[..i])
      {
        ListTotal(saved, was, c, i);
        ids, next, size := ids + [next], next + 1, size + (list[i].high - list[i].low + 1);
      }
      var m := Map(list, ids, before, |list|, 0, 0);
      LoadedIs(m, list, before);
      LoadedTree(saved[c], was, before, next, RangeHigh(cpus));
      OlderTrees(maps, before, next);
      assert list[..|list|] == list;
      TotalsMore(saved, c);
      maps, used := maps + [m], used + size;
    }
  }

  lemma TotalsNone(maps: seq<Map>)
    ensures Sum(maps, 0) == 0
  {}

  lemma TotalsMore(maps: seq<Map>, k: nat)
    requires k < |maps|
    ensures Sum(maps, k + 1) == Sum(maps, k) + Total(maps[k].runs)
  {}

  lemma TotalNone(list: seq<Range>)
    ensures Total(list[..0]) == 0
  {}

  lemma ListTotal(maps: seq<Map>, was: nat, c: nat, i: nat)
    requires c < |maps| && Tree(maps[c], was) && i < |maps[c].runs|
    ensures var list := maps[c].runs;
            Total(list[..i + 1]) == Total(list[..i]) + (list[i].high - list[i].low + 1)
  {
    var list := maps[c].runs;
    assert list[..i + 1][..i] == list[..i];
  }

  lemma LoadedIs(m: Map, list: seq<Range>, id: nat)
    requires m.runs == list && |m.ids| == |list| == m.nodes && m.first == id && m.taken == m.freed == 0
    requires forall j :: 0 <= j < |list| ==> m.ids[j] == id + j
    ensures m == Loaded(list, id)
  {}

  lemma OlderTrees(maps: seq<Map>, before: nat, next: nat)
    requires before <= next && forall i :: 0 <= i < |maps| ==> Tree(maps[i], before)
    ensures forall i :: 0 <= i < |maps| ==> Tree(maps[i], next)
  {
    forall i | 0 <= i < |maps|
      ensures Tree(maps[i], next)
    {
      assert Tree(maps[i], before);
    }
  }

  /** nova_init_inode_list_from_inode: the numbers in use come back, the usage counter becomes their number, and the
      pages go back to the free lists. */
  method LoadInodeList(lists: seq<FreeList>, perList: nat, cpus: nat, pages: seq<seq<Entry>>, tail: nat,
                       grants: seq<Range>, ghost saved: seq<Map>, ghost was: nat)
    returns (inodes: InodeMaps)
    requires 0 < cpus == |saved| <= MAX_CPUS
    requires forall c :: 0 <= c < cpus ==> Tree(saved[c], was) && Anchored(saved[c], RangeHigh(cpus))
    requires Filled(pages, tail) && Flat(pages) == EncodeAll(ByTag, RunsOf(saved))
    requires Good(lists) && R.Areas(lists, perList) && R.Nonempty(grants) && R.Disjoint(grants)
    requires R.Placed(lists, grants)
    requires Blocks(grants) !! AllFree(lists)
    modifies lists
    ensures fresh(inodes) && inodes.cpus == cpus && inodes.Valid() && inodes.Surplus() == 0
    ensures inodes.InUse() == Held(saved, cpus, cpus)
    ensures Good(lists) && AllFree(lists) == old(AllFree(lists)) + Blocks(grants)
  {
    hide Tree, RangeHigh, Held, Sum, Flat, Filled, EncodeAll, RunsOf, Blocks, AllFree, Good, R.Areas, R.Disjoint;
    hide R.Nonempty, R.Placed;
    var maps, used, next := ReadMaps(cpus, pages, tail, saved, was);
    SavedCard(saved, was, cpus);
    HeldSame(maps, saved, cpus, cpus);
    inodes := new InodeMaps.Mounted(cpus, maps, used, next);
    R.FreePages(lists, perList, grants);
  }

  lemma SavedCard(saved: seq<Map>, was: nat, cpus: nat)
    requires 0 < cpus == |saved| && forall c :: 0 <= c < cpus ==> Tree(saved[c], was)
    ensures |Held(saved, cpus, cpus)| == Sum(saved, cpus)
  {
    hide Held, Sum, Coalesced;
    HeldCard(saved, cpus, cpus);
  }
}
