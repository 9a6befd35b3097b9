/** A clean unmount and the mount after it (super.c, bbuild.c): the inode maps are saved first, then the free
    lists, both to pages of the free lists; at mount both are read back and all pages returned. */
module CleanRemount {
  import opened Ranges
  import opened Balloc
  import opened BallocLists
  import opened RangeLog
  import opened Inodes
  import I = InodeRemount
  import R = Remount

  /** A saved log: its pages' blocks, their contents, and the last page in use. */
  datatype Saved = Saved(grants: seq<Range>, pages: seq<seq<Entry>>, tail: nat)

  /** The log's pages are distinct blocks of the lists' areas. */
  ghost predicate Sound(lists: seq<FreeList>, log: Saved) {
    R.Nonempty(log.grants) && R.Disjoint(log.grants) && R.Placed(lists, log.grants)
  }

  /** The log holds these lists of ranges. */
  ghost predicate Keeps(log: Saved, kind: Kind, lists: seq<seq<Range>>) {
    Filled(log.pages, log.tail) && Flat(log.pages) == EncodeAll(kind, lists)
  }

  /** Pages the log of the inode maps takes. */
  function InodePages(inodes: InodeMaps): nat
    reads inodes
  {
    R.PagesFor(I.SumNodes(inodes.maps, |inodes.maps|))
  }

  /** Every list ends in a range with room for both logs and the dead zone. */
  ghost predicate Room(lists: seq<FreeList>, inodes: InodeMaps)
    reads lists, inodes
  {
    R.AllRoomy(lists, InodePages(inodes) + R.PagesFor(R.SumNodes(lists, |lists|)))
  }

  /** The ranges of the free lists are these, over the same areas. */
  ghost predicate RunsAre(lists: seq<FreeList>, runs: seq<seq<Range>>, free: set<nat>) {
    && |runs| == |lists| && R.UnionOf(runs) == free
    && forall c :: 0 <= c < |lists| ==> Coalesced(runs[c]) && Within(runs[c], lists[c].start, lists[c].end)
  }

  /** Both logs have all the pages asked for: as many as the maps' nodes take, and as the nodes take that the free lists
      had behind the first log. */
  ghost predicate BothGranted(inodes: InodeMaps, inodeLog: Saved, blockLog: Saved, mid: seq<seq<Range>>)
    reads inodes
  {
    && Total(inodeLog.grants) == InodePages(inodes)
    && Total(blockLog.grants) == R.PagesFor(Count(mid)) > 0
  }

  /** A log of fewer pages than asked for was cut short by a refusal. */
  ghost predicate CutShort(runs: seq<seq<Range>>, at: nat -> nat, log: Saved, need: nat) {
    var got := Total(log.grants);
    got <= need && (got < need ==> R.Refuses(runs, at(|log.grants|), need - got))
  }

  /** nova_put_super: what leaves the free set is exactly the pages of the two logs. They are saved if and only if all
      their pages are granted, and they are if every list ends in a range with room for both. */
  method Unmount(lists: seq<FreeList>, perList: nat, atInodes: nat -> nat, atBlocks: nat -> nat, inodes: InodeMaps)
    returns (ok: bool, inodeLog: Saved, blockLog: Saved, ghost mid: seq<seq<Range>>)
    requires Good(lists) && R.SumNodes(lists, |lists|) < 0x1_0000_0000 && inodes.Valid() && inodes.cpus <= I.MAX_CPUS
    requires (forall k :: atInodes(k) < |lists|) && (forall k :: atBlocks(k) < |lists|)
    modifies lists
    ensures Good(lists) && Sound(lists, inodeLog) && Sound(lists, blockLog)
    ensures Blocks(inodeLog.grants) <= old(AllFree(lists))
    ensures Blocks(blockLog.grants) <= old(AllFree(lists)) - Blocks(inodeLog.grants)
    ensures AllFree(lists) == old(AllFree(lists)) - Blocks(inodeLog.grants) - Blocks(blockLog.grants)
    ensures RunsAre(lists, mid, old(AllFree(lists)) - Blocks(inodeLog.grants))
    ensures ok <==> BothGranted(inodes, inodeLog, blockLog, mid)
    ensures CutShort(mid, atInodes, inodeLog, InodePages(inodes))
    ensures CutShort(R.RunsOf(lists), atBlocks, blockLog, R.PagesFor(Count(mid)))
    ensures old(Room(lists, inodes)) ==> ok
    ensures ok ==> Keeps(inodeLog, ByTag, I.RunsOf(inodes.maps)) && Keeps(blockLog, ByBlock(perList), R.RunsOf(lists))
  {
    hide Blocks, Total, Good, AllFree, Sound, Keeps, R.SumNodes, R.AllRoomy, R.PagesFor, InodePages, Count, RunsAre;
    hide InodeMaps.Valid, CutShort;
    ghost var spare := R.PagesFor(R.SumNodes(lists, |lists|));
    var saved, done;
    saved, inodeLog, mid := SaveInodes(lists, atInodes, inodes, spare);
    done, blockLog := SaveBlocks(lists, perList, atBlocks, mid);
    ok := saved && done;
  }

  method SaveInodes(lists: seq<FreeList>, at: nat -> nat, inodes: InodeMaps, ghost spare: nat)
    returns (ok: bool, log: Saved, ghost mid: seq<seq<Range>>)
    requires Good(lists) && inodes.Valid() && inodes.cpus <= I.MAX_CPUS && forall k :: at(k) < |lists|
    requires spare == R.PagesFor(R.SumNodes(lists, |lists|))
    modifies lists
    ensures Good(lists) && Sound(lists, log) && Blocks(log.grants) <= old(AllFree(lists))
    ensures AllFree(lists) == old(AllFree(lists)) - Blocks(log.grants)
    ensures RunsAre(lists, mid, AllFree(lists)) && R.SumNodes(lists, |lists|) == Count(mid)
    ensures R.SumNodes(lists, |lists|) <= old(R.SumNodes(lists, |lists|))
    ensures (ok <==> Total(log.grants) == InodePages(inodes)) && CutShort(mid, at, log, InodePages(inodes))
    ensures old(R.AllRoomy(lists, InodePages(inodes) + spare)) ==> ok && R.AllRoomy(lists, R.PagesFor(Count(mid)))
    ensures ok ==> Keeps(log, ByTag, I.RunsOf(inodes.maps))
  {
    hide Blocks, Total, Good, AllFree, R.Disjoint, R.Nonempty, R.Placed, Filled, Flat, EncodeAll, Tree;
    hide R.SumNodes, R.Refuses, R.AllRoomy, R.PagesFor, I.SumNodes, Count, RunsAre, InodeMaps.Valid;
    MapsReady(inodes);
    ghost var counts := R.NodeCounts(lists);
    var saved, grants, pages, tail := I.SaveInodeList(lists, at, inodes.maps, inodes.next, spare);
    ok, log := saved, Saved(grants, pages, tail);
    R.NodesFewer(lists, counts);
    mid := R.RunsOf(lists);
    Between(lists, counts, spare);
  }

  method SaveBlocks(lists: seq<FreeList>, perList: nat, at: nat -> nat, ghost mid: seq<seq<Range>>)
    returns (ok: bool, log: Saved)
    requires Good(lists) && R.SumNodes(lists, |lists|) == Count(mid) < 0x1_0000_0000 && forall k :: at(k) < |lists|
    modifies lists
    ensures Good(lists) && Sound(lists, log) && Blocks(log.grants) <= old(AllFree(lists))
    ensures AllFree(lists) == old(AllFree(lists)) - Blocks(log.grants)
    ensures ok <==> Total(log.grants) == R.PagesFor(Count(mid)) > 0
    ensures CutShort(R.RunsOf(lists), at, log, R.PagesFor(Count(mid)))
    ensures old(R.AllRoomy(lists, R.PagesFor(Count(mid)))) ==> ok
    ensures ok ==> Keeps(log, ByBlock(perList), R.RunsOf(lists))
  {
    hide Blocks, Total, Good, AllFree, R.Disjoint, R.Nonempty, R.Placed, Filled, Flat, EncodeAll;
    hide R.SumNodes, R.Refuses, R.AllRoomy, R.PagesFor, Count;
    var done, grants, pages, tail := R.SaveBlockNodes(lists, perList, at);
    ok, log := done, Saved(grants, pages, tail);
  }

  lemma MapsReady(inodes: InodeMaps)
    requires inodes.Valid()
    ensures 0 < |inodes.maps| == inodes.cpus
    ensures forall c :: 0 <= c < |inodes.maps| ==> Tree(inodes.maps[c], inodes.next) && inodes.maps[c].runs != []
  {
    hide Tree, RangeHigh;
    assert forall c :: 0 <= c < |inodes.maps| ==> Anchored(inodes.maps[c], RangeHigh(inodes.cpus));
  }

  /** Between the two logs: the nodes to save are the ranges there are, no more than before. */
  lemma Between(lists: seq<FreeList>, counts: seq<nat>, spare: nat)
    requires Good(lists) && |counts| == |lists| && R.SumNodes(lists, |lists|) <= R.SumOf(counts, |counts|)
    requires spare == R.PagesFor(R.SumOf(counts, |counts|))
    ensures RunsAre(lists, R.RunsOf(lists), AllFree(lists)) && R.SumNodes(lists, |lists|) == Count(R.RunsOf(lists))
    ensures R.AllRoomy(lists, spare) ==> R.AllRoomy(lists, R.PagesFor(R.SumNodes(lists, |lists|)))
  {
    hide R.SumNodes, R.SumOf, Count, R.UnionOf, AllFree, Coalesced, Within;
    R.RunsSound(lists);
    R.LoadedFree(lists, R.RunsOf(lists));
    R.NodesAreRuns(lists, |lists|);
    assert R.RunsOf(lists)[..|lists|] == R.RunsOf(lists);
    R.PagesFewer(R.SumNodes(lists, |lists|), R.SumOf(counts, |counts|));
  }

  /** nova_try_normal_recovery: the free lists first, then the inode maps. */
  method Mount(lists: seq<FreeList>, perList: nat, cpus: nat, inodeLog: Saved, blockLog: Saved,
               ghost runs: seq<seq<Range>>, ghost maps: seq<Map>, ghost next: nat, ghost before: set<nat>)
    returns (inodes: InodeMaps)
    requires Good(lists) && R.Areas(lists, perList) && forall c :: 0 <= c < |lists| ==> lists[c].runs == []
    requires Sound(lists, inodeLog) && Sound(lists, blockLog)
    requires |runs| == |lists| && Keeps(blockLog, ByBlock(perList), runs) && Keeps(inodeLog, ByTag, I.RunsOf(maps))
    requires forall c :: 0 <= c < |lists| ==> Coalesced(runs[c]) && Within(runs[c], lists[c].start, lists[c].end)
    requires 0 < cpus == |maps| <= I.MAX_CPUS
    requires forall c :: 0 <= c < cpus ==> Tree(maps[c], next) && Anchored(maps[c], RangeHigh(cpus))
    requires Blocks(inodeLog.grants) <= before && Blocks(blockLog.grants) <= before - Blocks(inodeLog.grants)
    requires R.UnionOf(runs) == before - Blocks(inodeLog.grants) - Blocks(blockLog.grants)
    modifies lists
    ensures Good(lists) && AllFree(lists) == before
    ensures fresh(inodes) && inodes.cpus == cpus && inodes.Valid() && inodes.Surplus() == 0
    ensures inodes.InUse() == Held(maps, cpus, cpus)
  {
    hide Blocks, Good, AllFree, R.Disjoint, R.Nonempty, R.Placed, R.Areas, Filled, Flat, EncodeAll, Coalesced, Within,
    RangeHigh, Tree, Anchored,
      Held, R.UnionOf;
    R.LoadBlockNodes(lists, perList, blockLog.pages, blockLog.tail, blockLog.grants, runs,
                     before - Blocks(inodeLog.grants));
    inodes := I.LoadInodeList(lists, perList, cpus, inodeLog.pages, inodeLog.tail, inodeLog.grants, maps, next);
  }

  /** Unmount, then mount with the same number of CPUs: the set of free blocks and the set of inode numbers in use are
      the same as before, and the usage counter loses its surplus. */
  method Remount(lists: seq<FreeList>, again: seq<FreeList>, perList: nat, atInodes: nat -> nat, atBlocks: nat -> nat,
                 inodes: InodeMaps)
    returns (ok: bool, after: InodeMaps, ghost inodeLog: Saved, ghost blockLog: Saved, ghost mid: seq<seq<Range>>)
    requires Good(lists) && R.Areas(lists, perList) && R.SumNodes(lists, |lists|) < 0x1_0000_0000
    requires inodes.Valid() && inodes.cpus <= I.MAX_CPUS
    requires (forall k :: atInodes(k) < |lists|) && (forall k :: atBlocks(k) < |lists|)
    requires Good(again) && |again| == |lists| && forall c :: 0 <= c < |lists| ==> again[c].runs == []
    requires forall c :: 0 <= c < |lists| ==> again[c].start == lists[c].start && again[c].end == lists[c].end
    requires forall i, j :: 0 <= i < |lists| && 0 <= j < |again| ==> lists[i] != again[j]
    modifies lists, again
    ensures RunsAre(lists, mid, old(AllFree(lists)) - Blocks(inodeLog.grants))
    ensures ok <==> BothGranted(inodes, inodeLog, blockLog, mid)
    ensures old(Room(lists, inodes)) ==> ok
    ensures ok ==> Good(again) && AllFree(again) == old(AllFree(lists))
    ensures ok ==> after.cpus == inodes.cpus && after.Valid() && after.InUse() == inodes.InUse() && after.Surplus() == 0
  {
    hide Blocks, Good, AllFree, R.Areas, FreeList.Valid, Keeps, R.Disjoint, R.Nonempty, R.Placed, Coalesced, Within,
    RangeHigh, Tree, Anchored,
      Held, R.UnionOf, R.SumNodes, BothGranted, Room, RunsAre;
    after := inodes;
    ghost var before := AllFree(lists);
    var iLog, bLog;
    ok, iLog, bLog, mid := Unmount(lists, perList, atInodes, atBlocks, inodes);
    inodeLog, blockLog := iLog, bLog;
    if ok {
      R.RunsSound(lists);
      R.LoadedFree(lists, R.RunsOf(lists));
      R.SameAreas(lists, again, perList, iLog.grants);
      R.SameAreas(lists, again, perList, bLog.grants);
      after := Mount(again, perList, inodes.cpus, iLog, bLog, R.RunsOf(lists), inodes.maps, inodes.next, before);
    }
  }
}
