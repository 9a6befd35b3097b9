/** Growing an inode log (log.c, gc.c): the fast collector's pass, its estimate, the thorough collector when the
    estimate calls for it, and appending an entry on top of them. */
module LogAppend {
  import opened LogPages
  import opened LogChains
  import opened InodeLog
  import opened LogFile
  import opened LogGc

  /** The pages worth of valid entries, rounded up. */
  function Estimate(valid: nat, checked: nat, total: nat): nat
    requires total > 0
  {
    (valid * checked) / total + if (valid * checked) % total != 0 then 1 else 0
  }

  /** The pages granted for one request: linked, blank, and not in use. */
  datatype Grant = Grant(pages: map<nat, LogPage>, first: nat, count: nat, ghost ids: seq<nat>)

  ghost predicate Granted(g: Grant, chain: seq<nat>) {
    g.count == |g.ids| && Blank(g.pages, g.ids) && NotIn(chain, g.pages) && (g.ids != [] ==> g.first == g.ids[0])
  }

  /** The collectors leave the contents from the tail page on alone. Before it the fast one drops the fully
      invalid pages, the thorough one packs the valid entries anew. */
  ghost predicate Cleaned(was: seq<seq<Item>>, t: nat, now: seq<seq<Item>>, t': nat, thorough: bool) {
    && t < |was| && t' < |now| && now[t'..] == was[t..]
    && now[..t'] == if thorough then Packed(Live(Flatten(was[..t]))) else KeptPages(was, t)
  }

  /** Either way no valid entry is lost, added or moved past another. */
  lemma CleanedKeeps(was: seq<seq<Item>>, t: nat, now: seq<seq<Item>>, t': nat, thorough: bool)
    requires Cleaned(was, t, now, t', thorough)
    ensures Live(Flatten(now)) == Live(Flatten(was))
    ensures forall n: nat :: n <= |was[t]| ==>
              n <= |now[t']| && Live(Flatten(now[..t'] + [now[t'][..n]])) == Live(Flatten(was[..t] + [was[t][..n]]))
  {
    hide Live, Flatten, KeptPages, Packed;
    PackedHolds(Live(Flatten(was[..t])));
    SplitLive(was, t);
    SplitLive(now, t');
    KeptLive(was, t);
    LiveAgain(Flatten(was[..t]));
    assert now[t'..][0] == was[t..][0];
    forall n: nat | n <= |was[t]|
      ensures Live(Flatten(now[..t'] + [now[t'][..n]])) == Live(Flatten(was[..t] + [was[t][..n]]))
    {
      FlattenConcat(now[..t'], [now[t'][..n]]);
      FlattenConcat(was[..t], [was[t][..n]]);
      LiveConcat(Flatten(now[..t']), Flatten([now[t'][..n]]));
      LiveConcat(Flatten(was[..t]), Flatten([was[t][..n]]));
    }
  }

  lemma SplitLive(contents: seq<seq<Item>>, t: nat)
    requires t <= |contents|
    ensures Live(Flatten(contents)) == Live(Flatten(contents[..t])) + Live(Flatten(contents[t..]))
  {
    hide Live, Flatten;
    FlattenConcat(contents[..t], contents[t..]);
    assert contents[..t] + contents[t..] == contents;
    LiveConcat(Flatten(contents[..t]), Flatten(contents[t..]));
  }

  // ----- the estimate -----

  /** A page is kept for a valid entry on it, so the estimate is zero just when no page was kept. */
  lemma {:induction false} KeptHasLive(contents: seq<seq<Item>>, n: nat)
    requires n <= |contents|
    ensures |KeptPages(contents, n)| <= |Live(Flatten(KeptPages(contents, n)))| <= |Flatten(KeptPages(contents, n))|
  {
    hide Live, Flatten, AllDead;
    if n > 0 {
      KeptHasLive(contents, n - 1);
      var kept := KeptPages(contents, n - 1);
      if !AllDead(contents[n - 1]) {
        FlattenConcat(kept, [contents[n - 1]]);
        FlattenOne(contents[n - 1]);
        LiveConcat(Flatten(kept), contents[n - 1]);
        LiveCount(contents[n - 1]);
        DeadsFull(contents[n - 1]);
        assert KeptPages(contents, n) == kept + [contents[n - 1]];
      } else {
        assert KeptPages(contents, n) == kept;
      }
    } else {
      NoneLive();
    }
  }

  lemma NoneLive()
    ensures Flatten([]) == [] && Live([]) == []
  {}

  lemma FlattenOne(items: seq<Item>)
    ensures Flatten([items]) == items
  {
    assert [items][..0] == [];
    assert Flatten([items]) == Flatten([items][..0]) + items;
  }

  lemma EstimatePositive(valid: nat, checked: nat, total: nat)
    requires 0 < checked <= valid <= total
    ensures 0 < Estimate(valid, checked, total) <= checked
  {
    assert valid * checked > 0;
    assert valid * checked <= total * checked;
    DivBound(valid * checked, total, checked);
  }

  lemma DivBound(a: nat, total: nat, checked: nat)
    requires 0 < a <= total * checked && total > 0
    ensures 0 < a / total + (if a % total != 0 then 1 else 0) <= checked
  {
    assert a == total * (a / total) + a % total;
    if a / total >= checked {
      assert total * (a / total) >= total * checked;
    }
  }

  // ----- collecting -----

  /** Slots lead to valid entries, so dropping fully invalid pages takes none of them away. */
  lemma SlotsCollected(tree: map<nat, Addr>, want: map<nat, Item>, chain: seq<nat>, contents: seq<seq<Item>>, n: nat,
                       ids: seq<nat>)
    requires n < |contents| <= |chain| && Slots(tree, want, chain, contents, 0, 0, [], [])
    ensures Slots(tree, want, CollectedIds(chain, contents, n, ids), Collected(contents, n), 0, 0, [], [])
  {
    hide Used, KeptIds, KeptPages;
    var (chain', contents') := (CollectedIds(chain, contents, n, ids), Collected(contents, n));
    forall p | p in tree
      ensures SlotAt(tree[p], want[p], p, chain', contents', 0, 0, [], [])
    {
      assert SlotAt(tree[p], want[p], p, chain, contents, 0, 0, [], []);
      var k: nat, i: nat :| Place(chain, contents, k, i, tree[p], want[p]);
      var k' := CollectedAt(chain, contents, n, ids, k, i);
      assert Place(chain', contents', k', i, tree[p], want[p]);
    }
  }

  lemma CollectedAt(chain: seq<nat>, contents: seq<seq<Item>>, n: nat, ids: seq<nat>, k: nat, i: nat) returns (k': nat)
    requires n < |contents| <= |chain| && k < |contents| && i < |contents[k]| && !contents[k][i].dead
    ensures k' < |Collected(contents, n)| && k' < |CollectedIds(chain, contents, n, ids)|
    ensures CollectedIds(chain, contents, n, ids)[k'] == chain[k] && Collected(contents, n)[k'] == contents[k]
  {
    hide KeptIds, KeptPages;
    KeptLengths(chain, contents, n);
    if k < n {
      k' := KeptAt(chain, contents, n, k);
    } else {
      k' := |KeptPages(contents, n)| + k - n;
      assert CollectedIds(chain, contents, n, ids)[k'] == chain[n..][k - n];
    }
  }

  lemma FastCleans(contents: seq<seq<Item>>, n: nat)
    requires n < |contents|
    ensures Cleaned(contents, n, Collected(contents, n), |KeptPages(contents, n)|, false)
  {
    hide KeptPages, Live, Flatten;
    var kept := KeptPages(contents, n);
    assert (kept + contents[n..])[..|kept|] == kept && (kept + contents[n..])[|kept|..] == contents[n..];
  }

  /** Cleaning a cleaned log thoroughly is cleaning it thoroughly at once. */
  lemma ThoroughCleans(was: seq<seq<Item>>, t: nat, mid: seq<seq<Item>>, t1: nat, now: seq<seq<Item>>, t2: nat)
    requires Cleaned(was, t, mid, t1, false) && t2 < |now| && now[t2..] == mid[t1..]
    requires now[..t2] == Packed(Live(Flatten(mid[..t1])))
    ensures Cleaned(was, t, now, t2, true)
  {
    hide KeptPages, Live, Flatten, Packed;
    KeptLive(was, t);
  }

  /** Dropping fully invalid pages does not change what there is to pack. */
  lemma PackedAlike(was: seq<seq<Item>>, t: nat, mid: seq<seq<Item>>, t1: nat)
    requires Cleaned(was, t, mid, t1, false)
    ensures Needed(was, t) == Needed(mid, t1)
  {
    hide KeptPages, Live, Flatten, Packed;
    KeptLive(was, t);
  }

  /** When the thorough collector compacts the log: there are kept pages, it is forced to or the estimate is
      below half of them, and the allocator grants exactly the estimate. */
  ghost predicate Compacts(contents: seq<seq<Item>>, t: nat, force: bool, granted: nat)
    requires t < |contents|
  {
    var kept := KeptPages(contents, t);
    var items := Flatten(kept);
    items != [] &&
    var blocks := Estimate(|Live(items)|, |kept|, |items|);
    (force || blocks * 2 < |kept|) && granted == blocks
  }

  /** What the pass counted decides as the contents do. */
  lemma Decides(contents: seq<seq<Item>>, t: nat, checked: nat, valid: nat, total: nat)
    requires t < |contents| && checked == |KeptPages(contents, t)| && SweptCounts(contents, t, valid, total)
    ensures total == 0 <==> checked == 0
    ensures total > 0 ==> 0 < Estimate(valid, checked, total) <= checked
    ensures forall force, granted :: Compacts(contents, t, force, granted) <==>
              && total > 0 && (force || Estimate(valid, checked, total) * 2 < checked)
              && granted == Estimate(valid, checked, total)
  {
    hide Estimate, KeptPages;
    KeptHasLive(contents, t);
    NoneLive();
    if checked > 0 {
      EstimatePositive(valid, checked, total);
    } else {
      assert KeptPages(contents, t) == [];
    }
  }

  /** Pages not in use by the log or about to be are not in use by the collected log. */
  lemma StillFree(chain: seq<nat>, contents: seq<seq<Item>>, n: nat, ids: seq<nat>, more: map<nat, LogPage>,
                  spares: seq<Spare>)
    requires n < |contents| <= |chain| && NotIn(chain + ids, more) && SparesLeft(spares, 0, chain + ids, more)
    ensures NotIn(CollectedIds(chain, contents, n, ids), more)
    ensures SparesLeft(spares, 0, CollectedIds(chain, contents, n, ids), more)
  {
    hide KeptIds;
    var (all, some) := (chain + ids, CollectedIds(chain, contents, n, ids));
    forall k | 0 <= k < |some|
      ensures some[k] in all
    {
      var m := |KeptIds(chain, contents, n)|;
      if k < m {
        KeptEarlier(chain, contents, n, k);
      } else if k < m + |chain| - n {
        assert some[k] == chain[n + k - m] == all[n + k - m];
      } else {
        assert some[k] == ids[k - (m + |chain| - n)] == all[|chain| + k - (m + |chain| - n)];
      }
    }
    forall j | 0 <= j < |spares|
      ensures SpareFree(spares, j, some, more)
    {
      assert SpareFree(spares, j, all, more);
    }
  }

  /** The pages the packing of the valid entries before the tail page takes. */
  function Needed(contents: seq<seq<Item>>, t: nat): nat
    requires t <= |contents|
  {
    |Packed(Live(Flatten(contents[..t])))|
  }

  /** What the collectors do behind the pass: compact the log, fault for want of a page, or neither. */
  ghost predicate Outcome(contents: seq<seq<Item>>, t: nat, force: bool, granted: nat, spares: nat, fault: bool,
                          thorough: bool) {
    t < |contents| &&
    if Compacts(contents, t, force, granted)
    then fault == (Needed(contents, t) > granted + spares) && thorough == !fault
    else !fault && !thorough
  }

  /** nova_inode_log_fast_gc: the pass, and the thorough collector behind it when the estimate calls for it. Should
      that be refused a page it needs, it faults; the log is then as the pass left it. */
  method Collect(log: Log, tree: map<nat, Addr>, newBlock: nat, numPages: nat, force: bool, ghost ids: seq<nat>,
                 room: Grant, spares: seq<Spare>, ghost want: map<nat, Item>)
    returns (fault: bool, out: map<nat, Addr>, ghost thorough: bool, ghost unused: seq<nat>)
    requires log.Valid() && numPages == |ids| && (numPages > 0 ==> |log.chain| == |log.contents| && newBlock == ids[0])
    requires Blank(log.pages, ids) && LogChains.Apart(log.chain, ids)
    requires Granted(room, log.chain + ids)
    requires SparesLeft(spares, 0, log.chain + ids, room.pages)
    requires Slots(tree, want, log.chain, log.contents, 0, 0, [], [])
    modifies log
    ensures log.Valid() && log.tailPage == old(log.tailPage) && log.tailUnit == old(log.tailUnit)
    ensures log.tailCount == old(log.tailCount)
    ensures Outcome(old(log.contents), old(log.tailAt), force, room.count, |spares|, fault, thorough)
    ensures Cleaned(old(log.contents), old(log.tailAt), log.contents, log.tailAt, thorough)
    ensures log.chain[log.tailAt..] == old(log.chain)[old(log.tailAt)..] + ids
    ensures |log.chain| <= |old(log.chain)| + |ids|
    ensures !fault ==> Slots(out, want, log.chain, log.contents, 0, 0, [], [])
    ensures log.freed == old(log.freed) + FreedOrder(old(log.chain), old(log.contents), old(log.tailAt))
                         + if thorough then unused + KeptIds(old(log.chain), old(log.contents), old(log.tailAt)) else []
    ensures log.logPages - |log.chain| == old(log.logPages) - |old(log.chain)| + |unused|
    ensures var needed := Needed(old(log.contents), old(log.tailAt));
            |unused| == if thorough && needed < room.count then room.count - needed else 0
  {
    hide Estimate, Compacts, Cleaned, SweptCounts, Slots, SparesLeft, NotIn, Blank, KeptIds, KeptPages, Collected;
    hide CollectedIds;
    hide IsLog, Used, FreedOrder, OldThenNew, Live, Flatten, Packed;
    LogSizes(log);
    ghost var (chain0, contents0, t0) := (log.chain, log.contents, log.tailAt);
    StillFree(chain0, contents0, t0, ids, room.pages, spares);
    SlotsCollected(tree, want, chain0, contents0, t0, ids);
    FastCleans(contents0, t0);
    CollectedParts(chain0, contents0, t0, ids);
    var checked, valid, total := log.FastGc(newBlock, numPages, ids);
    Decides(contents0, t0, checked, valid, total);
    fault, out, thorough, unused := false, tree, false, [];
    if total == 0 {
      return;
    }
    var blocks := Estimate(valid, checked, total);
    if force || (blocks > 0 && blocks * 2 < checked) {
      ghost var (contents1, t1) := (log.contents, log.tailAt);
      ghost var stops;
      PackedAlike(contents0, t0, contents1, t1);
      fault, out, stops, unused := ThoroughGc(log, tree, blocks, checked, room.pages, room.first, room.count, room.ids,
                                              spares, want);
      thorough := room.count == blocks && !fault;
      if thorough {
        ThoroughCleans(contents0, t0, contents1, t1, log.contents, log.tailAt);
      }
    }
  }

  lemma CollectedParts(chain: seq<nat>, contents: seq<seq<Item>>, n: nat, ids: seq<nat>)
    requires n < |contents| <= |chain|
    ensures var (all, t) := (CollectedIds(chain, contents, n, ids), |KeptPages(contents, n)|);
            && t <= n && t <= |all| <= |chain| + |ids|
            && all[..t] == KeptIds(chain, contents, n) && all[t..] == chain[n..] + ids
  {
    hide KeptIds, KeptPages;
    KeptLengths(chain, contents, n);
  }

  // ----- growing and appending -----

  /** nova_extend_inode_log: refused when no page is granted. It faults just when the collector does. */
  method Extend(log: Log, tree: map<nat, Addr>, grant: Grant, room: Grant, spares: seq<Spare>,
                ghost want: map<nat, Item>)
    returns (ok: bool, fault: bool, out: map<nat, Addr>, ghost thorough: bool)
    requires log.Valid() && |log.chain| == |log.contents| && Granted(grant, log.chain)
    requires Granted(room, log.chain + grant.ids)
    requires SparesLeft(spares, 0, log.chain + grant.ids, room.pages)
    requires Slots(tree, want, log.chain, log.contents, 0, 0, [], [])
    modifies log
    ensures ok <==> grant.count > 0
    ensures !ok ==> unchanged(log) && out == tree && !thorough && !fault
    ensures log.Valid() && log.tailPage == old(log.tailPage) && log.tailUnit == old(log.tailUnit)
    ensures log.tailCount == old(log.tailCount)
    ensures ok ==>
              && Cleaned(old(log.contents), old(log.tailAt), log.contents, log.tailAt, thorough)
              && |log.contents| < |log.chain|
    ensures ok ==> Outcome(old(log.contents), old(log.tailAt), false, room.count, |spares|, fault, thorough)
    ensures !fault ==> Slots(out, want, log.chain, log.contents, 0, 0, [], [])
  {
    hide Compacts, Cleaned, Slots, SparesLeft, NotIn, Blank, IsLog, Used, FreedOrder, KeptIds;
    if grant.count == 0 {
      return false, false, tree, false;
    }
    ghost var (chain0, contents0, t0) := (log.chain, log.contents, log.tailAt);
    EnlargedLog(log.pages, grant.pages, chain0, contents0, grant.ids);
    log.pages := log.pages + grant.pages;
    ghost var unused;
    fault, out, thorough, unused := Collect(log, tree, grant.first, grant.count, false, grant.ids, room, spares, want);
    LogSizes(log);
    RoomBehind(log.chain, log.contents, log.tailAt, chain0, contents0, t0, grant.ids, thorough);
    ok := true;
  }

  lemma EnlargedLog(pages: map<nat, LogPage>, more: map<nat, LogPage>, chain: seq<nat>, contents: seq<seq<Item>>,
                    ids: seq<nat>)
    requires IsLog(pages, chain, contents) && |chain| == |contents| && Blank(more, ids) && NotIn(chain, more)
    ensures var all := pages + more; IsLog(all, chain, contents) && Blank(all, ids) && LogChains.Apart(chain, ids)
  {
    hide Linked, Stored, Counted, Filled, Blank;
    Enlarged(pages, more, chain, contents, ids);
  }

  lemma RoomBehind(chain: seq<nat>, contents: seq<seq<Item>>, t: nat, chain0: seq<nat>, contents0: seq<seq<Item>>,
                   t0: nat, ids: seq<nat>, thorough: bool)
    requires Cleaned(contents0, t0, contents, t, thorough) && |contents0| == |chain0| && ids != [] && t < |chain|
    requires chain[t..] == chain0[t0..] + ids
    ensures |contents| < |chain|
  {
    assert |contents[t..]| == |contents0[t0..]| && |chain[t..]| == |chain0[t0..]| + |ids|;
  }

  /** Slots stay when an entry is appended. */
  lemma SlotsAppend(tree: map<nat, Addr>, want: map<nat, Item>, chain: seq<nat>, contents: seq<seq<Item>>, it: Item)
    requires contents != [] && Slots(tree, want, chain, contents, 0, 0, [], [])
    ensures Slots(tree, want, chain, AppendItem(contents, it), 0, 0, [], [])
  {
    hide Used, AppendItem;
    forall p | p in tree
      ensures SlotAt(tree[p], want[p], p, chain, AppendItem(contents, it), 0, 0, [], [])
    {
      assert SlotAt(tree[p], want[p], p, chain, contents, 0, 0, [], []);
      var k: nat, i: nat :| Place(chain, contents, k, i, tree[p], want[p]);
      PlaceStays(chain, contents, it, [], tree[p], want[p]);
      assert chain + [] == chain;
      var k': nat, i': nat :| Place(chain, AppendItem(contents, it), k', i', tree[p], want[p]);
    }
  }

  /** nova_get_append_head and nova_append_log_entry: `grant` is what the allocator hands out should the log have
      to grow, `room` and `spares` what it hands out should that start the thorough collector. Whatever is
      collected on the way, the valid entries stay as they were with the new one last. If the collector faults,
      they stay as they were without it. */
  method AppendEntry(log: Log, it: Item, body: seq<Slot>, tree: map<nat, Addr>, grant: Grant, room: Grant,
                     spares: seq<Spare>, ghost want: map<nat, Item>)
    returns (ok: bool, fault: bool, out: map<nat, Addr>, ghost thorough: bool, ghost mid: seq<seq<Item>>)
    requires log.Valid() && Sized(it) && !it.dead && |body| == it.size - 1
    requires Granted(grant, log.chain) && Granted(room, log.chain + grant.ids)
    requires SparesLeft(spares, 0, log.chain + grant.ids, room.pages)
    requires Slots(tree, want, log.chain, log.contents, 0, 0, [], [])
    modifies log
    ensures log.Valid() && (ok <==> !fault && !(old(log.NeedsPage(it.size)) && grant.count == 0))
    ensures fault ==> old(log.NeedsPage(it.size)) && grant.count > 0
    ensures !ok && !fault ==> log.contents == old(log.contents) && log.chain == old(log.chain) && out == tree
    ensures ok ==> mid != [] && log.contents == AppendItem(mid, it)
    ensures ok && !old(log.NeedsPage(it.size)) ==>
              mid == old(log.contents) && log.chain == old(log.chain) && out == tree
    ensures (ok || fault) && old(log.NeedsPage(it.size)) ==>
              && Cleaned(old(log.contents), old(log.tailAt), mid, log.tailAt, thorough)
              && Outcome(old(log.contents), old(log.tailAt), false, room.count, |spares|, fault, thorough)
    ensures fault ==> log.contents == mid
    ensures Live(Flatten(log.contents)) == Live(Flatten(old(log.contents))) + if ok then [it] else []
    ensures Live(Flatten(log.Committed())) == Live(Flatten(old(log.Committed())))
    ensures !fault ==> Slots(out, want, log.chain, log.contents, 0, 0, [], [])
  {
    hide IsLog, Used, PageHolds, Outcome, Cleaned, Slots, SparesLeft, NotIn, Blank, AppendItem, Live, Flatten;
    log.CursorFacts();
    ok, fault, out, thorough, mid := true, false, tree, false, log.contents;
    if !IsLast(log.curUnit, it.size) {
      log.WriteEntry(it, body);
      Appended(mid, it, log.tailAt, log.tailCount);
      SlotsAppend(tree, want, log.chain, mid, it);
      return;
    }
    var full := log.pages[log.curPage].next == 0;
    log.SetFlag();
    if full {
      ghost var (contents0, t0) := (log.contents, log.tailAt);
      log.CursorFacts();
      ok, fault, out, thorough := Extend(log, tree, grant, room, spares, want);
      if !ok {
        return;
      }
      CleanedKeeps(contents0, t0, log.contents, log.tailAt, thorough);
      CleanedLast(contents0, t0, log.contents, log.tailAt, thorough);
      mid := log.contents;
      if fault {
        ok := false;
        return;
      }
      log.SetFlag();
    }
    log.CursorFacts();
    OnNewPage(mid, it);
    log.WriteOnNext(it, body);
    Appended(mid, it, log.tailAt, log.tailCount);
    SlotsAppend(out, want, log.chain, mid, it);
  }

  /** An append behind the tail shows last, and not before it is committed. */
  lemma Appended(was: seq<seq<Item>>, it: Item, t: nat, n: nat)
    requires was != [] && !it.dead && t < |was| && n <= |was[t]|
    ensures var now := AppendItem(was, it);
            && Live(Flatten(now)) == Live(Flatten(was)) + [it]
            && t < |now| && n <= |now[t]| && now[..t] + [now[t][..n]] == was[..t] + [was[t][..n]]
  {
    hide Flatten;
    FlattenAppend(was, it);
    LiveLast(Flatten(was), it);
    AppendBehind(was, it, t, n);
  }

  lemma LiveLast(items: seq<Item>, it: Item)
    requires !it.dead
    ensures Live(items + [it]) == Live(items) + [it]
  {
    assert (items + [it])[..|items|] == items;
  }

  lemma AppendBehind(was: seq<seq<Item>>, it: Item, t: nat, n: nat)
    requires was != [] && t < |was| && n <= |was[t]|
    ensures var now := AppendItem(was, it);
            t < |now| && n <= |now[t]| && now[..t] + [now[t][..n]] == was[..t] + [was[t][..n]]
  {
    hide Used;
    var now := AppendItem(was, it);
    assert now[..t] == was[..t];
    assert now[t][..n] == was[t][..n];
  }

  lemma OnNewPage(was: seq<seq<Item>>, it: Item)
    requires was != [] && IsLast(Used(was[|was| - 1]), it.size)
    ensures AppendItem(was, it) == was + [[it]]
  {}

  /** Collecting does not touch the page that is being appended to. */
  lemma CleanedLast(was: seq<seq<Item>>, t: nat, now: seq<seq<Item>>, t': nat, thorough: bool)
    requires Cleaned(was, t, now, t', thorough)
    ensures now[|now| - 1] == was[|was| - 1]
  {
    assert now[t'..][|now| - t' - 1] == now[|now| - 1] && was[t..][|was| - t - 1] == was[|was| - 1];
  }
}
