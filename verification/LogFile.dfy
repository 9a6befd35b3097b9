/** The inode log as an object (log.c, gc.c): writing entries, committing, marking entries invalid, and the
    fast collector's pass. */
module LogFile {
  import opened LogPages
  import opened LogChains
  import opened InodeLog

  /** Pages the allocator handed out, linked and with their counters cleared. */
  ghost predicate Blank(pages: map<nat, LogPage>, ids: seq<nat>) {
    Linked(pages, ids, 0) && forall k :: 0 <= k < |ids| ==> BlankPage(pages[ids[k]])
  }

  /** Pages in use are not handed out again. */
  ghost predicate NotIn(chain: seq<nat>, more: map<nat, LogPage>) {
    forall k :: 0 <= k < |chain| ==> chain[k] !in more
  }

  /** A page the allocator may hand out during a copy. */
  datatype Spare = Spare(id: nat, page: LogPage)

  predicate Usable(spare: Spare, pages: map<nat, LogPage>) {
    BlankPage(spare.page) && spare.id != 0 && spare.id !in pages
  }

  predicate BlankPage(page: LogPage) {
    |page.cells| == PAYLOAD && page.num == 0 && page.invalid == 0
  }

  /** A chain whose first pages hold these contents, counted, and whose other pages are blank. */
  ghost predicate IsLog(pages: map<nat, LogPage>, chain: seq<nat>, contents: seq<seq<Item>>) {
    && Linked(pages, chain, 0) && Stored(pages, chain, contents) && Filled(contents) && Counted(pages, chain, contents)
    && forall k :: |contents| <= k < |chain| ==> BlankPage(pages[chain[k]])
  }

  class Log {
    var pages: map<nat, LogPage>
    var head: nat
    var tailPage: nat
    var tailUnit: nat
    var curPage: nat
    var curUnit: nat
    var logPages: int
    var freed: seq<nat>

    // The chain of pages, what the first of them hold, and where the committed entries end.
    ghost var chain: seq<nat>
    ghost var contents: seq<seq<Item>>
    ghost var tailAt: nat
    ghost var tailCount: nat

    ghost predicate Valid()
      reads this
    {
      && IsLog(pages, chain, contents) && head == chain[0]
      && curPage == chain[|contents| - 1] && curUnit == Used(contents[|contents| - 1])
      && tailAt < |contents| && tailCount <= |contents[tailAt]| && (tailAt > 0 ==> tailCount > 0)
      && tailPage == chain[tailAt] && tailUnit == Used(contents[tailAt][..tailCount])
    }

    /** nova_initialize_inode_log, or the first of several linked pages for a new log. */
    constructor (more: map<nat, LogPage>, first: nat, count: nat, ghost ids: seq<nat>)
      requires count == |ids| > 0 && Blank(more, ids) && first == ids[0]
      ensures Valid() && pages == more && chain == ids && contents == [[]] && head == first && freed == []
      ensures tailAt == 0 && tailCount == 0
    {
      pages, head, tailPage, tailUnit, curPage, curUnit, logPages, freed := more, first, first, 0, first, 0, count, [];
      chain, contents, tailAt, tailCount := ids, [[]], 0, 0;
      new;
      BlankHolds(pages[first]);
      assert forall k :: 0 <= k < |ids| ==> CountedAt(pages, chain, contents, k);
      assert contents[0][..0] == [];
    }

    /** What a reader of the committed log meets. */
    ghost function Committed(): seq<seq<Item>>
      requires Valid()
      reads this
    {
      contents[..tailAt] + [contents[tailAt][..tailCount]]
    }

    /** The committed log can be read back: uncommitted entries and spare pages do not show. */
    lemma CommittedShows()
      requires Valid()
      ensures Shows(pages, head, tailPage, tailUnit, chain[..tailAt + 1], Committed())
    {
      PrefixShows(pages, chain, contents, 0, tailAt, tailCount);
    }

    /** nova_update_inode: the tail moves to the end of what was appended. */
    method Commit()
      requires Valid()
      modifies this`tailPage, this`tailUnit, this`tailAt, this`tailCount
      ensures Valid() && Committed() == contents
    {
      tailPage, tailUnit := curPage, curUnit;
      tailAt, tailCount := |contents| - 1, |contents[|contents| - 1]|;
      assert contents[tailAt][..tailCount] == contents[tailAt];
      assert contents[..tailAt] + [contents[tailAt]] == contents;
    }

    // ----- appending -----

    /** nova_set_next_page_flag at the append position. */
    method SetFlag()
      requires Valid()
      modifies this`pages
      ensures Valid() && pages.Keys == old(pages.Keys) && pages[curPage].next == old(pages[curPage].next)
      ensures PageHolds(pages[curPage], contents[|contents| - 1], false)
    {
      hide PageHolds, Used, Deads;
      var n := |contents| - 1;
      assert StoredAt(pages, chain, contents, n) && CountedAt(pages, chain, contents, n);
      HoldsCells(pages[curPage], contents[n], true);
      FlagHolds(pages[curPage], contents[n]);
      pages := pages[curPage := Flagged(pages[curPage], curUnit)];
      HoldsLast(pages[curPage], contents[n]);
      OnePageChanged(old(pages), pages, chain, contents, contents, n);
    }

    /** Write an entry at the append position. */
    method WriteEntry(it: Item, body: seq<Slot>)
      requires Valid() && Sized(it) && !it.dead && |body| == it.size - 1 && !IsLast(curUnit, it.size)
      modifies this`pages, this`curUnit, this`contents
      ensures Valid() && contents == AppendItem(old(contents), it) && pages.Keys == old(pages.Keys)
    {
      hide PageHolds, Used, Deads;
      var n := |contents| - 1;
      assert StoredAt(pages, chain, contents, n) && CountedAt(pages, chain, contents, n);
      HoldsCells(pages[curPage], contents[n], true);
      var page := pages[curPage].(cells := WriteItem(pages[curPage].cells, curUnit, it, body),
                                  num := pages[curPage].num + 1);
      WriteHolds(pages[curPage], contents[n], it, body);
      HoldsFields(pages[curPage].(cells := page.cells), page, contents[n] + [it], true);
      DeadsAppend(contents[n], it);
      UsedAppend(contents[n], it);
      pages := pages[curPage := page];
      curUnit := curUnit + it.size;
      ghost var was := contents;
      contents := contents[n := contents[n] + [it]];
      OnePageChanged(old(pages), pages, chain, was, contents, n);
      if tailAt == n {
        assert (was[n] + [it])[..tailCount] == was[n][..tailCount];
      }
    }

    /** Write an entry at the start of the next page. */
    method WriteOnNext(it: Item, body: seq<Slot>)
      requires Valid() && Sized(it) && !it.dead && |body| == it.size - 1 && |contents| < |chain|
      requires PageHolds(pages[curPage], contents[|contents| - 1], false)
      modifies this`pages, this`curPage, this`curUnit, this`contents
      ensures Valid() && contents == old(contents) + [[it]] && pages.Keys == old(pages.Keys)
    {
      hide PageHolds, Used, Deads;
      ghost var n := |contents|;
      assert LinkedAt(pages, chain, 0, n - 1);
      var p := pages[curPage].next;
      BlankHolds(pages[p]);
      WriteHolds(pages[p], [], it, body);
      var page := pages[p].(cells := WriteItem(pages[p].cells, 0, it, body), num := pages[p].num + 1);
      HoldsFields(pages[p].(cells := page.cells), page, [] + [it], true);
      assert CountedAt(pages, chain, contents, n);
      DeadsAppend([], it);
      UsedAppend([], it);
      pages := pages[p := page];
      curPage, curUnit := p, it.size;
      ghost var was := contents;
      contents := contents + [[it]];
      assert [] + [it] == [it];
      NextPageAdded(old(pages), pages, chain, was, it);
    }

    /** Where the log ends shows in the link of the append page. */
    lemma CursorFacts()
      requires Valid()
      ensures Linked(pages, chain, 0)
      ensures contents != [] && curPage in pages && |contents| <= |chain| && curUnit == Used(contents[|contents| - 1])
      ensures chain[|chain| - 1] in pages && (pages[curPage].next == 0 <==> |chain| == |contents|)
    {
      assert LinkedAt(pages, chain, 0, |contents| - 1);
    }

    /** An entry of this size takes a page the log does not have yet. */
    ghost predicate NeedsPage(size: nat)
      reads this
    {
      IsLast(curUnit, size) && |chain| == |contents|
    }

    /** Copying an entry into a log under construction: a full log grows by one page, the next of the pool. */
    method AppendCopy(it: Item, body: seq<Slot>, pool: seq<Spare>, s: nat) returns (s': nat)
      requires Valid() && Sized(it) && !it.dead && |body| == it.size - 1
      requires NeedsPage(it.size) ==> s < |pool| && Usable(pool[s], pages)
      modifies this`pages, this`curPage, this`curUnit, this`contents, this`chain
      ensures Valid() && contents == AppendItem(old(contents), it)
      ensures s' == if old(NeedsPage(it.size)) then s + 1 else s
      ensures chain == old(chain) + if s' > s then [pool[s].id] else []
      ensures pages.Keys == old(pages.Keys) + if s' > s then {pool[s].id} else {}
      ensures curPage == chain[|contents| - 1] && it.size <= curUnit <= PAYLOAD == |pages[curPage].cells|
      ensures pages[curPage].cells[curUnit - it.size] == Ent(it)
    {
      hide IsLog, Linked, Stored, Filled, Counted, Used, PageHolds;
      s' := s;
      CursorFacts();
      ghost var contents0 := contents;
      if IsLast(curUnit, it.size) {
        if pages[curPage].next == 0 {
          SetFlag();
          AppendPage(pool[s]);
          s' := s + 1;
        }
        SetFlag();
        CursorFacts();
        WriteOnNext(it, body);
      } else {
        WriteEntry(it, body);
      }
      LastItem(pages, chain, contents, contents0, it);
    }

    /** nova_append_one_log_page */
    method AppendPage(spare: Spare)
      requires Valid() && |chain| == |contents| && Usable(spare, pages)
      modifies this`pages, this`chain
      ensures Valid() && chain == old(chain) + [spare.id] && pages.Keys == old(pages.Keys) + {spare.id}
    {
      hide Linked, Stored, Filled, Counted, Used, PageHolds;
      CursorFacts();
      LinkedLast(pages, chain, contents, spare.id, spare.page);
      pages := pages[spare.id := spare.page.(next := 0)];
      pages := pages[curPage := pages[curPage].(next := spare.id)];
      chain := chain + [spare.id];
    }

    /** Marking an entry invalid, with its page's counter. */
    method Invalidate(page: nat, unit: nat, ghost k: nat, ghost i: nat)
      requires Valid() && k < |contents| && i < |contents[k]| && !contents[k][i].dead
      requires page == chain[k] && unit == Used(contents[k][..i])
      modifies this`pages, this`contents
      ensures Valid() && contents == old(contents)[k := old(contents)[k][i := old(contents)[k][i].(dead := true)]]
    {
      hide PageHolds, Used, Deads;
      ghost var (was, items) := (contents, contents[k][i := contents[k][i].(dead := true)]);
      assert StoredAt(pages, chain, contents, k) && CountedAt(pages, chain, contents, k);
      HoldsCells(pages[page], contents[k], k + 1 == |contents|);
      ReaderMoves(pages[page], contents[k], k + 1 == |contents|, i);
      var old_ := pages[page];
      var it := old_.cells[unit].item;
      DeadHolds(old_, contents[k], k + 1 == |contents|, i);
      var now := old_.(cells := old_.cells[unit := Ent(it.(dead := true))], invalid := old_.invalid + 1);
      HoldsFields(old_.(cells := now.cells), now, items, k + 1 == |contents|);
      DeadsSet(contents[k], i);
      pages := pages[page := now];
      contents := contents[k := items];
      OnePageChanged(old(pages), pages, chain, was, contents, k);
      UsedDead(was[k], i);
      if tailAt == k {
        UsedDeadPrefix(was[k], i, tailCount);
      }
    }

    /** Take over a memory and a chain that end in this log's own tail and append pages. */
    method Install(newPages: map<nat, LogPage>, newHead: nat, gone: seq<nat>, ghost ids: seq<nat>,
                   ghost items: seq<seq<Item>>, ghost t: nat)
      requires IsLog(newPages, ids, items) && newHead == ids[0] && t < |items|
      requires tailPage == ids[t] && tailCount <= |items[t]| && (t > 0 ==> tailCount > 0)
      requires tailUnit == Used(items[t][..tailCount])
      requires curPage == ids[|items| - 1] && curUnit == Used(items[|items| - 1])
      modifies this`pages, this`head, this`freed, this`chain, this`contents, this`tailAt
      ensures Valid() && pages == newPages && head == newHead && freed == old(freed) + gone
      ensures chain == ids && contents == items && tailAt == t
    {
      hide Linked, Stored, Filled, Counted, Used, PageHolds;
      pages, head, freed := newPages, newHead, freed + gone;
      chain, contents, tailAt := ids, items, t;
    }

    // ----- collecting -----

    /** The collector's pass over the pages before the tail page: unlink the fully invalid ones, all but the
        head page being freed at once. */
    method SweepPages() returns (newHead: nat, headInvalid: bool, dropped: nat, checked: nat, valid: nat, total: nat)
      requires Valid()
      modifies this`pages, this`freed
      ensures SameButLinks(old(pages), pages) && OutsideSame(old(pages), pages, chain)
      ensures Linked(pages, KeptIds(chain, contents, tailAt), tailPage) && Linked(pages, chain[tailAt..], 0)
      ensures newHead == (KeptIds(chain, contents, tailAt) + chain[tailAt..])[0]
      ensures headInvalid <==> tailAt > 0 && AllDead(contents[0])
      ensures checked == tailAt && SweptCounts(contents, tailAt, valid, total)
      ensures var ids := DroppedIds(chain, contents, tailAt); dropped == |ids|
      ensures var ids := DroppedIds(chain, contents, tailAt);
              && (headInvalid ==> ids != [] && ids[0] == head)
              && freed == old(freed) + if headInvalid then ids[1..] else ids
    {
      hide PageHolds, Used, Deads, AllDead, Linked, Stored, Counted, KeptIds, DroppedIds, SweptSoFar, Sweeping;
      hide SameButLinks, OutsideSame, Filled;
      hide SweptCounts;
      newHead, headInvalid, dropped, checked, valid, total := 0, false, 0, 0, 0, 0;
      var curr, lastPage, foundHead := head, 0, false;
      ghost var k: nat := 0;
      ghost var (pages0, freed0) := (pages, freed);
      SweepStart(pages, chain, contents, freed);
      CountStart(contents);
      while curr != tailPage
        invariant k <= tailAt && curr == chain[k]
        invariant Sweeping(pages0, pages, chain, contents, k, lastPage, headInvalid, foundHead, newHead)
        invariant SweptSoFar(chain, contents, k, headInvalid, dropped, freed0, freed)
        invariant checked == k && SweptCounts(contents, k, valid, total)
        decreases tailAt - k
      {
        SweepNext(pages0, pages, chain, contents, k, lastPage, headInvalid, foundHead, newHead);
        SweepStep(chain, contents, k, headInvalid, dropped, freed0, freed);
        SweepHolds(pages0, pages, chain, contents, k, lastPage, headInvalid, foundHead, newHead);
        CountStep(pages0, pages, chain, contents, k, valid, total);
        var next := pages[curr].next;
        if pages[curr].num == pages[curr].invalid {
          if curr == head {
            headInvalid, lastPage := true, curr;
          } else {
            pages := pages[lastPage := pages[lastPage].(next := pages[curr].next)];
            freed := freed + [curr];
          }
          dropped := dropped + 1;
        } else {
          if !foundHead {
            newHead, foundHead := curr, true;
          }
          lastPage := curr;
          total, valid := total + pages[curr].num, valid + (pages[curr].num - pages[curr].invalid);
        }
        curr, checked, k := next, checked + 1, k + 1;
      }
      SweepEnd(pages0, pages, chain, contents, k, tailAt, lastPage, headInvalid, foundHead, newHead);
      SweptParts(chain, contents, k, headInvalid, dropped, freed0, freed);
      if !foundHead {
        newHead := curr;
      }
    }

    /** The pass of nova_inode_log_fast_gc: unlink and free the fully invalid pages before the tail page,
        link new pages, if there are any, behind a full log, and switch the head. What it counts says how
        much of the rest is valid. */
    method FastGc(newBlock: nat, numPages: nat, ghost ids: seq<nat>) returns (checked: nat, valid: nat, total: nat)
      requires Valid() && numPages == |ids| && (numPages > 0 ==> |chain| == |contents| && newBlock == ids[0])
      requires Blank(pages, ids) && LogChains.Apart(chain, ids)
      modifies this`pages, this`head, this`logPages, this`freed, this`chain, this`contents, this`tailAt
      ensures Valid() && pages.Keys == old(pages.Keys)
      ensures contents == Collected(old(contents), old(tailAt)) && tailAt == |KeptPages(old(contents), old(tailAt))|
      ensures chain == CollectedIds(old(chain), old(contents), old(tailAt), ids)
      ensures freed == old(freed) + FreedOrder(old(chain), old(contents), old(tailAt))
      ensures logPages - |chain| == old(logPages) - |old(chain)|
      ensures checked == tailAt && SweptCounts(old(contents), old(tailAt), valid, total)
    {
      hide PageHolds, Used, Deads, AllDead, Linked, Stored, Counted, KeptIds, KeptPages, DroppedIds, Filled;
      hide IsLog, SameButLinks, OutsideSame, Blank, FreedOrder, Behind, Sweeping, SweptSoFar, SweptCounts;
      hide Collected, CollectedIds;
      var oldHead := head;
      ghost var (pages0, n) := (pages, tailAt);
      CursorFacts();
      ChainFacts(pages, chain);
      SweepStart(pages, chain, contents, freed);
      var newHead, headInvalid, dropped, seen, ok, all := SweepPages();
      KeptLengths(chain, contents, n);
      checked, valid, total := seen - dropped, ok, all;
      SameKeys(pages0, pages);
      var linked := pages;
      if numPages > 0 {
        linked := pages[curPage := pages[curPage].(next := newBlock)];
      }
      BehindIs(pages, linked, chain, curPage, ids);
      PassDone(pages0, pages, linked, chain, contents, n, ids);
      FreedInOrder(chain, contents, n, headInvalid, old(freed), freed);
      PassLength(chain, contents, n, ids);
      logPages := logPages + numPages - dropped;
      Install(linked, newHead, if headInvalid then [oldHead] else [],
              CollectedIds(chain, contents, n, ids), Collected(contents, n), |KeptPages(contents, n)|);
    }
  }

  /** The pages after the fast collector, and the new ones. */
  function CollectedIds(chain: seq<nat>, contents: seq<seq<Item>>, n: nat, ids: seq<nat>): seq<nat>
    requires n <= |chain| && n <= |contents|
  {
    KeptIds(chain, contents, n) + chain[n..] + ids
  }

  /** The contents after the fast collector: fully invalid pages before the tail page are gone. */
  function Collected(contents: seq<seq<Item>>, n: nat): seq<seq<Item>>
    requires n < |contents|
  {
    KeptPages(contents, n) + contents[n..]
  }

  lemma HoldsLast(page: LogPage, items: seq<Item>)
    requires PageHolds(page, items, false)
    ensures PageHolds(page, items, true)
  {}

  /** A blank page linked behind the last one. */
  lemma LinkedLast(pages: map<nat, LogPage>, chain: seq<nat>, contents: seq<seq<Item>>, id: nat, spare: LogPage)
    requires Linked(pages, chain, 0) && Stored(pages, chain, contents) && Counted(pages, chain, contents)
    requires |chain| == |contents|
    requires id != 0 && id !in pages && BlankPage(spare)
    ensures var last := chain[|chain| - 1];
            && last in pages
            && var out := pages[id := spare.(next := 0)][last := pages[last].(next := id)];
               && Linked(out, chain + [id], 0) && Stored(out, chain + [id], contents)
               && Counted(out, chain + [id], contents)
               && BlankPage(out[id])
  {
    hide PageHolds, Deads;
    var last := chain[|chain| - 1];
    assert last in pages && last != id;
    var out := pages[id := spare.(next := 0)][last := pages[last].(next := id)];
    var all := chain + [id];
    forall k | 0 <= k < |all|
      ensures LinkedAt(out, all, 0, k) && CountedAt(out, all, contents, k)
    {
      if k < |chain| {
        assert LinkedAt(pages, chain, 0, k) && CountedAt(pages, chain, contents, k);
        assert chain[k] in pages;
      } else {
        assert Deads([]) == 0 by { BlankHolds(spare); }
      }
    }
    forall k | 0 <= k < |contents|
      ensures StoredAt(out, all, contents, k)
    {
      assert StoredAt(pages, chain, contents, k);
      HoldsFields(pages[chain[k]], out[chain[k]], contents[k], k + 1 == |contents|);
    }
  }

  lemma LastItem(pages: map<nat, LogPage>, chain: seq<nat>, contents: seq<seq<Item>>, was: seq<seq<Item>>, it: Item)
    requires IsLog(pages, chain, contents) && was != [] && contents == AppendItem(was, it)
    ensures var (n, page) := (|contents| - 1, chain[|contents| - 1]);
            && page in pages && it.size <= Used(contents[n]) <= PAYLOAD && |pages[page].cells| == PAYLOAD
            && Used(contents[n]) - it.size < PAYLOAD && pages[page].cells[Used(contents[n]) - it.size] == Ent(it)
  {
    hide PageHolds, Used;
    var n := |contents| - 1;
    assert StoredAt(pages, chain, contents, n);
    var i := |contents[n]| - 1;
    assert contents[n][i] == it;
    HoldsCells(pages[chain[n]], contents[n], true);
    ReaderMoves(pages[chain[n]], contents[n], true, i);
    ItemFits(contents[n], i);
    UsedStep(contents[n], i);
    assert contents[n][..i + 1] == contents[n];
  }

  lemma {:induction false} UsedDead(items: seq<Item>, i: nat)
    requires i < |items|
    ensures Used(items[i := items[i].(dead := true)]) == Used(items)
    decreases |items|
  {
    var (n, out) := (|items| - 1, items[i := items[i].(dead := true)]);
    if i < n {
      UsedDead(items[..n], i);
      assert out[..n] == items[..n][i := items[i].(dead := true)];
    } else {
      assert out[..n] == items[..n];
    }
  }

  lemma UsedDeadPrefix(items: seq<Item>, i: nat, j: nat)
    requires i < |items| && j <= |items|
    ensures Used(items[i := items[i].(dead := true)][..j]) == Used(items[..j])
  {
    var out := items[i := items[i].(dead := true)];
    if i < j {
      UsedDead(items[..j], i);
      assert out[..j] == items[..j][i := items[i].(dead := true)];
    } else {
      assert out[..j] == items[..j];
    }
  }

  lemma {:induction false} DeadsSet(items: seq<Item>, i: nat)
    requires i < |items| && !items[i].dead
    ensures Deads(items[i := items[i].(dead := true)]) == Deads(items) + 1
    decreases |items|
  {
    var (n, out) := (|items| - 1, items[i := items[i].(dead := true)]);
    if i < n {
      DeadsSet(items[..n], i);
      assert out[..n] == items[..n][i := items[i].(dead := true)];
    } else {
      assert out[..n] == items[..n];
    }
  }

  lemma DeadHolds(page: LogPage, items: seq<Item>, last: bool, i: nat)
    requires PageHolds(page, items, last) && i < |items| && Used(items[..i]) < PAYLOAD
    ensures var (it, u) := (items[i].(dead := true), Used(items[..i]));
            PageHolds(page.(cells := page.cells[u := Ent(it)]), items[i := it], last)
  {
    var (it, u) := (items[i].(dead := true), Used(items[..i]));
    var (cells, out) := (page.cells[u := Ent(it)], items[i := it]);
    UsedDead(items, i);
    assert ItemAt(page.cells, items, i);
    forall j | 0 <= j < |out|
      ensures ItemAt(cells, out, j)
    {
      assert ItemAt(page.cells, items, j);
      UsedDeadPrefix(items, i, j);
      if j < i {
        PlacesRise(items, j, i);
      } else if i < j {
        PlacesRise(items, i, j);
      }
    }
    ItemFits(items, i);
  }

  lemma PlacesRise(items: seq<Item>, i: nat, j: nat)
    requires i < j <= |items| && items[i].size > 0
    ensures Used(items[..i]) < Used(items[..j])
  {
    UsedStep(items, i);
    UsedPrefix(items[..j], i + 1);
    assert items[..j][..i + 1] == items[..i + 1];
  }

  lemma BlankHolds(page: LogPage)
    requires BlankPage(page)
    ensures PageHolds(page, [], true) && Used([]) == 0 && Deads([]) == 0
  {}

  /** Changing the contents of page k only. */
  lemma OnePageChanged(a: map<nat, LogPage>, b: map<nat, LogPage>, chain: seq<nat>, was: seq<seq<Item>>,
                       contents: seq<seq<Item>>, k: nat)
    requires Linked(a, chain, 0) && Stored(a, chain, was) && Counted(a, chain, was) && Filled(was)
    requires k < |was| == |contents| && contents == was[k := contents[k]] && (k > 0 ==> contents[k] != [])
    requires b.Keys == a.Keys && (forall p :: p in a && p != chain[k] ==> b[p] == a[p])
    requires b[chain[k]].next == a[chain[k]].next
    requires PageHolds(b[chain[k]], contents[k], k + 1 == |contents|)
    requires b[chain[k]].num == |contents[k]| && b[chain[k]].invalid == Deads(contents[k])
    ensures Linked(b, chain, 0) && Stored(b, chain, contents) && Counted(b, chain, contents) && Filled(contents)
    ensures forall j :: |was| <= j < |chain| ==> b[chain[j]] == a[chain[j]]
  {
    hide PageHolds, Deads;
    LinkedOutside(a, b, chain, 0);
    forall j | 0 <= j < |contents|
      ensures StoredAt(b, chain, contents, j)
    {
      assert StoredAt(a, chain, was, j);
    }
    forall j | 0 <= j < |chain|
      ensures CountedAt(b, chain, contents, j)
    {
      assert CountedAt(a, chain, was, j);
    }
  }

  /** The first entry on a spare page. */
  lemma NextPageAdded(a: map<nat, LogPage>, b: map<nat, LogPage>, chain: seq<nat>, was: seq<seq<Item>>, it: Item)
    requires Linked(a, chain, 0) && Stored(a, chain, was) && Counted(a, chain, was) && Filled(was) && |was| < |chain|
    requires PageHolds(a[chain[|was| - 1]], was[|was| - 1], false)
    requires b.Keys == a.Keys && (forall p :: p in a && p != chain[|was|] ==> b[p] == a[p])
    requires b[chain[|was|]].next == a[chain[|was|]].next
    requires PageHolds(b[chain[|was|]], [it], true) && b[chain[|was|]].num == 1
    requires b[chain[|was|]].invalid == Deads([it])
    ensures var contents := was + [[it]];
            && Linked(b, chain, 0) && Stored(b, chain, contents) && Counted(b, chain, contents) && Filled(contents)
            && (forall j :: |contents| <= j < |chain| ==> b[chain[j]] == a[chain[j]])
  {
    hide PageHolds, Deads;
    var contents := was + [[it]];
    LinkedOutside(a, b, chain, 0);
    forall j | 0 <= j < |contents|
      ensures StoredAt(b, chain, contents, j)
    {
      if j < |was| {
        assert StoredAt(a, chain, was, j);
      }
    }
    forall j | 0 <= j < |chain|
      ensures CountedAt(b, chain, contents, j)
    {
      assert CountedAt(a, chain, was, j);
    }
  }

  /** A log shows its entries up to any tail in it. */
  lemma PrefixShows(pages: map<nat, LogPage>, chain: seq<nat>, contents: seq<seq<Item>>, end: nat, t: nat, n: nat)
    requires Linked(pages, chain, end) && Stored(pages, chain, contents) && Filled(contents)
    requires t < |contents| && n <= |contents[t]| && (t > 0 ==> n > 0)
    ensures Shows(pages, chain[0], chain[t], Used(contents[t][..n]), chain[..t + 1], contents[..t] + [contents[t][..n]])
  {
    hide PageHolds, Used;
    var (ids, items) := (chain[..t + 1], contents[..t] + [contents[t][..n]]);
    forall k | 0 <= k <= t
      ensures StoredAt(pages, ids, items, k) && LinkedAt(pages, ids, pages[chain[t]].next, k)
    {
      assert StoredAt(pages, chain, contents, k) && LinkedAt(pages, chain, end, k);
      if k == t {
        HoldsPrefix(pages[chain[k]], contents[k], k + 1 == |contents|, n);
      }
    }
  }

  lemma HoldsPrefix(page: LogPage, items: seq<Item>, last: bool, n: nat)
    requires PageHolds(page, items, last) && n <= |items|
    ensures PageHolds(page, items[..n], true)
  {
    UsedPrefix(items, n);
    forall i | 0 <= i < n
      ensures ItemAt(page.cells, items[..n], i)
    {
      assert ItemAt(page.cells, items, i) && items[..n][..i] == items[..i];
    }
  }

  // ----- the collector's pass -----

  ghost predicate SweptSoFar(chain: seq<nat>, contents: seq<seq<Item>>, k: nat, headInvalid: bool, dropped: nat,
                             freed0: seq<nat>, freed: seq<nat>)
    requires k <= |chain| && k <= |contents|
  {
    var ids := DroppedIds(chain, contents, k);
    && dropped == |ids| && (headInvalid ==> ids != [] && ids[0] == chain[0])
    && freed == freed0 + if headInvalid then ids[1..] else ids
  }

  /** The state of the links when the pass stands at page k. */
  ghost predicate Sweeping(pages0: map<nat, LogPage>, pages: map<nat, LogPage>, chain: seq<nat>,
                           contents: seq<seq<Item>>, k: nat, lastPage: nat, headInvalid: bool, foundHead: bool,
                           newHead: nat)
    requires k < |chain| && k < |contents|
  {
    var (t, kept) := (Trail(chain, contents, k), KeptIds(chain, contents, k));
    && Distinct(chain) && SameButLinks(pages0, pages) && OutsideSame(pages0, pages, chain)
    && Counted(pages0, chain, contents)
    && Linked(pages, chain[k..], 0) && Linked(pages, t, chain[k])
    && (k > 0 ==> t != [] && lastPage == t[|t| - 1])
    && (headInvalid <==> k > 0 && AllDead(contents[0]))
    && (foundHead <==> kept != []) && (foundHead ==> newHead == kept[0])
  }

  lemma SweepStart(pages: map<nat, LogPage>, chain: seq<nat>, contents: seq<seq<Item>>, freed: seq<nat>)
    requires IsLog(pages, chain, contents)
    ensures 0 < |contents| <= |chain| && Distinct(chain)
    ensures Sweeping(pages, pages, chain, contents, 0, 0, false, false, 0)
    ensures SweptSoFar(chain, contents, 0, false, 0, freed, freed)
  {
    assert chain[0..] == chain;
  }

  lemma SweepHolds(pages0: map<nat, LogPage>, pages: map<nat, LogPage>, chain: seq<nat>, contents: seq<seq<Item>>,
                   k: nat, lastPage: nat, headInvalid: bool, foundHead: bool, newHead: nat)
    requires k < |chain| && k < |contents|
    requires Sweeping(pages0, pages, chain, contents, k, lastPage, headInvalid, foundHead, newHead)
    ensures SameButLinks(pages0, pages) && Counted(pages0, chain, contents)
  {}

  /** One step of the pass, in each of its three cases. */
  lemma SweepNext(pages0: map<nat, LogPage>, pages: map<nat, LogPage>, chain: seq<nat>, contents: seq<seq<Item>>,
                  k: nat, lastPage: nat, headInvalid: bool, foundHead: bool, newHead: nat)
    requires k + 1 < |chain| && k + 1 < |contents|
    requires Sweeping(pages0, pages, chain, contents, k, lastPage, headInvalid, foundHead, newHead)
    ensures chain[k] in pages && pages[chain[k]].next == chain[k + 1] && (chain[k] == chain[0] <==> k == 0)
    ensures pages[chain[k]].num == pages[chain[k]].invalid <==> AllDead(contents[k])
    ensures headInvalid <==> k > 0 && AllDead(contents[0])
    ensures !AllDead(contents[k]) ==>
              Sweeping(pages0, pages, chain, contents, k + 1, chain[k], headInvalid, true,
                       if foundHead then newHead else chain[k])
    ensures AllDead(contents[k]) && k == 0 ==>
              Sweeping(pages0, pages, chain, contents, 1, chain[0], true, foundHead, newHead)
    ensures AllDead(contents[k]) && k > 0 ==>
              && lastPage in pages
              && Sweeping(pages0, pages[lastPage := pages[lastPage].(next := chain[k + 1])], chain, contents, k + 1,
                          lastPage, headInvalid, foundHead, newHead)
  {
    hide AllDead, Linked, SameButLinks, OutsideSame, Counted, Deads, KeptIds, Trail;
    PageStands(pages0, pages, chain, contents, k);
    TrailStep(chain, contents, k);
    KeptStep(chain, contents, k);
    KeepLink(pages, chain, contents, k);
    if AllDead(contents[k]) && k > 0 {
      DropLink(pages, chain, contents, k);
      TrailInside(chain, contents, k);
      var out := pages[lastPage := pages[lastPage].(next := chain[k + 1])];
      SameTrans(pages0, pages, out);
      OutsideTrans(pages0, pages, lastPage, chain, out);
    }
  }

  lemma KeptStep(chain: seq<nat>, contents: seq<seq<Item>>, k: nat)
    requires k < |chain| && k < |contents|
    ensures KeptIds(chain, contents, k + 1) ==
              KeptIds(chain, contents, k) + if AllDead(contents[k]) then [] else [chain[k]]
    ensures KeptIds(chain, contents, 0) == []
  {}

  lemma SameTrans(a: map<nat, LogPage>, b: map<nat, LogPage>, c: map<nat, LogPage>)
    requires SameButLinks(a, b) && SameButLinks(b, c)
    ensures SameButLinks(a, c)
  {}

  lemma OutsideTrans(a: map<nat, LogPage>, b: map<nat, LogPage>, last: nat, chain: seq<nat>, c: map<nat, LogPage>)
    requires OutsideSame(a, b, chain) && last in b && last in chain && last in c && c == b[last := c[last]]
    ensures OutsideSame(a, c, chain)
  {}

  lemma SweptParts(chain: seq<nat>, contents: seq<seq<Item>>, k: nat, headInvalid: bool, dropped: nat,
                   freed0: seq<nat>, freed: seq<nat>)
    requires k < |chain| && k <= |contents| && SweptSoFar(chain, contents, k, headInvalid, dropped, freed0, freed)
    ensures var ids := DroppedIds(chain, contents, k);
            && dropped == |ids| && (headInvalid ==> ids != [] && ids[0] == chain[0])
            && freed == freed0 + if headInvalid then ids[1..] else ids
  {}

  lemma SweepStep(chain: seq<nat>, contents: seq<seq<Item>>, k: nat, headInvalid: bool, dropped: nat,
                  freed0: seq<nat>, freed: seq<nat>)
    requires k < |chain| && k < |contents| && SweptSoFar(chain, contents, k, headInvalid, dropped, freed0, freed)
    requires headInvalid <==> k > 0 && AllDead(contents[0])
    ensures KeptIds(chain, contents, k + 1) ==
              KeptIds(chain, contents, k) + if AllDead(contents[k]) then [] else [chain[k]]
    ensures !AllDead(contents[k]) ==> SweptSoFar(chain, contents, k + 1, headInvalid, dropped, freed0, freed)
    ensures AllDead(contents[k]) && k == 0 ==> SweptSoFar(chain, contents, 1, true, dropped + 1, freed0, freed)
    ensures AllDead(contents[k]) && k > 0 ==>
              SweptSoFar(chain, contents, k + 1, headInvalid, dropped + 1, freed0, freed + [chain[k]])
  {
    hide AllDead;
    var ids := DroppedIds(chain, contents, k);
    if AllDead(contents[k]) {
      var out := ids + [chain[k]];
      assert DroppedIds(chain, contents, k + 1) == out;
      if k == 0 {
        assert ids == [] && out[1..] == [];
      } else if headInvalid {
        assert out[1..] == ids[1..] + [chain[k]];
      }
    } else {
      assert DroppedIds(chain, contents, k + 1) == ids + [] == ids;
    }
  }

  lemma PageStands(a: map<nat, LogPage>, b: map<nat, LogPage>, chain: seq<nat>, contents: seq<seq<Item>>, k: nat)
    requires SameButLinks(a, b) && Counted(a, chain, contents) && k < |chain| && k < |contents|
    ensures chain[k] in b && (b[chain[k]].num == b[chain[k]].invalid <==> AllDead(contents[k]))
  {
    assert CountedAt(a, chain, contents, k);
    DeadsFull(contents[k]);
  }

  /** Passing over a page that stays linked. */
  lemma KeepLink(pages: map<nat, LogPage>, chain: seq<nat>, contents: seq<seq<Item>>, k: nat)
    requires k + 1 < |chain| && k < |contents| && Distinct(chain)
    requires Linked(pages, chain[k..], 0) && Linked(pages, Trail(chain, contents, k), chain[k])
    ensures pages[chain[k]].next == chain[k + 1]
    ensures Linked(pages, chain[k + 1..], 0) && Linked(pages, Trail(chain, contents, k) + [chain[k]], chain[k + 1])
  {
    hide AllDead, KeptIds, Trail;
    var rest := chain[k..];
    LinkedOne(pages, rest, 0, 0);
    LinkedSplit(pages, rest, 0, 1);
    assert rest[1..] == chain[k + 1..];
    TrailApart(chain, contents, k);
    OneApart(Trail(chain, contents, k), chain, k);
    LinkedConcat(pages, Trail(chain, contents, k), [chain[k]], chain[k + 1]);
  }

  lemma OneApart(t: seq<nat>, chain: seq<nat>, k: nat)
    requires k < |chain| && LogChains.Apart(t, chain[k..])
    ensures LogChains.Apart(t, [chain[k]])
  {
    assert chain[k..][0] == chain[k];
  }

  /** Unlinking a page behind the last page that stays. */
  lemma DropLink(pages: map<nat, LogPage>, chain: seq<nat>, contents: seq<seq<Item>>, k: nat)
    requires k + 1 < |chain| && k < |contents| && Distinct(chain) && Trail(chain, contents, k) != []
    requires Linked(pages, chain[k..], 0) && Linked(pages, Trail(chain, contents, k), chain[k])
    ensures var t := Trail(chain, contents, k);
            var last := t[|t| - 1];
            && last in pages && pages[chain[k]].next == chain[k + 1]
            && var out := pages[last := pages[last].(next := chain[k + 1])];
               Linked(out, chain[k + 1..], 0) && Linked(out, t, chain[k + 1]) && SameButLinks(pages, out)
  {
    hide AllDead, KeptIds, Trail;
    var t := Trail(chain, contents, k);
    var last := t[|t| - 1];
    var rest := chain[k..];
    assert last in pages && last != 0;
    var out := pages[last := pages[last].(next := chain[k + 1])];
    LinkedOne(pages, rest, 0, 0);
    LinkedSplit(pages, rest, 0, 1);
    assert rest[1..] == chain[k + 1..];
    TrailApart(chain, contents, k);
    LinkedRetarget(pages, t, chain[k], chain[k + 1]);
    var more := chain[k + 1..];
    forall j | 0 <= j < |more|
      ensures more[j] != last
    {
      assert chain[k..][j + 1] == more[j];
    }
    LinkedOutside(pages, out, chain[k + 1..], 0);
  }

  lemma SweepEnd(pages0: map<nat, LogPage>, pages: map<nat, LogPage>, chain: seq<nat>, contents: seq<seq<Item>>,
                 k: nat, n: nat, lastPage: nat, headInvalid: bool, foundHead: bool, newHead: nat)
    requires k <= n < |chain| && n < |contents| && chain[k] == chain[n]
    requires Sweeping(pages0, pages, chain, contents, k, lastPage, headInvalid, foundHead, newHead)
    ensures k == n && SameButLinks(pages0, pages) && OutsideSame(pages0, pages, chain)
    ensures Linked(pages, KeptIds(chain, contents, n), chain[n]) && Linked(pages, chain[n..], 0)
    ensures (KeptIds(chain, contents, n) + chain[n..])[0] == if foundHead then newHead else chain[n]
    ensures headInvalid <==> n > 0 && AllDead(contents[0])
  {
    hide AllDead, KeptIds, SameButLinks, OutsideSame;
    LinkedTrail(pages, chain, contents, k, chain[k]);
  }

  ghost predicate OutsideSame(a: map<nat, LogPage>, b: map<nat, LogPage>, chain: seq<nat>) {
    forall p :: p in a && p !in chain ==> p in b && b[p] == a[p]
  }

  lemma TrailInside(chain: seq<nat>, contents: seq<seq<Item>>, k: nat)
    requires k <= |chain| && k <= |contents|
    ensures forall i :: 0 <= i < |Trail(chain, contents, k)| ==> Trail(chain, contents, k)[i] in chain
  {
    hide AllDead, KeptIds;
    var t := Trail(chain, contents, k);
    var kept := KeptIds(chain, contents, k);
    forall i | 0 <= i < |t|
      ensures t[i] in chain
    {
      if i >= |t| - |kept| {
        KeptEarlier(chain, contents, k, i - (|t| - |kept|));
      }
    }
  }

  /** New pages join the page store; the log and its pages stay as they were. */
  lemma Enlarged(pages: map<nat, LogPage>, more: map<nat, LogPage>, chain: seq<nat>, contents: seq<seq<Item>>,
                 ids: seq<nat>)
    requires Linked(pages, chain, 0) && Stored(pages, chain, contents) && Counted(pages, chain, contents)
    requires Blank(more, ids) && NotIn(chain, more)
    ensures var all := pages + more;
            && Linked(all, chain, 0) && Stored(all, chain, contents) && Counted(all, chain, contents)
            && Blank(all, ids) && LogChains.Apart(chain, ids)
  {
    hide PageHolds, Deads;
    var all := pages + more;
    LinkedOutside(pages, all, chain, 0);
    LinkedOutside(more, all, ids, 0);
    forall k | 0 <= k < |contents|
      ensures StoredAt(all, chain, contents, k)
    {
      assert StoredAt(pages, chain, contents, k);
    }
    forall k | 0 <= k < |chain|
      ensures CountedAt(all, chain, contents, k)
    {
      assert CountedAt(pages, chain, contents, k);
    }
    forall i, j | 0 <= i < |chain| && 0 <= j < |ids|
      ensures chain[i] != ids[j]
    {
      assert chain[i] !in more && ids[j] in more;
    }
  }

  /** New pages, if there are any, linked behind the last page of a chain. */
  ghost predicate Behind(mid: map<nat, LogPage>, pages: map<nat, LogPage>, chain: seq<nat>, ids: seq<nat>) {
    && chain != [] && chain[|chain| - 1] in mid
    && pages == if ids == [] then mid else mid[chain[|chain| - 1] := mid[chain[|chain| - 1]].(next := ids[0])]
  }

  lemma BehindIs(mid: map<nat, LogPage>, pages: map<nat, LogPage>, chain: seq<nat>, last: nat, ids: seq<nat>)
    requires chain != [] && chain[|chain| - 1] in mid && (ids != [] ==> last == chain[|chain| - 1])
    requires pages == if ids == [] then mid else mid[chain[|chain| - 1] := mid[chain[|chain| - 1]].(next := ids[0])]
    ensures Behind(mid, pages, chain, ids)
  {}

  lemma FreedInOrder(chain: seq<nat>, contents: seq<seq<Item>>, n: nat, headInvalid: bool, was: seq<nat>, now: seq<nat>)
    requires 0 < |contents| <= |chain| && n < |contents| && (headInvalid <==> n > 0 && AllDead(contents[0]))
    requires var ids := DroppedIds(chain, contents, n);
             (headInvalid ==> ids != [] && ids[0] == chain[0]) && now == was + if headInvalid then ids[1..] else ids
    ensures now + (if headInvalid then [chain[0]] else []) == was + FreedOrder(chain, contents, n)
  {
    hide AllDead, DroppedIds;
  }

  lemma PassLength(chain: seq<nat>, contents: seq<seq<Item>>, n: nat, ids: seq<nat>)
    requires n < |contents| <= |chain|
    ensures |CollectedIds(chain, contents, n, ids)| == |chain| + |ids| - |DroppedIds(chain, contents, n)|
  {
    KeptLengths(chain, contents, n);
  }

  lemma RelinkedChain(mid: map<nat, LogPage>, pages: map<nat, LogPage>, chain: seq<nat>, contents: seq<seq<Item>>,
                      n: nat, ids: seq<nat>)
    requires n < |contents| <= |chain| && Distinct(chain) && LogChains.Apart(chain, ids)
    requires Linked(mid, KeptIds(chain, contents, n), chain[n]) && Linked(mid, chain[n..], 0) && Linked(mid, ids, 0)
    requires Behind(mid, pages, chain, ids)
    ensures Linked(pages, CollectedIds(chain, contents, n, ids), 0)
  {
    hide AllDead, KeptIds;
    var (kept, rest, last) := (KeptIds(chain, contents, n), chain[n..], chain[|chain| - 1]);
    KeptApart(chain, contents, n);
    assert rest[|rest| - 1] == last && rest[0] == chain[n];
    if ids == [] {
      LinkedConcat(pages, kept, rest, 0);
      assert kept + rest + ids == kept + rest;
    } else {
      LinkedRetarget(mid, rest, 0, ids[0]);
      LinkedOutside(mid, pages, kept, chain[n]);
      LinkedOutside(mid, pages, ids, 0);
      LinkedConcat(pages, kept, rest, ids[0]);
      AllInside(chain, contents, n, ids);
      LinkedConcat(pages, kept + rest, ids, 0);
    }
  }

  lemma KeptApart(chain: seq<nat>, contents: seq<seq<Item>>, n: nat)
    requires n <= |chain| && n <= |contents| && Distinct(chain)
    ensures LogChains.Apart(KeptIds(chain, contents, n), chain[n..])
    ensures var kept := KeptIds(chain, contents, n);
            n < |chain| ==> forall i :: 0 <= i < |kept| ==> kept[i] != chain[|chain| - 1]
  {
    hide AllDead, KeptIds;
    var (kept, t) := (KeptIds(chain, contents, n), Trail(chain, contents, n));
    TrailApart(chain, contents, n);
    forall i, j | 0 <= i < |kept| && 0 <= j < |chain| - n
      ensures kept[i] != chain[n..][j]
    {
      assert kept[i] == t[|t| - |kept| + i];
    }
    if n < |chain| {
      assert chain[n..][|chain| - n - 1] == chain[|chain| - 1];
    }
  }

  lemma AllInside(chain: seq<nat>, contents: seq<seq<Item>>, n: nat, ids: seq<nat>)
    requires n <= |chain| && n <= |contents| && LogChains.Apart(chain, ids)
    ensures LogChains.Apart(KeptIds(chain, contents, n) + chain[n..], ids)
  {
    hide AllDead, KeptIds;
    var kept := KeptIds(chain, contents, n);
    forall i, j | 0 <= i < |kept| && 0 <= j < |ids|
      ensures kept[i] != ids[j]
    {
      KeptEarlier(chain, contents, n, i);
      var e :| 0 <= e < n && chain[e] == kept[i];
      assert chain[e] != ids[j];
    }
  }

  /** Where page k of the collected log comes from. */
  lemma CollectedFrom(chain: seq<nat>, contents: seq<seq<Item>>, n: nat, k: nat) returns (j: nat)
    requires n < |contents| <= |chain| && k < |Collected(contents, n)|
    ensures |KeptIds(chain, contents, n) + chain[n..]| - |Collected(contents, n)| == |chain| - |contents|
    ensures j < |contents| && (KeptIds(chain, contents, n) + chain[n..])[k] == chain[j]
    ensures Collected(contents, n)[k] == contents[j]
    ensures j + 1 == |contents| <==> k + 1 == |Collected(contents, n)|
    ensures k > 0 && Filled(contents) ==> contents[j] != []
  {
    hide KeptIds, KeptPages;
    KeptLengths(chain, contents, n);
    var m := |KeptPages(contents, n)|;
    if k < m {
      j := KeptFrom(chain, contents, n, k);
    } else {
      j := n + (k - m);
    }
  }

  lemma RelinkedAt(pages0: map<nat, LogPage>, pages: map<nat, LogPage>, chain: seq<nat>, contents: seq<seq<Item>>,
                   n: nat, ids: seq<nat>, k: nat)
    requires n < |contents| <= |chain| && Stored(pages0, chain, contents) && Counted(pages0, chain, contents)
    requires Filled(contents)
    requires SameButLinks(pages0, pages) && k < |Collected(contents, n)|
    ensures var (chain', contents') := (CollectedIds(chain, contents, n, ids), Collected(contents, n));
            && StoredAt(pages, chain', contents', k) && CountedAt(pages, chain', contents', k)
            && (k > 0 ==> contents'[k] != [])
  {
    hide KeptIds, KeptPages, Deads, PageHolds, Collected;
    var j := CollectedFrom(chain, contents, n, k);
    assert StoredAt(pages0, chain, contents, j) && CountedAt(pages0, chain, contents, j);
    HoldsFields(pages0[chain[j]], pages[chain[j]], contents[j], j + 1 == |contents|);
  }

  /** The log after the pass, with the new pages linked behind it. */
  lemma Relinked(pages0: map<nat, LogPage>, mid: map<nat, LogPage>, pages: map<nat, LogPage>, chain: seq<nat>,
                 contents: seq<seq<Item>>, n: nat, ids: seq<nat>)
    requires IsLog(pages0, chain, contents) && n < |contents|
    requires SameButLinks(pages0, mid) && Linked(mid, KeptIds(chain, contents, n), chain[n])
    requires Linked(mid, chain[n..], 0)
    requires LogChains.Apart(chain, ids) && Blank(pages0, ids) && Linked(mid, ids, 0) && Behind(mid, pages, chain, ids)
    ensures IsLog(pages, CollectedIds(chain, contents, n, ids), Collected(contents, n)) && pages.Keys == pages0.Keys
  {
    hide KeptIds, KeptPages, Deads, PageHolds;
    var (chain', contents') := (CollectedIds(chain, contents, n, ids), Collected(contents, n));
    RelinkedChain(mid, pages, chain, contents, n, ids);
    StillLinks(pages0, mid, pages, chain, ids);
    var j := CollectedFrom(chain, contents, n, 0);
    forall k | 0 <= k < |contents'|
      ensures StoredAt(pages, chain', contents', k) && CountedAt(pages, chain', contents', k)
      ensures (k > 0 ==> contents'[k] != [])
    {
      RelinkedAt(pages0, pages, chain, contents, n, ids, k);
    }
    forall k | |contents'| <= k < |chain'|
      ensures CountedAt(pages, chain', contents', k) && BlankPage(pages[chain'[k]])
    {
      NewPageAt(pages0, pages, chain, contents, n, ids, k);
    }
  }

  /** The log after the pass, and where its tail page and its append page stand in it. */
  lemma PassDone(pages0: map<nat, LogPage>, mid: map<nat, LogPage>, pages: map<nat, LogPage>, chain: seq<nat>,
                 contents: seq<seq<Item>>, n: nat, ids: seq<nat>)
    requires IsLog(pages0, chain, contents) && n < |contents| && LogChains.Apart(chain, ids) && Blank(pages0, ids)
    requires SameButLinks(pages0, mid) && OutsideSame(pages0, mid, chain)
    requires Linked(mid, KeptIds(chain, contents, n), chain[n]) && Linked(mid, chain[n..], 0)
    requires Behind(mid, pages, chain, ids)
    ensures var (chain', contents') := (CollectedIds(chain, contents, n, ids), Collected(contents, n));
            var t := |KeptPages(contents, n)|;
            && IsLog(pages, chain', contents') && pages.Keys == pages0.Keys
            && t < |contents'| <= |chain'| && chain'[t] == chain[n] && contents'[t] == contents[n] && (t > 0 ==> n > 0)
            && chain'[0] == (KeptIds(chain, contents, n) + chain[n..])[0]
            && chain'[|contents'| - 1] == chain[|contents| - 1]
            && contents'[|contents'| - 1] == contents[|contents| - 1]
  {
    hide KeptIds, KeptPages, Collected, CollectedIds, Behind, SameButLinks, OutsideSame, Blank, Linked;
    IdsStand(pages0, mid, chain, ids);
    Relinked(pages0, mid, pages, chain, contents, n, ids);
    CollectedEnds(chain, contents, n, ids);
  }

  lemma SameKeys(a: map<nat, LogPage>, b: map<nat, LogPage>)
    requires SameButLinks(a, b)
    ensures a.Keys == b.Keys
  {}

  /** The tail page and the append page keep their contents under their new positions. */
  lemma CollectedEnds(chain: seq<nat>, contents: seq<seq<Item>>, n: nat, ids: seq<nat>)
    requires n < |contents| <= |chain|
    ensures var (chain', contents') := (CollectedIds(chain, contents, n, ids), Collected(contents, n));
            var t := |KeptPages(contents, n)|;
            && t < |contents'| <= |chain'| && chain'[t] == chain[n] && contents'[t] == contents[n] && (t > 0 ==> n > 0)
            && chain'[0] == (KeptIds(chain, contents, n) + chain[n..])[0]
            && chain'[|contents'| - 1] == chain[|contents| - 1]
            && contents'[|contents'| - 1] == contents[|contents| - 1]
  {
    hide KeptIds, KeptPages;
    KeptLengths(chain, contents, n);
    ConcatEnds(KeptIds(chain, contents, n), KeptPages(contents, n), chain, contents, n, ids);
  }

  lemma ConcatEnds(kept: seq<nat>, items: seq<seq<Item>>, chain: seq<nat>, contents: seq<seq<Item>>, n: nat,
                   ids: seq<nat>)
    requires |kept| == |items| && n < |contents| <= |chain|
    ensures var (chain', contents', t) := (kept + chain[n..] + ids, items + contents[n..], |kept|);
            && t < |contents'| <= |chain'| && chain'[t] == chain[n] && contents'[t] == contents[n]
            && chain'[0] == (kept + chain[n..])[0]
            && chain'[|contents'| - 1] == chain[|contents| - 1]
            && contents'[|contents'| - 1] == contents[|contents| - 1]
  {
    var (rest, more) := (chain[n..], contents[n..]);
    assert rest[|more| - 1] == chain[|contents| - 1] && more[|more| - 1] == contents[|contents| - 1];
    assert (kept + rest)[|kept| + |more| - 1] == rest[|more| - 1];
  }

  lemma IdsStand(a: map<nat, LogPage>, b: map<nat, LogPage>, chain: seq<nat>, ids: seq<nat>)
    requires Blank(a, ids) && OutsideSame(a, b, chain) && LogChains.Apart(chain, ids)
    ensures Linked(b, ids, 0)
  {
    forall k | 0 <= k < |ids|
      ensures ids[k] in b && b[ids[k]].next == a[ids[k]].next
    {
      assert ids[k] !in chain;
    }
    LinkedOutside(a, b, ids, 0);
  }

  lemma StillLinks(pages0: map<nat, LogPage>, mid: map<nat, LogPage>, pages: map<nat, LogPage>, chain: seq<nat>,
                   ids: seq<nat>)
    requires SameButLinks(pages0, mid) && Behind(mid, pages, chain, ids)
    ensures SameButLinks(pages0, pages)
  {}

  /** The pages behind the contents are blank: those that were there, and the new ones. */
  lemma NewPageAt(pages0: map<nat, LogPage>, pages: map<nat, LogPage>, chain: seq<nat>, contents: seq<seq<Item>>,
                  n: nat, ids: seq<nat>, k: nat)
    requires IsLog(pages0, chain, contents) && n < |contents| && SameButLinks(pages0, pages) && Blank(pages0, ids)
    requires |Collected(contents, n)| <= k < |CollectedIds(chain, contents, n, ids)|
    ensures var chain' := CollectedIds(chain, contents, n, ids);
            CountedAt(pages, chain', Collected(contents, n), k) && BlankPage(pages[chain'[k]])
  {
    hide KeptIds, KeptPages, PageHolds;
    KeptLengths(chain, contents, n);
    var (m, chain') := (|KeptPages(contents, n)|, CollectedIds(chain, contents, n, ids));
    if k < m + |chain| - n {
      assert chain'[k] == chain[n + k - m];
    } else {
      assert chain'[k] == ids[k - (m + |chain| - n)];
    }
    assert Deads([]) == 0;
  }

  // ----- what the pass counts -----

  /** The entries on the kept pages among the first n, and the valid ones among them. */
  ghost predicate SweptCounts(contents: seq<seq<Item>>, n: nat, valid: nat, total: nat)
    requires n <= |contents|
  {
    var items := Flatten(KeptPages(contents, n));
    valid == |Live(items)| && total == |items|
  }

  lemma CountStart(contents: seq<seq<Item>>)
    ensures SweptCounts(contents, 0, 0, 0)
  {}

  lemma CountStep(pages0: map<nat, LogPage>, pages: map<nat, LogPage>, chain: seq<nat>, contents: seq<seq<Item>>,
                  k: nat, valid: nat, total: nat)
    requires k < |contents| && k < |chain| && SameButLinks(pages0, pages) && Counted(pages0, chain, contents)
    requires SweptCounts(contents, k, valid, total)
    ensures chain[k] in pages && pages[chain[k]].invalid <= pages[chain[k]].num
    ensures var page := pages[chain[k]];
            if AllDead(contents[k]) then SweptCounts(contents, k + 1, valid, total)
            else SweptCounts(contents, k + 1, valid + (page.num - page.invalid), total + page.num)
  {
    hide AllDead, Live, Deads;
    assert CountedAt(pages0, chain, contents, k);
    LiveCount(contents[k]);
    var kept := KeptPages(contents, k);
    if AllDead(contents[k]) {
      assert KeptPages(contents, k + 1) == kept;
    } else {
      assert KeptPages(contents, k + 1) == kept + [contents[k]];
      assert (kept + [contents[k]])[..|kept|] == kept;
      LiveConcat(Flatten(kept), contents[k]);
    }
  }
}
