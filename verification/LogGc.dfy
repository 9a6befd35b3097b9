/** Thorough garbage collection (gc.c): copy the valid entries before the tail page into a new log, move
    the page-map slots along, and switch over in four steps. */
module LogGc {
  import opened LogPages
  import opened LogChains
  import opened InodeLog
  import opened LogFile

  /** Where an entry lies. */
  datatype Addr = Addr(page: nat, unit: nat)

  // ----- freeing a chain -----

  datatype Range = Range(start: nat, num: nat)

  function Numbers(r: Range): (s: seq<nat>)
    ensures |s| == r.num && forall i :: 0 <= i < r.num ==> s[i] == r.start + i
  {
    seq(r.num, i => r.start + i)
  }

  function Expand(ranges: seq<Range>): seq<nat> {
    if ranges == [] then [] else Expand(ranges[..|ranges| - 1]) + Numbers(ranges[|ranges| - 1])
  }

  lemma ExpandMore(ranges: seq<Range>, r: Range)
    ensures Expand(ranges + [r]) == Expand(ranges) + Numbers(r)
  {
    assert (ranges + [r])[..|ranges|] == ranges;
  }

  /** nova_free_contiguous_log_blocks: the runs it frees are exactly the pages of the chain, in order. */
  method FreeContiguous(pages: map<nat, LogPage>, head: nat, ghost chain: seq<nat>) returns (ranges: seq<Range>)
    requires Linked(pages, chain, 0) && head == if chain == [] then 0 else chain[0]
    ensures Expand(ranges) == chain && forall i :: 0 <= i < |ranges| ==> ranges[i].num > 0
  {
    hide Linked;
    ranges := [];
    var curr, start, num := head, 0, 0;
    ghost var k: nat := 0;
    ChainFacts(pages, chain);
    while curr > 0
      invariant k <= |chain| && curr == (if k < |chain| then chain[k] else 0)
      invariant start == 0 <==> k == 0
      invariant start == 0 ==> ranges == []
      invariant start > 0 ==> num > 0 && Expand(ranges) + Numbers(Range(start, num)) == chain[..k]
      invariant forall i :: 0 <= i < |ranges| ==> ranges[i].num > 0
      decreases |chain| - k
    {
      ChainAt(pages, chain, k);
      var block := curr;
      curr := pages[curr].next;
      assert chain[..k + 1] == chain[..k] + [block];
      if start == 0 {
        start, num := block, 1;
        assert Numbers(Range(start, 1)) == [block] && Expand([]) == [];
      } else if block == start + num {
        assert Numbers(Range(start, num + 1)) == Numbers(Range(start, num)) + [block];
        num := num + 1;
      } else {
        ExpandMore(ranges, Range(start, num));
        ranges := ranges + [Range(start, num)];
        start, num := block, 1;
        assert Numbers(Range(start, 1)) == [block];
      }
      k := k + 1;
    }
    ChainEnd(chain, k);
    if start > 0 {
      ExpandMore(ranges, Range(start, num));
      ranges := ranges + [Range(start, num)];
    }
  }

  lemma ChainAt(pages: map<nat, LogPage>, chain: seq<nat>, k: nat)
    requires Linked(pages, chain, 0) && k < |chain|
    ensures chain[k] in pages && pages[chain[k]].next == if k + 1 < |chain| then chain[k + 1] else 0
  {
    assert LinkedAt(pages, chain, 0, k);
  }

  lemma ChainEnd(chain: seq<nat>, k: nat)
    requires k <= |chain| && (k < |chain| ==> chain[k] > 0) && (if k < |chain| then chain[k] else 0) == 0
    ensures chain[..k] == chain && (k == 0 ==> chain == [])
  {}

  // ----- the page map -----

  predicate Maps(it: Item, p: nat) {
    !it.dead && it.pgoff <= p < it.pgoff + it.num
  }

  /** nova_gc_assign_file_entry: the slots of the moved entry follow it. */
  method AssignSlots(tree: map<nat, Addr>, it: Item, from: Addr, to: Addr) returns (out: map<nat, Addr>)
    ensures out.Keys == tree.Keys
    ensures forall p :: p in tree ==>
              out[p] == if it.pgoff <= p < it.pgoff + it.num && tree[p] == from then to else tree[p]
  {
    out := tree;
    for i := 0 to it.num
      invariant out.Keys == tree.Keys
      invariant forall p :: p in tree ==>
                  out[p] == if it.pgoff <= p < it.pgoff + i && tree[p] == from then to else tree[p]
    {
      var p := it.pgoff + i;
      if p in out && out[p] == from {
        out := out[p := to];
      }
    }
  }

  /** Item i of page k lies at address a. */
  ghost predicate Place(chain: seq<nat>, contents: seq<seq<Item>>, k: nat, i: nat, a: Addr, it: Item) {
    && k < |contents| && k < |chain| && i < |contents[k]| && a == Addr(chain[k], Used(contents[k][..i]))
    && it == contents[k][i]
  }

  ghost predicate Somewhere(chain: seq<nat>, contents: seq<seq<Item>>, a: Addr, it: Item) {
    exists k: nat, i: nat :: Place(chain, contents, k, i, a, it)
  }

  /** At or after item i of page k. */
  ghost predicate Ahead(chain: seq<nat>, contents: seq<seq<Item>>, k: nat, i: nat, a: Addr, it: Item) {
    exists k': nat, i': nat :: (k' > k || (k' == k && i' >= i)) && Place(chain, contents, k', i', a, it)
  }

  /** Every slot leads to the entry it always led to: still ahead in the old log, or already copied. */
  ghost predicate Slots(tree: map<nat, Addr>, want: map<nat, Item>, chain: seq<nat>, contents: seq<seq<Item>>, k: nat,
                        i: nat, chain': seq<nat>, contents': seq<seq<Item>>) {
    && tree.Keys == want.Keys
    && forall p :: p in tree ==> SlotAt(tree[p], want[p], p, chain, contents, k, i, chain', contents')
  }

  ghost predicate SlotAt(a: Addr, it: Item, p: nat, chain: seq<nat>, contents: seq<seq<Item>>, k: nat, i: nat,
                         chain': seq<nat>, contents': seq<seq<Item>>) {
    Maps(it, p) && (Ahead(chain, contents, k, i, a, it) || Somewhere(chain', contents', a, it))
  }

  lemma PlaceUnique(chain: seq<nat>, contents: seq<seq<Item>>, k: nat, i: nat, k': nat, i': nat, a: Addr, it: Item,
                    it': Item)
    requires Distinct(chain) && Place(chain, contents, k, i, a, it) && Place(chain, contents, k', i', a, it')
    requires forall j :: 0 <= j < |contents[k]| ==> contents[k][j].size > 0
    ensures k == k' && i == i'
  {
    hide Used;
    assert chain[k] == chain[k'];
    if i < i' {
      PlacesRise(contents[k], i, i');
    } else if i' < i {
      PlacesRise(contents[k], i', i);
    }
  }

  /** Passing an invalid entry: no slot leads to it. */
  lemma SlotsSkip(tree: map<nat, Addr>, want: map<nat, Item>, chain: seq<nat>, contents: seq<seq<Item>>, k: nat,
                  i: nat, chain': seq<nat>, contents': seq<seq<Item>>)
    requires Slots(tree, want, chain, contents, k, i, chain', contents') && k < |contents| && i < |contents[k]|
    requires contents[k][i].dead
    ensures Slots(tree, want, chain, contents, k, i + 1, chain', contents')
  {
    hide Used;
    forall p | p in tree
      ensures SlotAt(tree[p], want[p], p, chain, contents, k, i + 1, chain', contents')
    {
      assert SlotAt(tree[p], want[p], p, chain, contents, k, i, chain', contents');
      if Ahead(chain, contents, k, i, tree[p], want[p]) {
        var k': nat, i': nat :| (k' > k || (k' == k && i' >= i)) && Place(chain, contents, k', i', tree[p], want[p]);
        assert !(k' == k && i' == i);
      }
    }
  }

  /** At the end of a page the next one begins. */
  lemma SlotsHop(tree: map<nat, Addr>, want: map<nat, Item>, chain: seq<nat>, contents: seq<seq<Item>>, k: nat,
                 chain': seq<nat>, contents': seq<seq<Item>>)
    requires k < |contents| && Slots(tree, want, chain, contents, k, |contents[k]|, chain', contents')
    ensures Slots(tree, want, chain, contents, k + 1, 0, chain', contents')
  {
    hide Used;
    forall p | p in tree
      ensures SlotAt(tree[p], want[p], p, chain, contents, k + 1, 0, chain', contents')
    {
      assert SlotAt(tree[p], want[p], p, chain, contents, k, |contents[k]|, chain', contents');
      if Ahead(chain, contents, k, |contents[k]|, tree[p], want[p]) {
        var k': nat, i': nat :| (k' > k || (k' == k && i' >= |contents[k]|))
          && Place(chain, contents, k', i', tree[p], want[p]);
        assert k' > k;
      }
    }
  }

  /** What lies in a log still lies there after an append. */
  lemma PlaceStays(chain: seq<nat>, contents: seq<seq<Item>>, it: Item, more: seq<nat>, a: Addr, x: Item)
    requires contents != [] && Somewhere(chain, contents, a, x)
    ensures Somewhere(chain + more, AppendItem(contents, it), a, x)
  {
    hide Used;
    var k: nat, i: nat :| Place(chain, contents, k, i, a, x);
    var out := AppendItem(contents, it);
    assert out[k][..i] == contents[k][..i];
    assert Place(chain + more, out, k, i, a, x);
  }

  /** Copying a valid entry and moving its slots. */
  lemma SlotsCopy(tree: map<nat, Addr>, out: map<nat, Addr>, want: map<nat, Item>, chain: seq<nat>,
                  contents: seq<seq<Item>>, k: nat, i: nat, chain': seq<nat>, contents': seq<seq<Item>>,
                  more: seq<nat>, from: Addr, to: Addr)
    requires Slots(tree, want, chain, contents, k, i, chain', contents') && Distinct(chain) && contents' != []
    requires k < |contents| && k < |chain| && i < |contents[k]|
    requires forall j :: 0 <= j < |contents[k]| ==> contents[k][j].size > 0
    requires from == Addr(chain[k], Used(contents[k][..i])) && from.page !in chain'
    requires Somewhere(chain' + more, AppendItem(contents', contents[k][i]), to, contents[k][i])
    requires out.Keys == tree.Keys
    requires var it := contents[k][i];
             forall p :: p in tree ==>
               out[p] == if it.pgoff <= p < it.pgoff + it.num && tree[p] == from then to else tree[p]
    ensures Slots(out, want, chain, contents, k, i + 1, chain' + more, AppendItem(contents', contents[k][i]))
  {
    hide Used, AppendItem;
    var it := contents[k][i];
    var grown := AppendItem(contents', it);
    assert Place(chain, contents, k, i, from, it);
    forall p | p in out
      ensures SlotAt(out[p], want[p], p, chain, contents, k, i + 1, chain' + more, grown)
    {
      assert SlotAt(tree[p], want[p], p, chain, contents, k, i, chain', contents');
      if Ahead(chain, contents, k, i, tree[p], want[p]) {
        var k': nat, i': nat :| (k' > k || (k' == k && i' >= i)) && Place(chain, contents, k', i', tree[p], want[p]);
        if tree[p] == from {
          PlaceUnique(chain, contents, k, i, k', i', from, it, want[p]);
        }
      } else {
        NotThere(chain', contents', tree[p], want[p], from);
        PlaceStays(chain', contents', it, more, tree[p], want[p]);
      }
    }
  }

  lemma NotThere(chain: seq<nat>, contents: seq<seq<Item>>, a: Addr, x: Item, from: Addr)
    requires Somewhere(chain, contents, a, x) && from.page !in chain
    ensures a != from
  {}

  // ----- the copy -----

  /** Spare pages from position s on are blank, distinct and not in use. */
  ghost predicate SparesLeft(spares: seq<Spare>, s: nat, chain: seq<nat>, taken: map<nat, LogPage>) {
    forall j :: s <= j < |spares| ==> SpareFree(spares, j, chain, taken)
  }

  ghost predicate SpareFree(spares: seq<Spare>, j: nat, chain: seq<nat>, taken: map<nat, LogPage>) {
    && j < |spares| && Usable(spares[j], taken) && spares[j].id !in chain
    && forall i :: 0 <= i < j ==> spares[i].id != spares[j].id
  }

  /** Entries packed onto pages one after the other. */
  function Packed(items: seq<Item>): (out: seq<seq<Item>>)
    ensures out != []
  {
    if items == [] then [[]] else AppendItem(Packed(items[..|items| - 1]), items[|items| - 1])
  }

  lemma PackedMore(items: seq<Item>, it: Item)
    ensures Packed(items + [it]) == AppendItem(Packed(items), it)
  {
    assert (items + [it])[..|items|] == items;
  }

  lemma {:induction false} PackedHolds(items: seq<Item>)
    ensures Flatten(Packed(items)) == items
  {
    if items == [] {
      CopyStart([[]]);
    } else {
      PackedHolds(items[..|items| - 1]);
      FlattenAppend(Packed(items[..|items| - 1]), items[|items| - 1]);
    }
  }

  /** The pages copied so far end no later than the entries they hold did in the old log. */
  predicate NoLonger(copied: seq<seq<Item>>, contents: seq<seq<Item>>, k: nat, i: nat)
    requires k < |contents| && i <= |contents[k]|
  {
    0 < |copied| <= k + 1 && (|copied| == k + 1 ==> Used(copied[k]) <= Used(contents[k][..i]))
  }

  /** Packing the valid entries anew never needs a page more than they took. */
  lemma NoLongerStep(copied: seq<seq<Item>>, contents: seq<seq<Item>>, k: nat, i: nat)
    requires k < |contents| && i < |contents[k]| && NoLonger(copied, contents, k, i)
    requires Used(contents[k][..i]) + contents[k][i].size <= PAYLOAD
    ensures NoLonger(copied, contents, k, i + 1) && NoLonger(AppendItem(copied, contents[k][i]), contents, k, i + 1)
    ensures IsLast(Used(copied[|copied| - 1]), contents[k][i].size) ==> |copied| <= k
  {
    hide Used;
    UsedStep(contents[k], i);
    UsedOne(contents[k][i]);
    UsedAppend(copied[|copied| - 1], contents[k][i]);
  }

  lemma UsedOne(it: Item)
    ensures Used([it]) == it.size
  {
    UsedAppend([], it);
    assert [] + [it] == [it];
  }

  /** The copy stands before item i of page k: it has packed the valid entries up to there, on the granted pages and
      the first s spares, and the slots are where they belong. */
  ghost predicate Copying(log: Log, copy: Log, tree: map<nat, Addr>, want: map<nat, Item>, spares: seq<Spare>,
                          count: nat, s: nat, k: nat, i: nat)
    reads log, copy
  {
    && log != copy && log.Valid() && copy.Valid() && k <= log.tailAt && i <= |log.contents[k]|
    && copy.contents == Packed(Live(Flatten(log.contents[..k]) + log.contents[k][..i]))
    && NoLonger(copy.contents, log.contents, k, i)
    && |copy.chain| == count + s && s <= |spares| && (s > 0 ==> |copy.contents| == |copy.chain|)
    && Slots(tree, want, log.chain, log.contents, k, i, copy.chain, copy.contents)
    && SparesLeft(spares, s, log.chain, copy.pages) && NotIn(log.chain, copy.pages)
  }

  /** The entries before the tail page that are still valid go to a new log, in order; their slots follow. The copy
      is given up if and only if it needs more pages than there are. */
  method CopyLive(log: Log, tree: map<nat, Addr>, more: map<nat, LogPage>, first: nat, count: nat,
                  ghost ids: seq<nat>, spares: seq<Spare>, ghost want: map<nat, Item>)
    returns (ok: bool, copy: Log, out: map<nat, Addr>, lastOld: nat, blocks: nat)
    requires log.Valid() && log.tailAt > 0
    requires count == |ids| > 0 && Blank(more, ids) && NotIn(log.chain, more) && first == ids[0]
    requires SparesLeft(spares, 0, log.chain, more)
    requires Slots(tree, want, log.chain, log.contents, 0, 0, ids, [[]])
    ensures ok <==> |Packed(Live(Flatten(log.contents[..log.tailAt])))| <= count + |spares|
    ensures fresh(copy)
    ensures ok ==> copy.Valid() && copy.head == first && NotIn(log.chain, copy.pages)
    ensures ok ==> copy.contents == Packed(Live(Flatten(log.contents[..log.tailAt])))
    ensures ok ==> |copy.contents| <= log.tailAt && blocks == |copy.chain| == Larger(count, |copy.contents|)
    ensures ok ==> Slots(out, want, log.chain, log.contents, log.tailAt, 0, copy.chain, copy.contents)
    ensures ok ==> lastOld == log.chain[log.tailAt - 1]
  {
    hide Used, Flatten, Live, PageHolds, IsLog, Slots, SparesLeft, Blank, NotIn, NoLonger, Packed, Copying;
    copy := new Log(more, first, count, ids);
    ok, out, lastOld, blocks := true, tree, log.head, 0;
    var page, unit, s := log.head, 0, 0;
    ghost var k: nat, i: nat := 0, 0;
    CopyBegins(log, copy, tree, want, spares, count);
    LogSizes(log);
    var (tailPage, tailUnit) := (log.tailPage, log.tailUnit);
    while !(page == tailPage && unit == tailUnit)
      invariant fresh(copy) && copy.head == first && Copying(log, copy, out, want, spares, count, s, k, i)
      invariant k < log.tailAt && i <= |log.contents[k]| && page == log.chain[k] && unit == Used(log.contents[k][..i])
      decreases log.tailAt - k, |log.contents[k]| - i
    {
      lastOld := page;
      ReadAt(log, k, i);
      if GotoNext(log.pages[page], unit) {
        CopyHop(log, copy, out, want, spares, count, s, k);
        page, unit, k, i := log.pages[page].next, 0, k + 1, 0;
        if page == tailPage {
          break;
        }
        ReadAt(log, k, 0);
      }
      var it := log.pages[page].cells[unit].item;
      ok, out, s := CopyNext(log, copy, out, page, unit, spares, count, s, want, k, i);
      if !ok {
        return;
      }
      unit, i := unit + it.size, i + 1;
    }
    CopyEnds(log, copy, out, want, spares, count, s, k, i);
    blocks := count + s;
  }

  lemma CopyBegins(log: Log, copy: Log, tree: map<nat, Addr>, want: map<nat, Item>, spares: seq<Spare>, count: nat)
    requires log != copy && log.Valid() && copy.Valid() && |copy.chain| == count && copy.contents == [[]]
    requires NotIn(log.chain, copy.pages) && SparesLeft(spares, 0, log.chain, copy.pages)
    requires Slots(tree, want, log.chain, log.contents, 0, 0, copy.chain, [[]])
    ensures Copying(log, copy, tree, want, spares, count, 0, 0, 0)
    ensures log.head == log.chain[0] && Used(log.contents[0][..0]) == 0
  {
    hide Used, Flatten, Live, PageHolds, IsLog, Slots, SparesLeft, NotIn, NoLonger, Packed;
    LogSizes(log);
    CopyStart(log.contents);
  }

  /** At the end of a page the copy goes on with the next one. */
  lemma CopyHop(log: Log, copy: Log, tree: map<nat, Addr>, want: map<nat, Item>, spares: seq<Spare>, count: nat, s: nat,
                k: nat)
    requires k < log.tailAt && k < |log.contents|
    requires Copying(log, copy, tree, want, spares, count, s, k, |log.contents[k]|)
    ensures Copying(log, copy, tree, want, spares, count, s, k + 1, 0)
    ensures log.chain[k + 1] == log.tailPage <==> k + 1 == log.tailAt
  {
    hide Used, Flatten, Live, PageHolds, Slots, SparesLeft, NotIn, Packed;
    var contents := log.contents;
    assert contents[k][..|contents[k]|] == contents[k];
    SlotsHop(tree, want, log.chain, contents, k, copy.chain, copy.contents);
    FlattenStep(contents, k);
    assert Flatten(contents[..k + 1]) + contents[k + 1][..0] == Flatten(contents[..k]) + contents[k];
  }

  lemma CopyEnds(log: Log, copy: Log, tree: map<nat, Addr>, want: map<nat, Item>, spares: seq<Spare>, count: nat,
                 s: nat, k: nat, i: nat)
    requires Copying(log, copy, tree, want, spares, count, s, k, i) && log.tailAt > 0
    requires (k < log.tailAt ==> log.chain[k] == log.tailPage) && (k == log.tailAt ==> i == 0)
    ensures k == log.tailAt && copy.contents == Packed(Live(Flatten(log.contents[..log.tailAt])))
    ensures copy.Valid() && NotIn(log.chain, copy.pages) && |copy.contents| <= log.tailAt
    ensures |copy.chain| == count + s == Larger(count, |copy.contents|) && |copy.contents| <= count + |spares|
    ensures Slots(tree, want, log.chain, log.contents, log.tailAt, 0, copy.chain, copy.contents)
  {
    hide Flatten, Live, PageHolds, Slots, SparesLeft, NotIn, Packed;
    CopyDone(log, k, i);
    LogSizes(copy);
    if |copy.contents| == k + 1 {
      UsedNone(log.contents[k]);
      LastFilled(copy);
    }
  }

  /** Only the first page of a log may be empty. */
  lemma LastFilled(copy: Log)
    requires copy.Valid() && |copy.contents| > 1
    ensures Used(copy.contents[|copy.contents| - 1]) > 0
  {
    hide PageHolds;
    var n := |copy.contents| - 1;
    assert StoredAt(copy.pages, copy.chain, copy.contents, n);
    HoldsCells(copy.pages[copy.chain[n]], copy.contents[n], true);
  }

  /** Copy the next entry, or pass it over if it is invalid. */
  method CopyNext(log: Log, copy: Log, tree: map<nat, Addr>, page: nat, unit: nat, spares: seq<Spare>,
                  ghost count: nat, s: nat, ghost want: map<nat, Item>, ghost k: nat, ghost i: nat)
    returns (ok: bool, out: map<nat, Addr>, s': nat)
    requires Copying(log, copy, tree, want, spares, count, s, k, i) && k < log.tailAt && i < |log.contents[k]|
    requires page == log.chain[k] && unit == Used(log.contents[k][..i])
    modifies copy
    ensures copy.head == old(copy.head) && (ok ==> Copying(log, copy, out, want, spares, count, s', k, i + 1))
    ensures !ok ==> |Packed(Live(Flatten(log.contents[..log.tailAt])))| > count + |spares|
  {
    hide Used, Flatten, Live, PageHolds, IsLog, Slots, SparesLeft, NotIn, NoLonger, Packed, AppendItem;
    LogSizes(log);
    LogSizes(copy);
    ReadAt(log, k, i);
    var it := log.pages[page].cells[unit].item;
    NoLongerStep(copy.contents, log.contents, k, i);
    CopyStep(log.contents, k, i);
    ok, out, s' := true, tree, s;
    if it.dead {
      SlotsSkip(tree, want, log.chain, log.contents, k, i, copy.chain, copy.contents);
    } else {
      PackedMore(Live(Flatten(log.contents[..k]) + log.contents[k][..i]), it);
      copy.CursorFacts();
      if s == |spares| && IsLast(copy.curUnit, it.size) && copy.pages[copy.curPage].next == 0 {
        AppendLength(copy.contents, it);
        TooFew(log.contents, k, i, log.tailAt);
        return false, tree, s;
      }
      OldPage(log, k, copy);
      out, s' := CopyEntry(log, copy, tree, page, unit, spares, s, want, k, i);
    }
  }

  /** The packing of all the entries takes no fewer pages than that of the first ones. */
  lemma TooFew(contents: seq<seq<Item>>, k: nat, i: nat, t: nat)
    requires k < t <= |contents| && i < |contents[k]|
    ensures |Packed(Live(Flatten(contents[..k]) + contents[k][..i + 1]))| <= |Packed(Live(Flatten(contents[..t])))|
  {
    hide Flatten, Live, Packed;
    var done := Flatten(contents[..k]) + contents[k][..i + 1];
    FlattenStep(contents, k);
    FlattenConcat(contents[..k + 1], contents[k + 1..t]);
    assert contents[..k + 1] + contents[k + 1..t] == contents[..t];
    var rest := contents[k][i + 1..] + Flatten(contents[k + 1..t]);
    assert Flatten(contents[..t]) == done + rest;
    LiveConcat(done, rest);
    PackedGrows(Live(done), Live(rest));
  }

  lemma {:induction false} PackedGrows(a: seq<Item>, b: seq<Item>)
    ensures |Packed(a)| <= |Packed(a + b)|
    decreases |b|
  {
    hide Packed, AppendItem;
    if b == [] {
      assert a + b == a;
    } else {
      var n := |b| - 1;
      PackedGrows(a, b[..n]);
      assert a + b == a + b[..n] + [b[n]];
      PackedMore(a + b[..n], b[n]);
      AppendLength(Packed(a + b[..n]), b[n]);
    }
  }

  /** Copy one valid entry and move its slots. */
  method CopyEntry(log: Log, copy: Log, tree: map<nat, Addr>, page: nat, unit: nat, spares: seq<Spare>, s: nat,
                   ghost want: map<nat, Item>, ghost k: nat, ghost i: nat)
    returns (out: map<nat, Addr>, s': nat)
    requires log != copy && log.Valid() && copy.Valid() && k < log.tailAt && i < |log.contents[k]|
    requires !log.contents[k][i].dead
    requires page == log.chain[k] && unit == Used(log.contents[k][..i]) && page !in copy.chain
    requires Slots(tree, want, log.chain, log.contents, k, i, copy.chain, copy.contents)
    requires copy.NeedsPage(log.contents[k][i].size) ==> s < |spares|
    requires SparesLeft(spares, s, log.chain, copy.pages) && NotIn(log.chain, copy.pages)
    modifies copy
    ensures copy.Valid() && copy.head == old(copy.head) && NotIn(log.chain, copy.pages)
    ensures copy.contents == AppendItem(old(copy.contents), log.contents[k][i])
    ensures |copy.contents| <= |copy.chain| && (s' > s ==> |copy.contents| == |copy.chain|)
    ensures Slots(out, want, log.chain, log.contents, k, i + 1, copy.chain, copy.contents)
    ensures |copy.chain| - s' == |old(copy.chain)| - s && s <= s' && |old(copy.contents)| <= |copy.contents|
    ensures SparesLeft(spares, s', log.chain, copy.pages) && (s <= |spares| ==> s' <= |spares|)
  {
    hide Used, Flatten, PageHolds, Linked, Stored, Counted, Filled, IsLog, Slots, SparesLeft, AppendItem, NotIn;
    hide Somewhere;
    LogSizes(log);
    LogSizes(copy);
    ReadAt(log, k, i);
    var it := log.pages[page].cells[unit].item;
    var body := log.pages[page].cells[unit + 1..unit + it.size];
    if s < |spares| {
      SpareAt(spares, s, log.chain, copy.pages);
    }
    ghost var (chain0, contents0, pages0) := (copy.chain, copy.contents, copy.pages);
    s' := copy.AppendCopy(it, body, spares, s);
    CopiedAt(copy, contents0, it);
    var to := Addr(copy.curPage, copy.curUnit - it.size);
    out := AssignSlots(tree, it, Addr(page, unit), to);
    ghost var added := copy.chain[|chain0|..];
    assert chain0 + added == copy.chain;
    SlotsCopy(tree, out, want, log.chain, log.contents, k, i, chain0, contents0, added, Addr(page, unit), to);
    AppendLength(contents0, it);
    LogSizes(copy);
    SparesUsed(spares, s, log.chain, pages0, copy.pages, s');
  }

  function Larger(a: nat, b: nat): nat {
    if a < b then b else a
  }

  lemma AppendLength(contents: seq<seq<Item>>, it: Item)
    requires contents != []
    ensures |contents| <= |AppendItem(contents, it)|
    ensures IsLast(Used(contents[|contents| - 1]), it.size) ==> |AppendItem(contents, it)| == |contents| + 1
  {}

  lemma CopyStart(contents: seq<seq<Item>>)
    requires contents != []
    ensures Used(contents[0][..0]) == 0 && Flatten([[]]) == [] && Flatten(contents[..0]) == []
    ensures Live(Flatten(contents[..0]) + contents[0][..0]) == [] && Packed([]) == [[]]
    ensures NoLonger([[]], contents, 0, 0)
  {
    var none: seq<seq<Item>> := [[]];
    assert none[..0] == [] && Flatten(none) == Flatten(none[..0]) + none[0];
  }

  lemma LogSizes(log: Log)
    requires log.Valid()
    ensures 0 < |log.contents| <= |log.chain| && log.head == log.chain[0] && Distinct(log.chain)
  {}

  /** What the walk finds at item i of page k. */
  lemma ReadAt(log: Log, k: nat, i: nat)
    requires log.Valid() && k < log.tailAt && i <= |log.contents[k]|
    ensures k + 1 < |log.chain| && log.chain[k] in log.pages && |log.pages[log.chain[k]].cells| == PAYLOAD
    ensures var (page, u) := (log.pages[log.chain[k]], Used(log.contents[k][..i]));
            && page.next == log.chain[k + 1]
            && (GotoNext(page, u) <==> i == |log.contents[k]|)
            && (i < |log.contents[k]| ==>
                  var it := log.contents[k][i];
                  && u < PAYLOAD && page.cells[u] == Ent(it) && Sized(it) && u + it.size <= PAYLOAD
                  && Used(log.contents[k][..i + 1]) == u + it.size)
    ensures k > 0 ==> log.contents[k] != []
    ensures Used(log.contents[k][..0]) == 0 && forall j :: 0 <= j < |log.contents[k]| ==> log.contents[k][j].size > 0
  {
    hide PageHolds;
    assert StoredAt(log.pages, log.chain, log.contents, k) && LinkedAt(log.pages, log.chain, 0, k);
    var (page, items) := (log.pages[log.chain[k]], log.contents[k]);
    HoldsCells(page, items, false);
    ReaderMoves(page, items, false, i);
    if i < |items| {
      ItemFits(items, i);
      UsedStep(items, i);
    } else {
      assert items[..i] == items;
    }
  }

  lemma CopyStep(contents: seq<seq<Item>>, k: nat, i: nat)
    requires k < |contents| && i < |contents[k]|
    ensures var done := Live(Flatten(contents[..k]) + contents[k][..i]);
            Live(Flatten(contents[..k]) + contents[k][..i + 1]) ==
              if contents[k][i].dead then done else done + [contents[k][i]]
  {
    var done := Flatten(contents[..k]) + contents[k][..i];
    var next := Flatten(contents[..k]) + contents[k][..i + 1];
    assert next[..|next| - 1] == done && next[|next| - 1] == contents[k][i];
  }

  lemma SpareAt(spares: seq<Spare>, s: nat, chain: seq<nat>, taken: map<nat, LogPage>)
    requires SparesLeft(spares, s, chain, taken) && s < |spares|
    ensures Usable(spares[s], taken)
  {
    assert SpareFree(spares, s, chain, taken);
  }

  lemma SparesUsed(spares: seq<Spare>, s: nat, chain: seq<nat>, was: map<nat, LogPage>, now: map<nat, LogPage>, s': nat)
    requires SparesLeft(spares, s, chain, was) && NotIn(chain, was) && (s' == s || s' == s + 1 <= |spares|)
    requires now.Keys == was.Keys + if s' > s then {spares[s].id} else {}
    ensures SparesLeft(spares, s', chain, now) && NotIn(chain, now)
  {
    assert s < |spares| ==> SpareFree(spares, s, chain, was);
    forall j | s' <= j < |spares|
      ensures SpareFree(spares, j, chain, now)
    {
      assert SpareFree(spares, j, chain, was);
    }
  }

  lemma OldPage(log: Log, k: nat, copy: Log)
    requires log.Valid() && copy.Valid() && k < |log.chain| && NotIn(log.chain, copy.pages)
    ensures log.chain[k] !in copy.chain
  {
    assert forall j :: 0 <= j < |copy.chain| ==> copy.chain[j] in copy.pages;
  }

  lemma CopiedAt(copy: Log, was: seq<seq<Item>>, it: Item)
    requires copy.Valid() && was != [] && copy.contents == AppendItem(was, it) && it.size <= copy.curUnit
    ensures Somewhere(copy.chain, copy.contents, Addr(copy.curPage, copy.curUnit - it.size), it)
  {
    var n := |copy.contents| - 1;
    var i := |copy.contents[n]| - 1;
    UsedStep(copy.contents[n], i);
    assert copy.contents[n][..i + 1] == copy.contents[n] && copy.contents[n][i] == it;
    assert Place(copy.chain, copy.contents, n, i, Addr(copy.curPage, copy.curUnit - it.size), it);
  }

  lemma CopyDone(log: Log, k: nat, i: nat)
    requires log.Valid() && k <= log.tailAt && (k < log.tailAt ==> log.chain[k] == log.tailPage)
    requires i <= |log.contents[k]|
    requires k == log.tailAt ==> i == 0
    ensures k == log.tailAt && Flatten(log.contents[..k]) + log.contents[k][..i] == Flatten(log.contents[..k])
  {}

  // ----- switching over -----

  /** The log's memory and head at a moment the machine might stop. */
  datatype Stop = Stop(pages: map<nat, LogPage>, head: nat)

  /** After a stop a reader would meet these entries. */
  ghost predicate Reads(stop: Stop, tailPage: nat, tailUnit: nat, items: seq<Item>) {
    exists chain: seq<nat>, contents: seq<seq<Item>> ::
      Shows(stop.pages, stop.head, tailPage, tailUnit, chain, contents) && Flatten(contents) == items
  }

  /** The stops of a collection: before it, and after each of its first three steps. */
  ghost predicate OldThenNew(stops: seq<Stop>, tailPage: nat, tailUnit: nat, was: seq<Item>, now: seq<Item>) {
    && |stops| == 4
    && Reads(stops[0], tailPage, tailUnit, was) && Reads(stops[1], tailPage, tailUnit, was)
    && Reads(stops[2], tailPage, tailUnit, now) && Reads(stops[3], tailPage, tailUnit, now)
  }

  /** Two chains in one memory, the first linked to the second. */
  ghost predicate Joined(pages: map<nat, LogPage>, a: seq<nat>, ca: seq<seq<Item>>, b: seq<nat>, cb: seq<seq<Item>>) {
    && a != [] && |a| == |ca| && b != [] && Linked(pages, a, b[0]) && Linked(pages, b, 0) && Apart(a, b)
    && (forall k :: 0 <= k < |a| ==> JoinedAt(pages, a, ca, k))
    && Stored(pages, b, cb) && Counted(pages, b, cb) && Filled(ca) && Filled(cb) && cb[0] != []
    && (forall k :: |cb| <= k < |b| ==> BlankPage(pages[b[k]]))
  }

  ghost predicate JoinedAt(pages: map<nat, LogPage>, a: seq<nat>, ca: seq<seq<Item>>, k: nat) {
    && k < |a| && k < |ca| && a[k] in pages && PageHolds(pages[a[k]], ca[k], false) && pages[a[k]].num == |ca[k]|
    && pages[a[k]].invalid == Deads(ca[k])
  }

  /** Joined chains are one log. */
  lemma JoinedIsLog(pages: map<nat, LogPage>, a: seq<nat>, ca: seq<seq<Item>>, b: seq<nat>, cb: seq<seq<Item>>)
    requires Joined(pages, a, ca, b, cb)
    ensures IsLog(pages, a + b, ca + cb)
  {
    hide PageHolds, Deads, Linked;
    var (chain, contents) := (a + b, ca + cb);
    LinkedConcat(pages, a, b, 0);
    forall k | 0 <= k < |chain|
      ensures CountedAt(pages, chain, contents, k)
      ensures k < |contents| ==> StoredAt(pages, chain, contents, k)
    {
      if k < |a| {
        assert JoinedAt(pages, a, ca, k);
      } else {
        assert CountedAt(pages, b, cb, k - |a|);
        if k < |contents| {
          assert StoredAt(pages, b, cb, k - |a|);
        }
      }
    }
  }

  lemma FlattenTail(a: seq<seq<Item>>, b: seq<seq<Item>>, n: nat)
    requires b != [] && n <= |b[0]|
    ensures Flatten((a + b)[..|a|] + [(a + b)[|a|][..n]]) == Flatten(a) + b[0][..n]
  {
    var out := (a + b)[..|a|] + [(a + b)[|a|][..n]];
    assert out[..|out| - 1] == a;
  }

  /** A log cut at its tail, as a stop shows it. */
  lemma StopReads(pages: map<nat, LogPage>, chain: seq<nat>, contents: seq<seq<Item>>, end: nat, t: nat, n: nat)
    requires Linked(pages, chain, end) && Stored(pages, chain, contents) && Filled(contents)
    requires t < |contents| && n <= |contents[t]| && (t > 0 ==> n > 0)
    ensures Reads(Stop(pages, chain[0]), chain[t], Used(contents[t][..n]), Flatten(contents[..t] + [contents[t][..n]]))
  {
    hide PageHolds, Used, Linked, Filled, Shows;
    PrefixShows(pages, chain, contents, end, t, n);
    var stop := Stop(pages, chain[0]);
    var (ids, items) := (chain[..t + 1], contents[..t] + [contents[t][..n]]);
    assert Shows(stop.pages, stop.head, chain[t], Used(contents[t][..n]), ids, items)
           && Flatten(items) == Flatten(items);
  }

  /** The new log's pages once its last page is marked and linked to the old tail page. */
  function Attached(copy: map<nat, LogPage>, curPage: nat, curUnit: nat, tailPage: nat): map<nat, LogPage>
    requires curPage in copy && |copy[curPage].cells| == PAYLOAD
  {
    copy[curPage := Flagged(copy[curPage], curUnit).(next := tailPage)]
  }

  /** Step 1 joins the copy to the tail page and leaves the old log as it was. */
  lemma AttachJoins(log: Log, copy: Log)
    requires log.Valid() && copy.Valid() && log.tailAt > 0 && NotIn(log.chain, copy.pages)
    ensures copy.curPage in copy.pages && |copy.pages[copy.curPage].cells| == PAYLOAD
    ensures var pages := log.pages + Attached(copy.pages, copy.curPage, copy.curUnit, log.tailPage);
            && Joined(pages, copy.chain[..|copy.contents|], copy.contents, log.chain[log.tailAt..],
                      log.contents[log.tailAt..])
            && Linked(pages, log.chain, 0) && Stored(pages, log.chain, log.contents)
  {
    hide PageHolds, Deads, Used;
    var n := |copy.contents| - 1;
    assert StoredAt(copy.pages, copy.chain, copy.contents, n);
    HoldsCells(copy.pages[copy.curPage], copy.contents[n], true);
    var new_ := Attached(copy.pages, copy.curPage, copy.curUnit, log.tailPage);
    var pages := log.pages + new_;
    AttachOld(log, new_);
    AttachNew(log, copy, pages);
  }

  lemma AttachOld(log: Log, more: map<nat, LogPage>)
    requires log.Valid() && log.tailAt > 0 && NotIn(log.chain, more)
    ensures var pages := log.pages + more;
            && Linked(pages, log.chain, 0) && Stored(pages, log.chain, log.contents)
            && var (b, cb) := (log.chain[log.tailAt..], log.contents[log.tailAt..]);
               && Linked(pages, b, 0) && b[0] == log.tailPage && Stored(pages, b, cb) && Counted(pages, b, cb)
               && Filled(cb) && cb[0] != []
               && (forall k :: |cb| <= k < |b| ==> BlankPage(pages[b[k]]))
  {
    hide PageHolds, Deads, Used;
    var (pages, t) := (log.pages + more, log.tailAt);
    var (b, cb) := (log.chain[t..], log.contents[t..]);
    LinkedOutside(log.pages, pages, log.chain, 0);
    LinkedSplit(pages, log.chain, 0, t);
    forall k | 0 <= k < |log.chain|
      ensures pages[log.chain[k]] == log.pages[log.chain[k]]
      ensures k < |log.contents| ==> StoredAt(pages, log.chain, log.contents, k)
    {
      if k < |log.contents| {
        assert StoredAt(log.pages, log.chain, log.contents, k);
      }
    }
    forall k | 0 <= k < |b|
      ensures CountedAt(pages, b, cb, k)
      ensures k < |cb| ==> StoredAt(pages, b, cb, k)
      ensures |cb| <= k ==> BlankPage(pages[b[k]])
    {
      assert CountedAt(log.pages, log.chain, log.contents, t + k) && b[k] == log.chain[t + k];
      if k < |cb| {
        assert StoredAt(log.pages, log.chain, log.contents, t + k);
      }
    }
  }

  lemma AttachNew(log: Log, copy: Log, pages: map<nat, LogPage>)
    requires log.Valid() && copy.Valid() && log.tailAt > 0 && NotIn(log.chain, copy.pages)
    requires copy.curPage in copy.pages && |copy.pages[copy.curPage].cells| == PAYLOAD
    requires pages == log.pages + Attached(copy.pages, copy.curPage, copy.curUnit, log.tailPage)
    ensures var (a, ca) := (copy.chain[..|copy.contents|], copy.contents);
            && Linked(pages, a, log.tailPage) && Apart(a, log.chain[log.tailAt..])
            && (forall k :: 0 <= k < |a| ==> JoinedAt(pages, a, ca, k))
  {
    hide PageHolds, Deads, Used;
    var (m, t) := (|copy.contents|, log.tailAt);
    var (a, ca) := (copy.chain[..m], copy.contents);
    forall k | 0 <= k < m
      ensures JoinedAt(pages, a, ca, k) && LinkedAt(pages, a, log.tailPage, k)
    {
      assert StoredAt(copy.pages, copy.chain, copy.contents, k) && CountedAt(copy.pages, copy.chain, copy.contents, k);
      assert LinkedAt(copy.pages, copy.chain, 0, k);
      if k == m - 1 {
        FlagHolds(copy.pages[a[k]], ca[k]);
        HoldsFields(Flagged(copy.pages[a[k]], copy.curUnit), pages[a[k]], ca[k], false);
      } else {
        assert a[k] != copy.curPage;
      }
    }
    forall i, j | 0 <= i < |a| && 0 <= j < |log.chain| - t
      ensures a[i] != log.chain[t..][j]
    {
      assert a[i] in copy.pages && log.chain[t + j] !in copy.pages;
    }
  }

  /** Step 3 unlinks the old pages from the tail page: the new log does not notice, and the old pages are a
      chain of their own. */
  lemma DetachJoins(pages: map<nat, LogPage>, a: seq<nat>, ca: seq<seq<Item>>, chain: seq<nat>,
                    contents: seq<seq<Item>>, t: nat)
    requires 0 < t < |chain| && t < |contents| && Linked(pages, chain, 0)
    requires Joined(pages, a, ca, chain[t..], contents[t..]) && Apart(a, chain)
    ensures var last := chain[t - 1];
            && last in pages
            && var out := pages[last := pages[last].(next := 0)];
               Joined(out, a, ca, chain[t..], contents[t..]) && Linked(out, chain[..t], 0)
  {
    hide PageHolds, Deads, Used;
    var last := chain[t - 1];
    var out := pages[last := pages[last].(next := 0)];
    var (b, cb) := (chain[t..], contents[t..]);
    LinkedSplit(pages, chain, 0, t);
    LinkedRetarget(pages, chain[..t], chain[t], 0);
    forall k | 0 <= k < |b|
      ensures b[k] != last && out[b[k]] == pages[b[k]]
    {
      assert b[k] == chain[t + k];
    }
    forall k | 0 <= k < |a|
      ensures a[k] != last && JoinedAt(out, a, ca, k)
    {
      assert JoinedAt(pages, a, ca, k);
    }
    LinkedOutside(pages, out, a, b[0]);
    LinkedOutside(pages, out, b, 0);
    forall k | 0 <= k < |b|
      ensures CountedAt(out, b, cb, k)
      ensures k < |cb| ==> StoredAt(out, b, cb, k)
    {
      assert CountedAt(pages, b, cb, k);
      if k < |cb| {
        assert StoredAt(pages, b, cb, k);
      }
    }
  }

  /** The four steps after the copy. */
  method SwitchOver(log: Log, copy: Log, lastOld: nat) returns (ghost stops: seq<Stop>, ghost unused: seq<nat>)
    requires log != copy && log.Valid() && log.tailAt > 0 && copy.Valid() && NotIn(log.chain, copy.pages)
    requires lastOld == log.chain[log.tailAt - 1]
    modifies log
    ensures log.Valid() && log.tailPage == old(log.tailPage) && log.tailUnit == old(log.tailUnit)
    ensures log.tailCount == old(log.tailCount)
    ensures |copy.contents| <= |copy.chain| && unused == copy.chain[|copy.contents|..]
    ensures log.logPages == old(log.logPages)
    ensures log.chain == copy.chain[..|copy.contents|] + old(log.chain)[old(log.tailAt)..]
    ensures log.contents == copy.contents + old(log.contents)[old(log.tailAt)..] && log.tailAt == |copy.contents|
    ensures log.freed == old(log.freed) + unused + old(log.chain)[..old(log.tailAt)]
    ensures OldThenNew(stops, log.tailPage, log.tailUnit, Flatten(old(log.Committed())), Flatten(log.Committed()))
  {
    hide Used, Flatten, PageHolds, Linked, Stored, Counted, Filled, NotIn, Reads, Attached, Unlinked;
    LogSizes(log);
    LogSizes(copy);
    ghost var (t, chain, contents) := (log.tailAt, log.chain, log.contents);
    unused := copy.chain[|copy.contents|..];
    UnusedPages(copy);
    OldStops(log, copy);
    NewStops(log, copy);
    var (head0, pages0) := (log.head, log.pages);
    // the pages of the new log that stayed empty go back
    var empty := FreeContiguous(copy.pages, copy.pages[copy.curPage].next, unused);
    // step 1: link the new log to the tail block
    var pages1 := pages0 + Attached(copy.pages, copy.curPage, copy.curUnit, log.tailPage);
    // step 2: switch to the new log
    var head2 := copy.head;
    // step 3: unlink the old log
    var pages3 := Unlinked(pages1, lastOld);
    // step 4: free the old log
    var old_ := FreeContiguous(pages3, head0, chain[..t]);
    stops := [Stop(pages0, head0), Stop(pages1, head0), Stop(pages1, head2), Stop(pages3, head2)];
    log.Install(pages3, head2, Expand(empty) + Expand(old_), copy.chain[..|copy.contents|] + chain[t..],
                copy.contents + contents[t..], |copy.contents|);
  }

  function Unlinked(pages: map<nat, LogPage>, last: nat): map<nat, LogPage>
    requires last in pages
  {
    pages[last := pages[last].(next := 0)]
  }

  /** Before the switch a reader meets the old entries. */
  lemma OldStops(log: Log, copy: Log)
    requires log.Valid() && log.tailAt > 0 && copy.Valid() && NotIn(log.chain, copy.pages)
    ensures copy.curPage in copy.pages && |copy.pages[copy.curPage].cells| == PAYLOAD
    ensures Reads(Stop(log.pages, log.head), log.tailPage, log.tailUnit, Flatten(log.Committed()))
    ensures Reads(Stop(log.pages + Attached(copy.pages, copy.curPage, copy.curUnit, log.tailPage), log.head),
                  log.tailPage, log.tailUnit, Flatten(log.Committed()))
  {
    hide Used, Flatten, PageHolds, Linked, Stored, Counted, Filled, NotIn, Reads, Joined, Attached;
    LogSizes(log);
    AttachJoins(log, copy);
    StopReads(log.pages, log.chain, log.contents, 0, log.tailAt, log.tailCount);
    StopReads(log.pages + Attached(copy.pages, copy.curPage, copy.curUnit, log.tailPage), log.chain, log.contents, 0,
              log.tailAt, log.tailCount);
  }

  /** From the switch on a reader meets the new entries, and the joined chains are a log. */
  lemma NewStops(log: Log, copy: Log)
    requires log.Valid() && log.tailAt > 0 && copy.Valid() && NotIn(log.chain, copy.pages)
    ensures 0 < |copy.contents| <= |copy.chain| && copy.curPage in copy.pages
    ensures |copy.pages[copy.curPage].cells| == PAYLOAD
    ensures var pages := log.pages + Attached(copy.pages, copy.curPage, copy.curUnit, log.tailPage);
            var (last, t, n) := (log.chain[log.tailAt - 1], log.tailAt, log.tailCount);
            var (chain, contents) := (copy.chain[..|copy.contents|] + log.chain[t..],
                                      copy.contents + log.contents[t..]);
            && last in pages
            && var out := Unlinked(pages, last);
               var items := Flatten(contents[..|copy.contents|] + [contents[|copy.contents|][..n]]);
               && Reads(Stop(pages, copy.head), log.tailPage, log.tailUnit, items)
               && Reads(Stop(out, copy.head), log.tailPage, log.tailUnit, items)
               && Linked(out, log.chain[..t], 0)
               && IsLog(out, chain, contents)
               && chain[|copy.contents|] == log.chain[t] && contents[|copy.contents|] == log.contents[t]
               && chain[|contents| - 1] == log.chain[|log.contents| - 1]
               && contents[|contents| - 1] == log.contents[|log.contents| - 1]
               && chain[0] == copy.chain[0] && n > 0
  {
    hide Used, Flatten, PageHolds, Linked, Counted, Filled, NotIn, Reads, Joined, Attached;
    LogSizes(log);
    LogSizes(copy);
    AttachJoins(log, copy);
    CopyApart(copy, log.chain);
    var (t, n) := (log.tailAt, log.tailCount);
    var (a, ca, b, cb) := (copy.chain[..|copy.contents|], copy.contents, log.chain[t..], log.contents[t..]);
    var pages := log.pages + Attached(copy.pages, copy.curPage, copy.curUnit, log.tailPage);
    JoinedIsLog(pages, a, ca, b, cb);
    JoinedTail(a, ca, log.chain, log.contents, t, n);
    StopReads(pages, a + b, ca + cb, 0, |ca|, n);
    DetachJoins(pages, a, ca, log.chain, log.contents, t);
    var out := Unlinked(pages, log.chain[t - 1]);
    JoinedIsLog(out, a, ca, b, cb);
    StopReads(out, a + b, ca + cb, 0, |ca|, n);
  }

  /** nova_inode_log_thorough_gc, with the pages the allocator granted for the estimate. The new log holds the
      old entries in order, with exactly the invalid ones before the tail page left out, on no more pages. At
      every stop on the way a reader meets the old entries or the new ones, and every slot leads to the entry
      it led to before, on a page of the new log. The page count comes out too high by the pages of the new
      log that stayed empty, that is by what the estimate exceeds the pages needed. A copy that is refused a page
      is written to a null address: `fault`. The log is then as it was; what the slots lead to is left open. */
  method ThoroughGc(log: Log, tree: map<nat, Addr>, blocks: nat, checked: nat, more: map<nat, LogPage>, first: nat,
                    count: nat, ghost ids: seq<nat>, spares: seq<Spare>, ghost want: map<nat, Item>)
    returns (fault: bool, out: map<nat, Addr>, ghost stops: seq<Stop>, ghost unused: seq<nat>)
    requires log.Valid() && checked == log.tailAt && (log.tailAt > 0 ==> blocks > 0)
    requires count == |ids| && Blank(more, ids) && NotIn(log.chain, more) && (count > 0 ==> first == ids[0])
    requires SparesLeft(spares, 0, log.chain, more)
    requires Slots(tree, want, log.chain, log.contents, 0, 0, [], [])
    modifies log
    ensures log.Valid() && log.tailPage == old(log.tailPage) && log.tailUnit == old(log.tailUnit)
    ensures fault <==>
              && old(log.tailAt) > 0 && count == blocks
              && |Packed(Live(Flatten(old(log.contents)[..old(log.tailAt)])))| > count + |spares|
    ensures !fault ==> Slots(out, want, log.chain, log.contents, 0, 0, [], [])
    ensures log.tailCount == old(log.tailCount) && log.contents[log.tailAt..] == old(log.contents)[old(log.tailAt)..]
    ensures log.chain[log.tailAt..] == old(log.chain)[old(log.tailAt)..] && |log.chain| <= |old(log.chain)|
    ensures log.logPages - |log.chain| == old(log.logPages) - |old(log.chain)| + |unused|
    ensures var moved := old(log.tailAt) > 0 && count == blocks && !fault;
            if moved then
              && log.contents[..log.tailAt] == Packed(Live(Flatten(old(log.contents)[..old(log.tailAt)])))
              && |unused| == (if blocks > log.tailAt then blocks - log.tailAt else 0)
              && OldThenNew(stops, log.tailPage, log.tailUnit, Flatten(old(log.Committed())), Flatten(log.Committed()))
              && log.freed == old(log.freed) + unused + old(log.chain)[..old(log.tailAt)]
            else
              unchanged(log) && unused == [] && (!fault ==> out == tree)
  {
    hide Used, Flatten, Live, PageHolds, Linked, Stored, Counted, Filled, IsLog, Slots, SparesLeft, Blank, NotIn, Reads;
    hide OldThenNew, Packed;
    stops, unused := [], [];
    LogSizes(log);
    HeadAndTail(log);
    if log.head == log.tailPage || count != blocks {
      return false, tree, [], [];
    }
    SlotsWiden(tree, want, log.chain, log.contents, ids, [[]]);
    var ok, copy, slots, lastOld, taken := CopyLive(log, tree, more, first, count, ids, spares, want);
    fault := !ok;
    if fault {
      return fault, slots, [], [];
    }
    ghost var (t, n, chain, contents) := (log.tailAt, log.tailCount, log.chain, log.contents);
    stops, unused := SwitchOver(log, copy, lastOld);
    log.logPages := log.logPages + taken - checked;
    SlotsSettle(slots, want, chain, contents, t, copy.chain, copy.contents);
    JoinedTail(copy.chain[..|copy.contents|], copy.contents, chain, contents, t, n);
    out := slots;
  }

  lemma SlotsWiden(tree: map<nat, Addr>, want: map<nat, Item>, chain: seq<nat>, contents: seq<seq<Item>>,
                   ids: seq<nat>, items: seq<seq<Item>>)
    requires Slots(tree, want, chain, contents, 0, 0, [], [])
    ensures Slots(tree, want, chain, contents, 0, 0, ids, items)
  {
    hide Used;
    forall p | p in tree
      ensures SlotAt(tree[p], want[p], p, chain, contents, 0, 0, ids, items)
    {
      assert SlotAt(tree[p], want[p], p, chain, contents, 0, 0, [], []);
    }
  }

  /** A slot that leads into a log leads to a page of it, not to one that was freed. */
  lemma SlotsInside(tree: map<nat, Addr>, want: map<nat, Item>, log: Log, p: nat)
    requires log.Valid() && Slots(tree, want, log.chain, log.contents, 0, 0, [], []) && p in tree
    ensures tree[p].page in log.chain && tree[p].page in log.pages
    ensures var page := log.pages[tree[p].page];
            tree[p].unit < |page.cells| && page.cells[tree[p].unit] == Ent(want[p]) && Maps(want[p], p)
  {
    hide PageHolds;
    assert SlotAt(tree[p], want[p], p, log.chain, log.contents, 0, 0, [], []);
    var k: nat, i: nat :| Place(log.chain, log.contents, k, i, tree[p], want[p]);
    assert StoredAt(log.pages, log.chain, log.contents, k);
    HoldsCells(log.pages[log.chain[k]], log.contents[k], k + 1 == |log.contents|);
    ReaderMoves(log.pages[log.chain[k]], log.contents[k], k + 1 == |log.contents|, i);
  }

  lemma HeadAndTail(log: Log)
    requires log.Valid()
    ensures log.head == log.tailPage <==> log.tailAt == 0
  {}

  lemma UnusedPages(copy: Log)
    requires copy.Valid()
    ensures copy.curPage in copy.pages && Linked(copy.pages, copy.chain[|copy.contents|..], 0)
    ensures var rest := copy.chain[|copy.contents|..];
            copy.pages[copy.curPage].next == if rest == [] then 0 else rest[0]
  {
    var m := |copy.contents|;
    assert LinkedAt(copy.pages, copy.chain, 0, m - 1);
    if m < |copy.chain| {
      LinkedSplit(copy.pages, copy.chain, 0, m);
    }
  }

  lemma JoinedTail(a: seq<nat>, ca: seq<seq<Item>>, chain: seq<nat>, contents: seq<seq<Item>>, t: nat, n: nat)
    requires |a| == |ca| && t < |chain| && t < |contents| && n <= |contents[t]|
    ensures var (all, both) := (a + chain[t..], ca + contents[t..]);
            && all[|ca|] == chain[t] && both[|ca|] == contents[t] && both[|ca|..] == contents[t..] && both[..|ca|] == ca
            && all[|ca|..] == chain[t..]
            && Flatten(both[..|ca|] + [both[|ca|][..n]]) == Flatten(ca) + contents[t][..n]
  {
    FlattenTail(ca, contents[t..], n);
  }

  lemma CopyApart(copy: Log, chain: seq<nat>)
    requires copy.Valid() && NotIn(chain, copy.pages)
    ensures Apart(copy.chain[..|copy.contents|], chain)
  {
    var a := copy.chain[..|copy.contents|];
    forall i, j | 0 <= i < |a| && 0 <= j < |chain|
      ensures a[i] != chain[j]
    {
      assert a[i] in copy.pages && chain[j] !in copy.pages;
    }
  }

  /** Once every page before the tail is copied, all slots lie in the joined log. */
  lemma SlotsSettle(tree: map<nat, Addr>, want: map<nat, Item>, chain: seq<nat>, contents: seq<seq<Item>>, t: nat,
                    copied: seq<nat>, ca: seq<seq<Item>>)
    requires t <= |chain| && t <= |contents| && |ca| <= |copied| && Slots(tree, want, chain, contents, t, 0, copied, ca)
    ensures Slots(tree, want, copied[..|ca|] + chain[t..], ca + contents[t..], 0, 0, [], [])
  {
    hide Used;
    var (all, both) := (copied[..|ca|] + chain[t..], ca + contents[t..]);
    forall p | p in tree
      ensures SlotAt(tree[p], want[p], p, all, both, 0, 0, [], [])
    {
      assert SlotAt(tree[p], want[p], p, chain, contents, t, 0, copied, ca);
      if Ahead(chain, contents, t, 0, tree[p], want[p]) {
        var k: nat, i: nat :| (k > t || (k == t && i >= 0)) && Place(chain, contents, k, i, tree[p], want[p]);
        assert Place(all, both, |ca| + (k - t), i, tree[p], want[p]);
      } else {
        var k: nat, i: nat :| Place(copied, ca, k, i, tree[p], want[p]);
        assert Place(all, both, k, i, tree[p], want[p]);
      }
    }
  }
}
