/** The pages of an inode log: entries of different sizes packed into the payload of linked 4 KiB pages.
    Offsets and sizes count 8-byte units. Slots no entry was written to hold whatever was there. */
module LogPages {

  const PAYLOAD := 508    // LOG_BLOCK_TAIL: 4064 bytes
  const SMALLEST := 4     // goto_next_page: an entry takes at least 32 bytes

  /** A log entry: its content, its size, whether it is invalid, and the file pages it maps. */
  datatype Item = Item(id: nat, size: nat, dead: bool, pgoff: nat, num: nat)

  predicate Sized(it: Item) {
    5 <= it.size <= 38
  }

  /** What a reader finds at a slot. */
  datatype Slot = Ent(item: Item) | Next

  datatype LogPage = LogPage(cells: seq<Slot>, next: nat, num: nat, invalid: nat)

  function Used(items: seq<Item>): nat {
    if items == [] then 0 else Used(items[..|items| - 1]) + items[|items| - 1].size
  }

  /** nova.h: is_last_entry */
  predicate IsLast(unit: nat, size: nat) {
    unit + size > PAYLOAD
  }

  /** nova.h: goto_next_page */
  predicate GotoNext(page: LogPage, unit: nat)
    requires |page.cells| == PAYLOAD
  {
    unit + SMALLEST > PAYLOAD || page.cells[unit] == Next
  }

  /** Item i stands where the items before it end. */
  ghost predicate ItemAt(cells: seq<Slot>, items: seq<Item>, i: nat) {
    i < |items| && Sized(items[i]) && Used(items[..i]) < |cells| && cells[Used(items[..i])] == Ent(items[i])
  }

  /** The page holds these items; a page that is not the last one sends the reader on after them. */
  ghost predicate PageHolds(page: LogPage, items: seq<Item>, last: bool) {
    && |page.cells| == PAYLOAD && Used(items) <= PAYLOAD
    && (forall i :: 0 <= i < |items| ==> ItemAt(page.cells, items, i))
    && (!last ==> GotoNext(page, Used(items)))
  }

  lemma {:induction false} UsedPrefix(items: seq<Item>, i: nat)
    requires i <= |items|
    ensures Used(items[..i]) <= Used(items)
    decreases |items|
  {
    if i < |items| {
      var n := |items| - 1;
      UsedPrefix(items[..n], i);
      assert items[..n][..i] == items[..i];
    } else {
      assert items[..i] == items;
    }
  }

  lemma UsedStep(items: seq<Item>, i: nat)
    requires i < |items|
    ensures Used(items[..i + 1]) == Used(items[..i]) + items[i].size
  {
    assert items[..i + 1][..i] == items[..i];
  }

  lemma UsedAppend(items: seq<Item>, it: Item)
    ensures Used(items + [it]) == Used(items) + it.size
  {
    assert (items + [it])[..|items|] == items;
  }

  /** Items end before the page's used part does. */
  lemma ItemFits(items: seq<Item>, i: nat)
    requires i < |items|
    ensures Used(items[..i]) + items[i].size <= Used(items)
  {
    UsedStep(items, i);
    UsedPrefix(items, i + 1);
  }

  /** The reader stays on the page while it has items left, and leaves it after the last one. */
  lemma ReaderMoves(page: LogPage, items: seq<Item>, last: bool, i: nat)
    requires PageHolds(page, items, last) && i <= |items|
    ensures i < |items| ==>
              && Used(items[..i]) < PAYLOAD && !GotoNext(page, Used(items[..i]))
              && page.cells[Used(items[..i])] == Ent(items[i])
    ensures i == |items| && !last ==> GotoNext(page, Used(items[..i]))
  {
    if i < |items| {
      ItemFits(items, i);
      assert ItemAt(page.cells, items, i);
    } else {
      assert items[..i] == items;
    }
  }

  /** Slots from the used part on may change. */
  lemma HoldsBelow(page: LogPage, cells: seq<Slot>, items: seq<Item>)
    requires PageHolds(page, items, true) && |cells| == PAYLOAD
    requires forall u :: 0 <= u < Used(items) ==> cells[u] == page.cells[u]
    ensures PageHolds(page.(cells := cells), items, true)
  {
    forall i | 0 <= i < |items|
      ensures ItemAt(cells, items, i)
    {
      assert ItemAt(page.cells, items, i);
      ItemFits(items, i);
    }
  }

  /** Writing an entry over the slots at the end of the used part. */
  function WriteItem(cells: seq<Slot>, unit: nat, it: Item, body: seq<Slot>): seq<Slot>
    requires |cells| == PAYLOAD && it.size > 0 && unit + it.size <= PAYLOAD && |body| == it.size - 1
  {
    cells[..unit] + [Ent(it)] + body + cells[unit + it.size..]
  }

  lemma WriteHolds(page: LogPage, items: seq<Item>, it: Item, body: seq<Slot>)
    requires PageHolds(page, items, true) && Sized(it) && Used(items) + it.size <= PAYLOAD && |body| == it.size - 1
    ensures PageHolds(page.(cells := WriteItem(page.cells, Used(items), it, body)), items + [it], true)
  {
    var cells := WriteItem(page.cells, Used(items), it, body);
    HoldsBelow(page, cells, items);
    UsedAppend(items, it);
    var all := items + [it];
    forall i | 0 <= i < |all|
      ensures ItemAt(cells, all, i)
    {
      assert all[..i] == items[..i];
      if i < |items| {
        assert ItemAt(cells, items, i);
      } else {
        assert items[..i] == items;
      }
    }
  }

  /** nova_set_next_page_flag */
  function Flagged(page: LogPage, unit: nat): LogPage
    requires |page.cells| == PAYLOAD
  {
    if unit >= PAYLOAD then page else page.(cells := page.cells[unit := Next])
  }

  lemma FlagHolds(page: LogPage, items: seq<Item>)
    requires PageHolds(page, items, true)
    ensures PageHolds(Flagged(page, Used(items)), items, false)
  {
    var u := Used(items);
    if u < PAYLOAD {
      HoldsBelow(page, page.cells[u := Next], items);
    }
  }

  lemma HoldsFields(page: LogPage, page': LogPage, items: seq<Item>, last: bool)
    requires PageHolds(page, items, last) && page'.cells == page.cells
    ensures PageHolds(page', items, last)
  {
    forall i | 0 <= i < |items|
      ensures ItemAt(page'.cells, items, i)
    {
      assert ItemAt(page.cells, items, i);
    }
  }

  // ----- chains -----

  /** Distinct pages, each linked to the next, the last one to `end`. */
  ghost predicate Linked(pages: map<nat, LogPage>, chain: seq<nat>, end: nat) {
    && (forall k :: 0 <= k < |chain| ==> chain[k] in pages && chain[k] != 0)
    && (forall i, j :: 0 <= i < j < |chain| ==> chain[i] != chain[j])
    && (forall k :: 0 <= k < |chain| ==> LinkedAt(pages, chain, end, k))
  }

  ghost predicate LinkedAt(pages: map<nat, LogPage>, chain: seq<nat>, end: nat, k: nat) {
    k < |chain| && chain[k] in pages && pages[chain[k]].next == if k + 1 < |chain| then chain[k + 1] else end
  }

  ghost predicate StoredAt(pages: map<nat, LogPage>, chain: seq<nat>, contents: seq<seq<Item>>, k: nat) {
    k < |contents| && k < |chain| && chain[k] in pages && PageHolds(pages[chain[k]], contents[k], k + 1 == |contents|)
  }

  /** The first pages of a chain hold these contents, page by page. */
  ghost predicate Stored(pages: map<nat, LogPage>, chain: seq<nat>, contents: seq<seq<Item>>) {
    0 < |contents| <= |chain| && forall k :: 0 <= k < |contents| ==> StoredAt(pages, chain, contents, k)
  }

  /** Every page but the first holds an entry: the reader does not look for a mark on a page it just entered. */
  predicate Filled(contents: seq<seq<Item>>) {
    forall k :: 1 <= k < |contents| ==> contents[k] != []
  }

  function Flatten(contents: seq<seq<Item>>): seq<Item> {
    if contents == [] then [] else Flatten(contents[..|contents| - 1]) + contents[|contents| - 1]
  }

  lemma FlattenStep(contents: seq<seq<Item>>, k: nat)
    requires k < |contents|
    ensures Flatten(contents[..k + 1]) == Flatten(contents[..k]) + contents[k]
  {
    assert contents[..k + 1][..k] == contents[..k];
  }

  lemma {:induction false} FlattenConcat(a: seq<seq<Item>>, b: seq<seq<Item>>)
    ensures Flatten(a + b) == Flatten(a) + Flatten(b)
  {
    if b == [] {
      assert a + b == a;
    } else {
      var init := b[..|b| - 1];
      FlattenConcat(a, init);
      assert (a + b)[..|a + b| - 1] == a + init;
    }
  }

  /** The page an entry of this size goes to. */
  function AppendItem(contents: seq<seq<Item>>, it: Item): (out: seq<seq<Item>>)
    requires contents != []
    ensures out != []
  {
    var n := |contents| - 1;
    if IsLast(Used(contents[n]), it.size) then contents + [[it]] else contents[n := contents[n] + [it]]
  }

  /** Whatever page it lands on, an appended entry comes last. */
  lemma FlattenAppend(contents: seq<seq<Item>>, it: Item)
    requires contents != []
    ensures Flatten(AppendItem(contents, it)) == Flatten(contents) + [it]
  {
    var n := |contents| - 1;
    var out := AppendItem(contents, it);
    if IsLast(Used(contents[n]), it.size) {
      assert out[..|out| - 1] == contents;
    } else {
      assert out[..n] == contents[..n];
    }
  }
}
