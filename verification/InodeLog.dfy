/** Reading an inode log: the walk over its linked pages from head to tail (nova.h). */
module InodeLog {
  import opened LogPages

  /** From head to tail a reader meets these pages with these contents. */
  ghost predicate Shows(pages: map<nat, LogPage>, head: nat, tailPage: nat, tailUnit: nat, chain: seq<nat>,
                        contents: seq<seq<Item>>) {
    && |chain| == |contents| > 0
    && head == chain[0] && tailPage == chain[|chain| - 1] && tailPage in pages
    && Linked(pages, chain, pages[tailPage].next)
    && Stored(pages, chain, contents) && Filled(contents)
    && tailUnit == Used(contents[|contents| - 1])
  }

  /** The walk every reader of a log performs: it visits exactly the entries before the tail, in order,
      whatever the unwritten slots hold. */
  method Walk(pages: map<nat, LogPage>, head: nat, tailPage: nat, tailUnit: nat, ghost chain: seq<nat>,
              ghost contents: seq<seq<Item>>)
    returns (out: seq<Item>)
    requires Shows(pages, head, tailPage, tailUnit, chain, contents)
    ensures out == Flatten(contents)
  {
    hide Flatten, Used, PageHolds;
    out := [];
    var page, unit := head, 0;
    ghost var k: nat, i: nat := 0, 0;
    WalkStart(contents);
    while !(page == tailPage && unit == tailUnit)
      invariant k < |chain| && i <= |contents[k]| && page == chain[k] && unit == Used(contents[k][..i])
      invariant out == Flatten(contents[..k]) + contents[k][..i]
      decreases |chain| - k, |contents[k]| - i
    {
      assert StoredAt(pages, chain, contents, k) && LinkedAt(pages, chain, pages[tailPage].next, k);
      HoldsCells(pages[page], contents[k], k + 1 == |contents|);
      ReaderMoves(pages[page], contents[k], k + 1 == |contents|, i);
      EndOnly(contents, k, i);
      if GotoNext(pages[page], unit) {
        assert contents[k][..i] == contents[k];
        FlattenStep(contents, k);
        page, unit, k, i := pages[page].next, 0, k + 1, 0;
        UsedNone(contents[k]);
        assert StoredAt(pages, chain, contents, k);
        HoldsCells(pages[page], contents[k], k + 1 == |contents|);
        ReaderMoves(pages[page], contents[k], k + 1 == |contents|, 0);
      }
      var it := pages[page].cells[unit].item;
      UsedStep(contents[k], i);
      out, unit, i := out + [it], unit + it.size, i + 1;
    }
    WalkEnd(pages, chain, contents, k, i);
    FlattenStep(contents, k);
  }

  lemma WalkStart(contents: seq<seq<Item>>)
    requires contents != []
    ensures Flatten(contents[..0]) == [] && Used(contents[0][..0]) == 0
  {}

  lemma UsedNone(items: seq<Item>)
    ensures Used(items[..0]) == 0
  {}

  lemma HoldsCells(page: LogPage, items: seq<Item>, last: bool)
    requires PageHolds(page, items, last)
    ensures |page.cells| == PAYLOAD && Used(items) <= PAYLOAD
    ensures forall i :: 0 <= i < |items| ==> Sized(items[i])
  {
    forall i | 0 <= i < |items|
      ensures Sized(items[i])
    {
      assert ItemAt(page.cells, items, i);
    }
  }

  /** On the last page the used part ends where the items do, and nowhere earlier. */
  lemma EndOnly(contents: seq<seq<Item>>, k: nat, i: nat)
    requires k < |contents| && i <= |contents[k]| && forall j :: 0 <= j < |contents[k]| ==> Sized(contents[k][j])
    ensures Used(contents[k][..i]) == Used(contents[k]) <==> i == |contents[k]|
  {
    if i < |contents[k]| {
      ItemFits(contents[k], i);
    } else {
      assert contents[k][..i] == contents[k];
    }
  }

  lemma WalkEnd(pages: map<nat, LogPage>, chain: seq<nat>, contents: seq<seq<Item>>, k: nat, i: nat)
    requires |chain| == |contents| && k < |chain| && i <= |contents[k]| && Stored(pages, chain, contents)
    requires forall a, b :: 0 <= a < b < |chain| ==> chain[a] != chain[b]
    requires chain[k] == chain[|chain| - 1] && Used(contents[k][..i]) == Used(contents[|chain| - 1])
    ensures k + 1 == |contents| && contents[k][..i] == contents[k] && contents[..k + 1] == contents
  {
    assert StoredAt(pages, chain, contents, k);
    HoldsCells(pages[chain[k]], contents[k], k + 1 == |contents|);
    EndOnly(contents, k, i);
  }
}
