/** The thorough collector's estimate (gc.c) counts entries and not their sizes. Two logs that appending builds, on
    which it is too high and too low. */
module LogEstimate {
  import opened LogPages
  import opened LogChains
  import opened LogGc
  import opened LogAppend

  /** A page is left when the next entry does not fit on it, and only then: what appending to a new log builds. */
  predicate Built(contents: seq<seq<Item>>) {
    && contents != []
    && (forall k :: 0 <= k < |contents| ==> Used(contents[k]) <= PAYLOAD)
    && (forall k :: 0 <= k < |contents| - 1 ==> Leaves(contents, k))
  }

  predicate Leaves(contents: seq<seq<Item>>, k: nat) {
    k + 1 < |contents| && contents[k + 1] != [] && IsLast(Used(contents[k]), contents[k + 1][0].size)
  }

  lemma {:induction false} PackedFill(items: seq<Item>, pages: seq<seq<Item>>, page: seq<Item>, more: seq<Item>)
    requires Packed(items) == pages + [page] && Used(page + more) <= PAYLOAD
    ensures Packed(items + more) == pages + [page + more]
    decreases |more|
  {
    hide Packed, Used;
    if more == [] {
      assert items + more == items && page + more == page;
    } else {
      var n := |more| - 1;
      var it := more[n];
      assert page + more == (page + more[..n]) + [it] && items + more == (items + more[..n]) + [it];
      UsedAppend(page + more[..n], it);
      PackedFill(items, pages, page, more[..n]);
      PackedMore(items + more[..n], it);
    }
  }

  /** Such a log is the packing of its own entries. */
  lemma {:induction false} BuiltIsPacked(contents: seq<seq<Item>>)
    requires Built(contents)
    ensures Packed(Flatten(contents)) == contents
    decreases |contents|
  {
    hide Packed, Flatten, Used;
    var n := |contents| - 1;
    var (init, page) := (contents[..n], contents[n]);
    FlattenStep(contents, n);
    assert contents[..n + 1] == contents;
    if n == 0 {
      CopyStart([[]]);
      assert [] + page == page && [] + [page] == contents;
      NoneLive();
      assert Packed([]) == [] + [[]];
      PackedFill([], [], [], page);
    } else {
      assert forall k :: 0 <= k < n - 1 ==> Leaves(contents, k) && Leaves(init, k);
      assert Leaves(contents, n - 1);
      BuiltIsPacked(init);
      PackedMore(Flatten(init), page[0]);
      assert [page[0]] + page[1..] == page;
      PackedFill(Flatten(init) + [page[0]], init, [page[0]], page[1..]);
      assert Flatten(init) + [page[0]] + page[1..] == Flatten(init) + page;
    }
  }

  // ----- repeated entries and pages -----

  function Same(n: nat, it: Item): (s: seq<Item>)
    ensures |s| == n && forall i :: 0 <= i < n ==> s[i] == it
  {
    seq(n, _ => it)
  }

  lemma SameMore(n: nat, it: Item)
    ensures Same(n + 1, it) == Same(n, it) + [it]
  {}

  lemma {:induction false} UsedSame(items: seq<Item>, n: nat, it: Item)
    ensures Used(items + Same(n, it)) == Used(items) + n * it.size
  {
    hide Used;
    if n == 0 {
      assert items + Same(0, it) == items;
    } else {
      UsedSame(items, n - 1, it);
      SameMore(n - 1, it);
      assert items + Same(n, it) == items + Same(n - 1, it) + [it];
      UsedAppend(items + Same(n - 1, it), it);
    }
  }

  lemma {:induction false} LiveSame(n: nat, it: Item)
    ensures Live(Same(n, it)) == if it.dead then [] else Same(n, it)
  {
    hide Live;
    if n == 0 {
      NoneLive();
      assert Same(0, it) == [];
    } else {
      LiveSame(n - 1, it);
      SameMore(n - 1, it);
      LiveOne(it);
      LiveConcat(Same(n - 1, it), [it]);
    }
  }

  lemma LiveOne(it: Item)
    ensures Live([it]) == if it.dead then [] else [it]
  {
    assert [it][..0] == [];
  }

  function Repeat(a: seq<Item>, b: seq<Item>, m: nat): (s: seq<seq<Item>>)
    ensures |s| == m + 1 && s[0] == a && forall k :: 1 <= k < |s| ==> s[k] == b
  {
    [a] + seq(m, _ => b)
  }

  /** The valid entries of a page and of m copies of another one that holds a single valid entry. */
  lemma {:induction false} RepeatLive(a: seq<Item>, b: seq<Item>, live: Item, p: nat, m: nat)
    requires Live(a) == Same(p, live) && Live(b) == [live]
    ensures Live(Flatten(Repeat(a, b, m))) == Same(p + m, live)
    ensures |Flatten(Repeat(a, b, m))| == |a| + m * |b|
  {
    hide Live, Flatten;
    if m == 0 {
      assert Repeat(a, b, 0) == [a];
      FlattenOne(a);
    } else {
      RepeatLive(a, b, live, p, m - 1);
      assert Repeat(a, b, m) == Repeat(a, b, m - 1) + [b];
      FlattenConcat(Repeat(a, b, m - 1), [b]);
      FlattenOne(b);
      LiveConcat(Flatten(Repeat(a, b, m - 1)), b);
      SameMore(p + m - 1, live);
    }
  }

  lemma RepeatCounts(a: seq<Item>, b: seq<Item>, live: Item, p: nat, m: nat, total: nat)
    requires Live(a) == Same(p, live) && Live(b) == [live] && total == |a| + m * |b|
    ensures Live(Flatten(Repeat(a, b, m))) == Same(p + m, live) && |Flatten(Repeat(a, b, m))| == total
  {
    hide Live, Flatten;
    RepeatLive(a, b, live, p, m);
  }

  lemma {:induction false} KeptAll(contents: seq<seq<Item>>, n: nat)
    requires n <= |contents| && forall k :: 0 <= k < n ==> Live(contents[k]) != []
    ensures KeptPages(contents, n) == contents[..n]
  {
    hide Live;
    if n > 0 {
      KeptAll(contents, n - 1);
      if AllDead(contents[n - 1]) {
        LiveNone(contents[n - 1]);
      }
    }
  }

  /** Two pages of one entry, the first one full. */
  lemma TwoPacked(live: Item, p: nat, q: nat)
    requires p * live.size <= PAYLOAD < (p + 1) * live.size && 0 < q <= p
    ensures |Packed(Same(p + q, live))| == 2
  {
    hide Packed, Flatten, Used;
    var pages := [Same(p, live), Same(q, live)];
    assert [] + Same(p, live) == Same(p, live) && [] + Same(q, live) == Same(q, live);
    UsedNothing();
    UsedSame([], p, live);
    UsedSame([], q, live);
    SizeMono(q, p, live.size);
    assert Leaves(pages, 0);
    BuiltIsPacked(pages);
    FlattenStep(pages, 1);
    assert pages[..2] == pages && pages[..1] == [Same(p, live)];
    FlattenOne(Same(p, live));
    assert Same(p, live) + Same(q, live) == Same(p + q, live);
  }

  lemma UsedNothing()
    ensures Used([]) == 0
  {}

  lemma SizeMono(a: nat, b: nat, size: nat)
    requires a <= b
    ensures a * size <= b * size
  {}

  // ----- the two logs -----

  /** A full page, m pages of one kind, and the tail page. */
  function Tailed(a: seq<Item>, b: seq<Item>, m: nat, tail: Item): (s: seq<seq<Item>>)
    ensures |s| == m + 2 && s[..m + 1] == Repeat(a, b, m) && s[m + 1] == [tail]
  {
    Repeat(a, b, m) + [[tail]]
  }

  lemma TailedBuilt(a: seq<Item>, b: seq<Item>, m: nat, tail: Item)
    requires Used(a) <= PAYLOAD && Used(b) <= PAYLOAD && tail.size <= PAYLOAD && b != [] && b[0].size == tail.size
    requires IsLast(Used(a), tail.size) && IsLast(Used(b), tail.size)
    ensures Built(Tailed(a, b, m, tail))
  {
    hide Used;
    var contents := Tailed(a, b, m, tail);
    UsedOne(tail);
    forall k | 0 <= k < |contents| - 1
      ensures Leaves(contents, k)
    {}
  }

  lemma TailedCompacts(a: seq<Item>, b: seq<Item>, live: Item, p: nat, m: nat, tail: Item, total: nat,
                       granted: nat)
    requires Live(a) == Same(p, live) && Live(b) == [live] && p > 0 && total == |a| + m * |b| && total > 0
    requires granted == Estimate(p + m, m + 1, total) && granted * 2 < m + 1
    ensures var contents := Tailed(a, b, m, tail);
            Compacts(contents, m + 1, false, granted) && Needed(contents, m + 1) == |Packed(Same(p + m, live))|
  {
    hide Live, Flatten, KeptPages, Packed, Estimate;
    var contents := Tailed(a, b, m, tail);
    RepeatCounts(a, b, live, p, m, total);
    forall k | 0 <= k < m + 1
      ensures Live(contents[k]) != []
    {
      assert contents[k] == contents[..m + 1][k];
    }
    KeptAll(contents, m + 1);
  }

  /** A hundred small valid entries, then pages of large invalid ones with a small valid one at the end: an ordinary
      append asks for six pages where two are enough, and `log_pages` stays four too high. */
  lemma EstimateTooHigh(live: Item, dead: Item)
    requires live.size == 5 && !live.dead && dead.size == 38 && dead.dead
    ensures var contents := Tailed(Same(100, live), Same(13, dead) + [live], 12, dead);
            Built(contents) && Compacts(contents, 13, false, 6) && Needed(contents, 13) == 2
  {
    hide Live, Used, Packed;
    var (a, b) := (Same(100, live), Same(13, dead) + [live]);
    UsedNothing();
    assert [] + a == a && [] + Same(13, dead) == Same(13, dead);
    UsedSame([], 100, live);
    UsedSame([], 13, dead);
    UsedAppend(Same(13, dead), live);
    TailedBuilt(a, b, 12, dead);
    LiveSame(100, live);
    LiveSame(13, dead);
    LiveOne(live);
    LiveConcat(Same(13, dead), [live]);
    TailedCompacts(a, b, live, 100, 12, dead, 268, 6);
    TwoPacked(live, 101, 11);
  }

  /** A page of large valid entries, then pages of small invalid ones behind a large valid one: an ordinary append
      asks for one page where two are needed. If the second is then refused, the copy faults. */
  lemma EstimateTooLow(live: Item, dead: Item)
    requires live.size == 38 && !live.dead && dead.size == 5 && dead.dead
    ensures var contents := Tailed(Same(13, live), [live] + Same(90, dead), 2, live);
            && Built(contents) && Compacts(contents, 3, false, 1) && Needed(contents, 3) == 2
            && Outcome(contents, 3, false, 1, 0, true, false)
  {
    hide Live, Used, Packed;
    var (a, b) := (Same(13, live), [live] + Same(90, dead));
    UsedNothing();
    assert [] + a == a;
    UsedSame([], 13, live);
    UsedOne(live);
    UsedSame([live], 90, dead);
    TailedBuilt(a, b, 2, live);
    LiveSame(13, live);
    LiveSame(90, dead);
    LiveOne(live);
    LiveConcat([live], Same(90, dead));
    TailedCompacts(a, b, live, 13, 2, live, 195, 1);
    TwoPacked(live, 13, 2);
  }
}
