/** Chains of log pages under relinking, and the fast collector's account of them. */
module LogChains {
  import opened LogPages

  predicate Apart(a: seq<nat>, b: seq<nat>) {
    forall i, j :: 0 <= i < |a| && 0 <= j < |b| ==> a[i] != b[j]
  }

  lemma LinkedConcat(pages: map<nat, LogPage>, a: seq<nat>, b: seq<nat>, end: nat)
    requires b != [] && Linked(pages, a, b[0]) && Linked(pages, b, end) && Apart(a, b)
    ensures Linked(pages, a + b, end)
  {
    var c := a + b;
    forall k | 0 <= k < |c|
      ensures LinkedAt(pages, c, end, k)
    {
      if k < |a| {
        assert LinkedAt(pages, a, b[0], k);
      } else {
        assert LinkedAt(pages, b, end, k - |a|);
      }
    }
    forall i, j | 0 <= i < j < |c|
      ensures c[i] != c[j]
    {}
  }

  lemma LinkedSplit(pages: map<nat, LogPage>, chain: seq<nat>, end: nat, k: nat)
    requires Linked(pages, chain, end) && k < |chain|
    ensures Linked(pages, chain[..k], chain[k]) && Linked(pages, chain[k..], end) && Apart(chain[..k], chain[k..])
  {
    forall i | 0 <= i < k
      ensures LinkedAt(pages, chain[..k], chain[k], i)
    {
      assert LinkedAt(pages, chain, end, i);
    }
    forall i | 0 <= i < |chain| - k
      ensures LinkedAt(pages, chain[k..], end, i)
    {
      assert LinkedAt(pages, chain, end, k + i);
    }
  }

  /** Changes to pages outside a chain leave it alone. */
  lemma LinkedOutside(a: map<nat, LogPage>, b: map<nat, LogPage>, chain: seq<nat>, end: nat)
    requires Linked(a, chain, end)
    requires forall k :: 0 <= k < |chain| ==> chain[k] in b && b[chain[k]].next == a[chain[k]].next
    ensures Linked(b, chain, end)
  {
    forall k | 0 <= k < |chain|
      ensures LinkedAt(b, chain, end, k)
    {
      assert LinkedAt(a, chain, end, k);
    }
  }

  /** Pointing the last page of a chain elsewhere. */
  lemma LinkedRetarget(pages: map<nat, LogPage>, chain: seq<nat>, end: nat, to: nat)
    requires chain != [] && Linked(pages, chain, end)
    ensures var last := chain[|chain| - 1]; Linked(pages[last := pages[last].(next := to)], chain, to)
  {
    var last := chain[|chain| - 1];
    var out := pages[last := pages[last].(next := to)];
    forall k | 0 <= k < |chain|
      ensures LinkedAt(out, chain, to, k)
    {
      assert LinkedAt(pages, chain, end, k);
      if k + 1 < |chain| {
        assert chain[k] != last;
      }
    }
  }

  lemma LinkedOne(pages: map<nat, LogPage>, chain: seq<nat>, end: nat, k: nat)
    requires Linked(pages, chain, end) && k < |chain|
    ensures Linked(pages, [chain[k]], pages[chain[k]].next)
    ensures pages[chain[k]].next == if k + 1 < |chain| then chain[k + 1] else end
  {
    assert LinkedAt(pages, chain, end, k);
  }

  lemma ChainFacts(pages: map<nat, LogPage>, chain: seq<nat>)
    requires Linked(pages, chain, 0)
    ensures forall k :: 0 <= k < |chain| ==> chain[k] > 0 && chain[k] in pages
  {}

  // ----- page counters -----

  function Deads(items: seq<Item>): nat {
    if items == [] then 0 else Deads(items[..|items| - 1]) + if items[|items| - 1].dead then 1 else 0
  }

  predicate AllDead(items: seq<Item>) {
    forall i :: 0 <= i < |items| ==> items[i].dead
  }

  /** A page counts as invalid exactly when all its entries are. */
  lemma {:induction false} DeadsFull(items: seq<Item>)
    ensures Deads(items) <= |items| && (Deads(items) == |items| <==> AllDead(items))
  {
    if items != [] {
      var n := |items| - 1;
      DeadsFull(items[..n]);
      if AllDead(items[..n]) && items[n].dead {
        assert forall i :: 0 <= i < |items| ==> items[i].dead;
      }
      if AllDead(items) {
        assert forall i :: 0 <= i < n ==> items[..n][i].dead;
      }
    }
  }

  lemma DeadsAppend(items: seq<Item>, it: Item)
    ensures Deads(items + [it]) == Deads(items) + if it.dead then 1 else 0
  {
    assert (items + [it])[..|items|] == items;
  }

  /** The counters in a page's tail match its contents. */
  ghost predicate Counted(pages: map<nat, LogPage>, chain: seq<nat>, contents: seq<seq<Item>>) {
    forall k :: 0 <= k < |chain| ==> CountedAt(pages, chain, contents, k)
  }

  ghost predicate CountedAt(pages: map<nat, LogPage>, chain: seq<nat>, contents: seq<seq<Item>>, k: nat) {
    k < |chain| && chain[k] in pages &&
    var items := if k < |contents| then contents[k] else [];
    pages[chain[k]].num == |items| && pages[chain[k]].invalid == Deads(items)
  }

  // ----- the fast collector -----

  /** The pages kept among the first n. */
  function KeptIds(chain: seq<nat>, contents: seq<seq<Item>>, n: nat): seq<nat>
    requires n <= |chain| && n <= |contents|
  {
    if n == 0 then [] else KeptIds(chain, contents, n - 1) + if AllDead(contents[n - 1]) then [] else [chain[n - 1]]
  }

  function KeptPages(contents: seq<seq<Item>>, n: nat): seq<seq<Item>>
    requires n <= |contents|
  {
    if n == 0 then [] else KeptPages(contents, n - 1) + if AllDead(contents[n - 1]) then [] else [contents[n - 1]]
  }

  function DroppedIds(chain: seq<nat>, contents: seq<seq<Item>>, n: nat): seq<nat>
    requires n <= |chain| && n <= |contents|
  {
    if n == 0 then [] else DroppedIds(chain, contents, n - 1) + if AllDead(contents[n - 1]) then [chain[n - 1]] else []
  }

  function Live(items: seq<Item>): seq<Item> {
    if items == [] then []
    else Live(items[..|items| - 1]) + if items[|items| - 1].dead then [] else [items[|items| - 1]]
  }

  /** The valid entries are those the counters leave over. */
  lemma {:induction false} LiveCount(items: seq<Item>)
    ensures |Live(items)| + Deads(items) == |items|
  {
    if items != [] {
      LiveCount(items[..|items| - 1]);
    }
  }

  lemma {:induction false} LiveAgain(items: seq<Item>)
    ensures Live(Live(items)) == Live(items)
  {
    if items != [] {
      var (init, last) := (items[..|items| - 1], items[|items| - 1]);
      LiveAgain(init);
      LiveConcat(Live(init), if last.dead then [] else [last]);
    }
  }

  lemma {:induction false} LiveConcat(a: seq<Item>, b: seq<Item>)
    ensures Live(a + b) == Live(a) + Live(b)
  {
    if b == [] {
      assert a + b == a;
    } else {
      var init := b[..|b| - 1];
      LiveConcat(a, init);
      assert (a + b)[..|a + b| - 1] == a + init;
    }
  }

  lemma {:induction false} LiveNone(items: seq<Item>)
    requires AllDead(items)
    ensures Live(items) == []
  {
    if items != [] {
      LiveNone(items[..|items| - 1]);
    }
  }

  /** Dropping fully invalid pages loses no valid entry and keeps the order. */
  lemma {:induction false} KeptLive(contents: seq<seq<Item>>, n: nat)
    requires n <= |contents|
    ensures Live(Flatten(KeptPages(contents, n))) == Live(Flatten(contents[..n]))
  {
    hide AllDead, Live;
    if n > 0 {
      var (kept, items) := (KeptPages(contents, n - 1), contents[n - 1]);
      KeptLive(contents, n - 1);
      FlattenStep(contents, n - 1);
      LiveConcat(Flatten(contents[..n - 1]), items);
      if AllDead(items) {
        LiveNone(items);
        assert KeptPages(contents, n) == kept;
      } else {
        assert (kept + [items])[..|kept|] == kept;
        assert KeptPages(contents, n) == kept + [items];
        LiveConcat(Flatten(kept), items);
      }
    } else {
      assert contents[..0] == [];
    }
  }

  predicate Distinct(ids: seq<nat>) {
    forall i, j :: 0 <= i < j < |ids| ==> ids[i] != ids[j]
  }

  /** The dropped pages are the fully invalid ones, each once. */
  lemma {:induction false} DroppedExactly(chain: seq<nat>, contents: seq<seq<Item>>, n: nat)
    requires n <= |chain| && n <= |contents| && Distinct(chain)
    ensures forall x :: x in DroppedIds(chain, contents, n) ==>
              exists k :: 0 <= k < n && chain[k] == x && AllDead(contents[k])
    ensures forall k :: 0 <= k < n && AllDead(contents[k]) ==> chain[k] in DroppedIds(chain, contents, n)
    ensures Distinct(DroppedIds(chain, contents, n))
  {
    hide AllDead;
    if n > 0 {
      DroppedExactly(chain, contents, n - 1);
      var init := DroppedIds(chain, contents, n - 1);
      forall i | 0 <= i < |init|
        ensures init[i] != chain[n - 1]
      {
        assert init[i] in init;
      }
      if AllDead(contents[n - 1]) {
        assert DroppedIds(chain, contents, n) == init + [chain[n - 1]];
      } else {
        assert DroppedIds(chain, contents, n) == init;
      }
    }
  }

  /** The order the code frees them in: the head page comes last. */
  function FreedOrder(chain: seq<nat>, contents: seq<seq<Item>>, n: nat): seq<nat>
    requires n <= |chain| && n <= |contents|
  {
    var ids := DroppedIds(chain, contents, n);
    if n > 0 && AllDead(contents[0]) && ids != [] then ids[1..] + [ids[0]] else ids
  }

  lemma {:induction false} KeptLengths(chain: seq<nat>, contents: seq<seq<Item>>, n: nat)
    requires n <= |chain| && n <= |contents|
    ensures |KeptIds(chain, contents, n)| == |KeptPages(contents, n)|
    ensures |KeptPages(contents, n)| + |DroppedIds(chain, contents, n)| == n
  {
    hide AllDead;
    if n > 0 {
      KeptLengths(chain, contents, n - 1);
    }
  }

  /** A kept page is one of the pages before, with its own contents. */
  lemma {:induction false} KeptFrom(chain: seq<nat>, contents: seq<seq<Item>>, n: nat, i: nat) returns (k: nat)
    requires n <= |chain| && n <= |contents| && i < |KeptIds(chain, contents, n)|
    requires |KeptIds(chain, contents, n)| == |KeptPages(contents, n)|
    ensures k < n && KeptIds(chain, contents, n)[i] == chain[k] && KeptPages(contents, n)[i] == contents[k]
    ensures !AllDead(contents[k])
  {
    hide AllDead;
    KeptLengths(chain, contents, n - 1);
    if i < |KeptIds(chain, contents, n - 1)| {
      k := KeptFrom(chain, contents, n - 1, i);
    } else {
      k := n - 1;
    }
  }

  /** A page with a valid entry is kept, with its contents. */
  lemma {:induction false} KeptAt(chain: seq<nat>, contents: seq<seq<Item>>, n: nat, k: nat) returns (i: nat)
    requires k < n <= |chain| && n <= |contents| && !AllDead(contents[k])
    ensures i < |KeptIds(chain, contents, n)| == |KeptPages(contents, n)|
    ensures KeptIds(chain, contents, n)[i] == chain[k] && KeptPages(contents, n)[i] == contents[k]
  {
    hide AllDead;
    KeptLengths(chain, contents, n);
    KeptLengths(chain, contents, n - 1);
    if k == n - 1 {
      i := |KeptPages(contents, n - 1)|;
    } else {
      i := KeptAt(chain, contents, n - 1, k);
    }
  }

  /** The pages the collector has passed and not unlinked: the head page stays until the end. */
  function Trail(chain: seq<nat>, contents: seq<seq<Item>>, k: nat): seq<nat>
    requires k <= |chain| && k <= |contents|
  {
    (if k > 0 && AllDead(contents[0]) then [chain[0]] else []) + KeptIds(chain, contents, k)
  }

  lemma TrailStep(chain: seq<nat>, contents: seq<seq<Item>>, k: nat)
    requires k < |chain| && k < |contents|
    ensures Trail(chain, contents, k + 1) ==
              if k > 0 && AllDead(contents[k]) then Trail(chain, contents, k)
              else Trail(chain, contents, k) + [chain[k]]
  {
    hide AllDead;
    if k == 0 {
      assert KeptIds(chain, contents, 0) == [];
    }
  }

  lemma {:induction false} KeptEarlier(chain: seq<nat>, contents: seq<seq<Item>>, k: nat, i: nat)
    requires k <= |chain| && k <= |contents| && i < |KeptIds(chain, contents, k)|
    ensures exists j :: 0 <= j < k && chain[j] == KeptIds(chain, contents, k)[i]
  {
    hide AllDead;
    if i < |KeptIds(chain, contents, k - 1)| {
      KeptEarlier(chain, contents, k - 1, i);
      var j :| 0 <= j < k - 1 && chain[j] == KeptIds(chain, contents, k - 1)[i];
      assert chain[j] == KeptIds(chain, contents, k)[i];
    } else {
      assert chain[k - 1] == KeptIds(chain, contents, k)[i];
    }
  }

  lemma TrailApart(chain: seq<nat>, contents: seq<seq<Item>>, k: nat)
    requires k <= |chain| && k <= |contents| && Distinct(chain)
    ensures Apart(Trail(chain, contents, k), chain[k..])
  {
    hide AllDead, KeptIds;
    var t := Trail(chain, contents, k);
    var kept := KeptIds(chain, contents, k);
    forall i, j | 0 <= i < |t| && 0 <= j < |chain| - k
      ensures t[i] != chain[k..][j]
    {
      var d := |t| - |kept|;
      if i >= d {
        KeptEarlier(chain, contents, k, i - d);
        var e :| 0 <= e < k && chain[e] == kept[i - d];
        assert t[i] == chain[e];
      }
    }
  }

  /** Kept pages follow each other in the trail after the head page. */
  lemma LinkedTrail(pages: map<nat, LogPage>, chain: seq<nat>, contents: seq<seq<Item>>, k: nat, end: nat)
    requires k <= |chain| && k <= |contents| && Linked(pages, Trail(chain, contents, k), end)
    ensures Linked(pages, KeptIds(chain, contents, k), end)
  {
    hide AllDead, KeptIds;
    var (t, kept) := (Trail(chain, contents, k), KeptIds(chain, contents, k));
    var d := |t| - |kept|;
    if kept != [] {
      LinkedSplit(pages, t, end, d);
      assert t[d..] == kept;
    }
  }

  /** The pages differ only in their links. */
  ghost predicate SameButLinks(a: map<nat, LogPage>, b: map<nat, LogPage>) {
    a.Keys == b.Keys && forall p :: p in a ==> b[p].(next := a[p].next) == a[p]
  }
}
