/** Over every run of supersede, snapshot create, snapshot delete and cleaner passes: no extent a live
    snapshot sees is freed, every extent is freed at most once and none is lost. */
module SnapshotTheorems {
  import opened Options
  import opened Snapshot

  // ----- what lists hold back -----

  lemma {:induction false} PendConcat(a: seq<Page>, b: seq<Page>)
    ensures Pend(a + b) == Pend(a) + Pend(b)
  {
    hide PendRecs;
    if b == [] {
      assert a + b == a;
    } else {
      var init := b[..|b| - 1];
      PendConcat(a, init);
      assert (a + b)[..|a + b| - 1] == a + init;
      assert Pend(a + b) == Pend(a + init) + PendRecs(Last(b).recs);
      assert Pend(b) == Pend(init) + PendRecs(Last(b).recs);
    }
  }

  lemma {:induction false} PendAllConcat(a: seq<Info>, b: seq<Info>)
    ensures PendAll(a + b) == PendAll(a) + PendAll(b)
  {
    hide PendLists;
    if b == [] {
      assert a + b == a;
    } else {
      var init := b[..|b| - 1];
      PendAllConcat(a, init);
      assert (a + b)[..|a + b| - 1] == a + init;
      assert PendAll(a + b) == PendAll(a + init) + PendLists(Last(b).lists);
      assert PendAll(b) == PendAll(init) + PendLists(Last(b).lists);
    }
  }

  lemma PendAllOne(info: Info)
    ensures PendAll([info]) == PendLists(info.lists)
  {
    assert [info][..0] == [];
    assert PendAll([]) == multiset{};
  }

  lemma PendAllSplit(infos: seq<Info>, k: nat)
    requires k < |infos|
    ensures PendAll(infos) == PendAll(infos[..k]) + PendLists(infos[k].lists) + PendAll(infos[k + 1..])
  {
    hide PendAll, PendLists;
    PendAllConcat(infos[..k], [infos[k]]);
    PendAllConcat(infos[..k] + [infos[k]], infos[k + 1..]);
    PendAllOne(infos[k]);
    assert infos == infos[..k] + [infos[k]] + infos[k + 1..];
  }

  lemma PendAllUpdate(infos: seq<Info>, k: nat, info: Info)
    requires k < |infos|
    ensures PendAll(infos[k := info]) + PendLists(infos[k].lists) == PendAll(infos) + PendLists(info.lists)
  {
    PendAllSplit(infos, k);
    PendAllSplit(infos[k := info], k);
    assert infos[k := info][..k] == infos[..k] && infos[k := info][k + 1..] == infos[k + 1..];
  }

  lemma {:induction false} PendListsUpdate(lists: seq<seq<Page>>, c: nat, list: seq<Page>)
    requires c < |lists|
    ensures PendLists(lists[c := list]) + Pend(lists[c]) == PendLists(lists) + Pend(list)
  {
    hide Pend;
    var n := |lists| - 1;
    var out := lists[c := list];
    assert PendLists(out) == PendLists(out[..n]) + Pend(out[n]);
    assert PendLists(lists) == PendLists(lists[..n]) + Pend(lists[n]);
    if c < n {
      PendListsUpdate(lists[..n], c, list);
      assert out[..n] == lists[..n][c := list] && lists[..n][c] == lists[c];
      assert PendLists(out) + Pend(lists[c]) == (PendLists(out[..n]) + Pend(lists[c])) + Pend(lists[n]);
      assert PendLists(lists) + Pend(list) == (PendLists(lists[..n]) + Pend(list)) + Pend(lists[n]);
    } else {
      assert out[..n] == lists[..n];
    }
  }

  lemma {:induction false} PendListsLink(prev: seq<seq<Page>>, next: seq<seq<Page>>)
    requires |prev| == |next|
    ensures PendLists(LinkLists(prev, next)) == PendLists(prev) + PendLists(next)
  {
    if prev != [] {
      var n := |prev| - 1;
      PendListsLink(prev[..n], next[..n]);
      PendConcat(prev[n], next[n]);
      assert LinkLists(prev, next)[..n] == LinkLists(prev[..n], next[..n]);
    }
  }

  lemma {:induction false} PendListsEmpty(lists: seq<seq<Page>>, epoch: nat)
    requires forall c :: 0 <= c < |lists| ==> lists[c] == [Page(epoch, [])]
    ensures PendLists(lists) == multiset{}
  {
    if lists != [] {
      PendListsEmpty(lists[..|lists| - 1], epoch);
      assert [Page(epoch, [])][..0] == [];
      assert Pend([Page(epoch, [])][..0]) == multiset{};
    }
  }

  lemma PendAppend(list: seq<Page>, epoch: nat, r: Rec)
    requires list != [] && !r.deleted
    ensures Pend(AppendRec(list, epoch, r)) == Pend(list) + multiset{r.id}
  {
    var n := |list| - 1;
    if |Last(list).recs| >= RECORDS_PER_PAGE {
      assert (list + [Page(epoch, [r])])[..|list|] == list;
      assert [r][..0] == [];
      assert PendRecs([r]) == PendRecs([r][..0]) + multiset{r.id};
    } else {
      var recs := Last(list).recs + [r];
      assert recs[..|recs| - 1] == Last(list).recs;
      assert AppendRec(list, epoch, r)[..n] == list[..n];
    }
  }

  lemma {:induction false} PendCleanRecs(recs: seq<Rec>, epoch: nat, id: nat)
    ensures PendRecs(CleanRecs(recs, epoch))[id] <= PendRecs(recs)[id]
    ensures PendRecs(CleanRecs(recs, epoch))[id] < PendRecs(recs)[id] ==>
              exists y :: 0 <= y < |recs| && recs[y].id == id && recs[y].del <= epoch
  {
    if recs != [] {
      var n := |recs| - 1;
      PendCleanRecs(recs[..n], epoch, id);
      assert CleanRecs(recs, epoch)[..n] == CleanRecs(recs[..n], epoch);
      assert Last(CleanRecs(recs, epoch)) == CleanRec(recs[n], epoch);
    }
  }

  ghost predicate ExpiredAt(list: seq<Page>, epoch: nat, id: nat, x: nat, y: nat) {
    x < |list| && y < |list[x].recs| && list[x].recs[y].id == id && list[x].recs[y].del <= epoch
  }

  ghost predicate LiveAt(list: seq<Page>, id: nat, x: nat, y: nat) {
    x < |list| && y < |list[x].recs| && list[x].recs[y].id == id && !list[x].recs[y].deleted
  }

  lemma CleanPagesLast(list: seq<Page>, epoch: nat)
    requires list != []
    ensures var n := |list| - 1;
            && CleanPages(list, epoch)[..n] == CleanPages(list[..n], epoch)
            && Last(CleanPages(list, epoch)) == CleanPage(list[n], epoch)
  {}

  /** Cleaning never adds to what a list holds back, and what it takes away has expired. */
  lemma {:induction false} PendClean(list: seq<Page>, epoch: nat, id: nat)
    ensures Pend(CleanPages(list, epoch))[id] <= Pend(list)[id]
    ensures Pend(CleanPages(list, epoch))[id] < Pend(list)[id] ==>
              exists x: nat, y: nat :: ExpiredAt(list, epoch, id, x, y)
  {
    hide CleanPages, PendRecs, CleanRecs;
    if list != [] {
      var n := |list| - 1;
      PendClean(list[..n], epoch, id);
      PendCleanRecs(list[n].recs, epoch, id);
      CleanPagesLast(list, epoch);
      if Pend(CleanPages(list[..n], epoch))[id] < Pend(list[..n])[id] {
        var x: nat, y: nat :| ExpiredAt(list[..n], epoch, id, x, y);
        assert ExpiredAt(list, epoch, id, x, y);
      } else if Pend(CleanPages(list, epoch))[id] < Pend(list)[id] {
        var y :| 0 <= y < |list[n].recs| && list[n].recs[y].id == id && list[n].recs[y].del <= epoch;
        assert ExpiredAt(list, epoch, id, n, y);
      }
    }
  }

  /** The same over the lists of all CPUs. */
  lemma {:induction false} PendListsClean(lists: seq<seq<Page>>, epoch: nat, id: nat)
    ensures PendLists(CleanLists(lists, epoch))[id] <= PendLists(lists)[id]
    ensures PendLists(CleanLists(lists, epoch))[id] < PendLists(lists)[id] ==>
              exists c: nat, x: nat, y: nat :: c < |lists| && ExpiredAt(lists[c], epoch, id, x, y)
  {
    hide CleanPages, Pend;
    if lists != [] {
      var n := |lists| - 1;
      PendListsClean(lists[..n], epoch, id);
      PendClean(lists[n], epoch, id);
      assert CleanLists(lists, epoch)[..n] == CleanLists(lists[..n], epoch);
      if PendLists(CleanLists(lists[..n], epoch))[id] < PendLists(lists[..n])[id] {
        var c: nat, x: nat, y: nat :| c < n && ExpiredAt(lists[..n][c], epoch, id, x, y);
        assert ExpiredAt(lists[c], epoch, id, x, y);
      }
    }
  }

  lemma {:induction false} PendRecsHas(recs: seq<Rec>, id: nat)
    requires PendRecs(recs)[id] > 0
    ensures exists y :: 0 <= y < |recs| && recs[y].id == id && !recs[y].deleted
  {
    var n := |recs| - 1;
    if !(recs[n].id == id && !recs[n].deleted) {
      PendRecsHas(recs[..n], id);
      var y :| 0 <= y < |recs[..n]| && recs[..n][y].id == id && !recs[..n][y].deleted;
      assert recs[y].id == id && !recs[y].deleted;
    }
  }

  /** An extent a list holds back has a live record on one of its pages. */
  lemma {:induction false} PendHas(list: seq<Page>, id: nat)
    requires Pend(list)[id] > 0
    ensures exists x: nat, y: nat :: LiveAt(list, id, x, y)
  {
    var n := |list| - 1;
    if PendRecs(list[n].recs)[id] > 0 {
      PendRecsHas(list[n].recs, id);
      var y :| 0 <= y < |list[n].recs| && list[n].recs[y].id == id && !list[n].recs[y].deleted;
      assert LiveAt(list, id, n, y);
    } else {
      PendHas(list[..n], id);
      var x: nat, y: nat :| LiveAt(list[..n], id, x, y);
      assert LiveAt(list, id, x, y);
    }
  }

  lemma {:induction false} PendListsHas(lists: seq<seq<Page>>, id: nat) returns (c: nat, x: nat, y: nat)
    requires PendLists(lists)[id] > 0
    ensures c < |lists| && LiveAt(lists[c], id, x, y)
  {
    var n := |lists| - 1;
    if Pend(lists[n])[id] > 0 {
      PendHas(lists[n], id);
      c := n;
      x, y :| LiveAt(lists[n], id, x, y);
    } else {
      c, x, y := PendListsHas(lists[..n], id);
    }
  }

  lemma {:induction false} PendAllHas(infos: seq<Info>, id: nat) returns (k: nat, c: nat, x: nat, y: nat)
    requires PendAll(infos)[id] > 0
    ensures k < |infos| && c < |infos[k].lists| && LiveAt(infos[k].lists[c], id, x, y)
  {
    k := |infos| - 1;
    if PendLists(infos[k].lists)[id] > 0 {
      c, x, y := PendListsHas(infos[k].lists, id);
    } else {
      k, c, x, y := PendAllHas(infos[..k], id);
    }
  }

  // ----- supersede -----

  lemma SupersedeInv(m: Mgr, create: nat, cpu: nat)
    requires Inv(m) && cpu < m.cpus && create <= m.epoch
    ensures Inv(Supersede(m, create, cpu))
  {
    hide PendAll, GoodPages, AppendRec, Visible, FindFrom, Ids;
    var e := Extent(create, m.epoch);
    var m' := Supersede(m, create, cpu);
    KeeperExact(m.infos, e);
    SupersedeLists(m, create, cpu);
    SupersedeConserves(m, create, cpu);
    forall i | i in m'.freed
      ensures i < |m'.extents| && !Visible(m'.infos, m'.extents[i])
    {
      SameEpochs(m.infos, m'.infos, m'.extents[i]);
    }
  }

  lemma SameEpochs(a: seq<Info>, b: seq<Info>, e: Extent)
    requires |a| == |b| && forall k :: 0 <= k < |a| ==> a[k].epoch == b[k].epoch
    ensures Visible(a, e) <==> Visible(b, e)
  {
    if Visible(a, e) {
      var k :| 0 <= k < |a| && Sees(a[k].epoch, e);
      assert Sees(b[k].epoch, e);
    }
    if Visible(b, e) {
      var k :| 0 <= k < |b| && Sees(b[k].epoch, e);
      assert Sees(a[k].epoch, e);
    }
  }

  lemma Cancel(a: multiset<nat>, b: multiset<nat>, c: multiset<nat>, d: multiset<nat>)
    requires a + b == c + (b + d)
    ensures a == c + d
  {
    forall i
      ensures a[i] == (c + d)[i]
    {
      assert (a + b)[i] == (c + (b + d))[i];
    }
  }

  lemma CancelDown(a: multiset<nat>, b: multiset<nat>, c: multiset<nat>, d: multiset<nat>)
    requires a + b == c + d && d <= b
    ensures (b - d) + a == c
  {
    forall i
      ensures ((b - d) + a)[i] == c[i]
    {
      assert (a + b)[i] == (c + d)[i];
    }
  }

  lemma SupersedeConserves(m: Mgr, create: nat, cpu: nat)
    requires Shape(m) && m.freed + PendAll(m.infos) == Ids(|m.extents|) && cpu < m.cpus
    ensures var m' := Supersede(m, create, cpu); m'.freed + PendAll(m'.infos) == Ids(|m'.extents|)
  {
    hide PendAll, PendLists, Pend, AppendRec, FindFrom;
    var (id, m') := (|m.extents|, Supersede(m, create, cpu));
    assert Ids(id + 1) == Ids(id) + multiset{id};
    match Keeper(m.infos, Extent(create, m.epoch))
    case None =>
    case Some(k) =>
      var lists := m.infos[k].lists;
      var list := AppendRec(lists[cpu], m.infos[k].epoch, Rec(id, m.epoch, false));
      PendAllUpdate(m.infos, k, m'.infos[k]);
      PendListsUpdate(lists, cpu, list);
      PendAppend(lists[cpu], m.infos[k].epoch, Rec(id, m.epoch, false));
      Cancel(PendLists(m'.infos[k].lists), Pend(lists[cpu]), PendLists(lists), multiset{id});
      Cancel(PendAll(m'.infos), PendLists(lists), PendAll(m.infos), multiset{id});
  }

  lemma SupersedeLists(m: Mgr, create: nat, cpu: nat)
    requires Inv(m) && cpu < m.cpus && create <= m.epoch
    ensures var m' := Supersede(m, create, cpu);
            && Shape(m') && |m'.infos| == |m.infos|
            && (forall k :: 0 <= k < |m.infos| ==> m'.infos[k].epoch == m.infos[k].epoch)
            && (forall k, c :: 0 <= k < |m'.infos| && 0 <= c < m'.cpus ==>
                GoodPages(m'.infos, m'.extents, k, m'.infos[k].lists[c]))
  {
    hide PendAll, Visible, FindFrom;
    var (e, id, m') := (Extent(create, m.epoch), |m.extents|, Supersede(m, create, cpu));
    KeeperExact(m.infos, e);
    forall k, c | 0 <= k < |m'.infos| && 0 <= c < m'.cpus
      ensures GoodPages(m'.infos, m'.extents, k, m'.infos[k].lists[c])
    {
      assert GoodPages(m.infos, m.extents, k, m.infos[k].lists[c]);
      GoodPagesGrow(m.infos, m'.infos, m.extents, e, k, m.infos[k].lists[c]);
      if Keeper(m.infos, e) == Some(k) && c == cpu {
        GoodPagesAppend(m'.infos, m'.extents, k, m.infos[k].lists[c], m.infos[k].epoch, Rec(id, m.epoch, false));
      }
    }
  }

  lemma GoodPagesGrow(a: seq<Info>, b: seq<Info>, extents: seq<Extent>, e: Extent, k: nat, list: seq<Page>)
    requires |a| == |b| && (forall i :: 0 <= i < |a| ==> a[i].epoch == b[i].epoch) && k < |a|
    requires GoodPages(a, extents, k, list)
    ensures GoodPages(b, extents + [e], k, list)
  {
    forall x, y | 0 <= x < |list| && 0 <= y < |list[x].recs|
      ensures GoodRec(b, extents + [e], k, list[x], list[x].recs[y])
    {
      assert GoodRec(a, extents, k, list[x], list[x].recs[y]);
    }
  }

  lemma GoodPagesAppend(infos: seq<Info>, extents: seq<Extent>, k: nat, list: seq<Page>, epoch: nat, r: Rec)
    requires k < |infos| && list != [] && GoodPages(infos, extents, k, list)
    requires GoodRec(infos, extents, k, Page(epoch, []), r) && Last(list).epoch == epoch
    ensures GoodPages(infos, extents, k, AppendRec(list, epoch, r))
  {
    var out := AppendRec(list, epoch, r);
    forall x, y | 0 <= x < |out| && 0 <= y < |out[x].recs|
      ensures GoodRec(infos, extents, k, out[x], out[x].recs[y])
    {
      if x < |list| && y < |list[x].recs| {
        assert GoodRec(infos, extents, k, list[x], list[x].recs[y]);
      }
    }
  }

  // ----- create -----

  lemma CreateInv(m: Mgr)
    requires Inv(m)
    ensures Inv(Create(m))
  {
    hide PendAll, GoodPages, Visible, Ids;
    var m' := Create(m);
    var n := |m.infos|;
    forall k, c | 0 <= k < |m'.infos| && 0 <= c < m'.cpus
      ensures GoodPages(m'.infos, m'.extents, k, m'.infos[k].lists[c])
    {
      if k < n {
        assert GoodPages(m.infos, m.extents, k, m.infos[k].lists[c]);
        GoodPagesPrefix(m.infos, m'.infos, m.extents, k, m.infos[k].lists[c]);
      } else {
        GoodPagesEmpty(m'.infos, m'.extents, k, m.epoch);
      }
    }
    PendAllConcat(m.infos, [m'.infos[n]]);
    PendAllOne(m'.infos[n]);
    PendListsEmpty(m'.infos[n].lists, m.epoch);
    forall i | i in m'.freed
      ensures !Visible(m'.infos, m'.extents[i])
    {
      NewSnapshotBlind(m.infos, m'.infos[n], m.extents[i]);
    }
  }

  lemma NewSnapshotBlind(infos: seq<Info>, info: Info, e: Extent)
    requires !Visible(infos, e) && e.del <= info.epoch
    ensures !Visible(infos + [info], e)
  {
    var all := infos + [info];
    forall k | 0 <= k < |all|
      ensures !Sees(all[k].epoch, e)
    {
      if k < |infos| {
        assert !Sees(infos[k].epoch, e);
      }
    }
  }

  lemma GoodPagesEmpty(infos: seq<Info>, extents: seq<Extent>, k: nat, epoch: nat)
    requires k < |infos|
    ensures GoodPages(infos, extents, k, [Page(epoch, [])])
  {}

  lemma GoodPagesPrefix(a: seq<Info>, b: seq<Info>, extents: seq<Extent>, k: nat, list: seq<Page>)
    requires k < |a| && k < |b| && (forall i :: 0 <= i <= k ==> a[i].epoch == b[i].epoch)
    requires GoodPages(a, extents, k, list)
    ensures GoodPages(b, extents, k, list)
  {
    forall x, y | 0 <= x < |list| && 0 <= y < |list[x].recs|
      ensures GoodRec(b, extents, k, list[x], list[x].recs[y])
    {
      assert GoodRec(a, extents, k, list[x], list[x].recs[y]);
    }
  }

  // ----- delete -----

  lemma DeleteInv(m: Mgr, epoch: nat)
    requires Inv(m)
    ensures Inv(Delete(m, epoch))
  {
    hide Inv;
    var k := FindFrom(m.infos, epoch);
    if k < |m.infos| && m.infos[k].epoch == epoch {
      if k + 1 < |m.infos| {
        LinkInv(m, k);
      } else {
        DropInv(m);
      }
    }
  }

  function Skip(k: nat, i: nat): nat {
    if i < k then i else i + 1
  }

  /** The epochs of `b` are those of `a` without the one at k. */
  ghost predicate DropsOne(a: seq<Info>, b: seq<Info>, k: nat) {
    k < |a| && |b| == |a| - 1 && forall i :: 0 <= i < |b| ==> b[i].epoch == a[Skip(k, i)].epoch
  }

  /** A list handed to the next snapshot keeps good records: the deleted snapshot no longer counts. */
  lemma GoodPagesMerge(m: Mgr, k: nat, j: nat, from: nat, list: seq<Page>, infos: seq<Info>)
    requires Shape(m) && k + 1 < |m.infos| && from < |m.infos| && j < |infos| && DropsOne(m.infos, infos, k)
    requires (from < k && j == from) || (from == k && j == k) || (from > k && j == from - 1)
    requires GoodPages(m.infos, m.extents, from, list)
    ensures GoodPages(infos, m.extents, j, list)
  {
    forall x, y | 0 <= x < |list| && 0 <= y < |list[x].recs|
      ensures GoodRec(infos, m.extents, j, list[x], list[x].recs[y])
    {
      assert GoodRec(m.infos, m.extents, from, list[x], list[x].recs[y]);
      assert m.infos[from].epoch <= infos[j].epoch;
    }
  }

  lemma GoodPagesConcat(infos: seq<Info>, extents: seq<Extent>, k: nat, a: seq<Page>, b: seq<Page>)
    requires k < |infos| && GoodPages(infos, extents, k, a) && GoodPages(infos, extents, k, b)
    ensures GoodPages(infos, extents, k, a + b)
  {
    forall x, y | 0 <= x < |a + b| && 0 <= y < |(a + b)[x].recs|
      ensures GoodRec(infos, extents, k, (a + b)[x], (a + b)[x].recs[y])
    {
      if x < |a| {
        assert GoodRec(infos, extents, k, a[x], a[x].recs[y]);
      } else {
        assert GoodRec(infos, extents, k, b[x - |a|], b[x - |a|].recs[y]);
      }
    }
  }

  /** The snapshots after snapshot k was linked into the next one. */
  ghost function Linked(m: Mgr, k: nat): seq<Info>
    requires Shape(m) && k + 1 < |m.infos|
  {
    var next := m.infos[k + 1];
    m.infos[..k] + [next.(lists := LinkLists(m.infos[k].lists, next.lists))] + m.infos[k + 2..]
  }

  lemma LinkedShape(m: Mgr, k: nat)
    requires Shape(m) && k + 1 < |m.infos|
    ensures var infos := Linked(m, k);
            && DropsOne(m.infos, infos, k)
            && (forall i :: 0 <= i < |infos| && i != k ==> infos[i] == m.infos[Skip(k, i)])
            && Shape(m.(infos := infos))
  {
    var infos := Linked(m, k);
    forall c | 0 <= c < m.cpus
      ensures infos[k].lists[c] != [] && Last(infos[k].lists[c]).epoch == infos[k].epoch
    {
      assert Last(m.infos[k].lists[c] + m.infos[k + 1].lists[c]) == Last(m.infos[k + 1].lists[c]);
    }
  }

  lemma LinkedConserves(m: Mgr, k: nat)
    requires Shape(m) && k + 1 < |m.infos|
    ensures PendAll(Linked(m, k)) == PendAll(m.infos)
  {
    hide PendAll, PendLists;
    var (a, x, y, b) := (m.infos[..k], m.infos[k], m.infos[k + 1], m.infos[k + 2..]);
    var z := y.(lists := LinkLists(x.lists, y.lists));
    PendListsLink(x.lists, y.lists);
    PendAllOne(x);
    PendAllOne(y);
    PendAllOne(z);
    PendAllConcat(a, [z]);
    PendAllConcat(a + [z], b);
    PendAllConcat(a, [x]);
    PendAllConcat(a + [x], [y]);
    PendAllConcat(a + [x] + [y], b);
    assert m.infos == a + [x] + [y] + b;
  }

  lemma LinkInv(m: Mgr, k: nat)
    requires Inv(m) && k + 1 < |m.infos|
    ensures Inv(m.(infos := Linked(m, k), cleaning := Some(m.infos[k + 1].epoch)))
  {
    hide PendAll, GoodPages, Visible, Linked, Ids;
    var infos := Linked(m, k);
    LinkedShape(m, k);
    LinkedConserves(m, k);
    forall j, c | 0 <= j < |infos| && 0 <= c < m.cpus
      ensures GoodPages(infos, m.extents, j, infos[j].lists[c])
    {
      LinkedGood(m, k, j, c);
    }
    forall i | i in m.freed
      ensures !Visible(infos, m.extents[i])
    {
      LinkedBlind(m, infos, k, m.extents[i]);
    }
  }

  lemma LinkedGood(m: Mgr, k: nat, j: nat, c: nat)
    requires Inv(m) && k + 1 < |m.infos| && j < |m.infos| - 1 && c < m.cpus && Shape(m.(infos := Linked(m, k)))
    ensures var infos := Linked(m, k); |infos| == |m.infos| - 1 && GoodPages(infos, m.extents, j, infos[j].lists[c])
  {
    hide PendAll, GoodPages, Visible, Ids;
    LinkedShape(m, k);
    var infos := Linked(m, k);
    if j == k {
      GoodPagesMerge(m, k, k, k, m.infos[k].lists[c], infos);
      GoodPagesMerge(m, k, k, k + 1, m.infos[k + 1].lists[c], infos);
      GoodPagesConcat(infos, m.extents, k, m.infos[k].lists[c], m.infos[k + 1].lists[c]);
    } else {
      var from := Skip(k, j);
      GoodPagesMerge(m, k, j, from, m.infos[from].lists[c], infos);
    }
  }

  lemma LinkedBlind(m: Mgr, infos: seq<Info>, k: nat, e: Extent)
    requires DropsOne(m.infos, infos, k) && !Visible(m.infos, e)
    ensures !Visible(infos, e)
  {
    forall i | 0 <= i < |infos|
      ensures !Sees(infos[i].epoch, e)
    {
      assert !Sees(m.infos[Skip(k, i)].epoch, e);
    }
  }

  /** What the lists of the newest snapshot hold back is seen by no other snapshot. */
  lemma LastListsUnseen(m: Mgr, id: nat)
    requires Inv(m) && m.infos != [] && id in PendLists(Last(m.infos).lists)
    ensures id < |m.extents| && !Visible(m.infos[..|m.infos| - 1], m.extents[id])
  {
    hide PendAll, PendLists, Visible, Ids;
    var n := |m.infos| - 1;
    var c, x, y := PendListsHas(m.infos[n].lists, id);
    var list := m.infos[n].lists[c];
    assert GoodPages(m.infos, m.extents, n, list);
    assert GoodRec(m.infos, m.extents, n, list[x], list[x].recs[y]);
    OlderBlind(m.infos[..n], m.extents[id]);
  }

  lemma OlderBlind(infos: seq<Info>, e: Extent)
    requires forall i :: 0 <= i < |infos| ==> infos[i].epoch < e.create
    ensures !Visible(infos, e)
  {
    forall i | 0 <= i < |infos|
      ensures !Sees(infos[i].epoch, e)
    {}
  }

  lemma DropInv(m: Mgr)
    requires Inv(m) && m.infos != []
    ensures Inv(m.(infos := m.infos[..|m.infos| - 1], freed := m.freed + PendLists(Last(m.infos).lists)))
  {
    hide PendLists, GoodPages, Visible, Ids;
    var n := |m.infos| - 1;
    var (infos, ids) := (m.infos[..n], PendLists(m.infos[n].lists));
    forall k, c | 0 <= k < n && 0 <= c < m.cpus
      ensures GoodPages(infos, m.extents, k, infos[k].lists[c])
    {
      GoodPagesPrefix(m.infos, infos, m.extents, k, m.infos[k].lists[c]);
    }
    forall i | i in m.freed + ids
      ensures i < |m.extents| && !Visible(infos, m.extents[i])
    {
      if i in ids {
        LastListsUnseen(m, i);
      } else {
        PrefixBlind(m.infos, n, m.extents[i]);
      }
    }
  }

  lemma PrefixBlind(infos: seq<Info>, n: nat, e: Extent)
    requires n <= |infos| && !Visible(infos, e)
    ensures !Visible(infos[..n], e)
  {
    forall i | 0 <= i < n
      ensures !Sees(infos[..n][i].epoch, e)
    {
      assert !Sees(infos[i].epoch, e);
    }
  }

  // ----- the cleaner -----

  lemma GoodPagesClean(a: seq<Info>, b: seq<Info>, extents: seq<Extent>, k: nat, list: seq<Page>, epoch: nat)
    requires |a| == |b| && (forall i :: 0 <= i < |a| ==> a[i].epoch == b[i].epoch) && k < |a|
    requires GoodPages(a, extents, k, list)
    ensures GoodPages(b, extents, k, CleanPages(list, epoch)) && GoodPages(b, extents, k, list)
  {
    var out := CleanPages(list, epoch);
    forall x, y | 0 <= x < |list| && 0 <= y < |list[x].recs|
      ensures GoodRec(b, extents, k, out[x], out[x].recs[y]) && GoodRec(b, extents, k, list[x], list[x].recs[y])
    {
      assert GoodRec(a, extents, k, list[x], list[x].recs[y]);
    }
  }

  /** The state after the cleaner's pass over snapshot k. */
  ghost function Cleaned(m: Mgr, k: nat): Mgr
    requires k < |m.infos|
  {
    var info := m.infos[k];
    var lists := CleanLists(info.lists, info.epoch);
    m.(infos := m.infos[k := info.(lists := lists)], cleaning := None,
       freed := m.freed + (PendLists(info.lists) - PendLists(lists)))
  }

  lemma CleanedShape(m: Mgr, k: nat)
    requires Shape(m) && k < |m.infos|
    ensures Shape(Cleaned(m, k)) && |Cleaned(m, k).infos| == |m.infos|
    ensures forall i :: 0 <= i < |m.infos| ==> Cleaned(m, k).infos[i].epoch == m.infos[i].epoch
    ensures forall c :: 0 <= c < m.cpus ==>
              Cleaned(m, k).infos[k].lists[c] == CleanPages(m.infos[k].lists[c], m.infos[k].epoch)
  {
    hide CleanRecs, PendLists;
  }

  /** What the cleaner frees has expired: no snapshot sees it. */
  lemma CleanedFreed(m: Mgr, k: nat, id: nat)
    requires Inv(m) && k < |m.infos|
    requires id in PendLists(m.infos[k].lists) - PendLists(CleanLists(m.infos[k].lists, m.infos[k].epoch))
    ensures id < |m.extents| && !Visible(m.infos, m.extents[id])
  {
    hide PendAll, PendLists, Visible, CleanLists, Ids;
    var lists: seq<seq<Page>> := m.infos[k].lists;
    var epoch := m.infos[k].epoch;
    PendListsClean(lists, epoch, id);
    var c: nat, x: nat, y: nat :| c < |lists| && ExpiredAt(lists[c], epoch, id, x, y);
    assert GoodPages(m.infos, m.extents, k, lists[c]);
    assert GoodRec(m.infos, m.extents, k, lists[c][x], lists[c][x].recs[y]);
    ExpiredUnseen(m.infos, k, m.extents[id]);
  }

  lemma ExpiredUnseen(infos: seq<Info>, k: nat, e: Extent)
    requires Ordered(infos) && k < |infos| && Newer(infos, k, e) && e.del <= infos[k].epoch
    ensures !Visible(infos, e)
  {
    forall i | 0 <= i < |infos|
      ensures !Sees(infos[i].epoch, e)
    {}
  }

  lemma CleanedConserves(m: Mgr, k: nat)
    requires k < |m.infos|
    ensures Cleaned(m, k).freed + PendAll(Cleaned(m, k).infos) == m.freed + PendAll(m.infos)
  {
    hide PendAll, PendLists, CleanLists;
    var (info, info') := (m.infos[k], Cleaned(m, k).infos[k]);
    PendAllUpdate(m.infos, k, info');
    forall id
      ensures PendLists(info'.lists)[id] <= PendLists(info.lists)[id]
    {
      if 0 <= id {
        PendListsClean(info.lists, info.epoch, id);
      }
    }
    CancelDown(PendAll(Cleaned(m, k).infos), PendLists(info.lists), PendAll(m.infos), PendLists(info'.lists));
  }

  lemma CleanedInv(m: Mgr, k: nat)
    requires Inv(m) && k < |m.infos|
    ensures Inv(Cleaned(m, k))
  {
    hide PendLists, PendAll, GoodPages, Visible, CleanPages, CleanLists, Ids;
    var m' := Cleaned(m, k);
    CleanedShape(m, k);
    CleanedConserves(m, k);
    forall i, c | 0 <= i < |m.infos| && 0 <= c < m.cpus
      ensures GoodPages(m'.infos, m.extents, i, m'.infos[i].lists[c])
    {
      GoodPagesClean(m.infos, m'.infos, m.extents, i, m.infos[i].lists[c], m.infos[k].epoch);
    }
    forall id | id in m'.freed
      ensures id < |m.extents| && !Visible(m'.infos, m.extents[id])
    {
      if id !in m.freed {
        CleanedFreed(m, k, id);
      }
      SameEpochs(m.infos, m'.infos, m.extents[id]);
    }
  }

  lemma CleanInv(m: Mgr)
    requires Inv(m) && CleanerSafe(m)
    ensures Inv(Clean(m))
  {
    hide Inv;
    if m.cleaning.Some? {
      CleanedInv(m, FindFrom(m.infos, m.cleaning.value));
    }
  }
}
