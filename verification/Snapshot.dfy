/** Snapshots by epoch (snapshot.c): which superseded extents may be freed, and when.

    Each snapshot keeps, per CPU, a list of pages with records of the extents it alone still shows.
    The radix tree of snapshots is a sequence ordered by epoch. Extents are numbered in the order they
    are superseded; the numbers, and the creation epoch kept with them, are bookkeeping of the model
    that no operation consults.
 */
module Snapshot {
  import opened Options

  const RECORDS_PER_PAGE := 127   // 32-byte records in 4064 bytes

  /** A record names an extent and the epoch it was superseded in; `deleted` once it is freed. */
  datatype Rec = Rec(id: nat, del: nat, deleted: bool)

  datatype Page = Page(epoch: nat, recs: seq<Rec>)

  /** A snapshot: its epoch, and per CPU a list of pages, oldest first. */
  datatype Info = Info(epoch: nat, lists: seq<seq<Page>>)

  /** A superseded extent: written in epoch `create`, replaced in epoch `del`. */
  datatype Extent = Extent(create: nat, del: nat)

  /** `cleaning`: the snapshot the background cleaner was asked to clean. `freed` counts how often each
      extent was given back to the allocator. */
  datatype Mgr = Mgr(cpus: nat, epoch: nat, infos: seq<Info>, cleaning: Option<nat>, extents: seq<Extent>,
                     freed: multiset<nat>)

  predicate Sees(epoch: nat, e: Extent) {
    e.create <= epoch < e.del
  }

  ghost predicate Visible(infos: seq<Info>, e: Extent) {
    exists k :: 0 <= k < |infos| && Sees(infos[k].epoch, e)
  }

  predicate Ordered(infos: seq<Info>) {
    forall i, j :: 0 <= i < j < |infos| ==> infos[i].epoch < infos[j].epoch
  }

  // ----- radix_tree_gang_lookup(…, epoch, 1) and nova_old_entry_deleteable -----

  /** The first snapshot at or after an epoch; the number of snapshots if there is none. */
  function FindFrom(infos: seq<Info>, epoch: nat): (k: nat)
    ensures k <= |infos| && (k < |infos| ==> infos[k].epoch >= epoch)
    ensures forall i :: 0 <= i < k ==> infos[i].epoch < epoch
  {
    if infos == [] then 0
    else
      var k := FindFrom(infos[..|infos| - 1], epoch);
      if k < |infos| - 1 then k
      else if infos[|infos| - 1].epoch >= epoch then |infos| - 1 else |infos|
  }

  /** nova_old_entry_deleteable: the snapshot that must keep the extent, if any. */
  function Keeper(infos: seq<Info>, e: Extent): (k: Option<nat>)
    ensures k.Some? ==> k.value < |infos|
  {
    if e.create == e.del then None
    else
      var k := FindFrom(infos, e.create);
      if k == |infos| || infos[k].epoch >= e.del then None else Some(k)
  }

  /** The test is exact: an extent is deletable if and only if no live snapshot sees it, and
      otherwise it is kept by the oldest one that does. */
  lemma KeeperExact(infos: seq<Info>, e: Extent)
    requires Ordered(infos) && e.create <= e.del
    ensures Keeper(infos, e) == None <==> !Visible(infos, e)
    ensures Keeper(infos, e).Some? ==>
              var k := Keeper(infos, e).value;
              Sees(infos[k].epoch, e) && forall i :: 0 <= i < k ==> infos[i].epoch < e.create
  {
    var k := FindFrom(infos, e.create);
    if Visible(infos, e) {
      var i :| 0 <= i < |infos| && Sees(infos[i].epoch, e);
      assert k <= i;
      assert infos[k].epoch <= infos[i].epoch;
    }
  }

  // ----- record lists -----

  function Last<T>(s: seq<T>): T
    requires s != []
  {
    s[|s| - 1]
  }

  /** nova_append_snapshot_list_entry */
  function AppendRec(list: seq<Page>, epoch: nat, r: Rec): seq<Page>
    requires list != []
  {
    if |Last(list).recs| >= RECORDS_PER_PAGE then list + [Page(epoch, [r])]
    else list[|list| - 1 := Last(list).(recs := Last(list).recs + [r])]
  }

  function CleanRec(r: Rec, epoch: nat): Rec {
    if !r.deleted && r.del <= epoch then r.(deleted := true) else r
  }

  function CleanRecs(recs: seq<Rec>, epoch: nat): (out: seq<Rec>)
    ensures |out| == |recs|
  {
    seq(|recs|, i requires 0 <= i < |recs| => CleanRec(recs[i], epoch))
  }

  /** What the background cleaner makes of a list: expired records on inherited pages are freed. */
  function CleanPages(list: seq<Page>, epoch: nat): (out: seq<Page>)
    ensures |out| == |list|
  {
    seq(|list|, i requires 0 <= i < |list| => CleanPage(list[i], epoch))
  }

  function CleanPage(p: Page, epoch: nat): Page {
    if p.epoch < epoch then p.(recs := CleanRecs(p.recs, epoch)) else p
  }

  function PendRecs(recs: seq<Rec>): multiset<nat> {
    if recs == [] then multiset{}
    else PendRecs(recs[..|recs| - 1]) + if Last(recs).deleted then multiset{} else multiset{Last(recs).id}
  }

  /** The extents a list still holds back. */
  function Pend(list: seq<Page>): multiset<nat> {
    if list == [] then multiset{} else Pend(list[..|list| - 1]) + PendRecs(Last(list).recs)
  }

  function PendLists(lists: seq<seq<Page>>): multiset<nat> {
    if lists == [] then multiset{} else PendLists(lists[..|lists| - 1]) + Pend(Last(lists))
  }

  function PendAll(infos: seq<Info>): multiset<nat> {
    if infos == [] then multiset{} else PendAll(infos[..|infos| - 1]) + PendLists(Last(infos).lists)
  }

  // ----- the operations -----

  /** Superseding an extent: free it at once, or leave a record with the snapshot that keeps it. */
  function Supersede(m: Mgr, create: nat, cpu: nat): Mgr
    requires cpu < m.cpus && Shape(m)
  {
    var (e, id) := (Extent(create, m.epoch), |m.extents|);
    var m' := m.(extents := m.extents + [e]);
    match Keeper(m.infos, e)
    case None => m'.(freed := m.freed + multiset{id})
    case Some(k) =>
      var info := m.infos[k];
      var list := AppendRec(info.lists[cpu], info.epoch, Rec(id, m.epoch, false));
      m'.(infos := m.infos[k := info.(lists := info.lists[cpu := list])])
  }

  function NewLists(cpus: nat, epoch: nat): (lists: seq<seq<Page>>)
    ensures |lists| == cpus && forall c :: 0 <= c < cpus ==> lists[c] == [Page(epoch, [])]
  {
    seq(cpus, c => [Page(epoch, [])])
  }

  /** nova_create_snapshot: the current epoch becomes the snapshot, with one empty page per CPU. */
  function Create(m: Mgr): Mgr {
    m.(epoch := m.epoch + 1, infos := m.infos + [Info(m.epoch, NewLists(m.cpus, m.epoch))])
  }

  function LinkLists(prev: seq<seq<Page>>, next: seq<seq<Page>>): (out: seq<seq<Page>>)
    requires |prev| == |next|
    ensures |out| == |next|
  {
    seq(|next|, c requires 0 <= c < |next| => prev[c] + next[c])
  }

  /** nova_delete_snapshot: hand the lists to the next snapshot, or free everything they hold. */
  function Delete(m: Mgr, epoch: nat): Mgr
    requires Shape(m)
  {
    var k := FindFrom(m.infos, epoch);
    if k == |m.infos| || m.infos[k].epoch != epoch then m
    else if k + 1 < |m.infos| then
      var next := m.infos[k + 1];
      m.(infos := m.infos[..k] + [next.(lists := LinkLists(m.infos[k].lists, next.lists))] + m.infos[k + 2..],
         cleaning := Some(next.epoch))
    else
      m.(infos := m.infos[..k], freed := m.freed + PendLists(m.infos[k].lists))
  }

  function CleanLists(lists: seq<seq<Page>>, epoch: nat): (out: seq<seq<Page>>)
    ensures |out| == |lists|
  {
    seq(|lists|, c requires 0 <= c < |lists| => CleanPages(lists[c], epoch))
  }

  /** nova_clean_snapshot: the cleaner's pass over the snapshot it was pointed at. */
  function Clean(m: Mgr): Mgr
    requires CleanerSafe(m)
  {
    if m.cleaning == None then m
    else
      var k := FindFrom(m.infos, m.cleaning.value);
      var info := m.infos[k];
      var lists := CleanLists(info.lists, info.epoch);
      m.(infos := m.infos[k := info.(lists := lists)], cleaning := None,
         freed := m.freed + (PendLists(info.lists) - PendLists(lists)))
  }

  /** The cleaner's pointer does not dangle. */
  predicate CleanerSafe(m: Mgr) {
    m.cleaning.Some? ==>
      var k := FindFrom(m.infos, m.cleaning.value);
      k < |m.infos| && m.infos[k].epoch == m.cleaning.value
  }

  // ----- the invariant -----

  predicate Shape(m: Mgr) {
    && Ordered(m.infos)
    && (forall k :: 0 <= k < |m.infos| ==> m.infos[k].epoch < m.epoch && |m.infos[k].lists| == m.cpus)
    && (forall k, c :: 0 <= k < |m.infos| && 0 <= c < m.cpus ==>
          m.infos[k].lists[c] != [] && Last(m.infos[k].lists[c]).epoch == m.infos[k].epoch)
  }

  /** No snapshot older than infos[k] sees e. */
  predicate Newer(infos: seq<Info>, k: nat, e: Extent)
    requires k <= |infos|
  {
    forall i :: 0 <= i < k ==> infos[i].epoch < e.create
  }

  /** Record r on page p of a list of snapshot k. */
  predicate GoodRec(infos: seq<Info>, extents: seq<Extent>, k: nat, p: Page, r: Rec)
    requires k < |infos|
  {
    && r.id < |extents|
    && var e := extents[r.id];
       e.del == r.del && e.create <= p.epoch <= infos[k].epoch && p.epoch < e.del && Newer(infos, k, e)
  }

  ghost predicate GoodPages(infos: seq<Info>, extents: seq<Extent>, k: nat, list: seq<Page>)
    requires k < |infos|
  {
    forall x, y :: 0 <= x < |list| && 0 <= y < |list[x].recs| ==> GoodRec(infos, extents, k, list[x], list[x].recs[y])
  }

  /** Each of the numbers below n, once. */
  function Ids(n: nat): multiset<nat> {
    if n == 0 then multiset{} else Ids(n - 1) + multiset{n - 1}
  }

  ghost predicate Inv(m: Mgr) {
    && Shape(m)
    && (forall k, c :: 0 <= k < |m.infos| && 0 <= c < m.cpus ==> GoodPages(m.infos, m.extents, k, m.infos[k].lists[c]))
    // the extents were superseded in the past
    && (forall id :: 0 <= id < |m.extents| ==> m.extents[id].create <= m.extents[id].del <= m.epoch)
    // conservation: every extent was freed once, or is held back by exactly one record
    && m.freed + PendAll(m.infos) == Ids(|m.extents|)
    // safety: no live snapshot sees a freed extent
    && (forall id :: id in m.freed ==> id < |m.extents| && !Visible(m.infos, m.extents[id]))
  }
}
