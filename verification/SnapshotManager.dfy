/** The snapshot operations as the code performs them on its list pages, and whole runs of them. Snapshots are
    found by epoch; each has one list object per CPU. A walk that strays is reported, and what the pages hold
    then is left open. */
module SnapshotManager {
  import opened Options
  import opened Snapshot
  import opened SnapshotTheorems
  import opened SnapshotRuns
  import opened SnapshotLists
  import opened SnapshotPlans

  datatype Snap = Snap(epoch: nat, lists: seq<SnapshotList>)

  ghost function ListsOf(infos: seq<Snap>): set<SnapshotList> {
    set k, c | 0 <= k < |infos| && 0 <= c < |infos[k].lists| :: infos[k].lists[c]
  }

  /** The epochs of the snapshots there are. */
  function Live(infos: seq<Snap>): set<nat> {
    set k | 0 <= k < |infos| :: infos[k].epoch
  }

  /** No two CPUs, and no two snapshots, share a list. */
  ghost predicate Apart(infos: seq<Snap>) {
    forall k, c, l, d ::
      0 <= k < |infos| && 0 <= c < |infos[k].lists| && 0 <= l < |infos| && 0 <= d < |infos[l].lists| ==>
      infos[k].lists[c] == infos[l].lists[d] ==> k == l && c == d
  }

  ghost predicate Shows(lists: seq<SnapshotList>, specs: seq<seq<Page>>)
    reads lists
  {
    |lists| == |specs| && forall c :: 0 <= c < |lists| ==> lists[c].Holds(specs[c])
  }

  /** The snapshots hold what the specification's do. */
  ghost predicate ShowsAll(infos: seq<Snap>, specs: seq<Info>)
    reads ListsOf(infos)
  {
    && |infos| == |specs|
    && forall k :: 0 <= k < |infos| ==> infos[k].epoch == specs[k].epoch && Shows(infos[k].lists, specs[k].lists)
  }

  class Manager {
    const cpus: nat
    var epoch: nat
    var infos: seq<Snap>
    var cleaning: Option<nat>
    var freed: multiset<nat>
    ghost var state: Mgr

    ghost predicate Valid()
      reads this, ListsOf(infos)
    {
      && state.cpus == cpus && state.epoch == epoch && state.cleaning == cleaning && state.freed == freed
      && Apart(infos) && ShowsAll(infos, state.infos)
    }

    constructor (cpus: nat, epoch: nat)
      ensures Valid() && state == Mounted(cpus, epoch) && infos == []
    {
      this.cpus, this.epoch, infos, cleaning, freed, state := cpus, epoch, [], None, multiset{}, Mounted(cpus, epoch);
    }

    /** nova_find_target_snapshot_info: the first snapshot at or after an epoch. */
    method FindTarget(epochId: nat) returns (k: nat)
      requires Valid()
      ensures k == FindFrom(state.infos, epochId)
    {
      hide Shows;
      k := 0;
      while k < |infos| && infos[k].epoch < epochId
        invariant k <= |infos| && forall i :: 0 <= i < k ==> state.infos[i].epoch < epochId
      {
        k := k + 1;
      }
    }

    /** nova_old_entry_deleteable: the snapshot that must keep the extent, if any. */
    method OldEntryDeletable(create: nat, del: nat) returns (keeper: Option<nat>)
      requires Valid()
      ensures keeper == Keeper(state.infos, Extent(create, del))
    {
      hide FindFrom, Shows;
      if create == del {
        return None;
      }
      var k := FindTarget(create);
      if k == |infos| {
        return None;
      }
      if infos[k].epoch >= del {
        return None;
      }
      keeper := Some(k);
    }

    /** nova_append_data_to_snapshot, and the caller's free when the extent may go; `raw` is what a new page holds. */
    method AppendData(id: nat, create: nat, cpu: nat, raw: seq<Cell>) returns (deletable: bool)
      requires Valid() && Shape(state) && cpu < cpus && id == |state.extents| && |raw| == RECORDS_PER_PAGE
      modifies this, ListsOf(infos)
      ensures Valid() && infos == old(infos) && state == Supersede(old(state), create, cpu)
      ensures create <= old(epoch) ==> (deletable <==> !Visible(old(state).infos, Extent(create, old(epoch))))
    {
      hide Keeper, AppendRec, Visible, SnapshotList.Holds, Sees;
      var keeper := OldEntryDeletable(create, epoch);
      if create <= epoch {
        KeeperExact(state.infos, Extent(create, epoch));
      }
      deletable := keeper == None;
      ghost var next := Supersede(state, create, cpu);
      if deletable {
        freed := freed + multiset{id};
      } else {
        var info := infos[keeper.value];
        ghost var spec := state.infos[keeper.value];
        info.lists[cpu].Append(info.epoch, Rec(id, epoch, false), raw, spec.lists[cpu]);
        OneChanged(infos, state.infos, keeper.value, cpu,
                   AppendRec(spec.lists[cpu], info.epoch, Rec(id, epoch, false)));
      }
      state := next;
    }

    /** nova_create_snapshot: the lists start with one page each. */
    method CreateSnapshot(raws: seq<seq<Cell>>)
      requires Valid() && |raws| == cpus && forall c :: 0 <= c < cpus ==> |raws[c]| == RECORDS_PER_PAGE
      modifies this
      ensures Valid() && state == Create(old(state)) && fresh(ListsOf(infos) - old(ListsOf(infos)))
      ensures Live(infos) == old(Live(infos)) + {old(epoch)} && epoch == old(epoch) + 1
    {
      hide SnapshotList.Holds;
      var lists := InitialLists(epoch, raws);
      MoreShows(infos, state.infos, Snap(epoch, lists), Info(epoch, NewLists(cpus, epoch)));
      LiveMore(infos, Snap(epoch, lists));
      infos := infos + [Snap(epoch, lists)];
      epoch := epoch + 1;
      state := Create(state);
    }

    /** nova_link_to_next_snapshot: CPU by CPU, the older list is put in front of the newer one. */
    method LinkToNext(k: nat)
      requires Valid() && Shape(state) && k + 1 < |infos|
      modifies this`cleaning, ListsOf(infos)
      ensures ShowsAll(Without(infos, k), Linked(state, k)) && cleaning == Some(infos[k + 1].epoch)
    {
      hide SnapshotList.Holds;
      var (prev, next) := (infos[k].lists, infos[k + 1].lists);
      ghost var (a, b) := (state.infos[k].lists, state.infos[k + 1].lists);
      for i := 0 to cpus
        invariant forall c :: 0 <= c < cpus ==> next[c].Holds(if c < i then a[c] + b[c] else b[c])
        invariant forall c :: i <= c < cpus ==> prev[c].Holds(a[c])
        invariant ShowsBut(infos, state.infos, k, k + 1) && cleaning == old(cleaning)
      {
        prev[i].LinkTo(next[i], a[i], b[i]);
      }
      LinkedShows(infos, state, k);
      cleaning := Some(infos[k + 1].epoch);
    }

    /** nova_delete_snapshot_info: every record of the lists is freed, unless one of the walks strays. */
    method FreeLists(lists: seq<SnapshotList>, ghost specs: seq<seq<Page>>) returns (stray: bool)
      requires Shows(lists, specs)
      modifies this`freed
      ensures stray <==> exists c :: 0 <= c < |specs| && !WalkClear(specs[c])
      ensures !stray ==> freed == old(freed) + PendLists(specs)
    {
      hide SnapshotList.Holds, WalkClear, Pend, PendLists, LivePages;
      stray := false;
      PendNone(specs);
      for i := 0 to |lists|
        invariant freed == old(freed) + PendLists(specs[..i]) && Shows(lists, specs)
        invariant forall c :: 0 <= c < i ==> WalkClear(specs[c])
      {
        var some, lost := lists[i].DeleteEntries(specs[i]);
        if lost {
          return true;
        }
        LivePagesPend(specs[i]);
        PendMore(specs, i);
        freed := freed + multiset(some);
      }
      assert specs[..|lists|] == specs;
    }

    /** nova_delete_snapshot; an unknown epoch is ignored. */
    method DeleteSnapshot(epochId: nat) returns (stray: bool)
      requires Valid() && Shape(state)
      modifies this, ListsOf(infos)
      ensures stray <==>
                IsLast(old(state), epochId) && exists c :: 0 <= c < cpus && !WalkClear(Last(old(state).infos).lists[c])
      ensures !stray ==> Valid() && state == Delete(old(state), epochId) && ListsOf(infos) <= old(ListsOf(infos))
      ensures Live(infos) == old(Live(infos)) - {epochId} && epoch == old(epoch)
      ensures epochId !in old(Live(infos)) ==> infos == old(infos) && state == old(state)
    {
      hide SnapshotList.Holds, WalkClear, FindFrom, PendLists, LinkLists, Linked, Apart, Shows, Live;
      stray := false;
      var k := FindTarget(epochId);
      LiveIs(infos, state.infos);
      LastFound(state, epochId, k);
      if k == |infos| {
        NotLive(state.infos, epochId, k);
        return;
      }
      if infos[k].epoch != epochId {
        NotLive(state.infos, epochId, k);
        return;
      }
      LiveLess(infos, state.infos, k);
      var info := infos[k];
      WithoutApart(infos, k);
      if k + 1 < |infos| {
        LinkToNext(k);
        LinkedIs(state, epochId, k);
      } else {
        LastShows(infos, state.infos);
        stray := FreeLists(info.lists, state.infos[k].lists);
      }
      infos := Without(infos, k);
      state := Delete(state, epochId);
    }

    /** nova_clean_snapshot; the snapshot to clean must still be there. */
    method CleanSnapshot() returns (stray: bool)
      requires Valid() && Shape(state) && CleanerSafe(state) && Banded(state)
      modifies this, ListsOf(infos)
      ensures stray <==> old(cleaning).Some? &&
                         var info := old(state).infos[FindFrom(old(state).infos, old(cleaning).value)];
                         exists c :: 0 <= c < cpus && !CleanClear(info.lists[c], info.epoch)
      ensures !stray ==> Valid() && state == Clean(old(state)) && infos == old(infos)
    {
      hide FindFrom, Apart, Shows, PendLists, CleanLists, CleanClear, Rising, Banded;
      stray := false;
      if cleaning == None {
        return;
      }
      var k := FindTarget(cleaning.value);
      AllRising(state, k);
      stray := Sweep(k);
      if !stray {
        cleaning, state := None, Clean(state);
      }
    }

    /** The cleaner's loop over the CPUs. */
    method Sweep(k: nat) returns (stray: bool)
      requires Valid() && k < |infos| && |state.infos[k].lists| == cpus
      requires forall c :: 0 <= c < cpus ==> Rising(state.infos[k].lists[c], infos[k].epoch)
      modifies this`freed, ListsOf(infos)
      ensures stray <==> exists c :: 0 <= c < cpus && !CleanClear(state.infos[k].lists[c], infos[k].epoch)
      ensures !stray ==>
                var (info, lists) := (state.infos[k], CleanLists(state.infos[k].lists, infos[k].epoch));
                && ShowsAll(infos, state.infos[k := info.(lists := lists)])
                && freed == old(freed) + (PendLists(info.lists) - PendLists(lists))
    {
      hide SnapshotList.Holds, CleanClear, Rising, Pend, PendLists, CleanPages, CleanLists, Apart;
      stray := false;
      var (lists, epochId) := (infos[k].lists, infos[k].epoch);
      ghost var specs := state.infos[k].lists;
      SweptNothing(lists, specs, epochId);
      CleanedNone(specs, epochId);
      for i := 0 to cpus
        invariant ShowsBut(infos, state.infos, k, k) && SweptTo(lists, specs, epochId, i)
        invariant freed + PendLists(CleanLists(specs[..i], epochId)) == old(freed) + PendLists(specs[..i])
        invariant forall c :: 0 <= c < i ==> CleanClear(specs[c], epochId)
      {
        ListsApart(infos, k, i);
        var some, lost := lists[i].CleanEntries(epochId, specs[i]);
        if lost {
          return true;
        }
        CleanedMore(specs, i, epochId);
        FreeSome(freed, PendLists(CleanLists(specs[..i], epochId)), old(freed), PendLists(specs[..i]),
                 Pend(specs[i]), Pend(CleanPages(specs[i], epochId)));
        freed := freed + multiset(some);
      }
      CleanedLess(specs, epochId);
      assert specs[..cpus] == specs;
      Settle(old(freed), PendLists(specs), freed, PendLists(CleanLists(specs, epochId)));
      SweptShows(infos, state.infos, k);
    }
  }

  /** Uninitialised contents for the pages of any step: `garbage(i, c)` for CPU c in step i. */
  type Garbage = (nat, nat) -> seq<Cell>

  ghost predicate PageSized(garbage: Garbage) {
    forall i, c :: |garbage(i, c)| == RECORDS_PER_PAGE
  }

  /** One action; n is the number of extents superseded so far. */
  method Perform(m: Manager, a: Action, step: nat, garbage: Garbage, n: nat) returns (next: nat)
    requires m.Valid() && Inv(m.state) && Banded(m.state) && Enabled(m.state, a) && n == |m.state.extents|
    requires PageSized(garbage)
    modifies m, ListsOf(m.infos)
    ensures m.Valid() && m.state == Apply(old(m.state), a) && Inv(m.state) && Banded(m.state)
    ensures next == |m.state.extents|
    ensures fresh(ListsOf(m.infos) - old(ListsOf(m.infos)))
  {
    hide Inv, Banded, Apart, Shows, WalkClear, CleanClear, Supersede, Delete, Clean;
    next := n;
    ApplyInv(m.state, a);
    ApplyBanded(m.state, a);
    CountExtents(m.state, a);
    match a {
      case Overwrite(create, cpu) =>
        next := n + 1;
        var deletable := m.AppendData(n, create, cpu, garbage(step, cpu));
      case TakeSnapshot =>
        m.CreateSnapshot(seq(m.cpus, c requires 0 <= c => garbage(step, c)));
      case DropSnapshot(epoch) =>
        var stray := m.DeleteSnapshot(epoch);
      case CleanerPass =>
        var stray := m.CleanSnapshot();
    }
  }

  lemma CountExtents(m: Mgr, a: Action)
    requires Enabled(m, a)
    ensures |Apply(m, a).extents| == |m.extents| + if a.Overwrite? then 1 else 0
  {}

  /** A whole run on the pages: no walk strays as long as every action is enabled, the result is that of the
      specification's run, and no extent is freed twice, or while a live snapshot sees it. */
  method Execute(m: Manager, run: seq<Action>, step: nat, garbage: Garbage, n: nat)
    requires m.Valid() && Inv(m.state) && Banded(m.state) && Legal(m.state, run) && n == |m.state.extents|
    requires PageSized(garbage)
    modifies m, ListsOf(m.infos)
    ensures m.Valid() && m.state == Run(old(m.state), run) && Inv(m.state) && Banded(m.state)
    ensures forall id :: 0 <= id < |m.state.extents| ==>
              m.freed[id] <= 1 && (Visible(m.state.infos, m.state.extents[id]) ==> m.freed[id] == 0)
    decreases |run|
  {
    hide Inv, Banded, Apart, ShowsAll, Visible, Enabled;
    if run == [] {
      forall id | 0 <= id < |m.state.extents|
        ensures m.freed[id] <= 1 && (Visible(m.state.infos, m.state.extents[id]) ==> m.freed[id] == 0)
      {
        InvSafe(m.state, id);
      }
    } else {
      var next := Perform(m, run[0], step, garbage, n);
      Execute(m, run[1..], step + 1, garbage, next);
    }
  }

  /** The first n lists are cleaned, the others as before. */
  ghost predicate SweptTo(lists: seq<SnapshotList>, specs: seq<seq<Page>>, epoch: nat, n: nat)
    reads lists
  {
    && |lists| == |specs|
    && forall c :: 0 <= c < |lists| ==> lists[c].Holds(if c < n then CleanPages(specs[c], epoch) else specs[c])
  }

  lemma SweptNothing(lists: seq<SnapshotList>, specs: seq<seq<Page>>, epoch: nat)
    requires Shows(lists, specs)
    ensures SweptTo(lists, specs, epoch, 0)
  {}

  lemma SweptShows(infos: seq<Snap>, specs: seq<Info>, k: nat)
    requires k < |infos| == |specs| && ShowsBut(infos, specs, k, k)
    requires SweptTo(infos[k].lists, specs[k].lists, infos[k].epoch, |infos[k].lists|)
    requires forall l :: 0 <= l < |infos| ==> infos[l].epoch == specs[l].epoch
    ensures ShowsAll(infos, specs[k := specs[k].(lists := CleanLists(specs[k].lists, infos[k].epoch))])
  {
    hide SnapshotList.Holds, CleanPages;
  }

  lemma ListsApart(infos: seq<Snap>, k: nat, i: nat)
    requires Apart(infos) && k < |infos| && i < |infos[k].lists|
    ensures forall c :: 0 <= c < |infos[k].lists| && c != i ==> infos[k].lists[c] != infos[k].lists[i]
    ensures forall l, c :: 0 <= l < |infos| && l != k && 0 <= c < |infos[l].lists| ==>
              infos[l].lists[c] != infos[k].lists[i]
  {}

  lemma AllRising(m: Mgr, k: nat)
    requires Shape(m) && Banded(m) && k < |m.infos|
    ensures |m.infos[k].lists| == m.cpus
    ensures forall c :: 0 <= c < m.cpus ==> Rising(m.infos[k].lists[c], m.infos[k].epoch)
  {
    hide Rising;
    forall c | 0 <= c < m.cpus
      ensures Rising(m.infos[k].lists[c], m.infos[k].epoch)
    {
      assert Band(m.infos, k, m.infos[k].lists[c]);
    }
  }

  lemma FreeSome(freed: multiset<nat>, left: multiset<nat>, before: multiset<nat>, all: multiset<nat>,
                 more: multiset<nat>, kept: multiset<nat>)
    requires freed + left == before + all && kept <= more
    ensures (freed + (more - kept)) + (left + kept) == before + (all + more)
  {
    forall i
      ensures ((freed + (more - kept)) + (left + kept))[i] == (before + (all + more))[i]
    {
      assert (freed + left)[i] == (before + all)[i];
    }
  }

  lemma CleanedNone(lists: seq<seq<Page>>, epoch: nat)
    ensures PendLists(CleanLists(lists[..0], epoch)) == PendLists(lists[..0]) == multiset{}
  {}

  lemma CleanedMore(lists: seq<seq<Page>>, i: nat, epoch: nat)
    requires i < |lists|
    ensures PendLists(lists[..i + 1]) == PendLists(lists[..i]) + Pend(lists[i])
    ensures PendLists(CleanLists(lists[..i + 1], epoch)) ==
              PendLists(CleanLists(lists[..i], epoch)) + Pend(CleanPages(lists[i], epoch))
    ensures Pend(CleanPages(lists[i], epoch)) <= Pend(lists[i])
  {
    hide Pend, CleanPages;
    assert lists[..i + 1][..i] == lists[..i];
    assert CleanLists(lists[..i + 1], epoch)[..i] == CleanLists(lists[..i], epoch);
    forall id
      ensures Pend(CleanPages(lists[i], epoch))[id] <= Pend(lists[i])[id]
    {
      if 0 <= id {
        PendClean(lists[i], epoch, id);
      }
    }
  }

  lemma CleanedLess(lists: seq<seq<Page>>, epoch: nat)
    ensures PendLists(CleanLists(lists, epoch)) <= PendLists(lists)
  {
    hide CleanLists, PendLists;
    forall id
      ensures PendLists(CleanLists(lists, epoch))[id] <= PendLists(lists)[id]
    {
      if 0 <= id {
        PendListsClean(lists, epoch, id);
      }
    }
  }

  lemma Settle(before: multiset<nat>, all: multiset<nat>, now: multiset<nat>, left: multiset<nat>)
    requires now + left == before + all && left <= all
    ensures now == before + (all - left)
  {
    forall i
      ensures now[i] == (before + (all - left))[i]
    {
      assert (now + left)[i] == (before + all)[i];
    }
  }

  lemma PendNone(specs: seq<seq<Page>>)
    ensures PendLists(specs[..0]) == multiset{}
  {}

  lemma PendMore(specs: seq<seq<Page>>, i: nat)
    requires i < |specs|
    ensures PendLists(specs[..i + 1]) == PendLists(specs[..i]) + Pend(specs[i])
  {
    assert specs[..i + 1][..i] == specs[..i];
  }

  lemma LinkedShows(infos: seq<Snap>, m: Mgr, k: nat)
    requires Shape(m) && |infos| == |m.infos| && k + 1 < |infos| && ShowsBut(infos, m.infos, k, k + 1)
    requires forall l :: 0 <= l < |infos| ==> infos[l].epoch == m.infos[l].epoch && |infos[l].lists| == m.cpus
    requires forall c :: 0 <= c < m.cpus ==> infos[k + 1].lists[c].Holds(m.infos[k].lists[c] + m.infos[k + 1].lists[c])
    ensures ShowsAll(Without(infos, k), Linked(m, k))
  {
    hide SnapshotList.Holds;
    var (out, specs) := (Without(infos, k), Linked(m, k));
    forall l | 0 <= l < |out|
      ensures out[l].epoch == specs[l].epoch && Shows(out[l].lists, specs[l].lists)
    {
      if l != k {
        assert out[l] == infos[if l < k then l else l + 1];
      }
    }
  }

  lemma WithoutApart(infos: seq<Snap>, k: nat)
    requires Apart(infos) && k < |infos|
    ensures Apart(Without(infos, k)) && ListsOf(Without(infos, k)) <= ListsOf(infos)
  {
    var out := Without(infos, k);
    forall l | 0 <= l < |out|
      ensures out[l] == infos[if l < k then l else l + 1]
    {}
  }

  lemma LiveMore(infos: seq<Snap>, snap: Snap)
    ensures Live(infos + [snap]) == Live(infos) + {snap.epoch}
  {
    var more := infos + [snap];
    assert forall k :: 0 <= k < |infos| ==> more[k] == infos[k];
    assert more[|infos|] == snap;
  }

  lemma LiveIs(infos: seq<Snap>, specs: seq<Info>)
    requires |infos| == |specs| && forall k :: 0 <= k < |infos| ==> infos[k].epoch == specs[k].epoch
    ensures Live(infos) == Epochs(specs)
  {
    assert forall k :: 0 <= k < |infos| ==> infos[k].epoch in Epochs(specs) && specs[k].epoch in Live(infos);
  }

  lemma LiveLess(infos: seq<Snap>, specs: seq<Info>, k: nat)
    requires |infos| == |specs| && (forall l :: 0 <= l < |infos| ==> infos[l].epoch == specs[l].epoch)
    requires Ordered(specs) && k < |infos|
    ensures Live(Without(infos, k)) == Live(infos) - {infos[k].epoch} && infos[k].epoch in Live(infos)
  {
    var out := Without(infos, k);
    assert forall l :: 0 <= l < |out| ==> out[l] == infos[if l < k then l else l + 1];
    forall l | 0 <= l < |infos| && l != k
      ensures infos[l].epoch in Live(out) && infos[l].epoch != infos[k].epoch
    {
      assert infos[l] == out[if l < k then l else l - 1];
      assert specs[l].epoch != specs[k].epoch;
    }
  }

  lemma LastFound(m: Mgr, epoch: nat, k: nat)
    requires Shape(m) && k == FindFrom(m.infos, epoch)
    ensures IsLast(m, epoch) <==> k + 1 == |m.infos| && m.infos[k].epoch == epoch
  {
    if IsLast(m, epoch) {
      FoundAt(m.infos, |m.infos| - 1);
    }
  }

  lemma LinkedIs(m: Mgr, epoch: nat, k: nat)
    requires Shape(m) && k == FindFrom(m.infos, epoch) && k + 1 < |m.infos| && m.infos[k].epoch == epoch
    ensures Delete(m, epoch).infos == Linked(m, k) && Delete(m, epoch).freed == m.freed
  {}

  lemma LastShows(infos: seq<Snap>, specs: seq<Info>)
    requires ShowsAll(infos, specs) && infos != []
    ensures var k := |infos| - 1; Shows(infos[k].lists, specs[k].lists) && ShowsAll(Without(infos, k), specs[..k])
  {
    hide Shows;
    var k := |infos| - 1;
    assert Without(infos, k) == infos[..k];
  }

  /** All snapshots but two hold what they held. */
  ghost predicate ShowsBut(infos: seq<Snap>, specs: seq<Info>, j: nat, k: nat)
    requires |infos| == |specs|
    reads ListsOf(infos)
  {
    forall l :: 0 <= l < |infos| && l != j && l != k ==> Shows(infos[l].lists, specs[l].lists)
  }

  function Without<T>(s: seq<T>, k: nat): seq<T>
    requires k < |s|
  {
    s[..k] + s[k + 1..]
  }

  /** nova_initialize_snapshot_info: one new page per CPU. */
  method InitialLists(epoch: nat, raws: seq<seq<Cell>>) returns (lists: seq<SnapshotList>)
    requires forall c :: 0 <= c < |raws| ==> |raws[c]| == RECORDS_PER_PAGE
    ensures |lists| == |raws| && Shows(lists, NewLists(|raws|, epoch))
    ensures (forall c :: 0 <= c < |lists| ==> fresh(lists[c]))
    ensures forall c, d :: 0 <= c < d < |lists| ==> lists[c] != lists[d]
  {
    hide SnapshotList.Holds;
    lists := [];
    for i := 0 to |raws|
      invariant |lists| == i && forall c :: 0 <= c < i ==> fresh(lists[c]) && lists[c].Holds([Page(epoch, [])])
      invariant forall c, d :: 0 <= c < d < i ==> lists[c] != lists[d]
    {
      var list := new SnapshotList(epoch, raws[i]);
      lists := lists + [list];
    }
  }

  lemma MoreShows(infos: seq<Snap>, specs: seq<Info>, info: Snap, spec: Info)
    requires ShowsAll(infos, specs) && info.epoch == spec.epoch && Shows(info.lists, spec.lists)
    ensures ShowsAll(infos + [info], specs + [spec])
  {
    hide Shows;
  }

  /** Every list but one holds what it held. */
  ghost predicate RestShows(infos: seq<Snap>, specs: seq<Info>, k: nat, cpu: nat)
    requires |infos| == |specs|
    reads ListsOf(infos)
  {
    forall l, c :: 0 <= l < |infos| && 0 <= c < |infos[l].lists| && !(l == k && c == cpu) ==>
      && infos[l].epoch == specs[l].epoch && |infos[l].lists| == |specs[l].lists|
      && infos[l].lists[c].Holds(specs[l].lists[c])
  }

  /** A change of one list is a change of the whole. */
  lemma OneChanged(infos: seq<Snap>, was: seq<Info>, k: nat, cpu: nat, list: seq<Page>)
    requires k < |infos| == |was| && cpu < |infos[k].lists| && RestShows(infos, was, k, cpu)
    requires forall l :: 0 <= l < |infos| ==> infos[l].epoch == was[l].epoch && |infos[l].lists| == |was[l].lists|
    requires infos[k].lists[cpu].Holds(list)
    ensures ShowsAll(infos, was[k := was[k].(lists := was[k].lists[cpu := list])])
  {
    hide SnapshotList.Holds;
    var now := was[k := was[k].(lists := was[k].lists[cpu := list])];
    forall l | 0 <= l < |infos|
      ensures Shows(infos[l].lists, now[l].lists)
    {
      assert forall c :: 0 <= c < |infos[l].lists| && !(l == k && c == cpu) ==>
               infos[l].lists[c].Holds(was[l].lists[c]);
    }
  }
}
