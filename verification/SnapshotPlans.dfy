/** Which snapshots are live and which extents have been superseded, told by the calls alone: a snapshot lives from
    the call that takes it to the call that drops it. The lists, the records and the cleaner do not occur here. */
module SnapshotPlans {
  import opened Options
  import opened Snapshot
  import opened SnapshotTheorems
  import opened SnapshotRuns

  /** The current epoch, the live snapshots and the superseded extents. */
  datatype Plan = Plan(epoch: nat, live: set<nat>, extents: seq<Extent>)

  function Epochs(infos: seq<Info>): set<nat> {
    set k | 0 <= k < |infos| :: infos[k].epoch
  }

  function PlanOf(m: Mgr): Plan {
    Plan(m.epoch, Epochs(m.infos), m.extents)
  }

  function PlanStep(p: Plan, a: Action): Plan {
    match a
    case Overwrite(create, _) => p.(extents := p.extents + [Extent(create, p.epoch)])
    case TakeSnapshot => p.(epoch := p.epoch + 1, live := p.live + {p.epoch})
    case DropSnapshot(epoch) => p.(live := p.live - {epoch})
    case CleanerPass => p
  }

  function PlanRun(p: Plan, run: seq<Action>): Plan
    decreases |run|
  {
    if run == [] then p else PlanRun(PlanStep(p, run[0]), run[1..])
  }

  // ----- the steps -----

  lemma SameEpochsLive(a: seq<Info>, b: seq<Info>)
    requires |a| == |b| && forall k :: 0 <= k < |a| ==> a[k].epoch == b[k].epoch
    ensures Epochs(a) == Epochs(b)
  {
    assert forall k :: 0 <= k < |a| ==> a[k].epoch in Epochs(b) && b[k].epoch in Epochs(a);
  }

  lemma EpochsConcat(a: seq<Info>, b: seq<Info>)
    ensures Epochs(a + b) == Epochs(a) + Epochs(b)
  {
    var c := a + b;
    assert forall k :: 0 <= k < |a| ==> a[k] == c[k];
    assert forall k :: 0 <= k < |b| ==> b[k] == c[|a| + k];
  }

  /** Creating a snapshot makes exactly the current epoch live, which was not, and opens the next epoch. */
  lemma CreateLives(m: Mgr)
    requires Shape(m)
    ensures PlanOf(Create(m)) == PlanStep(PlanOf(m), TakeSnapshot) && m.epoch !in PlanOf(m).live
  {
    var last := [Info(m.epoch, NewLists(m.cpus, m.epoch))];
    EpochsConcat(m.infos, last);
    assert last[0].epoch in Epochs(last);
    assert Epochs(last) == {m.epoch};
  }

  /** Without the snapshot at k, the live ones are the others. */
  lemma WithoutLives(infos: seq<Info>, k: nat)
    requires Ordered(infos) && k < |infos|
    ensures Epochs(infos[..k]) + Epochs(infos[k + 1..]) == Epochs(infos) - {infos[k].epoch}
  {
    var (a, b) := (infos[..k], infos[k + 1..]);
    assert infos == a + [infos[k]] + b;
    EpochsConcat(a + [infos[k]], b);
    EpochsConcat(a, [infos[k]]);
    assert forall i :: 0 <= i < |a| ==> a[i].epoch < infos[k].epoch;
    assert forall i :: 0 <= i < |b| ==> b[i] == infos[k + 1 + i];
  }

  /** Deleting a snapshot leaves exactly the others live; a deletion of no live snapshot changes nothing. */
  lemma DeleteLives(m: Mgr, epoch: nat)
    requires Shape(m)
    ensures PlanOf(Delete(m, epoch)) == PlanStep(PlanOf(m), DropSnapshot(epoch))
    ensures epoch !in PlanOf(m).live ==> Delete(m, epoch) == m
  {
    hide FindFrom, LinkLists, PendLists, Epochs;
    var k := FindFrom(m.infos, epoch);
    if k == |m.infos| || m.infos[k].epoch != epoch {
      NotLive(m.infos, epoch, k);
    } else {
      IsLive(m.infos, k);
      WithoutLives(m.infos, k);
      var infos := Delete(m, epoch).infos;
      if k + 1 < |m.infos| {
        var (next, rest) := (infos[k], m.infos[k + 2..]);
        EpochsConcat(m.infos[..k] + [next], rest);
        EpochsConcat(m.infos[..k], [next]);
        assert m.infos[k + 1..] == [m.infos[k + 1]] + rest;
        EpochsConcat([m.infos[k + 1]], rest);
        SameEpochsLive([next], [m.infos[k + 1]]);
      } else {
        assert m.infos[k + 1..] == [];
        NoneLive();
      }
    }
  }

  lemma NoneLive()
    ensures Epochs([]) == {}
  {}

  lemma IsLive(infos: seq<Info>, k: nat)
    requires k < |infos|
    ensures infos[k].epoch in Epochs(infos)
  {}

  lemma NotLive(infos: seq<Info>, epoch: nat, k: nat)
    requires Ordered(infos) && k == FindFrom(infos, epoch) && (k == |infos| || infos[k].epoch != epoch)
    ensures epoch !in Epochs(infos)
  {
    if epoch in Epochs(infos) {
      var i :| 0 <= i < |infos| && infos[i].epoch == epoch;
      FoundAt(infos, i);
    }
  }

  lemma StepPlans(m: Mgr, a: Action)
    requires Enabled(m, a)
    ensures PlanOf(Apply(m, a)) == PlanStep(PlanOf(m), a)
  {
    hide Keeper, AppendRec, FindFrom, CleanLists, PendLists, WalkClear, CleanClear, Epochs, Delete;
    match a
    case Overwrite(create, cpu) => SameEpochsLive(m.infos, Supersede(m, create, cpu).infos);
    case TakeSnapshot => CreateLives(m);
    case DropSnapshot(epoch) => DeleteLives(m, epoch);
    case CleanerPass => SameEpochsLive(m.infos, Clean(m).infos);
  }

  // ----- runs -----

  lemma {:induction false} RunPlans(m: Mgr, run: seq<Action>)
    requires Legal(m, run)
    ensures PlanOf(Run(m, run)) == PlanRun(PlanOf(m), run)
    decreases |run|
  {
    hide Enabled, Apply, PlanOf, PlanStep;
    if run != [] {
      StepPlans(m, run[0]);
      RunPlans(Apply(m, run[0]), run[1..]);
    }
  }

  /** Seen by a live snapshot. */
  ghost predicate Needed(p: Plan, id: nat) {
    id < |p.extents| && exists s: nat :: s in p.live && Sees(s, p.extents[id])
  }

  lemma VisibleIsNeeded(m: Mgr, id: nat)
    requires id < |m.extents|
    ensures Visible(m.infos, m.extents[id]) <==> Needed(PlanOf(m), id)
  {
    var (e, live) := (m.extents[id], Epochs(m.infos));
    if Visible(m.infos, e) {
      var k :| 0 <= k < |m.infos| && Sees(m.infos[k].epoch, e);
      assert m.infos[k].epoch in live;
    }
    if Needed(PlanOf(m), id) {
      var s: nat :| s in live && Sees(s, e);
      var k :| 0 <= k < |m.infos| && m.infos[k].epoch == s;
      assert Sees(m.infos[k].epoch, e);
    }
  }

  /** Over every run, told by its calls: an extent superseded on the way is freed at most once, and not while some
      snapshot that was taken and not dropped sees it. */
  lemma PlannedBlocksKept(cpus: nat, epoch: nat, run: seq<Action>, id: nat)
    requires Legal(Mounted(cpus, epoch), run) && id < |PlanRun(Plan(epoch, {}, []), run).extents|
    ensures var (m, p) := (Run(Mounted(cpus, epoch), run), PlanRun(Plan(epoch, {}, []), run));
            m.freed[id] <= 1 && (Needed(p, id) ==> m.freed[id] == 0)
  {
    hide Visible, Needed, Legal, Run, PlanRun, PendAll;
    var m := Mounted(cpus, epoch);
    MountedPlan(cpus, epoch);
    RunPlans(m, run);
    SnapshotsKeepTheirBlocks(cpus, epoch, run, id);
    VisibleIsNeeded(Run(m, run), id);
  }

  lemma MountedPlan(cpus: nat, epoch: nat)
    ensures PlanOf(Mounted(cpus, epoch)) == Plan(epoch, {}, [])
  {}

  /** And if the cleaner finished between deletions, every extent that no live snapshot sees has been freed. */
  lemma PlannedBlocksFreed(cpus: nat, epoch: nat, run: seq<Action>, id: nat)
    requires Legal(Mounted(cpus, epoch), run) && AllPatient(Mounted(cpus, epoch), run)
    requires Run(Mounted(cpus, epoch), run).cleaning == None && id < |PlanRun(Plan(epoch, {}, []), run).extents|
    ensures var (m, p) := (Run(Mounted(cpus, epoch), run), PlanRun(Plan(epoch, {}, []), run));
            m.freed[id] == 1 <==> !Needed(p, id)
  {
    hide Visible, Needed, Legal, Run, PlanRun, AllPatient;
    var m := Mounted(cpus, epoch);
    MountedPlan(cpus, epoch);
    RunPlans(m, run);
    SnapshotsFreeExactly(cpus, epoch, run, id);
    VisibleIsNeeded(Run(m, run), id);
  }
}
