/** Whole runs of overwrites, snapshot creations, deletions and cleaner passes, and the two guards the
    code leaves to its callers: the cleaner's pointer, and the walk over a list's pages. */
module SnapshotRuns {
  import opened Options
  import opened Snapshot
  import opened SnapshotTheorems

  datatype Action =
    | Overwrite(create: nat, cpu: nat)
    | TakeSnapshot
    | DropSnapshot(epoch: nat)
    | CleanerPass

  /** Walking a whole list misreads an empty page that is neither the first nor the last. */
  predicate WalkClear(list: seq<Page>) {
    forall i :: 1 <= i < |list| - 1 ==> list[i].recs != []
  }

  /** Walking the inherited pages of a list misreads an empty one other than the first. */
  predicate CleanClear(list: seq<Page>, epoch: nat) {
    forall i :: 1 <= i < |list| && list[i].epoch < epoch ==> list[i].recs != []
  }

  predicate IsLast(m: Mgr, epoch: nat) {
    m.infos != [] && Last(m.infos).epoch == epoch
  }

  predicate Enabled(m: Mgr, a: Action) {
    Shape(m) &&
    match a
    case Overwrite(create, cpu) => cpu < m.cpus && create <= m.epoch
    case TakeSnapshot => true
    case DropSnapshot(epoch) =>
      IsLast(m, epoch) ==>
        m.cleaning != Some(epoch) && forall c :: 0 <= c < m.cpus ==> WalkClear(Last(m.infos).lists[c])
    case CleanerPass =>
      && CleanerSafe(m)
      && (m.cleaning.Some? ==>
            var info := m.infos[FindFrom(m.infos, m.cleaning.value)];
            forall c :: 0 <= c < m.cpus ==> CleanClear(info.lists[c], info.epoch))
  }

  function Apply(m: Mgr, a: Action): Mgr
    requires Enabled(m, a)
  {
    match a
    case Overwrite(create, cpu) => Supersede(m, create, cpu)
    case TakeSnapshot => Create(m)
    case DropSnapshot(epoch) => Delete(m, epoch)
    case CleanerPass => Clean(m)
  }

  predicate Legal(m: Mgr, run: seq<Action>)
    decreases |run|
  {
    run == [] || (Enabled(m, run[0]) && Legal(Apply(m, run[0]), run[1..]))
  }

  function Run(m: Mgr, run: seq<Action>): Mgr
    requires Legal(m, run)
    decreases |run|
  {
    if run == [] then m else Run(Apply(m, run[0]), run[1..])
  }

  function Mounted(cpus: nat, epoch: nat): Mgr {
    Mgr(cpus, epoch, [], None, [], multiset{})
  }

  lemma ApplyInv(m: Mgr, a: Action)
    requires Inv(m) && Enabled(m, a)
    ensures Inv(Apply(m, a))
  {
    hide Inv;
    match a
    case Overwrite(create, cpu) => SupersedeInv(m, create, cpu);
    case TakeSnapshot => CreateInv(m);
    case DropSnapshot(epoch) => DeleteInv(m, epoch);
    case CleanerPass => CleanInv(m);
  }

  lemma {:induction false} RunInv(m: Mgr, run: seq<Action>)
    requires Inv(m) && Legal(m, run)
    ensures Inv(Run(m, run))
    decreases |run|
  {
    hide Inv;
    if run != [] {
      ApplyInv(m, run[0]);
      RunInv(Apply(m, run[0]), run[1..]);
    }
  }

  lemma {:induction false} IdsOnce(n: nat, id: nat)
    ensures Ids(n)[id] == if id < n then 1 else 0
  {
    if n > 0 {
      IdsOnce(n - 1, id);
    }
  }

  /** What the invariant says of one extent. */
  lemma InvSafe(m: Mgr, id: nat)
    requires Inv(m) && id < |m.extents|
    ensures m.freed[id] <= 1
    ensures m.freed[id] + PendAll(m.infos)[id] == 1
    ensures Visible(m.infos, m.extents[id]) ==> m.freed[id] == 0
  {
    hide Visible, PendAll, Ids, GoodPages;
    IdsOnce(|m.extents|, id);
    assert (m.freed + PendAll(m.infos))[id] == Ids(|m.extents|)[id];
  }

  /** Safety over every run from a mount: an extent some live snapshot sees was not freed, and every
      extent was freed at most once; what was not freed is still held back by exactly one record. */
  lemma SnapshotsKeepTheirBlocks(cpus: nat, epoch: nat, run: seq<Action>, id: nat)
    requires Legal(Mounted(cpus, epoch), run)
    requires id < |Run(Mounted(cpus, epoch), run).extents|
    ensures var m := Run(Mounted(cpus, epoch), run);
            && m.freed[id] <= 1
            && m.freed[id] + PendAll(m.infos)[id] == 1
            && (Visible(m.infos, m.extents[id]) ==> m.freed[id] == 0)
  {
    hide Visible, PendAll, Ids, GoodPages;
    assert Inv(Mounted(cpus, epoch)) by {
      assert PendAll([]) == multiset{} && Ids(0) == multiset{} by { EmptyHolds(); }
    }
    RunInv(Mounted(cpus, epoch), run);
    InvSafe(Run(Mounted(cpus, epoch), run), id);
  }

  lemma EmptyHolds()
    ensures PendAll([]) == multiset{} && Ids(0) == multiset{}
  {}

  // ----- nothing is held back longer than needed -----

  /** Every live record is seen by the snapshot that keeps it, except on the lists the cleaner was asked
      to clean. */
  ghost predicate Tight(m: Mgr) {
    forall k, c :: 0 <= k < |m.infos| && 0 <= c < |m.infos[k].lists| && m.cleaning != Some(m.infos[k].epoch) ==>
      TightPages(m.infos[k].epoch, m.infos[k].lists[c])
  }

  ghost predicate TightPages(epoch: nat, list: seq<Page>) {
    forall x, y :: 0 <= x < |list| && 0 <= y < |list[x].recs| ==> TightRec(epoch, list[x].recs[y])
  }

  predicate TightRec(epoch: nat, r: Rec) {
    r.deleted || epoch < r.del
  }

  /** Deletions wait until the cleaner is idle. */
  predicate Patient(m: Mgr, a: Action) {
    a.DropSnapshot? ==> m.cleaning == None
  }

  predicate AllPatient(m: Mgr, run: seq<Action>)
    requires Legal(m, run)
    decreases |run|
  {
    run == [] || (Patient(m, run[0]) && AllPatient(Apply(m, run[0]), run[1..]))
  }

  lemma TightAppend(list: seq<Page>, epoch: nat, r: Rec)
    requires list != [] && TightPages(epoch, list) && epoch < r.del
    ensures TightPages(epoch, AppendRec(list, epoch, r))
  {
    var out := AppendRec(list, epoch, r);
    forall x, y | 0 <= x < |out| && 0 <= y < |out[x].recs|
      ensures TightRec(epoch, out[x].recs[y])
    {
      if x < |list| && y < |list[x].recs| {
        assert TightRec(epoch, list[x].recs[y]);
      }
    }
  }

  /** After the cleaner's pass the live records left are those the snapshot itself sees: own pages hold
      nothing older, inherited pages were swept. */
  lemma TightClean(m: Mgr, k: nat, list: seq<Page>)
    requires k < |m.infos| && GoodPages(m.infos, m.extents, k, list)
    ensures TightPages(m.infos[k].epoch, CleanPages(list, m.infos[k].epoch))
  {
    var out := CleanPages(list, m.infos[k].epoch);
    forall x, y | 0 <= x < |out| && 0 <= y < |out[x].recs|
      ensures TightRec(m.infos[k].epoch, out[x].recs[y])
    {
      assert GoodRec(m.infos, m.extents, k, list[x], list[x].recs[y]);
    }
  }

  lemma ApplyTight(m: Mgr, a: Action)
    requires Inv(m) && Enabled(m, a) && Tight(m) && Patient(m, a)
    ensures Tight(Apply(m, a))
  {
    hide Tight;
    match a
    case Overwrite(create, cpu) => OverwriteTight(m, create, cpu);
    case TakeSnapshot => TakeTight(m);
    case DropSnapshot(epoch) => DropTight(m, epoch);
    case CleanerPass => CleanTight(m);
  }

  lemma OverwriteTight(m: Mgr, create: nat, cpu: nat)
    requires Inv(m) && Tight(m) && cpu < m.cpus && create <= m.epoch
    ensures Tight(Supersede(m, create, cpu))
  {
    hide TightPages, GoodPages, PendAll, Visible, Ids;
    var m' := Supersede(m, create, cpu);
    SupersedeLists(m, create, cpu);
    KeeperExact(m.infos, Extent(create, m.epoch));
    forall k, c | 0 <= k < |m'.infos| && 0 <= c < m'.cpus && m'.cleaning != Some(m'.infos[k].epoch)
      ensures TightPages(m'.infos[k].epoch, m'.infos[k].lists[c])
    {
      if m'.infos[k].lists[c] != m.infos[k].lists[c] {
        TightAppend(m.infos[k].lists[c], m.infos[k].epoch, Rec(|m.extents|, m.epoch, false));
      }
    }
  }

  lemma TakeTight(m: Mgr)
    requires Inv(m) && Tight(m)
    ensures Tight(Create(m))
  {
    hide GoodPages, PendAll, Visible, Ids;
    var m' := Create(m);
    forall k, c | 0 <= k < |m'.infos| && 0 <= c < m'.cpus && m'.cleaning != Some(m'.infos[k].epoch)
      ensures TightPages(m'.infos[k].epoch, m'.infos[k].lists[c])
    {
    }
  }

  lemma DropTight(m: Mgr, epoch: nat)
    requires Inv(m) && Tight(m) && m.cleaning == None
    ensures Tight(Delete(m, epoch))
  {
    hide TightPages, GoodPages, PendAll, Visible, Ids, FindFrom, LinkLists, PendLists;
    var k := FindFrom(m.infos, epoch);
    if k < |m.infos| && m.infos[k].epoch == epoch {
      var m' := Delete(m, epoch);
      if k + 1 < |m.infos| {
        LinkedShape(m, k);
      }
      forall j, c | 0 <= j < |m'.infos| && 0 <= c < m'.cpus && m'.cleaning != Some(m'.infos[j].epoch)
        ensures TightPages(m'.infos[j].epoch, m'.infos[j].lists[c])
      {
      }
    }
  }

  lemma CleanTight(m: Mgr)
    requires Inv(m) && Tight(m) && CleanerSafe(m)
    ensures Tight(Clean(m))
  {
    hide TightPages, GoodPages, PendAll, Visible, Ids, FindFrom, CleanLists, PendLists, CleanPages;
    if m.cleaning.Some? {
      var k := FindFrom(m.infos, m.cleaning.value);
      var m' := Clean(m);
      CleanedShape(m, k);
      forall j, c | 0 <= j < |m'.infos| && 0 <= c < m'.cpus
        ensures TightPages(m'.infos[j].epoch, m'.infos[j].lists[c])
      {
        if j == k {
          TightClean(m, k, m.infos[k].lists[c]);
        }
      }
    }
  }

  lemma {:induction false} RunTight(m: Mgr, run: seq<Action>)
    requires Inv(m) && Tight(m) && Legal(m, run) && AllPatient(m, run)
    ensures Tight(Run(m, run)) && Inv(Run(m, run))
    decreases |run|
  {
    hide Inv, Tight;
    if run != [] {
      ApplyInv(m, run[0]);
      ApplyTight(m, run[0]);
      RunTight(Apply(m, run[0]), run[1..]);
    }
  }

  /** Whenever the cleaner is idle, an extent was freed if and only if no live snapshot sees it. */
  lemma FreedExactly(m: Mgr, id: nat)
    requires Inv(m) && Tight(m) && m.cleaning == None && id < |m.extents|
    ensures m.freed[id] == 1 <==> !Visible(m.infos, m.extents[id])
  {
    hide PendAll, Ids;
    IdsOnce(|m.extents|, id);
    assert (m.freed + PendAll(m.infos))[id] == Ids(|m.extents|)[id];
    if m.freed[id] == 0 {
      var k, c, x, y := PendAllHas(m.infos, id);
      var list := m.infos[k].lists[c];
      assert GoodPages(m.infos, m.extents, k, list);
      assert GoodRec(m.infos, m.extents, k, list[x], list[x].recs[y]);
      assert TightPages(m.infos[k].epoch, list);
      assert TightRec(m.infos[k].epoch, list[x].recs[y]);
      assert Sees(m.infos[k].epoch, m.extents[id]);
    }
  }

  /** Over every run that lets the cleaner finish between deletions. */
  lemma SnapshotsFreeExactly(cpus: nat, epoch: nat, run: seq<Action>, id: nat)
    requires Legal(Mounted(cpus, epoch), run) && AllPatient(Mounted(cpus, epoch), run)
    requires var m := Run(Mounted(cpus, epoch), run); m.cleaning == None && id < |m.extents|
    ensures var m := Run(Mounted(cpus, epoch), run); m.freed[id] == 1 <==> !Visible(m.infos, m.extents[id])
  {
    hide Visible, PendAll, Ids, GoodPages;
    EmptyHolds();
    RunTight(Mounted(cpus, epoch), run);
    FreedExactly(Run(Mounted(cpus, epoch), run), id);
  }

  // ----- the order of the pages -----

  /** Page epochs never fall along a list and end at the snapshot's own epoch. */
  predicate Rising(list: seq<Page>, epoch: nat) {
    && list != []
    && Last(list).epoch == epoch
    && (forall i :: 0 <= i < |list| ==> list[i].epoch <= epoch)
    && (forall i, j :: 0 <= i < j < |list| ==> list[i].epoch <= list[j].epoch)
  }

  /** The pages of snapshot k stem from epochs after the snapshot before it. */
  predicate Band(infos: seq<Info>, k: nat, list: seq<Page>)
    requires k < |infos|
  {
    Rising(list, infos[k].epoch) && (k > 0 ==> forall i :: 0 <= i < |list| ==> infos[k - 1].epoch < list[i].epoch)
  }

  ghost predicate Banded(m: Mgr) {
    forall k, c :: 0 <= k < |m.infos| && 0 <= c < |m.infos[k].lists| ==> Band(m.infos, k, m.infos[k].lists[c])
  }

  lemma BandLink(m: Mgr, k: nat, infos: seq<Info>, a: seq<Page>, b: seq<Page>)
    requires Shape(m) && k + 1 < |m.infos| && DropsOne(m.infos, infos, k) && Band(m.infos, k, a)
    requires Band(m.infos, k + 1, b)
    ensures Band(infos, k, a + b)
  {
    assert infos[k].epoch == m.infos[k + 1].epoch && (k > 0 ==> infos[k - 1].epoch == m.infos[k - 1].epoch);
    assert Last(a + b) == Last(b);
  }

  lemma BandKeep(a: seq<Info>, j: nat, b: seq<Info>, k: nat, list: seq<Page>)
    requires j < |a| && k < |b| && Band(a, j, list) && b[k].epoch == a[j].epoch
    requires k > 0 ==> j > 0 && b[k - 1].epoch <= a[j - 1].epoch
    ensures Band(b, k, list)
  {}

  lemma BandAppend(infos: seq<Info>, k: nat, list: seq<Page>, r: Rec)
    requires Ordered(infos) && k < |infos| && Band(infos, k, list)
    ensures Band(infos, k, AppendRec(list, infos[k].epoch, r))
  {}

  lemma BandClean(infos: seq<Info>, k: nat, list: seq<Page>, epoch: nat)
    requires k < |infos| && Band(infos, k, list)
    ensures Band(infos, k, CleanPages(list, epoch))
  {
    hide CleanRecs;
  }

  lemma ApplyBanded(m: Mgr, a: Action)
    requires Inv(m) && Banded(m) && Enabled(m, a)
    ensures Banded(Apply(m, a))
  {
    hide Banded;
    match a
    case Overwrite(create, cpu) => OverwriteBanded(m, create, cpu);
    case TakeSnapshot => TakeBanded(m);
    case DropSnapshot(epoch) => DropBanded(m, epoch);
    case CleanerPass => CleanBanded(m);
  }

  lemma OverwriteBanded(m: Mgr, create: nat, cpu: nat)
    requires Inv(m) && Banded(m) && cpu < m.cpus && create <= m.epoch
    ensures Banded(Supersede(m, create, cpu))
  {
    hide Band, GoodPages, PendAll, Visible, Ids, AppendRec, FindFrom;
    var m' := Supersede(m, create, cpu);
    SupersedeLists(m, create, cpu);
    forall k, c | 0 <= k < |m'.infos| && 0 <= c < |m'.infos[k].lists|
      ensures Band(m'.infos, k, m'.infos[k].lists[c])
    {
      var list := m.infos[k].lists[c];
      if m'.infos[k].lists[c] != list {
        BandAppend(m.infos, k, list, Rec(|m.extents|, m.epoch, false));
      }
      BandKeep(m.infos, k, m'.infos, k, m'.infos[k].lists[c]);
    }
  }

  lemma TakeBanded(m: Mgr)
    requires Inv(m) && Banded(m)
    ensures Banded(Create(m))
  {
    hide Band, GoodPages, PendAll, Visible, Ids;
    var m' := Create(m);
    forall k, c | 0 <= k < |m'.infos| && 0 <= c < |m'.infos[k].lists|
      ensures Band(m'.infos, k, m'.infos[k].lists[c])
    {
      if k < |m.infos| {
        BandKeep(m.infos, k, m'.infos, k, m.infos[k].lists[c]);
      } else {
        BandNew(m'.infos, k);
      }
    }
  }

  lemma BandNew(infos: seq<Info>, k: nat)
    requires Ordered(infos) && k < |infos|
    ensures Band(infos, k, [Page(infos[k].epoch, [])])
  {}

  lemma DropBanded(m: Mgr, epoch: nat)
    requires Inv(m) && Banded(m)
    ensures Banded(Delete(m, epoch))
  {
    hide Band, GoodPages, PendAll, Visible, Ids, FindFrom, LinkLists, PendLists;
    var k := FindFrom(m.infos, epoch);
    if k < |m.infos| && m.infos[k].epoch == epoch {
      var m' := Delete(m, epoch);
      if k + 1 < |m.infos| {
        LinkedShape(m, k);
        LinkedBand(m, k);
      }
      forall j, c | 0 <= j < |m'.infos| && 0 <= c < |m'.infos[j].lists|
        ensures Band(m'.infos, j, m'.infos[j].lists[c])
      {
        if j != k {
          BandKeep(m.infos, Skip(k, j), m'.infos, j, m'.infos[j].lists[c]);
        }
      }
    }
  }

  lemma LinkedBand(m: Mgr, k: nat)
    requires Shape(m) && Banded(m) && k + 1 < |m.infos|
    ensures var infos := Linked(m, k);
            k < |infos| && forall c :: 0 <= c < |infos[k].lists| ==> Band(infos, k, infos[k].lists[c])
  {
    hide Band;
    var infos := Linked(m, k);
    LinkedShape(m, k);
    forall c | 0 <= c < |infos[k].lists|
      ensures Band(infos, k, infos[k].lists[c])
    {
      BandLink(m, k, infos, m.infos[k].lists[c], m.infos[k + 1].lists[c]);
    }
  }

  lemma CleanBanded(m: Mgr)
    requires Inv(m) && Banded(m) && CleanerSafe(m)
    ensures Banded(Clean(m))
  {
    hide Band, GoodPages, PendAll, Visible, Ids, FindFrom, CleanLists, PendLists, CleanPages;
    if m.cleaning.Some? {
      var k := FindFrom(m.infos, m.cleaning.value);
      var m' := Clean(m);
      CleanedShape(m, k);
      forall j, c | 0 <= j < |m'.infos| && 0 <= c < |m'.infos[j].lists|
        ensures Band(m'.infos, j, m'.infos[j].lists[c])
      {
        BandClean(m.infos, j, m.infos[j].lists[c], m.infos[k].epoch);
        BandKeep(m.infos, j, m'.infos, j, m'.infos[j].lists[c]);
      }
    }
  }

  /** In every reachable state the inherited pages of a list come first, so the cleaner may stop at the
      first page of the snapshot's own epoch. */
  lemma {:induction false} RunBanded(m: Mgr, run: seq<Action>)
    requires Inv(m) && Banded(m) && Legal(m, run)
    ensures Banded(Run(m, run)) && Inv(Run(m, run))
    decreases |run|
  {
    hide Inv, Banded;
    if run != [] {
      ApplyInv(m, run[0]);
      ApplyBanded(m, run[0]);
      RunBanded(Apply(m, run[0]), run[1..]);
    }
  }

  // ----- the cleaner's pointer -----

  lemma FoundAt(infos: seq<Info>, k: nat)
    requires Ordered(infos) && k < |infos|
    ensures FindFrom(infos, infos[k].epoch) == k
  {}

  /** A deletion leaves the cleaner's pointer dangling if and only if it removes the newest snapshot
      while the cleaner still has that snapshot to clean. */
  lemma PointerSafeIff(m: Mgr, epoch: nat)
    requires Shape(m) && CleanerSafe(m)
    ensures CleanerSafe(Delete(m, epoch)) <==> !(IsLast(m, epoch) && m.cleaning == Some(epoch))
  {
    hide FindFrom, LinkLists, PendLists;
    var (k, m') := (FindFrom(m.infos, epoch), Delete(m, epoch));
    if k < |m.infos| && m.infos[k].epoch == epoch {
      if k + 1 < |m.infos| {
        LinkedShape(m, k);
        FoundAt(m'.infos, k);
      } else if m.cleaning.Some? {
        var j := FindFrom(m.infos, m.cleaning.value);
        if j < k {
          FoundAt(m'.infos, j);
        }
      }
    }
  }

  // ----- two idle snapshots -----

  function IdleInfo(epoch: nat): Info {
    Info(epoch, [[Page(epoch, [])]])
  }

  function IdleState(epoch: nat, infos: seq<Info>, cleaning: Option<nat>): Mgr {
    Mgr(1, epoch, infos, cleaning, [], multiset{})
  }

  lemma TakeIdle(epoch: nat, infos: seq<Info>)
    ensures Create(IdleState(epoch, infos, None)) == IdleState(epoch + 1, infos + [IdleInfo(epoch)], None)
  {
    assert NewLists(1, epoch) == [[Page(epoch, [])]];
  }

  lemma DropIdle(m: Mgr, list: seq<Page>, epoch: nat, next: nat, rest: seq<Info>)
    requires m == IdleState(m.epoch, [Info(epoch, [list]), IdleInfo(next)] + rest, None) && Shape(m)
    ensures Delete(m, epoch) == IdleState(m.epoch, [Info(next, [list + [Page(next, [])]])] + rest, Some(next))
  {
    FoundAt(m.infos, 0);
    assert LinkLists([list], [[Page(next, [])]]) == [list + [Page(next, [])]];
    assert m.infos[..0] == [] && m.infos[2..] == rest;
  }

  lemma CleanIdle(now: nat, epoch: nat, list: seq<Page>, rest: seq<Info>)
    requires forall i :: 0 <= i < |list| ==> list[i].recs == []
    requires Shape(IdleState(now, [Info(epoch, [list])] + rest, Some(epoch)))
    ensures CleanerSafe(IdleState(now, [Info(epoch, [list])] + rest, Some(epoch)))
    ensures Clean(IdleState(now, [Info(epoch, [list])] + rest, Some(epoch))) ==
              IdleState(now, [Info(epoch, [list])] + rest, None)
  {
    hide PendLists;
    var m := IdleState(now, [Info(epoch, [list])] + rest, Some(epoch));
    FoundAt(m.infos, 0);
    assert CleanPages(list, epoch) == list;
    assert CleanLists([list], epoch) == [list];
  }

  lemma StepThen(m: Mgr, a: Action, m': Mgr, rest: seq<Action>)
    requires Enabled(m, a) && Apply(m, a) == m' && Legal(m', rest)
    ensures Legal(m, [a] + rest) && Run(m, [a] + rest) == Run(m', rest)
  {
    assert ([a] + rest)[1..] == rest;
  }

  lemma TakeStep(m: Mgr, next: Mgr, rest: seq<Action>)
    requires m == IdleState(m.epoch, m.infos, None) && Shape(m) && Legal(next, rest)
    requires next == IdleState(m.epoch + 1, m.infos + [IdleInfo(m.epoch)], None)
    ensures Legal(m, [TakeSnapshot] + rest) && Run(m, [TakeSnapshot] + rest) == Run(next, rest)
  {
    hide Create, Legal, Run, Shape;
    TakeIdle(m.epoch, m.infos);
    StepThen(m, TakeSnapshot, next, rest);
  }

  lemma ShapeMore(m: Mgr)
    requires Shape(m) && m.epoch > 0
    ensures Shape(Create(m))
  {}

  lemma IdleShapes()
    ensures Shape(IdleState(1, [], None)) && Shape(IdleState(2, [IdleInfo(1)], None))
    ensures Shape(IdleState(3, [IdleInfo(1), IdleInfo(2)], None))
  {
    assert Shape(IdleState(1, [], None));
    hide Shape, Create;
    ShapeMore(IdleState(1, [], None));
    TakeIdle(1, []);
    assert [] + [IdleInfo(1)] == [IdleInfo(1)];
    ShapeMore(IdleState(2, [IdleInfo(1)], None));
    TakeIdle(2, [IdleInfo(1)]);
    assert [IdleInfo(1)] + [IdleInfo(2)] == [IdleInfo(1), IdleInfo(2)];
  }

  lemma ThreeIdle(rest: seq<Action>)
    requires Legal(Idle3, rest)
    ensures var run := [TakeSnapshot] + ([TakeSnapshot] + ([TakeSnapshot] + rest));
            && Legal(Mounted(1, 1), run)
            && Run(Mounted(1, 1), run) == Run(Idle3, rest)
  {
    hide Legal, Run, Shape;
    var m0 := IdleState(1, [], None);
    var m1 := IdleState(2, [IdleInfo(1)], None);
    var m2 := IdleState(3, [IdleInfo(1), IdleInfo(2)], None);
    IdleShapes();
    assert m2.infos + [IdleInfo(3)] == Idle3.infos && m1.infos + [IdleInfo(2)] == m2.infos
           && m0.infos + [IdleInfo(1)] == m1.infos;
    TakeStep(m2, Idle3, rest);
    TakeStep(m1, m2, [TakeSnapshot] + rest);
    TakeStep(m0, m1, [TakeSnapshot] + ([TakeSnapshot] + rest));
  }

  const Idle3 := IdleState(4, [IdleInfo(1), IdleInfo(2), IdleInfo(3)], None)
  const Idle2 := IdleState(4, [Info(2, [[Page(1, []), Page(2, [])]]), IdleInfo(3)], Some(2))
  const Idle1 := IdleState(4, [Info(3, [[Page(1, []), Page(2, []), Page(3, [])]])], Some(3))

  lemma DropFirst(rest: seq<Action>)
    requires Legal(Idle2, rest)
    ensures Legal(Idle3, [DropSnapshot(1)] + rest) && Run(Idle3, [DropSnapshot(1)] + rest) == Run(Idle2, rest)
  {
    hide Delete, Clean, Legal, Run;
    var (p1, p2) := (Page(1, []), Page(2, []));
    assert Idle3.infos == [Info(1, [[p1]]), IdleInfo(2)] + [IdleInfo(3)] && [p1] + [p2] == [p1, p2];
    assert [Info(2, [[p1, p2]])] + [IdleInfo(3)] == Idle2.infos;
    DropIdle(Idle3, [p1], 1, 2, [IdleInfo(3)]);
    StepThen(Idle3, DropSnapshot(1), Idle2, rest);
  }

  lemma CleanSecond(rest: seq<Action>)
    requires Legal(Idle2.(cleaning := None), rest)
    ensures Legal(Idle2, [CleanerPass] + rest)
    ensures Run(Idle2, [CleanerPass] + rest) == Run(Idle2.(cleaning := None), rest)
  {
    hide Delete, Clean, Legal, Run;
    var (p1, p2) := (Page(1, []), Page(2, []));
    assert [Info(2, [[p1, p2]])] + [IdleInfo(3)] == Idle2.infos;
    CleanIdle(4, 2, [p1, p2], [IdleInfo(3)]);
    FoundAt(Idle2.infos, 0);
    StepThen(Idle2, CleanerPass, Idle2.(cleaning := None), rest);
  }

  lemma DropSecond(rest: seq<Action>)
    requires Legal(Idle1, rest)
    ensures var m := Idle2.(cleaning := None);
            Legal(m, [DropSnapshot(2)] + rest) && Run(m, [DropSnapshot(2)] + rest) == Run(Idle1, rest)
  {
    hide Delete, Clean, Legal, Run;
    var (p1, p2, p3) := (Page(1, []), Page(2, []), Page(3, []));
    var m := Idle2.(cleaning := None);
    assert m.infos == [Info(2, [[p1, p2]]), IdleInfo(3)] + [] && [p1, p2] + [p3] == [p1, p2, p3];
    assert [Info(3, [[p1, p2, p3]])] + [] == Idle1.infos;
    DropIdle(m, [p1, p2], 2, 3, []);
    StepThen(m, DropSnapshot(2), Idle1, rest);
  }

  /** Two idle snapshots deleted oldest first, the cleaner finishing in between, leave the third one's
      list unreadable to the cleaner. */
  lemma IdleSnapshotsStray()
    ensures exists run ::
              Legal(Mounted(1, 1), run) && AllSnapshotActions(run) && !Enabled(Run(Mounted(1, 1), run), CleanerPass)
  {
    hide Create, Delete, Clean, Run;
    DropSecond([]);
    CleanSecond([DropSnapshot(2)] + []);
    var rest := [CleanerPass] + ([DropSnapshot(2)] + []);
    DropFirst(rest);
    rest := [DropSnapshot(1)] + rest;
    ThreeIdle(rest);
    RunNothing(Idle1);
    var run := [TakeSnapshot] + ([TakeSnapshot] + ([TakeSnapshot] + rest));
    FoundAt(Idle1.infos, 0);
    assert Idle1.infos[0].lists[0][1].recs == [] && !CleanClear(Idle1.infos[0].lists[0], 3);
  }

  lemma RunNothing(m: Mgr)
    ensures Legal(m, []) && Run(m, []) == m
  {}

  /** No data is touched. */
  predicate AllSnapshotActions(run: seq<Action>) {
    forall i :: 0 <= i < |run| ==> !run[i].Overwrite?
  }
}
