/** What the operations on a regular file are for: which pages a write maps and to which blocks, what a truncation
    leaves, and that nothing else changes any page (file.c, inode.c, log.c, gc.c, rebuild.c). The log, its entries and
    the steps of an operation do not occur in these laws. */
module FileShows {
  import opened Options
  import opened FileLog
  import opened FileIndex
  import opened FileCounts
  import opened FileAssign
  import opened FileChunks
  import opened FileTheorems
  import opened FileMounts
  import opened FileCollect
  import opened FileRuns

  /** A file as its readers and the allocator see it: its size, the block of each page, the blocks given back. */
  datatype View = View(size: nat, blocks: map<nat, nat>, freed: multiset<nat>)

  function BlocksOf(f: File): map<nat, nat> {
    map p | p in f.tree && f.tree[p] < |f.log| :: BlockOf(f.log[f.tree[p]], p)
  }

  function ViewOf(f: File): View {
    View(f.size, BlocksOf(f), f.freed)
  }

  /** The granted blocks, one after the other. */
  function BlockList(grants: seq<Grant>): (bs: seq<nat>)
    ensures |bs| == Sum(grants)
  {
    if grants == [] then []
    else
      var g := grants[|grants| - 1];
      BlockList(grants[..|grants| - 1]) + seq(g.num, j requires 0 <= j => g.block + j)
  }

  /** The blocks of pages lo..hi. */
  function BlocksIn(blocks: map<nat, nat>, lo: nat, hi: nat): multiset<nat>
    decreases hi
  {
    if hi <= lo then multiset{}
    else BlocksIn(blocks, lo, hi - 1) + if hi - 1 in blocks then multiset{blocks[hi - 1]} else multiset{}
  }

  // ----- the laws -----

  /** A write puts the granted blocks, in order, under the pages its bytes lie in, and gives back what these had. */
  function WriteView(v: View, pos: nat, len: nat, grants: seq<Grant>): View
    requires Grantable(pos, len, grants)
  {
    var (first, end) := (pos / PAGE, pos / PAGE + Touched(pos, len));
    View(Max(v.size, pos + len),
         map p | p in v.blocks.Keys + PageSet(first, end) ::
           if first <= p < end then BlockList(grants)[p - first] else v.blocks[p],
         v.freed + BlocksIn(v.blocks, first, end))
  }

  /** A truncation keeps the pages below the new end and gives back the others. */
  function TruncateView(v: View, newSize: nat): View {
    View(newSize, map p | p in v.blocks && p < Pages(newSize) :: v.blocks[p],
         v.freed + BlocksIn(v.blocks, Pages(newSize), Pages(v.size)))
  }

  // ----- blocks and pages -----

  lemma {:induction false} BlockListAt(grants: seq<Grant>, k: nat, d: nat)
    requires k < |grants| && d < grants[k].num
    ensures Sum(grants[..k]) + d < Sum(grants) && BlockList(grants)[Sum(grants[..k]) + d] == grants[k].block + d
    decreases |grants|
  {
    hide BlockList, Sum;
    var n := |grants| - 1;
    SumStep(grants, k);
    SumPrefix(grants, k + 1);
    BlockListLast(grants);
    if k < n {
      BlockListAt(grants[..n], k, d);
      assert grants[..n][..k] == grants[..k];
    } else {
      assert grants[..k + 1] == grants;
    }
  }

  lemma BlockListLast(grants: seq<Grant>)
    requires grants != []
    ensures var (n, g) := (|grants| - 1, grants[|grants| - 1]);
            BlockList(grants) == BlockList(grants[..n]) + seq(g.num, j requires 0 <= j => g.block + j)
  {}

  lemma {:induction false} RefsBlocks(f: File, lo: nat, hi: nat)
    ensures Refs(f.log, f.tree, lo, hi) == BlocksIn(BlocksOf(f), lo, hi)
    decreases hi
  {
    hide Ref, BlocksOf;
    if lo < hi {
      RefsBlocks(f, lo, hi - 1);
      RefBlock(f, hi - 1);
    }
  }

  lemma RefBlock(f: File, p: nat)
    ensures Ref(f.log, f.tree, p) == if p in BlocksOf(f) then multiset{BlocksOf(f)[p]} else multiset{}
  {}

  // ----- writes -----

  /** Chunk j of a write has its place behind the log of f. */
  predicate ChunkIn(f: File, g: File, page: nat, grants: seq<Grant>, j: nat) {
    j < |grants| && |g.log| == |f.log| + |grants| &&
    var e := g.log[|f.log| + j];
    e.Write? && e.pgoff == page + Sum(grants[..j]) && e.num == grants[j].num && e.block == grants[j].block
  }

  predicate PageIs(f: File, g: File, page: nat, grants: seq<Grant>, k: nat, p: nat)
    requires k <= |grants|
  {
    if page <= p < page + Sum(grants[..k])
    then p in g.tree && g.tree[p] < |g.log| && p - page < Sum(grants)
         && BlockOf(g.log[g.tree[p]], p) == BlockList(grants)[p - page]
    else At(g.tree, p) == At(f.tree, p)
  }

  /** The first k chunks are assigned. */
  ghost predicate Stage(f: File, g: File, page: nat, grants: seq<Grant>, k: nat) {
    && k <= |grants| && |g.log| == |f.log| + |grants|
    && (forall i :: 0 <= i < |f.log| ==> Alike(f.log[i], g.log[i]))
    && (forall j :: 0 <= j < |grants| ==> ChunkIn(f, g, page, grants, j))
    && (forall p: nat :: PageIs(f, g, page, grants, k, p))
    && g.freed == f.freed + Refs(f.log, f.tree, page, page + Sum(grants[..k]))
  }

  /** Pages no chunk has reached refer to what they did before. */
  lemma {:induction false} RefsBefore(f: File, g: File, lo: nat, hi: nat)
    requires |f.log| <= |g.log| && forall i :: 0 <= i < |f.log| ==> Alike(f.log[i], g.log[i])
    requires forall p :: p in f.tree ==> f.tree[p] < |f.log|
    requires AgreeOn(f.tree, g.tree, lo, hi)
    ensures Refs(f.log, f.tree, lo, hi) == Refs(g.log, g.tree, lo, hi)
    decreases hi
  {
    hide Ref, Alike, Refs;
    RefsLast(f.log, f.tree, lo, hi);
    RefsLast(g.log, g.tree, lo, hi);
    if lo < hi {
      RefsBefore(f, g, lo, hi - 1);
      RefBefore(f, g, hi - 1);
    }
  }

  lemma RefBefore(f: File, g: File, p: nat)
    requires |f.log| <= |g.log| && forall i :: 0 <= i < |f.log| ==> Alike(f.log[i], g.log[i])
    requires p in f.tree ==> f.tree[p] < |f.log|
    requires At(f.tree, p) == At(g.tree, p)
    ensures Ref(f.log, f.tree, p) == Ref(g.log, g.tree, p)
  {
    if p in f.tree {
      assert Alike(f.log[f.tree[p]], g.log[f.tree[p]]);
    }
  }

  lemma StageStep(f: File, g: File, page: nat, grants: seq<Grant>, k: nat)
    requires Stage(f, g, page, grants, k) && k < |grants|
    requires forall p :: p in f.tree ==> f.tree[p] < |f.log|
    ensures ChunkIn(f, g, page, grants, k) && Stage(f, Assign(g, |f.log| + k), page, grants, k + 1)
  {
    hide Sum, Refs, BlockList, Count, Overlay, Mark;
    assert ChunkIn(f, g, page, grants, k);
    var (i, next) := (|f.log| + k, k + 1);
    var (e, h) := (g.log[i], Assign(g, i));
    var (lo, hi) := (e.pgoff, e.pgoff + e.num);
    SumStep(grants, k);
    MarkAlike(g.log, g.tree, lo, hi);
    assert AllAlike(g.log, h.log);
    forall p: nat
      ensures PageIs(f, h, page, grants, next, p)
    {
      assert PageIs(f, g, page, grants, k, p);
      OverlayAt(g.tree, lo, e.num, i, p);
      if lo <= p < hi {
        BlockListAt(grants, k, p - lo);
        assert Alike(g.log[i], h.log[i]);
      } else if p in g.tree && g.tree[p] < |g.log| {
        assert Alike(g.log[g.tree[p]], h.log[g.tree[p]]);
      }
    }
    StageFreed(f, g, page, grants, k, lo, hi);
    forall j | 0 <= j < |grants|
      ensures ChunkIn(f, h, page, grants, j)
    {
      assert ChunkIn(f, g, page, grants, j) && Alike(g.log[|f.log| + j], h.log[|f.log| + j]);
    }
    forall j | 0 <= j < |f.log|
      ensures Alike(f.log[j], h.log[j])
    {
      assert Alike(f.log[j], g.log[j]) && Alike(g.log[j], h.log[j]);
    }
  }

  lemma StageFreed(f: File, g: File, page: nat, grants: seq<Grant>, k: nat, lo: nat, hi: nat)
    requires Stage(f, g, page, grants, k) && k < |grants|
    requires forall p :: p in f.tree ==> f.tree[p] < |f.log|
    requires lo == page + Sum(grants[..k]) && hi == page + Sum(grants[..k + 1]) && lo <= hi
    ensures g.freed + Refs(g.log, g.tree, lo, hi) == f.freed + Refs(f.log, f.tree, page, hi)
  {
    hide Sum, Refs, BlockList;
    forall p: nat | lo <= p < hi
      ensures At(f.tree, p) == At(g.tree, p)
    {
      assert PageIs(f, g, page, grants, k, p);
    }
    RefsBefore(f, g, lo, hi);
    RefsSplit(f.log, f.tree, page, lo, hi);
  }

  lemma {:induction false} AssignedStage(f: File, g: File, page: nat, grants: seq<Grant>, k: nat)
    requires Stage(f, g, page, grants, k)
    requires forall p :: p in f.tree ==> f.tree[p] < |f.log|
    ensures forall i :: |f.log| <= i < |g.log| ==> g.log[i].Write?
    ensures Stage(f, AssignAll(g, |f.log| + k), page, grants, |grants|)
    decreases |grants| - k
  {
    hide Stage, Assign;
    ChunksWrite(f, g, page, grants, k);
    if k < |grants| {
      StageStep(f, g, page, grants, k);
      AssignedStage(f, Assign(g, |f.log| + k), page, grants, k + 1);
    }
  }

  lemma ChunksWrite(f: File, g: File, page: nat, grants: seq<Grant>, k: nat)
    requires Stage(f, g, page, grants, k)
    ensures k <= |grants| && |g.log| == |f.log| + |grants|
    ensures forall i :: |f.log| <= i < |g.log| ==> g.log[i].Write?
  {
    forall i | |f.log| <= i < |g.log|
      ensures g.log[i].Write?
    {
      assert ChunkIn(f, g, page, grants, i - |f.log|);
    }
  }

  /** A copy-on-write write does what WriteView says. */
  lemma WriteShows(f: File, pos: nat, len: nat, grants: seq<Grant>)
    requires Inv(f) && Grantable(pos, len, grants)
    ensures ViewOf(CowWrite(f, pos, len, grants)) == WriteView(ViewOf(f), pos, len, grants)
  {
    hide Inv, Stage, AssignAll, Refs, BlocksIn, Touched, Chunks, BlockList, Sum;
    var (page, n) := (pos / PAGE, |grants|);
    var g := f.(log := f.log + Chunks(page, pos + len, f.size, f.trans, grants));
    StageStarts(f, pos, len, grants);
    AssignedStage(f, g, page, grants, 0);
    var h := CowWrite(f, pos, len, grants);
    assert grants[..n] == grants;
    StageBlocks(f, AssignAll(g, |f.log|), page, grants);
    RefsBlocks(f, page, page + Touched(pos, len));
  }

  lemma StageStarts(f: File, pos: nat, len: nat, grants: seq<Grant>)
    requires Inv(f) && Grantable(pos, len, grants)
    ensures var g := f.(log := f.log + Chunks(pos / PAGE, pos + len, f.size, f.trans, grants));
            Stage(f, g, pos / PAGE, grants, 0)
    ensures forall p :: p in f.tree ==> f.tree[p] < |f.log|
  {
    hide Inv, Chunks, Refs, BlockList;
    var page := pos / PAGE;
    var g := f.(log := f.log + Chunks(page, pos + len, f.size, f.trans, grants));
    forall j | 0 <= j < |grants|
      ensures ChunkIn(f, g, page, grants, j)
    {
      ChunkAt(page, pos + len, f.size, f.trans, grants, j);
    }
    RefsLast(f.log, f.tree, page, page);
    MappedInside(f);
  }

  lemma MappedInside(f: File)
    requires Inv(f)
    ensures forall p :: p in f.tree ==> f.tree[p] < |f.log|
  {
    hide Partial;
    forall p | p in f.tree
      ensures f.tree[p] < |f.log|
    {
      Applied(f, |f.log|, Pages(f.size), p);
    }
  }

  lemma StageBlocks(f: File, h: File, page: nat, grants: seq<Grant>)
    requires Stage(f, h, page, grants, |grants|) && forall p :: p in f.tree ==> f.tree[p] < |f.log|
    ensures var end := page + Sum(grants);
            && h.freed == f.freed + Refs(f.log, f.tree, page, end)
            && BlocksOf(h) == map p | p in BlocksOf(f).Keys + PageSet(page, end) ::
                                if page <= p < end then BlockList(grants)[p - page] else BlocksOf(f)[p]
  {
    hide Sum, BlockList, Refs, Stage, BlocksOf;
    var end := page + Sum(grants);
    assert grants[..|grants|] == grants;
    var want := map p | p in BlocksOf(f).Keys + PageSet(page, end) ::
                  if page <= p < end then BlockList(grants)[p - page] else BlocksOf(f)[p];
    forall p: nat
      ensures At(BlocksOf(h), p) == At(want, p)
    {
      StageBlock(f, h, page, grants, p);
    }
    SameMap(BlocksOf(h), want);
    StageFreedAll(f, h, page, grants);
  }

  lemma StageFreedAll(f: File, h: File, page: nat, grants: seq<Grant>)
    requires Stage(f, h, page, grants, |grants|)
    ensures h.freed == f.freed + Refs(f.log, f.tree, page, page + Sum(grants))
  {
    assert grants[..|grants|] == grants;
  }

  lemma StageBlock(f: File, h: File, page: nat, grants: seq<Grant>, p: nat)
    requires Stage(f, h, page, grants, |grants|) && forall p :: p in f.tree ==> f.tree[p] < |f.log|
    ensures At(BlocksOf(h), p) ==
              if page <= p < page + Sum(grants) then Some(BlockList(grants)[p - page]) else At(BlocksOf(f), p)
  {
    hide Sum, BlockList, Refs;
    assert grants[..|grants|] == grants;
    assert PageIs(f, h, page, grants, |grants|, p);
    if p in f.tree {
      assert Alike(f.log[f.tree[p]], h.log[f.tree[p]]);
    }
  }

  lemma SameMap(a: map<nat, nat>, b: map<nat, nat>)
    requires forall p: nat :: At(a, p) == At(b, p)
    ensures a == b
  {
    assert forall p :: p in a ==> At(a, p) == At(b, p);
    assert forall p :: p in b ==> At(a, p) == At(b, p);
  }

  // ----- truncations and the rest -----

  /** Entries that name the same blocks for the same pages. */
  predicate SamePlace(a: Entry, b: Entry) {
    a.Write? == b.Write? && (a.Write? ==> a.pgoff == b.pgoff && a.num == b.num && a.block == b.block)
  }

  predicate Places(a: seq<Entry>, b: seq<Entry>) {
    |a| <= |b| && forall i :: 0 <= i < |a| ==> SamePlace(a[i], b[i])
  }

  lemma PlacesBlock(f: File, h: File, p: nat)
    requires Places(f.log, h.log) && (p in f.tree ==> f.tree[p] < |f.log|) && At(h.tree, p) == At(f.tree, p)
    ensures At(BlocksOf(h), p) == At(BlocksOf(f), p)
  {
    if p in f.tree {
      assert SamePlace(f.log[f.tree[p]], h.log[f.tree[p]]);
    }
  }

  lemma KillPlaces(log: seq<Entry>, last: Option<nat>, e: Entry)
    ensures Places(log, Kill(log, last) + [e])
  {}

  lemma MarkPlaces(a: seq<Entry>, b: seq<Entry>, tree: map<nat, nat>, lo: nat, hi: nat)
    requires Places(a, b)
    ensures Places(a, Mark(b, tree, lo, hi))
  {
    hide Count;
    assert forall i :: 0 <= i < |a| ==> SamePlace(a[i], b[i]);
  }

  /** Blocks of pages that stay where they are. */
  lemma PlacesRefs(f: File, h: File, lo: nat, hi: nat)
    requires Places(f.log, h.log) && h.tree == f.tree && forall p :: p in f.tree ==> f.tree[p] < |f.log|
    ensures Refs(h.log, h.tree, lo, hi) == BlocksIn(BlocksOf(f), lo, hi)
  {
    hide BlocksOf, Places;
    forall p: nat
      ensures At(BlocksOf(h), p) == At(BlocksOf(f), p)
    {
      PlacesBlock(f, h, p);
    }
    SameMap(BlocksOf(h), BlocksOf(f));
    RefsBlocks(h, lo, hi);
  }

  /** A change of size does what TruncateView says. */
  lemma TruncateCuts(f: File, newSize: nat)
    requires Inv(f)
    ensures ViewOf(Truncate(f, newSize)) == TruncateView(ViewOf(f), newSize)
  {
    hide Inv, Kill, Mark, Refs, BlocksOf, Places, Pages, BlocksIn;
    var (n, h) := (|f.log|, Truncate(f, newSize));
    var g := f.(log := Kill(f.log, f.lastAttr) + [Attr(true, false, newSize, f.trans)], lastAttr := Some(n),
                size := newSize, trans := f.trans + 1);
    KillPlaces(f.log, f.lastAttr, Attr(true, false, newSize, f.trans));
    MarkPlaces(f.log, g.log, g.tree, Pages(newSize), Pages(f.size));
    MappedInside(f);
    MappedUnder(f);
    PlacesRefs(f, g, Pages(newSize), Pages(f.size));
    if !DropsBlocks(f.size, newSize) {
      NoDropFits(f.size, newSize);
      NoBlocks(BlocksOf(f), Pages(newSize), Pages(f.size));
    }
    forall p: nat
      ensures At(BlocksOf(h), p) == if p < Pages(newSize) then At(BlocksOf(f), p) else None
    {
      BelowAt(g.tree, Pages(newSize), p);
      if p < Pages(newSize) {
        PlacesBlock(f, h, p);
      } else {
        NotMapped(h, p);
      }
    }
    SameMap(BlocksOf(h), map p | p in BlocksOf(f) && p < Pages(newSize) :: BlocksOf(f)[p]);
  }

  lemma NotMapped(h: File, p: nat)
    requires p !in h.tree
    ensures At(BlocksOf(h), p) == None
  {}

  lemma NoBlocks(blocks: map<nat, nat>, lo: nat, hi: nat)
    requires hi <= lo
    ensures BlocksIn(blocks, lo, hi) == multiset{}
  {}

  /** A change of attributes changes no page. */
  lemma SetAttrShows(f: File)
    requires Inv(f)
    ensures ViewOf(SetAttr(f)) == ViewOf(f)
  {
    hide Inv, Kill, BlocksOf;
    var e := Attr(false, false, f.size, f.trans);
    KillPlaces(f.log, f.lastAttr, e);
    MappedInside(f);
    forall p: nat
      ensures At(BlocksOf(SetAttr(f)), p) == At(BlocksOf(f), p)
    {
      PlacesBlock(f, SetAttr(f), p);
    }
    SameMap(BlocksOf(SetAttr(f)), BlocksOf(f));
  }

  /** Neither does a remount, whatever counter updates were lost, */
  lemma RemountShows(f: File, log: seq<Entry>)
    requires Inv(f) && AllLag(f.log, log)
    ensures ViewOf(Mounted(log)) == ViewOf(f)
  {
    hide Inv, BlocksOf, Mounted;
    var g := Mounted(log);
    RemountInv(f, log);
    MappedInside(f);
    LagPlaces(f.log, log);
    forall p: nat
      ensures At(BlocksOf(g), p) == At(BlocksOf(f), p)
    {
      PlacesBlock(f, g, p);
    }
    SameMap(BlocksOf(g), BlocksOf(f));
  }

  lemma LagPlaces(a: seq<Entry>, b: seq<Entry>)
    requires AllLag(a, b)
    ensures Places(a, b) && Mounted(b).log == b
  {
    hide Rebuilt, RebuiltSize, LastAttrOf, Granted, Refs;
    assert forall i :: 0 <= i < |a| ==> Lags(a[i], b[i]);
  }

  /** nor a collection. Its entries' blocks, freed before, leave the account. */
  lemma CollectShows(f: File, drop: set<nat>, moved: nat)
    requires Inv(f) && Collectable(f, drop, moved)
    ensures var (v, w) := (ViewOf(f), ViewOf(Collect(f, drop, moved)));
            w.size == v.size && w.blocks == v.blocks && w.freed + Granted(Gone(f.log, drop)) == v.freed
  {
    hide Inv, BlocksOf, Granted, Gone, Kept, LastAttrOf, Droppable;
    var g := Collect(f, drop, moved);
    CollectInv(f, drop, moved);
    forall p: nat
      ensures At(BlocksOf(g), p) == At(BlocksOf(f), p)
    {
      if p in f.tree {
        assert SameBlock(f, g, p);
        SameBlockAt(f, g, p);
      } else {
        NotMapped(f, p);
        NotMapped(g, p);
      }
    }
    SameMap(BlocksOf(g), BlocksOf(f));
  }

  lemma SameBlockAt(f: File, g: File, p: nat)
    requires SameBlock(f, g, p)
    ensures At(BlocksOf(g), p) == At(BlocksOf(f), p)
  {}

  // ----- whole runs -----

  /** A run in which only writes and truncations matter. */
  function SpecStep(v: View, a: Action): View {
    match a
    case Writes(pos, len, grants) => if Grantable(pos, len, grants) then WriteView(v, pos, len, grants) else v
    case Truncates(size) => TruncateView(v, size)
    case _ => v
  }

  function SpecRun(run: seq<Action>): View {
    if run == [] then View(0, map[], multiset{}) else SpecStep(SpecRun(run[..|run| - 1]), run[|run| - 1])
  }

  /** The account of blocks a view gives, with those that collections took from the file's. */
  function Accounted(f: File, retired: multiset<nat>): View {
    ViewOf(f).(freed := f.freed + retired)
  }

  lemma StepRefines(f: File, retired: multiset<nat>, a: Action)
    requires Inv(f)
    ensures var more := if a.Collects? && Enabled(f, a) then Granted(Gone(f.log, a.drop)) else multiset{};
            Accounted(Apply(f, a), retired + more) == SpecStep(Accounted(f, retired), a)
  {
    hide Inv, CowWrite, Truncate, SetAttr, Mounted, Collect, Grantable, AllLag, Collectable, BlocksOf, BlockList;
    hide Granted, Gone, BlocksIn, Pages;
    if Enabled(f, a) {
      match a
      case Writes(pos, len, grants) => WriteShows(f, pos, len, grants);
      case Truncates(size) => TruncateCuts(f, size);
      case SetsAttr => SetAttrShows(f);
      case Remounts(log) => RemountShows(f, log);
      case Collects(drop, moved) => CollectShows(f, drop, moved);
    }
  }

  /** After any run, over any number of mounts and collections, every page has the block the last write to it got, if
      no truncation cut it off since; and the blocks given back are those the writes and truncations replaced. */
  lemma {:induction false} RunRefines(run: seq<Action>)
    ensures Accounted(FileRuns.Run(NewFile(), run), Retired(NewFile(), run)) == SpecRun(run)
    decreases |run|
  {
    hide Inv, Apply, SpecStep, Granted, Gone, Enabled, Accounted;
    if run == [] {
      NewFileView();
    } else {
      var (init, a) := (run[..|run| - 1], run[|run| - 1]);
      RunRefines(init);
      RunInv(init);
      StepRefines(FileRuns.Run(NewFile(), init), Retired(NewFile(), init), a);
    }
  }

  lemma NewFileView()
    ensures Accounted(NewFile(), multiset{}) == View(0, map[], multiset{})
  {}
}
