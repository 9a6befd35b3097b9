/** Whole runs on a regular file, over any number of mounts and collections; and writes whose copy from user memory
    stops short. */
module FileRuns {
  import opened Options
  import opened FileLog
  import opened FileIndex
  import opened FileCounts
  import opened FileAssign
  import opened FileChunks
  import opened FileTheorems
  import opened FileExact
  import opened FileMounts
  import opened FileCollect

  /** `Remounts`: a crash or an unmount left this log, and the file was rebuilt from it. A crash after the commit of an
      operation, before all its updates are durable, is that operation followed by a remount. `Collects`: garbage
      collection; one inside an append comes to the same as one before it, as only commits make entries invalid. */
  datatype Action =
    | Writes(pos: nat, len: nat, grants: seq<Grant>)
    | Truncates(size: nat)
    | SetsAttr
    | Remounts(log: seq<Entry>)
    | Collects(drop: set<nat>, moved: nat)

  predicate Enabled(f: File, a: Action) {
    match a
    case Writes(pos, len, grants) => Grantable(pos, len, grants)
    case Remounts(log) => AllLag(f.log, log)
    case Collects(drop, moved) => Collectable(f, drop, moved)
    case _ => true
  }

  /** An action that is not enabled does not take place. */
  function Apply(f: File, a: Action): File {
    if !Enabled(f, a) then f else
      match a
      case Writes(pos, len, grants) => CowWrite(f, pos, len, grants)
      case Truncates(size) => Truncate(f, size)
      case SetsAttr => SetAttr(f)
      case Remounts(log) => Mounted(log)
      case Collects(drop, moved) => Collect(f, drop, moved)
  }

  function Run(f: File, run: seq<Action>): File
    decreases |run|
  {
    if run == [] then f else Apply(Run(f, run[..|run| - 1]), run[|run| - 1])
  }

  lemma NewFileInv()
    ensures Inv(NewFile())
  {
    forall p: nat
      ensures At(map[], p) == Owner([], p)
    {}
  }

  lemma ApplyInv(f: File, a: Action)
    requires Inv(f)
    ensures Inv(Apply(f, a))
  {
    hide Inv, CowWrite, Truncate, SetAttr, Mounted, Collect, Grantable, AllLag, Collectable;
    if Enabled(f, a) {
      match a
      case Writes(pos, len, grants) => WriteInv(f, pos, len, grants);
      case Truncates(size) => TruncateInv(f, size);
      case SetsAttr => SetAttrInv(f);
      case Remounts(log) => RemountInv(f, log);
      case Collects(drop, moved) => CollectInv(f, drop, moved);
    }
  }

  lemma {:induction false} RunInv(run: seq<Action>)
    ensures Inv(Run(NewFile(), run))
    decreases |run|
  {
    hide Inv, Apply;
    if run == [] {
      NewFileInv();
    } else {
      RunInv(run[..|run| - 1]);
      ApplyInv(Run(NewFile(), run[..|run| - 1]), run[|run| - 1]);
    }
  }

  /** After any run the log replays to the live page map and file size. */
  lemma RunReplays(run: seq<Action>)
    ensures var f := Run(NewFile(), run); Rebuilt(f.log) == f.tree && (f.log != [] ==> RebuiltSize(f.log).0 == f.size)
  {
    hide Inv;
    RunInv(run);
    ReplayIsLive(Run(NewFile(), run));
  }

  // ----- the account of blocks -----

  function GrantBlocks(grants: seq<Grant>): multiset<nat> {
    if grants == [] then multiset{}
    else
      var g := grants[|grants| - 1];
      GrantBlocks(grants[..|grants| - 1]) + FileIndex.Run(g.block, g.num)
  }

  /** The blocks the allocator handed out to the writes of a run. */
  function Handed(f: File, run: seq<Action>): multiset<nat>
    decreases |run|
  {
    if run == [] then multiset{}
    else
      var (init, a) := (run[..|run| - 1], run[|run| - 1]);
      Handed(f, init) + if a.Writes? && Enabled(Run(f, init), a) then GrantBlocks(a.grants) else multiset{}
  }

  /** The blocks of entries that collections dropped: they were freed before. */
  function Retired(f: File, run: seq<Action>): multiset<nat>
    decreases |run|
  {
    if run == [] then multiset{}
    else
      var (init, a) := (run[..|run| - 1], run[|run| - 1]);
      Retired(f, init)
      + if a.Collects? && Enabled(Run(f, init), a) then Granted(Gone(Run(f, init).log, a.drop)) else multiset{}
  }

  lemma {:induction false} ChunksGranted(log: seq<Entry>, page: nat, end: nat, size: nat, trans: nat,
                                         grants: seq<Grant>)
    ensures Granted(log + Chunks(page, end, size, trans, grants)) == Granted(log) + GrantBlocks(grants)
  {
    hide FileIndex.Run, Granted, Sum;
    if grants == [] {
      assert log + Chunks(page, end, size, trans, grants) == log;
    } else {
      var n := |grants| - 1;
      ChunksGranted(log, page, end, size, trans, grants[..n]);
      var (init, all) := (Chunks(page, end, size, trans, grants[..n]), Chunks(page, end, size, trans, grants));
      assert all == init + [all[n]] && all[n].block == grants[n].block;
      GrantedLast(log + init, all[n]);
      assert log + all == (log + init) + [all[n]];
    }
  }

  lemma GrantedLast(log: seq<Entry>, e: Entry)
    requires e.Write?
    ensures Granted(log + [e]) == Granted(log) + FileIndex.Run(e.block, e.num)
  {
    hide FileIndex.Run;
    assert (log + [e])[..|log|] == log;
  }

  lemma WriteGranted(f: File, pos: nat, len: nat, grants: seq<Grant>)
    requires Inv(f) && Grantable(pos, len, grants)
    ensures Granted(CowWrite(f, pos, len, grants).log) == Granted(f.log) + GrantBlocks(grants)
  {
    hide Partial, Harmless, LastAttr, AllGrow, Base, RebuiltSize, Chunks, Sum, AssignAll, Granted, GrantBlocks, Pages;
    hide Touched;
    var log := f.log + Chunks(pos / PAGE, pos + len, f.size, f.trans, grants);
    var top := Pages(Max(f.size, pos + len));
    TouchedPages(pos, len);
    PagesMono(f.size, Max(f.size, pos + len));
    PagesMono(pos + len, Max(f.size, pos + len));
    assert log[..|f.log|] == f.log;
    WrittenPartial(f, pos, pos + len, f.size, grants, top, log);
    ChunksGranted(f.log, pos / PAGE, pos + len, f.size, f.trans, grants);
    GrantedAlike(log, AssignAll(f.(log := log), |f.log|).log);
  }

  lemma AttrGranted(log: seq<Entry>, last: Option<nat>, e: Entry)
    requires e.Attr?
    ensures Granted(Kill(log, last) + [e]) == Granted(log)
  {
    hide FileIndex.Run;
    var k := Kill(log, last);
    if k != log {
      GrantedReplace(log, last.value, log[last.value].(dead := true));
    }
    assert (k + [e])[..|k|] == k;
  }

  lemma TruncateGranted(f: File, size: nat)
    ensures Granted(Truncate(f, size).log) == Granted(f.log)
  {
    hide Granted, Kill, Mark, Refs;
    var e := Attr(true, false, size, f.trans);
    AttrGranted(f.log, f.lastAttr, e);
    var log := Kill(f.log, f.lastAttr) + [e];
    if DropsBlocks(f.size, size) {
      MarkAlike(log, f.tree, Pages(size), Pages(f.size));
      GrantedAlike(log, Mark(log, f.tree, Pages(size), Pages(f.size)));
    }
  }

  lemma SetAttrGranted(f: File)
    ensures Granted(SetAttr(f).log) == Granted(f.log)
  {
    hide Granted, Kill;
    var e := Attr(false, false, f.size, f.trans);
    if InPlace(f) {
      GrantedReplace(f.log, f.lastAttr.value, e);
    } else {
      AttrGranted(f.log, f.lastAttr, e);
    }
  }

  /** What one action adds to the account. */
  lemma ApplyAccounts(f: File, a: Action)
    requires Inv(f)
    ensures Granted(Apply(f, a).log)
            + (if a.Collects? && Enabled(f, a) then Granted(Gone(f.log, a.drop)) else multiset{}) ==
            Granted(f.log) + if a.Writes? && Enabled(f, a) then GrantBlocks(a.grants) else multiset{}
  {
    hide Inv, CowWrite, Truncate, SetAttr, Grantable, AllLag, Collectable, Granted, Kept, Gone, GrantBlocks;
    if Enabled(f, a) {
      match a
      case Writes(pos, len, grants) => WriteGranted(f, pos, len, grants);
      case Truncates(size) => TruncateGranted(f, size);
      case SetsAttr => SetAttrGranted(f);
      case Remounts(log) => GrantedLags(f.log, log);
      case Collects(drop, moved) => GrantedKept(f.log, drop);
    }
  }

  /** The blocks the log names, and those of the entries that left it, are the blocks handed out. */
  lemma {:induction false} RunAccounts(run: seq<Action>)
    ensures Granted(Run(NewFile(), run).log) + Retired(NewFile(), run) == Handed(NewFile(), run)
    decreases |run|
  {
    hide Inv, Apply, Enabled, Granted, Gone, GrantBlocks;
    if run == [] {
      assert Granted([]) == multiset{} by { NoneGranted(); }
    } else {
      var (init, a) := (run[..|run| - 1], run[|run| - 1]);
      RunAccounts(init);
      RunInv(init);
      var f := Run(NewFile(), init);
      ApplyAccounts(f, a);
      var x := if a.Collects? && Enabled(f, a) then Granted(Gone(f.log, a.drop)) else multiset{};
      var y := if a.Writes? && Enabled(f, a) then GrantBlocks(a.grants) else multiset{};
      Balance(Granted(f.log), Retired(NewFile(), init), Handed(NewFile(), init), Granted(Apply(f, a).log), x, y);
    }
  }

  lemma Balance(was: multiset<nat>, retired: multiset<nat>, handed: multiset<nat>, now: multiset<nat>, x: multiset<nat>,
                y: multiset<nat>)
    requires was + retired == handed && now + x == was + y
    ensures now + (retired + x) == handed + y
  {
    assert now + (retired + x) == (now + x) + retired;
    assert (was + y) + retired == (was + retired) + y;
  }

  lemma NoneGranted()
    ensures Granted([]) == multiset{}
  {}

  /** After any run every block the allocator ever handed to the file was freed, or is referred to by a page, as often
      as it was handed out: none is lost, and none freed twice. */
  lemma RunConserves(run: seq<Action>)
    ensures var f := Run(NewFile(), run);
            && f.freed + Retired(NewFile(), run) + Refs(f.log, f.tree, 0, Pages(f.size)) == Handed(NewFile(), run)
            && f.freed + Refs(f.log, f.tree, 0, Pages(f.size)) == Granted(f.log)
            && Under(f.tree, Pages(f.size))
  {
    hide Refs, Granted, Retired, Handed, Harmless, AllGrow, Base, LastAttr;
    RunInv(run);
    RunAccounts(run);
    var f := Run(NewFile(), run);
    assert f.log[..|f.log|] == f.log;
  }

  /** Whether no remount of a run has lost an update. */
  predicate Lossless(f: File, run: seq<Action>)
    decreases |run|
  {
    run == [] ||
    var (init, a) := (run[..|run| - 1], run[|run| - 1]);
    Lossless(f, init) && (a.Remounts? ==> a.log == Run(f, init).log)
  }

  lemma ApplyExact(f: File, a: Action)
    requires Inv(f) && Exact(f.log, f.tree, |f.log|, Pages(f.size)) && (a.Remounts? ==> a.log == f.log)
    ensures var g := Apply(f, a); Exact(g.log, g.tree, |g.log|, Pages(g.size))
  {
    hide Inv, CowWrite, Truncate, SetAttr, Mounted, Collect, Grantable, AllLag, Collectable, Exact;
    if Enabled(f, a) {
      match a
      case Writes(pos, len, grants) => WriteExact(f, pos, len, grants);
      case Truncates(size) =>
        TruncateExact(f, size);
        assert Truncate(f, size).size == size by { TruncatedSize(f, size); }
      case SetsAttr => SetAttrExact(f);
      case Remounts(log) =>
        RemountInv(f, log);
        MountedLog(log);
      case Collects(drop, moved) => CollectExact(f, drop, moved);
    }
  }

  lemma TruncatedSize(f: File, size: nat)
    ensures Truncate(f, size).size == size
  {}

  /** Over every run without such a loss the counters are exact. */
  lemma {:induction false} RunExact(run: seq<Action>)
    requires Lossless(NewFile(), run)
    ensures var f := Run(NewFile(), run); Exact(f.log, f.tree, |f.log|, Pages(f.size))
    decreases |run|
  {
    hide Inv, Apply, Exact;
    if run == [] {
      NewFileExact();
    } else {
      RunExact(run[..|run| - 1]);
      RunInv(run[..|run| - 1]);
      ApplyExact(Run(NewFile(), run[..|run| - 1]), run[|run| - 1]);
    }
  }

  lemma NewFileExact()
    ensures Exact(NewFile().log, NewFile().tree, 0, Pages(0))
  {}

  /** A block granted once is never both freed and in use. */
  lemma FreedIsGone(f: File, b: nat, p: nat)
    requires Inv(f) && Granted(f.log)[b] == 1 && p in f.tree && BlockOf(f.log[f.tree[p]], p) == b
    ensures f.freed[b] == 0
  {
    hide Refs, Granted, Count;
    var top := Pages(f.size);
    assert f.log[..|f.log|] == f.log;
    RefsHas(f.log, f.tree, 0, top, p);
    assert (f.freed + Refs(f.log, f.tree, 0, top))[b] == Granted(f.log)[b];
  }

  lemma {:induction false} RefsHas(log: seq<Entry>, tree: map<nat, nat>, lo: nat, hi: nat, p: nat)
    requires lo <= p < hi && p in tree && tree[p] < |log|
    ensures Refs(log, tree, lo, hi)[BlockOf(log[tree[p]], p)] > 0
    decreases hi
  {
    if p < hi - 1 {
      RefsHas(log, tree, lo, hi - 1, p);
    }
  }

  // ----- a copy that stops short -----

  /** do_nova_cow_file_write when the copy into the last grant stops after `copied` bytes: the entries are
      committed, but a stop in the first grant leaves nothing to assign. */
  function ShortWrite(f: File, pos: nat, grants: seq<Grant>, copied: nat): File
    requires grants != []
  {
    var g := f.(log := f.log + ShortChunks(f, pos, grants, copied));
    var h := if |grants| == 1 then g else AssignAll(g, |f.log|);
    h.(size := Max(f.size, ShortBegin(pos, grants) + copied), trans := f.trans + 1)
  }

  /** Where the copy into the last grant begins. */
  function ShortBegin(pos: nat, grants: seq<Grant>): nat
    requires grants != []
  {
    if |grants| == 1 then pos else (pos / PAGE + Sum(grants[..|grants| - 1])) * PAGE
  }

  /** The entries of such a write; the last one carries the size that was reached. */
  function ShortChunks(f: File, pos: nat, grants: seq<Grant>, copied: nat): (out: seq<Entry>)
    requires grants != []
    ensures |out| == |grants| && forall i :: 0 <= i < |out| ==> out[i].Write? && out[i].num == grants[i].num
  {
    var n := |grants| - 1;
    var at := pos / PAGE + Sum(grants[..n]);
    Chunks(pos / PAGE, at * PAGE, f.size, f.trans, grants[..n]) +
    [Write(at, grants[n].num, grants[n].block, 0, Max(f.size, ShortBegin(pos, grants) + copied), f.trans)]
  }

  /** A committed write whose copy stopped short is in the live index if and only if its first grant was
      copied in full; otherwise the replay shows pages the live index does not. */
  lemma ShortWriteReplaysIff(f: File, pos: nat, grants: seq<Grant>, copied: nat)
    requires Inv(f) && grants != [] && forall i :: 0 <= i < |grants| ==> grants[i].num > 0
    ensures var g := ShortWrite(f, pos, grants, copied); Rebuilt(g.log) == g.tree <==> |grants| > 1
  {
    hide Partial, AssignAll, Rebuilt, Pages, Chunks;
    var n := |grants| - 1;
    var g := ShortWrite(f, pos, grants, copied);
    if n == 0 {
      ShortFirst(f, pos, grants[0], g);
    } else {
      ShortLater(f, pos, grants, copied);
    }
  }

  lemma ShortFirst(f: File, pos: nat, grant: Grant, g: File)
    requires Inv(f) && grant.num > 0 && g.tree == f.tree && |g.log| == |f.log| + 1
    requires g.log[|f.log|].Write? && g.log[|f.log|].num > 0 && g.log[|f.log|].invalid == 0
    ensures Rebuilt(g.log) != g.tree
  {
    hide Count, Refs, Granted, Pages;
    var (n, p) := (|f.log|, g.log[|f.log|].pgoff);
    assert p in Rebuilt(g.log) && Rebuilt(g.log)[p] == n;
    if p in f.tree {
      Applied(f, n, Pages(f.size), p);
    }
  }

  lemma ShortCommitted(f: File, pos: nat, grants: seq<Grant>, copied: nat)
    requires |grants| > 1
    ensures var at := pos / PAGE + Sum(grants[..|grants| - 1]);
            var log := f.log + ShortChunks(f, pos, grants, copied);
            Committed(f, pos, at * PAGE, f.size, grants, log)
  {
    hide Chunks, Sum;
    var (n, page) := (|grants| - 1, pos / PAGE);
    var at := page + Sum(grants[..n]);
    var log := f.log + ShortChunks(f, pos, grants, copied);
    var all := Chunks(page, at * PAGE, f.size, f.trans, grants);
    forall i | 0 <= i < |all|
      ensures SamePages(log[|f.log| + i], all[i])
    {
      ChunkAt(page, at * PAGE, f.size, f.trans, grants, i);
      if i < n {
        ChunkAt(page, at * PAGE, f.size, f.trans, grants[..n], i);
        assert grants[..n][..i] == grants[..i];
      }
    }
    assert log[..|f.log|] == f.log;
  }

  lemma ShortLater(f: File, pos: nat, grants: seq<Grant>, copied: nat)
    requires Inv(f) && |grants| > 1 && forall i :: 0 <= i < |grants| ==> grants[i].num > 0
    ensures var g := ShortWrite(f, pos, grants, copied); Rebuilt(g.log) == g.tree
  {
    hide Partial, AssignAll, Rebuilt, Pages, ShortChunks, Committed, Sum;
    var (n, page) := (|grants| - 1, pos / PAGE);
    var at := page + Sum(grants[..n]);
    var log := f.log + ShortChunks(f, pos, grants, copied);
    var top := Max(Pages(f.size), page + Sum(grants));
    ShortCommitted(f, pos, grants, copied);
    WrittenPartial(f, pos, at * PAGE, f.size, grants, top, log);
    var g := AssignAll(f.(log := log), |f.log|);
    PartialReplays(g, top);
  }
}
