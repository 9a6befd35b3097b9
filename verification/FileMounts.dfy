/** Mounting again: after a crash that lost any of the updates that follow a commit, the rebuilt file is as good as the
    live one was. */
module FileMounts {
  import opened Options
  import opened FileLog
  import opened FileIndex
  import opened FileCounts
  import opened FileAssign
  import opened FileSizes
  import opened FileCuts
  import opened FileTheorems

  lemma {:induction false} OwnerLags(a: seq<Entry>, b: seq<Entry>, p: nat)
    requires AllLag(a, b)
    ensures Owner(a, p) == Owner(b, p)
  {
    if a != [] {
      var n := |a| - 1;
      assert Lags(a[n], b[n]);
      OwnerLags(a[..n], b[..n], p);
    }
  }

  lemma {:induction false} SizeLags(a: seq<Entry>, b: seq<Entry>)
    requires AllLag(a, b)
    ensures RebuiltSize(a) == RebuiltSize(b)
  {
    if a != [] {
      var n := |a| - 1;
      assert Lags(a[n], b[n]);
      SizeLags(a[..n], b[..n]);
    }
  }

  lemma {:induction false} GrantedLags(a: seq<Entry>, b: seq<Entry>)
    requires AllLag(a, b)
    ensures Granted(a) == Granted(b)
  {
    hide Run;
    if a != [] {
      var n := |a| - 1;
      assert Lags(a[n], b[n]);
      GrantedLags(a[..n], b[..n]);
    }
  }

  lemma {:induction false} RefsLag(a: seq<Entry>, b: seq<Entry>, tree: map<nat, nat>, lo: nat, hi: nat)
    requires AllLag(a, b)
    ensures Refs(a, tree, lo, hi) == Refs(b, tree, lo, hi)
    decreases hi
  {
    hide Ref;
    if lo < hi {
      RefsLag(a, b, tree, lo, hi - 1);
      RefLags(a, b, tree, hi - 1);
    }
  }

  lemma RefLags(a: seq<Entry>, b: seq<Entry>, tree: map<nat, nat>, p: nat)
    requires AllLag(a, b)
    ensures Ref(a, tree, p) == Ref(b, tree, p)
  {
    if p in tree && tree[p] < |a| {
      assert Lags(a[tree[p]], b[tree[p]]);
    }
  }

  /** As long as no counter runs ahead, a log replays to the index of the finished operation. */
  lemma LaggingReplays(f: File, log: seq<Entry>)
    requires Inv(f) && AllLag(f.log, log)
    ensures Rebuilt(log) == f.tree && RebuiltSize(log) == RebuiltSize(f.log)
  {
    hide Count, Refs, Granted, Rebuilt, RebuiltSize, Owner, AllGrow, Base, NoHole, Harmless;
    SizeLags(f.log, log);
    assert f.log[..|f.log|] == f.log;
    forall p: nat
      ensures At(f.tree, p) == Owner(log, p)
      ensures Owner(log, p).Some? ==> !Skipped(log[Owner(log, p).value])
    {
      OwnerLags(f.log, log, p);
      if p in f.tree {
        OwnerCounts(f, p);
        assert Lags(f.log[f.tree[p]], log[f.tree[p]]);
      }
    }
    RebuiltMatches(log);
    MatchesUnique(Rebuilt(log), f.tree, log);
  }

  lemma LagHarmless(a: seq<Entry>, b: seq<Entry>)
    requires AllLag(a, b) && AllHarmless(a)
    ensures AllHarmless(b)
  {
    LagShape(a, b);
    forall i | 0 <= i < |b| && b[i].Attr? && b[i].dead
      ensures !b[i].sized
    {
      assert Harmless(a, i) && Lags(a[i], b[i]);
    }
    ShapeHarmless(a, b);
  }

  /** The replay ends with the last attribute entry of the log, which is not dead. */
  lemma LagLastAttr(f: File, log: seq<Entry>, g: File)
    requires LastAttr(f) && AllLag(f.log, log) && g.log == log && g.lastAttr == LastAttrOf(log)
    ensures LastAttr(g)
  {
    hide LastAttrOf;
    LastAttrOfIs(log);
    forall i | 0 <= i < |log| && log[i].Attr? && log[i].dead
      ensures HasLater(log, i)
    {
      assert Lags(f.log[i], log[i]) && HasLater(f.log, i);
      var j :| i < j < |f.log| && f.log[j].Attr?;
      assert Lags(f.log[j], log[j]) && log[j].Attr?;
    }
  }

  /** What is granted and not referred to adds up with what is. */
  lemma FreedRest(freed: multiset<nat>, refs: multiset<nat>, granted: multiset<nat>)
    requires freed + refs == granted
    ensures granted - refs == freed
  {}

  lemma RemountFields(f: File, log: seq<Entry>)
    requires Inv(f) && AllLag(f.log, log)
    ensures var g := Mounted(log);
            && g.tree == f.tree && g.size == f.size && g.freed == f.freed && (log != [] ==> g.trans == f.trans)
            && Conserved(g, |log|, Pages(f.size))
  {
    hide Count, Refs, Granted, Rebuilt, RebuiltSize, Owner, AllGrow, Base, Harmless, LastAttrOf, NoHole, Matches;
    var top := Pages(f.size);
    LaggingReplays(f, log);
    assert f.log[..|log|] == f.log && log[..|log|] == log;
    if log == [] {
      EmptySize();
    }
    GrantedLags(f.log, log);
    RefsLag(f.log, log, f.tree, 0, top);
    FreedRest(f.freed, Refs(log, f.tree, 0, top), Granted(log));
  }

  lemma RemountPartial(f: File, log: seq<Entry>)
    requires Inv(f) && AllLag(f.log, log)
    ensures Partial(Mounted(log), |log|, Pages(f.size))
  {
    hide Count, Owner, AllGrow, Base, Harmless, Mounted, Conserved, RebuiltSize;
    var (g, n, top) := (Mounted(log), |log|, Pages(f.size));
    RemountFields(f, log);
    assert g.log == log by { MountedLog(log); }
    assert f.log[..n] == f.log && log[..n] == log;
    forall p: nat
      ensures At(g.tree, p) == Owner(log, p)
    {
      OwnerLags(f.log, log, p);
    }
    forall i | 0 <= i < n
      ensures Counted(log, g.tree, i, top)
    {
      assert Counted(f.log, f.tree, i, top) && Lags(f.log[i], log[i]);
    }
    forall q | q in g.tree
      ensures g.tree[q] < n && FilledBelow(log[g.tree[q]], g.tree, q)
    {
      assert FilledBelow(f.log[f.tree[q]], f.tree, q) && Lags(f.log[f.tree[q]], log[f.tree[q]]);
    }
  }

  lemma MountedLog(log: seq<Entry>)
    ensures Mounted(log).log == log
  {}

  lemma StillValid(f: File, log: seq<Entry>, i: nat)
    requires Inv(f) && AllLag(f.log, log) && i < |log| && Valid(f.log[i])
    ensures Valid(log[i])
  {
    hide Count, Owner, AllGrow, Base, Harmless, Refs, Granted;
    assert Counted(f.log, f.tree, i, Pages(f.size)) && Lags(f.log[i], log[i]);
  }

  lemma EmptySize()
    ensures RebuiltSize([]) == (0, 0)
  {}

  /** The rebuilt file has the page map, size and free blocks of the live one, and all later operations may rely
      on it. */
  lemma RemountInv(f: File, log: seq<Entry>)
    requires Inv(f) && AllLag(f.log, log)
    ensures Inv(Mounted(log))
    ensures var g := Mounted(log); g.tree == f.tree && g.size == f.size && g.freed == f.freed
    ensures log == f.log && Exact(f.log, f.tree, |f.log|, Pages(f.size)) ==>
              Exact(log, Mounted(log).tree, |log|, Pages(Mounted(log).size))
  {
    hide Partial, Rebuilt, RebuiltSize, Owner, AllGrow, Base, Harmless, LastAttrOf, Granted, Refs, Exact, LastAttr;
    var g := Mounted(log);
    RemountFields(f, log);
    RemountPartial(f, log);
    LagShape(f.log, log);
    GrowShape(f.log, log);
    assert forall i :: 0 <= i < |log| ==> Lags(f.log[i], log[i]);
    LagHarmless(f.log, log);
    forall i | 0 <= i < |log| && Valid(f.log[i])
      ensures Valid(log[i])
    {
      StillValid(f, log, i);
    }
    LagLastAttr(f, log, g);
    SizeLags(f.log, log);
  }
}
