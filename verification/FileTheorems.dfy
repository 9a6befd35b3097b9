/** Replaying the log of a regular file gives the live page map and size after any run of copy-on-write
    writes, truncations and attribute changes; blocks are freed exactly when the map drops them. */
module FileTheorems {
  import opened Options
  import opened FileLog
  import opened FileIndex
  import opened FileCounts
  import opened FileAssign
  import opened FileChunks
  import opened FileSizes
  import opened FileCuts

  // ----- replay -----

  lemma PartialReplays(f: File, top: nat)
    requires Partial(f, |f.log|, top)
    ensures Rebuilt(f.log) == f.tree
  {
    hide Count, Refs, Granted, Rebuilt, Conserved, NoHole;
    assert f.log[..|f.log|] == f.log;
    forall p: nat | Owner(f.log, p).Some?
      ensures !Skipped(f.log[Owner(f.log, p).value])
    {
      var i := Owner(f.log, p).value;
      assert At(f.tree, p) == Some(i) && Counted(f.log, f.tree, i, top);
      CountSome(f.tree, i, 0, top, p);
    }
    RebuiltMatches(f.log);
    MatchesUnique(Rebuilt(f.log), f.tree, f.log);
  }

  /** The main law: in every good state the replay of the log is the live index. */
  lemma ReplayIsLive(f: File)
    requires Inv(f)
    ensures Rebuilt(f.log) == f.tree
    ensures if f.log == [] then f.size == 0 else RebuiltSize(f.log) == (f.size, f.trans - 1)
  {
    hide Partial;
    PartialReplays(f, Pages(f.size));
  }

  /** An entry that owns a page has a counter below its page count, lost updates or not. */
  lemma OwnerCounts(f: File, p: nat)
    requires Inv(f) && p in f.tree
    ensures f.tree[p] < |f.log| && f.log[f.tree[p]].Write? && f.log[f.tree[p]].invalid < f.log[f.tree[p]].num
  {
    hide Count, Refs, Granted;
    Applied(f, |f.log|, Pages(f.size), p);
    var i := f.tree[p];
    assert Counted(f.log, f.tree, i, Pages(f.size));
    CountSome(f.tree, i, 0, Pages(f.size), p);
  }

  lemma MappedUnder(f: File)
    requires Inv(f)
    ensures Under(f.tree, Pages(f.size))
  {}

  /** As long as no crash lost an update, the counter of an entry is its pages less those it still maps, and
      full exactly when it maps none. */
  lemma CountersExact(f: File, i: nat)
    requires Inv(f) && Exact(f.log, f.tree, |f.log|, Pages(f.size)) && i < |f.log| && f.log[i].Write?
    ensures f.log[i].invalid == f.log[i].num - Count(f.tree, i, 0, Pages(f.size))
    ensures f.log[i].invalid == f.log[i].num <==> forall p :: p in f.tree ==> f.tree[p] != i
  {
    hide Count, Refs, Granted;
    var top := Pages(f.size);
    assert Counted(f.log, f.tree, i, top);
    if p :| p in f.tree && f.tree[p] == i {
      CountSome(f.tree, i, 0, top, p);
    } else {
      CountNone(f.tree, i, 0, top);
    }
  }

  // ----- parts of the invariant under alike logs -----

  lemma {:induction false} RefsEntries(la: seq<Entry>, lb: seq<Entry>, tree: map<nat, nat>, lo: nat, hi: nat)
    requires forall p :: p in tree ==> tree[p] < |la| && tree[p] < |lb| && Alike(la[tree[p]], lb[tree[p]])
    ensures Refs(la, tree, lo, hi) == Refs(lb, tree, lo, hi)
    decreases hi
  {
    hide Ref;
    if lo < hi {
      RefsEntries(la, lb, tree, lo, hi - 1);
      assert Ref(la, tree, hi - 1) == Ref(lb, tree, hi - 1) by { SameRef(la, lb, tree, hi - 1); }
    }
  }

  lemma SameRef(la: seq<Entry>, lb: seq<Entry>, tree: map<nat, nat>, p: nat)
    requires p in tree ==> tree[p] < |la| && tree[p] < |lb| && Alike(la[tree[p]], lb[tree[p]])
    ensures Ref(la, tree, p) == Ref(lb, tree, p)
  {}

  // ----- writes -----

  /** Appending unassigned write entries to a good index. */
  lemma Extend(f: File, more: seq<Entry>, top: nat)
    requires Partial(f, |f.log|, top)
    requires forall i :: 0 <= i < |more| ==>
               more[i].Write? && more[i].num > 0 && more[i].invalid == 0 && more[i].pgoff + more[i].num <= top
    ensures Partial(f.(log := f.log + more), |f.log|, top)
  {
    hide Count, Refs, Granted, Owner;
    var g := f.(log := f.log + more);
    assert g.log[..|f.log|] == f.log == f.log[..|f.log|];
    forall p | p in f.tree
      ensures f.tree[p] < |f.log|
    {
      Applied(f, |f.log|, top, p);
    }
    RefsEntries(f.log, g.log, f.tree, 0, top);
    forall i | 0 <= i < |f.log|
      ensures Counted(g.log, g.tree, i, top)
    {
      assert Counted(f.log, f.tree, i, top);
    }
  }

  predicate SamePages(a: Entry, b: Entry) {
    a.Write? && b.Write? && a.pgoff == b.pgoff && a.num == b.num && a.block == b.block && a.invalid == b.invalid
  }

  /** The entries of a write, committed but not yet assigned. */
  predicate Committed(f: File, pos: nat, end: nat, size: nat, grants: seq<Grant>, log: seq<Entry>) {
    var chunks := Chunks(pos / PAGE, end, size, f.trans, grants);
    && |log| == |f.log| + |chunks| && log[..|f.log|] == f.log
    && forall i :: 0 <= i < |chunks| ==> SamePages(log[|f.log| + i], chunks[i])
  }

  lemma CommittedPartial(f: File, pos: nat, end: nat, size: nat, grants: seq<Grant>, top: nat, log: seq<Entry>)
    requires Partial(f, |f.log|, Pages(f.size)) && Pages(f.size) <= top && pos / PAGE + Sum(grants) <= top
    requires (forall i :: 0 <= i < |grants| ==> grants[i].num > 0) && Committed(f, pos, end, size, grants, log)
    ensures Partial(f.(log := log), |f.log|, top)
  {
    hide Partial, Chunks, Sum;
    var (n, page) := (|f.log|, pos / PAGE);
    var chunks := Chunks(page, end, size, f.trans, grants);
    var more := log[n..];
    forall i | 0 <= i < |more|
      ensures more[i].Write? && more[i].num > 0 && more[i].invalid == 0 && more[i].pgoff + more[i].num <= top
    {
      assert SamePages(more[i], chunks[i]);
      ChunksLaidOut(page, end, size, f.trans, grants, i);
    }
    PartialTop(f, n, Pages(f.size), top);
    Extend(f, more, top);
    assert f.log + more == log;
  }

  /** The index after a write, whether or not every byte of it was copied. */
  lemma WrittenPartial(f: File, pos: nat, end: nat, size: nat, grants: seq<Grant>, top: nat, log: seq<Entry>)
    requires Partial(f, |f.log|, Pages(f.size)) && Pages(f.size) <= top && pos / PAGE + Sum(grants) <= top
    requires (forall i :: 0 <= i < |grants| ==> grants[i].num > 0) && Committed(f, pos, end, size, grants, log)
    ensures forall i :: |f.log| <= i < |log| ==> log[i].Write?
    ensures var g := AssignAll(f.(log := log), |f.log|);
            Partial(g, |g.log|, top) && AllAlike(log, g.log) && g.lastAttr == f.lastAttr
  {
    hide Partial, Committed, Sum;
    CommittedPartial(f, pos, end, size, grants, top, log);
    AssignAllPartial(f.(log := log), |f.log|, top);
  }

  lemma WriteInv(f: File, pos: nat, len: nat, grants: seq<Grant>)
    requires Inv(f) && Grantable(pos, len, grants)
    ensures Inv(CowWrite(f, pos, len, grants))
  {
    hide Partial, Chunks, Sum, AssignAll, Harmless, RebuiltSize, Touched, Pages, AllGrow, Base, LastAttr;
    var (n, end) := (|f.log|, pos + len);
    var chunks := Chunks(pos / PAGE, end, f.size, f.trans, grants);
    var log := f.log + chunks;
    var h := CowWrite(f, pos, len, grants);
    TouchedPages(pos, len);
    PagesMono(f.size, h.size);
    PagesMono(end, h.size);
    assert log[..n] == f.log;
    WrittenPartial(f, pos, end, f.size, grants, Pages(h.size), log);
    var g := AssignAll(f.(log := log), n);
    PartialFields(g, h, Pages(h.size));
    WriteRest(f, pos, len, grants, log, g, h);
    WriteGrows(f, pos, len, grants);
    AlikeShape(log, h.log);
    GrowShape(log, h.log);
  }

  /** Size and transaction number play no part in the index. */
  lemma PartialFields(g: File, h: File, top: nat)
    requires Partial(g, |g.log|, top) && h.log == g.log && h.tree == g.tree && h.freed == g.freed
    ensures Partial(h, |h.log|, top)
  {
    hide Count, Refs, Granted, Owner;
  }

  lemma WriteRest(f: File, pos: nat, len: nat, grants: seq<Grant>, log: seq<Entry>, g: File, h: File)
    requires Inv(f) && Grantable(pos, len, grants)
    requires log == f.log + Chunks(pos / PAGE, pos + len, f.size, f.trans, grants)
    requires AllAlike(log, g.log) && Partial(g, |g.log|, Pages(h.size)) && g.lastAttr == f.lastAttr
    requires h == g.(size := Max(f.size, pos + len), trans := f.trans + 1)
    ensures AllHarmless(h.log) && LastAttr(h) && NewestValid(h) && SizeKnown(h)
  {
    hide Partial, Chunks, Sum, Touched, Pages, Owner, RebuiltSize, Matches, Harmless, LastAttr, NewestValid, SizeKnown;
    hide AllGrow, Base;
    var n := |f.log|;
    assert forall i :: 0 <= i < |log| ==> Alike(log[i], g.log[i]);
    WritesHarmless(f.log, log[n..]);
    assert f.log + log[n..] == log;
    AlikeHarmless(log, h.log);
    LastAttrMore(f, h);
    WriteNewest(f, pos, len, grants, log, g, h);
  }

  lemma WriteNewest(f: File, pos: nat, len: nat, grants: seq<Grant>, log: seq<Entry>, g: File, h: File)
    requires NewestValid(f) && Grantable(pos, len, grants)
    requires log == f.log + Chunks(pos / PAGE, pos + len, f.size, f.trans, grants)
    requires AllAlike(log, g.log) && Partial(g, |g.log|, Pages(h.size))
    requires h == g.(size := Max(f.size, pos + len), trans := f.trans + 1)
    ensures NewestValid(h) && SizeKnown(h)
  {
    hide Partial, Chunks, Sum, Touched, Pages, RebuiltSize, Valid;
    var n := |f.log|;
    var chunks := Chunks(pos / PAGE, pos + len, f.size, f.trans, grants);
    forall i | 0 <= i < |h.log|
      ensures h.log[i].trans <= f.trans && (h.log[i].trans == f.trans ==> Valid(h.log[i]))
      ensures i >= n ==> h.log[i].trans == f.trans && h.log[i].size == chunks[i - n].size
    {
      assert Alike(log[i], h.log[i]);
      if i >= n {
        ChunkLive(f, pos, pos + len, grants, log, g, Pages(h.size), i);
      }
    }
    LastChunk(f, pos, len, grants);
    NewestDecides(h.log, |h.log| - 1);
  }

  /** The last entry of a write carries the size the file ends with. */
  lemma LastChunk(f: File, pos: nat, len: nat, grants: seq<Grant>)
    requires Grantable(pos, len, grants)
    ensures var chunks := Chunks(pos / PAGE, pos + len, f.size, f.trans, grants);
            chunks != [] && chunks[|chunks| - 1].size == Max(f.size, pos + len)
  {
    hide Chunks, Sum, Touched, Pages;
    var m := |grants|;
    SumNonzero(grants, pos, len);
    ChunkAt(pos / PAGE, pos + len, f.size, f.trans, grants, m - 1);
    SumStep(grants, m - 1);
    assert grants[..m] == grants;
    TouchedPages(pos, len);
    PagesReach(pos + len);
  }

  /** Every chunk of a finished write still owns its first page. */
  lemma ChunkLive(f: File, pos: nat, end: nat, grants: seq<Grant>, log: seq<Entry>, g: File, top: nat, i: nat)
    requires log == f.log + Chunks(pos / PAGE, end, f.size, f.trans, grants) && |f.log| <= i < |log|
    requires forall k :: 0 <= k < |grants| ==> grants[k].num > 0
    requires AllAlike(log, g.log) && Partial(g, |g.log|, top)
    ensures Valid(g.log[i])
  {
    hide Chunks, Sum, Owner, Count, Refs, Granted;
    var (n, page) := (|f.log|, pos / PAGE);
    var chunks := Chunks(page, end, f.size, f.trans, grants);
    ChunksLaidOut(page, end, f.size, f.trans, grants, i - n);
    var p := log[i].pgoff;
    assert Alike(log[i], g.log[i]);
    forall j | i < j < |g.log|
      ensures !Covers(g.log[j], p) && !Cuts(g.log[j], p)
    {
      assert Alike(log[j], g.log[j]) && log[j] == chunks[j - n];
    }
    OwnerLatest(g.log, i, p);
    assert g.log[..|g.log|] == g.log;
    assert At(g.tree, p) == Some(i) && Counted(g.log, g.tree, i, top);
    CountSome(g.tree, i, 0, top, p);
  }

  // ----- attribute changes -----

  lemma {:induction false} GrantedReplace(log: seq<Entry>, i: nat, e: Entry)
    requires i < |log| && log[i].Attr? && e.Attr?
    ensures Granted(log[i := e]) == Granted(log)
    decreases |log|
  {
    hide Run;
    var n := |log| - 1;
    if i < n {
      GrantedReplace(log[..n], i, e);
      assert log[i := e][..n] == log[..n][i := e];
    } else {
      assert log[i := e][..n] == log[..n];
    }
  }

  /** Rewriting an attribute entry that did not set the size. */
  lemma ReplacePartial(f: File, i: nat, e: Entry, top: nat)
    requires Partial(f, |f.log|, top) && i < |f.log| && f.log[i].Attr? && !f.log[i].sized && e.Attr? && !e.sized
    requires AllHarmless(f.log) && AllHarmless(f.log[i := e])
    ensures Partial(f.(log := f.log[i := e]), |f.log|, top)
  {
    hide Count, Refs, Granted, Owner, Harmless;
    var g := f.(log := f.log[i := e]);
    assert g.log[..|f.log|] == g.log && f.log[..|f.log|] == f.log;
    forall p: nat
      ensures At(g.tree, p) == Owner(g.log, p)
    {
      RewriteOwner(f.log, i, e, p);
    }
    forall p | p in f.tree
      ensures f.tree[p] < |f.log| && f.tree[p] != i
    {
      Applied(f, |f.log|, top, p);
    }
    RefsEntries(f.log, g.log, f.tree, 0, top);
    GrantedReplace(f.log, i, e);
    forall j | 0 <= j < |f.log|
      ensures Counted(g.log, g.tree, j, top)
    {
      assert Counted(f.log, f.tree, j, top);
    }
  }

  /** Killing an attribute entry changes nothing the replay reads. */
  lemma KillKeeps(f: File)
    requires Inv(f)
    ensures var g := f.(log := Kill(f.log, f.lastAttr));
            && Partial(g, |g.log|, Pages(f.size)) && AllHarmless(g.log)
            && (forall i :: 0 <= i < |g.log| ==>
                  g.log[i].trans == f.log[i].trans && (g.log[i].Write? ==> g.log[i] == f.log[i]))
  {
    hide Partial, Harmless, Owner, LastAttr;
    if InPlace(f) {
      var i := f.lastAttr.value;
      var e := f.log[i].(dead := true);
      RewriteHarmless(f.log, i, e);
      ReplacePartial(f, i, e, Pages(f.size));
    }
  }

  lemma OwnerAppend(log: seq<Entry>, e: Entry, p: nat)
    ensures Owner(log + [e], p) == if Covers(e, p) then Some(|log|) else if Cuts(e, p) then None else Owner(log, p)
  {
    assert (log + [e])[..|log|] == log;
  }

  /** Appending an attribute entry, before any page is dropped. */
  lemma AppendAttr(f: File, e: Entry, top: nat)
    requires Partial(f, |f.log|, top) && e.Attr?
    ensures var g := f.(log := f.log + [e]);
            && Under(g.tree, top) && NoHole(g.log, g.tree) && Conserved(g, |g.log|, top)
            && (forall i :: 0 <= i < |g.log| ==> Counted(g.log, g.tree, i, top))
            && (forall p: nat :: Owner(g.log, p) == if p < Pages(e.size) then At(g.tree, p) else None)
  {
    hide Count, Refs, Granted, Owner, Pages;
    var (n, g) := (|f.log|, f.(log := f.log + [e]));
    assert f.log[..n] == f.log && g.log[..n] == f.log && g.log[..n + 1] == g.log;
    GrantedMore(g.log, n);
    forall p | p in f.tree
      ensures f.tree[p] < n
    {
      Applied(f, n, top, p);
    }
    RefsEntries(f.log, g.log, f.tree, 0, top);
    forall i | 0 <= i < n
      ensures Counted(g.log, g.tree, i, top)
    {
      assert Counted(f.log, f.tree, i, top);
    }
    forall p: nat
      ensures Owner(g.log, p) == if p < Pages(e.size) then At(g.tree, p) else None
    {
      OwnerAppend(f.log, e, p);
      assert At(f.tree, p) == Owner(f.log[..n], p);
    }
  }

  /** Without a drop no page is mapped past the new size. */
  lemma AppendKeeps(f: File, e: Entry, top: nat)
    requires Partial(f, |f.log|, top) && e.Attr? && top <= Pages(e.size)
    ensures Partial(f.(log := f.log + [e]), |f.log| + 1, Pages(e.size))
  {
    hide Count, Refs, Granted, Owner, Pages;
    var g := f.(log := f.log + [e]);
    AppendAttr(f, e, top);
    assert g.log[..|g.log|] == g.log;
    forall p: nat
      ensures At(g.tree, p) == Owner(g.log, p)
    {}
    PartialTop(g, |g.log|, top, Pages(e.size));
  }

  lemma NoDropFits(size: nat, newSize: nat)
    requires !DropsBlocks(size, newSize)
    ensures Pages(size) <= Pages(newSize)
  {}

  lemma DropFits(size: nat, newSize: nat)
    requires DropsBlocks(size, newSize)
    ensures Pages(newSize) <= Pages(size)
  {}

  lemma TruncateInv(f: File, newSize: nat)
    requires Inv(f)
    ensures Inv(Truncate(f, newSize))
  {
    hide Partial, Harmless, Owner, Count, Refs, Mark, Pages, RebuiltSize, DropsBlocks, Kill, Conserved, NoHole, AllGrow;
    hide Base, LastAttr;
    var h := Truncate(f, newSize);
    var k := f.(log := Kill(f.log, f.lastAttr));
    var e := Attr(true, false, newSize, f.trans);
    var g := f.(log := k.log + [e], lastAttr := Some(|f.log|), size := newSize, trans := f.trans + 1);
    KillKeeps(f);
    AttrHarmless(k.log, e);
    if DropsBlocks(f.size, newSize) {
      DropFits(f.size, newSize);
      AppendAttr(k, e, Pages(f.size));
      TrimmedPartial(k, g, Pages(newSize), Pages(f.size));
      MarkAlike(g.log, g.tree, Pages(newSize), Pages(f.size));
    } else {
      NoDropFits(f.size, newSize);
      AppendKeeps(k, e, Pages(f.size));
      PartialFields(k.(log := k.log + [e]), g, Pages(newSize));
      AlikeSelf(g.log);
    }
    TruncateRest(f, g, h);
    KillShape(f.log, f.lastAttr);
    GrowShape(f.log, k.log);
    GrowAppend(k.log, e);
    AlikeShape(g.log, h.log);
    GrowShape(g.log, h.log);
  }

  lemma TrimmedPartial(k: File, g: File, first: nat, top: nat)
    requires g.log != [] && g.tree == k.tree && g.freed == k.freed && first <= top
    requires Under(g.tree, top) && NoHole(g.log, g.tree) && Conserved(k.(log := g.log), |g.log|, top)
    requires forall i :: 0 <= i < |g.log| ==> Counted(g.log, g.tree, i, top)
    requires forall p: nat :: Owner(g.log, p) == if p < first then At(g.tree, p) else None
    ensures var h := Trim(g, first, top); Partial(h, |h.log|, first)
  {
    hide Count, Refs, Granted, Owner, Partial, NoHole, Matches;
    var h := Trim(g, first, top);
    AlikeSelf(g.log);
    TrimPartial(g, first, top, g.log);
    PartialUnder(h, |h.log|, top, first);
  }

  lemma TruncateRest(f: File, g: File, h: File)
    requires Inv(f) && |g.log| == |f.log| + 1 && g.trans == f.trans + 1 && g.lastAttr == Some(|f.log|)
    requires g.log[|f.log|] == Attr(true, false, g.size, f.trans)
             || g.log[|f.log|] == Attr(false, false, g.size, f.trans)
    requires forall i :: 0 <= i < |f.log| ==> g.log[i].trans == f.log[i].trans
    requires AllHarmless(g.log)
    requires AllAlike(g.log, h.log) && h.size == g.size && h.trans == g.trans && h.lastAttr == g.lastAttr
    ensures AllHarmless(h.log) && LastAttr(h) && NewestValid(h) && SizeKnown(h)
  {
    hide Partial, Harmless, RebuiltSize, LastAttr;
    var n := |f.log|;
    assert forall i :: 0 <= i <= n ==> Alike(g.log[i], h.log[i]);
    AlikeHarmless(g.log, h.log);
    LastAttrNew(f, h);
    NewestDecides(h.log, n);
  }

  lemma SetAttrInv(f: File)
    requires Inv(f)
    ensures Inv(SetAttr(f))
  {
    hide Partial, Harmless, Owner, Pages, RebuiltSize, Kill, AllGrow, Base, LastAttr;
    if InPlace(f) {
      InPlaceInv(f);
    } else {
      var h := SetAttr(f);
      var k := f.(log := Kill(f.log, f.lastAttr));
      var e := Attr(false, false, f.size, f.trans);
      KillKeeps(f);
      MappedFits(k, Pages(f.size));
      AttrHarmless(k.log, e);
      AppendKeeps(k, e, Pages(f.size));
      PartialFields(k.(log := k.log + [e]), h, Pages(f.size));
      AlikeSelf(h.log);
      TruncateRest(f, h, h);
      KillShape(f.log, f.lastAttr);
      GrowShape(f.log, k.log);
      GrowAppend(k.log, e);
    }
  }

  lemma MappedFits(f: File, top: nat)
    requires Partial(f, |f.log|, top)
    ensures forall p: nat :: Owner(f.log, p).Some? ==> p < top
  {
    hide Owner, Count, Refs;
    assert f.log[..|f.log|] == f.log;
    forall p: nat | Owner(f.log, p).Some?
      ensures p < top
    {
      assert At(f.tree, p) == Owner(f.log, p);
    }
  }

  lemma InPlaceInv(f: File)
    requires Inv(f) && InPlace(f)
    ensures Inv(SetAttr(f))
  {
    hide Partial, Harmless, Owner, Pages, RebuiltSize, AllGrow, Base;
    var (i, h) := (f.lastAttr.value, SetAttr(f));
    var e := Attr(false, false, f.size, f.trans);
    ReplaceGrows(f.log, i, e);
    MappedFits(f, Pages(f.size));
    RewriteHarmless(f.log, i, e);
    ReplacePartial(f, i, e, Pages(f.size));
    PartialFields(f.(log := f.log[i := e]), h, Pages(f.size));
    assert forall j :: 0 <= j < |h.log| && h.log[j].Attr? && h.log[j].dead ==> HasLater(f.log, j);
    forall j | 0 <= j < |h.log| && h.log[j].Attr? && h.log[j].dead
      ensures HasLater(h.log, j)
    {
      var m :| j < m < |f.log| && f.log[m].Attr?;
      assert h.log[m].Attr?;
    }
    NewestDecides(h.log, i);
  }
}
