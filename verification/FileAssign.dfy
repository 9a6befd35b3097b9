/** Assigning a write entry, and cutting the file, keep the index exact. */
module FileAssign {
  import opened Options
  import opened FileLog
  import opened FileIndex
  import opened FileCounts

  lemma OwnerNext(log: seq<Entry>, k: nat, p: nat)
    requires k < |log|
    ensures Owner(log[..k + 1], p) ==
              if Covers(log[k], p) then Some(k) else if Cuts(log[k], p) then None else Owner(log[..k], p)
  {
    assert log[..k + 1][..k] == log[..k];
  }

  lemma OverlayAt(tree: map<nat, nat>, pgoff: nat, num: nat, i: nat, p: nat)
    ensures At(Overlay(tree, pgoff, num, i), p) == if pgoff <= p < pgoff + num then Some(i) else At(tree, p)
  {}

  lemma BelowAt(tree: map<nat, nat>, first: nat, p: nat)
    ensures At(Below(tree, first), p) == if p < first then At(tree, p) else None
  {}

  /** Mapped pages belong to entries already applied. */
  lemma Applied(f: File, k: nat, top: nat, p: nat)
    requires Partial(f, k, top) && p in f.tree
    ensures f.tree[p] < k && Covers(f.log[f.tree[p]], p)
  {
    assert At(f.tree, p) == Owner(f.log[..k], p);
  }

  lemma AssignMatches(f: File, k: nat, top: nat)
    requires Partial(f, k, top) && k < |f.log|
    ensures var g := Assign(f, k); AllAlike(f.log, g.log) && Matches(g.tree, g.log[..k + 1])
  {
    var g := Assign(f, k);
    var e := f.log[k];
    MarkAlike(f.log, f.tree, e.pgoff, e.pgoff + e.num);
    AlikePrefix(f.log, g.log, k + 1);
    forall p: nat
      ensures At(g.tree, p) == Owner(g.log[..k + 1], p)
    {
      OwnerAlike(f.log[..k + 1], g.log[..k + 1], p);
      OwnerNext(f.log, k, p);
      OverlayAt(f.tree, e.pgoff, e.num, k, p);
      assert At(f.tree, p) == Owner(f.log[..k], p);
    }
  }

  /** Pages outside the entry keep their counts; the entry itself takes all its pages. */
  lemma AssignCounts(f: File, k: nat, top: nat, i: nat)
    requires Partial(f, k, top) && k < |f.log|
    ensures var (e, g) := (f.log[k], Assign(f, k));
            && (i != k ==>
                  Count(g.tree, i, 0, top) + Count(f.tree, i, e.pgoff, e.pgoff + e.num) == Count(f.tree, i, 0, top))
            && (i == k ==> Count(g.tree, i, 0, top) == e.num)
            && (i >= k ==> Count(f.tree, i, e.pgoff, e.pgoff + e.num) == 0)
  {
    hide Partial, Count;
    AssignAgrees(f, k, top);
    var (e, g) := (f.log[k], Assign(f, k));
    var (lo, hi) := (e.pgoff, e.pgoff + e.num);
    CountSplit(g.tree, i, 0, lo, top);
    CountSplit(g.tree, i, lo, hi, top);
    CountSplit(f.tree, i, 0, lo, top);
    CountSplit(f.tree, i, lo, hi, top);
    CountAgree(f.tree, g.tree, i, 0, lo);
    CountAgree(f.tree, g.tree, i, hi, top);
    if i == k {
      CountAll(g.tree, k, lo, hi);
    } else {
      CountNone(g.tree, i, lo, hi);
    }
    if i >= k {
      NotYet(f, k, top, i, 0, top);
      CountSplit(f.tree, i, 0, lo, top);
    }
  }

  lemma NotYet(f: File, k: nat, top: nat, i: nat, lo: nat, hi: nat)
    requires Partial(f, k, top) && i >= k
    ensures Count(f.tree, i, lo, hi) == 0
  {
    forall p: nat | lo <= p < hi
      ensures At(f.tree, p) != Some(i)
    {
      if p in f.tree {
        Applied(f, k, top, p);
      }
    }
    CountNone(f.tree, i, lo, hi);
  }

  lemma AssignAgrees(f: File, k: nat, top: nat)
    requires Partial(f, k, top) && k < |f.log|
    ensures var (e, g) := (f.log[k], Assign(f, k));
            && e.Write? && e.num > 0 && e.invalid == 0 && e.pgoff + e.num <= top
            && AgreeOn(f.tree, g.tree, 0, e.pgoff) && AgreeOn(f.tree, g.tree, e.pgoff + e.num, top)
            && (forall p: nat :: e.pgoff <= p < e.pgoff + e.num ==> At(g.tree, p) == Some(k))
  {}

  lemma AssignConserves(f: File, k: nat, top: nat)
    requires Partial(f, k, top) && k < |f.log|
    ensures Conserved(Assign(f, k), k + 1, top)
  {
    hide Refs, Granted, Run, Partial, Overlay;
    AssignAgrees(f, k, top);
    var (e, g) := (f.log[k], Assign(f, k));
    var (lo, hi) := (e.pgoff, e.pgoff + e.num);
    MarkAlike(f.log, f.tree, lo, hi);
    RefsSplit(f.log, f.tree, 0, lo, top);
    RefsSplit(f.log, f.tree, lo, hi, top);
    RefsSplit(g.log, g.tree, 0, lo, top);
    RefsSplit(g.log, g.tree, lo, hi, top);
    RefsAgree(f.log, g.log, f.tree, g.tree, 0, lo);
    RefsAgree(f.log, g.log, f.tree, g.tree, hi, top);
    RefsRun(g.log, g.tree, k, lo, hi);
    GrantedMore(f.log, k);
    AlikePrefix(f.log, g.log, k + 1);
    GrantedAlike(f.log[..k + 1], g.log[..k + 1]);
    WasConserved(f, k, top);
    Shuffle(f.freed, Refs(f.log, f.tree, 0, lo), Refs(f.log, f.tree, lo, hi), Refs(f.log, f.tree, hi, top),
            Run(e.block, e.num));
  }

  lemma WasConserved(f: File, k: nat, top: nat)
    requires Partial(f, k, top)
    ensures k <= |f.log| && f.freed + Refs(f.log, f.tree, 0, top) == Granted(f.log[..k])
  {}

  lemma Shuffle(freed: multiset<nat>, a: multiset<nat>, b: multiset<nat>, c: multiset<nat>, run: multiset<nat>)
    ensures (freed + b) + (a + (run + c)) == (freed + (a + (b + c))) + run
  {}

  lemma AssignNoHole(f: File, k: nat, top: nat)
    requires Partial(f, k, top) && k < |f.log|
    ensures NoHole(Assign(f, k).log, Assign(f, k).tree)
  {
    hide Count, Refs, Granted;
    var g := Assign(f, k);
    var e := f.log[k];
    MarkAlike(f.log, f.tree, e.pgoff, e.pgoff + e.num);
    forall q | q in g.tree
      ensures g.tree[q] < |g.log| && FilledBelow(g.log[g.tree[q]], g.tree, q)
    {
      if !Covers(e, q) {
        assert q in f.tree && FilledBelow(f.log[f.tree[q]], f.tree, q);
        assert Alike(f.log[f.tree[q]], g.log[f.tree[q]]);
      } else {
        assert Alike(e, g.log[k]);
      }
    }
  }

  /** One step of nova_reassign_file_tree keeps the index exact. */
  lemma AssignPartial(f: File, k: nat, top: nat)
    requires Partial(f, k, top) && k < |f.log|
    ensures Partial(Assign(f, k), k + 1, top)
  {
    hide Count, Refs, Granted, Matches, NoHole, Overlay, Conserved;
    var (e, g) := (f.log[k], Assign(f, k));
    AssignMatches(f, k, top);
    AssignConserves(f, k, top);
    AssignNoHole(f, k, top);
    forall p | p in g.tree
      ensures p < top
    {
      OverlayAt(f.tree, e.pgoff, e.num, k, p);
    }
    forall i | 0 <= i < |g.log|
      ensures i <= k ==> Counted(g.log, g.tree, i, top)
      ensures i > k ==> g.log[i] == f.log[i]
    {
      AssignCounts(f, k, top, i);
      if i < k {
        assert Counted(f.log, f.tree, i, top);
      }
    }
  }

  lemma {:induction false} AssignAllPartial(f: File, k: nat, top: nat)
    requires Partial(f, k, top)
    ensures forall i :: k <= i < |f.log| ==> f.log[i].Write?
    ensures var g := AssignAll(f, k); Partial(g, |g.log|, top) && AllAlike(f.log, g.log) && g.lastAttr == f.lastAttr
    decreases |f.log| - k
  {
    hide Partial, Assign;
    PartialRest(f, k, top);
    if k < |f.log| {
      AssignPartial(f, k, top);
      AssignFrame(f, k);
      PartialRest(Assign(f, k), k + 1, top);
      AssignAllPartial(Assign(f, k), k + 1, top);
      AlikeTrans(f.log, Assign(f, k).log, AssignAll(f, k).log);
    } else {
      AlikeSelf(f.log);
    }
  }

  lemma PartialRest(f: File, k: nat, top: nat)
    requires Partial(f, k, top)
    ensures k <= |f.log| && forall i :: k <= i < |f.log| ==> f.log[i].Write?
  {}

  lemma AssignFrame(f: File, k: nat)
    requires k < |f.log| && f.log[k].Write?
    ensures |Assign(f, k).log| == |f.log| && AllAlike(f.log, Assign(f, k).log) && Assign(f, k).lastAttr == f.lastAttr
  {
    MarkAlike(f.log, f.tree, f.log[k].pgoff, f.log[k].pgoff + f.log[k].num);
  }

  lemma AlikeTrans(a: seq<Entry>, b: seq<Entry>, c: seq<Entry>)
    requires AllAlike(a, b) && AllAlike(b, c)
    ensures AllAlike(a, c)
  {
    forall i | 0 <= i < |a|
      ensures Alike(a[i], c[i])
    {
      assert Alike(a[i], b[i]) && Alike(b[i], c[i]);
    }
  }

  lemma AlikeSelf(a: seq<Entry>)
    ensures AllAlike(a, a)
  {}

  // ----- cutting the file -----

  lemma TrimCounts(f: File, first: nat, top: nat, i: nat)
    requires first <= top
    ensures Count(Below(f.tree, first), i, 0, top) + Count(f.tree, i, first, top) == Count(f.tree, i, 0, top)
  {
    var tree := Below(f.tree, first);
    CountSplit(f.tree, i, 0, first, top);
    CountSplit(tree, i, 0, first, top);
    CountAgree(f.tree, tree, i, 0, first);
    CountNone(tree, i, first, top);
  }

  lemma TrimRefs(f: File, first: nat, top: nat)
    requires first <= top
    ensures Refs(Trim(f, first, top).log, Trim(f, first, top).tree, 0, top) + Refs(f.log, f.tree, first, top) ==
              Refs(f.log, f.tree, 0, top)
  {
    hide Refs, Mark;
    var g := Trim(f, first, top);
    MarkAlike(f.log, f.tree, first, top);
    RefsSplit(f.log, f.tree, 0, first, top);
    RefsSplit(g.log, g.tree, 0, first, top);
    RefsAgree(f.log, g.log, f.tree, g.tree, 0, first);
    RefsNone(g.log, g.tree, first, top);
  }

  /** Cutting at a page keeps the counters, the conservation of blocks and the absence of holes. The log's
      owners are those of a log whose last entry makes the cut. */
  lemma TrimPartial(f: File, first: nat, top: nat, log: seq<Entry>)
    requires first <= top && Under(f.tree, top) && NoHole(f.log, f.tree) && Conserved(f, |f.log|, top)
    requires forall i :: 0 <= i < |f.log| ==> Counted(f.log, f.tree, i, top)
    requires AllAlike(f.log, log) && forall p: nat :: Owner(log, p) == if p < first then At(f.tree, p) else None
    ensures Partial(Trim(f, first, top), |f.log|, top) && Under(Trim(f, first, top).tree, first)
  {
    hide Count, Refs, Granted;
    var g := Trim(f, first, top);
    MarkAlike(f.log, f.tree, first, top);
    TrimRefs(f, first, top);
    GrantedAlike(f.log, g.log);
    assert f.log[..|f.log|] == f.log && g.log[..|f.log|] == g.log;
    forall i | 0 <= i < |f.log|
      ensures Counted(g.log, g.tree, i, top)
    {
      assert Counted(f.log, f.tree, i, top);
      TrimCounts(f, first, top, i);
    }
    AlikeTrans(g.log, f.log, log) by {
      AlikeBack(f.log, g.log);
    }
    TrimMatches(f, first, top, log);
    TrimNoHole(f, first, top);
  }

  lemma AlikeBack(a: seq<Entry>, b: seq<Entry>)
    requires AllAlike(a, b)
    ensures AllAlike(b, a)
  {
    forall i | 0 <= i < |a|
      ensures Alike(b[i], a[i])
    {
      assert Alike(a[i], b[i]);
    }
  }

  lemma TrimMatches(f: File, first: nat, top: nat, log: seq<Entry>)
    requires AllAlike(Trim(f, first, top).log, log)
    requires forall p: nat :: Owner(log, p) == if p < first then At(f.tree, p) else None
    ensures Matches(Trim(f, first, top).tree, Trim(f, first, top).log)
  {
    var g := Trim(f, first, top);
    forall p: nat
      ensures At(g.tree, p) == Owner(g.log, p)
    {
      OwnerAlike(g.log, log, p);
      BelowAt(f.tree, first, p);
    }
  }

  lemma TrimNoHole(f: File, first: nat, top: nat)
    requires NoHole(f.log, f.tree)
    ensures NoHole(Trim(f, first, top).log, Trim(f, first, top).tree)
  {
    var g := Trim(f, first, top);
    MarkAlike(f.log, f.tree, first, top);
    forall q | q in g.tree
      ensures g.tree[q] < |g.log| && FilledBelow(g.log[g.tree[q]], g.tree, q)
    {
      assert FilledBelow(f.log[f.tree[q]], f.tree, q) && Alike(f.log[f.tree[q]], g.log[f.tree[q]]);
    }
  }
}
