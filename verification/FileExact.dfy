/** While no crash loses an update, the counters of superseded pages are exact. */
module FileExact {
  import opened Options
  import opened FileLog
  import opened FileIndex
  import opened FileCounts
  import opened FileAssign
  import opened FileChunks
  import opened FileTheorems

  lemma AssignExact(f: File, k: nat, top: nat)
    requires Partial(f, k, top) && k < |f.log| && Exact(f.log, f.tree, k, top)
    ensures Exact(Assign(f, k).log, Assign(f, k).tree, k + 1, top)
  {
    hide Partial, Count, Overlay;
    AssignAgrees(f, k, top);
    var g := Assign(f, k);
    forall i | 0 <= i < k + 1 && g.log[i].Write?
      ensures g.log[i].invalid + Count(g.tree, i, 0, top) == g.log[i].num
    {
      AssignCounts(f, k, top, i);
    }
  }

  lemma {:induction false} AssignAllExact(f: File, k: nat, top: nat)
    requires Partial(f, k, top) && Exact(f.log, f.tree, k, top) && forall i :: k <= i < |f.log| ==> f.log[i].Write?
    ensures var g := AssignAll(f, k); Exact(g.log, g.tree, |g.log|, top)
    decreases |f.log| - k
  {
    hide Partial, Assign, Exact;
    PartialRest(f, k, top);
    if k < |f.log| {
      AssignPartial(f, k, top);
      AssignFrame(f, k);
      AssignExact(f, k, top);
      PartialRest(Assign(f, k), k + 1, top);
      AssignAllExact(Assign(f, k), k + 1, top);
    }
  }

  lemma ExactTop(f: File, low: nat, high: nat)
    requires Under(f.tree, low) && low <= high
    ensures Exact(f.log, f.tree, |f.log|, low) <==> Exact(f.log, f.tree, |f.log|, high)
  {
    hide Count;
    forall i: nat
      ensures Count(f.tree, i, 0, low) == Count(f.tree, i, 0, high)
    {
      CountTop(f.tree, i, 0, low, high);
    }
  }

  lemma WriteExact(f: File, pos: nat, len: nat, grants: seq<Grant>)
    requires Inv(f) && Grantable(pos, len, grants) && Exact(f.log, f.tree, |f.log|, Pages(f.size))
    ensures var h := CowWrite(f, pos, len, grants); Exact(h.log, h.tree, |h.log|, Pages(h.size))
  {
    hide Partial, Chunks, Sum, AssignAll, Touched, Pages, Count, Harmless, AllGrow, Base, RebuiltSize;
    var (n, end) := (|f.log|, pos + len);
    var log := f.log + Chunks(pos / PAGE, end, f.size, f.trans, grants);
    var h := CowWrite(f, pos, len, grants);
    TouchedPages(pos, len);
    PagesMono(f.size, h.size);
    PagesMono(end, h.size);
    assert log[..n] == f.log;
    CommittedPartial(f, pos, end, f.size, grants, Pages(h.size), log);
    MappedUnder(f);
    ExactTop(f, Pages(f.size), Pages(h.size));
    AssignAllExact(f.(log := log), n, Pages(h.size));
  }

  /** Attribute entries have no counters. */
  lemma ExactAttrs(f: File, g: File, top: nat)
    requires |f.log| <= |g.log| && f.tree == g.tree && Exact(f.log, f.tree, |f.log|, top)
    requires forall i :: 0 <= i < |g.log| && g.log[i].Write? ==> i < |f.log| && g.log[i] == f.log[i]
    ensures Exact(g.log, g.tree, |g.log|, top)
  {}

  lemma TruncateExact(f: File, newSize: nat)
    requires Inv(f) && Exact(f.log, f.tree, |f.log|, Pages(f.size))
    ensures var h := Truncate(f, newSize); Exact(h.log, h.tree, |h.log|, Pages(newSize))
  {
    hide Partial, Pages, Count, Harmless, AllGrow, Base, RebuiltSize, DropsBlocks, Exact;
    var h := Truncate(f, newSize);
    var e := Attr(true, false, newSize, f.trans);
    var g := f.(log := Kill(f.log, f.lastAttr) + [e], lastAttr := Some(|f.log|), size := newSize, trans := f.trans + 1);
    ExactAttrs(f, g, Pages(f.size));
    TruncateInv(f, newSize);
    MappedUnder(h);
    if DropsBlocks(f.size, newSize) {
      DropFits(f.size, newSize);
      TrimExact(g, Pages(newSize), Pages(f.size));
      ExactTop(h, Pages(newSize), Pages(f.size));
    } else {
      NoDropFits(f.size, newSize);
      MappedUnder(f);
      ExactTop(g, Pages(f.size), Pages(newSize));
    }
  }

  lemma TrimExact(f: File, first: nat, top: nat)
    requires first <= top && Exact(f.log, f.tree, |f.log|, top)
    ensures var g := Trim(f, first, top); Exact(g.log, g.tree, |g.log|, top)
  {
    hide Count, Below;
    var g := Trim(f, first, top);
    forall i | 0 <= i < |g.log| && g.log[i].Write?
      ensures g.log[i].invalid + Count(g.tree, i, 0, top) == g.log[i].num
    {
      TrimCounts(f, first, top, i);
    }
  }

  lemma SetAttrExact(f: File)
    requires Inv(f) && Exact(f.log, f.tree, |f.log|, Pages(f.size))
    ensures var h := SetAttr(f); Exact(h.log, h.tree, |h.log|, Pages(h.size))
  {
    hide Partial, Pages, Count, Harmless, AllGrow, Base, RebuiltSize, Exact;
    ExactAttrs(f, SetAttr(f), Pages(f.size));
  }
}
