/** Counting mapped pages and referenced blocks over page intervals. */
module FileCounts {
  import opened Options
  import opened FileLog
  import opened FileIndex

  lemma {:induction false} CountSplit(tree: map<nat, nat>, i: nat, lo: nat, mid: nat, hi: nat)
    requires lo <= mid <= hi
    ensures Count(tree, i, lo, hi) == Count(tree, i, lo, mid) + Count(tree, i, mid, hi)
    decreases hi
  {
    if mid < hi {
      CountSplit(tree, i, lo, mid, hi - 1);
    }
  }

  lemma {:induction false} RefsSplit(log: seq<Entry>, tree: map<nat, nat>, lo: nat, mid: nat, hi: nat)
    requires lo <= mid <= hi
    ensures Refs(log, tree, lo, hi) == Refs(log, tree, lo, mid) + Refs(log, tree, mid, hi)
    decreases hi
  {
    hide Ref;
    if mid < hi {
      RefsSplit(log, tree, lo, mid, hi - 1);
    }
  }

  /** Only the pages in the interval and what the entries say of blocks matter. */
  predicate AgreeOn(a: map<nat, nat>, b: map<nat, nat>, lo: nat, hi: nat) {
    forall p: nat :: lo <= p < hi ==> At(a, p) == At(b, p)
  }

  lemma {:induction false} CountAgree(a: map<nat, nat>, b: map<nat, nat>, i: nat, lo: nat, hi: nat)
    requires AgreeOn(a, b, lo, hi)
    ensures Count(a, i, lo, hi) == Count(b, i, lo, hi)
    decreases hi
  {
    if lo < hi {
      CountAgree(a, b, i, lo, hi - 1);
    }
  }

  lemma {:induction false} RefsAgree(la: seq<Entry>, lb: seq<Entry>, a: map<nat, nat>, b: map<nat, nat>, lo: nat,
                                     hi: nat)
    requires AllAlike(la, lb) && AgreeOn(a, b, lo, hi)
    ensures Refs(la, a, lo, hi) == Refs(lb, b, lo, hi)
    decreases hi
  {
    hide Ref;
    if lo < hi {
      RefsAgree(la, lb, a, b, lo, hi - 1);
      RefAgree(la, lb, a, b, hi - 1);
    }
  }

  lemma RefAgree(la: seq<Entry>, lb: seq<Entry>, a: map<nat, nat>, b: map<nat, nat>, p: nat)
    requires AllAlike(la, lb) && At(a, p) == At(b, p)
    ensures Ref(la, a, p) == Ref(lb, b, p)
  {
    if p in a && a[p] < |la| {
      assert Alike(la[a[p]], lb[a[p]]);
    }
  }

  lemma {:induction false} CountNone(tree: map<nat, nat>, i: nat, lo: nat, hi: nat)
    requires forall p: nat :: lo <= p < hi ==> At(tree, p) != Some(i)
    ensures Count(tree, i, lo, hi) == 0
    decreases hi
  {
    if lo < hi {
      CountNone(tree, i, lo, hi - 1);
    }
  }

  lemma {:induction false} CountAll(tree: map<nat, nat>, i: nat, lo: nat, hi: nat)
    requires lo <= hi && forall p: nat :: lo <= p < hi ==> At(tree, p) == Some(i)
    ensures Count(tree, i, lo, hi) == hi - lo
    decreases hi
  {
    if lo < hi {
      CountAll(tree, i, lo, hi - 1);
    }
  }

  lemma {:induction false} CountSome(tree: map<nat, nat>, i: nat, lo: nat, hi: nat, p: nat)
    requires lo <= p < hi && At(tree, p) == Some(i)
    ensures Count(tree, i, lo, hi) > 0
    decreases hi
  {
    if p < hi - 1 {
      CountSome(tree, i, lo, hi - 1, p);
    }
  }

  lemma {:induction false} RefsNone(log: seq<Entry>, tree: map<nat, nat>, lo: nat, hi: nat)
    requires forall p: nat :: lo <= p < hi ==> At(tree, p) == None
    ensures Refs(log, tree, lo, hi) == multiset{}
    decreases hi
  {
    if lo < hi {
      RefsNone(log, tree, lo, hi - 1);
      assert At(tree, hi - 1) == None;
    }
  }

  /** Consecutive pages of one entry refer to consecutive blocks. */
  lemma {:induction false} RefsRun(log: seq<Entry>, tree: map<nat, nat>, i: nat, lo: nat, hi: nat)
    requires i < |log| && log[i].Write? && log[i].pgoff <= lo <= hi <= log[i].pgoff + log[i].num
    requires forall p: nat :: lo <= p < hi ==> At(tree, p) == Some(i)
    ensures Refs(log, tree, lo, hi) == Run(log[i].block + (lo - log[i].pgoff), hi - lo)
    decreases hi
  {
    hide Ref, Refs, Run;
    var (b, n) := (log[i].block + (lo - log[i].pgoff), hi - lo);
    RefsLast(log, tree, lo, hi);
    RunLast(b, n);
    if lo < hi {
      RefsRun(log, tree, i, lo, hi - 1);
      RefAt(log, tree, i, hi - 1);
    }
  }

  lemma RefsLast(log: seq<Entry>, tree: map<nat, nat>, lo: nat, hi: nat)
    ensures Refs(log, tree, lo, hi) ==
              if hi <= lo then multiset{} else Refs(log, tree, lo, hi - 1) + Ref(log, tree, hi - 1)
  {}

  lemma RunLast(b: nat, n: nat)
    ensures Run(b, n) == if n == 0 then multiset{} else Run(b, n - 1) + multiset{b + n - 1}
  {}

  lemma RefAt(log: seq<Entry>, tree: map<nat, nat>, i: nat, p: nat)
    requires i < |log| && Covers(log[i], p) && At(tree, p) == Some(i)
    ensures Ref(log, tree, p) == multiset{log[i].block + (p - log[i].pgoff)}
  {}

  lemma {:induction false} GrantedAlike(a: seq<Entry>, b: seq<Entry>)
    requires AllAlike(a, b)
    ensures Granted(a) == Granted(b)
  {
    hide Run;
    if a != [] {
      var n := |a| - 1;
      assert Alike(a[n], b[n]);
      GrantedAlike(a[..n], b[..n]);
    }
  }

  lemma GrantedMore(log: seq<Entry>, k: nat)
    requires k < |log|
    ensures Granted(log[..k + 1]) ==
              Granted(log[..k]) + if log[k].Write? then Run(log[k].block, log[k].num) else multiset{}
  {
    hide Run;
    assert log[..k + 1][..k] == log[..k];
  }

  lemma MarkAlike(log: seq<Entry>, tree: map<nat, nat>, lo: nat, hi: nat)
    ensures AllAlike(log, Mark(log, tree, lo, hi))
  {}

  lemma AlikePrefix(a: seq<Entry>, b: seq<Entry>, k: nat)
    requires AllAlike(a, b) && k <= |a|
    ensures AllAlike(a[..k], b[..k])
  {}

  /** Beyond the mapped pages there is nothing to count. */
  lemma CountTop(tree: map<nat, nat>, i: nat, lo: nat, top: nat, more: nat)
    requires Under(tree, top) && lo <= top <= more
    ensures Count(tree, i, lo, more) == Count(tree, i, lo, top)
  {
    CountSplit(tree, i, lo, top, more);
    CountNone(tree, i, top, more);
  }

  lemma RefsTop(log: seq<Entry>, tree: map<nat, nat>, lo: nat, top: nat, more: nat)
    requires Under(tree, top) && lo <= top <= more
    ensures Refs(log, tree, lo, more) == Refs(log, tree, lo, top)
  {
    RefsSplit(log, tree, lo, top, more);
    RefsNone(log, tree, top, more);
  }

  /** A larger bound serves as well. */
  lemma PartialTop(f: File, k: nat, top: nat, more: nat)
    requires Partial(f, k, top) && top <= more
    ensures Partial(f, k, more)
  {
    hide Count, Refs, Matches, NoHole, Granted;
    forall i | 0 <= i < k
      ensures Counted(f.log, f.tree, i, more)
    {
      assert Counted(f.log, f.tree, i, top);
      CountTop(f.tree, i, 0, top, more);
    }
    RefsTop(f.log, f.tree, 0, top, more);
  }

  /** And so does a smaller one that still lies above all mapped pages. */
  lemma PartialUnder(f: File, k: nat, top: nat, less: nat)
    requires Partial(f, k, top) && less <= top && Under(f.tree, less)
    requires forall i :: k <= i < |f.log| ==> f.log[i].Write? && f.log[i].pgoff + f.log[i].num <= less
    ensures Partial(f, k, less)
  {
    hide Count, Refs, Matches, NoHole, Granted;
    forall i | 0 <= i < k
      ensures Counted(f.log, f.tree, i, less)
    {
      assert Counted(f.log, f.tree, i, top);
      CountTop(f.tree, i, 0, less, top);
    }
    RefsTop(f.log, f.tree, 0, less, top);
  }
}
