/** Garbage collection as the live index of a regular file sees it (gc.c): invalid entries leave the log, the page map
    follows the others to their new places, and all later operations may build on the result. */
module FileCollect {
  import opened Options
  import opened FileLog
  import opened FileIndex
  import opened FileCounts
  import opened FileAssign
  import opened FileSizes
  import opened FileCuts
  import opened FileTheorems

  /** The log without the entries in `drop`. */
  function Kept(log: seq<Entry>, drop: set<nat>): seq<Entry> {
    if log == [] then []
    else Kept(log[..|log| - 1], drop) + if |log| - 1 in drop then [] else [log[|log| - 1]]
  }

  /** The entries in `drop`. */
  function Gone(log: seq<Entry>, drop: set<nat>): seq<Entry> {
    if log == [] then []
    else Gone(log[..|log| - 1], drop) + if |log| - 1 in drop then [log[|log| - 1]] else []
  }

  /** Where entry i ends up. */
  function Pos(drop: set<nat>, i: nat): nat {
    if i == 0 then 0 else Pos(drop, i - 1) + if i - 1 in drop then 0 else 1
  }

  predicate Droppable(log: seq<Entry>, drop: set<nat>) {
    forall i :: i in drop && i < |log| ==> !Valid(log[i])
  }

  /** The thorough collector drops every invalid entry among those it goes through. */
  predicate Collectable(f: File, drop: set<nat>, moved: nat) {
    Droppable(f.log, drop) && moved <= |f.log| && forall i :: 0 <= i < moved && !Valid(f.log[i]) ==> i in drop
  }

  /** A collection: the fast collector drops pages of invalid entries and moves none. The thorough one copies the valid
      ones of the first `moved` entries, and `last_setattr` follows every attribute entry it copies, so it ends at the
      last of these. The blocks of dropped entries leave the account. */
  function Collect(f: File, drop: set<nat>, moved: nat): File
    requires moved <= |f.log|
  {
    var copied := LastAttrOf(Kept(f.log[..moved], drop));
    File(Kept(f.log, drop), map p | p in f.tree :: Pos(drop, f.tree[p]), f.size, f.trans,
         if copied.Some? then copied else if f.lastAttr.Some? then Some(Pos(drop, f.lastAttr.value)) else None,
         f.freed - Granted(Gone(f.log, drop)))
  }

  // ----- places -----

  lemma {:induction false} PosMono(drop: set<nat>, i: nat, j: nat)
    requires i <= j
    ensures Pos(drop, i) <= Pos(drop, j) && (i < j && i !in drop ==> Pos(drop, i) < Pos(drop, j))
    decreases j
  {
    if i < j {
      PosMono(drop, i, j - 1);
    }
  }

  lemma {:induction false} KeptLength(log: seq<Entry>, drop: set<nat>)
    ensures |Kept(log, drop)| == Pos(drop, |log|)
  {
    if log != [] {
      KeptLength(log[..|log| - 1], drop);
    }
  }

  lemma {:induction false} KeptPrefix(log: seq<Entry>, drop: set<nat>, m: nat)
    requires m <= |log|
    ensures Pos(drop, m) <= |Kept(log, drop)| && Kept(log[..m], drop) == Kept(log, drop)[..Pos(drop, m)]
    decreases |log|
  {
    hide Pos;
    KeptLength(log, drop);
    KeptLength(log[..m], drop);
    PosMono(drop, m, |log|);
    if m == |log| {
      assert log[..m] == log;
    } else {
      var n := |log| - 1;
      KeptPrefix(log[..n], drop, m);
      assert log[..n][..m] == log[..m];
    }
  }

  lemma {:induction false} KeptAt(log: seq<Entry>, drop: set<nat>, i: nat)
    requires i < |log| && i !in drop
    ensures Pos(drop, i) < |Kept(log, drop)| && Kept(log, drop)[Pos(drop, i)] == log[i]
    decreases |log|
  {
    hide Pos;
    var n := |log| - 1;
    if i < n {
      KeptAt(log[..n], drop, i);
    } else {
      KeptLength(log[..n], drop);
    }
  }

  lemma {:induction false} KeptFrom(log: seq<Entry>, drop: set<nat>, j: nat) returns (i: nat)
    requires j < |Kept(log, drop)|
    ensures i < |log| && i !in drop && Pos(drop, i) == j && Kept(log, drop)[j] == log[i]
    decreases |log|
  {
    var n := |log| - 1;
    KeptLength(log[..n], drop);
    if j < |Kept(log[..n], drop)| {
      i := KeptFrom(log[..n], drop, j);
    } else {
      i := n;
    }
  }

  /** Kept entries keep their order. */
  lemma PosOrder(drop: set<nat>, i: nat, j: nat)
    requires i !in drop && j !in drop
    ensures i < j <==> Pos(drop, i) < Pos(drop, j)
    ensures i == j <==> Pos(drop, i) == Pos(drop, j)
  {
    if i <= j {
      PosMono(drop, i, j);
    } else {
      PosMono(drop, j, i);
    }
  }

  // ----- owners -----

  lemma MappedKept(f: File, drop: set<nat>, p: nat)
    requires Inv(f) && Droppable(f.log, drop) && p in f.tree
    ensures f.tree[p] < |f.log| && f.tree[p] !in drop && Covers(f.log[f.tree[p]], p)
  {
    hide Owner, Count, Refs, Granted, Harmless, LastAttr, AllGrow, Base;
    OwnerCounts(f, p);
    Applied(f, |f.log|, Pages(f.size), p);
  }

  lemma CutKept(log: seq<Entry>, drop: set<nat>, k: nat, p: nat)
    requires AllHarmless(log) && Droppable(log, drop) && k < |log| && k !in drop && CutAfter(log, k, p)
    ensures CutAfter(Kept(log, drop), Pos(drop, k), p)
  {
    hide Kept, Pos;
    var j :| k < j < |log| && SizedCut(log[j], p);
    assert Harmless(log, j);
    KeptAt(log, drop, j);
    PosOrder(drop, k, j);
    assert SizedCut(Kept(log, drop)[Pos(drop, j)], p);
  }

  /** A page keeps its owner, which moved. */
  lemma OwnerKept(log: seq<Entry>, drop: set<nat>, p: nat)
    requires AllHarmless(log) && Droppable(log, drop)
    requires Owner(log, p).Some? ==> Owner(log, p).value !in drop
    ensures Owner(Kept(log, drop), p) ==
              if Owner(log, p).Some? then Some(Pos(drop, Owner(log, p).value)) else None
  {
    hide Kept, Pos, Owner, Harmless, CutAfter;
    var (out, o) := (Kept(log, drop), Owner(log, p));
    if o.Some? {
      var k := o.value;
      KeptAt(log, drop, k);
      forall j | Pos(drop, k) < j < |out|
        ensures !Covers(out[j], p) && !Cuts(out[j], p)
      {
        var i := KeptFrom(log, drop, j);
        PosOrder(drop, k, i);
        OwnerIsLast(log, p, i);
      }
      OwnerLatest(out, Pos(drop, k), p);
    } else {
      forall j | 0 <= j < |out| && Covers(out[j], p)
        ensures CutAfter(out, j, p)
      {
        var k := KeptFrom(log, drop, j);
        assert log[..|log|] == log;
        NoneCut(log, |log|, k, p);
        CutKept(log, drop, k, p);
      }
      CutNone(out, p);
    }
  }

  lemma KeptHarmless(log: seq<Entry>, drop: set<nat>)
    requires AllHarmless(log) && Droppable(log, drop)
    ensures AllHarmless(Kept(log, drop))
  {
    hide Kept, Pos, CutAfter;
    var out := Kept(log, drop);
    forall j | 0 <= j < |out|
      ensures Harmless(out, j)
    {
      var i := KeptFrom(log, drop, j);
      assert Harmless(log, i);
      if out[j].Attr? && !out[j].sized {
        forall m: nat, p: nat | m < j && Covers(out[m], p) && Pages(out[j].size) <= p
          ensures CutAfter(out, m, p)
        {
          var k := KeptFrom(log, drop, m);
          PosOrder(drop, k, i);
          assert Covers(log[k], p);
          CutKept(log, drop, k, p);
        }
      }
    }
  }

  // ----- counting -----

  /** The page map after entries moved. */
  function Moved(tree: map<nat, nat>, drop: set<nat>): map<nat, nat> {
    map p | p in tree :: Pos(drop, tree[p])
  }

  lemma {:induction false} CountKept(tree: map<nat, nat>, drop: set<nat>, i: nat, lo: nat, hi: nat)
    requires i !in drop && forall p :: p in tree ==> tree[p] !in drop
    ensures Count(Moved(tree, drop), Pos(drop, i), lo, hi) == Count(tree, i, lo, hi)
    decreases hi
  {
    hide Pos;
    if lo < hi {
      CountKept(tree, drop, i, lo, hi - 1);
      if hi - 1 in tree {
        PosOrder(drop, i, tree[hi - 1]);
      }
    }
  }

  lemma {:induction false} RefsKept(log: seq<Entry>, tree: map<nat, nat>, drop: set<nat>, lo: nat, hi: nat)
    requires forall p :: p in tree ==> tree[p] < |log| && tree[p] !in drop
    ensures Refs(Kept(log, drop), Moved(tree, drop), lo, hi) == Refs(log, tree, lo, hi)
    decreases hi
  {
    hide Pos, Kept;
    if lo < hi {
      RefsKept(log, tree, drop, lo, hi - 1);
      if hi - 1 in tree {
        KeptAt(log, drop, tree[hi - 1]);
      }
    }
  }

  lemma {:induction false} GrantedKept(log: seq<Entry>, drop: set<nat>)
    ensures Granted(log) == Granted(Kept(log, drop)) + Granted(Gone(log, drop))
  {
    hide Run;
    if log != [] {
      var n := |log| - 1;
      GrantedKept(log[..n], drop);
      if n in drop {
        var gone := Gone(log[..n], drop);
        assert (gone + [log[n]])[..|gone|] == gone;
        assert Kept(log, drop) == Kept(log[..n], drop);
      } else {
        var kept := Kept(log[..n], drop);
        assert (kept + [log[n]])[..|kept|] == kept;
        assert Gone(log, drop) == Gone(log[..n], drop);
      }
    }
  }

  /** The blocks that pages lo..hi refer to through the first n entries. */
  function Part(log: seq<Entry>, tree: map<nat, nat>, n: nat, hi: nat): multiset<nat>
    requires n <= |log|
    decreases hi
  {
    if hi == 0 then multiset{}
    else
      var p := hi - 1;
      Part(log, tree, n, p) +
      if p in tree && tree[p] < n then multiset{BlockOf(log[tree[p]], p)} else multiset{}
  }

  /** How many of an entry's pages lie below hi. */
  function PagesBelow(e: Entry, hi: nat): nat {
    if e.Attr? || hi <= e.pgoff then 0 else Min(hi - e.pgoff, e.num)
  }

  function RunBelow(e: Entry, hi: nat): multiset<nat> {
    if e.Write? then Run(e.block, PagesBelow(e, hi)) else multiset{}
  }

  lemma RunNext(e: Entry, hi: nat)
    ensures RunBelow(e, hi) <= RunBelow(e, hi + 1)
    ensures Covers(e, hi) ==> RunBelow(e, hi + 1) == RunBelow(e, hi) + multiset{BlockOf(e, hi)}
  {
    hide Run;
    if Covers(e, hi) {
      RunLast(e.block, PagesBelow(e, hi + 1));
    }
  }

  /** The pages of one entry refer to distinct blocks of it. */
  lemma {:induction false} PartStep(log: seq<Entry>, tree: map<nat, nat>, n: nat, hi: nat)
    requires n < |log| && forall p :: p in tree && tree[p] == n ==> Covers(log[n], p)
    ensures Part(log, tree, n + 1, hi) <= Part(log, tree, n, hi) + RunBelow(log[n], hi)
    decreases hi
  {
    hide RunBelow;
    if hi > 0 {
      PartStep(log, tree, n, hi - 1);
      RunNext(log[n], hi - 1);
    }
  }

  lemma {:induction false} RunGrows(block: nat, m: nat, n: nat)
    requires m <= n
    ensures Run(block, m) <= Run(block, n)
  {
    if m < n {
      RunGrows(block, m, n - 1);
    }
  }

  lemma {:induction false} PartWithin(log: seq<Entry>, tree: map<nat, nat>, n: nat, hi: nat)
    requires n <= |log| && forall p :: p in tree ==> tree[p] < |log| && Covers(log[tree[p]], p)
    ensures Part(log, tree, n, hi) <= Granted(log[..n])
  {
    hide Part, Run;
    if n == 0 {
      PartNone(log, tree, hi);
    } else {
      PartWithin(log, tree, n - 1, hi);
      PartStep(log, tree, n - 1, hi);
      GrantedMore(log, n - 1);
      var e := log[n - 1];
      if e.Write? {
        RunGrows(e.block, PagesBelow(e, hi), e.num);
      }
    }
  }

  lemma {:induction false} PartNone(log: seq<Entry>, tree: map<nat, nat>, hi: nat)
    ensures Part(log, tree, 0, hi) == multiset{}
    decreases hi
  {
    if hi > 0 {
      PartNone(log, tree, hi - 1);
    }
  }

  lemma {:induction false} PartAll(log: seq<Entry>, tree: map<nat, nat>, hi: nat)
    ensures Part(log, tree, |log|, hi) == Refs(log, tree, 0, hi)
    decreases hi
  {
    if hi > 0 {
      PartAll(log, tree, hi - 1);
    }
  }

  /** What the pages refer to was granted, as often. */
  lemma RefsGranted(log: seq<Entry>, tree: map<nat, nat>, hi: nat)
    requires forall p :: p in tree ==> tree[p] < |log| && Covers(log[tree[p]], p)
    ensures Refs(log, tree, 0, hi) <= Granted(log)
  {
    hide Part, Refs, Granted;
    PartWithin(log, tree, |log|, hi);
    PartAll(log, tree, hi);
    assert log[..|log|] == log;
  }

  lemma Accounts(freed: multiset<nat>, refs: multiset<nat>, kept: multiset<nat>, gone: multiset<nat>)
    requires freed + refs == kept + gone && refs <= kept
    ensures gone <= freed && (freed - gone) + refs == kept
  {
    forall b: nat
      ensures gone[b] <= freed[b] && (freed - gone)[b] + refs[b] == kept[b]
    {
      assert (freed + refs)[b] == (kept + gone)[b];
    }
  }

  /** Every block of a dropped entry was freed, and the account of the others adds up. */
  lemma CollectConserves(f: File, drop: set<nat>, moved: nat)
    requires Inv(f) && Droppable(f.log, drop) && moved <= |f.log|
    ensures Granted(Gone(f.log, drop)) <= f.freed
    ensures var g := Collect(f, drop, moved); Conserved(g, |g.log|, Pages(f.size))
  {
    hide Granted, Refs, Kept, Gone, Pos, LastAttrOf, Owner, Count, Harmless, AllGrow, Base, LastAttr;
    var (top, out, tree) := (Pages(f.size), Kept(f.log, drop), Moved(f.tree, drop));
    forall p | p in f.tree
      ensures f.tree[p] < |f.log| && f.tree[p] !in drop && Covers(f.log[f.tree[p]], p)
      ensures tree[p] < |out| && Covers(out[tree[p]], p)
    {
      MappedKept(f, drop, p);
      KeptAt(f.log, drop, f.tree[p]);
    }
    RefsKept(f.log, f.tree, drop, 0, top);
    RefsGranted(out, tree, top);
    GrantedKept(f.log, drop);
    assert f.log[..|f.log|] == f.log && out[..|out|] == out;
    Accounts(f.freed, Refs(f.log, f.tree, 0, top), Granted(out), Granted(Gone(f.log, drop)));
  }

  lemma CollectPartial(f: File, drop: set<nat>, moved: nat)
    requires Inv(f) && Droppable(f.log, drop) && moved <= |f.log|
    ensures var g := Collect(f, drop, moved); Partial(g, |g.log|, Pages(f.size))
  {
    hide Granted, Refs, Kept, Gone, Pos, LastAttrOf, Owner, Count, Harmless, AllGrow, Base, LastAttr, Conserved;
    var (top, g) := (Pages(f.size), Collect(f, drop, moved));
    CollectConserves(f, drop, moved);
    assert f.log[..|f.log|] == f.log && g.log[..|g.log|] == g.log && g.tree == Moved(f.tree, drop);
    forall p | p in f.tree
      ensures f.tree[p] < |f.log| && f.tree[p] !in drop
    {
      MappedKept(f, drop, p);
    }
    forall p: nat
      ensures At(g.tree, p) == Owner(g.log, p)
    {
      assert At(f.tree, p) == Owner(f.log, p);
      OwnerKept(f.log, drop, p);
    }
    forall j | 0 <= j < |g.log|
      ensures Counted(g.log, g.tree, j, top)
    {
      var i := KeptFrom(f.log, drop, j);
      assert Counted(f.log, f.tree, i, top);
      CountKept(f.tree, drop, i, 0, top);
    }
    forall q | q in g.tree
      ensures g.tree[q] < |g.log| && FilledBelow(g.log[g.tree[q]], g.tree, q)
    {
      KeptAt(f.log, drop, f.tree[q]);
      assert FilledBelow(f.log[f.tree[q]], f.tree, q);
    }
  }

  // ----- sizes -----

  /** Two replays that agree on the newest transaction, or have not met it. */
  predicate SameNewest(a: (nat, nat), b: (nat, nat), t: nat) {
    a.1 <= t && b.1 <= t && (a.1 == t <==> b.1 == t) && (a.1 == t ==> a == b)
  }

  lemma NewestStep(a: (nat, nat), b: (nat, nat), e: Entry, t: nat)
    requires SameNewest(a, b, t) && e.trans <= t
    ensures SameNewest(Newer(a, e), Newer(b, e), t)
    ensures e.trans < t ==> SameNewest(Newer(a, e), b, t)
  {}

  lemma {:induction false} SizeKept(log: seq<Entry>, drop: set<nat>, t: nat)
    requires forall i :: 0 <= i < |log| ==> log[i].trans <= t && (i in drop ==> log[i].trans < t)
    ensures SameNewest(RebuiltSize(log), RebuiltSize(Kept(log, drop)), t)
  {
    hide SameNewest, Newer;
    if log == [] {
      SizeNone(t);
    } else {
      var (n, out) := (|log| - 1, Kept(log, drop));
      SizeKept(log[..n], drop, t);
      NewestStep(RebuiltSize(log[..n]), RebuiltSize(Kept(log[..n], drop)), log[n], t);
      if n in drop {
        assert out == Kept(log[..n], drop);
      } else {
        assert out[..|out| - 1] == Kept(log[..n], drop);
      }
    }
  }

  lemma SizeNone(t: nat)
    ensures SameNewest(RebuiltSize([]), RebuiltSize([]), t)
  {}

  /** Dropping entries keeps the sizes large enough. */
  lemma {:induction false} GrowKept(log: seq<Entry>, drop: set<nat>)
    requires AllGrow(log) && forall i :: i in drop && i < |log| ==> log[i].Write? || !log[i].sized
    ensures AllGrow(Kept(log, drop)) && Base(Kept(log, drop)) <= Base(log)
  {
    hide Pages;
    if log != [] {
      var n := |log| - 1;
      assert forall i :: 0 <= i < n ==> Grows(log, i) && log[..n][..i] == log[..i];
      GrowKept(log[..n], drop);
      assert Grows(log, n);
      if n in drop {
        assert Kept(log, drop) == Kept(log[..n], drop);
      } else {
        GrowAppend(Kept(log[..n], drop), log[n]);
        assert Kept(log, drop) == Kept(log[..n], drop) + [log[n]];
      }
    }
  }

  /** The last entry that says how large the file is. */
  function LastSetter(log: seq<Entry>): Option<nat> {
    if log == [] then None
    else
      var n := |log| - 1;
      if log[n].Attr? && !log[n].sized then LastSetter(log[..n]) else Some(n)
  }

  lemma {:induction false} LastSetterIs(log: seq<Entry>, j: nat)
    requires LastSetter(log).Some?
    ensures var i := LastSetter(log).value;
            i < |log| && (log[i].Write? || log[i].sized) && (i < j < |log| ==> log[j].Attr? && !log[j].sized)
  {
    var n := |log| - 1;
    if log[n].Attr? && !log[n].sized {
      LastSetterIs(log[..n], if j < n then j else 0);
    }
  }

  lemma {:induction false} BaseKept(log: seq<Entry>, drop: set<nat>)
    requires LastSetter(log).Some? ==> LastSetter(log).value !in drop
    ensures Base(Kept(log, drop)) == Base(log)
  {
    if log != [] {
      var (n, out) := (|log| - 1, Kept(log, drop));
      if log[n].Attr? && !log[n].sized {
        BaseKept(log[..n], drop);
        if n in drop {
          assert out == Kept(log[..n], drop);
        } else {
          assert out[..|out| - 1] == Kept(log[..n], drop);
        }
      }
    }
  }

  /** That entry is valid: its first page is still its own. */
  lemma SetterValid(f: File)
    requires Inv(f) && LastSetter(f.log).Some?
    ensures LastSetter(f.log).value < |f.log| && Valid(f.log[LastSetter(f.log).value])
  {
    hide Owner, Count, Refs, Granted, CutAfter, AllGrow, Base, LastSetter, LastAttr;
    var i := LastSetter(f.log).value;
    LastSetterIs(f.log, 0);
    var e := f.log[i];
    if e.Attr? {
      assert Harmless(f.log, i);
    } else {
      assert Counted(f.log, f.tree, i, Pages(f.size));
      forall j | i < j < |f.log|
        ensures !Covers(f.log[j], e.pgoff) && !Cuts(f.log[j], e.pgoff)
      {
        LastSetterIs(f.log, j);
        if Cuts(f.log[j], e.pgoff) {
          assert Harmless(f.log, j) && Covers(f.log[i], e.pgoff);
          NoSetter(f.log, i, e.pgoff);
        }
      }
      OwnerLatest(f.log, i, e.pgoff);
      assert f.log[..|f.log|] == f.log && At(f.tree, e.pgoff) == Some(i);
      OwnerCounts(f, e.pgoff);
    }
  }

  lemma NoSetter(log: seq<Entry>, i: nat, p: nat)
    requires LastSetter(log) == Some(i)
    ensures !CutAfter(log, i, p)
  {
    hide LastSetter;
    if j :| i < j < |log| && SizedCut(log[j], p) {
      LastSetterIs(log, j);
    }
  }

  // ----- the invariant -----

  lemma DroppedKinds(f: File, drop: set<nat>)
    requires Inv(f) && Droppable(f.log, drop)
    ensures forall i :: i in drop && i < |f.log| ==> f.log[i].Write? || !f.log[i].sized
  {
    hide Count, Refs, Granted, Owner, AllGrow, Base, CutAfter;
    forall i | i in drop && i < |f.log|
      ensures f.log[i].Write? || !f.log[i].sized
    {
      assert Harmless(f.log, i);
    }
  }

  lemma CollectSizes(f: File, drop: set<nat>)
    requires Inv(f) && Droppable(f.log, drop)
    ensures var out := Kept(f.log, drop);
            && AllGrow(out) && Base(out) == f.size
            && (if out == [] then f.size == 0 else RebuiltSize(out) == (f.size, f.trans - 1))
  {
    hide Partial, Harmless, AllGrow, Base, RebuiltSize, Kept, LastAttr, LastSetter;
    DroppedKinds(f, drop);
    GrowKept(f.log, drop);
    if LastSetter(f.log).Some? {
      SetterValid(f);
    }
    BaseKept(f.log, drop);
    if f.log == [] {
      KeptLength(f.log, drop);
    } else {
      assert f.log[0].trans < f.trans;
      SizeKept(f.log, drop, f.trans - 1);
      EmptySizes();
    }
  }

  lemma EmptySizes()
    ensures RebuiltSize([]) == (0, 0)
  {}

  /** The last attribute entry in the log is not dead, so it stays. */
  lemma LastKept(f: File, drop: set<nat>, i: nat)
    requires Inv(f) && Droppable(f.log, drop) && i < |f.log| && f.log[i].Attr?
    ensures LastAttrOf(f.log).Some? && i <= LastAttrOf(f.log).value < |f.log|
    ensures var m := LastAttrOf(f.log).value; f.log[m].Attr? && !f.log[m].dead && m !in drop
  {
    hide Partial, Harmless, AllGrow, Base, RebuiltSize, LastAttrOf;
    LastAttrOfIs(f.log);
    var m := LastAttrOf(f.log).value;
    assert !HasLater(f.log, m);
  }

  lemma LaterKept(f: File, drop: set<nat>, i: nat)
    requires Inv(f) && Droppable(f.log, drop) && i < |f.log| && i !in drop && f.log[i].Attr? && f.log[i].dead
    ensures HasLater(Kept(f.log, drop), Pos(drop, i))
  {
    hide Partial, Harmless, AllGrow, Base, RebuiltSize, LastAttrOf, Kept, Pos, LastAttr;
    LastKept(f, drop, i);
    var m := LastAttrOf(f.log).value;
    KeptAt(f.log, drop, m);
    PosOrder(drop, i, m);
    assert Kept(f.log, drop)[Pos(drop, m)].Attr?;
  }

  /** An attribute entry the collector copied is valid. */
  lemma CopiedAlive(f: File, drop: set<nat>, moved: nat, j: nat)
    requires Collectable(f, drop, moved) && j < |Kept(f.log[..moved], drop)|
    ensures j < |Kept(f.log, drop)| && Kept(f.log, drop)[j] == Kept(f.log[..moved], drop)[j]
    ensures Valid(Kept(f.log, drop)[j])
  {
    hide Kept, Pos;
    KeptPrefix(f.log, drop, moved);
    var i := KeptFrom(f.log[..moved], drop, j);
    assert f.log[..moved][i] == f.log[i];
  }

  /** Wherever it points, `last_setattr` points to an attribute entry of the new log that is not dead. */
  lemma CollectLastAttr(f: File, drop: set<nat>, moved: nat)
    requires Inv(f) && Collectable(f, drop, moved)
    ensures LastAttr(Collect(f, drop, moved))
  {
    hide Partial, Harmless, AllGrow, Base, RebuiltSize, Kept, Pos, LastAttrOf, Granted, Refs, HasLater;
    var (g, copied) := (Collect(f, drop, moved), Kept(f.log[..moved], drop));
    LastAttrOfIs(copied);
    if LastAttrOf(copied).Some? {
      CopiedAlive(f, drop, moved, LastAttrOf(copied).value);
    } else if f.lastAttr.Some? {
      KeptAt(f.log, drop, f.lastAttr.value);
    }
    forall j | 0 <= j < |g.log|
      ensures g.log[j].Attr? && g.log[j].dead ==> HasLater(g.log, j)
      ensures f.lastAttr.None? ==> g.log[j].Write?
    {
      var i := KeptFrom(f.log, drop, j);
      if g.log[j].Attr? && g.log[j].dead {
        LaterKept(f, drop, i);
      }
    }
  }

  /** A collected log is as good as the one before, and the file is the same: every page refers to the block it
      referred to, the size stays, and the blocks of the dropped entries were all freed. */
  lemma CollectInv(f: File, drop: set<nat>, moved: nat)
    requires Inv(f) && Collectable(f, drop, moved)
    ensures Inv(Collect(f, drop, moved)) && Granted(Gone(f.log, drop)) <= f.freed
    ensures var g := Collect(f, drop, moved);
            g.size == f.size && g.tree.Keys == f.tree.Keys && forall p :: p in f.tree ==> SameBlock(f, g, p)
  {
    hide Partial, Harmless, AllGrow, Base, RebuiltSize, Kept, Gone, Pos, LastAttrOf, Granted, Refs, LastAttr, Valid;
    var g := Collect(f, drop, moved);
    CollectPartial(f, drop, moved);
    CollectConserves(f, drop, moved);
    KeptHarmless(f.log, drop);
    CollectLastAttr(f, drop, moved);
    CollectSizes(f, drop);
    forall j | 0 <= j < |g.log|
      ensures g.log[j].trans < g.trans && (g.log[j].trans == g.trans - 1 ==> Valid(g.log[j]))
    {
      var i := KeptFrom(f.log, drop, j);
    }
    forall p | p in f.tree
      ensures SameBlock(f, g, p)
    {
      MappedKept(f, drop, p);
      KeptAt(f.log, drop, f.tree[p]);
    }
  }

  predicate SameBlock(f: File, g: File, p: nat) {
    && p in f.tree && f.tree[p] < |f.log| && p in g.tree && g.tree[p] < |g.log|
    && BlockOf(g.log[g.tree[p]], p) == BlockOf(f.log[f.tree[p]], p)
  }

  lemma CollectExact(f: File, drop: set<nat>, moved: nat)
    requires Inv(f) && Collectable(f, drop, moved) && Exact(f.log, f.tree, |f.log|, Pages(f.size))
    ensures var g := Collect(f, drop, moved); Exact(g.log, g.tree, |g.log|, Pages(g.size))
  {
    hide Partial, Harmless, AllGrow, Base, RebuiltSize, Kept, Gone, Pos, LastAttrOf, Granted, Refs, LastAttr, Count;
    var g := Collect(f, drop, moved);
    assert g.tree == Moved(f.tree, drop);
    forall p | p in f.tree
      ensures f.tree[p] !in drop
    {
      MappedKept(f, drop, p);
    }
    forall j | 0 <= j < |g.log| && g.log[j].Write?
      ensures g.log[j].invalid + Count(g.tree, j, 0, Pages(g.size)) == g.log[j].num
    {
      var i := KeptFrom(f.log, drop, j);
      CountKept(f.tree, drop, i, 0, Pages(f.size));
    }
  }

  // ----- what a collected log shows -----

  /** The block the replay shows for a page. */
  function Shown(log: seq<Entry>, p: nat): Option<nat> {
    if log == [] then None
    else
      var (init, e) := (log[..|log| - 1], log[|log| - 1]);
      if Covers(e, p) && !Skipped(e) then Some(BlockOf(e, p)) else if Cuts(e, p) then None else Shown(init, p)
  }

  lemma {:induction false} ShownIsRebuilt(log: seq<Entry>, p: nat)
    ensures p in Rebuilt(log) ==> Rebuilt(log)[p] < |log| && Shown(log, p) == Some(BlockOf(log[Rebuilt(log)[p]], p))
    ensures p !in Rebuilt(log) ==> Shown(log, p) == None
  {
    if log != [] {
      ShownIsRebuilt(log[..|log| - 1], p);
    }
  }

  /** Dropping any invalid entries leaves what the replay shows for every page, and the file size. */
  lemma CollectedLogReplays(f: File, drop: set<nat>)
    requires Inv(f) && Droppable(f.log, drop)
    ensures forall p: nat :: Shown(Kept(f.log, drop), p) ==
              if p in f.tree then Some(BlockOf(f.log[f.tree[p]], p)) else None
    ensures f.log != [] ==> RebuiltSize(Kept(f.log, drop)) == (f.size, f.trans - 1)
  {
    hide Inv, RebuiltSize, Shown, Kept, Rebuilt, Valid;
    var g := Collect(f, drop, 0);
    CollectInv(f, drop, 0);
    ReplayIsLive(g);
    forall p: nat
      ensures Shown(g.log, p) == if p in f.tree then Some(BlockOf(f.log[f.tree[p]], p)) else None
    {
      ShownIsRebuilt(g.log, p);
      assert p in f.tree ==> SameBlock(f, g, p);
    }
    if f.log != [] {
      NewestKept(f, drop);
    }
  }

  lemma NewestKept(f: File, drop: set<nat>)
    requires Inv(f) && Droppable(f.log, drop) && f.log != []
    ensures RebuiltSize(Kept(f.log, drop)) == (f.size, f.trans - 1)
  {
    hide Partial, Harmless, AllGrow, Base, RebuiltSize, Kept, LastAttr;
    assert f.log[0].trans < f.trans;
    SizeKept(f.log, drop, f.trans - 1);
  }
}
