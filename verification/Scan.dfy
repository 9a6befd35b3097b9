/** The crash scan of a regular file's log (bbuild.c): a ring of fixed size holds the blocks of one window
    of file pages at a time; the log is traversed once per window. Without snapshots a superseded block is
    simply forgotten. */
module Scan {
  import opened Options
  import opened FileLog
  import opened FileIndex
  import opened FileAssign
  import opened FileSizes
  import opened FileCollect

  // ----- one pass without a window -----

  /** The file size the traversal carries along. */
  function Size(log: seq<Entry>, size0: nat): nat {
    if log == [] then size0 else log[|log| - 1].size
  }

  /** Whether an attribute entry clears page p, when the size before it was `size`. */
  predicate Clears(e: Entry, size: nat, p: nat) {
    e.Attr? && size > e.size && Pages(e.size) <= p <= (size - 1) / PAGE
  }

  /** The block the traversal has noted for page p. */
  function Noted(log: seq<Entry>, size0: nat, p: nat): Option<nat> {
    if log == [] then None
    else
      var (init, e) := (log[..|log| - 1], log[|log| - 1]);
      if Covers(e, p) && !Skipped(e) then Some(BlockOf(e, p))
      else if Clears(e, Size(init, size0), p) then None
      else Noted(init, size0, p)
  }

  /** The highest page of an entry that is not left out. */
  function Highest(log: seq<Entry>): nat {
    if log == [] then 0
    else
      var (rest, e) := (Highest(log[..|log| - 1]), log[|log| - 1]);
      if e.Write? && !Skipped(e) && e.pgoff + e.num > rest + 1 then e.pgoff + e.num - 1 else rest
  }

  /** The blocks noted for the first n pages; block 0 stands for none. */
  function Marks(log: seq<Entry>, n: nat): set<nat> {
    if n == 0 then {} else
      var o := Noted(log, 0, n - 1);
      Marks(log, n - 1) + if o.Some? && o.value != 0 then {o.value} else {}
  }

  lemma {:induction false} NotedHigh(log: seq<Entry>, size0: nat, p: nat)
    requires Noted(log, size0, p).Some?
    ensures p <= Highest(log)
  {
    var n := |log| - 1;
    if !(Covers(log[n], p) && !Skipped(log[n])) {
      NotedHigh(log[..n], size0, p);
    }
  }

  /** The size a traversal starts from does not matter: before the first entry nothing is noted. Later
      windows start from the size the traversal before them ended with. */
  lemma {:induction false} StartSize(log: seq<Entry>, a: nat, b: nat, p: nat)
    ensures Noted(log, a, p) == Noted(log, b, p)
  {
    if log != [] {
      StartSize(log[..|log| - 1], a, b, p);
    }
  }

  /** The scan notes for each page exactly the block the replay shows: it forgets a page only where the replay drops it,
      and, as no noted page lies past the size the traversal carries along, wherever it does. */
  lemma {:induction false} NotedIsShown(log: seq<Entry>, p: nat)
    requires AllGrow(log)
    ensures Noted(log, 0, p) == Shown(log, p)
    ensures Noted(log, 0, p).Some? ==> p < Pages(Base(log)) && p < Pages(Size(log, 0))
  {
    if log != [] {
      var n := |log| - 1;
      var init := log[..n];
      assert forall i :: 0 <= i < n ==> Grows(log, i) && init[..i] == log[..i];
      NotedIsShown(init, p);
      assert Grows(log, n);
      LastStep(log, p);
    }
  }

  /** One entry keeps the two alike. */
  lemma LastStep(log: seq<Entry>, p: nat)
    requires log != [] && Grows(log, |log| - 1)
    requires var init := log[..|log| - 1];
             && Noted(init, 0, p) == Shown(init, p)
             && (Noted(init, 0, p).Some? ==> p < Pages(Base(init)) && p < Pages(Size(init, 0)))
    ensures Noted(log, 0, p) == Shown(log, p)
    ensures Noted(log, 0, p).Some? ==> p < Pages(Base(log)) && p < Pages(Size(log, 0))
  {
    var (init, e) := (log[..|log| - 1], log[|log| - 1]);
    if e.Write? {
      PagesMono(Base(init), e.size);
    } else if Size(init, 0) <= e.size {
      PagesMono(Size(init, 0), e.size);
    }
  }

  lemma {:induction false} MarkedBelow(log: seq<Entry>, n: nat, p: nat)
    requires p < n && Noted(log, 0, p).Some? && Noted(log, 0, p).value != 0
    ensures Noted(log, 0, p).value in Marks(log, n)
  {
    if p < n - 1 {
      MarkedBelow(log, n - 1, p);
    }
  }

  lemma {:induction false} MarksHas(log: seq<Entry>, n: nat, b: nat)
    ensures b in Marks(log, n) ==> b != 0 && exists p :: 0 <= p < n && Noted(log, 0, p) == Some(b)
  {
    hide Noted;
    if n > 0 {
      MarksHas(log, n - 1, b);
      if b in Marks(log, n - 1) {
        var p :| 0 <= p < n - 1 && Noted(log, 0, p) == Some(b);
        assert 0 <= p < n && Noted(log, 0, p) == Some(b);
      } else if b in Marks(log, n) {
        assert Noted(log, 0, n - 1) == Some(b);
      }
    }
  }

  /** Page p of the live index refers to block b. */
  predicate RefersAt(f: File, p: nat, b: nat) {
    p in f.tree && f.tree[p] < |f.log| && BlockOf(f.log[f.tree[p]], p) == b
  }

  /** The scan is exact: after any run over any number of mounts, and after garbage collection dropped any invalid
      entries, a block is marked if and only if a page of the live index refers to it. */
  lemma ScanExact(f: File, drop: set<nat>, b: nat)
    requires Inv(f) && Droppable(f.log, drop)
    ensures var log := Kept(f.log, drop);
            b in Marks(log, Highest(log) + 1) <==> b != 0 && exists p: nat :: RefersAt(f, p, b)
  {
    hide Marks, Highest, Noted, Kept, Shown, AllGrow, Base, Owner, Count, Refs, Granted;
    var log := Kept(f.log, drop);
    CollectedLogReplays(f, drop);
    DroppedKinds(f, drop);
    GrowKept(f.log, drop);
    MarksHas(log, Highest(log) + 1, b);
    forall p: nat
      ensures Noted(log, 0, p) == if p in f.tree then Some(BlockOf(f.log[f.tree[p]], p)) else None
      ensures p in f.tree ==> f.tree[p] < |f.log|
      ensures Noted(log, 0, p).Some? ==> p <= Highest(log)
    {
      NotedIsShown(log, p);
      if p in f.tree {
        Applied(f, |f.log|, Pages(f.size), p);
      }
      if Noted(log, 0, p).Some? {
        NotedHigh(log, 0, p);
      }
    }
    if b in Marks(log, Highest(log) + 1) {
      var p :| 0 <= p <= Highest(log) && Noted(log, 0, p) == Some(b);
      assert RefersAt(f, p, b);
    } else if p: nat :| RefersAt(f, p, b) {
      if b != 0 {
        MarkedBelow(log, Highest(log) + 1, p);
      }
    }
  }

  // ----- the windowed traversal -----

  /** The ring holds the noted blocks of pages base, base + 1, … */
  ghost predicate Holds(ring: seq<nat>, log: seq<Entry>, size0: nat, base: nat) {
    forall i :: 0 <= i < |ring| ==> HoldsAt(ring, log, size0, base, i)
  }

  ghost predicate HoldsAt(ring: seq<nat>, log: seq<Entry>, size0: nat, base: nat, i: nat) {
    i < |ring| && ring[i] == match Noted(log, size0, base + i) case None => 0 case Some(b) => b
  }

  /** nova_set_ring_array: the part of a write entry inside the window. */
  method SetRing(ring: array<nat>, e: Entry, base: nat)
    requires e.Write?
    modifies ring
    ensures forall i :: 0 <= i < ring.Length ==>
              ring[i] == if Covers(e, base + i) then BlockOf(e, base + i) else old(ring[i])
  {
    var start := if e.pgoff < base then base else e.pgoff;
    var end := if e.pgoff + e.num > base + ring.Length then base + ring.Length else e.pgoff + e.num;
    var p := start;
    while p < end
      invariant start <= p && (start <= end ==> p <= end)
      invariant forall i :: 0 <= i < ring.Length ==>
                  ring[i] == if start <= base + i < p && Covers(e, base + i) then BlockOf(e, base + i) else old(ring[i])
      decreases end - p
    {
      ring[p - base] := e.block + p - e.pgoff;
      p := p + 1;
    }
  }

  /** nova_ring_setattr_entry: forget the pages the cut drops, as far as they lie inside the window. */
  method RingSetAttr(ring: array<nat>, e: Entry, size: nat, base: nat)
    requires e.Attr?
    modifies ring
    ensures forall i :: 0 <= i < ring.Length ==> ring[i] == if Clears(e, size, base + i) then 0 else old(ring[i])
  {
    if size <= e.size {
      return;
    }
    var first, last := Pages(e.size), (size - 1) / PAGE;
    if first > last {
      return;
    }
    if first < base {
      first := base;
    }
    if last + 1 > base + ring.Length {
      if base + ring.Length == 0 {
        return;
      }
      last := base + ring.Length - 1;
    }
    var p := first;
    while p <= last
      invariant first <= p && (first <= last ==> p <= last + 1)
      invariant forall i :: 0 <= i < ring.Length ==>
                  ring[i] == if Clears(e, size, base + i) && base + i < p then 0 else old(ring[i])
      decreases last + 1 - p
    {
      ring[p - base] := 0;
      p := p + 1;
    }
  }

  /** One entry of the traversal. */
  method TraverseEntry(ring: array<nat>, e: Entry, size: nat, base: nat, ghost log: seq<Entry>, ghost size0: nat)
    requires Holds(ring[..], log, size0, base) && size == Size(log, size0)
    modifies ring
    ensures Holds(ring[..], log + [e], size0, base)
  {
    ghost var before := ring[..];
    if e.Attr? {
      RingSetAttr(ring, e, size, base);
    } else if e.num != e.invalid {
      if e.pgoff < base + ring.Length && e.pgoff + e.num > base {
        SetRing(ring, e, base);
      }
    }
    forall i | 0 <= i < ring.Length
      ensures HoldsAt(ring[..], log + [e], size0, base, i)
    {
      assert HoldsAt(before, log, size0, base, i);
      NotedMore(log, e, size0, base + i);
    }
  }

  lemma NotedMore(log: seq<Entry>, e: Entry, size0: nat, p: nat)
    ensures Noted(log + [e], size0, p) ==
            if Covers(e, p) && !Skipped(e) then Some(BlockOf(e, p))
            else if Clears(e, Size(log, size0), p) then None else Noted(log, size0, p)
  {
    assert (log + [e])[..|log|] == log;
  }

  lemma HighestMore(log: seq<Entry>, k: nat)
    requires k < |log|
    ensures var e := log[k];
            Highest(log[..k + 1]) ==
              if e.Write? && !Skipped(e) && e.pgoff + e.num > Highest(log[..k]) + 1 then e.pgoff + e.num - 1
              else Highest(log[..k])
  {
    assert log[..k + 1][..k] == log[..k];
  }

  lemma {:induction false} HighestRises(log: seq<Entry>, k: nat)
    requires k <= |log|
    ensures Highest(log[..k]) <= Highest(log)
    decreases |log|
  {
    if k < |log| {
      var n := |log| - 1;
      HighestRises(log[..n], k);
      assert log[..n][..k] == log[..k];
    } else {
      assert log[..k] == log;
    }
  }

  /** Traverse the whole log for one window; the ring ends up with the noted blocks of the window. */
  method Traverse(ring: array<nat>, log: seq<Entry>, base: nat, size0: nat, last0: nat) returns (size: nat, last: nat)
    requires (forall i :: 0 <= i < ring.Length ==> ring[i] == 0) && last0 <= Highest(log)
    requires forall i :: 0 <= i < |log| && log[i].Write? ==> log[i].num > 0
    modifies ring
    ensures Holds(ring[..], log, size0, base) && size == Size(log, size0) && last == Highest(log)
  {
    hide Noted, Highest, Holds;
    size, last := size0, last0;
    TraverseNone(ring, log, size0, base);
    for k := 0 to |log|
      invariant Holds(ring[..], log[..k], size0, base) && size == Size(log[..k], size0)
      invariant Highest(log[..k]) <= last <= Highest(log)
    {
      var e := log[k];
      HighestMore(log, k);
      HighestRises(log, k + 1);
      TraverseEntry(ring, e, size, base, log[..k], size0);
      assert log[..k] + [e] == log[..k + 1];
      if e.Write? && e.num != e.invalid && last < e.pgoff + e.num - 1 {
        last := e.pgoff + e.num - 1;
      }
      size := e.size;
    }
    assert log[..|log|] == log;
  }

  lemma TraverseNone(ring: array<nat>, log: seq<Entry>, size0: nat, base: nat)
    requires forall i :: 0 <= i < ring.Length ==> ring[i] == 0
    ensures Holds(ring[..], log[..0], size0, base) && Highest(log[..0]) == 0
  {
    forall i | 0 <= i < ring.Length
      ensures HoldsAt(ring[..], log[..0], size0, base, i)
    {}
  }

  /** nova_set_file_bm: mark the blocks in the ring up to the highest page, and empty it. */
  method SetFileBm(ring: array<nat>, ghost log: seq<Entry>, base: nat, last: nat, ghost size0: nat, bm: set<nat>)
    returns (out: set<nat>)
    requires Holds(ring[..], log, size0, base) && last == Highest(log) && base <= last && bm == Marks(log, base)
    requires ring.Length > 0
    modifies ring
    ensures out == Marks(log, if last >= base + ring.Length then base + ring.Length else last + 1)
    ensures forall i :: 0 <= i < ring.Length ==> ring[i] == 0
  {
    hide Noted, Highest;
    ghost var before := ring[..];
    out := bm;
    var top := if last >= base + ring.Length then ring.Length - 1 else last - base;
    for i := 0 to top + 1
      invariant out == Marks(log, base + i)
      invariant forall j :: 0 <= j < ring.Length ==> ring[j] == if j < i then 0 else before[j]
    {
      assert HoldsAt(before, log, size0, base, i);
      StartSize(log, size0, 0, base + i);
      if ring[i] != 0 {
        out := out + {ring[i]};
        ring[i] := 0;
      }
    }
    forall j | top < j < ring.Length
      ensures ring[j] == 0
    {
      assert HoldsAt(before, log, size0, base, j);
      if Noted(log, size0, base + j).Some? {
        NotedHigh(log, size0, base + j);
      }
    }
  }

  /** nova_traverse_file_inode_log: whatever the window, the traversals end and mark exactly the blocks one
      pass over all pages would note. */
  method TraverseFileLog(ring: array<nat>, log: seq<Entry>) returns (bm: set<nat>)
    requires ring.Length > 0 && forall i :: 0 <= i < ring.Length ==> ring[i] == 0
    requires forall i :: 0 <= i < |log| && log[i].Write? ==> log[i].num > 0
    modifies ring
    ensures bm == Marks(log, Highest(log) + 1)
    ensures forall i :: 0 <= i < ring.Length ==> ring[i] == 0
  {
    hide Marks, Highest, Holds;
    bm := {};
    var base: nat, last: nat, size: nat := 0, 0, 0;
    NoMarks(log);
    while true
      invariant base <= Highest(log) && last <= Highest(log) && bm == Marks(log, base)
      invariant forall i :: 0 <= i < ring.Length ==> ring[i] == 0
      decreases Highest(log) - base
    {
      ghost var size0 := size;
      size, last := Traverse(ring, log, base, size, last);
      bm := SetFileBm(ring, log, base, last, size0, bm);
      if last >= base + ring.Length {
        base := base + ring.Length;
      } else {
        break;
      }
    }
  }

  lemma NoMarks(log: seq<Entry>)
    ensures Marks(log, 0) == {}
  {}
}
