/** What allocation and freeing do to a coalesced list of free ranges, on the level of block sets. */
module FreeSpace {
  import opened Ranges

  /** Freeing low..high at place p: fill the hole, extend a neighbour, or make a new range. */
  function Put(rs: seq<Range>, p: nat, low: nat, high: nat): seq<Range>
    requires p <= |rs|
  {
    var left := p > 0 && rs[p - 1].high + 1 == low;
    var right := p < |rs| && high + 1 == rs[p].low;
    if left && right then rs[..p - 1] + [Range(rs[p - 1].low, rs[p].high)] + rs[p + 1..]
    else if left then rs[..p - 1] + [Range(rs[p - 1].low, high)] + rs[p..]
    else if right then rs[..p] + [Range(low, rs[p].high)] + rs[p + 1..]
    else rs[..p] + [Range(low, high)] + rs[p..]
  }

  /** Taking low..high out of range i leaves up to two pieces. */
  function Cut(rs: seq<Range>, i: nat, low: nat, high: nat): seq<Range>
    requires i < |rs| && rs[i].low <= low <= high <= rs[i].high
  {
    rs[..i] + Pieces(rs[i], low, high) + rs[i + 1..]
  }

  function Pieces(r: Range, low: nat, high: nat): seq<Range>
    requires r.low <= low <= high <= r.high
  {
    (if r.low < low then [Range(r.low, low - 1)] else []) + (if high < r.high then [Range(high + 1, r.high)] else [])
  }

  lemma PiecesBlocks(r: Range, low: nat, high: nat)
    requires r.low <= low <= high <= r.high
    ensures Blocks(Pieces(r, low, high)) == Span(r) - Span(Range(low, high))
    ensures Total(Pieces(r, low, high)) + Size(Range(low, high)) == Size(r)
  {
    var a := if r.low < low then [Range(r.low, low - 1)] else [];
    var b := if high < r.high then [Range(high + 1, r.high)] else [];
    BlocksConcat(a, b);
    if r.low < low {
      BlocksOne(Range(r.low, low - 1));
    }
    if high < r.high {
      BlocksOne(Range(high + 1, r.high));
    }
  }

  /** The ranges around a splice are apart from the range in its middle. */
  lemma Apart(rs: seq<Range>, i: nat)
    requires Coalesced(rs) && i < |rs|
    ensures Span(rs[i]) !! Blocks(rs[..i]) && Span(rs[i]) !! Blocks(rs[i + 1..])
  {
    hide Blocks;
    forall b | b in Blocks(rs[..i])
      ensures b !in Span(rs[i])
    {
      var j := BlocksIndex(rs[..i], b);
      assert rs[j].high + 1 < rs[i].low;
    }
    forall b | b in Blocks(rs[i + 1..])
      ensures b !in Span(rs[i])
    {
      var j := BlocksIndex(rs[i + 1..], b);
      assert rs[i].high + 1 < rs[i + 1 + j].low;
    }
  }

  predicate Before(x: seq<Range>, y: seq<Range>) {
    x == [] || y == [] || x[|x| - 1].high + 1 < y[0].low
  }

  lemma CoalescedConcat(x: seq<Range>, y: seq<Range>)
    requires Coalesced(x) && Coalesced(y) && Before(x, y)
    ensures Coalesced(x + y)
  {
    var z := x + y;
    forall i, j | 0 <= i < j < |z|
      ensures z[i].high + 1 < z[j].low
    {
      if i < |x| <= j {
        assert i < |x| - 1 ==> x[i].high + 1 < x[|x| - 1].low;
        assert j > |x| ==> y[0].high + 1 < y[j - |x|].low;
      }
    }
  }

  lemma SpliceCoalesced(rs: seq<Range>, a: nat, b: nat, mid: seq<Range>)
    requires Coalesced(rs) && Coalesced(mid) && a <= b <= |rs| && Before(rs[..a], mid) && Before(mid, rs[b..])
    ensures Coalesced(rs[..a] + mid + rs[b..])
  {
    CoalescedConcat(rs[..a], mid);
    if mid == [] {
      assert rs[..a] + mid == rs[..a];
      assert a > 0 && b < |rs| ==> rs[a - 1].high + 1 < rs[b].low;
    }
    CoalescedConcat(rs[..a] + mid, rs[b..]);
  }

  lemma CutCoalesced(rs: seq<Range>, i: nat, low: nat, high: nat)
    requires Coalesced(rs) && i < |rs| && rs[i].low <= low <= high <= rs[i].high
    ensures Coalesced(Cut(rs, i, low, high))
  {
    hide Coalesced;
    assert Coalesced(Pieces(rs[i], low, high)) && Before(rs[..i], Pieces(rs[i], low, high))
           && Before(Pieces(rs[i], low, high), rs[i + 1..]) by {
      PiecesFit(rs, i, low, high);
    }
    SpliceCoalesced(rs, i, i + 1, Pieces(rs[i], low, high));
  }

  lemma PiecesFit(rs: seq<Range>, i: nat, low: nat, high: nat)
    requires Coalesced(rs) && i < |rs| && rs[i].low <= low <= high <= rs[i].high
    ensures var mid := Pieces(rs[i], low, high); Coalesced(mid) && Before(rs[..i], mid) && Before(mid, rs[i + 1..])
  {
    assert i > 0 ==> rs[i - 1].high + 1 < rs[i].low;
    assert i + 1 < |rs| ==> rs[i].high + 1 < rs[i + 1].low;
  }

  lemma CutWithin(rs: seq<Range>, i: nat, low: nat, high: nat, lo: nat, hi: nat)
    requires Within(rs, lo, hi) && i < |rs| && rs[i].low <= low <= high <= rs[i].high
    ensures Within(Cut(rs, i, low, high), lo, hi)
  {}

  /** Every way of allocating removes exactly its own range from the free set. */
  lemma CutExact(rs: seq<Range>, i: nat, low: nat, high: nat)
    requires Coalesced(rs) && i < |rs| && rs[i].low <= low <= high <= rs[i].high
    ensures Span(Range(low, high)) <= Blocks(rs)
    ensures Blocks(Cut(rs, i, low, high)) == Blocks(rs) - Span(Range(low, high))
    ensures Total(Cut(rs, i, low, high)) + (high - low + 1) == Total(rs)
  {
    hide Blocks, Total;
    BlocksSplice(rs, i, i + 1, Pieces(rs[i], low, high));
    assert rs[i..i + 1] == [rs[i]];
    BlocksOne(rs[i]);
    PiecesBlocks(rs[i], low, high);
    Apart(rs, i);
  }

  /** A range placed at its slot misses the free blocks if and only if it ends before the next range. */
  lemma SlotApart(rs: seq<Range>, p: nat, low: nat, high: nat)
    requires Coalesced(rs) && Slot(rs, low, p) && low <= high
    ensures Span(Range(low, high)) !! Blocks(rs) <==> (p < |rs| ==> high < rs[p].low)
  {
    hide Blocks;
    if p < |rs| && rs[p].low <= high {
      BlocksAt(rs, p, rs[p].low);
      assert rs[p].low in Span(Range(low, high));
    } else {
      forall b | b in Blocks(rs)
        ensures b !in Span(Range(low, high))
      {
        var i := BlocksIndex(rs, b);
        if p < i {
          assert rs[p].high + 1 < rs[i].low;
        }
      }
    }
  }

  /** The place and the extent of the range that freeing produces. */
  function Merged(rs: seq<Range>, p: nat, low: nat, high: nat): (nat, nat, Range)
    requires p <= |rs|
  {
    var left := p > 0 && rs[p - 1].high + 1 == low;
    var right := p < |rs| && high + 1 == rs[p].low;
    (if left then p - 1 else p, if right then p + 1 else p,
     Range(if left then rs[p - 1].low else low, if right then rs[p].high else high))
  }

  lemma PutMerged(rs: seq<Range>, p: nat, low: nat, high: nat)
    requires p <= |rs|
    ensures var (a, b, r) := Merged(rs, p, low, high);
            a <= b <= |rs| && Put(rs, p, low, high) == rs[..a] + [r] + rs[b..]
  {}

  /** Freed at its slot, the list stays coalesced exactly when the range was not free already. */
  lemma PutCoalesced(rs: seq<Range>, p: nat, low: nat, high: nat)
    requires Coalesced(rs) && Slot(rs, low, p) && low <= high
    ensures Coalesced(Put(rs, p, low, high)) <==> (p < |rs| ==> high < rs[p].low)
  {
    hide Put;
    var (a, b, r) := Merged(rs, p, low, high);
    PutMerged(rs, p, low, high);
    if p < |rs| && rs[p].low <= high {
      var out := rs[..a] + [r] + rs[b..];
      assert out[a] == r && out[a + 1] == rs[p];
    } else {
      MergedFits(rs, p, low, high);
      SpliceCoalesced(rs, a, b, [r]);
    }
  }

  lemma MergedFits(rs: seq<Range>, p: nat, low: nat, high: nat)
    requires Coalesced(rs) && Slot(rs, low, p) && low <= high && (p < |rs| ==> high < rs[p].low)
    ensures var (a, b, r) := Merged(rs, p, low, high);
            a <= b <= |rs| && Before(rs[..a], [r]) && Before([r], rs[b..]) && r.low <= r.high
  {
    assert p > 1 ==> rs[p - 2].high + 1 < rs[p - 1].low;
    assert p + 1 < |rs| ==> rs[p].high + 1 < rs[p + 1].low;
  }

  lemma PutWithin(rs: seq<Range>, p: nat, low: nat, high: nat, lo: nat, hi: nat)
    requires Within(rs, lo, hi) && p <= |rs| && lo <= low <= high <= hi
    ensures Within(Put(rs, p, low, high), lo, hi)
  {}

  /** Freeing adds exactly its own range to the free set. */
  lemma PutExact(rs: seq<Range>, p: nat, low: nat, high: nat)
    requires Coalesced(rs) && Slot(rs, low, p) && low <= high && (p < |rs| ==> high < rs[p].low)
    ensures Blocks(Put(rs, p, low, high)) == Blocks(rs) + Span(Range(low, high))
    ensures Total(Put(rs, p, low, high)) == Total(rs) + (high - low + 1)
  {
    hide Blocks, Total, Put;
    var (a, b, r) := Merged(rs, p, low, high);
    PutMerged(rs, p, low, high);
    BlocksSplice(rs, a, b, [r]);
    BlocksOne(r);
    var (left, right) := (a < p, b > p);
    NeighboursBlocks(rs, p, left, right);
    assert Span(r) == (if left then Span(rs[p - 1]) else {}) + Span(Range(low, high))
           + if right then Span(rs[p]) else {};
  }

  lemma NeighboursBlocks(rs: seq<Range>, p: nat, left: bool, right: bool)
    requires p <= |rs| && (left ==> p > 0) && (right ==> p < |rs|)
    ensures var (a, b) := (if left then p - 1 else p, if right then p + 1 else p);
            && Blocks(rs[a..b]) == (if left then Span(rs[p - 1]) else {}) + (if right then Span(rs[p]) else {})
            && Total(rs[a..b]) == (if left then Size(rs[p - 1]) else 0) + (if right then Size(rs[p]) else 0)
  {
    hide Blocks, Total;
    var (a, b) := (if left then p - 1 else p, if right then p + 1 else p);
    BlocksConcat(rs[a..p], rs[p..b]);
    assert rs[a..b] == rs[a..p] + rs[p..b];
    OneOrNone(rs, a, p);
    OneOrNone(rs, p, b);
  }

  lemma OneOrNone(rs: seq<Range>, a: nat, b: nat)
    requires a <= b <= |rs| && b <= a + 1
    ensures Blocks(rs[a..b]) == if a < b then Span(rs[a]) else {}
    ensures Total(rs[a..b]) == if a < b then Size(rs[a]) else 0
  {
    if a < b {
      assert rs[a..b] == [rs[a]];
      BlocksOne(rs[a]);
    }
  }

  // ----- freeing what was taken, taking what was freed -----

  /** Giving an allocated range back restores the free list exactly. */
  lemma CutThenPut(rs: seq<Range>, i: nat, low: nat, high: nat, p: nat)
    requires Coalesced(rs) && i < |rs| && rs[i].low <= low <= high <= rs[i].high
    requires Slot(Cut(rs, i, low, high), low, p)
    ensures Put(Cut(rs, i, low, high), p, low, high) == rs
  {
    hide Blocks, Total, Put, Cut;
    var cut := Cut(rs, i, low, high);
    CutCoalesced(rs, i, low, high);
    CutExact(rs, i, low, high);
    SlotApart(cut, p, low, high);
    PutCoalesced(cut, p, low, high);
    PutExact(cut, p, low, high);
    CoalescedUnique(Put(cut, p, low, high), rs);
  }
}
