/** Rebuilding the free lists after a crash (bbuild.c): merge the per-CPU bitmaps of blocks in use, then
    turn the clear bits of each list's area into ranges. */
module Bbuild {
  import opened Ranges
  import opened FreeSpace
  import opened Balloc
  import opened BallocLists

  // ----- bitmaps -----

  /** find_next_bit and find_next_zero_bit */
  method FindNext(bits: seq<bool>, end: nat, start: nat, value: bool) returns (next: nat)
    requires start <= end <= |bits|
    ensures start <= next <= end && (next < end ==> bits[next] == value)
    ensures forall b :: start <= b < next ==> bits[b] != value
  {
    next := start;
    while next < end && bits[next] != value
      invariant start <= next <= end
      invariant forall b :: start <= b < next ==> bits[b] != value
    {
      next := next + 1;
    }
  }

  /** nova_update_4K_map: a set bit of a coarse map stands for `unit` blocks. */
  method UpdateMap(bits: array<bool>, coarse: seq<bool>, unit: nat)
    requires unit > 0 && forall c :: 0 <= c < |coarse| && coarse[c] ==> (c + 1) * unit <= bits.Length
    modifies bits
    ensures forall b :: 0 <= b < bits.Length ==> bits[b] == (old(bits[b]) || InCoarse(coarse, unit, b))
  {
    hide InCoarse;
    var next := 0;
    CoarseNone(coarse, unit, bits.Length);
    while next < |coarse|
      invariant 0 <= next <= |coarse|
      invariant forall b :: 0 <= b < bits.Length ==> bits[b] == (old(bits[b]) || InCoarse(coarse[..next], unit, b))
    {
      var low := FindNext(coarse, |coarse|, next, true);
      CoarseClear(coarse, unit, next, low, bits.Length);
      if low == |coarse| {
        next := low;
      } else {
        next := FindNext(coarse, |coarse|, low, false);
        CoarseRun(coarse, unit, low, next, bits.Length);
        RunFits(coarse, unit, low, next, bits.Length);
        ghost var before := bits[..];
        for i := low * unit to next * unit
          invariant forall b :: 0 <= b < bits.Length ==> bits[b] == (before[b] || low * unit <= b < i)
        {
          bits[i] := true;
        }
      }
    }
    assert coarse[..|coarse|] == coarse;
  }

  predicate InCoarse(coarse: seq<bool>, unit: nat, b: nat)
    requires unit > 0
  {
    b / unit < |coarse| && coarse[b / unit]
  }

  lemma CoarseNone(coarse: seq<bool>, unit: nat, n: nat)
    requires unit > 0
    ensures forall b :: 0 <= b < n ==> !InCoarse(coarse[..0], unit, b)
  {}

  lemma CoarseClear(coarse: seq<bool>, unit: nat, a: nat, b: nat, n: nat)
    requires unit > 0 && a <= b <= |coarse| && forall c :: a <= c < b ==> !coarse[c]
    ensures forall x :: 0 <= x < n ==> (InCoarse(coarse[..b], unit, x) <==> InCoarse(coarse[..a], unit, x))
  {}

  lemma CoarseRun(coarse: seq<bool>, unit: nat, a: nat, b: nat, n: nat)
    requires unit > 0 && a <= b <= |coarse| && forall c :: a <= c < b ==> coarse[c]
    ensures forall x :: 0 <= x < n ==>
              (InCoarse(coarse[..b], unit, x) <==> InCoarse(coarse[..a], unit, x) || a * unit <= x < b * unit)
  {
    forall x | 0 <= x < n
      ensures InCoarse(coarse[..b], unit, x) <==> InCoarse(coarse[..a], unit, x) || a * unit <= x < b * unit
    {
      DivBounds(x, unit, a);
      DivBounds(x, unit, b);
    }
  }

  lemma DivBounds(x: nat, unit: nat, a: nat)
    requires unit > 0
    ensures x < a * unit <==> x / unit < a
  {
    var q := x / unit;
    assert x == q * unit + x % unit;
    if q < a {
      assert (q + 1) * unit <= a * unit by { MulMono(q + 1, a, unit); }
    } else {
      MulMono(a, q, unit);
    }
  }

  lemma MulMono(a: nat, b: nat, unit: nat)
    requires a <= b
    ensures a * unit <= b * unit
  {}

  lemma RunFits(coarse: seq<bool>, unit: nat, low: nat, next: nat, n: nat)
    requires unit > 0 && low < next <= |coarse| && coarse[next - 1]
    requires forall c :: 0 <= c < |coarse| && coarse[c] ==> (c + 1) * unit <= n
    ensures low * unit <= next * unit <= n
  {
    MulMono(low, next, unit);
  }

  /** struct scan_bitmap: what one CPU's threads saw in use, in pages of each size. */
  datatype ScanBitmap = ScanBitmap(bm4K: array<bool>, bm2M: seq<bool>, bm1G: seq<bool>)

  const BLOCKS_2M := 512
  const BLOCKS_1G := 262144

  /** The sizes alloc_bm gives the maps of a device: whole bytes of bits. */
  ghost predicate Allocated(bms: seq<ScanBitmap>, initsize: nat) {
    && (forall c :: 0 <= c < |bms| ==> AllocatedAt(bms[c], initsize))
    && (forall c, d :: 0 <= c < d < |bms| ==> bms[c].bm4K != bms[d].bm4K)
  }

  ghost predicate AllocatedAt(bm: ScanBitmap, initsize: nat) {
    && bm.bm4K.Length == initsize / 0x8000 * 8
    && |bm.bm2M| == initsize / 0x100_0000 * 8 && |bm.bm1G| == initsize / 0x2_0000_0000 * 8
  }

  /** The larger pages of these maps lie within the 4K map. */
  lemma CoarseFits(bm: ScanBitmap, initsize: nat)
    requires AllocatedAt(bm, initsize)
    ensures |bm.bm2M| * BLOCKS_2M <= bm.bm4K.Length && |bm.bm1G| * BLOCKS_1G <= bm.bm4K.Length
  {}

  lemma BitFits(coarse: seq<bool>, unit: nat, n: nat)
    requires |coarse| * unit <= n
    ensures forall c :: 0 <= c < |coarse| && coarse[c] ==> (c + 1) * unit <= n
  {
    forall c | 0 <= c < |coarse| && coarse[c]
      ensures (c + 1) * unit <= n
    {
      MulMono(c + 1, |coarse|, unit);
    }
  }

  /** A CPU's maps say the block is in use, be it within a larger page. */
  predicate Marks(fine: seq<bool>, bm2M: seq<bool>, bm1G: seq<bool>, b: nat) {
    (b < |fine| && fine[b]) || InCoarse(bm2M, BLOCKS_2M, b) || InCoarse(bm1G, BLOCKS_1G, b)
  }

  /** A block is in use if any CPU's maps say so. */
  ghost predicate Used(bms: seq<ScanBitmap>, b: nat)
    reads set c | 0 <= c < |bms| :: bms[c].bm4K
  {
    exists c :: 0 <= c < |bms| && Marks(bms[c].bm4K[..], bms[c].bm2M, bms[c].bm1G, b)
  }

  /** The pages of 2M and 1G become blocks of the CPU's 4K map. */
  method Expand(bm: ScanBitmap, initsize: nat)
    requires AllocatedAt(bm, initsize)
    modifies bm.bm4K
    ensures forall b :: 0 <= b < bm.bm4K.Length ==> bm.bm4K[b] == Marks(old(bm.bm4K[..]), bm.bm2M, bm.bm1G, b)
  {
    hide InCoarse;
    CoarseFits(bm, initsize);
    BitFits(bm.bm2M, BLOCKS_2M, bm.bm4K.Length);
    BitFits(bm.bm1G, BLOCKS_1G, bm.bm4K.Length);
    UpdateMap(bm.bm4K, bm.bm2M, BLOCKS_2M);
    UpdateMap(bm.bm4K, bm.bm1G, BLOCKS_1G);
  }

  /** The larger pages of every CPU, then the merge of the 4K maps. */
  method Merge(bms: seq<ScanBitmap>, initsize: nat) returns (bits: seq<bool>)
    requires Allocated(bms, initsize)
    modifies set c | 0 <= c < |bms| :: bms[c].bm4K
    ensures |bits| == initsize / 0x8000 * 8 && forall b :: 0 <= b < |bits| ==> (bits[b] <==> old(Used(bms, b)))
  {
    hide Marks;
    var size := initsize / 0x8000 * 8;
    for c := 0 to |bms|
      invariant forall i, b :: 0 <= i < c && 0 <= b < size ==>
                  bms[i].bm4K[b] == Marks(old(bms[i].bm4K[..]), bms[i].bm2M, bms[i].bm1G, b)
      invariant forall i :: c <= i < |bms| ==> bms[i].bm4K[..] == old(bms[i].bm4K[..])
    {
      Expand(bms[c], initsize);
    }
    var dst := new bool[size](_ => false);
    for c := 0 to |bms|
      modifies dst
      invariant forall b :: 0 <= b < size ==>
                  (dst[b] <==> exists i :: 0 <= i < c && Marks(old(bms[i].bm4K[..]), bms[i].bm2M, bms[i].bm1G, b))
    {
      ghost var before := dst[..];
      for j := 0 to size
        modifies dst
        invariant forall b :: 0 <= b < size ==> dst[b] == if b < j then before[b] || bms[c].bm4K[b] else before[b]
      {
        dst[j] := dst[j] || bms[c].bm4K[j];
      }
    }
    bits := dst[..];
  }

  // ----- from clear bits to ranges -----

  predicate ClearIn(bits: seq<bool>, b: nat) {
    b < |bits| && !bits[b]
  }

  /** The clear bits from lo to hi. */
  function Clear(bits: seq<bool>, lo: nat, hi: nat): (s: set<nat>)
    ensures forall b :: b in s <==> lo <= b < hi && ClearIn(bits, b)
  {
    set b: nat | lo <= b < hi && ClearIn(bits, b)
  }

  lemma ClearGrows(bits: seq<bool>, lo: nat, a: nat, low: nat, next: nat)
    requires lo <= a <= low < next <= |bits|
    requires (forall b :: a <= b < low ==> bits[b]) && (forall b :: low <= b < next ==> !bits[b])
    ensures Clear(bits, lo, next) == Clear(bits, lo, a) + Span(Range(low, next - 1))
  {}

  lemma ClearSame(bits: seq<bool>, lo: nat, a: nat, b: nat)
    requires lo <= a <= b <= |bits| && forall x :: a <= x < b ==> bits[x]
    ensures Clear(bits, lo, b) == Clear(bits, lo, a)
  {}

  lemma EmptyFree(list: FreeList, bits: seq<bool>)
    requires list.Valid() && list.runs == []
    ensures list.Free() == {} && Clear(bits, list.start, list.start) == {}
    ensures Fresh(list, bits) ==> FilledTo(list, bits, list.start)
  {}

  /** The list holds the clear bits of its area up to `to`, as runs that end before it. */
  ghost predicate FilledTo(list: FreeList, bits: seq<bool>, to: nat)
    reads list
  {
    && list.Valid() && list.start <= to <= list.end + 1 <= |bits| && list.Free() == Clear(bits, list.start, to)
    && (list.runs != [] ==> list.runs[|list.runs| - 1].high < to && (to <= list.end ==> bits[to]))
  }

  /** Take the next run of clear bits in the list's area, if there is one. */
  method TakeRun(list: FreeList, bits: seq<bool>, start: nat, end: nat) returns (next: nat)
    requires FilledTo(list, bits, start) && end == list.end + 1
    modifies list
    ensures FilledTo(list, bits, next) && start <= next <= end && (start < end ==> start < next)
  {
    hide FreeList.Valid, FreeList.Free, Clear, Span;
    next := FindNext(bits, end, start, false);
    if next == end {
      ClearSame(bits, list.start, start, end);
    } else {
      var low := next;
      next := FindNext(bits, end, low, true);
      ClearGrows(bits, list.start, start, low, next);
      list.InsertLast(low, next - 1);
    }
  }

  /** __nova_build_blocknode_map: one scan over the bitmap, from list to list. The free ranges of each list
      become the maximal runs of clear bits in its area. */
  method BuildBlockMap(lists: seq<FreeList>, bits: seq<bool>)
    requires Good(lists) && lists != []
    requires forall i :: 0 <= i < |lists| ==> Fresh(lists[i], bits)
    modifies lists
    ensures Good(lists)
    ensures forall i :: 0 <= i < |lists| ==> lists[i].Free() == Clear(bits, lists[i].start, lists[i].end + 1)
  {
    hide FreeList.Valid, FreeList.Free, Clear, FilledTo;
    var c: nat, start: nat, end, going := 0, lists[0].start, lists[0].end + 1, true;
    EmptyFree(lists[0], bits);
    while going
      invariant c < |lists| && start <= end == lists[c].end + 1 && FilledTo(lists[c], bits, start)
      invariant forall i :: 0 <= i < c ==> FilledTo(lists[i], bits, lists[i].end + 1)
      invariant forall i :: c < i < |lists| ==> lists[i].Valid() && Fresh(lists[i], bits)
      invariant !going ==> start == end && (c == |lists| - 1 || end == |bits|)
      decreases |lists| - c, end - start, going
    {
      Others(lists, c);
      start := TakeRun(lists[c], bits, start, end);
      if start == |bits| || (start == end && c == |lists| - 1) {
        going := false;
      } else if start == end {
        c := c + 1;
        start, end := lists[c].start, lists[c].end + 1;
        EmptyFree(lists[c], bits);
      }
    }
    AllFilled(lists, bits, c);
  }

  /** A list before the scan reaches it. */
  predicate Fresh(list: FreeList, bits: seq<bool>)
    reads list
  {
    list.runs == [] && list.start <= list.end + 1 <= |bits|
  }

  /** Lists the scan did not reach have no area within the bitmap. */
  lemma AllFilled(lists: seq<FreeList>, bits: seq<bool>, c: nat)
    requires c < |lists| && (c == |lists| - 1 || lists[c].end + 1 == |bits|) && BallocLists.Apart(lists)
    requires forall i :: 0 <= i <= c ==> FilledTo(lists[i], bits, lists[i].end + 1)
    requires forall i :: c < i < |lists| ==> lists[i].Valid() && Fresh(lists[i], bits)
    ensures forall i :: 0 <= i < |lists| ==> lists[i].Valid()
    ensures forall i :: 0 <= i < |lists| ==> lists[i].Free() == Clear(bits, lists[i].start, lists[i].end + 1)
  {
    hide FreeList.Valid, FreeList.Free, Clear;
    forall i | c < i < |lists|
      ensures lists[i].Free() == Clear(bits, lists[i].start, lists[i].end + 1)
    {
      EmptyFree(lists[i], bits);
      NoneClear(bits, lists[i].start, lists[i].end + 1);
    }
  }

  lemma NoneClear(bits: seq<bool>, lo: nat, hi: nat)
    requires |bits| <= lo
    ensures Clear(bits, lo, hi) == {}
  {}

  lemma Others(lists: seq<FreeList>, c: nat)
    requires BallocLists.Apart(lists) && c < |lists|
    ensures forall i :: 0 <= i < |lists| && i != c ==> lists[i] != lists[c]
  {
    forall i | 0 <= i < |lists| && i != c
      ensures lists[i] != lists[c]
    {
      assert if i < c then lists[i] != lists[c] else lists[c] != lists[i];
    }
  }

  /** nova_build_blocknode_map: the free blocks are exactly those in the lists' areas that no CPU marked, alone
      or within a larger page. */
  method Recover(lists: seq<FreeList>, bms: seq<ScanBitmap>, initsize: nat)
    requires Good(lists) && lists != [] && Allocated(bms, initsize)
    requires forall i :: 0 <= i < |lists| ==>
               lists[i].runs == [] && lists[i].start <= lists[i].end + 1 <= initsize / 0x8000 * 8
    modifies lists, set c | 0 <= c < |bms| :: bms[c].bm4K
    ensures Good(lists)
    ensures forall i, b :: 0 <= i < |lists| && 0 <= b ==>
              (b in lists[i].Free() <==> lists[i].start <= b <= lists[i].end && !old(Used(bms, b)))
  {
    hide FreeList.Valid, FreeList.Free, Used, Clear;
    var bits := Merge(bms, initsize);
    BuildBlockMap(lists, bits);
  }

  /** Rebuilt lists are determined by the bitmap alone: there is one coalesced list per set of blocks. */
  lemma RebuiltUnique(list: FreeList, other: seq<Range>, bits: seq<bool>)
    requires list.Valid() && list.Free() == Clear(bits, list.start, list.end + 1)
    requires Coalesced(other) && Blocks(other) == Clear(bits, list.start, list.end + 1)
    ensures list.runs == other && list.numFree == |Clear(bits, list.start, list.end + 1)|
  {
    CoalescedUnique(list.runs, other);
    TotalIsCard(list.runs);
  }
}
