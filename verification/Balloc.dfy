/** The per-CPU free list (balloc.c): a search tree of free ranges with cached first and last nodes and
    counters, refining a set of free blocks. Tree nodes are objects: each range has an identity, and
    the cached pointers name identities. */
module Balloc {
  import opened Options
  import opened Ranges
  import opened FreeSpace

  const EINVAL := 22
  const EIO := 5
  const ENOSPC := 28
  const DEAD_ZONE_BLOCKS := 256
  const PAGES_PER_2MB := 512

  /** Whether freeing low..high is refused: the range's first block is free, or the last node the
      search visited overlaps the range. The neighbour on the other side is not compared. */
  predicate Caught(rs: seq<Range>, shape: Shape, low: nat, high: nat)
    requires Over(shape, 0, |rs|)
  {
    var (found, at) := Probe(rs, shape, 0, |rs|, low, None);
    found || (at.Some? && at.value < |rs| && rs[at.value].high >= low && rs[at.value].low <= high)
  }

  /** A range that touches no free block is never refused. */
  lemma FreshNotCaught(rs: seq<Range>, shape: Shape, low: nat, high: nat)
    requires Coalesced(rs) && Over(shape, 0, |rs|) && low <= high && Span(Range(low, high)) !! Blocks(rs)
    ensures !Caught(rs, shape, low, high)
  {
    hide Blocks;
    var p := ProbeExact(rs, shape, 0, |rs|, low, None);
    var (found, at) := Probe(rs, shape, 0, |rs|, low, None);
    assert low in Span(Range(low, high));
    if found {
      BlocksAt(rs, p, low);
    } else {
      SlotApart(rs, p, low, high);
    }
  }

  /** The refusal depends on the balancing: with two free ranges, a range that reaches into the second
      one is refused when the second is the root and accepted when the first is. */
  lemma DoubleFreeDependsOnShape()
    ensures var (rs, low, high) := ([Range(10, 11), Range(20, 21)], 15, 20);
            var (rootFirst, rootSecond) := (At(Nil, 0, At(Nil, 1, Nil)), At(At(Nil, 0, Nil), 1, Nil));
            && Coalesced(rs) && 20 in Blocks(rs) && 20 in Span(Range(low, high))
            && Over(rootFirst, 0, 2) && Over(rootSecond, 0, 2)
            && Caught(rs, rootFirst, low, high)
            && !Caught(rs, rootSecond, low, high)
  {
    var (rs, low, high) := ([Range(10, 11), Range(20, 21)], 15, 20);
    BlocksAt(rs, 1, 20);
    var t := At(Nil, 1, Nil);
    assert Probe(rs, At(Nil, 0, t), 0, 2, low, None) == Probe(rs, t, 1, 2, low, Some(0)) == (false, Some(1));
    var u := At(Nil, 0, Nil);
    assert Probe(rs, At(u, 1, Nil), 0, 2, low, None) == Probe(rs, u, 0, 1, low, Some(1)) == (false, Some(0));
  }

  // ----- superpages -----

  /** PAGES_PER_2MB - (low & PAGES_PER_2MB_MASK): never zero, even for an aligned range. */
  function Margin(r: Range): (m: nat)
    ensures 1 <= m <= PAGES_PER_2MB && (r.low + m) % PAGES_PER_2MB == 0
  {
    PAGES_PER_2MB - r.low % PAGES_PER_2MB
  }

  /** The whole 2 MB pages that fit behind the margin. */
  function Room(r: Range): (n: nat)
    ensures n % PAGES_PER_2MB == 0 && n + Margin(r) <= Size(r) + if n == 0 then Margin(r) else 0
  {
    if Size(r) <= Margin(r) then 0 else
      var left := Size(r) - Margin(r);
      left - left % PAGES_PER_2MB
  }

  /** Unsigned 64-bit subtraction. */
  function Sub64(a: nat, b: nat): (d: int)
    requires b <= a + 0x1_0000_0000_0000_0000
    ensures d >= 0
  {
    if b <= a then a - b else a + 0x1_0000_0000_0000_0000 - b
  }

  /** The request the code settles on for a range: best effort, shrinking to what fits. */
  function Shrunk(r: Range, num: nat): nat {
    var left := Sub64(Size(r), Margin(r));
    if num > left && left - left % PAGES_PER_2MB > 0 then left - left % PAGES_PER_2MB else num
  }

  predicate Fits(r: Range, num: nat) {
    Size(r) > Margin(r) && Shrunk(r, num) <= Size(r) - Margin(r)
  }

  /** The guards and the wrapping arithmetic amount to this: a range serves a superpage request if and
      only if a whole 2 MB page fits, and a range that does not leaves the request as it was. */
  lemma FitsIff(r: Range, num: nat)
    requires 0 < num < 0x8000_0000_0000_0000 && num % PAGES_PER_2MB == 0
    ensures Fits(r, num) <==> Room(r) > 0
    ensures Fits(r, num) ==> Shrunk(r, num) == if num <= Room(r) then num else Room(r)
    ensures !Fits(r, num) ==> Shrunk(r, num) == num
  {
    if Size(r) > Margin(r) {
      var left := Size(r) - Margin(r);
      MultipleBelow(num, left);
    } else if Size(r) == Margin(r) {
      assert Sub64(Size(r), Margin(r)) == 0;
    }
  }

  lemma MultipleBelow(num: nat, left: nat)
    requires num % PAGES_PER_2MB == 0
    ensures num <= left <==> num <= left - left % PAGES_PER_2MB
  {
    var (a, b) := (num / PAGES_PER_2MB, left / PAGES_PER_2MB);
    assert num == PAGES_PER_2MB * a && left == PAGES_PER_2MB * b + left % PAGES_PER_2MB;
  }

  // ----- the free list -----

  class FreeList {
    const start: nat
    const end: nat
    var runs: seq<Range>
    var ids: seq<nat>
    var first: Option<nat>
    var last: Option<nat>
    var numFree: nat
    var numNodes: nat
    var nextId: nat

    /** Node identities, node count and the cached ends agree with the tree. */
    ghost predicate Names()
      reads this`runs, this`ids, this`first, this`last, this`numNodes, this`nextId
    {
      && |ids| == |runs| == numNodes
      && Distinct(ids, nextId)
      && first == (if ids == [] then None else Some(ids[0]))
      && last == (if ids == [] then None else Some(ids[|ids| - 1]))
    }

    ghost predicate Tree()
      reads this`runs, this`ids, this`first, this`last, this`numNodes, this`nextId
    {
      Names() && Coalesced(runs) && Within(runs, start, end)
    }

    ghost predicate Valid()
      reads this
    {
      Tree() && numFree == Total(runs)
    }

    ghost function Free(): set<nat>
      reads this
    {
      Blocks(runs)
    }

    /** The counter is the number of free blocks. */
    lemma FreeCount()
      requires Valid()
      ensures numFree == |Free()|
    {
      TotalIsCard(runs);
    }

    /** nova_find_free_slot: the neighbours of the range's place. */
    method FindFreeSlot(shape: Shape, low: nat, high: nat)
      returns (ok: bool, prev: Option<nat>, next: Option<nat>, ghost p: nat)
      requires Tree() && Over(shape, 0, |runs|) && low <= high
      ensures ok <==> !Caught(runs, shape, low, high)
      ensures ok ==> Slot(runs, low, p)
      ensures ok ==> prev == (if p > 0 then Some(p - 1) else None) && next == (if p < |runs| then Some(p) else None)
    {
      prev, next := None, None;
      var found, at := FindRangeNode(runs, shape, low);
      p := ProbeExact(runs, shape, 0, |runs|, low, None);
      if found {
        return false, None, None, p;
      }
      if at.None? {
        ok := true;
      } else if runs[at.value].high < low {
        ok, prev := true, at;
        if at.value + 1 < |runs| {
          next := Some(at.value + 1);
        }
      } else if runs[at.value].low > high {
        ok, next := true, at;
        if at.value > 0 {
          prev := Some(at.value - 1);
        }
      } else {
        ok := false;
      }
    }

    /** nova_free_blocks on 4 KiB blocks. Refused calls change nothing. An accepted call adds exactly its
        range, and keeps the list valid if and only if the range was not free. */
    method FreeBlocks(shape: Shape, blocknr: nat, num: int) returns (ret: int)
      requires Valid() && Over(shape, 0, |runs|)
      modifies this
      ensures num <= 0 ==> ret == -EINVAL
      ensures num > 0 && (blocknr < start || blocknr + num > end + 1) ==> ret == -EIO
      ensures num > 0 && start <= blocknr && blocknr + num <= end + 1 ==>
                ret == if old(Caught(runs, shape, blocknr, blocknr + num - 1)) then -EINVAL else 0
      ensures ret != 0 ==> unchanged(this)
      ensures ret == 0 ==> (Valid() <==> Span(Range(blocknr, blocknr + num - 1)) !! old(Free()))
      ensures ret == 0 && Valid() ==>
                Free() == old(Free()) + Span(Range(blocknr, blocknr + num - 1)) && numFree == old(numFree) + num
    {
      hide Blocks, Total, Put, Coalesced, Within, Slot, Probe, Span;
      if num <= 0 {
        return -EINVAL;
      }
      var high := blocknr + num - 1;
      if blocknr < start || blocknr + num > end + 1 {
        return -EIO;
      }
      var ok, prev, next, p := FindFreeSlot(shape, blocknr, high);
      if !ok {
        return -EINVAL;
      }
      ghost var was := runs;
      AddRange(shape, blocknr, high, prev, next, p);
      numFree := numFree + num;
      ret := 0;
      FreedBlocks(was, p, blocknr, high, start, end);
    }

    /** The four ways a freed range joins its neighbours. */
    method AddRange(shape: Shape, low: nat, high: nat, prev: Option<nat>, next: Option<nat>, ghost p: nat)
      requires Tree() && Over(shape, 0, |runs|) && low <= high && p <= |runs| && Slot(runs, low, p)
      requires !Probe(runs, shape, 0, |runs|, low, None).0
      requires prev == (if p > 0 then Some(p - 1) else None) && next == (if p < |runs| then Some(p) else None)
      modifies this`runs, this`ids, this`first, this`last, this`numNodes, this`nextId
      ensures runs == Put(old(runs), p, low, high) && Names()
    {
      hide Coalesced, Within, Slot, Probe, Distinct;
      if prev.Some? && next.Some? && low == runs[prev.value].high + 1 && high + 1 == runs[next.value].low {
        FillHole(prev.value, next.value);
      } else if prev.Some? && low == runs[prev.value].high + 1 {
        var i := prev.value;
        SetNode(i, Range(runs[i].low, runs[i].high + (high - low + 1)));
        assert runs == Put(old(runs), p, low, high);
      } else if next.Some? && high + 1 == runs[next.value].low {
        var i := next.value;
        SetNode(i, Range(runs[i].low - (high - low + 1), runs[i].high));
        assert runs == Put(old(runs), p, low, high);
      } else {
        var q := InsertPlace(runs, shape, low);
        SlotUnique(runs, low, p, q);
        InsertNode(q, Range(low, high), prev.None?, next.None?);
      }
    }

    /** Change a node's range in place. */
    method SetNode(k: nat, r: Range)
      requires Names() && k < |runs|
      modifies this`runs
      ensures runs == old(runs)[k := r] && Names()
    {
      runs := runs[k := r];
    }

    method FillHole(i: nat, j: nat)
      requires Names() && j == i + 1 < |runs|
      modifies this`runs, this`ids, this`last, this`numNodes
      ensures runs == old(runs)[..i] + [Range(old(runs)[i].low, old(runs)[j].high)] + old(runs)[j + 1..] && Names()
    {
      var (joined, gone) := (Range(runs[i].low, runs[j].high), ids[j]);
      DistinctWithout(ids, nextId, j);
      runs, ids := runs[..j] + runs[j + 1..], ids[..j] + ids[j + 1..];
      numNodes := numNodes - 1;
      runs := runs[i := joined];
      if last == Some(gone) {
        last := Some(ids[i]);
      }
      assert runs == old(runs)[..i] + [joined] + old(runs)[j + 1..];
    }

    method InsertNode(q: nat, r: Range, isFirst: bool, isLast: bool)
      requires Names() && q <= |runs| && (isFirst <==> q == 0) && (isLast <==> q == |runs|)
      modifies this`runs, this`ids, this`first, this`last, this`numNodes, this`nextId
      ensures runs == old(runs)[..q] + [r] + old(runs)[q..] && Names()
    {
      var id := nextId;
      DistinctWith(ids, nextId, q);
      nextId := nextId + 1;
      runs, ids := runs[..q] + [r] + runs[q..], ids[..q] + [id] + ids[q..];
      if isFirst {
        first := Some(id);
      }
      if isLast {
        last := Some(id);
      }
      numNodes := numNodes + 1;
    }

    /** nova_insert_blocknode_map: ranges come in rising order and with gaps between them. */
    method InsertLast(low: nat, high: nat)
      requires Valid() && start <= low <= high <= end && (runs != [] ==> runs[|runs| - 1].high + 1 < low)
      modifies this
      ensures Valid() && Free() == old(Free()) + Span(Range(low, high)) && numFree == old(numFree) + (high - low + 1)
      ensures runs == old(runs) + [Range(low, high)]
    {
      hide Blocks, Total, Distinct, Span;
      var n := |runs|;
      CoalescedConcat(runs, [Range(low, high)]);
      BlocksConcat(runs, [Range(low, high)]);
      BlocksOne(Range(low, high));
      InsertNode(n, Range(low, high), first.None?, true);
      assert runs == old(runs) + [Range(low, high)];
      numFree := numFree + (high - low + 1);
    }

    // ----- allocation -----

    /** not_enough_blocks */
    predicate NotEnough(num: nat, log: bool)
      requires Names()
      reads this
    {
      || numFree < num || first.None? || last.None?
      || (log && runs[Deref(ids, last.value)].high - runs[Deref(ids, first.value)].low < DEAD_ZONE_BLOCKS)
    }

    /** Split range k into its margin, the allocated superpages and what is left behind them. */
    method TakeAligned(k: nat, num: nat) returns (b: nat)
      requires Names() && k < |runs| && 0 < num && Margin(runs[k]) + num <= Size(runs[k])
      modifies this`runs, this`ids, this`first, this`last, this`numNodes, this`nextId
      ensures b == old(runs)[k].low + Margin(old(runs)[k])
      ensures runs == Cut(old(runs), k, b, b + num - 1) && Names()
    {
      hide Distinct, Margin;
      var (r, m) := (runs[k], Margin(runs[k]));
      b := r.low + m;
      var right := Size(r) - m - num;
      SetNode(k, Range(r.low, r.low + m - 1));
      if right > 0 {
        LastIs(k);
        InsertNode(k + 1, Range(r.low + m + num, r.high), false, last == Some(ids[k]));
      }
      assert runs == Cut(old(runs), k, b, b + num - 1);
    }

    lemma LastIs(k: nat)
      requires Names() && k < |ids|
      ensures last == Some(ids[k]) <==> k == |ids| - 1
    {}

    /** nova_alloc_superpage: the first range in search order that holds a whole 2 MB page, as many of them
        as asked for and as fit, on a 2 MB boundary. */
    method AllocSuperpage(num: nat, fromTail: bool) returns (n: nat, b: nat, ghost at: nat)
      requires Names() && runs != [] && 0 < num < 0x8000_0000_0000_0000 && num % PAGES_PER_2MB == 0
      modifies this`runs, this`ids, this`first, this`last, this`numNodes, this`nextId
      ensures Names()
      ensures n == 0 ==> unchanged(this) && forall k :: 0 <= k < |runs| ==> Room(runs[k]) == 0
      ensures n > 0 ==>
                && at < |old(runs)| && n == Least(num, Room(old(runs)[at]))
                && b == old(runs)[at].low + Margin(old(runs)[at])
      ensures n > 0 ==> forall k :: 0 <= k < |old(runs)| && Passed(fromTail, k, at) ==> Room(old(runs)[k]) == 0
      ensures n > 0 ==>
                old(runs)[at].low <= b && b + n - 1 <= old(runs)[at].high && runs == Cut(old(runs), at, b, b + n - 1)
    {
      hide Room, Margin, Cut, Distinct;
      var k: int := if fromTail then Deref(ids, last.value) else Deref(ids, first.value);
      DerefEnds(ids, nextId);
      var nb := num;
      n, b, at := 0, 0, 0;
      while 0 <= k < |runs|
        invariant -1 <= k <= |runs| && nb == num && unchanged(this) && Names()
        invariant forall j :: 0 <= j < |runs| && Passed(fromTail, j, k) ==> Room(runs[j]) == 0
        decreases if fromTail then k else |runs| - k
      {
        FitsIff(runs[k], nb);
        RoomBound(runs[k]);
        nb := Shrunk(runs[k], nb);
        if Size(runs[k]) > Margin(runs[k]) && nb <= Size(runs[k]) - Margin(runs[k]) {
          at := k;
          b := TakeAligned(k, nb);
          return nb, b, k;
        }
        k := if fromTail then k - 1 else k + 1;
      }
    }

    /** Take a whole range out of the tree. */
    method RemoveNode(k: nat)
      requires Names() && k < |runs|
      modifies this`runs, this`ids, this`first, this`last, this`numNodes
      ensures runs == old(runs)[..k] + old(runs)[k + 1..] && Names()
    {
      DistinctWithout(ids, nextId, k);
      if first == Some(ids[k]) {
        first := if k + 1 < |ids| then Some(ids[k + 1]) else None;
      }
      if last == Some(ids[k]) {
        last := if k > 0 then Some(ids[k - 1]) else None;
      }
      runs, ids, numNodes := runs[..k] + runs[k + 1..], ids[..k] + ids[k + 1..], numNodes - 1;
    }

    /** Take up to num blocks from an end of range k. */
    method TakeUnaligned(k: nat, num: nat, fromTail: bool) returns (n: nat, b: nat)
      requires Names() && k < |runs| && 0 < num && runs[k].low <= runs[k].high
      modifies this`runs, this`ids, this`first, this`last, this`numNodes
      ensures n == Least(num, Size(old(runs)[k])) && b == EndPlace(old(runs)[k], n, fromTail)
      ensures runs == Cut(old(runs), k, b, b + n - 1) && Names() && numNodes <= old(numNodes)
    {
      var r := runs[k];
      if num >= Size(r) {
        RemoveNode(k);
        n, b := Size(r), r.low;
      } else if fromTail {
        n, b := num, r.high + 1 - num;
        runs := runs[k := Range(r.low, r.high - num)];
      } else {
        n, b := num, r.low;
        runs := runs[k := Range(r.low + num, r.high)];
      }
      assert runs == Cut(old(runs), k, b, b + n - 1);
    }

    /** The first range, in search order, that the fallback may use. */
    method FindUnaligned(big: bool, num: nat, fromTail: bool) returns (k: int)
      requires Names() && runs != [] && Coalesced(runs)
      ensures if fromTail then -1 <= k < |runs| else 0 <= k <= |runs|
      ensures 0 <= k < |runs| ==> !(big && num > Size(runs[k]))
      ensures forall j :: 0 <= j < |runs| && Passed(fromTail, j, k) ==> big && num > Size(runs[j])
    {
      hide Distinct;
      k := if fromTail then Deref(ids, last.value) else Deref(ids, first.value);
      DerefEnds(ids, nextId);
      while 0 <= k < |runs| && big && num > Size(runs[k])
        invariant if fromTail then -1 <= k < |runs| else 0 <= k <= |runs|
        invariant forall j :: 0 <= j < |runs| && Passed(fromTail, j, k) ==> big && num > Size(runs[j])
        decreases if fromTail then k else |runs| - k
      {
        k := if fromTail then k - 1 else k + 1;
      }
    }

    /** When a list refuses a request: it is empty, a log request hits the dead zone or the count, or a
        request for large blocks finds neither a whole 2 MB page nor a range of its size. */
    ghost predicate Refused(big: bool, log: bool, num: nat)
      requires Names()
      reads this
    {
      || runs == []
      || (log && NotEnough(num, log))
      || (big && (forall k :: 0 <= k < |runs| ==> Size(runs[k]) < num) &&
          !(Superpage(log, num) && exists k :: 0 <= k < |runs| && Room(runs[k]) > 0))
    }

    /** nova_alloc_blocks_in_free_list: one contiguous free range, no longer than asked, leaves the free set. */
    method AllocBlocks(big: bool, log: bool, num: nat, fromTail: bool) returns (n: int, b: nat)
      requires Valid() && 0 < num < 0x8000_0000_0000_0000
      modifies this
      ensures Valid() && (n == -ENOSPC || 0 < n <= num)
      ensures n < 0 <==> old(Refused(big, log, num))
      ensures n < 0 ==> unchanged(this)
      ensures n > 0 ==> Span(Range(b, b + n - 1)) <= old(Free()) && Free() == old(Free()) - Span(Range(b, b + n - 1))
      ensures n > 0 ==> numFree == old(numFree) - n
      ensures !Superpage(log, num) ==> numNodes <= old(numNodes)
      ensures n > 0 && big ==> BigGrant(old(runs), log, num, fromTail, n)
      ensures n > 0 ==> Given(old(runs), big, log, num, fromTail, n, b)
    {
      hide Blocks, Total, Span, Room, Margin, Cut, Coalesced, Within, Names, NotEnough, BigGrant;
      b := 0;
      FreeNonempty(runs);
      FirstSome();
      if first.None? || numFree == 0 {
        return -ENOSPC, 0;
      }
      if log && NotEnough(num, log) {
        return -ENOSPC, 0;
      }
      if Superpage(log, num) {
        var m, c, at := AllocSuperpage(num, fromTail);
        if m > 0 && c != 0 {
          CutFree(old(runs), at, c, c + m - 1, start, end);
          RoomBound(old(runs)[at]);
          GrantedRoom(old(runs), log, num, fromTail, at);
          assert GivenAt(old(runs), big, log, num, fromTail, at, m, c);
          numFree := numFree - m;
          return m, c;
        }
      }
      ghost var noRoom := !(Superpage(log, num) && exists j :: 0 <= j < |runs| && Room(runs[j]) > 0);
      n, b := AllocUnaligned(big, num, fromTail);
      if n > 0 {
        ghost var k: nat :| EndOf(old(runs), big, num, fromTail, k, n, b);
        assert noRoom && GivenAt(old(runs), big, log, num, fromTail, k, n, b);
      }
      if big && n > 0 {
        GrantedAll(old(runs), log, num, fromTail);
      }
    }

    /** The fallback of an allocation: the first range long enough, or as much as the range at the end holds. */
    method AllocUnaligned(big: bool, num: nat, fromTail: bool) returns (n: int, b: nat)
      requires Valid() && runs != [] && 0 < num < 0x8000_0000_0000_0000
      modifies this
      ensures Valid() && (n == -ENOSPC || 0 < n <= num) && numNodes <= old(numNodes)
      ensures n < 0 <==> big && forall k :: 0 <= k < |old(runs)| ==> Size(old(runs)[k]) < num
      ensures n < 0 ==> unchanged(this)
      ensures n > 0 ==> Span(Range(b, b + n - 1)) <= old(Free()) && Free() == old(Free()) - Span(Range(b, b + n - 1))
      ensures n > 0 ==> numFree == old(numFree) - n && (big ==> n == num)
      ensures n > 0 ==> exists k: nat :: EndOf(old(runs), big, num, fromTail, k, n, b)
    {
      hide Blocks, Total, Span, Room, Margin, Cut, Coalesced, Within, Names;
      b := 0;
      FirstSome();
      var k := FindUnaligned(big, num, fromTail);
      if k < 0 || k >= |runs| {
        forall j | 0 <= j < |runs|
          ensures Size(runs[j]) < num
        {
          assert Passed(fromTail, j, k);
        }
        assert Passed(fromTail, 0, k);
        return -ENOSPC, 0;
      }
      var m, c := TakeUnaligned(k, num, fromTail);
      assert EndOf(old(runs), big, num, fromTail, k, m, c);
      CutFree(old(runs), k, c, c + m - 1, start, end);
      numFree := numFree - m;
      return m, c;
    }

    /** With enough blocks in the list, a first range that is too short is not the last one. */
    lemma ShortOfAll(num: nat)
      requires Valid()
      ensures !Refused(false, true, num) ==> runs != [] && (Size(runs[0]) < num ==> runs[0].high < end)
    {
      if |runs| == 1 {
        assert runs == [runs[0]];
        BlocksOne(runs[0]);
      } else if |runs| > 1 {
        assert runs[0].high + 1 < runs[1].low <= runs[1].high <= end;
      }
    }

    lemma FirstSome()
      requires Tree()
      ensures first.None? <==> runs == []
      ensures forall k :: 0 <= k < |runs| ==> runs[k].low <= runs[k].high
    {}
  }

  /** Whether the search has passed position j when it stands at k. */
  predicate Passed(fromTail: bool, j: int, k: int) {
    if fromTail then j > k else j < k
  }

  /** Data requests of whole 2 MB pages are tried on 2 MB boundaries first. */
  predicate Superpage(log: bool, num: nat) {
    !log && num % PAGES_PER_2MB == 0
  }

  /** The first range in search order that holds a whole 2 MB page. */
  predicate FirstRoom(runs: seq<Range>, fromTail: bool, k: nat) {
    && k < |runs| && Room(runs[k]) > 0
    && forall j :: 0 <= j < |runs| && Passed(fromTail, j, k) ==> Room(runs[j]) == 0
  }

  /** Blocks at an end of the first range in search order that may serve: any range, for a plain request; one that is
      long enough, for large blocks. */
  predicate EndOf(runs: seq<Range>, big: bool, num: nat, fromTail: bool, k: nat, n: nat, b: nat) {
    && k < |runs| && !(big && Size(runs[k]) < num)
    && (forall j :: 0 <= j < |runs| && Passed(fromTail, j, k) ==> big && Size(runs[j]) < num)
    && 0 < n <= Size(runs[k]) && n == Least(num, Size(runs[k])) && b == EndPlace(runs[k], n, fromTail)
  }

  /** The n blocks from b on are what range k gives: whole 2 MB pages behind its margin, where the request is for
      such and there are any; else blocks at its end. */
  predicate GivenAt(runs: seq<Range>, big: bool, log: bool, num: nat, fromTail: bool, k: nat, n: nat, b: nat) {
    if Superpage(log, num) && exists j :: 0 <= j < |runs| && Room(runs[j]) > 0
    then FirstRoom(runs, fromTail, k) && n == Least(num, Room(runs[k])) && b == runs[k].low + Margin(runs[k])
    else EndOf(runs, big, num, fromTail, k, n, b)
  }

  /** Which blocks an allocation takes. */
  ghost predicate Given(runs: seq<Range>, big: bool, log: bool, num: nat, fromTail: bool, n: nat, b: nat) {
    exists k: nat :: GivenAt(runs, big, log, num, fromTail, k, n, b)
  }

  /** A plain request takes its blocks from the very end of the free space. */
  lemma PlainGiven(runs: seq<Range>, log: bool, num: nat, fromTail: bool, n: nat, b: nat)
    requires Given(runs, false, log, num, fromTail, n, b) && !Superpage(log, num)
    ensures runs != []
    ensures var r := if fromTail then runs[|runs| - 1] else runs[0];
            0 < n <= Size(r) && n == Least(num, Size(r)) && b == EndPlace(r, n, fromTail)
  {
    var k: nat :| GivenAt(runs, false, log, num, fromTail, k, n, b);
    assert !Passed(fromTail, 0, k) && !Passed(fromTail, |runs| - 1, k);
  }

  /** There is no choice in it. */
  lemma GivenOne(runs: seq<Range>, big: bool, log: bool, num: nat, fromTail: bool, n: nat, b: nat, n': nat, b': nat)
    requires Given(runs, big, log, num, fromTail, n, b) && Given(runs, big, log, num, fromTail, n', b')
    ensures n == n' && b == b'
  {
    hide Room, Margin;
    var k: nat :| GivenAt(runs, big, log, num, fromTail, k, n, b);
    var k': nat :| GivenAt(runs, big, log, num, fromTail, k', n', b');
    assert k == k';
  }

  /** What a request for large blocks is given: the 2 MB pages of the first range that has any, as far as asked; or
      all it asks for. */
  ghost predicate BigGrant(runs: seq<Range>, log: bool, num: nat, fromTail: bool, n: int) {
    if k: nat :| Superpage(log, num) && FirstRoom(runs, fromTail, k) then n == Least(num, Room(runs[k])) else n == num
  }

  lemma GrantedRoom(runs: seq<Range>, log: bool, num: nat, fromTail: bool, at: nat)
    requires Superpage(log, num) && FirstRoom(runs, fromTail, at)
    ensures BigGrant(runs, log, num, fromTail, Least(num, Room(runs[at])))
  {
    hide Room;
    forall k: nat | FirstRoom(runs, fromTail, k)
      ensures k == at
    {}
  }

  lemma GrantedAll(runs: seq<Range>, log: bool, num: nat, fromTail: bool)
    requires Superpage(log, num) ==> forall k :: 0 <= k < |runs| ==> Room(runs[k]) == 0
    ensures BigGrant(runs, log, num, fromTail, num)
  {
    hide Room;
  }

  /** Whether large blocks of `unit` come out even: a grant of 2 MB pages may stop inside a 1 GB page. */
  ghost predicate Even(runs: seq<Range>, log: bool, num: nat, unit: nat, fromTail: bool)
    requires unit > 0
  {
    unit <= PAGES_PER_2MB || log ||
    forall k: nat :: FirstRoom(runs, fromTail, k) ==> num * unit <= Room(runs[k]) || Room(runs[k]) % unit == 0
  }

  lemma EvenIff(runs: seq<Range>, log: bool, num: nat, unit: nat, fromTail: bool, n: nat)
    requires unit in {PAGES_PER_2MB, 0x40000} && BigGrant(runs, log, num * unit, fromTail, n)
    ensures n % unit == 0 <==> Even(runs, log, num, unit, fromTail)
  {
    hide Room;
    assert (num * unit) % unit == 0;
    assert 0x40000 % PAGES_PER_2MB == 0;
    WholePages(num, unit);
    if k: nat :| Superpage(log, num * unit) && FirstRoom(runs, fromTail, k) {
      GrantedRoom(runs, log, num * unit, fromTail, k);
      forall j: nat | FirstRoom(runs, fromTail, j)
        ensures j == k
      {}
    }
  }

  lemma WholePages(num: nat, unit: nat)
    requires unit in {PAGES_PER_2MB, 0x40000}
    ensures (num * unit) % PAGES_PER_2MB == 0
  {
    if unit == 0x40000 {
      assert num * unit == (num * 512) * PAGES_PER_2MB;
    }
  }

  /** A list whose one range holds a single whole 2 MB page: it is what a request for a 1 GB page gets. */
  lemma HugeUnitLost(fromTail: bool)
    ensures var runs := [Range(1, 1023)];
            BigGrant(runs, false, 0x40000, fromTail, 512) && !Even(runs, false, 1, 0x40000, fromTail)
  {
    var runs := [Range(1, 1023)];
    assert FirstRoom(runs, fromTail, 0);
    GrantedRoom(runs, false, 0x40000, fromTail, 0);
  }

  function Least(a: nat, b: nat): nat {
    if a <= b then a else b
  }

  function EndPlace(r: Range, n: nat, fromTail: bool): nat
    requires 0 < n <= Size(r)
  {
    if fromTail then r.high + 1 - n else r.low
  }

  /** The node a pointer refers to. */
  function Deref(ids: seq<nat>, id: nat): (i: nat)
    requires id in ids
    ensures i < |ids| && ids[i] == id
  {
    if ids[0] == id then 0 else 1 + Deref(ids[1..], id)
  }

  lemma DerefEnds(ids: seq<nat>, nextId: nat)
    requires ids != [] && Distinct(ids, nextId)
    ensures Deref(ids, ids[0]) == 0 && Deref(ids, ids[|ids| - 1]) == |ids| - 1
  {}

  lemma RoomBound(r: Range)
    ensures Room(r) > 0 ==> r.low <= r.high && Margin(r) + Room(r) <= Size(r) && Room(r) >= PAGES_PER_2MB
    ensures Margin(r) >= 1
  {}

  lemma FreeNonempty(rs: seq<Range>)
    requires Coalesced(rs)
    ensures Total(rs) == 0 <==> rs == []
  {
    if rs != [] {
      assert Size(rs[|rs| - 1]) > 0;
    }
  }

  lemma CutFree(rs: seq<Range>, i: nat, low: nat, high: nat, lo: nat, hi: nat)
    requires Coalesced(rs) && Within(rs, lo, hi) && i < |rs| && rs[i].low <= low <= high <= rs[i].high
    ensures var (out, span) := (Cut(rs, i, low, high), Span(Range(low, high)));
            && Coalesced(out) && Within(out, lo, hi)
            && span <= Blocks(rs) && Blocks(out) == Blocks(rs) - span && Total(out) + (high - low + 1) == Total(rs)
  {
    hide Blocks, Total, Cut, Coalesced, Within, Span;
    CutCoalesced(rs, i, low, high);
    CutWithin(rs, i, low, high, lo, hi);
    CutExact(rs, i, low, high);
  }

  lemma FreedBlocks(rs: seq<Range>, p: nat, low: nat, high: nat, lo: nat, hi: nat)
    requires Coalesced(rs) && Within(rs, lo, hi) && Slot(rs, low, p) && lo <= low <= high <= hi
    ensures var (out, span) := (Put(rs, p, low, high), Span(Range(low, high)));
            && Within(out, lo, hi)
            && (Coalesced(out) <==> span !! Blocks(rs))
            && (Coalesced(out) ==> Blocks(out) == Blocks(rs) + span && Total(out) == Total(rs) + (high - low + 1))
  {
    hide Blocks, Total, Put, Coalesced, Within;
    PutCoalesced(rs, p, low, high);
    SlotApart(rs, p, low, high);
    PutWithin(rs, p, low, high, lo, hi);
    if Coalesced(Put(rs, p, low, high)) {
      PutExact(rs, p, low, high);
    }
  }
}
