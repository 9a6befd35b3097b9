/** Inode numbers (inode.c): every CPU has a tree of the internal numbers in use; an inode number is an internal
    number together with its CPU. Tree nodes have identities, and the map's cached pointer names one. */
module Inodes {
  import opened Options
  import opened Ranges
  import opened FreeSpace

  const NORMAL_INODE_START := 32
  const MAX_INODE := 0x8000_0000
  const ENOSPC := 28
  const EINVAL := 22

  datatype Map = Map(runs: seq<Range>, ids: seq<nat>, first: nat, nodes: nat, taken: nat, freed: nat)

  /** The highest internal number the initial range of a map covers. */
  function RangeHigh(cpus: nat): nat
    requires cpus > 0
  {
    NORMAL_INODE_START / cpus + if NORMAL_INODE_START % cpus != 0 then 1 else 0
  }

  // ----- numbers and their parts -----

  function Number(cpus: nat, cpu: nat, n: nat): nat {
    n * cpus + cpu
  }

  /** An inode number is a CPU and an internal number, and nothing else. */
  lemma NumberParts(cpus: nat, cpu: nat, n: nat, ino: nat)
    requires cpu < cpus
    ensures Number(cpus, cpu, n) == ino <==> ino % cpus == cpu && ino / cpus == n
  {
    assert ino == cpus * (ino / cpus) + ino % cpus;
    if Number(cpus, cpu, n) == ino {
      var d := n - ino / cpus;
      assert d * cpus == n * cpus - ino / cpus * cpus;
      assert d * cpus == ino % cpus - cpu;
      OnlyZero(d, cpus, ino % cpus - cpu);
    }
  }

  lemma OnlyZero(d: int, c: int, r: int)
    requires d * c == r && -c < r < c
    ensures d == 0
  {
    if d > 0 {
      Grow(1, d, c);
    }
  }

  lemma Grow(a: nat, b: nat, c: nat)
    requires a <= b
    ensures a * c <= b * c
  {}

  /** The initial ranges cover every reserved number. */
  lemma ReservedCovered(cpus: nat, ino: nat)
    requires cpus > 0 && ino < NORMAL_INODE_START
    ensures ino / cpus <= RangeHigh(cpus)
  {
    var (q, h) := (ino / cpus, NORMAL_INODE_START / cpus);
    assert ino == cpus * q + ino % cpus && NORMAL_INODE_START == cpus * h + NORMAL_INODE_START % cpus;
    assert (h + 1) * cpus == h * cpus + cpus;
    if q > h {
      Grow(h + 1, q, cpus);
    }
  }

  // ----- the numbers in use -----

  predicate HoldsAt(maps: seq<Map>, cpu: nat, n: nat) {
    cpu < |maps| && n in Blocks(maps[cpu].runs)
  }

  predicate Holds(maps: seq<Map>, cpus: nat, ino: nat) {
    cpus > 0 && HoldsAt(maps, ino % cpus, ino / cpus)
  }

  function Own(cpus: nat, cpu: nat, s: set<nat>): set<nat> {
    set n | n in s :: Number(cpus, cpu, n)
  }

  function Held(maps: seq<Map>, cpus: nat, k: nat): set<nat>
    requires k <= |maps|
  {
    if k == 0 then {} else Held(maps, cpus, k - 1) + Own(cpus, k - 1, Blocks(maps[k - 1].runs))
  }

  function Sum(maps: seq<Map>, k: nat): nat
    requires k <= |maps|
  {
    if k == 0 then 0 else Sum(maps, k - 1) + Total(maps[k - 1].runs)
  }

  lemma OwnHas(cpus: nat, cpu: nat, s: set<nat>, ino: nat)
    requires cpu < cpus
    ensures ino in Own(cpus, cpu, s) <==> ino % cpus == cpu && ino / cpus in s
  {
    hide Number;
    NumberParts(cpus, cpu, ino / cpus, ino);
    if ino in Own(cpus, cpu, s) {
      var n :| n in s && Number(cpus, cpu, n) == ino;
      NumberParts(cpus, cpu, n, ino);
    }
  }

  lemma {:induction false} HeldHas(maps: seq<Map>, cpus: nat, k: nat, ino: nat)
    requires k <= |maps| == cpus && 0 < cpus
    ensures ino in Held(maps, cpus, k) <==> ino % cpus < k && Holds(maps, cpus, ino)
  {
    hide Own, Blocks;
    if k > 0 {
      HeldHas(maps, cpus, k - 1, ino);
      OwnHas(cpus, k - 1, Blocks(maps[k - 1].runs), ino);
    }
  }

  lemma {:induction false} OwnCard(cpus: nat, cpu: nat, s: set<nat>)
    requires cpu < cpus
    ensures |Own(cpus, cpu, s)| == |s|
  {
    hide Number;
    if s != {} {
      var x :| x in s;
      var rest := s - {x};
      OwnCard(cpus, cpu, rest);
      NumberParts(cpus, cpu, x, Number(cpus, cpu, x));
      forall n | n in rest
        ensures Number(cpus, cpu, n) != Number(cpus, cpu, x)
      {
        NumberParts(cpus, cpu, n, Number(cpus, cpu, x));
      }
      assert Own(cpus, cpu, s) == Own(cpus, cpu, rest) + {Number(cpus, cpu, x)};
    }
  }

  /** The sizes of the trees add up to the number of inode numbers in use. */
  lemma {:induction false} HeldCard(maps: seq<Map>, cpus: nat, k: nat)
    requires k <= |maps| == cpus && 0 < cpus && forall c :: 0 <= c < |maps| ==> Coalesced(maps[c].runs)
    ensures |Held(maps, cpus, k)| == Sum(maps, k)
  {
    hide Own, Blocks, Coalesced, Total;
    if k > 0 {
      var (a, b) := (Held(maps, cpus, k - 1), Own(cpus, k - 1, Blocks(maps[k - 1].runs)));
      HeldCard(maps, cpus, k - 1);
      OwnCard(cpus, k - 1, Blocks(maps[k - 1].runs));
      TotalIsCard(maps[k - 1].runs);
      forall ino | ino in a
        ensures ino !in b
      {
        HeldHas(maps, cpus, k - 1, ino);
        OwnHas(cpus, k - 1, Blocks(maps[k - 1].runs), ino);
      }
      CardDisjoint(a, b);
    }
  }

  // ----- one map -----

  /** The tree is coalesced, and nodes and counter agree with it. */
  predicate Tree(m: Map, next: nat) {
    && Coalesced(m.runs) && Within(m.runs, 0, MAX_INODE - 2)
    && |m.ids| == |m.runs| == m.nodes && Distinct(m.ids, next)
  }

  /** The cached node is the first one, and covers the reserved numbers. */
  predicate Anchored(m: Map, high: nat) {
    && |m.ids| == |m.runs| > 0 && m.first == m.ids[0]
    && m.runs[0].low == 0 && high <= m.runs[0].high
  }

  /** The number just after the first range is the least one not in use. */
  lemma LeastUnused(rs: seq<Range>)
    requires Coalesced(rs) && rs != [] && rs[0].low == 0
    ensures rs[0].high + 1 !in Blocks(rs) && Slot(rs, rs[0].high + 1, 1)
    ensures forall n: nat :: n <= rs[0].high ==> n in Blocks(rs)
  {
    GapAfterFirst(rs);
    forall n: nat | n <= rs[0].high
      ensures n in Blocks(rs)
    {
      BlocksAt(rs, 0, n);
    }
  }

  /** Allocating puts exactly the least unused number into the tree. */
  lemma TakenExactly(rs: seq<Range>)
    requires Coalesced(rs) && rs != [] && rs[0].low == 0 && Within(rs, 0, MAX_INODE - 2)
    requires rs[0].high + 1 <= MAX_INODE - 2
    ensures var n := rs[0].high + 1; var out := Put(rs, 1, n, n);
            && n !in Blocks(rs) && Blocks(out) == Blocks(rs) + {n} && Total(out) == Total(rs) + 1
            && Coalesced(out) && Within(out, 0, MAX_INODE - 2)
            && out != [] && out[0].low == 0 && rs[0].high < out[0].high
  {
    hide Blocks, Total;
    var n := rs[0].high + 1;
    LeastUnused(rs);
    assert |rs| > 1 ==> rs[0].high + 1 < rs[1].low;
    PutCoalesced(rs, 1, n, n);
    PutExact(rs, 1, n, n);
    PutWithin(rs, 1, n, n, 0, MAX_INODE - 2);
    assert Span(Range(n, n)) == {n};
  }

  /** No number is left if and only if the first range reaches the end. */
  lemma FullIff(rs: seq<Range>)
    requires Coalesced(rs) && rs != [] && rs[0].low == 0 && Within(rs, 0, MAX_INODE - 2)
    ensures rs[0].high == MAX_INODE - 2 <==> forall n: nat :: n <= MAX_INODE - 2 ==> n in Blocks(rs)
  {
    hide Blocks;
    LeastUnused(rs);
  }

  /** Freeing takes exactly its number out of the tree; the reserved numbers stay anchored if and only if it
      is not one of them. */
  lemma FreedExactly(rs: seq<Range>, i: nat, n: nat, high: nat)
    requires Coalesced(rs) && Within(rs, 0, MAX_INODE - 2) && i < |rs| && In(rs[i], n)
    ensures var out := Cut(rs, i, n, n);
            && n in Blocks(rs) && Blocks(out) == Blocks(rs) - {n} && Total(out) + 1 == Total(rs)
            && Coalesced(out) && Within(out, 0, MAX_INODE - 2)
            && (rs[0].low == 0 && high <= rs[0].high ==>
                (out != [] && out[0].low == 0 && high <= out[0].high <==> n > high))
  {
    hide Blocks, Total;
    CutCoalesced(rs, i, n, n);
    CutExact(rs, i, n, n);
    CutWithin(rs, i, n, n, 0, MAX_INODE - 2);
    assert Span(Range(n, n)) == {n};
    assert i > 0 ==> rs[0].high + 1 < rs[i].low;
  }

  /** Freeing the number just allocated restores the tree. */
  lemma AllocThenFree(rs: seq<Range>, i: nat)
    requires Coalesced(rs) && rs != [] && rs[0].low == 0 && Within(rs, 0, MAX_INODE - 2)
    requires rs[0].high + 1 <= MAX_INODE - 2
    requires var n := rs[0].high + 1; i < |Put(rs, 1, n, n)| && In(Put(rs, 1, n, n)[i], n)
    ensures var n := rs[0].high + 1; Cut(Put(rs, 1, n, n), i, n, n) == rs
  {
    hide Blocks, Total, Put, Cut;
    var n := rs[0].high + 1;
    var out := Put(rs, 1, n, n);
    TakenExactly(rs);
    FreedExactly(out, i, n, 0);
    CoalescedUnique(Cut(out, i, n, n), rs);
  }

  // ----- the maps -----

  /** A change of one map's tree by one number is a change of the numbers in use by one. */
  lemma HeldChange(maps: seq<Map>, cpus: nat, cpu: nat, m: Map, n: nat, added: bool)
    requires cpu < cpus == |maps|
    requires Blocks(m.runs) == if added then Blocks(maps[cpu].runs) + {n} else Blocks(maps[cpu].runs) - {n}
    ensures var (ino, was) := (Number(cpus, cpu, n), Held(maps, cpus, cpus));
            Held(maps[cpu := m], cpus, cpus) == if added then was + {ino} else was - {ino}
  {
    hide Held, Number, Blocks;
    var (ino, was, now) := (Number(cpus, cpu, n), Held(maps, cpus, cpus), Held(maps[cpu := m], cpus, cpus));
    forall x
      ensures x in now <==> if added then x in was || x == ino else x in was && x != ino
    {
      HeldHas(maps, cpus, cpus, x);
      HeldHas(maps[cpu := m], cpus, cpus, x);
      NumberParts(cpus, cpu, n, x);
    }
  }

  lemma HeldNumber(maps: seq<Map>, cpus: nat, cpu: nat, n: nat)
    requires cpu < cpus == |maps|
    ensures Number(cpus, cpu, n) in Held(maps, cpus, cpus) <==> n in Blocks(maps[cpu].runs)
  {
    hide Held, Number, Blocks;
    HeldHas(maps, cpus, cpus, Number(cpus, cpu, n));
    NumberParts(cpus, cpu, n, Number(cpus, cpu, n));
  }

  /** The initial map. */
  function Fresh(high: nat, id: nat): Map {
    Map([Range(0, high)], [id], id, 1, 0, 0)
  }

  lemma {:induction false} FreshSum(maps: seq<Map>, high: nat, k: nat)
    requires k <= |maps| && forall c :: 0 <= c < |maps| ==> maps[c].runs == [Range(0, high)]
    ensures Sum(maps, k) == k * (high + 1)
  {
    if k > 0 {
      FreshSum(maps, high, k - 1);
      BlocksOne(Range(0, high));
    }
  }

  /** One node per CPU, from the lowest number on. */
  method InitialMaps(cpus: nat) returns (maps: seq<Map>)
    requires cpus > 0
    ensures |maps| == cpus && forall c :: 0 <= c < cpus ==> maps[c].runs == [Range(0, RangeHigh(cpus))]
    ensures forall c :: 0 <= c < cpus ==> Tree(maps[c], cpus) && Anchored(maps[c], RangeHigh(cpus))
  {
    var high := NORMAL_INODE_START / cpus;
    if NORMAL_INODE_START % cpus != 0 {
      high := high + 1;
    }
    maps := [];
    for i := 0 to cpus
      invariant |maps| == i && high == RangeHigh(cpus) <= NORMAL_INODE_START
      invariant forall c :: 0 <= c < i ==> maps[c] == Fresh(high, c)
    {
      maps := maps + [Map([Range(0, high)], [i], i, 1, 0, 0)];
    }
  }

  class InodeMaps {
    const cpus: nat
    var maps: seq<Map>
    var used: int
    var mapId: nat
    var next: nat

    ghost predicate Trees()
      reads this`maps, this`next
    {
      0 < cpus == |maps| && forall c :: 0 <= c < |maps| ==> Tree(maps[c], next)
    }

    ghost predicate Valid()
      reads this
    {
      && Trees() && mapId < cpus
      && (forall c :: 0 <= c < |maps| ==> Anchored(maps[c], RangeHigh(cpus)))
    }

    ghost function InUse(): set<nat>
      requires |maps| == cpus
      reads this`maps
    {
      Held(maps, cpus, cpus)
    }

    /** By how much the usage counter exceeds the number of inode numbers in use. */
    ghost function Surplus(): int
      requires |maps| == cpus
      reads this`maps, this`used
    {
      used - |InUse()|
    }

    /** nova_init_inode_inuse_list: the numbers in use are those of the initial ranges, and they include all
        reserved ones. */
    constructor (cpus: nat)
      requires cpus > 0
      ensures this.cpus == cpus && Valid() && used == NORMAL_INODE_START
      ensures Surplus() == NORMAL_INODE_START - cpus * (RangeHigh(cpus) + 1) < 0
      ensures forall ino: nat :: ino in InUse() <==> ino / cpus <= RangeHigh(cpus)
      ensures forall ino: nat :: ino < NORMAL_INODE_START ==> ino in InUse()
    {
      var list := InitialMaps(cpus);
      this.cpus, maps, mapId, used, next := cpus, list, 0, NORMAL_INODE_START, cpus;
      new;
      hide Held, RangeHigh, Tree, Anchored;
      InitialExceeds(cpus);
      FreshHeld(maps, cpus);
      ReservedHeld(maps, cpus);
    }

    /** The maps as a mount has read them back. */
    constructor Mounted(cpus: nat, maps: seq<Map>, used: nat, next: nat)
      requires 0 < cpus == |maps|
      requires forall c :: 0 <= c < cpus ==> Tree(maps[c], next) && Anchored(maps[c], RangeHigh(cpus))
      ensures this.cpus == cpus && this.maps == maps && this.used == used && this.next == next && Valid()
    {
      this.cpus, this.maps, this.used, this.next, mapId := cpus, maps, used, next, 0;
    }

    /** nova_alloc_unused_inode: hands out the least internal number the map does not use, and fails only when
        it uses all of them. */
    method AllocUnused(cpu: nat) returns (ret: int, ino: nat)
      requires Valid() && cpu < cpus
      modifies this`maps, this`used
      ensures Valid() && Surplus() == old(Surplus())
      ensures ret ==
                if (forall n: nat :: n <= MAX_INODE - 2 ==> old(Number(cpus, cpu, n) in InUse())) then -ENOSPC else 0
      ensures ret != 0 ==> maps == old(maps) && used == old(used)
      ensures ret == 0 ==> ino !in old(InUse()) && InUse() == old(InUse()) + {ino} && used == old(used) + 1
      ensures ret == 0 ==> ino % cpus == cpu && forall n: nat :: n < ino / cpus ==> old(Number(cpus, cpu, n) in InUse())
    {
      hide Blocks, Total, Coalesced, Within, Held, Number, Sum, RangeHigh;
      ghost var was := maps;
      var m := maps[cpu];
      assert Tree(m, next) && Anchored(m, RangeHigh(cpus));
      forall n: nat
        ensures Number(cpus, cpu, n) in InUse() <==> n in Blocks(m.runs)
      {
        HeldNumber(maps, cpus, cpu, n);
      }
      FullIff(m.runs);
      LeastUnused(m.runs);
      var i: nat :| i < |m.ids| && m.ids[i] == m.first;
      var newIno := m.runs[i].high + 1;
      GapBefore(m.runs);
      var hasNext := i + 1 < |m.runs|;
      var nextLow := if hasNext then m.runs[i + 1].low else MAX_INODE;
      if hasNext && newIno == nextLow - 1 {
        m := m.(runs := m.runs[..i] + [Range(m.runs[i].low, m.runs[i + 1].high)] + m.runs[i + 2..],
                ids := m.ids[..i + 1] + m.ids[i + 2..], nodes := m.nodes - 1);
        DistinctWithout(maps[cpu].ids, next, i + 1);
      } else if newIno < nextLow - 1 {
        m := m.(runs := m.runs[i := Range(m.runs[i].low, newIno)]);
      } else {
        return -ENOSPC, 0;
      }
      assert m.runs == Put(maps[cpu].runs, 1, newIno, newIno);
      TakenExactly(maps[cpu].runs);
      m := m.(taken := m.taken + 1);
      maps, used := maps[cpu := m], used + 1;
      ret, ino := 0, Number(cpus, cpu, newIno);
      HeldChange(was, cpus, cpu, m, newIno, true);
      NumberParts(cpus, cpu, newIno, ino);
    }

    /** nova_free_inuse_inode: takes exactly that number out. The map stays usable for allocation if and only
        if the number is not one of the initial range. */
    method FreeInuse(shape: Shape, ino: nat) returns (ret: int)
      requires Trees() && mapId < cpus && Over(shape, 0, |maps[ino % cpus].runs|)
      modifies this`maps, this`used, this`next
      ensures Trees() && Surplus() == old(Surplus())
      ensures ret == if old(ino in InUse()) then 0 else -EINVAL
      ensures ret != 0 ==> maps == old(maps) && used == old(used)
      ensures ret == 0 ==> InUse() == old(InUse()) - {ino} && used == old(used) - 1
      ensures ret == 0 && old(Valid()) ==> (Valid() <==> ino / cpus > RangeHigh(cpus))
    {
      hide Blocks, Total, Coalesced, Within, Held, Number, Sum, RangeHigh, Probe;
      ghost var was := maps;
      var (cpu, n) := (ino % cpus, ino / cpus);
      var m := maps[cpu];
      var found, at := FindRangeNode(m.runs, shape, n);
      ghost var p := ProbeExact(m.runs, shape, 0, |m.runs|, n, None);
      NumberParts(cpus, cpu, n, ino);
      HeldNumber(maps, cpus, cpu, n);
      if !found {
        SlotMissing(m.runs, n, p);
        return -EINVAL;
      }
      var i := at.value;
      FreedExactly(m.runs, i, n, RangeHigh(cpus));
      m := RemoveNumber(m, shape, i, n);
      m := m.(freed := m.freed + 1);
      assert Tree(m, next);
      assert Anchored(was[cpu], RangeHigh(cpus)) ==> (Anchored(m, RangeHigh(cpus)) <==> n > RangeHigh(cpus));
      maps, used := maps[cpu := m], used - 1;
      assert maps[cpu] == m && forall c :: 0 <= c < |maps| && c != cpu ==> maps[c] == was[c];
      ret := 0;
      HeldChange(was, cpus, cpu, m, n, false);
    }

    /** The four places a number can have in its node. */
    method RemoveNumber(m: Map, shape: Shape, i: nat, n: nat) returns (r: Map)
      requires Tree(m, next) && Over(shape, 0, |m.runs|) && i < |m.runs| && In(m.runs[i], n)
      modifies this`next
      ensures r.runs == Cut(m.runs, i, n, n) && next >= old(next)
      ensures |r.ids| == |r.runs| == r.nodes && Distinct(r.ids, next)
      ensures r.first == m.first && (r.ids != [] && m.ids[0] == r.ids[0] <==> !(i == 0 && m.runs[0] == Range(n, n)))
    {
      hide Blocks, Coalesced, Within, Probe;
      r := m;
      var node := m.runs[i];
      if n == node.low && n == node.high {
        r := m.(runs := m.runs[..i] + m.runs[i + 1..], ids := m.ids[..i] + m.ids[i + 1..], nodes := m.nodes - 1);
        DistinctWithout(m.ids, next, i);
      } else if n == node.low {
        r := m.(runs := m.runs[i := Range(n + 1, node.high)]);
      } else if n == node.high {
        r := m.(runs := m.runs[i := Range(node.low, n - 1)]);
      } else {
        var shrunk := m.runs[i := Range(node.low, n - 1)];
        ShrunkSlot(m.runs, i, n, shape);
        var q := InsertPlace(shrunk, shape, n + 1);
        SlotUnique(shrunk, n + 1, i + 1, q);
        r := m.(runs := shrunk[..q] + [Range(n + 1, node.high)] + shrunk[q..],
                ids := m.ids[..q] + [next] + m.ids[q..], nodes := m.nodes + 1);
        DistinctWith(m.ids, next, q);
        next := next + 1;
        assert r.runs == Cut(m.runs, i, n, n);
      }
    }

    /** nova_new_nova_inode, up to the inode's address: the maps take turns. */
    method NewInode() returns (ino: nat)
      requires Valid()
      modifies this
      ensures Valid() && Surplus() == old(Surplus()) && mapId == (old(mapId) + 1) % cpus
      ensures ino == 0 <==> forall n: nat :: n <= MAX_INODE - 2 ==> old(Number(cpus, mapId, n) in InUse())
      ensures ino == 0 ==> InUse() == old(InUse())
      ensures ino != 0 ==> ino !in old(InUse()) && InUse() == old(InUse()) + {ino} && ino >= NORMAL_INODE_START
    {
      hide Held, Sum, Number, RangeHigh, Tree;
      ReservedHeld(maps, cpus);
      var id := mapId;
      mapId := (mapId + 1) % cpus;
      var ret, free := AllocUnused(id);
      ino := if ret != 0 then 0 else free;
    }
  }

  /** The initial ranges always cover more than the reserved numbers. */
  lemma InitialExceeds(cpus: nat)
    requires cpus > 0
    ensures cpus * (RangeHigh(cpus) + 1) > NORMAL_INODE_START
  {
    var h := NORMAL_INODE_START / cpus;
    assert NORMAL_INODE_START == cpus * h + NORMAL_INODE_START % cpus;
    assert cpus * (h + 1) == cpus * h + cpus && cpus * (h + 2) == cpus * h + 2 * cpus;
  }

  lemma FreshHeld(maps: seq<Map>, cpus: nat)
    requires 0 < cpus == |maps| && forall c :: 0 <= c < cpus ==> maps[c].runs == [Range(0, RangeHigh(cpus))]
    ensures forall ino: nat :: ino in Held(maps, cpus, cpus) <==> ino / cpus <= RangeHigh(cpus)
    ensures |Held(maps, cpus, cpus)| == cpus * (RangeHigh(cpus) + 1)
  {
    hide Held, RangeHigh, Sum;
    FreshSum(maps, RangeHigh(cpus), cpus);
    HeldCard(maps, cpus, cpus);
    BlocksOne(Range(0, RangeHigh(cpus)));
    forall ino: nat
      ensures ino in Held(maps, cpus, cpus) <==> ino / cpus <= RangeHigh(cpus)
    {
      HeldHas(maps, cpus, cpus, ino);
    }
  }

  /** While the maps are anchored, every reserved number is in use. */
  lemma ReservedHeld(maps: seq<Map>, cpus: nat)
    requires 0 < cpus == |maps| && forall c :: 0 <= c < cpus ==> Anchored(maps[c], RangeHigh(cpus))
    ensures forall ino: nat :: ino < NORMAL_INODE_START ==> ino in Held(maps, cpus, cpus)
  {
    hide Held, RangeHigh, Blocks;
    forall ino: nat | ino < NORMAL_INODE_START
      ensures ino in Held(maps, cpus, cpus)
    {
      ReservedCovered(cpus, ino);
      HeldHas(maps, cpus, cpus, ino);
      assert Anchored(maps[ino % cpus], RangeHigh(cpus));
      BlocksAt(maps[ino % cpus].runs, 0, ino / cpus);
    }
  }

  lemma GapBefore(rs: seq<Range>)
    requires Coalesced(rs) && Within(rs, 0, MAX_INODE - 2)
    ensures |rs| > 1 ==> rs[0].high + 1 < rs[1].low
    ensures rs != [] ==> rs[0].high <= MAX_INODE - 2
    ensures |rs| > 1 ==> rs[0].high + 2 <= MAX_INODE - 2
  {}

  /** After the node is cut short, the second piece goes right behind it. */
  lemma ShrunkSlot(rs: seq<Range>, i: nat, n: nat, shape: Shape)
    requires Coalesced(rs) && i < |rs| && rs[i].low < n < rs[i].high && Over(shape, 0, |rs|)
    ensures var shrunk := rs[i := Range(rs[i].low, n - 1)];
            Coalesced(shrunk) && Slot(shrunk, n + 1, i + 1) && !Probe(shrunk, shape, 0, |shrunk|, n + 1, None).0
  {
    var shrunk := rs[i := Range(rs[i].low, n - 1)];
    assert forall j :: 0 <= j < i ==> rs[j].high + 1 < rs[i].low;
    assert forall j :: i < j < |rs| ==> rs[i].high + 1 < rs[j].low;
    var p := ProbeExact(shrunk, shape, 0, |rs|, n + 1, None);
  }
}
