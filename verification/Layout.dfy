/** Where the reserved regions of each free list lie (balloc.c), and the addresses of a block's checksums and
    parity stripe (nova.h). */
module Layout {
  import opened Options

  const BLOCK := 4096
  const STRIPE := 512
  const CSUM_LEN := 4
  const HEAD_RESERVED := 64
  const TAIL_RESERVED := 2

  datatype FreeList = FreeList(start: nat, end: nat, csumStart: nat, replicaStart: nat, numCsum: nat, parityStart: nat,
                               numParity: nat)

  /** Division rounded up, as the code spells it. */
  function Ceil(a: nat, b: nat): nat
    requires b > 0
  {
    a / b + if a % b != 0 then 1 else 0
  }

  lemma CeilCovers(a: nat, b: nat)
    requires b > 0
    ensures a <= Ceil(a, b) * b
  {
    var q := a / b;
    assert a == q * b + a % b;
    assert (q + 1) * b == q * b + b;
  }

  // ----- sizes -----

  function Blocks(initsize: nat): nat {
    initsize / BLOCK
  }

  function PerList(initsize: nat, cpus: nat): nat
    requires cpus > 0
  {
    Blocks(initsize) / cpus
  }

  /** nova_data_csum_init_free_list */
  function CsumBlocks(initsize: nat, cpus: nat): nat
    requires cpus > 0
  {
    Ceil((initsize / STRIPE * CSUM_LEN) / BLOCK, cpus)
  }

  /** nova_data_parity_init_free_list */
  function ParityBlocks(initsize: nat, cpus: nat): nat
    requires cpus > 0
  {
    Ceil(Ceil(Blocks(initsize), BLOCK / STRIPE + 1), cpus)
  }

  /** Large enough that no list's reserved regions take all of its blocks. */
  predicate Enough(initsize: nat, cpus: nat) {
    && cpus > 0
    && HEAD_RESERVED + TAIL_RESERVED + 2 * CsumBlocks(initsize, cpus) + ParityBlocks(initsize, cpus)
       < PerList(initsize, cpus)
  }

  /** nova_init_free_list */
  function Init(initsize: nat, cpus: nat, index: nat): (list: FreeList)
    requires Enough(initsize, cpus) && index < cpus
    ensures list.start <= list.end
  {
    var (per, csum, parity) := (PerList(initsize, cpus), CsumBlocks(initsize, cpus), ParityBlocks(initsize, cpus));
    var first := per * index + if index == 0 then HEAD_RESERVED else 0;
    var last := per * index + per - 1 - if index == cpus - 1 then TAIL_RESERVED else 0;
    FreeList(first + csum + parity, last - csum, first, last + 1 - csum, csum, first + csum, parity)
  }

  lemma PerPositive(initsize: nat, cpus: nat)
    requires Enough(initsize, cpus)
    ensures PerList(initsize, cpus) > 0
  {}

  /** The regions of a list, in order: checksums, parity, allocatable blocks, replica checksums. */
  lemma RegionsInOrder(initsize: nat, cpus: nat, index: nat)
    requires Enough(initsize, cpus) && index < cpus
    ensures var (list, per) := (Init(initsize, cpus, index), PerList(initsize, cpus));
            && per * index + (if index == 0 then HEAD_RESERVED else 0) == list.csumStart
            && list.csumStart + list.numCsum == list.parityStart
            && list.parityStart + list.numParity == list.start <= list.end
            && list.end + 1 == list.replicaStart
            && list.replicaStart + list.numCsum + (if index == cpus - 1 then TAIL_RESERVED else 0) == per * (index + 1)
  {}

  lemma Stretches(per: nat, i: nat, j: nat)
    requires i < j
    ensures per * (i + 1) <= per * j
  {
    assert per * j == per * (i + 1) + per * (j - i - 1);
  }

  /** A stretch of blocks that belongs to one region of one list. */
  datatype Region = Csum(index: nat) | ParityStripes(index: nat) | Data(index: nat) | Replica(index: nat) | Head | Tail

  predicate Has(initsize: nat, cpus: nat, region: Region, b: nat)
    requires Enough(initsize, cpus)
  {
    match region
    case Head => b < HEAD_RESERVED
    case Tail => PerList(initsize, cpus) * cpus - TAIL_RESERVED <= b < PerList(initsize, cpus) * cpus
    case Csum(i) => i < cpus && var l := Init(initsize, cpus, i); l.csumStart <= b < l.csumStart + l.numCsum
    case ParityStripes(i) =>
      i < cpus && var l := Init(initsize, cpus, i); l.parityStart <= b < l.parityStart + l.numParity
    case Data(i) => i < cpus && var l := Init(initsize, cpus, i); l.start <= b <= l.end
    case Replica(i) => i < cpus && var l := Init(initsize, cpus, i); l.replicaStart <= b < l.replicaStart + l.numCsum
  }

  function ListOf(region: Region, cpus: nat): nat
    requires cpus > 0
  {
    match region
    case Head => 0
    case Tail => cpus - 1
    case Csum(i) => i
    case ParityStripes(i) => i
    case Data(i) => i
    case Replica(i) => i
  }

  /** Every region lies in the stretch of its own list. */
  lemma InStretch(initsize: nat, cpus: nat, region: Region, b: nat)
    requires Enough(initsize, cpus) && Has(initsize, cpus, region, b)
    ensures var (per, i) := (PerList(initsize, cpus), ListOf(region, cpus)); i < cpus && per * i <= b < per * (i + 1)
  {
    hide CsumBlocks, ParityBlocks, PerList;
    var i := ListOf(region, cpus);
    RegionsInOrder(initsize, cpus, i);
    if region.Tail? {
      RegionsInOrder(initsize, cpus, cpus - 1);
    }
  }

  /** The region a block of list i's stretch belongs to. */
  function Where(initsize: nat, cpus: nat, i: nat, b: nat): Region
    requires Enough(initsize, cpus) && i < cpus
  {
    var l := Init(initsize, cpus, i);
    if b < l.csumStart then Head
    else if b < l.parityStart then Csum(i)
    else if b < l.start then ParityStripes(i)
    else if b <= l.end then Data(i)
    else if b < l.replicaStart + l.numCsum then Replica(i)
    else Tail
  }

  lemma WhereIs(initsize: nat, cpus: nat, region: Region, b: nat)
    requires Enough(initsize, cpus) && Has(initsize, cpus, region, b) && ListOf(region, cpus) < cpus
    ensures region == Where(initsize, cpus, ListOf(region, cpus), b)
  {
    hide CsumBlocks, ParityBlocks, PerList, Init, Enough;
    RegionsInOrder(initsize, cpus, ListOf(region, cpus));
  }

  lemma WhereHas(initsize: nat, cpus: nat, i: nat, b: nat)
    requires Enough(initsize, cpus) && i < cpus && PerList(initsize, cpus) * i <= b < PerList(initsize, cpus) * (i + 1)
    ensures Has(initsize, cpus, Where(initsize, cpus, i, b), b)
  {
    hide CsumBlocks, ParityBlocks, PerList, Init, Enough;
    RegionsInOrder(initsize, cpus, i);
  }

  lemma HasWhere(initsize: nat, cpus: nat, i: nat, region: Region, b: nat)
    requires Enough(initsize, cpus) && i < cpus && PerList(initsize, cpus) * i <= b < PerList(initsize, cpus) * (i + 1)
    ensures Has(initsize, cpus, region, b) <==> region == Where(initsize, cpus, i, b)
  {
    hide CsumBlocks, ParityBlocks, PerList, Init, Has, Where, Enough;
    WhereHas(initsize, cpus, i, b);
    if Has(initsize, cpus, region, b) {
      InStretch(initsize, cpus, region, b);
      OneStretch(PerList(initsize, cpus), i, ListOf(region, cpus), b);
      WhereIs(initsize, cpus, region, b);
    }
  }

  /** Every block of the lists' stretches belongs to exactly one region of one list. */
  lemma RegionsPartition(initsize: nat, cpus: nat, b: nat)
    requires Enough(initsize, cpus) && b < PerList(initsize, cpus) * cpus
    ensures exists r :: Has(initsize, cpus, r, b) && forall z :: Has(initsize, cpus, z, b) ==> z == r
  {
    hide CsumBlocks, ParityBlocks, PerList, Init, Has, Where;
    var per := PerList(initsize, cpus);
    var i := b / per;
    DividedInto(per, cpus, b);
    var r := Where(initsize, cpus, i, b);
    forall z
      ensures Has(initsize, cpus, z, b) <==> z == r
    {
      HasWhere(initsize, cpus, i, z, b);
    }
    assert Has(initsize, cpus, r, b);
  }

  lemma DividedInto(per: nat, cpus: nat, b: nat)
    requires per > 0 && b < per * cpus
    ensures b / per < cpus && per * (b / per) <= b < per * (b / per + 1)
  {
    var q := b / per;
    assert b == per * q + b % per;
    assert per * (q + 1) == per * q + per;
    if q >= cpus {
      Grow(cpus, q, per);
    }
  }

  lemma OneStretch(per: nat, i: nat, j: nat, b: nat)
    requires per * i <= b < per * (i + 1) && per * j <= b < per * (j + 1)
    ensures i == j
  {
    if i < j {
      Stretches(per, i, j);
    } else if j < i {
      Stretches(per, j, i);
    }
  }

  lemma IndexOf(per: nat, i: nat, b: nat)
    requires per > 0 && per * i <= b < per * (i + 1)
    ensures b / per == i
  {
    var q := b / per;
    assert b == per * q + b % per;
    OneStretch(per, i, q, b);
  }

  /** The share of one CPU, rounded up. */
  method AddShare(start: nat, blocks: nat, cpus: nat) returns (out: nat)
    requires cpus > 0
    ensures out == start + Ceil(blocks, cpus)
  {
    out := start + blocks / cpus;
    if blocks % cpus != 0 {
      out := out + 1;
    }
  }

  /** nova_data_csum_init_free_list */
  method InitCsum(initsize: nat, cpus: nat, list: FreeList) returns (out: FreeList)
    requires cpus > 0 && CsumBlocks(initsize, cpus) <= list.end
    ensures var n := CsumBlocks(initsize, cpus);
            out == list.(csumStart := list.start, start := list.start + n, numCsum := n,
                         replicaStart := list.end + 1 - n, end := list.end - n)
  {
    hide Ceil;
    var blocks := initsize / STRIPE * CSUM_LEN / BLOCK;
    var start := AddShare(list.start, blocks, cpus);
    out := list.(csumStart := list.start, start := start);
    out := out.(numCsum := out.start - out.csumStart);
    out := out.(replicaStart := out.end + 1 - out.numCsum, end := out.end - out.numCsum);
  }

  /** nova_data_parity_init_free_list */
  method InitParity(initsize: nat, cpus: nat, list: FreeList) returns (out: FreeList)
    requires cpus > 0
    ensures var n := ParityBlocks(initsize, cpus);
            out == list.(parityStart := list.start, start := list.start + n, numParity := n)
  {
    hide Ceil;
    var blocks := AddShare(0, initsize / BLOCK, BLOCK / STRIPE + 1);
    var start := AddShare(list.start, blocks, cpus);
    out := list.(parityStart := list.start, start := start);
    out := out.(numParity := out.start - out.parityStart);
  }

  /** nova_init_free_list: the ends of the allocatable area move inwards past one region after the other. */
  method InitFreeList(initsize: nat, cpus: nat, index: nat) returns (list: FreeList)
    requires Enough(initsize, cpus) && index < cpus
    ensures list == Init(initsize, cpus, index)
  {
    hide CsumBlocks, ParityBlocks, PerList;
    var per := PerList(initsize, cpus);
    list := FreeList(per * index, per * index + per - 1, 0, 0, 0, 0, 0);
    if index == 0 {
      list := list.(start := list.start + HEAD_RESERVED);
    }
    if index == cpus - 1 {
      list := list.(end := list.end - TAIL_RESERVED);
    }
    list := InitCsum(initsize, cpus, list);
    list := InitParity(initsize, cpus, list);
  }

  // ----- addresses -----

  lemma ListBelow(strpNr: nat, per: nat)
    requires per > 0
    ensures strpNr / (BLOCK / STRIPE) / per * per * (BLOCK / STRIPE) <= strpNr
  {
    var b := strpNr / (BLOCK / STRIPE);
    assert b == per * (b / per) + b % per;
  }

  /** nova_get_data_csum_addr */
  function CsumAddr(initsize: nat, cpus: nat, strpNr: nat, replica: bool): Option<nat>
    requires Enough(initsize, cpus)
  {
    hide CsumBlocks, ParityBlocks, PerList, Init;
    var per := PerList(initsize, cpus);
    var index := strpNr / (BLOCK / STRIPE) / per;
    if index >= cpus then None
    else
      var list := Init(initsize, cpus, index);
      ListBelow(strpNr, per);
      var nr := strpNr - index * per * (BLOCK / STRIPE);
      if CSUM_LEN * nr / BLOCK >= list.numCsum then None
      else Some((if replica then list.replicaStart else list.csumStart) * BLOCK + CSUM_LEN * nr)
  }

  /** nova_get_parity_addr */
  function ParityAddr(initsize: nat, cpus: nat, blocknr: nat): Option<nat>
    requires Enough(initsize, cpus)
  {
    hide CsumBlocks, ParityBlocks, PerList, Init;
    var index := blocknr / PerList(initsize, cpus);
    if index >= cpus then None
    else
      var list := Init(initsize, cpus, index);
      if blocknr < list.start || (blocknr - list.start) / (BLOCK / STRIPE) >= list.numParity then None
      else Some(list.parityStart * BLOCK + (blocknr - list.start) * STRIPE)
  }

  /** The parity region of a list has room for a stripe of each of its blocks: one parity block for every
      eight others is what a ninth of all blocks amounts to. */
  lemma ParityRoom(initsize: nat, cpus: nat)
    requires cpus > 0
    ensures PerList(initsize, cpus) <= 9 * ParityBlocks(initsize, cpus)
  {
    var (total, parity) := (Blocks(initsize), ParityBlocks(initsize, cpus));
    CeilCovers(total, 9);
    CeilCovers(Ceil(total, 9), cpus);
    assert total <= parity * cpus * 9;
    ShareBound(total, cpus, 9 * parity);
  }

  lemma ShareBound(total: nat, cpus: nat, x: nat)
    requires cpus > 0 && total <= x * cpus
    ensures total / cpus <= x
  {
    var q := total / cpus;
    assert total == q * cpus + total % cpus;
    assert (x + 1) * cpus == x * cpus + cpus;
    if q > x {
      Grow(x + 1, q, cpus);
    }
  }

  lemma Grow(a: nat, b: nat, c: nat)
    requires a <= b
    ensures a * c <= b * c
  {}

  /** Every allocatable block has a parity stripe of its own inside its list's parity region. */
  lemma ParityStripeOwn(initsize: nat, cpus: nat, i: nat, b: nat)
    requires Enough(initsize, cpus) && i < cpus && Has(initsize, cpus, Data(i), b)
    ensures var (list, addr) := (Init(initsize, cpus, i), ParityAddr(initsize, cpus, b));
            && addr == Some(list.parityStart * BLOCK + (b - list.start) * STRIPE)
            && list.parityStart * BLOCK <= addr.value
            && addr.value + STRIPE <= (list.parityStart + list.numParity) * BLOCK
  {
    hide CsumBlocks, ParityBlocks, PerList;
    var (list, per) := (Init(initsize, cpus, i), PerList(initsize, cpus));
    InStretch(initsize, cpus, Data(i), b);
    IndexOf(per, i, b);
    RegionsInOrder(initsize, cpus, i);
    ParityRoom(initsize, cpus);
    var d := b - list.start;
    assert per * (i + 1) == per * i + per;
    assert d + 1 <= 8 * list.numParity;
  }

  /** Different blocks have different parity stripes. */
  lemma ParityStripesApart(initsize: nat, cpus: nat, i: nat, b: nat, j: nat, c: nat)
    requires Enough(initsize, cpus) && i < cpus && j < cpus && Has(initsize, cpus, Data(i), b)
    requires Has(initsize, cpus, Data(j), c) && b != c
    ensures var (x, y) := (ParityAddr(initsize, cpus, b), ParityAddr(initsize, cpus, c));
            x.Some? && y.Some? && (x.value + STRIPE <= y.value || y.value + STRIPE <= x.value)
  {
    hide CsumBlocks, ParityBlocks, PerList, ParityAddr;
    ParityStripeOwn(initsize, cpus, i, b);
    ParityStripeOwn(initsize, cpus, j, c);
    if i != j {
      ListsApart(initsize, cpus, i, j);
    }
  }

  /** The parity regions, and the checksum regions, of two lists do not meet. */
  lemma ListsApart(initsize: nat, cpus: nat, i: nat, j: nat)
    requires Enough(initsize, cpus) && i < cpus && j < cpus && i != j
    ensures var (a, z) := (Init(initsize, cpus, i), Init(initsize, cpus, j));
            a.replicaStart + a.numCsum <= z.csumStart || z.replicaStart + z.numCsum <= a.csumStart
  {
    hide CsumBlocks, ParityBlocks, PerList;
    var per := PerList(initsize, cpus);
    RegionsInOrder(initsize, cpus, i);
    RegionsInOrder(initsize, cpus, j);
    if i < j {
      Stretches(per, i, j);
    } else {
      Stretches(per, j, i);
    }
  }

  /** The checksum region of a list reaches as far as its stretch, if the device holds whole multiples of
      128 blocks (512 KiB). */
  lemma CsumRoom(initsize: nat, cpus: nat)
    requires cpus > 0 && initsize % (128 * BLOCK) == 0
    ensures PerList(initsize, cpus) <= 128 * CsumBlocks(initsize, cpus)
  {
    var q := initsize / (128 * BLOCK);
    assert initsize == q * 524288;
    assert initsize / STRIPE * CSUM_LEN / BLOCK == q && Blocks(initsize) == 128 * q;
    CeilCovers(q, cpus);
    assert 128 * q <= 128 * CsumBlocks(initsize, cpus) * cpus;
    ShareBound(128 * q, cpus, 128 * CsumBlocks(initsize, cpus));
  }

  /** Where the range test of a stripe's checksum passes. */
  lemma CsumPassesIff(initsize: nat, cpus: nat, i: nat, b: nat, s: nat, replica: bool)
    requires Enough(initsize, cpus) && i < cpus && Has(initsize, cpus, Data(i), b) && s < BLOCK / STRIPE
    ensures var (list, per, addr) := (Init(initsize, cpus, i), PerList(initsize, cpus),
                                      CsumAddr(initsize, cpus, b * 8 + s, replica));
            && b >= per * i
            && (addr.Some? <==> (b - per * i) / 128 < list.numCsum)
            && (addr.Some? ==>
                  var first := if replica then list.replicaStart else list.csumStart;
                  addr.value == first * BLOCK + CSUM_LEN * ((b - per * i) * 8 + s))
  {
    hide CsumBlocks, ParityBlocks, PerList, Init;
    var per := PerList(initsize, cpus);
    InStretch(initsize, cpus, Data(i), b);
    IndexOf(per, i, b);
    assert (b * 8 + s) / 8 == b;
    var r := b - per * i;
    assert i * per * 8 == per * i * 8 && b * 8 + s - i * per * 8 == r * 8 + s;
    assert CSUM_LEN * (r * 8 + s) / BLOCK == r / 128;
  }

  /** The block lies within reach of its list's checksum regions. */
  ghost predicate InReach(initsize: nat, cpus: nat, i: nat, b: nat) {
    && Enough(initsize, cpus) && i < cpus && Has(initsize, cpus, Data(i), b)
    && b >= PerList(initsize, cpus) * i && (b - PerList(initsize, cpus) * i) / 128 < Init(initsize, cpus, i).numCsum
  }

  /** On such a device every allocatable block is. */
  lemma AllInReach(initsize: nat, cpus: nat, i: nat, b: nat)
    requires Enough(initsize, cpus) && initsize % (128 * BLOCK) == 0 && i < cpus && Has(initsize, cpus, Data(i), b)
    ensures InReach(initsize, cpus, i, b)
  {
    hide CsumBlocks, ParityBlocks, PerList;
    var (list, per) := (Init(initsize, cpus, i), PerList(initsize, cpus));
    InStretch(initsize, cpus, Data(i), b);
    CsumRoom(initsize, cpus);
    var r := b - per * i;
    assert per * (i + 1) == per * i + per;
    assert r < 128 * list.numCsum;
    SlotInside(r, 0, list.numCsum);
  }

  /** Every stripe of a block in reach has both its checksum slots, inside its list's two checksum regions. */
  lemma CsumSlotsOwn(initsize: nat, cpus: nat, i: nat, b: nat, s: nat, replica: bool)
    requires InReach(initsize, cpus, i, b) && s < BLOCK / STRIPE
    ensures var (list, addr) := (Init(initsize, cpus, i), CsumAddr(initsize, cpus, b * 8 + s, replica));
            var base := if replica then list.replicaStart else list.csumStart;
            addr.Some? && base * BLOCK <= addr.value && addr.value + CSUM_LEN <= (base + list.numCsum) * BLOCK
  {
    hide CsumBlocks, ParityBlocks, PerList, CsumAddr, Init, Has, Enough;
    var (list, per) := (Init(initsize, cpus, i), PerList(initsize, cpus));
    CsumPassesIff(initsize, cpus, i, b, s, replica);
    var r := b - per * i;
    assert r < 128 * list.numCsum;
    SlotInside(r, s, list.numCsum);
    var base := if replica then list.replicaStart else list.csumStart;
    assert (base + list.numCsum) * BLOCK == base * BLOCK + list.numCsum * BLOCK;
  }

  lemma SlotInside(r: nat, s: nat, n: nat)
    requires r < 128 * n && s < 8
    ensures r / 128 < n && CSUM_LEN * (r * 8 + s) + CSUM_LEN <= n * BLOCK
  {}

  /** No two stripes share a checksum slot, nor do the two copies of one stripe's. */
  lemma CsumSlotsApart(initsize: nat, cpus: nat, i: nat, b: nat, s: nat, ra: bool, j: nat, c: nat, t: nat, rz: bool)
    requires InReach(initsize, cpus, i, b) && InReach(initsize, cpus, j, c) && s < 8 && t < 8
    requires (b, s, ra) != (c, t, rz)
    ensures var (x, y) := (CsumAddr(initsize, cpus, b * 8 + s, ra), CsumAddr(initsize, cpus, c * 8 + t, rz));
            x.Some? && y.Some? && (x.value + CSUM_LEN <= y.value || y.value + CSUM_LEN <= x.value)
  {
    hide CsumBlocks, ParityBlocks, PerList, CsumAddr, Init, Enough, Has;
    CsumSlotsOwn(initsize, cpus, i, b, s, ra);
    CsumSlotsOwn(initsize, cpus, j, c, t, rz);
    if i == j && ra == rz {
      CsumPassesIff(initsize, cpus, i, b, s, ra);
      CsumPassesIff(initsize, cpus, j, c, t, rz);
      var from := PerList(initsize, cpus) * i;
      SlotOrder(b - from, s, c - from, t);
    } else {
      RowsOrder(initsize, cpus, i, ra, j, rz);
    }
  }

  lemma SlotOrder(r: nat, s: nat, q: nat, t: nat)
    requires s < 8 && t < 8 && (r, s) != (q, t)
    ensures var (x, y) := (CSUM_LEN * (r * 8 + s), CSUM_LEN * (q * 8 + t)); x + CSUM_LEN <= y || y + CSUM_LEN <= x
  {}

  /** The checksum regions of two lists, and the two of one list, follow each other. */
  lemma RowsOrder(initsize: nat, cpus: nat, i: nat, ra: bool, j: nat, rz: bool)
    requires Enough(initsize, cpus) && i < cpus && j < cpus && (i, ra) != (j, rz)
    ensures var (a, z) := (Init(initsize, cpus, i), Init(initsize, cpus, j));
            var (x, y) := (if ra then a.replicaStart else a.csumStart, if rz then z.replicaStart else z.csumStart);
            x + a.numCsum <= y || y + z.numCsum <= x
  {
    hide CsumBlocks, ParityBlocks, PerList, Init, Enough;
    RegionsInOrder(initsize, cpus, i);
    if i != j {
      RegionsInOrder(initsize, cpus, j);
      ListsApart(initsize, cpus, i, j);
    }
  }

  /** On a device of another size an allocatable block may have no checksum slot: 1407 blocks on one CPU. */
  lemma OddDeviceFails()
    ensures Enough(1407 * BLOCK, 1) && Has(1407 * BLOCK, 1, Data(0), 1394)
    ensures CsumAddr(1407 * BLOCK, 1, 1394 * 8, false) == None
  {
    assert CsumBlocks(1407 * BLOCK, 1) == 10 && ParityBlocks(1407 * BLOCK, 1) == 157
           && PerList(1407 * BLOCK, 1) == 1407;
    var list := Init(1407 * BLOCK, 1, 0);
    assert list.end == 1394;
    CsumPassesIff(1407 * BLOCK, 1, 0, 1394, 0, false);
  }
}
