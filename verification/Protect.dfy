/** Keeping checksums and parity up to date (checksum.c, parity.c): every update of a block writes its own slots in
    the reserved regions, and no other block's. The checksum is a fold of an arbitrary byte step. */
module Protect {
  import opened Options
  import L = Layout
  import opened Parity

  const INIT_CSUM := 1
  const BLOCK := 4096
  const SLOT := 4

  type Step = (nat, bv8) -> nat

  function Fold(step: Step, acc: nat, s: seq<bv8>): nat {
    if s == [] then acc else step(Fold(step, acc, s[..|s| - 1]), s[|s| - 1])
  }

  /** nova_crc32c of a stripe. */
  function Crc(step: Step, s: Stripe): nat {
    Fold(step, INIT_CSUM, s)
  }

  function Crcs(step: Step, stripes: seq<Stripe>): (c: seq<nat>)
    ensures |c| == |stripes| && forall k :: 0 <= k < |c| ==> c[k] == Crc(step, stripes[k])
  {
    seq(|stripes|, k requires 0 <= k < |stripes| => Crc(step, stripes[k]))
  }

  lemma {:induction false} FoldConcat(step: Step, acc: nat, a: seq<bv8>, b: seq<bv8>)
    ensures Fold(step, acc, a + b) == Fold(step, Fold(step, acc, a), b)
  {
    if b == [] {
      assert a + b == a;
    } else {
      assert (a + b)[..|a + b| - 1] == a + b[..|b| - 1];
      FoldConcat(step, acc, a, b[..|b| - 1]);
    }
  }

  // ----- the pass unrolled by eight -----

  /** The loop over quad words of nova_update_block_csum_parity computes what the plain loops over bytes do: all
      eight checksums and the parity at once. */
  method UnrolledPass(step: Step, block: seq<Stripe>) returns (acc: seq<nat>, parity: Stripe)
    requires Shaped(block)
    ensures acc == Crcs(step, block) && parity == ParityOf(block)
  {
    hide Xor, Fold;
    acc := seq(STRIPES, _ => INIT_CSUM);
    parity := [];
    FoldNone(step);
    for i := 0 to STRIPE_SIZE / 8
      invariant |acc| == STRIPES && forall k :: 0 <= k < STRIPES ==> acc[k] == Fold(step, INIT_CSUM, block[k][..8 * i])
      invariant |parity| == 8 * i && forall j :: 0 <= j < 8 * i ==> parity[j] == Xor(block, j, STRIPES)
    {
      ghost var was := acc;
      for k := 0 to STRIPES
        invariant |acc| == STRIPES
        invariant forall j :: 0 <= j < STRIPES ==>
                    acc[j] == if j < k then Fold(step, INIT_CSUM, block[j][..8 * i + 8]) else was[j]
      {
        QuadWord(step, block[k], 8 * i);
        acc := acc[k := Fold(step, acc[k], block[k][8 * i..8 * i + 8])];
      }
      parity := parity + seq(8, j requires 0 <= j < 8 => Xor(block, 8 * i + j, STRIPES));
    }
    forall k | 0 <= k < STRIPES
      ensures acc[k] == Crc(step, block[k])
    {
      assert block[k][..STRIPE_SIZE] == block[k];
    }
  }

  lemma FoldNone(step: Step)
    ensures forall s: Stripe :: Fold(step, INIT_CSUM, s[..0]) == INIT_CSUM
  {}

  lemma QuadWord(step: Step, s: Stripe, at: nat)
    requires at + 8 <= |s|
    ensures Fold(step, Fold(step, INIT_CSUM, s[..at]), s[at..at + 8]) == Fold(step, INIT_CSUM, s[..at + 8])
  {
    FoldConcat(step, INIT_CSUM, s[..at], s[at..at + 8]);
    assert s[..at + 8] == s[..at] + s[at..at + 8];
  }

  // ----- checksum slots -----

  function Slot(slots: map<nat, nat>, a: nat): nat {
    if a in slots then slots[a] else 0
  }

  /** Whether a is one of n slots from p on. */
  predicate Covers(p: nat, n: nat, a: nat) {
    p <= a < p + SLOT * n && (a - p) % SLOT == 0
  }

  /** The slot at a after the values were copied to both p and q. */
  function Value(was: map<nat, nat>, p: nat, q: nat, vals: seq<nat>, a: nat): nat {
    if Covers(p, |vals|, a) then vals[(a - p) / SLOT]
    else if Covers(q, |vals|, a) then vals[(a - q) / SLOT]
    else Slot(was, a)
  }

  ghost predicate Copied(slots: map<nat, nat>, was: map<nat, nat>, p: nat, q: nat, vals: seq<nat>) {
    forall a: nat :: Slot(slots, a) == Value(was, p, q, vals, a)
  }

  predicate Apart(p: nat, q: nat, n: nat) {
    p + SLOT * n <= q || q + SLOT * n <= p
  }

  /** One more value at the end of both copies. */
  lemma CopiedMore(slots: map<nat, nat>, was: map<nat, nat>, p: nat, q: nat, vals: seq<nat>, v: nat)
    requires Copied(slots, was, p, q, vals) && Apart(p, q, |vals| + 1)
    ensures var n := SLOT * |vals|; Copied(slots[p + n := v][q + n := v], was, p, q, vals + [v])
  {
    var n := SLOT * |vals|;
    var now := slots[p + n := v][q + n := v];
    forall a: nat
      ensures Slot(now, a) == Value(was, p, q, vals + [v], a)
    {
      assert Slot(slots, a) == Value(was, p, q, vals, a);
      LastCovered(p, |vals|, a);
      LastCovered(q, |vals|, a);
    }
  }

  lemma LastCovered(p: nat, n: nat, a: nat)
    ensures Covers(p, n + 1, a) <==> Covers(p, n, a) || a == p + SLOT * n
    ensures Covers(p, n, a) ==> (a - p) / SLOT < n && a == p + SLOT * ((a - p) / SLOT)
  {}

  lemma CopiedNone(slots: map<nat, nat>, p: nat, q: nat)
    ensures Copied(slots, slots, p, q, [])
  {}

  lemma CopiedBoth(slots: map<nat, nat>, once: map<nat, nat>, was: map<nat, nat>, p: nat, q: nat, vals: seq<nat>)
    requires Apart(p, q, |vals|) && Copied(once, was, p, p, vals) && Copied(slots, once, q, q, vals)
    ensures Copied(slots, was, p, q, vals)
  {
    forall a: nat
      ensures Slot(slots, a) == Value(was, p, q, vals, a)
    {
      assert Slot(once, a) == Value(was, p, p, vals, a);
      assert Slot(slots, a) == Value(once, q, q, vals, a);
    }
  }

  // ----- the block's own slots -----

  /** The first slot of a block in one of the two regions. */
  ghost function Base(initsize: nat, cpus: nat, i: nat, b: nat, replica: bool): nat
    requires L.InReach(initsize, cpus, i, b)
  {
    L.CsumSlotsOwn(initsize, cpus, i, b, 0, replica);
    L.CsumAddr(initsize, cpus, b * 8, replica).value
  }

  /** The slots of a block follow each other. */
  lemma SlotsInRow(initsize: nat, cpus: nat, i: nat, b: nat, s: nat, replica: bool)
    requires L.InReach(initsize, cpus, i, b) && s < 8
    ensures L.CsumAddr(initsize, cpus, b * 8 + s, replica) == Some(Base(initsize, cpus, i, b, replica) + SLOT * s)
  {
    hide L.CsumAddr, L.Init, L.Has, L.PerList;
    L.CsumSlotsOwn(initsize, cpus, i, b, s, replica);
    L.CsumSlotsOwn(initsize, cpus, i, b, 0, replica);
    L.CsumPassesIff(initsize, cpus, i, b, s, replica);
    L.CsumPassesIff(initsize, cpus, i, b, 0, replica);
  }

  /** The rows of two blocks, and the two rows of one block, do not meet. */
  lemma RowsApart(initsize: nat, cpus: nat, i: nat, b: nat, ra: bool, j: nat, c: nat, rz: bool, a: nat)
    requires L.InReach(initsize, cpus, i, b) && L.InReach(initsize, cpus, j, c) && (b, ra) != (c, rz)
    requires Covers(Base(initsize, cpus, i, b, ra), 8, a)
    ensures !Covers(Base(initsize, cpus, j, c, rz), 8, a)
  {
    hide L.CsumAddr, L.Has, L.Enough, L.Init, Base;
    var (x, y) := (Base(initsize, cpus, i, b, ra), Base(initsize, cpus, j, c, rz));
    if Covers(y, 8, a) {
      var (s, t) := ((a - x) / SLOT, (a - y) / SLOT);
      SlotsInRow(initsize, cpus, i, b, s, ra);
      SlotsInRow(initsize, cpus, j, c, t, rz);
      L.CsumSlotsApart(initsize, cpus, i, b, s, ra, j, c, t, rz);
    }
  }

  // ----- updates -----

  /** The first and the last stripe that bytes of a block lie in. */
  function First(offset: nat): nat {
    offset / STRIPE_SIZE
  }

  function Last(offset: nat, bytes: nat): nat
    requires bytes > 0
  {
    (offset + bytes - 1) / STRIPE_SIZE
  }

  /** Whether the update takes the unrolled path. */
  predicate Unrolled(offset: nat, bytes: nat)
    requires bytes > 0
  {
    (offset % STRIPE_SIZE + bytes - 1) / STRIPE_SIZE + 1 == STRIPES
  }

  lemma StripeRange(offset: nat, bytes: nat)
    requires bytes > 0 && offset + bytes <= BLOCK
    ensures First(offset) <= Last(offset, bytes) < STRIPES
    ensures (offset % STRIPE_SIZE + bytes - 1) / STRIPE_SIZE == Last(offset, bytes) - First(offset)
    ensures Unrolled(offset, bytes) <==> First(offset) == 0 && Last(offset, bytes) == STRIPES - 1
  {
    var (f, r) := (offset / STRIPE_SIZE, offset % STRIPE_SIZE);
    assert offset == STRIPE_SIZE * f + r;
    assert (STRIPE_SIZE * f + (r + bytes - 1)) / STRIPE_SIZE == f + (r + bytes - 1) / STRIPE_SIZE;
  }

  /** The stripes whose checksums an update writes. Without SSE 4.2 the unrolled path computes the parity only,
      and leaves the buffer pointer one stripe further on for the checksums; `beyond` lies behind the buffer. */
  function Summed(block: seq<Stripe>, beyond: Stripe, offset: nat, bytes: nat, sse: bool): (out: seq<Stripe>)
    requires Shaped(block) && bytes > 0 && offset + bytes <= BLOCK
    ensures |out| == Last(offset, bytes) - First(offset) + 1
  {
    StripeRange(offset, bytes);
    var (f, l) := (First(offset), Last(offset, bytes));
    if Unrolled(offset, bytes) && !sse then (block + [beyond])[f + 1..l + 2] else block[f..l + 1]
  }

  lemma SummedIs(block: seq<Stripe>, beyond: Stripe, offset: nat, bytes: nat, sse: bool)
    requires Shaped(block) && bytes > 0 && offset + bytes <= BLOCK
    ensures First(offset) <= Last(offset, bytes) < STRIPES
    ensures var (out, f, l, buffer) := (Summed(block, beyond, offset, bytes, sse), First(offset), Last(offset, bytes),
                                        block + [beyond]);
            if !Unrolled(offset, bytes) then out == buffer[f..l + 1]
            else f == 0 && out == if sse then block else buffer[1..][f..l + 1]
  {
    StripeRange(offset, bytes);
  }

  /** Both checksum copies and the parity of a block are those of its data. */
  ghost predicate Guarded(initsize: nat, cpus: nat, step: Step, slots: map<nat, nat>, parities: map<nat, Stripe>,
                          i: nat, b: nat, data: seq<Stripe>) {
    && L.InReach(initsize, cpus, i, b) && Shaped(data)
    && (forall s, replica :: 0 <= s < STRIPES ==>
        SlotIs(slots, Base(initsize, cpus, i, b, replica), s, Crc(step, data[s])))
    && var addr := L.ParityAddr(initsize, cpus, b);
       addr.Some? && addr.value in parities && parities[addr.value] == ParityOf(data)
  }

  predicate SlotIs(slots: map<nat, nat>, base: nat, s: nat, c: nat) {
    Slot(slots, base + SLOT * s) == c
  }

  /** An update of block b leaves the slots of every other block alone. */
  lemma OtherSlot(initsize: nat, cpus: nat, slots: map<nat, nat>, was: map<nat, nat>, i: nat, b: nat, s: nat,
                  vals: seq<nat>, j: nat, c: nat, t: nat, replica: bool)
    requires L.InReach(initsize, cpus, i, b) && L.InReach(initsize, cpus, j, c) && s + |vals| <= STRIPES && b != c
    requires t < STRIPES
    requires Copied(slots, was, Base(initsize, cpus, i, b, false) + SLOT * s,
                    Base(initsize, cpus, i, b, true) + SLOT * s, vals)
    ensures var a := Base(initsize, cpus, j, c, replica) + SLOT * t; Slot(slots, a) == Slot(was, a)
  {
    hide Base, L.InReach;
    var (x, y) := (Base(initsize, cpus, i, b, false), Base(initsize, cpus, i, b, true));
    var z := Base(initsize, cpus, j, c, replica);
    var a := z + SLOT * t;
    assert Slot(slots, a) == Value(was, x + SLOT * s, y + SLOT * s, vals, a);
    assert Covers(z, 8, a);
    RowsApart(initsize, cpus, j, c, replica, i, b, false, a);
    RowsApart(initsize, cpus, j, c, replica, i, b, true, a);
    InRow(x, s, |vals|, a);
    InRow(y, s, |vals|, a);
  }

  /** An update of block b leaves every other block as well guarded as it was. */
  lemma OthersGuarded(initsize: nat, cpus: nat, step: Step, slots: map<nat, nat>, was: map<nat, nat>,
                      parities: map<nat, Stripe>, i: nat, b: nat, s: nat, vals: seq<nat>, p: Stripe, j: nat, c: nat,
                      data: seq<Stripe>)
    requires L.InReach(initsize, cpus, i, b) && s + |vals| <= STRIPES && b != c
    requires Copied(slots, was, Base(initsize, cpus, i, b, false) + SLOT * s,
                    Base(initsize, cpus, i, b, true) + SLOT * s, vals)
    requires L.ParityAddr(initsize, cpus, b).Some? && Guarded(initsize, cpus, step, was, parities, j, c, data)
    ensures Guarded(initsize, cpus, step, slots, parities[L.ParityAddr(initsize, cpus, b).value := p], j, c, data)
    ensures Guarded(initsize, cpus, step, slots, parities, j, c, data)
  {
    hide Base, L.ParityAddr, L.InReach, ParityOf, Crc, Copied;
    forall t, replica | 0 <= t < STRIPES
      ensures SlotIs(slots, Base(initsize, cpus, j, c, replica), t, Crc(step, data[t]))
    {
      assert SlotIs(was, Base(initsize, cpus, j, c, replica), t, Crc(step, data[t]));
      OtherSlot(initsize, cpus, slots, was, i, b, s, vals, j, c, t, replica);
    }
    OtherParity(initsize, cpus, i, b, j, c);
  }

  lemma OtherParity(initsize: nat, cpus: nat, i: nat, b: nat, j: nat, c: nat)
    requires L.InReach(initsize, cpus, i, b) && L.InReach(initsize, cpus, j, c) && b != c
    ensures L.Enough(initsize, cpus) && L.ParityAddr(initsize, cpus, b) != L.ParityAddr(initsize, cpus, c)
  {
    hide L.ParityAddr, L.Has, L.Enough, L.Init;
    L.ParityStripesApart(initsize, cpus, i, b, j, c);
  }

  lemma InRow(x: nat, s: nat, n: nat, a: nat)
    requires s + n <= STRIPES
    ensures Covers(x + SLOT * s, n, a) ==> Covers(x, 8, a)
  {}

  /** A row of slots after an update of some of them. */
  lemma RowWritten(slots: map<nat, nat>, was: map<nat, nat>, x: nat, y: nat, f: nat, vals: seq<nat>, s: nat)
    requires f + |vals| <= STRIPES && s < STRIPES && Apart(x, y, STRIPES)
    requires Copied(slots, was, x + SLOT * f, y + SLOT * f, vals)
    ensures Slot(slots, x + SLOT * s) == if f <= s < f + |vals| then vals[s - f] else Slot(was, x + SLOT * s)
    ensures Slot(slots, y + SLOT * s) == if f <= s < f + |vals| then vals[s - f] else Slot(was, y + SLOT * s)
  {
    var (p, q) := (x + SLOT * f, y + SLOT * f);
    assert Slot(slots, x + SLOT * s) == Value(was, p, q, vals, x + SLOT * s);
    assert Slot(slots, y + SLOT * s) == Value(was, p, q, vals, y + SLOT * s);
  }

  lemma BasesApart(initsize: nat, cpus: nat, i: nat, b: nat)
    requires L.InReach(initsize, cpus, i, b)
    ensures Apart(Base(initsize, cpus, i, b, false), Base(initsize, cpus, i, b, true), 8)
  {
    hide L.CsumAddr, L.Has, L.Enough, L.Init;
    L.CsumSlotsOwn(initsize, cpus, i, b, 0, false);
    L.CsumSlotsOwn(initsize, cpus, i, b, 7, false);
    L.CsumSlotsOwn(initsize, cpus, i, b, 0, true);
    L.CsumSlotsOwn(initsize, cpus, i, b, 7, true);
    SlotsInRow(initsize, cpus, i, b, 7, false);
    SlotsInRow(initsize, cpus, i, b, 7, true);
    L.RegionsInOrder(initsize, cpus, i);
  }

  /** The checksums of the stripes outside f..l are those of the block already. */
  ghost predicate RestRight(initsize: nat, cpus: nat, step: Step, slots: map<nat, nat>, i: nat, b: nat,
                            block: seq<Stripe>, f: nat, l: nat)
    requires L.InReach(initsize, cpus, i, b) && Shaped(block)
  {
    forall s, replica :: 0 <= s < STRIPES && !(f <= s <= l) ==>
      SlotIs(slots, Base(initsize, cpus, i, b, replica), s, Crc(step, block[s]))
  }

  /** After an update of stripes f..l the block is guarded if and only if the checksums written are theirs and the rest
      were right before. */
  lemma UpdateGuards(initsize: nat, cpus: nat, step: Step, slots: map<nat, nat>, was: map<nat, nat>,
                     parities: map<nat, Stripe>, i: nat, b: nat, block: seq<Stripe>, f: nat, l: nat, vals: seq<nat>)
    requires L.InReach(initsize, cpus, i, b) && Shaped(block) && f <= l < STRIPES && |vals| == l - f + 1
    requires Copied(slots, was, Base(initsize, cpus, i, b, false) + SLOT * f,
                    Base(initsize, cpus, i, b, true) + SLOT * f, vals)
    requires var addr := L.ParityAddr(initsize, cpus, b);
             addr.Some? && addr.value in parities && parities[addr.value] == ParityOf(block)
    ensures Guarded(initsize, cpus, step, slots, parities, i, b, block) <==>
              vals == Crcs(step, block[f..l + 1]) && RestRight(initsize, cpus, step, was, i, b, block, f, l)
  {
    hide Base, L.ParityAddr, L.InReach, ParityOf, Crc, Copied, Apart;
    var (x, y, want) := (Base(initsize, cpus, i, b, false), Base(initsize, cpus, i, b, true),
                              Crcs(step, block[f..l + 1]));
    BasesApart(initsize, cpus, i, b);
    forall s, replica | 0 <= s < STRIPES
      ensures var z := Base(initsize, cpus, i, b, replica);
              SlotIs(slots, z, s, Crc(step, block[s])) <==>
                if f <= s <= l then vals[s - f] == want[s - f] else SlotIs(was, z, s, Crc(step, block[s]))
    {
      RowWritten(slots, was, x, y, f, vals, s);
      assert Base(initsize, cpus, i, b, replica) == if replica then y else x;
    }
    if Guarded(initsize, cpus, step, slots, parities, i, b, block) {
      forall k | 0 <= k < |vals|
        ensures vals[k] == want[k]
      {
        assert SlotIs(slots, Base(initsize, cpus, i, b, false), f + k, Crc(step, block[f + k]));
      }
    }
  }

  /** The checksums of an update are those of the block for every content if and only if the CPU has SSE 4.2 or
      the unrolled path is not taken. */
  lemma SummedRightIff(step: Step, offset: nat, bytes: nat, sse: bool, a: Stripe, z: Stripe)
    requires bytes > 0 && offset + bytes <= BLOCK && |a| == |z| == STRIPE_SIZE && Crc(step, a) != Crc(step, z)
    ensures (forall block, beyond :: Shaped(block) ==>
               Crcs(step, Summed(block, beyond, offset, bytes, sse)) ==
                 Crcs(step, block[First(offset)..Last(offset, bytes) + 1]))
            <==> sse || !Unrolled(offset, bytes)
  {
    hide Crc;
    StripeRange(offset, bytes);
    if !sse && Unrolled(offset, bytes) {
      var block := seq(STRIPES, _ => a);
      assert Shaped(block);
      var (wrote, own) := (Summed(block, z, offset, bytes, sse), block[0..STRIPES]);
      assert wrote[STRIPES - 1] == z && own[STRIPES - 1] == a;
      assert Crcs(step, wrote)[STRIPES - 1] != Crcs(step, own)[STRIPES - 1];
    }
  }

  /** A guarded block stays guarded when stripes f..l of it change and their checksums are written. */
  lemma RestStays(initsize: nat, cpus: nat, step: Step, slots: map<nat, nat>, parities: map<nat, Stripe>, i: nat,
                  b: nat, data: seq<Stripe>, block: seq<Stripe>, f: nat, l: nat)
    requires Guarded(initsize, cpus, step, slots, parities, i, b, data) && Shaped(block)
    requires forall s :: 0 <= s < STRIPES && !(f <= s <= l) ==> block[s] == data[s]
    ensures RestRight(initsize, cpus, step, slots, i, b, block, f, l)
  {
    hide Base, L.ParityAddr, L.InReach, ParityOf, Crc;
  }

  class Regions {
    const initsize: nat
    const cpus: nat
    const step: Step
    var slots: map<nat, nat>
    var parities: map<nat, Stripe>

    method Memcpy(p: nat, vals: seq<nat>)
      modifies this`slots
      ensures Copied(slots, old(slots), p, p, vals)
    {
      ghost var was := slots;
      for k := 0 to |vals|
        invariant Copied(slots, was, p, p, vals[..k])
      {
        ghost var before := slots;
        slots := slots[p + SLOT * k := vals[k]];
        forall a: nat
          ensures Slot(slots, a) == Value(was, p, p, vals[..k + 1], a)
        {
          assert Slot(before, a) == Value(was, p, p, vals[..k], a);
          LastCovered(p, k, a);
        }
      }
      assert vals[..|vals|] == vals;
    }

    /** nova_update_stripe_csum: both copies of each stripe's checksum, eight at a time while there are eight. */
    method UpdateStripeCsum(strpNr: nat, stripes: seq<Stripe>, ghost i: nat, ghost b: nat)
      requires L.InReach(initsize, cpus, i, b) && b * 8 <= strpNr && strpNr + |stripes| <= b * 8 + 8
      modifies this`slots
      ensures var s := SLOT * (strpNr - b * 8);
              Copied(slots, old(slots), Base(initsize, cpus, i, b, false) + s, Base(initsize, cpus, i, b, true) + s,
                     Crcs(step, stripes))
    {
      hide Base, L.CsumAddr, L.Has, L.Enough, Crc, Copied, L.Init;
      ghost var (was, s) := (slots, strpNr - b * 8);
      ghost var (p, q) := (Base(initsize, cpus, i, b, false) + SLOT * s, Base(initsize, cpus, i, b, true) + SLOT * s);
      BasesApart(initsize, cpus, i, b);
      CopiedNone(slots, p, q);
      var left: nat, nr: nat, at: nat := |stripes|, strpNr, 0;
      assert Crcs(step, stripes[..0]) == [];
      while left >= 8
        invariant nr == strpNr + at && left + at == |stripes| && (at == 0 ==> slots == was)
        invariant Copied(slots, was, p, q, Crcs(step, stripes[..at]))
      {
        var crc := Crcs(step, stripes[at..at + 8]);
        SlotsInRow(initsize, cpus, i, b, s, false);
        SlotsInRow(initsize, cpus, i, b, s, true);
        var addr0, addr1 := L.CsumAddr(initsize, cpus, nr, false), L.CsumAddr(initsize, cpus, nr, true);
        assert stripes[at..at + 8] == stripes == stripes[..at + 8];
        Memcpy(addr0.value, crc);
        ghost var once := slots;
        Memcpy(addr1.value, crc);
        CopiedBoth(slots, once, was, p, q, crc);
        nr, left, at := nr + 8, left - 8, at + 8;
      }
      while left > 0
        invariant nr == strpNr + at && left + at == |stripes|
        invariant Copied(slots, was, p, q, Crcs(step, stripes[..at]))
      {
        var csum := Crc(step, stripes[at]);
        SlotsInRow(initsize, cpus, i, b, s + at, false);
        SlotsInRow(initsize, cpus, i, b, s + at, true);
        var addr0, addr1 := L.CsumAddr(initsize, cpus, nr, false), L.CsumAddr(initsize, cpus, nr, true);
        CopiedMore(slots, was, p, q, Crcs(step, stripes[..at]), csum);
        slots := slots[addr0.value := csum];
        slots := slots[addr1.value := csum];
        assert Crcs(step, stripes[..at + 1]) == Crcs(step, stripes[..at]) + [csum];
        nr, left, at := nr + 1, left - 1, at + 1;
      }
      assert stripes[..at] == stripes;
    }

    /** nova_update_block_csum, on a buffer of stripes. */
    method UpdateBlockCsum(buffer: seq<Stripe>, blocknr: nat, offset: nat, bytes: nat, ghost i: nat)
      requires L.InReach(initsize, cpus, i, blocknr) && bytes > 0 && offset + bytes <= BLOCK
      requires Last(offset, bytes) < |buffer|
      modifies this`slots
      ensures First(offset) <= Last(offset, bytes)
      ensures var s := SLOT * First(offset);
              Copied(slots, old(slots), Base(initsize, cpus, i, blocknr, false) + s,
                     Base(initsize, cpus, i, blocknr, true) + s,
                     Crcs(step, buffer[First(offset)..Last(offset, bytes) + 1]))
    {
      hide Base, L.Has, L.Enough, Crc, Copied, L.InReach;
      var strpIndex := offset / STRIPE_SIZE;
      var strpOffset := offset - strpIndex * STRIPE_SIZE;
      var strps := (strpOffset + bytes - 1) / STRIPE_SIZE + 1;
      var strpNr := (blocknr * BLOCK + offset) / STRIPE_SIZE;
      StripeRange(offset, bytes);
      assert strpNr == blocknr * 8 + strpIndex;
      UpdateStripeCsum(strpNr, buffer[strpIndex..strpIndex + strps], i, blocknr);
    }

    /** nova_update_block_csum_parity. The parity is that of the whole block; the block ends up guarded if and
        only if the checksums written are those of the stripes the bytes lie in and the other stripes' were
        right before; every other block stays guarded. */
    method UpdateBlockCsumParity(block: seq<Stripe>, beyond: Stripe, blocknr: nat, offset: nat, bytes: nat, sse: bool,
                                 ghost i: nat)
      requires L.InReach(initsize, cpus, i, blocknr) && Shaped(block) && bytes > 0 && offset + bytes <= BLOCK
      modifies this
      ensures Copied(slots, old(slots), Base(initsize, cpus, i, blocknr, false) + SLOT * First(offset),
                     Base(initsize, cpus, i, blocknr, true) + SLOT * First(offset),
                     Crcs(step, Summed(block, beyond, offset, bytes, sse)))
      ensures L.ParityAddr(initsize, cpus, blocknr).Some?
      ensures parities == old(parities)[L.ParityAddr(initsize, cpus, blocknr).value := ParityOf(block)]
      ensures var (f, l) := (First(offset), Last(offset, bytes));
              f <= l < STRIPES &&
              (Guarded(initsize, cpus, step, slots, parities, i, blocknr, block) <==>
               && Crcs(step, Summed(block, beyond, offset, bytes, sse)) == Crcs(step, block[f..l + 1])
               && RestRight(initsize, cpus, step, old(slots), i, blocknr, block, f, l))
      ensures forall j, c, data :: c != blocknr && old(Guarded(initsize, cpus, step, slots, parities, j, c, data)) ==>
                Guarded(initsize, cpus, step, slots, parities, j, c, data)
    {
      hide Base, L.Has, L.Enough, Crc, Copied, Guarded, ParityOf, L.ParityAddr, Summed, First, Last, Fold;
      ghost var (was, before) := (slots, parities);
      SummedIs(block, beyond, offset, bytes, sse);
      L.ParityStripeOwn(initsize, cpus, i, blocknr);
      var strps := (offset % STRIPE_SIZE + bytes - 1) / STRIPE_SIZE + 1;
      var addr := L.ParityAddr(initsize, cpus, blocknr).value;
      var buffer := block + [beyond];
      var unrolled := strps == STRIPES;
      if unrolled {
        var crc, parity := UnrolledPass(step, block);
        buffer := buffer[1..];
        if sse {
          WriteRow(blocknr, crc, i);
        }
        parities := parities[addr := parity];
      }
      if !(unrolled && sse) {
        UpdateBlockCsum(buffer, blocknr, offset, bytes, i);
      }
      if !unrolled {
        var parity := CalculateBlockParity(block);
        parities := parities[addr := parity];
      }
      Settled(slots, was, parities, before, block, beyond, blocknr, offset, bytes, sse, i);
    }

    /** The eight checksums of a block at once, to both copies. */
    method WriteRow(blocknr: nat, crc: seq<nat>, ghost i: nat)
      requires L.InReach(initsize, cpus, i, blocknr) && |crc| == STRIPES
      modifies this`slots
      ensures Copied(slots, old(slots), Base(initsize, cpus, i, blocknr, false), Base(initsize, cpus, i, blocknr, true),
                     crc)
    {
      hide Base, L.Has, L.Enough, Copied, L.CsumAddr, L.Init;
      ghost var was := slots;
      BasesApart(initsize, cpus, i, blocknr);
      SlotsInRow(initsize, cpus, i, blocknr, 0, false);
      SlotsInRow(initsize, cpus, i, blocknr, 0, true);
      var addr0, addr1 := L.CsumAddr(initsize, cpus, blocknr * 8, false), L.CsumAddr(initsize, cpus, blocknr * 8, true);
      Memcpy(addr0.value, crc);
      ghost var once := slots;
      Memcpy(addr1.value, crc);
      CopiedBoth(slots, once, was, addr0.value, addr1.value, crc);
    }

    lemma Settled(slots: map<nat, nat>, was: map<nat, nat>, parities: map<nat, Stripe>, before: map<nat, Stripe>,
                  block: seq<Stripe>, beyond: Stripe, b: nat, offset: nat, bytes: nat, sse: bool, i: nat)
      requires L.InReach(initsize, cpus, i, b) && Shaped(block) && bytes > 0 && offset + bytes <= BLOCK
      requires Copied(slots, was, Base(initsize, cpus, i, b, false) + SLOT * First(offset),
                      Base(initsize, cpus, i, b, true) + SLOT * First(offset),
                      Crcs(step, Summed(block, beyond, offset, bytes, sse)))
      requires L.ParityAddr(initsize, cpus, b).Some?
      requires parities == before[L.ParityAddr(initsize, cpus, b).value := ParityOf(block)]
      ensures var (f, l) := (First(offset), Last(offset, bytes));
              f <= l < STRIPES &&
              (Guarded(initsize, cpus, step, slots, parities, i, b, block) <==>
               && Crcs(step, Summed(block, beyond, offset, bytes, sse)) == Crcs(step, block[f..l + 1])
               && RestRight(initsize, cpus, step, was, i, b, block, f, l))
      ensures forall j, c, data :: c != b && Guarded(initsize, cpus, step, was, before, j, c, data) ==>
                Guarded(initsize, cpus, step, slots, parities, j, c, data)
    {
      hide Base, L.Has, L.Enough, Crc, Copied, Guarded, ParityOf, L.ParityAddr, Summed;
      var vals := Crcs(step, Summed(block, beyond, offset, bytes, sse));
      StripeRange(offset, bytes);
      forall j, c, data | c != b && Guarded(initsize, cpus, step, was, before, j, c, data)
        ensures Guarded(initsize, cpus, step, slots, parities, j, c, data)
      {
        OthersGuarded(initsize, cpus, step, slots, was, before, i, b, First(offset), vals, ParityOf(block), j, c, data);
      }
      UpdateGuards(initsize, cpus, step, slots, was, parities, i, b, block, First(offset), Last(offset, bytes), vals);
    }
  }
}
