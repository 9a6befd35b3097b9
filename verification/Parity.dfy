/** Block parity and stripe repair (parity.c, checksum.c): a 4 KiB block is eight stripes of 512 bytes, each
    with two copies of its checksum; a ninth stripe holds their exclusive or. */
module Parity {

  const STRIPES := 8
  const STRIPE_SIZE := 512

  type Stripe = seq<bv8>

  predicate Shaped(block: seq<Stripe>) {
    |block| == STRIPES && forall k :: 0 <= k < STRIPES ==> |block[k]| == STRIPE_SIZE
  }

  function X(a: bv8, b: bv8): bv8 {
    a ^ b
  }

  /** The exclusive or of byte i over the first n stripes. */
  function Xor(block: seq<Stripe>, i: nat, n: nat): bv8
    requires Shaped(block) && i < STRIPE_SIZE && n <= STRIPES
  {
    if n == 0 then 0 else X(Xor(block, i, n - 1), block[n - 1][i])
  }

  function ParityOf(block: seq<Stripe>): (p: Stripe)
    requires Shaped(block)
    ensures |p| == STRIPE_SIZE
  {
    seq(STRIPE_SIZE, i requires 0 <= i < STRIPE_SIZE => Xor(block, i, STRIPES))
  }

  /** nova_calculate_block_parity */
  method CalculateBlockParity(block: seq<Stripe>) returns (parity: Stripe)
    requires Shaped(block)
    ensures parity == ParityOf(block)
  {
    hide Xor, X;
    parity := [];
    for i := 0 to STRIPE_SIZE
      invariant |parity| == i && forall j :: 0 <= j < i ==> parity[j] == Xor(block, j, STRIPES)
    {
      var xor := block[0][i];
      XorStart(block, i);
      for strp := 1 to STRIPES
        invariant xor == Xor(block, i, strp)
      {
        XorStep(block, i, strp);
        xor := X(xor, block[strp][i]);
      }
      parity := parity + [xor];
    }
  }

  lemma XorStart(block: seq<Stripe>, i: nat)
    requires Shaped(block) && i < STRIPE_SIZE
    ensures Xor(block, i, 1) == block[0][i]
  {
    hide X;
    assert Xor(block, i, 0) == 0;
    XorZero(block[0][i]);
  }

  lemma XorZero(b: bv8)
    ensures X(0, b) == b
  {}

  lemma XorStep(block: seq<Stripe>, i: nat, n: nat)
    requires Shaped(block) && i < STRIPE_SIZE && n < STRIPES
    ensures Xor(block, i, n + 1) == X(Xor(block, i, n), block[n][i])
  {}

  // ----- what the parity recovers -----

  lemma SwapUnder(a: bv8, b: bv8, c: bv8, old_: bv8, new_: bv8)
    requires b == X(X(a, old_), new_)
    ensures X(b, c) == X(X(X(a, c), old_), new_)
  {}

  lemma SwapTop(x: bv8, old_: bv8, new_: bv8)
    ensures X(x, new_) == X(X(X(x, old_), old_), new_)
  {}

  /** Exchanging one stripe exchanges its byte in the exclusive or. */
  lemma {:induction false} XorExchange(block: seq<Stripe>, k: nat, s: Stripe, i: nat, n: nat)
    requires Shaped(block) && k < STRIPES && |s| == STRIPE_SIZE && i < STRIPE_SIZE && n <= STRIPES
    ensures Xor(block[k := s], i, n) == if k < n then X(X(Xor(block, i, n), block[k][i]), s[i]) else Xor(block, i, n)
  {
    hide Xor, X;
    if n == 0 {
      XorNone(block, i);
      XorNone(block[k := s], i);
    } else {
      XorExchange(block, k, s, i, n - 1);
      XorStep(block, i, n - 1);
      XorStep(block[k := s], i, n - 1);
      if k == n - 1 {
        SwapTop(Xor(block, i, n - 1), block[k][i], s[i]);
      } else if k < n - 1 {
        SwapUnder(Xor(block, i, n - 1), Xor(block[k := s], i, n - 1), block[n - 1][i], block[k][i], s[i]);
      }
    }
  }

  lemma XorNone(block: seq<Stripe>, i: nat)
    requires Shaped(block) && i < STRIPE_SIZE
    ensures Xor(block, i, 0) == 0
  {}

  /** With the parity in its place, the other stripes give back byte i of stripe k. */
  lemma ParityRecovers(block: seq<Stripe>, k: nat, i: nat)
    requires Shaped(block) && k < STRIPES && i < STRIPE_SIZE
    ensures Xor(block[k := ParityOf(block)], i, STRIPES) == block[k][i]
  {
    hide Xor, X;
    XorExchange(block, k, ParityOf(block), i, STRIPES);
    Returns(Xor(block, i, STRIPES), block[k][i]);
  }

  lemma Returns(x: bv8, b: bv8)
    ensures X(X(x, b), x) == b
  {}

  /** Byte i of the exclusive or depends on byte i of the stripes only. */
  lemma {:induction false} XorSame(a: seq<Stripe>, b: seq<Stripe>, i: nat, n: nat)
    requires Shaped(a) && Shaped(b) && i < STRIPE_SIZE && n <= STRIPES && forall k :: 0 <= k < n ==> a[k][i] == b[k][i]
    ensures Xor(a, i, n) == Xor(b, i, n)
  {
    hide X;
    if n > 0 {
      XorSame(a, b, i, n - 1);
    }
  }

  // ----- nova_restore_data -----

  /** The i-th attempt: the first i bytes as found, the rest from the parity. */
  function Attempt(rebuilt: Stripe, found: Stripe, i: nat): (s: Stripe)
    requires |rebuilt| == STRIPE_SIZE == |found| && i <= STRIPE_SIZE
    ensures |s| == STRIPE_SIZE
  {
    found[..i] + rebuilt[i..]
  }

  /** How many attempts are made: one if the stripe was unreadable or is the last of its block. */
  function Attempts(bad: nat, unreadable: bool): nat {
    if unreadable || bad == STRIPES - 1 then 1 else STRIPE_SIZE
  }

  predicate Accepts(csum: Stripe -> nat, csum0: nat, csum1: nat, s: Stripe) {
    csum(s) == csum0 || csum(s) == csum1
  }

  /** The first attempt with a matching checksum replaces the stripe; without one nothing changes. */
  method RestoreData(block: array<Stripe>, parity: Stripe, bad: nat, found: Stripe, unreadable: bool, csum0: nat,
                     csum1: nat, csum: Stripe -> nat)
    returns (ok: bool, good: nat, ghost at: nat)
    requires block.Length == STRIPES && Shaped(block[..]) && |parity| == STRIPE_SIZE == |found| && bad < STRIPES
    modifies block
    ensures ok ==> at < Attempts(bad, unreadable)
    ensures var rebuilt := ParityOf(old(block[..])[bad := parity]);
            && (ok ==> Accepts(csum, csum0, csum1, Attempt(rebuilt, found, at))
                       && good == csum(Attempt(rebuilt, found, at))
                       && block[..] == old(block[..])[bad := Attempt(rebuilt, found, at)])
            && (!ok ==> block[..] == old(block[..]) &&
                        forall i :: 0 <= i < Attempts(bad, unreadable) ==>
                          !Accepts(csum, csum0, csum1, Attempt(rebuilt, found, i)))
  {
    hide ParityOf;
    ok, good, at := false, 0, 0;
    ghost var before := block[..];
    var copy := block[..][bad := parity];
    var rebuilt := CalculateBlockParity(copy);
    var strip := rebuilt;
    for i := 0 to STRIPE_SIZE
      invariant !ok && block[..] == before && |strip| == STRIPE_SIZE
      invariant strip == if i == 0 then rebuilt else Attempt(rebuilt, found, i - 1)
      invariant forall j :: 0 <= j < i ==> !Accepts(csum, csum0, csum1, Attempt(rebuilt, found, j))
      invariant i > 0 ==> Attempts(bad, unreadable) == STRIPE_SIZE
    {
      strip := found[..i] + strip[i..];
      assert strip == Attempt(rebuilt, found, i);
      good := csum(strip);
      if good == csum0 || good == csum1 {
        ok, at := true, i;
        block[bad] := strip;
        return;
      }
      if unreadable {
        break;
      }
      if bad == STRIPES - 1 {
        break;
      }
    }
  }

  // ----- which damage can be repaired -----

  lemma OneOff(t: bv8, was: bv8, is_: bv8, b: bv8)
    ensures X(X(X(X(t, was), is_), b), t) == b <==> was == is_
  {}

  /** With one other stripe damaged, the rebuilt byte is right if and only if that stripe's byte is. */
  lemma RebuiltByteIff(good: seq<Stripe>, block: seq<Stripe>, k: nat, j: nat, i: nat)
    requires Shaped(good) && Shaped(block) && k < STRIPES && j < STRIPES && j != k && i < STRIPE_SIZE
    requires forall n :: 0 <= n < STRIPES && n != k && n != j ==> block[n][i] == good[n][i]
    ensures ParityOf(block[k := ParityOf(good)])[i] == good[k][i] <==> block[j][i] == good[j][i]
  {
    hide Xor, X;
    var p := ParityOf(good);
    var mixed := good[j := block[j]];
    XorSame(block[k := p], mixed[k := p], i, STRIPES);
    XorExchange(mixed, k, p, i, STRIPES);
    XorExchange(good, j, block[j], i, STRIPES);
    OneOff(p[i], good[j][i], block[j][i], good[k][i]);
  }

  /** Up to byte i stripe n is intact, from byte i on stripe m is. */
  predicate CleanCut(good: seq<Stripe>, block: seq<Stripe>, n: nat, m: nat, i: nat)
    requires Shaped(good) && Shaped(block) && n < STRIPES && m < STRIPES
  {
    i < STRIPE_SIZE && good[n][..i] == block[n][..i] && good[m][i..] == block[m][i..]
  }

  /** Damage to stripes n and m, of whatever kind: attempt i gives stripe n back if and only if there is a clean
      cut at byte i. */
  lemma AttemptIff(good: seq<Stripe>, block: seq<Stripe>, n: nat, m: nat, i: nat)
    requires Shaped(good) && Shaped(block) && n < STRIPES && m < STRIPES && n != m && i < STRIPE_SIZE
    requires forall j :: 0 <= j < STRIPES && j != n && j != m ==> block[j] == good[j]
    ensures Attempt(ParityOf(block[n := ParityOf(good)]), block[n], i) == good[n] <==> CleanCut(good, block, n, m, i)
  {
    hide ParityOf;
    var rebuilt := ParityOf(block[n := ParityOf(good)]);
    var s := Attempt(rebuilt, block[n], i);
    forall b | i <= b < STRIPE_SIZE
      ensures rebuilt[b] == good[n][b] <==> block[m][b] == good[m][b]
    {
      RebuiltByteIff(good, block, n, m, b);
    }
    assert s[..i] == block[n][..i] && s[i..] == rebuilt[i..];
    assert s == good[n] <==> s[..i] == good[n][..i] && s[i..] == good[n][i..] by {
      assert s == s[..i] + s[i..] && good[n] == good[n][..i] + good[n][i..];
    }
    TailsAlike(rebuilt, good[n], block[m], good[m], i);
  }

  lemma TailsAlike(a: Stripe, b: Stripe, c: Stripe, d: Stripe, i: nat)
    requires |a| == |b| == |c| == |d| && i <= |a| && forall n :: i <= n < |a| ==> (a[n] == b[n] <==> c[n] == d[n])
    ensures a[i..] == b[i..] <==> c[i..] == d[i..]
  {
    if a[i..] == b[i..] {
      forall n | i <= n < |a|
        ensures c[n] == d[n]
      {
        assert a[i..][n - i] == b[i..][n - i];
      }
    }
    if c[i..] == d[i..] {
      forall n | i <= n < |a|
        ensures a[n] == b[n]
      {
        assert c[i..][n - i] == d[i..][n - i];
      }
    }
  }

  // ----- nova_verify_data_csum on stripes of one block -----

  /** One contiguous scribble of at most a stripe's length: it may end stripe k from byte x on and begin the
      next stripe up to byte y. */
  predicate Scribbled(good: seq<Stripe>, block: seq<Stripe>, k: nat, x: nat, y: nat)
    requires Shaped(good) && Shaped(block)
  {
    && k < STRIPES && y <= x < STRIPE_SIZE
    && forall j, i :: 0 <= j < STRIPES && 0 <= i < STRIPE_SIZE && !(j == k && i >= x) && !(j == k + 1 && i < y) ==>
         block[j][i] == good[j][i]
  }

  /** The block once the stripes from lo up to n are repaired. */
  function Mended(good: seq<Stripe>, block: seq<Stripe>, lo: nat, n: nat): (out: seq<Stripe>)
    requires Shaped(good) && Shaped(block) && lo <= n <= STRIPES
    ensures Shaped(out)
  {
    block[..lo] + good[lo..n] + block[n..]
  }

  /** At least one checksum copy of each stripe is right, and among the stripes tried no wrong one matches. */
  ghost predicate Separates(csum: Stripe -> nat, good: seq<Stripe>, block: seq<Stripe>, csums0: seq<nat>,
                            csums1: seq<nat>, lo: nat)
    requires Shaped(good) && Shaped(block) && |csums0| == |csums1| == STRIPES
  {
    forall n :: lo <= n < STRIPES ==> SeparatesAt(csum, good, block, csums0[n], csums1[n], lo, n)
  }

  ghost predicate SeparatesAt(csum: Stripe -> nat, good: seq<Stripe>, block: seq<Stripe>, csum0: nat, csum1: nat,
                              lo: nat, n: nat)
    requires Shaped(good) && Shaped(block) && lo <= n < STRIPES
  {
    && Accepts(csum, csum0, csum1, good[n])
    && (Accepts(csum, csum0, csum1, block[n]) ==> block[n] == good[n])
    && forall i :: 0 <= i < STRIPE_SIZE && Accepts(csum, csum0, csum1, Try(good, block, lo, n, i)) ==>
         Try(good, block, lo, n, i) == good[n]
  }

  /** Attempt i on stripe n, the stripes from lo up to n being repaired. */
  function Try(good: seq<Stripe>, block: seq<Stripe>, lo: nat, n: nat, i: nat): Stripe
    requires Shaped(good) && Shaped(block) && lo <= n < STRIPES && i < STRIPE_SIZE
  {
    Attempt(ParityOf(Mended(good, block, lo, n)[n := ParityOf(good)]), block[n], i)
  }

  /** The one scribble the pass cannot repair: it starts at the second of the two stripes, and no attempt made on
      that stripe falls on a clean cut. */
  ghost predicate Stuck(good: seq<Stripe>, block: seq<Stripe>, k: nat, lo: nat, hi: nat)
    requires Shaped(good) && Shaped(block) && hi <= STRIPES
  {
    lo == k + 1 < hi && block[lo] != good[lo] && NoCut(good, block, lo, k)
  }

  ghost predicate NoCut(good: seq<Stripe>, block: seq<Stripe>, n: nat, m: nat)
    requires Shaped(good) && Shaped(block) && n < STRIPES && m < STRIPES
  {
    forall i :: 0 <= i < Attempts(n, false) ==> !CleanCut(good, block, n, m, i)
  }

  lemma OnlyTwo(good: seq<Stripe>, block: seq<Stripe>, k: nat, x: nat, y: nat, n: nat)
    requires Shaped(good) && Shaped(block) && Scribbled(good, block, k, x, y) && n < STRIPES
    ensures block[n] == good[n] || n == k || n == k + 1
  {
    if n != k && n != k + 1 {
      assert forall b :: 0 <= b < STRIPE_SIZE ==> block[n][b] == good[n][b];
    }
  }

  /** A scribble ends in a clean cut. */
  lemma ScribbleCut(good: seq<Stripe>, block: seq<Stripe>, k: nat, x: nat, y: nat)
    requires Shaped(good) && Shaped(block) && Scribbled(good, block, k, x, y) && k + 1 < STRIPES
    ensures CleanCut(good, block, k, k + 1, y)
  {
    var (a, b, c, d) := (good[k], block[k], good[k + 1], block[k + 1]);
    assert forall i :: 0 <= i < y ==> a[i] == b[i];
    assert forall i :: y <= i < STRIPE_SIZE ==> c[i] == d[i];
  }

  /** Which attempts on a damaged stripe give it back. */
  lemma TryIff(good: seq<Stripe>, block: seq<Stripe>, k: nat, x: nat, y: nat, lo: nat, n: nat, i: nat)
    requires Shaped(good) && Shaped(block) && Scribbled(good, block, k, x, y) && lo <= n < STRIPES
    requires block[n] != good[n]
    requires i < STRIPE_SIZE
    ensures n == k == STRIPES - 1 && i == 0 ==> Try(good, block, lo, n, i) == good[n]
    ensures n == k < STRIPES - 1 && i == y ==> Try(good, block, lo, n, i) == good[n]
    ensures n == k + 1 && lo <= k && i == 0 ==> Try(good, block, lo, n, i) == good[n]
    ensures n == k + 1 == lo ==> (Try(good, block, lo, n, i) == good[n] <==> CleanCut(good, block, n, k, i))
  {
    hide ParityOf, Scribbled, Attempt, CleanCut;
    var now := Mended(good, block, lo, n);
    forall j | 0 <= j < STRIPES
      ensures now[j] == good[j] || j == k || j == k + 1
    {
      OnlyTwo(good, block, k, x, y, j);
    }
    OnlyTwo(good, block, k, x, y, n);
    var m := if n == k + 1 then k else if n == STRIPES - 1 then 0 else k + 1;
    AttemptIff(good, now, n, m, i);
    CutAlike(good, now, block, n, m, i);
    if n == k && k + 1 < STRIPES {
      ScribbleCut(good, block, k, x, y);
    } else if n == k || lo <= k {
      CutAtZero(good, now, n, m);
    }
  }

  lemma CutAlike(good: seq<Stripe>, now: seq<Stripe>, block: seq<Stripe>, n: nat, m: nat, i: nat)
    requires Shaped(good) && Shaped(block) && Shaped(now) && n < STRIPES && m < STRIPES && now[n] == block[n]
    ensures now[m] == block[m] ==> (CleanCut(good, now, n, m, i) <==> CleanCut(good, block, n, m, i))
  {}

  lemma CutAtZero(good: seq<Stripe>, now: seq<Stripe>, n: nat, m: nat)
    requires Shaped(good) && Shaped(now) && n < STRIPES && m < STRIPES && now[m] == good[m]
    ensures CleanCut(good, now, n, m, 0)
  {}

  /** A damaged stripe comes back under one of the attempts, unless the pass is stuck on it. */
  lemma SomeAttempt(good: seq<Stripe>, block: seq<Stripe>, k: nat, x: nat, y: nat, lo: nat, hi: nat, n: nat)
    requires Shaped(good) && Shaped(block) && Scribbled(good, block, k, x, y) && lo <= n < hi <= STRIPES
    requires block[n] != good[n]
    ensures (exists i :: 0 <= i < Attempts(n, false) && Try(good, block, lo, n, i) == good[n]) <==>
              !(n == lo && Stuck(good, block, k, lo, hi))
  {
    hide Try, CleanCut, Scribbled;
    OnlyTwo(good, block, k, x, y, n);
    if n == lo == k + 1 {
      forall i | 0 <= i < Attempts(n, false)
        ensures Try(good, block, lo, n, i) == good[n] <==> CleanCut(good, block, n, k, i)
      {
        TryIff(good, block, k, x, y, lo, n, i);
      }
    } else {
      var i := if n == k && k < STRIPES - 1 then y else 0;
      assert i < STRIPE_SIZE by { ScribbleBound(good, block, k, x, y); }
      TryIff(good, block, k, x, y, lo, n, i);
      assert i < Attempts(n, false);
    }
  }

  lemma ScribbleBound(good: seq<Stripe>, block: seq<Stripe>, k: nat, x: nat, y: nat)
    requires Shaped(good) && Shaped(block) && Scribbled(good, block, k, x, y)
    ensures y < STRIPE_SIZE
  {}

  /** What is known of a scribbled block for the pass over its stripes from lo on. */
  ghost predicate Repairable(csum: Stripe -> nat, good: seq<Stripe>, block: seq<Stripe>, csums0: seq<nat>,
                             csums1: seq<nat>, lo: nat, k: nat, x: nat, y: nat)
    requires Shaped(good) && Shaped(block) && |csums0| == |csums1| == STRIPES
  {
    Scribbled(good, block, k, x, y) && Separates(csum, good, block, csums0, csums1, lo)
  }

  /** The pass over stripes lo..hi. Whatever the damage: on success every stripe agrees with both its checksum
      copies, a stripe that agreed with one of them is not changed, and on failure a stripe that agrees with neither
      is left as it was. A scribble is repaired if and only if the pass is not stuck on it. */
  method VerifyStripes(block: array<Stripe>, parity: Stripe, csums0: array<nat>, csums1: array<nat>,
                       csum: Stripe -> nat, lo: nat, hi: nat, dataParity: bool, ghost good: seq<Stripe>, ghost k: nat,
                       ghost x: nat, ghost y: nat)
    returns (ok: bool, ghost at: nat)
    requires block.Length == csums0.Length == csums1.Length == STRIPES && csums0 != csums1
    requires Shaped(block[..]) && |parity| == STRIPE_SIZE && lo <= hi <= STRIPES
    modifies block, csums0, csums1
    ensures Shaped(block[..])
    ensures ok ==> forall n :: lo <= n < hi ==> csums0[n] == csums1[n] == csum(block[n])
    ensures forall n :: 0 <= n < STRIPES && (n < lo || hi <= n) ==>
              block[n] == old(block[n]) && csums0[n] == old(csums0[n]) && csums1[n] == old(csums1[n])
    ensures forall n :: lo <= n < hi && old(Accepts(csum, csums0[n], csums1[n], block[n])) ==> block[n] == old(block[n])
    ensures !ok ==> lo <= at < hi && block[at] == old(block[at]) && !Accepts(csum, csums0[at], csums1[at], block[at])
    ensures Shaped(good) && dataParity && parity == ParityOf(good)
            && old(Repairable(csum, good, block[..], csums0[..], csums1[..], lo, k, x, y)) ==>
              && (ok <==> !old(Stuck(good, block[..], k, lo, hi)))
              && (ok ==> forall n :: lo <= n < hi ==> block[n] == good[n])
  {
    hide ParityOf, Xor, Repairable, Stuck, Mended, Attempt;
    ok, at := true, lo;
    ghost var (damaged, c0, c1) := (block[..], csums0[..], csums1[..]);
    ghost var clean := Shaped(good) && dataParity && parity == ParityOf(good)
                       && Repairable(csum, good, damaged, c0, c1, lo, k, x, y);
    if clean {
      MendedNone(good, damaged, lo);
    }
    for n := lo to hi
      invariant ok && Shaped(block[..])
      invariant forall j :: lo <= j < n ==> csums0[j] == csums1[j] == csum(block[j])
      invariant forall j :: 0 <= j < STRIPES && (j < lo || n <= j) ==>
                  block[j] == damaged[j] && csums0[j] == c0[j] && csums1[j] == c1[j]
      invariant forall j :: lo <= j < n && Accepts(csum, c0[j], c1[j], damaged[j]) ==> block[j] == damaged[j]
      invariant clean ==> block[..] == Mended(good, damaged, lo, n) && (n > lo ==> !Stuck(good, damaged, k, lo, hi))
    {
      at := n;
      ghost var tried;
      ok, tried := VerifyStripe(block, parity, csums0, csums1, csum, n, dataParity);
      if clean {
        StripeDecided(csum, good, damaged, c0, c1, k, x, y, lo, hi, n, ok, tried);
        MendedNext(good, damaged, lo, n);
      }
      if !ok {
        return;
      }
    }
    if clean {
      NotStuck(good, damaged, k, lo, hi);
    }
  }

  /** One stripe of the pass. */
  method VerifyStripe(block: array<Stripe>, parity: Stripe, csums0: array<nat>, csums1: array<nat>,
                      csum: Stripe -> nat, n: nat, dataParity: bool)
    returns (ok: bool, ghost tried: nat)
    requires block.Length == csums0.Length == csums1.Length == STRIPES && csums0 != csums1
    requires Shaped(block[..]) && |parity| == STRIPE_SIZE && n < STRIPES
    modifies block, csums0, csums1
    ensures Shaped(block[..]) && block[..] == old(block[..])[n := block[n]]
    ensures csums0[..] == old(csums0[..])[n := csums0[n]] && csums1[..] == old(csums1[..])[n := csums1[n]]
    ensures ok ==> csums0[n] == csums1[n] == csum(block[n])
    ensures !ok ==> csums0[n] == old(csums0[n]) && csums1[n] == old(csums1[n]) && block[n] == old(block[n])
    ensures var (rebuilt, was, a, b) := (ParityOf(old(block[..])[n := parity]), old(block[n]), old(csums0[n]),
                                         old(csums1[n]));
            if Accepts(csum, a, b, was) then ok && block[n] == was
            else if ok then
              && tried < Attempts(n, false) && block[n] == Attempt(rebuilt, was, tried)
              && Accepts(csum, a, b, Attempt(rebuilt, was, tried))
            else
              dataParity ==> forall i :: 0 <= i < Attempts(n, false) ==> !Accepts(csum, a, b, Attempt(rebuilt, was, i))
  {
    hide ParityOf, Xor, Attempt;
    tried := 0;
    var (a, b, strip) := (csums0[n], csums1[n], block[n]);
    var sum := csum(strip);
    ok := sum == a || sum == b;
    if !ok && dataParity {
      var restored, value, i := RestoreData(block, parity, n, strip, false, a, b, csum);
      ok, sum, tried := restored, value, i;
    }
    if !ok {
      return;
    }
    if a != b {
      if a != sum {
        csums0[n] := sum;
      }
      if b != sum {
        csums1[n] := sum;
      }
    }
  }

  lemma NotStuck(good: seq<Stripe>, block: seq<Stripe>, k: nat, lo: nat, hi: nat)
    requires Shaped(good) && Shaped(block) && lo <= hi <= STRIPES
    ensures lo == hi ==> !Stuck(good, block, k, lo, hi)
    ensures forall n :: lo <= n < hi ==> Mended(good, block, lo, hi)[n] == good[n]
  {}

  lemma MendedNone(good: seq<Stripe>, block: seq<Stripe>, lo: nat)
    requires Shaped(good) && Shaped(block) && lo <= STRIPES
    ensures Mended(good, block, lo, lo) == block
  {}

  lemma MendedNext(good: seq<Stripe>, block: seq<Stripe>, lo: nat, n: nat)
    requires Shaped(good) && Shaped(block) && lo <= n < STRIPES
    ensures Mended(good, block, lo, n + 1) == Mended(good, block, lo, n)[n := good[n]]
  {}

  /** What one stripe of the pass comes to. */
  lemma StripeDecided(csum: Stripe -> nat, good: seq<Stripe>, block: seq<Stripe>, csums0: seq<nat>, csums1: seq<nat>,
                      k: nat, x: nat, y: nat, lo: nat, hi: nat, n: nat, ok: bool, tried: nat)
    requires Shaped(good) && Shaped(block) && |csums0| == |csums1| == STRIPES && lo <= n < hi <= STRIPES
    requires Repairable(csum, good, block, csums0, csums1, lo, k, x, y)
    requires if Accepts(csum, csums0[n], csums1[n], block[n]) then ok
             else if ok then
               tried < Attempts(n, false) && Accepts(csum, csums0[n], csums1[n], Try(good, block, lo, n, tried))
             else
               forall i :: 0 <= i < Attempts(n, false) ==>
                 !Accepts(csum, csums0[n], csums1[n], Try(good, block, lo, n, i))
    ensures ok <==> !(n == lo && Stuck(good, block, k, lo, hi))
    ensures Accepts(csum, csums0[n], csums1[n], block[n]) ==> block[n] == good[n]
    ensures ok && !Accepts(csum, csums0[n], csums1[n], block[n]) ==> Try(good, block, lo, n, tried) == good[n]
  {
    hide NoCut, Try, Scribbled, Accepts;
    assert SeparatesAt(csum, good, block, csums0[n], csums1[n], lo, n);
    if !Accepts(csum, csums0[n], csums1[n], block[n]) {
      SomeAttempt(good, block, k, x, y, lo, hi, n);
    }
  }

  /** A pass that starts at the second stripe is stuck as soon as the scribble changed the stripe before and that
      stripe's first byte. */
  lemma StuckBetween(good: seq<Stripe>, block: seq<Stripe>, k: nat, hi: nat)
    requires Shaped(good) && Shaped(block) && k + 1 < hi <= STRIPES && block[k] != good[k]
    requires block[k + 1][0] != good[k + 1][0]
    ensures Stuck(good, block, k, k + 1, hi)
  {
    var lo := k + 1;
    forall i | 0 <= i < Attempts(lo, false)
      ensures !CleanCut(good, block, lo, k, i)
    {
      if i == 0 {
        assert good[k][0..] == good[k] && block[k][0..] == block[k];
      } else {
        assert good[lo][..i][0] != block[lo][..i][0];
      }
    }
  }

  /** A pass over the whole block is never stuck. */
  lemma WholeNeverStuck(good: seq<Stripe>, block: seq<Stripe>, k: nat)
    requires Shaped(good) && Shaped(block)
    ensures !Stuck(good, block, k, 0, STRIPES)
  {}
}
