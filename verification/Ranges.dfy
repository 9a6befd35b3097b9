/** Sorted lists of number ranges: the contents of the range trees that hold free blocks and inode
    numbers in use. A coalesced list is a canonical form of the set it covers. */
module Ranges {
  import opened Options

  /** Both ends belong to the range. */
  datatype Range = Range(low: nat, high: nat)

  predicate In(r: Range, b: nat) {
    r.low <= b <= r.high
  }

  function Span(r: Range): (s: set<nat>)
    ensures forall b :: b in s <==> In(r, b)
  {
    set b: nat | r.low <= b <= r.high && In(r, b)
  }

  function Size(r: Range): nat {
    if r.low <= r.high then r.high - r.low + 1 else 0
  }

  /** Ranges in order, none empty, with at least one number between neighbours. */
  predicate Coalesced(rs: seq<Range>) {
    && (forall i :: 0 <= i < |rs| ==> rs[i].low <= rs[i].high)
    && (forall i, j :: 0 <= i < j < |rs| ==> rs[i].high + 1 < rs[j].low)
  }

  predicate Within(rs: seq<Range>, lo: nat, hi: nat) {
    forall i :: 0 <= i < |rs| ==> lo <= rs[i].low && rs[i].high <= hi
  }

  function Blocks(rs: seq<Range>): set<nat> {
    if rs == [] then {} else Blocks(rs[..|rs| - 1]) + Span(rs[|rs| - 1])
  }

  function Total(rs: seq<Range>): nat {
    if rs == [] then 0 else Total(rs[..|rs| - 1]) + Size(rs[|rs| - 1])
  }

  lemma {:induction false} BlocksConcat(a: seq<Range>, b: seq<Range>)
    ensures Blocks(a + b) == Blocks(a) + Blocks(b)
    ensures Total(a + b) == Total(a) + Total(b)
  {
    if b == [] {
      assert a + b == a;
    } else {
      var init := b[..|b| - 1];
      BlocksConcat(a, init);
      assert (a + b)[..|a + b| - 1] == a + init;
    }
  }

  lemma BlocksOne(r: Range)
    ensures Blocks([r]) == Span(r) && Total([r]) == Size(r)
  {
    assert [r][..0] == [];
    assert Blocks([r][..0]) == {};
  }

  /** Replacing the ranges from i to j. */
  lemma BlocksSplice(rs: seq<Range>, i: nat, j: nat, mid: seq<Range>)
    requires i <= j <= |rs|
    ensures Blocks(rs) == Blocks(rs[..i]) + Blocks(rs[i..j]) + Blocks(rs[j..])
    ensures Blocks(rs[..i] + mid + rs[j..]) == Blocks(rs[..i]) + Blocks(mid) + Blocks(rs[j..])
    ensures Total(rs[..i] + mid + rs[j..]) + Total(rs[i..j]) == Total(rs) + Total(mid)
  {
    hide Blocks, Total;
    BlocksConcat(rs[..i], rs[i..j]);
    BlocksConcat(rs[..i] + rs[i..j], rs[j..]);
    BlocksConcat(rs[..i], mid);
    BlocksConcat(rs[..i] + mid, rs[j..]);
    assert rs == rs[..i] + rs[i..j] + rs[j..];
  }

  lemma {:induction false} BlocksHas(rs: seq<Range>, b: nat)
    ensures b in Blocks(rs) <==> exists i :: 0 <= i < |rs| && In(rs[i], b)
  {
    if rs != [] {
      var n := |rs| - 1;
      BlocksHas(rs[..n], b);
      if i :| 0 <= i < n && In(rs[..n][i], b) {
        assert In(rs[i], b);
      }
      if i :| 0 <= i < |rs| && In(rs[i], b) {
        if i < n {
          assert In(rs[..n][i], b);
        }
      }
    }
  }

  lemma BlocksAt(rs: seq<Range>, i: nat, b: nat)
    requires i < |rs| && In(rs[i], b)
    ensures b in Blocks(rs)
  {
    BlocksHas(rs, b);
  }

  lemma BlocksIndex(rs: seq<Range>, b: nat) returns (i: nat)
    requires b in Blocks(rs)
    ensures i < |rs| && In(rs[i], b)
  {
    BlocksHas(rs, b);
    i :| 0 <= i < |rs| && In(rs[i], b);
  }

  /** A number before the first range or after the last one is not covered. */
  lemma BlocksBounded(rs: seq<Range>, lo: nat, hi: nat)
    requires Within(rs, lo, hi)
    ensures forall b :: b in Blocks(rs) ==> lo <= b <= hi
  {
    forall b | b in Blocks(rs)
      ensures lo <= b <= hi
    {
      var i := BlocksIndex(rs, b);
    }
  }

  lemma {:induction false} SpanCard(r: Range)
    ensures |Span(r)| == Size(r)
    decreases Size(r)
  {
    if r.low == r.high {
      assert Span(r) == {r.low};
    } else if r.low < r.high {
      var s := Range(r.low + 1, r.high);
      SpanCard(s);
      assert Span(r) == {r.low} + Span(s);
    } else {
      assert Span(r) == {};
    }
  }

  /** The sizes add up to the number of blocks covered. */
  lemma {:induction false} TotalIsCard(rs: seq<Range>)
    requires Coalesced(rs)
    ensures Total(rs) == |Blocks(rs)|
  {
    hide Span;
    if rs != [] {
      var n := |rs| - 1;
      TotalIsCard(rs[..n]);
      SpanCard(rs[n]);
      CardDisjoint(Blocks(rs[..n]), Span(rs[n])) by {
        LastApart(rs);
      }
    }
  }

  lemma CardDisjoint(a: set<nat>, b: set<nat>)
    requires a !! b
    ensures |a + b| == |a| + |b|
  {}

  lemma LastApart(rs: seq<Range>)
    requires Coalesced(rs) && rs != []
    ensures Blocks(rs[..|rs| - 1]) !! Span(rs[|rs| - 1])
  {
    hide Blocks;
    var n := |rs| - 1;
    forall b | b in Blocks(rs[..n])
      ensures b !in Span(rs[n])
    {
      var i := BlocksIndex(rs[..n], b);
      assert rs[i].high + 1 < rs[n].low;
    }
  }

  // ----- canonical form -----

  /** The least number of a nonempty coalesced list is the low end of its first range. */
  lemma FirstIsLeast(rs: seq<Range>, b: nat)
    requires Coalesced(rs) && b in Blocks(rs)
    ensures rs[0].low <= b
  {
    var i := BlocksIndex(rs, b);
    if i > 0 {
      assert rs[0].high + 1 < rs[i].low;
    }
  }

  lemma SplitFirst(rs: seq<Range>)
    requires rs != []
    ensures Blocks(rs) == Span(rs[0]) + Blocks(rs[1..])
  {
    BlocksConcat([rs[0]], rs[1..]);
    BlocksOne(rs[0]);
    assert rs == [rs[0]] + rs[1..];
  }

  /** Just past the first range comes a gap. */
  lemma GapAfterFirst(rs: seq<Range>)
    requires Coalesced(rs) && rs != []
    ensures rs[0].high + 1 !in Blocks(rs)
    ensures forall b :: b in Blocks(rs[1..]) ==> rs[0].high + 1 < b
  {
    SplitFirst(rs);
    forall b | b in Blocks(rs[1..])
      ensures rs[0].high + 1 < b
    {
      var i := BlocksIndex(rs[1..], b);
      assert rs[0].high + 1 < rs[i + 1].low;
    }
  }

  lemma SameFirst(a: seq<Range>, b: seq<Range>)
    requires Coalesced(a) && Coalesced(b) && a != [] && b != [] && Blocks(a) == Blocks(b)
    ensures a[0] == b[0]
  {
    hide Blocks;
    BlocksAt(a, 0, a[0].low);
    BlocksAt(b, 0, b[0].low);
    FirstIsLeast(a, b[0].low);
    FirstIsLeast(b, a[0].low);
    GapAfterFirst(a);
    GapAfterFirst(b);
    if a[0].high < b[0].high {
      BlocksAt(b, 0, a[0].high + 1);
    } else if b[0].high < a[0].high {
      BlocksAt(a, 0, b[0].high + 1);
    }
  }

  /** Two coalesced lists that cover the same numbers are the same list. */
  lemma {:induction false} CoalescedUnique(a: seq<Range>, b: seq<Range>)
    requires Coalesced(a) && Coalesced(b) && Blocks(a) == Blocks(b)
    ensures a == b
    decreases |a|
  {
    hide Blocks;
    if a == [] || b == [] {
      if a != [] {
        BlocksAt(a, 0, a[0].low);
        BlocksHas(b, a[0].low);
      } else if b != [] {
        BlocksAt(b, 0, b[0].low);
        BlocksHas(a, b[0].low);
      }
    } else {
      SameFirst(a, b);
      SplitFirst(a);
      SplitFirst(b);
      GapAfterFirst(a);
      GapAfterFirst(b);
      assert Blocks(a[1..]) == Blocks(a) - Span(a[0]);
      assert Blocks(b[1..]) == Blocks(b) - Span(b[0]);
      CoalescedUnique(a[1..], b[1..]);
      assert a == [a[0]] + a[1..] && b == [b[0]] + b[1..];
    }
  }

  // ----- search trees -----

  /** The shape of a balanced search tree over list positions; the balancing is the kernel's. */
  datatype Shape = Nil | At(left: Shape, i: nat, right: Shape)

  predicate Over(t: Shape, lo: nat, hi: nat) {
    match t
    case Nil => lo == hi
    case At(left, i, right) => lo <= i < hi && Over(left, lo, i) && Over(right, i + 1, hi)
  }

  /** Where a search ends: at the range that holds the key, or at the last range visited. */
  function Probe(rs: seq<Range>, t: Shape, lo: nat, hi: nat, key: nat, curr: Option<nat>): (r: (bool, Option<nat>))
    requires Over(t, lo, hi) && hi <= |rs|
  {
    match t
    case Nil => (false, curr)
    case At(left, i, right) =>
      if key < rs[i].low then Probe(rs, left, lo, i, key, Some(i))
      else if key > rs[i].high then Probe(rs, right, i + 1, hi, key, Some(i))
      else (true, Some(i))
  }

  /** Every range before position p ends below the key and every later one starts above it. */
  predicate Slot(rs: seq<Range>, key: nat, p: nat) {
    p <= |rs| && (forall i :: 0 <= i < p ==> rs[i].high < key) && (forall i :: p <= i < |rs| ==> key < rs[i].low)
  }

  /** The search on any shape: it finds the key's range if there is one, and otherwise ends at one of
      the two neighbours of the key's place. */
  lemma ProbeExact(rs: seq<Range>, t: Shape, lo: nat, hi: nat, key: nat, curr: Option<nat>) returns (p: nat)
    requires Coalesced(rs) && Over(t, lo, hi) && hi <= |rs|
    requires forall i :: 0 <= i < lo ==> rs[i].high < key
    requires forall i :: hi <= i < |rs| ==> key < rs[i].low
    requires if curr.None? then lo == 0 && hi == |rs|
             else (curr.value < |rs| && (curr.value + 1 == lo || curr.value == hi))
    ensures var (found, at) := Probe(rs, t, lo, hi, key, curr);
            if found then at == Some(p) && p < |rs| && In(rs[p], key)
            else
              && Slot(rs, key, p)
              && (if rs == [] then at == None
                  else at.Some? && (at.value == p || at.value + 1 == p) && at.value < |rs|)
    decreases t
  {
    match t
    case Nil => p := lo;
    case At(left, i, right) =>
      if key < rs[i].low {
        p := ProbeExact(rs, left, lo, i, key, Some(i));
      } else if key > rs[i].high {
        p := ProbeExact(rs, right, i + 1, hi, key, Some(i));
      } else {
        p := i;
      }
  }

  lemma SlotMissing(rs: seq<Range>, key: nat, p: nat)
    requires Slot(rs, key, p)
    ensures key !in Blocks(rs)
  {
    if key in Blocks(rs) {
      var i := BlocksIndex(rs, key);
    }
  }

  lemma SlotUnique(rs: seq<Range>, key: nat, p: nat, q: nat)
    requires Slot(rs, key, p) && Slot(rs, key, q) && Coalesced(rs)
    ensures p == q
  {
    var k := if p < q then p else q;
    if k < |rs| {
      assert rs[k].low <= rs[k].high;
    }
  }

  /** Node identities are distinct and below the next one to hand out. */
  predicate Distinct(ids: seq<nat>, nextId: nat) {
    && (forall i, j :: 0 <= i < j < |ids| ==> ids[i] != ids[j])
    && (forall i :: 0 <= i < |ids| ==> ids[i] < nextId)
  }

  lemma DistinctWithout(ids: seq<nat>, nextId: nat, i: nat)
    requires Distinct(ids, nextId) && i < |ids|
    ensures Distinct(ids[..i] + ids[i + 1..], nextId)
  {}

  lemma DistinctWith(ids: seq<nat>, nextId: nat, i: nat)
    requires Distinct(ids, nextId) && i <= |ids|
    ensures Distinct(ids[..i] + [nextId] + ids[i..], nextId + 1)
  {}

  /** nova_find_range_node */
  method FindRangeNode(runs: seq<Range>, shape: Shape, key: nat) returns (found: bool, at: Option<nat>)
    requires Over(shape, 0, |runs|)
    ensures (found, at) == Probe(runs, shape, 0, |runs|, key, None)
  {
    found, at := false, None;
    var temp := shape;
    ghost var lo: nat, hi: nat := 0, |runs|;
    while temp.At?
      invariant Over(temp, lo, hi) && hi <= |runs| && !found
      invariant Probe(runs, temp, lo, hi, key, at) == Probe(runs, shape, 0, |runs|, key, None)
      decreases temp
    {
      at := Some(temp.i);
      if key < runs[temp.i].low {
        hi := temp.i;
        temp := temp.left;
      } else if key > runs[temp.i].high {
        lo := temp.i + 1;
        temp := temp.right;
      } else {
        found := true;
        break;
      }
    }
  }

  /** nova_insert_range_node: the place a new range takes, if its first number is not held. */
  method InsertPlace(runs: seq<Range>, shape: Shape, low: nat) returns (p: nat)
    requires Coalesced(runs) && Over(shape, 0, |runs|) && !Probe(runs, shape, 0, |runs|, low, None).0
    ensures Slot(runs, low, p)
  {
    var found, at := FindRangeNode(runs, shape, low);
    ghost var q := ProbeExact(runs, shape, 0, |runs|, low, None);
    p := if at.None? then 0 else if low < runs[at.value].low then at.value else at.value + 1;
  }
}
