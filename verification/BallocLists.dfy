/** The allocator over all CPUs: which free list serves a request, and the set of free blocks of the
    whole device. */
module BallocLists {
  import opened Ranges
  import opened FreeSpace
  import opened Balloc

  ghost function Union(sets: seq<set<nat>>): set<nat> {
    if sets == [] then {} else Union(sets[..|sets| - 1]) + sets[|sets| - 1]
  }

  lemma {:induction false} UnionHas(sets: seq<set<nat>>, b: nat)
    ensures b in Union(sets) <==> exists i :: 0 <= i < |sets| && b in sets[i]
  {
    if sets != [] {
      var n := |sets| - 1;
      UnionHas(sets[..n], b);
      if i :| 0 <= i < n && b in sets[..n][i] {
        assert b in sets[i];
      }
      if i :| 0 <= i < |sets| && b in sets[i] {
        if i < n {
          assert b in sets[..n][i];
        }
      }
    }
  }

  /** A change of one member that the other members do not share is the same change of the union. */
  lemma UnionChange(sets: seq<set<nat>>, c: nat, gone: set<nat>, added: set<nat>)
    requires c < |sets| && forall i :: 0 <= i < |sets| && i != c ==> sets[i] !! gone
    ensures Union(sets[c := sets[c] - gone + added]) == Union(sets) - gone + added
  {
    hide Union;
    var out := sets[c := sets[c] - gone + added];
    forall b: nat
      ensures b in Union(out) <==> b in Union(sets) - gone + added
    {
      UnionHas(sets, b);
      UnionHas(out, b);
      if b in Union(sets) - gone {
        var i :| 0 <= i < |sets| && b in sets[i];
        assert b in out[i];
      }
      if b in added {
        assert b in out[c];
      }
      if b in Union(out) && b !in added {
        var i :| 0 <= i < |out| && b in out[i];
        assert b in sets[i];
      }
    }
  }

  ghost function FreeSets(lists: seq<FreeList>): (sets: seq<set<nat>>)
    reads lists
    ensures |sets| == |lists| && forall i :: 0 <= i < |lists| ==> sets[i] == lists[i].Free()
  {
    if lists == [] then [] else FreeSets(lists[..|lists| - 1]) + [lists[|lists| - 1].Free()]
  }

  /** The free blocks of the device. */
  ghost function AllFree(lists: seq<FreeList>): set<nat>
    reads lists
  {
    Union(FreeSets(lists))
  }

  /** The lists are distinct objects over areas of the device that do not meet; block 0 is in none. */
  ghost predicate Good(lists: seq<FreeList>)
    reads lists
  {
    Apart(lists) && forall i :: 0 <= i < |lists| ==> lists[i].Valid()
  }

  ghost predicate Apart(lists: seq<FreeList>) {
    && (forall i :: 0 <= i < |lists| ==> 0 < lists[i].start)
    && (forall i, j :: 0 <= i < j < |lists| ==> lists[i] != lists[j] && lists[i].end < lists[j].start)
  }

  lemma OtherLists(lists: seq<FreeList>, c: nat, area: set<nat>)
    requires Good(lists) && c < |lists| && forall b :: b in area ==> lists[c].start <= b <= lists[c].end
    ensures forall i :: 0 <= i < |lists| && i != c ==> lists[i].Free() !! area
  {
    forall i | 0 <= i < |lists| && i != c
      ensures lists[i].Free() !! area
    {
      BlocksBounded(lists[i].runs, lists[i].start, lists[i].end);
      assert if i < c then lists[i].end < lists[c].start else lists[c].end < lists[i].start;
    }
  }

  /** The first of the lists with the most free blocks. */
  predicate Fullest(lists: seq<FreeList>, c: nat)
    reads lists
  {
    && c < |lists| && (forall i :: 0 <= i < |lists| ==> lists[i].numFree <= lists[c].numFree)
    && forall i :: 0 <= i < c ==> lists[i].numFree < lists[c].numFree
  }

  /** The list that serves a request made on a CPU: its own, or the fullest if that has not enough blocks. */
  ghost predicate Serves(lists: seq<FreeList>, cpu: nat, num: nat, log: bool, c: nat)
    requires cpu < |lists| && lists[cpu].Names()
    reads lists
  {
    if lists[cpu].NotEnough(num, log) then Fullest(lists, c) else c == cpu
  }

  /** What a request is answered: the list that serves it refuses it, or gives what `Given` says. */
  ghost predicate Answers(lists: seq<FreeList>, cpu: nat, num: nat, big: bool, log: bool, fromTail: bool, ret: int,
                          got: nat, b: nat, home: nat)
    requires Good(lists) && cpu < |lists|
    reads lists
  {
    && home < |lists| && Serves(lists, cpu, num, log, home)
    && if lists[home].Refused(big, log, num) then ret == -ENOSPC
       else ret >= 0 && Given(lists[home].runs, big, log, num, fromTail, got, b)
  }

  /** nova_get_candidate_free_list: the list with the most free blocks. */
  method Candidate(lists: seq<FreeList>) returns (cpu: nat)
    requires lists != []
    ensures Fullest(lists, cpu)
  {
    cpu := 0;
    var most := 0;
    for i := 0 to |lists|
      invariant cpu < |lists| && (i > 0 ==> lists[cpu].numFree == most)
      invariant i == 0 ==> most == 0 && cpu == 0
      invariant forall j :: 0 <= j < i ==> lists[j].numFree <= most
      invariant forall j :: 0 <= j < cpu ==> lists[j].numFree < most
    {
      if lists[i].numFree > most {
        cpu, most := i, lists[i].numFree;
      }
    }
  }

  /** The retries: a list with too few blocks is passed over for the fullest one, twice at most. */
  method Choose(lists: seq<FreeList>, cpu: nat, num: nat, log: bool) returns (c: nat)
    requires Good(lists) && cpu < |lists|
    ensures c < |lists| && Serves(lists, cpu, num, log, c)
  {
    hide FreeList.NotEnough;
    c := cpu;
    var retried := 0;
    while retried < 2 && lists[c].NotEnough(num, log)
      invariant c < |lists| && (retried == 0 ==> c == cpu) && (retried > 0 ==> lists[cpu].NotEnough(num, log))
      invariant retried > 0 ==> Fullest(lists, c)
      decreases 2 - retried
    {
      c := Candidate(lists);
      retried := retried + 1;
    }
  }

  /** nova_new_blocks: the blocks that leave the free set are one free range. The caller is told of all of them if
      and only if the request comes out even; what is left of a larger page is lost to both. */
  method NewBlocks(lists: seq<FreeList>, cpu: nat, num: nat, unit: nat, log: bool, fromTail: bool)
    returns (ret: int, b: nat, ghost got: nat, ghost home: nat)
    requires Good(lists) && cpu < |lists| && num < 0x1_0000_0000 && unit in {1, 512, 0x40000}
    modifies lists
    ensures Good(lists)
    ensures num == 0 ==> ret == -EINVAL && unchanged(lists)
    ensures num > 0 ==> old(Answers(lists, cpu, num * unit, unit > 1, log, fromTail, ret, got, b, home))
    ensures ret < 0 ==> unchanged(lists)
    // a plain request for data fails only on a full device
    ensures num > 0 && unit == 1 && !log ==> (ret == -ENOSPC <==> old(AllFree(lists)) == {})
    ensures ret >= 0 ==> home < |lists|
    ensures ret >= 0 && unit == 1 ==> Given(old(lists[home].runs), false, log, num, fromTail, got, b)
    ensures ret >= 0 ==>
              0 < got <= num * unit && ret == got / unit && Span(Range(b, b + got - 1)) <= old(AllFree(lists))
    ensures ret >= 0 ==> (ret * unit == got <==> Even(old(lists[home].runs), log, num, unit, fromTail))
    ensures ret >= 0 ==> AllFree(lists) == old(AllFree(lists)) - Span(Range(b, b + got - 1))
    ensures ret >= 0 ==> lists[home].start <= b && b + got - 1 <= lists[home].end
    ensures ret >= 0 ==> lists[home].Free() == old(lists[home].Free()) - Span(Range(b, b + got - 1))
    ensures forall i :: 0 <= i < |lists| && i != home ==> lists[i].runs == old(lists[i].runs)
    ensures ret >= 0 && log && unit == 1 && !fromTail && got < num ==> b + got - 1 < lists[home].end
    ensures log ==> forall i :: 0 <= i < |lists| ==> lists[i].numNodes <= old(lists[i].numNodes)
  {
    hide Good, Serves, FreeList.Refused, Given, Even, AllFree, Span;
    var blocks := num * unit;
    b, got, home := 0, 0, 0;
    if blocks == 0 {
      NoBlocks(num, unit);
      return -EINVAL, 0, 0, 0;
    }
    assert num > 0 && blocks < 0x8000_0000_0000_0000;
    var c := Choose(lists, cpu, blocks, log);
    if !log {
      PlainRefused(lists, cpu, blocks, c);
    }
    ghost var runs := lists[c].runs;
    var n, place := TakeFrom(lists, c, unit > 1, log, blocks, fromTail);
    if n <= 0 || place == 0 {
      return -ENOSPC, 0, 0, c;
    }
    ret, b, got, home := n / unit, place, n, c;
    if unit > 1 {
      EvenIff(runs, log, num, unit, fromTail, n);
    }
    EvenParts(n, unit);
    if unit == 1 {
      EvenPlain(runs, log, num, fromTail);
    }
  }

  lemma PlainRefused(lists: seq<FreeList>, cpu: nat, num: nat, c: nat)
    requires Good(lists) && cpu < |lists| && c < |lists| && num > 0 && Serves(lists, cpu, num, false, c)
    ensures lists[c].Refused(false, false, num) <==> AllFree(lists) == {}
  {
    hide Union, FreeSets, Coalesced, Within, Distinct, Blocks, Total;
    forall i | 0 <= i < |lists|
      ensures lists[i].runs == [] <==> lists[i].numFree == 0
      ensures lists[i].runs == [] <==> lists[i].Free() == {}
      ensures lists[i].NotEnough(num, false) <==> lists[i].numFree < num
    {
      NoneFree(lists[i], num);
    }
    var sets := FreeSets(lists);
    if lists[c].runs == [] {
      forall b: nat
        ensures b !in Union(sets)
      {
        UnionHas(sets, b);
      }
    } else {
      InUnion(sets, c);
    }
  }

  lemma NoneFree(list: FreeList, num: nat)
    requires list.Valid() && num > 0
    ensures list.runs == [] <==> list.numFree == 0
    ensures list.runs == [] <==> list.Free() == {}
    ensures list.NotEnough(num, false) <==> list.numFree < num
  {
    hide Distinct;
    FreeNonempty(list.runs);
    if list.runs != [] {
      BlocksAt(list.runs, 0, list.runs[0].low);
    }
  }

  lemma NoBlocks(num: nat, unit: nat)
    requires unit > 0 && num * unit == 0
    ensures num == 0
  {}

  lemma EvenPlain(runs: seq<Range>, log: bool, num: nat, fromTail: bool)
    ensures Even(runs, log, num, 1, fromTail)
  {}

  /** An allocation in list c, seen from the device. */
  method TakeFrom(lists: seq<FreeList>, c: nat, big: bool, log: bool, blocks: nat, fromTail: bool)
    returns (n: int, b: nat)
    requires Good(lists) && c < |lists| && 0 < blocks < 0x8000_0000_0000_0000
    modifies lists
    ensures Good(lists) && (n == -ENOSPC || 0 < n <= blocks)
    ensures n < 0 <==> old(lists[c].Refused(big, log, blocks))
    ensures n < 0 ==> unchanged(lists)
    ensures n > 0 ==> 0 < b && Span(Range(b, b + n - 1)) <= old(AllFree(lists))
    ensures n > 0 ==> AllFree(lists) == old(AllFree(lists)) - Span(Range(b, b + n - 1))
    ensures n > 0 ==> lists[c].start <= b && b + n - 1 <= lists[c].end
    ensures n > 0 ==> lists[c].Free() == old(lists[c].Free()) - Span(Range(b, b + n - 1))
    ensures forall i :: 0 <= i < |lists| && i != c ==> lists[i].runs == old(lists[i].runs)
    ensures n > 0 ==> Given(old(lists[c].runs), big, log, blocks, fromTail, n, b)
    ensures n > 0 && big ==> BigGrant(old(lists[c].runs), log, blocks, fromTail, n)
    ensures n > 0 && log && !big && !fromTail && n < blocks ==> b + n - 1 < lists[c].end
    ensures log ==> forall i :: 0 <= i < |lists| ==> lists[i].numNodes <= old(lists[i].numNodes)
  {
    hide Union, FreeSets, FreeList.Free, FreeList.Refused, FreeList.NotEnough, FreeList.Tree, Span, Given, BigGrant;
    ghost var sets := FreeSets(lists);
    HomeBlocks(lists, c);
    forall i | 0 <= i < |lists| && i != c
      ensures lists[i] != lists[c]
    {
      assert if i < c then lists[i] != lists[c] else lists[c] != lists[i];
    }
    lists[c].ShortOfAll(blocks);
    ghost var runs := lists[c].runs;
    n, b := lists[c].AllocBlocks(big, log, blocks, fromTail);
    if n > 0 {
      SpanInside(b, n, sets[c], lists[c].start, lists[c].end);
      if log && !big {
        PlainGiven(runs, log, blocks, fromTail, n, b);
      }
      TakenFrom(lists, sets, c, Span(Range(b, b + n - 1)));
    }
  }

  lemma EvenParts(n: nat, unit: nat)
    requires unit > 0
    ensures (n / unit) * unit == n <==> n % unit == 0
  {
    assert n == (n / unit) * unit + n % unit;
  }

  lemma SpanInside(low: nat, n: nat, free: set<nat>, lo: nat, hi: nat)
    requires n > 0 && Span(Range(low, low + n - 1)) <= free && forall b :: b in free ==> 0 < lo <= b <= hi
    ensures 0 < lo <= low && low + n - 1 <= hi
  {
    assert low in Span(Range(low, low + n - 1)) && low + n - 1 in Span(Range(low, low + n - 1));
  }

  /** Blocks taken from one list are taken from the device. */
  lemma TakenFrom(lists: seq<FreeList>, sets: seq<set<nat>>, c: nat, span: set<nat>)
    requires c < |lists| == |sets| && span <= sets[c] && lists[c].Free() == sets[c] - span
    requires forall i :: 0 <= i < |lists| && i != c ==> lists[i].Free() == sets[i] && sets[i] !! sets[c]
    ensures span <= Union(sets) && AllFree(lists) == Union(sets) - span
  {
    hide Union, FreeSets, FreeList.Free;
    OthersApart(sets, c, span);
    UnionChange(sets, c, span, {});
    InUnion(sets, c);
    assert sets[c] - span + {} == lists[c].Free();
    assert FreeSets(lists) == sets[c := sets[c] - span + {}];
  }

  /** nova_free_blocks, with the list chosen by the block number: a range in use goes back to the free
      set of the device; a refused call changes nothing. */
  method Release(lists: seq<FreeList>, perList: nat, shape: Shape, blocknr: nat, num: int) returns (ret: int)
    requires Good(lists) && perList > 0 && blocknr / perList < |lists|
    requires Over(shape, 0, |lists[blocknr / perList].runs|)
    modifies lists
    ensures ret != 0 ==> unchanged(lists)
    ensures ret == 0 ==> num > 0
    ensures num > 0 && Span(Range(blocknr, blocknr + num - 1)) !! old(AllFree(lists)) ==>
              var list := lists[blocknr / perList];
              ret == if list.start <= blocknr && blocknr + num <= list.end + 1 then 0 else -EIO
    ensures num > 0 && ret == 0 && Span(Range(blocknr, blocknr + num - 1)) !! old(AllFree(lists)) ==>
              Good(lists) && AllFree(lists) == old(AllFree(lists)) + Span(Range(blocknr, blocknr + num - 1))
  {
    hide Union, FreeSets, FreeList.Tree, Span, Caught;
    var c := blocknr / perList;
    ghost var sets := FreeSets(lists);
    InUnion(sets, c);
    ghost var inUse := num > 0 && Span(Range(blocknr, blocknr + num - 1)) !! Union(sets);
    if inUse {
      ListCoalesced(lists[c]);
      FreshNotCaught(lists[c].runs, shape, blocknr, blocknr + num - 1);
    }
    ret := lists[c].FreeBlocks(shape, blocknr, num);
    if ret == 0 && inUse {
      ghost var span := Span(Range(blocknr, blocknr + num - 1));
      UnionChange(sets, c, {}, span);
      forall i | 0 <= i < |lists| && i != c
        ensures lists[i].Free() == sets[i] && lists[i].Valid()
      {
        assert if i < c then lists[i] != lists[c] else lists[c] != lists[i];
      }
      assert lists[c].Free() == sets[c] - {} + span;
      assert FreeSets(lists) == sets[c := sets[c] - {} + span];
    }
  }

  lemma ListCoalesced(list: FreeList)
    requires list.Valid()
    ensures Coalesced(list.runs)
  {}

  lemma HomeBlocks(lists: seq<FreeList>, c: nat)
    requires Good(lists) && c < |lists|
    ensures forall b :: b in lists[c].Free() ==> 0 < lists[c].start <= b <= lists[c].end
    ensures forall i :: 0 <= i < |lists| && i != c ==> lists[i].Free() !! lists[c].Free()
  {
    BlocksBounded(lists[c].runs, lists[c].start, lists[c].end);
    OtherLists(lists, c, lists[c].Free());
  }

  lemma OthersApart(sets: seq<set<nat>>, c: nat, span: set<nat>)
    requires c < |sets| && span <= sets[c] && forall i :: 0 <= i < |sets| && i != c ==> sets[i] !! sets[c]
    ensures forall i :: 0 <= i < |sets| && i != c ==> sets[i] !! span
  {}

  lemma InUnion(sets: seq<set<nat>>, c: nat)
    requires c < |sets|
    ensures sets[c] <= Union(sets)
  {
    forall b: nat | b in sets[c]
      ensures b in Union(sets)
    {
      UnionHas(sets, b);
    }
  }
}
