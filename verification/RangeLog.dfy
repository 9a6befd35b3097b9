/** Range nodes saved at unmount and read back at mount (bbuild.c): 254 nodes to a page, block ranges
    found again by their block number, inode ranges by the CPU number in their top byte. */
module RangeLog {
  import opened Ranges

  const PER_PAGE := 254                        // RANGENODE_PER_PAGE
  const CPU_UNIT := 0x100_0000_0000_0000       // 1 << 56

  datatype Entry = Entry(low: nat, high: nat)

  /** How a kind of range tells its CPU: blocks by number, inodes by a tag. */
  datatype Kind = ByBlock(perList: nat) | ByTag

  /** nova_append_range_node_entry */
  function Encode(kind: Kind, cpu: nat, r: Range): Entry {
    match kind
    case ByBlock(_) => Entry(r.low, r.high)
    case ByTag => Entry(r.low + cpu * CPU_UNIT, r.high)
  }

  /** get_block_cpuid, or the top byte of the low end. */
  function CpuOf(kind: Kind, e: Entry): nat
    requires kind.ByBlock? ==> kind.perList > 0
  {
    match kind
    case ByBlock(perList) => e.low / perList
    case ByTag => e.low / CPU_UNIT
  }

  function Decode(kind: Kind, e: Entry): Range {
    match kind
    case ByBlock(_) => Range(e.low, e.high)
    case ByTag => Range(e.low % CPU_UNIT, e.high)
  }

  /** The range can be told to belong to its CPU. */
  predicate Tellable(kind: Kind, cpu: nat, r: Range) {
    match kind
    case ByBlock(perList) => perList > 0 && r.low / perList == cpu
    case ByTag => r.low < CPU_UNIT && cpu < 256
  }

  lemma DecodeEncode(kind: Kind, cpu: nat, r: Range)
    requires Tellable(kind, cpu, r)
    ensures CpuOf(kind, Encode(kind, cpu, r)) == cpu && Decode(kind, Encode(kind, cpu, r)) == r
    ensures kind.ByTag? ==> Encode(kind, cpu, r).low < 256 * CPU_UNIT
  {}

  predicate AllTellable(kind: Kind, lists: seq<seq<Range>>) {
    forall c, i :: 0 <= c < |lists| && 0 <= i < |lists[c]| ==> Tellable(kind, c, lists[c][i])
  }

  // ----- the saved sequence -----

  function EncodeList(kind: Kind, cpu: nat, nodes: seq<Range>): (out: seq<Entry>)
    ensures |out| == |nodes|
  {
    if nodes == [] then [] else EncodeList(kind, cpu, nodes[..|nodes| - 1]) + [Encode(kind, cpu, nodes[|nodes| - 1])]
  }

  function EncodeAll(kind: Kind, lists: seq<seq<Range>>): seq<Entry> {
    if lists == [] then []
    else EncodeAll(kind, lists[..|lists| - 1]) + EncodeList(kind, |lists| - 1, lists[|lists| - 1])
  }

  function Count(lists: seq<seq<Range>>): nat {
    if lists == [] then 0 else Count(lists[..|lists| - 1]) + |lists[|lists| - 1]|
  }

  lemma {:induction false} EncodeCount(kind: Kind, lists: seq<seq<Range>>)
    ensures |EncodeAll(kind, lists)| == Count(lists)
  {
    if lists != [] {
      EncodeCount(kind, lists[..|lists| - 1]);
    }
  }

  /** Reading entries back: each goes to the end of its CPU's list. */
  function Put(kind: Kind, lists: seq<seq<Range>>, e: Entry): (out: seq<seq<Range>>)
    requires kind.ByBlock? ==> kind.perList > 0
    ensures |out| == |lists|
  {
    var c := CpuOf(kind, e);
    if c < |lists| then lists[c := lists[c] + [Decode(kind, e)]] else lists
  }

  function Distribute(kind: Kind, cpus: nat, entries: seq<Entry>): (out: seq<seq<Range>>)
    requires kind.ByBlock? ==> kind.perList > 0
    ensures |out| == cpus
  {
    if entries == [] then seq(cpus, _ => [])
    else Put(kind, Distribute(kind, cpus, entries[..|entries| - 1]), entries[|entries| - 1])
  }

  lemma DistributeMore(kind: Kind, cpus: nat, entries: seq<Entry>, e: Entry)
    requires kind.ByBlock? ==> kind.perList > 0
    ensures Distribute(kind, cpus, entries + [e]) == Put(kind, Distribute(kind, cpus, entries), e)
  {
    assert (entries + [e])[..|entries|] == entries;
  }

  /** The first k lists, the rest empty. */
  function Upto(lists: seq<seq<Range>>, k: nat): seq<seq<Range>>
    requires k <= |lists|
  {
    seq(|lists|, c requires 0 <= c < |lists| => if c < k then lists[c] else [])
  }

  /** Reading back one list after those before it. */
  lemma {:induction false} DistributeList(kind: Kind, lists: seq<seq<Range>>, k: nat, n: nat, before: seq<Entry>)
    requires k < |lists| && n <= |lists[k]| && AllTellable(kind, lists) && (kind.ByBlock? ==> kind.perList > 0)
    requires Distribute(kind, |lists|, before) == Upto(lists, k)
    ensures Distribute(kind, |lists|, before + EncodeList(kind, k, lists[k][..n])) == Upto(lists, k)[k := lists[k][..n]]
    decreases n
  {
    hide Distribute, Put, Encode, Upto, Tellable, CpuOf, Decode;
    var nodes := lists[k][..n];
    UptoSize(lists, k);
    if n == 0 {
      assert before + EncodeList(kind, k, nodes) == before;
    } else {
      var (init, r) := (lists[k][..n - 1], lists[k][n - 1]);
      DistributeList(kind, lists, k, n - 1, before);
      assert nodes[..n - 1] == init && Tellable(kind, k, r);
      DistributeMore(kind, |lists|, before + EncodeList(kind, k, init), Encode(kind, k, r));
      assert before + EncodeList(kind, k, nodes) == before + EncodeList(kind, k, init) + [Encode(kind, k, r)];
      PutAt(kind, Upto(lists, k), k, init, r);
      assert init + [r] == nodes;
    }
  }

  lemma UptoSize(lists: seq<seq<Range>>, k: nat)
    requires k <= |lists|
    ensures |Upto(lists, k)| == |lists|
    ensures (k < |lists| ==> Upto(lists, k)[k] == [] && Upto(lists, k)[k := []] == Upto(lists, k))
  {}

  lemma PutAt(kind: Kind, lists: seq<seq<Range>>, k: nat, init: seq<Range>, r: Range)
    requires k < |lists| && Tellable(kind, k, r) && (kind.ByBlock? ==> kind.perList > 0)
    ensures Put(kind, lists[k := init], Encode(kind, k, r)) == lists[k := init + [r]]
  {
    DecodeEncode(kind, k, r);
  }

  lemma DistributeNone(kind: Kind, lists: seq<seq<Range>>)
    requires kind.ByBlock? ==> kind.perList > 0
    ensures Distribute(kind, |lists|, EncodeAll(kind, lists[..0])) == Upto(lists, 0)
  {}

  lemma {:induction false} DistributeUpto(kind: Kind, lists: seq<seq<Range>>, k: nat)
    requires k <= |lists| && AllTellable(kind, lists) && (kind.ByBlock? ==> kind.perList > 0)
    ensures Distribute(kind, |lists|, EncodeAll(kind, lists[..k])) == Upto(lists, k)
  {
    hide Distribute, Put, EncodeList, AllTellable;
    if k == 0 {
      DistributeNone(kind, lists);
    } else {
      DistributeUpto(kind, lists, k - 1);
      DistributeList(kind, lists, k - 1, |lists[k - 1]|, EncodeAll(kind, lists[..k - 1]));
      assert lists[..k][..k - 1] == lists[..k - 1] && lists[k - 1][..|lists[k - 1]|] == lists[k - 1];
      assert Upto(lists, k - 1)[k - 1 := lists[k - 1]] == Upto(lists, k);
    }
  }

  /** Saved lists read back as they were. */
  lemma RoundTrip(kind: Kind, lists: seq<seq<Range>>)
    requires AllTellable(kind, lists) && (kind.ByBlock? ==> kind.perList > 0)
    ensures Distribute(kind, |lists|, EncodeAll(kind, lists)) == lists
  {
    DistributeUpto(kind, lists, |lists|);
    assert lists[..|lists|] == lists && Upto(lists, |lists|) == lists;
  }

  // ----- pages -----

  function Flat(pages: seq<seq<Entry>>): seq<Entry> {
    if pages == [] then [] else Flat(pages[..|pages| - 1]) + pages[|pages| - 1]
  }

  /** Pages before the tail page are full, pages after it are not used. */
  predicate Filled(pages: seq<seq<Entry>>, p: nat) {
    && p < |pages| && |pages[p]| <= PER_PAGE && (p > 0 ==> pages[p] != [])
    && (forall k :: 0 <= k < p ==> |pages[k]| == PER_PAGE)
    && (forall k :: p < k < |pages| ==> pages[k] == [])
  }

  lemma {:induction false} FlatFull(pages: seq<seq<Entry>>, n: nat)
    requires n <= |pages| && forall k :: 0 <= k < n ==> |pages[k]| == PER_PAGE
    ensures |Flat(pages[..n])| == PER_PAGE * n
  {
    if n > 0 {
      FlatFull(pages, n - 1);
      assert pages[..n][..n - 1] == pages[..n - 1];
    }
  }

  lemma {:induction false} FlatEmpty(pages: seq<seq<Entry>>, p: nat, n: nat)
    requires p < n <= |pages| && forall k :: p < k < |pages| ==> pages[k] == []
    ensures Flat(pages[..n]) == Flat(pages[..p]) + pages[p]
  {
    assert pages[..n][..n - 1] == pages[..n - 1];
    if n > p + 1 {
      FlatEmpty(pages, p, n - 1);
    }
  }

  lemma FlatTail(pages: seq<seq<Entry>>, p: nat)
    requires Filled(pages, p)
    ensures Flat(pages) == Flat(pages[..p]) + pages[p] && |Flat(pages)| == PER_PAGE * p + |pages[p]|
  {
    FlatEmpty(pages, p, |pages|);
    FlatFull(pages, p);
    assert pages[..|pages|] == pages;
  }

  /** One node is written behind the others; it does not fit only if every page is full. */
  lemma FlatAppend(pages: seq<seq<Entry>>, p: nat, e: Entry)
    requires Filled(pages, p) && |Flat(pages)| < PER_PAGE * |pages|
    ensures var q := if |pages[p]| == PER_PAGE then p + 1 else p;
            && q < |pages| && |pages[q]| < PER_PAGE
            && var out := pages[q := pages[q] + [e]]; Filled(out, q) && Flat(out) == Flat(pages) + [e]
  {
    hide Flat;
    FlatTail(pages, p);
    var q := if |pages[p]| == PER_PAGE then p + 1 else p;
    var out := pages[q := pages[q] + [e]];
    FlatTail(out, q);
    assert out[..q] == pages[..q];
    if q == p + 1 {
      FlatPrefix(pages, p);
    }
  }

  lemma FlatPrefix(pages: seq<seq<Entry>>, p: nat)
    requires p < |pages|
    ensures Flat(pages[..p + 1]) == Flat(pages[..p]) + pages[p]
  {
    assert pages[..p + 1][..p] == pages[..p];
  }

  /** nova_save_blocknode_mappings_to_log and nova_save_inode_list_to_log: pages for 254 nodes each always
      suffice, whatever the number of pages more than that. */
  method Save(kind: Kind, lists: seq<seq<Range>>, numPages: nat) returns (pages: seq<seq<Entry>>, tail: nat)
    requires 0 < numPages && Count(lists) <= PER_PAGE * numPages
    ensures |pages| == numPages && Filled(pages, tail) && Flat(pages) == EncodeAll(kind, lists)
  {
    hide Flat, Filled, EncodeList, EncodeAll, Count;
    pages, tail := seq(numPages, _ => []), 0;
    NothingSaved(kind, lists, numPages);
    for c := 0 to |lists|
      invariant |pages| == numPages && Filled(pages, tail) && Flat(pages) == EncodeAll(kind, lists[..c])
    {
      SaveStart(kind, lists, c);
      for i := 0 to |lists[c]|
        invariant |pages| == numPages && Filled(pages, tail)
        invariant Flat(pages) == EncodeAll(kind, lists[..c]) + EncodeList(kind, c, lists[c][..i])
      {
        SaveRoom(kind, lists, c, i);
        var e := Encode(kind, c, lists[c][i]);
        FlatAppend(pages, tail, e);
        TailPage(pages, tail);
        if |pages[tail]| == PER_PAGE {
          tail := tail + 1;
        }
        pages := pages[tail := pages[tail] + [e]];
      }
      SaveEnd(kind, lists, c);
    }
    assert lists[..|lists|] == lists;
  }

  lemma TailPage(pages: seq<seq<Entry>>, p: nat)
    requires Filled(pages, p)
    ensures p < |pages|
  {}

  lemma NothingSaved(kind: Kind, lists: seq<seq<Range>>, n: nat)
    requires n > 0
    ensures var pages: seq<seq<Entry>> := seq(n, _ => []);
            Filled(pages, 0) && Flat(pages) == [] == EncodeAll(kind, lists[..0])
  {
    var pages: seq<seq<Entry>> := seq(n, _ => []);
    FlatTail(pages, 0);
  }

  lemma SaveStart(kind: Kind, lists: seq<seq<Range>>, c: nat)
    requires c < |lists|
    ensures EncodeList(kind, c, lists[c][..0]) == []
  {}

  lemma SaveEnd(kind: Kind, lists: seq<seq<Range>>, c: nat)
    requires c < |lists|
    ensures EncodeAll(kind, lists[..c + 1]) == EncodeAll(kind, lists[..c]) + EncodeList(kind, c, lists[c][..|lists[c]|])
  {
    assert lists[..c + 1][..c] == lists[..c] && lists[c][..|lists[c]|] == lists[c];
  }

  lemma SaveRoom(kind: Kind, lists: seq<seq<Range>>, c: nat, i: nat)
    requires c < |lists| && i < |lists[c]|
    ensures |EncodeAll(kind, lists[..c]) + EncodeList(kind, c, lists[c][..i])| < Count(lists)
    ensures EncodeList(kind, c, lists[c][..i + 1]) ==
              EncodeList(kind, c, lists[c][..i]) + [Encode(kind, c, lists[c][i])]
  {
    EncodeCount(kind, lists[..c]);
    assert lists[c][..i + 1][..i] == lists[c][..i];
    CountUpto(lists, c);
  }

  lemma {:induction false} CountUpto(lists: seq<seq<Range>>, c: nat)
    requires c < |lists|
    ensures Count(lists[..c]) + |lists[c]| <= Count(lists)
    decreases |lists|
  {
    var n := |lists| - 1;
    if c < n {
      CountUpto(lists[..n], c);
      assert lists[..n][..c] == lists[..c];
    }
  }

  /** nova_init_blockmap_from_inode and nova_init_inode_list_from_inode: every entry up to the tail goes to
      its CPU's list. */
  method Load(kind: Kind, cpus: nat, pages: seq<seq<Entry>>, tail: nat) returns (lists: seq<seq<Range>>)
    requires Filled(pages, tail) && (kind.ByBlock? ==> kind.perList > 0)
    ensures lists == Distribute(kind, cpus, Flat(pages))
  {
    hide Distribute, Put;
    lists := seq(cpus, _ => []);
    NothingLoaded(kind, cpus, pages, lists);
    FlatTail(pages, tail);
    var page, slot := 0, 0;
    while !(page == tail && slot == |pages[tail]|)
      invariant page <= tail && slot <= |pages[page]| && |lists| == cpus
      invariant lists == Distribute(kind, cpus, Flat(pages[..page]) + pages[page][..slot])
      decreases tail - page, PER_PAGE - slot
    {
      if slot == PER_PAGE {
        FlatPrefix(pages, page);
        assert pages[page][..slot] == pages[page];
        page, slot := page + 1, 0;
        assert Flat(pages[..page]) + pages[page][..0] == Flat(pages[..page]);
      }
      var e := pages[page][slot];
      DistributeMore(kind, cpus, Flat(pages[..page]) + pages[page][..slot], e);
      assert Flat(pages[..page]) + pages[page][..slot] + [e] == Flat(pages[..page]) + pages[page][..slot + 1];
      lists := Put(kind, lists, e);
      slot := slot + 1;
    }
    assert pages[page][..slot] == pages[page];
  }

  lemma NothingLoaded(kind: Kind, cpus: nat, pages: seq<seq<Entry>>, lists: seq<seq<Range>>)
    requires pages != [] && |lists| == cpus && (forall c :: 0 <= c < cpus ==> lists[c] == [])
    requires (kind.ByBlock? ==> kind.perList > 0)
    ensures lists == Distribute(kind, cpus, Flat(pages[..0]) + pages[0][..0])
  {}

  /** Unmount and mount: what is saved is read back, list by list. */
  method SaveAndLoad(kind: Kind, lists: seq<seq<Range>>, numPages: nat) returns (back: seq<seq<Range>>)
    requires AllTellable(kind, lists) && (kind.ByBlock? ==> kind.perList > 0)
    requires 0 < numPages && Count(lists) <= PER_PAGE * numPages
    ensures back == lists
  {
    hide Flat, Filled, EncodeAll, Distribute, AllTellable, Count;
    var pages, tail := Save(kind, lists, numPages);
    back := Load(kind, |lists|, pages, tail);
    RoundTrip(kind, lists);
  }
}
