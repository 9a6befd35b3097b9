/** The lite journal (journal.c): a circular one-page undo log per CPU.

    A transaction copies the words it is about to change into the journal, publishes them by moving
    the journal tail, changes the words in place, and commits by moving the journal head. Recovery
    copies the entries between head and tail back.
 */
module Journal {
  import opened Options
  import opened Pmem

  const PAGE := 4096
  const ENTRY := 32
  const SLOTS := 128
  const POW32 := 0x1_0000_0000
  const JOURNAL_ENTRY := 2

  /** One CPU's journal: the word holding its head (the tail follows, both in one cache line), the
      first word of its page, and the checksum of an entry's first 28 bytes, which is left arbitrary. */
  datatype Layout = Layout(pairW: nat, pageW: nat, crc: (Word, Word, Word, Word) -> Word) {
    function HeadW(): nat { pairW }
    function TailW(): nat { pairW + 1 }

    /** Byte offsets of the pair and of the page. */
    function Pair(): nat { WORD * pairW }
    function Page(): nat { WORD * pageW }

    predicate Wf(words: nat) {
      && pairW % 8 == 0 && pageW % 512 == 0 && pageW > 0
      && pairW + 8 <= words && pageW + 512 <= words
      && (pairW + 8 <= pageW || pageW + 512 <= pairW)
    }

    predicate InPage(p: Word) {
      Page() <= p < Page() + PAGE && p % ENTRY == 0
    }

    predicate IsPageWord(w: nat) {
      pageW <= w < pageW + 512
    }

    /** Words that are neither journal entries nor the head/tail pair: file system data. */
    predicate IsData(w: nat) {
      !IsPageWord(w) && w != HeadW() && w != TailW()
    }

    ghost predicate SameData(a: seq<Word>, b: seq<Word>) {
      |a| == |b| && forall w :: 0 <= w < |a| && IsData(w) ==> a[w] == b[w]
    }

    function PageWords(): set<nat> {
      set w | pageW <= w < pageW + 512 && IsPageWord(w)
    }
  }

  // ----- the ring of slots -----

  /** next_lite_journal */
  function Next(p: Word): Word {
    if p % PAGE + ENTRY >= PAGE then p / PAGE * PAGE else p + ENTRY
  }

  function Advance(p: Word, k: nat): Word {
    if k == 0 then p else Next(Advance(p, k - 1))
  }

  function SlotOf(l: Layout, p: Word): nat
    requires l.InPage(p)
  {
    (p - l.Page()) / ENTRY
  }

  lemma SlotAddr(l: Layout, p: Word)
    requires l.pageW % 512 == 0 && l.InPage(p)
    ensures p == l.Page() + ENTRY * SlotOf(l, p) && SlotOf(l, p) < SLOTS
  {
    var (q, m) := (l.pageW / 512, p / ENTRY);
    assert l.pageW == 512 * q;
    var i := m - SLOTS * q;
    assert p - l.Page() == ENTRY * i;
    assert (ENTRY * i) / ENTRY == i;
  }

  lemma PageOffset(q: nat, r: nat)
    requires r < PAGE
    ensures (PAGE * q + r) / PAGE == q && (PAGE * q + r) % PAGE == r
  {}

  lemma NextSlot(l: Layout, p: Word)
    requires l.pageW % 512 == 0 && l.InPage(p)
    ensures l.InPage(Next(p)) && SlotOf(l, Next(p)) == (SlotOf(l, p) + 1) % SLOTS
  {
    var (q, i) := (l.pageW / 512, SlotOf(l, p));
    SlotAddr(l, p);
    assert l.Page() == PAGE * q;
    PageOffset(q, ENTRY * i);
    var next := if i == SLOTS - 1 then 0 else i + 1;
    assert next == (i + 1) % SLOTS;
    assert Next(p) == l.Page() + ENTRY * next;
    assert Next(p) == ENTRY * (SLOTS * q + next);
  }

  /** Moving k slots from p lands k places further round the ring of 128. */
  lemma {:induction false} AdvanceSlot(l: Layout, p: Word, k: nat)
    requires l.pageW % 512 == 0 && l.InPage(p)
    ensures l.InPage(Advance(p, k)) && SlotOf(l, Advance(p, k)) == (SlotOf(l, p) + k) % SLOTS
    ensures Advance(p, k) == l.Page() + ENTRY * ((SlotOf(l, p) + k) % SLOTS)
  {
    hide Next, Layout.InPage;
    if k > 0 {
      AdvanceSlot(l, p, k - 1);
      NextSlot(l, Advance(p, k - 1));
      RingSuccessor(SlotOf(l, p) + k - 1);
    } else {
      SlotAddr(l, p);
    }
    SlotAddr(l, Advance(p, k));
  }

  lemma RingSuccessor(i: nat)
    ensures (i % SLOTS + 1) % SLOTS == (i + 1) % SLOTS
  {}

  function Distance(l: Layout, h: Word, t: Word): nat
    requires l.InPage(h) && l.InPage(t)
  {
    (SlotOf(l, t) + SLOTS - SlotOf(l, h)) % SLOTS
  }

  /** The walk `while (temp != tail) temp = next(temp)` meets the tail after Distance steps and not
      before; in particular 128 entries would look like none. */
  lemma {:induction false} WalkMeetsTail(l: Layout, h: Word, t: Word, k: nat)
    requires l.pageW % 512 == 0 && l.InPage(h) && l.InPage(t)
    ensures Advance(h, k) == t <==> k % SLOTS == Distance(l, h, t)
  {
    AdvanceSlot(l, h, k);
    RingDistance(SlotOf(l, h), SlotOf(l, t), k);
    SlotAddr(l, h);
    SlotAddr(l, t);
    var (i, j) := (SlotOf(l, h), SlotOf(l, t));
    assert Advance(h, k) == t <==> (i + k) % SLOTS == j;
  }

  lemma RingDistance(i: nat, j: nat, k: nat)
    requires i < SLOTS && j < SLOTS
    ensures (i + k) % SLOTS == j <==> k % SLOTS == (j + SLOTS - i) % SLOTS
  {
    var (q, r) := (k / SLOTS, k % SLOTS);
    assert i + k == SLOTS * q + (i + r);
    assert (i + k) % SLOTS == if i + r < SLOTS then i + r else i + r - SLOTS;
  }

  // ----- entries -----

  datatype Entry = Entry(kind: Word, data1: Word, data2: Word, word3: Word)

  function Csum(l: Layout, kind: Word, data1: Word, data2: Word, padding: Word): Word {
    l.crc(kind, data1, data2, padding) % POW32
  }

  /** nova_check_entry_integrity */
  predicate Genuine(l: Layout, e: Entry) {
    e.word3 / POW32 == Csum(l, e.kind, e.data1, e.data2, e.word3 % POW32)
  }

  function ReadEntry(mem: seq<Word>, p: Word): Entry
    requires p / WORD + 3 < |mem|
  {
    Entry(mem[p / WORD], mem[p / WORD + 1], mem[p / WORD + 2], mem[p / WORD + 3])
  }

  function ReadEntries(l: Layout, mem: seq<Word>, p: Word, n: nat): (es: seq<Entry>)
    requires l.Wf(|mem|) && l.InPage(p)
    ensures |es| == n
  {
    seq(n, k requires 0 <= k => AdvanceSlot(l, p, k); ReadEntry(mem, Advance(p, k)))
  }

  function Align(field: nat): nat {
    field / WORD * WORD
  }

  /** The undo entry for the word that holds a field. */
  function UndoEntry(l: Layout, mem: seq<Word>, field: nat): Entry
    requires field / WORD < |mem|
  {
    var (a, v) := (Align(field), mem[field / WORD]);
    Entry(JOURNAL_ENTRY, a, v, Csum(l, JOURNAL_ENTRY, a, v, 0) * POW32)
  }

  lemma UndoEntryGenuine(l: Layout, mem: seq<Word>, field: nat)
    requires field / WORD < |mem|
    ensures Genuine(l, UndoEntry(l, mem, field))
  {}

  // ----- recovery -----

  predicate Undoes(e: Entry, w: nat) {
    e.kind == JOURNAL_ENTRY && e.data1 / WORD == w
  }

  function UndoOne(mem: seq<Word>, e: Entry): (r: seq<Word>)
    ensures |r| == |mem|
  {
    if e.kind == JOURNAL_ENTRY && e.data1 / WORD < |mem| then mem[e.data1 / WORD := e.data2] else mem
  }

  function UndoAll(mem: seq<Word>, es: seq<Entry>): (r: seq<Word>)
    ensures |r| == |mem|
  {
    if es == [] then mem else UndoOne(UndoAll(mem, es[..|es| - 1]), es[|es| - 1])
  }

  function Targets(es: seq<Entry>): set<nat> {
    set k | 0 <= k < |es| && es[k].kind == JOURNAL_ENTRY :: es[k].data1 / WORD
  }

  function Pending(l: Layout, mem: seq<Word>): (es: seq<Entry>)
    requires l.Wf(|mem|) && l.InPage(mem[l.HeadW()]) && l.InPage(mem[l.TailW()])
  {
    ReadEntries(l, mem, mem[l.HeadW()], Distance(l, mem[l.HeadW()], mem[l.TailW()]))
  }

  /** A journal that recovery can walk: the pointers lie in the page, and entries name data words. */
  ghost predicate Walkable(l: Layout, mem: seq<Word>) {
    && l.Wf(|mem|) && l.InPage(mem[l.HeadW()]) && l.InPage(mem[l.TailW()])
    && (forall w :: w in Targets(Pending(l, mem)) ==> w < |mem| && l.IsData(w))
  }

  /** What mounting makes of an image: nothing if an entry's checksum is wrong (the mount fails),
      else the image with the pending entries copied back and the journal emptied. */
  ghost function Recovered(l: Layout, mem: seq<Word>): (r: Option<seq<Word>>)
    requires Walkable(l, mem)
    ensures r.Some? ==> |r.value| == |mem|
  {
    var es := Pending(l, mem);
    if exists k :: 0 <= k < |es| && !Genuine(l, es[k]) then None
    else Some(UndoAll(mem, es)[l.TailW() := mem[l.HeadW()]])
  }

  /** An entry is damaged where its checksum shows it: its checksum changed, or its other 28 bytes did and the
      checksum function tells the two apart. */
  predicate Damaged(l: Layout, e: Entry, bad: Entry) {
    var (pad, badPad) := (e.word3 % POW32, bad.word3 % POW32);
    if e.word3 / POW32 != bad.word3 / POW32
    then (e.kind, e.data1, e.data2, pad) == (bad.kind, bad.data1, bad.data2, badPad)
    else l.crc(e.kind, e.data1, e.data2, pad) % POW32 != l.crc(bad.kind, bad.data1, bad.data2, badPad) % POW32
  }

  /** A journal with a damaged entry is refused, whichever entry it is and whichever part of it. */
  lemma DamageRefused(l: Layout, mem: seq<Word>, bad: seq<Word>, k: nat)
    requires Walkable(l, mem) && Walkable(l, bad) && Recovered(l, mem).Some?
    requires k < |Pending(l, mem)| && k < |Pending(l, bad)| && Damaged(l, Pending(l, mem)[k], Pending(l, bad)[k])
    ensures Recovered(l, bad) == None
  {
    hide Pending, UndoAll, Layout.InPage, Layout.IsData;
    assert Genuine(l, Pending(l, mem)[k]);
    assert !Genuine(l, Pending(l, bad)[k]);
  }

  lemma {:induction false} UndoAllEffect(a: seq<Word>, b: seq<Word>, es: seq<Entry>)
    requires |a| == |b|
    requires forall w :: 0 <= w < |a| && w !in Targets(es) ==> a[w] == b[w]
    ensures UndoAll(a, es) == UndoAll(b, es)
    ensures forall w :: 0 <= w < |a| && w !in Targets(es) ==> UndoAll(a, es)[w] == a[w]
  {
    UndoAllElsewhere(a, es);
    UndoAllElsewhere(b, es);
    forall w | w in Targets(es) && w < |a|
      ensures UndoAll(a, es)[w] == UndoAll(b, es)[w]
    {
      UndoAllAt(a, b, es, w);
    }
  }

  lemma {:induction false} UndoAllElsewhere(mem: seq<Word>, es: seq<Entry>)
    ensures forall w :: 0 <= w < |mem| && w !in Targets(es) ==> UndoAll(mem, es)[w] == mem[w]
  {
    if es != [] {
      var rest := es[..|es| - 1];
      UndoAllElsewhere(mem, rest);
      assert forall w :: w in Targets(rest) ==> w in Targets(es);
      assert es[|es| - 1].kind == JOURNAL_ENTRY ==> es[|es| - 1].data1 / WORD in Targets(es);
    }
  }

  /** The last entry for a word decides it, whatever was there before. */
  lemma {:induction false} UndoAllAt(a: seq<Word>, b: seq<Word>, es: seq<Entry>, w: nat)
    requires |a| == |b| && w < |a| && w in Targets(es)
    ensures UndoAll(a, es)[w] == UndoAll(b, es)[w]
    ensures exists k :: 0 <= k < |es| && Undoes(es[k], w) && UndoAll(a, es)[w] == es[k].data2
  {
    var n := |es| - 1;
    var rest := es[..n];
    if Undoes(es[n], w) {
      assert UndoAll(a, es)[w] == es[n].data2;
    } else {
      assert w in Targets(rest);
      UndoAllAt(a, b, rest, w);
      var k :| 0 <= k < |rest| && Undoes(rest[k], w) && UndoAll(a, rest)[w] == rest[k].data2;
      assert Undoes(es[k], w) && UndoAll(a, es)[w] == es[k].data2;
    }
  }

  function UndoEntryOps(e: Entry): seq<Op> {
    if e.kind == JOURNAL_ENTRY
    then [Store(e.data1 / WORD, e.data2)] + FlushLines(e.data1, LINE)
    else []
  }

  function UndoOps(es: seq<Entry>): seq<Op> {
    if es == [] then [] else UndoOps(es[..|es| - 1]) + UndoEntryOps(es[|es| - 1])
  }

  function TailReset(l: Layout, head: Word): seq<Op> {
    [Store(l.TailW(), head)] + FlushBuffer(l.Pair(), LINE, true)
  }

  /** The primitives nova_recover_lite_journal issues on an image. */
  function RecoverOps(l: Layout, mem: seq<Word>): seq<Op>
    requires Walkable(l, mem)
  {
    UndoOps(Pending(l, mem)) + TailReset(l, mem[l.HeadW()])
  }

  lemma {:induction false} UndoOpsStores(es: seq<Entry>)
    ensures StoresWithin(UndoOps(es), Targets(es))
    ensures forall i :: 0 <= i < |UndoOps(es)| ==> !UndoOps(es)[i].Fence?
  {
    if es != [] {
      UndoOpsStores(es[..|es| - 1]);
      assert forall w :: w in Targets(es[..|es| - 1]) ==> w in Targets(es);
      assert es[|es| - 1].kind == JOURNAL_ENTRY ==> es[|es| - 1].data1 / WORD in Targets(es);
    }
  }

  lemma {:induction false} UndoOpsCache(s: State, es: seq<Entry>)
    requires Pmem.Wf(s)
    ensures Run(s, UndoOps(es)).cache == UndoAll(s.cache, es)
  {
    if es != [] {
      var (rest, e) := (es[..|es| - 1], es[|es| - 1]);
      UndoOpsCache(s, rest);
      RunConcat(s, UndoOps(rest), UndoEntryOps(e));
      var s1 := Run(s, UndoOps(rest));
      if e.kind == JOURNAL_ENTRY {
        RunConcat(s1, [Store(e.data1 / WORD, e.data2)], FlushLines(e.data1, LINE));
        RunOne(s1, Store(e.data1 / WORD, e.data2));
        FlushKeepsCache(Run(s1, [Store(e.data1 / WORD, e.data2)]), FlushLines(e.data1, LINE));
      }
    }
  }

  lemma {:induction false} FlushKeepsCache(s: State, ops: seq<Op>)
    requires |s.cache| == |s.may| == |s.wb| && forall i :: 0 <= i < |ops| ==> !ops[i].Store?
    ensures Run(s, ops).cache == s.cache
  {
    if ops != [] {
      FlushKeepsCache(s, ops[..|ops| - 1]);
    }
  }
}
