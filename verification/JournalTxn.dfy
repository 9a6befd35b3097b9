/** Journaled transactions: create, body, commit (journal.c:211-427), and the crash theorem.

    A crash at any primitive of any sequence of transactions leaves an image whose recovery shows
    the data as it was after some whole number of them.
 */
module JournalTxn {
  import opened Pmem
  import opened Journal
  import opened JournalRecovery

  /** The fields a transaction journals (byte offsets, any alignment) and the primitives of its body. */
  datatype Txn = Txn(fields: seq<nat>, body: seq<Op>)

  function FieldWords(fields: seq<nat>): set<nat> {
    set k | 0 <= k < |fields| :: fields[k] / WORD
  }

  /** Every journaled word is durable when the body ends, wherever the body starts from. */
  ghost predicate BodySettles(words: nat, txn: Txn) {
    forall s: State, w :: Pmem.Wf(s) && |s.cache| == words && w in FieldWords(txn.fields) ==>
      Settled(Run(s, txn.body), w)
  }

  ghost predicate ValidTxn(l: Layout, words: nat, txn: Txn) {
    && |txn.fields| < SLOTS
    && (forall w :: w in FieldWords(txn.fields) ==> w < words && l.IsData(w))
    && StoresWithin(txn.body, FieldWords(txn.fields))
    && BodySettles(words, txn)
  }

  /** Between transactions: the journal is empty and everything outside its page is durable. */
  ghost predicate Ready(l: Layout, s: State) {
    && Pmem.Wf(s) && l.Wf(|s.cache|)
    && l.InPage(s.cache[l.HeadW()]) && s.cache[l.TailW()] == s.cache[l.HeadW()]
    && (forall w :: 0 <= w < |s.cache| && !l.IsPageWord(w) ==> Settled(s, w))
  }

  lemma RunNone(s: State)
    requires |s.cache| == |s.may| == |s.wb|
    ensures Run(s, []) == s
  {}

  // ----- appending undo entries -----

  /** nova_append_entry_journal: type, padding, data1, data2 and checksum of one slot. */
  function AppendOps(l: Layout, mem: seq<Word>, p: Word, field: nat): (ops: seq<Op>)
    requires p / WORD + 3 < |mem| && field / WORD < |mem|
    ensures |ops| == 5
  {
    var (e, w) := (UndoEntry(l, mem, field), p / WORD);
    [Store(w, e.kind), Store(w + 3, mem[w + 3] / POW32 * POW32),
     Store(w + 1, e.data1), Store(w + 2, e.data2), Store(w + 3, e.word3)]
  }

  lemma {:induction false} AppendOne(l: Layout, s: State, p: Word, field: nat)
    requires |s.cache| == |s.may| == |s.wb| && p / WORD + 3 < |s.cache| && field / WORD < |s.cache|
    ensures var (s', w) := (Run(s, AppendOps(l, s.cache, p, field)), p / WORD);
            && ReadEntry(s'.cache, p) == UndoEntry(l, s.cache, field)
            && (forall x :: 0 <= x < |s.cache| && !(w <= x < w + 4) ==> s'.cache[x] == s.cache[x])
  {
    hide UndoEntry, Run, Step;
    var (ops, c) := (AppendOps(l, s.cache, p, field), s.cache);
    assert ops[..0] == [] && ops[..5] == ops;
    RunNone(s);
    StoreNext(s, ops, 0);
    StoreNext(s, ops, 1);
    StoreNext(s, ops, 2);
    StoreNext(s, ops, 3);
    StoreNext(s, ops, 4);
  }

  lemma {:induction false} StoreNext(s: State, ops: seq<Op>, i: nat)
    requires |s.cache| == |s.may| == |s.wb| && i < |ops| && ops[i].Store? && ops[i].word < |s.cache|
    ensures Run(s, ops[..i + 1]).cache == Run(s, ops[..i]).cache[ops[i].word := ops[i].value]
  {
    RunExtend(s, ops, i);
  }

  ghost function AppendAllOps(l: Layout, s: State, p: Word, fields: seq<nat>): (ops: seq<Op>)
    requires Pmem.Wf(s) && l.Wf(|s.cache|) && l.InPage(p)
    requires forall w :: w in FieldWords(fields) ==> w < |s.cache|
    ensures StoresWithin(ops, l.PageWords())
  {
    if fields == [] then []
    else
      var n := |fields| - 1;
      assert forall w :: w in FieldWords(fields[..n]) ==> w in FieldWords(fields);
      assert fields[n] / WORD in FieldWords(fields);
      var pre := AppendAllOps(l, s, p, fields[..n]);
      AdvanceSlot(l, p, n);
      SlotWords(l, |s.cache|, Advance(p, n));
      pre + AppendOps(l, Run(s, pre).cache, Advance(p, n), fields[n])
  }

  /** Distinct positions fewer than 128 apart use disjoint words. */
  lemma SlotsDisjoint(l: Layout, p: Word, i: nat, j: nat)
    requires l.pageW % 512 == 0 && l.InPage(p) && i < j < SLOTS
    ensures Advance(p, i) / WORD + 4 <= Advance(p, j) / WORD || Advance(p, j) / WORD + 4 <= Advance(p, i) / WORD
  {
    hide Advance, Layout.InPage, Layout.Page;
    AdvanceSlot(l, p, i);
    AdvanceSlot(l, p, j);
    SlotWordIndex(l, p, i);
    SlotWordIndex(l, p, j);
    RingDistinct(SlotOf(l, p), i, j);
  }

  lemma RingDistinct(a: nat, i: nat, j: nat)
    requires i < j < SLOTS
    ensures (a + i) % SLOTS != (a + j) % SLOTS
  {}

  lemma SlotWordIndex(l: Layout, p: Word, k: nat)
    requires l.pageW % 512 == 0 && l.InPage(p)
    ensures Advance(p, k) / WORD == l.pageW + 4 * ((SlotOf(l, p) + k) % SLOTS)
  {
    AdvanceSlot(l, p, k);
    var m := (SlotOf(l, p) + k) % SLOTS;
    assert Advance(p, k) == WORD * (l.pageW + 4 * m);
  }

  /** Writing slot n keeps the slots before it. */
  lemma StoredExtend(l: Layout, old_: seq<Word>, m1: seq<Word>, m2: seq<Word>, p: Word, fields: seq<nat>)
    requires |old_| == |m1| == |m2| && l.Wf(|m1|) && l.InPage(p) && 0 < |fields| < SLOTS
    requires forall k :: 0 <= k < |fields| ==> fields[k] / WORD < |old_|
    requires Stored(l, old_, m1, p, fields[..|fields| - 1])
    requires var q := Advance(p, |fields| - 1);
             && q / WORD + 3 < |m2| && ReadEntry(m2, q) == UndoEntry(l, old_, fields[|fields| - 1])
             && (forall x :: 0 <= x < |m1| && !(q / WORD <= x < q / WORD + 4) ==> m2[x] == m1[x])
    ensures Stored(l, old_, m2, p, fields)
  {
    hide Layout.InPage, Advance, UndoEntry;
    var n := |fields| - 1;
    forall k | 0 <= k < |fields|
      ensures StoredAt(l, old_, m2, p, fields[k], k)
    {
      if k < n {
        assert StoredAt(l, old_, m1, p, fields[..n][k], k);
        SlotsDisjoint(l, p, k, n);
      }
    }
  }

  lemma {:induction false} AppendAllResult(l: Layout, s: State, p: Word, fields: seq<nat>)
    requires Pmem.Wf(s) && l.Wf(|s.cache|) && l.InPage(p) && |fields| < SLOTS
    requires forall w :: w in FieldWords(fields) ==> w < |s.cache| && l.IsData(w)
    ensures var s' := Run(s, AppendAllOps(l, s, p, fields));
            && (forall w :: 0 <= w < |s.cache| && !l.IsPageWord(w) ==> s'.cache[w] == s.cache[w])
            && Stored(l, s.cache, s'.cache, p, fields)
  {
    hide Layout.InPage, Layout.Wf, Advance, Step, Run, AppendOps, ReadEntry;
    if fields == [] {
      RunNone(s);
    } else {
      var n := |fields| - 1;
      assert forall w :: w in FieldWords(fields[..n]) ==> w in FieldWords(fields);
      assert forall k :: 0 <= k < |fields| ==> fields[k] / WORD in FieldWords(fields);
      AppendAllResult(l, s, p, fields[..n]);
      var pre := AppendAllOps(l, s, p, fields[..n]);
      var (s1, q) := (Run(s, pre), Advance(p, n));
      LayoutFacts(l, |s.cache|);
      AdvanceSlot(l, p, n);
      SlotWords(l, |s.cache|, q);
      RunConcat(s, pre, AppendOps(l, s1.cache, q, fields[n]));
      AppendOne(l, s1, q, fields[n]);
      assert UndoEntry(l, s1.cache, fields[n]) == UndoEntry(l, s.cache, fields[n]);
      StoredExtend(l, s.cache, s1.cache, Run(s1, AppendOps(l, s1.cache, q, fields[n])).cache, p, fields);
    }
  }

  /** Slot k after p holds the undo entry of field k, with the value the field's word has in `old`. */
  ghost predicate Stored(l: Layout, old_: seq<Word>, mem: seq<Word>, p: Word, fields: seq<nat>) {
    forall k :: 0 <= k < |fields| ==> StoredAt(l, old_, mem, p, fields[k], k)
  }

  ghost predicate StoredAt(l: Layout, old_: seq<Word>, mem: seq<Word>, p: Word, field: nat, k: nat) {
    && Advance(p, k) / WORD + 3 < |mem| && field / WORD < |old_|
    && ReadEntry(mem, Advance(p, k)) == UndoEntry(l, old_, field)
  }

  // ----- nova_flush_journal_in_batch -----

  function BatchLines(h: Word, t: Word): seq<Op> {
    if h < t then FlushLines(h, t - h)
    else FlushLines(h, PAGE - h % PAGE) + FlushLines(t / PAGE * PAGE, t % PAGE)
  }

  /** The batch flush reaches every word of every slot from head to tail, wrap-around included. */
  lemma BatchCovers(l: Layout, h: Word, n: nat, k: nat, i: nat)
    requires l.pageW % 512 == 0 && l.InPage(h) && k < n < SLOTS && i < 4
    ensures var lines := BatchLines(h, Advance(h, n));
            exists j :: 0 <= j < |lines| && lines[j].Flush? && InLine(Advance(h, k) / WORD + i, lines[j].byte)
  {
    hide Advance, FlushLines, InLine;
    var (t, a) := (Advance(h, n), SlotOf(l, h));
    AdvanceSlot(l, h, n);
    SlotAddr(l, h);
    SlotWordIndex(l, h, k);
    var m := (a + k) % SLOTS;
    var w := Advance(h, k) / WORD + i;
    var b := l.Page() + ENTRY * m + WORD * i;
    assert b == WORD * w;
    assert l.Page() == PAGE * (l.pageW / 512);
    RingBetween(a, k, n);
    PageOffset(l.pageW / 512, ENTRY * a);
    PageOffset(l.pageW / 512, ENTRY * ((a + n) % SLOTS));
    if h < t {
      assert h <= b < t;
      OneLine(h, t - h, w, b);
      var j :| 0 <= j < |FlushLines(h, t - h)| && FlushLines(h, t - h)[j].Flush?
          && InLine(w, FlushLines(h, t - h)[j].byte);
      assert BatchLines(h, t)[j] == FlushLines(h, t - h)[j];
    } else if m >= a {
      OneLine(h, PAGE - h % PAGE, w, b);
      var lines := FlushLines(h, PAGE - h % PAGE);
      var j :| 0 <= j < |lines| && lines[j].Flush? && InLine(w, lines[j].byte);
      assert BatchLines(h, t)[j] == lines[j];
    } else {
      OneLine(t / PAGE * PAGE, t % PAGE, w, b);
      var lines := FlushLines(t / PAGE * PAGE, t % PAGE);
      var j :| 0 <= j < |lines| && lines[j].Flush? && InLine(w, lines[j].byte);
      assert BatchLines(h, t)[|FlushLines(h, PAGE - h % PAGE)| + j] == lines[j];
    }
  }

  lemma OneLine(buf: nat, len: nat, w: nat, b: nat)
    requires buf <= b < buf + len && b == WORD * w
    ensures exists j :: 0 <= j < |FlushLines(buf, len)|
              && FlushLines(buf, len)[j].Flush? && InLine(w, FlushLines(buf, len)[j].byte)
  {
    assert InLine(w, b);
    FlushLinesCover(buf, len, w);
    var j :| 0 <= j < |FlushLines(buf, len)| && InLine(w, FlushLines(buf, len)[j].byte);
    assert FlushLines(buf, len)[j].Flush?;
  }

  lemma RingBetween(a: nat, k: nat, n: nat)
    requires a < SLOTS && k < n < SLOTS
    ensures var (m, e) := ((a + k) % SLOTS, (a + n) % SLOTS);
            if a < e then a <= m < e else a <= m || m < e
  {}

  lemma {:induction false} BatchHasNoStore(h: Word, t: Word)
    ensures forall j :: 0 <= j < |BatchLines(h, t)| ==> BatchLines(h, t)[j].Flush?
  {}

  // ----- one transaction -----

  ghost function CreateOps(l: Layout, s: State, fields: seq<nat>): (ops: seq<Op>)
    requires Ready(l, s) && forall w :: w in FieldWords(fields) ==> w < |s.cache|
    ensures StoresWithin(ops, l.PageWords())
  {
    var (h, t) := (s.cache[l.HeadW()], Advance(s.cache[l.HeadW()], |fields|));
    AppendAllOps(l, s, h, fields) + BatchLines(h, t) + [Fence]
  }

  /** Publishing the entries, and committing: one pointer store, written back and fenced. */
  function PointerOps(l: Layout, w: nat, value: Word): (ops: seq<Op>) {
    [Store(w, value)] + FlushBuffer(l.Pair(), LINE, true)
  }

  ghost function TxnOps(l: Layout, s: State, txn: Txn): seq<Op>
    requires Ready(l, s) && forall w :: w in FieldWords(txn.fields) ==> w < |s.cache|
  {
    var t := Advance(s.cache[l.HeadW()], |txn.fields|);
    CreateOps(l, s, txn.fields) + PointerOps(l, l.TailW(), t) + txn.body + PointerOps(l, l.HeadW(), t)
  }

  /** All slots from h hold durable undo entries for the values in `old_`. */
  ghost predicate Logged(l: Layout, s: State, h: Word, old_: seq<Word>, fields: seq<nat>) {
    && Stored(l, old_, s.cache, h, fields)
    && (forall k, i {:trigger SlotWord(h, k, i)} :: 0 <= k < |fields| && 0 <= i < 4 ==> Settled(s, SlotWord(h, k, i)))
  }

  function SlotWord(h: Word, k: nat, i: nat): nat {
    Advance(h, k) / WORD + i
  }

  lemma CreateLogs(l: Layout, s: State, fields: seq<nat>)
    requires Ready(l, s) && |fields| < SLOTS
    requires forall w :: w in FieldWords(fields) ==> w < |s.cache| && l.IsData(w)
    ensures Logged(l, Run(s, CreateOps(l, s, fields)), s.cache[l.HeadW()], s.cache, fields)
  {
    hide Layout.InPage, Layout.Wf, Advance, Step, Run, AppendAllOps, BatchLines, ReadEntry, InLine;
    LayoutFacts(l, |s.cache|);
    var h := s.cache[l.HeadW()];
    var t := Advance(h, |fields|);
    var (app, lines) := (AppendAllOps(l, s, h, fields), BatchLines(h, t));
    var tail := lines + [Fence];
    AppendAllResult(l, s, h, fields);
    BatchHasNoStore(h, t);
    var s1 := Run(s, app);
    RunWf(s, app);
    assert CreateOps(l, s, fields) == app + tail;
    RunConcat(s, app, tail);
    FlushKeepsCache(s1, tail);
    forall k, i | 0 <= k < |fields| && 0 <= i < 4
      ensures Settled(Run(s1, tail), SlotWord(h, k, i))
    {
      var w := SlotWord(h, k, i);
      AdvanceSlot(l, h, k);
      SlotWords(l, |s.cache|, Advance(h, k));
      BatchCovers(l, h, |fields|, k, i);
      var j :| 0 <= j < |lines| && lines[j].Flush? && InLine(w, lines[j].byte);
      assert tail[j] == lines[j];
      WriteBackThenFence(s1, tail, w, j, |lines|);
    }
  }

  lemma SlotKept(l: Layout, m1: seq<Word>, m2: seq<Word>, h: Word, k: nat)
    requires |m1| == |m2| && l.Wf(|m1|) && l.InPage(h)
    requires forall w :: 0 <= w < |m1| && l.IsPageWord(w) ==> m2[w] == m1[w]
    ensures Advance(h, k) / WORD + 3 < |m1| && ReadEntry(m2, Advance(h, k)) == ReadEntry(m1, Advance(h, k))
  {
    hide Layout.InPage, Layout.Wf, Layout.IsPageWord, Advance;
    LayoutFacts(l, |m1|);
    AdvanceSlot(l, h, k);
    SlotWords(l, |m1|, Advance(h, k));
  }

  lemma {:induction false} LoggedStays(l: Layout, s: State, ops: seq<Op>, region: set<nat>, h: Word, old_: seq<Word>,
                                       fields: seq<nat>)
    requires Pmem.Wf(s) && l.Wf(|s.cache|) && l.InPage(h) && Logged(l, s, h, old_, fields)
    requires StoresWithin(ops, region) && forall w :: w in region ==> !l.IsPageWord(w)
    ensures Logged(l, Run(s, ops), h, old_, fields)
  {
    hide Layout.InPage, Layout.Wf, Layout.IsPageWord, Advance, Step, Run, Settled, ReadEntry, UndoEntry;
    LayoutFacts(l, |s.cache|);
    RunFrame(s, ops, region);
    forall k, i | 0 <= k < |fields| && 0 <= i < 4
      ensures Settled(Run(s, ops), SlotWord(h, k, i))
    {
      AdvanceSlot(l, h, k);
      SlotWords(l, |s.cache|, Advance(h, k));
      SettledStays(s, ops, SlotWord(h, k, i), region);
    }
    forall k | 0 <= k < |fields|
      ensures StoredAt(l, old_, Run(s, ops).cache, h, fields[k], k)
    {
      assert StoredAt(l, old_, s.cache, h, fields[k], k);
      SlotKept(l, s.cache, Run(s, ops).cache, h, k);
    }
  }

  /** A durable slot reads the same in every crash image. */
  lemma ImageSlot(l: Layout, s: State, image: seq<Word>, h: Word, old_: seq<Word>, fields: seq<nat>, k: nat)
    requires CrashImage(s, image) && |old_| == |image| && |s.cache| == |s.may| && l.Wf(|image|) && l.InPage(h)
    requires Logged(l, s, h, old_, fields) && k < |fields|
    ensures Advance(h, k) / WORD + 3 < |image| && fields[k] / WORD < |old_|
    ensures ReadEntry(image, Advance(h, k)) == UndoEntry(l, old_, fields[k])
  {
    hide Layout.InPage, Layout.Wf, Layout.IsPageWord, Advance, UndoEntry;
    assert StoredAt(l, old_, s.cache, h, fields[k], k);
    assert Settled(s, SlotWord(h, k, 0)) && Settled(s, SlotWord(h, k, 1));
    assert Settled(s, SlotWord(h, k, 2)) && Settled(s, SlotWord(h, k, 3));
  }

  /** A published journal undoes exactly the journaled words, so data outside them must be intact. */
  lemma PublishedRollsBack(l: Layout, s: State, image: seq<Word>, h: Word, old_: seq<Word>, fields: seq<nat>)
    requires CrashImage(s, image) && |old_| == |image| && |s.cache| == |s.may| && l.Wf(|image|) && l.InPage(h)
    requires |fields| < SLOTS && Logged(l, s, h, old_, fields)
    requires forall w :: w in FieldWords(fields) ==> w < |image| && l.IsData(w)
    requires image[l.HeadW()] == h && image[l.TailW()] == Advance(h, |fields|)
    requires forall w :: 0 <= w < |image| && l.IsData(w) && w !in FieldWords(fields) ==> image[w] == old_[w]
    ensures Walkable(l, image) && Recovered(l, image).Some? && l.SameData(Recovered(l, image).value, old_)
  {
    hide Layout.InPage, Layout.Wf, Layout.IsPageWord, Layout.IsData, Layout.HeadW, Layout.TailW, Advance, Distance;
    hide Logged, ReadEntry, UndoEntry;
    LayoutFacts(l, |image|);
    var (n, t) := (|fields|, Advance(h, |fields|));
    AdvanceSlot(l, h, n);
    WalkMeetsTail(l, h, t, n);
    var es := Pending(l, image);
    assert |es| == n;
    forall k | 0 <= k < n
      ensures fields[k] / WORD < |old_| && es[k] == UndoEntry(l, old_, fields[k])
    {
      ImageSlot(l, s, image, h, old_, fields, k);
    }
    assert EntriesFor(l, old_, fields, es);
    RollBack(l, image, old_, fields, es);
  }

  ghost predicate EntriesFor(l: Layout, old_: seq<Word>, fields: seq<nat>, es: seq<Entry>) {
    && |es| == |fields|
    && (forall k {:trigger es[k]} {:trigger fields[k]} :: 0 <= k < |es| ==>
        fields[k] / WORD < |old_| && es[k] == UndoEntry(l, old_, fields[k]))
  }

  lemma RollBack(l: Layout, image: seq<Word>, old_: seq<Word>, fields: seq<nat>, es: seq<Entry>)
    requires |old_| == |image| && l.Wf(|image|) && l.InPage(image[l.HeadW()]) && l.InPage(image[l.TailW()])
    requires es == Pending(l, image) && EntriesFor(l, old_, fields, es)
    requires forall w :: w in FieldWords(fields) ==> w < |image| && l.IsData(w)
    requires forall w :: 0 <= w < |image| && l.IsData(w) && w !in FieldWords(fields) ==> image[w] == old_[w]
    ensures Walkable(l, image) && Recovered(l, image).Some? && l.SameData(Recovered(l, image).value, old_)
  {
    hide Layout.InPage, Layout.Wf, Layout.IsPageWord, Layout.HeadW, Layout.TailW, Pending, Csum;
    LayoutFacts(l, |image|);
    forall k {:trigger es[k]} | 0 <= k < |es|
      ensures Genuine(l, es[k]) && es[k].kind == JOURNAL_ENTRY
      ensures es[k].data1 / WORD == fields[k] / WORD && es[k].data2 == old_[fields[k] / WORD]
    {
      assert es[k] == UndoEntry(l, old_, fields[k]);
      UndoEntryGenuine(l, old_, fields[k]);
    }
    assert Targets(es) == FieldWords(fields) by {
      forall w | w in Targets(es) ensures w in FieldWords(fields) {
        var k :| 0 <= k < |es| && es[k].kind == JOURNAL_ENTRY && es[k].data1 / WORD == w;
        assert fields[k] / WORD == w;
      }
      forall w | w in FieldWords(fields) ensures w in Targets(es) {
        var k :| 0 <= k < |fields| && fields[k] / WORD == w;
        assert es[k].data1 / WORD == w;
      }
    }
    UndoAllElsewhere(image, es);
    forall w | 0 <= w < |image| && w in Targets(es)
      ensures UndoAll(image, es)[w] == old_[w]
    {
      UndoAllAt(image, image, es, w);
    }
  }

  // ----- the crash theorem -----

  /** The image recovers, and to the data of `mem`. */
  ghost predicate RecoversTo(l: Layout, image: seq<Word>, mem: seq<Word>) {
    Walkable(l, image) && Recovered(l, image).Some? && l.SameData(Recovered(l, image).value, mem)
  }

  lemma EmptyJournalKeeps(l: Layout, s: State, image: seq<Word>, mem: seq<Word>)
    requires CrashImage(s, image) && l.Wf(|image|) && |mem| == |image|
    requires l.InPage(image[l.HeadW()]) && image[l.TailW()] == image[l.HeadW()]
    requires forall w :: 0 <= w < |mem| && l.IsData(w) ==> s.may[w] <= {mem[w]}
    ensures RecoversTo(l, image, mem)
  {
    hide Layout.InPage, Layout.Wf, Recovered, Walkable;
    RecoveredEmpty(l, image);
  }

  /** What a pointer can hold while it is being moved. */
  lemma {:induction false} PointerMoves(l: Layout, s: State, w: nat, v: Word, j: nat)
    requires Pmem.Wf(s) && w < |s.cache| && Settled(s, w) && j <= |PointerOps(l, w, v)|
    ensures var s' := Run(s, PointerOps(l, w, v)[..j]);
            && s'.may[w] <= {s.cache[w], v}
            && (forall x :: 0 <= x < |s.cache| && x != w ==> s'.may[x] <= s.may[x])
  {
    hide Run, FlushLines;
    var ops := PointerOps(l, w, v)[..j];
    FlushBufferHasNoStore(l.Pair(), LINE, true);
    RunFrame(s, ops, {w});
    if j == 0 {
      RunNone(s);
    } else {
      RunSplit(s, ops, 1);
      assert ops[..1] == [Store(w, v)];
      RunOne(s, Store(w, v));
      StepWf(s, Store(w, v));
      RunFrame(Step(s, Store(w, v)), ops[1..], {});
    }
  }

  lemma FlushBufferHasNoStore(buf: nat, len: nat, fence: bool)
    ensures forall i :: 0 <= i < |FlushBuffer(buf, len, fence)| ==> !FlushBuffer(buf, len, fence)[i].Store?
  {}

  /** A fenced flush makes every word of its buffer durable. */
  lemma {:induction false} FlushBufferSettles(s: State, buf: nat, len: nat, w: nat)
    requires Pmem.Wf(s) && w < |s.cache| && buf <= WORD * w < buf + len
    ensures Settled(Run(s, FlushBuffer(buf, len, true)), w)
  {
    hide Run, FlushLines, InLine;
    var (flush, n) := (FlushBuffer(buf, len, true), |FlushLines(buf, len)|);
    FlushBufferHasNoStore(buf, len, true);
    OneLine(buf, len, w, WORD * w);
    var i :| 0 <= i < n && FlushLines(buf, len)[i].Flush? && InLine(w, FlushLines(buf, len)[i].byte);
    assert flush[i] == FlushLines(buf, len)[i];
    WriteBackThenFence(s, flush, w, i, n);
  }

  /** A moved pointer is durable. */
  lemma {:induction false} PointerMoved(l: Layout, s: State, w: nat, v: Word)
    requires Pmem.Wf(s) && l.Wf(|s.cache|) && (w == l.HeadW() || w == l.TailW())
    ensures Run(s, PointerOps(l, w, v)).cache == s.cache[w := v] && Settled(Run(s, PointerOps(l, w, v)), w)
  {
    hide Run, FlushLines;
    var flush := FlushBuffer(l.Pair(), LINE, true);
    var s1 := Step(s, Store(w, v));
    RunOne(s, Store(w, v));
    StepWf(s, Store(w, v));
    RunConcat(s, [Store(w, v)], flush);
    FlushBufferHasNoStore(l.Pair(), LINE, true);
    FlushKeepsCache(s1, flush);
    FlushBufferSettles(s1, l.Pair(), LINE, w);
  }

  /** Crash while entries are being written: nothing is published yet. */
  lemma CrashInCreate(l: Layout, s: State, txn: Txn, k: nat, image: seq<Word>)
    requires Ready(l, s) && ValidTxn(l, |s.cache|, txn) && k <= |CreateOps(l, s, txn.fields)|
    requires CrashImage(Run(s, CreateOps(l, s, txn.fields)[..k]), image)
    ensures RecoversTo(l, image, s.cache)
  {
    hide Layout.InPage, Layout.Wf, RecoversTo, CreateOps, Run, Step;
    LayoutFacts(l, |s.cache|);
    var ops := CreateOps(l, s, txn.fields)[..k];
    RunFrame(s, ops, l.PageWords());
    assert forall w :: l.IsData(w) || w == l.HeadW() || w == l.TailW() ==> w !in l.PageWords();
    assert Settled(s, l.HeadW()) && Settled(s, l.TailW());
    EmptyJournalKeeps(l, Run(s, ops), image, s.cache);
  }

  /** The state once the entries are durable. */
  lemma AfterCreate(l: Layout, s: State, txn: Txn)
    requires Ready(l, s) && ValidTxn(l, |s.cache|, txn)
    ensures var s1 := Run(s, CreateOps(l, s, txn.fields));
            && Pmem.Wf(s1) && Logged(l, s1, s.cache[l.HeadW()], s.cache, txn.fields)
            && (forall w :: 0 <= w < |s.cache| && !l.IsPageWord(w) ==> Settled(s1, w) && s1.cache[w] == s.cache[w])
  {
    hide Layout.InPage, Layout.Wf, CreateOps, Run, Step, Logged;
    CreateLogs(l, s, txn.fields);
    var ops := CreateOps(l, s, txn.fields);
    RunFrame(s, ops, l.PageWords());
    forall w | 0 <= w < |s.cache| && !l.IsPageWord(w)
      ensures Settled(Run(s, ops), w)
    {
      SettledStays(s, ops, w, l.PageWords());
    }
  }

  /** Crash while the tail moves: the old tail shows an empty journal, the new one undoes nothing
      but unchanged words. */
  lemma CrashInPublish(l: Layout, s: State, txn: Txn, j: nat, image: seq<Word>)
    requires Ready(l, s) && ValidTxn(l, |s.cache|, txn)
    requires var t := Advance(s.cache[l.HeadW()], |txn.fields|);
             && j <= |PointerOps(l, l.TailW(), t)|
             && CrashImage(Run(Run(s, CreateOps(l, s, txn.fields)), PointerOps(l, l.TailW(), t)[..j]), image)
    ensures RecoversTo(l, image, s.cache)
  {
    hide Layout.InPage, Layout.Wf, CreateOps, Run, Step, Logged, Walkable, Recovered, Advance;
    LayoutFacts(l, |s.cache|);
    var (h, s1) := (s.cache[l.HeadW()], Run(s, CreateOps(l, s, txn.fields)));
    var t := Advance(h, |txn.fields|);
    var ops := PointerOps(l, l.TailW(), t)[..j];
    AfterCreate(l, s, txn);
    PointerMoves(l, s1, l.TailW(), t, j);
    LoggedStays(l, s1, ops, {l.TailW()}, h, s.cache, txn.fields);
    var s' := Run(s1, ops);
    assert Settled(s1, l.HeadW()) && Settled(s1, l.TailW());
    assert forall w :: 0 <= w < |s.cache| && l.IsData(w) ==> s'.may[w] <= {s.cache[w]};
    if image[l.TailW()] == h {
      EmptyJournalKeeps(l, s', image, s.cache);
    } else {
      PublishedRollsBack(l, s', image, h, s.cache, txn.fields);
    }
  }

  /** Once published: head at h, tail at t, entries durable, data durable and unchanged. */
  lemma AfterPublish(l: Layout, s: State, txn: Txn)
    requires Ready(l, s) && ValidTxn(l, |s.cache|, txn)
    ensures var (h, t) := (s.cache[l.HeadW()], Advance(s.cache[l.HeadW()], |txn.fields|));
            var s2 := Run(Run(s, CreateOps(l, s, txn.fields)), PointerOps(l, l.TailW(), t));
            && Pmem.Wf(s2) && Logged(l, s2, h, s.cache, txn.fields)
            && Settled(s2, l.HeadW()) && s2.cache[l.HeadW()] == h && Settled(s2, l.TailW()) && s2.cache[l.TailW()] == t
            && (forall w :: 0 <= w < |s.cache| && l.IsData(w) ==> Settled(s2, w) && s2.cache[w] == s.cache[w])
  {
    hide Layout.InPage, Layout.Wf, CreateOps, Run, Step, Logged, Advance;
    LayoutFacts(l, |s.cache|);
    var (h, s1) := (s.cache[l.HeadW()], Run(s, CreateOps(l, s, txn.fields)));
    var t := Advance(h, |txn.fields|);
    var ops := PointerOps(l, l.TailW(), t);
    AfterCreate(l, s, txn);
    RunWf(s1, ops);
    PointerMoved(l, s1, l.TailW(), t);
    LoggedStays(l, s1, ops, {l.TailW()}, h, s.cache, txn.fields);
    forall w | 0 <= w < |s.cache| && !l.IsPageWord(w) && w != l.TailW()
      ensures Settled(Run(s1, ops), w)
    {
      SettledStays(s1, ops, w, {l.TailW()});
    }
  }

  ghost function Published(l: Layout, s: State, txn: Txn): (r: State)
    requires Ready(l, s) && forall w :: w in FieldWords(txn.fields) ==> w < |s.cache|
    ensures |r.cache| == |r.may| == |r.wb| == |s.cache|
  {
    Run(Run(s, CreateOps(l, s, txn.fields)), PointerOps(l, l.TailW(), Advance(s.cache[l.HeadW()], |txn.fields|)))
  }

  /** Crash in the body: whatever the journaled words hold, they are rolled back. */
  lemma CrashInBody(l: Layout, s: State, txn: Txn, j: nat, image: seq<Word>)
    requires Ready(l, s) && ValidTxn(l, |s.cache|, txn)
    requires j <= |txn.body| && CrashImage(Run(Published(l, s, txn), txn.body[..j]), image)
    ensures RecoversTo(l, image, s.cache)
  {
    hide Layout.InPage, Layout.Wf, CreateOps, Run, Step, Logged, Walkable, Recovered, Advance, BodySettles;
    LayoutFacts(l, |s.cache|);
    AfterPublish(l, s, txn);
    var (s2, h, ops) := (Published(l, s, txn), s.cache[l.HeadW()], txn.body[..j]);
    RunFrame(s2, ops, FieldWords(txn.fields));
    LoggedStays(l, s2, ops, FieldWords(txn.fields), h, s.cache, txn.fields);
    PublishedRollsBack(l, Run(s2, ops), image, h, s.cache, txn.fields);
  }

  /** The state when the body has ended: pointers as published, journaled words durable. */
  lemma AfterBody(l: Layout, s: State, txn: Txn)
    requires Ready(l, s) && ValidTxn(l, |s.cache|, txn)
    ensures var (h, t) := (s.cache[l.HeadW()], Advance(s.cache[l.HeadW()], |txn.fields|));
            var s3 := Run(Published(l, s, txn), txn.body);
            && Pmem.Wf(s3) && Logged(l, s3, h, s.cache, txn.fields)
            && s3.cache[l.HeadW()] == h && s3.cache[l.TailW()] == t
            && (forall w :: 0 <= w < |s.cache| && !l.IsPageWord(w) ==> Settled(s3, w))
            && (forall w :: 0 <= w < |s.cache| && l.IsData(w) && w !in FieldWords(txn.fields) ==>
                s3.cache[w] == s.cache[w])
  {
    hide Layout.InPage, Layout.Wf, CreateOps, Run, Step, Logged, Advance;
    LayoutFacts(l, |s.cache|);
    AfterPublish(l, s, txn);
    var (s2, h) := (Published(l, s, txn), s.cache[l.HeadW()]);
    RunFrame(s2, txn.body, FieldWords(txn.fields));
    LoggedStays(l, s2, txn.body, FieldWords(txn.fields), h, s.cache, txn.fields);
    forall w | 0 <= w < |s.cache| && !l.IsPageWord(w)
      ensures Settled(Run(s2, txn.body), w)
    {
      if w !in FieldWords(txn.fields) {
        SettledStays(s2, txn.body, w, FieldWords(txn.fields));
      }
    }
  }

  /** Crash while the head moves: the old head rolls back, the new head keeps the body's effect. */
  lemma CrashInCommit(l: Layout, s: State, txn: Txn, j: nat, image: seq<Word>)
    requires Ready(l, s) && ValidTxn(l, |s.cache|, txn)
    requires var t := Advance(s.cache[l.HeadW()], |txn.fields|);
             && j <= |PointerOps(l, l.HeadW(), t)|
             && CrashImage(Run(Run(Published(l, s, txn), txn.body), PointerOps(l, l.HeadW(), t)[..j]), image)
    ensures RecoversTo(l, image, s.cache) || RecoversTo(l, image, Run(Published(l, s, txn), txn.body).cache)
  {
    hide Layout.InPage, Layout.Wf, CreateOps, Run, Step, Logged, Walkable, Recovered, Advance, BodySettles, Published;
    LayoutFacts(l, |s.cache|);
    AfterBody(l, s, txn);
    var (h, s3) := (s.cache[l.HeadW()], Run(Published(l, s, txn), txn.body));
    var t := Advance(h, |txn.fields|);
    var ops := PointerOps(l, l.HeadW(), t)[..j];
    PointerMoves(l, s3, l.HeadW(), t, j);
    LoggedStays(l, s3, ops, {l.HeadW()}, h, s.cache, txn.fields);
    var s' := Run(s3, ops);
    assert forall w :: 0 <= w < |s.cache| && l.IsData(w) ==> s'.may[w] <= {s3.cache[w]};
    assert Settled(s3, l.TailW());
    AdvanceSlot(l, h, |txn.fields|);
    if image[l.HeadW()] == t {
      EmptyJournalKeeps(l, s', image, s3.cache);
    } else {
      PublishedRollsBack(l, s', image, h, s.cache, txn.fields);
    }
  }

  /** A finished transaction has its body's data and leaves the journal ready for the next one. */
  lemma TxnCompletes(l: Layout, s: State, txn: Txn)
    requires Ready(l, s) && ValidTxn(l, |s.cache|, txn)
    ensures Ready(l, Run(s, TxnOps(l, s, txn)))
    ensures l.SameData(Run(s, TxnOps(l, s, txn)).cache, Run(Published(l, s, txn), txn.body).cache)
  {
    hide Layout.InPage, Layout.Wf, CreateOps, Run, Step, Logged, Advance, BodySettles, Settled;
    LayoutFacts(l, |s.cache|);
    AfterBody(l, s, txn);
    var s3 := Run(Published(l, s, txn), txn.body);
    var t := Advance(s.cache[l.HeadW()], |txn.fields|);
    var ops := PointerOps(l, l.HeadW(), t);
    AdvanceSlot(l, s.cache[l.HeadW()], |txn.fields|);
    RunWf(s3, ops);
    PointerMoved(l, s3, l.HeadW(), t);
    FlushBufferHasNoStore(l.Pair(), LINE, true);
    forall w | 0 <= w < |s.cache| && !l.IsPageWord(w) && w != l.HeadW()
      ensures Settled(Run(s3, ops), w)
    {
      SettledStays(s3, ops, w, {l.HeadW()});
    }
    TxnStages(l, s, txn);
  }

  lemma TxnStages(l: Layout, s: State, txn: Txn)
    requires Ready(l, s) && forall w :: w in FieldWords(txn.fields) ==> w < |s.cache|
    ensures var t := Advance(s.cache[l.HeadW()], |txn.fields|);
            Run(s, TxnOps(l, s, txn)) == Run(Run(Published(l, s, txn), txn.body), PointerOps(l, l.HeadW(), t))
  {
    hide Layout.Wf, Layout.InPage, Settled, Run, Step, CreateOps, PointerOps, Advance;
    LayoutFacts(l, |s.cache|);
    var t := Advance(s.cache[l.HeadW()], |txn.fields|);
    var (a, b, c, d) := (CreateOps(l, s, txn.fields), PointerOps(l, l.TailW(), t), txn.body,
                                   PointerOps(l, l.HeadW(), t));
    RunConcat(s, a + b + c, d);
    RunConcat(s, a + b, c);
    RunConcat(s, a, b);
  }

  /** The crash theorem for one transaction: at every primitive, recovery shows the data from before
      the transaction or the data its body produced, never a mixture. */
  lemma TxnAtomic(l: Layout, s: State, txn: Txn, k: nat, image: seq<Word>)
    requires Ready(l, s) && ValidTxn(l, |s.cache|, txn) && k <= |TxnOps(l, s, txn)|
    requires CrashImage(Run(s, TxnOps(l, s, txn)[..k]), image)
    ensures RecoversTo(l, image, s.cache) || RecoversTo(l, image, Run(s, TxnOps(l, s, txn)).cache)
  {
    hide Layout.Wf, Layout.InPage, Settled, BodySettles, StoresWithin, Run, Step, CreateOps, PointerOps, Advance;
    hide RecoversTo, Layout.IsData, CrashImage;
    LayoutFacts(l, |s.cache|);
    var t := Advance(s.cache[l.HeadW()], |txn.fields|);
    var (a, b, c, d) := (CreateOps(l, s, txn.fields), PointerOps(l, l.TailW(), t), txn.body,
                                   PointerOps(l, l.HeadW(), t));
    var ops := TxnOps(l, s, txn)[..k];
    if k <= |a| {
      assert ops == a[..k];
      CrashInCreate(l, s, txn, k, image);
    } else if k <= |a| + |b| {
      assert ops == a + b[..k - |a|];
      RunConcat(s, a, b[..k - |a|]);
      CrashInPublish(l, s, txn, k - |a|, image);
    } else if k <= |a| + |b| + |c| {
      var j := k - |a| - |b|;
      assert ops == (a + b) + c[..j];
      RunConcat(s, a + b, c[..j]);
      RunConcat(s, a, b);
      CrashInBody(l, s, txn, j, image);
    } else {
      var j := k - |a| - |b| - |c|;
      assert ops == (a + b + c) + d[..j];
      RunConcat(s, a + b + c, d[..j]);
      RunConcat(s, a + b, c);
      RunConcat(s, a, b);
      CrashInCommit(l, s, txn, j, image);
      TxnCompletes(l, s, txn);
      if !RecoversTo(l, image, s.cache) {
        SameDataRecovers(l, image, Run(Published(l, s, txn), txn.body).cache, Run(s, TxnOps(l, s, txn)).cache);
      }
    }
  }

  lemma SameDataRecovers(l: Layout, image: seq<Word>, a: seq<Word>, b: seq<Word>)
    requires RecoversTo(l, image, a) && l.SameData(b, a)
    ensures RecoversTo(l, image, b)
  {}

  // ----- whole histories -----

  ghost predicate ValidHistory(l: Layout, words: nat, txns: seq<Txn>) {
    forall i {:trigger txns[i]} :: 0 <= i < |txns| ==> ValidTxn(l, words, txns[i])
  }

  ghost function HistoryOps(l: Layout, s: State, txns: seq<Txn>): (ops: seq<Op>)
    requires Ready(l, s) && ValidHistory(l, |s.cache|, txns)
    ensures Ready(l, Run(s, ops))
  {
    if txns == [] then RunNone(s); []
    else
      var n := |txns| - 1;
      var pre := HistoryOps(l, s, txns[..n]);
      assert txns[n] == txns[n];
      TxnCompletes(l, Run(s, pre), txns[n]);
      RunConcat(s, pre, TxnOps(l, Run(s, pre), txns[n]));
      pre + TxnOps(l, Run(s, pre), txns[n])
  }

  /** The data after the first j transactions. */
  ghost function DataAfter(l: Layout, s: State, txns: seq<Txn>, j: nat): seq<Word>
    requires Ready(l, s) && ValidHistory(l, |s.cache|, txns) && j <= |txns|
  {
    Run(s, HistoryOps(l, s, txns[..j])).cache
  }

  /** How many transactions are over when the first k primitives of a history are. */
  ghost function Completed(l: Layout, s: State, txns: seq<Txn>, k: nat): (j: nat)
    requires Ready(l, s) && ValidHistory(l, |s.cache|, txns)
    ensures j <= |txns|
  {
    hide Ready, Run, ValidTxn, HistoryOps;
    if txns == [] then 0
    else if |HistoryOps(l, s, txns)| <= k then |txns|
    else Completed(l, s, txns[..|txns| - 1], k)
  }

  /** It is: their primitives are among the k, and those of the next transaction are not. */
  lemma {:induction false} CompletedIs(l: Layout, s: State, txns: seq<Txn>, k: nat)
    requires Ready(l, s) && ValidHistory(l, |s.cache|, txns)
    ensures var j := Completed(l, s, txns, k);
            |HistoryOps(l, s, txns[..j])| <= k && (j < |txns| ==> k < |HistoryOps(l, s, txns[..j + 1])|)
  {
    hide Ready, Run, ValidTxn, HistoryOps;
    assert txns[..|txns|] == txns;
    if txns == [] {
      NoOps(l, s);
    } else if |HistoryOps(l, s, txns)| > k {
      var n := |txns| - 1;
      CompletedIs(l, s, txns[..n], k);
      var j := Completed(l, s, txns[..n], k);
      assert txns[..n][..j] == txns[..j];
      assert j < n ==> txns[..n][..j + 1] == txns[..j + 1];
    }
  }

  lemma NoOps(l: Layout, s: State)
    requires Ready(l, s)
    ensures HistoryOps(l, s, []) == []
  {}

  /** The data after the transactions that were over at the crash, or after one more. */
  ghost predicate KeepsFinished(l: Layout, s: State, txns: seq<Txn>, k: nat, image: seq<Word>)
    requires Ready(l, s) && ValidHistory(l, |s.cache|, txns)
  {
    var j := Completed(l, s, txns, k);
    RecoversTo(l, image, DataAfter(l, s, txns, j)) || (j < |txns| && RecoversTo(l, image, DataAfter(l, s, txns, j + 1)))
  }

  /** A crash at any primitive of any history recovers to the data after every transaction that was over, and
      possibly the one under way, whole. */
  lemma {:induction false} HistoryAtomic(l: Layout, s: State, txns: seq<Txn>, k: nat, image: seq<Word>)
    requires Ready(l, s) && ValidHistory(l, |s.cache|, txns) && k <= |HistoryOps(l, s, txns)|
    requires CrashImage(Run(s, HistoryOps(l, s, txns)[..k]), image)
    ensures KeepsFinished(l, s, txns, k, image)
  {
    hide Layout.Wf, Layout.InPage, Settled, BodySettles, StoresWithin, Run, Step, RecoversTo, CrashImage, TxnOps;
    var all := HistoryOps(l, s, txns);
    assert txns[..|txns|] == txns;
    if k == |all| {
      assert all[..k] == all;
      IdleKeeps(l, Run(s, all), image);
      if txns == [] {
        RunNone(s);
      }
    } else {
      var n := |txns| - 1;
      var rest := txns[..n];
      var pre := HistoryOps(l, s, rest);
      var j := Completed(l, s, rest, k);
      assert rest[..j] == txns[..j] && (j < n ==> rest[..j + 1] == txns[..j + 1]);
      assert Completed(l, s, txns, k) == j;
      if k <= |pre| {
        assert all[..k] == pre[..k];
        HistoryAtomic(l, s, rest, k, image);
      } else {
        assert rest[..n] == rest;
        CrashInLast(l, s, txns, k, image);
      }
    }
  }

  /** A crash after the last transaction has begun. */
  lemma CrashInLast(l: Layout, s: State, txns: seq<Txn>, k: nat, image: seq<Word>)
    requires Ready(l, s) && ValidHistory(l, |s.cache|, txns) && txns != []
    requires |HistoryOps(l, s, txns[..|txns| - 1])| < k <= |HistoryOps(l, s, txns)|
    requires CrashImage(Run(s, HistoryOps(l, s, txns)[..k]), image)
    ensures var n := |txns| - 1;
            RecoversTo(l, image, DataAfter(l, s, txns, n)) || RecoversTo(l, image, DataAfter(l, s, txns, n + 1))
  {
    hide Layout.Wf, Layout.InPage, Settled, BodySettles, StoresWithin, Run, Step, RecoversTo, CrashImage, TxnOps;
    var n := |txns| - 1;
    var pre := HistoryOps(l, s, txns[..n]);
    assert txns[n] == txns[n];
    var s' := Run(s, pre);
    var ops := TxnOps(l, s', txns[n]);
    assert txns[..n + 1] == txns;
    assert HistoryOps(l, s, txns)[..k] == pre + ops[..k - |pre|];
    RunConcat(s, pre, ops[..k - |pre|]);
    RunConcat(s, pre, ops);
    TxnAtomic(l, s', txns[n], k - |pre|, image);
  }

  lemma IdleKeeps(l: Layout, s: State, image: seq<Word>)
    requires Ready(l, s) && CrashImage(s, image)
    ensures RecoversTo(l, image, s.cache)
  {
    hide Layout.InPage, Layout.Wf, RecoversTo;
    LayoutFacts(l, |s.cache|);
    assert Settled(s, l.HeadW()) && Settled(s, l.TailW());
    EmptyJournalKeeps(l, s, image, s.cache);
  }

  /** A crash anywhere in a history, then recovery interrupted any number of times (`clflush`): the last image still
      recovers to the data after every transaction that was over, and possibly the one under way. */
  lemma CrashThenRecovery(l: Layout, s: State, txns: seq<Txn>, k: nat, images: seq<seq<Word>>)
    requires Ready(l, s) && ValidHistory(l, |s.cache|, txns) && k <= |HistoryOps(l, s, txns)|
    requires |images| > 0 && CrashImage(Run(s, HistoryOps(l, s, txns)[..k]), images[0])
    requires InterruptedRecovery(l, images)
    ensures KeepsFinished(l, s, txns, k, images[|images| - 1])
  {
    hide Ready, ValidHistory, Walkable, Recovered, Run, CrashImage, InterruptedRecovery, HistoryOps, DataAfter;
    hide Layout.SameData;
    HistoryAtomic(l, s, txns, k, images[0]);
    RecoveryIdempotent(l, images);
  }
}
