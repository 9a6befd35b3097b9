/** The journal code itself, driving a device one primitive at a time. Each method issues exactly the
    primitives of its specification, so the crash theorems speak about every point it can stop at. */
module JournalImpl {
  import opened Pmem
  import opened Journal
  import opened JournalRecovery
  import opened JournalTxn

  class LiteJournal {
    const l: Layout
    const dev: Device

    constructor (l: Layout, dev: Device)
      ensures this.l == l && this.dev == dev
    {
      this.l := l;
      this.dev := dev;
    }

    /** nova_append_entry_journal */
    method AppendEntry(p: Word, field: nat) returns (next: Word)
      requires dev.Valid() && p / WORD + 3 < |dev.st.cache| && field / WORD < |dev.st.cache|
      modifies dev
      ensures dev.Valid() && next == Next(p)
      ensures dev.ops == old(dev.ops) + AppendOps(l, old(dev.st.cache), p, field)
    {
      hide Run, Step, Csum, Next;
      var w := p / WORD;
      var mem := dev.st.cache;
      var aligned := field / WORD * WORD;
      ghost var before := dev.ops;
      dev.Issue(Store(w, JOURNAL_ENTRY));
      dev.Issue(Store(w + 3, mem[w + 3] / POW32 * POW32));
      dev.Issue(Store(w + 1, aligned));
      dev.Issue(Store(w + 2, mem[field / WORD]));
      dev.Issue(Store(w + 3, Csum(l, JOURNAL_ENTRY, aligned, mem[field / WORD], 0) * POW32));
      assert dev.ops == before + AppendOps(l, mem, p, field);
      next := Next(p);
    }

    /** nova_flush_journal_in_batch */
    method FlushInBatch(head: Word, tail: Word)
      requires dev.Valid()
      modifies dev
      ensures dev.Valid() && dev.ops == old(dev.ops) + BatchLines(head, tail) + [Fence]
    {
      hide Run, Step, FlushLines;
      if head < tail {
        dev.DoFlushBuffer(head, tail - head, false);
      } else {
        dev.DoFlushBuffer(head, PAGE - head % PAGE, false);
        dev.DoFlushBuffer(tail / PAGE * PAGE, tail % PAGE, false);
      }
      dev.Issue(Fence);
    }

    method MovePointer(w: nat, value: Word)
      requires dev.Valid()
      modifies dev
      ensures dev.Valid() && dev.ops == old(dev.ops) + PointerOps(l, w, value)
    {
      dev.Issue(Store(w, value));
      dev.DoFlushBuffer(l.Pair(), LINE, true);
    }

    method AppendAll(head: Word, fields: seq<nat>) returns (tail: Word)
      requires dev.Valid() && l.Wf(|dev.st.cache|) && l.InPage(head)
      requires forall w :: w in FieldWords(fields) ==> w < |dev.st.cache|
      modifies dev
      ensures dev.Valid() && tail == Advance(head, |fields|)
      ensures dev.ops == old(dev.ops) + AppendAllOps(l, old(dev.st), head, fields)
    {
      hide Layout.InPage, Layout.Wf, Advance, Run, Step, AppendAllOps, FieldWords, AppendOps, Next;
      ghost var (s, before) := (dev.st, dev.ops);
      ghost var done := [];
      tail := head;
      AdvanceZero(head);
      AppendNone(l, s, head);
      RunNone(s);
      for i := 0 to |fields|
        invariant dev.Valid() && tail == Advance(head, i)
        invariant FieldsInRange(fields[..i], |s.cache|) && done == AppendAllOps(l, s, head, fields[..i])
        invariant dev.ops == before + done && dev.st == Run(s, done)
      {
        AppendMore(l, s, head, fields, i);
        ghost var one := AppendOps(l, dev.st.cache, tail, fields[i]);
        tail := AppendEntry(tail, fields[i]);
        assert before + done + one == before + (done + one);
        RunConcat(s, done, one);
        RunConcat(dev.initial, before, done + one);
        done := done + one;
      }
      assert fields[..|fields|] == fields;
    }

    /** The three nova_create_*_transaction functions, which differ only in the fields they append. */
    method Create(fields: seq<nat>) returns (tail: Word)
      requires dev.Valid() && Ready(l, dev.st)
      requires forall w :: w in FieldWords(fields) ==> w < |dev.st.cache|
      modifies dev
      ensures dev.Valid() && tail == Advance(old(dev.st.cache)[l.HeadW()], |fields|)
      ensures dev.ops == old(dev.ops) + (CreateOps(l, old(dev.st), fields) + PointerOps(l, l.TailW(), tail))
    {
      hide Layout.InPage, Advance, Run, Step, AppendAllOps, FieldWords, PointerOps, BatchLines;
      var head := dev.st.cache[l.HeadW()];
      ghost var (s, before) := (dev.st, dev.ops);
      tail := AppendAll(head, fields);
      ghost var all := AppendAllOps(l, s, head, fields);
      FlushInBatch(head, tail);
      MovePointer(l.TailW(), tail);
      assert dev.ops == before + all + BatchLines(head, tail) + [Fence] + PointerOps(l, l.TailW(), tail);
    }

    /** nova_commit_lite_transaction */
    method Commit(tail: Word)
      requires dev.Valid() && l.Wf(|dev.st.cache|) && dev.st.cache[l.TailW()] == tail
      modifies dev
      ensures dev.Valid() && dev.ops == old(dev.ops) + PointerOps(l, l.HeadW(), tail)
    {
      MovePointer(l.HeadW(), tail);
    }

    /** A whole transaction issues exactly TxnOps, so TxnAtomic covers every point in it. */
    method Transaction(txn: Txn)
      requires dev.Valid() && Ready(l, dev.st) && ValidTxn(l, |dev.st.cache|, txn)
      modifies dev
      ensures dev.Valid() && Ready(l, dev.st) && dev.ops == old(dev.ops) + TxnOps(l, old(dev.st), txn)
    {
      hide Layout.InPage, Settled, ValidTxn, CreateOps, PointerOps, Advance, Run, Step, Layout.IsData, FieldWords;
      TxnFields(l, |dev.st.cache|, txn);
      ghost var (s, before) := (dev.st, dev.ops);
      var tail := Create(txn.fields);
      ghost var create := CreateOps(l, s, txn.fields) + PointerOps(l, l.TailW(), tail);
      for i := 0 to |txn.body|
        invariant dev.Valid() && dev.ops == before + create + txn.body[..i]
      {
        dev.Issue(txn.body[i]);
        assert txn.body[..i + 1] == txn.body[..i] + [txn.body[i]];
      }
      assert txn.body[..|txn.body|] == txn.body;
      assert before + create + txn.body == before + (create + txn.body);
      RunConcat(dev.initial, before, create + txn.body);
      RunConcat(s, create, txn.body);
      RunConcat(s, CreateOps(l, s, txn.fields), PointerOps(l, l.TailW(), tail));
      AfterBody(l, s, txn);
      Commit(tail);
      ghost var ops := TxnOps(l, s, txn);
      assert dev.ops == before + ops;
      RunConcat(dev.initial, before, ops);
      TxnCompletes(l, s, txn);
    }

    /** nova_check_journal_entries */
    method CheckEntries() returns (ok: bool)
      requires dev.Valid() && Walkable(l, dev.st.cache)
      ensures ok <==> Recovered(l, dev.st.cache).Some?
    {
      hide Layout.InPage, Advance, Next, Genuine, UndoAll, ReadEntry, Pending, Distance;
      var mem := dev.st.cache;
      var (head, tail) := (mem[l.HeadW()], mem[l.TailW()]);
      ghost var (es, n) := (Pending(l, mem), Distance(l, head, tail));
      var temp := head;
      ghost var k := 0;
      AdvanceZero(head);
      PendingLength(l, mem);
      while temp != tail
        invariant k <= n && temp == Advance(head, k)
        invariant forall i :: 0 <= i < k ==> Genuine(l, es[i])
        decreases n - k
      {
        WalkStep(l, head, tail, k);
        PendingAt(l, mem, k);
        var e := ReadEntry(mem, temp);
        if !Genuine(l, e) {
          return false;
        }
        temp := Next(temp);
        k := k + 1;
      }
      WalkEnd(l, head, tail, k);
      return true;
    }

    /** nova_recover_lite_journal */
    method Recover()
      requires dev.Valid() && Walkable(l, dev.st.cache)
      modifies dev
      ensures dev.Valid() && dev.ops == old(dev.ops) + RecoverOps(l, old(dev.st.cache))
    {
      hide Layout.InPage, Advance, Next, Run, Step, Pending, Distance, UndoEntryOps, UndoOps;
      ghost var (before, mem, s) := (dev.ops, dev.st.cache, dev.st);
      var (head, tail) := (dev.st.cache[l.HeadW()], dev.st.cache[l.TailW()]);
      ghost var (es, n) := (Pending(l, mem), Distance(l, head, tail));
      var temp := head;
      ghost var k := 0;
      AdvanceZero(head);
      PendingLength(l, mem);
      UndoNone(es);
      while temp != tail
        invariant dev.Valid() && k <= n && temp == Advance(head, k)
        invariant |dev.st.cache| == |mem| && forall w :: 0 <= w < |mem| && l.IsPageWord(w) ==> dev.st.cache[w] == mem[w]
        invariant dev.ops == before + UndoOps(es[..k])
        decreases n - k
      {
        WalkStep(l, head, tail, k);
        PendingAt(l, mem, k);
        SlotWords(l, |mem|, temp);
        var e := ReadEntry(dev.st.cache, temp);
        assert e == es[k];
        UndoEntry(e);
        UndoMore(es, k);
        assert dev.ops == before + UndoOps(es[..k + 1]);
        PageKept(before, mem, s, es, k + 1);
        temp := Next(temp);
        k := k + 1;
      }
      WalkEnd(l, head, tail, k);
      assert es[..k] == es;
      MovePointer(l.TailW(), head);
    }

    method UndoEntry(e: Entry)
      requires dev.Valid()
      modifies dev
      ensures dev.Valid() && dev.ops == old(dev.ops) + UndoEntryOps(e)
    {
      if e.kind == JOURNAL_ENTRY {
        dev.Issue(Store(e.data1 / WORD, e.data2));
        dev.DoFlushBuffer(e.data1, LINE, false);
      }
    }

    lemma PageKept(before: seq<Op>, mem: seq<Word>, s: State, es: seq<Entry>, k: nat)
      requires Walkable(l, mem) && es == Pending(l, mem) && k <= |es|
      requires Pmem.Wf(dev.initial) && Pmem.Wf(s) && s == Run(dev.initial, before) && s.cache == mem
      ensures var s' := Run(dev.initial, before + UndoOps(es[..k]));
              |s'.cache| == |mem| && forall w :: 0 <= w < |mem| && l.IsPageWord(w) ==> s'.cache[w] == mem[w]
    {
      hide Layout.InPage, Advance, Run, Step;
      RunConcat(dev.initial, before, UndoOps(es[..k]));
      UndoOpsStores(es[..k]);
      assert forall w :: w in Targets(es[..k]) ==> w in Targets(es);
      RunFrame(s, UndoOps(es[..k]), Targets(es[..k]));
      LayoutFacts(l, |mem|);
    }
  }

  ghost predicate FieldsInRange(fields: seq<nat>, words: nat) {
    forall w :: w in FieldWords(fields) ==> w < words
  }

  lemma FieldsPrefix(fields: seq<nat>, i: nat, words: nat)
    requires i <= |fields| && FieldsInRange(fields, words)
    ensures FieldsInRange(fields[..i], words)
  {
    assert FieldWords(fields[..i]) <= FieldWords(fields);
  }

  lemma TxnFields(l: Layout, words: nat, txn: Txn)
    requires ValidTxn(l, words, txn)
    ensures forall w :: w in FieldWords(txn.fields) ==> w < words
  {}

  lemma AppendNone(l: Layout, s: State, p: Word)
    requires Pmem.Wf(s) && l.Wf(|s.cache|) && l.InPage(p)
    ensures FieldsInRange([], |s.cache|) && AppendAllOps(l, s, p, []) == []
  {}

  lemma AppendMore(l: Layout, s: State, p: Word, fields: seq<nat>, i: nat)
    requires Pmem.Wf(s) && l.Wf(|s.cache|) && l.InPage(p) && i < |fields|
    requires FieldsInRange(fields, |s.cache|)
    ensures FieldsInRange(fields[..i], |s.cache|) && FieldsInRange(fields[..i + 1], |s.cache|)
    ensures fields[i] / WORD < |s.cache| && Advance(p, i) / WORD + 3 < |s.cache|
    ensures Advance(p, i + 1) == Next(Advance(p, i))
    ensures var pre := AppendAllOps(l, s, p, fields[..i]);
            AppendAllOps(l, s, p, fields[..i + 1]) == pre + AppendOps(l, Run(s, pre).cache, Advance(p, i), fields[i])
  {
    hide Layout.InPage, Layout.Wf, Next, Run, Step;
    LayoutFacts(l, |s.cache|);
    FieldsPrefix(fields, i, |s.cache|);
    FieldsPrefix(fields, i + 1, |s.cache|);
    assert fields[i] / WORD in FieldWords(fields);
    assert fields[..i + 1][..i] == fields[..i];
    AdvanceSlot(l, p, i);
    SlotWords(l, |s.cache|, Advance(p, i));
  }

  lemma PendingLength(l: Layout, mem: seq<Word>)
    requires Walkable(l, mem)
    ensures |Pending(l, mem)| == Distance(l, mem[l.HeadW()], mem[l.TailW()])
  {}

  lemma PendingAt(l: Layout, mem: seq<Word>, k: nat)
    requires Walkable(l, mem) && k < |Pending(l, mem)|
    ensures var p := Advance(mem[l.HeadW()], k);
            l.InPage(p) && p / WORD + 3 < |mem| && Pending(l, mem)[k] == ReadEntry(mem, p)
  {
    hide Layout.InPage, Advance, Distance, ReadEntry;
    LayoutFacts(l, |mem|);
    AdvanceSlot(l, mem[l.HeadW()], k);
    SlotWords(l, |mem|, Advance(mem[l.HeadW()], k));
  }

  lemma UndoNone(es: seq<Entry>)
    ensures UndoOps(es[..0]) == []
  {}

  lemma UndoMore(es: seq<Entry>, k: nat)
    requires k < |es|
    ensures UndoOps(es[..k + 1]) == UndoOps(es[..k]) + UndoEntryOps(es[k])
  {
    assert es[..k + 1][..k] == es[..k];
  }

  lemma AdvanceZero(h: Word)
    ensures Advance(h, 0) == h
  {}

  lemma WalkStep(l: Layout, h: Word, t: Word, k: nat)
    requires l.pageW % 512 == 0 && l.InPage(h) && l.InPage(t) && k <= Distance(l, h, t) && Advance(h, k) != t
    ensures k < Distance(l, h, t) && l.InPage(Advance(h, k)) && Advance(h, k + 1) == Next(Advance(h, k))
  {
    hide Layout.InPage, Layout.Page, Next, SlotOf;
    WalkMeetsTail(l, h, t, k);
    AdvanceSlot(l, h, k);
    DistanceBound(l, h, t);
  }

  lemma DistanceBound(l: Layout, h: Word, t: Word)
    requires l.InPage(h) && l.InPage(t)
    ensures Distance(l, h, t) < SLOTS
  {}

  lemma WalkEnd(l: Layout, h: Word, t: Word, k: nat)
    requires l.pageW % 512 == 0 && l.InPage(h) && l.InPage(t) && k <= Distance(l, h, t) && Advance(h, k) == t
    ensures k == Distance(l, h, t)
  {
    hide Layout.InPage, Layout.Page, Advance, SlotOf;
    WalkMeetsTail(l, h, t, k);
    DistanceBound(l, h, t);
  }
}
