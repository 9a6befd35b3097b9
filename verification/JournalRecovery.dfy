/** Crashes during journal recovery (nova_recover_lite_journal).

    With `clflush` every crash inside recovery leaves an image that recovers to the same result, so
    recovery may be interrupted any number of times. With `clwb` the copied-back words and the
    emptied tail reach the same fence unordered; then recovery is safe exactly when there was
    nothing to copy back.
 */
module JournalRecovery {
  import opened Options
  import opened Pmem
  import opened Journal

  lemma InitialWf(clwb: bool, mem: seq<Word>)
    ensures Pmem.Wf(InitialState(clwb, mem))
    ensures forall w :: 0 <= w < |mem| ==> Settled(InitialState(clwb, mem), w)
  {}

  /** Where the journal's own words lie. */
  lemma LayoutFacts(l: Layout, words: nat)
    requires l.Wf(words)
    ensures l.pageW % 512 == 0 && l.HeadW() < words && l.TailW() < words && l.HeadW() != l.TailW()
    ensures !l.IsPageWord(l.HeadW()) && !l.IsPageWord(l.TailW())
    ensures !l.IsData(l.HeadW()) && !l.IsData(l.TailW())
    ensures forall w :: l.IsPageWord(w) ==> !l.IsData(w)
  {}

  lemma SlotWords(l: Layout, words: nat, p: Word)
    requires l.Wf(words) && l.InPage(p)
    ensures p / WORD + 3 < words
    ensures l.IsPageWord(p / WORD) && l.IsPageWord(p / WORD + 1)
    ensures l.IsPageWord(p / WORD + 2) && l.IsPageWord(p / WORD + 3)
  {
    SlotAddr(l, p);
    var w := l.pageW + 4 * SlotOf(l, p);
    assert p == WORD * w && p / WORD == w;
  }

  /** The pending entries depend only on the pointers and the journal page. */
  lemma PendingAgrees(l: Layout, a: seq<Word>, b: seq<Word>)
    requires |a| == |b| && Walkable(l, a)
    requires a[l.HeadW()] == b[l.HeadW()] && a[l.TailW()] == b[l.TailW()]
    requires forall w :: 0 <= w < |a| && l.IsPageWord(w) ==> a[w] == b[w]
    ensures Walkable(l, b) && Pending(l, b) == Pending(l, a)
  {
    hide Layout.IsPageWord, Layout.InPage, Layout.IsData, Distance, Advance, Next;
    LayoutFacts(l, |a|);
    var (h, n) := (a[l.HeadW()], Distance(l, a[l.HeadW()], a[l.TailW()]));
    forall k | 0 <= k < n
      ensures ReadEntries(l, a, h, n)[k] == ReadEntries(l, b, h, n)[k]
    {
      AdvanceSlot(l, h, k);
      SlotWords(l, |a|, Advance(h, k));
    }
    assert Pending(l, b) == Pending(l, a);
  }

  /** Images that differ from a walkable one only in words about to be copied back recover alike. */
  lemma RecoveredAgrees(l: Layout, a: seq<Word>, b: seq<Word>)
    requires |a| == |b| && Walkable(l, a)
    requires forall w :: 0 <= w < |a| && w !in Targets(Pending(l, a)) ==> a[w] == b[w]
    ensures Walkable(l, b) && Recovered(l, b) == Recovered(l, a)
  {
    hide Layout.Wf, Layout.IsPageWord, Layout.InPage, Layout.IsData, Layout.HeadW, Layout.TailW, Layout.Pair, Distance;
    hide ReadEntries, Run, Step;
    LayoutFacts(l, |a|);
    var es := Pending(l, a);
    assert forall w :: 0 <= w < |a| && l.IsPageWord(w) ==> w !in Targets(es);
    PendingAgrees(l, a, b);
    UndoAllEffect(a, b, es);
  }

  /** An image whose journal is empty recovers to itself. */
  lemma RecoveredEmpty(l: Layout, mem: seq<Word>)
    requires l.Wf(|mem|) && l.InPage(mem[l.HeadW()]) && mem[l.TailW()] == mem[l.HeadW()]
    ensures Walkable(l, mem) && Pending(l, mem) == [] && Recovered(l, mem) == Some(mem)
  {
    LayoutFacts(l, |mem|);
    var h := mem[l.HeadW()];
    assert (SlotOf(l, h) + SLOTS - SlotOf(l, h)) % SLOTS == 0;
    assert Pending(l, mem) == [];
    assert UndoAll(mem, []) == mem;
    assert mem[l.TailW() := h] == mem;
  }

  /** Uninterrupted, recovery computes `Recovered` and makes it durable for the journal pair. */
  lemma RecoverCompletes(l: Layout, clwb: bool, mem: seq<Word>)
    requires Walkable(l, mem) && Recovered(l, mem).Some?
    ensures Run(InitialState(clwb, mem), RecoverOps(l, mem)).cache == Recovered(l, mem).value
  {
    hide Layout.Wf, Layout.IsPageWord, Layout.InPage, Layout.IsData, Layout.HeadW, Layout.TailW, Layout.Pair, Distance;
    hide ReadEntries;
    LayoutFacts(l, |mem|);
    var s := InitialState(clwb, mem);
    var (es, h) := (Pending(l, mem), mem[l.HeadW()]);
    InitialWf(clwb, mem);
    UndoOpsCache(s, es);
    RunConcat(s, UndoOps(es), TailReset(l, h));
    var s1 := Run(s, UndoOps(es));
    RunConcat(s1, [Store(l.TailW(), h)], FlushBuffer(l.Pair(), LINE, true));
    RunOne(s1, Store(l.TailW(), h));
    FlushKeepsCache(Step(s1, Store(l.TailW(), h)), FlushBuffer(l.Pair(), LINE, true));
  }

  // ----- clflush -----

  ghost predicate NothingQueued(s: State) {
    !s.clwb && forall w :: 0 <= w < |s.wb| ==> s.wb[w] == {}
  }

  lemma {:induction false} NothingQueuedStays(s: State, ops: seq<Op>)
    requires Pmem.Wf(s) && NothingQueued(s)
    ensures NothingQueued(Run(s, ops))
  {
    if ops != [] {
      NothingQueuedStays(s, ops[..|ops| - 1]);
    }
  }

  /** Each copied-back word is durable before the next primitive that follows its write-back. */
  lemma {:induction false} UndoOpsSettle(s: State, es: seq<Entry>, w: nat)
    requires Pmem.Wf(s) && NothingQueued(s) && w < |s.cache| && w in Targets(es)
    ensures Settled(Run(s, UndoOps(es)), w)
  {
    hide Run, Step;
    var (rest, e) := (es[..|es| - 1], es[|es| - 1]);
    var s1 := Run(s, UndoOps(rest));
    RunConcat(s, UndoOps(rest), UndoEntryOps(e));
    UndoOpsStores(rest);
    RunFrame(s, UndoOps(rest), Targets(rest));
    if Undoes(e, w) {
      var ops := UndoEntryOps(e);
      assert ops[1] == Flush(e.data1 + 0);
      assert InLine(w, e.data1) by {
        assert w == e.data1 / 8;
      }
      ArmedAfter(s1, ops, w, 1);
      NothingQueuedStays(s, UndoOps(rest));
      NothingQueuedStays(s1, ops);
    } else {
      assert w in Targets(rest);
      UndoOpsSettle(s, rest, w);
      SettledStays(s1, UndoEntryOps(e), w, if e.kind == JOURNAL_ENTRY then {e.data1 / WORD} else {});
    }
  }

  /** After the copying back, every word but the tail is durable with its final value. */
  lemma AfterUndo(l: Layout, mem: seq<Word>)
    requires Walkable(l, mem) && Recovered(l, mem).Some?
    ensures var s := Run(InitialState(false, mem), UndoOps(Pending(l, mem)));
            && Pmem.Wf(s) && |s.cache| == |mem|
            && s.may[l.TailW()] == {mem[l.TailW()]}
            && (forall w :: 0 <= w < |mem| && w != l.TailW() ==> s.may[w] <= {Recovered(l, mem).value[w]})
  {
    hide Layout.Wf, Layout.IsPageWord, Layout.InPage, Layout.IsData, Layout.HeadW, Layout.TailW, Distance, ReadEntries;
    hide Run, Step;
    LayoutFacts(l, |mem|);
    var (s, es) := (InitialState(false, mem), Pending(l, mem));
    InitialWf(false, mem);
    UndoOpsStores(es);
    RunFrame(s, UndoOps(es), Targets(es));
    UndoOpsCache(s, es);
    UndoAllElsewhere(mem, es);
    forall w | 0 <= w < |mem| && w in Targets(es)
      ensures Run(s, UndoOps(es)).may[w] <= {Recovered(l, mem).value[w]}
    {
      UndoOpsSettle(s, es, w);
    }
  }

  /** A crash at any point of recovery, with `clflush`, leaves an image that recovers to what the
      original image recovers to. */
  lemma RecoveryCrashSafe(l: Layout, mem: seq<Word>, k: nat, image: seq<Word>)
    requires Walkable(l, mem) && Recovered(l, mem).Some? && k <= |RecoverOps(l, mem)|
    requires CrashImage(Run(InitialState(false, mem), RecoverOps(l, mem)[..k]), image)
    ensures Walkable(l, image) && Recovered(l, image) == Recovered(l, mem)
  {
    hide Layout.Wf, Layout.IsPageWord, Layout.InPage, Layout.IsData, Layout.HeadW, Layout.TailW, Layout.Pair;
    hide Distance, ReadEntries, Run, Step, UndoAll, UndoOps;
    LayoutFacts(l, |mem|);
    var s := InitialState(false, mem);
    InitialWf(false, mem);
    var (es, h) := (Pending(l, mem), mem[l.HeadW()]);
    var (undo, reset) := (UndoOps(es), TailReset(l, h));
    UndoOpsStores(es);
    if k <= |undo| {
      assert RecoverOps(l, mem)[..k] == undo[..k];
      RunFrame(s, undo[..k], Targets(es));
      RecoveredAgrees(l, mem, image);
    } else {
      AfterUndo(l, mem);
      var (s1, j) := (Run(s, undo), k - |undo|);
      assert RecoverOps(l, mem)[..k] == undo + reset[..j];
      RunConcat(s, undo, reset[..j]);
      RunFrame(s1, reset[..j], {l.TailW()});
      TailDuringReset(l, s1, mem[l.TailW()], h, j);
      var after := Recovered(l, mem).value;
      ImageDecided(Run(s1, reset[..j]), image, after, {l.TailW()});
      if image[l.TailW()] == h {
        assert image == after;
        UndoAllElsewhere(mem, es);
        RecoveredEmpty(l, image);
      } else {
        UndoAllElsewhere(mem, es);
        RecoveredAgrees(l, mem, image);
      }
    }
  }

  lemma {:induction false} TailDuringReset(l: Layout, s: State, t: Word, h: Word, j: nat)
    requires Pmem.Wf(s) && l.TailW() < |s.cache| && s.may[l.TailW()] <= {t} && j <= |TailReset(l, h)|
    ensures Run(s, TailReset(l, h)[..j]).may[l.TailW()] <= {t, h}
  {
    if j > 0 {
      var ops := TailReset(l, h)[..j];
      RunSplit(s, ops, 1);
      assert ops[..1] == [Store(l.TailW(), h)];
      RunOne(s, ops[0]);
      StepWf(s, ops[0]);
      RunFrame(Step(s, ops[0]), ops[1..], {});
    }
  }

  /** `image` is what a crash somewhere in the recovery of `mem` can leave. */
  ghost predicate CrashInRecovery(l: Layout, clwb: bool, mem: seq<Word>, image: seq<Word>)
    requires Walkable(l, mem)
  {
    exists k :: 0 <= k <= |RecoverOps(l, mem)|
      && CrashImage(Run(InitialState(clwb, mem), RecoverOps(l, mem)[..k]), image)
  }

  /** Recovery interrupted any number of times: `images[0]` is the image at the first mount, and each
      next one is what a crash in the recovery of the one before left. */
  ghost predicate InterruptedRecovery(l: Layout, images: seq<seq<Word>>) {
    forall i {:trigger images[i]} :: 0 <= i < |images| - 1 ==>
      Walkable(l, images[i]) && CrashInRecovery(l, false, images[i], images[i + 1])
  }

  lemma {:induction false} RecoveryIdempotent(l: Layout, images: seq<seq<Word>>)
    requires |images| > 0 && Walkable(l, images[0]) && Recovered(l, images[0]).Some?
    requires InterruptedRecovery(l, images)
    ensures Walkable(l, images[|images| - 1])
    ensures Recovered(l, images[|images| - 1]) == Recovered(l, images[0])
  {
    hide Walkable, Recovered, Run, CrashImage, RecoverOps;
    if |images| > 1 {
      var (n, rest) := (|images|, images[..|images| - 1]);
      assert InterruptedRecovery(l, rest) by {
        forall i | 0 <= i < |rest| - 1
          ensures Walkable(l, rest[i]) && CrashInRecovery(l, false, rest[i], rest[i + 1])
        {
          assert rest[i] == images[i] && rest[i + 1] == images[i + 1];
        }
      }
      RecoveryIdempotent(l, rest);
      var last := images[n - 2];
      assert CrashInRecovery(l, false, last, images[n - 1]);
      var k :| 0 <= k <= |RecoverOps(l, last)|
        && CrashImage(Run(InitialState(false, last), RecoverOps(l, last)[..k]), images[n - 1]);
      RecoveryCrashSafe(l, last, k, images[n - 1]);
    }
  }

  // ----- clwb -----

  /** The pre-mount check that decides crash safety: every pending entry's word already holds the
      value the entry would put back. */
  ghost predicate NothingToUndo(l: Layout, mem: seq<Word>)
    requires Walkable(l, mem)
  {
    var es := Pending(l, mem);
    forall i :: 0 <= i < |es| && es[i].kind == JOURNAL_ENTRY ==>
      es[i].data1 / WORD in Targets(es) && mem[es[i].data1 / WORD] == es[i].data2
  }

  ghost predicate RecoveryIsCrashSafe(l: Layout, clwb: bool, mem: seq<Word>)
    requires Walkable(l, mem)
  {
    forall image :: CrashInRecovery(l, clwb, mem, image) ==>
      Walkable(l, image) && Recovered(l, image) == Recovered(l, mem)
  }

  /** Without a fence, write-backs by `clwb` settle nothing: old and stored values all survive. */
  lemma {:induction false} UnfencedKeeps(s: State, ops: seq<Op>)
    requires |s.cache| == |s.may| == |s.wb| && s.clwb && forall i :: 0 <= i < |ops| ==> !ops[i].Fence?
    ensures forall w :: 0 <= w < |s.may| ==> s.may[w] <= Run(s, ops).may[w]
    ensures forall i :: 0 <= i < |ops| && ops[i].Store? && ops[i].word < |s.may| ==>
              ops[i].value in Run(s, ops).may[ops[i].word]
  {
    if ops != [] {
      UnfencedKeeps(s, ops[..|ops| - 1]);
    }
  }

  lemma {:induction false} UndoOpsHasStore(es: seq<Entry>, i: nat)
    requires i < |es| && es[i].kind == JOURNAL_ENTRY
    ensures Store(es[i].data1 / WORD, es[i].data2) in UndoOps(es)
  {
    var n := |es| - 1;
    if i == n {
      assert UndoEntryOps(es[n])[0] in UndoEntryOps(es[n]);
    } else {
      UndoOpsHasStore(es[..n], i);
    }
  }

  /** Just after the tail reset, before its fence: the tail may already be durable while a word still
      holds its old value or any value the copying back stored. */
  lemma TornReset(l: Layout, mem: seq<Word>, w: nat, v: Word)
    requires Walkable(l, mem) && w < |mem| && w != l.TailW()
    requires v == mem[w] || Store(w, v) in UndoOps(Pending(l, mem))
    ensures CrashInRecovery(l, true, mem, mem[w := v][l.TailW() := mem[l.HeadW()]])
  {
    hide Layout.Wf, Layout.InPage, Layout.IsData, Layout.HeadW, Layout.TailW, Pending, UndoOps, Run, Step;
    LayoutFacts(l, |mem|);
    var (s, h, undo) := (InitialState(true, mem), mem[l.HeadW()], UndoOps(Pending(l, mem)));
    var image := mem[w := v][l.TailW() := h];
    var k := |undo| + 1;
    var ops := RecoverOps(l, mem)[..k];
    assert ops == undo + [Store(l.TailW(), h)];
    UndoOpsStores(Pending(l, mem));
    InitialWf(true, mem);
    UnfencedKeeps(s, ops);
    assert ops[k - 1] == Store(l.TailW(), h);
    assert forall x :: 0 <= x < |mem| ==> mem[x] in Run(s, ops).may[x];
    if v != mem[w] {
      var i :| 0 <= i < |undo| && undo[i] == Store(w, v);
      assert ops[i] == Store(w, v);
    }
    assert CrashImage(Run(s, ops), image);
  }

  /** If an entry still has something to put back, a crash between the tail reset and its fence can
      leave an empty journal over a word that was not restored. */
  lemma ClwbRecoveryUnsafe(l: Layout, mem: seq<Word>)
    requires Walkable(l, mem) && Recovered(l, mem).Some? && !NothingToUndo(l, mem)
    ensures !RecoveryIsCrashSafe(l, true, mem)
  {
    hide Layout.Wf, Layout.InPage, Layout.IsPageWord, Layout.IsData, Layout.HeadW, Layout.TailW, Pending, UndoOps;
    hide CrashInRecovery, UndoAll;
    LayoutFacts(l, |mem|);
    var (es, h, final) := (Pending(l, mem), mem[l.HeadW()], Recovered(l, mem).value);
    var i :| 0 <= i < |es| && es[i].kind == JOURNAL_ENTRY && es[i].data1 / WORD in Targets(es)
                && mem[es[i].data1 / WORD] != es[i].data2;
    var w := es[i].data1 / WORD;
    var v := if mem[w] != final[w] then mem[w] else es[i].data2;
    var image := mem[w := v][l.TailW() := h];
    UndoOpsHasStore(es, i);
    TornReset(l, mem, w, v);
    RecoveredEmpty(l, image);
    assert image[w] != final[w];
  }

  lemma {:induction false} UndoAllNothing(mem: seq<Word>, es: seq<Entry>)
    requires forall i :: 0 <= i < |es| && es[i].kind == JOURNAL_ENTRY && es[i].data1 / WORD < |mem| ==>
               mem[es[i].data1 / WORD] == es[i].data2
    ensures UndoAll(mem, es) == mem
  {
    if es != [] {
      UndoAllNothing(mem, es[..|es| - 1]);
    }
  }

  lemma {:induction false} SameValueStores(s: State, ops: seq<Op>, mem: seq<Word>)
    requires Pmem.Wf(s) && |mem| == |s.cache|
    requires forall w :: 0 <= w < |mem| ==> s.may[w] <= {mem[w]}
    requires forall i :: 0 <= i < |ops| && ops[i].Store? && ops[i].word < |mem| ==> ops[i].value == mem[ops[i].word]
    ensures Pmem.Wf(Run(s, ops)) && forall w :: 0 <= w < |mem| ==> Run(s, ops).may[w] <= {mem[w]}
  {
    if ops != [] {
      SameValueStores(s, ops[..|ops| - 1], mem);
      StepWf(Run(s, ops[..|ops| - 1]), ops[|ops| - 1]);
    }
  }

  lemma {:induction false} UndoOpsValues(es: seq<Entry>, mem: seq<Word>)
    requires forall i :: 0 <= i < |es| && es[i].kind == JOURNAL_ENTRY && es[i].data1 / WORD < |mem| ==>
               mem[es[i].data1 / WORD] == es[i].data2
    ensures forall i :: 0 <= i < |UndoOps(es)| && UndoOps(es)[i].Store? && UndoOps(es)[i].word < |mem| ==>
              UndoOps(es)[i].value == mem[UndoOps(es)[i].word]
  {
    if es != [] {
      UndoOpsValues(es[..|es| - 1], mem);
    }
  }

  lemma ClwbRecoverySafe(l: Layout, mem: seq<Word>, k: nat, image: seq<Word>)
    requires Walkable(l, mem) && Recovered(l, mem).Some? && NothingToUndo(l, mem)
    requires k <= |RecoverOps(l, mem)|
    requires CrashImage(Run(InitialState(true, mem), RecoverOps(l, mem)[..k]), image)
    ensures Walkable(l, image) && Recovered(l, image) == Recovered(l, mem)
  {
    hide Layout.Wf, Layout.IsPageWord, Layout.InPage, Layout.IsData, Layout.HeadW, Layout.TailW, Layout.Pair, Distance;
    hide ReadEntries, Run, Step, UndoOps, UndoAll;
    LayoutFacts(l, |mem|);
    var s := InitialState(true, mem);
    InitialWf(true, mem);
    var (es, h) := (Pending(l, mem), mem[l.HeadW()]);
    var undo := UndoOps(es);
    UndoOpsValues(es, mem);
    UndoAllNothing(mem, es);
    if k <= |undo| {
      assert RecoverOps(l, mem)[..k] == undo[..k];
      SameValueStores(s, undo[..k], mem);
      ImageDecided(Run(s, undo[..k]), image, mem, {});
      assert image == mem;
    } else {
      var reset := TailReset(l, h)[..k - |undo|];
      assert RecoverOps(l, mem)[..k] == undo + reset;
      RunConcat(s, undo, reset);
      SameValueStores(s, undo, mem);
      RunFrame(Run(s, undo), reset, {l.TailW()});
      TailDuringReset(l, Run(s, undo), mem[l.TailW()], h, k - |undo|);
      ImageDecided(Run(s, undo + reset), image, mem, {l.TailW()});
      if image[l.TailW()] == h {
        assert image == mem[l.TailW() := h];
        RecoveredEmpty(l, image);
        assert Recovered(l, mem) == Some(UndoAll(mem, es)[l.TailW() := h]);
      } else {
        assert image == mem;
      }
    }
  }

  /** Words with one possible value are known in every crash image. */
  lemma ImageDecided(s: State, image: seq<Word>, mem: seq<Word>, except: set<nat>)
    requires CrashImage(s, image) && |mem| == |image|
    requires forall w :: 0 <= w < |mem| && w !in except ==> s.may[w] <= {mem[w]}
    ensures forall w :: 0 <= w < |mem| && w !in except ==> image[w] == mem[w]
  {}

  /** The exact condition: recovery tolerates a crash at every point if and only if the write-back
      instruction is `clflush` or nothing had to be copied back. */
  lemma RecoveryCrashSafeIff(l: Layout, clwb: bool, mem: seq<Word>)
    requires Walkable(l, mem) && Recovered(l, mem).Some?
    ensures RecoveryIsCrashSafe(l, clwb, mem) <==> !clwb || NothingToUndo(l, mem)
  {
    hide Walkable, Recovered, Run, CrashImage, RecoverOps, NothingToUndo;
    if clwb && !NothingToUndo(l, mem) {
      ClwbRecoveryUnsafe(l, mem);
    } else {
      forall image | CrashInRecovery(l, clwb, mem, image)
        ensures Walkable(l, image) && Recovered(l, image) == Recovered(l, mem)
      {
        var k :| 0 <= k <= |RecoverOps(l, mem)|
          && CrashImage(Run(InitialState(clwb, mem), RecoverOps(l, mem)[..k]), image);
        if clwb {
          ClwbRecoverySafe(l, mem, k, image);
        } else {
          RecoveryCrashSafe(l, mem, k, image);
        }
      }
    }
  }
}
