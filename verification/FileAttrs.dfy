/** Attribute changes and the thorough collector (gc.c, rebuild.c): `last_setattr` follows every attribute entry the
    collector copies, also when a later one on the tail page is not copied. The next change of attributes may then
    rewrite an entry that is not the last one. A rebuild applies attributes in log order and shows older ones. */
module FileAttrs {
  import opened Options
  import opened FileLog
  import opened FileIndex
  import opened FileCounts
  import opened FileAssign
  import opened FileChunks
  import opened FileCuts
  import opened FileTheorems
  import opened FileCollect
  import opened FileRuns

  /** The transaction whose attributes a rebuild ends with: that of the last attribute entry. */
  function AttrsShown(log: seq<Entry>): Option<nat> {
    var last := LastAttrOf(log);
    if last.Some? && last.value < |log| then Some(log[last.value].trans) else None
  }

  lemma {:induction false} LastAttrUnique(log: seq<Entry>, m: nat)
    requires m < |log| && log[m].Attr? && forall j :: m < j < |log| ==> log[j].Write?
    ensures LastAttrOf(log) == Some(m)
  {
    hide LastAttrOf;
    LastAttrOfIs(log);
  }

  /** A rebuild shows the attributes of a change without a new size if and only if it was not done in place, or in the
      last attribute entry of the log. */
  lemma AttrsShownIff(f: File)
    requires Inv(f)
    ensures AttrsShown(SetAttr(f).log) == Some(f.trans) <==> !InPlace(f) || f.lastAttr == LastAttrOf(f.log)
  {
    hide Partial, Harmless, AllGrow, Base, RebuiltSize, Kill, LastAttrOf;
    var h := SetAttr(f);
    LastAttrOfIs(f.log);
    LastAttrOfIs(h.log);
    if InPlace(f) {
      var (i, m) := (f.lastAttr.value, LastAttrOf(f.log).value);
      assert h.log[m].Attr? && forall j :: m < j < |h.log| ==> h.log[j] == f.log[j] && f.log[j].Write?;
      LastAttrUnique(h.log, m);
    } else {
      assert h.log[|f.log|].Attr?;
    }
  }

  /** One with a new size always shows. */
  lemma TruncateShows(f: File, size: nat)
    ensures AttrsShown(Truncate(f, size).log) == Some(f.trans)
  {
    hide Kill, Mark, Refs, LastAttrOf;
    var h := Truncate(f, size);
    assert h.log[|f.log|].Attr? && h.log[|f.log|].trans == f.trans by { TruncateLast(f, size); }
    LastAttrUnique(h.log, |f.log|);
  }

  lemma TruncateLast(f: File, size: nat)
    ensures var h := Truncate(f, size);
            |h.log| == |f.log| + 1 && h.log[|f.log|] == Attr(true, false, size, f.trans)
  {}

  predicate CopiesAttr(f: File, moved: nat) {
    exists i :: 0 <= i < moved <= |f.log| && f.log[i].Attr? && Valid(f.log[i])
  }

  /** A collection leaves `last_setattr` at the last attribute entry if and only if that one is copied or none is. */
  lemma LastAttrStaysIff(f: File, drop: set<nat>, moved: nat)
    requires Inv(f) && Collectable(f, drop, moved) && f.lastAttr == LastAttrOf(f.log)
    ensures var g := Collect(f, drop, moved);
            g.lastAttr == LastAttrOf(g.log) <==> (CopiesAttr(f, moved) ==> f.lastAttr.Some? && f.lastAttr.value < moved)
  {
    hide Partial, Harmless, AllGrow, Base, RebuiltSize, LastAttrOf, Kept, Pos, Granted, Refs, Gone, LastAttr;
    var (g, copied) := (Collect(f, drop, moved), Kept(f.log[..moved], drop));
    LastAttrOfIs(f.log);
    LastAttrOfIs(copied);
    CopiedIff(f, drop, moved);
    if f.lastAttr.Some? {
      var m := f.lastAttr.value;
      LastMoves(f, drop, m);
      KeptPrefix(f.log, drop, moved);
      KeptLength(f.log[..moved], drop);
      if m < moved {
        PosMono(drop, m, moved);
        LastCopied(f, drop, moved, m);
      } else {
        PosMono(drop, moved, m);
      }
    } else {
      NoAttrs(f, drop, moved);
    }
  }

  lemma CopiedIff(f: File, drop: set<nat>, moved: nat)
    requires Collectable(f, drop, moved)
    ensures LastAttrOf(Kept(f.log[..moved], drop)).Some? <==> CopiesAttr(f, moved)
  {
    hide LastAttrOf, Kept, Pos;
    var copied := Kept(f.log[..moved], drop);
    LastAttrOfIs(copied);
    if LastAttrOf(copied).Some? {
      var i := KeptFrom(f.log[..moved], drop, LastAttrOf(copied).value);
      assert f.log[i].Attr? && Valid(f.log[i]);
    }
    if i :| 0 <= i < moved && f.log[i].Attr? && Valid(f.log[i]) {
      KeptAt(f.log[..moved], drop, i);
    }
  }

  /** The last attribute entry is the last one of the new log, too. */
  lemma LastMoves(f: File, drop: set<nat>, m: nat)
    requires Inv(f) && Droppable(f.log, drop) && LastAttrOf(f.log) == Some(m) && m < |f.log| && f.log[m].Attr?
    ensures m !in drop && LastAttrOf(Kept(f.log, drop)) == Some(Pos(drop, m)) && Pos(drop, m) < |Kept(f.log, drop)|
  {
    hide Inv, LastAttrOf, Kept, Pos, Valid;
    var out := Kept(f.log, drop);
    LastKept(f, drop, m);
    LastAttrOfIs(f.log);
    KeptAt(f.log, drop, m);
    forall j | Pos(drop, m) < j < |out|
      ensures out[j].Write?
    {
      var i := KeptFrom(f.log, drop, j);
      PosOrder(drop, m, i);
    }
    LastAttrUnique(out, Pos(drop, m));
  }

  lemma LastCopied(f: File, drop: set<nat>, moved: nat, m: nat)
    requires Collectable(f, drop, moved) && m < moved && m !in drop && LastAttrOf(f.log) == Some(m) && f.log[m].Attr?
    ensures LastAttrOf(Kept(f.log[..moved], drop)) == Some(Pos(drop, m))
  {
    hide LastAttrOf, Kept, Pos, Valid;
    var out := Kept(f.log[..moved], drop);
    LastAttrOfIs(f.log);
    KeptAt(f.log[..moved], drop, m);
    forall j | Pos(drop, m) < j < |out|
      ensures out[j].Write?
    {
      var i := KeptFrom(f.log[..moved], drop, j);
      PosOrder(drop, m, i);
      assert f.log[..moved][i] == f.log[i];
    }
    LastAttrUnique(out, Pos(drop, m));
  }

  lemma NoAttrs(f: File, drop: set<nat>, moved: nat)
    requires Inv(f) && Collectable(f, drop, moved) && LastAttrOf(f.log) == None
    ensures LastAttrOf(Kept(f.log, drop)) == None && !CopiesAttr(f, moved)
  {
    hide Inv, LastAttrOf, Kept, Pos, Valid;
    var out := Kept(f.log, drop);
    LastAttrOfIs(f.log);
    LastAttrOfIs(out);
    if LastAttrOf(out).Some? {
      var i := KeptFrom(f.log, drop, LastAttrOf(out).value);
    }
  }

  // ----- a run that gets there -----

  /** Writes of one byte each to the pages after page j. */
  function Fill(j: nat, n: nat): (run: seq<Action>)
    ensures |run| == n
  {
    if n == 0 then [] else Fill(j, n - 1) + [Writes((j + n) * PAGE, 1, [Grant(1, j + n)])]
  }

  lemma FillStep(f: File, j: nat)
    requires Inv(f) && f.size == j * PAGE + 1
    ensures var e := Write(j + 1, 1, j + 1, 0, (j + 1) * PAGE + 1, f.trans);
            var g := Apply(f, Writes((j + 1) * PAGE, 1, [Grant(1, j + 1)]));
            Inv(g) && g.log == f.log + [e] && g.size == e.size && g.trans == f.trans + 1 && g.lastAttr == f.lastAttr
  {
    hide Partial, Harmless, AllGrow, Base, RebuiltSize, LastAttr, Refs;
    var (pos, grants, n) := ((j + 1) * PAGE, [Grant(1, j + 1)], |f.log|);
    assert grants[..0] == [] && Sum(grants) == 1 && Touched(pos, 1) == 1 && pos / PAGE == j + 1;
    var e := Write(j + 1, 1, j + 1, 0, (j + 1) * PAGE + 1, f.trans);
    assert Chunks(j + 1, pos + 1, f.size, f.trans, grants[..0]) == [];
    assert Chunks(j + 1, pos + 1, f.size, f.trans, grants) == [e];
    var g := f.(log := f.log + [e]);
    MappedUnder(f);
    assert Mark(g.log, g.tree, j + 1, j + 2) == g.log by { MarkNone(g.log, g.tree, j + 1); }
    assert AssignAll(g, n) == AssignAll(Assign(g, n), n + 1) == Assign(g, n);
    WriteInv(f, pos, 1, grants);
  }

  lemma MarkNone(log: seq<Entry>, tree: map<nat, nat>, p: nat)
    requires Under(tree, p)
    ensures Mark(log, tree, p, p + 1) == log
  {
    hide Count;
    var out := Mark(log, tree, p, p + 1);
    forall i | 0 <= i < |log|
      ensures out[i] == log[i]
    {
      CountNone(tree, i, p, p + 1);
    }
  }

  /** A file after n such writes. */
  ghost predicate Filled(f: File, j: nat, n: nat, g: File) {
    && Inv(g) && g.size == (j + n) * PAGE + 1 && g.trans == f.trans + n && g.lastAttr == f.lastAttr
    && |g.log| == |f.log| + n && g.log[..|f.log|] == f.log
    && forall i :: |f.log| <= i < |g.log| ==> g.log[i].Write? && Valid(g.log[i])
  }

  lemma {:induction false} FillRun(f: File, j: nat, n: nat)
    requires Inv(f) && f.size == j * PAGE + 1
    ensures Filled(f, j, n, FileRuns.Run(f, Fill(j, n)))
    decreases n
  {
    hide Inv, Apply, Filled;
    if n == 0 {
      FilledNone(f, j);
    } else {
      FillRun(f, j, n - 1);
      FilledNext(f, j, n - 1, FileRuns.Run(f, Fill(j, n - 1)));
      assert Fill(j, n)[..n - 1] == Fill(j, n - 1);
    }
  }

  lemma FilledNone(f: File, j: nat)
    requires Inv(f) && f.size == j * PAGE + 1
    ensures Filled(f, j, 0, f)
  {
    hide Inv;
    assert f.log[..|f.log|] == f.log;
  }

  lemma FilledNext(f: File, j: nat, n: nat, g: File)
    requires Filled(f, j, n, g)
    ensures Filled(f, j, n + 1, Apply(g, Writes((j + n + 1) * PAGE, 1, [Grant(1, j + n + 1)])))
  {
    hide Inv, Apply;
    FillStep(g, j + n);
    var h := Apply(g, Writes((j + n + 1) * PAGE, 1, [Grant(1, j + n + 1)]));
    assert h.log[..|f.log|] == g.log[..|f.log|];
  }

  lemma {:induction false} RunConcat(f: File, a: seq<Action>, b: seq<Action>)
    ensures FileRuns.Run(f, a + b) == FileRuns.Run(FileRuns.Run(f, a), b)
    decreases |b|
  {
    hide Apply;
    if b == [] {
      assert a + b == a;
    } else {
      var n := |b| - 1;
      RunConcat(f, a, b[..n]);
      assert (a + b)[..|a + b| - 1] == a + b[..n];
    }
  }

  lemma {:induction false} NothingDropped(log: seq<Entry>)
    ensures Kept(log, {}) == log && Gone(log, {}) == []
  {
    if log != [] {
      NothingDropped(log[..|log| - 1]);
    }
  }

  lemma {:induction false} NothingMoves(i: nat)
    ensures Pos({}, i) == i
  {
    if i > 0 {
      NothingMoves(i - 1);
    }
  }

  /** A collection that finds nothing to drop only moves `last_setattr`. */
  lemma CollectNothing(f: File, moved: nat, m: nat)
    requires Inv(f) && m < moved <= |f.log| && (forall i :: 0 <= i < moved ==> Valid(f.log[i]))
    requires f.log[m].Attr? && forall i :: m < i < moved ==> f.log[i].Write?
    ensures var g := Apply(f, Collects({}, moved));
            Inv(g) && g.log == f.log && g.size == f.size && g.trans == f.trans && g.lastAttr == Some(m)
  {
    hide Inv, LastAttrOf, Kept, Pos, Gone, Granted;
    NothingDropped(f.log);
    NothingDropped(f.log[..moved]);
    LastAttrUnique(f.log[..moved], m);
    CollectInv(f, {}, moved);
  }

  /** An attribute change with no entry to rewrite. */
  lemma AppendsAttr(f: File)
    requires Inv(f) && f.lastAttr.Some? && f.lastAttr.value < |f.log|
    requires f.log[f.lastAttr.value].Attr? && f.log[f.lastAttr.value].sized
    ensures var g := Apply(f, SetsAttr);
            && Inv(g) && g.log == f.log + [Attr(false, false, f.size, f.trans)]
            && g.size == f.size && g.trans == f.trans + 1 && g.lastAttr == Some(|f.log|)
  {
    hide Inv;
    SetAttrInv(f);
  }

  /** Set the size, fill a page of the log, change attributes, collect; fill a page, change attributes, collect; and
      change attributes. With n == 62 the entries, 64 bytes for a write and 56 for an attribute change, fill the pages:
      both collections find the newest attribute entry alone on the tail page. */
  function StaleRun(n: nat): seq<Action> {
    [Truncates(1)] + Fill(0, n) + [SetsAttr] + [Collects({}, n + 1)] + Fill(n, n) + [SetsAttr]
    + [Collects({}, 2 * n + 2)] + [SetsAttr]
  }

  lemma RunOne(f: File, a: Action)
    ensures FileRuns.Run(f, [a]) == Apply(f, a)
  {
    hide Apply;
    assert [a][..0] == [];
    assert FileRuns.Run(f, []) == f;
  }

  /** The file after the first collection: `last_setattr` is back at the entry that set the size. */
  lemma StaleBegins(n: nat) returns (f: File)
    ensures f == FileRuns.Run(NewFile(), [Truncates(1)] + Fill(0, n) + [SetsAttr] + [Collects({}, n + 1)])
    ensures Inv(f) && f.size == n * PAGE + 1 && f.trans == n + 2 && f.lastAttr == Some(0) && |f.log| == n + 2
    ensures f.log[0].Attr? && f.log[0].sized && f.log[n + 1] == Attr(false, false, f.size, n + 1)
    ensures forall i :: 0 <= i < |f.log| ==> Valid(f.log[i]) && (0 < i <= n ==> f.log[i].Write?)
  {
    hide Inv, Apply, Fill;
    var a := Apply(NewFile(), Truncates(1));
    NewFileInv();
    ApplyInv(NewFile(), Truncates(1));
    assert a == File([Attr(true, false, 1, 0)], map[], 1, 1, Some(0), multiset{}) by { FirstTruncate(); }
    RunOne(NewFile(), Truncates(1));
    FillRun(a, 0, n);
    RunConcat(NewFile(), [Truncates(1)], Fill(0, n));
    var b := FileRuns.Run(a, Fill(0, n));
    assert b.log[0] == b.log[..1][0] == a.log[0];
    AppendsAttr(b);
    var c := Apply(b, SetsAttr);
    RunOne(b, SetsAttr);
    RunConcat(NewFile(), [Truncates(1)] + Fill(0, n), [SetsAttr]);
    CollectNothing(c, n + 1, 0);
    RunOne(c, Collects({}, n + 1));
    RunConcat(NewFile(), [Truncates(1)] + Fill(0, n) + [SetsAttr], [Collects({}, n + 1)]);
    f := Apply(c, Collects({}, n + 1));
  }

  lemma FirstTruncate()
    ensures Apply(NewFile(), Truncates(1)) == File([Attr(true, false, 1, 0)], map[], 1, 1, Some(0), multiset{})
  {}

  /** After it a rebuild shows the attributes of the change before the last one. */
  lemma StaleAttrs(n: nat)
    ensures var f := FileRuns.Run(NewFile(), StaleRun(n));
            f.trans == 2 * n + 4 && AttrsShown(f.log) == Some(2 * n + 2)
  {
    hide Inv, Apply, Fill, LastAttrOf, InPlace;
    var f := StaleBegins(n);
    var first := [Truncates(1)] + Fill(0, n) + [SetsAttr] + [Collects({}, n + 1)];
    FillRun(f, n, n);
    var g := FileRuns.Run(f, Fill(n, n));
    forall i | 0 <= i < |f.log|
      ensures g.log[i] == f.log[i]
    {
      assert g.log[..|f.log|][i] == f.log[i];
    }
    RunConcat(NewFile(), first, Fill(n, n));
    AppendsAttr(g);
    var h := Apply(g, SetsAttr);
    RunOne(g, SetsAttr);
    RunConcat(NewFile(), first + Fill(n, n), [SetsAttr]);
    CollectNothing(h, 2 * n + 2, n + 1);
    var k := Apply(h, Collects({}, 2 * n + 2));
    RunOne(h, Collects({}, 2 * n + 2));
    RunConcat(NewFile(), first + Fill(n, n) + [SetsAttr], [Collects({}, 2 * n + 2)]);
    RunOne(k, SetsAttr);
    RunConcat(NewFile(), first + Fill(n, n) + [SetsAttr] + [Collects({}, 2 * n + 2)], [SetsAttr]);
    assert StaleRun(n) == first + Fill(n, n) + [SetsAttr] + [Collects({}, 2 * n + 2)] + [SetsAttr];
    assert FileRuns.Run(NewFile(), StaleRun(n)) == SetAttr(k) by { SetsAttrIs(k); }
    RewritesEarly(k, n + 1);
  }

  lemma SetsAttrIs(f: File)
    ensures Apply(f, SetsAttr) == SetAttr(f)
  {}

  /** Rewriting an entry before the last one leaves what a rebuild shows. */
  lemma RewritesEarly(f: File, i: nat)
    requires f.lastAttr == Some(i) && i < |f.log| - 1 && f.log[i].Attr? && !f.log[i].sized && f.log[|f.log| - 1].Attr?
    ensures var h := SetAttr(f); h.trans == f.trans + 1 && AttrsShown(h.log) == Some(f.log[|f.log| - 1].trans)
  {
    hide LastAttrOf;
    LastAttrUnique(SetAttr(f).log, |f.log| - 1);
  }
}
