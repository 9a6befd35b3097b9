/** What the attribute entries of a log cut. An entry that did not set the size may stand anywhere, carry any later
    size, die and be dropped: whatever it cuts, an entry that did set the size cuts as well. */
module FileCuts {
  import opened Options
  import opened FileLog
  import opened FileIndex
  import opened FileSizes

  ghost predicate AllHarmless(log: seq<Entry>) {
    forall i :: 0 <= i < |log| ==> Harmless(log, i)
  }

  lemma {:induction false} OwnerLatest(log: seq<Entry>, i: nat, p: nat)
    requires i < |log| && Covers(log[i], p) && forall j :: i < j < |log| ==> !Covers(log[j], p) && !Cuts(log[j], p)
    ensures Owner(log, p) == Some(i)
    decreases |log|
  {
    var n := |log| - 1;
    if i < n {
      OwnerLatest(log[..n], i, p);
    }
  }

  /** Nothing after its owner covers or cuts a page. */
  lemma {:induction false} OwnerIsLast(log: seq<Entry>, p: nat, j: nat)
    requires Owner(log, p).Some? && Owner(log, p).value < j < |log|
    ensures !Covers(log[j], p) && !Cuts(log[j], p)
    decreases |log|
  {
    var n := |log| - 1;
    if j < n {
      OwnerIsLast(log[..n], p, j);
    }
  }

  /** A page that was written and has no owner was cut by an entry that set the size. */
  lemma {:induction false} NoneCut(log: seq<Entry>, m: nat, k: nat, p: nat)
    requires AllHarmless(log) && k < m <= |log| && Covers(log[k], p) && Owner(log[..m], p) == None
    ensures CutAfter(log, k, p)
    decreases m
  {
    hide Harmless;
    assert log[..m][..m - 1] == log[..m - 1];
    if Cuts(log[m - 1], p) {
      HarmlessAt(log, m - 1, k, p);
    } else {
      NoneCut(log, m - 1, k, p);
    }
  }

  lemma HarmlessAt(log: seq<Entry>, i: nat, k: nat, p: nat)
    requires i < |log| && Harmless(log, i) && k < i && Covers(log[k], p) && Cuts(log[i], p)
    ensures CutAfter(log, k, p)
  {
    if log[i].sized {
      assert SizedCut(log[i], p);
    }
  }

  /** And a page all of whose writers were cut has no owner. */
  lemma CutNone(log: seq<Entry>, p: nat)
    requires forall k :: 0 <= k < |log| && Covers(log[k], p) ==> CutAfter(log, k, p)
    ensures Owner(log, p) == None
  {
    hide Owner;
    var o := Owner(log, p);
    if o.Some? {
      assert Covers(log[o.value], p) && CutAfter(log, o.value, p);
      var j :| o.value < j < |log| && SizedCut(log[j], p);
      OwnerIsLast(log, p, j);
    }
  }

  // ----- harmless entries stay harmless -----

  lemma CutShape(a: seq<Entry>, b: seq<Entry>, k: nat, p: nat)
    requires |a| <= |b| && CutAfter(a, k, p)
    requires forall i :: 0 <= i < |a| && a[i].Attr? && a[i].sized ==> SameShape(a[i], b[i])
    ensures CutAfter(b, k, p)
  {
    var j :| k < j < |a| && SizedCut(a[j], p);
    assert SizedCut(b[j], p);
  }

  lemma HarmlessShape(a: seq<Entry>, b: seq<Entry>, i: nat)
    requires AllShape(a, b) && i < |a| && Harmless(a, i) && (b[i].Attr? && b[i].dead ==> !b[i].sized)
    ensures Harmless(b, i)
  {
    hide CutAfter;
    assert SameShape(a[i], b[i]);
    if b[i].Attr? && !b[i].sized {
      forall k: nat, p: nat | k < i && Covers(b[k], p) && Pages(b[i].size) <= p
        ensures CutAfter(b, k, p)
      {
        assert SameShape(a[k], b[k]) && Covers(a[k], p);
        CutShape(a, b, k, p);
      }
    }
  }

  lemma ShapeHarmless(a: seq<Entry>, b: seq<Entry>)
    requires AllShape(a, b) && AllHarmless(a) && forall i :: 0 <= i < |b| && b[i].Attr? && b[i].dead ==> !b[i].sized
    ensures AllHarmless(b)
  {
    hide Harmless;
    forall i | 0 <= i < |b|
      ensures Harmless(b, i)
    {
      HarmlessShape(a, b, i);
    }
  }

  lemma AlikeHarmless(a: seq<Entry>, b: seq<Entry>)
    requires AllAlike(a, b) && AllHarmless(a)
    ensures AllHarmless(b)
  {
    AlikeShape(a, b);
    forall i | 0 <= i < |b| && b[i].Attr? && b[i].dead
      ensures !b[i].sized
    {
      assert Harmless(a, i) && Alike(a[i], b[i]);
    }
    ShapeHarmless(a, b);
  }

  /** Entries appended behind change nothing for those before. */
  lemma HarmlessMore(log: seq<Entry>, more: seq<Entry>, i: nat)
    requires i < |log| && Harmless(log, i)
    ensures Harmless(log + more, i)
  {
    hide CutAfter;
    var out := log + more;
    if out[i].Attr? && !out[i].sized {
      forall k: nat, p: nat | k < i && Covers(out[k], p) && Pages(out[i].size) <= p
        ensures CutAfter(out, k, p)
      {
        assert Covers(log[k], p);
        CutShape(log, out, k, p);
      }
    }
  }

  lemma WritesHarmless(log: seq<Entry>, more: seq<Entry>)
    requires AllHarmless(log) && forall i :: 0 <= i < |more| ==> more[i].Write?
    ensures AllHarmless(log + more)
  {
    hide Harmless;
    forall i | 0 <= i < |log + more|
      ensures Harmless(log + more, i)
    {
      if i < |log| {
        HarmlessMore(log, more, i);
      } else {
        WriteHarmless(log + more, i);
      }
    }
  }

  lemma WriteHarmless(log: seq<Entry>, i: nat)
    requires i < |log| && log[i].Write?
    ensures Harmless(log, i)
  {}

  /** An attribute entry at the end that carries at least the pages in use. */
  lemma AttrHarmless(log: seq<Entry>, e: Entry)
    requires AllHarmless(log) && e.Attr? && !e.dead
    requires e.sized || forall p: nat :: Owner(log, p).Some? ==> p < Pages(e.size)
    ensures AllHarmless(log + [e])
  {
    hide Owner, CutAfter;
    var (n, out) := (|log|, log + [e]);
    forall i | 0 <= i < |out|
      ensures Harmless(out, i)
    {
      if i < n {
        HarmlessMore(log, [e], i);
      } else if !e.sized {
        forall k: nat, p: nat | k < i && Covers(out[k], p) && Pages(e.size) <= p
          ensures CutAfter(out, k, p)
        {
          assert log[..n] == log && Covers(log[k], p) && Owner(log, p) == None;
          NoneCut(log, n, k, p);
          CutShape(log, out, k, p);
        }
      }
    }
  }

  /** Rewriting an entry that did not set the size, wherever it stands, with a size that reaches over the pages in
      use: all entries stay harmless. */
  lemma RewriteHarmless(log: seq<Entry>, i: nat, e: Entry)
    requires AllHarmless(log) && i < |log| && log[i].Attr? && !log[i].sized && e.Attr? && !e.sized
    requires e.size == log[i].size || forall p: nat :: Owner(log, p).Some? ==> p < Pages(e.size)
    ensures AllHarmless(log[i := e])
  {
    hide Owner, CutAfter;
    var (n, out) := (|log|, log[i := e]);
    forall j | 0 <= j < n
      ensures Harmless(out, j)
    {
      assert Harmless(log, j);
      if out[j].Attr? && !out[j].sized {
        forall k: nat, p: nat | k < j && Covers(out[k], p) && Pages(out[j].size) <= p
          ensures CutAfter(out, k, p)
        {
          assert Covers(log[k], p);
          if j == i && e.size != log[i].size {
            assert log[..n] == log && Owner(log, p) == None;
            NoneCut(log, n, k, p);
          }
          CutShape(log, out, k, p);
        }
      }
    }
  }

  /** And no page changes its owner. */
  lemma RewriteOwner(log: seq<Entry>, i: nat, e: Entry, p: nat)
    requires i < |log| && log[i].Attr? && !log[i].sized && e.Attr? && !e.sized
    requires AllHarmless(log) && AllHarmless(log[i := e])
    ensures Owner(log[i := e], p) == Owner(log, p)
  {
    hide Owner, Harmless, CutAfter;
    var (n, out) := (|log|, log[i := e]);
    var o := Owner(log, p);
    if o.Some? {
      var k := o.value;
      forall j | k < j < n
        ensures !Covers(out[j], p) && !Cuts(out[j], p)
      {
        OwnerIsLast(log, p, j);
        if j == i && Cuts(e, p) {
          HarmlessAt(out, i, k, p);
          CutShape(out, log, k, p);
          NoCut(log, k, p);
        }
      }
      OwnerLatest(out, k, p);
    } else {
      forall k | 0 <= k < n && Covers(out[k], p)
        ensures CutAfter(out, k, p)
      {
        assert log[..n] == log;
        NoneCut(log, n, k, p);
        CutShape(log, out, k, p);
      }
      CutNone(out, p);
    }
  }

  lemma NoCut(log: seq<Entry>, k: nat, p: nat)
    requires Owner(log, p) == Some(k)
    ensures !CutAfter(log, k, p)
  {
    hide Owner;
    if j :| k < j < |log| && SizedCut(log[j], p) {
      OwnerIsLast(log, p, j);
    }
  }

  // ----- the last attribute entry -----

  lemma {:induction false} LastAttrOfIs(log: seq<Entry>)
    ensures LastAttrOf(log).Some? ==> LastAttrOf(log).value < |log| && log[LastAttrOf(log).value].Attr?
    ensures forall j :: 0 <= j < |log| && log[j].Attr? ==> LastAttrOf(log).Some? && j <= LastAttrOf(log).value
  {
    if log != [] {
      LastAttrOfIs(log[..|log| - 1]);
    }
  }

  /** Entries behind, and what else happens to write entries, leave the attribute entries as they are. */
  lemma LastAttrMore(f: File, h: File)
    requires LastAttr(f) && h.lastAttr == f.lastAttr && |f.log| <= |h.log|
    requires forall i :: 0 <= i < |h.log| ==>
               if i < |f.log| then (h.log[i] == f.log[i] || (h.log[i].Write? && f.log[i].Write?)) else h.log[i].Write?
    ensures LastAttr(h)
  {
    forall i | 0 <= i < |h.log| && h.log[i].Attr? && h.log[i].dead
      ensures HasLater(h.log, i)
    {
      assert HasLater(f.log, i);
      var j :| i < j < |f.log| && f.log[j].Attr?;
      assert h.log[j].Attr?;
    }
  }

  /** The entry just appended becomes the last one; the one before may die. */
  lemma LastAttrNew(f: File, h: File)
    requires LastAttr(f) && |h.log| == |f.log| + 1 && h.lastAttr == Some(|f.log|)
    requires h.log[|f.log|].Attr? && !h.log[|f.log|].dead
    ensures LastAttr(h)
  {
    forall i | 0 <= i < |h.log| && h.log[i].Attr? && h.log[i].dead
      ensures HasLater(h.log, i)
    {
      assert h.log[|f.log|].Attr?;
    }
  }
}
