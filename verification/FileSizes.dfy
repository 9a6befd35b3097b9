/** The sizes that log entries carry never fall short of the pages mapped so far. */
module FileSizes {
  import opened Options
  import opened FileLog
  import opened FileIndex
  import opened FileChunks

  /** Equal but for counters, dead flags, blocks and transactions. */
  predicate SameShape(a: Entry, b: Entry) {
    && a.size == b.size
    && (if a.Write? then b.Write? && a.pgoff == b.pgoff && a.num == b.num else b.Attr? && a.sized == b.sized)
  }

  predicate AllShape(a: seq<Entry>, b: seq<Entry>) {
    |a| == |b| && forall i :: 0 <= i < |a| ==> SameShape(a[i], b[i])
  }

  lemma {:induction false} BaseShape(a: seq<Entry>, b: seq<Entry>)
    requires AllShape(a, b)
    ensures Base(a) == Base(b)
  {
    if a != [] {
      var n := |a| - 1;
      assert SameShape(a[n], b[n]);
      BaseShape(a[..n], b[..n]);
    }
  }

  lemma GrowShape(a: seq<Entry>, b: seq<Entry>)
    requires AllShape(a, b) && AllGrow(a)
    ensures AllGrow(b) && Base(b) == Base(a)
  {
    hide Base, Pages;
    BaseShape(a, b);
    forall i | 0 <= i < |b|
      ensures Grows(b, i)
    {
      assert Grows(a, i) && SameShape(a[i], b[i]);
      BaseShape(a[..i], b[..i]);
    }
  }

  lemma AlikeShape(a: seq<Entry>, b: seq<Entry>)
    requires AllAlike(a, b)
    ensures AllShape(a, b)
  {
    forall i | 0 <= i < |a|
      ensures SameShape(a[i], b[i])
    {
      assert Alike(a[i], b[i]);
    }
  }

  lemma LagShape(a: seq<Entry>, b: seq<Entry>)
    requires AllLag(a, b)
    ensures AllShape(a, b)
  {
    forall i | 0 <= i < |a|
      ensures SameShape(a[i], b[i])
    {
      assert Lags(a[i], b[i]);
    }
  }

  lemma GrowAppend(log: seq<Entry>, e: Entry)
    requires AllGrow(log)
    requires e.Write? ==> Base(log) <= e.size && e.pgoff + e.num <= Pages(e.size)
    ensures AllGrow(log + [e]) && Base(log + [e]) == if e.Attr? && !e.sized then Base(log) else e.size
  {
    hide Pages;
    var out := log + [e];
    assert out[..|log|] == log;
    forall i | 0 <= i < |out|
      ensures Grows(out, i)
    {
      assert out[..i] == log[..i];
      if i < |log| {
        assert Grows(log, i);
      } else {
        assert log[..i] == log;
      }
    }
  }

  // ----- writes -----

  lemma PagesOf(n: nat)
    ensures Pages(n * PAGE) == n
  {}

  /** The size a chunk carries reaches over its pages. */
  lemma ChunkReach(last: nat, size: nat, end: nat)
    requires last <= Pages(end)
    ensures last <= Pages(Max(size, Min(last * PAGE, end)))
  {
    PagesOf(last);
    PagesMono(Min(last * PAGE, end), Max(size, Min(last * PAGE, end)));
  }

  lemma {:induction false} ChunksGrow(log: seq<Entry>, page: nat, end: nat, size: nat, trans: nat, grants: seq<Grant>)
    requires AllGrow(log) && Base(log) == size && page + Sum(grants) <= Pages(end)
    ensures var out := log + Chunks(page, end, size, trans, grants);
            AllGrow(out) && Base(out) == if grants == [] then size else Max(size, Min((page + Sum(grants)) * PAGE, end))
  {
    hide Pages, Base, AllGrow;
    if grants == [] {
      assert log + Chunks(page, end, size, trans, grants) == log;
    } else {
      var n := |grants| - 1;
      var (at, g) := (page + Sum(grants[..n]), grants[n]);
      var last := at + g.num;
      ChunksGrow(log, page, end, size, trans, grants[..n]);
      var init := log + Chunks(page, end, size, trans, grants[..n]);
      var e := Write(at, g.num, g.block, 0, Max(size, Min(last * PAGE, end)), trans);
      ChunkReach(last, size, end);
      assert at * PAGE <= last * PAGE;
      GrowAppend(init, e);
      assert log + Chunks(page, end, size, trans, grants) == init + [e];
    }
  }

  lemma WriteGrows(f: File, pos: nat, len: nat, grants: seq<Grant>)
    requires AllGrow(f.log) && Base(f.log) == f.size && Grantable(pos, len, grants)
    ensures var out := f.log + Chunks(pos / PAGE, pos + len, f.size, f.trans, grants);
            AllGrow(out) && Base(out) == Max(f.size, pos + len)
  {
    hide Pages, Base, AllGrow, Chunks, Sum, Touched;
    TouchedPages(pos, len);
    ChunksGrow(f.log, pos / PAGE, pos + len, f.size, f.trans, grants);
    SumNonzero(grants, pos, len);
    PagesReach(pos + len);
  }

  // ----- attribute changes -----

  lemma KillShape(log: seq<Entry>, last: Option<nat>)
    ensures AllShape(log, Kill(log, last))
  {}

  lemma {:induction false} BaseReplace(log: seq<Entry>, i: nat, e: Entry)
    requires i < |log| && log[i].Attr? && !log[i].sized && e.Attr? && !e.sized
    ensures Base(log[i := e]) == Base(log)
    decreases |log|
  {
    var n := |log| - 1;
    if i < n {
      assert log[i := e][..n] == log[..n][i := e];
      BaseReplace(log[..n], i, e);
    } else {
      assert log[i := e][..n] == log[..n];
    }
  }

  lemma ReplaceGrows(log: seq<Entry>, i: nat, e: Entry)
    requires AllGrow(log) && i < |log| && log[i].Attr? && !log[i].sized && e.Attr? && !e.sized
    ensures AllGrow(log[i := e]) && Base(log[i := e]) == Base(log)
  {
    hide Base, Pages;
    var out := log[i := e];
    BaseReplace(log, i, e);
    forall j | 0 <= j < |out|
      ensures Grows(out, j)
    {
      assert Grows(log, j);
      if i < j {
        assert out[..j] == log[..j][i := e];
        BaseReplace(log[..j], i, e);
      } else {
        assert out[..j] == log[..j];
      }
    }
  }
}
