/** How the entries of one write lie behind each other. */
module FileChunks {
  import opened FileLog
  import opened FileIndex

  /** A write reaches exactly to the page of its last byte. */
  lemma TouchedPages(pos: nat, len: nat)
    requires len > 0
    ensures pos / PAGE + Touched(pos, len) == Pages(pos + len)
  {
    var (q, r) := (pos / PAGE, pos % PAGE);
    assert pos == PAGE * q + r;
    DivShift(q, r + len + PAGE - 1);
    DivShift(1, r + len - 1);
  }

  lemma DivShift(q: nat, x: nat)
    ensures (PAGE * q + x) / PAGE == q + x / PAGE
  {}

  lemma {:induction false} SumPrefix(grants: seq<Grant>, i: nat)
    requires i <= |grants|
    ensures Sum(grants[..i]) <= Sum(grants)
    decreases |grants|
  {
    if i < |grants| {
      var n := |grants| - 1;
      SumPrefix(grants[..n], i);
      assert grants[..n][..i] == grants[..i];
    } else {
      assert grants[..i] == grants;
    }
  }

  lemma {:induction false} ChunkAt(page: nat, end: nat, size: nat, trans: nat, grants: seq<Grant>, i: nat)
    requires i < |grants|
    ensures var at := page + Sum(grants[..i]);
            Chunks(page, end, size, trans, grants)[i] ==
              Write(at, grants[i].num, grants[i].block, 0, Max(size, Min((at + grants[i].num) * PAGE, end)), trans)
  {
    var n := |grants| - 1;
    if i < n {
      ChunkAt(page, end, size, trans, grants[..n], i);
      assert grants[..n][..i] == grants[..i];
    }
  }

  lemma SumStep(grants: seq<Grant>, i: nat)
    requires i < |grants|
    ensures Sum(grants[..i + 1]) == Sum(grants[..i]) + grants[i].num
  {
    assert grants[..i + 1][..i] == grants[..i];
  }

  /** The chunks of a write follow each other without overlap and end at its last page. */
  lemma ChunksLaidOut(page: nat, end: nat, size: nat, trans: nat, grants: seq<Grant>, i: nat)
    requires i < |grants|
    ensures var out := Chunks(page, end, size, trans, grants);
            && out[i].invalid == 0
            && out[i].pgoff + out[i].num <= page + Sum(grants)
            && (forall j :: i < j < |grants| ==> out[i].pgoff + out[i].num <= out[j].pgoff)
  {
    hide Chunks;
    var out := Chunks(page, end, size, trans, grants);
    ChunkAt(page, end, size, trans, grants, i);
    SumStep(grants, i);
    SumPrefix(grants, i + 1);
    forall j | i < j < |grants|
      ensures out[i].pgoff + out[i].num <= out[j].pgoff
    {
      ChunkAt(page, end, size, trans, grants, j);
      SumPrefix(grants[..j], i + 1);
      assert grants[..j][..i + 1] == grants[..i + 1];
    }
  }

  lemma SumNonzero(grants: seq<Grant>, pos: nat, len: nat)
    requires Grantable(pos, len, grants)
    ensures grants != []
  {}

  lemma PagesReach(size: nat)
    ensures size <= Pages(size) * PAGE
  {}
}
