/** The record lists of a snapshot as the code keeps them: pages of 127 slots whose unused slots hold
    whatever the allocator left there, a tail, and marks that send a walk to the next page. */
module SnapshotLists {
  import opened Snapshot
  import opened SnapshotTheorems
  import opened SnapshotRuns

  datatype Cell = Entry(rec: Rec) | NextPage

  /** The records a page sequence still holds back, in walk order. */
  function LiveIds(recs: seq<Rec>): seq<nat> {
    if recs == [] then [] else LiveIds(recs[..|recs| - 1]) + if Last(recs).deleted then [] else [Last(recs).id]
  }

  function LivePages(list: seq<Page>): seq<nat> {
    if list == [] then [] else LivePages(list[..|list| - 1]) + LiveIds(Last(list).recs)
  }

  lemma {:induction false} LiveIdsPend(recs: seq<Rec>)
    ensures multiset(LiveIds(recs)) == PendRecs(recs)
  {
    if recs != [] {
      LiveIdsPend(recs[..|recs| - 1]);
    }
  }

  /** The walk order lists every extent as often as the page list holds it back. */
  lemma {:induction false} LivePagesPend(list: seq<Page>)
    ensures multiset(LivePages(list)) == Pend(list)
  {
    if list != [] {
      LivePagesPend(list[..|list| - 1]);
      LiveIdsPend(Last(list).recs);
    }
  }

  lemma LiveIdsStep(recs: seq<Rec>, s: nat)
    requires s < |recs|
    ensures LiveIds(recs[..s + 1]) == LiveIds(recs[..s]) + if recs[s].deleted then [] else [recs[s].id]
  {
    assert recs[..s + 1][..s] == recs[..s];
  }

  lemma LivePagesStep(list: seq<Page>, p: nat)
    requires p < |list|
    ensures LivePages(list[..p + 1]) == LivePages(list[..p]) + LiveIds(list[p].recs)
  {
    assert list[..p + 1][..p] == list[..p];
  }

  lemma LiveNone(list: seq<Page>)
    requires list != []
    ensures LivePages(list[..0]) == [] && LiveIds(list[0].recs[..0]) == []
  {}

  class SnapshotList {
    var cells: seq<seq<Cell>>
    var epochs: seq<nat>
    var tailPage: nat
    var tailSlot: nat

    ghost predicate PageHolds(p: nat, page: Page, last: bool)
      reads this
    {
      && p < |cells| && p < |epochs|
      && |cells[p]| == RECORDS_PER_PAGE && |page.recs| <= RECORDS_PER_PAGE && epochs[p] == page.epoch
      && (forall s :: 0 <= s < |page.recs| ==> cells[p][s] == Entry(page.recs[s]))
      && (!last && |page.recs| < RECORDS_PER_PAGE ==> cells[p][|page.recs|] == NextPage)
    }

    /** The list holds these pages; slots past a page's records are unconstrained. */
    ghost predicate Holds(list: seq<Page>)
      reads this
    {
      && list != [] && |cells| == |list| && |epochs| == |list|
      && tailPage == |list| - 1 && tailSlot == |Last(list).recs|
      && forall p :: 0 <= p < |list| ==> PageHolds(p, list[p], p == |list| - 1)
    }

    /** What the list's own fields are, and its page p. */
    lemma Facts(list: seq<Page>, p: nat)
      requires Holds(list) && p < |list|
      ensures tailPage == |list| - 1 && tailSlot == |Last(list).recs| && |cells| == |epochs| == |list|
      ensures epochs[p] == list[p].epoch && PageHolds(p, list[p], p == |list| - 1)
    {
      assert PageHolds(p, list[p], p == |list| - 1);
    }

    constructor (epoch: nat, raw: seq<Cell>)
      requires |raw| == RECORDS_PER_PAGE
      ensures Holds([Page(epoch, [])])
    {
      cells, epochs, tailPage, tailSlot := [raw], [epoch], 0, 0;
    }

    /** nova_append_snapshot_list_entry: a full page gets a successor with uninitialised slots. */
    method Append(epoch: nat, r: Rec, raw: seq<Cell>, ghost list: seq<Page>)
      requires Holds(list) && |raw| == RECORDS_PER_PAGE
      modifies this
      ensures Holds(AppendRec(list, epoch, r))
    {
      if tailSlot >= RECORDS_PER_PAGE {
        cells, epochs := cells + [raw], epochs + [epoch];
        tailPage, tailSlot := tailPage + 1, 0;
      }
      cells := cells[tailPage := cells[tailPage][tailSlot := Entry(r)]];
      tailSlot := tailSlot + 1;
    }

    /** nova_link_to_next_snapshot for one CPU: mark the end of this list and put it in front of `next`. */
    method LinkTo(next: SnapshotList, ghost list: seq<Page>, ghost nextList: seq<Page>)
      requires next != this && Holds(list) && next.Holds(nextList)
      modifies this, next
      ensures next.Holds(list + nextList)
    {
      if tailSlot < RECORDS_PER_PAGE && cells[tailPage][tailSlot] != NextPage {
        cells := cells[tailPage := cells[tailPage][tailSlot := NextPage]];
      }
      next.cells, next.epochs := cells + next.cells, epochs + next.epochs;
      next.tailPage := tailPage + 1 + next.tailPage;
      var all := list + nextList;
      forall p | 0 <= p < |all|
        ensures next.PageHolds(p, all[p], p == |all| - 1)
      {
        if p >= |list| {
          assert old(next.PageHolds(p - |list|, nextList[p - |list|], p - |list| == |nextList| - 1));
        } else {
          assert old(PageHolds(p, list[p], p == |list| - 1));
        }
      }
    }

    /** nova_delete_snapshot_list_entries: the extents it frees, in order. The walk strays, reading a
        next-page mark as a record, if and only if a page between the first and the last is empty. */
    method DeleteEntries(ghost list: seq<Page>) returns (freed: seq<nat>, stray: bool)
      requires Holds(list)
      ensures stray <==> !WalkClear(list)
      ensures !stray ==> freed == LivePages(list)
    {
      hide LivePages, LiveIds;
      freed, stray := [], false;
      var p, s := 0, 0;
      LiveNone(list);
      while !(p == tailPage && s == tailSlot)
        invariant p < |list| && s <= |list[p].recs|
        invariant freed == LivePages(list[..p]) + LiveIds(list[p].recs[..s])
        invariant forall i :: 1 <= i <= p && i < |list| - 1 ==> list[i].recs != []
        decreases |list| - p, RECORDS_PER_PAGE - s
      {
        assert PageHolds(p, list[p], p == |list| - 1);
        if s >= RECORDS_PER_PAGE || cells[p][s] == NextPage {
          assert list[p].recs[..s] == list[p].recs;
          LivePagesStep(list, p);
          LiveNone(list[p + 1..]);
          p, s := p + 1, 0;
          assert PageHolds(p, list[p], p == |list| - 1);
          if p == tailPage && s == tailSlot {
            break;
          }
        }
        match cells[p][s]
        case NextPage =>
          stray := true;
          return;
        case Entry(r) =>
          LiveIdsStep(list[p].recs, s);
          if !r.deleted {
            freed := freed + [r.id];
          }
          s := s + 1;
      }
      assert list[p].recs[..s] == list[p].recs;
      LivePagesStep(list, p);
      assert list[..p + 1] == list;
    }

    /** nova_background_clean_write_entry */
    method CleanEntry(p: nat, s: nat, epoch: nat, ghost list: seq<Page>) returns (freed: seq<nat>)
      requires Holds(list) && p < |list| && s < |list[p].recs|
      modifies this`cells
      ensures Holds(SetRec(list, p, s, CleanRec(list[p].recs[s], epoch)))
      ensures multiset(freed) + Pend(SetRec(list, p, s, CleanRec(list[p].recs[s], epoch))) == Pend(list)
    {
      hide Pend;
      assert PageHolds(p, list[p], p == |list| - 1);
      var r := cells[p][s].rec;
      freed := [];
      PendSet(list, p, s, CleanRec(r, epoch));
      ghost var out := SetRec(list, p, s, CleanRec(r, epoch));
      if !r.deleted && r.del <= epoch {
        freed := [r.id];
        cells := cells[p := cells[p][s := Entry(r.(deleted := true))]];
      }
      forall i | 0 <= i < |list|
        ensures PageHolds(i, out[i], i == |list| - 1)
      {
        assert old(PageHolds(i, list[i], i == |list| - 1));
      }
    }

    /** nova_background_clean_snapshot_list: free and mark the expired records of the inherited pages.
        The walk strays if and only if an inherited page other than the first is empty. */
    method CleanEntries(epoch: nat, ghost list: seq<Page>) returns (freed: seq<nat>, stray: bool)
      requires Holds(list) && Rising(list, epoch)
      modifies this`cells
      ensures stray <==> !CleanClear(list, epoch)
      ensures !stray ==> Holds(CleanPages(list, epoch)) && multiset(freed) == Pend(list) - Pend(CleanPages(list, epoch))
    {
      hide Pend, CleanPages, Rising, CleanClear, Holds, Sweeping;
      freed, stray := [], false;
      var p, s := 0, 0;
      ghost var now := list;
      SweepBegins(list, epoch);
      while epochs[p] < epoch && !(p == tailPage && s == tailSlot)
        invariant p < |list| && s <= |list[p].recs| && Sweeping(list, now, epoch, p, s, freed)
        invariant |epochs| == |list| && epochs[p] == list[p].epoch && (p > 0 ==> s > 0)
        invariant tailPage == |list| - 1 && tailSlot == |list[|list| - 1].recs|
        decreases |list| - p, RECORDS_PER_PAGE - s
      {
        SweepAt(list, now, epoch, p, s, freed);
        if s >= RECORDS_PER_PAGE || cells[p][s] == NextPage {
          SweepHop(list, now, epoch, p, s, freed);
          p, s := p + 1, 0;
          SweepAt(list, now, epoch, p, s, freed);
          if (p == tailPage && s == tailSlot) || epochs[p] == epoch {
            break;
          }
        }
        match cells[p][s]
        case NextPage =>
          stray := true;
          NotClear(list, epoch, p);
          return;
        case Entry(r) =>
          freed, now := SweepEntry(list, now, epoch, p, s, freed);
          s := s + 1;
      }
      SweepEnds(list, now, epoch, p, s, freed);
    }

    /** The sweep stands at slot s of page p; `now` is what the pages hold by then. */
    ghost predicate Sweeping(list: seq<Page>, now: seq<Page>, epoch: nat, p: nat, s: nat, freed: seq<nat>)
      reads this
    {
      && Holds(now) && Rising(list, epoch) && Swept(list, now, epoch, p, s)
      && multiset(freed) + Pend(now) == Pend(list)
      && (list[p].epoch == epoch ==> s == 0)
      && (forall i :: 1 <= i <= p && list[i].epoch < epoch && (i < p || s > 0) ==> list[i].recs != [])
    }

    lemma SweepBegins(list: seq<Page>, epoch: nat)
      requires Holds(list) && Rising(list, epoch)
      ensures list != [] && Sweeping(list, list, epoch, 0, 0, []) && |epochs| == |list| && epochs[0] == list[0].epoch
      ensures tailPage == |list| - 1 && tailSlot == |list[|list| - 1].recs|
    {
      hide Pend, Rising, Swept;
      RisingEnds(list, epoch);
      SweptNone(list, epoch);
      Facts(list, 0);
    }

    /** What the walk reads at slot s of page p. */
    lemma SweepAt(list: seq<Page>, now: seq<Page>, epoch: nat, p: nat, s: nat, freed: seq<nat>)
      requires p < |list| && Sweeping(list, now, epoch, p, s, freed)
      ensures |cells| == |epochs| == |list| && epochs[p] == list[p].epoch && s <= |list[p].recs| <= RECORDS_PER_PAGE
      ensures |cells[p]| == RECORDS_PER_PAGE && tailPage == |list| - 1 && tailSlot == |list[|list| - 1].recs|
      ensures epochs[p] <= epoch && (p == |list| - 1 ==> epochs[p] == epoch)
      ensures s < |list[p].recs| ==> cells[p][s].Entry?
      ensures s == |list[p].recs| && p < |list| - 1 ==> s >= RECORDS_PER_PAGE || cells[p][s] == NextPage
    {
      hide Pend, Rising, Swept, Holds;
      SweptSizes(list, now, epoch, p, s);
      RisingEnds(list, epoch);
      Facts(now, p);
      Facts(now, |list| - 1);
    }

    lemma SweepHop(list: seq<Page>, now: seq<Page>, epoch: nat, p: nat, s: nat, freed: seq<nat>)
      requires p + 1 < |list| && Sweeping(list, now, epoch, p, s, freed) && s == |list[p].recs| && list[p].epoch < epoch
      requires p > 0 ==> s > 0
      ensures Sweeping(list, now, epoch, p + 1, 0, freed)
    {
      hide Pend, Rising, Swept, Holds;
      SweptHop(list, now, epoch, p, s);
    }

    method SweepEntry(ghost list: seq<Page>, ghost now: seq<Page>, epoch: nat, p: nat, s: nat, freed: seq<nat>)
      returns (out: seq<nat>, ghost next: seq<Page>)
      requires p < |list| && Sweeping(list, now, epoch, p, s, freed) && s < |list[p].recs| && list[p].epoch < epoch
      modifies this`cells
      ensures Sweeping(list, next, epoch, p, s + 1, out)
    {
      hide Pend, CleanRecs, CleanPages, SetRec, CleanRec, CleanPage, Swept, Rising, Holds;
      SweptSizes(list, now, epoch, p, s);
      SweptStep(list, now, epoch, p, s);
      var one := CleanEntry(p, s, epoch, now);
      out := freed + one;
      next := SetRec(now, p, s, CleanRec(now[p].recs[s], epoch));
    }

    lemma SweepEnds(list: seq<Page>, now: seq<Page>, epoch: nat, p: nat, s: nat, freed: seq<nat>)
      requires p < |list| && Sweeping(list, now, epoch, p, s, freed) && (list[p].epoch >= epoch || p == |list| - 1)
      ensures CleanClear(list, epoch) && Holds(CleanPages(list, epoch))
      ensures multiset(freed) == Pend(list) - Pend(CleanPages(list, epoch))
    {
      hide Pend, CleanPages, Swept, Holds;
      SweptSizes(list, now, epoch, p, s);
      RisingEnds(list, epoch);
      SweptAll(list, now, epoch, p, s);
      ClearTo(list, epoch, p);
    }
  }

  lemma RisingEnds(list: seq<Page>, epoch: nat)
    requires Rising(list, epoch)
    ensures list != [] && list[|list| - 1].epoch == epoch && forall i :: 0 <= i < |list| ==> list[i].epoch <= epoch
  {}

  lemma NotClear(list: seq<Page>, epoch: nat, p: nat)
    requires 1 <= p < |list| && list[p].epoch < epoch && list[p].recs == []
    ensures !CleanClear(list, epoch)
  {}

  lemma ClearTo(list: seq<Page>, epoch: nat, p: nat)
    requires Rising(list, epoch) && p < |list| && list[p].epoch == epoch
    requires forall i :: 1 <= i <= p && list[i].epoch < epoch ==> list[i].recs != []
    ensures CleanClear(list, epoch)
  {}

  function SetRec(list: seq<Page>, p: nat, s: nat, r: Rec): seq<Page>
    requires p < |list| && s < |list[p].recs|
  {
    list[p := list[p].(recs := list[p].recs[s := r])]
  }

  /** Pages before p and the first s records of page p are cleaned, the rest is as before. */
  ghost predicate Swept(list: seq<Page>, now: seq<Page>, epoch: nat, p: nat, s: nat) {
    && |now| == |list| && p < |list| && s <= |list[p].recs|
    && (forall i :: 0 <= i < p ==> now[i] == CleanPage(list[i], epoch))
    && (forall i :: p < i < |list| ==> now[i] == list[i])
    && now[p].epoch == list[p].epoch
    && now[p].recs == CleanRecs(list[p].recs[..s], epoch) + list[p].recs[s..]
  }

  lemma SweptNone(list: seq<Page>, epoch: nat)
    requires list != []
    ensures Swept(list, list, epoch, 0, 0)
  {
    assert CleanRecs([], epoch) == [];
    assert list[0].recs[..0] == [] && [] + list[0].recs == list[0].recs;
  }

  lemma SweptSizes(list: seq<Page>, now: seq<Page>, epoch: nat, p: nat, s: nat)
    requires Swept(list, now, epoch, p, s)
    ensures |now| == |list|
    ensures (forall i :: 0 <= i < |list| ==> now[i].epoch == list[i].epoch && |now[i].recs| == |list[i].recs|)
    ensures p < |list| && s <= |list[p].recs|
    ensures s < |list[p].recs| ==> now[p].recs[s] == list[p].recs[s]
  {}

  lemma SweptStep(list: seq<Page>, now: seq<Page>, epoch: nat, p: nat, s: nat)
    requires Swept(list, now, epoch, p, s) && s < |list[p].recs| && s < |now[p].recs|
    ensures Swept(list, SetRec(now, p, s, CleanRec(now[p].recs[s], epoch)), epoch, p, s + 1)
  {
    var (recs, done) := (list[p].recs, CleanRecs(list[p].recs[..s], epoch));
    assert now[p].recs[s] == recs[s];
    assert CleanRecs(recs[..s + 1], epoch) == done + [CleanRec(recs[s], epoch)];
    assert (done + recs[s..])[s := CleanRec(recs[s], epoch)] == done + [CleanRec(recs[s], epoch)] + recs[s + 1..];
  }

  lemma SweptHop(list: seq<Page>, now: seq<Page>, epoch: nat, p: nat, s: nat)
    requires Swept(list, now, epoch, p, s) && s == |list[p].recs| && list[p].epoch < epoch && p + 1 < |list|
    ensures Swept(list, now, epoch, p + 1, 0)
  {
    assert list[p].recs[..s] == list[p].recs && list[p].recs[s..] == [];
    assert now[p] == CleanPage(list[p], epoch);
    assert CleanRecs([], epoch) == [];
    assert list[p + 1].recs[..0] == [];
  }

  /** A sweep that stopped on a page of the snapshot's own epoch has cleaned the whole list. */
  lemma SweptAll(list: seq<Page>, now: seq<Page>, epoch: nat, p: nat, s: nat)
    requires Swept(list, now, epoch, p, s) && Rising(list, epoch) && list[p].epoch == epoch && s == 0
    ensures now == CleanPages(list, epoch)
  {
    assert CleanRecs([], epoch) == [];
    assert list[p].recs[..0] == [];
    assert now[p] == list[p];
  }

  lemma {:induction false} PendRecsSet(recs: seq<Rec>, s: nat, r: Rec)
    requires s < |recs| && r.id == recs[s].id && (recs[s].deleted ==> r.deleted)
    ensures PendRecs(recs) ==
              PendRecs(recs[s := r]) + if r.deleted && !recs[s].deleted then multiset{r.id} else multiset{}
  {
    var n := |recs| - 1;
    if s < n {
      PendRecsSet(recs[..n], s, r);
      assert recs[s := r][..n] == recs[..n][s := r];
    } else {
      assert recs[s := r][..n] == recs[..n];
    }
  }

  lemma {:induction false} PendSet(list: seq<Page>, p: nat, s: nat, r: Rec)
    requires p < |list| && s < |list[p].recs| && r.id == list[p].recs[s].id && (list[p].recs[s].deleted ==> r.deleted)
    ensures Pend(list) ==
              Pend(SetRec(list, p, s, r)) + if r.deleted && !list[p].recs[s].deleted then multiset{r.id} else multiset{}
  {
    hide PendRecs;
    var n := |list| - 1;
    var out := SetRec(list, p, s, r);
    if p < n {
      PendSet(list[..n], p, s, r);
      assert out[..n] == SetRec(list[..n], p, s, r);
    } else {
      PendRecsSet(list[p].recs, s, r);
      assert out[..n] == list[..n];
    }
  }
}
