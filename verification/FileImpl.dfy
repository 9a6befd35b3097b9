/** The file operations as the code performs them: loops over the radix tree that gather runs of pages
    of one old entry and free each run at once. */
module FileImpl {
  import opened Options
  import opened FileLog
  import opened FileIndex
  import opened FileCounts
  import opened FileAssign
  import opened FileChunks
  import opened FileTheorems
  import opened FileShows

  class RegularFile {
    var log: seq<Entry>
    var tree: map<nat, nat>
    var size: nat
    var trans: nat
    var lastAttr: Option<nat>
    var freed: multiset<nat>

    ghost function State(): File
      reads this
    {
      File(log, tree, size, trans, lastAttr, freed)
    }

    constructor ()
      ensures State() == NewFile()
    {
      log, tree, size, trans, lastAttr, freed := [], map[], 0, 0, None, multiset{};
    }

    /** nova_free_old_entry: n pages of entry i from page pgoff on. */
    method FreeOldEntry(i: nat, pgoff: nat, n: nat)
      requires i < |log| && Covers(log[i], pgoff)
      modifies this`log, this`freed
      ensures log == old(log)[i := old(log)[i].(invalid := old(log)[i].invalid + n)]
      ensures freed == old(freed) + Run(old(log)[i].block + (pgoff - old(log)[i].pgoff), n)
    {
      var e := log[i];
      log := log[i := e.(invalid := e.invalid + n)];
      freed := freed + FileIndex.Run(e.block + (pgoff - e.pgoff), n);
    }

    /** nova_assign_write_entry */
    method AssignWriteEntry(i: nat, free: bool)
      requires i < |log| && log[i].Write? && (free ==> Sound(log, tree))
      modifies this`log, this`tree, this`freed
      ensures tree == Overlay(old(tree), old(log)[i].pgoff, old(log)[i].num, i)
      ensures if free then State() == Assign(old(State()), i) else log == old(log) && freed == old(freed)
    {
      hide Count, Refs, Mark, Overlay, FileIndex.Run, Flushed;
      var (start, num) := (log[i].pgoff, log[i].num);
      ghost var (log0, tree0, freed0) := (log, tree, freed);
      var old_: Option<nat>, oldPage: nat, numFree: nat := None, 0, 0;
      Started(log0, tree0, freed0, start, i);
      for j := 0 to num
        invariant tree == Overlay(tree0, start, j, i)
        invariant free ==> Gathered(tree0, start, start + j, old_, oldPage, numFree)
        invariant if free then Flushed(log0, tree0, freed0, start, if old_.Some? then oldPage else start, log, freed)
                  else log == log0 && freed == freed0
      {
        var page := start + j;
        OverlayAt(tree0, start, j, i, page);
        OverlayGrow(tree0, start, j, i);
        if page in tree {
          var o := tree[page];
          if Some(o) != old_ {
            if old_.Some? && free {
              RunCovered(log0, tree0, start, page, old_.value, oldPage, numFree);
              FlushStep(log0, tree0, freed0, start, page, old_.value, oldPage, numFree, log, freed);
              FreeOldEntry(old_.value, oldPage, numFree);
            } else if free {
              FlushNone(log0, tree0, freed0, start, page, log, freed);
            }
            old_, oldPage, numFree := Some(o), page, 1;
          } else {
            if free {
              NoGap(log0, tree0, start, page, o, oldPage, numFree);
            }
            numFree := numFree + 1;
          }
        }
        tree := tree[page := i];
      }
      if old_.Some? && free {
        RunCovered(log0, tree0, start, start + num, old_.value, oldPage, numFree);
        FlushStep(log0, tree0, freed0, start, start + num, old_.value, oldPage, numFree, log, freed);
        FreeOldEntry(old_.value, oldPage, numFree);
      } else if free {
        FlushNone(log0, tree0, freed0, start, start + num, log, freed);
      }
      if free {
        Finished(log0, tree0, freed0, start, start + num, log, freed);
      }
    }

    /** nova_find_next_entry: the entry of the least mapped page from `page` on. */
    method FindNextEntry(page: nat) returns (entry: Option<nat>, ghost at: nat)
      ensures entry.None? ==> forall q :: q in tree ==> q < page
      ensures entry.Some? ==>
                at in tree && at >= page && tree[at] == entry.value && forall q :: q in tree && q >= page ==> at <= q
    {
      entry, at := None, 0;
      var keys: set<nat> := set q | q in tree && q >= page;
      ghost var all := keys;
      assert forall q :: q in tree && q >= page ==> q in all;
      var least: nat := page;
      while keys != {}
        invariant keys <= all && (entry.None? ==> keys == all)
        invariant entry.Some? ==> least in tree && least >= page && tree[least] == entry.value
        invariant entry.Some? ==> forall q :: q in tree && q >= page && q !in keys ==> least <= q
        decreases |keys|
      {
        var q: nat :| q in keys;
        if entry.None? || q < least {
          least, entry := q, Some(tree[q]);
        }
        keys := keys - {q};
      }
      at := least;
    }

    /** nova_delete_file_tree from page `first` on: no page from `top` on is mapped. */
    method DeleteFileTree(first: nat, free: bool, ghost top: nat)
      requires Covering(log, tree) && (free ==> Sound(log, tree)) && Under(tree, top) && first <= top
      modifies this`log, this`tree, this`freed
      ensures tree == Below(old(tree), first)
      ensures if free then State() == Trim(old(State()), first, top) else log == old(log) && freed == old(freed)
    {
      hide Count, Refs, Mark, Below, FileIndex.Run, Removed, Flushed;
      ghost var (log0, tree0, freed0) := (log, tree, freed);
      var page := first;
      var old_: Option<nat>, oldPage: nat, numFree: nat := None, 0, 0;
      Started(log0, tree0, freed0, first, 0);
      while true
        invariant first <= page <= top && Removed(tree0, tree, first, page)
        invariant free ==> Gathered(tree0, first, page, old_, oldPage, numFree)
        invariant if free then Flushed(log0, tree0, freed0, first, if old_.Some? then oldPage else first, log, freed)
                  else log == log0 && freed == freed0
        decreases top - page
      {
        StillThere(tree0, tree, first, page);
        if page in tree {
          var o := tree[page];
          RemovedStep(tree0, tree, first, page);
          tree := tree - {page};
          if Some(o) != old_ {
            if old_.Some? && free {
              RunCovered(log0, tree0, first, page, old_.value, oldPage, numFree);
              FlushStep(log0, tree0, freed0, first, page, old_.value, oldPage, numFree, log, freed);
              FreeOldEntry(old_.value, oldPage, numFree);
            } else if free {
              FlushNone(log0, tree0, freed0, first, page, log, freed);
            }
            old_, oldPage, numFree := Some(o), page, 1;
          } else {
            if free {
              NoGap(log0, tree0, first, page, o, oldPage, numFree);
            }
            numFree := numFree + 1;
          }
          page := page + 1;
        } else {
          var entry, at := FindNextEntry(page);
          HoleAhead(tree0, tree, first, page, top, entry, at);
          if entry.None? {
            break;
          }
          AlikeSelf(log0);
          if free {
            Finished(log0, tree0, freed0, first, if old_.Some? then oldPage else first, log, freed);
          }
          JumpTarget(log0, tree0, log, at, entry.value);
          RemovedJump(tree0, tree, first, page, at, Max(page + 1, log[entry.value].pgoff));
          page := Max(page + 1, log[entry.value].pgoff);
        }
      }
      RemovedAll(tree0, tree, first, page);
      if old_.Some? && free {
        RunCovered(log0, tree0, first, top, old_.value, oldPage, numFree);
        FlushStep(log0, tree0, freed0, first, top, old_.value, oldPage, numFree, log, freed);
        FreeOldEntry(old_.value, oldPage, numFree);
      } else if free {
        FlushNone(log0, tree0, freed0, first, top, log, freed);
      }
      if free {
        Finished(log0, tree0, freed0, first, top, log, freed);
      }
    }

    /** nova_reassign_file_tree */
    method ReassignFileTree(from: nat, ghost top: nat)
      requires Partial(State(), from, top)
      modifies this`log, this`tree, this`freed
      ensures from <= old(|log|) && forall k :: from <= k < old(|log|) ==> old(log)[k].Write?
      ensures State() == AssignAll(old(State()), from)
    {
      hide Partial, Assign;
      PartialRest(State(), from, top);
      var i := from;
      while i < |log|
        invariant from <= i <= |log| == old(|log|) && Partial(State(), i, top)
        invariant forall k :: i <= k < |log| ==> log[k].Write?
        invariant AssignAll(State(), i) == AssignAll(old(State()), from)
        decreases |log| - i
      {
        PartialSound(State(), i, top);
        AssignPartial(State(), i, top);
        AssignFrame(State(), i);
        AssignWriteEntry(i, true);
        i := i + 1;
        PartialRest(State(), i, top);
      }
    }

    /** do_nova_cow_file_write; the allocator's answers are given, and every copy succeeds. */
    method CopyOnWrite(pos: nat, len: nat, grants: seq<Grant>)
      requires Inv(State()) && Grantable(pos, len, grants)
      modifies this
      ensures State() == CowWrite(old(State()), pos, len, grants)
      ensures ViewOf(State()) == WriteView(ViewOf(old(State())), pos, len, grants)
    {
      hide Inv, Partial, Chunks, Sum, Touched, AssignAll, Pages, ViewOf, WriteView;
      WriteShows(State(), pos, len, grants);
      var at: nat, count: nat, numBlocks: nat, k: nat := pos, len, Touched(pos, len), 0;
      var entries := [];
      ChunksNone(pos / PAGE, pos + len, size, trans, grants);
      while numBlocks > 0
        invariant k <= |grants| && entries == Chunks(pos / PAGE, pos + len, size, trans, grants[..k])
        invariant numBlocks + Sum(grants[..k]) == Touched(pos, len)
        invariant at + count == pos + len && at == Reached(pos, len, Sum(grants[..k]))
        invariant unchanged(this)
        decreases numBlocks
      {
        GrantLeft(pos, len, grants, k);
        var (offset, start, grant) := (at % PAGE, at / PAGE, grants[k]);
        var bytes := PAGE * grant.num - offset;
        if bytes > count {
          bytes := count;
        }
        ReachedStep(pos, len, Sum(grants[..k]), grant.num);
        var fileSize := if at + bytes > size then at + bytes else size;
        ChunksMore(pos / PAGE, pos + len, size, trans, grants, k);
        entries := entries + [Write(start, grant.num, grant.block, 0, fileSize, trans)];
        at, count, numBlocks, k := at + bytes, count - bytes, numBlocks - grant.num, k + 1;
      }
      AllGranted(pos, len, grants, k);
      WriteReady(State(), pos, len, grants);
      var tail := |log|;
      log := log + entries;
      ReassignFileTree(tail, Pages(Max(size, pos + len)));
      if at > size {
        size := at;
      }
      trans := trans + 1;
    }

    /** nova_append_setattr_entry and the invalidation of the entry before it. */
    method AppendSetAttr(sized: bool, newSize: nat)
      modifies this`log, this`lastAttr
      ensures log == Kill(old(log), old(lastAttr)) + [Attr(sized, false, newSize, trans)]
      ensures lastAttr == Some(old(|log|))
    {
      var last := lastAttr;
      lastAttr := Some(|log|);
      log := log + [Attr(sized, false, newSize, trans)];
      if last.Some? && last.value < |log| - 1 && log[last.value].Attr? && !log[last.value].sized {
        log := log[last.value := log[last.value].(dead := true)];
      }
    }

    /** nova_notify_change with a new size, nova_setsize and nova_truncate_file_blocks */
    method TruncateTo(newSize: nat)
      requires Inv(State())
      modifies this
      ensures State() == Truncate(old(State()), newSize)
      ensures ViewOf(State()) == TruncateView(ViewOf(old(State())), newSize)
    {
      hide Pages, Trim, Kill, Inv, Sound, Covering, Under, ViewOf, TruncateView;
      TruncateCuts(State(), newSize);
      ghost var was := State();
      var oldSize := size;
      TruncateReady(State(), newSize);
      AppendSetAttr(true, newSize);
      if newSize != oldSize {
        size := newSize;
        if oldSize > 0 && Pages(newSize) <= (oldSize - 1) / PAGE {
          DropFits(oldSize, newSize);
          trans := trans + 1;
          DeleteFileTree(Pages(newSize), true, Pages(oldSize));
          return;
        }
      }
      trans := trans + 1;
    }

    /** nova_notify_change without a new size */
    method ChangeAttributes()
      modifies this
      ensures State() == SetAttr(old(State()))
    {
      if lastAttr.Some? && lastAttr.value < |log| && log[lastAttr.value].Attr? && !log[lastAttr.value].sized {
        log := log[lastAttr.value := Attr(false, false, size, trans)];
      } else {
        AppendSetAttr(false, size);
      }
      trans := trans + 1;
    }

    /** nova_rebuild_file_inode_tree: the page map, size, transaction number and last attribute entry a log
        replays to. The blocks its entries no longer refer to are free. */
    constructor Rebuild(entries: seq<Entry>)
      ensures State() == Mounted(entries)
    {
      log, tree, size, trans, lastAttr, freed := entries, map[], 0, 0, None, multiset{};
      new;
      hide Rebuilt, RebuiltSize, LastAttrOf, Granted, Refs;
      RebuiltNothing(entries);
      for i := 0 to |entries|
        invariant log == entries && tree == Rebuilt(entries[..i]) && (size, trans) == RebuiltSize(entries[..i])
        invariant lastAttr == LastAttrOf(entries[..i])
      {
        ReplayEntry(i);
      }
      assert entries[..|entries|] == entries;
      if |entries| > 0 {
        trans := trans + 1;
      }
      freed := Granted(log) - Refs(log, tree, 0, Pages(size));
    }

    /** One entry of the replay. */
    method ReplayEntry(i: nat)
      requires i < |log| && tree == Rebuilt(log[..i]) && (size, trans) == RebuiltSize(log[..i])
      requires lastAttr == LastAttrOf(log[..i])
      modifies this
      ensures log == old(log) && tree == Rebuilt(log[..i + 1]) && (size, trans) == RebuiltSize(log[..i + 1])
      ensures lastAttr == LastAttrOf(log[..i + 1])
    {
      hide Rebuilt, RebuiltSize, Overlay, Below, LastAttrOf, Granted, Refs;
      RebuiltStep(log, i);
      match log[i] {
        case Write(_, num, _, invalid, _, _) =>
          if num != invalid {
            AssignWriteEntry(i, false);
          }
        case Attr(_, _, newSize, _) =>
          CoveringMore(log, i);
          DeleteFileTree(Pages(newSize), false, Max(MapTop(tree), Pages(newSize)));
          lastAttr := Some(i);
      }
      if log[i].trans >= trans {
        size, trans := log[i].size, log[i].trans;
      }
    }
  }

  // ----- what the gathering loops know -----

  /** Mapped pages belong to entries that cover them. */
  ghost predicate Covering(log: seq<Entry>, tree: map<nat, nat>) {
    forall q :: q in tree ==> tree[q] < |log| && Covers(log[tree[q]], q)
  }

  /** The pages from first to page are gone from the map. */
  ghost predicate Removed(tree0: map<nat, nat>, tree: map<nat, nat>, first: nat, page: nat) {
    forall p: nat :: At(tree, p) == if first <= p < page then None else At(tree0, p)
  }

  lemma StillThere(tree0: map<nat, nat>, tree: map<nat, nat>, first: nat, page: nat)
    requires Removed(tree0, tree, first, page)
    ensures At(tree, page) == At(tree0, page)
  {}

  lemma RemovedStep(tree0: map<nat, nat>, tree: map<nat, nat>, first: nat, page: nat)
    requires Removed(tree0, tree, first, page) && first <= page
    ensures Removed(tree0, tree - {page}, first, page + 1)
  {
    forall p: nat
      ensures At(tree - {page}, p) == if first <= p < page + 1 then None else At(tree0, p)
    {
      assert At(tree, p) == if first <= p < page then None else At(tree0, p);
    }
  }

  lemma RemovedJump(tree0: map<nat, nat>, tree: map<nat, nat>, first: nat, page: nat, at: nat, to: nat)
    requires Removed(tree0, tree, first, page) && first <= page <= to <= at
    requires forall p: nat :: page <= p < at ==> At(tree0, p) == None
    ensures Removed(tree0, tree, first, to)
  {
    forall p: nat
      ensures At(tree, p) == if first <= p < to then None else At(tree0, p)
    {
      assert At(tree, p) == if first <= p < page then None else At(tree0, p);
    }
  }

  lemma RemovedAll(tree0: map<nat, nat>, tree: map<nat, nat>, first: nat, page: nat)
    requires Removed(tree0, tree, first, page) && forall q :: q in tree ==> q < page
    ensures tree == Below(tree0, first)
  {
    assert forall p: nat :: p in tree <==> At(tree, p) != None;
    assert forall p: nat :: p in tree0 <==> At(tree0, p) != None;
    assert forall p: nat :: p in tree ==> At(tree, p) == At(tree0, p);
  }

  /** At a hole, the next mapped page bounds how far the walk may jump. */
  lemma HoleAhead(tree0: map<nat, nat>, tree: map<nat, nat>, first: nat, page: nat, top: nat, entry: Option<nat>,
                  at: nat)
    requires Removed(tree0, tree, first, page) && Under(tree0, top) && first <= page && page !in tree
    requires entry.None? ==> forall q :: q in tree ==> q < page
    requires entry.Some? ==> at in tree && at >= page && forall q :: q in tree && q >= page ==> at <= q
    ensures entry.None? ==> forall p: nat :: page <= p ==> At(tree0, p) == None
    ensures entry.Some? ==>
              && page < at < top && At(tree0, at) == At(tree, at)
              && forall p: nat :: page <= p < at ==> At(tree0, p) == None
  {
    forall p: nat | page <= p && (entry.None? || p < at)
      ensures At(tree0, p) == None
    {
      assert At(tree, p) == At(tree0, p);
    }
    if entry.Some? {
      assert At(tree, at) == At(tree0, at);
    }
  }

  lemma JumpTarget(log0: seq<Entry>, tree0: map<nat, nat>, log: seq<Entry>, at: nat, e: nat)
    requires Covering(log0, tree0) && AllAlike(log0, log) && At(tree0, at) == Some(e)
    ensures e < |log| && log[e].Write? && log[e].pgoff <= at
  {
    assert at in tree0 && Alike(log0[e], log[e]);
  }

  /** Mapped pages belong to entries that cover them, with no hole below. */
  ghost predicate Sound(log: seq<Entry>, tree: map<nat, nat>) {
    forall q :: q in tree ==> tree[q] < |log| && Covers(log[tree[q]], q) && FilledBelow(log[tree[q]], tree, q)
  }

  /** Of the pages from start to page, the last run gathered has n pages of entry `old_` from `at` on, and
      only holes follow it. */
  ghost predicate Gathered(tree: map<nat, nat>, start: nat, page: nat, old_: Option<nat>, at: nat, n: nat) {
    if old_.None? then forall p: nat :: start <= p < page ==> At(tree, p) == None
    else
      && start <= at < at + n <= page
      && (forall p: nat :: at <= p < at + n ==> At(tree, p) == old_)
      && (forall p: nat :: at + n <= p < page ==> At(tree, p) == None)
  }

  /** The runs before `done` are invalidated and freed. */
  ghost predicate Flushed(log0: seq<Entry>, tree: map<nat, nat>, freed0: multiset<nat>, start: nat, done: nat,
                          log: seq<Entry>, freed: multiset<nat>) {
    log == Mark(log0, tree, start, done) && freed == freed0 + Refs(log0, tree, start, done)
  }

  lemma Started(log: seq<Entry>, tree: map<nat, nat>, freed: multiset<nat>, start: nat, i: nat)
    ensures Overlay(tree, start, 0, i) == tree && Flushed(log, tree, freed, start, start, log, freed)
    ensures Removed(tree, tree, start, start)
  {}

  lemma Finished(log0: seq<Entry>, tree: map<nat, nat>, freed0: multiset<nat>, start: nat, done: nat, log: seq<Entry>,
                 freed: multiset<nat>)
    requires Flushed(log0, tree, freed0, start, done, log, freed)
    ensures log == Mark(log0, tree, start, done) && freed == freed0 + Refs(log0, tree, start, done)
    ensures AllAlike(log0, log)
  {
    MarkAlike(log0, tree, start, done);
  }

  lemma OverlayGrow(tree: map<nat, nat>, start: nat, n: nat, i: nat)
    ensures Overlay(tree, start, n, i)[start + n := i] == Overlay(tree, start, n + 1, i)
  {}

  lemma RunCovered(log: seq<Entry>, tree: map<nat, nat>, start: nat, page: nat, o: nat, at: nat, n: nat)
    requires Sound(log, tree) && Gathered(tree, start, page, Some(o), at, n)
    ensures o < |log| && Covers(log[o], at) && at + n <= log[o].pgoff + log[o].num
  {
    assert At(tree, at) == Some(o) && At(tree, at + n - 1) == Some(o);
  }

  /** A page of the entry last gathered follows its run directly: no hole lies below a mapped page. */
  lemma NoGap(log: seq<Entry>, tree: map<nat, nat>, start: nat, page: nat, o: nat, at: nat, n: nat)
    requires Sound(log, tree) && Gathered(tree, start, page, Some(o), at, n) && At(tree, page) == Some(o)
    ensures page == at + n
  {
    RunCovered(log, tree, start, page, o, at, n);
    assert FilledBelow(log[o], tree, page);
    assert at + n in tree && At(tree, at + n) != None;
  }

  /** Flushing the gathered run accounts for all pages seen so far. */
  lemma FlushStep(log0: seq<Entry>, tree: map<nat, nat>, freed0: multiset<nat>, start: nat, page: nat, o: nat,
                  at: nat, n: nat, log: seq<Entry>, freed: multiset<nat>)
    requires Gathered(tree, start, page, Some(o), at, n) && Flushed(log0, tree, freed0, start, at, log, freed)
    requires o < |log0| && Covers(log0[o], at) && at + n <= log0[o].pgoff + log0[o].num
    ensures o < |log| && log[o].Write? && log[o].block == log0[o].block && log[o].pgoff == log0[o].pgoff
    ensures Covers(log[o], at)
    ensures Flushed(log0, tree, freed0, start, page, log[o := log[o].(invalid := log[o].invalid + n)],
                    freed + FileIndex.Run(log0[o].block + (at - log0[o].pgoff), n))
  {
    hide Count, Refs, FileIndex.Run;
    forall i | 0 <= i < |log0|
      ensures Count(tree, i, start, page) == Count(tree, i, start, at) + if i == o then n else 0
    {
      CountSplit(tree, i, start, at, page);
      CountSplit(tree, i, at, at + n, page);
      CountNone(tree, i, at + n, page);
      if i == o {
        CountAll(tree, i, at, at + n);
      } else {
        CountNone(tree, i, at, at + n);
      }
    }
    RefsSplit(log0, tree, start, at, page);
    RefsSplit(log0, tree, at, at + n, page);
    RefsNone(log0, tree, at + n, page);
    RefsRun(log0, tree, o, at, at + n);
  }

  lemma FlushNone(log0: seq<Entry>, tree: map<nat, nat>, freed0: multiset<nat>, start: nat, page: nat,
                  log: seq<Entry>, freed: multiset<nat>)
    requires start <= page && Gathered(tree, start, page, None, 0, 0)
    requires Flushed(log0, tree, freed0, start, start, log, freed)
    ensures Flushed(log0, tree, freed0, start, page, log, freed)
  {
    RefsNone(log0, tree, start, page);
    forall i | 0 <= i < |log0|
      ensures Count(tree, i, start, page) == 0 && Count(tree, i, start, start) == 0
    {
      CountNone(tree, i, start, page);
    }
  }

  // ----- facts the operations rely on -----

  lemma PartialSound(f: File, k: nat, top: nat)
    requires Partial(f, k, top)
    ensures Sound(f.log, f.tree) && Covering(f.log, f.tree)
  {
    hide Count, Refs, Granted, Owner;
    forall q | q in f.tree
      ensures f.tree[q] < |f.log| && Covers(f.log[f.tree[q]], q) && FilledBelow(f.log[f.tree[q]], f.tree, q)
    {
      Applied(f, k, top, q);
    }
  }

  /** Where a write stands after s blocks. */
  function Reached(pos: nat, len: nat, s: nat): nat {
    if s == 0 then pos else Min((pos / PAGE + s) * PAGE, pos + len)
  }

  lemma ChunksNone(page: nat, end: nat, size: nat, trans: nat, grants: seq<Grant>)
    ensures Chunks(page, end, size, trans, grants[..0]) == [] && Sum(grants[..0]) == 0
  {}

  lemma ChunksMore(page: nat, end: nat, size: nat, trans: nat, grants: seq<Grant>, k: nat)
    requires k < |grants|
    ensures Sum(grants[..k + 1]) == Sum(grants[..k]) + grants[k].num
    ensures var at := page + Sum(grants[..k]);
            Chunks(page, end, size, trans, grants[..k + 1]) == Chunks(page, end, size, trans, grants[..k]) +
              [Write(at, grants[k].num, grants[k].block, 0, Max(size, Min((at + grants[k].num) * PAGE, end)), trans)]
  {
    assert grants[..k + 1][..k] == grants[..k];
  }

  lemma GrantLeft(pos: nat, len: nat, grants: seq<Grant>, k: nat)
    requires Grantable(pos, len, grants) && k <= |grants| && Sum(grants[..k]) < Touched(pos, len)
    ensures k < |grants| && grants[k].num > 0 && Sum(grants[..k]) + grants[k].num <= Touched(pos, len)
  {
    hide Sum, Touched;
    assert grants[..|grants|] == grants;
    if k < |grants| {
      SumStep(grants, k);
      SumPrefix(grants, k + 1);
    }
  }

  lemma AllGranted(pos: nat, len: nat, grants: seq<Grant>, k: nat)
    requires Grantable(pos, len, grants) && k <= |grants| && Sum(grants[..k]) == Touched(pos, len)
    ensures grants[..k] == grants && Reached(pos, len, Touched(pos, len)) == pos + len
  {
    hide Sum, Touched, Pages;
    if k < |grants| {
      SumStep(grants, k);
      SumPrefix(grants, k + 1);
    }
    TouchedPages(pos, len);
    PagesReach(pos + len);
    TouchedSome(pos, len);
  }

  lemma TouchedSome(pos: nat, len: nat)
    requires len > 0
    ensures Touched(pos, len) > 0
  {}

  /** Between grants a write stands on a block boundary, and each grant carries it to its own end or to the
      end of the data. */
  lemma ReachedStep(pos: nat, len: nat, s: nat, num: nat)
    requires len > 0 && num > 0 && s + num <= Touched(pos, len)
    ensures var (at, count) := (Reached(pos, len, s), pos + len - Reached(pos, len, s));
            && 0 < count && at / PAGE == pos / PAGE + s && at % PAGE <= PAGE * num
            && at + Min(PAGE * num - at % PAGE, count) == Reached(pos, len, s + num)
  {
    hide Touched, Pages;
    var (page, end) := (pos / PAGE, pos + len);
    TouchedPages(pos, len);
    PageBefore(page + s, end);
    if s == 0 {
      assert pos == page * PAGE + pos % PAGE;
    } else {
      OnBoundary(page + s);
    }
    assert (page + s + num) * PAGE == (page + s) * PAGE + PAGE * num;
  }

  lemma OnBoundary(q: nat)
    ensures (q * PAGE) / PAGE == q && (q * PAGE) % PAGE == 0
  {}

  lemma PageBefore(q: nat, size: nat)
    requires q < Pages(size)
    ensures q * PAGE < size
  {}

  lemma WriteReady(f: File, pos: nat, len: nat, grants: seq<Grant>)
    requires Inv(f) && Grantable(pos, len, grants)
    ensures Partial(f.(log := f.log + Chunks(pos / PAGE, pos + len, f.size, f.trans, grants)), |f.log|,
                    Pages(Max(f.size, pos + len)))
  {
    hide Partial, Chunks, Sum, Touched, Pages;
    var top := Pages(Max(f.size, pos + len));
    var more := Chunks(pos / PAGE, pos + len, f.size, f.trans, grants);
    TouchedPages(pos, len);
    PagesMono(f.size, Max(f.size, pos + len));
    PagesMono(pos + len, Max(f.size, pos + len));
    PartialTop(f, |f.log|, Pages(f.size), top);
    forall i | 0 <= i < |more|
      ensures more[i].Write? && more[i].num > 0 && more[i].invalid == 0 && more[i].pgoff + more[i].num <= top
    {
      ChunksLaidOut(pos / PAGE, pos + len, f.size, f.trans, grants, i);
    }
    Extend(f, more, top);
  }

  lemma TruncateReady(f: File, newSize: nat)
    requires Inv(f)
    ensures var log := Kill(f.log, f.lastAttr) + [Attr(true, false, newSize, f.trans)];
            Sound(log, f.tree) && Covering(log, f.tree) && Under(f.tree, Pages(f.size))
  {
    hide Owner, Count, Refs, Granted, Pages, Partial;
    var log := Kill(f.log, f.lastAttr) + [Attr(true, false, newSize, f.trans)];
    PartialSound(f, |f.log|, Pages(f.size));
    assert Under(f.tree, Pages(f.size)) by { MappedUnder(f); }
    forall q | q in f.tree
      ensures log[f.tree[q]] == f.log[f.tree[q]]
    {}
  }

  lemma RebuiltNothing(entries: seq<Entry>)
    ensures Rebuilt(entries[..0]) == map[] && RebuiltSize(entries[..0]) == (0, 0) && LastAttrOf(entries[..0]) == None
  {}

  lemma RebuiltStep(entries: seq<Entry>, i: nat)
    requires i < |entries|
    ensures var (tree, e) := (Rebuilt(entries[..i]), entries[i]);
            Rebuilt(entries[..i + 1]) == if e.Attr? then Below(tree, Pages(e.size))
                                         else if Skipped(e) then tree else Overlay(tree, e.pgoff, e.num, i)
    ensures RebuiltSize(entries[..i + 1]) == Newer(RebuiltSize(entries[..i]), entries[i])
    ensures LastAttrOf(entries[..i + 1]) == if entries[i].Attr? then Some(i) else LastAttrOf(entries[..i])
  {
    assert entries[..i + 1][..i] == entries[..i];
  }

  lemma {:induction false} RebuiltCovers(log: seq<Entry>)
    ensures Covering(log, Rebuilt(log))
  {
    if log != [] {
      RebuiltCovers(log[..|log| - 1]);
    }
  }

  lemma CoveringMore(entries: seq<Entry>, i: nat)
    requires i < |entries|
    ensures Covering(entries, Rebuilt(entries[..i]))
  {
    RebuiltCovers(entries[..i]);
  }

  ghost function MapTop(tree: map<nat, nat>): (top: nat)
    ensures Under(tree, top)
  {
    if tree == map[] then 0
    else
      var q :| q in tree;
      assert forall p :: p in tree ==> p == q || p in tree - {q};
      Max(MapTop(tree - {q}), q + 1)
  }
}
