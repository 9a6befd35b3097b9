/** Crashes inside an append and its commit (log.c, inode.h): entries are stored into the free part of the log and
    written back; then a barrier, the tail, its write-back and a fence. Whenever the machine stops, a reader meets the
    old entries, or the old ones and all the new ones, whole.

    The format of an entry is arbitrary. A non-temporal copy counts as stores that are written back at the next
    fence. */
module LogCrash {
  import opened Pmem
  import opened LogPages
  import opened InodeLog
  import J = JournalBodies

  const PAGE_WORDS := 512
  const COUNT_WORD := 508   // num_entries and invalid_entries of the page tail
  const NEXT_WORD := 511    // next_page
  const LINE_WORDS := 8

  function Base(page: nat): nat {
    page * PAGE_WORDS
  }

  /** How an entry lies in words, what a reader makes of the words from some place on, and what a next-page mark turns
      a word into. */
  datatype Format = Format(enc: Item -> seq<Word>, read: seq<Word> -> Slot, mark: Word -> Word)

  /** Entries read back from their own words, marks from their first one. */
  ghost predicate Good(f: Format) {
    && (forall it :: Sized(it) ==> |f.enc(it)| == it.size)
    && (forall it, rest :: Sized(it) ==> f.read(f.enc(it) + rest) == Ent(it))
    && (forall w, rest :: f.read([f.mark(w)] + rest) == Next)
    && (forall a, b, it :: f.read(a) == Ent(it) && StartsAlike(a, b, it.size) ==> f.read(b) == Ent(it))
    && (forall a, b :: f.read(a) == Next && StartsAlike(a, b, 1) ==> f.read(b) == Next)
  }

  predicate StartsAlike(a: seq<Word>, b: seq<Word>, n: nat) {
    n <= |a| && n <= |b| && a[..n] == b[..n]
  }

  function Write(it: Item): seq<Word> {
    [it.size, it.id, if it.dead then 1 else 0, it.pgoff, it.num]
    + seq(if it.size > 5 then it.size - 5 else 0, _ => 0)
  }

  function Parse(a: seq<Word>): Slot {
    if a != [] && a[0] == 0 then Next
    else if |a| >= 5 && 5 <= a[0] <= |a| then Ent(Item(a[1], a[0], a[2] == 1, a[3], a[4]))
    else Ent(Item(0, |a| + 1, false, 0, 0))
  }

  /** There are such formats: a size in front, and no size is 0. */
  lemma FormatExists() returns (f: Format)
    ensures Good(f)
  {
    f := Format(Write, Parse, _ => 0);
    forall it, rest | Sized(it)
      ensures f.read(f.enc(it) + rest) == Ent(it)
    {
      var a := f.enc(it) + rest;
      assert a[0] == it.size && a[1] == it.id && a[3] == it.pgoff && a[4] == it.num;
    }
    forall a, b, it | f.read(a) == Ent(it) && StartsAlike(a, b, it.size)
      ensures f.read(b) == Ent(it)
    {
      assert forall i :: 0 <= i < it.size ==> a[i] == a[..it.size][i] && b[i] == b[..it.size][i];
    }
    forall a, b | f.read(a) == Next && StartsAlike(a, b, 1)
      ensures f.read(b) == Next
    {
      assert a[0] == a[..1][0] && b[0] == b[..1][0];
    }
  }

  predicate Inside(words: seq<Word>, page: nat) {
    Base(page) + PAGE_WORDS <= |words|
  }

  /** A page as its readers see it; the counters do not matter to them. */
  function PageView(f: Format, words: seq<Word>, page: nat): (p: LogPage)
    requires Inside(words, page)
    ensures |p.cells| == PAYLOAD
  {
    LogPage(seq(PAYLOAD, u requires 0 <= u < PAYLOAD => f.read(words[Base(page) + u..Base(page) + PAYLOAD])),
            words[Base(page) + NEXT_WORD], 0, 0)
  }

  function View(f: Format, words: seq<Word>): map<nat, LogPage> {
    map p: nat | p < |words| && Inside(words, p) :: PageView(f, words, p)
  }

  // ----- the words a reader depends on -----

  predicate Needs(chain: seq<nat>, contents: seq<seq<Item>>, k: nat, w: nat) {
    k < |contents| && k < |chain| &&
    var (b, used) := (Base(chain[k]), Used(contents[k]));
    || b <= w < b + used
    || (k + 1 < |contents| && (w == b + NEXT_WORD || (used < PAYLOAD && w == b + used)))
  }

  ghost predicate Needed(chain: seq<nat>, contents: seq<seq<Item>>, w: nat) {
    exists k :: 0 <= k < |contents| && Needs(chain, contents, k, w)
  }

  /** The slot at a place where an entry stands, when only words past it changed. */
  lemma SameEntry(f: Format, a: seq<Word>, b: seq<Word>, page: nat, u: nat, it: Item)
    requires Good(f) && |a| == |b| && Inside(a, page) && Sized(it) && u + it.size <= PAYLOAD
    requires PageView(f, a, page).cells[u] == Ent(it)
    requires forall w: nat :: Base(page) + u <= w < Base(page) + u + it.size ==> a[w] == b[w]
    ensures PageView(f, b, page).cells[u] == Ent(it)
  {
    hide Good;
    var (x, y) := (a[Base(page) + u..Base(page) + PAYLOAD], b[Base(page) + u..Base(page) + PAYLOAD]);
    assert x[..it.size] == y[..it.size];
    EntryAlike(f, x, y, it);
  }

  lemma EntryAlike(f: Format, a: seq<Word>, b: seq<Word>, it: Item)
    requires Good(f) && f.read(a) == Ent(it) && StartsAlike(a, b, it.size)
    ensures f.read(b) == Ent(it)
  {}

  lemma MarkAlike(f: Format, a: seq<Word>, b: seq<Word>)
    requires Good(f) && f.read(a) == Next && StartsAlike(a, b, 1)
    ensures f.read(b) == Next
  {}

  lemma SameMark(f: Format, a: seq<Word>, b: seq<Word>, page: nat, u: nat)
    requires Good(f) && |a| == |b| && Inside(a, page) && u < PAYLOAD && a[Base(page) + u] == b[Base(page) + u]
    requires PageView(f, a, page).cells[u] == Next
    ensures PageView(f, b, page).cells[u] == Next
  {
    hide Good;
    var (x, y) := (a[Base(page) + u..Base(page) + PAYLOAD], b[Base(page) + u..Base(page) + PAYLOAD]);
    assert x[..1] == y[..1];
    MarkAlike(f, x, y);
  }

  lemma SameHolds(f: Format, a: seq<Word>, b: seq<Word>, page: nat, items: seq<Item>, last: bool)
    requires Good(f) && |a| == |b| && Inside(a, page) && PageHolds(PageView(f, a, page), items, last)
    requires forall w: nat :: Base(page) <= w < Base(page) + Used(items) ==> a[w] == b[w]
    requires !last && Used(items) < PAYLOAD ==> a[Base(page) + Used(items)] == b[Base(page) + Used(items)]
    ensures PageHolds(PageView(f, b, page), items, last)
  {
    hide Good, PageView;
    forall i | 0 <= i < |items|
      ensures ItemAt(PageView(f, b, page).cells, items, i)
    {
      assert ItemAt(PageView(f, a, page).cells, items, i);
      ItemFits(items, i);
      SameEntry(f, a, b, page, Used(items[..i]), items[i]);
    }
    if !last && Used(items) + SMALLEST <= PAYLOAD {
      SameMark(f, a, b, page, Used(items));
    }
  }

  // ----- logs in words -----

  /** The first pages of a chain of linked pages hold these entries. */
  ghost predicate LogIn(f: Format, words: seq<Word>, chain: seq<nat>, contents: seq<seq<Item>>) {
    && 0 < |contents| <= |chain| && Filled(contents)
    && (forall k :: 0 <= k < |chain| ==> chain[k] != 0 && Inside(words, chain[k]))
    && (forall i, j :: 0 <= i < j < |chain| ==> chain[i] != chain[j])
    && (forall k :: 0 <= k < |chain| - 1 ==> NextIs(words, chain, k))
    && (forall k :: 0 <= k < |contents| ==> HoldsAt(f, words, chain, contents, k))
  }

  predicate NextIs(words: seq<Word>, chain: seq<nat>, k: nat) {
    k + 1 < |chain| && Inside(words, chain[k]) && words[Base(chain[k]) + NEXT_WORD] == chain[k + 1]
  }

  ghost predicate HoldsAt(f: Format, words: seq<Word>, chain: seq<nat>, contents: seq<seq<Item>>, k: nat) {
    && k < |contents| && k < |chain| && Inside(words, chain[k])
    && PageHolds(PageView(f, words, chain[k]), contents[k], k + 1 == |contents|)
  }

  /** A reader of these words, from the head to the end of the entries, meets exactly them. */
  ghost predicate Reads(f: Format, words: seq<Word>, chain: seq<nat>, contents: seq<seq<Item>>) {
    && 0 < |contents| <= |chain|
    && var n := |contents| - 1;
       Shows(View(f, words), chain[0], chain[n], Used(contents[n]), chain[..n + 1], contents)
  }

  lemma LogReads(f: Format, words: seq<Word>, chain: seq<nat>, contents: seq<seq<Item>>)
    requires LogIn(f, words, chain, contents)
    ensures Reads(f, words, chain, contents)
  {
    hide PageHolds, Used, PageView;
    var (pages, n) := (View(f, words), |contents|);
    var ids := chain[..n];
    forall k | 0 <= k < n
      ensures ids[k] in pages && ids[k] != 0 && LinkedAt(pages, ids, pages[chain[n - 1]].next, k)
      ensures StoredAt(pages, ids, contents, k)
    {
      assert HoldsAt(f, words, chain, contents, k);
      InView(f, words, chain[k]);
      InView(f, words, chain[n - 1]);
      if k + 1 < n {
        assert NextIs(words, chain, k);
      }
    }
  }

  lemma InView(f: Format, words: seq<Word>, page: nat)
    requires Inside(words, page)
    ensures page in View(f, words) && View(f, words)[page] == PageView(f, words, page)
    ensures PageView(f, words, page).next == words[Base(page) + NEXT_WORD]
  {}

  /** Words nobody needs may change. */
  lemma StillIn(f: Format, a: seq<Word>, b: seq<Word>, chain: seq<nat>, contents: seq<seq<Item>>)
    requires Good(f) && |a| == |b| && LogIn(f, a, chain, contents)
    requires forall w: nat :: w < |a| && Needed(chain, contents, w) ==> a[w] == b[w]
    ensures LogIn(f, b, chain[..|contents|], contents)
  {
    hide Good, PageHolds, Used, PageView, Needed;
    var (n, ids) := (|contents|, chain[..|contents|]);
    forall k | 0 <= k < n - 1
      ensures NextIs(b, ids, k)
    {
      assert NextIs(a, chain, k);
      NeedIs(chain, contents, k, Base(chain[k]) + NEXT_WORD);
    }
    forall k | 0 <= k < n
      ensures HoldsAt(f, b, ids, contents, k)
    {
      assert HoldsAt(f, a, chain, contents, k);
      forall w: nat | Needs(chain, contents, k, w) && w < |a|
        ensures a[w] == b[w]
      {
        NeedIs(chain, contents, k, w);
      }
      HoldsCells(PageView(f, a, chain[k]), contents[k], k + 1 == n);
      SameHolds(f, a, b, chain[k], contents[k], k + 1 == n);
    }
  }

  lemma NeedIs(chain: seq<nat>, contents: seq<seq<Item>>, k: nat, w: nat)
    requires k < |contents| && Needs(chain, contents, k, w)
    ensures Needed(chain, contents, w)
  {}

  lemma ReadsMore(f: Format, words: seq<Word>, chain: seq<nat>, contents: seq<seq<Item>>)
    requires 0 < |contents| <= |chain| && LogIn(f, words, chain[..|contents|], contents)
    ensures Reads(f, words, chain, contents)
  {
    hide Shows, LogIn;
    LogReads(f, words, chain[..|contents|], contents);
    assert chain[..|contents|][..|contents|] == chain[..|contents|];
  }

  // ----- the commit -----

  /** Where the entries end. */
  function TailOf(chain: seq<nat>, contents: seq<seq<Item>>): Word
    requires 0 < |contents| <= |chain|
  {
    Base(chain[|contents| - 1]) + Used(contents[|contents| - 1])
  }

  function TailWord(pi: nat): nat {
    (pi + J.LOG_TAIL) / WORD
  }

  /** The log is there, and a crash leaves what its readers need. */
  ghost predicate Durable(f: Format, s: State, chain: seq<nat>, contents: seq<seq<Item>>) {
    && Wf(s) && LogIn(f, s.cache, chain, contents)
    && forall w: nat :: w < |s.cache| && Needed(chain, contents, w) ==> Settled(s, w)
  }

  /** It will be after the next fence. */
  ghost predicate Pending(f: Format, s: State, chain: seq<nat>, contents: seq<seq<Item>>) {
    && Wf(s) && LogIn(f, s.cache, chain, contents)
    && forall w: nat :: w < |s.cache| && Needed(chain, contents, w) ==> Armed(s, w)
  }

  /** nova_update_inode */
  function CommitOps(pi: nat, tail: Word): seq<Op> {
    J.UpdateInode(pi, tail)
  }

  /** An image that agrees with durable words. */
  lemma ImageReads(f: Format, words: seq<Word>, image: seq<Word>, chain: seq<nat>, contents: seq<seq<Item>>)
    requires Good(f) && |image| == |words| && LogIn(f, words, chain, contents)
    requires forall w: nat :: w < |words| && Needed(chain, contents, w) ==> image[w] == words[w]
    ensures Reads(f, image, chain, contents)
  {
    hide Good, LogIn, Needed, Shows;
    Lengths(f, words, chain, contents);
    StillIn(f, words, image, chain, contents);
    ReadsMore(f, image, chain, contents);
  }

  lemma Lengths(f: Format, words: seq<Word>, chain: seq<nat>, contents: seq<seq<Item>>)
    requires LogIn(f, words, chain, contents)
    ensures 0 < |contents| <= |chain|
  {}

  /** A durable word that the primitives do not store to. */
  lemma ImageKeeps(s: State, ops: seq<Op>, region: set<nat>, image: seq<Word>, w: nat)
    requires Wf(s) && StoresWithin(ops, region) && CrashImage(Run(s, ops), image)
    requires w < |s.cache| && w !in region && Settled(s, w)
    ensures |image| == |s.cache| && image[w] == s.cache[w]
  {
    SettledStays(s, ops, w, region);
  }

  /** A stop before the barrier shows the old entries. */
  lemma BeforeBarrier(f: Format, s: State, ops: seq<Op>, region: set<nat>, pi: nat, chain: seq<nat>,
                      old_: seq<seq<Item>>, image: seq<Word>)
    requires Good(f) && Durable(f, s, chain, old_) && TailWord(pi) < |s.cache| && Settled(s, TailWord(pi))
    requires StoresWithin(ops, region) && TailWord(pi) !in region && forall w :: w in region ==> !Needed(chain, old_, w)
    requires CrashImage(Run(s, ops), image)
    ensures |image| == |s.cache| && image[TailWord(pi)] == s.cache[TailWord(pi)] && Reads(f, image, chain, old_)
  {
    hide Good, LogIn, Needed, Reads, StoresWithin, Run, Settled;
    ImageKeeps(s, ops, region, image, TailWord(pi));
    forall w: nat | w < |s.cache| && Needed(chain, old_, w)
      ensures image[w] == s.cache[w]
    {
      ImageKeeps(s, ops, region, image, w);
    }
    ImageReads(f, s.cache, image, chain, old_);
  }

  /** The barrier makes the new entries durable and leaves the old ones so. */
  lemma AtBarrier(f: Format, s: State, body: seq<Op>, region: set<nat>, chain: seq<nat>, old_: seq<seq<Item>>,
                  new_: seq<seq<Item>>, w: nat)
    requires Durable(f, s, chain, old_) && Pending(f, Run(s, body), chain, new_) && w < |s.cache|
    requires StoresWithin(body, region) && forall w :: w in region ==> !Needed(chain, old_, w)
    ensures var t := Step(Run(s, body), Fence);
            && Wf(t) && t.cache == Run(s, body).cache
            && (Needed(chain, new_, w) ==> Settled(t, w))
            && (w !in region && Settled(s, w) ==> Settled(t, w) && t.cache[w] == s.cache[w])
  {
    hide LogIn, Needed, Run;
    StepWf(Run(s, body), Fence);
    if Needed(chain, new_, w) {
      FenceSettles(Run(s, body), w);
    }
    if w !in region && Settled(s, w) {
      SettledStays(s, body, w, region);
      RunOne(Run(s, body), Fence);
      SettledStays(Run(s, body), [Fence], w, {});
    }
  }

  /** Until its write-back is fenced, a stored word is found old or new. */
  lemma OldOrNew(s: State, ops: seq<Op>, w: nat, v: Word, image: seq<Word>)
    requires Wf(s) && w < |s.cache| && Settled(s, w) && ops != [] && ops[0] == Store(w, v) && StoresWithin(ops[1..], {})
    requires CrashImage(Run(s, ops), image)
    ensures |image| == |s.cache| && (image[w] == s.cache[w] || image[w] == v)
  {
    hide Run;
    RunSplit(s, ops, 1);
    assert ops[..1] == [Store(w, v)];
    RunOne(s, Store(w, v));
    StepWf(s, Store(w, v));
    RunFrame(Step(s, Store(w, v)), ops[1..], {});
  }

  lemma CommitShape(pi: nat, tail: Word)
    ensures var ops := CommitOps(pi, tail);
            && |ops| > 2 && ops[0] == Fence && ops[1] == Store(TailWord(pi), tail)
            && StoresWithin(ops[2..], {})
  {}

  /** The line of the tail is written back, and then comes a fence. */
  lemma CommitFlushes(pi: nat, tail: Word) returns (m: nat)
    requires pi % WORD == 0
    ensures var ops := CommitOps(pi, tail);
            && 2 < m < |ops| && ops[2].Flush? && InLine(TailWord(pi), ops[2].byte) && ops[m] == Fence
  {
    var b := pi + J.LOG_TAIL;
    m := FirstFlush(b, LINE);
    TailAligned(pi);
    var (head, rest) := ([Fence, Store(TailWord(pi), tail)], FlushBuffer(pi, J.INODE_BYTES, true));
    CommitSplit(head, FlushBuffer(b, LINE, true), rest, m);
    m := m + 2;
  }

  lemma CommitSplit(head: seq<Op>, flush: seq<Op>, rest: seq<Op>, m: nat)
    requires |head| == 2 && 0 < m < |flush|
    ensures var ops := head + flush + rest; m + 2 < |ops| && ops[2] == flush[0] && ops[m + 2] == flush[m]
  {}

  lemma FirstFlush(b: nat, len: nat) returns (m: nat)
    requires len > 0
    ensures var ops := FlushBuffer(b, len, true); 0 < m < |ops| && ops[0] == Flush(b) && ops[m] == Fence
  {
    m := LinesTouched(b, len);
    assert FlushLines(b, len)[0] == Flush(b + LINE * 0);
  }

  lemma TailAligned(pi: nat)
    requires pi % WORD == 0
    ensures TailWord(pi) * WORD == pi + J.LOG_TAIL && InLine(TailWord(pi), pi + J.LOG_TAIL)
  {}

  /** After the last primitive the tail is durable. */
  lemma TailSettles(s: State, body: seq<Op>, pi: nat, tail: Word)
    requires Wf(s) && pi % WORD == 0 && TailWord(pi) < |s.cache|
    ensures var t := Run(s, body + CommitOps(pi, tail)); Settled(t, TailWord(pi)) && t.cache[TailWord(pi)] == tail
  {
    hide Run, Settled, CommitOps, TailWord;
    var (commit, n) := (CommitOps(pi, tail), |body|);
    var ops := body + commit;
    CommitShape(pi, tail);
    var m := CommitFlushes(pi, tail);
    LateStores(body, commit);
    WriteBackThenFence(s, ops, TailWord(pi), n + 2, n + m);
    RunWf(s, ops[..n + 1]);
    RunExtend(s, ops, n + 1);
    StepWf(Run(s, ops[..n + 1]), ops[n + 1]);
    RunSplit(s, ops, n + 2);
    RunFrame(Run(s, ops[..n + 2]), ops[n + 2..], {});
    StoredIs(Run(s, ops[..n + 1]), TailWord(pi), tail);
  }

  lemma LateStores(body: seq<Op>, commit: seq<Op>)
    requires |commit| > 2 && StoresWithin(commit[2..], {})
    ensures var (ops, n) := (body + commit, |body|);
            StoresWithin(ops[n + 2..], {}) && forall k :: n + 2 <= k < |ops| ==> !ops[k].Store?
  {
    var (ops, n) := (body + commit, |body|);
    assert ops[n + 2..] == commit[2..];
    forall k | n + 2 <= k < |ops|
      ensures !ops[k].Store?
    {
      assert ops[k] == commit[2..][k - n - 2];
    }
  }

  lemma StoredIs(s: State, w: nat, v: Word)
    requires |s.cache| == |s.may| == |s.wb| && w < |s.cache|
    ensures Step(s, Store(w, v)).cache[w] == v
  {}

  /** The commit is atomic: whatever was stored into the free part of the log, if it is pending there, a stop at any
      primitive shows the old log under the old tail or the new log under the new one; after the last, the new. */
  lemma CommitAtomic(f: Format, s: State, body: seq<Op>, region: set<nat>, pi: nat, chain: seq<nat>,
                     old_: seq<seq<Item>>, new_: seq<seq<Item>>, k: nat, image: seq<Word>) returns (done: bool)
    requires Good(f) && Durable(f, s, chain, old_) && Pending(f, Run(s, body), chain, new_)
    requires pi % WORD == 0 && TailWord(pi) < |s.cache| && Settled(s, TailWord(pi)) && TailWord(pi) !in region
    requires !Needed(chain, old_, TailWord(pi)) && !Needed(chain, new_, TailWord(pi))
    requires 0 < |old_| <= |chain| && 0 < |new_| <= |chain| && s.cache[TailWord(pi)] == TailOf(chain, old_)
    requires StoresWithin(body, region) && forall w :: w in region ==> !Needed(chain, old_, w)
    requires k <= |body + CommitOps(pi, TailOf(chain, new_))|
    requires CrashImage(Run(s, (body + CommitOps(pi, TailOf(chain, new_)))[..k]), image)
    ensures |image| == |s.cache|
    ensures image[TailWord(pi)] == TailOf(chain, if done then new_ else old_)
    ensures Reads(f, image, chain, if done then new_ else old_)
    ensures k == |body + CommitOps(pi, TailOf(chain, new_))| ==> done
  {
    hide Good, LogIn, Needed, Reads, Run, Settled, CommitOps, TailOf, TailWord;
    var (tail, w) := (TailOf(chain, new_), TailWord(pi));
    var (commit, n) := (CommitOps(pi, tail), |body|);
    var ops := body + commit;
    CommitShape(pi, tail);
    if k <= n {
      assert ops[..k] == body[..k];
      BeforeBarrier(f, s, body[..k], region, pi, chain, old_, image);
      done := false;
    } else {
      var (t, rest) := (Step(Run(s, body), Fence), commit[1..k - n]);
      assert ops[..k] == (body + [Fence]) + rest;
      RunConcat(s, body + [Fence], rest);
      RunConcat(s, body, [Fence]);
      RunOne(Run(s, body), Fence);
      AtBarrier(f, s, body, region, chain, old_, new_, w);
      assert StoresWithin(rest, {w}) by { RestStores(commit, k - n, w); }
      forall v: nat | v < |s.cache| && (Needed(chain, old_, v) || Needed(chain, new_, v))
        ensures |image| == |s.cache| && image[v] == t.cache[v]
        ensures Needed(chain, old_, v) ==> t.cache[v] == s.cache[v]
      {
        AtBarrier(f, s, body, region, chain, old_, new_, v);
        ImageKeeps(t, rest, {w}, image, v);
      }
      assert |image| == |s.cache|;
      ImageReads(f, s.cache, image, chain, old_);
      ImageReads(f, Run(s, body).cache, image, chain, new_);
      if rest == [] {
        ImageKeeps(t, rest, {}, image, w);
      } else {
        assert rest[0] == commit[1] && rest[1..] == commit[2..k - n];
        assert StoresWithin(rest[1..], {}) by { assert commit[2..k - n] == commit[2..][..k - n - 2]; }
        OldOrNew(t, rest, w, tail, image);
      }
      if k == |ops| {
        assert ops[..k] == ops;
        TailSettles(s, body, pi, tail);
        SettledImage(Run(s, ops), w, image);
      }
      done := image[w] == tail;
    }
  }

  lemma RestStores(commit: seq<Op>, m: nat, w: nat)
    requires 1 <= m <= |commit| && |commit| > 2 && commit[1].Store? && commit[1].word == w
    requires StoresWithin(commit[2..], {})
    ensures StoresWithin(commit[1..m], {w})
  {
    var rest := commit[1..m];
    forall i | 1 <= i < |rest|
      ensures !rest[i].Store?
    {
      assert rest[i] == commit[2..][i - 1];
    }
  }

  lemma SettledImage(s: State, w: nat, image: seq<Word>)
    requires Settled(s, w) && CrashImage(s, image)
    ensures image[w] == s.cache[w]
  {}

  // ----- the primitives of an append -----

  function Stores(w: nat, vals: seq<Word>): (ops: seq<Op>)
    ensures |ops| == |vals| && forall i :: 0 <= i < |ops| ==> ops[i] == Store(w + i, vals[i])
  {
    seq(|vals|, i requires 0 <= i < |vals| => Store(w + i, vals[i]))
  }

  /** Clear the entry, fill it in, write it back, and count it in the page tail. The write-back of a copied entry is
      not fenced. */
  function EntryOps(w: nat, vals: seq<Word>, countW: nat, count: Word, fence: bool): seq<Op> {
    (Stores(w, seq(|vals|, _ => 0)) + Stores(w, vals)) + FlushBuffer(w * WORD, LINE, fence)
    + ([Store(countW, count)] + FlushBuffer(countW * WORD, 32, false))
  }

  /** nova_set_next_page_flag */
  function MarkOps(w: nat, v: Word): seq<Op> {
    [Store(w, v)] + FlushBuffer(w * WORD, LINE, true)
  }

  lemma {:induction false} StoresRun(s: State, w: nat, vals: seq<Word>, n: nat)
    requires Wf(s) && w + |vals| <= |s.cache| && n <= |vals|
    ensures var t := Run(s, Stores(w, vals)[..n]);
            Wf(t) && forall v: nat :: v < |s.cache| ==> t.cache[v] == if w <= v < w + n then vals[v - w] else s.cache[v]
    decreases n
  {
    var ops := Stores(w, vals);
    if n == 0 {
      assert ops[..0] == [];
    } else {
      StoresRun(s, w, vals, n - 1);
      RunExtend(s, ops, n - 1);
      StepWf(Run(s, ops[..n - 1]), ops[n - 1]);
    }
  }

  lemma NoStores(buf: nat, len: nat, fence: bool)
    ensures StoresWithin(FlushBuffer(buf, len, fence), {})
  {}

  /** What the two rounds of stores leave. */
  lemma FillRun(s: State, w: nat, vals: seq<Word>)
    requires Wf(s) && w + |vals| <= |s.cache|
    ensures var t := Run(s, Stores(w, seq(|vals|, _ => 0)) + Stores(w, vals));
            && Wf(t)
            && forall v: nat :: v < |s.cache| ==>
                 t.cache[v] == if w <= v < w + |vals| then vals[v - w] else s.cache[v]
  {
    hide Run;
    var zeros := seq(|vals|, _ => 0);
    var (a, b) := (Stores(w, zeros), Stores(w, vals));
    StoresRun(s, w, zeros, |vals|);
    assert a[..|vals|] == a && b[..|vals|] == b;
    StoresRun(Run(s, a), w, vals, |vals|);
    RunConcat(s, a, b);
  }

  /** The cache after an append. */
  lemma EntryRun(s: State, w: nat, vals: seq<Word>, countW: nat, count: Word, fence: bool)
    requires Wf(s) && w + |vals| <= |s.cache| && countW < |s.cache| && !(w <= countW < w + |vals|)
    ensures var t := Run(s, EntryOps(w, vals, countW, count, fence));
            && Wf(t)
            && forall v: nat :: v < |s.cache| && v != countW ==>
                 t.cache[v] == if w <= v < w + |vals| then vals[v - w] else s.cache[v]
  {
    hide Run;
    var (a, b) := (Stores(w, seq(|vals|, _ => 0)) + Stores(w, vals), FlushBuffer(w * WORD, LINE, fence));
    var c := [Store(countW, count)] + FlushBuffer(countW * WORD, 32, false);
    FillRun(s, w, vals);
    NoStores(w * WORD, LINE, fence);
    RunConcat(s, a, b);
    RunFrame(Run(s, a), b, {});
    RunConcat(s, a + b, c);
    CountStores(countW, count);
    RunFrame(Run(s, a + b), c, {countW});
  }

  lemma CountStores(countW: nat, count: Word)
    ensures StoresWithin([Store(countW, count)] + FlushBuffer(countW * WORD, 32, false), {countW})
  {}

  lemma EntryStores(w: nat, vals: seq<Word>, countW: nat, count: Word, fence: bool, i: nat)
    requires i < |EntryOps(w, vals, countW, count, fence)| && EntryOps(w, vals, countW, count, fence)[i].Store?
    ensures var v := EntryOps(w, vals, countW, count, fence)[i].word; w <= v < w + |vals| || v == countW
  {}

  /** The write-back of one line's length covers an entry of at most 64 bytes. */
  lemma EntryArmed(s: State, w: nat, vals: seq<Word>, countW: nat, count: Word, fence: bool, v: nat)
    requires Wf(s) && w + |vals| <= |s.cache| && countW < |s.cache| && |vals| <= LINE_WORDS
    requires w <= v < w + |vals| && !(w <= countW < w + |vals|)
    ensures Armed(Run(s, EntryOps(w, vals, countW, count, fence)), v)
  {
    hide Run, Armed;
    var ops := EntryOps(w, vals, countW, count, fence);
    var k := LineOf(w, v);
    var i := 2 * |vals| + k;
    FlushAt(w, vals, countW, count, fence, k);
    ArmedAfter(s, ops, v, i);
  }

  lemma LineOf(w: nat, v: nat) returns (k: nat)
    requires w <= v < w + LINE_WORDS
    ensures k < LinesTouched(w * WORD, LINE) && InLine(v, w * WORD + LINE * k)
  {
    k := if v / LINE_WORDS == w / LINE_WORDS then 0 else 1;
  }

  lemma FlushAt(w: nat, vals: seq<Word>, countW: nat, count: Word, fence: bool, k: nat)
    requires k < LinesTouched(w * WORD, LINE) && !(w <= countW < w + |vals|)
    ensures var (ops, i) := (EntryOps(w, vals, countW, count, fence), 2 * |vals| + k);
            && i < |ops| && ops[i] == Flush(w * WORD + LINE * k)
            && forall j :: i <= j < |ops| && ops[j].Store? ==> ops[j].word == countW
  {
    var fill := Stores(w, seq(|vals|, _ => 0)) + Stores(w, vals);
    var rest := FlushBuffer(w * WORD, LINE, fence) + ([Store(countW, count)] + FlushBuffer(countW * WORD, 32, false));
    var ops := EntryOps(w, vals, countW, count, fence);
    assert ops == fill + rest;
    assert rest[k] == Flush(w * WORD + LINE * k);
    forall j | 0 <= j < |rest| && rest[j].Store?
      ensures rest[j].word == countW
    {}
    forall j | 2 * |vals| + k <= j < |ops| && ops[j].Store?
      ensures ops[j].word == countW
    {
      assert ops[j] == rest[j - 2 * |vals|];
    }
  }

  /** A mark is durable at once. */
  lemma MarkRun(s: State, w: nat, v: Word)
    requires Wf(s) && w < |s.cache|
    ensures var t := Run(s, MarkOps(w, v)); Wf(t) && t.cache == s.cache[w := v] && Armed(t, w)
    ensures StoresWithin(MarkOps(w, v), {w})
  {
    hide Run, Armed;
    var (ops, t) := (MarkOps(w, v), Step(s, Store(w, v)));
    NoStores(w * WORD, LINE, true);
    assert ops[..1] == [Store(w, v)] && ops[1..] == FlushBuffer(w * WORD, LINE, true);
    RunSplit(s, ops, 1);
    RunOne(s, Store(w, v));
    StepWf(s, Store(w, v));
    RunFrame(t, ops[1..], {});
    var k := LineOf(w, w);
    assert ops[1] == Flush(w * WORD + LINE * 0) && InLine(w, w * WORD);
    assert forall j :: 1 <= j < |ops| ==> ops[j] == ops[1..][j - 1];
    ArmedAfter(s, ops, w, 1);
  }

  /** Words that are not stored to stay pending. */
  lemma StayArmed(s: State, ops: seq<Op>, v: nat)
    requires Wf(s) && Armed(s, v) && forall i :: 0 <= i < |ops| && ops[i].Store? ==> ops[i].word != v
    ensures Armed(Run(s, ops), v)
  {
    ArmedStays(s, ops, v);
  }

  // ----- appending to the log -----

  predicate OnPage(page: nat, w: nat) {
    Base(page) <= w < Base(page) + PAGE_WORDS
  }

  /** Also the links to the pages behind are pending: they are set before anything is appended there. */
  ghost predicate Growing(f: Format, s: State, chain: seq<nat>, contents: seq<seq<Item>>) {
    Pending(f, s, chain, contents) && forall k :: 0 <= k < |chain| - 1 ==> LinkArmed(s, chain, k)
  }

  ghost predicate LinkArmed(s: State, chain: seq<nat>, k: nat) {
    k < |chain| && Armed(s, Base(chain[k]) + NEXT_WORD)
  }

  /** An entry behind those of a page. */
  lemma StoreHolds(f: Format, a: seq<Word>, b: seq<Word>, page: nat, items: seq<Item>, it: Item)
    requires Good(f) && |a| == |b| && Inside(a, page) && Sized(it) && Used(items) + it.size <= PAYLOAD
    requires PageHolds(PageView(f, a, page), items, true) && |f.enc(it)| == it.size
    requires forall w: nat :: Base(page) <= w < Base(page) + Used(items) ==> a[w] == b[w]
    requires forall i :: 0 <= i < it.size ==> b[Base(page) + Used(items) + i] == f.enc(it)[i]
    ensures PageHolds(PageView(f, b, page), items + [it], true)
  {
    hide Good, PageView;
    var (u, all) := (Used(items), items + [it]);
    SameHolds(f, a, b, page, items, true);
    UsedAppend(items, it);
    assert PageView(f, b, page).cells[u] == Ent(it) by { StoredReads(f, b, page, u, it); }
    forall i | 0 <= i < |all|
      ensures ItemAt(PageView(f, b, page).cells, all, i)
    {
      if i < |items| {
        assert ItemAt(PageView(f, b, page).cells, items, i) && all[..i] == items[..i];
      } else {
        assert all[..i] == items;
      }
    }
  }

  lemma StoredReads(f: Format, b: seq<Word>, page: nat, u: nat, it: Item)
    requires Good(f) && Inside(b, page) && Sized(it) && u + it.size <= PAYLOAD && |f.enc(it)| == it.size
    requires forall i :: 0 <= i < it.size ==> b[Base(page) + u + i] == f.enc(it)[i]
    ensures PageView(f, b, page).cells[u] == Ent(it)
  {
    var words := b[Base(page) + u..Base(page) + PAYLOAD];
    assert words == f.enc(it) + words[it.size..];
  }

  /** A next-page mark behind the entries of a page. */
  lemma MarkHolds(f: Format, a: seq<Word>, page: nat, items: seq<Item>, v: Word)
    requires Good(f) && Inside(a, page) && PageHolds(PageView(f, a, page), items, true) && Used(items) < PAYLOAD
    ensures PageHolds(PageView(f, a[Base(page) + Used(items) := f.mark(v)], page), items, false)
  {
    hide PageView;
    var (u, b) := (Used(items), a[Base(page) + Used(items) := f.mark(v)]);
    SameHolds(f, a, b, page, items, true);
    assert PageView(f, b, page).cells[u] == Next by { MarkReads(f, b, page, u, v); }
  }

  lemma MarkReads(f: Format, b: seq<Word>, page: nat, u: nat, v: Word)
    requires Good(f) && Inside(b, page) && u < PAYLOAD && b[Base(page) + u] == f.mark(v)
    ensures PageView(f, b, page).cells[u] == Next
  {
    var words := b[Base(page) + u..Base(page) + PAYLOAD];
    assert words == [f.mark(v)] + words[1..];
  }

  /** Where stores of an append go: a page of the chain, but no word the reader needs. */
  ghost predicate Free(chain: seq<nat>, contents: seq<seq<Item>>, w: nat) {
    !Needed(chain, contents, w) && exists k :: 0 <= k < |chain| && OnPage(chain[k], w)
  }

  ghost predicate StoresFree(ops: seq<Op>, chain: seq<nat>, contents: seq<seq<Item>>) {
    forall i :: 0 <= i < |ops| && ops[i].Store? ==> Free(chain, contents, ops[i].word)
  }

  /** Past the used part of its last page, and in the page tails of the counters, a log needs nothing. */
  lemma FreeAt(f: Format, words: seq<Word>, chain: seq<nat>, contents: seq<seq<Item>>, k: nat, w: nat)
    requires LogIn(f, words, chain, contents) && |contents| - 1 <= k < |chain| && OnPage(chain[k], w)
    requires k == |contents| - 1 ==> w >= Base(chain[k]) + Used(contents[k])
    ensures Free(chain, contents, w)
  {
    hide PageHolds, Used, PageView;
    forall j | 0 <= j < |contents|
      ensures !Needs(chain, contents, j, w)
    {
      assert HoldsAt(f, words, chain, contents, j);
      HoldsCells(PageView(f, words, chain[j]), contents[j], j + 1 == |contents|);
    }
    assert OnPage(chain[k], w);
  }

  /** Other pages keep what they hold. */
  lemma OtherHolds(f: Format, a: seq<Word>, b: seq<Word>, chain: seq<nat>, contents: seq<seq<Item>>, k: nat, last: bool)
    requires Good(f) && |a| == |b| && k < |contents| && k < |chain| && Inside(a, chain[k])
    requires PageHolds(PageView(f, a, chain[k]), contents[k], last)
    requires forall w: nat :: OnPage(chain[k], w) ==> a[w] == b[w]
    ensures PageHolds(PageView(f, b, chain[k]), contents[k], last)
  {
    hide Good, PageView;
    SameHolds(f, a, b, chain[k], contents[k], last);
  }

  /** The words after an append on the last page. */
  lemma HereIn(f: Format, a: seq<Word>, b: seq<Word>, chain: seq<nat>, contents: seq<seq<Item>>, it: Item)
    requires Good(f) && |a| == |b| && LogIn(f, a, chain, contents) && Sized(it) && |f.enc(it)| == it.size
    requires !IsLast(Used(contents[|contents| - 1]), it.size)
    requires var (w, c) := (TailOf(chain, contents), Base(chain[|contents| - 1]) + COUNT_WORD);
             forall v: nat :: v < |a| && v != c ==> b[v] == if w <= v < w + it.size then f.enc(it)[v - w] else a[v]
    ensures LogIn(f, b, chain, AppendItem(contents, it))
  {
    hide Good, PageHolds, Used, PageView;
    var (n, now) := (|contents| - 1, AppendItem(contents, it));
    assert HoldsAt(f, a, chain, contents, n);
    HoldsCells(PageView(f, a, chain[n]), contents[n], true);
    forall k | 0 <= k < |chain| - 1
      ensures NextIs(b, chain, k)
    {
      assert NextIs(a, chain, k);
    }
    forall k | 0 <= k < |now|
      ensures HoldsAt(f, b, chain, now, k)
    {
      assert HoldsAt(f, a, chain, contents, k);
      if k < n {
        OtherHolds(f, a, b, chain, contents, k, false);
      } else {
        StoreHolds(f, a, b, chain[n], contents[n], it);
      }
    }
  }

  /** An entry that fits on the last page. */
  lemma AppendHere(f: Format, s: State, chain: seq<nat>, contents: seq<seq<Item>>, it: Item, count: Word, fence: bool)
    requires Good(f) && Growing(f, s, chain, contents) && Sized(it) && it.size <= LINE_WORDS
    requires 0 < |contents| <= |chain| && !IsLast(Used(contents[|contents| - 1]), it.size)
    ensures var c := Base(chain[|contents| - 1]) + COUNT_WORD;
            var ops := EntryOps(TailOf(chain, contents), f.enc(it), c, count, fence);
            StoresFree(ops, chain, contents) && Growing(f, Run(s, ops), chain, AppendItem(contents, it))
  {
    hide Good, LogIn, Run, Used, EntryOps, Armed, Free, Needed, AppendItem;
    var (n, w, vals) := (|contents| - 1, TailOf(chain, contents), f.enc(it));
    var c := Base(chain[n]) + COUNT_WORD;
    var ops := EntryOps(w, vals, c, count, fence);
    var t := Run(s, ops);
    EncSize(f, it);
    TailInside(f, s.cache, chain, contents);
    EntryRun(s, w, vals, c, count, fence);
    HereIn(f, s.cache, t.cache, chain, contents, it);
    forall i | 0 <= i < |ops| && ops[i].Store?
      ensures Free(chain, contents, ops[i].word)
    {
      EntryStores(w, vals, c, count, fence, i);
      FreeAt(f, s.cache, chain, contents, n, ops[i].word);
    }
    forall v: nat | v < |s.cache| && Needed(chain, AppendItem(contents, it), v)
      ensures Armed(t, v)
    {
      NeededHere(chain, contents, it, v);
      if w <= v < w + it.size {
        EntryArmed(s, w, vals, c, count, fence, v);
      } else {
        NotStored(ops, chain, contents, v);
        StayArmed(s, ops, v);
      }
    }
    forall k | 0 <= k < |chain| - 1
      ensures LinkArmed(t, chain, k)
    {
      assert LinkArmed(s, chain, k);
      LinkApart(f, s.cache, chain, contents, k, n, w, it.size);
      forall i | 0 <= i < |ops| && ops[i].Store?
        ensures ops[i].word != Base(chain[k]) + NEXT_WORD
      {
        EntryStores(w, vals, c, count, fence, i);
      }
      StayArmed(s, ops, Base(chain[k]) + NEXT_WORD);
    }
  }

  lemma EncSize(f: Format, it: Item)
    requires Good(f) && Sized(it)
    ensures |f.enc(it)| == it.size
  {}

  lemma TailInside(f: Format, words: seq<Word>, chain: seq<nat>, contents: seq<seq<Item>>)
    requires LogIn(f, words, chain, contents)
    ensures 0 < |contents| <= |chain|
    ensures var n := |contents| - 1; Used(contents[n]) <= PAYLOAD && Base(chain[n]) + PAGE_WORDS <= |words|
  {
    hide PageHolds, PageView, Used;
    var n := |contents| - 1;
    assert HoldsAt(f, words, chain, contents, n);
    HoldsCells(PageView(f, words, chain[n]), contents[n], true);
  }

  lemma NotStored(ops: seq<Op>, chain: seq<nat>, contents: seq<seq<Item>>, v: nat)
    requires StoresFree(ops, chain, contents) && Needed(chain, contents, v)
    ensures forall i :: 0 <= i < |ops| && ops[i].Store? ==> ops[i].word != v
  {
    hide Needed;
  }

  /** What the longer log needs beyond the shorter one. */
  lemma NeededHere(chain: seq<nat>, contents: seq<seq<Item>>, it: Item, v: nat)
    requires 0 < |contents| <= |chain| && !IsLast(Used(contents[|contents| - 1]), it.size)
    requires Needed(chain, AppendItem(contents, it), v)
    ensures Needed(chain, contents, v) || TailOf(chain, contents) <= v < TailOf(chain, contents) + it.size
  {
    hide Used;
    var (n, now) := (|contents| - 1, AppendItem(contents, it));
    var k :| 0 <= k < |now| && Needs(chain, now, k, v);
    UsedAppend(contents[n], it);
    if k < n || v < TailOf(chain, contents) {
      assert Needs(chain, contents, k, v);
    }
  }

  lemma LinkApart(f: Format, words: seq<Word>, chain: seq<nat>, contents: seq<seq<Item>>, k: nat, n: nat, w: nat,
                  size: nat)
    requires LogIn(f, words, chain, contents) && k < |chain| && n < |chain|
    requires Base(chain[n]) <= w && w + size <= Base(chain[n]) + PAYLOAD
    ensures var l := Base(chain[k]) + NEXT_WORD; !(w <= l < w + size) && l != Base(chain[n]) + COUNT_WORD
  {}

  /** The last page is closed with a next-page mark, and another page follows. */
  ghost predicate Closed(f: Format, s: State, chain: seq<nat>, contents: seq<seq<Item>>) {
    && Growing(f, s, chain, contents) && 0 < |contents| < |chain|
    && var n := |contents| - 1;
       && Inside(s.cache, chain[n]) && PageHolds(PageView(f, s.cache, chain[n]), contents[n], false)
       && (Used(contents[n]) < PAYLOAD ==> Armed(s, TailOf(chain, contents)))
  }

  /** nova_set_next_page_flag */
  function CloseOps(f: Format, chain: seq<nat>, contents: seq<seq<Item>>, v: Word): seq<Op>
    requires 0 < |contents| <= |chain|
  {
    if Used(contents[|contents| - 1]) >= PAYLOAD then [] else MarkOps(TailOf(chain, contents), f.mark(v))
  }

  /** The words after the mark. */
  lemma MarkIn(f: Format, a: seq<Word>, chain: seq<nat>, contents: seq<seq<Item>>, v: Word)
    requires Good(f) && LogIn(f, a, chain, contents) && Used(contents[|contents| - 1]) < PAYLOAD
    requires TailOf(chain, contents) < |a|
    ensures var (b, n) := (a[TailOf(chain, contents) := f.mark(v)], |contents| - 1);
            LogIn(f, b, chain, contents) && PageHolds(PageView(f, b, chain[n]), contents[n], false)
  {
    hide Good, PageHolds, Used, PageView;
    var (b, n) := (a[TailOf(chain, contents) := f.mark(v)], |contents| - 1);
    forall k | 0 <= k < |chain| - 1
      ensures NextIs(b, chain, k)
    {
      assert NextIs(a, chain, k);
    }
    assert HoldsAt(f, a, chain, contents, n);
    forall k | 0 <= k < |contents|
      ensures HoldsAt(f, b, chain, contents, k)
    {
      assert HoldsAt(f, a, chain, contents, k);
      if k < n {
        OtherHolds(f, a, b, chain, contents, k, false);
      } else {
        SameHolds(f, a, b, chain[n], contents[n], true);
      }
    }
    MarkHolds(f, a, chain[n], contents[n], v);
  }

  lemma FullHolds(page: LogPage, items: seq<Item>)
    requires PageHolds(page, items, true) && Used(items) >= PAYLOAD
    ensures PageHolds(page, items, false)
  {}

  lemma AppendClose(f: Format, s: State, chain: seq<nat>, contents: seq<seq<Item>>, v: Word)
    requires Good(f) && Growing(f, s, chain, contents) && 0 < |contents| < |chain|
    ensures var ops := CloseOps(f, chain, contents, v);
            StoresFree(ops, chain, contents) && Closed(f, Run(s, ops), chain, contents)
  {
    hide Good, LogIn, Run, Used, MarkOps, Armed, Free, Needed, PageHolds, PageView;
    var (n, w, ops) := (|contents| - 1, TailOf(chain, contents), CloseOps(f, chain, contents, v));
    TailInside(f, s.cache, chain, contents);
    if Used(contents[n]) >= PAYLOAD {
      RunNone(s);
      TailHolds(f, s.cache, chain, contents);
      FullHolds(PageView(f, s.cache, chain[n]), contents[n]);
    } else {
      var t := Run(s, ops);
      MarkRun(s, w, f.mark(v));
      MarkIn(f, s.cache, chain, contents, v);
      FreeAt(f, s.cache, chain, contents, n, w);
      forall x: nat | x < |s.cache| && Needed(chain, contents, x)
        ensures Armed(t, x)
      {
        NotStored(ops, chain, contents, x);
        StayArmed(s, ops, x);
      }
      forall k | 0 <= k < |chain| - 1
        ensures LinkArmed(t, chain, k)
      {
        assert LinkArmed(s, chain, k);
        LinkApart(f, s.cache, chain, contents, k, n, w, 1);
        StayArmed(s, ops, Base(chain[k]) + NEXT_WORD);
      }
    }
  }

  lemma RunNone(s: State)
    requires |s.cache| == |s.may| == |s.wb|
    ensures Run(s, []) == s
  {}

  lemma TailHolds(f: Format, words: seq<Word>, chain: seq<nat>, contents: seq<seq<Item>>)
    requires LogIn(f, words, chain, contents)
    ensures HoldsAt(f, words, chain, contents, |contents| - 1)
  {}

  /** The words after an append at the start of the next page. */
  lemma ThereIn(f: Format, a: seq<Word>, b: seq<Word>, chain: seq<nat>, contents: seq<seq<Item>>, it: Item)
    requires Good(f) && |a| == |b| && LogIn(f, a, chain, contents) && Sized(it) && |f.enc(it)| == it.size
    requires 0 < |contents| < |chain| && Inside(a, chain[|contents| - 1])
    requires PageHolds(PageView(f, a, chain[|contents| - 1]), contents[|contents| - 1], false)
    requires var (w, c) := (Base(chain[|contents|]), Base(chain[|contents|]) + COUNT_WORD);
             forall v: nat :: v < |a| && v != c ==> b[v] == if w <= v < w + it.size then f.enc(it)[v - w] else a[v]
    ensures LogIn(f, b, chain, contents + [[it]])
  {
    hide Good, PageHolds, Used, PageView;
    var (n, now) := (|contents|, contents + [[it]]);
    forall k | 0 <= k < |chain| - 1
      ensures NextIs(b, chain, k)
    {
      assert NextIs(a, chain, k);
    }
    forall k | 0 <= k < |now|
      ensures HoldsAt(f, b, chain, now, k)
    {
      if k < n {
        assert HoldsAt(f, a, chain, contents, k);
        OtherHolds(f, a, b, chain, contents, k, false);
      } else {
        EmptyHolds(f, a, chain[n]);
        StoreHolds(f, a, b, chain[n], [], it);
        assert now[n] == [] + [it];
      }
    }
  }

  lemma EmptyHolds(f: Format, words: seq<Word>, page: nat)
    requires Inside(words, page)
    ensures PageHolds(PageView(f, words, page), [], true) && Used([]) == 0
  {}

  lemma NeededThere(chain: seq<nat>, contents: seq<seq<Item>>, it: Item, v: nat)
    requires 0 < |contents| < |chain| && Needed(chain, contents + [[it]], v)
    ensures || Needed(chain, contents, v)
            || v == Base(chain[|contents| - 1]) + NEXT_WORD
            || (Used(contents[|contents| - 1]) < PAYLOAD && v == TailOf(chain, contents))
            || Base(chain[|contents|]) <= v < Base(chain[|contents|]) + it.size
  {
    hide Used;
    var (n, now) := (|contents|, contents + [[it]]);
    var k :| 0 <= k < |now| && Needs(chain, now, k, v);
    if k < n {
      assert Needs(chain, contents, k, v) || k == n - 1;
    } else {
      UsedOne(it);
    }
  }

  lemma UsedOne(it: Item)
    ensures Used([it]) == it.size
  {
    UsedAppend([], it);
    assert [] + [it] == [it];
  }

  /** An entry that opens the next page. */
  lemma AppendThere(f: Format, s: State, chain: seq<nat>, contents: seq<seq<Item>>, it: Item, count: Word, fence: bool)
    requires Good(f) && Closed(f, s, chain, contents) && Sized(it) && it.size <= LINE_WORDS
    ensures var b := Base(chain[|contents|]);
            var ops := EntryOps(b, f.enc(it), b + COUNT_WORD, count, fence);
            StoresFree(ops, chain, contents) && Growing(f, Run(s, ops), chain, contents + [[it]])
  {
    hide Good, LogIn, Run, Used, EntryOps, Armed, Free, Needed, PageHolds, PageView;
    var (n, w, vals) := (|contents|, Base(chain[|contents|]), f.enc(it));
    var c := w + COUNT_WORD;
    var ops := EntryOps(w, vals, c, count, fence);
    var t := Run(s, ops);
    EncSize(f, it);
    PageInside(f, s.cache, chain, contents, n);
    EntryRun(s, w, vals, c, count, fence);
    ThereIn(f, s.cache, t.cache, chain, contents, it);
    forall i | 0 <= i < |ops| && ops[i].Store?
      ensures Free(chain, contents, ops[i].word)
    {
      EntryStores(w, vals, c, count, fence, i);
      FreeAt(f, s.cache, chain, contents, n, ops[i].word);
    }
    forall k | 0 <= k < |chain| - 1
      ensures LinkArmed(t, chain, k)
    {
      assert LinkArmed(s, chain, k);
      LinkApart(f, s.cache, chain, contents, k, n, w, it.size);
      forall i | 0 <= i < |ops| && ops[i].Store?
        ensures ops[i].word != Base(chain[k]) + NEXT_WORD
      {
        EntryStores(w, vals, c, count, fence, i);
      }
      StayArmed(s, ops, Base(chain[k]) + NEXT_WORD);
    }
    assert LinkArmed(t, chain, n - 1);
    forall v: nat | v < |s.cache| && Needed(chain, contents + [[it]], v)
      ensures Armed(t, v)
    {
      NeededThere(chain, contents, it, v);
      if w <= v < w + it.size {
        EntryArmed(s, w, vals, c, count, fence, v);
      } else if Needed(chain, contents, v) {
        NotStored(ops, chain, contents, v);
        StayArmed(s, ops, v);
      } else if v != Base(chain[n - 1]) + NEXT_WORD {
        PageInside(f, s.cache, chain, contents, n - 1);
        forall i | 0 <= i < |ops| && ops[i].Store?
          ensures ops[i].word != v
        {
          EntryStores(w, vals, c, count, fence, i);
        }
        StayArmed(s, ops, v);
      }
    }
  }

  lemma PageInside(f: Format, words: seq<Word>, chain: seq<nat>, contents: seq<seq<Item>>, k: nat)
    requires LogIn(f, words, chain, contents) && k < |chain|
    ensures Base(chain[k]) + PAGE_WORDS <= |words|
    ensures forall j :: 0 <= j < |chain| && j != k ==> chain[j] != chain[k]
  {}

  // ----- an append, several appends, and the commit -----

  /** One entry: what its page tail counts afterwards, what stood where a mark went, and whether its write-back is
      fenced. */
  datatype Add = Add(item: Item, under: Word, count: Word, fence: bool)

  /** nova_get_append_head and nova_append_log_entry */
  function AddOps(f: Format, chain: seq<nat>, contents: seq<seq<Item>>, a: Add): seq<Op>
    requires 0 < |contents| <= |chain| && |AppendItem(contents, a.item)| <= |chain|
  {
    var n := |contents| - 1;
    if IsLast(Used(contents[n]), a.item.size) then
      var b := Base(chain[n + 1]);
      CloseOps(f, chain, contents, a.under) + EntryOps(b, f.enc(a.item), b + COUNT_WORD, a.count, a.fence)
    else
      EntryOps(TailOf(chain, contents), f.enc(a.item), Base(chain[n]) + COUNT_WORD, a.count, a.fence)
  }

  predicate Fits(a: Add) {
    Sized(a.item) && a.item.size <= LINE_WORDS
  }

  lemma Wfs(f: Format, s: State, chain: seq<nat>, contents: seq<seq<Item>>)
    requires Growing(f, s, chain, contents)
    ensures Wf(s)
  {}

  lemma AddStep(f: Format, s: State, chain: seq<nat>, contents: seq<seq<Item>>, a: Add)
    requires Good(f) && Growing(f, s, chain, contents) && Fits(a)
    requires 0 < |contents| <= |chain| && |AppendItem(contents, a.item)| <= |chain|
    ensures var ops := AddOps(f, chain, contents, a);
            StoresFree(ops, chain, contents) && Growing(f, Run(s, ops), chain, AppendItem(contents, a.item))
  {
    hide Good, Growing, Run, Used, EntryOps, CloseOps, Free;
    var n := |contents| - 1;
    Wfs(f, s, chain, contents);
    if IsLast(Used(contents[n]), a.item.size) {
      var (close, b) := (CloseOps(f, chain, contents, a.under), Base(chain[n + 1]));
      var entry := EntryOps(b, f.enc(a.item), b + COUNT_WORD, a.count, a.fence);
      AppendClose(f, s, chain, contents, a.under);
      AppendThere(f, Run(s, close), chain, contents, a.item, a.count, a.fence);
      RunConcat(s, close, entry);
    } else {
      AppendHere(f, s, chain, contents, a.item, a.count, a.fence);
    }
  }

  function AppendAll(contents: seq<seq<Item>>, adds: seq<Add>): (out: seq<seq<Item>>)
    requires contents != []
    ensures |out| >= |contents|
    decreases |adds|
  {
    if adds == [] then contents else AppendAll(AppendItem(contents, adds[0].item), adds[1..])
  }

  function AllOps(f: Format, chain: seq<nat>, contents: seq<seq<Item>>, adds: seq<Add>): seq<Op>
    requires contents != [] && |AppendAll(contents, adds)| <= |chain|
    decreases |adds|
  {
    if adds == [] then [] else
      AddOps(f, chain, contents, adds[0]) + AllOps(f, chain, AppendItem(contents, adds[0].item), adds[1..])
  }

  function Items(adds: seq<Add>): seq<Item> {
    seq(|adds|, i requires 0 <= i < |adds| => adds[i].item)
  }

  lemma {:induction false} FlattenAll(contents: seq<seq<Item>>, adds: seq<Add>)
    requires contents != []
    ensures Flatten(AppendAll(contents, adds)) == Flatten(contents) + Items(adds)
    decreases |adds|
  {
    if adds != [] {
      FlattenAppend(contents, adds[0].item);
      FlattenAll(AppendItem(contents, adds[0].item), adds[1..]);
      assert Items(adds) == [adds[0].item] + Items(adds[1..]);
    }
  }

  /** A longer log needs what the shorter one does. */
  lemma NeededMore(chain: seq<nat>, contents: seq<seq<Item>>, it: Item, v: nat)
    requires contents != [] && Needed(chain, contents, v)
    ensures Needed(chain, AppendItem(contents, it), v)
  {
    hide Used;
    var (n, now) := (|contents| - 1, AppendItem(contents, it));
    var k :| 0 <= k < |contents| && Needs(chain, contents, k, v);
    UsedAppend(contents[n], it);
    assert Needs(chain, now, k, v);
  }

  lemma FreeLess(ops: seq<Op>, chain: seq<nat>, contents: seq<seq<Item>>, it: Item)
    requires contents != [] && StoresFree(ops, chain, AppendItem(contents, it))
    ensures StoresFree(ops, chain, contents)
  {
    hide Needed, AppendItem;
    forall i | 0 <= i < |ops| && ops[i].Store?
      ensures Free(chain, contents, ops[i].word)
    {
      if Needed(chain, contents, ops[i].word) {
        NeededMore(chain, contents, it, ops[i].word);
      }
    }
  }

  lemma {:induction false} AddAll(f: Format, s: State, chain: seq<nat>, contents: seq<seq<Item>>, adds: seq<Add>)
    requires Good(f) && Growing(f, s, chain, contents) && contents != []
    requires (forall i :: 0 <= i < |adds| ==> Fits(adds[i])) && |AppendAll(contents, adds)| <= |chain|
    ensures var ops := AllOps(f, chain, contents, adds);
            StoresFree(ops, chain, contents) && Growing(f, Run(s, ops), chain, AppendAll(contents, adds))
    decreases |adds|
  {
    hide Good, Growing, Run, AddOps, Free, Fits, AppendItem;
    Wfs(f, s, chain, contents);
    if adds == [] {
      RunNone(s);
    } else {
      var (first, next) := (AddOps(f, chain, contents, adds[0]), AppendItem(contents, adds[0].item));
      AddStep(f, s, chain, contents, adds[0]);
      AddAll(f, Run(s, first), chain, next, adds[1..]);
      var rest := AllOps(f, chain, next, adds[1..]);
      RunConcat(s, first, rest);
      FreeLess(rest, chain, contents, adds[0].item);
    }
  }

  lemma SettledArmed(s: State, w: nat)
    requires Wf(s) && Settled(s, w)
    ensures Armed(s, w)
  {}

  lemma NeededOnPage(f: Format, words: seq<Word>, chain: seq<nat>, contents: seq<seq<Item>>, w: nat)
    requires LogIn(f, words, chain, contents) && Needed(chain, contents, w)
    ensures exists k :: 0 <= k < |chain| && OnPage(chain[k], w)
  {
    hide PageHolds, PageView, Used;
    var k :| 0 <= k < |contents| && Needs(chain, contents, k, w);
    assert HoldsAt(f, words, chain, contents, k);
    HoldsCells(PageView(f, words, chain[k]), contents[k], k + 1 == |contents|);
    assert OnPage(chain[k], w);
  }

  ghost predicate LinkSettled(s: State, chain: seq<nat>, k: nat) {
    k < |chain| && Settled(s, Base(chain[k]) + NEXT_WORD)
  }

  lemma FreeWithin(f: Format, words: seq<Word>, ops: seq<Op>, chain: seq<nat>, contents: seq<seq<Item>>,
                   region: set<nat>)
    requires LogIn(f, words, chain, contents) && StoresFree(ops, chain, contents)
    requires region == set w: nat | w < |words| && Free(chain, contents, w)
    ensures StoresWithin(ops, region)
  {
    hide Needed, Filled, HoldsAt, NextIs;
    forall i | 0 <= i < |ops| && ops[i].Store?
      ensures ops[i].word in region
    {
      assert Free(chain, contents, ops[i].word);
    }
  }

  lemma OffLog(f: Format, words: seq<Word>, chain: seq<nat>, contents: seq<seq<Item>>, w: nat)
    requires LogIn(f, words, chain, contents) && forall j :: 0 <= j < |chain| ==> !OnPage(chain[j], w)
    ensures !Needed(chain, contents, w)
  {
    hide LogIn, Needed;
    if Needed(chain, contents, w) {
      NeededOnPage(f, words, chain, contents, w);
    }
  }

  /** Appends and their commit are atomic: the machine may stop at any primitive; a reader that trusts the tail then
      meets the old entries, or the old ones and all the new ones in order; after the last primitive, the new ones. */
  lemma AppendAtomic(f: Format, s: State, adds: seq<Add>, pi: nat, chain: seq<nat>, contents: seq<seq<Item>>, k: nat,
                     image: seq<Word>) returns (done: bool)
    requires Good(f) && Durable(f, s, chain, contents) && 0 < |contents| <= |chain|
    requires forall j :: 0 <= j < |chain| - 1 ==> LinkSettled(s, chain, j)
    requires (forall i :: 0 <= i < |adds| ==> Fits(adds[i])) && |AppendAll(contents, adds)| <= |chain|
    requires pi % WORD == 0 && TailWord(pi) < |s.cache| && Settled(s, TailWord(pi))
    requires s.cache[TailWord(pi)] == TailOf(chain, contents)
    requires forall j :: 0 <= j < |chain| ==> !OnPage(chain[j], TailWord(pi))
    requires var ops := AllOps(f, chain, contents, adds) + CommitOps(pi, TailOf(chain, AppendAll(contents, adds)));
             k <= |ops| && CrashImage(Run(s, ops[..k]), image)
    ensures |image| == |s.cache|
    ensures var now := if done then AppendAll(contents, adds) else contents;
            && image[TailWord(pi)] == TailOf(chain, now) && Reads(f, image, chain, now)
            && Flatten(now) == Flatten(contents) + if done then Items(adds) else []
    ensures k == |AllOps(f, chain, contents, adds) + CommitOps(pi, TailOf(chain, AppendAll(contents, adds)))| ==> done
  {
    hide Good, LogIn, Run, Settled, Needed, Reads, CommitOps, AllOps, AppendAll, TailOf, TailWord, Flatten, Fits;
    var (body, all) := (AllOps(f, chain, contents, adds), AppendAll(contents, adds));
    forall w: nat | w < |s.cache| && Needed(chain, contents, w)
      ensures Armed(s, w)
    {
      SettledArmed(s, w);
    }
    forall j | 0 <= j < |chain| - 1
      ensures LinkArmed(s, chain, j)
    {
      assert LinkSettled(s, chain, j);
      SettledArmed(s, Base(chain[j]) + NEXT_WORD);
    }
    AddAll(f, s, chain, contents, adds);
    var region := set w: nat | w < |s.cache| && Free(chain, contents, w);
    FreeWithin(f, s.cache, body, chain, contents, region);
    OffLog(f, s.cache, chain, contents, TailWord(pi));
    OffLog(f, Run(s, body).cache, chain, all, TailWord(pi));
    done := CommitAtomic(f, s, body, region, pi, chain, contents, all, k, image);
    FlattenAll(contents, adds);
  }
}
