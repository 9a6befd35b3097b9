/** What the transactions of the file system leave behind once they are committed: which word gets which value, and
    that every other word of data is as before (namei.c, log.c:458-496). */
module JournalResults {
  import opened Options
  import opened Pmem
  import opened Journal
  import opened JournalRecovery
  import opened JournalTxn
  import opened JournalBodies

  type Writes = map<nat, Word>

  /** The fields an inode gets: log tail, valid byte's word, delete epoch. */
  function InodeWrites(c: InodeChange): Writes {
    match c
    case MoveTail(pi, tail) => map[(pi + LOG_TAIL) / WORD := tail]
    case Unlink(pi, tail, valid, epoch) =>
      map[(pi + LOG_TAIL) / WORD := tail, pi / WORD := valid, (pi + DELETE_EPOCH) / WORD := epoch]
    case SetValid(pi, valid) => map[pi / WORD := valid]
  }

  ghost predicate Holds(mem: seq<Word>, m: Writes) {
    forall w :: w in m ==> w < |mem| && mem[w] == m[w]
  }

  /** The data words of a device after the given writes, and no others. */
  ghost predicate Written(l: Layout, before: seq<Word>, after: seq<Word>, all: seq<Writes>) {
    && |after| == |before| && (forall i :: 0 <= i < |all| ==> Holds(after, all[i]))
    && forall w :: 0 <= w < |before| && l.IsData(w) && !AnyWrites(all, w) ==> after[w] == before[w]
  }

  predicate AnyWrites(all: seq<Writes>, w: nat) {
    exists i :: 0 <= i < |all| && w in all[i]
  }

  // ----- what primitives write -----

  /** Wherever they start from, these primitives write m and leave the other words. */
  ghost predicate OpsWrite(words: nat, ops: seq<Op>, m: Writes) {
    && (forall w :: w in m ==> w < words)
    && forall s: State, w :: Pmem.Wf(s) && |s.cache| == words && 0 <= w < words ==>
         Run(s, ops).cache[w] == if w in m then m[w] else s.cache[w]
  }

  lemma WriteConcat(words: nat, a: seq<Op>, b: seq<Op>, ma: Writes, mb: Writes)
    requires OpsWrite(words, a, ma) && OpsWrite(words, b, mb)
    ensures OpsWrite(words, a + b, ma + mb)
  {
    hide Run;
    forall s: State, w | Pmem.Wf(s) && |s.cache| == words && 0 <= w < words
      ensures Run(s, a + b).cache[w] == if w in ma + mb then (ma + mb)[w] else s.cache[w]
    {
      RunWf(s, a);
      RunConcat(s, a, b);
    }
  }

  lemma WriteOne(words: nat, w: nat, v: Word)
    requires w < words
    ensures OpsWrite(words, [Store(w, v)], map[w := v])
  {
    hide Run;
    forall s: State, x | Pmem.Wf(s) && |s.cache| == words && 0 <= x < words
      ensures Run(s, [Store(w, v)]).cache[x] == if x in map[w := v] then v else s.cache[x]
    {
      RunOne(s, Store(w, v));
    }
  }

  lemma WriteNone(words: nat, ops: seq<Op>)
    requires StoresWithin(ops, {})
    ensures OpsWrite(words, ops, map[])
  {
    hide Run;
    forall s: State, w | Pmem.Wf(s) && |s.cache| == words && 0 <= w < words
      ensures Run(s, ops).cache[w] == s.cache[w]
    {
      RunFrame(s, ops, {});
    }
  }

  lemma WriteFlush(words: nat, buf: nat, len: nat)
    ensures OpsWrite(words, FlushBuffer(buf, len, true), map[]) && OpsWrite(words, [Fence], map[])
  {
    WriteNone(words, FlushBuffer(buf, len, true));
    WriteNone(words, [Fence]);
  }

  /** Stores, then a write-back. */
  lemma WriteBack(words: nat, pre: seq<Op>, m: Writes, buf: nat, len: nat)
    requires OpsWrite(words, pre, m)
    ensures OpsWrite(words, pre + FlushBuffer(buf, len, true), m)
  {
    hide OpsWrite, FlushBuffer;
    WriteFlush(words, buf, len);
    WriteConcat(words, pre, FlushBuffer(buf, len, true), m, map[]);
    assert m + map[] == m;
  }

  lemma UpdateInodeWrites(words: nat, pi: nat, tail: Word)
    requires (pi + LOG_TAIL) / WORD < words
    ensures OpsWrite(words, UpdateInode(pi, tail), map[(pi + LOG_TAIL) / WORD := tail])
  {
    hide OpsWrite, FlushBuffer;
    var w := (pi + LOG_TAIL) / WORD;
    WriteOne(words, w, tail);
    WriteFlush(words, 0, 0);
    WriteConcat(words, [Fence], [Store(w, tail)], map[], map[w := tail]);
    assert [Fence] + [Store(w, tail)] == [Fence, Store(w, tail)] && map[] + map[w := tail] == map[w := tail];
    WriteBack(words, [Fence, Store(w, tail)], map[w := tail], pi + LOG_TAIL, LINE);
    WriteBack(words, [Fence, Store(w, tail)] + FlushBuffer(pi + LOG_TAIL, LINE, true), map[w := tail], pi, INODE_BYTES);
  }

  lemma InodeMemberWrites(l: Layout, words: nat, c: InodeChange)
    requires InodeAt(l, words, c.pi)
    ensures OpsWrite(words, InodeMember(c).part.ops, InodeWrites(c))
    ensures InodeWrites(c).Keys <= InodeMember(c).part.stores
  {
    hide OpsWrite, FlushBuffer, UpdateInode;
    InodeOffsets(c.pi);
    assert WordAt(c.pi, 0) in InodeWords(c.pi) && WordAt(c.pi, 9) in InodeWords(c.pi)
           && WordAt(c.pi, 13) in InodeWords(c.pi);
    match c {
      case MoveTail(pi, tail) => UpdateInodeWrites(words, pi, tail);
      case Unlink(pi, tail, valid, epoch) =>
        UnlinkWrites(words, pi, tail, valid, epoch);
      case SetValid(pi, valid) =>
        WriteOne(words, pi / WORD, valid);
        WriteBack(words, [Store(pi / WORD, valid)], map[pi / WORD := valid], pi, INODE_BYTES);
    }
  }

  lemma UnlinkWrites(words: nat, pi: nat, tail: Word, valid: Word, epoch: Word)
    requires (pi + LOG_TAIL) / WORD < words && pi / WORD < words && (pi + DELETE_EPOCH) / WORD < words
    requires pi % INODE_SIZE == 0
    ensures OpsWrite(words, UnlinkPart(pi, tail, valid, epoch).ops, InodeWrites(Unlink(pi, tail, valid, epoch)))
  {
    hide OpsWrite, UpdateInode;
    InodeOffsets(pi);
    var (a, b, t) := (pi / WORD, (pi + DELETE_EPOCH) / WORD, (pi + LOG_TAIL) / WORD);
    WriteOne(words, a, valid);
    WriteOne(words, b, epoch);
    WriteConcat(words, [Store(a, valid)], [Store(b, epoch)], map[a := valid], map[b := epoch]);
    UpdateInodeWrites(words, pi, tail);
    assert [Store(a, valid)] + [Store(b, epoch)] == [Store(a, valid), Store(b, epoch)];
    WriteConcat(words, [Store(a, valid), Store(b, epoch)], UpdateInode(pi, tail),
                map[a := valid] + map[b := epoch], map[t := tail]);
    assert map[a := valid] + map[b := epoch] + map[t := tail] == map[t := tail, a := valid, b := epoch];
  }

  lemma FatherWrites(words: nat, entry: nat, ino: Word)
    requires (entry + DENTRY_INO) / WORD < words
    ensures OpsWrite(words, FatherPart(entry, ino).ops, map[(entry + DENTRY_INO) / WORD := ino])
  {
    hide OpsWrite, FlushBuffer;
    var w := (entry + DENTRY_INO) / WORD;
    WriteOne(words, w, ino);
    WriteBack(words, [Store(w, ino)], map[w := ino], entry, LINE);
  }

  // ----- what a transaction writes -----

  ghost predicate Applied(before: seq<Word>, after: seq<Word>, all: seq<Writes>) {
    && |after| == |before| && (forall i :: 0 <= i < |all| ==> Holds(after, all[i]))
    && forall w :: 0 <= w < |before| && !AnyWrites(all, w) ==> after[w] == before[w]
  }

  lemma AppliedStep(before: seq<Word>, mid: seq<Word>, after: seq<Word>, all: seq<Writes>, m: Writes)
    requires Applied(before, mid, all) && |after| == |mid| && Holds(after, m)
    requires forall w :: 0 <= w < |mid| && w !in m ==> after[w] == mid[w]
    requires forall i :: 0 <= i < |all| ==> all[i].Keys !! m.Keys
    ensures Applied(before, after, all + [m])
  {
    var more := all + [m];
    forall i | 0 <= i < |more|
      ensures Holds(after, more[i])
    {
      if i < |all| {
        assert more[i] == all[i] && Holds(mid, all[i]);
      }
    }
    forall w | 0 <= w < |before| && !AnyWrites(more, w)
      ensures after[w] == before[w]
    {
      assert w !in more[|all|];
      assert forall i :: 0 <= i < |all| ==> all[i] == more[i];
    }
  }

  lemma OpsWrote(s: State, ops: seq<Op>, m: Writes)
    requires Pmem.Wf(s) && OpsWrite(|s.cache|, ops, m)
    ensures Holds(Run(s, ops).cache, m)
    ensures forall w :: 0 <= w < |s.cache| && w !in m ==> Run(s, ops).cache[w] == s.cache[w]
  {
    hide Run;
  }

  lemma {:induction false} FlattenWrites(words: nat, parts: seq<Part>, all: seq<Writes>, s: State)
    requires Pmem.Wf(s) && |s.cache| == words && |all| == |parts|
    requires forall i :: 0 <= i < |parts| ==> OpsWrite(words, parts[i].ops, all[i])
    requires forall i, j :: 0 <= i < j < |all| ==> all[i].Keys !! all[j].Keys
    ensures Applied(s.cache, Run(s, Flatten(parts)).cache, all)
  {
    hide Run, OpsWrite, Holds;
    if parts == [] {
      RunNone(s);
    } else {
      var n := |parts| - 1;
      var (pre, t) := (Flatten(parts[..n]), Run(s, Flatten(parts[..n])));
      FlattenWrites(words, parts[..n], all[..n], s);
      RunWf(s, pre);
      RunConcat(s, pre, parts[n].ops);
      OpsWrote(t, parts[n].ops, all[n]);
      AppliedStep(s.cache, t.cache, Run(t, parts[n].ops).cache, all[..n], all[n]);
      assert all[..n] + [all[n]] == all;
    }
  }

  /** A committed transaction of separate members has written what they write, and nothing else. */
  lemma MembersResult(l: Layout, s: State, fields: seq<nat>, ms: seq<Member>, all: seq<Writes>)
    requires Ready(l, s) && ValidTxn(l, |s.cache|, Txn(fields, Body(Parts(ms)))) && |all| == |ms|
    requires Separate(Parts(ms)) && forall i :: 0 <= i < |ms| ==> GoodMember(l, |s.cache|, ms[i])
    requires forall i :: 0 <= i < |ms| ==> MemberWrites(|s.cache|, ms[i], all[i])
    ensures Written(l, s.cache, Run(s, TxnOps(l, s, Txn(fields, Body(Parts(ms))))).cache, all)
  {
    hide Layout.Wf, Layout.InPage, Run, Step, Settled, BodySettles, CreateOps, PointerOps, Advance, Logged, OpsWrite;
    hide Holds, GoodPart, FieldWords;
    var (txn, parts) := (Txn(fields, Body(Parts(ms))), Parts(ms));
    LayoutFacts(l, |s.cache|);
    AfterPublish(l, s, txn);
    TxnCompletes(l, s, txn);
    var s2 := Published(l, s, txn);
    forall i, j | 0 <= i < j < |all|
      ensures all[i].Keys !! all[j].Keys
    {
      assert MemberWrites(|s.cache|, ms[i], all[i]) && MemberWrites(|s.cache|, ms[j], all[j]);
      assert GoodMember(l, |s.cache|, ms[i]) && GoodMember(l, |s.cache|, ms[j]);
      assert parts[i].settles !! parts[j].settles;
    }
    forall i | 0 <= i < |parts|
      ensures OpsWrite(|s.cache|, parts[i].ops, all[i])
    {
      assert MemberWrites(|s.cache|, ms[i], all[i]);
    }
    FlattenWrites(|s.cache|, parts, all, s2);
    RunWf(s2, Flatten(parts));
    RunConcat(s2, Flatten(parts), [Fence]);
    RunFrame(Run(s2, Flatten(parts)), [Fence], {});
    var (mid, after) := (Run(s2, txn.body).cache, Run(s, TxnOps(l, s, txn)).cache);
    assert mid == Run(s2, Flatten(parts)).cache;
    forall i | 0 <= i < |all|
      ensures Holds(after, all[i])
    {
      assert MemberWrites(|s.cache|, ms[i], all[i]) && GoodMember(l, |s.cache|, ms[i]);
      SameHolds(l, mid, after, all[i]);
    }
  }

  ghost predicate MemberWrites(words: nat, m: Member, ws: Writes) {
    OpsWrite(words, m.part.ops, ws) && ws.Keys <= m.part.stores
  }

  lemma SameHolds(l: Layout, a: seq<Word>, b: seq<Word>, m: Writes)
    requires l.SameData(a, b) && Holds(a, m) && forall w :: w in m ==> l.IsData(w)
    ensures Holds(b, m)
  {}

  // ----- the transactions -----

  /** The new inode's valid word and its directory's log tail. */
  lemma NewInodeResult(l: Layout, s: State, pi: nat, valid: Word, dir: nat, dirTail: Word)
    requires Ready(l, s) && InodeAt(l, |s.cache|, pi) && InodeAt(l, |s.cache|, dir) && pi != dir
    ensures ValidTxn(l, |s.cache|, NewInodeTxn(pi, valid, dir, dirTail))
    ensures var after := Run(s, TxnOps(l, s, NewInodeTxn(pi, valid, dir, dirTail))).cache;
            Written(l, s.cache, after, [map[(dir + LOG_TAIL) / WORD := dirTail], map[pi / WORD := valid]])
  {
    hide ValidTxn, Ready, InodeAt, Written, GoodMember, MemberWrites, InodeWords;
    NewInodeValid(l, |s.cache|, pi, valid, dir, dirTail);
    TwoMembers(l, s, NewInodeTxn(pi, valid, dir, dirTail).fields, MoveTail(dir, dirTail), SetValid(pi, valid));
  }

  lemma TwoMembers(l: Layout, s: State, fields: seq<nat>, a: InodeChange, b: InodeChange)
    requires Ready(l, s) && InodeAt(l, |s.cache|, a.pi) && InodeAt(l, |s.cache|, b.pi) && a.pi != b.pi
    requires ValidTxn(l, |s.cache|, Txn(fields, Body(Parts([InodeMember(a), InodeMember(b)]))))
    ensures var after := Run(s, TxnOps(l, s, Txn(fields, Body(Parts([InodeMember(a), InodeMember(b)]))))).cache;
            Written(l, s.cache, after, [InodeWrites(a), InodeWrites(b)])
  {
    hide ValidTxn, Ready, Written, GoodMember, InodeWords, InodeWrites, UpdateInode, FlushBuffer, OpsWrite;
    InodeMemberGood(l, |s.cache|, a);
    InodeMemberGood(l, |s.cache|, b);
    InodeMemberWrites(l, |s.cache|, a);
    InodeMemberWrites(l, |s.cache|, b);
    InodesSeparate(a.pi, b.pi);
    MembersResult(l, s, fields, [InodeMember(a), InodeMember(b)], [InodeWrites(a), InodeWrites(b)]);
  }

  /** Both log tails, each its own, and for an unlinked inode also its valid word and delete epoch. */
  lemma LinkResult(l: Layout, s: State, change: InodeChange, dir: nat, dirTail: Word)
    requires Ready(l, s) && InodeAt(l, |s.cache|, change.pi) && InodeAt(l, |s.cache|, dir) && change.pi != dir
    requires !change.SetValid?
    ensures ValidTxn(l, |s.cache|, LinkTxn(change, dir, dirTail))
    ensures var after := Run(s, TxnOps(l, s, LinkTxn(change, dir, dirTail))).cache;
            Written(l, s.cache, after, [InodeWrites(change), map[(dir + LOG_TAIL) / WORD := dirTail]])
  {
    hide ValidTxn, Ready, InodeAt, Written, GoodMember, MemberWrites, InodeWords;
    LinkValid(l, |s.cache|, change, dir, dirTail);
    TwoMembers(l, s, LinkTxn(change, dir, dirTail).fields, change, MoveTail(dir, dirTail));
  }

  // ----- a log entry updated in place -----

  /** What the stores leave: of several into one word, the last. */
  function EntryWrites(entry: nat, updates: seq<(nat, Word)>): Writes {
    if updates == [] then map[]
    else
      var (n, u) := (|updates| - 1, updates[|updates| - 1]);
      EntryWrites(entry, updates[..n])[WordAt(entry, u.0) := u.1]
  }

  predicate LastUpdate(updates: seq<(nat, Word)>, k: nat) {
    k < |updates| && forall j :: k < j < |updates| ==> updates[j].0 != updates[k].0
  }

  /** Some store goes to word w. */
  predicate Updates(entry: nat, updates: seq<(nat, Word)>, w: nat) {
    exists k :: 0 <= k < |updates| && w == WordAt(entry, updates[k].0)
  }

  lemma {:induction false} EntryWritesKeys(entry: nat, updates: seq<(nat, Word)>, w: nat)
    ensures w in EntryWrites(entry, updates) <==> Updates(entry, updates, w)
  {
    if updates != [] {
      var n := |updates| - 1;
      EntryWritesKeys(entry, updates[..n], w);
      if Updates(entry, updates[..n], w) {
        var k :| 0 <= k < n && w == WordAt(entry, updates[..n][k].0);
        assert w == WordAt(entry, updates[k].0);
      }
    }
  }

  lemma {:induction false} EntryWritesLast(entry: nat, updates: seq<(nat, Word)>, k: nat)
    requires LastUpdate(updates, k)
    ensures var w := WordAt(entry, updates[k].0);
            w in EntryWrites(entry, updates) && EntryWrites(entry, updates)[w] == updates[k].1
  {
    var n := |updates| - 1;
    if k < n {
      assert LastUpdate(updates[..n], k) && updates[n].0 != updates[k].0;
      EntryWritesLast(entry, updates[..n], k);
    }
  }

  function EntryStores(entry: nat, updates: seq<(nat, Word)>): seq<Op> {
    seq(|updates|, i requires 0 <= i < |updates| => Store(WordAt(entry, updates[i].0), updates[i].1))
  }

  lemma {:induction false} EntryStoresWrite(words: nat, entry: nat, updates: seq<(nat, Word)>)
    requires forall i :: 0 <= i < |updates| ==> WordAt(entry, updates[i].0) < words
    ensures OpsWrite(words, EntryStores(entry, updates), EntryWrites(entry, updates))
    decreases |updates|
  {
    hide OpsWrite;
    if updates == [] {
      WriteNone(words, []);
    } else {
      var (n, u) := (|updates| - 1, updates[|updates| - 1]);
      var w := WordAt(entry, u.0);
      EntryStoresWrite(words, entry, updates[..n]);
      WriteOne(words, w, u.1);
      WriteConcat(words, EntryStores(entry, updates[..n]), [Store(w, u.1)], EntryWrites(entry, updates[..n]),
                  map[w := u.1]);
      assert EntryStores(entry, updates) == EntryStores(entry, updates[..n]) + [Store(w, u.1)];
      assert EntryWrites(entry, updates) == EntryWrites(entry, updates[..n]) + map[w := u.1];
    }
  }

  lemma InplaceWritten(l: Layout, before: seq<Word>, after: seq<Word>, entry: nat, updates: seq<(nat, Word)>)
    requires Written(l, before, after, [EntryWrites(entry, updates)])
    ensures forall k: nat :: LastUpdate(updates, k) ==>
              Holds(after, map[WordAt(entry, updates[k].0) := updates[k].1])
    ensures forall w :: 0 <= w < |before| && l.IsData(w) && !Updates(entry, updates, w) ==> after[w] == before[w]
  {
    hide EntryWrites, Layout.IsData;
    var ws := EntryWrites(entry, updates);
    assert Holds(after, [ws][0]);
    forall k: nat | LastUpdate(updates, k)
      ensures Holds(after, map[WordAt(entry, updates[k].0) := updates[k].1])
    {
      EntryWritesLast(entry, updates, k);
    }
    forall w: nat
      ensures AnyWrites([ws], w) ==> Updates(entry, updates, w)
    {
      EntryWritesKeys(entry, updates, w);
    }
  }

  /** Every updated word of the entry holds its last update; the rest of the entry and all other data is as before. */
  lemma InplaceResult(l: Layout, s: State, entry: nat, size: nat, updates: seq<(nat, Word)>)
    requires Ready(l, s) && EntryAt(l, |s.cache|, entry) && size <= LINE
    requires forall i :: 0 <= i < |updates| ==> updates[i].0 < size / WORD
    ensures ValidTxn(l, |s.cache|, InplaceTxn(entry, size, updates))
    ensures var after := Run(s, TxnOps(l, s, InplaceTxn(entry, size, updates))).cache;
            && (forall k: nat :: LastUpdate(updates, k) ==>
                  Holds(after, map[WordAt(entry, updates[k].0) := updates[k].1]))
            && (forall w :: 0 <= w < |s.cache| && l.IsData(w) && !Updates(entry, updates, w) ==>
                  after[w] == s.cache[w])
  {
    hide GoodMember, OpsWrite, FlushBuffer, LogEntryFields, Layout.IsData, Layout.Wf, Layout.InPage, EntryAt, Run;
    hide TxnOps, EntryWrites, Updates, LastUpdate, Written, BodySettles, StoresWithin, Settled, EntryPart;
    var (m, ws) := (EntryMember(entry, size, updates), EntryWrites(entry, updates));
    InplaceValid(l, |s.cache|, entry, size, updates);
    EntryMemberGood(l, |s.cache|, entry, size, updates);
    EntryMemberWrites(l, |s.cache|, entry, size, updates);
    assert Parts([m]) == [m.part];
    MembersResult(l, s, m.fields, [m], [ws]);
    InplaceWritten(l, s.cache, Run(s, TxnOps(l, s, InplaceTxn(entry, size, updates))).cache, entry, updates);
  }

  lemma EntryMemberWrites(l: Layout, words: nat, entry: nat, size: nat, updates: seq<(nat, Word)>)
    requires EntryAt(l, words, entry) && size <= LINE
    requires forall i :: 0 <= i < |updates| ==> updates[i].0 < size / WORD
    ensures MemberWrites(words, EntryMember(entry, size, updates), EntryWrites(entry, updates))
  {
    hide OpsWrite, FlushBuffer, EntryWrites, Layout.IsData;
    forall i | 0 <= i < |updates|
      ensures WordAt(entry, updates[i].0) < words
    {
      assert WordAt(entry, updates[i].0) in EntryWords(entry);
    }
    EntryStoresWrite(words, entry, updates);
    WriteBack(words, EntryStores(entry, updates), EntryWrites(entry, updates), entry, LINE);
    forall w | w in EntryWrites(entry, updates)
      ensures w in EntryPart(entry, updates).stores
    {
      EntryWritesKeys(entry, updates, w);
    }
  }

  // ----- rename -----

  /** What a rename writes, in the order of its members. */
  function RenameWrites(r: Rename): seq<Writes> {
    [InodeWrites(r.moved), InodeWrites(r.oldDir)]
    + (if r.newDir.Some? then [InodeWrites(r.newDir.value)] else [])
    + (if r.father.Some? then [map[(r.father.value.0 + DENTRY_INO) / WORD := r.father.value.1]] else [])
    + (if r.replaced.Some? then [InodeWrites(r.replaced.value)] else [])
  }

  lemma RenameMembersWrite(l: Layout, words: nat, r: Rename)
    requires r.Wf(l, words)
    ensures |RenameWrites(r)| == |r.Members()|
    ensures forall i :: 0 <= i < |r.Members()| ==> MemberWrites(words, r.Members()[i], RenameWrites(r)[i])
  {
    hide OpsWrite, InodeAt, EntryAt, InodeMember, InodeWrites, FatherPart, EntryWords, InodeWords;
    var ins := r.Inodes();
    forall i | 0 <= i < |ins|
      ensures MemberWrites(words, InodeMember(ins[i]), InodeWrites(ins[i]))
    {
      InodeMemberWrites(l, words, ins[i]);
    }
    assert ins[0] == r.moved && ins[1] == r.oldDir;
    assert r.newDir.Some? ==> ins[2] == r.newDir.value;
    assert r.replaced.Some? ==> ins[|ins| - 1] == r.replaced.value;
    if r.father.Some? {
      FatherMemberWrites(l, words, r.father.value.0, r.father.value.1);
    }
  }

  lemma FatherMemberWrites(l: Layout, words: nat, entry: nat, ino: Word)
    requires EntryAt(l, words, entry)
    ensures MemberWrites(words, FatherMember(entry, ino), map[(entry + DENTRY_INO) / WORD := ino])
  {
    hide OpsWrite, FlushBuffer;
    assert (entry + DENTRY_INO) / WORD == WordAt(entry, 2) && WordAt(entry, 2) in EntryWords(entry);
    FatherWrites(words, entry, ino);
  }

  /** Every inode of the rename has its own new log tail, a replaced one that lost its last link also its valid word
      and delete epoch, the moved directory its new parent; all other data is as before. */
  lemma RenameResult(l: Layout, s: State, r: Rename)
    requires Ready(l, s) && r.Wf(l, |s.cache|)
    ensures ValidTxn(l, |s.cache|, RenameTxn(r))
    ensures Written(l, s.cache, Run(s, TxnOps(l, s, RenameTxn(r))).cache, RenameWrites(r))
  {
    hide ValidTxn, Ready, GoodMember, Separate, Written, MemberWrites, Rename.Wf, Rename.Members, Rename.Fields;
    hide RenameWrites;
    RenameValid(l, |s.cache|, r);
    RenameMembersGood(l, |s.cache|, r);
    RenameSeparate(l, |s.cache|, r);
    RenameMembersWrite(l, |s.cache|, r);
    MembersResult(l, s, r.Fields(), r.Members(), RenameWrites(r));
  }
}
