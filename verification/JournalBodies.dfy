/** The transactions the file system runs: inode creation, link and unlink, rename (namei.c) and the in-place
    update of a log entry (log.c:458-496). Each journals at most 8 words, stores to no others, and leaves them
    durable before it commits; so the crash theorem applies to all of them. */
module JournalBodies {
  import opened Options
  import opened Pmem
  import opened Journal
  import opened JournalRecovery
  import opened JournalTxn

  const INODE_SIZE := 128    // alignment of an inode
  const INODE_BYTES := 120   // sizeof(struct nova_inode)

  // Byte offsets inside struct nova_inode and struct nova_dentry
  const VALID := 1
  const LOG_TAIL := 72
  const DELETE_EPOCH := 104
  const DENTRY_CSUM := 12
  const DENTRY_INO := 16

  // ----- which words are journaled -----

  /** nova_append_inode_journal with metadata checksums off. */
  function InodeFields(pi: nat, newInode: bool, invalidate: bool, isDir: bool): seq<nat> {
    if isDir then [pi + LOG_TAIL]
    else if newInode then [pi + VALID]
    else [pi + LOG_TAIL] + if invalidate then [pi + VALID, pi + DELETE_EPOCH] else []
  }

  function DentryFields(entry: nat): seq<nat> {
    [entry + DENTRY_INO, entry + DENTRY_CSUM]
  }

  function LogEntryFields(entry: nat, size: nat): seq<nat> {
    seq(size / WORD, i requires 0 <= i => entry + i * WORD)
  }

  // ----- what the bodies do -----

  /** nova_update_inode: fence, move the log tail, write the inode back. */
  function UpdateInode(pi: nat, tail: Word): seq<Op> {
    [Fence, Store((pi + LOG_TAIL) / WORD, tail)]
    + FlushBuffer(pi + LOG_TAIL, LINE, true) + FlushBuffer(pi, INODE_BYTES, true)
  }

  /** A piece of a body: its primitives, the words it stores to and the words it leaves durable. */
  datatype Part = Part(ops: seq<Op>, stores: set<nat>, settles: set<nat>)

  ghost predicate GoodPart(words: nat, p: Part) {
    && StoresWithin(p.ops, p.stores)
    && (forall s: State, w :: Pmem.Wf(s) && |s.cache| == words && w in p.settles ==>
          Settled(Run(s, p.ops), w))
  }

  function InodeWords(pi: nat): set<nat> {
    set i | 0 <= i < 15 :: WordAt(pi, i)
  }

  function EntryWords(entry: nat): set<nat> {
    set i | 0 <= i < 8 :: WordAt(entry, i)
  }

  function WordAt(base: nat, i: nat): nat {
    base / WORD + i
  }

  /** Log tail of one inode. */
  function TailPart(pi: nat, tail: Word): Part {
    Part(UpdateInode(pi, tail), {WordAt(pi, 9)}, InodeWords(pi))
  }

  /** Log tail of an inode that loses its last link: also its valid byte and delete epoch. */
  function UnlinkPart(pi: nat, tail: Word, valid: Word, epoch: Word): Part {
    Part([Store(pi / WORD, valid), Store((pi + DELETE_EPOCH) / WORD, epoch)] + UpdateInode(pi, tail),
         {WordAt(pi, 0), WordAt(pi, 13), WordAt(pi, 9)}, InodeWords(pi))
  }

  /** The valid byte of a new inode. */
  function ValidPart(pi: nat, valid: Word): Part {
    Part([Store(pi / WORD, valid)] + FlushBuffer(pi, INODE_BYTES, true), {WordAt(pi, 0)}, InodeWords(pi))
  }

  /** The parent pointer of a moved directory. */
  function FatherPart(entry: nat, ino: Word): Part {
    Part([Store((entry + DENTRY_INO) / WORD, ino)] + FlushBuffer(entry, LINE, true), {WordAt(entry, 2)},
         EntryWords(entry))
  }

  /** Field stores into one log entry of at most 64 bytes, in any order and number. */
  function EntryPart(entry: nat, updates: seq<(nat, Word)>): Part {
    Part(seq(|updates|, i requires 0 <= i < |updates| => Store(WordAt(entry, updates[i].0), updates[i].1))
         + FlushBuffer(entry, LINE, true),
         set i | 0 <= i < |updates| :: WordAt(entry, updates[i].0), EntryWords(entry))
  }

  function Flatten(parts: seq<Part>): seq<Op> {
    if parts == [] then [] else Flatten(parts[..|parts| - 1]) + parts[|parts| - 1].ops
  }

  function Body(parts: seq<Part>): seq<Op> {
    Flatten(parts) + [Fence]
  }

  ghost predicate Separate(parts: seq<Part>) {
    forall i, j :: 0 <= i < j < |parts| ==> parts[i].settles !! parts[j].settles
  }

  // ----- every part does what it claims -----

  lemma InodeWordsLie(pi: nat, w: nat)
    requires pi % INODE_SIZE == 0 && w in InodeWords(pi)
    ensures pi <= WORD * w < pi + INODE_BYTES
  {
    var i :| 0 <= i < 15 && w == WordAt(pi, i);
  }

  lemma EntryWordsLie(entry: nat, w: nat)
    requires entry % WORD == 0 && w in EntryWords(entry)
    ensures entry <= WORD * w < entry + LINE
  {
    var i :| 0 <= i < 8 && w == WordAt(entry, i);
  }

  lemma InodeOffsets(pi: nat)
    requires pi % INODE_SIZE == 0
    ensures (pi + LOG_TAIL) / WORD == WordAt(pi, 9) && (pi + VALID) / WORD == WordAt(pi, 0)
    ensures (pi + DELETE_EPOCH) / WORD == WordAt(pi, 13) && pi / WORD == WordAt(pi, 0)
  {
    var k := pi / INODE_SIZE;
    assert pi == WORD * (16 * k);
  }

  /** Primitives that end by writing a buffer back settle the buffer. */
  lemma {:induction false} EndsInFlush(words: nat, pre: seq<Op>, buf: nat, len: nat, p: Part)
    requires p.ops == pre + FlushBuffer(buf, len, true) && StoresWithin(pre, p.stores)
    requires forall w :: w in p.settles ==> w < words && buf <= WORD * w < buf + len
    ensures GoodPart(words, p)
  {
    hide Run, FlushLines;
    FlushBufferHasNoStore(buf, len, true);
    forall s: State, w | Pmem.Wf(s) && |s.cache| == words && w in p.settles
      ensures Settled(Run(s, p.ops), w)
    {
      RunWf(s, pre);
      RunConcat(s, pre, FlushBuffer(buf, len, true));
      FlushBufferSettles(Run(s, pre), buf, len, w);
    }
  }

  lemma InodePartsGood(words: nat, pi: nat, tail: Word, valid: Word, epoch: Word)
    requires pi % INODE_SIZE == 0 && forall w :: w in InodeWords(pi) ==> w < words
    ensures GoodPart(words, TailPart(pi, tail)) && GoodPart(words, UnlinkPart(pi, tail, valid, epoch))
    ensures GoodPart(words, ValidPart(pi, valid))
  {
    hide GoodPart, FlushBuffer, InodeWords;
    forall w | w in InodeWords(pi)
      ensures pi <= WORD * w < pi + INODE_BYTES
    {
      InodeWordsLie(pi, w);
    }
    InodeOffsets(pi);
    FlushBufferHasNoStore(pi + LOG_TAIL, LINE, true);
    var pre := [Fence, Store((pi + LOG_TAIL) / WORD, tail)] + FlushBuffer(pi + LOG_TAIL, LINE, true);
    var unlink := [Store(pi / WORD, valid), Store((pi + DELETE_EPOCH) / WORD, epoch)];
    EndsInFlush(words, pre, pi, INODE_BYTES, TailPart(pi, tail));
    assert unlink + UpdateInode(pi, tail) == (unlink + pre) + FlushBuffer(pi, INODE_BYTES, true);
    EndsInFlush(words, unlink + pre, pi, INODE_BYTES, UnlinkPart(pi, tail, valid, epoch));
    EndsInFlush(words, [Store(pi / WORD, valid)], pi, INODE_BYTES, ValidPart(pi, valid));
  }

  lemma EntryPartsGood(words: nat, entry: nat, ino: Word, updates: seq<(nat, Word)>)
    requires entry % WORD == 0 && forall w :: w in EntryWords(entry) ==> w < words
    ensures GoodPart(words, FatherPart(entry, ino)) && GoodPart(words, EntryPart(entry, updates))
  {
    hide GoodPart, FlushBuffer, EntryWords;
    forall w | w in EntryWords(entry)
      ensures entry <= WORD * w < entry + LINE
    {
      EntryWordsLie(entry, w);
    }
    assert (entry + DENTRY_INO) / WORD == WordAt(entry, 2);
    EndsInFlush(words, [Store((entry + DENTRY_INO) / WORD, ino)], entry, LINE, FatherPart(entry, ino));
    var part := EntryPart(entry, updates);
    var pre := seq(|updates|, i requires 0 <= i < |updates| => Store(WordAt(entry, updates[i].0), updates[i].1));
    EndsInFlush(words, pre, entry, LINE, part);
  }

  // ----- composing parts -----

  function AllStores(parts: seq<Part>): set<nat> {
    set i, w | 0 <= i < |parts| && w in parts[i].stores :: w
  }

  lemma {:induction false} FlattenStores(words: nat, parts: seq<Part>)
    requires forall i :: 0 <= i < |parts| ==> GoodPart(words, parts[i])
    ensures StoresWithin(Flatten(parts), AllStores(parts))
  {
    hide Run;
    if parts != [] {
      var n := |parts| - 1;
      FlattenStores(words, parts[..n]);
      assert GoodPart(words, parts[n]);
      assert AllStores(parts[..n]) <= AllStores(parts);
      assert parts[n].stores <= AllStores(parts);
    }
  }

  lemma {:induction false} FlattenSettles(words: nat, parts: seq<Part>, s: State, k: nat, w: nat)
    requires Pmem.Wf(s) && |s.cache| == words && k < |parts| && w in parts[k].settles
    requires forall i :: 0 <= i < |parts| ==> GoodPart(words, parts[i]) && parts[i].stores <= parts[i].settles
    requires Separate(parts)
    ensures Settled(Run(s, Flatten(parts)), w)
  {
    hide Run, Settled;
    var n := |parts| - 1;
    assert GoodPart(words, parts[n]);
    var pre := Flatten(parts[..n]);
    RunWf(s, pre);
    RunConcat(s, pre, parts[n].ops);
    if k < n {
      FlattenSettles(words, parts[..n], s, k, w);
      assert w !in parts[n].stores;
      SettledStays(Run(s, pre), parts[n].ops, w, parts[n].stores);
    }
  }

  /** A body made of good, separate parts is valid for any fields it covers. */
  lemma BodyValid(l: Layout, words: nat, fields: seq<nat>, parts: seq<Part>)
    requires |fields| < SLOTS
    requires forall i :: 0 <= i < |parts| ==> GoodPart(words, parts[i]) && parts[i].stores <= parts[i].settles
    requires Separate(parts)
    requires forall w :: w in FieldWords(fields) ==> w < words && l.IsData(w) && Settling(parts, w)
    requires AllStores(parts) <= FieldWords(fields)
    ensures ValidTxn(l, words, Txn(fields, Body(parts)))
  {
    hide Run, Settled, GoodPart, Layout.IsData, Separate;
    FlattenStores(words, parts);
    forall s: State, w | Pmem.Wf(s) && |s.cache| == words && w in FieldWords(fields)
      ensures Settled(Run(s, Body(parts)), w)
    {
      var k :| 0 <= k < |parts| && w in parts[k].settles;
      FlattenSettles(words, parts, s, k, w);
      RunWf(s, Flatten(parts));
      RunConcat(s, Flatten(parts), [Fence]);
      SettledStays(Run(s, Flatten(parts)), [Fence], w, {});
    }
  }

  ghost predicate Settling(parts: seq<Part>, w: nat) {
    exists k :: 0 <= k < |parts| && w in parts[k].settles
  }

  // ----- the transactions -----

  /** One inode or log entry a transaction touches: what it journals of it and what it does to it. */
  datatype Member = Member(fields: seq<nat>, part: Part)

  ghost predicate GoodMember(l: Layout, words: nat, m: Member) {
    && GoodPart(words, m.part)
    && m.part.stores <= FieldWords(m.fields) <= m.part.settles
    && (forall w :: w in m.part.settles ==> w < words && l.IsData(w))
  }

  function Parts(ms: seq<Member>): (ps: seq<Part>)
    ensures |ps| == |ms|
  {
    seq(|ms|, i requires 0 <= i < |ms| => ms[i].part)
  }

  lemma FieldWordsConcat(a: seq<nat>, b: seq<nat>)
    ensures FieldWords(a + b) == FieldWords(a) + FieldWords(b)
  {
    forall w | w in FieldWords(a) + FieldWords(b)
      ensures w in FieldWords(a + b)
    {
      if w in FieldWords(a) {
        var k :| 0 <= k < |a| && a[k] / WORD == w;
        assert (a + b)[k] / WORD == w;
      } else {
        var k :| 0 <= k < |b| && b[k] / WORD == w;
        assert (a + b)[|a| + k] / WORD == w;
      }
    }
  }

  ghost predicate CoversFields(ms: seq<Member>, fields: seq<nat>) {
    forall w :: w in FieldWords(fields) <==> exists i :: 0 <= i < |ms| && w in FieldWords(ms[i].fields)
  }

  lemma MembersValid(l: Layout, words: nat, fields: seq<nat>, ms: seq<Member>)
    requires |fields| < SLOTS && (forall i :: 0 <= i < |ms| ==> GoodMember(l, words, ms[i]))
    requires Separate(Parts(ms)) && CoversFields(ms, fields)
    ensures ValidTxn(l, words, Txn(fields, Body(Parts(ms))))
  {
    hide Run, GoodPart, Layout.IsData, Separate, FieldWords;
    var parts := Parts(ms);
    forall i | 0 <= i < |parts|
      ensures GoodPart(words, parts[i]) && parts[i].stores <= parts[i].settles
    {
      assert GoodMember(l, words, ms[i]);
    }
    forall w | w in FieldWords(fields)
      ensures w < words && l.IsData(w) && Settling(parts, w)
    {
      var i :| 0 <= i < |ms| && w in FieldWords(ms[i].fields);
      assert GoodMember(l, words, ms[i]);
      assert w in parts[i].settles;
    }
    forall w | w in AllStores(parts)
      ensures w in FieldWords(fields)
    {
      var i :| 0 <= i < |parts| && w in parts[i].stores;
      assert GoodMember(l, words, ms[i]);
      assert w in FieldWords(ms[i].fields);
    }
    BodyValid(l, words, fields, parts);
  }

  /** How a transaction changes one inode. */
  datatype InodeChange =
    | MoveTail(pi: nat, tail: Word)
    | Unlink(pi: nat, tail: Word, valid: Word, epoch: Word)
    | SetValid(pi: nat, valid: Word)

  function InodeMember(c: InodeChange): Member {
    match c
    case MoveTail(pi, tail) => Member([pi + LOG_TAIL], TailPart(pi, tail))
    case Unlink(pi, tail, valid, epoch) =>
      Member([pi + LOG_TAIL, pi + VALID, pi + DELETE_EPOCH], UnlinkPart(pi, tail, valid, epoch))
    case SetValid(pi, valid) => Member([pi + VALID], ValidPart(pi, valid))
  }

  function FatherMember(entry: nat, ino: Word): Member {
    Member(DentryFields(entry), FatherPart(entry, ino))
  }

  /** An inode slot of the device that holds data, not journal. */
  ghost predicate InodeAt(l: Layout, words: nat, pi: nat) {
    pi % INODE_SIZE == 0 && forall w :: w in InodeWords(pi) ==> w < words && l.IsData(w)
  }

  ghost predicate EntryAt(l: Layout, words: nat, entry: nat) {
    entry % WORD == 0 && forall w :: w in EntryWords(entry) ==> w < words && l.IsData(w)
  }

  lemma InodeMemberGood(l: Layout, words: nat, c: InodeChange)
    requires InodeAt(l, words, c.pi)
    ensures GoodMember(l, words, InodeMember(c))
  {
    hide Layout.IsData, GoodPart, UpdateInode, FlushBuffer, WordAt;
    var (tail, valid, epoch) := (if c.SetValid? then 0 else c.tail, if c.MoveTail? then 0 else c.valid,
                                 if c.Unlink? then c.epoch else 0);
    InodePartsGood(words, c.pi, tail, valid, epoch);
    var m := InodeMember(c);
    InodeOffsets(c.pi);
    assert WordAt(c.pi, 0) in InodeWords(c.pi) && WordAt(c.pi, 9) in InodeWords(c.pi)
           && WordAt(c.pi, 13) in InodeWords(c.pi);
    if c.Unlink? {
      var fs := m.fields;
      assert fs[0] / WORD in FieldWords(fs) && fs[1] / WORD in FieldWords(fs) && fs[2] / WORD in FieldWords(fs);
    } else {
      assert m.fields[0] / WORD in FieldWords(m.fields);
    }
  }

  lemma FatherMemberGood(l: Layout, words: nat, entry: nat, ino: Word)
    requires EntryAt(l, words, entry)
    ensures GoodMember(l, words, FatherMember(entry, ino))
  {
    hide Layout.IsData, GoodPart, FlushBuffer;
    EntryPartsGood(words, entry, ino, []);
    var fs := DentryFields(entry);
    assert fs[0] / WORD == WordAt(entry, 2) && fs[1] / WORD == WordAt(entry, 1);
    assert WordAt(entry, 1) in EntryWords(entry) && WordAt(entry, 2) in EntryWords(entry);
    assert fs[0] / WORD in FieldWords(fs);
  }

  lemma InodesSeparate(a: nat, b: nat)
    requires a % INODE_SIZE == 0 && b % INODE_SIZE == 0 && a != b
    ensures InodeWords(a) !! InodeWords(b)
  {
    forall w | w in InodeWords(a)
      ensures a <= WORD * w < a + INODE_BYTES
    {
      InodeWordsLie(a, w);
    }
    forall w | w in InodeWords(b)
      ensures b <= WORD * w < b + INODE_BYTES
    {
      InodeWordsLie(b, w);
    }
    assert a + INODE_SIZE <= b || b + INODE_SIZE <= a;
  }

  /** nova_lite_transaction_for_new_inode */
  function NewInodeTxn(pi: nat, valid: Word, dir: nat, dirTail: Word): Txn {
    Txn(InodeFields(pi, true, false, false) + InodeFields(dir, true, false, true),
        Body(Parts([InodeMember(MoveTail(dir, dirTail)), InodeMember(SetValid(pi, valid))])))
  }

  lemma NewInodeValid(l: Layout, words: nat, pi: nat, valid: Word, dir: nat, dirTail: Word)
    requires InodeAt(l, words, pi) && InodeAt(l, words, dir) && pi != dir
    ensures var txn := NewInodeTxn(pi, valid, dir, dirTail);
            ValidTxn(l, words, txn) && |txn.fields| == 2
  {
    hide ValidTxn, GoodMember, Layout.IsData, InodeWords, FieldWords, UpdateInode, FlushBuffer;
    var ms := [InodeMember(MoveTail(dir, dirTail)), InodeMember(SetValid(pi, valid))];
    InodeMemberGood(l, words, MoveTail(dir, dirTail));
    InodeMemberGood(l, words, SetValid(pi, valid));
    InodesSeparate(dir, pi);
    FieldWordsConcat([pi + VALID], [dir + LOG_TAIL]);
    var fields := [pi + VALID] + [dir + LOG_TAIL];
    CoversTwo(ms, fields, 1, 0);
    MembersValid(l, words, fields, ms);
  }

  lemma CoversTwo(ms: seq<Member>, fields: seq<nat>, i: nat, j: nat)
    requires |ms| == 2 && i < 2 && j == 1 - i && fields == ms[i].fields + ms[j].fields
    ensures CoversFields(ms, fields)
  {
    hide FieldWords;
    FieldWordsConcat(ms[i].fields, ms[j].fields);
  }

  /** nova_lite_transaction_for_time_and_link */
  function LinkTxn(change: InodeChange, dir: nat, dirTail: Word): Txn
    requires !change.SetValid?
  {
    Txn(InodeFields(change.pi, false, change.Unlink?, false) + InodeFields(dir, false, change.Unlink?, true),
        Body(Parts([InodeMember(change), InodeMember(MoveTail(dir, dirTail))])))
  }

  lemma LinkValid(l: Layout, words: nat, change: InodeChange, dir: nat, dirTail: Word)
    requires !change.SetValid? && InodeAt(l, words, change.pi) && InodeAt(l, words, dir) && change.pi != dir
    ensures var txn := LinkTxn(change, dir, dirTail);
            ValidTxn(l, words, txn) && |txn.fields| <= 4
  {
    hide ValidTxn, GoodMember, Layout.IsData, InodeWords, FieldWords, UpdateInode, FlushBuffer;
    var ms := [InodeMember(change), InodeMember(MoveTail(dir, dirTail))];
    InodeMemberGood(l, words, change);
    InodeMemberGood(l, words, MoveTail(dir, dirTail));
    InodesSeparate(change.pi, dir);
    var fields := LinkTxn(change, dir, dirTail).fields;
    assert InodeFields(change.pi, false, change.Unlink?, false) == ms[0].fields;
    CoversTwo(ms, fields, 0, 1);
    MembersValid(l, words, fields, ms);
  }

  /** nova_create_logentry_transaction with the update of nova_inplace_update_log_entry. */
  function InplaceTxn(entry: nat, size: nat, updates: seq<(nat, Word)>): Txn {
    Txn(LogEntryFields(entry, size), Body([EntryPart(entry, updates)]))
  }

  function EntryMember(entry: nat, size: nat, updates: seq<(nat, Word)>): Member {
    Member(LogEntryFields(entry, size), EntryPart(entry, updates))
  }

  lemma EntryMemberGood(l: Layout, words: nat, entry: nat, size: nat, updates: seq<(nat, Word)>)
    requires EntryAt(l, words, entry) && size <= LINE
    requires forall i :: 0 <= i < |updates| ==> updates[i].0 < size / WORD
    ensures GoodMember(l, words, EntryMember(entry, size, updates))
  {
    hide Layout.IsData, FlushBuffer, GoodPart;
    var (m, fs) := (EntryMember(entry, size, updates), LogEntryFields(entry, size));
    EntryPartsGood(words, entry, 0, updates);
    forall i | 0 <= i < size / WORD
      ensures fs[i] / WORD == WordAt(entry, i) && WordAt(entry, i) in FieldWords(fs)
      ensures WordAt(entry, i) in EntryWords(entry)
    {
      assert fs[i] == WORD * (entry / WORD + i);
      assert fs[i] / WORD in FieldWords(fs);
    }
    assert FieldWords(fs) <= EntryWords(entry);
    assert m.part.stores <= FieldWords(fs);
  }

  lemma InplaceValid(l: Layout, words: nat, entry: nat, size: nat, updates: seq<(nat, Word)>)
    requires EntryAt(l, words, entry) && size <= LINE
    requires forall i :: 0 <= i < |updates| ==> updates[i].0 < size / WORD
    ensures var txn := InplaceTxn(entry, size, updates);
            ValidTxn(l, words, txn) && |txn.fields| <= 8
  {
    hide ValidTxn, Layout.IsData, FlushBuffer, GoodMember;
    var m := EntryMember(entry, size, updates);
    EntryMemberGood(l, words, entry, size, updates);
    assert Parts([m]) == [m.part];
    assert CoversFields([m], m.fields) by {
      assert [m][0] == m;
    }
    MembersValid(l, words, m.fields, [m]);
  }

  /** A rename: the moved inode, its old directory, and, where they exist, the replaced inode, the
      other directory and the moved directory's parent entry. */
  datatype Rename = Rename(moved: InodeChange, oldDir: InodeChange, replaced: Option<InodeChange>,
                           newDir: Option<InodeChange>, father: Option<(nat, Word)>)
  {
    ghost predicate Wf(l: Layout, words: nat) {
      && moved.MoveTail? && oldDir.MoveTail? && (replaced.Some? ==> !replaced.value.SetValid?)
      && (newDir.Some? ==> newDir.value.MoveTail?)
      && (forall i :: 0 <= i < |Inodes()| ==> InodeAt(l, words, Inodes()[i].pi))
      && (forall i, j :: 0 <= i < j < |Inodes()| ==> Inodes()[i].pi != Inodes()[j].pi)
      && (father.Some? ==>
            && EntryAt(l, words, father.value.0)
            && (forall i :: 0 <= i < |Inodes()| ==> InodeWords(Inodes()[i].pi) !! EntryWords(father.value.0)))
    }

    function Inodes(): seq<InodeChange> {
      [moved, oldDir] + (if newDir.Some? then [newDir.value] else [])
      + (if replaced.Some? then [replaced.value] else [])
    }

    /** nova_create_rename_transaction */
    function Fields(): seq<nat> {
      InodeFields(moved.pi, false, false, false) + InodeFields(oldDir.pi, false, false, true)
      + (if replaced.Some? then InodeFields(replaced.value.pi, false, replaced.value.Unlink?, false) else [])
      + (if newDir.Some? then InodeFields(newDir.value.pi, false, false, true) else [])
      + (if father.Some? then DentryFields(father.value.0) else [])
    }

    function FatherMembers(): seq<Member> {
      if father.Some? then [FatherMember(father.value.0, father.value.1)] else []
    }

    /** In the order nova_rename updates them. */
    function Members(): seq<Member> {
      [InodeMember(moved), InodeMember(oldDir)]
      + (if newDir.Some? then [InodeMember(newDir.value)] else [])
      + FatherMembers()
      + (if replaced.Some? then [InodeMember(replaced.value)] else [])
    }
  }

  function RenameTxn(r: Rename): Txn {
    Txn(r.Fields(), Body(Parts(r.Members())))
  }

  ghost function MemberWords(ms: seq<Member>): set<nat> {
    set i, w | 0 <= i < |ms| && w in FieldWords(ms[i].fields) :: w
  }

  lemma MemberWordsConcat(a: seq<Member>, b: seq<Member>)
    ensures MemberWords(a + b) == MemberWords(a) + MemberWords(b)
  {
    hide FieldWords;
    var c := a + b;
    forall w | w in MemberWords(a) + MemberWords(b)
      ensures w in MemberWords(c)
    {
      if w in MemberWords(a) {
        var i :| 0 <= i < |a| && w in FieldWords(a[i].fields);
        assert c[i] == a[i];
      } else {
        var i :| 0 <= i < |b| && w in FieldWords(b[i].fields);
        assert c[|a| + i] == b[i];
      }
    }
    forall w | w in MemberWords(c)
      ensures w in MemberWords(a) + MemberWords(b)
    {
      var i :| 0 <= i < |c| && w in FieldWords(c[i].fields);
      assert c[i] == if i < |a| then a[i] else b[i - |a|];
    }
  }

  lemma MemberWordsOne(m: Member)
    ensures MemberWords([m]) == FieldWords(m.fields)
  {
    hide FieldWords;
    assert [m][0] == m;
  }

  lemma RenameCovers(r: Rename)
    requires r.moved.MoveTail? && r.oldDir.MoveTail? && (r.replaced.Some? ==> !r.replaced.value.SetValid?)
    requires r.newDir.Some? ==> r.newDir.value.MoveTail?
    ensures CoversFields(r.Members(), r.Fields()) && |r.Fields()| <= 8
  {
    hide FieldWords, TailPart, UnlinkPart, FatherPart, MemberWords;
    var (a, b) := (InodeMember(r.moved), InodeMember(r.oldDir));
    var c := if r.newDir.Some? then [InodeMember(r.newDir.value)] else [];
    var d := r.FatherMembers();
    var e := if r.replaced.Some? then [InodeMember(r.replaced.value)] else [];
    MembersCollect(a, b, c, d, e);
    var fc := if r.newDir.Some? then InodeFields(r.newDir.value.pi, false, false, true) else [];
    var fd := if r.father.Some? then DentryFields(r.father.value.0) else [];
    var fe := if r.replaced.Some? then InodeFields(r.replaced.value.pi, false, r.replaced.value.Unlink?, false) else [];
    MaybeWords(c, fc);
    MaybeWords(d, fd);
    MaybeWords(e, fe);
    FieldsCollect(a.fields, b.fields, fe, fc, fd);
    assert r.Fields() == a.fields + b.fields + fe + fc + fd;
    CoversIff(r.Members(), r.Fields());
  }

  lemma MembersCollect(a: Member, b: Member, c: seq<Member>, d: seq<Member>, e: seq<Member>)
    ensures MemberWords([a, b] + c + d + e) ==
              FieldWords(a.fields) + FieldWords(b.fields) + MemberWords(c) + MemberWords(d) + MemberWords(e)
  {
    hide FieldWords, MemberWords;
    MemberWordsConcat([a, b] + c + d, e);
    MemberWordsConcat([a, b] + c, d);
    MemberWordsConcat([a, b], c);
    assert [a, b] == [a] + [b];
    MemberWordsConcat([a], [b]);
    MemberWordsOne(a);
    MemberWordsOne(b);
  }

  lemma FieldsCollect(a: seq<nat>, b: seq<nat>, c: seq<nat>, d: seq<nat>, e: seq<nat>)
    ensures FieldWords(a + b + c + d + e) ==
              FieldWords(a) + FieldWords(b) + FieldWords(c) + FieldWords(d) + FieldWords(e)
  {
    hide FieldWords;
    FieldWordsConcat(a + b + c + d, e);
    FieldWordsConcat(a + b + c, d);
    FieldWordsConcat(a + b, c);
    FieldWordsConcat(a, b);
  }

  lemma MaybeWords(ms: seq<Member>, fields: seq<nat>)
    requires |ms| <= 1 && fields == if ms == [] then [] else ms[0].fields
    ensures MemberWords(ms) == FieldWords(fields)
  {
    if ms != [] {
      assert ms == [ms[0]];
      MemberWordsOne(ms[0]);
    }
  }

  lemma CoversIff(ms: seq<Member>, fields: seq<nat>)
    ensures MemberWords(ms) == FieldWords(fields) ==> CoversFields(ms, fields)
  {
    hide FieldWords;
  }

  lemma RenameMembersGood(l: Layout, words: nat, r: Rename)
    requires r.Wf(l, words)
    ensures forall i :: 0 <= i < |r.Members()| ==> GoodMember(l, words, r.Members()[i])
  {
    hide GoodMember, InodeAt, EntryAt, Layout.IsData, InodeMember, FatherMember;
    var ins := r.Inodes();
    forall i | 0 <= i < |ins|
      ensures GoodMember(l, words, InodeMember(ins[i]))
    {
      InodeMemberGood(l, words, ins[i]);
    }
    assert ins[0] == r.moved && ins[1] == r.oldDir;
    if r.newDir.Some? {
      assert ins[2] == r.newDir.value;
    }
    if r.replaced.Some? {
      assert ins[|ins| - 1] == r.replaced.value;
    }
    if r.father.Some? {
      FatherMemberGood(l, words, r.father.value.0, r.father.value.1);
    }
  }

  /** The inode a member works on, counting the parent entry out. */
  function InodeIndex(r: Rename, i: nat): nat {
    if r.father.Some? && i > FatherIndex(r) then i - 1 else i
  }

  function FatherIndex(r: Rename): nat {
    if r.newDir.Some? then 3 else 2
  }

  lemma RenameOwns(r: Rename, i: nat)
    requires i < |r.Members()|
    ensures if r.father.Some? && i == FatherIndex(r)
            then r.Members()[i].part.settles == EntryWords(r.father.value.0)
            else InodeIndex(r, i) < |r.Inodes()|
                 && r.Members()[i].part.settles == InodeWords(r.Inodes()[InodeIndex(r, i)].pi)
  {
    hide InodeWords, EntryWords, UpdateInode, FlushBuffer;
  }

  lemma RenameSeparate(l: Layout, words: nat, r: Rename)
    requires r.Wf(l, words)
    ensures Separate(Parts(r.Members()))
  {
    hide InodeWords, EntryWords, InodeAt, EntryAt, InodeMember, FatherMember, Rename.Members, Rename.Inodes;
    var ps := Parts(r.Members());
    forall i, j | 0 <= i < j < |ps|
      ensures ps[i].settles !! ps[j].settles
    {
      RenameOwns(r, i);
      RenameOwns(r, j);
      var (a, b) := (InodeIndex(r, i), InodeIndex(r, j));
      if !(r.father.Some? && (i == FatherIndex(r) || j == FatherIndex(r))) {
        RenameInodesSeparate(l, words, r, a, b);
      }
    }
  }

  lemma RenameInodesSeparate(l: Layout, words: nat, r: Rename, a: nat, b: nat)
    requires r.Wf(l, words) && a < b < |r.Inodes()|
    ensures InodeWords(r.Inodes()[a].pi) !! InodeWords(r.Inodes()[b].pi)
  {
    hide InodeWords, EntryWords, EntryAt, Rename.Inodes;
    assert InodeAt(l, words, r.Inodes()[a].pi) && InodeAt(l, words, r.Inodes()[b].pi);
    InodesSeparate(r.Inodes()[a].pi, r.Inodes()[b].pi);
  }

  lemma RenameValid(l: Layout, words: nat, r: Rename)
    requires r.Wf(l, words)
    ensures ValidTxn(l, words, RenameTxn(r)) && |RenameTxn(r).fields| <= 8
  {
    hide ValidTxn, GoodMember, InodeAt, EntryAt, Separate, CoversFields, Rename.Members, Rename.Fields, Rename.Inodes;
    RenameCovers(r);
    RenameMembersGood(l, words, r);
    RenameSeparate(l, words, r);
    MembersValid(l, words, r.Fields(), r.Members());
  }
}
