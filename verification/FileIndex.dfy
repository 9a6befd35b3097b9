/** The live index of a regular file (log.c, inode.c, dax.c, file.c): the page map, the counters of
    superseded pages, the freed blocks, and what copy-on-write writes, truncations and attribute changes
    do to them. Without snapshots every superseded block may be freed. */
module FileIndex {
  import opened Options
  import opened FileLog

  datatype File = File(log: seq<Entry>, tree: map<nat, nat>, size: nat, trans: nat, lastAttr: Option<nat>,
                       freed: multiset<nat>)

  /** Blocks the allocator handed out in one go. */
  datatype Grant = Grant(num: nat, block: nat)

  // ----- counting over pages lo..hi -----

  /** Pages in lo..hi mapped to entry i. */
  function Count(tree: map<nat, nat>, i: nat, lo: nat, hi: nat): nat
    decreases hi
  {
    if hi <= lo then 0 else Count(tree, i, lo, hi - 1) + if At(tree, hi - 1) == Some(i) then 1 else 0
  }

  /** The block a page refers to. */
  function Ref(log: seq<Entry>, tree: map<nat, nat>, p: nat): multiset<nat> {
    if p in tree && tree[p] < |log| then multiset{BlockOf(log[tree[p]], p)} else multiset{}
  }

  /** The blocks pages lo..hi refer to. */
  function Refs(log: seq<Entry>, tree: map<nat, nat>, lo: nat, hi: nat): multiset<nat>
    decreases hi
  {
    if hi <= lo then multiset{} else Refs(log, tree, lo, hi - 1) + Ref(log, tree, hi - 1)
  }

  /** n consecutive blocks. */
  function Run(block: nat, n: nat): multiset<nat> {
    if n == 0 then multiset{} else Run(block, n - 1) + multiset{block + n - 1}
  }

  /** All blocks the write entries of a log ever named. */
  function Granted(log: seq<Entry>): multiset<nat> {
    if log == [] then multiset{}
    else
      var e := log[|log| - 1];
      Granted(log[..|log| - 1]) + if e.Write? then Run(e.block, e.num) else multiset{}
  }

  /** nova_invalidate_write_entry for every entry that loses pages in lo..hi. */
  function Mark(log: seq<Entry>, tree: map<nat, nat>, lo: nat, hi: nat): (out: seq<Entry>)
    ensures |out| == |log|
  {
    seq(|log|, i requires 0 <= i < |log| =>
      if log[i].Write? then log[i].(invalid := log[i].invalid + Count(tree, i, lo, hi)) else log[i])
  }

  // ----- operations -----

  /** nova_assign_write_entry: entry i takes over its pages; what they held is invalidated and freed. */
  function Assign(f: File, i: nat): File
    requires i < |f.log| && f.log[i].Write?
  {
    var (lo, hi) := (f.log[i].pgoff, f.log[i].pgoff + f.log[i].num);
    f.(log := Mark(f.log, f.tree, lo, hi), tree := Overlay(f.tree, lo, f.log[i].num, i),
       freed := f.freed + Refs(f.log, f.tree, lo, hi))
  }

  /** nova_reassign_file_tree: assign the entries from `from` to the tail. */
  function AssignAll(f: File, from: nat): (g: File)
    requires from <= |f.log| && forall i :: from <= i < |f.log| ==> f.log[i].Write?
    decreases |f.log| - from
  {
    if from == |f.log| then f else AssignAll(Assign(f, from), from + 1)
  }

  /** nova_delete_file_tree from page `first`; no page from `top` on is mapped. */
  function Trim(f: File, first: nat, top: nat): File {
    f.(log := Mark(f.log, f.tree, first, top), tree := Below(f.tree, first),
       freed := f.freed + Refs(f.log, f.tree, first, top))
  }

  function Sum(grants: seq<Grant>): nat {
    if grants == [] then 0 else Sum(grants[..|grants| - 1]) + grants[|grants| - 1].num
  }

  function Max(a: nat, b: nat): nat {
    if a >= b then a else b
  }

  function Min(a: nat, b: nat): nat {
    if a <= b then a else b
  }

  /** The entries of a write from page `page` up to byte `end`, one per grant. */
  function Chunks(page: nat, end: nat, size: nat, trans: nat, grants: seq<Grant>): (out: seq<Entry>)
    ensures |out| == |grants|
    ensures forall i :: 0 <= i < |out| ==> out[i].Write? && out[i].trans == trans && out[i].num == grants[i].num
  {
    if grants == [] then []
    else
      var n := |grants| - 1;
      var at := page + Sum(grants[..n]);
      Chunks(page, end, size, trans, grants[..n]) +
      [Write(at, grants[n].num, grants[n].block, 0, Max(size, Min((at + grants[n].num) * PAGE, end)), trans)]
  }

  /** Blocks a write of len bytes at pos touches. */
  function Touched(pos: nat, len: nat): nat
    requires len > 0
  {
    (len + pos % PAGE - 1) / PAGE + 1
  }

  predicate Grantable(pos: nat, len: nat, grants: seq<Grant>) {
    len > 0 && (forall i :: 0 <= i < |grants| ==> grants[i].num > 0) && Sum(grants) == Touched(pos, len)
  }

  /** do_nova_cow_file_write with every byte copied. */
  function CowWrite(f: File, pos: nat, len: nat, grants: seq<Grant>): File
    requires Grantable(pos, len, grants)
  {
    var g := f.(log := f.log + Chunks(pos / PAGE, pos + len, f.size, f.trans, grants));
    AssignAll(g, |f.log|).(size := Max(f.size, pos + len), trans := f.trans + 1)
  }

  /** nova_invalidate_setattr_entry: entries that set the size are never invalidated. */
  function Kill(log: seq<Entry>, last: Option<nat>): (out: seq<Entry>)
    ensures |out| == |log|
  {
    if last.Some? && last.value < |log| && log[last.value].Attr? && !log[last.value].sized
    then log[last.value := log[last.value].(dead := true)] else log
  }

  /** nova_truncate_file_blocks does nothing on an empty file, or when no block ends up past the new end. */
  predicate DropsBlocks(size: nat, newSize: nat) {
    newSize != size && size > 0 && Pages(newSize) <= (size - 1) / PAGE
  }

  /** nova_notify_change with a new size. */
  function Truncate(f: File, newSize: nat): File {
    var n := |f.log|;
    var g := f.(log := Kill(f.log, f.lastAttr) + [Attr(true, false, newSize, f.trans)], lastAttr := Some(n),
                            size := newSize, trans := f.trans + 1);
    if DropsBlocks(f.size, newSize) then Trim(g, Pages(newSize), Pages(f.size)) else g
  }

  /** nova_can_inplace_update_setattr */
  predicate InPlace(f: File) {
    f.lastAttr.Some? && f.lastAttr.value < |f.log| && f.log[f.lastAttr.value].Attr? && !f.log[f.lastAttr.value].sized
  }

  /** nova_notify_change without a new size: rewrite the last attribute entry, or append one. */
  function SetAttr(f: File): File {
    var e := Attr(false, false, f.size, f.trans);
    if InPlace(f) then f.(log := f.log[f.lastAttr.value := e], trans := f.trans + 1)
    else f.(log := Kill(f.log, f.lastAttr) + [e], lastAttr := Some(|f.log|), trans := f.trans + 1)
  }

  function NewFile(): File {
    File([], map[], 0, 0, None, multiset{})
  }

  // ----- the invariant -----

  predicate Under(tree: map<nat, nat>, top: nat) {
    forall p :: p in tree ==> p < top
  }

  /** Entry i's counter and its mapped pages are no more than its pages: a crash may have lost counter updates. */
  predicate Counted(log: seq<Entry>, tree: map<nat, nat>, i: nat, top: nat)
    requires i < |log|
  {
    log[i].Write? ==> log[i].num > 0 && log[i].invalid + Count(tree, i, 0, top) <= log[i].num
  }

  /** No counter update was lost for the first n entries: counters and mapped pages add up. */
  predicate Exact(log: seq<Entry>, tree: map<nat, nat>, n: nat, top: nat)
    requires n <= |log|
  {
    forall i :: 0 <= i < n && log[i].Write? ==> log[i].invalid + Count(tree, i, 0, top) == log[i].num
  }

  /** No hole lies below a page its entry still maps. */
  ghost predicate NoHole(log: seq<Entry>, tree: map<nat, nat>) {
    forall q :: q in tree ==> tree[q] < |log| && FilledBelow(log[tree[q]], tree, q)
  }

  ghost predicate FilledBelow(e: Entry, tree: map<nat, nat>, q: nat) {
    e.Write? && forall p :: e.pgoff <= p <= q ==> p in tree
  }

  /** Every block was freed once or is referred to by one page. */
  predicate Conserved(f: File, k: nat, top: nat)
    requires k <= |f.log|
  {
    f.freed + Refs(f.log, f.tree, 0, top) == Granted(f.log[..k])
  }

  /** The index after the first k entries were applied; the rest are write entries still to be assigned. */
  ghost predicate Partial(f: File, k: nat, top: nat) {
    && k <= |f.log|
    && Matches(f.tree, f.log[..k])
    && Under(f.tree, top)
    && (forall i :: 0 <= i < k ==> Counted(f.log, f.tree, i, top))
    && (forall i :: k <= i < |f.log| ==>
          f.log[i].Write? && f.log[i].num > 0 && f.log[i].invalid == 0 && f.log[i].pgoff + f.log[i].num <= top)
    && NoHole(f.log, f.tree)
    && Conserved(f, k, top)
  }

  predicate SizedCut(e: Entry, p: nat) {
    e.Attr? && e.sized && Cuts(e, p)
  }

  /** An entry after k that set the size cuts page p. */
  predicate CutAfter(log: seq<Entry>, k: nat, p: nat) {
    exists j :: k < j < |log| && SizedCut(log[j], p)
  }

  /** What an attribute entry that did not set the size cuts, one that did cuts as well; and only the former die. */
  ghost predicate Harmless(log: seq<Entry>, i: nat)
    requires i < |log|
  {
    log[i].Attr? ==>
      && (log[i].dead ==> !log[i].sized)
      && (!log[i].sized ==>
            forall k: nat, p: nat :: k < i && Covers(log[k], p) && Pages(log[i].size) <= p ==> CutAfter(log, k, p))
  }

  predicate HasLater(log: seq<Entry>, i: nat) {
    exists j :: i < j < |log| && log[j].Attr?
  }

  /** `lastAttr` names an attribute entry that is not dead, if there is any; it need not be the last one in the log.
      That one never is. */
  predicate LastAttr(f: File) {
    && (match f.lastAttr
        case None => forall j :: 0 <= j < |f.log| ==> f.log[j].Write?
        case Some(i) => i < |f.log| && f.log[i].Attr? && !f.log[i].dead)
    && forall i :: 0 <= i < |f.log| && f.log[i].Attr? && f.log[i].dead ==> HasLater(f.log, i)
  }

  /** The newest transaction's entries are valid. */
  predicate NewestValid(f: File) {
    forall i :: 0 <= i < |f.log| ==> f.log[i].trans < f.trans && (f.log[i].trans == f.trans - 1 ==> Valid(f.log[i]))
  }

  predicate Valid(e: Entry) {
    if e.Write? then e.invalid != e.num else !e.dead
  }

  // ----- the sizes entries carry -----

  /** The file size after the entries of a log: an attribute change that did not set it leaves it. */
  function Base(log: seq<Entry>): nat {
    if log == [] then 0
    else
      var e := log[|log| - 1];
      if e.Attr? && !e.sized then Base(log[..|log| - 1]) else e.size
  }

  /** Writes never shrink the file and reach no further than their size. */
  predicate Grows(log: seq<Entry>, i: nat)
    requires i < |log|
  {
    var e := log[i];
    e.Write? ==> Base(log[..i]) <= e.size && e.pgoff + e.num <= Pages(e.size)
  }

  predicate AllGrow(log: seq<Entry>) {
    forall i :: 0 <= i < |log| ==> Grows(log, i)
  }

  predicate SizeKnown(f: File) {
    if f.log == [] then f.size == 0 else RebuiltSize(f.log) == (f.size, f.trans - 1)
  }

  ghost predicate Inv(f: File) {
    && Partial(f, |f.log|, Pages(f.size))
    && (forall i :: 0 <= i < |f.log| ==> Harmless(f.log, i))
    && LastAttr(f) && NewestValid(f) && SizeKnown(f)
    && AllGrow(f.log) && Base(f.log) == f.size
  }

  // ----- mounting after a crash or a clean unmount -----

  /** b is what a crash may have left of a: counter updates and invalidations that followed the commit may be lost. */
  predicate Lags(a: Entry, b: Entry) {
    if a.Write? then b.Write? && a.(invalid := b.invalid) == b && b.invalid <= a.invalid
    else b.Attr? && a.(dead := b.dead) == b && (b.dead ==> a.dead)
  }

  predicate AllLag(a: seq<Entry>, b: seq<Entry>) {
    |a| == |b| && forall i :: 0 <= i < |a| ==> Lags(a[i], b[i])
  }

  function LastAttrOf(log: seq<Entry>): Option<nat> {
    if log == [] then None else if log[|log| - 1].Attr? then Some(|log| - 1) else LastAttrOf(log[..|log| - 1])
  }

  /** The file that replaying a log gives. Blocks its entries named that no page refers to are free again: nothing else
      holds on to them. */
  function Mounted(log: seq<Entry>): File {
    var (tree, (size, trans)) := (Rebuilt(log), RebuiltSize(log));
    File(log, tree, size, if log == [] then 0 else trans + 1, LastAttrOf(log),
         Granted(log) - Refs(log, tree, 0, Pages(size)))
  }
}
