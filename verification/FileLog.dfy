/** The log of a regular file and its replay (rebuild.c): write entries map runs of pages, attribute
    entries cut the file at their size. */
module FileLog {
  import opened Options

  const PAGE := 4096

  /** `invalid`: how many of a write entry's pages were superseded. `sized`: the attribute change set the
      file size. `dead`: the attribute entry was superseded. */
  datatype Entry =
    | Write(pgoff: nat, num: nat, block: nat, invalid: nat, size: nat, trans: nat)
    | Attr(sized: bool, dead: bool, size: nat, trans: nat)

  /** The pages a size reaches into. */
  function Pages(size: nat): nat {
    (size + PAGE - 1) / PAGE
  }

  lemma PagesMono(a: nat, b: nat)
    requires a <= b
    ensures Pages(a) <= Pages(b)
  {}

  predicate Covers(e: Entry, p: nat) {
    e.Write? && e.pgoff <= p < e.pgoff + e.num
  }

  predicate Cuts(e: Entry, p: nat) {
    e.Attr? && Pages(e.size) <= p
  }

  /** The replay leaves out write entries without valid pages. */
  predicate Skipped(e: Entry) {
    e.Write? && e.invalid == e.num
  }

  /** The block that holds page p of the file. */
  function BlockOf(e: Entry, p: nat): nat {
    if Covers(e, p) then e.block + (p - e.pgoff) else 0
  }

  /** The entry that wrote page p last, unless the file was cut below it since. */
  function Owner(log: seq<Entry>, p: nat): (o: Option<nat>)
    ensures o.Some? ==> o.value < |log| && Covers(log[o.value], p)
  {
    if log == [] then None
    else
      var n := |log| - 1;
      if Covers(log[n], p) then Some(n) else if Cuts(log[n], p) then None else Owner(log[..n], p)
  }

  // ----- the replay -----

  function Overlay(tree: map<nat, nat>, pgoff: nat, num: nat, i: nat): map<nat, nat> {
    map p | p in tree.Keys + PageSet(pgoff, pgoff + num) :: if pgoff <= p < pgoff + num then i else tree[p]
  }

  function PageSet(lo: nat, hi: nat): (s: set<nat>)
    ensures forall p :: p in s <==> lo <= p < hi
  {
    set p: nat | lo <= p < hi && Between(lo, p, hi)
  }

  predicate Between(lo: nat, p: nat, hi: nat) {
    lo <= p < hi
  }

  function Below(tree: map<nat, nat>, first: nat): map<nat, nat> {
    map p | p in tree && p < first :: tree[p]
  }

  /** The page map that replaying a log builds. */
  function Rebuilt(log: seq<Entry>): map<nat, nat> {
    if log == [] then map[]
    else
      var n := |log| - 1;
      var tree := Rebuilt(log[..n]);
      match log[n]
      case Write(pgoff, num, _, _, _, _) => if Skipped(log[n]) then tree else Overlay(tree, pgoff, num, n)
      case Attr(_, _, size, _) => Below(tree, Pages(size))
  }

  /** The file size and transaction number that replaying a log arrives at. */
  function RebuiltSize(log: seq<Entry>): (nat, nat) {
    if log == [] then (0, 0) else Newer(RebuiltSize(log[..|log| - 1]), log[|log| - 1])
  }

  function Newer(known: (nat, nat), e: Entry): (nat, nat) {
    if e.trans >= known.1 then (e.size, e.trans) else known
  }

  /** What the map holds for one page. */
  function At(tree: map<nat, nat>, p: nat): Option<nat> {
    if p in tree then Some(tree[p]) else None
  }

  ghost predicate Matches(tree: map<nat, nat>, log: seq<Entry>) {
    forall p: nat :: At(tree, p) == Owner(log, p)
  }

  /** A page without an owner is not mapped by the replay either. */
  lemma {:induction false} RebuiltNone(log: seq<Entry>, p: nat)
    requires Owner(log, p) == None
    ensures p !in Rebuilt(log)
  {
    if log != [] {
      var n := |log| - 1;
      if !Cuts(log[n], p) {
        RebuiltNone(log[..n], p);
      }
    }
  }

  /** A page whose owner the replay does not leave out is mapped to its owner. */
  lemma {:induction false} RebuiltLive(log: seq<Entry>, p: nat)
    requires Owner(log, p).Some? && !Skipped(log[Owner(log, p).value])
    ensures At(Rebuilt(log), p) == Owner(log, p)
  {
    var n := |log| - 1;
    if !Covers(log[n], p) {
      RebuiltLive(log[..n], p);
    }
  }

  /** Leaving out entries that own no page changes nothing, whatever else the counters say: replaying a
      log at any point between a commit and the last counter update gives the same map. */
  lemma RebuiltMatches(log: seq<Entry>)
    requires forall p: nat :: Owner(log, p).Some? ==> !Skipped(log[Owner(log, p).value])
    ensures Matches(Rebuilt(log), log)
  {
    forall p: nat
      ensures At(Rebuilt(log), p) == Owner(log, p)
    {
      if Owner(log, p).None? {
        RebuiltNone(log, p);
      } else {
        RebuiltLive(log, p);
      }
    }
  }

  lemma MatchesUnique(a: map<nat, nat>, b: map<nat, nat>, log: seq<Entry>)
    requires Matches(a, log) && Matches(b, log)
    ensures a == b
  {
    forall p: nat
      ensures At(a, p) == At(b, p)
    {
      assert At(a, p) == Owner(log, p);
    }
    assert forall p: nat :: p in a ==> At(a, p) == At(b, p);
    assert forall p: nat :: p in b ==> At(a, p) == At(b, p);
  }

  // ----- the counters do not matter for ownership -----

  /** Equal up to the counter of superseded pages. */
  predicate Alike(a: Entry, b: Entry) {
    a == b || (a.Write? && b.Write? && a.(invalid := b.invalid) == b)
  }

  predicate AllAlike(a: seq<Entry>, b: seq<Entry>) {
    |a| == |b| && forall i :: 0 <= i < |a| ==> Alike(a[i], b[i])
  }

  lemma {:induction false} OwnerAlike(a: seq<Entry>, b: seq<Entry>, p: nat)
    requires AllAlike(a, b)
    ensures Owner(a, p) == Owner(b, p)
  {
    if a != [] {
      var n := |a| - 1;
      assert Alike(a[n], b[n]);
      OwnerAlike(a[..n], b[..n], p);
    }
  }

  lemma {:induction false} SizeAlike(a: seq<Entry>, b: seq<Entry>)
    requires AllAlike(a, b)
    ensures RebuiltSize(a) == RebuiltSize(b)
  {
    if a != [] {
      var n := |a| - 1;
      assert Alike(a[n], b[n]);
      SizeAlike(a[..n], b[..n]);
    }
  }

  // ----- sizes -----

  /** The newest transaction decides the size, wherever its last entry stands in the log. */
  lemma {:induction false} NewestDecides(log: seq<Entry>, i: nat)
    requires i < |log| && (forall j :: 0 <= j < i ==> log[j].trans <= log[i].trans)
    requires forall j :: i < j < |log| ==> log[j].trans < log[i].trans
    ensures RebuiltSize(log) == (log[i].size, log[i].trans)
  {
    var n := |log| - 1;
    if i < n {
      NewestDecides(log[..n], i);
    } else {
      SizeBound(log[..n], log[i].trans);
    }
  }

  lemma {:induction false} SizeBound(log: seq<Entry>, t: nat)
    requires forall j :: 0 <= j < |log| ==> log[j].trans <= t
    ensures RebuiltSize(log).1 <= t
  {
    if log != [] {
      SizeBound(log[..|log| - 1], t);
    }
  }
}
