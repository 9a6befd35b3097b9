/** Persistent memory behind a CPU cache.

    The device is a sequence of 8-byte words. A store is visible at once and durable later: until a
    cache line has been written back, a crash may find any of the values a word has held since it
    was last durable. The write-back is either `clflush`, which takes effect in program order, or
    `clwb`, which takes effect only at the next fence (nova_def.h, `support_clwb`).
 */
module Pmem {

  type Word = nat

  const LINE := 64   // bytes per cache line
  const WORD := 8    // bytes per word

  datatype Op = Store(word: nat, value: Word) | Flush(byte: nat) | Fence

  /** `may[w]`: the values a crash can leave in word w.
      `wb[w]`: if nonempty, w's line is queued for write-back, and `wb[w]` is what `may[w]` becomes
      at the next fence. */
  datatype State = State(clwb: bool, cache: seq<Word>, may: seq<set<Word>>, wb: seq<set<Word>>)

  ghost predicate Wf(s: State) {
    && |s.cache| == |s.may| == |s.wb|
    && (forall w :: 0 <= w < |s.cache| ==>
          s.cache[w] in s.may[w] && s.wb[w] <= s.may[w] && (s.wb[w] != {} ==> s.cache[w] in s.wb[w]))
  }

  function InitialState(clwb: bool, image: seq<Word>): (s: State) {
    State(clwb, image, seq(|image|, w requires 0 <= w < |image| => {image[w]}), seq(|image|, w => {}))
  }

  function Step(s: State, op: Op): (s': State)
    requires |s.cache| == |s.may| == |s.wb|
    ensures |s'.cache| == |s'.may| == |s'.wb| == |s.cache| && s'.clwb == s.clwb
  {
    match op
    case Store(w, v) =>
      if w >= |s.cache| then s
      else s.(cache := s.cache[w := v], may := s.may[w := s.may[w] + {v}],
              wb := if s.wb[w] == {} then s.wb else s.wb[w := s.wb[w] + {v}])
    case Flush(b) =>
      var now := seq(|s.cache|, w requires 0 <= w < |s.cache| => {s.cache[w]});
      if s.clwb then
        s.(wb := seq(|s.wb|, w requires 0 <= w < |s.wb| => if InLine(w, b) then now[w] else s.wb[w]))
      else
        s.(may := seq(|s.may|, w requires 0 <= w < |s.may| => if InLine(w, b) then now[w] else s.may[w]),
           wb := seq(|s.wb|, w requires 0 <= w < |s.wb| => if InLine(w, b) then {} else s.wb[w]))
    case Fence =>
      s.(may := seq(|s.may|, w requires 0 <= w < |s.may| => if s.wb[w] == {} then s.may[w] else s.wb[w]),
         wb := seq(|s.wb|, w => {}))
  }

  /** Does word w lie in the cache line of byte b? */
  predicate InLine(w: nat, b: nat) {
    w * WORD / LINE == b / LINE
  }

  function Run(s: State, ops: seq<Op>): (s': State)
    requires |s.cache| == |s.may| == |s.wb|
    ensures |s'.cache| == |s'.may| == |s'.wb| == |s.cache| && s'.clwb == s.clwb
  {
    if ops == [] then s else Step(Run(s, ops[..|ops| - 1]), ops[|ops| - 1])
  }

  lemma {:induction false} RunConcat(s: State, a: seq<Op>, b: seq<Op>)
    requires |s.cache| == |s.may| == |s.wb|
    ensures Run(s, a + b) == Run(Run(s, a), b)
  {
    if b == [] {
      assert a + b == a;
    } else {
      RunConcat(s, a, b[..|b| - 1]);
      assert (a + b)[..|a + b| - 1] == a + b[..|b| - 1];
    }
  }

  /** What a crash in state s can leave behind. */
  ghost predicate CrashImage(s: State, image: seq<Word>) {
    |image| == |s.may| && forall w :: 0 <= w < |image| ==> image[w] in s.may[w]
  }

  /** A crash is certain to leave the current value of w. */
  ghost predicate Settled(s: State, w: nat) {
    w < |s.cache| == |s.may| && s.may[w] == {s.cache[w]}
  }

  /** The next fence settles w. */
  ghost predicate Armed(s: State, w: nat) {
    && w < |s.cache| == |s.may| == |s.wb|
    && (s.wb[w] == {s.cache[w]} || (s.wb[w] == {} && Settled(s, w)))
  }

  ghost predicate StoresWithin(ops: seq<Op>, region: set<nat>) {
    forall i :: 0 <= i < |ops| && ops[i].Store? ==> ops[i].word in region
  }

  lemma StepWf(s: State, op: Op)
    requires Wf(s)
    ensures Wf(Step(s, op))
  {}

  /** Frame: words outside the stored region keep their value, and write-backs and fences only
      narrow what a crash can leave in them. */
  lemma {:induction false} RunFrame(s: State, ops: seq<Op>, region: set<nat>)
    requires Wf(s) && StoresWithin(ops, region)
    ensures Wf(Run(s, ops))
    ensures forall w :: 0 <= w < |s.cache| && w !in region ==>
              Run(s, ops).cache[w] == s.cache[w] && Run(s, ops).may[w] <= s.may[w]
  {
    if ops != [] {
      RunFrame(s, ops[..|ops| - 1], region);
      StepWf(Run(s, ops[..|ops| - 1]), ops[|ops| - 1]);
    }
  }

  /** A settled word stays settled while nothing stores to it. */
  lemma {:induction false} SettledStays(s: State, ops: seq<Op>, w: nat, region: set<nat>)
    requires Wf(s) && StoresWithin(ops, region) && w !in region && Settled(s, w)
    ensures Settled(Run(s, ops), w) && Run(s, ops).cache[w] == s.cache[w]
  {
    RunFrame(s, ops, region);
    assert Run(s, ops).cache[w] in Run(s, ops).may[w];
  }

  lemma {:induction false} ArmedStays(s: State, ops: seq<Op>, w: nat)
    requires Wf(s) && Armed(s, w)
    requires forall i :: 0 <= i < |ops| && ops[i].Store? ==> ops[i].word != w
    ensures Wf(Run(s, ops)) && Armed(Run(s, ops), w)
  {
    if ops != [] {
      ArmedStays(s, ops[..|ops| - 1], w);
      StepWf(Run(s, ops[..|ops| - 1]), ops[|ops| - 1]);
    }
  }

  lemma FlushArms(s: State, b: nat, w: nat)
    requires Wf(s) && w < |s.cache| && InLine(w, b)
    ensures Armed(Step(s, Flush(b)), w)
  {}

  lemma FenceSettles(s: State, w: nat)
    requires Wf(s) && Armed(s, w)
    ensures Settled(Step(s, Fence), w)
  {}

  lemma {:induction false} RunSplit(s: State, ops: seq<Op>, i: nat)
    requires |s.cache| == |s.may| == |s.wb| && i <= |ops|
    ensures Run(s, ops) == Run(Run(s, ops[..i]), ops[i..])
  {
    RunConcat(s, ops[..i], ops[i..]);
    assert ops[..i] + ops[i..] == ops;
  }

  lemma RunOne(s: State, op: Op)
    requires |s.cache| == |s.may| == |s.wb|
    ensures Run(s, [op]) == Step(s, op)
  {
    assert [op][..0] == [];
    assert Run(s, []) == s;
  }

  lemma {:induction false} RunExtend(s: State, ops: seq<Op>, i: nat)
    requires |s.cache| == |s.may| == |s.wb| && i < |ops|
    ensures Run(s, ops[..i + 1]) == Step(Run(s, ops[..i]), ops[i])
  {
    assert ops[..i + 1][..i] == ops[..i];
  }

  lemma {:induction false} RunWf(s: State, ops: seq<Op>)
    requires Wf(s)
    ensures Wf(Run(s, ops))
  {
    RunFrame(s, ops, set k | 0 <= k < |ops| && ops[k].Store? :: ops[k].word);
  }

  lemma {:induction false} ArmedAfter(s: State, ops: seq<Op>, w: nat, i: nat)
    requires Wf(s) && w < |s.cache| && i < |ops| && ops[i].Flush? && InLine(w, ops[i].byte)
    requires forall k :: i <= k < |ops| && ops[k].Store? ==> ops[k].word != w
    ensures Wf(Run(s, ops)) && Armed(Run(s, ops), w)
  {
    RunWf(s, ops[..i]);
    RunExtend(s, ops, i);
    FlushArms(Run(s, ops[..i]), ops[i].byte, w);
    StepWf(Run(s, ops[..i]), ops[i]);
    ArmedStays(Run(s, ops[..i + 1]), ops[i + 1..], w);
    RunSplit(s, ops, i + 1);
  }

  /** The persistence rule every caller relies on: a word whose line is written back after its last
      store and before some fence is durable from then on. */
  lemma {:induction false} WriteBackThenFence(s: State, ops: seq<Op>, w: nat, i: nat, j: nat)
    requires Wf(s) && w < |s.cache|
    requires i < j < |ops| && ops[i].Flush? && InLine(w, ops[i].byte) && ops[j].Fence?
    requires forall k :: i <= k < |ops| && ops[k].Store? ==> ops[k].word != w
    ensures Settled(Run(s, ops), w)
  {
    ArmedAfter(s, ops[..j], w, i);
    FenceSettles(Run(s, ops[..j]), w);
    StepWf(Run(s, ops[..j]), Fence);
    RunExtend(s, ops, j);
    var rest := ops[j + 1..];
    SettledStays(Run(s, ops[..j + 1]), rest, w, set k | 0 <= k < |rest| && rest[k].Store? :: rest[k].word);
    RunSplit(s, ops, j + 1);
  }

  // ----- nova_flush_buffer -----

  function LinesTouched(buf: nat, len: nat): nat {
    (len + buf % LINE + LINE - 1) / LINE
  }

  function FlushLines(buf: nat, len: nat): (ops: seq<Op>) {
    seq(LinesTouched(buf, len), k requires 0 <= k => Flush(buf + LINE * k))
  }

  function FlushBuffer(buf: nat, len: nat, fence: bool): (ops: seq<Op>) {
    FlushLines(buf, len) + if fence then [Fence] else []
  }

  /** The write-back loop reaches the line of every word that overlaps [buf, buf+len), however the
      buffer is aligned, and touches no other line when len is positive. */
  lemma FlushLinesCover(buf: nat, len: nat, w: nat)
    requires len > 0
    ensures (exists b :: buf <= b < buf + len && InLine(w, b)) <==>
            (exists k :: 0 <= k < |FlushLines(buf, len)| && InLine(w, FlushLines(buf, len)[k].byte))
  {
    var n := LinesTouched(buf, len);
    if b :| buf <= b < buf + len && InLine(w, b) {
      var k := b / LINE - buf / LINE;
      assert 0 <= k < n;
      assert (buf + LINE * k) / LINE == b / LINE;
      assert InLine(w, FlushLines(buf, len)[k].byte);
    }
    if k :| 0 <= k < n && InLine(w, FlushLines(buf, len)[k].byte) {
      var b := if k == 0 then buf else buf + LINE * k - buf % LINE;
      assert b / LINE == (buf + LINE * k) / LINE;
      assert buf <= b < buf + len && InLine(w, b);
    }
  }

  /** The device as the file system drives it: every primitive is recorded. */
  class Device {
    var st: State
    ghost const initial: State
    ghost var ops: seq<Op>

    ghost predicate Valid()
      reads this
    {
      Wf(initial) && Wf(st) && st == Run(initial, ops)
    }

    constructor (clwb: bool, image: seq<Word>)
      ensures Valid() && st == InitialState(clwb, image) && ops == []
    {
      st := InitialState(clwb, image);
      initial := InitialState(clwb, image);
      ops := [];
    }

    method Issue(op: Op)
      requires Valid()
      modifies this
      ensures Valid() && ops == old(ops) + [op] && st == Step(old(st), op)
    {
      StepWf(st, op);
      st := Step(st, op);
      ops := ops + [op];
    }

    method DoFlushBuffer(buf: nat, len: nat, fence: bool)
      requires Valid()
      modifies this
      ensures Valid() && ops == old(ops) + FlushBuffer(buf, len, fence)
    {
      ghost var before := ops;
      var total := len + buf % LINE;
      var i := 0;
      ghost var k := 0;
      while i < total
        invariant Valid() && i == LINE * k
        invariant k <= LinesTouched(buf, len) && (i < total <==> k < LinesTouched(buf, len))
        invariant ops == before + FlushLines(buf, len)[..k]
        decreases total - i
      {
        assert FlushLines(buf, len)[..k + 1] == FlushLines(buf, len)[..k] + [Flush(buf + i)];
        Issue(Flush(buf + i));
        i := i + LINE;
        k := k + 1;
      }
      assert FlushLines(buf, len)[..k] == FlushLines(buf, len);
      if fence {
        Issue(Fence);
      }
    }
  }
}
