/** The kernel-module pass (fencePass/fencePass.cpp): stores are traced everywhere, but a fence or a
    flush only at the entry of the first function whose name matches, because two global flags
    switch the matching off after its first success. */
module EntryPass {
  import opened Ir
  import opened Probes
  import opened ProbeTheorems
  import opened FencePass

  const BARRIER := "PERSISTENT_BARRIER"
  const FLUSH_BUFFER := "nova_flush_buffer"

  datatype Named = Named(name: string, fn: Function)

  predicate IsBarrier(n: Named) { Contains(n.name, BARRIER) }
  predicate IsFlush(n: Named) { Contains(n.name, FLUSH_BUFFER) }

  /** The pass reads the first parameter of a flush function. */
  predicate FlushesHaveParameter(fs: seq<Named>) {
    forall i :: 0 <= i < |fs| && IsFlush(fs[i]) ==> fs[i].fn.params != []
  }

  function FlushEntry(n: Named): seq<Probe>
    requires n.fn.params != []
  {
    [FlushProbe(Reg(n.fn.params[0]))]
  }

  /** The first function, in the order the pass manager visits them, with a given property. */
  function First(fs: seq<Named>, test: Named -> bool): (k: nat)
    ensures k <= |fs| && (k < |fs| ==> test(fs[k])) && (forall i :: 0 <= i < k ==> !test(fs[i]))
  {
    if fs == [] then 0 else if test(fs[0]) then 0 else 1 + First(fs[1..], test)
  }

  /** What the flags amount to: the first barrier gets the fence probe, and the first flush function
      that is not that very function gets the flush probe. */
  function FenceAt(fs: seq<Named>): nat {
    First(fs, (n: Named) => IsBarrier(n))
  }

  predicate FlushCandidate(fs: seq<Named>, i: nat)
    requires i < |fs|
  {
    IsFlush(fs[i]) && i != FenceAt(fs)
  }

  ghost predicate IsFlushAt(fs: seq<Named>, i: nat) {
    i < |fs| && FlushCandidate(fs, i) && forall j :: 0 <= j < i ==> !FlushCandidate(fs, j)
  }

  /** struct FenceInstru with its two global flags. */
  class FenceInstru {
    var fenceOnce: bool
    var flushOnce: bool

    constructor ()
      ensures !fenceOnce && !flushOnce
    {
      fenceOnce, flushOnce := false, false;
    }

    /** The probes the pass puts at the entry of one function. */
    method Visit(n: Named) returns (probes: seq<Probe>)
      requires IsFlush(n) ==> n.fn.params != []
      modifies this
      ensures if IsBarrier(n) && !old(fenceOnce)
              then probes == [FenceProbe] && fenceOnce && flushOnce == old(flushOnce)
              else if IsFlush(n) && !old(flushOnce)
              then probes == FlushEntry(n) && flushOnce && fenceOnce == old(fenceOnce)
              else probes == [] && fenceOnce == old(fenceOnce) && flushOnce == old(flushOnce)
    {
      if Contains(n.name, BARRIER) && !fenceOnce {
        fenceOnce := true;
        return [FenceProbe];
      }
      if Contains(n.name, FLUSH_BUFFER) && !flushOnce {
        flushOnce := true;
        return [FlushProbe(Reg(n.fn.params[0]))];
      }
      return [];
    }

    /** One compilation: every function in turn, starting with both flags clear. */
    method VisitAll(fs: seq<Named>) returns (probes: seq<seq<Probe>>)
      requires !fenceOnce && !flushOnce && FlushesHaveParameter(fs)
      modifies this
      ensures |probes| == |fs|
      ensures forall i :: 0 <= i < |fs| ==> EntryProbesAt(fs, i, probes[i])
    {
      hide Contains, First, FlushEntry;
      probes := [];
      for i := 0 to |fs|
        invariant |probes| == i && fenceOnce == (FenceAt(fs) < i)
        invariant flushOnce <==> exists j :: 0 <= j < i && FlushCandidate(fs, j)
        invariant forall k :: 0 <= k < i ==> EntryProbesAt(fs, k, probes[k])
      {
        var q := Visit(fs[i]);
        assert IsBarrier(fs[i]) ==> FenceAt(fs) <= i;
        assert i == FenceAt(fs) ==> IsBarrier(fs[i]);
        assert (exists j :: 0 <= j < i + 1 && FlushCandidate(fs, j))
          <==> (exists j :: 0 <= j < i && FlushCandidate(fs, j)) || FlushCandidate(fs, i);
        probes := probes + [q];
      }
    }
  }

  ghost predicate EntryProbesAt(fs: seq<Named>, i: nat, probes: seq<Probe>)
    requires i < |fs| && FlushesHaveParameter(fs)
  {
    if i == FenceAt(fs) then probes == [FenceProbe]
    else if IsFlushAt(fs, i) then probes == FlushEntry(fs[i])
    else probes == []
  }

  /** Every function named like a barrier is traced if and only if there is at most one. */
  lemma BarriersTracedIff(fs: seq<Named>, probes: seq<seq<Probe>>)
    requires FlushesHaveParameter(fs) && |probes| == |fs|
    requires forall i :: 0 <= i < |fs| ==> EntryProbesAt(fs, i, probes[i])
    ensures (forall i :: 0 <= i < |fs| && IsBarrier(fs[i]) ==> probes[i] == [FenceProbe])
            <==> (forall i, j :: 0 <= i < j < |fs| ==> !(IsBarrier(fs[i]) && IsBarrier(fs[j])))
  {
    hide Contains, First;
    var a := FenceAt(fs);
    if i, j :| 0 <= i < j < |fs| && IsBarrier(fs[i]) && IsBarrier(fs[j]) {
      var other := if i == a then j else i;
      assert EntryProbesAt(fs, other, probes[other]) && probes[other] != [FenceProbe];
    }
    forall i | 0 <= i < |fs| && IsBarrier(fs[i]) && i != a
      ensures exists j :: 0 <= j < i && IsBarrier(fs[j])
    {
      assert a < i && IsBarrier(fs[a]);
    }
  }

  /** Every function named like a flush is traced if and only if at most one is, and the first
      barrier is not named like a flush too. */
  lemma FlushesTracedIff(fs: seq<Named>, probes: seq<seq<Probe>>)
    requires FlushesHaveParameter(fs) && |probes| == |fs|
    requires forall i :: 0 <= i < |fs| ==> EntryProbesAt(fs, i, probes[i])
    ensures (forall i :: 0 <= i < |fs| && IsFlush(fs[i]) ==> probes[i] == FlushEntry(fs[i]))
            <==> (FenceAt(fs) < |fs| ==> !IsFlush(fs[FenceAt(fs)]))
                 && (forall i, j :: 0 <= i < j < |fs| ==> !(IsFlush(fs[i]) && IsFlush(fs[j])))
  {
    hide Contains, First;
    var a := FenceAt(fs);
    forall i | 0 <= i < |fs|
      ensures EntryProbesAt(fs, i, probes[i])
    {}
    if i, j :| 0 <= i < j < |fs| && IsFlush(fs[i]) && IsFlush(fs[j]) {
      if i != a && j != a {
        assert FlushCandidate(fs, i);
        assert !IsFlushAt(fs, j) && probes[j] == [];
      }
    }
    if (a < |fs| ==> !IsFlush(fs[a])) && (forall i, j :: 0 <= i < j < |fs| ==> !(IsFlush(fs[i]) && IsFlush(fs[j]))) {
      forall i | 0 <= i < |fs| && IsFlush(fs[i])
        ensures probes[i] == FlushEntry(fs[i])
      {
        assert IsFlushAt(fs, i);
      }
    }
  }

  // ----- the instrumented program -----

  /** The functions of a program in visiting order, and the entry probes chosen for them. */
  datatype Plan = Plan(fs: seq<Named>, probes: seq<seq<Probe>>) {
    ghost predicate For(p: Program) {
      && FlushesHaveParameter(fs) && |probes| == |fs|
      && (forall i :: 0 <= i < |fs| ==> EntryProbesAt(fs, i, probes[i]) && fs[i].name in p && p[fs[i].name] == fs[i].fn)
      && (forall i, j :: 0 <= i < j < |fs| ==> fs[i].name != fs[j].name)
    }

    function At(name: string): seq<Probe> {
      Lookup(name, |fs|)
    }

    function Lookup(name: string, n: nat): seq<Probe> {
      if n == 0 then []
      else if n <= |fs| && n <= |probes| && fs[n - 1].name == name then probes[n - 1]
      else Lookup(name, n - 1)
    }
  }

  lemma {:induction false} LookupFinds(plan: Plan, i: nat, n: nat)
    requires i < n <= |plan.fs| == |plan.probes|
    requires forall a, b :: 0 <= a < b < |plan.fs| ==> plan.fs[a].name != plan.fs[b].name
    ensures plan.Lookup(plan.fs[i].name, n) == plan.probes[i]
  {
    if i < n - 1 {
      LookupFinds(plan, i, n - 1);
    }
  }

  function StoreProbes(fn: string, blk: Block, i: nat): seq<Probe> {
    if !IsWrapper(fn) && i < |blk.instrs| && blk.instrs[i].Store?
    then [StoreProbe(blk.instrs[i].addr, blk.instrs[i].size)] else []
  }

  function EntryPlacement(p: Program, plan: Plan): Placement {
    (fn: string, b: nat, i: nat) =>
      (if b == 0 && i == 0 then plan.At(fn) else [])
      + (if fn in p && b < |p[fn].blocks| then StoreProbes(fn, p[fn].blocks[b], i) else [])
  }

  lemma {:induction false} LookupPlain(p: Program, plan: Plan, name: string, n: nat)
    requires PlainProgram(p) && plan.For(p)
    ensures forall j :: 0 <= j < |plan.Lookup(name, n)| ==> PlainProbe(plan.Lookup(name, n)[j])
  {
    if n > 0 {
      LookupPlain(p, plan, name, n - 1);
      if n <= |plan.fs| && plan.fs[n - 1].name == name {
        assert EntryProbesAt(plan.fs, n - 1, plan.probes[n - 1]);
        assert PlainFunction(p[plan.fs[n - 1].name]);
      }
    }
  }

  lemma StorePlain(p: Program, fn: string, b: nat, i: nat)
    requires PlainProgram(p) && fn in p && b < |p[fn].blocks| && i <= |p[fn].blocks[b].instrs|
    ensures forall j :: 0 <= j < |StoreProbes(fn, p[fn].blocks[b], i)| ==>
              PlainProbe(StoreProbes(fn, p[fn].blocks[b], i)[j])
  {
    hide IsWrapper;
    assert PlainFunction(p[fn]) && PlainBlock(p[fn].blocks[b]);
    if i < |p[fn].blocks[b].instrs| {
      assert PlainInstr(p[fn].blocks[b].instrs[i]);
    }
  }

  lemma EntryPlain(p: Program, plan: Plan)
    requires PlainProgram(p) && plan.For(p)
    ensures PlainPlacement(EntryPlacement(p, plan), p)
  {
    hide IsWrapper, Plan.Lookup, Plan.For, PlainProgram, PlainProbe, StoreProbes;
    forall fn, b, i, j | fn in p && 0 <= b < |p[fn].blocks| && 0 <= i <= |p[fn].blocks[b].instrs|
        && 0 <= j < |EntryPlacement(p, plan)(fn, b, i)|
      ensures PlainProbe(EntryPlacement(p, plan)(fn, b, i)[j])
    {
      LookupPlain(p, plan, fn, |plan.fs|);
      StorePlain(p, fn, b, i);
      var first := if b == 0 && i == 0 then plan.At(fn) else [];
      var second := StoreProbes(fn, p[fn].blocks[b], i);
      assert EntryPlacement(p, plan)(fn, b, i) == first + second;
      if j < |first| {
        assert PlainProbe(first[j]);
      } else {
        assert PlainProbe(second[j - |first|]);
      }
    }
  }

  /** What the next step of the original contributes: the entry record when control is at the start
      of a function that was given one, and the store it is about to execute. */
  function EntryEvent<M>(p: Program, plan: Plan, s: State<M>): seq<Record> {
    if Halted(p, s) || Top(s).pc > |CurrentBlock(p, s).instrs| then []
    else
      var (f, blk) := (Top(s), CurrentBlock(p, s));
      (if f.block == 0 && f.pc == 0 then Reports(plan.At(f.fn), f.regs) else [])
      + (if !IsWrapper(f.fn) && f.pc < |blk.instrs| && blk.instrs[f.pc].Store?
         then [StoreRecord(Eval(f.regs, blk.instrs[f.pc].addr), blk.instrs[f.pc].size)] else [])
  }

  function EntryEvents<M>(p: Program, plan: Plan, env: Env<M>, s: State<M>, k: nat): seq<Record> {
    if k == 0 then []
    else
      var now := Run(p, env, s, k - 1);
      EntryEvents(p, plan, env, s, k - 1) + EntryEvent(p, plan, now) + Own(p, env, now)
  }

  lemma DueIsEntryEvent<M>(p: Program, plan: Plan, s: State<M>)
    ensures Due(EntryPlacement(p, plan), p, s) == EntryEvent(p, plan, s)
  {
    hide IsWrapper, Plan.Lookup;
    if !Halted(p, s) && Top(s).pc <= |CurrentBlock(p, s).instrs| {
      var (f, blk) := (Top(s), CurrentBlock(p, s));
      var entry := if f.block == 0 && f.pc == 0 then plan.At(f.fn) else [];
      assert Reports(entry + StoreProbes(f.fn, blk, f.pc), f.regs)
          == Reports(entry, f.regs) + Reports(StoreProbes(f.fn, blk, f.pc), f.regs);
    }
  }

  lemma {:induction false} ObservedIsEntryEvents<M>(p: Program, plan: Plan, env: Env<M>, s: State<M>, k: nat)
    ensures Observed(EntryPlacement(p, plan), p, env, s, k) == EntryEvents(p, plan, env, s, k)
  {
    hide Step, Due, EntryEvent, Own;
    if k > 0 {
      ObservedIsEntryEvents(p, plan, env, s, k - 1);
      DueIsEntryEvent(p, plan, Run(p, env, s, k - 1));
    }
  }

  /** The kernel pass is transparent too, and its trace is exactly the stores plus one record each
      time control is at the start of the chosen barrier and flush functions. */
  lemma EntryTraceExact<M>(p: Program, plan: Plan, env: Env<M>, s: State<M>, k: nat)
    requires PlainProgram(p) && plan.For(p) && Entry(s)
    ensures var pl := EntryPlacement(p, plan);
            var t := Run(Instrument(pl, p), env, s, Clock(pl, p, env, s, k));
            && Related(pl, p, Run(p, env, s, k), t)
            && t.log == s.log + EntryEvents(p, plan, env, s, k)
  {
    hide PlainProgram, Plan.For, Related, Instrument, Run, Clock;
    EntryPlain(p, plan);
    EntrySelfRelated(EntryPlacement(p, plan), p, s);
    Simulates(EntryPlacement(p, plan), p, env, s, s, k);
    ObservedIsEntryEvents(p, plan, env, s, k);
  }

  // ----- entry records mean calls -----

  /** No branch goes back to an entry block, as the IR demands. */
  predicate NoBranchToEntry(p: Program) {
    forall fn, b :: fn in p && 0 <= b < |p[fn].blocks| ==>
      match p[fn].blocks[b].term
      case Jump(x) => x != 0
      case Branch(_, x, y) => x != 0 && y != 0
      case Return(_) => true
  }

  /** Suspended frames are past the call they made. */
  predicate CallersAdvanced<M>(s: State<M>) {
    forall i :: 0 <= i < |s.stack| - 1 ==> s.stack[i].pc > 0
  }

  /** Control reaches the start of a function only by calling it. */
  lemma StartsByCall<M>(p: Program, env: Env<M>, s: State<M>)
    requires NoBranchToEntry(p) && CallersAdvanced(s) && !Halted(p, s)
    ensures CallersAdvanced(Step(p, env, s))
    ensures var s' := Step(p, env, s);
            s'.stack != [] && Top(s').block == 0 && Top(s').pc == 0 ==> |s'.stack| == |s.stack| + 1
  {
    hide IsWrapper, Bind;
    var (f, blk) := (Top(s), p[Top(s).fn].blocks[Top(s).block]);
    if f.pc >= |blk.instrs| && blk.term.Return? && |s.stack| > 1 {
      assert s.stack[|s.stack| - 2].pc > 0;
    }
  }
}
