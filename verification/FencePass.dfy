/** The tracing pass (llvm_evaluation/correctness/fencePass): it puts a trace call before every store, every
    fence and every call whose callee is named like a flush, in all functions but the trace wrappers. */
module FencePass {
  import opened Options
  import opened Ir
  import opened Probes
  import opened ProbeTheorems

  predicate OccursAt(s: string, t: string, i: nat) {
    i + |t| <= |s| && s[i..i + |t|] == t
  }

  predicate Contains(s: string, t: string) {
    exists i :: 0 <= i <= |s| && OccursAt(s, t, i)
  }

  /** The search finds a name wherever it stands, and only a whole one. */
  lemma ContainsIff(s: string, t: string)
    ensures Contains(s, t) <==> exists a, b :: s == a + t + b
  {
    if i: nat :| i <= |s| && OccursAt(s, t, i) {
      assert s == s[..i] + t + s[i + |t|..];
    }
    if a, b :| s == a + t + b {
      assert OccursAt(s, t, |a|);
    }
  }

  /** The name the pass sees: the callee's, or that of the value called through. */
  function SeenName(c: Callee): string {
    match c
    case Direct(name) => name
    case Indirect(tag, _) => tag
  }

  const TRACE_FLUSH := "nvdimm_flush"

  predicate IsFlushCall(i: Instr) {
    i.Call? && Contains(SeenName(i.callee), TRACE_FLUSH)
  }

  /** The pass takes the first argument of a flush call without looking whether there is one. */
  predicate FlushCallsHaveArgument(p: Program) {
    forall fn, b, i :: fn in p && 0 <= b < |p[fn].blocks| && 0 <= i < |p[fn].blocks[b].instrs| ==>
      var instr := p[fn].blocks[b].instrs[i];
      IsFlushCall(instr) ==> instr.args != []
  }

  function TraceProbes(i: Instr): seq<Probe> {
    if i.Fence? then [FenceProbe]
    else if i.Store? then [StoreProbe(i.addr, i.size)]
    else if IsFlushCall(i) && i.args != [] then [FlushProbe(i.args[0])]
    else []
  }

  function BlockProbes(fn: string, blk: Block, i: nat): seq<Probe> {
    if IsWrapper(fn) || i >= |blk.instrs| then [] else TraceProbes(blk.instrs[i])
  }

  function TracePlacement(p: Program): Placement {
    (fn: string, b: nat, i: nat) => if fn in p && b < |p[fn].blocks| then BlockProbes(fn, p[fn].blocks[b], i) else []
  }

  /** The program after the pass has run over all its functions. */
  function TracePass(p: Program): Program {
    Instrument(TracePlacement(p), p)
  }

  lemma TracePlain(p: Program)
    requires PlainProgram(p)
    ensures PlainPlacement(TracePlacement(p), p)
  {
    hide Contains;
    forall fn, b, i, j | fn in p && 0 <= b < |p[fn].blocks| && 0 <= i <= |p[fn].blocks[b].instrs|
        && 0 <= j < |TracePlacement(p)(fn, b, i)|
      ensures PlainProbe(TracePlacement(p)(fn, b, i)[j])
    {
      assert PlainFunction(p[fn]) && PlainBlock(p[fn].blocks[b]);
      if i < |p[fn].blocks[b].instrs| {
        assert PlainInstr(p[fn].blocks[b].instrs[i]);
      }
    }
  }

  // ----- the events the pass is for -----

  /** The persistence event the next instruction of an uninstrumented state is: a store with its
      address and size, a fence, or a flush call with its first argument. */
  function Event<M>(p: Program, s: State<M>): seq<Record> {
    if Halted(p, s) || Top(s).pc >= |CurrentBlock(p, s).instrs| || IsWrapper(Top(s).fn) then []
    else
      var regs := Top(s).regs;
      match CurrentBlock(p, s).instrs[Top(s).pc]
      case Store(a, _, size) => [StoreRecord(Eval(regs, a), size)]
      case Fence => [FenceRecord]
      case Call(_, callee, args) =>
        if Contains(SeenName(callee), TRACE_FLUSH) then [FlushRecord(Arg(EvalAll(regs, args), 0))] else []
      case _ => []
  }

  /** The events of the first k steps, with the records of wrapper calls the program makes itself. */
  function Events<M>(p: Program, env: Env<M>, s: State<M>, k: nat): seq<Record> {
    if k == 0 then []
    else
      var now := Run(p, env, s, k - 1);
      Events(p, env, s, k - 1) + Event(p, now) + Own(p, env, now)
  }

  lemma DueIsEvent<M>(p: Program, s: State<M>)
    requires FlushCallsHaveArgument(p)
    ensures Due(TracePlacement(p), p, s) == Event(p, s)
  {
    hide Contains, IsWrapper;
    if !Halted(p, s) && Top(s).pc < |CurrentBlock(p, s).instrs| && !IsWrapper(Top(s).fn) {
      var (f, b) := (Top(s), CurrentBlock(p, s));
      var i := b.instrs[f.pc];
      assert TracePlacement(p)(f.fn, f.block, f.pc) == TraceProbes(i);
      if IsFlushCall(i) {
        assert p[f.fn].blocks[f.block].instrs[f.pc].args != [];
      }
      assert Reports(TraceProbes(i), f.regs) == Event(p, s);
    }
  }

  lemma {:induction false} ObservedIsEvents<M>(p: Program, env: Env<M>, s: State<M>, k: nat)
    requires FlushCallsHaveArgument(p)
    ensures Observed(TracePlacement(p), p, env, s, k) == Events(p, env, s, k)
  {
    hide Step, Due, Event, Own, FlushCallsHaveArgument;
    if k > 0 {
      ObservedIsEvents(p, env, s, k - 1);
      DueIsEvent(p, Run(p, env, s, k - 1));
    }
  }

  /** A state in which control is where a call or a fresh start puts it. */
  predicate Entry<M>(s: State<M>) {
    |s.stack| == 1 && s.stack[0].pc == 0 && s.stack[0].ret == None
  }

  lemma EntrySelfRelated<M>(pl: Placement, p: Program, s: State<M>)
    requires Entry(s)
    ensures Related(pl, p, s, s)
  {
    EntryRelated(pl, p, s.stack[0]);
  }

  /** The pass is transparent and its trace exact: for every program, environment and number of
      steps, the instrumented run reaches a state with the same memory and result, and its trace is
      the sequence of stores, fences and flush calls executed, in order. */
  lemma TraceExact<M>(p: Program, env: Env<M>, s: State<M>, k: nat)
    requires PlainProgram(p) && FlushCallsHaveArgument(p) && Entry(s)
    ensures var pl := TracePlacement(p);
            var t := Run(TracePass(p), env, s, Clock(pl, p, env, s, k));
            && Related(pl, p, Run(p, env, s, k), t)
            && t.log == s.log + Events(p, env, s, k)
  {
    hide PlainProgram, FlushCallsHaveArgument, Related, Instrument, Run, Clock;
    TracePlain(p);
    EntrySelfRelated(TracePlacement(p), p, s);
    Simulates(TracePlacement(p), p, env, s, s, k);
    ObservedIsEvents(p, env, s, k);
  }

  /** Termination and results agree: the instrumented run halts exactly when the original does. */
  lemma TraceHalts<M>(p: Program, env: Env<M>, s: State<M>, k: nat)
    requires PlainProgram(p) && FlushCallsHaveArgument(p) && Entry(s)
    ensures var t := Run(TracePass(p), env, s, Clock(TracePlacement(p), p, env, s, k));
            && (Halted(TracePass(p), t) <==> Halted(p, Run(p, env, s, k)))
            && t.mem == Run(p, env, s, k).mem && t.result == Run(p, env, s, k).result
  {
    hide PlainProgram, FlushCallsHaveArgument, Instrument, Run, Clock, Halted;
    TraceExact(p, env, s, k);
    HaltedAgrees(TracePlacement(p), p, Run(p, env, s, k),
                 Run(TracePass(p), env, s, Clock(TracePlacement(p), p, env, s, k)));
  }

  /** Whatever instrumented step one stops at, the trace is the events so far plus at most the one
      event about to happen, and memory is the original's. */
  lemma TraceNeverRunsAhead<M>(p: Program, env: Env<M>, s: State<M>, m: nat)
    requires PlainProgram(p) && FlushCallsHaveArgument(p) && Entry(s)
    ensures exists k :: 0 <= k <= m && TraceAt(p, env, s, m, k)
  {
    hide PlainProgram, FlushCallsHaveArgument, Related, Instrument, Run, Event, Due, Own;
    var pl := TracePlacement(p);
    TracePlain(p);
    EntrySelfRelated(pl, p, s);
    NothingElseHappens(pl, p, env, s, s, m);
    var k: nat, i: nat :| 0 <= k <= m && Matches(pl, p, env, s, s, m, k, i);
    ObservedIsEvents(p, env, s, k);
    DueIsEvent(p, Run(p, env, s, k));
    EventAtMostOne(p, Run(p, env, s, k));
    var e := Event(p, Run(p, env, s, k));
    assert e[..i] == [] || e[..i] == e;
    assert Events(p, env, s, k) + [] == Events(p, env, s, k);
    assert TraceAt(p, env, s, m, k);
  }

  ghost predicate TraceAt<M>(p: Program, env: Env<M>, s: State<M>, m: nat, k: nat) {
    var (sk, tm) := (Run(p, env, s, k), Run(TracePass(p), env, s, m));
    && tm.mem == sk.mem && tm.result == sk.result
    && (tm.log == s.log + Events(p, env, s, k) || tm.log == s.log + Events(p, env, s, k) + Event(p, sk))
  }

  lemma EventAtMostOne<M>(p: Program, s: State<M>)
    ensures |Event(p, s)| <= 1
  {}

  // ----- what the trace misses -----

  /** No frame is in a trace wrapper: no call enters one, so no run from outside them does. */
  predicate Outside<M>(s: State<M>) {
    forall i :: 0 <= i < |s.stack| ==> !IsWrapper(s.stack[i].fn)
  }

  lemma OutsideStays<M>(p: Program, env: Env<M>, s: State<M>)
    requires Outside(s)
    ensures Outside(Step(p, env, s))
  {
    hide IsWrapper, Bind;
  }

  lemma {:induction false} OutsideRun<M>(p: Program, env: Env<M>, s: State<M>, k: nat)
    requires Outside(s)
    ensures Outside(Run(p, env, s, k))
  {
    hide Step, Outside;
    if k > 0 {
      OutsideRun(p, env, s, k - 1);
      OutsideStays(p, env, Run(p, env, s, k - 1));
    }
  }

  /** Every step that changes memory is announced by a record, in every environment. */
  ghost predicate EveryChangeTraced(p: Program) {
    forall env: Env<int>, s: State<int> :: Outside(s) && Step(p, env, s).mem != s.mem ==> Event(p, s) != []
  }

  /** Instructions through which memory can change: stores, atomic read-modify-writes and memory
      intrinsics, and calls that can leave the program. */
  predicate MayWrite(p: Program, i: Instr) {
    || i.Store? || i.Modify?
    || (i.Call? && (i.callee.Indirect? || (i.callee.name !in p && !IsWrapper(i.callee.name))))
  }

  /** The condition one can check on the program text. */
  predicate WritesAreStoresOrFlushes(p: Program) {
    forall fn, b, i :: fn in p && !IsWrapper(fn) && 0 <= b < |p[fn].blocks| && 0 <= i < |p[fn].blocks[b].instrs| ==>
      var instr := p[fn].blocks[b].instrs[i];
      MayWrite(p, instr) ==> instr.Store? || IsFlushCall(instr)
  }

  lemma ChangesAreTraced<M>(p: Program, env: Env<M>, s: State<M>)
    requires WritesAreStoresOrFlushes(p) && Outside(s)
    ensures Step(p, env, s).mem != s.mem ==> Event(p, s) != []
  {
    if Step(p, env, s).mem != s.mem {
      var (f, blk) := (Top(s), CurrentBlock(p, s));
      var instr := p[f.fn].blocks[f.block].instrs[f.pc];
      assert MayWrite(p, instr);
    }
  }

  /** An environment in which every write, wherever it comes from, is visible. */
  function Busy(): Env<int> {
    Env((m, a, v, n) => m + 1, (m, a) => 0, (o, vs) => 0, (m, a, v) => (m + 1, 0), (f, vs, m) => (m + 1, 0), a => "")
  }

  lemma UntracedChange(p: Program, fn: string, b: nat, i: nat)
    requires "" !in p && fn in p && !IsWrapper(fn) && b < |p[fn].blocks| && i < |p[fn].blocks[b].instrs|
    requires var instr := p[fn].blocks[b].instrs[i]; MayWrite(p, instr) && !instr.Store? && !IsFlushCall(instr)
    ensures !EveryChangeTraced(p)
  {
    var s: State<int> := State([Frame(fn, b, i, map[], None)], 0, [], None);
    assert Outside(s) && Top(s) == Frame(fn, b, i, map[], None);
    assert Step(p, Busy(), s).mem != s.mem && Event(p, s) == [];
  }

  /** The trace announces every memory change exactly when all instructions outside the wrappers that can
      write are stores or flush calls: read-modify-writes and memory intrinsics are not traced. */
  lemma EveryChangeTracedIff(p: Program)
    requires "" !in p
    ensures EveryChangeTraced(p) <==> WritesAreStoresOrFlushes(p)
  {
    hide Step, Event, MayWrite, IsFlushCall, Outside;
    if WritesAreStoresOrFlushes(p) {
      forall env: Env<int>, s: State<int> | Outside(s)
        ensures Step(p, env, s).mem != s.mem ==> Event(p, s) != []
      {
        ChangesAreTraced(p, env, s);
      }
    } else {
      var fn, b, i :| fn in p && !IsWrapper(fn) && 0 <= b < |p[fn].blocks| && 0 <= i < |p[fn].blocks[b].instrs|
        && MayWrite(p, p[fn].blocks[b].instrs[i])
        && !(p[fn].blocks[b].instrs[i].Store? || IsFlushCall(p[fn].blocks[b].instrs[i]));
      UntracedChange(p, fn, b, i);
    }
  }

  // ----- what a run's trace misses -----

  /** The step executes an instruction that writes: a store, a read-modify-write, or a call that leaves the
      program, through whatever name the environment resolves it to. */
  predicate Writes<M>(p: Program, env: Env<M>, s: State<M>) {
    && !Halted(p, s) && Top(s).pc < |CurrentBlock(p, s).instrs|
    && ExecWrites(p, env, Top(s).regs, CurrentBlock(p, s).instrs[Top(s).pc])
  }

  predicate ExecWrites<M>(p: Program, env: Env<M>, regs: Regs, i: Instr) {
    || i.Store? || i.Modify?
    || (i.Call? && var name := CalleeName(env, regs, i.callee); name !in p && !IsWrapper(name))
  }

  /** On no run from s, whatever the environment, does memory change without a record; memory is words. */
  ghost predicate RunsTraced(p: Program, s: State<seq<int>>) {
    forall env: Env<seq<int>>, m: seq<int>, k: nat ::
      var now := Run(p, env, s.(mem := m), k); Step(p, env, now).mem != now.mem ==> Event(p, now) != []
  }

  /** Every write that a run from s reaches has its record. */
  ghost predicate WritesReachedTraced(p: Program, s: State<seq<int>>) {
    forall env: Env<seq<int>>, m: seq<int>, k: nat ::
      var now := Run(p, env, s.(mem := m), k); Writes(p, env, now) ==> Event(p, now) != []
  }

  lemma OnlyWritesChange<M>(p: Program, env: Env<M>, s: State<M>)
    ensures Step(p, env, s).mem != s.mem ==> Writes(p, env, s)
  {
    hide Bind, IsWrapper;
  }

  function Ticked(m: seq<int>): int {
    (if m == [] then 0 else m[0]) + 1
  }

  function Rest(m: seq<int>): seq<int> {
    if m == [] then [] else m[1..]
  }

  /** The environment with a word in front of its memory that counts the writes. */
  function Counting(env: Env<seq<int>>): Env<seq<int>> {
    Env((m, a, v, n) => [Ticked(m)] + env.store(Rest(m), a, v, n),
        (m, a) => env.load(Rest(m), a),
        env.compute,
        (m, a, v) => var (r, x) := env.change(Rest(m), a, v); ([Ticked(m)] + r, x),
        (f, vs, m) => var (r, x) := env.external(f, vs, Rest(m)); ([Ticked(m)] + r, x),
        env.target)
  }

  function Counted(s: State<seq<int>>, n: int): State<seq<int>> {
    s.(mem := [n] + s.mem)
  }

  /** A counted step does what the step does, and its memory differs whenever the instruction writes. */
  lemma CountedStep(p: Program, env: Env<seq<int>>, s: State<seq<int>>, n: int)
    ensures Step(p, Counting(env), Counted(s, n)) ==
              Counted(Step(p, env, s), if Writes(p, env, s) then n + 1 else n)
  {
    hide Exec, Terminate, Counting, IsWrapper;
    if !Halted(p, s) {
      var (f, b) := (Top(s), CurrentBlock(p, s));
      if f.pc < |b.instrs| {
        CountedExec(p, env, s, b.instrs[f.pc], n);
      } else {
        CountedTerminate(s, b.term, n);
      }
    }
  }

  lemma CountedExec(p: Program, env: Env<seq<int>>, s: State<seq<int>>, i: Instr, n: int)
    requires s.stack != []
    ensures Exec(p, Counting(env), Counted(s, n), i) ==
              Counted(Exec(p, env, s, i), if ExecWrites(p, env, Top(s).regs, i) then n + 1 else n)
  {
    hide Bind, IsWrapper, WrapperRecord, Eval;
    assert Rest([n] + s.mem) == s.mem && Ticked([n] + s.mem) == n + 1;
  }

  lemma CountedTerminate(s: State<seq<int>>, t: Terminator, n: int)
    requires s.stack != []
    ensures Terminate(Counted(s, n), t) == Counted(Terminate(s, t), n)
  {}

  lemma {:induction false} CountedRun(p: Program, env: Env<seq<int>>, s: State<seq<int>>, n: int, k: nat)
    returns (n': int)
    ensures Run(p, Counting(env), Counted(s, n), k) == Counted(Run(p, env, s, k), n')
  {
    hide Step, Counted, Counting, Writes;
    if k == 0 {
      n' := n;
    } else {
      n' := CountedRun(p, env, s, n, k - 1);
      var now := Run(p, env, s, k - 1);
      CountedStep(p, env, now, n');
      n' := if Writes(p, env, now) then n' + 1 else n';
    }
  }

  /** On the runs from a state every memory change is announced exactly when every write they reach is a
      traced one: in some environment a write that is not does change memory. */
  lemma RunsTracedIff(p: Program, s: State<seq<int>>)
    ensures RunsTraced(p, s) <==> WritesReachedTraced(p, s)
  {
    hide Step, Event, Writes, Run, Counting;
    if WritesReachedTraced(p, s) {
      forall env: Env<seq<int>>, m: seq<int>, k: nat
        ensures var now := Run(p, env, s.(mem := m), k); Step(p, env, now).mem != now.mem ==> Event(p, now) != []
      {
        OnlyWritesChange(p, env, Run(p, env, s.(mem := m), k));
      }
    }
    if RunsTraced(p, s) {
      forall env: Env<seq<int>>, m: seq<int>, k: nat
        ensures var now := Run(p, env, s.(mem := m), k); Writes(p, env, now) ==> Event(p, now) != []
      {
        var now := Run(p, env, s.(mem := m), k);
        var n := CountedRun(p, env, s.(mem := m), 0, k);
        CountedStep(p, env, now, n);
        assert Counted(s.(mem := m), 0) == s.(mem := [0] + m);
        if Writes(p, env, now) {
          assert Counted(Step(p, env, now), n + 1).mem[0] != Counted(now, n).mem[0];
          SameEvent(p, now, n);
        }
      }
    }
  }

  lemma SameEvent(p: Program, s: State<seq<int>>, n: int)
    ensures Event(p, Counted(s, n)) == Event(p, s)
  {
    hide Contains, IsWrapper;
  }

  /** A program whose text meets the condition is traced on every run from outside the wrappers. */
  lemma TextTracesRuns(p: Program, s: State<seq<int>>)
    requires WritesAreStoresOrFlushes(p) && Outside(s)
    ensures RunsTraced(p, s)
  {
    hide Step, Event, WritesAreStoresOrFlushes, Run;
    forall env: Env<seq<int>>, m: seq<int>, k: nat
      ensures var now := Run(p, env, s.(mem := m), k); Step(p, env, now).mem != now.mem ==> Event(p, now) != []
    {
      OutsideRun(p, env, s.(mem := m), k);
      ChangesAreTraced(p, env, Run(p, env, s.(mem := m), k));
    }
  }

  // ----- the insertion loop -----

  /** The probes of one block, whatever block index they are asked for. */
  function BlockPlacement(blk: Block): Placement {
    (fn: string, b: nat, i: nat) => BlockProbes(fn, blk, i)
  }

  /** instrumentFunction on one basic block: walk the instruction list and insert before the current
      instruction; the iterator stays on it. */
  method TraceBlock(fn: string, b: nat, blk: Block) returns (out: Block, changed: bool)
    requires !IsWrapper(fn)
    requires forall i :: 0 <= i < |blk.instrs| && IsFlushCall(blk.instrs[i]) ==> blk.instrs[i].args != []
    ensures out == InstrumentBlock(BlockPlacement(blk), fn, b, blk)
    ensures changed <==> out != blk
  {
    hide Contains, ProbeCode, ProbesCode, TraceProbes, InstrumentBlock, Expand, BlockPlacement, IsWrapper, IsFlushCall;
    var list := blk.instrs;
    ghost var done := [];
    var it, k := 0, 0;
    changed := false;
    ExpandNone(fn, b, blk);
    while it < |list|
      invariant k <= |blk.instrs| && it == |done| && done == Expand(BlockPlacement(blk), fn, b, blk.instrs[..k])
      invariant list == done + blk.instrs[k..]
      invariant if changed then |list| > |blk.instrs| else list == blk.instrs
      decreases |blk.instrs| - k
    {
      var inst := list[it];
      assert inst == blk.instrs[k];
      var code := InsertedCode(inst, b, k);
      ExpandNext(fn, b, blk, k);
      Splice(list, done, blk.instrs, k, code);
      list := list[..it] + code + list[it..];
      changed := changed || code != [];
      done := done + code + [inst];
      it := it + |code| + 1;
      k := k + 1;
    }
    out := Block(list, blk.term);
    ExpandAll(fn, b, blk);
  }

  lemma Splice(list: seq<Instr>, done: seq<Instr>, instrs: seq<Instr>, k: nat, code: seq<Instr>)
    requires k < |instrs| && list == done + instrs[k..]
    ensures list[..|done|] + code + list[|done|..] == done + code + [instrs[k]] + instrs[k + 1..]
    ensures code == [] ==> list[..|done|] + code + list[|done|..] == list
  {
    assert list[..|done|] == done && list[|done|..] == instrs[k..] == [instrs[k]] + instrs[k + 1..];
  }

  /** The three tests of the loop body, in order. */
  method InsertedCode(inst: Instr, b: nat, k: nat) returns (code: seq<Instr>)
    requires IsFlushCall(inst) ==> inst.args != []
    ensures code == ProbesCode(TraceProbes(inst), b, k)
  {
    code := [];
    if inst.Fence? {
      code := ProbeCode(FenceProbe, Temp(b, k, 0));
    }
    if inst.Store? {
      code := ProbeCode(StoreProbe(inst.addr, inst.size), Temp(b, k, 0));
    }
    if inst.Call? && Contains(SeenName(inst.callee), TRACE_FLUSH) {
      code := ProbeCode(FlushProbe(inst.args[0]), Temp(b, k, 0));
    }
    OneProbe(inst, b, k, code);
  }

  lemma ExpandNone(fn: string, b: nat, blk: Block)
    ensures Expand(BlockPlacement(blk), fn, b, blk.instrs[..0]) == []
  {}

  lemma ExpandNext(fn: string, b: nat, blk: Block, k: nat)
    requires !IsWrapper(fn) && k < |blk.instrs|
    ensures var pl := BlockPlacement(blk);
            Expand(pl, fn, b, blk.instrs[..k + 1])
            == Expand(pl, fn, b, blk.instrs[..k]) + ProbesCode(TraceProbes(blk.instrs[k]), b, k) + [blk.instrs[k]]
  {
    hide ProbesCode, TraceProbes;
    assert blk.instrs[..k + 1][..k] == blk.instrs[..k];
  }

  lemma ExpandAll(fn: string, b: nat, blk: Block)
    ensures InstrumentBlock(BlockPlacement(blk), fn, b, blk)
            == Block(Expand(BlockPlacement(blk), fn, b, blk.instrs[..|blk.instrs|]), blk.term)
  {
    hide Expand;
    assert blk.instrs[..|blk.instrs|] == blk.instrs;
  }

  lemma OneProbe(inst: Instr, b: nat, k: nat, code: seq<Instr>)
    requires IsFlushCall(inst) ==> inst.args != []
    requires code == if inst.Fence? then ProbeCode(FenceProbe, Temp(b, k, 0))
                     else if inst.Store? then ProbeCode(StoreProbe(inst.addr, inst.size), Temp(b, k, 0))
                     else if IsFlushCall(inst) then ProbeCode(FlushProbe(inst.args[0]), Temp(b, k, 0)) else []
    ensures code == ProbesCode(TraceProbes(inst), b, k)
  {
    var qs := TraceProbes(inst);
    if qs != [] {
      assert qs[..0] == [];
      assert ProbesCode([], b, k) == [];
    }
  }

  /** instrumentFunction: the wrappers are skipped, every other function is rewritten block by block. */
  method TraceFunction(p: Program, fn: string) returns (out: Function, changed: bool)
    requires fn in p && FlushCallsHaveArgument(p)
    ensures out == TracePass(p)[fn] && (changed <==> out != p[fn])
  {
    hide Contains, InstrumentBlock, IsWrapper;
    var f := p[fn];
    if IsWrapper(fn) {
      WrapperUntouched(p, fn);
      return f, false;
    }
    var blocks := [];
    changed := false;
    for b := 0 to |f.blocks|
      invariant |blocks| == b
      invariant forall i :: 0 <= i < b ==> blocks[i] == InstrumentBlock(TracePlacement(p), fn, i, f.blocks[i])
      invariant changed <==> blocks != f.blocks[..b]
    {
      var blk := f.blocks[b];
      assert forall i :: 0 <= i < |blk.instrs| && IsFlushCall(blk.instrs[i]) ==> blk.instrs[i].args != [];
      var (nb, c) := (blk, false);
      nb, c := TraceBlock(fn, b, blk);
      SameBlock(p, fn, b);
      blocks := blocks + [nb];
      assert f.blocks[..b + 1] == f.blocks[..b] + [blk];
      changed := changed || c;
    }
    assert f.blocks[..|f.blocks|] == f.blocks;
    out := f.(blocks := blocks);
    assert out.blocks == TracePass(p)[fn].blocks;
  }

  lemma SameBlock(p: Program, fn: string, b: nat)
    requires fn in p && b < |p[fn].blocks|
    ensures InstrumentBlock(BlockPlacement(p[fn].blocks[b]), fn, b, p[fn].blocks[b])
            == InstrumentBlock(TracePlacement(p), fn, b, p[fn].blocks[b])
  {
    var blk := p[fn].blocks[b];
    SameExpand(p, fn, b, |blk.instrs|);
    assert blk.instrs[..|blk.instrs|] == blk.instrs;
  }

  lemma {:induction false} SameExpand(p: Program, fn: string, b: nat, k: nat)
    requires fn in p && b < |p[fn].blocks| && k <= |p[fn].blocks[b].instrs|
    ensures var instrs := p[fn].blocks[b].instrs;
            Expand(BlockPlacement(p[fn].blocks[b]), fn, b, instrs[..k]) == Expand(TracePlacement(p), fn, b, instrs[..k])
  {
    hide BlockProbes, ProbesCode;
    if k > 0 {
      SameExpand(p, fn, b, k - 1);
      var instrs := p[fn].blocks[b].instrs;
      assert instrs[..k][..k - 1] == instrs[..k - 1];
    }
  }

  lemma WrapperUntouched(p: Program, fn: string)
    requires fn in p && IsWrapper(fn)
    ensures TracePass(p)[fn] == p[fn]
  {
    hide IsWrapper;
    forall b | 0 <= b < |p[fn].blocks|
      ensures InstrumentBlock(TracePlacement(p), fn, b, p[fn].blocks[b]) == p[fn].blocks[b]
    {
      var instrs := p[fn].blocks[b].instrs;
      NoProbesExpand(p, fn, b, instrs);
    }
    assert TracePass(p)[fn].blocks == p[fn].blocks;
  }

  lemma {:induction false} NoProbesExpand(p: Program, fn: string, b: nat, instrs: seq<Instr>)
    requires IsWrapper(fn)
    ensures Expand(TracePlacement(p), fn, b, instrs) == instrs
  {
    hide IsWrapper;
    if instrs != [] {
      NoProbesExpand(p, fn, b, instrs[..|instrs| - 1]);
    }
  }
}
