/** The instrumented program does what the original does, and its trace is what an ideal observer of
    the original run would write. */
module ProbeTheorems {
  import opened Options
  import opened Ir
  import opened Probes

  // ----- code layout -----

  lemma {:induction false} ExpandPrefix(pl: Placement, fn: string, b: nat, instrs: seq<Instr>, i: nat)
    requires i <= |instrs|
    ensures Expand(pl, fn, b, instrs[..i]) <= Expand(pl, fn, b, instrs)
    decreases |instrs|
  {
    if i == |instrs| {
      assert instrs[..i] == instrs;
    } else {
      var n := |instrs| - 1;
      ExpandPrefix(pl, fn, b, instrs[..n], i);
      assert instrs[..n][..i] == instrs[..i];
    }
  }

  /** Where position i of a block ends up: its probes from the offset on, then the instruction. */
  lemma BlockLayout(pl: Placement, fn: string, b: nat, blk: Block, i: nat)
    requires i <= |blk.instrs|
    ensures var (code, off) := (InstrumentBlock(pl, fn, b, blk).instrs, |Expand(pl, fn, b, blk.instrs[..i])|);
            var probes := ProbesCode(pl(fn, b, i), b, i);
            && off + |probes| <= |code| && code[off..off + |probes|] == probes
            && (i < |blk.instrs| ==>
                  && off + |probes| < |code| && code[off + |probes|] == blk.instrs[i]
                  && |Expand(pl, fn, b, blk.instrs[..i + 1])| == off + |probes| + 1)
            && (i == |blk.instrs| ==> off + |probes| == |code|)
  {
    hide ProbesCode;
    var instrs := blk.instrs;
    var (code, before, probes) := (InstrumentBlock(pl, fn, b, blk).instrs, Expand(pl, fn, b, instrs[..i]),
                                                   ProbesCode(pl(fn, b, i), b, i));
    if i < |instrs| {
      ExpandPrefix(pl, fn, b, instrs, i + 1);
      assert instrs[..i + 1][..i] == instrs[..i];
      var through := Expand(pl, fn, b, instrs[..i + 1]);
      assert through == before + probes + [instrs[i]];
      assert through <= code;
      Segment(code, before, probes, [instrs[i]] + code[|through|..]);
    } else {
      assert instrs[..i] == instrs;
      Segment(code, before, probes, []);
    }
  }

  lemma Segment(code: seq<Instr>, a: seq<Instr>, b: seq<Instr>, c: seq<Instr>)
    requires code == a + b + c
    ensures |a| + |b| <= |code| && code[|a|..|a| + |b|] == b && code[|a| + |b|..] == c
  {}

  // ----- running inserted code -----

  /** The code ahead of t's control point starts with `code`. */
  ghost predicate Ahead<M>(p: Program, t: State<M>, code: seq<Instr>) {
    && !Halted(p, t)
    && var (instrs, pc) := (CurrentBlock(p, t).instrs, Top(t).pc);
       pc + |code| <= |instrs| && instrs[pc..pc + |code|] == code
  }

  /** t' is t with control n instructions further, only temporaries changed, and recs traced. */
  ghost predicate Advanced<M>(t: State<M>, t': State<M>, n: nat, recs: seq<Record>) {
    && t.stack != [] && |t'.stack| == |t.stack| && t'.stack[..|t.stack| - 1] == t.stack[..|t.stack| - 1]
    && t'.mem == t.mem && t'.result == t.result && t'.log == t.log + recs
    && Top(t').fn == Top(t).fn && Top(t').block == Top(t).block && Top(t').ret == Top(t).ret
    && Top(t').pc == Top(t).pc + n && SameUser(Top(t).regs, Top(t').regs)
  }

  lemma AdvancedTrans<M>(t: State<M>, u: State<M>, v: State<M>, m: nat, n: nat, a: seq<Record>, b: seq<Record>)
    requires Advanced(t, u, m, a) && Advanced(u, v, n, b)
    ensures Advanced(t, v, m + n, a + b)
  {}

  lemma AheadStep<M>(p: Program, env: Env<M>, t: State<M>, i: Instr)
    requires Ahead(p, t, [i])
    ensures Step(p, env, t) == Exec(p, env, t, i)
  {
    var (instrs, pc) := (CurrentBlock(p, t).instrs, Top(t).pc);
    assert instrs[pc..pc + 1][0] == instrs[pc];
  }

  lemma AheadRest<M>(p: Program, t: State<M>, t': State<M>, a: seq<Instr>, b: seq<Instr>, recs: seq<Record>)
    requires Ahead(p, t, a + b) && Advanced(t, t', |a|, recs)
    ensures Ahead(p, t, a) && Ahead(p, t', b)
  {
    Slices(CurrentBlock(p, t).instrs, Top(t).pc, a, b);
  }

  lemma Slices(code: seq<Instr>, pc: nat, a: seq<Instr>, b: seq<Instr>)
    requires pc + |a + b| <= |code| && code[pc..pc + |a + b|] == a + b
    ensures code[pc..pc + |a|] == a && code[pc + |a|..pc + |a| + |b|] == b
  {
    var whole := code[pc..pc + |a + b|];
    assert code[pc..pc + |a|] == whole[..|a|];
    assert code[pc + |a|..pc + |a| + |b|] == whole[|a|..];
  }

  lemma AheadFirst<M>(p: Program, t: State<M>, a: seq<Instr>, b: seq<Instr>)
    requires Ahead(p, t, a + b)
    ensures Ahead(p, t, a)
  {
    Slices(CurrentBlock(p, t).instrs, Top(t).pc, a, b);
  }

  lemma EvalAgrees(a: Regs, b: Regs, o: Operand)
    requires SameUser(a, b) && PlainOperand(o)
    ensures Eval(a, o) == Eval(b, o)
  {}

  lemma WrapperCallStep<M>(p: Program, env: Env<M>, t: State<M>, name: string, args: seq<Operand>)
    requires Ahead(p, t, [Call(None, Direct(name), args)]) && IsWrapper(name)
    ensures Advanced(t, Step(p, env, t), 1, [WrapperRecord(name, EvalAll(Top(t).regs, args))])
  {
    AheadStep(p, env, t, Call(None, Direct(name), args));
  }

  lemma CastStep<M>(p: Program, env: Env<M>, t: State<M>, d: Register, o: Operand)
    requires Ahead(p, t, [PtrToInt(d, o)]) && d.Temp?
    ensures Advanced(t, Step(p, env, t), 1, [])
    ensures Eval(Top(Step(p, env, t)).regs, Reg(d)) == Eval(Top(t).regs, o)
  {
    AheadStep(p, env, t, PtrToInt(d, o));
  }

  lemma RunOne<M>(p: Program, env: Env<M>, t: State<M>)
    ensures Run(p, env, t, 1) == Step(p, env, t)
  {
    assert Run(p, env, t, 0) == t;
  }

  /** A value-reporting probe: the cast, if any, then the wrapper call with the operand's value. */
  lemma ValueProbeRuns<M>(p: Program, env: Env<M>, t: State<M>, o: Operand, d: Register, name: string,
                          more: seq<Operand>)
    requires d.Temp? && IsWrapper(name) && PlainOperand(o)
    requires forall i :: 0 <= i < |more| ==> more[i].Const?
    requires Ahead(p, t, CastCode(o, d).0 + [Call(None, Direct(name), [CastCode(o, d).1] + more)])
    ensures var n := |CastCode(o, d).0| + 1;
            Advanced(t, Run(p, env, t, n), n,
                     [WrapperRecord(name, [Eval(Top(t).regs, o)] + EvalAll(Top(t).regs, more))])
  {
    hide Step, Exec, Run, WrapperRecord, IsWrapper, Eval;
    var (cast, v) := CastCode(o, d);
    var (args, regs) := ([v] + more, Top(t).regs);
    var call := Call(None, Direct(name), args);
    RunOne(p, env, t);
    if o.Const? {
      assert cast + [call] == [call];
      WrapperCallStep(p, env, t, name, args);
      ArgValues(regs, regs, v, o, more);
    } else {
      AheadFirst(p, t, cast, [call]);
      CastStep(p, env, t, d, o);
      var u := Step(p, env, t);
      AheadRest(p, t, u, cast, [call], []);
      WrapperCallStep(p, env, u, name, args);
      ArgValues(regs, Top(u).regs, v, o, more);
      RunOne(p, env, u);
      RunAdd(p, env, t, 1, 1);
      AdvancedTrans(t, u, Step(p, env, u), 1, 1, [], [WrapperRecord(name, EvalAll(Top(u).regs, args))]);
      assert [] + [WrapperRecord(name, EvalAll(Top(u).regs, args))] ==
               [WrapperRecord(name, EvalAll(Top(u).regs, args))];
    }
  }

  lemma ArgValues(a: Regs, b: Regs, v: Operand, o: Operand, more: seq<Operand>)
    requires Eval(b, v) == Eval(a, o) && forall i :: 0 <= i < |more| ==> more[i].Const?
    ensures EvalAll(b, [v] + more) == [Eval(a, o)] + EvalAll(a, more)
  {}

  lemma ProbeRuns<M>(p: Program, env: Env<M>, t: State<M>, q: Probe, d: Register)
    requires d.Temp? && PlainProbe(q) && Ahead(p, t, ProbeCode(q, d))
    ensures Advanced(t, Run(p, env, t, |ProbeCode(q, d)|), |ProbeCode(q, d)|, [Report(q, Top(t).regs)])
  {
    hide Step, Exec, Run, WrapperRecord, IsWrapper, Advanced;
    var regs := Top(t).regs;
    match q
    case FenceProbe =>
      WrapperRecords(EvalAll(regs, []));
      WrapperCallStep(p, env, t, FENCE_WRAPPER, []);
      RunOne(p, env, t);
    case StoreProbe(a, size) =>
      var v := CastCode(a, d).1;
      assert [v] + [Const(size)] == [v, Const(size)];
      WrapperRecords([Eval(regs, a)] + EvalAll(regs, [Const(size)]));
      ValueProbeRuns(p, env, t, a, d, STORE_WRAPPER, [Const(size)]);
    case FlushProbe(a) =>
      var v := CastCode(a, d).1;
      assert [v] + [] == [v];
      WrapperRecords([Eval(regs, a)] + EvalAll(regs, []));
      ValueProbeRuns(p, env, t, a, d, FLUSH_WRAPPER, []);
  }

  /** All probes before one position run through, reporting in order and touching nothing else. */
  lemma {:induction false} ProbesRun<M>(p: Program, env: Env<M>, t: State<M>, qs: seq<Probe>, b: nat, pos: nat)
    requires (forall j :: 0 <= j < |qs| ==> PlainProbe(qs[j])) && Ahead(p, t, ProbesCode(qs, b, pos))
    ensures var n := |ProbesCode(qs, b, pos)|;
            Advanced(t, Run(p, env, t, n), n, Reports(qs, Top(t).regs))
  {
    hide Step, Exec, ProbeCode;
    if qs == [] {
      assert Run(p, env, t, 0) == t;
      assert t.log + [] == t.log;
    } else {
      var k := |qs| - 1;
      var (pre, d) := (ProbesCode(qs[..k], b, pos), Temp(b, pos, k));
      var last := ProbeCode(qs[k], d);
      AheadFirst(p, t, pre, last);
      ProbesRun(p, env, t, qs[..k], b, pos);
      var u := Run(p, env, t, |pre|);
      AheadRest(p, t, u, pre, last, Reports(qs[..k], Top(t).regs));
      ProbeRuns(p, env, u, qs[k], d);
      RunAdd(p, env, t, |pre|, |last|);
      AdvancedTrans(t, u, Run(p, env, u, |last|), |pre|, |last|, Reports(qs[..k], Top(t).regs),
                    [Report(qs[k], Top(u).regs)]);
      ReportAgrees(qs[k], Top(t).regs, Top(u).regs);
      assert Reports(qs, Top(t).regs) == Reports(qs[..k], Top(t).regs) + [Report(qs[k], Top(t).regs)];
    }
  }

  lemma ReportAgrees(q: Probe, a: Regs, b: Regs)
    requires SameUser(a, b) && PlainProbe(q)
    ensures Report(q, a) == Report(q, b)
  {
    if !q.FenceProbe? {
      EvalAgrees(a, b, q.addr);
    }
  }

  // ----- one step of the original -----

  lemma EvalAllAgrees(a: Regs, b: Regs, os: seq<Operand>)
    requires SameUser(a, b) && forall j :: 0 <= j < |os| ==> PlainOperand(os[j])
    ensures EvalAll(a, os) == EvalAll(b, os)
  {
    forall j | 0 <= j < |os|
      ensures Eval(a, os[j]) == Eval(b, os[j])
    {
      EvalAgrees(a, b, os[j]);
    }
  }

  lemma PushRelated(pl: Placement, p: Program, a: seq<Frame>, b: seq<Frame>, f: Frame, g: Frame)
    requires StacksRelated(pl, p, a, b) && RelatedFrame(pl, p, f, g)
    ensures StacksRelated(pl, p, a + [f], b + [g])
  {}

  /** The states agree except for the trace and the control points of their top frames. */
  ghost predicate Twins<M>(pl: Placement, p: Program, s: State<M>, t: State<M>) {
    && s.stack != [] && |s.stack| == |t.stack| && s.mem == t.mem && s.result == t.result
    && StacksRelated(pl, p, s.stack[..|s.stack| - 1], t.stack[..|s.stack| - 1])
    && var (f, g) := (Top(s), Top(t));
       && f.fn == g.fn && f.block == g.block && f.ret == g.ret && SameUser(f.regs, g.regs)
       && (f.ret.Some? ==> f.ret.value.User?)
  }

  /** The record an instruction itself writes: only a wrapper call does. */
  function InstrRecord<M>(env: Env<M>, regs: Regs, i: Instr): seq<Record> {
    if i.Call? && IsWrapper(CalleeName(env, regs, i.callee))
    then [WrapperRecord(CalleeName(env, regs, i.callee), EvalAll(regs, i.args))]
    else []
  }

  /** Both tops stand before the same instruction, and the second will land on the right offset. */
  ghost predicate Aligned<M>(pl: Placement, p: Program, s: State<M>, t: State<M>) {
    && Twins(pl, p, s, t) && !Halted(p, s) && Top(s).pc < |CurrentBlock(p, s).instrs|
    && Top(t).pc + 1 == Offset(pl, p, Top(s).(pc := Top(s).pc + 1))
  }

  lemma NextRelated<M>(pl: Placement, p: Program, s: State<M>, t: State<M>, a: Regs, b: Regs)
    requires Aligned(pl, p, s, t) && SameUser(a, b)
    ensures RelatedFrame(pl, p, Top(s).(pc := Top(s).pc + 1, regs := a), Top(t).(pc := Top(t).pc + 1, regs := b))
  {
    var f := Top(s).(pc := Top(s).pc + 1);
    assert Offset(pl, p, f.(regs := a)) == Offset(pl, p, f);
  }

  /** Executing the same plain instruction from aligned states. */
  lemma ExecTwins<M>(pl: Placement, p: Program, env: Env<M>, s: State<M>, t: State<M>, i: Instr)
    requires PlainProgram(p) && Aligned(pl, p, s, t) && PlainInstr(i)
    ensures var (s', t') := (Exec(p, env, s, i), Exec(Instrument(pl, p), env, t, i));
            && Related(pl, p, s', t')
            && s'.log == s.log + InstrRecord(env, Top(s).regs, i) && t'.log == t.log + InstrRecord(env, Top(s).regs, i)
  {
    hide Offset, Instrument, RelatedFrame, StacksRelated;
    var (f, g) := (Top(s), Top(t));
    var (a, b) := (s.stack[..|s.stack| - 1], t.stack[..|t.stack| - 1]);
    var (s', t') := (Exec(p, env, s, i), Exec(Instrument(pl, p), env, t, i));
    if i.Call? {
      EvalAllAgrees(f.regs, g.regs, i.args);
      if i.callee.Indirect? {
        EvalAgrees(f.regs, g.regs, i.callee.fn);
      }
      CallTwins(pl, p, env, s, t, i);
    } else {
      match i {
        case Store(x, v, _) =>
          EvalAgrees(f.regs, g.regs, x);
          EvalAgrees(f.regs, g.regs, v);
        case Fence =>
        case Load(_, x) =>
          EvalAgrees(f.regs, g.regs, x);
        case Compute(_, _, args) =>
          EvalAllAgrees(f.regs, g.regs, args);
        case PtrToInt(_, x) =>
          EvalAgrees(f.regs, g.regs, x);
        case Modify(_, x, v) =>
          EvalAgrees(f.regs, g.regs, x);
          EvalAgrees(f.regs, g.regs, v);
      }
      NextRelated(pl, p, s, t, Top(s').regs, Top(t').regs);
      PushRelated(pl, p, a, b, Top(s'), Top(t'));
    }
  }

  lemma CallTwins<M>(pl: Placement, p: Program, env: Env<M>, s: State<M>, t: State<M>, i: Instr)
    requires PlainProgram(p) && Aligned(pl, p, s, t) && PlainInstr(i) && i.Call?
    requires EvalAll(Top(s).regs, i.args) == EvalAll(Top(t).regs, i.args)
    requires CalleeName(env, Top(s).regs, i.callee) == CalleeName(env, Top(t).regs, i.callee)
    ensures var (s', t') := (Exec(p, env, s, i), Exec(Instrument(pl, p), env, t, i));
            && Related(pl, p, s', t')
            && s'.log == s.log + InstrRecord(env, Top(s).regs, i) && t'.log == t.log + InstrRecord(env, Top(s).regs, i)
  {
    hide Offset, RelatedFrame, StacksRelated, Bind;
    var (f, g) := (Top(s), Top(t));
    var (a, b) := (s.stack[..|s.stack| - 1], t.stack[..|t.stack| - 1]);
    var (name, vs) := (CalleeName(env, f.regs, i.callee), EvalAll(f.regs, i.args));
    var (f', g') := (f.(pc := f.pc + 1), g.(pc := g.pc + 1));
    if IsWrapper(name) {
      NextRelated(pl, p, s, t, f.regs, g.regs);
      PushRelated(pl, p, a, b, f', g');
    } else if name in p {
      NextRelated(pl, p, s, t, f.regs, g.regs);
      PushRelated(pl, p, a, b, f', g');
      var entry := Frame(name, 0, 0, Bind(p[name].params, vs), i.ret);
      EntryRelated(pl, p, entry);
      PushRelated(pl, p, a + [f'], b + [g'], entry, entry);
    } else {
      var r := env.external(name, vs, s.mem).1;
      NextRelated(pl, p, s, t, SetRet(f.regs, i.ret, r), SetRet(g.regs, i.ret, r));
      PushRelated(pl, p, a, b, f'.(regs := SetRet(f.regs, i.ret, r)), g'.(regs := SetRet(g.regs, i.ret, r)));
    }
  }

  lemma EntryRelated(pl: Placement, p: Program, f: Frame)
    requires f.pc == 0 && (f.ret.Some? ==> f.ret.value.User?)
    ensures RelatedFrame(pl, p, f, f)
  {
    if f.fn in p && f.block < |p[f.fn].blocks| {
      var instrs := p[f.fn].blocks[f.block].instrs;
      assert instrs[..0] == [];
    }
  }

  lemma TerminateTwins<M>(pl: Placement, p: Program, s: State<M>, t: State<M>, term: Terminator)
    requires Twins(pl, p, s, t) && PlainTerm(term)
    ensures Related(pl, p, Terminate(s, term), Terminate(t, term))
    ensures Terminate(s, term).log == s.log && Terminate(t, term).log == t.log
  {
    hide Offset, RelatedFrame, StacksRelated;
    var (f, g) := (Top(s), Top(t));
    var (a, b) := (s.stack[..|s.stack| - 1], t.stack[..|t.stack| - 1]);
    match term
    case Jump(x) =>
      GotoRelated(pl, p, f, g, x);
      PushRelated(pl, p, a, b, f.(block := x, pc := 0), g.(block := x, pc := 0));
    case Branch(c, yes, no) =>
      EvalAgrees(f.regs, g.regs, c);
      var x := if Eval(f.regs, c) != 0 then yes else no;
      GotoRelated(pl, p, f, g, x);
      PushRelated(pl, p, a, b, f.(block := x, pc := 0), g.(block := x, pc := 0));
    case Return(v) =>
      EvalAgrees(f.regs, g.regs, v);
      ReturnRelated(pl, p, a, b, f.ret, Eval(f.regs, v));
  }

  lemma GotoRelated(pl: Placement, p: Program, f: Frame, g: Frame, x: nat)
    requires f.fn == g.fn && f.ret == g.ret && SameUser(f.regs, g.regs) && (f.ret.Some? ==> f.ret.value.User?)
    ensures RelatedFrame(pl, p, f.(block := x, pc := 0), g.(block := x, pc := 0))
  {
    EntryRelated(pl, p, f.(block := x, pc := 0));
  }

  lemma ReturnRelated(pl: Placement, p: Program, a: seq<Frame>, b: seq<Frame>, ret: Option<Register>, r: int)
    requires StacksRelated(pl, p, a, b) && (ret.Some? ==> ret.value.User?)
    ensures a != [] ==>
              var (n, f, g) := (|a| - 1, a[|a| - 1], b[|a| - 1]);
              StacksRelated(pl, p, a[..n] + [f.(regs := SetRet(f.regs, ret, r))],
                            b[..n] + [g.(regs := SetRet(g.regs, ret, r))])
    ensures a == [] ==> b == [] && StacksRelated(pl, p, [], [])
  {
    if a != [] {
      var n := |a| - 1;
      var (f, g) := (a[n], b[n]);
      var f' := f.(regs := SetRet(f.regs, ret, r));
      assert RelatedFrame(pl, p, f, g);
      if f.fn in p && f.block < |p[f.fn].blocks| {
        assert Offset(pl, p, f') == Offset(pl, p, f);
      }
      PushRelated(pl, p, a[..n], b[..n], f', g.(regs := SetRet(g.regs, ret, r)));
    }
  }

  // ----- whole runs -----

  /** How many instrumented steps one original step takes. */
  function Cost<M>(pl: Placement, p: Program, s: State<M>): nat {
    1 + ProbeSteps(pl, p, s)
  }

  function ProbeSteps<M>(pl: Placement, p: Program, s: State<M>): nat {
    if Halted(p, s) then 0
    else |ProbesCode(pl(Top(s).fn, Top(s).block, Top(s).pc), Top(s).block, Top(s).pc)|
  }

  function Clock<M>(pl: Placement, p: Program, env: Env<M>, s: State<M>, k: nat): nat {
    if k == 0 then 0 else Clock(pl, p, env, s, k - 1) + Cost(pl, p, Run(p, env, s, k - 1))
  }

  lemma HaltedAgrees<M>(pl: Placement, p: Program, s: State<M>, t: State<M>)
    requires Related(pl, p, s, t)
    ensures Halted(p, s) <==> Halted(Instrument(pl, p), t)
    ensures !Halted(p, s) ==>
              CurrentBlock(Instrument(pl, p), t) == InstrumentBlock(pl, Top(s).fn, Top(s).block, CurrentBlock(p, s))
  {
    if s.stack != [] {
      assert RelatedFrame(pl, p, Top(s), Top(t));
    }
  }

  /** The probes of the current position lie ahead in the instrumented program. */
  lemma ProbesAhead<M>(pl: Placement, p: Program, s: State<M>, t: State<M>)
    requires Related(pl, p, s, t) && !Halted(p, s)
    ensures Top(s).pc <= |CurrentBlock(p, s).instrs|
    ensures Ahead(Instrument(pl, p), t, ProbesCode(pl(Top(s).fn, Top(s).block, Top(s).pc), Top(s).block, Top(s).pc))
  {
    HaltedAgrees(pl, p, s, t);
    assert RelatedFrame(pl, p, Top(s), Top(t));
    BlockLayout(pl, Top(s).fn, Top(s).block, CurrentBlock(p, s), Top(s).pc);
  }

  ghost predicate ProbesArePlain<M>(pl: Placement, p: Program, s: State<M>)
    requires !Halted(p, s)
  {
    var qs := pl(Top(s).fn, Top(s).block, Top(s).pc);
    forall j :: 0 <= j < |qs| ==> PlainProbe(qs[j])
  }

  /** After the probes, both machines stand before the same instruction or terminator. */
  lemma AfterProbes<M>(pl: Placement, p: Program, env: Env<M>, s: State<M>, t: State<M>)
    requires Related(pl, p, s, t) && !Halted(p, s) && ProbesArePlain(pl, p, s)
    ensures var u := Run(Instrument(pl, p), env, t, ProbeSteps(pl, p, s));
            && Twins(pl, p, s, u) && !Halted(Instrument(pl, p), u) && u.log == t.log + Due(pl, p, s)
            && var code := CurrentBlock(Instrument(pl, p), u);
               if Top(s).pc < |CurrentBlock(p, s).instrs|
               then Aligned(pl, p, s, u) && Ahead(Instrument(pl, p), u, [CurrentBlock(p, s).instrs[Top(s).pc]])
               else Top(u).pc == |code.instrs| && code.term == CurrentBlock(p, s).term
  {
    hide Step, ProbesCode, Expand, Report, PlainOperand;
    var (f, g, ip) := (Top(s), Top(t), Instrument(pl, p));
    var qs := pl(f.fn, f.block, f.pc);
    ProbesAhead(pl, p, s, t);
    ProbesRun(ip, env, t, qs, f.block, f.pc);
    var u := Run(ip, env, t, ProbeSteps(pl, p, s));
    assert RelatedFrame(pl, p, f, g);
    HaltedAgrees(pl, p, s, t);
    BlockLayout(pl, f.fn, f.block, CurrentBlock(p, s), f.pc);
    ReportsAgree(qs, f.regs, g.regs);
    assert StacksRelated(pl, p, s.stack[..|s.stack| - 1], t.stack[..|s.stack| - 1]);
    if f.pc < |CurrentBlock(p, s).instrs| {
      var (code, pc) := (CurrentBlock(ip, u).instrs, Top(u).pc);
      assert code[pc..pc + 1] == [code[pc]];
    }
  }

  lemma ReportsAgree(qs: seq<Probe>, a: Regs, b: Regs)
    requires SameUser(a, b) && forall j :: 0 <= j < |qs| ==> PlainProbe(qs[j])
    ensures Reports(qs, a) == Reports(qs, b)
  {
    forall j | 0 <= j < |qs|
      ensures Report(qs[j], a) == Report(qs[j], b)
    {
      ReportAgrees(qs[j], a, b);
    }
  }

  /** One original step is matched by its probes and the same step. */
  lemma StepSim<M>(pl: Placement, p: Program, env: Env<M>, s: State<M>, t: State<M>)
    requires PlainProgram(p) && PlainPlacement(pl, p) && Related(pl, p, s, t)
    ensures var t' := Run(Instrument(pl, p), env, t, Cost(pl, p, s));
            Related(pl, p, Step(p, env, s), t') && t'.log == t.log + Due(pl, p, s) + Own(p, env, s)
  {
    hide Exec, Terminate, Related, Instrument, PlainInstr, PlainTerm, Offset;
    var ip := Instrument(pl, p);
    HaltedAgrees(pl, p, s, t);
    if Halted(p, s) {
      RunOne(ip, env, t);
      assert t.log + [] + [] == t.log;
    } else {
      var (f, blk) := (Top(s), CurrentBlock(p, s));
      ProbesAhead(pl, p, s, t);
      PlacedPlain(pl, p, s);
      AfterProbes(pl, p, env, s, t);
      var u := Run(ip, env, t, ProbeSteps(pl, p, s));
      RunAdd(ip, env, t, ProbeSteps(pl, p, s), 1);
      RunOne(ip, env, u);
      assert PlainFunction(p[f.fn]) && PlainBlock(blk);
      if f.pc < |blk.instrs| {
        AheadStep(ip, env, u, blk.instrs[f.pc]);
        ExecTwins(pl, p, env, s, u, blk.instrs[f.pc]);
      } else {
        TerminateTwins(pl, p, s, u, blk.term);
        assert u.log + [] == u.log;
      }
    }
  }

  /** Simulation: after the instrumented steps that correspond to k original steps, the two machines
      agree on stack, program registers, memory and result, and the trace is what was observed. */
  lemma {:induction false} Simulates<M>(pl: Placement, p: Program, env: Env<M>, s: State<M>, t: State<M>, k: nat)
    requires PlainProgram(p) && PlainPlacement(pl, p) && Related(pl, p, s, t)
    ensures var t' := Run(Instrument(pl, p), env, t, Clock(pl, p, env, s, k));
            Related(pl, p, Run(p, env, s, k), t') && t'.log == t.log + Observed(pl, p, env, s, k)
  {
    hide Related, Step, Instrument, PlainProgram, PlainPlacement, Due, Own, Cost;
    if k == 0 {
      assert t.log + [] == t.log;
    } else {
      Simulates(pl, p, env, s, t, k - 1);
      SimulatesNext(pl, p, env, s, t, k - 1);
    }
  }

  lemma SimulatesNext<M>(pl: Placement, p: Program, env: Env<M>, s: State<M>, t: State<M>, k: nat)
    requires PlainProgram(p) && PlainPlacement(pl, p)
    requires Related(pl, p, Run(p, env, s, k), Run(Instrument(pl, p), env, t, Clock(pl, p, env, s, k)))
    ensures var ip := Instrument(pl, p);
            var (sk, n) := (Run(p, env, s, k), Clock(pl, p, env, s, k));
            var t' := Run(ip, env, t, n + Cost(pl, p, sk));
            Related(pl, p, Step(p, env, sk), t') && t'.log == Run(ip, env, t, n).log + Due(pl, p, sk) + Own(p, env, sk)
  {
    hide Related, Step, Instrument, PlainProgram, PlainPlacement, Due, Own, Cost, Run, Clock;
    var (sk, n) := (Run(p, env, s, k), Clock(pl, p, env, s, k));
    StepSim(pl, p, env, sk, Run(Instrument(pl, p), env, t, n));
    RunAdd(Instrument(pl, p), env, t, n, Cost(pl, p, sk));
  }

  // ----- every instrumented state, not only the matching ones -----

  /** Part way through the probes of one position: a prefix of the reports, nothing else changed. */
  lemma {:induction false} ProbesPartly<M>(p: Program, env: Env<M>, t: State<M>, qs: seq<Probe>, b: nat, pos: nat,
                                           j: nat)
    requires (forall i :: 0 <= i < |qs| ==> PlainProbe(qs[i])) && Ahead(p, t, ProbesCode(qs, b, pos))
    requires j <= |ProbesCode(qs, b, pos)|
    ensures exists i :: 0 <= i <= |qs| && Advanced(t, Run(p, env, t, j), j, Reports(qs, Top(t).regs)[..i])
    decreases |qs|
  {
    hide Step, Exec, ProbeCode, PlainProbe, Report;
    var regs := Top(t).regs;
    if j == |ProbesCode(qs, b, pos)| {
      ProbesRun(p, env, t, qs, b, pos);
      assert Reports(qs, regs)[..|qs|] == Reports(qs, regs);
    } else {
      var k := |qs| - 1;
      var (pre, d) := (ProbesCode(qs[..k], b, pos), Temp(b, pos, k));
      var last := ProbeCode(qs[k], d);
      AheadFirst(p, t, pre, last);
      if j <= |pre| {
        ProbesPartly(p, env, t, qs[..k], b, pos, j);
        var i :| 0 <= i <= k && Advanced(t, Run(p, env, t, j), j, Reports(qs[..k], regs)[..i]);
        assert Reports(qs[..k], regs)[..i] == Reports(qs, regs)[..i];
      } else {
        ProbesRun(p, env, t, qs[..k], b, pos);
        var u := Run(p, env, t, |pre|);
        AheadRest(p, t, u, pre, last, Reports(qs[..k], regs));
        CastOnly(p, env, u, qs[k], d, j - |pre|);
        RunAdd(p, env, t, |pre|, j - |pre|);
        AdvancedTrans(t, u, Run(p, env, u, j - |pre|), |pre|, j - |pre|, Reports(qs[..k], regs), []);
        assert Reports(qs[..k], regs) + [] == Reports(qs, regs)[..k];
      }
    }
  }

  lemma CastOnly<M>(p: Program, env: Env<M>, t: State<M>, q: Probe, d: Register, j: nat)
    requires d.Temp? && Ahead(p, t, ProbeCode(q, d)) && 0 < j < |ProbeCode(q, d)|
    ensures Advanced(t, Run(p, env, t, j), j, [])
  {
    var cast := ProbeCode(q, d)[0];
    assert ProbeCode(q, d) == [cast] + ProbeCode(q, d)[1..];
    AheadFirst(p, t, [cast], ProbeCode(q, d)[1..]);
    CastStep(p, env, t, d, q.addr);
    RunOne(p, env, t);
  }

  lemma {:induction false} ClockCovers<M>(pl: Placement, p: Program, env: Env<M>, s: State<M>, m: nat)
    ensures exists k :: 0 <= k <= m && Within(pl, p, env, s, k, m)
  {
    hide Run, ProbeSteps;
    if m == 0 {
      assert Within(pl, p, env, s, 0, 0);
    } else {
      ClockCovers(pl, p, env, s, m - 1);
      var k :| 0 <= k <= m - 1 && Within(pl, p, env, s, k, m - 1);
      assert Within(pl, p, env, s, k, m) || Within(pl, p, env, s, k + 1, m);
    }
  }

  /** Instrumented step m falls in the stretch that belongs to original step k. */
  predicate Within<M>(pl: Placement, p: Program, env: Env<M>, s: State<M>, k: nat, m: nat) {
    Clock(pl, p, env, s, k) <= m < Clock(pl, p, env, s, k + 1)
  }

  /** No state of the instrumented run is foreign to the original run: at every step its memory and
      result are those of some original state, and its trace is what was observed so far plus a
      prefix of what is due there. */
  lemma NothingElseHappens<M>(pl: Placement, p: Program, env: Env<M>, s: State<M>, t: State<M>, m: nat)
    requires PlainProgram(p) && PlainPlacement(pl, p) && Related(pl, p, s, t)
    ensures exists k, i :: 0 <= k <= m && Matches(pl, p, env, s, t, m, k, i)
  {
    hide Related, Step, PlainProgram, Due, Own, PlainProbe;
    ClockCovers(pl, p, env, s, m);
    var k :| 0 <= k <= m && Within(pl, p, env, s, k, m);
    Simulates(pl, p, env, s, t, k);
    var ip := Instrument(pl, p);
    var (sk, tk) := (Run(p, env, s, k), Run(ip, env, t, Clock(pl, p, env, s, k)));
    var j := m - Clock(pl, p, env, s, k);
    assert Clock(pl, p, env, s, k + 1) == Clock(pl, p, env, s, k) + Cost(pl, p, sk);
    RunAdd(ip, env, t, Clock(pl, p, env, s, k), j);
    var i := PartwayMatches(pl, p, env, sk, tk, j);
    assert Matches(pl, p, env, s, t, m, k, i);
  }

  ghost predicate Matches<M>(pl: Placement, p: Program, env: Env<M>, s: State<M>, t: State<M>, m: nat, k: nat, i: nat) {
    var (sk, tm) := (Run(p, env, s, k), Run(Instrument(pl, p), env, t, m));
    && i <= |Due(pl, p, sk)| && tm.mem == sk.mem && tm.result == sk.result
    && tm.log == t.log + Observed(pl, p, env, s, k) + Due(pl, p, sk)[..i]
  }

  lemma PartwayMatches<M>(pl: Placement, p: Program, env: Env<M>, s: State<M>, t: State<M>, j: nat) returns (i: nat)
    requires PlainPlacement(pl, p) && Related(pl, p, s, t) && j < Cost(pl, p, s)
    ensures var u := Run(Instrument(pl, p), env, t, j);
            && i <= |Due(pl, p, s)| && u.mem == s.mem && u.result == s.result && u.log == t.log + Due(pl, p, s)[..i]
  {
    hide Step, ProbesCode, Report, PlainOperand;
    if Halted(p, s) {
      i := 0;
      assert t.log + [] == t.log;
    } else {
      var f := Top(s);
      var qs := pl(f.fn, f.block, f.pc);
      ProbesAhead(pl, p, s, t);
      ProbesPartly(Instrument(pl, p), env, t, qs, f.block, f.pc, j);
      i :| 0 <= i <= |qs| && Advanced(t, Run(Instrument(pl, p), env, t, j), j, Reports(qs, Top(t).regs)[..i]);
      assert RelatedFrame(pl, p, f, Top(t));
      ReportsAgree(qs, f.regs, Top(t).regs);
    }
  }

  /** Each due record is written just before its instruction: with all of them written and memory
      untouched, the next instruction of the instrumented run is the original's next instruction. */
  lemma RecordedJustBefore<M>(pl: Placement, p: Program, env: Env<M>, s: State<M>, t: State<M>, k: nat)
    requires PlainProgram(p) && PlainPlacement(pl, p) && Related(pl, p, s, t) && !Halted(p, Run(p, env, s, k))
    ensures var (sk, ip) := (Run(p, env, s, k), Instrument(pl, p));
            var u := Run(ip, env, t, Clock(pl, p, env, s, k + 1) - 1);
            && u.log == t.log + Observed(pl, p, env, s, k) + Due(pl, p, sk) && u.mem == sk.mem
            && !Halted(ip, u)
            && (Top(sk).pc < |CurrentBlock(p, sk).instrs| ==> Ahead(ip, u, [CurrentBlock(p, sk).instrs[Top(sk).pc]]))
  {
    hide Related, Step, PlainProgram, Due, PlainProbe, Aligned, Ahead, CurrentBlock, Run, Observed, InstrumentFunction;
    hide ProbeSteps, StacksRelated;
    Simulates(pl, p, env, s, t, k);
    var ip := Instrument(pl, p);
    var (sk, tk) := (Run(p, env, s, k), Run(ip, env, t, Clock(pl, p, env, s, k)));
    assert Clock(pl, p, env, s, k + 1) == Clock(pl, p, env, s, k) + Cost(pl, p, sk);
    RunAdd(ip, env, t, Clock(pl, p, env, s, k), ProbeSteps(pl, p, sk));
    ProbesAhead(pl, p, sk, tk);
    PlacedPlain(pl, p, sk);
    AfterProbes(pl, p, env, sk, tk);
  }

  lemma PlacedPlain<M>(pl: Placement, p: Program, s: State<M>)
    requires PlainPlacement(pl, p) && !Halted(p, s) && Top(s).pc <= |CurrentBlock(p, s).instrs|
    ensures ProbesArePlain(pl, p, s)
  {
    hide PlainProbe;
  }
}
