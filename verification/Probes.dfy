/** Inserting trace calls into a program, wherever a placement says, changes nothing but the trace.

    The theorems hold for every placement of probes before instructions and terminators; the passes
    of the repository are particular placements (module FencePass).
 */
module Probes {
  import opened Options
  import opened Ir

  /** A trace call to insert: the value it reports, if any. */
  datatype Probe = StoreProbe(addr: Operand, size: nat) | FenceProbe | FlushProbe(addr: Operand)

  /** Which probes go before position `pos` of block `block` of function `fn`; the terminator's
      position is the number of instructions. */
  type Placement = (string, nat, nat) -> seq<Probe>

  predicate PlainProbe(q: Probe) {
    q.FenceProbe? || PlainOperand(q.addr)
  }

  predicate PlainPlacement(pl: Placement, p: Program) {
    forall fn, b, i, j ::
      fn in p && 0 <= b < |p[fn].blocks| && 0 <= i <= |p[fn].blocks[b].instrs| && 0 <= j < |pl(fn, b, i)|
      ==> PlainProbe(pl(fn, b, i)[j])
  }

  // ----- the inserted code -----

  /** CreatePointerCast: a constant is folded, anything else gets a conversion instruction. */
  function CastCode(o: Operand, t: Register): (r: (seq<Instr>, Operand)) {
    if o.Const? then ([], o) else ([PtrToInt(t, o)], Reg(t))
  }

  function ProbeCode(q: Probe, t: Register): (code: seq<Instr>) {
    match q
    case FenceProbe => [Call(None, Direct(FENCE_WRAPPER), [])]
    case StoreProbe(a, size) =>
      var (cast, v) := CastCode(a, t);
      cast + [Call(None, Direct(STORE_WRAPPER), [v, Const(size)])]
    case FlushProbe(a) =>
      var (cast, v) := CastCode(a, t);
      cast + [Call(None, Direct(FLUSH_WRAPPER), [v])]
  }

  function ProbesCode(qs: seq<Probe>, b: nat, pos: nat): (code: seq<Instr>) {
    if qs == [] then []
    else ProbesCode(qs[..|qs| - 1], b, pos) + ProbeCode(qs[|qs| - 1], Temp(b, pos, |qs| - 1))
  }

  /** The first n instructions of a block, each preceded by its probes. */
  function Expand(pl: Placement, fn: string, b: nat, instrs: seq<Instr>): (code: seq<Instr>) {
    if instrs == [] then []
    else
      var n := |instrs| - 1;
      Expand(pl, fn, b, instrs[..n]) + ProbesCode(pl(fn, b, n), b, n) + [instrs[n]]
  }

  function InstrumentBlock(pl: Placement, fn: string, b: nat, blk: Block): Block {
    Block(Expand(pl, fn, b, blk.instrs) + ProbesCode(pl(fn, b, |blk.instrs|), b, |blk.instrs|), blk.term)
  }

  function InstrumentFunction(pl: Placement, fn: string, f: Function): (r: Function)
    ensures |r.blocks| == |f.blocks| && r.params == f.params
  {
    f.(blocks := seq(|f.blocks|, b requires 0 <= b < |f.blocks| => InstrumentBlock(pl, fn, b, f.blocks[b])))
  }

  function Instrument(pl: Placement, p: Program): (r: Program)
    ensures r.Keys == p.Keys
  {
    map fn | fn in p :: InstrumentFunction(pl, fn, p[fn])
  }

  // ----- what the probes report -----

  function Report(q: Probe, regs: Regs): Record {
    match q
    case FenceProbe => FenceRecord
    case StoreProbe(a, size) => StoreRecord(Eval(regs, a), size)
    case FlushProbe(a) => FlushRecord(Eval(regs, a))
  }

  function Reports(qs: seq<Probe>, regs: Regs): (rs: seq<Record>)
    ensures |rs| == |qs|
  {
    seq(|qs|, i requires 0 <= i < |qs| => Report(qs[i], regs))
  }

  /** What the probes before the current control point of the original program would report. */
  function Due<M>(pl: Placement, p: Program, s: State<M>): seq<Record> {
    if Halted(p, s) || Top(s).pc > |CurrentBlock(p, s).instrs| then []
    else Reports(pl(Top(s).fn, Top(s).block, Top(s).pc), Top(s).regs)
  }

  /** What the program's own step from s adds to the trace (only if it calls a wrapper itself). */
  function Own<M>(p: Program, env: Env<M>, s: State<M>): seq<Record> {
    var s' := Step(p, env, s);
    if |s.log| <= |s'.log| then s'.log[|s.log|..] else []
  }

  /** The trace an ideal observer of the original run would write in its first k steps. */
  function Observed<M>(pl: Placement, p: Program, env: Env<M>, s: State<M>, k: nat): seq<Record> {
    if k == 0 then []
    else
      var now := Run(p, env, s, k - 1);
      Observed(pl, p, env, s, k - 1) + Due(pl, p, now) + Own(p, env, now)
  }

  // ----- the simulation relation -----

  ghost predicate SameUser(a: Regs, b: Regs) {
    forall r: Register :: r.User? ==> (r in a <==> r in b) && (r in a ==> a[r] == b[r])
  }

  /** Where control sits in the instrumented block: before the probes of position pc. */
  function Offset(pl: Placement, p: Program, f: Frame): nat
    requires f.fn in p && f.block < |p[f.fn].blocks| && f.pc <= |p[f.fn].blocks[f.block].instrs|
  {
    |Expand(pl, f.fn, f.block, p[f.fn].blocks[f.block].instrs[..f.pc])|
  }

  predicate InCode(p: Program, f: Frame) {
    f.fn in p && f.block < |p[f.fn].blocks| ==> f.pc <= |p[f.fn].blocks[f.block].instrs|
  }

  ghost predicate RelatedFrame(pl: Placement, p: Program, a: Frame, b: Frame) {
    && a.fn == b.fn && a.block == b.block && a.ret == b.ret && SameUser(a.regs, b.regs)
    && (a.ret.Some? ==> a.ret.value.User?)
    && InCode(p, a)
    && (if a.fn in p && a.block < |p[a.fn].blocks| then b.pc == Offset(pl, p, a) else b.pc == a.pc)
  }

  ghost predicate StacksRelated(pl: Placement, p: Program, a: seq<Frame>, b: seq<Frame>) {
    |a| == |b| && forall i :: 0 <= i < |a| ==> RelatedFrame(pl, p, a[i], b[i])
  }

  /** Same stack shape, memory and result; the traces are compared separately. */
  ghost predicate Related<M>(pl: Placement, p: Program, s: State<M>, t: State<M>) {
    StacksRelated(pl, p, s.stack, t.stack) && s.mem == t.mem && s.result == t.result
  }
}
