/** A small intermediate language in the image of the LLVM IR the instrumentation pass works on:
    functions of basic blocks, with loads, stores, fences, calls, and instructions that change memory
    without being stores. Programs run on a machine with a call stack. */
module Ir {
  import opened Options

  /** Registers of the program, and temporaries the pass creates (block, position, number). */
  datatype Register = User(name: string) | Temp(block: nat, pos: nat, k: nat)

  datatype Operand = Reg(reg: Register) | Const(v: int)

  /** A call names its callee, or goes through a value that has a label of its own. */
  datatype Callee = Direct(name: string) | Indirect(tag: string, fn: Operand)

  datatype Instr =
    | Store(addr: Operand, val: Operand, size: nat)
    | Fence
    | Load(dst: Register, addr: Operand)
    | Compute(dst: Register, op: string, args: seq<Operand>)
    | PtrToInt(dst: Register, src: Operand)
    | Modify(dst: Register, addr: Operand, val: Operand)   // atomicrmw, cmpxchg, memory intrinsics
    | Call(ret: Option<Register>, callee: Callee, args: seq<Operand>)

  datatype Terminator = Jump(target: nat) | Branch(cond: Operand, yes: nat, no: nat) | Return(val: Operand)

  datatype Block = Block(instrs: seq<Instr>, term: Terminator)

  datatype Function = Function(params: seq<Register>, blocks: seq<Block>)

  type Program = map<string, Function>

  const STORE_WRAPPER := "write_store_trace_wrapper"
  const FENCE_WRAPPER := "write_fence_trace_wrapper"
  const FLUSH_WRAPPER := "write_flush_trace_wrapper"

  predicate IsWrapper(name: string) {
    name == STORE_WRAPPER || name == FENCE_WRAPPER || name == FLUSH_WRAPPER
  }

  /** What a trace wrapper writes. */
  datatype Record = StoreRecord(addr: int, size: int) | FenceRecord | FlushRecord(addr: int)

  /** The world outside the program: memory, arithmetic, functions defined elsewhere, and which
      function an address denotes. */
  datatype Env<!M> = Env(
    store: (M, int, int, nat) -> M,
    load: (M, int) -> int,
    compute: (string, seq<int>) -> int,
    change: (M, int, int) -> (M, int),
    external: (string, seq<int>, M) -> (M, int),
    target: int -> string)

  type Regs = map<Register, int>

  datatype Frame = Frame(fn: string, block: nat, pc: nat, regs: Regs, ret: Option<Register>)

  /** The stack grows at the end; an empty stack is a finished run. */
  datatype State<M> = State(stack: seq<Frame>, mem: M, log: seq<Record>, result: Option<int>)

  function Eval(regs: Regs, o: Operand): int {
    match o
    case Const(v) => v
    case Reg(r) => if r in regs then regs[r] else 0
  }

  function EvalAll(regs: Regs, os: seq<Operand>): (vs: seq<int>)
    ensures |vs| == |os|
  {
    seq(|os|, i requires 0 <= i < |os| => Eval(regs, os[i]))
  }

  function SetRet(regs: Regs, ret: Option<Register>, v: int): Regs {
    if ret.Some? then regs[ret.value := v] else regs
  }

  function Bind(params: seq<Register>, args: seq<int>): Regs {
    if params == [] then map[]
    else
      var n := |params| - 1;
      Bind(params[..n], args)[params[n] := if n < |args| then args[n] else 0]
  }

  function Arg(args: seq<int>, i: nat): int {
    if i < |args| then args[i] else 0
  }

  function WrapperRecord(name: string, args: seq<int>): Record
    requires IsWrapper(name)
  {
    if name == STORE_WRAPPER then StoreRecord(Arg(args, 0), Arg(args, 1))
    else if name == FENCE_WRAPPER then FenceRecord
    else FlushRecord(Arg(args, 0))
  }

  lemma WrapperRecords(args: seq<int>)
    ensures IsWrapper(STORE_WRAPPER) && WrapperRecord(STORE_WRAPPER, args) == StoreRecord(Arg(args, 0), Arg(args, 1))
    ensures IsWrapper(FENCE_WRAPPER) && WrapperRecord(FENCE_WRAPPER, args) == FenceRecord
    ensures IsWrapper(FLUSH_WRAPPER) && WrapperRecord(FLUSH_WRAPPER, args) == FlushRecord(Arg(args, 0))
  {
    assert STORE_WRAPPER[6] == 's' && FENCE_WRAPPER[7] == 'e' && FLUSH_WRAPPER[7] == 'l';
    assert FENCE_WRAPPER[6] == 'f' && FLUSH_WRAPPER[6] == 'f';
  }

  function CalleeName<M>(env: Env<M>, regs: Regs, c: Callee): string {
    match c
    case Direct(name) => name
    case Indirect(_, fn) => env.target(Eval(regs, fn))
  }

  function Top<M>(s: State<M>): Frame
    requires s.stack != []
  {
    s.stack[|s.stack| - 1]
  }

  function WithTop<M>(s: State<M>, f: Frame): State<M>
    requires s.stack != []
  {
    s.(stack := s.stack[..|s.stack| - 1] + [f])
  }

  /** The run has ended, or the control point names no block of the program. */
  predicate Halted<M>(p: Program, s: State<M>) {
    s.stack == [] || Top(s).fn !in p || Top(s).block >= |p[Top(s).fn].blocks|
  }

  function CurrentBlock<M>(p: Program, s: State<M>): Block
    requires !Halted(p, s)
  {
    p[Top(s).fn].blocks[Top(s).block]
  }

  function Step<M>(p: Program, env: Env<M>, s: State<M>): State<M> {
    if Halted(p, s) then s
    else
      var (f, b) := (Top(s), CurrentBlock(p, s));
      if f.pc < |b.instrs| then Exec(p, env, s, b.instrs[f.pc]) else Terminate(s, b.term)
  }

  function Exec<M>(p: Program, env: Env<M>, s: State<M>, i: Instr): State<M>
    requires s.stack != []
  {
    var f := Top(s);
    var next := f.(pc := f.pc + 1);
    match i
    case Store(a, v, size) => WithTop(s, next).(mem := env.store(s.mem, Eval(f.regs, a), Eval(f.regs, v), size))
    case Fence => WithTop(s, next)
    case Load(d, a) => WithTop(s, next.(regs := f.regs[d := env.load(s.mem, Eval(f.regs, a))]))
    case Compute(d, op, args) => WithTop(s, next.(regs := f.regs[d := env.compute(op, EvalAll(f.regs, args))]))
    case PtrToInt(d, a) => WithTop(s, next.(regs := f.regs[d := Eval(f.regs, a)]))
    case Modify(d, a, v) =>
      var (m, r) := env.change(s.mem, Eval(f.regs, a), Eval(f.regs, v));
      WithTop(s, next.(regs := f.regs[d := r])).(mem := m)
    case Call(ret, callee, args) =>
      var (name, vs) := (CalleeName(env, f.regs, callee), EvalAll(f.regs, args));
      if IsWrapper(name) then WithTop(s, next).(log := s.log + [WrapperRecord(name, vs)])
      else if name in p then
        var entered := WithTop(s, next);
        entered.(stack := entered.stack + [Frame(name, 0, 0, Bind(p[name].params, vs), ret)])
      else
        var (m, r) := env.external(name, vs, s.mem);
        WithTop(s, next.(regs := SetRet(f.regs, ret, r))).(mem := m)
  }

  function Terminate<M>(s: State<M>, t: Terminator): State<M>
    requires s.stack != []
  {
    var f := Top(s);
    match t
    case Jump(b) => WithTop(s, f.(block := b, pc := 0))
    case Branch(c, yes, no) => WithTop(s, f.(block := if Eval(f.regs, c) != 0 then yes else no, pc := 0))
    case Return(v) =>
      var (r, rest) := (Eval(f.regs, v), s.stack[..|s.stack| - 1]);
      if rest == [] then s.(stack := [], result := Some(r))
      else
        var caller := rest[|rest| - 1];
        s.(stack := rest[..|rest| - 1] + [caller.(regs := SetRet(caller.regs, f.ret, r))])
  }

  function Run<M>(p: Program, env: Env<M>, s: State<M>, k: nat): State<M> {
    if k == 0 then s else Step(p, env, Run(p, env, s, k - 1))
  }

  lemma {:induction false} RunAdd<M>(p: Program, env: Env<M>, s: State<M>, j: nat, k: nat)
    ensures Run(p, env, s, j + k) == Run(p, env, Run(p, env, s, j), k)
  {
    if k > 0 {
      RunAdd(p, env, s, j, k - 1);
    }
  }

  // ----- programs that have not been instrumented mention no temporaries -----

  predicate PlainOperand(o: Operand) {
    o.Reg? ==> o.reg.User?
  }

  predicate PlainInstr(i: Instr) {
    match i
    case Store(a, v, _) => PlainOperand(a) && PlainOperand(v)
    case Fence => true
    case Load(d, a) => d.User? && PlainOperand(a)
    case Compute(d, _, args) => d.User? && forall j :: 0 <= j < |args| ==> PlainOperand(args[j])
    case PtrToInt(d, a) => d.User? && PlainOperand(a)
    case Modify(d, a, v) => d.User? && PlainOperand(a) && PlainOperand(v)
    case Call(ret, callee, args) =>
      && (ret.Some? ==> ret.value.User?) && (callee.Indirect? ==> PlainOperand(callee.fn))
      && forall j :: 0 <= j < |args| ==> PlainOperand(args[j])
  }

  predicate PlainTerm(t: Terminator) {
    match t
    case Jump(_) => true
    case Branch(c, _, _) => PlainOperand(c)
    case Return(v) => PlainOperand(v)
  }

  predicate PlainBlock(b: Block) {
    PlainTerm(b.term) && forall i :: 0 <= i < |b.instrs| ==> PlainInstr(b.instrs[i])
  }

  predicate PlainFunction(f: Function) {
    && (forall i :: 0 <= i < |f.params| ==> f.params[i].User?)
    && (forall i :: 0 <= i < |f.blocks| ==> PlainBlock(f.blocks[i]))
  }

  predicate PlainProgram(p: Program) {
    forall name :: name in p ==> PlainFunction(p[name])
  }
}
