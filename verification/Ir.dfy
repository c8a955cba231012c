/**
 The part of the LLVM intermediate representation that the BrainF compiler emits, with the meaning the
 LLVM Language Reference Manual gives it: basic blocks that start with at most one phi node, hold
 straight-line instructions and end in a terminator; every register is assigned by one instruction.

 An i8 is kept as 0..255, an i32 as a signed integer, an i1 as 0 or 1. A pointer is kept as its
 distance from the start of the tape, which is the only object pointers are taken into.
 */
module Ir {
  import opened Buffers

  type Reg = nat
  type Label = nat

  datatype Option<T> = None | Some(value: T)

  datatype Instr =
    | CallMalloc(dst: Reg, size: nat)
    | CallMemset(ptr: Reg, size: nat)
    | CallFree(ptr: Reg)
    | CallGetchar(dst: Reg)
    | CallPutchar(src: Reg)
    | CallPuts
    | Trunc(dst: Reg, src: Reg)            // i32 to i8
    | SExt(dst: Reg, src: Reg)             // i8 to i32
    | Load(dst: Reg, ptr: Reg)
    | Store(src: Reg, ptr: Reg)
    | Add(dst: Reg, src: Reg, addend: Byte)// i8, modulo 256
    | Gep(dst: Reg, base: Reg, k: int)
    | IcmpUge(dst: Reg, a: Reg, b: Reg)
    | IcmpUlt(dst: Reg, a: Reg, b: Reg)
    | IcmpEqZero(dst: Reg, src: Reg)
    | Or(dst: Reg, a: Reg, b: Reg)

  datatype Term = Br(to: Label) | CondBr(cond: Reg, yes: Label, no: Label) | Ret

  datatype Phi = Phi(dst: Reg, incoming: seq<(Reg, Label)>)

  datatype Block = Block(phi: Option<Phi>, code: seq<Instr>, term: Option<Term>)

  type Func = seq<Block>

  /** The store a function runs on; `err` records that the error message has been printed. */
  datatype Mem = Mem(tape: map<int, Byte>, input: seq<Byte>, output: seq<Byte>, touched: set<int>, err: bool) {
    function At(p: int): Byte {
      if p in tape then tape[p] else 0
    }
  }

  type Regs = map<Reg, int>

  datatype Config =
    | Running(bb: Label, pc: nat, regs: Regs, mem: Mem)
    | Halted(regs: Regs, mem: Mem)
    | Stuck

  /** One instruction; none if it reads a register that has no value, or of the wrong type. */
  function ExecInstr(i: Instr, r: Regs, m: Mem): Option<(Regs, Mem)> {
    match i
    case CallMalloc(dst, _) => Some((r[dst := 0], m))
    case CallMemset(ptr, size) =>
      if ptr !in r then None
      else Some((r, m.(tape := map p | p in m.tape && !(r[ptr] <= p < r[ptr] + size) :: m.tape[p])))
    case CallFree(ptr) => if ptr !in r then None else Some((r, m))
    case CallGetchar(dst) =>
      if m.input == [] then Some((r[dst := -1], m))
      else Some((r[dst := m.input[0]], m.(input := m.input[1..])))
    case CallPutchar(src) =>
      if src !in r then None else Some((r, m.(output := m.output + [r[src] % 256])))
    case CallPuts => Some((r, m.(err := true)))
    case Trunc(dst, src) => if src !in r then None else Some((r[dst := r[src] % 256], m))
    case SExt(dst, src) =>
      if src !in r then None else Some((r[dst := if r[src] >= 128 then r[src] - 256 else r[src]], m))
    case Load(dst, ptr) =>
      if ptr !in r then None else Some((r[dst := m.At(r[ptr])], m.(touched := m.touched + {r[ptr]})))
    case Store(src, ptr) =>
      if src !in r || ptr !in r || !(0 <= r[src] < 256) then None
      else Some((r, m.(tape := m.tape[r[ptr] := r[src]], touched := m.touched + {r[ptr]})))
    case Add(dst, src, addend) => if src !in r then None else Some((r[dst := (r[src] + addend) % 256], m))
    case Gep(dst, base, k) => if base !in r then None else Some((r[dst := r[base] + k], m))
    case IcmpUge(dst, a, b) =>
      if a !in r || b !in r then None else Some((r[dst := if r[a] >= r[b] then 1 else 0], m))
    case IcmpUlt(dst, a, b) =>
      if a !in r || b !in r then None else Some((r[dst := if r[a] < r[b] then 1 else 0], m))
    case IcmpEqZero(dst, src) => if src !in r then None else Some((r[dst := if r[src] == 0 then 1 else 0], m))
    case Or(dst, a, b) =>
      if a !in r || b !in r then None else Some((r[dst := if r[a] == 1 || r[b] == 1 then 1 else 0], m))
  }

  /** The register a phi node takes its value from when control comes from `from`. */
  function Incoming(inc: seq<(Reg, Label)>, from: Label): Option<Reg> {
    if inc == [] then None
    else if inc[0].1 == from then Some(inc[0].0)
    else Incoming(inc[1..], from)
  }

  function Jump(f: Func, from: Label, to: Label, r: Regs, m: Mem): Config {
    if to >= |f| then Stuck
    else
      match f[to].phi
      case None => Running(to, 0, r, m)
      case Some(phi) =>
        match Incoming(phi.incoming, from)
        case None => Stuck
        case Some(v) => if v !in r then Stuck else Running(to, 0, r[phi.dst := r[v]], m)
  }

  function Step(f: Func, c: Config): Config {
    if !c.Running? then c
    else
      var Running(bb, pc, r, m) := c;
      if bb >= |f| then Stuck
      else if pc < |f[bb].code| then
        match ExecInstr(f[bb].code[pc], r, m)
        case None => Stuck
        case Some((r', m')) => Running(bb, pc + 1, r', m')
      else
        match f[bb].term
        case None => Stuck
        case Some(Br(to)) => Jump(f, bb, to, r, m)
        case Some(CondBr(cond, yes, no)) =>
          if cond !in r then Stuck else Jump(f, bb, if r[cond] == 1 then yes else no, r, m)
        case Some(Ret) => Halted(r, m)
  }

  function Run(f: Func, c: Config, n: nat): Config
    decreases n
  {
    if n == 0 then c else Run(f, Step(f, c), n - 1)
  }

  lemma {:induction false} RunAdd(f: Func, c: Config, n: nat, k: nat)
    ensures Run(f, c, n + k) == Run(f, Run(f, c, n), k)
    decreases n
  {
    if n > 0 {
      RunAdd(f, Step(f, c), n - 1, k);
    }
  }

  lemma {:induction false} RunHalted(f: Func, c: Config, n: nat)
    requires !c.Running?
    ensures Run(f, c, n) == c
    decreases n
  {
    if n > 0 {
      RunHalted(f, c, n - 1);
    }
  }

  /** The instructions `code` stand at instruction `pc` of block `bb`. */
  ghost predicate CodeAt(f: Func, bb: Label, pc: nat, code: seq<Instr>) {
    bb < |f| && pc + |code| <= |f[bb].code| && f[bb].code[pc..pc + |code|] == code
  }

  /** The effect of straight-line code. */
  function ExecCode(code: seq<Instr>, r: Regs, m: Mem): Option<(Regs, Mem)> {
    if code == [] then Some((r, m))
    else
      match ExecInstr(code[0], r, m)
      case None => None
      case Some((r', m')) => ExecCode(code[1..], r', m')
  }

  lemma {:induction false} RunCode(f: Func, bb: Label, pc: nat, code: seq<Instr>, r: Regs, m: Mem)
    requires CodeAt(f, bb, pc, code) && ExecCode(code, r, m).Some?
    ensures var (r', m') := ExecCode(code, r, m).value;
            Run(f, Running(bb, pc, r, m), |code|) == Running(bb, pc + |code|, r', m')
    decreases |code|
  {
    if code != [] {
      assert f[bb].code[pc..pc + |code|][0] == f[bb].code[pc];
      assert f[bb].code[pc + 1..pc + |code|] == f[bb].code[pc..pc + |code|][1..];
      var (r', m') := ExecInstr(code[0], r, m).value;
      RunCode(f, bb, pc + 1, code[1..], r', m');
    }
  }

  function Then(e: Option<(Regs, Mem)>, i: Instr): Option<(Regs, Mem)> {
    match e
    case None => None
    case Some((r, m)) => ExecInstr(i, r, m)
  }

  lemma ExecTwo(i: Instr, j: Instr, r: Regs, m: Mem)
    ensures ExecCode([i, j], r, m) == Then(ExecInstr(i, r, m), j)
  {
    assert [i, j][1..] == [j] && [j][1..] == [];
    var e := ExecInstr(i, r, m);
    if e.Some? {
      assert ExecCode([j], e.value.0, e.value.1) == ExecInstr(j, e.value.0, e.value.1);
    }
  }

  lemma ExecThree(i: Instr, j: Instr, k: Instr, r: Regs, m: Mem)
    ensures ExecCode([i, j, k], r, m) == Then(Then(ExecInstr(i, r, m), j), k)
  {
    assert [i, j, k][1..] == [j, k];
    var e := ExecInstr(i, r, m);
    if e.Some? {
      ExecTwo(j, k, e.value.0, e.value.1);
    }
  }
}
