/**
 The main results about compiled programs: they behave as direct interpretation says, for every
 program, input and length of run, and with bounds checking they never leave the tape.
 */
module BrainFCorrect {
  import opened Buffers
  import opened BrainFLanguage
  import opened Ir
  import opened BrainFEmit
  import opened BrainFSimulation

  /** A call of the compiled function; fresh memory may hold anything before it is zeroed. */
  function Start(junk: map<int, Byte>, input: seq<Byte>): Config {
    Running(ENTRY, 0, map[], Mem(junk, input, [], {}, false))
  }

  ghost predicate Fresh(junk: map<int, Byte>, env: Env) {
    forall p :: p in junk ==> 0 <= p < env.size
  }

  /** The builder when the end of the program is reached. */
  function Last(p: seq<Cmd>, env: Env): (b: Builder)
    ensures Wf(b) && Compile(p, env) == Finish(b).fn
    ensures Local(Header(env), b)
  {
    var (cur, b) := EmitCmds(p, NoSym, Header(env), env);
    FlushLocal(cur, b, env);
    LocalTransitive(Header(env), b, Flush(cur, b, env));
    Flush(cur, b, env)
  }

  lemma FinishExtends(b: Builder)
    requires Wf(b)
    ensures Extends(b.fn, Finish(b).fn)
  {
  }

  lemma CompiledHeader(p: seq<Cmd>, env: Env)
    ensures HasHeader(Compile(p, env), env)
    ensures Extends(Last(p, env).fn, Compile(p, env))
    ensures Extends(EmitCmds(p, NoSym, Header(env), env).1.fn, Compile(p, env))
    ensures Extends(Header(env).fn, Compile(p, env))
    ensures Extends(Finish(Last(p, env)).fn, Compile(p, env))
  {
    var f, b := Compile(p, env), Last(p, env);
    FinishExtends(b);
    var (cur, b1) := EmitCmds(p, NoSym, Header(env), env);
    FlushLocal(cur, b1, env);
    StillExtends(b1, b, f);
    StillExtends(Header(env), b, f);
    var h := Header(env);
    assert b.fn[END] == h.fn[END] && b.ins != END;
    assert env.checked ==> b.fn[ABERROR] == h.fn[ABERROR] && b.ins != ABERROR;
  }

  /** The header zeroes the tape and puts the head in the middle. */
  lemma HeaderRuns(p: seq<Cmd>, env: Env, junk: map<int, Byte>, input: seq<Byte>) returns (n: nat, r: Regs, m: Mem)
    requires Fresh(junk, env)
    ensures var b := Header(env);
            && Run(Compile(p, env), Start(junk, input), n) == Here(b, r, m)
            && Based(r, env) && b.head in r && r[b.head] == env.size / 2 && m == Mem(map[], input, [], {}, false)
  {
    hide Compile, ExecCode, ExecInstr, Run, Step, Based, HasHeader, Fresh;
    var f, b := Compile(p, env), Header(env);
    CompiledHeader(p, env);
    assert Later(b.fn[ENTRY], f[ENTRY]);
    var code := b.fn[ENTRY].code;
    var m0 := Mem(junk, input, [], {}, false);
    r, m := HeaderCode(env, m0);
    n := |code|;
    assert f[ENTRY].code[0..n] == code;
    RunCode(f, ENTRY, 0, code, map[], m0);
  }

  lemma Zeroed(junk: map<int, Byte>, env: Env)
    requires Fresh(junk, env)
    ensures (map q | q in junk && !(0 <= q < 0 + env.size) :: junk[q]) == map[]
  {
  }

  lemma {:induction false} ExecCons(i: Instr, rest: seq<Instr>, r: Regs, m: Mem, r': Regs, m': Mem)
    requires ExecInstr(i, r, m) == Some((r', m'))
    ensures ExecCode([i] + rest, r, m) == ExecCode(rest, r', m')
  {
    hide ExecInstr;
    assert ([i] + rest)[1..] == rest;
  }

  /** The pointers the header computes, once the tape is there. */
  function PointerCode(env: Env): seq<Instr> {
    (if env.checked then [Gep(ARRMAX, ARR, env.size)] else []) + [Gep(2, ARR, env.size / 2)]
  }

  lemma {:induction false} Pointers(env: Env, m: Mem) returns (r: Regs)
    ensures ExecCode(PointerCode(env), map[ARR := 0], m) == Some((r, m))
    ensures Based(r, env) && 2 in r && r[2] == env.size / 2
  {
    var r0: Regs := map[ARR := 0];
    var last := Gep(2, ARR, env.size / 2);
    if env.checked {
      r := r0[ARRMAX := env.size][2 := env.size / 2];
      ExecTwo(Gep(ARRMAX, ARR, env.size), last, r0, m);
      assert PointerCode(env) == [Gep(ARRMAX, ARR, env.size), last];
    } else {
      r := r0[2 := env.size / 2];
      assert PointerCode(env) == [last] && [last][1..] == [];
    }
  }

  lemma {:induction false} HeaderCode(env: Env, m0: Mem) returns (r: Regs, m: Mem)
    requires Fresh(m0.tape, env)
    ensures ExecCode(Header(env).fn[ENTRY].code, map[], m0) == Some((r, m))
    ensures m == m0.(tape := map[]) && Based(r, env) && 2 in r && r[2] == env.size / 2
  {
    hide Fresh, ExecCode, Based, PointerCode;
    m := m0.(tape := map[]);
    var r0: Regs := map[ARR := 0];
    var malloc, memset := CallMalloc(ARR, env.size), CallMemset(ARR, env.size);
    r := Pointers(env, m);
    Zeroed(m0.tape, env);
    ExecCons(malloc, [memset] + PointerCode(env), map[], m0, r0, m0);
    ExecCons(memset, PointerCode(env), r0, m0, r0, m);
    HeaderIs(env);
  }

  lemma {:induction false} HeaderIs(env: Env)
    ensures Header(env).fn[ENTRY].code == [CallMalloc(ARR, env.size)] + ([CallMemset(ARR, env.size)] + PointerCode(env))
  {
  }

  /** From the last block to the return. */
  lemma Returns(f: Func, b: Builder, env: Env, r: Regs, m: Mem)
    requires Wf(b) && HasHeader(f, env) && Extends(Finish(b).fn, f) && ARR in r
    ensures Run(f, Here(b, r, m), 3) == Halted(r, m)
  {
    assert Later(Finish(b).fn[b.ins], f[b.ins]);
    var c := Here(b, r, m);
    var c1 := Running(END, 0, r, m);
    assert Step(f, c) == c1;
    var c2 := Running(END, 1, r, m);
    assert Step(f, c1) == c2;
    assert Run(f, c, 3) == Run(f, c1, 2) == Run(f, c2, 1) == Run(f, Step(f, c2), 0);
  }

  /** The head register at the end of the program. */
  function HeadReg(p: seq<Cmd>, env: Env): Reg {
    Last(p, env).head
  }

  /** A configuration of the compiled function that agrees with an outcome of the interpreter. */
  ghost predicate Agrees(c: Config, out: Outcome, head: Reg) {
    match out
    case Done(st, _) => c.Halted? && !c.mem.err && SameStore(c.mem, st) && head in c.regs && c.regs[head] == st.head
    case Fault(st) => c.Halted? && c.mem.err && SameStore(c.mem, st)
    case Timeout(st) => c.Running? && !c.mem.err && SameStore(c.mem, st)
  }

  /**
   Compiling preserves meaning. Whatever the interpreter does within `fuel` loop iterations - finish,
   leave the tape, or still be running - the compiled function does too, with the same tape, head,
   input and output, and it takes at least as many steps as the interpreter takes iterations.
   */
  lemma CompilerCorrect(p: seq<Cmd>, env: Env, junk: map<int, Byte>, input: seq<Byte>, fuel: nat) returns (n: nat)
    requires Fresh(junk, env) && (env.checked ==> env.size > 0)
    ensures Agrees(Run(Compile(p, env), Start(junk, input), n), Interpret(p, input, fuel, env), HeadReg(p, env))
    ensures Interpret(p, input, fuel, env).Timeout? ==> n >= fuel
  {
    hide Extends, HasHeader, Local, Run, Compile, EmitCmds, Flush, Exec, Header;
    var f, h := Compile(p, env), Header(env);
    var st0 := State(map[], env.size / 2, input, [], {});
    CompiledHeader(p, env);
    var k, r, m := HeaderRuns(p, env, junk, input);
    var (cur, b) := EmitCmds(p, NoSym, h, env);
    n, r, m := SimCmds(p, NoSym, h, f, env, r, m, st0, fuel);
    RunAdd(f, Start(junk, input), k, n);
    k, n := k + n, 0;
    var out := Exec(p, st0, fuel, env);
    if out.Done? {
      n, r, m := SimFlush(cur, b, f, env, r, m, out.st);
      RunAdd(f, Start(junk, input), k, n);
      if !Off(env, out.st.head) {
        Returns(f, Last(p, env), env, r, m);
        RunAdd(f, Start(junk, input), k + n, 3);
        n := n + 3;
      }
    }
    n := k + n;
  }

  /** The compiled function does what interpretation says, on every input. */
  ghost predicate Correct(f: Func, p: seq<Cmd>, env: Env) {
    forall junk: map<int, Byte>, input: seq<Byte>, fuel: nat :: Fresh(junk, env) ==>
        Follows(f, p, env, junk, input, fuel)
  }

  ghost predicate Follows(f: Func, p: seq<Cmd>, env: Env, junk: map<int, Byte>, input: seq<Byte>, fuel: nat) {
    exists n :: Agrees(Run(f, Start(junk, input), n), Interpret(p, input, fuel, env), HeadReg(p, env))
  }

  /**
   All programs are compiled correctly if and only if the tape that is checked has a cell: the first head is not
   checked.
   */
  lemma {:induction false} CorrectExactly(env: Env)
    ensures (forall p :: Correct(Compile(p, env), p, env)) <==> (env.checked ==> env.size > 0)
  {
    hide Correct;
    if env.checked && env.size == 0 {
      EmptyProgramWrong(env);
    } else {
      forall p: seq<Cmd> ensures Correct(Compile(p, env), p, env) {
        ProgramCorrect(p, env);
      }
    }
  }

  lemma {:induction false} ProgramCorrect(p: seq<Cmd>, env: Env)
    requires env.checked ==> env.size > 0
    ensures Correct(Compile(p, env), p, env)
  {
    hide Compile, HeadReg, Interpret, Agrees, Run, Fresh;
    forall junk: map<int, Byte>, input: seq<Byte>, fuel: nat | Fresh(junk, env)
      ensures Follows(Compile(p, env), p, env, junk, input, fuel)
    {
      var n := CompilerCorrect(p, env, junk, input, fuel);
    }
  }

  lemma {:induction false} EmptyProgramWrong(env: Env)
    requires env.checked && env.size == 0
    ensures !Correct(Compile([], env), [], env)
  {
    hide Compile, HeadReg, Interpret, Agrees, Run;
    var junk: map<int, Byte>, input: seq<Byte>, fuel: nat := map[], [], 0;
    assert Fresh(junk, env);
    if Follows(Compile([], env), [], env, junk, input, fuel) {
      var n :| Agrees(Run(Compile([], env), Start(junk, input), n), Interpret([], input, fuel, env), HeadReg([], env));
      EmptyTape(env, n);
    }
  }

  /** On a tape without cells the empty program ends without an error, although its head is off the tape. */
  lemma {:induction false} EmptyTape(env: Env, n: nat)
    requires env.checked && env.size == 0
    ensures Interpret([], [], 0, env).Fault?
    ensures !Agrees(Run(Compile([], env), Start(map[], []), n), Interpret([], [], 0, env), HeadReg([], env))
  {
    hide Compile, Run, Header, Extends, HasHeader;
    var f, c0 := Compile([], env), Start(map[], []);
    CompiledHeader([], env);
    var k, r, m := HeaderRuns([], env, map[], []);
    Returns(f, Last([], env), env, r, m);
    RunAdd(f, c0, k, 3);
    if !Run(f, c0, n).Running? {
      if n <= k + 3 {
        RunMonotone(f, c0, n, k + 3 - n);
      } else {
        RunMonotone(f, c0, k + 3, n - (k + 3));
      }
    }
  }

  /**
   A run of moves may leave the tape and come back: on a tape of one cell `><` is no error, for the compiled
   function as for the interpreter, although `>` alone is one.
   */
  lemma {:induction false} OverTheEdge() returns (n: nat)
    ensures Interpret([Right], [], 0, Env(true, 1)).Fault?
    ensures var c := Run(Compile([Right, Left], Env(true, 1)), Start(map[], []), n);
            c.Halted? && !c.mem.err
  {
    hide Compile, Run, HeadReg;
    var env, p := Env(true, 1), [Right, Left];
    assert [Right][1..] == [] && p[1..] == [Left] && [Left][1..] == [];
    n := CompilerCorrect(p, env, map[], [], 0);
  }

  lemma {:induction false} RunMonotone(f: Func, c: Config, n: nat, k: nat)
    requires !Run(f, c, n).Running?
    ensures Run(f, c, n + k) == Run(f, c, n)
  {
    RunAdd(f, c, n, k);
    RunHalted(f, Run(f, c, n), k);
  }

  /**
   The other direction: the compiled function stops only where the interpreter does. If it is not
   running any more after `n` steps, the interpreter finishes or leaves the tape within n + 1
   iterations, and both agree. In particular the compiled function never gets stuck.
   */
  lemma CompiledStopsAsInterpreted(p: seq<Cmd>, env: Env, junk: map<int, Byte>, input: seq<Byte>, n: nat)
    requires Fresh(junk, env) && (env.checked ==> env.size > 0)
    ensures var c := Run(Compile(p, env), Start(junk, input), n);
            var out := Interpret(p, input, n + 1, env);
            !c.Running? ==> !out.Timeout? && Agrees(c, out, HeadReg(p, env))
  {
    hide Compile, Interpret, HeadReg;
    var f, c0 := Compile(p, env), Start(junk, input);
    var k := CompilerCorrect(p, env, junk, input, n + 1);
    if !Run(f, c0, n).Running? {
      if k <= n {
        if !Run(f, c0, k).Running? {
          RunMonotone(f, c0, k, n - k);
        }
      } else {
        RunMonotone(f, c0, n, k - n);
      }
    }
  }

  // ----- with bounds checking, nothing outside the tape is ever read or written -----

  ghost predicate Inside(cells: set<int>, env: Env) {
    forall x :: x in cells ==> 0 <= x < env.size
  }

  lemma {:induction false} ExecCmdInside(c: Cmd, st: State, fuel: nat, env: Env)
    requires env.checked && Inside(st.touched, env)
    ensures Inside(ExecCmd(c, st, fuel, env).st.touched, env)
    decreases fuel, c, 0
  {
    if c.Loop? {
      ExecLoopInside(c.body, st, fuel, env);
    }
  }

  lemma {:induction false} ExecLoopInside(body: seq<Cmd>, st: State, fuel: nat, env: Env)
    requires env.checked && Inside(st.touched, env)
    ensures Inside(ExecLoop(body, st, fuel, env).st.touched, env)
    decreases fuel, body, 2
  {
    if !Off(env, st.head) && st.Cell() != 0 && fuel > 0 {
      ExecInside(body, st.Touch(), fuel - 1, env);
      var out := Exec(body, st.Touch(), fuel - 1, env);
      if out.Done? {
        ExecLoopInside(body, out.st, out.fuel, env);
      }
    }
  }

  lemma {:induction false} ExecInside(p: seq<Cmd>, st: State, fuel: nat, env: Env)
    requires env.checked && Inside(st.touched, env)
    ensures Inside(Exec(p, st, fuel, env).st.touched, env)
    decreases fuel, p, 1
  {
    if p != [] {
      ExecCmdInside(p[0], st, fuel, env);
      var out := ExecCmd(p[0], st, fuel, env);
      if out.Done? {
        ExecInside(p[1..], out.st, out.fuel, env);
      }
    }
  }

  lemma StepTouches(f: Func, c: Config)
    ensures Step(f, c).Stuck? || (!c.Stuck? && c.mem.touched <= Step(f, c).mem.touched)
  {
  }

  lemma {:induction false} RunTouches(f: Func, c: Config, n: nat)
    requires !Run(f, c, n).Stuck?
    ensures !c.Stuck? && c.mem.touched <= Run(f, c, n).mem.touched
    decreases n
  {
    if n > 0 {
      RunTouches(f, Step(f, c), n - 1);
      StepTouches(f, c);
    }
  }

  /** Every load and store of every run addresses a cell of the tape, at every step. */
  lemma CompiledStaysOnTape(p: seq<Cmd>, env: Env, junk: map<int, Byte>, input: seq<Byte>, n: nat)
    requires Fresh(junk, env) && env.checked && env.size > 0
    ensures var c := Run(Compile(p, env), Start(junk, input), n);
            !c.Stuck? && Inside(c.mem.touched, env)
  {
    hide Compile, Exec, HeadReg;
    var f, c0 := Compile(p, env), Start(junk, input);
    var out := Interpret(p, input, n, env);
    ExecInside(p, State(map[], env.size / 2, input, [], {}), n, env);
    var k := CompilerCorrect(p, env, junk, input, n);
    if n <= k {
      RunAdd(f, c0, n, k - n);
      RunTouches(f, Run(f, c0, n), k - n);
    } else {
      RunMonotone(f, c0, k, n - k);
    }
  }
}
