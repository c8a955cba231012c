/**
 The compiled function does what direct interpretation does.
 */
module BrainFSimulation {
  import opened Buffers
  import opened BrainFLanguage
  import opened Ir
  import opened BrainFEmit

  // ----- how the two machines correspond -----

  function ToState(m: Mem, h: int): State {
    State(m.tape, h, m.input, m.output, m.touched)
  }

  /** The interpreter is ahead of the compiled code by the pending run. */
  function Ahead(cur: Pending, m: Mem, h: int): State {
    match cur
    case NoSym => ToState(m, h)
    case Move(v) => ToState(m, h + v)
    case Change(v) => ToState(m, h).Put((m.At(h) + v) % 256)
  }

  /** Control is where the builder `b` would emit next. */
  function Here(b: Builder, r: Regs, m: Mem): Config
    requires b.ins < |b.fn|
  {
    Running(b.ins, |b.fn[b.ins].code|, r, m)
  }

  /** Registers of the header. */
  ghost predicate Based(r: Regs, env: Env) {
    && ARR in r && r[ARR] == 0
    && (env.checked ==> ARRMAX in r && r[ARRMAX] == env.size)
  }

  ghost predicate Rel(head: Reg, cur: Pending, r: Regs, m: Mem, st: State, env: Env) {
    && Based(r, env) && head in r && !Off(env, r[head]) && !m.err
    && st == Ahead(cur, m, r[head])
  }

  /** The blocks of the header, at the end of compilation. */
  ghost predicate HasHeader(f: Func, env: Env) {
    && END < |f| && f[END] == Block(None, [CallFree(ARR)], Some(Ret))
    && (env.checked ==> ABERROR < |f| && f[ABERROR] == Block(None, [CallPuts], Some(Br(END))))
  }

  ghost predicate SameStore(m: Mem, st: State) {
    m.tape == st.tape && m.input == st.input && m.output == st.output && m.touched == st.touched
  }

  ghost predicate Faulted(c: Config, st: State) {
    c.Halted? && c.mem.err && SameStore(c.mem, st)
  }

  /** After `n` steps from `c`, the code has caught up with an outcome of the interpreter. */
  ghost predicate Matches(f: Func, c: Config, n: nat, out: Outcome, fuel: nat, cur: Pending, b: Builder, r: Regs,
                          m: Mem, env: Env)
    requires b.ins < |b.fn|
  {
    match out
    case Done(st, fuel') => n + fuel' >= fuel && Run(f, c, n) == Here(b, r, m) && Rel(b.head, cur, r, m, st, env)
    case Fault(st) => Faulted(Run(f, c, n), st)
    case Timeout(st) => n >= fuel && Run(f, c, n).Running? && !Run(f, c, n).mem.err && SameStore(Run(f, c, n).mem, st)
  }

  // ----- straight-line pieces -----

  lemma ExecRead(t: Reg, head: Reg, r: Regs, m: Mem)
    requires head in r && head < t
    ensures var v: Byte := if m.input == [] then 255 else m.input[0];
            ExecCode(ReadCode(t, head), r, m) ==
            Some((r[t := if m.input == [] then -1 else v][t + 1 := v],
                  m.(input := if m.input == [] then [] else m.input[1..],
                     tape := m.tape[r[head] := v], touched := m.touched + {r[head]})))
  {
    ExecThree(CallGetchar(t), Trunc(t + 1, t), Store(t + 1, head), r, m);
  }

  lemma ExecWrite(t: Reg, head: Reg, r: Regs, m: Mem)
    requires head in r && head < t
    ensures var v := m.At(r[head]);
            ExecCode(WriteCode(t, head), r, m) ==
            Some((r[t := v][t + 1 := if v >= 128 then v - 256 else v],
                  m.(output := m.output + [v], touched := m.touched + {r[head]})))
  {
    ExecThree(Load(t, head), SExt(t + 1, t), CallPutchar(t + 1), r, m);
  }

  lemma ExecChange(t: Reg, head: Reg, v: int, r: Regs, m: Mem)
    requires head in r && head < t
    ensures var x := m.At(r[head]);
            ExecCode(ChangeCode(t, head, v), r, m) ==
            Some((r[t := x][t + 1 := (x + v) % 256],
                  m.(tape := m.tape[r[head] := (x + v) % 256], touched := m.touched + {r[head]})))
  {
    hide ExecCode;
    ExecThree(Load(t, head), Add(t + 1, t, v % 256), Store(t + 1, head), r, m);
    AddTwice(m.At(r[head]), v);
  }

  lemma AddTwice(x: int, v: int)
    ensures (x + v % 256) % 256 == (x + v) % 256
  {
  }

  lemma ExecCheck(h: Reg, r: Regs, m: Mem, env: Env)
    requires Based(r, env) && env.checked && h in r && 2 <= h
    ensures var code := CheckCode(h);
            && ExecCode(code, r, m).Some?
            && var (r', m') := ExecCode(code, r, m).value;
               && m' == m && h in r' && r'[h] == r[h] && Based(r', env)
               && h + 3 in r' && r'[h + 3] == if Off(env, r[h]) then 1 else 0
  {
    hide ExecCode;
    var ge, lt := if r[h] >= r[ARRMAX] then 1 else 0, if r[h] < r[ARR] then 1 else 0;
    var r1 := r[h + 1 := ge];
    var r2 := r1[h + 2 := lt];
    assert ExecInstr(IcmpUge(h + 1, h, ARRMAX), r, m) == Some((r1, m));
    assert ExecInstr(IcmpUlt(h + 2, h, ARR), r1, m) == Some((r2, m));
    ExecThree(IcmpUge(h + 1, h, ARRMAX), IcmpUlt(h + 2, h, ARR), Or(h + 3, h + 1, h + 2), r, m);
  }

  lemma ExecTest(t: Reg, phi: Reg, r: Regs, m: Mem)
    requires phi in r && phi < t
    ensures var v := m.At(r[phi]);
            ExecCode(TestCode(t, phi), r, m) ==
            Some((r[t := v][t + 1 := if v == 0 then 1 else 0], m.(touched := m.touched + {r[phi]})))
  {
    ExecTwo(Load(t, phi), IcmpEqZero(t + 1, t), r, m);
  }

  /** Code appended by the builder is found in the finished function. */
  lemma AppendedCode(b: Builder, code: seq<Instr>, b': Builder, f: Func)
    requires b.ins < |b.fn| <= |b'.fn| && Extends(b'.fn, f) && b'.fn[b.ins].code == b.fn[b.ins].code + code
    ensures CodeAt(f, b.ins, |b.fn[b.ins].code|, code)
  {
    assert Later(b'.fn[b.ins], f[b.ins]);
    var n := |b.fn[b.ins].code|;
    assert f[b.ins].code[..n + |code|] == b'.fn[b.ins].code;
    assert f[b.ins].code[n..n + |code|] == b'.fn[b.ins].code[n..];
  }

  // ----- writing out the pending run -----

  lemma ErrorExit(f: Func, env: Env, from: Label, r: Regs, m: Mem)
    requires HasHeader(f, env) && env.checked && ARR in r
    ensures Run(f, Jump(f, from, ABERROR, r, m), 4) == Halted(r, m.(err := true))
  {
    var m' := m.(err := true);
    var c0 := Jump(f, from, ABERROR, r, m);
    assert c0 == Running(ABERROR, 0, r, m);
    var c1 := Step(f, c0);
    assert c1 == Running(ABERROR, 1, r, m');
    var c2 := Step(f, c1);
    assert c2 == Running(END, 0, r, m');
    var c3 := Step(f, c2);
    assert c3 == Running(END, 1, r, m');
    assert Step(f, c3) == Halted(r, m');
    assert Run(f, c0, 4) == Run(f, c1, 3) == Run(f, c2, 2) == Run(f, c3, 1) == Run(f, Step(f, c3), 0);
  }

  lemma SimChange(b: Builder, v: int, f: Func, env: Env, r: Regs, m: Mem, st: State) returns (r': Regs, m': Mem)
    requires Wf(b) && Extends(EmitChange(b, v).fn, f) && Rel(b.head, Change(v), r, m, st, env)
    ensures var b' := EmitChange(b, v);
            Run(f, Here(b, r, m), 3) == Here(b', r', m') && Rel(b'.head, NoSym, r', m', st, env)
  {
    hide ExecCode, ExecInstr, Step, Run, Extends;
    var code := ChangeCode(b.next, b.head, v);
    AppendedCode(b, code, EmitChange(b, v), f);
    ExecChange(b.next, b.head, v, r, m);
    RunCode(f, b.ins, |b.fn[b.ins].code|, code, r, m);
    var e := ExecCode(code, r, m).value;
    r', m' := e.0, e.1;
  }

  lemma SimMoveUnchecked(b: Builder, v: int, f: Func, env: Env, r: Regs, m: Mem, st: State) returns (r': Regs)
    requires Wf(b) && !env.checked && Extends(EmitMove(b, v, env).fn, f) && Rel(b.head, Move(v), r, m, st, env)
    ensures var b' := EmitMove(b, v, env);
            Run(f, Here(b, r, m), 1) == Here(b', r', m) && Rel(b'.head, NoSym, r', m, st, env)
  {
    var code := [Gep(b.next, b.head, v)];
    AppendedCode(b, code, EmitMove(b, v, env), f);
    r' := r[b.next := r[b.head] + v];
    assert code[1..] == [];
    assert ExecCode(code, r, m) == Some((r', m));
    RunCode(f, b.ins, |b.fn[b.ins].code|, code, r, m);
  }

  lemma ExecMoveChecked(b: Builder, v: int, env: Env, r: Regs, m: Mem) returns (r': Regs)
    requires Wf(b) && env.checked && Based(r, env) && b.head in r
    ensures var h := b.next;
            && ExecCode([Gep(h, b.head, v)] + CheckCode(h), r, m) == Some((r', m))
            && h in r' && r'[h] == r[b.head] + v && Based(r', env)
            && h + 3 in r' && r'[h + 3] == if Off(env, r'[h]) then 1 else 0
  {
    var h := b.next;
    var code := [Gep(h, b.head, v)] + CheckCode(h);
    var r1 := r[h := r[b.head] + v];
    assert code[0] == Gep(h, b.head, v) && code[1..] == CheckCode(h);
    assert ExecInstr(code[0], r, m) == Some((r1, m));
    ExecCheck(h, r1, m, env);
    r' := ExecCode(CheckCode(h), r1, m).value.0;
    assert ExecCode(code, r, m) == ExecCode(code[1..], r1, m);
  }

  lemma SimMoveChecked(b: Builder, v: int, f: Func, env: Env, r: Regs, m: Mem, st: State) returns (n: nat, r': Regs)
    requires Wf(b) && env.checked && Extends(EmitMove(b, v, env).fn, f) && HasHeader(f, env)
    requires Rel(b.head, Move(v), r, m, st, env)
    ensures var b' := EmitMove(b, v, env);
            if Off(env, st.head) then Faulted(Run(f, Here(b, r, m), n), st)
            else Run(f, Here(b, r, m), n) == Here(b', r', m) && Rel(b'.head, NoSym, r', m, st, env)
  {
    var h := b.next;
    var b' := EmitMove(b, v, env);
    var code := [Gep(h, b.head, v)] + CheckCode(h);
    AppendedCode(b, code, b', f);
    r' := ExecMoveChecked(b, v, env, r, m);
    var pc := |b.fn[b.ins].code|;
    RunCode(f, b.ins, pc, code, r, m);
    var c1 := Running(b.ins, pc + 4, r', m);
    assert Later(b'.fn[b.ins], f[b.ins]) && Later(b'.fn[b'.ins], f[b'.ins]);
    var to := if Off(env, st.head) then ABERROR else b'.ins;
    assert Step(f, c1) == Jump(f, b.ins, to, r', m);
    RunAdd(f, Here(b, r, m), 4, 1);
    assert Run(f, c1, 1) == Step(f, c1);
    n := 5;
    if Off(env, st.head) {
      ErrorExit(f, env, b.ins, r', m);
      RunAdd(f, Here(b, r, m), 5, 4);
      n := 9;
    }
  }

  /** Writing out the pending run: the code catches up with the interpreter, or finds the head off the tape. */
  lemma SimFlush(cur: Pending, b: Builder, f: Func, env: Env, r: Regs, m: Mem, st: State)
    returns (n: nat, r': Regs, m': Mem)
    requires Wf(b) && Extends(Flush(cur, b, env).fn, f) && HasHeader(f, env) && Rel(b.head, cur, r, m, st, env)
    ensures var b' := Flush(cur, b, env);
            if Off(env, st.head) then Faulted(Run(f, Here(b, r, m), n), st)
            else Wf(b') && Run(f, Here(b, r, m), n) == Here(b', r', m') && Rel(b'.head, NoSym, r', m', st, env)
  {
    FlushLocal(cur, b, env);
    m' := m;
    match cur {
      case NoSym => n, r' := 0, r;
      case Move(v) =>
        if env.checked {
          n, r' := SimMoveChecked(b, v, f, env, r, m, st);
        } else {
          r' := SimMoveUnchecked(b, v, f, env, r, m, st);
          n := 1;
        }
      case Change(v) =>
        r', m' := SimChange(b, v, f, env, r, m, st);
        n := 3;
    }
  }

  lemma SimRead(b: Builder, f: Func, env: Env, r: Regs, m: Mem, st: State, fuel: nat) returns (r': Regs, m': Mem)
    requires Wf(b) && Extends(EmitRead(b).fn, f) && Rel(b.head, NoSym, r, m, st, env)
    ensures Matches(f, Here(b, r, m), 3, ExecCmd(Read, st, fuel, env), fuel, NoSym, EmitRead(b), r', m', env)
  {
    hide ExecCode, ExecInstr, Step, Run, Extends;
    var code := ReadCode(b.next, b.head);
    AppendedCode(b, code, EmitRead(b), f);
    ExecRead(b.next, b.head, r, m);
    RunCode(f, b.ins, |b.fn[b.ins].code|, code, r, m);
    var e := ExecCode(code, r, m).value;
    r', m' := e.0, e.1;
  }

  lemma SimWrite(b: Builder, f: Func, env: Env, r: Regs, m: Mem, st: State, fuel: nat) returns (r': Regs, m': Mem)
    requires Wf(b) && Extends(EmitWrite(b).fn, f) && Rel(b.head, NoSym, r, m, st, env)
    ensures Matches(f, Here(b, r, m), 3, ExecCmd(Write, st, fuel, env), fuel, NoSym, EmitWrite(b), r', m', env)
  {
    hide ExecCode, ExecInstr, Step, Run, Extends;
    var code := WriteCode(b.next, b.head);
    AppendedCode(b, code, EmitWrite(b), f);
    ExecWrite(b.next, b.head, r, m);
    RunCode(f, b.ins, |b.fn[b.ins].code|, code, r, m);
    var e := ExecCode(code, r, m).value;
    r', m' := e.0, e.1;
  }

  // ----- loops -----

  /** The builder states inside the emission of a loop that starts at `b` with nothing pending. */
  function BodyEnd(body: seq<Cmd>, b: Builder, env: Env): (r: (Pending, Builder))
    requires Wf(b)
    ensures Wf(Open(b)) && Wf(r.1) && Local(Open(b), r.1)
  {
    OpenLocal(b);
    EmitCmds(body, NoSym, Open(b), env)
  }

  function LoopEnd(body: seq<Cmd>, b: Builder, env: Env): (b4: Builder)
    requires Wf(b)
    ensures Wf(b4) && Local(Open(b), b4) && CtxOk(b4, Ctx(b)) && b.next < b4.next
  {
    var (cur3, b3) := BodyEnd(body, b, env);
    FlushLocal(cur3, b3, env);
    LocalTransitive(Open(b), b3, Flush(cur3, b3, env));
    BodyKeepsCtx(b, Flush(cur3, b3, env));
    Flush(cur3, b3, env)
  }

  /** What the finished function holds for a loop. */
  ghost predicate LoopShape(f: Func, b: Builder, b4: Builder)
    requires Wf(b) && Wf(b4)
  {
    var test, phi, t, exit := Ctx(b).test, b.next, b4.next, |b4.fn|;
    && b.ins < |f| && test < |f| && b4.ins < |f| && exit < |f|
    && f[b.ins].code == b.fn[b.ins].code && f[b.ins].term == Some(Br(test))
    && f[b4.ins].code == b4.fn[b4.ins].code && f[b4.ins].term == Some(Br(test))
    && f[test].phi.Some? && f[test].phi.value.dst == phi
    && Incoming(f[test].phi.value.incoming, b.ins) == Some(b.head)
    && Incoming(f[test].phi.value.incoming, b4.ins) == Some(b4.head)
    && f[test].code == TestCode(t, phi) && f[test].term == Some(CondBr(t + 1, exit, Ctx(b).body))
    && Ctx(b).body < |f| && f[Ctx(b).body].phi.None?
    && f[exit].phi.Some? && f[exit].phi.value.dst == t + 2 && Incoming(f[exit].phi.value.incoming, test) == Some(phi)
  }

  lemma IncomingPrefix(inc: seq<(Reg, Label)>, inc': seq<(Reg, Label)>, from: Label)
    requires inc <= inc' && 1 <= |inc| <= 2 && Incoming(inc, from).Some?
    ensures Incoming(inc', from) == Incoming(inc, from)
  {
    assert inc'[0] == inc[0];
    if |inc| == 2 {
      assert inc'[1] == inc[1] && inc'[1..][0] == inc'[1] && inc[1..][0] == inc[1];
      assert inc[1..][1..] == [];
    } else {
      assert inc[1..] == [];
    }
  }

  /** The test block when the loop is closed. */
  lemma ClosedTest(b: Builder, b4: Builder)
    requires Wf(b) && Local(Open(b), b4) && CtxOk(b4, Ctx(b))
    ensures var b5 := Close(b4, Ctx(b)); var test := Ctx(b).test;
            && b5.fn[test] == Block(Some(Phi(b.next, [(b.head, b.ins), (b4.head, b4.ins)])), TestCode(b4.next, b.next),
                                    Some(CondBr(b4.next + 1, |b4.fn|, Ctx(b).body)))
            && b5.fn[b.ins] == b.fn[b.ins].(term := Some(Br(test)))
            && b5.fn[b4.ins] == b4.fn[b4.ins].(term := Some(Br(test)))
            && b5.fn[|b4.fn|] == Block(Some(Phi(b4.next + 2, [(b.next, test)])), [], None)
            && b5.fn[Ctx(b).body].phi.None?
            && b.ins != b4.ins && |b4.fn| < |b5.fn|
  {
    BodyKeepsCtx(b, b4);
    var b2 := Open(b);
    assert b2.fn[Ctx(b).test] == Block(Some(Phi(b.next, [(b.head, b.ins)])), [], None);
    assert b4.fn[b.ins] == b2.fn[b.ins];
    assert Later(b2.fn[b2.ins], b4.fn[b2.ins]);
    assert [(b.head, b.ins)] + [(b4.head, b4.ins)] == [(b.head, b.ins), (b4.head, b4.ins)];
  }

  lemma LoopShapeHolds(body: seq<Cmd>, b: Builder, env: Env, f: Func)
    requires Wf(b) && Extends(Close(LoopEnd(body, b, env), Ctx(b)).fn, f)
    ensures LoopShape(f, b, LoopEnd(body, b, env))
  {
    var b4 := LoopEnd(body, b, env);
    var b5 := Close(b4, Ctx(b));
    var test := Ctx(b).test;
    ClosedTest(b, b4);
    assert Later(b5.fn[test], f[test]) && Later(b5.fn[b.ins], f[b.ins]) && Later(b5.fn[b4.ins], f[b4.ins]);
    assert Later(b5.fn[|b4.fn|], f[|b4.fn|]) && Later(b5.fn[Ctx(b).body], f[Ctx(b).body]);
    var inc := [(b.head, b.ins), (b4.head, b4.ins)];
    assert inc[1..][0] == (b4.head, b4.ins);
    assert Incoming(inc[1..], b4.ins) == Some(b4.head);
    IncomingPrefix(inc, f[test].phi.value.incoming, b.ins);
    IncomingPrefix(inc, f[test].phi.value.incoming, b4.ins);
    IncomingPrefix([(b.next, test)], f[|b4.fn|].phi.value.incoming, test);
  }

  /** The branch into the test block, from before the loop or from its end. */
  lemma EnterTest(f: Func, b: Builder, b4: Builder, from: Builder, env: Env, r: Regs, m: Mem, st: State)
    requires Wf(b) && Wf(b4) && LoopShape(f, b, b4) && (from == b || from == b4)
    requires Rel(from.head, NoSym, r, m, st, env)
    ensures var r' := r[b.next := r[from.head]];
            && Run(f, Here(from, r, m), 1) == Running(Ctx(b).test, 0, r', m)
            && Rel(b.next, NoSym, r', m, st, env)
  {
    var c := Here(from, r, m);
    assert Run(f, c, 1) == Step(f, c);
    assert Step(f, c) == Jump(f, from.ins, Ctx(b).test, r, m);
  }

  /** The test itself: out of the loop if the cell is zero, else into the body. */
  lemma TestStep(f: Func, b: Builder, b4: Builder, env: Env, r: Regs, m: Mem, st: State) returns (r1: Regs, m1: Mem)
    requires Wf(b) && Wf(b4) && b.next < b4.next && LoopShape(f, b, b4) && Rel(b.next, NoSym, r, m, st, env)
    ensures Rel(b.next, NoSym, r1, m1, st.Touch(), env)
    ensures var c := Running(Ctx(b).test, 0, r, m);
            && Run(f, c, 2) == Running(Ctx(b).test, 2, r1, m1)
            && if st.Cell() == 0 then
                 Run(f, c, 3) == Running(|b4.fn|, 0, r1[b4.next + 2 := r1[b.next]], m1)
               else
                 Run(f, c, 3) == Running(Ctx(b).body, 0, r1, m1)
  {
    var test := Ctx(b).test;
    var code := TestCode(b4.next, b.next);
    var c := Running(test, 0, r, m);
    assert f[test].code[0..2] == code;
    ExecTest(b4.next, b.next, r, m);
    RunCode(f, test, 0, code, r, m);
    var e := ExecCode(code, r, m).value;
    r1, m1 := e.0, e.1;
    RunAdd(f, c, 2, 1);
    var c2 := Running(test, 2, r1, m1);
    assert Run(f, c2, 1) == Step(f, c2);
  }

  // ----- commands -----

  lemma NoSteps(f: Func, c: Config)
    ensures Run(f, c, 0) == c
  {
  }

  /** Steps before a match count towards it. */
  lemma {:induction false} MatchesAfter(f: Func, c: Config, k: nat, n: nat, out: Outcome, fuel1: nat, fuel: nat,
                                        cur: Pending, b: Builder, r: Regs, m: Mem, env: Env)
    requires b.ins < |b.fn| && Matches(f, Run(f, c, k), n, out, fuel1, cur, b, r, m, env) && fuel <= fuel1 + k
    ensures Matches(f, c, k + n, out, fuel, cur, b, r, m, env)
  {
    RunAdd(f, c, k, n);
  }

  lemma StillExtends(b: Builder, b': Builder, f: Func)
    requires Local(b, b') && Extends(b'.fn, f)
    ensures Extends(b.fn, f)
  {
    LocalExtends(b, b');
    ExtendsTransitive(b.fn, b'.fn, f);
  }

  /** `+-<>` are only taken note of; what was pending of the other kind is written out. */
  lemma {:induction false} SimFold(c: Cmd, cur: Pending, b: Builder, f: Func, env: Env, r: Regs, m: Mem, st: State,
                                   fuel: nat)
    returns (n: nat, r': Regs, m': Mem)
    requires c.Left? || c.Right? || c.Inc? || c.Dec?
    requires Wf(b) && HasHeader(f, env) && Rel(b.head, cur, r, m, st, env) && Extends(EmitCmd(c, cur, b, env).1.fn, f)
    ensures var (cur', b') := EmitCmd(c, cur, b, env);
            Matches(f, Here(b, r, m), n, ExecCmd(c, st, fuel, env), fuel, cur', b', r', m', env)
  {
    hide Extends, HasHeader, Local, SameStore, Run, Flush;
    NoSteps(f, Here(b, r, m));
    if cur.Move? && (c.Left? || c.Right?) {
      n, r', m' := 0, r, m;
    } else if cur.Change? && (c.Inc? || c.Dec?) {
      n, r', m' := 0, r, m;
      AheadChange(cur.v, if c.Inc? then 1 else -1, m, r[b.head]);
    } else {
      n, r', m' := SimFlush(cur, b, f, env, r, m, st);
    }
  }

  /** A change on top of a pending change. */
  lemma AheadChange(v: int, d: int, m: Mem, h: int)
    ensures var st := Ahead(Change(v), m, h);
            st.head == h && st.Put((st.Cell() + d) % 256) == Ahead(Change(v + d), m, h)
  {
    var x := m.At(h);
    assert ((x + v) % 256 + d) % 256 == (x + v + d) % 256;
    assert m.tape[h := (x + v) % 256][h := (x + v + d) % 256] == m.tape[h := (x + v + d) % 256];
  }

  lemma {:induction false} SimCmd(c: Cmd, cur: Pending, b: Builder, f: Func, env: Env, r: Regs, m: Mem, st: State,
                                  fuel: nat)
    returns (n: nat, r': Regs, m': Mem)
    requires Wf(b) && HasHeader(f, env) && Rel(b.head, cur, r, m, st, env) && Extends(EmitCmd(c, cur, b, env).1.fn, f)
    ensures var (cur', b') := EmitCmd(c, cur, b, env);
            Matches(f, Here(b, r, m), n, ExecCmd(c, st, fuel, env), fuel, cur', b', r', m', env)
    decreases fuel, c, 2
  {
    hide *;
    if c.Left? || c.Right? || c.Inc? || c.Dec? {
      n, r', m' := SimFold(c, cur, b, f, env, r, m, st, fuel);
    } else {
      n, r', m' := SimUnfolded(c, cur, b, f, env, r, m, st, fuel);
    }
  }

  /** A command that is not folded: first what was pending is written out, then the command. */
  lemma {:induction false} SimUnfolded(c: Cmd, cur: Pending, b: Builder, f: Func, env: Env, r: Regs, m: Mem, st: State,
                                       fuel: nat)
    returns (n: nat, r': Regs, m': Mem)
    requires c.Read? || c.Write? || c.Loop?
    requires Wf(b) && HasHeader(f, env) && Rel(b.head, cur, r, m, st, env) && Extends(EmitCmd(c, cur, b, env).1.fn, f)
    ensures var (cur', b') := EmitCmd(c, cur, b, env);
            Matches(f, Here(b, r, m), n, ExecCmd(c, st, fuel, env), fuel, cur', b', r', m', env)
    decreases fuel, c, 1
  {
    hide SameStore, Rel, Extends, HasHeader, Local, EmitCmd, ExecCmd, Flush, Run;
    var (cur', b') := EmitCmd(c, cur, b, env);
    var b1 := Flush(cur, b, env);
    AfterFlush(c, cur, b, env);
    StillExtends(b1, b', f);
    n, r', m' := SimFlush(cur, b, f, env, r, m, st);
    if Off(env, st.head) {
      OffFaults(c, st, fuel, env);
    } else {
      var k := n;
      n, r', m' := SimPlain(c, b1, f, env, r', m', st, fuel);
      MatchesAfter(f, Here(b, r, m), k, n, ExecCmd(c, st, fuel, env), fuel, fuel, cur', b', r', m', env);
      n := k + n;
    }
  }

  lemma {:induction false} OffFaults(c: Cmd, st: State, fuel: nat, env: Env)
    requires (c.Read? || c.Write? || c.Loop?) && Off(env, st.head)
    ensures ExecCmd(c, st, fuel, env) == Fault(st)
  {
  }

  /** A command that is not folded, with nothing pending. */
  lemma {:induction false} SimPlain(c: Cmd, b: Builder, f: Func, env: Env, r: Regs, m: Mem, st: State, fuel: nat)
    returns (n: nat, r': Regs, m': Mem)
    requires c.Read? || c.Write? || c.Loop?
    requires Wf(b) && HasHeader(f, env) && Rel(b.head, NoSym, r, m, st, env)
             && Extends(EmitCmd(c, NoSym, b, env).1.fn, f)
    ensures var (cur', b') := EmitCmd(c, NoSym, b, env);
            Matches(f, Here(b, r, m), n, ExecCmd(c, st, fuel, env), fuel, cur', b', r', m', env)
    decreases fuel, c, 0
  {
    hide SameStore, Rel, Extends, HasHeader, Local, Matches, Run;
    match c {
      case Read => r', m' := SimRead(b, f, env, r, m, st, fuel); n := 3;
      case Write => r', m' := SimWrite(b, f, env, r, m, st, fuel); n := 3;
      case Loop(body) => n, r', m' := SimWholeLoop(body, b, f, env, r, m, st, fuel);
    }
  }

  /** After what was pending, a command is emitted as if nothing had been. */
  lemma AfterFlush(c: Cmd, cur: Pending, b: Builder, env: Env)
    requires Wf(b) && (c.Read? || c.Write? || c.Loop?)
    ensures Wf(Flush(cur, b, env)) && EmitCmd(c, NoSym, Flush(cur, b, env), env) == EmitCmd(c, cur, b, env)
    ensures Local(Flush(cur, b, env), EmitCmd(c, cur, b, env).1)
  {
    FlushLocal(cur, b, env);
  }

  lemma {:induction false} SimWholeLoop(body: seq<Cmd>, b: Builder, f: Func, env: Env, r: Regs, m: Mem, st: State,
                                        fuel: nat)
    returns (n: nat, r': Regs, m': Mem)
    requires Wf(b) && HasHeader(f, env) && Rel(b.head, NoSym, r, m, st, env)
    requires Extends(Close(LoopEnd(body, b, env), Ctx(b)).fn, f)
    ensures Matches(f, Here(b, r, m), n, ExecLoop(body, st, fuel, env), fuel, NoSym,
            Close(LoopEnd(body, b, env), Ctx(b)), r', m', env)
    decreases fuel, body, 3
  {
    var b4 := LoopEnd(body, b, env);
    LoopShapeHolds(body, b, env, f);
    EnterTest(f, b, b4, b, env, r, m, st);
    var r1 := r[b.next := r[b.head]];
    n, r', m' := SimLoop(body, b, f, env, r1, m, st, fuel);
    MatchesAfter(f, Here(b, r, m), 1, n, ExecLoop(body, st, fuel, env), fuel, fuel, NoSym,
                 Close(b4, Ctx(b)), r', m', env);
    n := n + 1;
  }

  /** From the test block on, once per iteration. */
  lemma {:induction false} SimLoop(body: seq<Cmd>, b: Builder, f: Func, env: Env, r: Regs, m: Mem, st: State, fuel: nat)
    returns (n: nat, r': Regs, m': Mem)
    requires Wf(b) && HasHeader(f, env) && Rel(b.next, NoSym, r, m, st, env)
    requires Extends(Close(LoopEnd(body, b, env), Ctx(b)).fn, f)
    ensures Matches(f, Running(Ctx(b).test, 0, r, m), n, ExecLoop(body, st, fuel, env), fuel, NoSym,
            Close(LoopEnd(body, b, env), Ctx(b)), r', m', env)
    decreases fuel, body, 2
  {
    hide LoopShape, Extends, HasHeader, Local, Run, LoopEnd, Open;
    var b4 := LoopEnd(body, b, env);
    var b5 := Close(b4, Ctx(b));
    var c := Running(Ctx(b).test, 0, r, m);
    LoopShapeHolds(body, b, env, f);
    var r1, m1 := TestStep(f, b, b4, env, r, m, st);
    if st.Cell() == 0 {
      n, r', m' := 3, r1[b4.next + 2 := r1[b.next]], m1;
    } else if fuel == 0 {
      n, r', m' := 2, r1, m1;
    } else {
      n, r', m' := SimIteration(body, b, f, env, r1, m1, st.Touch(), fuel);
      MatchesAfter(f, c, 3, n, ExecLoop(body, st, fuel, env), fuel - 1, fuel, NoSym, b5, r', m', env);
      n := n + 3;
    }
  }

  /** One run of the body and what follows it. */
  lemma {:induction false} SimIteration(body: seq<Cmd>, b: Builder, f: Func, env: Env, r: Regs, m: Mem, st: State,
                                        fuel: nat)
    returns (n: nat, r': Regs, m': Mem)
    requires Wf(b) && HasHeader(f, env) && Rel(b.next, NoSym, r, m, st, env) && fuel > 0
    requires Extends(Close(LoopEnd(body, b, env), Ctx(b)).fn, f)
    ensures Matches(f, Running(Ctx(b).body, 0, r, m), n, AfterBody(body, Exec(body, st, fuel - 1, env), env),
                    fuel - 1, NoSym,
                    Close(LoopEnd(body, b, env), Ctx(b)), r', m', env)
    decreases fuel, body, 1
  {
    hide Rel, Extends, LoopShape, HasHeader, Local, Run, SameStore, Close, ExecLoop, Exec, Faulted, LoopEnd, BodyEnd,
         Open, Flush, Step;
    ClosedWf(body, b, env);
    BodyStarts(body, b, env);
    var b2, b4 := Open(b), LoopEnd(body, b, env);
    var b5 := Close(b4, Ctx(b));
    var (cur3, b3) := BodyEnd(body, b, env);
    var c := Here(b2, r, m);
    BodyExtends(body, b, env, f);
    n, r', m' := SimCmds(body, NoSym, b2, f, env, r, m, st, fuel - 1);
    var out := Exec(body, st, fuel - 1, env);
    if out.Done? {
      var k := n;
      n, r', m' := SimFlush(cur3, b3, f, env, r', m', out.st);
      RunAdd(f, c, k, n);
      if Off(env, out.st.head) {
        OffLoopFaults(body, out.st, out.fuel, env);
      } else {
        LoopShapeHolds(body, b, env, f);
        EnterTest(f, b, b4, b4, env, r', m', out.st);
        RunAdd(f, c, k + n, 1);
        k := k + n + 1;
        n, r', m' := SimLoop(body, b, f, env, r'[b.next := r'[b4.head]], m', out.st, out.fuel);
        MatchesAfter(f, c, k, n, ExecLoop(body, out.st, out.fuel, env), out.fuel, fuel - 1, NoSym, b5, r', m', env);
      }
      n := k + n;
    }
  }

  lemma {:induction false} OffLoopFaults(body: seq<Cmd>, st: State, fuel: nat, env: Env)
    requires Off(env, st.head)
    ensures ExecLoop(body, st, fuel, env) == Fault(st)
  {
  }

  lemma {:induction false} ClosedWf(body: seq<Cmd>, b: Builder, env: Env)
    requires Wf(b)
    ensures Wf(Close(LoopEnd(body, b, env), Ctx(b)))
  {
    LoopLocal(b, LoopEnd(body, b, env));
  }

  /** Where the body starts and how it ends. */
  lemma {:induction false} BodyStarts(body: seq<Cmd>, b: Builder, env: Env)
    requires Wf(b)
    ensures var b2 := Open(b);
            && Wf(b2) && b2.head == b.next && b2.ins == Ctx(b).body && b2.fn[b2.ins].code == []
            && EmitCmds(body, NoSym, b2, env) == BodyEnd(body, b, env)
            && Flush(BodyEnd(body, b, env).0, BodyEnd(body, b, env).1, env) == LoopEnd(body, b, env)
  {
  }

  /** What becomes of a loop after its body. */
  function AfterBody(body: seq<Cmd>, out: Outcome, env: Env): Outcome {
    match out
    case Done(st', fuel') => ExecLoop(body, st', fuel', env)
    case _ => out
  }

  lemma BodyExtends(body: seq<Cmd>, b: Builder, env: Env, f: Func)
    requires Wf(b) && Extends(Close(LoopEnd(body, b, env), Ctx(b)).fn, f)
    ensures Extends(BodyEnd(body, b, env).1.fn, f) && Extends(LoopEnd(body, b, env).fn, f)
  {
    var (cur3, b3) := BodyEnd(body, b, env);
    var b4 := LoopEnd(body, b, env);
    FlushLocal(cur3, b3, env);
    CloseExtends(b4, Ctx(b));
    ExtendsTransitive(b4.fn, Close(b4, Ctx(b)).fn, f);
    StillExtends(b3, b4, f);
  }

  lemma CloseExtends(b: Builder, loop: LoopCtx)
    requires Wf(b) && CtxOk(b, loop)
    ensures Extends(b.fn, Close(b, loop).fn)
  {
  }

  lemma {:induction false} SimCmds(p: seq<Cmd>, cur: Pending, b: Builder, f: Func, env: Env, r: Regs, m: Mem, st: State,
                                   fuel: nat)
    returns (n: nat, r': Regs, m': Mem)
    requires Wf(b) && HasHeader(f, env) && Rel(b.head, cur, r, m, st, env) && Extends(EmitCmds(p, cur, b, env).1.fn, f)
    ensures var (cur', b') := EmitCmds(p, cur, b, env);
            Matches(f, Here(b, r, m), n, Exec(p, st, fuel, env), fuel, cur', b', r', m', env)
    decreases fuel, p, 1
  {
    hide Rel, Extends, HasHeader, Local, SameStore, Faulted, Run, EmitCmd, ExecCmd;
    n, r', m' := 0, r, m;
    if p == [] {
      NoSteps(f, Here(b, r, m));
    } else {
      var (cur1, b1) := EmitCmd(p[0], cur, b, env);
      var (cur', b') := EmitCmds(p[1..], cur1, b1, env);
      StillExtends(b1, b', f);
      n, r', m' := SimCmd(p[0], cur, b, f, env, r, m, st, fuel);
      var out := ExecCmd(p[0], st, fuel, env);
      if out.Done? {
        var k := n;
        n, r', m' := SimCmds(p[1..], cur1, b1, f, env, r', m', out.st, out.fuel);
        MatchesAfter(f, Here(b, r, m), k, n, Exec(p[1..], out.st, out.fuel, env), out.fuel, fuel,
                     cur', b', r', m', env);
        n := k + n;
      }
    }
  }
}
