/**
 Every compiled BrainF program is well-formed static single assignment code.
 */
module BrainFWellFormed {
  import opened BrainFLanguage
  import opened Ir
  import opened Ssa
  import opened BrainFEmit
  import opened BrainFSsa

  // ----- terminators -----

  /**
   Emitting leaves no block without a terminator but the one at the insertion point and those that had none before.
   */
  ghost predicate Closes(b: Builder, b': Builder) {
    forall l :: 0 <= l < |b'.fn| && b'.fn[l].term.None? ==>
        l == b'.ins || (l < |b.fn| && l != b.ins && b.fn[l].term.None?)
  }

  lemma {:induction false} FlushCloses(cur: Pending, b: Builder, env: Env)
    requires Wf(b)
    ensures Closes(b, Flush(cur, b, env))
  {
  }

  lemma {:induction false} LoopCloses(b: Builder, b': Builder)
    requires Wf(b) && Local(Open(b), b') && CtxOk(b', Ctx(b)) && Closes(Open(b), b')
    ensures Closes(b, Close(b', Ctx(b)))
  {
    OpenLocal(b);
  }

  lemma {:induction false} CmdCloses(c: Cmd, cur: Pending, b: Builder, env: Env)
    requires Wf(b)
    ensures Closes(b, EmitCmd(c, cur, b, env).1)
    decreases c, 0
  {
    FlushLocal(cur, b, env);
    FlushCloses(cur, b, env);
    var b1 := Flush(cur, b, env);
    if c.Loop? {
      var b2 := Open(b1);
      OpenLocal(b1);
      var (cur3, b3) := EmitCmds(c.body, NoSym, b2, env);
      CmdsClose(c.body, NoSym, b2, env);
      FlushLocal(cur3, b3, env);
      FlushCloses(cur3, b3, env);
      var b4 := Flush(cur3, b3, env);
      LocalTransitive(b2, b3, b4);
      BodyKeepsCtx(b1, b4);
      LoopCloses(b1, b4);
    }
  }

  lemma {:induction false} CmdsClose(p: seq<Cmd>, cur: Pending, b: Builder, env: Env)
    requires Wf(b)
    ensures Closes(b, EmitCmds(p, cur, b, env).1)
    decreases p, 1
  {
    if p != [] {
      var (cur1, b1) := EmitCmd(p[0], cur, b, env);
      CmdCloses(p[0], cur, b, env);
      CmdsClose(p[1..], cur1, b1, env);
    }
  }

  // ----- single assignment -----

  /** Registers are handed out in order: everything assigned so far is below `n`, once. */
  ghost predicate Numbered(f: Func, n: Reg) {
    SingleAssignment(f) && forall l, r :: 0 <= l < |f| && r in Defs(f[l]) ==> r < n
  }

  /** Code that assigns new registers is added to one block. */
  lemma {:induction false} NumberedCode(f: Func, n: Reg, f': Func, n': Reg, at: Label, code: seq<Instr>)
    requires Numbered(f, n) && n <= n' && at < |f| == |f'| && f'[at].code == f[at].code + code
    requires forall l :: 0 <= l < |f| ==> PhiDefs(f'[l]) == PhiDefs(f[l]) && (l != at ==> f'[l].code == f[l].code)
    requires Distinct({}, code) && forall r :: r in CodeDefs(code) ==> n <= r < n'
    ensures Numbered(f', n')
  {
    CodeConcat({}, f[at].code, code);
    DistinctConcat(PhiDefs(f[at]), f[at].code, code);
    DistinctSeen({}, Defs(f[at]), code);
    assert {} + Defs(f[at]) == PhiDefs(f[at]) + CodeDefs(f[at].code);
    assert Defs(f'[at]) == Defs(f[at]) + CodeDefs(code);
    assert forall l :: 0 <= l < |f| && l != at ==> Defs(f'[l]) == Defs(f[l]);
  }

  /** Blocks are added with nothing but a phi node, which assigns a new register. */
  lemma {:induction false} NumberedBlock(f: Func, n: Reg, f': Func, n': Reg)
    requires Numbered(f, n) && n <= n' && |f'| == |f| + 1 && f'[|f|].code == []
    requires forall l :: 0 <= l < |f| ==> PhiDefs(f'[l]) == PhiDefs(f[l]) && f'[l].code == f[l].code
    requires forall r :: r in PhiDefs(f'[|f|]) ==> n <= r < n'
    ensures Numbered(f', n')
  {
    assert forall l :: 0 <= l < |f| ==> Defs(f'[l]) == Defs(f[l]);
    assert Defs(f'[|f|]) == PhiDefs(f'[|f|]);
  }

  lemma {:induction false} ThreeDistinct(i: Instr, j: Instr, k: Instr)
    requires Assigns(i) !! Assigns(j) && (Assigns(i) + Assigns(j)) !! Assigns(k)
    ensures Distinct({}, [i, j, k]) && CodeDefs([i, j, k]) == Assigns(i) + Assigns(j) + Assigns(k)
  {
    hide Distinct, CodeDefs, Assigns;
    assert [i] + [j, k] == [i, j, k] && [j] + [k] == [j, k] && [k] + [] == [k];
    var a: set<Reg> := {} + Assigns(i);
    assert a + Assigns(j) == Assigns(i) + Assigns(j);
    NoneDistinct(a + Assigns(j) + Assigns(k));
    DistinctCons(a + Assigns(j), k, []);
    DistinctCons(a, j, [k]);
    DistinctCons({}, i, [j, k]);
  }

  lemma {:induction false} NoneDistinct(seen: set<Reg>)
    ensures Distinct(seen, []) && CodeDefs([]) == {}
  {
  }

  lemma {:induction false} DistinctCons(seen: set<Reg>, i: Instr, rest: seq<Instr>)
    requires Assigns(i) !! seen && Distinct(seen + Assigns(i), rest)
    ensures Distinct(seen, [i] + rest) && CodeDefs([i] + rest) == Assigns(i) + CodeDefs(rest)
  {
    assert ([i] + rest)[1..] == rest;
  }

  lemma {:induction false} MoveDistinct(h: Reg, head: Reg, v: int)
    ensures Distinct({}, [Gep(h, head, v)]) && CodeDefs([Gep(h, head, v)]) == {h}
    ensures Distinct({}, [Gep(h, head, v)] + CheckCode(h))
    ensures CodeDefs([Gep(h, head, v)] + CheckCode(h)) == {h, h + 1, h + 2, h + 3}
  {
    var code := [Gep(h, head, v)];
    assert code[1..] == [];
    ThreeDistinct(CheckCode(h)[0], CheckCode(h)[1], CheckCode(h)[2]);
    DistinctSeen({}, {h}, CheckCode(h));
    assert {} + CodeDefs(code) == {} + {h};
    DistinctConcat({}, code, CheckCode(h));
    CodeConcat({}, code, CheckCode(h));
  }

  lemma {:induction false} CellNumbered(b: Builder, code: seq<Instr>)
    requires Wf(b) && Numbered(b.fn, b.next) && |code| == 3
    requires Assigns(code[0]) !! Assigns(code[1]) && (Assigns(code[0]) + Assigns(code[1])) !! Assigns(code[2])
    requires forall r :: r in Assigns(code[0]) + Assigns(code[1]) + Assigns(code[2]) ==> b.next <= r < b.next + 2
    ensures Numbered(Append(b, code).fn, b.next + 2)
  {
    hide Distinct, CodeDefs, Numbered;
    assert code == [code[0], code[1], code[2]];
    ThreeDistinct(code[0], code[1], code[2]);
    NumberedCode(b.fn, b.next, Append(b, code).fn, b.next + 2, b.ins, code);
  }

  lemma {:induction false} FlushNumbered(cur: Pending, b: Builder, env: Env)
    requires Wf(b) && Numbered(b.fn, b.next)
    ensures var b' := Flush(cur, b, env); Numbered(b'.fn, b'.next)
  {
    hide Distinct, CodeDefs, Numbered;
    if cur.Move? {
      var h, gep := b.next, [Gep(b.next, b.head, cur.v)];
      MoveDistinct(h, b.head, cur.v);
      if env.checked {
        var code := gep + CheckCode(h);
        var f1 := Append(b, code).fn;
        NumberedCode(b.fn, h, f1, h + 4, b.ins, code);
        NumberedBlock(f1, h + 4, Flush(cur, b, env).fn, h + 4);
      } else {
        NumberedCode(b.fn, h, Append(b, gep).fn, h + 1, b.ins, gep);
      }
    } else if cur.Change? {
      CellNumbered(b, ChangeCode(b.next, b.head, cur.v));
    }
  }

  lemma {:induction false} OpenNumbered(b: Builder)
    requires Wf(b) && Numbered(b.fn, b.next)
    ensures Numbered(Open(b).fn, Open(b).next)
  {
    hide Distinct, CodeDefs, Numbered;
    var f2 := NewBlock(Terminate(b, Br(|b.fn|)), Some(Phi(b.next, [(b.head, b.ins)]))).fn;
    NumberedBlock(b.fn, b.next, f2, b.next + 1);
    NumberedBlock(f2, b.next + 1, Open(b).fn, b.next + 1);
  }

  lemma {:induction false} CloseNumbered(b: Builder, loop: LoopCtx)
    requires Wf(b) && CtxOk(b, loop) && Numbered(b.fn, b.next)
    ensures Numbered(Close(b, loop).fn, Close(b, loop).next)
  {
    hide Distinct, CodeDefs, Numbered;
    var t, f' := b.next, Close(b, loop).fn;
    var code := TestCode(t, b.fn[loop.test].phi.value.dst);
    TestDistinct(t, b.fn[loop.test].phi.value.dst);
    NumberedCode(b.fn, t, f'[..|b.fn|], t + 2, loop.test, code);
    NumberedBlock(f'[..|b.fn|], t + 2, f', t + 3);
  }

  lemma {:induction false} TestDistinct(t: Reg, phi: Reg)
    ensures Distinct({}, TestCode(t, phi)) && CodeDefs(TestCode(t, phi)) == {t, t + 1}
  {
    var code := TestCode(t, phi);
    assert code[1..] == [IcmpEqZero(t + 1, t)] && code[1..][1..] == [];
    assert Distinct({} + {t}, code[1..]);
    TestCodeOk({phi}, t, phi);
  }

  lemma {:induction false} CmdNumbered(c: Cmd, cur: Pending, b: Builder, env: Env)
    requires Wf(b) && Numbered(b.fn, b.next)
    ensures var b' := EmitCmd(c, cur, b, env).1; Numbered(b'.fn, b'.next)
    decreases c, 0
  {
    hide Numbered, Local;
    FlushLocal(cur, b, env);
    FlushNumbered(cur, b, env);
    LocalWf(b, Flush(cur, b, env));
    var b1 := Flush(cur, b, env);
    match c
    case Left =>
    case Right =>
    case Inc =>
    case Dec =>
    case Read => CellNumbered(b1, ReadCode(b1.next, b1.head));
    case Write => CellNumbered(b1, WriteCode(b1.next, b1.head));
    case Loop(body) =>
      var b2 := Open(b1);
      OpenLocal(b1);
      LocalWf(b1, b2);
      OpenNumbered(b1);
      var (cur3, b3) := EmitCmds(body, NoSym, b2, env);
      CmdsNumbered(body, NoSym, b2, env);
      FlushLocal(cur3, b3, env);
      FlushNumbered(cur3, b3, env);
      var b4 := Flush(cur3, b3, env);
      LocalTransitive(b2, b3, b4);
      LocalWf(b2, b4);
      BodyKeepsCtx(b1, b4);
      CloseNumbered(b4, Ctx(b1));
  }

  lemma {:induction false} CmdsNumbered(p: seq<Cmd>, cur: Pending, b: Builder, env: Env)
    requires Wf(b) && Numbered(b.fn, b.next)
    ensures var b' := EmitCmds(p, cur, b, env).1; Numbered(b'.fn, b'.next)
    decreases p, 1
  {
    hide Numbered, Local, EmitCmd;
    if p != [] {
      var (cur1, b1) := EmitCmd(p[0], cur, b, env);
      CmdNumbered(p[0], cur, b, env);
      CmdsNumbered(p[1..], cur1, b1, env);
    }
  }

  lemma {:induction false} HeaderNumbered(env: Env)
    ensures Numbered(Header(env).fn, Header(env).next)
  {
    var b := Header(env);
    var setup := b.fn[ENTRY].code;
    OneOk({ARR}, CallFree(ARR));
    OneOk({}, CallPuts);
    forall l | 0 < l < |b.fn| ensures Defs(b.fn[l]) == {} && Distinct(PhiDefs(b.fn[l]), b.fn[l].code) {
      assert b.fn[l].code[1..] == [] && |b.fn[l].code| == 1;
      assert b.fn[l].code == [CallFree(ARR)] || b.fn[l].code == [CallPuts];
    }
    SetupOk(env);
    assert PhiDefs(b.fn[ENTRY]) == {} && Defs(b.fn[ENTRY]) == CodeDefs(setup);
    var malloc, memset, last := CallMalloc(ARR, env.size), CallMemset(ARR, env.size), Gep(2, ARR, env.size / 2);
    if env.checked {
      assert setup == [malloc] + [memset, Gep(ARRMAX, ARR, env.size), last];
      ThreeDistinct(memset, Gep(ARRMAX, ARR, env.size), last);
      DistinctSeen({}, {ARR}, [memset, Gep(ARRMAX, ARR, env.size), last]);
      assert setup[1..] == [memset, Gep(ARRMAX, ARR, env.size), last] && {} + {ARR} == {ARR};
      assert Distinct({} + Assigns(setup[0]), setup[1..]);
    } else {
      assert setup == [malloc, memset, last];
      ThreeDistinct(malloc, memset, last);
    }
  }

  // ----- the compiled function -----

  /**
   Well-formed static single assignment form: every block ends in one terminator, whose targets exist;
   every register is assigned once; every phi node has exactly one value for each predecessor; and on
   every path through the function a register is assigned before it is used.
   */
  ghost predicate WellFormed(f: Func) {
    && (forall l :: 0 <= l < |f| ==> f[l].term.Some? && forall s :: s in Targets(f[l]) ==> s < |f|)
    && SingleAssignment(f)
    && (forall s :: 0 <= s < |f| ==> PhiOk(f, s))
    && (forall path :: Path(f, path) ==> DefinedBeforeUse(f, path))
  }

  lemma {:induction false} FinishFlow(b: Builder, av: seq<set<Reg>>, env: Env)
    requires Inv(b, av, env)
    ensures FlowOk(Finish(b).fn, av) && av[0] == {} && forall s :: 0 <= s < |b.fn| ==> PhiOk(Finish(b).fn, s)
  {
    var f, f' := b.fn, Finish(b).fn;
    assert Targets(f'[b.ins]) == {END};
    TargetsBounded(f, av);
    assert BlockOk(f, av, b.ins);
    forall l | 0 <= l < |f'| ensures BlockOk(f', av, l) && TermOk(f', av, l) {
      if l != b.ins {
        KeepBlock(f, av, f', av, l);
      }
    }
    forall s | 0 <= s < |f'| ensures PhiOk(f', s) {
      if s != END {
        KeepPhi(f, f', s);
      }
    }
  }

  /** Everything compiled is well-formed, whatever the program and the depth of its loops. */
  lemma {:induction false} CompiledWellFormed(p: seq<Cmd>, env: Env)
    ensures WellFormed(Compile(p, env))
  {
    hide Inv, Numbered, FlowOk, PhiOk, SingleAssignment, DefinedBeforeUse, Header, Flush, EmitCmds, Path;
    var h, f := Header(env), Compile(p, env);
    var (cur, b) := EmitCmds(p, NoSym, h, env);
    HeaderInv(env);
    var av := CmdsInv(p, NoSym, h, if env.checked then [{}, {ARR}, {ARR}] else [{}, {ARR}], env);
    av := FlushInv(cur, b, av, env);
    var b1 := Flush(cur, b, env);
    InvHas(b1, av, env);
    FinishFlow(b1, av, env);
    TargetsBounded(f, av);
    forall path | Path(f, path) ensures DefinedBeforeUse(f, path) {
      FlowDominates(f, av, path);
    }
    HeaderNumbered(env);
    CmdsNumbered(p, NoSym, h, env);
    FlushNumbered(cur, b, env);
    FinishNumbered(b1);
    HeaderOpen(env);
    CmdsClose(p, NoSym, h, env);
    FlushCloses(cur, b, env);
  }

  lemma {:induction false} HeaderOpen(env: Env)
    ensures var h := Header(env); forall l :: 0 <= l < |h.fn| && h.fn[l].term.None? ==> l == h.ins
  {
  }

  lemma {:induction false} FinishNumbered(b: Builder)
    requires Wf(b) && Numbered(b.fn, b.next)
    ensures SingleAssignment(Finish(b).fn)
  {
    var f, f' := b.fn, Finish(b).fn;
    assert forall l :: 0 <= l < |f| ==> PhiDefs(f'[l]) == PhiDefs(f[l]) && f'[l].code == f[l].code;
  }
}
