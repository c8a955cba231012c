/**
 Compiled BrainF programs are in static single assignment form.
 */
module BrainFSsa {
  import opened BrainFLanguage
  import opened Ir
  import opened Ssa
  import opened BrainFEmit

  function BaseRegs(env: Env): set<Reg> {
    if env.checked then {ARR, ARRMAX} else {ARR}
  }

  /** The function so far, with the registers known to have a value at the start of each block. */
  ghost predicate Inv(b: Builder, av: seq<set<Reg>>, env: Env) {
    && Wf(b) && FlowOk(b.fn, av) && av[0] == {}
    && (forall s :: 0 <= s < |b.fn| ==> PhiOk(b.fn, s))
    && BaseRegs(env) + {b.head} <= Out(b.fn, av, b.ins)
    && END < |b.fn| && av[END] <= {ARR} && b.fn[END].phi.None?
    && (env.checked ==> ABERROR < |b.fn| && av[ABERROR] <= {ARR} && b.fn[ABERROR].phi.None?)
  }

  // ----- straight-line code -----

  lemma {:induction false} AppendInv(b: Builder, av: seq<set<Reg>>, env: Env, code: seq<Instr>, head: Reg, next: Reg)
    requires Inv(b, av, env) && CodeOk(Out(b.fn, av, b.ins), code)
    requires head in Out(b.fn, av, b.ins) + CodeDefs(code) && head < next && 2 <= next
    ensures Inv(Append(b, code).(head := head, next := next), av, env)
    ensures Out(Append(b, code).fn, av, b.ins) == Out(b.fn, av, b.ins) + CodeDefs(code)
  {
    var f, f' := b.fn, Append(b, code).fn;
    CodeConcat(av[b.ins] + PhiDefs(f[b.ins]), f[b.ins].code, code);
    assert av[b.ins] + PhiDefs(f[b.ins]) + CodeDefs(f[b.ins].code) == Out(f, av, b.ins);
    assert Out(f', av, b.ins) == Out(f, av, b.ins) + CodeDefs(code);
    assert FlowOk(f', av) by {
      forall l | 0 <= l < |f'| ensures BlockOk(f', av, l) && TermOk(f', av, l) {
        assert BlockOk(f, av, l) && TermOk(f, av, l);
        forall s | s in Targets(f'[l]) ensures EdgeOk(f', av, l, s) {
          assert EdgeOk(f, av, l, s);
        }
      }
    }
    forall s | 0 <= s < |f'| ensures PhiOk(f', s) {
      assert PhiOk(f, s);
      KeepPhi(f, f', s);
    }
  }

  // ----- adding blocks and edges -----

  /** A phi node stays right while its block gets no new predecessor. */
  lemma {:induction false} KeepPhi(f: Func, f': Func, s: Label)
    requires s < |f| <= |f'| && PhiOk(f, s) && f'[s].phi == f[s].phi
    requires forall l :: 0 <= l < |f'| ==> (s in Targets(f'[l]) <==> l < |f| && s in Targets(f[l]))
    ensures PhiOk(f', s)
  {
  }

  /** Two phi nodes that take the same register when control comes from `l`. */
  predicate SameFrom(p: Option<Phi>, q: Option<Phi>, l: Label) {
    p == q || (p.Some? && q.Some? && Incoming(p.value.incoming, l).Some?
               && Incoming(q.value.incoming, l) == Incoming(p.value.incoming, l))
  }

  /** Blocks keep what they had when blocks are added and some blocks get a terminator. */
  lemma {:induction false} KeepBlock(f: Func, av: seq<set<Reg>>, f': Func, av': seq<set<Reg>>, l: Label)
    requires l < |f| == |av| <= |f'| == |av'| && av <= av'
    requires BlockOk(f, av, l) && TermOk(f, av, l)
    requires f'[l] == f[l]
    requires forall s :: s in Targets(f[l]) && s < |f| ==> SameFrom(f[s].phi, f'[s].phi, l)
    ensures BlockOk(f', av', l) && TermOk(f', av', l)
  {
    assert av'[l] == av[l];
    forall s | s in Targets(f'[l]) ensures EdgeOk(f', av', l, s) {
      assert EdgeOk(f, av, l, s) && av'[s] == av[s];
    }
  }

  /** Out-of-bounds branch: the next block is entered only from here, with the head that was tested. */
  lemma {:induction false} BranchInv(b: Builder, av: seq<set<Reg>>, env: Env, cond: Reg)
    requires Inv(b, av, env) && env.checked && cond in Out(b.fn, av, b.ins)
    ensures Inv(NewBlock(Terminate(b, CondBr(cond, ABERROR, |b.fn|)), None), av + [BaseRegs(env) + {b.head}], env)
  {
    var f, f' := b.fn, NewBlock(Terminate(b, CondBr(cond, ABERROR, |b.fn|)), None).fn;
    var av' := av + [BaseRegs(env) + {b.head}];
    assert Targets(f'[b.ins]) == {ABERROR, |f|} && Targets(f'[|f|]) == {};
    assert BlockOk(f, av, b.ins);
    forall l | 0 <= l < |f'| ensures BlockOk(f', av', l) && TermOk(f', av', l) {
      if l < |f| && l != b.ins {
        KeepBlock(f, av, f', av', l);
      }
    }
    forall s | 0 <= s < |f'| ensures PhiOk(f', s) {
      if s < |f| && s != ABERROR {
        TargetsBounded(f, av);
        KeepPhi(f, f', s);
      }
    }
  }

  /** Edges lead to blocks of the function. */
  lemma {:induction false} TargetsBounded(f: Func, av: seq<set<Reg>>)
    requires FlowOk(f, av)
    ensures forall l, s :: 0 <= l < |f| && s in Targets(f[l]) ==> s < |f|
  {
    forall l, s | 0 <= l < |f| && s in Targets(f[l]) ensures s < |f| {
      assert TermOk(f, av, l) && EdgeOk(f, av, l, s);
    }
  }

  // ----- loops -----

  /** An open loop: the test block has its phi and nothing else, the body may use that phi. */
  ghost predicate OpenLoop(b: Builder, av: seq<set<Reg>>, loop: LoopCtx, env: Env) {
    && CtxOk(b, loop) && |av| == |b.fn| && loop.body != loop.test
    && b.fn[loop.test].code == [] && b.fn[loop.body].phi.None?
    && av[loop.test] == BaseRegs(env) && av[loop.body] <= BaseRegs(env) + {b.fn[loop.test].phi.value.dst}
  }

  function OpenAvail(av: seq<set<Reg>>, phi: Reg, env: Env): seq<set<Reg>> {
    av + [BaseRegs(env), BaseRegs(env) + {phi}]
  }

  lemma {:induction false} OpenInv(b: Builder, av: seq<set<Reg>>, env: Env)
    requires Inv(b, av, env)
    ensures Inv(Open(b), OpenAvail(av, b.next, env), env)
    ensures OpenLoop(Open(b), OpenAvail(av, b.next, env), Ctx(b), env)
  {
    hide BlockOk, TermOk, PhiOk;
    forall l | 0 <= l < |Open(b).fn|
      ensures BlockOk(Open(b).fn, OpenAvail(av, b.next, env), l) && TermOk(Open(b).fn, OpenAvail(av, b.next, env), l)
    {
      OpenBlock(b, av, env, l);
    }
    forall s | 0 <= s < |Open(b).fn| ensures PhiOk(Open(b).fn, s) {
      OpenPhi(b, av, env, s);
    }
  }

  lemma {:induction false} OpenBlock(b: Builder, av: seq<set<Reg>>, env: Env, l: Label)
    requires Inv(b, av, env) && l < |b.fn| + 2
    ensures BlockOk(Open(b).fn, OpenAvail(av, b.next, env), l) && TermOk(Open(b).fn, OpenAvail(av, b.next, env), l)
  {
    var f, f', av', n := b.fn, Open(b).fn, OpenAvail(av, b.next, env), |b.fn|;
    assert Targets(f'[b.ins]) == {n} && Targets(f'[n]) == {} && Targets(f'[n + 1]) == {};
    assert BlockOk(f, av, b.ins);
    if l < n && l != b.ins {
      TargetsBounded(f, av);
      KeepBlock(f, av, f', av', l);
    }
  }

  lemma {:induction false} OpenPhi(b: Builder, av: seq<set<Reg>>, env: Env, s: Label)
    requires Inv(b, av, env) && s < |b.fn| + 2
    ensures PhiOk(Open(b).fn, s)
  {
    hide BlockOk;
    var f, f', n := b.fn, Open(b).fn, |b.fn|;
    assert Targets(f'[b.ins]) == {n} && Targets(f'[n]) == {} && Targets(f'[n + 1]) == {};
    TargetsBounded(f, av);
    if s < n {
      KeepPhi(f, f', s);
    } else if s == n {
      assert f'[n].phi.value.incoming[0].1 == b.ins;
    }
  }

  lemma {:induction false} IncomingSnoc(inc: seq<(Reg, Label)>, r: Reg, from: Label, l: Label)
    ensures Incoming(inc + [(r, from)], l)
            == if Incoming(inc, l).Some? then Incoming(inc, l) else if l == from then Some(r) else None
    decreases |inc|
  {
    if inc != [] {
      assert (inc + [(r, from)])[1..] == inc[1..] + [(r, from)];
      IncomingSnoc(inc[1..], r, from, l);
    }
  }

  lemma {:induction false} IncomingNone(inc: seq<(Reg, Label)>, l: Label)
    requires forall i :: 0 <= i < |inc| ==> inc[i].1 != l
    ensures Incoming(inc, l).None?
    decreases |inc|
  {
    if inc != [] {
      IncomingNone(inc[1..], l);
    }
  }

  /** The edges into the test block: the one of `[` stays, the one of `]` is new. */
  lemma {:induction false} CloseEntries(b: Builder, av: seq<set<Reg>>, loop: LoopCtx, env: Env, l: Label)
    requires Inv(b, av, env) && OpenLoop(b, av, loop, env) && l < |b.fn| && l != loop.test
    ensures var f', av' := Close(b, loop).fn, av + [BaseRegs(env)];
            BlockOk(f', av', l) && TermOk(f', av', l)
  {
    var f, f', av', test := b.fn, Close(b, loop).fn, av + [BaseRegs(env)], loop.test;
    if l == b.ins {
      BackEdge(b, av, loop, env);
    } else {
      hide CodeOk;
      assert BlockOk(f, av, l) && TermOk(f, av, l);
      IncomingSnoc(f[test].phi.value.incoming, b.head, b.ins, l);
      forall s | s in Targets(f[l]) && s < |f| ensures SameFrom(f[s].phi, f'[s].phi, l) {
        assert EdgeOk(f, av, l, s);
      }
      KeepBlock(f, av, f', av', l);
    }
  }

  /** The branch of `]`. */
  lemma {:induction false} BackEdge(b: Builder, av: seq<set<Reg>>, loop: LoopCtx, env: Env)
    requires Inv(b, av, env) && OpenLoop(b, av, loop, env)
    ensures var f', av' := Close(b, loop).fn, av + [BaseRegs(env)];
            BlockOk(f', av', b.ins) && TermOk(f', av', b.ins)
  {
    hide CodeOk;
    var f, f', av', test, l := b.fn, Close(b, loop).fn, av + [BaseRegs(env)], loop.test, b.ins;
    var inc := f[test].phi.value.incoming;
    assert BlockOk(f, av, l) && TermOk(f, av, l) && PhiOk(f, test);
    IncomingSnoc(inc, b.head, l, l);
    IncomingNone(inc, l);
    assert Targets(f'[l]) == {test} && Out(f', av', l) == Out(f, av, l);
  }

  lemma {:induction false} OneOk(avail: set<Reg>, i: Instr)
    requires Uses(i) <= avail
    ensures CodeOk(avail, [i]) && CodeDefs([i]) == Assigns(i)
  {
    assert [i][1..] == [];
  }

  lemma {:induction false} TestCodeOk(avail: set<Reg>, t: Reg, phi: Reg)
    requires phi in avail
    ensures CodeOk(avail, TestCode(t, phi)) && CodeDefs(TestCode(t, phi)) == {t, t + 1}
  {
    var load, icmp := Load(t, phi), IcmpEqZero(t + 1, t);
    OneOk(avail, load);
    OneOk(avail + {t}, icmp);
    CodeConcat(avail, [load], [icmp]);
    assert [load] + [icmp] == TestCode(t, phi);
  }

  /** The test block and the two edges out of it. */
  lemma {:induction false} CloseTest(b: Builder, av: seq<set<Reg>>, loop: LoopCtx, env: Env)
    requires Inv(b, av, env) && OpenLoop(b, av, loop, env)
    ensures var f', av' := Close(b, loop).fn, av + [BaseRegs(env)];
            BlockOk(f', av', loop.test) && TermOk(f', av', loop.test)
  {
    var f, f', av', n, test := b.fn, Close(b, loop).fn, av + [BaseRegs(env)], |b.fn|, loop.test;
    var phi, t := f[test].phi.value, b.next;
    var code := f'[test].code;
    var avail := av'[test] + PhiDefs(f'[test]);
    assert code == TestCode(t, phi.dst);
    TestCodeOk(avail, t, phi.dst);
    assert Targets(f'[test]) == {n, loop.body};
    assert BaseRegs(env) <= Out(f', av', test);
  }

  lemma {:induction false} SecondIncoming(f: Func, f': Func, test: Label, head: Reg, ins: Label)
    requires test < |f| < |f'| && ins < |f| && PhiOk(f, test) && f[test].phi.Some? && f'[test].phi.Some?
    requires f'[test].phi.value.incoming == f[test].phi.value.incoming + [(head, ins)]
    requires test !in Targets(f[ins])
    requires forall l :: 0 <= l < |f'| ==> (test in Targets(f'[l]) <==> l == ins || (l < |f| && test in Targets(f[l])))
    ensures PhiOk(f', test)
  {
    var inc, inc' := f[test].phi.value.incoming, f'[test].phi.value.incoming;
    assert inc'[|inc|].1 == ins;
    forall l | 0 <= l < |f'| && test in Targets(f'[l]) ensures exists i :: 0 <= i < |inc'| && inc'[i].1 == l {
      if l != ins {
        var i :| 0 <= i < |inc| && inc[i].1 == l;
        assert inc'[i].1 == l;
      }
    }
  }

  lemma {:induction false} ClosePhi(b: Builder, av: seq<set<Reg>>, loop: LoopCtx, env: Env, s: Label)
    requires Inv(b, av, env) && OpenLoop(b, av, loop, env) && s <= |b.fn|
    ensures PhiOk(Close(b, loop).fn, s)
  {
    var f, f', n, test := b.fn, Close(b, loop).fn, |b.fn|, loop.test;
    TargetsBounded(f, av);
    assert Targets(f[b.ins]) == {} && Targets(f'[b.ins]) == {test};
    assert Targets(f[test]) == {} && Targets(f'[test]) == {n, loop.body} && Targets(f'[n]) == {};
    if s == n {
      assert f'[n].phi.value.incoming[0].1 == test;
    } else if s == test {
      hide PhiOk;
      assert PhiOk(f, test);
      SecondIncoming(f, f', test, b.head, b.ins);
    } else if s != loop.body {
      hide PhiOk;
      assert PhiOk(f, s);
      KeepPhi(f, f', s);
    }
  }

  lemma {:induction false} CloseInv(b: Builder, av: seq<set<Reg>>, loop: LoopCtx, env: Env)
    requires Inv(b, av, env) && OpenLoop(b, av, loop, env)
    ensures Inv(Close(b, loop), av + [BaseRegs(env)], env)
  {
    hide PhiOk, TermOk, CodeOk;
    var f', av', n := Close(b, loop).fn, av + [BaseRegs(env)], |b.fn|;
    forall l | 0 <= l < |f'| ensures BlockOk(f', av', l) && TermOk(f', av', l) {
      if l == loop.test {
        CloseTest(b, av, loop, env);
      } else if l < n {
        CloseEntries(b, av, loop, env, l);
      } else {
        FreshBlock(f', av', n);
      }
    }
    forall s | 0 <= s < |f'| ensures PhiOk(f', s) {
      ClosePhi(b, av, loop, env, s);
    }
  }

  lemma {:induction false} FreshBlock(f: Func, av: seq<set<Reg>>, l: Label)
    requires l < |f| == |av| && f[l].code == [] && f[l].term.None?
    ensures BlockOk(f, av, l) && TermOk(f, av, l)
  {
  }

  // ----- commands -----

  lemma {:induction false} SetupOk(env: Env)
    ensures var setup := Header(env).fn[ENTRY].code;
            CodeOk({}, setup) && CodeDefs(setup) == BaseRegs(env) + {2}
  {
    var malloc, memset, last := CallMalloc(ARR, env.size), CallMemset(ARR, env.size), Gep(2, ARR, env.size / 2);
    var max := if env.checked then [Gep(ARRMAX, ARR, env.size)] else [];
    OneOk({}, malloc);
    OneOk({ARR}, memset);
    if env.checked {
      OneOk({ARR}, max[0]);
    }
    OneOk(BaseRegs(env), last);
    assert {} + {ARR} == {ARR} && {ARR} + {} == {ARR} && {} + {ARR} + {} == {ARR};
    CodeConcat({}, [malloc], [memset]);
    assert [malloc] + [memset] == [malloc, memset];
    assert CodeDefs([malloc, memset]) == {ARR};
    CodeConcat({}, [malloc, memset], max);
    assert {} + CodeDefs([malloc, memset] + max) == BaseRegs(env);
    CodeConcat({}, [malloc, memset] + max, [last]);
  }

  lemma {:induction false} HeaderInv(env: Env)
    ensures Inv(Header(env), if env.checked then [{}, {ARR}, {ARR}] else [{}, {ARR}], env)
  {
    var b := Header(env);
    var av: seq<set<Reg>> := if env.checked then [{}, {ARR}, {ARR}] else [{}, {ARR}];
    SetupOk(env);
    assert {} + PhiDefs(b.fn[ENTRY]) == {};
    OneOk({ARR}, CallFree(ARR));
    OneOk({ARR}, CallPuts);
    forall l | 0 <= l < |b.fn| ensures BlockOk(b.fn, av, l) && TermOk(b.fn, av, l) {
      if l != ENTRY {
        assert av[l] + PhiDefs(b.fn[l]) == {ARR};
      }
    }
  }

  lemma {:induction false} ThreeOk(avail: set<Reg>, i: Instr, j: Instr, k: Instr)
    requires Uses(i) <= avail && Uses(j) <= avail + Assigns(i) && Uses(k) <= avail + Assigns(i) + Assigns(j)
    ensures CodeOk(avail, [i, j, k]) && CodeDefs([i, j, k]) == Assigns(i) + Assigns(j) + Assigns(k)
  {
    assert [i, j, k][1..] == [j, k] && [j, k][1..] == [k] && [k][1..] == [];
    assert CodeOk(avail + Assigns(i) + Assigns(j), [k]) && CodeOk(avail + Assigns(i), [j, k]);
    assert CodeDefs([k]) == Assigns(k) && CodeDefs([j, k]) == Assigns(j) + Assigns(k);
  }

  /** The two registers every block may use, and the head, have values at the insertion point. */
  lemma {:induction false} InvHas(b: Builder, av: seq<set<Reg>>, env: Env)
    requires Inv(b, av, env)
    ensures Wf(b) && |av| == |b.fn| && BaseRegs(env) + {b.head} <= Out(b.fn, av, b.ins)
  {
  }

  lemma {:induction false} MoveInv(b: Builder, av: seq<set<Reg>>, env: Env, v: int) returns (av': seq<set<Reg>>)
    requires Inv(b, av, env)
    ensures Inv(EmitMove(b, v, env), av', env) && av <= av'
  {
    hide Inv, CodeOk, CodeDefs;
    InvHas(b, av, env);
    var h := b.next;
    var gep, out := Gep(h, b.head, v), Out(b.fn, av, b.ins);
    OneOk(out, gep);
    av' := av;
    if env.checked {
      var code := [gep] + CheckCode(h);
      ThreeOk(out + {h}, CheckCode(h)[0], CheckCode(h)[1], CheckCode(h)[2]);
      CodeConcat(out, [gep], CheckCode(h));
      AppendInv(b, av, env, code, h, h + 4);
      var b1 := Append(b, code).(head := h, next := h + 4);
      BranchInv(b1, av, env, h + 3);
      av' := av + [BaseRegs(env) + {h}];
    } else {
      AppendInv(b, av, env, [gep], h, h + 1);
    }
  }

  /** Three instructions on the cell under the head. */
  lemma {:induction false} CellInv(b: Builder, av: seq<set<Reg>>, env: Env, code: seq<Instr>)
    requires Inv(b, av, env)
    requires |code| == 3 && var out := Out(b.fn, av, b.ins);
             Uses(code[0]) <= out && Uses(code[1]) <= out + Assigns(code[0])
                 && Uses(code[2]) <= out + Assigns(code[0]) + Assigns(code[1])
    ensures Inv(Append(b, code).(next := b.next + 2), av, env)
  {
    hide Inv, CodeOk, CodeDefs;
    InvHas(b, av, env);
    assert code == [code[0], code[1], code[2]];
    ThreeOk(Out(b.fn, av, b.ins), code[0], code[1], code[2]);
    AppendInv(b, av, env, code, b.head, b.next + 2);
  }

  lemma {:induction false} FlushInv(cur: Pending, b: Builder, av: seq<set<Reg>>, env: Env) returns (av': seq<set<Reg>>)
    requires Inv(b, av, env)
    ensures Inv(Flush(cur, b, env), av', env) && av <= av'
  {
    hide Inv;
    InvHas(b, av, env);
    av' := av;
    match cur
    case NoSym =>
    case Move(v) => av' := MoveInv(b, av, env, v);
    case Change(v) => CellInv(b, av, env, ChangeCode(b.next, b.head, v));
  }

  /** An open loop stays as it was while its body is emitted. */
  lemma {:induction false} BodyKeepsLoop(b: Builder, b': Builder, av: seq<set<Reg>>, av': seq<set<Reg>>, env: Env)
    requires Wf(b) && Local(Open(b), b') && OpenLoop(Open(b), av, Ctx(b), env) && av <= av' && |av'| == |b'.fn|
    ensures OpenLoop(b', av', Ctx(b), env)
  {
    BodyKeepsCtx(b, b');
    OpenLocal(b);
    assert av'[Ctx(b).test] == av[Ctx(b).test] && av'[Ctx(b).body] == av[Ctx(b).body];
    assert Later(Open(b).fn[Ctx(b).body], b'.fn[Ctx(b).body]);
  }

  lemma {:induction false} CmdInv(c: Cmd, cur: Pending, b: Builder, av: seq<set<Reg>>, env: Env)
    returns (av': seq<set<Reg>>)
    requires Inv(b, av, env)
    ensures Inv(EmitCmd(c, cur, b, env).1, av', env) && av <= av'
    decreases c, 0
  {
    hide Inv, Local, OpenLoop, Flush, Open, Close;
    InvHas(b, av, env);
    FlushLocal(cur, b, env);
    var b1 := Flush(cur, b, env);
    var av1 := FlushInv(cur, b, av, env);
    InvHas(b1, av1, env);
    av' := if EmitCmd(c, cur, b, env).1 == b then av else av1;
    match c
    case Left =>
    case Right =>
    case Inc =>
    case Dec =>
    case Read => CellInv(b1, av1, env, ReadCode(b1.next, b1.head)); av' := av1;
    case Write => CellInv(b1, av1, env, WriteCode(b1.next, b1.head)); av' := av1;
    case Loop(body) =>
      av' := LoopInv(body, b1, av1, env);
  }

  lemma {:induction false} LoopInv(body: seq<Cmd>, b: Builder, av: seq<set<Reg>>, env: Env) returns (av': seq<set<Reg>>)
    requires Inv(b, av, env)
    ensures var b2 := Open(b);
            var (cur3, b3) := EmitCmds(body, NoSym, b2, env);
            var b4 := Flush(cur3, b3, env);
            CtxOk(b4, Ctx(b)) && Inv(Close(b4, Ctx(b)), av', env) && av <= av'
    decreases body, 2
  {
    hide Inv, Local, OpenLoop;
    InvHas(b, av, env);
    OpenLocal(b);
    var b2, av2 := Open(b), OpenAvail(av, b.next, env);
    OpenInv(b, av, env);
    var (cur3, b3) := EmitCmds(body, NoSym, b2, env);
    var av3 := CmdsInv(body, NoSym, b2, av2, env);
    FlushLocal(cur3, b3, env);
    var b4 := Flush(cur3, b3, env);
    var av4 := FlushInv(cur3, b3, av3, env);
    LocalTransitive(b2, b3, b4);
    BodyKeepsCtx(b, b4);
    InvHas(b4, av4, env);
    BodyKeepsLoop(b, b4, av2, av4, env);
    CloseInv(b4, av4, Ctx(b), env);
    av' := av4 + [BaseRegs(env)];
  }

  lemma {:induction false} CmdsInv(p: seq<Cmd>, cur: Pending, b: Builder, av: seq<set<Reg>>, env: Env)
    returns (av': seq<set<Reg>>)
    requires Inv(b, av, env)
    ensures Inv(EmitCmds(p, cur, b, env).1, av', env) && av <= av'
    decreases p, 1
  {
    hide Inv, Local, EmitCmd;
    InvHas(b, av, env);
    av' := av;
    if p != [] {
      var (cur1, b1) := EmitCmd(p[0], cur, b, env);
      var av1 := CmdInv(p[0], cur, b, av, env);
      av' := CmdsInv(p[1..], cur1, b1, av1, env);
    }
  }
}
