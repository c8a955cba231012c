/**
 What the compiler emits for each symbol, as functions on the state of its IR builder: the blocks so
 far, the insertion point, the register that holds the head, and the next free register.
 */
module BrainFEmit {
  import opened BrainFLanguage
  import opened Ir

  const ENTRY: Label := 0
  const END: Label := 1
  const ABERROR: Label := 2
  const ARR: Reg := 0
  const ARRMAX: Reg := 1

  datatype Builder = Builder(fn: Func, ins: Label, head: Reg, next: Reg)

  /** A run of `+-` or `<>` that has been read and not written out yet. */
  datatype Pending = NoSym | Move(v: int) | Change(v: int)

  /** The open loop: its test block and the first block of its body (`testbb`, `oldbb`). */
  datatype LoopCtx = LoopCtx(test: Label, body: Label)

  predicate Wf(b: Builder) {
    && b.ins < |b.fn| && b.fn[b.ins].term.None?
    && b.head < b.next && 2 <= b.next
  }

  // ----- the builder -----

  function Append(b: Builder, code: seq<Instr>): Builder
    requires b.ins < |b.fn|
  {
    b.(fn := b.fn[b.ins := b.fn[b.ins].(code := b.fn[b.ins].code + code)])
  }

  function Terminate(b: Builder, t: Term): Builder
    requires b.ins < |b.fn|
  {
    b.(fn := b.fn[b.ins := b.fn[b.ins].(term := Some(t))])
  }

  /** A new block, and the insertion point in it. */
  function NewBlock(b: Builder, phi: Option<Phi>): Builder {
    b.(fn := b.fn + [Block(phi, [], None)], ins := |b.fn|)
  }

  // ----- header -----

  function Header(env: Env): (b: Builder)
    ensures Wf(b)
  {
    var setup := [CallMalloc(ARR, env.size), CallMemset(ARR, env.size)]
                 + (if env.checked then [Gep(ARRMAX, ARR, env.size)] else [])
                 + [Gep(2, ARR, env.size / 2)];
    var aberror := if env.checked then [Block(None, [CallPuts], Some(Br(END)))] else [];
    Builder([Block(None, setup, None), Block(None, [CallFree(ARR)], Some(Ret))] + aberror, ENTRY, 2, 3)
  }

  // ----- symbols -----

  function ReadCode(t: Reg, head: Reg): seq<Instr> {
    [CallGetchar(t), Trunc(t + 1, t), Store(t + 1, head)]
  }

  function WriteCode(t: Reg, head: Reg): seq<Instr> {
    [Load(t, head), SExt(t + 1, t), CallPutchar(t + 1)]
  }

  function ChangeCode(t: Reg, head: Reg, v: int): seq<Instr> {
    [Load(t, head), Add(t + 1, t, v % 256), Store(t + 1, head)]
  }

  function CheckCode(h: Reg): seq<Instr> {
    [IcmpUge(h + 1, h, ARRMAX), IcmpUlt(h + 2, h, ARR), Or(h + 3, h + 1, h + 2)]
  }

  function TestCode(t: Reg, phi: Reg): seq<Instr> {
    [Load(t, phi), IcmpEqZero(t + 1, t)]
  }

  function EmitRead(b: Builder): Builder
    requires Wf(b)
  {
    Append(b, ReadCode(b.next, b.head)).(next := b.next + 2)
  }

  function EmitWrite(b: Builder): Builder
    requires Wf(b)
  {
    Append(b, WriteCode(b.next, b.head)).(next := b.next + 2)
  }

  function EmitChange(b: Builder, v: int): Builder
    requires Wf(b)
  {
    Append(b, ChangeCode(b.next, b.head, v)).(next := b.next + 2)
  }

  function EmitMove(b: Builder, v: int, env: Env): Builder
    requires Wf(b)
  {
    var h := b.next;
    if !env.checked then Append(b, [Gep(h, b.head, v)]).(head := h, next := h + 1)
    else
      var b1 := Append(b, [Gep(h, b.head, v)] + CheckCode(h)).(head := h, next := h + 4);
      NewBlock(Terminate(b1, CondBr(h + 3, ABERROR, |b.fn|)), None)
  }

  /** Writes out the pending run. */
  function Flush(cur: Pending, b: Builder, env: Env): Builder
    requires Wf(b)
  {
    match cur
    case NoSym => b
    case Move(v) => EmitMove(b, v, env)
    case Change(v) => EmitChange(b, v)
  }

  /** `[`: branch to a test block whose phi has one value so far, and go on in the body. */
  function Open(b: Builder): Builder
    requires Wf(b)
  {
    var test := |b.fn|;
    var b1 := Terminate(b, Br(test));
    var b2 := NewBlock(b1, Some(Phi(b.next, [(b.head, b.ins)])));
    NewBlock(b2, None).(head := b.next, next := b.next + 1)
  }

  function Ctx(b: Builder): LoopCtx {
    LoopCtx(|b.fn|, |b.fn| + 1)
  }

  predicate CtxOk(b: Builder, loop: LoopCtx) {
    && loop.test < |b.fn| && loop.body < |b.fn| && loop.test != b.ins
    && b.fn[loop.test].phi.Some? && b.fn[loop.test].term.None?
  }

  /** `]`: branch back to the test block, complete its phi, write the test, and go on after the loop. */
  function Close(b: Builder, loop: LoopCtx): Builder
    requires Wf(b) && CtxOk(b, loop)
  {
    var b1 := Terminate(b, Br(loop.test));
    var phi := b.fn[loop.test].phi.value;
    var t := b.next;
    var testBlock := Block(Some(phi.(incoming := phi.incoming + [(b.head, b.ins)])),
                           b.fn[loop.test].code + TestCode(t, phi.dst),
                           Some(CondBr(t + 1, |b.fn|, loop.body)));
    var b2 := b1.(fn := b1.fn[loop.test := testBlock]);
    NewBlock(b2, Some(Phi(t + 2, [(phi.dst, loop.test)]))).(head := t + 2, next := t + 3)
  }

  /** The end of the program. */
  function Finish(b: Builder): Builder
    requires Wf(b)
  {
    Terminate(b, Br(END))
  }

  // ----- growth -----

  /** `y` is block `x` at a later time. */
  ghost predicate Later(x: Block, y: Block) {
    && x.code <= y.code
    && (x.term.Some? ==> y.term == x.term && y.code == x.code)
    && (x.phi.None? <==> y.phi.None?)
    && (x.phi.Some? ==> y.phi.value.dst == x.phi.value.dst && x.phi.value.incoming <= y.phi.value.incoming)
  }

  ghost predicate Extends(f: Func, g: Func) {
    |f| <= |g| && forall i :: 0 <= i < |f| ==> Later(f[i], g[i])
  }

  lemma ExtendsTransitive(f: Func, g: Func, h: Func)
    requires Extends(f, g) && Extends(g, h)
    ensures Extends(f, h)
  {
    forall i | 0 <= i < |f| ensures Later(f[i], h[i]) {
      assert Later(f[i], g[i]) && Later(g[i], h[i]);
    }
  }

  /**
   What emitting whole commands keeps: the builder stays usable, of the old blocks only the one at the
   insertion point grows, and the insertion point only moves to new blocks.
   */
  ghost predicate Local(b: Builder, b': Builder) {
    && Wf(b') && b.ins < |b.fn| <= |b'.fn| && b.next <= b'.next
    && (b'.ins == b.ins || b'.ins >= |b.fn|)
    && Later(b.fn[b.ins], b'.fn[b.ins])
    && (forall l :: 0 <= l < |b.fn| && l != b.ins ==> b'.fn[l] == b.fn[l])
  }

  lemma LocalExtends(b: Builder, b': Builder)
    requires Local(b, b')
    ensures Extends(b.fn, b'.fn)
  {
  }

  lemma LocalTransitive(b: Builder, b': Builder, b'': Builder)
    requires Local(b, b') && Local(b', b'')
    ensures Local(b, b'')
  {
  }

  lemma FlushLocal(cur: Pending, b: Builder, env: Env)
    requires Wf(b)
    ensures Local(b, Flush(cur, b, env))
  {
  }

  lemma OpenLocal(b: Builder)
    requires Wf(b)
    ensures Local(b, Open(b)) && CtxOk(Open(b), Ctx(b)) && |Open(b).fn| == |b.fn| + 2
  {
  }

  /** What is emitted inside a loop leaves its test block alone. */
  lemma BodyKeepsCtx(b: Builder, b': Builder)
    requires Wf(b) && Local(Open(b), b')
    ensures CtxOk(b', Ctx(b)) && b'.fn[Ctx(b).test] == Open(b).fn[Ctx(b).test]
    ensures b'.ins >= |b.fn| + 1
  {
    OpenLocal(b);
    assert Ctx(b).test != Open(b).ins;
  }

  lemma LoopLocal(b: Builder, b': Builder)
    requires Wf(b) && Local(Open(b), b') && CtxOk(b', Ctx(b))
    ensures Local(b, Close(b', Ctx(b)))
  {
    OpenLocal(b);
  }

  lemma {:induction false} WholeLoopLocal(b: Builder, b1: Builder, cur: Pending, b3: Builder, env: Env)
    requires Wf(b1) && Local(b, b1) && Local(Open(b1), b3)
    ensures var b4 := Flush(cur, b3, env);
            Wf(b4) && CtxOk(b4, Ctx(b1)) && Local(b, Close(b4, Ctx(b1)))
  {
    hide Local, Flush, Open, Close, CtxOk;
    LocalWf(Open(b1), b3);
    FlushLocal(cur, b3, env);
    var b4 := Flush(cur, b3, env);
    LocalWf(b3, b4);
    LocalTransitive(Open(b1), b3, b4);
    BodyKeepsCtx(b1, b4);
    LoopLocal(b1, b4);
    LocalTransitive(b, b1, Close(b4, Ctx(b1)));
  }

  lemma {:induction false} LocalWf(b: Builder, b': Builder)
    requires Local(b, b')
    ensures Wf(b')
  {
  }

  // ----- commands -----

  /** Runs of moves and of changes are gathered, everything else is written out at once. */
  function EmitCmd(c: Cmd, cur: Pending, b: Builder, env: Env): (r: (Pending, Builder))
    requires Wf(b)
    ensures Wf(r.1) && Local(b, r.1)
    decreases c, 0
  {
    FlushLocal(cur, b, env);
    var b1 := Flush(cur, b, env);
    match c
    case Left => if cur.Move? then (Move(cur.v - 1), b) else (Move(-1), b1)
    case Right => if cur.Move? then (Move(cur.v + 1), b) else (Move(1), b1)
    case Inc => if cur.Change? then (Change(cur.v + 1), b) else (Change(1), b1)
    case Dec => if cur.Change? then (Change(cur.v - 1), b) else (Change(-1), b1)
    case Read => (NoSym, EmitRead(b1))
    case Write => (NoSym, EmitWrite(b1))
    case Loop(body) =>
      var b2 := Open(b1);
      OpenLocal(b1);
      var (cur3, b3) := EmitCmds(body, NoSym, b2, env);
      var b4 := Flush(cur3, b3, env);
      WholeLoopLocal(b, b1, cur3, b3, env);
      (NoSym, Close(b4, Ctx(b1)))
  }

  function EmitCmds(p: seq<Cmd>, cur: Pending, b: Builder, env: Env): (r: (Pending, Builder))
    requires Wf(b)
    ensures Wf(r.1) && Local(b, r.1)
    decreases p, 1
  {
    if p == [] then (cur, b)
    else
      var (cur', b') := EmitCmd(p[0], cur, b, env);
      var r := EmitCmds(p[1..], cur', b', env);
      LocalTransitive(b, b', r.1);
      r
  }

  /** The function compiled from a program. */
  function Compile(p: seq<Cmd>, env: Env): Func {
    var (cur, b) := EmitCmds(p, NoSym, Header(env), env);
    FlushLocal(cur, b, env);
    Finish(Flush(cur, b, env)).fn
  }
}
