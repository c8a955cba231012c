/**
 Well-formedness of functions in static single assignment form, and the flow argument that
 establishes that every use is reached only through its definition.
 */
module Ssa {
  import opened Ir

  function Uses(i: Instr): set<Reg> {
    match i
    case CallMalloc(_, _) => {}
    case CallMemset(p, _) => {p}
    case CallFree(p) => {p}
    case CallGetchar(_) => {}
    case CallPutchar(s) => {s}
    case CallPuts => {}
    case Trunc(_, s) => {s}
    case SExt(_, s) => {s}
    case Load(_, p) => {p}
    case Store(s, p) => {s, p}
    case Add(_, s, _) => {s}
    case Gep(_, b, _) => {b}
    case IcmpUge(_, a, b) => {a, b}
    case IcmpUlt(_, a, b) => {a, b}
    case IcmpEqZero(_, s) => {s}
    case Or(_, a, b) => {a, b}
  }

  function Assigns(i: Instr): set<Reg> {
    match i
    case CallMemset(_, _) => {}
    case CallFree(_) => {}
    case CallPutchar(_) => {}
    case CallPuts => {}
    case Store(_, _) => {}
    case _ => {i.dst}
  }

  /** An instruction runs exactly if the registers it uses have values, and gives one to those it assigns. */
  lemma {:induction false} UsesAndAssigns(i: Instr, r: Regs, m: Mem)
    ensures ExecInstr(i, r, m).Some? <==> Uses(i) <= r.Keys && (i.Store? ==> 0 <= r[i.src] < 256)
    ensures ExecInstr(i, r, m).Some? ==> ExecInstr(i, r, m).value.0.Keys == r.Keys + Assigns(i)
    ensures ExecInstr(i, r, m).Some? ==>
              forall x :: x in r && x !in Assigns(i) ==> ExecInstr(i, r, m).value.0[x] == r[x]
  {
  }

  function CodeDefs(code: seq<Instr>): set<Reg> {
    if code == [] then {} else Assigns(code[0]) + CodeDefs(code[1..])
  }

  function PhiDefs(b: Block): set<Reg> {
    match b.phi
    case None => {}
    case Some(phi) => {phi.dst}
  }

  function Defs(b: Block): set<Reg> {
    PhiDefs(b) + CodeDefs(b.code)
  }

  function Targets(b: Block): set<Label> {
    match b.term
    case Some(Br(to)) => {to}
    case Some(CondBr(_, yes, no)) => {yes, no}
    case _ => {}
  }

  function TermUses(b: Block): set<Reg> {
    match b.term
    case Some(CondBr(c, _, _)) => {c}
    case _ => {}
  }

  /** Every instruction uses only registers that have a value when control arrives with those of `avail`. */
  predicate CodeOk(avail: set<Reg>, code: seq<Instr>)
    decreases |code|
  {
    code == [] || (Uses(code[0]) <= avail && CodeOk(avail + Assigns(code[0]), code[1..]))
  }

  lemma {:induction false} CodeConcat(avail: set<Reg>, a: seq<Instr>, b: seq<Instr>)
    ensures CodeDefs(a + b) == CodeDefs(a) + CodeDefs(b)
    ensures CodeOk(avail, a + b) <==> CodeOk(avail, a) && CodeOk(avail + CodeDefs(a), b)
    decreases |a|
  {
    if a == [] {
      assert a + b == b && avail + CodeDefs(a) == avail;
    } else {
      assert (a + b)[1..] == a[1..] + b;
      CodeConcat(avail + Assigns(a[0]), a[1..], b);
      assert avail + Assigns(a[0]) + CodeDefs(a[1..]) == avail + CodeDefs(a);
    }
  }

  lemma {:induction false} CodeMonotone(avail: set<Reg>, avail': set<Reg>, code: seq<Instr>)
    requires CodeOk(avail, code) && avail <= avail'
    ensures CodeOk(avail', code)
    decreases |code|
  {
    if code != [] {
      CodeMonotone(avail + Assigns(code[0]), avail' + Assigns(code[0]), code[1..]);
    }
  }

  /** No register is assigned twice in the code, or is one of `seen`. */
  predicate Distinct(seen: set<Reg>, code: seq<Instr>)
    decreases |code|
  {
    code == [] || (Assigns(code[0]) !! seen && Distinct(seen + Assigns(code[0]), code[1..]))
  }

  lemma {:induction false} DistinctConcat(seen: set<Reg>, a: seq<Instr>, b: seq<Instr>)
    ensures Distinct(seen, a + b) <==> Distinct(seen, a) && Distinct(seen + CodeDefs(a), b)
    decreases |a|
  {
    if a == [] {
      assert a + b == b && seen + CodeDefs(a) == seen;
    } else {
      assert (a + b)[1..] == a[1..] + b;
      DistinctConcat(seen + Assigns(a[0]), a[1..], b);
      assert seen + Assigns(a[0]) + CodeDefs(a[1..]) == seen + CodeDefs(a);
    }
  }

  /** Whatever has been seen, code that assigns other registers only is as distinct as before. */
  lemma {:induction false} DistinctSeen(seen: set<Reg>, more: set<Reg>, code: seq<Instr>)
    requires Distinct(seen, code) && more !! CodeDefs(code)
    ensures Distinct(seen + more, code)
    decreases |code|
  {
    if code != [] {
      DistinctSeen(seen + Assigns(code[0]), more, code[1..]);
      assert seen + more + Assigns(code[0]) == seen + Assigns(code[0]) + more;
    }
  }

  /** Every register is assigned by one instruction or phi node of the function. */
  ghost predicate SingleAssignment(f: Func) {
    && (forall l :: 0 <= l < |f| ==> Distinct(PhiDefs(f[l]), f[l].code))
    && (forall k, l :: 0 <= k < l < |f| ==> Defs(f[k]) !! Defs(f[l]))
  }

  // ----- flow facts -----

  /** Registers with a value at the end of a block. */
  function Out(f: Func, av: seq<set<Reg>>, l: Label): set<Reg>
    requires l < |f| == |av|
  {
    av[l] + Defs(f[l])
  }

  ghost predicate BlockOk(f: Func, av: seq<set<Reg>>, l: Label)
    requires l < |f| == |av|
  {
    CodeOk(av[l] + PhiDefs(f[l]), f[l].code)
  }

  /** What holds across the edge from `l` to `s`. */
  ghost predicate EdgeOk(f: Func, av: seq<set<Reg>>, l: Label, s: Label)
    requires l < |f| == |av|
  {
    && s < |f| && av[s] <= Out(f, av, l)
    && match f[s].phi
       case None => true
       case Some(phi) => Incoming(phi.incoming, l).Some? && Incoming(phi.incoming, l).value in Out(f, av, l)
  }

  ghost predicate TermOk(f: Func, av: seq<set<Reg>>, l: Label)
    requires l < |f| == |av|
  {
    TermUses(f[l]) <= Out(f, av, l) && forall s :: s in Targets(f[l]) ==> EdgeOk(f, av, l, s)
  }

  /** Phi nodes have one value for each predecessor and none for any other block. */
  ghost predicate PhiOk(f: Func, s: Label)
    requires s < |f|
  {
    match f[s].phi
    case None => true
    case Some(phi) =>
      && (forall i, j :: 0 <= i < j < |phi.incoming| ==> phi.incoming[i].1 != phi.incoming[j].1)
      && (forall i :: 0 <= i < |phi.incoming| ==> phi.incoming[i].1 < |f| && s in Targets(f[phi.incoming[i].1]))
      && (forall l :: 0 <= l < |f| && s in Targets(f[l]) ==>
         exists i :: 0 <= i < |phi.incoming| && phi.incoming[i].1 == l)
  }

  ghost predicate FlowOk(f: Func, av: seq<set<Reg>>) {
    |f| == |av| && forall l :: 0 <= l < |f| ==> BlockOk(f, av, l) && TermOk(f, av, l)
  }

  // ----- paths -----

  /** A path through the control-flow graph from the first block, whatever the conditions evaluate to. */
  ghost predicate Path(f: Func, path: seq<Label>) {
    && |path| > 0 && path[0] == 0 && |f| > 0
    && (forall i :: 0 <= i < |path| ==> path[i] < |f|)
    && (forall i :: 0 < i < |path| ==> path[i] in Targets(f[path[i - 1]]))
  }

  /** What the blocks of a path define. */
  function DefinedOn(f: Func, path: seq<Label>): set<Reg>
    requires forall i :: 0 <= i < |path| ==> path[i] < |f|
  {
    if path == [] then {} else DefinedOn(f, path[..|path| - 1]) + Defs(f[path[|path| - 1]])
  }

  lemma {:induction false} AvailableOnPath(f: Func, av: seq<set<Reg>>, path: seq<Label>)
    requires FlowOk(f, av) && Path(f, path) && av[0] == {}
    ensures av[path[|path| - 1]] <= DefinedOn(f, path[..|path| - 1])
    decreases |path|
  {
    var n := |path| - 1;
    if n > 0 {
      var before := path[..n];
      assert Path(f, before) by {
        assert forall i :: 0 <= i < |before| ==> before[i] == path[i];
      }
      AvailableOnPath(f, av, before);
      assert TermOk(f, av, path[n - 1]) && EdgeOk(f, av, path[n - 1], path[n]);
      assert before[..n - 1] == path[..n - 1] && before[n - 1] == path[n - 1];
    }
  }

  /** A definition is met before each use, on every path: along the path, at the head of the block, or above in it. */
  ghost predicate DefinedBeforeUse(f: Func, path: seq<Label>)
    requires Path(f, path)
  {
    var n := |path| - 1;
    var b := f[path[n]];
    && CodeOk(DefinedOn(f, path[..n]) + PhiDefs(b), b.code)
    && TermUses(b) <= DefinedOn(f, path)
    && forall s :: s in Targets(b) && s < |f| && f[s].phi.Some? ==>
         Incoming(f[s].phi.value.incoming, path[n]).Some?
             && Incoming(f[s].phi.value.incoming, path[n]).value in DefinedOn(f, path)
  }

  lemma {:induction false} FlowDominates(f: Func, av: seq<set<Reg>>, path: seq<Label>)
    requires FlowOk(f, av) && Path(f, path) && av[0] == {}
    ensures DefinedBeforeUse(f, path)
  {
    var n := |path| - 1;
    var l := path[n];
    AvailableOnPath(f, av, path);
    assert BlockOk(f, av, l) && TermOk(f, av, l);
    CodeMonotone(av[l] + PhiDefs(f[l]), DefinedOn(f, path[..n]) + PhiDefs(f[l]), f[l].code);
    assert Out(f, av, l) <= DefinedOn(f, path);
    assert forall s :: s in Targets(f[l]) ==> EdgeOk(f, av, l, s);
  }
}
