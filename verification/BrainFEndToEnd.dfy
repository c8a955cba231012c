/**
 From text to run: what the compiler makes of a text behaves as the program that the text spells.
 */
module BrainFEndToEnd {
  import opened Buffers
  import opened BrainFLanguage
  import opened Ir
  import opened BrainFEmit
  import opened BrainFParser
  import opened BrainFProgram
  import opened BrainFCorrect
  import BrainFWellFormed

  /** The compiled function stops only where interpretation does. */
  ghost predicate StopsAsInterpreted(f: Func, p: seq<Cmd>, env: Env) {
    forall junk: map<int, Byte>, input: seq<Byte>, n: nat ::
      Fresh(junk, env) && !Run(f, Start(junk, input), n).Running? ==>
        Agrees(Run(f, Start(junk, input), n), Interpret(p, input, n + 1, env), HeadReg(p, env))
  }

  lemma {:induction false} AlwaysStopsAsInterpreted(p: seq<Cmd>, env: Env)
    requires env.checked ==> env.size > 0
    ensures StopsAsInterpreted(Compile(p, env), p, env)
  {
    hide Compile, Interpret, HeadReg, Run, Agrees, Fresh;
    forall junk: map<int, Byte>, input: seq<Byte>, n: nat |
      Fresh(junk, env) && !Run(Compile(p, env), Start(junk, input), n).Running?
      ensures Agrees(Run(Compile(p, env), Start(junk, input), n), Interpret(p, input, n + 1, env), HeadReg(p, env))
    {
      CompiledStopsAsInterpreted(p, env, junk, input, n);
    }
  }

  /** Compiles a text. On success `p` is a program that it spells. */
  method CompileCorrectly(text: string, env: Env) returns (status: Status, fn: Func, ghost p: seq<Cmd>)
    ensures status == Compiled <==> Balanced(text)
    ensures status == ErrorExtra <==> Overclosed(text)
    ensures status == Compiled ==> Commands(text) == Text(p) && BrainFWellFormed.WellFormed(fn)
    ensures status == Compiled && (env.checked ==> env.size > 0) ==>
            Correct(fn, p, env) && StopsAsInterpreted(fn, p, env)
  {
    hide Correct, StopsAsInterpreted, Compile, Text;
    status, fn := CompileText(text, env);
    p := [];
    if status == Compiled {
      p :| Commands(text) == Text(p);
      BrainFWellFormed.CompiledWellFormed(p, env);
      CorrectExactly(env);
      if env.checked ==> env.size > 0 {
        AlwaysStopsAsInterpreted(p, env);
      }
    }
  }
}
