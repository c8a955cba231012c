/**
 The BrainF language: its text, its programs, and their direct interpretation.
 */
module BrainFLanguage {
  import opened Buffers

  // ----- programs and their text -----

  datatype Cmd = Read | Write | Left | Right | Inc | Dec | Loop(body: seq<Cmd>)

  predicate IsCommand(c: char) {
    c == ',' || c == '.' || c == '-' || c == '+' || c == '<' || c == '>' || c == '[' || c == ']'
  }

  /** Everything but the eight commands is a comment. */
  function Commands(text: string): (cs: string)
    ensures |cs| <= |text| && forall i :: 0 <= i < |cs| ==> IsCommand(cs[i])
  {
    if text == "" then ""
    else if IsCommand(text[0]) then [text[0]] + Commands(text[1..])
    else Commands(text[1..])
  }

  /** The commands are kept, in order, and nothing else is. */
  lemma {:induction false} CommandsKept(a: string, c: char, b: string)
    ensures Commands(a + [c] + b) == Commands(a) + (if IsCommand(c) then [c] else []) + Commands(b)
    ensures Commands(a + b) == Commands(a) + Commands(b)
  {
    if a == "" {
      assert a + [c] + b == [c] + b && ([c] + b)[1..] == b && a + b == b;
    } else {
      assert (a + [c] + b)[1..] == a[1..] + [c] + b && (a + b)[1..] == a[1..] + b;
      CommandsKept(a[1..], c, b);
    }
  }

  function Text(p: seq<Cmd>): string
    decreases p
  {
    if p == [] then "" else CmdText(p[0]) + Text(p[1..])
  }

  function CmdText(c: Cmd): string
    decreases c
  {
    match c
    case Read => ","
    case Write => "."
    case Left => "<"
    case Right => ">"
    case Inc => "+"
    case Dec => "-"
    case Loop(body) => "[" + Text(body) + "]"
  }

  // ----- direct interpretation -----

  /**
   What a running program can see: the tape (cells not listed are 0), the head, the input still to
   come, the output so far, and the cells that have been read or written.
   */
  datatype State = State(tape: map<int, Byte>, head: int, input: seq<Byte>, output: seq<Byte>, touched: set<int>) {
    function Cell(): Byte {
      if head in tape then tape[head] else 0
    }

    function Touch(): State {
      this.(touched := touched + {head})
    }

    function Put(v: Byte): State {
      this.(tape := tape[head := v], touched := touched + {head})
    }
  }

  /** `memtotal`, and whether the head is checked against it (`flag_arraybounds`) */
  datatype Env = Env(checked: bool, size: nat)

  predicate Off(env: Env, head: int) {
    env.checked && !(0 <= head < env.size)
  }

  datatype Outcome =
    | Done(st: State, fuel: nat)
    | Fault(st: State)    // the head has left the tape
    | Timeout(st: State)  // out of fuel at the start of a loop iteration

  /**
   One command. The head may pass over the edge of the tape and come back; being off it is an error
   when any other command, or the end of the program, is reached. Each loop iteration takes one unit of fuel.
   */
  function ExecCmd(c: Cmd, st: State, fuel: nat, env: Env): (out: Outcome)
    ensures out.Done? ==> out.fuel <= fuel
    decreases fuel, c, 0
  {
    match c
    case Left => Done(st.(head := st.head - 1), fuel)
    case Right => Done(st.(head := st.head + 1), fuel)
    case Loop(body) => ExecLoop(body, st, fuel, env)
    case Read =>
      if Off(env, st.head) then Fault(st)
      else if st.input == [] then Done(st.Put(255), fuel)
      else Done(st.Put(st.input[0]).(input := st.input[1..]), fuel)
    case Write =>
      if Off(env, st.head) then Fault(st)
      else Done(st.Touch().(output := st.output + [st.Cell()]), fuel)
    case Inc =>
      if Off(env, st.head) then Fault(st)
      else Done(st.Put((st.Cell() + 1) % 256), fuel)
    case Dec =>
      if Off(env, st.head) then Fault(st)
      else Done(st.Put((st.Cell() - 1) % 256), fuel)
  }

  function ExecLoop(body: seq<Cmd>, st: State, fuel: nat, env: Env): (out: Outcome)
    ensures out.Done? ==> out.fuel <= fuel
    decreases fuel, body, 2
  {
    if Off(env, st.head) then Fault(st)
    else if st.Cell() == 0 then Done(st.Touch(), fuel)
    else if fuel == 0 then Timeout(st.Touch())
    else
      match Exec(body, st.Touch(), fuel - 1, env)
      case Done(st', fuel') => ExecLoop(body, st', fuel', env)
      case out => out
  }

  function Exec(p: seq<Cmd>, st: State, fuel: nat, env: Env): (out: Outcome)
    ensures out.Done? ==> out.fuel <= fuel
    decreases fuel, p, 1
  {
    if p == [] then Done(st, fuel)
    else
      match ExecCmd(p[0], st, fuel, env)
      case Done(st', fuel') => Exec(p[1..], st', fuel', env)
      case out => out
  }

  /** A whole program, on a zeroed tape with the head in the middle. */
  function Interpret(p: seq<Cmd>, input: seq<Byte>, fuel: nat, env: Env): Outcome {
    match Exec(p, State(map[], env.size / 2, input, [], {}), fuel, env)
    case Done(st, fuel') => if Off(env, st.head) then Fault(st) else Done(st, fuel')
    case out => out
  }
}
