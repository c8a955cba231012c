/**
 From text to compiled function: the parser accepts exactly the balanced texts, and compiles each to
 the function of the program it spells.
 */
module BrainFProgram {
  import opened BrainFLanguage
  import opened Ir
  import opened BrainFEmit
  import opened BrainFParser

  // ----- comments -----

  /** What remains after parsing, without its comments. */
  function Stripped(r: Parsed): Parsed {
    match r
    case Ok(b, rest) => Ok(b, Commands(rest))
    case _ => r
  }

  lemma {:induction false} CommentsIgnored(text: string, cur: Pending, b: Builder, loop: Option<LoopCtx>, env: Env)
    requires CanParse(b, loop)
    ensures EmitText(Commands(text), cur, b, loop, env) == Stripped(EmitText(text, cur, b, loop, env))
    decreases |text|
  {
    hide CanParse, EmitText, Flush, EmitChar, Open, Close, Finish;
    ParseWf(b, loop);
    var cs := Commands(text);
    if text == "" || text[0] == ']' {
      EndStep(text, cur, b, loop, env);
      EndStep(cs, cur, b, loop, env);
    } else if text[0] == '[' {
      NestStep(text, cur, b, loop, env);
      NestStep(cs, cur, b, loop, env);
      var b1 := Flush(cur, b, env);
      CommentsIgnored(text[1..], NoSym, Open(b1), Some(Ctx(b1)), env);
      var inner := EmitText(text[1..], NoSym, Open(b1), Some(Ctx(b1)), env);
      if inner.Ok? {
        CommentsIgnored(inner.rest, NoSym, inner.b, loop, env);
      }
    } else {
      CharStep(text, cur, b, loop, env);
      var (cur', b') := EmitChar(text[0], cur, b, env);
      CommentsIgnored(text[1..], cur', b', loop, env);
      if IsCommand(text[0]) {
        CharStep(cs, cur, b, loop, env);
      } else {
        CommentChar(text[0], cur, b, env);
      }
    }
  }

  // ----- the text of a program is parsed to its code -----

  lemma {:induction false} TextParses(p: seq<Cmd>, rest: string, cur: Pending, b: Builder, loop: Option<LoopCtx>,
                                      env: Env)
    requires CanParse(b, loop)
    ensures var (cur', b') := EmitCmds(p, cur, b, env);
            CanParse(b', loop) && EmitText(Text(p) + rest, cur, b, loop, env) == EmitText(rest, cur', b', loop, env)
    decreases p, 1
  {
    hide CanParse, EmitText, Local, Wf, EmitCmd, CmdText;
    ParseWf(b, loop);
    if p == [] {
      assert Text(p) + rest == rest;
    } else {
      var (cur1, b1) := EmitCmd(p[0], cur, b, env);
      assert Text(p) + rest == CmdText(p[0]) + (Text(p[1..]) + rest);
      CmdParses(p[0], Text(p[1..]) + rest, cur, b, loop, env);
      TextParses(p[1..], rest, cur1, b1, loop, env);
    }
  }

  lemma {:induction false} CmdParses(c: Cmd, rest: string, cur: Pending, b: Builder, loop: Option<LoopCtx>, env: Env)
    requires CanParse(b, loop)
    ensures var (cur', b') := EmitCmd(c, cur, b, env);
            CanParse(b', loop) && EmitText(CmdText(c) + rest, cur, b, loop, env) == EmitText(rest, cur', b', loop, env)
    decreases c, 0
  {
    hide CanParse, EmitText, Local, Wf;
    ParseWf(b, loop);
    LocalCanParse(b, EmitCmd(c, cur, b, env).1, loop);
    if c.Loop? || c.Read? || c.Write? {
      FlushEarly(CmdText(c) + rest, cur, b, loop, env);
      var b1 := Flush(cur, b, env);
      ParseWf(b1, loop);
      if c.Loop? {
        LoopParses(c.body, rest, b1, loop, env);
      } else {
        ReadStep(rest, b1, loop, env);
      }
    } else {
      FoldParses(c, rest, cur, b, loop, env);
    }
  }

  lemma ParseWf(b: Builder, loop: Option<LoopCtx>)
    requires CanParse(b, loop)
    ensures Wf(b)
  {
  }

  lemma FoldParses(c: Cmd, rest: string, cur: Pending, b: Builder, loop: Option<LoopCtx>, env: Env)
    requires CanParse(b, loop) && (c.Inc? || c.Dec? || c.Left? || c.Right?)
    ensures var (cur', b') := EmitCmd(c, cur, b, env);
            CanParse(b', loop) && EmitText(CmdText(c) + rest, cur, b, loop, env) == EmitText(rest, cur', b', loop, env)
  {
    hide EmitText, Open, Close, EmitMove, EmitChange;
    var ch := CmdText(c)[0];
    assert CmdText(c) == [ch];
    if Continues(ch, cur) {
      GatherStep(ch, rest, cur, b, loop, env);
    } else {
      FlushEarly([ch] + rest, cur, b, loop, env);
      GatherStep(ch, rest, NoSym, Flush(cur, b, env), loop, env);
    }
  }

  lemma {:induction false} LoopParses(body: seq<Cmd>, rest: string, b: Builder, loop: Option<LoopCtx>, env: Env)
    requires CanParse(b, loop) && Wf(b)
    ensures var (cur', b') := EmitCmd(Loop(body), NoSym, b, env);
            CanParse(b', loop) && EmitText(CmdText(Loop(body)) + rest, NoSym, b, loop, env)
                == EmitText(rest, NoSym, b', loop, env)
    decreases body, 2
  {
    hide Local, EmitText;
    var after := "]" + rest;
    assert CmdText(Loop(body)) + rest == "[" + (Text(body) + after);
    OpenStep(Text(body) + after, b, loop, env);
    TextParses(body, after, NoSym, Open(b), Some(Ctx(b)), env);
    var (cur3, b3) := EmitCmds(body, NoSym, Open(b), env);
    CloseStep(rest, cur3, b3, Ctx(b), env);
  }

  lemma CloseStep(rest: string, cur: Pending, b: Builder, loop: LoopCtx, env: Env)
    requires CanParse(b, Some(loop))
    ensures CanParse(Flush(cur, b, env), Some(loop))
    ensures EmitText("]" + rest, cur, b, Some(loop), env) == Ok(Close(Flush(cur, b, env), loop), rest)
  {
    FlushLocal(cur, b, env);
    LocalCanParse(b, Flush(cur, b, env), Some(loop));
    assert ("]" + rest)[1..] == rest;
  }

  /** A text the parser accepts spells a program. */
  lemma {:induction false} ParsedSpells(cs: string, cur: Pending, b: Builder, loop: Option<LoopCtx>, env: Env)
    returns (p: seq<Cmd>)
    requires CanParse(b, loop) && EmitText(cs, cur, b, loop, env).Ok?
    ensures Commands(cs) == Text(p) + Tail(EmitText(cs, cur, b, loop, env), loop)
    decreases |cs|
  {
    hide Text, CmdText, Tail, CanParse, EmitText, Flush, EmitChar, Open;
    ParseWf(b, loop);
    var out := EmitText(cs, cur, b, loop, env);
    if cs == "" || cs[0] == ']' {
      p := [];
      TailAtEnd(cs, cur, b, loop, env);
    } else if cs[0] == '[' {
      NestStep(cs, cur, b, loop, env);
      var b1 := Flush(cur, b, env);
      var inner := EmitText(cs[1..], NoSym, Open(b1), Some(Ctx(b1)), env);
      var body := ParsedSpells(cs[1..], NoSym, Open(b1), Some(Ctx(b1)), env);
      p := ParsedSpells(inner.rest, NoSym, inner.b, loop, env);
      LoopText(body, inner, Ctx(b1));
      p := Prepend(Loop(body), p, Tail(out, loop));
    } else {
      CharStep(cs, cur, b, loop, env);
      var (cur', b') := EmitChar(cs[0], cur, b, env);
      p := ParsedSpells(cs[1..], cur', b', loop, env);
      p := PrependChar(cs[0], p, Tail(out, loop));
    }
  }

  /** What follows the program in the text: nothing, or the bracket that ended it and the rest. */
  function Tail(out: Parsed, loop: Option<LoopCtx>): string
    requires out.Ok?
  {
    if loop.Some? then "]" + Commands(out.rest) else ""
  }

  lemma TailAtEnd(cs: string, cur: Pending, b: Builder, loop: Option<LoopCtx>, env: Env)
    requires CanParse(b, loop) && EmitText(cs, cur, b, loop, env).Ok? && (cs == "" || cs[0] == ']')
    ensures Commands(cs) == Text([]) + Tail(EmitText(cs, cur, b, loop, env), loop)
  {
  }

  lemma Prepend(c: Cmd, p: seq<Cmd>, tail: string) returns (q: seq<Cmd>)
    ensures CmdText(c) + (Text(p) + tail) == Text(q) + tail
  {
    q := [c] + p;
    assert q[1..] == p;
    assert CmdText(c) + (Text(p) + tail) == (CmdText(c) + Text(p)) + tail;
  }

  /** A character that is no bracket is a command or a comment. */
  lemma PrependChar(c: char, p: seq<Cmd>, tail: string) returns (q: seq<Cmd>)
    requires c != '[' && c != ']'
    ensures (if IsCommand(c) then [c] else "") + (Text(p) + tail) == Text(q) + tail
  {
    q := p;
    if IsCommand(c) {
      var cmd := if c == ',' then Read else if c == '.' then Write
                 else if c == '+' then Inc else if c == '-' then Dec else if c == '>' then Right else Left;
      assert CmdText(cmd) == [c];
      q := Prepend(cmd, p, tail);
    }
  }

  lemma CommentChar(c: char, cur: Pending, b: Builder, env: Env)
    requires Wf(b) && !IsCommand(c)
    ensures EmitChar(c, cur, b, env) == (cur, b)
  {
  }

  lemma LoopText(body: seq<Cmd>, inner: Parsed, loop: LoopCtx)
    requires inner.Ok?
    ensures "[" + (Text(body) + Tail(inner, Some(loop))) == CmdText(Loop(body)) + Commands(inner.rest)
  {
    assert "[" + (Text(body) + ("]" + Commands(inner.rest))) == ("[" + Text(body) + "]") + Commands(inner.rest);
  }

  /** The other error: a `]` too many after a program. */
  lemma {:induction false} ExtraSpells(cs: string, cur: Pending, b: Builder, env: Env)
    returns (p: seq<Cmd>, after: string)
    requires CanParse(b, None) && EmitText(cs, cur, b, None, env).ExtraClose?
    ensures Commands(cs) == Text(p) + ("]" + after)
    decreases |cs|
  {
    hide Text, CmdText, Tail, CanParse, EmitText, Flush, EmitChar, Open, Close, Finish;
    ParseWf(b, None);
    if cs == "" || cs[0] == ']' {
      EndStep(cs, cur, b, None, env);
      p, after := [], Commands(cs[1..]);
      EmptyText();
      assert "]" + after == "" + ("]" + after);
    } else if cs[0] == '[' {
      NestStep(cs, cur, b, None, env);
      var b1 := Flush(cur, b, env);
      var inner := EmitText(cs[1..], NoSym, Open(b1), Some(Ctx(b1)), env);
      var body := ParsedSpells(cs[1..], NoSym, Open(b1), Some(Ctx(b1)), env);
      p, after := ExtraSpells(inner.rest, NoSym, inner.b, env);
      LoopText(body, inner, Ctx(b1));
      p := Prepend(Loop(body), p, "]" + after);
    } else {
      CharStep(cs, cur, b, None, env);
      var (cur', b') := EmitChar(cs[0], cur, b, env);
      p, after := ExtraSpells(cs[1..], cur', b', env);
      p := PrependChar(cs[0], p, "]" + after);
    }
  }

  lemma EmptyText()
    ensures Text([]) == ""
  {
  }

  // ----- the compiler -----

  /** A program followed by a bracket that closes nothing. */
  ghost predicate Overclosed(text: string) {
    exists p: seq<Cmd>, after: string :: Commands(text) == Text(p) + ("]" + after)
  }

  /** A text is balanced if its commands spell a program. */
  ghost predicate Balanced(text: string) {
    exists p: seq<Cmd> :: Commands(text) == Text(p)
  }

  method CompileText(text: string, env: Env) returns (status: Status, fn: Func)
    ensures status == Compiled <==> Balanced(text)
    ensures status == ErrorExtra <==> Overclosed(text)
    ensures forall p: seq<Cmd> :: Commands(text) == Text(p) ==> fn == Compile(p, env)
  {
    var parser := new Parser(text, env);
    status := parser.ReadLoop(None);
    fn := parser.b.fn;
    assert text[0..] == text;
    var h := Header(env);
    CommentsIgnored(text, NoSym, h, None, env);
    forall p: seq<Cmd> | Commands(text) == Text(p) ensures status == Compiled && fn == Compile(p, env) {
      TextParses(p, "", NoSym, h, None, env);
      assert Text(p) + "" == Text(p);
    }
    forall p: seq<Cmd>, after: string | Commands(text) == Text(p) + ("]" + after) ensures status == ErrorExtra {
      TextParses(p, "]" + after, NoSym, h, None, env);
    }
    if status == ErrorExtra {
      ghost var p, after := ExtraSpells(text, NoSym, h, env);
    }
    if status == Compiled {
      ghost var p := ParsedSpells(text, NoSym, h, None, env);
      assert Tail(EmitText(text, NoSym, h, None, env), None) == "";
      assert Text(p) + "" == Text(p);
    }
  }
}
