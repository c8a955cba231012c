/**
 The parser (`BrainF::readloop`): one pass over the text with one symbol of lookahead, gathering runs
 and emitting code as it goes, with one recursive call per bracket.
 */
module BrainFParser {
  import opened BrainFLanguage
  import opened Ir
  import opened BrainFEmit

  datatype Parsed = Ok(b: Builder, rest: string) | ExtraClose | MissingClose

  ghost predicate CanParse(b: Builder, loop: Option<LoopCtx>) {
    Wf(b) && (loop.Some? ==> CtxOk(b, loop.value))
  }

  lemma LocalCanParse(b: Builder, b': Builder, loop: Option<LoopCtx>)
    requires CanParse(b, loop) && Local(b, b')
    ensures CanParse(b', loop)
  {
  }

  /** What a closed loop changes, seen from its first block. */
  ghost predicate ClosedFrom(b: Builder, b': Builder, loop: LoopCtx) {
    && Wf(b') && |b.fn| <= |b'.fn| && b'.ins >= |b.fn|
    && forall l :: 0 <= l < |b.fn| && l != b.ins && l != loop.test ==> b'.fn[l] == b.fn[l]
  }

  /** After a nested loop only the block at the insertion point has changed. */
  lemma {:induction false} NestClosed(b: Builder, b1: Builder, b2: Builder, loop: Option<LoopCtx>)
    requires CanParse(b, loop) && Local(b, b1) && ClosedFrom(Open(b1), b2, Ctx(b1))
    ensures CanParse(b2, loop) && |b.fn| <= |b2.fn| && b2.ins >= |b.fn|
    ensures forall l :: 0 <= l < |b.fn| && l != b.ins ==> b2.fn[l] == b.fn[l]
  {
    LocalCanParse(b, b1, loop);
    OpenLocal(b1);
  }

  /** Does the character continue the pending run? */
  predicate Continues(c: char, cur: Pending) {
    ((c == '+' || c == '-') && cur.Change?) || ((c == '<' || c == '>') && cur.Move?)
  }

  function Direction(c: char): int {
    if c == '-' || c == '<' then -1 else 1
  }

  /** The pending run after one of `+-<>`. */
  function Gather(c: char, cur: Pending): Pending {
    var v := Direction(c) + if Continues(c, cur) then cur.v else 0;
    if c == '+' || c == '-' then Change(v) else Move(v)
  }

  /**
   What the parser makes of a text up to the end of the program or of the enclosing loop, when the
   run `cur` is pending. Characters that are no commands are skipped.
   */
  function EmitText(cs: string, cur: Pending, b: Builder, loop: Option<LoopCtx>, env: Env): (r: Parsed)
    requires CanParse(b, loop)
    ensures r.Ok? && loop.Some? ==> ClosedFrom(b, r.b, loop.value) && |r.rest| < |cs|
    ensures r.Ok? && loop.None? ==> r.rest == ""
    ensures r.ExtraClose? ==> loop.None?
    decreases |cs|
  {
    FlushLocal(cur, b, env);
    var b1 := Flush(cur, b, env);
    LocalCanParse(b, b1, loop);
    if cs == "" then (if loop.Some? then MissingClose else Ok(Finish(b1), ""))
    else
      var c, rest := cs[0], cs[1..];
      if c == '[' then
        OpenLocal(b1);
        match EmitText(rest, NoSym, Open(b1), Some(Ctx(b1)), env)
        case Ok(b2, rest2) =>
          NestClosed(b, b1, b2, loop);
          EmitText(rest2, NoSym, b2, loop, env)
        case error => error
      else if c == ']' then (if loop.None? then ExtraClose else Ok(Close(b1, loop.value), rest))
      else
        var (cur', b') := EmitChar(c, cur, b, env);
        LocalCanParse(b, b', loop);
        EmitText(rest, cur', b', loop, env)
  }

  /** A character that is no bracket. */
  function EmitChar(c: char, cur: Pending, b: Builder, env: Env): (r: (Pending, Builder))
    requires Wf(b)
    ensures Local(b, r.1)
  {
    FlushLocal(cur, b, env);
    var b1 := Flush(cur, b, env);
    if c == '+' || c == '-' || c == '>' || c == '<' then (Gather(c, cur), if Continues(c, cur) then b else b1)
    else if c == ',' then (NoSym, EmitRead(b1))
    else if c == '.' then (NoSym, EmitWrite(b1))
    else (cur, b)
  }

  // ----- what the parser does at each kind of character -----

  lemma {:induction false} CharStep(cs: string, cur: Pending, b: Builder, loop: Option<LoopCtx>, env: Env)
    requires CanParse(b, loop) && cs != "" && cs[0] != '[' && cs[0] != ']'
    ensures var (cur', b') := EmitChar(cs[0], cur, b, env);
            CanParse(b', loop) && EmitText(cs, cur, b, loop, env) == EmitText(cs[1..], cur', b', loop, env)
  {
    hide EmitChar, Local, Flush;
    LocalCanParse(b, EmitChar(cs[0], cur, b, env).1, loop);
  }

  lemma {:induction false} NestStep(cs: string, cur: Pending, b: Builder, loop: Option<LoopCtx>, env: Env)
    requires CanParse(b, loop) && cs != "" && cs[0] == '['
    ensures var b1 := Flush(cur, b, env);
            && Wf(b1) && CanParse(Open(b1), Some(Ctx(b1)))
            && var inner := EmitText(cs[1..], NoSym, Open(b1), Some(Ctx(b1)), env);
               && (inner.Ok? ==> CanParse(inner.b, loop))
               && EmitText(cs, cur, b, loop, env)
                  == if inner.Ok? then EmitText(inner.rest, NoSym, inner.b, loop, env) else inner
  {
    FlushLocal(cur, b, env);
    var b1 := Flush(cur, b, env);
    LocalCanParse(b, b1, loop);
    OpenLocal(b1);
  }

  lemma {:induction false} EndStep(cs: string, cur: Pending, b: Builder, loop: Option<LoopCtx>, env: Env)
    requires CanParse(b, loop) && (cs == "" || cs[0] == ']')
    ensures CanParse(Flush(cur, b, env), loop)
    ensures EmitText(cs, cur, b, loop, env) ==
            var b1 := Flush(cur, b, env);
            if cs == "" then (if loop.Some? then MissingClose else Ok(Finish(b1), ""))
            else if loop.None? then ExtraClose
            else Ok(Close(b1, loop.value), cs[1..])
  {
    hide Local;
    FlushLocal(cur, b, env);
    LocalCanParse(b, Flush(cur, b, env), loop);
  }

  /** One of `+-<>` joins the pending run or starts a new one. */
  lemma GatherStep(c: char, rest: string, cur: Pending, b: Builder, loop: Option<LoopCtx>, env: Env)
    requires CanParse(b, loop) && (c == '+' || c == '-' || c == '>' || c == '<') && (cur.NoSym? || Continues(c, cur))
    ensures EmitText([c] + rest, cur, b, loop, env) == EmitText(rest, Gather(c, cur), b, loop, env)
  {
    assert ([c] + rest)[1..] == rest;
  }

  lemma CommentStep(c: char, rest: string, cur: Pending, b: Builder, loop: Option<LoopCtx>, env: Env)
    requires CanParse(b, loop) && !IsCommand(c)
    ensures EmitText([c] + rest, cur, b, loop, env) == EmitText(rest, cur, b, loop, env)
  {
    assert ([c] + rest)[1..] == rest;
  }

  /** A complete run may be written out before its successor is looked at. */
  lemma FlushEarly(ahead: string, cur: Pending, b: Builder, loop: Option<LoopCtx>, env: Env)
    requires CanParse(b, loop) && (ahead == "" || (IsCommand(ahead[0]) && !Continues(ahead[0], cur)))
    ensures CanParse(Flush(cur, b, env), loop)
    ensures EmitText(ahead, cur, b, loop, env) == EmitText(ahead, NoSym, Flush(cur, b, env), loop, env)
  {
    FlushLocal(cur, b, env);
    LocalCanParse(b, Flush(cur, b, env), loop);
  }

  lemma ReadStep(rest: string, b: Builder, loop: Option<LoopCtx>, env: Env)
    requires CanParse(b, loop)
    ensures CanParse(EmitRead(b), loop) && CanParse(EmitWrite(b), loop)
    ensures EmitText("," + rest, NoSym, b, loop, env) == EmitText(rest, NoSym, EmitRead(b), loop, env)
    ensures EmitText("." + rest, NoSym, b, loop, env) == EmitText(rest, NoSym, EmitWrite(b), loop, env)
  {
    hide Open, EmitMove, EmitChange, Local;
    FlushLocal(NoSym, b, env);
    assert ("," + rest)[1..] == rest && ("." + rest)[1..] == rest;
  }

  lemma OpenStep(rest: string, b: Builder, loop: Option<LoopCtx>, env: Env)
    requires CanParse(b, loop)
    ensures CanParse(Open(b), Some(Ctx(b)))
    ensures var inner := EmitText(rest, NoSym, Open(b), Some(Ctx(b)), env);
            && (inner.Ok? ==> CanParse(inner.b, loop))
            && EmitText("[" + rest, NoSym, b, loop, env) ==
               if inner.Ok? then EmitText(inner.rest, NoSym, inner.b, loop, env) else inner
  {
    OpenLocal(b);
    assert ("[" + rest)[1..] == rest;
  }

  // ----- the parser -----

  datatype Symbol = SymNone | SymRead | SymWrite | SymMove | SymChange | SymLoop | SymEndLoop | SymEof

  datatype Status = Compiled | ErrorExtra | ErrorMissing

  /** A symbol that has been read ahead, as the text it came from. */
  function Unread(sym: Symbol, v: int): string {
    match sym
    case SymNone => ""
    case SymEof => ""
    case SymRead => ","
    case SymWrite => "."
    case SymLoop => "["
    case SymEndLoop => "]"
    case SymMove => if v == 1 then ">" else "<"
    case SymChange => if v == 1 then "+" else "-"
  }

  /** What is still to come from the current symbol, the one read ahead and the rest of the text. */
  function Remaining(cursym: Symbol, curvalue: int, nextsym: Symbol, nextvalue: int, rest: string, b: Builder,
                     loop: Option<LoopCtx>, env: Env): Parsed
    requires CanParse(b, loop)
  {
    var ahead := Unread(nextsym, nextvalue) + rest;
    match cursym
    case SymMove => EmitText(ahead, Move(curvalue), b, loop, env)
    case SymChange => EmitText(ahead, Change(curvalue), b, loop, env)
    case _ => EmitText(Unread(cursym, curvalue) + ahead, NoSym, b, loop, env)
  }

  /** A symbol read ahead comes from a single character. */
  predicate AheadOk(nextsym: Symbol, nextvalue: int) {
    nextsym.SymMove? || nextsym.SymChange? ==> nextvalue == 1 || nextvalue == -1
  }

  /** A run is complete: what follows does not continue it. */
  predicate Complete(cursym: Symbol, nextsym: Symbol) {
    && (cursym.SymMove? || cursym.SymChange? ==> !nextsym.SymNone? && nextsym != cursym)
    && (!(cursym.SymMove? || cursym.SymChange?) ==> nextsym.SymNone?)
  }

  /** A symbol read ahead becomes the current one. */
  lemma {:induction false} FirstSymbol(sym: Symbol, v: int, rest: string, b: Builder, loop: Option<LoopCtx>, env: Env)
    requires CanParse(b, loop) && AheadOk(sym, v)
    ensures Remaining(sym, v, SymNone, 0, rest, b, loop, env) == EmitText(Unread(sym, v) + rest, NoSym, b, loop, env)
  {
    hide EmitText, CanParse;
    assert Unread(SymNone, 0) + rest == rest;
    if sym.SymMove? || sym.SymChange? {
      GatherStep(Unread(sym, v)[0], rest, NoSym, b, loop, env);
    }
  }

  /** One of `+-<>` joins the current run, or starts one. */
  lemma {:induction false} JoinsRun(sym: Symbol, v: int, c: char, rest: string, b: Builder, loop: Option<LoopCtx>,
                                    env: Env)
    requires CanParse(b, loop)
    requires if c == '+' || c == '-' then sym.SymNone? || sym.SymChange?
             else (c == '<' || c == '>') && (sym.SymNone? || sym.SymMove?)
    ensures Remaining(if c == '+' || c == '-' then SymChange else SymMove,
                      Direction(c) + (if sym.SymNone? then 0 else v), SymNone, 0, rest, b, loop, env)
            == Remaining(sym, v, SymNone, 0, [c] + rest, b, loop, env)
  {
    hide EmitText, CanParse;
    assert "" + rest == rest && "" + ([c] + rest) == [c] + rest;
    GatherStep(c, rest, if sym.SymNone? then NoSym else if sym.SymMove? then Move(v) else Change(v), b, loop, env);
  }

  /** Any other symbol ends the current run and is read ahead. */
  lemma {:induction false} EndsRun(sym: Symbol, v: int, next: Symbol, w: int, c: char, rest: string, b: Builder,
                                   loop: Option<LoopCtx>, env: Env)
    requires CanParse(b, loop) && (sym.SymMove? || sym.SymChange?) && Unread(next, w) == [c]
    ensures Remaining(sym, v, next, w, rest, b, loop, env) == Remaining(sym, v, SymNone, 0, [c] + rest, b, loop, env)
  {
    hide EmitText, CanParse;
    assert "" + ([c] + rest) == [c] + rest;
  }

  /** With no run, it is the current symbol. */
  lemma {:induction false} FoundSymbol(sym: Symbol, v: int, c: char, rest: string, b: Builder, loop: Option<LoopCtx>,
                                       env: Env)
    requires CanParse(b, loop) && !sym.SymMove? && !sym.SymChange? && Unread(sym, v) == [c]
    ensures Remaining(sym, v, SymNone, 0, rest, b, loop, env)
            == Remaining(SymNone, v, SymNone, 0, [c] + rest, b, loop, env)
  {
    hide EmitText, CanParse;
    assert "" + rest == rest && "" + ("" + ([c] + rest)) == [c] + rest;
  }

  lemma {:induction false} SkipsComment(sym: Symbol, v: int, c: char, rest: string, b: Builder, loop: Option<LoopCtx>,
                                        env: Env)
    requires CanParse(b, loop) && (sym.SymNone? || sym.SymMove? || sym.SymChange?) && !IsCommand(c)
    ensures Remaining(sym, v, SymNone, 0, rest, b, loop, env) == Remaining(sym, v, SymNone, 0, [c] + rest, b, loop, env)
  {
    hide EmitText, CanParse;
    assert "" + rest == rest && "" + ([c] + rest) == [c] + rest;
    CommentStep(c, rest, if sym.SymMove? then Move(v) else if sym.SymChange? then Change(v) else NoSym, b, loop, env);
  }

  /** At the end of the text. */
  lemma {:induction false} LastSymbol(sym: Symbol, v: int, b: Builder, loop: Option<LoopCtx>, env: Env)
    requires CanParse(b, loop)
    ensures sym.SymNone? ==>
              Remaining(SymEof, v, SymNone, 0, "", b, loop, env) == Remaining(sym, v, SymNone, 0, "", b, loop, env)
    ensures Remaining(sym, v, SymEof, 0, "", b, loop, env) == Remaining(sym, v, SymNone, 0, "", b, loop, env)
  {
    hide EmitText, CanParse;
  }

  class Parser {
    const text: string
    const env: Env
    var pos: nat
    var b: Builder

    constructor (text: string, env: Env)
      ensures this.text == text && this.env == env && pos == 0 && b == Header(env)
    {
      this.text, this.env := text, env;
      pos, b := 0, Header(env);
    }

    /**
     The reading loop: completes the run that `cursym0` starts, or finds the next symbol if there is
     none. A character that ends a run is kept as the symbol read ahead.
     */
    method ReadSymbols(cursym0: Symbol, curvalue0: int, ghost loop: Option<LoopCtx>)
      returns (cursym: Symbol, curvalue: int, nextsym: Symbol, nextvalue: int)
      requires pos <= |text| && CanParse(b, loop)
      requires AheadOk(cursym0, curvalue0) && (cursym0.SymEof? ==> pos == |text|)
      modifies this`pos
      ensures old(pos) <= pos <= |text|
      ensures Complete(cursym, nextsym) && !cursym.SymNone? && AheadOk(nextsym, nextvalue)
      ensures cursym.SymEof? || nextsym.SymEof? ==> pos == |text|
      ensures pos == old(pos) ==>
                (nextsym.SymNone? || nextsym.SymEof?) && cursym == if cursym0.SymNone? then SymEof else cursym0
      ensures cursym0.SymEof? ==> cursym == cursym0
      ensures Remaining(cursym, curvalue, nextsym, nextvalue, text[pos..], b, loop, env) ==
              EmitText(Unread(cursym0, curvalue0) + old(text[pos..]), NoSym, b, loop, env)
    {
      hide EmitText, CanParse, Wf, IsCommand, Remaining, Unread;
      ghost var goal := EmitText(Unread(cursym0, curvalue0) + text[pos..], NoSym, b, loop, env);
      cursym, curvalue := cursym0, curvalue0;
      nextsym, nextvalue := SymNone, 0;
      var more := cursym.SymNone? || cursym.SymMove? || cursym.SymChange?;
      FirstSymbol(cursym, curvalue, text[pos..], b, loop, env);
      while more
        invariant old(pos) <= pos <= |text|
        invariant more ==>
                    nextsym.SymNone? && nextvalue == 0 && (cursym.SymNone? || cursym.SymMove? || cursym.SymChange?)
        invariant !more ==> Complete(cursym, nextsym) && !cursym.SymNone?
        invariant AheadOk(nextsym, nextvalue)
        invariant cursym.SymEof? || nextsym.SymEof? ==> pos == |text| && !more
        invariant cursym0.SymEof? ==> cursym == cursym0 && !more
        invariant pos == old(pos) ==>
                    && (nextsym.SymNone? || nextsym.SymEof?)
                    && (cursym == cursym0 || (cursym0.SymNone? && cursym.SymEof?))
        invariant Remaining(cursym, curvalue, nextsym, nextvalue, text[pos..], b, loop, env) == goal
        decreases more, |text| - pos
      {
        if pos == |text| {
          assert text[pos..] == "";
          LastSymbol(cursym, curvalue, b, loop, env);
          if cursym.SymNone? {
            cursym := SymEof;
          } else {
            nextsym := SymEof;
          }
          more := false;
        } else {
          cursym, curvalue, nextsym, nextvalue, more := TakeChar(cursym, curvalue, loop);
        }
      }
    }

    /** One character of the reading loop. */
    method TakeChar(cursym0: Symbol, curvalue0: int, ghost loop: Option<LoopCtx>)
      returns (cursym: Symbol, curvalue: int, nextsym: Symbol, nextvalue: int, more: bool)
      requires pos < |text| && CanParse(b, loop) && (cursym0.SymNone? || cursym0.SymMove? || cursym0.SymChange?)
      modifies this`pos
      ensures pos == old(pos) + 1
      ensures more ==> nextsym.SymNone? && nextvalue == 0 && (cursym.SymNone? || cursym.SymMove? || cursym.SymChange?)
      ensures !more ==> Complete(cursym, nextsym) && !cursym.SymNone?
      ensures AheadOk(nextsym, nextvalue) && !cursym.SymEof? && !nextsym.SymEof?
      ensures Remaining(cursym, curvalue, nextsym, nextvalue, text[pos..], b, loop, env) ==
              old(Remaining(cursym0, curvalue0, SymNone, 0, text[pos..], b, loop, env))
    {
      hide EmitText, CanParse, Wf, Remaining;
      cursym, curvalue, nextsym, nextvalue, more := cursym0, curvalue0, SymNone, 0, true;
      var c := text[pos];
      ghost var rest := text[pos + 1..];
      assert text[pos..] == [c] + rest;
      pos := pos + 1;
      var direction := 1;
      match c {
        case '-' | '+' =>
          direction := if c == '-' then -1 else 1;
          if cursym.SymChange? {
            JoinsRun(cursym, curvalue, c, rest, b, loop, env);
            curvalue := curvalue + direction;
          } else if cursym.SymNone? {
            JoinsRun(cursym, curvalue, c, rest, b, loop, env);
            cursym, curvalue := SymChange, direction;
          } else {
            EndsRun(cursym, curvalue, SymChange, direction, c, rest, b, loop, env);
            nextsym, nextvalue, more := SymChange, direction, false;
          }
        case '<' | '>' =>
          direction := if c == '<' then -1 else 1;
          if cursym.SymMove? {
            JoinsRun(cursym, curvalue, c, rest, b, loop, env);
            curvalue := curvalue + direction;
          } else if cursym.SymNone? {
            JoinsRun(cursym, curvalue, c, rest, b, loop, env);
            cursym, curvalue := SymMove, direction;
          } else {
            EndsRun(cursym, curvalue, SymMove, direction, c, rest, b, loop, env);
            nextsym, nextvalue, more := SymMove, direction, false;
          }
        case ',' | '.' | '[' | ']' =>
          var sym := if c == ',' then SymRead else if c == '.' then SymWrite
                     else if c == '[' then SymLoop else SymEndLoop;
          if cursym.SymNone? {
            FoundSymbol(sym, curvalue, c, rest, b, loop, env);
            cursym := sym;
          } else {
            EndsRun(cursym, curvalue, sym, nextvalue, c, rest, b, loop, env);
            nextsym := sym;
          }
          more := false;
        case _ =>
          SkipsComment(cursym, curvalue, c, rest, b, loop, env);
      }
    }

    /** Writes out the current symbol; for `[` this is the whole loop. */
    method WriteOut(cursym: Symbol, curvalue: int, ghost nextsym: Symbol, ghost nextvalue: int, loop: Option<LoopCtx>)
      returns (status: Status)
      requires pos <= |text| && CanParse(b, loop) && !cursym.SymEof? && !cursym.SymEndLoop?
      requires Complete(cursym, nextsym) && AheadOk(nextsym, nextvalue) && (nextsym.SymEof? ==> pos == |text|)
      modifies this
      ensures old(pos) <= pos <= |text|
      ensures cursym.SymLoop? && status == Compiled ==> pos > old(pos)
      ensures !cursym.SymLoop? ==> pos == old(pos)
      ensures status == Compiled ==>
                && CanParse(b, loop)
                && EmitText(Unread(nextsym, nextvalue) + text[pos..], NoSym, b, loop, env) ==
                   old(Remaining(cursym, curvalue, nextsym, nextvalue, text[pos..], b, loop, env))
      ensures status == ErrorExtra ==>
              old(Remaining(cursym, curvalue, nextsym, nextvalue, text[pos..], b, loop, env)).ExtraClose?
      ensures status == ErrorMissing ==>
              old(Remaining(cursym, curvalue, nextsym, nextvalue, text[pos..], b, loop, env)).MissingClose?
      decreases |text| - pos + (if cursym.SymLoop? then 1 else 0), 0
    {
      hide EmitText, EmitRead, EmitWrite, Open, EmitMove, EmitChange, CtxOk;
      status := Compiled;
      ghost var ahead := Unread(nextsym, nextvalue) + text[pos..];
      match cursym {
        case SymNone =>
          assert "" + ahead == ahead;
        case SymRead =>
          ReadStep(ahead, b, loop, env);
          b := EmitRead(b);
        case SymWrite =>
          ReadStep(ahead, b, loop, env);
          b := EmitWrite(b);
        case SymMove =>
          FlushEarly(ahead, Move(curvalue), b, loop, env);
          b := EmitMove(b, curvalue, env);
        case SymChange =>
          FlushEarly(ahead, Change(curvalue), b, loop, env);
          b := EmitChange(b, curvalue);
        case SymLoop =>
          assert ahead == text[pos..];
          OpenStep(text[pos..], b, loop, env);
          var ctx := Ctx(b);
          b := Open(b);
          status := ReadLoop(Some(ctx));
          assert "" + text[pos..] == text[pos..];
      }
    }

    /**
     Compiles up to the end of the enclosing loop, or of the program if `loop` is none. The errors are
     an unmatched `]` and a missing one.
     */
    method ReadLoop(loop: Option<LoopCtx>) returns (status: Status)
      requires pos <= |text| && CanParse(b, loop)
      modifies this
      ensures old(pos) <= pos <= |text|
      ensures match EmitText(old(text[pos..]), NoSym, old(b), loop, env)
              case Ok(b', rest) => status == Compiled && b == b' && text[pos..] == rest
              case ExtraClose => status == ErrorExtra
              case MissingClose => status == ErrorMissing
      decreases |text| - pos, 1
    {
      hide EmitChar, Open, CtxOk, Local, EmitText, Close, Finish;
      ghost var goal := EmitText(text[pos..], NoSym, b, loop, env);
      var cursym, curvalue, nextsym, nextvalue := SymNone, 0, SymNone, 0;
      assert Unread(SymNone, 0) + (Unread(SymNone, 0) + text[pos..]) == text[pos..];
      while !cursym.SymEof? && !cursym.SymEndLoop?
        invariant old(pos) <= pos <= |text| && CanParse(b, loop)
        invariant Complete(cursym, nextsym) && AheadOk(nextsym, nextvalue)
        invariant cursym.SymEof? || nextsym.SymEof? ==> pos == |text|
        invariant !cursym.SymNone? && !cursym.SymEof? ==> pos > old(pos)
        invariant Remaining(cursym, curvalue, nextsym, nextvalue, text[pos..], b, loop, env) == goal
        decreases |text| - pos, Rank(cursym, nextsym)
      {
        status := WriteOut(cursym, curvalue, nextsym, nextvalue, loop);
        if status != Compiled {
          return;
        }
        cursym, curvalue, nextsym, nextvalue := ReadSymbols(nextsym, nextvalue, loop);
      }
      ghost var left := Unread(cursym, curvalue) + (Unread(nextsym, nextvalue) + text[pos..]);
      assert left == if cursym.SymEndLoop? then "]" + text[pos..] else "";
      assert cursym.SymEndLoop? ==> left[1..] == text[pos..];
      EndStep(left, NoSym, b, loop, env);
      if cursym.SymEndLoop? {
        if loop.None? {
          return ErrorExtra;
        }
        b := Close(b, loop.value);
        return Compiled;
      }
      if loop.Some? {
        return ErrorMissing;
      }
      b := Finish(b);
      return Compiled;
    }
  }

  /** Progress without reading: symbols move up and run out. */
  function Rank(cursym: Symbol, nextsym: Symbol): nat {
    (if cursym.SymEof? || cursym.SymEndLoop? then 0 else 1) +
    (if nextsym.SymNone? then 0 else if nextsym.SymEof? then 2 else 4)
  }
}
