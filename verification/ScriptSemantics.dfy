/** What a run of the interpreter keeps: skipped code moves through the source as
    executed code does, and every turn that ends moves forward. */
module ScriptSemantics {
  import opened Options
  import opened ScriptLexer
  import opened Buffers
  import opened Script

  // ----- Where things end -----

  /** Where the texts at the front end; none when the lexer is stuck there. */
  function TextsEnd(s: Stream): Option<Stream> {
    match s
    case End => Some(s)
    case Stuck => None
    case Cons(t, rest) => if TextToken(t) then TextsEnd(rest) else Some(s)
  }

  /** Where a statement without a body ends, after its keyword. */
  function SimpleEnd(keyword: string, s: Stream): Option<Stream> {
    if keyword == "let" then
      var equals, value := Next(s), Next(Next(s));
      Some(if Current(s).kind != Word then s
           else if Current(equals).kind != Equals then equals
           else if !TextToken(Current(value)) then value
           else Next(value))
    else if keyword == "print" then Some(if TextToken(Current(s)) then Next(s) else s)
    else if keyword == "run" then TextsEnd(s)
    else if keyword == "exit" then Some(s)
    else SkipLines(s)
  }

  /** Whether a block follows, and where it starts or parsing failed. */
  function BraceEnd(s: Stream): (bool, Stream) {
    var brace := SkipNewlines(s);
    if Current(brace).kind != LBrace then (false, brace) else (true, Next(brace))
  }

  function HeaderEnd(keyword: string, s: Stream): (r: (bool, Stream))
    ensures Size(r.1) <= Size(s)
  {
    HeaderSize(IDLE, s, []);
    if keyword == "require" then
      if Current(s) != Token(Word, "admin") then (false, s) else BraceEnd(Next(s))
    else
      var open, command, close := Next(s), Next(Next(s)), Next(Next(Next(s)));
      if Current(s) != Token(Word, "command.exists") then (false, s)
      else if Current(open).kind != LParen then (false, open)
      else if !TextToken(Current(command)) then (false, command)
      else if Current(close).kind != RParen then (false, close)
      else BraceEnd(Next(close))
  }

  /** Where a statement ends, read off the tokens; none when it never does. */
  function StatementEnd(s0: Stream): Option<Stream>
    decreases Size(s0), 0
  {
    var s := SkipNewlines(s0);
    var keyword, rest := Take(Current(s).text, MAX_NAME), Next(s);
    if Current(s).kind != Word then Some(s)
    else if keyword != "if" && keyword != "require" then SimpleEnd(keyword, rest)
    else
      var h := HeaderEnd(keyword, rest);
      if h.0 then BlockEnd(h.1) else Some(h.1)
  }

  /** Where a block ends: a statement that leaves the lexer where it was repeats for ever. */
  function BlockEnd(s: Stream): Option<Stream>
    decreases Size(s), 1
  {
    if Current(s).kind == Eof then Some(s)
    else if Current(s).kind == RBrace then Some(Next(s))
    else
      match StatementEnd(s)
      case None => None
      case Some(at) =>
        var after := SkipNewlines(at);
        if Size(after) >= Size(s) then None else BlockEnd(after)
  }

  const IDLE: World := World([], map[], _ => {}, false, (_, _) => 0)

  // ----- Skip mode -----

  /** The run ends there, or does not end. */
  predicate EndsAt(o: Outcome, end: Option<Stream>) {
    match o
    case Diverges => end == None
    case Done(rest, _, _) => end == Some(rest)
  }

  /** A skipped statement leaves the bindings and the trace alone. */
  predicate Inert(o: Outcome, exec: bool, st: State) {
    !exec && o.Done? ==> o.st == st
  }

  /** The lexer state after a statement, and whether it ends, are read off the
      tokens: they do not depend on the execute flag, the variables, the trace or
      the outcomes of commands. A skipped statement binds, prints and runs nothing. */
  lemma {:induction false} StatementControl(w: World, s: Stream, exec: bool, st: State)
    ensures EndsAt(Statement(w, s, exec, st), StatementEnd(s)) && Inert(Statement(w, s, exec, st), exec, st)
    decreases Size(s), 0
  {
    var s' := SkipNewlines(s);
    var keyword, rest := Take(Current(s').text, MAX_NAME), Next(s');
    if Current(s').kind == Word {
      if keyword == "if" || keyword == "require" {
        var h := HeaderOf(w, keyword, rest, st.trace);
        HeaderControl(w, keyword, rest, st.trace);
        assert Statement(w, s, exec, st) == Conditional(w, h, exec, st);
        assert StatementEnd(s) == if h.Body? then BlockEnd(h.rest) else Some(h.rest);
        if h.Body? {
          BlockControl(w, h.rest, exec && h.condition, st, 0);
        }
      } else {
        SimpleControl(w, keyword, rest, exec, st);
      }
    }
  }

  lemma SimpleControl(w: World, keyword: string, s: Stream, exec: bool, st: State)
    ensures EndsAt(Simple(w, keyword, s, exec, st), SimpleEnd(keyword, s))
    ensures Inert(Simple(w, keyword, s, exec, st), exec, st)
  {
    ArgumentsControl(w, s, st.vars, 0);
  }

  /** Likewise for a block, whose status is unchanged when it is skipped. */
  lemma {:induction false} BlockControl(w: World, s: Stream, exec: bool, st: State, result: int)
    ensures EndsAt(Block(w, s, exec, st, result), BlockEnd(s))
    ensures !exec && Block(w, s, exec, st, result).Done? ==>
              Block(w, s, exec, st, result).st == st && Block(w, s, exec, st, result).status == result
    decreases Size(s), 1
  {
    if Current(s).kind != Eof && Current(s).kind != RBrace {
      StatementControl(w, s, exec, st);
      var o := Statement(w, s, exec, st);
      if o.Done? {
        var after := SkipNewlines(o.rest);
        if Size(after) < Size(s) {
          BlockControl(w, after, exec, o.st, if o.status != 0 && exec then o.status else result);
        }
      }
    }
  }

  lemma {:induction false} ArgumentsControl(w: World, s: Stream, vars: seq<Binding>, n: nat)
    ensures match Arguments(w, vars, s, n)
            case None => TextsEnd(s) == None
            case Some(a) => TextsEnd(s) == Some(a.1)
    decreases s
  {
    if s.Cons? {
      ArgumentsControl(w, s.rest, vars, if n < MAX_ARGS then n + 1 else n);
    }
  }

  lemma HeaderControl(w: World, keyword: string, s: Stream, trace: seq<Event>)
    ensures var h := HeaderOf(w, keyword, s, trace); HeaderEnd(keyword, s) == (h.Body?, h.rest)
  {
  }

  /** Whether a script ends depends on its tokens alone. */
  lemma MainDiverges(w: World, src: string)
    ensures Main(w, src).Diverges? <==> BlockEnd(Tokens(src, 0)) == None
  {
    BlockControl(w, Tokens(src, 0), true, State([], []), 0);
  }

  // ----- Progress -----

  lemma {:induction false} StatementAdvances(w: World, s: Stream, exec: bool, st: State)
    ensures var o := Statement(w, s, exec, st);
            o.Done? ==> Size(o.rest) <= Size(s) && (Current(SkipNewlines(s)).kind == Word ==> Size(o.rest) < Size(s))
    decreases Size(s), 0
  {
    var s' := SkipNewlines(s);
    var keyword, rest := Take(Current(s').text, MAX_NAME), Next(s');
    if Current(s').kind == Word && s'.Cons? {
      if keyword == "if" || keyword == "require" {
        var h := HeaderOf(w, keyword, rest, st.trace);
        if h.Body? {
          BlockAdvances(w, h.rest, exec && h.condition, st, 0);
        }
      } else {
        SimpleAdvances(w, keyword, rest, exec, st);
      }
    }
  }

  lemma SimpleAdvances(w: World, keyword: string, s: Stream, exec: bool, st: State)
    ensures var o := Simple(w, keyword, s, exec, st); o.Done? ==> Size(o.rest) <= Size(s)
  {
    NextSize(s);
    NextSize(Next(s));
    NextSize(Next(Next(s)));
  }

  lemma {:induction false} BlockAdvances(w: World, s: Stream, exec: bool, st: State, result: int)
    ensures var o := Block(w, s, exec, st, result); o.Done? ==> Size(o.rest) <= Size(s)
    decreases Size(s), 1
  {
    NextSize(s);
    if Current(s).kind != Eof && Current(s).kind != RBrace {
      StatementAdvances(w, s, exec, st);
      var o := Statement(w, s, exec, st);
      if o.Done? {
        var after := SkipNewlines(o.rest);
        if Size(after) < Size(s) {
          BlockAdvances(w, after, exec, o.st, if o.status != 0 && exec then o.status else result);
        }
      }
    }
  }

  /** A turn of `block` that makes no progress read a token that is no word, and
      left the lexer, the bindings and the trace exactly as they were: the loop
      repeats this state for ever. */
  lemma NoProgressRepeats(w: World, s: Stream, exec: bool, st: State)
    requires Current(s).kind != Eof && Current(s).kind != RBrace
    requires Statement(w, s, exec, st).Done? && Size(SkipNewlines(Statement(w, s, exec, st).rest)) >= Size(s)
    ensures Statement(w, s, exec, st) == Done(s, st, 2) && SkipNewlines(s) == s && Current(s).kind != Word
  {
    var s', rest := SkipNewlines(s), Statement(w, s, exec, st).rest;
    StatementAdvances(w, s, exec, st);
    SkipShrinks(rest);
    SkipShrinks(s);
  }

  lemma {:induction false} SkipShrinks(s: Stream)
    ensures SkipNewlines(s) == s || Size(SkipNewlines(s)) < Size(s)
  {
    if s.Cons? && s.token.kind == Newline {
      SkipShrinks(s.rest);
    }
  }
}
