/** Programs of the documented grammar, their big-step semantics, and the
    correctness of the interpreter on their rendering. */
module ScriptCorrectness {
  import opened Options
  import opened ScriptLexer
  import opened Buffers
  import opened ScriptSpelling
  import opened Script
  import opened ScriptSemantics

  // ----- Programs -----

  datatype Text = Text(text: string, quoted: bool)

  /** Statements of the grammar except `exit`. The numbers are line breaks that the
      layout leaves free: before and after the brace that opens a block. */
  datatype Stmt =
    | Let(name: string, value: Text)
    | Print(value: Text)
    | Run(args: Texts)
    | IfExists(command: Text, before: nat, inside: nat, body: Program)
    | RequireAdmin(before: nat, inside: nat, body: Program)

  datatype Texts = NoText | MoreText(first: Text, others: Texts)

  /** Each statement is followed by some line breaks; `exit` can only come last. */
  datatype Program = Nil | Then(first: Stmt, breaks: nat, rest: Program) | Exit(code: string, breaks: nat)

  predicate Keyword(text: string) {
    text in ["let", "print", "run", "if", "require", "exit"]
  }

  /** A `run` ends its line, unless it is the last statement of its block, and the
      operand of `exit` is no keyword. The grammar asks for more line breaks. */
  predicate LaidOut(p: Program)
    decreases p, 0
  {
    match p
    case Nil => true
    case Then(c, breaks, rest) => (c.Run? ==> breaks > 0 || rest.Nil?) && LaidOutStmt(c) && LaidOut(rest)
    case Exit(code, _) => !Keyword(Take(code, MAX_NAME))
  }

  predicate LaidOutStmt(c: Stmt)
    decreases c, 0
  {
    match c
    case IfExists(_, _, _, body) => LaidOut(body)
    case RequireAdmin(_, _, body) => LaidOut(body)
    case _ => true
  }

  // ----- Rendering, with what follows as an argument -----

  function W(text: string): Token { Token(Word, text) }

  function TextTok(t: Text): Token {
    Token(if t.quoted then Quoted else Word, t.text)
  }

  function Sign(kind: Kind): Token { Token(kind, "") }

  function Breaks(n: nat, after: Stream): Stream {
    if n == 0 then after else Cons(Sign(Newline), Breaks(n - 1, after))
  }

  function RenderTexts(ts: Texts, after: Stream): Stream {
    match ts
    case NoText => after
    case MoreText(t, rest) => Cons(TextTok(t), RenderTexts(rest, after))
  }

  function RenderBlock(before: nat, inside: nat, body: Program, after: Stream): Stream
    decreases body, 1
  {
    Breaks(before, Cons(Sign(LBrace), Breaks(inside, Render(body, Cons(Sign(RBrace), after)))))
  }

  function RenderStmt(c: Stmt, after: Stream): Stream
    decreases c, 0
  {
    match c
    case Let(name, value) => Cons(W("let"), Cons(W(name), Cons(Sign(Equals), Cons(TextTok(value), after))))
    case Print(value) => Cons(W("print"), Cons(TextTok(value), after))
    case Run(args) => Cons(W("run"), RenderTexts(args, after))
    case IfExists(command, before, inside, body) =>
      Cons(W("if"), Cons(W("command.exists"), Cons(Sign(LParen), Cons(TextTok(command), Cons(Sign(RParen),
        RenderBlock(before, inside, body, after))))))
    case RequireAdmin(before, inside, body) =>
      Cons(W("require"), Cons(W("admin"), RenderBlock(before, inside, body, after)))
  }

  function Render(p: Program, after: Stream): Stream
    decreases p, 0
  {
    match p
    case Nil => after
    case Then(c, breaks, rest) => RenderStmt(c, Breaks(breaks, Render(rest, after)))
    case Exit(code, breaks) => Cons(W("exit"), Cons(W(code), Breaks(breaks, after)))
  }

  // ----- Semantics -----

  /** Bindings as a map in which the first binding of a name stays, the number of
      `let` statements that bound, and the observable trace. */
  datatype Store = Store(vars: map<string, string>, lets: nat, trace: seq<Event>)

  function Meaning(w: World, vars: map<string, string>): string -> string {
    name => if name in vars then vars[name] else Outside(w, name)
  }

  function Eval(w: World, vars: map<string, string>, text: string): string {
    Take(Expand(Meaning(w, vars), text, 0), MAX_TEXT)
  }

  /** The first `n` arguments, evaluated. */
  function EvalTexts(w: World, vars: map<string, string>, ts: Texts, n: nat): seq<string> {
    match ts
    case NoText => []
    case MoreText(t, rest) => if n == 0 then [] else [Eval(w, vars, t.text)] + EvalTexts(w, vars, rest, n - 1)
  }

  function BindFirst(s: Store, name: string, text: string): Store {
    if s.lets >= MAX_VARS then s
    else s.(vars := if name in s.vars then s.vars else s.vars[name := text], lets := s.lets + 1)
  }

  /** A later nonzero status replaces an earlier one. */
  function Latest(earlier: int, later: int): int {
    if later != 0 then later else earlier
  }

  function ExecStmt(w: World, c: Stmt, s: Store): (Store, int)
    decreases c, 0
  {
    match c
    case Let(name, value) => (BindFirst(s, Take(name, MAX_NAME), Eval(w, s.vars, value.text)), 0)
    case Print(value) => (s.(trace := s.trace + [Printed(Eval(w, s.vars, value.text))]), 0)
    case Run(args) =>
      var argv := EvalTexts(w, s.vars, args, MAX_ARGS);
      if argv == [] then (s, 0) else (s.(trace := s.trace + [Ran(argv)]), w.status(s.trace, argv))
    case IfExists(command, _, _, body) =>
      if command.text in w.commands(s.trace) then Exec(w, body, s) else (s, 0)
    case RequireAdmin(_, _, body) =>
      if w.admin then Exec(w, body, s) else (s, 0)
  }

  function Exec(w: World, p: Program, s: Store): (Store, int)
    decreases p, 0
  {
    match p
    case Nil => (s, 0)
    case Then(c, _, rest) =>
      var (s1, r1) := ExecStmt(w, c, s);
      var (s2, r2) := Exec(w, rest, s1);
      (s2, Latest(r1, r2))
    case Exit(_, _) => (s, 2)
  }

  // ----- Simulation -----

  /** The bindings, in order, as a map. */
  function Bindings(vars: seq<Binding>): map<string, string> {
    if vars == [] then map[]
    else
      var m, last := Bindings(vars[..|vars| - 1]), vars[|vars| - 1];
      if last.name in m then m else m[last.name := last.text]
  }

  function Abstract(st: State): Store {
    Store(Bindings(st.vars), |st.vars|, st.trace)
  }

  /** The linear search of `getvar` finds the first binding. */
  lemma {:induction false} SearchFindsFirst(w: World, vars: seq<Binding>, name: string)
    ensures GetVar(w, vars, name) == if name in Bindings(vars) then Bindings(vars)[name] else Outside(w, name)
    decreases |vars|
  {
    if |vars| > 0 {
      var front := vars[..|vars| - 1];
      SearchFindsFirst(w, front, name);
      SearchAppend(w, front, vars[|vars| - 1], name);
      assert vars == front + [vars[|vars| - 1]];
    }
  }

  lemma {:induction false} SearchAppend(w: World, vars: seq<Binding>, last: Binding, name: string)
    ensures GetVar(w, vars + [last], name) ==
            if name in Bindings(vars) then GetVar(w, vars, name)
            else if last.name == name then last.text else Outside(w, name)
    ensures name in Bindings(vars) <==> exists i :: 0 <= i < |vars| && vars[i].name == name
    decreases |vars|
  {
    BindingNames(vars, name);
    if vars != [] {
      assert (vars + [last])[1..] == vars[1..] + [last];
      SearchAppend(w, vars[1..], last, name);
      BindingNames(vars[1..], name);
      if vars[0].name != name && name in Bindings(vars) {
        var i :| 0 <= i < |vars| && vars[i].name == name;
        assert vars[1..][i - 1].name == name;
      }
    }
  }

  lemma {:induction false} BindingNames(vars: seq<Binding>, name: string)
    ensures name in Bindings(vars) <==> exists i :: 0 <= i < |vars| && vars[i].name == name
  {
    if vars != [] {
      var front := vars[..|vars| - 1];
      BindingNames(front, name);
      if name in Bindings(front) {
        var i :| 0 <= i < |front| && front[i].name == name;
        assert vars[i].name == name;
      }
      if i :| 0 <= i < |vars| && vars[i].name == name {
        assert i < |front| ==> front[i].name == name;
      }
    }
  }

  lemma {:induction false} ExpandSame(f: string -> string, g: string -> string, text: string, i: nat)
    requires i <= |text| && forall k :: f(k) == g(k)
    ensures Expand(f, text, i) == Expand(g, text, i)
    decreases |text| - i
  {
    if i < |text| {
      ExpandSame(f, g, text, Piece(f, text, i).1);
    }
  }

  lemma ValueIsEval(w: World, vars: seq<Binding>, text: string)
    ensures Value(w, vars, text) == Eval(w, Bindings(vars), text)
  {
    forall k ensures Lookup(w, vars)(k) == Meaning(w, Bindings(vars))(k) {
      SearchFindsFirst(w, vars, k);
    }
    ExpandSame(Lookup(w, vars), Meaning(w, Bindings(vars)), text, 0);
  }

  lemma {:induction false} ArgumentsAreEval(w: World, vars: seq<Binding>, ts: Texts, after: Stream, n: nat)
    requires n <= MAX_ARGS && !TextToken(Current(after))
    ensures Arguments(w, vars, RenderTexts(ts, after), n) ==
            Some((EvalTexts(w, Bindings(vars), ts, MAX_ARGS - n), after))
    decreases ts
  {
    match ts
    case NoText =>
    case MoreText(t, rest) =>
      ValueIsEval(w, vars, t.text);
      ArgumentsAreEval(w, vars, rest, after, if n < MAX_ARGS then n + 1 else n);
      NoMoreTexts(w, Bindings(vars), rest);
  }

  lemma NoMoreTexts(w: World, vars: map<string, string>, ts: Texts)
    ensures EvalTexts(w, vars, ts, 0) == []
  {
  }

  lemma BoundIsBindFirst(st: State, name: string, text: string)
    ensures Abstract(Bound(st, name, text)) == BindFirst(Abstract(st), Take(name, MAX_NAME), text)
  {
    var b := Binding(Take(name, MAX_NAME), text);
    assert (st.vars + [b])[..|st.vars|] == st.vars;
  }

  // ----- Layout -----

  lemma {:induction false} SkipBreaks(n: nat, s: Stream)
    ensures SkipNewlines(Breaks(n, s)) == SkipNewlines(s) && Size(Breaks(n, s)) == n + Size(s)
  {
    if n > 0 { SkipBreaks(n - 1, s); }
  }

  /** What ends a block: a closing brace or the end of the source. */
  predicate Closes(s: Stream) {
    s == End || (s.Cons? && s.token == Sign(RBrace))
  }

  function Closed(s: Stream): Stream
    requires Closes(s)
  {
    if s == End then End else s.rest
  }

  /** A program renders to its closing or to a keyword. */
  lemma RenderStarts(p: Program, after: Stream)
    requires Closes(after)
    ensures p.Nil? ==> Render(p, after) == after
    ensures !p.Nil? ==> Current(Render(p, after)).kind == Word && Render(p, after).Cons?
    ensures SkipNewlines(Render(p, after)) == Render(p, after)
  {
  }

  /** Line breaks before a block's first statement change nothing. */
  lemma BreaksFirst(w: World, n: nat, s: Stream, exec: bool, st: State, result: int)
    requires Closes(s) || (s.Cons? && s.token.kind == Word)
    ensures Block(w, Breaks(n, s), exec, st, result) == Block(w, s, exec, st, result)
  {
    SkipBreaks(n, s);
    if n > 0 {
      var b := Breaks(n, s);
      assert Statement(w, b, exec, st) == Statement(w, s, exec, st);
      if Closes(s) {
        assert Block(w, b, exec, st, result) == Block(w, s, exec, st, result);
      } else {
        StatementAdvances(w, s, exec, st);
        AfterSkip(Statement(w, s, exec, st));
      }
    }
  }

  lemma AfterSkip(o: Outcome)
    ensures o.Done? ==> Size(SkipNewlines(o.rest)) <= Size(o.rest)
  {
  }

  // ----- Correctness -----

  predicate Agrees(o: Outcome, rest: Stream, result: (Store, int)) {
    o.Done? && o.rest == rest && Abstract(o.st) == result.0 && o.status == result.1
  }

  /** The brace that opens a rendered block is found behind its line breaks. */
  lemma OpenFound(condition: bool, before: nat, inside: nat, body: Program, after: Stream)
    ensures OpenBrace(condition, RenderBlock(before, inside, body, after)) ==
            Body(condition, Breaks(inside, Render(body, Cons(Sign(RBrace), after))))
  {
    SkipBreaks(before, Cons(Sign(LBrace), Breaks(inside, Render(body, Cons(Sign(RBrace), after)))));
  }

  lemma {:induction false} BodyCorrect(w: World, condition: bool, inside: nat, body: Program, after: Stream, st: State)
    requires LaidOut(body)
    ensures Agrees(Conditional(w, Body(condition, Breaks(inside, Render(body, Cons(Sign(RBrace), after)))), true, st),
                   after,
                   if condition then Exec(w, body, Abstract(st)) else (Abstract(st), 0))
    decreases body, 1
  {
    var k := Cons(Sign(RBrace), after);
    var s := Breaks(inside, Render(body, k));
    RenderStarts(body, k);
    BreaksFirst(w, inside, Render(body, k), true, st, 0);
    BlockCorrect(w, body, k, st, 0);
    if !condition {
      BlockControl(w, s, true, st, 0);
      BlockControl(w, s, false, st, 0);
    }
  }

  lemma LetCorrect(w: World, name: string, value: Text, after: Stream, st: State)
    ensures Agrees(Statement(w, RenderStmt(Let(name, value), after), true, st), after,
                   ExecStmt(w, Let(name, value), Abstract(st)))
  {
    ValueIsEval(w, st.vars, value.text);
    BoundIsBindFirst(st, name, Value(w, st.vars, value.text));
  }

  lemma PrintCorrect(w: World, value: Text, after: Stream, st: State)
    ensures Agrees(Statement(w, RenderStmt(Print(value), after), true, st), after,
                   ExecStmt(w, Print(value), Abstract(st)))
  {
    ValueIsEval(w, st.vars, value.text);
  }

  lemma RunCorrect(w: World, args: Texts, after: Stream, st: State)
    requires !TextToken(Current(after))
    ensures Agrees(Statement(w, RenderStmt(Run(args), after), true, st), after, ExecStmt(w, Run(args), Abstract(st)))
  {
    ArgumentsAreEval(w, st.vars, args, after, 0);
  }

  lemma IfOpens(w: World, command: Text, before: nat, inside: nat, body: Program, after: Stream, st: State)
    ensures Statement(w, RenderStmt(IfExists(command, before, inside, body), after), true, st) ==
            Conditional(w, Body(command.text in w.commands(st.trace),
                                Breaks(inside, Render(body, Cons(Sign(RBrace), after)))), true, st)
  {
    OpenFound(command.text in w.commands(st.trace), before, inside, body, after);
  }

  lemma RequireOpens(w: World, before: nat, inside: nat, body: Program, after: Stream, st: State)
    ensures Statement(w, RenderStmt(RequireAdmin(before, inside, body), after), true, st) ==
            Conditional(w, Body(w.admin, Breaks(inside, Render(body, Cons(Sign(RBrace), after)))), true, st)
  {
    OpenFound(w.admin, before, inside, body, after);
  }

  lemma {:induction false} StatementCorrect(w: World, c: Stmt, after: Stream, st: State)
    requires LaidOutStmt(c) && (c.Run? ==> !TextToken(Current(after)))
    ensures Agrees(Statement(w, RenderStmt(c, after), true, st), after, ExecStmt(w, c, Abstract(st)))
    decreases c, 0
  {
    match c
    case Let(name, value) => LetCorrect(w, name, value, after, st);
    case Print(value) => PrintCorrect(w, value, after, st);
    case Run(args) => RunCorrect(w, args, after, st);
    case IfExists(command, before, inside, body) =>
      IfOpens(w, command, before, inside, body, after, st);
      BodyCorrect(w, command.text in w.commands(st.trace), inside, body, after, st);
    case RequireAdmin(before, inside, body) =>
      RequireOpens(w, before, inside, body, after, st);
      BodyCorrect(w, w.admin, inside, body, after, st);
  }

  /** After a statement the block goes on with the rest of the program. */
  lemma NextStatement(w: World, s: Stream, breaks: nat, tail: Stream, st: State, result: int)
    requires Current(s).kind == Word && SkipNewlines(tail) == tail
    requires var o := Statement(w, s, true, st); o.Done? && o.rest == Breaks(breaks, tail)
    ensures var o := Statement(w, s, true, st);
            Block(w, s, true, st, result) == Block(w, tail, true, o.st, Latest(result, o.status))
  {
    SkipBreaks(breaks, tail);
    StatementAdvances(w, s, true, st);
    AfterSkip(Statement(w, s, true, st));
    assert SkipNewlines(s) == s;
  }

  lemma RunEndsLine(c: Stmt, breaks: nat, rest: Program, after: Stream)
    requires Closes(after) && (c.Run? ==> breaks > 0 || rest.Nil?)
    ensures c.Run? ==> !TextToken(Current(Breaks(breaks, Render(rest, after))))
  {
    RenderStarts(rest, after);
  }

  lemma StatementStarts(c: Stmt, after: Stream)
    ensures Current(RenderStmt(c, after)).kind == Word
  {
  }

  /** The interpreter runs the rendering of every program as the semantics says:
      same trace, same bindings, and the last nonzero status. */
  lemma {:induction false} BlockCorrect(w: World, p: Program, after: Stream, st: State, result: int)
    requires Closes(after) && LaidOut(p)
    ensures Agrees(Block(w, Render(p, after), true, st, result), Closed(after),
                   (Exec(w, p, Abstract(st)).0, Latest(result, Exec(w, p, Abstract(st)).1)))
    decreases p, 0
  {
    match p
    case Nil =>
    case Then(c, breaks, rest) =>
      var tail := Render(rest, after);
      var s := RenderStmt(c, Breaks(breaks, tail));
      RunEndsLine(c, breaks, rest, after);
      StatementCorrect(w, c, Breaks(breaks, tail), st);
      StatementStarts(c, Breaks(breaks, tail));
      RenderStarts(rest, after);
      NextStatement(w, s, breaks, tail, st, result);
      var o := Statement(w, s, true, st);
      BlockCorrect(w, rest, after, o.st, Latest(result, o.status));
    case Exit(code, breaks) =>
      SkipToClose(breaks, after);
      ExitContinues(w, code, Breaks(breaks, after), st, result);
      UnknownEnds(w, code, Breaks(breaks, after), st, Latest(result, Atoi(code)));
  }

  /** A source whose tokens are those of a program, however it is written, runs as
      the semantics says. */
  lemma SourceCorrect(w: World, src: string, breaks: nat, p: Program)
    requires Tokens(src, 0) == Breaks(breaks, Render(p, End)) && LaidOut(p)
    ensures Agrees(Main(w, src), End, Exec(w, p, Store(map[], 0, [])))
  {
    RenderStarts(p, End);
    BreaksFirst(w, breaks, Render(p, End), true, State([], []), 0);
    BlockCorrect(w, p, End, State([], []), 0);
  }

  /** In particular a source written piece by piece, with any comments, blanks and
      quotes, whose pieces are the tokens of the program. */
  lemma SpelledCorrect(w: World, ls: seq<Lexeme>, breaks: nat, p: Program)
    requires AllReadable(ls) && TokensOf(ls) == Breaks(breaks, Render(p, End)) && LaidOut(p)
    ensures Agrees(Main(w, Written(ls)), End, Exec(w, p, Store(map[], 0, [])))
  {
    var src := Written(ls);
    assert src[0..] == src;
    WrittenTokens(src, 0, ls);
    SourceCorrect(w, src, breaks, p);
  }

  // ----- `exit` -----

  /** `exit` does not end the block: its operand is read again, as the next
      statement, with the code as the status so far. */
  lemma ExitContinues(w: World, code: string, rest: Stream, st: State, result: int)
    ensures Block(w, Cons(W("exit"), Cons(W(code), rest)), true, st, result) ==
            Block(w, Cons(W(code), rest), true, st, Latest(result, Atoi(code)))
  {
    var s := Cons(W(code), rest);
    assert Statement(w, Cons(W("exit"), s), true, st) == Done(s, st, Atoi(code));
    assert SkipNewlines(s) == s;
  }

  /** An operand that is no keyword is an unknown statement: the rest of the block,
      up to the next closing brace, is skipped, and the status is 2. */
  lemma UnknownEnds(w: World, code: string, rest: Stream, st: State, result: int)
    requires !Keyword(Take(code, MAX_NAME))
    ensures Block(w, Cons(W(code), rest), true, st, result) ==
            match SkipLines(rest)
            case None => Diverges
            case Some(at) => Done(Next(at), st, 2)
  {
    var s := Cons(W(code), rest);
    assert SkipNewlines(s) == s;
    assert Statement(w, s, true, st) == UnknownStatement(rest, st);
    SkipStops(rest);
    if SkipLines(rest).Some? {
      var at := SkipLines(rest).value;
      assert SkipNewlines(at) == at;
      assert Block(w, at, true, st, 2) == Done(Next(at), st, 2);
    }
  }

  lemma {:induction false} SkipStops(s: Stream)
    ensures SkipLines(s).Some? ==>
              var r := SkipLines(s).value; r == End || (r.Cons? && r.token.kind == RBrace)
  {
    if s.Cons? && s.token.kind != RBrace {
      SkipStops(s.rest);
    }
  }

  lemma {:induction false} SkipToClose(breaks: nat, after: Stream)
    requires Closes(after)
    ensures SkipLines(Breaks(breaks, after)) == Some(after) && Next(after) == Closed(after)
  {
    if breaks > 0 {
      SkipToClose(breaks - 1, after);
    }
  }

  /** The block ends, and every statement it runs has status 0. */
  predicate Quiet(w: World, s: Stream, st: State)
    decreases Size(s)
  {
    if Current(s).kind == Eof || Current(s).kind == RBrace then true
    else
      match Statement(w, s, true, st)
      case Diverges => false
      case Done(s', st', r) =>
        r == 0 && Size(SkipNewlines(s')) < Size(s) && Quiet(w, SkipNewlines(s'), st')
  }

  lemma {:induction false} QuietIff(w: World, s: Stream, st: State, result: int)
    ensures var o := Block(w, s, true, st, result); o.Done? && o.status == 0 <==> result == 0 && Quiet(w, s, st)
    decreases Size(s)
  {
    if Current(s).kind != Eof && Current(s).kind != RBrace {
      var o := Statement(w, s, true, st);
      if o.Done? {
        var after := SkipNewlines(o.rest);
        if Size(after) < Size(s) {
          QuietIff(w, after, o.st, if o.status != 0 then o.status else result);
        }
      }
    }
  }

  lemma KeywordIsZero(code: string)
    requires Keyword(Take(code, MAX_NAME))
    ensures Atoi(code) == 0
  {
    assert code[0] == Take(code, MAX_NAME)[0];
  }

  /** A block that starts with `exit code` ends with that code exactly if the code
      is 2 and nothing in the rest of the source makes the lexer loop, or, for an
      operand that is a keyword and so has the code 0, if no statement so far failed
      and the statements read from the operand on end without a failure. */
  lemma ExitCode(w: World, code: string, rest: Stream, st: State, result: int)
    ensures var o := Block(w, Cons(W("exit"), Cons(W(code), rest)), true, st, result);
            o.Done? && o.status == Atoi(code) <==>
            if Keyword(Take(code, MAX_NAME)) then result == 0 && Quiet(w, Cons(W(code), rest), st)
            else Atoi(code) == 2 && SkipLines(rest).Some?
  {
    ExitContinues(w, code, rest, st, result);
    if Keyword(Take(code, MAX_NAME)) {
      KeywordIsZero(code);
      QuietIff(w, Cons(W(code), rest), st, result);
    } else {
      UnknownEnds(w, code, rest, st, Latest(result, Atoi(code)));
    }
  }
}
