/** The interpreter as the program runs it: a lexer, an array of bindings that
    grows, and methods that parse and execute in one pass. */
module ScriptInterpreter {
  import opened Options
  import opened ScriptLexer
  import opened Buffers
  import opened Slices
  import opened Script
  import opened ScriptInterpolation
  import opened ScriptSemantics

  class Interpreter {
    const world: World
    const lexer: Lexer
    var vars: seq<Binding>
    var trace: seq<Event>

    ghost predicate Valid()
      reads this, lexer
    {
      lexer.Valid()
    }

    function St(): State
      reads this
    {
      State(vars, trace)
    }

    constructor (world: World, source: Source)
      ensures Valid() && fresh(lexer) && this.world == world
      ensures lexer.Stream() == Tokens(source, 0) && St() == State([], [])
    {
      this.world := world;
      lexer := new Lexer(source);
      vars, trace := [], [];
    }

    lemma TokenIsCurrent()
      requires Valid()
      ensures lexer.token == Current(lexer.Stream())
    {
    }

    /** `getvar`. */
    method Get(name: string) returns (value: string)
      ensures value == GetVar(world, vars, name)
    {
      for i := 0 to |vars|
        invariant GetVar(world, vars, name) == GetVar(world, vars[i..], name)
      {
        if vars[i].name == name {
          return vars[i].text;
        }
      }
      return Outside(world, name);
    }

    /** `interpolate`: fills a buffer of `cap` characters with as much of the
        expansion as fits and a terminator. */
    method Interpolate(text: string, out: array<char>, cap: nat) returns (length: nat)
      requires 1 <= cap <= out.Length
      modifies out
      ensures length < cap
      ensures out[..length] == Take(Expand(Lookup(world, vars), text, 0), cap - 1)
      ensures out[length] == '\0'
      ensures forall k :: cap <= k < out.Length ==> out[k] == old(out[k])
    {
      var n: nat, i: nat := 0, 0;
      ghost var done := "";
      ghost var lookup := Lookup(world, vars);
      while i < |text| && n + 1 < cap
        invariant i <= |text| && n < cap
        invariant Expand(lookup, text, 0) == done + Expand(lookup, text, i)
        invariant out[..n] == Take(done, cap - 1)
        invariant forall k :: cap <= k < out.Length ==> out[k] == old(out[k])
        decreases |text| - i
      {
        ghost var rest := Expand(lookup, text, i);
        var part, next := Read(text, i);
        Step(lookup, text, i, part, next, Expand(lookup, text, next));
        n := Append(out, n, cap, done, part);
        Regroup(done, part, Expand(lookup, text, next), rest);
        done := done + part;
        i := next;
      }
      TakeAll(done, Expand(lookup, text, i), cap - 1);
      out[n] := '\0';
      return n;
    }

    /** One turn of the loop: the text to copy and where to go on. */
    method Read(text: string, i: nat) returns (part: string, next: nat)
      requires i < |text|
      ensures (part, next) == Piece(Lookup(world, vars), text, i)
    {
      if text[i] != '$' || i + 1 >= |text| || text[i + 1] != '{' {
        return [text[i]], i + 1;
      }
      var j := ScanKey(text, i + 2);
      var key := text[i + 2..j];
      if |key| > MAX_NAME {
        key := key[..MAX_NAME];
      }
      part := Get(key);
      next := if j < |text| then j + 1 else i + 1;
    }

    /** A token's text, interpolated into a fresh buffer of 512 characters. */
    method Evaluate(text: string) returns (value: string)
      ensures value == Value(world, vars, text)
    {
      var buffer := new char[512](_ => '\0');
      var length := Interpolate(text, buffer, 512);
      return buffer[..length];
    }

    /** Moves to the next token. */
    method Lex()
      requires Valid()
      modifies lexer
      ensures Valid() && lexer.Stream() == Next(old(lexer.Stream()))
    {
      lexer.Lex();
    }

    method Newlines()
      requires Valid()
      modifies lexer
      ensures Valid() && lexer.Stream() == SkipNewlines(old(lexer.Stream()))
    {
      TokenIsCurrent();
      while lexer.token.kind == Newline
        invariant Valid() && lexer.token == Current(lexer.Stream())
        invariant SkipNewlines(lexer.Stream()) == SkipNewlines(old(lexer.Stream()))
        decreases Size(lexer.Stream())
      {
        Lex();
        TokenIsCurrent();
      }
    }

    /** What the methods below promise: they do what the function says of the
        state before, and report the loops that never end. */
    ghost predicate Follows(o: Outcome, diverged: bool, status: int)
      reads this, lexer
    {
      && Valid()
      && match o
         case Diverges => diverged
         case Done(rest, st, r) => !diverged && lexer.Stream() == rest && St() == st && status == r
    }

    method Let(execute: bool) returns (status: int)
      requires Valid()
      modifies this, lexer
      ensures Follows(LetStatement(world, old(lexer.Stream()), execute, old(St())), false, status)
    {
      TokenIsCurrent();
      if lexer.token.kind != Word {
        return 2;
      }
      var name := Take(lexer.token.text, MAX_NAME);
      Lex();
      TokenIsCurrent();
      if lexer.token.kind != Equals {
        return 2;
      }
      Lex();
      TokenIsCurrent();
      if lexer.token.kind != Quoted && lexer.token.kind != Word {
        return 2;
      }
      var value := Evaluate(lexer.token.text);
      if execute && |vars| < MAX_VARS {
        vars := vars + [Binding(name, value)];
      }
      Lex();
      return 0;
    }

    method Print(execute: bool) returns (status: int)
      requires Valid()
      modifies this, lexer
      ensures Follows(PrintStatement(world, old(lexer.Stream()), execute, old(St())), false, status)
    {
      TokenIsCurrent();
      if lexer.token.kind != Quoted && lexer.token.kind != Word {
        return 2;
      }
      var value := Evaluate(lexer.token.text);
      if execute {
        trace := trace + [Printed(value)];
      }
      Lex();
      return 0;
    }

    /** The arguments of `run`: at most 63 are kept. A stuck lexer never leaves the loop. */
    method Collect() returns (diverged: bool, args: seq<string>)
      requires Valid()
      modifies lexer
      ensures Valid()
      ensures match Arguments(world, vars, old(lexer.Stream()), 0)
              case None => diverged
              case Some(r) => !diverged && args == r.0 && lexer.Stream() == r.1
    {
      args := [];
      TokenIsCurrent();
      ghost var whole := Arguments(world, vars, lexer.Stream(), 0);
      assert whole.Some? ==> [] + whole.value.0 == whole.value.0;
      while TextToken(lexer.token)
        invariant Valid() && lexer.token == Current(lexer.Stream())
        invariant |args| <= MAX_ARGS
        invariant whole == Prepended(args, Arguments(world, vars, lexer.Stream(), |args|))
        decreases Size(lexer.Stream())
      {
        if lexer.token == Token(Word, "") {
          StuckHere();
          return true, args;
        }
        var v := Evaluate(lexer.token.text);
        ArgumentsStep(world, vars, lexer.Stream(), args);
        if |args| < MAX_ARGS {
          args := args + [v];
        }
        Lex();
        TokenIsCurrent();
      }
      return false, args;
    }

    lemma StuckHere()
      requires Valid() && lexer.token == Token(Word, "")
      ensures lexer.Stream() == Stuck
    {
    }

    method RunCommandLine(execute: bool) returns (diverged: bool, status: int)
      requires Valid()
      modifies this, lexer
      ensures Follows(RunStatement(world, old(lexer.Stream()), execute, old(St())), diverged, status)
    {
      var args;
      status := 0;
      diverged, args := Collect();
      if !diverged && execute && args != [] {
        status := world.status(trace, args);
        trace := trace + [Ran(args)];
      }
    }

    /** The brace that opens a block. */
    method Open() returns (ok: bool)
      requires Valid()
      modifies lexer
      ensures Valid()
      ensures forall condition :: OpenBrace(condition, old(lexer.Stream())) ==
                                  if ok then Body(condition, lexer.Stream()) else Bad(lexer.Stream())
    {
      Newlines();
      TokenIsCurrent();
      if lexer.token.kind != LBrace {
        return false;
      }
      Lex();
      return true;
    }

    method Require() returns (ok: bool, condition: bool)
      requires Valid()
      modifies lexer
      ensures Valid()
      ensures RequireHeader(world, old(lexer.Stream())) ==
              if ok then Body(condition, lexer.Stream()) else Bad(lexer.Stream())
    {
      TokenIsCurrent();
      if lexer.token.kind != Word || lexer.token.text != "admin" {
        return false, false;
      }
      condition := world.admin;
      Lex();
      ok := Open();
    }

    method If() returns (ok: bool, condition: bool)
      requires Valid()
      modifies lexer
      ensures Valid()
      ensures IfHeader(world, old(lexer.Stream()), trace) ==
              if ok then Body(condition, lexer.Stream()) else Bad(lexer.Stream())
    {
      TokenIsCurrent();
      if lexer.token.kind != Word || lexer.token.text != "command.exists" {
        return false, false;
      }
      Lex();
      TokenIsCurrent();
      if lexer.token.kind != LParen {
        return false, false;
      }
      Lex();
      TokenIsCurrent();
      if lexer.token.kind != Quoted && lexer.token.kind != Word {
        return false, false;
      }
      condition := lexer.token.text in world.commands(trace);
      Lex();
      TokenIsCurrent();
      if lexer.token.kind != RParen {
        return false, false;
      }
      Lex();
      ok := Open();
    }

    method Exit(execute: bool) returns (status: int)
      requires Valid()
      ensures Follows(ExitStatement(lexer.Stream(), execute, St()), false, status)
    {
      TokenIsCurrent();
      if lexer.token.kind != Word {
        return 2;
      }
      return if execute then Atoi(lexer.token.text) else 0;
    }

    /** `skip_lines`; a stuck lexer never leaves the loop. */
    method Unknown() returns (diverged: bool, status: int)
      requires Valid()
      modifies lexer
      ensures Follows(UnknownStatement(old(lexer.Stream()), St()), diverged, status)
    {
      status := 2;
      TokenIsCurrent();
      ghost var whole := SkipLines(lexer.Stream());
      while lexer.token.kind != Eof && lexer.token.kind != RBrace
        invariant Valid() && lexer.token == Current(lexer.Stream())
        invariant whole == SkipLines(lexer.Stream())
        decreases Size(lexer.Stream())
      {
        if lexer.token == Token(Word, "") {
          StuckHere();
          return true, status;
        }
        Lex();
        TokenIsCurrent();
      }
      return false, status;
    }

    /** `statement`: it follows the function on the state before, whatever the source. */
    method Execute(execute: bool) returns (diverged: bool, status: int)
      requires Valid()
      modifies this, lexer
      ensures Follows(Statement(world, old(lexer.Stream()), execute, old(St())), diverged, status)
      decreases Size(lexer.Stream()), 0
    {
      ghost var s0 := lexer.Stream();
      Newlines();
      TokenIsCurrent();
      if lexer.token.kind == RBrace || lexer.token.kind == Eof {
        return false, 0;
      }
      if lexer.token.kind != Word {
        return false, 2;
      }
      var keyword := Take(lexer.token.text, MAX_NAME);
      Lex();
      diverged := false;
      if keyword == "let" {
        status := Let(execute);
      } else if keyword == "print" {
        status := Print(execute);
      } else if keyword == "run" {
        diverged, status := RunCommandLine(execute);
      } else if keyword == "if" || keyword == "require" {
        ghost var rest := lexer.Stream();
        ghost var header := HeaderOf(world, keyword, rest, trace);
        assert Statement(world, s0, execute, St()) == Conditional(world, header, execute, St());
        var ok, condition;
        if keyword == "require" {
          ok, condition := Require();
        } else {
          ok, condition := If();
        }
        if !ok {
          return false, 2;
        }
        diverged, status := RunBlock(execute && condition);
      } else if keyword == "exit" {
        status := Exit(execute);
      } else {
        diverged, status := Unknown();
      }
    }

    /** `block`: a turn that leaves the lexer where it was would repeat for ever. */
    method RunBlock(execute: bool) returns (diverged: bool, result: int)
      requires Valid()
      modifies this, lexer
      ensures Follows(Block(world, old(lexer.Stream()), execute, old(St()), 0), diverged, result)
      decreases Size(lexer.Stream()), 1
    {
      result := 0;
      TokenIsCurrent();
      ghost var whole := Block(world, lexer.Stream(), execute, St(), 0);
      while lexer.token.kind != Eof && lexer.token.kind != RBrace
        invariant Valid() && lexer.token == Current(lexer.Stream())
        invariant whole == Block(world, lexer.Stream(), execute, St(), result)
        invariant Size(lexer.Stream()) <= Size(old(lexer.Stream()))
        decreases Size(lexer.Stream())
      {
        StallTest(world, lexer.Stream(), execute, St());
        var stalled := lexer.token.kind != Word && lexer.token.kind != Newline;
        var lost, r := Execute(execute);
        if lost || stalled {
          return true, result;
        }
        Newlines();
        TokenIsCurrent();
        if r != 0 && execute {
          result := r;
        }
      }
      if lexer.token.kind == RBrace {
        Lex();
      }
      return false, result;
    }
  }

  /** `main`, for a source already read: it does what `Main` says, for every source. */
  method RunSource(world: World, source: Source) returns (diverged: bool, st: State, status: int)
    ensures match Main(world, source)
            case Diverges => diverged
            case Done(_, final, r) => !diverged && st == final && status == r
  {
    var interpreter := new Interpreter(world, source);
    diverged, status := interpreter.RunBlock(true);
    st := interpreter.St();
  }

  /** A turn of `block` makes no progress exactly when it starts at a token that is
      neither a word nor a line break. */
  lemma StallTest(w: World, s: Stream, exec: bool, st: State)
    requires Current(s).kind != Eof && Current(s).kind != RBrace
    ensures var o := Statement(w, s, exec, st);
            o.Done? ==> (Size(SkipNewlines(o.rest)) >= Size(s) <==>
                         Current(s).kind != Word && Current(s).kind != Newline)
  {
    var o := Statement(w, s, exec, st);
    if o.Done? && Size(SkipNewlines(o.rest)) >= Size(s) {
      NoProgressRepeats(w, s, exec, st);
    }
  }

  function Prepended(args: seq<string>, more: Option<(seq<string>, Stream)>): Option<(seq<string>, Stream)> {
    match more
    case None => None
    case Some(r) => Some((args + r.0, r.1))
  }

  /** One more argument moves from the source to those kept. */
  lemma ArgumentsStep(w: World, vars: seq<Binding>, s: Stream, args: seq<string>)
    requires s.Cons? && TextToken(s.token) && |args| <= MAX_ARGS
    ensures var kept := if |args| < MAX_ARGS then args + [Value(w, vars, s.token.text)] else args;
            Prepended(args, Arguments(w, vars, s, |args|)) == Prepended(kept, Arguments(w, vars, s.rest, |kept|))
  {
    var more := Arguments(w, vars, s.rest, if |args| < MAX_ARGS then |args| + 1 else |args|);
    if |args| < MAX_ARGS && more.Some? {
      var v := Value(w, vars, s.token.text);
      assert args + ([v] + more.value.0) == (args + [v]) + more.value.0;
    }
  }

  method ScanKey(text: string, from: nat) returns (j: nat)
    requires from <= |text|
    ensures j == KeyEnd(text, from)
  {
    j := from;
    while j < |text| && text[j] != '}'
      invariant from <= j <= |text| && KeyEnd(text, from) == KeyEnd(text, j)
    {
      j := j + 1;
    }
  }
}
