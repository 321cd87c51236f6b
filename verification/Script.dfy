/** The one-pass parser and interpreter of Mantle Script, over a token stream.
    `Diverges` stands for a loop of the program that repeats its own state. */
module Script {
  import opened Options
  import opened Chars
  import opened ScriptLexer
  import opened Buffers

  const MAX_NAME: nat := 63
  const MAX_ARGS: nat := 63
  const MAX_VARS: nat := 128

  datatype Binding = Binding(name: string, text: string)

  /** What a script can observe: a line printed, or a command run with its arguments. */
  datatype Event = Printed(text: string) | Ran(argv: seq<string>)

  datatype State = State(vars: seq<Binding>, trace: seq<Event>)

  /** What a run takes from outside: script arguments, process environment, whether
      the user is root, and, after each history of events, the commands on the PATH
      and the exit status of one more command. */
  datatype World = World(args: seq<string>, env: map<string, string>, commands: seq<Event> -> set<string>,
                         admin: bool, status: (seq<Event>, seq<string>) -> int)

  datatype Outcome = Diverges | Done(rest: Stream, st: State, status: int)

  // ----- Variables and interpolation -----

  predicate Digit(c: char) { '0' <= c <= '9' }

  function Digits(text: string, n: nat): nat {
    if text != "" && Digit(text[0]) then Digits(text[1..], 10 * n + (text[0] as int - '0' as int)) else n
  }

  /** `atoi`, without its limit on the range. */
  function Atoi(text: string): int {
    if text == "" then 0
    else if Space(text[0]) then Atoi(text[1..])
    else if text[0] == '-' then 0 - Digits(text[1..], 0)
    else if text[0] == '+' then Digits(text[1..], 0)
    else Digits(text, 0)
  }

  /** What a name means when no binding has it: a script argument or an environment variable. */
  function Outside(w: World, name: string): string {
    if |name| >= 2 && name[0] == '$' && Digit(name[1]) then
      var n := Digits(name[1..], 0);
      if n < |w.args| then w.args[n] else ""
    else if name in w.env then w.env[name] else ""
  }

  /** `getvar`: the first binding of the name, else what it means outside. */
  function GetVar(w: World, vars: seq<Binding>, name: string): string {
    if vars == [] then Outside(w, name)
    else if vars[0].name == name then vars[0].text
    else GetVar(w, vars[1..], name)
  }

  function KeyEnd(text: string, i: nat): (j: nat)
    requires i <= |text|
    ensures i <= j <= |text|
    ensures j < |text| ==> text[j] == '}'
    decreases |text| - i
  {
    if i < |text| && text[i] != '}' then KeyEnd(text, i + 1) else i
  }

  predicate Opens(text: string, i: nat) {
    i + 1 < |text| && text[i] == '$' && text[i + 1] == '{'
  }

  /** The key of the `${` at `i`, cut to 63 characters. */
  function Key(text: string, i: nat): string
    requires Opens(text, i)
  {
    Take(text[i + 2..KeyEnd(text, i + 2)], MAX_NAME)
  }

  /** What one reference or character at `i` stands for, and where the text goes on. An
      unclosed `${` is replaced, and its `{` and what follows are read once more. */
  function Piece(lookup: string -> string, text: string, i: nat): (r: (string, nat))
    requires i < |text|
    ensures i < r.1 <= |text|
  {
    if Opens(text, i) then
      var j := KeyEnd(text, i + 2);
      (lookup(Key(text, i)), if j < |text| then j + 1 else i + 1)
    else ([text[i]], i + 1)
  }

  /** The text from `i` on with every `${name}` replaced, without a limit on its length. */
  function Expand(lookup: string -> string, text: string, i: nat): string
    requires i <= |text|
    decreases |text| - i
  {
    if i == |text| then ""
    else
      var piece := Piece(lookup, text, i);
      piece.0 + Expand(lookup, text, piece.1)
  }

  function Lookup(w: World, vars: seq<Binding>): string -> string {
    name => GetVar(w, vars, name)
  }

  /** A token's text, interpolated into a buffer of 512 characters. */
  function Value(w: World, vars: seq<Binding>, text: string): string {
    Take(Expand(Lookup(w, vars), text, 0), MAX_TEXT)
  }

  // ----- Statements -----

  predicate TextToken(t: Token) {
    t.kind == Word || t.kind == Quoted
  }

  function SkipNewlines(s: Stream): (r: Stream)
    ensures Size(r) <= Size(s) && Current(r).kind != Newline
    decreases s
  {
    match s
    case Cons(t, rest) => if t.kind == Newline then SkipNewlines(rest) else s
    case _ => s
  }

  /** `skip_lines`: none when it loops for ever. */
  function SkipLines(s: Stream): (r: Option<Stream>)
    ensures r.Some? ==> Size(r.value) <= Size(s)
    decreases s
  {
    match s
    case End => Some(s)
    case Stuck => None
    case Cons(t, rest) => if t.kind == RBrace then Some(s) else SkipLines(rest)
  }

  /** The arguments of `run` after the `n` already kept, and what follows them;
      none when the loop over them does not end. */
  function Arguments(w: World, vars: seq<Binding>, s: Stream, n: nat): (r: Option<(seq<string>, Stream)>)
    ensures r.Some? ==> Size(r.value.1) <= Size(s)
    decreases s
  {
    match s
    case End => Some(([], s))
    case Stuck => None
    case Cons(t, rest) =>
      if !TextToken(t) then Some(([], s))
      else
        match Arguments(w, vars, rest, if n < MAX_ARGS then n + 1 else n)
        case None => None
        case Some((args, after)) => Some((if n < MAX_ARGS then [Value(w, vars, t.text)] + args else args, after))
  }

  /** A block's condition and where its body starts, or where parsing failed. */
  datatype Header = Bad(rest: Stream) | Body(condition: bool, rest: Stream)

  function OpenBrace(condition: bool, s: Stream): Header {
    var s' := SkipNewlines(s);
    if Current(s').kind != LBrace then Bad(s') else Body(condition, Next(s'))
  }

  function RequireHeader(w: World, s: Stream): Header {
    if Current(s) != Token(Word, "admin") then Bad(s) else OpenBrace(w.admin, Next(s))
  }

  function IfHeader(w: World, s: Stream, trace: seq<Event>): Header {
    if Current(s) != Token(Word, "command.exists") then Bad(s)
    else
      var s1 := Next(s);
      if Current(s1).kind != LParen then Bad(s1)
      else
        var s2 := Next(s1);
        if !TextToken(Current(s2)) then Bad(s2)
        else
          var s3 := Next(s2);
          if Current(s3).kind != RParen then Bad(s3)
          else OpenBrace(Current(s2).text in w.commands(trace), Next(s3))
  }

  /** What stands between the keyword and the body. */
  function HeaderOf(w: World, keyword: string, s: Stream, trace: seq<Event>): (h: Header)
    ensures Size(h.rest) <= Size(s)
  {
    HeaderSize(w, s, trace);
    if keyword == "require" then RequireHeader(w, s) else IfHeader(w, s, trace)
  }

  lemma NextSize(s: Stream)
    ensures Size(Next(s)) <= Size(s)
  {
  }

  lemma HeaderSize(w: World, s: Stream, trace: seq<Event>)
    ensures Size(RequireHeader(w, s).rest) <= Size(s) && Size(IfHeader(w, s, trace).rest) <= Size(s)
  {
    NextSize(s);
    NextSize(Next(s));
    NextSize(Next(Next(s)));
    NextSize(Next(Next(Next(s))));
    NextSize(SkipNewlines(Next(s)));
    NextSize(SkipNewlines(Next(Next(Next(Next(s))))));
  }

  function Bound(st: State, name: string, text: string): State {
    if |st.vars| < MAX_VARS then st.(vars := st.vars + [Binding(Take(name, MAX_NAME), text)]) else st
  }

  function LetStatement(w: World, s: Stream, exec: bool, st: State): Outcome {
    if Current(s).kind != Word then Done(s, st, 2)
    else
      var s1 := Next(s);
      if Current(s1).kind != Equals then Done(s1, st, 2)
      else
        var s2 := Next(s1);
        if !TextToken(Current(s2)) then Done(s2, st, 2)
        else
          var text := Value(w, st.vars, Current(s2).text);
          Done(Next(s2), if exec then Bound(st, Current(s).text, text) else st, 0)
  }

  function PrintStatement(w: World, s: Stream, exec: bool, st: State): Outcome {
    if !TextToken(Current(s)) then Done(s, st, 2)
    else
      var text := Value(w, st.vars, Current(s).text);
      Done(Next(s), if exec then st.(trace := st.trace + [Printed(text)]) else st, 0)
  }

  /** Running no argument at all is a success that runs nothing. */
  function RunCommand(w: World, argv: seq<string>, st: State): (State, int) {
    if argv == [] then (st, 0)
    else (st.(trace := st.trace + [Ran(argv)]), w.status(st.trace, argv))
  }

  function RunStatement(w: World, s: Stream, exec: bool, st: State): Outcome {
    match Arguments(w, st.vars, s, 0)
    case None => Diverges
    case Some((args, rest)) =>
      if exec then Done(rest, RunCommand(w, args, st).0, RunCommand(w, args, st).1) else Done(rest, st, 0)
  }

  /** `exit` leaves its operand to be read as the next statement. */
  function ExitStatement(s: Stream, exec: bool, st: State): Outcome {
    if Current(s).kind != Word then Done(s, st, 2)
    else Done(s, st, if exec then Atoi(Current(s).text) else 0)
  }

  function UnknownStatement(s: Stream, st: State): Outcome {
    match SkipLines(s)
    case None => Diverges
    case Some(rest) => Done(rest, st, 2)
  }

  /** The statements without a body, after their keyword. */
  function Simple(w: World, keyword: string, rest: Stream, exec: bool, st: State): Outcome {
    if keyword == "let" then LetStatement(w, rest, exec, st)
    else if keyword == "print" then PrintStatement(w, rest, exec, st)
    else if keyword == "run" then RunStatement(w, rest, exec, st)
    else if keyword == "exit" then ExitStatement(rest, exec, st)
    else UnknownStatement(rest, st)
  }

  /** `statement`. */
  function Statement(w: World, s0: Stream, exec: bool, st: State): Outcome
    decreases Size(s0), 0
  {
    var s := SkipNewlines(s0);
    var t := Current(s);
    if t.kind == RBrace || t.kind == Eof then Done(s, st, 0)
    else if t.kind != Word then Done(s, st, 2)
    else
      var keyword, rest := Take(t.text, MAX_NAME), Next(s);
      if keyword == "if" || keyword == "require" then Conditional(w, HeaderOf(w, keyword, rest, st.trace), exec, st)
      else Simple(w, keyword, rest, exec, st)
  }

  /** The body of a conditional is parsed in any case, and run when the condition holds. */
  function Conditional(w: World, header: Header, exec: bool, st: State): Outcome
    decreases Size(header.rest), 2
  {
    match header
    case Bad(at) => Done(at, st, 2)
    case Body(condition, body) => Block(w, body, exec && condition, st, 0)
  }

  /** `block`, when `result` is the status so far. A turn that leaves the lexer
      where it was leaves the whole state as it was, so the loop never ends. */
  function Block(w: World, s: Stream, exec: bool, st: State, result: int): Outcome
    decreases Size(s), 1
  {
    var t := Current(s);
    if t.kind == Eof || t.kind == RBrace then Done(if t.kind == RBrace then Next(s) else s, st, result)
    else
      match Statement(w, s, exec, st)
      case Diverges => Diverges
      case Done(s', st', r) =>
        var after := SkipNewlines(s');
        if Size(after) >= Size(s) then Diverges
        else Block(w, after, exec, st', if r != 0 && exec then r else result)
  }

  /** `main`: the program of a source text. */
  function Main(w: World, src: string): Outcome {
    Block(w, Tokens(src, 0), true, State([], []), 0)
  }
}
