/** The lexer of Mantle Script. */
module ScriptLexer {
  import opened Chars
  import opened Slices

  datatype Kind = Eof | Word | Quoted | LBrace | RBrace | Equals | LParen | RParen | Newline

  datatype Token = Token(kind: Kind, text: string)

  /** Longest text of a token. */
  const MAX_TEXT: nat := 511

  /** Source text: a C string, so it holds no NUL. */
  type Source = s: string | '\0' !in s witness ""

  predicate Blank(c: char) { c == ' ' || c == '\t' || c == '\r' }

  /** Vertical tab and form feed: they end a word, and nothing skips them. */
  predicate Stalls(c: char) { c as int == 11 || c as int == 12 }

  predicate Punctuation(c: char) { c == '{' || c == '}' || c == '=' || c == '(' || c == ')' }

  predicate Quote(c: char) { c == '"' || c == '\'' }

  function PunctuationKind(c: char): Kind
    requires Punctuation(c)
  {
    if c == '{' then LBrace else if c == '}' then RBrace else if c == '=' then Equals
    else if c == '(' then LParen else RParen
  }

  predicate WordChar(c: char) { !Space(c) && !Punctuation(c) }

  /** The end of the run of blanks at `pos`. */
  function BlanksEnd(src: string, pos: nat): (r: nat)
    ensures r >= pos && (pos <= |src| ==> r <= |src|)
    ensures r < |src| ==> !Blank(src[r])
    decreases |src| - pos
  {
    if pos < |src| && Blank(src[pos]) then BlanksEnd(src, pos + 1) else pos
  }

  /** The end of the line at `pos`. */
  function LineEnd(src: string, pos: nat): (r: nat)
    ensures r >= pos && (pos <= |src| ==> r <= |src|)
    ensures pos < |src| && src[pos] != '\n' ==> r > pos
    decreases |src| - pos
  {
    if pos < |src| && src[pos] != '\n' then LineEnd(src, pos + 1) else pos
  }

  /** The text of a quoted string from `pos` on, when `n` characters are already
      stored, and where it stops: at the closing quote, at the end, or full. */
  function QuotedAt(src: string, pos: nat, quote: char, n: nat): (r: (string, nat))
    ensures r.1 >= pos && (pos <= |src| ==> r.1 <= |src|)
    decreases |src| - pos
  {
    if pos >= |src| || src[pos] == quote || n >= MAX_TEXT then ("", pos)
    else
      var escaped := src[pos] == '\\' && pos + 1 < |src|;
      var c := if escaped then src[pos + 1] else src[pos];
      var rest := QuotedAt(src, if escaped then pos + 2 else pos + 1, quote, n + 1);
      ([c] + rest.0, rest.1)
  }

  /** The end of the word from `pos` on, when `n` characters are already stored. */
  function WordEnd(src: string, pos: nat, n: nat): (r: nat)
    ensures r >= pos && (pos <= |src| ==> r <= |src|)
    ensures pos < |src| && WordChar(src[pos]) && n < MAX_TEXT ==> r > pos
    decreases |src| - pos
  {
    if pos < |src| && WordChar(src[pos]) && n < MAX_TEXT then WordEnd(src, pos + 1, n + 1) else pos
  }

  /** The token at `pos` and the position after it. */
  function LexAt(src: string, pos: nat): (r: (Token, nat))
    requires pos <= |src|
    ensures pos <= r.1 <= |src|
    ensures r.0.kind == Eof ==> r.1 == |src|
    ensures r.0 == Token(Word, "") ==> r.1 < |src| && Stalls(src[r.1])
    ensures r.0.kind != Eof && r.0 != Token(Word, "") ==> r.1 > pos
    decreases |src| - pos
  {
    var p := BlanksEnd(src, pos);
    if p == |src| then (Token(Eof, ""), p)
    else if src[p] == '\n' then (Token(Newline, ""), p + 1)
    else if src[p] == '#' then LexAt(src, LineEnd(src, p))
    else if Punctuation(src[p]) then (Token(PunctuationKind(src[p]), ""), p + 1)
    else if Quote(src[p]) then
      var text := QuotedAt(src, p + 1, src[p], 0);
      (Token(Quoted, text.0), if text.1 < |src| && src[text.1] == src[p] then text.1 + 1 else text.1)
    else
      var end := WordEnd(src, p, 0);
      (Token(Word, src[p..end]), end)
  }

  // ----- Token streams -----

  /** The tokens still to come. A vertical tab or form feed where a token should
      start yields an empty word without advancing, for ever: the stream is stuck. */
  datatype Stream = End | Stuck | Cons(token: Token, rest: Stream)

  function Current(s: Stream): Token {
    match s
    case End => Token(Eof, "")
    case Stuck => Token(Word, "")
    case Cons(t, _) => t
  }

  function Next(s: Stream): Stream {
    match s
    case End => End
    case Stuck => Stuck
    case Cons(_, rest) => rest
  }

  function Size(s: Stream): nat {
    match s
    case End => 0
    case Stuck => 0
    case Cons(_, rest) => 1 + Size(rest)
  }

  /** The tokens from `pos` on. */
  function Tokens(src: string, pos: nat): Stream
    requires pos <= |src|
    decreases |src| - pos
  {
    var t := LexAt(src, pos);
    if t.0.kind == Eof then End
    else if t.0 == Token(Word, "") then Stuck
    else Cons(t.0, Tokens(src, t.1))
  }

  /** The lexer holds a token and the position after it. */
  predicate Reached(src: string, token: Token, pos: nat) {
    && pos <= |src|
    && (token.kind == Eof ==> pos == |src|)
    && (token == Token(Word, "") ==> pos < |src| && Stalls(src[pos]))
  }

  /** The stream a lexer state stands for. */
  function StreamOf(src: string, token: Token, pos: nat): Stream
    requires pos <= |src|
  {
    if token.kind == Eof then End
    else if token == Token(Word, "") then Stuck
    else Cons(token, Tokens(src, pos))
  }

  /** Lexing once more moves to the rest of the stream. */
  lemma LexIsNext(src: string, token: Token, pos: nat)
    requires Reached(src, token, pos) && (token.kind == Eof ==> token.text == "")
    ensures var t := LexAt(src, pos);
            Reached(src, t.0, t.1) && StreamOf(src, t.0, t.1) == Next(StreamOf(src, token, pos))
  {
    if token == Token(Word, "") {
      assert BlanksEnd(src, pos) == pos && WordEnd(src, pos, 0) == pos;
      assert src[pos..pos] == "";
    }
  }

  class Lexer {
    const src: string
    var pos: nat
    var token: Token

    ghost predicate Valid()
      reads this
    {
      Reached(src, token, pos) && (token.kind == Eof ==> token.text == "")
    }

    /** The tokens from the current one on. */
    ghost function Stream(): Stream
      requires Valid()
      reads this
    {
      StreamOf(src, token, pos)
    }

    /** The lexer after its first `lex`. */
    constructor (source: Source)
      ensures Valid() && src == source && Stream() == Tokens(source, 0)
    {
      src := source;
      pos := 0;
      token := Token(Newline, "");
      new;
      Lex();
    }

    /** `lex`. */
    method Lex()
      requires pos <= |src|
      modifies this
      ensures (token, pos) == LexAt(src, old(pos))
      ensures old(Valid()) ==> Valid() && Stream() == Next(old(Stream()))
      ensures Reached(src, token, pos) && (token.kind == Eof ==> token.text == "")
      decreases |src| - pos
    {
      ghost var start, before := pos, token;
      while pos < |src| && Blank(src[pos])
        invariant start <= pos <= |src| && BlanksEnd(src, start) == BlanksEnd(src, pos)
      {
        pos := pos + 1;
      }
      ghost var p := pos;
      if pos >= |src| {
        token := Token(Eof, "");
      } else {
        var c := src[pos];
        if c == '\n' {
          pos := pos + 1;
          token := Token(Newline, "");
        } else if c == '#' {
          while pos < |src| && src[pos] != '\n'
            invariant p <= pos <= |src| && LineEnd(src, p) == LineEnd(src, pos)
          {
            pos := pos + 1;
          }
          Lex();
        } else if Punctuation(c) {
          pos := pos + 1;
          token := Token(PunctuationKind(c), "");
        } else if Quote(c) {
          LexQuoted(c);
        } else {
          LexWord();
        }
      }
      assert (token, pos) == LexAt(src, start);
      if Reached(src, before, start) && (before.kind == Eof ==> before.text == "") {
        LexIsNext(src, before, start);
      }
    }

    method LexQuoted(quote: char)
      requires pos < |src|
      modifies this
      ensures old(pos) < pos <= |src|
      ensures var text := QuotedAt(src, old(pos) + 1, quote, 0);
              && token == Token(Quoted, text.0)
              && pos == if text.1 < |src| && src[text.1] == quote then text.1 + 1 else text.1
    {
      pos := pos + 1;
      ghost var whole := QuotedAt(src, pos, quote, 0);
      var text := "";
      while pos < |src| && src[pos] != quote && |text| < MAX_TEXT
        invariant old(pos) < pos <= |src|
        invariant var rest := QuotedAt(src, pos, quote, |text|);
                  whole.0 == text + rest.0 && whole.1 == rest.1
        decreases |src| - pos
      {
        var c := src[pos];
        pos := pos + 1;
        if c == '\\' && pos < |src| {
          c := src[pos];
          pos := pos + 1;
        }
        Regroup(text, [c], QuotedAt(src, pos, quote, |text| + 1).0, [c] + QuotedAt(src, pos, quote, |text| + 1).0);
        text := text + [c];
      }
      if pos < |src| && src[pos] == quote {
        pos := pos + 1;
      }
      token := Token(Quoted, text);
    }

    method LexWord()
      requires pos < |src|
      modifies this
      ensures pos == WordEnd(src, old(pos), 0) && token == Token(Word, src[old(pos)..pos])
    {
      ghost var start := pos;
      var text := "";
      while pos < |src| && WordChar(src[pos]) && |text| < MAX_TEXT
        invariant start <= pos <= |src| && text == src[start..pos]
        invariant WordEnd(src, start, 0) == WordEnd(src, pos, |text|)
      {
        text := text + [src[pos]];
        pos := pos + 1;
      }
      token := Token(Word, text);
    }
  }
}
