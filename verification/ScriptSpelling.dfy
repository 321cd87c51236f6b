/** Source text of Mantle Script, written lexeme by lexeme: blanks, comments, line
    breaks, signs, bare words and quoted strings. The lexer gives back the tokens
    that were written, and every source text is so written. */
module ScriptSpelling {
  import opened ScriptLexer
  import opened Slices

  /** A character of a quoted string, with or without a backslash in front. */
  datatype QuotedChar = Plain(c: char) | Escaped(c: char)

  /** A piece of source text. A string may lack its closing quote; white space
      that nothing skips stalls the lexer, whatever follows. */
  datatype Lexeme =
    | Gap(c: char)
    | Comment(text: string)
    | Break
    | Sign(c: char)
    | Bare(text: string)
    | InQuotes(quote: char, chars: seq<QuotedChar>)
    | Unclosed(quote: char, chars: seq<QuotedChar>)
    | Stall(text: string)

  // ----- How it is written -----

  function QuotedSpelling(chars: seq<QuotedChar>): string {
    if chars == [] then ""
    else
      (match chars[0]
       case Plain(c) => [c]
       case Escaped(c) => ['\\', c]) + QuotedSpelling(chars[1..])
  }

  function Spelling(l: Lexeme): string {
    match l
    case Gap(c) => [c]
    case Comment(text) => "#" + text
    case Break => "\n"
    case Sign(c) => [c]
    case Bare(text) => text
    case InQuotes(quote, chars) => [quote] + QuotedSpelling(chars) + [quote]
    case Unclosed(quote, chars) => [quote] + QuotedSpelling(chars)
    case Stall(text) => text
  }

  function Written(ls: seq<Lexeme>): string {
    if ls == [] then "" else Spelling(ls[0]) + Written(ls[1..])
  }

  predicate Stalling(c: char) { c as int == 11 || c as int == 12 }

  /** A character that no bare word contains. */
  predicate Separates(c: char) { c in " \t\n\r{}=()" || Stalling(c) }

  /** The string has no bare quote in it, and a bare backslash at most at the end of the source. */
  predicate QuotedReadable(quote: char, chars: seq<QuotedChar>, last: bool) {
    forall i :: 0 <= i < |chars| && chars[i].Plain? ==>
      chars[i].c != quote && (chars[i].c != '\\' || (last && i == |chars| - 1))
  }

  /** The piece can be told from the `rest` that follows it. */
  predicate Readable(l: Lexeme, rest: string) {
    match l
    case Gap(c) => c in " \t\r"
    case Comment(text) => '\n' !in text && (rest == "" || rest[0] == '\n')
    case Break => true
    case Sign(c) => c in "{}=()"
    case Bare(text) =>
      && 1 <= |text| <= 511 && text[0] !in "#\"'" && (forall i :: 0 <= i < |text| ==> !Separates(text[i]))
      && (|text| == 511 || rest == "" || Separates(rest[0]))
    case InQuotes(quote, chars) => quote in "\"'" && |chars| <= 511 && QuotedReadable(quote, chars, false)
    case Unclosed(quote, chars) =>
      && quote in "\"'" && |chars| <= 511 && QuotedReadable(quote, chars, rest == "")
      && (rest == "" || (|chars| == 511 && rest[0] != quote))
    case Stall(text) => text != "" && Stalling(text[0]) && rest == ""
  }

  predicate AllReadable(ls: seq<Lexeme>) {
    ls == [] || (Readable(ls[0], Written(ls[1..])) && AllReadable(ls[1..]))
  }

  // ----- What it means -----

  function QuotedText(chars: seq<QuotedChar>): string {
    if chars == [] then "" else [chars[0].c] + QuotedText(chars[1..])
  }

  /** The tokens of a piece and of what follows it. */
  function Emit(l: Lexeme, after: Stream): Stream {
    match l
    case Gap(_) => after
    case Comment(_) => after
    case Break => Cons(Token(Newline, ""), after)
    case Sign(c) =>
      Cons(Token(if c == '{' then LBrace else if c == '}' then RBrace else if c == '=' then Equals
                 else if c == '(' then LParen else RParen, ""), after)
    case Bare(text) => Cons(Token(Word, text), after)
    case InQuotes(_, chars) => Cons(Token(Quoted, QuotedText(chars)), after)
    case Unclosed(_, chars) => Cons(Token(Quoted, QuotedText(chars)), after)
    case Stall(_) => Stuck
  }

  function TokensOf(ls: seq<Lexeme>): Stream {
    if ls == [] then End else Emit(ls[0], TokensOf(ls[1..]))
  }

  // ----- Reading one piece -----

  lemma Separators(c: char)
    ensures Separates(c) <==> !WordChar(c)
    ensures Stalling(c) <==> Stalls(c)
  {
    assert c == c as int as char;
  }

  lemma {:induction false} WordRead(src: string, pos: nat, text: string, n: nat)
    requires Stands(src, pos, text) && n + |text| <= 511 && forall i :: 0 <= i < |text| ==> WordChar(text[i])
    requires n + |text| == 511 || pos + |text| == |src| || !WordChar(src[pos + |text|])
    ensures WordEnd(src, pos, n) == pos + |text|
    decreases |text|
  {
    if text != "" {
      StandsTail(src, pos, text);
      WordRead(src, pos + 1, text[1..], n + 1);
    }
  }

  lemma {:induction false} QuotedRead(src: string, pos: nat, quote: char, chars: seq<QuotedChar>, n: nat, end: nat)
    requires Quote(quote) && Stands(src, pos, QuotedSpelling(chars)) && end == pos + |QuotedSpelling(chars)|
    requires n + |chars| <= 511 && QuotedReadable(quote, chars, end == |src|)
    requires n + |chars| == 511 || end == |src| || src[end] == quote
    ensures QuotedAt(src, pos, quote, n) == (QuotedText(chars), end)
    decreases |chars|
  {
    if chars != [] {
      var spelled, tail := QuotedSpelling(chars), QuotedSpelling(chars[1..]);
      var k := if chars[0].Plain? then 1 else 2;
      assert spelled == spelled[..k] + tail;
      StandsTail(src, pos, spelled);
      if k == 2 {
        StandsTail(src, pos + 1, spelled[1..]);
        assert spelled[1..][1..] == tail;
      } else {
        assert spelled[1..] == tail;
      }
      QuotedRead(src, pos + k, quote, chars[1..], n + 1, end);
    }
  }

  lemma {:induction false} CommentRead(src: string, pos: nat, text: string)
    requires Stands(src, pos, text) && '\n' !in text
    requires pos + |text| == |src| || src[pos + |text|] == '\n'
    ensures LineEnd(src, pos) == pos + |text|
    decreases |text|
  {
    if text != "" {
      StandsTail(src, pos, text);
      CommentRead(src, pos + 1, text[1..]);
    }
  }

  /** What the lexer reads at `pos` is this token, which ends at `end`. */
  lemma Unfolded(src: string, pos: nat, t: Token, end: nat)
    requires pos <= |src| && LexAt(src, pos) == (t, end) && t.kind != Eof && t != Token(Word, "")
    ensures Tokens(src, pos) == Cons(t, Tokens(src, end))
  {
  }

  lemma SkippedTo(src: string, pos: nat, next: nat)
    requires pos <= |src| && next <= |src| && LexAt(src, pos) == LexAt(src, next)
    ensures Tokens(src, pos) == Tokens(src, next)
  {
  }

  /** The tokens at `pos` are those of the piece, then those behind it. */
  ghost predicate LexemeRead(src: string, pos: nat, l: Lexeme) {
    var next := pos + |Spelling(l)|;
    next <= |src| && Tokens(src, pos) == Emit(l, Tokens(src, next))
  }

  lemma BareRead(src: string, pos: nat, l: Lexeme, rest: string)
    requires l.Bare? && Readable(l, rest) && Stands(src, pos, Spelling(l)) && src[pos + |Spelling(l)|..] == rest
    ensures LexemeRead(src, pos, l)
  {
    var text, end := l.text, pos + |l.text|;
    forall i | 0 <= i < |text| ensures WordChar(text[i]) {
      Separators(text[i]);
    }
    if end < |src| {
      assert src[end] == src[end..][0] == rest[0];
      Separators(src[end]);
    }
    WordRead(src, pos, text, 0);
    StandsAt(src, pos, text, 0);
    StandsSlice(src, pos, text);
    Unfolded(src, pos, Token(Word, text), end);
  }

  lemma StringRead(src: string, pos: nat, quote: char, chars: seq<QuotedChar>, end: nat, next: nat)
    requires Quote(quote) && pos < |src| && src[pos] == quote
    requires Stands(src, pos + 1, QuotedSpelling(chars)) && end == pos + 1 + |QuotedSpelling(chars)|
    requires |chars| <= 511 && QuotedReadable(quote, chars, end == |src|)
    requires |chars| == 511 || end == |src| || src[end] == quote
    requires next == if end < |src| && src[end] == quote then end + 1 else end
    ensures Tokens(src, pos) == Cons(Token(Quoted, QuotedText(chars)), Tokens(src, next))
  {
    QuotedRead(src, pos + 1, quote, chars, 0, end);
    Unfolded(src, pos, Token(Quoted, QuotedText(chars)), next);
  }

  lemma SignRead(src: string, pos: nat, c: char)
    requires pos < |src| && src[pos] == c && c in "{}=()"
    ensures Tokens(src, pos) == Emit(Sign(c), Tokens(src, pos + 1))
  {
    Unfolded(src, pos, Token(PunctuationKind(c), ""), pos + 1);
  }

  lemma Stalled(src: string, pos: nat)
    requires pos < |src| && Stalling(src[pos])
    ensures Tokens(src, pos) == Stuck
  {
    assert BlanksEnd(src, pos) == pos && WordEnd(src, pos, 0) == pos && src[pos..pos] == "";
  }

  lemma GapSkipped(src: string, pos: nat, l: Lexeme)
    requires l.Gap? && l.c in " \t\r" && pos < |src| && src[pos] == l.c
    ensures LexemeRead(src, pos, l)
  {
    SkippedTo(src, pos, pos + 1);
  }

  lemma CommentIs(src: string, pos: nat, text: string, next: nat)
    requires pos <= next <= |src| && next == pos + 1 + |text| && LexAt(src, pos) == LexAt(src, next)
    ensures LexemeRead(src, pos, Comment(text))
  {
    SkippedTo(src, pos, next);
    assert |Spelling(Comment(text))| == 1 + |text|;
  }

  lemma HashSkips(src: string, pos: nat, next: nat)
    requires pos < |src| && src[pos] == '#' && next == LineEnd(src, pos + 1)
    ensures next <= |src| && LexAt(src, pos) == LexAt(src, next)
  {
    assert BlanksEnd(src, pos) == pos && LineEnd(src, pos) == next;
  }

  lemma LineSkipped(src: string, pos: nat, text: string)
    requires '\n' !in text && pos < |src| && src[pos] == '#' && Stands(src, pos + 1, text)
    requires pos + 1 + |text| == |src| || src[pos + 1 + |text|] == '\n'
    ensures LexemeRead(src, pos, Comment(text))
  {
    var next := pos + 1 + |text|;
    CommentRead(src, pos + 1, text);
    HashSkips(src, pos, next);
    CommentIs(src, pos, text, next);
  }

  lemma CommentPassed(src: string, pos: nat, l: Lexeme, rest: string)
    requires l.Comment? && Readable(l, rest) && Stands(src, pos, "#" + l.text) && src[pos + 1 + |l.text|..] == rest
    ensures LexemeRead(src, pos, l)
  {
    var next := pos + 1 + |l.text|;
    StandsTail(src, pos, "#" + l.text);
    assert ("#" + l.text)[1..] == l.text;
    assert next < |src| ==> src[next] == src[next..][0] == rest[0];
    LineSkipped(src, pos, l.text);
  }

  lemma FirstDecides(src: string, pos: nat, l: Lexeme, rest: string)
    requires Readable(l, rest) && (l.Gap? || l.Break? || l.Sign? || l.Stall?) && Stands(src, pos, Spelling(l))
    ensures LexemeRead(src, pos, l)
  {
    StandsAt(src, pos, Spelling(l), 0);
    match l {
      case Gap(_) => GapSkipped(src, pos, l);
      case Break => Unfolded(src, pos, Token(Newline, ""), pos + 1);
      case Sign(c) => SignRead(src, pos, c);
      case Stall(_) => Stalled(src, pos);
    }
  }

  lemma ClosedRead(src: string, pos: nat, l: Lexeme, rest: string)
    requires l.InQuotes? && Readable(l, rest) && Stands(src, pos, Spelling(l))
    ensures LexemeRead(src, pos, l)
  {
    var quote, chars, body := l.quote, l.chars, QuotedSpelling(l.chars);
    StandsMiddle(src, pos, [quote], body, [quote]);
    StandsAt(src, pos, [quote], 0);
    var end := pos + 1 + |body|;
    StandsAt(src, end, [quote], 0);
    StringRead(src, pos, quote, chars, end, end + 1);
  }

  lemma UnclosedRead(src: string, pos: nat, l: Lexeme, rest: string)
    requires l.Unclosed? && Readable(l, rest) && Stands(src, pos, Spelling(l))
    requires src[pos + |Spelling(l)|..] == rest
    ensures LexemeRead(src, pos, l)
  {
    var quote, chars, body := l.quote, l.chars, QuotedSpelling(l.chars);
    StandsTail(src, pos, [quote] + body);
    assert ([quote] + body)[1..] == body;
    var end := pos + 1 + |body|;
    assert end < |src| ==> src[end] == src[end..][0] == rest[0];
    StringRead(src, pos, quote, chars, end, end);
  }

  lemma PieceRead(src: string, pos: nat, l: Lexeme, rest: string)
    requires pos <= |src| && Readable(l, rest)
    requires Stands(src, pos, Spelling(l)) && src[pos + |Spelling(l)|..] == rest
    ensures LexemeRead(src, pos, l)
  {
    if l.Comment? {
      CommentPassed(src, pos, l, rest);
    } else if l.Bare? {
      BareRead(src, pos, l, rest);
    } else if l.InQuotes? {
      ClosedRead(src, pos, l, rest);
    } else if l.Unclosed? {
      UnclosedRead(src, pos, l, rest);
    } else {
      FirstDecides(src, pos, l, rest);
    }
  }

  lemma OneRead(src: string, pos: nat, l: Lexeme, rest: string)
    requires pos <= |src| && src[pos..] == Spelling(l) + rest && Readable(l, rest)
    ensures LexemeRead(src, pos, l)
  {
    SplitAt(src, pos, Spelling(l), rest);
    PieceRead(src, pos, l, rest);
  }

  // ----- Reading all of it -----

  lemma NothingLeft(src: string)
    ensures Tokens(src, |src|) == End
  {
    assert BlanksEnd(src, |src|) == |src|;
  }

  lemma Chained(ls: seq<Lexeme>, here: Stream, there: Stream)
    requires ls != [] && here == Emit(ls[0], there) && there == TokensOf(ls[1..])
    ensures here == TokensOf(ls)
  {
  }

  /** The first of some pieces, and the others behind it. */
  lemma FirstPiece(src: string, pos: nat, ls: seq<Lexeme>, next: nat)
    requires ls != [] && AllReadable(ls) && pos <= |src| && src[pos..] == Written(ls)
    requires next == pos + |Spelling(ls[0])|
    ensures Readable(ls[0], Written(ls[1..])) && src[pos..] == Spelling(ls[0]) + Written(ls[1..])
    ensures AllReadable(ls[1..]) && next <= |src| && src[next..] == Written(ls[1..])
  {
    AfterPart(src, pos, Spelling(ls[0]), Written(ls[1..]));
  }

  lemma Step(src: string, pos: nat, ls: seq<Lexeme>, next: nat)
    requires ls != [] && next == pos + |Spelling(ls[0])| && next <= |src|
    requires LexemeRead(src, pos, ls[0]) && Tokens(src, next) == TokensOf(ls[1..])
    ensures Tokens(src, pos) == TokensOf(ls)
  {
    Chained(ls, Tokens(src, pos), Tokens(src, next));
  }

  /** Lexing what was written, wherever it stands at the end of a source, gives its tokens back. */
  lemma {:induction false} WrittenTokens(src: string, pos: nat, ls: seq<Lexeme>)
    requires AllReadable(ls) && pos <= |src| && src[pos..] == Written(ls)
    ensures Tokens(src, pos) == TokensOf(ls)
    decreases |ls|
  {
    if ls == [] {
      assert |src[pos..]| == 0;
      NothingLeft(src);
    } else {
      var next := pos + |Spelling(ls[0])|;
      FirstPiece(src, pos, ls, next);
      OneRead(src, pos, ls[0], Written(ls[1..]));
      WrittenTokens(src, next, ls[1..]);
      Step(src, pos, ls, next);
    }
  }

  // ----- Every source is so written -----

  lemma {:induction false} WordText(src: string, pos: nat, n: nat)
    requires pos <= |src| && n <= 511
    ensures WordEnd(src, pos, n) - pos <= 511 - n
    ensures forall i :: pos <= i < WordEnd(src, pos, n) ==> WordChar(src[i])
    ensures var end := WordEnd(src, pos, n); end == |src| || n + end - pos == 511 || !WordChar(src[end])
    decreases |src| - pos
  {
    if pos < |src| && WordChar(src[pos]) && n < 511 {
      WordText(src, pos + 1, n + 1);
    }
  }

  lemma {:induction false} CommentText(src: string, pos: nat)
    requires pos <= |src|
    ensures forall i :: pos <= i < LineEnd(src, pos) ==> src[i] != '\n'
    ensures LineEnd(src, pos) < |src| ==> src[LineEnd(src, pos)] == '\n'
    decreases |src| - pos
  {
    if pos < |src| && src[pos] != '\n' {
      CommentText(src, pos + 1);
    }
  }

  /** The characters of a string from `pos` on, up to its quote, the end, or the 511th. */
  lemma {:induction false} StringChars(src: string, pos: nat, quote: char, n: nat)
    returns (chars: seq<QuotedChar>, end: nat)
    requires pos <= |src| && n <= 511 && Quote(quote)
    ensures pos <= end <= |src| && src[pos..end] == QuotedSpelling(chars) && n + |chars| <= 511
    ensures QuotedReadable(quote, chars, end == |src|)
    ensures end == |src| || src[end] == quote || n + |chars| == 511
    decreases |src| - pos
  {
    if pos == |src| || src[pos] == quote || n == 511 {
      chars, end := [], pos;
    } else {
      var escaped := src[pos] == '\\' && pos + 1 < |src|;
      var first := if escaped then Escaped(src[pos + 1]) else Plain(src[pos]);
      var next := if escaped then pos + 2 else pos + 1;
      var later;
      later, end := StringChars(src, next, quote, n + 1);
      chars := [first] + later;
      assert chars[1..] == later;
      assert src[pos..end] == src[pos..next] + src[next..end];
      assert src[pos..next] == if escaped then ['\\', src[pos + 1]] else [src[pos]];
      forall i | 0 <= i < |chars| && chars[i].Plain?
        ensures chars[i].c != quote && (chars[i].c != '\\' || (end == |src| && i == |chars| - 1))
      {
        if i > 0 {
          assert chars[i] == later[i - 1];
        }
      }
    }
  }

  lemma StringFirst(src: string) returns (l: Lexeme, rest: string)
    requires src != "" && Quote(src[0])
    ensures Spelling(l) + rest == src && Readable(l, rest) && |rest| < |src|
  {
    var quote := src[0];
    var chars, end := StringChars(src, 1, quote, 0);
    if end < |src| && src[end] == quote {
      l, rest := InQuotes(quote, chars), src[end + 1..];
      assert src == [src[0]] + src[1..end] + [src[end]] + src[end + 1..];
    } else {
      l, rest := Unclosed(quote, chars), src[end..];
      assert src == [src[0]] + src[1..end] + src[end..];
    }
  }

  lemma WordFirst(src: string) returns (l: Lexeme, rest: string)
    requires src != "" && !Separates(src[0]) && src[0] !in "#\"'"
    ensures Spelling(l) + rest == src && Readable(l, rest) && |rest| < |src|
  {
    Separators(src[0]);
    var end := WordEnd(src, 0, 0);
    WordText(src, 0, 0);
    l, rest := Bare(src[..end]), src[end..];
    forall i | 0 <= i < end ensures !Separates(src[i]) {
      Separators(src[i]);
    }
    if end < |src| {
      Separators(src[end]);
    }
  }

  lemma CommentFirst(src: string) returns (l: Lexeme, rest: string)
    requires src != "" && src[0] == '#'
    ensures Spelling(l) + rest == src && Readable(l, rest) && |rest| < |src|
  {
    var end := LineEnd(src, 1);
    CommentText(src, 1);
    l, rest := Comment(src[1..end]), src[end..];
    assert src == [src[0]] + src[1..end] + src[end..];
  }

  /** The first piece of a source. */
  lemma FirstLexeme(src: string) returns (l: Lexeme, rest: string)
    requires src != ""
    ensures Spelling(l) + rest == src && Readable(l, rest) && |rest| < |src|
  {
    var c := src[0];
    assert src == [c] + src[1..];
    if c == '#' {
      l, rest := CommentFirst(src);
    } else if Quote(c) {
      l, rest := StringFirst(src);
    } else if Stalling(c) {
      l, rest := Stall(src), "";
    } else if c in " \t\r" {
      l, rest := Gap(c), src[1..];
    } else if c == '\n' {
      l, rest := Break, src[1..];
    } else if c in "{}=()" {
      l, rest := Sign(c), src[1..];
    } else {
      l, rest := WordFirst(src);
    }
  }

  /** Every source is written in readable pieces, so its tokens are those of its pieces. */
  lemma {:induction false} EverySource(src: string) returns (ls: seq<Lexeme>)
    ensures AllReadable(ls) && Written(ls) == src && Tokens(src, 0) == TokensOf(ls)
    decreases |src|
  {
    ls := [];
    if src != "" {
      var l, rest := FirstLexeme(src);
      var later := EverySource(rest);
      ls := [l] + later;
      assert ls[1..] == later;
    }
    assert src[0..] == src;
    WrittenTokens(src, 0, ls);
  }

  // ----- Comments -----

  lemma OneComment(text: string)
    requires '\n' !in text
    ensures Tokens("#" + text, 0) == End
  {
    var src, ls := "#" + text, [Comment(text)];
    assert ls[1..] == [] && src[0..] == src == Spelling(ls[0]) + Written(ls[1..]);
    WrittenTokens(src, 0, ls);
  }

  lemma CommentedLine(text: string, ls: seq<Lexeme>)
    requires '\n' !in text && AllReadable(ls)
    ensures Tokens("#" + text + ("\n" + Written(ls)), 0) == Cons(Token(Newline, ""), TokensOf(ls))
  {
    var broken := [Break] + ls;
    assert broken[1..] == ls;
    var all := [Comment(text)] + broken;
    assert all[1..] == broken;
    var src := "#" + text + ("\n" + Written(ls));
    assert src[0..] == src;
    WrittenTokens(src, 0, all);
  }

  /** A comment reaches to the end of its line, and no further. */
  lemma CommentSkipped(text: string, rest: string)
    requires '\n' !in text
    ensures Tokens("#" + text + "\n" + rest, 0) == Cons(Token(Newline, ""), Tokens("\n" + rest, 1))
    ensures Tokens("#" + text, 0) == End
  {
    var ls := EverySource(rest);
    CommentedLine(text, ls);
    assert "#" + text + "\n" + rest == "#" + text + ("\n" + rest);
    assert ("\n" + rest)[1..] == rest;
    WrittenTokens("\n" + rest, 1, ls);
    OneComment(text);
  }

  // ----- Writing given tokens -----

  /** A token that can be written down. */
  predicate Spellable(t: Token) {
    match t.kind
    case Eof => false
    case Word => Readable(Bare(t.text), " ")
    case Quoted => |t.text| <= 511
    case _ => t.text == ""
  }

  /** A finite stream of such tokens. */
  predicate SpellableStream(s: Stream) {
    match s
    case End => true
    case Stuck => false
    case Cons(t, rest) => Spellable(t) && SpellableStream(rest)
  }

  /** The text in double quotes, its quotes and backslashes escaped. */
  function Escape(text: string): seq<QuotedChar> {
    if text == "" then []
    else [if text[0] == '"' || text[0] == '\\' then Escaped(text[0]) else Plain(text[0])] + Escape(text[1..])
  }

  function LexemeOf(t: Token): Lexeme {
    match t.kind
    case Eof => Break
    case Word => Bare(t.text)
    case Quoted => InQuotes('"', Escape(t.text))
    case LBrace => Sign('{')
    case RBrace => Sign('}')
    case Equals => Sign('=')
    case LParen => Sign('(')
    case RParen => Sign(')')
    case Newline => Break
  }

  /** The tokens, each followed by a space. */
  function Spell(s: Stream): seq<Lexeme> {
    match s
    case End => []
    case Stuck => []
    case Cons(t, rest) => [LexemeOf(t), Gap(' ')] + Spell(rest)
  }

  lemma {:induction false} EscapeReadable(text: string)
    ensures |Escape(text)| == |text| && QuotedText(Escape(text)) == text && QuotedReadable('"', Escape(text), false)
  {
    if text != "" {
      EscapeReadable(text[1..]);
      assert Escape(text)[1..] == Escape(text[1..]);
      assert [text[0]] + text[1..] == text;
    }
  }

  lemma TokenWritten(t: Token, rest: string, after: Stream)
    requires Spellable(t)
    ensures Readable(LexemeOf(t), " " + rest) && Emit(LexemeOf(t), after) == Cons(t, after)
  {
    EscapeReadable(t.text);
  }

  /** Every such stream has a source. */
  lemma {:induction false} SpellRoundTrip(s: Stream)
    requires SpellableStream(s)
    ensures AllReadable(Spell(s)) && TokensOf(Spell(s)) == s && Tokens(Written(Spell(s)), 0) == s
    decreases s
  {
    var ls := Spell(s);
    match s {
      case End =>
      case Cons(t, rest) =>
        SpellRoundTrip(rest);
        TokenWritten(t, Written(Spell(rest)), rest);
        assert ls[1..][1..] == Spell(rest) && ls[1..][0] == Gap(' ');
    }
    assert Written(ls)[0..] == Written(ls);
    WrittenTokens(Written(ls), 0, ls);
  }
}
