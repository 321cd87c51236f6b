/** Mantle Script in numbers and texts: decimal numbers, the limits of names, texts,
    arguments and variables, and what each malformed statement does. */
module ScriptManual {
  import opened Options
  import opened Buffers
  import opened Chars
  import opened ScriptLexer
  import opened Script
  import opened ScriptCorrectness

  // ----- Numbers -----

  /** A number as it is written. */
  function Numeral(n: nat): (r: string)
    ensures r != ""
  {
    (if n < 10 then "" else Numeral(n / 10)) + ["0123456789"[n % 10]]
  }

  lemma DigitIs(d: nat)
    requires d < 10
    ensures var c := "0123456789"[d]; Digit(c) && !Space(c) && c as int - '0' as int == d
  {
  }

  lemma {:induction false} DigitsAppend(text: string, c: char, n: nat, tail: string)
    requires (forall i :: 0 <= i < |text| ==> Digit(text[i])) && Digit(c)
    ensures Digits(text + [c] + tail, n) == Digits(tail, 10 * Digits(text, n) + (c as int - '0' as int))
    decreases |text|
  {
    var whole := text + [c] + tail;
    if text == "" {
      assert whole[1..] == tail;
    } else {
      assert whole[1..] == text[1..] + [c] + tail;
      DigitsAppend(text[1..], c, 10 * n + (text[0] as int - '0' as int), tail);
    }
  }

  lemma {:induction false} NumeralDigits(n: nat)
    ensures forall i :: 0 <= i < |Numeral(n)| ==> Digit(Numeral(n)[i])
  {
    DigitIs(n % 10);
    if n >= 10 {
      NumeralDigits(n / 10);
    }
  }

  /** The digits of a number are read back as the number; what follows them is ignored. */
  lemma {:induction false} NumeralRead(n: nat, tail: string)
    requires tail == "" || !Digit(tail[0])
    ensures Digits(Numeral(n) + tail, 0) == n
  {
    var front := if n < 10 then "" else Numeral(n / 10);
    var c := "0123456789"[n % 10];
    DigitIs(n % 10);
    if n >= 10 {
      NumeralDigits(n / 10);
      NumeralRead(n / 10, "");
      assert front + "" == front;
    }
    DigitsAppend(front, c, 0, tail);
  }

  /** A code as `exit` reads it: an optional sign and a numeral; a text without a numeral is 0. */
  lemma CodeRead(n: nat, tail: string)
    requires tail == "" || !Digit(tail[0])
    ensures Atoi(Numeral(n) + tail) == n && Atoi("+" + (Numeral(n) + tail)) == n
    ensures Atoi("-" + (Numeral(n) + tail)) + n == 0
    ensures (tail == "" || (!Space(tail[0]) && tail[0] != '-' && tail[0] != '+')) ==> Atoi(tail) == 0
  {
    var text := Numeral(n) + tail;
    NumeralDigits(n);
    NumeralRead(n, tail);
    assert text[0] == Numeral(n)[0];
    assert ("+" + text)[1..] == text && ("-" + text)[1..] == text;
  }

  // ----- What a name means -----

  /** `$n` is the n-th argument of the script, or nothing; every name that does not
      start with `$` is the environment's. */
  lemma ScriptArgument(w: World, n: nat)
    ensures Outside(w, "$" + Numeral(n)) == if n < |w.args| then w.args[n] else ""
  {
    var name := "$" + Numeral(n);
    NumeralDigits(n);
    NumeralRead(n, "");
    assert name[1..] == Numeral(n) == Numeral(n) + "";
    assert name[1] == Numeral(n)[0];
  }

  lemma Environment(w: World, name: string)
    requires name == "" || name[0] != '$'
    ensures Outside(w, name) == if name in w.env then w.env[name] else ""
  {
  }

  // ----- Limits -----

  function Count(ts: Texts): nat {
    match ts
    case NoText => 0
    case MoreText(_, rest) => 1 + Count(rest)
  }

  function TextAt(ts: Texts, i: nat): Text
    requires i < Count(ts)
  {
    if i == 0 then ts.first else TextAt(ts.others, i - 1)
  }

  /** A text is cut to 511 characters. */
  lemma TextLimit(w: World, vars: map<string, string>, text: string)
    ensures var whole := Expand(Meaning(w, vars), text, 0);
            Eval(w, vars, text) == if |whole| <= 511 then whole else whole[..511]
  {
  }

  lemma {:induction false} TextsLimit(w: World, vars: map<string, string>, ts: Texts, max: nat, i: nat)
    ensures |EvalTexts(w, vars, ts, max)| == if Count(ts) <= max then Count(ts) else max
    ensures i < |EvalTexts(w, vars, ts, max)| ==>
              EvalTexts(w, vars, ts, max)[i] == Eval(w, vars, TextAt(ts, i).text)
    decreases ts
  {
    if ts.MoreText? && max > 0 {
      TextsLimit(w, vars, ts.others, max - 1, if i == 0 then 0 else i - 1);
    }
  }

  /** `run` passes its first 63 texts on, the program's name among them, and without any runs nothing. */
  lemma RunLimit(w: World, ts: Texts, s: Store, i: nat)
    ensures var (after, status) := ExecStmt(w, Run(ts), s);
            if ts.NoText? then after == s && status == 0
            else
              && |after.trace| == |s.trace| + 1 && after.trace[..|s.trace|] == s.trace
              && after == s.(trace := after.trace) && after.trace[|s.trace|].Ran?
              && var argv := after.trace[|s.trace|].argv;
              && status == w.status(s.trace, argv)
              && |argv| == (if Count(ts) <= 63 then Count(ts) else 63)
              && (i < |argv| ==> argv[i] == Eval(w, s.vars, TextAt(ts, i).text))
  {
    TextsLimit(w, s.vars, ts, MAX_ARGS, i);
  }

  /** `let` binds at most 128 times; a name keeps its first 63 characters and its first value. */
  lemma LetLimit(w: World, name: string, value: Text, s: Store)
    ensures var (after, status) := ExecStmt(w, Let(name, value), s);
            var key := if |name| <= 63 then name else name[..63];
            && status == 0 && after.trace == s.trace
            && (s.lets >= 128 ==> after == s)
            && (s.lets < 128 ==>
                  && after.lets == s.lets + 1 && after.vars.Keys == s.vars.Keys + {key}
                  && after.vars[key] == (if key in s.vars then s.vars[key] else Eval(w, s.vars, value.text))
                  && forall other :: other in s.vars ==> after.vars[other] == s.vars[other])
  {
  }

  // ----- Malformed statements -----

  /** What the grammar asks for at one place of a statement. */
  datatype Slot = AWord | AText | AnEquals | AnOpening | AClosing | Exactly(word: string)

  predicate Fits(slot: Slot, t: Token) {
    match slot
    case AWord => t.kind == Word
    case AText => t.kind == Word || t.kind == Quoted
    case AnEquals => t.kind == Equals
    case AnOpening => t.kind == LParen
    case AClosing => t.kind == RParen
    case Exactly(word) => t.kind == Word && t.text == word
  }

  function Slots(keyword: string): seq<Slot> {
    if keyword == "let" then [AWord, AnEquals, AText]
    else if keyword == "print" then [AText]
    else if keyword == "exit" then [AWord]
    else if keyword == "require" then [Exactly("admin")]
    else if keyword == "if" then [Exactly("command.exists"), AnOpening, AText, AClosing]
    else []
  }

  function Before(ts: seq<Token>, s: Stream): Stream {
    if ts == [] then s else Cons(ts[0], Before(ts[1..], s))
  }

  /** The tokens fit the first slots of the statement. */
  predicate Begins(keyword: string, ts: seq<Token>) {
    |ts| <= |Slots(keyword)| && forall i :: 0 <= i < |ts| ==> Fits(Slots(keyword)[i], ts[i])
  }

  /** A statement whose first slots are filled and whose next one is not ends there
      with status 2, and has done nothing, executed or not. */
  lemma Malformed(w: World, keyword: string, ts: seq<Token>, s: Stream, exec: bool, st: State)
    requires Begins(keyword, ts) && |ts| < |Slots(keyword)| && !Fits(Slots(keyword)[|ts|], Current(s))
    ensures Statement(w, Cons(Token(Word, keyword), Before(ts, s)), exec, st) == Done(s, st, 2)
  {
    Unrolled(ts, s);
    if keyword == "if" {
      MalformedIf(w, ts, s, exec, st);
    } else if keyword == "let" {
      MalformedLet(w, ts, s, exec, st);
    }
  }

  lemma {:induction false} BeforeStep(ts: seq<Token>, s: Stream)
    requires ts != []
    ensures Before(ts, s) == Cons(ts[0], Before(ts[1..], s))
  {
  }

  lemma {:induction false} Unrolled(ts: seq<Token>, s: Stream)
    requires |ts| <= 4
    ensures ts == [] ==> Before(ts, s) == s
    ensures |ts| == 1 ==> Before(ts, s) == Cons(ts[0], s)
    ensures |ts| == 2 ==> Before(ts, s) == Cons(ts[0], Cons(ts[1], s))
    ensures |ts| == 3 ==> Before(ts, s) == Cons(ts[0], Cons(ts[1], Cons(ts[2], s)))
    ensures |ts| == 4 ==> Before(ts, s) == Cons(ts[0], Cons(ts[1], Cons(ts[2], Cons(ts[3], s))))
  {
    if ts != [] {
      BeforeStep(ts, s);
      if |ts| > 1 {
        BeforeStep(ts[1..], s);
        if |ts| > 2 {
          BeforeStep(ts[2..], s);
          if |ts| > 3 {
            BeforeStep(ts[3..], s);
          }
        }
      }
    }
  }

  lemma MalformedLet(w: World, ts: seq<Token>, s: Stream, exec: bool, st: State)
    requires Begins("let", ts) && |ts| < 3 && !Fits(Slots("let")[|ts|], Current(s))
    ensures Statement(w, Cons(Token(Word, "let"), Before(ts, s)), exec, st) == Done(s, st, 2)
  {
    Unrolled(ts, s);
    var rest := Before(ts, s);
    assert |ts| > 0 ==> Fits(Slots("let")[0], ts[0]);
    assert |ts| > 1 ==> Fits(Slots("let")[1], ts[1]);
    assert LetStatement(w, rest, exec, st) == Done(s, st, 2);
    assert Take("let", 63) == "let";
  }

  lemma MalformedIf(w: World, ts: seq<Token>, s: Stream, exec: bool, st: State)
    requires Begins("if", ts) && |ts| < 4 && !Fits(Slots("if")[|ts|], Current(s))
    ensures Statement(w, Cons(Token(Word, "if"), Before(ts, s)), exec, st) == Done(s, st, 2)
  {
    Unrolled(ts, s);
    var rest := Before(ts, s);
    assert |ts| > 0 ==> Fits(Slots("if")[0], ts[0]);
    assert |ts| > 1 ==> Fits(Slots("if")[1], ts[1]);
    assert |ts| > 2 ==> Fits(Slots("if")[2], ts[2]);
    assert IfHeader(w, rest, st.trace) == Bad(s);
    assert Take("if", 63) == "if";
  }

  /** So does a condition that no opening brace follows, on the same line or a later one. */
  lemma NoBrace(w: World, keyword: string, ts: seq<Token>, breaks: nat, s: Stream, exec: bool, st: State)
    requires keyword in ["if", "require"] && Begins(keyword, ts) && |ts| == |Slots(keyword)|
    requires Current(s).kind != LBrace && Current(s).kind != Newline
    ensures Statement(w, Cons(Token(Word, keyword), Before(ts, Breaks(breaks, s))), exec, st) == Done(s, st, 2)
  {
    var after := Breaks(breaks, s);
    SkipBreaks(breaks, s);
    Unrolled(ts, after);
    var rest := Before(ts, after);
    if keyword == "require" {
      assert Fits(Slots(keyword)[0], ts[0]);
      assert RequireHeader(w, rest) == Bad(s);
    } else {
      assert Fits(Slots(keyword)[0], ts[0]) && Fits(Slots(keyword)[1], ts[1]);
      assert Fits(Slots(keyword)[2], ts[2]) && Fits(Slots(keyword)[3], ts[3]);
      assert IfHeader(w, rest, st.trace) == Bad(s);
    }
    assert Take(keyword, 63) == keyword;
  }

  /** And what does not start with a word. */
  lemma NotAWord(w: World, s: Stream, exec: bool, st: State)
    requires Current(s).kind in {Quoted, LBrace, Equals, LParen, RParen}
    ensures Statement(w, s, exec, st) == Done(s, st, 2)
  {
  }
}
