/** Variable expansion in the shell: `$name`, `${name}` and `$?`. */
module ShellExpand {
  import opened Options
  import opened Buffers
  import opened Chars
  import opened Slices

  /** Characters of a name in braces; the program cuts longer ones there. */
  const MAX_NAME: nat := 255

  type CString = s: string | '\0' !in s witness ""

  predicate NameChar(c: char) {
    'a' <= c <= 'z' || 'A' <= c <= 'Z' || '0' <= c <= '9' || c == '_'
  }

  function NameEnd(text: string, i: nat): (j: nat)
    requires i <= |text|
    ensures i <= j <= |text|
    decreases |text| - i
  {
    if i < |text| && NameChar(text[i]) then NameEnd(text, i + 1) else i
  }

  /** The end of a name in braces, `n` characters of which came before `i`. */
  function BraceEnd(text: string, i: nat, n: nat): (j: nat)
    requires i <= |text|
    ensures i <= j <= |text| && (n <= MAX_NAME ==> j - i + n <= MAX_NAME)
    decreases |text| - i
  {
    if i < |text| && text[i] != '}' && n < MAX_NAME then BraceEnd(text, i + 1, n + 1) else i
  }

  predicate At(text: string, i: nat, c: char) {
    i < |text| && text[i] == c
  }

  /** What one reference or character at `i` stands for, and where the text goes on. */
  function Piece(lookup: string -> string, text: string, i: nat): (r: (string, nat))
    requires i < |text|
    ensures i < r.1 <= |text|
  {
    if text[i] != '$' then ([text[i]], i + 1)
    else if At(text, i + 1, '{') then
      var j := BraceEnd(text, i + 2, 0);
      (lookup(text[i + 2..j]), if At(text, j, '}') then j + 1 else j)
    else if At(text, i + 1, '?') then (lookup("?"), i + 2)
    else
      var j := NameEnd(text, i + 1);
      if j == i + 1 then ("$", j) else (lookup(text[i + 1..j]), j)
  }

  /** The expansion of the text from `i` on, without a limit on its length. */
  function Expansion(lookup: string -> string, text: string, i: nat): string
    requires i <= |text|
    decreases |text| - i
  {
    if i == |text| then ""
    else
      var piece := Piece(lookup, text, i);
      piece.0 + Expansion(lookup, text, piece.1)
  }

  /** The meaning of a name: the last exit status as 0 or 1, or the environment's value. */
  function Meaning(status: int, env: map<string, string>): string -> string {
    name => if name == "?" then (if status == 0 then "0" else "1")
            else if name in env then env[name] else ""
  }

  /** A name without braces of more than 255 characters, which the program copies
      past the end of its name buffer. */
  predicate TooLong(text: string, i: nat)
    requires i < |text|
  {
    text[i] == '$' && !At(text, i + 1, '{') && !At(text, i + 1, '?') && NameEnd(text, i + 1) - (i + 1) > MAX_NAME
  }

  /** From `i` on, with `n` characters already expanded, the walk comes to such a
      name while there is room in a buffer of `cap` characters. */
  predicate Overruns(lookup: string -> string, text: string, i: nat, n: nat, cap: nat)
    requires i <= |text|
    decreases |text| - i
  {
    i < |text| && n + 1 < cap &&
    (TooLong(text, i) || Overruns(lookup, text, Piece(lookup, text, i).1, n + |Piece(lookup, text, i).0|, cap))
  }

  /** `expand`: as much of the expansion as leaves room for the terminator. It has
      no result exactly if the name buffer is overrun. */
  method Expand(text: CString, status: int, env: map<string, string>, out: array<char>, cap: nat)
    returns (length: Option<nat>)
    requires 1 <= cap <= out.Length
    modifies out
    ensures length.None? <==> Overruns(Meaning(status, env), text, 0, 0, cap)
    ensures length.Some? ==>
              && length.value < cap && out[length.value] == '\0'
              && out[..length.value] == Take(Expansion(Meaning(status, env), text, 0), cap - 1)
              && forall k :: cap <= k < out.Length ==> out[k] == old(out[k])
  {
    var n: nat, i: nat := 0, 0;
    ghost var done, lookup := "", Meaning(status, env);
    ghost var whole, overruns := Expansion(lookup, text, 0), Overruns(lookup, text, 0, 0, cap);
    while i < |text| && n + 1 < cap
      invariant i <= |text| && n < cap
      invariant whole == done + Expansion(lookup, text, i)
      invariant overruns <==> Overruns(lookup, text, i, |done|, cap)
      invariant out[..n] == Take(done, cap - 1)
      invariant forall k :: cap <= k < out.Length ==> out[k] == old(out[k])
      decreases |text| - i
    {
      assert |done| == n;
      var piece := Read(text, status, env, i);
      if piece.None? {
        return None;
      }
      var part, next := piece.value.0, piece.value.1;
      Turn(lookup, text, i, part, next, done, cap, whole, overruns);
      n := Append(out, n, cap, done, part);
      done := done + part;
      i := next;
    }
    TakeAll(done, Expansion(lookup, text, i), cap - 1);
    out[n] := '\0';
    return Some(n);
  }

  lemma Turn(lookup: string -> string, text: string, i: nat, part: string, next: nat, done: string, cap: nat,
             whole: string, overruns: bool)
    requires i < |text| && Reads(lookup, text, i, part, next) && !TooLong(text, i) && |done| + 1 < cap
    requires whole == done + Expansion(lookup, text, i)
    requires overruns <==> Overruns(lookup, text, i, |done|, cap)
    ensures whole == (done + part) + Expansion(lookup, text, next)
    ensures overruns <==> Overruns(lookup, text, next, |done + part|, cap)
  {
    var after := Expansion(lookup, text, next);
    Step(lookup, text, i, part, next, after);
    OverrunStep(lookup, text, i, part, next, |done|, cap);
    Regroup(done, part, after, Expansion(lookup, text, i));
  }

  /** One turn of the loop: the text to copy and where to go on, if the name fits. */
  method Read(text: CString, status: int, env: map<string, string>, i: nat) returns (piece: Option<(string, nat)>)
    requires i < |text|
    ensures piece == if TooLong(text, i) then None else Some(Piece(Meaning(status, env), text, i))
  {
    if text[i] != '$' {
      return Some(([text[i]], i + 1));
    }
    var j := i + 1;
    var name: string;
    var next;
    if j < |text| && text[j] == '{' {
      j := ScanBrace(text, i + 2);
      name := text[i + 2..j];
      next := if j < |text| && text[j] == '}' then j + 1 else j;
    } else if j < |text| && text[j] == '?' {
      name, next := "?", j + 1;
    } else {
      j := ScanName(text, i + 1);
      if j == i + 1 {
        return Some(("$", j));
      }
      name, next := text[i + 1..j], j;
    }
    // The buffer holds 255 characters and a terminator.
    if |name| > MAX_NAME {
      return None;
    }
    return Some((Meaning(status, env)(name), next));
  }

  method ScanBrace(text: string, s: nat) returns (j: nat)
    requires s <= |text|
    ensures j == BraceEnd(text, s, 0)
  {
    j := s;
    while j < |text| && text[j] != '}' && j - s < MAX_NAME
      invariant s <= j <= |text| && BraceEnd(text, s, 0) == BraceEnd(text, j, j - s)
    {
      j := j + 1;
    }
  }

  method ScanName(text: string, s: nat) returns (j: nat)
    requires s <= |text|
    ensures j == NameEnd(text, s)
  {
    j := s;
    while j < |text| && NameChar(text[j])
      invariant s <= j <= |text| && NameEnd(text, s) == NameEnd(text, j)
    {
      j := j + 1;
    }
  }

  // ----- What an expansion means -----

  /** A character that opens no reference, the references, and one in braces that is
      not closed or whose name is cut after 255 characters. */
  datatype Part = Plain(c: char) | Name(name: string) | Braced(name: string) | Cut(name: string) | Status

  function Spelling(part: Part): string {
    match part
    case Plain(c) => [c]
    case Name(name) => "$" + name
    case Braced(name) => "${" + name + "}"
    case Cut(name) => "${" + name
    case Status => "$?"
  }

  function Value(lookup: string -> string, part: Part): string {
    match part
    case Plain(c) => [c]
    case Name(name) => lookup(name)
    case Braced(name) => lookup(name)
    case Cut(name) => lookup(name)
    case Status => lookup("?")
  }

  /** The text of the parts, as a user writes it. */
  function Written(parts: seq<Part>): string {
    if parts == [] then "" else Spelling(parts[0]) + Written(parts[1..])
  }

  function Values(lookup: string -> string, parts: seq<Part>): string {
    if parts == [] then "" else Value(lookup, parts[0]) + Values(lookup, parts[1..])
  }

  /** A reference starts at `i`. */
  predicate Opens(text: string, i: nat) {
    At(text, i, '$') && i + 1 < |text| && (text[i + 1] == '{' || text[i + 1] == '?' || NameChar(text[i + 1]))
  }

  predicate AllName(name: string) {
    forall i :: 0 <= i < |name| ==> NameChar(name[i])
  }

  /** The part, before `rest`, is read as such. */
  predicate Readable(part: Part, rest: string) {
    match part
    case Plain(c) => !Opens([c] + rest, 0)
    case Name(name) => name != "" && AllName(name) && (rest != "" ==> !NameChar(rest[0]))
    case Braced(name) => |name| <= MAX_NAME && '}' !in name
    case Cut(name) => '}' !in name && if |name| < MAX_NAME then rest == "" else |name| == MAX_NAME && !At(rest, 0, '}')
    case Status => true
  }

  predicate AllReadable(parts: seq<Part>) {
    parts == [] || (Readable(parts[0], Written(parts[1..])) && AllReadable(parts[1..]))
  }

  // ----- Reading a part -----

  /** The piece at `i` stands for `value` and ends at `next`. */
  ghost predicate Reads(lookup: string -> string, text: string, i: nat, value: string, next: nat) {
    i < next <= |text| && Piece(lookup, text, i) == (value, next)
  }

  /** One piece further. */
  lemma Step(lookup: string -> string, text: string, i: nat, value: string, next: nat, after: string)
    requires i < |text| && Reads(lookup, text, i, value, next) && Expansion(lookup, text, next) == after
    ensures Expansion(lookup, text, i) == value + after
  {
  }

  lemma PlainReads(lookup: string -> string, text: string, i: nat, c: char, rest: string)
    requires i < |text| && text[i] == c && text[i + 1..] == rest && Readable(Plain(c), rest)
    ensures Reads(lookup, text, i, [c], i + 1) && !TooLong(text, i)
  {
    assert |rest| == |text| - (i + 1);
    if c == '$' {
      assert rest != "" ==> ([c] + rest)[1] == rest[0] == text[i + 1];
      assert NameEnd(text, i + 1) == i + 1;
    }
  }

  lemma {:induction false} NameRead(text: string, i: nat, name: string)
    requires Stands(text, i, name) && AllName(name)
    requires i + |name| < |text| ==> !NameChar(text[i + |name|])
    ensures NameEnd(text, i) == i + |name|
    decreases |name|
  {
    if name != "" {
      StandsTail(text, i, name);
      NameRead(text, i + 1, name[1..]);
    }
  }

  lemma {:induction false} BraceRead(text: string, i: nat, name: string, before: nat)
    requires Stands(text, i, name) && before + |name| <= MAX_NAME && '}' !in name
    requires i + |name| == |text| || At(text, i + |name|, '}') || before + |name| == MAX_NAME
    ensures BraceEnd(text, i, before) == i + |name|
    decreases |name|
  {
    if name != "" {
      StandsTail(text, i, name);
      BraceRead(text, i + 1, name[1..], before + 1);
    }
  }

  lemma NameStands(text: string, i: nat, name: string, rest: string)
    requires Stands(text, i, "$" + name) && text[i + 1 + |name|..] == rest && Readable(Name(name), rest)
    ensures i < |text| && text[i] == '$' && Stands(text, i + 1, name) && text[i + 1] == name[0]
    ensures NameEnd(text, i + 1) == i + 1 + |name|
  {
    assert "$" + name + "" == "$" + name;
    StandsMiddle(text, i, "$", name, "");
    StandsAt(text, i, "$", 0);
    StandsAt(text, i + 1, name, 0);
    assert i + 1 + |name| < |text| ==> text[i + 1 + |name|] == rest[0];
    NameRead(text, i + 1, name);
  }

  lemma NameReads(lookup: string -> string, text: string, i: nat, name: string, rest: string)
    requires Stands(text, i, "$" + name) && text[i + 1 + |name|..] == rest && Readable(Name(name), rest)
    ensures Reads(lookup, text, i, lookup(name), i + 1 + |name|)
    ensures TooLong(text, i) <==> |name| > MAX_NAME
  {
    NameStands(text, i, name, rest);
    assert NameChar(name[0]);
    StandsSlice(text, i + 1, name);
  }

  lemma BracedReads(lookup: string -> string, text: string, i: nat, name: string)
    requires Stands(text, i, "${" + name + "}") && Readable(Braced(name), "")
    ensures Reads(lookup, text, i, lookup(name), i + 3 + |name|) && !TooLong(text, i)
  {
    StandsMiddle(text, i, "${", name, "}");
    StandsAt(text, i, "${", 0);
    StandsAt(text, i, "${", 1);
    StandsAt(text, i + 2 + |name|, "}", 0);
    BraceRead(text, i + 2, name, 0);
    StandsSlice(text, i + 2, name);
  }

  lemma CutReads(lookup: string -> string, text: string, i: nat, name: string, rest: string)
    requires Stands(text, i, "${" + name) && text[i + 2 + |name|..] == rest && Readable(Cut(name), rest)
    ensures Reads(lookup, text, i, lookup(name), i + 2 + |name|) && !TooLong(text, i)
  {
    assert "${" + name + "" == "${" + name;
    StandsMiddle(text, i, "${", name, "");
    StandsAt(text, i, "${", 0);
    StandsAt(text, i, "${", 1);
    assert |rest| == |text| - (i + 2 + |name|);
    assert rest != "" ==> text[i + 2 + |name|] == rest[0];
    BraceRead(text, i + 2, name, 0);
    StandsSlice(text, i + 2, name);
  }

  lemma StatusReads(lookup: string -> string, text: string, i: nat)
    requires Stands(text, i, "$?")
    ensures Reads(lookup, text, i, lookup("?"), i + 2) && !TooLong(text, i)
  {
    StandsAt(text, i, "$?", 0);
    StandsAt(text, i, "$?", 1);
  }

  /** A name without braces that is longer than the buffer. */
  predicate LongName(part: Part) {
    part.Name? && |part.name| > MAX_NAME
  }

  /** The part at `i` is read in one piece. */
  ghost predicate PartRead(lookup: string -> string, text: string, i: nat, part: Part) {
    && Reads(lookup, text, i, Value(lookup, part), i + |Spelling(part)|)
    && (TooLong(text, i) <==> LongName(part))
  }

  lemma PartReads(lookup: string -> string, text: string, i: nat, part: Part, rest: string)
    requires i <= |text| && text[i..] == Spelling(part) + rest && Readable(part, rest)
    ensures PartRead(lookup, text, i, part)
  {
    SplitAt(text, i, Spelling(part), rest);
    match part
    case Plain(c) =>
      StandsAt(text, i, [c], 0);
      PlainReads(lookup, text, i, c, rest);
    case Name(name) => NameReads(lookup, text, i, name, rest);
    case Braced(name) => BracedReads(lookup, text, i, name);
    case Cut(name) => CutReads(lookup, text, i, name, rest);
    case Status => StatusReads(lookup, text, i);
  }

  /** The parts are read one after the other up to the end of the text. */
  ghost predicate AllRead(lookup: string -> string, text: string, i: nat, parts: seq<Part>)
    decreases |parts|
  {
    if parts == [] then i == |text|
    else PartRead(lookup, text, i, parts[0]) && AllRead(lookup, text, i + |Spelling(parts[0])|, parts[1..])
  }

  lemma FirstReads(lookup: string -> string, text: string, i: nat, parts: seq<Part>)
    requires parts != [] && AllReadable(parts) && i <= |text| && text[i..] == Written(parts)
    ensures PartRead(lookup, text, i, parts[0])
  {
    PartReads(lookup, text, i, parts[0], Written(parts[1..]));
  }

  lemma AllReadStep(lookup: string -> string, text: string, i: nat, parts: seq<Part>, next: nat)
    requires parts != [] && next == i + |Spelling(parts[0])|
    requires PartRead(lookup, text, i, parts[0]) && AllRead(lookup, text, next, parts[1..])
    ensures AllRead(lookup, text, i, parts)
  {
  }

  lemma {:induction false} PartsRead(lookup: string -> string, text: string, i: nat, parts: seq<Part>)
    requires AllReadable(parts) && i <= |text| && text[i..] == Written(parts)
    ensures AllRead(lookup, text, i, parts)
    decreases |parts|
  {
    if parts == [] {
      assert |text[i..]| == |text| - i;
    } else {
      var next := i + |Spelling(parts[0])|;
      AfterPart(text, i, Spelling(parts[0]), Written(parts[1..]));
      PartsRead(lookup, text, next, parts[1..]);
      FirstReads(lookup, text, i, parts);
      AllReadStep(lookup, text, i, parts, next);
    }
  }

  lemma {:induction false} ReadPartsExpand(lookup: string -> string, text: string, i: nat, parts: seq<Part>)
    requires i <= |text| && AllRead(lookup, text, i, parts)
    ensures Expansion(lookup, text, i) == Values(lookup, parts)
    decreases |parts|
  {
    if parts != [] {
      var next := i + |Spelling(parts[0])|;
      ReadPartsExpand(lookup, text, next, parts[1..]);
      Step(lookup, text, i, Value(lookup, parts[0]), next, Values(lookup, parts[1..]));
    }
  }

  /** A text written from parts expands to their values, in order. */
  lemma PartsExpand(lookup: string -> string, text: string, parts: seq<Part>)
    requires AllReadable(parts) && text == Written(parts)
    ensures Expansion(lookup, text, 0) == Values(lookup, parts)
  {
    assert text[0..] == text;
    PartsRead(lookup, text, 0, parts);
    ReadPartsExpand(lookup, text, 0, parts);
  }

  // ----- Every text -----

  /** The first part of a text. */
  function FirstPart(text: string): (r: (Part, string))
    requires text != ""
    ensures Spelling(r.0) + r.1 == text && Readable(r.0, r.1) && |r.1| < |text|
  {
    if !Opens(text, 0) then
      assert [text[0]] + text[1..] == text;
      (Plain(text[0]), text[1..])
    else if text[1] == '{' then
      BracedPart(text)
    else if text[1] == '?' then
      assert "$?" + text[2..] == text;
      (Status, text[2..])
    else
      var j := NameEnd(text, 1);
      NameIsName(text, 1);
      assert "$" + text[1..j] + text[j..] == text;
      (Name(text[1..j]), text[j..])
  }

  function BracedPart(text: string): (r: (Part, string))
    requires Opens(text, 0) && text[1] == '{'
    ensures Spelling(r.0) + r.1 == text && Readable(r.0, r.1) && |r.1| < |text|
  {
    var j := BraceEnd(text, 2, 0);
    BraceHasNoBrace(text, 2, 0);
    if At(text, j, '}') then
      assert "${" + text[2..j] + "}" + text[j + 1..] == text;
      (Braced(text[2..j]), text[j + 1..])
    else
      assert "${" + text[2..j] + text[j..] == text;
      (Cut(text[2..j]), text[j..])
  }

  lemma {:induction false} NameIsName(text: string, i: nat)
    requires i <= |text|
    ensures forall k :: i <= k < NameEnd(text, i) ==> NameChar(text[k])
    ensures NameEnd(text, i) < |text| ==> !NameChar(text[NameEnd(text, i)])
    decreases |text| - i
  {
    if i < |text| && NameChar(text[i]) {
      NameIsName(text, i + 1);
    }
  }

  lemma {:induction false} BraceHasNoBrace(text: string, i: nat, n: nat)
    requires i <= |text| && n <= MAX_NAME
    ensures forall k :: i <= k < BraceEnd(text, i, n) ==> text[k] != '}'
    ensures var j := BraceEnd(text, i, n); j == |text| || text[j] == '}' || j - i + n == MAX_NAME
    decreases |text| - i
  {
    if i < |text| && text[i] != '}' && n < MAX_NAME {
      BraceHasNoBrace(text, i + 1, n + 1);
    }
  }

  function Parse(text: string): seq<Part>
    decreases |text|
  {
    if text == "" then [] else [FirstPart(text).0] + Parse(FirstPart(text).1)
  }

  lemma {:induction false} ParseReads(text: string)
    ensures Written(Parse(text)) == text && AllReadable(Parse(text))
    decreases |text|
  {
    if text != "" {
      var first := FirstPart(text);
      ParseReads(first.1);
      assert Parse(text)[1..] == Parse(first.1);
    }
  }

  /** So every text expands to the values of its parts. */
  lemma EveryTextExpands(lookup: string -> string, text: string)
    ensures AllReadable(Parse(text)) && Written(Parse(text)) == text
    ensures Expansion(lookup, text, 0) == Values(lookup, Parse(text))
  {
    ParseReads(text);
    PartsExpand(lookup, text, Parse(text));
  }

  // ----- When the name buffer is overrun -----

  /** One of the parts is a long name, and what comes before it leaves room in the buffer. */
  predicate LongNameFits(lookup: string -> string, parts: seq<Part>, n: nat, cap: nat) {
    exists k :: 0 <= k < |parts| && LongNameAt(lookup, parts, n, cap, k)
  }

  predicate LongNameAt(lookup: string -> string, parts: seq<Part>, n: nat, cap: nat, k: nat)
    requires k < |parts|
  {
    LongName(parts[k]) && n + |Values(lookup, parts[..k])| + 1 < cap
  }

  lemma LongNameStep(lookup: string -> string, parts: seq<Part>, n: nat, cap: nat)
    requires parts != []
    ensures LongNameFits(lookup, parts, n, cap) <==>
            n + 1 < cap && (LongName(parts[0]) || LongNameFits(lookup, parts[1..], n + |Value(lookup, parts[0])|, cap))
  {
    var m := n + |Value(lookup, parts[0])|;
    assert parts[..0] == [];
    if LongName(parts[0]) && n + 1 < cap {
      assert LongNameAt(lookup, parts, n, cap, 0);
    }
    if LongNameFits(lookup, parts[1..], m, cap) {
      var k :| 0 <= k < |parts[1..]| && LongNameAt(lookup, parts[1..], m, cap, k);
      LaterName(lookup, parts, n, cap, k);
    }
    if LongNameFits(lookup, parts, n, cap) {
      var k :| 0 <= k < |parts| && LongNameAt(lookup, parts, n, cap, k);
      if k > 0 {
        LaterName(lookup, parts, n, cap, k - 1);
      }
    }
  }

  lemma LaterName(lookup: string -> string, parts: seq<Part>, n: nat, cap: nat, k: nat)
    requires k + 1 < |parts|
    ensures LongNameAt(lookup, parts, n, cap, k + 1) <==>
            LongNameAt(lookup, parts[1..], n + |Value(lookup, parts[0])|, cap, k)
  {
    assert parts[..k + 1][0] == parts[0] && parts[..k + 1][1..] == parts[1..][..k];
  }

  lemma OverrunStep(lookup: string -> string, text: string, i: nat, value: string, next: nat, n: nat, cap: nat)
    requires i < |text| && Reads(lookup, text, i, value, next)
    ensures Overruns(lookup, text, i, n, cap) <==>
            n + 1 < cap && (TooLong(text, i) || Overruns(lookup, text, next, n + |value|, cap))
  {
  }

  lemma {:induction false} ReadPartsOverrun(lookup: string -> string, text: string, i: nat, parts: seq<Part>, n: nat,
                                            cap: nat)
    requires i <= |text| && AllRead(lookup, text, i, parts)
    ensures Overruns(lookup, text, i, n, cap) <==> LongNameFits(lookup, parts, n, cap)
    decreases |parts|
  {
    if parts != [] {
      var value, next := Value(lookup, parts[0]), i + |Spelling(parts[0])|;
      ReadPartsOverrun(lookup, text, next, parts[1..], n + |value|, cap);
      OverrunStep(lookup, text, i, value, next, n, cap);
      LongNameStep(lookup, parts, n, cap);
    }
  }

  lemma PartsOverrun(lookup: string -> string, text: string, parts: seq<Part>, cap: nat)
    requires AllReadable(parts) && text == Written(parts)
    ensures Overruns(lookup, text, 0, 0, cap) <==> LongNameFits(lookup, parts, 0, cap)
  {
    assert text[0..] == text;
    PartsRead(lookup, text, 0, parts);
    ReadPartsOverrun(lookup, text, 0, parts, 0, cap);
  }

  /** The name buffer is overrun exactly if the text refers to a name of more than
      255 characters without braces, and the expansion of what comes before it
      leaves room in the buffer. */
  lemma OverrunExactly(lookup: string -> string, text: string, cap: nat)
    ensures Overruns(lookup, text, 0, 0, cap) <==> LongNameFits(lookup, Parse(text), 0, cap)
  {
    ParseReads(text);
    PartsOverrun(lookup, text, Parse(text), cap);
  }

  /** It can happen: 256 letters after a `$`. */
  lemma LongNameOverruns(lookup: string -> string, cap: nat) returns (text: CString)
    requires cap >= 2
    ensures |text| == 257 && Overruns(lookup, text, 0, 0, cap)
  {
    var name: string := seq(256, _ => 'a');
    text := "$" + name;
    var parts := [Name(name)];
    assert Written(parts[1..]) == "" && Written(parts) == text;
    assert AllReadable(parts[1..]) && parts[..0] == [];
    assert LongNameAt(lookup, parts, 0, cap, 0);
    PartsOverrun(lookup, text, parts, cap);
  }

  // ----- The documented references -----

  predicate NameText(name: string) {
    name != "" && |name| <= 255 && forall i :: 0 <= i < |name| ==> LetterOrDigit(name[i]) || name[i] == '_'
  }

  lemma OnePart(status: int, env: map<string, string>, part: Part)
    requires Readable(part, "")
    ensures Expansion(Meaning(status, env), Spelling(part), 0) == Value(Meaning(status, env), part)
  {
    var parts := [part];
    assert Written(parts[1..]) == "" && Written(parts) == Spelling(part);
    assert AllReadable(parts[1..]) && Values(Meaning(status, env), parts[1..]) == "";
    PartsExpand(Meaning(status, env), Spelling(part), parts);
  }

  /** `$?` is 0 after a success and 1 after a failure; `$name` and `${name}` are the
      variable's value, or nothing. */
  lemma References(status: int, env: map<string, string>, name: string)
    requires NameText(name)
    ensures Expansion(Meaning(status, env), "$?", 0) == if status == 0 then "0" else "1"
    ensures Expansion(Meaning(status, env), "$" + name, 0) == if name in env then env[name] else ""
    ensures Expansion(Meaning(status, env), "${" + name + "}", 0) == if name in env then env[name] else ""
  {
    forall i | 0 <= i < |name| ensures NameChar(name[i]) && name[i] != '}' && name[i] != '?' {
      LettersAndDigits(name[i]);
    }
    assert name != "?" by {
      assert name[0] != '?';
    }
    OnePart(status, env, Status);
    OnePart(status, env, Name(name));
    OnePart(status, env, Braced(name));
  }

  /** The characters of a name, one by one: any other one ends it. */
  lemma NameEnds(c: char)
    ensures NameChar(c) <==> LetterOrDigit(c) || c == '_'
  {
    LettersAndDigits(c);
  }
}
