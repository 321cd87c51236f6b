/** What interpolation means: every text is written from plain characters and
    references, and expands to their meanings. */
module ScriptInterpolation {
  import opened Options
  import opened Buffers
  import opened Slices
  import opened Script

  /** A character that opens no reference, a closed reference, or the `$` of an unclosed one. */
  datatype Part = Plain(c: char) | Ref(name: string) | Unclosed

  /** The part, before `rest`, is read as such. */
  predicate Readable(part: Part, rest: string) {
    match part
    case Plain(c) => !Opens([c] + rest, 0)
    case Ref(name) => '}' !in name
    case Unclosed => rest != "" && rest[0] == '{' && '}' !in rest
  }

  function Spelling(part: Part): string {
    match part
    case Plain(c) => [c]
    case Ref(name) => "${" + name + "}"
    case Unclosed => "$"
  }

  /** The name that a part refers to: an unclosed reference takes the rest of the text. */
  function Named(part: Part, rest: string): Option<string> {
    match part
    case Plain(_) => None
    case Ref(name) => Some(Take(name, MAX_NAME))
    case Unclosed => Some(Take(if rest == "" then "" else rest[1..], MAX_NAME))
  }

  function Meaning(lookup: string -> string, part: Part, rest: string): string {
    match Named(part, rest)
    case None => Spelling(part)
    case Some(name) => lookup(name)
  }

  function Written(parts: seq<Part>): string {
    if parts == [] then "" else Spelling(parts[0]) + Written(parts[1..])
  }

  function Meanings(lookup: string -> string, parts: seq<Part>): string {
    if parts == [] then "" else Meaning(lookup, parts[0], Written(parts[1..])) + Meanings(lookup, parts[1..])
  }

  predicate AllReadable(parts: seq<Part>) {
    parts == [] || (Readable(parts[0], Written(parts[1..])) && AllReadable(parts[1..]))
  }

  // ----- Reading a part -----

  /** The piece at `i` stands for `value` and ends at `next`. */
  ghost predicate Reads(lookup: string -> string, text: string, i: nat, value: string, next: nat) {
    i < next <= |text| && Piece(lookup, text, i) == (value, next)
  }

  /** One piece further. */
  lemma Step(lookup: string -> string, text: string, i: nat, value: string, next: nat, after: string)
    requires i < |text| && Reads(lookup, text, i, value, next) && Expand(lookup, text, next) == after
    ensures Expand(lookup, text, i) == value + after
  {
  }

  lemma PlainReads(lookup: string -> string, text: string, i: nat, c: char, rest: string)
    requires i < |text| && text[i] == c && text[i + 1..] == rest && Readable(Plain(c), rest)
    ensures Reads(lookup, text, i, [c], i + 1)
  {
    assert |rest| == |text| - (i + 1);
    assert rest != "" ==> ([c] + rest)[1] == rest[0] == text[i + 1];
  }

  lemma {:induction false} KeyRead(text: string, i: nat, name: string)
    requires Stands(text, i, name) && '}' !in name
    requires i + |name| < |text| ==> text[i + |name|] == '}'
    ensures KeyEnd(text, i) == i + |name|
    decreases |name|
  {
    if name != "" {
      StandsTail(text, i, name);
      KeyRead(text, i + 1, name[1..]);
    }
  }

  lemma RefReads(lookup: string -> string, text: string, i: nat, name: string)
    requires Stands(text, i, "${" + name + "}") && '}' !in name
    ensures Reads(lookup, text, i, lookup(Take(name, MAX_NAME)), i + 3 + |name|)
  {
    StandsMiddle(text, i, "${", name, "}");
    StandsAt(text, i, "${", 0);
    StandsAt(text, i, "${", 1);
    StandsAt(text, i + 2 + |name|, "}", 0);
    KeyRead(text, i + 2, name);
    StandsSlice(text, i + 2, name);
  }

  lemma UnclosedReads(lookup: string -> string, text: string, i: nat, rest: string)
    requires i <= |text| && text[i..] == "$" + rest && Readable(Unclosed, rest)
    ensures Reads(lookup, text, i, lookup(Take(rest[1..], MAX_NAME)), i + 1)
  {
    var name := rest[1..];
    assert text[i..][0] == '$' && text[i..][1] == rest[0] == '{';
    assert text[i + 2..] == text[i..][2..] == name;
    forall k | 0 <= k < |name| ensures text[i + 2 + k] == name[k] {
      assert text[i + 2..][k] == name[k];
    }
    KeyRead(text, i + 2, name);
    assert text[i + 2..|text|] == name;
  }

  lemma PartReads(lookup: string -> string, text: string, i: nat, part: Part, rest: string)
    requires i <= |text| && text[i..] == Spelling(part) + rest && Readable(part, rest)
    ensures Reads(lookup, text, i, Meaning(lookup, part, rest), i + |Spelling(part)|)
  {
    match part
    case Plain(c) =>
      SplitAt(text, i, Spelling(part), rest);
      StandsAt(text, i, [c], 0);
      PlainReads(lookup, text, i, c, rest);
    case Ref(name) =>
      SplitAt(text, i, Spelling(part), rest);
      RefReads(lookup, text, i, name);
    case Unclosed =>
      UnclosedReads(lookup, text, i, rest);
  }

  /** The first part is read in one piece. */
  ghost predicate FirstRead(lookup: string -> string, text: string, i: nat, parts: seq<Part>)
    requires parts != []
  {
    Reads(lookup, text, i, Meaning(lookup, parts[0], Written(parts[1..])), i + |Spelling(parts[0])|)
  }

  /** The parts are read one after the other up to the end of the text. */
  ghost predicate AllRead(lookup: string -> string, text: string, i: nat, parts: seq<Part>)
    decreases |parts|
  {
    if parts == [] then i == |text|
    else FirstRead(lookup, text, i, parts) && AllRead(lookup, text, i + |Spelling(parts[0])|, parts[1..])
  }

  lemma FirstReads(lookup: string -> string, text: string, i: nat, parts: seq<Part>)
    requires parts != [] && AllReadable(parts) && i <= |text| && text[i..] == Written(parts)
    ensures FirstRead(lookup, text, i, parts)
  {
    PartReads(lookup, text, i, parts[0], Written(parts[1..]));
  }

  lemma AllReadStep(lookup: string -> string, text: string, i: nat, parts: seq<Part>, next: nat)
    requires parts != [] && next == i + |Spelling(parts[0])|
    requires FirstRead(lookup, text, i, parts) && AllRead(lookup, text, next, parts[1..])
    ensures AllRead(lookup, text, i, parts)
  {
  }

  lemma {:induction false} PartsRead(lookup: string -> string, text: string, i: nat, parts: seq<Part>)
    requires AllReadable(parts) && i <= |text| && text[i..] == Written(parts)
    ensures AllRead(lookup, text, i, parts)
    decreases |parts|
  {
    if parts == [] {
      assert |text[i..]| == |text| - i;
    } else {
      var next := i + |Spelling(parts[0])|;
      AfterPart(text, i, Spelling(parts[0]), Written(parts[1..]));
      PartsRead(lookup, text, next, parts[1..]);
      FirstReads(lookup, text, i, parts);
      AllReadStep(lookup, text, i, parts, next);
    }
  }

  lemma {:induction false} ReadPartsExpand(lookup: string -> string, text: string, i: nat, parts: seq<Part>)
    requires i <= |text| && AllRead(lookup, text, i, parts)
    ensures Expand(lookup, text, i) == Meanings(lookup, parts)
    decreases |parts|
  {
    if parts != [] {
      var next := i + |Spelling(parts[0])|;
      ReadPartsExpand(lookup, text, next, parts[1..]);
      Step(lookup, text, i, Meaning(lookup, parts[0], Written(parts[1..])), next, Meanings(lookup, parts[1..]));
    }
  }

  /** A text written from parts expands to their meanings, in order. */
  lemma PartsExpand(lookup: string -> string, text: string, parts: seq<Part>)
    requires AllReadable(parts) && text == Written(parts)
    ensures Expand(lookup, text, 0) == Meanings(lookup, parts)
  {
    assert text[0..] == text;
    PartsRead(lookup, text, 0, parts);
    ReadPartsExpand(lookup, text, 0, parts);
  }

  // ----- Every text -----

  /** The first part of a text. */
  function FirstPart(text: string): (r: (Part, string))
    requires text != ""
    ensures Spelling(r.0) + r.1 == text && Readable(r.0, r.1) && |r.1| < |text|
  {
    if !Opens(text, 0) then
      assert [text[0]] + text[1..] == text;
      (Plain(text[0]), text[1..])
    else
      var j := KeyEnd(text, 2);
      KeyHasNoBrace(text, 2);
      if j < |text| then
        assert "${" + text[2..j] + "}" + text[j + 1..] == text;
        (Ref(text[2..j]), text[j + 1..])
      else
        assert "$" + text[1..] == text;
        (Unclosed, text[1..])
  }

  lemma {:induction false} KeyHasNoBrace(text: string, i: nat)
    requires i <= |text|
    ensures forall k :: i <= k < KeyEnd(text, i) ==> text[k] != '}'
    decreases |text| - i
  {
    if i < |text| && text[i] != '}' {
      KeyHasNoBrace(text, i + 1);
    }
  }

  function Parse(text: string): seq<Part>
    decreases |text|
  {
    if text == "" then [] else [FirstPart(text).0] + Parse(FirstPart(text).1)
  }

  lemma {:induction false} ParseReads(text: string)
    ensures Written(Parse(text)) == text && AllReadable(Parse(text))
    decreases |text|
  {
    if text != "" {
      var first := FirstPart(text);
      ParseReads(first.1);
      assert Parse(text)[1..] == Parse(first.1);
    }
  }

  /** So every text expands to the meanings of its parts. */
  lemma EveryTextExpands(lookup: string -> string, text: string)
    ensures AllReadable(Parse(text)) && Written(Parse(text)) == text
    ensures Expand(lookup, text, 0) == Meanings(lookup, Parse(text))
  {
    ParseReads(text);
    PartsExpand(lookup, text, Parse(text));
  }

  // ----- Script arguments -----

  /** The documented spelling of an argument is no reference: it stands for itself. */
  lemma DollarZero(lookup: string -> string)
    ensures Expand(lookup, "$0", 0) == "$0"
  {
    assert Piece(lookup, "$0", 0) == ("$", 1) && Piece(lookup, "$0", 1) == ("0", 2);
    assert Expand(lookup, "$0", 2) == "";
  }

  /** The number of the argument that a name asks for. */
  function ArgumentNumber(name: string): Option<nat> {
    if |name| >= 2 && name[0] == '$' && Digit(name[1]) then Some(Digits(name[1..], 0)) else None
  }

  predicate HasBinding(vars: seq<Binding>, name: string) {
    exists i :: 0 <= i < |vars| && vars[i].name == name
  }

  /** The part refers to argument `n`: its name asks for it, and no binding has that name. */
  predicate AsksFor(vars: seq<Binding>, part: Part, rest: string, n: nat) {
    var name := Named(part, rest);
    name.Some? && ArgumentNumber(name.value) == Some(n) && !HasBinding(vars, name.value)
  }

  /** One of the parts refers to argument `n`. */
  predicate Asked(vars: seq<Binding>, parts: seq<Part>, n: nat) {
    parts != [] && (AsksFor(vars, parts[0], Written(parts[1..]), n) || Asked(vars, parts[1..], n))
  }

  function WithArgument(w: World, n: nat, value: string): World
    requires n < |w.args|
  {
    w.(args := w.args[n := value])
  }

  lemma {:induction false} NameWithArgument(w: World, vars: seq<Binding>, name: string, n: nat, value: string)
    requires n < |w.args|
    ensures var asks := ArgumentNumber(name) == Some(n) && !HasBinding(vars, name);
            && (asks ==> GetVar(w, vars, name) == w.args[n])
            && GetVar(WithArgument(w, n, value), vars, name) == if asks then value else GetVar(w, vars, name)
  {
    if vars != [] {
      NameWithArgument(w, vars[1..], name, n, value);
      BindingStep(vars, name);
    }
  }

  lemma BindingStep(vars: seq<Binding>, name: string)
    requires vars != []
    ensures HasBinding(vars, name) <==> vars[0].name == name || HasBinding(vars[1..], name)
  {
    if vars[0].name == name {
      assert HasBinding(vars, name);
    }
    if HasBinding(vars[1..], name) {
      var i :| 0 <= i < |vars[1..]| && vars[1..][i].name == name;
      assert vars[i + 1].name == name;
    }
    if HasBinding(vars, name) && vars[0].name != name {
      var i :| 0 <= i < |vars| && vars[i].name == name;
      assert vars[1..][i - 1].name == name;
    }
  }

  lemma PartWithArgument(w: World, vars: seq<Binding>, part: Part, rest: string, n: nat, value: string)
    requires n < |w.args|
    ensures var was := Meaning(Lookup(w, vars), part, rest);
            var now := Meaning(Lookup(WithArgument(w, n, value), vars), part, rest);
            && (!AsksFor(vars, part, rest, n) ==> now == was)
            && (AsksFor(vars, part, rest, n) ==> was == w.args[n] && now == value)
  {
    if Named(part, rest).Some? {
      NameWithArgument(w, vars, Named(part, rest).value, n, value);
    }
  }

  lemma {:induction false} PartsUnread(w: World, vars: seq<Binding>, parts: seq<Part>, n: nat, value: string)
    requires n < |w.args| && !Asked(vars, parts, n)
    ensures Meanings(Lookup(WithArgument(w, n, value), vars), parts) == Meanings(Lookup(w, vars), parts)
    decreases |parts|
  {
    if parts != [] {
      PartWithArgument(w, vars, parts[0], Written(parts[1..]), n, value);
      PartsUnread(w, vars, parts[1..], n, value);
    }
  }

  lemma {:induction false} PartsGrow(w: World, vars: seq<Binding>, parts: seq<Part>, n: nat, value: string)
    requires n < |w.args| && |value| > |w.args[n]|
    ensures var was, now := Meanings(Lookup(w, vars), parts), Meanings(Lookup(WithArgument(w, n, value), vars), parts);
            |now| >= |was| && (Asked(vars, parts, n) ==> |now| > |was|)
    decreases |parts|
  {
    if parts != [] {
      PartWithArgument(w, vars, parts[0], Written(parts[1..]), n, value);
      PartsGrow(w, vars, parts[1..], n, value);
    }
  }

  /** The text without a change of argument `n`, and with one. */
  function ExpandedWith(w: World, vars: seq<Binding>, text: string, n: nat, value: string): string
    requires n < |w.args|
  {
    Expand(Lookup(WithArgument(w, n, value), vars), text, 0)
  }

  /** A text that does not ask for a script argument is the same for every value of it. */
  lemma ArgumentUnread(w: World, vars: seq<Binding>, text: string, n: nat, value: string)
    requires n < |w.args| && !Asked(vars, Parse(text), n)
    ensures ExpandedWith(w, vars, text, n, value) == Expand(Lookup(w, vars), text, 0)
  {
    EveryTextExpands(Lookup(w, vars), text);
    EveryTextExpands(Lookup(WithArgument(w, n, value), vars), text);
    PartsUnread(w, vars, Parse(text), n, value);
  }

  /** A text depends on a script argument exactly if one of its references asks for
      it: a `${$`, the digits of its number, and no binding of that name. */
  lemma ArgumentRead(w: World, vars: seq<Binding>, text: string, n: nat)
    requires n < |w.args|
    ensures (exists value :: ExpandedWith(w, vars, text, n, value) != Expand(Lookup(w, vars), text, 0)) <==>
            Asked(vars, Parse(text), n)
  {
    if Asked(vars, Parse(text), n) {
      var value := w.args[n] + "x";
      EveryTextExpands(Lookup(w, vars), text);
      EveryTextExpands(Lookup(WithArgument(w, n, value), vars), text);
      PartsGrow(w, vars, Parse(text), n, value);
      assert ExpandedWith(w, vars, text, n, value) != Expand(Lookup(w, vars), text, 0);
    } else {
      forall value ensures ExpandedWith(w, vars, text, n, value) == Expand(Lookup(w, vars), text, 0) {
        ArgumentUnread(w, vars, text, n, value);
      }
    }
  }
}
