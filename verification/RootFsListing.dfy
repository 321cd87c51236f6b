/** What a listing of the root directory says about the mounted entries. */
module RootFsListing {
  import opened Options
  import opened Bytes
  import opened RootFs

  /** The first components of the entries, in table order. */
  function Names(es: seq<Entry>): seq<seq<byte>>
    requires forall e :: e in es ==> |e.path| >= 1
  {
    if es == [] then []
    else
      var last := es[|es| - 1];
      Names(es[..|es| - 1]) + if |last.path| > 1 then [Name(last.path)] else []
  }

  /** The distinct elements, each at its first appearance. */
  function Distinct<T(==)>(xs: seq<T>): seq<T> {
    if xs == [] then []
    else
      var d, last := Distinct(xs[..|xs| - 1]), xs[|xs| - 1];
      if last in d then d else d + [last]
  }

  /** Position of the first appearance. */
  function First<T(==)>(xs: seq<T>, x: T): (i: nat)
    requires x in xs
    ensures i < |xs| && xs[i] == x && forall j :: 0 <= j < i ==> xs[j] != x
  {
    if x in xs[..|xs| - 1] then First(xs[..|xs| - 1], x) else |xs| - 1
  }

  /** Every element appears once, in the order of first appearances. */
  lemma {:induction false} DistinctFacts<T>(xs: seq<T>)
    ensures forall x :: x in Distinct(xs) <==> x in xs
    ensures forall i, j :: 0 <= i < j < |Distinct(xs)| ==> First(xs, Distinct(xs)[i]) < First(xs, Distinct(xs)[j])
  {
    if xs != [] {
      var front, last := xs[..|xs| - 1], xs[|xs| - 1];
      DistinctFacts(front);
      assert xs == front + [last];
      forall x | x in front ensures First(xs, x) == First(front, x) {
      }
    }
  }

  function Join(words: seq<seq<byte>>): seq<byte> {
    if words == [] then [] else Join(words[..|words| - 1]) + words[|words| - 1] + [SPACE]
  }

  /** A name without the characters that separate names in a listing. */
  predicate Clean(name: seq<byte>) {
    forall i :: 0 <= i < |name| ==> !Delimiter(name[i])
  }

  lemma {:induction false} WordEndAt(text: seq<byte>, i: nat, n: nat)
    requires i <= n < |text| && Delimiter(text[n]) && forall k :: i <= k < n ==> !Delimiter(text[k])
    ensures WordEnd(text, i) == n
    decreases n - i
  {
    if i < n {
      WordEndAt(text, i + 1, n);
    }
  }

  lemma JoinLast(words: seq<seq<byte>>)
    requires words != []
    ensures Join(words) == Join(words[..|words| - 1]) + words[|words| - 1] + [SPACE]
  {
  }

  lemma JoinRegroup(head: seq<byte>, middle: seq<byte>, last: seq<byte>, whole: seq<byte>, rest: seq<byte>)
    requires whole == head + middle + last + [SPACE] && rest == middle + last + [SPACE]
    ensures whole == head + rest
  {
  }

  lemma {:induction false} JoinFront(words: seq<seq<byte>>)
    requires words != []
    ensures Join(words) == words[0] + [SPACE] + Join(words[1..])
  {
    if |words| == 1 {
      assert words[..0] == [];
    } else {
      var front, rest := words[..|words| - 1], words[1..];
      JoinFront(front);
      JoinLast(words);
      JoinLast(rest);
      assert front[1..] == rest[..|rest| - 1];
      JoinRegroup(words[0] + [SPACE], Join(front[1..]), words[|words| - 1], Join(words), Join(rest));
    }
  }

  /** The words found in a joined text are the words joined. */
  lemma {:induction false} JoinedWords(before: seq<byte>, words: seq<seq<byte>>, word: seq<byte>)
    requires forall w :: w in words ==> Clean(w)
    ensures HasWord(before + Join(words), |before|, word) <==> word in words
    decreases |words|
  {
    var text := before + Join(words);
    if words != [] {
      var w, rest := words[0], words[1..];
      JoinFront(words);
      var end := |before| + |w|;
      assert text == (before + w + [SPACE]) + Join(rest);
      assert Clean(w);
      forall k | |before| <= k < end ensures !Delimiter(text[k]) {
        assert text[k] == w[k - |before|];
      }
      WordEndAt(text, |before|, end);
      assert text[|before|..end] == w;
      JoinedWords(before + w + [SPACE], rest, word);
      assert word in words <==> word == w || word in rest;
    }
  }

  lemma {:induction false} ListTextAppend(es: seq<Entry>, e: Entry, text: seq<byte>)
    requires |e.path| >= 1 && forall e :: e in es ==> |e.path| >= 1
    ensures ListText(es + [e], text) == Extended(ListText(es, text), e.path)
  {
    if es != [] {
      assert (es + [e])[1..] == es[1..] + [e];
      ListTextAppend(es[1..], e, Extended(text, es[0].path));
    } else {
      assert (es + [e])[1..] == [];
    }
  }

  lemma {:induction false} NamesClean(es: seq<Entry>)
    requires forall e :: e in es ==> |e.path| >= 1 && (|e.path| > 1 ==> Clean(Name(e.path)))
    ensures forall w :: w in Names(es) ==> Clean(w)
  {
    if es != [] {
      NamesClean(es[..|es| - 1]);
    }
  }

  /** The listing of entries whose first components hold no space or newline is
      each distinct component once, in first-appearance order, each followed by a space. */
  lemma {:induction false} ExactListing(es: seq<Entry>)
    requires forall e :: e in es ==> |e.path| >= 1 && (|e.path| > 1 ==> Clean(Name(e.path)))
    ensures ListText(es, []) == Join(Distinct(Names(es)))
  {
    if es != [] {
      var front, last := es[..|es| - 1], es[|es| - 1];
      assert es == front + [last];
      ExactListing(front);
      ListTextAppend(front, last, []);
      if |last.path| > 1 {
        var names := Names(front);
        NamesClean(front);
        DistinctFacts(names);
        JoinedWords([], Distinct(names), Name(last.path));
        assert [] + Join(Distinct(names)) == Join(Distinct(names));
        assert Names(es)[..|Names(es)| - 1] == names;
      } else {
        assert Names(es) == Names(front);
      }
    }
  }

  // ----- Words of any text -----

  /** A space or a line break. */
  predicate Ends(c: byte) { c == 0x20 || c == 0x0a }

  /** The word stands at `j` of the text, alone between spaces, line breaks and the ends of the text. */
  predicate Alone(text: seq<byte>, j: nat, word: seq<byte>) {
    && j < |text| && j + |word| <= |text| && text[j..j + |word|] == word
    && (forall k :: j <= k < j + |word| ==> !Ends(text[k]))
    && (j == 0 || Ends(text[j - 1])) && (j + |word| == |text| || Ends(text[j + |word|]))
  }

  lemma {:induction false} WordStretch(text: seq<byte>, i: nat)
    requires i <= |text|
    ensures forall k :: i <= k < WordEnd(text, i) ==> !Ends(text[k])
    ensures WordEnd(text, i) < |text| ==> Ends(text[WordEnd(text, i)])
    decreases |text| - i
  {
    if i < |text| && !Delimiter(text[i]) {
      WordStretch(text, i + 1);
    }
  }

  /** A word counts as seen exactly if it stands alone in the text, whatever put it there. */
  lemma {:induction false} SeenIs(text: seq<byte>, i: nat, word: seq<byte>)
    requires i == 0 || i > |text| || Ends(text[i - 1])
    ensures HasWord(text, i, word) <==> exists j: nat :: j >= i && Alone(text, j, word)
    decreases |text| - i
  {
    if i < |text| {
      var end := WordEnd(text, i);
      WordStretch(text, i);
      SeenIs(text, end + 1, word);
      if text[i..end] == word {
        assert Alone(text, i, word);
      }
      forall j: nat | j >= i && Alone(text, j, word) ensures text[i..end] == word || j >= end + 1 {
        if j == i {
          assert i + |word| == end;
        } else {
          assert Ends(text[j - 1]);
        }
      }
    }
  }

  // ----- Paths as they are written -----

  /** A first component: no slash and no NUL. */
  predicate IsComponent(name: seq<byte>) {
    0x2f !in name && 0 !in name
  }

  /** A slash, a first component, and more components or none. */
  function RootPath(first: seq<byte>, more: Option<seq<byte>>): seq<byte> {
    [0x2f] + first + match more case None => [] case Some(others) => [0x2f] + others
  }

  lemma {:induction false} NameEndAt(path: seq<byte>, i: nat, n: nat)
    requires i <= n && 1 + n <= |path| && (1 + n < |path| ==> path[1 + n] == 0x2f || path[1 + n] == 0)
    requires forall j :: 1 + i <= j < 1 + n ==> path[j] != 0x2f && path[j] != 0
    ensures NameEnd(path, i) == n
    decreases n - i
  {
    if i < n {
      NameEndAt(path, i + 1, n);
    }
  }

  /** The name of a path is its first component: what stands before the next slash or NUL. */
  lemma NameIs(c: byte, name: seq<byte>, rest: seq<byte>)
    requires IsComponent(name) && (rest != [] ==> rest[0] == 0x2f || rest[0] == 0)
    ensures Name([c] + name + rest) == name
  {
    var path := [c] + name + rest;
    assert path[1 + |name|..] == rest && path[1..1 + |name|] == name;
    forall j | 1 <= j < 1 + |name| ensures path[j] != 0x2f && path[j] != 0 {
      assert path[j] == name[j - 1];
    }
    NameEndAt(path, 0, |name|);
  }

  /** The entries have these first components, in order. */
  ghost predicate Rooted(es: seq<Entry>, firsts: seq<seq<byte>>, mores: seq<Option<seq<byte>>>) {
    && |es| == |firsts| == |mores|
    && forall i :: 0 <= i < |es| ==>
         IsComponent(firsts[i]) && firsts[i] != [] && es[i].path == RootPath(firsts[i], mores[i])
  }

  lemma RootName(first: seq<byte>, more: Option<seq<byte>>)
    requires IsComponent(first) && first != []
    ensures |RootPath(first, more)| > 1 && Name(RootPath(first, more)) == first
  {
    NameIs(0x2f, first, match more case None => [] case Some(others) => [0x2f] + others);
  }

  lemma {:induction false} NamesAre(es: seq<Entry>, firsts: seq<seq<byte>>, mores: seq<Option<seq<byte>>>)
    requires Rooted(es, firsts, mores)
    ensures (forall e :: e in es ==> |e.path| >= 1) && Names(es) == firsts
    decreases |es|
  {
    forall e | e in es ensures |e.path| >= 1 {
      var i :| 0 <= i < |es| && es[i] == e;
    }
    if es != [] {
      var n := |es| - 1;
      NamesAre(es[..n], firsts[..n], mores[..n]);
      RootName(firsts[n], mores[n]);
      assert firsts == firsts[..n] + [firsts[n]];
    }
  }

  /** The components separated by spaces, as a listing shows them. */
  function Spaced(words: seq<seq<byte>>): seq<byte>
    requires words != []
  {
    if |words| == 1 then words[0] else words[0] + [0x20] + Spaced(words[1..])
  }

  lemma {:induction false} JoinIsSpaced(words: seq<seq<byte>>)
    requires words != []
    ensures Join(words) == Spaced(words) + [0x20]
    decreases |words|
  {
    JoinFront(words);
    if |words| > 1 {
      JoinIsSpaced(words[1..]);
    } else {
      assert Join(words[1..]) == [];
    }
  }

  /** The listing of such entries, as it ends up in the buffer. */
  lemma ListingIs(es: seq<Entry>, firsts: seq<seq<byte>>, mores: seq<Option<seq<byte>>>)
    requires es != [] && Rooted(es, firsts, mores) && forall w :: w in firsts ==> Clean(w)
    ensures (forall e :: e in es ==> |e.path| >= 1) && Distinct(firsts) != []
    ensures ListText(es, []) == Spaced(Distinct(firsts)) + [0x20]
    ensures Closed(ListText(es, [])) == Spaced(Distinct(firsts)) + ['\n' as int, 0]
  {
    NamesAre(es, firsts, mores);
    forall e | e in es ensures |e.path| > 1 && Clean(Name(e.path)) {
      var i :| 0 <= i < |es| && es[i] == e;
      RootName(firsts[i], mores[i]);
      assert firsts[i] in firsts;
    }
    ExactListing(es);
    DistinctFacts(firsts);
    assert firsts[0] in Distinct(firsts);
    JoinIsSpaced(Distinct(firsts));
  }
}
