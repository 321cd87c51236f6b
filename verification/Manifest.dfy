/** Manifests as they are written: which lines name a path, and what installing a
    written manifest does. */
module Manifest {
  import opened Options
  import opened Slices
  import opened Chars
  import opened Packages
  import opened PackageManager
  import opened Transactions

  // ----- Characters and paths -----

  const HEX: string := "0123456789abcdefABCDEF"

  predicate SafeChar(c: char) {
    LetterOrDigit(c) || c in "/._-+@"
  }

  lemma HexDigits(c: char)
    ensures HexDigit(c) <==> c in HEX
  {
  }

  lemma SafeChars(c: char)
    ensures PathChar(c) <==> SafeChar(c)
  {
    LettersAndDigits(c);
  }

  predicate Blank(text: string) {
    forall i :: 0 <= i < |text| ==> text[i] in " \t\n\r" || text[i] as int == 11 || text[i] as int == 12
  }

  /** A safe path, by its characters: none outside the alphabet, no slash in front,
      and no two dots side by side, so that no component leads up. */
  ghost predicate SafePath(path: string) {
    && path != "" && path[0] != '/' && (forall i :: 0 <= i < |path| ==> SafeChar(path[i]))
    && forall i, j :: 0 <= i <= j <= |path| ==> path[i..j] != ".."
  }

  lemma SafeIs(path: string)
    ensures SafeRel(path, false) <==> SafePath(path)
  {
    forall i | 0 <= i < |path| ensures PathChar(path[i]) <==> SafeChar(path[i]) {
      SafeChars(path[i]);
    }
    forall i, j | 0 <= i <= j <= |path| && path[i..j] == ".."
      ensures i + 1 < |path| && path[i] == '.' && path[i + 1] == '.'
    {
      assert path[i] == path[i..j][0] && path[i + 1] == path[i..j][1];
    }
    forall i | 0 <= i < |path| - 1 && path[i] == '.' && path[i + 1] == '.' ensures path[i..i + 2] == ".." {
    }
  }

  // ----- Lines -----

  /** A line: spaces, a hash of 64 digits, spaces, `payload/` and the path, then
      the end, a space, or whatever follows 4087 characters of path. */
  ghost predicate Parts(line: string, before: string, hash: string, gap: string, path: string, after: string) {
    && line == before + hash + gap + ("payload/" + path) + after
    && Blank(before) && Blank(gap) && gap != ""
    && |hash| == 64 && (forall c :: c in hash ==> c in HEX)
    && SafePath(path) && |path| <= 4087
    && (after == "" || |path| == 4087 || Blank([after[0]]))
  }

  lemma SpaceIs(c: char)
    ensures Space(c) <==> Blank([c])
  {
    assert Blank([c]) ==> [c][0] in " \t\n\r" || [c][0] as int == 11 || [c][0] as int == 12;
  }

  lemma {:induction false} SpacesEnd(line: string, i: nat, gap: string)
    requires Stands(line, i, gap) && Blank(gap)
    requires i + |gap| < |line| ==> !Space(line[i + |gap|])
    ensures SkipSpaces(line, i) == i + |gap|
    decreases |gap|
  {
    if gap != "" {
      StandsTail(line, i, gap);
      assert gap[0] in " \t\n\r" || gap[0] as int == 11 || gap[0] as int == 12;
      SpacesEnd(line, i + 1, gap[1..]);
    }
  }

  lemma {:induction false} WordIs(line: string, i: nat, word: string, max: nat)
    requires Stands(line, i, word) && |word| <= max && forall k :: 0 <= k < |word| ==> !Space(word[k])
    requires i + |word| < |line| && |word| < max ==> Space(line[i + |word|])
    ensures WordEnd(line, i, max) == i + |word|
    decreases |word|
  {
    if word != "" {
      StandsTail(line, i, word);
      WordIs(line, i + 1, word[1..], max - 1);
    }
  }

  /** The four words of a line stand where they are written. */
  lemma PartsStand(before: string, hash: string, gap: string, word: string, after: string, line: string)
    requires line == before + hash + gap + word + after
    ensures Stands(line, 0, before) && Stands(line, |before|, hash) && Stands(line, |before| + |hash|, gap)
    ensures Stands(line, |before| + |hash| + |gap|, word)
    ensures var end := |before| + |hash| + |gap| + |word|; end <= |line| && line[end..] == after
  {
    var end := |before| + |hash| + |gap| + |word|;
    forall k | 0 <= k < |hash| ensures line[|before| + k] == hash[k] {
    }
    forall k | 0 <= k < |gap| ensures line[|before| + |hash| + k] == gap[k] {
    }
    forall k | 0 <= k < |word| ensures line[|before| + |hash| + |gap| + k] == word[k] {
    }
  }

  lemma HashWord(hash: string)
    requires forall c :: c in hash ==> c in HEX
    ensures forall k :: 0 <= k < |hash| ==> !Space(hash[k]) && HexDigit(hash[k])
  {
    forall k | 0 <= k < |hash| ensures !Space(hash[k]) && HexDigit(hash[k]) {
      HexDigits(hash[k]);
    }
  }

  /** A word: no spaces in it. */
  predicate NoSpace(word: string) {
    forall k :: 0 <= k < |word| ==> !Space(word[k])
  }

  lemma NoSpaces(a: string, b: string)
    requires NoSpace(a) && NoSpace(b)
    ensures NoSpace(a + b)
  {
  }

  lemma PayloadWord()
    ensures NoSpace("payload/")
  {
    var c := "payload/";
    assert !Space(c[0]) && !Space(c[1]) && !Space(c[2]) && !Space(c[3]);
    assert !Space(c[4]) && !Space(c[5]) && !Space(c[6]) && !Space(c[7]);
  }

  lemma PathWord(path: string)
    requires SafeRel(path, false)
    ensures NoSpace(path)
  {
    forall k | 0 <= k < |path| ensures !Space(path[k]) {
      assert PathChar(path[k]);
    }
  }

  /** Spaces and a word are read where they stand. */
  lemma WordReadAt(line: string, i: nat, gap: string, word: string, max: nat)
    requires Stands(line, i, gap) && Blank(gap) && Stands(line, i + |gap|, word) && word != "" && |word| <= max
    requires NoSpace(word)
    requires var end := i + |gap| + |word|; end < |line| && |word| < max ==> Space(line[end])
    ensures SkipSpaces(line, i) == i + |gap| && WordEnd(line, i + |gap|, max) == i + |gap| + |word|
    ensures line[i + |gap|..i + |gap| + |word|] == word
  {
    StandsAt(line, i + |gap|, word, 0);
    SpacesEnd(line, i, gap);
    WordIs(line, i + |gap|, word, max);
    StandsSlice(line, i + |gap|, word);
  }

  /** What is read as the two words of a line. */
  lemma PathIs(line: string, a: nat, b: nat, c: nat, d: nat, path: string)
    requires a == SkipSpaces(line, 0) && b == WordEnd(line, a, 79) && b - a == 64
    requires c == SkipSpaces(line, b) && d == WordEnd(line, c, 4095) && line[c..d] == "payload/" + path
    requires forall k :: a <= k < b ==> HexDigit(line[k])
    requires SafeRel(path, false)
    ensures ManifestPath(line) == Some(path)
  {
    var word := line[c..d];
    assert word[8..] == path && word[..8] == "payload/";
    forall i | 0 <= i < 64 ensures HexDigit(line[a..b][i]) {
      assert line[a..b][i] == line[a + i];
    }
  }

  lemma GapAfter(line: string, at: nat, gap: string)
    requires Stands(line, at, gap) && Blank(gap) && gap != ""
    ensures Space(line[at])
  {
    StandsAt(line, at, gap, 0);
    assert Blank([gap[0]]);
    SpaceIs(gap[0]);
  }

  /** Where the four words stand decides what the line names. */
  lemma StandingRead(line: string, before: string, hash: string, gap: string, path: string, word: string,
                     a: nat, b: nat, c: nat)
    requires word == "payload/" + path && |word| <= 4095 && NoSpace(word) && SafeRel(path, false)
    requires a == |before| && b == a + |hash| && c == b + |gap|
    requires Stands(line, 0, before) && Stands(line, a, hash) && Stands(line, b, gap) && Stands(line, c, word)
    requires Blank(before) && Blank(gap) && gap != "" && |hash| == 64
    requires NoSpace(hash) && forall k :: 0 <= k < |hash| ==> HexDigit(hash[k])
    requires c + |word| < |line| && |word| < 4095 ==> Space(line[c + |word|])
    ensures ManifestPath(line) == Some(path)
  {
    GapAfter(line, b, gap);
    WordReadAt(line, 0, before, hash, 79);
    WordReadAt(line, b, gap, word, 4095);
    forall k | a <= k < b ensures HexDigit(line[k]) {
      StandsAt(line, a, hash, k - a);
    }
    PathIs(line, a, b, c, c + |word|, path);
  }

  /** Every line so written names its path ... */
  lemma WrittenRead(line: string, before: string, hash: string, gap: string, path: string, after: string)
    requires Parts(line, before, hash, gap, path, after)
    ensures ManifestPath(line) == Some(path)
  {
    var word := "payload/" + path;
    PartsStand(before, hash, gap, word, after, line);
    AfterWord(line, |before| + |hash| + |gap| + |word|, word, after);
    HashWord(hash);
    SafeIs(path);
    PathWord(path);
    PayloadWord();
    NoSpaces("payload/", path);
    var a, b := |before|, |before| + |hash|;
    StandingRead(line, before, hash, gap, path, word, a, b, b + |gap|);
  }

  lemma AfterWord(line: string, end: nat, word: string, after: string)
    requires end <= |line| && line[end..] == after && (after == "" || |word| == 4095 || Blank([after[0]]))
    ensures end < |line| && |word| < 4095 ==> Space(line[end])
  {
    if end < |line| {
      assert line[end] == line[end..][0];
      SpaceIs(after[0]);
    }
  }

  lemma {:induction false} SkippedBlank(line: string, i: nat)
    requires i <= |line|
    ensures Blank(line[i..SkipSpaces(line, i)])
    ensures SkipSpaces(line, i) < |line| ==> !Space(line[SkipSpaces(line, i)])
    decreases |line| - i
  {
    if i < |line| && Space(line[i]) {
      SkippedBlank(line, i + 1);
      SpaceIs(line[i]);
      assert line[i..SkipSpaces(line, i)] == [line[i]] + line[i + 1..SkipSpaces(line, i)];
    }
  }

  lemma {:induction false} WordStops(line: string, i: nat, max: nat)
    requires i <= |line|
    ensures forall k :: i <= k < WordEnd(line, i, max) ==> !Space(line[k])
    ensures WordEnd(line, i, max) < |line| && WordEnd(line, i, max) - i < max ==> Space(line[WordEnd(line, i, max)])
    decreases max
  {
    if max > 0 && i < |line| && !Space(line[i]) {
      WordStops(line, i + 1, max - 1);
    }
  }

  /** A hash of 64 characters is followed by a space, if anything follows it. */
  lemma GapThere(line: string, a: nat, b: nat, c: nat)
    requires a <= b <= |line| && b == WordEnd(line, a, 79) && b - a == 64 && c == SkipSpaces(line, b) < |line|
    ensures b < c
  {
    WordStops(line, a, 79);
  }

  lemma HexWord(hash: string)
    requires forall i :: 0 <= i < |hash| ==> HexDigit(hash[i])
    ensures forall c :: c in hash ==> c in HEX
  {
    forall c | c in hash ensures c in HEX {
      HexDigits(c);
    }
  }

  lemma Rejoined(line: string, a: nat, b: nat, c: nat, d: nat)
    requires a <= b <= c <= d <= |line|
    ensures line == line[..a] + line[a..b] + line[b..c] + line[c..d] + line[d..]
  {
  }

  /** What follows the second word of a line. */
  lemma AfterPath(line: string, c: nat, d: nat)
    requires c <= |line| && d == WordEnd(line, c, 4095) && d < |line|
    ensures d - c == 4095 || Blank([line[d]])
  {
    WordStops(line, c, 4095);
    SpaceIs(line[d]);
  }

  /** ... and every line that names a path is so written. */
  lemma ReadWritten(line: string)
    returns (before: string, hash: string, gap: string, after: string)
    requires ManifestPath(line).Some?
    ensures Parts(line, before, hash, gap, ManifestPath(line).value, after)
  {
    var path := ManifestPath(line).value;
    var a := SkipSpaces(line, 0);
    var b := WordEnd(line, a, 79);
    var c := SkipSpaces(line, b);
    var d := WordEnd(line, c, 4095);
    before, hash, gap, after := line[..a], line[a..b], line[b..c], line[d..];
    SkippedBlank(line, 0);
    assert line[0..a] == before;
    SkippedBlank(line, b);
    Rejoined(line, a, b, c, d);
    assert line[c..d] == "payload/" + path;
    SafeIs(path);
    HexWord(hash);
    GapThere(line, a, b, c);
    if d < |line| {
      AfterPath(line, c, d);
    }
  }

  /** The documented form of a line. */
  lemma DocumentedLine(hash: string, gap: string, path: string)
    requires |hash| == 64 && (forall c :: c in hash ==> c in HEX) && Blank(gap) && gap != ""
    requires SafePath(path) && |path| <= 4087
    ensures ManifestPath(hash + gap + "payload/" + path) == Some(path)
  {
    var line := hash + gap + "payload/" + path;
    assert line == "" + hash + gap + ("payload/" + path) + "";
    WrittenRead(line, "", hash, gap, path, "");
  }

  /** A file that no package may replace. */
  predicate Reserved(path: Path) {
    || path == "etc/passwd" || path == "etc/shadow" || path == "etc/group"
    || path == "sbin/mantle-init" || path == "sbin/mantle-supervise"
    || path == "bin/mantle-shell" || path == "usr/bin/mantle"
  }

  /** The line asks for the path: it is so written, and the path is not reserved. */
  ghost predicate Asks(line: string, path: Path) {
    !Reserved(path) && exists before, hash, gap, after :: Parts(line, before, hash, gap, path, after)
  }

  lemma AcceptedExactly(line: string, path: Path)
    ensures Accepted(line) == Some(path) <==> Asks(line, path)
  {
    if ManifestPath(line).Some? {
      var before, hash, gap, after := ReadWritten(line);
    }
    if exists before, hash, gap, after :: Parts(line, before, hash, gap, path, after) {
      var before, hash, gap, after :| Parts(line, before, hash, gap, path, after);
      WrittenRead(line, before, hash, gap, path, after);
    }
  }

  // ----- An installation whose steps work -----

  /** The length of the log of a manifest. */
  function LogLength(steps: seq<Option<Path>>): nat {
    if steps == [] then 0
    else
      LogLength(steps[..|steps| - 1]) +
      match steps[|steps| - 1]
      case None => 0
      case Some(path) => |path| + 1
  }

  /** Every file opens, every copy works, and the log reaches the disk. */
  ghost predicate Smooth(f: Faults, length: nat) {
    && f.manifestOpens && f.logOpens && f.logReopens && length <= f.kept
    && forall i: nat :: f.backup(i) && f.install(i).Copied?
  }

  lemma {:induction false} LogLengthIs(steps: seq<Option<Path>>, paths: seq<Path>)
    requires |steps| == |paths| && forall i :: 0 <= i < |paths| ==> steps[i] == Some(paths[i])
    ensures |WriteLines(paths)| == LogLength(steps)
  {
    if steps != [] {
      LogLengthIs(steps[..|steps| - 1], paths[..|paths| - 1]);
    }
  }

  lemma {:induction false} JournalPasses(steps: Steps, files: Files, saved: Files, f: Faults, n: nat)
    requires n <= |steps| && (forall i :: 0 <= i < n ==> steps[i].Some?) && forall i: nat :: f.backup(i)
    ensures !JournalAfter(steps, files, saved, f, n).failed
  {
    if n > 0 {
      JournalPasses(steps, files, saved, f, n - 1);
      assert f.backup(n - 1);
    }
  }

  lemma {:induction false} CopiesPass(paths: seq<Path>, payload: Files, files: Files, f: Faults, n: nat)
    requires n <= |paths| && (forall i :: 0 <= i < n ==> paths[i] in payload)
    requires forall i: nat :: f.install(i).Copied?
    ensures !InstallAfter(paths, payload, files, f, n).failed
  {
    if n > 0 {
      CopiesPass(paths, payload, files, f, n - 1);
      assert f.install(n - 1).Copied?;
    }
  }

  /** Every line asks for a path of the payload. */
  predicate Payable(steps: seq<Option<Path>>, payload: Files) {
    forall i :: 0 <= i < |steps| ==> steps[i].Some? && steps[i].value in payload
  }

  lemma PayablePasses(steps: Steps, payload: Files, files: Files, tx: Transaction, f: Faults)
    requires Smooth(f, LogLength(steps)) && Payable(steps, payload)
    ensures !Attempted(steps, payload, files, tx, f).failed
  {
    var paths := JournalAfter(steps, files, tx.backup, f, |steps|).paths;
    JournalPasses(steps, files, tx.backup, f, |steps|);
    JournalIsManifest(steps, files, tx.backup, f, |steps|, paths);
    LogLengthIs(steps, paths);
    LogNames(steps, files, tx.backup, f);
    forall i | 0 <= i < |paths| ensures paths[i] in payload {
      assert steps[i] == Some(paths[i]);
    }
    CopiesPass(paths, payload, files, f, |paths|);
  }

  /** What a success has done when its steps work. */
  lemma SmoothSuccess(steps: Steps, payload: Files, files: Files, tx: Transaction, f: Faults)
    requires Smooth(f, LogLength(steps)) && !Attempted(steps, payload, files, tx, f).failed
    ensures Payable(steps, payload)
    ensures forall p: Path :: Get(Attempted(steps, payload, files, tx, f).files, p) ==
                              if Some(p) in steps then Get(payload, p) else Get(files, p)
  {
    var paths := JournalAfter(steps, files, tx.backup, f, |steps|).paths;
    JournalIsManifest(steps, files, tx.backup, f, |steps|, paths);
    LogLengthIs(steps, paths);
    LogNames(steps, files, tx.backup, f);
    LoggedAll(steps, paths);
    SuccessFiles(steps, payload, files, tx, f);
    forall i | 0 <= i < |steps| ensures steps[i].value in payload {
      assert steps[i] == Some(paths[i]) && paths[i] in paths;
    }
  }

  /** The log of a success names the paths asked for, in order. */
  lemma SmoothLog(steps: Steps, payload: Files, files: Files, tx: Transaction, f: Faults)
    requires Smooth(f, LogLength(steps)) && !Attempted(steps, payload, files, tx, f).failed
    ensures var paths := Named(Attempted(steps, payload, files, tx, f).log);
            |paths| == |steps| && forall i :: 0 <= i < |steps| ==> steps[i] == Some(paths[i])
  {
    var paths := JournalAfter(steps, files, tx.backup, f, |steps|).paths;
    JournalIsManifest(steps, files, tx.backup, f, |steps|, paths);
    LogLengthIs(steps, paths);
    LogNames(steps, files, tx.backup, f);
  }

  /** The list in the database names what the lines ask for, in order. */
  ghost predicate Lists(text: string, lines: seq<string>) {
    var paths := ReadLines(text, 0);
    |paths| == |lines| && forall i :: 0 <= i < |lines| ==> Asks(lines[i], paths[i])
  }

  lemma ListsThem(text: string, lines: seq<string>, paths: seq<Path>)
    requires paths == ReadLines(text, 0) && |paths| == |lines|
    requires forall i :: 0 <= i < |lines| ==> StepsOf(lines)[i] == Some(paths[i])
    ensures Lists(text, lines)
  {
    forall i | 0 <= i < |lines| ensures Asks(lines[i], paths[i]) {
      AcceptedExactly(lines[i], paths[i]);
    }
  }

  /** Some line asks for the path. */
  ghost predicate Asked(lines: seq<string>, path: Path) {
    exists i :: 0 <= i < |lines| && Asks(lines[i], path)
  }

  /** The line asks for a path of the payload. */
  ghost predicate AsksFor(line: string, payload: Files) {
    exists path :: Asks(line, path) && path in payload
  }

  lemma LineAsks(line: string, payload: Files)
    ensures AsksFor(line, payload) <==> Accepted(line).Some? && Accepted(line).value in payload
  {
    if AsksFor(line, payload) {
      var path :| Asks(line, path) && path in payload;
      AcceptedExactly(line, path);
    }
    if Accepted(line).Some? && Accepted(line).value in payload {
      AcceptedExactly(line, Accepted(line).value);
      assert Asks(line, Accepted(line).value);
    }
  }

  lemma PathAsked(lines: seq<string>, path: Path)
    ensures Some(path) in StepsOf(lines) <==> Asked(lines, path)
  {
    var steps := StepsOf(lines);
    if Some(path) in steps {
      var i :| 0 <= i < |lines| && steps[i] == Some(path);
      AcceptedExactly(lines[i], path);
    }
    if Asked(lines, path) {
      var i :| 0 <= i < |lines| && Asks(lines[i], path);
      AcceptedExactly(lines[i], path);
      assert steps[i] == Some(path);
    }
  }

  lemma StepsAsk(lines: seq<string>, payload: Files)
    ensures Payable(StepsOf(lines), payload) <==> forall i :: 0 <= i < |lines| ==> AsksFor(lines[i], payload)
  {
    var steps := StepsOf(lines);
    forall i | 0 <= i < |lines|
      ensures AsksFor(lines[i], payload) <==> steps[i].Some? && steps[i].value in payload
    {
      LineAsks(lines[i], payload);
    }
  }

  /** `install_package`, whose steps all work: it succeeds exactly if every line asks for a path of
      the payload. Then exactly the paths asked for hold the payload's content, and the database
      lists them, if it can. */
  method InstallLines(h: Host, lines: seq<string>, payload: Files, name: string, id: string, f: Faults)
    returns (code: int)
    requires Smooth(f, LogLength(StepsOf(lines)))
    modifies h
    ensures code in {0, 1} && (code == 0 <==> forall i :: 0 <= i < |lines| ==> AsksFor(lines[i], payload))
    ensures code == 0 ==> forall p: Path :: Get(h.files, p) ==
                            if Asked(lines, p) then Get(payload, p) else Get(old(h.files), p)
    ensures code == 0 && f.records ==>
              name in h.packages && h.packages == old(h.packages)[name := h.packages[name]] &&
              Lists(h.packages[name], lines)
    ensures code == 1 || !f.records ==> h.packages == old(h.packages)
    ensures id in h.transactions
    ensures h.transactions[id].committed <==>
              (code == 0 && f.commits) || (id in old(h.transactions) && old(h.transactions)[id].committed)
  {
    ghost var steps, was, tx := StepsOf(lines), h.files, Opened(h.transactions, id);
    StepsAsk(lines, payload);
    var undo;
    code, undo := h.Install(lines, payload, name, id, f);
    if code == 0 {
      SmoothSuccess(steps, payload, was, tx, f);
      SmoothLog(steps, payload, was, tx, f);
      forall p: Path ensures Some(p) in steps <==> Asked(lines, p) {
        PathAsked(lines, p);
      }
      ghost var log := Attempted(steps, payload, was, tx, f).log;
      ListsThem(log.value, lines, Named(log));
    } else if Payable(steps, payload) {
      PayablePasses(steps, payload, was, tx, f);
      assert false;
    }
  }
}
