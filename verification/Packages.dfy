/** Package transactions: the journal of an installation, its rollback, and
    removal, over a map from paths to contents. */
module Packages {
  import opened Options
  import opened Buffers
  import opened Chars
  import opened Slices

  type Path = string
  type Content = seq<int>
  type Files = map<Path, Content>

  const HASH: nat := 64
  const MAX_PATH: nat := 4096

  // ----- Paths and manifest lines -----

  predicate Alphanumeric(c: char) {
    'a' <= c <= 'z' || 'A' <= c <= 'Z' || '0' <= c <= '9'
  }

  predicate PathChar(c: char) {
    Alphanumeric(c) || c == '/' || c == '.' || c == '_' || c == '-' || c == '+' || c == '@'
  }

  predicate HexDigit(c: char) {
    '0' <= c <= '9' || 'a' <= c <= 'f' || 'A' <= c <= 'F'
  }

  /** `safe_rel`: relative, without a parent component or an unusual character;
      a single component when asked. */
  predicate SafeRel(path: Path, component: bool) {
    && path != "" && path[0] != '/'
    && (forall i :: 0 <= i < |path| - 1 ==> !(path[i] == '.' && path[i + 1] == '.'))
    && (component ==> '/' !in path)
    && (forall i :: 0 <= i < |path| ==> PathChar(path[i]))
  }

  predicate Critical(path: Path) {
    path in ["etc/passwd", "etc/shadow", "etc/group", "sbin/mantle-init", "sbin/mantle-supervise",
             "bin/mantle-shell", "usr/bin/mantle"]
  }

  function SkipSpaces(line: string, i: nat): (r: nat)
    requires i <= |line|
    ensures i <= r <= |line|
    decreases |line| - i
  {
    if i < |line| && Space(line[i]) then SkipSpaces(line, i + 1) else i
  }

  /** The end of a word of at most `max` characters. */
  function WordEnd(line: string, i: nat, max: nat): (r: nat)
    requires i <= |line|
    ensures i <= r <= |line| && r - i <= max
    decreases max, |line|
  {
    if max > 0 && i < |line| && !Space(line[i]) then WordEnd(line, i + 1, max - 1) else i
  }

  /** `manifest_path`: the path of a line with a 64-digit hash and a safe path under `payload/`. */
  function ManifestPath(line: string): (r: Option<Path>)
    ensures r.Some? ==> SafeRel(r.value, false) && |r.value| <= 4087
  {
    var a := SkipSpaces(line, 0);
    var b := WordEnd(line, a, 79);
    var c := SkipSpaces(line, b);
    var d := WordEnd(line, c, 4095);
    var hash, path := line[a..b], line[c..d];
    if hash == "" || path == "" then None
    else if |hash| != HASH || |path| < 8 || path[..8] != "payload/" || !SafeRel(path[8..], false) then None
    else if exists i :: 0 <= i < HASH && !HexDigit(hash[i]) then None
    else Some(path[8..])
  }

  // ----- The log -----

  /** One line of a file as `fgets` reads it: at most 4095 characters, through the line break. */
  function LineEnd(text: string, i: nat, max: nat): (r: nat)
    requires i <= |text|
    ensures i <= r <= |text|
    ensures i < |text| && max > 0 ==> r > i
    decreases max, |text|
  {
    if max == 0 || i == |text| then i
    else if text[i] == '\n' then i + 1
    else LineEnd(text, i + 1, max - 1)
  }

  /** A line cut at its first line break or carriage return. */
  function Stripped(line: string): string {
    if line == "" || line[0] == '\n' || line[0] == '\r' then "" else [line[0]] + Stripped(line[1..])
  }

  function ReadLines(text: string, i: nat): seq<string>
    requires i <= |text|
    decreases |text| - i
  {
    if i == |text| then []
    else
      var end := LineEnd(text, i, MAX_PATH - 1);
      [Stripped(text[i..end])] + ReadLines(text, end)
  }

  function WriteLines(paths: seq<Path>): string {
    if paths == [] then "" else WriteLines(paths[..|paths| - 1]) + paths[|paths| - 1] + "\n"
  }

  predicate Loggable(path: Path) {
    |path| < MAX_PATH - 1 && forall i :: 0 <= i < |path| ==> path[i] != '\n' && path[i] != '\r'
  }

  lemma {:induction false} StripLine(path: Path)
    requires forall i :: 0 <= i < |path| ==> path[i] != '\n' && path[i] != '\r'
    ensures Stripped(path + "\n") == path
  {
    if path != "" {
      assert (path + "\n")[1..] == path[1..] + "\n";
      StripLine(path[1..]);
    }
  }

  lemma {:induction false} LineFound(text: string, i: nat, path: Path, max: nat)
    requires i + |path| < |text| && text[i..i + |path|] == path && text[i + |path|] == '\n'
    requires |path| < max && forall k :: 0 <= k < |path| ==> path[k] != '\n'
    ensures LineEnd(text, i, max) == i + |path| + 1
    decreases |path|
  {
    if path != "" {
      assert text[i] == path[0];
      assert text[i + 1..i + |path|] == path[1..];
      LineFound(text, i + 1, path[1..], max - 1);
    }
  }

  lemma {:induction false} WriteFront(paths: seq<Path>)
    requires paths != []
    ensures WriteLines(paths) == paths[0] + "\n" + WriteLines(paths[1..])
  {
    if |paths| > 1 {
      var front := paths[..|paths| - 1];
      WriteFront(front);
      assert front[1..] == paths[1..][..|paths| - 2];
    }
  }

  // ----- A log that is cut short -----

  /** The paths named by the first `kept` characters of a log: those whose line is
      there whole, and what is left of the next one. */
  function CutPaths(paths: seq<Path>, kept: nat): seq<Path> {
    if paths == [] || kept == 0 then []
    else if kept > |paths[0]| then [paths[0]] + CutPaths(paths[1..], kept - |paths[0]| - 1)
    else [paths[0][..kept]]
  }

  lemma {:induction false} StripPlain(path: Path)
    requires forall i :: 0 <= i < |path| ==> path[i] != '\n' && path[i] != '\r'
    ensures Stripped(path) == path
  {
    if path != "" {
      StripPlain(path[1..]);
    }
  }

  /** A line without a line break is the rest of the text. */
  lemma {:induction false} LastLine(text: string, i: nat, max: nat)
    requires i <= |text| && |text| - i <= max && forall k :: i <= k < |text| ==> text[k] != '\n'
    ensures LineEnd(text, i, max) == |text|
    decreases |text| - i
  {
    if i < |text| {
      LastLine(text, i + 1, max - 1);
    }
  }

  /** What is read from a last line without a line break. */
  lemma LastRead(text: string, i: nat, path: Path)
    requires i < |text| && text[i..] == path && Loggable(path)
    ensures ReadLines(text, i) == [path]
  {
    forall k | i <= k < |text| ensures text[k] != '\n' {
      assert text[i..][k - i] == path[k - i];
    }
    LastLine(text, i, MAX_PATH - 1);
    StripPlain(path);
    assert text[i..|text|] == path;
    assert ReadLines(text, |text|) == [];
  }

  /** What is read from a whole line, and where reading goes on. */
  lemma LineRead(text: string, i: nat, path: Path, rest: string)
    requires i <= |text| && text[i..] == path + "\n" + rest && Loggable(path)
    ensures i + |path| + 1 <= |text| && text[i + |path| + 1..] == rest
    ensures ReadLines(text, i) == [path] + ReadLines(text, i + |path| + 1)
  {
    var line := path + "\n";
    SplitAt(text, i, line, rest);
    StandsSlice(text, i, line);
    StandsAt(text, i, line, |path|);
    assert text[i..i + |path|] == text[i..i + |line|][..|path|] == path;
    LineFound(text, i, path, MAX_PATH - 1);
    StripLine(path);
  }

  /** The text that a cut log holds: whole lines and a beginning of the next one. */
  function CutText(paths: seq<Path>, kept: nat): string {
    if paths == [] || kept == 0 then ""
    else if kept > |paths[0]| then paths[0] + "\n" + CutText(paths[1..], kept - |paths[0]| - 1)
    else paths[0][..kept]
  }

  lemma {:induction false} CutIsTake(paths: seq<Path>, kept: nat)
    ensures Take(WriteLines(paths), kept) == CutText(paths, kept)
  {
    if paths != [] && kept > 0 {
      WriteFront(paths);
      var line, rest := paths[0] + "\n", WriteLines(paths[1..]);
      if kept > |paths[0]| {
        CutIsTake(paths[1..], kept - |line|);
        assert Take(line + rest, kept) == line + Take(rest, kept - |line|);
      } else {
        assert (line + rest)[..kept] == paths[0][..kept];
      }
    }
  }

  /** However short the log is cut, what is read back is what it still names. */
  lemma {:induction false} CutRead(text: string, i: nat, paths: seq<Path>, kept: nat, read: seq<string>)
    requires forall p :: p in paths ==> Loggable(p) && p != ""
    requires i <= |text| && text[i..] == CutText(paths, kept)
    requires read == ReadLines(text, i)
    ensures read == CutPaths(paths, kept)
    decreases |paths|
  {
    if paths == [] || kept == 0 {
      assert |text[i..]| == |text| - i;
    } else {
      var first := paths[0];
      assert first in paths;
      if kept > |first| {
        var rest, more := paths[1..], kept - |first| - 1;
        LineRead(text, i, first, CutText(rest, more));
        var next := i + |first| + 1;
        CutRead(text, next, rest, more, ReadLines(text, next));
      } else {
        CutLoggable(first, kept);
        LastRead(text, i, first[..kept]);
      }
    }
  }

  lemma CutLoggable(path: Path, n: nat)
    requires Loggable(path) && n <= |path|
    ensures Loggable(path[..n])
  {
  }

  lemma {:induction false} WholeLog(paths: seq<Path>, kept: nat)
    requires kept >= |WriteLines(paths)|
    ensures CutPaths(paths, kept) == paths
  {
    if paths != [] {
      WriteFront(paths);
      WholeLog(paths[1..], kept - |paths[0]| - 1);
    }
  }

  /** The list that is read is the list that was written. */
  lemma LogRoundTrip(paths: seq<Path>)
    requires forall p :: p in paths ==> Loggable(p) && p != ""
    ensures ReadLines(WriteLines(paths), 0) == paths
  {
    var text := WriteLines(paths);
    assert text[0..] == text == Take(text, |text|);
    CutIsTake(paths, |text|);
    CutRead(text, 0, paths, |text|, ReadLines(text, 0));
    WholeLog(paths, |text|);
  }

  lemma SafePrefix(path: Path, n: nat)
    requires SafeRel(path, false) && 1 <= n <= |path|
    ensures SafeRel(path[..n], false)
  {
    var cut := path[..n];
    forall i | 0 <= i < |cut| ensures PathChar(cut[i]) {
      assert PathChar(path[i]);
    }
    forall i | 0 <= i < |cut| - 1 ensures !(cut[i] == '.' && cut[i + 1] == '.') {
      assert !(path[i] == '.' && path[i + 1] == '.');
    }
  }

  /** What is left of a safe path is a safe path, though another one. */
  lemma {:induction false} CutSafe(paths: seq<Path>, kept: nat)
    requires forall p :: p in paths ==> SafeRel(p, false)
    ensures forall p :: p in CutPaths(paths, kept) ==> SafeRel(p, false)
  {
    if paths != [] && kept > 0 {
      if kept > |paths[0]| {
        CutSafe(paths[1..], kept - |paths[0]| - 1);
      } else {
        SafePrefix(paths[0], kept);
      }
    }
  }

  lemma SafeIsLoggable(path: Path)
    requires SafeRel(path, false) && |path| <= 4087
    ensures Loggable(path)
  {
    forall i | 0 <= i < |path| ensures path[i] != '\n' && path[i] != '\r' {
      assert PathChar(path[i]);
    }
  }
}
