/** The RFS1 root filesystem: the kernel's reader (mount, open, list) as a
    class over the mounted image, and what an image says. */
module RootFs {
  import opened Options
  import opened Bytes

  const MAGIC: int := 0x3153_4652
  const MAX_ENTRIES: int := 128
  const HEADER_SIZE: int := 8
  const ENTRY_SIZE: int := 12
  const SLASH: byte := 0x2f
  const SPACE: byte := 0x20
  const NEWLINE: byte := 0x0a

  datatype Entry = Entry(path: seq<byte>, mode: nat, offset: nat, size: nat)

  /** A path argument: a C string, so it has no NUL byte. */
  type CString = s: seq<byte> | 0 !in s witness []

  // ----- What an image says -----

  predicate EntryOk(image: seq<byte>, cursor: nat) {
    && cursor + ENTRY_SIZE <= |image|
    && 1 <= Le16(image, cursor) <= 255
    && cursor + ENTRY_SIZE + Le16(image, cursor) <= |image|
    && Le32(image, cursor + 4) + Le32(image, cursor + 8) <= |image|
  }

  function Next(image: seq<byte>, cursor: nat): nat
    requires EntryOk(image, cursor)
  {
    cursor + ENTRY_SIZE + Le16(image, cursor)
  }

  function EntryAt(image: seq<byte>, cursor: nat): Entry
    requires EntryOk(image, cursor)
  {
    Entry(image[cursor + ENTRY_SIZE..Next(image, cursor)], Le16(image, cursor + 2),
          Le32(image, cursor + 4), Le32(image, cursor + 8))
  }

  /** Where the first `n` entries start and end, as far as they are well formed. */
  function Cursors(image: seq<byte>, n: nat): (cs: seq<nat>)
    ensures 1 <= |cs| <= n + 1 && cs[0] == HEADER_SIZE
    ensures forall k :: 0 <= k < |cs| - 1 ==> EntryOk(image, cs[k]) && cs[k + 1] == Next(image, cs[k])
    ensures |cs| <= n ==> !EntryOk(image, cs[|cs| - 1])
  {
    if n == 0 then [HEADER_SIZE]
    else
      var cs := Cursors(image, n - 1);
      if |cs| == n && EntryOk(image, cs[n - 1]) then cs + [Next(image, cs[n - 1])] else cs
  }

  predicate ImageOk(image: seq<byte>) {
    && HEADER_SIZE <= |image|
    && Le32(image, 0) == MAGIC
    && 1 <= Le32(image, 4) <= MAX_ENTRIES
    && |Cursors(image, Le32(image, 4))| == Le32(image, 4) + 1
  }

  function Entries(image: seq<byte>, n: nat): (es: seq<Entry>)
    requires |Cursors(image, n)| == n + 1
    ensures |es| == n
    ensures forall k :: 0 <= k < n ==> es[k] == EntryAt(image, Cursors(image, n)[k])
    ensures forall e :: e in es ==> 1 <= |e.path| <= 255 && e.offset + e.size <= |image|
  {
    var cs := Cursors(image, n);
    seq(n, k requires 0 <= k < n => EntryAt(image, cs[k]))
  }

  /** The walk from the header is determined step by step. */
  lemma {:induction false} CursorsPrefix(image: seq<byte>, i: nat, n: nat)
    requires i <= n
    ensures |Cursors(image, i)| <= |Cursors(image, n)|
    ensures Cursors(image, i) == Cursors(image, n)[..|Cursors(image, i)|]
    ensures |Cursors(image, i)| < i + 1 || (|Cursors(image, i)| == i + 1 && !EntryOk(image, Cursors(image, i)[i])) ==>
              Cursors(image, n) == Cursors(image, i)
  {
    if i < n {
      CursorsPrefix(image, i, n - 1);
    }
  }

  /** The first entry with the given path. */
  function Lookup(es: seq<Entry>, path: seq<byte>): Option<Entry> {
    if es == [] then None
    else if es[0].path == path then Some(es[0])
    else Lookup(es[1..], path)
  }

  // ----- What a listing says -----

  /** How many characters of the path's first component follow its leading character, from the `i`-th on. */
  function NameEnd(path: seq<byte>, i: nat): (n: nat)
    requires i + 1 <= |path|
    ensures i <= n < |path|
    decreases |path| - i
  {
    if i + 1 < |path| && path[1 + i] != SLASH && path[1 + i] != 0 then NameEnd(path, i + 1) else i
  }

  /** The first component of a path, without its leading character. */
  function Name(path: seq<byte>): seq<byte>
    requires |path| >= 1
  {
    path[1..1 + NameEnd(path, 0)]
  }

  predicate Delimiter(c: byte) {
    c == SPACE || c == NEWLINE
  }

  function WordEnd(text: seq<byte>, i: nat): (n: nat)
    requires i <= |text|
    ensures i <= n <= |text|
    decreases |text| - i
  {
    if i < |text| && !Delimiter(text[i]) then WordEnd(text, i + 1) else i
  }

  /** Whether `word` is a stretch of the text, from `i` on, that ends at a delimiter or at the end. */
  predicate HasWord(text: seq<byte>, i: nat, word: seq<byte>)
    decreases |text| - i
  {
    i < |text| &&
    (text[i..WordEnd(text, i)] == word || HasWord(text, WordEnd(text, i) + 1, word))
  }

  /** The text after one entry: a first component not yet seen is added with a space. */
  function Extended(text: seq<byte>, path: seq<byte>): (r: seq<byte>)
    requires |path| >= 1
    ensures |r| >= |text|
  {
    if |path| > 1 && !HasWord(text, 0, Name(path)) then text + Name(path) + [SPACE] else text
  }

  /** The text `mantle_rootfs_list` accumulates over the entries. */
  function ListText(es: seq<Entry>, text: seq<byte>): (r: seq<byte>)
    requires forall e :: e in es ==> |e.path| >= 1
    ensures |r| >= |text|
    decreases |es|
  {
    if es == [] then text else ListText(es[1..], Extended(text, es[0].path))
  }

  class FileSystem {
    var image: seq<byte>
    var entries: nat
    var ready: bool

    ghost predicate Valid()
      reads this
    {
      ready ==> |image| < U32 && |Cursors(image, entries)| == entries + 1
    }

    /** The entries of the mounted image. */
    function Mounted(): (es: seq<Entry>)
      requires Valid()
      reads this
      ensures forall e :: e in es ==> 1 <= |e.path| <= 255 && e.offset + e.size <= |image|
    {
      if ready then Entries(image, entries) else []
    }

    constructor ()
      ensures Valid() && !ready
    {
      image, entries, ready := [], 0, false;
    }

    /** `mantle_rootfs_mount`: accepts exactly the well-formed images, and forgets
        the previous one in any case. */
    method Mount(candidate: seq<byte>) returns (ok: bool)
      requires |candidate| < U32
      modifies this
      ensures Valid()
      ensures ok == ready == ImageOk(candidate)
      ensures ok ==> image == candidate && entries == Le32(candidate, 4)
    {
      image, entries, ready := [], 0, false;
      if |candidate| < HEADER_SIZE {
        return false;
      }
      var count := Le32(candidate, 4);
      if Le32(candidate, 0) != MAGIC || count == 0 || count > MAX_ENTRIES {
        return false;
      }
      var cursor: nat := HEADER_SIZE;
      for index := 0 to count
        invariant !ready
        invariant |Cursors(candidate, index)| == index + 1 && cursor == Cursors(candidate, index)[index]
        invariant cursor <= |candidate|
      {
        CursorsPrefix(candidate, index, count);
        var next := CheckEntry(candidate, cursor);
        if next.None? {
          return false;
        }
        cursor := next.value;
      }
      image, entries, ready := candidate, count, true;
      return true;
    }

    /** `mantle_rootfs_open`: the first entry whose path is the argument. The walk
        checks no bound, yet visits exactly the entries that `Mount` validated. */
    method Open(path: CString) returns (result: Option<Entry>)
      requires Valid()
      ensures result == Lookup(Mounted(), path)
    {
      if !ready {
        return None;
      }
      result := Find(image, entries, path);
    }

    /** `mantle_rootfs_list` of the root directory into a buffer of `outputSize`
        bytes at `start`: it succeeds exactly when the text is not empty and leaves
        room for the terminator, and never writes outside the buffer. */
    method List(path: CString, output: array<byte>, start: nat, outputSize: nat) returns (written: int)
      requires Valid() && start + outputSize <= output.Length
      modifies output
      ensures written == if ready && path == [SLASH] && 0 < |Listing()| && |Listing()| + 1 < outputSize
                         then |Listing()| else -1
      ensures written >= 0 ==> Holds(output[..], start, Closed(Listing()))
      ensures !ready || path != [SLASH] ==> output[..] == old(output[..])
      ensures OnlyInside(old(output[..]), output[..], start, outputSize)
    {
      if !ready || outputSize == 0 || |path| == 0 || path[0] != SLASH || |path| != 1 {
        return -1;
      }
      ghost var listing := Listing();
      written := ListInto(image, entries, output, start, outputSize);
      assert Listing() == listing;
      if written <= 0 || written + 1 >= outputSize {
        return -1;
      }
      Terminate(output, start, written, listing);
      assert Listing() == listing;
      assert Holds(output[..], start, Closed(listing));
    }

    /** The text of a listing, before its last space becomes a newline. */
    function Listing(): seq<byte>
      requires Valid()
      reads this
    {
      ListText(Mounted(), [])
    }
  }

  /** The checks that `mantle_rootfs_mount` makes on the entry at `cursor`, and where the next one starts. */
  method CheckEntry(image: seq<byte>, cursor: nat) returns (next: Option<nat>)
    ensures next == if EntryOk(image, cursor) then Some(Next(image, cursor)) else None
  {
    if !InRange(cursor, ENTRY_SIZE, |image|) {
      return None;
    }
    var length := Le16(image, cursor);
    var offset, size := Le32(image, cursor + 4), Le32(image, cursor + 8);
    var at := cursor + ENTRY_SIZE;
    if length == 0 || length > 255 || !InRange(at, length, |image|) || !InRange(offset, size, |image|) {
      return None;
    }
    return Some(at + length);
  }

  method PathEqual(image: seq<byte>, at: nat, length: nat, path: CString) returns (equal: bool)
    requires at + length <= |image|
    ensures equal <==> image[at..at + length] == path
  {
    var index := 0;
    while index < |path|
      invariant index <= |path| && index <= length
      invariant forall i :: 0 <= i < index ==> image[at + i] == path[i]
    {
      if index >= length || image[at + index] != path[index] {
        assert index < length ==> image[at..at + length][index] != path[index];
        return false;
      }
      index := index + 1;
    }
    return index == length;
  }

  /** The walk of `mantle_rootfs_open` over a validated table. */
  method Find(image: seq<byte>, entries: nat, path: CString) returns (result: Option<Entry>)
    requires |Cursors(image, entries)| == entries + 1
    ensures result == Lookup(Entries(image, entries), path)
  {
    ghost var cs, es := Cursors(image, entries), Entries(image, entries);
    var cursor: nat := HEADER_SIZE;
    for index := 0 to entries
      invariant cursor == cs[index]
      invariant Lookup(es, path) == Lookup(es[index..], path)
    {
      assert EntryOk(image, cs[index]) && es[index] == EntryAt(image, cs[index]);
      LookupStep(es, path, index);
      var at, length := PathRange(image, cursor);
      var equal := PathEqual(image, at, length, path);
      if equal {
        return Some(EntryAt(image, cursor));
      }
      cursor := at + length;
    }
    return None;
  }

  /** Where the path of the entry at `cursor` stands; the next entry follows it. */
  method PathRange(image: seq<byte>, cursor: nat) returns (at: nat, length: nat)
    requires EntryOk(image, cursor)
    ensures 1 <= length && at + length <= |image| && at + length == Next(image, cursor)
    ensures image[at..at + length] == EntryAt(image, cursor).path
  {
    return cursor + ENTRY_SIZE, Le16(image, cursor);
  }

  lemma LookupStep(es: seq<Entry>, path: seq<byte>, i: nat)
    requires i < |es|
    ensures Lookup(es[i..], path) == if es[i].path == path then Some(es[i]) else Lookup(es[i + 1..], path)
  {
    assert es[i..][1..] == es[i + 1..];
  }

  /** A listing as a C string: its last space is a newline, and a NUL ends it. */
  function Closed(text: seq<byte>): seq<byte>
    requires 0 < |text|
  {
    text[..|text| - 1] + [NEWLINE, 0]
  }

  ghost predicate Holds(buffer: seq<byte>, at: nat, text: seq<byte>) {
    at + |text| <= |buffer| && buffer[at..at + |text|] == text
  }

  /** Nothing outside the `size` bytes at `start` differs. */
  ghost predicate OnlyInside(before: seq<byte>, after: seq<byte>, start: nat, size: nat) {
    |before| == |after| &&
    forall k :: 0 <= k < |before| && !(start <= k < start + size) ==> after[k] == before[k]
  }

  /** The end of the word that starts at `from`. */
  method ScanWord(text: seq<byte>, from: nat) returns (cursor: nat)
    requires from <= |text|
    ensures cursor == WordEnd(text, from)
  {
    cursor := from;
    while cursor < |text| && text[cursor] != SPACE && text[cursor] != NEWLINE
      invariant from <= cursor <= |text|
      invariant WordEnd(text, from) == WordEnd(text, cursor)
    {
      cursor := cursor + 1;
    }
  }

  method WordEqual(text: seq<byte>, at: nat, name: seq<byte>) returns (equal: bool)
    requires at + |name| <= |text|
    ensures equal <==> text[at..at + |name|] == name
  {
    var index := 0;
    while index < |name| && text[at + index] == name[index]
      invariant index <= |name|
      invariant forall i :: 0 <= i < index ==> text[at + i] == name[i]
    {
      index := index + 1;
    }
    assert index < |name| ==> text[at..at + |name|][index] != name[index];
    return index == |name|;
  }

  /** `name_seen`: whether a name is a word of the text written so far. */
  method NameSeen(text: seq<byte>, name: seq<byte>) returns (seen: bool)
    ensures seen <==> HasWord(text, 0, name)
  {
    var cursor: nat := 0;
    while cursor < |text|
      invariant HasWord(text, 0, name) <==> HasWord(text, cursor, name)
    {
      var from := cursor;
      cursor := ScanWord(text, from);
      if cursor - from == |name| {
        var equal := WordEqual(text, from, name);
        if equal {
          return true;
        }
      }
      cursor := cursor + 1;
    }
    return false;
  }

  /** Appends a name not yet seen and a space to the `written` bytes at `start`;
      -1 when they do not fit. */
  method AppendName(output: array<byte>, start: nat, outputSize: nat, written: nat, name: seq<byte>)
    returns (total: int)
    requires start + outputSize <= output.Length && (written == 0 || written < outputSize)
    modifies output
    ensures OnlyInside(old(output[..]), output[..], start, outputSize)
    ensures var text := old(output[start..start + written]);
            if HasWord(text, 0, name) then total == written && output[start..start + written] == text
            else if written + |name| + 1 >= outputSize then total == -1
            else total == written + |name| + 1 && output[start..start + total] == text + name + [SPACE]
  {
    var seen := NameSeen(output[start..start + written], name);
    if seen {
      return written;
    }
    if written + |name| + 1 >= outputSize {
      return -1;
    }
    ghost var text := output[start..start + written];
    var at := start + written;
    for part := 0 to |name|
      invariant OnlyInside(old(output[..]), output[..], start, outputSize)
      invariant output[start..at + part] == text + name[..part]
    {
      output[at + part] := name[part];
    }
    output[at + |name|] := SPACE;
    return written + |name| + 1;
  }

  /** Turns the last space into a newline and closes the string. */
  method Terminate(output: array<byte>, start: nat, written: nat, ghost text: seq<byte>)
    requires 0 < written && start + written < output.Length && |text| == written && Holds(output[..], start, text)
    modifies output
    ensures OnlyInside(old(output[..]), output[..], start, written + 1)
    ensures Holds(output[..], start, Closed(text))
  {
    output[start + written - 1] := NEWLINE;
    output[start + written] := 0;
  }

  method FirstName(image: seq<byte>, at: nat, length: nat) returns (name: seq<byte>)
    requires 1 < length && at + length <= |image|
    ensures name == Name(image[at..at + length])
  {
    ghost var path := image[at..at + length];
    var n := 0;
    while n + 1 < length && image[at + 1 + n] != SLASH && image[at + 1 + n] != 0
      invariant n < length && NameEnd(path, 0) == NameEnd(path, n)
    {
      n := n + 1;
    }
    name := image[at + 1..at + 1 + n];
    assert NameEnd(path, n) == n;
    assert |path[1..1 + n]| == |name|;
    forall i | 0 <= i < n ensures path[1..1 + n][i] == name[i] {
      assert path[1 + i] == image[at + 1 + i];
    }
  }

  /** The walk of `mantle_rootfs_list` over a validated table; -1 when a name does not fit. */
  method ListInto(image: seq<byte>, entries: nat, output: array<byte>, start: nat, outputSize: nat)
    returns (written: int)
    requires |Cursors(image, entries)| == entries + 1 && start + outputSize <= output.Length
    modifies output
    ensures OnlyInside(old(output[..]), output[..], start, outputSize)
    ensures var listing := ListText(Entries(image, entries), []);
            if written >= 0 then written == |listing| && (written == 0 || written < outputSize) &&
                                 Holds(output[..], start, listing)
            else |listing| >= outputSize
  {
    written := 0;
    var cursor: nat := HEADER_SIZE;
    ghost var cs, es := Cursors(image, entries), Entries(image, entries);
    ghost var text: seq<byte> := [];
    for index := 0 to entries
      invariant cursor == cs[index]
      invariant 0 <= written && (written == 0 || written < outputSize)
      invariant |text| == written && Holds(output[..], start, text)
      invariant ListText(es, []) == ListText(es[index..], text)
      invariant OnlyInside(old(output[..]), output[..], start, outputSize)
    {
      assert EntryOk(image, cs[index]) && es[index] == EntryAt(image, cs[index]);
      ListStep(es, text, index);
      var at, length := PathRange(image, cursor);
      written := AppendEntry(image, at, length, output, start, outputSize, written, text);
      text := Extended(text, es[index].path);
      if written < 0 {
        return -1;
      }
      cursor := at + length;
    }
  }

  lemma ListStep(es: seq<Entry>, text: seq<byte>, i: nat)
    requires i < |es| && forall e :: e in es ==> |e.path| >= 1
    ensures ListText(es[i..], text) == ListText(es[i + 1..], Extended(text, es[i].path))
  {
    assert es[i..][1..] == es[i + 1..];
  }

  /** Whether the text after one more path fits and stands in the buffer, or does not fit. */
  ghost predicate Appended(text: seq<byte>, path: seq<byte>, buffer: seq<byte>, start: nat, outputSize: nat, total: int)
    requires |path| >= 1
  {
    var longer := Extended(text, path);
    if |longer| > |text| && |longer| >= outputSize then total == -1
    else total == |longer| && Holds(buffer, start, longer)
  }

  /** One turn of the walk: the path of `length` bytes at `at` is added to the `written` bytes. */
  method AppendEntry(image: seq<byte>, at: nat, length: nat, output: array<byte>, start: nat, outputSize: nat,
                     written: nat, ghost text: seq<byte>)
    returns (total: int)
    requires 1 <= length && at + length <= |image| && start + outputSize <= output.Length
    requires written == 0 || written < outputSize
    requires |text| == written && Holds(output[..], start, text)
    modifies output
    ensures OnlyInside(old(output[..]), output[..], start, outputSize)
    ensures Appended(text, image[at..at + length], output[..], start, outputSize, total)
  {
    total := written;
    if length > 1 {
      var name := FirstName(image, at, length);
      assert output[start..start + written] == text;
      total := AppendName(output, start, outputSize, written, name);
    }
  }
}
