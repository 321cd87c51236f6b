/** The RFS1 image writer, and its round trip with the kernel's reader. */
module RootFsBuild {
  import opened Options
  import opened Bytes
  import opened RootFs
  import opened Slices

  const MODE: nat := 33261 // 0o100755

  /** One DEST=SOURCE argument: the destination and the bytes of the source. */
  datatype SourceFile = SourceFile(path: seq<byte>, data: seq<byte>)

  predicate DestinationOk(path: seq<byte>) {
    |path| > 0 && path[0] == SLASH && forall i :: 0 <= i < |path| ==> path[i] < 128
  }

  /** Offset of the `n`-th entry in the image. */
  function EntryStart(files: seq<SourceFile>, n: nat): nat
    requires n <= |files|
  {
    if n == 0 then HEADER_SIZE else EntryStart(files, n - 1) + ENTRY_SIZE + |files[n - 1].path|
  }

  /** Offset of the `n`-th file's data in the image. */
  function FileStart(files: seq<SourceFile>, n: nat): nat
    requires n <= |files|
  {
    if n == 0 then EntryStart(files, |files|) else FileStart(files, n - 1) + |files[n - 1].data|
  }

  function EntryBytes(file: SourceFile, offset: nat): (r: seq<byte>)
    ensures |r| == ENTRY_SIZE + |file.path|
  {
    Put16(|file.path|) + Put16(MODE) + Put32(offset) + Put32(|file.data|) + file.path
  }

  function TableBytes(files: seq<SourceFile>, n: nat): (r: seq<byte>)
    requires n <= |files|
    ensures |r| == EntryStart(files, n) - HEADER_SIZE
  {
    if n == 0 then [] else TableBytes(files, n - 1) + EntryBytes(files[n - 1], FileStart(files, n - 1))
  }

  function DataBytes(files: seq<SourceFile>, n: nat): (r: seq<byte>)
    requires n <= |files|
    ensures |r| == FileStart(files, n) - EntryStart(files, |files|)
  {
    if n == 0 then [] else DataBytes(files, n - 1) + files[n - 1].data
  }

  /** Every field of the first `n` entries fits its packed width. */
  predicate Packs(files: seq<SourceFile>, n: nat)
    requires n <= |files|
  {
    n == 0 ||
    (Packs(files, n - 1) &&
     |files[n - 1].path| < U16 && FileStart(files, n - 1) < U32 && |files[n - 1].data| < U32)
  }

  predicate Buildable(files: seq<SourceFile>) {
    && 0 < |files| < U32
    && (forall i :: 0 <= i < |files| ==> DestinationOk(files[i].path))
    && Packs(files, |files|)
  }

  function BuildImage(files: seq<SourceFile>): (r: seq<byte>)
    ensures |r| == FileStart(files, |files|)
  {
    Put32(MAGIC) + Put32(|files|) + TableBytes(files, |files|) + DataBytes(files, |files|)
  }

  /** The script: it fails on no argument, on a bad destination and on a field too wide to pack. */
  method Build(files: seq<SourceFile>) returns (result: Option<seq<byte>>)
    ensures result == if Buildable(files) then Some(BuildImage(files)) else None
  {
    if files == [] {
      return None;
    }
    for i := 0 to |files|
      invariant forall j :: 0 <= j < i ==> DestinationOk(files[j].path)
    {
      if !DestinationOk(files[i].path) {
        return None;
      }
    }
    var offset := 8;
    for i := 0 to |files|
      invariant offset == EntryStart(files, i)
    {
      offset := offset + (12 + |files[i].path|);
    }
    var entries := PackEntries(files, offset);
    if entries.None? || |files| >= U32 {
      return None;
    }
    var data: seq<byte> := [];
    for i := 0 to |files|
      invariant data == DataBytes(files, i)
    {
      data := data + files[i].data;
    }
    return Some(Put32(MAGIC) + Put32(|files|) + entries.value + data);
  }

  method PackEntries(files: seq<SourceFile>, start: nat) returns (result: Option<seq<byte>>)
    requires start == EntryStart(files, |files|)
    ensures result == if Packs(files, |files|) then Some(TableBytes(files, |files|)) else None
  {
    var offset := start;
    var entries: seq<byte> := [];
    for i := 0 to |files|
      invariant offset == FileStart(files, i)
      invariant Packs(files, i)
      invariant entries == TableBytes(files, i)
    {
      if |files[i].path| >= U16 || offset >= U32 || |files[i].data| >= U32 {
        PacksPrefix(files, i + 1, |files|);
        return None;
      }
      entries := entries + EntryBytes(files[i], offset);
      offset := offset + |files[i].data|;
    }
    return Some(entries);
  }

  lemma {:induction false} PacksPrefix(files: seq<SourceFile>, k: nat, n: nat)
    requires k <= n <= |files|
    ensures Packs(files, n) ==> Packs(files, k)
  {
    if k < n {
      PacksPrefix(files, k, n - 1);
    }
  }

  // ----- Reading back what was written -----

  lemma {:induction false} StartsGrow(files: seq<SourceFile>, k: nat, n: nat)
    requires k <= n <= |files|
    ensures EntryStart(files, k) <= EntryStart(files, n) && FileStart(files, k) <= FileStart(files, n)
  {
    if k < n {
      StartsGrow(files, k, n - 1);
    }
  }

  lemma {:induction false} TablePrefix(files: seq<SourceFile>, k: nat, n: nat)
    requires k <= n <= |files|
    ensures TableBytes(files, k) <= TableBytes(files, n) && DataBytes(files, k) <= DataBytes(files, n)
  {
    if k < n {
      TablePrefix(files, k, n - 1);
    }
  }

  /** A built image is a header, the table and the data. */
  lemma ImageParts(files: seq<SourceFile>)
    ensures var image, dataStart := BuildImage(files), EntryStart(files, |files|);
            && HEADER_SIZE <= dataStart <= |image|
            && image[HEADER_SIZE..dataStart] == TableBytes(files, |files|)
            && image[dataStart..] == DataBytes(files, |files|)
  {
    StartsGrow(files, 0, |files|);
    var header := Put32(MAGIC) + Put32(|files|);
    Between(header, TableBytes(files, |files|), DataBytes(files, |files|));
  }

  /** The `k`-th entry stands where the table says ... */
  lemma EntryInTable(files: seq<SourceFile>, k: nat, image: seq<byte>)
    requires k < |files| && HEADER_SIZE <= EntryStart(files, |files|) <= |image|
    requires image[HEADER_SIZE..EntryStart(files, |files|)] == TableBytes(files, |files|)
    ensures var at, e := EntryStart(files, k), EntryBytes(files[k], FileStart(files, k));
            EntryStart(files, k + 1) == at + |e| <= |image| && image[at..at + |e|] == e
  {
    var table, before := TableBytes(files, |files|), TableBytes(files, k);
    var e := EntryBytes(files[k], FileStart(files, k));
    StartsGrow(files, k + 1, |files|);
    TablePrefix(files, k + 1, |files|);
    PrefixPlaced(image, HEADER_SIZE, table, before, e);
  }

  lemma EntryPlaced(files: seq<SourceFile>, k: nat)
    requires k < |files|
    ensures var image, at, e := BuildImage(files), EntryStart(files, k), EntryBytes(files[k], FileStart(files, k));
            EntryStart(files, k + 1) == at + |e| <= |image| && image[at..at + |e|] == e
  {
    ImageParts(files);
    EntryInTable(files, k, BuildImage(files));
  }

  /** ... and its data where the entry says. */
  lemma DataStep(files: seq<SourceFile>, k: nat)
    requires k < |files|
    ensures DataBytes(files, k) + files[k].data <= DataBytes(files, |files|)
    ensures FileStart(files, k) == EntryStart(files, |files|) + |DataBytes(files, k)|
  {
    TablePrefix(files, k + 1, |files|);
  }

  lemma DataPlaced(files: seq<SourceFile>, k: nat)
    requires k < |files|
    ensures var image, at, data := BuildImage(files), FileStart(files, k), files[k].data;
            at + |data| <= |image| && image[at..at + |data|] == data
  {
    var image, all := BuildImage(files), DataBytes(files, |files|);
    ImageParts(files);
    DataStep(files, k);
    PrefixPlaced(image, EntryStart(files, |files|), all, DataBytes(files, k), files[k].data);
  }

  lemma EntryFields(file: SourceFile, offset: nat)
    requires |file.path| < U16 && offset < U32 && |file.data| < U32
    ensures var e := EntryBytes(file, offset);
            && Le16(e, 0) == |file.path| && Le16(e, 2) == MODE
            && Le32(e, 4) == offset && Le32(e, 8) == |file.data|
            && e[ENTRY_SIZE..] == file.path
  {
    var e := EntryBytes(file, offset);
    Reads16(e, 0, |file.path|);
    Reads16(e, 2, MODE);
    Reads32(e, 4, offset);
    Reads32(e, 8, |file.data|);
  }

  lemma SliceReads(image: seq<byte>, at: nat, e: seq<byte>)
    requires at + |e| <= |image| && |e| >= ENTRY_SIZE && image[at..at + |e|] == e
    ensures Le16(image, at) == Le16(e, 0) && Le16(image, at + 2) == Le16(e, 2)
    ensures Le32(image, at + 4) == Le32(e, 4) && Le32(image, at + 8) == Le32(e, 8)
    ensures image[at + ENTRY_SIZE..at + |e|] == e[ENTRY_SIZE..]
  {
    forall i | 0 <= i < |e| ensures image[at + i] == e[i] {
      assert image[at..at + |e|][i] == image[at + i];
    }
  }

  /** What the reader finds where an entry's bytes stand. */
  lemma EntryReads(image: seq<byte>, at: nat, file: SourceFile, offset: nat)
    requires |file.path| < U16 && offset < U32 && |file.data| < U32
    requires at + ENTRY_SIZE + |file.path| <= |image|
    requires image[at..at + ENTRY_SIZE + |file.path|] == EntryBytes(file, offset)
    requires offset + |file.data| <= |image| && |file.path| > 0
    ensures EntryOk(image, at) <==> |file.path| <= 255
    ensures |file.path| <= 255 ==>
              && Next(image, at) == at + ENTRY_SIZE + |file.path|
              && EntryAt(image, at) == Entry(file.path, MODE, offset, |file.data|)
  {
    EntryFields(file, offset);
    SliceReads(image, at, EntryBytes(file, offset));
  }

  // ----- The round trip -----

  /** The first source file with a given destination, from the `i`-th on. */
  function FirstFile(files: seq<SourceFile>, path: seq<byte>, i: nat): (r: Option<nat>)
    requires i <= |files|
    ensures r.Some? ==> r.value < |files| && files[r.value].path == path
    decreases |files| - i
  {
    if i == |files| then None
    else if files[i].path == path then Some(i)
    else FirstFile(files, path, i + 1)
  }

  /** A destination is accepted exactly if it is ASCII text that starts with a slash. */
  lemma DestinationIs(path: seq<byte>)
    ensures DestinationOk(path) <==> exists text: string :: IsAscii(text) && path == Ascii("/") + Ascii(text)
  {
    if DestinationOk(path) {
      var text := seq(|path| - 1, i requires 0 <= i < |path| - 1 => path[i + 1] as char);
      assert IsAscii(text) && path == Ascii("/") + Ascii(text);
    }
  }

  /** The format, written out for one file and for the header of any image: magic
      and count, then path length, mode, offset and size of an entry, its path, and the data. */
  lemma OneFile(file: SourceFile)
    requires |file.path| < U16 && |file.data| < U32
    ensures BuildImage([file]) ==
            Ascii("RFS1") + Put32(1) +
            Put16(|file.path|) + Put16(0x81ed) + Put32(20 + |file.path|) + Put32(|file.data|) + file.path + file.data
  {
    var files := [file];
    Magic();
    assert EntryStart(files, 0) == 8 && EntryStart(files, 1) == 20 + |file.path|;
    assert FileStart(files, 0) == 20 + |file.path|;
    assert TableBytes(files, 0) == [] && TableBytes(files, 1) == EntryBytes(file, 20 + |file.path|);
    assert DataBytes(files, 0) == [] && DataBytes(files, 1) == file.data;
  }

  lemma Magic()
    ensures Put32(MAGIC) == Ascii("RFS1")
  {
  }

  predicate Mountable(files: seq<SourceFile>) {
    |files| <= MAX_ENTRIES && forall i :: 0 <= i < |files| ==> |files[i].path| <= 255
  }

  /** The `k`-th source file as an entry of the image. */
  function Written(files: seq<SourceFile>, k: nat): Entry
    requires k < |files|
  {
    Entry(files[k].path, MODE, FileStart(files, k), |files[k].data|)
  }

  lemma HeaderReadBack(files: seq<SourceFile>)
    requires |files| < U32
    ensures var image := BuildImage(files);
            |image| >= HEADER_SIZE && Le32(image, 0) == MAGIC && Le32(image, 4) == |files|
  {
    var image := BuildImage(files);
    Reads32(image, 0, MAGIC);
    Reads32(image, 4, |files|);
  }

  /** An entry is well formed for the reader exactly when its path is short enough. */
  lemma EntryAccepted(files: seq<SourceFile>, k: nat)
    requires Buildable(files) && k < |files|
    ensures EntryOk(BuildImage(files), EntryStart(files, k)) <==> |files[k].path| <= 255
    ensures |files[k].path| <= 255 ==>
              && Next(BuildImage(files), EntryStart(files, k)) == EntryStart(files, k + 1)
              && EntryAt(BuildImage(files), EntryStart(files, k)) == Written(files, k)
  {
    PacksPrefix(files, k + 1, |files|);
    assert DestinationOk(files[k].path);
    EntryPlaced(files, k);
    DataPlaced(files, k);
    EntryReads(BuildImage(files), EntryStart(files, k), files[k], FileStart(files, k));
  }

  /** A walk that follows the written entries as far as their paths are short enough. */
  ghost predicate Follows(files: seq<SourceFile>, cs: seq<nat>, i: nat)
    requires i + 1 < |cs| <= |files| + 1
  {
    cs[i] == EntryStart(files, i) ==> cs[i + 1] == EntryStart(files, i + 1) && |files[i].path| <= 255
  }

  lemma {:induction false} FollowsAll(files: seq<SourceFile>, cs: seq<nat>, k: nat)
    requires k < |cs| <= |files| + 1 && cs[0] == HEADER_SIZE
    requires forall i :: 0 <= i < |cs| - 1 ==> Follows(files, cs, i)
    ensures cs[k] == EntryStart(files, k)
    ensures forall i :: 0 <= i < k ==> |files[i].path| <= 255
  {
    if k > 0 {
      FollowsAll(files, cs, k - 1);
      assert Follows(files, cs, k - 1);
    }
  }

  /** The reader walks through the entries in the order they were written. */
  lemma CursorsMatch(files: seq<SourceFile>, cs: seq<nat>, k: nat)
    requires Buildable(files) && cs == Cursors(BuildImage(files), |files|) && k < |cs|
    ensures cs[k] == EntryStart(files, k)
    ensures forall i :: 0 <= i < k ==> |files[i].path| <= 255
  {
    forall i | 0 <= i < |cs| - 1 ensures Follows(files, cs, i) {
      EntryAccepted(files, i);
    }
    FollowsAll(files, cs, k);
  }

  lemma WalkCompletes(files: seq<SourceFile>)
    requires Buildable(files)
    ensures |Cursors(BuildImage(files), |files|)| == |files| + 1 <==>
            forall i :: 0 <= i < |files| ==> |files[i].path| <= 255
  {
    var cs := Cursors(BuildImage(files), |files|);
    CursorsMatch(files, cs, |cs| - 1);
    if |cs| <= |files| {
      WalkStops(files, cs);
    }
  }

  /** A walk that stops early stops at a long path. */
  lemma WalkStops(files: seq<SourceFile>, cs: seq<nat>)
    requires Buildable(files) && cs == Cursors(BuildImage(files), |files|) && |cs| <= |files|
    ensures |files[|cs| - 1].path| > 255
  {
    CursorsMatch(files, cs, |cs| - 1);
    EntryAccepted(files, |cs| - 1);
  }

  /** A built image is well formed exactly when it has at most 128 files and no
      path is longer than 255 bytes ... */
  lemma WellFormedIff(files: seq<SourceFile>)
    requires Buildable(files)
    ensures ImageOk(BuildImage(files)) <==> Mountable(files)
  {
    HeaderReadBack(files);
    WalkCompletes(files);
  }

  /** An image that `mantle_rootfs_mount` can be given, and accepts: its size is a 32-bit number. */
  predicate Mounts(image: seq<byte>) {
    |image| < U32 && ImageOk(image)
  }

  /** ... and the kernel mounts it exactly when, moreover, it is smaller than 4 GiB. */
  lemma MountAccepts(files: seq<SourceFile>)
    requires Buildable(files)
    ensures Mounts(BuildImage(files)) <==> Mountable(files) && FileStart(files, |files|) < U32
  {
    WellFormedIff(files);
  }

  /** A mounted built image lists exactly the source files, in order. */
  lemma EntriesMatch(files: seq<SourceFile>, k: nat)
    requires Buildable(files) && Mountable(files) && k < |files|
    ensures ImageOk(BuildImage(files)) && Le32(BuildImage(files), 4) == |files|
    ensures Entries(BuildImage(files), |files|)[k] == Written(files, k)
  {
    WellFormedIff(files);
    HeaderReadBack(files);
    var image := BuildImage(files);
    CursorsMatch(files, Cursors(image, |files|), k);
    EntryAccepted(files, k);
  }

  /** Opening any path in a mounted built image finds the first source file with
      that destination, and nothing for every other path ... */
  lemma OpenFindsFirst(files: seq<SourceFile>, path: seq<byte>)
    requires Buildable(files) && Mountable(files)
    ensures ImageOk(BuildImage(files)) && Le32(BuildImage(files), 4) == |files|
    ensures Lookup(Entries(BuildImage(files), |files|), path) ==
            match FirstFile(files, path, 0)
            case None => None
            case Some(i) => Some(Written(files, i))
  {
    EntriesMatch(files, 0);
    var es := Entries(BuildImage(files), |files|);
    forall k | 0 <= k < |files| ensures es[k] == Written(files, k) {
      EntriesMatch(files, k);
    }
    FirstMatches(files, es, path, 0);
    assert es[0..] == es;
  }

  /** ... and the bytes it returns are the source's. */
  lemma ContentReadBack(files: seq<SourceFile>, i: nat)
    requires i < |files|
    ensures var e := Written(files, i);
            && e.offset + e.size <= |BuildImage(files)|
            && BuildImage(files)[e.offset..e.offset + e.size] == files[i].data
  {
    DataPlaced(files, i);
  }

  lemma {:induction false} FirstMatches(files: seq<SourceFile>, es: seq<Entry>, path: seq<byte>, i: nat)
    requires i <= |files| == |es|
    requires forall k :: 0 <= k < |files| ==> es[k] == Written(files, k)
    ensures Lookup(es[i..], path) ==
            match FirstFile(files, path, i)
            case None => None
            case Some(k) => Some(Written(files, k))
    decreases |files| - i
  {
    if i < |files| {
      assert es[i..][1..] == es[i + 1..];
      FirstMatches(files, es, path, i + 1);
    }
  }
}
