/** Listing the root directory of an image built from some files. */
module BuiltListing {
  import opened Options
  import opened Bytes
  import opened RootFs
  import opened RootFsBuild
  import opened RootFsListing

  /** The files have paths with these first components, in order. */
  ghost predicate RootedFiles(files: seq<SourceFile>, firsts: seq<seq<byte>>, mores: seq<Option<seq<byte>>>) {
    && |files| == |firsts| == |mores|
    && forall i :: 0 <= i < |files| ==>
         && IsComponent(firsts[i]) && firsts[i] != [] && Clean(firsts[i])
         && files[i].path == RootPath(firsts[i], mores[i])
  }

  lemma {:induction false} BuiltText(files: seq<SourceFile>, firsts: seq<seq<byte>>, mores: seq<Option<seq<byte>>>,
                                     es: seq<Entry>)
    requires Buildable(files) && RootedFiles(files, firsts, mores) && |es| == |files|
    requires forall i :: 0 <= i < |files| ==> es[i] == Written(files, i)
    ensures (forall e :: e in es ==> |e.path| >= 1) && Distinct(firsts) != []
    ensures ListText(es, []) == Spaced(Distinct(firsts)) + [0x20]
    ensures Closed(ListText(es, [])) == Spaced(Distinct(firsts)) + ['\n' as int, 0]
  {
    assert forall i :: 0 <= i < |es| ==> es[i].path == RootPath(firsts[i], mores[i]);
    forall w | w in firsts ensures Clean(w) {
      var i :| 0 <= i < |firsts| && firsts[i] == w;
    }
    ListingIs(es, firsts, mores);
  }

  /** The text of a mounted built image's listing, with its line break and terminator. */
  function ListingOf(firsts: seq<seq<byte>>): seq<byte>
    requires Distinct(firsts) != []
  {
    Spaced(Distinct(firsts)) + ['\n' as int, 0]
  }

  method MountBuilt(fs: FileSystem, files: seq<SourceFile>, ghost firsts: seq<seq<byte>>,
                    ghost mores: seq<Option<seq<byte>>>)
    requires Buildable(files) && Mountable(files) && FileStart(files, |files|) < U32
    requires RootedFiles(files, firsts, mores)
    modifies fs
    ensures fs.Valid() && fs.ready && Distinct(firsts) != []
    ensures |fs.Listing()| == |ListingOf(firsts)| - 1 > 0 && Closed(fs.Listing()) == ListingOf(firsts)
  {
    var image := BuildImage(files);
    WellFormedIff(files);
    var mounted := fs.Mount(image);
    EntriesMatch(files, 0);
    ghost var es := Entries(image, |files|);
    forall i | 0 <= i < |files| ensures es[i] == Written(files, i) {
      EntriesMatch(files, i);
    }
    BuiltText(files, firsts, mores, es);
  }

  /** Mounting a built image and listing its root: the buffer gets the first
      components of the paths, each once, in the order of the files, separated by
      spaces and ended by a line break, exactly if the buffer is larger than that. */
  method List(fs: FileSystem, files: seq<SourceFile>, ghost firsts: seq<seq<byte>>,
              ghost mores: seq<Option<seq<byte>>>, output: array<byte>, size: nat)
    returns (written: int)
    requires Buildable(files) && Mountable(files) && FileStart(files, |files|) < U32
    requires RootedFiles(files, firsts, mores) && size <= output.Length
    modifies fs, output
    ensures Distinct(firsts) != []
    ensures written == if |ListingOf(firsts)| < size then |ListingOf(firsts)| - 1 else -1
    ensures written >= 0 ==> Holds(output[..], 0, ListingOf(firsts))
    ensures OnlyInside(old(output[..]), output[..], 0, size)
  {
    MountBuilt(fs, files, firsts, mores);
    written := fs.List([0x2f], output, 0, size);
  }
}
