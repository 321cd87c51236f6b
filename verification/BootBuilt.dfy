/** From the files given to the image builder to the first program: the writer of
    the root filesystem, the kernel's reader and the boot path together. */
module BootBuilt {
  import opened Options
  import opened Bytes
  import opened Calls
  import opened Elf
  import RootFs
  import opened RootFsBuild
  import opened Syscalls

  /** The content of the first source file with a path. */
  function SourceBytes(files: seq<SourceFile>, path: seq<byte>): Option<seq<byte>> {
    match FirstFile(files, path, 0)
    case None => None
    case Some(i) => Some(files[i].data)
  }

  /** The setting of a kernel that has mounted the image built from the files. */
  ghost predicate HasMounted(g: Setting, files: seq<SourceFile>) {
    && Buildable(files) && Mountable(files) && g.image == BuildImage(files)
    && |RootFs.Cursors(BuildImage(files), |files|)| == |files| + 1
    && g.files == RootFs.Entries(BuildImage(files), |files|)
  }

  /** On a mounted built image the kernel reads, at every path, the first source file with it. */
  lemma {:induction false} ReadsSource(files: seq<SourceFile>, g: Setting, path: RootFs.CString)
    requires HasMounted(g, files)
    ensures FileBytes(g, path) == SourceBytes(files, path)
  {
    OpenFindsFirst(files, path);
    FirstBytes(files, g, path, FirstFile(files, path, 0));
  }

  lemma {:induction false} FirstBytes(files: seq<SourceFile>, g: Setting, path: RootFs.CString, first: Option<nat>)
    requires g.image == BuildImage(files) && first == FirstFile(files, path, 0)
    requires RootFs.Lookup(g.files, path) == match first case None => None case Some(i) => Some(Written(files, i))
    ensures FileBytes(g, path) == match first case None => None case Some(i) => Some(files[i].data)
  {
    match first
    case None =>
    case Some(i) =>
      ContentReadBack(files, i);
      FoundBytes(g, path, Written(files, i), files[i].data);
  }

  lemma FoundBytes(g: Setting, path: RootFs.CString, entry: RootFs.Entry, data: seq<byte>)
    requires RootFs.Lookup(g.files, path) == Some(entry) && entry.offset + entry.size <= |g.image|
    requires g.image[entry.offset..entry.offset + entry.size] == data
    ensures FileBytes(g, path) == Some(data)
  {
  }

  /** Booting the image built from some files starts a program exactly when the
      kernel mounts it and the first file at `/bin/hello` loads and passes the checks. */
  method Boot(kernel: Kernel, files: seq<SourceFile>, gdtOk: bool, tssOk: bool, kernelPde: nat)
    returns (started: bool, program: UserImage)
    requires kernel.Valid() && kernel.Untouched() && Buildable(files) && FileStart(files, |files|) < U32
    modifies kernel, kernel.rootfs, kernel.space.memory, kernel.space.table
    ensures started ==> kernel.Invariant() && !kernel.halted && program.Loaded?
    ensures started <==>
              && Mountable(files) && SourceBytes(files, HELLO_PATH).Some?
              && Startable(SourceBytes(files, HELLO_PATH).value, gdtOk, tssOk, kernelPde)
    ensures started ==> kernel.Starts(SourceBytes(files, HELLO_PATH).value, program)
  {
    var image := BuildImage(files);
    WellFormedIff(files);
    started, program := kernel.Boot(image, gdtOk, tssOk, kernelPde);
    if Mountable(files) {
      OpenFindsFirst(files, HELLO_PATH);
      ReadsSource(files, kernel.Setting(), HELLO_PATH);
    }
  }
}
