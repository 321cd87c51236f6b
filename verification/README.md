# MantleOS in Dafny

A model of the parts of MantleOS where code must agree with a simpler
specification, and proofs that it does. Paths below are paths of the MantleOS
repository.

* **Program loading** (`Elf`, `ElfLoader`, `ElfFile`): `mantle_elf_load` fills a 2 MiB
  window and 512 page-table entries in place; overlapping segments are resolved
  by order. The specification is the rule of the System V gABI, chapter 5, read
  as "the last segment that covers a byte, or touches a page, decides".
  `ring3_diagnostics` then tests two page-table entries. `ElfFile` writes
  executables field by field, as "ELF-64 Object File Format", version 1.5, lays
  them out, and says what the loader makes of them.
* **Root filesystem** (`RootFs`, `RootFsFile`, `RootFsBuild`, `RootFsListing`,
  `BuiltListing`): the RFS1 writer, the kernel's mount, open and list, and their
  round trip; `RootFsFile` says field by field which images are mounted.
* **EFI system partition** (`Esp`, `FatReader`): the FAT16 builder, and a reader
  written from the Microsoft FAT specification, version 1.03, that uses only the
  parameter block, the directories and the allocation chains.
* **Boot information** (`BootInfo`, `BootInfoBuild`, `BootTags`): the Multiboot2
  tag list the EFI loader writes and the two tag walks of the kernel that read it;
  `BootTags` writes any list of tags, as the Multiboot2 specification, version 2.0,
  lays them out.
* **System calls** (`Calls`, `Syscalls`, `Interface`): the dispatcher as a state machine over
  registers, descriptors, user memory and page table. `Calls` relates states;
  its theorems speak of every state of every run from boot on. The class `Kernel`
  makes the calls and returns the run it made as a sequence of states. `Interface`
  says what a program sees of them, in numbers, registers and bytes.
* **Mantle Script** (`ScriptLexer`, `ScriptSpelling`, `Script`,
  `ScriptInterpreter`, `ScriptSemantics`, `ScriptCorrectness`,
  `ScriptInterpolation`, `ScriptManual`): the one-pass interpreter with its skip
  mode, proved against a big-step semantics of the documented grammar, over source
  text with any comments, blanks and quotes.
* **Package transactions** (`Packages`, `Transactions`, `PackageManager`,
  `Manifest`): journal, installation, rollback and removal over a map from paths to
  contents, for every choice of failing steps; `Manifest` is about manifests as they
  are written.
* **From files to the first program** (`BootBuilt`): image builder, mount and boot
  path together.
* **Shell expansion** (`ShellExpand`) and **framebuffer drawing** (`Graphics`).

`Options`, `Bits`, `Bytes`, `Chars`, `Slices` and `Buffers` hold what the others share: C's
bit operators on numbers, little-endian integers, and facts about sequences. Words
of 32 and 64 bits are numbers; each wrap-around of the code that can matter is
written out with a remainder.

## Where the code does less than it promises

* A loaded image can fail the checks that follow it. `EntryPageCanBeLost` gives
  the bytes of an executable that loads and whose entry page is then not
  executable; `UserSpace.LoadAndCheck` says exactly when the checks pass.
* The partition builder accepts payloads of up to 65524 sectors, yet its image
  keeps its size, and its payload can be read back, only up to 32477; `Build`,
  `Capacity` and `EspRoundTrip` give the exact bounds.
* `install_package` logs a path before it copies the old content, never checks
  that the log reached the disk, and reuses the directory of an earlier process
  of the same number. A rollback that reports success therefore restores the files
  exactly if no path that the log on disk names is lost or stale (`RestoredExactly`,
  `RollbackIff`): lost if its file was not copied, stale if it had no file but an
  earlier transaction left a copy. If manifest or log did not open, the log is an
  earlier one, which must have nothing left to restore. `CutLogLoses` and
  `StaleBackupResurrects` show two of the ways; `Atomic` gives a condition on the
  faults under which none occurs.
* An installation that reports success may have installed less than its package.
  `InstalledIff` says exactly when it has installed all of it: every path of the
  manifest that the second loop does not copy must have held the payload's content
  before. The loop copies the paths that the log on disk still names, and none if the
  log cannot be reopened. `UnreadLogInstallsNothing` and `CutLogInstallsLess` show
  both ways; `WholeLogInstalls` says that a whole log, reopened, installs everything.
* `exit` leaves its operand in the source, which is then read as a statement
  (`ExitContinues`), whereas the documented grammar makes it part of `exit`.
  `ExitCode` says exactly when a block that starts with `exit` still ends with the
  code. With an operand that is no keyword the block ends with 2, or never if the
  lexer loops before the next closing brace, so only the code 2 survives. An operand
  that is a keyword has the code 0, and then the condition (`Quiet`) runs the rest of
  the block statement by statement: it must end without a failure.
* The documentation of Mantle Script writes `$0` and `$1` for arguments. To the
  code they are plain text (`DollarZero`); `ArgumentRead` says exactly which texts
  read an argument: those with a `${$`, the digits of its number, and no binding of
  that name.
* The shell copies a name without braces into a buffer of 256 characters without
  looking at its length. `OverrunExactly` says for which texts and buffers it
  overruns: when a name of more than 255 characters is reached while the output
  still has room. `LongNameOverruns` gives such a text.
* The search for a framebuffer tag checks no bound. `WalkFollows` relates it to the
  module search on every region, and `WalkAtStop` says what it does with the tag at
  which that search stops: it ends, never ends, or leaves the memory. It never ends at
  tags whose size rounds up to 0, and these the module search reports (`StuckLoops`).
* A listing is refused by a buffer that has exactly the room it needs, line break
  and NUL included: the test asks for one byte more (`BuiltListing.List`).
* One line never ends: the flat one over all 2^32 columns, because the column counter
  wraps. Any other sloped line up to the last column overflows, which C leaves
  undefined (`EndlessLine`). The splash draws no such line.
* `find_rootfs` recovers a module only if it is not empty and ends below 4 GiB;
  `RootfsRoundTrip` proves both directions.
* A statement that starts with a token that is no word is reported without being
  consumed, so `block` never ends. `StallTest` says it of a turn, `MainDiverges` of
  a whole script, whose tokens alone decide it.

## Model

| member | source | states |
|---|---|---|
| `ElfLoader.UserSpace.CopyBytes` | kernel/process/elf.c:53-59 | the addressed bytes become the source's, every other byte stays |
| `ElfLoader.UserSpace.ClearBytes` | kernel/process/elf.c:61-67 | the addressed bytes become zero, every other byte stays |
| `ElfLoader.UserSpace.InitTable` | kernel/arch/x86_64/kernel.c:88-95 | every page maps its own frame for ring 3, read-only and not executable |
| `ElfLoader.UserSpace.ResetTable` | kernel/process/elf.c:103-110 | before segments every page is read-only and not executable, save the sixteen writable stack pages |
| `ElfLoader.UserSpace.LoadSegment` | kernel/process/elf.c:139-155 | one accepted segment changes exactly the bytes it covers and the entries of the pages it touches |
| `ElfLoader.UserSpace.LoadNext` | kernel/process/elf.c:111-157 | after one more segment, window and table are those of the longer list of program headers |
| `ElfLoader.UserSpace.LoadProgram` | kernel/process/elf.c:111-157 | one turn of the loop: whether the header is acceptable, whether it covers the entry, and the window and table after it |
| `ElfLoader.UserSpace.LoadSegments` | kernel/process/elf.c:111-160 | the loop answers yes exactly for a loadable image, and leaves window and table as the segments before the first bad one make them |
| `ElfLoader.UserSpace.Load` | kernel/process/elf.c:79-164 | success exactly for images with a valid header, acceptable segments and a covered entry; the window and table left behind also on failure, when the segments before the first bad one stay loaded |
| `ElfLoader.HeaderTest` | kernel/process/elf.c:86-101 | the header tests accept exactly the well-formed headers |
| `ElfLoader.SegmentTest` | kernel/process/elf.c:124-135 | the tests on a segment, wrap-around and masks included, decide the gABI rules |
| `ElfLoader.AlignmentTest` | kernel/process/elf.c:131-135 | the two mask tests mean that the alignment is zero or a power of two modulo which address and offset agree |
| `ElfLoader.LastWriter` | kernel/process/elf.c:139-142 | a byte of the window comes from the last loadable segment that covers it |
| `ElfLoader.NoWriter` | kernel/process/elf.c:102 | a byte that no segment covers is zero |
| `ElfLoader.LastToucher` | kernel/process/elf.c:143-155 | a page has the permission of the last loadable segment that touches it |
| `ElfLoader.NoToucher` | kernel/process/elf.c:103-110 | a page that no segment touches has its default permission |
| `ElfLoader.NeverBoth` | kernel/process/elf.c:124-155 | no page is ever writable and executable at once |
| `ElfLoader.DisjointReadBack` | kernel/process/elf.c:111-157 | pairwise disjoint segments are found whole in the window: file bytes, then zeros |
| `ElfLoader.OwnPlace` | kernel/process/elf.c:145-154 | a page-table word of the loader sends every user address to its own place in the window |
| `ElfLoader.TranslatedReadBack` | kernel/process/elf.c:111-157 | read through the page table the loader leaves, every address of a disjoint segment holds the segment's byte |
| `ElfLoader.EntryPageCanBeLost` | kernel/process/elf.c:136-155 | the bytes of an image that loads and whose entry page ends up not executable |
| `Elf.OrFlags` | kernel/process/elf.c:145-154 | the words built with `\|` for a segment's pages are frame plus permission |
| `Elf.OrDefault` | kernel/process/elf.c:103-106 | likewise for the default pages |
| `Elf.OrStack` | kernel/process/elf.c:107-110 | likewise for the stack pages |
| `ElfLoader.WordTests` | kernel/arch/x86_64/kernel.c:245-247 | what the masks of the diagnostics read from a page-table word |
| `ElfLoader.GrantedTests` | kernel/arch/x86_64/kernel.c:245-250 | the page-table tests hold exactly when the entry page is executable, page 511 writable and the kernel's entry not for ring 3 |
| `ElfLoader.UserSpace.Diagnostics` | kernel/arch/x86_64/kernel.c:202-259 | the answer of the tests before ring 3, for every entry and stack; exactly when the top stack word becomes the sentinel, and that nothing else changes |
| `ElfLoader.UserSpace.LoadAndCheck` | kernel/arch/x86_64/kernel.c:434-445 | after a load, the tests pass exactly when the last segment on the entry page is executable and page 511 ends up writable; window and table are then the loaded ones, the sentinel aside |
| `ElfFile.HeaderReadBack` | kernel/process/elf.c:86-101 | a written header, field by field: the loader accepts it exactly if its fields are those of an x86-64 executable whose table lies in the file and whose entry lies in the window, and reads entry, offset and count as written |
| `ElfFile.ProgramsReadBack` | kernel/process/elf.c:39-49 | from a file that holds written program headers, with any physical addresses, the loader reads that list |
| `ElfFile.LoadFile` | kernel/process/elf.c:79-164 | loading a written file in terms of what was written: when it succeeds, entry and stack, window and page table, and every disjoint segment whole |
| `ElfFile.UntouchedWord` | kernel/process/elf.c:103-110 | the page-table word of a page without segments as a number: present, for ring 3, not executable, writable in the last 64 KiB of the window alone |
| `ElfFile.TouchedWord` | kernel/process/elf.c:143-155 | the word of a page on which some segment has a byte: writable and executable as the flag bits of the last such segment say |
| `RootFs.Cursors` | kernel/fs/rootfs.c:83-97 | the walk over the entries stops exactly at the first malformed one |
| `RootFs.CheckEntry` | kernel/fs/rootfs.c:86-96 | the checks on one entry pass exactly for a well-formed one |
| `RootFs.FileSystem.Mount` | kernel/fs/rootfs.c:66-102 | accepts exactly the well-formed images, for every byte sequence, and forgets the previous image in any case |
| `RootFsFile.LaidOutAccepted` | kernel/fs/rootfs.c:66-102 | an image with magic, count and well-formed records one behind the other is accepted, and its entries are those records |
| `RootFsFile.AcceptedLaidOut` | kernel/fs/rootfs.c:66-102 | every accepted image is laid out so |
| `RootFsFile.Mount` | kernel/fs/rootfs.c:66-102 | an image is mounted exactly if it is laid out so, and then has exactly its records |
| `RootFs.FileSystem.Mounted` | kernel/fs/rootfs.c:104-127 | every file of a mounted image lies inside it |
| `RootFs.PathEqual` | kernel/fs/rootfs.c:31-42 | true exactly for the stored path |
| `RootFs.Find` | kernel/fs/rootfs.c:112-126 | the walk without checks visits the validated entries and finds the first with the path |
| `RootFs.FileSystem.Open` | kernel/fs/rootfs.c:104-127 | the first entry with exactly the given path, or none |
| `RootFs.NameSeen` | kernel/fs/rootfs.c:44-64 | true exactly if the name is a word of the text so far |
| `RootFs.AppendName` | kernel/fs/rootfs.c:151-159 | a new name and a space are appended, or the buffer is too small; nothing outside the buffer changes |
| `RootFs.ListInto` | kernel/fs/rootfs.c:139-162 | the buffer holds the text of the listing, or the text does not fit |
| `RootFs.FileSystem.List` | kernel/fs/rootfs.c:129-169 | succeeds exactly when the text is not empty and leaves room for the terminator; then the buffer holds it closed by line break and NUL; never writes outside the buffer |
| `RootFsListing.DistinctFacts` | kernel/fs/rootfs.c:129-169 | removing repetitions keeps every element once, in the order of first appearances |
| `RootFsListing.JoinedWords` | kernel/fs/rootfs.c:44-64 | the words found in a listing are the names joined in it |
| `RootFsListing.SeenIs` | kernel/fs/rootfs.c:44-64 | in any text a name counts as seen exactly if it stands alone in it between spaces, line breaks and the ends |
| `RootFsListing.ExactListing` | kernel/fs/rootfs.c:139-169 | the listing is each first component once, in first-appearance order, when they hold no space or line break |
| `RootFsListing.NameIs` | kernel/fs/rootfs.c:146-149 | a path's first component is what stands between its first character and the next slash, NUL or end |
| `RootFsListing.NamesAre` | kernel/fs/rootfs.c:146-149 | of entries with paths `/first` or `/first/more` the names are the firsts |
| `RootFsListing.ListingIs` | kernel/fs/rootfs.c:139-162 | the listing of such entries is each first component once, in order, each followed by a space |
| `BuiltListing.List` | kernel/fs/rootfs.c:129-169 | listing an image built from files with such paths writes exactly the first components once each, in order, closed by line break and NUL; it fails exactly if the buffer is not larger than that text |
| `RootFsBuild.Build` | userspace/build-rootfs.py:11-40 | the image of the files, or an error for no file, a bad destination or a field too wide for its width |
| `RootFsBuild.DestinationIs` | userspace/build-rootfs.py:17-22 | a destination is accepted exactly if it is ASCII text that starts with a slash |
| `RootFsBuild.PackEntries` | userspace/build-rootfs.py:26-29 | the entry table with accumulated offsets, exactly when every field packs |
| `RootFsBuild.EntryPlaced` | userspace/build-rootfs.py:33-36 | each entry stands where the ones before it end |
| `RootFsBuild.DataPlaced` | userspace/build-rootfs.py:26-38 | each file's bytes stand at the offset its entry gives |
| `RootFsBuild.EntryAccepted` | userspace/build-rootfs.py:27-29 | the kernel reads back a written entry, and accepts it exactly if its path has at most 255 bytes |
| `RootFsBuild.CursorsMatch` | kernel/fs/rootfs.c:83-97 | the kernel's walk over a built image visits the entries where they were written |
| `RootFsBuild.WellFormedIff` | kernel/fs/rootfs.c:66-102 | a built image passes the kernel's checks exactly when it has at most 128 files and no path over 255 bytes |
| `RootFsBuild.MountAccepts` | kernel/fs/rootfs.c:66-102 | the kernel mounts a built image exactly when, moreover, it is smaller than 4 GiB, so that its size is a 32-bit number |
| `RootFsBuild.EntriesMatch` | userspace/build-rootfs.py:24-38 | a mounted built image lists the source files in order with their path, mode, offset and size |
| `RootFsBuild.OpenFindsFirst` | kernel/fs/rootfs.c:104-127 | opening any path finds the first source file with that destination, and nothing for every other path |
| `RootFsBuild.ContentReadBack` | userspace/build-rootfs.py:37-38 | the slice an opened entry names is the source's content |
| `RootFsBuild.OneFile` | userspace/build-rootfs.py:24-38 | the format written out: magic, count, path length, mode, offset, size, path and data of an image of one file |
| `Esp.Patch` | boot/efi/make-esp.py:41-84 | slice assignment replaces the bytes of the part and grows an image that is too short |
| `Esp.WriteBpb` | boot/efi/make-esp.py:40-58 | the boot sector holds the parameter block; later sectors stay |
| `Esp.SetFat` | boot/efi/make-esp.py:17-18 | one table entry changes and no other |
| `Esp.BuildFat` | boot/efi/make-esp.py:60-66 | the table of two directories and the payload chain, or an error exactly when the chain does not fit |
| `Esp.WriteDirectories` | boot/efi/make-esp.py:70-82 | the three directories hold their entries and end there |
| `Esp.Build` | boot/efi/make-esp.py:30-87 | the image holds parameter block, two tables, directories and payload; it exists exactly for 1 to 32764 sectors; its exact size |
| `Esp.Capacity` | boot/efi/make-esp.py:37 | the image keeps 32768 sectors exactly for payloads of at most 32477 sectors |
| `FatReader.VolumeReadBack` | boot/efi/make-esp.py:40-58 | the parameter block reads as a FAT16 volume of 32479 clusters |
| `FatReader.TablesAgree` | boot/efi/make-esp.py:67-68 | both tables are the intended one, entry by entry |
| `FatReader.PayloadChain` | boot/efi/make-esp.py:65-66 | the payload's chain is the run of consecutive clusters to its end mark |
| `FatReader.ChainsDisjoint` | boot/efi/make-esp.py:60-66 | the three chains share no cluster and end in end marks; the payload's does so exactly up to 32477 sectors |
| `FatReader.ChainOverflows` | boot/efi/make-esp.py:65-66 | a longer chain leaves the clusters of the volume |
| `FatReader.RunData` | boot/efi/make-esp.py:72-84 | the data of consecutive clusters is one slice of the image |
| `FatReader.FindThird` | boot/efi/make-esp.py:76-82 | behind the self and parent entries the named entry is found with its attribute, cluster and size |
| `FatReader.EspRoundTrip` | boot/efi/make-esp.py:30-87 | following EFI, BOOT, BOOTX64.EFI through directories and chains recovers exactly the payload of at most 32477 sectors, and finds no file for every larger one |
| `FatReader.Names` | boot/efi/make-esp.py:71-82 | the names the builder writes are the 8.3 names of the boot path |
| `BootInfo.ParseModule` | kernel/boot/multiboot2.c:8-38 | accepts exactly the module tags with the root filesystem's command line and a positive extent |
| `BootInfo.FindRootfs` | kernel/arch/x86_64/kernel.c:315-383 | on every region: the first accepted module before an end tag or malformed tag, and an error only for a malformed tag reached first |
| `BootInfo.FramebufferInit` | kernel/graphics/framebuffer.c:132-173 | on every memory: the state set and the status, or that the search never ends or leaves the memory |
| `BootInfo.WalkFollows` | kernel/graphics/framebuffer.c:143-172 | on every region the search takes the first framebuffer tag among the positions the module search visits, and without one goes on from where that stops |
| `BootInfo.ClosedWalk` | kernel/graphics/framebuffer.c:143-172 | on a closed list it ends at that tag or at the end tag |
| `BootInfo.WalkAtStop` | kernel/graphics/framebuffer.c:143-172 | without a framebuffer tag before it, the tag where the module search stops decides: exactly when the framebuffer search ends there, takes it, never ends, or goes on |
| `BootInfo.StuckLoops` | kernel/graphics/framebuffer.c:171 | at a tag whose size rounds up to 0 it never ends, where the module search reports an error |
| `BootInfo.PositionStep` | kernel/graphics/framebuffer.c:143-172 | a framebuffer tag decides where it stands; otherwise the search goes on behind the tag |
| `BootInfo.ClosedListIsValid` | kernel/arch/x86_64/kernel.c:332-382 | on a closed list the module search reports no error |
| `BootInfoBuild.BuildInfo` | boot/efi/loader.c:147-186 | the page holds total size, module tag, framebuffer tag if there is a mode, and end tag, with addresses cut to 32 bits |
| `BootInfoBuild.InfoPositions` | boot/efi/loader.c:161-183 | the written list is closed and its tags stand at 8 and 40 |
| `BootInfoBuild.RootfsRoundTrip` | boot/efi/loader.c:162-167 | for a root filesystem of any size: the kernel finds the loader's module exactly if it is not empty and ends below 4 GiB, and exactly when it finds none |
| `BootInfoBuild.ModuleName` | boot/efi/loader.c:162-167 | the command line is `mantle-rootfs` |
| `BootInfoBuild.ScreenRoundTrip` | boot/efi/loader.c:171-179 | the kernel finds the loader's tag, recovers address, pitch (four bytes a pixel), extent and channel positions exactly for a mode with an address, and uses it exactly if it has an extent too |
| `BootInfoBuild.NoScreen` | boot/efi/loader.c:169-180 | without a graphics mode the kernel finds no framebuffer |
| `BootTags.ReadInfo` | kernel/graphics/framebuffer.c:132-173 | from any list of written tags the kernel takes the first module with the root filesystem's command line and a positive extent, and the mode of the first framebuffer exactly if that is direct colour of 24 to 32 bits at an address |
| `Calls.StringAt` | kernel/syscall.c:71-85 | a user string is shorter than 128 characters and holds no NUL |
| `Syscalls.Kernel.StringLength` | kernel/syscall.c:71-85 | the length of the string at an address, or the error value if it does not end in the window within 128 characters |
| `Syscalls.Kernel.Write` | kernel/syscall.c:112-127 | the bytes of a valid buffer reach the console, NULs excepted |
| `Calls.Turns` | kernel/syscall.c:138-145 | reading stops after the first line break or the full length |
| `Syscalls.Kernel.Read` | kernel/syscall.c:129-146 | the typed bytes are stored at the buffer's start; nothing else in memory changes |
| `Syscalls.Kernel.OpenFile` | kernel/syscall.c:148-167 | the least free descriptor takes the file found, or nothing changes |
| `Syscalls.Kernel.Close` | kernel/syscall.c:210-215 | exactly the named open descriptor is given back |
| `Calls.TakingStep` | kernel/syscall.c:159-163 | opening adds one file to the descriptor map, and one to its count |
| `Calls.GivingStep` | kernel/syscall.c:210-215 | closing removes that descriptor's file alone |
| `Syscalls.Kernel.GetCwd` | kernel/syscall.c:236-250 | the directory and its NUL are stored if they fit; nothing else changes |
| `Syscalls.Kernel.Chdir` | kernel/syscall.c:222-235 | only the root directory is accepted |
| `Syscalls.Kernel.ReadDir` | kernel/syscall.c:251-256 | the listing is stored in the checked buffer; nothing outside it changes |
| `Syscalls.Kernel.Uname` | kernel/syscall.c:257-266 | seventeen bytes are stored if the buffer has eighteen |
| `Syscalls.Kernel.Exec` | kernel/syscall.c:169-188 | success sets entry and stack; failure keeps the registers; what memory and page table become in each case |
| `Syscalls.Kernel.Relaunch` | kernel/syscall.c:39-52 | it answers yes exactly if `/sbin/init` is there and loads, and what memory, table and registers become in both cases |
| `Syscalls.Kernel.Exit` | kernel/syscall.c:267-279 | the machine stops exactly if this is not the first exit or `/sbin/init` does not load; otherwise it is relaunched; all that changes in each case |
| `Syscalls.Kernel.Dispatch` | kernel/syscall.c:190-290 | each call relates the states before and after it by its effect and by what it leaves alone, and keeps the invariant |
| `Calls.FilesKept` | kernel/syscall.c:148-215 | over any call, open files stay files of the mounted image on descriptors from 3 on, and their count follows the successful opens and closes |
| `Calls.LoadedMapped` | kernel/process/elf.c:102-157 | however far a load gets, every entry maps its own frame and none is writable and executable |
| `Calls.TableKept` | kernel/syscall.c:39-52 | no call, not even a failed `exec` or relaunch, makes a page writable and executable or moves its frame |
| `Calls.CallKeepsSound` | kernel/syscall.c:190-290 | whatever a call does, the state after it is sound |
| `Calls.OnlyTheWindow` | kernel/process/elf.c:103-155 | in a sound state every user address is mapped to its own place in the window |
| `Syscalls.Kernel.Boot` | kernel/arch/x86_64/kernel.c:427-445 | booting starts a program exactly when the image mounts, `/bin/hello` is there, loads and passes the checks; the invariant then holds, and entry, stack, window and table are the program's |
| `BootBuilt.ReadsSource` | kernel/fs/rootfs.c:104-127 | from a mounted built image the kernel reads, at every path, the first source file with it |
| `BootBuilt.Boot` | kernel/arch/x86_64/kernel.c:427-445 | booting an image built from some files starts a program exactly when the kernel mounts it and the first file at `/bin/hello` loads and passes the checks, and with what it starts |
| `Syscalls.Kernel.Run` | kernel/syscall.c:190-290 | any sequence of calls makes a run: consecutive states are related by the call between them, and it ends early only when a call stops the machine |
| `Calls.RunSound` | kernel/syscall.c:190-290 | every state of every run from a sound one is sound: one relaunch and one marker at most, table, descriptors and process record in order |
| `Calls.StopsExactly` | kernel/syscall.c:267-284 | a call stops the machine exactly if it is `reboot`, an exit after the relaunch, or an exit for which `/sbin/init` does not load |
| `Calls.RecordGrows` | kernel/syscall.c:190-290 | over a run the console only grows, and neither marker nor relaunch is taken back |
| `Calls.SecondExitStops` | kernel/syscall.c:267-279 | of two exits in a run the second stops the machine and is the last call |
| `Calls.KeysDelivered` | kernel/syscall.c:129-146 | over a whole run no key is lost, repeated or reordered: the calls of `read` together deliver the next stretch of the keyboard's stream |
| `Interface.KernelTexts` | kernel/syscall.c:190-279 | the texts the kernel writes and looks for, character by character |
| `Interface.ResultRead` | kernel/syscall.c:198-289 | a result register read as a signed 64-bit number is the result; an error is all ones |
| `Interface.StringRead` | kernel/syscall.c:71-85 | the kernel reads a text from an address exactly if text and terminator stand there in the window and it is shorter than 128 characters |
| `Interface.Answered` | kernel/syscall.c:190-290 | a call that returns leaves its result in the result register, and every other register as it was |
| `Interface.WriteShows` | kernel/syscall.c:112-127 | call 1 on descriptor 1 or 2 with a buffer in the window: the result is its length, and the console gets exactly the buffer if no byte of it is NUL |
| `Interface.WriteRefused` | kernel/syscall.c:115-118 | on any other descriptor or from outside the window it fails and shows nothing |
| `Interface.ReadDelivers` | kernel/syscall.c:129-146 | call 0 stores the next keys at the buffer's start, up to the first line break or a full buffer, and nothing else in memory changes |
| `Interface.OpenTakes` | kernel/syscall.c:148-167 | call 2 of a path in memory: the first file with it gets the least free descriptor from 3 to 7 |
| `Interface.CloseGives` | kernel/syscall.c:210-215 | call 3 gives an open descriptor back, and fails on any other |
| `Interface.PidIsOne` | kernel/syscall.c:219-221 | call 8 answers 1 |
| `Interface.ChdirRoot` | kernel/syscall.c:222-235 | call 9 accepts `/` alone |
| `Interface.CwdIsRoot` | kernel/syscall.c:236-250 | call 10 stores `/` and a NUL into a buffer of two bytes or more |
| `Interface.UnameTells` | kernel/syscall.c:257-266 | call 14 stores the system's name into a buffer of eighteen bytes or more |
| `Interface.ReadDirRefused` | kernel/syscall.c:251-256 | call 13 fails on any directory but `/` and on a buffer outside the window |
| `Interface.ExecStarts` | kernel/syscall.c:169-188 | call 6 of a file that loads starts at the image's entry with the stack at 0x600000, and window and table are the image's |
| `Interface.ExecFails` | kernel/syscall.c:169-188 | of a file that does not load, or of none, it fails and leaves the registers alone |
| `Interface.ExitRelaunches` | kernel/syscall.c:267-273 | the first call 11 starts `/sbin/init` at its entry, if that loads, with its window and table |
| `Interface.ExitStops` | kernel/syscall.c:274-279 | every other call 11 stops the machine with the farewell on the console and the exit code in signed 32 bits |
| `Interface.StopNumbers` | kernel/syscall.c:267-284 | calls 11 and 12: when they stop the machine |
| `Interface.UnknownNumber` | kernel/syscall.c:285-289 | every other number fails; but for the announcement nothing changes |
| `ScriptLexer.LexAt` | scripting/mantle-script.c:15-21 | a token other than end or an empty word moves forward; an empty word stands at a character no rule consumes |
| `ScriptLexer.LexIsNext` | scripting/mantle-script.c:15-21 | lexing again moves to the rest of the token stream |
| `ScriptLexer.Lexer.Lex` | scripting/mantle-script.c:15-21 | the loops of the lexer compute that token |
| `ScriptSpelling.WrittenTokens` | scripting/mantle-script.c:15-21 | lexing a source written from blanks, comments, line breaks, signs, bare words and quoted strings, closed or not, gives the tokens of its pieces |
| `ScriptSpelling.EverySource` | scripting/mantle-script.c:15-21 | every source is written from such pieces, so its tokens are those of its pieces |
| `ScriptSpelling.CommentSkipped` | scripting/mantle-script.c:17 | a comment reaches to the end of its line and no further; at the end of the source it leaves the end |
| `ScriptSpelling.SpellRoundTrip` | scripting/mantle-script.c:15-21 | every stream of tokens that can be written has a source that lexes to it |
| `ScriptInterpreter.Interpreter.Get` | scripting/mantle-script.c:22 | the first binding, else argument or environment |
| `ScriptInterpreter.Interpreter.Interpolate` | scripting/mantle-script.c:23 | the buffer holds the first `cap - 1` characters of the unbounded expansion and a terminator |
| `ScriptInterpolation.PartsExpand` | scripting/mantle-script.c:23 | a text written from plain stretches, references and unclosed references expands to their meanings in order |
| `ScriptInterpolation.EveryTextExpands` | scripting/mantle-script.c:23 | every text is written from such parts, and so expands to their meanings |
| `ScriptInterpolation.DollarZero` | docs/mantle-script.md:19 | the documented spelling `$0` of an argument stands for itself |
| `ScriptInterpolation.ArgumentUnread` | scripting/mantle-script.c:22-23 | a text that does not ask for an argument is the same for every value of it |
| `ScriptInterpolation.ArgumentRead` | scripting/mantle-script.c:22-23 | some value of an argument changes a text exactly if one of its references asks for the argument's number and is not bound |
| `ScriptInterpreter.Interpreter.Execute` | scripting/mantle-script.c:28-37 | `statement` does on every source what the statement function says; what commands exist and how they end may depend on what ran before |
| `ScriptInterpreter.Interpreter.RunBlock` | scripting/mantle-script.c:38 | `block` does on every source what the block function says, and says when it never ends |
| `ScriptInterpreter.RunSource` | scripting/mantle-script.c:39 | a script ends with the state and status of its block, or never |
| `ScriptInterpreter.StallTest` | scripting/mantle-script.c:29 | a turn of `block` makes no progress exactly if it starts at a token that is neither word nor line break |
| `ScriptSemantics.StatementControl` | scripting/mantle-script.c:28-37 | where a statement ends, and whether, depends on the source alone; skipped statements change nothing |
| `ScriptSemantics.BlockControl` | scripting/mantle-script.c:38 | likewise for blocks, whose status is unchanged when skipped |
| `ScriptSemantics.MainDiverges` | scripting/mantle-script.c:38-39 | a script never ends exactly if its tokens have no end of block, whatever its environment |
| `ScriptSemantics.StatementAdvances` | scripting/mantle-script.c:28-37 | a statement that starts with a word consumes at least it |
| `ScriptSemantics.NoProgressRepeats` | scripting/mantle-script.c:29 | a turn without progress leaves lexer, bindings and trace as they were |
| `ScriptCorrectness.SearchFindsFirst` | scripting/mantle-script.c:22 | the search over the array is a map in which the first binding stays |
| `ScriptCorrectness.StatementCorrect` | docs/mantle-script.md:7-16 | a statement runs as the big-step semantics says, whatever follows; only the arguments of `run` end before a token that is no text |
| `ScriptCorrectness.BlockCorrect` | scripting/mantle-script.c:38 | a program has the same trace, bindings and last nonzero status as the semantics, at any nesting and for any layout of line breaks |
| `ScriptCorrectness.SourceCorrect` | docs/mantle-script.md:7-16 | the same of every source whose tokens are a program's, however it is spelled |
| `ScriptCorrectness.SpelledCorrect` | scripting/mantle-script.c:15-39 | in particular of a source written piece by piece, comments included, whose pieces are the tokens of the program |
| `ScriptCorrectness.ExitContinues` | scripting/mantle-script.c:35 | after `exit` the block goes on with the operand as the next statement, for every operand and rest |
| `ScriptCorrectness.UnknownEnds` | scripting/mantle-script.c:36 | an operand that is no keyword ends the block at the next closing brace with status 2, or never |
| `ScriptCorrectness.QuietIff` | scripting/mantle-script.c:38 | a block ends with status 0 exactly if it ends and every statement it runs has status 0 |
| `ScriptCorrectness.ExitCode` | scripting/mantle-script.c:35-38 | exactly when a block that starts with `exit` ends with the code, over every operand and every rest |
| `ScriptManual.CodeRead` | scripting/mantle-script.c:35 | an optional sign and a decimal number are read as the number, whatever follows its digits; a text without a number is 0 |
| `ScriptManual.ScriptArgument` | scripting/mantle-script.c:22 | the name `$` and a decimal number is that argument of the script, or nothing |
| `ScriptManual.TextLimit` | scripting/mantle-script.c:23-37 | a text is its expansion cut to 511 characters |
| `ScriptManual.RunLimit` | scripting/mantle-script.c:33 | `run` passes its first 63 texts on, in order, and without texts runs nothing |
| `ScriptManual.LetLimit` | scripting/mantle-script.c:31 | `let` binds at most 128 times; a name keeps its first 63 characters and its first value |
| `ScriptManual.Malformed` | scripting/mantle-script.c:31-35 | a statement whose first places are filled as the grammar asks and whose next one is not ends at that token with status 2 and has done nothing |
| `ScriptManual.NoBrace` | scripting/mantle-script.c:34 | so does a condition that no opening brace follows, on its line or a later one |
| `ScriptManual.NotAWord` | scripting/mantle-script.c:29 | so does what starts with a string, a sign or a brace |
| `Packages.ManifestPath` | services/mantle.c:65-68 | an accepted line names a safe path that fits |
| `Manifest.SafeIs` | services/mantle.c:33-39 | a path is safe exactly if it is not empty, does not start with a slash, holds no two dots side by side, and no character outside a written alphabet |
| `Manifest.WrittenRead` | services/mantle.c:65-68 | every line of spaces, 64 hexadecimal digits, spaces, `payload/` and a safe path of at most 4087 characters names that path |
| `Manifest.ReadWritten` | services/mantle.c:65-68 | every line that names a path is so written |
| `Manifest.DocumentedLine` | docs/mantle-package.md:20-25 | the documented form of a line names the path behind `payload/` |
| `Manifest.AcceptedExactly` | services/mantle.c:40-44 | a line is accepted for a path exactly if it is so written and the path is none of seven reserved ones |
| `Manifest.SmoothSuccess` | services/mantle.c:95-106 | an installation whose steps all work and that succeeds has put the payload's content at exactly the paths asked for |
| `Manifest.InstallLines` | services/mantle.c:95-106 | installing any manifest with working steps: code 0 exactly if every line asks for a path of the payload; then exactly those paths hold its content, the database lists them in order, and the transaction is marked |
| `Packages.LogRoundTrip` | services/mantle.c:91-103 | the path list read back is the list written |
| `Packages.CutRead` | services/mantle.c:91-103 | however short the log is cut, what is read back are the whole lines left and the beginning of the next path |
| `Packages.CutSafe` | services/mantle.c:92 | what is left of safe paths are safe paths, which rollback acts on |
| `Transactions.JournalSafe` | services/mantle.c:101 | every logged path is safe and fits a line of the log |
| `Transactions.BackupIs` | services/mantle.c:101 | the backup of a path is its present content if it was copied, else what an earlier transaction left |
| `Transactions.BackupMatches` | services/mantle.c:98-101 | the backup has what the files have exactly at paths neither lost nor stale |
| `Transactions.UndoRestores` | services/mantle.c:90-94 | a rollback without failing steps restores every logged path and nothing else |
| `Transactions.JournalIsManifest` | services/mantle.c:101 | the journal of a manifest that passed has every line's path, in order |
| `Transactions.SuccessFiles` | services/mantle.c:98-105 | after a success every path the log on disk names has the payload's content, and every other path what it had |
| `Transactions.InstalledIff` | services/mantle.c:98-105 | a success has installed every path of the manifest exactly if the paths it did not copy held the payload's content already |
| `Transactions.WholeLogInstalls` | services/mantle.c:98-105 | with a log that reached the disk and was reopened a success has installed every path |
| `Transactions.UnreadLogInstallsNothing` | services/mantle.c:103 | if the log cannot be reopened, a journal without a failure is a success that changes no file |
| `Transactions.CutLogInstallsLess` | services/mantle.c:101-103 | a log cut after the first of two lines is a success that installs the first path alone |
| `Transactions.InstallTouches` | services/mantle.c:103 | copies touch logged paths alone, whatever an interrupted one leaves |
| `Transactions.RollsBackTwice` | services/mantle.c:90-94 | a rollback after a rollback, both with status 0, changes nothing |
| `Transactions.RestoredIff` | services/mantle.c:90-94 | undoing any state that differs in the named paths alone restores the files exactly if no named path is lost or stale |
| `Transactions.RollbackIff` | services/mantle.c:90-104 | the same after an installation with any directory, log cut and failing steps |
| `Transactions.RestoredExactly` | services/mantle.c:90-104 | a rollback that reports success after an installation restores the files exactly under that condition |
| `Transactions.WorkingRollback` | services/mantle.c:90-94 | a rollback all of whose steps work reports success |
| `Transactions.OrderlyUndoable` | services/mantle.c:95-104 | with a new directory, a whole log and every backup copy made no path is lost or stale |
| `Transactions.Atomic` | services/mantle.c:90-106 | then any interrupted installation, rolled back by working steps, leaves the files as they were and status 0 |
| `Transactions.FailureUndone` | services/mantle.c:98-104 | the files and status after a failed installation and its rollback, in general and in an orderly directory |
| `Transactions.CutLogLoses` | services/mantle.c:101-102 | a log cut from `etc/passwd-new` to `etc/passwd` loses that file |
| `Transactions.RemovalClears` | services/mantle.c:108-110 | a removal without failing steps leaves no listed path and touches nothing else |
| `Transactions.RemovalAfterInstall` | services/mantle.c:108-110 | removing an installed package restores the files exactly if no path its log names held a file |
| `Transactions.StaleBackupResurrects` | services/mantle.c:98-101 | at every stale path of any installation a working rollback leaves the earlier transaction's content |
| `PackageManager.Host.WriteJournal` | services/mantle.c:101 | the first loop writes the journal as a function of the lines, of failing copies and of an arbitrary earlier backup |
| `PackageManager.Host.CopyPayload` | services/mantle.c:103 | the second loop copies until its first failure |
| `PackageManager.Host.Rollback` | services/mantle.c:90-94 | the files and the status 0, 1 or 2 over the paths that the log names |
| `PackageManager.Host.Attempt` | services/mantle.c:98-103 | both loops, in a directory that may have been used |
| `PackageManager.Host.Carry` | services/mantle.c:95-106 | both loops, then the rollback or the record: files, directory, database and both statuses |
| `PackageManager.Host.Install` | services/mantle.c:95-106 | the same; a success has installed the package exactly when the log on disk let it, a failure whose rollback succeeds is undone exactly if it can be, and always with working steps in an orderly directory |
| `PackageManager.Host.Remove` | services/mantle.c:108-110 | which files go, the status as a function of failing unlinks, and the list goes; or the error for an unknown name |
| `PackageManager.Host.InstallThenUnwind` | services/mantle.c:90-104 | any sequence of installations, rolled back in reverse order, restores the files if each can be undone, and is carried through exactly if all installations succeed and all undo steps work |
| `PackageManager.OrderlyUnwinds` | services/mantle.c:90-104 | orderly installations can each be undone, and working rollbacks undo them |
| `ShellExpand.Expand` | shell/mantle-shell.c:19-26 | no result exactly if the name buffer is overrun; else the buffer holds the first `cap - 1` characters of the unbounded expansion and a terminator |
| `ShellExpand.Read` | shell/mantle-shell.c:20-24 | one turn of the loop reads one piece of the text, unless its name is too long for the buffer |
| `ShellExpand.PartsExpand` | shell/mantle-shell.c:19-26 | a text written from plain characters and references, closed, unclosed or cut, expands to their values in order |
| `ShellExpand.EveryTextExpands` | shell/mantle-shell.c:19-26 | every text is written from such parts, and so expands to their values |
| `ShellExpand.References` | shell/mantle-shell.c:19-26 | `$?` is 0 after a success and else 1; `$name` and `${name}` are the variable's value or nothing |
| `ShellExpand.OverrunExactly` | shell/mantle-shell.c:20-23 | the buffer is overrun exactly if some part is a name without braces of more than 255 characters and the expansion of the parts before it leaves room |
| `ShellExpand.LongNameOverruns` | shell/mantle-shell.c:20-23 | 256 letters after a `$` overrun it |
| `Graphics.ColumnRow` | kernel/graphics/framebuffer.c:94-102 | with truncating division the row of a column is the one point less than a unit behind the exact line |
| `Graphics.LineShape` | kernel/graphics/framebuffer.c:71-103 | for columns in one half of the 32-bit range the painted pixels are exactly the points of the line in signed coordinates |
| `Graphics.Ends` | kernel/graphics/framebuffer.c:94-102 | a line hits both ends |
| `Graphics.Monotone` | kernel/graphics/framebuffer.c:97-102 | a line never turns back |
| `Graphics.Between` | kernel/graphics/framebuffer.c:97-102 | a line stays between the rows of its ends |
| `Graphics.PixelOfByte` | kernel/graphics/framebuffer.c:53 | the byte ranges of two pixels are disjoint and margins belong to none |
| `Graphics.OffsetInside` | kernel/graphics/framebuffer.c:53 | a pixel on the screen lies in any memory that reaches the end of the last row |
| `Graphics.FitsExactly` | kernel/graphics/framebuffer.c:53 | a memory holds every pixel of the screen exactly if it reaches the end of the last row's pixels |
| `Graphics.InkAt` | kernel/graphics/framebuffer.c:54-56 | byte `i` of a pixel is digit `i` of its colour in base 256 |
| `Graphics.QuotientIs` | kernel/graphics/framebuffer.c:100 | the division of a line leaves a remainder smaller than the divisor, with the dividend's sign, whichever way the line runs |
| `Graphics.LastPainter` | kernel/graphics/framebuffer.c:45-57 | on any layout, rows overlapping or not, a byte has what the last pixel that covers it put there |
| `Graphics.NoPainter` | kernel/graphics/framebuffer.c:45-57 | a byte that no painted pixel covers stays |
| `Graphics.DrawnPainted` | kernel/graphics/framebuffer.c:45-57 | when rows do not overlap, exactly the pixels of the points on the screen get the colour |
| `Graphics.PixelBytes` | kernel/graphics/framebuffer.c:45-57 | byte by byte: a drawn pixel of the screen has the digits of its colour in base 256, low one first, and any other what it had |
| `Graphics.OtherBytes` | kernel/graphics/framebuffer.c:45-57 | on any layout a byte that belongs to no pixel of the screen stays |
| `Graphics.AreaShape` | kernel/graphics/framebuffer.c:59-69 | the painted pixels of a rectangle are those of the area |
| `Graphics.Canvas.Pixel` | kernel/graphics/framebuffer.c:45-57 | exactly the pixel's bytes get the colour, and none off the screen, on every layout |
| `Graphics.EndlessLine` | kernel/graphics/framebuffer.c:97-102 | a sloped line up to the last column has defined arithmetic exactly if it is flat and starts at the first column |
| `Graphics.Canvas.Line` | kernel/graphics/framebuffer.c:71-103 | for all 32-bit coordinates whose arithmetic C defines at every column visited: the pixels of the line are painted in order, and exactly which line never ends |
| `Graphics.Canvas.Rectangle` | kernel/graphics/framebuffer.c:59-69 | the pixels of the area are painted row by row, its bounds wrapping at 32 bits and cut at the screen |

## Left out

- Null-pointer arguments: a caller of the model always has the object.
- Console output of the boot path and of the tag walk, messages on standard error and line numbers.
- Port I/O, MSR writes, interrupt tables, CR3 and the entry assembly; the values of GDT, TSS and the kernel's first page directory entry are inputs.
- The word below the window that the stack test overwrites when a stack lies at the window's base: it is kernel memory, which the model does not hold.
- Keyboard scan codes: the keyboard is a stream of bytes, and nothing is said about which keys it can deliver.
- `mantle_process` fields other than pid, state, exit code and working directory, which nothing reads.
- UEFI calls: the mode, the page and the placement of the root filesystem are inputs of `build_info`; loading the kernel and the jump to it are not modelled.
- The splash that `mantle_framebuffer_init` draws.
- `Graphics.Canvas.Line`: signed 32-bit arithmetic is required not to overflow, which C leaves undefined; what a line that never ends paints is not said.
- What the memory behind the shell's name buffer holds after an overrun.
- The shell's word splitting, pipelines, redirections and builtins.
- Mantle Script: arguments beyond the range of `atoi`, the search of the `PATH`, and how a command runs; the commands that exist and a command's status are functions of the events before it. Changes of the environment by a script do not exist.
- A run that never ends is an outcome, such as `Diverges`, where the code would loop for ever.
- `ScriptCorrectness.BlockCorrect`: in a program `exit` stands last in its block with an operand that is no keyword; the semantics gives it the code's meaning. `ExitContinues` and `ExitCode` cover every other operand and rest.
- Packages: archive, signature and hash checks, directories, symbolic links, file modes, two spellings of one path (`a//b`), manifest lines longer than the read buffer, and partly written backup copies.
- Packages: paths of more than about 4050 characters. Their backup path, transaction directory included, is cut at 4095 characters, so rollback may look for another file than the one written.
- The package database is not undone by a rollback, in the code and in the model.
- Reading input files, command lines and the writing of the built images to disk.
- `init/`, `system/`, `site/`, the supervisor, the control tool and the small programs of `userspace/`: they start processes, print, and compare strings.
