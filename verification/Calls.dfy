/** What the system calls do: relations on states, and what whole runs keep. */
module Calls {
  import opened Options
  import opened Bytes
  import opened Bits
  import opened Elf
  import opened ElfLoader
  import RootFs

  const SYS_READ: int := 0
  const SYS_WRITE: int := 1
  const SYS_OPEN: int := 2
  const SYS_CLOSE: int := 3
  const SYS_EXEC: int := 6
  const SYS_GETPID: int := 8
  const SYS_CHDIR: int := 9
  const SYS_GETCWD: int := 10
  const SYS_EXIT: int := 11
  const SYS_REBOOT: int := 12
  const SYS_READDIR: int := 13
  const SYS_UNAME: int := 14

  const CALLS: set<int> := {SYS_READ, SYS_WRITE, SYS_OPEN, SYS_CLOSE, SYS_EXEC, SYS_GETPID, SYS_CHDIR,
                            SYS_GETCWD, SYS_READDIR, SYS_UNAME, SYS_EXIT, SYS_REBOOT}

  const MAX_PATH: nat := 128
  const MAX_FDS: nat := 8
  const NO_STRING: nat := 0xffff_ffff
  const NEWLINE: byte := 0x0a
  const SLASH: byte := 0x2f

  /** "MantleOS x86_64" and two NULs. */
  const SYSTEM_NAME: seq<byte> := [0x4d, 0x61, 0x6e, 0x74, 0x6c, 0x65, 0x4f, 0x53, 0x20,
                                   0x78, 0x38, 0x36, 0x5f, 0x36, 0x34, 0, 0]

  /** "MANTLE_USERSPACE_OK" and a line break. */
  const MARKER: seq<byte> := [0x4d, 0x41, 0x4e, 0x54, 0x4c, 0x45, 0x5f,
                              0x55, 0x53, 0x45, 0x52, 0x53, 0x50, 0x41, 0x43, 0x45, 0x5f, 0x4f, 0x4b, 0x0a]

  /** "MANTLE_USERSPACE_EXIT" and a line break. */
  const FAREWELL: seq<byte> := [0x4d, 0x41, 0x4e, 0x54, 0x4c, 0x45, 0x5f,
                                0x55, 0x53, 0x45, 0x52, 0x53, 0x50, 0x41, 0x43, 0x45, 0x5f, 0x45, 0x58, 0x49, 0x54,
                                0x0a]

  /** "/sbin/init" */
  const INIT_PATH: RootFs.CString := [0x2f, 0x73, 0x62, 0x69, 0x6e, 0x2f, 0x69, 0x6e, 0x69, 0x74]

  /** "/bin/hello" */
  const HELLO_PATH: RootFs.CString := [0x2f, 0x62, 0x69, 0x6e, 0x2f, 0x68, 0x65, 0x6c, 0x6c, 0x6f]

  datatype Descriptor = Descriptor(used: bool, file: RootFs.Entry, offset: nat)

  datatype ProcessState = Ready | Running | Exited

  /** The registers a system call reads and writes. */
  datatype Frame = Frame(rax: nat, rdi: nat, rsi: nat, rdx: nat, rip: nat, rsp: nat)

  /** The text of a string in user memory, when it is shorter than 128 characters
      and its terminator lies in the window. */
  function StringAt(memory: seq<byte>, address: nat): (r: Option<seq<byte>>)
    requires |memory| == WINDOW
    ensures r.Some? ==> |r.value| < MAX_PATH && 0 !in r.value
  {
    if !UserRange(address, 1) then None
    else
      var n := Length(memory, address - USER_BASE, 0);
      if n < MAX_PATH && address - USER_BASE + n < WINDOW
      then Some(memory[address - USER_BASE..address - USER_BASE + n]) else None
  }

  /** The number of nonzero bytes from `at + i` on, counted up to 128 and to the end. */
  function Length(memory: seq<byte>, at: nat, i: nat): (n: nat)
    requires i <= MAX_PATH && at + i <= |memory|
    ensures i <= n <= MAX_PATH && at + n <= |memory|
    ensures forall k :: at + i <= k < at + n ==> memory[k] != 0
    ensures n < MAX_PATH && at + n < |memory| ==> memory[at + n] == 0
    decreases MAX_PATH - i, |memory|
  {
    if i < MAX_PATH && at + i < |memory| && memory[at + i] != 0 then Length(memory, at, i + 1) else i
  }

  /** What the console shows of a byte string: a NUL shows nothing. */
  function Shown(text: seq<byte>): seq<byte> {
    if text == [] then []
    else Shown(text[..|text| - 1]) + if text[|text| - 1] == 0 then [] else [text[|text| - 1]]
  }

  /** How many of `n` turns the keyboard loop makes: it stops after a line break. */
  function Turns(keys: nat -> byte, from: nat, n: nat): (r: nat)
    ensures r <= n && (n > 0 ==> r > 0)
    ensures r < n ==> keys(from + r - 1) == NEWLINE
    ensures forall k: nat :: from <= k && k + 1 < from + r ==> keys(k) != NEWLINE
    decreases n
  {
    if n == 0 then 0
    else if keys(from) == NEWLINE then 1
    else 1 + Turns(keys, from + 1, n - 1)
  }

  /** The next `n` keys. */
  function Keys(keys: nat -> byte, from: nat, n: nat): (r: seq<byte>)
    ensures |r| == n
    ensures forall k: nat :: from <= k < from + n ==> r[k - from] == keys(k)
  {
    if n == 0 then [] else Keys(keys, from, n - 1) + [keys(from + n - 1)]
  }

  /** What a `read` of `n` bytes delivers. */
  function Typed(keys: nat -> byte, from: nat, n: nat): seq<byte> {
    Keys(keys, from, Turns(keys, from, n))
  }

  /** The open files of a descriptor table. */
  function OpenFiles(ds: seq<Descriptor>): map<int, RootFs.Entry> {
    map fd: int | 0 <= fd < |ds| && ds[fd].used :: ds[fd].file
  }

  /** The least descriptor from `fd` on that is free, or the size of the table. */
  function LeastFree(ds: seq<Descriptor>, fd: nat): (r: nat)
    requires fd <= |ds|
    ensures fd <= r <= |ds|
    ensures r < |ds| ==> r !in OpenFiles(ds)
    ensures forall i :: fd <= i < r ==> i in OpenFiles(ds)
    decreases |ds| - fd
  {
    if fd == |ds| || !ds[fd].used then fd else LeastFree(ds, fd + 1)
  }

  /** Taking a free descriptor adds one file ... */
  lemma TakingStep(ds: seq<Descriptor>, fd: nat, file: RootFs.Entry)
    requires fd < |ds|
    ensures OpenFiles(ds[fd := Descriptor(true, file, 0)]) == OpenFiles(ds)[fd := file]
    ensures fd !in OpenFiles(ds) ==> |OpenFiles(ds[fd := Descriptor(true, file, 0)])| == |OpenFiles(ds)| + 1
  {
  }

  /** ... and giving one back removes it alone. */
  lemma GivingStep(ds: seq<Descriptor>, fd: nat)
    requires fd < |ds|
    ensures OpenFiles(ds[fd := ds[fd].(used := false)]) == OpenFiles(ds) - {fd}
    ensures fd in OpenFiles(ds) ==> |OpenFiles(ds[fd := ds[fd].(used := false)])| == |OpenFiles(ds)| - 1
  {
    MapShrinks(OpenFiles(ds), fd);
  }

  lemma MapShrinks(m: map<int, RootFs.Entry>, fd: int)
    ensures |m - {fd}| == if fd in m then |m| - 1 else |m|
  {
    if fd in m {
      assert m == (m - {fd})[fd := m[fd]];
    } else {
      assert m - {fd} == m;
    }
  }

  /** One successful call, if the call was made. */
  function Counted(made: bool, result: int): nat {
    if made && result >= 0 then 1 else 0
  }

  /** A negative result as an unsigned register. */
  function Encoded(result: int): nat
    requires -U32 < result < U32
  {
    if result < 0 then U64 + result else result
  }

  /** The low 32 bits as a signed number. */
  function Int32(v: nat): int {
    if v % U32 >= 0x8000_0000 then v % U32 - U32 else v % U32
  }

  /** The bytes a system call may write, as window offsets [from, to). */
  function Buffer(frame: Frame): (nat, nat) {
    var call := frame.rax % U32;
    if call == SYS_READ || call == SYS_READDIR then
      if UserRange(frame.rsi, frame.rdx) then (frame.rsi - USER_BASE, frame.rsi - USER_BASE + frame.rdx) else (0, 0)
    else if call == SYS_GETCWD || call == SYS_UNAME then
      if UserRange(frame.rdi, frame.rsi) then (frame.rdi - USER_BASE, frame.rdi - USER_BASE + frame.rsi) else (0, 0)
    else (0, 0)
  }

  lemma {:induction false} LookupIn(es: seq<RootFs.Entry>, path: seq<byte>)
    ensures RootFs.Lookup(es, path).Some? ==> RootFs.Lookup(es, path).value in es
  {
    if es != [] {
      LookupIn(es[1..], path);
    }
  }

  function Content(image: seq<byte>, file: RootFs.Entry): (r: seq<byte>)
    requires file.offset + file.size <= |image|
    ensures |r| == file.size
  {
    image[file.offset..file.offset + file.size]
  }

  /** An image that loads and whose mapping passes the checks before ring 3. */
  ghost predicate Startable(image: seq<byte>, gdtOk: bool, tssOk: bool, kernelPde: nat) {
    && Loadable(image) && UserRange(Entry(image), 1)
    && gdtOk && tssOk && And(kernelPde, 0x4) == 0
    && PermissionAfter(Programs(image), Phnum(image), EntryPage(Entry(image))).exec
    && PermissionAfter(Programs(image), Phnum(image), 511).write
  }

  // ----- States -----

  /** What no call changes: where the window's frames start, the files of the
      mounted image, and the characters the keyboard delivers. */
  datatype Given = Given(base: nat, files: seq<RootFs.Entry>, image: seq<byte>, keys: nat -> byte)

  type Setting = g: Given |
      && (forall e :: e in g.files ==> 1 <= |e.path| && e.offset + e.size <= |g.image|)
      && (g.files != [] ==> |g.image| < U32)
    ghost witness Given(0, [], [], _ => 0)

  /** The kernel's state at a moment. */
  datatype State = State(memory: seq<byte>, table: seq<nat>, descriptors: seq<Descriptor>, keysRead: nat,
                         console: seq<byte>, pid: nat, state: ProcessState, exitCode: int, cwd: RootFs.CString,
                         markerSeen: bool, helloFinished: bool, halted: bool,
                         relaunches: nat, markers: nat, opens: nat, closes: nat)

  type Snapshot = s: State | |s.memory| == WINDOW && |s.table| == PAGES && |s.descriptors| == MAX_FDS
    ghost witness State(seq(WINDOW, _ => 0), seq(PAGES, _ => 0),
                        seq(MAX_FDS, _ => Descriptor(false, RootFs.Entry([], 0, 0, 0), 0)), 0, [], 0, Ready, 0, [],
                        false, false, false, 0, 0, 0, 0)

  /** What the user program leaves before a call; `fromUser` is the origin flag
      that the entry code sets. */
  datatype Step = Step(frame: Frame, fromUser: bool, memory: Memory)

  type Memory = m: seq<byte> | |m| == WINDOW ghost witness seq(WINDOW, _ => 0)

  /** The registers a call returns, and its result. */
  datatype Answer = Answer(after: Frame, result: int)

  /** A page-table word for the frame that is not both writable and executable. */
  predicate SoundWord(word: nat, frame: nat) {
    || word == PteWord(frame, Permission(false, false))
    || word == PteWord(frame, Permission(true, false))
    || word == PteWord(frame, Permission(false, true))
  }

  /** Every page maps its own frame, and none is both writable and executable. */
  ghost predicate Mapped(base: nat, table: seq<nat>) {
    forall page :: 0 <= page < |table| ==> SoundWord(table[page], base + page * 4096)
  }

  // ----- What each call does -----

  ghost predicate WriteEffect(memory: Memory, fd: nat, address: nat, length: nat, result: int,
                              before: seq<byte>, console: seq<byte>) {
    if (fd == 1 || fd == 2) && UserRange(address, length) then
      result == length && console == before + Shown(memory[address - USER_BASE..address - USER_BASE + length])
    else result == -1 && console == before
  }

  ghost predicate ReadEffect(keys: nat -> byte, before: Memory, from: nat, fd: nat, address: nat, length: nat,
                             result: int, memory: Memory, keysRead: nat) {
    if fd == 0 && length != 0 && UserRange(address, length) then
      && result == |Typed(keys, from, length)| && keysRead == from + result
      && memory[address - USER_BASE..address - USER_BASE + result] == Typed(keys, from, length)
      && RootFs.OnlyInside(before, memory, address - USER_BASE, result)
    else result == -1 && keysRead == from && memory == before
  }

  ghost predicate OpenEffect(files: seq<RootFs.Entry>, memory: Memory, ds: seq<Descriptor>, address: nat, result: int,
                             after: seq<Descriptor>)
    requires |ds| == MAX_FDS
  {
    var path := StringAt(memory, address);
    if path.Some? && RootFs.Lookup(files, path.value).Some? && LeastFree(ds, 3) < MAX_FDS then
      && result == LeastFree(ds, 3)
      && after == ds[result := Descriptor(true, RootFs.Lookup(files, path.value).value, 0)]
    else result == -1 && after == ds
  }

  ghost predicate CloseEffect(ds: seq<Descriptor>, fd: nat, result: int, after: seq<Descriptor>) {
    && result == (if fd in OpenFiles(ds) then 0 else -1)
    && OpenFiles(after) == OpenFiles(ds) - {fd as int}
  }

  /** The bytes `part` stand at `address`, and nothing else in memory changed. */
  ghost predicate Stored(before: Memory, address: nat, part: seq<byte>, memory: Memory)
    requires UserRange(address, |part|)
  {
    && RootFs.Holds(memory, address - USER_BASE, part)
    && RootFs.OnlyInside(before, memory, address - USER_BASE, |part|)
  }

  ghost predicate GetCwdEffect(cwd: RootFs.CString, before: Memory, address: nat, size: nat, result: int,
                               memory: Memory) {
    if UserRange(address, size) && size > |cwd| then result == |cwd| && Stored(before, address, cwd + [0], memory)
    else result == -1 && memory == before
  }

  ghost predicate UnameEffect(before: Memory, address: nat, size: nat, result: int, memory: Memory) {
    if UserRange(address, size) && size >= 18 then result == 16 && Stored(before, address, SYSTEM_NAME, memory)
    else result == -1 && memory == before
  }

  ghost predicate ChdirEffect(memory: Memory, was: RootFs.CString, address: nat, result: int, cwd: RootFs.CString) {
    if StringAt(memory, address) == Some([SLASH]) then result == 0 && cwd == [SLASH]
    else result == -1 && cwd == was
  }

  /** The text of a listing, before its last space becomes a newline. */
  function Listing(g: Setting): seq<byte> {
    RootFs.ListText(g.files, [])
  }

  /** A listing goes to the caller's buffer; its path is read before anything is written. */
  ghost predicate ReadDirEffect(g: Setting, before: Memory, path: nat, address: nat, size: nat, result: int,
                                memory: Memory) {
    var listing := Listing(g);
    if StringAt(before, path) == Some([SLASH]) && UserRange(address, size) then
      && result == (if 0 < |listing| && |listing| + 1 < size then |listing| else -1)
      && (result >= 0 ==> RootFs.Holds(memory, address - USER_BASE, RootFs.Closed(listing)))
      && RootFs.OnlyInside(before, memory, address - USER_BASE, size)
    else result == -1 && memory == before
  }

  /** The content of the file at a path. */
  function FileBytes(g: Setting, path: RootFs.CString): (r: Option<seq<byte>>)
    ensures r.Some? ==> |r.value| < U32
  {
    match RootFs.Lookup(g.files, path)
    case None => None
    case Some(file) =>
      LookupIn(g.files, path);
      Some(Content(g.image, file))
  }

  /** What loading an image makes of memory and page table. */
  ghost predicate ImageEffect(base: nat, before: Memory, words: seq<nat>, image: seq<byte>, result: UserImage,
                              memory: Memory, table: seq<nat>) {
    && (result.Loaded? <==> Loadable(image))
    && (result.Loaded? ==> result.entry == Entry(image) && result.stack == USER_LIMIT)
    && (!HeaderOk(image) ==> memory == before && table == words)
    && (HeaderOk(image) ==>
          && WindowIs(memory, image, Programs(image), Processed(Programs(image), |image|, 0))
          && WordsAre(table, base, Programs(image), Processed(Programs(image), |image|, 0)))
  }

  /** Loading the executable at a path: what memory and page table become, and the image. */
  ghost predicate LoadEffect(g: Setting, before: Memory, words: seq<nat>, path: RootFs.CString, result: UserImage,
                             memory: Memory, table: seq<nat>) {
    match FileBytes(g, path)
    case None => result.Rejected? && memory == before && table == words
    case Some(image) => ImageEffect(g.base, before, words, image, result, memory, table)
  }

  /** The registers after a program was loaded, or not. */
  predicate Started(frame: Frame, after: Frame, image: UserImage, result: int) {
    match image
    case Rejected => after == frame && result == -1
    case Loaded(entry, stack) => after == frame.(rip := entry, rsp := stack) && result == 0
  }

  ghost predicate ExecEffect(g: Setting, before: Memory, words: seq<nat>, address: nat, frame: Frame, after: Frame,
                             result: int, memory: Memory, table: seq<nat>) {
    match StringAt(before, address)
    case None =>
      result == -1 && after == frame && memory == before && table == words
    case Some(path) =>
      exists image: UserImage ::
        LoadEffect(g, before, words, path, image, memory, table) && Started(frame, after, image, result)
  }

  /** `/sbin/init` is there and loads. */
  ghost predicate InitLoads(g: Setting) {
    FileBytes(g, INIT_PATH).Some? && Loadable(FileBytes(g, INIT_PATH).value)
  }

  /** What an exit does to memory, page table and registers when it looks for `/sbin/init`. */
  ghost predicate RelaunchEffect(g: Setting, before: Memory, words: seq<nat>, frame: Frame, after: Frame,
                                 memory: Memory, table: seq<nat>) {
    exists image: UserImage, result: int ::
      LoadEffect(g, before, words, INIT_PATH, image, memory, table) && Started(frame, after, image, result)
  }

  /** The first exit relaunches if `/sbin/init` loads; any other exit stops the machine. */
  ghost predicate ExitEffect(g: Setting, s: Snapshot, frame: Frame, after: Frame, result: int, t: Snapshot) {
    && result == -1 && t.exitCode == Int32(frame.rdi)
    && (t.halted <==> s.helloFinished || !InitLoads(g))
    && (if s.helloFinished then after == frame && t.memory == s.memory && t.table == s.table
        else RelaunchEffect(g, s.memory, s.table, frame, after, t.memory, t.table))
    && (if t.halted
        then t.state == Exited && t.console == s.console + FAREWELL && t.helloFinished == s.helloFinished &&
             t.relaunches == s.relaunches
        else t.state == Ready && t.console == s.console && t.helloFinished && t.relaunches == s.relaunches + 1)
  }

  // ----- A call -----

  /** What a call makes of the state `s`. */
  ghost predicate Effect(g: Setting, s: Snapshot, frame: Frame, after: Frame, result: int, t: Snapshot) {
    var call := frame.rax % U32;
    && (call == SYS_READ ==>
          ReadEffect(g.keys, s.memory, s.keysRead, frame.rdi, frame.rsi, frame.rdx, result, t.memory, t.keysRead))
    && (call == SYS_WRITE ==> WriteEffect(s.memory, frame.rdi, frame.rsi, frame.rdx, result, s.console, t.console))
    && (call == SYS_OPEN ==> OpenEffect(g.files, s.memory, s.descriptors, frame.rdi, result, t.descriptors))
    && (call == SYS_CLOSE ==> CloseEffect(s.descriptors, frame.rdi, result, t.descriptors))
    && (call == SYS_EXEC ==> ExecEffect(g, s.memory, s.table, frame.rdi, frame, after, result, t.memory, t.table))
    && (call == SYS_GETPID ==> result == s.pid)
    && (call == SYS_CHDIR ==> ChdirEffect(s.memory, s.cwd, frame.rdi, result, t.cwd))
    && (call == SYS_GETCWD ==> GetCwdEffect(s.cwd, s.memory, frame.rdi, frame.rsi, result, t.memory))
    && (call == SYS_READDIR ==> ReadDirEffect(g, s.memory, frame.rdi, frame.rsi, frame.rdx, result, t.memory))
    && (call == SYS_UNAME ==> UnameEffect(s.memory, frame.rdi, frame.rsi, result, t.memory))
    && (call == SYS_EXIT ==> ExitEffect(g, s, frame, after, result, t))
    && (call == SYS_REBOOT ==> t.halted)
    && (call !in CALLS ==> result == -1)
  }

  /** What a call leaves alone. */
  ghost predicate Kept(s: Snapshot, frame: Frame, after: Frame, result: int, t: Snapshot) {
    var call := frame.rax % U32;
    && t.pid == s.pid && t.markerSeen == s.markerSeen && t.markers == s.markers
    && t.opens == s.opens + Counted(call == SYS_OPEN, result)
    && t.closes == s.closes + Counted(call == SYS_CLOSE, result)
    && (call != SYS_READ ==> t.keysRead == s.keysRead)
    && (call != SYS_WRITE && call != SYS_EXIT ==> t.console == s.console)
    && (call != SYS_OPEN && call != SYS_CLOSE ==> t.descriptors == s.descriptors)
    && (call != SYS_CHDIR ==> t.cwd == s.cwd)
    && (call != SYS_EXIT ==> t.helloFinished == s.helloFinished && t.relaunches == s.relaunches &&
                             t.state == s.state && t.exitCode == s.exitCode)
    && (call != SYS_EXIT && call != SYS_REBOOT ==> !t.halted)
    && (call != SYS_EXEC && call != SYS_EXIT ==>
          && after == frame && t.table == s.table
          && RootFs.OnlyInside(s.memory, t.memory, Buffer(frame).0, Buffer(frame).1 - Buffer(frame).0))
  }

  /** A call that changed at most the keyboard and the caller's buffer. */
  lemma BufferedCall(g: Setting, s: Snapshot, frame: Frame, result: int, t: Snapshot)
    requires frame.rax % U32 in {SYS_READ, SYS_GETCWD, SYS_READDIR, SYS_UNAME} && !s.halted
    requires t == s.(memory := t.memory, keysRead := t.keysRead)
    requires var call := frame.rax % U32;
             && (call == SYS_READ ==>
                   ReadEffect(g.keys, s.memory, s.keysRead, frame.rdi, frame.rsi, frame.rdx, result,
                              t.memory, t.keysRead))
             && (call != SYS_READ ==> t.keysRead == s.keysRead)
             && (call == SYS_GETCWD ==> GetCwdEffect(s.cwd, s.memory, frame.rdi, frame.rsi, result, t.memory))
             && (call == SYS_READDIR ==> ReadDirEffect(g, s.memory, frame.rdi, frame.rsi, frame.rdx, result, t.memory))
             && (call == SYS_UNAME ==> UnameEffect(s.memory, frame.rdi, frame.rsi, result, t.memory))
    ensures Effect(g, s, frame, frame, result, t) && Kept(s, frame, frame, result, t)
  {
  }

  /** A call that changed neither memory nor page table. */
  lemma PlainCall(g: Setting, s: Snapshot, frame: Frame, result: int, t: Snapshot)
    requires frame.rax % U32 in {SYS_WRITE, SYS_OPEN, SYS_CLOSE, SYS_GETPID, SYS_CHDIR} && !s.halted
    requires t == s.(console := t.console, cwd := t.cwd, descriptors := t.descriptors,
                     opens := t.opens, closes := t.closes)
    requires var call := frame.rax % U32;
             && t.opens == s.opens + Counted(call == SYS_OPEN, result)
             && t.closes == s.closes + Counted(call == SYS_CLOSE, result)
             && (if call == SYS_WRITE
                 then WriteEffect(s.memory, frame.rdi, frame.rsi, frame.rdx, result, s.console, t.console)
                 else t.console == s.console)
             && (if call == SYS_OPEN then OpenEffect(g.files, s.memory, s.descriptors, frame.rdi, result, t.descriptors)
                 else if call == SYS_CLOSE then CloseEffect(s.descriptors, frame.rdi, result, t.descriptors)
                 else t.descriptors == s.descriptors)
             && (call == SYS_GETPID ==> result == s.pid)
             && (if call == SYS_CHDIR then ChdirEffect(s.memory, s.cwd, frame.rdi, result, t.cwd) else t.cwd == s.cwd)
    ensures Effect(g, s, frame, frame, result, t) && Kept(s, frame, frame, result, t)
  {
  }

  lemma ExecCall(g: Setting, s: Snapshot, frame: Frame, after: Frame, result: int, t: Snapshot)
    requires frame.rax % U32 == SYS_EXEC && !s.halted && t == s.(memory := t.memory, table := t.table)
    requires ExecEffect(g, s.memory, s.table, frame.rdi, frame, after, result, t.memory, t.table)
    ensures Effect(g, s, frame, after, result, t) && Kept(s, frame, after, result, t)
  {
  }

  lemma ExitCall(g: Setting, s: Snapshot, frame: Frame, after: Frame, t: Snapshot)
    requires frame.rax % U32 == SYS_EXIT && !s.halted
    requires t == s.(memory := t.memory, table := t.table, helloFinished := t.helloFinished, state := t.state,
                     exitCode := t.exitCode, console := t.console, halted := t.halted, relaunches := t.relaunches)
    requires ExitEffect(g, s, frame, after, -1, t)
    ensures Effect(g, s, frame, after, -1, t) && Kept(s, frame, after, -1, t)
  {
  }

  /** The first call that comes from ring 3 is announced on the console. */
  function Announced(s: Snapshot, fromUser: bool): Snapshot {
    if !s.markerSeen && fromUser
    then s.(markerSeen := true, markers := s.markers + 1, console := s.console + MARKER) else s
  }

  /** A call from the state `s`, with what it answers and the state it leaves. A call
      that stops the machine returns no registers. */
  ghost predicate Called(g: Setting, s: Snapshot, frame: Frame, fromUser: bool, answer: Answer, t: Snapshot) {
    var after := answer.after.(rax := frame.rax);
    && -U32 < answer.result < U32
    && (!t.halted ==> answer.after.rax == Encoded(answer.result))
    && Effect(g, Announced(s, fromUser), frame, after, answer.result, t)
    && Kept(Announced(s, fromUser), frame, after, answer.result, t)
  }

  /** A turn of a run: the user program writes anywhere in its window, then makes a call. */
  ghost predicate Turn(g: Setting, s: Snapshot, step: Step, answer: Answer, t: Snapshot) {
    !s.halted && Called(g, s.(memory := step.memory), step.frame, step.fromUser, answer, t)
  }

  /** A run, state by state, that has answered a first part of the calls. */
  ghost predicate IsRun(g: Setting, steps: seq<Step>, answers: seq<Answer>, trace: seq<Snapshot>) {
    && |trace| == |answers| + 1 && |answers| <= |steps|
    && forall i :: 0 <= i < |answers| ==> TurnAt(g, steps, answers, trace, i)
  }

  ghost predicate TurnAt(g: Setting, steps: seq<Step>, answers: seq<Answer>, trace: seq<Snapshot>, i: nat)
    requires i < |answers| <= |steps| && |trace| == |answers| + 1
  {
    Turn(g, trace[i], steps[i], answers[i], trace[i + 1])
  }

  /** One more turn makes a longer run. */
  lemma RunExtends(g: Setting, steps: seq<Step>, answers: seq<Answer>, trace: seq<Snapshot>, answer: Answer,
                   t: Snapshot)
    requires IsRun(g, steps, answers, trace) && |answers| < |steps|
    requires Turn(g, trace[|answers|], steps[|answers|], answer, t)
    ensures IsRun(g, steps, answers + [answer], trace + [t])
  {
    var longer, states := answers + [answer], trace + [t];
    forall i | 0 <= i < |longer| ensures TurnAt(g, steps, longer, states, i) {
      if i < |answers| {
        assert TurnAt(g, steps, answers, trace, i);
      }
    }
  }

  // ----- What every run keeps -----

  /** What holds in every state of every run from boot on. */
  ghost predicate Sound(g: Setting, s: Snapshot) {
    && Mapped(g.base, s.table)
    && s.pid == 1 && s.cwd == [SLASH]
    && FilesSound(g.files, s.descriptors)
    && s.relaunches == (if s.helloFinished then 1 else 0)
    && s.markers == (if s.markerSeen then 1 else 0)
    && |OpenFiles(s.descriptors)| + s.closes == s.opens
  }

  /** Open files are files of the mounted image, on descriptors from 3 on. */
  ghost predicate FilesSound(files: seq<RootFs.Entry>, ds: seq<Descriptor>) {
    forall fd :: fd in OpenFiles(ds) ==> 3 <= fd && OpenFiles(ds)[fd] in files
  }

  /** In a sound state every window address is mapped to its own place. */
  lemma OnlyTheWindow(g: Setting, s: Snapshot, address: nat)
    requires Sound(g, s) && g.base % 4096 == 0 && g.base + WINDOW <= PAGE_NX && UserRange(address, 1)
    ensures Physical(s.table[EntryPage(address)], address) == g.base + (address - USER_BASE)
  {
    var page := EntryPage(address);
    assert SoundWord(s.table[page], g.base + page * 4096);
    OwnPlace(g.base, address, Permission(false, false));
    OwnPlace(g.base, address, Permission(true, false));
    OwnPlace(g.base, address, Permission(false, true));
  }

  lemma OpenKept(files: seq<RootFs.Entry>, memory: Memory, ds: seq<Descriptor>, address: nat, result: int,
                 after: seq<Descriptor>)
    requires |ds| == MAX_FDS && FilesSound(files, ds) && OpenEffect(files, memory, ds, address, result, after)
    ensures FilesSound(files, after) && |OpenFiles(after)| == |OpenFiles(ds)| + Counted(true, result)
  {
    var path := StringAt(memory, address);
    if result >= 0 {
      var file := RootFs.Lookup(files, path.value).value;
      LookupIn(files, path.value);
      TakingStep(ds, result, file);
      assert OpenFiles(after) == OpenFiles(ds)[result := file];
    }
  }

  lemma CloseKept(files: seq<RootFs.Entry>, ds: seq<Descriptor>, fd: nat, result: int, after: seq<Descriptor>)
    requires FilesSound(files, ds) && CloseEffect(ds, fd, result, after)
    ensures FilesSound(files, after) && |OpenFiles(after)| + Counted(true, result) == |OpenFiles(ds)|
  {
    MapShrinks(OpenFiles(ds), fd);
  }

  /** Open files stay files of the mounted image, and their count follows the calls. */
  lemma FilesKept(g: Setting, s: Snapshot, frame: Frame, after: Frame, result: int, t: Snapshot)
    requires FilesSound(g.files, s.descriptors)
    requires Effect(g, s, frame, after, result, t) && Kept(s, frame, after, result, t)
    ensures FilesSound(g.files, t.descriptors)
    ensures |OpenFiles(t.descriptors)| + t.closes + s.opens == |OpenFiles(s.descriptors)| + t.opens + s.closes
  {
    if frame.rax % U32 == SYS_OPEN {
      OpenKept(g.files, s.memory, s.descriptors, frame.rdi, result, t.descriptors);
    } else if frame.rax % U32 == SYS_CLOSE {
      CloseKept(g.files, s.descriptors, frame.rdi, result, t.descriptors);
    }
  }

  /** However far a load gets, the page table stays sound. */
  lemma LoadedMapped(table: seq<nat>, base: nat, image: seq<byte>)
    requires |table| == PAGES && HeaderOk(image)
    requires WordsAre(table, base, Programs(image), Processed(Programs(image), |image|, 0))
    ensures Mapped(base, table)
  {
    var ps := Programs(image);
    forall page | 0 <= page < PAGES ensures SoundWord(table[page], base + page * 4096) {
      NeverBoth(ps, Processed(ps, |image|, 0), |image|, page);
    }
  }

  lemma LoadMapped(g: Setting, before: Memory, words: seq<nat>, path: RootFs.CString, result: UserImage,
                   memory: Memory, table: seq<nat>)
    requires |table| == PAGES && Mapped(g.base, words) && LoadEffect(g, before, words, path, result, memory, table)
    ensures Mapped(g.base, table)
  {
    var image := FileBytes(g, path);
    if image.Some? && HeaderOk(image.value) {
      LoadedMapped(table, g.base, image.value);
    }
  }

  lemma TableKept(g: Setting, s: Snapshot, frame: Frame, after: Frame, result: int, t: Snapshot)
    requires Mapped(g.base, s.table)
    requires Effect(g, s, frame, after, result, t) && Kept(s, frame, after, result, t)
    ensures Mapped(g.base, t.table)
  {
    if frame.rax % U32 == SYS_EXEC {
      ExecMapped(g, s.memory, s.table, frame.rdi, frame, after, result, t.memory, t.table);
    } else if frame.rax % U32 == SYS_EXIT && !s.helloFinished {
      RelaunchMapped(g, s.memory, s.table, frame, after, t.memory, t.table);
    }
  }

  lemma ExecMapped(g: Setting, before: Memory, words: seq<nat>, address: nat, frame: Frame, after: Frame,
                   result: int, memory: Memory, table: seq<nat>)
    requires |table| == PAGES && Mapped(g.base, words)
    requires ExecEffect(g, before, words, address, frame, after, result, memory, table)
    ensures Mapped(g.base, table)
  {
    var path := StringAt(before, address);
    if path.Some? {
      var image: UserImage :| LoadEffect(g, before, words, path.value, image, memory, table) &&
                              Started(frame, after, image, result);
      LoadMapped(g, before, words, path.value, image, memory, table);
    }
  }

  lemma RelaunchMapped(g: Setting, before: Memory, words: seq<nat>, frame: Frame, after: Frame, memory: Memory,
                       table: seq<nat>)
    requires |table| == PAGES && Mapped(g.base, words)
    requires RelaunchEffect(g, before, words, frame, after, memory, table)
    ensures Mapped(g.base, table)
  {
    var image: UserImage, result: int :| LoadEffect(g, before, words, INIT_PATH, image, memory, table) &&
                                         Started(frame, after, image, result);
    LoadMapped(g, before, words, INIT_PATH, image, memory, table);
  }

  /** Whatever a call does, the state stays sound. */
  lemma CallKeepsSound(g: Setting, s: Snapshot, frame: Frame, fromUser: bool, answer: Answer, t: Snapshot)
    requires Sound(g, s) && Called(g, s, frame, fromUser, answer, t)
    ensures Sound(g, t)
  {
    var a, after := Announced(s, fromUser), answer.after.(rax := frame.rax);
    FilesKept(g, a, frame, after, answer.result, t);
    TableKept(g, a, frame, after, answer.result, t);
  }

  lemma TurnKeepsSound(g: Setting, s: Snapshot, step: Step, answer: Answer, t: Snapshot)
    requires Sound(g, s) && Turn(g, s, step, answer, t)
    ensures Sound(g, t)
  {
    CallKeepsSound(g, s.(memory := step.memory), step.frame, step.fromUser, answer, t);
  }

  lemma NextIsSound(g: Setting, steps: seq<Step>, answers: seq<Answer>, trace: seq<Snapshot>, i: nat)
    requires IsRun(g, steps, answers, trace) && i < |answers| && Sound(g, trace[i])
    ensures Sound(g, trace[i + 1])
  {
    assert TurnAt(g, steps, answers, trace, i);
    TurnKeepsSound(g, trace[i], steps[i], answers[i], trace[i + 1]);
  }

  /** Every state of a run is sound, if the first one is. */
  lemma {:induction false} RunSound(g: Setting, steps: seq<Step>, answers: seq<Answer>, trace: seq<Snapshot>, i: nat)
    requires IsRun(g, steps, answers, trace) && Sound(g, trace[0]) && i < |trace|
    ensures Sound(g, trace[i])
  {
    if i > 0 {
      RunSound(g, steps, answers, trace, i - 1);
      NextIsSound(g, steps, answers, trace, i - 1);
    }
  }

  // ----- Whole runs -----

  /** A run stops exactly at a `reboot`, at an exit after the relaunch, and at an
      exit for which `/sbin/init` does not load. */
  lemma StopsExactly(g: Setting, s: Snapshot, step: Step, answer: Answer, t: Snapshot)
    requires Turn(g, s, step, answer, t)
    ensures var call := step.frame.rax % U32;
            t.halted <==> call == SYS_REBOOT || (call == SYS_EXIT && (s.helloFinished || !InitLoads(g)))
  {
  }

  /** What the `i`-th turn does to the record of the run, and to the keyboard. */
  lemma TurnRecord(g: Setting, steps: seq<Step>, answers: seq<Answer>, trace: seq<Snapshot>, i: nat)
    requires IsRun(g, steps, answers, trace) && i < |answers|
    ensures !trace[i].halted && trace[i].console <= trace[i + 1].console
    ensures trace[i].helloFinished ==> trace[i + 1].helloFinished
    ensures trace[i].markerSeen ==> trace[i + 1].markerSeen
    ensures steps[i].frame.rax % U32 == SYS_EXIT ==> trace[i + 1].halted || trace[i + 1].helloFinished
  {
    assert TurnAt(g, steps, answers, trace, i);
  }

  /** The console only grows, and neither marker nor relaunch is forgotten. */
  lemma {:induction false} RecordGrows(g: Setting, steps: seq<Step>, answers: seq<Answer>, trace: seq<Snapshot>,
                                       i: nat, j: nat)
    requires IsRun(g, steps, answers, trace) && i <= j < |trace|
    ensures trace[i].console <= trace[j].console
    ensures trace[i].helloFinished ==> trace[j].helloFinished
    ensures trace[i].markerSeen ==> trace[j].markerSeen
    decreases j
  {
    if i < j {
      RecordGrows(g, steps, answers, trace, i, j - 1);
      TurnRecord(g, steps, answers, trace, j - 1);
    }
  }

  /** After a call that stops the machine none is answered. */
  lemma StoppedEnds(g: Setting, steps: seq<Step>, answers: seq<Answer>, trace: seq<Snapshot>, i: nat)
    requires IsRun(g, steps, answers, trace) && i < |trace| && trace[i].halted
    ensures i == |answers|
  {
    if i < |answers| {
      TurnRecord(g, steps, answers, trace, i);
    }
  }

  /** Of two exits in a run the second stops the machine, and is the last call. */
  lemma SecondExitStops(g: Setting, steps: seq<Step>, answers: seq<Answer>, trace: seq<Snapshot>, i: nat, j: nat)
    requires IsRun(g, steps, answers, trace) && i < j < |answers|
    requires steps[i].frame.rax % U32 == SYS_EXIT && steps[j].frame.rax % U32 == SYS_EXIT
    ensures trace[j + 1].halted && j + 1 == |answers|
  {
    TurnRecord(g, steps, answers, trace, i);
    TurnRecord(g, steps, answers, trace, i + 1);
    RecordGrows(g, steps, answers, trace, i + 1, j);
    assert TurnAt(g, steps, answers, trace, j);
    StopsExactly(g, trace[j], steps[j], answers[j], trace[j + 1]);
    StoppedEnds(g, steps, answers, trace, j + 1);
  }

  /** The bytes a call has stored for the program, if it is a `read`. */
  function Got(step: Step, answer: Answer, t: Snapshot): seq<byte> {
    if step.frame.rax % U32 == SYS_READ && answer.result > 0 && UserRange(step.frame.rsi, answer.result)
    then t.memory[step.frame.rsi - USER_BASE..step.frame.rsi - USER_BASE + answer.result] else []
  }

  /** What each call of a run has stored by `read`. */
  function Gets(steps: seq<Step>, answers: seq<Answer>, trace: seq<Snapshot>): (r: seq<seq<byte>>)
    requires |answers| <= |steps| && |trace| == |answers| + 1
    ensures |r| == |answers|
  {
    seq(|answers|, i requires 0 <= i < |answers| => Got(steps[i], answers[i], trace[i + 1]))
  }

  /** How many keys were read at each moment of a run. */
  function Counts(trace: seq<Snapshot>): (r: seq<nat>)
    ensures |r| == |trace|
  {
    seq(|trace|, i requires 0 <= i < |trace| => trace[i].keysRead)
  }

  function Joined(parts: seq<seq<byte>>, n: nat): seq<byte>
    requires n <= |parts|
  {
    if n == 0 then [] else Joined(parts, n - 1) + parts[n - 1]
  }

  lemma {:induction false} KeysJoin(keys: nat -> byte, from: nat, a: nat, b: nat)
    ensures Keys(keys, from, a + b) == Keys(keys, from, a) + Keys(keys, from + a, b)
    decreases b
  {
    if b > 0 {
      KeysJoin(keys, from, a, b - 1);
    }
  }

  ghost predicate Follows(keys: nat -> byte, counts: seq<nat>, parts: seq<seq<byte>>, i: nat)
    requires i < |parts| && |counts| == |parts| + 1
  {
    counts[i] <= counts[i + 1] && parts[i] == Keys(keys, counts[i], counts[i + 1] - counts[i])
  }

  /** Stretches of the stream that follow each other join to one. */
  lemma {:induction false} StretchesJoin(keys: nat -> byte, counts: seq<nat>, parts: seq<seq<byte>>, n: nat)
    requires |counts| == |parts| + 1 && n <= |parts|
    requires forall i: nat :: i < n ==> Follows(keys, counts, parts, i)
    ensures counts[0] <= counts[n] && Joined(parts, n) == Keys(keys, counts[0], counts[n] - counts[0])
  {
    if n > 0 {
      StretchesJoin(keys, counts, parts, n - 1);
      assert Follows(keys, counts, parts, n - 1);
      KeysJoin(keys, counts[0], counts[n - 1] - counts[0], counts[n] - counts[n - 1]);
    }
  }

  lemma TurnReads(g: Setting, s: Snapshot, step: Step, answer: Answer, t: Snapshot)
    requires Turn(g, s, step, answer, t)
    ensures var frame := step.frame;
            if frame.rax % U32 == SYS_READ
            then ReadEffect(g.keys, step.memory, s.keysRead, frame.rdi, frame.rsi, frame.rdx, answer.result,
                            t.memory, t.keysRead)
            else t.keysRead == s.keysRead
  {
  }

  lemma ReadDelivers(keys: nat -> byte, before: Memory, from: nat, step: Step, answer: Answer, t: Snapshot)
    requires step.frame.rax % U32 == SYS_READ
    requires ReadEffect(keys, before, from, step.frame.rdi, step.frame.rsi, step.frame.rdx, answer.result,
                        t.memory, t.keysRead)
    ensures from <= t.keysRead && Got(step, answer, t) == Keys(keys, from, t.keysRead - from)
  {
  }

  lemma TurnDelivers(g: Setting, s: Snapshot, step: Step, answer: Answer, t: Snapshot)
    requires Turn(g, s, step, answer, t)
    ensures s.keysRead <= t.keysRead && Got(step, answer, t) == Keys(g.keys, s.keysRead, t.keysRead - s.keysRead)
  {
    TurnReads(g, s, step, answer, t);
    if step.frame.rax % U32 == SYS_READ {
      ReadDelivers(g.keys, step.memory, s.keysRead, step, answer, t);
    }
  }

  lemma DeliversAt(g: Setting, steps: seq<Step>, answers: seq<Answer>, trace: seq<Snapshot>, i: nat)
    requires IsRun(g, steps, answers, trace) && i < |answers|
    ensures trace[i].keysRead <= trace[i + 1].keysRead
    ensures Got(steps[i], answers[i], trace[i + 1]) ==
            Keys(g.keys, trace[i].keysRead, trace[i + 1].keysRead - trace[i].keysRead)
  {
    assert TurnAt(g, steps, answers, trace, i);
    TurnDelivers(g, trace[i], steps[i], answers[i], trace[i + 1]);
  }

  lemma GetsFollow(g: Setting, steps: seq<Step>, answers: seq<Answer>, trace: seq<Snapshot>, i: nat)
    requires IsRun(g, steps, answers, trace) && i < |answers|
    ensures Follows(g.keys, Counts(trace), Gets(steps, answers, trace), i)
  {
    DeliversAt(g, steps, answers, trace, i);
  }

  /** Over a whole run no key is lost, repeated or reordered: what the calls of
      `read` deliver together is the next stretch of the keyboard's stream. */
  lemma KeysDelivered(g: Setting, steps: seq<Step>, answers: seq<Answer>, trace: seq<Snapshot>, n: nat)
    requires IsRun(g, steps, answers, trace) && n <= |answers|
    ensures trace[0].keysRead <= trace[n].keysRead
    ensures Joined(Gets(steps, answers, trace), n) ==
            Keys(g.keys, trace[0].keysRead, trace[n].keysRead - trace[0].keysRead)
  {
    var counts, parts := Counts(trace), Gets(steps, answers, trace);
    forall i: nat | i < n ensures Follows(g.keys, counts, parts, i) {
      GetsFollow(g, steps, answers, trace, i);
    }
    StretchesJoin(g.keys, counts, parts, n);
  }
}
