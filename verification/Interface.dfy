/** What a program sees of the system calls: numbers, registers and bytes, without
    the vocabulary of the kernel's model. */
module Interface {
  import opened Options
  import opened Bytes
  import opened Elf
  import opened ElfLoader
  import opened Calls
  import RootFs

  // ----- Texts and numbers -----

  /** The texts that the kernel writes and looks for. */
  lemma KernelTexts()
    ensures MARKER == Ascii("MANTLE_USERSPACE_OK\n") && FAREWELL == Ascii("MANTLE_USERSPACE_EXIT\n")
    ensures SYSTEM_NAME == Ascii("MantleOS x86_64") + [0, 0]
    ensures INIT_PATH == Ascii("/sbin/init") && HELLO_PATH == Ascii("/bin/hello")
  {
  }

  /** A register read as a signed 64-bit number. */
  function Int64(v: nat): int {
    if v < 0x8000_0000_0000_0000 then v else v - 0x1_0000_0000_0000_0000
  }

  /** A program that reads its result register as a signed number has the result; an error is all ones. */
  lemma ResultRead(result: int)
    requires -0x1_0000_0000 < result < 0x1_0000_0000
    ensures Int64(Encoded(result)) == result && Encoded(result) < 0x1_0000_0000_0000_0000
    ensures Encoded(-1) == 0xffff_ffff_ffff_ffff
  {
  }

  /** An exit code is the low half of its register, signed. */
  lemma CodeRead(v: nat)
    ensures -0x8000_0000 <= Int32(v) < 0x8000_0000 && (v - Int32(v)) % 0x1_0000_0000 == 0
  {
    assert v == v % 0x1_0000_0000 + v / 0x1_0000_0000 * 0x1_0000_0000;
    if v % 0x1_0000_0000 >= 0x8000_0000 {
      assert v - Int32(v) == (v / 0x1_0000_0000 + 1) * 0x1_0000_0000;
    } else {
      assert v - Int32(v) == v / 0x1_0000_0000 * 0x1_0000_0000;
    }
  }

  /** A buffer that a call accepts lies in the 2 MiB from 0x400000 on. */
  lemma BufferRange(address: nat, size: nat)
    ensures UserRange(address, size) <==> 0x40_0000 <= address && address + size <= 0x60_0000
  {
  }

  // ----- Strings -----

  /** A text and its terminator stand at an address of the window. */
  ghost predicate Text(memory: Memory, address: nat, text: seq<byte>) {
    && 0x40_0000 <= address && address + |text| < 0x60_0000 && 0 !in text
    && memory[address - 0x40_0000..address - 0x40_0000 + |text|] == text
    && memory[address - 0x40_0000 + |text|] == 0
  }

  lemma {:induction false} LengthIs(memory: seq<byte>, at: nat, i: nat, n: nat)
    requires i <= n < MAX_PATH && at + n < |memory| && memory[at + n] == 0
    requires forall k :: at + i <= k < at + n ==> memory[k] != 0
    ensures Length(memory, at, i) == n
    decreases n - i
  {
    if i < n {
      LengthIs(memory, at, i + 1, n);
    }
  }

  /** The kernel reads a text from an address exactly if it stands there and is shorter than 128 characters. */
  lemma StringRead(memory: Memory, address: nat, text: seq<byte>)
    ensures StringAt(memory, address) == Some(text) <==> Text(memory, address, text) && |text| < 128
  {
    if Text(memory, address, text) && |text| < 128 {
      var at := address - 0x40_0000;
      forall k | at <= k < at + |text| ensures memory[k] != 0 {
        assert memory[k] == memory[at..at + |text|][k - at];
      }
      LengthIs(memory, at, 0, |text|);
    }
  }

  // ----- The console -----

  lemma {:induction false} ShownBoth(a: seq<byte>, b: seq<byte>)
    ensures Shown(a + b) == Shown(a) + Shown(b)
    decreases |b|
  {
    if b == [] {
      assert a + b == a;
    } else {
      ShownBoth(a, b[..|b| - 1]);
      assert (a + b)[..|a + b| - 1] == a + b[..|b| - 1];
    }
  }

  /** Every byte but NUL is shown, as it is. */
  lemma ShownByte(b: byte)
    ensures Shown([b]) == if b == 0 then [] else [b]
  {
    assert [b][..0] == [];
  }

  lemma {:induction false} ShownWhole(text: seq<byte>)
    requires 0 !in text
    ensures Shown(text) == text
    decreases |text|
  {
    if text != [] {
      ShownWhole(text[..|text| - 1]);
    }
  }

  /** The console before a call has its effect: the first call from ring 3 is announced. */
  function Before(s: Snapshot, step: Step): seq<byte> {
    s.console + if !s.markerSeen && step.fromUser then Ascii("MANTLE_USERSPACE_OK\n") else []
  }

  /** The bytes of a buffer in the window. */
  function Buffered(memory: Memory, address: nat, size: nat): seq<byte>
    requires 0x40_0000 <= address && address + size <= 0x60_0000
  {
    memory[address - 0x40_0000..address - 0x40_0000 + size]
  }

  predicate InWindow(address: nat, size: nat) {
    0x40_0000 <= address && address + size <= 0x60_0000
  }

  /** The call returns a result to the program. */
  predicate Returns(answer: Answer, result: int) {
    Int64(answer.after.rax) == result
  }

  // ----- Call by call -----

  /** The `i`-th turn of a run, at a call number, without what the other calls do. */
  ghost predicate Calling(g: Setting, s: Snapshot, step: Step, answer: Answer, t: Snapshot, number: nat) {
    Turn(g, s, step, answer, t) && step.frame.rax % 0x1_0000_0000 == number
  }

  /** A call that returns: its result is in the result register, and apart from it and
      what the call loads no register changes. */
  lemma Answered(g: Setting, s: Snapshot, step: Step, answer: Answer, t: Snapshot)
    requires Turn(g, s, step, answer, t) && !t.halted
    ensures Returns(answer, answer.result) && -0x1_0000_0000 < answer.result < 0x1_0000_0000
  {
    ResultRead(answer.result);
  }

  lemma Running(g: Setting, s: Snapshot, step: Step, answer: Answer, t: Snapshot, number: nat)
    requires Calling(g, s, step, answer, t, number) && number != 11 && number != 12
    ensures !t.halted && Returns(answer, answer.result)
  {
    Answered(g, s, step, answer, t);
  }

  lemma WriteIs(g: Setting, s: Snapshot, step: Step, answer: Answer, t: Snapshot)
    requires Calling(g, s, step, answer, t, 1)
    ensures var f := step.frame;
            WriteEffect(step.memory, f.rdi, f.rsi, f.rdx, answer.result, Before(s, step), t.console)
  {
    KernelTexts();
  }

  /** `write` (1) to descriptor 1 or 2: the console gets exactly the buffer, if no byte of it is NUL ... */
  lemma WriteShows(g: Setting, s: Snapshot, step: Step, answer: Answer, t: Snapshot)
    requires Calling(g, s, step, answer, t, 1)
    requires step.frame.rdi in {1, 2} && InWindow(step.frame.rsi, step.frame.rdx)
    requires 0 !in Buffered(step.memory, step.frame.rsi, step.frame.rdx)
    ensures t.console == Before(s, step) + Buffered(step.memory, step.frame.rsi, step.frame.rdx)
    ensures Returns(answer, step.frame.rdx)
  {
    ShownWhole(Buffered(step.memory, step.frame.rsi, step.frame.rdx));
    WriteIs(g, s, step, answer, t);
    Running(g, s, step, answer, t, 1);
  }

  /** ... and to any other descriptor, or from outside the window, it fails and shows nothing. */
  lemma WriteRefused(g: Setting, s: Snapshot, step: Step, answer: Answer, t: Snapshot)
    requires Calling(g, s, step, answer, t, 1)
    requires step.frame.rdi !in {1, 2} || !InWindow(step.frame.rsi, step.frame.rdx)
    ensures t.console == Before(s, step) && Returns(answer, -1)
  {
    WriteIs(g, s, step, answer, t);
    Running(g, s, step, answer, t, 1);
  }

  lemma ReadIs(g: Setting, s: Snapshot, step: Step, answer: Answer, t: Snapshot)
    requires Calling(g, s, step, answer, t, 0)
    ensures var f := step.frame;
            ReadEffect(g.keys, step.memory, s.keysRead, f.rdi, f.rsi, f.rdx, answer.result, t.memory, t.keysRead)
  {
  }

  /** What stands in the first `n` bytes of a buffer is the next `n` keys: all but the
      last are no line breaks, and a last one before the end of the buffer is one. */
  ghost predicate LineTyped(keys: nat -> byte, from: nat, stored: seq<byte>, size: nat) {
    var n := |stored|;
    && 1 <= n <= size
    && (forall i :: 0 <= i < n ==> stored[i] == keys(from + i))
    && (forall i :: 0 <= i < n - 1 ==> stored[i] != '\n' as int)
    && (n < size ==> stored[n - 1] == '\n' as int)
  }

  lemma KeysTyped(keys: nat -> byte, from: nat, size: nat)
    requires 0 < size
    ensures LineTyped(keys, from, Typed(keys, from, size), size)
  {
    var n := Turns(keys, from, size);
    var stored := Keys(keys, from, n);
    forall i | 0 <= i < n ensures stored[i] == keys(from + i) && (i < n - 1 ==> stored[i] != '\n' as int) {
      var k: nat := from + i;
      assert stored[k - from] == keys(k);
    }
  }

  lemma ReadStores(keys: nat -> byte, before: Memory, from: nat, address: nat, size: nat, result: int, memory: Memory,
                   keysRead: nat)
    requires 0 < size && InWindow(address, size)
    requires ReadEffect(keys, before, from, 0, address, size, result, memory, keysRead)
    ensures 0 <= result <= size && keysRead == from + result
    ensures LineTyped(keys, from, Buffered(memory, address, result), size)
  {
    KeysTyped(keys, from, size);
  }

  /** `read` (0) from descriptor 0 into a buffer that is not empty: the next keys up to
      and with the first line break, or until the buffer is full. */
  lemma ReadDelivers(g: Setting, s: Snapshot, step: Step, answer: Answer, t: Snapshot)
    requires Calling(g, s, step, answer, t, 0)
    requires step.frame.rdi == 0 && 0 < step.frame.rdx && InWindow(step.frame.rsi, step.frame.rdx)
    ensures 0 <= answer.result <= step.frame.rdx && Returns(answer, answer.result)
    ensures t.keysRead == s.keysRead + answer.result
    ensures LineTyped(g.keys, s.keysRead, Buffered(t.memory, step.frame.rsi, answer.result), step.frame.rdx)
  {
    ReadIs(g, s, step, answer, t);
    Running(g, s, step, answer, t, 0);
    ReadStores(g.keys, step.memory, s.keysRead, step.frame.rsi, step.frame.rdx, answer.result, t.memory, t.keysRead);
  }

  lemma OpenIs(g: Setting, s: Snapshot, step: Step, answer: Answer, t: Snapshot)
    requires Calling(g, s, step, answer, t, 2)
    ensures OpenEffect(g.files, step.memory, s.descriptors, step.frame.rdi, answer.result, t.descriptors)
  {
  }

  /** `open` (2) of a path: the first file with it gets the least free descriptor from 3 to 7. */
  lemma OpenTakes(g: Setting, s: Snapshot, step: Step, answer: Answer, t: Snapshot, path: seq<byte>, fd: nat,
                  file: RootFs.Entry)
    requires Calling(g, s, step, answer, t, 2) && Text(step.memory, step.frame.rdi, path) && |path| < 128
    requires RootFs.Lookup(g.files, path) == Some(file)
    requires 3 <= fd < 8 && !s.descriptors[fd].used && forall i :: 3 <= i < fd ==> s.descriptors[i].used
    ensures t.descriptors == s.descriptors[fd := Descriptor(true, file, 0)] && Returns(answer, fd)
  {
    StringRead(step.memory, step.frame.rdi, path);
    LeastFreeIs(s.descriptors, 3, fd);
    OpenIs(g, s, step, answer, t);
    Running(g, s, step, answer, t, 2);
  }

  lemma {:induction false} LeastFreeIs(ds: seq<Descriptor>, from: nat, fd: nat)
    requires from <= fd < |ds| && !ds[fd].used && forall i :: from <= i < fd ==> ds[i].used
    ensures LeastFree(ds, from) == fd
    decreases fd - from
  {
    if from < fd {
      LeastFreeIs(ds, from + 1, fd);
    }
  }

  /** `close` (3) of an open descriptor gives it back, of any other fails. */
  lemma CloseGives(g: Setting, s: Snapshot, step: Step, answer: Answer, t: Snapshot)
    requires Calling(g, s, step, answer, t, 3)
    ensures var fd: int := step.frame.rdi;
            && OpenFiles(t.descriptors) == OpenFiles(s.descriptors) - {fd}
            && Returns(answer, if fd < 8 && s.descriptors[fd].used then 0 else -1)
  {
    Running(g, s, step, answer, t, 3);
    assert CloseEffect(s.descriptors, step.frame.rdi, answer.result, t.descriptors);
  }

  /** `getpid` (8) in a sound state: the one process has number 1. */
  lemma PidIsOne(g: Setting, s: Snapshot, step: Step, answer: Answer, t: Snapshot)
    requires Calling(g, s, step, answer, t, 8) && Sound(g, s)
    ensures Returns(answer, 1)
  {
    Running(g, s, step, answer, t, 8);
  }

  /** `chdir` (9) accepts "/" alone. */
  lemma ChdirRoot(g: Setting, s: Snapshot, step: Step, answer: Answer, t: Snapshot)
    requires Calling(g, s, step, answer, t, 9)
    ensures Returns(answer, if Text(step.memory, step.frame.rdi, Ascii("/")) then 0 else -1)
  {
    Running(g, s, step, answer, t, 9);
    StringRead(step.memory, step.frame.rdi, Ascii("/"));
    assert Ascii("/") == [SLASH];
    assert ChdirEffect(step.memory, s.cwd, step.frame.rdi, answer.result, t.cwd);
  }

  lemma GetCwdIs(g: Setting, s: Snapshot, step: Step, answer: Answer, t: Snapshot)
    requires Calling(g, s, step, answer, t, 10)
    ensures GetCwdEffect(s.cwd, step.memory, step.frame.rdi, step.frame.rsi, answer.result, t.memory)
  {
  }

  /** `getcwd` (10) in a sound state stores "/" into a buffer of two bytes or more. */
  lemma CwdIsRoot(g: Setting, s: Snapshot, step: Step, answer: Answer, t: Snapshot)
    requires Calling(g, s, step, answer, t, 10) && Sound(g, s)
    requires InWindow(step.frame.rdi, step.frame.rsi) && 2 <= step.frame.rsi
    ensures Text(t.memory, step.frame.rdi, Ascii("/")) && Returns(answer, 1)
  {
    Running(g, s, step, answer, t, 10);
    GetCwdIs(g, s, step, answer, t);
    var at := step.frame.rdi - 0x40_0000;
    var stored := t.memory[at..at + 2];
    assert stored == [SLASH, 0];
    assert t.memory[at] == stored[0] && t.memory[at + 1] == stored[1];
    assert t.memory[at..at + 1] == Ascii("/");
  }

  lemma UnameIs(g: Setting, s: Snapshot, step: Step, answer: Answer, t: Snapshot)
    requires Calling(g, s, step, answer, t, 14)
    ensures UnameEffect(step.memory, step.frame.rdi, step.frame.rsi, answer.result, t.memory)
  {
  }

  /** `uname` (14) stores the system's name into a buffer of eighteen bytes or more. */
  lemma UnameTells(g: Setting, s: Snapshot, step: Step, answer: Answer, t: Snapshot)
    requires Calling(g, s, step, answer, t, 14) && InWindow(step.frame.rdi, step.frame.rsi) && 18 <= step.frame.rsi
    ensures Text(t.memory, step.frame.rdi, Ascii("MantleOS x86_64")) && Returns(answer, 16)
  {
    Running(g, s, step, answer, t, 14);
    UnameIs(g, s, step, answer, t);
    KernelTexts();
    NameStored(t.memory, step.frame.rdi);
  }

  lemma NameStored(memory: Memory, address: nat)
    requires InWindow(address, 18) && RootFs.Holds(memory, address - 0x40_0000, SYSTEM_NAME)
    ensures Text(memory, address, Ascii("MantleOS x86_64"))
  {
    var at, name := address - 0x40_0000, Ascii("MantleOS x86_64");
    KernelTexts();
    var stored := memory[at..at + 17];
    assert stored == name + [0, 0];
    assert memory[at..at + 15] == stored[..15] == name;
    assert memory[at + 15] == stored[15] == 0;
  }

  /** `readdir` (13): see `Calls.ReadDirEffect`; the other arguments fail. */
  lemma ReadDirRefused(g: Setting, s: Snapshot, step: Step, answer: Answer, t: Snapshot)
    requires Calling(g, s, step, answer, t, 13)
    requires !Text(step.memory, step.frame.rdi, Ascii("/")) || !InWindow(step.frame.rsi, step.frame.rdx)
    ensures t.memory == step.memory && Returns(answer, -1)
  {
    Running(g, s, step, answer, t, 13);
    StringRead(step.memory, step.frame.rdi, Ascii("/"));
    assert Ascii("/") == [SLASH];
    ReadDirIs(g, s, step, answer, t);
  }

  lemma ReadDirIs(g: Setting, s: Snapshot, step: Step, answer: Answer, t: Snapshot)
    requires Calling(g, s, step, answer, t, 13)
    ensures var f := step.frame; ReadDirEffect(g, step.memory, f.rdi, f.rsi, f.rdx, answer.result, t.memory)
  {
  }

  lemma ExecIs(g: Setting, s: Snapshot, step: Step, answer: Answer, t: Snapshot)
    requires Calling(g, s, step, answer, t, 6)
    ensures ExecEffect(g, step.memory, s.table, step.frame.rdi, step.frame, answer.after.(rax := step.frame.rax),
                       answer.result, t.memory, t.table)
  {
  }

  /** The window and the page table are those of the loaded image. */
  ghost predicate Holds(base: nat, image: seq<byte>, memory: Memory, table: seq<nat>)
    requires Loadable(image)
  {
    WindowIs(memory, image, Programs(image), Phnum(image)) && WordsAre(table, base, Programs(image), Phnum(image))
  }

  lemma LoadHolds(g: Setting, before: Memory, words: seq<nat>, path: RootFs.CString, image: seq<byte>,
                  result: UserImage, memory: Memory, table: seq<nat>)
    requires LoadEffect(g, before, words, path, result, memory, table)
    requires FileBytes(g, path) == Some(image) && Loadable(image)
    ensures result == Loaded(Entry(image), 0x60_0000) && Holds(g.base, image, memory, table)
  {
    LoadableFacts(image);
  }

  /** `exec` (6) of a file that loads: the program starts at the image's entry, with its stack at 0x600000 ... */
  lemma ExecStarts(g: Setting, s: Snapshot, step: Step, answer: Answer, t: Snapshot, path: RootFs.CString,
                   image: seq<byte>)
    requires Calling(g, s, step, answer, t, 6) && Text(step.memory, step.frame.rdi, path) && |path| < 128
    requires FileBytes(g, path) == Some(image) && Loadable(image)
    ensures answer.after == step.frame.(rax := 0, rip := Entry(image), rsp := 0x60_0000)
    ensures Holds(g.base, image, t.memory, t.table)
  {
    StringRead(step.memory, step.frame.rdi, path);
    ExecIs(g, s, step, answer, t);
    Running(g, s, step, answer, t, 6);
    ExecHolds(g, step.memory, s.table, path, image, step.frame, answer.after.(rax := step.frame.rax), answer.result,
              t.memory, t.table);
  }

  lemma ExecHolds(g: Setting, before: Memory, words: seq<nat>, path: RootFs.CString, image: seq<byte>,
                  frame: Frame, after: Frame, result: int, memory: Memory, table: seq<nat>)
    requires exists loaded: UserImage ::
               LoadEffect(g, before, words, path, loaded, memory, table) && Started(frame, after, loaded, result)
    requires FileBytes(g, path) == Some(image) && Loadable(image)
    ensures after == frame.(rip := Entry(image), rsp := 0x60_0000) && result == 0
    ensures Holds(g.base, image, memory, table)
  {
    var loaded: UserImage :|
      LoadEffect(g, before, words, path, loaded, memory, table) && Started(frame, after, loaded, result);
    LoadHolds(g, before, words, path, image, loaded, memory, table);
  }

  /** ... and of any other file, or none, leaves the registers alone and fails. */
  lemma ExecFails(g: Setting, s: Snapshot, step: Step, answer: Answer, t: Snapshot, path: RootFs.CString)
    requires Calling(g, s, step, answer, t, 6) && Text(step.memory, step.frame.rdi, path) && |path| < 128
    requires FileBytes(g, path) == None || !Loadable(FileBytes(g, path).value)
    ensures answer.after == step.frame.(rax := answer.after.rax) && Returns(answer, -1)
  {
    StringRead(step.memory, step.frame.rdi, path);
    ExecIs(g, s, step, answer, t);
    Running(g, s, step, answer, t, 6);
  }

  lemma ExitIs(g: Setting, s: Snapshot, step: Step, answer: Answer, t: Snapshot)
    requires Calling(g, s, step, answer, t, 11)
    ensures ExitEffect(g, Announced(s.(memory := step.memory), step.fromUser), step.frame,
                       answer.after.(rax := step.frame.rax), answer.result, t)
    ensures Announced(s.(memory := step.memory), step.fromUser).console == Before(s, step)
    ensures Announced(s.(memory := step.memory), step.fromUser).helloFinished == s.helloFinished
  {
    KernelTexts();
  }

  lemma InitPath(path: RootFs.CString)
    requires path == Ascii("/sbin/init")
    ensures path == INIT_PATH
  {
  }

  lemma Farewell(text: seq<byte>)
    requires text == Ascii("MANTLE_USERSPACE_EXIT\n")
    ensures text == FAREWELL
  {
  }

  lemma RelaunchHolds(g: Setting, before: Memory, words: seq<nat>, frame: Frame, after: Frame, memory: Memory,
                      table: seq<nat>, image: seq<byte>)
    requires RelaunchEffect(g, before, words, frame, after, memory, table)
    requires FileBytes(g, INIT_PATH) == Some(image) && Loadable(image)
    ensures after == frame.(rip := Entry(image), rsp := 0x60_0000) && Holds(g.base, image, memory, table)
  {
    var loaded: UserImage, result: int :|
      LoadEffect(g, before, words, INIT_PATH, loaded, memory, table) && Started(frame, after, loaded, result);
    LoadHolds(g, before, words, INIT_PATH, image, loaded, memory, table);
  }

  lemma FirstExit(g: Setting, s: Snapshot, step: Step, answer: Answer, t: Snapshot, image: seq<byte>)
    requires Calling(g, s, step, answer, t, 11) && !s.helloFinished
    requires FileBytes(g, INIT_PATH) == Some(image) && Loadable(image)
    ensures !t.halted && t.helloFinished && t.console == Before(s, step)
    ensures answer.after == step.frame.(rax := answer.after.rax, rip := Entry(image), rsp := 0x60_0000)
    ensures Holds(g.base, image, t.memory, t.table)
  {
    ExitIs(g, s, step, answer, t);
    RelaunchHolds(g, step.memory, s.table, step.frame, answer.after.(rax := step.frame.rax), t.memory, t.table, image);
  }

  /** The first `exit` (11) starts `/sbin/init`, if that loads ... */
  lemma ExitRelaunches(g: Setting, s: Snapshot, step: Step, answer: Answer, t: Snapshot, path: RootFs.CString,
                       image: seq<byte>)
    requires Calling(g, s, step, answer, t, 11) && !s.helloFinished
    requires path == Ascii("/sbin/init") && FileBytes(g, path) == Some(image) && Loadable(image)
    ensures !t.halted && t.helloFinished && t.console == Before(s, step)
    ensures answer.after == step.frame.(rax := answer.after.rax, rip := Entry(image), rsp := 0x60_0000)
    ensures Holds(g.base, image, t.memory, t.table)
  {
    InitPath(path);
    FirstExit(g, s, step, answer, t, image);
  }

  lemma LastExit(g: Setting, s: Snapshot, step: Step, answer: Answer, t: Snapshot)
    requires Calling(g, s, step, answer, t, 11) && (s.helloFinished || !InitLoads(g))
    ensures t.halted && t.console == Before(s, step) + FAREWELL && t.exitCode == Int32(step.frame.rdi)
  {
    ExitIs(g, s, step, answer, t);
  }

  /** ... and every other one stops the machine and says so. */
  lemma ExitStops(g: Setting, s: Snapshot, step: Step, answer: Answer, t: Snapshot, path: RootFs.CString,
                  text: seq<byte>)
    requires path == Ascii("/sbin/init") && text == Ascii("MANTLE_USERSPACE_EXIT\n")
    requires Calling(g, s, step, answer, t, 11)
    requires s.helloFinished || FileBytes(g, path) == None || !Loadable(FileBytes(g, path).value)
    ensures t.halted && t.console == Before(s, step) + text
    ensures -0x8000_0000 <= t.exitCode < 0x8000_0000 && (step.frame.rdi - t.exitCode) % 0x1_0000_0000 == 0
  {
    InitPath(path);
    LastExit(g, s, step, answer, t);
    Farewell(text);
    CodeRead(step.frame.rdi);
  }

  /** `exit` (11) and `reboot` (12): when they stop the machine. */
  lemma StopNumbers(g: Setting, s: Snapshot, step: Step, answer: Answer, t: Snapshot)
    requires Turn(g, s, step, answer, t)
    ensures var number := step.frame.rax % 0x1_0000_0000;
            t.halted <==> number == 12 || (number == 11 && (s.helloFinished || !InitLoads(g)))
  {
    StopsExactly(g, s, step, answer, t);
  }

  /** Every other number fails, and but for the announcement nothing changes. */
  lemma UnknownNumber(g: Setting, s: Snapshot, step: Step, answer: Answer, t: Snapshot)
    requires Turn(g, s, step, answer, t)
    requires step.frame.rax % 0x1_0000_0000 !in {0, 1, 2, 3, 6, 8, 9, 10, 11, 12, 13, 14}
    ensures Returns(answer, -1)
    ensures t == s.(memory := step.memory, console := Before(s, step), markerSeen := s.markerSeen || step.fromUser,
                    markers := t.markers)
  {
    KernelTexts();
    Answered(g, s, step, answer, t);
    assert Kept(Announced(s.(memory := step.memory), step.fromUser), step.frame,
                answer.after.(rax := step.frame.rax), answer.result, t);
    assert t.memory == step.memory;
  }
}
