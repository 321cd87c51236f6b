/** The kernel's system call dispatcher, from boot on. */
module Syscalls {
  import opened Options
  import opened Bytes
  import opened Elf
  import opened ElfLoader
  import opened Calls
  import RootFs

  class Kernel {
    const space: UserSpace
    const rootfs: RootFs.FileSystem
    const descriptors: array<Descriptor>
    /** The characters the keyboard delivers, and how many were read. */
    const keys: nat -> byte
    var keysRead: nat
    var console: seq<byte>
    var pid: nat
    var state: ProcessState
    var exitCode: int
    var cwd: RootFs.CString
    var markerSeen: bool
    var helloFinished: bool
    var halted: bool
    ghost var relaunches: nat
    ghost var markers: nat
    /** How many calls of `open` and `close` succeeded. */
    ghost var opens: nat
    ghost var closes: nat

    ghost predicate Valid()
      reads rootfs
    {
      && space.Valid() && rootfs.Valid()
      && descriptors.Length == MAX_FDS
    }

    /** What no call changes. */
    ghost function Setting(): Calls.Setting
      requires Valid()
      reads rootfs
    {
      Given(space.base, rootfs.Mounted(), rootfs.image, keys)
    }

    ghost function Now(): Snapshot
      requires Valid()
      reads this, rootfs, space.memory, space.table, descriptors
    {
      State(space.memory[..], space.table[..], descriptors[..], keysRead, console, pid, state, exitCode, cwd,
            markerSeen, helloFinished, halted, relaunches, markers, opens, closes)
    }

    /** What holds after every system call of every run. */
    ghost predicate Invariant()
      reads this, rootfs, space.memory, space.table, descriptors
    {
      Valid() && Sound(Setting(), Now())
    }

    /** Nothing is open and nothing has happened yet. */
    ghost predicate Untouched()
      reads this, descriptors
    {
      && OpenFiles(descriptors[..]) == map[] && opens == closes == 0
      && !markerSeen && !helloFinished && !halted && relaunches == 0 && markers == 0
    }

    /** The kernel before it starts: nothing mounted, nothing open. */
    constructor (base: nat, keys: nat -> byte)
      requires base % 4096 == 0 && base + WINDOW <= PAGE_NX
      ensures Valid() && Untouched() && !rootfs.ready && console == [] && keysRead == 0
      ensures fresh(rootfs) && fresh(descriptors) && fresh(space.memory) && fresh(space.table)
    {
      this.keys := keys;
      space := new UserSpace(base);
      rootfs := new RootFs.FileSystem();
      descriptors := new Descriptor[MAX_FDS](_ => Descriptor(false, RootFs.Entry([], 0, 0, 0), 0));
      keysRead, console := 0, [];
      pid, state, exitCode, cwd := 0, Ready, 0, [];
      markerSeen, helloFinished, halted := false, false, false;
      relaunches, markers, opens, closes := 0, 0, 0, 0;
    }

    /** `string_length_user`. */
    method StringLength(address: nat) returns (length: nat)
      requires space.Valid()
      ensures length == match StringAt(space.memory[..], address)
                        case None => NO_STRING
                        case Some(text) => |text|
    {
      if !UserRange(address, 1) {
        return NO_STRING;
      }
      var at := address - USER_BASE;
      ghost var memory := space.memory[..];
      length := 0;
      while length < MAX_PATH && UserRange(address + length, 1) && space.memory[at + length] != 0
        invariant length <= MAX_PATH && at + length <= WINDOW
        invariant Length(memory, at, 0) == Length(memory, at, length)
      {
        length := length + 1;
      }
      if length == MAX_PATH || !UserRange(address + length, 1) {
        return NO_STRING;
      }
    }

    /** The copy of a path into the kernel. */
    method CopyPath(address: nat) returns (path: Option<RootFs.CString>)
      requires space.Valid()
      ensures path == StringAt(space.memory[..], address)
    {
      var length := StringLength(address);
      if length == NO_STRING || length >= MAX_PATH {
        return None;
      }
      return Some(space.memory[address - USER_BASE..address - USER_BASE + length]);
    }

    /** `write`: the bytes of the buffer reach the console, except NULs. */
    method Write(fd: nat, address: nat, length: nat) returns (result: int)
      requires space.Valid()
      modifies this`console
      ensures WriteEffect(space.memory[..], fd, address, length, result, old(console), console)
    {
      if (fd != 1 && fd != 2) || !UserRange(address, length) {
        return -1;
      }
      var at := address - USER_BASE;
      for index := 0 to length
        invariant console == old(console) + Shown(space.memory[at..at + index])
      {
        ghost var text := space.memory[at..at + index + 1];
        assert text[..index] == space.memory[at..at + index] && text[index] == space.memory[at + index];
        if space.memory[at + index] != 0 {
          console := console + [space.memory[at + index]];
        }
      }
      return length;
    }

    /** `read` from the keyboard: up to the first line break, or until the buffer is full. */
    method Read(fd: nat, address: nat, length: nat) returns (result: int)
      requires space.Valid()
      modifies this`keysRead, space.memory
      ensures ReadEffect(keys, old(space.memory[..]), old(keysRead), fd, address, length, result,
                         space.memory[..], keysRead)
    {
      if fd != 0 || length == 0 || !UserRange(address, length) {
        return -1;
      }
      result := ReadKeys(space.memory, address - USER_BASE, length, keys, keysRead);
      keysRead := keysRead + result;
    }

    /** `open`: the least free descriptor from 3 on takes the file, or nothing changes. */
    method OpenFile(address: nat) returns (result: int)
      requires Valid()
      modifies descriptors, this`opens
      ensures OpenEffect(rootfs.Mounted(), space.memory[..], old(descriptors[..]), address, result, descriptors[..])
      ensures opens == old(opens) + Counted(true, result)
    {
      var path := CopyPath(address);
      if path.None? {
        return -1;
      }
      result := TakeDescriptor(path.value);
      if result >= 0 {
        opens := opens + 1;
      }
    }

    method TakeDescriptor(path: RootFs.CString) returns (result: int)
      requires Valid()
      modifies descriptors
      ensures var ds, file := old(descriptors[..]), RootFs.Lookup(rootfs.Mounted(), path);
              if file.Some? && LeastFree(ds, 3) < MAX_FDS then
                result == LeastFree(ds, 3) && descriptors[..] == ds[result := Descriptor(true, file.value, 0)]
              else result == -1 && descriptors[..] == ds
    {
      ghost var ds, found := descriptors[..], RootFs.Lookup(rootfs.Mounted(), path);
      for index := 3 to MAX_FDS
        invariant descriptors[..] == ds
        invariant found.Some? ==> LeastFree(ds, 3) == LeastFree(ds, index)
      {
        if !descriptors[index].used {
          var file := rootfs.Open(path);
          if file.Some? {
            descriptors[index] := Descriptor(true, file.value, 0);
            return index;
          }
        }
      }
      return -1;
    }

    /** `close`: exactly the open descriptor named goes. */
    method Close(fd: nat) returns (result: int)
      requires Valid()
      modifies descriptors, this`closes
      ensures CloseEffect(old(descriptors[..]), fd, result, descriptors[..])
      ensures closes == old(closes) + Counted(true, result)
    {
      if fd < MAX_FDS {
        GivingStep(descriptors[..], fd);
      }
      if fd < MAX_FDS && descriptors[fd].used {
        descriptors[fd] := descriptors[fd].(used := false);
        closes := closes + 1;
        return 0;
      }
      return -1;
    }

    /** `getcwd`. */
    method GetCwd(address: nat, size: nat) returns (result: int)
      requires space.Valid()
      modifies space.memory
      ensures GetCwdEffect(cwd, old(space.memory[..]), address, size, result, space.memory[..])
    {
      if !UserRange(address, size) || size <= |cwd| {
        return -1;
      }
      StoreBytes(space.memory, address - USER_BASE, cwd + [0]);
      return |cwd|;
    }

    /** `uname`. */
    method Uname(address: nat, size: nat) returns (result: int)
      requires space.Valid()
      modifies space.memory
      ensures UnameEffect(old(space.memory[..]), address, size, result, space.memory[..])
    {
      if !UserRange(address, size) || size < 18 {
        return -1;
      }
      StoreBytes(space.memory, address - USER_BASE, SYSTEM_NAME);
      return |SYSTEM_NAME| - 1;
    }

    /** `chdir`: only the root directory is accepted. */
    method Chdir(address: nat) returns (result: int)
      requires space.Valid()
      modifies this`cwd
      ensures ChdirEffect(space.memory[..], old(cwd), address, result, cwd)
    {
      var length := StringLength(address);
      ghost var text := StringAt(space.memory[..], address);
      assert length == 1 ==> text.value == [space.memory[..][address - USER_BASE]];
      if length != 1 || space.memory[address - USER_BASE] != SLASH {
        return -1;
      }
      cwd := [SLASH];
      return 0;
    }

    /** `readdir`. */
    method ReadDir(path: nat, address: nat, size: nat) returns (result: int)
      requires Valid()
      modifies space.memory
      ensures ReadDirEffect(Setting(), old(space.memory[..]), path, address, size, result, space.memory[..])
    {
      var name := CopyPath(path);
      if name.None? || |name.value| != 1 || !UserRange(address, size) {
        return -1;
      }
      result := rootfs.List(name.value, space.memory, address - USER_BASE, size);
    }

    /** Opens and loads a program. */
    method LoadProgram(path: RootFs.CString) returns (result: UserImage)
      requires Valid()
      modifies space.memory, space.table
      ensures LoadEffect(Setting(), old(space.memory[..]), old(space.table[..]), path, result,
                         space.memory[..], space.table[..])
    {
      var file := Fetch(path);
      if file.None? {
        return Rejected;
      }
      result := LoadImage(file.value);
    }

    method Fetch(path: RootFs.CString) returns (content: Option<seq<byte>>)
      requires Valid()
      ensures content == FileBytes(Setting(), path)
    {
      var file := rootfs.Open(path);
      if file.None? {
        return None;
      }
      LookupIn(rootfs.Mounted(), path);
      return Some(Content(rootfs.image, file.value));
    }

    method LoadImage(image: seq<byte>) returns (result: UserImage)
      requires space.Valid() && |image| < U32
      modifies space.memory, space.table
      ensures ImageEffect(space.base, old(space.memory[..]), old(space.table[..]), image, result,
                          space.memory[..], space.table[..])
    {
      result := space.Load(image);
    }

    /** `exec`: a failure leaves the registers alone, but may have overwritten the caller. */
    method Exec(frame: Frame, address: nat) returns (after: Frame, result: int)
      requires Valid()
      modifies space.memory, space.table
      ensures ExecEffect(Setting(), old(space.memory[..]), old(space.table[..]), address, frame, after, result,
                         space.memory[..], space.table[..])
    {
      var path := CopyPath(address);
      if path.None? {
        return frame, -1;
      }
      var image := LoadProgram(path.value);
      if image.Rejected? {
        assert Started(frame, frame, image, -1);
        return frame, -1;
      }
      after := frame.(rip := image.entry, rsp := image.stack);
      assert Started(frame, after, image, 0);
      return after, 0;
    }

    method Relaunch(frame: Frame) returns (ok: bool, after: Frame)
      requires Valid()
      modifies space.memory, space.table
      ensures ok <==> InitLoads(Setting())
      ensures RelaunchEffect(Setting(), old(space.memory[..]), old(space.table[..]), frame, after,
                             space.memory[..], space.table[..])
    {
      var image := LoadProgram(INIT_PATH);
      if image.Rejected? {
        assert Started(frame, frame, image, -1);
        return false, frame;
      }
      after := frame.(rip := image.entry, rsp := image.stack);
      assert Started(frame, after, image, 0);
      return true, after;
    }

    /** `exit`: the first one starts `/sbin/init` in place of the program, when it
        can be loaded; any other stops the machine. */
    method Exit(frame: Frame) returns (after: Frame)
      requires Valid() && !halted
      modifies this`helloFinished, this`relaunches, this`state, this`exitCode, this`console, this`halted
      modifies space.memory, space.table
      ensures ExitEffect(Setting(), old(Now()), frame, after, -1, Now())
    {
      var relaunched := false;
      after := frame;
      if !helloFinished {
        relaunched, after := Relaunch(frame);
      }
      Leave(Int32(frame.rdi), relaunched);
    }

    /** The record of a program's end. */
    method Leave(code: int, relaunched: bool)
      modifies this`helloFinished, this`relaunches, this`state, this`exitCode, this`console, this`halted
      ensures exitCode == code
      ensures if relaunched then
                && helloFinished && relaunches == old(relaunches) + 1 && state == Ready
                && console == old(console) && halted == old(halted)
              else
                && helloFinished == old(helloFinished) && relaunches == old(relaunches) && state == Exited
                && console == old(console) + FAREWELL && halted
    {
      exitCode := code;
      if relaunched {
        helloFinished := true;
        relaunches := relaunches + 1;
        state := Ready;
      } else {
        state := Exited;
        console := console + FAREWELL;
        halted := true;
      }
    }

    // ----- Dispatch -----

    /** The calls that may write to the caller's buffer. */
    method PerformBuffered(frame: Frame) returns (result: int)
      requires Valid() && !halted && frame.rax % U32 in {SYS_READ, SYS_GETCWD, SYS_READDIR, SYS_UNAME}
      modifies this`keysRead, space.memory
      ensures -U32 < result < U32
      ensures Effect(Setting(), old(Now()), frame, frame, result, Now())
      ensures Kept(old(Now()), frame, frame, result, Now())
    {
      ghost var s := Now();
      var call := frame.rax % U32;
      if call == SYS_READ {
        result := Read(frame.rdi, frame.rsi, frame.rdx);
      } else if call == SYS_GETCWD {
        result := GetCwd(frame.rdi, frame.rsi);
      } else if call == SYS_READDIR {
        result := ReadDir(frame.rdi, frame.rsi, frame.rdx);
      } else {
        result := Uname(frame.rdi, frame.rsi);
      }
      BufferedCall(Setting(), s, frame, result, Now());
    }

    /** The calls that touch neither memory nor page table. */
    method PerformPlain(frame: Frame) returns (result: int)
      requires Valid() && !halted && 0 <= pid < U32
      requires frame.rax % U32 in {SYS_WRITE, SYS_OPEN, SYS_CLOSE, SYS_GETPID, SYS_CHDIR}
      modifies this`console, this`cwd, this`opens, this`closes, descriptors
      ensures -U32 < result < U32
      ensures Effect(Setting(), old(Now()), frame, frame, result, Now())
      ensures Kept(old(Now()), frame, frame, result, Now())
    {
      ghost var s := Now();
      var call := frame.rax % U32;
      if call == SYS_WRITE {
        result := Write(frame.rdi, frame.rsi, frame.rdx);
      } else if call == SYS_OPEN {
        result := OpenFile(frame.rdi);
      } else if call == SYS_CLOSE {
        result := Close(frame.rdi);
      } else if call == SYS_GETPID {
        result := pid;
      } else {
        result := Chdir(frame.rdi);
      }
      PlainCall(Setting(), s, frame, result, Now());
    }

    /** Every call but `exec` and `exit`. */
    method PerformQuiet(frame: Frame) returns (result: int)
      requires Valid() && !halted && 0 <= pid < U32 && frame.rax % U32 !in {SYS_EXEC, SYS_EXIT}
      modifies this`keysRead, this`console, this`cwd, this`opens, this`closes, this`halted, descriptors, space.memory
      ensures -U32 < result < U32
      ensures Effect(Setting(), old(Now()), frame, frame, result, Now())
      ensures Kept(old(Now()), frame, frame, result, Now())
    {
      var call := frame.rax % U32;
      if call == SYS_READ || call == SYS_GETCWD || call == SYS_READDIR || call == SYS_UNAME {
        result := PerformBuffered(frame);
      } else if call == SYS_WRITE || call == SYS_OPEN || call == SYS_CLOSE || call == SYS_GETPID || call == SYS_CHDIR {
        result := PerformPlain(frame);
      } else {
        result := PerformOther(frame);
      }
    }

    method Perform(frame: Frame) returns (after: Frame, result: int)
      requires Valid() && !halted && 0 <= pid < U32
      modifies this, descriptors, space.memory, space.table
      ensures -U32 < result < U32 && after.rax == frame.rax
      ensures Effect(Setting(), old(Now()), frame, after, result, Now())
      ensures Kept(old(Now()), frame, after, result, Now())
    {
      var call := frame.rax % U32;
      ghost var s := Now();
      if call == SYS_EXEC {
        after, result := Exec(frame, frame.rdi);
        ExecCall(Setting(), s, frame, after, result, Now());
      } else if call == SYS_EXIT {
        after := Exit(frame);
        result := -1;
        ExitCall(Setting(), s, frame, after, Now());
      } else {
        after := frame;
        result := PerformQuiet(frame);
      }
    }

    /** `reboot` stops the machine; every other number is refused. */
    method PerformOther(frame: Frame) returns (result: int)
      requires Valid() && !halted && frame.rax % U32 !in CALLS - {SYS_REBOOT}
      modifies this`halted
      ensures result == -1
      ensures Effect(Setting(), old(Now()), frame, frame, result, Now())
      ensures Kept(old(Now()), frame, frame, result, Now())
    {
      if frame.rax % U32 == SYS_REBOOT {
        halted := true;
      }
      return -1;
    }

    /** The marker of the first call that comes from ring 3. */
    method Announce(fromUser: bool)
      requires Valid()
      modifies this`markerSeen, this`markers, this`console
      ensures Now() == Announced(old(Now()), fromUser)
    {
      if !markerSeen && fromUser {
        markerSeen := true;
        markers := markers + 1;
        console := console + MARKER;
      }
    }

    /** `mantle_syscall_dispatch`; `fromUser` is the origin flag that the entry code
        sets. A call that stops the machine returns no registers. */
    method Dispatch(frame: Frame, fromUser: bool) returns (answer: Answer)
      requires Invariant() && !halted
      modifies this, descriptors, space.memory, space.table
      ensures Invariant()
      ensures Called(Setting(), old(Now()), frame, fromUser, answer, Now())
    {
      ghost var g, s := Setting(), Now();
      Announce(fromUser);
      var after, result := Perform(frame);
      assert after == after.(rax := frame.rax);
      answer := Answer(if halted then after else after.(rax := Encoded(result)), result);
      CallKeepsSound(g, s, frame, fromUser, answer, Now());
    }

    /** Mounts the root filesystem, then sets up the page table and the process record. */
    method Prepare(image: seq<byte>) returns (mounted: bool)
      requires Valid() && |image| < U32
      modifies this`pid, this`state, this`exitCode, this`cwd, rootfs, space.table
      ensures Valid() && mounted == rootfs.ready == RootFs.ImageOk(image)
      ensures mounted ==> rootfs.image == image && rootfs.entries == Le32(image, 4) && pid == 1 && cwd == [SLASH]
    {
      mounted := rootfs.Mount(image);
      if !mounted {
        return;
      }
      space.InitTable();
      pid, state, exitCode, cwd := 1, Ready, 0, [SLASH];
    }

    /** The program starts at the image's entry, with the image in its window. */
    ghost predicate Starts(image: seq<byte>, program: UserImage)
      reads space, space.memory, space.table
    {
      Loadable(image) && program == Loaded(Entry(image), USER_LIMIT) && space.StartsWith(image)
    }

    /** From mounting to the first program, as `mantle_kernel_main` does it. */
    method Boot(image: seq<byte>, gdtOk: bool, tssOk: bool, kernelPde: nat) returns (started: bool, program: UserImage)
      requires Valid() && |image| < U32 && Untouched()
      modifies this, rootfs, space.memory, space.table
      ensures Valid() && rootfs.ready == RootFs.ImageOk(image)
      ensures rootfs.ready ==> rootfs.image == image && rootfs.entries == Le32(image, 4)
      ensures started ==> Invariant() && !halted && program.Loaded? && rootfs.image == image
      ensures started <==> RootFs.ImageOk(image) && FileBytes(Setting(), HELLO_PATH).Some? &&
                           Startable(FileBytes(Setting(), HELLO_PATH).value, gdtOk, tssOk, kernelPde)
      ensures started ==> Starts(FileBytes(Setting(), HELLO_PATH).value, program)
    {
      var mounted := Prepare(image);
      if !mounted {
        return false, Rejected;
      }
      started, program := StartHello(gdtOk, tssOk, kernelPde);
    }

    method StartHello(gdtOk: bool, tssOk: bool, kernelPde: nat) returns (started: bool, program: UserImage)
      requires Valid() && Untouched() && pid == 1 && cwd == [SLASH]
      modifies space.memory, space.table
      ensures started ==> Invariant() && program.Loaded?
      ensures started <==> FileBytes(Setting(), HELLO_PATH).Some? &&
                           Startable(FileBytes(Setting(), HELLO_PATH).value, gdtOk, tssOk, kernelPde)
      ensures started ==> Starts(FileBytes(Setting(), HELLO_PATH).value, program)
    {
      started, program := StartFile(HELLO_PATH, gdtOk, tssOk, kernelPde);
      if started {
        FirstState();
      }
    }

    lemma FirstState()
      requires Valid() && Untouched() && Mapped(space.base, space.table[..]) && pid == 1 && cwd == [SLASH]
      ensures Invariant()
    {
    }

    method StartFile(path: RootFs.CString, gdtOk: bool, tssOk: bool, kernelPde: nat)
      returns (started: bool, program: UserImage)
      requires Valid()
      modifies space.memory, space.table
      ensures started ==> program.Loaded? && Mapped(space.base, space.table[..])
      ensures started <==> FileBytes(Setting(), path).Some? &&
                           Startable(FileBytes(Setting(), path).value, gdtOk, tssOk, kernelPde)
      ensures started ==> Starts(FileBytes(Setting(), path).value, program)
    {
      var file := Fetch(path);
      if file.None? {
        return false, Rejected;
      }
      started, program := StartProgram(file.value, gdtOk, tssOk, kernelPde);
    }

    method StartProgram(image: seq<byte>, gdtOk: bool, tssOk: bool, kernelPde: nat)
      returns (started: bool, program: UserImage)
      requires space.Valid() && |image| < U32
      modifies space.memory, space.table
      ensures started ==> program.Loaded? && Mapped(space.base, space.table[..])
      ensures started <==> Startable(image, gdtOk, tssOk, kernelPde)
      ensures started ==> Starts(image, program)
    {
      program, started := space.LoadAndCheck(image, gdtOk, tssOk, kernelPde);
      if started {
        LoadedMapped(space.table[..], space.base, image);
      }
    }

    /** A whole run: before each call the user program leaves any registers and any
        memory it likes. A run ends early only when a call stops the machine. */
    method Run(steps: seq<Step>) returns (answers: seq<Answer>, ghost trace: seq<Snapshot>)
      requires Invariant() && !halted
      modifies this, descriptors, space.memory, space.table
      ensures Invariant()
      ensures IsRun(Setting(), steps, answers, trace) && trace[0] == old(Now()) && trace[|answers|] == Now()
      ensures |answers| < |steps| ==> halted
    {
      answers, trace := [], [Now()];
      while |answers| < |steps| && !halted
        invariant |answers| <= |steps| && Invariant() && Setting() == old(Setting())
        invariant IsRun(Setting(), steps, answers, trace) && trace[0] == old(Now()) && trace[|answers|] == Now()
      {
        var answer := TakeTurn(steps[|answers|]);
        RunExtends(Setting(), steps, answers, trace, answer, Now());
        answers, trace := answers + [answer], trace + [Now()];
      }
    }

    method TakeTurn(step: Step) returns (answer: Answer)
      requires Invariant() && !halted
      modifies this, descriptors, space.memory, space.table
      ensures Invariant() && Turn(Setting(), old(Now()), step, answer, Now())
    {
      UserRuns(step.memory);
      answer := Dispatch(step.frame, step.fromUser);
    }

    /** The user program between two calls: it may write anywhere in its window. */
    method UserRuns(memory: seq<byte>)
      requires space.Valid() && |memory| == WINDOW
      modifies space.memory
      ensures space.memory[..] == memory
    {
      for i := 0 to WINDOW
        invariant forall k :: 0 <= k < i ==> space.memory[k] == memory[k]
      {
        space.memory[i] := memory[i];
      }
    }
  }

  /** Byte after byte into memory. */
  method StoreBytes(memory: array<byte>, at: nat, part: seq<byte>)
    requires at + |part| <= memory.Length
    modifies memory
    ensures RootFs.Holds(memory[..], at, part)
    ensures RootFs.OnlyInside(old(memory[..]), memory[..], at, |part|)
  {
    for index := 0 to |part|
      invariant forall i :: 0 <= i < index ==> memory[at + i] == part[i]
      invariant RootFs.OnlyInside(old(memory[..]), memory[..], at, index)
    {
      memory[at + index] := part[index];
    }
  }

  /** The loop of `read`: one key after the other into the buffer. */
  method ReadKeys(memory: array<byte>, at: nat, length: nat, keys: nat -> byte, from: nat) returns (count: nat)
    requires at + length <= memory.Length
    modifies memory
    ensures count == |Typed(keys, from, length)|
    ensures memory[at..at + count] == Typed(keys, from, length)
    ensures RootFs.OnlyInside(old(memory[..]), memory[..], at, count)
  {
    for index := 0 to length
      invariant Turns(keys, from, length) == index + Turns(keys, from + index, length - index)
      invariant memory[at..at + index] == Keys(keys, from, index)
      invariant RootFs.OnlyInside(old(memory[..]), memory[..], at, index)
    {
      var value := keys(from + index);
      PutKey(memory, at, index, value, old(memory[..]));
      if value == NEWLINE {
        return index + 1;
      }
    }
    return length;
  }

  method PutKey(memory: array<byte>, at: nat, n: nat, value: byte, ghost before: seq<byte>)
    requires at + n < memory.Length && RootFs.OnlyInside(before, memory[..], at, n)
    modifies memory
    ensures memory[at..at + n + 1] == old(memory[at..at + n]) + [value]
    ensures RootFs.OnlyInside(before, memory[..], at, n + 1)
  {
    memory[at + n] := value;
  }
}
