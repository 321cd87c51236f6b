/** The user window and its page table, and the loader that fills them. */
module ElfLoader {
  import opened Bytes
  import opened Bits
  import opened Elf

  /** The window after the first `n` program headers. */
  ghost predicate WindowIs(memory: seq<byte>, image: seq<byte>, ps: seq<Program>, n: nat)
    requires n <= |ps| && AllAcceptable(ps, n, |image|)
  {
    forall k :: 0 <= k < |memory| ==> memory[k] == ByteAfter(image, ps, n, k)
  }

  /** The page table after the first `n` program headers. */
  ghost predicate WordsAre(table: seq<nat>, base: nat, ps: seq<Program>, n: nat)
    requires n <= |ps|
  {
    forall page :: 0 <= page < |table| ==> table[page] == PteWord(base + page * 4096, PermissionAfter(ps, n, page))
  }

  class UserSpace {
    /** Physical address of the 4096-aligned window. */
    const base: nat
    const memory: array<byte>
    const table: array<nat>

    ghost predicate Valid() {
      && memory.Length == WINDOW && table.Length == PAGES && (memory as object) != (table as object)
      && base % 4096 == 0 && base + WINDOW <= PAGE_NX
    }

    function Frame(page: nat): nat {
      base + page * 4096
    }

    ghost predicate MemoryIs(image: seq<byte>, ps: seq<Program>, n: nat)
      requires n <= |ps| && AllAcceptable(ps, n, |image|)
      reads memory
    {
      WindowIs(memory[..], image, ps, n)
    }

    ghost predicate TableIs(ps: seq<Program>, n: nat)
      requires n <= |ps|
      reads table
    {
      WordsAre(table[..], base, ps, n)
    }

    constructor (base: nat)
      requires base % 4096 == 0 && base + WINDOW <= PAGE_NX
      ensures Valid() && this.base == base && fresh(memory) && fresh(table)
    {
      this.base := base;
      memory := new byte[WINDOW];
      table := new nat[PAGES];
    }

    lemma FrameIsOk(page: nat)
      requires Valid() && page < PAGES
      ensures FrameOk(Frame(page))
    {
    }

    method CopyBytes(at: nat, source: seq<byte>, offset: nat, size: nat)
      requires at + size <= memory.Length && offset + size <= |source|
      modifies memory
      ensures forall k :: 0 <= k < memory.Length ==>
        memory[k] == if at <= k < at + size then source[offset + (k - at)] else old(memory[k])
    {
      for index := 0 to size
        invariant forall k :: 0 <= k < memory.Length ==>
          memory[k] == if at <= k < at + index then source[offset + (k - at)] else old(memory[k])
      {
        memory[at + index] := source[offset + index];
      }
    }

    method ClearBytes(at: nat, size: nat)
      requires at + size <= memory.Length
      modifies memory
      ensures forall k :: 0 <= k < memory.Length ==>
        memory[k] == if at <= k < at + size then 0 else old(memory[k])
    {
      for index := 0 to size
        invariant forall k :: 0 <= k < memory.Length ==>
          memory[k] == if at <= k < at + index then 0 else old(memory[k])
      {
        memory[at + index] := 0;
      }
    }

    /** `mantle_arch_user_memory_init`: every page readable from ring 3 and nothing more. */
    method InitTable()
      requires Valid()
      modifies table
      ensures forall page :: 0 <= page < PAGES ==>
        table[page] == PteWord(Frame(page), Permission(false, false))
    {
      InitialFlags();
      for index := 0 to PAGES
        invariant forall page :: 0 <= page < index ==>
          table[page] == PteWord(Frame(page), Permission(false, false))
      {
        FrameIsOk(index);
        OrFlags(Frame(index), Permission(false, false));
        table[index] := Or(base + index * 4096, 0x8000_0000_0000_0005);
      }
    }

    /** The table before any segment: everything mapped read-only and not
        executable, except the sixteen writable stack pages at the end. */
    method ResetTable()
      requires Valid()
      modifies table
      ensures forall page :: 0 <= page < PAGES ==>
        table[page] == PteWord(Frame(page), DefaultPermission(page))
    {
      for index := 0 to PAGES
        invariant forall page :: 0 <= page < index ==>
          table[page] == PteWord(Frame(page), Permission(false, false))
      {
        FrameIsOk(index);
        OrDefault(Frame(index));
        table[index] := Or(Or(Or(base + index * 4096, PAGE_PRESENT), PAGE_USER), PAGE_NX);
      }
      for index := 496 to PAGES
        invariant forall page :: 0 <= page < PAGES ==>
          table[page] == PteWord(Frame(page), Permission(496 <= page < index, false))
      {
        FrameIsOk(index);
        OrStack(Frame(index));
        table[index] := Or(Or(Or(Or(base + index * 4096, PAGE_PRESENT), PAGE_WRITE), PAGE_USER), PAGE_NX);
      }
    }

    /** Copies one accepted segment, zero-fills its tail and sets its pages. */
    method LoadSegment(image: seq<byte>, program: Program)
      requires Valid() && SegmentOk(program, |image|)
      modifies memory, table
      ensures forall k :: 0 <= k < memory.Length ==>
        memory[k] == if program.Covers(k) then SegmentByte(image, program, k) else old(memory[k])
      ensures forall page :: 0 <= page < table.Length ==>
        table[page] == if program.Touches(page)
                       then PteWord(Frame(page), program.Granted())
                       else old(table[page])
    {
      var destination := program.vaddr - USER_BASE;
      CopyBytes(destination, image, program.offset, program.filesz);
      ClearBytes(destination + program.filesz, program.memsz - program.filesz);
      var firstPage := destination / 4096;
      var lastPage := (destination + program.memsz + 4095) / 4096;
      var permissions := Or(PAGE_PRESENT, PAGE_USER);
      FlagTests(program.flags);
      if And(program.flags, PF_W) != 0 {
        permissions := Or(permissions, PAGE_WRITE);
      }
      if And(program.flags, PF_X) == 0 {
        permissions := Or(permissions, PAGE_NX);
      }
      ghost var granted := program.Granted();
      assert permissions == Flags(granted);
      for page := firstPage to lastPage
        modifies table
        invariant forall p :: 0 <= p < table.Length ==>
          table[p] == if firstPage <= p < page then PteWord(Frame(p), granted) else old(table[p])
      {
        FrameIsOk(page);
        OrFlags(Frame(page), granted);
        table[page] := Or(base + page * 4096, permissions);
      }
    }

    /** One more segment, in terms of the whole table of program headers. */
    method LoadNext(image: seq<byte>, program: Program, ghost ps: seq<Program>, ghost n: nat)
      requires Valid() && n < |ps| && program == ps[n] && program.Load() && SegmentOk(program, |image|)
      requires AllAcceptable(ps, n, |image|) && MemoryIs(image, ps, n) && TableIs(ps, n)
      modifies memory, table
      ensures AllAcceptable(ps, n + 1, |image|) && MemoryIs(image, ps, n + 1) && TableIs(ps, n + 1)
    {
      LoadSegment(image, program);
    }

    lemma Skipped(image: seq<byte>, ps: seq<Program>, n: nat)
      requires n < |ps| && !ps[n].Load()
      requires AllAcceptable(ps, n, |image|) && MemoryIs(image, ps, n) && TableIs(ps, n)
      ensures AllAcceptable(ps, n + 1, |image|) && MemoryIs(image, ps, n + 1) && TableIs(ps, n + 1)
    {
    }

    /** `mantle_elf_load`. It answers 0 exactly for the loadable images. It is not
        atomic: a header that passes clears the window, and every segment before
        the first unacceptable one stays loaded. */
    method Load(image: seq<byte>) returns (result: UserImage)
      requires Valid() && |image| < U32
      modifies memory, table
      ensures result.Loaded? <==> Loadable(image)
      ensures result.Loaded? ==> result.entry == Entry(image) && result.stack == USER_LIMIT
      ensures !HeaderOk(image) ==> memory[..] == old(memory[..]) && table[..] == old(table[..])
      ensures HeaderOk(image) ==>
                && MemoryIs(image, Programs(image), Processed(Programs(image), |image|, 0))
                && TableIs(Programs(image), Processed(Programs(image), |image|, 0))
    {
      if !HeaderTest(image) {
        return Rejected;
      }
      ClearBytes(0, WINDOW);
      ResetTable();
      var covered := LoadSegments(image);
      if !covered {
        return Rejected;
      }
      return Loaded(Entry(image), USER_LIMIT);
    }

    /** The window and the table after the first `n` program headers, all of them acceptable. */
    ghost predicate LoadedTo(image: seq<byte>, n: nat)
      requires HeaderOk(image) && n <= Phnum(image)
      reads memory, table
    {
      AllAcceptable(Programs(image), n, |image|) && MemoryIs(image, Programs(image), n) && TableIs(Programs(image), n)
    }

    /** The loop of the loader, over the cleared window. */
    method LoadSegments(image: seq<byte>) returns (covered: bool)
      requires Valid() && HeaderOk(image) && LoadedTo(image, 0)
      modifies memory, table
      ensures covered <==> Loadable(image)
      ensures LoadedTo(image, Processed(Programs(image), |image|, 0))
    {
      var loadCount, entryValid, ok := 0, false, true;
      var index: nat := 0;
      while ok && index < Phnum(image)
        invariant index <= Phnum(image) && LoadedTo(image, index)
        invariant entryValid ==> loadCount > 0
        invariant ok ==> (entryValid <==> EntryCovered(Programs(image), index, Entry(image)))
        invariant !ok ==> index < Phnum(image) && !Acceptable(Programs(image)[index], |image|)
        decreases Phnum(image) - index, ok
      {
        var loads, enters;
        ok, loads, enters := LoadProgram(image, index);
        if ok {
          loadCount, entryValid := loadCount + (if loads then 1 else 0), entryValid || enters;
          index := index + 1;
        }
      }
      ProcessedIs(Programs(image), |image|, index);
      return ok && loadCount != 0 && entryValid;
    }

    /** One turn: an acceptable loadable segment is loaded, another kind is passed over. */
    method LoadProgram(image: seq<byte>, index: nat) returns (ok: bool, loads: bool, enters: bool)
      requires Valid() && HeaderOk(image) && index < Phnum(image) && LoadedTo(image, index)
      modifies memory, table
      ensures ok <==> Acceptable(Programs(image)[index], |image|)
      ensures EntryCovered(Programs(image), index + 1, Entry(image)) <==>
              EntryCovered(Programs(image), index, Entry(image)) || enters
      ensures enters ==> loads
      ensures LoadedTo(image, if ok then index + 1 else index)
    {
      ghost var ps := Programs(image);
      var program := ProgramAt(image, index);
      assert program == ps[index];
      EntryStep(ps, index, Entry(image));
      if program.kind != PT_LOAD {
        Skipped(image, ps, index);
        return true, false, false;
      }
      enters := EntryTest(program, Entry(image));
      if !SegmentTest(program, |image|) {
        return false, true, enters;
      }
      LoadNext(image, program, ps, index);
      return true, true, enters;
    }

    ghost predicate MappingReady(entry: nat, stack: nat, kernelPde: nat)
      requires Valid()
      reads table
    {
      && USER_BASE < stack <= USER_LIMIT && stack % 16 == 0
      && UserRange(entry, 1)
      && PteTests(table[(entry - USER_BASE) / 4096], table[(stack - 1 - USER_BASE) / 4096], kernelPde)
    }

    /** The tests `ring3_diagnostics` makes before entering ring 3, on the
        hardware values it reads (GDT and TSS checks and the kernel's first page
        directory entry are inputs). It stores a sentinel in the top stack word; that
        of a stack at the window's base lies below the window. */
    method Diagnostics(entry: nat, stack: nat, gdtOk: bool, tssOk: bool, kernelPde: nat) returns (ok: bool)
      requires Valid()
      modifies memory
      ensures var at := stack - 8 - USER_BASE;
              if gdtOk && tssOk && USER_BASE < stack <= USER_LIMIT && stack % 16 == 0
              then Marked(old(memory[..]), at, memory[..])
              else memory[..] == old(memory[..])
      ensures ok <==> gdtOk && tssOk && MappingReady(entry, stack, kernelPde)
    {
      if !gdtOk || !tssOk {
        return false;
      }
      if stack < USER_BASE || stack > USER_LIMIT || !StackTest(stack) {
        return false;
      }
      if stack > USER_BASE {
        StoreSentinel(stack - 8 - USER_BASE);
      }
      var stackPage := StackPage(stack);
      if entry < USER_BASE || entry >= USER_LIMIT || stackPage >= PAGES {
        return false;
      }
      var entryPte := table[(entry - USER_BASE) / 4096];
      var stackPte := table[stackPage];
      return PteTests(entryPte, stackPte, kernelPde);
    }

    method StoreSentinel(word: nat)
      requires word + 8 <= memory.Length
      modifies memory
      ensures Marked(old(memory[..]), word, memory[..])
    {
      CopyBytes(word, SENTINEL, 0, 8);
    }

    /** The window and the table that the first program starts with. */
    ghost predicate StartsWith(image: seq<byte>)
      requires Loadable(image)
      reads memory, table
    {
      && memory.Length == WINDOW && TableIs(Programs(image), Phnum(image))
      && forall k :: 0 <= k < WINDOW ==> memory[k] == StartByte(image, k)
    }

    /** The last steps of booting: load the first program, then check the mapping
        it will run on. The checks pass exactly when the last segment on the entry
        page is executable and the top stack page ends up writable. */
    method LoadAndCheck(image: seq<byte>, gdtOk: bool, tssOk: bool, kernelPde: nat)
      returns (result: UserImage, ok: bool)
      requires Valid() && |image| < U32
      modifies memory, table
      ensures result.Loaded? <==> Loadable(image)
      ensures result.Loaded? ==>
                (ok <==> gdtOk && tssOk && And(kernelPde, 0x4) == 0 &&
                         PermissionAfter(Programs(image), Phnum(image), EntryPage(Entry(image))).exec &&
                         PermissionAfter(Programs(image), Phnum(image), 511).write)
      ensures !result.Loaded? ==> !ok
      ensures result.Loaded? ==> result.entry == Entry(image) && result.stack == USER_LIMIT
      ensures result.Loaded? && gdtOk && tssOk ==> StartsWith(image)
      ensures result.Loaded? && !(gdtOk && tssOk) ==> LoadedTo(image, Phnum(image))
    {
      result := Load(image);
      if result.Rejected? {
        return result, false;
      }
      LoadableFacts(image);
      LoadedTests(Programs(image), |image|, result.entry, kernelPde);
      ghost var loaded := memory[..];
      ok := Diagnostics(result.entry, result.stack, gdtOk, tssOk, kernelPde);
      if gdtOk && tssOk {
        MarkedWindow(image, loaded, memory[..]);
      }
    }

    /** The page-table tests on the state a load leaves, as a statement about the segments. */
    lemma LoadedTests(ps: seq<Program>, size: nat, entry: nat, kernelPde: nat)
      requires Valid() && AllAcceptable(ps, |ps|, size) && TableIs(ps, |ps|) && UserRange(entry, 1)
      ensures MappingReady(entry, USER_LIMIT, kernelPde)
              <==> && And(kernelPde, 0x4) == 0
                   && PermissionAfter(ps, |ps|, EntryPage(entry)).exec
                   && PermissionAfter(ps, |ps|, 511).write
    {
      StackFacts();
      LoadedWords(ps, size, EntryPage(entry), kernelPde);
    }

    lemma LoadedWords(ps: seq<Program>, size: nat, page: nat, kernelPde: nat)
      requires Valid() && AllAcceptable(ps, |ps|, size) && TableIs(ps, |ps|) && page < PAGES
      ensures PteTests(table[page], table[511], kernelPde)
              <==> && And(kernelPde, 0x4) == 0
                   && PermissionAfter(ps, |ps|, page).exec
                   && PermissionAfter(ps, |ps|, 511).write
    {
      FrameIsOk(page);
      FrameIsOk(511);
      GrantedTests(ps, size, Frame(page), page, Frame(511), kernelPde);
    }
  }

  /** What the boot checks store in the top stack word. */
  const SENTINEL: seq<byte> := [0x53, 0x55, 0x45, 0x4c, 0x54, 0x4e, 0x41, 0x4d]

  /** The eight bytes from `at` on are the sentinel, all others as before. */
  ghost predicate Marked(before: seq<byte>, at: nat, after: seq<byte>) {
    |after| == |before| &&
    forall k :: 0 <= k < |after| ==> after[k] == if at <= k < at + 8 then SENTINEL[k - at] else before[k]
  }

  /** Offset `k` of the window when the first program starts. */
  ghost function StartByte(image: seq<byte>, k: nat): byte
    requires Loadable(image) && k < WINDOW
  {
    if k >= WINDOW - 8 then SENTINEL[k - (WINDOW - 8)] else ByteAfter(image, Programs(image), Phnum(image), k)
  }

  lemma MarkedWindow(image: seq<byte>, loaded: seq<byte>, after: seq<byte>)
    requires Loadable(image) && |loaded| == WINDOW && WindowIs(loaded, image, Programs(image), Phnum(image))
    requires Marked(loaded, WINDOW - 8, after)
    ensures forall k :: 0 <= k < WINDOW ==> after[k] == StartByte(image, k)
  {
  }

  lemma LoadableFacts(image: seq<byte>)
    requires Loadable(image)
    ensures HeaderOk(image) && AllAcceptable(Programs(image), |Programs(image)|, |image|)
    ensures Processed(Programs(image), |image|, 0) == |Programs(image)| == Phnum(image)
    ensures UserRange(Entry(image), 1)
  {
  }

  function EntryPage(entry: nat): (page: nat)
    requires UserRange(entry, 1)
    ensures page < PAGES
  {
    (entry - USER_BASE) / 4096
  }

  lemma ProcessedIs(ps: seq<Program>, size: nat, n: nat)
    requires n <= |ps| && AllAcceptable(ps, n, size) && (n < |ps| ==> !Acceptable(ps[n], size))
    ensures Processed(ps, size, 0) == n
  {
  }

  /** The page below a stack; the difference wraps at 64 bits, its quotient at 32. */
  function StackPage(stack: nat): (page: nat)
    requires USER_BASE <= stack <= USER_LIMIT
    ensures page < PAGES <==> stack > USER_BASE
    ensures stack > USER_BASE ==> page == (stack - 1 - USER_BASE) / 4096
  {
    assert stack > USER_BASE ==> (stack - 1 - USER_BASE) % U64 == stack - 1 - USER_BASE < WINDOW;
    assert stack == USER_BASE ==> (stack - 1 - USER_BASE) % U64 == U64 - 1;
    (stack - 1 - USER_BASE) % U64 / 4096 % U32
  }

  lemma InitialFlags()
    ensures Flags(Permission(false, false)) == 0x8000_0000_0000_0005
  {
    PowerFacts();
    FrameBits(0);
    OrSetsBit(0, 0);
    OrAssociative(0, PAGE_PRESENT, PAGE_USER);
    OrSetsBit(1, 2);
    SmallBits(5, 63);
    OrSetsBit(5, 63);
    OrAssociative(0, PAGE_PRESENT, PAGE_USER);
  }

  lemma StackFacts()
    ensures (USER_LIMIT - 1 - USER_BASE) / 4096 == 511 && USER_LIMIT % 16 == 0
  {
  }

  predicate EntryTest(p: Program, entry: nat)
    ensures EntryTest(p, entry) <==> p.Executable() && p.Contains(entry)
  {
    FlagTests(p.flags);
    And(p.flags, PF_X) != 0 && entry >= p.vaddr && entry < p.vaddr + p.memsz
  }

  predicate StackTest(stack: nat)
    ensures StackTest(stack) <==> stack % 16 == 0
  {
    assert Pow2(4) == 16;
    AndMask(stack, 4);
    And(stack, 0xf) == 0
  }

  predicate PteTests(entryPte: nat, stackPte: nat, kernelPde: nat) {
    !(And(entryPte, 0x7) != 0x5 || And(entryPte, PAGE_NX) != 0 ||
      And(stackPte, 0x7) != 0x7 || And(stackPte, PAGE_NX) == 0 ||
      And(kernelPde, 0x4) != 0)
  }

  lemma NxTest(low: nat, exec: bool)
    requires low < PAGE_NX
    ensures And(low + if exec then 0 else PAGE_NX, PAGE_NX) == if exec then 0 else PAGE_NX
  {
    PowerFacts();
    SmallBits(low, 63);
    OrSetsBit(low, 63);
    AndBit(low + if exec then 0 else PAGE_NX, 63);
  }

  /** What the diagnostics read from a page-table word, and the frame it maps. */
  lemma WordTests(frame: nat, q: Permission)
    requires FrameOk(frame)
    ensures And(PteWord(frame, q), 0x7) == if q.write then 0x7 else 0x5
    ensures And(PteWord(frame, q), PAGE_NX) == if q.exec then 0 else PAGE_NX
  {
    assert Pow2(3) == 8;
    WordParts(frame, q);
    AndMask(PteWord(frame, q), 3);
    NxTest(frame + PAGE_PRESENT + PAGE_USER + if q.write then PAGE_WRITE else 0, q.exec);
  }

  /** The page-table tests on a loaded image, as a statement about its segments. */
  lemma GrantedTests(ps: seq<Program>, size: nat, entryFrame: nat, entryPage: nat, stackFrame: nat, kernelPde: nat)
    requires AllAcceptable(ps, |ps|, size) && FrameOk(entryFrame) && FrameOk(stackFrame)
    ensures PteTests(PteWord(entryFrame, PermissionAfter(ps, |ps|, entryPage)),
                     PteWord(stackFrame, PermissionAfter(ps, |ps|, 511)), kernelPde)
            <==> && And(kernelPde, 0x4) == 0
                 && PermissionAfter(ps, |ps|, entryPage).exec
                 && PermissionAfter(ps, |ps|, 511).write
  {
    NeverBoth(ps, |ps|, size, entryPage);
    NeverBoth(ps, |ps|, size, 511);
    WordTests(entryFrame, PermissionAfter(ps, |ps|, entryPage));
    WordTests(stackFrame, PermissionAfter(ps, |ps|, 511));
  }

  lemma WordParts(frame: nat, q: Permission)
    requires FrameOk(frame)
    ensures PteWord(frame, q) % 8 == if q.write then 7 else 5
    ensures PteWord(frame, q) % PAGE_NX / 4096 * 4096 == frame
  {
    var flags: nat := if q.write then 7 else 5;
    var low := frame + flags;
    LowFlags(frame / 4096, flags);
    assert low < PAGE_NX && low / 4096 * 4096 == frame && low % 8 == flags;
    if !q.exec {
      TopFlag(low);
    }
  }

  lemma LowFlags(n: nat, flags: nat)
    requires flags < 8
    ensures (4096 * n + flags) / 4096 == n && (4096 * n + flags) % 8 == flags
  {
  }

  lemma TopFlag(low: nat)
    requires low < PAGE_NX
    ensures (low + PAGE_NX) % PAGE_NX == low && (low + PAGE_NX) % 8 == low % 8
  {
    assert low + PAGE_NX == 8 * (low / 8 + PAGE_NX / 8) + low % 8;
  }

  /** No page is ever both writable and executable. */
  lemma {:induction false} NeverBoth(ps: seq<Program>, n: nat, size: nat, page: nat)
    requires n <= |ps| && AllAcceptable(ps, n, size)
    ensures !(PermissionAfter(ps, n, page).write && PermissionAfter(ps, n, page).exec)
  {
    if n > 0 {
      assert Acceptable(ps[n - 1], size);
      NeverBoth(ps, n - 1, size, page);
    }
  }

  /** Last writer wins: an offset holds the byte of the last loadable segment that covers it ... */
  lemma {:induction false} LastWriter(image: seq<byte>, ps: seq<Program>, n: nat, k: nat, j: nat)
    requires n <= |ps| && AllAcceptable(ps, n, |image|)
    requires j < n && ps[j].Writes(k) && forall i :: j < i < n ==> !ps[i].Writes(k)
    ensures Acceptable(ps[j], |image|) && ByteAfter(image, ps, n, k) == SegmentByte(image, ps[j], k)
  {
    if j < n - 1 {
      LastWriter(image, ps, n - 1, k, j);
    }
  }

  /** ... and zero when no segment covers it. */
  lemma {:induction false} NoWriter(image: seq<byte>, ps: seq<Program>, n: nat, k: nat)
    requires n <= |ps| && AllAcceptable(ps, n, |image|)
    requires forall i :: 0 <= i < n ==> !ps[i].Writes(k)
    ensures ByteAfter(image, ps, n, k) == 0
  {
    if n > 0 {
      NoWriter(image, ps, n - 1, k);
    }
  }

  /** Likewise a page has the permission of the last loadable segment touching it ... */
  lemma {:induction false} LastToucher(ps: seq<Program>, n: nat, page: nat, j: nat)
    requires n <= |ps| && j < n && ps[j].Grants(page) && forall i :: j < i < n ==> !ps[i].Grants(page)
    ensures PermissionAfter(ps, n, page) == ps[j].Granted()
  {
    if j < n - 1 {
      LastToucher(ps, n - 1, page, j);
    }
  }

  /** ... and the default one when none does. */
  lemma {:induction false} NoToucher(ps: seq<Program>, n: nat, page: nat)
    requires n <= |ps| && forall i :: 0 <= i < n ==> !ps[i].Grants(page)
    ensures PermissionAfter(ps, n, page) == DefaultPermission(page)
  {
    if n > 0 {
      NoToucher(ps, n - 1, page);
    }
  }

  /** The bytes of an executable with a code segment at 0x400000 and a read-only
      segment behind it on the same page. */
  function LostEntryByte(i: int): byte {
    match i
    // The header.
    case 0 => 0x7f case 1 => 0x45 case 2 => 0x4c case 3 => 0x46 case 4 => 2 case 5 => 1
    case 16 => 2 case 18 => 62 case 20 => 1 case 26 => 0x40 case 32 => 64
    case 52 => 64 case 54 => 56 case 56 => 2
    // The code: flags 5, sixteen bytes at 0x400000.
    case 64 => PT_LOAD case 68 => 5 case 82 => 0x40 case 104 => 16
    // The data: flags 4, sixteen bytes at 0x400800.
    case 120 => PT_LOAD case 124 => 4 case 137 => 8 case 138 => 0x40 case 160 => 16
    case _ => 0
  }

  ghost predicate LostEntry(image: seq<byte>) {
    |image| == 176 && forall i :: 0 <= i < 176 ==> image[i] == LostEntryByte(i)
  }

  lemma LostEntryImage() returns (image: seq<byte>)
    ensures LostEntry(image)
  {
    image := seq(176, i => LostEntryByte(i));
  }

  /** A 64-bit field of which only the low three bytes can be nonzero. */
  lemma FieldIs(image: seq<byte>, at: nat, a: byte, b: byte, c: byte)
    requires at + 8 <= |image| && image[at] == a && image[at + 1] == b && image[at + 2] == c
    requires image[at + 3] == image[at + 4] == image[at + 5] == image[at + 6] == image[at + 7] == 0
    ensures Le64(image, at) == a as int + 256 * (b as int) + 0x1_0000 * (c as int)
  {
  }

  lemma LostEntryHeader(image: seq<byte>)
    requires LostEntry(image)
    ensures HeaderOk(image) && Entry(image) == USER_BASE && Phoff(image) == 64 && Phnum(image) == 2
  {
    FieldIs(image, 24, 0, 0, 0x40);
    FieldIs(image, 32, 64, 0, 0);
    assert image[..4] == [0x7f, 0x45, 0x4c, 0x46];
  }

  lemma LostEntryCode(image: seq<byte>)
    requires LostEntry(image) && HeaderOk(image) && Phoff(image) == 64 && Phnum(image) == 2
    ensures ProgramAt(image, 0) == Program(PT_LOAD, 5, 0, USER_BASE, 0, 16, 0)
  {
    LostEntryCodePlace(image);
    LostEntryCodeSize(image);
  }

  lemma LostEntryCodePlace(image: seq<byte>)
    requires LostEntry(image)
    ensures Le32(image, 64) == PT_LOAD && Le32(image, 68) == 5
    ensures Le64(image, 72) == 0 && Le64(image, 80) == USER_BASE
  {
    FieldIs(image, 72, 0, 0, 0);
    FieldIs(image, 80, 0, 0, 0x40);
  }

  lemma LostEntryCodeSize(image: seq<byte>)
    requires LostEntry(image)
    ensures Le64(image, 96) == 0 && Le64(image, 104) == 16 && Le64(image, 112) == 0
  {
    FieldIs(image, 96, 0, 0, 0);
    FieldIs(image, 104, 16, 0, 0);
    FieldIs(image, 112, 0, 0, 0);
  }

  lemma LostEntryData(image: seq<byte>)
    requires LostEntry(image) && HeaderOk(image) && Phoff(image) == 64 && Phnum(image) == 2
    ensures ProgramAt(image, 1) == Program(PT_LOAD, 4, 0, USER_BASE + 2048, 0, 16, 0)
  {
    LostEntryDataPlace(image);
    LostEntryDataSize(image);
  }

  lemma LostEntryDataPlace(image: seq<byte>)
    requires LostEntry(image)
    ensures Le32(image, 120) == PT_LOAD && Le32(image, 124) == 4
    ensures Le64(image, 128) == 0 && Le64(image, 136) == USER_BASE + 2048
  {
    FieldIs(image, 128, 0, 0, 0);
    FieldIs(image, 136, 0, 8, 0x40);
  }

  lemma LostEntryDataSize(image: seq<byte>)
    requires LostEntry(image)
    ensures Le64(image, 152) == 0 && Le64(image, 160) == 16 && Le64(image, 168) == 0
  {
    FieldIs(image, 152, 0, 0, 0);
    FieldIs(image, 160, 16, 0, 0);
    FieldIs(image, 168, 0, 0, 0);
  }

  lemma LostEntryPrograms(ps: seq<Program>, size: nat)
    requires ps == [Program(PT_LOAD, 5, 0, USER_BASE, 0, 16, 0), Program(PT_LOAD, 4, 0, USER_BASE + 2048, 0, 16, 0)]
    ensures AllAcceptable(ps, |ps|, size) && EntryCovered(ps, |ps|, USER_BASE)
    ensures !PermissionAfter(ps, |ps|, EntryPage(USER_BASE)).exec
  {
    assert Acceptable(ps[0], size) && Acceptable(ps[1], size);
    assert EntryIn(ps[0], USER_BASE);
    assert ps[1].Grants(EntryPage(USER_BASE));
  }

  /** Acceptance does not make the checks of the boot path pass: a later
      read-only segment on the entry page takes its execute permission away. */
  lemma EntryPageCanBeLost() returns (image: seq<byte>)
    ensures Loadable(image) && UserRange(Entry(image), 1)
    ensures !PermissionAfter(Programs(image), Phnum(image), EntryPage(Entry(image))).exec
  {
    image := LostEntryImage();
    LostEntryHeader(image);
    LostEntryCode(image);
    LostEntryData(image);
    LostEntryPrograms(Programs(image), |image|);
  }

  ghost predicate PairwiseDisjoint(ps: seq<Program>) {
    forall i, j | 0 <= i < j < |ps| :: Disjoint(ps[i], ps[j])
  }

  predicate Disjoint(p: Program, q: Program) {
    p.Load() && q.Load() ==> p.Start() + p.memsz <= q.Start() || q.Start() + q.memsz <= p.Start()
  }

  /** The segment is found whole in the window: its file bytes, then zeros up to `p_memsz`. */
  ghost predicate HoldsSegment(memory: seq<byte>, image: seq<byte>, p: Program) {
    && 0 <= p.Start() && p.Start() + p.memsz <= |memory| && p.filesz <= p.memsz
    && p.offset + p.filesz <= |image|
    && memory[p.Start()..p.Start() + p.memsz] ==
       image[p.offset..p.offset + p.filesz] + Zeros(p.memsz - p.filesz)
  }

  /** Loading disjoint segments loses nothing. */
  lemma DisjointReadBack(image: seq<byte>, ps: seq<Program>, memory: seq<byte>, j: nat)
    requires AllAcceptable(ps, |ps|, |image|) && PairwiseDisjoint(ps) && j < |ps| && ps[j].Load()
    requires |memory| == WINDOW
    requires forall k :: 0 <= k < |memory| ==> memory[k] == ByteAfter(image, ps, |ps|, k)
    ensures HoldsSegment(memory, image, ps[j])
  {
    var p := ps[j];
    assert Acceptable(p, |image|);
    forall k | p.Start() <= k < p.Start() + p.memsz
      ensures memory[k] == SegmentByte(image, p, k)
    {
      forall i | j < i < |ps| ensures !ps[i].Writes(k) {
        assert Disjoint(p, ps[i]);
      }
      LastWriter(image, ps, |ps|, k, j);
    }
    ReadBack(image, p, memory);
  }

  lemma ReadBack(image: seq<byte>, p: Program, memory: seq<byte>)
    requires SegmentOk(p, |image|) && |memory| == WINDOW
    requires forall k :: p.Start() <= k < p.Start() + p.memsz ==> memory[k] == SegmentByte(image, p, k)
    ensures HoldsSegment(memory, image, p)
  {
    var got := memory[p.Start()..p.Start() + p.memsz];
    var want := image[p.offset..p.offset + p.filesz] + Zeros(p.memsz - p.filesz);
    forall i | 0 <= i < |got| ensures got[i] == want[i] {
      assert memory[p.Start() + i] == SegmentByte(image, p, p.Start() + i);
    }
  }

  /** Where the processor finds the byte at a user address: frame of its page, plus offset. */
  function Physical(word: nat, address: nat): nat {
    word % PAGE_NX / 4096 * 4096 + address % 4096
  }

  /** Every user address is mapped to its own place in the window. */
  lemma OwnPlace(base: nat, address: nat, q: Permission)
    requires base % 4096 == 0 && base + WINDOW <= PAGE_NX && UserRange(address, 1)
    ensures Physical(PteWord(base + EntryPage(address) * 4096, q), address) == base + (address - USER_BASE)
  {
    WordParts(base + EntryPage(address) * 4096, q);
  }

  /** Read through the page table, disjoint segments are what the image says. */
  lemma TranslatedReadBack(image: seq<byte>, ps: seq<Program>, memory: seq<byte>, table: seq<nat>, base: nat,
                           ram: nat -> byte, j: nat, address: nat)
    requires AllAcceptable(ps, |ps|, |image|) && PairwiseDisjoint(ps) && j < |ps| && ps[j].Load()
    requires base % 4096 == 0 && base + WINDOW <= PAGE_NX && |memory| == WINDOW && |table| == PAGES
    requires WindowIs(memory, image, ps, |ps|) && WordsAre(table, base, ps, |ps|)
    requires forall k: nat :: k < WINDOW ==> ram(base + k) == memory[k]
    requires ps[j].Contains(address)
    ensures Acceptable(ps[j], |image|) && UserRange(address, 1)
    ensures ram(Physical(table[EntryPage(address)], address)) == SegmentByte(image, ps[j], address - USER_BASE)
  {
    assert Acceptable(ps[j], |image|);
    var k := address - USER_BASE;
    OwnPlace(base, address, PermissionAfter(ps, |ps|, EntryPage(address)));
    forall i | j < i < |ps| ensures !ps[i].Writes(k) {
      assert Disjoint(ps[j], ps[i]);
    }
    LastWriter(image, ps, |ps|, k, j);
  }

  /** The header tests of the loader, in its order. */
  predicate HeaderTest(image: seq<byte>)
    ensures HeaderTest(image) <==> HeaderOk(image)
  {
    |image| >= HEADER_SIZE &&
    !(image[0] != 0x7f || image[1] != 0x45 || image[2] != 0x4c || image[3] != 0x46 ||
      image[4] != 2 || image[5] != 1 || Le16(image, 16) != 2 || Le16(image, 18) != 62 || Le32(image, 20) != 1 ||
      Le16(image, 52) != HEADER_SIZE || Le16(image, 54) != PROGRAM_SIZE ||
      Phnum(image) == 0 || Phnum(image) > 64 ||
      !InRange(Phoff(image), Phnum(image) * Le16(image, 54), |image|)) &&
    UserRange(Entry(image), 1)
  }

  /** The tests on a loadable program header, in the loader's order; 64-bit sums wrap. */
  predicate SegmentTest(p: Program, size: nat)
    ensures SegmentTest(p, size) <==> SegmentOk(p, size)
  {
    AcceptanceTest(p, size);
    var end := (p.vaddr + p.memsz) % U64;
    !(p.filesz > p.memsz || p.memsz == 0 ||
      !InRange(p.offset, p.filesz, size) ||
      !UserRange(p.vaddr, p.memsz) ||
      And(p.flags, PF_W + PF_X) == PF_W + PF_X) &&
    !(end < p.vaddr || (p.align != 0 && And(p.align, p.align - 1) != 0) ||
      (p.align > 1 && And(p.vaddr, p.align - 1) != And(p.offset, p.align - 1)))
  }

  lemma FlagTests(flags: nat)
    ensures And(flags, PF_X) != 0 <==> Bit(flags, 0)
    ensures And(flags, PF_W) != 0 <==> Bit(flags, 1)
    ensures And(flags, PF_W + PF_X) == PF_W + PF_X <==> Bit(flags, 0) && Bit(flags, 1)
  {
    PowerFacts();
    AndBit(flags, 0);
    AndBit(flags, 1);
    AndMask(flags, 2);
    assert Bit(flags, 1) <==> (flags / 2) % 2 == 1;
  }

  /** The loader's bit tests decide exactly the gABI alignment rule. */
  lemma AlignmentTest(p: Program)
    ensures (p.align == 0 || And(p.align, p.align - 1) == 0) &&
            (p.align > 1 ==> And(p.vaddr, p.align - 1) == And(p.offset, p.align - 1))
            <==> p.align == 0 || (IsPow2(p.align) && p.vaddr % p.align == p.offset % p.align)
  {
    if p.align > 0 {
      PowerOfTwoTest(p.align);
      if IsPow2(p.align) {
        var k: nat :| p.align == Pow2(k);
        AndMask(p.vaddr, k);
        AndMask(p.offset, k);
      }
    }
  }

  lemma AcceptanceTest(p: Program, size: nat)
    ensures SegmentOk(p, size) <==>
            && p.filesz <= p.memsz && p.memsz != 0
            && InRange(p.offset, p.filesz, size)
            && UserRange(p.vaddr, p.memsz)
            && And(p.flags, PF_W + PF_X) != PF_W + PF_X
            && (p.align == 0 || And(p.align, p.align - 1) == 0)
            && (p.align > 1 ==> And(p.vaddr, p.align - 1) == And(p.offset, p.align - 1))
  {
    FlagTests(p.flags);
    AlignmentTest(p);
  }
}
