/** Executables as the ELF-64 object file format lays them out, field by field,
    and what the loader makes of one. The layout is that of "ELF-64 Object File
    Format", version 1.5, tables 1 and 9 (figures 2 and 6). */
module ElfFile {
  import opened Bits
  import opened Bytes
  import opened Slices
  import opened Elf
  import opened ElfLoader

  /** The file header; `ident` is its first sixteen bytes. */
  datatype Header = Header(ident: seq<byte>, kind: nat, machine: nat, version: nat, entry: nat, phoff: nat, shoff: nat,
                           flags: nat, ehsize: nat, phentsize: nat, phnum: nat, shentsize: nat, shnum: nat,
                           shstrndx: nat)
  {
    predicate Fits() {
      && |ident| == 16 && kind < U16 && machine < U16 && version < U32 && entry < U64 && phoff < U64
      && ehsize < U16 && phentsize < U16 && phnum < U16
    }

    function Bytes(): (r: seq<byte>)
      requires Fits()
      ensures |r| == 64
    {
      ident + (Put16(kind) + (Put16(machine) + (Put32(version) + (Put64(entry) + (Put64(phoff) + (Put64(shoff) +
      (Put32(flags) + (Put16(ehsize) + (Put16(phentsize) + (Put16(phnum) + (Put16(shentsize) + (Put16(shnum) +
      Put16(shstrndx)))))))))))))
    }
  }

  predicate ProgramFits(p: Program) {
    p.kind < U32 && p.flags < U32 && p.offset < U64 && p.vaddr < U64 && p.filesz < U64 && p.memsz < U64 && p.align < U64
  }

  /** A program header; the loader does not read the physical address. */
  function ProgramBytes(p: Program, paddr: nat): (r: seq<byte>)
    ensures |r| == 56
  {
    Put32(p.kind) + (Put32(p.flags) + (Put64(p.offset) + (Put64(p.vaddr) + (Put64(paddr) + (Put64(p.filesz) +
    (Put64(p.memsz) + Put64(p.align)))))))
  }

  /** A file: the header at its start, the program headers where the header says. */
  ghost predicate Holds(image: seq<byte>, h: Header, ps: seq<Program>, paddrs: seq<nat>) {
    && h.Fits() && 64 <= |image| && image[..64] == h.Bytes()
    && h.phnum == |ps| == |paddrs| && h.phoff + 56 * |ps| <= |image|
    && forall i :: 0 <= i < |ps| ==> ProgramFits(ps[i]) && ProgramStands(image, h.phoff + 56 * i, ps[i], paddrs[i])
  }

  ghost predicate ProgramStands(image: seq<byte>, at: nat, p: Program, paddr: nat) {
    at + 56 <= |image| && image[at..at + 56] == ProgramBytes(p, paddr)
  }

  lemma HeaderFields(image: seq<byte>, h: Header)
    requires h.Fits() && 64 <= |image| && image[..64] == h.Bytes()
    ensures image[..16] == h.ident
    ensures Le16(image, 16) == h.kind && Le16(image, 18) == h.machine && Le32(image, 20) == h.version
    ensures Le64(image, 24) == h.entry && Le64(image, 32) == h.phoff
    ensures Le16(image, 52) == h.ehsize && Le16(image, 54) == h.phentsize && Le16(image, 56) == h.phnum
  {
    var r58 := Put16(h.shentsize) + (Put16(h.shnum) + Put16(h.shstrndx));
    var r52 := Put16(h.ehsize) + (Put16(h.phentsize) + (Put16(h.phnum) + r58));
    var r40 := Put64(h.shoff) + (Put32(h.flags) + r52);
    assert image[0..64] == h.Bytes();
    HeaderStart(image, h, r40);
    Peel(image, 40, r40, Put64(h.shoff), Put32(h.flags) + r52);
    Peel(image, 48, Put32(h.flags) + r52, Put32(h.flags), r52);
    HeaderEnd(image, h, r58);
  }

  lemma HeaderStart(image: seq<byte>, h: Header, rest: seq<byte>)
    requires h.Fits() && 64 <= |image| && |rest| == 24
    requires image[0..64] == h.ident + (Put16(h.kind) + (Put16(h.machine) + (Put32(h.version) +
                             (Put64(h.entry) + (Put64(h.phoff) + rest)))))
    ensures image[..16] == h.ident
    ensures Le16(image, 16) == h.kind && Le16(image, 18) == h.machine && Le32(image, 20) == h.version
    ensures Le64(image, 24) == h.entry && Le64(image, 32) == h.phoff
    ensures image[40..64] == rest
  {
    var r32 := Put64(h.phoff) + rest;
    var r24 := Put64(h.entry) + r32;
    var r20 := Put32(h.version) + r24;
    var r18 := Put16(h.machine) + r20;
    var r16 := Put16(h.kind) + r18;
    Peel(image, 0, h.ident + r16, h.ident, r16);
    Peel(image, 16, r16, Put16(h.kind), r18);
    Peel(image, 18, r18, Put16(h.machine), r20);
    Peel(image, 20, r20, Put32(h.version), r24);
    Peel(image, 24, r24, Put64(h.entry), r32);
    Peel(image, 32, r32, Put64(h.phoff), rest);
    Reads16(image, 16, h.kind);
    Reads16(image, 18, h.machine);
    Reads32(image, 20, h.version);
    Reads64(image, 24, h.entry);
    Reads64(image, 32, h.phoff);
  }

  lemma HeaderEnd(image: seq<byte>, h: Header, rest: seq<byte>)
    requires h.Fits() && 64 <= |image| && |rest| == 6
    requires image[52..64] == Put16(h.ehsize) + (Put16(h.phentsize) + (Put16(h.phnum) + rest))
    ensures Le16(image, 52) == h.ehsize && Le16(image, 54) == h.phentsize && Le16(image, 56) == h.phnum
  {
    var r56 := Put16(h.phnum) + rest;
    var r54 := Put16(h.phentsize) + r56;
    Peel(image, 52, Put16(h.ehsize) + r54, Put16(h.ehsize), r54);
    Peel(image, 54, r54, Put16(h.phentsize), r56);
    Peel(image, 56, r56, Put16(h.phnum), rest);
    Reads16(image, 52, h.ehsize);
    Reads16(image, 54, h.phentsize);
    Reads16(image, 56, h.phnum);
  }

  lemma ProgramFields(image: seq<byte>, at: nat, p: Program, paddr: nat)
    requires ProgramFits(p) && ProgramStands(image, at, p, paddr)
    ensures Le32(image, at) == p.kind && Le32(image, at + 4) == p.flags
    ensures Le64(image, at + 8) == p.offset && Le64(image, at + 16) == p.vaddr
    ensures Le64(image, at + 32) == p.filesz && Le64(image, at + 40) == p.memsz && Le64(image, at + 48) == p.align
  {
    var r40 := Put64(p.memsz) + Put64(p.align);
    var r32 := Put64(p.filesz) + r40;
    var r24 := Put64(paddr) + r32;
    var r16 := Put64(p.vaddr) + r24;
    ProgramStart(image, at, p, r16);
    Peel(image, at + 16, r16, Put64(p.vaddr), r24);
    Peel(image, at + 24, r24, Put64(paddr), r32);
    Peel(image, at + 32, r32, Put64(p.filesz), r40);
    Peel(image, at + 40, r40, Put64(p.memsz), Put64(p.align));
    Reads64(image, at + 16, p.vaddr);
    Reads64(image, at + 32, p.filesz);
    Reads64(image, at + 40, p.memsz);
    Reads64(image, at + 48, p.align);
  }

  lemma ProgramStart(image: seq<byte>, at: nat, p: Program, rest: seq<byte>)
    requires ProgramFits(p) && at + 56 <= |image| && |rest| == 40
    requires image[at..at + 56] == Put32(p.kind) + (Put32(p.flags) + (Put64(p.offset) + rest))
    ensures Le32(image, at) == p.kind && Le32(image, at + 4) == p.flags && Le64(image, at + 8) == p.offset
    ensures image[at + 16..at + 56] == rest
  {
    var r8 := Put64(p.offset) + rest;
    var r4 := Put32(p.flags) + r8;
    Peel(image, at, Put32(p.kind) + r4, Put32(p.kind), r4);
    Peel(image, at + 4, r4, Put32(p.flags), r8);
    Peel(image, at + 8, r8, Put64(p.offset), rest);
    Reads32(image, at, p.kind);
    Reads32(image, at + 4, p.flags);
    Reads64(image, at + 8, p.offset);
  }

  /** A header that the loader accepts, in its own terms. */
  predicate Accepted(h: Header, size: nat)
    requires |h.ident| == 16
  {
    && h.ident[..6] == [0x7f, 'E' as int, 'L' as int, 'F' as int, 2, 1]
    && h.kind == 2 && h.machine == 62 && h.version == 1
    && h.ehsize == 64 && h.phentsize == 56 && 1 <= h.phnum <= 64
    && h.phoff + 56 * h.phnum <= size
    && 0x40_0000 <= h.entry < 0x60_0000
  }

  /** The loader reads the header as it is written. */
  lemma HeaderReadBack(image: seq<byte>, h: Header, ps: seq<Program>, paddrs: seq<nat>)
    requires Holds(image, h, ps, paddrs)
    ensures HeaderOk(image) <==> Accepted(h, |image|)
    ensures Entry(image) == h.entry && Phoff(image) == h.phoff && Phnum(image) == |ps|
  {
    HeaderFields(image, h);
    assert image[..4] == h.ident[..4] && image[4] == h.ident[4] && image[5] == h.ident[5];
    assert h.ident[..6] == h.ident[..4] + [h.ident[4], h.ident[5]];
    if h.ident[..4] == [0x7f, 0x45, 0x4c, 0x46] && h.ident[4] == 2 && h.ident[5] == 1 {
      assert h.ident[..6] == [0x7f, 'E' as int, 'L' as int, 'F' as int, 2, 1];
    }
    if Accepted(h, |image|) {
      assert h.ident[..4] == h.ident[..6][..4] && h.ident[4] == h.ident[..6][4] && h.ident[5] == h.ident[..6][5];
    }
  }

  /** The loader reads the program headers as they are written. */
  lemma ProgramsReadBack(image: seq<byte>, h: Header, ps: seq<Program>, paddrs: seq<nat>)
    requires Holds(image, h, ps, paddrs) && HeaderOk(image)
    ensures Programs(image) == ps
  {
    HeaderReadBack(image, h, ps, paddrs);
    forall i | 0 <= i < |ps| ensures Programs(image)[i] == ps[i] {
      ProgramFields(image, h.phoff + 56 * i, ps[i], paddrs[i]);
    }
  }

  /** Loading a written executable, in terms of what was written: when it succeeds,
      the entry, and the window and page table left behind. */
  method LoadFile(space: UserSpace, image: seq<byte>, ghost h: Header, ghost ps: seq<Program>, ghost paddrs: seq<nat>)
    returns (result: UserImage)
    requires space.Valid() && |image| < U32 && Holds(image, h, ps, paddrs)
    modifies space.memory, space.table
    ensures result.Loaded? <==>
              Accepted(h, |image|) && AllAcceptable(ps, |ps|, |image|) && EntryCovered(ps, |ps|, h.entry)
    ensures result.Loaded? ==>
              && result.entry == h.entry && result.stack == 0x60_0000
              && AllAcceptable(ps, |ps|, |image|)
              && space.MemoryIs(image, ps, |ps|) && space.TableIs(ps, |ps|)
    ensures result.Loaded? && PairwiseDisjoint(ps) ==>
              forall j :: 0 <= j < |ps| && ps[j].Load() ==> HoldsSegment(space.memory[..], image, ps[j])
  {
    HeaderReadBack(image, h, ps, paddrs);
    if HeaderOk(image) {
      ProgramsReadBack(image, h, ps, paddrs);
    }
    result := space.Load(image);
    if result.Loaded? {
      LoadableFacts(image);
      if PairwiseDisjoint(ps) {
        forall j | 0 <= j < |ps| && ps[j].Load() ensures HoldsSegment(space.memory[..], image, ps[j]) {
          DisjointReadBack(image, ps, space.memory[..], j);
        }
      }
    }
  }

  // ----- Permissions -----

  /** The segment has a byte on the page. */
  predicate On(p: Program, page: nat) {
    p.kind == 1 && p.memsz > 0 && p.vaddr < 0x40_0000 + 4096 * (page + 1) && 0x40_0000 + 4096 * page < p.vaddr + p.memsz
  }

  lemma OnTouches(p: Program, page: nat)
    requires p.memsz > 0 && p.vaddr >= 0x40_0000
    ensures On(p, page) <==> p.Grants(page)
  {
    var start := p.vaddr - 0x40_0000;
    assert start / 4096 <= page <==> start < 4096 * (page + 1);
    assert page < (start + p.memsz + 4095) / 4096 <==> 4096 * page < start + p.memsz;
  }

  /** The sentinel is one 64-bit word. */
  lemma SentinelWord()
    ensures SENTINEL == Put64(0x4d41_4e54_4c45_5553)
  {
  }

  lemma FlagBits(p: Program)
    ensures p.Executable() <==> p.flags % 2 == 1
    ensures p.Writable() <==> p.flags / 2 % 2 == 1
  {
    assert Bit(p.flags, 1) == Bit(p.flags / 2, 0);
  }

  /** The page-table word of a page without segments: present, for ring 3, not
      executable, and writable in the last 64 KiB of the window alone. */
  lemma UntouchedWord(ps: seq<Program>, size: nat, page: nat, frame: nat)
    requires page < 512 && AllAcceptable(ps, |ps|, size) && forall i :: 0 <= i < |ps| ==> !On(ps[i], page)
    ensures PteWord(frame, PermissionAfter(ps, |ps|, page)) ==
            frame + 0x8000_0000_0000_0005 + if 0x40_0000 + 4096 * page >= 0x60_0000 - 0x1_0000 then 2 else 0
  {
    forall i | 0 <= i < |ps| ensures !ps[i].Grants(page) {
      if ps[i].Load() {
        assert Acceptable(ps[i], size);
        OnTouches(ps[i], page);
      }
    }
    NoToucher(ps, |ps|, page);
  }

  /** The word of a page with segments: writable and executable as the flags of the
      last one say. */
  lemma TouchedWord(ps: seq<Program>, size: nat, page: nat, frame: nat, j: nat)
    requires j < |ps| && AllAcceptable(ps, |ps|, size) && On(ps[j], page)
    requires forall i :: j < i < |ps| ==> !On(ps[i], page)
    ensures PteWord(frame, PermissionAfter(ps, |ps|, page)) ==
            frame + 5 + (if ps[j].flags / 2 % 2 == 1 then 2 else 0) +
            if ps[j].flags % 2 == 1 then 0 else 0x8000_0000_0000_0000
  {
    assert Acceptable(ps[j], size);
    OnTouches(ps[j], page);
    forall i | j < i < |ps| ensures !ps[i].Grants(page) {
      if ps[i].Load() {
        assert Acceptable(ps[i], size);
        OnTouches(ps[i], page);
      }
    }
    LastToucher(ps, |ps|, page, j);
    FlagBits(ps[j]);
  }
}
