/** The ELF64 loader: it fills the 2 MiB user window and the 512 entries of the
    user page table from an executable image. */
module Elf {
  import opened Bytes
  import opened Bits

  const USER_BASE: int := 0x40_0000
  const USER_LIMIT: int := 0x60_0000
  const WINDOW: int := 0x20_0000
  const PAGES: int := 512

  const PT_LOAD: int := 1
  const PF_X: nat := 1
  const PF_W: nat := 2

  const PAGE_PRESENT: nat := 1
  const PAGE_WRITE: nat := 2
  const PAGE_USER: nat := 4
  const PAGE_NX: nat := 0x8000_0000_0000_0000

  const HEADER_SIZE: int := 64
  const PROGRAM_SIZE: int := 56

  /** The fields of a program header that the loader reads. */
  datatype Program = Program(kind: nat, flags: nat, offset: nat, vaddr: nat, filesz: nat, memsz: nat, align: nat)
  {
    predicate Load() { kind == PT_LOAD }
    predicate Writable() { Bit(flags, 1) }
    predicate Executable() { Bit(flags, 0) }

    /** Offset of the segment in the user window. */
    function Start(): int { vaddr - USER_BASE }

    predicate Covers(k: int) { Start() <= k < Start() + memsz }

    predicate Touches(page: int) { Start() / 4096 <= page < (Start() + memsz + 4095) / 4096 }

    predicate Contains(address: nat) { vaddr <= address < vaddr + memsz }

    /** A loadable segment that covers offset `k` of the window. */
    predicate Writes(k: int) { Load() && Covers(k) }

    /** A loadable segment that touches page `page`. */
    predicate Grants(page: int) { Load() && Touches(page) }

    function Granted(): Permission { Permission(Writable(), Executable()) }
  }

  datatype Permission = Permission(write: bool, exec: bool)

  datatype UserImage = Rejected | Loaded(entry: nat, stack: nat)

  predicate UserRange(address: nat, size: nat) {
    address >= USER_BASE && address <= USER_LIMIT && size <= USER_LIMIT - address
  }

  // ----- What the image says -----

  function Entry(image: seq<byte>): nat
    requires HEADER_SIZE <= |image|
  {
    Le64(image, 24)
  }

  function Phoff(image: seq<byte>): nat
    requires HEADER_SIZE <= |image|
  {
    Le64(image, 32)
  }

  function Phnum(image: seq<byte>): nat
    requires HEADER_SIZE <= |image|
  {
    Le16(image, 56)
  }

  predicate HeaderOk(image: seq<byte>) {
    && HEADER_SIZE <= |image|
    && image[..4] == [0x7f, 0x45, 0x4c, 0x46]
    && image[4] == 2 && image[5] == 1
    && Le16(image, 16) == 2 && Le16(image, 18) == 62 && Le32(image, 20) == 1
    && Le16(image, 52) == HEADER_SIZE && Le16(image, 54) == PROGRAM_SIZE
    && 1 <= Phnum(image) <= 64
    && InRange(Phoff(image), Phnum(image) * PROGRAM_SIZE, |image|)
    && UserRange(Entry(image), 1)
  }

  function ProgramAt(image: seq<byte>, i: nat): Program
    requires HeaderOk(image) && i < Phnum(image)
  {
    var at := Phoff(image) + i * PROGRAM_SIZE;
    Program(Le32(image, at), Le32(image, at + 4), Le64(image, at + 8), Le64(image, at + 16),
            Le64(image, at + 32), Le64(image, at + 40), Le64(image, at + 48))
  }

  /** A loadable segment the loader accepts. The alignment clause is the rule of
      chapter 5 of the System V gABI: `p_align` is zero or a power of two, and
      `p_vaddr` and `p_offset` agree modulo it. */
  ghost predicate SegmentOk(p: Program, size: nat) {
    && p.filesz <= p.memsz && p.memsz != 0
    && InRange(p.offset, p.filesz, size)
    && UserRange(p.vaddr, p.memsz)
    && !(p.Writable() && p.Executable())
    && (p.align == 0 || (IsPow2(p.align) && p.vaddr % p.align == p.offset % p.align))
  }

  /** The program headers, in table order. */
  function Programs(image: seq<byte>): (ps: seq<Program>)
    requires HeaderOk(image)
    ensures |ps| == Phnum(image) && forall i :: 0 <= i < |ps| ==> ps[i] == ProgramAt(image, i)
  {
    seq(Phnum(image), i requires 0 <= i < Phnum(image) => ProgramAt(image, i))
  }

  ghost predicate Acceptable(p: Program, size: nat) {
    p.Load() ==> SegmentOk(p, size)
  }

  ghost predicate AllAcceptable(ps: seq<Program>, n: nat, size: nat)
    requires n <= |ps|
  {
    forall i :: 0 <= i < n ==> Acceptable(ps[i], size)
  }

  /** The number of program headers processed before the first unacceptable one, counting from `i`. */
  ghost function Processed(ps: seq<Program>, size: nat, i: nat): (n: nat)
    requires i <= |ps|
    ensures i <= n <= |ps|
    ensures forall j :: i <= j < n ==> Acceptable(ps[j], size)
    ensures n < |ps| ==> !Acceptable(ps[n], size)
    decreases |ps| - i
  {
    if i == |ps| || !Acceptable(ps[i], size) then i else Processed(ps, size, i + 1)
  }

  predicate EntryIn(p: Program, entry: nat) {
    p.Load() && p.Executable() && p.Contains(entry)
  }

  predicate EntryCovered(ps: seq<Program>, n: nat, entry: nat)
    requires n <= |ps|
  {
    exists j :: 0 <= j < n && EntryIn(ps[j], entry)
  }

  lemma EntryStep(ps: seq<Program>, n: nat, entry: nat)
    requires n < |ps|
    ensures EntryCovered(ps, n + 1, entry) <==> EntryCovered(ps, n, entry) || EntryIn(ps[n], entry)
  {
    if EntryIn(ps[n], entry) {
      assert EntryCovered(ps, n + 1, entry);
    }
  }

  /** When `mantle_elf_load` returns 0. */
  ghost predicate Loadable(image: seq<byte>) {
    && HeaderOk(image)
    && AllAcceptable(Programs(image), Phnum(image), |image|)
    && EntryCovered(Programs(image), Phnum(image), Entry(image))
  }

  // ----- What loading leaves behind -----

  /** The byte that segment `p` puts at offset `k` of the window. */
  function SegmentByte(image: seq<byte>, p: Program, k: int): byte
    requires p.Covers(k) && p.filesz <= p.memsz && InRange(p.offset, p.filesz, |image|)
  {
    if k - p.Start() < p.filesz then image[p.offset + (k - p.Start())] else 0
  }

  /** Offset `k` of the window after the first `n` program headers. */
  ghost function ByteAfter(image: seq<byte>, ps: seq<Program>, n: nat, k: nat): byte
    requires n <= |ps| && AllAcceptable(ps, n, |image|)
  {
    if n == 0 then 0
    else
      assert Acceptable(ps[n - 1], |image|);
      if ps[n - 1].Writes(k) then SegmentByte(image, ps[n - 1], k)
      else ByteAfter(image, ps, n - 1, k)
  }

  function DefaultPermission(page: nat): Permission {
    Permission(page >= 496, false)
  }

  /** The permission of a page after the first `n` program headers. */
  function PermissionAfter(ps: seq<Program>, n: nat, page: nat): Permission
    requires n <= |ps|
  {
    if n == 0 then DefaultPermission(page)
    else if ps[n - 1].Grants(page) then ps[n - 1].Granted()
    else PermissionAfter(ps, n - 1, page)
  }

  /** The page-table word that maps frame `frame` with permission `q` for ring 3. */
  function PteWord(frame: nat, q: Permission): nat {
    frame + PAGE_PRESENT + PAGE_USER + (if q.write then PAGE_WRITE else 0) + (if q.exec then 0 else PAGE_NX)
  }

  function Flags(q: Permission): nat {
    var user := Or(PAGE_PRESENT, PAGE_USER);
    var written := if q.write then Or(user, PAGE_WRITE) else user;
    if q.exec then written else Or(written, PAGE_NX)
  }

  predicate FrameOk(frame: nat) {
    frame % 4096 == 0 && frame < PAGE_NX
  }

  lemma PowerFacts()
    ensures Pow2(0) == 1 && Pow2(1) == 2 && Pow2(2) == 4 && Pow2(3) == 8 && Pow2(12) == 4096
    ensures Pow2(63) == PAGE_NX
  {
    PowAdd(4, 4);
    PowAdd(8, 4);
    PowAdd(8, 8);
    PowAdd(16, 16);
    PowAdd(32, 32);
    assert Pow2(64) == 2 * Pow2(63);
  }

  lemma FrameBits(frame: nat)
    requires FrameOk(frame)
    ensures !Bit(frame, 0) && !Bit(frame, 1) && !Bit(frame, 2) && !Bit(frame, 63)
  {
    PowerFacts();
    AlignedBits(frame, 12, 0);
    AlignedBits(frame, 12, 1);
    AlignedBits(frame, 12, 2);
    SmallBits(frame, 63);
  }

  lemma OrUser(frame: nat)
    requires FrameOk(frame)
    ensures Or(frame, Or(PAGE_PRESENT, PAGE_USER)) == frame + 5
    ensures !Bit(frame + 5, 1) && !Bit(frame + 5, 63)
    ensures !Bit(frame + 7, 63)
  {
    PowerFacts();
    FrameBits(frame);
    OrSetsBit(frame, 0);
    OrSetsBit(frame + 1, 2);
    OrSetsBit(frame + 5, 1);
    OrAssociative(frame, PAGE_PRESENT, PAGE_USER);
  }

  lemma OrWritten(frame: nat, write: bool)
    requires FrameOk(frame)
    ensures var low := if write then 7 else 5;
            Or(frame, Flags(Permission(write, true))) == frame + low && !Bit(frame + low, 63)
  {
    PowerFacts();
    OrUser(frame);
    if write {
      OrSetsBit(frame + 5, 1);
      OrAssociative(frame, Or(PAGE_PRESENT, PAGE_USER), PAGE_WRITE);
    }
  }

  /** The words that the loader builds with `|`, in the order its code uses, are
      the intended page-table words: for a segment's pages ... */
  lemma OrFlags(frame: nat, q: Permission)
    requires FrameOk(frame)
    ensures Or(frame, Flags(q)) == PteWord(frame, q)
  {
    var written := Flags(Permission(q.write, true));
    OrWritten(frame, q.write);
    if !q.exec {
      PowerFacts();
      OrSetsBit(Or(frame, written), 63);
      OrAssociative(frame, written, PAGE_NX);
    }
  }

  /** ... for a default page ... */
  lemma OrDefault(frame: nat)
    requires FrameOk(frame)
    ensures Or(Or(Or(frame, PAGE_PRESENT), PAGE_USER), PAGE_NX) == PteWord(frame, Permission(false, false))
  {
    PowerFacts();
    FrameBits(frame);
    OrSetsBit(frame, 0);
    OrSetsBit(frame + 1, 2);
    OrSetsBit(frame + 5, 63);
  }

  /** ... and for a stack page. */
  lemma OrStack(frame: nat)
    requires FrameOk(frame)
    ensures Or(Or(Or(Or(frame, PAGE_PRESENT), PAGE_WRITE), PAGE_USER), PAGE_NX) ==
            PteWord(frame, Permission(true, false))
  {
    PowerFacts();
    FrameBits(frame);
    OrSetsBit(frame, 0);
    OrSetsBit(frame + 1, 1);
    OrSetsBit(frame + 3, 2);
    OrSetsBit(frame + 7, 63);
  }

  lemma {:induction false} OrAssociative(a: nat, b: nat, c: nat)
    ensures Or(a, Or(b, c)) == Or(Or(a, b), c)
    decreases a + b + c
  {
    if a != 0 || b != 0 || c != 0 {
      OrHalves(b, c);
      OrHalves(a, b);
      OrAssociative(a / 2, b / 2, c / 2);
      OrHalves(a, Or(b, c));
      OrHalves(Or(a, b), c);
    }
  }

  lemma OrHalves(a: nat, b: nat)
    ensures Or(a, b) / 2 == Or(a / 2, b / 2)
    ensures Or(a, b) % 2 == if a % 2 == 1 || b % 2 == 1 then 1 else 0
    ensures Or(a, b) == 0 ==> a == 0 && b == 0
  {
    if a != 0 || b != 0 {
      assert Or(a, b) == (if a % 2 == 1 || b % 2 == 1 then 1 else 0) + 2 * Or(a / 2, b / 2);
      OrAtLeast(a, b);
    }
  }

  lemma {:induction false} OrAtLeast(a: nat, b: nat)
    ensures Or(a, b) >= a && Or(a, b) >= b
    decreases a + b
  {
    if a != 0 || b != 0 { OrAtLeast(a / 2, b / 2); }
  }
}
