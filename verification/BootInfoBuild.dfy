/** The writer of the boot information page, and its round trip with the
    kernel's readers. */
module BootInfoBuild {
  import opened Options
  import opened Bytes
  import opened BootInfo

  /** A mode as the firmware can report it. */
  predicate ModeOk(mode: Mode) {
    mode.base < U64 && mode.pixelsPerLine < U32 && mode.width < U32 && mode.height < U32
  }

  function Pitch(mode: Mode): nat {
    mode.pixelsPerLine * 4 % U32
  }

  /** The module tag at offset 8 of the page. */
  ghost predicate HoldsModule(page: seq<byte>, start: nat, end: nat)
    requires |page| == 4096
  {
    && Le32(page, 8) == 3 && Le32(page, 12) == 30
    && Le32(page, 16) == start && Le32(page, 20) == end
    && (forall i :: 0 <= i < 13 ==> page[24 + i] == NAME[i]) && page[37] == 0
  }

  /** The framebuffer tag at offset 40. */
  ghost predicate HoldsFramebuffer(page: seq<byte>, mode: Mode)
    requires |page| == 4096
  {
    && Le32(page, 40) == 8 && Le32(page, 44) == 38
    && Le64(page, 48) == mode.base
    && Le32(page, 56) == Pitch(mode) && Le32(page, 60) == mode.width && Le32(page, 64) == mode.height
    && page[68] == 32 && page[69] == 1
    && page[72] == 0 && page[74] == 8 && page[76] == 16
  }

  /** The size of the list: header, module tag, optional framebuffer tag, end tag. */
  function TotalSize(mode: Option<Mode>): nat {
    if mode.Some? then 88 else 48
  }

  ghost predicate HoldsInfo(page: seq<byte>, start: nat, end: nat, mode: Option<Mode>) {
    && |page| == 4096
    && Le32(page, 0) == TotalSize(mode)
    && HoldsModule(page, start, end)
    && (mode.Some? ==> HoldsFramebuffer(page, mode.value))
    && Le32(page, TotalSize(mode) - 8) == 0 && Le32(page, TotalSize(mode) - 4) == 8
  }

  method Store8(page: array<byte>, at: nat, v: byte)
    requires at < page.Length
    modifies page
    ensures page[at] == v
    ensures forall k :: 0 <= k < page.Length && k != at ==> page[k] == old(page[k])
  {
    page[at] := v;
  }

  method Store32(page: array<byte>, at: nat, v: nat)
    requires at + 4 <= page.Length && v < U32
    modifies page
    ensures Le32(page[..], at) == v
    ensures forall k :: 0 <= k < page.Length && !(at <= k < at + 4) ==> page[k] == old(page[k])
  {
    WordBytes(v);
    page[at] := v % 256;
    page[at + 1] := v / 256 % 256;
    page[at + 2] := v / 0x1_0000 % 256;
    page[at + 3] := v / 0x100_0000 % 256;
    assert page[..][at] == page[at] && page[..][at + 1] == page[at + 1];
    assert page[..][at + 2] == page[at + 2] && page[..][at + 3] == page[at + 3];
  }

  method WriteModule(page: array<byte>, start: nat, end: nat)
    requires page.Length == PAGE && start < U32 && end < U32
    requires page[37] == 0
    modifies page
    ensures HoldsModule(page[..], start, end)
    ensures forall k :: 0 <= k < page.Length && !(8 <= k < 37) ==> page[k] == old(page[k])
  {
    Store32(page, 8, TAG_MODULE);
    Store32(page, 12, 30);
    Store32(page, 16, start);
    Store32(page, 20, end);
    for index := 0 to NAME_LENGTH
      invariant Le32(page[..], 8) == TAG_MODULE && Le32(page[..], 12) == 30
      invariant Le32(page[..], 16) == start && Le32(page[..], 20) == end
      invariant forall i :: 0 <= i < index ==> page[24 + i] == NAME[i]
      invariant forall k :: 0 <= k < page.Length && !(8 <= k < 37) ==> page[k] == old(page[k])
    {
      page[24 + index] := NAME[index];
    }
  }

  method WriteFramebuffer(page: array<byte>, mode: Mode)
    requires page.Length == PAGE && ModeOk(mode) && page[72] == 0
    modifies page
    ensures HoldsFramebuffer(page[..], mode)
    ensures forall k :: 0 <= k < page.Length && !(40 <= k < 78) ==> page[k] == old(page[k])
  {
    Store32(page, 40, TAG_FRAMEBUFFER);
    Store32(page, 44, 38);
    Store32(page, 48, mode.base % U32);
    Store32(page, 52, mode.base / U32);
    Store32(page, 56, Pitch(mode));
    Store32(page, 60, mode.width);
    Store32(page, 64, mode.height);
    Store8(page, 68, 32);
    Store8(page, 69, 1);
    Store8(page, 72, 0);
    Store8(page, 74, 8);
    Store8(page, 76, 16);
  }

  method ClearPage(page: array<byte>)
    modifies page
    ensures forall k :: 0 <= k < page.Length ==> page[k] == 0
  {
    for index := 0 to page.Length
      invariant forall k :: 0 <= k < index ==> page[k] == 0
    {
      page[index] := 0;
    }
  }

  method TruncatedEnd(rootfs: nat, size: nat) returns (start: nat, end: nat)
    ensures start == rootfs % U32 && end == (rootfs + size) % U32
  {
    start := rootfs % U32;
    end := (start + size % U32) % U32;
    ghost var a, b := rootfs / U32, size / U32;
    assert rootfs + size == start + size % U32 + (a + b) * U32;
  }

  /** `build_info`, on a page the firmware allocated: addresses and sizes are
      truncated to 32 bits. */
  method BuildInfo(page: array<byte>, rootfs: nat, size: nat, mode: Option<Mode>)
    requires page.Length == PAGE && (mode.Some? ==> ModeOk(mode.value))
    modifies page
    ensures HoldsInfo(page[..], rootfs % U32, (rootfs + size) % U32, mode)
  {
    ClearPage(page);
    var start, end := TruncatedEnd(rootfs, size);
    WriteModule(page, start, end);
    var offset := 40;
    if mode.Some? {
      WriteFramebuffer(page, mode.value);
      offset := 80;
    }
    Store32(page, offset, 0);
    Store32(page, offset + 4, 8);
    Store32(page, 0, offset + 8);
  }

  // ----- The round trip -----

  /** The list the loader writes has one or two tags and is closed. */
  lemma InfoPositions(page: seq<byte>, start: nat, end: nat, mode: Option<Mode>)
    requires HoldsInfo(page, start, end, mode)
    ensures EndTerminated(page, TotalSize(mode), 8)
    ensures Positions(page, TotalSize(mode), 8) == if mode.Some? then [8, 40] else [8]
  {
    var total := TotalSize(mode);
    assert NextTag(page, total, 8) == 40;
    if mode.Some? {
      assert NextTag(page, total, 40) == 80;
      assert Positions(page, total, 80) == [] && Stop(page, total, 80) == 80;
      assert Stop(page, total, 40) == 80;
    } else {
      assert Positions(page, total, 40) == [] && Stop(page, total, 40) == 40;
    }
  }

  /** The command line of the module. */
  lemma ModuleName()
    ensures NAME == Ascii("mantle-rootfs")
  {
  }

  lemma ModuleReadBack(page: seq<byte>, start: nat, end: nat)
    requires |page| == 4096 && HoldsModule(page, start, end)
    ensures RootfsTag(page, 8) <==> start < end
  {
    forall i | 0 <= i < 14 ensures page[24..38][i] == (NAME + [0])[i] {
    }
    assert page[24..38] == NAME + [0];
  }

  /** What the kernel finds is what the loader was given exactly when the module is
      not empty and lies below 4 GiB, end included; and when it finds nothing. */
  lemma RootfsRoundTrip(page: seq<byte>, rootfs: nat, size: nat, mode: Option<Mode>)
    requires HoldsInfo(page, rootfs % U32, (rootfs + size) % U32, mode)
    ensures FoundRootfs(page, TotalSize(mode), 8) == Found(rootfs, size) <==> 0 < size && rootfs + size < U32
    ensures FoundRootfs(page, TotalSize(mode), 8) == Missing <==>
            size % U32 == 0 || rootfs % U32 + size % U32 >= U32
  {
    var start, end := rootfs % U32, (rootfs + size) % U32;
    InfoPositions(page, start, end, mode);
    ModuleReadBack(page, start, end);
    ClosedListIsValid(page, TotalSize(mode), 8);
    FoundFirst(page, TotalSize(mode), mode);
    TruncationExact(rootfs, size);
  }

  lemma TruncationExact(rootfs: nat, size: nat)
    ensures var start, end := rootfs % U32, (rootfs + size) % U32;
            && (start < end && start == rootfs && end - start == size <==> 0 < size && rootfs + size < U32)
            && (end <= start <==> size % U32 == 0 || start + size % U32 >= U32)
  {
    var start, low, q := rootfs % U32, size % U32, rootfs / U32 + size / U32;
    var sum := start + low;
    assert rootfs + size == sum + q * U32;
    assert (rootfs + size) % U32 == if sum < U32 then sum else sum - U32;
  }

  lemma FoundFirst(page: seq<byte>, total: nat, mode: Option<Mode>)
    requires |page| == 4096 && total < 0x8000_0000
    requires Positions(page, total, 8) == if mode.Some? then [8, 40] else [8]
    requires mode.Some? ==> Le32(page, 40) == TAG_FRAMEBUFFER
    requires TagOk(page, total, Stop(page, total, 8))
    ensures FoundRootfs(page, total, 8) ==
            if RootfsTag(page, 8) then Found(Le32(page, 16), Le32(page, 20) - Le32(page, 16)) else Missing
  {
    var ps := Positions(page, total, 8);
    assert ps[0] == 8;
    if mode.Some? {
      assert ps[1] == 40 && !RootfsTag(page, 40);
    }
  }

  /** The kernel recovers the reported mode, with the channel positions the loader
      fixes, exactly when it has an address, and uses it if it has an extent too. */
  lemma ScreenRoundTrip(page: seq<byte>, start: nat, end: nat, mode: Mode)
    requires HoldsInfo(page, start, end, Some(mode)) && ModeOk(mode)
    ensures FramebufferWalk(page) == Tag(40) && FramebufferPosition(page, 88, 8) == Some(40)
    ensures ScreenOf(page, Tag(40)).Some? <==> mode.base != 0
    ensures var pitch := 4 * mode.pixelsPerLine % 0x1_0000_0000;
            && (Visible(ScreenAt(page, 40)) <==> mode.width != 0 && mode.height != 0 && pitch != 0)
            && ScreenAt(page, 40) == Screen(mode.base, pitch, mode.width, mode.height, 4, 0, 8, 16)
  {
    InfoPositions(page, start, end, Some(mode));
    ClosedWalk(page, 88);
    var ps := Positions(page, 88, 8);
    assert ps[0] == 8 && !FramebufferTag(page, 8);
    assert ps[1] == 40 && FramebufferTag(page, 40);
    assert First(ps[1..], IsFramebuffer(page)) == Some(40);
  }

  /** Without a graphics mode the kernel finds no framebuffer. */
  lemma NoScreen(page: seq<byte>, start: nat, end: nat)
    requires HoldsInfo(page, start, end, None)
    ensures FramebufferWalk(page) == NoTag && FramebufferPosition(page, 48, 8) == None
  {
    InfoPositions(page, start, end, None);
    ClosedWalk(page, 48);
    var ps := Positions(page, 48, 8);
    assert ps[0] == 8 && !FramebufferTag(page, 8);
  }
}
