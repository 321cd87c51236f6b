/** Boot information tag by tag, as the Multiboot2 specification, version 2.0,
    section 3.6, lays it out, and what the kernel finds in it. */
module BootTags {
  import opened Options
  import opened Bytes
  import opened BootInfo

  /** A module with its command line, a framebuffer with the positions of its three
      channels, or a tag of another type, which is not 0, 3 or 8. */
  datatype BootTag =
    | Module(start: nat, end: nat, line: seq<byte>)
    | Framebuffer(base: nat, pitch: nat, width: nat, height: nat, bits: byte, encoding: byte,
                  red: byte, green: byte, blue: byte)
    | Other(kind: nat, body: seq<byte>)
  {
    function Size(): nat {
      match this
      case Module(_, _, line) => 16 + |line|
      case Framebuffer(_, _, _, _, _, _, _, _, _) => 38
      case Other(_, body) => 8 + |body|
    }

    predicate Fits() {
      match this
      case Module(start, end, _) => start < U32 && end < U32
      case Framebuffer(base, pitch, width, height, _, _, _, _, _) =>
        base < U64 && pitch < U32 && width < U32 && height < U32
      case Other(kind, _) => kind < U32 && kind !in {0, 3, 8}
    }

    predicate Rootfs() {
      Module? && line == Ascii("mantle-rootfs") + [0] && start < end
    }

    /** The mode, if the kernel can draw in it: direct colour at an address, of 24 to 32 bits. */
    function Mode(): Option<Screen>
      requires Framebuffer?
    {
      if encoding == 1 && base != 0 && 24 <= bits <= 32
      then Some(Screen(base, pitch, width, height, (bits + 7) / 8, red, green, blue))
      else None
    }
  }

  ghost predicate TagStands(mem: seq<byte>, at: nat, t: BootTag) {
    && at + t.Size() <= |mem| && mem[at + 4..at + 8] == Put32(t.Size())
    && match t
       case Module(start, end, line) =>
         && mem[at..at + 4] == Put32(3)
         && mem[at + 8..at + 12] == Put32(start) && mem[at + 12..at + 16] == Put32(end)
         && mem[at + 16..at + 16 + |line|] == line
       case Framebuffer(base, pitch, width, height, bits, encoding, red, green, blue) =>
         && mem[at..at + 4] == Put32(8)
         && mem[at + 8..at + 16] == Put64(base) && mem[at + 16..at + 20] == Put32(pitch)
         && mem[at + 20..at + 24] == Put32(width) && mem[at + 24..at + 28] == Put32(height)
         && mem[at + 28] == bits && mem[at + 29] == encoding
         && mem[at + 32] == red && mem[at + 34] == green && mem[at + 36] == blue
       case Other(kind, body) =>
         && mem[at..at + 4] == Put32(kind) && mem[at + 8..at + 8 + |body|] == body
  }

  /** Where tag `i` starts: behind the fixed part and the tags before it, each padded to eight bytes. */
  function At(ts: seq<BootTag>, i: nat): (at: nat)
    requires i <= |ts|
    ensures at >= 8
  {
    if i == 0 then 8 else At(ts, i - 1) + (ts[i - 1].Size() + 7) / 8 * 8
  }

  ghost predicate Placed(mem: seq<byte>, ts: seq<BootTag>, i: nat)
    requires i < |ts|
  {
    ts[i].Fits() && TagStands(mem, At(ts, i), ts[i])
  }

  /** The size of the information in front, and the end tag behind. */
  ghost predicate Closed(mem: seq<byte>, end: nat) {
    && 16 <= end <= |mem| && end <= 0x10_0000 && mem[..4] == Put32(end)
    && mem[end - 8..end - 4] == Put32(0) && mem[end - 4..end] == Put32(8)
  }

  /** The whole information: its size, the tags, and the end tag. */
  ghost predicate InfoStands(mem: seq<byte>, ts: seq<BootTag>) {
    Closed(mem, At(ts, |ts|) + 8) && forall i :: 0 <= i < |ts| ==> Placed(mem, ts, i)
  }

  /** The first module of the root filesystem, from tag `i` on. */
  function FirstRootfs(ts: seq<BootTag>, i: nat): Lookup
    requires i <= |ts|
    decreases |ts| - i
  {
    if i == |ts| then Missing
    else if ts[i].Rootfs() then Found(ts[i].start, ts[i].end - ts[i].start)
    else FirstRootfs(ts, i + 1)
  }

  /** The first framebuffer, from tag `i` on. */
  function FirstFramebuffer(ts: seq<BootTag>, i: nat): (r: Option<nat>)
    requires i <= |ts|
    ensures r.Some? ==> r.value < |ts| && ts[r.value].Framebuffer?
    decreases |ts| - i
  {
    if i == |ts| then None
    else if ts[i].Framebuffer? then Some(i)
    else FirstFramebuffer(ts, i + 1)
  }

  // ----- One tag -----

  lemma Ordered(ts: seq<BootTag>, i: nat, n: nat)
    requires i <= n <= |ts|
    ensures At(ts, i) <= At(ts, n)
    decreases n
  {
    if i < n {
      Ordered(ts, i, n - 1);
    }
  }

  lemma TypeRead(mem: seq<byte>, at: nat, t: BootTag)
    requires t.Fits() && TagStands(mem, at, t) && t.Size() < U32
    ensures Le32(mem, at + 4) == t.Size()
    ensures Le32(mem, at) == match t
                             case Module(_, _, _) => 3
                             case Framebuffer(_, _, _, _, _, _, _, _, _) => 8
                             case Other(kind, _) => kind
  {
    Reads32(mem, at + 4, t.Size());
    match t {
      case Module(_, _, _) => Reads32(mem, at, 3);
      case Framebuffer(_, _, _, _, _, _, _, _, _) => Reads32(mem, at, 8);
      case Other(kind, _) => Reads32(mem, at, kind);
    }
  }

  lemma ModuleRead(mem: seq<byte>, at: nat, t: BootTag)
    requires t.Module? && t.Fits() && TagStands(mem, at, t) && t.Size() < U32
    ensures Le32(mem, at + 8) == t.start && Le32(mem, at + 12) == t.end
    ensures RootfsTag(mem, at) <==> t.Rootfs()
  {
    TypeRead(mem, at, t);
    Reads32(mem, at + 8, t.start);
    Reads32(mem, at + 12, t.end);
    NameIs();
  }

  lemma NameIs()
    ensures NAME == Ascii("mantle-rootfs")
  {
  }

  lemma FramebufferRead(mem: seq<byte>, at: nat, t: BootTag)
    requires t.Framebuffer? && t.Fits() && TagStands(mem, at, t)
    ensures at + 38 <= |mem| && ScreenOf(mem, Tag(at)) == t.Mode()
  {
    Reads64(mem, at + 8, t.base);
    Reads32(mem, at + 16, t.pitch);
    Reads32(mem, at + 20, t.width);
    Reads32(mem, at + 24, t.height);
  }

  /** The walk goes on from here to `next`. */
  ghost predicate GoesOn(mem: seq<byte>, end: nat, at: nat, next: nat) {
    end < 0x8000_0000 && Continues(mem, end, at) && NextTag(mem, end, at) == next
  }

  /** The module search sees here what the tag is. */
  ghost predicate ModuleSeen(mem: seq<byte>, at: nat, t: BootTag) {
    && (RootfsTag(mem, at) <==> t.Rootfs())
    && (t.Rootfs() ==> Le32(mem, at + 8) == t.start && Le32(mem, at + 12) == t.end)
  }

  lemma TagGoesOn(mem: seq<byte>, end: nat, at: nat, t: BootTag, next: nat)
    requires t.Fits() && TagStands(mem, at, t) && next == at + (t.Size() + 7) / 8 * 8
    requires next <= end - 8 && end <= 0x10_0000 && end <= |mem|
    ensures GoesOn(mem, end, at, next)
  {
    TypeRead(mem, at, t);
    RoundUpBounds(t.Size());
  }

  lemma TagSeen(mem: seq<byte>, at: nat, t: BootTag)
    requires t.Fits() && TagStands(mem, at, t) && t.Size() < U32
    ensures ModuleSeen(mem, at, t) && (FramebufferTag(mem, at) <==> t.Framebuffer?)
  {
    TypeRead(mem, at, t);
    if t.Module? {
      ModuleRead(mem, at, t);
    }
  }

  ghost predicate SeenAt(mem: seq<byte>, ts: seq<BootTag>, end: nat, i: nat)
    requires i < |ts|
  {
    && GoesOn(mem, end, At(ts, i), At(ts, i + 1)) && ModuleSeen(mem, At(ts, i), ts[i])
    && (FramebufferTag(mem, At(ts, i)) <==> ts[i].Framebuffer?)
  }

  /** The end tag closes the walk. */
  ghost predicate Ended(mem: seq<byte>, end: nat) {
    8 <= end < 0x8000_0000 && TagOk(mem, end, end - 8) && !Continues(mem, end, end - 8)
  }

  lemma EndRead(mem: seq<byte>, end: nat)
    requires Closed(mem, end)
    ensures Le32(mem, 0) == end && Ended(mem, end)
  {
    assert mem[0..4] == mem[..4];
    Reads32(mem, 0, end);
    Reads32(mem, end - 8, 0);
    Reads32(mem, end - 4, 8);
  }

  lemma TagSeenAt(mem: seq<byte>, ts: seq<BootTag>, end: nat, i: nat)
    requires i < |ts| && Placed(mem, ts, i) && At(ts, |ts|) + 8 == end <= |mem| && end <= 0x10_0000
    ensures SeenAt(mem, ts, end, i)
  {
    var at, next := At(ts, i), At(ts, i + 1);
    Ordered(ts, i + 1, |ts|);
    TagGoesOn(mem, end, at, ts[i], next);
    TagSeen(mem, at, ts[i]);
  }

  lemma AllSeen(mem: seq<byte>, ts: seq<BootTag>, end: nat)
    requires (forall i :: 0 <= i < |ts| ==> Placed(mem, ts, i)) && At(ts, |ts|) + 8 == end <= |mem| && end <= 0x10_0000
    ensures forall i :: 0 <= i < |ts| ==> SeenAt(mem, ts, end, i)
  {
    forall i | 0 <= i < |ts| ensures SeenAt(mem, ts, end, i) {
      assert Placed(mem, ts, i);
      TagSeenAt(mem, ts, end, i);
    }
  }

  // ----- The whole list -----

  lemma RootfsStep(mem: seq<byte>, end: nat, at: nat, t: BootTag, next: nat, rest: Lookup)
    requires GoesOn(mem, end, at, next) && ModuleSeen(mem, at, t) && FoundRootfs(mem, end, next) == rest
    ensures FoundRootfs(mem, end, at) == if t.Rootfs() then Found(t.start, t.end - t.start) else rest
  {
    WalkStep(mem, end, at);
  }

  lemma {:induction false} RootfsFrom(mem: seq<byte>, ts: seq<BootTag>, i: nat, end: nat)
    requires (forall k :: 0 <= k < |ts| ==> SeenAt(mem, ts, end, k)) && i <= |ts|
    requires At(ts, |ts|) + 8 == end && Ended(mem, end)
    ensures FoundRootfs(mem, end, At(ts, i)) == FirstRootfs(ts, i)
    decreases |ts| - i
  {
    if i < |ts| {
      assert SeenAt(mem, ts, end, i);
      RootfsFrom(mem, ts, i + 1, end);
      RootfsStep(mem, end, At(ts, i), ts[i], At(ts, i + 1), FirstRootfs(ts, i + 1));
    } else {
      WalkStep(mem, end, end - 8);
    }
  }

  /** The framebuffer search from a place, on a list that is closed. */
  ghost predicate Searched(mem: seq<byte>, end: nat, at: nat, found: Option<nat>) {
    end < 0x8000_0000 && EndTerminated(mem, end, at) && FramebufferPosition(mem, end, at) == found
  }

  lemma FramebufferStep(mem: seq<byte>, end: nat, at: nat, t: BootTag, next: nat, rest: Option<nat>)
    requires GoesOn(mem, end, at, next) && Searched(mem, end, next, rest)
    requires FramebufferTag(mem, at) <==> t.Framebuffer?
    ensures Searched(mem, end, at, if t.Framebuffer? then Some(at) else rest)
  {
    PositionStep(mem, end, at);
  }

  function Place(ts: seq<BootTag>, found: Option<nat>): Option<nat>
    requires found.Some? ==> found.value <= |ts|
  {
    match found
    case None => None
    case Some(j) => Some(At(ts, j))
  }

  lemma {:induction false} FramebufferFrom(mem: seq<byte>, ts: seq<BootTag>, i: nat, end: nat)
    requires (forall k :: 0 <= k < |ts| ==> SeenAt(mem, ts, end, k)) && i <= |ts|
    requires At(ts, |ts|) + 8 == end && Ended(mem, end)
    ensures Searched(mem, end, At(ts, i), Place(ts, FirstFramebuffer(ts, i)))
    decreases |ts| - i
  {
    if i < |ts| {
      assert SeenAt(mem, ts, end, i);
      FramebufferFrom(mem, ts, i + 1, end);
      FramebufferStep(mem, end, At(ts, i), ts[i], At(ts, i + 1), Place(ts, FirstFramebuffer(ts, i + 1)));
    } else {
      PositionStep(mem, end, end - 8);
    }
  }

  /** From information so written, the kernel takes the first module of the root
      filesystem and the first framebuffer, if it can draw in it. */
  method ReadInfo(mem: seq<byte>, ghost ts: seq<BootTag>) returns (module_: Lookup, screen: Option<Screen>)
    requires InfoStands(mem, ts)
    ensures module_ == FirstRootfs(ts, 0)
    ensures screen == match FirstFramebuffer(ts, 0)
                      case None => None
                      case Some(i) => ts[i].Mode()
  {
    ghost var end := At(ts, |ts|) + 8;
    EndRead(mem, end);
    AllSeen(mem, ts, end);
    RootfsFrom(mem, ts, 0, end);
    module_ := FindRootfs(mem);
    FramebufferFrom(mem, ts, 0, end);
    ClosedWalk(mem, end);
    var status;
    status, screen := FramebufferInit(0x36d7_6289, mem);
    ghost var first := FirstFramebuffer(ts, 0);
    if first.Some? {
      assert Placed(mem, ts, first.value);
      FramebufferRead(mem, At(ts, first.value), ts[first.value]);
    }
  }
}
