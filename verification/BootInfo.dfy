/** Multiboot2 boot information: the page the EFI loader writes, and the two
    walks of the kernel that read it. Addresses are offsets in the region. */
module BootInfo {
  import opened Options
  import opened Bytes

  const TAG_END: int := 0
  const TAG_MODULE: int := 3
  const TAG_FRAMEBUFFER: int := 8
  const MODULE_PREFIX: int := 16
  const PAGE: int := 0x1000
  const NAME_LENGTH: int := 13

  /** "mantle-rootfs" */
  const NAME: seq<byte> := [0x6d, 0x61, 0x6e, 0x74, 0x6c, 0x65, 0x2d, 0x72, 0x6f, 0x6f, 0x74, 0x66, 0x73]

  datatype Lookup = Found(start: nat, size: nat) | Missing | Invalid

  datatype Screen = Screen(address: nat, pitch: nat, width: nat, height: nat, bytesPerPixel: nat,
                           red: nat, green: nat, blue: nat)

  /** How the search for a framebuffer tag ends: at an end tag, at a tag, never, or
      by reading past the readable memory. */
  datatype Walk = NoTag | Tag(at: nat) | Loops | Leaves

  datatype Status = Ready | Refused | Endless | Outside

  /** The graphics mode the firmware reports. */
  datatype Mode = Mode(base: nat, pixelsPerLine: nat, width: nat, height: nat)

  // ----- Tags -----

  function Type(mem: seq<byte>, at: nat): nat
    requires at + 8 <= |mem|
  {
    Le32(mem, at)
  }

  function Size(mem: seq<byte>, at: nat): nat
    requires at + 8 <= |mem|
  {
    Le32(mem, at + 4)
  }

  /** `(size + 7) & ~7` in 32 bits. */
  function RoundUp(size: nat): nat {
    (size + 7) % U32 / 8 * 8
  }

  /** A tag that lies whole inside the first `end` bytes. */
  predicate TagOk(mem: seq<byte>, end: nat, at: nat) {
    at + 8 <= end <= |mem| && 8 <= Size(mem, at) && at + Size(mem, at) <= end
  }

  /** A well-formed tag that does not close the list. */
  predicate Continues(mem: seq<byte>, end: nat, at: nat) {
    TagOk(mem, end, at) && Type(mem, at) != TAG_END
  }

  function NextTag(mem: seq<byte>, end: nat, at: nat): (next: nat)
    requires end < 0x8000_0000 && TagOk(mem, end, at)
    ensures next >= at + 8
  {
    at + RoundUp(Size(mem, at))
  }

  /** The positions of the tags before an end tag, a malformed tag or the end of the region. */
  function Positions(mem: seq<byte>, end: nat, at: nat): seq<nat>
    requires end < 0x8000_0000
    decreases end - at
  {
    if Continues(mem, end, at) then [at] + Positions(mem, end, NextTag(mem, end, at)) else []
  }

  /** Where the walk stops. */
  function Stop(mem: seq<byte>, end: nat, at: nat): (stop: nat)
    requires end < 0x8000_0000
    ensures !Continues(mem, end, stop)
    decreases end - at
  {
    if Continues(mem, end, at) then Stop(mem, end, NextTag(mem, end, at)) else at
  }

  /** The first position that satisfies a test. */
  function First(ps: seq<nat>, test: nat -> bool): (r: Option<nat>)
    ensures r.Some? ==> r.value in ps && test(r.value)
    ensures r.None? ==> forall p :: p in ps ==> !test(p)
  {
    if ps == [] then None
    else if test(ps[0]) then Some(ps[0])
    else First(ps[1..], test)
  }

  /** A module tag that carries the root filesystem. */
  predicate RootfsTag(mem: seq<byte>, at: nat) {
    && at + 30 <= |mem|
    && Type(mem, at) == TAG_MODULE
    && Size(mem, at) == 30
    && Le32(mem, at + 8) < Le32(mem, at + 12)
    && mem[at + 16..at + 30] == NAME + [0]
  }

  predicate FramebufferTag(mem: seq<byte>, at: nat) {
    && at + 8 <= |mem|
    && Type(mem, at) == TAG_FRAMEBUFFER
    && Size(mem, at) >= 38
  }

  function IsRootfs(mem: seq<byte>): nat -> bool {
    (p: nat) => RootfsTag(mem, p)
  }

  function IsFramebuffer(mem: seq<byte>): nat -> bool {
    (p: nat) => FramebufferTag(mem, p)
  }

  // ----- The kernel's readers -----

  /** `mantle_mb2_parse_module`, for a tag with `available` readable bytes. */
  method ParseModule(mem: seq<byte>, at: nat, available: nat) returns (result: Option<(nat, nat)>)
    requires at + available <= |mem|
    ensures result.Some? <==> RootfsTag(mem, at) && 30 <= available
    ensures result.Some? ==> result.value == (Le32(mem, at + 8), Le32(mem, at + 12) - Le32(mem, at + 8))
  {
    if available < MODULE_PREFIX {
      return None;
    }
    var size, start, end := Le32(mem, at + 4), Le32(mem, at + 8), Le32(mem, at + 12);
    if size < MODULE_PREFIX || size > available || Le32(mem, at) != TAG_MODULE || end <= start {
      return None;
    }
    if size - MODULE_PREFIX != NAME_LENGTH + 1 {
      return None;
    }
    ghost var line := mem[at + 16..at + 30];
    for index := 0 to NAME_LENGTH
      invariant forall i :: 0 <= i < index ==> mem[at + 16 + i] == NAME[i]
    {
      if mem[at + 16 + index] != NAME[index] {
        assert line[index] != (NAME + [0])[index];
        return None;
      }
    }
    if mem[at + 16 + NAME_LENGTH] != 0 {
      assert line[NAME_LENGTH] != (NAME + [0])[NAME_LENGTH];
      return None;
    }
    assert line == NAME + [0];
    return Some((start, end - start));
  }

  /** What `find_rootfs` answers: the first root filesystem module before an end
      tag or a malformed tag; an error only for a malformed tag reached before one. */
  function FoundRootfs(mem: seq<byte>, end: nat, at: nat): Lookup
    requires end < 0x8000_0000
  {
    match First(Positions(mem, end, at), IsRootfs(mem))
    case Some(p) => Found(Le32(mem, p + 8), Le32(mem, p + 12) - Le32(mem, p + 8))
    case None =>
      var stop := Stop(mem, end, at);
      if stop + 8 > end || TagOk(mem, end, stop) then Missing else Invalid
  }

  /** `find_rootfs` on an arbitrary region whose declared size is readable. */
  method FindRootfs(mem: seq<byte>) returns (result: Lookup)
    requires |mem| >= 8 && (8 <= Le32(mem, 0) <= 0x10_0000 ==> Le32(mem, 0) <= |mem|)
    ensures result == if 8 <= Le32(mem, 0) <= 0x10_0000 then FoundRootfs(mem, Le32(mem, 0), 8) else Invalid
  {
    var end := Le32(mem, 0);
    if end < 8 || end > 0x10_0000 {
      return Invalid;
    }
    var cursor: nat := 8;
    while cursor + 8 <= end
      invariant FoundRootfs(mem, end, 8) == FoundRootfs(mem, end, cursor)
      decreases end - cursor
    {
      WalkStep(mem, end, cursor);
      var size := Le32(mem, cursor + 4);
      if size < 8 || cursor + size > end || cursor + RoundUp(size) < cursor {
        return Invalid;
      }
      if Le32(mem, cursor) == TAG_END {
        break;
      }
      if Le32(mem, cursor) == TAG_MODULE && size >= MODULE_PREFIX {
        var parsed := ParseModule(mem, cursor, size);
        if parsed.Some? {
          return Found(parsed.value.0, parsed.value.1);
        }
      }
      cursor := cursor + RoundUp(size);
    }
    return Missing;
  }

  lemma WalkStep(mem: seq<byte>, end: nat, at: nat)
    requires end < 0x8000_0000
    ensures Continues(mem, end, at) ==>
              FoundRootfs(mem, end, at) ==
              if RootfsTag(mem, at) then Found(Le32(mem, at + 8), Le32(mem, at + 12) - Le32(mem, at + 8))
              else FoundRootfs(mem, end, NextTag(mem, end, at))
    ensures !Continues(mem, end, at) ==> Positions(mem, end, at) == [] && Stop(mem, end, at) == at
  {
    if Continues(mem, end, at) {
      var next := NextTag(mem, end, at);
      assert Stop(mem, end, at) == Stop(mem, end, next);
      FirstStep(at, Positions(mem, end, next), IsRootfs(mem), Positions(mem, end, at));
    }
  }

  lemma FirstStep(at: nat, rest: seq<nat>, test: nat -> bool, ps: seq<nat>)
    requires ps == [at] + rest
    ensures First(ps, test) == if test(at) then Some(at) else First(rest, test)
  {
    assert ps[1..] == rest;
  }

  /** A list of well-formed tags that an end tag closes. */
  predicate EndTerminated(mem: seq<byte>, end: nat, at: nat)
    requires end < 0x8000_0000
  {
    TagOk(mem, end, Stop(mem, end, at))
  }

  /** The mode a framebuffer tag describes. */
  function ScreenAt(mem: seq<byte>, at: nat): Screen
    requires at + 38 <= |mem|
  {
    Screen(Le64(mem, at + 8), Le32(mem, at + 16), Le32(mem, at + 20), Le32(mem, at + 24),
           (mem[at + 28] as int + 7) / 8, mem[at + 32], mem[at + 34], mem[at + 36])
  }

  predicate DirectRgb(mem: seq<byte>, at: nat)
    requires at + 38 <= |mem|
  {
    mem[at + 29] == 1 && Le64(mem, at + 8) != 0 && 24 <= mem[at + 28] <= 32
  }

  /** The tag that `mantle_framebuffer_init` uses. */
  function FramebufferPosition(mem: seq<byte>, end: nat, at: nat): (r: Option<nat>)
    requires end < 0x8000_0000
    ensures r.Some? ==> r.value + 38 <= |mem|
  {
    PositionsOk(mem, end, at);
    First(Positions(mem, end, at), IsFramebuffer(mem))
  }

  lemma {:induction false} PositionsOk(mem: seq<byte>, end: nat, at: nat)
    requires end < 0x8000_0000
    ensures forall p :: p in Positions(mem, end, at) ==> Continues(mem, end, p)
    decreases end - at
  {
    if Continues(mem, end, at) {
      PositionsOk(mem, end, NextTag(mem, end, at));
    }
  }

  /** A tag the framebuffer search steps over. */
  predicate SteppedOver(mem: seq<byte>, at: nat) {
    at + 8 <= |mem| && Type(mem, at) != TAG_END && !FramebufferTag(mem, at) && RoundUp(Size(mem, at)) != 0
  }

  /** Where the framebuffer search stops or stays; it checks no bound. */
  function WalkEnd(mem: seq<byte>, at: nat): (stop: nat)
    ensures !SteppedOver(mem, stop)
    decreases |mem| - at
  {
    if SteppedOver(mem, at) then WalkEnd(mem, at + RoundUp(Size(mem, at))) else at
  }

  /** What the search does at the place where it steps no further. */
  function EndedAt(mem: seq<byte>, stop: nat): Walk {
    if stop + 4 > |mem| then Leaves
    else if Le32(mem, stop) == TAG_END then NoTag
    else if stop + 8 > |mem| then Leaves
    else if FramebufferTag(mem, stop) then (if stop + 38 <= |mem| then Tag(stop) else Leaves)
    else Loops
  }

  function FramebufferWalk(mem: seq<byte>): Walk {
    EndedAt(mem, WalkEnd(mem, 8))
  }

  /** The state that a framebuffer tag sets. */
  function ScreenOf(mem: seq<byte>, walk: Walk): Option<Screen>
    requires walk.Tag? ==> walk.at + 38 <= |mem|
  {
    if walk.Tag? && DirectRgb(mem, walk.at) then Some(ScreenAt(mem, walk.at)) else None
  }

  /** `mantle_framebuffer_init` without the drawing: its status and the state it
      sets. A mode without extent is stored and then refused. */
  method FramebufferInit(magic: nat, mem: seq<byte>) returns (status: Status, state: Option<Screen>)
    ensures magic != 0x36d7_6289 ==> status == Refused && state == None
    ensures magic == 0x36d7_6289 ==>
              && state == ScreenOf(mem, FramebufferWalk(mem))
              && status == match FramebufferWalk(mem)
                           case Loops => Endless
                           case Leaves => Outside
                           case _ => if state.Some? && Visible(state.value) then Ready else Refused
  {
    if magic != 0x36d7_6289 {
      return Refused, None;
    }
    var cursor: nat := 8;
    while cursor + 4 <= |mem|
      invariant WalkEnd(mem, 8) == WalkEnd(mem, cursor)
      decreases |mem| - cursor
    {
      if Le32(mem, cursor) == TAG_END {
        return Refused, None;
      }
      if cursor + 8 > |mem| {
        return Outside, None;
      }
      if Le32(mem, cursor) == TAG_FRAMEBUFFER && Le32(mem, cursor + 4) >= 38 {
        if cursor + 38 > |mem| {
          return Outside, None;
        }
        status, state := UseTag(mem, cursor);
        return;
      }
      if RoundUp(Le32(mem, cursor + 4)) == 0 {
        return Endless, None;
      }
      cursor := cursor + RoundUp(Le32(mem, cursor + 4));
    }
    return Outside, None;
  }

  predicate Visible(screen: Screen) {
    screen.width != 0 && screen.height != 0 && screen.pitch != 0
  }

  method UseTag(mem: seq<byte>, at: nat) returns (status: Status, state: Option<Screen>)
    requires at + 38 <= |mem|
    ensures state == ScreenOf(mem, Tag(at))
    ensures status == if state.Some? && Visible(state.value) then Ready else Refused
  {
    if mem[at + 29] != 1 || Le64(mem, at + 8) == 0 || mem[at + 28] < 24 || mem[at + 28] > 32 {
      return Refused, None;
    }
    var screen := ScreenAt(mem, at);
    if screen.width == 0 || screen.height == 0 || screen.pitch == 0 {
      return Refused, Some(screen);
    }
    return Ready, Some(screen);
  }

  /** Over any region, the search without bounds takes the first framebuffer tag
      among the positions that `FindRootfs` visits; without one it goes on from
      where that walk stops. */
  lemma {:induction false} WalkFollows(mem: seq<byte>, end: nat, at: nat)
    requires end < 0x8000_0000
    ensures EndedAt(mem, WalkEnd(mem, at)) ==
            match FramebufferPosition(mem, end, at)
            case Some(p) => Tag(p)
            case None => EndedAt(mem, WalkEnd(mem, Stop(mem, end, at)))
    decreases end - at
  {
    PositionStep(mem, end, at);
    if Continues(mem, end, at) {
      var next := NextTag(mem, end, at);
      if FramebufferTag(mem, at) {
        assert WalkEnd(mem, at) == at;
      } else {
        WalkFollows(mem, end, next);
        assert SteppedOver(mem, at);
        assert WalkEnd(mem, at) == WalkEnd(mem, next) && Stop(mem, end, at) == Stop(mem, end, next);
      }
    }
  }

  lemma PositionStep(mem: seq<byte>, end: nat, at: nat)
    requires end < 0x8000_0000
    ensures Continues(mem, end, at) ==>
              FramebufferPosition(mem, end, at) ==
              if FramebufferTag(mem, at) then Some(at) else FramebufferPosition(mem, end, NextTag(mem, end, at))
    ensures !Continues(mem, end, at) ==> FramebufferPosition(mem, end, at) == None && Stop(mem, end, at) == at
  {
    if Continues(mem, end, at) {
      assert Positions(mem, end, at)[1..] == Positions(mem, end, NextTag(mem, end, at));
    }
  }

  /** On a closed list it neither loops nor leaves the region. */
  lemma ClosedWalk(mem: seq<byte>, end: nat)
    requires end < 0x8000_0000 && EndTerminated(mem, end, 8)
    ensures FramebufferWalk(mem) == match FramebufferPosition(mem, end, 8)
                                    case Some(p) => Tag(p)
                                    case None => NoTag
  {
    WalkFollows(mem, end, 8);
    var stop := Stop(mem, end, 8);
    assert WalkEnd(mem, stop) == stop;
  }

  /** The search goes no further from this tag: its size rounds up to 0 in 32 bits. */
  predicate Stuck(mem: seq<byte>, at: nat) {
    at + 8 <= |mem| && Type(mem, at) != TAG_END && !FramebufferTag(mem, at) && RoundUp(Size(mem, at)) == 0
  }

  /** Sizes that round up to 0: none, and those within seven of 4 GiB. */
  lemma StuckSizes(size: nat)
    requires size < U32
    ensures RoundUp(size) == 0 <==> size == 0 || size >= U32 - 7
  {
  }

  lemma RoundUpBounds(size: nat)
    requires size < 0x8000_0000
    ensures RoundUp(size) >= size && (1 <= size <= 8 ==> RoundUp(size) == 8)
  {
  }

  /** A tag that is too long for the region leads out of it. */
  lemma TooLongLeaves(mem: seq<byte>, at: nat)
    requires |mem| < 0x8000_0000 && SteppedOver(mem, at) && at + Size(mem, at) > |mem|
    ensures EndedAt(mem, WalkEnd(mem, at)) == Leaves
  {
    var size := Size(mem, at);
    var next := at + RoundUp(size);
    if size < 0x8000_0000 {
      RoundUpBounds(size);
    } else {
      LargeRoundUp(size);
    }
    assert next > |mem|;
    assert WalkEnd(mem, next) == next;
  }

  lemma LargeRoundUp(size: nat)
    requires 0x8000_0000 <= size < U32 && RoundUp(size) != 0
    ensures RoundUp(size) >= 0x8000_0000
  {
  }

  /** What the search does with the tag at a place where the module search stops. */
  lemma StopDecides(mem: seq<byte>, at: nat, walk: Walk)
    requires |mem| < 0x8000_0000 && !Continues(mem, |mem|, at) && walk == EndedAt(mem, WalkEnd(mem, at))
    ensures if at + 8 <= |mem| && Type(mem, at) != TAG_END && 1 <= Size(mem, at) < 8
            then walk == EndedAt(mem, WalkEnd(mem, at + 8))
            else
              && (walk == Loops <==> Stuck(mem, at))
              && (walk == NoTag <==> at + 4 <= |mem| && Le32(mem, at) == TAG_END)
              && (walk.Tag? <==> FramebufferTag(mem, at) && at + 38 <= |mem|)
  {
    if !SteppedOver(mem, at) {
      assert WalkEnd(mem, at) == at;
    } else if Size(mem, at) < 8 {
      RoundUpBounds(Size(mem, at));
    } else {
      TooLongLeaves(mem, at);
    }
  }

  /** Without a framebuffer tag before the place where the module search stops, the
      tag there decides. A tag too small to be one is stepped over by eight bytes.
      From any other the search ends there, never ends, or leaves the region. */
  lemma WalkAtStop(mem: seq<byte>)
    requires |mem| < 0x8000_0000 && FramebufferPosition(mem, |mem|, 8) == None
    ensures var stop, walk := Stop(mem, |mem|, 8), FramebufferWalk(mem);
            if stop + 8 <= |mem| && Type(mem, stop) != TAG_END && 1 <= Size(mem, stop) < 8
            then walk == EndedAt(mem, WalkEnd(mem, stop + 8))
            else
              && (walk == Loops <==> Stuck(mem, stop))
              && (walk == NoTag <==> stop + 4 <= |mem| && Le32(mem, stop) == TAG_END)
              && (walk.Tag? <==> FramebufferTag(mem, stop) && stop + 38 <= |mem|)
  {
    WalkFollows(mem, |mem|, 8);
    StopDecides(mem, Stop(mem, |mem|, 8), FramebufferWalk(mem));
  }

  /** At any such tag of a region the framebuffer search never ends, unless a
      framebuffer tag stands before it, and the module search reports an error,
      unless it found the module before. */
  lemma StuckLoops(mem: seq<byte>, end: nat)
    requires end < 0x8000_0000 && end <= |mem| && Stop(mem, end, 8) + 8 <= end && Stuck(mem, Stop(mem, end, 8))
    ensures FramebufferPosition(mem, end, 8) == None ==> FramebufferWalk(mem) == Loops
    ensures First(Positions(mem, end, 8), IsRootfs(mem)) == None ==> FoundRootfs(mem, end, 8) == Invalid
  {
    WalkFollows(mem, end, 8);
    var stop := Stop(mem, end, 8);
    assert WalkEnd(mem, stop) == stop;
    StuckSizes(Size(mem, stop));
  }

  /** On a closed list `find_rootfs` never reports an error. */
  lemma ClosedListIsValid(mem: seq<byte>, end: nat, at: nat)
    requires end < 0x8000_0000 && EndTerminated(mem, end, at)
    ensures FoundRootfs(mem, end, at) != Invalid
  {
  }
}
