/** The FAT16 EFI system partition builder. */
module Esp {
  import opened Options
  import opened Bytes
  import opened Slices

  const SECTOR: int := 512
  const TOTAL_SECTORS: int := 32768
  const FAT_BYTES: int := 65536
  const FAT_ENTRIES: int := 32768
  const ROOT: int := 131584 // sector 257
  const DATA: int := 147968 // sector 289
  const PAYLOAD: int := 148992 // sector 291
  const IMAGE_BYTES: int := 16777216


  const EFI: seq<byte> := [0x45, 0x46, 0x49]
  const BOOT: seq<byte> := [0x42, 0x4f, 0x4f, 0x54]
  const BOOTX64: seq<byte> := [0x42, 0x4f, 0x4f, 0x54, 0x58, 0x36, 0x34, 0x20, 0x45, 0x46, 0x49]
  const DOT: seq<byte> := [0x2e]
  const DOTDOT: seq<byte> := [0x2e, 0x2e]

  /** Slice assignment `s[at:at+len(part)] = part`: it grows the sequence when the slice runs past its end. */
  function Patch(s: seq<byte>, at: nat, part: seq<byte>): (r: seq<byte>)
    requires at <= |s|
    ensures |r| == if at + |part| <= |s| then |s| else at + |part|
    ensures forall k :: 0 <= k < |r| ==> r[k] == if at <= k < at + |part| then part[k - at] else s[k]
  {
    s[..at] + part + if at + |part| <= |s| then s[at + |part|..] else []
  }

  /** Sectors that a payload of `size` bytes takes. */
  function Sectors(size: nat): nat {
    (size + SECTOR - 1) / SECTOR
  }

  /** A name padded with spaces to eleven characters. */
  function Padded(name: seq<byte>): (r: seq<byte>)
    requires |name| <= 11
    ensures |r| == 11
  {
    name + seq(11 - |name|, _ => 0x20)
  }

  function DirectoryEntry(name: seq<byte>, attr: byte, cluster: nat, size: nat): (r: seq<byte>)
    requires |name| <= 11
    ensures |r| == 32
  {
    Padded(name) + [attr] + Zeros(14) + Put16(cluster) + Put32(size)
  }

  /** The `c`-th 16-bit entry of a table. */
  function Fat(table: seq<byte>, c: nat): nat
    requires 2 * c + 2 <= |table|
  {
    Le16(table, 2 * c)
  }

  /** What the allocation table says of cluster `c` when the payload takes `n`
      clusters: two reserved entries, the two directories, the payload chain. */
  function FatValue(c: nat, n: nat): nat {
    if c == 0 then 0xFFF8
    else if c <= 3 then 0xFFFF
    else if c + 1 < 4 + n then c + 1
    else if c + 1 == 4 + n then 0xFFFF
    else 0
  }

  ghost predicate FatHolds(table: seq<byte>, n: nat) {
    |table| == FAT_BYTES &&
    forall c :: 0 <= c < FAT_ENTRIES ==> Fat(table, c) == FatValue(c, n)
  }

  /** The boot sector's parameter block. */
  ghost predicate BpbHolds(image: seq<byte>) {
    && |image| >= SECTOR && GeometryHolds(image)
    && Le32(image, 32) == TOTAL_SECTORS
    && image[510] == 0x55 && image[511] == 0xAA
  }

  ghost predicate GeometryHolds(image: seq<byte>)
    requires |image| >= SECTOR
  {
    && Le16(image, 11) == SECTOR && image[13] == 1 && Le16(image, 14) == 1
    && image[16] == 2 && Le16(image, 17) == 512 && Le16(image, 19) == 0
    && image[21] == 0xF8 && Le16(image, 22) == 128
  }

  /** The file system the builder writes: parameter block, two equal tables, three
      directories with nothing after their entries, and the payload. */
  ghost predicate EspHolds(image: seq<byte>, payload: seq<byte>) {
    && |image| >= PAYLOAD + |payload|
    && BpbHolds(image)
    && FatHolds(image[SECTOR..SECTOR + FAT_BYTES], Sectors(|payload|))
    && FatHolds(image[SECTOR + FAT_BYTES..SECTOR + 2 * FAT_BYTES], Sectors(|payload|))
    && Stands(image, ROOT, DirectoryEntry(EFI, 0x10, 2, 0))
    && Stands(image, DATA, DirectoryEntry(DOT, 0x10, 2, 0))
    && Stands(image, DATA + 32, DirectoryEntry(DOTDOT, 0x10, 0, 0))
    && Stands(image, DATA + 64, DirectoryEntry(BOOT, 0x10, 3, 0))
    && Stands(image, DATA + 512, DirectoryEntry(DOT, 0x10, 3, 0))
    && Stands(image, DATA + 544, DirectoryEntry(DOTDOT, 0x10, 2, 0))
    && Stands(image, DATA + 576, DirectoryEntry(BOOTX64, 0x20, 4, |payload|))
    && image[ROOT + 32] == 0 && image[DATA + 96] == 0 && image[DATA + 608] == 0
    && Stands(image, PAYLOAD, payload)
  }

  // ----- Building -----

  method WriteGeometry(blank: seq<byte>) returns (image: seq<byte>)
    requires |blank| == IMAGE_BYTES
    ensures |image| == |blank| && GeometryHolds(image)
    ensures forall k :: 24 <= k < |image| ==> image[k] == blank[k]
  {
    image := Patch(blank, 0, [0xEB, 0x3C, 0x90]);
    image := Patch(image, 3, [0x4d, 0x41, 0x4e, 0x54, 0x4c, 0x45, 0x4f, 0x53]);
    image := Patch(image, 11, [0, 2]);
    image := image[13 := 1];
    image := Patch(image, 14, [1, 0]);
    image := image[16 := 2];
    image := Patch(image, 17, [0, 2]);
    image := Patch(image, 19, [0, 0]);
    image := image[21 := 0xF8];
    image := Patch(image, 22, [128, 0]);
  }

  method WriteBpb(blank: seq<byte>) returns (image: seq<byte>)
    requires |blank| == IMAGE_BYTES
    ensures BpbHolds(image) && |image| == |blank|
    ensures forall k :: SECTOR <= k < |image| ==> image[k] == blank[k]
  {
    image := WriteGeometry(blank);
    ghost var start := image;
    image := Patch(image, 24, [18, 0]);
    image := Patch(image, 26, [2, 0]);
    image := image[38 := 0x29];
    image := Patch(image, 39, [0x53, 0x4f, 0x54, 0x4d]);
    image := Patch(image, 43, [0x4d, 0x41, 0x4e, 0x54, 0x4c, 0x45, 0x20, 0x45, 0x46, 0x49, 0x20]);
    image := Patch(image, 54, [0x46, 0x41, 0x54, 0x31, 0x36, 0x20, 0x20, 0x20]);
    image := Patch(image, 32, [0, 128, 0, 0]);
    image := Patch(image, 510, [0x55, 0xAA]);
    assert forall k :: 0 <= k < 24 ==> image[k] == start[k];
  }

  /** `fat16_set`. */
  method SetFat(table: seq<byte>, cluster: nat, value: nat) returns (r: seq<byte>)
    requires 2 * cluster + 2 <= |table| && value < U16
    ensures |r| == |table|
    ensures forall c :: 0 <= c && 2 * c + 2 <= |table| ==> Fat(r, c) == if c == cluster then value else Fat(table, c)
  {
    r := table[2 * cluster := value % 256][2 * cluster + 1 := value / 256];
  }

  /** The allocation table for a payload of `n` clusters; a chain that runs past
      the table is a packing error. */
  method BuildFat(n: nat) returns (result: Option<seq<byte>>)
    requires 1 <= n <= 65524
    ensures result.Some? <==> n + 4 <= FAT_ENTRIES
    ensures result.Some? ==> FatHolds(result.value, n)
  {
    var table := Zeros(FAT_BYTES);
    table := SetFat(table, 0, 0xFFF8);
    table := SetFat(table, 1, 0xFFFF);
    table := SetFat(table, 2, 0xFFFF);
    table := SetFat(table, 3, 0xFFFF);
    for cluster := 0 to n
      invariant |table| == FAT_BYTES && cluster + 4 <= FAT_ENTRIES
      invariant forall c :: 0 <= c < FAT_ENTRIES ==>
        Fat(table, c) == if c < 4 + cluster then FatValue(c, n) else 0
    {
      if 2 * (4 + cluster) + 2 > |table| {
        return None;
      }
      table := SetFat(table, 4 + cluster, if cluster + 1 == n then 0xFFFF else 5 + cluster);
    }
    return Some(table);
  }

  method WriteDirectories(blank: seq<byte>, size: nat) returns (image: seq<byte>)
    requires |blank| == IMAGE_BYTES && forall k :: ROOT <= k < |blank| ==> blank[k] == 0
    ensures |image| == |blank|
    ensures forall k :: 0 <= k < |image| && (k < ROOT || PAYLOAD <= k) ==> image[k] == blank[k]
    ensures Stands(image, ROOT, DirectoryEntry(EFI, 0x10, 2, 0))
    ensures Stands(image, DATA, DirectoryEntry(DOT, 0x10, 2, 0))
    ensures Stands(image, DATA + 32, DirectoryEntry(DOTDOT, 0x10, 0, 0))
    ensures Stands(image, DATA + 64, DirectoryEntry(BOOT, 0x10, 3, 0))
    ensures Stands(image, DATA + 512, DirectoryEntry(DOT, 0x10, 3, 0))
    ensures Stands(image, DATA + 544, DirectoryEntry(DOTDOT, 0x10, 2, 0))
    ensures Stands(image, DATA + 576, DirectoryEntry(BOOTX64, 0x20, 4, size))
    ensures image[ROOT + 32] == 0 && image[DATA + 96] == 0 && image[DATA + 608] == 0
  {
    image := Patch(blank, ROOT, DirectoryEntry(EFI, 0x10, 2, 0));
    image := Patch(image, DATA, DirectoryEntry(DOT, 0x10, 2, 0));
    image := Patch(image, DATA + 32, DirectoryEntry(DOTDOT, 0x10, 0, 0));
    image := Patch(image, DATA + 64, DirectoryEntry(BOOT, 0x10, 3, 0));
    image := Patch(image, DATA + 512, DirectoryEntry(DOT, 0x10, 3, 0));
    image := Patch(image, DATA + 544, DirectoryEntry(DOTDOT, 0x10, 2, 0));
    image := Patch(image, DATA + 576, DirectoryEntry(BOOTX64, 0x20, 4, size));
  }

  /** The script: an error for an empty payload, one above 65524 sectors, and one
      whose chain does not fit the table. */
  method Build(payload: seq<byte>) returns (result: Option<seq<byte>>)
    ensures result.Some? <==> 1 <= Sectors(|payload|) <= FAT_ENTRIES - 4
    ensures result.Some? ==> EspHolds(result.value, payload)
    ensures result.Some? ==>
              |result.value| == if PAYLOAD + |payload| <= IMAGE_BYTES then IMAGE_BYTES else PAYLOAD + |payload|
  {
    var clusterCount := (|payload| + SECTOR - 1) / SECTOR;
    if clusterCount == 0 || clusterCount > 65524 {
      return None;
    }
    var image := WriteBpb(Zeros(SECTOR * TOTAL_SECTORS));
    var fat := BuildFat(clusterCount);
    if fat.None? {
      return None;
    }
    image := Patch(image, SECTOR, fat.value);
    image := Patch(image, SECTOR + FAT_BYTES, fat.value);
    image := WriteDirectories(image, |payload|);
    image := Patch(image, PAYLOAD, payload);
    assert image[SECTOR..SECTOR + FAT_BYTES] == fat.value;
    assert image[SECTOR + FAT_BYTES..SECTOR + 2 * FAT_BYTES] == fat.value;
    return Some(image);
  }

  /** The image keeps its 32768 sectors exactly for payloads of at most 32477
      sectors, although the script's own guard allows 65524. */
  lemma Capacity(size: nat)
    ensures PAYLOAD + size <= IMAGE_BYTES <==> Sectors(size) <= 32477
  {
  }
}
