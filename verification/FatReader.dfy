/** A FAT16 reader that uses only the parameter block, the directories and the
    allocation chains, and the round trip of the partition builder with it. The
    layout is that of the Microsoft FAT specification, version 1.03, sections
    "FAT Type Determination" and "FAT Directory Structure". */
module FatReader {
  import opened Options
  import opened Bytes
  import opened Esp
  import opened Slices

  /** What the parameter block says. */
  datatype Volume = Volume(sector: nat, perCluster: nat, reserved: nat, tables: nat, rootEntries: nat,
                           tableSectors: nat, total: nat)
  {
    function RootSectors(): nat
      requires sector > 0
    {
      (rootEntries * 32 + sector - 1) / sector
    }

    function FirstData(): nat
      requires sector > 0
    {
      reserved + tables * tableSectors + RootSectors()
    }

    function Clusters(): nat
      requires sector > 0 && perCluster > 0
    {
      if total <= FirstData() then 0 else (total - FirstData()) / perCluster
    }

    /** The type is decided by the number of clusters alone. */
    predicate Fat16()
      requires sector > 0 && perCluster > 0
    {
      4085 <= Clusters() < 65525
    }
  }

  datatype Slot = Slot(attr: nat, cluster: nat, size: nat)

  function ReadVolume(image: seq<byte>): Option<Volume> {
    if |image| < SECTOR || image[510] != 0x55 || image[511] != 0xAA then None
    else
      var total := if Le16(image, 19) != 0 then Le16(image, 19) else Le32(image, 32);
      var v := Volume(Le16(image, 11), image[13], Le16(image, 14), image[16], Le16(image, 17), Le16(image, 22), total);
      if v.sector == 0 || v.perCluster == 0 || !v.Fat16() || v.total * v.sector > |image| then None else Some(v)
  }

  /** A slice, or as much of it as there is. */
  function Slice(image: seq<byte>, at: nat, n: nat): seq<byte> {
    if at + n <= |image| then image[at..at + n] else []
  }

  function Table(image: seq<byte>, v: Volume, i: nat): seq<byte> {
    Slice(image, (v.reserved + i * v.tableSectors) * v.sector, v.tableSectors * v.sector)
  }

  /** The chain of clusters that starts at `c`, followed to an end mark; at most `fuel` long. */
  function Chain(table: seq<byte>, clusters: nat, c: nat, fuel: nat): (r: Option<seq<nat>>)
    ensures r.Some? ==> forall i :: 0 <= i < |r.value| ==> 2 <= r.value[i] < clusters + 2
    decreases fuel, |table|
  {
    if fuel == 0 || c < 2 || c >= clusters + 2 || 2 * c + 2 > |table| then None
    else if Fat(table, c) >= 0xFFF8 then Some([c])
    else
      match Chain(table, clusters, Fat(table, c), fuel - 1)
      case None => None
      case Some(rest) => Some([c] + rest)
  }

  /** The data of a chain, cluster after cluster. */
  function Data(image: seq<byte>, start: nat, size: nat, chain: seq<nat>): seq<byte>
    requires forall i :: 0 <= i < |chain| ==> chain[i] >= 2
  {
    if chain == [] then []
    else
      var last := chain[|chain| - 1];
      Data(image, start, size, chain[..|chain| - 1]) + Cluster(image, start, size, last)
  }

  function Cluster(image: seq<byte>, start: nat, size: nat, c: nat): seq<byte>
    requires c >= 2
  {
    Slice(image, start + (c - 2) * size, size)
  }

  /** The stream of a directory or file that starts at cluster `c`. */
  function Stream(image: seq<byte>, v: Volume, c: nat): Option<seq<byte>>
    requires v.sector > 0 && v.perCluster > 0
  {
    match Chain(Table(image, v, 0), v.Clusters(), c, v.Clusters())
    case None => None
    case Some(chain) =>
      Some(Data(image, v.FirstData() * v.sector, v.perCluster * v.sector, chain))
  }

  /** The slot of a name in a directory; the first slot that begins with zero ends it. */
  function Find(dir: seq<byte>, i: nat, name: seq<byte>): Option<Slot>
    decreases |dir| - 32 * i
  {
    if 32 * i + 32 > |dir| || dir[32 * i] == 0 then None
    else if dir[32 * i..32 * i + 11] == name
    then Some(Slot(dir[32 * i + 11], Le16(dir, 32 * i + 26), Le32(dir, 32 * i + 28)))
    else Find(dir, i + 1, name)
  }

  function RootDirectory(image: seq<byte>, v: Volume): seq<byte> {
    Slice(image, (v.reserved + v.tables * v.tableSectors) * v.sector, v.rootEntries * 32)
  }

  /** A subdirectory of `dir`. */
  function Enter(image: seq<byte>, v: Volume, dir: seq<byte>, name: seq<byte>): Option<seq<byte>>
    requires v.sector > 0 && v.perCluster > 0
  {
    match Find(dir, 0, name)
    case None => None
    case Some(slot) => if slot.attr == 0x10 then Stream(image, v, slot.cluster) else None
  }

  /** A file of `dir`, cut to its size. */
  function ReadFile(image: seq<byte>, v: Volume, dir: seq<byte>, name: seq<byte>): Option<seq<byte>>
    requires v.sector > 0 && v.perCluster > 0
  {
    match Find(dir, 0, name)
    case None => None
    case Some(slot) =>
      if slot.attr == 0x10 then None
      else
        match Stream(image, v, slot.cluster)
        case None => None
        case Some(stream) => if slot.size <= |stream| then Some(stream[..slot.size]) else None
  }

  /** The file at a path of two directories. */
  function Follow(image: seq<byte>, first: seq<byte>, second: seq<byte>, name: seq<byte>): Option<seq<byte>> {
    match ReadVolume(image)
    case None => None
    case Some(v) =>
      match Enter(image, v, RootDirectory(image, v), first)
      case None => None
      case Some(upper) =>
        match Enter(image, v, upper, second)
        case None => None
        case Some(lower) => ReadFile(image, v, lower, name)
  }

  /** The removable-media boot path of the UEFI specification: \EFI\BOOT\BOOTX64.EFI. */
  function BootFile(image: seq<byte>): Option<seq<byte>> {
    Follow(image, Ascii("EFI        "), Ascii("BOOT       "), Ascii("BOOTX64 EFI"))
  }

  // ----- The round trip -----

  /** The builder writes these names. */
  lemma Names()
    ensures Padded(EFI) == Ascii("EFI        ") && Padded(BOOT) == Ascii("BOOT       ")
    ensures Padded(BOOTX64) == Ascii("BOOTX64 EFI")
    ensures Padded(DOT) == Ascii(".          ") && Padded(DOTDOT) == Ascii("..         ")
  {
  }

  const ESP_VOLUME: Volume := Volume(512, 1, 1, 2, 512, 128, 32768)

  lemma VolumeReadBack(image: seq<byte>)
    requires BpbHolds(image) && |image| >= IMAGE_BYTES
    ensures ReadVolume(image) == Some(ESP_VOLUME)
    ensures ESP_VOLUME.RootSectors() == 32 && ESP_VOLUME.FirstData() == 289 && ESP_VOLUME.Clusters() == 32479
  {
  }

  /** The payload chain is the run of consecutive clusters to its end mark. */
  lemma {:induction false} PayloadChain(table: seq<byte>, n: nat, j: nat, fuel: nat)
    requires FatHolds(table, n) && 4 <= j < 4 + n <= 32481 && fuel >= 4 + n - j
    ensures Chain(table, 32479, j, fuel) == Some(Run(j, 4 + n))
    decreases 4 + n - j
  {
    assert Fat(table, j) == FatValue(j, n);
    if j + 1 < 4 + n {
      PayloadChain(table, n, j + 1, fuel - 1);
      assert [j] + Run(j + 1, 4 + n) == Run(j, 4 + n);
    } else {
      assert [j] == Run(j, 4 + n);
    }
  }

  /** A chain that is too long for the volume leaves its clusters. */
  lemma {:induction false} ChainOverflows(table: seq<byte>, n: nat, j: nat, fuel: nat)
    requires FatHolds(table, n) && 32478 <= n && 4 <= j < 4 + n
    ensures Chain(table, 32479, j, fuel) == None
    decreases fuel
  {
    if fuel > 0 && j < 32481 {
      assert Fat(table, j) == FatValue(j, n) == j + 1;
      ChainOverflows(table, n, j + 1, fuel - 1);
    }
  }

  function Run(a: nat, b: nat): (r: seq<nat>)
    requires a <= b
    ensures |r| == b - a && forall i :: 0 <= i < |r| ==> r[i] == a + i
  {
    seq(b - a, i requires 0 <= i => a + i)
  }

  lemma DirectoryChain(table: seq<byte>, n: nat, c: nat, fuel: nat)
    requires FatHolds(table, n) && 2 <= c <= 3 && fuel > 0
    ensures Chain(table, 32479, c, fuel) == Some([c])
  {
    assert Fat(table, c) == FatValue(c, n);
  }

  lemma Joined(image: seq<byte>, i: nat, j: nat, k: nat)
    requires i <= j <= k <= |image|
    ensures image[i..j] + image[j..k] == image[i..k]
  {
  }

  /** Where a cluster of the partition starts. */
  function At(c: nat): nat
    requires c >= 2
  {
    DATA + (c - 2) * 512
  }

  lemma ClusterSlice(image: seq<byte>, c: nat)
    requires c >= 2 && At(c + 1) <= |image|
    ensures At(c) <= At(c + 1) && Cluster(image, DATA, 512, c) == image[At(c)..At(c + 1)]
  {
  }

  /** The data of a run of clusters is one slice. */
  lemma {:induction false} RunData(image: seq<byte>, chain: seq<nat>, a: nat)
    requires a >= 2 && (forall i :: 0 <= i < |chain| ==> chain[i] == a + i) && At(a + |chain|) <= |image|
    ensures Data(image, DATA, 512, chain) == image[At(a)..At(a + |chain|)]
    decreases |chain|
  {
    if chain != [] {
      var last := chain[|chain| - 1];
      RunData(image, chain[..|chain| - 1], a);
      ClusterSlice(image, last);
      Joined(image, At(a), At(last), At(last + 1));
    }
  }

  /** The directory slot that an entry's 32 bytes encode. */
  lemma SlotReadBack(dir: seq<byte>, i: nat, name: seq<byte>, attr: byte, cluster: nat, size: nat)
    requires 1 <= |name| <= 11 && cluster < U16 && size < U32
    requires Stands(dir, 32 * i, DirectoryEntry(name, attr, cluster, size))
    ensures dir[32 * i] == name[0]
    ensures dir[32 * i..32 * i + 11] == Padded(name)
    ensures Slot(dir[32 * i + 11], Le16(dir, 32 * i + 26), Le32(dir, 32 * i + 28)) == Slot(attr, cluster, size)
  {
    var at, e := 32 * i, DirectoryEntry(name, attr, cluster, size);
    assert e[..11] == Padded(name) && e[0] == name[0] && e[11] == attr;
    assert e[26..28] == Put16(cluster) && e[28..32] == Put32(size);
    assert dir[at..at + 32] == e;
    assert dir[at..at + 11] == dir[at..at + 32][..11];
    assert dir[at + 0] == e[0] && dir[at + 11] == e[11];
    assert dir[at + 26..at + 28] == dir[at..at + 32][26..28];
    assert dir[at + 28..at + 32] == dir[at..at + 32][28..32];
    Reads16(dir, at + 26, cluster);
    Reads32(dir, at + 28, size);
  }

  /** Slices keep what stands in them. */
  lemma HoldsInSlice(image: seq<byte>, from: nat, n: nat, at: nat, part: seq<byte>)
    requires from + n <= |image| && at + |part| <= n && Stands(image, from + at, part)
    ensures Stands(Slice(image, from, n), at, part)
  {
    forall i | 0 <= i < |part| ensures image[from..from + n][at + i] == part[i] {
      assert image[from..from + n][at + i] == image[from + at + i];
    }
  }

  /** What the builder makes of any payload that it accepts. */
  ghost predicate Fits(image: seq<byte>, payload: seq<byte>) {
    EspHolds(image, payload) && |image| >= IMAGE_BYTES && 1 <= Sectors(|payload|) <= FAT_ENTRIES - 4
  }

  /** Both tables read the same, entry by entry as the builder intends. */
  lemma TablesAgree(image: seq<byte>, payload: seq<byte>)
    requires Fits(image, payload)
    ensures FatHolds(Table(image, ESP_VOLUME, 0), Sectors(|payload|))
    ensures FatHolds(Table(image, ESP_VOLUME, 1), Sectors(|payload|))
    ensures forall c :: 0 <= c < FAT_ENTRIES ==>
              Fat(Table(image, ESP_VOLUME, 0), c) == Fat(Table(image, ESP_VOLUME, 1), c)
  {
    assert Table(image, ESP_VOLUME, 0) == image[SECTOR..SECTOR + FAT_BYTES];
    assert Table(image, ESP_VOLUME, 1) == image[SECTOR + FAT_BYTES..SECTOR + 2 * FAT_BYTES];
    forall c | 0 <= c < FAT_ENTRIES
      ensures Fat(Table(image, ESP_VOLUME, 0), c) == Fat(Table(image, ESP_VOLUME, 1), c)
    {
      assert Fat(Table(image, ESP_VOLUME, 0), c) == FatValue(c, Sectors(|payload|));
    }
  }

  /** The three chains: each directory is one cluster, and the payload follows
      them without sharing a cluster. Each ends in an end mark, if it fits the volume. */
  lemma ChainsDisjoint(table: seq<byte>, n: nat)
    requires FatHolds(table, n) && n >= 1
    ensures Chain(table, 32479, 2, 32479) == Some([2]) && Chain(table, 32479, 3, 32479) == Some([3])
    ensures Chain(table, 32479, 4, 32479) == if n <= 32477 then Some(Run(4, 4 + n)) else None
    ensures 2 !in Run(4, 4 + n) && 3 !in Run(4, 4 + n)
  {
    DirectoryChain(table, n, 2, 32479);
    DirectoryChain(table, n, 3, 32479);
    if n <= 32477 {
      PayloadChain(table, n, 4, 32479);
    } else {
      ChainOverflows(table, n, 4, 32479);
    }
  }

  lemma StreamData(image: seq<byte>, c: nat, chain: seq<nat>)
    requires Chain(Table(image, ESP_VOLUME, 0), 32479, c, 32479) == Some(chain)
    ensures Stream(image, ESP_VOLUME, c) == Some(Data(image, DATA, 512, chain))
  {
    assert ESP_VOLUME.FirstData() == 289 && ESP_VOLUME.Clusters() == 32479;
  }

  /** The stream of a run of clusters is one slice of the image. */
  lemma RunStream(image: seq<byte>, a: nat, b: nat)
    requires 2 <= a < b && At(b) <= |image|
    requires Chain(Table(image, ESP_VOLUME, 0), 32479, a, 32479) == Some(Run(a, b))
    ensures Stream(image, ESP_VOLUME, a) == Some(image[At(a)..At(b)])
  {
    StreamData(image, a, Run(a, b));
    RunData(image, Run(a, b), a);
  }

  lemma DirectoryStreams(image: seq<byte>, n: nat)
    requires FatHolds(Table(image, ESP_VOLUME, 0), n) && n >= 1 && |image| >= IMAGE_BYTES
    ensures Stream(image, ESP_VOLUME, 2) == Some(Slice(image, DATA, 512))
    ensures Stream(image, ESP_VOLUME, 3) == Some(Slice(image, DATA + 512, 512))
  {
    ChainsDisjoint(Table(image, ESP_VOLUME, 0), n);
    assert [2] == Run(2, 3) && [3] == Run(3, 4);
    RunStream(image, 2, 3);
    RunStream(image, 3, 4);
  }

  lemma PayloadStream(image: seq<byte>, n: nat)
    requires FatHolds(Table(image, ESP_VOLUME, 0), n) && n >= 1 && |image| >= IMAGE_BYTES
    ensures Stream(image, ESP_VOLUME, 4) == if n <= 32477 then Some(Slice(image, PAYLOAD, n * 512)) else None
  {
    ChainsDisjoint(Table(image, ESP_VOLUME, 0), n);
    if n <= 32477 {
      RunStream(image, 4, 4 + n);
    } else {
      NoStream(image, 4);
    }
  }

  lemma NoStream(image: seq<byte>, c: nat)
    requires Chain(Table(image, ESP_VOLUME, 0), 32479, c, 32479) == None
    ensures Stream(image, ESP_VOLUME, c) == None
  {
    assert ESP_VOLUME.Clusters() == 32479;
  }

  lemma PayloadInStream(image: seq<byte>, payload: seq<byte>, n: nat)
    requires Stands(image, PAYLOAD, payload) && |payload| <= n && PAYLOAD + n <= |image|
    ensures Slice(image, PAYLOAD, n)[..|payload|] == payload
  {
    var stream := Slice(image, PAYLOAD, n);
    forall i | 0 <= i < |payload| ensures stream[i] == payload[i] {
      assert stream[i] == image[PAYLOAD + i];
    }
  }

  lemma FindEfi(image: seq<byte>, payload: seq<byte>)
    requires Fits(image, payload)
    ensures Find(RootDirectory(image, ESP_VOLUME), 0, Padded(EFI)) == Some(Slot(0x10, 2, 0))
  {
    var dir := RootDirectory(image, ESP_VOLUME);
    HoldsInSlice(image, ROOT, 16384, 0, DirectoryEntry(EFI, 0x10, 2, 0));
    SlotReadBack(dir, 0, EFI, 0x10, 2, 0);
  }

  /** A third slot is found behind the self and parent slots. */
  lemma FindThird(dir: seq<byte>, self: nat, parent: nat, name: seq<byte>, attr: byte, cluster: nat, size: nat)
    requires |dir| == 512 && 3 <= |name| <= 11 && name[0] != 0 && name[0] != 0x2e
    requires self < U16 && parent < U16 && cluster < U16 && size < U32
    requires Stands(dir, 0, DirectoryEntry(DOT, 0x10, self, 0))
    requires Stands(dir, 32, DirectoryEntry(DOTDOT, 0x10, parent, 0))
    requires Stands(dir, 64, DirectoryEntry(name, attr, cluster, size))
    ensures Find(dir, 0, Padded(name)) == Some(Slot(attr, cluster, size))
  {
    SlotReadBack(dir, 0, DOT, 0x10, self, 0);
    SlotReadBack(dir, 1, DOTDOT, 0x10, parent, 0);
    SlotReadBack(dir, 2, name, attr, cluster, size);
    assert Padded(DOT)[0] != Padded(name)[0] && Padded(DOTDOT)[0] != Padded(name)[0];
    assert Find(dir, 2, Padded(name)) == Some(Slot(attr, cluster, size));
    assert Find(dir, 1, Padded(name)) == Find(dir, 2, Padded(name));
  }

  lemma FindBoot(image: seq<byte>, payload: seq<byte>)
    requires Fits(image, payload)
    ensures Find(Slice(image, DATA, 512), 0, Padded(BOOT)) == Some(Slot(0x10, 3, 0))
    ensures Find(Slice(image, DATA + 512, 512), 0, Padded(BOOTX64)) == Some(Slot(0x20, 4, |payload|))
  {
    HoldsInSlice(image, DATA, 512, 0, DirectoryEntry(DOT, 0x10, 2, 0));
    HoldsInSlice(image, DATA, 512, 32, DirectoryEntry(DOTDOT, 0x10, 0, 0));
    HoldsInSlice(image, DATA, 512, 64, DirectoryEntry(BOOT, 0x10, 3, 0));
    FindThird(Slice(image, DATA, 512), 2, 0, BOOT, 0x10, 3, 0);
    HoldsInSlice(image, DATA + 512, 512, 0, DirectoryEntry(DOT, 0x10, 3, 0));
    HoldsInSlice(image, DATA + 512, 512, 32, DirectoryEntry(DOTDOT, 0x10, 2, 0));
    HoldsInSlice(image, DATA + 512, 512, 64, DirectoryEntry(BOOTX64, 0x20, 4, |payload|));
    FindThird(Slice(image, DATA + 512, 512), 3, 2, BOOTX64, 0x20, 4, |payload|);
  }

  lemma EnterDirectories(image: seq<byte>, payload: seq<byte>)
    requires Fits(image, payload)
    ensures Enter(image, ESP_VOLUME, RootDirectory(image, ESP_VOLUME), Padded(EFI)) == Some(Slice(image, DATA, 512))
    ensures Enter(image, ESP_VOLUME, Slice(image, DATA, 512), Padded(BOOT)) == Some(Slice(image, DATA + 512, 512))
  {
    TablesAgree(image, payload);
    DirectoryStreams(image, Sectors(|payload|));
    FindEfi(image, payload);
    FindBoot(image, payload);
  }

  lemma ReadPayload(image: seq<byte>, payload: seq<byte>)
    requires Fits(image, payload)
    ensures ReadFile(image, ESP_VOLUME, Slice(image, DATA + 512, 512), Padded(BOOTX64)) ==
            if Sectors(|payload|) <= 32477 then Some(payload) else None
  {
    FindBoot(image, payload);
    TablesAgree(image, payload);
    PayloadStream(image, Sectors(|payload|));
    if Sectors(|payload|) <= 32477 {
      PayloadInStream(image, payload, Sectors(|payload|) * 512);
    }
  }

  lemma FollowPath(image: seq<byte>, payload: seq<byte>)
    requires Fits(image, payload)
    ensures Follow(image, Padded(EFI), Padded(BOOT), Padded(BOOTX64)) ==
            if Sectors(|payload|) <= 32477 then Some(payload) else None
  {
    VolumeReadBack(image);
    EnterDirectories(image, payload);
    ReadPayload(image, payload);
  }

  /** Following the file system from its parameter block finds exactly the payload
      if that takes at most 32477 sectors, and no file at all if it takes more. */
  lemma EspRoundTrip(image: seq<byte>, payload: seq<byte>)
    requires Fits(image, payload)
    ensures BootFile(image) == if |payload| <= 32477 * 512 then Some(payload) else None
  {
    FollowPath(image, payload);
    Names();
  }
}
