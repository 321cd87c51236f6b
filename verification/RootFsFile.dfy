/** Root filesystem images field by field: an image is mounted exactly if magic,
    count and records stand in it one behind the other. */
module RootFsFile {
  import opened Bytes
  import opened RootFs

  predicate Fits(e: Entry, size: nat) {
    1 <= |e.path| <= 255 && e.mode < 0x1_0000 && e.offset < U32 && e.size < U32 && e.offset + e.size <= size
  }

  /** A record: path length, mode, offset and size of the data, and the path. */
  ghost predicate RecordStands(image: seq<byte>, at: nat, e: Entry) {
    && at + 12 + |e.path| <= |image|
    && image[at..at + 2] == Put16(|e.path|) && image[at + 2..at + 4] == Put16(e.mode)
    && image[at + 4..at + 8] == Put32(e.offset) && image[at + 8..at + 12] == Put32(e.size)
    && image[at + 12..at + 12 + |e.path|] == e.path
  }

  /** Where record `i` starts. */
  function Start(es: seq<Entry>, i: nat): nat
    requires i <= |es|
  {
    if i == 0 then 8 else Start(es, i - 1) + 12 + |es[i - 1].path|
  }

  /** The `i`-th record stands where the ones before it end; its data may stand anywhere in the image. */
  ghost predicate Placed(image: seq<byte>, es: seq<Entry>, i: nat)
    requires i < |es|
  {
    Fits(es[i], |image|) && RecordStands(image, Start(es, i), es[i])
  }

  ghost predicate LaidOut(image: seq<byte>, es: seq<Entry>) {
    && 1 <= |es| <= 128 && 8 <= |image|
    && image[..4] == Ascii("RFS1") && image[4..8] == Put32(|es|)
    && forall i :: 0 <= i < |es| ==> Placed(image, es, i)
  }

  // ----- Fields -----

  lemma Written16(image: seq<byte>, at: nat)
    requires at + 2 <= |image|
    ensures Le16(image, at) < U16 && image[at..at + 2] == Put16(Le16(image, at))
  {
  }

  lemma Put32Halves(a: nat, b: nat)
    requires a < U16 && b < U16
    ensures Put32(a + 0x1_0000 * b) == Put16(a) + Put16(b)
  {
    var v := a + 0x1_0000 * b;
    assert v / 256 == a / 256 + 256 * b;
  }

  lemma Written32(image: seq<byte>, at: nat)
    requires at + 4 <= |image|
    ensures Le32(image, at) < U32 && image[at..at + 4] == Put32(Le32(image, at))
  {
    Written16(image, at);
    Written16(image, at + 2);
    Put32Halves(Le16(image, at), Le16(image, at + 2));
    assert image[at..at + 4] == image[at..at + 2] + image[at + 2..at + 4];
  }

  lemma Magic()
    ensures Put32(0x3153_4652) == Ascii("RFS1")
  {
  }

  // ----- Records and entries -----

  /** A written record is an entry that the kernel accepts, and reads as it is written. */
  lemma RecordAccepted(image: seq<byte>, at: nat, e: Entry)
    requires Fits(e, |image|) && RecordStands(image, at, e)
    ensures EntryOk(image, at) && Next(image, at) == at + 12 + |e.path| && EntryAt(image, at) == e
  {
    Reads16(image, at, |e.path|);
    Reads16(image, at + 2, e.mode);
    Reads32(image, at + 4, e.offset);
    Reads32(image, at + 8, e.size);
  }

  /** An entry that the kernel accepts is a written record. */
  lemma EntryIsRecord(image: seq<byte>, at: nat)
    requires EntryOk(image, at)
    ensures var e := EntryAt(image, at);
            Fits(e, |image|) && RecordStands(image, at, e) && Next(image, at) == at + 12 + |e.path|
  {
    Written16(image, at);
    Written16(image, at + 2);
    Written32(image, at + 4);
    Written32(image, at + 8);
  }

  lemma {:induction false} Walk(image: seq<byte>, es: seq<Entry>, n: nat, cs: seq<nat>)
    requires (forall i :: 0 <= i < |es| ==> Placed(image, es, i)) && n <= |es| && cs == Cursors(image, n)
    ensures |cs| == n + 1 && forall i :: 0 <= i <= n ==> cs[i] == Start(es, i)
  {
    if n > 0 {
      Walk(image, es, n - 1, Cursors(image, n - 1));
      assert Placed(image, es, n - 1);
      RecordAccepted(image, Start(es, n - 1), es[n - 1]);
    }
  }

  lemma EntriesAre(image: seq<byte>, es: seq<Entry>, n: nat, cs: seq<nat>)
    requires (forall i :: 0 <= i < |es| ==> Placed(image, es, i)) && n == |es| && cs == Cursors(image, n)
    ensures |cs| == n + 1 && Entries(image, n) == es
  {
    Walk(image, es, n, cs);
    forall i | 0 <= i < n ensures Entries(image, n)[i] == es[i] {
      assert Placed(image, es, i);
      RecordAccepted(image, cs[i], es[i]);
    }
  }

  lemma HeaderRead(image: seq<byte>, count: nat)
    requires 8 <= |image| && image[..4] == Ascii("RFS1") && image[4..8] == Put32(count) && count < U32
    ensures Le32(image, 0) == MAGIC && Le32(image, 4) == count
  {
    Magic();
    assert image[0..4] == image[..4];
    Reads32(image, 0, 0x3153_4652);
    Reads32(image, 4, count);
  }

  /** Every image so laid out is accepted, and its entries are the records ... */
  lemma LaidOutAccepted(image: seq<byte>, es: seq<Entry>)
    requires LaidOut(image, es)
    ensures ImageOk(image) && Le32(image, 4) == |es| && Entries(image, |es|) == es
  {
    HeaderRead(image, |es|);
    EntriesAre(image, es, |es|, Cursors(image, |es|));
  }

  lemma {:induction false} Walked(image: seq<byte>, es: seq<Entry>, cs: seq<nat>, n: nat)
    requires n <= |es| && |cs| == |es| + 1 && cs[0] == 8
    requires forall k :: 0 <= k < |es| ==>
               EntryOk(image, cs[k]) && cs[k + 1] == Next(image, cs[k]) && es[k] == EntryAt(image, cs[k])
    ensures cs[n] == Start(es, n) && forall i :: 0 <= i < n ==> Placed(image, es, i)
  {
    if n > 0 {
      Walked(image, es, cs, n - 1);
      EntryIsRecord(image, cs[n - 1]);
    }
  }

  lemma AcceptedHeader(image: seq<byte>)
    requires ImageOk(image)
    ensures image[..4] == Ascii("RFS1") && image[4..8] == Put32(Le32(image, 4))
  {
    Written32(image, 0);
    Written32(image, 4);
    assert image[0..4] == image[..4];
    Magic();
  }

  /** ... and every image that is accepted is so laid out. */
  lemma AcceptedLaidOut(image: seq<byte>)
    requires ImageOk(image)
    ensures LaidOut(image, Entries(image, Le32(image, 4)))
  {
    var n := Le32(image, 4);
    AcceptedHeader(image);
    Walked(image, Entries(image, n), Cursors(image, n), n);
  }

  /** `mantle_rootfs_mount` accepts exactly the images so laid out, and then has exactly their records. */
  method Mount(fs: FileSystem, image: seq<byte>) returns (ok: bool)
    requires |image| < U32
    modifies fs
    ensures fs.Valid() && (ok <==> exists es :: LaidOut(image, es))
    ensures ok ==> LaidOut(image, fs.Mounted())
  {
    ok := fs.Mount(image);
    if ok {
      AcceptedLaidOut(image);
    }
    forall es | LaidOut(image, es) ensures ImageOk(image) {
      LaidOutAccepted(image, es);
    }
  }
}
