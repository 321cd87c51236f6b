/** Bytes and the little-endian integers that every binary format of the
    system (ELF64, RFS1, FAT16, Multiboot2) stores. */
module Bytes {
  type byte = x: int | 0 <= x < 256

  const U16: int := 0x1_0000
  const U32: int := 0x1_0000_0000
  const U64: int := 0x1_0000_0000_0000_0000

  /** `length` bytes at `offset` lie inside `size` bytes, in the overflow-free form the kernel uses. */
  predicate InRange(offset: nat, length: nat, size: nat) {
    offset <= size && length <= size - offset
  }

  function Le16(s: seq<byte>, at: nat): nat
    requires at + 2 <= |s|
  {
    s[at] as int + 256 * (s[at + 1] as int)
  }

  function Le32(s: seq<byte>, at: nat): nat
    requires at + 4 <= |s|
  {
    Le16(s, at) + 0x1_0000 * Le16(s, at + 2)
  }

  function Le64(s: seq<byte>, at: nat): nat
    requires at + 8 <= |s|
  {
    Le32(s, at) + 0x1_0000_0000 * Le32(s, at + 4)
  }

  /** The low 16 bits of `v`, packed. */
  function Put16(v: nat): (r: seq<byte>)
    ensures |r| == 2
  {
    [v % 256, v / 256 % 256]
  }

  function Put32(v: nat): (r: seq<byte>)
    ensures |r| == 4
  {
    Put16(v) + Put16(v / 0x1_0000)
  }

  function Put64(v: nat): (r: seq<byte>)
    ensures |r| == 8
  {
    Put32(v % U32) + Put32(v / U32)
  }

  /** Reading back a packed integer. */
  lemma PutReads(v: nat)
    ensures v < U16 ==> Le16(Put16(v), 0) == v
    ensures v < U32 ==> Le32(Put32(v), 0) == v
  {
    if v < U32 {
      var r := Put32(v);
      assert r[0] == v % 256 && r[1] == v / 256 % 256;
      assert r[2] == v / 0x1_0000 % 256 && r[3] == v / 0x1_0000 / 256 % 256;
    }
  }

  /** A field is read where its packed bytes stand. */
  lemma Reads16(s: seq<byte>, at: nat, v: nat)
    requires v < U16 && at + 2 <= |s| && s[at..at + 2] == Put16(v)
    ensures Le16(s, at) == v
  {
    PutReads(v);
    assert s[at] == s[at..at + 2][0] && s[at + 1] == s[at..at + 2][1];
  }

  lemma Reads32(s: seq<byte>, at: nat, v: nat)
    requires v < U32 && at + 4 <= |s| && s[at..at + 4] == Put32(v)
    ensures Le32(s, at) == v
  {
    var r := s[at..at + 4];
    PutReads(v);
    assert s[at] == r[0] && s[at + 1] == r[1] && s[at + 2] == r[2] && s[at + 3] == r[3];
  }

  lemma Reads64(s: seq<byte>, at: nat, v: nat)
    requires v < U64 && at + 8 <= |s| && s[at..at + 8] == Put64(v)
    ensures Le64(s, at) == v
  {
    var low, high := v % U32, v / U32;
    assert s[at..at + 4] == s[at..at + 8][..4] == Put32(low);
    assert s[at + 4..at + 8] == s[at..at + 8][4..] == Put32(high);
    Reads32(s, at, low);
    Reads32(s, at + 4, high);
  }

  /** The four bytes of a 32-bit word. */
  lemma WordBytes(v: nat)
    requires v < U32
    ensures v % 256 + 256 * (v / 256 % 256) + 0x1_0000 * (v / 0x1_0000 % 256 + 256 * (v / 0x100_0000 % 256)) == v
  {
    assert v / 0x1_0000 == v / 0x1_0000 % 256 + 256 * (v / 0x100_0000);
    assert v / 0x100_0000 % 256 == v / 0x100_0000;
  }

  predicate IsAscii(text: string) {
    forall i :: 0 <= i < |text| ==> text[i] as int < 128
  }

  function AsciiAt(text: string, i: int): byte
    requires IsAscii(text) && 0 <= i < |text|
  {
    text[i] as int
  }

  /** The bytes of a text. */
  function Ascii(text: string): (r: seq<byte>)
    requires IsAscii(text)
    ensures |r| == |text| && forall i :: 0 <= i < |text| ==> r[i] == text[i] as int
  {
    seq(|text|, i requires 0 <= i < |text| => AsciiAt(text, i))
  }

  /** `n` zero bytes. */
  function Zeros(n: nat): (r: seq<byte>)
    ensures |r| == n && forall i :: 0 <= i < n ==> r[i] == 0
  {
    seq(n, _ => 0)
  }
}
