/** The disk as the file system sees it: numbered sectors of bytes, read and written whole
    (code/machine/disk.h, code/filesys/synchdisk.cc), and how C values are laid out in them. */
module Disks {

  const SectorSize := 128
  const SectorsPerTrack := 32
  const NumTracks := 32
  const NumSectors := SectorsPerTrack * NumTracks

  type Byte = b: int | 0 <= b < 256
  type Sector = s: seq<Byte> | |s| == SectorSize witness seq(SectorSize, _ => 0)
  const ZeroSector: Sector := seq(SectorSize, _ => 0)
  type Image = d: seq<Sector> | |d| == NumSectors witness seq<Sector>(NumSectors, _ => ZeroSector)

  /** SynchDisk: a call returns when the transfer is done (module SynchDisks), so to one caller the
      disk is an array of sectors. */
  class SynchDisk {
    var sectors: Image

    method ReadSector(n: int) returns (data: Sector)
      requires 0 <= n < NumSectors
      ensures data == sectors[n]
    {
      data := sectors[n];
    }

    method WriteSector(n: int, data: Sector)
      requires 0 <= n < NumSectors
      modifies this
      ensures sectors == old(sectors)[n := data]
    {
      sectors := sectors[n := data];
    }
  }

  // ---------- 32-bit integers, little endian, two's complement ----------

  type Int32 = x: int | -0x8000_0000 <= x < 0x8000_0000

  function ByteAt(x: Int32, j: nat): Byte
    requires j < 4
  {
    var u := if x < 0 then x + 0x1_0000_0000 else x;
    if j == 0 then u % 0x100
    else if j == 1 then u / 0x100 % 0x100
    else if j == 2 then u / 0x1_0000 % 0x100
    else u / 0x100_0000
  }

  function IntOf(b0: Byte, b1: Byte, b2: Byte, b3: Byte): Int32 {
    var u := b0 + 0x100 * b1 + 0x1_0000 * b2 + 0x100_0000 * b3;
    if u >= 0x8000_0000 then u - 0x1_0000_0000 else u
  }

  lemma IntRoundTrip(x: Int32)
    ensures IntOf(ByteAt(x, 0), ByteAt(x, 1), ByteAt(x, 2), ByteAt(x, 3)) == x
  {
    var u := if x < 0 then x + 0x1_0000_0000 else x;
    assert u / 0x1_0000 == u / 0x100 / 0x100 && u / 0x100_0000 == u / 0x100 / 0x100 / 0x100;
  }

  /** The four bytes from o on are the number, least significant byte first, modulo 2 to the 32. */
  predicate IntAt(bytes: seq<Byte>, o: nat, x: int)
    requires o + 4 <= |bytes|
  {
    var b0: int, b1: int, b2: int, b3: int := bytes[o], bytes[o + 1], bytes[o + 2], bytes[o + 3];
    x % 0x1_0000_0000 == b0 + 0x100 * b1 + 0x1_0000 * b2 + 0x100_0000 * b3
  }

  /** Integer i of an array is in bytes 4 i to 4 i + 3. */
  lemma DecodedLayout(bytes: seq<Byte>, n: nat, i: nat)
    requires 4 * n <= |bytes| && i < n
    ensures IntAt(bytes, 4 * i, DecodeInts(bytes, n)[i])
  {
  }

  lemma EncodedLayout(xs: seq<Int32>, i: nat)
    requires i < |xs|
    ensures IntAt(EncodeInts(xs), 4 * i, xs[i])
  {
    IntsRoundTrip(xs);
    DecodedLayout(EncodeInts(xs), |xs|, i);
  }

  function EncodeInts(xs: seq<Int32>): (bytes: seq<Byte>)
    ensures |bytes| == 4 * |xs|
  {
    seq(4 * |xs|, k requires 0 <= k < 4 * |xs| => ByteAt(xs[k / 4], k % 4))
  }

  function DecodeInts(bytes: seq<Byte>, n: nat): (xs: seq<Int32>)
    requires 4 * n <= |bytes|
    ensures |xs| == n
  {
    seq(n, i requires 0 <= i < n => IntOf(bytes[4 * i], bytes[4 * i + 1], bytes[4 * i + 2], bytes[4 * i + 3]))
  }

  lemma EncodedAt(xs: seq<Int32>, i: nat, j: nat)
    requires i < |xs| && j < 4
    ensures EncodeInts(xs)[4 * i + j] == ByteAt(xs[i], j)
  {
  }

  lemma SameInt(b0: Byte, b1: Byte, b2: Byte, b3: Byte, x: Int32)
    requires b0 == ByteAt(x, 0) && b1 == ByteAt(x, 1) && b2 == ByteAt(x, 2) && b3 == ByteAt(x, 3)
    ensures IntOf(b0, b1, b2, b3) == x
  {
    IntRoundTrip(x);
  }

  lemma DecodedAt(bytes: seq<Byte>, n: nat, i: nat, x: Int32)
    requires 4 * n <= |bytes| && i < n
    requires forall j :: 0 <= j < 4 ==> bytes[4 * i + j] == ByteAt(x, j)
    ensures DecodeInts(bytes, n)[i] == x
  {
    assert bytes[4 * i + 0] == ByteAt(x, 0) && bytes[4 * i + 1] == ByteAt(x, 1);
    assert bytes[4 * i + 2] == ByteAt(x, 2) && bytes[4 * i + 3] == ByteAt(x, 3);
    SameInt(bytes[4 * i], bytes[4 * i + 1], bytes[4 * i + 2], bytes[4 * i + 3], x);
  }

  /** An array of ints written to disk and read back is the same array. */
  lemma IntsRoundTrip(xs: seq<Int32>)
    ensures DecodeInts(EncodeInts(xs), |xs|) == xs
  {
    forall i | 0 <= i < |xs| ensures DecodeInts(EncodeInts(xs), |xs|)[i] == xs[i] {
      forall j | 0 <= j < 4 ensures EncodeInts(xs)[4 * i + j] == ByteAt(xs[i], j) {
        EncodedAt(xs, i, j);
      }
      DecodedAt(EncodeInts(xs), |xs|, i, xs[i]);
    }
  }
}
