/** File headers (code/filesys/filehdr.cc): where on disk a file's data is. */
module FileHeaders {
  import opened Base
  import opened Disks
  import opened Bitmaps

  /** A header fills one sector: two counts and a table of sector numbers. */
  const NumDirect := 30
  const MaxFileSize := NumDirect * SectorSize

  datatype RawHeader = RawHeader(numBytes: Int32, numSectors: Int32, dataSectors: seq<Int32>)

  type Header = h: RawHeader | |h.dataSectors| == NumDirect
    witness RawHeader(0, 0, seq(NumDirect, _ => 0))

  /** divRoundUp(n, SectorSize), with C's division, which truncates towards zero. */
  function SectorsFor(n: int): int {
    if n >= 0 then n / SectorSize + (if n % SectorSize > 0 then 1 else 0) else -(-n / SectorSize)
  }

  /** The sectors that hold the file's data; the rest of the table is not in use. */
  function DataSectors(h: Header): (data: seq<Int32>)
    requires h.numSectors <= NumDirect
  {
    h.dataSectors[..if h.numSectors < 0 then 0 else h.numSectors]
  }

  ghost predicate IsSector(n: int) {
    0 <= n < NumSectors
  }

  ghost predicate HeaderOk(h: Header) {
    && h.numBytes <= MaxFileSize
    && h.numSectors == SectorsFor(h.numBytes)
    && Distinct(DataSectors(h))
    && forall n :: n in DataSectors(h) ==> IsSector(n)
  }

  // ---------- The header's image in a sector ----------

  function EncodeHeader(h: Header): Sector {
    EncodeInts([h.numBytes, h.numSectors] + h.dataSectors)
  }

  function DecodeHeader(s: Sector): Header {
    var xs := DecodeInts(s, NumDirect + 2);
    RawHeader(xs[0], xs[1], xs[2..])
  }

  /** A header written back and fetched again is the same header. */
  lemma HeaderRoundTrip(h: Header)
    ensures DecodeHeader(EncodeHeader(h)) == h
  {
    IntsRoundTrip([h.numBytes, h.numSectors] + h.dataSectors);
  }

  /** Where the fields are in the sector: number of bytes, number of sectors, then the table, four bytes each. */
  lemma HeaderLayout(s: Sector)
    ensures var h := DecodeHeader(s);
      IntAt(s, 0, h.numBytes) && IntAt(s, 4, h.numSectors) && forall k :: 0 <= k < 30 ==> IntAt(s, 8 + 4 * k, h.dataSectors[k])
  {
    DecodedLayout(s, NumDirect + 2, 0);
    DecodedLayout(s, NumDirect + 2, 1);
    forall k | 0 <= k < 30 ensures IntAt(s, 8 + 4 * k, DecodeHeader(s).dataSectors[k]) {
      DecodedLayout(s, NumDirect + 2, k + 2);
      assert 4 * (k + 2) == 8 + 4 * k;
    }
  }

  /** The sectors of a file hold its bytes, and one less would not. A file of negative size has no sector. */
  lemma SectorsCover(n: int)
    ensures n >= 0 ==> SectorsFor(n) * 128 - 128 < n <= SectorsFor(n) * 128
    ensures n < 0 ==> SectorsFor(n) <= 0
  {
  }

  // ---------- The source's object ----------

  class FileHeader {
    var h: Header

    /** A new header's fields are whatever was in memory. */
    constructor () {
    }

    method FetchFrom(disk: SynchDisk, sector: int)
      requires IsSector(sector)
      modifies this
      ensures h == DecodeHeader(disk.sectors[sector])
    {
      var data := disk.ReadSector(sector);
      h := DecodeHeader(data);
    }

    method WriteBack(disk: SynchDisk, sector: int)
      requires IsSector(sector)
      modifies disk
      ensures disk.sectors == old(disk.sectors)[sector := EncodeHeader(h)]
    {
      disk.WriteSector(sector, EncodeHeader(h));
    }

    /** Take the sectors for a file of the given size out of the free map. This fails, leaving the map
        alone, exactly when too few are clear; otherwise every FindAndSet succeeds and the map gains
        exactly the file's sectors, all of which were clear. The table has no room for a file over
        MaxFileSize, and Allocate does not check that. */
    method Allocate(freeMap: Bitmap, fileSize: Int32) returns (ok: bool)
      requires fileSize <= MaxFileSize && freeMap.Valid() && freeMap.numBits == NumSectors
      modifies this, freeMap.words
      ensures ok <==> CountClear(old(freeMap.Bits())) >= SectorsFor(fileSize)
      ensures !ok ==> freeMap.Bits() == old(freeMap.Bits())
      ensures ok ==> HeaderOk(h) && h.numBytes == fileSize
      ensures ok ==> CountClear(freeMap.Bits()) == CountClear(old(freeMap.Bits())) - |DataSectors(h)|
      ensures ok ==> forall n :: n in DataSectors(h) ==> !old(freeMap.Bits())[n]
      ensures ok ==> forall n :: 0 <= n < NumSectors ==>
                       freeMap.Bits()[n] == (old(freeMap.Bits())[n] || n in DataSectors(h))
    {
      ghost var was := freeMap.Bits();
      var numSectors := SectorsFor(fileSize);
      h := h.(numBytes := fileSize, numSectors := numSectors);
      var clear := freeMap.NumClear();
      if clear < numSectors {
        return false;
      }
      var i := 0;
      while i < numSectors
        invariant 0 <= i && (i <= numSectors || i == 0)
        invariant h.numBytes == fileSize && h.numSectors == numSectors
        invariant CountClear(freeMap.Bits()) == clear - i
        invariant Distinct(h.dataSectors[..i])
        invariant forall n :: n in h.dataSectors[..i] ==> IsSector(n) && !was[n]
        invariant forall n :: 0 <= n < NumSectors ==> freeMap.Bits()[n] == (was[n] || n in h.dataSectors[..i])
      {
        ghost var before := h.dataSectors[..i];
        var sector := freeMap.FindAndSet();
        assert sector >= 0;
        h := h.(dataSectors := h.dataSectors[i := sector]);
        i := i + 1;
        assert h.dataSectors[..i] == before + [sector];
        DistinctPushBack(before, sector);
      }
      return true;
    }

    /** Give the file's sectors back; each ought to be marked. */
    method Deallocate(freeMap: Bitmap)
      requires HeaderOk(h) && freeMap.Valid() && freeMap.numBits == NumSectors
      requires forall n :: n in DataSectors(h) ==> freeMap.Bits()[n]
      modifies freeMap.words
      ensures forall n :: 0 <= n < NumSectors ==>
                freeMap.Bits()[n] == (old(freeMap.Bits())[n] && n !in DataSectors(h))
    {
      ghost var was, data := freeMap.Bits(), DataSectors(h);
      var i := 0;
      while i < h.numSectors
        invariant 0 <= i <= |data|
        invariant forall n :: 0 <= n < NumSectors ==> freeMap.Bits()[n] == (was[n] && n !in data[..i])
      {
        assert data[i] == h.dataSectors[i] && data[i] in data && data[i] !in data[..i];
        var marked := freeMap.Test(h.dataSectors[i]);
        assert marked;
        freeMap.Clear(h.dataSectors[i]);
        assert data[..i + 1] == data[..i] + [data[i]];
        i := i + 1;
      }
      assert data[..i] == data;
    }
  }
}
