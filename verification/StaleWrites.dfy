/** What a write through an open file can do to a disk when the file's sectors are no longer its own
    (code/filesys/openfile.cc:144-183): exactly when replacing a sector is harmless. */
module StaleWrites {
  import opened Base
  import opened Disks
  import opened Bitmaps
  import opened FileHeaders
  import opened OpenFiles
  import opened Directories
  import opened DiskImages

  /** The disk is in order and holds the same files. */
  ghost predicate SameDisk(d: Image, d': Image)
    requires FsInv(d)
  {
    FsInv(d') && forall k :: FileIn(d', k) == FileIn(d, k)
  }

  ghost predicate KeptBy(d: Image, s: int, data: Sector)
    requires FsInv(d) && IsSector(s)
  {
    SameDisk(d, d[s := data])
  }

  /** So it is whatever is written to the sector. */
  ghost predicate Harmless(d: Image, s: int)
    requires FsInv(d) && IsSector(s)
  {
    forall data: Sector :: KeptBy(d, s, data)
  }

  // ---------- Sectors that are clear in the map ----------

  /** The system's files do not notice changes in other sectors. */
  lemma {:induction false} MetaSame(d: Image, d': Image)
    requires MetaOk(d) && forall s :: s in MetaSectors(MapHdr(d), DirHdr(d)) ==> IsSector(s) && d'[s] == d[s]
    ensures MetaOk(d') && MapHdr(d') == MapHdr(d) && DirHdr(d') == DirHdr(d) && TableIn(d') == TableIn(d) && BitsIn(d') == BitsIn(d)
  {
    var meta := MetaSectors(MapHdr(d), DirHdr(d));
    assert meta[0] == 0 && meta[1] == 1;
    ContentsFrame(d, d', MapHdr(d));
    ContentsFrame(d, d', DirHdr(d));
  }

  lemma {:induction false} OutsideMeta(d: Image, s: int, data: Sector)
    requires FsInv(d) && IsSector(s) && s !in MetaSectors(MapHdr(d), DirHdr(d))
    ensures var d' := d[s := data];
      MetaOk(d') && MapHdr(d') == MapHdr(d) && DirHdr(d') == DirHdr(d) && TableIn(d') == TableIn(d) && BitsIn(d') == BitsIn(d)
  {
    MetaSame(d, d[s := data]);
  }

  lemma {:induction false} SameEntries(d: Image, d': Image)
    requires FsInv(d) && FsInv(d') && TableIn(d') == TableIn(d)
    requires forall i :: 0 <= i < NumDirEntries && TableIn(d)[i].inUse ==> SectorsSame(d, d', TableIn(d)[i])
    ensures forall k :: FileIn(d', k) == FileIn(d, k)
  {
    forall k ensures FileIn(d', k) == FileIn(d, k) {
      var i := IndexOf(TableIn(d), k);
      if i >= 0 {
        EntryHasSector(d, i);
        SameContents(d, d', TableIn(d)[i]);
      }
    }
  }

  /** The files in the directory keep sectors that are marked. */
  lemma {:induction false} MarkedAreKept(d: Image, d': Image, sectors: seq<int>)
    requires FsInv(d) && AgreeOutside(d, d', sectors) && forall s :: s in sectors ==> IsSector(s) && !BitsIn(d)[s]
    ensures forall s :: s in MetaSectors(MapHdr(d), DirHdr(d)) ==> IsSector(s) && d'[s] == d[s]
    ensures forall i :: 0 <= i < NumDirEntries && TableIn(d)[i].inUse ==> SectorsSame(d, d', TableIn(d)[i])
  {
    var table, hdrs := TableIn(d), HdrsFor(d, TableIn(d));
    forall i, s | 0 <= i < NumDirEntries && table[i].inUse && IsSector(s) && Owns(table[i], hdrs[i], s) ensures d'[s] == d[s] {
      assert InUse(table, hdrs, s);
    }
  }

  lemma {:induction false} HeadersSame(d: Image, d': Image)
    requires FsInv(d) && forall i :: 0 <= i < NumDirEntries && TableIn(d)[i].inUse ==> SectorsSame(d, d', TableIn(d)[i])
    ensures forall i :: 0 <= i < NumDirEntries && TableIn(d)[i].inUse ==> HdrsFor(d', TableIn(d))[i] == HdrsFor(d, TableIn(d))[i]
  {
    forall i | 0 <= i < NumDirEntries && TableIn(d)[i].inUse ensures HdrsFor(d', TableIn(d))[i] == HdrsFor(d, TableIn(d))[i] {
      EntryHasSector(d, i);
      SameContents(d, d', TableIn(d)[i]);
    }
  }

  /** Writing any number of clear sectors is harmless. */
  lemma {:induction false} ClearIsHarmless(d: Image, d': Image, sectors: seq<int>)
    requires FsInv(d) && AgreeOutside(d, d', sectors) && forall s :: s in sectors ==> IsSector(s) && !BitsIn(d)[s]
    ensures SameDisk(d, d') && MapHdr(d') == MapHdr(d) && DirHdr(d') == DirHdr(d)
  {
    MarkedAreKept(d, d', sectors);
    MetaSame(d, d');
    HeadersSame(d, d');
    OwnershipIgnoresFree(MetaSectors(MapHdr(d), DirHdr(d)), BitsIn(d), TableIn(d), HdrsFor(d, TableIn(d)), HdrsFor(d', TableIn(d)));
    SameEntries(d, d');
  }

  // ---------- Sectors that are set in the map ----------

  function Filled(b: Byte): Sector {
    seq<Byte>(SectorSize, _ => b)
  }

  lemma {:induction false} FilledHeaders()
    ensures DecodeHeader(Filled(0)).numBytes == 0 && !HeaderOk(DecodeHeader(Filled(255)))
  {
    var xs, ys := DecodeInts(Filled(0), NumDirect + 2), DecodeInts(Filled(255), NumDirect + 2);
    assert xs[0] == IntOf(0, 0, 0, 0) && ys[0] == IntOf(255, 255, 255, 255) == ys[1];
    assert DecodeHeader(Filled(255)).numSectors == -1 && SectorsFor(-1) == 0;
  }

  /** What a disk in order would have. */
  lemma {:induction false} FirstIsMarked(d: Image)
    ensures FsInv(d) ==> BitsIn(d)[0]
  {
    if FsInv(d) {
      assert MetaSectors(MapHdr(d), DirHdr(d))[0] == 0;
    }
  }

  lemma {:induction false} EntriesAreOk(d: Image, i: nat)
    requires i < NumDirEntries
    ensures FsInv(d) && TableIn(d)[i].inUse ==> EntryOk(TableIn(d)[i], HdrAt(d, TableIn(d)[i].sector))
  {
    if FsInv(d) && TableIn(d)[i].inUse {
      EntryHasSector(d, i);
    }
  }

  lemma {:induction false} FoundHere(d: Image, key: Name, i: nat, h: Header)
    requires MetaOk(d) && i < NumDirEntries && Holds(TableIn(d)[i], key) && HdrAt(d, TableIn(d)[i].sector) == h && HeaderOk(h)
    ensures FsInv(d) ==> FileIn(d, key) == Some(Contents(d, h))
  {
    if FsInv(d) {
      FoundIs(d, key, i);
    }
  }

  /** The header of the map or of the directory. */
  lemma {:induction false} MetaHeaderIsHarmed(d: Image, s: int)
    requires FsInv(d) && (s == FreeMapSector || s == DirectorySector)
    ensures !SameDisk(d, d[s := Filled(0)])
  {
    FilledHeaders();
  }

  /** The map: sector 0 would no longer be marked. */
  lemma {:induction false} MapIsHarmed(d: Image, s: int)
    requires FsInv(d) && s in DataSectors(MapHdr(d)) && s != FreeMapSector && s != DirectorySector && IsSector(s)
    ensures !SameDisk(d, d[s := Filled(0)])
  {
    var d' := d[s := Filled(0)];
    var h := MapHdr(d);
    assert MapHdr(d') == h && DataSectors(h) == [s];
    var bytes := Contents(d', h);
    forall k | 0 <= k < 4 ensures bytes[k] == 0 {
      assert bytes[k] == FileByte(d', h, k);
    }
    FirstBitClear(bytes);
    FirstIsMarked(d');
  }

  lemma {:induction false} FirstBitClear(bytes: seq<Byte>)
    requires |bytes| == NumSectors / 8 && forall k :: 0 <= k < 4 ==> bytes[k] == 0
    ensures !MapBits(bytes)[0]
  {
    var words := DecodeWords(bytes, NumSectors / 32);
    assert DecodeInts(bytes, NumSectors / 32)[0] == IntOf(bytes[4 * 0], bytes[4 * 0 + 1], bytes[4 * 0 + 2], bytes[4 * 0 + 3]);
    assert words[0] == 0 && BitOf(0, 0) == false;
    assert MapBits(bytes)[0] == BitOf(words[0 / 32], 0 % 32);
  }

  lemma {:induction false} DecodedEntry(bytes: seq<Byte>, n: nat, j: nat)
    requires |bytes| == EntrySize * n && j < n
    ensures EntrySize * j + EntrySize <= |bytes|
    ensures DecodeTable(bytes, n)[j] == DecodeEntry(bytes[EntrySize * j..EntrySize * j + EntrySize])
  {
    if j > 0 {
      DecodedEntry(bytes[EntrySize..], n - 1, j - 1);
      assert bytes[EntrySize..][EntrySize * (j - 1)..EntrySize * (j - 1) + EntrySize] == bytes[EntrySize * j..EntrySize * j + EntrySize];
    }
  }

  /** Entry j of a directory whose bytes are all 255. */
  lemma {:induction false} EntryOfOnes(bytes: seq<Byte>, j: nat)
    requires |bytes| == DirectoryFileSize && j < NumDirEntries
    requires forall k :: EntrySize * j <= k < EntrySize * j + EntrySize ==> bytes[k] == 255
    ensures DecodeTable(bytes, NumDirEntries)[j].inUse && DecodeTable(bytes, NumDirEntries)[j].sector == -1
  {
    DecodedEntry(bytes, NumDirEntries, j);
    var b := bytes[EntrySize * j..EntrySize * j + EntrySize];
    assert b[0] == 255 && b[4] == 255 && b[5] == 255 && b[6] == 255 && b[7] == 255;
    assert IntOf(255, 255, 255, 255) == -1;
  }

  /** Some entry lies within sector i of the directory. */
  lemma {:induction false} OnesInSector(d: Image, h: Header, i: nat) returns (j: nat)
    requires HeaderOk(h) && h.numBytes == DirectoryFileSize && i < 2 && IsSector(h.dataSectors[i]) && d[h.dataSectors[i]] == Filled(255)
    ensures j < NumDirEntries && forall k :: EntrySize * j <= k < EntrySize * j + EntrySize ==> Contents(d, h)[k] == 255
  {
    j := if i == 0 then 0 else 7;
    forall k | EntrySize * j <= k < EntrySize * j + EntrySize ensures Contents(d, h)[k] == 255 {
      assert k / SectorSize == i && Contents(d, h)[k] == FileByte(d, h, k);
    }
  }

  /** The directory: an entry in use would have no header. */
  lemma {:induction false} DirectoryIsHarmed(d: Image, s: int)
    requires FsInv(d) && s in DataSectors(DirHdr(d)) && s != FreeMapSector && s != DirectorySector && IsSector(s)
    requires s !in DataSectors(MapHdr(d))
    ensures !SameDisk(d, d[s := Filled(255)])
  {
    var d', h := d[s := Filled(255)], DirHdr(d);
    assert MapHdr(d') == MapHdr(d) && DirHdr(d') == h && |DataSectors(h)| == 2;
    var i :| 0 <= i < 2 && DataSectors(h)[i] == s;
    var j := OnesInSector(d', h, i);
    EntryOfOnes(Contents(d', h), j);
    EntriesAreOk(d', j);
  }

  /** The header of a file. */
  lemma {:induction false} FileHeaderIsHarmed(d: Image, s: int, i: nat)
    requires FsInv(d) && IsSector(s) && s !in MetaSectors(MapHdr(d), DirHdr(d))
    requires i < NumDirEntries && TableIn(d)[i].inUse && TableIn(d)[i].sector == s
    ensures !SameDisk(d, d[s := Filled(255)])
  {
    var d' := d[s := Filled(255)];
    OutsideMeta(d, s, Filled(255));
    FilledHeaders();
    EntriesAreOk(d', i);
  }

  /** The data of a file: its first byte in the sector would be another. */
  lemma {:induction false} FileDataIsHarmed(d: Image, s: int, i: nat) returns (data: Sector)
    requires FsInv(d) && IsSector(s) && s !in MetaSectors(MapHdr(d), DirHdr(d)) && i < NumDirEntries && TableIn(d)[i].inUse
    requires HeaderOk(HdrAt(d, TableIn(d)[i].sector)) && s in DataSectors(HdrAt(d, TableIn(d)[i].sector)) && s != TableIn(d)[i].sector
    ensures !SameDisk(d, d[s := data])
  {
    data := OtherSector(d[s]);
    OutsideMeta(d, s, data);
    HarmedBy(d, d[s := data], s, i, HdrAt(d, TableIn(d)[i].sector));
  }

  lemma {:induction false} OtherSector(sector: Sector) returns (data: Sector)
    ensures data[0] != sector[0]
  {
    data := Filled(if sector[0] == 0 then 1 else 0);
  }

  lemma {:induction false} HarmedBy(d: Image, d': Image, s: int, i: nat, h: Header)
    requires FsInv(d) && MetaOk(d') && TableIn(d') == TableIn(d) && i < NumDirEntries && TableIn(d)[i].inUse && HeaderOk(h)
    requires HdrAt(d, TableIn(d)[i].sector) == h && HdrAt(d', TableIn(d)[i].sector) == h
    requires IsSector(s) && s in DataSectors(h) && d'[s][0] != d[s][0]
    ensures !SameDisk(d, d')
  {
    DataDiffers(d, d', h, s);
    FileDiffers(d, d', i, h, StoredFrom(TableIn(d)[i].name, 0));
  }

  lemma {:induction false} FileDiffers(d: Image, d': Image, i: nat, h: Header, key: Name)
    requires FsInv(d) && MetaOk(d') && TableIn(d') == TableIn(d) && i < NumDirEntries && Holds(TableIn(d)[i], key) && HeaderOk(h)
    requires HdrAt(d, TableIn(d)[i].sector) == h && HdrAt(d', TableIn(d)[i].sector) == h && Contents(d', h) != Contents(d, h)
    ensures !SameDisk(d, d')
  {
    FoundHere(d, key, i, h);
    FoundHere(d', key, i, h);
  }

  lemma {:induction false} DataDiffers(d: Image, d': Image, h: Header, s: int)
    requires HeaderOk(h) && IsSector(s) && s in DataSectors(h) && d'[s][0] != d[s][0]
    ensures Contents(d', h) != Contents(d, h)
  {
    var n :| 0 <= n < |DataSectors(h)| && DataSectors(h)[n] == s;
    var k := n * SectorSize;
    assert k < Length(h) && k / SectorSize == n && k % SectorSize == 0;
    assert Contents(d, h)[k] == FileByte(d, h, k) && Contents(d', h)[k] == FileByte(d', h, k);
  }

  /** A sector is free for all to write exactly if its bit is clear: otherwise some write to it breaks the disk's
      order or changes a file. So a handle whose file was removed does no harm until its sectors are taken again,
      and can do harm from then on. */
  lemma {:induction false} HarmlessIff(d: Image, s: int)
    requires FsInv(d) && IsSector(s)
    ensures Harmless(d, s) <==> !BitsIn(d)[s]
  {
    if !BitsIn(d)[s] {
      forall data: Sector ensures KeptBy(d, s, data) {
        ClearIsHarmless(d, d[s := data], [s]);
      }
    } else {
      var data := MarkedIsHarmed(d, s);
      assert !KeptBy(d, s, data);
    }
  }

  lemma {:induction false} MarkedIsHarmed(d: Image, s: int) returns (data: Sector)
    requires FsInv(d) && IsSector(s) && BitsIn(d)[s]
    ensures !SameDisk(d, d[s := data])
  {
    data := Filled(0);
    if s in MetaSectors(MapHdr(d), DirHdr(d)) {
      if s == FreeMapSector || s == DirectorySector {
        MetaHeaderIsHarmed(d, s);
      } else if s in DataSectors(MapHdr(d)) {
        MapIsHarmed(d, s);
      } else {
        data := Filled(255);
        DirectoryIsHarmed(d, s);
      }
    } else {
      var table, hdrs := TableIn(d), HdrsFor(d, TableIn(d));
      assert InUse(table, hdrs, s);
      var i :| 0 <= i < |table| && table[i].inUse && Owns(table[i], hdrs[i], s);
      EntryHasSector(d, i);
      if s == table[i].sector {
        data := Filled(255);
        FileHeaderIsHarmed(d, s, i);
      } else {
        data := FileDataIsHarmed(d, s, i);
      }
    }
  }

  /** Right after a file was removed, its sectors are harmless. */
  lemma {:induction false} RemovedIsHarmless(d: Image, d': Image, slot: nat, key: Name, bits: seq<bool>, s: int)
    requires Removed(d, d', slot, key, bits) && IsSector(s) && Owns(TableIn(d)[slot], HdrAt(d, TableIn(d)[slot].sector), s)
    ensures FsInv(d') && Harmless(d', s)
  {
    RemovedInv(d, d', slot, key, bits);
    HarmlessIff(d', s);
  }

  /** Once a new file has taken a sector, it is not. */
  lemma {:induction false} CreatedIsHarmed(d: Image, d': Image, slot: nat, h: Header, e: Entry, key: Name, bits: seq<bool>, s: int)
    requires Created(d, d', slot, h, e, key, bits) && IsSector(s) && Owns(e, h, s)
    ensures FsInv(d') && !Harmless(d', s)
  {
    CreatedImage(d, d', slot, h, e, key, bits);
    CreatedInv(d, d', slot, h, e, key, bits);
    HarmlessIff(d', s);
  }
}
