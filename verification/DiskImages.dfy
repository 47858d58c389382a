/** What is on a disk that holds a file system (code/filesys/filesys.cc:81-286): which sector belongs to
    what, and what each operation makes of the whole image. */
module DiskImages {
  import opened Base
  import opened Disks
  import opened Bitmaps
  import opened FileHeaders
  import opened OpenFiles
  import opened Directories

  const FreeMapSector := 0
  const DirectorySector := 1
  const FreeMapFileSize := NumSectors / 8
  const NumDirEntries := 10
  const DirectoryFileSize := EntrySize * NumDirEntries

  // ---------- Who owns which sector ----------

  /** The file with directory entry e and header h owns its header's sector and its data sectors. */
  ghost predicate Owns(e: Entry, h: Header, s: int) {
    s == e.sector || (h.numSectors <= NumDirect && s in DataSectors(h))
  }

  ghost predicate EntryOk(e: Entry, h: Header) {
    IsSector(e.sector) && HeaderOk(h) && e.sector !in DataSectors(h)
  }

  /** Some file in the directory owns the sector. */
  ghost predicate InUse(table: seq<Entry>, hdrs: seq<Header>, s: int)
    requires |hdrs| == |table|
  {
    exists i :: 0 <= i < |table| && table[i].inUse && Owns(table[i], hdrs[i], s)
  }

  /** The sectors of the system's own files (`meta`) and of the files in the directory are pairwise
      disjoint, and the bits set in the free map are exactly these sectors. */
  ghost predicate Ownership(meta: seq<int>, bits: seq<bool>, table: seq<Entry>, hdrs: seq<Header>) {
    && |bits| == NumSectors && |hdrs| == |table|
    && Distinct(meta) && (forall s :: s in meta ==> IsSector(s))
    && UniqueNames(table)
    && (forall i :: 0 <= i < |table| && table[i].inUse ==> EntryOk(table[i], hdrs[i]))
    && (forall i, s :: 0 <= i < |table| && table[i].inUse && Owns(table[i], hdrs[i], s) ==> s !in meta)
    && (forall i, j, s :: 0 <= i < j < |table| && table[i].inUse && table[j].inUse && Owns(table[i], hdrs[i], s)
                          ==> !Owns(table[j], hdrs[j], s))
    && (forall s :: 0 <= s < NumSectors ==> (bits[s] <==> s in meta || InUse(table, hdrs, s)))
  }

  /** Taking clear sectors for a new file keeps the sectors disjoint and the map exact. */
  lemma OwnershipAfterCreate(meta: seq<int>, bits: seq<bool>, table: seq<Entry>, hdrs: seq<Header>,
                             bits': seq<bool>, table': seq<Entry>, hdrs': seq<Header>, slot: nat, key: Name)
    requires Ownership(meta, bits, table, hdrs)
    requires slot < |table| && !table[slot].inUse && |table'| == |hdrs'| == |table| && |bits'| == NumSectors
    requires table' == table[slot := table'[slot]] && Holds(table'[slot], key)
    requires forall i :: 0 <= i < |table| ==> !Holds(table[i], key)
    requires forall i :: 0 <= i < |table| && i != slot && table[i].inUse ==> hdrs'[i] == hdrs[i]
    requires EntryOk(table'[slot], hdrs'[slot])
    requires forall s :: Owns(table'[slot], hdrs'[slot], s) ==> IsSector(s) && !bits[s]
    requires forall s :: 0 <= s < NumSectors ==> bits'[s] == (bits[s] || Owns(table'[slot], hdrs'[slot], s))
    ensures Ownership(meta, bits', table', hdrs')
  {
  }

  /** Giving a file's sectors back keeps the others' disjoint and the map exact. */
  lemma OwnershipAfterRemove(meta: seq<int>, bits: seq<bool>, table: seq<Entry>, hdrs: seq<Header>,
                             bits': seq<bool>, table': seq<Entry>, hdrs': seq<Header>, slot: nat)
    requires Ownership(meta, bits, table, hdrs)
    requires slot < |table| && table[slot].inUse && |table'| == |hdrs'| == |table| && |bits'| == NumSectors
    requires table' == table[slot := table[slot].(inUse := false)]
    requires forall i :: 0 <= i < |table| && i != slot && table[i].inUse ==> hdrs'[i] == hdrs[i]
    requires forall s :: 0 <= s < NumSectors ==> bits'[s] == (bits[s] && !Owns(table[slot], hdrs[slot], s))
    ensures Ownership(meta, bits', table', hdrs')
  {
  }

  // ---------- The disk image ----------

  function MapHdr(d: Image): Header {
    DecodeHeader(d[FreeMapSector])
  }

  function DirHdr(d: Image): Header {
    DecodeHeader(d[DirectorySector])
  }

  /** The system's own two files have the right sizes. */
  ghost predicate MetaOk(d: Image) {
    && HeaderOk(MapHdr(d)) && MapHdr(d).numBytes == FreeMapFileSize
    && HeaderOk(DirHdr(d)) && DirHdr(d).numBytes == DirectoryFileSize
  }

  function MetaSectors(mapHdr: Header, dirHdr: Header): seq<int>
    requires HeaderOk(mapHdr) && HeaderOk(dirHdr)
  {
    [FreeMapSector, DirectorySector] + DataSectors(mapHdr) + DataSectors(dirHdr)
  }

  function BitsIn(d: Image): seq<bool>
    requires MetaOk(d)
  {
    MapBits(Contents(d, MapHdr(d)))
  }

  function TableIn(d: Image): (table: seq<Entry>)
    requires MetaOk(d)
    ensures |table| == NumDirEntries
  {
    DecodeTable(Contents(d, DirHdr(d)), NumDirEntries)
  }

  /** The header a directory entry refers to; free entries may refer anywhere. */
  function HdrAt(d: Image, sector: int): Header {
    if 0 <= sector < NumSectors then DecodeHeader(d[sector]) else RawHeader(0, 0, seq(NumDirect, _ => 0))
  }

  function HdrsFor(d: Image, table: seq<Entry>): (hdrs: seq<Header>)
    ensures |hdrs| == |table|
    ensures forall i :: 0 <= i < |table| ==> hdrs[i] == HdrAt(d, table[i].sector)
  {
    if table == [] then [] else [HdrAt(d, table[0].sector)] + HdrsFor(d, table[1..])
  }

  /** What every operation keeps of the disk. */
  ghost predicate FsInv(d: Image) {
    && MetaOk(d)
    && Ownership(MetaSectors(MapHdr(d), DirHdr(d)), BitsIn(d), TableIn(d), HdrsFor(d, TableIn(d)))
  }

  lemma MetaIsDisjoint(mapHdr: Header, dirHdr: Header)
    requires HeaderOk(mapHdr) && HeaderOk(dirHdr) && Distinct(MetaSectors(mapHdr, dirHdr))
    ensures forall s :: s in DataSectors(mapHdr) ==> s !in DataSectors(dirHdr) && s != 0 && s != 1
    ensures forall s :: s in DataSectors(dirHdr) ==> s !in DataSectors(mapHdr) && s != 0 && s != 1
  {
    var meta, n := MetaSectors(mapHdr, dirHdr), |DataSectors(mapHdr)|;
    assert forall i :: 0 <= i < n ==> meta[2 + i] == DataSectors(mapHdr)[i];
    assert forall i :: 0 <= i < |DataSectors(dirHdr)| ==> meta[2 + n + i] == DataSectors(dirHdr)[i];
    assert meta[0] == 0 && meta[1] == 1;
  }

  /** Two disk images agree except in the given sectors. */
  ghost predicate AgreeOutside(d: Image, d': Image, sectors: seq<int>) {
    forall s :: 0 <= s < NumSectors && s !in sectors ==> d'[s] == d[s]
  }

  /** Writing first one and then the other of the system's files, in either order, leaves the first
      as written and everything else alone. */
  lemma TwoWrites(d1: Image, d2: Image, d3: Image, hA: Header, hB: Header)
    requires HeaderOk(hA) && HeaderOk(hB) && forall s :: s in DataSectors(hA) ==> s !in DataSectors(hB)
    requires AgreeOutside(d1, d2, DataSectors(hA)) && AgreeOutside(d2, d3, DataSectors(hB))
    ensures Contents(d3, hA) == Contents(d2, hA)
    ensures forall s :: 0 <= s < NumSectors && s !in DataSectors(hA) && s !in DataSectors(hB) ==> d3[s] == d1[s]
  {
    ContentsFrame(d2, d3, hA);
  }

  /** The disk after an operation has left the system's headers alone and written the directory
      `table` and the map `bits` back. */
  lemma AfterFlush(d: Image, d': Image, table: seq<Entry>, bits: seq<bool>)
    requires MetaOk(d) && |table| == NumDirEntries
    requires d'[FreeMapSector] == d[FreeMapSector] && d'[DirectorySector] == d[DirectorySector]
    requires Contents(d', DirHdr(d)) == EncodeTable(table)
    requires MapBits(Contents(d', MapHdr(d))) == bits
    ensures MapHdr(d') == MapHdr(d) && DirHdr(d') == DirHdr(d) && MetaOk(d')
    ensures TableIn(d') == table && BitsIn(d') == bits
  {
    TableRoundTrip(table);
  }

  /** The images agree outside the data of the system's files, except perhaps in one sector. */
  ghost predicate SameBut(d: Image, d': Image, sector: int)
    requires MetaOk(d)
  {
    forall s :: 0 <= s < NumSectors && s !in DataSectors(MapHdr(d)) && s !in DataSectors(DirHdr(d)) && s != sector ==> d'[s] == d[s]
  }

  lemma HeadersKept(d: Image, d': Image, sector: int)
    requires MetaOk(d) && Distinct(MetaSectors(MapHdr(d), DirHdr(d))) && SameBut(d, d', sector)
    requires sector !in MetaSectors(MapHdr(d), DirHdr(d))
    ensures d'[FreeMapSector] == d[FreeMapSector] && d'[DirectorySector] == d[DirectorySector]
  {
    MetaIsDisjoint(MapHdr(d), DirHdr(d));
    var meta := MetaSectors(MapHdr(d), DirHdr(d));
    assert meta[0] == 0 && meta[1] == 1;
  }

  // ---------- The file system as a map from names to contents ----------

  /** The entry in use for the key, -1 if there is none. */
  function IndexOf(table: seq<Entry>, key: Name): (i: int)
    ensures -1 <= i < |table|
    ensures i >= 0 ==> Holds(table[i], key)
    ensures i == -1 ==> forall j :: 0 <= j < |table| ==> !Holds(table[j], key)
  {
    if table == [] then -1
    else if Holds(table[|table| - 1], key) then |table| - 1
    else IndexOf(table[..|table| - 1], key)
  }

  /** What the disk holds under a key. */
  function FileIn(d: Image, key: Name): Option<seq<Byte>>
    requires FsInv(d)
  {
    var i := IndexOf(TableIn(d), key);
    if i == -1 then None else Some(Contents(d, HdrAt(d, TableIn(d)[i].sector)))
  }

  lemma OnlyOne(table: seq<Entry>, key: Name, i: nat, j: nat)
    requires UniqueNames(table) && i < |table| && j < |table| && Holds(table[i], key) && Holds(table[j], key)
    ensures i == j
  {
  }

  lemma FoundIs(d: Image, key: Name, i: nat)
    requires FsInv(d) && i < NumDirEntries && Holds(TableIn(d)[i], key)
    ensures IndexOf(TableIn(d), key) == i
    ensures FileIn(d, key) == Some(Contents(d, HdrAt(d, TableIn(d)[i].sector)))
  {
    OnlyOne(TableIn(d), key, i, IndexOf(TableIn(d), key));
  }

  /** All sectors of the file in entry i are the same in both images. */
  ghost predicate SectorsSame(d: Image, d': Image, e: Entry) {
    forall s :: IsSector(s) && Owns(e, HdrAt(d, e.sector), s) ==> d'[s] == d[s]
  }

  lemma SameContents(d: Image, d': Image, e: Entry)
    requires EntryOk(e, HdrAt(d, e.sector)) && SectorsSame(d, d', e)
    ensures HdrAt(d', e.sector) == HdrAt(d, e.sector)
    ensures Contents(d', HdrAt(d, e.sector)) == Contents(d, HdrAt(d, e.sector))
  {
  }

  lemma OtherFileKept(d: Image, d': Image, slot: nat, key: Name, k: Name)
    requires FsInv(d) && FsInv(d') && slot < NumDirEntries && k != key
    requires TableIn(d') == TableIn(d)[slot := TableIn(d')[slot]]
    requires TableIn(d)[slot].inUse ==> Holds(TableIn(d)[slot], key)
    requires TableIn(d')[slot].inUse ==> Holds(TableIn(d')[slot], key)
    requires forall i :: 0 <= i < NumDirEntries && i != slot && TableIn(d)[i].inUse ==> SectorsSame(d, d', TableIn(d)[i])
    ensures FileIn(d', k) == FileIn(d, k)
  {
    var i := IndexOf(TableIn(d), k);
    if i >= 0 {
      assert Holds(TableIn(d')[i], k);
      FoundIs(d', k, i);
      assert EntryOk(TableIn(d)[i], HdrsFor(d, TableIn(d))[i]);
      SameContents(d, d', TableIn(d)[i]);
    } else {
      assert forall j :: 0 <= j < NumDirEntries ==> !Holds(TableIn(d')[j], k);
    }
  }

  /** An operation that changes one directory entry, that of `key`, and no sector of another file,
      leaves every other file as it was. */
  lemma OtherFilesKept(d: Image, d': Image, slot: nat, key: Name)
    requires FsInv(d) && FsInv(d') && slot < NumDirEntries
    requires TableIn(d') == TableIn(d)[slot := TableIn(d')[slot]]
    requires TableIn(d)[slot].inUse ==> Holds(TableIn(d)[slot], key)
    requires TableIn(d')[slot].inUse ==> Holds(TableIn(d')[slot], key)
    requires forall i :: 0 <= i < NumDirEntries && i != slot && TableIn(d)[i].inUse ==> SectorsSame(d, d', TableIn(d)[i])
    ensures forall k :: k != key ==> FileIn(d', k) == FileIn(d, k)
  {
    forall k | k != key ensures FileIn(d', k) == FileIn(d, k) {
      OtherFileKept(d, d', slot, key, k);
    }
  }

  /** The files in the directory keep their sectors when only the system's own files and a clear
      sector are written. */
  lemma SectorsKept(d: Image, d': Image, sector: int)
    requires FsInv(d)
    requires SameBut(d, d', sector) && (IsSector(sector) ==> !BitsIn(d)[sector])
    ensures forall i :: 0 <= i < NumDirEntries && TableIn(d)[i].inUse ==>
              && SectorsSame(d, d', TableIn(d)[i])
              && HdrAt(d', TableIn(d)[i].sector) == HdrAt(d, TableIn(d)[i].sector)
  {
    var table, hdrs := TableIn(d), HdrsFor(d, TableIn(d));
    var meta := MetaSectors(MapHdr(d), DirHdr(d));
    forall i | 0 <= i < NumDirEntries && table[i].inUse
      ensures SectorsSame(d, d', table[i]) && HdrAt(d', table[i].sector) == HdrAt(d, table[i].sector)
    {
      forall s | IsSector(s) && Owns(table[i], hdrs[i], s) ensures d'[s] == d[s] {
        assert InUse(table, hdrs, s);
        assert s !in meta;
      }
      SameContents(d, d', table[i]);
    }
  }

  // ---------- Create ----------

  /** What Create has prepared in memory: a header h and an entry e for a free slot, for a name that is
      new, such that the file's sectors were all clear, and the map with them added. */
  ghost predicate Prepared(d: Image, slot: nat, h: Header, e: Entry, key: Name, bits: seq<bool>) {
    && FsInv(d) && slot < NumDirEntries && !TableIn(d)[slot].inUse && |bits| == NumSectors
    && Holds(e, key) && EntryOk(e, h) && IndexOf(TableIn(d), key) == -1
    && (forall s :: Owns(e, h, s) ==> IsSector(s) && !BitsIn(d)[s])
    && (forall s :: 0 <= s < NumSectors ==> bits[s] == (BitsIn(d)[s] || Owns(e, h, s)))
  }

  /** What a successful Create has written: the header in its sector, the directory and the map. */
  ghost predicate Created(d: Image, d': Image, slot: nat, h: Header, e: Entry, key: Name, bits: seq<bool>) {
    && Prepared(d, slot, h, e, key, bits)
    && SameBut(d, d', e.sector) && d'[e.sector] == EncodeHeader(h)
    && Contents(d', DirHdr(d)) == EncodeTable(TableIn(d)[slot := e])
    && MapBits(Contents(d', MapHdr(d))) == bits
  }

  /** The header's sector and then the data sectors were clear when they were taken, so the new file
      owns clear sectors only, and the map has gained exactly those. */
  lemma NewFileOwns(bits: seq<bool>, sector: nat, bits': seq<bool>, e: Entry, h: Header)
    requires |bits| == |bits'| == NumSectors && sector < NumSectors && !bits[sector]
    requires e.sector == sector && HeaderOk(h)
    requires forall s :: s in DataSectors(h) ==> !bits[sector := true][s]
    requires forall s :: 0 <= s < NumSectors ==> bits'[s] == (bits[sector := true][s] || s in DataSectors(h))
    ensures EntryOk(e, h)
    ensures forall s :: Owns(e, h, s) ==> IsSector(s) && !bits[s]
    ensures forall s :: 0 <= s < NumSectors ==> bits'[s] == (bits[s] || Owns(e, h, s))
  {
  }

  lemma EntryHasSector(d: Image, i: nat)
    requires FsInv(d) && i < NumDirEntries && TableIn(d)[i].inUse
    ensures IsSector(TableIn(d)[i].sector) && EntryOk(TableIn(d)[i], HdrAt(d, TableIn(d)[i].sector))
  {
    assert EntryOk(TableIn(d)[i], HdrsFor(d, TableIn(d))[i]);
  }

  lemma NewSectorIsNotMeta(d: Image, sector: nat)
    requires FsInv(d) && sector < NumSectors && !BitsIn(d)[sector]
    ensures sector !in MetaSectors(MapHdr(d), DirHdr(d))
  {
  }

  lemma CreatedImage(d: Image, d': Image, slot: nat, h: Header, e: Entry, key: Name, bits: seq<bool>)
    requires Created(d, d', slot, h, e, key, bits)
    ensures MetaOk(d') && MapHdr(d') == MapHdr(d) && DirHdr(d') == DirHdr(d)
    ensures BitsIn(d') == bits && TableIn(d') == TableIn(d)[slot := e] && HdrAt(d', e.sector) == h
  {
    assert Owns(e, h, e.sector);
    HeaderRoundTrip(h);
    HeadersKept(d, d', e.sector);
    AfterFlush(d, d', TableIn(d)[slot := e], bits);
  }

  lemma CreatedInv(d: Image, d': Image, slot: nat, h: Header, e: Entry, key: Name, bits: seq<bool>)
    requires Created(d, d', slot, h, e, key, bits)
    ensures FsInv(d')
    ensures forall i :: 0 <= i < NumDirEntries && TableIn(d)[i].inUse ==> SectorsSame(d, d', TableIn(d)[i])
  {
    CreatedImage(d, d', slot, h, e, key, bits);
    assert Owns(e, h, e.sector);
    SectorsKept(d, d', e.sector);
    OwnershipAfterCreate(MetaSectors(MapHdr(d), DirHdr(d)), BitsIn(d), TableIn(d), HdrsFor(d, TableIn(d)),
                         bits, TableIn(d'), HdrsFor(d', TableIn(d')), slot, key);
  }

  /** A successful Create keeps the disk in order, adds one file of the requested length, and leaves
      every other file as it was. */
  lemma CreatedFiles(d: Image, d': Image, slot: nat, h: Header, e: Entry, key: Name, bits: seq<bool>)
    requires Created(d, d', slot, h, e, key, bits)
    ensures FsInv(d') && BitsIn(d') == bits
    ensures forall k :: k != key ==> FileIn(d', k) == FileIn(d, k)
    ensures FileIn(d', key).Some? && |FileIn(d', key).value| == Length(h)
  {
    CreatedImage(d, d', slot, h, e, key, bits);
    CreatedInv(d, d', slot, h, e, key, bits);
    OtherFilesKept(d, d', slot, key);
    FoundIs(d', key, slot);
  }

  // ---------- Remove ----------

  /** What a successful Remove has written: the map without the file's sectors and the directory with
      its entry free. */
  ghost predicate Removed(d: Image, d': Image, slot: nat, key: Name, bits: seq<bool>) {
    && FsInv(d) && slot < NumDirEntries && Holds(TableIn(d)[slot], key) && |bits| == NumSectors
    && (forall s :: 0 <= s < NumSectors ==>
          bits[s] == (BitsIn(d)[s] && !Owns(TableIn(d)[slot], HdrAt(d, TableIn(d)[slot].sector), s)))
    && SameBut(d, d', -1)
    && Contents(d', DirHdr(d)) == EncodeTable(TableIn(d)[slot := TableIn(d)[slot].(inUse := false)])
    && MapBits(Contents(d', MapHdr(d))) == bits
  }

  lemma RemovedInv(d: Image, d': Image, slot: nat, key: Name, bits: seq<bool>)
    requires Removed(d, d', slot, key, bits)
    ensures FsInv(d') && BitsIn(d') == bits && TableIn(d') == TableIn(d)[slot := TableIn(d)[slot].(inUse := false)]
    ensures MapHdr(d') == MapHdr(d) && DirHdr(d') == DirHdr(d)
    ensures forall i :: 0 <= i < NumDirEntries && TableIn(d)[i].inUse ==> SectorsSame(d, d', TableIn(d)[i])
  {
    HeadersKept(d, d', -1);
    AfterFlush(d, d', TableIn(d)[slot := TableIn(d)[slot].(inUse := false)], bits);
    SectorsKept(d, d', -1);
    OwnershipAfterRemove(MetaSectors(MapHdr(d), DirHdr(d)), BitsIn(d), TableIn(d), HdrsFor(d, TableIn(d)),
                         bits, TableIn(d'), HdrsFor(d', TableIn(d')), slot);
  }

  /** Remove keeps the disk in order, takes away one file, and leaves every other file as it was. */
  lemma RemovedFiles(d: Image, d': Image, slot: nat, key: Name, bits: seq<bool>)
    requires Removed(d, d', slot, key, bits)
    ensures FsInv(d') && BitsIn(d') == bits
    ensures forall k :: k != key ==> FileIn(d', k) == FileIn(d, k)
    ensures FileIn(d', key) == None
  {
    RemovedInv(d, d', slot, key, bits);
    OtherFilesKept(d, d', slot, key);
    DroppedIsGone(TableIn(d), slot, key);
  }

  lemma DroppedIsGone(table: seq<Entry>, slot: nat, key: Name)
    requires UniqueNames(table) && slot < |table| && Holds(table[slot], key)
    ensures IndexOf(table[slot := table[slot].(inUse := false)], key) == -1
  {
  }

  lemma FileSectorsAreMarked(d: Image, i: nat)
    requires FsInv(d) && i < NumDirEntries && TableIn(d)[i].inUse
    ensures var e := TableIn(d)[i]; var h := HdrAt(d, e.sector);
      HeaderOk(h) && forall s :: s in DataSectors(h) ==> BitsIn(d)[s]
  {
    EntryHasSector(d, i);
    var table, hdrs := TableIn(d), HdrsFor(d, TableIn(d));
    forall s | s in DataSectors(hdrs[i]) ensures BitsIn(d)[s] {
      assert Owns(table[i], hdrs[i], s);
      assert InUse(table, hdrs, s);
    }
  }

  // ---------- Writing to a file ----------

  /** Headers of free entries do not matter. */
  lemma OwnershipIgnoresFree(meta: seq<int>, bits: seq<bool>, table: seq<Entry>, hdrs: seq<Header>, hdrs': seq<Header>)
    requires Ownership(meta, bits, table, hdrs) && |hdrs'| == |table|
    requires forall i :: 0 <= i < |table| && table[i].inUse ==> hdrs'[i] == hdrs[i]
    ensures Ownership(meta, bits, table, hdrs')
  {
  }

  /** Data sectors of a file are neither the system's nor any other file's, nor hold a header. */
  lemma DataSectorsAreOwn(d: Image, i: nat, s: int)
    requires FsInv(d) && i < NumDirEntries && TableIn(d)[i].inUse
    requires s in DataSectors(HdrAt(d, TableIn(d)[i].sector))
    ensures s !in MetaSectors(MapHdr(d), DirHdr(d)) && s != TableIn(d)[i].sector
    ensures forall j :: 0 <= j < NumDirEntries && j != i && TableIn(d)[j].inUse ==> !Owns(TableIn(d)[j], HdrAt(d, TableIn(d)[j].sector), s)
  {
    var table, hdrs := TableIn(d), HdrsFor(d, TableIn(d));
    EntryHasSector(d, i);
    assert Owns(table[i], hdrs[i], s);
  }

  lemma MetaKeptByWrite(d: Image, d': Image, i: nat)
    requires FsInv(d) && i < NumDirEntries && TableIn(d)[i].inUse && HeaderOk(HdrAt(d, TableIn(d)[i].sector))
    requires AgreeOutside(d, d', DataSectors(HdrAt(d, TableIn(d)[i].sector)))
    ensures MetaOk(d') && MapHdr(d') == MapHdr(d) && DirHdr(d') == DirHdr(d)
    ensures TableIn(d') == TableIn(d) && BitsIn(d') == BitsIn(d)
  {
    var meta := MetaSectors(MapHdr(d), DirHdr(d));
    forall s | s in meta ensures d'[s] == d[s] {
      if s in DataSectors(HdrAt(d, TableIn(d)[i].sector)) {
        DataSectorsAreOwn(d, i, s);
      }
    }
    assert meta[0] == 0 && meta[1] == 1;
    ContentsFrame(d, d', MapHdr(d));
    ContentsFrame(d, d', DirHdr(d));
  }

  lemma OthersKeptByWrite(d: Image, d': Image, i: nat)
    requires FsInv(d) && i < NumDirEntries && TableIn(d)[i].inUse && HeaderOk(HdrAt(d, TableIn(d)[i].sector))
    requires AgreeOutside(d, d', DataSectors(HdrAt(d, TableIn(d)[i].sector)))
    ensures forall j :: 0 <= j < NumDirEntries && TableIn(d)[j].inUse ==> HdrAt(d', TableIn(d)[j].sector) == HdrAt(d, TableIn(d)[j].sector)
    ensures forall j :: 0 <= j < NumDirEntries && j != i && TableIn(d)[j].inUse ==> SectorsSame(d, d', TableIn(d)[j])
  {
    var table := TableIn(d);
    var data := DataSectors(HdrAt(d, table[i].sector));
    forall j | 0 <= j < NumDirEntries && table[j].inUse
      ensures HdrAt(d', table[j].sector) == HdrAt(d, table[j].sector)
      ensures j != i ==> SectorsSame(d, d', table[j])
    {
      EntryHasSector(d, j);
      var h := HdrAt(d, table[j].sector);
      assert Owns(table[j], h, table[j].sector);
      if j == i {
        assert table[j].sector !in data;
      } else {
        forall s | IsSector(s) && Owns(table[j], h, s) ensures d'[s] == d[s] {
          if s in data {
            DataSectorsAreOwn(d, i, s);
          }
        }
      }
    }
  }

  /** Writing the data sectors of one file keeps the disk in order and every other file as it was. */
  lemma WrittenInv(d: Image, d': Image, i: nat, key: Name)
    requires FsInv(d) && i < NumDirEntries && Holds(TableIn(d)[i], key) && HeaderOk(HdrAt(d, TableIn(d)[i].sector))
    requires AgreeOutside(d, d', DataSectors(HdrAt(d, TableIn(d)[i].sector)))
    ensures FsInv(d') && MapHdr(d') == MapHdr(d) && DirHdr(d') == DirHdr(d) && BitsIn(d') == BitsIn(d)
    ensures FileIn(d', key) == Some(Contents(d', HdrAt(d, TableIn(d)[i].sector)))
    ensures forall k :: k != key ==> FileIn(d', k) == FileIn(d, k)
  {
    MetaKeptByWrite(d, d', i);
    OthersKeptByWrite(d, d', i);
    OwnershipIgnoresFree(MetaSectors(MapHdr(d), DirHdr(d)), BitsIn(d), TableIn(d), HdrsFor(d, TableIn(d)), HdrsFor(d', TableIn(d)));
    FoundIs(d', key, i);
    OtherFilesKept(d, d', i, key);
  }

  // ---------- Whole operations as relations ----------

  ghost predicate WasCreated(d: Image, d': Image, key: Name, size: Int32) {
    exists slot: nat, h: Header, e: Entry, bits: seq<bool> :: h.numBytes == size && Created(d, d', slot, h, e, key, bits)
  }

  ghost predicate WasRemoved(d: Image, d': Image, key: Name) {
    exists slot: nat, bits: seq<bool> :: Removed(d, d', slot, key, bits)
  }

  lemma MapRestored(d: Image, d': Image, d'': Image, slot: nat, h: Header, e: Entry, key: Name, bits: seq<bool>,
                    slot': nat, bits': seq<bool>)
    requires Created(d, d', slot, h, e, key, bits) && Removed(d', d'', slot', key, bits')
    ensures bits' == BitsIn(d)
  {
    CreatedImage(d, d', slot, h, e, key, bits);
    OnlyOne(TableIn(d'), key, slot, slot');
    forall s | 0 <= s < NumSectors ensures bits'[s] == BitsIn(d)[s] {
      assert bits[s] == (BitsIn(d)[s] || Owns(e, h, s));
    }
  }

  lemma FilesRestored(d: Image, d': Image, d'': Image, slot: nat, h: Header, e: Entry, key: Name, bits: seq<bool>,
                      slot': nat, bits': seq<bool>)
    requires Created(d, d', slot, h, e, key, bits) && Removed(d', d'', slot', key, bits')
    ensures FsInv(d'') && BitsIn(d'') == bits'
    ensures forall k :: FileIn(d'', k) == FileIn(d, k)
  {
    CreatedFiles(d, d', slot, h, e, key, bits);
    RemovedFiles(d', d'', slot', key, bits');
    forall k ensures FileIn(d'', k) == FileIn(d, k) {
      assert k == key ==> FileIn(d, k) == None;
    }
  }

  /** Removing a file that was just created restores the free map bit for bit, and with it every name. */
  lemma CreateRemoveRestores(d: Image, d': Image, d'': Image, key: Name, size: Int32)
    requires WasCreated(d, d', key, size) && WasRemoved(d', d'', key)
    ensures FsInv(d) && FsInv(d'') && BitsIn(d'') == BitsIn(d)
    ensures forall k :: FileIn(d'', k) == FileIn(d, k)
  {
    var slot: nat, h: Header, e: Entry, bits: seq<bool> :| h.numBytes == size && Created(d, d', slot, h, e, key, bits);
    var slot': nat, bits': seq<bool> :| Removed(d', d'', slot', key, bits');
    MapRestored(d, d', d'', slot, h, e, key, bits, slot', bits');
    FilesRestored(d, d', d'', slot, h, e, key, bits, slot', bits');
  }

  // ---------- Conservation of sectors ----------

  lemma UnionCount(a: set<int>, b: set<int>)
    requires a !! b
    ensures |a + b| == |a| + |b|
  {
  }

  ghost function SetBits(bits: seq<bool>): set<int> {
    set s | 0 <= s < |bits| && bits[s]
  }

  lemma SetBitsStep(bits: seq<bool>, b: bool)
    ensures |SetBits(bits + [b])| == |SetBits(bits)| + if b then 1 else 0
  {
    var last: set<int> := if b then {|bits|} else {};
    assert SetBits(bits + [b]) == SetBits(bits) + last;
    UnionCount(SetBits(bits), last);
  }

  lemma {:induction false} ClearPlusSet(bits: seq<bool>)
    ensures CountClear(bits) + |SetBits(bits)| == |bits|
    decreases |bits|
  {
    if bits != [] {
      var n := |bits| - 1;
      ClearPlusSet(bits[..n]);
      SetBitsStep(bits[..n], bits[n]);
      assert bits == bits[..n] + [bits[n]];
    }
  }

  /** The sectors of one file, as a set and as a number. */
  ghost function SectorsOf(e: Entry, h: Header): set<int> {
    if e.inUse && EntryOk(e, h) then {e.sector} + SetOf(DataSectors(h)) else {}
  }

  function SectorCount(e: Entry, h: Header): nat {
    if e.inUse && h.numSectors <= NumDirect then 1 + |DataSectors(h)| else 0
  }

  lemma SectorsOfIs(e: Entry, h: Header)
    requires e.inUse ==> EntryOk(e, h)
    ensures forall s :: s in SectorsOf(e, h) <==> e.inUse && Owns(e, h, s)
    ensures forall s :: s in SectorsOf(e, h) ==> IsSector(s)
    ensures |SectorsOf(e, h)| == SectorCount(e, h)
  {
    if e.inUse {
      SetOfDistinct(DataSectors(h));
      assert e.sector !in SetOf(DataSectors(h));
    }
  }

  /** One of the first n files owns the sector. */
  ghost predicate OwnedBelow(table: seq<Entry>, hdrs: seq<Header>, n: nat, s: int)
    requires n <= |table| == |hdrs|
  {
    exists i :: 0 <= i < n && table[i].inUse && Owns(table[i], hdrs[i], s)
  }

  lemma OwnedBelowNext(table: seq<Entry>, hdrs: seq<Header>, n: nat, s: int)
    requires n < |table| == |hdrs|
    ensures OwnedBelow(table, hdrs, n + 1, s) <==> OwnedBelow(table, hdrs, n, s) || (table[n].inUse && Owns(table[n], hdrs[n], s))
  {
    if OwnedBelow(table, hdrs, n, s) {
      var i :| 0 <= i < n && table[i].inUse && Owns(table[i], hdrs[i], s);
    }
  }

  /** The sectors of the files in the first n entries, as a set and as a number. */
  ghost function OwnedSet(table: seq<Entry>, hdrs: seq<Header>, n: nat): set<int>
    requires n <= |table| == |hdrs|
  {
    set s | 0 <= s < NumSectors && OwnedBelow(table, hdrs, n, s)
  }

  function OwnedCount(table: seq<Entry>, hdrs: seq<Header>, n: nat): nat
    requires n <= |table| == |hdrs|
  {
    if n == 0 then 0 else OwnedCount(table, hdrs, n - 1) + SectorCount(table[n - 1], hdrs[n - 1])
  }

  /** The part of Ownership that is about the files only. */
  ghost predicate FilesDisjoint(table: seq<Entry>, hdrs: seq<Header>) {
    && |hdrs| == |table|
    && (forall i :: 0 <= i < |table| && table[i].inUse ==> EntryOk(table[i], hdrs[i]))
    && (forall i, j, s :: 0 <= i < j < |table| && table[i].inUse && table[j].inUse && Owns(table[i], hdrs[i], s)
                          ==> !Owns(table[j], hdrs[j], s))
  }

  /** The next file's sectors are not among those counted so far. */
  lemma OwnedSetStep(table: seq<Entry>, hdrs: seq<Header>, n: nat)
    requires FilesDisjoint(table, hdrs) && n < |table|
    ensures OwnedSet(table, hdrs, n) !! SectorsOf(table[n], hdrs[n])
    ensures OwnedSet(table, hdrs, n + 1) == OwnedSet(table, hdrs, n) + SectorsOf(table[n], hdrs[n])
  {
    SectorsOfIs(table[n], hdrs[n]);
    forall s ensures s in OwnedSet(table, hdrs, n + 1) <==> s in OwnedSet(table, hdrs, n) || s in SectorsOf(table[n], hdrs[n]) {
      OwnedBelowNext(table, hdrs, n, s);
    }
    forall s | s in OwnedSet(table, hdrs, n) ensures s !in SectorsOf(table[n], hdrs[n]) {
      var i :| 0 <= i < n && table[i].inUse && Owns(table[i], hdrs[i], s);
      assert table[n].inUse ==> !Owns(table[n], hdrs[n], s);
    }
  }

  lemma OwnedSetGrows(table: seq<Entry>, hdrs: seq<Header>, n: nat)
    requires FilesDisjoint(table, hdrs) && n < |table|
    ensures |OwnedSet(table, hdrs, n + 1)| == |OwnedSet(table, hdrs, n)| + SectorCount(table[n], hdrs[n])
  {
    OwnedSetStep(table, hdrs, n);
    UnionCount(OwnedSet(table, hdrs, n), SectorsOf(table[n], hdrs[n]));
    SectorsOfIs(table[n], hdrs[n]);
  }

  lemma {:induction false} OwnedSetCount(table: seq<Entry>, hdrs: seq<Header>, n: nat)
    requires FilesDisjoint(table, hdrs) && n <= |table|
    ensures |OwnedSet(table, hdrs, n)| == OwnedCount(table, hdrs, n)
  {
    if n == 0 {
      assert OwnedSet(table, hdrs, n) == {};
    } else {
      OwnedSetCount(table, hdrs, n - 1);
      OwnedSetGrows(table, hdrs, n - 1);
    }
  }

  /** Clear bits, the system's sectors and the sectors of the files in the directory always add up to
      the size of the disk. */
  lemma SectorsAreConserved(d: Image)
    requires FsInv(d)
    ensures CountClear(BitsIn(d)) + |MetaSectors(MapHdr(d), DirHdr(d))|
            + OwnedCount(TableIn(d), HdrsFor(d, TableIn(d)), NumDirEntries) == NumSectors
  {
    var meta, bits, table, hdrs := MetaSectors(MapHdr(d), DirHdr(d)), BitsIn(d), TableIn(d), HdrsFor(d, TableIn(d));
    CountUsed(meta, bits, table, hdrs);
  }

  lemma CountUsed(meta: seq<int>, bits: seq<bool>, table: seq<Entry>, hdrs: seq<Header>)
    requires Ownership(meta, bits, table, hdrs)
    ensures CountClear(bits) + |meta| + OwnedCount(table, hdrs, |table|) == NumSectors
  {
    ClearPlusSet(bits);
    OwnedSetCount(table, hdrs, |table|);
    SetOfDistinct(meta);
    UsedIsUnion(meta, bits, table, hdrs);
  }

  lemma UsedIsUnion(meta: seq<int>, bits: seq<bool>, table: seq<Entry>, hdrs: seq<Header>)
    requires Ownership(meta, bits, table, hdrs)
    ensures SetOf(meta) !! OwnedSet(table, hdrs, |table|)
    ensures SetBits(bits) == SetOf(meta) + OwnedSet(table, hdrs, |table|)
  {
    var owned := OwnedSet(table, hdrs, |table|);
    forall s | IsSector(s) ensures s in owned <==> InUse(table, hdrs, s) {
      assert OwnedBelow(table, hdrs, |table|, s) <==> InUse(table, hdrs, s);
    }
    forall s ensures s in SetBits(bits) <==> s in SetOf(meta) || s in owned {
      assert s in SetOf(meta) <==> s in meta;
    }
  }

  // ---------- All files as one map ----------

  /** The files on a disk: what each name, cut to its key, stands for. */
  type Files = map<Name, seq<Byte>>

  /** A table of distinct names in which the entries in use have their files on the disk. */
  ghost predicate TableOk(d: Image, table: seq<Entry>) {
    && UniqueNames(table)
    && forall i {:trigger HdrAt(d, table[i].sector)} :: 0 <= i < |table| && table[i].inUse
                                                        ==> EntryOk(table[i], HdrAt(d, table[i].sector))
  }

  lemma {:induction false} TableInIsOk(d: Image)
    requires FsInv(d)
    ensures TableOk(d, TableIn(d))
  {
    assert forall i :: 0 <= i < NumDirEntries ==> HdrsFor(d, TableIn(d))[i] == HdrAt(d, TableIn(d)[i].sector);
  }

  /** The files in the first n entries of a table. */
  ghost function FilesIn(d: Image, table: seq<Entry>, n: nat): Files
    requires TableOk(d, table) && n <= |table|
  {
    if n == 0 then map[]
    else
      var e := table[n - 1];
      if e.inUse then FilesIn(d, table, n - 1)[StoredFrom(e.name, 0) := Contents(d, HdrAt(d, e.sector))]
      else FilesIn(d, table, n - 1)
  }

  ghost function FilesOn(d: Image): Files
    requires FsInv(d)
  {
    TableInIsOk(d);
    FilesIn(d, TableIn(d), NumDirEntries)
  }

  /** One of the first n entries is for the key. */
  ghost predicate HeldBelow(table: seq<Entry>, n: nat, key: Name)
    requires n <= |table|
  {
    exists i :: 0 <= i < n && Holds(table[i], key)
  }

  lemma {:induction false} InFilesIn(d: Image, table: seq<Entry>, n: nat, key: Name)
    requires TableOk(d, table) && n <= |table|
    ensures key in FilesIn(d, table, n) <==> HeldBelow(table, n, key)
  {
    if n > 0 {
      InFilesIn(d, table, n - 1, key);
      assert HeldBelow(table, n, key) <==> HeldBelow(table, n - 1, key) || Holds(table[n - 1], key);
    }
  }

  lemma {:induction false} AtFilesIn(d: Image, table: seq<Entry>, n: nat, key: Name, i: nat)
    requires TableOk(d, table) && i < n <= |table| && Holds(table[i], key)
    ensures key in FilesIn(d, table, n) && FilesIn(d, table, n)[key] == Contents(d, HdrAt(d, table[i].sector))
  {
    if i < n - 1 {
      AtFilesIn(d, table, n - 1, key, i);
      assert !Holds(table[n - 1], key);
    }
  }

  lemma {:induction false} FilesOnIs(d: Image, key: Name)
    requires FsInv(d)
    ensures key in FilesOn(d) <==> FileIn(d, key).Some?
    ensures key in FilesOn(d) ==> FilesOn(d)[key] == FileIn(d, key).value
  {
    TableInIsOk(d);
    InFilesIn(d, TableIn(d), NumDirEntries, key);
    var i := IndexOf(TableIn(d), key);
    if i != -1 {
      AtFilesIn(d, TableIn(d), NumDirEntries, key, i);
    }
  }

  /** The sectors a file of n bytes needs for its data. */
  function SectorsNeeded(n: int): nat {
    if SectorsFor(n) < 0 then 0 else SectorsFor(n)
  }

  /** The sectors that files take, headers included. */
  ghost function SectorsUsed(f: Files): nat {
    if f == map[] then 0
    else
      var k :| k in f;
      1 + SectorsNeeded(|f[k]|) + SectorsUsed(f - {k})
  }

  lemma {:induction false} SectorsWithout(f: Files, k: Name)
    requires k in f
    ensures SectorsUsed(f) == 1 + SectorsNeeded(|f[k]|) + SectorsUsed(f - {k})
    decreases |f|
  {
    var k0 :| k0 in f && SectorsUsed(f) == 1 + SectorsNeeded(|f[k0]|) + SectorsUsed(f - {k0});
    if k0 != k {
      SectorsWithout(f - {k0}, k);
      SectorsWithout(f - {k}, k0);
      assert f - {k0} - {k} == f - {k} - {k0};
    }
  }

  /** What the system's own files leave. */
  const Capacity := NumSectors - 5

  lemma {:induction false} NewKey(d: Image, table: seq<Entry>, n: nat)
    requires TableOk(d, table) && 0 < n <= |table| && table[n - 1].inUse
    ensures StoredFrom(table[n - 1].name, 0) !in FilesIn(d, table, n - 1)
  {
    InFilesIn(d, table, n - 1, StoredFrom(table[n - 1].name, 0));
  }

  /** What one more entry adds to the sectors used. */
  lemma {:induction false} UsedByEntry(d: Image, table: seq<Entry>, n: nat)
    requires TableOk(d, table) && 0 < n <= |table| && table[n - 1].inUse
    ensures SectorsUsed(FilesIn(d, table, n)) == SectorsUsed(FilesIn(d, table, n - 1)) + SectorCount(table[n - 1], HdrAt(d, table[n - 1].sector))
  {
    var k, f, f' := StoredFrom(table[n - 1].name, 0), FilesIn(d, table, n - 1), FilesIn(d, table, n);
    NewKey(d, table, n);
    SectorsWithout(f', k);
    assert f' - {k} == f;
  }

  lemma {:induction false} UsedInFirst(d: Image, table: seq<Entry>, hdrs: seq<Header>, n: nat)
    requires TableOk(d, table) && n <= |table| && hdrs == HdrsFor(d, table)
    ensures OwnedCount(table, hdrs, n) == SectorsUsed(FilesIn(d, table, n))
  {
    if n > 0 {
      UsedInFirst(d, table, hdrs, n - 1);
      if table[n - 1].inUse {
        UsedByEntry(d, table, n);
      }
    }
  }

  /** The entries in use among the first n. */
  function EntriesUsed(table: seq<Entry>, n: nat): nat
    requires n <= |table|
  {
    if n == 0 then 0 else EntriesUsed(table, n - 1) + if table[n - 1].inUse then 1 else 0
  }

  lemma {:induction false} AllUsed(table: seq<Entry>, n: nat)
    requires n <= |table|
    ensures EntriesUsed(table, n) <= n && (EntriesUsed(table, n) == n <==> forall i :: 0 <= i < n ==> table[i].inUse)
  {
    if n > 0 {
      AllUsed(table, n - 1);
    }
  }

  /** As many names as entries in use. */
  lemma {:induction false} NamesInFirst(d: Image, table: seq<Entry>, n: nat)
    requires TableOk(d, table) && n <= |table|
    ensures |FilesIn(d, table, n)| == EntriesUsed(table, n)
  {
    if n > 0 {
      NamesInFirst(d, table, n - 1);
      if table[n - 1].inUse {
        NewKey(d, table, n);
      }
    }
  }

  /** Room for a file, in terms of the files that are there. */
  lemma {:induction false} RoomIs(d: Image)
    requires FsInv(d)
    ensures CountClear(BitsIn(d)) + SectorsUsed(FilesOn(d)) == Capacity
    ensures |FilesOn(d)| < NumDirEntries <==> exists i :: 0 <= i < NumDirEntries && !TableIn(d)[i].inUse
  {
    SectorsAreConserved(d);
    TableInIsOk(d);
    UsedInFirst(d, TableIn(d), HdrsFor(d, TableIn(d)), NumDirEntries);
    NamesInFirst(d, TableIn(d), NumDirEntries);
    AllUsed(TableIn(d), NumDirEntries);
    MetaSize(d);
  }

  lemma {:induction false} MetaSize(d: Image)
    requires MetaOk(d)
    ensures |MetaSectors(MapHdr(d), DirHdr(d))| == 5
  {
    assert SectorsFor(FreeMapFileSize) == 1 && SectorsFor(DirectoryFileSize) == 2;
  }
}
