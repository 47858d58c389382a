/** The file system on disk (code/filesys/filesys.cc:81-286).

    Sectors 0 and 1 hold the headers of two files, the map of free sectors and the directory. Each
    operation fetches what it needs from these files, changes it in memory and writes it back. */
module FileSystems {
  import opened Base
  import opened Disks
  import opened Bitmaps
  import opened FileHeaders
  import opened OpenFiles
  import opened Directories
  import opened DiskImages

  // ---------- Formatting ----------

  lemma MetaIsDistinct(mapHdr: Header, dirHdr: Header)
    requires HeaderOk(mapHdr) && HeaderOk(dirHdr)
    requires forall s :: s in DataSectors(mapHdr) ==> s != 0 && s != 1
    requires forall s :: s in DataSectors(dirHdr) ==> s != 0 && s != 1 && s !in DataSectors(mapHdr)
    ensures Distinct(MetaSectors(mapHdr, dirHdr))
  {
    DistinctConcat([FreeMapSector, DirectorySector], DataSectors(mapHdr));
    DistinctConcat([FreeMapSector, DirectorySector] + DataSectors(mapHdr), DataSectors(dirHdr));
  }

  /** A map with just the two header sectors marked. */
  method NewFreeMap() returns (freeMap: Bitmap)
    ensures fresh(freeMap.words) && IsFreeMap(freeMap) && CountClear(freeMap.Bits()) == NumSectors - 2
    ensures forall s :: 0 <= s < NumSectors ==> (freeMap.Bits()[s] <==> s == FreeMapSector || s == DirectorySector)
  {
    freeMap := new Bitmap(NumSectors);
    CountIsAll(freeMap.Bits());
    CountAfterSet(freeMap.Bits(), FreeMapSector);
    freeMap.Mark(FreeMapSector);
    CountAfterSet(freeMap.Bits(), DirectorySector);
    freeMap.Mark(DirectorySector);
  }

  /** The first part of formatting, in memory: mark the two header sectors and allocate both files. The
      ASSERTs on the allocations hold. */
  method AllocateMeta() returns (freeMap: Bitmap, mapHdr: FileHeader, dirHdr: FileHeader)
    ensures fresh(freeMap.words) && fresh(mapHdr) && fresh(dirHdr) && IsFreeMap(freeMap)
    ensures HeaderOk(mapHdr.h) && mapHdr.h.numBytes == FreeMapFileSize
    ensures HeaderOk(dirHdr.h) && dirHdr.h.numBytes == DirectoryFileSize
    ensures Distinct(MetaSectors(mapHdr.h, dirHdr.h))
    ensures forall s :: 0 <= s < NumSectors ==> (freeMap.Bits()[s] <==> s in MetaSectors(mapHdr.h, dirHdr.h))
  {
    freeMap := NewFreeMap();
    mapHdr := new FileHeader();
    dirHdr := new FileHeader();
    var ok := mapHdr.Allocate(freeMap, FreeMapFileSize);
    assert ok;
    ok := dirHdr.Allocate(freeMap, DirectoryFileSize);
    assert ok;
    MetaIsDistinct(mapHdr.h, dirHdr.h);
  }

  lemma EmptyOwnership(meta: seq<int>, bits: seq<bool>, table: seq<Entry>, hdrs: seq<Header>)
    requires |bits| == NumSectors && |hdrs| == |table| && Distinct(meta) && forall s :: s in meta ==> IsSector(s)
    requires forall s :: 0 <= s < NumSectors ==> (bits[s] <==> s in meta)
    requires forall i :: 0 <= i < |table| ==> !table[i].inUse
    ensures Ownership(meta, bits, table, hdrs)
  {
  }

  lemma {:induction false} FormattedImage(d: Image, mapHdr: Header, dirHdr: Header, table: seq<Entry>)
    requires HeaderOk(mapHdr) && mapHdr.numBytes == FreeMapFileSize
    requires HeaderOk(dirHdr) && dirHdr.numBytes == DirectoryFileSize && |table| == NumDirEntries
    requires d[FreeMapSector] == EncodeHeader(mapHdr) && d[DirectorySector] == EncodeHeader(dirHdr)
    requires Contents(d, dirHdr) == EncodeTable(table)
    ensures MetaOk(d) && MapHdr(d) == mapHdr && DirHdr(d) == dirHdr && TableIn(d) == table
  {
    HeaderRoundTrip(mapHdr);
    HeaderRoundTrip(dirHdr);
    TableRoundTrip(table);
  }

  /** An image with an empty directory whose map holds just the system's sectors is in order. */
  lemma FormattedInv(d: Image)
    requires MetaOk(d) && Distinct(MetaSectors(MapHdr(d), DirHdr(d)))
    requires forall s :: 0 <= s < NumSectors ==> (BitsIn(d)[s] <==> s in MetaSectors(MapHdr(d), DirHdr(d)))
    requires forall i :: 0 <= i < NumDirEntries ==> !TableIn(d)[i].inUse
    ensures FsInv(d) && forall k :: FileIn(d, k) == None
  {
    EmptyOwnership(MetaSectors(MapHdr(d), DirHdr(d)), BitsIn(d), TableIn(d), HdrsFor(d, TableIn(d)));
  }

  /** Flush the headers of the map and the directory, and open the two files. */
  method OpenMeta(disk: SynchDisk, mapHdr: FileHeader, dirHdr: FileHeader) returns (mapFile: OpenFile, dirFile: OpenFile)
    modifies disk
    ensures disk.sectors[FreeMapSector] == EncodeHeader(mapHdr.h) && disk.sectors[DirectorySector] == EncodeHeader(dirHdr.h)
    ensures mapFile.disk == disk && mapFile.hdr == mapHdr.h && dirFile.disk == disk && dirFile.hdr == dirHdr.h
  {
    mapHdr.WriteBack(disk, FreeMapSector);
    dirHdr.WriteBack(disk, DirectorySector);
    HeaderRoundTrip(mapHdr.h);
    HeaderRoundTrip(dirHdr.h);
    mapFile := new OpenFile(disk, FreeMapSector);
    dirFile := new OpenFile(disk, DirectorySector);
  }

  /** Writes the map and the directory to their files. */
  method FlushMeta(disk: SynchDisk, mapFile: OpenFile, dirFile: OpenFile, directory: Directory, freeMap: Bitmap)
    requires IsFreeMap(freeMap) && directory.table.Length == NumDirEntries
    requires mapFile.disk == disk && dirFile.disk == disk && mapFile.Valid() && dirFile.Valid()
    requires Length(mapFile.hdr) == FreeMapFileSize && Length(dirFile.hdr) == DirectoryFileSize
    requires forall s :: s in DataSectors(mapFile.hdr) ==> s !in DataSectors(dirFile.hdr)
    modifies disk
    ensures Contents(disk.sectors, dirFile.hdr) == EncodeTable(directory.table[..])
    ensures MapBits(Contents(disk.sectors, mapFile.hdr)) == freeMap.Bits()
    ensures forall s :: 0 <= s < NumSectors && s !in DataSectors(mapFile.hdr) && s !in DataSectors(dirFile.hdr)
                        ==> disk.sectors[s] == old(disk.sectors)[s]
  {
    WriteMap(freeMap, mapFile);
    ghost var d2 := disk.sectors;
    directory.WriteBack(dirFile);
    TwoWrites(old(disk.sectors), d2, disk.sectors, mapFile.hdr, dirFile.hdr);
  }

  /** Formatting the disk, up to the constructor's fields. */
  method FormatDisk(disk: SynchDisk) returns (mapFile: OpenFile, dirFile: OpenFile)
    modifies disk
    ensures mapFile.disk == disk && dirFile.disk == disk
    ensures MetaOk(disk.sectors) && mapFile.hdr == MapHdr(disk.sectors) && dirFile.hdr == DirHdr(disk.sectors)
    ensures Distinct(MetaSectors(mapFile.hdr, dirFile.hdr))
    ensures forall s :: 0 <= s < NumSectors ==> (BitsIn(disk.sectors)[s] <==> s in MetaSectors(mapFile.hdr, dirFile.hdr))
    ensures forall i :: 0 <= i < NumDirEntries ==> !TableIn(disk.sectors)[i].inUse
  {
    var freeMap, mapHdr, dirHdr := AllocateMeta();
    var directory := new Directory(NumDirEntries);
    MetaIsDisjoint(mapHdr.h, dirHdr.h);
    mapFile, dirFile := OpenMeta(disk, mapHdr, dirHdr);
    FlushMeta(disk, mapFile, dirFile, directory, freeMap);
    FormattedImage(disk.sectors, mapHdr.h, dirHdr.h, directory.table[..]);
  }

  // ---------- The source's object ----------

  class FileSystem {
    const disk: SynchDisk
    const freeMapFile: OpenFile
    const directoryFile: OpenFile

    ghost predicate Valid()
      reads disk
    {
      && freeMapFile.disk == disk && directoryFile.disk == disk
      && FsInv(disk.sectors)
      && freeMapFile.hdr == MapHdr(disk.sectors)
      && directoryFile.hdr == DirHdr(disk.sectors)
    }

    /** The system's own files are open and their sectors disjoint. */
    ghost predicate FilesOpen()
      reads disk
    {
      && freeMapFile.disk == disk && directoryFile.disk == disk
      && MetaOk(disk.sectors)
      && freeMapFile.hdr == MapHdr(disk.sectors)
      && directoryFile.hdr == DirHdr(disk.sectors)
      && Distinct(MetaSectors(freeMapFile.hdr, directoryFile.hdr))
    }

    /** Not formatting: the disk holds a file system already. */
    constructor Mount(disk: SynchDisk)
      requires FsInv(disk.sectors)
      ensures Valid() && this.disk == disk
    {
      this.disk := disk;
      freeMapFile := new OpenFile(disk, FreeMapSector);
      directoryFile := new OpenFile(disk, DirectorySector);
    }

    /** Formatting: whatever was on the disk, there is now a file system without files. */
    constructor Format(disk: SynchDisk)
      modifies disk
      ensures Valid() && this.disk == disk
      ensures forall k :: FileIn(disk.sectors, k) == None
    {
      var mapFile, dirFile := FormatDisk(disk);
      FormattedInv(disk.sectors);
      this.disk := disk;
      freeMapFile := mapFile;
      directoryFile := dirFile;
    }

    method FetchDirectory() returns (directory: Directory)
      requires Valid()
      ensures fresh(directory.table) && directory.table[..] == TableIn(disk.sectors)
    {
      directory := new Directory(NumDirEntries);
      directory.FetchFrom(directoryFile);
    }

    method FetchFreeMap() returns (freeMap: Bitmap)
      requires Valid()
      ensures fresh(freeMap.words) && IsFreeMap(freeMap) && freeMap.Bits() == BitsIn(disk.sectors)
    {
      freeMap := new Bitmap(NumSectors);
      FetchMap(freeMap, freeMapFile);
    }

    /** Flush the directory, then the map. */
    method FlushDirectoryAndMap(directory: Directory, freeMap: Bitmap)
      requires IsFreeMap(freeMap) && directory.table.Length == NumDirEntries
      requires freeMapFile.disk == disk && directoryFile.disk == disk
      requires freeMapFile.Valid() && directoryFile.Valid()
      requires Length(freeMapFile.hdr) == FreeMapFileSize && Length(directoryFile.hdr) == DirectoryFileSize
      requires forall s :: s in DataSectors(directoryFile.hdr) ==> s !in DataSectors(freeMapFile.hdr)
      modifies disk
      ensures Contents(disk.sectors, directoryFile.hdr) == EncodeTable(directory.table[..])
      ensures MapBits(Contents(disk.sectors, freeMapFile.hdr)) == freeMap.Bits()
      ensures forall s :: 0 <= s < NumSectors && s !in DataSectors(freeMapFile.hdr) && s !in DataSectors(directoryFile.hdr)
                          ==> disk.sectors[s] == old(disk.sectors)[s]
    {
      directory.WriteBack(directoryFile);
      ghost var d2 := disk.sectors;
      WriteMap(freeMap, freeMapFile);
      TwoWrites(old(disk.sectors), d2, disk.sectors, directoryFile.hdr, freeMapFile.hdr);
    }

    /** The end of Create: write the new header, the directory and the map. */
    method WriteCreated(sector: int, directory: Directory, freeMap: Bitmap, hdr: FileHeader)
      requires FilesOpen() && IsFreeMap(freeMap) && directory.table.Length == NumDirEntries
      requires IsSector(sector) && sector !in MetaSectors(MapHdr(disk.sectors), DirHdr(disk.sectors))
      modifies disk
      ensures SameBut(old(disk.sectors), disk.sectors, sector) && disk.sectors[sector] == EncodeHeader(hdr.h)
      ensures Contents(disk.sectors, directoryFile.hdr) == EncodeTable(directory.table[..])
      ensures MapBits(Contents(disk.sectors, freeMapFile.hdr)) == freeMap.Bits()
    {
      MetaIsDisjoint(MapHdr(disk.sectors), DirHdr(disk.sectors));
      hdr.WriteBack(disk, sector);
      ghost var d1 := disk.sectors;
      FlushDirectoryAndMap(directory, freeMap);
      assert forall s :: 0 <= s < NumSectors && s !in DataSectors(freeMapFile.hdr) && s !in DataSectors(directoryFile.hdr)
                         ==> disk.sectors[s] == d1[s];
    }

    /** The middle of Create, in memory: a sector for the header, a directory entry, the data sectors. */
    method AllocateFile(directory: Directory, freeMap: Bitmap, name: Name, initialSize: Int32)
        returns (ok: bool, sector: int, hdr: FileHeader, ghost slot: int)
      requires IsFreeMap(freeMap) && initialSize <= MaxFileSize && (directory.table as object) != freeMap.words
      modifies directory.table, freeMap.words
      ensures ok <==> && (forall i :: 0 <= i < directory.table.Length ==> !Holds(old(directory.table[..])[i], Key(name)))
                      && (exists i :: 0 <= i < directory.table.Length && !old(directory.table[..])[i].inUse)
                      && CountClear(old(freeMap.Bits())) >= 1
                      && CountClear(old(freeMap.Bits())) >= 1 + SectorsFor(initialSize)
      ensures fresh(hdr)
      ensures ok ==> 0 <= slot < directory.table.Length && !old(directory.table[..])[slot].inUse
                     && directory.table[..] == old(directory.table[..])[slot := directory.table[slot]]
                     && Holds(directory.table[slot], Key(name)) && directory.table[slot].sector == sector
                     && EntryOk(directory.table[slot], hdr.h) && hdr.h.numBytes == initialSize
      ensures ok ==> forall s :: Owns(directory.table[slot], hdr.h, s) ==> IsSector(s) && !old(freeMap.Bits())[s]
      ensures ok ==> forall s :: 0 <= s < NumSectors ==>
                       freeMap.Bits()[s] == (old(freeMap.Bits())[s] || Owns(directory.table[slot], hdr.h, s))
    {
      ghost var bits := freeMap.Bits();
      hdr := new FileHeader();
      ok, slot := false, -1;
      sector := freeMap.FindAndSet();
      if sector != -1 {
        var added;
        added, slot := directory.Add(name, sector);
        if added {
          ok := hdr.Allocate(freeMap, initialSize);
          if ok {
            NewFileOwns(bits, sector, freeMap.Bits(), directory.table[slot], hdr.h);
          }
        }
      }
    }

    /** Fetch the directory and look a name up in it. */
    method Lookup(name: Name) returns (sector: int, directory: Directory, ghost slot: int)
      requires Valid()
      ensures fresh(directory.table) && directory.table.Length == NumDirEntries && directory.table[..] == TableIn(disk.sectors)
      ensures slot == IndexOf(TableIn(disk.sectors), Key(name))
      ensures sector == -1 <==> slot == -1
      ensures sector == -1 <==> FileIn(disk.sectors, Key(name)) == None
      ensures slot >= 0 ==> IsSector(sector) && TableIn(disk.sectors)[slot].sector == sector
                            && EntryOk(TableIn(disk.sectors)[slot], HdrAt(disk.sectors, sector))
    {
      directory := FetchDirectory();
      sector, slot := directory.Find(name);
      ghost var table := directory.table[..];
      if slot >= 0 {
        assert Holds(table[slot], Key(name));
        EntryHasSector(disk.sectors, slot);
        OnlyOne(table, Key(name), slot, IndexOf(table, Key(name)));
      } else {
        assert forall i :: 0 <= i < |table| ==> !Holds(table[i], Key(name));
      }
    }

    /** Create of a name that is new, up to the point where everything has worked in memory. */
    method PrepareNew(name: Name, initialSize: Int32, directory: Directory, freeMap: Bitmap)
        returns (ok: bool, sector: int, hdr: FileHeader, ghost slot: int)
      requires Valid() && initialSize <= MaxFileSize && IsFreeMap(freeMap) && (directory.table as object) != freeMap.words
      requires directory.table.Length == NumDirEntries && directory.table[..] == TableIn(disk.sectors)
      requires freeMap.Bits() == BitsIn(disk.sectors)
      requires IndexOf(TableIn(disk.sectors), Key(name)) == -1
      modifies directory.table, freeMap.words
      ensures ok <==> && (exists i :: 0 <= i < NumDirEntries && !TableIn(disk.sectors)[i].inUse)
                      && CountClear(BitsIn(disk.sectors)) >= 1
                      && CountClear(BitsIn(disk.sectors)) >= 1 + SectorsFor(initialSize)
      ensures fresh(hdr)
      ensures ok ==> 0 <= slot < NumDirEntries && hdr.h.numBytes == initialSize
                     && directory.table[..] == TableIn(disk.sectors)[slot := directory.table[slot]]
                     && directory.table[slot].sector == sector
                     && Prepared(disk.sectors, slot, hdr.h, directory.table[slot], Key(name), freeMap.Bits())
    {
      ghost var table := TableIn(disk.sectors);
      assert forall i :: 0 <= i < |table| ==> !Holds(table[i], Key(name));
      ok, sector, hdr, slot := AllocateFile(directory, freeMap, name, initialSize);
    }

    /** Create up to the point where everything has worked in memory. */
    method PrepareCreate(name: Name, initialSize: Int32)
        returns (ok: bool, sector: int, directory: Directory, freeMap: Bitmap, hdr: FileHeader, ghost slot: int)
      requires Valid() && initialSize <= MaxFileSize
      ensures ok <==> && IndexOf(TableIn(disk.sectors), Key(name)) == -1
                      && (exists i :: 0 <= i < NumDirEntries && !TableIn(disk.sectors)[i].inUse)
                      && CountClear(BitsIn(disk.sectors)) >= 1
                      && CountClear(BitsIn(disk.sectors)) >= 1 + SectorsFor(initialSize)
      ensures fresh(directory.table) && fresh(freeMap.words) && fresh(hdr) && IsFreeMap(freeMap)
      ensures ok ==> 0 <= slot < NumDirEntries == directory.table.Length && hdr.h.numBytes == initialSize
                     && directory.table[..] == TableIn(disk.sectors)[slot := directory.table[slot]]
                     && directory.table[slot].sector == sector
                     && Prepared(disk.sectors, slot, hdr.h, directory.table[slot], Key(name), freeMap.Bits())
    {
      ok := false;
      hdr := new FileHeader();
      freeMap := FetchFreeMap();
      sector, directory, slot := Lookup(name);
      if sector == -1 {
        ok, sector, hdr, slot := PrepareNew(name, initialSize, directory, freeMap);
      }
    }

    /** Everything worked: flush all changes back to disk. */
    method CommitCreate(sector: int, directory: Directory, freeMap: Bitmap, hdr: FileHeader, ghost slot: nat, ghost key: Name)
      requires Valid() && IsFreeMap(freeMap) && slot < NumDirEntries == directory.table.Length
      requires directory.table[..] == TableIn(disk.sectors)[slot := directory.table[slot]]
      requires directory.table[slot].sector == sector
      requires Prepared(disk.sectors, slot, hdr.h, directory.table[slot], key, freeMap.Bits())
      modifies disk
      ensures Created(old(disk.sectors), disk.sectors, slot, hdr.h, directory.table[slot], key, freeMap.Bits())
    {
      assert Owns(directory.table[slot], hdr.h, sector);
      NewSectorIsNotMeta(disk.sectors, sector);
      WriteCreated(sector, directory, freeMap, hdr);
    }

    /** Create succeeds exactly if the name is new, the directory has a free entry, and the map has a
        clear sector for the header and enough others for the data. If it fails the disk is untouched;
        if it succeeds the disk has one more file, of the requested length, and no other file changes. */
    method Create(name: Name, initialSize: Int32) returns (success: bool)
      requires Valid() && initialSize <= MaxFileSize
      modifies disk
      ensures Valid()
      ensures success <==> && FileIn(old(disk.sectors), Key(name)) == None
                           && (exists i :: 0 <= i < NumDirEntries && !TableIn(old(disk.sectors))[i].inUse)
                           && CountClear(BitsIn(old(disk.sectors))) >= 1
                           && CountClear(BitsIn(old(disk.sectors))) >= 1 + SectorsFor(initialSize)
      ensures !success ==> disk.sectors == old(disk.sectors)
      ensures success ==> WasCreated(old(disk.sectors), disk.sectors, Key(name), initialSize)
      ensures success ==> FileIn(disk.sectors, Key(name)).Some?
                          && |FileIn(disk.sectors, Key(name)).value| == if initialSize < 0 then 0 else initialSize
      ensures forall k :: k != Key(name) ==> FileIn(disk.sectors, k) == FileIn(old(disk.sectors), k)
    {
      ghost var d := disk.sectors;
      var sector, directory, freeMap, hdr;
      ghost var slot;
      success, sector, directory, freeMap, hdr, slot := PrepareCreate(name, initialSize);
      if success {
        CommitCreate(sector, directory, freeMap, hdr, slot, Key(name));
        CreatedImage(d, disk.sectors, slot, hdr.h, directory.table[slot], Key(name), freeMap.Bits());
        CreatedFiles(d, disk.sectors, slot, hdr.h, directory.table[slot], Key(name), freeMap.Bits());
      }
    }

    /** Remove's work on the map: give back the data sectors and then the header's. */
    method FreeSectors(sector: int, fileHdr: FileHeader, freeMap: Bitmap, ghost e: Entry)
      requires IsFreeMap(freeMap) && e.sector == sector && EntryOk(e, fileHdr.h)
      requires forall s :: s in DataSectors(fileHdr.h) ==> freeMap.Bits()[s]
      modifies freeMap.words
      ensures forall s :: 0 <= s < NumSectors ==> freeMap.Bits()[s] == (old(freeMap.Bits())[s] && !Owns(e, fileHdr.h, s))
    {
      fileHdr.Deallocate(freeMap);
      freeMap.Clear(sector);
    }

    /** Remove's work on the directory. */
    method DropEntry(directory: Directory, name: Name, ghost slot: nat)
      requires UniqueNames(directory.table[..]) && slot < directory.table.Length && Holds(directory.table[slot], Key(name))
      modifies directory.table
      ensures directory.table[..] == old(directory.table[..])[slot := old(directory.table[slot]).(inUse := false)]
    {
      ghost var table := directory.table[..];
      assert Holds(table[slot], Key(name));
      var _ := directory.Remove(name);
      ghost var j :| 0 <= j < |table| && Holds(table[j], Key(name)) && directory.table[..] == table[j := table[j].(inUse := false)];
      OnlyOne(table, Key(name), j, slot);
    }

    /** The map without the sectors of the file in entry `slot`. The file's data sectors are marked, as
        Deallocate's ASSERT expects. */
    method FreeFile(sector: int, ghost slot: nat) returns (freeMap: Bitmap)
      requires Valid() && slot < NumDirEntries && TableIn(disk.sectors)[slot].inUse && TableIn(disk.sectors)[slot].sector == sector
      ensures fresh(freeMap.words) && IsFreeMap(freeMap)
      ensures forall s :: 0 <= s < NumSectors ==>
                freeMap.Bits()[s] == (BitsIn(disk.sectors)[s] && !Owns(TableIn(disk.sectors)[slot], HdrAt(disk.sectors, sector), s))
    {
      EntryHasSector(disk.sectors, slot);
      FileSectorsAreMarked(disk.sectors, slot);
      var fileHdr := new FileHeader();
      fileHdr.FetchFrom(disk, sector);
      freeMap := FetchFreeMap();
      FreeSectors(sector, fileHdr, freeMap, TableIn(disk.sectors)[slot]);
    }

    /** Remove of a name that is there: `slot` is its entry and `bits` the new map. */
    method RemoveFound(name: Name, sector: int, directory: Directory, ghost slot: nat) returns (ghost bits: seq<bool>)
      requires Valid() && slot < NumDirEntries == directory.table.Length && directory.table[..] == TableIn(disk.sectors)
      requires Holds(TableIn(disk.sectors)[slot], Key(name)) && TableIn(disk.sectors)[slot].sector == sector
      modifies disk, directory.table
      ensures Removed(old(disk.sectors), disk.sectors, slot, Key(name), bits)
    {
      ghost var d := disk.sectors;
      var freeMap := FreeFile(sector, slot);
      DropEntry(directory, name, slot);
      MetaIsDisjoint(MapHdr(d), DirHdr(d));
      FlushMeta(disk, freeMapFile, directoryFile, directory, freeMap);
      bits := freeMap.Bits();
    }

    /** Remove fails exactly if there is no such file, leaving the disk untouched; otherwise that file
        is gone and no other changes. */
    method Remove(name: Name) returns (ok: bool)
      requires Valid()
      modifies disk
      ensures Valid()
      ensures ok <==> FileIn(old(disk.sectors), Key(name)).Some?
      ensures !ok ==> disk.sectors == old(disk.sectors)
      ensures ok ==> WasRemoved(old(disk.sectors), disk.sectors, Key(name))
      ensures FileIn(disk.sectors, Key(name)) == None
      ensures forall k :: k != Key(name) ==> FileIn(disk.sectors, k) == FileIn(old(disk.sectors), k)
    {
      ghost var d := disk.sectors;
      var sector, directory, slot := Lookup(name);
      if sector == -1 {
        return false;
      }
      ghost var bits := RemoveFound(name, sector, directory, slot);
      RemovedInv(d, disk.sectors, slot, Key(name), bits);
      RemovedFiles(d, disk.sectors, slot, Key(name), bits);
      return true;
    }

    /** Open finds exactly the files that are there, and the open file is their contents. */
    method Open(name: Name) returns (file: OpenFile?)
      requires Valid()
      ensures file == null <==> FileIn(disk.sectors, Key(name)) == None
      ensures file != null ==> fresh(file) && file.disk == disk && file.Valid() && file.seekPosition == 0
                               && FileIn(disk.sectors, Key(name)) == Some(file.Bytes())
      ensures file != null ==> var i := IndexOf(TableIn(disk.sectors), Key(name));
                               i >= 0 && file.hdr == HdrAt(disk.sectors, TableIn(disk.sectors)[i].sector)
    {
      file := null;
      var sector, directory, slot := Lookup(name);
      if sector >= 0 {
        file := new OpenFile(disk, sector);
      }
    }

    /** Open a file, write to it and close it: assignment into that file's bytes, and nothing else. */
    method WriteFile(name: Name, data: seq<Byte>, position: nat) returns (n: int)
      requires Valid()
      modifies disk
      ensures Valid() && BitsIn(disk.sectors) == BitsIn(old(disk.sectors))
      ensures FileIn(old(disk.sectors), Key(name)) == None ==> n == 0 && disk.sectors == old(disk.sectors)
      ensures FileIn(old(disk.sectors), Key(name)).Some? ==>
                var was := FileIn(old(disk.sectors), Key(name)).value;
                && n == Clip(|was|, |data|, position)
                && FileIn(disk.sectors, Key(name)) == Some(if n == 0 then was else Patch(was, position, data[..n]))
      ensures forall k :: k != Key(name) ==> FileIn(disk.sectors, k) == FileIn(old(disk.sectors), k)
    {
      ghost var d := disk.sectors;
      var file := Open(name);
      if file == null {
        return 0;
      }
      n := file.WriteAt(data, |data|, position);
      WrittenInv(d, disk.sectors, IndexOf(TableIn(d), Key(name)), Key(name));
    }

    method Perform(op: Operation) returns (n: int)
      requires Valid() && (op.CreateOp? ==> op.size <= MaxFileSize)
      modifies disk
      ensures Valid() && Does(op, n, old(FilesOn(disk.sectors)), FilesOn(disk.sectors))
    {
      ghost var d := disk.sectors;
      match op
      case CreateOp(name, size) =>
        var ok := Create(name, size);
        n := if ok then 1 else 0;
        CreateDoes(d, disk.sectors, name, size, ok);
      case RemoveOp(name) =>
        var ok := Remove(name);
        n := if ok then 1 else 0;
        RemoveDoes(d, disk.sectors, name, ok);
      case WriteOp(name, data, position) =>
        n := WriteFile(name, data, position);
        WriteDoes(d, disk.sectors, name, data, position, n);
    }

    /** Any sequence of operations, from any disk in order. At every point the bookkeeping of the disk's
        sectors is exact, no ASSERT of Allocate or Deallocate fails, and each operation does to the files
        what it should. */
    method Execute(ops: seq<Operation>) returns (results: seq<int>, ghost trace: seq<Files>)
      requires Valid()
      requires forall op :: op in ops && op.CreateOp? ==> op.size <= MaxFileSize
      modifies disk
      ensures Valid() && IsTrace(ops, results, trace, |ops|)
      ensures trace[0] == old(FilesOn(disk.sectors)) && trace[|ops|] == FilesOn(disk.sectors)
    {
      results, trace := [], [FilesOn(disk.sectors)];
      for i := 0 to |ops|
        invariant Valid() && IsTrace(ops, results, trace, i)
        invariant trace[0] == old(FilesOn(disk.sectors)) && trace[i] == FilesOn(disk.sectors)
      {
        var n := Perform(ops[i]);
        TraceStep(ops, results, trace, i, n, FilesOn(disk.sectors));
        results, trace := results + [n], trace + [FilesOn(disk.sectors)];
      }
    }
  }

  // ---------- Runs, seen as operations on a map from names to bytes ----------

  datatype Operation =
    | CreateOp(name: Name, size: Int32)
    | RemoveOp(name: Name)
    | WriteOp(name: Name, data: seq<Byte>, position: nat)

  /** What an operation with result n does to the files: n is 1 or 0 for success or failure, or the number
      of bytes written. The result is a function of the files; only what a new file holds is left open. */
  ghost predicate Does(op: Operation, n: int, f: Files, f': Files) {
    var key := Key(op.name);
    match op
    case CreateOp(_, size) =>
      && n == (if key !in f && |f| < NumDirEntries && SectorsUsed(f) + 1 + SectorsNeeded(size) <= Capacity then 1 else 0)
      && if n == 1 then key in f' && |f'[key]| == (if size < 0 then 0 else size) && f' == f[key := f'[key]] else f' == f
    case RemoveOp(_) =>
      f' == f - {key} && n == if key in f then 1 else 0
    case WriteOp(_, data, position) =>
      if key !in f then n == 0 && f' == f
      else n == Clip(|f[key]|, |data|, position)
           && f' == f[key := if n == 0 then f[key] else Patch(f[key], position, data[..n])]
  }

  lemma {:induction false} NoFiles(d: Image)
    requires FsInv(d) && forall k :: FileIn(d, k) == None
    ensures FilesOn(d) == map[]
  {
    forall k ensures k !in FilesOn(d) {
      FilesOnIs(d, k);
    }
  }

  /** The maps agree in all other names. */
  ghost predicate AgreeBut(f: Files, f': Files, key: Name) {
    forall k :: k != key ==> (k in f' <==> k in f) && (k in f ==> f'[k] == f[k])
  }

  lemma {:induction false} SameElsewhere(d: Image, d': Image, key: Name)
    requires FsInv(d) && FsInv(d') && forall k :: k != key ==> FileIn(d', k) == FileIn(d, k)
    ensures AgreeBut(FilesOn(d), FilesOn(d'), key)
  {
    forall k | k != key
      ensures (k in FilesOn(d') <==> k in FilesOn(d)) && (k in FilesOn(d) ==> FilesOn(d')[k] == FilesOn(d)[k])
    {
      FilesOnIs(d, k);
      FilesOnIs(d', k);
    }
  }

  lemma {:induction false} CreateIs(f: Files, f': Files, name: Name, size: Int32, clear: int)
    requires clear + SectorsUsed(f) == Capacity && AgreeBut(f, f', Key(name))
    requires var ok := Key(name) !in f && |f| < NumDirEntries && clear >= 1 && clear >= 1 + SectorsFor(size);
      if ok then Key(name) in f' && |f'[Key(name)]| == (if size < 0 then 0 else size) else f' == f
    ensures Does(CreateOp(name, size), if Key(name) !in f && |f| < NumDirEntries && clear >= 1 && clear >= 1 + SectorsFor(size) then 1 else 0, f, f')
  {
    var key := Key(name);
    if key in f' {
      assert f' == f[key := f'[key]];
    }
  }

  lemma {:induction false} CreateDoes(d: Image, d': Image, name: Name, size: Int32, ok: bool)
    requires FsInv(d) && FsInv(d')
    requires ok <==> && FileIn(d, Key(name)) == None && (exists i :: 0 <= i < NumDirEntries && !TableIn(d)[i].inUse)
                     && CountClear(BitsIn(d)) >= 1 && CountClear(BitsIn(d)) >= 1 + SectorsFor(size)
    requires !ok ==> d' == d
    requires ok ==> FileIn(d', Key(name)).Some? && |FileIn(d', Key(name)).value| == if size < 0 then 0 else size
    requires forall k :: k != Key(name) ==> FileIn(d', k) == FileIn(d, k)
    ensures Does(CreateOp(name, size), if ok then 1 else 0, FilesOn(d), FilesOn(d'))
  {
    RoomIs(d);
    FilesOnIs(d, Key(name));
    FilesOnIs(d', Key(name));
    SameElsewhere(d, d', Key(name));
    CreateIs(FilesOn(d), FilesOn(d'), name, size, CountClear(BitsIn(d)));
  }

  lemma {:induction false} RemoveIs(f: Files, f': Files, name: Name)
    requires AgreeBut(f, f', Key(name)) && Key(name) !in f'
    ensures Does(RemoveOp(name), if Key(name) in f then 1 else 0, f, f')
  {
    assert f' == f - {Key(name)};
  }

  lemma {:induction false} RemoveDoes(d: Image, d': Image, name: Name, ok: bool)
    requires FsInv(d) && FsInv(d') && (ok <==> FileIn(d, Key(name)).Some?) && FileIn(d', Key(name)) == None
    requires forall k :: k != Key(name) ==> FileIn(d', k) == FileIn(d, k)
    ensures Does(RemoveOp(name), if ok then 1 else 0, FilesOn(d), FilesOn(d'))
  {
    FilesOnIs(d, Key(name));
    FilesOnIs(d', Key(name));
    SameElsewhere(d, d', Key(name));
    RemoveIs(FilesOn(d), FilesOn(d'), name);
  }

  lemma {:induction false} WriteIs(f: Files, f': Files, name: Name, data: seq<Byte>, position: nat, n: int)
    requires AgreeBut(f, f', Key(name)) && (Key(name) in f' <==> Key(name) in f)
    requires Key(name) !in f ==> n == 0
    requires Key(name) in f ==>
      var was := f[Key(name)];
      n == Clip(|was|, |data|, position) && f'[Key(name)] == (if n == 0 then was else Patch(was, position, data[..n]))
    ensures Does(WriteOp(name, data, position), n, f, f')
  {
    if Key(name) in f {
      assert f' == f[Key(name) := f'[Key(name)]];
    } else {
      assert f' == f;
    }
  }

  lemma {:induction false} WriteDoes(d: Image, d': Image, name: Name, data: seq<Byte>, position: nat, n: int)
    requires FsInv(d) && FsInv(d')
    requires FileIn(d, Key(name)) == None ==> n == 0 && d' == d
    requires FileIn(d, Key(name)).Some? ==>
      var was := FileIn(d, Key(name)).value;
      n == Clip(|was|, |data|, position) && FileIn(d', Key(name)) == Some(if n == 0 then was else Patch(was, position, data[..n]))
    requires forall k :: k != Key(name) ==> FileIn(d', k) == FileIn(d, k)
    ensures Does(WriteOp(name, data, position), n, FilesOn(d), FilesOn(d'))
  {
    FilesOnIs(d, Key(name));
    FilesOnIs(d', Key(name));
    SameElsewhere(d, d', Key(name));
    WriteIs(FilesOn(d), FilesOn(d'), name, data, position, n);
  }

  /** The files between the first n operations of a run. */
  ghost predicate IsTrace(ops: seq<Operation>, results: seq<int>, trace: seq<Files>, n: nat) {
    && |results| == n <= |ops| && |trace| == n + 1
    && forall i :: 0 <= i < n ==> Does(ops[i], results[i], trace[i], trace[i + 1])
  }

  lemma TraceStep(ops: seq<Operation>, results: seq<int>, trace: seq<Files>, n: nat, r: int, f: Files)
    requires IsTrace(ops, results, trace, n) && n < |ops| && Does(ops[n], r, trace[n], f)
    ensures IsTrace(ops, results + [r], trace + [f], n + 1)
  {
    var results', trace' := results + [r], trace + [f];
    forall i | 0 <= i < n + 1 ensures Does(ops[i], results'[i], trace'[i], trace'[i + 1]) {
      assert i < n ==> Does(ops[i], results[i], trace[i], trace[i + 1]);
    }
  }

  /** A file that no operation names is the same at the end of a run. */
  lemma {:induction false} UntouchedFile(ops: seq<Operation>, results: seq<int>, trace: seq<Files>, key: Name, n: nat)
    requires IsTrace(ops, results, trace, |ops|) && n <= |ops|
    requires forall i :: 0 <= i < n ==> Key(ops[i].name) != key
    ensures (key in trace[n] <==> key in trace[0]) && (key in trace[0] ==> trace[n][key] == trace[0][key])
  {
    if n > 0 {
      UntouchedFile(ops, results, trace, key, n - 1);
      assert Does(ops[n - 1], results[n - 1], trace[n - 1], trace[n - 1 + 1]);
    }
  }

  /** A file that is not removed stays, and keeps its length whatever is written to it. */
  lemma {:induction false} LengthIsFixed(ops: seq<Operation>, results: seq<int>, trace: seq<Files>, key: Name, n: nat)
    requires IsTrace(ops, results, trace, |ops|) && n <= |ops| && key in trace[0]
    requires forall i :: 0 <= i < n ==> !(ops[i].RemoveOp? && Key(ops[i].name) == key)
    ensures key in trace[n] && |trace[n][key]| == |trace[0][key]|
  {
    if n > 0 {
      LengthIsFixed(ops, results, trace, key, n - 1);
      assert Does(ops[n - 1], results[n - 1], trace[n - 1], trace[n - 1 + 1]);
    }
  }

  /** Format any disk and do anything with it: it starts empty, stays in order, and behaves as a map. */
  method FormatAndExecute(disk: SynchDisk, ops: seq<Operation>) returns (results: seq<int>, ghost trace: seq<Files>)
    requires forall op :: op in ops && op.CreateOp? ==> op.size <= MaxFileSize
    modifies disk
    ensures FsInv(disk.sectors) && IsTrace(ops, results, trace, |ops|)
    ensures trace[0] == map[] && trace[|ops|] == FilesOn(disk.sectors)
  {
    var fs := new FileSystem.Format(disk);
    NoFiles(disk.sectors);
    results, trace := fs.Execute(ops);
  }
}
