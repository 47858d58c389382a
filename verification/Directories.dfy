/** The directory of files (code/filesys/directory.cc) and the free map in its file
    (code/filesys/pbitmap.cc). */
module Directories {
  import opened Base
  import opened Disks
  import opened Bitmaps
  import opened FileHeaders
  import opened OpenFiles

  // ---------- Names ----------

  const FileNameMaxLen := 9

  /** A C string, without its terminating NUL. */
  type Name = s: seq<Byte> | 0 !in s

  function CharAt(name: Name, i: nat): Byte {
    if i < |name| then name[i] else 0
  }

  /** The two names compare equal from character i on, up to FileNameMaxLen or the end of both. */
  predicate SameFrom(field: seq<Byte>, name: Name, i: nat)
    requires |field| == FileNameMaxLen + 1 && i <= FileNameMaxLen
    decreases FileNameMaxLen - i
  {
    i < FileNameMaxLen ==>
      field[i] == CharAt(name, i) && (field[i] != 0 ==> SameFrom(field, name, i + 1))
  }

  /** The field after a name was copied into it: padded with NULs, last character of the field untouched. */
  function CopyName(field: seq<Byte>, name: Name): (r: seq<Byte>)
    requires |field| == FileNameMaxLen + 1
    ensures |r| == |field|
  {
    seq(FileNameMaxLen, i requires i >= 0 => CharAt(name, i)) + field[FileNameMaxLen..]
  }

  /** What counts of a name: its first nine characters. */
  function Key(name: Name): Name {
    if |name| <= FileNameMaxLen then name else name[..FileNameMaxLen]
  }

  /** The name a field holds, from character i on. */
  function StoredFrom(field: seq<Byte>, i: nat): (key: Name)
    requires |field| == FileNameMaxLen + 1 && i <= FileNameMaxLen
    ensures |key| <= FileNameMaxLen - i
    decreases FileNameMaxLen - i
  {
    if i == FileNameMaxLen || field[i] == 0 then [] else [field[i]] + StoredFrom(field, i + 1)
  }

  lemma {:induction false} SameFromIsKeyEquality(field: seq<Byte>, name: Name, i: nat)
    requires |field| == FileNameMaxLen + 1 && i <= FileNameMaxLen && i <= |name|
    ensures SameFrom(field, name, i) <==> StoredFrom(field, i) == Key(name)[i..]
    decreases FileNameMaxLen - i
  {
    if i < FileNameMaxLen && i < |name| {
      SameFromIsKeyEquality(field, name, i + 1);
      assert Key(name)[i..] == [Key(name)[i]] + Key(name)[i + 1..];
      assert name[i] in name;
      if StoredFrom(field, i) == Key(name)[i..] {
        assert StoredFrom(field, i)[0] == name[i];
        assert StoredFrom(field, i)[1..] == Key(name)[i..][1..];
      }
    }
  }

  /** The stored name matches exactly when the first nine characters are the same. */
  lemma MatchIsKeyEquality(field: seq<Byte>, name: Name)
    requires |field| == FileNameMaxLen + 1
    ensures SameFrom(field, name, 0) <==> StoredFrom(field, 0) == Key(name)
  {
    SameFromIsKeyEquality(field, name, 0);
    assert Key(name)[0..] == Key(name);
  }

  lemma {:induction false} CopyMatchesFrom(field: seq<Byte>, name: Name, i: nat)
    requires |field| == FileNameMaxLen + 1 && i <= FileNameMaxLen
    ensures SameFrom(CopyName(field, name), name, i)
    decreases FileNameMaxLen - i
  {
    if i < FileNameMaxLen {
      CopyMatchesFrom(field, name, i + 1);
    }
  }

  /** A copied name is stored under its first nine characters. */
  lemma CopyStoresKey(field: seq<Byte>, name: Name)
    requires |field| == FileNameMaxLen + 1
    ensures StoredFrom(CopyName(field, name), 0) == Key(name)
  {
    CopyMatchesFrom(field, name, 0);
    MatchIsKeyEquality(CopyName(field, name), name);
  }

  // ---------- Entries ----------

  /** A DirectoryEntry as the compiler lays it out: 20 bytes, with padding after the flag and the name. */
  datatype RawEntry = RawEntry(inUse: bool, pad: seq<Byte>, sector: Int32, name: seq<Byte>, tail: seq<Byte>)

  type Entry = e: RawEntry | |e.pad| == 3 && |e.name| == FileNameMaxLen + 1 && |e.tail| == 2
    witness RawEntry(false, [0, 0, 0], 0, seq(FileNameMaxLen + 1, _ => 0), [0, 0])

  const EntrySize := 20

  function EncodeEntry(e: Entry): (bytes: seq<Byte>)
    ensures |bytes| == EntrySize
  {
    [if e.inUse then 1 else 0] + e.pad + EncodeInts([e.sector]) + e.name + e.tail
  }

  function DecodeEntry(b: seq<Byte>): Entry
    requires |b| == EntrySize
  {
    RawEntry(b[0] != 0, b[1..4], IntOf(b[4], b[5], b[6], b[7]), b[8..18], b[18..20])
  }

  /** Where the fields are in an entry: the flag, three bytes that do not matter, the sector, the name. */
  lemma EntryLayout(b: seq<Byte>)
    requires |b| == 20
    ensures var e := DecodeEntry(b); (e.inUse <==> b[0] != 0) && IntAt(b, 4, e.sector) && |e.name| == 10 && forall k :: 0 <= k < 10 ==> e.name[k] == b[8 + k]
  {
  }

  lemma EntryRoundTrip(e: Entry)
    ensures DecodeEntry(EncodeEntry(e)) == e
  {
    var b := EncodeEntry(e);
    IntRoundTrip(e.sector);
    var ints := EncodeInts([e.sector]);
    assert b[4] == ints[0] && b[5] == ints[1] && b[6] == ints[2] && b[7] == ints[3];
    assert b[1..4] == e.pad && b[8..18] == e.name && b[18..20] == e.tail;
  }

  function EncodeTable(table: seq<Entry>): (bytes: seq<Byte>)
    ensures |bytes| == EntrySize * |table|
  {
    if table == [] then [] else EncodeEntry(table[0]) + EncodeTable(table[1..])
  }

  function DecodeTable(bytes: seq<Byte>, n: nat): (table: seq<Entry>)
    requires |bytes| == EntrySize * n
    ensures |table| == n
  {
    if n == 0 then [] else [DecodeEntry(bytes[..EntrySize])] + DecodeTable(bytes[EntrySize..], n - 1)
  }

  /** A directory written back and fetched again is the same directory. */
  lemma {:induction false} TableRoundTrip(table: seq<Entry>)
    ensures DecodeTable(EncodeTable(table), |table|) == table
  {
    if table != [] {
      EntryRoundTrip(table[0]);
      TableRoundTrip(table[1..]);
      assert EncodeTable(table)[..EntrySize] == EncodeEntry(table[0]);
      assert EncodeTable(table)[EntrySize..] == EncodeTable(table[1..]);
    }
  }

  /** The entry is in use for the file with this key. */
  predicate Holds(e: Entry, key: Name) {
    e.inUse && StoredFrom(e.name, 0) == key
  }

  /** No two entries in use have the same first nine characters. */
  ghost predicate UniqueNames(table: seq<Entry>) {
    forall i, j :: 0 <= i < j < |table| && table[i].inUse && table[j].inUse
                   ==> StoredFrom(table[i].name, 0) != StoredFrom(table[j].name, 0)
  }

  // ---------- The source's objects ----------

  class Directory {
    const table: array<Entry>

    /** All entries are free; their other fields are whatever was in memory. */
    constructor (size: nat)
      ensures fresh(table) && table.Length == size
      ensures forall i :: 0 <= i < size ==> !table[i].inUse
    {
      table := new Entry[size];
      new;
      var i := 0;
      while i < size
        invariant 0 <= i <= size
        invariant forall k :: 0 <= k < i ==> !table[k].inUse
      {
        table[i] := table[i].(inUse := false);
        i := i + 1;
      }
    }

    method FetchFrom(file: OpenFile)
      requires file.Valid() && Length(file.hdr) == EntrySize * table.Length
      modifies table
      ensures table[..] == DecodeTable(file.Bytes(), table.Length)
    {
      var n, data := file.ReadAt(table.Length * EntrySize, 0);
      assert data == file.Bytes();
      var entries := DecodeTable(data, table.Length);
      var i := 0;
      while i < table.Length
        invariant 0 <= i <= table.Length
        invariant forall k :: 0 <= k < i ==> table[k] == entries[k]
      {
        table[i] := entries[i];
        i := i + 1;
      }
    }

    method WriteBack(file: OpenFile)
      requires file.Valid() && Length(file.hdr) == EntrySize * table.Length
      modifies file.disk
      ensures file.Bytes() == EncodeTable(table[..])
      ensures forall k :: 0 <= k < NumSectors && k !in DataSectors(file.hdr) ==> file.disk.sectors[k] == old(file.disk.sectors)[k]
    {
      var data := EncodeTable(table[..]);
      ghost var was := file.Bytes();
      var n := file.WriteAt(data, table.Length * EntrySize, 0);
      if n > 0 {
        assert data[..n] == data;
        assert Patch(was, 0, data) == data;
      } else {
        assert file.Bytes() == [] == data;
      }
    }

    /** The first entry in use for the name, -1 if there is none. */
    method FindIndex(name: Name) returns (index: int)
      ensures -1 <= index < table.Length
      ensures index >= 0 ==> Holds(table[index], Key(name)) && forall i :: 0 <= i < index ==> !Holds(table[i], Key(name))
      ensures index == -1 ==> forall i :: 0 <= i < table.Length ==> !Holds(table[i], Key(name))
    {
      var i := 0;
      while i < table.Length
        invariant 0 <= i <= table.Length
        invariant forall k :: 0 <= k < i ==> !Holds(table[k], Key(name))
      {
        MatchIsKeyEquality(table[i].name, name);
        if table[i].inUse && SameFrom(table[i].name, name, 0) {
          return i;
        }
        i := i + 1;
      }
      index := -1;
    }

    method Find(name: Name) returns (sector: int, ghost index: int)
      ensures -1 <= index < table.Length
      ensures index >= 0 ==> Holds(table[index], Key(name)) && sector == table[index].sector
      ensures index == -1 ==> sector == -1 && forall i :: 0 <= i < table.Length ==> !Holds(table[i], Key(name))
      ensures sector == -1 || exists i :: 0 <= i < table.Length && Holds(table[i], Key(name)) && sector == table[i].sector
    {
      var i := FindIndex(name);
      index := i;
      sector := if i != -1 then table[i].sector else -1;
    }

    /** Use the first free entry for the name. This fails, changing nothing, exactly if the name is
        there already or no entry is free. */
    method Add(name: Name, newSector: Int32) returns (ok: bool, ghost slot: int)
      modifies table
      ensures ok <==> (forall i :: 0 <= i < table.Length ==> !Holds(old(table[..])[i], Key(name)))
                      && exists i :: 0 <= i < table.Length && !old(table[..])[i].inUse
      ensures !ok ==> table[..] == old(table[..])
      ensures ok ==> 0 <= slot < table.Length && !old(table[..])[slot].inUse
      ensures ok ==> table[..] == old(table[..])[slot := table[slot]]
      ensures ok ==> Holds(table[slot], Key(name)) && table[slot].sector == newSector
    {
      var found := FindIndex(name);
      if found != -1 {
        return false, -1;
      }
      var i := 0;
      while i < table.Length
        invariant 0 <= i <= table.Length && table[..] == old(table[..])
        invariant forall k :: 0 <= k < i ==> table[k].inUse
      {
        if !table[i].inUse {
          CopyStoresKey(table[i].name, name);
          table[i] := table[i].(inUse := true, name := CopyName(table[i].name, name), sector := newSector);
          return true, i;
        }
        i := i + 1;
      }
      return false, -1;
    }

    method Remove(name: Name) returns (ok: bool)
      modifies table
      ensures ok <==> exists i :: 0 <= i < table.Length && Holds(old(table[..])[i], Key(name))
      ensures !ok ==> table[..] == old(table[..])
      ensures ok ==> exists i :: 0 <= i < table.Length && Holds(old(table[..])[i], Key(name))
                                 && table[..] == old(table[..])[i := old(table[..])[i].(inUse := false)]
    {
      var i := FindIndex(name);
      if i == -1 {
        return false;
      }
      ghost var was := table[..];
      assert Holds(was[i], Key(name));
      table[i] := table[i].(inUse := false);
      assert table[..] == was[i := was[i].(inUse := false)];
      return true;
    }
  }

  /** The free map as its file holds it. */
  function MapBits(bytes: seq<Byte>): (bits: seq<bool>)
    requires |bytes| == NumSectors / 8
    ensures |bits| == NumSectors
  {
    BitsOf(DecodeWords(bytes, NumSectors / 32), NumSectors)
  }

  ghost predicate IsFreeMap(map0: Bitmap) {
    map0.Valid() && map0.numBits == NumSectors && map0.words.Length == NumSectors / 32
  }

  /** PersistentBitmap::FetchFrom. */
  method FetchMap(freeMap: Bitmap, file: OpenFile)
    requires IsFreeMap(freeMap) && file.Valid() && Length(file.hdr) == NumSectors / 8
    modifies freeMap.words
    ensures freeMap.Bits() == MapBits(file.Bytes())
  {
    var n, data := file.ReadAt(4 * freeMap.words.Length, 0);
    assert data == file.Bytes();
    freeMap.Overwrite(DecodeWords(data, NumSectors / 32));
  }

  /** PersistentBitmap::WriteBack. */
  method WriteMap(freeMap: Bitmap, file: OpenFile)
    requires IsFreeMap(freeMap) && file.Valid() && Length(file.hdr) == NumSectors / 8
    modifies file.disk
    ensures MapBits(file.Bytes()) == freeMap.Bits()
    ensures forall k :: 0 <= k < NumSectors && k !in DataSectors(file.hdr) ==> file.disk.sectors[k] == old(file.disk.sectors)[k]
  {
    var data := EncodeWords(freeMap.words[..]);
    ghost var was := file.Bytes();
    var n := file.WriteAt(data, 4 * freeMap.words.Length, 0);
    assert data[..n] == data;
    assert Patch(was, 0, data) == data;
    WordsRoundTrip(freeMap.words[..]);
  }
}
