/** Reading and writing open files (code/filesys/openfile.cc:76-183).

    The disk moves whole sectors; ReadAt and WriteAt make a file look like a flat array of bytes. */
module OpenFiles {
  import opened Base
  import opened Disks
  import opened FileHeaders

  function Length(h: Header): nat {
    if h.numBytes < 0 then 0 else h.numBytes
  }

  lemma SectorInTable(h: Header, k: nat)
    requires HeaderOk(h) && k < Length(h)
    ensures k / SectorSize < |DataSectors(h)| && IsSector(h.dataSectors[k / SectorSize])
    ensures DataSectors(h)[k / SectorSize] == h.dataSectors[k / SectorSize]
  {
  }

  /** Byte k of the file with header h. */
  function FileByte(d: Image, h: Header, k: nat): Byte
    requires HeaderOk(h) && k < Length(h)
  {
    SectorInTable(h, k);
    d[h.dataSectors[k / SectorSize]][k % SectorSize]
  }

  /** The file as an array of bytes. */
  function Contents(d: Image, h: Header): (bytes: seq<Byte>)
    requires HeaderOk(h)
    ensures |bytes| == Length(h)
  {
    seq(Length(h), k requires 0 <= k < Length(h) => FileByte(d, h, k))
  }

  /** A file's contents depend on its own sectors only. */
  lemma ContentsFrame(d: Image, d': Image, h: Header)
    requires HeaderOk(h) && forall n :: n in DataSectors(h) ==> d'[n] == d[n]
    ensures Contents(d', h) == Contents(d, h)
  {
  }

  /** How many bytes a request transfers: none outside the file or if none are asked for, and never
      beyond the end. */
  function Clip(length: int, numBytes: int, position: int): (n: int)
    ensures n >= 0 && (n == 0 <==> numBytes <= 0 || position >= length)
    ensures n > 0 ==> n <= numBytes && position + n <= length && (n == numBytes || position + n == length)
  {
    if numBytes <= 0 || position >= length then 0
    else if position + numBytes > length then length - position
    else numBytes
  }

  /** Assignment into an array of bytes. */
  function Patch(bytes: seq<Byte>, position: nat, data: seq<Byte>): (r: seq<Byte>)
    requires position + |data| <= |bytes|
    ensures |r| == |bytes|
  {
    bytes[..position] + data + bytes[position + |data|..]
  }

  /** The bytes assigned are the new ones, and no other byte changes. */
  lemma PatchIs(bytes: seq<Byte>, position: nat, data: seq<Byte>, k: nat)
    requires position + |data| <= |bytes| && k < |bytes|
    ensures Patch(bytes, position, data)[k] == if position <= k < position + |data| then data[k - position] else bytes[k]
  {
  }

  /** Byte k of a file is byte k % 128 of its sector number k / 128. */
  lemma ContentsAre(d: Image, h: Header, k: nat)
    requires HeaderOk(h) && k < h.numBytes
    ensures k / 128 < |DataSectors(h)| && IsSector(DataSectors(h)[k / 128]) && Contents(d, h)[k] == d[DataSectors(h)[k / 128]][k % 128]
  {
    SectorInTable(h, k);
    assert Contents(d, h)[k] == FileByte(d, h, k);
  }

  /** bcopy into part of a buffer. */
  method CopyInto(buf: array<Byte>, offset: nat, data: seq<Byte>)
    requires offset + |data| <= buf.Length
    modifies buf
    ensures forall k :: offset <= k < offset + |data| ==> buf[k] == data[k - offset]
    ensures forall k :: 0 <= k < buf.Length && !(offset <= k < offset + |data|) ==> buf[k] == old(buf[k])
  {
    var i := 0;
    while i < |data|
      invariant 0 <= i <= |data|
      invariant forall k :: offset <= k < offset + i ==> buf[k] == data[k - offset]
      invariant forall k :: 0 <= k < buf.Length && !(offset <= k < offset + i) ==> buf[k] == old(buf[k])
    {
      buf[offset + i] := data[i];
      i := i + 1;
    }
  }

  /** What the file holds after sectors first to last were replaced by a buffer that agrees with
      `target`, if it held `target` in its other sectors already. */
  lemma ContentsAfterFlush(d: Image, d': Image, h: Header, buf: seq<Byte>, first: nat, last: nat, target: seq<Byte>)
    requires HeaderOk(h) && first <= last < |DataSectors(h)| && |buf| == (1 + last - first) * SectorSize
    requires forall n :: 0 <= n < NumSectors && n !in DataSectors(h)[first..last + 1] ==> d'[n] == d[n]
    requires forall i :: first <= i <= last ==>
               IsSector(h.dataSectors[i]) && d'[h.dataSectors[i]] == buf[(i - first) * SectorSize..(i - first + 1) * SectorSize]
    requires |target| == Length(h)
    requires forall k :: 0 <= k < |buf| && k + first * SectorSize < Length(h) ==> buf[k] == target[k + first * SectorSize]
    requires forall k :: 0 <= k < Length(h) && !(first <= k / SectorSize <= last) ==> target[k] == FileByte(d, h, k)
    ensures Contents(d', h) == target
  {
    forall k | 0 <= k < Length(h) ensures FileByte(d', h, k) == target[k] {
      SectorInTable(h, k);
      var i := k / SectorSize;
      if first <= i <= last {
        var j := k - first * SectorSize;
        assert (i - first) * SectorSize <= j && j - (i - first) * SectorSize == k % SectorSize;
        assert d'[h.dataSectors[i]][k % SectorSize] == buf[j];
      } else {
        assert h.dataSectors[i] !in DataSectors(h)[first..last + 1];
      }
    }
  }

  class OpenFile {
    const disk: SynchDisk
    const hdr: Header          // the header in memory
    var seekPosition: int

    ghost predicate Valid() {
      HeaderOk(hdr)
    }

    ghost function Bytes(): (bytes: seq<Byte>)
      requires Valid()
      reads disk
      ensures |bytes| == Length(hdr)
    {
      Contents(disk.sectors, hdr)
    }

    constructor (disk: SynchDisk, sector: int)
      requires IsSector(sector)
      ensures this.disk == disk && hdr == DecodeHeader(disk.sectors[sector]) && seekPosition == 0
    {
      this.disk := disk;
      this.hdr := DecodeHeader(disk.sectors[sector]);
      this.seekPosition := 0;
    }

    /** ReadAt returns exactly the requested slice of the file, cut off at its end. */
    method ReadAt(numBytes: int, position: int) returns (n: int, data: seq<Byte>)
      requires Valid() && position >= 0
      ensures n == Clip(Length(hdr), numBytes, position)
      ensures n >= 0 && (n == 0 <==> numBytes <= 0 || position >= hdr.numBytes)
      ensures n > 0 ==> n <= numBytes && position + n <= hdr.numBytes && (n == numBytes || position + n == hdr.numBytes)
      ensures n > 0 ==> data == Bytes()[position..position + n]
      ensures n == 0 ==> data == []
    {
      n := Clip(Length(hdr), numBytes, position);
      if n == 0 {
        return n, [];
      }
      var first := position / SectorSize;
      var last := (position + n - 1) / SectorSize;
      var buf: seq<Byte> := [];
      var i := first;
      while i <= last
        invariant first <= i <= last + 1 && |buf| == (i - first) * SectorSize
        invariant forall k :: first * SectorSize <= k < i * SectorSize && k < Length(hdr) ==>
                    buf[k - first * SectorSize] == Bytes()[k]
      {
        SectorInTable(hdr, if i == first then position else i * SectorSize);
        var sector := disk.ReadSector(hdr.dataSectors[i]);
        buf := buf + sector;
        i := i + 1;
      }
      var offset := position - first * SectorSize;
      data := buf[offset..offset + n];
      forall k | 0 <= k < n ensures data[k] == Bytes()[position..position + n][k] {
        assert first * SectorSize <= position + k < (last + 1) * SectorSize;
        assert buf[position + k - first * SectorSize] == Bytes()[position + k];
      }
    }

    /** Read the part of sector i of the file that lies within the file into the buffer, whose first
        byte stands for the first byte of sector `first`. */
    method ReadInto(buf: array<Byte>, i: int, first: int)
      requires Valid() && 0 <= first <= i && i * SectorSize < Length(hdr) && (1 + i - first) * SectorSize <= buf.Length
      modifies buf
      ensures forall k :: (i - first) * SectorSize <= k < (1 + i - first) * SectorSize && k + first * SectorSize < Length(hdr) ==>
                buf[k] == Bytes()[k + first * SectorSize]
      ensures forall k :: 0 <= k < (i - first) * SectorSize ==> buf[k] == old(buf[k])
    {
      var n, data := ReadAt(SectorSize, i * SectorSize);
      CopyInto(buf, (i - first) * SectorSize, data);
    }

    /** WriteAt's buffer: the sectors from first to last as they are to be written. The first and the
        last one are read in first if the request covers them in part; everything in the buffer that
        lies within the file is then as if the data had been assigned into the file. */
    method FillBuffer(data: seq<Byte>, position: int, first: int, last: int) returns (buf: array<Byte>)
      requires Valid() && position >= 0 && |data| > 0 && position + |data| <= Length(hdr)
      requires first == position / SectorSize && last == (position + |data| - 1) / SectorSize
      ensures fresh(buf) && buf.Length == (1 + last - first) * SectorSize
      ensures forall k :: 0 <= k < buf.Length && k + first * SectorSize < Length(hdr) ==>
                buf[k] == Patch(Bytes(), position, data)[k + first * SectorSize]
    {
      buf := new Byte[(1 + last - first) * SectorSize];
      var firstAligned := position == first * SectorSize;
      var lastAligned := position + |data| == (last + 1) * SectorSize;
      if !firstAligned {
        ReadInto(buf, first, first);
      }
      if !lastAligned && (first != last || firstAligned) {
        ReadInto(buf, last, first);
      }
      CopyInto(buf, position - first * SectorSize, data);
    }

    /** WriteAt's last loop: the buffer goes to the file's sectors first to last. */
    method Flush(buf: array<Byte>, first: int, last: int)
      requires Valid() && 0 <= first <= last < |DataSectors(hdr)| && buf.Length == (1 + last - first) * SectorSize
      modifies disk
      ensures forall n :: 0 <= n < NumSectors && n !in DataSectors(hdr)[first..last + 1] ==> disk.sectors[n] == old(disk.sectors)[n]
      ensures forall i :: first <= i <= last ==>
                IsSector(hdr.dataSectors[i]) && disk.sectors[hdr.dataSectors[i]] == buf[(i - first) * SectorSize..(i - first + 1) * SectorSize]
    {
      ghost var data := DataSectors(hdr);
      var i := first;
      while i <= last
        invariant first <= i <= last + 1
        invariant forall n :: 0 <= n < NumSectors && n !in data[first..last + 1] ==> disk.sectors[n] == old(disk.sectors)[n]
        invariant forall j :: first <= j < i ==>
                    IsSector(data[j]) && disk.sectors[data[j]] == buf[(j - first) * SectorSize..(j - first + 1) * SectorSize]
      {
        assert data[i] in data && data[i] == data[first..last + 1][i - first];
        disk.WriteSector(hdr.dataSectors[i], buf[(i - first) * SectorSize..(i - first + 1) * SectorSize]);
        i := i + 1;
      }
    }

    /** WriteAt is assignment into the file's array of bytes, cut off at its end, and touches no
        sector that is not the file's. */
    method WriteAt(from: seq<Byte>, numBytes: int, position: int) returns (n: int)
      requires Valid() && position >= 0 && numBytes <= |from|
      modifies disk
      ensures n == Clip(Length(hdr), numBytes, position)
      ensures n >= 0 && (n == 0 <==> numBytes <= 0 || position >= hdr.numBytes)
      ensures n > 0 ==> n <= numBytes && position + n <= hdr.numBytes && (n == numBytes || position + n == hdr.numBytes)
      ensures n == 0 ==> disk.sectors == old(disk.sectors)
      ensures n > 0 ==> Bytes() == Patch(old(Bytes()), position, from[..n])
      ensures forall k :: 0 <= k < NumSectors && k !in DataSectors(hdr) ==> disk.sectors[k] == old(disk.sectors)[k]
    {
      n := Clip(Length(hdr), numBytes, position);
      if n == 0 {
        return;
      }
      WriteRange(from[..n], position);
    }

    method WriteRange(data: seq<Byte>, position: int)
      requires Valid() && 0 <= position && data != [] && position + |data| <= Length(hdr)
      modifies disk
      ensures Bytes() == Patch(old(Bytes()), position, data)
      ensures forall k :: 0 <= k < NumSectors && k !in DataSectors(hdr) ==> disk.sectors[k] == old(disk.sectors)[k]
    {
      var first := position / SectorSize;
      var last := (position + |data| - 1) / SectorSize;
      SectorInTable(hdr, position + |data| - 1);
      var buf := FillBuffer(data, position, first, last);
      ghost var target := Patch(Bytes(), position, data);
      ghost var was := disk.sectors;
      Flush(buf, first, last);
      ContentsAfterFlush(was, disk.sectors, hdr, buf[..], first, last, target);
    }

    method Read(numBytes: int) returns (n: int, data: seq<Byte>)
      requires Valid() && seekPosition >= 0
      modifies this
      ensures n == Clip(Length(hdr), numBytes, old(seekPosition)) && seekPosition == old(seekPosition) + n
      ensures n >= 0 && (n == 0 <==> numBytes <= 0 || old(seekPosition) >= hdr.numBytes)
      ensures n > 0 ==> n <= numBytes && seekPosition <= hdr.numBytes && (n == numBytes || seekPosition == hdr.numBytes)
      ensures data == if n == 0 then [] else Bytes()[old(seekPosition)..seekPosition]
    {
      n, data := ReadAt(numBytes, seekPosition);
      seekPosition := seekPosition + n;
    }

    method Write(from: seq<Byte>, numBytes: int) returns (n: int)
      requires Valid() && seekPosition >= 0 && numBytes <= |from|
      modifies this, disk
      ensures n == Clip(Length(hdr), numBytes, old(seekPosition)) && seekPosition == old(seekPosition) + n
      ensures n >= 0 && (n == 0 <==> numBytes <= 0 || old(seekPosition) >= hdr.numBytes)
      ensures n > 0 ==> n <= numBytes && seekPosition <= hdr.numBytes && (n == numBytes || seekPosition == hdr.numBytes)
      ensures Bytes() == if n == 0 then old(Bytes()) else Patch(old(Bytes()), old(seekPosition), from[..n])
      ensures forall k :: 0 <= k < NumSectors && k !in DataSectors(hdr) ==> disk.sectors[k] == old(disk.sectors)[k]
    {
      n := WriteAt(from, numBytes, seekPosition);
      seekPosition := seekPosition + n;
    }

    /** What is written can be read back: the read returns the data, for every position and size. */
    method WriteThenRead(from: seq<Byte>, position: int) returns (n: int, data: seq<Byte>)
      requires Valid() && position >= 0
      modifies disk
      ensures n == Clip(Length(hdr), |from|, position) && data == from[..n]
    {
      n := WriteAt(from, |from|, position);
      var m;
      m, data := ReadAt(|from|, position);
    }
  }
}
