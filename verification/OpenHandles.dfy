/** Open files that are kept while others are created and removed (code/filesys/filesys.cc:174-286,
    code/filesys/openfile.cc:76-183): an open file has its own copy of the header, and Remove does not ask
    whether the file is open. */
module OpenHandles {
  import opened Base
  import opened Disks
  import opened Bitmaps
  import opened FileHeaders
  import opened OpenFiles
  import opened Directories
  import opened DiskImages
  import opened FileSystems
  import opened StaleWrites

  // ---------- Handles of files that are there ----------

  /** The header is that of the file under this key. */
  ghost predicate Live(d: Image, h: Header, key: Name) {
    FsInv(d) && var i := IndexOf(TableIn(d), key); i >= 0 && HdrAt(d, TableIn(d)[i].sector) == h
  }

  /** A handle is live under its name; without a name its file was removed. */
  ghost predicate HandleOk(d: Image, h: Header, name: Option<Name>) {
    HeaderOk(h) && (name.Some? ==> Live(d, h, name.value))
  }

  lemma {:induction false} LiveContents(d: Image, h: Header, key: Name)
    requires Live(d, h, key)
    ensures HeaderOk(h) && FileIn(d, key) == Some(Contents(d, h))
  {
    EntryHasSector(d, IndexOf(TableIn(d), key));
  }

  /** A directory entry and its header that are still there. */
  lemma {:induction false} StillLive(d: Image, d': Image, h: Header, key: Name, i: nat)
    requires Live(d, h, key) && FsInv(d') && i == IndexOf(TableIn(d), key)
    requires TableIn(d')[i] == TableIn(d)[i] && HdrAt(d', TableIn(d)[i].sector) == HdrAt(d, TableIn(d)[i].sector)
    ensures Live(d', h, key)
  {
    FoundIs(d', key, i);
  }

  lemma {:induction false} KeptEntry(d: Image, d': Image, h: Header, key: Name, slot: nat)
    requires Live(d, h, key) && FsInv(d') && slot < NumDirEntries && slot != IndexOf(TableIn(d), key)
    requires TableIn(d') == TableIn(d)[slot := TableIn(d')[slot]]
    requires forall i :: 0 <= i < NumDirEntries && TableIn(d)[i].inUse ==> SectorsSame(d, d', TableIn(d)[i])
    ensures Live(d', h, key)
  {
    var i := IndexOf(TableIn(d), key);
    EntryHasSector(d, i);
    SameContents(d, d', TableIn(d)[i]);
    StillLive(d, d', h, key, i);
  }

  lemma {:induction false} LiveAfterCreate(d: Image, d': Image, h: Header, key: Name, key': Name, size: Int32)
    requires Live(d, h, key) && WasCreated(d, d', key', size)
    ensures Live(d', h, key)
  {
    var slot: nat, hdr: Header, e: Entry, bits: seq<bool> :| hdr.numBytes == size && Created(d, d', slot, hdr, e, key', bits);
    LiveAfterCreated(d, d', h, key, slot, hdr, e, key', bits);
  }

  lemma {:induction false} LiveAfterCreated(d: Image, d': Image, h: Header, key: Name, slot: nat, hdr: Header, e: Entry, key': Name, bits: seq<bool>)
    requires Live(d, h, key) && Created(d, d', slot, hdr, e, key', bits)
    ensures Live(d', h, key)
  {
    CreatedImage(d, d', slot, hdr, e, key', bits);
    CreatedInv(d, d', slot, hdr, e, key', bits);
    assert slot != IndexOf(TableIn(d), key);
    KeptEntry(d, d', h, key, slot);
  }

  lemma {:induction false} LiveAfterRemove(d: Image, d': Image, h: Header, key: Name, key': Name)
    requires Live(d, h, key) && WasRemoved(d, d', key') && key != key'
    ensures Live(d', h, key)
  {
    var slot: nat, bits: seq<bool> :| Removed(d, d', slot, key', bits);
    RemovedInv(d, d', slot, key', bits);
    KeptEntry(d, d', h, key, slot);
  }

  lemma {:induction false} LiveAfterWrite(d: Image, d': Image, h: Header, key: Name, h': Header, key': Name)
    requires Live(d, h, key) && Live(d, h', key') && HeaderOk(h') && AgreeOutside(d, d', DataSectors(h'))
    ensures FsInv(d') && Live(d', h, key)
  {
    var i, j := IndexOf(TableIn(d), key), IndexOf(TableIn(d), key');
    WrittenInv(d, d', j, key');
    MetaKeptByWrite(d, d', j);
    OthersKeptByWrite(d, d', j);
    StillLive(d, d', h, key, i);
  }

  // ---------- Sessions ----------

  datatype HandleOp =
    | CreateFile(name: Name, size: Int32)
    | RemoveFile(name: Name)
    | OpenFor(name: Name)
    | ReadFrom(handle: nat, numBytes: int, position: nat)
    | WriteTo(handle: nat, data: seq<Byte>, position: nat)

  /** What a session looks like from outside: the files, and for each handle the file it is for, if that file
      has not been removed since it was opened. */
  datatype View = View(files: Files, names: seq<Option<Name>>)

  datatype Result = Result(n: int, data: seq<Byte>)

  /** Handles lose their file when it is removed; a new file of that name is another one. */
  function Without(names: seq<Option<Name>>, key: Name): seq<Option<Name>> {
    seq(|names|, i requires 0 <= i < |names| => if names[i] == Some(key) then None else names[i])
  }

  ghost predicate IsLive(v: View, handle: nat) {
    handle < |v.names| && v.names[handle].Some?
  }

  /** What an operation does. Reads and writes through a live handle are those of its file's bytes. */
  ghost predicate Meets(op: HandleOp, r: Result, v: View, v': View) {
    match op
    case CreateFile(name, size) => Does(CreateOp(name, size), r.n, v.files, v'.files) && v'.names == v.names
    case RemoveFile(name) => Does(RemoveOp(name), r.n, v.files, v'.files) && v'.names == Without(v.names, Key(name))
    case OpenFor(name) =>
      && r.n == (if Key(name) in v.files then 1 else 0) && v'.files == v.files
      && v'.names == if r.n == 1 then v.names + [Some(Key(name))] else v.names
    case ReadFrom(i, numBytes, position) =>
      && v' == v
      && (IsLive(v, i) ==>
            && var key := v.names[i].value;
            && key in v.files && r.n == Clip(|v.files[key]|, numBytes, position)
            && r.data == if r.n == 0 then [] else v.files[key][position..position + r.n])
    case WriteTo(i, data, position) =>
      if IsLive(v, i) then Does(WriteOp(v.names[i].value, data, position), r.n, v.files, v'.files) && v'.names == v.names
      else v' == v
  }

  /** A write through a handle whose file was removed. */
  ghost predicate IsStaleWrite(op: HandleOp, v: View) {
    op.WriteTo? && op.handle < |v.names| && v.names[op.handle].None?
  }

  class Session {
    const fs: FileSystem
    var handles: seq<OpenFile>
    ghost var names: seq<Option<Name>>

    ghost predicate Valid()
      reads this, fs.disk
    {
      && fs.Valid() && |names| == |handles|
      && forall i :: 0 <= i < |handles| ==> handles[i].disk == fs.disk && HandleOk(fs.disk.sectors, handles[i].hdr, names[i])
    }

    ghost function Outside(): View
      requires Valid()
      reads this, fs.disk
    {
      View(FilesOn(fs.disk.sectors), names)
    }

    constructor (fs: FileSystem)
      requires fs.Valid()
      ensures this.fs == fs && Valid() && Outside() == View(FilesOn(fs.disk.sectors), [])
    {
      this.fs, handles, names := fs, [], [];
    }

    method DoCreate(name: Name, size: Int32) returns (r: Result)
      requires Valid() && size <= MaxFileSize
      modifies this, fs.disk
      ensures Valid() && Meets(CreateFile(name, size), r, old(Outside()), Outside())
    {
      ghost var d := fs.disk.sectors;
      var ok := fs.Create(name, size);
      CreateDoes(d, fs.disk.sectors, name, size, ok);
      forall i | 0 <= i < |handles| ensures HandleOk(fs.disk.sectors, handles[i].hdr, names[i]) {
        if ok && names[i].Some? {
          LiveAfterCreate(d, fs.disk.sectors, handles[i].hdr, names[i].value, Key(name), size);
        }
      }
      r := Result(if ok then 1 else 0, []);
    }

    method DoRemove(name: Name) returns (r: Result)
      requires Valid()
      modifies this, fs.disk
      ensures Valid() && Meets(RemoveFile(name), r, old(Outside()), Outside())
    {
      ghost var d := fs.disk.sectors;
      var ok := fs.Remove(name);
      RemoveDoes(d, fs.disk.sectors, name, ok);
      forall i | 0 <= i < |handles| ensures HandleOk(fs.disk.sectors, handles[i].hdr, Without(names, Key(name))[i]) {
        if names[i].Some? && names[i] != Some(Key(name)) && ok {
          LiveAfterRemove(d, fs.disk.sectors, handles[i].hdr, names[i].value, Key(name));
        }
      }
      names := Without(names, Key(name));
      r := Result(if ok then 1 else 0, []);
    }

    method DoOpen(name: Name) returns (r: Result)
      requires Valid()
      modifies this
      ensures Valid() && Meets(OpenFor(name), r, old(Outside()), Outside())
    {
      FilesOnIs(fs.disk.sectors, Key(name));
      var file := fs.Open(name);
      if file == null {
        return Result(0, []);
      }
      handles, names := handles + [file], names + [Some(Key(name))];
      r := Result(1, []);
    }

    method DoRead(i: nat, numBytes: int, position: nat) returns (r: Result)
      requires Valid()
      ensures Meets(ReadFrom(i, numBytes, position), r, Outside(), Outside())
    {
      if i >= |handles| {
        return Result(0, []);
      }
      if names[i].Some? {
        LiveContents(fs.disk.sectors, handles[i].hdr, names[i].value);
        FilesOnIs(fs.disk.sectors, names[i].value);
      }
      var n, data := handles[i].ReadAt(numBytes, position);
      r := Result(n, data);
    }

    method DoWrite(i: nat, data: seq<Byte>, position: nat) returns (r: Result)
      requires Valid() && !IsStaleWrite(WriteTo(i, data, position), Outside())
      modifies fs.disk
      ensures Valid() && Meets(WriteTo(i, data, position), r, old(Outside()), Outside())
    {
      if i >= |handles| {
        return Result(0, []);
      }
      ghost var d, key, h := fs.disk.sectors, names[i].value, handles[i].hdr;
      LiveContents(d, h, key);
      var n := handles[i].WriteAt(data, |data|, position);
      r := Result(n, []);
      WrittenInv(d, fs.disk.sectors, IndexOf(TableIn(d), key), key);
      forall j | 0 <= j < |handles| ensures HandleOk(fs.disk.sectors, handles[j].hdr, names[j]) {
        if names[j].Some? {
          LiveAfterWrite(d, fs.disk.sectors, handles[j].hdr, names[j].value, h, key);
        }
      }
      WriteDoes(d, fs.disk.sectors, key, data, position, n);
    }

    method Perform(op: HandleOp) returns (r: Result)
      requires Valid() && (op.CreateFile? ==> op.size <= MaxFileSize) && !IsStaleWrite(op, Outside())
      modifies this, fs.disk
      ensures Valid() && Meets(op, r, old(Outside()), Outside())
    {
      match op
      case CreateFile(name, size) => r := DoCreate(name, size);
      case RemoveFile(name) => r := DoRemove(name);
      case OpenFor(name) => r := DoOpen(name);
      case ReadFrom(i, numBytes, position) => r := DoRead(i, numBytes, position);
      case WriteTo(i, data, position) => r := DoWrite(i, data, position);
    }
  }

  /** What the first n operations did. */
  ghost predicate IsHistory(ops: seq<HandleOp>, results: seq<Result>, views: seq<View>, n: nat) {
    && n == |results| <= |ops| && |views| == n + 1
    && forall i {:trigger Meets(ops[i], results[i], views[i], views[i + 1])} :: 0 <= i < n ==>
         Meets(ops[i], results[i], views[i], views[i + 1])
  }

  lemma {:induction false} HistoryMore(ops: seq<HandleOp>, results: seq<Result>, views: seq<View>, n: nat, r: Result, v: View)
    requires IsHistory(ops, results, views, n) && n < |ops| && Meets(ops[n], r, views[n], v)
    ensures IsHistory(ops, results + [r], views + [v], n + 1)
  {
    var results', views' := results + [r], views + [v];
    forall i | 0 <= i < n + 1 ensures Meets(ops[i], results'[i], views'[i], views'[i + 1]) {
      if i < n {
        assert Meets(ops[i], results[i], views[i], views[i + 1]);
      }
    }
  }

  /** The operations never write through a handle whose file was removed, as far as the files and the results
      tell. */
  ghost predicate Careful(ops: seq<HandleOp>, files: Files) {
    forall results, views, n: nat :: IsHistory(ops, results, views, n) && n < |ops| && views[0] == View(files, []) ==>
      !IsStaleWrite(ops[n], views[n])
  }

  /** Any sequence of operations, with any number of files open at a time, that never writes to a removed file:
      the disk stays in order, and every result is that of a map from names to bytes. */
  method RunSession(fs: FileSystem, ops: seq<HandleOp>) returns (results: seq<Result>, ghost views: seq<View>)
    requires fs.Valid() && forall op :: op in ops && op.CreateFile? ==> op.size <= MaxFileSize
    requires Careful(ops, FilesOn(fs.disk.sectors))
    modifies fs.disk
    ensures fs.Valid() && IsHistory(ops, results, views, |ops|)
    ensures views[0] == View(old(FilesOn(fs.disk.sectors)), []) && views[|ops|].files == FilesOn(fs.disk.sectors)
  {
    var s := new Session(fs);
    results, views := [], [s.Outside()];
    for i := 0 to |ops|
      invariant s.fs == fs && s.Valid() && fresh(s) && IsHistory(ops, results, views, i) && s.Outside() == views[i]
      invariant views[0] == View(old(FilesOn(fs.disk.sectors)), [])
    {
      var r := s.Perform(ops[i]);
      HistoryMore(ops, results, views, i, r, s.Outside());
      results, views := results + [r], views + [s.Outside()];
    }
  }
  /** A write through a handle whose file was removed leaves the disk as it is while the handle's sectors are clear
      in the map. Module StaleWrites has the converse: as soon as one of them is taken again, some write of that
      sector destroys something. */
  method WriteStale(fs: FileSystem, file: OpenFile, data: seq<Byte>, position: nat) returns (n: int)
    requires fs.Valid() && file.disk == fs.disk && file.Valid()
    requires forall s :: s in DataSectors(file.hdr) ==> !BitsIn(fs.disk.sectors)[s]
    modifies fs.disk
    ensures fs.Valid() && SameDisk(old(fs.disk.sectors), fs.disk.sectors) && n == Clip(Length(file.hdr), |data|, position)
  {
    ghost var d := fs.disk.sectors;
    n := file.WriteAt(data, |data|, position);
    ClearIsHarmless(d, fs.disk.sectors, DataSectors(file.hdr));
  }
}
