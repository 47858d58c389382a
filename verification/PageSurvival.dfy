/** What a page holds when it is accessed again (code/userprog/exception.cc:195-305).

    A page can be evicted between two accesses, written back to its program's file if it is dirty, and filled
    again from that file; the two offsets differ in general, several address spaces may use one file, and
    bytes in no segment stay as the frame had them. This module states when a page is safe and proves that safe
    pages keep their contents in every run; module PageLoss has the converse and the theorems. */
module PageSurvival {
  import opened Base
  import opened Disks
  import opened OpenFiles
  import opened NoffFiles
  import opened VirtualMemory

  // ---------- Contents of a page and of its place in the file ----------

  predicate InPage(vpn: nat, a: int) {
    vpn * PageSize <= a < (vpn + 1) * PageSize
  }

  /** The file holds these bytes where the page is filled from, every one of them. */
  ghost predicate FileHas(p: Program, file: seq<Byte>, vpn: nat, bytes: seq<Byte>) {
    |bytes| == PageSize &&
    forall a :: InPage(vpn, a) ==>
      var o := FileOffset(p, a);
      o.Some? && 0 <= o.value < |file| && file[o.value] == bytes[a - vpn * PageSize]
  }

  /** Every byte of the page comes from the file. */
  ghost predicate Mapped(p: Program, size: nat, vpn: nat) {
    forall a :: InPage(vpn, a) ==> FileOffset(p, a).Some? && 0 <= FileOffset(p, a).value < size
  }

  /** Every byte of the page comes from the offset in the file at which write-back puts it. */
  ghost predicate MappedInPlace(p: Program, size: nat, vpn: nat) {
    forall a :: InPage(vpn, a) ==> FileOffset(p, a) == Some(a) && a < size
  }

  lemma {:induction false} FillGives(p: Program, file: seq<Byte>, vpn: nat, bytes: seq<Byte>, frame: seq<Byte>)
    requires FileHas(p, file, vpn, bytes) && |frame| == PageSize
    ensures FillPage(p, file, vpn, frame) == bytes
  {
    forall i | 0 <= i < PageSize ensures FillPage(p, file, vpn, frame)[i] == bytes[i] {
      assert InPage(vpn, vpn * PageSize + i);
    }
  }

  lemma {:induction false} FilledHas(p: Program, file: seq<Byte>, vpn: nat, frame: seq<Byte>)
    requires Mapped(p, |file|, vpn) && |frame| == PageSize
    ensures FileHas(p, file, vpn, FillPage(p, file, vpn, frame))
  {
    var page := FillPage(p, file, vpn, frame);
    forall a | InPage(vpn, a) ensures file[FileOffset(p, a).value] == page[a - vpn * PageSize] {
      assert page[a - vpn * PageSize] == FillByte(p, file, vpn * PageSize + (a - vpn * PageSize), frame[a - vpn * PageSize]);
    }
  }

  /** Byte o of a file after a page was written back. */
  lemma {:induction false} WriteBackAt(file: seq<Byte>, page: seq<Byte>, vpn: nat, o: nat)
    requires |page| == PageSize && o < |file|
    ensures WriteBack(file, page, vpn)[o] == if InPage(vpn, o) then page[o - vpn * PageSize] else file[o]
  {
  }

  lemma {:induction false} WriteBackHas(p: Program, file: seq<Byte>, vpn: nat, bytes: seq<Byte>)
    requires MappedInPlace(p, |file|, vpn) && |bytes| == PageSize
    ensures FileHas(p, WriteBack(file, bytes, vpn), vpn, bytes)
  {
    forall a | InPage(vpn, a) ensures FileOffset(p, a) == Some(a) && a < |file|
      ensures WriteBack(file, bytes, vpn)[a] == bytes[a - vpn * PageSize]
    {
      WriteBackAt(file, bytes, vpn, a);
    }
  }

  /** No byte of the page comes from where page w is written back. */
  ghost predicate Elsewhere(p: Program, vpn: nat, w: nat) {
    forall a :: InPage(vpn, a) && FileOffset(p, a).Some? ==> !InPage(w, FileOffset(p, a).value)
  }

  lemma {:induction false} WriteBackElsewhere(p: Program, file: seq<Byte>, vpn: nat, bytes: seq<Byte>, page: seq<Byte>, w: nat)
    requires FileHas(p, file, vpn, bytes) && |page| == PageSize && Elsewhere(p, vpn, w)
    ensures FileHas(p, WriteBack(file, page, w), vpn, bytes)
  {
    forall a | InPage(vpn, a) ensures WriteBack(file, page, w)[FileOffset(p, a).value] == bytes[a - vpn * PageSize] {
      WriteBackAt(file, page, w, FileOffset(p, a).value);
    }
  }

  // ---------- The conditions ----------

  /** The programs that are loaded in a run, and the files as they are at the start. */
  ghost predicate Programs(spaces: seq<Space>, files: map<File, seq<Byte>>) {
    && spaces != []
    && (forall s :: 0 <= s < |spaces| ==> spaces[s].file in files && spaces[s].numPages <= NumPhysPages)
    && (forall s {:trigger Describes(files, spaces[s])} :: 0 <= s < |spaces| ==> Describes(files, spaces[s]))
  }

  /** No other page within reach is written back to where this one is filled from. */
  ghost predicate Undisturbed(spaces: seq<Space>, p: Page)
    requires p.space < |spaces|
  {
    forall q :: Accessible(spaces, q) && q != p && spaces[q.space].file == spaces[p.space].file ==>
      Elsewhere(spaces[p.space].program, p.vpn, q.vpn)
  }

  /** The first program is copied into memory when it is loaded; that copy is what a fault would fill in. */
  ghost predicate LoadedAsFilled(sp: Space, file: seq<Byte>, vpn: nat) {
    FileHas(sp.program, file, vpn, LoadPage(sp.program, file, vpn))
  }

  /** What makes a page that is only read keep its contents. */
  ghost predicate ReadSafe(spaces: seq<Space>, files: map<File, seq<Byte>>, p: Page)
    requires Programs(spaces, files) && p.space < |spaces|
  {
    var sp := spaces[p.space];
    && Mapped(sp.program, |files[sp.file]|, p.vpn)
    && Undisturbed(spaces, p)
    && (p.space == 0 ==> LoadedAsFilled(sp, files[sp.file], p.vpn))
  }

  /** What makes a page that may be written, too, keep its contents. */
  ghost predicate WriteSafe(spaces: seq<Space>, files: map<File, seq<Byte>>, p: Page)
    requires Programs(spaces, files) && p.space < |spaces|
  {
    ReadSafe(spaces, files, p) && MappedInPlace(spaces[p.space].program, |files[spaces[p.space].file]|, p.vpn)
  }

  /** No address of the page is in two segments of the program. */
  ghost predicate SegmentsApart(p: Program, vpn: nat) {
    forall a :: InPage(vpn, a) ==>
      && !(InSegment(p.code, a) && InSegment(p.data, a)) && !(InSegment(p.code, a) && InSegment(p.readOnlyData, a))
      && !(InSegment(p.data, a) && InSegment(p.readOnlyData, a))
  }

  lemma {:induction false} LoadedAsMapped(sp: Space, file: seq<Byte>, vpn: nat)
    requires SegmentsApart(sp.program, vpn) && Mapped(sp.program, |file|, vpn)
    ensures LoadedAsFilled(sp, file, vpn)
  {
    var page := LoadPage(sp.program, file, vpn);
    forall a | InPage(vpn, a) ensures file[FileOffset(sp.program, a).value] == page[a - vpn * PageSize] {
      assert page[a - vpn * PageSize] == LoadByte(sp.program, file, vpn * PageSize + (a - vpn * PageSize), 0);
      LoadAgreesWithFill(sp.program, file, a, 0);
    }
  }

  /** For a program whose segments do not overlap on the page, only where the segments are decides. */
  lemma {:induction false} ReadSafeIff(spaces: seq<Space>, files: map<File, seq<Byte>>, p: Page)
    requires Programs(spaces, files) && p.space < |spaces| && SegmentsApart(spaces[p.space].program, p.vpn)
    ensures ReadSafe(spaces, files, p) <==>
      Mapped(spaces[p.space].program, |files[spaces[p.space].file]|, p.vpn) && Undisturbed(spaces, p)
  {
    var sp := spaces[p.space];
    if Mapped(sp.program, |files[sp.file]|, p.vpn) {
      LoadedAsMapped(sp, files[sp.file], p.vpn);
    }
  }

  /** For a page mapped in place the only danger is another address space with the same file. */
  lemma {:induction false} UndisturbedInPlace(spaces: seq<Space>, p: Page, size: nat)
    requires p.space < |spaces| && MappedInPlace(spaces[p.space].program, size, p.vpn)
    ensures Undisturbed(spaces, p) <==>
      forall t :: 0 <= t < |spaces| && t != p.space && spaces[t].file == spaces[p.space].file ==> p.vpn >= spaces[t].numPages
  {
    var program := spaces[p.space].program;
    assert InPage(p.vpn, p.vpn * PageSize) && FileOffset(program, p.vpn * PageSize) == Some(p.vpn * PageSize);
    assert !Elsewhere(program, p.vpn, p.vpn);
    forall t | 0 <= t < |spaces| && t != p.space && spaces[t].file == spaces[p.space].file && Undisturbed(spaces, p)
      ensures p.vpn >= spaces[t].numPages
    {
      assert Accessible(spaces, Page(t, p.vpn)) ==> Elsewhere(program, p.vpn, p.vpn);
    }
  }

  // ---------- The property ----------

  predicate Accesses(e: Event, p: Page) {
    !e.Load? && e.page == p
  }

  ghost predicate Avoids(es: seq<Event>, p: Page) {
    forall i :: 0 <= i < |es| ==> !Accesses(es[i], p)
  }

  ghost predicate NeverWrites(es: seq<Event>, p: Page) {
    forall i :: 0 <= i < |es| ==> !(es[i].Write? && es[i].page == p)
  }

  /** What the page holds; nothing if it has no frame. */
  function Bytes(vm: Vm, p: Page): seq<Byte> {
    if Resident(vm.frames, p) then vm.frames[Locate(vm.frames, p)].bytes else []
  }

  /** What the page holds when it is accessed next. */
  function Seen(vm: Vm, p: Page): seq<Byte>
    requires Wf(vm)
  {
    Bytes(Step(vm, Read(p)), p)
  }

  /** A run: events up to an access of the page, and events between that and the next access. */
  ghost predicate IsRun(spaces: seq<Space>, files: map<File, seq<Byte>>, p: Page, before: seq<Event>, access: Event, between: seq<Event>) {
    var vm := Exec(Start(files), before);
    && Accesses(access, p) && Enabled(vm, access) && Avoids(between, p)
    && Exec(Step(vm, access), between).spaces <= spaces
  }

  /** At the next access the page holds what it held after the last one. */
  ghost predicate KeptIn(files: map<File, seq<Byte>>, p: Page, before: seq<Event>, access: Event, between: seq<Event>) {
    var vm := Step(Exec(Start(files), before), access);
    Seen(Exec(vm, between), p) == Bytes(vm, p)
  }

  /** In every run with these programs the page keeps its contents. */
  ghost predicate Keeps(spaces: seq<Space>, files: map<File, seq<Byte>>, p: Page) {
    forall before, access, between :: IsRun(spaces, files, p, before, access, between) ==>
      KeptIn(files, p, before, access, between)
  }

  /** In every run in which it is not written. */
  ghost predicate KeepsUnwritten(spaces: seq<Space>, files: map<File, seq<Byte>>, p: Page) {
    forall before, access, between ::
      IsRun(spaces, files, p, before, access, between) && NeverWrites(before + [access], p) ==>
        KeptIn(files, p, before, access, between)
  }

  // ---------- Safe pages keep their contents ----------

  ghost predicate SameSizes(files: map<File, seq<Byte>>, files': map<File, seq<Byte>>) {
    forall k :: k in files ==> k in files' && |files'[k]| == |files[k]|
  }

  /** While the page is clean, the file has its bytes; and without writes it is clean. */
  ghost predicate Synced(vm: Vm, sp: Space, p: Page, writes: bool) {
    sp.file in vm.files &&
    forall f :: 0 <= f < |vm.frames| && vm.frames[f].page == p ==>
      && (vm.frames[f].dirty ==> writes)
      && (!vm.frames[f].dirty ==> FileHas(sp.program, vm.files[sp.file], p.vpn, vm.frames[f].bytes))
  }

  /** The page holds these bytes, or the file does. */
  ghost predicate Holds(vm: Vm, sp: Space, p: Page, bytes: seq<Byte>) {
    && sp.file in vm.files
    && (forall f :: 0 <= f < |vm.frames| && vm.frames[f].page == p ==> vm.frames[f].bytes == bytes)
    && (!Resident(vm.frames, p) ==> FileHas(sp.program, vm.files[sp.file], p.vpn, bytes))
  }

  /** What the lemmas below suppose of the page: it is safe, for writing too if it may be written. */
  ghost predicate Safe(spaces: seq<Space>, files: map<File, seq<Byte>>, p: Page, writes: bool) {
    && Programs(spaces, files) && p.space < |spaces| && ReadSafe(spaces, files, p)
    && (writes ==> WriteSafe(spaces, files, p))
  }

  ghost predicate Within(vm: Vm, spaces: seq<Space>, files: map<File, seq<Byte>>) {
    && Wf(vm) && vm.spaces <= spaces && SameSizes(files, vm.files)
    && (vm.spaces == [] ==> vm.files == files)
  }

  /** Evicting another page leaves what this one is filled from. */
  lemma {:induction false} EvictOther(vm: Vm, spaces: seq<Space>, files: map<File, seq<Byte>>, p: Page, writes: bool, f: nat, bytes: seq<Byte>)
    requires Safe(spaces, files, p, writes) && Within(vm, spaces, files) && f < |vm.frames| && vm.frames[f].page != p
    requires FileHas(spaces[p.space].program, vm.files[spaces[p.space].file], p.vpn, bytes)
    ensures FrameOk(vm.spaces, vm.frames[f]) && SameSizes(files, FilesAfter(vm, f))
    ensures FileHas(spaces[p.space].program, FilesAfter(vm, f)[spaces[p.space].file], p.vpn, bytes)
  {
    var fr, sp := vm.frames[f], spaces[p.space];
    assert FrameOk(vm.spaces, fr);
    assert vm.spaces[fr.page.space] == spaces[fr.page.space];
    if fr.dirty && spaces[fr.page.space].file == sp.file {
      assert Accessible(spaces, fr.page);
      WriteBackElsewhere(sp.program, vm.files[sp.file], p.vpn, bytes, fr.bytes, fr.page.vpn);
    }
  }

  /** Evicting the page itself puts its bytes where it is filled from, if they are not there already. */
  lemma {:induction false} EvictSelf(vm: Vm, spaces: seq<Space>, files: map<File, seq<Byte>>, p: Page, writes: bool, f: nat)
    requires Safe(spaces, files, p, writes) && Within(vm, spaces, files) && f < |vm.frames| && vm.frames[f].page == p
    requires Synced(vm, spaces[p.space], p, writes)
    ensures FrameOk(vm.spaces, vm.frames[f]) && SameSizes(files, FilesAfter(vm, f))
    ensures FileHas(spaces[p.space].program, FilesAfter(vm, f)[spaces[p.space].file], p.vpn, vm.frames[f].bytes)
  {
    var fr, sp := vm.frames[f], spaces[p.space];
    assert FrameOk(vm.spaces, fr) && vm.spaces[p.space] == sp;
    if fr.dirty {
      WriteBackHas(sp.program, vm.files[sp.file], p.vpn, fr.bytes);
    }
  }

  lemma {:induction false} FaultSizes(vm: Vm, spaces: seq<Space>, files: map<File, seq<Byte>>, q: Page)
    requires Within(vm, spaces, files) && Accessible(vm.spaces, q) && !Resident(vm.frames, q)
    ensures Within(Fault(vm, q), spaces, files)
  {
    FaultWf(vm, q);
    assert FrameOk(vm.spaces, vm.frames[Victim(vm.frames)]);
  }

  /** A fault that evicts a third page leaves the frame of this one. */
  lemma {:induction false} FaultKeepsFrame(vm: Vm, q: Page, p: Page)
    requires Wf(vm) && Accessible(vm.spaces, q) && !Resident(vm.frames, q) && q != p && vm.frames[Victim(vm.frames)].page != p
    ensures var vm', f := Fault(vm, q), Victim(vm.frames);
      && FrameOk(vm.spaces, vm.frames[f]) && vm'.files == FilesAfter(vm, f) && |vm'.frames| == |vm.frames|
      && (Resident(vm'.frames, p) <==> Resident(vm.frames, p))
      && (forall g :: 0 <= g < |vm'.frames| && vm'.frames[g].page == p ==> vm'.frames[g] == vm.frames[g])
  {
    var vm', f, g := Fault(vm, q), Victim(vm.frames), Locate(vm.frames, p);
    assert FrameOk(vm.spaces, vm.frames[f]);
    assert g < |vm.frames| ==> vm'.frames[g].page == p;
    var h := Locate(vm'.frames, p);
    assert h < |vm'.frames| ==> vm.frames[h].page == p;
  }

  /** A fault on another page evicts this one, or some third one. */
  lemma {:induction false} FaultEvictsIt(vm: Vm, spaces: seq<Space>, files: map<File, seq<Byte>>, p: Page, writes: bool, q: Page, bytes: seq<Byte>)
    requires Safe(spaces, files, p, writes) && Within(vm, spaces, files)
    requires Accessible(vm.spaces, q) && !Resident(vm.frames, q) && q != p && vm.frames[Victim(vm.frames)].page == p
    requires Synced(vm, spaces[p.space], p, writes)
    ensures Synced(Fault(vm, q), spaces[p.space], p, writes)
    ensures Holds(vm, spaces[p.space], p, bytes) ==> Holds(Fault(vm, q), spaces[p.space], p, bytes)
  {
    EvictSelf(vm, spaces, files, p, writes, Victim(vm.frames));
    FaultWf(vm, q);
    assert !Resident(Fault(vm, q).frames, p);
  }

  lemma {:induction false} FaultEvictsThird(vm: Vm, spaces: seq<Space>, files: map<File, seq<Byte>>, p: Page, writes: bool, q: Page, bytes: seq<Byte>)
    requires Safe(spaces, files, p, writes) && Within(vm, spaces, files)
    requires Accessible(vm.spaces, q) && !Resident(vm.frames, q) && q != p && vm.frames[Victim(vm.frames)].page != p
    requires Synced(vm, spaces[p.space], p, writes)
    ensures Synced(Fault(vm, q), spaces[p.space], p, writes)
    ensures Holds(vm, spaces[p.space], p, bytes) ==> Holds(Fault(vm, q), spaces[p.space], p, bytes)
  {
    FaultKeepsFrame(vm, q, p);
    var sp, f, vm' := spaces[p.space], Victim(vm.frames), Fault(vm, q);
    forall g | 0 <= g < |vm'.frames| && vm'.frames[g].page == p && !vm.frames[g].dirty
      ensures FileHas(sp.program, vm'.files[sp.file], p.vpn, vm.frames[g].bytes)
    {
      EvictOther(vm, spaces, files, p, writes, f, vm.frames[g].bytes);
    }
    if !Resident(vm.frames, p) && Holds(vm, sp, p, bytes) {
      EvictOther(vm, spaces, files, p, writes, f, bytes);
    }
  }

  /** A fault on the page itself brings its bytes back. */
  lemma {:induction false} FaultOwn(vm: Vm, spaces: seq<Space>, files: map<File, seq<Byte>>, p: Page, writes: bool, bytes: seq<Byte>)
    requires Safe(spaces, files, p, writes) && Within(vm, spaces, files) && Accessible(vm.spaces, p) && !Resident(vm.frames, p)
    ensures Synced(Fault(vm, p), spaces[p.space], p, writes)
    ensures Holds(vm, spaces[p.space], p, bytes) ==> Bytes(Fault(vm, p), p) == bytes
  {
    var sp, f, vm' := spaces[p.space], Victim(vm.frames), Fault(vm, p);
    FaultWf(vm, p);
    FaultSizes(vm, spaces, files, p);
    assert vm.spaces[p.space] == sp && FrameOk(vm.spaces, vm.frames[f]);
    FilledHas(sp.program, vm'.files[sp.file], p.vpn, vm.frames[f].bytes);
    if Holds(vm, sp, p, bytes) {
      EvictOther(vm, spaces, files, p, writes, f, bytes);
      FillGives(sp.program, vm'.files[sp.file], p.vpn, bytes, vm.frames[f].bytes);
    }
  }

  lemma {:induction false} EnteredSynced(vm: Vm, spaces: seq<Space>, files: map<File, seq<Byte>>, p: Page, writes: bool, q: Page, bytes: seq<Byte>)
    requires Safe(spaces, files, p, writes) && Within(vm, spaces, files) && Accessible(vm.spaces, q)
    requires Synced(vm, spaces[p.space], p, writes)
    ensures Within(Entered(vm, q), spaces, files) && Synced(Entered(vm, q), spaces[p.space], p, writes)
    ensures q != p && Holds(vm, spaces[p.space], p, bytes) ==> Holds(Entered(vm, q), spaces[p.space], p, bytes)
    ensures q == p && Holds(vm, spaces[p.space], p, bytes) ==> Bytes(Entered(vm, q), p) == bytes
    ensures Resident(Entered(vm, q).frames, q)
  {
    if !Resident(vm.frames, q) {
      FaultSizes(vm, spaces, files, q);
      FaultWf(vm, q);
      if q == p {
        FaultOwn(vm, spaces, files, p, writes, bytes);
      } else if vm.frames[Victim(vm.frames)].page == p {
        FaultEvictsIt(vm, spaces, files, p, writes, q, bytes);
      } else {
        FaultEvictsThird(vm, spaces, files, p, writes, q, bytes);
      }
    }
  }

  /** The use of a frame keeps all this, if a page that may not be written is not. */
  lemma {:induction false} UseSynced(vm: Vm, sp: Space, p: Page, writes: bool, f: nat, e: Event, bytes: seq<Byte>)
    requires Synced(vm, sp, p, writes) && Wf(vm) && f < |vm.frames|
    requires vm.frames[f].page == p && e.Write? ==> writes
    ensures Synced(UseAt(vm, f, e), sp, p, writes)
    ensures vm.frames[f].page != p && Holds(vm, sp, p, bytes) ==> Holds(UseAt(vm, f, e), sp, p, bytes)
  {
    var vm' := UseAt(vm, f, e);
    assert forall g :: 0 <= g < |vm.frames| ==> vm'.frames[g].page == vm.frames[g].page;
    if Resident(vm.frames, p) {
      assert vm'.frames[Locate(vm.frames, p)].page == p;
    }
  }

  lemma {:induction false} LoadSynced(vm: Vm, spaces: seq<Space>, files: map<File, seq<Byte>>, p: Page, writes: bool, sp: Space, bytes: seq<Byte>)
    requires Safe(spaces, files, p, writes) && Within(vm, spaces, files) && Enabled(vm, Load(sp))
    requires Loaded(vm, sp).spaces <= spaces && Synced(vm, spaces[p.space], p, writes)
    ensures Within(Loaded(vm, sp), spaces, files) && Synced(Loaded(vm, sp), spaces[p.space], p, writes)
    ensures vm.spaces != [] && Holds(vm, spaces[p.space], p, bytes) ==> Holds(Loaded(vm, sp), spaces[p.space], p, bytes)
  {
    LoadWf(vm, sp);
    if vm.spaces == [] {
      assert Loaded(vm, sp).spaces[0] == sp == spaces[0];
    }
  }

  /** One event: what is known of the page stays known, and if the event is not an access of the page, it
      keeps holding what it held. */
  lemma {:induction false} StepSynced(vm: Vm, spaces: seq<Space>, files: map<File, seq<Byte>>, p: Page, writes: bool, e: Event, bytes: seq<Byte>)
    requires Safe(spaces, files, p, writes) && Within(vm, spaces, files) && Step(vm, e).spaces <= spaces
    requires Synced(vm, spaces[p.space], p, writes) && (e.Write? && e.page == p ==> writes)
    ensures Within(Step(vm, e), spaces, files) && Synced(Step(vm, e), spaces[p.space], p, writes)
    ensures !Accesses(e, p) && vm.spaces != [] && Holds(vm, spaces[p.space], p, bytes) ==>
      Holds(Step(vm, e), spaces[p.space], p, bytes)
  {
    if Enabled(vm, e) {
      if e.Load? {
        LoadSynced(vm, spaces, files, p, writes, e.space, bytes);
      } else {
        EnteredSynced(vm, spaces, files, p, writes, e.page, bytes);
        var vm1 := Entered(vm, e.page);
        UseSynced(vm1, spaces[p.space], p, writes, Locate(vm1.frames, e.page), e, bytes);
      }
    }
  }

  lemma {:induction false} SpacesGrow(vm: Vm, es: seq<Event>)
    requires Wf(vm)
    ensures vm.spaces <= Exec(vm, es).spaces
    decreases |es|
  {
    if es != [] {
      SpacesGrow(Step(vm, es[0]), es[1..]);
    }
  }

  lemma {:induction false} ExecSynced(vm: Vm, spaces: seq<Space>, files: map<File, seq<Byte>>, p: Page, writes: bool, es: seq<Event>)
    requires Safe(spaces, files, p, writes) && Within(vm, spaces, files) && Exec(vm, es).spaces <= spaces
    requires Synced(vm, spaces[p.space], p, writes) && (!writes ==> NeverWrites(es, p))
    ensures Within(Exec(vm, es), spaces, files) && Synced(Exec(vm, es), spaces[p.space], p, writes)
    decreases |es|
  {
    if es != [] {
      SpacesGrow(Step(vm, es[0]), es[1..]);
      StepSynced(vm, spaces, files, p, writes, es[0], []);
      ExecSynced(Step(vm, es[0]), spaces, files, p, writes, es[1..]);
    }
  }

  lemma {:induction false} ExecHolds(vm: Vm, spaces: seq<Space>, files: map<File, seq<Byte>>, p: Page, writes: bool, es: seq<Event>, bytes: seq<Byte>)
    requires Safe(spaces, files, p, writes) && Within(vm, spaces, files) && Exec(vm, es).spaces <= spaces && vm.spaces != []
    requires Synced(vm, spaces[p.space], p, writes) && Avoids(es, p) && Holds(vm, spaces[p.space], p, bytes)
    ensures Within(Exec(vm, es), spaces, files) && Synced(Exec(vm, es), spaces[p.space], p, writes)
    ensures Holds(Exec(vm, es), spaces[p.space], p, bytes)
    decreases |es|
  {
    if es != [] {
      SpacesGrow(Step(vm, es[0]), es[1..]);
      SpacesGrow(vm, [es[0]]);
      StepSynced(vm, spaces, files, p, writes, es[0], bytes);
      assert Exec(vm, [es[0]]) == Step(vm, es[0]);
      ExecHolds(Step(vm, es[0]), spaces, files, p, writes, es[1..], bytes);
    }
  }

  lemma {:induction false} ResidentHolds(vm: Vm, sp: Space, p: Page)
    requires Wf(vm) && Resident(vm.frames, p) && sp.file in vm.files
    ensures Holds(vm, sp, p, Bytes(vm, p))
  {
    var f := Locate(vm.frames, p);
    forall g | 0 <= g < |vm.frames| && vm.frames[g].page == p ensures g == f {
    }
  }

  /** The contents of a safe page are kept. */
  lemma {:induction false} SafeIsKept(spaces: seq<Space>, files: map<File, seq<Byte>>, p: Page, writes: bool, before: seq<Event>, access: Event, between: seq<Event>)
    requires Safe(spaces, files, p, writes) && IsRun(spaces, files, p, before, access, between)
    requires !writes ==> NeverWrites(before, p) && !access.Write?
    ensures KeptIn(files, p, before, access, between)
  {
    var vm0, sp := Exec(Start(files), before), spaces[p.space];
    var vm1 := Step(vm0, access);
    var bytes := Bytes(vm1, p);
    SpacesGrow(vm1, between);
    AfterAccess(vm0, access);
    ExecSynced(Start(files), spaces, files, p, writes, before);
    StepSynced(vm0, spaces, files, p, writes, access, []);
    ResidentHolds(vm1, sp, p);
    ExecHolds(vm1, spaces, files, p, writes, between, bytes);
    SeenIs(vm1, between, spaces, files, p, writes, bytes);
  }

  lemma {:induction false} SeenIs(vm1: Vm, between: seq<Event>, spaces: seq<Space>, files: map<File, seq<Byte>>, p: Page, writes: bool, bytes: seq<Byte>)
    requires Wf(vm1) && Accessible(vm1.spaces, p) && Safe(spaces, files, p, writes)
    requires Within(Exec(vm1, between), spaces, files) && Synced(Exec(vm1, between), spaces[p.space], p, writes)
    requires Holds(Exec(vm1, between), spaces[p.space], p, bytes)
    ensures Seen(Exec(vm1, between), p) == bytes
  {
    var vm2 := Exec(vm1, between);
    SpacesGrow(vm1, between);
    EnteredSynced(vm2, spaces, files, p, writes, p, bytes);
    AfterAccess(vm2, Read(p));
  }

  // ---------- The first access ----------

  /** The page as its program's file has it. */
  function ProgramPage(sp: Space, file: seq<Byte>, vpn: nat): (page: seq<Byte>)
    ensures |page| == PageSize
  {
    FillPage(sp.program, file, vpn, seq<Byte>(PageSize, _ => 0))
  }

  lemma {:induction false} FirstLoadHolds(vm: Vm, spaces: seq<Space>, files: map<File, seq<Byte>>, p: Page, writes: bool, sp: Space)
    requires Safe(spaces, files, p, writes) && Within(vm, spaces, files) && vm.spaces == [] && Enabled(vm, Load(sp))
    requires Loaded(vm, sp).spaces <= spaces
    ensures Holds(Loaded(vm, sp), spaces[p.space], p, ProgramPage(spaces[p.space], files[spaces[p.space].file], p.vpn))
  {
    var vm', s := Loaded(vm, sp), spaces[p.space];
    assert vm'.spaces[0] == sp == spaces[0];
    FilledHas(s.program, files[s.file], p.vpn, seq<Byte>(PageSize, _ => 0));
    if p.space == 0 {
      FillGives(s.program, files[s.file], p.vpn, LoadPage(s.program, files[s.file], p.vpn), seq<Byte>(PageSize, _ => 0));
    }
  }

  lemma {:induction false} StepHoldsProgram(vm: Vm, spaces: seq<Space>, files: map<File, seq<Byte>>, p: Page, writes: bool, e: Event)
    requires Safe(spaces, files, p, writes) && Within(vm, spaces, files) && Step(vm, e).spaces <= spaces && !Accesses(e, p)
    requires Synced(vm, spaces[p.space], p, writes)
    requires Holds(vm, spaces[p.space], p, ProgramPage(spaces[p.space], files[spaces[p.space].file], p.vpn))
    ensures Within(Step(vm, e), spaces, files) && Synced(Step(vm, e), spaces[p.space], p, writes)
    ensures Holds(Step(vm, e), spaces[p.space], p, ProgramPage(spaces[p.space], files[spaces[p.space].file], p.vpn))
  {
    StepSynced(vm, spaces, files, p, writes, e, ProgramPage(spaces[p.space], files[spaces[p.space].file], p.vpn));
    if vm.spaces == [] && Enabled(vm, e) {
      FirstLoadHolds(vm, spaces, files, p, writes, e.space);
    }
  }

  lemma {:induction false} ExecHoldsProgram(vm: Vm, spaces: seq<Space>, files: map<File, seq<Byte>>, p: Page, writes: bool, es: seq<Event>)
    requires Safe(spaces, files, p, writes) && Within(vm, spaces, files) && Exec(vm, es).spaces <= spaces && Avoids(es, p)
    requires Synced(vm, spaces[p.space], p, writes)
    requires Holds(vm, spaces[p.space], p, ProgramPage(spaces[p.space], files[spaces[p.space].file], p.vpn))
    ensures Within(Exec(vm, es), spaces, files) && Synced(Exec(vm, es), spaces[p.space], p, writes)
    ensures Holds(Exec(vm, es), spaces[p.space], p, ProgramPage(spaces[p.space], files[spaces[p.space].file], p.vpn))
    decreases |es|
  {
    if es != [] {
      SpacesGrow(Step(vm, es[0]), es[1..]);
      StepHoldsProgram(vm, spaces, files, p, writes, es[0]);
      ExecHoldsProgram(Step(vm, es[0]), spaces, files, p, writes, es[1..]);
    }
  }

  /** The first access of a safe page finds what the program's file had at the start of the run, though pages
      were written back to it. */
  lemma {:induction false} FirstAccessFinds(spaces: seq<Space>, files: map<File, seq<Byte>>, p: Page, writes: bool, es: seq<Event>)
    requires Safe(spaces, files, p, writes) && Avoids(es, p)
    requires Exec(Start(files), es).spaces <= spaces && Accessible(Exec(Start(files), es).spaces, p)
    ensures Seen(Exec(Start(files), es), p) == ProgramPage(spaces[p.space], files[spaces[p.space].file], p.vpn)
  {
    var sp := spaces[p.space];
    FilledHas(sp.program, files[sp.file], p.vpn, seq<Byte>(PageSize, _ => 0));
    ExecHoldsProgram(Start(files), spaces, files, p, writes, es);
    SeenIs(Exec(Start(files), es), [], spaces, files, p, writes, ProgramPage(sp, files[sp.file], p.vpn));
  }

  // ---------- When all pages fit into memory ----------

  /** The pages within reach of all address spaces, as a set and as a number. */
  ghost function PagesOf(s: nat, n: nat): set<Page> {
    set v | 0 <= v < n :: Page(s, v)
  }

  ghost function Pages(spaces: seq<Space>): set<Page> {
    if spaces == [] then {}
    else Pages(spaces[..|spaces| - 1]) + PagesOf(|spaces| - 1, spaces[|spaces| - 1].numPages)
  }

  function Total(spaces: seq<Space>): nat {
    if spaces == [] then 0 else Total(spaces[..|spaces| - 1]) + spaces[|spaces| - 1].numPages
  }

  lemma {:induction false} InPages(spaces: seq<Space>, p: Page)
    ensures p in Pages(spaces) <==> Accessible(spaces, p)
  {
    if spaces != [] {
      InPages(spaces[..|spaces| - 1], p);
    }
  }

  lemma {:induction false} SpaceCount(s: nat, n: nat)
    ensures |PagesOf(s, n)| == n
  {
    if n > 0 {
      SpaceCount(s, n - 1);
      assert PagesOf(s, n) == PagesOf(s, n - 1) + {Page(s, n - 1)};
    }
  }

  lemma {:induction false} PagesCount(spaces: seq<Space>)
    ensures |Pages(spaces)| == Total(spaces)
  {
    if spaces != [] {
      var n := |spaces| - 1;
      PagesCount(spaces[..n]);
      var last := PagesOf(n, spaces[n].numPages);
      SpaceCount(n, spaces[n].numPages);
      assert Pages(spaces[..n]) !! last by {
        forall q | q in last ensures q !in Pages(spaces[..n]) {
          InPages(spaces[..n], q);
        }
      }
    }
  }

  ghost function Owners(frames: seq<Frame>): set<Page> {
    set f | 0 <= f < |frames| :: frames[f].page
  }

  lemma {:induction false} OwnersCount(frames: seq<Frame>)
    requires OnePageOneFrame(frames)
    ensures |Owners(frames)| == |frames|
  {
    if frames != [] {
      var n := |frames| - 1;
      OwnersCount(frames[..n]);
      assert Owners(frames) == Owners(frames[..n]) + {frames[n].page};
    }
  }

  lemma {:induction false} Subset(a: set<Page>, b: set<Page>)
    requires a <= b
    ensures |a| <= |b|
  {
    assert b == a + (b - a);
  }

  /** With room for all pages, a fault evicts a page that was never accessed since it was loaded. */
  lemma {:induction false} VictimIsUnused(vm: Vm, spaces: seq<Space>, q: Page)
    requires Wf(vm) && vm.spaces <= spaces && Total(spaces) <= NumPhysPages
    requires Accessible(vm.spaces, q) && !Resident(vm.frames, q)
    ensures vm.frames[Victim(vm.frames)].stamp == 0
  {
    if vm.frames[Victim(vm.frames)].stamp > 0 {
      var all := Owners(vm.frames) + {q};
      forall x | x in all ensures x in Pages(spaces) {
        if x != q {
          var f :| 0 <= f < |vm.frames| && vm.frames[f].page == x;
          assert FrameOk(vm.spaces, vm.frames[f]);
        }
        InPages(spaces, x);
      }
      OwnersCount(vm.frames);
      assert q !in Owners(vm.frames);
      PagesCount(spaces);
      Subset(all, Pages(spaces));
      assert false;
    }
  }

  /** The page has a frame, was accessed since it got it, and holds the bytes. */
  ghost predicate Stays(vm: Vm, p: Page, bytes: seq<Byte>) {
    && Resident(vm.frames, p) && vm.frames[Locate(vm.frames, p)].stamp > 0
    && vm.frames[Locate(vm.frames, p)].bytes == bytes
  }

  lemma {:induction false} EnteredStays(vm: Vm, spaces: seq<Space>, p: Page, q: Page, bytes: seq<Byte>)
    requires Wf(vm) && vm.spaces <= spaces && Total(spaces) <= NumPhysPages
    requires Accessible(vm.spaces, q) && q != p && Stays(vm, p, bytes)
    ensures Wf(Entered(vm, q)) && Stays(Entered(vm, q), p, bytes)
  {
    EnteredWf(vm, q);
    if !Resident(vm.frames, q) {
      VictimIsUnused(vm, spaces, q);
      FaultKeepsFrame(vm, q, p);
    }
  }

  lemma {:induction false} StepStays(vm: Vm, spaces: seq<Space>, p: Page, e: Event, bytes: seq<Byte>)
    requires Wf(vm) && Step(vm, e).spaces <= spaces && Total(spaces) <= NumPhysPages
    requires Stays(vm, p, bytes) && !Accesses(e, p)
    ensures Stays(Step(vm, e), p, bytes)
  {
    if Enabled(vm, e) && !e.Load? {
      AfterAccess(vm, e);
      EnteredStays(vm, spaces, p, e.page, bytes);
      var f := Locate(Entered(vm, e.page).frames, p);
      assert Step(vm, e).frames[f].page == p;
    }
  }

  lemma {:induction false} ExecStays(vm: Vm, spaces: seq<Space>, p: Page, es: seq<Event>, bytes: seq<Byte>)
    requires Wf(vm) && Exec(vm, es).spaces <= spaces && Total(spaces) <= NumPhysPages
    requires Stays(vm, p, bytes) && Avoids(es, p)
    ensures Stays(Exec(vm, es), p, bytes)
    decreases |es|
  {
    if es != [] {
      SpacesGrow(Step(vm, es[0]), es[1..]);
      StepStays(vm, spaces, p, es[0], bytes);
      ExecStays(Step(vm, es[0]), spaces, p, es[1..], bytes);
    }
  }

  /** If all pages of all programs fit into memory, whatever is accessed is kept. */
  lemma {:induction false} RoomyIsKept(spaces: seq<Space>, files: map<File, seq<Byte>>, p: Page, before: seq<Event>, access: Event, between: seq<Event>)
    requires Total(spaces) <= NumPhysPages && IsRun(spaces, files, p, before, access, between)
    ensures KeptIn(files, p, before, access, between)
  {
    var vm0 := Exec(Start(files), before);
    var vm1 := Step(vm0, access);
    AfterAccess(vm0, access);
    ExecStays(vm1, spaces, p, between, Bytes(vm1, p));
    var vm2 := Exec(vm1, between);
    SpacesGrow(vm1, between);
    AfterAccess(vm2, Read(p));
  }

  // ---------- Single steps and use counters ----------

  /** What a page in a frame holds changes only by writes to it, and then exactly in the bytes written, as long
      as it is not evicted. */
  lemma {:induction false} OnlyWritesChange(vm: Vm, e: Event, p: Page)
    requires Wf(vm) && Resident(vm.frames, p) && Resident(Step(vm, e).frames, p)
    ensures Bytes(Step(vm, e), p) ==
      if e.Write? && e.page == p && Enabled(vm, e) then PutBytes(Bytes(vm, p), e.offset, e.data) else Bytes(vm, p)
  {
    if Enabled(vm, e) && !e.Load? {
      AfterAccess(vm, e);
      if e.page != p {
        var vm1, f := Entered(vm, e.page), Locate(vm.frames, p);
        if !Resident(vm.frames, e.page) {
          FaultWf(vm, e.page);
          var g := Locate(Step(vm, e).frames, p);
          assert vm.frames[g].page == p;
        }
      }
    }
  }

  /** The accesses of a page among events. */
  function CountUses(vm: Vm, es: seq<Event>, p: Page): nat
    requires Wf(vm)
    decreases |es|
  {
    if es == [] then 0
    else (if Accesses(es[0], p) && Enabled(vm, es[0]) then 1 else 0) + CountUses(Step(vm, es[0]), es[1..], p)
  }

  ghost predicate NotEvicted(vm: Vm, es: seq<Event>, p: Page)
    requires Wf(vm)
    decreases |es|
  {
    Resident(vm.frames, p) && (es != [] ==> NotEvicted(Step(vm, es[0]), es[1..], p))
  }

  function Stamp(vm: Vm, p: Page): nat {
    if Resident(vm.frames, p) then vm.frames[Locate(vm.frames, p)].stamp else 0
  }

  lemma {:induction false} StampAfterStep(vm: Vm, e: Event, p: Page)
    requires Wf(vm) && Resident(Step(vm, e).frames, p) && (vm.spaces != [])
    ensures Accesses(e, p) && Enabled(vm, e) ==> Stamp(Step(vm, e), p) == Stamp(vm, p) + 1
    ensures Resident(vm.frames, p) && !(Accesses(e, p) && Enabled(vm, e)) ==> Stamp(Step(vm, e), p) == Stamp(vm, p)
  {
    if Enabled(vm, e) && !e.Load? {
      AfterAccess(vm, e);
      if !Resident(vm.frames, e.page) {
        FaultWf(vm, e.page);
        if e.page != p {
          var g := Locate(Step(vm, e).frames, p);
          assert vm.frames[g].page == p;
        }
      }
    }
  }

  /** A frame's use counter is the number of accesses to its page since the page got the frame: it is 1 after the
      access that brought the page in, and grows by one with every further access. */
  lemma {:induction false} StampCountsUses(vm: Vm, e: Event, es: seq<Event>, p: Page)
    requires Wf(vm) && Accesses(e, p) && Enabled(vm, e) && !Resident(vm.frames, p) && NotEvicted(Step(vm, e), es, p)
    ensures Stamp(Exec(Step(vm, e), es), p) == 1 + CountUses(Step(vm, e), es, p)
  {
    AfterAccess(vm, e);
    StampAfterStep(vm, e, p);
    StampGrows(Step(vm, e), es, p);
  }

  lemma {:induction false} StampGrows(vm: Vm, es: seq<Event>, p: Page)
    requires Wf(vm) && vm.spaces != [] && NotEvicted(vm, es, p)
    ensures Stamp(Exec(vm, es), p) == Stamp(vm, p) + CountUses(vm, es, p)
    decreases |es|
  {
    if es != [] {
      StampAfterStep(vm, es[0], p);
      StampGrows(Step(vm, es[0]), es[1..], p);
    }
  }
}
