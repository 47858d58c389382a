/** Demand paging on values (code/userprog/exception.cc:195-305, code/machine/machine.cc:222-232,
    code/userprog/addrspace.cc:106-262): what the pages of all address spaces hold, over whole runs.

    Frames hold pages; an access to a page that is in no frame evicts the page whose frame has the smallest
    use counter, writes it back to its program's file if it is dirty, and fills the frame from the file of
    the page that is wanted. The machine of module Paging takes exactly these steps. */
module VirtualMemory {
  import opened Base
  import opened Disks
  import opened OpenFiles
  import opened NoffFiles

  /** A program file; page tables refer to it by name, here by a number. */
  type File = nat

  // ---------- Programs and their files ----------

  predicate InSegment(s: Segment, vAddr: int) {
    s.virtualAddr <= vAddr < s.virtualAddr + s.size
  }

  /** Where in the file the page-fault handler finds the byte at a virtual address; None for addresses
      outside the program's segments. */
  function FileOffset(p: Program, vAddr: int): Option<int> {
    if InSegment(p.code, vAddr) then Some(p.code.inFileAddr + vAddr - p.code.virtualAddr)
    else if InSegment(p.data, vAddr) then Some(p.data.inFileAddr + vAddr - p.data.virtualAddr)
    else if InSegment(p.readOnlyData, vAddr) then Some(p.readOnlyData.inFileAddr + vAddr - p.readOnlyData.virtualAddr)
    else None
  }

  /** One byte of the page fill: read from the file, or left as the frame has it if the address is in
      no segment or beyond the file's end. */
  function FillByte(p: Program, file: seq<Byte>, vAddr: int, was: Byte): Byte {
    match FileOffset(p, vAddr)
    case None => was
    case Some(offset) => if 0 <= offset < |file| then file[offset] else was
  }

  /** The page after a fill, and the file after a dirty page was written back. */
  function FillPage(p: Program, file: seq<Byte>, vpn: int, frame: seq<Byte>): (page: seq<Byte>)
    ensures |page| == |frame|
  {
    seq(|frame|, i requires 0 <= i < |frame| => FillByte(p, file, vpn * PageSize + i, frame[i]))
  }

  function WriteBack(file: seq<Byte>, page: seq<Byte>, vpn: nat): (r: seq<Byte>)
    ensures |r| == |file|
  {
    var n := Clip(|file|, |page|, vpn * PageSize);
    if n == 0 then file else Patch(file, vpn * PageSize, page[..n])
  }

  /** One byte of a segment copy in Load, and what Load puts at a virtual address: the segments in turn. */
  function SegmentByte(seg: Segment, file: seq<Byte>, a: int, was: Byte): Byte {
    if InSegment(seg, a) && 0 <= seg.inFileAddr + a - seg.virtualAddr < |file|
    then file[seg.inFileAddr + a - seg.virtualAddr] else was
  }

  function LoadByte(p: Program, file: seq<Byte>, a: int, was: Byte): Byte {
    SegmentByte(p.readOnlyData, file, a, SegmentByte(p.data, file, a, SegmentByte(p.code, file, a, was)))
  }

  function LoadPage(p: Program, file: seq<Byte>, vpn: int): (page: seq<Byte>)
    ensures |page| == PageSize
  {
    seq<Byte>(PageSize, i requires 0 <= i < PageSize => LoadByte(p, file, vpn * PageSize + i, 0))
  }

  /** The byte of a file at an offset, if there is one. */
  function ByteOr(file: seq<Byte>, o: int, was: Byte): Byte {
    if 0 <= o < |file| then file[o] else was
  }

  /** The page-fault handler looks at code, data and read-only data, in this order, and takes the first segment that has
      the address; Load copies them in this order, so that the last one that has it counts. */
  lemma SegmentsAreRead(p: Program, file: seq<Byte>, a: int, was: Byte)
    ensures var c, d, r := p.code, p.data, p.readOnlyData;
      FillByte(p, file, a, was) ==
        if c.virtualAddr <= a < c.virtualAddr + c.size then ByteOr(file, c.inFileAddr + (a - c.virtualAddr), was)
        else if d.virtualAddr <= a < d.virtualAddr + d.size then ByteOr(file, d.inFileAddr + (a - d.virtualAddr), was)
        else if r.virtualAddr <= a < r.virtualAddr + r.size then ByteOr(file, r.inFileAddr + (a - r.virtualAddr), was)
        else was
    ensures var c, d, r := p.code, p.data, p.readOnlyData;
      var b1 := if c.virtualAddr <= a < c.virtualAddr + c.size then ByteOr(file, c.inFileAddr + (a - c.virtualAddr), was) else was;
      var b2 := if d.virtualAddr <= a < d.virtualAddr + d.size then ByteOr(file, d.inFileAddr + (a - d.virtualAddr), b1) else b1;
      LoadByte(p, file, a, was) ==
        if r.virtualAddr <= a < r.virtualAddr + r.size then ByteOr(file, r.inFileAddr + (a - r.virtualAddr), b2) else b2
  {
  }

  /** If no address is in two segments, Load and the page-fault handler give an address the same byte. */
  lemma LoadAgreesWithFill(p: Program, file: seq<Byte>, a: int, was: Byte)
    requires !(InSegment(p.code, a) && InSegment(p.data, a)) && !(InSegment(p.code, a) && InSegment(p.readOnlyData, a))
             && !(InSegment(p.data, a) && InSegment(p.readOnlyData, a))
    ensures LoadByte(p, file, a, was) == FillByte(p, file, a, was)
  {
  }

  // ---------- Pages, frames and steps ----------

  /** A loaded program: its file, its segments and the size of its address space. */
  datatype Space = Space(file: File, program: Program, numPages: nat)

  /** The address space that Load makes of a file, as the file's header says. */
  function SpaceIn(file: File, bytes: seq<Byte>): Space
    requires Loadable(bytes)
  {
    Space(file, DecodeNoff(bytes).program, NumPages(DecodeNoff(bytes)))
  }

  /** The files have the program in this address space. */
  predicate Describes(files: map<File, seq<Byte>>, sp: Space) {
    sp.file in files && Loadable(files[sp.file]) && sp == SpaceIn(sp.file, files[sp.file])
  }

  datatype Page = Page(space: nat, vpn: nat)

  /** A frame: the page it holds, its use counter, whether the page was written, and its bytes. */
  datatype Frame = Frame(page: Page, stamp: nat, dirty: bool, bytes: seq<Byte>)

  datatype Vm = Vm(spaces: seq<Space>, frames: seq<Frame>, files: map<File, seq<Byte>>)

  /** A program is loaded, or an address space reads or writes bytes of one of its pages. */
  datatype Event =
    | Load(space: Space)
    | Read(page: Page)
    | Write(page: Page, offset: nat, data: seq<Byte>)

  predicate Accessible(spaces: seq<Space>, p: Page) {
    p.space < |spaces| && p.vpn < spaces[p.space].numPages
  }

  /** A page out of reach is never used, and a page never used is clean. */
  predicate FrameOk(spaces: seq<Space>, fr: Frame) {
    && fr.page.space < |spaces| && fr.page.vpn < NumPhysPages && |fr.bytes| == PageSize
    && (!Accessible(spaces, fr.page) ==> fr.stamp == 0)
    && (fr.dirty ==> fr.stamp > 0)
  }

  ghost predicate OnePageOneFrame(frames: seq<Frame>) {
    forall f, g :: 0 <= f < g < |frames| ==> frames[f].page != frames[g].page
  }

  ghost predicate Wf(vm: Vm) {
    && |vm.frames| == (if vm.spaces == [] then 0 else NumPhysPages)
    && (forall s :: 0 <= s < |vm.spaces| ==> vm.spaces[s].file in vm.files && vm.spaces[s].numPages <= NumPhysPages)
    && (forall f {:trigger FrameOk(vm.spaces, vm.frames[f])} :: 0 <= f < |vm.frames| ==> FrameOk(vm.spaces, vm.frames[f]))
    && OnePageOneFrame(vm.frames)
  }

  /** The frame that holds a page; the number of frames if none does. */
  function Locate(frames: seq<Frame>, p: Page): (f: nat)
    ensures f <= |frames|
    ensures f < |frames| ==> frames[f].page == p
    ensures forall g :: 0 <= g < f ==> frames[g].page != p
  {
    if frames == [] then 0 else if frames[0].page == p then 0 else 1 + Locate(frames[1..], p)
  }

  predicate Resident(frames: seq<Frame>, p: Page) {
    Locate(frames, p) < |frames|
  }

  /** The first frame with the smallest use counter. */
  function Victim(frames: seq<Frame>): (r: nat)
    requires frames != []
    ensures r < |frames| && forall f :: 0 <= f < |frames| ==> frames[r].stamp <= frames[f].stamp
    ensures forall f :: 0 <= f < r ==> frames[r].stamp < frames[f].stamp
  {
    var last := |frames| - 1;
    if last == 0 then 0
    else
      var r := Victim(frames[..last]);
      if frames[last].stamp < frames[r].stamp then last else r
  }

  /** Exactly when a frame is the victim: its page was used less often than those in the frames before it, and
      not more often than any other. */
  lemma {:induction false} VictimIff(frames: seq<Frame>, l: nat)
    requires l < |frames|
    ensures Victim(frames) == l <==>
      (forall f :: 0 <= f < |frames| ==> if f < l then frames[l].stamp < frames[f].stamp else frames[l].stamp <= frames[f].stamp)
  {
  }

  /** The files after the page in a frame was evicted. */
  function FilesAfter(vm: Vm, f: nat): map<File, seq<Byte>>
    requires f < |vm.frames| && vm.frames[f].page.space < |vm.spaces|
    requires vm.spaces[vm.frames[f].page.space].file in vm.files
  {
    var fr := vm.frames[f];
    var file := vm.spaces[fr.page.space].file;
    if fr.dirty then vm.files[file := WriteBack(vm.files[file], fr.bytes, fr.page.vpn)] else vm.files
  }

  function Filled(vm: Vm, files: map<File, seq<Byte>>, p: Page, f: nat): Frame
    requires f < |vm.frames| && p.space < |vm.spaces| && vm.spaces[p.space].file in files
  {
    var sp := vm.spaces[p.space];
    Frame(p, 0, false, FillPage(sp.program, files[sp.file], p.vpn, vm.frames[f].bytes))
  }

  /** The page-fault handler: evict and fill. */
  function Fault(vm: Vm, p: Page): Vm
    requires Wf(vm) && Accessible(vm.spaces, p)
  {
    var f := Victim(vm.frames);
    assert FrameOk(vm.spaces, vm.frames[f]);
    var files := FilesAfter(vm, f);
    Vm(vm.spaces, vm.frames[f := Filled(vm, files, p, f)], files)
  }

  /** The state in which the page has a frame. */
  function Entered(vm: Vm, p: Page): Vm
    requires Wf(vm) && Accessible(vm.spaces, p)
  {
    if Resident(vm.frames, p) then vm else Fault(vm, p)
  }

  function PutBytes(bytes: seq<Byte>, offset: nat, data: seq<Byte>): seq<Byte> {
    if offset + |data| <= |bytes| then Patch(bytes, offset, data) else bytes
  }

  /** The frame after a translation, and for a write after the bytes are stored. */
  function Used(fr: Frame, e: Event): Frame {
    match e
    case Write(_, offset, data) => Frame(fr.page, fr.stamp + 1, true, PutBytes(fr.bytes, offset, data))
    case _ => fr.(stamp := fr.stamp + 1)
  }

  predicate Enabled(vm: Vm, e: Event) {
    match e
    case Load(sp) => Describes(vm.files, sp)
    case Read(p) => Accessible(vm.spaces, p)
    case Write(p, offset, data) => Accessible(vm.spaces, p) && offset + |data| <= PageSize
  }

  /** The first program gets all frames, later ones none. */
  function Loaded(vm: Vm, sp: Space): Vm
    requires sp.file in vm.files
  {
    Vm(vm.spaces + [sp],
       if vm.spaces == []
       then seq(NumPhysPages, f requires 0 <= f < NumPhysPages => Frame(Page(0, f), 0, false, LoadPage(sp.program, vm.files[sp.file], f)))
       else vm.frames,
       vm.files)
  }

  function UseAt(vm: Vm, f: nat, e: Event): Vm
    requires f < |vm.frames|
  {
    vm.(frames := vm.frames[f := Used(vm.frames[f], e)])
  }

  lemma FaultWf(vm: Vm, p: Page)
    requires Wf(vm) && Accessible(vm.spaces, p) && !Resident(vm.frames, p)
    ensures Wf(Fault(vm, p)) && Fault(vm, p).frames[Victim(vm.frames)].page == p
    ensures Locate(Fault(vm, p).frames, p) == Victim(vm.frames)
  {
    var f := Victim(vm.frames);
    assert FrameOk(vm.spaces, vm.frames[f]);
    var vm' := Fault(vm, p);
    assert forall g :: 0 <= g < |vm'.frames| ==> vm'.frames[g].page == if g == f then p else vm.frames[g].page;
  }

  lemma UseWf(vm: Vm, f: nat, e: Event)
    requires Wf(vm) && f < |vm.frames| && Accessible(vm.spaces, vm.frames[f].page)
    ensures Wf(UseAt(vm, f, e))
  {
    var vm' := UseAt(vm, f, e);
    assert forall g :: 0 <= g < |vm.frames| ==> vm'.frames[g].page == vm.frames[g].page;
    forall g | 0 <= g < |vm.frames| ensures FrameOk(vm'.spaces, vm'.frames[g]) {
      assert FrameOk(vm.spaces, vm.frames[g]);
    }
  }

  lemma LoadWf(vm: Vm, sp: Space)
    requires Wf(vm) && Enabled(vm, Load(sp))
    ensures Wf(Loaded(vm, sp))
  {
    var vm' := Loaded(vm, sp);
    forall f | 0 <= f < |vm'.frames| ensures FrameOk(vm'.spaces, vm'.frames[f]) {
      assert vm.spaces != [] ==> FrameOk(vm.spaces, vm.frames[f]);
    }
  }

  function Step(vm: Vm, e: Event): (vm': Vm)
    requires Wf(vm)
    ensures Wf(vm')
  {
    if !Enabled(vm, e) then vm
    else if e.Load? then LoadWf(vm, e.space); Loaded(vm, e.space)
    else
      var vm1 := Entered(vm, e.page);
      EnteredWf(vm, e.page);
      var f := Locate(vm1.frames, e.page);
      UseWf(vm1, f, e);
      UseAt(vm1, f, e)
  }

  lemma {:induction false} EnteredWf(vm: Vm, p: Page)
    requires Wf(vm) && Accessible(vm.spaces, p)
    ensures Wf(Entered(vm, p)) && Resident(Entered(vm, p).frames, p) && Entered(vm, p).spaces == vm.spaces
  {
    if !Resident(vm.frames, p) {
      FaultWf(vm, p);
    }
  }

  lemma {:induction false} UseInPlace(frames: seq<Frame>, p: Page, e: Event)
    requires OnePageOneFrame(frames) && Resident(frames, p)
    ensures Locate(frames[Locate(frames, p) := Used(frames[Locate(frames, p)], e)], p) == Locate(frames, p)
  {
    var f := Locate(frames, p);
    var frames' := frames[f := Used(frames[f], e)];
    assert frames'[f].page == p && forall g :: 0 <= g < |frames| ==> frames'[g].page == frames[g].page;
  }

  /** After an access the page has a frame. */
  lemma {:induction false} AfterAccess(vm: Vm, e: Event)
    requires Wf(vm) && Enabled(vm, e) && !e.Load?
    ensures Step(vm, e).spaces == vm.spaces != []
    ensures var f := Locate(Entered(vm, e.page).frames, e.page);
      && f < |Step(vm, e).frames| && Locate(Step(vm, e).frames, e.page) == f
      && Step(vm, e).frames[f] == Used(Entered(vm, e.page).frames[f], e)
  {
    EnteredWf(vm, e.page);
    UseInPlace(Entered(vm, e.page).frames, e.page, e);
  }

  function Exec(vm: Vm, es: seq<Event>): (vm': Vm)
    requires Wf(vm)
    ensures Wf(vm')
    decreases |es|
  {
    if es == [] then vm else Exec(Step(vm, es[0]), es[1..])
  }

  lemma {:induction false} ExecAppend(vm: Vm, a: seq<Event>, b: seq<Event>)
    requires Wf(vm)
    ensures Exec(vm, a + b) == Exec(Exec(vm, a), b)
    decreases |a|
  {
    if a == [] {
      assert a + b == b;
    } else {
      assert (a + b)[0] == a[0] && (a + b)[1..] == a[1..] + b;
      ExecAppend(Step(vm, a[0]), a[1..], b);
    }
  }

  lemma {:induction false} ExecFirst(vm: Vm, e: Event, es: seq<Event>)
    requires Wf(vm)
    ensures Exec(vm, [e] + es) == Exec(Step(vm, e), es)
  {
    assert ([e] + es)[0] == e && ([e] + es)[1..] == es;
  }

  lemma {:induction false} ExecOne(vm: Vm, e: Event)
    requires Wf(vm)
    ensures Exec(vm, [e]) == Step(vm, e)
  {
    assert Exec(vm, [e]) == Exec(Step(vm, e), []);
  }

  lemma {:induction false} ExecLast(vm: Vm, es: seq<Event>, e: Event)
    requires Wf(vm)
    ensures Exec(vm, es + [e]) == Step(Exec(vm, es), e)
  {
    ExecAppend(vm, es, [e]);
    ExecOne(Exec(vm, es), e);
  }

  function Start(files: map<File, seq<Byte>>): (vm: Vm)
    ensures Wf(vm)
  {
    Vm([], [], files)
  }
}
