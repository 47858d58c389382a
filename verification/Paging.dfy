/** Demand paging: the global frame table, address translation and the page-fault handler
    (code/machine/machine.cc:222-249, code/machine/translate.cc:86-262,
    code/userprog/exception.cc:192-308, code/userprog/addrspace.cc:106-262).

    The machine takes the steps of module VirtualMemory. A pointer to a page table is the number of the
    address space it belongs to. */
module Paging {
  import opened Base
  import opened Disks
  import opened OpenFiles
  import opened NoffFiles
  import opened VirtualMemory
  import opened PageSurvival

  datatype Entry = Entry(virtualPage: int, physicalPage: int, valid: bool, readOnly: bool, use: bool, dirty: bool, file: File)

  /** A frame's entry in the global table: the virtual page it holds, a use counter, and the page
      table it belongs to; Null means the frame is free. */
  datatype GlobalEntry = GlobalEntry(virNum: int, useStamp: int, ref: int)

  const Null: int := -1

  datatype Exception = NoException | PageFault | ReadOnly | BusError | AddressError

  predicate Present(e: Entry) {
    e.valid && e.physicalPage != -1
  }

  // ---------- The machine's state as a value ----------

  datatype Core = Core(global: seq<GlobalEntry>, memory: seq<Byte>, spaces: seq<Space>, tables: seq<seq<Entry>>,
                       files: map<File, seq<Byte>>)

  /** Frame f is free, which it is only before the first program is loaded; or it names an entry that has it. */
  ghost predicate FrameBack(c: Core, f: nat)
    requires f < |c.global|
  {
    var g := c.global[f];
    if c.spaces == [] then g.ref == Null
    else && 0 <= g.ref < |c.tables| && 0 <= g.virNum < |c.tables[g.ref]| && g.useStamp >= 0
         && Present(c.tables[g.ref][g.virNum]) && c.tables[g.ref][g.virNum].physicalPage == f
  }

  /** Entry v of table s is without a frame, or its frame names it. */
  ghost predicate EntryBack(c: Core, s: nat, v: nat)
    requires s < |c.tables| == |c.spaces| && v < |c.tables[s]|
  {
    var e := c.tables[s][v];
    && e.virtualPage == v && e.file == c.spaces[s].file && !e.readOnly
    && (Present(e) ==> 0 <= e.physicalPage < |c.global| && c.global[e.physicalPage].ref == s && c.global[e.physicalPage].virNum == v)
  }

  ghost predicate Sizes(c: Core) {
    && |c.global| == NumPhysPages && |c.memory| == NumPhysPages * PageSize && |c.tables| == |c.spaces|
    && (forall s :: 0 <= s < |c.tables| ==> |c.tables[s]| == NumPhysPages)
    && (forall s :: 0 <= s < |c.spaces| ==> c.spaces[s].file in c.files && c.spaces[s].numPages <= NumPhysPages)
  }

  /** The frame table and the resident entries of all page tables are inverse to each other, and once
      a program has been loaded no frame is free. */
  ghost predicate Consistent(c: Core) {
    && Sizes(c)
    && (forall f {:trigger FrameBack(c, f)} :: 0 <= f < NumPhysPages ==> FrameBack(c, f))
    && (forall s, v {:trigger EntryBack(c, s, v)} :: 0 <= s < |c.tables| && 0 <= v < NumPhysPages ==> EntryBack(c, s, v))
  }

  /** No two resident entries, in whatever address spaces, share a frame. */
  lemma {:induction false} ResidentPagesDoNotShare(c: Core, s: nat, v: nat, s': nat, v': nat)
    requires Consistent(c) && s < |c.tables| && s' < |c.tables| && v < NumPhysPages && v' < NumPhysPages
    requires Present(c.tables[s][v]) && Present(c.tables[s'][v']) && c.tables[s][v].physicalPage == c.tables[s'][v'].physicalPage
    ensures s == s' && v == v'
  {
    assert EntryBack(c, s, v) && EntryBack(c, s', v');
  }

  function FrameBytes(memory: seq<Byte>, f: nat): seq<Byte>
    requires (f + 1) * PageSize <= |memory|
  {
    memory[f * PageSize..(f + 1) * PageSize]
  }

  /** One frame, and the whole state, as module VirtualMemory sees it. */
  function FrameView(c: Core, f: nat): Frame
    requires f < |c.global| && (f + 1) * PageSize <= |c.memory|
    requires 0 <= c.global[f].ref < |c.tables| && 0 <= c.global[f].virNum < |c.tables[c.global[f].ref]| && c.global[f].useStamp >= 0
  {
    var g := c.global[f];
    Frame(Page(g.ref, g.virNum), g.useStamp, c.tables[g.ref][g.virNum].dirty, FrameBytes(c.memory, f))
  }

  ghost function View(c: Core): (vm: Vm)
    requires Consistent(c)
    ensures |vm.frames| == (if c.spaces == [] then 0 else NumPhysPages) && vm.spaces == c.spaces && vm.files == c.files
    ensures forall f :: 0 <= f < |vm.frames| ==> FrameBack(c, f) && vm.frames[f] == FrameView(c, f)
  {
    Vm(c.spaces,
       seq(if c.spaces == [] then 0 else NumPhysPages, f requires 0 <= f < NumPhysPages && c.spaces != [] =>
         assert FrameBack(c, f); FrameView(c, f)),
       c.files)
  }

  /** A page has a frame exactly if its entry says so, and it is that frame. */
  lemma {:induction false} Located(c: Core, s: nat, v: nat)
    requires Consistent(c) && s < |c.tables| && v < NumPhysPages
    ensures Resident(View(c).frames, Page(s, v)) <==> Present(c.tables[s][v])
    ensures Present(c.tables[s][v]) ==> Locate(View(c).frames, Page(s, v)) == c.tables[s][v].physicalPage < NumPhysPages
  {
    var e, vm := c.tables[s][v], View(c);
    assert EntryBack(c, s, v);
    if Present(e) {
      assert vm.frames[e.physicalPage].page == Page(s, v);
      forall f | 0 <= f < NumPhysPages && vm.frames[f].page == Page(s, v) ensures f == e.physicalPage {
        assert FrameBack(c, f);
      }
    } else {
      forall f | 0 <= f < |vm.frames| ensures vm.frames[f].page != Page(s, v) {
        assert FrameBack(c, f);
      }
    }
  }

  // ---------- What the operations do to it ----------

  /** The end of Translate: use and dirty bits are set and the use of the frame is counted. */
  function Recorded(c: Core, s: nat, v: nat, writing: bool): Core
    requires s < |c.tables| && v < |c.tables[s]| && 0 <= c.tables[s][v].physicalPage < |c.global|
  {
    var e := c.tables[s][v];
    var g := c.global[e.physicalPage];
    c.(global := c.global[e.physicalPage := g.(useStamp := g.useStamp + 1)],
       tables := c.tables[s := c.tables[s][v := e.(use := true, dirty := e.dirty || writing)]])
  }

  /** The event of a translation: a read, or a write of no bytes. */
  function Translation(p: Page, offset: nat, writing: bool): Event {
    if writing then Write(p, offset, []) else Read(p)
  }

  lemma {:induction false} RecordedConsistent(c: Core, s: nat, v: nat, writing: bool)
    requires Consistent(c) && s < |c.tables| && v < NumPhysPages && Present(c.tables[s][v])
    ensures EntryBack(c, s, v) && Consistent(Recorded(c, s, v, writing))
  {
    assert EntryBack(c, s, v);
    var c' := Recorded(c, s, v, writing);
    forall f | 0 <= f < NumPhysPages ensures FrameBack(c', f) {
      assert FrameBack(c, f);
    }
    forall t, w | 0 <= t < |c'.tables| && 0 <= w < NumPhysPages ensures EntryBack(c', t, w) {
      assert EntryBack(c, t, w);
    }
  }

  lemma {:induction false} RecordedView(c: Core, s: nat, v: nat, writing: bool, offset: nat)
    requires Consistent(c) && s < |c.tables| && v < NumPhysPages && Present(c.tables[s][v]) && offset <= PageSize
    ensures EntryBack(c, s, v) && Consistent(Recorded(c, s, v, writing))
    ensures View(Recorded(c, s, v, writing)) == UseAt(View(c), c.tables[s][v].physicalPage, Translation(Page(s, v), offset, writing))
  {
    RecordedConsistent(c, s, v, writing);
    var c', f := Recorded(c, s, v, writing), c.tables[s][v].physicalPage;
    var vm, vm' := View(c), UseAt(View(c), f, Translation(Page(s, v), offset, writing));
    assert EntryBack(c, s, v) && FrameBack(c, f);
    forall g | 0 <= g < NumPhysPages ensures FrameBack(c', g) && FrameView(c', g) == vm'.frames[g] {
      assert FrameBack(c, g) && FrameBack(c', g) && vm.frames[g] == FrameView(c, g);
      if g != f {
        assert c.global[g].ref != s || c.global[g].virNum != v;
      }
    }
    assert View(c').frames == vm'.frames;
  }

  function PutFrame(memory: seq<Byte>, f: nat, bytes: seq<Byte>): seq<Byte>
    requires (f + 1) * PageSize <= |memory|
  {
    memory[..f * PageSize] + bytes + memory[(f + 1) * PageSize..]
  }

  lemma {:induction false} FrameAfterPut(memory: seq<Byte>, f: nat, bytes: seq<Byte>, g: nat)
    requires |memory| == NumPhysPages * PageSize && f < NumPhysPages && g < NumPhysPages && |bytes| == PageSize
    ensures |PutFrame(memory, f, bytes)| == |memory|
    ensures FrameBytes(PutFrame(memory, f, bytes), g) == if g == f then bytes else FrameBytes(memory, g)
  {
    var memory' := PutFrame(memory, f, bytes);
    forall i | 0 <= i < PageSize
      ensures FrameBytes(memory', g)[i] == if g == f then bytes[i] else FrameBytes(memory, g)[i]
    {
      assert FrameBytes(memory', g)[i] == memory'[g * PageSize + i];
    }
  }

  /** The files after a dirty page was written back from frame f. */
  function FilesWritten(c: Core, f: nat): map<File, seq<Byte>>
    requires f < |c.global| && (f + 1) * PageSize <= |c.memory|
    requires 0 <= c.global[f].ref < |c.tables| && 0 <= c.global[f].virNum < |c.tables[c.global[f].ref]|
    requires var e := c.tables[c.global[f].ref][c.global[f].virNum]; e.file in c.files && 0 <= e.virtualPage
  {
    var e := c.tables[c.global[f].ref][c.global[f].virNum];
    if e.dirty then c.files[e.file := WriteBack(c.files[e.file], FrameBytes(c.memory, f), e.virtualPage)] else c.files
  }

  /** The page tables and the global table after frame f has been given to page v of table s. */
  function TablesReassigned(c: Core, s: nat, v: nat, f: nat): seq<seq<Entry>>
    requires f < |c.global| && s < |c.tables| && v < |c.tables[s]|
    requires 0 <= c.global[f].ref < |c.tables| && 0 <= c.global[f].virNum < |c.tables[c.global[f].ref]|
  {
    var r, w := c.global[f].ref, c.global[f].virNum;
    var t1 := c.tables[r := c.tables[r][w := c.tables[r][w].(valid := false)]];
    t1[s := t1[s][v := t1[s][v].(physicalPage := f, valid := true, use := false, dirty := false, readOnly := false)]]
  }

  function GlobalReassigned(c: Core, s: nat, v: nat, f: nat): seq<GlobalEntry>
    requires f < |c.global| && s < |c.tables| && v < |c.tables[s]|
  {
    c.global[f := GlobalEntry(c.tables[s][v].virtualPage, 0, s)]
  }

  /** The page-fault handler for page v of address space s, with frame f as the victim. */
  function Handled(c: Core, s: nat, v: nat, f: nat): Core
    requires f < |c.global| && s < |c.tables| == |c.spaces| && v < |c.tables[s]| && (f + 1) * PageSize <= |c.memory|
    requires 0 <= c.global[f].ref < |c.tables| && 0 <= c.global[f].virNum < |c.tables[c.global[f].ref]|
    requires var e := c.tables[c.global[f].ref][c.global[f].virNum]; e.file in c.files && 0 <= e.virtualPage
    requires c.tables[s][v].file in c.files
  {
    var files := FilesWritten(c, f);
    Core(GlobalReassigned(c, s, v, f),
         PutFrame(c.memory, f, FillPage(c.spaces[s].program, files[c.tables[s][v].file], v, FrameBytes(c.memory, f))),
         c.spaces, TablesReassigned(c, s, v, f), files)
  }

  /** The frame holds a page of a known file. */
  ghost predicate CanHandleFrame(c: Core, f: nat) {
    && f < |c.global| && (f + 1) * PageSize <= |c.memory|
    && 0 <= c.global[f].ref < |c.tables| && 0 <= c.global[f].virNum < |c.tables[c.global[f].ref]|
    && var e := c.tables[c.global[f].ref][c.global[f].virNum]; e.file in c.files && e.virtualPage == c.global[f].virNum
  }

  /** In a consistent state the handler can go on. */
  lemma {:induction false} CanHandle(c: Core, s: nat, v: nat, f: nat)
    requires Consistent(c) && s < |c.tables| && v < NumPhysPages && f < NumPhysPages
    ensures 0 <= c.global[f].ref < |c.tables| && 0 <= c.global[f].virNum < |c.tables[c.global[f].ref]|
    ensures var e := c.tables[c.global[f].ref][c.global[f].virNum]; e.file in c.files && e.virtualPage == c.global[f].virNum
    ensures c.tables[s][v].file in c.files && c.tables[s][v].virtualPage == v
  {
    assert FrameBack(c, f) && EntryBack(c, s, v);
    assert EntryBack(c, c.global[f].ref, c.global[f].virNum);
  }

  lemma {:induction false} HandledConsistent(c: Core, s: nat, v: nat, f: nat)
    requires Consistent(c) && s < |c.tables| && v < NumPhysPages && f < NumPhysPages && !Present(c.tables[s][v])
    ensures 0 <= c.global[f].ref < |c.tables| && 0 <= c.global[f].virNum < |c.tables[c.global[f].ref]|
    ensures var e := c.tables[c.global[f].ref][c.global[f].virNum]; e.file in c.files && 0 <= e.virtualPage
    ensures c.tables[s][v].file in c.files && Consistent(Handled(c, s, v, f))
  {
    CanHandle(c, s, v, f);
    var c' := Handled(c, s, v, f);
    assert FrameBack(c, f);
    FrameAfterPut(c.memory, f, FillPage(c.spaces[s].program, c'.files[c.tables[s][v].file], v, FrameBytes(c.memory, f)), f);
    forall g | 0 <= g < NumPhysPages ensures FrameBack(c', g) {
      assert FrameBack(c, g);
    }
    forall t, w | 0 <= t < |c'.tables| && 0 <= w < NumPhysPages ensures EntryBack(c', t, w) {
      assert EntryBack(c, t, w);
    }
  }

  /** The handler is a fault of the view. */
  lemma {:induction false} HandledView(c: Core, s: nat, v: nat, f: nat)
    requires Consistent(c) && Wf(View(c)) && s < |c.tables| && v < c.spaces[s].numPages && v < NumPhysPages
    requires f < NumPhysPages && !Present(c.tables[s][v]) && f == Victim(View(c).frames)
    ensures 0 <= c.global[f].ref < |c.tables| && 0 <= c.global[f].virNum < |c.tables[c.global[f].ref]|
    ensures var e := c.tables[c.global[f].ref][c.global[f].virNum]; e.file in c.files && 0 <= e.virtualPage
    ensures c.tables[s][v].file in c.files && Consistent(Handled(c, s, v, f))
    ensures View(Handled(c, s, v, f)) == Fault(View(c), Page(s, v))
  {
    HandledConsistent(c, s, v, f);
    var c', vm, vm' := Handled(c, s, v, f), View(c), Fault(View(c), Page(s, v));
    assert FrameBack(c, f) && vm.frames[f] == FrameView(c, f);
    assert EntryBack(c, s, v) && EntryBack(c, c.global[f].ref, c.global[f].virNum);
    assert c'.files == vm'.files;
    var filled := FillPage(c.spaces[s].program, c'.files[c.tables[s][v].file], v, FrameBytes(c.memory, f));
    forall g | 0 <= g < NumPhysPages ensures FrameBack(c', g) && FrameView(c', g) == vm'.frames[g] {
      assert FrameBack(c', g) && FrameBack(c, g) && vm.frames[g] == FrameView(c, g);
      FrameAfterPut(c.memory, f, filled, g);
    }
    assert View(c').frames == vm'.frames;
  }

  /** A translation is a use of the frame in the view. */
  lemma {:induction false} RecordedIsUse(c: Core, s: nat, v: nat, writing: bool, offset: nat)
    requires Consistent(c) && Wf(View(c)) && s < |c.tables| && v < NumPhysPages && Present(c.tables[s][v]) && offset <= PageSize
    requires v < c.spaces[s].numPages
    ensures EntryBack(c, s, v) && Consistent(Recorded(c, s, v, writing)) && Wf(View(Recorded(c, s, v, writing)))
    ensures Resident(View(c).frames, Page(s, v))
    ensures View(Recorded(c, s, v, writing)) == Step(View(c), Translation(Page(s, v), offset, writing))
  {
    RecordedView(c, s, v, writing, offset);
    Located(c, s, v);
    UseWf(View(c), c.tables[s][v].physicalPage, Translation(Page(s, v), offset, writing));
  }

  /** A fault and then the use of the frame are one step. */
  lemma {:induction false} FaultThenUse(vm: Vm, p: Page, offset: nat, writing: bool)
    requires Wf(vm) && Accessible(vm.spaces, p) && !Resident(vm.frames, p) && offset <= PageSize
    ensures Wf(Fault(vm, p)) && Step(Fault(vm, p), Translation(p, offset, writing)) == Step(vm, Translation(p, offset, writing))
  {
    FaultWf(vm, p);
  }

  /** With the frame of least use as victim. */
  lemma {:induction false} HandledIsFault(c: Core, s: nat, v: nat, f: nat)
    requires Consistent(c) && Wf(View(c)) && s < |c.tables| && v < c.spaces[s].numPages && v < NumPhysPages
    requires f < NumPhysPages && !Present(c.tables[s][v])
    requires forall g :: 0 <= g < NumPhysPages ==> c.global[f].useStamp <= c.global[g].useStamp
    requires forall g :: 0 <= g < f ==> c.global[f].useStamp < c.global[g].useStamp
    ensures CanHandleFrame(c, f) && c.tables[s][v].file in c.files && Consistent(Handled(c, s, v, f))
    ensures View(Handled(c, s, v, f)) == Fault(View(c), Page(s, v)) && Wf(View(Handled(c, s, v, f)))
    ensures Present(Handled(c, s, v, f).tables[s][v])
  {
    CanHandle(c, s, v, f);
    VictimIff(View(c).frames, f);
    HandledView(c, s, v, f);
    Located(c, s, v);
    FaultWf(View(c), Page(s, v));
  }

  /** Bytes are stored in a frame. */
  lemma {:induction false} StoredView(c: Core, f: nat, bytes: seq<Byte>)
    requires Consistent(c) && c.spaces != [] && f < NumPhysPages && |bytes| == PageSize
    ensures Consistent(c.(memory := PutFrame(c.memory, f, bytes)))
    ensures View(c.(memory := PutFrame(c.memory, f, bytes)))
            == View(c).(frames := View(c).frames[f := View(c).frames[f].(bytes := bytes)])
  {
    var c' := c.(memory := PutFrame(c.memory, f, bytes));
    FrameAfterPut(c.memory, f, bytes, f);
    forall g | 0 <= g < NumPhysPages ensures FrameBack(c', g) {
      assert FrameBack(c, g);
    }
    forall t, w | 0 <= t < |c'.tables| && 0 <= w < NumPhysPages ensures EntryBack(c', t, w) {
      assert EntryBack(c, t, w);
    }
    var frames' := View(c).frames[f := View(c).frames[f].(bytes := bytes)];
    forall g | 0 <= g < NumPhysPages ensures View(c').frames[g] == frames'[g] {
      FrameAfterPut(c.memory, f, bytes, g);
      assert FrameBack(c, g) && FrameBack(c', g);
    }
    assert View(c').frames == frames';
  }

  /** A new page table, with or without frames. */
  function NewTable(sp: Space, framed: bool): seq<Entry> {
    seq(NumPhysPages, v requires 0 <= v < NumPhysPages => Entry(v, if framed then v else -1, true, false, false, false, sp.file))
  }

  function AllFrames(ref: int): seq<GlobalEntry> {
    seq(NumPhysPages, f requires 0 <= f < NumPhysPages => GlobalEntry(f, 0, ref))
  }

  /** Load: the first program gets all frames and its segments are copied there, later ones get none. */
  function CoreLoaded(c: Core, sp: Space): Core
    requires sp.file in c.files
  {
    var first := c.spaces == [];
    c.(global := if first then AllFrames(0) else c.global,
       memory := if first then seq(|c.memory|, a requires 0 <= a < |c.memory| => LoadByte(sp.program, c.files[sp.file], a, c.memory[a])) else c.memory,
       spaces := c.spaces + [sp],
       tables := c.tables + [NewTable(sp, first)])
  }

  lemma {:induction false} LoadedView(c: Core, sp: Space)
    requires Consistent(c) && sp.file in c.files && sp.numPages <= NumPhysPages
    requires c.spaces == [] ==> forall a :: 0 <= a < |c.memory| ==> c.memory[a] == 0
    ensures Consistent(CoreLoaded(c, sp)) && View(CoreLoaded(c, sp)) == Loaded(View(c), sp)
  {
    var c', vm' := CoreLoaded(c, sp), Loaded(View(c), sp);
    forall f | 0 <= f < NumPhysPages ensures FrameBack(c', f) {
      assert FrameBack(c, f);
    }
    forall t, w | 0 <= t < |c'.tables| && 0 <= w < NumPhysPages ensures EntryBack(c', t, w) {
      assert t < |c.tables| ==> EntryBack(c, t, w);
    }
    forall f | 0 <= f < NumPhysPages ensures View(c').frames[f] == vm'.frames[f] {
      assert FrameBack(c, f) && FrameBack(c', f);
      if c.spaces == [] {
        var file := c.files[sp.file];
        assert FrameBytes(c'.memory, f) == LoadPage(sp.program, file, f);
      } else {
        assert View(c).frames[f] == FrameView(c, f);
      }
    }
    assert View(c').frames == vm'.frames;
  }

  /** The exception an access raises, as a function of the page table. */
  function Outcome(table: seq<Entry>, numPages: nat, virtAddr: Int32, size: int, writing: bool): Exception
    requires numPages <= |table|
  {
    var u := if virtAddr < 0 then virtAddr + 0x1_0000_0000 else virtAddr;
    if (size == 4 && virtAddr % 4 != 0) || (size == 2 && virtAddr % 2 != 0) || u / PageSize >= numPages then AddressError
    else if !Present(table[u / PageSize]) then PageFault
    else if table[u / PageSize].readOnly && writing then ReadOnly
    else if table[u / PageSize].physicalPage >= NumPhysPages then BusError
    else NoException
  }

  /** The physical address of virtual address a, if its page has a frame. */
  function Phys(table: seq<Entry>, a: nat): int
    requires |table| == NumPhysPages && a < NumPhysPages * PageSize
  {
    table[a / PageSize].physicalPage * PageSize + a % PageSize
  }

  lemma WithinPage(a: nat, size: nat)
    requires size == 1 || (size == 2 && a % 2 == 0) || (size == 4 && a % 4 == 0)
    ensures a % PageSize + size <= PageSize
  {
  }

  /** Different addresses of a table whose pages have different frames are in different places. */
  lemma {:induction false} PhysIsInjective(c: Core, s: nat, a: nat, b: nat)
    requires Consistent(c) && s < |c.tables| && a < NumPhysPages * PageSize && b < NumPhysPages * PageSize
    requires Present(c.tables[s][a / PageSize]) && Present(c.tables[s][b / PageSize]) && Phys(c.tables[s], a) == Phys(c.tables[s], b)
    ensures a == b
  {
    assert EntryBack(c, s, a / PageSize) && EntryBack(c, s, b / PageSize);
  }

  lemma {:induction false} SliceOfFrame(memory: seq<Byte>, f: nat, i: nat, size: nat)
    requires |memory| == NumPhysPages * PageSize && f < NumPhysPages && i + size <= PageSize
    ensures f * PageSize + i + size <= |memory| && |FrameBytes(memory, f)| == PageSize
    ensures memory[f * PageSize + i..f * PageSize + i + size] == FrameBytes(memory, f)[i..i + size]
  {
    var lo := f * PageSize;
    var frame := memory[lo..lo + PageSize];
    assert FrameBytes(memory, f) == frame;
    var left, right := memory[lo + i..lo + i + size], frame[i..i + size];
    forall k | 0 <= k < size ensures left[k] == right[k] {
      assert frame[i + k] == memory[lo + (i + k)];
    }
  }

  /** What memory has at a physical address is what the view has in the page. */
  lemma {:induction false} BytesAt(c: Core, s: nat, a: nat, size: nat)
    requires Consistent(c) && s < |c.tables| && a / PageSize < NumPhysPages && Present(c.tables[s][a / PageSize])
    requires a % PageSize + size <= PageSize
    ensures var p, i, x := Page(s, a / PageSize), a % PageSize, Phys(c.tables[s], a);
      && Resident(View(c).frames, p) && 0 <= x && x + size <= |c.memory|
      && |View(c).frames[Locate(View(c).frames, p)].bytes| == PageSize
      && c.memory[x..x + size] == View(c).frames[Locate(View(c).frames, p)].bytes[i..i + size]
  {
    Located(c, s, a / PageSize);
    var f := c.tables[s][a / PageSize].physicalPage;
    assert FrameBack(c, f) && View(c).frames[f] == FrameView(c, f);
    SliceOfFrame(c.memory, f, a % PageSize, size);
  }

  /** Storing bytes at a physical address stores them in the page. */
  lemma {:induction false} PatchIsPut(memory: seq<Byte>, f: nat, i: nat, data: seq<Byte>)
    requires |memory| == NumPhysPages * PageSize && f < NumPhysPages && i + |data| <= PageSize
    ensures Patch(memory, f * PageSize + i, data) == PutFrame(memory, f, PutBytes(FrameBytes(memory, f), i, data))
  {
  }

  lemma {:induction false} StoredAt(c: Core, s: nat, a: nat, data: seq<Byte>)
    requires Consistent(c) && s < |c.tables| && a / PageSize < NumPhysPages && Present(c.tables[s][a / PageSize])
    requires a % PageSize + |data| <= PageSize
    ensures 0 <= Phys(c.tables[s], a) && Phys(c.tables[s], a) + |data| <= |c.memory|
    ensures var c' := c.(memory := Patch(c.memory, Phys(c.tables[s], a), data)); var vm, f := View(c), Locate(View(c).frames, Page(s, a / PageSize));
      && Consistent(c') && f < |vm.frames|
      && View(c') == vm.(frames := vm.frames[f := vm.frames[f].(bytes := PutBytes(vm.frames[f].bytes, a % PageSize, data))])
  {
    Located(c, s, a / PageSize);
    var f, i := c.tables[s][a / PageSize].physicalPage, a % PageSize;
    assert FrameBack(c, f) && View(c).frames[f] == FrameView(c, f);
    PatchIsPut(c.memory, f, i, data);
    StoredView(c, f, PutBytes(FrameBytes(c.memory, f), i, data));
  }

  /** A write of bytes is a write of none and then the bytes. */
  lemma {:induction false} UseSplit(vm: Vm, f: nat, p: Page, i: nat, data: seq<Byte>)
    requires f < |vm.frames| && |vm.frames[f].bytes| == PageSize && i + |data| <= PageSize
    ensures var vm1 := UseAt(vm, f, Write(p, i, []));
      && vm1.frames[f].bytes == vm.frames[f].bytes
      && UseAt(vm, f, Write(p, i, data)) == vm1.(frames := vm1.frames[f := vm1.frames[f].(bytes := PutBytes(vm1.frames[f].bytes, i, data))])
  {
    var vm1, vm2 := UseAt(vm, f, Write(p, i, [])), UseAt(vm, f, Write(p, i, data));
    assert vm1.frames[f].bytes == vm.frames[f].bytes;
    assert vm2.frames == vm1.frames[f := vm1.frames[f].(bytes := PutBytes(vm1.frames[f].bytes, i, data))];
  }

  lemma {:induction false} WriteSplit(vm: Vm, p: Page, i: nat, data: seq<Byte>)
    requires Wf(vm) && Accessible(vm.spaces, p) && i + |data| <= PageSize
    ensures var vm1 := Step(vm, Write(p, i, [])); var f := Locate(vm1.frames, p);
      && f < |vm1.frames|
      && Step(vm, Write(p, i, data)) == vm1.(frames := vm1.frames[f := vm1.frames[f].(bytes := PutBytes(vm1.frames[f].bytes, i, data))])
  {
    AfterAccess(vm, Write(p, i, []));
    var vm0 := Entered(vm, p);
    var f := Locate(vm0.frames, p);
    assert Wf(vm0) && f < |vm0.frames| by {
      if !Resident(vm.frames, p) {
        FaultWf(vm, p);
      }
    }
    assert FrameOk(vm0.spaces, vm0.frames[f]);
    UseSplit(vm0, f, p, i, data);
  }

  /** After the handler the access raises no exception, and the step still to come is the one it was. */
  lemma {:induction false} EnteredOutcome(c: Core, s: nat, virtAddr: Int32, size: int, writing: bool, f: nat)
    requires Consistent(c) && s < |c.tables| && f < NumPhysPages && 0 <= virtAddr
    requires Outcome(c.tables[s], c.spaces[s].numPages, virtAddr, size, writing) == PageFault
    ensures CanHandleFrame(c, f) && c.tables[s][virtAddr / PageSize].file in c.files
    ensures Outcome(Handled(c, s, virtAddr / PageSize, f).tables[s], c.spaces[s].numPages, virtAddr, size, writing) == NoException
  {
    CanHandle(c, s, virtAddr / PageSize, f);
  }

  lemma {:induction false} EnteredStep(c: Core, s: nat, v: nat, offset: nat, writing: bool, f: nat)
    requires Consistent(c) && Wf(View(c)) && s < |c.tables| && v < c.spaces[s].numPages && f < NumPhysPages
    requires offset <= PageSize && !Present(c.tables[s][v]) && CanHandleFrame(c, f) && c.tables[s][v].file in c.files
    requires Consistent(Handled(c, s, v, f)) && View(Handled(c, s, v, f)) == Fault(View(c), Page(s, v))
    ensures Wf(View(Handled(c, s, v, f)))
    ensures Step(View(Handled(c, s, v, f)), Translation(Page(s, v), offset, writing)) == Step(View(c), Translation(Page(s, v), offset, writing))
  {
    Located(c, s, v);
    FaultThenUse(View(c), Page(s, v), offset, writing);
  }

  /** How Load ends: it returns true or false, or it does not return because the file has no proper header. */
  datatype LoadResult = Success | NoSuchFile | Stopped

  function ResultOf(files: map<File, seq<Byte>>, file: File): LoadResult {
    if file !in files then NoSuchFile else if Loadable(files[file]) then Success else Stopped
  }

  // ---------- The machine ----------

  class Machine {
    const global: array<GlobalEntry>
    const memory: array<Byte>
    var files: map<File, seq<Byte>>
    /** The address spaces loaded so far and their page tables. */
    var spaces: seq<Space>
    var tables: seq<seq<Entry>>
    /** The address space that is running, by number; Null if none is. */
    var running: int

    ghost function Contents(): Core
      reads this, global, memory
    {
      Core(global[..], memory[..], spaces, tables, files)
    }

    ghost predicate Valid()
      reads this, global, memory
    {
      && Consistent(Contents()) && Wf(View(Contents())) && Null <= running < |spaces|
      && (spaces == [] ==> forall a :: 0 <= a < memory.Length ==> memory[a] == 0)
    }

    /** Pages, frames and files. */
    ghost function State(): Vm
      requires Valid()
      reads this, global, memory
    {
      View(Contents())
    }

    ghost function Now(): Moment
      requires Valid()
      reads this, global, memory
    {
      Moment(State(), running)
    }

    constructor (files: map<File, seq<Byte>>)
      ensures Valid() && State() == Start(files) && running == Null && fresh(global) && fresh(memory)
    {
      global := new GlobalEntry[NumPhysPages](_ => GlobalEntry(-1, 0, Null));
      memory := new Byte[NumPhysPages * PageSize](_ => 0);
      this.files, spaces, tables, running := files, [], [], Null;
      new;
      assert forall f :: 0 <= f < NumPhysPages ==> FrameBack(Contents(), f);
    }

    /** The first free frame, now claimed for the page; -1 if there is none. */
    method FindFreeFrame(virNum: int, ref: int) returns (frame: int)
      modifies global
      ensures -1 <= frame < global.Length
      ensures frame == -1 ==> global[..] == old(global[..]) && forall f :: 0 <= f < global.Length ==> global[f].ref != Null
      ensures frame >= 0 ==> old(global[frame].ref) == Null && (forall f :: 0 <= f < frame ==> old(global[f].ref) != Null)
                             && global[..] == old(global[..])[frame := GlobalEntry(virNum, 0, ref)]
    {
      var i := 0;
      while i < global.Length
        invariant 0 <= i <= global.Length && global[..] == old(global[..])
        invariant forall f :: 0 <= f < i ==> global[f].ref != Null
      {
        if global[i].ref == Null {
          global[i] := GlobalEntry(virNum, 0, ref);
          return i;
        }
        i := i + 1;
      }
      frame := -1;
    }

    /** The frame with the smallest use counter, the first of these. No frame may be free. */
    method FindFreeByLRU() returns (frame: nat)
      requires global.Length > 0 && forall f :: 0 <= f < global.Length ==> global[f].ref != Null
      ensures frame < global.Length
      ensures forall f :: 0 <= f < global.Length ==> global[frame].useStamp <= global[f].useStamp
      ensures forall f :: 0 <= f < frame ==> global[frame].useStamp < global[f].useStamp
    {
      frame := 0;
      var i := 0;
      while i < global.Length
        invariant 0 <= i <= global.Length && frame < global.Length && (i == 0 ==> frame == 0) && (i > 0 ==> frame < i)
        invariant forall f :: 0 <= f < i ==> global[frame].useStamp <= global[f].useStamp
        invariant forall f :: 0 <= f < frame ==> global[frame].useStamp < global[f].useStamp
      {
        assert global[i].ref != Null;
        if global[i].useStamp < global[frame].useStamp {
          frame := i;
        }
        i := i + 1;
      }
    }

    /** The end of Translate: set the use and dirty bits and count the use of the frame. */
    method RecordUse(s: nat, vpn: nat, writing: bool)
      requires Sizes(Contents()) && s < |tables| && vpn < NumPhysPages && 0 <= tables[s][vpn].physicalPage < NumPhysPages
      modifies this`tables, global
      ensures Contents() == Recorded(old(Contents()), s, vpn, writing)
    {
      var e := tables[s][vpn];
      tables := tables[s := tables[s][vpn := e.(use := true, dirty := e.dirty || writing)]];
      global[e.physicalPage] := global[e.physicalPage].(useStamp := global[e.physicalPage].useStamp + 1);
    }

    /** Translate: find the frame for a virtual address, check the access, and record the use in both tables. */
    method Translate(virtAddr: Int32, size: int, writing: bool) returns (exception: Exception, physAddr: int)
      requires Valid() && running != Null && (size == 1 || size == 2 || size == 4)
      modifies this`tables, global
      ensures exception == Outcome(old(tables[running]), spaces[running].numPages, virtAddr, size, writing)
      ensures exception != NoException ==> Contents() == old(Contents())
      ensures exception == NoException ==>
                && 0 <= virtAddr < NumPhysPages * PageSize && virtAddr / PageSize < spaces[running].numPages
                && Present(old(tables[running][virtAddr / PageSize]))
                && 0 <= old(tables[running][virtAddr / PageSize].physicalPage) < NumPhysPages
                && Contents() == Recorded(old(Contents()), running, virtAddr / PageSize, writing)
                && physAddr == Phys(old(tables[running]), virtAddr)
                && tables[running][virtAddr / PageSize].use
                && tables[running][virtAddr / PageSize].dirty == (old(tables[running][virtAddr / PageSize].dirty) || writing)
    {
      physAddr := 0;
      if (size == 4 && virtAddr % 4 != 0) || (size == 2 && virtAddr % 2 != 0) {
        return AddressError, 0;
      }
      var u := if virtAddr < 0 then virtAddr + 0x1_0000_0000 else virtAddr;
      var vpn, offset := u / PageSize, u % PageSize;
      if vpn >= spaces[running].numPages {
        return AddressError, 0;
      }
      var table := tables[running];
      if !table[vpn].valid || table[vpn].physicalPage == -1 {
        return PageFault, 0;
      }
      if table[vpn].readOnly && writing {
        return ReadOnly, 0;
      }
      var frame := table[vpn].physicalPage;
      assert EntryBack(Contents(), running, vpn);
      if frame < 0 || frame >= NumPhysPages {
        return BusError, 0;
      }
      RecordUse(running, vpn, writing);
      return NoException, frame * PageSize + offset;
    }

    /** The handler's loop: fill a frame byte by byte from the program's file. */
    method FillFrame(frame: nat, vpn: nat, program: Program, file: seq<Byte>)
      requires frame < NumPhysPages && memory.Length == NumPhysPages * PageSize
      modifies memory
      ensures memory[..] == PutFrame(old(memory[..]), frame, FillPage(program, file, vpn, FrameBytes(old(memory[..]), frame)))
    {
      var i := 0;
      while i < PageSize
        invariant 0 <= i <= PageSize
        invariant forall k :: frame * PageSize <= k < frame * PageSize + i ==>
                    memory[k] == FillByte(program, file, vpn * PageSize + (k - frame * PageSize), old(memory[k]))
        invariant forall k :: 0 <= k < memory.Length && !(frame * PageSize <= k < frame * PageSize + i) ==> memory[k] == old(memory[k])
      {
        var vAddr, pAddr := vpn * PageSize + i, frame * PageSize + i;
        var offset := FileOffset(program, vAddr);
        if offset.Some? && 0 <= offset.value < |file| {
          memory[pAddr] := file[offset.value];
        }
        i := i + 1;
      }
    }

    /** A dirty victim is written back to its file, at the offset of its virtual page. */
    method WriteBackVictim(frame: nat)
      requires Consistent(Contents()) && spaces != [] && frame < NumPhysPages
      modifies this`files
      ensures CanHandleFrame(old(Contents()), frame)
      ensures Contents() == old(Contents()).(files := FilesWritten(old(Contents()), frame))
    {
      CanHandle(Contents(), 0, 0, frame);
      var g := global[frame];
      var e := tables[g.ref][g.virNum];
      if e.dirty {
        files := files[e.file := WriteBack(files[e.file], memory[frame * PageSize..(frame + 1) * PageSize], e.virtualPage)];
      }
    }

    /** The handler's table updates: the page that had the frame becomes invalid, and the faulting page
        gets the frame, with its use counter at zero. */
    method Reassign(frame: nat, s: nat, vpn: nat)
      requires Sizes(Contents()) && frame < NumPhysPages && s < |tables| && vpn < NumPhysPages
      requires 0 <= global[frame].ref < |tables| && 0 <= global[frame].virNum < NumPhysPages
      modifies this`tables, global
      ensures Contents() == old(Contents()).(global := GlobalReassigned(old(Contents()), s, vpn, frame),
                                             tables := TablesReassigned(old(Contents()), s, vpn, frame))
    {
      var r, vir := global[frame].ref, global[frame].virNum;
      tables := tables[r := tables[r][vir := tables[r][vir].(valid := false)]];
      global[frame] := GlobalEntry(tables[s][vpn].virtualPage, 0, s);
      tables := tables[s := tables[s][vpn := tables[s][vpn].(physicalPage := frame, valid := true, use := false, dirty := false, readOnly := false)]];
    }

    /** The page-fault handler. No frame is ever free here, so a victim is evicted, the frame with the smallest
        use counter: it is written back if it is dirty, and the faulting page is filled in. Nothing else changes,
        and accessing the address again is no exception. */
    method HandlePageFault(virtAddr: int) returns (frame: nat)
      requires Valid() && running != Null && 0 <= virtAddr && virtAddr / PageSize < spaces[running].numPages
      requires !Present(tables[running][virtAddr / PageSize])
      modifies this`files, this`tables, global, memory
      ensures frame < NumPhysPages && CanHandleFrame(old(Contents()), frame) && old(tables[running][virtAddr / PageSize]).file in old(files)
      ensures forall f :: 0 <= f < NumPhysPages ==> old(global[frame].useStamp) <= old(global[f].useStamp)
      ensures forall f :: 0 <= f < frame ==> old(global[frame].useStamp) < old(global[f].useStamp)
      ensures Contents() == Handled(old(Contents()), running, virtAddr / PageSize, frame)
      ensures Valid() && Present(tables[running][virtAddr / PageSize])
      ensures !tables[running][virtAddr / PageSize].use && !tables[running][virtAddr / PageSize].dirty && global[frame].useStamp == 0
      ensures State() == Fault(old(State()), Page(running, virtAddr / PageSize))
    {
      var vpn := virtAddr / PageSize;
      ghost var c := Contents();
      frame := ChooseVictim(vpn);
      HandledIsFault(c, running, vpn, frame);
      Replace(frame, vpn);
    }

    /** No frame is free, so the one with the smallest counter is taken. */
    method ChooseVictim(vpn: nat) returns (frame: nat)
      requires Consistent(Contents()) && spaces != []
      modifies global
      ensures global[..] == old(global[..]) && frame < NumPhysPages
      ensures forall f :: 0 <= f < NumPhysPages ==> global[frame].useStamp <= global[f].useStamp
      ensures forall f :: 0 <= f < frame ==> global[frame].useStamp < global[f].useStamp
    {
      forall f | 0 <= f < NumPhysPages ensures global[f].ref != Null {
        assert FrameBack(Contents(), f);
      }
      var free := FindFreeFrame(vpn, running);
      assert free == -1;
      frame := FindFreeByLRU();
    }

    method Replace(frame: nat, vpn: nat)
      requires Consistent(Contents()) && 0 <= running < |spaces| && frame < NumPhysPages && vpn < NumPhysPages
      modifies this`files, this`tables, global, memory
      ensures CanHandleFrame(old(Contents()), frame) && old(tables[running][vpn]).file in old(files)
      ensures Contents() == Handled(old(Contents()), running, vpn, frame)
    {
      CanHandle(Contents(), running, vpn, frame);
      WriteBackVictim(frame);
      FillFrame(frame, vpn, spaces[running].program, files[tables[running][vpn].file]);
      Reassign(frame, running, vpn);
    }

    /** Translate for an entry that has a frame. */
    method UsePage(virtAddr: Int32, size: int, writing: bool) returns (exception: Exception, physAddr: int)
      requires Valid() && running != Null && (size == 1 || size == 2 || size == 4)
      modifies this`tables, global
      ensures Valid() && exception == Outcome(old(tables[running]), spaces[running].numPages, virtAddr, size, writing)
      ensures exception != NoException ==> Contents() == old(Contents())
      ensures exception == NoException ==>
                && 0 <= virtAddr && virtAddr / PageSize < spaces[running].numPages && Present(tables[running][virtAddr / PageSize])
                && physAddr == Phys(tables[running], virtAddr) && virtAddr % PageSize + size <= PageSize
                && State() == Step(old(State()), Translation(Page(running, virtAddr / PageSize), virtAddr % PageSize, writing))
    {
      ghost var c := Contents();
      exception, physAddr := Translate(virtAddr, size, writing);
      if exception == NoException {
        WithinPage(virtAddr, size);
        RecordedIsUse(c, running, virtAddr / PageSize, writing, virtAddr % PageSize);
      }
    }

    /** Translate, and on a page fault handle it and translate again: the second attempt never fails. */
    method Access(virtAddr: Int32, size: int, writing: bool) returns (ok: bool, physAddr: int)
      requires Valid() && running != Null && (size == 1 || size == 2 || size == 4)
      modifies this`files, this`tables, global, memory
      ensures Valid() && (ok <==> Outcome(old(tables[running]), spaces[running].numPages, virtAddr, size, writing) in {NoException, PageFault})
      ensures !ok ==> Contents() == old(Contents())
      ensures ok ==> && 0 <= virtAddr && virtAddr / PageSize < spaces[running].numPages && Present(tables[running][virtAddr / PageSize])
                     && physAddr == Phys(tables[running], virtAddr) && virtAddr % PageSize + size <= PageSize
                     && State() == Step(old(State()), Translation(Page(running, virtAddr / PageSize), virtAddr % PageSize, writing))
    {
      var exception;
      exception, physAddr := UsePage(virtAddr, size, writing);
      if exception != NoException {
        if exception == PageFault {
          exception, physAddr := FaultAndRetry(virtAddr, size, writing);
        } else {
          return false, 0;
        }
      }
      ok := true;
    }

    method FaultAndRetry(virtAddr: Int32, size: int, writing: bool) returns (exception: Exception, physAddr: int)
      requires Valid() && running != Null && (size == 1 || size == 2 || size == 4)
      requires Outcome(tables[running], spaces[running].numPages, virtAddr, size, writing) == PageFault
      modifies this`files, this`tables, global, memory
      ensures Valid() && exception == NoException
      ensures && 0 <= virtAddr && virtAddr / PageSize < spaces[running].numPages && Present(tables[running][virtAddr / PageSize])
              && physAddr == Phys(tables[running], virtAddr) && virtAddr % PageSize + size <= PageSize
              && State() == Step(old(State()), Translation(Page(running, virtAddr / PageSize), virtAddr % PageSize, writing))
    {
      EnterPage(virtAddr, size, writing);
      exception, physAddr := UsePage(virtAddr, size, writing);
    }

    /** The handler leaves a page that can be accessed, and the step still to come is the one it was. */
    method EnterPage(virtAddr: Int32, size: int, writing: bool)
      requires Valid() && running != Null && (size == 1 || size == 2 || size == 4)
      requires Outcome(tables[running], spaces[running].numPages, virtAddr, size, writing) == PageFault
      modifies this`files, this`tables, global, memory
      ensures Valid() && 0 <= virtAddr
      ensures Outcome(tables[running], spaces[running].numPages, virtAddr, size, writing) == NoException
      ensures var e := Translation(Page(running, virtAddr / PageSize), virtAddr % PageSize, writing);
        Step(State(), e) == Step(old(State()), e)
    {
      ghost var c := Contents();
      assert 0 <= virtAddr && virtAddr / PageSize < spaces[running].numPages;
      var frame := HandlePageFault(virtAddr);
      EnteredOutcome(c, running, virtAddr, size, writing, frame);
      EnteredStep(c, running, virtAddr / PageSize, virtAddr % PageSize, writing, frame);
    }

    /** RestoreState: run an address space that has been loaded. */
    method SwitchTo(s: nat)
      requires Valid() && s < |spaces|
      modifies this`running
      ensures Valid() && running == s && Contents() == old(Contents())
    {
      running := s;
    }

    /** ReadMem of `size` bytes. */
    method ReadMem(virtAddr: Int32, size: int) returns (ok: bool, bytes: seq<Byte>)
      requires Valid() && running != Null && (size == 1 || size == 2 || size == 4)
      modifies this`files, this`tables, global, memory
      ensures Valid() && (ok <==> Outcome(old(tables[running]), spaces[running].numPages, virtAddr, size, false) in {NoException, PageFault})
      ensures !ok ==> Contents() == old(Contents())
      ensures ok ==>
                && 0 <= virtAddr && virtAddr / PageSize < spaces[running].numPages && virtAddr % PageSize + size <= PageSize
                && var p := Page(running, virtAddr / PageSize); var i := virtAddr % PageSize;
                State() == Step(old(State()), Read(p)) && |Seen(old(State()), p)| == PageSize && bytes == Seen(old(State()), p)[i..i + size]
      ensures ok <==> 0 <= virtAddr && virtAddr % size == 0 && virtAddr / 128 < spaces[running].numPages
    {
      OutcomeIs(Contents(), running, virtAddr, size, false);
      var physAddr;
      ok, physAddr := Access(virtAddr, size, false);
      if ok {
        BytesAt(Contents(), running, virtAddr, size);
        bytes := memory[physAddr..physAddr + size];
      } else {
        bytes := [];
      }
    }

    /** WriteMem: the bytes are stored in the page, and nothing else changes in it or in any other. */
    method WriteMem(virtAddr: Int32, bytes: seq<Byte>) returns (ok: bool)
      requires Valid() && running != Null && (|bytes| == 1 || |bytes| == 2 || |bytes| == 4)
      modifies this`files, this`tables, global, memory
      ensures Valid() && (ok <==> Outcome(old(tables[running]), spaces[running].numPages, virtAddr, |bytes|, true) in {NoException, PageFault})
      ensures !ok ==> Contents() == old(Contents())
      ensures ok ==>
                && 0 <= virtAddr && virtAddr / PageSize < spaces[running].numPages && virtAddr % PageSize + |bytes| <= PageSize
                && State() == Step(old(State()), Write(Page(running, virtAddr / PageSize), virtAddr % PageSize, bytes))
      ensures ok <==> 0 <= virtAddr && virtAddr % |bytes| == 0 && virtAddr / 128 < spaces[running].numPages
    {
      OutcomeIs(Contents(), running, virtAddr, |bytes|, true);
      ghost var vm := State();
      var physAddr;
      ok, physAddr := Access(virtAddr, |bytes|, true);
      if ok {
        StoreAt(virtAddr, physAddr, bytes);
        WriteSplit(vm, Page(running, virtAddr / PageSize), virtAddr % PageSize, bytes);
      }
    }

    method StoreAt(virtAddr: int, physAddr: int, bytes: seq<Byte>)
      requires Valid() && running != Null && 0 <= virtAddr && virtAddr / PageSize < spaces[running].numPages
      requires Present(tables[running][virtAddr / PageSize]) && physAddr == Phys(tables[running], virtAddr)
      requires virtAddr % PageSize + |bytes| <= PageSize
      modifies memory
      ensures Consistent(Contents())
      ensures var vm := old(State()); var f := Locate(vm.frames, Page(running, virtAddr / PageSize));
        && f < |vm.frames|
        && View(Contents()) == vm.(frames := vm.frames[f := vm.frames[f].(bytes := PutBytes(vm.frames[f].bytes, virtAddr % PageSize, bytes))])
    {
      StoredAt(Contents(), running, virtAddr, bytes);
      StoreBytes(physAddr, bytes);
    }

    method StoreBytes(physAddr: nat, bytes: seq<Byte>)
      requires physAddr + |bytes| <= memory.Length
      modifies memory
      ensures Contents() == old(Contents()).(memory := Patch(old(memory[..]), physAddr, bytes))
    {
      CopyInto(memory, physAddr, bytes);
      assert memory[..] == Patch(old(memory[..]), physAddr, bytes);
    }

    /** Load's page-table loop. Either all frames were free, and page i gets frame i, or none was, and no
        page gets one. */
    method AllocatePages(sp: Space) returns (table: seq<Entry>)
      requires Consistent(Contents())
      modifies global
      ensures table == NewTable(sp, spaces == [])
      ensures global[..] == if spaces == [] then AllFrames(0) else old(global[..])
    {
      var ref := |spaces|;
      forall f | 0 <= f < NumPhysPages ensures global[f].ref == Null <==> spaces == [] {
        assert FrameBack(Contents(), f);
      }
      table := [];
      for i := 0 to NumPhysPages
        invariant |table| == i && forall v :: 0 <= v < i ==> table[v] == NewTable(sp, spaces == [])[v]
        invariant spaces != [] ==> global[..] == old(global[..])
        invariant spaces == [] ==> forall f :: 0 <= f < NumPhysPages ==> global[f] == if f < i then GlobalEntry(f, 0, 0) else old(global[f])
      {
        var frame := FindFreeFrame(i, ref);
        table := table + [Entry(i, frame, true, false, false, false, sp.file)];
      }
    }

    /** Copy a segment into memory, wherever its pages have frames. */
    method CopySegment(table: seq<Entry>, seg: Segment, file: seq<Byte>, ghost sp: Space, ghost framed: bool)
      requires table == NewTable(sp, framed) && SegmentFits(seg) && memory.Length == NumPhysPages * PageSize
      modifies memory
      ensures forall a :: 0 <= a < memory.Length ==> memory[a] == if framed then SegmentByte(seg, file, a, old(memory[a])) else old(memory[a])
    {
      var i := 0;
      while i < seg.size
        invariant 0 <= i && (i <= seg.size || i == 0)
        invariant forall a :: 0 <= a < memory.Length ==>
          memory[a] == if framed && a < seg.virtualAddr + i then SegmentByte(seg, file, a, old(memory[a])) else old(memory[a])
      {
        var vaddr := seg.virtualAddr + i;
        if table[vaddr / PageSize].physicalPage >= 0 {
          var add := table[vaddr / PageSize].physicalPage * PageSize + vaddr % PageSize;
          if 0 <= seg.inFileAddr + i < |file| {
            memory[add] := file[seg.inFileAddr + i];
          }
        }
        i := i + 1;
      }
    }

    /** Load: read the header of the program's file, claim frames for the new address space as far as there
        are any, and copy the program's segments into those. */
    method LoadProgram(file: File) returns (result: LoadResult)
      requires Valid()
      modifies this`spaces, this`tables, global, memory
      ensures result == ResultOf(files, file) && Valid()
      ensures result != Success ==> Contents() == old(Contents())
      ensures result == Success ==>
                && Contents() == CoreLoaded(old(Contents()), SpaceIn(file, files[file]))
                && State() == Step(old(State()), Load(SpaceIn(file, files[file])))
      ensures result == Success ==>
                && |files[file]| >= NoffSize && |spaces| == |old(spaces)| + 1
                && var h, sp := DecodeNoff(files[file]), spaces[|old(spaces)|];
                && sp.file == file && sp.program == h.program
                && var size := (h.program.code.size + h.program.data.size + h.program.readOnlyData.size + h.uninitData.size + 1024) % 0x1_0000_0000;
                size <= sp.numPages * PageSize < size + PageSize
    {
      if file !in files {
        return NoSuchFile;
      }
      if !Loadable(files[file]) {
        return Stopped;
      }
      PagesCover(DecodeNoff(files[file]));
      LoadSpace(SpaceIn(file, files[file]));
      result := Success;
    }

    method LoadSpace(sp: Space)
      requires Valid() && Describes(files, sp)
      modifies this`spaces, this`tables, global, memory
      ensures Valid() && Contents() == CoreLoaded(old(Contents()), sp) && State() == Step(old(State()), Load(sp))
    {
      ghost var c := Contents();
      LoadedView(c, sp);
      LoadWf(View(c), sp);
      FillTables(sp);
    }

    method FillTables(sp: Space)
      requires Consistent(Contents()) && sp.file in files && ProgramFits(sp.program)
      modifies this`spaces, this`tables, global, memory
      ensures Contents() == CoreLoaded(old(Contents()), sp)
    {
      var table := AllocatePages(sp);
      CopySegment(table, sp.program.code, files[sp.file], sp, spaces == []);
      CopySegment(table, sp.program.data, files[sp.file], sp, spaces == []);
      CopySegment(table, sp.program.readOnlyData, files[sp.file], sp, spaces == []);
      spaces, tables := spaces + [sp], tables + [table];
      assert Contents().memory == CoreLoaded(old(Contents()), sp).memory;
    }
  }

  /** Load a program, let one of the loaded programs run, or let the running one read or write memory. */
  datatype Operation =
    | LoadOp(file: File)
    | RunOp(which: nat)
    | ReadOp(virtAddr: Int32, size: int)
    | WriteOp(virtAddr: Int32, bytes: seq<Byte>)

  predicate Acceptable(op: Operation) {
    match op
    case LoadOp(_) => true
    case RunOp(_) => true
    case ReadOp(_, size) => size == 1 || size == 2 || size == 4
    case WriteOp(_, bytes) => |bytes| == 1 || |bytes| == 2 || |bytes| == 4
  }

  // ---------- What a sequence of operations means ----------

  /** The address is aligned and within the address space. */
  predicate Reaches(sp: Space, virtAddr: Int32, size: nat)
    requires size > 0
  {
    0 <= virtAddr && virtAddr % size == 0 && virtAddr / PageSize < sp.numPages
  }

  /** Which addresses of a loaded program are within reach: those on pages that begin below the end of its
      segments and stack, put one behind the other. */
  lemma {:induction false} ReachesIff(file: File, bytes: seq<Byte>, a: Int32)
    requires Loadable(bytes) && 0 <= a
    ensures Reaches(SpaceIn(file, bytes), a, 1) <==> a / 128 * 128 < SumOfSizes(DecodeNoff(bytes)) % 0x1_0000_0000
  {
    PagesCover(DecodeNoff(bytes));
  }

  /** Pages, frames and files, and who is running. */
  datatype Moment = Moment(vm: Vm, running: int)

  ghost predicate Legal(t: Moment) {
    Wf(t.vm) && Null <= t.running < |t.vm.spaces|
  }

  /** The step an operation takes; none if it raises an address error or no program is loaded. */
  function EventOf(t: Moment, op: Operation): Option<Event>
    requires Null <= t.running < |t.vm.spaces| && Acceptable(op)
  {
    match op
    case LoadOp(file) =>
      if ResultOf(t.vm.files, file) == Success then Some(Load(SpaceIn(file, t.vm.files[file]))) else None
    case RunOp(_) => None
    case ReadOp(a, size) =>
      if t.running != Null && Reaches(t.vm.spaces[t.running], a, size) then Some(Read(Page(t.running, a / PageSize))) else None
    case WriteOp(a, bytes) =>
      if t.running != Null && Reaches(t.vm.spaces[t.running], a, |bytes|)
      then Some(Write(Page(t.running, a / PageSize), a % PageSize, bytes)) else None
  }

  function StateAfter(t: Moment, op: Operation): Vm
    requires Legal(t) && Acceptable(op)
  {
    var e := EventOf(t, op);
    if e.None? then t.vm else Step(t.vm, e.value)
  }

  function RunningAfter(t: Moment, op: Operation): int {
    if op.RunOp? && op.which < |t.vm.spaces| then op.which else t.running
  }

  /** Only a switch to a program that is loaded changes who is running. */
  lemma RunningIs(t: Moment, op: Operation)
    ensures RunningAfter(t, op) == match op
                                   case RunOp(which) => if which < |t.vm.spaces| then which else t.running
                                   case _ => t.running
  {
  }

  /** The bytes a read returns: those of the page as the step leaves it. */
  function Output(t: Moment, op: Operation): seq<Byte>
    requires Legal(t) && Acceptable(op)
  {
    if op.ReadOp? && EventOf(t, op).Some? then
      var p, i := Page(t.running, op.virtAddr / PageSize), op.virtAddr % PageSize;
      var page := Seen(t.vm, p);
      if i + op.size <= |page| then page[i..i + op.size] else []
    else []
  }

  /** In a consistent machine only alignment and size of the address space decide. */
  lemma {:induction false} OutcomeIs(c: Core, s: nat, virtAddr: Int32, size: nat, writing: bool)
    requires Consistent(c) && s < |c.spaces| && (size == 1 || size == 2 || size == 4)
    ensures Outcome(c.tables[s], c.spaces[s].numPages, virtAddr, size, writing) in {NoException, PageFault} <==> Reaches(c.spaces[s], virtAddr, size)
  {
    if 0 <= virtAddr && virtAddr / PageSize < c.spaces[s].numPages {
      assert EntryBack(c, s, virtAddr / PageSize);
    }
  }

  ghost predicate Follows(t: Moment, op: Operation, t': Moment) {
    Legal(t) && Acceptable(op) && t'.vm == StateAfter(t, op) && t'.running == RunningAfter(t, op)
  }

  /** What the first operations of a sequence do: the state before each of them, and after the last. */
  ghost predicate Traces(files: map<File, seq<Byte>>, ops: seq<Operation>, trace: seq<Moment>) {
    && 0 < |trace| <= |ops| + 1 && trace[0] == Moment(Start(files), Null) && Legal(trace[|trace| - 1])
    && forall i {:trigger Follows(trace[i], ops[i], trace[i + 1])} :: 0 <= i < |trace| - 1 ==> Follows(trace[i], ops[i], trace[i + 1])
  }

  /** Operation i returned this. */
  ghost predicate Returned(t: Moment, op: Operation, output: seq<Byte>) {
    Legal(t) && Acceptable(op) && output == Output(t, op)
  }

  lemma {:induction false} ReadIs(t: Moment, a: Int32, size: int)
    requires Legal(t) && t.running != Null && Acceptable(ReadOp(a, size))
    ensures if !Reaches(t.vm.spaces[t.running], a, size) then StateAfter(t, ReadOp(a, size)) == t.vm && Output(t, ReadOp(a, size)) == []
      else
        var p := Page(t.running, a / PageSize);
        && StateAfter(t, ReadOp(a, size)) == Step(t.vm, Read(p))
        && (|Seen(t.vm, p)| == PageSize ==> a % PageSize + size <= PageSize && Output(t, ReadOp(a, size)) == Seen(t.vm, p)[a % PageSize..a % PageSize + size])
  {
    if Reaches(t.vm.spaces[t.running], a, size) {
      WithinPage(a, size);
    }
  }

  // ---------- The machine runs ----------

  ghost predicate Done(t: Moment, op: Operation, t': Moment, output: seq<Byte>) {
    Follows(t, op, t') && Legal(t') && Returned(t, op, output)
  }

  lemma {:induction false} LoadDone(t: Moment, file: File, t': Moment)
    requires Legal(t) && t'.running == t.running
    requires t'.vm == if ResultOf(t.vm.files, file) == Success then Step(t.vm, Load(SpaceIn(file, t.vm.files[file]))) else t.vm
    ensures Done(t, LoadOp(file), t', [])
  {
  }

  lemma {:induction false} ReadDone(t: Moment, a: Int32, size: int, t': Moment, output: seq<Byte>)
    requires Legal(t) && t.running != Null && Acceptable(ReadOp(a, size)) && t'.running == t.running
    requires if !Reaches(t.vm.spaces[t.running], a, size) then t'.vm == t.vm && output == []
      else
        && var p, i := Page(t.running, a / PageSize), a % PageSize;
        && t'.vm == Step(t.vm, Read(p)) && |Seen(t.vm, p)| == PageSize
        && i + size <= PageSize && output == Seen(t.vm, p)[i..i + size]
    ensures Done(t, ReadOp(a, size), t', output)
  {
    ReadIs(t, a, size);
    if Reaches(t.vm.spaces[t.running], a, size) {
      AfterAccess(t.vm, Read(Page(t.running, a / PageSize)));
    }
  }

  method PerformLoad(m: Machine, file: File)
    requires m.Valid()
    modifies m`spaces, m`tables, m.global, m.memory
    ensures m.Valid() && Done(old(m.Now()), LoadOp(file), m.Now(), [])
  {
    ghost var t := m.Now();
    var _ := m.LoadProgram(file);
    LoadDone(t, file, m.Now());
  }

  method PerformRun(m: Machine, which: nat)
    requires m.Valid()
    modifies m`running
    ensures m.Valid() && Done(old(m.Now()), RunOp(which), m.Now(), [])
  {
    if which < |m.spaces| {
      m.SwitchTo(which);
    }
  }

  method PerformRead(m: Machine, virtAddr: Int32, size: int) returns (output: seq<Byte>)
    requires m.Valid() && Acceptable(ReadOp(virtAddr, size))
    modifies m`files, m`tables, m.global, m.memory
    ensures m.Valid() && Done(old(m.Now()), ReadOp(virtAddr, size), m.Now(), output)
  {
    output := [];
    if m.running != Null {
      ghost var t := m.Now();
      OutcomeIs(m.Contents(), m.running, virtAddr, size, false);
      var ok, bytes := m.ReadMem(virtAddr, size);
      output := if ok then bytes else [];
      ReadDone(t, virtAddr, size, m.Now(), output);
    }
  }

  method PerformWrite(m: Machine, virtAddr: Int32, bytes: seq<Byte>)
    requires m.Valid() && Acceptable(WriteOp(virtAddr, bytes))
    modifies m`files, m`tables, m.global, m.memory
    ensures m.Valid() && Done(old(m.Now()), WriteOp(virtAddr, bytes), m.Now(), [])
  {
    if m.running != Null {
      OutcomeIs(m.Contents(), m.running, virtAddr, |bytes|, true);
      var _ := m.WriteMem(virtAddr, bytes);
    }
  }

  /** The machine does what the operation says. */
  method Perform(m: Machine, op: Operation) returns (output: seq<Byte>)
    requires m.Valid() && Acceptable(op)
    modifies m, m.global, m.memory
    ensures m.Valid() && Done(old(m.Now()), op, m.Now(), output)
  {
    output := [];
    match op {
      case LoadOp(file) => PerformLoad(m, file);
      case RunOp(which) => PerformRun(m, which);
      case ReadOp(virtAddr, size) => output := PerformRead(m, virtAddr, size);
      case WriteOp(virtAddr, bytes) => PerformWrite(m, virtAddr, bytes);
    }
  }

  lemma {:induction false} TraceMore(files: map<File, seq<Byte>>, ops: seq<Operation>, trace: seq<Moment>, t: Moment)
    requires Traces(files, ops, trace) && |trace| <= |ops| && Follows(trace[|trace| - 1], ops[|trace| - 1], t) && Legal(t)
    ensures Traces(files, ops, trace + [t])
  {
    var trace' := trace + [t];
    forall i | 0 <= i < |trace| ensures Follows(trace'[i], ops[i], trace'[i + 1]) {
      if i < |trace| - 1 {
        assert Follows(trace[i], ops[i], trace[i + 1]);
      }
    }
  }

  /** The machine is at the end of a trace. */
  ghost predicate IsAt(m: Machine, files: map<File, seq<Byte>>, ops: seq<Operation>, trace: seq<Moment>)
    reads m, m.global, m.memory
  {
    Traces(files, ops, trace) && m.Valid() && m.Now() == trace[|trace| - 1]
  }

  method PerformNext(m: Machine, ghost files: map<File, seq<Byte>>, ops: seq<Operation>, i: nat, ghost trace: seq<Moment>)
      returns (output: seq<Byte>, ghost trace': seq<Moment>)
    requires IsAt(m, files, ops, trace) && i < |ops| && |trace| == i + 1 && Acceptable(ops[i])
    modifies m, m.global, m.memory
    ensures IsAt(m, files, ops, trace') && |trace'| == i + 2 && trace'[..i + 1] == trace && Returned(trace[i], ops[i], output)
  {
    output := Perform(m, ops[i]);
    TraceMore(files, ops, trace, m.Now());
    trace' := trace + [m.Now()];
  }

  /** Any sequence of loads, switches and memory accesses takes the steps of module VirtualMemory: the machine
      ends in the state in which they end, and every read returns what the page holds then. On the way the frame
      table and the page tables stay inverse to each other and no ASSERT of findFreeByLRU fails. */
  method Execute(files: map<File, seq<Byte>>, ops: seq<Operation>)
      returns (m: Machine, outputs: seq<seq<Byte>>, ghost trace: seq<Moment>)
    requires forall i :: 0 <= i < |ops| ==> Acceptable(ops[i])
    ensures IsAt(m, files, ops, trace) && |trace| == |ops| + 1
    ensures |outputs| == |ops| && forall i :: 0 <= i < |ops| ==> Returned(trace[i], ops[i], outputs[i])
  {
    m := new Machine(files);
    outputs, trace := [], [m.Now()];
    for i := 0 to |ops|
      invariant fresh(m) && fresh(m.global) && fresh(m.memory)
      invariant IsAt(m, files, ops, trace) && |trace| == i + 1
      invariant |outputs| == i && forall j :: 0 <= j < i ==> Returned(trace[j], ops[j], outputs[j])
    {
      ghost var before := trace;
      var output;
      output, trace := PerformNext(m, files, ops, i, trace);
      assert forall j :: 0 <= j <= i ==> trace[j] == trace[..i + 1][j] == before[j];
      outputs := outputs + [output];
    }
  }
}
