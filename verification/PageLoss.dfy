/** Runs in which a page loses what it holds, and with them the theorems on page contents.

    If memory is too small for all pages, reads of other pages can make any page the next victim; then it
    depends on where its bytes come from in the file whether they can be lost. */
module PageLoss {
  import opened Base
  import opened Disks
  import opened OpenFiles
  import opened NoffFiles
  import opened VirtualMemory
  import opened PageSurvival

  // ---------- When they do not: any page can be evicted ----------

  /** n reads of one page. */
  function Reads(q: Page, n: nat): seq<Event> {
    if n == 0 then [] else [Read(q)] + Reads(q, n - 1)
  }

  function Counted(vm: Vm, f: nat, n: nat): Vm
    requires f < |vm.frames|
  {
    vm.(frames := vm.frames[f := vm.frames[f].(stamp := vm.frames[f].stamp + n)])
  }

  lemma {:induction false} CountedMore(vm: Vm, f: nat, n: nat)
    requires f < |vm.frames|
    ensures Counted(vm, f, 0) == vm && Counted(Counted(vm, f, 1), f, n) == Counted(vm, f, n + 1)
  {
    assert Counted(vm, f, 0).frames == vm.frames;
    assert Counted(Counted(vm, f, 1), f, n).frames == Counted(vm, f, n + 1).frames;
  }

  lemma {:induction false} ReadOnce(vm: Vm, q: Page, f: nat)
    requires Wf(vm) && Accessible(vm.spaces, q) && f < |vm.frames| && vm.frames[f].page == q
    ensures Step(vm, Read(q)) == Counted(vm, f, 1)
  {
    assert Locate(vm.frames, q) == f;
  }

  lemma {:induction false} ReadMany(vm: Vm, q: Page, f: nat, n: nat)
    requires Wf(vm) && Accessible(vm.spaces, q) && f < |vm.frames| && vm.frames[f].page == q
    ensures Exec(vm, Reads(q, n)) == Counted(vm, f, n)
    decreases n
  {
    if n == 0 {
      CountedMore(vm, f, 0);
    } else {
      ReadOnce(vm, q, f);
      var vm1 := Step(vm, Read(q));
      assert vm1.frames[f].page == q;
      ReadMany(vm1, q, f, n - 1);
      CountedMore(vm, f, n - 1);
      ExecFirst(vm, Read(q), Reads(q, n - 1));
    }
  }

  /** A read of a page without a frame. */
  lemma {:induction false} ReadFault(vm: Vm, q: Page)
    requires Wf(vm) && Accessible(vm.spaces, q) && !Resident(vm.frames, q)
    ensures var f := Victim(vm.frames); var vm' := Step(vm, Read(q));
      && vm'.spaces == vm.spaces && FrameOk(vm.spaces, vm.frames[f]) && vm'.files == FilesAfter(vm, f)
      && vm'.frames == vm.frames[f := Filled(vm, FilesAfter(vm, f), q, f).(stamp := 1)]
  {
    FaultWf(vm, q);
    assert FrameOk(vm.spaces, vm.frames[Victim(vm.frames)]);
  }

  /** The page p is in frame f; all other frames are clean; and another page, avoid, has no frame. */
  ghost predicate Ready(vm: Vm, spaces: seq<Space>, p: Page, f: nat, avoid: Page) {
    && Wf(vm) && vm.spaces == spaces && spaces != [] && Total(spaces) > NumPhysPages
    && f < |vm.frames| && vm.frames[f].page == p && vm.frames[f].stamp > 0
    && (forall g :: 0 <= g < |vm.frames| && g != f ==> !vm.frames[g].dirty)
    && (avoid != p ==> !Resident(vm.frames, avoid))
  }

  /** Reads of other pages. */
  ghost predicate Quiet(es: seq<Event>, p: Page, avoid: Page) {
    forall i :: 0 <= i < |es| ==> es[i].Read? && es[i].page != p && es[i].page != avoid
  }

  ghost function Low(frames: seq<Frame>, f: nat, k: nat): set<nat> {
    set g | 0 <= g < |frames| && g != f && frames[g].stamp <= k
  }

  /** There is a page within reach without a frame. */
  lemma {:induction false} SomeoneOut(vm: Vm, spaces: seq<Space>) returns (q: Page)
    requires Wf(vm) && vm.spaces == spaces != [] && Total(spaces) > NumPhysPages
    ensures Accessible(spaces, q) && !Resident(vm.frames, q)
  {
    PagesCount(spaces);
    OwnersCount(vm.frames);
    if Pages(spaces) <= Owners(vm.frames) {
      Subset(Pages(spaces), Owners(vm.frames));
      assert false;
    }
    q :| q in Pages(spaces) && q !in Owners(vm.frames);
    InPages(spaces, q);
  }

  /** If some frame holds a page out of reach, there is one besides the one to avoid. */
  lemma {:induction false} AnotherOut(vm: Vm, spaces: seq<Space>, g: nat, avoid: Page) returns (q: Page)
    requires Wf(vm) && vm.spaces == spaces != [] && Total(spaces) > NumPhysPages
    requires g < |vm.frames| && !Accessible(spaces, vm.frames[g].page)
    ensures Accessible(spaces, q) && !Resident(vm.frames, q) && q != avoid
  {
    var unreachable := vm.frames[g].page;
    var others := Owners(vm.frames) - {unreachable} + {avoid};
    PagesCount(spaces);
    OwnersCount(vm.frames);
    assert unreachable in Owners(vm.frames);
    assert |Owners(vm.frames) - {unreachable}| == NumPhysPages - 1;
    assert |others| <= NumPhysPages;
    if Pages(spaces) <= others {
      Subset(Pages(spaces), others);
      assert false;
    }
    q :| q in Pages(spaces) && q !in others;
    InPages(spaces, q);
  }

  lemma {:induction false} QuietReads(q: Page, n: nat, p: Page, avoid: Page)
    requires q != p && q != avoid
    ensures Quiet(Reads(q, n), p, avoid)
  {
    if n > 0 {
      QuietReads(q, n - 1, p, avoid);
    }
  }

  /** Frame h, low before, has a high counter and is clean; nothing else has changed. */
  ghost predicate Raised(vm: Vm, vm': Vm, f: nat, k: nat, avoid: Page, h: nat) {
    && Wf(vm') && vm'.spaces == vm.spaces && vm'.files == vm.files && |vm'.frames| == |vm.frames|
    && h in Low(vm.frames, f, k) && vm'.frames[h].stamp > k && !vm'.frames[h].dirty && vm'.frames[h].page != avoid
    && forall x :: 0 <= x < |vm.frames| && x != h ==> vm'.frames[x] == vm.frames[x]
  }

  /** A frame with a low counter gets a high one by reads of its page. */
  lemma {:induction false} RaiseByReads(vm: Vm, spaces: seq<Space>, p: Page, f: nat, k: nat, avoid: Page, g: nat) returns (es: seq<Event>)
    requires Ready(vm, spaces, p, f, avoid) && g in Low(vm.frames, f, k) && Accessible(spaces, vm.frames[g].page)
    ensures Quiet(es, p, avoid) && Raised(vm, Exec(vm, es), f, k, avoid, g)
  {
    var q := vm.frames[g].page;
    assert q != avoid by {
      assert avoid != p ==> Locate(vm.frames, avoid) == |vm.frames|;
    }
    es := Reads(q, k + 1);
    ReadMany(vm, q, g, k + 1);
    QuietReads(q, k + 1, p, avoid);
    CountedIsRaised(vm, f, k, avoid, g);
  }

  lemma {:induction false} CountedIsRaised(vm: Vm, f: nat, k: nat, avoid: Page, g: nat)
    requires g in Low(vm.frames, f, k) && !vm.frames[g].dirty && vm.frames[g].page != avoid && Wf(Counted(vm, g, k + 1))
    ensures Raised(vm, Counted(vm, g, k + 1), f, k, avoid, g)
  {
  }

  /** The frame with the smallest counter, if that is zero, gets a page without a frame, and a high counter. */
  lemma {:induction false} RaiseWith(vm: Vm, spaces: seq<Space>, p: Page, f: nat, k: nat, avoid: Page, q: Page) returns (es: seq<Event>)
    requires Ready(vm, spaces, p, f, avoid) && vm.frames[Victim(vm.frames)].stamp == 0
    requires Accessible(spaces, q) && !Resident(vm.frames, q) && q != avoid
    ensures Quiet(es, p, avoid) && Raised(vm, Exec(vm, es), f, k, avoid, Victim(vm.frames))
  {
    assert Victim(vm.frames) != f && q != p;
    es := [Read(q)] + Reads(q, k);
    QuietReads(q, k, p, avoid);
    FaultThenReads(vm, q, k);
  }

  /** If that page is out of reach, reads of another one evict a page never accessed. */
  lemma {:induction false} RaiseByFault(vm: Vm, spaces: seq<Space>, p: Page, f: nat, k: nat, avoid: Page, g: nat) returns (es: seq<Event>)
    requires Ready(vm, spaces, p, f, avoid) && g in Low(vm.frames, f, k) && !Accessible(spaces, vm.frames[g].page)
    ensures Quiet(es, p, avoid) && Raised(vm, Exec(vm, es), f, k, avoid, Victim(vm.frames))
  {
    assert FrameOk(vm.spaces, vm.frames[g]) && vm.frames[g].stamp == 0;
    var q := AnotherOut(vm, spaces, g, avoid);
    es := RaiseWith(vm, spaces, p, f, k, avoid, q);
  }

  lemma {:induction false} FaultThenReads(vm: Vm, q: Page, n: nat)
    requires Wf(vm) && Accessible(vm.spaces, q) && !Resident(vm.frames, q) && !vm.frames[Victim(vm.frames)].dirty
    ensures var h, vm' := Victim(vm.frames), Exec(vm, [Read(q)] + Reads(q, n));
      && vm'.spaces == vm.spaces && vm'.files == vm.files && |vm'.frames| == |vm.frames|
      && vm'.frames[h].stamp == n + 1 && !vm'.frames[h].dirty && vm'.frames[h].page == q
      && forall x :: 0 <= x < |vm.frames| && x != h ==> vm'.frames[x] == vm.frames[x]
  {
    ReadFault(vm, q);
    ExecFirst(vm, Read(q), Reads(q, n));
    ReadMany(Step(vm, Read(q)), q, Victim(vm.frames), n);
  }

  lemma {:induction false} RaisedReady(vm: Vm, vm': Vm, spaces: seq<Space>, p: Page, f: nat, k: nat, avoid: Page, h: nat)
    requires Ready(vm, spaces, p, f, avoid) && Raised(vm, vm', f, k, avoid, h)
    ensures Ready(vm', spaces, p, f, avoid) && Low(vm'.frames, f, k) == Low(vm.frames, f, k) - {h}
  {
    if avoid != p {
      forall x | 0 <= x < |vm'.frames| ensures vm'.frames[x].page != avoid {
        assert x != h ==> vm.frames[x].page != avoid;
      }
    }
  }

  /** One frame less with a low counter. */
  lemma {:induction false} RaiseOne(vm: Vm, spaces: seq<Space>, p: Page, f: nat, k: nat, avoid: Page, g: nat) returns (es: seq<Event>, vm': Vm)
    requires Ready(vm, spaces, p, f, avoid) && g in Low(vm.frames, f, k)
    ensures vm' == Exec(vm, es) && Quiet(es, p, avoid) && Ready(vm', spaces, p, f, avoid)
    ensures vm'.files == vm.files && vm'.frames[f] == vm.frames[f]
    ensures |Low(vm'.frames, f, k)| < |Low(vm.frames, f, k)|
  {
    var h := g;
    if Accessible(spaces, vm.frames[g].page) {
      es := RaiseByReads(vm, spaces, p, f, k, avoid, g);
    } else {
      h := Victim(vm.frames);
      es := RaiseByFault(vm, spaces, p, f, k, avoid, g);
    }
    vm' := Exec(vm, es);
    RaisedReady(vm, vm', spaces, p, f, k, avoid, h);
  }

  /** By reads of other pages the frame of p becomes the one with the smallest counter. */
  lemma {:induction false} SingleOut(vm: Vm, spaces: seq<Space>, p: Page, f: nat, k: nat, avoid: Page) returns (es: seq<Event>, vm': Vm)
    requires Ready(vm, spaces, p, f, avoid)
    ensures vm' == Exec(vm, es) && Quiet(es, p, avoid) && Ready(vm', spaces, p, f, avoid)
    ensures vm'.files == vm.files && vm'.frames[f] == vm.frames[f]
    ensures forall g :: 0 <= g < |vm'.frames| && g != f ==> vm'.frames[g].stamp > k
    decreases |Low(vm.frames, f, k)|
  {
    if g :| g in Low(vm.frames, f, k) {
      var es1, vm1 := RaiseOne(vm, spaces, p, f, k, avoid, g);
      var es2;
      es2, vm' := SingleOut(vm1, spaces, p, f, k, avoid);
      es := es1 + es2;
      ExecAppend(vm, es1, es2);
    } else {
      es, vm' := [], vm;
      forall g | 0 <= g < |vm.frames| && g != f ensures vm.frames[g].stamp > k {
        assert g !in Low(vm.frames, f, k);
      }
    }
  }

  // ---------- Runs that lose the contents of a page ----------

  function Loads(spaces: seq<Space>): seq<Event> {
    if spaces == [] then [] else Loads(spaces[..|spaces| - 1]) + [Load(spaces[|spaces| - 1])]
  }

  /** All programs are loaded and nothing else has happened. */
  ghost predicate Booted(vm: Vm, spaces: seq<Space>, files: map<File, seq<Byte>>)
    requires Programs(spaces, files)
  {
    && vm.spaces == spaces && vm.files == files && |vm.frames| == NumPhysPages
    && forall f :: 0 <= f < NumPhysPages ==>
      vm.frames[f] == Frame(Page(0, f), 0, false, LoadPage(spaces[0].program, files[spaces[0].file], f))
  }

  lemma {:induction false} LoadFirst(files: map<File, seq<Byte>>, spaces: seq<Space>)
    requires Programs(spaces, files) && |spaces| == 1
    ensures Booted(Step(Start(files), Load(spaces[0])), spaces, files)
  {
  }

  lemma {:induction false} LoadLater(vm: Vm, files: map<File, seq<Byte>>, spaces: seq<Space>, sp: Space)
    requires Programs(spaces, files) && Wf(vm) && Booted(vm, spaces, files) && Enabled(vm, Load(sp))
    ensures Programs(spaces + [sp], files) && Booted(Step(vm, Load(sp)), spaces + [sp], files)
  {
  }

  lemma {:induction false} Boot(spaces: seq<Space>, files: map<File, seq<Byte>>)
    requires Programs(spaces, files)
    ensures Booted(Exec(Start(files), Loads(spaces)), spaces, files)
  {
    var n := |spaces| - 1;
    var front, last := spaces[..n], Load(spaces[n]);
    var vm := Exec(Start(files), Loads(front));
    assert Exec(Start(files), Loads(spaces)) == Step(vm, last) by {
      ExecAppend(Start(files), Loads(front), [last]);
      ExecOne(vm, last);
    }
    if n > 0 {
      Boot(front, files);
      LoadLater(vm, files, front, spaces[n]);
      assert front + [spaces[n]] == spaces;
    } else {
      LoadFirst(files, spaces);
    }
  }

  ghost predicate OthersClean(vm: Vm, f: nat) {
    forall g :: 0 <= g < |vm.frames| && g != f ==> !vm.frames[g].dirty
  }

  /** A state of all pages clean but for the frame f, in which memory is too small for all pages. */
  ghost predicate Crowded(vm: Vm, spaces: seq<Space>, f: nat) {
    Wf(vm) && vm.spaces == spaces && spaces != [] && Total(spaces) > NumPhysPages && OthersClean(vm, f)
  }

  ghost predicate SmallestAt(vm: Vm, f: nat) {
    f < |vm.frames| && forall g :: 0 <= g < |vm.frames| && g != f ==> vm.frames[g].stamp > vm.frames[f].stamp
  }

  /** A run after which the page is in a frame, was read once, and can be accessed once more and still have
      the smallest counter. */
  lemma {:induction false} Approach(spaces: seq<Space>, files: map<File, seq<Byte>>, p: Page) returns (before: seq<Event>, vm: Vm, f: nat)
    requires Programs(spaces, files) && Accessible(spaces, p) && Total(spaces) > NumPhysPages
    ensures vm == Exec(Start(files), before) && NeverWrites(before, p)
    ensures Ready(vm, spaces, p, f, p) && vm.files == files && !vm.frames[f].dirty
    ensures vm.frames[f].stamp == 1 && forall g :: 0 <= g < |vm.frames| && g != f ==> vm.frames[g].stamp > 2
    ensures p.space == 0 ==> vm.frames[f].bytes == LoadPage(spaces[0].program, files[spaces[0].file], p.vpn)
  {
    Boot(spaces, files);
    var vm0 := Exec(Start(files), Loads(spaces));
    var vm1;
    vm1, f := FirstRead(vm0, spaces, files, p);
    var es;
    es, vm := SingleOut(vm1, spaces, p, f, 2, p);
    before := Loads(spaces) + ([Read(p)] + es);
    ExecAppend(Start(files), Loads(spaces), [Read(p)] + es);
    ExecAppend(vm0, [Read(p)], es);
    ExecOne(vm0, Read(p));
    LoadsWriteNothing(spaces, p);
  }

  lemma {:induction false} LoadsWriteNothing(spaces: seq<Space>, p: Page)
    ensures NeverWrites(Loads(spaces), p)
  {
    if spaces != [] {
      LoadsWriteNothing(spaces[..|spaces| - 1], p);
    }
  }

  lemma {:induction false} FirstRead(vm0: Vm, spaces: seq<Space>, files: map<File, seq<Byte>>, p: Page) returns (vm1: Vm, f: nat)
    requires Programs(spaces, files) && Accessible(spaces, p) && Total(spaces) > NumPhysPages
    requires Wf(vm0) && Booted(vm0, spaces, files)
    ensures vm1 == Step(vm0, Read(p)) && Ready(vm1, spaces, p, f, p) && vm1.files == files
    ensures vm1.frames[f].stamp == 1 && !vm1.frames[f].dirty
    ensures p.space == 0 ==> vm1.frames[f].bytes == LoadPage(spaces[0].program, files[spaces[0].file], p.vpn)
  {
    vm1 := Step(vm0, Read(p));
    if p.space == 0 {
      f := p.vpn;
      ReadOnce(vm0, p, f);
    } else {
      f := Victim(vm0.frames);
      ReadFault(vm0, p);
    }
  }

  /** An access of a page that has a frame. */
  lemma {:induction false} UseStep(vm: Vm, e: Event, f: nat)
    requires Wf(vm) && Enabled(vm, e) && !e.Load? && f < |vm.frames| && vm.frames[f].page == e.page
    ensures Step(vm, e) == UseAt(vm, f, e)
  {
    assert Locate(vm.frames, e.page) == f;
  }

  /** The page with the smallest counter is evicted by the next fault. */
  lemma {:induction false} Evict(vm: Vm, spaces: seq<Space>, p: Page, f: nat) returns (q: Page, vm': Vm)
    requires Crowded(vm, spaces, f) && SmallestAt(vm, f) && vm.frames[f].page == p
    ensures q != p && Accessible(spaces, q) && vm' == Step(vm, Read(q))
    ensures Crowded(vm', spaces, 0) && !Resident(vm'.frames, p) && !vm'.frames[0].dirty
    ensures FrameOk(vm.spaces, vm.frames[f]) && vm'.files == FilesAfter(vm, f)
    ensures Victim(vm.frames) == f && !Resident(vm.frames, q)
  {
    q := SomeoneOut(vm, spaces);
    vm' := Step(vm, Read(q));
    assert Victim(vm.frames) == f;
    ReadFault(vm, q);
    assert q != p by {
      assert vm.frames[f].page == p;
    }
    forall g | 0 <= g < |vm'.frames| ensures vm'.frames[g].page != p && !vm'.frames[g].dirty {
    }
  }

  /** What is seen of a page without a frame. */
  lemma {:induction false} SeenByFault(vm: Vm, p: Page)
    requires Wf(vm) && Accessible(vm.spaces, p) && !Resident(vm.frames, p)
    ensures var f := Victim(vm.frames);
      && FrameOk(vm.spaces, vm.frames[f])
      && Seen(vm, p) == FillPage(vm.spaces[p.space].program, FilesAfter(vm, f)[vm.spaces[p.space].file], p.vpn, vm.frames[f].bytes)
  {
    AfterAccess(vm, Read(p));
    FaultWf(vm, p);
    assert FrameOk(vm.spaces, vm.frames[Victim(vm.frames)]);
  }

  /** Another page is given a byte of choice and made the next victim, without an access to p. */
  lemma {:induction false} Poison(vm: Vm, spaces: seq<Space>, p: Page, r: Page, j: nat, y: Byte) returns (es: seq<Event>, vm': Vm, g: nat)
    requires Crowded(vm, spaces, 0) && !vm.frames[0].dirty && !Resident(vm.frames, p)
    requires Accessible(spaces, r) && r != p && j < PageSize
    ensures vm' == Exec(vm, es) && Avoids(es, p) && Wf(vm') && vm'.spaces == spaces && vm'.files == vm.files
    ensures !Resident(vm'.frames, p) && g < |vm'.frames| && Victim(vm'.frames) == g
    ensures vm'.frames[g].page == r && vm'.frames[g].dirty && |vm'.frames[g].bytes| == PageSize && vm'.frames[g].bytes[j] == y
  {
    var vm1;
    vm1, g := ReadIn(vm, spaces, p, r);
    var es2, vm2 := SingleOut(vm1, spaces, r, g, vm1.frames[g].stamp + 1, p);
    var e := Write(r, j, [y]);
    UseStep(vm2, e, g);
    vm' := Step(vm2, e);
    es := [Read(r)] + (es2 + [e]);
    ExecAppend(vm, [Read(r)], es2 + [e]);
    ExecOne(vm, Read(r));
    ExecAppend(vm1, es2, [e]);
    ExecOne(vm2, e);
    PoisonedFrame(vm2, g, e, p);
  }

  lemma {:induction false} PoisonedFrame(vm: Vm, g: nat, e: Event, p: Page)
    requires Wf(vm) && g < |vm.frames| && e.Write? && |e.data| == 1 && e.offset < PageSize && e.page == vm.frames[g].page != p
    requires !Resident(vm.frames, p) && FrameOk(vm.spaces, vm.frames[g])
    requires forall h :: 0 <= h < |vm.frames| && h != g ==> vm.frames[h].stamp > vm.frames[g].stamp + 1
    ensures var vm' := UseAt(vm, g, e);
      && vm'.frames[g].page == e.page && vm'.frames[g].dirty && |vm'.frames[g].bytes| == PageSize
      && vm'.frames[g].bytes[e.offset] == e.data[0] && Victim(vm'.frames) == g && !Resident(vm'.frames, p)
  {
    var vm' := UseAt(vm, g, e);
    assert forall h :: 0 <= h < |vm.frames| ==> vm'.frames[h].page == vm.frames[h].page;
    assert vm'.frames[g].stamp == vm.frames[g].stamp + 1;
  }

  lemma {:induction false} ReadIn(vm: Vm, spaces: seq<Space>, p: Page, r: Page) returns (vm1: Vm, g: nat)
    requires Crowded(vm, spaces, 0) && !vm.frames[0].dirty && !Resident(vm.frames, p) && Accessible(spaces, r) && r != p
    ensures vm1 == Step(vm, Read(r)) && Ready(vm1, spaces, r, g, p) && vm1.files == vm.files
  {
    vm1 := Step(vm, Read(r));
    if Resident(vm.frames, r) {
      g := Locate(vm.frames, r);
      ReadOnce(vm, r, g);
    } else {
      g := Victim(vm.frames);
      ReadFault(vm, r);
    }
    forall h | 0 <= h < |vm1.frames| ensures vm1.frames[h].page != p && !vm1.frames[h].dirty {
      assert vm.frames[h].page != p;
    }
  }

  // ---------- The four ways to lose a byte ----------

  /** The run in which the page is read, and then evicted by the next access, of another page. */
  lemma {:induction false} ReadAndEvict(spaces: seq<Space>, files: map<File, seq<Byte>>, p: Page)
    returns (before: seq<Event>, vm: Vm, q: Page, vm': Vm)
    requires Programs(spaces, files) && Accessible(spaces, p) && Total(spaces) > NumPhysPages
    ensures Exec(Start(files), before).spaces == spaces && Enabled(Exec(Start(files), before), Read(p))
    ensures vm.spaces == spaces && vm.frames != [] && vm.frames[Victim(vm.frames)].page == p && !Resident(vm.frames, q)
    ensures vm == Step(Exec(Start(files), before), Read(p)) && NeverWrites(before, p) && Resident(vm.frames, p)
    ensures q != p && Accessible(spaces, q) && vm' == Step(vm, Read(q)) && |Bytes(vm, p)| == PageSize
    ensures Crowded(vm', spaces, 0) && !vm'.frames[0].dirty && !Resident(vm'.frames, p) && vm'.files == files
    ensures p.space == 0 ==> Bytes(vm, p) == LoadPage(spaces[0].program, files[spaces[0].file], p.vpn)
  {
    var vm0, f;
    before, vm0, f := Approach(spaces, files, p);
    ReadOnce(vm0, p, f);
    vm := Step(vm0, Read(p));
    assert SmallestAt(vm, f) && Locate(vm.frames, p) == f;
    q, vm' := Evict(vm, spaces, p, f);
    assert FrameOk(vm.spaces, vm.frames[f]);
  }

  /** So with these programs, if their pages do not all fit into memory, every page has a run in which it is
      accessed last and then the one that the next fault evicts. */
  lemma {:induction false} MostRecentIsEvicted(spaces: seq<Space>, files: map<File, seq<Byte>>, p: Page) returns (before: seq<Event>, q: Page)
    requires Programs(spaces, files) && Accessible(spaces, p) && Total(spaces) > NumPhysPages
    ensures Exec(Start(files), before).spaces == spaces && Enabled(Exec(Start(files), before), Read(p))
    ensures var vm := Step(Exec(Start(files), before), Read(p));
      && vm.spaces == spaces && Accessible(spaces, q) && !Resident(vm.frames, q)
      && vm.frames != [] && vm.frames[Victim(vm.frames)].page == p && !Resident(Step(vm, Read(q)).frames, p)
  {
    var vm, vm';
    before, vm, q, vm' := ReadAndEvict(spaces, files, p);
  }

  lemma {:induction false} ReadIsQuiet(before: seq<Event>, es: seq<Event>, p: Page, q: Page)
    requires NeverWrites(before, p) && q != p && Avoids(es, p)
    ensures Avoids([Read(q)] + es, p) && NeverWrites(before + [Read(p)], p)
  {
  }

  /** A run with a read of the page, its eviction by a read of q, and further events, that loses a byte. */
  lemma {:induction false} LostUnwritten(spaces: seq<Space>, files: map<File, seq<Byte>>, p: Page, before: seq<Event>, q: Page, es: seq<Event>)
    requires NeverWrites(before, p) && q != p && Avoids(es, p)
    requires Enabled(Exec(Start(files), before), Read(p))
    requires var vm := Step(Exec(Start(files), before), Read(p)); var vm2 := Exec(Step(vm, Read(q)), es);
      vm2.spaces == spaces && Seen(vm2, p) != Bytes(vm, p)
    ensures !KeepsUnwritten(spaces, files, p)
  {
    var vm := Step(Exec(Start(files), before), Read(p));
    var between := [Read(q)] + es;
    ExecFirst(vm, Read(q), es);
    ReadIsQuiet(before, es, p, q);
    assert IsRun(spaces, files, p, before, Read(p), between) && !KeptIn(files, p, before, Read(p), between);
  }

  /** The state after the page was read, holding the given bytes, and then evicted: if events that do not
      access the page can lead from there to other contents, they are not kept. */
  lemma {:induction false} EvictedClean(spaces: seq<Space>, files: map<File, seq<Byte>>, p: Page) returns (bytes: seq<Byte>, q: Page, vm: Vm)
    requires Programs(spaces, files) && Accessible(spaces, p) && Total(spaces) > NumPhysPages
    ensures q != p && Accessible(spaces, q) && |bytes| == PageSize
    ensures Crowded(vm, spaces, 0) && !vm.frames[0].dirty && !Resident(vm.frames, p) && vm.files == files
    ensures p.space == 0 ==> bytes == LoadPage(spaces[0].program, files[spaces[0].file], p.vpn)
    ensures forall es {:trigger Avoids(es, p)} :: Avoids(es, p) && Exec(vm, es).spaces == spaces && Seen(Exec(vm, es), p) != bytes ==>
      !KeepsUnwritten(spaces, files, p)
  {
    var before, vm0;
    before, vm0, q, vm := ReadAndEvict(spaces, files, p);
    bytes := Bytes(vm0, p);
    forall es | Avoids(es, p) && Exec(vm, es).spaces == spaces && Seen(Exec(vm, es), p) != bytes
      ensures !KeepsUnwritten(spaces, files, p)
    {
      LostUnwritten(spaces, files, p, before, q, es);
    }
  }

  /** One byte of what is seen of a page without a frame. */
  lemma {:induction false} SeenByte(vm: Vm, p: Page, a: int)
    requires Wf(vm) && Accessible(vm.spaces, p) && !Resident(vm.frames, p) && InPage(p.vpn, a)
    ensures var g := Victim(vm.frames); var i, sp := a - p.vpn * PageSize, vm.spaces[p.space];
      && FrameOk(vm.spaces, vm.frames[g]) && |Seen(vm, p)| == PageSize
      && Seen(vm, p)[i] == FillByte(sp.program, FilesAfter(vm, g)[sp.file], a, vm.frames[g].bytes[i])
  {
    SeenByFault(vm, p);
    assert p.vpn * PageSize + (a - p.vpn * PageSize) == a;
  }

  lemma {:induction false} SeenLeftover(vm: Vm, p: Page, a: int)
    requires Wf(vm) && Accessible(vm.spaces, p) && !Resident(vm.frames, p) && InPage(p.vpn, a)
    requires var o := FileOffset(vm.spaces[p.space].program, a); o.None? || !(0 <= o.value < |vm.files[vm.spaces[p.space].file]|)
    ensures var g := Victim(vm.frames); var i := a - p.vpn * PageSize;
      |Seen(vm, p)| == |vm.frames[g].bytes| == PageSize && Seen(vm, p)[i] == vm.frames[g].bytes[i]
  {
    SeenByte(vm, p, a);
  }

  lemma {:induction false} SeenOverwritten(vm: Vm, p: Page, r: Page, a: int)
    requires Wf(vm) && Accessible(vm.spaces, p) && !Resident(vm.frames, p) && InPage(p.vpn, a) && r.space < |vm.spaces|
    requires vm.frames[Victim(vm.frames)].page == r && vm.frames[Victim(vm.frames)].dirty
    requires vm.spaces[r.space].file == vm.spaces[p.space].file
    requires var o := FileOffset(vm.spaces[p.space].program, a);
      o.Some? && 0 <= o.value < |vm.files[vm.spaces[p.space].file]| && InPage(r.vpn, o.value)
    ensures var g := Victim(vm.frames); var j := FileOffset(vm.spaces[p.space].program, a).value - r.vpn * PageSize;
      |Seen(vm, p)| == |vm.frames[g].bytes| == PageSize && Seen(vm, p)[a - p.vpn * PageSize] == vm.frames[g].bytes[j]
  {
    var o := FileOffset(vm.spaces[p.space].program, a).value;
    SeenByte(vm, p, a);
    WriteBackAt(vm.files[vm.spaces[p.space].file], vm.frames[Victim(vm.frames)].bytes, r.vpn, o);
  }

  lemma {:induction false} SeenFromFile(vm: Vm, p: Page, a: int)
    requires Wf(vm) && Accessible(vm.spaces, p) && !Resident(vm.frames, p) && InPage(p.vpn, a)
    requires !vm.frames[Victim(vm.frames)].dirty
    requires var o := FileOffset(vm.spaces[p.space].program, a); o.Some? && 0 <= o.value < |vm.files[vm.spaces[p.space].file]|
    ensures |Seen(vm, p)| == PageSize
    ensures Seen(vm, p)[a - p.vpn * PageSize] == vm.files[vm.spaces[p.space].file][FileOffset(vm.spaces[p.space].program, a).value]
  {
    SeenByte(vm, p, a);
  }

  /** Another page's byte is found where the frame's leftover is seen. */
  lemma {:induction false} SeeLeftover(vm: Vm, spaces: seq<Space>, p: Page, q: Page, a: int, y: Byte) returns (es: seq<Event>)
    requires Crowded(vm, spaces, 0) && !vm.frames[0].dirty && !Resident(vm.frames, p)
    requires Accessible(spaces, p) && Accessible(spaces, q) && q != p && InPage(p.vpn, a)
    requires var o := FileOffset(spaces[p.space].program, a); o.None? || !(0 <= o.value < |vm.files[spaces[p.space].file]|)
    ensures Avoids(es, p) && Exec(vm, es).spaces == spaces
    ensures |Seen(Exec(vm, es), p)| == PageSize && Seen(Exec(vm, es), p)[a - p.vpn * PageSize] == y
  {
    var vm', g;
    es, vm', g := Poison(vm, spaces, p, q, a - p.vpn * PageSize, y);
    SeenLeftover(vm', p, a);
  }

  /** Another page's byte is found where it was written back to. */
  lemma {:induction false} SeeOverwritten(vm: Vm, spaces: seq<Space>, p: Page, r: Page, a: int, y: Byte) returns (es: seq<Event>)
    requires Crowded(vm, spaces, 0) && !vm.frames[0].dirty && !Resident(vm.frames, p)
    requires Accessible(spaces, p) && Accessible(spaces, r) && r != p && InPage(p.vpn, a) && spaces[r.space].file == spaces[p.space].file
    requires var o := FileOffset(spaces[p.space].program, a);
      o.Some? && 0 <= o.value < |vm.files[spaces[p.space].file]| && InPage(r.vpn, o.value)
    ensures Avoids(es, p) && Exec(vm, es).spaces == spaces
    ensures |Seen(Exec(vm, es), p)| == PageSize && Seen(Exec(vm, es), p)[a - p.vpn * PageSize] == y
  {
    var vm', g;
    es, vm', g := Poison(vm, spaces, p, r, FileOffset(spaces[p.space].program, a).value - r.vpn * PageSize, y);
    SeenOverwritten(vm', p, r, a);
  }

  /** A byte that does not come from the file is whatever the frame's last page had there. */
  lemma {:induction false} LeftoverIsLost(spaces: seq<Space>, files: map<File, seq<Byte>>, p: Page, a: int)
    requires Programs(spaces, files) && Accessible(spaces, p) && Total(spaces) > NumPhysPages && InPage(p.vpn, a)
    requires var o := FileOffset(spaces[p.space].program, a); o.None? || !(0 <= o.value < |files[spaces[p.space].file]|)
    ensures !KeepsUnwritten(spaces, files, p)
  {
    var bytes, q, vm := EvictedClean(spaces, files, p);
    var i := a - p.vpn * PageSize;
    var es := SeeLeftover(vm, spaces, p, q, a, if bytes[i] == 0 then 1 else 0);
    assert Seen(Exec(vm, es), p)[i] != bytes[i];
  }

  /** A byte that comes from where another page is written back is that page's byte. */
  lemma {:induction false} OverwrittenIsLost(spaces: seq<Space>, files: map<File, seq<Byte>>, p: Page, r: Page, a: int)
    requires Programs(spaces, files) && Accessible(spaces, p) && Total(spaces) > NumPhysPages && InPage(p.vpn, a)
    requires Accessible(spaces, r) && r != p && spaces[r.space].file == spaces[p.space].file
    requires var o := FileOffset(spaces[p.space].program, a);
      o.Some? && 0 <= o.value < |files[spaces[p.space].file]| && InPage(r.vpn, o.value)
    ensures !KeepsUnwritten(spaces, files, p)
  {
    var bytes, q, vm := EvictedClean(spaces, files, p);
    var i := a - p.vpn * PageSize;
    var es := SeeOverwritten(vm, spaces, p, r, a, if bytes[i] == 0 then 1 else 0);
    assert Seen(Exec(vm, es), p)[i] != bytes[i];
  }

  /** A byte that Load took from elsewhere is replaced by the handler's choice. */
  lemma {:induction false} MisloadedIsLost(spaces: seq<Space>, files: map<File, seq<Byte>>, p: Page, a: int)
    requires Programs(spaces, files) && Accessible(spaces, p) && Total(spaces) > NumPhysPages && InPage(p.vpn, a) && p.space == 0
    requires var o := FileOffset(spaces[0].program, a); var file := files[spaces[0].file];
      o.Some? && 0 <= o.value < |file| && file[o.value] != LoadByte(spaces[0].program, file, a, 0)
    ensures !KeepsUnwritten(spaces, files, p)
  {
    var bytes, q, vm1 := EvictedClean(spaces, files, p);
    var i := a - p.vpn * PageSize;
    assert bytes[i] == LoadByte(spaces[0].program, files[spaces[0].file], p.vpn * PageSize + i, 0);
    SeenFromFile(vm1, p, a);
    assert Exec(vm1, []) == vm1 && Avoids([], p);
  }

  lemma {:induction false} LostWritten(spaces: seq<Space>, files: map<File, seq<Byte>>, p: Page, before: seq<Event>, e: Event, q: Page)
    requires Accesses(e, p) && q != p && Enabled(Exec(Start(files), before), e)
    requires var vm := Step(Exec(Start(files), before), e); var vm1 := Step(vm, Read(q));
      vm1.spaces == spaces && Seen(vm1, p) != Bytes(vm, p)
    ensures !Keeps(spaces, files, p)
  {
    ExecOne(Step(Exec(Start(files), before), e), Read(q));
    assert Avoids([Read(q)], p);
    assert IsRun(spaces, files, p, before, e, [Read(q)]) && !KeptIn(files, p, before, e, [Read(q)]);
  }

  /** The page was evicted with these bytes, which are now in its file where write-back puts them. */
  ghost predicate AfterWriteBack(vm: Vm, spaces: seq<Space>, files: map<File, seq<Byte>>, p: Page, bytes: seq<Byte>)
    requires Programs(spaces, files) && p.space < |spaces|
  {
    var file := spaces[p.space].file;
    && Crowded(vm, spaces, 0) && !vm.frames[0].dirty && !Resident(vm.frames, p)
    && vm.files == files[file := WriteBack(files[file], bytes, p.vpn)]
  }

  /** From the state that Approach reaches: a byte is written, the page evicted. */
  lemma {:induction false} WriteAndEvict(vm0: Vm, spaces: seq<Space>, files: map<File, seq<Byte>>, p: Page, f: nat, i: nat, b: Byte)
    returns (vm: Vm, q: Page, vm1: Vm)
    requires Programs(spaces, files) && Accessible(spaces, p) && i < PageSize
    requires Ready(vm0, spaces, p, f, p) && vm0.files == files && |vm0.frames[f].bytes| == PageSize
    requires vm0.frames[f].stamp == 1 && forall g :: 0 <= g < |vm0.frames| && g != f ==> vm0.frames[g].stamp > 2
    ensures Enabled(vm0, Write(p, i, [b])) && vm == Step(vm0, Write(p, i, [b])) && Bytes(vm, p) == vm0.frames[f].bytes[i := b]
    ensures q != p && vm1 == Step(vm, Read(q)) && AfterWriteBack(vm1, spaces, files, p, vm0.frames[f].bytes[i := b])
  {
    var e := Write(p, i, [b]);
    UseStep(vm0, e, f);
    vm := Step(vm0, e);
    assert vm.frames[f].bytes == vm0.frames[f].bytes[i := b];
    assert SmallestAt(vm, f) && Locate(vm.frames, p) == f;
    q, vm1 := Evict(vm, spaces, p, f);
  }

  /** A byte that comes from elsewhere in the file than it is written back to. */
  lemma {:induction false} DisplacedIsLost(spaces: seq<Space>, files: map<File, seq<Byte>>, p: Page, a: int)
    requires Programs(spaces, files) && Accessible(spaces, p) && Total(spaces) > NumPhysPages && InPage(p.vpn, a)
    requires var o := FileOffset(spaces[p.space].program, a);
      o.Some? && 0 <= o.value < |files[spaces[p.space].file]| && o.value != a
    ensures !Keeps(spaces, files, p)
  {
    var before, vm0, f := Approach(spaces, files, p);
    assert FrameOk(vm0.spaces, vm0.frames[f]);
    var i, bytes := a - p.vpn * PageSize, vm0.frames[f].bytes;
    var b := OtherByte(spaces[p.space].program, files[spaces[p.space].file], p.vpn, bytes, a);
    var vm, q, vm1 := WriteAndEvict(vm0, spaces, files, p, f, i, b);
    DisplacedDiffers(vm1, spaces, files, p, bytes, a, b);
    LostWritten(spaces, files, p, before, Write(p, i, [b]), q);
  }

  /** A byte to write at a that will not be what is found where a is filled from. */
  lemma {:induction false} OtherByte(program: Program, file: seq<Byte>, vpn: nat, bytes: seq<Byte>, a: int) returns (b: Byte)
    requires InPage(vpn, a) && |bytes| == PageSize
    requires var o := FileOffset(program, a); o.Some? && 0 <= o.value < |file| && o.value != a
    ensures WriteBack(file, bytes[a - vpn * PageSize := b], vpn)[FileOffset(program, a).value] != b
  {
    var i, o := a - vpn * PageSize, FileOffset(program, a).value;
    var found := if InPage(vpn, o) then bytes[o - vpn * PageSize] else file[o];
    b := if found == 0 then 1 else 0;
    WriteBackAt(file, bytes[i := b], vpn, o);
  }

  lemma {:induction false} DisplacedDiffers(vm: Vm, spaces: seq<Space>, files: map<File, seq<Byte>>, p: Page, bytes: seq<Byte>, a: int, b: Byte)
    requires Programs(spaces, files) && Accessible(spaces, p) && InPage(p.vpn, a) && |bytes| == PageSize
    requires AfterWriteBack(vm, spaces, files, p, bytes[a - p.vpn * PageSize := b])
    requires var o := FileOffset(spaces[p.space].program, a); var file := files[spaces[p.space].file];
      o.Some? && 0 <= o.value < |file| && WriteBack(file, bytes[a - p.vpn * PageSize := b], p.vpn)[o.value] != b
    ensures Seen(vm, p) != bytes[a - p.vpn * PageSize := b]
  {
    SeenFromFile(vm, p, a);
  }

  // ---------- The theorems ----------

  lemma {:induction false} UnsafeIsLost(spaces: seq<Space>, files: map<File, seq<Byte>>, p: Page)
    requires Programs(spaces, files) && Accessible(spaces, p) && Total(spaces) > NumPhysPages && !ReadSafe(spaces, files, p)
    ensures !KeepsUnwritten(spaces, files, p)
  {
    var sp := spaces[p.space];
    var file := files[sp.file];
    if !Mapped(sp.program, |file|, p.vpn) {
      var a :| InPage(p.vpn, a) && !(FileOffset(sp.program, a).Some? && 0 <= FileOffset(sp.program, a).value < |file|);
      LeftoverIsLost(spaces, files, p, a);
    } else if !Undisturbed(spaces, p) {
      var r :| Accessible(spaces, r) && r != p && spaces[r.space].file == sp.file && !Elsewhere(sp.program, p.vpn, r.vpn);
      var a :| InPage(p.vpn, a) && FileOffset(sp.program, a).Some? && InPage(r.vpn, FileOffset(sp.program, a).value);
      OverwrittenIsLost(spaces, files, p, r, a);
    } else {
      var bytes := LoadPage(sp.program, file, p.vpn);
      var a :| InPage(p.vpn, a) && file[FileOffset(sp.program, a).value] != bytes[a - p.vpn * PageSize];
      assert bytes[a - p.vpn * PageSize] == LoadByte(sp.program, file, p.vpn * PageSize + (a - p.vpn * PageSize), 0);
      MisloadedIsLost(spaces, files, p, a);
    }
  }

  /** Exactly which pages keep their contents while they are only read: all, if the pages of all programs fit
      into memory; otherwise those that come from the file as a whole, from where no other page within reach is
      written back, and that Load took from there too. */
  lemma {:induction false} KeepsUnwrittenIff(spaces: seq<Space>, files: map<File, seq<Byte>>, p: Page)
    requires Programs(spaces, files) && Accessible(spaces, p)
    ensures KeepsUnwritten(spaces, files, p) <==> Total(spaces) <= NumPhysPages || ReadSafe(spaces, files, p)
  {
    if Total(spaces) <= NumPhysPages || ReadSafe(spaces, files, p) {
      forall before, access, between | IsRun(spaces, files, p, before, access, between) && NeverWrites(before + [access], p)
        ensures KeptIn(files, p, before, access, between)
      {
        var events := before + [access];
        assert NeverWrites(before, p) && !access.Write? by {
          assert events[|before|] == access;
          assert forall i :: 0 <= i < |before| ==> events[i] == before[i];
        }
        if Total(spaces) <= NumPhysPages {
          RoomyIsKept(spaces, files, p, before, access, between);
        } else {
          SafeIsKept(spaces, files, p, false, before, access, between);
        }
      }
    } else {
      UnsafeIsLost(spaces, files, p);
    }
  }

  lemma {:induction false} KeepsImpliesUnwritten(spaces: seq<Space>, files: map<File, seq<Byte>>, p: Page)
    requires Keeps(spaces, files, p)
    ensures KeepsUnwritten(spaces, files, p)
  {
  }

  /** Exactly which pages keep their contents, written or not: all, if the pages of all programs fit into memory;
      otherwise those that moreover come from the offset in the file at which write-back puts them. */
  lemma {:induction false} KeepsIff(spaces: seq<Space>, files: map<File, seq<Byte>>, p: Page)
    requires Programs(spaces, files) && Accessible(spaces, p)
    ensures Keeps(spaces, files, p) <==> Total(spaces) <= NumPhysPages || WriteSafe(spaces, files, p)
  {
    if Total(spaces) <= NumPhysPages || WriteSafe(spaces, files, p) {
      forall before, access, between | IsRun(spaces, files, p, before, access, between)
        ensures KeptIn(files, p, before, access, between)
      {
        if Total(spaces) <= NumPhysPages {
          RoomyIsKept(spaces, files, p, before, access, between);
        } else {
          SafeIsKept(spaces, files, p, true, before, access, between);
        }
      }
    } else if !ReadSafe(spaces, files, p) {
      UnsafeIsLost(spaces, files, p);
      if Keeps(spaces, files, p) {
        KeepsImpliesUnwritten(spaces, files, p);
      }
    } else {
      var program, size := spaces[p.space].program, |files[spaces[p.space].file]|;
      var a :| InPage(p.vpn, a) && !(FileOffset(program, a) == Some(a) && a < size);
      DisplacedIsLost(spaces, files, p, a);
    }
  }
}
