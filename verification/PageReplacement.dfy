/** What the choice of victims means over whole runs (code/machine/machine.cc:222-232): when the frame with the
    smallest use counter holds a least recently used page, and when program files stay as they are. */
module PageReplacement {
  import opened Base
  import opened Disks
  import opened OpenFiles
  import opened NoffFiles
  import opened VirtualMemory
  import opened PageSurvival
  import opened PageLoss

  // ---------- Recency ----------

  /** When a page was last accessed in a run: the number of that event, counted from 1; 0 if it never was. */
  function LastUse(files: map<File, seq<Byte>>, es: seq<Event>, p: Page): (n: nat)
    ensures n <= |es|
    decreases |es|
  {
    if es == [] then 0
    else
      var n := |es| - 1;
      if Accesses(es[n], p) && Enabled(Exec(Start(files), es[..n]), es[n]) then |es| else LastUse(files, es[..n], p)
  }

  lemma {:induction false} LastUseNext(files: map<File, seq<Byte>>, es: seq<Event>, e: Event, p: Page)
    ensures LastUse(files, es + [e], p) ==
      if Accesses(e, p) && Enabled(Exec(Start(files), es), e) then |es| + 1 else LastUse(files, es, p)
  {
    assert (es + [e])[..|es|] == es;
  }

  /** The frame holds a page that was not accessed after any other page in memory. */
  ghost predicate LeastRecent(files: map<File, seq<Byte>>, es: seq<Event>, f: nat) {
    var frames := Exec(Start(files), es).frames;
    f < |frames| &&
    forall g :: 0 <= g < |frames| ==> LastUse(files, es, frames[f].page) <= LastUse(files, es, frames[g].page)
  }

  /** After these events, with no programs but these, an access of q is a fault. */
  ghost predicate Faults(spaces: seq<Space>, files: map<File, seq<Byte>>, es: seq<Event>, q: Page) {
    var vm := Exec(Start(files), es);
    vm.spaces <= spaces && Accessible(vm.spaces, q) && !Resident(vm.frames, q)
  }

  /** Every fault of every run with these programs evicts a least recently used page. */
  ghost predicate EvictsLeastRecent(spaces: seq<Space>, files: map<File, seq<Byte>>) {
    forall es, q :: Faults(spaces, files, es, q) ==>
      Exec(Start(files), es).frames != [] && LeastRecent(files, es, Victim(Exec(Start(files), es).frames))
  }

  /** A step that is no access of a page does not bring it into memory. */
  lemma {:induction false} OnlyAccessBrings(vm: Vm, e: Event, p: Page)
    requires Wf(vm) && vm.spaces != [] && Resident(Step(vm, e).frames, p) && !(Accesses(e, p) && Enabled(vm, e))
    ensures Resident(vm.frames, p)
  {
    if Enabled(vm, e) && !e.Load? {
      AfterAccess(vm, e);
      if !Resident(vm.frames, e.page) {
        FaultWf(vm, e.page);
        var g := Locate(Step(vm, e).frames, p);
        assert vm.frames[g].page == p;
      } else {
        var g := Locate(Step(vm, e).frames, p);
        assert vm.frames[g].page == p;
      }
    }
  }

  lemma {:induction false} NothingBeforeLoad(files: map<File, seq<Byte>>, es: seq<Event>, p: Page)
    requires Exec(Start(files), es).spaces == []
    ensures LastUse(files, es, p) == 0
    decreases |es|
  {
    if es != [] {
      var before, e := es[..|es| - 1], es[|es| - 1];
      assert es == before + [e];
      ExecLast(Start(files), before, e);
      NothingBeforeLoad(files, before, p);
    }
  }

  /** A page in memory whose use counter is zero has not been accessed in the whole run. */
  lemma {:induction false} UnusedNever(files: map<File, seq<Byte>>, es: seq<Event>, p: Page)
    requires Resident(Exec(Start(files), es).frames, p) && Stamp(Exec(Start(files), es), p) == 0
    ensures LastUse(files, es, p) == 0
    decreases |es|
  {
    if es != [] {
      var before, e := es[..|es| - 1], es[|es| - 1];
      assert es == before + [e];
      ExecLast(Start(files), before, e);
      var vm := Exec(Start(files), before);
      if vm.spaces == [] {
        NothingBeforeLoad(files, before, p);
      } else {
        StampAfterStep(vm, e, p);
        OnlyAccessBrings(vm, e, p);
        UnusedNever(files, before, p);
      }
    }
  }

  /** With room for all pages every victim was never accessed, so it is least recently used. */
  lemma {:induction false} RoomyEvictsLeastRecent(spaces: seq<Space>, files: map<File, seq<Byte>>, es: seq<Event>, q: Page)
    requires Total(spaces) <= NumPhysPages && Faults(spaces, files, es, q)
    ensures Exec(Start(files), es).frames != [] && LeastRecent(files, es, Victim(Exec(Start(files), es).frames))
  {
    var vm := Exec(Start(files), es);
    var f := Victim(vm.frames);
    VictimIsUnused(vm, spaces, q);
    assert Locate(vm.frames, vm.frames[f].page) == f;
    UnusedNever(files, es, vm.frames[f].page);
  }

  lemma {:induction false} SomePage(spaces: seq<Space>) returns (p: Page)
    requires Total(spaces) > 0
    ensures Accessible(spaces, p) && Accessible(spaces, Page(p.space, 0))
  {
    PagesCount(spaces);
    p :| p in Pages(spaces);
    InPages(spaces, p);
  }

  /** Otherwise the page accessed last can be the victim. */
  lemma {:induction false} CrowdedEvictsMostRecent(spaces: seq<Space>, files: map<File, seq<Byte>>) returns (es: seq<Event>, q: Page)
    requires Programs(spaces, files) && Total(spaces) > NumPhysPages
    ensures Faults(spaces, files, es, q)
    ensures Exec(Start(files), es).frames != [] && !LeastRecent(files, es, Victim(Exec(Start(files), es).frames))
  {
    var p := SomePage(spaces);
    var before;
    before, q := MostRecentIsEvicted(spaces, files, p);
    es := before + [Read(p)];
    ExecLast(Start(files), before, Read(p));
    LastUseNext(files, before, Read(p), p);
    var frames := Exec(Start(files), es).frames;
    var g := if Victim(frames) == 0 then 1 else 0;
    assert frames[g].page != p;
    LastUseNext(files, before, Read(p), frames[g].page);
  }

  /** The policy evicts least recently used pages exactly if there is room for the pages of all programs. */
  lemma {:induction false} LeastRecentIff(spaces: seq<Space>, files: map<File, seq<Byte>>)
    requires Programs(spaces, files)
    ensures EvictsLeastRecent(spaces, files) <==> Total(spaces) <= NumPhysPages
  {
    if Total(spaces) <= NumPhysPages {
      forall es, q | Faults(spaces, files, es, q)
        ensures Exec(Start(files), es).frames != [] && LeastRecent(files, es, Victim(Exec(Start(files), es).frames))
      {
        RoomyEvictsLeastRecent(spaces, files, es, q);
      }
    } else {
      var es, q := CrowdedEvictsMostRecent(spaces, files);
    }
  }

  // ---------- Program files ----------

  /** In every run with these programs the files stay as they are, so each can be loaded again. */
  ghost predicate FilesStay(spaces: seq<Space>, files: map<File, seq<Byte>>) {
    forall es :: Exec(Start(files), es).spaces <= spaces ==> Exec(Start(files), es).files == files
  }

  lemma {:induction false} RoomyKeepsFiles(vm: Vm, spaces: seq<Space>, es: seq<Event>)
    requires Wf(vm) && Exec(vm, es).spaces <= spaces && Total(spaces) <= NumPhysPages
    ensures Exec(vm, es).files == vm.files
    decreases |es|
  {
    if es != [] {
      SpacesGrow(Step(vm, es[0]), es[1..]);
      RoomyStep(vm, spaces, es[0]);
      RoomyKeepsFiles(Step(vm, es[0]), spaces, es[1..]);
    }
  }

  lemma {:induction false} RoomyStep(vm: Vm, spaces: seq<Space>, e: Event)
    requires Wf(vm) && Step(vm, e).spaces <= spaces && Total(spaces) <= NumPhysPages
    ensures Step(vm, e).files == vm.files
  {
    if Enabled(vm, e) && !e.Load? && !Resident(vm.frames, e.page) {
      AfterAccess(vm, e);
      VictimIsUnused(vm, spaces, e.page);
      assert FrameOk(vm.spaces, vm.frames[Victim(vm.frames)]);
    }
  }

  /** Otherwise the first page of a program can be written back over the header of the program's file, and
      then the program cannot be loaded any more. */
  lemma {:induction false} HeaderIsLost(spaces: seq<Space>, files: map<File, seq<Byte>>, s: nat) returns (es: seq<Event>)
    requires Programs(spaces, files) && Total(spaces) > NumPhysPages && s < |spaces| && spaces[s].numPages > 0
    ensures Exec(Start(files), es).spaces == spaces && spaces[s].file in Exec(Start(files), es).files
    ensures !MeetsAsserts(Exec(Start(files), es).files[spaces[s].file])
  {
    var p, file := Page(s, 0), spaces[s].file;
    assert Describes(files, spaces[s]);
    var before, vm0, f := Approach(spaces, files, p);
    assert FrameOk(vm0.spaces, vm0.frames[f]);
    var bytes := vm0.frames[f].bytes[0 := 0];
    var vm, q, vm1 := WriteAndEvict(vm0, spaces, files, p, f, 0, 0);
    es := before + [Write(p, 0, [0])] + [Read(q)];
    ExecLast(Start(files), before, Write(p, 0, [0]));
    ExecLast(Start(files), before + [Write(p, 0, [0])], Read(q));
    WriteBackAt(files[file], bytes, 0, 0);
    ZeroIsNoMagic(vm1.files[file]);
  }

  lemma {:induction false} ZeroIsNoMagic(file: seq<Byte>)
    requires file != [] && file[0] == 0
    ensures !MeetsAsserts(file)
  {
    if MeetsAsserts(file) {
      MagicByte(file);
    }
  }

  /** Exactly when the program files are safe. */
  lemma {:induction false} FilesStayIff(spaces: seq<Space>, files: map<File, seq<Byte>>)
    requires Programs(spaces, files)
    ensures FilesStay(spaces, files) <==> Total(spaces) <= NumPhysPages
  {
    if Total(spaces) <= NumPhysPages {
      forall es | Exec(Start(files), es).spaces <= spaces ensures Exec(Start(files), es).files == files {
        RoomyKeepsFiles(Start(files), spaces, es);
      }
    } else {
      var p := SomePage(spaces);
      var es := HeaderIsLost(spaces, files, p.space);
      assert Describes(files, spaces[p.space]);
    }
  }
}
