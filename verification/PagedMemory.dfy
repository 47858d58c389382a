/** What programs see of demand paging: the results of the reads in any sequence of operations of the machine
    (code/machine/translate.cc:85-185, code/userprog/exception.cc:195-305). */
module PagedMemory {
  import opened Base
  import opened Disks
  import opened OpenFiles
  import opened NoffFiles
  import opened VirtualMemory
  import opened PageSurvival
  import opened PageLoss
  import opened Paging

  /** The operation is an access of the page. */
  ghost predicate Touches(t: Moment, op: Operation, p: Page) {
    Legal(t) && Acceptable(op) && EventOf(t, op).Some? && Accesses(EventOf(t, op).value, p)
  }

  /** One more operation is at most one more step. */
  lemma {:induction false} OneMore(vm: Vm, es: seq<Event>, t: Moment, op: Operation, t': Moment, p: Page) returns (es': seq<Event>)
    requires Wf(vm) && t.vm == Exec(vm, es) && Follows(t, op, t')
    ensures t'.vm == Exec(vm, es') && (Avoids(es, p) && !Touches(t, op, p) ==> Avoids(es', p))
  {
    var e := EventOf(t, op);
    es' := if e.None? then es else es + [e.value];
    if e.Some? {
      ExecLast(vm, es, e.value);
    }
  }

  lemma {:induction false} FollowsAt(files: map<File, seq<Byte>>, ops: seq<Operation>, trace: seq<Moment>, k: nat)
    requires Traces(files, ops, trace) && k < |trace| - 1
    ensures Follows(trace[k], ops[k], trace[k + 1])
  {
  }

  /** Operations from j up to i that do not access a page are steps that do not. */
  lemma {:induction false} StepsBetween(files: map<File, seq<Byte>>, ops: seq<Operation>, trace: seq<Moment>, j: nat, i: nat, p: Page)
      returns (es: seq<Event>)
    requires Traces(files, ops, trace) && j <= i < |trace| && Wf(trace[j].vm)
    ensures trace[i].vm == Exec(trace[j].vm, es)
    ensures (forall k {:trigger Touches(trace[k], ops[k], p)} :: j <= k < i ==> !Touches(trace[k], ops[k], p)) ==> Avoids(es, p)
    decreases i
  {
    if i == j {
      es := [];
    } else {
      es := StepsBetween(files, ops, trace, j, i - 1, p);
      FollowsAt(files, ops, trace, i - 1);
      es := OneMore(trace[j].vm, es, trace[i - 1], ops[i - 1], trace[i], p);
    }
  }

  /** The step of an access is possible. */
  lemma {:induction false} TouchIsEnabled(t: Moment, op: Operation, t': Moment, p: Page)
    requires Follows(t, op, t') && Touches(t, op, p)
    ensures Enabled(t.vm, EventOf(t, op).value) && t'.vm == Step(t.vm, EventOf(t, op).value)
  {
    match op
    case WriteOp(a, bytes) => WithinPage(a, |bytes|);
    case _ =>
  }

  /** Operation j is the last access of the page before operation i. */
  ghost predicate LastAccess(ops: seq<Operation>, trace: seq<Moment>, j: nat, i: nat, p: Page)
    requires i <= |ops| < |trace|
  {
    && j < i && Touches(trace[j], ops[j], p)
    && forall k {:trigger Touches(trace[k], ops[k], p)} :: j < k < i ==> !Touches(trace[k], ops[k], p)
  }

  /** An access, and then steps that are none. */
  lemma {:induction false} KeptAfter(spaces: seq<Space>, files: map<File, seq<Byte>>, p: Page,
                                     before: seq<Event>, t: Moment, op: Operation, t': Moment, between: seq<Event>)
    requires Keeps(spaces, files, p) && t.vm == Exec(Start(files), before) && Follows(t, op, t') && Touches(t, op, p)
    requires Wf(t'.vm) && Avoids(between, p) && Exec(t'.vm, between).spaces <= spaces
    ensures Seen(Exec(t'.vm, between), p) == Bytes(t'.vm, p) && t.vm.spaces <= Exec(t'.vm, between).spaces
  {
    var access := EventOf(t, op).value;
    TouchIsEnabled(t, op, t', p);
    AfterAccess(t.vm, access);
    SpacesGrow(t'.vm, between);
    assert IsRun(spaces, files, p, before, access, between);
    assert KeptIn(files, p, before, access, between);
  }

  /** Whatever is loaded, run, read and written between two accesses of a page, the second finds what the
      first left. */
  lemma {:induction false} AccessFindsLast(spaces: seq<Space>, files: map<File, seq<Byte>>, ops: seq<Operation>, trace: seq<Moment>,
                                           j: nat, i: nat, p: Page)
    requires Traces(files, ops, trace) && |trace| == |ops| + 1 && i <= |ops| && Legal(trace[i]) && LastAccess(ops, trace, j, i, p)
    requires Keeps(spaces, files, p) && trace[i].vm.spaces <= spaces
    ensures Seen(trace[i].vm, p) == Bytes(trace[j + 1].vm, p)
    ensures trace[j].vm.spaces <= trace[i].vm.spaces
  {
    FollowsAt(files, ops, trace, j);
    var before := StepsBetween(files, ops, trace, 0, j, p);
    var between := StepsBetween(files, ops, trace, j + 1, i, p);
    KeptAfter(spaces, files, p, before, trace[j], ops[j], trace[j + 1], between);
  }

  // ---------- Bytes ----------

  /** What an access leaves in the page: what it found, with the bytes it writes. */
  lemma {:induction false} AccessBytes(vm: Vm, e: Event, p: Page)
    requires Wf(vm) && Enabled(vm, e) && Accesses(e, p)
    ensures |Seen(vm, p)| == PageSize
    ensures Bytes(Step(vm, e), p) == if e.Write? then PutBytes(Seen(vm, p), e.offset, e.data) else Seen(vm, p)
  {
    AfterAccess(vm, e);
    AfterAccess(vm, Read(p));
    var vm1 := Step(vm, Read(p));
    assert FrameOk(vm1.spaces, vm1.frames[Locate(vm1.frames, p)]);
  }

  /** The operation is a write that stores to byte o of page p, and what it stores there. */
  ghost predicate Stores(t: Moment, op: Operation, p: Page, o: nat) {
    Touches(t, op, p) && EventOf(t, op).value.Write? && EventOf(t, op).value.offset <= o < EventOf(t, op).value.offset + |EventOf(t, op).value.data|
  }

  ghost function Stored(t: Moment, op: Operation, p: Page, o: nat): Byte
    requires Stores(t, op, p, o)
  {
    EventOf(t, op).value.data[o - EventOf(t, op).value.offset]
  }

  /** The byte that an access of the page finds. */
  function Found(vm: Vm, p: Page, o: nat): Byte
    requires Wf(vm)
  {
    var page := Seen(vm, p);
    if o < |page| then page[o] else 0
  }

  lemma {:induction false} PutAt(page: seq<Byte>, offset: nat, data: seq<Byte>, o: nat)
    requires offset + |data| <= |page| && o < |page|
    ensures |PutBytes(page, offset, data)| == |page|
    ensures PutBytes(page, offset, data)[o] == if offset <= o < offset + |data| then data[o - offset] else page[o]
  {
  }

  /** An access of the page leaves the byte that it found, or the one that it stored there. */
  lemma {:induction false} ByteAfter(t: Moment, op: Operation, t': Moment, p: Page, o: nat)
    requires Follows(t, op, t') && Touches(t, op, p) && o < PageSize
    ensures Accessible(t.vm.spaces, p) && |Bytes(t'.vm, p)| == PageSize
    ensures Bytes(t'.vm, p)[o] == if Stores(t, op, p, o) then Stored(t, op, p, o) else Found(t.vm, p, o)
  {
    TouchIsEnabled(t, op, t', p);
    var e := EventOf(t, op).value;
    AccessBytes(t.vm, e, p);
    if e.Write? {
      PutAt(Seen(t.vm, p), e.offset, e.data, o);
    }
  }

  /** The last access of a page among operations j up to i, if j is one. */
  lemma {:induction false} FindLastAccess(ops: seq<Operation>, trace: seq<Moment>, j: nat, i: nat, p: Page) returns (m: nat)
    requires j < i <= |ops| < |trace| && Touches(trace[j], ops[j], p)
    ensures j <= m && LastAccess(ops, trace, m, i, p)
  {
    m := i - 1;
    while !Touches(trace[m], ops[m], p)
      invariant j <= m < i && forall k {:trigger Touches(trace[k], ops[k], p)} :: m < k < i ==> !Touches(trace[k], ops[k], p)
      decreases m
    {
      m := m - 1;
    }
  }

  /** No operation from j on and before i stores to the byte. */
  ghost predicate NoStore(ops: seq<Operation>, trace: seq<Moment>, j: nat, i: nat, p: Page, o: nat)
    requires i <= |ops| < |trace|
  {
    forall k {:trigger Stores(trace[k], ops[k], p, o)} :: j <= k < i ==> !Stores(trace[k], ops[k], p, o)
  }

  /** What an access finds, in terms of the last access of the page. */
  lemma {:induction false} ByteFound(spaces: seq<Space>, files: map<File, seq<Byte>>, ops: seq<Operation>, trace: seq<Moment>,
                                     m: nat, i: nat, p: Page, o: nat)
    requires Traces(files, ops, trace) && |trace| == |ops| + 1 && i <= |ops| && Legal(trace[i]) && LastAccess(ops, trace, m, i, p)
    requires Keeps(spaces, files, p) && trace[i].vm.spaces <= spaces && o < PageSize
    ensures trace[m].vm.spaces <= trace[i].vm.spaces && Legal(trace[m]) && Accessible(trace[m].vm.spaces, p)
    ensures Found(trace[i].vm, p, o) == if Stores(trace[m], ops[m], p, o) then Stored(trace[m], ops[m], p, o) else Found(trace[m].vm, p, o)
  {
    AccessFindsLast(spaces, files, ops, trace, m, i, p);
    FollowsAt(files, ops, trace, m);
    ByteAfter(trace[m], ops[m], trace[m + 1], p, o);
  }

  /** An access finds in each byte what was last stored there, however often the page was accessed, evicted
      and filled again since. */
  lemma {:induction false} FindsLastStore(spaces: seq<Space>, files: map<File, seq<Byte>>, ops: seq<Operation>, trace: seq<Moment>,
                                          j: nat, i: nat, p: Page, o: nat)
    requires Traces(files, ops, trace) && |trace| == |ops| + 1 && i <= |ops| && Legal(trace[i])
    requires Keeps(spaces, files, p) && trace[i].vm.spaces <= spaces && o < PageSize
    requires j < i && Stores(trace[j], ops[j], p, o) && NoStore(ops, trace, j + 1, i, p, o)
    ensures Found(trace[i].vm, p, o) == Stored(trace[j], ops[j], p, o)
    decreases i
  {
    var m := FindLastAccess(ops, trace, j, i, p);
    ByteFound(spaces, files, ops, trace, m, i, p, o);
    if j < m {
      FindsLastStore(spaces, files, ops, trace, j, m, p, o);
    }
  }

  /** In a byte that was never stored to, it finds what the program's file had. */
  lemma {:induction false} FindsProgram(spaces: seq<Space>, files: map<File, seq<Byte>>, ops: seq<Operation>, trace: seq<Moment>,
                                        i: nat, p: Page, o: nat)
    requires Traces(files, ops, trace) && |trace| == |ops| + 1 && i <= |ops| && Legal(trace[i])
    requires Keeps(spaces, files, p) && Safe(spaces, files, p, true) && o < PageSize
    requires trace[i].vm.spaces <= spaces && Accessible(trace[i].vm.spaces, p) && NoStore(ops, trace, 0, i, p, o)
    ensures Found(trace[i].vm, p, o) == ProgramPage(spaces[p.space], files[spaces[p.space].file], p.vpn)[o]
    decreases i
  {
    if j :| 0 <= j < i && Touches(trace[j], ops[j], p) {
      var m := FindLastAccess(ops, trace, j, i, p);
      ByteFound(spaces, files, ops, trace, m, i, p, o);
      FindsProgram(spaces, files, ops, trace, m, p, o);
    } else {
      var es := StepsBetween(files, ops, trace, 0, i, p);
      FirstAccessFinds(spaces, files, p, true, es);
    }
  }

  lemma {:induction false} ProgramByte(sp: Space, file: seq<Byte>, vpn: nat, o: nat)
    requires MappedInPlace(sp.program, |file|, vpn) && o < PageSize
    ensures vpn * PageSize + o < |file| && ProgramPage(sp, file, vpn)[o] == file[vpn * PageSize + o]
  {
    assert InPage(vpn, vpn * PageSize + o);
  }

  lemma {:induction false} FindsFile(spaces: seq<Space>, files: map<File, seq<Byte>>, ops: seq<Operation>, trace: seq<Moment>,
                                     i: nat, p: Page, o: nat)
    requires Traces(files, ops, trace) && |trace| == |ops| + 1 && i <= |ops| && Legal(trace[i])
    requires Safe(spaces, files, p, true) && o < PageSize
    requires trace[i].vm.spaces <= spaces && Accessible(trace[i].vm.spaces, p) && NoStore(ops, trace, 0, i, p, o)
    ensures p.vpn * PageSize + o < |files[spaces[p.space].file]| && Found(trace[i].vm, p, o) == files[spaces[p.space].file][p.vpn * PageSize + o]
  {
    KeepsIff(spaces, files, p);
    FindsProgram(spaces, files, ops, trace, i, p, o);
    ProgramByte(spaces[p.space], files[spaces[p.space].file], p.vpn, o);
  }

  // ---------- What reads return ----------

  /** The operation is a read without an address error. */
  ghost predicate IsRead(t: Moment, op: Operation) {
    op.ReadOp? && Legal(t) && Acceptable(op) && EventOf(t, op).Some?
  }

  /** One byte of what a read returns. */
  lemma {:induction false} ReadByte(t: Moment, op: Operation, output: seq<Byte>, k: nat)
    requires IsRead(t, op) && Returned(t, op, output) && k < op.size
    ensures Accessible(t.vm.spaces, Page(t.running, op.virtAddr / PageSize))
    ensures op.virtAddr % PageSize + k < PageSize && |output| == op.size
    ensures output[k] == Found(t.vm, Page(t.running, op.virtAddr / PageSize), op.virtAddr % PageSize + k)
  {
    WithinPage(op.virtAddr, op.size);
    AccessBytes(t.vm, EventOf(t, op).value, Page(t.running, op.virtAddr / PageSize));
  }

  lemma {:induction false} KeptReadsBack(spaces: seq<Space>, files: map<File, seq<Byte>>, ops: seq<Operation>, trace: seq<Moment>,
                                         j: nat, i: nat, k: nat, output: seq<Byte>, p: Page, o: nat)
    requires Traces(files, ops, trace) && |trace| == |ops| + 1 && i < |ops| && IsRead(trace[i], ops[i]) && Returned(trace[i], ops[i], output)
    requires k < ops[i].size && p == Page(trace[i].running, ops[i].virtAddr / PageSize) && o == ops[i].virtAddr % PageSize + k
    requires Keeps(spaces, files, p) && trace[i].vm.spaces <= spaces
    requires j < i && Stores(trace[j], ops[j], p, o) && NoStore(ops, trace, j + 1, i, p, o)
    ensures |output| == ops[i].size && output[k] == Stored(trace[j], ops[j], p, o)
  {
    ReadByte(trace[i], ops[i], output, k);
    FindsLastStore(spaces, files, ops, trace, j, i, p, o);
  }

  /** Memory behaves as memory. A read of any address and size returns, for each byte k on a page that is kept,
      what the last write to that byte in the running address space stored, whatever was read, written, loaded and
      run in between, on the same page or elsewhere. */
  lemma {:induction false} ReadsBack(spaces: seq<Space>, files: map<File, seq<Byte>>, ops: seq<Operation>, trace: seq<Moment>,
                                     j: nat, i: nat, k: nat, output: seq<Byte>, p: Page, o: nat)
    requires Traces(files, ops, trace) && |trace| == |ops| + 1 && i < |ops| && IsRead(trace[i], ops[i]) && Returned(trace[i], ops[i], output)
    requires k < ops[i].size && p == Page(trace[i].running, ops[i].virtAddr / PageSize) && o == ops[i].virtAddr % PageSize + k
    requires Programs(spaces, files) && trace[i].vm.spaces <= spaces && Accessible(spaces, p)
    requires Total(spaces) <= NumPhysPages || WriteSafe(spaces, files, p)
    requires j < i && Stores(trace[j], ops[j], p, o) && NoStore(ops, trace, j + 1, i, p, o)
    ensures |output| == ops[i].size && output[k] == Stored(trace[j], ops[j], p, o)
  {
    KeepsIff(spaces, files, p);
    KeptReadsBack(spaces, files, ops, trace, j, i, k, output, p, o);
  }

  /** And for each byte on a safe page that was never written, what the program's file had at its address when the
      machine started. */
  lemma {:induction false} ReadsProgram(spaces: seq<Space>, files: map<File, seq<Byte>>, ops: seq<Operation>, trace: seq<Moment>,
                                        i: nat, k: nat, output: seq<Byte>, p: Page, o: nat)
    requires Traces(files, ops, trace) && |trace| == |ops| + 1 && i < |ops| && IsRead(trace[i], ops[i]) && Returned(trace[i], ops[i], output)
    requires k < ops[i].size && p == Page(trace[i].running, ops[i].virtAddr / PageSize) && o == ops[i].virtAddr % PageSize + k
    requires trace[i].vm.spaces <= spaces && Safe(spaces, files, p, true) && NoStore(ops, trace, 0, i, p, o)
    ensures |output| == ops[i].size && ops[i].virtAddr + k < |files[spaces[p.space].file]|
    ensures output[k] == files[spaces[p.space].file][ops[i].virtAddr + k]
  {
    ReadByte(trace[i], ops[i], output, k);
    FindsFile(spaces, files, ops, trace, i, p, o);
  }
}
