/** Synchronous access to an asynchronous device: SynchDisk (code/filesys/synchdisk.cc:57-94) over the
    disk's request and interrupt code (code/machine/disk.cc:109-166). PostOfficeOutput::Send
    (code/network/post.cc:299-329) follows the same protocol over the network output.

    A call acquires the lock, hands a request to the device, does P on a semaphore that the device's
    interrupt handler V's, and releases the lock. */
module SynchDisks {
  import opened Base
  import opened Semaphores
  import L = Locks

  /** Requests are numbered in the order they are issued, from 1. */
  datatype Pc =
    | Idle
    | Acquiring
    | Acquired
    | Ready               // lock held, request not issued
    | Waiting(n: nat)     // request n issued, inside the semaphore's P
    | Finished(n: nat)    // P has returned, lock not yet released
    | Releasing(n: nat)

  /** `active` is the disk's flag, `scheduled` the number of DiskInts pending; `issued` and `fired`
      count requests and interrupts. */
  datatype State = State(lock: L.LockState, pc: map<Tid, Pc>, done: Sem, active: bool,
                         scheduled: nat, issued: nat, fired: nat)

  datatype Event = Step(t: Tid) | Interrupt

  function PhaseOf(p: Pc): L.Phase {
    match p
    case Idle => L.Outside
    case Acquiring => L.InP
    case Acquired => L.Got
    case Releasing(_) => L.Cleared
    case _ => L.Held
  }

  function Phases(pc: map<Tid, Pc>): map<Tid, L.Phase> {
    map t | t in pc :: PhaseOf(pc[t])
  }

  ghost predicate Enabled(s: State, e: Event) {
    match e
    case Step(t) =>
      && t in s.pc
      && (s.pc[t].Acquiring? ==> t !in s.lock.sem.queue)
      && (s.pc[t].Waiting? ==> t !in s.done.queue)
    case Interrupt => s.scheduled > 0
  }

  /** The disk takes one request at a time, and only the holder releases the lock. */
  ghost predicate Safe(s: State, e: Event)
    requires e.Step? ==> e.t in s.pc
  {
    e.Step? ==>
      && (s.pc[e.t].Ready? ==> !s.active)
      && (s.pc[e.t].Finished? ==> s.lock.holder == Some(e.t))
  }

  function WithLock(s: State, t: Tid, p': Pc): State
    requires t in s.pc
  {
    s.(lock := L.Advance(s.lock, PhaseOf(s.pc[t]), t).0, pc := s.pc[t := p'])
  }

  function Next(s: State, e: Event): State
    requires Enabled(s, e)
  {
    match e
    case Interrupt =>
      s.(scheduled := s.scheduled - 1, active := false, done := VSegment(s.done), fired := s.fired + 1)
    case Step(t) =>
      match s.pc[t]
      case Idle => WithLock(s, t, Acquiring)
      case Acquiring => WithLock(s, t, if s.lock.sem.value == 0 then Acquiring else Acquired)
      case Acquired => WithLock(s, t, Ready)
      case Ready => s.(active := true, scheduled := s.scheduled + 1, issued := s.issued + 1,
                       pc := s.pc[t := Waiting(s.issued + 1)])
      case Waiting(n) => s.(done := PSegment(s.done, t),
                            pc := s.pc[t := if s.done.value == 0 then Waiting(n) else Finished(n)])
      case Finished(n) => WithLock(s, t, Releasing(n))
      case Releasing(_) => WithLock(s, t, Idle)
  }

  /** The device is idle and its semaphore unused. */
  ghost predicate Quiet(s: State) {
    !s.active && s.scheduled == 0 && s.done == NewSem(0) && s.fired == s.issued
  }

  /** The lock's owner t waits for request n: the interrupt is pending, or it has fired and left one
      unit for t. */
  ghost predicate InProgress(s: State, t: Tid, n: nat) {
    && n == s.issued
    && if s.active
       then && s.scheduled == 1 && s.fired + 1 == n && s.done.value == 0 && s.done.woken == {}
            && (s.done.queue == [] || s.done.queue == [t])
       else && s.scheduled == 0 && s.fired == n && s.done.value == 1 && s.done.queue == []
            && (forall u :: u in s.done.woken ==> u == t)
  }

  ghost predicate DeviceInv(s: State) {
    if s.lock.owner.Some? && s.lock.owner.value in s.pc && s.pc[s.lock.owner.value].Waiting?
    then InProgress(s, s.lock.owner.value, s.pc[s.lock.owner.value].n)
    else Quiet(s)
  }

  ghost predicate Inv(s: State) {
    && L.LockInv(s.lock, Phases(s.pc))
    && DeviceInv(s)
    && (forall t :: t in s.pc && (s.pc[t].Finished? || s.pc[t].Releasing?) ==> s.pc[t].n == s.issued)
  }

  lemma OwnerIs(s: State, t: Tid)
    requires L.LockInv(s.lock, Phases(s.pc)) && t in s.pc
    ensures L.Critical(PhaseOf(s.pc[t])) <==> s.lock.owner == Some(t)
    ensures PhaseOf(s.pc[t]).Held? <==> s.lock.holder == Some(t)
  {
    assert Phases(s.pc)[t] == PhaseOf(s.pc[t]);
  }

  lemma EnabledIsSafe(s: State, e: Event)
    requires Inv(s) && Enabled(s, e)
    ensures Safe(s, e)
  {
    if e.Step? {
      OwnerIs(s, e.t);
    }
  }

  /** A step is either one of the lock's code or leaves the lock alone. */
  lemma StepShape(s: State, t: Tid)
    requires Enabled(s, Step(t))
    ensures var s', p := Next(s, Step(t)), PhaseOf(s.pc[t]);
      && t in s'.pc && s'.pc == s.pc[t := s'.pc[t]]
      && if s.pc[t].Ready? || s.pc[t].Waiting?
         then s'.lock == s.lock && PhaseOf(s'.pc[t]) == p
         else L.CanAdvance(s.lock, p, t) && L.Advance(s.lock, p, t) == (s'.lock, PhaseOf(s'.pc[t]))
  {
  }

  lemma PhasesUpdate(pc: map<Tid, Pc>, t: Tid, p: Pc)
    requires t in pc
    ensures Phases(pc[t := p]) == Phases(pc)[t := PhaseOf(p)]
    ensures Phases(pc)[t] == PhaseOf(pc[t])
    ensures PhaseOf(p) == PhaseOf(pc[t]) ==> Phases(pc[t := p]) == Phases(pc)
  {
  }

  lemma KeepsLock(s: State, e: Event)
    requires Enabled(s, e) && L.LockInv(s.lock, Phases(s.pc))
    ensures L.LockInv(Next(s, e).lock, Phases(Next(s, e).pc))
  {
    if e.Step? {
      StepShape(s, e.t);
      PhasesUpdate(s.pc, e.t, Next(s, e).pc[e.t]);
      if !s.pc[e.t].Ready? && !s.pc[e.t].Waiting? {
        L.AdvancePreserves(s.lock, Phases(s.pc), e.t);
      }
    }
  }

  lemma KeepsDevice(s: State, e: Event)
    requires Inv(s) && Enabled(s, e)
    ensures DeviceInv(Next(s, e))
  {
    if e.Step? {
      OwnerIs(s, e.t);
    }
  }

  lemma KeepsNumbers(s: State, e: Event)
    requires Inv(s) && Enabled(s, e)
    ensures forall t :: t in Next(s, e).pc && (Next(s, e).pc[t].Finished? || Next(s, e).pc[t].Releasing?)
                        ==> Next(s, e).pc[t].n == Next(s, e).issued
  {
    if e.Step? {
      OwnerIs(s, e.t);
      forall t | t in s.pc && t != e.t ensures L.Critical(PhaseOf(s.pc[t])) <==> s.lock.owner == Some(t) {
        OwnerIs(s, t);
      }
    }
  }

  lemma NextPreserves(s: State, e: Event)
    requires Inv(s) && Enabled(s, e)
    ensures Safe(s, e) && Inv(Next(s, e))
  {
    EnabledIsSafe(s, e);
    KeepsLock(s, e);
    KeepsDevice(s, e);
    KeepsNumbers(s, e);
  }

  // ---------- Every run ----------

  function Init(threads: set<Tid>): State {
    State(L.NewLock, map t | t in threads :: Idle, NewSem(0), false, 0, 0, 0)
  }

  ghost predicate Run(s: State, events: seq<Event>, s': State)
    decreases |events|
  {
    if events == [] then s' == s
    else Enabled(s, events[0]) && Run(Next(s, events[0]), events[1..], s')
  }

  ghost predicate Reachable(s: State) {
    exists threads, events :: Run(Init(threads), events, s)
  }

  lemma {:induction false} RunPreserves(s: State, events: seq<Event>, s': State)
    requires Inv(s) && Run(s, events, s')
    ensures Inv(s')
    decreases |events|
  {
    if events != [] {
      NextPreserves(s, events[0]);
      RunPreserves(Next(s, events[0]), events[1..], s');
    }
  }

  lemma ReachableInv(s: State)
    requires Reachable(s)
    ensures Inv(s)
  {
    var threads, events :| Run(Init(threads), events, s);
    RunPreserves(Init(threads), events, s);
  }

  /** With any number of callers the disk never gets a request while it is active, at most one
      interrupt is pending, and the semaphore stays 0 or 1. */
  lemma OneRequestAtATime(s: State, e: Event)
    requires Reachable(s) && Enabled(s, e)
    ensures Safe(s, e)
    ensures s.scheduled <= 1 && s.done.value <= 1
    ensures s.active <==> s.scheduled == 1
  {
    ReachableInv(s);
    EnabledIsSafe(s, e);
  }

  /** A call leaves P, and so returns, only after the interrupt for its own request: when it has,
      its request is the last one issued and every request issued has been answered. */
  lemma ReturnsAfterOwnInterrupt(s: State, t: Tid)
    requires Reachable(s) && t in s.pc && (s.pc[t].Finished? || s.pc[t].Releasing?)
    ensures s.pc[t].n == s.issued == s.fired && !s.active
  {
    ReachableInv(s);
    OwnerIs(s, t);
  }

  /** While a call is unfinished, somebody inside a call can go on or an interrupt is due: callers
      never wait forever for a device that has answered. */
  lemma NoCallHangs(s: State, t: Tid)
    requires Reachable(s) && t in s.pc && !s.pc[t].Idle?
    ensures s.scheduled > 0 || exists u :: u in s.pc && !s.pc[u].Idle? && Enabled(s, Step(u))
  {
    ReachableInv(s);
    var phases := Phases(s.pc);
    assert phases[t] == PhaseOf(s.pc[t]);
    if s.lock.owner.Some? {
      var u := s.lock.owner.value;
      assert u in phases && phases[u] == PhaseOf(s.pc[u]);
      OwnerIs(s, u);
      assert s.scheduled > 0 || Enabled(s, Step(u));
    } else {
      OwnerIs(s, t);
      var u := L.FreeLockIsTaken(s.lock, phases, t);
      assert phases[u] == PhaseOf(s.pc[u]);
      assert Enabled(s, Step(u));
    }
  }

  // ---------- What a call does, in order ----------

  /** The stages of a call: outside, in Acquire's P, through it, holding the lock, request issued, P returned,
      lock given up. */
  function Stage(p: Pc): nat {
    match p
    case Idle => 0
    case Acquiring => 1
    case Acquired => 2
    case Ready => 3
    case Waiting(_) => 4
    case Finished(_) => 5
    case Releasing(_) => 6
  }

  /** Every step takes its thread to the next stage; only a thread that finds the lock taken, or the disk not
      ready, stays and is asleep then. No other thread moves. */
  lemma StepsAreInOrder(s: State, t: Tid)
    requires Enabled(s, Step(t))
    ensures var s', p := Next(s, Step(t)), s.pc[t];
      && t in s'.pc && s'.pc == s.pc[t := s'.pc[t]]
      && if p.Acquiring? && s.lock.sem.value == 0 then s'.pc[t] == p && s'.lock.sem.queue == s.lock.sem.queue + [t]
         else if p.Waiting? && s.done.value == 0 then s'.pc[t] == p && s'.done.queue == s.done.queue + [t]
         else Stage(s'.pc[t]) == (Stage(p) + 1) % 7
  {
  }

  ghost predicate IsStep(s: State, e: Event, s': State) {
    Enabled(s, e) && s' == Next(s, e)
  }

  ghost predicate IsRun(run: seq<State>, events: seq<Event>) {
    && |run| == |events| + 1
    && forall i {:trigger IsStep(run[i], events[i], run[i + 1])} :: 0 <= i < |events| ==> IsStep(run[i], events[i], run[i + 1])
  }

  /** The threads in whose steps the disk got a request, in that order: who issued request n is at place n - 1. */
  function Requesters(run: seq<State>, events: seq<Event>, n: nat): seq<Tid>
    requires n <= |events| < |run|
  {
    if n == 0 then []
    else Requesters(run, events, n - 1)
         + if events[n - 1].Step? && run[n].issued != run[n - 1].issued then [events[n - 1].t] else []
  }

  /** How many requests a thread has issued, how many calls it has begun, and the interrupts so far. */
  function RequestsBy(run: seq<State>, events: seq<Event>, n: nat, t: Tid): nat
    requires n <= |events| < |run|
  {
    if n == 0 then 0
    else RequestsBy(run, events, n - 1, t) + if events[n - 1] == Step(t) && run[n].issued != run[n - 1].issued then 1 else 0
  }

  function Calls(run: seq<State>, events: seq<Event>, n: nat, t: Tid): nat
    requires n <= |events| < |run|
  {
    if n == 0 then 0
    else Calls(run, events, n - 1, t) + if events[n - 1] == Step(t) && t in run[n - 1].pc && run[n - 1].pc[t].Idle? then 1 else 0
  }

  function Interrupts(events: seq<Event>, n: nat): nat
    requires n <= |events|
  {
    if n == 0 then 0 else Interrupts(events, n - 1) + if events[n - 1].Interrupt? then 1 else 0
  }

  /** A call past the point at which it issues its request. */
  predicate HasIssued(p: Pc) {
    p.Waiting? || p.Finished? || p.Releasing?
  }

  predicate HasNotIssued(p: Pc) {
    p.Acquiring? || p.Acquired? || p.Ready?
  }

  ghost predicate OwnNumbers(s: State, requesters: seq<Tid>) {
    && |requesters| == s.issued
    && forall t :: t in s.pc && HasIssued(s.pc[t]) ==> 1 <= s.pc[t].n <= s.issued && requesters[s.pc[t].n - 1] == t
  }

  ghost predicate OncePerCall(s: State, t: Tid, own: nat, calls: nat)
    requires t in s.pc
  {
    own == calls - if HasNotIssued(s.pc[t]) then 1 else 0
  }

  lemma {:induction false} NumbersNext(s: State, e: Event, requesters: seq<Tid>)
    requires OwnNumbers(s, requesters) && Enabled(s, e)
    ensures var s' := Next(s, e);
      OwnNumbers(s', requesters + if e.Step? && s'.issued != s.issued then [e.t] else [])
  {
  }

  lemma {:induction false} OnceNext(s: State, e: Event, t: Tid, own: nat, calls: nat)
    requires Enabled(s, e) && t in s.pc && OncePerCall(s, t, own, calls)
    ensures var s' := Next(s, e);
      t in s'.pc && OncePerCall(s', t, own + (if e == Step(t) && s'.issued != s.issued then 1 else 0),
                                calls + if e == Step(t) && s.pc[t].Idle? then 1 else 0)
  {
  }

  lemma {:induction false} StepAt(run: seq<State>, events: seq<Event>, k: nat)
    requires IsRun(run, events) && k < |events|
    ensures Enabled(run[k], events[k]) && run[k + 1] == Next(run[k], events[k])
  {
    assert IsStep(run[k], events[k], run[k + 1]);
  }

  lemma {:induction false} RunInv(threads: set<Tid>, run: seq<State>, events: seq<Event>, n: nat)
    requires IsRun(run, events) && run[0] == Init(threads) && n <= |events|
    ensures Inv(run[n]) && run[n].pc.Keys == threads && run[n].fired == Interrupts(events, n)
  {
    if n > 0 {
      RunInv(threads, run, events, n - 1);
      StepAt(run, events, n - 1);
      NextPreserves(run[n - 1], events[n - 1]);
      FiredNext(run[n - 1], events[n - 1]);
    }
  }

  lemma {:induction false} FiredNext(s: State, e: Event)
    requires Enabled(s, e)
    ensures Next(s, e).pc.Keys == s.pc.Keys && Next(s, e).fired == s.fired + if e.Interrupt? then 1 else 0
  {
  }

  lemma {:induction false} RunNumbers(threads: set<Tid>, run: seq<State>, events: seq<Event>, n: nat)
    requires IsRun(run, events) && run[0] == Init(threads) && n <= |events|
    ensures OwnNumbers(run[n], Requesters(run, events, n))
  {
    if n > 0 {
      RunNumbers(threads, run, events, n - 1);
      StepAt(run, events, n - 1);
      NumbersNext(run[n - 1], events[n - 1], Requesters(run, events, n - 1));
    }
  }

  lemma {:induction false} OnceAt(run: seq<State>, events: seq<Event>, k: nat, t: Tid, own: nat, calls: nat)
    requires IsRun(run, events) && k < |events| && t in run[k].pc && OncePerCall(run[k], t, own, calls)
    ensures var e, s, s' := events[k], run[k], run[k + 1];
      t in s'.pc && OncePerCall(s', t, own + (if e == Step(t) && s'.issued != s.issued then 1 else 0),
                                calls + if e == Step(t) && s.pc[t].Idle? then 1 else 0)
  {
    StepAt(run, events, k);
    OnceNext(run[k], events[k], t, own, calls);
  }

  lemma {:induction false} RunOnce(threads: set<Tid>, run: seq<State>, events: seq<Event>, n: nat, t: Tid)
    requires IsRun(run, events) && run[0] == Init(threads) && n <= |events| && t in threads
    ensures t in run[n].pc && OncePerCall(run[n], t, RequestsBy(run, events, n, t), Calls(run, events, n, t))
  {
    if n > 0 {
      RunOnce(threads, run, events, n - 1, t);
      OnceAt(run, events, n - 1, t, RequestsBy(run, events, n - 1, t), Calls(run, events, n - 1, t));
    }
  }

  /** In every run, a call that is past P has issued exactly one request, its own, and that has been answered; a call
      that has returned has issued exactly one; and the disk has answered as often as it interrupted. */
  lemma OneRequestPerCall(threads: set<Tid>, run: seq<State>, events: seq<Event>, n: nat, t: Tid)
    requires IsRun(run, events) && run[0] == Init(threads) && n <= |events| && t in threads
    ensures t in run[n].pc && |Requesters(run, events, n)| == run[n].issued && run[n].fired == Interrupts(events, n)
    ensures var p, own := run[n].pc[t], RequestsBy(run, events, n, t);
      && own == Calls(run, events, n, t) - (if HasNotIssued(p) then 1 else 0)
      && (p.Finished? || p.Releasing? ==>
            1 <= p.n <= run[n].issued && Requesters(run, events, n)[p.n - 1] == t && run[n].fired >= p.n)
  {
    RunInv(threads, run, events, n);
    RunNumbers(threads, run, events, n);
    RunOnce(threads, run, events, n, t);
    OwnerIs(run[n], t);
  }
}
