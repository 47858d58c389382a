/** Condition variables over a lock (code/threads/synch.cc:240-297).

    Wait allocates a private semaphore, appends it to waitQueue, releases the lock, does P on the
    private semaphore, reacquires the lock and deletes the semaphore. Signal removes the front of
    waitQueue and does V on it. The step system below lets any thread be preempted between any two
    of these steps. */
module Monitor {
  import opened Base
  import opened Semaphores
  import L = Locks

  /** Private semaphores are named by their order of allocation. */
  type Sid = nat

  /** Why the lock is acquired or released: on the client's behalf, or inside Wait. */
  datatype Cause = Client | InWait(w: Sid)

  /** Who called Signal: the client, or Broadcast. For Broadcast, `before` is the log of Vs and `all`
      is waitQueue as Broadcast found them; both are auxiliary. */
  datatype Caller = FromClient | FromBroadcast(before: seq<Sid>, all: seq<Sid>)

  datatype Pc =
    | Outside                              // not in the monitor
    | Acquiring(cause: Cause)              // inside the lock's P
    | Acquired(cause: Cause)               // P returned, holder not set
    | Inside                               // client code, lock held
    | WaitNew(w: Sid)                      // Wait: semaphore allocated
    | WaitQueued(w: Sid)                   // Wait: semaphore appended to waitQueue
    | Releasing(cause: Cause)              // holder cleared, V not done
    | Blocking(w: Sid)                     // Wait: inside the private semaphore's P
    | WaitDelete(w: Sid)                   // Wait: lock reacquired, about to delete
    | Broadcasting(caller: Caller)         // Broadcast: at the loop test
    | Signalling(w: Sid, caller: Caller)   // Signal: semaphore dequeued, V not done
    | Signalled(w: Sid, caller: Caller)    // Signal: V's atomic part done, V has not returned

  /** `log` is auxiliary: the private semaphores V has been done on, in order. */
  datatype State = State(lock: L.LockState, pc: map<Tid, Pc>, waitQueue: seq<Sid>,
                         sems: map<Sid, Sem>, nextSid: Sid, log: seq<Sid>)

  function PhaseOf(p: Pc): L.Phase {
    match p
    case Outside => L.Outside
    case Acquiring(_) => L.InP
    case Acquired(_) => L.Got
    case Releasing(_) => L.Cleared
    case Blocking(_) => L.Outside
    case _ => L.Held
  }

  function Phases(pc: map<Tid, Pc>): map<Tid, L.Phase> {
    map t | t in pc :: PhaseOf(pc[t])
  }

  /** The calls a client may make; a thread inside a call just goes on. */
  datatype Action = Acquire | Release | Wait | Signal | Broadcast | Continue

  datatype Event = Event(t: Tid, act: Action)

  /** The private semaphore a thread touches in its next step, if any. */
  function Touches(p: Pc): Option<Sid> {
    match p
    case Blocking(w) => Some(w)
    case Signalling(w, _) => Some(w)
    case WaitDelete(w) => Some(w)
    case _ => None
  }

  /** A client calls Acquire from outside, and everything else while it holds the lock. A thread
      can continue unless it sleeps in a queue. A step that touches a private semaphore needs it to
      be allocated. */
  ghost predicate Enabled(s: State, e: Event) {
    && e.t in s.pc
    && var p := s.pc[e.t];
    && (match e.act
        case Acquire => p.Outside?
        case Continue => !p.Outside? && !p.Inside?
        case _ => p.Inside?)
    && (p.Acquiring? ==> e.t !in s.lock.sem.queue)
    && (p.Blocking? && p.w in s.sems ==> e.t !in s.sems[p.w].queue)
  }

  /** The step does not touch a deleted semaphore, and the source's ASSERT in front of it holds. */
  ghost predicate Safe(s: State, e: Event)
    requires e.t in s.pc
  {
    && (Touches(s.pc[e.t]).Some? ==> Touches(s.pc[e.t]).value in s.sems)
    && ((e.act.Release? || e.act.Wait? || e.act.Signal? || s.pc[e.t].WaitQueued? || s.pc[e.t].Broadcasting?)
        ==> s.lock.holder == Some(e.t))
  }

  function WithLock(s: State, t: Tid, p': Pc): State
    requires t in s.pc
  {
    s.(lock := L.Advance(s.lock, PhaseOf(s.pc[t]), t).0, pc := s.pc[t := p'])
  }

  /** Signal: dequeue the first waiter, if there is one, and go on to V it. */
  function SignalStep(s: State, t: Tid, caller: Caller, done: Pc): State {
    if s.waitQueue == [] then s.(pc := s.pc[t := done])
    else s.(waitQueue := s.waitQueue[1..], pc := s.pc[t := Signalling(s.waitQueue[0], caller)])
  }

  function Next(s: State, e: Event): State
    requires e.t in s.pc
    requires Touches(s.pc[e.t]).Some? ==> Touches(s.pc[e.t]).value in s.sems
  {
    var t := e.t;
    match s.pc[t]
    case Outside => WithLock(s, t, Acquiring(Client))
    case Acquiring(c) => WithLock(s, t, if s.lock.sem.value == 0 then Acquiring(c) else Acquired(c))
    case Acquired(c) => WithLock(s, t, if c.Client? then Inside else WaitDelete(c.w))
    case Inside => (
      match e.act
      case Release => WithLock(s, t, Releasing(Client))
      case Wait => s.(sems := s.sems[s.nextSid := NewSem(0)], nextSid := s.nextSid + 1,
                      pc := s.pc[t := WaitNew(s.nextSid)])
      case Signal => SignalStep(s, t, FromClient, Inside)
      case Broadcast => s.(pc := s.pc[t := Broadcasting(FromBroadcast(s.log, s.waitQueue))])
      case _ => s)
    case WaitNew(w) => s.(waitQueue := s.waitQueue + [w], pc := s.pc[t := WaitQueued(w)])
    case WaitQueued(w) => WithLock(s, t, Releasing(InWait(w)))
    case Releasing(c) => WithLock(s, t, if c.Client? then Outside else Blocking(c.w))
    case Blocking(w) =>
      s.(sems := s.sems[w := PSegment(s.sems[w], t)],
         pc := s.pc[t := if s.sems[w].value == 0 then Blocking(w) else Acquiring(InWait(w))])
    case WaitDelete(w) => s.(sems := s.sems - {w}, pc := s.pc[t := Inside])
    case Broadcasting(c) => SignalStep(s, t, c, Inside)
    case Signalling(w, c) =>
      s.(sems := s.sems[w := VSegment(s.sems[w])], log := s.log + [w], pc := s.pc[t := Signalled(w, c)])
    case Signalled(_, c) => s.(pc := s.pc[t := if c.FromClient? then Inside else Broadcasting(c)])
  }

  // ---------- The invariant ----------

  /** The private semaphore a thread allocated in Wait and has not yet deleted. */
  function Waits(p: Pc): Option<Sid> {
    match p
    case WaitNew(w) => Some(w)
    case WaitQueued(w) => Some(w)
    case Releasing(c) => if c.Client? then None else Some(c.w)
    case Blocking(w) => Some(w)
    case Acquiring(c) => if c.Client? then None else Some(c.w)
    case Acquired(c) => if c.Client? then None else Some(c.w)
    case WaitDelete(w) => Some(w)
    case _ => None
  }

  /** The waiter is on the queue or signalled, and has not come through its P yet. */
  predicate Pending(p: Pc) {
    p.WaitQueued? || p.Blocking? || (p.Releasing? && p.cause.InWait?)
  }

  /** The semaphore that was dequeued and is about to be V'd. Only the lock's owner can be there. */
  ghost function InFlight(s: State): Option<Sid> {
    if s.lock.owner.Some? && s.lock.owner.value in s.pc && s.pc[s.lock.owner.value].Signalling?
    then Some(s.pc[s.lock.owner.value].w)
    else None
  }

  ghost predicate AwaitsV(s: State, w: Sid) {
    w in s.waitQueue || InFlight(s) == Some(w)
  }

  /** The state of a waiter t's private semaphore w: exactly one of "on waitQueue", "about to be
      V'd" and "one unit stored" until t is through its P; unused before and after. */
  ghost predicate WaiterOk(s: State, t: Tid, w: Sid)
    requires t in s.pc
  {
    && w in s.sems
    && w < s.nextSid
    && if Pending(s.pc[t]) then
         && !(w in s.waitQueue && InFlight(s) == Some(w))
         && s.sems[w].value == (if AwaitsV(s, w) then 0 else 1)
         && (s.sems[w].queue == [] || (s.sems[w].queue == [t] && s.pc[t].Blocking? && AwaitsV(s, w)))
         && (forall u :: u in s.sems[w].woken ==> u == t && s.pc[t].Blocking? && s.sems[w].queue == [])
       else
         && !AwaitsV(s, w)
         && s.sems[w] == NewSem(0)
  }

  /** Progress of a Broadcast: what has been V'd, what is in flight and what is still queued make up
      what had been V'd and what was queued when it began. */
  ghost predicate BroadcastOk(s: State, c: Caller, inFlight: seq<Sid>) {
    c.FromBroadcast? ==> s.log + inFlight + s.waitQueue == c.before + c.all
  }

  ghost predicate CallerOk(s: State, p: Pc) {
    match p
    case Broadcasting(c) => c.FromBroadcast? && BroadcastOk(s, c, [])
    case Signalling(w, c) => BroadcastOk(s, c, [w])
    case Signalled(w, c) => BroadcastOk(s, c, [])
    case _ => true
  }

  ghost predicate WaitersInv(s: State) {
    && (forall t :: t in s.pc && Waits(s.pc[t]).Some? ==> WaiterOk(s, t, Waits(s.pc[t]).value))
    && (forall t, u :: t in s.pc && u in s.pc && t != u && Waits(s.pc[t]).Some? ==> Waits(s.pc[t]) != Waits(s.pc[u]))
  }

  ghost predicate QueueInv(s: State) {
    && (forall w :: w in s.sems ==> w < s.nextSid)
    && Distinct(s.waitQueue)
    && (forall w :: w in s.waitQueue ==> w in s.sems)
    && (InFlight(s).Some? ==> InFlight(s).value in s.sems && InFlight(s).value !in s.waitQueue)
  }

  ghost predicate CallersInv(s: State) {
    forall t :: t in s.pc ==> CallerOk(s, s.pc[t])
  }

  ghost predicate Inv(s: State) {
    && L.LockInv(s.lock, Phases(s.pc))
    && WaitersInv(s)
    && QueueInv(s)
    && CallersInv(s)
  }

  // ---------- Every step keeps it ----------

  /** A thread whose next step needs the lock is its owner and, unless it is just getting or giving
      it up, its holder. */
  lemma OwnerIs(s: State, t: Tid)
    requires L.LockInv(s.lock, Phases(s.pc)) && t in s.pc
    ensures L.Critical(PhaseOf(s.pc[t])) <==> s.lock.owner == Some(t)
    ensures PhaseOf(s.pc[t]).Held? <==> s.lock.holder == Some(t)
    ensures s.pc[t].Signalling? ==> InFlight(s) == Some(s.pc[t].w)
    ensures L.Critical(PhaseOf(s.pc[t])) && !s.pc[t].Signalling? ==> InFlight(s) == None
  {
    assert Phases(s.pc)[t] == PhaseOf(s.pc[t]);
  }

  /** Under the invariant an enabled step never touches a deleted semaphore and meets the ASSERTs. */
  lemma EnabledIsSafe(s: State, e: Event)
    requires Inv(s) && Enabled(s, e)
    ensures Safe(s, e)
  {
    OwnerIs(s, e.t);
  }

  /** The step is one of the lock's own code. */
  ghost predicate InLockCode(s: State, e: Event)
    requires e.t in s.pc
  {
    match s.pc[e.t]
    case Outside => true
    case Acquiring(_) => true
    case Acquired(_) => true
    case Inside => e.act.Release?
    case WaitQueued(_) => true
    case Releasing(_) => true
    case Blocking(w) => w in s.sems && s.sems[w].value > 0
    case _ => false
  }

  /** A step changes the program counter of one thread and is either a step of the lock's code or
      leaves the lock alone. */
  lemma StepShape(s: State, e: Event)
    requires Enabled(s, e) && Safe(s, e)
    ensures e.t in Next(s, e).pc && Next(s, e).pc == s.pc[e.t := Next(s, e).pc[e.t]]
    ensures var s', p := Next(s, e), PhaseOf(s.pc[e.t]);
      if InLockCode(s, e)
      then L.CanAdvance(s.lock, p, e.t) && L.Advance(s.lock, p, e.t) == (s'.lock, PhaseOf(s'.pc[e.t]))
      else s'.lock == s.lock && PhaseOf(s'.pc[e.t]) == p
  {
  }

  lemma PhasesUpdate(pc: map<Tid, Pc>, t: Tid, p: Pc)
    requires t in pc
    ensures Phases(pc[t := p]) == Phases(pc)[t := PhaseOf(p)]
    ensures Phases(pc)[t] == PhaseOf(pc[t])
    ensures PhaseOf(p) == PhaseOf(pc[t]) ==> Phases(pc[t := p]) == Phases(pc)
  {
  }

  lemma KeepsLock(s: State, e: Event)
    requires L.LockInv(s.lock, Phases(s.pc)) && Enabled(s, e) && Safe(s, e)
    ensures L.LockInv(Next(s, e).lock, Phases(Next(s, e).pc))
  {
    StepShape(s, e);
    PhasesUpdate(s.pc, e.t, Next(s, e).pc[e.t]);
    if InLockCode(s, e) {
      L.AdvancePreserves(s.lock, Phases(s.pc), e.t);
    }
  }

  /** What the other waiters see of a step: nothing about their own semaphore changes. */
  ghost predicate Undisturbed(s: State, s': State, w: Sid) {
    && w in s.sems && w in s'.sems && s'.sems[w] == s.sems[w]
    && (w in s'.waitQueue <==> w in s.waitQueue)
    && (InFlight(s') == Some(w) <==> InFlight(s) == Some(w))
  }

  /** It is enough to look at the waiters whose semaphore the step disturbs. */
  lemma WaitersFrame(s: State, s': State, t: Tid)
    requires WaitersInv(s) && t in s.pc && t in s'.pc && s'.pc == s.pc[t := s'.pc[t]] && s.nextSid <= s'.nextSid
    requires forall u :: u in s.pc && u != t && Waits(s.pc[u]).Some? ==>
                         Undisturbed(s, s', Waits(s.pc[u]).value) || WaiterOk(s', u, Waits(s.pc[u]).value)
    requires Waits(s'.pc[t]).Some? ==> WaiterOk(s', t, Waits(s'.pc[t]).value)
    requires Waits(s'.pc[t]) == Waits(s.pc[t]) || Waits(s'.pc[t]) == None || Waits(s'.pc[t]) == Some(s.nextSid)
    ensures WaitersInv(s')
  {
  }

  /** While a thread owns the lock nobody else is in the middle of Signal or Broadcast. */
  lemma OthersAreNotCritical(s: State, t: Tid)
    requires L.LockInv(s.lock, Phases(s.pc)) && t in s.pc && L.Critical(PhaseOf(s.pc[t]))
    ensures forall u :: u in s.pc && u != t ==> !L.Critical(PhaseOf(s.pc[u]))
  {
    OwnerIs(s, t);
    forall u | u in s.pc && u != t ensures !L.Critical(PhaseOf(s.pc[u])) { OwnerIs(s, u); }
  }

  /** Only the thread that owns the lock can be in Signal or Broadcast, so only its progress counts. */
  lemma CallersFrame(s: State, s': State, t: Tid)
    requires CallersInv(s) && t in s.pc && t in s'.pc && s'.pc == s.pc[t := s'.pc[t]]
    requires CallerOk(s', s'.pc[t])
    requires (s'.waitQueue == s.waitQueue && s'.log == s.log)
             || (L.LockInv(s.lock, Phases(s.pc)) && L.Critical(PhaseOf(s.pc[t])))
    ensures CallersInv(s')
  {
    if !(s'.waitQueue == s.waitQueue && s'.log == s.log) {
      OthersAreNotCritical(s, t);
    }
  }

  lemma LockStepShape(s: State, e: Event)
    requires L.LockInv(s.lock, Phases(s.pc)) && Enabled(s, e) && Safe(s, e)
    requires InLockCode(s, e) && !s.pc[e.t].Blocking?
    ensures var s' := Next(s, e);
      && s' == s.(lock := s'.lock, pc := s'.pc)
      && InFlight(s') == InFlight(s)
      && Waits(s'.pc[e.t]) == Waits(s.pc[e.t])
      && Pending(s'.pc[e.t]) == Pending(s.pc[e.t])
      && CallerOk(s', s'.pc[e.t])
      && !s.pc[e.t].Blocking?
  {
    OwnerIs(s, e.t);
  }

  lemma WaitersAfterLockStep(s: State, e: Event)
    requires Inv(s) && Enabled(s, e) && Safe(s, e) && InLockCode(s, e) && !s.pc[e.t].Blocking?
    ensures WaitersInv(Next(s, e)) && QueueInv(Next(s, e))
  {
    StepShape(s, e);
    LockStepShape(s, e);
    WaitersFrame(s, Next(s, e), e.t);
  }

  lemma WaitersAfterNew(s: State, e: Event)
    requires Inv(s) && Enabled(s, e) && s.pc[e.t].Inside? && e.act.Wait?
    ensures WaitersInv(Next(s, e)) && QueueInv(Next(s, e))
  {
    var s' := Next(s, e);
    OwnerIs(s, e.t);
    assert InFlight(s') == InFlight(s) == None;
    WaitersFrame(s, s', e.t);
  }

  lemma WaitersAfterEnqueue(s: State, e: Event)
    requires Inv(s) && Enabled(s, e) && s.pc[e.t].WaitNew?
    ensures WaitersInv(Next(s, e)) && QueueInv(Next(s, e))
  {
    var s' := Next(s, e);
    OwnerIs(s, e.t);
    assert InFlight(s') == InFlight(s) == None;
    DistinctPushBack(s.waitQueue, s.pc[e.t].w);
    WaitersFrame(s, s', e.t);
  }

  lemma WaitersAfterBlocking(s: State, e: Event)
    requires Inv(s) && Enabled(s, e) && Safe(s, e) && s.pc[e.t].Blocking?
    ensures WaitersInv(Next(s, e)) && QueueInv(Next(s, e))
  {
    var s' := Next(s, e);
    StepShape(s, e);
    OwnerIs(s, e.t);
    assert InFlight(s') == InFlight(s);
    assert s.sems[s.pc[e.t].w].queue == [];
    assert s'.sems[s.pc[e.t].w].woken == {};
    WaitersFrame(s, s', e.t);
  }

  lemma WaitersAfterDelete(s: State, e: Event)
    requires Inv(s) && Enabled(s, e) && Safe(s, e) && s.pc[e.t].WaitDelete?
    ensures WaitersInv(Next(s, e)) && QueueInv(Next(s, e))
  {
    var s' := Next(s, e);
    OwnerIs(s, e.t);
    assert InFlight(s') == InFlight(s) == None;
    WaitersFrame(s, s', e.t);
  }

  lemma WaitersAfterSignal(s: State, e: Event)
    requires Inv(s) && Enabled(s, e) && ((s.pc[e.t].Inside? && e.act.Signal?) || s.pc[e.t].Broadcasting?)
    ensures WaitersInv(Next(s, e)) && QueueInv(Next(s, e))
  {
    var s' := Next(s, e);
    OwnerIs(s, e.t);
    if s.waitQueue != [] {
      DistinctPopFront(s.waitQueue);
      assert InFlight(s') == Some(s.waitQueue[0]);
    } else {
      assert InFlight(s') == None;
    }
    WaitersFrame(s, s', e.t);
  }

  lemma WaitersAfterV(s: State, e: Event)
    requires Inv(s) && Enabled(s, e) && Safe(s, e) && s.pc[e.t].Signalling?
    ensures WaitersInv(Next(s, e)) && QueueInv(Next(s, e))
  {
    var s' := Next(s, e);
    OwnerIs(s, e.t);
    assert InFlight(s) == Some(s.pc[e.t].w);
    assert InFlight(s') == None;
    WaitersFrame(s, s', e.t);
  }

  lemma WaitersAfterReturn(s: State, e: Event)
    requires Inv(s) && Enabled(s, e) && (s.pc[e.t].Signalled? || (s.pc[e.t].Inside? && e.act.Broadcast?))
    ensures WaitersInv(Next(s, e)) && QueueInv(Next(s, e))
  {
    var s' := Next(s, e);
    OwnerIs(s, e.t);
    assert InFlight(s') == InFlight(s) == None;
    WaitersFrame(s, s', e.t);
  }

  lemma OwnCaller(s: State, e: Event)
    requires Enabled(s, e) && Safe(s, e) && CallerOk(s, s.pc[e.t])
    ensures var s' := Next(s, e);
      && e.t in s'.pc && CallerOk(s', s'.pc[e.t])
      && ((s'.waitQueue == s.waitQueue && s'.log == s.log) || L.Critical(PhaseOf(s.pc[e.t])))
  {
    if s.waitQueue != [] {
      assert s.waitQueue == [s.waitQueue[0]] + s.waitQueue[1..];
    }
  }

  lemma KeepsCallers(s: State, e: Event)
    requires L.LockInv(s.lock, Phases(s.pc)) && CallersInv(s) && Enabled(s, e) && Safe(s, e)
    ensures CallersInv(Next(s, e))
  {
    OwnCaller(s, e);
    StepShape(s, e);
    CallersFrame(s, Next(s, e), e.t);
  }

  /** Every step of every thread keeps the invariant. */
  lemma NextPreserves(s: State, e: Event)
    requires Inv(s) && Enabled(s, e)
    ensures Safe(s, e) && Inv(Next(s, e))
  {
    EnabledIsSafe(s, e);
    KeepsLock(s, e);
    KeepsCallers(s, e);
    match s.pc[e.t]
    case Inside =>
      if e.act.Wait? {
        WaitersAfterNew(s, e);
      } else if e.act.Signal? {
        WaitersAfterSignal(s, e);
      } else if e.act.Broadcast? {
        WaitersAfterReturn(s, e);
      } else {
        WaitersAfterLockStep(s, e);
      }
    case WaitNew(_) => WaitersAfterEnqueue(s, e);
    case Blocking(_) => WaitersAfterBlocking(s, e);
    case WaitDelete(_) => WaitersAfterDelete(s, e);
    case Broadcasting(_) =>
      WaitersAfterSignal(s, e);
    case Signalling(_, _) => WaitersAfterV(s, e);
    case Signalled(_, _) => WaitersAfterReturn(s, e);
    case _ => WaitersAfterLockStep(s, e);
  }

  // ---------- Every run ----------

  function Init(threads: set<Tid>): State {
    State(L.NewLock, map t | t in threads :: Outside, [], map[], 0, [])
  }

  lemma InitInv(threads: set<Tid>)
    ensures Inv(Init(threads))
  {
  }

  /** A run is a sequence of steps; a step that is not safe would end it. StepsAreSafe shows that
      none is ever lost that way. */
  ghost predicate Run(s: State, events: seq<Event>, s': State)
    decreases |events|
  {
    if events == [] then s' == s
    else Enabled(s, events[0]) && Safe(s, events[0]) && Run(Next(s, events[0]), events[1..], s')
  }

  ghost predicate Reachable(s: State) {
    exists threads, events :: Run(Init(threads), events, s)
  }

  lemma {:induction false} RunPreserves(s: State, events: seq<Event>, s': State)
    requires Inv(s) && Run(s, events, s')
    ensures Inv(s')
    decreases |events|
  {
    if events != [] {
      NextPreserves(s, events[0]);
      RunPreserves(Next(s, events[0]), events[1..], s');
    }
  }

  lemma ReachableInv(s: State)
    requires Reachable(s)
    ensures Inv(s)
  {
    var threads, events :| Run(Init(threads), events, s);
    InitInv(threads);
    RunPreserves(Init(threads), events, s);
  }

  /** No step of any run touches a deleted semaphore or fails an ASSERT of Release, Wait or Signal. */
  lemma StepsAreSafe(s: State, e: Event)
    requires Reachable(s) && Enabled(s, e)
    ensures Safe(s, e)
  {
    ReachableInv(s);
    EnabledIsSafe(s, e);
  }

  /** At most one thread is anywhere between the end of the lock's P and the start of its V, and the
      holder field names a thread exactly while that thread is between setting and clearing it. */
  lemma MonitorExclusion(s: State)
    requires Reachable(s)
    ensures s.lock.sem.value + |L.CriticalThreads(Phases(s.pc))| == 1
    ensures forall t :: t in s.pc ==> (PhaseOf(s.pc[t]).Held? <==> s.lock.holder == Some(t))
  {
    ReachableInv(s);
    L.MutualExclusion(s.lock, Phases(s.pc));
    forall t | t in s.pc ensures PhaseOf(s.pc[t]).Held? <==> s.lock.holder == Some(t) { OwnerIs(s, t); }
  }

  /** Thread code at p still refers to semaphore w, the last instructions of V included. */
  predicate Mentions(p: Pc, w: Sid) {
    Waits(p) == Some(w) || ((p.Signalling? || p.Signalled?) && p.w == w)
  }

  /** When a waiter deletes its private semaphore it is allocated, unused and off waitQueue, and no
      other thread refers to it any more: nobody is inside its P or V. */
  lemma DeleteIsLast(s: State, t: Tid)
    requires Reachable(s) && t in s.pc && s.pc[t].WaitDelete?
    ensures var w := s.pc[t].w;
      && w in s.sems && s.sems[w] == NewSem(0) && w !in s.waitQueue
      && (forall u :: u in s.pc && u != t ==> !Mentions(s.pc[u], w))
  {
    ReachableInv(s);
    OwnerIs(s, t);
    OthersAreNotCritical(s, t);
  }

  /** A signal sent once the waiter has enqueued is never lost, even if the waiter has not yet called
      P: as soon as the V is done the waiter's P goes through at its next dispatch, and before that a
      sleeping waiter is always still due a V. */
  lemma SignalIsNotLost(s: State, t: Tid)
    requires Reachable(s) && t in s.pc && s.pc[t].Blocking?
    ensures var w := s.pc[t].w;
      && w in s.sems
      && (!AwaitsV(s, w) ==>
            && Enabled(s, Event(t, Continue))
            && Next(s, Event(t, Continue)).pc[t] == Acquiring(InWait(w)))
      && (t in s.sems[w].queue ==> AwaitsV(s, w))
  {
    ReachableInv(s);
  }

  // ---------- Broadcast ----------

  /** Steps a thread inside Broadcast has still to make before it returns. */
  function StepsLeft(s: State, t: Tid): nat
    requires t in s.pc
  {
    match s.pc[t]
    case Broadcasting(_) => 3 * |s.waitQueue| + 1
    case Signalled(_, _) => 3 * |s.waitQueue| + 2
    case Signalling(_, _) => 3 * |s.waitQueue| + 3
    case _ => 0
  }

  function StepsBy(events: seq<Event>, t: Tid): nat {
    if events == [] then 0 else (if events[0].t == t then 1 else 0) + StepsBy(events[1..], t)
  }

  /** Thread t is inside the Broadcast that found `all` queued and `before` done, or has just
      returned from it. */
  ghost predicate InBroadcast(s: State, t: Tid, before: seq<Sid>, all: seq<Sid>) {
    && t in s.pc
    && match s.pc[t]
       case Broadcasting(c) => c == FromBroadcast(before, all)
       case Signalling(_, c) => c == FromBroadcast(before, all)
       case Signalled(_, c) => c == FromBroadcast(before, all)
       case Inside => s.log == before + all && s.waitQueue == []
       case _ => false
  }

  lemma BroadcastStep(s: State, e: Event, t: Tid, before: seq<Sid>, all: seq<Sid>)
    requires Inv(s) && Enabled(s, e) && Safe(s, e) && InBroadcast(s, t, before, all)
    requires e.t == t ==> e.act.Continue?
    ensures InBroadcast(Next(s, e), t, before, all)
    ensures StepsLeft(s, t) == StepsLeft(Next(s, e), t) + (if e.t == t then 1 else 0)
  {
    OwnCaller(s, e);
    StepShape(s, e);
    assert CallerOk(s, s.pc[t]);
    OthersAreNotCritical(s, t);
  }

  lemma {:induction false} BroadcastRun(s: State, events: seq<Event>, s': State, t: Tid, before: seq<Sid>, all: seq<Sid>)
    requires Inv(s) && Run(s, events, s') && InBroadcast(s, t, before, all)
    requires forall e :: e in events && e.t == t ==> e.act.Continue?
    ensures InBroadcast(s', t, before, all)
    ensures StepsLeft(s, t) == StepsLeft(s', t) + StepsBy(events, t)
    decreases |events|
  {
    if events != [] {
      NextPreserves(s, events[0]);
      BroadcastStep(s, events[0], t, before, all);
      BroadcastRun(Next(s, events[0]), events[1..], s', t, before, all);
    }
  }

  lemma BroadcastStart(s: State, t: Tid)
    requires Inv(s) && t in s.pc && s.pc[t].Inside?
    ensures var s' := Next(s, Event(t, Broadcast));
      Inv(s') && InBroadcast(s', t, s.log, s.waitQueue) && StepsLeft(s', t) == 3 * |s.waitQueue| + 1
  {
    assert Enabled(s, Event(t, Broadcast));
    NextPreserves(s, Event(t, Broadcast));
  }

  lemma BroadcastTotal(s: State, t: Tid, events: seq<Event>, s': State)
    requires Reachable(s) && t in s.pc && s.pc[t].Inside?
    requires Run(Next(s, Event(t, Broadcast)), events, s')
    requires forall e :: e in events && e.t == t ==> e.act.Continue?
    ensures InBroadcast(s', t, s.log, s.waitQueue)
    ensures 3 * |s.waitQueue| + 1 == StepsLeft(s', t) + StepsBy(events, t)
  {
    ReachableInv(s);
    BroadcastStart(s, t);
    BroadcastRun(Next(s, Event(t, Broadcast)), events, s', t, s.log, s.waitQueue);
  }

  /** However the other threads interleave, a Broadcast returns after exactly three steps per waiter
      plus one, and has then done V on exactly the waiters that were queued at the call, in queue
      order, and nothing else has been signalled meanwhile. */
  lemma BroadcastWakesExactlyTheWaiters(s: State, t: Tid, events: seq<Event>, s': State)
    requires Reachable(s) && t in s.pc && s.pc[t].Inside?
    requires Run(Next(s, Event(t, Broadcast)), events, s')
    requires forall e :: e in events && e.t == t ==> e.act.Continue?
    ensures t in s'.pc && StepsBy(events, t) <= 3 * |s.waitQueue| + 1
    ensures s'.pc[t].Inside? <==> StepsBy(events, t) == 3 * |s.waitQueue| + 1
    ensures s'.pc[t].Inside? ==> s'.log == s.log + s.waitQueue && s'.waitQueue == []
  {
    BroadcastTotal(s, t, events, s');
  }

  // ---------- What each step does ----------

  /** The order of a thread's steps: Acquire, Release and the parts of Wait, Signal and Broadcast follow each other as in
      the code; only a thread that finds the lock taken, or its private semaphore not signalled, stays where it is and is
      asleep then. */
  lemma StepsAreInOrder(s: State, e: Event)
    requires Enabled(s, e) && Safe(s, e)
    ensures var t, s' := e.t, Next(s, e); var p := s.pc[t];
      && t in s'.pc && s'.pc == s.pc[t := s'.pc[t]] && var p' := s'.pc[t];
      match p
      case Outside => p' == Acquiring(Client)
      case Acquiring(c) => if s.lock.sem.value > 0 then p' == Acquired(c) else p' == p && t in s'.lock.sem.queue
      case Acquired(c) => s'.lock.holder == Some(t) && p' == if c.Client? then Inside else WaitDelete(c.w)
      case Inside => (
        match e.act
        case Release => p' == Releasing(Client) && s'.lock.holder == None
        case Wait => p' == WaitNew(s.nextSid)
        case Signal => p' == if s.waitQueue == [] then Inside else Signalling(s.waitQueue[0], FromClient)
        case Broadcast => p' == Broadcasting(FromBroadcast(s.log, s.waitQueue))
        case _ => true)
      case WaitNew(w) => p' == WaitQueued(w)
      case WaitQueued(w) => p' == Releasing(InWait(w)) && s'.lock.holder == None
      case Releasing(c) => s'.lock.sem.value == s.lock.sem.value + 1 && p' == if c.Client? then Outside else Blocking(c.w)
      case Blocking(w) => if s.sems[w].value > 0 then p' == Acquiring(InWait(w)) else p' == p && w in s'.sems && t in s'.sems[w].queue
      case WaitDelete(_) => p' == Inside
      case Broadcasting(c) => p' == if s.waitQueue == [] then Inside else Signalling(s.waitQueue[0], c)
      case Signalling(w, c) => p' == Signalled(w, c)
      case Signalled(_, c) => p' == if c.FromClient? then Inside else Broadcasting(c)
  {
  }

  /** What steps do to the condition: a waiter puts its own, new semaphore at the end of the queue; a signaller takes
      the first one off and does one V on it; the waiter does P on it and deletes it; nothing else changes them. */
  lemma SharedChanges(s: State, e: Event)
    requires Enabled(s, e) && Safe(s, e)
    ensures var t, s' := e.t, Next(s, e); var p := s.pc[t];
      var waits, signals := p.Inside? && e.act.Wait?, (p.Inside? && e.act.Signal?) || p.Broadcasting?;
      && s'.waitQueue == (if p.WaitNew? then s.waitQueue + [p.w]
                          else if signals && s.waitQueue != [] then s.waitQueue[1..] else s.waitQueue)
      && s'.nextSid == s.nextSid + (if waits then 1 else 0)
      && s'.log == (if p.Signalling? then s.log + [p.w] else s.log)
      && (forall w :: w in s'.sems <==> (w in s.sems && !(p.WaitDelete? && p.w == w)) || (waits && w == s.nextSid))
      && (forall w :: w in s'.sems ==>
            s'.sems[w].value == if waits && w == s.nextSid then 0
                                else if p.Signalling? && p.w == w then s.sems[w].value + 1
                                else if p.Blocking? && p.w == w && s.sems[w].value > 0 then s.sems[w].value - 1
                                else s.sems[w].value)
  {
  }

  ghost predicate Increasing(queue: seq<Sid>) {
    forall i, j :: 0 <= i < j < |queue| ==> queue[i] < queue[j]
  }

  /** Semaphores are allocated and queued in the same order. */
  ghost predicate QueueOrdered(s: State) {
    && Increasing(s.waitQueue)
    && (forall t :: t in s.pc && s.pc[t].WaitNew? ==> AllBelow(s.waitQueue, s.pc[t].w))
  }

  ghost predicate AllBelow(queue: seq<Sid>, w: Sid) {
    forall q :: q in queue ==> q < w
  }

  /** While a thread owns the lock no other one has a new semaphore. */
  lemma NoOtherNew(s: State, t: Tid)
    requires L.LockInv(s.lock, Phases(s.pc)) && t in s.pc && L.Critical(PhaseOf(s.pc[t]))
    ensures forall u :: u in s.pc && u != t ==> !s.pc[u].WaitNew?
  {
    OthersAreNotCritical(s, t);
  }

  /** The queue after a step, if at most the stepping thread has a new semaphore afterwards. */
  lemma OrderedFrom(queue: seq<Sid>, queue': seq<Sid>, pc: map<Tid, Pc>, pc': map<Tid, Pc>, t: Tid)
    requires Increasing(queue) && t in pc && t in pc' && pc' == pc[t := pc'[t]]
    requires forall u :: u in pc && pc[u].WaitNew? ==> AllBelow(queue, pc[u].w)
    requires queue' == queue || (queue != [] && queue' == queue[1..]) || (pc[t].WaitNew? && queue' == queue + [pc[t].w])
    requires pc'[t].WaitNew? ==> AllBelow(queue, pc'[t].w) && queue' == queue
    requires queue' != queue ==> forall u :: u in pc && u != t ==> !pc[u].WaitNew?
    ensures Increasing(queue') && forall u :: u in pc' && pc'[u].WaitNew? ==> AllBelow(queue', pc'[u].w)
  {
    if pc[t].WaitNew? && queue' == queue + [pc[t].w] {
      assert AllBelow(queue, pc[t].w);
      forall i | 0 <= i < |queue| ensures queue[i] < pc[t].w {
        assert queue[i] in queue;
      }
    }
  }

  lemma OrderedNext(s: State, e: Event)
    requires Inv(s) && Enabled(s, e) && Safe(s, e) && QueueOrdered(s)
    ensures QueueOrdered(Next(s, e))
  {
    SharedChanges(s, e);
    StepsAreInOrder(s, e);
    if L.Critical(PhaseOf(s.pc[e.t])) {
      NoOtherNew(s, e.t);
    }
    OrderedFrom(s.waitQueue, Next(s, e).waitQueue, s.pc, Next(s, e).pc, e.t);
  }

  lemma {:induction false} RunOrdered(s: State, events: seq<Event>, s': State)
    requires Inv(s) && QueueOrdered(s) && Run(s, events, s')
    ensures QueueOrdered(s')
    decreases |events|
  {
    if events != [] {
      NextPreserves(s, events[0]);
      OrderedNext(s, events[0]);
      RunOrdered(Next(s, events[0]), events[1..], s');
    }
  }

  /** So Signal wakes the thread that has waited longest: private semaphores are numbered in the order of the calls of
      Wait, and the queue is in that order. */
  lemma LongestWaiterFirst(s: State)
    requires Reachable(s)
    ensures forall i, j :: 0 <= i < j < |s.waitQueue| ==> s.waitQueue[i] < s.waitQueue[j]
  {
    var threads, events :| Run(Init(threads), events, s);
    InitInv(threads);
    RunOrdered(Init(threads), events, s);
  }

  // ---------- The source's object ----------

  /** The holder field of a lock. */
  class Lock {
    var lockHolder: Option<Tid>

    predicate IsHeldBy(t: Tid)
      reads this
    {
      lockHolder == Some(t)
    }
  }

  /** The thread that a V on the semaphore makes ready. */
  function FirstOf(queue: seq<Tid>): Option<Tid> {
    if queue == [] then None else Some(queue[0])
  }

  /** Signal and Broadcast as thread `current` executes them. `ready` is what the scheduler gets. */
  class Condition {
    var waitQueue: seq<Semaphore>

    ghost predicate Valid()
      reads this, waitQueue
    {
      Distinct(waitQueue) && forall w :: w in waitQueue ==> w.Valid()
    }

    method Signal(conditionLock: Lock, current: Tid) returns (ready: Option<Tid>)
      requires Valid() && conditionLock.IsHeldBy(current)
      modifies this, waitQueue
      ensures Valid()
      ensures if old(waitQueue) == [] then waitQueue == [] && ready == None else
                && waitQueue == old(waitQueue)[1..]
                && ready == FirstOf(old(waitQueue[0].queue))
                && old(waitQueue[0]).Valid() && old(waitQueue[0].value) >= 0
                && old(waitQueue[0]).Model() == VSegment(old(waitQueue[0].Model()))
                && forall w :: w in waitQueue ==> unchanged(w)
    {
      ready := None;
      if waitQueue != [] {
        DistinctPopFront(waitQueue);
        var waiter := waitQueue[0];
        waitQueue := waitQueue[1..];
        ready := waiter.V();
      }
    }

    /** Every waiter gets exactly one V, in the order in which they came. Only Signal asserts that the
        lock is held, so without waiters Broadcast asserts nothing. */
    method Broadcast(conditionLock: Lock, current: Tid) returns (ready: seq<Option<Tid>>)
      requires Valid() && (waitQueue != [] ==> conditionLock.IsHeldBy(current))
      modifies this, waitQueue
      ensures waitQueue == []
      ensures |ready| == |old(waitQueue)| && forall i :: 0 <= i < |ready| ==> ready[i] == FirstOf(old(waitQueue[i].queue))
      ensures forall w :: w in old(waitQueue) ==> w.Valid() && old(w.value) >= 0 && w.Model() == VSegment(old(w.Model()))
    {
      ghost var all := waitQueue;
      ready := [];
      while waitQueue != []
        invariant |ready| <= |all| && waitQueue == all[|ready|..] && Valid()
        invariant forall i :: 0 <= i < |ready| ==> ready[i] == FirstOf(old(all[i].queue))
        invariant forall i :: 0 <= i < |ready| ==>
                    all[i].Valid() && old(all[i].value) >= 0 && all[i].Model() == VSegment(old(all[i].Model()))
        invariant forall w :: w in waitQueue ==> old(w.value) == w.value && old(w.queue) == w.queue && old(w.woken) == w.woken
        decreases |waitQueue|
      {
        assert waitQueue[0] == all[|ready|];
        var next := Signal(conditionLock, current);
        ready := ready + [next];
      }
    }
  }
}
