/** The synchronized list (code/threads/synchlist.cc): a monitor that any number of threads use to
    append and remove items. It is a client of the step system in module Monitor. */
module SynchLists {
  import opened Base
  import opened Semaphores
  import L = Locks
  import M = Monitor

  type Item = int

  /** Where a thread is in the list's code. `Fetch` covers RemoveFront up to and including its loop
      test; `w` is the private semaphore of the Wait it last called, if any. */
  datatype Op =
    | NoOp
    | Append(x: Item)             // Append: lock not yet acquired, or item not yet on the list
    | Appended                    // Append: item on the list, Signal not called
    | Notifying                   // Append: Signal called
    | Fetch(w: Option<M.Sid>)     // RemoveFront: at or before the loop test, or in Wait
    | Take                        // RemoveFront: the loop test has found an item
    | Leaving(result: Option<Item>)  // about to release or releasing; RemoveFront has the item it returns

  /** `appended` and `removed` are the histories of the list. Two more fields are auxiliary:
      `notified` holds the private semaphores Signal has dequeued and whose waiters have not tested
      the list again, and `waiter` the thread that allocated each private semaphore. */
  datatype State = State(m: M.State, op: map<Tid, Op>, list: seq<Item>, appended: seq<Item>,
                         removed: seq<Item>, notified: set<M.Sid>, waiter: map<M.Sid, Tid>)

  /** A thread outside starts a call, or a thread inside one goes on. */
  datatype Action = CallAppend(x: Item) | CallRemoveFront | Continue
  datatype Event = Event(t: Tid, act: Action)

  /** The list's own code runs while the thread is inside the monitor; elsewhere the monitor's does. */
  predicate InListCode(s: State, t: Tid)
    requires t in s.m.pc && t in s.op
  {
    s.m.pc[t].Inside? && (s.op[t].Append? || (s.op[t].Fetch? && s.list != []) || s.op[t].Take?)
  }

  /** What the thread asks of the monitor. */
  function MonitorAction(s: State, t: Tid): M.Action
    requires t in s.m.pc && t in s.op
  {
    if s.m.pc[t].Outside? then M.Acquire
    else if !s.m.pc[t].Inside? then M.Continue
    else match s.op[t]
         case Appended => M.Signal
         case Fetch(_) => M.Wait
         case _ => M.Release
  }

  /** List::Append demands that the item is not on the list already, which is up to the callers:
      nobody may append an item that is on the list or that another call is about to put there. */
  ghost predicate Enabled(s: State, e: Event) {
    && e.t in s.m.pc && e.t in s.op
    && (e.act.CallAppend? ==> e.act.x !in s.list && forall u :: u in s.op ==> s.op[u] != Append(e.act.x))
    && (e.act.Continue? <==> !s.m.pc[e.t].Outside?)
    && (InListCode(s, e.t) || M.Enabled(s.m, M.Event(e.t, MonitorAction(s, e.t))))
  }

  ghost predicate Safe(s: State, e: Event)
    requires e.t in s.m.pc && e.t in s.op
  {
    && (!InListCode(s, e.t) ==> M.Safe(s.m, M.Event(e.t, MonitorAction(s, e.t))))
    && (InListCode(s, e.t) && s.op[e.t].Take? ==> s.list != [])
    && (InListCode(s, e.t) && s.op[e.t].Append? ==> s.op[e.t].x !in s.list)
  }

  /** The operation after a step of the monitor's code. */
  function OpAfter(s: State, e: Event): Op
    requires e.t in s.m.pc && e.t in s.op
  {
    if s.m.pc[e.t].Outside? then (if e.act.CallAppend? then Append(e.act.x) else Fetch(None))
    else if s.m.pc[e.t].Inside? then
      match s.op[e.t]
      case Appended => Notifying
      case Fetch(_) => Fetch(Some(s.m.nextSid))
      case Leaving(x) => Leaving(x)
      case _ => Leaving(None)
    else if s.m.pc[e.t].Releasing? && s.m.pc[e.t].cause.Client? then NoOp
    else s.op[e.t]
  }

  /** The thread's notification is used up once it tests the list again. */
  function Rechecked(s: State, t: Tid): set<M.Sid>
    requires t in s.op
  {
    if s.op[t].Fetch? && s.op[t].w.Some? then s.notified - {s.op[t].w.value} else s.notified
  }

  function Next(s: State, e: Event): State
    requires e.t in s.m.pc && e.t in s.op && Safe(s, e)
  {
    var t := e.t;
    if InListCode(s, t) then
      match s.op[t]
      case Append(x) => s.(list := s.list + [x], appended := s.appended + [x], op := s.op[t := Appended])
      case Fetch(_) => s.(op := s.op[t := Take], notified := Rechecked(s, t))
      case _ => s.(list := s.list[1..], removed := s.removed + [s.list[0]], op := s.op[t := Leaving(Some(s.list[0]))])
    else
      var m' := M.Next(s.m, M.Event(t, MonitorAction(s, t)));
      s.(m := m', op := s.op[t := OpAfter(s, e)],
         notified := if s.m.pc[t].Inside? && s.op[t].Appended? && s.m.waitQueue != [] then s.notified + {s.m.waitQueue[0]}
                     else if s.m.pc[t].Inside? then Rechecked(s, t)
                     else s.notified,
         waiter := if s.m.pc[t].Inside? && s.op[t].Fetch? then s.waiter[s.m.nextSid := t] else s.waiter)
  }

  // ---------- The invariant ----------

  /** How the list's code and the monitor's fit together for one thread. */
  ghost predicate OpOk(s: State, t: Tid)
    requires t in s.m.pc && t in s.op
  {
    match s.m.pc[t]
    case Outside => s.op[t].NoOp?
    case Acquiring(c) => if c.Client? then s.op[t].Append? || s.op[t] == Fetch(None) else s.op[t] == Fetch(Some(c.w))
    case Acquired(c) => if c.Client? then s.op[t].Append? || s.op[t] == Fetch(None) else s.op[t] == Fetch(Some(c.w))
    case Inside =>
      && !s.op[t].NoOp?
      && (s.op[t].Take? ==> s.list != [])
      && (s.op[t].Fetch? && s.op[t].w.Some? ==> s.op[t].w.value !in s.m.waitQueue)
    case WaitNew(w) => s.op[t] == Fetch(Some(w)) && s.list == []
    case WaitQueued(w) => s.op[t] == Fetch(Some(w))
    case Releasing(c) => if c.Client? then s.op[t].Leaving? else s.op[t] == Fetch(Some(c.w))
    case Blocking(w) => s.op[t] == Fetch(Some(w))
    case WaitDelete(w) => s.op[t] == Fetch(Some(w))
    case Signalling(_, c) => s.op[t].Notifying? && c.FromClient?
    case Signalled(_, c) => s.op[t].Notifying? && c.FromClient?
    case Broadcasting(_) => false
  }

  ghost predicate OpsInv(s: State) {
    && s.op.Keys == s.m.pc.Keys
    && (forall t :: t in s.op ==> OpOk(s, t))
  }

  /** No two items on the list or about to be put on it are the same. */
  ghost predicate ItemsInv(s: State) {
    && Distinct(s.list)
    && (forall t :: t in s.op && s.op[t].Append? ==> s.op[t].x !in s.list)
    && (forall t, u :: t in s.op && u in s.op && t != u && s.op[t].Append? ==> s.op[t] != s.op[u])
  }

  /** `notified` and `waiter` mean what they should. */
  ghost predicate NotifiedInv(s: State) {
    && (forall t :: t in s.op && s.op[t].Fetch? && s.op[t].w.Some? ==> FetchOk(s, t, s.op[t].w.value))
    && (forall w :: w in s.notified ==> WaiterKnown(s, w))
    && (forall w :: w in s.m.waitQueue ==> WaiterKnown(s, w))
    && (forall w :: w in s.waiter ==> w < s.m.nextSid)
  }

  ghost predicate FetchOk(s: State, t: Tid, w: M.Sid)
    requires t in s.op
  {
    && w in s.waiter && s.waiter[w] == t && t in s.m.pc
    && (w in s.notified <==> w !in s.m.waitQueue && s.m.pc[t] != M.WaitNew(w))
  }

  ghost predicate WaiterKnown(s: State, w: M.Sid) {
    w in s.waiter && s.waiter[w] in s.op && s.op[s.waiter[w]] == Fetch(Some(w))
  }

  /** The lock's owner has put an item on the list and not called Signal for it yet, or has found an
      item and not taken it off yet. */
  ghost predicate Unsettled(s: State) {
    && s.m.lock.owner.Some? && s.m.lock.owner.value in s.op
    && (s.op[s.m.lock.owner.value].Appended? || s.op[s.m.lock.owner.value].Take?)
  }

  /** While threads wait on the condition, every item has a notified thread coming for it, except one
      that the lock's owner is just dealing with. */
  ghost predicate NobodyStranded(s: State) {
    s.m.waitQueue != [] ==> |s.list| <= |s.notified| + (if Unsettled(s) then 1 else 0)
  }

  ghost predicate Inv(s: State) {
    && M.Inv(s.m)
    && OpsInv(s)
    && ItemsInv(s)
    && NotifiedInv(s)
    && NobodyStranded(s)
    && s.appended == s.removed + s.list
  }

  // ---------- Every step keeps it ----------

  lemma EnabledIsSafe(s: State, e: Event)
    requires Inv(s) && Enabled(s, e)
    ensures Safe(s, e)
  {
    if !InListCode(s, e.t) {
      M.EnabledIsSafe(s.m, M.Event(e.t, MonitorAction(s, e.t)));
    }
  }

  /** What the list's code relies on: while t owns the lock no other thread is in the region it protects. */
  ghost predicate Alone(s: State, t: Tid) {
    && s.m.lock.owner == Some(t)
    && (forall u :: u in s.m.pc && u != t ==> !L.Critical(M.PhaseOf(s.m.pc[u])))
  }

  lemma OwnerIsAlone(s: State, t: Tid)
    requires M.Inv(s.m) && t in s.m.pc && L.Critical(M.PhaseOf(s.m.pc[t]))
    ensures Alone(s, t)
  {
    M.OwnerIs(s.m, t);
    M.OthersAreNotCritical(s.m, t);
  }

  lemma OpsAfterListStep(s: State, e: Event)
    requires OpsInv(s) && Enabled(s, e) && Safe(s, e) && InListCode(s, e.t) && Alone(s, e.t)
    ensures OpsInv(Next(s, e))
  {
  }

  lemma NotifiedAfterListStep(s: State, e: Event)
    requires OpsInv(s) && NotifiedInv(s) && Enabled(s, e) && Safe(s, e) && InListCode(s, e.t)
    ensures NotifiedInv(Next(s, e))
  {
  }

  lemma CountAfterListStep(s: State, e: Event)
    requires NotifiedInv(s) && NobodyStranded(s) && Enabled(s, e) && Safe(s, e) && InListCode(s, e.t) && Alone(s, e.t)
    ensures NobodyStranded(Next(s, e))
  {
    RecheckedCount(s, e.t);
    var s' := Next(s, e);
    assert s'.m == s.m;
    if s.op[e.t].Append? {
      assert Unsettled(s') && |s'.list| == |s.list| + 1 && !Unsettled(s);
    } else if s.op[e.t].Fetch? {
      assert Unsettled(s') && !Unsettled(s);
    }
  }

  lemma RecheckedCount(s: State, t: Tid)
    requires t in s.op
    ensures |Rechecked(s, t)| >= |s.notified| - 1
  {
  }

  lemma HistoryAfterListStep(s: State, e: Event)
    requires e.t in s.m.pc && e.t in s.op && Safe(s, e) && InListCode(s, e.t)
    requires s.appended == s.removed + s.list
    ensures Next(s, e).appended == Next(s, e).removed + Next(s, e).list
    ensures Next(s, e).m == s.m
  {
  }

  lemma ItemsAfterStep(s: State, e: Event)
    requires ItemsInv(s) && Enabled(s, e) && Safe(s, e)
    ensures ItemsInv(Next(s, e))
  {
    var s' := Next(s, e);
    if InListCode(s, e.t) {
      if s.op[e.t].Append? {
        DistinctPushBack(s.list, s.op[e.t].x);
      } else if s.op[e.t].Take? {
        DistinctPopFront(s.list);
      }
    } else {
      assert s'.list == s.list && s'.op == s.op[e.t := OpAfter(s, e)];
    }
  }

  lemma ListStepPreserves(s: State, e: Event)
    requires Inv(s) && Enabled(s, e) && Safe(s, e) && InListCode(s, e.t)
    ensures Inv(Next(s, e))
  {
    OwnerIsAlone(s, e.t);
    OpsAfterListStep(s, e);
    NotifiedAfterListStep(s, e);
    CountAfterListStep(s, e);
    HistoryAfterListStep(s, e);
    ItemsAfterStep(s, e);
  }

  /** What a step of the monitor's code by thread t does, in the list's terms. */
  lemma MonitorStepShape(s: State, e: Event)
    requires Enabled(s, e) && Safe(s, e) && !InListCode(s, e.t) && OpOk(s, e.t)
    ensures var s', p := Next(s, e), s.m.pc[e.t];
      && s' == s.(m := s'.m, op := s.op[e.t := OpAfter(s, e)], notified := s'.notified, waiter := s'.waiter)
      && e.t in s'.m.pc && s'.m.pc == s.m.pc[e.t := s'.m.pc[e.t]]
      && s'.m.nextSid == s.m.nextSid + (if p.Inside? && s.op[e.t].Fetch? then 1 else 0)
      && s'.m.waitQueue == (if p.WaitNew? then s.m.waitQueue + [p.w]
                            else if p.Inside? && s.op[e.t].Appended? && s.m.waitQueue != [] then s.m.waitQueue[1..]
                            else s.m.waitQueue)
  {
    M.StepShape(s.m, M.Event(e.t, MonitorAction(s, e.t)));
  }

  lemma OwnOpAfterMonitorStep(s: State, e: Event)
    requires Enabled(s, e) && Safe(s, e) && !InListCode(s, e.t) && OpOk(s, e.t)
    requires s.m.pc[e.t].WaitDelete? ==> s.m.pc[e.t].w !in s.m.waitQueue
    ensures e.t in Next(s, e).op && e.t in Next(s, e).m.pc && OpOk(Next(s, e), e.t)
  {
  }

  lemma MonitorInvAfterMonitorStep(s: State, e: Event)
    requires M.Inv(s.m) && Enabled(s, e) && !InListCode(s, e.t) && Safe(s, e)
    ensures M.Inv(Next(s, e).m)
    ensures s.m.pc[e.t].WaitDelete? ==> s.m.pc[e.t].w !in s.m.waitQueue
    ensures L.Critical(M.PhaseOf(s.m.pc[e.t])) ==> Alone(s, e.t)
  {
    M.NextPreserves(s.m, M.Event(e.t, MonitorAction(s, e.t)));
    if L.Critical(M.PhaseOf(s.m.pc[e.t])) {
      OwnerIsAlone(s, e.t);
    }
  }

  lemma OpsAfterMonitorStep(s: State, e: Event)
    requires OpsInv(s) && Enabled(s, e) && Safe(s, e) && !InListCode(s, e.t)
    requires s.m.pc[e.t].WaitDelete? ==> s.m.pc[e.t].w !in s.m.waitQueue
    requires L.Critical(M.PhaseOf(s.m.pc[e.t])) ==> Alone(s, e.t)
    ensures OpsInv(Next(s, e))
  {
    MonitorStepShape(s, e);
    OwnOpAfterMonitorStep(s, e);
    var s' := Next(s, e);
    forall u | u in s'.op && u != e.t ensures OpOk(s', u) {
      assert OpOk(s, u);
    }
  }

  lemma NotifiedAfterSignal(s: State, e: Event)
    requires NotifiedInv(s) && Distinct(s.m.waitQueue) && Enabled(s, e) && Safe(s, e) && Alone(s, e.t) && OpOk(s, e.t)
    requires s.m.pc[e.t].Inside? && s.op[e.t].Appended?
    ensures NotifiedInv(Next(s, e))
  {
    MonitorStepShape(s, e);
    if s.m.waitQueue != [] {
      DistinctPopFront(s.m.waitQueue);
      assert WaiterKnown(s, s.m.waitQueue[0]);
    }
  }

  lemma NotifiedAfterWait(s: State, e: Event)
    requires NotifiedInv(s) && Enabled(s, e) && Safe(s, e) && OpOk(s, e.t)
    requires s.m.pc[e.t].Inside? && s.op[e.t].Fetch? && !InListCode(s, e.t)
    ensures NotifiedInv(Next(s, e))
  {
    MonitorStepShape(s, e);
  }

  lemma NotifiedAfterEnqueue(s: State, e: Event)
    requires NotifiedInv(s) && Enabled(s, e) && Safe(s, e) && OpOk(s, e.t)
    requires s.m.pc[e.t].WaitNew?
    ensures NotifiedInv(Next(s, e))
  {
    MonitorStepShape(s, e);
    assert FetchOk(s, e.t, s.m.pc[e.t].w);
  }

  lemma NotifiedAfterOther(s: State, e: Event)
    requires NotifiedInv(s) && Enabled(s, e) && Safe(s, e) && OpOk(s, e.t) && !InListCode(s, e.t)
    requires !s.m.pc[e.t].WaitNew? && (s.m.pc[e.t].Inside? ==> !s.op[e.t].Fetch? && !s.op[e.t].Appended?)
    ensures NotifiedInv(Next(s, e))
  {
    MonitorStepShape(s, e);
    var s' := Next(s, e);
    assert s'.notified == s.notified && s'.waiter == s.waiter && s'.m.waitQueue == s.m.waitQueue;
    assert !s'.m.pc[e.t].WaitNew?;
  }

  /** Outside Signal and the list's own code, a step does not change what the lock's owner is at. */
  lemma UnsettledAfterOther(s: State, e: Event)
    requires L.LockInv(s.m.lock, M.Phases(s.m.pc)) && Enabled(s, e) && OpOk(s, e.t)
    requires Safe(s, e) && !InListCode(s, e.t) && !(s.m.pc[e.t].Inside? && s.op[e.t].Appended?)
    ensures Unsettled(Next(s, e)) <==> Unsettled(s)
  {
    M.OwnerIs(s.m, e.t);
    M.StepShape(s.m, M.Event(e.t, MonitorAction(s, e.t)));
    var l, l' := s.m.lock, Next(s, e).m.lock;
    assert l'.owner == l.owner
           || (l.owner.None? && l'.owner == Some(e.t)) || (l.owner == Some(e.t) && l'.owner.None?);
    assert !OpAfter(s, e).Appended? && !OpAfter(s, e).Take?;
  }

  lemma CountAfterSignal(s: State, e: Event)
    requires OpsInv(s) && NotifiedInv(s) && NobodyStranded(s) && Alone(s, e.t)
    requires Enabled(s, e) && Safe(s, e) && s.m.pc[e.t].Inside? && s.op[e.t].Appended?
    ensures NobodyStranded(Next(s, e))
  {
    MonitorStepShape(s, e);
    if s.m.waitQueue != [] {
      var w := s.m.waitQueue[0];
      assert WaiterKnown(s, w) && FetchOk(s, s.waiter[w], w);
      assert |s.notified + {w}| == |s.notified| + 1;
    }
  }

  lemma CountAfterOther(s: State, e: Event)
    requires L.LockInv(s.m.lock, M.Phases(s.m.pc)) && NobodyStranded(s) && Enabled(s, e) && OpOk(s, e.t)
    requires Safe(s, e) && !InListCode(s, e.t) && !(s.m.pc[e.t].Inside? && s.op[e.t].Appended?)
    ensures NobodyStranded(Next(s, e))
  {
    MonitorStepShape(s, e);
    UnsettledAfterOther(s, e);
  }

  lemma MonitorStepPreserves(s: State, e: Event)
    requires Inv(s) && Enabled(s, e) && Safe(s, e) && !InListCode(s, e.t)
    ensures Inv(Next(s, e))
  {
    MonitorInvAfterMonitorStep(s, e);
    OpsAfterMonitorStep(s, e);
    ItemsAfterStep(s, e);
    assert OpOk(s, e.t);
    MonitorStepShape(s, e);
    if s.m.pc[e.t].Inside? && s.op[e.t].Appended? {
      NotifiedAfterSignal(s, e);
      CountAfterSignal(s, e);
    } else {
      CountAfterOther(s, e);
      if s.m.pc[e.t].Inside? && s.op[e.t].Fetch? {
        NotifiedAfterWait(s, e);
      } else if s.m.pc[e.t].WaitNew? {
        NotifiedAfterEnqueue(s, e);
      } else {
        NotifiedAfterOther(s, e);
      }
    }
  }

  /** Every step of every thread keeps the invariant. */
  lemma NextPreserves(s: State, e: Event)
    requires Inv(s) && Enabled(s, e)
    ensures Safe(s, e) && Inv(Next(s, e))
  {
    EnabledIsSafe(s, e);
    if InListCode(s, e.t) {
      ListStepPreserves(s, e);
    } else {
      MonitorStepPreserves(s, e);
    }
  }

  // ---------- Every run ----------

  function Init(threads: set<Tid>): State {
    State(M.Init(threads), map t | t in threads :: NoOp, [], [], [], {}, map[])
  }

  lemma InitInv(threads: set<Tid>)
    ensures Inv(Init(threads))
  {
    M.InitInv(threads);
  }

  ghost predicate Run(s: State, events: seq<Event>, s': State)
    decreases |events|
  {
    if events == [] then s' == s
    else Enabled(s, events[0]) && Safe(s, events[0]) && Run(Next(s, events[0]), events[1..], s')
  }

  ghost predicate Reachable(s: State) {
    exists threads, events :: Run(Init(threads), events, s)
  }

  lemma {:induction false} RunPreserves(s: State, events: seq<Event>, s': State)
    requires Inv(s) && Run(s, events, s')
    ensures Inv(s')
    decreases |events|
  {
    if events != [] {
      NextPreserves(s, events[0]);
      RunPreserves(Next(s, events[0]), events[1..], s');
    }
  }

  lemma ReachableInv(s: State)
    requires Reachable(s)
    ensures Inv(s)
  {
    var threads, events :| Run(Init(threads), events, s);
    InitInv(threads);
    RunPreserves(Init(threads), events, s);
  }

  /** No run takes from an empty list, puts an item on it twice, touches a deleted semaphore or fails
      an ASSERT of the lock or the condition. */
  lemma StepsAreSafe(s: State, e: Event)
    requires Reachable(s) && Enabled(s, e)
    ensures Safe(s, e)
  {
    ReachableInv(s);
    EnabledIsSafe(s, e);
  }

  /** The items appended are the items removed followed by the list: first in, first out, nothing
      lost and nothing twice. */
  lemma FirstInFirstOut(s: State)
    requires Reachable(s)
    ensures s.appended == s.removed + s.list
  {
    ReachableInv(s);
  }

  /** The threads that were signalled and have not tested the list again. */
  ghost function SignalledThreads(s: State): set<Tid> {
    set t | t in s.op && t in s.m.pc && s.op[t].Fetch? && s.op[t].w.Some?
            && s.op[t].w.value !in s.m.waitQueue && s.m.pc[t] != M.WaitNew(s.op[t].w.value)
  }

  /** `notified` has one element for each signalled thread. */
  lemma {:induction false} NotifiedCount(s: State, ws: set<M.Sid>, ts: set<Tid>)
    requires NotifiedInv(s)
    requires forall w :: w in ws ==> WaiterKnown(s, w) && s.waiter[w] in ts
    requires forall t :: t in ts ==> t in s.op && s.op[t].Fetch? && s.op[t].w.Some? && s.op[t].w.value in ws
    ensures |ws| == |ts|
    decreases |ws|
  {
    if ws == {} {
      assert ts == {};
    } else {
      var w :| w in ws;
      var t := s.waiter[w];
      forall u | u in ts && u != t ensures s.op[u].w.value != w {
        assert FetchOk(s, u, s.op[u].w.value);
      }
      forall v | v in ws - {w} ensures s.waiter[v] != t {
        assert WaiterKnown(s, v) && WaiterKnown(s, w);
      }
      NotifiedCount(s, ws - {w}, ts - {t});
    }
  }

  /** Whenever threads wait on the condition and the lock's owner, if any, is not between putting an
      item on the list and signalling it nor between finding and taking one, the list is no longer
      than the number of signalled threads that have not tested it again. */
  lemma NoItemIsStranded(s: State)
    requires Reachable(s) && s.m.waitQueue != [] && !Unsettled(s)
    ensures |s.list| <= |SignalledThreads(s)|
  {
    ReachableInv(s);
    forall w | w in s.notified ensures s.waiter[w] in SignalledThreads(s) {
      assert WaiterKnown(s, w) && FetchOk(s, s.waiter[w], w);
    }
    forall t | t in SignalledThreads(s) ensures s.op[t].w.value in s.notified {
      assert FetchOk(s, t, s.op[t].w.value);
    }
    NotifiedCount(s, s.notified, SignalledThreads(s));
  }

  /** Nobody inside a call can go on. */
  ghost predicate Stuck(s: State) {
    forall t :: t in s.m.pc && !s.m.pc[t].Outside? ==> !Enabled(s, Event(t, Continue))
  }

  /** A thread asleep on its private semaphore in RemoveFront. */
  ghost predicate WaitsForItem(s: State, t: Tid)
    requires t in s.m.pc
  {
    && s.m.pc[t].Blocking? && s.m.pc[t].w in s.m.waitQueue
    && s.m.pc[t].w in s.m.sems && s.m.sems[s.m.pc[t].w].queue == [t]
  }

  lemma CriticalCanContinue(s: State, t: Tid)
    requires Inv(s) && t in s.m.pc && L.Critical(M.PhaseOf(s.m.pc[t]))
    ensures Enabled(s, Event(t, Continue))
  {
    assert OpOk(s, t);
  }

  lemma FreeLockIsTaken(s: State, t: Tid)
    requires Inv(s) && s.m.lock.owner.None? && t in s.m.pc && s.m.pc[t].Acquiring?
    ensures !Stuck(s)
  {
    var phases := M.Phases(s.m.pc);
    assert phases[t] == M.PhaseOf(s.m.pc[t]);
    var u := L.FreeLockIsTaken(s.m.lock, phases, t);
    assert phases[u] == M.PhaseOf(s.m.pc[u]);
    assert Enabled(s, Event(u, Continue));
  }

  lemma StuckMeansLockFree(s: State)
    requires Inv(s) && Stuck(s)
    ensures s.m.lock.owner.None?
    ensures forall t :: t in s.m.pc ==> s.m.pc[t].Outside? || s.m.pc[t].Blocking?
  {
    var phases := M.Phases(s.m.pc);
    if s.m.lock.owner.Some? {
      var t := s.m.lock.owner.value;
      assert t in phases && phases[t] == M.PhaseOf(s.m.pc[t]);
      CriticalCanContinue(s, t);
    }
    forall t | t in s.m.pc ensures s.m.pc[t].Outside? || s.m.pc[t].Blocking? {
      assert phases[t] == M.PhaseOf(s.m.pc[t]);
      if s.m.pc[t].Acquiring? {
        FreeLockIsTaken(s, t);
        assert false;
      }
    }
  }

  lemma StuckMeansAsleep(s: State)
    requires Inv(s) && Stuck(s)
    ensures forall t :: t in s.m.pc ==> s.m.pc[t].Outside? || WaitsForItem(s, t)
  {
    StuckMeansLockFree(s);
    assert M.InFlight(s.m) == None;
    forall t | t in s.m.pc && !s.m.pc[t].Outside? ensures WaitsForItem(s, t) {
      assert !Enabled(s, Event(t, Continue));
      assert M.WaiterOk(s.m, t, s.m.pc[t].w);
    }
  }

  lemma AsleepMeansUnnotified(s: State)
    requires OpsInv(s) && NotifiedInv(s)
    requires forall t :: t in s.m.pc ==> s.m.pc[t].Outside? || WaitsForItem(s, t)
    ensures s.notified == {}
  {
  }

  /** If nobody inside a call can go on, every unfinished call is a RemoveFront asleep in Wait, the
      lock is free, and the list is empty if there is such a call: the monitor never deadlocks and
      never leaves an item next to a sleeping consumer. */
  lemma StuckOnlyWhenEmpty(s: State)
    requires Reachable(s) && Stuck(s)
    ensures s.m.lock.sem.value == 1
    ensures forall t :: t in s.m.pc ==> s.m.pc[t].Outside? || WaitsForItem(s, t)
    ensures (exists t :: t in s.m.pc && !s.m.pc[t].Outside?) ==> s.list == []
  {
    ReachableInv(s);
    StuckMeansLockFree(s);
    StuckMeansAsleep(s);
    AsleepMeansUnnotified(s);
  }

  // ---------- What calls do ----------

  /** The list changes in two kinds of step only: a thread inside Append puts its own item at the end, and a thread
      inside RemoveFront takes the first item, to return it. */
  lemma ListChanges(s: State, e: Event)
    requires Inv(s) && Enabled(s, e) && Safe(s, e)
    ensures var t, s' := e.t, Next(s, e);
      && t in s'.op && s'.op == s.op[t := s'.op[t]]
      && (if s.op[t].Append? && s'.op[t] != s.op[t] then
            s'.op[t] == Appended && s'.list == s.list + [s.op[t].x] && s'.appended == s.appended + [s.op[t].x] && s'.removed == s.removed
          else if s.op[t].Take? then
            && s.list != [] && s'.op[t] == Leaving(Some(s.list[0])) && s.list == [s.list[0]] + s'.list
            && s'.removed == s.removed + [s.list[0]] && s'.appended == s.appended
          else s'.list == s.list && s'.appended == s.appended && s'.removed == s.removed)
  {
    assert OpOk(s, e.t);
    if !InListCode(s, e.t) {
      MonitorStepShape(s, e);
    }
  }

  /** The stages of the two calls. */
  function Stage(op: Op): nat {
    match op
    case NoOp => 0
    case Append(_) => 1
    case Appended => 2
    case Notifying => 3
    case Fetch(_) => 1
    case Take => 2
    case Leaving(_) => 4
  }

  lemma ListStepsAdvance(s: State, e: Event)
    requires Enabled(s, e) && Safe(s, e) && InListCode(s, e.t)
    ensures e.t in Next(s, e).m.pc && e.t in Next(s, e).op && Stage(Next(s, e).op[e.t]) > Stage(s.op[e.t])
  {
  }

  lemma MonitorStepsAdvance(s: State, e: Event)
    requires Enabled(s, e) && Safe(s, e) && !InListCode(s, e.t) && OpOk(s, e.t)
    ensures var t, s' := e.t, Next(s, e);
      && t in s'.m.pc && t in s'.op
      && (s'.m.pc[t] != s.m.pc[t] || s'.op[t] != s.op[t] || t in s'.m.lock.sem.queue
          || (s.m.pc[t].Blocking? && s.m.pc[t].w in s'.m.sems && t in s'.m.sems[s.m.pc[t].w].queue))
  {
    M.StepsAreInOrder(s.m, M.Event(e.t, MonitorAction(s, e.t)));
  }

  /** Every step takes a call on: to its next stage, or on inside the monitor's code; only a thread that has to wait
      for the lock or for an item stays where it is, and is asleep then. */
  lemma StepsAdvance(s: State, e: Event)
    requires Inv(s) && Enabled(s, e) && Safe(s, e)
    ensures var t, s' := e.t, Next(s, e);
      && t in s'.m.pc && t in s'.op
      && if InListCode(s, t) then Stage(s'.op[t]) > Stage(s.op[t])
         else s'.m.pc[t] != s.m.pc[t] || s'.op[t] != s.op[t] || t in s'.m.lock.sem.queue
              || (s.m.pc[t].Blocking? && s.m.pc[t].w in s'.m.sems && t in s'.m.sems[s.m.pc[t].w].queue)
  {
    assert OpOk(s, e.t);
    if InListCode(s, e.t) {
      ListStepsAdvance(s, e);
    } else {
      MonitorStepsAdvance(s, e);
    }
  }

  // ---------- What calls return ----------

  ghost predicate IsStep(s: State, e: Event, s': State) {
    Enabled(s, e) && Safe(s, e) && s' == Next(s, e)
  }

  ghost predicate IsRun(run: seq<State>, events: seq<Event>) {
    && |run| == |events| + 1
    && forall i {:trigger IsStep(run[i], events[i], run[i + 1])} :: 0 <= i < |events| ==> IsStep(run[i], events[i], run[i + 1])
  }

  lemma {:induction false} StepAt(run: seq<State>, events: seq<Event>, k: nat)
    requires IsRun(run, events) && k < |events|
    ensures IsStep(run[k], events[k], run[k + 1])
  {
  }

  lemma StepPreserves(s: State, e: Event, s': State)
    requires Inv(s) && IsStep(s, e, s')
    ensures Inv(s')
  {
    NextPreserves(s, e);
  }

  lemma {:induction false} InvAt(run: seq<State>, events: seq<Event>, k: nat)
    requires IsRun(run, events) && k < |events| && Inv(run[k])
    ensures Inv(run[k + 1])
  {
    StepPreserves(run[k], events[k], run[k + 1]);
  }

  lemma {:induction false} RunInv(threads: set<Tid>, run: seq<State>, events: seq<Event>, n: nat)
    requires IsRun(run, events) && run[0] == Init(threads) && n <= |events|
    ensures Inv(run[n])
  {
    InitInv(threads);
    var k := 0;
    while k < n
      invariant k <= n && Inv(run[k])
    {
      InvAt(run, events, k);
      k := k + 1;
    }
  }

  /** The items of the calls of Append. */
  function CalledWith(events: seq<Event>, n: nat): seq<Item>
    requires n <= |events|
  {
    if n == 0 then [] else CalledWith(events, n - 1) + if events[n - 1].act.CallAppend? then [events[n - 1].act.x] else []
  }

  /** The item a step returns to the caller of RemoveFront, if it is the last step of that call. */
  function ReturnedBy(s: State, e: Event, s': State): seq<Item> {
    if e.t in s.op && e.t in s'.op && s.op[e.t].Leaving? && s.op[e.t].result.Some? && s'.op[e.t].NoOp? then [s.op[e.t].result.value] else []
  }

  function Returned(run: seq<State>, events: seq<Event>, n: nat): seq<Item>
    requires n <= |events| < |run|
  {
    if n == 0 then [] else Returned(run, events, n - 1) + ReturnedBy(run[n - 1], events[n - 1], run[n])
  }

  /** The items of calls of Append that have not put them on the list yet. */
  ghost function StillToAppend(op: map<Tid, Op>): set<Item> {
    set t | t in op && op[t].Append? :: op[t].x
  }

  /** The item taken by the one call of RemoveFront that may be between taking it and returning. */
  ghost function Carried(owner: Option<Tid>, op: map<Tid, Op>): seq<Item> {
    if owner.Some? && owner.value in op && op[owner.value].Leaving? && op[owner.value].result.Some?
    then [op[owner.value].result.value] else []
  }

  lemma InStill(op: map<Tid, Op>, x: Item)
    ensures x in StillToAppend(op) <==> exists t :: t in op && op[t] == Append(x)
  {
  }

  lemma StillAfterAppend(op: map<Tid, Op>, t: Tid, o: Op)
    requires t in op && op[t].Append? && !o.Append?
    requires forall u :: u in op && u != t ==> op[u] != op[t]
    ensures multiset(StillToAppend(op)) == multiset(StillToAppend(op[t := o])) + multiset([op[t].x])
  {
    var x, rest := op[t].x, StillToAppend(op[t := o]);
    assert x !in rest;
    forall y ensures y in StillToAppend(op) <==> y in rest || y == x {
      InStill(op, y);
      InStill(op[t := o], y);
      if u :| u in op && u != t && op[u] == Append(y) {
        assert op[t := o][u] == Append(y);
      }
    }
    assert StillToAppend(op) == rest + {x};
  }

  lemma StillAfterCall(op: map<Tid, Op>, t: Tid, x: Item)
    requires t in op && !op[t].Append? && forall u :: u in op ==> op[u] != Append(x)
    ensures multiset(StillToAppend(op[t := Append(x)])) == multiset(StillToAppend(op)) + multiset([x])
  {
    var now, op' := StillToAppend(op), op[t := Append(x)];
    assert x !in now;
    forall y ensures y in StillToAppend(op') <==> y in now || y == x {
      InStill(op, y);
      InStill(op', y);
      assert op'[t] == Append(x);
      if u :| u in op && op[u] == Append(y) {
        assert op'[u] == Append(y);
      }
    }
    assert StillToAppend(op') == now + {x};
  }

  lemma StillOtherwise(op: map<Tid, Op>, t: Tid, o: Op)
    requires t in op && (if op[t].Append? then o == op[t] else !o.Append?)
    ensures StillToAppend(op[t := o]) == StillToAppend(op)
  {
    forall y ensures y in StillToAppend(op[t := o]) <==> y in StillToAppend(op) {
      InStill(op, y);
      InStill(op[t := o], y);
      if u :| u in op && op[u] == Append(y) {
        assert op[t := o][u] == Append(y);
      }
    }
  }

  lemma OpChanges(s: State, e: Event)
    requires Inv(s) && Enabled(s, e) && Safe(s, e)
    ensures var t, o := e.t, Next(s, e).op[e.t];
      && (e.act.CallAppend? ==> o == Append(e.act.x) && !s.op[t].Append? && forall u :: u in s.op ==> s.op[u] != Append(e.act.x))
      && (!e.act.CallAppend? && !s.op[t].Append? ==> !o.Append?)
      && (s.op[t].Append? ==> !e.act.CallAppend? && forall u :: u in s.op && u != t ==> s.op[u] != s.op[t])
      && (s.op[t].Append? ==> o == s.op[t] || o == Appended)
  {
    assert OpOk(s, e.t);
  }

  lemma AppendsNext(s: State, e: Event)
    requires Inv(s) && Enabled(s, e) && Safe(s, e)
    ensures var s' := Next(s, e);
      multiset(s'.appended) + multiset(StillToAppend(s'.op))
      == multiset(s.appended) + multiset(StillToAppend(s.op)) + multiset(if e.act.CallAppend? then [e.act.x] else [])
  {
    ListChanges(s, e);
    OpChanges(s, e);
    AppendsFrom(s.op, e.t, Next(s, e).op[e.t], s.appended, Next(s, e).appended, if e.act.CallAppend? then [e.act.x] else []);
  }

  lemma AppendsFrom(op: map<Tid, Op>, t: Tid, o: Op, appended: seq<Item>, appended': seq<Item>, call: seq<Item>)
    requires t in op && (op[t].Append? ==> (o == op[t] || o == Appended) && call == [] && forall u :: u in op && u != t ==> op[u] != op[t])
    requires !op[t].Append? && call == [] ==> !o.Append?
    requires call != [] ==> |call| == 1 && o == Append(call[0]) && !op[t].Append? && forall u :: u in op ==> op[u] != Append(call[0])
    requires appended' == if op[t].Append? && o != op[t] then appended + [op[t].x] else appended
    ensures multiset(appended') + multiset(StillToAppend(op[t := o])) == multiset(appended) + multiset(StillToAppend(op)) + multiset(call)
  {
    if op[t].Append? && o != op[t] {
      StillAfterAppend(op, t, o);
    } else if call != [] {
      StillAfterCall(op, t, call[0]);
      assert call == [call[0]];
    } else {
      StillOtherwise(op, t, o);
    }
  }

  /** Whoever is leaving owns the lock. */
  lemma LeavingOwns(s: State, t: Tid)
    requires Inv(s) && t in s.op && (s.op[t].Leaving? || s.op[t].Take?)
    ensures s.m.lock.owner == Some(t)
  {
    assert OpOk(s, t);
    M.OwnerIs(s.m, t);
  }

  /** A call that leaves keeps its result until it returns, and no call begins to leave with one but by taking it. */
  lemma LeavingChanges(s: State, e: Event)
    requires Inv(s) && Enabled(s, e) && Safe(s, e)
    ensures var o, o' := s.op[e.t], Next(s, e).op[e.t];
      && (o.Leaving? ==> o' == o || o'.NoOp?)
      && (!o.Leaving? && !o.Take? && o'.Leaving? ==> o'.result == None)
  {
    assert OpOk(s, e.t);
  }

  lemma ReturnsNext(s: State, e: Event, returned: seq<Item>)
    requires Inv(s) && Enabled(s, e) && Safe(s, e) && s.removed == returned + Carried(s.m.lock.owner, s.op)
    ensures var s' := Next(s, e); s'.removed == returned + ReturnedBy(s, e, s') + Carried(s'.m.lock.owner, s'.op)
  {
    NextPreserves(s, e);
    ListChanges(s, e);
    LeavingChanges(s, e);
    var s' := Next(s, e);
    forall t | t in s.op && (s.op[t].Leaving? || s.op[t].Take?) ensures s.m.lock.owner == Some(t) {
      LeavingOwns(s, t);
    }
    forall t | t in s'.op && s'.op[t].Leaving? ensures s'.m.lock.owner == Some(t) {
      LeavingOwns(s', t);
    }
    CarriedNext(s.op, s'.op, e.t, s.m.lock.owner, s'.m.lock.owner, s.removed, s'.removed, returned);
  }

  lemma CarriedNext(op: map<Tid, Op>, op': map<Tid, Op>, t: Tid, owner: Option<Tid>, owner': Option<Tid>,
                    removed: seq<Item>, removed': seq<Item>, returned: seq<Item>)
    requires t in op && t in op' && op' == op[t := op'[t]] && removed == returned + Carried(owner, op)
    requires forall u :: u in op && (op[u].Leaving? || op[u].Take?) ==> owner == Some(u)
    requires forall u :: u in op' && op'[u].Leaving? ==> owner' == Some(u)
    requires op[t].Leaving? ==> op'[t] == op[t] || op'[t].NoOp?
    requires op[t].Take? ==> op'[t].Leaving? && op'[t].result.Some? && removed' == removed + [op'[t].result.value]
    requires !op[t].Leaving? && !op[t].Take? && op'[t].Leaving? ==> op'[t].result == None
    requires !op[t].Take? ==> removed' == removed
    ensures var back := if op[t].Leaving? && op[t].result.Some? && op'[t].NoOp? then [op[t].result.value] else [];
      removed' == returned + back + Carried(owner', op')
  {
  }

  /** The items that were passed to calls of Append are, each as often, those on the list or removed from it and those of
      calls that have not got to the list yet; and the calls of RemoveFront have returned the items removed, in that
      order, but for one that a call may still carry. */
  lemma {:induction false} CallsAreServed(threads: set<Tid>, run: seq<State>, events: seq<Event>, n: nat)
    requires IsRun(run, events) && run[0] == Init(threads) && n <= |events|
    ensures multiset(CalledWith(events, n)) == multiset(run[n].appended) + multiset(StillToAppend(run[n].op))
    ensures run[n].removed == Returned(run, events, n) + Carried(run[n].m.lock.owner, run[n].op)
    ensures run[n].appended == run[n].removed + run[n].list
  {
    RunInv(threads, run, events, n);
    if n > 0 {
      RunInv(threads, run, events, n - 1);
      CallsAreServed(threads, run, events, n - 1);
      ServedAt(run, events, n - 1, Returned(run, events, n - 1));
    }
  }

  lemma {:induction false} ServedAt(run: seq<State>, events: seq<Event>, k: nat, returned: seq<Item>)
    requires IsRun(run, events) && k < |events| && Inv(run[k]) && run[k].removed == returned + Carried(run[k].m.lock.owner, run[k].op)
    ensures var s, e, s' := run[k], events[k], run[k + 1];
      && multiset(s'.appended) + multiset(StillToAppend(s'.op))
         == multiset(s.appended) + multiset(StillToAppend(s.op)) + multiset(if e.act.CallAppend? then [e.act.x] else [])
      && s'.removed == returned + ReturnedBy(s, e, s') + Carried(s'.m.lock.owner, s'.op)
  {
    StepAt(run, events, k);
    AppendsNext(run[k], events[k]);
    ReturnsNext(run[k], events[k], returned);
  }
}
