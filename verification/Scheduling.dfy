/** Scheduler and thread life cycle (code/threads/scheduler.cc:43-172, code/threads/thread.cc:114-274).

    A context switch happens only inside Yield and Sleep, with interrupts off; each step below is what one
    thread, or an interrupt handler, does between two points at which others can act. */
module Scheduling {
  import opened Base
  import opened Lists

  /** Thread::setPriority keeps the priority between 1 and 7. */
  function SetPriority(p: int): (r: int)
    ensures (1 <= p <= 7 ==> r == p) && (p > 7 ==> r == 7) && (p < 1 ==> r == 1)
  {
    if p > 7 then 7 else if p < 1 then 1 else p
  }

  /** Greater priorities first. */
  function Compare(prio: Tid -> int): (Tid, Tid) -> int {
    (x: Tid, y: Tid) => if prio(x) > prio(y) then -1 else if prio(x) == prio(y) then 0 else 1
  }

  /** So the ready list is sorted as SortedList promises (Lists.StableSort). */
  lemma PriorityOrdering(prio: Tid -> int)
    ensures Ordering(Compare(prio))
  {
  }

  /** The current thread runs; or is in the loop of Sleep, for good or not; or has just been switched to and
      has not yet cleaned up after the one before. */
  datatype Phase = Running | Sleeping(finishing: bool) | Switched

  /** The threads by place. `stamp` records for each thread its last turn at ReadyToRun. */
  datatype State = State(current: Tid, phase: Phase, ready: seq<Tid>, waiting: set<Tid>, created: set<Tid>,
                         toBeDestroyed: Option<Tid>, deleted: set<Tid>, stamp: map<Tid, nat>, clock: nat)

  datatype Event =
    | Create(t: Tid)
    | Fork(t: Tid)
    | Yield
    | Block
    | Finish
    | Wake(t: Tid)
    | Dispatch
    | Resume

  // ---------- The steps ----------

  function MadeReady(prio: Tid -> int, s: State, t: Tid): (s': State)
    ensures |s'.ready| == |s.ready| + 1
  {
    InsertedItems(Compare(prio), s.ready, t);
    s.(ready := Inserted(Compare(prio), s.ready, t), stamp := s.stamp[t := s.clock], clock := s.clock + 1)
  }

  /** FindNextToRun and Run up to SWITCH, with a thread to run. */
  function RunNext(s: State, finishing: bool): State
    requires s.ready != []
  {
    s.(current := s.ready[0], phase := Switched, ready := s.ready[1..],
       toBeDestroyed := if finishing then Some(s.current) else s.toBeDestroyed)
  }

  ghost predicate Known(s: State, t: Tid) {
    t == s.current || t in s.ready || t in s.waiting || t in s.created || s.toBeDestroyed == Some(t) || t in s.deleted
  }

  /** When an event can come: what the callers see to. */
  ghost predicate Enabled(s: State, e: Event) {
    match e
    case Create(t) => s.phase == Running && !Known(s, t)
    case Fork(t) => s.phase == Running && t in s.created
    case Yield => s.phase == Running
    case Block => s.phase == Running
    case Finish => s.phase == Running
    case Wake(t) => s.phase != Switched && t in s.waiting
    case Dispatch => s.phase.Sleeping? && s.ready != []
    case Resume => s.phase == Switched
  }

  /** The assertions the code makes on the way: a thread is put on the ready list once, nothing else is
      waiting to be destroyed when a thread finishes, and the current thread is not deleted. */
  ghost predicate Asserts(s: State, e: Event)
    requires Enabled(s, e)
  {
    match e
    case Fork(t) => t !in s.ready
    case Yield => s.current !in s.ready
    case Wake(t) => t !in s.ready
    case Dispatch => s.phase.finishing ==> s.toBeDestroyed == None
    case Resume => s.toBeDestroyed != Some(s.current)
    case _ => true
  }

  ghost function Next(prio: Tid -> int, s: State, e: Event): State
    requires Enabled(s, e)
  {
    match e
    case Create(t) => s.(created := s.created + {t})
    case Fork(t) => MadeReady(prio, s, t).(created := s.created - {t})
    case Yield => RunNext(MadeReady(prio, s, s.current), false)
    case Block => s.(phase := Sleeping(false), waiting := s.waiting + {s.current})
    case Finish => s.(phase := Sleeping(true))
    case Wake(t) => MadeReady(prio, s, t).(waiting := s.waiting - {t})
    case Dispatch => RunNext(s, s.phase.finishing)
    case Resume =>
      s.(phase := Running, toBeDestroyed := None,
         deleted := s.deleted + if s.toBeDestroyed.Some? then {s.toBeDestroyed.value} else {})
  }

  // ---------- Invariant ----------

  ghost predicate Apart(s: State) {
    && Distinct(s.ready)
    && (forall t :: t in s.ready ==> t !in s.waiting && t !in s.created && t !in s.deleted)
    && s.waiting !! s.created && s.waiting !! s.deleted && s.created !! s.deleted
  }

  ghost predicate CurrentOk(s: State) {
    && s.current !in s.created && s.current !in s.deleted
    && if s.phase == Sleeping(false) then s.current in s.waiting || s.current in s.ready
       else s.current !in s.waiting && s.current !in s.ready
  }

  ghost predicate DestroyOk(s: State) {
    s.toBeDestroyed.Some? ==>
      var d := s.toBeDestroyed.value;
      s.phase == Switched && d != s.current && d !in s.ready && d !in s.waiting && d !in s.created && d !in s.deleted
  }

  /** Of two threads the first has the greater priority, or the same and became ready first. */
  ghost predicate Ahead(prio: Tid -> int, stamp: map<Tid, nat>, x: Tid, y: Tid)
    requires x in stamp && y in stamp
  {
    prio(x) > prio(y) || (prio(x) == prio(y) && stamp[x] < stamp[y])
  }

  ghost predicate InLine(prio: Tid -> int, ready: seq<Tid>, stamp: map<Tid, nat>, clock: nat) {
    && (forall i :: 0 <= i < |ready| ==> ready[i] in stamp && stamp[ready[i]] < clock)
    && (forall i, j :: 0 <= i < j < |ready| ==> Ahead(prio, stamp, ready[i], ready[j]))
  }

  /** The ready list is in order of priority, and of readiness among equals. */
  ghost predicate QueueOk(prio: Tid -> int, s: State) {
    InLine(prio, s.ready, s.stamp, s.clock)
  }

  ghost predicate Inv(prio: Tid -> int, s: State) {
    Apart(s) && CurrentOk(s) && DestroyOk(s) && QueueOk(prio, s)
  }

  /** The state after the kernel has started: one thread, running. */
  function Initial(t: Tid): State {
    State(t, Running, [], {}, {}, None, {}, map[], 0)
  }

  lemma InitialInv(prio: Tid -> int, t: Tid)
    ensures Inv(prio, Initial(t))
  {
  }

  // ---------- Preservation ----------

  lemma DistinctAfterInsert(prio: Tid -> int, ready: seq<Tid>, t: Tid)
    requires Distinct(ready) && t !in ready
    ensures Distinct(Inserted(Compare(prio), ready, t))
  {
    var k := SplitExists(Compare(prio), ready, t);
    InsertedAt(Compare(prio), ready, t, k);
    var r := ready[..k] + [t] + ready[k..];
    assert forall i :: 0 <= i < |r| ==> r[i] == if i < k then ready[i] else if i == k then t else ready[i - 1];
  }

  lemma InLineAfterInsert(prio: Tid -> int, ready: seq<Tid>, stamp: map<Tid, nat>, clock: nat, t: Tid)
    requires InLine(prio, ready, stamp, clock) && t !in ready
    ensures InLine(prio, Inserted(Compare(prio), ready, t), stamp[t := clock], clock + 1)
  {
    var cmp, stamp' := Compare(prio), stamp[t := clock];
    var k := SplitExists(cmp, ready, t);
    InsertedAt(cmp, ready, t, k);
    var r := ready[..k] + [t] + ready[k..];
    forall i | 0 <= i < |r| ensures r[i] == (if i < k then ready[i] else if i == k then t else ready[i - 1]) {
    }
    forall i | 0 <= i < |ready| ensures ready[i] in stamp' && stamp'[ready[i]] == stamp[ready[i]] < clock {
    }
    forall i, j | 0 <= i < j < |r| ensures Ahead(prio, stamp', r[i], r[j]) {
      if j == k {
        assert cmp(t, ready[i]) >= 0;
      } else if i == k {
        assert cmp(t, ready[k]) < 0;
        assert j - 1 > k ==> Ahead(prio, stamp, ready[k], ready[j - 1]);
      } else {
        assert Ahead(prio, stamp, r[i], r[j]);
      }
    }
  }

  lemma QueueAfterReady(prio: Tid -> int, s: State, t: Tid)
    requires QueueOk(prio, s) && t !in s.ready
    ensures QueueOk(prio, MadeReady(prio, s, t))
  {
    InLineAfterInsert(prio, s.ready, s.stamp, s.clock, t);
  }

  lemma QueueAfterRun(prio: Tid -> int, s: State, finishing: bool)
    requires QueueOk(prio, s) && s.ready != []
    ensures QueueOk(prio, RunNext(s, finishing))
  {
  }

  lemma PlacesAfterReady(prio: Tid -> int, s: State, t: Tid)
    requires Distinct(s.ready) && t !in s.ready
    ensures var s' := MadeReady(prio, s, t); Distinct(s'.ready) && forall x :: x in s'.ready <==> x == t || x in s.ready
  {
    DistinctAfterInsert(prio, s.ready, t);
    InsertedItems(Compare(prio), s.ready, t);
  }

  /** In every state of the invariant the code's assertions hold, and the invariant is kept. */
  lemma StepKeeps(prio: Tid -> int, s: State, e: Event)
    requires Inv(prio, s) && Enabled(s, e)
    ensures Asserts(s, e) && Inv(prio, Next(prio, s, e))
  {
    match e {
      case Fork(t) =>
        QueueAfterReady(prio, s, t);
        PlacesAfterReady(prio, s, t);
      case Wake(t) =>
        QueueAfterReady(prio, s, t);
        PlacesAfterReady(prio, s, t);
      case Yield =>
        YieldKeeps(prio, s);
      case Dispatch =>
        QueueAfterRun(prio, s, s.phase.finishing);
        DistinctPopFront(s.ready);
      case _ =>
    }
  }

  lemma YieldKeeps(prio: Tid -> int, s: State)
    requires Inv(prio, s) && s.phase == Running
    ensures Inv(prio, Next(prio, s, Yield))
  {
    var s1 := MadeReady(prio, s, s.current);
    QueueAfterReady(prio, s, s.current);
    PlacesAfterReady(prio, s, s.current);
    assert s.current in s1.ready;
    QueueAfterRun(prio, s1, false);
    DistinctPopFront(s1.ready);
  }

  // ---------- Whole runs ----------

  ghost predicate IsRun(prio: Tid -> int, run: seq<State>, events: seq<Event>) {
    && |run| == |events| + 1
    && forall i :: 0 <= i < |events| ==> Enabled(run[i], events[i]) && run[i + 1] == Next(prio, run[i], events[i])
  }

  /** Over every run from the start, the invariant holds and no assertion fires. */
  lemma {:induction false} RunKeeps(prio: Tid -> int, t: Tid, run: seq<State>, events: seq<Event>, n: nat)
    requires IsRun(prio, run, events) && run[0] == Initial(t) && n < |run|
    ensures Inv(prio, run[n])
    ensures n < |events| ==> Asserts(run[n], events[n])
  {
    if n == 0 {
      InitialInv(prio, t);
    } else {
      RunKeeps(prio, t, run, events, n - 1);
      StepKeeps(prio, run[n - 1], events[n - 1]);
    }
    if n < |events| {
      StepKeeps(prio, run[n], events[n]);
    }
  }

  function One(b: bool): nat {
    if b then 1 else 0
  }

  /** How often a thread occurs among the places a thread can be in. */
  ghost function Places(s: State, t: Tid): nat {
    One(t == s.current && s.phase != Sleeping(false)) + multiset(s.ready)[t] + One(t in s.waiting)
    + One(t in s.created) + One(s.toBeDestroyed == Some(t)) + One(t in s.deleted)
  }

  lemma {:induction false} OccursOnce(s: seq<Tid>, t: Tid)
    requires Distinct(s)
    ensures multiset(s)[t] == One(t in s)
  {
    if s != [] {
      DistinctPopFront(s);
      OccursOnce(s[1..], t);
      assert s == [s[0]] + s[1..];
    }
  }

  /** Every thread is in exactly one place. */
  lemma OnePlace(prio: Tid -> int, s: State, t: Tid)
    requires Inv(prio, s)
    ensures Places(s, t) == One(Known(s, t))
  {
    OccursOnce(s.ready, t);
  }

  lemma KnownAfterRun(s: State, finishing: bool, t: Tid)
    requires s.ready != []
    ensures t in s.ready <==> t == RunNext(s, finishing).current || t in RunNext(s, finishing).ready
  {
  }

  lemma KnownAfterYield(prio: Tid -> int, s: State, t: Tid)
    requires s.phase == Running
    ensures Known(Next(prio, s, Yield), t) <==> Known(s, t)
  {
    var s1 := MadeReady(prio, s, s.current);
    assert t in s1.ready <==> t == s.current || t in s.ready by {
      InsertedItems(Compare(prio), s.ready, s.current);
    }
    KnownAfterRun(s1, false, t);
  }

  /** Threads are neither lost nor invented: those known stay known, and only Create adds one. */
  lemma KnownAfterStep(prio: Tid -> int, s: State, e: Event, t: Tid)
    requires CurrentOk(s) && DestroyOk(s) && Enabled(s, e)
    ensures Known(Next(prio, s, e), t) <==> Known(s, t) || e == Create(t)
  {
    match e {
      case Fork(u) => InsertedItems(Compare(prio), s.ready, u);
      case Wake(u) => InsertedItems(Compare(prio), s.ready, u);
      case Yield => KnownAfterYield(prio, s, t);
      case Dispatch => KnownAfterRun(s, s.phase.finishing, t);
      case _ =>
    }
  }

  // ---------- Where threads go ----------

  /** The life of a thread, place by place. */
  datatype Place = Unknown | New | Ready | OnProcessor | Asleep | Finished | Deleted

  ghost function PlaceOf(s: State, t: Tid): Place {
    if t in s.created then New
    else if t in s.ready then Place.Ready
    else if t in s.waiting then Asleep
    else if s.toBeDestroyed == Some(t) then Place.Finished
    else if t in s.deleted then Deleted
    else if t == s.current then OnProcessor
    else Unknown
  }

  /** The thread of greatest priority on the list, of equals the one that became ready first. */
  ghost predicate IsFirst(prio: Tid -> int, s: State, n: Tid) {
    && n in s.ready
    && forall t :: t in s.ready && t != n ==>
         && n in s.stamp && t in s.stamp && (prio(n) > prio(t) || (prio(n) == prio(t) && s.stamp[n] < s.stamp[t]))
  }

  /** Fork and Wake put the thread on the ready list, and no other thread moves. */
  lemma ReadyMoves(prio: Tid -> int, s: State, e: Event, t: Tid, u: Tid)
    requires Inv(prio, s) && Enabled(s, e) && (e == Event.Fork(t) || e == Event.Wake(t))
    ensures var s' := Next(prio, s, e);
      && PlaceOf(s, t) == (if e.Fork? then New else Asleep)
      && PlaceOf(s', u) == (if u == t then Place.Ready else PlaceOf(s, u))
      && s'.current == s.current && s'.phase == s.phase && s'.toBeDestroyed == s.toBeDestroyed
  {
    PlacesAfterReady(prio, s, t);
  }

  /** The other steps of the running thread: it makes a new thread, goes to sleep, or finishes. */
  lemma OwnMoves(prio: Tid -> int, s: State, e: Event, u: Tid)
    requires Inv(prio, s) && Enabled(s, e) && (e.Create? || e.Block? || e.Finish?)
    ensures var s' := Next(prio, s, e);
      && PlaceOf(s, s.current) == OnProcessor
      && PlaceOf(s', u) == (if e == Create(u) then New else if e.Block? && u == s.current then Asleep else PlaceOf(s, u))
      && s'.current == s.current && s'.ready == s.ready && s'.toBeDestroyed == s.toBeDestroyed
      && s'.phase == (if e.Block? then Sleeping(false) else if e.Finish? then Sleeping(true) else Running)
  {
  }

  /** Dispatch gives the processor to the first of the ready threads; a thread that has finished is marked, one that
      sleeps or was made ready again stays where it is. */
  lemma DispatchMoves(prio: Tid -> int, s: State, u: Tid)
    requires Inv(prio, s) && Enabled(s, Dispatch)
    ensures var s' := Next(prio, s, Dispatch);
      && IsFirst(prio, s, s'.current) && s'.phase == Switched
      && PlaceOf(s', u) == (if u == s'.current then OnProcessor
                            else if u == s.current && s.phase == Sleeping(true) then Place.Finished else PlaceOf(s, u))
      && s'.toBeDestroyed == if s.phase == Sleeping(true) then Some(s.current) else s.toBeDestroyed
  {
    DistinctPopFront(s.ready);
    assert s.ready == [s.ready[0]] + s.ready[1..];
  }

  /** The thread switched to deletes the one that has finished, if there is one, and runs. */
  lemma ResumeMoves(prio: Tid -> int, s: State, u: Tid)
    requires Inv(prio, s) && Enabled(s, Resume)
    ensures var s' := Next(prio, s, Resume);
      && PlaceOf(s', u) == (if PlaceOf(s, u) == Place.Finished then Deleted else PlaceOf(s, u))
      && s'.current == s.current && s'.ready == s.ready && s'.phase == Running && s'.toBeDestroyed == None
      && PlaceOf(s', s'.current) == OnProcessor
  {
  }

  lemma YieldPicksFirst(prio: Tid -> int, s: State)
    requires Inv(prio, s) && Enabled(s, Event.Yield)
    ensures var n := Next(prio, s, Event.Yield).current; n == s.current || IsFirst(prio, s, n)
  {
    var s1 := MadeReady(prio, s, s.current);
    PlacesAfterReady(prio, s, s.current);
    QueueAfterReady(prio, s, s.current);
    var n := s1.ready[0];
    forall t | t in s.ready && t != n && n != s.current
      ensures n in s.stamp && t in s.stamp && (prio(n) > prio(t) || (prio(n) == prio(t) && s.stamp[n] < s.stamp[t]))
    {
      assert t in s1.ready;
      var j :| 0 <= j < |s1.ready| && s1.ready[j] == t;
      assert Ahead(prio, s1.stamp, s1.ready[0], s1.ready[j]);
    }
  }

  /** Yield puts the thread on the ready list and gives the processor to the first thread there, which may be the
      same one; no other thread moves. */
  lemma YieldMoves(prio: Tid -> int, s: State, u: Tid)
    requires Inv(prio, s) && Enabled(s, Event.Yield)
    ensures var s' := Next(prio, s, Event.Yield);
      && PlaceOf(s, s.current) == OnProcessor && s'.phase == Switched && s'.toBeDestroyed == s.toBeDestroyed
      && (s'.current == s.current || IsFirst(prio, s, s'.current))
      && PlaceOf(s', u) == if u == s'.current then OnProcessor else if u == s.current then Place.Ready else PlaceOf(s, u)
  {
    YieldPicksFirst(prio, s);
    var s1 := MadeReady(prio, s, s.current);
    PlacesAfterReady(prio, s, s.current);
    DistinctPopFront(s1.ready);
    assert s1.ready == [s1.ready[0]] + s1.ready[1..];
  }

  // ---------- Priorities ----------

  /** Yield gives the processor to a thread of greatest priority among the ready ones and the current one;
      of those with that priority, to the one that became ready first, the current one last. */
  lemma YieldPicksBest(prio: Tid -> int, s: State, t: Tid)
    requires Inv(prio, s) && s.phase == Running && (t in s.ready || t == s.current)
    ensures var n := Next(prio, s, Yield).current;
      && (n in s.ready || n == s.current)
      && prio(n) >= prio(t)
      && (prio(n) == prio(t) && t != n ==> n in s.ready && (t == s.current || s.stamp[n] < s.stamp[t]))
  {
  }

  /** So a thread keeps the processor when it yields exactly if all ready threads have lower priority. */
  lemma YieldKeepsProcessor(prio: Tid -> int, s: State)
    requires Inv(prio, s) && s.phase == Running
    ensures Next(prio, s, Yield).current == s.current <==> forall t :: t in s.ready ==> prio(t) < prio(s.current)
  {
  }

  /** A thread that no other one outranks moves up by one place with every Yield. */
  lemma YieldMovesUp(prio: Tid -> int, s: State, k: nat)
    requires Inv(prio, s) && s.phase == Running && k < |s.ready|
    requires prio(s.current) <= prio(s.ready[k])
    ensures var s' := Next(prio, s, Yield);
      if k == 0 then s'.current == s.ready[0] else |s'.ready| > k - 1 && s'.ready[k - 1] == s.ready[k]
  {
    var cmp := Compare(prio);
    var j := SplitExists(cmp, s.ready, s.current);
    InsertedAt(cmp, s.ready, s.current, j);
    assert k < j;
    var r := Inserted(cmp, s.ready, s.current);
    assert r[k] == s.ready[k] && r[0] == s.ready[0];
  }

  /** The state after the current thread yields and the next one resumes, n times over. */
  ghost function Yields(prio: Tid -> int, s: State, n: nat): State
    requires s.phase == Running
    decreases n
  {
    if n == 0 then s else Yields(prio, Next(prio, Next(prio, s, Yield), Resume), n - 1)
  }

  /** Round robin: a ready thread at place k that nobody outranks runs after k + 1 yields, whoever yields. */
  lemma {:induction false} RoundRobin(prio: Tid -> int, s: State, k: nat)
    requires Inv(prio, s) && s.phase == Running && k < |s.ready|
    requires forall t :: Known(s, t) ==> prio(t) <= prio(s.ready[k])
    ensures Yields(prio, s, k + 1).current == s.ready[k]
    decreases k
  {
    var s1 := Next(prio, s, Yield);
    var s2 := Next(prio, s1, Resume);
    StepKeeps(prio, s, Yield);
    StepKeeps(prio, s1, Resume);
    assert Known(s, s.current);
    YieldMovesUp(prio, s, k);
    if k == 0 {
      assert Yields(prio, s, 1) == Yields(prio, s2, 0);
    } else {
      forall t | Known(s2, t) ensures prio(t) <= prio(s2.ready[k - 1]) {
        KnownAfterStep(prio, s, Yield, t);
        KnownAfterStep(prio, s1, Resume, t);
      }
      RoundRobin(prio, s2, k - 1);
    }
  }

  // ---------- The scheduler object ----------

  /** The scheduler and the kernel variables it changes. `threads` gives the whole picture. */
  class Scheduler {
    const prio: Tid -> int
    var readyList: seq<Tid>
    var toBeDestroyed: Option<Tid>
    var currentThread: Tid
    ghost var threads: State

    ghost predicate Valid()
      reads this
    {
      && Inv(prio, threads)
      && readyList == threads.ready && toBeDestroyed == threads.toBeDestroyed && currentThread == threads.current
    }

    constructor (prio: Tid -> int, main: Tid)
      ensures Valid() && this.prio == prio && threads == Initial(main)
    {
      this.prio, readyList, toBeDestroyed, currentThread := prio, [], None, main;
      threads := Initial(main);
    }

    method ReadyToRun(t: Tid)
      requires readyList == threads.ready
      modifies this`readyList, this`threads
      ensures readyList == threads.ready && threads == MadeReady(prio, old(threads), t)
    {
      readyList := Inserted(Compare(prio), readyList, t);
      threads := MadeReady(prio, threads, t);
    }

    method FindNextToRun() returns (next: Option<Tid>)
      modifies this`readyList
      ensures next == if old(readyList) == [] then None else Some(old(readyList)[0])
      ensures readyList == if old(readyList) == [] then [] else old(readyList)[1..]
    {
      if readyList == [] {
        return None;
      }
      next := Some(readyList[0]);
      readyList := readyList[1..];
    }

    /** Run up to the switch. */
    method Run(next: Tid, finishing: bool)
      requires finishing ==> toBeDestroyed == None
      modifies this`toBeDestroyed, this`currentThread
      ensures currentThread == next && toBeDestroyed == if finishing then Some(old(currentThread)) else old(toBeDestroyed)
    {
      if finishing {
        toBeDestroyed := Some(currentThread);
      }
      currentThread := next;
    }

    /** What the next thread does first: it deletes the one before, if that has finished. */
    method CheckToBeDestroyed()
      requires Valid() && Enabled(threads, Event.Resume)
      modifies this`toBeDestroyed, this`threads
      ensures Valid() && threads == Next(prio, old(threads), Event.Resume)
    {
      StepKeeps(prio, threads, Event.Resume);
      assert toBeDestroyed != Some(currentThread);
      toBeDestroyed := None;
      threads := Next(prio, threads, Event.Resume);
    }

    method Fork(t: Tid)
      requires Valid() && Enabled(threads, Event.Fork(t))
      modifies this`readyList, this`threads
      ensures Valid() && threads == Next(prio, old(threads), Event.Fork(t))
      ensures multiset(readyList) == multiset(old(readyList)) + multiset{t} && t !in threads.created
    {
      InsertedItems(Compare(prio), readyList, t);
      StepKeeps(prio, threads, Event.Fork(t));
      ReadyToRun(t);
      threads := threads.(created := threads.created - {t});
    }

    /** The wake-up that V performs. */
    method Wake(t: Tid)
      requires Valid() && Enabled(threads, Event.Wake(t))
      modifies this`readyList, this`threads
      ensures Valid() && threads == Next(prio, old(threads), Event.Wake(t))
      ensures multiset(readyList) == multiset(old(readyList)) + multiset{t} && t !in threads.waiting
    {
      InsertedItems(Compare(prio), readyList, t);
      StepKeeps(prio, threads, Event.Wake(t));
      ReadyToRun(t);
      threads := threads.(waiting := threads.waiting - {t});
    }

    method Yield()
      requires Valid() && Enabled(threads, Event.Yield)
      modifies this
      ensures Valid() && threads == Next(prio, old(threads), Event.Yield)
    {
      StepKeeps(prio, threads, Event.Yield);
      ReadyToRun(currentThread);
      var next := FindNextToRun();
      Run(next.value, false);
      threads := RunNext(threads, false);
    }

    /** One round of the loop in Sleep; None means that the processor idles. */
    method SleepRound(finishing: bool) returns (next: Option<Tid>)
      requires Valid() && threads.phase == Sleeping(finishing)
      modifies this
      ensures Valid() && (next == None <==> old(readyList) == [])
      ensures next == None ==> threads == old(threads)
      ensures next != None ==> threads == Next(prio, old(threads), Event.Dispatch)
    {
      next := FindNextToRun();
      if next != None {
        StepKeeps(prio, threads, Event.Dispatch);
        Run(next.value, finishing);
        threads := RunNext(threads, finishing);
      }
    }
  }
}
