/** Counting semaphores (code/threads/synch.cc).

    P and V run with interrupts disabled, so each pass through P's loop test and the whole of V are
    atomic; the only point inside P at which another thread can run is Sleep. A step system over
    these atomic segments therefore covers every interleaving the kernel can produce. */
module Semaphores {
  import opened Base

  /** `value` and `queue` are the source's fields. `woken` is auxiliary: the threads that V took off
      the queue and that have not yet been dispatched to test the value again. */
  datatype Sem = Sem(value: nat, queue: seq<Tid>, woken: set<Tid>)

  function NewSem(initialValue: nat): Sem {
    Sem(initialValue, [], {})
  }

  /** One pass of P's loop by thread t: take a unit, or join the queue and sleep. */
  function PSegment(s: Sem, t: Tid): Sem {
    if s.value == 0
    then Sem(0, s.queue + [t], s.woken - {t})
    else Sem(s.value - 1, s.queue, s.woken - {t})
  }

  /** The body of V: ready the longest sleeper, if any, and add a unit. */
  function VSegment(s: Sem): Sem {
    if s.queue == []
    then s.(value := s.value + 1)
    else Sem(s.value + 1, s.queue[1..], s.woken + {s.queue[0]})
  }

  /** While somebody sleeps, every unit is matched by a woken thread that will come for it. */
  ghost predicate SemInv(s: Sem) {
    && Distinct(s.queue)
    && (forall t :: t in s.queue ==> t !in s.woken)
    && (s.queue != [] ==> s.value <= |s.woken|)
  }

  lemma PSegmentPreserves(s: Sem, t: Tid)
    requires SemInv(s) && t !in s.queue
    ensures SemInv(PSegment(s, t))
  {
  }

  lemma VSegmentPreserves(s: Sem)
    requires SemInv(s)
    ensures SemInv(VSegment(s))
  {
  }

  /** The source's object: a value and a queue, updated in place. */
  class Semaphore {
    var value: int
    var queue: seq<Tid>
    ghost var woken: set<Tid>

    ghost predicate Valid()
      reads this
    {
      value >= 0 && SemInv(Model())
    }

    ghost function Model(): Sem
      requires value >= 0
      reads this
    {
      Sem(value, queue, woken)
    }

    constructor (initialValue: nat)
      ensures Valid() && Model() == NewSem(initialValue)
    {
      value, queue, woken := initialValue, [], {};
    }

    /** One pass of P's loop; when `acquired` is false the caller is on the queue and must sleep. */
    method PAttempt(t: Tid) returns (acquired: bool)
      requires Valid() && t !in queue
      modifies this
      ensures Valid() && Model() == PSegment(old(Model()), t)
      ensures acquired <==> old(value) > 0
      ensures value == old(value) - (if acquired then 1 else 0) && queue == if acquired then old(queue) else old(queue) + [t]
    {
      PSegmentPreserves(Model(), t);
      if value == 0 {
        queue := queue + [t];
        acquired := false;
      } else {
        value := value - 1;
        acquired := true;
      }
      woken := woken - {t};
    }

    /** V; the result is the thread to hand to the scheduler's ready list, if any. */
    method V() returns (ready: Option<Tid>)
      requires Valid()
      modifies this
      ensures Valid() && Model() == VSegment(old(Model()))
      ensures value == old(value) + 1
      ensures if old(queue) == [] then ready == None && queue == [] else ready == Some(old(queue)[0]) && queue == old(queue)[1..]
    {
      VSegmentPreserves(Model());
      ready := None;
      if queue != [] {
        ready := Some(queue[0]);
        woken := woken + {queue[0]};
        queue := queue[1..];
      }
      value := value + 1;
    }
  }

  // ---------- Every run of any number of threads over one semaphore ----------

  /** `inP` holds the threads that have called P and not returned; `ps` and `vs` count completed calls. */
  datatype System = System(sem: Sem, inP: set<Tid>, ps: nat, vs: nat)

  /** A thread calls P; a thread inside P is dispatched and makes one pass; a thread outside P, or an
      interrupt handler, calls V. */
  datatype Event = CallP(t: Tid) | Dispatch(t: Tid) | CallV

  ghost predicate Enabled(s: System, e: Event) {
    match e
    case CallP(t) => t !in s.inP
    case Dispatch(t) => t in s.inP && t !in s.sem.queue
    case CallV => true
  }

  function Next(s: System, e: Event): System {
    match e
    case CallP(t) => s.(inP := s.inP + {t})
    case Dispatch(t) =>
      if s.sem.value == 0
      then s.(sem := PSegment(s.sem, t))
      else System(PSegment(s.sem, t), s.inP - {t}, s.ps + 1, s.vs)
    case CallV => s.(sem := VSegment(s.sem), vs := s.vs + 1)
  }

  ghost predicate Run(s: System, events: seq<Event>, s': System)
    decreases |events|
  {
    if events == [] then s' == s
    else Enabled(s, events[0]) && Run(Next(s, events[0]), events[1..], s')
  }

  ghost predicate Inv(s: System, initialValue: nat) {
    && SemInv(s.sem)
    && s.sem.value + s.ps == initialValue + s.vs
    && (forall t :: t in s.sem.queue || t in s.sem.woken ==> t in s.inP)
  }

  lemma NextPreserves(s: System, e: Event, initialValue: nat)
    requires Inv(s, initialValue) && Enabled(s, e)
    ensures Inv(Next(s, e), initialValue)
  {
    match e
    case CallP(t) =>
    case Dispatch(t) => PSegmentPreserves(s.sem, t);
    case CallV => VSegmentPreserves(s.sem);
  }

  lemma {:induction false} RunPreserves(s: System, events: seq<Event>, s': System, initialValue: nat)
    requires Inv(s, initialValue) && Run(s, events, s')
    ensures Inv(s', initialValue)
    decreases |events|
  {
    if events != [] {
      NextPreserves(s, events[0], initialValue);
      RunPreserves(Next(s, events[0]), events[1..], s', initialValue);
    }
  }

  /** In every run the value is exactly the initial value plus completed Vs minus completed Ps. */
  lemma ValueIsConserved(initialValue: nat, events: seq<Event>, s: System)
    requires Run(System(NewSem(initialValue), {}, 0, 0), events, s)
    ensures s.sem.value == initialValue + s.vs - s.ps
  {
    RunPreserves(System(NewSem(initialValue), {}, 0, 0), events, s, initialValue);
  }

  /** No wakeup is lost: whenever threads sleep although units are available, at least as many woken
      threads as units are ready to run, and each would succeed if dispatched now. This holds even
      when threads that never slept take units first. */
  lemma NoLostWakeup(initialValue: nat, events: seq<Event>, s: System)
    requires Run(System(NewSem(initialValue), {}, 0, 0), events, s)
    requires s.sem.queue != [] && s.sem.value > 0
    ensures s.sem.value <= |s.sem.woken|
    ensures exists t :: t in s.sem.woken && Enabled(s, Dispatch(t)) && Next(s, Dispatch(t)).ps == s.ps + 1
  {
    RunPreserves(System(NewSem(initialValue), {}, 0, 0), events, s, initialValue);
    var t :| t in s.sem.woken;
    assert Enabled(s, Dispatch(t));
  }

  // ---------- Runs in terms of their events ----------

  /** How many calls of P and of V there were, and when a thread last called P and last tested the value: the
      number of that event, counted from 1. */
  function CallsOfP(events: seq<Event>): nat {
    if events == [] then 0 else CallsOfP(events[..|events| - 1]) + if events[|events| - 1].CallP? then 1 else 0
  }

  function CallsOfV(events: seq<Event>): nat {
    if events == [] then 0 else CallsOfV(events[..|events| - 1]) + if events[|events| - 1].CallV? then 1 else 0
  }

  function LastOf(events: seq<Event>, e: Event): (n: nat)
    ensures n <= |events|
  {
    if events == [] then 0 else if events[|events| - 1] == e then |events| else LastOf(events[..|events| - 1], e)
  }

  /** What the events tell: every call of P has returned or is inside, and every call of V counts; sleepers are
      in the order in which they tested the value; and a thread inside P that has tested the value since it
      called P is asleep or was woken: nobody waits busily. */
  ghost predicate CallsTold(events: seq<Event>, s: System) {
    CallsOfP(events) == s.ps + |s.inP| && CallsOfV(events) == s.vs
  }

  ghost predicate InOrder(events: seq<Event>, queue: seq<Tid>) {
    forall i, j :: 0 <= i < j < |queue| ==> LastOf(events, Dispatch(queue[i])) < LastOf(events, Dispatch(queue[j]))
  }

  ghost predicate Tried(events: seq<Event>, t: Tid) {
    LastOf(events, Dispatch(t)) > LastOf(events, CallP(t))
  }

  ghost predicate NobodySpins(events: seq<Event>, s: System) {
    forall t :: t in s.inP ==> (Tried(events, t) <==> t in s.sem.queue || t in s.sem.woken)
  }

  ghost predicate Told(events: seq<Event>, s: System) {
    CallsTold(events, s) && InOrder(events, s.sem.queue) && NobodySpins(events, s)
  }

  lemma {:induction false} LastNext(events: seq<Event>, e: Event, x: Event)
    ensures LastOf(events + [e], x) == if e == x then |events| + 1 else LastOf(events, x)
    ensures CallsOfP(events + [e]) == CallsOfP(events) + if e.CallP? then 1 else 0
    ensures CallsOfV(events + [e]) == CallsOfV(events) + if e.CallV? then 1 else 0
  {
    assert (events + [e])[..|events|] == events;
  }

  lemma {:induction false} OrderNext(events: seq<Event>, e: Event, queue: seq<Tid>)
    requires InOrder(events, queue) && (e.Dispatch? ==> e.t !in queue)
    ensures InOrder(events + [e], queue) && (e.Dispatch? ==> InOrder(events + [e], queue + [e.t]))
    ensures queue != [] ==> InOrder(events + [e], queue[1..])
  {
    forall i | 0 <= i < |queue| ensures LastOf(events + [e], Dispatch(queue[i])) == LastOf(events, Dispatch(queue[i])) {
      LastNext(events, e, Dispatch(queue[i]));
    }
    if e.Dispatch? {
      LastNext(events, e, e);
    }
  }

  lemma {:induction false} SpinsNext(events: seq<Event>, s: System, e: Event, t: Tid)
    requires NobodySpins(events, s) && Enabled(s, e) && t in Next(s, e).inP
    requires forall u :: u in s.sem.queue || u in s.sem.woken ==> u in s.inP
    ensures Tried(events + [e], t) <==> t in Next(s, e).sem.queue || t in Next(s, e).sem.woken
  {
    LastNext(events, e, Dispatch(t));
    LastNext(events, e, CallP(t));
    if t in s.inP {
      assert Tried(events, t) <==> t in s.sem.queue || t in s.sem.woken;
    }
  }

  lemma {:induction false} ToldNext(events: seq<Event>, s: System, e: Event, initialValue: nat)
    requires Told(events, s) && Inv(s, initialValue) && Enabled(s, e)
    ensures Told(events + [e], Next(s, e))
  {
    LastNext(events, e, e);
    OrderNext(events, e, s.sem.queue);
    forall t | t in Next(s, e).inP ensures Tried(events + [e], t) <==> t in Next(s, e).sem.queue || t in Next(s, e).sem.woken {
      SpinsNext(events, s, e, t);
    }
  }

  /** The state before the last event of a run. */
  lemma {:induction false} BeforeLast(s: System, events: seq<Event>, s': System) returns (mid: System)
    requires Run(s, events, s') && events != []
    ensures Run(s, events[..|events| - 1], mid) && Enabled(mid, events[|events| - 1]) && s' == Next(mid, events[|events| - 1])
    decreases |events|
  {
    if |events| == 1 {
      mid := s;
    } else {
      mid := BeforeLast(Next(s, events[0]), events[1..], s');
      assert events[1..][..|events| - 2] == events[..|events| - 1][1..];
    }
  }

  lemma {:induction false} RunTells(initialValue: nat, events: seq<Event>, s: System)
    requires Run(System(NewSem(initialValue), {}, 0, 0), events, s)
    ensures Told(events, s)
    decreases |events|
  {
    if events != [] {
      var s0 := System(NewSem(initialValue), {}, 0, 0);
      var n := |events| - 1;
      var mid := BeforeLast(s0, events, s);
      RunTells(initialValue, events[..n], mid);
      RunPreserves(s0, events[..n], mid, initialValue);
      ToldNext(events[..n], mid, events[n], initialValue);
      assert events == events[..n] + [events[n]];
    }
  }

  /** V readies the thread that has slept longest, and the others sleep on in their order. */
  lemma LongestSleeperFirst(initialValue: nat, events: seq<Event>, s: System)
    requires Run(System(NewSem(initialValue), {}, 0, 0), events, s) && s.sem.queue != []
    ensures var t, s' := s.sem.queue[0], Next(s, CallV);
      && s'.sem.woken == s.sem.woken + {t} && s'.sem.queue == s.sem.queue[1..] && s'.sem.value == s.sem.value + 1
      && forall u :: u in s.sem.queue && u != t ==> LastOf(events, Dispatch(t)) < LastOf(events, Dispatch(u))
  {
    RunTells(initialValue, events, s);
  }

  /** A dispatched thread returns from P with a unit if there is one, and is asleep behind all others if not. */
  lemma DispatchEffect(initialValue: nat, events: seq<Event>, s: System, t: Tid)
    requires Run(System(NewSem(initialValue), {}, 0, 0), events, s) && Enabled(s, Dispatch(t))
    ensures var s' := Next(s, Dispatch(t));
      if s.sem.value > 0 then s'.inP == s.inP - {t} && s'.sem.value == s.sem.value - 1 && s'.sem.queue == s.sem.queue && s'.ps == s.ps + 1
      else s'.inP == s.inP && s'.sem.value == 0 && s'.sem.queue == s.sem.queue + [t] && s'.ps == s.ps
  {
  }
}
