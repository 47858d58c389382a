/** Locks (code/threads/synch.cc): a semaphore that starts at 1 and a holder field.

    Acquire is P followed by setting the holder, Release clears the holder and then calls V, and a
    thread may be preempted between any two of these. The phase of a thread says how far it is. */
module Locks {
  import opened Base
  import opened Semaphores

  datatype Phase =
    | Outside   // not in the lock's code and not owning it
    | InP       // Acquire: inside the semaphore's P
    | Got       // Acquire: P has returned, the holder field is not yet set
    | Held      // the holder field names this thread
    | Cleared   // Release: the holder field is cleared, V has not run yet

  /** `owner` is auxiliary: the thread between the end of Acquire's P and the start of Release's V. */
  datatype LockState = LockState(sem: Sem, holder: Option<Tid>, owner: Option<Tid>)

  const NewLock := LockState(NewSem(1), None, None)

  predicate Critical(p: Phase) {
    p.Got? || p.Held? || p.Cleared?
  }

  /** The value tells whether some thread is in the critical region; `owner` and the holder field
      name the right threads. */
  ghost predicate OwnerInv(l: LockState, phases: map<Tid, Phase>) {
    && l.sem.value == (if l.owner.None? then 1 else 0)
    && (l.owner.Some? ==> l.owner.value in phases)
    && (l.holder.Some? ==> l.holder.value in phases)
    && (forall t :: t in phases ==> (Critical(phases[t]) <==> l.owner == Some(t)))
    && (forall t :: t in phases ==> (phases[t].Held? <==> l.holder == Some(t)))
  }

  /** Only threads inside P sleep on the lock's semaphore or have been woken by it. */
  ghost predicate SleepersInv(s: Sem, phases: map<Tid, Phase>) {
    && (forall t :: t in s.queue ==> t in phases && phases[t].InP?)
    && (forall t :: t in s.woken ==> t in phases && phases[t].InP?)
  }

  ghost predicate LockInv(l: LockState, phases: map<Tid, Phase>) {
    && SemInv(l.sem)
    && OwnerInv(l, phases)
    && SleepersInv(l.sem, phases)
  }

  /** What thread t does next in the lock's code, and whether it can: only a sleeper in P cannot. */
  predicate CanAdvance(l: LockState, p: Phase, t: Tid) {
    p.InP? ==> t !in l.sem.queue
  }

  function Advance(l: LockState, p: Phase, t: Tid): (LockState, Phase) {
    match p
    case Outside => (l, InP)
    case InP =>
      if l.sem.value == 0 then (l.(sem := PSegment(l.sem, t)), InP)
      else (l.(sem := PSegment(l.sem, t), owner := Some(t)), Got)
    case Got => (l.(holder := Some(t)), Held)
    case Held => (l.(holder := None), Cleared)
    case Cleared => (l.(sem := VSegment(l.sem), owner := None), Outside)
  }

  lemma AdvanceKeepsOwner(l: LockState, phases: map<Tid, Phase>, t: Tid)
    requires OwnerInv(l, phases) && t in phases
    ensures var (l', p') := Advance(l, phases[t], t); OwnerInv(l', phases[t := p'])
  {
  }

  lemma AdvanceKeepsSleepers(l: LockState, phases: map<Tid, Phase>, t: Tid)
    requires SleepersInv(l.sem, phases) && t in phases && CanAdvance(l, phases[t], t)
    ensures var (l', p') := Advance(l, phases[t], t); SleepersInv(l'.sem, phases[t := p'])
  {
  }

  lemma AdvancePreserves(l: LockState, phases: map<Tid, Phase>, t: Tid)
    requires LockInv(l, phases) && t in phases && CanAdvance(l, phases[t], t)
    ensures var (l', p') := Advance(l, phases[t], t); LockInv(l', phases[t := p'])
  {
    AdvanceKeepsOwner(l, phases, t);
    AdvanceKeepsSleepers(l, phases, t);
    if phases[t].InP? {
      PSegmentPreserves(l.sem, t);
    } else if phases[t].Cleared? {
      VSegmentPreserves(l.sem);
    }
  }

  /** The threads between the end of Acquire's P and the start of Release's V. */
  ghost function CriticalThreads(phases: map<Tid, Phase>): set<Tid> {
    set t | t in phases && Critical(phases[t])
  }

  /** Mutual exclusion: the semaphore value and the number of threads in the critical region always
      add up to 1, also in the windows before the holder is set and after it is cleared. */
  lemma MutualExclusion(l: LockState, phases: map<Tid, Phase>)
    requires LockInv(l, phases)
    ensures l.sem.value + |CriticalThreads(phases)| == 1
    ensures forall t, u :: t in phases && u in phases && Critical(phases[t]) && Critical(phases[u]) ==> t == u
  {
    if l.owner.Some? {
      assert CriticalThreads(phases) == {l.owner.value};
    } else {
      assert CriticalThreads(phases) == {};
    }
  }

  /** If the lock is free and threads are inside Acquire, one of them can be dispatched and gets it. */
  lemma FreeLockIsTaken(l: LockState, phases: map<Tid, Phase>, t: Tid) returns (u: Tid)
    requires LockInv(l, phases) && l.owner.None? && t in phases && phases[t].InP?
    ensures u in phases && phases[u].InP? && CanAdvance(l, InP, u)
    ensures Advance(l, InP, u).1.Got?
  {
    if t !in l.sem.queue {
      u := t;
    } else {
      assert |l.sem.woken| > 0;
      u :| u in l.sem.woken;
    }
  }

  /** Left alone, a thread gets a free lock in three steps, becoming its holder in the last, and gives it back
      in two, clearing the holder first; the longest sleeper is then woken. */
  lemma AloneTakesAndGivesBack(l: LockState, t: Tid)
    requires l.sem.value > 0 && t !in l.sem.queue
    ensures var (l1, p1) := Advance(l, Outside, t); var (l2, p2) := Advance(l1, p1, t); var (l3, p3) := Advance(l2, p2, t);
      var (l4, p4) := Advance(l3, p3, t); var (l5, p5) := Advance(l4, p4, t);
      && (p1, p2, p3, p4, p5) == (InP, Got, Held, Cleared, Outside)
      && l1 == l && l2.sem.value == l.sem.value - 1 && l2.sem.queue == l.sem.queue && l2.owner == Some(t) && l2.holder == l.holder
      && l3 == l2.(holder := Some(t)) && l4 == l3.(holder := None)
      && l5.sem.value == l.sem.value && l5.owner == None && l5.holder == None
      && l5.sem.queue == (if l.sem.queue == [] then [] else l.sem.queue[1..])
      && (l.sem.queue != [] ==> l.sem.queue[0] in l5.sem.woken)
  {
  }

  /** A thread that finds the lock taken is asleep behind all others, and nothing else changes. */
  lemma TakenMeansAsleep(l: LockState, t: Tid)
    requires l.sem.value == 0
    ensures var (l', p') := Advance(l, InP, t);
      p' == InP && l'.sem.queue == l.sem.queue + [t] && l'.sem.value == 0 && l'.owner == l.owner && l'.holder == l.holder
  {
  }
}
