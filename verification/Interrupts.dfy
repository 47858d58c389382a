/** The simulated interrupt hardware and its clock (code/machine/interrupt.cc:60-322): the pending list,
    the loop that fires what is due, and the tick counters. */
module Interrupts {
  import opened Lists

  const UserTick: int := 1
  const SystemTick: int := 10

  datatype Level = IntOff | IntOn
  datatype Status = IdleMode | SystemMode | UserMode

  /** A scheduled interrupt: the object to call, the time, and its place in the order of Schedule calls. */
  datatype Pending = Pending(toCall: nat, when: int, id: nat)

  function PendingCompare(x: Pending, y: Pending): int {
    if x.when < y.when then -1 else if x.when > y.when then 1 else 0
  }

  /** So the pending list is sorted as SortedList promises (Lists.StableSort). */
  lemma PendingOrdering()
    ensures Ordering(PendingCompare)
  {
  }

  /** Interrupts are scheduled for later, never for now. */
  type Delay = d: int | d > 0 witness 1

  /** What a handler does to the interrupt hardware: schedule more, and maybe ask for a context switch. */
  datatype Request = Request(toCall: nat, fromNow: Delay)
  datatype Response = Response(requests: seq<Request>, askYield: bool)

  /** The handlers: what the call for a pending interrupt does. Each is called once, so this allows any
      behaviour. */
  type Handlers = Pending -> Response

  // ---------- Order ----------

  /** Earlier in time, or at the same time and scheduled earlier. */
  predicate Before(a: Pending, b: Pending) {
    a.when < b.when || (a.when == b.when && a.id < b.id)
  }

  ghost predicate InOrder(s: seq<Pending>) {
    forall i, j {:trigger Before(s[i], s[j])} :: 0 <= i < j < |s| ==> Before(s[i], s[j])
  }

  /** The number of entries that are due. */
  function Due(s: seq<Pending>, now: int): nat {
    if s == [] then 0 else (if s[0].when <= now then 1 else 0) + Due(s[1..], now)
  }

  lemma {:induction false} DueAfterInsert(s: seq<Pending>, x: Pending, now: int)
    ensures Due(Inserted(PendingCompare, s, x), now) == Due(s, now) + if x.when <= now then 1 else 0
  {
    if s == [] || PendingCompare(x, s[0]) < 0 {
      assert ([x] + s)[1..] == s;
    } else {
      DueAfterInsert(s[1..], x, now);
      var r := Inserted(PendingCompare, s, x);
      assert r[0] == s[0] && r[1..] == Inserted(PendingCompare, s[1..], x);
    }
  }

  /** An entry scheduled last goes behind those of its time. */
  lemma InOrderAfterInsert(s: seq<Pending>, x: Pending)
    requires InOrder(s) && forall i :: 0 <= i < |s| ==> s[i].id < x.id
    ensures InOrder(Inserted(PendingCompare, s, x))
  {
    var k := SplitExists(PendingCompare, s, x);
    InsertedAt(PendingCompare, s, x, k);
    var r := s[..k] + [x] + s[k..];
    assert forall i :: 0 <= i < |r| ==> r[i] == if i < k then s[i] else if i == k then x else s[i - 1];
    forall i, j | 0 <= i < j < |r| ensures Before(r[i], r[j]) {
      if j == k {
        assert PendingCompare(x, s[i]) >= 0;
      } else if i == k {
        assert PendingCompare(x, s[k]) < 0;
        assert j - 1 > k ==> Before(s[k], s[j - 1]);
      }
    }
  }

  // ---------- The history of the interrupts ----------

  /** All interrupts ever scheduled, those that fired, and when they did. */
  datatype History = History(scheduled: seq<Pending>, fired: seq<Pending>, firedAt: seq<int>)

  /** Those that fired, then the pending ones: in order of time, and of scheduling among equals. */
  ghost predicate Ordered(h: History, pending: seq<Pending>) {
    && InOrder(h.fired) && InOrder(pending)
    && forall i, j {:trigger Before(h.fired[i], pending[j])} :: 0 <= i < |h.fired| && 0 <= j < |pending| ==> Before(h.fired[i], pending[j])
  }

  /** Every interrupt scheduled has fired once or is pending once. */
  ghost predicate Accounted(h: History, pending: seq<Pending>) {
    && multiset(h.fired) + multiset(pending) == multiset(h.scheduled)
    && (forall i :: 0 <= i < |h.scheduled| ==> h.scheduled[i].id == i)
  }

  /** None fired early, nor a system tick late or more. */
  ghost predicate OnTime(h: History, now: int) {
    && |h.firedAt| == |h.fired|
    && (forall i :: 0 <= i < |h.fired| ==> h.fired[i].when <= h.firedAt[i] < h.fired[i].when + SystemTick)
    && (forall i :: 0 <= i < |h.fired| ==> h.firedAt[i] <= now)
  }

  /** No pending interrupt is lag ticks overdue. */
  ghost predicate Upcoming(pending: seq<Pending>, now: int) {
    forall i :: 0 <= i < |pending| ==> pending[i].when > now
  }

  ghost predicate Steady(h: History, pending: seq<Pending>, now: int, lag: int) {
    Ordered(h, pending) && Accounted(h, pending) && OnTime(h, now) && Upcoming(pending, now - lag)
  }

  lemma PendingIds(h: History, pending: seq<Pending>, i: nat)
    requires Accounted(h, pending) && i < |pending|
    ensures pending[i].id < |h.scheduled|
  {
    assert pending[i] in multiset(pending);
    assert pending[i] in multiset(h.scheduled);
  }

  lemma OrderedAfterSchedule(h: History, pending: seq<Pending>, now: int, lag: nat, x: Pending)
    requires Steady(h, pending, now, lag) && x.when > now && x.id == |h.scheduled|
    ensures Ordered(h, Inserted(PendingCompare, pending, x)) && Upcoming(Inserted(PendingCompare, pending, x), now - lag)
  {
    var pending' := Inserted(PendingCompare, pending, x);
    forall i | 0 <= i < |pending| ensures pending[i].id < x.id {
      PendingIds(h, pending, i);
    }
    InOrderAfterInsert(pending, x);
    InsertedItems(PendingCompare, pending, x);
    forall j | 0 <= j < |pending'|
      ensures pending'[j].when > now - lag && forall i :: 0 <= i < |h.fired| ==> Before(h.fired[i], pending'[j])
    {
      assert pending'[j] in pending';
    }
  }

  function WithScheduled(h: History, x: Pending): History {
    h.(scheduled := h.scheduled + [x])
  }

  /** Schedule: the new entry is not due, and everything stays in order. */
  lemma SteadyAfterSchedule(h: History, pending: seq<Pending>, now: int, lag: nat, x: Pending)
    requires Steady(h, pending, now, lag) && x.when > now && x.id == |h.scheduled|
    ensures Steady(WithScheduled(h, x), Inserted(PendingCompare, pending, x), now, lag)
    ensures Due(Inserted(PendingCompare, pending, x), now) == Due(pending, now)
  {
    OrderedAfterSchedule(h, pending, now, lag, x);
    DueAfterInsert(pending, x, now);
    AccountedAfterSchedule(h, pending, x);
  }

  lemma AccountedAfterSchedule(h: History, pending: seq<Pending>, x: Pending)
    requires Accounted(h, pending) && x.id == |h.scheduled|
    ensures Accounted(WithScheduled(h, x), Inserted(PendingCompare, pending, x))
  {
    InsertedItems(PendingCompare, pending, x);
  }

  /** What a handler's requests make of history and pending list. */
  function ScheduleAll(h: History, pending: seq<Pending>, requests: seq<Request>, now: int): (History, seq<Pending>)
    decreases |requests|
  {
    if requests == [] then (h, pending)
    else
      var x := Pending(requests[0].toCall, now + requests[0].fromNow, |h.scheduled|);
      ScheduleAll(WithScheduled(h, x), Inserted(PendingCompare, pending, x), requests[1..], now)
  }

  /** The entries for a handler's requests at a time, named from id on. */
  function EntriesOf(requests: seq<Request>, now: int, id: nat): seq<Pending> {
    seq(|requests|, k requires 0 <= k < |requests| => Pending(requests[k].toCall, now + requests[k].fromNow, id + k))
  }

  /** All requests are scheduled, in order, each for its time. */
  lemma {:induction false} AllAreScheduled(h: History, pending: seq<Pending>, requests: seq<Request>, now: int)
    ensures ScheduleAll(h, pending, requests, now).0 == h.(scheduled := h.scheduled + EntriesOf(requests, now, |h.scheduled|))
    decreases |requests|
  {
    if requests != [] {
      var x := Pending(requests[0].toCall, now + requests[0].fromNow, |h.scheduled|);
      AllAreScheduled(WithScheduled(h, x), Inserted(PendingCompare, pending, x), requests[1..], now);
      assert EntriesOf(requests, now, |h.scheduled|) == [x] + EntriesOf(requests[1..], now, |h.scheduled| + 1);
    }
  }

  /** The entries that interrupts fired at a time have asked for, in firing order. */
  function EntriesOfAll(respond: Handlers, fired: seq<Pending>, now: int, id: nat): seq<Pending> {
    if fired == [] then []
    else
      var n := |fired| - 1;
      var before := EntriesOfAll(respond, fired[..n], now, id);
      before + EntriesOf(respond(fired[n]).requests, now, id + |before|)
  }

  /** From h to h' interrupts have fired, all at this time; what their handlers asked for, and nothing else, has
      been scheduled. */
  ghost predicate Progress(respond: Handlers, h: History, h': History, now: int) {
    && h.fired <= h'.fired && |h.firedAt| == |h.fired| && |h'.firedAt| == |h'.fired| && h.firedAt <= h'.firedAt
    && (forall i :: |h.fired| <= i < |h'.fired| ==> h'.firedAt[i] == now)
    && h'.scheduled == h.scheduled + EntriesOfAll(respond, h'.fired[|h.fired|..], now, |h.scheduled|)
  }

  lemma {:induction false} ProgressMore(respond: Handlers, h: History, h1: History, now: int, next: Pending)
    requires Progress(respond, h, h1, now)
    ensures Progress(respond, h, History(h1.scheduled + EntriesOf(respond(next).requests, now, |h1.scheduled|),
                                         h1.fired + [next], h1.firedAt + [now]), now)
  {
    var n := |h.fired|;
    var new1, new2 := h1.fired[n..], (h1.fired + [next])[n..];
    assert new2 == new1 + [next] && new2[..|new1|] == new1;
  }

  lemma {:induction false} SteadyAfterAll(h: History, pending: seq<Pending>, requests: seq<Request>, now: int, lag: nat)
    requires Steady(h, pending, now, lag)
    ensures var (h', pending') := ScheduleAll(h, pending, requests, now);
      && Steady(h', pending', now, lag) && Due(pending', now) == Due(pending, now)
      && h'.fired == h.fired && h'.firedAt == h.firedAt
    decreases |requests|
  {
    if requests != [] {
      var x := Pending(requests[0].toCall, now + requests[0].fromNow, |h.scheduled|);
      SteadyAfterSchedule(h, pending, now, lag, x);
      SteadyAfterAll(WithScheduled(h, x), Inserted(PendingCompare, pending, x), requests[1..], now, lag);
    }
  }

  /** The first pending interrupt fires. */
  lemma SteadyAfterFire(h: History, pending: seq<Pending>, now: int)
    requires Steady(h, pending, now, SystemTick) && pending != [] && pending[0].when <= now
    ensures Steady(h.(fired := h.fired + [pending[0]], firedAt := h.firedAt + [now]), pending[1..], now, SystemTick)
    ensures Due(pending[1..], now) == Due(pending, now) - 1
  {
    assert pending == [pending[0]] + pending[1..];
  }

  /** The first pending interrupt is the first in time. */
  lemma FrontIsFirst(pending: seq<Pending>)
    requires InOrder(pending) && pending != []
    ensures forall i :: 0 <= i < |pending| ==> pending[i].when >= pending[0].when
  {
    assert forall i :: 0 < i < |pending| ==> Before(pending[0], pending[i]);
  }

  /** The interrupts fire in order of time, those of one time in the order in which they were scheduled,
      whatever is scheduled later included. */
  lemma FiringOrder(h: History, pending: seq<Pending>, now: int, i: nat, j: nat)
    requires Steady(h, pending, now, 0) && i < |h.scheduled| && j < |h.scheduled|
    requires Before(h.scheduled[i], h.scheduled[j]) && h.scheduled[j] in h.fired
    ensures exists a, b :: 0 <= a < b < |h.fired| && h.fired[a] == h.scheduled[i] && h.fired[b] == h.scheduled[j]
  {
    var x, y := h.scheduled[i], h.scheduled[j];
    assert x in multiset(h.scheduled);
    assert x in h.fired || x in pending;
    var b :| 0 <= b < |h.fired| && h.fired[b] == y;
    assert forall k :: 0 <= k < |pending| ==> Before(h.fired[b], pending[k]);
    var a :| 0 <= a < |h.fired| && h.fired[a] == x;
    assert forall k :: b < k < |h.fired| ==> Before(h.fired[b], h.fired[k]);
    assert a < b;
  }

  /** No interrupt is lost and none fires twice. */
  lemma FiresOnce(h: History, pending: seq<Pending>, i: nat)
    requires Accounted(h, pending) && i < |h.scheduled|
    ensures multiset(h.fired)[h.scheduled[i]] + multiset(pending)[h.scheduled[i]] == 1
  {
    var s, x := h.scheduled, h.scheduled[i];
    assert s == s[..i] + [x] + s[i + 1..];
    assert x !in s[..i] && x !in s[i + 1..];
    assert multiset(s)[x] == multiset(s[..i])[x] + multiset([x])[x] + multiset(s[i + 1..])[x];
  }

  /** One of the interrupts that fired, from number n on, asked for a yield. */
  ghost predicate Asked(respond: Handlers, fired: seq<Pending>, n: nat) {
    exists i :: n <= i < |fired| && respond(fired[i]).askYield
  }

  lemma {:induction false} AskedMore(respond: Handlers, fired: seq<Pending>, n: nat, x: Pending)
    requires n <= |fired|
    ensures Asked(respond, fired + [x], n) <==> Asked(respond, fired, n) || respond(x).askYield
  {
    var more := fired + [x];
    assert more[|fired|] == x;
    if Asked(respond, fired, n) {
      var i :| n <= i < |fired| && respond(fired[i]).askYield;
      assert more[i] == fired[i];
    }
  }

  /** What happens to the interrupt hardware from outside. */
  datatype Operation = Device(toCall: nat, fromNow: Delay) | Enable | Disable | UserInstruction | NothingReady

  /** What has happened by some time. */
  datatype Instant = Instant(h: History, now: int)

  /** What an operation does: a device's request is scheduled for its time; otherwise interrupts fire and their
      handlers' requests are scheduled. The clock moves by one tick at most, or to the interrupt that fires. */
  ghost predicate Does(op: Operation, respond: Handlers, a: Instant, b: Instant) {
    match op
    case Device(toCall, fromNow) =>
      b.now == a.now && b.h == a.h.(scheduled := a.h.scheduled + [Pending(toCall, a.now + fromNow, |a.h.scheduled|)])
    case Enable => Progress(respond, a.h, b.h, b.now) && (b == a || b.now == a.now + SystemTick || b.now == a.now + UserTick)
    case Disable => b == a
    case UserInstruction => Progress(respond, a.h, b.h, b.now) && b.now == a.now + UserTick
    case NothingReady => Progress(respond, a.h, b.h, b.now) && b.now >= a.now && (b == a || |b.h.fired| > |a.h.fired|)
  }

  /** An operation does its work and the machine goes on: if there is nothing to run, an interrupt has fired. */
  ghost predicate GoesOn(op: Operation, respond: Handlers, a: Instant, b: Instant) {
    Does(op, respond, a, b) && (op.NothingReady? ==> |b.h.fired| > |a.h.fired|)
  }

  /** The instants between the first operations. */
  ghost predicate IsTrace(ops: seq<Operation>, respond: Handlers, trace: seq<Instant>) {
    && 0 < |trace| <= |ops| + 1
    && forall i {:trigger GoesOn(ops[i], respond, trace[i], trace[i + 1])} :: 0 <= i < |trace| - 1 ==>
         GoesOn(ops[i], respond, trace[i], trace[i + 1])
  }

  lemma {:induction false} TraceMore(ops: seq<Operation>, respond: Handlers, trace: seq<Instant>, b: Instant)
    requires IsTrace(ops, respond, trace) && |trace| <= |ops| && GoesOn(ops[|trace| - 1], respond, trace[|trace| - 1], b)
    ensures IsTrace(ops, respond, trace + [b])
  {
    var trace' := trace + [b];
    forall i | 0 <= i < |trace| ensures GoesOn(ops[i], respond, trace'[i], trace'[i + 1]) {
      if i < |trace| - 1 {
        assert GoesOn(ops[i], respond, trace[i], trace[i + 1]);
      }
    }
  }

  class Interrupt {
    var level: Level
    var pending: seq<Pending>
    var inHandler: bool
    var yieldOnReturn: bool
    var status: Status
    var totalTicks: int
    var idleTicks: int
    var systemTicks: int
    var userTicks: int
    /** Names the next entry; the source tells entries apart by address. */
    var nextId: nat
    ghost var history: History

    ghost predicate Clock()
      reads this
    {
      totalTicks == idleTicks + systemTicks + userTicks && idleTicks >= 0 && systemTicks >= 0 && userTicks >= 0
    }

    /** What holds at any time, inside a handler too. */
    ghost predicate Going(lag: int)
      reads this
    {
      nextId == |history.scheduled| && Clock() && Steady(history, pending, totalTicks, lag)
    }

    /** Outside OneTick and Idle every pending interrupt is in the future. */
    ghost predicate Valid()
      reads this
    {
      Going(0) && !inHandler
    }

    constructor ()
      ensures Valid() && level == IntOff && status == SystemMode && pending == [] && totalTicks == 0 && !yieldOnReturn
      ensures history == History([], [], [])
    {
      level, pending, inHandler, yieldOnReturn, status := IntOff, [], false, false, SystemMode;
      totalTicks, idleTicks, systemTicks, userTicks := 0, 0, 0, 0;
      nextId := 0;
      history := History([], [], []);
    }

    method Schedule(toCall: nat, fromNow: Delay, ghost lag: nat)
      requires Going(lag)
      modifies this`pending, this`nextId, this`history
      ensures Going(lag)
      ensures var x := Pending(toCall, totalTicks + fromNow, old(nextId));
        history == WithScheduled(old(history), x) && pending == Inserted(PendingCompare, old(pending), x)
    {
      var x := Pending(toCall, totalTicks + fromNow, nextId);
      SteadyAfterSchedule(history, pending, totalTicks, lag, x);
      AddPending(toCall, fromNow);
    }

    /** What Schedule does to the list. */
    method AddPending(toCall: nat, fromNow: Delay)
      requires nextId == |history.scheduled|
      modifies this`pending, this`nextId, this`history
      ensures nextId == |history.scheduled|
      ensures var x := Pending(toCall, totalTicks + fromNow, old(nextId));
        && history == WithScheduled(old(history), x)
        && pending == Inserted(PendingCompare, old(pending), x)
    {
      var toOccur := Pending(toCall, totalTicks + fromNow, nextId);
      pending := Inserted(PendingCompare, pending, toOccur);
      history := WithScheduled(history, toOccur);
      nextId := nextId + 1;
    }

    method YieldOnReturn()
      requires inHandler
      modifies this`yieldOnReturn
      ensures yieldOnReturn
    {
      yieldOnReturn := true;
    }

    /** The handler runs: it schedules what it wants and may ask for a yield. */
    method CallBack(response: Response, ghost lag: nat)
      requires Going(lag) && inHandler
      modifies this`pending, this`nextId, this`history, this`yieldOnReturn
      ensures Going(lag) && Due(pending, totalTicks) == Due(old(pending), totalTicks)
      ensures history.fired == old(history).fired && history.firedAt == old(history).firedAt
      ensures (history, pending) == ScheduleAll(old(history), old(pending), response.requests, totalTicks)
      ensures history.scheduled == old(history).scheduled + EntriesOf(response.requests, totalTicks, |old(history).scheduled|)
      ensures yieldOnReturn == (old(yieldOnReturn) || response.askYield)
    {
      AllAreScheduled(history, pending, response.requests, totalTicks);
      SteadyAfterAll(history, pending, response.requests, totalTicks, lag);
      RunRequests(response.requests);
      if response.askYield {
        YieldOnReturn();
      }
    }

    method RunRequests(requests: seq<Request>)
      requires nextId == |history.scheduled|
      modifies this`pending, this`nextId, this`history
      ensures nextId == |history.scheduled|
      ensures (history, pending) == ScheduleAll(old(history), old(pending), requests, totalTicks)
    {
      ghost var goal := ScheduleAll(history, pending, requests, totalTicks);
      for k := 0 to |requests|
        invariant nextId == |history.scheduled|
        invariant ScheduleAll(history, pending, requests[k..], totalTicks) == goal
      {
        assert requests[k..][0] == requests[k] && requests[k..][1..] == requests[k + 1..];
        AddPending(requests[k].toCall, requests[k].fromNow);
      }
    }

    /** Takes the first pending interrupt off the list; it fires now. */
    method TakeNext() returns (next: Pending)
      requires Going(SystemTick) && pending != [] && pending[0].when <= totalTicks
      modifies this`pending, this`history
      ensures Going(SystemTick) && next == old(pending)[0] && pending == old(pending)[1..]
      ensures history == old(history).(fired := old(history).fired + [next], firedAt := old(history).firedAt + [totalTicks])
      ensures Due(pending, totalTicks) == Due(old(pending), totalTicks) - 1
    {
      SteadyAfterFire(history, pending, totalTicks);
      next := pending[0];
      pending := pending[1..];
      history := history.(fired := history.fired + [next], firedAt := history.firedAt + [totalTicks]);
    }

    method FireNext(respond: Handlers)
      requires Going(SystemTick) && inHandler && pending != [] && pending[0].when <= totalTicks
      modifies this`pending, this`nextId, this`history, this`yieldOnReturn
      ensures Going(SystemTick) && Due(pending, totalTicks) == Due(old(pending), totalTicks) - 1
      ensures var requests, n := respond(old(pending)[0]).requests, |old(history).scheduled|;
        && history.fired == old(history).fired + [old(pending)[0]] && history.firedAt == old(history).firedAt + [totalTicks]
        && history.scheduled == old(history).scheduled + EntriesOf(requests, totalTicks, n)
        && |history.scheduled| == n + |requests|
        && forall k :: 0 <= k < |requests| ==> history.scheduled[n + k] == Pending(requests[k].toCall, totalTicks + requests[k].fromNow, n + k)
      ensures yieldOnReturn == (old(yieldOnReturn) || respond(old(pending)[0]).askYield)
    {
      var next := TakeNext();
      CallBack(respond(next), SystemTick);
    }

    /** Fires what is due. The loop ends although handlers schedule more: those are not due yet. */
    method FireDue(respond: Handlers)
      requires Going(SystemTick) && !inHandler && pending != [] && pending[0].when <= totalTicks
      modifies this`pending, this`nextId, this`history, this`yieldOnReturn, this`inHandler
      ensures Valid() && |history.fired| > |old(history).fired| && Progress(respond, old(history), history, totalTicks)
      ensures yieldOnReturn == (old(yieldOnReturn) || Asked(respond, history.fired, |old(history).fired|))
    {
      inHandler := true;
      while true
        invariant Going(SystemTick) && inHandler && pending != [] && pending[0].when <= totalTicks
        invariant Progress(respond, old(history), history, totalTicks)
        invariant yieldOnReturn == (old(yieldOnReturn) || Asked(respond, history.fired, |old(history).fired|))
        decreases Due(pending, totalTicks)
      {
        AskedMore(respond, history.fired, |old(history).fired|, pending[0]);
        ProgressMore(respond, old(history), history, totalTicks, pending[0]);
        FireNext(respond);
        if pending == [] || pending[0].when > totalTicks {
          break;
        }
      }
      if pending != [] {
        FrontIsFirst(pending);
      }
      inHandler := false;
    }

    /** Returns whether any interrupt fired. */
    method CheckIfDue(advanceClock: bool, respond: Handlers) returns (any: bool)
      requires Going(if advanceClock then 0 else SystemTick) && !inHandler && level == IntOff
      modifies this`pending, this`nextId, this`history, this`yieldOnReturn, this`inHandler, this`totalTicks, this`idleTicks
      ensures Valid() && Progress(respond, old(history), history, totalTicks)
      ensures idleTicks == old(idleTicks) + totalTicks - old(totalTicks)
      ensures any <==> old(pending) != [] && (advanceClock || old(pending)[0].when <= old(totalTicks))
      ensures any <==> |history.fired| > |old(history).fired|
      ensures !any ==> pending == old(pending) && history == old(history)
      ensures totalTicks == if advanceClock && old(pending) != [] then old(pending)[0].when else old(totalTicks)
      ensures yieldOnReturn == (old(yieldOnReturn) || Asked(respond, history.fired, |old(history).fired|))
    {
      if pending == [] {
        return false;
      }
      FrontIsFirst(pending);
      var next := pending[0];
      if next.when > totalTicks {
        if !advanceClock {
          return false;
        }
        idleTicks := idleTicks + (next.when - totalTicks);
        totalTicks := next.when;
      }
      FireDue(respond);
      return true;
    }

    method AdvanceTime()
      requires Valid()
      modifies this`totalTicks, this`systemTicks, this`userTicks
      ensures Going(SystemTick)
      ensures totalTicks == old(totalTicks) + if status == SystemMode then SystemTick else UserTick
      ensures systemTicks == old(systemTicks) + if status == SystemMode then SystemTick else 0
      ensures userTicks == old(userTicks) + if status == SystemMode then 0 else UserTick
    {
      if status == SystemMode {
        totalTicks := totalTicks + SystemTick;
        systemTicks := systemTicks + SystemTick;
      } else {
        totalTicks := totalTicks + UserTick;
        userTicks := userTicks + UserTick;
      }
    }

    /** Advances the clock, fires what is due, and says whether the current thread must yield. */
    method OneTick(respond: Handlers) returns (switched: bool)
      requires Valid()
      modifies this
      ensures Valid() && level == IntOn && status == old(status) && !yieldOnReturn
      ensures Progress(respond, old(history), history, totalTicks)
      ensures totalTicks == old(totalTicks) + if old(status) == SystemMode then SystemTick else UserTick
      ensures systemTicks == old(systemTicks) + if old(status) == SystemMode then SystemTick else 0
      ensures userTicks == old(userTicks) + (if old(status) == SystemMode then 0 else UserTick) && idleTicks == old(idleTicks)
      ensures switched == (old(yieldOnReturn) || Asked(respond, history.fired, |old(history).fired|))
    {
      AdvanceTime();
      CheckDisabled(respond);
      switched := yieldOnReturn;
      if yieldOnReturn {
        yieldOnReturn := false;
      }
    }

    method CheckDisabled(respond: Handlers)
      requires Going(SystemTick) && !inHandler
      modifies this
      ensures Valid() && level == IntOn && Progress(respond, old(history), history, totalTicks)
      ensures status == old(status) && totalTicks == old(totalTicks)
      ensures systemTicks == old(systemTicks) && userTicks == old(userTicks) && idleTicks == old(idleTicks)
      ensures yieldOnReturn == (old(yieldOnReturn) || Asked(respond, history.fired, |old(history).fired|))
    {
      level := IntOff;
      var any := CheckIfDue(false, respond);
      level := IntOn;
    }

    method SetLevel(now: Level, respond: Handlers) returns (was: Level, switched: bool)
      requires Valid()
      modifies this
      ensures Valid() && level == now && was == old(level) && status == old(status)
      ensures Progress(respond, old(history), history, totalTicks)
      ensures now == IntOn && was == IntOff ==>
                && totalTicks == old(totalTicks) + (if status == SystemMode then SystemTick else UserTick)
                && switched == (old(yieldOnReturn) || Asked(respond, history.fired, |old(history).fired|))
      ensures !(now == IntOn && was == IntOff) ==>
                totalTicks == old(totalTicks) && history == old(history) && pending == old(pending) && !switched
    {
      was, switched := level, false;
      level := now;
      if now == IntOn && was == IntOff {
        switched := OneTick(respond);
      }
    }

    /** Nothing is ready to run: the clock jumps to the next interrupt. Without one the machine halts. */
    method Idle(respond: Handlers) returns (halted: bool)
      requires Valid() && level == IntOff
      modifies this
      ensures Valid() && level == IntOff && Progress(respond, old(history), history, totalTicks)
      ensures halted <==> old(pending) == []
      ensures halted ==> totalTicks == old(totalTicks) && history == old(history) && pending == [] && status == IdleMode
      ensures !halted ==> status == SystemMode && totalTicks == old(pending)[0].when > old(totalTicks)
      ensures idleTicks == old(idleTicks) + totalTicks - old(totalTicks)
      ensures systemTicks == old(systemTicks) && userTicks == old(userTicks)
      ensures yieldOnReturn == (old(yieldOnReturn) || Asked(respond, history.fired, |old(history).fired|))
      ensures !halted ==> |history.fired| > |old(history).fired|
    {
      status := IdleMode;
      var any := CheckIfDue(true, respond);
      if any {
        status := SystemMode;
        return false;
      }
      return true;
    }

    ghost function Now(): Instant
      reads this
    {
      Instant(history, totalTicks)
    }

    method DeviceSchedules(toCall: nat, fromNow: Delay, ghost respond: Handlers)
      requires Valid()
      modifies this`pending, this`nextId, this`history
      ensures Valid() && Does(Device(toCall, fromNow), respond, old(Now()), Now())
    {
      Schedule(toCall, fromNow, 0);
    }

    method Enables(respond: Handlers)
      requires Valid()
      modifies this
      ensures Valid() && Does(Enable, respond, old(Now()), Now())
    {
      var was, switched := SetLevel(IntOn, respond);
    }

    method ExecutesInstruction(respond: Handlers)
      requires Valid()
      modifies this
      ensures Valid() && Does(UserInstruction, respond, old(Now()), Now())
    {
      status := UserMode;
      var switched := OneTick(respond);
    }

    method Idles(respond: Handlers) returns (halted: bool)
      requires Valid()
      modifies this
      ensures Valid() && Does(NothingReady, respond, old(Now()), Now())
      ensures (halted <==> old(pending) == []) && (halted ==> pending == [] && Now() == old(Now()))
      ensures !halted ==> GoesOn(NothingReady, respond, old(Now()), Now())
    {
      level := IntOff;
      halted := Idle(respond);
    }

    method Perform(op: Operation, respond: Handlers) returns (halted: bool)
      requires Valid()
      modifies this
      ensures Valid() && Does(op, respond, old(Now()), Now())
      ensures (halted <==> op.NothingReady? && old(pending) == []) && (halted ==> pending == [] && Now() == old(Now()))
      ensures !halted ==> GoesOn(op, respond, old(Now()), Now())
    {
      halted := false;
      match op {
        case Device(toCall, fromNow) => DeviceSchedules(toCall, fromNow, respond);
        case Enable => Enables(respond);
        case Disable => var was, switched := SetLevel(IntOff, respond);
        case UserInstruction => ExecutesInstruction(respond);
        case NothingReady => halted := Idles(respond);
      }
    }

    /** Any number of operations, until the machine halts: each schedules what the device or the handlers ask for, and
        nothing else. */
    method Execute(ops: seq<Operation>, respond: Handlers) returns (ghost trace: seq<Instant>)
      requires Valid()
      modifies this
      ensures Valid() && IsTrace(ops, respond, trace) && trace[0] == old(Now()) && trace[|trace| - 1] == Now()
      ensures |trace| <= |ops| ==> ops[|trace| - 1].NothingReady? && pending == []
    {
      trace := [Now()];
      for k := 0 to |ops|
        invariant Valid() && IsTrace(ops, respond, trace) && |trace| == k + 1 && trace[0] == old(Now()) && trace[k] == Now()
      {
        var halted := Perform(ops[k], respond);
        if halted {
          return;
        }
        TraceMore(ops, respond, trace, Now());
        trace := trace + [Now()];
      }
    }
  }
}
