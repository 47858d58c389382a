/** The timing of the simulated disk (code/machine/disk.cc:113-268).

    Each track has 32 sectors; one passes under the head every RotationTime ticks, the heads move one
    track per SeekTime ticks, and a track buffer holds what has passed since the last seek. */
module DiskTiming {
  import opened Base
  import opened Disks

  const RotationTime := 500
  const SeekTime := 500

  type SectorNumber = n: int | 0 <= n < NumSectors

  // ---------- The rotation, by itself ----------

  /** The given sector of the current track comes under the head at time p, and is past it one
      RotationTime later. */
  predicate Arrives(sector: int, p: int) {
    p >= 0 && p % RotationTime == 0 && (p / RotationTime) % SectorsPerTrack == sector % SectorsPerTrack
  }

  /** The sector has gone by completely between the two times. */
  ghost predicate PassedBetween(sector: int, from: int, to: int) {
    exists p :: Arrives(sector, p) && from <= p && p + RotationTime <= to
  }

  // ---------- The computation ----------

  function SeekTicks(lastSector: SectorNumber, newSector: SectorNumber): nat {
    Abs(newSector / SectorsPerTrack - lastSector / SectorsPerTrack) * SeekTime
  }

  /** The ticks from the end of the seek to the next sector boundary. */
  function ToBoundary(t: nat): nat {
    var over := t % RotationTime;
    if over > 0 then RotationTime - over else 0
  }

  function ModuloDiff(to: nat, from: nat): nat {
    (to % SectorsPerTrack - from % SectorsPerTrack + SectorsPerTrack) % SectorsPerTrack
  }

  /** The first sector boundary after the seek. */
  function TimeAfter(now: nat, lastSector: SectorNumber, newSector: SectorNumber): nat {
    var t := now + SeekTicks(lastSector, newSector);
    t + ToBoundary(t)
  }

  predicate FromBuffer(now: nat, lastSector: SectorNumber, bufferInit: nat, newSector: SectorNumber, writing: bool)
    requires bufferInit <= now
  {
    && !writing && SeekTicks(lastSector, newSector) == 0
    && (TimeAfter(now, lastSector, newSector) - bufferInit) / RotationTime > ModuloDiff(newSector, bufferInit / RotationTime)
  }

  function ComputeLatency(now: nat, lastSector: SectorNumber, bufferInit: nat, newSector: SectorNumber, writing: bool): nat
    requires bufferInit <= now
  {
    if FromBuffer(now, lastSector, bufferInit, newSector, writing) then RotationTime
    else
      var after := TimeAfter(now, lastSector, newSector);
      after - now + ModuloDiff(newSector, after / RotationTime) * RotationTime + RotationTime
  }

  // ---------- What it computes ----------

  lemma BoundaryIsNext(t: nat)
    ensures (t + ToBoundary(t)) % RotationTime == 0
    ensures ToBoundary(t) < RotationTime
  {
  }

  lemma DiffIsDistance(to: nat, from: nat)
    ensures 0 <= ModuloDiff(to, from) < SectorsPerTrack
    ensures (from + ModuloDiff(to, from)) % SectorsPerTrack == to % SectorsPerTrack
  {
  }

  lemma NotBefore(to: nat, from: nat, d: nat)
    requires d < ModuloDiff(to, from)
    ensures (from + d) % SectorsPerTrack != to % SectorsPerTrack
  {
  }

  /** From a sector boundary on, the sector arrives after the difference of positions, and not before. */
  lemma FirstArrival(sector: nat, t: nat)
    requires t % RotationTime == 0
    ensures var p := t + ModuloDiff(sector, t / RotationTime) * RotationTime;
      Arrives(sector, p) && forall q :: t <= q < p ==> !Arrives(sector, q)
  {
    var n := t / RotationTime;
    var d := ModuloDiff(sector, n);
    DiffIsDistance(sector, n);
    var p := t + d * RotationTime;
    assert p == (n + d) * RotationTime;
    forall q | t <= q < p && q % RotationTime == 0 ensures !Arrives(sector, q) {
      var k := q / RotationTime - n;
      assert 0 <= k < d;
      NotBefore(sector, n, k);
    }
  }

  /** Without the track buffer a request ends exactly one sector time after the first arrival of the
      sector under the head once the seek is over. */
  lemma EndsAfterFirstPass(now: nat, lastSector: SectorNumber, bufferInit: nat, newSector: SectorNumber, writing: bool)
    requires bufferInit <= now && !FromBuffer(now, lastSector, bufferInit, newSector, writing)
    ensures var seeked := now + SeekTicks(lastSector, newSector);
      var p := now + ComputeLatency(now, lastSector, bufferInit, newSector, writing) - RotationTime;
      && p >= seeked && Arrives(newSector, p)
      && forall q :: seeked <= q < p ==> !Arrives(newSector, q)
  {
    var seeked := now + SeekTicks(lastSector, newSector);
    var after := TimeAfter(now, lastSector, newSector);
    BoundaryIsNext(seeked);
    FirstArrival(newSector, after);
    assert forall q :: seeked <= q < after ==> q % RotationTime != 0;
  }

  /** A sector has gone by since a boundary exactly if enough sector times have. */
  lemma PassedIff(sector: nat, from: nat, to: nat)
    requires from % RotationTime == 0 && from <= to
    ensures PassedBetween(sector, from, to) <==> (to - from) / RotationTime > ModuloDiff(sector, from / RotationTime)
  {
    var d := ModuloDiff(sector, from / RotationTime);
    var first := from + d * RotationTime;
    FirstArrival(sector, from);
    if PassedBetween(sector, from, to) {
      var p :| Arrives(sector, p) && from <= p && p + RotationTime <= to;
      assert p >= first;
    }
    if (to - from) / RotationTime > d {
      assert first + RotationTime <= to;
    }
  }

  /** The track buffer serves exactly the reads on the current track whose sector has gone by since the
      buffer was started, counting the sector under the head as gone by; it is in the buffer when the
      request ends. */
  lemma BufferHolds(now: nat, lastSector: SectorNumber, bufferInit: nat, newSector: SectorNumber, writing: bool)
    requires bufferInit <= now && bufferInit % RotationTime == 0
    ensures FromBuffer(now, lastSector, bufferInit, newSector, writing) <==>
      && !writing && newSector / SectorsPerTrack == lastSector / SectorsPerTrack
      && PassedBetween(newSector, bufferInit, now + ToBoundary(now))
    ensures FromBuffer(now, lastSector, bufferInit, newSector, writing) ==>
      PassedBetween(newSector, bufferInit, now + ComputeLatency(now, lastSector, bufferInit, newSector, writing))
  {
    BoundaryIsNext(now);
    PassedIff(newSector, bufferInit, now + ToBoundary(now));
    PassedIff(newSector, bufferInit, now + RotationTime);
  }

  /** When the buffer serves a read, its sector has gone by at the time of the request, except exactly if
      its first pass since the buffer was started is under way. */
  lemma ServedEarlyIff(now: nat, lastSector: SectorNumber, bufferInit: nat, newSector: SectorNumber)
    requires bufferInit <= now && bufferInit % RotationTime == 0
    requires FromBuffer(now, lastSector, bufferInit, newSector, false)
    ensures var first := bufferInit + ModuloDiff(newSector, bufferInit / RotationTime) * RotationTime;
      !PassedBetween(newSector, bufferInit, now) <==> first < now < first + RotationTime
  {
    BoundaryIsNext(now);
    PassedIff(newSector, bufferInit, now);
  }

  /** An input on which it is served early: the first read of sector 0, after one system tick. */
  lemma ServedEarly()
    ensures FromBuffer(10, 0, 0, 0, false) && !PassedBetween(0, 0, 10)
  {
  }

  /** The end of the seek: 500 ticks for each track crossed, in either direction. */
  function SeekEnd(now: nat, lastSector: SectorNumber, newSector: SectorNumber): nat {
    var here, there := lastSector / 32, newSector / 32;
    if there >= here then now + 500 * (there - here) else now + 500 * (here - there)
  }

  /** The buffer is started at the first sector boundary at or after the end of the seek. */
  lemma TimeAfterIs(now: nat, lastSector: SectorNumber, newSector: SectorNumber)
    ensures TimeAfter(now, lastSector, newSector) % 500 == 0
    ensures SeekEnd(now, lastSector, newSector) <= TimeAfter(now, lastSector, newSector) < SeekEnd(now, lastSector, newSector) + 500
  {
    BoundaryIsNext(now + SeekTicks(lastSector, newSector));
  }

  /** The whole computation, without its formulas: a read on the same track whose sector has gone by, up to the next
      boundary, since the buffer was started, takes exactly one sector time; any other request ends one sector time
      after the sector first arrives at or after the end of the seek. */
  lemma LatencyIs(now: nat, lastSector: SectorNumber, bufferInit: nat, newSector: SectorNumber, writing: bool, boundary: nat)
    requires bufferInit <= now && bufferInit % 500 == 0 && boundary % 500 == 0 && now <= boundary < now + 500
    ensures var latency := ComputeLatency(now, lastSector, bufferInit, newSector, writing);
      if !writing && newSector / 32 == lastSector / 32 && PassedBetween(newSector, bufferInit, boundary) then latency == 500
      else
        var p := now + latency - 500;
        && p >= SeekEnd(now, lastSector, newSector) && Arrives(newSector, p)
        && forall q :: SeekEnd(now, lastSector, newSector) <= q < p ==> !Arrives(newSector, q)
  {
    BoundaryIsNext(now);
    assert boundary == now + ToBoundary(now);
    BufferHolds(now, lastSector, bufferInit, newSector, writing);
    if !FromBuffer(now, lastSector, bufferInit, newSector, writing) {
      EndsAfterFirstPass(now, lastSector, bufferInit, newSector, writing);
    }
  }

  const MaxLatency := (NumTracks - 1) * SeekTime + (RotationTime - 1) + (SectorsPerTrack - 1) * RotationTime + RotationTime

  lemma LatencyBounds(now: nat, lastSector: SectorNumber, bufferInit: nat, newSector: SectorNumber, writing: bool)
    requires bufferInit <= now
    ensures RotationTime <= ComputeLatency(now, lastSector, bufferInit, newSector, writing) <= MaxLatency
  {
  }

  /** Both bounds are reached. */
  lemma ShortestLatency()
    ensures ComputeLatency(0, 0, 0, 0, true) == RotationTime
  {
  }

  lemma LongestLatency(last: SectorNumber)
    requires last == NumSectors - 1
    ensures ComputeLatency(1, 0, 0, last, true) == MaxLatency
  {
  }

  // ---------- The disk object ----------

  class Disk {
    var active: bool
    var lastSector: SectorNumber
    var bufferInit: nat
    /** When the last request ends. */
    ghost var endsAt: nat

    /** The track buffer was started at a sector boundary, before the last request ended. */
    ghost predicate Valid()
      reads this
    {
      bufferInit % RotationTime == 0 && bufferInit <= endsAt
    }

    constructor ()
      ensures Valid() && !active && lastSector == 0 && bufferInit == 0 && endsAt == 0
    {
      active, lastSector, bufferInit, endsAt := false, 0, 0, 0;
    }

    method UpdateLast(now: nat, newSector: SectorNumber)
      modifies this
      ensures lastSector == newSector && active == old(active) && endsAt == old(endsAt)
      ensures bufferInit == if newSector / SectorsPerTrack == old(lastSector) / SectorsPerTrack then old(bufferInit)
                            else TimeAfter(now, old(lastSector), newSector)
      ensures newSector / 32 != old(lastSector) / 32 ==>
                bufferInit % 500 == 0 && SeekEnd(now, old(lastSector), newSector) <= bufferInit < SeekEnd(now, old(lastSector), newSector) + 500
    {
      TimeAfterIs(now, lastSector, newSector);
      var seek := SeekTicks(lastSector, newSector);
      if seek != 0 {
        bufferInit := TimeAfter(now, lastSector, newSector);
      }
      lastSector := newSector;
    }

    /** ReadRequest and WriteRequest, but for the transfer: returns the ticks to the interrupt. The last
        request has ended, since its interrupt does not come early. */
    method Request(now: nat, sector: SectorNumber, writing: bool) returns (ticks: nat)
      requires Valid() && !active && endsAt <= now
      modifies this
      ensures Valid() && active && lastSector == sector && endsAt == now + ticks
      ensures RotationTime <= ticks <= MaxLatency
      ensures ticks == ComputeLatency(now, old(lastSector), old(bufferInit), sector, writing)
      ensures bufferInit == if sector / SectorsPerTrack == old(lastSector) / SectorsPerTrack then old(bufferInit)
                            else TimeAfter(now, old(lastSector), sector)
    {
      ticks := ComputeLatency(now, lastSector, bufferInit, sector, writing);
      LatencyBounds(now, lastSector, bufferInit, sector, writing);
      BoundaryIsNext(now + SeekTicks(lastSector, sector));
      active := true;
      UpdateLast(now, sector);
      endsAt := now + ticks;
    }

    method CallBack()
      requires Valid()
      modifies this`active
      ensures !active
    {
      active := false;
    }
  }
}
