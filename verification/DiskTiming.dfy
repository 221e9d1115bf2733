/** How long disk requests take: seek, rotation and the track buffer. */
module DiskTiming {
  import opened Bytes
  import opened SynchDisks
  import EventClocks
  import Interrupts

  const RotationTime: nat := 500
  const SeekTime: nat := 500

  function Abs(n: int): nat {
    if n < 0 then -n else n
  }

  /** Integer division of C, which truncates toward zero. */
  function TruncDiv(a: int, b: nat): int
    requires b > 0
  {
    if a >= 0 then a / b else -((-a) / b)
  }

  /** Where the head is, when the track buffer started being loaded, and when the last request is done. */
  datatype Head = Head(lastSector: nat, bufferInit: nat, doneAt: nat)

  function Seek(h: Head, newSector: nat): nat {
    Abs(newSector / SectorsPerTrack - h.lastSector / SectorsPerTrack) * SeekTime
  }

  /** How long the head takes from track `a` to track `b`. */
  ghost function Crossing(a: nat, b: nat): nat {
    Seek(Head(a * SectorsPerTrack, 0, 0), b * SectorsPerTrack)
  }

  /** Only the tracks matter for a seek. */
  lemma SeekByTrack(h: Head, newSector: nat)
    ensures Seek(h, newSector) == Crossing(h.lastSector / SectorsPerTrack, newSector / SectorsPerTrack)
  {
  }

  /** A seek to the same track takes no time, one to a neighbouring track takes SeekTime either way, */
  lemma CrossOne(a: nat)
    ensures Crossing(a, a) == 0 && Crossing(a, a + 1) == SeekTime && Crossing(a + 1, a) == SeekTime
  {
  }

  /** and a longer one takes the sum of the seeks to and from any track on the way. */
  lemma CrossAdds(a: nat, b: nat, c: nat)
    requires a <= b <= c || c <= b <= a
    ensures Crossing(a, c) == Crossing(a, b) + Crossing(b, c)
  {
  }

  /** So the time of a seek is the number of tracks that are crossed, times SeekTime. */
  lemma {:induction false} CrossMany(a: nat, n: nat)
    ensures Crossing(a, a + n) == n * SeekTime == Crossing(a + n, a)
    decreases n
  {
    CrossOne(a + n);
    if n > 0 {
      CrossMany(a, n - 1);
      CrossOne(a + n - 1);
      CrossAdds(a, a + n - 1, a + n);
      CrossAdds(a + n, a + n - 1, a);
    }
  }

  /** The time from the end of the seek to the next sector boundary. */
  function Rotation(now: nat, seek: nat): (r: nat)
    ensures r < RotationTime && (now + seek + r) % RotationTime == 0
  {
    var over := (now + seek) % RotationTime;
    if over > 0 then RotationTime - over else 0
  }

  /** Sectors of rotational delay between two positions. */
  function ModuloDiff(to: nat, from: nat): (d: nat)
    ensures d < SectorsPerTrack && (from + d) % SectorsPerTrack == to % SectorsPerTrack
  {
    (to % SectorsPerTrack - from % SectorsPerTrack + SectorsPerTrack) % SectorsPerTrack
  }

  /** When the head has arrived on the track, at a sector boundary. */
  function TimeAfter(h: Head, now: nat, newSector: nat): (t: nat)
    ensures t % RotationTime == 0
  {
    now + Seek(h, newSector) + Rotation(now, Seek(h, newSector))
  }

  predicate Buffered(h: Head, now: nat, newSector: nat, writing: bool) {
    && !writing
    && Seek(h, newSector) == 0
    && TruncDiv(TimeAfter(h, now, newSector) - h.bufferInit, RotationTime) > ModuloDiff(newSector, h.bufferInit / RotationTime)
  }

  /** The latency without the track buffer. */
  function PlainLatency(h: Head, now: nat, newSector: nat): nat {
    var seek := Seek(h, newSector);
    seek + Rotation(now, seek) + ModuloDiff(newSector, TimeAfter(h, now, newSector) / RotationTime) * RotationTime + RotationTime
  }

  function Latency(h: Head, now: nat, newSector: nat, writing: bool): nat {
    if Buffered(h, now, newSector, writing) then RotationTime else PlainLatency(h, now, newSector)
  }

  /** The head after a request. */
  function Request(h: Head, now: nat, newSector: nat, writing: bool): Head {
    Head(newSector, if Seek(h, newSector) != 0 then TimeAfter(h, now, newSector) else h.bufferInit,
         now + Latency(h, now, newSector, writing))
  }

  /** A request that is not served from the buffer completes on a sector boundary, with the requested
      sector as the last one that passed under the head. */
  lemma CompletesPastSector(h: Head, now: nat, newSector: nat)
    ensures var done := now + PlainLatency(h, now, newSector);
            && done % RotationTime == 0
            && done >= RotationTime && (done / RotationTime - 1) % SectorsPerTrack == newSector % SectorsPerTrack
  {
    var t := TimeAfter(h, now, newSector) / RotationTime;
    var d := ModuloDiff(newSector, t);
    assert TimeAfter(h, now, newSector) == t * RotationTime;
    assert now + PlainLatency(h, now, newSector) == (t + d + 1) * RotationTime;
  }

  /** Bounds on every latency; the buffer is never slower. */
  lemma LatencyBounds(h: Head, now: nat, newSector: nat, writing: bool)
    requires h.lastSector < NumSectors && newSector < NumSectors
    ensures RotationTime <= Latency(h, now, newSector, writing) < (SectorsPerTrack + NumTracks) * RotationTime
    ensures Latency(h, now, newSector, writing) <= PlainLatency(h, now, newSector)
  {
  }

  function Apart(a: nat, b: nat): nat {
    if a < b then b - a else a - b
  }

  lemma SeekIs(h: Head, newSector: nat)
    ensures Seek(h, newSector) == Apart(h.lastSector / SectorsPerTrack, newSector / SectorsPerTrack) * SeekTime
  {
    var a, b := h.lastSector / SectorsPerTrack, newSector / SectorsPerTrack;
    SeekByTrack(h, newSector);
    CrossMany(if a < b then a else b, Apart(a, b));
  }

  /** A request that is not served from the buffer takes the time to cross the tracks and to pass the sector, and
      less than a whole turn and one sector on top of it; one that is takes the time to pass a sector. */
  lemma LatencyByTracks(h: Head, now: nat, newSector: nat, writing: bool)
    ensures var least := Apart(h.lastSector / SectorsPerTrack, newSector / SectorsPerTrack) * SeekTime + RotationTime;
            if Buffered(h, now, newSector, writing) then Latency(h, now, newSector, writing) == RotationTime
            else least <= Latency(h, now, newSector, writing) < least + (SectorsPerTrack + 1) * RotationTime
  {
    SeekIs(h, newSector);
  }

  /** When the head stays on the track the buffer goes on as it was; otherwise it starts at the first sector boundary
      after the seek. */
  lemma BufferRestarts(h: Head, now: nat, newSector: nat, writing: bool)
    ensures var h' := Request(h, now, newSector, writing);
            var tracks := Apart(h.lastSector / SectorsPerTrack, newSector / SectorsPerTrack);
            && h'.lastSector == newSector && h'.doneAt == now + Latency(h, now, newSector, writing)
            && if tracks == 0 then h'.bufferInit == h.bufferInit
               else h'.bufferInit % RotationTime == 0 && now + tracks * SeekTime <= h'.bufferInit < now + tracks * SeekTime + RotationTime
  {
    SeekIs(h, newSector);
  }

  /** What holds between requests. */
  ghost predicate Settled(h: Head) {
    h.lastSector < NumSectors && h.bufferInit % RotationTime == 0 && h.bufferInit <= h.doneAt
  }

  /** Sector slot `w` of the rotation passed completely under the head between two times. */
  ghost predicate Passed(w: nat, from: nat, to: nat) {
    from <= w * RotationTime && (w + 1) * RotationTime <= to
  }

  /** The track buffer serves a read exactly when the head stays on the track and the sector has
      passed completely under it since the buffer started being loaded. */
  lemma BufferHasSector(h: Head, now: nat, newSector: nat, writing: bool)
    requires Settled(h) && h.doneAt <= now
    ensures Buffered(h, now, newSector, writing) <==>
            && !writing
            && h.lastSector / SectorsPerTrack == newSector / SectorsPerTrack
            && exists w: nat :: w % SectorsPerTrack == newSector % SectorsPerTrack && Passed(w, h.bufferInit, TimeAfter(h, now, newSector))
  {
    var b, t := h.bufferInit / RotationTime, TimeAfter(h, now, newSector) / RotationTime;
    var d := ModuloDiff(newSector, b);
    assert h.bufferInit == b * RotationTime && TimeAfter(h, now, newSector) == t * RotationTime;
    assert TruncDiv(TimeAfter(h, now, newSector) - h.bufferInit, RotationTime) == t - b;
    if t - b > d {
      assert (b + d) % SectorsPerTrack == newSector % SectorsPerTrack && Passed(b + d, h.bufferInit, TimeAfter(h, now, newSector));
    }
    forall w: nat | w % SectorsPerTrack == newSector % SectorsPerTrack && Passed(w, h.bufferInit, TimeAfter(h, now, newSector))
      ensures t - b > d
    {
      LeastDelay(b, d, w, newSector);
    }
  }

  lemma LeastDelay(b: nat, d: nat, w: nat, s: nat)
    requires d < SectorsPerTrack && (b + d) % SectorsPerTrack == s % SectorsPerTrack == w % SectorsPerTrack && b <= w
    ensures b + d <= w
  {
  }

  lemma RequestSettles(h: Head, now: nat, newSector: nat, writing: bool)
    requires Settled(h) && h.doneAt <= now && newSector < NumSectors
    ensures Settled(Request(h, now, newSector, writing))
  {
  }

  datatype Access = Access(now: nat, sector: nat, writing: bool)

  /** Requests one at a time, each made when the one before is done. */
  ghost predicate Orderly(h: Head, accesses: seq<Access>)
    decreases |accesses|
  {
    accesses != [] ==>
      var a := accesses[0];
      h.doneAt <= a.now && a.sector < NumSectors && Orderly(Request(h, a.now, a.sector, a.writing), accesses[1..])
  }

  function RunFrom(h: Head, accesses: seq<Access>): Head
    decreases |accesses|
  {
    if accesses == [] then h
    else RunFrom(Request(h, accesses[0].now, accesses[0].sector, accesses[0].writing), accesses[1..])
  }

  /** After any run the buffer was started on a sector boundary that is not in the future. */
  lemma {:induction false} RunSettles(h: Head, accesses: seq<Access>)
    requires Settled(h) && Orderly(h, accesses)
    ensures Settled(RunFrom(h, accesses))
    decreases |accesses|
  {
    if accesses != [] {
      var a := accesses[0];
      RequestSettles(h, a.now, a.sector, a.writing);
      RunSettles(Request(h, a.now, a.sector, a.writing), accesses[1..]);
    }
  }

  /** A request has been made: one disk interrupt is scheduled for the time at which it is done, and for no other. */
  ghost predicate Started(h: Head, c: EventClocks.Clock, sector: nat, writing: bool, h': Head, c': EventClocks.Clock) {
    && c.total >= 0 && h' == Request(h, c.total, sector, writing)
    && c' == EventClocks.Schedule(c, EventClocks.Request(h'.doneAt - c.total, EventClocks.DiskInt))
    && |c'.log| == |c.log| + 1 && c'.log[|c.log|].when == h'.doneAt && c'.log[|c.log|].kind == EventClocks.DiskInt
  }

  /** The disk: its sectors, and how it keeps track of its head.  A request may only be made when none is in progress. */
  class Disk {
    const sectors: array<seq<Byte>>
    const interrupt: Interrupts.Interrupt
    var active: bool
    var lastSector: nat
    var bufferInit: nat
    ghost var doneAt: nat

    ghost function View(): Head
      reads this
    {
      Head(lastSector, bufferInit, doneAt)
    }

    /** The request in progress, if any, is done when its interrupt occurs. */
    ghost predicate Valid()
      reads this, sectors, interrupt, interrupt.pending, interrupt.pending.nodes
    {
      IsImage(sectors[..]) && interrupt.Valid() && Settled(View()) && interrupt.totalTicks >= 0
    }

    constructor (sectors: array<seq<Byte>>, interrupt: Interrupts.Interrupt)
      requires IsImage(sectors[..]) && interrupt.Valid() && interrupt.totalTicks >= 0
      ensures Valid() && this.sectors == sectors && this.interrupt == interrupt && !active && View() == Head(0, 0, 0)
    {
      this.sectors, this.interrupt := sectors, interrupt;
      active, lastSector, bufferInit, doneAt := false, 0, 0, 0;
    }

    method TimeToSeek(newSector: nat, now: nat) returns (seek: nat, rotation: nat)
      ensures seek == Seek(View(), newSector) && rotation == Rotation(now, seek)
      ensures seek == Apart(lastSector / SectorsPerTrack, newSector / SectorsPerTrack) * SeekTime
      ensures rotation < RotationTime && (now + seek + rotation) % RotationTime == 0
    {
      SeekIs(View(), newSector);
      var newTrack := newSector / SectorsPerTrack;
      var oldTrack := lastSector / SectorsPerTrack;
      seek := Abs(newTrack - oldTrack) * SeekTime;
      var over := (now + seek) % RotationTime;
      rotation := 0;
      if over > 0 {
        rotation := RotationTime - over;
      }
    }

    method ComputeLatency(newSector: nat, writing: bool, now: nat) returns (ticks: nat)
      ensures ticks == Latency(View(), now, newSector, writing)
    {
      var seek, rotation := TimeToSeek(newSector, now);
      var timeAfter := now + seek + rotation;
      if !writing && seek == 0
         && TruncDiv(timeAfter - bufferInit, RotationTime) > ModuloDiff(newSector, bufferInit / RotationTime) {
        return RotationTime;
      }
      rotation := rotation + ModuloDiff(newSector, timeAfter / RotationTime) * RotationTime;
      return seek + rotation + RotationTime;
    }

    method UpdateLast(newSector: nat, now: nat)
      modifies this`lastSector, this`bufferInit
      ensures lastSector == newSector
      ensures bufferInit == if Seek(old(View()), newSector) != 0 then TimeAfter(old(View()), now, newSector) else old(bufferInit)
    {
      var seek, rotate := TimeToSeek(newSector, now);
      if seek != 0 {
        bufferInit := now + seek + rotate;
      }
      lastSector := newSector;
    }

    /** What a request does after the transfer: the disk is busy until the interrupt, which is scheduled for its completion. */
    method StartRequest(sectorNumber: nat, writing: bool, ticks: nat)
      requires Valid() && !active && sectorNumber < NumSectors && doneAt <= interrupt.totalTicks
      requires ticks == Latency(View(), interrupt.totalTicks, sectorNumber, writing)
      modifies this, interrupt`scheduled, interrupt`log, interrupt.pending, interrupt.pending.nodes
      ensures Valid() && active && Started(old(View()), old(interrupt.Clock()), sectorNumber, writing, View(), interrupt.Clock())
      ensures forall i :: 0 <= i < |interrupt.pending.nodes| ==> interrupt.pending.nodes[i] in old(interrupt.pending.nodes) || fresh(interrupt.pending.nodes[i])
    {
      RequestSettles(View(), interrupt.totalTicks, sectorNumber, writing);
      active := true;
      UpdateLast(sectorNumber, interrupt.totalTicks);
      doneAt := interrupt.totalTicks + ticks;
      interrupt.Schedule(ticks, EventClocks.DiskInt);
    }

    /** The bytes arrive in the buffer at once; the interrupt comes when the request is done. */
    method ReadRequest(sectorNumber: nat, data: array<Byte>)
      requires Valid() && !active && sectorNumber < NumSectors && SectorSize <= data.Length && doneAt <= interrupt.totalTicks
      modifies this, data, interrupt`scheduled, interrupt`log, interrupt.pending, interrupt.pending.nodes
      ensures Valid() && active && Started(old(View()), old(interrupt.Clock()), sectorNumber, false, View(), interrupt.Clock())
      ensures forall i :: 0 <= i < |interrupt.pending.nodes| ==> interrupt.pending.nodes[i] in old(interrupt.pending.nodes) || fresh(interrupt.pending.nodes[i])
      ensures data[..] == Splice(old(data[..]), 0, sectors[sectorNumber])
    {
      var ticks := ComputeLatency(sectorNumber, false, interrupt.totalTicks);
      forall j | 0 <= j < SectorSize {
        data[j] := sectors[sectorNumber][j];
      }
      assert data[..] == Splice(old(data[..]), 0, sectors[sectorNumber]);
      StartRequest(sectorNumber, false, ticks);
    }

    method WriteRequest(sectorNumber: nat, data: array<Byte>)
      requires Valid() && !active && sectorNumber < NumSectors && SectorSize <= data.Length && doneAt <= interrupt.totalTicks
      modifies this, sectors, interrupt`scheduled, interrupt`log, interrupt.pending, interrupt.pending.nodes
      ensures Valid() && active && Started(old(View()), old(interrupt.Clock()), sectorNumber, true, View(), interrupt.Clock())
      ensures forall i :: 0 <= i < |interrupt.pending.nodes| ==> interrupt.pending.nodes[i] in old(interrupt.pending.nodes) || fresh(interrupt.pending.nodes[i])
      ensures sectors[..] == old(sectors[..])[sectorNumber := data[..SectorSize]]
    {
      var ticks := ComputeLatency(sectorNumber, true, interrupt.totalTicks);
      sectors[sectorNumber] := data[..SectorSize];
      StartRequest(sectorNumber, true, ticks);
    }

    method HandleInterrupt()
      modifies this`active
      ensures !active
    {
      active := false;
    }
  }
}
