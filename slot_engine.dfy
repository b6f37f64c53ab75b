/**
  * The slot engine: the occupied ranges of a day and the start times still
  * bookable for a duration, on a 30-minute grid inside the 08:00-20:00 window.
  */
module SlotEngine {
  import opened Wrappers
  import opened TimeUtils
  import opened Records
  import opened Sorting

  const WorkStart: int := 8 * 60
  const WorkEnd: int := 20 * 60
  const SlotMinutes: int := 30

  /** A half-open range `[start, end)` of minutes of the day. */
  datatype Range = Range(start: int, end: int)

  /** The stored end clock parses and differs from the start: getAppointmentRange keeps it. */
  predicate StoredEndUsable(a: Appointment) {
    var e := TimeToMinutes(a.endClock);
    e.Some? && e != TimeToMinutes(a.startClock)
  }

  /**
    * getAppointmentRange: the start clock in minutes (0 when it does not
    * parse); the stored end when usable, otherwise start plus the effective
    * service duration. When the start clock parses, the end differs from the start
    * (it may still lie before it).
    */
  function AppointmentRange(a: Appointment, services: seq<Service>): (r: Range)
    ensures r.start == TimeToMinutes(a.startClock).GetOr(0)
    ensures StoredEndUsable(a) ==> r.end == TimeToMinutes(a.endClock).value
    ensures !StoredEndUsable(a) ==> r.end - r.start == EffectiveDuration(a, services)
    ensures TimeToMinutes(a.startClock).Some? ==> r.end != r.start
  {
    var startMinutes := TimeToMinutes(a.startClock);
    var endMinutes := TimeToMinutes(a.endClock);
    if endMinutes.None? || endMinutes == startMinutes then
      Range(startMinutes.GetOr(0), startMinutes.GetOr(0) + EffectiveDuration(a, services))
    else
      Range(startMinutes.GetOr(0), endMinutes.value)
  }

  /** The overlap test of getAvailableTimes: `start < range.end && end > range.start`. */
  predicate Overlaps(start: int, end: int, r: Range) {
    start < r.end && end > r.start
  }

  predicate HasOverlap(start: int, end: int, ranges: seq<Range>) {
    exists r :: r in ranges && Overlaps(start, end, r)
  }

  /** An appointment that occupies time for a booking that excludes `excludeId`. */
  predicate Blocks(a: Appointment, excludeId: Id) {
    a.id != excludeId && a.status != Canceled
  }

  /** `normalizedRanges`: the ranges of the non-canceled appointments other than `excludeId`. */
  function BlockingRanges(appts: seq<Appointment>, excludeId: Id, services: seq<Service>): (rs: seq<Range>)
    ensures forall a :: a in appts && Blocks(a, excludeId) ==> AppointmentRange(a, services) in rs
    ensures forall r :: r in rs ==>
      exists a :: a in appts && Blocks(a, excludeId) && r == AppointmentRange(a, services)
  {
    if appts == [] then []
    else
      (if Blocks(appts[0], excludeId) then [AppointmentRange(appts[0], services)] else [])
      + BlockingRanges(appts[1..], excludeId, services)
  }

  /** The grid starts from `start` on (every 30 minutes) that fit before the window's end and overlap nothing. */
  function FreeFrom(start: int, d: int, ranges: seq<Range>): seq<int>
    decreases WorkEnd - d - start + SlotMinutes
  {
    if start + d > WorkEnd then []
    else
      (if HasOverlap(start, start + d, ranges) then [] else [start])
      + FreeFrom(start + SlotMinutes, d, ranges)
  }

  /** The start minutes getAvailableTimes returns; a zero (or NaN) duration gives none. */
  function FreeStarts(duration: int, appts: seq<Appointment>, excludeId: Id, services: seq<Service>): seq<int> {
    if duration == 0 then [] else FreeFrom(WorkStart, duration, BlockingRanges(appts, excludeId, services))
  }

  /** A start `t` at which `duration` minutes may be booked: on the grid, inside the window, clear of every blocking appointment. */
  ghost predicate Bookable(duration: int, appts: seq<Appointment>, excludeId: Id, services: seq<Service>, t: int) {
    && duration != 0
    && WorkStart <= t && t + duration <= WorkEnd && (t - WorkStart) % SlotMinutes == 0
    && forall a :: a in appts && Blocks(a, excludeId) ==> !Overlaps(t, t + duration, AppointmentRange(a, services))
  }

  function Clocks(ms: seq<int>): (r: seq<string>)
    ensures |r| == |ms| && forall k :: 0 <= k < |ms| ==> r[k] == MinutesToTime(ms[k])
  {
    if ms == [] then [] else [MinutesToTime(ms[0])] + Clocks(ms[1..])
  }

  lemma {:induction false} ClocksAppend(a: seq<int>, b: seq<int>)
    ensures Clocks(a + b) == Clocks(a) + Clocks(b)
  {
    if a != [] {
      assert (a + b)[1..] == a[1..] + b;
      ClocksAppend(a[1..], b);
    } else {
      assert a + b == b;
    }
  }

  /**
    * getAvailableTimes: scans the grid from 08:00 while `start + duration`
    * fits before 20:00 and keeps, as "HH:MM", each start whose range overlaps
    * no blocking appointment.
    */
  method GetAvailableTimes(duration: int, appts: seq<Appointment>, excludeId: Id, services: seq<Service>)
    returns (available: seq<string>)
    ensures available == Clocks(FreeStarts(duration, appts, excludeId, services))
  {
    var ranges := BlockingRanges(appts, excludeId, services);
    available := [];
    if duration == 0 {
      return;
    }
    ghost var starts: seq<int> := [];
    var start := WorkStart;
    while start + duration <= WorkEnd
      invariant available == Clocks(starts)
      invariant starts + FreeFrom(start, duration, ranges) == FreeFrom(WorkStart, duration, ranges)
      decreases WorkEnd - duration - start + SlotMinutes
    {
      var end := start + duration;
      var hasOverlap := HasOverlap(start, end, ranges);
      ScanStep(starts, start, duration, ranges, FreeFrom(WorkStart, duration, ranges));
      if !hasOverlap {
        ClocksSnoc(starts, start);
        available := available + [MinutesToTime(start)];
        starts := starts + [start];
      }
      start := start + SlotMinutes;
    }
    assert FreeFrom(start, duration, ranges) == [];
    assert starts + [] == starts;
  }

  /** One step of the scan: the start just checked joins the result exactly when it is free. */
  lemma ScanStep(starts: seq<int>, start: int, d: int, ranges: seq<Range>, whole: seq<int>)
    requires start + d <= WorkEnd
    requires starts + FreeFrom(start, d, ranges) == whole
    ensures !HasOverlap(start, start + d, ranges) ==>
      (starts + [start]) + FreeFrom(start + SlotMinutes, d, ranges) == whole
    ensures HasOverlap(start, start + d, ranges) ==>
      starts + FreeFrom(start + SlotMinutes, d, ranges) == whole
  {
    FreeFromStep(start, d, ranges);
    var rest := FreeFrom(start + SlotMinutes, d, ranges);
    if !HasOverlap(start, start + d, ranges) {
      assert starts + ([start] + rest) == (starts + [start]) + rest;
    }
  }

  lemma ClocksSnoc(ms: seq<int>, m: int)
    ensures Clocks(ms + [m]) == Clocks(ms) + [MinutesToTime(m)]
  {
    ClocksAppend(ms, [m]);
    assert Clocks([m]) == [MinutesToTime(m)];
  }

  lemma FreeFromStep(start: int, d: int, ranges: seq<Range>)
    requires start + d <= WorkEnd
    ensures !HasOverlap(start, start + d, ranges) ==> FreeFrom(start, d, ranges) == [start] + FreeFrom(start + SlotMinutes, d, ranges)
    ensures HasOverlap(start, start + d, ranges) ==> FreeFrom(start, d, ranges) == FreeFrom(start + SlotMinutes, d, ranges)
  {
  }

  lemma {:induction false} FreeFromSound(start: int, d: int, ranges: seq<Range>, t: int)
    requires t in FreeFrom(start, d, ranges)
    ensures start <= t && t + d <= WorkEnd && (t - start) % SlotMinutes == 0
    ensures !HasOverlap(t, t + d, ranges)
    decreases WorkEnd - d - start + SlotMinutes
  {
    if t != start || HasOverlap(start, start + d, ranges) {
      FreeFromSound(start + SlotMinutes, d, ranges, t);
    }
  }

  lemma {:induction false} FreeFromComplete(start: int, d: int, ranges: seq<Range>, t: int)
    requires start <= t && t + d <= WorkEnd && (t - start) % SlotMinutes == 0
    requires !HasOverlap(t, t + d, ranges)
    ensures t in FreeFrom(start, d, ranges)
    decreases WorkEnd - d - start + SlotMinutes
  {
    if t != start {
      FreeFromComplete(start + SlotMinutes, d, ranges, t);
    }
  }

  lemma {:induction false} FreeFromAscending(start: int, d: int, ranges: seq<Range>)
    ensures forall i :: 0 <= i < |FreeFrom(start, d, ranges)| ==> start <= FreeFrom(start, d, ranges)[i]
    ensures forall i, j :: 0 <= i < j < |FreeFrom(start, d, ranges)| ==>
      FreeFrom(start, d, ranges)[i] < FreeFrom(start, d, ranges)[j]
    decreases WorkEnd - d - start + SlotMinutes
  {
    if start + d <= WorkEnd {
      FreeFromAscending(start + SlotMinutes, d, ranges);
    }
  }

  /** Soundness and completeness of getAvailableTimes: it returns exactly the bookable starts. */
  lemma AvailableStartsExactly(duration: int, appts: seq<Appointment>, excludeId: Id, services: seq<Service>, t: int)
    ensures t in FreeStarts(duration, appts, excludeId, services) <==> Bookable(duration, appts, excludeId, services, t)
  {
    var ranges := BlockingRanges(appts, excludeId, services);
    if duration != 0 {
      if t in FreeStarts(duration, appts, excludeId, services) {
        FreeFromSound(WorkStart, duration, ranges, t);
        forall a | a in appts && Blocks(a, excludeId)
          ensures !Overlaps(t, t + duration, AppointmentRange(a, services))
        {
          assert AppointmentRange(a, services) in ranges;
        }
      }
      if Bookable(duration, appts, excludeId, services, t) {
        FreeFromComplete(WorkStart, duration, ranges, t);
      }
    }
  }

  /** getAvailableTimes lists its starts in strictly ascending order, without repeats. */
  lemma AvailableStartsAscending(duration: int, appts: seq<Appointment>, excludeId: Id, services: seq<Service>)
    ensures forall i, j :: 0 <= i < j < |FreeStarts(duration, appts, excludeId, services)| ==>
      FreeStarts(duration, appts, excludeId, services)[i] < FreeStarts(duration, appts, excludeId, services)[j]
  {
    if duration != 0 {
      FreeFromAscending(WorkStart, duration, BlockingRanges(appts, excludeId, services));
    }
  }

  /** No start is offered for a zero duration or one longer than the 12-hour window. */
  lemma AvailableStartsEmpty(duration: int, appts: seq<Appointment>, excludeId: Id, services: seq<Service>)
    requires duration == 0 || duration > WorkEnd - WorkStart
    ensures FreeStarts(duration, appts, excludeId, services) == []
  {
  }

  /** The non-canceled appointments of a list, in order. */
  function Active(appts: seq<Appointment>): (r: seq<Appointment>)
    ensures forall a :: a in r <==> a in appts && a.status != Canceled
  {
    if appts == [] then []
    else (if appts[0].status != Canceled then [appts[0]] else []) + Active(appts[1..])
  }

  /** `.filter` keeps order and multiplicity: filtering a concatenation filters each part. */
  lemma {:induction false} ActiveAppend(a: seq<Appointment>, b: seq<Appointment>)
    ensures Active(a + b) == Active(a) + Active(b)
  {
    if a != [] {
      assert (a + b)[0] == a[0];
      assert (a + b)[1..] == a[1..] + b;
      ActiveAppend(a[1..], b);
      assert Active(a + b) == (if a[0].status != Canceled then [a[0]] else []) + Active(a[1..] + b);
    } else {
      assert a + b == b;
    }
  }

  function RangesOf(appts: seq<Appointment>, services: seq<Service>): (rs: seq<Range>)
    ensures |rs| == |appts| && forall k :: 0 <= k < |appts| ==> rs[k] == AppointmentRange(appts[k], services)
  {
    if appts == [] then [] else [AppointmentRange(appts[0], services)] + RangesOf(appts[1..], services)
  }

  function StartOf(r: Range): int {
    r.start
  }

  /** The ranges getOccupiedSlots shows, before formatting: non-canceled only, sorted stably by start. */
  function OccupiedRanges(appts: seq<Appointment>, services: seq<Service>): seq<Range> {
    SortBy(RangesOf(Active(appts), services), StartOf)
  }

  /** `"HH:MM - HH:MM"` for a range. */
  function RangeLabel(r: Range): string {
    MinutesToTime(r.start) + " - " + MinutesToTime(r.end)
  }

  /** getOccupiedSlots: one label per non-canceled appointment, in the order of OccupiedRanges. */
  function OccupiedSlots(appts: seq<Appointment>, services: seq<Service>): (slots: seq<string>)
    ensures |slots| == |OccupiedRanges(appts, services)| == |Active(appts)|
    ensures forall k :: 0 <= k < |slots| ==> slots[k] == RangeLabel(OccupiedRanges(appts, services)[k])
  {
    var rs := OccupiedRanges(appts, services);
    SortByLength(RangesOf(Active(appts), services), StartOf);
    seq(|rs|, k requires 0 <= k < |rs| => RangeLabel(rs[k]))
  }

  /**
    * getOccupiedSlots keeps exactly one range per non-canceled appointment, in
    * non-decreasing order of start, and ranges with equal starts stay in input order.
    */
  lemma OccupiedRangesSpec(appts: seq<Appointment>, services: seq<Service>)
    ensures multiset(OccupiedRanges(appts, services)) == multiset(RangesOf(Active(appts), services))
    ensures SortedBy(OccupiedRanges(appts, services), StartOf)
    ensures forall v :: WithKey(OccupiedRanges(appts, services), StartOf, v) == WithKey(RangesOf(Active(appts), services), StartOf, v)
  {
    var rs := RangesOf(Active(appts), services);
    SortByPermutes(rs, StartOf);
    SortBySorted(rs, StartOf);
    forall v
      ensures WithKey(OccupiedRanges(appts, services), StartOf, v) == WithKey(rs, StartOf, v)
    {
      SortByStable(rs, StartOf, v);
    }
  }
}
