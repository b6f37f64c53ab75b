/**
  * The agenda session: the quick-reschedule gate, the full-edit save, and
  * the two lock maps that decide which of the two controls an appointment
  * still offers.
  */
module Session {
  import opened Wrappers
  import opened TimeUtils
  import opened Records
  import opened SlotEngine

  /** What saveReschedule decides before it calls the store. */
  datatype Gate = NoOp | Reject | Accept(start: int, end: int)

  /**
    * The decision of saveReschedule for moving `a` to `newTime`: nothing to
    * do for an empty or unchanged time; refused unless `newTime` is among
    * getAvailableTimes for the effective duration over the appointments of
    * `a`'s day with `a` itself excluded; otherwise the new range runs from
    * `newTime` for the effective duration.
    */
  function RescheduleGate(a: Appointment, newTime: string, all: seq<Appointment>, services: seq<Service>): (g: Gate)
    ensures g.NoOp? <==> newTime == [] || newTime == a.startClock
    ensures g.Accept? ==> g.end - g.start == EffectiveDuration(a, services)
  {
    if newTime == [] || newTime == a.startClock then NoOp
    else
      var duration := EffectiveDuration(a, services);
      if newTime !in Clocks(FreeStarts(duration, OnDay(all, a.day), a.id, services)) then Reject
      else
        var start := TimeToMinutes(newTime).GetOr(0);
        Accept(start, start + duration)
  }

  /** Each clock getAvailableTimes lists names a bookable start and reads back as that start. */
  lemma OfferedClock(duration: int, appts: seq<Appointment>, excludeId: Id, services: seq<Service>, clock: string)
    requires clock in Clocks(FreeStarts(duration, appts, excludeId, services))
    ensures TimeToMinutes(clock).Some?
    ensures Bookable(duration, appts, excludeId, services, TimeToMinutes(clock).value)
    ensures MinutesToTime(TimeToMinutes(clock).value) == clock
  {
    var starts := FreeStarts(duration, appts, excludeId, services);
    var k :| 0 <= k < |starts| && Clocks(starts)[k] == clock;
    var t := starts[k];
    AvailableStartsExactly(duration, appts, excludeId, services, t);
    MinutesToTimeRoundTrip(t);
  }

  /**
    * An accepted reschedule moves `a` to a start that is on the grid, inside
    * the working window and clear of every other non-canceled appointment of
    * its day, and that is the chosen clock; the end is that start plus the
    * effective duration.
    */
  lemma GateAcceptSound(a: Appointment, newTime: string, all: seq<Appointment>, services: seq<Service>)
    requires RescheduleGate(a, newTime, all, services).Accept?
    ensures var g := RescheduleGate(a, newTime, all, services);
      && Bookable(EffectiveDuration(a, services), OnDay(all, a.day), a.id, services, g.start)
      && MinutesToTime(g.start) == newTime
      && newTime != a.startClock
  {
    OfferedClock(EffectiveDuration(a, services), OnDay(all, a.day), a.id, services, newTime);
  }

  /** Every bookable start other than the current clock is accepted, with the range it names. */
  lemma GateAcceptComplete(a: Appointment, t: int, all: seq<Appointment>, services: seq<Service>)
    requires Bookable(EffectiveDuration(a, services), OnDay(all, a.day), a.id, services, t)
    requires MinutesToTime(t) != a.startClock
    ensures RescheduleGate(a, MinutesToTime(t), all, services) == Accept(t, t + EffectiveDuration(a, services))
  {
    var duration := EffectiveDuration(a, services);
    var starts := FreeStarts(duration, OnDay(all, a.day), a.id, services);
    AvailableStartsExactly(duration, OnDay(all, a.day), a.id, services, t);
    var k :| 0 <= k < |starts| && starts[k] == t;
    var clock := MinutesToTime(t);
    MinutesToTimeRoundTrip(t);
    assert Clocks(starts)[k] == clock;
    GateAccepts(a, clock, all, services, t);
  }

  /** A changed, non-empty clock that getAvailableTimes lists is accepted with the range it names. */
  lemma GateAccepts(a: Appointment, newTime: string, all: seq<Appointment>, services: seq<Service>, t: int)
    requires newTime != [] && newTime != a.startClock
    requires newTime in Clocks(FreeStarts(EffectiveDuration(a, services), OnDay(all, a.day), a.id, services))
    requires TimeToMinutes(newTime) == Some(t)
    ensures RescheduleGate(a, newTime, all, services) == Accept(t, t + EffectiveDuration(a, services))
  {
  }

  /** A changed, non-empty time is refused exactly when no bookable start has that clock. */
  lemma GateRejectExactly(a: Appointment, newTime: string, all: seq<Appointment>, services: seq<Service>)
    requires newTime != [] && newTime != a.startClock
    ensures RescheduleGate(a, newTime, all, services).Reject? <==>
      forall t :: Bookable(EffectiveDuration(a, services), OnDay(all, a.day), a.id, services, t) ==> MinutesToTime(t) != newTime
  {
    var duration := EffectiveDuration(a, services);
    if RescheduleGate(a, newTime, all, services).Reject? {
      forall t | Bookable(duration, OnDay(all, a.day), a.id, services, t)
        ensures MinutesToTime(t) != newTime
      {
        if MinutesToTime(t) == newTime {
          GateAcceptComplete(a, t, all, services);
        }
      }
    } else {
      OfferedClock(duration, OnDay(all, a.day), a.id, services, newTime);
    }
  }

  /** `a` with the start and end clocks the store keeps after an accepted reschedule. */
  function Moved(a: Appointment, start: int, end: int): (b: Appointment)
    ensures b.id == a.id && b.day == a.day && b.status == a.status
  {
    a.(startClock := MinutesToTime(start), endClock := MinutesToTime(end))
  }

  predicate UniqueIds(all: seq<Appointment>) {
    forall p, q :: 0 <= p < |all| && 0 <= q < |all| && all[p].id == all[q].id ==> p == q
  }

  /** No two non-canceled appointments of the same day overlap. */
  predicate DayFree(all: seq<Appointment>, services: seq<Service>) {
    forall p, q :: 0 <= p < |all| && 0 <= q < |all| && p != q
      && all[p].day == all[q].day && all[p].status != Canceled && all[q].status != Canceled
      ==> !Overlaps(AppointmentRange(all[p], services).start, AppointmentRange(all[p], services).end,
                    AppointmentRange(all[q], services))
  }

  /** A moved appointment's stored clocks read back as the accepted range. */
  lemma MovedRange(a: Appointment, t: int, e: int, services: seq<Service>)
    requires 0 <= t < e
    ensures AppointmentRange(Moved(a, t, e), services) == Range(t, e)
  {
    MinutesToTimeRoundTrip(t);
    MinutesToTimeRoundTrip(e);
  }

  /** A start bookable for `a` is clear of every other non-canceled appointment of `a`'s day. */
  lemma BookableClear(all: seq<Appointment>, services: seq<Service>, a: Appointment, d: int, t: int, b: Appointment)
    requires Bookable(d, OnDay(all, a.day), a.id, services, t)
    requires b in all && b.day == a.day && b.status != Canceled && b.id != a.id
    ensures !Overlaps(t, t + d, AppointmentRange(b, services))
  {
    assert b in OnDay(all, a.day);
    assert Blocks(b, a.id);
  }

  /**
    * Replacing appointment `p` by a copy (same id, day and status) whose range
    * starts at a bookable start and lasts the booked duration keeps two
    * non-canceled appointments of a day apart.
    */
  lemma ReplacedPairApart(all: seq<Appointment>, services: seq<Service>, p: int, moved: Appointment, d: int, x: int, y: int)
    requires 0 <= p < |all| && 0 <= x < |all| && 0 <= y < |all| && x != y
    requires UniqueIds(all) && DayFree(all, services)
    requires moved.id == all[p].id && moved.day == all[p].day && moved.status == all[p].status
    requires Bookable(d, OnDay(all, all[p].day), all[p].id, services, AppointmentRange(moved, services).start)
    requires AppointmentRange(moved, services).end == AppointmentRange(moved, services).start + d
    requires all[p := moved][x].day == all[p := moved][y].day
    requires all[p := moved][x].status != Canceled && all[p := moved][y].status != Canceled
    ensures !Overlaps(AppointmentRange(all[p := moved][x], services).start, AppointmentRange(all[p := moved][x], services).end,
                      AppointmentRange(all[p := moved][y], services))
  {
    var t := AppointmentRange(moved, services).start;
    if x == p {
      BookableClear(all, services, all[p], d, t, all[y]);
    } else if y == p {
      BookableClear(all, services, all[p], d, t, all[x]);
    } else {
      assert all[p := moved][x] == all[x] && all[p := moved][y] == all[y];
    }
  }

  /**
    * Replacing an appointment by a copy whose range is bookable for it (on
    * the grid, in the window, clear of the other non-canceled appointments of
    * its day) keeps every day free of overlaps.
    */
  lemma ReplaceKeepsDayFree(all: seq<Appointment>, services: seq<Service>, p: int, moved: Appointment, d: int)
    requires 0 <= p < |all|
    requires UniqueIds(all) && DayFree(all, services)
    requires moved.id == all[p].id && moved.day == all[p].day && moved.status == all[p].status
    requires Bookable(d, OnDay(all, all[p].day), all[p].id, services, AppointmentRange(moved, services).start)
    requires AppointmentRange(moved, services).end == AppointmentRange(moved, services).start + d
    ensures DayFree(all[p := moved], services)
  {
    var all' := all[p := moved];
    forall x, y | 0 <= x < |all'| && 0 <= y < |all'| && x != y
      && all'[x].day == all'[y].day && all'[x].status != Canceled && all'[y].status != Canceled
      ensures !Overlaps(AppointmentRange(all'[x], services).start, AppointmentRange(all'[x], services).end,
                        AppointmentRange(all'[y], services))
    {
      ReplacedPairApart(all, services, p, moved, d, x, y);
    }
  }

  /**
    * Quick reschedules keep a day free of overlaps: if no two non-canceled
    * appointments of a day overlap, they still do not after an accepted
    * reschedule of one of them (for a positive duration).
    */
  lemma RescheduleKeepsDayFree(all: seq<Appointment>, services: seq<Service>, p: int, newTime: string)
    requires 0 <= p < |all|
    requires UniqueIds(all) && DayFree(all, services)
    requires EffectiveDuration(all[p], services) > 0
    requires RescheduleGate(all[p], newTime, all, services).Accept?
    ensures var g := RescheduleGate(all[p], newTime, all, services);
      DayFree(all[p := Moved(all[p], g.start, g.end)], services)
  {
    var g := RescheduleGate(all[p], newTime, all, services);
    var d := EffectiveDuration(all[p], services);
    GateAcceptSound(all[p], newTime, all, services);
    MovedRange(all[p], g.start, g.end, services);
    ReplaceKeepsDayFree(all, services, p, Moved(all[p], g.start, g.end), d);
  }

  /** The full-edit form fields that saveAgendamento checks. `day` is None when the date field is empty. */
  datatype EditForm = EditForm(clientId: Id, serviceId: Id, day: Option<DayKey>, time: string, address: string)

  datatype Refusal = MissingClientOrService | MissingDateOrTime | MissingAddress | SlotUnavailable

  /** The result of a save as the agenda reports it. */
  datatype Outcome = Ignored | Refused(reason: Refusal) | StoreFailed | Saved | Rescheduled(start: int, end: int)

  /** The leading white space and line terminators removed. */
  function TrimStart(s: string): (r: string)
    ensures |r| <= |s| && r == s[|s| - |r|..]
    ensures forall k :: 0 <= k < |s| - |r| ==> IsSpace(s[k])
    ensures r != [] ==> !IsSpace(r[0])
  {
    if s != [] && IsSpace(s[0]) then TrimStart(s[1..]) else s
  }

  /** The trailing white space and line terminators removed. */
  function TrimEnd(s: string): (r: string)
    ensures |r| <= |s| && r == s[..|r|]
    ensures forall k :: |r| <= k < |s| ==> IsSpace(s[k])
    ensures r != [] ==> !IsSpace(r[|r| - 1])
  {
    if s != [] && IsSpace(s[|s| - 1]) then TrimEnd(s[..|s| - 1]) else s
  }

  /** `String.prototype.trim`: no white space left at either end, empty exactly when `s` is all white space. */
  function Trim(s: string): (r: string)
    ensures |r| <= |s|
    ensures r == [] <==> forall k :: 0 <= k < |s| ==> IsSpace(s[k])
    ensures r != [] ==> !IsSpace(r[0]) && !IsSpace(r[|r| - 1])
  {
    TrimEmpty(s);
    var r := TrimEnd(TrimStart(s));
    assert r != [] ==> r[0] == TrimStart(s)[0];
    r
  }

  /** Trimming both ends leaves nothing exactly when every character is white space. */
  lemma TrimEmpty(s: string)
    ensures TrimEnd(TrimStart(s)) == [] <==> forall k :: 0 <= k < |s| ==> IsSpace(s[k])
  {
    var t := TrimStart(s);
    if TrimEnd(t) == [] {
      assert t == [];
    } else if t != [] {
      assert !IsSpace(s[|s| - |t|]) by {
        assert t[0] == s[|s| - |t|];
      }
    }
  }

  /** The first validation saveAgendamento fails, in its order, or None when the form may be saved. */
  function FormError(f: EditForm): (e: Option<Refusal>)
    ensures e.None? <==> f.clientId != [] && f.serviceId != [] && f.day.Some? && f.time != [] && Trim(f.address) != []
    ensures e == Some(MissingClientOrService) <==> f.clientId == [] || f.serviceId == []
    ensures e == Some(MissingDateOrTime) <==> f.clientId != [] && f.serviceId != [] && (f.day.None? || f.time == [])
    ensures e == Some(MissingAddress) <==> f.clientId != [] && f.serviceId != [] && f.day.Some? && f.time != [] && Trim(f.address) == []
    ensures e != Some(SlotUnavailable)
  {
    if f.clientId == [] || f.serviceId == [] then Some(MissingClientOrService)
    else if f.day.None? || f.time == [] then Some(MissingDateOrTime)
    else if Trim(f.address) == [] then Some(MissingAddress)
    else None
  }

  /** `timeChanged`: an edit of `original` whose date or start clock differs from the form's. */
  predicate TimeChanged(original: Option<Appointment>, f: EditForm): (changed: bool)
    ensures original.None? ==> !changed
    ensures original.Some? && f.time != original.value.startClock ==> changed
    ensures original.Some? && f.day != Some(original.value.day) ==> changed
    ensures changed ==> original.Some? && (f.day != Some(original.value.day) || f.time != original.value.startClock)
  {
    original.Some? && (f.day != Some(original.value.day) || f.time != original.value.startClock)
  }

  /** `Boolean(locks[id])`: a missing entry reads as unlocked. */
  predicate Locked(locks: map<Id, bool>, id: Id) {
    id in locks && locks[id]
  }

  /** No id is set in both maps. */
  predicate Exclusive(editLocks: map<Id, bool>, rescheduleLocks: map<Id, bool>) {
    forall id :: id in editLocks && editLocks[id] ==> !Locked(rescheduleLocks, id)
  }

  /** Setting one id's two flags to values that are not both true keeps the maps exclusive. */
  lemma SetFlagsExclusive(editLocks: map<Id, bool>, rescheduleLocks: map<Id, bool>, id: Id, edit: bool, reschedule: bool)
    requires Exclusive(editLocks, rescheduleLocks)
    requires !(edit && reschedule)
    ensures Exclusive(editLocks[id := edit], rescheduleLocks[id := reschedule])
  {
    var edit', reschedule' := editLocks[id := edit], rescheduleLocks[id := reschedule];
    forall x | x in edit' && edit'[x]
      ensures !Locked(reschedule', x)
    {
      if x != id {
        assert Locked(reschedule', x) == Locked(rescheduleLocks, x);
      }
    }
  }

  /**
    * The agenda's per-appointment session state: `editLocks`,
    * `rescheduleLocks` and the pending `rescheduleTimes` selections, all
    * keyed by appointment id. They live for the session; reloading the
    * appointments does not clear them.
    */
  class AgendaSession {
    var editLocks: map<Id, bool>
    var rescheduleLocks: map<Id, bool>
    var rescheduleTimes: map<Id, string>

    /** No appointment is locked for both kinds of change at once. */
    ghost predicate Valid()
      reads this
    {
      Exclusive(editLocks, rescheduleLocks)
    }

    constructor()
      ensures Valid()
      ensures editLocks == map[] && rescheduleLocks == map[] && rescheduleTimes == map[]
    {
      editLocks := map[];
      rescheduleLocks := map[];
      rescheduleTimes := map[];
    }

    /** updateRescheduleTime: records the clock picked in an appointment's time select. */
    method SelectTime(id: Id, value: string)
      modifies this
      requires Valid()
      ensures Valid()
      ensures rescheduleTimes == old(rescheduleTimes)[id := value]
      ensures editLocks == old(editLocks) && rescheduleLocks == old(rescheduleLocks)
    {
      rescheduleTimes := rescheduleTimes[id := value];
    }

    /** `selectedTime`: the pending pick when it is non-empty, otherwise the current clock. */
    function SelectedTime(a: Appointment): (t: string)
      reads this
      ensures a.id in rescheduleTimes && rescheduleTimes[a.id] != [] ==> t == rescheduleTimes[a.id]
      ensures !(a.id in rescheduleTimes && rescheduleTimes[a.id] != []) ==> t == a.startClock
      ensures t == [] ==> a.startClock == []
    {
      if a.id in rescheduleTimes && rescheduleTimes[a.id] != [] then rescheduleTimes[a.id] else a.startClock
    }

    /** The Edit button is enabled unless the appointment is edit-locked; canceling does not disable it. */
    predicate EditEnabled(a: Appointment): (enabled: bool)
      reads this
      ensures enabled <==> a.id !in editLocks || !editLocks[a.id]
    {
      !Locked(editLocks, a.id)
    }

    /** The time select is enabled unless the appointment is canceled or reschedule-locked. */
    predicate TimeSelectEnabled(a: Appointment): (enabled: bool)
      reads this
      ensures enabled ==> a.status != Canceled
      ensures enabled <==> a.status != Canceled && (a.id !in rescheduleLocks || !rescheduleLocks[a.id])
    {
      a.status != Canceled && !Locked(rescheduleLocks, a.id)
    }

    /** `canSave`: a changed, non-empty selection on an enabled time select. */
    predicate CanSave(a: Appointment): (ok: bool)
      reads this
      ensures ok <==> a.id in rescheduleTimes && rescheduleTimes[a.id] != [] && rescheduleTimes[a.id] != a.startClock
                      && TimeSelectEnabled(a)
    {
      SelectedTime(a) != [] && SelectedTime(a) != a.startClock && TimeSelectEnabled(a)
    }

    /**
      * saveAgendamento: validates the form, stores it (`storeOk` is the
      * store's answer) and, after a stored edit that changed the date or
      * the start clock, locks the appointment for editing and unlocks it
      * for rescheduling. No availability check is made.
      */
    method SaveEdit(f: EditForm, editing: Option<Appointment>, storeOk: bool) returns (outcome: Outcome)
      modifies this
      requires Valid()
      ensures Valid()
      ensures FormError(f).Some? ==> outcome == Refused(FormError(f).value)
      ensures FormError(f).None? ==> outcome == (if storeOk then Saved else StoreFailed)
      ensures outcome == Saved && TimeChanged(editing, f) ==>
        && editLocks == old(editLocks)[editing.value.id := true]
        && rescheduleLocks == old(rescheduleLocks)[editing.value.id := false]
      ensures !(outcome == Saved && TimeChanged(editing, f)) ==>
        editLocks == old(editLocks) && rescheduleLocks == old(rescheduleLocks)
      ensures rescheduleTimes == old(rescheduleTimes)
      ensures outcome == Saved && TimeChanged(editing, f) ==>
        !EditEnabled(editing.value) && (editing.value.status != Canceled ==> TimeSelectEnabled(editing.value))
    {
      var error := FormError(f);
      if error.Some? {
        return Refused(error.value);
      }
      var timeChanged := TimeChanged(editing, f);
      if !storeOk {
        return StoreFailed;
      }
      if timeChanged {
        var id := editing.value.id;
        SetFlagsExclusive(editLocks, rescheduleLocks, id, true, false);
        editLocks := editLocks[id := true];
        rescheduleLocks := rescheduleLocks[id := false];
      }
      return Saved;
    }

    /**
      * saveReschedule: decides by RescheduleGate, computing the free times
      * with getAvailableTimes; after the store accepts the new range the
      * appointment is locked for rescheduling, unlocked for editing, and its
      * pending selection is dropped.
      */
    method SaveReschedule(a: Appointment, newTime: string, all: seq<Appointment>, services: seq<Service>, storeOk: bool)
      returns (outcome: Outcome)
      modifies this
      requires Valid()
      ensures Valid()
      ensures RescheduleGate(a, newTime, all, services).NoOp? ==> outcome == Ignored
      ensures RescheduleGate(a, newTime, all, services).Reject? ==> outcome == Refused(SlotUnavailable)
      ensures RescheduleGate(a, newTime, all, services).Accept? ==>
        outcome == (if storeOk then Rescheduled(RescheduleGate(a, newTime, all, services).start,
                                                RescheduleGate(a, newTime, all, services).end)
                    else StoreFailed)
      ensures outcome.Rescheduled? ==>
        && rescheduleLocks == old(rescheduleLocks)[a.id := true]
        && editLocks == old(editLocks)[a.id := false]
        && rescheduleTimes == old(rescheduleTimes) - {a.id}
      ensures !outcome.Rescheduled? ==>
        editLocks == old(editLocks) && rescheduleLocks == old(rescheduleLocks) && rescheduleTimes == old(rescheduleTimes)
      ensures outcome.Rescheduled? ==> EditEnabled(a) && !CanSave(a) && SelectedTime(a) == a.startClock
    {
      var currentTime := a.startClock;
      if newTime == [] || newTime == currentTime {
        return Ignored;
      }
      var duration := EffectiveDuration(a, services);
      var dayAppointments := OnDay(all, a.day);
      var availableTimes := GetAvailableTimes(duration, dayAppointments, a.id, services);
      if newTime !in availableTimes {
        assert RescheduleGate(a, newTime, all, services) == Reject;
        return Refused(SlotUnavailable);
      }
      var start := TimeToMinutes(newTime).GetOr(0);
      var end := start + duration;
      assert RescheduleGate(a, newTime, all, services) == Accept(start, end);
      if !storeOk {
        return StoreFailed;
      }
      SetFlagsExclusive(editLocks, rescheduleLocks, a.id, false, true);
      rescheduleLocks := rescheduleLocks[a.id := true];
      editLocks := editLocks[a.id := false];
      rescheduleTimes := rescheduleTimes - {a.id};
      assert a.id !in rescheduleTimes && Locked(rescheduleLocks, a.id);
      return Rescheduled(start, end);
    }
  }

  /**
    * A save the agenda offers is never a no-op: it is accepted exactly when
    * some bookable start of the appointment's day has the selected clock, and
    * refused otherwise.
    */
  lemma CanSaveDecides(session: AgendaSession, a: Appointment, all: seq<Appointment>, services: seq<Service>)
    requires session.CanSave(a)
    ensures RescheduleGate(a, session.SelectedTime(a), all, services) != NoOp
    ensures RescheduleGate(a, session.SelectedTime(a), all, services).Accept? <==>
      exists t :: Bookable(EffectiveDuration(a, services), OnDay(all, a.day), a.id, services, t)
                  && MinutesToTime(t) == session.SelectedTime(a)
  {
    GateRejectExactly(a, session.SelectedTime(a), all, services);
  }

  /**
    * Whatever the locks say, an appointment that is not canceled can still be
    * changed: its Edit button or its time select is enabled.
    */
  lemma SomeControlEnabled(session: AgendaSession, a: Appointment)
    requires session.Valid()
    requires a.status != Canceled
    ensures session.EditEnabled(a) || session.TimeSelectEnabled(a)
  {
  }
}
