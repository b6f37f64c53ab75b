# Manicure agenda: scheduling core

A Dafny model of the scheduling logic of the Manicure agenda app. It is a
single-page app in which a manicurist books clients (`clientes`) for services
(`servicos`) as appointments (`agendamentos`). The model covers six parts of
the app:

- **Slot engine.** The working window runs from 08:00 to 20:00 on a 30-minute
  grid.
  - `getAppointmentRange` turns an appointment into a half-open range of
    minutes.
  - `getOccupiedSlots` lists the busy ranges of a day.
  - `getAvailableTimes` lists the start times still bookable for a duration.
- **Package tracker.** A package is a service sold as several sessions.
  - `getPacoteTotalByService` reads a service's package size from an explicit
    field or from the numbers written before "mao(s)"/"pe(s)" in its name.
  - `pacoteConcluidosByKey` counts the completed sessions per (client,
    service).
  - The agenda card shows the progress `((n-1) % k) + 1` and the completion
    `n % k == 0`.
- **Quick reschedule gate.** `saveReschedule` moves an appointment to another
  start on the same day, but only to a time `getAvailableTimes` offers.
- **Full edit.** `saveAgendamento` validates the form and stores it. No
  availability check is made.
- **Lock maps.** Two per-appointment flags decide which controls a card still
  offers:
  - A stored full edit that changed the date or time locks editing and
    unlocks the quick reschedule.
  - A stored quick reschedule does the opposite.
  - No appointment is ever locked both ways.
- **Agenda views.** These are the day or focus-day filter (`agendaFiltrada`),
  the grouping of the listed appointments by day (`agendaAgrupada`), and the
  Monday-first week strip (`weekDays`, with `startOfWeek`/`endOfWeek`).

## How the model is built

- **Times.** Times of day are integer minutes. An appointment carries its
  local day and its local "HH:MM" start and end clocks, which are what
  `toLocalDateInput`/`toLocalTimeInput` produce. `timeToMinutes` is modelled
  literally on those strings: split on ':', then `Number` of each field.
- **Days.** A day is an integer: the number of days since Thursday
  1970-01-01. Comparing two "YYYY-MM-DD" keys as strings orders them the
  same way as comparing the day numbers.
- **Raw store fields.** `Field = Absent | Num | NotNumeric` keeps the
  difference between null or undefined (skipped by `??`), a number, and a
  value that `Number` turns into NaN. This makes `a ?? b` and
  `Number(x) || 60` exact for integer fields.
- **Two service lookups.** `servicosById` is filled by `forEach` and
  `Map.set`, so the last service with an id wins (`LastService`).
  `servicos.find` returns the first (`FirstService`). Both lookups appear in
  the source, and the model keeps both.
- **Sorting.** Both sorts use `Array.prototype.sort`, which is stable. They
  are modelled as a stable insertion sort by an integer key (`Sorting`).
- **Code style.** The source's loops are methods with loop invariants,
  proved equal to a specification function:
  - the `getAvailableTimes` scan;
  - the `regex.exec` loop;
  - the `pacoteConcluidosByKey` and `agendaAgrupada` Map loops.

  The component state the lock maps live in is a class, `AgendaSession`.
  The rest is functions.

## Model

| member | source | states |
|---|---|---|
| TimeUtils.TimeToMinutes | src/App.jsx:112-117 | an empty value is no time; a parsed time is never negative |
| TimeUtils.ClockNeedsColon | src/App.jsx:112-117 | a value without ':' has no minutes field and reads as no time |
| TimeUtils.MinutesToTime | src/App.jsx:119-124 | the printed clock has at least two hour characters, then ':' and exactly two minute characters |
| TimeUtils.MinutesToTimeRoundTrip | src/App.jsx:112-124 | the clock minutesToTime prints for `m` is non-empty and timeToMinutes reads it back as `max(0, m)` |
| TimeUtils.MinutesToTimeInjective | src/App.jsx:119-124 | two non-negative minute counts that print the same clock are equal |
| TimeUtils.StartOfWeek | src/App.jsx:94-99 | the start of the week is a Monday, on or before the day and less than seven days before it |
| TimeUtils.EndOfWeek | src/App.jsx:101-106 | the end of the week is the Sunday six days after startOfWeek, on or after the day |
| TimeUtils.DaysSinceMondayFrom | src/App.jsx:94-99 | the day `r` days after a Monday is `r` days since Monday, for `r` from 0 to 6 |
| TimeUtils.SameWeek | src/App.jsx:94-106 | every day between startOfWeek and endOfWeek has the same start and end of week |
| Records.FirstService | src/App.jsx:129 | `servicos.find` by id: the result is the first service with that id, or none exists |
| Records.LastService | src/App.jsx:338-342 | `servicosById.get`: the result is the last service with that id, or none exists |
| Records.JoinedService | src/App.jsx:853 | the joined service when present; else a catalogue service with the appointment's service id; none exactly when there is no joined service and no catalogue service has the id |
| Records.ServiceDuration | src/App.jsx:126-132 | the joined service's duration when present, else the first catalogue match's, else 60; never absent |
| Records.EffectiveDuration | src/App.jsx:138 | `Number(duration) \|\| 60`: the duration itself when it is a non-zero number, otherwise 60; never 0 |
| Records.OnDay | src/App.jsx:623-625 | exactly the appointments of the given day, in order |
| SlotEngine.AppointmentRange | src/App.jsx:134-145 | start is the parsed start clock or 0; the stored end is kept when it parses and differs from the start, otherwise end = start + effective duration; when the start parses, the end differs from the start |
| SlotEngine.BlockingRanges | src/App.jsx:157-160 | holds the range of every non-canceled appointment other than the excluded one, and nothing else |
| SlotEngine.GetAvailableTimes | src/App.jsx:155-176 | the scanning loop returns the clocks of exactly the free starts, in grid order |
| SlotEngine.AvailableStartsExactly | src/App.jsx:155-176 | `t` is returned iff duration ≠ 0, 480 ≤ t, t + duration ≤ 1200, (t − 480) % 30 = 0, and `[t, t+duration)` overlaps no non-canceled, non-excluded appointment (half-open test) |
| SlotEngine.AvailableStartsAscending | src/App.jsx:167-173 | the returned starts are strictly ascending |
| SlotEngine.AvailableStartsEmpty | src/App.jsx:156-165 | nothing is returned for a zero duration or one longer than 720 minutes |
| SlotEngine.Active | src/App.jsx:149 | keeps exactly the non-canceled appointments |
| SlotEngine.ActiveAppend | src/App.jsx:149 | `.filter` keeps order and multiplicity: filtering a concatenation is the concatenation of the filtered parts |
| SlotEngine.RangesOf | src/App.jsx:150 | one range per appointment, position by position |
| SlotEngine.OccupiedRangesSpec | src/App.jsx:147-153 | the occupied ranges are a permutation of the non-canceled appointments' ranges, sorted by start, with equal starts kept in input order |
| SlotEngine.OccupiedSlots | src/App.jsx:147-153 | one "HH:MM - HH:MM" label per non-canceled appointment, in the sorted order |
| Sorting.SortByPermutes | src/App.jsx:151 | sorting keeps the same multiset of elements |
| Sorting.SortBySorted | src/App.jsx:151 | sorting orders the elements by key |
| Sorting.SortByStable | src/App.jsx:151 | elements with equal keys keep their relative order |
| PackageTracker.SplitIsLongest | src/App.jsx:196 | every way `(\d+)\s*(maos?\|pes?)` can read the name from `i` takes the longest run of digits and then the longest run of spaces, so backtracking finds nothing else |
| PackageTracker.MatchAtIsRegex | src/App.jsx:196 | the anchored match exists iff digits, then spaces, then "mao" or "pe" start at `i`; it then captures those digits and ends after the unit word and its optional 's' |
| PackageTracker.SumUnitCounts | src/App.jsx:196-203 | the `regex.exec` loop adds up the numbers of all matches, left to right |
| PackageTracker.UnitSumIsRunSum | src/App.jsx:196-203 | the left-to-right scan equals the sum over the maximal digit runs that are followed by a unit word |
| PackageTracker.NoDigitsNoUnits | src/App.jsx:196-205 | a name without digits names no units |
| PackageTracker.ExplicitPackageTotal | src/App.jsx:181-187 | the first alias that is not null or undefined decides: its number, or none when it is not numeric; none when all four are absent |
| PackageTracker.PackageSize | src/App.jsx:178-206 | 0 for no service; the explicit alias field when > 1; else the unit sum of the name when > 1; else 0; always 0 or > 1 |
| PackageTracker.PackageTotalByService | src/App.jsx:178-206 | the procedure with its early returns and exec loop computes PackageSize |
| PackageTracker.NameScenarios | src/App.jsx:196-205 | "2 maos 2 pes" is a 4-session package, "manicure" is no package |
| PackageTracker.PackageKeyInjective | src/App.jsx:355 | count keys of ids without ':' identify the (client, service) pair |
| PackageTracker.CompletedCountAppend | src/App.jsx:344-360 | the completed count is additive over the appointment list |
| PackageTracker.CountCompleted | src/App.jsx:344-360 | the Map loop counts, per key, exactly the completed appointments with both ids and a package service; a key is present iff its count is positive |
| PackageTracker.Progress | src/App.jsx:862-865 | progress is at most the package size, and is 0 iff no session is completed |
| PackageTracker.Complete | src/App.jsx:866-869 | a package is complete only after at least one full cycle: 0 < k ≤ n |
| PackageTracker.ProgressPeriodic | src/App.jsx:862-865 | once n > 0, progress is unchanged by n → n + k |
| PackageTracker.CompleteIffFullCycle | src/App.jsx:862-869 | for n > 0, "complete" holds iff the progress equals the package size |
| PackageTracker.ProgressNotPeriodicAtZero | src/App.jsx:862-865 | progress is 0 at n = 0 but k at n = k: periodicity needs n > 0 |
| PackageTracker.ProgressScenarios | src/App.jsx:862-869 | 5 of 4 sessions: progress 1, not complete; 8 of 4: progress 4, complete |
| PackageTracker.PackageBadge | src/App.jsx:853-869 | progress and completion are those of the completed count stored under the card's key (0 when there is no package or an id is missing); progress never exceeds the package size; complete implies full progress |
| Agenda.FilteredAgenda | src/App.jsx:282-292 | exactly the appointments of the selected day, or of the focus day in week mode |
| Agenda.WeekDays | src/App.jsx:304-311 | seven consecutive days from startOfWeek to endOfWeek, containing the selected day |
| Agenda.GroupByDay | src/App.jsx:294-302 | days strictly ascending; each group is exactly that day's appointments in input order and non-empty; every appointment's day has a group |
| Agenda.FirstSeenDays | src/App.jsx:295-300 | the Map's key order lists exactly the days of the appointments seen so far |
| Agenda.FirstSeenSnoc | src/App.jsx:298 | seeing one more appointment appends its day to the key order unless that day was already seen |
| Agenda.GroupStep | src/App.jsx:296-299 | one `forEach` step keeps the Map equal to the per-day lists of the prefix, each day listed once, with the key order equal to `FirstSeenDays` of the prefix |
| Agenda.SortedEntriesAscending | src/App.jsx:301 | sorting the Map entries leaves the days strictly ascending |
| Agenda.SortedGroups | src/App.jsx:301 | the sorted entries of a Map that groups the appointments by day have strictly ascending days, each list exactly that day's appointments, and every appointment's day present |
| Session.RescheduleGate | src/App.jsx:617-635 | no-op iff the new time is empty or the current clock; an accepted range has length equal to the effective duration |
| Session.OfferedClock | src/App.jsx:626-627 | every offered clock names a bookable start and parses back to it |
| Session.GateAcceptSound | src/App.jsx:617-634 | an accepted start is on the grid, in the window, clear of the day's other non-canceled appointments, and prints as the chosen clock |
| Session.GateAcceptComplete | src/App.jsx:617-634 | every bookable start other than the current clock is accepted with range `[t, t+duration)` |
| Session.GateAccepts | src/App.jsx:617-634 | a changed, non-empty clock that getAvailableTimes lists is accepted with the range it names |
| Session.GateRejectExactly | src/App.jsx:626-630 | a changed, non-empty time is refused iff no bookable start has that clock |
| Session.MovedRange | src/App.jsx:631-635 | the stored clocks of a rescheduled appointment read back as the accepted range |
| Session.BookableClear | src/App.jsx:623-627 | a start bookable for an appointment does not overlap any other non-canceled appointment of its day |
| Session.ReplaceKeepsDayFree | src/App.jsx:617-654 | replacing an appointment by a copy whose range starts at a start bookable for it and lasts the booked duration keeps every day free of overlapping non-canceled appointments |
| Session.RescheduleKeepsDayFree | src/App.jsx:617-654 | an accepted quick reschedule keeps every day free of overlapping non-canceled appointments |
| Session.Trim | src/App.jsx:552 | `trim()` leaves no white space at either end and is empty iff the text is all white space |
| Session.FormError | src/App.jsx:543-555 | the first failing check in the source's order: missing client or service, else missing date or time, else a blank address; none iff all pass |
| Session.TimeChanged | src/App.jsx:564-566 | only an edit of an existing appointment can change time; it has changed iff the form's date or start clock differs from the original's |
| Session.SetFlagsExclusive | src/App.jsx:594-597 | setting one id's two flags to values that are not both true keeps the maps exclusive |
| Session.AgendaSession.constructor | src/App.jsx:235-237 | the three maps start empty |
| Session.AgendaSession.SelectTime | src/App.jsx:613-615 | records the picked clock for the id, and changes nothing else |
| Session.AgendaSession.SelectedTime | src/App.jsx:877 | the pending pick whenever it is non-empty, else the current clock; empty only when the current clock is |
| Session.AgendaSession.EditEnabled | src/App.jsx:968 | the Edit button is enabled iff the id has no true edit lock, whatever the status |
| Session.AgendaSession.TimeSelectEnabled | src/App.jsx:989 | the time select is enabled iff the appointment is not canceled and the id has no true reschedule lock |
| Session.AgendaSession.CanSave | src/App.jsx:887-891 | saving is offered iff a non-empty pick differing from the current clock is pending and the time select is enabled |
| Session.AgendaSession.SaveEdit | src/App.jsx:543-602 | refusals in the source's order; after a stored edit that changed date or time, edit is locked and reschedule is unlocked for that id; otherwise the locks are unchanged; the maps stay exclusive |
| Session.AgendaSession.SaveReschedule | src/App.jsx:617-654 | follows RescheduleGate; after a stored move, reschedule is locked, edit is unlocked and the pending pick is dropped for that id; the Edit button is enabled and saving is disabled; the maps stay exclusive |
| Session.SomeControlEnabled | src/App.jsx:594-597 | with exclusive lock maps, an appointment that is not canceled always has its Edit button or its time select enabled |
| Session.CanSaveDecides | src/App.jsx:884-891 | a save the card allows is never a no-op, and is accepted iff some bookable start has the selected clock |

## Left out

- Supabase I/O: loading, inserts and updates. The store's answer is the
  `storeOk` parameter of `SaveEdit` and `SaveReschedule`, and `loadData` is
  not modelled. Client and service CRUD (`saveClient`, `deleteClient`,
  `saveService`, `toggleServiceStatus`) are store calls and are also out.
- `Date`, time zones and `Intl`: `toLocalDateInput`, `toLocalTimeInput`,
  `combineDateTime`, `formatDate` and `formatTime`. Days are integers and
  clocks are the "HH:MM" strings these produce.
  - The payload timestamps of `saveAgendamento` are not modelled, because
    they are computed with `Date` arithmetic.
  - A stored end is whatever clock `toLocalTimeInput` printed for it. In
    the source a null end prints the local clock of the epoch (for example
    "21:00" at UTC−3), which parses and is kept as the end unless it equals
    the start; an undefined end makes `toISOString` throw. The model does
    not derive that epoch clock: `AppointmentRange` takes the end clock as
    given, and its re-derivation branch for an end that does not parse
    follows the code even though the app's own clocks always parse.
- The Unicode NFD accent stripping and lower-casing of service names. The
  model takes the already normalised name.
- Revenue totals and the average ticket. They use floating-point price
  arithmetic.
- UI-only code: rendering, scrolling, `window.confirm` and form field
  plumbing (`updateAgendamentoField`, `horarioFim`).
  - The card's option list (`sortedTimes`) and the `hasAlternatives` hint
    are not modelled.
  - The card computes its options with the raw duration, where a 0 or
    non-numeric duration offers no times. `saveReschedule` uses
    `Number(duration) || 60` instead.
- TimeToMinutes: `Number()` is modelled only on empty strings and strings of
  ASCII digits. Surrounding white space, signs, decimals, exponents and hex
  read as NaN in the model. The clocks the app produces never contain them.
- ServiceDuration and EffectiveDuration: durations are whole minutes, so a
  fractional `duracao_minutos` (which `saveService` stores from a free text
  field) is not modelled. In the source it would test `[t, t + 45.5)` and
  print an end such as "10:45.5".
- ExplicitPackageTotal and PackageSize: fractional package fields and
  floating-point overflow to Infinity are not modelled. Fields are integers,
  `NotNumeric` or absent.
- PackageKeyInjective: it assumes client ids without ':'. The source's
  string key can collide for ids that contain ':'.
- RescheduleKeepsDayFree: it holds only when saves do not interleave. Each
  save is one atomic step over the appointment list the gate reads. In the
  source, `saveReschedule` awaits the store before `loadData` reloads the
  list, and other cards stay clickable meanwhile. Two reschedules started
  from the same loaded list can both pass `getAvailableTimes` for the same
  slot and both be stored. A change made on another device has the same
  effect. The store does not check overlaps.
- RescheduleKeepsDayFree: stated for a positive effective duration only.
  The source does not reject a negative duration, which gives an inverted
  range.

## Behaviour worth knowing

- **Half-open overlap test.** The overlap test is half-open
  (`start < r.end && end > r.start`). A 30-minute booking at 09:30 right
  before a 10:00–11:00 appointment is therefore offered, not excluded.
- **Inverted ranges.** An appointment whose stored end is past midnight
  (a full edit at 23:30 for a 60-minute service stores the end "00:30"), or
  whose duration is negative, gets a range whose end lies before its start.
  The half-open test then blocks a booking only when the booking starts
  before that end and finishes after that start, that is, when it spans the
  whole gap between them. A range from 23:30 back to 00:30 blocks no booking
  in the working window; a range from 10:00 back to 09:30 blocks only bookings
  that cover all of 09:30–10:00.
- **Negative durations.** `getAvailableTimes` only short-circuits on a zero
  or NaN duration, so a negative duration is not rejected.
- **Week mode.** Week mode lists the appointments of a single focus day, not
  the whole week.
- **Canceled appointments.** A canceled appointment disables only the quick
  reschedule controls. The Edit button is disabled only by the edit lock.
- **Full edits and overlaps.** The full edit makes no availability check, so
  the no-overlap property (`RescheduleKeepsDayFree`) is preserved only by
  quick reschedules, and only when saves do not interleave.
- **Lock lifetime.** The lock maps are not cleared when appointments are
  reloaded. They last for the session.
- **Progress at zero sessions.** Package progress is periodic in the
  completed count only from the first completed session on
  (`ProgressNotPeriodicAtZero`).
