# Medora appointment scheduling core, in Dafny

A model of the scheduling logic of the Medora clinic agenda (`agenda/models.py`),
with proofs of its properties:

- **Slot grid** (`Doctor.create_schedule`): from a doctor's opening and closing
  times and a slot length, the list of candidate start times. It begins at the
  opening time and steps by the slot length while strictly before closing.
- **Booking validation** (`Appointment.check_conflicts`): the other
  appointments of the same doctor on the same date (the row with the
  candidate's own primary key excluded) are scanned. An overlap of half-open
  intervals `[start, start + duration)` rejects the candidate. Only then is the
  start time checked against `[start_time, end_time)`.
- **Stored-set invariants**: the `unique_together` constraint on
  (doctor, date, time), and freedom from overlaps, which an accepted candidate
  preserves.

Times of day are whole minutes since midnight (`TimeOfDay`, 0..1439). Interval
ends are unbounded integers, so an appointment may run past midnight, as the
`datetime` sums of the source do within the range of `datetime`. A date is an
abstract day number. The appointment table is a `seq<Appointment>` and the ORM query is a filter over it.

Modules: `Agenda` (entities and field domains), `Schedule` (the slot grid),
`Conflicts` (the booking check), `Bookings` (table invariants).

The model follows the code, including these behaviours a reader might not expect:

- Status is never consulted. Cancelled (`CANCELADA`) and completed
  (`REALIZADA`) appointments block new bookings exactly like the others.
- The overlap check runs before the working-hours check, so a candidate that
  fails both is reported as a conflict.
- An empty or inverted working day gives an empty grid, not an error, when both reads of the clock fall on the same date.
- `appointment_duration` is a `PositiveIntegerField`, which admits 0.

## Model

The contracts below are stated with these definitions:
- `Schedule.Grid` is the list of slots of lines 55-63.
- `Conflicts.Overlaps` and `Conflicts.Clash` are the half-open overlap test of line 149.
- `Conflicts.WithinHours` is the start-only hours test of line 155.
- `Conflicts.SameDayOther` is the row selection of lines 141-144.
- `Bookings.UniqueSlots` is the `unique_together` constraint of line 110.
- `Bookings.NoOverlaps` says no two rows of one doctor on one date overlap.
- `Bookings.Keyed` says every row has a key and no two rows share one.
- `Bookings.Without` is the table without the row holding a given key, the half of `save()` that replaces a stored row.
- `Bookings.KeyAvailable` says the candidate already has a key or the key it is given is unused, which every save lemma requires.

| member | source | states |
|---|---|---|
| Schedule.CreateSchedule | agenda/models.py:45-65 | the slot length defaults to 30 minutes; the loop's result is exactly the grid `Grid(start_time, end_time, duration)`; it terminates whenever the slot length is positive or the day is empty |
| Schedule.GridBounds | agenda/models.py:55-62 | every slot `s` satisfies `start_time <= s < end_time`; the grid is empty exactly when `start_time >= end_time` |
| Schedule.GridAt | agenda/models.py:55-63 | the i-th slot is `start_time + i * duration` |
| Schedule.GridSteps | agenda/models.py:55-63 | the first slot is the opening time; consecutive slots differ by exactly `duration`; the grid is strictly increasing |
| Schedule.GridLength | agenda/models.py:57-63 | with `n` slots, `(n - 1) * duration < end - start <= n * duration` |
| Schedule.GridCount | agenda/models.py:57-63 | the number of slots is `ceil((end - start) / duration)`, and 0 for an empty day |
| Schedule.GridComplete | agenda/models.py:60-63 | the last slot plus `duration` reaches or passes the closing time |
| Schedule.GridMembership | agenda/models.py:55-63 | a time is a slot iff it lies in `[start, end)` and is a whole number of slot lengths after opening |
| Schedule.MorningGrid | agenda/models.py:45-65 | 08:00-12:00 with the default slot length of 30 minutes (`DefaultDuration`) gives the 8 slots 08:00 ... 11:30 |
| Schedule.MorningSchedule | agenda/models.py:45-65 | `create_schedule` called without a slot length on a doctor working 08:00-12:00 returns the 8 slots 08:00 ... 11:30 |
| Conflicts.OthersSameDay | agenda/models.py:141-144 | the selected rows are exactly the table rows with the candidate's doctor and date and a different primary key |
| Conflicts.Validate | agenda/models.py:131-156 | `Conflict` iff some row of the same doctor and date with another key overlaps the candidate; `OutsideHours` iff none overlaps and the start is not in `[start_time, end_time)`; `Ok` iff none overlaps and the start is in it |
| Conflicts.CheckConflicts | agenda/models.py:131-156 | the loop with early exit on the first overlap, followed by the hours test, returns the verdict `Validate` defines |
| Conflicts.OverlapsSymmetric | agenda/models.py:149 | the overlap test does not depend on which interval is the candidate |
| Conflicts.TouchingDoesNotOverlap | agenda/models.py:147-149 | intervals that touch end to start (09:30 against 09:00+30) do not overlap |
| Conflicts.StatusIgnored | agenda/models.py:141-152 | changing the status of the candidate or of any stored row never changes the verdict |
| Conflicts.InactiveStatusStillBlocks | agenda/models.py:88-93 | an overlapping `CANCELADA` or `REALIZADA` row of the same doctor and date still yields `Conflict` |
| Conflicts.ConflictWins | agenda/models.py:146-156 | a candidate that overlaps a row and starts outside the working day is reported as `Conflict` |
| Conflicts.EndNotChecked | agenda/models.py:154-156 | a candidate starting inside the working day with no overlap is accepted even when it ends after closing |
| Conflicts.ExampleOverlap | agenda/models.py:146-152 | 09:15 for 30 minutes against 09:00-09:30 is `Conflict` |
| Conflicts.ExampleTouching | agenda/models.py:146-152 | 09:30 for 30 minutes against 09:00-09:30 is `Ok` |
| Conflicts.ExampleEarly | agenda/models.py:154-156 | a start at 07:59 with working hours 08:00-17:00 is `OutsideHours` |
| Conflicts.ExampleRunsPastClosing | agenda/models.py:154-156 | 16:45 for 60 minutes with working hours 08:00-17:00 is `Ok` |
| Conflicts.ExampleOwnRowExcluded | agenda/models.py:141-144 | re-checking a stored row does not conflict with that row itself |
| Bookings.AsStored | agenda/models.py:87-110 | the row an appointment becomes once Django's `save()` stores it in the table. The source itself never calls `save()`. The row always has a key: a row that had one keeps it, and a new row gets `key` and otherwise equals the candidate |
| Bookings.Saved | agenda/models.py:87-110 | the table after Django's `save()` of the candidate, which the source itself never calls: after saving, the table holds the saved candidate and every old row whose key differs from the candidate's |
| Bookings.SavedKeepsKeys | agenda/models.py:87-110 | saving under an unused key keeps every row keyed and the keys unique |
| Bookings.SavedNoOverlapsIffNoConflict | agenda/models.py:131-156 | over a keyed table with no overlaps, saving the candidate keeps it free of overlaps iff the check reports no conflict |
| Bookings.OkPreservesNoOverlaps | agenda/models.py:131-156 | if the table is keyed and has no overlapping rows of one doctor and date, and the candidate is `Ok`, the table after saving it is still keyed and has none either, so saves can be chained |
| Bookings.ExampleSecondBookingConflicts | agenda/models.py:141-152 | after 09:00+30 is saved under key 1, a new 09:10 booking is a conflict |
| Bookings.NoOverlapsGivesUniqueSlots | agenda/models.py:110 | when all durations are positive, no overlaps implies no two rows share (doctor, date, time) |
| Bookings.OkPreservesUniqueSlots | agenda/models.py:110 | with positive durations, saving an accepted candidate keeps the table keyed and keeps the `unique_together` constraint |
| Bookings.ZeroLengthOverlap | agenda/models.py:149 | a zero-length candidate overlaps a row only when it starts strictly inside it |
| Bookings.ZeroLengthAtStartPasses | agenda/models.py:99-110 | a zero-length candidate at another row's start is `Ok`, yet saving it would break the `unique_together` constraint, which alone keeps it out |

## Left out

- Schedule.CreateSchedule: requires a positive slot length when the working day is non-empty. With a zero or small negative step the source appends to the list on every pass until memory runs out. With a larger negative step it raises `OverflowError` once the `datetime` falls below year 1. Neither behaviour is modelled.
- Schedule.CreateSchedule: when the slot length is so large that `timedelta` (line 57) or the step at line 63 leaves the range of `datetime`, the source raises `OverflowError`; the model returns the grid. Examples are a slot length past about 1.44e12 minutes, even on an empty day, or 5e9 minutes after the first slot.
- Schedule.CreateSchedule: the slot length is a whole number of minutes. The source also accepts a fractional one, such as 7.5, which gives 08:00, 08:07:30 and so on.
- Conflicts.Validate and Conflicts.CheckConflicts: do not model the `OverflowError` that the `datetime` sums at lines 138 and 148 raise past 9999-12-31 23:59, because dates are abstract day numbers without a range. In these cases the model gives a verdict.
- Conflicts.Validate and Conflicts.CheckConflicts: take the candidate's doctor profile as a parameter, required to be the one its foreign key names. The source reads it through `self.doctor`.
- Schedule.CreateSchedule: assumes that the two reads of `datetime.today()` at lines 55 and 56 of `agenda/models.py` return the same date, so both ends of the grid lie on one day. A call that straddles midnight puts `end_dt` on the next day. The source then returns a grid that runs on through the next day, with times wrapping past midnight: for 08:00-12:00 in 30-minute slots, 56 slots, the 33rd of them 00:00. An inverted day such as 17:00-08:00 then gives slots through the night rather than none. The model does not capture this case.
- Seconds and microseconds of `TimeField` values are left out; times are whole minutes.
- The database: persistence, migrations, the choice of a new row's primary key (`Bookings.Saved` takes an unused key as a parameter), and enforcement of `unique_together` by the database (stated as the predicate `UniqueSlots`, not as an insert that fails).
- The upper bound of `PositiveIntegerField` set by the database backend: durations are unbounded `nat`s.
- The race between validating and inserting under concurrent requests: the source has no transactions or locking to model.
- The text of the two `ValidationError` messages: the verdicts stand for them.
- `__str__` of every model, `Meta` ordering and verbose names: text rendering and framework configuration. The order of the query does not change the verdict.
- `Specialty`, `Patient` and the other fields of `Doctor`: plain stored data with no logic.
- `agenda/views.py`, `agenda/forms.py`, `agenda/admin.py`, `agenda/urls.py`: HTTP handling, authentication and form plumbing.
