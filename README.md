# Reservation calendar: availability model

A model of the reservation calendar widget of a Next.js sample project. The widget shows the
current month. Each day is a slot, `available` or `unavailable`. Clicking an available day opens a
modal form dated with that day. Submitting the form marks the day unavailable and closes the
modal.

The model has five modules:

- `Wrappers`: `Option`, for `Date | null` and for the result of `Array.find`.
- `Dates`: local calendar days and instants. It gives the Gregorian month lengths, the day number
  and weekday that JavaScript's `Date` uses, and the order `<` compares on two `Date` values.
  It proves that the weekday advances by one each day, that "day 0 of the next month" is the
  month's last day (`LastDayIsDayZeroOfNextMonth`), and that the calendar order agrees with the
  day-number order.
- `Slots`: the availability logic as pure values. It covers slot generation (`InitialSlots`), the
  slot lookup (`Find`), the selection gate (`Selectable`) and the reserve update
  (`MarkReserved`), with their lemmas.
- `Modal`: the form record (`name`, `email`, `phone`, `date`), the per-input update, and the
  callbacks the modal makes to its host.
- `Calendar`: the generation loop as a method, and the class `ReservationCalendar`. The class
  holds the component state: `reservationSlots`, `modalOpen`, `selectedDate`, the modal's
  `formData`, and the trace `calls` of callbacks from the modal. Each event handler is one
  method. `Valid()` is the component invariant: the slots keep the days generated for the mount
  instant's month, a slot can only lose availability, the form is dated with the selected date,
  and an open form's day is still bookable. The constructor establishes it, and `SelectSlot`,
  `ChangeField`, `Submit` and `Close` keep it. `HandleReservationSubmit` and `HandleClose` are
  the calendar's callbacks; they run only inside `Submit` and `Close`, and between the two
  callbacks of a submit the invariant does not hold (the modal is still open on a day that is
  now reserved). `AprilSession` walks a session on 2025-04-10 at 10:00 using only the contracts.

Months are numbered 1..12 in `CalendarDay`; JavaScript's `getMonth()` numbers them 0..11.

The model follows the code in three places:

- Cancelling does not clear the form. Its fields survive into the next opening.
- Empty required fields are rejected by the browser, not by the code. They are a precondition of
  `Submit` rather than an error result.
- A click on a day with no slot is ignored, like a click on an unavailable day. No "not found"
  error is raised.

## Model

| member | source | states |
|---|---|---|
| `Dates.DaysInMonth` | src/app/reservationCalenderSample/ReservationCalendar.tsx:37 | A month has 28 to 31 days. February has 29 exactly in leap years (divisible by 4, and not by 100 unless by 400). April, June, September and November have 30; the rest have 31. |
| `Dates.DaysBeforeNextYear` | src/app/reservationCalenderSample/ReservationCalendar.tsx:37 | The day number of January 1st advances by 366 over a leap year and by 365 over any other year. |
| `Dates.NextDay` | src/app/reservationCalenderSample/ReservationCalendar.tsx:37 | The next day of a valid day is a valid day and is later in the calendar; its month- and year-crossing cases are the overflow of `new Date(y, m + 1, 0)`. |
| `Dates.NextDayNumber` | src/app/reservationCalenderSample/ReservationCalendar.tsx:37 | Each day's number is one more than the previous day's, across month and year ends. So the last day `DaysInMonth(y, m)` is exactly "day 0 of the next month", which is how the widget computes the month length. |
| `Dates.LastDayIsDayZeroOfNextMonth` | src/app/reservationCalenderSample/ReservationCalendar.tsx:37 | "Day 0 of the next month" is the day just before the first of the following month (January of the next year after December), and it is day `DaysInMonth(y, m)` of the month. |
| `Dates.Midnight` | src/app/reservationCalenderSample/ReservationCalendar.tsx:41 | Defines `new Date(y, m, d)` as the day's local midnight; its comparison with `today` is characterised in `Dates.MidnightBeforeIff`. |
| `Dates.IsSunday` | src/app/reservationCalenderSample/ReservationCalendar.tsx:44 | Defines `getDay() === 0`; the weekday's properties are in `Dates.Weekday` and `Dates.WeekdayOfNextDay`. |
| `Dates.InstantBefore` | src/app/reservationCalenderSample/ReservationCalendar.tsx:45 | Defines `date < today` as the comparison of time values; its calendar meaning is in `Dates.MidnightBeforeIff`. |
| `Dates.Weekday` | src/app/reservationCalenderSample/ReservationCalendar.tsx:44 | `getDay()` is in 0..6, and 1970-01-01 is a Thursday (4). |
| `Dates.WeekdayOfNextDay` | src/app/reservationCalenderSample/ReservationCalendar.tsx:44 | The weekday of the next day is the weekday of the day plus one, modulo 7. |
| `Dates.DayBeforeIffSmallerNumber` | src/app/reservationCalenderSample/ReservationCalendar.tsx:45 | On valid days, calendar order holds iff the day number is smaller. Two valid days are equal iff their day numbers are equal. |
| `Dates.MidnightBeforeIff` | src/app/reservationCalenderSample/ReservationCalendar.tsx:45 | `midnight(d) < now` holds iff `d` is an earlier day than today, or `d` is today and `now` is past midnight. |
| `Slots.InitialStatus` | src/app/reservationCalenderSample/ReservationCalendar.tsx:44-49 | Defines the generated status `isPast \|\| isWeekend ? 'unavailable' : 'available'`; its calendar meaning is in `Slots.InitialStatusByCalendar`. |
| `Slots.InitialSlots` | src/app/reservationCalenderSample/ReservationCalendar.tsx:31-54 | Defines the list `generateInitialReservations` returns; its properties are in `Slots.InitialSlotsCoverMonth` and `Slots.InitialStatusByCalendar`, and `Calendar.GenerateInitialReservations` computes it by the source's loop. |
| `Slots.InitialSlotsCoverMonth` | src/app/reservationCalenderSample/ReservationCalendar.tsx:37-51 | Generation yields exactly `DaysInMonth` slots, one for each day 1..N of the current month. The days are valid, strictly ascending and pairwise distinct. |
| `Slots.InitialStatusByCalendar` | src/app/reservationCalenderSample/ReservationCalendar.tsx:43-49 | A generated slot is available iff its day is not a Sunday and is after today, or is today at exactly midnight. Saturday is not excluded. |
| `Slots.AprilStatuses` | src/app/reservationCalenderSample/ReservationCalendar.tsx:43-49 | Generated on Thursday 2025-04-10 at 10:00, April has 30 slots. Sunday the 6th and Wednesday the 9th are unavailable, and Tuesday the 15th is available. |
| `Slots.PastDaysUnavailable` | src/app/reservationCalenderSample/ReservationCalendar.tsx:45 | Every day earlier than today is generated unavailable. |
| `Slots.TodayUnavailableAfterMidnight` | src/app/reservationCalenderSample/ReservationCalendar.tsx:45 | Today's own slot is unavailable whenever the clock is past midnight. |
| `Slots.FirstIndex` | src/app/reservationCalenderSample/ReservationCalendar.tsx:65-67 | The search position is at most the length. No slot before it has the clicked day. If it is inside the list, the slot there has that day. |
| `Slots.Find` | src/app/reservationCalenderSample/ReservationCalendar.tsx:65-67 | The lookup returns nothing iff no slot has the clicked day. Otherwise it returns the slot at the first position with that day. |
| `Slots.Selectable` | src/app/reservationCalenderSample/ReservationCalendar.tsx:65-69 | Defines the gate `reservationSlot?.status === 'available'` on the first slot of the clicked day; its properties are in `Slots.SelectableIsAvailable`, `Slots.SelectableInitially` and `Slots.SelectableAfterReserve`. |
| `Slots.SelectableIsAvailable` | src/app/reservationCalenderSample/ReservationCalendar.tsx:65-69 | The gate opens only for a day that has an available slot. |
| `Slots.FindDistinct` | src/app/reservationCalenderSample/ReservationCalendar.tsx:65-67 | When days are distinct, looking up a slot's day returns that slot. |
| `Slots.SelectableInitially` | src/app/reservationCalenderSample/ReservationCalendar.tsx:65-72 | On the generated slots, a click opens the form iff the day is in the current month and its slot is available. A day outside the month never opens it. |
| `Slots.MarkReserved` | src/app/reservationCalenderSample/ReservationCalendar.tsx:80-86 | The reserve update keeps length and order and keeps every slot's day. Every slot of the reserved day becomes unavailable. Every other slot is identical to before. |
| `Slots.MarkReservedNarrows` | src/app/reservationCalenderSample/ReservationCalendar.tsx:80-86 | If a list keeps the generated days and only lost availability, it still does after a reservation. |
| `Slots.MarkReservedNoMatch` | src/app/reservationCalenderSample/ReservationCalendar.tsx:80-86 | Reserving a day that matches no slot leaves the list unchanged. |
| `Slots.MarkReservedIdempotent` | src/app/reservationCalenderSample/ReservationCalendar.tsx:80-86 | Reserving the same day twice gives the same list as reserving it once. |
| `Slots.MarkReservedCommutes` | src/app/reservationCalenderSample/ReservationCalendar.tsx:80-86 | Reservations of two days give the same list in either order. |
| `Slots.AvailableDaysAfterReserve` | src/app/reservationCalenderSample/ReservationCalendar.tsx:80-86 | A reservation removes exactly its day from the set of available days. No day becomes available. |
| `Slots.FindUnaffected` | src/app/reservationCalenderSample/ReservationCalendar.tsx:65-86 | After reserving day D, looking up any other day returns the same slot as before. |
| `Slots.SelectableAfterReserve` | src/app/reservationCalenderSample/ReservationCalendar.tsx:65-86 | After reserving D, a day opens the form iff it differs from D and opened it before. A reserved day can never open the form again. |
| `Modal.InitialForm` | src/app/reservationCalenderSample/ReservationModal.tsx:24-29 | The initial form has empty name, email and phone. Its date is the selected date if there is one, and the current instant otherwise. |
| `Modal.WithField` | src/app/reservationCalenderSample/ReservationModal.tsx:37-40 | An input change sets the named field to the new value. The other fields and the date are unchanged. |
| `Modal.WithFieldOverrides` | src/app/reservationCalenderSample/ReservationModal.tsx:37-40 | A later change of one input overrides an earlier one. |
| `Modal.WithFieldCommutes` | src/app/reservationCalenderSample/ReservationModal.tsx:37-40 | Changes to two different inputs give the same form in either order. |
| `Modal.Filled` | src/app/reservationCalenderSample/ReservationModal.tsx:79-105 | Defines the condition the three `required` inputs (lines 79, 92 and 105) put on submission: name, email and phone are all non-empty. It is the precondition of `Calendar.ReservationCalendar.Submit`. |
| `Calendar.GenerateInitialReservations` | src/app/reservationCalenderSample/ReservationCalendar.tsx:31-54 | The counting loop builds exactly the slot list `InitialSlots(today)`. The lemmas above give that list's properties. |
| `Calendar.ReservationCalendar.Valid` | src/app/reservationCalenderSample/ReservationCalendar.tsx:28-75 | Defines the component invariant: the month generated for `today` with some days reserved (same days, availability only lost), the form dated with the selected date, and an open modal only on a bookable day. The constructor establishes it; `SelectSlot`, `ChangeField`, `Submit` and `Close` keep it. The callbacks `HandleReservationSubmit` and `HandleClose` run only inside `Submit` and `Close` and do not promise it on their own. |
| `Calendar.ReservationCalendar.constructor` | src/app/reservationCalenderSample/ReservationCalendar.tsx:28-60 | On mount, the slots are the generated month and the modal is closed. No date is selected. The form is empty and dated now. The invariant holds. |
| `Calendar.ReservationCalendar.SelectSlot` | src/app/reservationCalenderSample/ReservationCalendar.tsx:63-75 | If the first slot of the clicked day is available, the modal opens, `selectedDate` becomes the clicked instant, and the form is re-dated to it with its fields kept. Otherwise nothing changes. The slots never change. |
| `Calendar.ReservationCalendar.SyncFormDate` | src/app/reservationCalenderSample/ReservationModal.tsx:31-35 | A non-null selected date re-dates the form and leaves name, email and phone untouched. A null one leaves the form unchanged. |
| `Calendar.ReservationCalendar.ChangeField` | src/app/reservationCalenderSample/ReservationModal.tsx:37-40 | An input change while the form is open replaces only that field. The invariant is kept. |
| `Calendar.ReservationCalendar.HandleReservationSubmit` | src/app/reservationCalenderSample/ReservationCalendar.tsx:78-93 | The calendar's submit handler replaces the slots with their reserve update for the record's day. That day leaves the set of available days and can no longer be selected. |
| `Calendar.ReservationCalendar.HandleClose` | src/app/reservationCalenderSample/ReservationCalendar.tsx:139 | The calendar's close handler clears `modalOpen`. |
| `Calendar.ReservationCalendar.Submit` | src/app/reservationCalenderSample/ReservationModal.tsx:42-46 | The modal calls `onSubmit` exactly once with the current record, and only then `onClose`. The slots become their reserve update for the record's day. That day was bookable and no longer is. The available days lose exactly that day. The modal closes. The selected date and all form fields are kept. |
| `Calendar.ReserveThenReselect` | src/app/reservationCalenderSample/ReservationModal.tsx:23-46 | After filling in the open form and submitting it, the hand-off record holds the typed fields and the form's date. Both callbacks occur in order. The slots are the reserve update of the old slots for that day. Clicking the reserved day again leaves the modal closed. The calendar still satisfies its invariant, the form still holds the typed record, and the selected date is unchanged. |
| `Calendar.ReservationCalendar.Close` | src/app/reservationCalenderSample/ReservationModal.tsx:111-117 | The cancel button, like the close mark at lines 55-60, calls only `onClose`. The modal closes. Slots, selected date and form are unchanged. |

## Left out

- Rendering: the JSX, the Tailwind classes, the calendar widget's configuration, and the
  status icons of `ReservationStatus`. Only the two-valued status type is modelled.
- View switching (`currentView`), the hard-coded demo events and `defaultDate`. They have no
  behaviour that reaches the slots or the form.
- Localisation: the `ja` locale, the toolbar captions and the date display format.
- `console.log` and `alert` in the submit handler. They are represented only by the
  `OnSubmit(record)` entry in `calls`.
- The clock. The component reads `new Date()` on every render, but only the mount-time reading
  reaches the slots. It is the constructor's `now` parameter. The model also uses this instant
  for the form's initial date, which the source reads from the clock a moment later.
- Time zones and daylight-saving shifts. An instant is a local calendar day plus milliseconds
  since local midnight, with a fixed offset.
- JavaScript's mapping of years 0..99 to 1900..1999 in `new Date(y, m, d)`. Also the `Date`
  range limit of about 275,000 years. A current year never falls in either case.
- Browser validation: `type="email"` format checking is not modelled.
  `Calendar.ReservationCalendar.Submit` requires the three `required` fields to be non-empty,
  because the browser only lets the form submit then.
- React scheduling: memoisation, state batching and effect timing. Each handler is one atomic
  transition. The date-sync effect runs inside `SelectSlot`, the one handler that changes
  `selectedDate`.
- The `end` and multi-day parts of a drag selection. The source also reads only `start`.
- `Calendar.ReservationCalendar.SelectSlot` does not model the open modal's overlay. The overlay
  keeps clicks from reaching the calendar, but the contract holds whether or not a click gets
  through.
