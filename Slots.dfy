/**
 * The availability model of the reservation calendar, as pure values: the
 * slot list generated for the current month, the lookup of the slot a click
 * lands on, and the update that marks a reserved day unavailable.
 */
module Slots {
  import opened Wrappers
  import opened Dates

  /** The two statuses a day can have. */
  datatype Status = Available | Unavailable

  /** One day of the displayed month and whether it can be booked. */
  datatype Slot = Slot(date: CalendarDay, status: Status)

  /**
   * The status generation gives day `d` at instant `now`: unavailable when
   * its midnight is before `now` or it is a Sunday, available otherwise.
   */
  function InitialStatus(d: CalendarDay, now: Instant): Status
    requires 1 <= d.month <= 12 && 1 <= now.date.month <= 12
  {
    if InstantBefore(Midnight(d), now) || IsSunday(d) then Unavailable else Available
  }

  /** One slot per day 1..N of `now`'s month, in order, with its generated status. */
  function InitialSlots(now: Instant): seq<Slot>
    requires ValidInstant(now)
  {
    var y, m := now.date.year, now.date.month;
    seq(DaysInMonth(y, m), i requires 0 <= i =>
      var d := CalendarDay(y, m, i + 1); Slot(d, InitialStatus(d, now)))
  }

  /** The generated slot of day `i + 1`. */
  lemma InitialSlotAt(now: Instant, i: int)
    requires ValidInstant(now) && 0 <= i < DaysInMonth(now.date.year, now.date.month)
    ensures |InitialSlots(now)| == DaysInMonth(now.date.year, now.date.month)
    ensures var d := CalendarDay(now.date.year, now.date.month, i + 1);
            InitialSlots(now)[i] == Slot(d, InitialStatus(d, now))
  {
  }

  predicate DistinctDays(slots: seq<Slot>) {
    forall i, j | 0 <= i < j < |slots| :: slots[i].date != slots[j].date
  }

  /** Generation covers the current month: days 1..N in ascending order, each valid and distinct. */
  lemma InitialSlotsCoverMonth(now: Instant)
    requires ValidInstant(now)
    ensures var s := InitialSlots(now);
            && |s| == DaysInMonth(now.date.year, now.date.month)
            && (forall i | 0 <= i < |s| ::
                  s[i].date == CalendarDay(now.date.year, now.date.month, i + 1) && ValidDay(s[i].date))
            && (forall i, j | 0 <= i < j < |s| :: DayBefore(s[i].date, s[j].date))
            && DistinctDays(s)
  {
  }

  /**
   * A generated slot is available exactly when its day is not a Sunday and
   * is later than today, or is today and the clock reads exactly midnight.
   * Saturday is bookable: only Sunday is excluded.
   */
  lemma {:induction false} InitialStatusByCalendar(now: Instant, i: int)
    requires ValidInstant(now) && 0 <= i < |InitialSlots(now)|
    ensures var s := InitialSlots(now)[i];
            s.status == Available <==>
              !IsSunday(s.date) &&
              (DayBefore(now.date, s.date) || (s.date == now.date && now.millis == 0))
  {
    var d := InitialSlots(now)[i].date;
    InitialSlotsCoverMonth(now);
    assert InitialSlots(now)[i].status == InitialStatus(d, now);
    MidnightBeforeIff(d, now);
    assert !DayBefore(d, now.date) && d != now.date ==> DayBefore(now.date, d);
  }

  /** Every day earlier than today is generated unavailable. */
  lemma {:induction false} PastDaysUnavailable(now: Instant, i: int)
    requires ValidInstant(now) && 0 <= i < |InitialSlots(now)|
    requires DayBefore(InitialSlots(now)[i].date, now.date)
    ensures InitialSlots(now)[i].status == Unavailable
  {
    InitialStatusByCalendar(now, i);
  }

  /** Today's own slot is unavailable whenever the clock is past midnight. */
  lemma {:induction false} TodayUnavailableAfterMidnight(now: Instant)
    requires ValidInstant(now) && 0 < now.millis
    ensures var s := InitialSlots(now);
            |s| == DaysInMonth(now.date.year, now.date.month) &&
            s[now.date.day - 1].date == now.date &&
            s[now.date.day - 1].status == Unavailable
  {
    InitialSlotsCoverMonth(now);
    InitialStatusByCalendar(now, now.date.day - 1);
  }

  /**
   * Generation on Thursday 2025-04-10 at 10:00: Sunday the 6th and Wednesday
   * the 9th are unavailable, Tuesday the 15th is available.
   */
  lemma AprilStatuses()
    ensures var s := InitialSlots(Instant(CalendarDay(2025, 4, 10), 36_000_000));
            |s| == 30 && s[5].status == Unavailable && s[8].status == Unavailable &&
            s[14].status == Available
  {
    var now := Instant(CalendarDay(2025, 4, 10), 36_000_000);
    InitialSlotAt(now, 5);
    InitialSlotAt(now, 8);
    InitialSlotAt(now, 14);
    assert Weekday(CalendarDay(2025, 4, 6)) == 0;
    assert Weekday(CalendarDay(2025, 4, 15)) == 2;
    MidnightBeforeIff(CalendarDay(2025, 4, 9), now);
    MidnightBeforeIff(CalendarDay(2025, 4, 15), now);
  }

  /**
   * The position of the first slot whose calendar day is `d`, or `|slots|`
   * when there is none.
   */
  function FirstIndex(slots: seq<Slot>, d: CalendarDay): (k: nat)
    ensures k <= |slots|
    ensures forall j | 0 <= j < k :: slots[j].date != d
    ensures k < |slots| ==> slots[k].date == d
  {
    if slots == [] then 0
    else if slots[0].date == d then 0
    else 1 + FirstIndex(slots[1..], d)
  }

  /** `slots.find(slot => same day as d)`: the first slot whose day is `d`, if any. */
  function Find(slots: seq<Slot>, d: CalendarDay): (r: Option<Slot>)
    ensures r.None? <==> forall i | 0 <= i < |slots| :: slots[i].date != d
    ensures r.Some? ==> FirstIndex(slots, d) < |slots| && r.value == slots[FirstIndex(slots, d)]
  {
    var k := FirstIndex(slots, d);
    if k < |slots| then Some(slots[k]) else None
  }

  /** The selection gate: the first slot of day `d` exists and is available. */
  predicate Selectable(slots: seq<Slot>, d: CalendarDay) {
    var r := Find(slots, d);
    r.Some? && r.value.status == Available
  }

  /** With one slot per day, a day's slot is the one `Find` returns. */
  lemma FindDistinct(slots: seq<Slot>, i: int)
    requires DistinctDays(slots) && 0 <= i < |slots|
    ensures Find(slots, slots[i].date) == Some(slots[i])
  {
  }

  /**
   * Selecting a day of the generated month opens the form exactly when that
   * day's generated slot is available; a day outside the month never opens it.
   */
  lemma SelectableInitially(now: Instant, d: CalendarDay)
    requires ValidInstant(now)
    ensures var s := InitialSlots(now);
            Selectable(s, d) <==>
              d.year == now.date.year && d.month == now.date.month && 1 <= d.day <= |s| &&
              s[d.day - 1].status == Available
  {
  }

  /** The slot after a reservation for day `d`: unavailable if it is `d`'s slot. */
  function MarkSlot(slot: Slot, d: CalendarDay): Slot {
    if slot.date == d then slot.(status := Unavailable) else slot
  }

  /** `prev.map(...)` of the submit handler: every slot of day `d` becomes unavailable. */
  function MarkReserved(slots: seq<Slot>, d: CalendarDay): (r: seq<Slot>)
    ensures |r| == |slots|
    ensures forall i | 0 <= i < |slots| :: r[i].date == slots[i].date
    ensures forall i | 0 <= i < |slots| && slots[i].date == d :: r[i].status == Unavailable
    ensures forall i | 0 <= i < |slots| && slots[i].date != d :: r[i] == slots[i]
  {
    if slots == [] then [] else [MarkSlot(slots[0], d)] + MarkReserved(slots[1..], d)
  }

  /**
   * `slots` is `initial` after some reservations: the same days in the same
   * order, and a slot is available only if it was available initially.
   */
  predicate Narrows(slots: seq<Slot>, initial: seq<Slot>) {
    && |slots| == |initial|
    && forall i | 0 <= i < |slots| ::
         slots[i].date == initial[i].date &&
         (slots[i].status == Available ==> initial[i].status == Available)
  }

  /** Reservations keep the generated days and never make a day available. */
  lemma MarkReservedNarrows(slots: seq<Slot>, initial: seq<Slot>, d: CalendarDay)
    requires Narrows(slots, initial)
    ensures Narrows(MarkReserved(slots, d), initial)
  {
  }

  /** A reservation for a day that matches no slot leaves the list as it was. */
  lemma MarkReservedNoMatch(slots: seq<Slot>, d: CalendarDay)
    requires forall i | 0 <= i < |slots| :: slots[i].date != d
    ensures MarkReserved(slots, d) == slots
  {
  }

  /** Reserving the same day twice is the same as reserving it once. */
  lemma MarkReservedIdempotent(slots: seq<Slot>, d: CalendarDay)
    ensures MarkReserved(MarkReserved(slots, d), d) == MarkReserved(slots, d)
  {
  }

  /** Reservations of two days can be applied in either order. */
  lemma MarkReservedCommutes(slots: seq<Slot>, a: CalendarDay, b: CalendarDay)
    ensures MarkReserved(MarkReserved(slots, a), b) == MarkReserved(MarkReserved(slots, b), a)
  {
  }

  /** The days that still have an available slot. */
  function AvailableDays(slots: seq<Slot>): set<CalendarDay> {
    set i | 0 <= i < |slots| && slots[i].status == Available :: slots[i].date
  }

  /** A reservation removes exactly its day from the available days; nothing becomes available. */
  lemma AvailableDaysAfterReserve(slots: seq<Slot>, d: CalendarDay)
    ensures AvailableDays(MarkReserved(slots, d)) == AvailableDays(slots) - {d}
  {
  }

  /** The gate opens only for a day that still has an available slot. */
  lemma SelectableIsAvailable(slots: seq<Slot>, d: CalendarDay)
    requires Selectable(slots, d)
    ensures d in AvailableDays(slots)
  {
  }

  /**
   * After a reservation for `d`, selecting day `x` opens the form exactly
   * when `x` is another day that was selectable before. In particular a
   * reserved day can never be selected again.
   */
  lemma SelectableAfterReserve(slots: seq<Slot>, d: CalendarDay, x: CalendarDay)
    ensures Selectable(MarkReserved(slots, d), x) <==> x != d && Selectable(slots, x)
  {
  }

  /** Lookups of days other than the reserved one see the same slot as before. */
  lemma FindUnaffected(slots: seq<Slot>, d: CalendarDay, x: CalendarDay)
    requires x != d
    ensures Find(MarkReserved(slots, d), x) == Find(slots, x)
  {
  }
}
