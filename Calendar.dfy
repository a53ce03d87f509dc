/**
 * The reservation calendar component with its modal form: the slot list,
 * the modal's visibility, the selected date and the form record are the
 * component's state, and each event handler is one atomic transition of it.
 *
 * The two states of the widget are Idle (`!modalOpen`) and Collecting
 * (`modalOpen`, the form bound to `selectedDate`).
 */
module Calendar {
  import opened Wrappers
  import opened Dates
  import opened Slots
  import opened Modal

  /** Builds one slot per day of `today`'s month, deciding each day's status as it goes. */
  method GenerateInitialReservations(today: Instant) returns (slots: seq<Slot>)
    requires ValidInstant(today)
    ensures slots == InitialSlots(today)
  {
    slots := [];
    var currentMonth := today.date.month;
    var currentYear := today.date.year;
    var daysInMonth := DaysInMonth(currentYear, currentMonth);
    ghost var spec := InitialSlots(today);
    var day := 1;
    while day <= daysInMonth
      invariant 1 <= day <= daysInMonth + 1 && daysInMonth == |spec|
      invariant slots == spec[..day - 1]
    {
      var date := CalendarDay(currentYear, currentMonth, day);
      var isWeekend := Weekday(date) == 0;
      var isPast := InstantBefore(Midnight(date), today);
      var slot := Slot(date, if isPast || isWeekend then Unavailable else Available);
      InitialSlotAt(today, day - 1);
      slots := slots + [slot];
      assert spec[..day] == spec[..day - 1] + [spec[day - 1]];
      day := day + 1;
    }
    assert spec[..daysInMonth] == spec;
  }

  class ReservationCalendar {
    /** The instant the component was mounted at; generation reads the clock only then. */
    const today: Instant
    /** The slots as generated at mount, before any reservation. */
    ghost const generated: seq<Slot>
    var reservationSlots: seq<Slot>
    var modalOpen: bool
    var selectedDate: Option<Instant>
    /** The modal's own state: the form being filled in. */
    var formData: ReservationFormData
    /** Every callback the modal has made to the calendar, oldest first. */
    var calls: seq<ModalCall>

    /**
     * The slots keep the days generated for `today`'s month in order and
     * can only lose availability; the form is dated with the selected date;
     * and while the form is open, its day is still bookable.
     */
    ghost predicate Valid()
      reads this
    {
      && ValidInstant(today)
      && generated == InitialSlots(today)
      && Narrows(reservationSlots, generated)
      && (selectedDate.Some? ==> formData.date == selectedDate.value)
      && (modalOpen ==> selectedDate.Some? && Selectable(reservationSlots, selectedDate.value.date))
    }

    /** Mounting: generate the month's slots, start Idle, with an empty form dated `now`. */
    constructor (now: Instant)
      requires ValidInstant(now)
      ensures Valid() && today == now && generated == InitialSlots(now)
      ensures reservationSlots == generated
      ensures !modalOpen && selectedDate == None
      ensures formData == InitialForm(None, now) && calls == []
    {
      today := now;
      generated := InitialSlots(now);
      var slots := GenerateInitialReservations(now);
      reservationSlots := slots;
      modalOpen := false;
      selectedDate := None;
      formData := InitialForm(None, now);
      calls := [];
    }

    /**
     * A click on a calendar cell: opens the form on `start` when the first
     * slot of that day is available; otherwise nothing changes.
     */
    method SelectSlot(start: Instant)
      requires Valid()
      modifies this
      ensures Valid()
      ensures reservationSlots == old(reservationSlots) && calls == old(calls)
      ensures Selectable(old(reservationSlots), start.date) ==>
                modalOpen && selectedDate == Some(start) && formData == old(formData).(date := start)
      ensures !Selectable(old(reservationSlots), start.date) ==>
                modalOpen == old(modalOpen) && selectedDate == old(selectedDate) && formData == old(formData)
    {
      var reservationSlot := Find(reservationSlots, start.date);
      if reservationSlot.Some? && reservationSlot.value.status == Available {
        selectedDate := Some(start);
        modalOpen := true;
        SyncFormDate();
      }
    }

    /** The modal's effect on a new selected date: re-date the form, keep its fields. */
    method SyncFormDate()
      modifies this`formData
      ensures selectedDate.Some? ==> formData == old(formData).(date := selectedDate.value)
      ensures selectedDate.None? ==> formData == old(formData)
    {
      if selectedDate.Some? {
        formData := formData.(date := selectedDate.value);
      }
    }

    /** Typing into one of the form's inputs. */
    method ChangeField(field: Field, value: string)
      requires Valid() && modalOpen
      modifies this`formData
      ensures Valid()
      ensures formData == WithField(old(formData), field, value)
    {
      formData := WithField(formData, field, value);
    }

    /**
     * The calendar's `onSubmit` handler: every slot of the record's day
     * becomes unavailable, so that day leaves the available days and can
     * no longer be selected.
     */
    method HandleReservationSubmit(record: ReservationFormData)
      modifies this`reservationSlots
      ensures reservationSlots == MarkReserved(old(reservationSlots), record.date.date)
      ensures AvailableDays(reservationSlots) == old(AvailableDays(reservationSlots)) - {record.date.date}
      ensures !Selectable(reservationSlots, record.date.date)
    {
      AvailableDaysAfterReserve(reservationSlots, record.date.date);
      SelectableAfterReserve(reservationSlots, record.date.date, record.date.date);
      reservationSlots := MarkReserved(reservationSlots, record.date.date);
    }

    /** The calendar's `onClose` handler. */
    method HandleClose()
      modifies this`modalOpen
      ensures !modalOpen
    {
      modalOpen := false;
    }

    /**
     * Submitting the form: hands the record to the calendar once, which
     * reserves its day, and then closes the modal. The contact fields are
     * kept for the next time the form opens.
     */
    method Submit()
      requires Valid() && modalOpen && Filled(formData)
      modifies this
      ensures Valid()
      ensures reservationSlots == MarkReserved(old(reservationSlots), old(formData).date.date)
      ensures AvailableDays(reservationSlots) == old(AvailableDays(reservationSlots)) - {old(formData).date.date}
      ensures old(Selectable(reservationSlots, formData.date.date))
      ensures !Selectable(reservationSlots, formData.date.date)
      ensures calls == old(calls) + [OnSubmit(old(formData)), OnClose]
      ensures !modalOpen && selectedDate == old(selectedDate) && formData == old(formData)
    {
      MarkReservedNarrows(reservationSlots, generated, formData.date.date);
      calls := calls + [OnSubmit(formData)];
      HandleReservationSubmit(formData);
      calls := calls + [OnClose];
      HandleClose();
    }

    /** The cancel button or the close mark: only `onClose`, the slots are untouched. */
    method Close()
      requires Valid() && modalOpen
      modifies this
      ensures Valid()
      ensures !modalOpen && calls == old(calls) + [OnClose]
      ensures reservationSlots == old(reservationSlots) && selectedDate == old(selectedDate)
      ensures formData == old(formData)
    {
      calls := calls + [OnClose];
      HandleClose();
    }
  }

  /**
   * A session in April 2025 on Thursday the 10th at 10:00: Sunday the 6th
   * cannot be selected, Tuesday the 15th can and, once reserved, cannot be
   * selected again.
   */
  method AprilSession() {
    var now := Instant(CalendarDay(2025, 4, 10), 36_000_000);
    var sunday := Instant(CalendarDay(2025, 4, 6), 0);
    var tuesday := Instant(CalendarDay(2025, 4, 15), 0);
    AprilStatuses();
    SelectableInitially(now, sunday.date);
    SelectableInitially(now, tuesday.date);

    var calendar := new ReservationCalendar(now);
    calendar.SelectSlot(sunday);
    assert !calendar.modalOpen;
    calendar.SelectSlot(tuesday);
    assert calendar.modalOpen && calendar.formData.date == tuesday;

    var record := ReserveThenReselect(calendar, "Hanako", "hanako@example.com", "0312345678");
    assert record.date == tuesday;
  }

  /**
   * Filling in the open form and submitting it hands over the filled-in
   * record; a later click on the reserved day leaves the modal closed.
   */
  method ReserveThenReselect(calendar: ReservationCalendar, name: string, email: string, phone: string)
    returns (record: ReservationFormData)
    requires calendar.Valid() && calendar.modalOpen
    requires name != "" && email != "" && phone != ""
    modifies calendar
    ensures record == ReservationFormData(name, email, phone, old(calendar.formData.date))
    ensures calendar.calls == old(calendar.calls) + [OnSubmit(record), OnClose]
    ensures !calendar.modalOpen && !Selectable(calendar.reservationSlots, record.date.date)
    ensures calendar.Valid() && calendar.formData == record
    ensures calendar.reservationSlots == MarkReserved(old(calendar.reservationSlots), record.date.date)
    ensures calendar.selectedDate == old(calendar.selectedDate)
  {
    calendar.ChangeField(Name, name);
    calendar.ChangeField(Email, email);
    calendar.ChangeField(Phone, phone);
    record := calendar.formData;
    calendar.Submit();
    calendar.SelectSlot(record.date);
  }
}
