/** The booking page's three-step wizard (service, date, time), the date
    window its calendar offers, and the record its submit handler inserts
    (src/pages/Agendar.tsx). Availability is consulted only when a time is
    chosen; the submit handler checks nothing but presence. */
module Booking {
  import opened Wrappers
  import opened Records
  import opened Clock
  import opened Availability
  import Catalogue

  /** The calendar disables the days before today and the days after
      today + 30, comparing calendar days. */
  function Selectable(today: Day, d: Day): (ok: bool)
    ensures ok <==> today <= d <= today + 30
  {
    !(d < today) && !(d > today + 30)
  }

  /** The window is today through today + 30, both ends included. */
  lemma SelectableWindow(today: Day, d: Day)
    ensures Selectable(today, d) <==> today <= d <= today + 30
    ensures Selectable(today, today) && Selectable(today, today + 30)
    ensures !Selectable(today, today - 1) && !Selectable(today, today + 31)
  {
  }

  /** The page's selection state: the loaded catalogue, the step shown, and
      the chosen service, day and time. */
  datatype Wizard = Wizard(
    services: seq<Service>,
    step: int,
    service: Option<Service>,
    date: Option<Day>,
    time: Option<string>)

  const Start: Wizard := Wizard([], 1, None, None, None)

  datatype WizardEvent =
    /** The services query returned (None: no data) with the page's `service` parameter. */
    | ServicesLoaded(table: Option<seq<Service>>, param: Option<string>)
    /** A service card clicked on step 1. */
    | ChooseService(s: Service)
    /** The calendar's selection changed (None: the selected day clicked again). */
    | PickDate(d: Option<Day>)
    /** "Voltar para serviços" on step 2. */
    | BackToServices
    /** A time button clicked on step 3. */
    | ChooseTime(t: string)
    /** "Voltar para data" on step 3. */
    | BackToDate

  /** One event, given the availability the page holds and today's date.
      Controls that are not rendered, and disabled days and times, do nothing. */
  function Next(w: Wizard, e: WizardEvent, slots: SlotState, today: Day): (r: Wizard)
    ensures r.time != w.time && r.time.Some? ==> IsSlotAvailable(slots, r.time.value)
    ensures r.date != w.date && r.date.Some? ==> Selectable(today, r.date.value)
  {
    match e
    case ServicesLoaded(table, param) =>
      if table.None? then w
      else
        var data := Catalogue.ActiveByPrice(table.value);
        var w' := w.(services := data);
        if param.Some? && param.value != "" then
          match Catalogue.FindById(data, param.value)
          case Some(s) => w'.(service := Some(s), step := 2)
          case None => w'
        else w'
    case ChooseService(s) =>
      if w.step == 1 && s in w.services then w.(service := Some(s), step := 2) else w
    case PickDate(d) =>
      if w.step == 2 && w.service.Some? then
        match d
        case Some(day) => if Selectable(today, day) then w.(date := Some(day), step := 3) else w
        case None => w.(date := None)
      else w
    case BackToServices =>
      if w.step == 2 && w.service.Some? then w.(step := 1, service := None) else w
    case ChooseTime(t) =>
      if w.step == 3 && w.service.Some? && w.date.Some? && t in TimeSlots && IsSlotAvailable(slots, t)
      then w.(time := Some(t))
      else w
    case BackToDate =>
      if w.step == 3 && w.service.Some? && w.date.Some? then w.(step := 2, time := None) else w
  }

  /** What every reachable state satisfies: steps 2 and 3 have a service,
      step 3 has a day, and a chosen time is a roster time. A time may
      survive a return to step 2 when a deep link re-selects the service. */
  predicate WizardInv(w: Wizard) {
    && 1 <= w.step <= 3
    && (w.step >= 2 ==> w.service.Some?)
    && (w.step == 3 ==> w.date.Some?)
    && (w.time.Some? ==> w.time.value in TimeSlots)
  }

  /** A sequence of events, each with the availability and date of its moment. */
  function Run(w: Wizard, events: seq<(WizardEvent, SlotState, Day)>): Wizard
    decreases |events|
  {
    if |events| == 0 then w
    else Run(Next(w, events[0].0, events[0].1, events[0].2), events[1..])
  }

  /** Every state reached from the start satisfies the invariant. */
  lemma {:induction false} RunKeepsInv(w: Wizard, events: seq<(WizardEvent, SlotState, Day)>)
    requires WizardInv(w)
    ensures WizardInv(Run(w, events))
    decreases |events|
  {
    if |events| > 0 {
      var w' := Next(w, events[0].0, events[0].1, events[0].2);
      assert WizardInv(w');
      RunKeepsInv(w', events[1..]);
    }
  }

  /** Following a catalogue card's link opens the wizard on step 2 with that
      service selected, whatever step it was on. */
  lemma DeepLinkSelects(w: Wizard, table: seq<Service>, s: Service, slots: SlotState, today: Day)
    requires s in table && s.isActive && Catalogue.QuerySafe(s.id) && s.id != ""
    requires forall i, j | 0 <= i < |table| && 0 <= j < |table| && table[i].id == table[j].id :: i == j
    ensures var r := Next(w, ServicesLoaded(Some(table), Catalogue.ServiceParam(Catalogue.BookingLink(s.id))), slots, today);
      r.step == 2 && r.service == Some(s) && r.time == w.time
  {
    Catalogue.LinkFindsService(table, s);
  }

  /** The row the submit handler inserts. */
  datatype NewAppointment = NewAppointment(
    userId: Id,
    serviceId: Id,
    date: Day,
    startTime: string,
    endTime: string,
    status: AppointmentStatus)

  datatype SubmitResult =
    /** No user: a toast and a redirect to /login. */
    | LoginRequired
    /** Service, day or time missing: nothing happens. */
    | NotReady
    | Insert(row: NewAppointment)

  /** The submit handler. The chosen time is always a roster time, because
      only roster buttons set it. */
  function Submit(user: Option<Id>, w: Wizard): (r: SubmitResult)
    requires w.time.Some? ==> w.time.value in TimeSlots
    ensures r.LoginRequired? <==> user.None?
    ensures r.Insert? <==> user.Some? && w.service.Some? && w.date.Some? && w.time.Some?
    ensures r.Insert? ==>
      && r.row.status == Pending
      && r.row.userId == user.value
      && r.row.serviceId == w.service.value.id
      && r.row.date == w.date.value
      && r.row.startTime == w.time.value
  {
    if user.None? then LoginRequired
    else if w.service.None? || w.date.None? || w.time.None? then NotReady
    else
      RosterReadable(w.time.value);
      Insert(NewAppointment(
        user.value,
        w.service.value.id,
        w.date.value,
        w.time.value,
        EndTime(w.time.value, w.service.value.durationMinutes),
        Pending))
  }

  /** Every roster time is an "HH:MM" text and reads as its hours and minutes. */
  lemma RosterReadable(t: string)
    requires t in TimeSlots
    ensures IsWallClock(t)
    ensures ReadClock(t).Some?
    ensures ReadClock(t).value.0 * 60 + ReadClock(t).value.1 == ClockMinutes(t)
  {
    RosterShape();
    ReadClockOfClock(t);
  }

  /** Minutes since midnight of a roster time. */
  function StartMinutes(t: string): nat
    requires t in TimeSlots
  {
    RosterReadable(t);
    ClockMinutes(t)
  }

  /** The inserted end time reads back, with the same `split`/`Number` rule,
      as hours and minutes below 60 adding up to the start plus the
      service's duration, whenever that total is not negative; below hour
      100 it is again an "HH:MM" text. */
  lemma SubmittedEndTime(user: Option<Id>, w: Wizard)
    requires w.time.Some? ==> w.time.value in TimeSlots
    requires Submit(user, w).Insert?
    requires StartMinutes(w.time.value) + w.service.value.durationMinutes >= 0
    ensures var row := Submit(user, w).row;
      var total := StartMinutes(w.time.value) + w.service.value.durationMinutes;
      && ReadClock(row.endTime).Some?
      && ReadClock(row.endTime).value.1 < 60
      && ReadClock(row.endTime).value.0 * 60 + ReadClock(row.endTime).value.1 == total
      && (total < 100 * 60 ==> IsWallClock(row.endTime) && ClockMinutes(row.endTime) == total)
  {
    var t := w.time.value;
    var d := w.service.value.durationMinutes;
    RosterReadable(t);
    var e := Submit(user, w).row.endTime;
    assert e == EndTime(t, d);
    assert EndTotal(t, d) == StartMinutes(t) + d;
    EndTimeReadsBack(t, d);
    if EndTotal(t, d) < 100 * 60 {
      EndTimeIsClock(t, d);
    }
  }

  /** Submit does not consult availability: a time taken since it was
      chosen is still inserted. */
  lemma SubmitIgnoresTakenSlot(user: Id, s: Service, day: Day, slots: SlotState)
    requires "09:00" in slots.booked
    ensures !IsSlotAvailable(slots, "09:00")
    ensures Submit(Some(user), Wizard([s], 3, Some(s), Some(day), Some("09:00"))).Insert?
  {
  }
}
