/** Which of the fixed daily start times the booking page offers on a chosen
    day: the roster, the "taken" list built from the day's appointments, the
    blocked slots of the day, and the availability test applied to each
    roster entry (src/pages/Agendar.tsx). */
module Availability {
  import opened Wrappers
  import opened Records
  import opened Text
  import opened Clock
  import Seqs

  /** The nine daily start times, in order; there is no 12:00 slot. */
  const TimeSlots: seq<string> :=
    ["08:00", "09:00", "10:00", "11:00", "13:00", "14:00", "15:00", "16:00", "17:00"]

  /** The roster is nine hour-aligned "HH:MM" texts, 08:00 to 11:00 and 13:00
      to 17:00, strictly ascending as strings. */
  lemma RosterShape()
    ensures |TimeSlots| == 9
    ensures forall i | 0 <= i < |TimeSlots| :: IsWallClock(TimeSlots[i])
    ensures forall i | 0 <= i < 4 :: ClockMinutes(TimeSlots[i]) == (8 + i) * 60
    ensures forall i | 4 <= i < 9 :: ClockMinutes(TimeSlots[i]) == (9 + i) * 60
    ensures forall i, j | 0 <= i < j < |TimeSlots| :: LexLess(TimeSlots[i], TimeSlots[j])
    ensures "12:00" !in TimeSlots
  {
    RosterMinutes();
    forall i, j | 0 <= i < j < |TimeSlots|
      ensures LexLess(TimeSlots[i], TimeSlots[j])
    {
      ClockOrderAgrees(TimeSlots[i], TimeSlots[j]);
    }
  }

  /** Every roster entry is a wall-clock text on the hour. */
  lemma RosterMinutes()
    ensures forall i | 0 <= i < |TimeSlots| :: IsWallClock(TimeSlots[i])
    ensures forall i | 0 <= i < 4 :: ClockMinutes(TimeSlots[i]) == (8 + i) * 60
    ensures forall i | 4 <= i < 9 :: ClockMinutes(TimeSlots[i]) == (9 + i) * 60
  {
    forall i | 0 <= i < |TimeSlots|
      ensures IsWallClock(TimeSlots[i])
      ensures ClockMinutes(TimeSlots[i]) == (if i < 4 then 8 + i else 9 + i) * 60
    {
      var t := TimeSlots[i];
      assert t[2] == ':' && t[3] == '0' && t[4] == '0';
    }
  }

  /** Appointments in these statuses hold their slot. */
  predicate HoldsSlot(s: AppointmentStatus) {
    s == Pending || s == Confirmed
  }

  /** The "taken" list: the start times, cut to five characters, of the
      day's pending and confirmed appointments, in row order. */
  function TakenSlots(rows: seq<Appointment>, day: Day): (taken: seq<string>)
    ensures forall t :: t in taken <==>
      exists i | 0 <= i < |rows| :: rows[i].date == day && HoldsSlot(rows[i].status) && Prefix(rows[i].startTime, 5) == t
  {
    if |rows| == 0 then []
    else
      var rest := TakenSlots(rows[1..], day);
      assert forall i | 1 <= i < |rows| :: rows[i] == rows[1..][i - 1];
      if rows[0].date == day && HoldsSlot(rows[0].status)
      then [Prefix(rows[0].startTime, 5)] + rest
      else rest
  }

  /** The blocked slots of the day, in row order. */
  function BlocksOn(blocks: seq<BlockedSlot>, day: Day): seq<BlockedSlot> {
    Seqs.Filter(blocks, (b: BlockedSlot) => b.date == day)
  }

  /** What the page holds between fetches: the taken list and the day's blocks. */
  datatype SlotState = SlotState(booked: seq<string>, blocked: seq<BlockedSlot>)

  const Initial: SlotState := SlotState([], [])

  /** A fetch for `day`. Each query yields the table (None when it returned no
      data); a query without data leaves the previous list in place. */
  function Refresh(st: SlotState, appointments: Option<seq<Appointment>>,
                   blocks: Option<seq<BlockedSlot>>, day: Day): (r: SlotState)
    ensures appointments.None? ==> r.booked == st.booked
    ensures blocks.None? ==> r.blocked == st.blocked
    ensures appointments.Some? ==> forall t :: t in r.booked <==> t in TakenSlots(appointments.value, day)
    ensures blocks.Some? ==> forall b :: b in r.blocked <==> b in blocks.value && b.date == day
  {
    SlotState(
      if appointments.Some? then TakenSlots(appointments.value, day) else st.booked,
      if blocks.Some? then BlocksOn(blocks.value, day) else st.blocked)
  }

  /** JavaScript truthiness of a nullable text: null and "" are false. */
  predicate Truthy(o: Option<string>) {
    o.Some? && o.value != ""
  }

  /** A partial block excludes `time` when both bounds are set and
      `start <= time < end`, comparing five-character prefixes as strings. */
  predicate ExcludesTime(b: BlockedSlot, time: string) {
    && Truthy(b.startTime)
    && Truthy(b.endTime)
    && LexAtLeast(time, Prefix(b.startTime.value, 5))
    && LexLess(time, Prefix(b.endTime.value, 5))
  }

  predicate HasFullDay(blocked: seq<BlockedSlot>) {
    exists i | 0 <= i < |blocked| :: blocked[i].isFullDay
  }

  predicate TimeBlocked(blocked: seq<BlockedSlot>, time: string) {
    exists i | 0 <= i < |blocked| :: ExcludesTime(blocked[i], time)
  }

  /** The availability test: a taken time is unavailable; any full-day block
      makes every time unavailable; otherwise a time is unavailable when a
      partial block excludes it. */
  function IsSlotAvailable(st: SlotState, time: string): (ok: bool)
    ensures ok <==>
      && time !in st.booked
      && (forall i | 0 <= i < |st.blocked| :: !st.blocked[i].isFullDay)
      && (forall i | 0 <= i < |st.blocked| :: !ExcludesTime(st.blocked[i], time))
  {
    if time in st.booked then false
    else if HasFullDay(st.blocked) then false
    else !TimeBlocked(st.blocked, time)
  }

  /** The roster entries whose buttons are enabled, in roster order. */
  function AvailableSlots(st: SlotState): (r: seq<string>)
    ensures forall t :: t in r <==> t in TimeSlots && IsSlotAvailable(st, t)
    ensures Seqs.IsSubseq(r, TimeSlots)
  {
    Seqs.Filter(TimeSlots, (t: string) => IsSlotAvailable(st, t))
  }

  /** Right after both queries return data, a time is available exactly when
      no pending or confirmed appointment of the day starts (to five
      characters) at it, no block of the day is full-day, and no block of the
      day excludes it. The appointment's service plays no part. */
  lemma AvailableAfterFetch(prior: SlotState, rows: seq<Appointment>,
                            blocks: seq<BlockedSlot>, day: Day, time: string)
    ensures IsSlotAvailable(Refresh(prior, Some(rows), Some(blocks), day), time) <==>
      && !(exists i | 0 <= i < |rows| :: rows[i].date == day && HoldsSlot(rows[i].status) && Prefix(rows[i].startTime, 5) == time)
      && !(exists b | b in blocks :: b.date == day && b.isFullDay)
      && !(exists b | b in blocks :: b.date == day && ExcludesTime(b, time))
  {
    var bl := Refresh(prior, Some(rows), Some(blocks), day).blocked;
    assert HasFullDay(bl) <==> exists b | b in blocks :: b.date == day && b.isFullDay by {
      if HasFullDay(bl) {
        var i :| 0 <= i < |bl| && bl[i].isFullDay;
        assert bl[i] in bl;
      }
    }
    assert TimeBlocked(bl, time) <==> exists b | b in blocks :: b.date == day && ExcludesTime(b, time) by {
      if TimeBlocked(bl, time) {
        var i :| 0 <= i < |bl| && ExcludesTime(bl[i], time);
        assert bl[i] in bl;
      }
    }
  }

  /** One full-day block closes the whole day, whatever the bookings. */
  lemma FullDayClosesDay(st: SlotState)
    requires HasFullDay(st.blocked)
    ensures AvailableSlots(st) == []
  {
    Seqs.FilterNone(TimeSlots, (t: string) => IsSlotAvailable(st, t));
  }

  /** Partial blocks are half-open: a 10:00-11:00 block (stored with seconds)
      excludes 10:00 but not 11:00 or 09:00. */
  lemma HalfOpenBlock()
    ensures var b := BlockedSlot("b", 0, Some("10:00:00"), Some("11:00:00"), false, None);
      && !IsSlotAvailable(SlotState([], [b]), "10:00")
      && IsSlotAvailable(SlotState([], [b]), "11:00")
      && IsSlotAvailable(SlotState([], [b]), "09:00")
  {
    var b := BlockedSlot("b", 0, Some("10:00:00"), Some("11:00:00"), false, None);
    assert Prefix("10:00:00", 5) == "10:00";
    assert Prefix("11:00:00", 5) == "11:00";
    LexTrichotomy("10:00", "10:00");
    LexTrichotomy("11:00", "11:00");
    ClockOrderAgrees("10:00", "11:00");
    ClockOrderAgrees("09:00", "10:00");
    assert ExcludesTime(b, "10:00");
    assert [b][0] == b;
    assert TimeBlocked([b], "10:00");
    assert !ExcludesTime(b, "11:00");
    assert !ExcludesTime(b, "09:00");
  }

  /** A partial block missing either bound (null or empty) excludes nothing:
      adding it changes no answer. */
  lemma UnboundedBlockExcludesNothing(st: SlotState, b: BlockedSlot, time: string)
    requires !b.isFullDay
    requires !Truthy(b.startTime) || !Truthy(b.endTime)
    ensures IsSlotAvailable(SlotState(st.booked, st.blocked + [b]), time) == IsSlotAvailable(st, time)
  {
    var bl := st.blocked + [b];
    assert forall i | 0 <= i < |st.blocked| :: bl[i] == st.blocked[i];
    if HasFullDay(bl) {
      var i :| 0 <= i < |bl| && bl[i].isFullDay;
      assert i < |st.blocked|;
    }
    if TimeBlocked(bl, time) {
      var i :| 0 <= i < |bl| && ExcludesTime(bl[i], time);
      assert i < |st.blocked|;
    }
  }

  /** On well-formed "HH:MM" bounds the string test is the minute test
      `start <= time < end`. */
  lemma ExclusionByMinutes(b: BlockedSlot, time: string)
    requires Truthy(b.startTime) && Truthy(b.endTime)
    requires IsWallClock(Prefix(b.startTime.value, 5)) && IsWallClock(Prefix(b.endTime.value, 5))
    requires IsWallClock(time)
    ensures ExcludesTime(b, time) <==>
      ClockMinutes(Prefix(b.startTime.value, 5)) <= ClockMinutes(time) < ClockMinutes(Prefix(b.endTime.value, 5))
  {
    ClockOrderAgrees(time, Prefix(b.startTime.value, 5));
    ClockOrderAgrees(time, Prefix(b.endTime.value, 5));
  }

  /** A day with a confirmed 09:00 booking and a 14:00-15:00 block offers
      every roster time except 09:00 and 14:00. */
  lemma ExampleDay()
    ensures var rows := [Appointment("a", "u", "s", 7, "09:00:00", "09:30:00", Confirmed, None)];
      var blocks := [BlockedSlot("b", 7, Some("14:00:00"), Some("15:00:00"), false, None)];
      var st := Refresh(Initial, Some(rows), Some(blocks), 7);
      forall t | t in TimeSlots :: IsSlotAvailable(st, t) <==> t != "09:00" && t != "14:00"
  {
    var rows := [Appointment("a", "u", "s", 7, "09:00:00", "09:30:00", Confirmed, None)];
    var blocks := [BlockedSlot("b", 7, Some("14:00:00"), Some("15:00:00"), false, None)];
    var st := Refresh(Initial, Some(rows), Some(blocks), 7);
    assert st.booked == ["09:00"] by {
      assert Prefix("09:00:00", 5) == "09:00";
    }
    assert st.blocked == blocks;
    forall t | t in TimeSlots
      ensures IsSlotAvailable(st, t) <==> t != "09:00" && t != "14:00"
    {
      ExampleBlock(t);
      assert TimeBlocked(blocks, t) <==> ExcludesTime(blocks[0], t);
    }
  }

  /** Among the roster times, the 14:00-15:00 block excludes 14:00 only. */
  lemma ExampleBlock(t: string)
    requires t in TimeSlots
    ensures ExcludesTime(BlockedSlot("b", 7, Some("14:00:00"), Some("15:00:00"), false, None), t) <==> t == "14:00"
  {
    var b := BlockedSlot("b", 7, Some("14:00:00"), Some("15:00:00"), false, None);
    assert Prefix("14:00:00", 5) == "14:00" && Prefix("15:00:00", 5) == "15:00";
    assert IsWallClock("14:00") && IsWallClock("15:00");
    RosterMinutes();
    ExclusionByMinutes(b, t);
  }
}
