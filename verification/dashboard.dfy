/** The client dashboard's two lists (src/pages/Dashboard.tsx): the upcoming
    appointments and the history, both taken from the client's appointments
    as fetched newest day first. Days are compared as calendar days, with
    today given. */
module Dashboard {
  import opened Records
  import Availability
  import Seqs

  /** Upcoming: pending or confirmed, on today or a later day. */
  predicate Upcoming(a: Appointment, today: Day) {
    Availability.HoldsSlot(a.status) && a.date >= today
  }

  /** Past: completed, or on a day before today. */
  predicate Past(a: Appointment, today: Day) {
    a.status == Completed || a.date < today
  }

  /** The lists never share an appointment, and an appointment is in neither
      exactly when it is cancelled and dated today or later. */
  lemma Classification(a: Appointment, today: Day)
    ensures !(Upcoming(a, today) && Past(a, today))
    ensures !Upcoming(a, today) && !Past(a, today) <==> a.status == Cancelled && a.date >= today
    ensures a.date < today ==> Past(a, today)
  {
  }

  function NegDate(a: Appointment): int {
    -a.date
  }

  /** The upcoming list, in fetch order. */
  function UpcomingList(rows: seq<Appointment>, today: Day): (r: seq<Appointment>)
    ensures forall a :: a in r <==> a in rows && Availability.HoldsSlot(a.status) && a.date >= today
    ensures forall a :: multiset(r)[a] == if Availability.HoldsSlot(a.status) && a.date >= today then multiset(rows)[a] else 0
    ensures Seqs.IsSubseq(r, rows)
  {
    Seqs.Filter(rows, (a: Appointment) => Upcoming(a, today))
  }

  /** All past appointments, in fetch order. */
  function PastList(rows: seq<Appointment>, today: Day): (r: seq<Appointment>)
    ensures forall a :: a in r <==> a in rows && (a.status == Completed || a.date < today)
    ensures forall a :: multiset(r)[a] == if a.status == Completed || a.date < today then multiset(rows)[a] else 0
    ensures Seqs.IsSubseq(r, rows)
  {
    Seqs.Filter(rows, (a: Appointment) => Past(a, today))
  }

  /** The history section: the first six past appointments. */
  function History(rows: seq<Appointment>, today: Day): (r: seq<Appointment>)
    ensures |r| <= 6
    ensures forall i | 0 <= i < |r| :: r[i] in rows && Past(r[i], today)
    ensures |PastList(rows, today)| <= 6 ==> r == PastList(rows, today)
    ensures |PastList(rows, today)| > 6 ==> r == PastList(rows, today)[..6]
  {
    var past := PastList(rows, today);
    var r := Seqs.Take(past, 6);
    assert forall i | 0 <= i < |r| :: r[i] in past;
    r
  }

  /** Rows fetched newest day first give lists that are newest day first,
      and the history holds the most recent past appointments: none left
      out is dated after one shown. */
  lemma ListsNewestFirst(rows: seq<Appointment>, today: Day)
    requires Seqs.SortedBy(rows, NegDate)
    ensures Seqs.SortedBy(UpcomingList(rows, today), NegDate)
    ensures Seqs.SortedBy(History(rows, today), NegDate)
    ensures forall i, j | 0 <= i < |History(rows, today)| && |History(rows, today)| <= j < |PastList(rows, today)| ::
      PastList(rows, today)[j].date <= History(rows, today)[i].date
  {
    Seqs.SubseqKeepsOrder(UpcomingList(rows, today), rows, NegDate);
    HistoryNewestFirst(rows, today);
  }

  lemma HistoryNewestFirst(rows: seq<Appointment>, today: Day)
    requires Seqs.SortedBy(rows, NegDate)
    ensures Seqs.SortedBy(History(rows, today), NegDate)
    ensures forall i, j | 0 <= i < |History(rows, today)| && |History(rows, today)| <= j < |PastList(rows, today)| ::
      PastList(rows, today)[j].date <= History(rows, today)[i].date
  {
    var past := PastList(rows, today);
    Seqs.SubseqKeepsOrder(past, rows, NegDate);
    var h := History(rows, today);
    assert forall i | 0 <= i < |h| :: h[i] == past[i];
  }

  /** The two lists never share an appointment. */
  lemma ListsDisjoint(rows: seq<Appointment>, today: Day)
    ensures forall a | a in UpcomingList(rows, today) :: a !in PastList(rows, today)
  {
    forall a | a in UpcomingList(rows, today)
      ensures a !in PastList(rows, today)
    {
      Classification(a, today);
    }
  }
}
