/** The admin panel's data (src/pages/Admin.tsx): the appointments joined
    with their service and their client's profile, the statistics cards,
    the revenue tab, and the status change an admin makes from the table. */
module Admin {
  import opened Wrappers
  import opened Records
  import Seqs

  /** An appointment row as the query returns it, with its joined service
      (None when the join found nothing). */
  datatype Fetched = Fetched(appt: Appointment, service: Option<Service>)

  /** A row of the appointments table: the fetched row and its client's profile. */
  datatype AdminRow = AdminRow(appt: Appointment, service: Option<Service>, profile: Option<Profile>)

  // ---------------------------------------------------------------- profiles

  /** The profile map, filled by `forEach` with `set(user_id, profile)`: a
      later profile of the same user replaces an earlier one. */
  function ProfileIndex(ps: seq<Profile>): (m: map<Id, Profile>)
    ensures forall uid :: uid in m <==> exists i | 0 <= i < |ps| :: ps[i].userId == uid
    ensures forall uid | uid in m :: m[uid].userId == uid && m[uid] in ps
    decreases |ps|
  {
    if |ps| == 0 then map[]
    else
      var front := ps[..|ps| - 1];
      var last := ps[|ps| - 1];
      assert forall i | 0 <= i < |front| :: front[i] == ps[i];
      ProfileIndex(front)[last.userId := last]
  }

  /** The profile the map keeps for a user is that user's last profile. */
  lemma {:induction false} ProfileIndexLastWins(ps: seq<Profile>, i: nat)
    requires i < |ps|
    requires forall j | i < j < |ps| :: ps[j].userId != ps[i].userId
    ensures ps[i].userId in ProfileIndex(ps)
    ensures ProfileIndex(ps)[ps[i].userId] == ps[i]
    decreases |ps|
  {
    if i < |ps| - 1 {
      var front := ps[..|ps| - 1];
      assert forall j | i < j < |front| :: front[j] == ps[j];
      ProfileIndexLastWins(front, i);
    }
  }

  /** Each appointment row gets the profile the map holds for its user (the
      last one listed, see `AttachProfilesLastWins`), or none; an absent
      profile table gives every row none. */
  function AttachProfiles(rows: seq<Fetched>, profiles: Option<seq<Profile>>): (r: seq<AdminRow>)
    ensures |r| == |rows|
    ensures forall i | 0 <= i < |r| :: r[i].appt == rows[i].appt && r[i].service == rows[i].service
    ensures forall i | 0 <= i < |r| ::
      r[i].profile.Some? <==> profiles.Some? && exists p | p in profiles.value :: p.userId == rows[i].appt.userId
    ensures forall i | 0 <= i < |r| && r[i].profile.Some? ::
      r[i].profile.value in profiles.value && r[i].profile.value.userId == rows[i].appt.userId
    ensures forall i | 0 <= i < |r| && r[i].profile.Some? ::
      r[i].profile.value == ProfileIndex(profiles.value)[rows[i].appt.userId]
  {
    var index := if profiles.Some? then ProfileIndex(profiles.value) else map[];
    seq(|rows|, i requires 0 <= i < |rows| =>
      var uid := rows[i].appt.userId;
      AdminRow(rows[i].appt, rows[i].service, if uid in index then Some(index[uid]) else None))
  }

  /** With several profiles of one user, a row of that user gets the last
      of them. */
  lemma AttachProfilesLastWins(rows: seq<Fetched>, ps: seq<Profile>, i: nat, j: nat)
    requires i < |rows| && j < |ps|
    requires ps[j].userId == rows[i].appt.userId
    requires forall k | j < k < |ps| :: ps[k].userId != ps[j].userId
    ensures AttachProfiles(rows, Some(ps))[i].profile == Some(ps[j])
  {
    ProfileIndexLastWins(ps, j);
  }

  /** The client cell: the profile's full name, or "N/A" when there is no
      profile or its name is empty. */
  function ClientName(row: AdminRow): (name: string)
    ensures name != "N/A" ==> row.profile.Some? && name == row.profile.value.fullName
    ensures row.profile.Some? && row.profile.value.fullName != "" ==> name == row.profile.value.fullName
    ensures name == "N/A" <==> row.profile.None? || row.profile.value.fullName in {"", "N/A"}
  {
    if row.profile.Some? && row.profile.value.fullName != "" then row.profile.value.fullName else "N/A"
  }

  // ------------------------------------------------------------- statistics

  /** Every row carries its joined service; the statistics read each row's
      service name without a guard and fail on a row without one. */
  predicate Joined(rows: seq<Fetched>) {
    forall i | 0 <= i < |rows| :: rows[i].service.Some?
  }

  function ServiceNames(rows: seq<Fetched>): (names: seq<string>)
    requires Joined(rows)
    ensures |names| == |rows|
    ensures forall i | 0 <= i < |rows| :: names[i] == rows[i].service.value.name
  {
    if |rows| == 0 then []
    else [rows[0].service.value.name] + ServiceNames(rows[1..])
  }

  /** A name-to-count table, in the order names were first added. */
  type Tally = seq<(string, nat)>

  ghost predicate DistinctKeys(t: Tally) {
    forall i, j | 0 <= i < j < |t| :: t[i].0 != t[j].0
  }

  /** The position of `k` in the table, or the length when it is absent. */
  function KeyIndex(t: Tally, k: string): (i: nat)
    ensures i <= |t|
    ensures forall j | 0 <= j < i :: t[j].0 != k
    ensures i < |t| ==> t[i].0 == k
  {
    if |t| == 0 then 0
    else if t[0].0 == k then 0
    else 1 + KeyIndex(t[1..], k)
  }

  /** `t` counts `names`: one entry per distinct name, holding the number
      of times the name occurs. */
  ghost predicate CountsOf(names: seq<string>, t: Tally) {
    && DistinctKeys(t)
    && (forall i | 0 <= i < |t| :: t[i].1 == multiset(names)[t[i].0])
    && (forall n :: n in names <==> exists i | 0 <= i < |t| :: t[i].0 == n)
  }

  /** `counts[name] = (counts[name] || 0) + 1`. */
  function Bump(t: Tally, x: string): Tally {
    var k := KeyIndex(t, x);
    if k < |t| then t[k := (x, t[k].1 + 1)] else t + [(x, 1)]
  }

  /** Bumping a name in the counts of `front` gives the counts of `front + [x]`. */
  lemma BumpCounts(front: seq<string>, t: Tally, x: string)
    requires CountsOf(front, t)
    ensures CountsOf(front + [x], Bump(t, x))
  {
    var names := front + [x];
    assert forall n :: n in names <==> n in front || n == x;
    var k := KeyIndex(t, x);
    var r := Bump(t, x);
    if k < |t| {
      assert forall i | 0 <= i < |r| :: r[i].0 == t[i].0;
    } else {
      assert x !in front;
      assert forall i | 0 <= i < |t| :: r[i] == t[i];
      assert r[|t|] == (x, 1);
    }
  }

  /** The entries of `t` come in the order their names are first met in `names`. */
  ghost predicate FirstSeenOrder(names: seq<string>, t: Tally) {
    forall i, j | 0 <= i < j < |t| :: Seqs.IndexOf(names, t[i].0) < Seqs.IndexOf(names, t[j].0)
  }

  /** Bumping a name keeps the entries in first-seen order: an existing
      entry stays where it is, a new name goes last. */
  lemma BumpOrder(front: seq<string>, t: Tally, x: string)
    requires forall i | 0 <= i < |t| :: t[i].0 in front
    requires forall n | n in front :: exists i | 0 <= i < |t| :: t[i].0 == n
    requires FirstSeenOrder(front, t)
    ensures FirstSeenOrder(front + [x], Bump(t, x))
  {
    var names := front + [x];
    KeysKeepPlace(front, t, x);
    var k := KeyIndex(t, x);
    var r := Bump(t, x);
    if k < |t| {
      assert forall i | 0 <= i < |r| :: r[i].0 == t[i].0;
    } else {
      assert x !in front;
      Seqs.IndexOfAppend(front, x, x);
      assert forall i | 0 <= i < |t| :: r[i] == t[i];
      assert r[|t|].0 == x;
    }
  }

  /** Appending a name moves no name already counted. */
  lemma KeysKeepPlace(front: seq<string>, t: Tally, x: string)
    requires forall i | 0 <= i < |t| :: t[i].0 in front
    ensures forall i | 0 <= i < |t| ::
      Seqs.IndexOf(front + [x], t[i].0) == Seqs.IndexOf(front, t[i].0) < |front|
  {
    forall i | 0 <= i < |t|
      ensures Seqs.IndexOf(front + [x], t[i].0) == Seqs.IndexOf(front, t[i].0) < |front|
    {
      Seqs.IndexOfAppend(front, x, t[i].0);
    }
  }

  /** The service-count table built by the panel's `forEach`: one entry per
      distinct name with its number of occurrences, in the order the names
      are first met, as an object keeps its keys. */
  function CountNames(names: seq<string>): (t: Tally)
    ensures DistinctKeys(t)
    ensures forall i | 0 <= i < |t| :: t[i].1 == multiset(names)[t[i].0]
    ensures forall n :: n in names <==> exists i | 0 <= i < |t| :: t[i].0 == n
    ensures FirstSeenOrder(names, t)
    decreases |names|
  {
    if |names| == 0 then []
    else
      var front := names[..|names| - 1];
      var x := names[|names| - 1];
      assert names == front + [x];
      var prev := CountNames(front);
      BumpCounts(front, prev, x);
      BumpOrder(front, prev, x);
      Bump(prev, x)
  }

  function NegCount(e: (string, nat)): int {
    -(e.1 as int)
  }

  /** The top-service card: the first entry of the table sorted by
      descending count, or '-' when the table is empty or that name is empty. */
  function TopService(t: Tally): (name: string)
    ensures |t| == 0 ==> name == "-"
    ensures name != "-" ==> exists i | 0 <= i < |t| :: t[i].0 == name
  {
    if |t| == 0 then "-"
    else
      var sorted := Seqs.SortBy(t, NegCount);
      assert sorted[0] in multiset(t);
      var top := sorted[0].0;
      if top == "" then "-" else top
  }

  /** The sort is stable, so the top service is the first entry with the
      greatest count: ties go to the name counted first. */
  lemma TopServiceFirstMostCounted(t: Tally)
    requires |t| > 0
    ensures var i := Seqs.FirstMinIndex(t, NegCount);
      && TopService(t) == (if t[i].0 == "" then "-" else t[i].0)
      && (forall k | 0 <= k < |t| :: t[k].1 <= t[i].1)
      && (forall k | 0 <= k < i :: t[k].1 < t[i].1)
  {
    Seqs.SortHead(t, NegCount);
  }

  /** `n` occurs in `names` at least as often as any other name. */
  ghost predicate MostFrequent(names: seq<string>, n: string) {
    n in names && forall m | m in names :: multiset(names)[m] <= multiset(names)[n]
  }

  /** `n` is a most frequent name, and no other most frequent name is met
      before it. */
  ghost predicate EarliestMostFrequent(names: seq<string>, n: string) {
    MostFrequent(names, n) && forall m | MostFrequent(names, m) :: Seqs.IndexOf(names, n) <= Seqs.IndexOf(names, m)
  }

  /** At most one name is the earliest most frequent one. */
  lemma EarliestIsUnique(names: seq<string>, n: string, m: string)
    requires EarliestMostFrequent(names, n) && EarliestMostFrequent(names, m)
    ensures n == m
  {
    assert names[Seqs.IndexOf(names, n)] == n && names[Seqs.IndexOf(names, m)] == m;
  }

  /** Over the fetched rows' service names, the top service is the most
      frequent name met first (spelled '-' when that name is empty), and '-'
      when there are no rows. */
  lemma TopServiceIsMostBooked(names: seq<string>)
    ensures |names| == 0 ==> TopService(CountNames(names)) == "-"
    ensures |names| > 0 ==> exists n | EarliestMostFrequent(names, n) ::
      TopService(CountNames(names)) == (if n == "" then "-" else n)
  {
    var t := CountNames(names);
    if |names| > 0 {
      assert names[0] in names;
      var i := Seqs.FirstMinIndex(t, NegCount);
      TopServiceFirstMostCounted(t);
      TallyMax(names, t, i);
      TallyEarliest(names, t, i);
    }
  }

  /** The name of an entry with the greatest count is a most frequent name. */
  lemma TallyMax(names: seq<string>, t: Tally, i: nat)
    requires CountsOf(names, t)
    requires i < |t| && forall k | 0 <= k < |t| :: t[k].1 <= t[i].1
    ensures MostFrequent(names, t[i].0)
  {
    forall m | m in names
      ensures multiset(names)[m] <= multiset(names)[t[i].0]
    {
      var k :| 0 <= k < |t| && t[k].0 == m;
      assert t[k].1 <= t[i].1;
    }
  }

  /** In a first-seen table, the first entry with the greatest count names
      the earliest most frequent name. */
  lemma TallyEarliest(names: seq<string>, t: Tally, i: nat)
    requires CountsOf(names, t) && FirstSeenOrder(names, t)
    requires i < |t| && forall k | 0 <= k < |t| :: t[k].1 <= t[i].1
    requires forall k | 0 <= k < i :: t[k].1 < t[i].1
    ensures EarliestMostFrequent(names, t[i].0)
  {
    TallyMax(names, t, i);
    forall m | MostFrequent(names, m)
      ensures Seqs.IndexOf(names, t[i].0) <= Seqs.IndexOf(names, m)
    {
      var k :| 0 <= k < |t| && t[k].0 == m;
      assert t[i].0 in names;
      assert t[k].1 == t[i].1;
    }
  }

  /** Equal counts go to the name met first. */
  lemma TopServiceTie()
    ensures TopService([("Lavagem", 2), ("Polimento", 2)]) == "Lavagem"
  {
    TopServiceFirstMostCounted([("Lavagem", 2), ("Polimento", 2)]);
  }

  /** `a.service?.price || 0`. */
  function RowPrice(f: Fetched): int {
    if f.service.Some? then f.service.value.price else 0
  }

  predicate IsCompleted(f: Fetched) {
    f.appt.status == Completed
  }

  /** The completed rows, one per completed index. */
  function CompletedRows(rows: seq<Fetched>): (r: seq<Fetched>)
    ensures |r| == Seqs.CountIndices(rows, IsCompleted)
  {
    Seqs.FilterLength(rows, IsCompleted);
    Seqs.Filter(rows, IsCompleted)
  }

  /** Revenue: the prices of the completed appointments, added up. Rows in
      any other status add nothing, and one completed row adds its price (0
      without a service). */
  function Revenue(rows: seq<Fetched>): (total: int)
    ensures (forall i | 0 <= i < |rows| :: !IsCompleted(rows[i])) ==> total == 0
    ensures |rows| == 1 ==> total == (if IsCompleted(rows[0]) then RowPrice(rows[0]) else 0)
  {
    var completed := CompletedRows(rows);
    assert (forall i | 0 <= i < |rows| :: !IsCompleted(rows[i])) ==> completed == [] by {
      if forall i | 0 <= i < |rows| :: !IsCompleted(rows[i]) {
        Seqs.FilterNone(rows, IsCompleted);
      }
    }
    assert |rows| == 1 ==> completed == (if IsCompleted(rows[0]) then [rows[0]] else []) by {
      if |rows| == 1 {
        assert rows[1..] == [];
      }
    }
    assert |rows| == 1 ==> Seqs.SumBy([rows[0]], RowPrice) == RowPrice(rows[0]) by {
      if |rows| == 1 {
        assert [rows[0]][1..] == [];
      }
    }
    Seqs.SumBy(completed, RowPrice)
  }

  /** Revenue over two batches of rows is the sum of their revenues. */
  lemma RevenueAppend(a: seq<Fetched>, b: seq<Fetched>)
    ensures Revenue(a + b) == Revenue(a) + Revenue(b)
    ensures |CompletedRows(a + b)| == |CompletedRows(a)| + |CompletedRows(b)|
  {
    Seqs.FilterAppend(a, b, IsCompleted);
    Seqs.SumByAppend(CompletedRows(a), CompletedRows(b), RowPrice);
  }

  /** With prices that are not negative, revenue is not negative. */
  lemma {:induction false} RevenueNonNegative(rows: seq<Fetched>)
    requires forall i | 0 <= i < |rows| :: RowPrice(rows[i]) >= 0
    ensures Revenue(rows) >= 0
    decreases |rows|
  {
    if |rows| > 0 {
      assert rows == [rows[0]] + rows[1..];
      RevenueAppend([rows[0]], rows[1..]);
      RevenueNonNegative(rows[1..]);
    }
  }

  datatype Stats = Stats(
    totalAppointments: nat,
    todayAppointments: nat,
    totalClients: nat,
    topService: string,
    totalRevenue: int,
    completedCount: nat)

  /** The rows dated `today`. */
  function TodayRows(rows: seq<Fetched>, today: Day): (r: seq<Fetched>)
    ensures |r| == Seqs.CountIndices(rows, (f: Fetched) => f.appt.date == today)
  {
    Seqs.FilterLength(rows, (f: Fetched) => f.appt.date == today);
    Seqs.Filter(rows, (f: Fetched) => f.appt.date == today)
  }

  /** The statistics computed after each fetch, from the appointments and
      client queries (None: no data) and today's date. A row without its
      service makes the computation fail (None). */
  function ComputeStats(appointments: Option<seq<Fetched>>, clients: Option<seq<Profile>>, today: Day): (r: Option<Stats>)
    ensures r.None? <==> appointments.Some? && !Joined(appointments.value)
    ensures r.Some? ==>
      && r.value.totalAppointments == |appointments.GetOr([])|
      && r.value.totalClients == |clients.GetOr([])|
      && r.value.todayAppointments <= r.value.totalAppointments
      && r.value.completedCount <= r.value.totalAppointments
      && r.value.completedCount == |CompletedRows(appointments.GetOr([]))|
      && r.value.totalRevenue == Revenue(appointments.GetOr([]))
    ensures appointments.None? ==> r == Some(Stats(0, 0, |clients.GetOr([])|, "-", 0, 0))
  {
    var rows := appointments.GetOr([]);
    if !Joined(rows) then None
    else
      var todays := TodayRows(rows, today);
      var completed := CompletedRows(rows);
      Some(Stats(
        |rows|,
        |todays|,
        |clients.GetOr([])|,
        TopService(CountNames(ServiceNames(rows))),
        Seqs.SumBy(completed, RowPrice),
        |completed|))
  }

  /** The today card counts the rows dated today and the completed card
      counts the completed rows, one per row whatever its contents. */
  lemma TodayCount(rows: seq<Fetched>, clients: Option<seq<Profile>>, today: Day)
    requires Joined(rows)
    ensures ComputeStats(Some(rows), clients, today).Some?
    ensures ComputeStats(Some(rows), clients, today).value.todayAppointments
      == Seqs.CountIndices(rows, (f: Fetched) => f.appt.date == today)
    ensures ComputeStats(Some(rows), clients, today).value.completedCount
      == Seqs.CountIndices(rows, IsCompleted)
  {
    var todays := TodayRows(rows, today);
    var completed := CompletedRows(rows);
  }

  /** The top-service card: "-" without rows, otherwise the most booked
      service name met first ("-" again when that name is empty). */
  lemma TopServiceCard(rows: seq<Fetched>, clients: Option<seq<Profile>>, today: Day)
    requires Joined(rows)
    ensures ComputeStats(Some(rows), clients, today).Some?
    ensures |rows| == 0 ==> ComputeStats(Some(rows), clients, today).value.topService == "-"
    ensures |rows| > 0 ==> exists n | EarliestMostFrequent(ServiceNames(rows), n) ::
      ComputeStats(Some(rows), clients, today).value.topService == (if n == "" then "-" else n)
  {
    TopServiceIsMostBooked(ServiceNames(rows));
  }

  // ------------------------------------------------------------------- page

  /** The panel's state: table rows, services, clients, the cards and the
      spinner flag. */
  datatype PanelState = PanelState(
    rows: seq<AdminRow>,
    services: seq<Service>,
    clients: seq<Profile>,
    stats: Stats,
    loading: bool)

  const InitialPanel: PanelState := PanelState([], [], [], Stats(0, 0, 0, "", 0, 0), true)

  /** One run of the panel's fetch. Each table is replaced only when its
      query returned data; when the statistics fail, the lists already
      replaced stay replaced and the cards and spinner stay as they were. */
  function FetchData(st: PanelState, appointments: Option<seq<Fetched>>, profiles: Option<seq<Profile>>,
                     services: Option<seq<Service>>, clients: Option<seq<Profile>>, today: Day): (r: PanelState)
    ensures appointments.None? ==> r.rows == st.rows
    ensures appointments.Some? ==> r.rows == AttachProfiles(appointments.value, profiles)
    ensures services.None? ==> r.services == st.services
    ensures services.Some? ==> r.services == services.value
    ensures clients.None? ==> r.clients == st.clients
    ensures clients.Some? ==> r.clients == clients.value
    ensures ComputeStats(appointments, clients, today).None? ==> r.stats == st.stats && r.loading == st.loading
    ensures ComputeStats(appointments, clients, today).Some? ==>
      r.stats == ComputeStats(appointments, clients, today).value && !r.loading
  {
    var rows := if appointments.Some? then AttachProfiles(appointments.value, profiles) else st.rows;
    var st' := st.(
      rows := rows,
      services := services.GetOr(st.services),
      clients := clients.GetOr(st.clients));
    match ComputeStats(appointments, clients, today)
    case None => st'
    case Some(s) => st'.(stats := s, loading := false)
  }

  /** The revenue tab's rows: the table rows whose status is completed. */
  predicate IsCompletedRow(a: AdminRow) {
    a.appt.status == Completed
  }

  function TabRows(rows: seq<AdminRow>): seq<AdminRow> {
    Seqs.Filter(rows, IsCompletedRow)
  }

  function TabPrice(a: AdminRow): int {
    if a.service.Some? then a.service.value.price else 0
  }

  /** Rows that agree on appointment and service give the same completed
      count and the same completed prices. */
  lemma {:induction false} TabAgrees(rows: seq<Fetched>, shown: seq<AdminRow>)
    requires |shown| == |rows|
    requires forall i | 0 <= i < |rows| :: shown[i].appt == rows[i].appt && shown[i].service == rows[i].service
    ensures |TabRows(shown)| == |CompletedRows(rows)|
    ensures Seqs.SumBy(TabRows(shown), TabPrice) == Revenue(rows)
    decreases |rows|
  {
    if |rows| > 0 {
      var rows', shown' := rows[1..], shown[1..];
      assert forall i | 0 <= i < |rows'| :: shown'[i] == shown[i + 1] && rows'[i] == rows[i + 1];
      TabAgrees(rows', shown');
      TabStep(rows, shown);
    } else {
      assert TabRows(shown) == [] && CompletedRows(rows) == [];
      assert Seqs.SumBy(TabRows(shown), TabPrice) == 0;
      assert Revenue(rows) == 0;
    }
  }

  lemma TabStep(rows: seq<Fetched>, shown: seq<AdminRow>)
    requires |shown| == |rows| > 0
    requires shown[0].appt == rows[0].appt && shown[0].service == rows[0].service
    requires |TabRows(shown[1..])| == |CompletedRows(rows[1..])|
    requires Seqs.SumBy(TabRows(shown[1..]), TabPrice) == Revenue(rows[1..])
    ensures |TabRows(shown)| == |CompletedRows(rows)|
    ensures Seqs.SumBy(TabRows(shown), TabPrice) == Revenue(rows)
  {
    var a, b := [rows[0]], rows[1..];
    var c, d := [shown[0]], shown[1..];
    assert rows == a + b;
    assert shown == c + d;
    RevenueAppend(a, b);
    TabAppend(c, d);
    TabOne(rows[0], shown[0]);
  }

  lemma TabAppend(a: seq<AdminRow>, b: seq<AdminRow>)
    ensures TabRows(a + b) == TabRows(a) + TabRows(b)
    ensures Seqs.SumBy(TabRows(a + b), TabPrice) == Seqs.SumBy(TabRows(a), TabPrice) + Seqs.SumBy(TabRows(b), TabPrice)
  {
    Seqs.FilterAppend(a, b, IsCompletedRow);
    Seqs.SumByAppend(TabRows(a), TabRows(b), TabPrice);
  }

  lemma TabOne(f: Fetched, a: AdminRow)
    requires a.appt == f.appt && a.service == f.service
    ensures |TabRows([a])| == |CompletedRows([f])|
    ensures Seqs.SumBy(TabRows([a]), TabPrice) == Revenue([f])
  {
    if f.appt.status == Completed {
      assert TabRows([a]) == [a];
      assert CompletedRows([f]) == [f];
      assert Seqs.SumBy([a], TabPrice) == TabPrice(a);
      assert Seqs.SumBy([f], RowPrice) == RowPrice(f);
    } else {
      assert TabRows([a]) == [];
      assert CompletedRows([f]) == [];
    }
  }

  /** After a fetch whose appointments query returned data, every row with
      its service, the revenue tab lists as many rows as the completed count
      says, and their prices add up to the revenue shown under them. The
      two lemmas after it show that neither condition can be dropped. */
  lemma RevenueTabMatchesCards(st: PanelState, appointments: seq<Fetched>, profiles: Option<seq<Profile>>,
                               services: Option<seq<Service>>, clients: Option<seq<Profile>>, today: Day)
    requires Joined(appointments)
    ensures var r := FetchData(st, Some(appointments), profiles, services, clients, today);
      && |TabRows(r.rows)| == r.stats.completedCount
      && Seqs.SumBy(TabRows(r.rows), TabPrice) == r.stats.totalRevenue
  {
    var r := FetchData(st, Some(appointments), profiles, services, clients, today);
    TabAgrees(appointments, r.rows);
  }

  /** An appointments query without data keeps the old table rows, while
      the cards are recomputed from no rows: completed rows still listed in
      the tab sit under a completed count and a revenue of 0. */
  lemma TabOutlivesCards(st: PanelState, profiles: Option<seq<Profile>>, services: Option<seq<Service>>,
                         clients: Option<seq<Profile>>, today: Day)
    requires |TabRows(st.rows)| > 0
    ensures var r := FetchData(st, None, profiles, services, clients, today);
      && r.rows == st.rows
      && r.stats.completedCount == 0 && r.stats.totalRevenue == 0
      && |TabRows(r.rows)| != r.stats.completedCount
  {
  }

  /** A completed row without its service replaces the table rows, but the
      statistics throw, so the cards and the spinner keep their old values:
      the state holds one completed row under the completed count of 0 from
      before. The page never shows that state: on a first load the spinner
      stays up, and later the row's table cells fail to render. */
  lemma TabUnderStaleCards(st: PanelState, f: Fetched, profiles: Option<seq<Profile>>,
                           services: Option<seq<Service>>, clients: Option<seq<Profile>>, today: Day)
    requires st.stats.completedCount == 0
    requires f.service.None? && f.appt.status == Completed
    ensures var r := FetchData(st, Some([f]), profiles, services, clients, today);
      && r.stats == st.stats && r.loading == st.loading
      && |TabRows(r.rows)| == 1 != r.stats.completedCount
  {
    var r := FetchData(st, Some([f]), profiles, services, clients, today);
    assert !Joined([f]);
    assert r.rows[0].appt == f.appt;
    assert r.rows == [r.rows[0]];
    assert TabRows(r.rows) == [r.rows[0]] by {
      assert r.rows[1..] == [];
    }
  }

  // ---------------------------------------------------------- status change

  datatype UpdateOutcome =
    /** The update reported an error: a toast, nothing refetched. */
    | UpdateFailed
    /** The stored rows after the update; the page then fetches again. */
    | Updated(table: seq<Fetched>)

  /** `update({ status }).eq('id', id)`, any status to any status; `failed`
      stands for the datastore reporting an error. */
  function UpdateStatus(table: seq<Fetched>, id: Id, status: AppointmentStatus, failed: bool): (r: UpdateOutcome)
    ensures r.UpdateFailed? <==> failed
    ensures r.Updated? ==> |r.table| == |table|
    ensures r.Updated? ==> forall i | 0 <= i < |table| ::
      && (table[i].appt.id == id ==> r.table[i].appt.status == status)
      && (table[i].appt.id != id ==> r.table[i] == table[i])
      && r.table[i].service == table[i].service
      && r.table[i].appt == table[i].appt.(status := r.table[i].appt.status)
  {
    if failed then UpdateFailed
    else Updated(seq(|table|, i requires 0 <= i < |table| =>
      if table[i].appt.id == id then table[i].(appt := table[i].appt.(status := status)) else table[i]))
  }

  /** Setting the same status twice is setting it once, and of two updates
      to the same row the later one wins. */
  lemma UpdateLastWins(table: seq<Fetched>, id: Id, s1: AppointmentStatus, s2: AppointmentStatus)
    ensures UpdateStatus(UpdateStatus(table, id, s1, false).table, id, s2, false)
      == UpdateStatus(table, id, s2, false)
    ensures UpdateStatus(UpdateStatus(table, id, s1, false).table, id, s1, false)
      == UpdateStatus(table, id, s1, false)
  {
  }

  /** Marking a row completed (its id unique, its status something else)
      raises the revenue by its price and the completed count by one, and
      leaves the number of appointments as it was. */
  lemma CompletingAddsRevenue(table: seq<Fetched>, k: nat, clients: Option<seq<Profile>>, today: Day)
    requires k < |table| && Joined(table)
    requires table[k].appt.status != Completed
    requires forall j | 0 <= j < |table| && j != k :: table[j].appt.id != table[k].appt.id
    ensures var after := UpdateStatus(table, table[k].appt.id, Completed, false).table;
      var s0 := ComputeStats(Some(table), clients, today).value;
      var s1 := ComputeStats(Some(after), clients, today);
      && s1.Some?
      && s1.value.totalRevenue == s0.totalRevenue + table[k].service.value.price
      && s1.value.completedCount == s0.completedCount + 1
      && s1.value.totalAppointments == s0.totalAppointments
  {
    var id := table[k].appt.id;
    var after := UpdateStatus(table, id, Completed, false).table;
    assert Joined(after);
    var pre, post := table[..k], table[k + 1..];
    assert table == pre + [table[k]] + post;
    assert after == pre + [after[k]] + post;
    SwapInCompleted(pre, table[k], after[k], post);
  }

  /** Replacing a row that is not completed by one that is adds the new
      row's price to the revenue and one to the completed count. */
  lemma SwapInCompleted(pre: seq<Fetched>, x: Fetched, y: Fetched, post: seq<Fetched>)
    requires x.appt.status != Completed && y.appt.status == Completed
    ensures Revenue(pre + [y] + post) == Revenue(pre + [x] + post) + RowPrice(y)
    ensures |CompletedRows(pre + [y] + post)| == |CompletedRows(pre + [x] + post)| + 1
  {
    RevenueAppend(pre + [x], post);
    RevenueAppend(pre, [x]);
    RevenueAppend(pre + [y], post);
    RevenueAppend(pre, [y]);
    assert CompletedRows([x]) == [];
    assert CompletedRows([y]) == [y];
    assert Seqs.SumBy([y], RowPrice) == RowPrice(y);
  }
}
