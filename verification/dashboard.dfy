/** The dashboard: the statistics the back end computes, shaped into pie-chart slices, and
    the drives falling in the next thirty days. Times are millisecond instants; `now` is the
    moment of `new Date()` and `day` reads a drive's date text as `new Date(drive.date)`. */
module Dashboard {
  import opened Wrappers
  import opened Seqs
  import opened Records

  const MillisPerDay := 86_400_000
  /** `in30Days.setDate(today.getDate() + 30)`. */
  const Horizon := 30 * MillisPerDay

  /** `driveDate >= today && driveDate <= in30Days`. */
  predicate InWindow(instant: int, now: int) {
    now <= instant <= now + Horizon
  }

  function IsUpcoming(now: int, day: string -> int): Drive -> bool {
    (d: Drive) => InWindow(day(d.date), now)
  }

  /** The drives of the closed window [now, now + 30 days], in list order. */
  function UpcomingDrives(drives: seq<Drive>, now: int, day: string -> int): (r: seq<Drive>)
    ensures forall d :: d in r <==> d in drives && now <= day(d.date) <= now + Horizon
    ensures forall d :: multiset(r)[d] == if InWindow(day(d.date), now) then multiset(drives)[d] else 0
    ensures IsSubsequence(r, drives)
  {
    FilterCountsAndOrder(drives, IsUpcoming(now, day));
    Filter(drives, IsUpcoming(now, day))
  }

  /** Filtering the upcoming drives again, at the same moment, changes nothing. */
  lemma UpcomingIdempotent(drives: seq<Drive>, now: int, day: string -> int)
    ensures UpcomingDrives(UpcomingDrives(drives, now, day), now, day) == UpcomingDrives(drives, now, day)
  {
    FilterIdempotent(drives, IsUpcoming(now, day));
  }

  /** A drive 31 days ahead is not upcoming; one exactly 30 days ahead is. */
  lemma WindowEdges(d: Drive, now: int, day: string -> int)
    ensures day(d.date) == now + 31 * MillisPerDay ==> UpcomingDrives([d], now, day) == []
    ensures day(d.date) == now + 30 * MillisPerDay ==> UpcomingDrives([d], now, day) == [d]
  {
    assert [d][1..] == [];
  }

  /** `/dashboard/stats` as the back end sends it. */
  datatype Stats = Stats(totalStudents: int, vaccinatedStudents: int, unvaccinatedStudents: int)

  datatype Slice = Slice(name: string, value: int)

  /** `pieData`. */
  function PieData(stats: Option<Stats>): (r: seq<Slice>)
    ensures stats.None? ==> r == []
    ensures stats.Some? ==>
      r == [Slice("Vaccinated", stats.value.vaccinatedStudents), Slice("Unvaccinated", stats.value.unvaccinatedStudents)]
  {
    match stats
    case None => []
    case Some(s) => [Slice("Vaccinated", s.vaccinatedStudents), Slice("Unvaccinated", s.unvaccinatedStudents)]
  }

  /** What the dashboard holds after loading. */
  datatype DashboardView = DashboardView(stats: Option<Stats>, drives: seq<Drive>, error: Option<string>)

  const FetchError := "Failed to fetch dashboard data"

  /** `fetchStatsAndDrives`. A response is `None` when its request failed, was not `ok`, or
      its body did not parse; either one failing sends the whole load down the error path. */
  function LoadDashboard(statsResponse: Option<Stats>, drivesResponse: Option<seq<Drive>>, now: int, day: string -> int): (v: DashboardView)
    ensures (statsResponse.None? || drivesResponse.None?) <==> v.error.Some?
    ensures v.error.Some? ==> v == DashboardView(None, [], Some(FetchError))
    ensures v.error.None? ==> v.stats == statsResponse && v.drives == UpcomingDrives(drivesResponse.value, now, day)
  {
    match (statsResponse, drivesResponse)
    case (Some(stats), Some(drives)) => DashboardView(Some(stats), UpcomingDrives(drives, now, day), None)
    case _ => DashboardView(None, [], Some(FetchError))
  }

  /** After a failed load there is nothing to chart and no drive to list. */
  lemma FailedLoadShowsNothing(statsResponse: Option<Stats>, drivesResponse: Option<seq<Drive>>, now: int, day: string -> int)
    requires statsResponse.None? || drivesResponse.None?
    ensures var v := LoadDashboard(statsResponse, drivesResponse, now, day);
      PieData(v.stats) == [] && v.drives == []
  {
  }

  /** After a successful load the pie has the two slices of the fetched statistics and the
      list holds exactly the fetched drives of the window, in the order fetched. */
  lemma LoadedDashboardContents(stats: Stats, drives: seq<Drive>, now: int, day: string -> int)
    ensures var v := LoadDashboard(Some(stats), Some(drives), now, day);
      && |PieData(v.stats)| == 2
      && PieData(v.stats)[0].value == stats.vaccinatedStudents
      && PieData(v.stats)[1].value == stats.unvaccinatedStudents
      && (forall d :: d in v.drives <==> d in drives && InWindow(day(d.date), now))
      && IsSubsequence(v.drives, drives)
  {
  }
}
