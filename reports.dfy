/**
 * The four statistics reports: `time_stats`, `station_stats`, `trip_duration_stats` and
 * `user_stats`, as values instead of printed text.
 */
module Reports {
  import opened Outcomes
  import opened Trips
  import opened Frequency
  import Filters

  // ---------------------------------------------------------------- time_stats

  datatype TimeReport = TimeReport(month: int, weekday: string, hour: int)

  /** `time_stats(df)`: the most common month, day of week and hour, each by `mode()[0]`. */
  function TimeStats(t: Table): (r: Result<TimeReport>)
    ensures r.Ok? <==> |t| > 0
    ensures r.Err? ==> r.error == EmptyColumn
    ensures r.Ok? ==> && IsMode(Months(t), IntLess, r.value.month)
                      && IsMode(Weekdays(t), StringLess, r.value.weekday)
                      && IsMode(Hours(t), IntLess, r.value.hour)
  {
    IntLessIsOrder();
    StringLessIsOrder();
    var month := Mode(Months(t), IntLess);
    var weekday := Mode(Weekdays(t), StringLess);
    var hour := Mode(Hours(t), IntLess);
    if t == [] then Err(EmptyColumn)
    else Ok(TimeReport(month.value, weekday.value, hour.value))
  }

  /** The popular month, day and hour are values some trip has, so they stay in their ranges. */
  lemma PopularTimesInRange(t: Table)
    requires WellFormed(t) && |t| > 0
    ensures 1 <= TimeStats(t).value.month <= 12
    ensures 0 <= TimeStats(t).value.hour <= 23
    ensures TimeStats(t).value.weekday in WeekdayNames
  {
    var r := TimeStats(t).value;
    var i :| 0 <= i < |t| && Months(t)[i] == r.month;
    var j :| 0 <= j < |t| && Hours(t)[j] == r.hour;
    var k :| 0 <= k < |t| && Weekdays(t)[k] == r.weekday;
  }

  // ---------------------------------------------------------------- station_stats

  datatype StationReport = StationReport(start: string, end: string, route: (string, string))

  /** The most frequent (start, end) pair of the table, the smallest one among ties. */
  function PopularRoute(t: Table): (r: Result<(string, string)>)
    ensures r.Ok? <==> |t| > 0
    ensures r.Ok? ==> IsMode(Routes(t), PairLess, r.value)
    ensures r.Ok? ==> exists i :: 0 <= i < |t| && t[i].startStation == r.value.0 && t[i].endStation == r.value.1
  {
    PairLessIsOrder();
    var r := Mode(Routes(t), PairLess);
    assert r.Ok? ==> r.value in Routes(t);
    r
  }

  /**
   * `df[['Start Station','End Station']].mode()` as written: DataFrame.mode() takes the mode of
   * each column on its own, so its first row pairs the popular start with the popular end.
   */
  function ColumnwiseModes(t: Table): (r: Result<(string, string)>)
    ensures r.Ok? <==> |t| > 0
    ensures r.Ok? ==> && IsMode(StartStations(t), StringLess, r.value.0)
                      && IsMode(EndStations(t), StringLess, r.value.1)
  {
    StringLessIsOrder();
    var start := Mode(StartStations(t), StringLess);
    var end := Mode(EndStations(t), StringLess);
    if t == [] then Err(EmptyColumn) else Ok((start.value, end.value))
  }

  /**
   * `station_stats(df)` as written: the route is the first row of the column-wise
   * `DataFrame.mode()`, so it always pairs the popular start with the popular end.
   */
  function StationStats(t: Table): (r: Result<StationReport>)
    ensures r.Ok? <==> |t| > 0
    ensures r.Err? ==> r.error == EmptyColumn
    ensures r.Ok? ==> && IsMode(StartStations(t), StringLess, r.value.start)
                      && IsMode(EndStations(t), StringLess, r.value.end)
                      && IsMode(StartStations(t), StringLess, r.value.route.0)
                      && IsMode(EndStations(t), StringLess, r.value.route.1)
  {
    StringLessIsOrder();
    var start := Mode(StartStations(t), StringLess);
    var end := Mode(EndStations(t), StringLess);
    var route := ColumnwiseModes(t);
    if t == [] then Err(EmptyColumn) else Ok(StationReport(start.value, end.value, route.value))
  }

  /** As written, the reported route is always the popular start paired with the popular end. */
  lemma ColumnwiseRouteIsStartEnd(t: Table)
    requires |t| > 0
    ensures StationStats(t).value.route == (StationStats(t).value.start, StationStats(t).value.end)
  {
    var r := StationStats(t).value;
    StringLessIsOrder();
    ModeUnique(StartStations(t), StringLess, r.route.0, r.start);
    ModeUnique(EndStations(t), StringLess, r.route.1, r.end);
  }

  /** `station_stats(df)` with the route computed as the most frequent (start, end) pair. */
  function StationStatsIntended(t: Table): (r: Result<StationReport>)
    ensures r.Ok? <==> |t| > 0
    ensures r.Err? ==> r.error == EmptyColumn
    ensures r.Ok? ==> && IsMode(StartStations(t), StringLess, r.value.start)
                      && IsMode(EndStations(t), StringLess, r.value.end)
                      && IsMode(Routes(t), PairLess, r.value.route)
                      && exists i :: 0 <= i < |t| && t[i].startStation == r.value.route.0
                                                  && t[i].endStation == r.value.route.1
  {
    StringLessIsOrder();
    var start := Mode(StartStations(t), StringLess);
    var end := Mode(EndStations(t), StringLess);
    var route := PopularRoute(t);
    if t == [] then Err(EmptyColumn) else Ok(StationReport(start.value, end.value, route.value))
  }

  function Ride(start: string, end: string): Trip
  {
    Trip(1, "Monday", 8, start, end, 600, "Subscriber", None, None)
  }

  /** Four trips A->X, A->Y, B->Z, C->Z: every pair occurs once, A occurs twice, Z occurs twice. */
  function CrossedTable(): Table
  {
    [Ride("A", "X"), Ride("A", "Y"), Ride("B", "Z"), Ride("C", "Z")]
  }

  lemma CrossedStartMode()
    ensures IsMode(StartStations(CrossedTable()), StringLess, "A")
  {
    var starts := StartStations(CrossedTable());
    assert starts == ["A", "A", "B", "C"];
    assert multiset(starts)["A"] == 2 && multiset(starts)["B"] == 1 && multiset(starts)["C"] == 1;
  }

  lemma CrossedEndMode()
    ensures IsMode(EndStations(CrossedTable()), StringLess, "Z")
  {
    var ends := EndStations(CrossedTable());
    assert ends == ["X", "Y", "Z", "Z"];
    assert multiset(ends)["Z"] == 2 && multiset(ends)["X"] == 1 && multiset(ends)["Y"] == 1;
  }

  lemma CrossedRoutes()
    ensures Routes(CrossedTable()) == [("A", "X"), ("A", "Y"), ("B", "Z"), ("C", "Z")]
  {
  }

  lemma CrossedRouteMode()
    ensures IsMode(Routes(CrossedTable()), PairLess, ("A", "X"))
    ensures ("A", "Z") !in Routes(CrossedTable())
  {
    CrossedRoutes();
    var routes: seq<(string, string)> := [("A", "X"), ("A", "Y"), ("B", "Z"), ("C", "Z")];
    EachOnce(routes);
    assert PairLess(("A", "X"), ("A", "Y")) by { assert Text.StrLess("X", "Y"); }
    assert PairLess(("A", "X"), ("B", "Z")) by { assert Text.StrLess("A", "B"); }
    assert PairLess(("A", "X"), ("C", "Z")) by { assert Text.StrLess("A", "C"); }
    assert forall j :: 0 <= j < |routes| ==> Beats(routes, PairLess, ("A", "X"), routes[j]);
  }

  /** In a column without repeated values every value occurs once. */
  lemma EachOnce<T>(s: seq<T>)
    requires forall i, j :: 0 <= i < j < |s| ==> s[i] != s[j]
    ensures forall j :: 0 <= j < |s| ==> multiset(s)[s[j]] == 1
  {
    forall j | 0 <= j < |s| ensures multiset(s)[s[j]] == 1 {
      Frequency.DistinctOccursOnce(s, s[j]);
    }
  }

  /**
   * On the crossed table the column-wise modes pair start A with end Z, a trip nobody took,
   * while the most frequent pair is A->X (all pairs tie, and A->X is the smallest).
   */
  lemma ColumnwiseModesNeedNotBeATrip()
    ensures ColumnwiseModes(CrossedTable()) == Ok(("A", "Z"))
    ensures ("A", "Z") !in Routes(CrossedTable())
    ensures PopularRoute(CrossedTable()) == Ok(("A", "X"))
  {
    var t := CrossedTable();
    StringLessIsOrder();
    PairLessIsOrder();
    CrossedStartMode();
    CrossedEndMode();
    CrossedRouteMode();
    ModeUnique(StartStations(t), StringLess, ColumnwiseModes(t).value.0, "A");
    ModeUnique(EndStations(t), StringLess, ColumnwiseModes(t).value.1, "Z");
    ModeUnique(Routes(t), PairLess, PopularRoute(t).value, ("A", "X"));
  }

  /** On the crossed table the report as written names the route A->Z; the corrected one names A->X. */
  lemma CrossedStationReports()
    ensures StationStats(CrossedTable()).value.route == ("A", "Z")
    ensures ("A", "Z") !in Routes(CrossedTable())
    ensures StationStatsIntended(CrossedTable()).value.route == ("A", "X")
  {
    ColumnwiseModesNeedNotBeATrip();
  }

  /** Three trips starting at A, A and B: the popular start station is A. */
  lemma PopularStartExample()
    ensures StationStats([Ride("A", "X"), Ride("A", "Y"), Ride("B", "X")]).value.start == "A"
  {
    var t := [Ride("A", "X"), Ride("A", "Y"), Ride("B", "X")];
    StringLessIsOrder();
    var starts := StartStations(t);
    assert starts == ["A", "A", "B"];
    assert multiset(starts)["A"] == 2 && multiset(starts)["B"] == 1;
    assert IsMode(starts, StringLess, "A");
    ModeUnique(starts, StringLess, StationStats(t).value.start, "A");
  }

  // ---------------------------------------------------------------- trip_duration_stats

  /** The mean is kept exact; `None` is pandas' NaN for an empty table. */
  datatype DurationReport = DurationReport(total: nat, mean: Option<real>)

  /** `df['Trip Duration'].sum()`, which is 0 on an empty table. */
  function TotalDuration(t: Table): (total: nat)
    ensures t == [] ==> total == 0
    ensures forall i :: 0 <= i < |t| ==> t[i].duration <= total
  {
    if t == [] then 0
    else
      assert forall i :: 1 <= i < |t| ==> t[i] == t[1..][i - 1];
      t[0].duration + TotalDuration(t[1..])
  }

  /** `trip_duration_stats(df)`: total and mean trip duration. */
  function DurationStats(t: Table): (r: DurationReport)
    ensures r.total == TotalDuration(t)
    ensures r.mean.Some? <==> |t| > 0
    ensures r.mean.Some? ==> r.mean.value * |t| as real == r.total as real
  {
    var total := TotalDuration(t);
    DurationReport(total, if t == [] then None else Some(total as real / |t| as real))
  }

  lemma {:induction false} TotalDurationAppend(t: Table, u: Table)
    ensures TotalDuration(t + u) == TotalDuration(t) + TotalDuration(u)
  {
    if t == [] {
      assert t + u == u;
    } else {
      assert (t + u)[0] == t[0] && (t + u)[1..] == t[1..] + u;
      TotalDurationAppend(t[1..], u);
    }
  }

  /** A filter never adds duration: the filtered total is at most the whole total. */
  lemma {:induction false} FilteredTotalAtMost(t: Table, m: Filters.Mask)
    ensures TotalDuration(Filters.Where(t, m)) <= TotalDuration(t)
  {
    if t != [] {
      FilteredTotalAtMost(t[1..], m);
      var head := if Filters.Holds(m, t[0]) then [t[0]] else [];
      assert Filters.Where(t, m) == head + Filters.Where(t[1..], m);
      TotalDurationAppend(head, Filters.Where(t[1..], m));
    }
  }

  /** With every duration between `lo` and `hi`, the total lies between `n * lo` and `n * hi`. */
  lemma {:induction false} TotalBetweenBounds(t: Table, lo: int, hi: int)
    requires forall i :: 0 <= i < |t| ==> lo <= t[i].duration <= hi
    ensures |t| * lo <= TotalDuration(t) <= |t| * hi
  {
    if t != [] {
      TotalBetweenBounds(t[1..], lo, hi);
      assert |t| * lo == lo + |t[1..]| * lo && |t| * hi == hi + |t[1..]| * hi;
    }
  }

  /** The mean lies between the shortest and the longest trip. */
  lemma MeanBetweenBounds(t: Table, lo: int, hi: int)
    requires |t| > 0
    requires forall i :: 0 <= i < |t| ==> lo <= t[i].duration <= hi
    ensures lo as real <= DurationStats(t).mean.value <= hi as real
  {
    TotalBetweenBounds(t, lo, hi);
    AverageBetween(TotalDuration(t), |t|, lo, hi, DurationStats(t).mean.value);
  }

  /** A value that times `n` gives a total between `n * lo` and `n * hi` lies between `lo` and `hi`. */
  lemma AverageBetween(total: int, n: int, lo: int, hi: int, mean: real)
    requires n > 0 && n * lo <= total <= n * hi
    requires mean * n as real == total as real
    ensures lo as real <= mean <= hi as real
  {
    assert (n * lo) as real == (lo as real) * (n as real);
    assert (n * hi) as real == (hi as real) * (n as real);
  }

  /** Two trips of 100 and 300 seconds: total 400, mean 200. */
  lemma DurationExample()
    ensures var t := [Trip(1, "Monday", 8, "A", "B", 100, "Subscriber", None, None),
                      Trip(1, "Monday", 9, "B", "A", 300, "Customer", None, None)];
            DurationStats(t) == DurationReport(400, Some(200.0))
  {
    var t := [Trip(1, "Monday", 8, "A", "B", 100, "Subscriber", None, None),
              Trip(1, "Monday", 9, "B", "A", 300, "Customer", None, None)];
    assert TotalDuration(t[1..][1..]) == 0;
    assert TotalDuration(t) == 400;
  }

  // ---------------------------------------------------------------- user_stats

  /** The one city whose data has no gender and no birth year. */
  const NoDemographicsCity: string := "washington"

  datatype UserReport =
    | Unavailable
    | Demographics(
        userTypes: seq<(string, nat)>,
        genders: seq<(string, nat)>,
        earliest: int,
        latest: int,
        commonest: int)

  /** `int(df['Birth Year'].mode())` as written: `int()` of a Series fails unless it holds one value. */
  function BirthYearModeAsWritten(years: seq<int>): (r: Result<int>)
    ensures r.Ok? ==> IsMode(years, IntLess, r.value)
    ensures r.Ok? <==> |years| > 0 && forall j :: 0 <= j < |years| ==>
                         years[j] == Mode(years, IntLess).value
                         || multiset(years)[years[j]] < multiset(years)[Mode(years, IntLess).value]
  {
    IntLessIsOrder();
    if years == [] then Err(NoBirthYears)
    else
      var v := Mode(years, IntLess).value;
      if exists j :: 0 <= j < |years| && years[j] != v && multiset(years)[years[j]] == multiset(years)[v]
      then Err(SeveralModes)
      else
        assert forall j :: 0 <= j < |years| ==> Beats(years, IntLess, v, years[j]);
        Ok(v)
  }

  /** The most common birth year, the earliest of them when several are equally common. */
  function BirthYearMode(years: seq<int>): (r: Result<int>)
    ensures r.Ok? <==> |years| > 0
    ensures r.Ok? ==> IsMode(years, IntLess, r.value)
  {
    IntLessIsOrder();
    if years == [] then Err(NoBirthYears) else Mode(years, IntLess)
  }

  /** Birth years 1980 and 1990 once each: `int(mode())` fails, the intended answer is 1980. */
  lemma BirthYearTieFails()
    ensures BirthYearModeAsWritten([1980, 1990]) == Err(SeveralModes)
    ensures BirthYearMode([1980, 1990]) == Ok(1980)
  {
    var years := [1980, 1990];
    IntLessIsOrder();
    assert multiset(years)[1980] == 1 && multiset(years)[1990] == 1;
    assert IsMode(years, IntLess, 1980);
    ModeUnique(years, IntLess, Mode(years, IntLess).value, 1980);
    assert years[1] != 1980 && multiset(years)[years[1]] == multiset(years)[1980];
  }

  /**
   * `user_stats(df, city)` as written: washington has no demographics; elsewhere `int()` of the
   * birth-year minimum fails on an empty column, and `int()` of the mode fails on a tie.
   */
  function UserStats(t: Table, city: string): (r: Result<UserReport>)
    ensures city == NoDemographicsCity ==> r == Ok(Unavailable)
    ensures city != NoDemographicsCity ==>
              && (r.Ok? <==> BirthYearModeAsWritten(BirthYears(t)).Ok?)
              && (r.Ok? ==> r.value.Demographics?
                            && r.value.commonest == BirthYearModeAsWritten(BirthYears(t)).value)
    ensures r.Err? ==> r.error == if BirthYears(t) == [] then NoBirthYears else SeveralModes
  {
    if city == NoDemographicsCity then Ok(Unavailable)
    else
      var years := BirthYears(t);
      if years == [] then Err(NoBirthYears)
      else
        match BirthYearModeAsWritten(years)
        case Err(e) => Err(e)
        case Ok(commonest) =>
          Ok(Demographics(ValueCounts(UserTypes(t)), ValueCounts(Genders(t)),
                          Min(years), Max(years), commonest))
  }

  /** `user_stats(df, city)` with the corrected birth-year mode, which reports the earliest of tied years. */
  function UserStatsIntended(t: Table, city: string): (r: Result<UserReport>)
    ensures city == NoDemographicsCity ==> r == Ok(Unavailable)
    ensures city != NoDemographicsCity ==> (r.Ok? <==> |BirthYears(t)| > 0) && (r.Ok? ==> r.value.Demographics?)
    ensures r.Err? ==> r.error == NoBirthYears
  {
    if city == NoDemographicsCity then Ok(Unavailable)
    else
      var years := BirthYears(t);
      if years == [] then Err(NoBirthYears)
      else
        Ok(Demographics(ValueCounts(UserTypes(t)), ValueCounts(Genders(t)),
                        Min(years), Max(years), BirthYearMode(years).value))
  }

  /** Wherever the report as written succeeds, it is the corrected report. */
  lemma UserStatsAgree(t: Table, city: string)
    requires city == NoDemographicsCity || BirthYearModeAsWritten(BirthYears(t)).Ok?
    ensures UserStats(t, city) == UserStatsIntended(t, city)
  {
    if city != NoDemographicsCity {
      var years := BirthYears(t);
      IntLessIsOrder();
      ModeUnique(years, IntLess, BirthYearModeAsWritten(years).value, BirthYearMode(years).value);
    }
  }

  /** Two trips born in 1980 and 1990: the report as written fails, the corrected one gives 1980. */
  lemma UserStatsTieFails()
    ensures var t := [Trip(1, "Monday", 8, "A", "B", 60, "Subscriber", None, Some(1980)),
                      Trip(1, "Monday", 9, "B", "A", 60, "Subscriber", None, Some(1990))];
            && UserStats(t, "chicago") == Err(SeveralModes)
            && UserStatsIntended(t, "chicago").value.commonest == 1980
  {
    var t := [Trip(1, "Monday", 8, "A", "B", 60, "Subscriber", None, Some(1980)),
              Trip(1, "Monday", 9, "B", "A", 60, "Subscriber", None, Some(1990))];
    assert BirthYears(t[1..][1..]) == [];
    assert BirthYears(t) == [1980, 1990];
    BirthYearTieFails();
  }

  /**
   * What the corrected demographics report says. User-type counts are exact per value, list every
   * value once, are in non-increasing order and add up to the number of trips. Gender counts are
   * the number of trips carrying each gender, list every gender once, are in non-increasing order
   * and add up to the trips with a gender. The earliest and latest birth years bound every year of
   * the table, and the most common one is its mode.
   */
  lemma DemographicsFacts(t: Table, city: string)
    requires city != NoDemographicsCity && |BirthYears(t)| > 0
    ensures var r := UserStatsIntended(t, city).value;
      && (forall i :: 0 <= i < |r.userTypes| ==> r.userTypes[i].1 == multiset(UserTypes(t))[r.userTypes[i].0])
      && (forall u :: u in UserTypes(t) <==> u in Keys(r.userTypes))
      && DistinctKeys(r.userTypes) && NonIncreasing(r.userTypes)
      && SumCounts(r.userTypes) == |t|
      && (forall i :: 0 <= i < |r.genders| ==>
            r.genders[i].1 == multiset(GenderColumn(t))[Some(r.genders[i].0)])
      && (forall g :: g in Genders(t) <==> g in Keys(r.genders))
      && DistinctKeys(r.genders) && NonIncreasing(r.genders)
      && SumCounts(r.genders) == |Genders(t)|
      && r.earliest in BirthYears(t) && r.latest in BirthYears(t)
      && (forall y :: y in BirthYears(t) ==> r.earliest <= y <= r.latest)
      && IsMode(BirthYears(t), IntLess, r.commonest)
      && r.earliest <= r.commonest <= r.latest
  {
    var r := UserStatsIntended(t, city).value;
    ValueCountsTotal(UserTypes(t));
    ValueCountsTotal(Genders(t));
    BetweenMinAndMax(BirthYears(t), r.commonest);
  }
}
