/** One trip record, with the calendar fields already derived from `Start Time`, and the table's columns. */
module Trips {
  import opened Outcomes

  datatype Trip = Trip(
    month: int,              // `Start Time`.dt.month
    weekday: string,         // `Start Time`.dt.weekday_name, e.g. "Monday"
    hour: int,               // `Start Time`.dt.hour
    startStation: string,
    endStation: string,
    duration: nat,           // `Trip Duration`, in seconds
    userType: string,
    gender: Option<string>,  // NaN where the row has no gender
    birthYear: Option<int>)  // NaN where the row has no birth year

  type Table = seq<Trip>

  const WeekdayNames: seq<string> :=
    ["Monday", "Tuesday", "Wednesday", "Thursday", "Friday", "Saturday", "Sunday"]

  /** What date parsing guarantees of the derived fields. */
  predicate WellFormed(t: Table)
  {
    forall i :: 0 <= i < |t| ==>
      1 <= t[i].month <= 12 && 0 <= t[i].hour <= 23 && t[i].weekday in WeekdayNames
  }

  function Months(t: Table): (c: seq<int>)
    ensures |c| == |t| && forall i :: 0 <= i < |t| ==> c[i] == t[i].month
  {
    seq(|t|, i requires 0 <= i < |t| => t[i].month)
  }

  function Weekdays(t: Table): (c: seq<string>)
    ensures |c| == |t| && forall i :: 0 <= i < |t| ==> c[i] == t[i].weekday
  {
    seq(|t|, i requires 0 <= i < |t| => t[i].weekday)
  }

  function Hours(t: Table): (c: seq<int>)
    ensures |c| == |t| && forall i :: 0 <= i < |t| ==> c[i] == t[i].hour
  {
    seq(|t|, i requires 0 <= i < |t| => t[i].hour)
  }

  function StartStations(t: Table): (c: seq<string>)
    ensures |c| == |t| && forall i :: 0 <= i < |t| ==> c[i] == t[i].startStation
  {
    seq(|t|, i requires 0 <= i < |t| => t[i].startStation)
  }

  function EndStations(t: Table): (c: seq<string>)
    ensures |c| == |t| && forall i :: 0 <= i < |t| ==> c[i] == t[i].endStation
  {
    seq(|t|, i requires 0 <= i < |t| => t[i].endStation)
  }

  /** The (start, end) station pair of every row. */
  function Routes(t: Table): (c: seq<(string, string)>)
    ensures |c| == |t| && forall i :: 0 <= i < |t| ==> c[i] == (t[i].startStation, t[i].endStation)
  {
    seq(|t|, i requires 0 <= i < |t| => (t[i].startStation, t[i].endStation))
  }

  function UserTypes(t: Table): (c: seq<string>)
    ensures |c| == |t| && forall i :: 0 <= i < |t| ==> c[i] == t[i].userType
  {
    seq(|t|, i requires 0 <= i < |t| => t[i].userType)
  }

  /** The values present in a column with missing entries, in order (pandas skips NaN). */
  function Somes<T>(c: seq<Option<T>>): (r: seq<T>)
    ensures |r| <= |c|
  {
    if c == [] then [] else (if c[0].Some? then [c[0].value] else []) + Somes(c[1..])
  }

  /** Each value occurs in `Somes(c)` exactly as often as `Some` of it occurs in `c`. */
  lemma {:induction false} SomesCounted<T>(c: seq<Option<T>>)
    ensures forall x :: multiset(Somes(c))[x] == multiset(c)[Some(x)]
  {
    if c != [] {
      SomesCounted(c[1..]);
      var head := if c[0].Some? then [c[0].value] else [];
      assert c == [c[0]] + c[1..];
      forall x ensures multiset(Somes(c))[x] == multiset(c)[Some(x)] {
        assert multiset(Somes(c))[x] == multiset(head)[x] + multiset(Somes(c[1..]))[x];
        assert multiset(c)[Some(x)] == multiset([c[0]])[Some(x)] + multiset(c[1..])[Some(x)];
      }
    }
  }

  /** The gender column as stored, one entry per trip, `None` where the value is missing. */
  function GenderColumn(t: Table): (c: seq<Option<string>>)
    ensures |c| == |t| && forall i :: 0 <= i < |t| ==> c[i] == t[i].gender
  {
    seq(|t|, i requires 0 <= i < |t| => t[i].gender)
  }

  /** The genders present, in row order (what `value_counts()` looks at), each as often as trips carry it. */
  function Genders(t: Table): (c: seq<string>)
    ensures |c| <= |t|
    ensures forall g :: multiset(c)[g] == multiset(GenderColumn(t))[Some(g)]
  {
    SomesCounted(GenderColumn(t));
    Somes(GenderColumn(t))
  }

  /** The birth-year column as stored, one entry per trip, `None` where the value is missing. */
  function BirthYearColumn(t: Table): (c: seq<Option<int>>)
    ensures |c| == |t| && forall i :: 0 <= i < |t| ==> c[i] == t[i].birthYear
  {
    seq(|t|, i requires 0 <= i < |t| => t[i].birthYear)
  }

  /** The birth years present, in row order (what `min`, `max` and `mode` look at), each as often as trips carry it. */
  function BirthYears(t: Table): (c: seq<int>)
    ensures |c| <= |t|
    ensures forall y :: multiset(c)[y] == multiset(BirthYearColumn(t))[Some(y)]
  {
    SomesCounted(BirthYearColumn(t));
    Somes(BirthYearColumn(t))
  }
}
