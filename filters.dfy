/**
 * The filtering half of `load_data`: the month name becomes its number, then the table is
 * narrowed by month and by weekday, each step keeping the matching rows in their order.
 */
module Filters {
  import opened Outcomes
  import opened Trips
  import Text

  /** The six months the data covers, in calendar order. */
  const MonthNames: seq<string> := ["january", "february", "march", "april", "may", "june"]

  /** The sentinel that switches a filter off. */
  const All: string := "all"

  /** `xs.index(x)`: the position of the first occurrence of `x`, if there is one. */
  function IndexOf(xs: seq<string>, x: string): (r: Option<nat>)
    ensures r.Some? <==> x in xs
    ensures r.Some? ==> r.value < |xs| && xs[r.value] == x && x !in xs[..r.value]
  {
    if xs == [] then None
    else if xs[0] == x then Some(0)
    else
      match IndexOf(xs[1..], x)
      case None => None
      case Some(i) =>
        assert xs[..i + 1] == [xs[0]] + xs[1..][..i];
        Some(i + 1)
  }

  /** `months.index(month) + 1`, which raises ValueError for a name outside the list. */
  function MonthNumber(month: string): (r: Result<int>)
    ensures r.Ok? <==> month in MonthNames
    ensures r.Ok? ==> 1 <= r.value <= 6 && MonthNames[r.value - 1] == month
    ensures r.Err? ==> r.error == MonthNotInList
  {
    match IndexOf(MonthNames, month)
    case None => Err(MonthNotInList)
    case Some(i) => Ok(i + 1)
  }

  /** The two boolean masks of `load_data`: `df['month'] == month` and `df['day_of_week'] == day.title()`. */
  datatype Mask = MonthIs(month: int) | WeekdayIs(weekday: string)

  predicate Holds(m: Mask, trip: Trip)
  {
    match m
    case MonthIs(n) => trip.month == n
    case WeekdayIs(d) => trip.weekday == d
  }

  /** `df[mask]`: the rows the mask holds for, in their original order. */
  function Where(t: Table, m: Mask): (r: Table)
    ensures |r| <= |t|
    ensures forall i :: 0 <= i < |r| ==> Holds(m, r[i])
  {
    if t == [] then []
    else (if Holds(m, t[0]) then [t[0]] else []) + Where(t[1..], m)
  }

  /** `r` is `t` with some rows dropped and the rest kept in order. */
  predicate IsSubsequence(r: Table, t: Table)
    decreases |t|
  {
    if r == [] then true
    else if t == [] then false
    else (r[0] == t[0] && IsSubsequence(r[1..], t[1..])) || IsSubsequence(r, t[1..])
  }

  lemma {:induction false} SubsequenceTransitive(a: Table, b: Table, c: Table)
    requires IsSubsequence(a, b) && IsSubsequence(b, c)
    ensures IsSubsequence(a, c)
    decreases |c|
  {
    if a != [] {
      if IsSubsequence(b, c[1..]) {
        SubsequenceTransitive(a, b, c[1..]);
      } else if a[0] == b[0] && IsSubsequence(a[1..], b[1..]) {
        SubsequenceTransitive(a[1..], b[1..], c[1..]);
      } else {
        SubsequenceTransitive(a, b[1..], c[1..]);
      }
    }
  }

  lemma {:induction false} SubsequenceReflexive(t: Table)
    ensures IsSubsequence(t, t)
    decreases |t|
  {
    if t != [] {
      SubsequenceReflexive(t[1..]);
    }
  }

  /** A mask drops rows without reordering the rest. */
  lemma {:induction false} WhereIsSubsequence(t: Table, m: Mask)
    ensures IsSubsequence(Where(t, m), t)
  {
    if t != [] {
      WhereIsSubsequence(t[1..], m);
      var rest := Where(t[1..], m);
      if Holds(m, t[0]) {
        assert Where(t, m) == [t[0]] + rest;
        assert Where(t, m)[1..] == rest;
      } else {
        assert Where(t, m) == rest;
        if rest != [] {
          assert IsSubsequence(rest, t[1..]);
        }
      }
    }
  }

  /** A mask keeps every copy of each row it holds for, and no copy of any other row. */
  lemma {:induction false} WhereCounts(t: Table, m: Mask)
    ensures forall x :: multiset(Where(t, m))[x] == if Holds(m, x) then multiset(t)[x] else 0
  {
    if t != [] {
      WhereCounts(t[1..], m);
      assert t == [t[0]] + t[1..];
    }
  }

  /** A mask that holds for every row keeps the table as it is. */
  lemma {:induction false} WhereKeepsAll(t: Table, m: Mask)
    requires forall i :: 0 <= i < |t| ==> Holds(m, t[i])
    ensures Where(t, m) == t
  {
    if t != [] {
      WhereKeepsAll(t[1..], m);
    }
  }

  /** Applying the same mask twice keeps the same rows as applying it once. */
  lemma WhereIdempotent(t: Table, m: Mask)
    ensures Where(Where(t, m), m) == Where(t, m)
  {
    WhereKeepsAll(Where(t, m), m);
  }

  /** Two masks give the same rows in either order. */
  lemma {:induction false} WhereCommutes(t: Table, a: Mask, b: Mask)
    ensures Where(Where(t, a), b) == Where(Where(t, b), a)
  {
    if t != [] {
      WhereCommutes(t[1..], a, b);
      var x := t[0];
      assert Where(t, a) == (if Holds(a, x) then [x] else []) + Where(t[1..], a);
      assert Where(t, b) == (if Holds(b, x) then [x] else []) + Where(t[1..], b);
      WhereAppend((if Holds(a, x) then [x] else []), Where(t[1..], a), b);
      WhereAppend((if Holds(b, x) then [x] else []), Where(t[1..], b), a);
    }
  }

  lemma {:induction false} WhereAppend(t: Table, u: Table, m: Mask)
    ensures Where(t + u, m) == Where(t, m) + Where(u, m)
  {
    if t == [] {
      assert t + u == u;
    } else {
      var head := if Holds(m, t[0]) then [t[0]] else [];
      assert (t + u)[0] == t[0] && (t + u)[1..] == t[1..] + u;
      assert Where(t + u, m) == head + Where(t[1..] + u, m);
      WhereAppend(t[1..], u, m);
      assert Where(t, m) == head + Where(t[1..], m);
    }
  }

  /** The day step of `load_data`. */
  function DayStep(t: Table, day: string): Table
  {
    if day != All then Where(t, WeekdayIs(Text.Title(day))) else t
  }

  /** `load_data(city, month, day)` from line 59 on, with `df` given. */
  function Filtered(t: Table, month: string, day: string): (r: Result<Table>)
    ensures r.Ok? <==> month == All || month in MonthNames
    ensures r.Err? ==> r.error == MonthNotInList
  {
    if month != All then
      match MonthNumber(month)
      case Err(e) => Err(e)
      case Ok(n) => Ok(DayStep(Where(t, MonthIs(n)), day))
    else Ok(DayStep(t, day))
  }

  /** The row condition `load_data` applies, for a month name it can map. */
  predicate Selected(trip: Trip, month: string, day: string)
    requires month == All || month in MonthNames
  {
    && (month == All || trip.month == MonthNumber(month).value)
    && (day == All || trip.weekday == Text.Title(day))
  }

  /**
   * The result is exactly the rows that pass both filters: in their original order, every copy
   * of a selected row, and nothing else.
   */
  lemma FilteredExactly(t: Table, month: string, day: string)
    requires month == All || month in MonthNames
    ensures Filtered(t, month, day).Ok?
    ensures IsSubsequence(Filtered(t, month, day).value, t)
    ensures forall x :: multiset(Filtered(t, month, day).value)[x] ==
                          if Selected(x, month, day) then multiset(t)[x] else 0
  {
    var r := Filtered(t, month, day).value;
    var afterMonth := if month != All then Where(t, MonthIs(MonthNumber(month).value)) else t;
    assert r == DayStep(afterMonth, day);
    if month != All {
      WhereIsSubsequence(t, MonthIs(MonthNumber(month).value));
      WhereCounts(t, MonthIs(MonthNumber(month).value));
    } else {
      SubsequenceReflexive(t);
    }
    if day != All {
      WhereIsSubsequence(afterMonth, WeekdayIs(Text.Title(day)));
      WhereCounts(afterMonth, WeekdayIs(Text.Title(day)));
      SubsequenceTransitive(r, afterMonth, t);
    }
  }

  /** Filtering an already filtered table with the same choices changes nothing. */
  lemma FilteredIdempotent(t: Table, month: string, day: string)
    requires Filtered(t, month, day).Ok?
    ensures Filtered(Filtered(t, month, day).value, month, day) == Filtered(t, month, day)
  {
    var d := WeekdayIs(Text.Title(day));
    if month != All {
      var m := MonthIs(MonthNumber(month).value);
      if day != All {
        WhereCommutes(Where(t, m), d, m);
        WhereIdempotent(t, m);
        WhereIdempotent(Where(t, m), d);
        WhereCommutes(Where(Where(t, m), d), m, d);
        assert Where(Where(Where(Where(t, m), d), m), d) == Where(Where(t, m), d);
      } else {
        WhereIdempotent(t, m);
      }
    } else if day != All {
      WhereIdempotent(t, d);
    }
  }

  /** The month filter and the weekday filter can be applied in either order. */
  lemma FiltersCommute(t: Table, month: string, day: string)
    requires month in MonthNames && day != All
    ensures Filtered(t, month, day).value
         == Where(Where(t, WeekdayIs(Text.Title(day))), MonthIs(MonthNumber(month).value))
  {
    WhereCommutes(t, MonthIs(MonthNumber(month).value), WeekdayIs(Text.Title(day)));
  }

  /** `load_data` rebinding `df` step by step through the two filters. */
  method FilterTrips(t: Table, month: string, day: string) returns (r: Result<Table>)
    ensures r == Filtered(t, month, day)
    ensures r.Ok? <==> month == All || month in MonthNames
    ensures month == All && day == All ==> r == Ok(t)
  {
    var df := t;
    if month != All {
      var n := MonthNumber(month);
      if n.Err? {
        return Err(n.error);
      }
      df := Where(df, MonthIs(n.value));
    }
    if day != All {
      df := Where(df, WeekdayIs(Text.Title(day)));
    }
    r := Ok(df);
  }
}
