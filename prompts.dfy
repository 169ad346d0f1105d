/**
 * The answers `get_filters` accepts. Each prompt loop repeats until the lower-cased answer
 * is in a literal list; the loops themselves are console I/O and only the lists are modelled.
 */
module Prompts {
  import Text
  import Trips
  import Filters

  const CityChoices: seq<string> := ["chicago", "new york", "washington"]

  /** `CITY_DATA`: the data file of each city. */
  const CityData: map<string, string> :=
    map["chicago" := "chicago.csv", "new york" := "new_york_city.csv", "washington" := "washington.csv"]

  /** The month list as written, with 'February' capitalised and 'mai' for 'may'. */
  const MonthChoices: seq<string> := ["january", "February", "march", "april", "mai", "june", "all"]

  /** The day list as written, without the weekend. */
  const DayChoices: seq<string> := ["monday", "tuesday", "wednesday", "thursday", "friday", "all"]

  predicate CityAccepted(answer: string) { Text.Lower(answer) in CityChoices }

  predicate MonthAccepted(answer: string) { Text.Lower(answer) in MonthChoices }

  predicate DayAccepted(answer: string) { Text.Lower(answer) in DayChoices }

  /** An accepted city is exactly a city that has a data file, so loading it never fails on the name. */
  lemma AcceptedCityHasData(answer: string)
    ensures CityAccepted(answer) <==> Text.Lower(answer) in CityData
  {
  }

  /** The prompts ignore letter case: an answer is accepted exactly when its lower-case form is. */
  lemma PromptsIgnoreCase(answer: string)
    ensures CityAccepted(answer) <==> CityAccepted(Text.Lower(answer))
    ensures MonthAccepted(answer) <==> MonthAccepted(Text.Lower(answer))
    ensures DayAccepted(answer) <==> DayAccepted(Text.Lower(answer))
  {
    Text.LowerIdempotent(answer);
  }

  /** 'mai' passes the month prompt, and then `months.index` rejects it inside `load_data`. */
  lemma MaiAcceptedButUnmapped(t: Trips.Table, day: string)
    ensures MonthAccepted("mai")
    ensures Filters.Filtered(t, Text.Lower("mai"), day).Err?
  {
    Text.LowerOfLowercase("mai");
  }

  /** No answer reaches the capitalised 'February', and 'february' itself is refused. */
  lemma FebruaryNeverAccepted(answer: string)
    ensures Text.Lower(answer) != "February"
    ensures Text.Lower(answer) == "february" ==> !MonthAccepted(answer)
  {
    assert Text.IsUpper("February"[0]);
  }

  /** Saturday and Sunday are refused by the day prompt, in any letter case. */
  lemma WeekendRefused(answer: string)
    requires Text.Lower(answer) in ["saturday", "sunday"]
    ensures !DayAccepted(answer)
  {
  }

  /** Every accepted month answer other than 'mai' is one `load_data` can map. */
  lemma AcceptedMonthFilters(answer: string, t: Trips.Table, day: string)
    requires MonthAccepted(answer) && Text.Lower(answer) != "mai"
    ensures Filters.Filtered(t, Text.Lower(answer), day).Ok?
  {
    FebruaryNeverAccepted(answer);
  }

  /** `day.title()` of each lower-case day name is the weekday name the table stores. */
  lemma WeekdayTitles()
    ensures Text.Title("monday") == "Monday" && Text.Title("tuesday") == "Tuesday"
    ensures Text.Title("wednesday") == "Wednesday" && Text.Title("thursday") == "Thursday"
    ensures Text.Title("friday") == "Friday" && Text.Title("saturday") == "Saturday"
    ensures Text.Title("sunday") == "Sunday"
  {
    Text.TitleOfLowerWord("monday", "Monday");
    Text.TitleOfLowerWord("tuesday", "Tuesday");
    Text.TitleOfLowerWord("wednesday", "Wednesday");
    Text.TitleOfLowerWord("thursday", "Thursday");
    Text.TitleOfLowerWord("friday", "Friday");
    Text.TitleOfLowerWord("saturday", "Saturday");
    Text.TitleOfLowerWord("sunday", "Sunday");
  }

  /** An accepted day answer other than 'all' title-cases to a weekday name of the table. */
  lemma AcceptedDayIsWeekday(answer: string)
    requires DayAccepted(answer) && Text.Lower(answer) != "all"
    ensures Text.Title(Text.Lower(answer)) in Trips.WeekdayNames[..5]
  {
    WeekdayTitles();
    assert Trips.WeekdayNames[..5] == ["Monday", "Tuesday", "Wednesday", "Thursday", "Friday"];
  }

  /** The month list the prompt text and the month table call for. */
  const MonthChoicesIntended: seq<string> := Filters.MonthNames + ["all"]

  /** The day list the comment above the prompt calls for: all seven days. */
  const DayChoicesIntended: seq<string> :=
    ["monday", "tuesday", "wednesday", "thursday", "friday", "saturday", "sunday", "all"]

  predicate MonthAcceptedIntended(answer: string) { Text.Lower(answer) in MonthChoicesIntended }

  predicate DayAcceptedIntended(answer: string) { Text.Lower(answer) in DayChoicesIntended }

  /** With the intended list every accepted month answer is one `load_data` can map. */
  lemma IntendedMonthsFilter(answer: string, t: Trips.Table, day: string)
    requires MonthAcceptedIntended(answer)
    ensures Filters.Filtered(t, Text.Lower(answer), day).Ok?
  {
  }

  /** With the intended list every one of the six months can be chosen. */
  lemma IntendedMonthsReachable(month: string)
    requires month in Filters.MonthNames
    ensures MonthAcceptedIntended(month)
  {
    assert forall i :: 0 <= i < |month| ==> !Text.IsUpper(month[i]);
    Text.LowerOfLowercase(month);
  }

  /** With the intended list every accepted day answer other than 'all' title-cases to a weekday name. */
  lemma IntendedDaysAreWeekdays(answer: string)
    requires DayAcceptedIntended(answer) && Text.Lower(answer) != "all"
    ensures Text.Title(Text.Lower(answer)) in Trips.WeekdayNames
  {
    WeekdayTitles();
  }

  lemma IntendedDaysReachable(day: string)
    requires day in DayChoicesIntended
    ensures DayAcceptedIntended(day)
  {
    assert forall i :: 0 <= i < |day| ==> !Text.IsUpper(day[i]);
    Text.LowerOfLowercase(day);
  }
}
