# US bikeshare explorer, modelled in Dafny

`bikeshare.py` is a console tool. It asks for a city, a month and a day of the week. It loads
that city's trips and narrows them to the chosen month and day. It then reports:

- the most common travel times;
- the most popular stations and route;
- the total and mean trip duration;
- user statistics.

It can also page through the raw rows, five at a time, for as long as the user keeps saying yes.

The model covers everything from the point where a table of trips exists:

- **Prompts** (`prompts.dfy`): which answers each prompt of `get_filters` accepts.
- **Filters** (`filters.dfy`): the month and weekday filtering of `load_data`. It is a
  specification function `Filtered` plus a method `FilterTrips` that rebinds the table step by
  step, as the source does.
- **Frequency** (`frequency.dfy`): the pandas reductions the reports use. `mode()[0]` is the
  most common value; among equally common values it is the smallest, because pandas returns
  the modes sorted. `value_counts()`, `min()` and `max()` are also here.
- **Reports** (`reports.dfy`): the four statistics reports, as values rather than printed text.
- **Paging** (`paging.dfy`): the `display_data` loop, as a method over the list of answers the
  user gives.
- **Supporting modules**:
  - `trips.dfy` holds the trip record and its columns.
  - `text.dfy` holds ASCII `lower()`/`title()` and Python's string order.
  - `outcomes.dfy` holds `Option` and `Result`. Each Python exception the code can raise
    becomes an `Err` value.

Where the code behaves in ways one might not expect, the model follows the code:

- **Empty table.** `mode()[0]` on an empty column raises, and `int()` of an empty birth-year
  column raises. They do not return a "no data" value. So `TimeStats`, `StationStats` and
  `UserStats` return `Err(...)` there.
- **Two reports as written.** `StationStats` reports the route that `DataFrame.mode()` gives,
  the popular start paired with the popular end. `UserStats` fails when several birth years tie
  for the highest count. Corrected reports, `StationStatsIntended` and `UserStatsIntended`, sit beside
  them (see "## Findings").
- **The mean of an empty table** is pandas' NaN. The model writes it as `None`.
- **Which city has no demographics** is decided by comparing the city's name with
  `"washington"`.
- **time_stats** is called on the unfiltered city table at `bikeshare.py:174`. `TimeStats` takes
  whatever table it is given.

## Model

| member | source | states |
|---|---|---|
| Text.Lower | bikeshare.py:20 | `lower()` keeps the length, turns each upper-case letter into its own lower-case letter and changes no other character |
| Text.CaseRoundTrip | bikeshare.py:20 | lower-casing an upper-case letter and upper-casing it again gives the letter back, and conversely |
| Text.LowerIdempotent | bikeshare.py:20-32 | lower-casing an already lower-cased answer changes nothing |
| Text.LowerOfLowercase | bikeshare.py:20-32 | a string without upper-case letters is its own `lower()` |
| Text.TitleAt | bikeshare.py:71 | one character of `title()`: a non-letter is unchanged; a letter keeps its identity and is upper-case exactly when it starts a word |
| Text.Title | bikeshare.py:71 | `title()` keeps every non-letter, keeps each letter's identity, and upper-cases exactly the letters that start a word |
| Text.TitleOfLowerWord | bikeshare.py:71 | `title()` of a lower-case word is the word with only its first letter upper-cased |
| Trips.Months | bikeshare.py:56 | the month column has one entry per trip, the trip's month |
| Trips.Weekdays | bikeshare.py:57 | the weekday column has one entry per trip, the trip's weekday name |
| Trips.Hours | bikeshare.py:91 | the hour column has one entry per trip, the trip's start hour |
| Trips.StartStations | bikeshare.py:106 | one start station per trip, in table order |
| Trips.EndStations | bikeshare.py:109 | one end station per trip, in table order |
| Trips.Routes | bikeshare.py:112 | one (start, end) pair per trip, in table order |
| Trips.UserTypes | bikeshare.py:148 | one user type per trip, in table order |
| Trips.GenderColumn | bikeshare.py:150 | the stored gender column has one entry per trip, missing where the trip has none |
| Trips.BirthYearColumn | bikeshare.py:153 | the stored birth-year column has one entry per trip, missing where the trip has none |
| Trips.SomesCounted | bikeshare.py:150-155 | dropping the missing entries keeps each present value exactly as often as it occurs |
| Trips.Genders | bikeshare.py:150 | each gender occurs exactly as often as trips carry it; trips without one are skipped |
| Trips.BirthYears | bikeshare.py:153-155 | each birth year occurs exactly as often as trips carry it; missing years are skipped |
| Frequency.ModeFrom | bikeshare.py:84 | the scan that picks a mode returns a value occurring most often, the smallest such |
| Frequency.Mode | bikeshare.py:84 | `mode()[0]` succeeds exactly on a non-empty column and returns its most common value, ties going to the smallest; an empty column is an error |
| Frequency.ModeUnique | bikeshare.py:84 | under a strict total order there is only one such value, so the report is determined by the table |
| Frequency.IntLessIsOrder | bikeshare.py:84 | numeric order, used to sort modes, is a strict total order |
| Frequency.StringLessIsOrder | bikeshare.py:88 | Python's string order, used to sort modes, is a strict total order |
| Frequency.PairLessIsOrder | bikeshare.py:112 | the lexicographic order on station pairs is a strict total order |
| Frequency.ValueCounts | bikeshare.py:148 | `value_counts()` lists every distinct value once, with its exact number of occurrences, in non-increasing order of count |
| Frequency.ValueCountsTotal | bikeshare.py:148-150 | the counts of `value_counts()` add up to the length of the column |
| Frequency.Min | bikeshare.py:153 | `min()` is a value of the column no larger than any other |
| Frequency.Max | bikeshare.py:154 | `max()` is a value of the column no smaller than any other |
| Frequency.BetweenMinAndMax | bikeshare.py:153-155 | every value of the column lies between `min()` and `max()` |
| Filters.IndexOf | bikeshare.py:63 | `list.index` finds the first position of a name and fails exactly when the name is absent |
| Filters.MonthNumber | bikeshare.py:60-63 | a month name maps to 1..6 exactly when it is in the month list, to its position plus one; otherwise ValueError |
| Filters.Where | bikeshare.py:66 | a boolean mask keeps only rows it holds for and never adds rows |
| Filters.WhereIsSubsequence | bikeshare.py:66 | a mask keeps the surviving rows in their original order |
| Filters.WhereCounts | bikeshare.py:66 | a mask keeps every copy of each matching row and drops every other row |
| Filters.WhereKeepsAll | bikeshare.py:66 | a mask that holds for every row returns the table unchanged |
| Filters.WhereIdempotent | bikeshare.py:66 | applying the same mask twice is applying it once |
| Filters.WhereCommutes | bikeshare.py:66-71 | two masks can be applied in either order |
| Filters.WhereAppend | bikeshare.py:66 | masking a concatenation masks each part |
| Filters.Filtered | bikeshare.py:59-73 | filtering succeeds exactly when the month is "all" or in the month list; otherwise it fails with ValueError |
| Filters.FilteredExactly | bikeshare.py:59-73 | the filtered table holds exactly the rows with the chosen month and title-cased weekday, every copy of each, in original order |
| Filters.FilteredIdempotent | bikeshare.py:59-73 | filtering a filtered table with the same choices changes nothing |
| Filters.FiltersCommute | bikeshare.py:65-71 | filtering by weekday first and month second gives the same table |
| Filters.FilterTrips | bikeshare.py:59-73 | rebinding `df` through the two filters computes `Filtered`; with "all" and "all" the table is unchanged |
| Prompts.CityAccepted | bikeshare.py:20-22 | the city prompt accepts an answer whose lower-case form is chicago, new york or washington |
| Prompts.MonthAccepted | bikeshare.py:25-27 | the month prompt accepts an answer whose lower-case form is in the list as written |
| Prompts.DayAccepted | bikeshare.py:30-32 | the day prompt accepts an answer whose lower-case form is in the list as written |
| Prompts.AcceptedCityHasData | bikeshare.py:5-7 | a city answer is accepted exactly when its lower-case form has a data file in `CITY_DATA` |
| Prompts.PromptsIgnoreCase | bikeshare.py:20-32 | each prompt accepts an answer exactly when it accepts the answer's lower-case form |
| Prompts.MaiAcceptedButUnmapped | bikeshare.py:26 | the month prompt accepts 'mai', and the month lookup then rejects it |
| Prompts.FebruaryNeverAccepted | bikeshare.py:26 | no lower-cased answer equals 'February', and 'february' is refused |
| Prompts.WeekendRefused | bikeshare.py:31 | 'saturday' and 'sunday', in any letter case, are refused by the day prompt |
| Prompts.AcceptedMonthFilters | bikeshare.py:25-27 | every accepted month answer except 'mai' can be filtered on |
| Prompts.WeekdayTitles | bikeshare.py:71 | `title()` turns each lower-case day name into the weekday name the table stores |
| Prompts.AcceptedDayIsWeekday | bikeshare.py:30-31 | every accepted day other than 'all' title-cases to one of Monday..Friday |
| Prompts.IntendedMonthsFilter | bikeshare.py:24-27 | with the six months of the lookup table as the list, every accepted month can be filtered on |
| Prompts.IntendedMonthsReachable | bikeshare.py:24-27 | with that list, each of the six months can be chosen |
| Prompts.IntendedDaysAreWeekdays | bikeshare.py:29-31 | with all seven days in the list, every accepted day title-cases to a weekday name |
| Prompts.IntendedDaysReachable | bikeshare.py:29-31 | with that list, each of the seven days and 'all' can be chosen |
| Reports.TimeStats | bikeshare.py:82-91 | the report exists exactly for a non-empty table and gives the most common month, weekday and hour |
| Reports.PopularTimesInRange | bikeshare.py:82-91 | the popular month, hour and weekday are values some trip has, so they are in range |
| Reports.PopularRoute | bikeshare.py:111-112 | the most frequent (start, end) pair is one that some trip actually made |
| Reports.ColumnwiseModes | bikeshare.py:112 | as written, `DataFrame.mode()` gives the popular start and the popular end, each taken on its own |
| Reports.StationStats | bikeshare.py:105-112 | as written: the report exists exactly for a non-empty table; start and end are the most common ones, and the route's two halves are the column-wise modes |
| Reports.ColumnwiseRouteIsStartEnd | bikeshare.py:106-112 | as written, the reported route is always the popular start paired with the popular end |
| Reports.StationStatsIntended | bikeshare.py:105-112 | corrected: the route is the most frequent (start, end) pair, one that some trip made |
| Reports.CrossedStartMode | bikeshare.py:106 | in the crossed example the popular start station is A |
| Reports.CrossedEndMode | bikeshare.py:109 | in the crossed example the popular end station is Z |
| Reports.CrossedRoutes | bikeshare.py:112 | the routes of the crossed example are A→X, A→Y, B→Z and C→Z |
| Reports.CrossedRouteMode | bikeshare.py:112 | in the crossed example the most frequent route is A→X, and no trip goes A→Z |
| Reports.ColumnwiseModesNeedNotBeATrip | bikeshare.py:112 | the column-wise answer (A, Z) is no trip of the table, and the most frequent route differs from it |
| Reports.CrossedStationReports | bikeshare.py:112 | on the crossed example the report as written names route A→Z, which no trip made; the corrected report names A→X |
| Reports.PopularStartExample | bikeshare.py:106 | starts A, A, B give popular start A |
| Reports.TotalDuration | bikeshare.py:128 | `sum()` of the durations is 0 on an empty table and at least every single duration |
| Reports.DurationStats | bikeshare.py:127-131 | the total is the sum of durations; the mean exists exactly for a non-empty table and times the row count gives the total |
| Reports.TotalDurationAppend | bikeshare.py:128 | the total of two tables joined is the sum of their totals |
| Reports.FilteredTotalAtMost | bikeshare.py:66-71 | a filter never increases the total duration |
| Reports.TotalBetweenBounds | bikeshare.py:128 | with every duration between lo and hi, the total is between n·lo and n·hi |
| Reports.MeanBetweenBounds | bikeshare.py:131 | the mean lies between the shortest and the longest trip |
| Reports.DurationExample | bikeshare.py:127-131 | trips of 100 and 300 seconds give total 400 and mean 200 |
| Reports.BirthYearModeAsWritten | bikeshare.py:155 | as written, the birth-year mode succeeds exactly when the column is non-empty and has a single most common year |
| Reports.BirthYearMode | bikeshare.py:155 | the corrected birth-year mode succeeds on every non-empty column with the most common year, the earliest among ties |
| Reports.BirthYearTieFails | bikeshare.py:155 | birth years 1980 and 1990 make the code as written fail; the corrected mode gives 1980 |
| Reports.UserStats | bikeshare.py:139-157 | as written: washington reports no demographics; elsewhere the report exists exactly when the birth years have one most common value; it fails with ValueError when no year is present and TypeError on a tie |
| Reports.UserStatsIntended | bikeshare.py:139-157 | corrected: elsewhere than washington the report exists exactly when some birth year is present |
| Reports.UserStatsAgree | bikeshare.py:155 | wherever the report as written succeeds, it equals the corrected report, so everything `DemographicsFacts` states holds for it too |
| Reports.UserStatsTieFails | bikeshare.py:155 | two trips born in 1980 and 1990: the report as written fails, the corrected one gives 1980 |
| Reports.DemographicsFacts | bikeshare.py:147-155 | in the corrected report: user-type and gender counts are the exact number of trips carrying each value, list each value once, are non-increasing and sum to the trips (with a gender); the earliest and latest years bound every birth year of the table, and the most common one is its mode |
| Paging.IsYes | bikeshare.py:164 | an answer continues the paging when its lower-case form is yes, y, yep or yea |
| Paging.YesIgnoresCase | bikeshare.py:163-167 | the paging prompt accepts an answer exactly when it accepts its lower-case form |
| Paging.LeadingYesMeaning | bikeshare.py:163-167 | the number of pages the user asks for is the number of answers before the first one that is not yes |
| Paging.YesAt | bikeshare.py:164 | the k-th answer continues the paging exactly while k is below that number |
| Paging.PageLimit | bikeshare.py:164 | the guard `index + 5 < n` admits a number of pages whose rows stop short of the last row |
| Paging.Page | bikeshare.py:165 | a page is a slice of one to five consecutive rows |
| Paging.ConcatOfPages | bikeshare.py:165 | the pages shown, one after the other, are the first rows of the table, with no gap or repeat |
| Paging.DisplayData | bikeshare.py:161-167 | as written: shows as many full pages of 5 as the user asks for and the guard allows, always leaving the last row unshown, and the pages are the table's leading rows in order |
| Paging.PageCount | bikeshare.py:164 | a table of n rows has the smallest number of five-row pages that covers it |
| Paging.DisplayAllData | bikeshare.py:161-167 | with the guard `index < n`: the pages are the table's leading rows in order, and a user who keeps saying yes sees the whole table |
| Paging.LastPageNeverShown | bikeshare.py:164 | as written the last row is never shown; with the corrected guard it is, to a user who keeps saying yes |
| Paging.FiveRowsExample | bikeshare.py:164 | a table of five rows shows nothing as written and one page when corrected |

## Left out

- Console input and output: the prompt loops of `get_filters`, every `print` and `input`, and the timing with `time.time()`. The prompts are modelled by the answers they accept. The answers to the paging prompt are a parameter.
- Reading the CSV files (`CITY_DATA`, `pd.read_csv`, lines 5-7 and 50): a table of trips is the model's input. The loader's failures are not modelled.
- Parsing `Start Time` (`pd.to_datetime`, `.dt.month`, `.dt.weekday_name`, `.dt.hour`): each trip already carries its month, weekday name and hour.
- `time_stats` overwrites `Start Time` and `day_of_week` in the table it is given (lines 83 and 87). These columns are derived again from the same times, so the report does not change. The write-back itself is not modelled.
- `main` (lines 169-181): the restart loop and the order of the calls. Line 177 ends in a stray `wa`, so the file as written does not even parse. The model describes each function as if that line were `user_stats(df, city)`.
- Text.Lower: only ASCII letters are case-mapped. Python's `lower()` and `title()` also map other Unicode letters.
- Text.Title: only ASCII letters count as cased. Python's `title()` starts a new word after any uncased character.
- Frequency.ValueCounts: the contract does not state the order among values with equal counts. pandas does not promise one either.
- Reports.DurationStats: durations are whole seconds and the mean is exact. pandas computes the mean in 64-bit floating point.
- Reports.StationStats: `DataFrame.mode()` returns every mode of each column, one per row, padded with NaN. The source prints that whole frame; the route field is its first row only.
- Reports.UserStats: a city other than washington whose file lacks a `Gender` or `Birth Year` column would raise `KeyError` in the source. The model has those fields per trip and treats a missing value as absent.

## Findings

| source | as written | input that shows it | evidently intended | confidence | as-written member | corrected member |
|---|---|---|---|---|---|---|
| bikeshare.py:26 | the month list holds 'February' capitalised and 'mai' where 'may' belongs | answer "february" is refused; answer "mai" is accepted and `months.index` then raises ValueError | the six names of the lookup table at line 62 plus 'all' | not executed | Prompts.MaiAcceptedButUnmapped | Prompts.IntendedMonthsFilter |
| bikeshare.py:31 | the accepted days stop at friday | answer "saturday" is refused | all seven days plus 'all', as the comment at line 29 says | not executed | Prompts.WeekendRefused | Prompts.IntendedDaysReachable |
| bikeshare.py:112 | `DataFrame.mode()` takes the mode of each column on its own | trips A→X, A→Y, B→Z, C→Z: the answer is (A, Z), which no trip made | the most frequent (start, end) pair | not executed | Reports.CrossedStationReports | Reports.StationStatsIntended |
| bikeshare.py:155 | `int()` of the whole `mode()` Series, which fails when several years tie for the highest count | birth years 1980 and 1990 | the most common year, the earliest among ties | not executed | Reports.UserStatsTieFails | Reports.UserStatsIntended |
| bikeshare.py:164 | the loop runs while `index + 5 < n` | a table of five rows and the answer "yes": nothing is shown | the loop runs while `index < n`, so the last page, short or full, is shown | not executed | Paging.FiveRowsExample | Paging.DisplayAllData |
