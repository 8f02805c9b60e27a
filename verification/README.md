# Utilization tracker engine, in Dafny

A model of the calculation engine of the `utilization` block
(`blocks/utilization/utilization.js`). The block turns five labelled
paragraphs into a quarterly tracker: start date, end date, holiday dates,
year and quarter. It cuts the date range into weeks and gives each week
40 hours of capacity less 8 per holiday. A shared target percentage turns
that capacity into a target. The hours the user enters for a week give the
week's achievement percentage and its gap to target. A summary row adds
everything up, and a summary panel shows either the figures to date or the
overall ones.

The modules follow the engine's parts:

- `Text`: the string operations the block uses (`trim`, `startsWith`,
  `split`, ASCII case mapping, `parseInt(s, 10)` and integer rendering).
- `Fields`: the paragraph loop that extracts the five field values.
- `Validation`: the two early returns and the storage keys.
- `Calendar`: the week loop, on day numbers.
- `Capacity`: the holiday count and available hours.
- `Targets`: target hours, achievement, gap and the red/green flag.
- `Engine`: the tracker state, initialization and the two input events.
- `Summary`: the summary row, the to-date figures, the weeks left, the
  current week and the summary panel.
- `Scenarios`: worked examples on concrete periods and a complete block.

Days are whole numbers. Hours and percentages are reals. The browser's
storage is a map from key to the number stored under it. `Math.round` is
`floor(x + 0.5)`. `parseFloat(x) || fallback` is `Numbers.OrElse`: NaN and
0 both give the fallback.

The central invariant is `Engine.Persisted`: reloading the page from the
store, on the same day, reproduces the state exactly. Initialization
establishes it, and both input events preserve it.

Rules of the code that the model keeps, some of them easy to miss:

- A block whose holiday field is empty is rejected like a block missing any
  other field (`utilization.js:27`). A block with no holidays cannot be
  initialized.
- A week counts as over when its last day is before today. A week's end is
  its last millisecond, and it is compared with the current instant
  (`utilization.js:77`, `133`).
- The year is accepted whenever `parseInt` reads a number from it, such as
  `2024abc` or `-7`.
- A start date after the end date is not rejected. It gives no weeks
  (`Calendar.PartitionCount`).
- Holidays are counted as list entries, not as a set of days. A date listed
  twice costs 16 hours (`Capacity.HolidaysIn`).

One rule differs from the code on purpose. A week whose effective target is
0 gets an achievement of 0 (`Targets.AchievementPercent`), as the summary's
own ratio does. The code divides without a guard and shows `NaN` or
`Infinity` there. `Targets.AchievementAsWritten` models the division as
written, and "Findings" records the difference.

## Model

| member | source | states |
|---|---|---|
| Text.Trim | blocks/utilization/utilization.js:12 | the result is a contiguous slice of the input with only white space before and after it and none at either end; it is empty exactly when the input is all white space |
| Text.TrimUnique | blocks/utilization/utilization.js:12 | any slice of the input with only white space around it and none at its ends is the trimmed text, so the trim is determined by those properties |
| Text.Split | blocks/utilization/utilization.js:14 | at least one part, no part contains the separator, and two or more parts exactly when the separator occurs |
| Text.SplitJoin | blocks/utilization/utilization.js:34 | joining the parts of a split with the separator gives the string back |
| Text.JoinSplit | blocks/utilization/utilization.js:34 | splitting separator-free parts joined with the separator gives the parts back |
| Text.ParseInt | blocks/utilization/utilization.js:35 | `parseInt` is NaN exactly when no digit follows the leading white space and optional sign |
| Text.ParseIntOfRendering | blocks/utilization/utilization.js:35-45 | `parseInt` reads back the rendered year, whatever non-digit text follows it |
| Text.NatToStringValue | blocks/utilization/utilization.js:45 | the rendered digits of a number denote that number |
| Text.NatToStringInjective | blocks/utilization/utilization.js:45 | different numbers render differently |
| Fields.Classify | blocks/utilization/utilization.js:13-22 | a paragraph assigned to a field starts with that field's label, which contains the colon the value is split on |
| Fields.ClassifyByLabel | blocks/utilization/utilization.js:13-22 | a paragraph sets a field exactly when it starts with that field's label, so the order of the else-if chain is irrelevant |
| Fields.Value | blocks/utilization/utilization.js:14 | a field value has no colon and no white space at either end |
| Fields.Step | blocks/utilization/utilization.js:12-23 | a paragraph without a label leaves the fields unchanged; one with a label changes no other field; a field once set stays set |
| Fields.Extract | blocks/utilization/utilization.js:11-24 | every value the paragraph loop keeps has no colon and no white space at either end |
| Fields.LabelledParagraph | blocks/utilization/utilization.js:12-22 | a paragraph made of a field's label and colon-free text sets that field to the text, trimmed, and leaves the other fields as they were |
| Fields.LastMatchWins | blocks/utilization/utilization.js:11-24 | the last paragraph that carries a field's label decides that field's value |
| Fields.UnlabelledStaysEmpty | blocks/utilization/utilization.js:4-24 | a field no paragraph carries keeps its initial empty value |
| Validation.ParseQuarter | blocks/utilization/utilization.js:36-39 | the quarter is accepted exactly for a two-character `q` or `Q` followed by 1 to 4, and its stored name is the upper-cased text |
| Validation.Validate | blocks/utilization/utilization.js:26-42 | a missing-field error exactly when one of the five values is empty; an invalid year/quarter error exactly when all are present but no digit follows the year's leading white space and optional sign, or the quarter is not q1..q4; otherwise the parsed year and quarter and the three date texts |
| Validation.PrefixReadsYear | blocks/utilization/utilization.js:45 | `parseInt` reads the year back from the storage prefix `<year>-<QUARTER>` |
| Validation.TargetPercentKeyShape | blocks/utilization/utilization.js:48 | the target-percent key starts with the storage prefix, and what follows it does not start with `-week-` |
| Validation.WeekHoursKeyShape | blocks/utilization/utilization.js:92 | a week's hours key starts with the storage prefix followed by `-week-` |
| Validation.WeekHoursKeysDistinct | blocks/utilization/utilization.js:92 | two different weeks of one quarter have different hours keys |
| Validation.TargetKeyIsNotWeekKey | blocks/utilization/utilization.js:48-92 | the target-percent key is never a week's hours key |
| Validation.PrefixedKeysDetermine | blocks/utilization/utilization.js:45 | a key built on a storage prefix determines the year, the quarter and the rest of the key |
| Validation.WeekHoursKeysAcrossQuarters | blocks/utilization/utilization.js:45-92 | a week's hours key of one quarter is never the key of another week or another quarter |
| Numbers.Round | blocks/utilization/utilization.js:117 | `Math.round` gives the integer within half a unit, halves going up |
| Numbers.RoundMonotone | blocks/utilization/utilization.js:117-123 | rounding preserves order |
| Numbers.OrElse | blocks/utilization/utilization.js:48 | `parseFloat(x) \|\| fallback` is the parsed number when it is a number other than 0, and the fallback in every other case (NaN or 0); it is 0 only when the fallback is |
| Calendar.WindowsShape | blocks/utilization/utilization.js:71-113 | the week loop from a cursor emits one window per seven days up to the end day, rounded up; window k carries the starting number plus k and runs from cursor + 7k to cursor + 7k + 6, clipped to the end day |
| Calendar.PartitionCount | blocks/utilization/utilization.js:71 | no weeks for a start after the end; otherwise the fewest seven-day weeks that cover the range |
| Calendar.PartitionContiguous | blocks/utilization/utilization.js:71-82 | no window is empty, each window ends the day before the next begins, the first starts on the start day and the last ends on the end day |
| Calendar.PartitionCovers | blocks/utilization/utilization.js:71-87 | a day lies in some week exactly when it lies between the start and end days, and then it lies in week (day - start) / 7 + 1 |
| Calendar.PartitionDisjoint | blocks/utilization/utilization.js:71-87 | no day lies in two weeks |
| Calendar.LastWeekLength | blocks/utilization/utilization.js:79-82 | every week but the last has seven days; the last has the remainder of the range's length modulo seven, or seven |
| Capacity.HolidaysIn | blocks/utilization/utilization.js:89 | the count is the number of positions of the holiday list whose entry is a parsed day in the range, so duplicates count twice and unparsed entries never; it is at most the list's length and 0 for an empty range |
| Capacity.AvailableHours | blocks/utilization/utilization.js:89-90 | a week's capacity is at most 40 and a multiple of 8, and it is exactly 40 when no holiday entry is a day of the week |
| Capacity.HolidaysAllInside | blocks/utilization/utilization.js:89 | when every entry lies in the range, every entry is counted |
| Capacity.HolidaysInSplit | blocks/utilization/utilization.js:89 | the count over two adjacent ranges is the count over their union |
| Capacity.AvailableHoursWithHoliday | blocks/utilization/utilization.js:89-90 | one more holiday entry costs a week exactly 8 hours if it falls inside the week and nothing otherwise |
| Capacity.WindowsCapacity | blocks/utilization/utilization.js:71-90 | the weeks' available hours add up to 40 per week less 8 per holiday entry between the start and end days |
| Targets.TargetHours | blocks/utilization/utilization.js:116-118 | the target is the integer nearest to available hours times percent / 100 |
| Targets.TargetHoursMonotone | blocks/utilization/utilization.js:116-118 | for a non-negative percentage, more capacity never lowers the target |
| Targets.AchievementAsWritten | blocks/utilization/utilization.js:121-124 | for a non-zero effective target, the achievement is the integer nearest to hours over effective target times 100 |
| Targets.AchievementPercent | blocks/utilization/utilization.js:121-124 | 0 when the effective target is 0, and the code's figure otherwise |
| Targets.EffectiveTargetVanishes | blocks/utilization/utilization.js:122 | with a non-zero percentage, the effective target is 0 exactly for a week with no available hours |
| Targets.AchievementOnTarget | blocks/utilization/utilization.js:121-124 | hours equal to the effective target give 100 |
| Targets.AchievementMonotone | blocks/utilization/utilization.js:121-124 | for a positive effective target, more hours never lower the achievement |
| Targets.FlagMeaning | blocks/utilization/utilization.js:359-366 | a week's achievement cell is red exactly when fewer hours than its target were entered, and green when the target is met exactly |
| Engine.PeriodWindowsShape | blocks/utilization/utilization.js:71 | when either date did not parse there are no weeks; otherwise the week count is the range's, numbered from 1 |
| Engine.MakeWeek | blocks/utilization/utilization.js:84-110 | the week carries its window's number and days, is current exactly when today lies in the window, has 40 hours less 8 per holiday entry in the window, holds the given hours and percentage, and its target, achievement and gap agree with them |
| Engine.Load | blocks/utilization/utilization.js:47-113 | the state keeps the period, store and day; the percentage is the stored one when that is a number other than 0, otherwise 87, so never 0; there is one week per window, and week k shows window k, is numbered k + 1, holds the hours stored under its number, shares the percentage and has consistent figures |
| Engine.HolidayDays | blocks/utilization/utilization.js:34 | one holiday entry per comma-separated piece of the field, entry k being the date parser's reading of piece k, trimmed |
| Engine.Init | blocks/utilization/utilization.js:1-113 | initialization fails exactly when validation does, with the same error; on success the state is persisted (its weeks and percentage are what `Engine.Load` reads back), keyed by the year and quarter, its start and end days are the parsed Start/End dates, its holidays are the parsed Holiday-dates list, and it has as many weeks as the parsed range |
| Engine.Retarget | blocks/utilization/utilization.js:295-299 | a week given a new percentage keeps its number, days, current flag, capacity and hours, takes the percentage, and its target, achievement and gap agree with it |
| Engine.SetTargetPercent | blocks/utilization/utilization.js:292-305 | the new percentage is the input when that is a number other than 0, otherwise 87; it is written to the store under the target key and nothing else is written; every week takes it and stays consistent; hours, capacity, days and the current flag are unchanged |
| Engine.SetWeekHours | blocks/utilization/utilization.js:349-357 | the week takes the non-zero input or 0 as hours and writes it to its own key; its target is kept; it stays consistent; no other week changes |
| Engine.SetTargetPercentIdempotent | blocks/utilization/utilization.js:292-305 | entering the same percentage twice is the same as entering it once |
| Engine.SetWeekHoursIdempotent | blocks/utilization/utilization.js:349-357 | entering the same hours twice is the same as entering them once |
| Engine.EditsCommute | blocks/utilization/utilization.js:292-357 | a new percentage and new hours for a week give the same state in either order |
| Engine.LoadedWeekKeys | blocks/utilization/utilization.js:92 | loaded weeks read their hours from pairwise different keys |
| Engine.SetTargetPercentPersists | blocks/utilization/utilization.js:292-305 | after a new percentage, reloading from the store reproduces the state |
| Engine.SetWeekHoursPersists | blocks/utilization/utilization.js:349-353 | after new hours for a week, reloading from the store reproduces the state |
| Engine.FullHolidayWeek | blocks/utilization/utilization.js:89-124 | a week with five holiday entries has no capacity and an effective target of 0 |
| Summary.TallyTotals | blocks/utilization/utilization.js:176-189 | the summary row counts every week, and its gap is its hours less its targets |
| Summary.OverallSummary | blocks/utilization/utilization.js:170-194 | the summary row's totals are the weeks' sums (`Summary.Tally`): it counts every week, and its gap is its hours less its targets; its achievement is 0 when the summed target is not positive, otherwise the integer nearest to hours over targets times 100 |
| Summary.Ratio | blocks/utilization/utilization.js:192-194 | 0 unless the summed target is positive, otherwise the integer nearest to hours over targets times 100 |
| Summary.ElapsedUpcomingMembers | blocks/utilization/utilization.js:132-226 | a week is counted to date exactly when its last day is before today, and as left exactly when its last day is today or later |
| Summary.WeeksLeft | blocks/utilization/utilization.js:226 | the weeks left are the weeks that are not over |
| Summary.ToDateSummary | blocks/utilization/utilization.js:127-148 | over the weeks already over: an achievement of 0 when their summed target is not positive, otherwise the integer nearest to their hours over their targets times 100; with consistent weeks, a gap of their hours less their targets |
| Summary.ElapsedUpcomingSplit | blocks/utilization/utilization.js:132-226 | the weeks to date and the weeks left split the summary row's sums and the week count |
| Summary.GapSumOfConsistent | blocks/utilization/utilization.js:136 | adding the weeks' own gaps gives their hours less their targets |
| Summary.CurrentWeekNumber | blocks/utilization/utilization.js:259-260 | the number of the first current week, or the week count when no week is current |
| Summary.AtMostOneCurrent | blocks/utilization/utilization.js:84-87 | no two weeks are current at once |
| Summary.CurrentWeekOfPeriod | blocks/utilization/utilization.js:84-260 | some week is current exactly when today lies in the period, and then the current week number is (today - start) / 7 + 1; otherwise it falls back to the week count |
| Summary.ElapsedIsPrefix | blocks/utilization/utilization.js:132-226 | when the weeks over come first, they are a prefix and the weeks left are the rest |
| Summary.ToDateStopsAtCurrentWeek | blocks/utilization/utilization.js:127-260 | while week c + 1 is current, the weeks to date are the c before it, n - c weeks are left, and the current week number is c + 1 |
| Summary.SummaryCapacity | blocks/utilization/utilization.js:181-188 | the summary row's available hours are 40 per week less 8 per holiday entry in the period |
| Summary.SummaryPanel | blocks/utilization/utilization.js:232-255 | the panel shows to-date figures exactly when some week is current, computed over the weeks already over; otherwise it shows the summary row's achievement and gap; the weeks left and the weeks over add up to the week count |
| Summary.PersistedLaidOut | blocks/utilization/utilization.js:71-113 | in a persisted state with both dates parsed, week k is numbered k + 1, runs from start + 7k to start + 7k + 6 clipped to the end day, is current exactly when today lies in it, and has consistent figures |
| Summary.PanelOfPersisted | blocks/utilization/utilization.js:226-255 | in a persisted state, the panel shows to-date figures exactly when today lies in the period; these are the achievement and gap of the first (today - start) / 7 weeks, with the rest left; otherwise it shows the summary row's figures, with all weeks left before the period and none after it |
| Scenarios.ThreeFullWeeks | blocks/utilization/utilization.js:71-124 | three weeks without holidays at 100% have 40 available and 40 target hours each; 35 hours in week 1 give 88% and a gap of -5, flagged red |
| Scenarios.HolidayInFirstWeek | blocks/utilization/utilization.js:48-118 | a holiday on the third day leaves week 1 with 32 hours and a target of 28 at the default 87% |
| Scenarios.FiveDayPeriod | blocks/utilization/utilization.js:71-82 | five days make one week that ends on the end day |
| Scenarios.BlockFields | blocks/utilization/utilization.js:11-24 | a block with one `Label value` paragraph per field yields exactly those values |
| Scenarios.WellFormedBlock | blocks/utilization/utilization.js:1-53 | such a block initializes, keyed `<year>-Q3`, and passes the start and end texts to the date parser as typed |

## Left out

- Rendering: the table, the summary row cells, the panel markup, the details box and the holiday list are DOM output. The model computes the figures they display and stops there.
- `formatDate` and `formatToDate` (`utilization.js:56-69`) only format dates for display.
- Event wiring: the two input events are the functions `Engine.SetTargetPercent` and `Engine.SetWeekHours`. The listener plumbing and `updateCell` are not modelled.
- The summary row reads its figures back from the table cells. The model takes them from the weeks it displays. `document.querySelectorAll('tbody tr')` is page-wide, and a page with two such blocks is not modelled.
- The average achievement loop and the total gap loop (`utilization.js:209-223`) compute values that are never displayed.
- Date parsing (`new Date(text)`, time zones, daylight saving) is the parameter `parseDay` of `Engine.Init`. It maps a date text to a day number, or to nothing for an Invalid Date. Day arithmetic is on those numbers.
- Calendar.PartitionCovers: holds for the day numbers the date parser returns, not for the code's millisecond times. A date-only text such as `2024-12-31` is read as midnight UTC while the week loop steps in local time. West of UTC, or across a daylight-saving change, the weeks can be shifted by a day against the typed dates and the last day can fall outside every week (2024-10-01 to 2024-12-31 in America/New_York). The model assumes the parser returns aligned local days.
- Engine.MakeWeek: a week with no effective target gets an achievement of 0, where the code shows `NaN` or `Infinity` (see "Findings"). The division as written is `Targets.AchievementAsWritten`.
- The clock is the parameter `today`, one day for the whole rendering. The code reads `new Date()` again for every week. A render that crosses midnight is not modelled.
- The millisecond at which a week's end equals the current instant is not modelled. The to-date and weeks-left tests use whole days.
- `parseFloat` is abstract: an input or stored value is a real or NaN. A stored value always arrives as a number written by the code itself.
- IEEE floating point: sums, products and divisions are exact reals. Rounding error, Infinity and exponent notation are not modelled.
- Text.ToLower: models ASCII letters only. No other character lower-cases to `q` or to a digit, so the quarter test accepts the same texts.
- Text.ParseInt: its contract states when the result is NaN. Its value is stated by `Text.ParseIntOfRendering` for the rendered numbers that keys use. Loss of precision beyond 2^53 and the exponent rendering of a huge year are not modelled.

## Findings

| source | as written | input that shows it | evidently intended | confidence | as-written member | corrected member |
|---|---|---|---|---|---|---|
| blocks/utilization/utilization.js:121-124 | the achievement divides the hours by `available * percent / 100` with no guard | a week holding five holiday entries: 0 available hours, so the division is 0/0 (NaN) or h/0 (Infinity) and the cell shows `NaN` or `Infinity` | an achievement of 0 for a week with no effective target, as the summary's own ratio does at lines 192-194 | high (not executed) | Targets.AchievementAsWritten, Engine.FullHolidayWeek | Targets.AchievementPercent |
