# Net-worth tracker: a Dafny model of the snapshot store and the dashboard

The tracker keeps a series of monthly snapshots. Each snapshot has a `DD/MM/YY` date label and two buckets,
`assets` and `liabilities`, which map category names to amounts. An Express server keeps the series in memory
and changes it through five handlers. A React dashboard shows the series and derives figures and charts from it.

This project models three parts of that system:

- **The server's store** (`server.js`), in `server.dfy` and `calendar.dfy`:
  - loading the baseline, and the two-month default seed;
  - the point update (`PUT /api/data/entry`);
  - adding and removing a category in every month;
  - appending a month, with its Date arithmetic and `parseInt` reading of the label;
  - resetting to the baseline.

  The store is a class, `Server.SnapshotStore`. Its methods change the series in place, each proved equal to a
  function of the old series. Lemmas about those functions state what each handler promises.
- **The dashboard's state** (`App.tsx`), in `client.dfy`:
  - loading the series;
  - the optimistic single-cell edit and its rollback when the save fails;
  - the guards in front of the add-category and add-month requests.

  The state is a class, `Client.Dashboard`. Each handler is split at its `await` into the part before the
  request and a continuation that receives the reply.
- **The derived views**:
  - the metrics pass `processedData` (`metrics.dfy`), a loop proved against a recursive specification;
  - the sorted category lists (`categories.dfy`);
  - the summary cards with their change classification (`summary.dfy`);
  - the allocation and asset-composition chart data (`views.dfy`).

`records.dfy` holds the shared record shape. A plain JavaScript object is a list of entries with distinct keys, in
enumeration order:
- assigning a property keeps an existing key in place and appends a new one;
- `delete` removes a key;
- an absent bucket is `None`.

Amounts are mathematical reals.

The append-month handler was written to produce the last day of the next month. Its code does not always do that.
For `31/01/24`, `setMonth` lets 31 February overflow into March, so the appended label is `31/03/24`, not
`29/02/24`. The model follows the code (`Calendar.JanuaryEndSkipsFebruary`, `Calendar.MarchEndSkipsApril`).
`Calendar.AppendedMonthEnd` states in general which date the code produces.

A JavaScript Date holds only the days within 100,000,000 days of 1 January 1970, which is section 21.4.1.1 of
ECMA-262. A Date step that leaves that range gives an Invalid Date, and an Invalid Date prints as `NaN/NaN/aN`. The
model keeps that range (`Calendar.TimeClip`), so `01/01/300000` also gives `NaN/NaN/aN`
(`Calendar.YearBeyondDateRange`). Node's engine, V8, also refuses a year argument beyond 1,000,000 either way and a
month argument beyond 10,000,000 either way, before it looks at the day. The model keeps those limits too
(`Calendar.NewDate`, `Calendar.SetMonth`), so `-300000000/01/999000` gives `NaN/NaN/aN` although its huge negative
day would bring the year 1,001,000 back into the range (`Calendar.HugeYearLabel`).

`NaN/NaN/aN` is followed by `NaN/NaN/aN` again (`Calendar.InvalidLabelRepeats`). After such a month every appended
month repeats the label (`Server.AppendAfterInvalidRepeatsDate`), and the point update then finds the first month
with the label only (`Client.EditOfRepeatedDate`).

## Model

| member | source | states |
|---|---|---|
| Server.Loaded | server.js:15-27 | INITIAL_DATA is the parsed baseline file, or the empty series when reading or parsing fails |
| Server.DefaultData | server.js:131-151 | the seed is two months, labelled 31/01/24 and 29/02/24 |
| Server.DefaultDataUniform | server.js:132-151 | both seed months have the same category names in each bucket |
| Server.SnapshotStore.constructor | server.js:27-155 | the baseline is the loaded file and the live series a copy of it, except that a missing file makes the live series the seed |
| Server.ResetAfterMissingBaseline | server.js:27-28 | with a missing file the series starts as the two-month seed, but INITIAL_DATA is empty, so a reset leaves an empty series |
| Server.SnapshotStore.Data | server.js:40-43 | GET answers with the current series |
| Server.FirstWithDate | server.js:51 | `find` returns the first month with the date, or none; no earlier month has that date |
| Server.PutEntrySeries | server.js:51-58 | no update (404) iff no month has the date or the first such month lacks the bucket; otherwise only that month changes, keeping its date and other bucket, and its names gain the category |
| Server.PutEntryCell | server.js:54 | after the update the cell reads the value sent, and every other cell of the bucket reads as before |
| Server.SnapshotStore.PutEntry | server.js:47-59 | the search loop answers 200 with the new series or 404 with the series unchanged, as PutEntrySeries says |
| Server.AddCategorySeries | server.js:67-72 | every month keeps its date, has the bucket afterwards, and its names gain the category; the other bucket is untouched |
| Server.AddCategoryCell | server.js:68-71 | the category reads 0 in every month, even where it existed before; other categories keep their values |
| Server.SnapshotStore.AddCategory | server.js:63-75 | answers 201; the loop leaves the series equal to AddCategorySeries of the old one |
| Server.WithoutCell | server.js:84-86 | the name leaves the bucket and the other cells keep their values; a month without the bucket is unchanged |
| Server.RemoveCategorySeries | server.js:83-87 | every month loses the category from the bucket and nothing else; a month that had the bucket keeps it, if empty |
| Server.RemoveCategoryCell | server.js:83-87 | other categories keep their values |
| Server.RemoveCategoryIdempotent | server.js:83-87 | a second identical removal changes nothing |
| Server.SnapshotStore.RemoveCategory | server.js:79-90 | answers 200; the loop leaves the series equal to RemoveCategorySeries of the old one |
| Server.NextMonth | server.js:100-111 | the appended month is a copy of the last month's buckets under the next date label |
| Server.AppendMonthSeries | server.js:96-112 | no month is appended iff the series is empty; otherwise the old series is a prefix and the new last month copies the old last one under the next label |
| Server.SnapshotStore.AddMonth | server.js:94-114 | answers 400 with no change on an empty series, otherwise 201 with AppendMonthSeries |
| Server.SnapshotStore.Reset | server.js:118-122 | answers 200; the series is the baseline again |
| Server.AddCategoryKeepsUniform | server.js:67-72 | adding a category keeps every bucket's names the same across months |
| Server.RemoveCategoryKeepsUniform | server.js:83-87 | removing a category keeps every bucket's names the same across months |
| Server.AppendMonthKeepsUniform | server.js:109-112 | appending a month keeps every bucket's names the same across months |
| Server.AppendAfterInvalidRepeatsDate | server.js:100-112 | after a month labelled NaN/NaN/aN the appended month has the same label, so two months share a date |
| Server.PutEntryCanBreakUniform | server.js:53-54 | a point update with a new name changes one month only, which breaks same-names-everywhere |
| Records.Get | types.ts:3-4 | reading a property gives none exactly when the object lacks it |
| Records.Assign | server.js:54 | assigning gains the key; an existing key keeps its place; a new key goes last |
| Records.AssignGet | server.js:54 | after assigning, the key reads the new value and other keys read as before |
| Records.Remove | server.js:85 | deleting removes the key only; the others read as before; deleting an absent key changes nothing |
| Records.RemoveKeepsOrder | server.js:85 | deleting a present key cuts out its one entry; the other entries keep their order |
| Records.WithCell | server.js:68-71 | writing a cell creates the bucket if absent, gains the name, and keeps the date and the other bucket |
| Records.WithCellGet | server.js:71 | after writing a cell it reads the new value and other cells read as before |
| Calendar.NextSnapshotDate | server.js:100-107 | the appended label is NaN/NaN/aN exactly when the Date steps give an Invalid Date |
| Calendar.LabelOf | server.js:107 | an Invalid Date prints as NaN/NaN/aN, and no valid date prints as that label |
| Calendar.NextFromParts | server.js:101-105 | whatever the label, a date the handler computes is the last day of its month |
| Calendar.NextFromNumbers | server.js:102-105 | a NaN part gives an Invalid Date; a valid result is the last day of its month |
| Calendar.MonthEndAfter | server.js:102-105 | for any year, month and day, a valid result lies in the Date range and is the last day of its month |
| Calendar.ParseInt | server.js:102 | a blank string is NaN; a negative number needs a leading '-'; a string starting with a digit reads as a number of at least 0 |
| Calendar.ParseIntOfDigits | server.js:102 | parseInt reads a run of digits as the number it denotes |
| Calendar.Split | server.js:101 | splitting gives at least one part, and no part contains the separator |
| Calendar.FormatLabel | server.js:107 | a valid date prints as two digits, '/', two digits, '/', then the last two characters of the year's decimal form (as slice(-2) takes them) |
| Calendar.MakeDay | server.js:102-105 | the result is always a valid date; MakeDayNumber states which one |
| Calendar.MakeDayNumber | server.js:102-105 | MakeDay as ECMA-262 defines it: the day d - 1 days after the first of month m mod 12 of year y + floor(m / 12) |
| Calendar.TimeClip | server.js:102-105 | a date is kept exactly when it lies in the Date range; otherwise the result is an Invalid Date |
| Calendar.NewDate | server.js:102 | a Date built from a year, month and day is a valid date in the range, or an Invalid Date; a year beyond 1,000,000 or a month beyond 10,000,000 either way always gives an Invalid Date |
| Calendar.SetMonth | server.js:104 | moving the month gives a valid date in the range, or an Invalid Date; a month argument beyond 10,000,000 either way gives an Invalid Date |
| Calendar.EpochIsDayZero | server.js:102-105 | the day count is 0 on 1 January 1970 |
| Calendar.MonthStepDayNumber | server.js:102-105 | the first of the next month is the current month's number of days after the first of the current month |
| Calendar.MarchToMarch | server.js:102-105 | a year from 1 March has 366 days when it contains a Gregorian leap day, else 365 |
| Calendar.RangeEnd | server.js:102-105 | the last day a Date holds is 13 September 275760, exactly 100,000,000 days after 1 January 1970 |
| Calendar.RangeStart | server.js:102-105 | the first day a Date holds is 20 April -271821, exactly 100,000,000 days before 1 January 1970 |
| Calendar.ModestYearInRange | server.js:102-105 | every valid day of the years -100000 to 100000 lies in the range |
| Calendar.FarYearOutOfRange | server.js:102-105 | no day of the year 280000 or later lies in the range |
| Calendar.BuiltAsItself | server.js:102 | a valid day of the years 100 to 100000 is built as itself |
| Calendar.MovedInRange | server.js:104 | moving a valid day of the years 100 to 99999 one month on stays in the range |
| Calendar.DayZeroInRange | server.js:105 | day 0 of the next month, from a valid day of the years 100 to 100000, is the last day of that day's month |
| Calendar.MovedMonthEnd | server.js:104-105 | the last day of the month setMonth lands in is AppendedMonthEnd |
| Calendar.BeyondDateRange | server.js:102-105 | the parts of a valid date of the year 280000 or later give an Invalid Date |
| Calendar.YearBeyondDateRange | server.js:100-107 | 01/01/300000 is followed by NaN/NaN/aN |
| Calendar.HugeYearArgument | server.js:102-105 | a year part beyond the year limit gives an Invalid Date, whatever the day |
| Calendar.HugeYearLabel | server.js:100-107 | -300000000/01/999000 is followed by NaN/NaN/aN |
| Calendar.InvalidLabelRepeats | server.js:100-107 | NaN/NaN/aN is followed by NaN/NaN/aN |
| Calendar.NatToString | server.js:107 | String of a natural number is a non-empty run of digits |
| Calendar.IntToString | server.js:107 | String of an integer contains no '/' |
| Calendar.DaysInMonth | server.js:102-105 | month lengths run 28 to 31; February has 29 days exactly in leap years |
| Calendar.Normalize | server.js:102 | the result is always a valid date; NormalizeDayNumber states which one |
| Calendar.NormalizeDayNumber | server.js:102-104 | a day outside its month carries into the next months or borrows from earlier ones: the result lies d - 1 days after the first of the month |
| Calendar.NormalizeValid | server.js:102 | a valid date is left as it is |
| Calendar.DayZeroIsLastDay | server.js:105 | day 0 of the following month is the last day of the month |
| Calendar.SetMonthOverflow | server.js:104 | adding one month keeps the day when it fits; otherwise the day overflows into the month after |
| Calendar.AppendedMonthEnd | server.js:102-105 | the computed date is always the last day of its month |
| Calendar.AppendedDate | server.js:102-105 | the three Date steps from a valid date of the years 100 to 99999 give AppendedMonthEnd |
| Calendar.SplitJoin | server.js:101 | splitting on '/' undoes joining parts without '/' |
| Calendar.JoinSplit | server.js:101 | joining undoes splitting |
| Calendar.ParseIntOfIntToString | server.js:102 | parseInt reads back what String prints |
| Calendar.ParseTwoDigitsOf | server.js:102 | parseInt reads a two-digit part as its number |
| Calendar.FormatLabelDigits | server.js:107 | a label is the date's two-digit day, month, and year modulo 100, separated by '/' |
| Calendar.LabelParts | server.js:107 | a printed label splits into its two-digit day, month and year parts |
| Calendar.NextSnapshotDateOfLabel | server.js:100-107 | for a label of a valid date in 2000-2099, the appended label is that of AppendedMonthEnd |
| Calendar.JanuaryEndSkipsFebruary | server.js:104-105 | 31/01/24 is followed by 31/03/24 |
| Calendar.LeapDayToMarchEnd | server.js:104-105 | 29/02/24 is followed by 31/03/24 |
| Calendar.MarchEndSkipsApril | server.js:104-105 | 31/03/24 is followed by 31/05/24 |
| Calendar.CenturyRollover | server.js:102-107 | 31/12/99 is followed by 31/01/00 |
| Calendar.LabelWithoutSlash | server.js:101-107 | a label without '/' has no month or year part, so the NaN label NaN/NaN/aN is printed |
| Calendar.MalformedLabel | server.js:101-107 | the ISO-style label 2024-01-31 gives NaN/NaN/aN |
| Metrics.Total | App.tsx:149-150 | a month without the bucket totals 0 |
| Records.SumNonNegative | App.tsx:149-150 | a bucket with no negative amount has a total of at least 0 |
| Metrics.ProcessedSeries | App.tsx:144-165 | one record per month; the first is its month's figures against 0 and 0 |
| Metrics.Figures | App.tsx:149-155 | a month's totals, net worth, diffs against the running values, and percentage change; the change is 0 when the previous net worth is 0 |
| Metrics.ProcessedRecord | App.tsx:144-165 | each record is its month's figures against the record before; the first is against 0 and 0 |
| Metrics.FirstRecord | App.tsx:145-146 | the first record's diffs equal its totals and its percentage change is 0 |
| Metrics.LaterRecord | App.tsx:152-158 | a later record's diffs and percentage change are taken against the previous record |
| Metrics.TenPercent | App.tsx:154 | net worth 1000 then 1100 is a 10 percent change |
| Metrics.Process | App.tsx:144-165 | the loop with its two running values computes ProcessedSeries |
| Categories.BelowTransitive | App.tsx:46-47 | the sort order is transitive |
| Categories.BelowTotal | App.tsx:46-47 | any two different names are ordered one way or the other |
| Categories.SortedUnique | App.tsx:46-47 | a strictly sorted list is determined by its names, whatever order the set received them in |
| Categories.InsertSorted | App.tsx:42-43 | adding a name to the sorted set keeps it strictly sorted and adds exactly that name |
| Categories.CategoryList | App.tsx:38-49 | the category list is strictly sorted, so it has no duplicates |
| Categories.CategoryListNames | App.tsx:38-49 | the list is strictly sorted and holds exactly the names some month uses in that bucket |
| Categories.CategoryListIsSortedUnion | App.tsx:38-49 | any strictly sorted list of the names in use is the category list |
| Categories.DeriveCategories | App.tsx:38-49 | the pass over the months builds both category lists |
| Categories.AddNames | App.tsx:42-43 | the inner forEach adds one bucket's names |
| Summary.GetChange | components/SummaryCards.tsx:38-45 | neutral at 0 without a nonzero previous value; otherwise the change relative to the previous value's magnitude, an increase iff the value rose and a decrease iff it fell |
| Summary.SignOfChange | components/SummaryCards.tsx:40-43 | dividing by the previous value's magnitude keeps the sign of the difference |
| Summary.Inverted | components/SummaryCards.tsx:70 | increase and decrease swap; neutral stays neutral |
| Summary.InvertedTwice | components/SummaryCards.tsx:70 | swapping twice gives the classification back |
| Summary.SummaryCards | components/SummaryCards.tsx:24-70 | no cards for an empty series; otherwise the latest month's three figures, each change taken against the month before (against none for a single month); net worth and assets show their change's class, liabilities the inverted class |
| Summary.SingleMonthNeutral | components/SummaryCards.tsx:27 | with one month, every card is neutral at 0 |
| Summary.CardsAgainstPrevious | components/SummaryCards.tsx:47-70 | against a nonzero previous value, net worth and assets show an increase iff they rose and liabilities show an increase iff they fell; against a zero previous value a card is neutral |
| Views.PositiveSlices | App.tsx:170-171 | every slice drawn has a positive value |
| Views.PositiveSlicesMembers | App.tsx:170-171 | a slice is drawn exactly for an entry with a positive value |
| Views.PositiveSlicesAppend | App.tsx:170-171 | the filter keeps the entry order |
| Views.AllocationData | App.tsx:167-173 | empty lists for an empty series; otherwise the positive entries of the latest month; no data when a bucket is absent, where the source throws |
| Views.SpreadInto | App.tsx:175 | the spread row's keys are its own keys and the spread object's keys |
| Views.SpreadIntoGet | App.tsx:175 | after the spread, a spread key reads the asset amount and any other key reads as before |
| Views.CompositionRowGet | App.tsx:175 | a row reads each asset's amount under its name and the date under "date", unless an asset named "date" overrides it |
| Views.CompositionRow | App.tsx:175 | a row's keys are "date" and the month's asset names |
| Views.AssetCompositionData | App.tsx:175 | one row per month, in order |
| Client.Message | App.tsx:28 | the error banner shows an Error's message, or the unknown-error text |
| Client.FailureText | App.tsx:77-82 | a response that is not ok shows the handler's own message; a thrown value shows its message or the unknown-error text |
| Client.NumericInput | App.tsx:52 | an empty input is 0; any other is parseFloat of it |
| Client.EditSeries | App.tsx:56-68 | only the edited row changes: date and other bucket kept, its names gain the category |
| Client.EditSeriesCell | App.tsx:59-64 | in the edited row the cell reads the new number and other cells read as before |
| Client.EditAgreesWithServer | App.tsx:56-76 | when the row is the first with its date and has the bucket, the optimistic edit is what the server stores for the PUT; without the bucket the server answers 404 |
| Client.EditOfRepeatedDate | App.tsx:56-76 | when an earlier row is the first with the date and has the bucket, the PUT succeeds but changes that row, so the server's series differs from the optimistic edit |
| Client.Dashboard.constructor | App.tsx:13-15 | starts with no data, loading, and no error |
| Client.Dashboard.FetchData | App.tsx:17-32 | on success the series is replaced and the error cleared; otherwise the series is kept and the banner set; loading ends either way |
| Client.Dashboard.HandleDataChange | App.tsx:51-76 | a NaN input changes nothing; an edit shows the edited series and sends the row's date with the value; a missing row restores the series and sets the TypeError message |
| Client.Dashboard.SaveSettled | App.tsx:72-83 | a failed save restores the series from before the edit and sets the error; a successful one changes nothing |
| Client.EditRolledBack | App.tsx:51-84 | an edit whose save fails leaves exactly the series shown before |
| Client.Dashboard.HandleAddCategory | App.tsx:86-96 | no request iff the name is empty or some month already uses it in that bucket |
| Client.Dashboard.HandleAddMonth | App.tsx:121-124 | a request is sent iff the series is not empty |
| Client.Dashboard.MutationSettled | App.tsx:97-129 | after add-category, remove-category or add-month, a failed request sets the error and a successful one refetches the series, after which loading has ended |

Helpers without a row of their own, each used by the members above:
- `Calendar.FullYear`: the Date constructor's reading of a year argument from 0 to 99 as 1900 + y (server.js:102).
- `Calendar.PadStart2` and `Calendar.Last2`: padStart(2, '0') and slice(-2) on the printed numbers (server.js:107).
- `Records.Sum`: the total of a bucket's amounts (App.tsx:149-150); `Records.SumNonNegative` states its bound.
- `Categories.Below`: the order `sort()` uses (App.tsx:46-47); `Categories.BelowTransitive` and
  `Categories.BelowTotal` state its properties.

## Left out

- File and network I/O, Express routing, CORS, JSON body parsing and logging. Each handler is a method on the
  in-memory series. The baseline file is a parameter: missing, unreadable, or parsed.
- Writing `initialData.json` (server.js:152) is not modelled. The written content is the seed, which
  `Server.DefaultData` states.
- JSON deep copies (server.js:28, 109, 120) and object aliasing: the series is a value, so every copy is a fresh
  value.
- The server's `Number(value)` on the request body, and the client's `parseFloat`. The client takes parseFloat as a
  function parameter (None stands for NaN). The server receives the value as a number.
- Floating-point rounding. Amounts, sums and percentage changes are exact reals, and `Infinity` is not modelled.
- `toFixed(2)` and the `Intl.NumberFormat` currency text on the summary cards. The cards keep the numbers those
  strings print.
- JavaScript's enumeration order for integer-like keys, which come first in ascending order. Keys here keep
  insertion order.
- `sort()` compares UTF-16 code units. The model compares characters, which agrees for characters below U+10000.
- Request bodies with a `type` other than `assets` or `liabilities`. The bucket is the two-valued `Kind`.
- `Calendar.NextSnapshotDateOfLabel`: proved only for labels of years 2000-2099, the ones a two-digit label
  denotes. `Calendar.NextSnapshotDate` is defined for every label. A malformed label gives `NaN/NaN/aN`. So does a
  label whose Date steps leave the Date range or pass a year or month argument beyond V8's limits.
- `Calendar.NextSnapshotDate`: the Date range is measured in whole days from 1 January 1970 in UTC. The handler's
  Dates are local midnights. In a time zone west of UTC, 13 September 275760 is therefore already an Invalid Date.
  In a time zone east of UTC, 20 April -271821 is. The model accepts both boundary days.
- `Calendar.ParseInt`: parses digit runs exactly. JavaScript's parseInt rounds beyond 2^53. Any number that large
  gives an Invalid Date either way: as a year or a month it exceeds V8's argument limits, and as a day it lands far
  outside the Date range.
- `Client.EditAgreesWithServer`: holds only for the first row with its date. Dates can repeat once a month is
  labelled `NaN/NaN/aN`, and then an edit of a later row is shown but not stored (`Client.EditOfRepeatedDate`).
  The dashboard reports no error in that case.
- `Records.Assign`: every assignment stores the key. In the server, `month[type][category] = value` with the name
  `__proto__` on a bucket that has no own `__proto__` property calls the setter inherited from `Object.prototype`,
  which ignores a number, so nothing is stored although the handler answers 200 or 201. The model does not capture
  this, so `Server.PutEntrySeries`, `Server.PutEntryCell`, `Server.AddCategorySeries`, `Server.AddCategoryCell` and
  `Client.EditAgreesWithServer` do not hold for that one name on the server side. The dashboard's computed key does
  create an own `__proto__` property, as the model says.
- `Server.Loaded`: a baseline file that parses is taken to hold an array of months with string dates and object
  buckets. A file that parses to anything else makes the handlers throw, which Express answers with 500; that is not
  modelled.
- `Client.Dashboard.HandleDataChange`: the error set for a row index with no row is V8's TypeError text (Chrome,
  Edge, Node). Other engines word that message differently, for example Firefox.
- handleRemoveCategory and handleResetData (App.tsx:104-142): not modelled as their own methods. Each asks
  `window.confirm`, then sends its request with the continuation of `Client.Dashboard.MutationSettled`.
- Concurrent requests and the stale `data` closure of handleDataChange. Each exchange is one call followed by its
  continuation.
- React rendering, the loading screen, the data table and chart components, and the insight generator service.
