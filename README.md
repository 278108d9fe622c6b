# Life Weeks — a Dafny model of its core

Life Weeks draws a life as a grid of weeks: one row of 52 cells for each year
of life expectancy. Each cell is past, current or future, measured from the
date of birth (DOB). The app also keeps dated marks (milestones, plans, notes),
stores the DOB in the browser's key/value storage, and can sync its local data
with a remote document.

This project models the logic under that UI and proves properties of it:

- **Dates** (`dates.dfy`, `week_dates.dfy`). Calendar dates are day numbers;
  day 0 is Monday 0001-01-01 in the proleptic Gregorian calendar. Times are
  milliseconds since 1970-01-01.
  - date-part validation and day/month/year → `YYYY-MM-DD` formatting;
  - whole weeks lived;
  - the years/months/days age breakdown;
  - ISO week numbers;
  - the week ↔ date helpers of the marks screens.
- **Summary and marks** (`stats.dfy`, `marks.dfy`). The summary counts, and
  grouping marks by week index.
- **Local storage** (`storage.dfy`). The DOB record in local storage, as the
  class `LocalStore` whose `items` map the methods update.
- **Sync** (`merge.dfy`, `sync.dfy`).
  - The deep merge that sync uses. Arrays are merged as a union keyed by their
    `JSON.stringify` text; objects are merged key by key.
  - The sync bookkeeping, as the class `SyncEngine`: sign-in, pull-and-merge,
    push with version-conflict detection, and reset.
- **Mark screens** (`marks_panel.dfy`, `mark_modal.dfy`).
  - the marks panel: its week filter range, its search/tag/kind/date filter
    and its sorted tag list;
  - the mark form: which date it opens on and what payload it submits.
- **Onboarding** (`onboarding.dfy`). The ordered validation checks and the two
  store writes.
- **The grids** (`life_grid.dfy`, `life_grid_svg.dfy`).
  - cell states, year labels and cell counts;
  - the SVG circles built by nested loops;
  - clamped keyboard focus;
  - the double-tap detector, as the class `TapDetector`.

The time "now" is a parameter throughout. Local time is taken to be UTC.

Supporting modules:

- `wrappers.dfy` (`Option`);
- `sequences.dfy` (subsequences, filter);
- `decimal.dfy` (decimal digits and `padStart`);
- `strings.dfy` (code-unit order, trim, ASCII lower case, `includes`);
- `json.dfy` (a JSON datatype whose objects keep their key order, and `JSON.stringify`);
- `store_api.dfy` (the mark record and the store calls the screens make).

## Model

| member | source | states |
|---|---|---|
| Dates.DaysInMonth | src/lib/date.ts:17-22 | every month has 28 to 31 days (Gregorian leap rule), the calendar the `Date.UTC` round trip checks against |
| Dates.FromDayNumber | src/lib/date.ts:7-9 | the date of a day number: its day number is that number and it lies inside its year (the normalisation `Date.UTC` performs) |
| Dates.DayNumberOrderIff | src/lib/date.ts:7-9 | day numbers order dates exactly as calendar order does, and equal day numbers mean equal dates |
| Dates.FromDayNumberOfDayNumber | src/lib/date.ts:17-22 | converting a real date to its day number and back gives the same date |
| Dates.IsoWeekday | src/lib/date.ts:81 | weekday 1..7, Monday = 1, as `getUTCDay() \|\| 7` |
| Dates.UnixEpochIsThursday | src/lib/date.ts:81 | 1970-01-01 is day 719162 and a Thursday; 2000-01-01 is a Saturday |
| Dates.DateOfMs | src/lib/date.ts:47-48 | the UTC day containing an instant: its midnight is at or before it and less than a day before it |
| Dates.DateOfMidnight | src/lib/date.ts:47-48 | any instant within a date's day maps back to that date |
| Dates.WeeksBetween | src/lib/date.ts:46-52 | whole weeks since the DOB's midnight: 0 exactly when less than one week has passed (or now is before the DOB), else `w` with `w` weeks passed and `w+1` not |
| Dates.WeeksBetweenMonotone | src/lib/date.ts:46-52 | weeks lived never decrease as now advances |
| Dates.WeeksBetweenWholeWeeks | src/lib/date.ts:46-52 | exactly `w` weeks after the DOB's midnight the count is `w` (0 at birth) |
| Dates.IsValidDateParts | src/lib/date.ts:12-23 | only integer parts with a year in 1900..9999 that name a real Gregorian date are accepted |
| Dates.IsValidDatePartsIff | src/lib/date.ts:12-23 | the parts are accepted iff all are integers, the year is 1900..9999, and they name a real Gregorian date |
| Dates.IsValidDatePartsMonthEnds | src/lib/date.ts:17-22 | 29 February is accepted exactly in leap years, the 31st of a 30-day month never, and the 28th always |
| Dates.ParseFormatIso | src/lib/date.ts:39-42 | a `YYYY-MM-DD` text of a date is 10 characters and parses back to that date |
| Dates.FormatParseIso | src/lib/date.ts:39-42 | a text that parses as a date is exactly the formatting of that date |
| Dates.ParseDMYToISO | src/lib/date.ts:29-43 | `null` exactly when the parts fail validation |
| Dates.ParseDMYToISOFields | src/lib/date.ts:37-42 | for valid parts the result is 10 characters `YYYY-MM-DD`, all digit fields, whose numeric values are the inputs |
| Dates.IsoStringOrder | src/components/Marks/MarksPanel.tsx:86-88 | for 4-digit years, comparing `YYYY-MM-DD` texts as strings orders them chronologically, and equal texts mean equal dates |
| Dates.PreviousMonthLengthIsDayZero | src/lib/date.ts:65-66 | the length borrowed is that of the month before now's month, the day `new Date(y, m, 0)` names |
| Dates.AgeBreakdown | src/lib/date.ts:55-73 | months end in 0..11, days are the day difference plus the borrowed month length when negative, and years·12+months is the month difference less one borrow |
| Dates.AgeYearsAreWholeYears | src/lib/date.ts:59-71 | the years are the completed birthdays: year difference less one if this year's birthday has not come |
| Dates.AgeYearsNonNegative | src/lib/date.ts:59-71 | years are never negative when birth is not after now |
| Dates.AgeBreakdownExample | src/lib/date.ts:55-73 | born 2000-03-15, on 2024-03-10 the age is 23 years 11 months 24 days |
| Dates.AgeBreakdownNegativeDays | src/lib/date.ts:63-67 | born 1990-01-31, on 2023-03-01 the code gives 33 years 1 month −2 days |
| Dates.AgeBreakdownCorrected | src/lib/date.ts:63-67 | with the birth day clamped to the borrowed month, days are in 0..30 and years and months equal the code's |
| Dates.AgeBreakdownCorrectedExample | src/lib/date.ts:63-67 | the corrected age for 1990-01-31 → 2023-03-01 is 33 years 1 month 1 day |
| Dates.ThursdayOf | src/lib/date.ts:81-82 | the Thursday of a date's ISO week lies within three days of it |
| Dates.IsoWeek | src/lib/date.ts:79-86 | the week number is in 1..53 whenever the date's Thursday falls outside years 0..99, which `Date.UTC` reads as 1900..1999 |
| Dates.IsoWeekTwoDigitYear | src/lib/date.ts:80 | a date of a year 0..99 gets the week number of the same day and month of year 1900+y, because `Date.UTC` reads the year that way |
| Dates.FirstThursday | src/lib/date.ts:83-85 | the first Thursday of a year lies in its first seven days |
| Dates.IsoWeekCountsFromFirstThursday | src/lib/date.ts:79-86 | the date's Thursday is a whole number of weeks after the first Thursday of its year, and, for Thursdays outside years 0..99, the week number is one plus that number of weeks |
| Dates.IsoWeeksInYear | src/lib/date.ts:92-96 | every year other than −1 has 52 or 53 ISO weeks |
| Dates.IsoWeeksInYearBound | src/lib/date.ts:92-96 | outside year −1, 31 December (of the year `Date.UTC` reads) is in week 1, 52 or 53, so the `wk === 1 ? 52 : wk` rule yields 52 or 53 |
| Dates.IsoWeeksInYearCounts | src/lib/date.ts:88-96 | for every year but −1, the result is the number of ISO weeks of the year `Date.UTC` reads: the whole weeks from its first Thursday to the next year's first Thursday |
| Dates.IsoWeeksInYearTwoDigit | src/lib/date.ts:93 | a year 0..99 has as many weeks as year 1900+y |
| Stats.ComputeStats | src/lib/stats.ts:3-9 | total = expectancy·52; lived is clamped to the total; remaining ≥ 0; below the total, lived is the whole weeks and lived + remaining + 1 = total |
| Stats.DefaultTotal | src/lib/stats.ts:3-4 | the default 80-year expectancy gives 4160 weeks |
| Stats.StatsMonotone | src/lib/stats.ts:3-9 | as now advances, lived weeks never decrease and remaining weeks never increase |
| Stats.FirstWeek | src/lib/stats.ts:3-9 | in the first week of life, lived is 0 and remaining is total − 1 |
| Marks.WithWeek | src/lib/marks.ts:6-10 | the marks of one week index, in input order: all of them and nothing else; empty iff no mark has that week |
| Marks.GroupByWeekIndex | src/lib/marks.ts:3-13 | the map's keys are exactly the week indices present and each bucket holds that week's marks in input order |
| Marks.MarkInOwnBucket | src/lib/marks.ts:6-10 | every mark sits in the bucket of its own week index |
| Marks.BucketsDisjoint | src/lib/marks.ts:6-10 | no mark is in two buckets |
| Marks.WeekOrder | src/lib/marks.ts:6-10 | the map's keys: each week index present, each once, and no other |
| Marks.WeekOrderFirstAppearance | src/lib/marks.ts:6-10 | the keys are in insertion order: a key listed before another shows up in the marks before the other one first does |
| Marks.BucketSizesSum | src/lib/marks.ts:3-13 | the bucket sizes add up to the number of marks, so nothing is lost or duplicated |
| Storage.DobOf | src/lib/storage.ts:3-12 | a DOB is returned exactly when the stored text parses to an object with a non-null `dobISO`, and it is that value |
| Storage.LocalStore.GetDOB | src/lib/storage.ts:3-12 | reads the DOB of the stored record without changing the store |
| Storage.LocalStore.SetDOB | src/lib/storage.ts:14-17 | writes the `{dobISO, locked: true}` record under `lifeweeks.v1`, leaves other keys alone, and the DOB read back is the one written |
| Storage.LocalStore.ClearDOB | src/lib/storage.ts:19-21 | removes the key only, after which no DOB is read |
| Storage.SetThenGet | src/lib/storage.ts:3-17 | the DOB read after a write is the DOB written, whatever was stored before |
| Storage.LastWriteWins | src/lib/storage.ts:14-17 | of two writes only the second is observable |
| Merging.Dedup | src/lib/firebaseSync.ts:109-118 | the de-duplicated array keeps the set of serialised items |
| Merging.DedupDistinct | src/lib/firebaseSync.ts:109-118 | no two kept items serialise alike |
| Merging.DedupSubsequence | src/lib/firebaseSync.ts:109-118 | kept items appear in their input order (the first occurrence wins) |
| Merging.DedupOfDistinct | src/lib/firebaseSync.ts:109-118 | an array without duplicates is kept as is |
| Merging.DedupList | src/lib/firebaseSync.ts:108-118 | the `seen`/`out` pass over `[...a, ...b]` yields exactly the first item of each serialisation, in order (the de-duplication function) |
| Merging.Merge | src/lib/firebaseSync.ts:107-129 | two arrays merge to an array whose serialised items are those of both; two object-like values, not both arrays, merge to an object; the result is `null` only when both are |
| Merging.MergeStep | src/lib/firebaseSync.ts:122-125 | one turn of the key loop: the keys grow by the new key at the end if it was absent; that key holds the merged value if present, else `b`'s value; other keys keep theirs; keys stay distinct |
| Merging.MergeFromKeys | src/lib/firebaseSync.ts:120-127 | the key loop keeps `out`'s keys first and in order, adds exactly the remaining keys of `b`, and never repeats a key |
| Merging.MergeFromValues | src/lib/firebaseSync.ts:120-127 | after the key loop every key holds the merge of both sides' values when both have it, else the value of the side that has it |
| Merging.DeepMergeUnique | src/lib/firebaseSync.ts:107-129 | the loop-and-recursion merge equals the merge function |
| Merging.MergeArrays | src/lib/firebaseSync.ts:108-119 | two arrays merge to the duplicate-free union of their items, in order, first occurrence kept |
| Merging.MergeObjects | src/lib/firebaseSync.ts:120-127 | two objects merge to an object with a's keys first then b's new keys; shared keys hold the merged values and others keep their own |
| Merging.MergeScalars | src/lib/firebaseSync.ts:128 | otherwise b wins unless it is null, when a is kept |
| Merging.SelfMerge | src/lib/firebaseSync.ts:107-129 | a duplicate-free value merged with itself is unchanged |
| Merging.MergeTwice | src/lib/firebaseSync.ts:107-129 | merging the same duplicate-free b a second time changes nothing |
| Merging.NormalMerge | src/lib/firebaseSync.ts:107-129 | merging two duplicate-free values gives a duplicate-free value |
| Merging.MergeTwiceNeedsNormal | src/lib/firebaseSync.ts:108-119 | with b = `{"k":[1,1]}` merging b twice differs from merging it once, so repeated merging is not idempotent in general |
| Merging.DedupSplit | src/lib/firebaseSync.ts:111-117 | de-duplicating a + b is de-duplicating a then appending b's items not yet seen |
| Merging.MergeTruthy | src/lib/firebaseSync.ts:144 | merging two truthy values gives a truthy value |
| Merging.MergeLeftAbsorb | src/lib/firebaseSync.ts:107-129 | merging the same duplicate-free a into an earlier merge result of a and b changes nothing |
| Merging.Normalise | src/lib/firebaseSync.ts:108-118 | the value with the repeats of every array dropped, at every depth: arrays stay arrays, objects keep their keys, other values and truthiness are unchanged |
| Merging.NormaliseNormal | src/lib/firebaseSync.ts:108-118 | any value `JSON.parse` can give normalises to a value without repeated array items anywhere |
| Merging.NormaliseOfNormal | src/lib/firebaseSync.ts:108-118 | a value without repeats is its own normal form |
| Sync.Conflicts | src/lib/firebaseSync.ts:159-161 | there is never a conflict when forced, when no version was recorded (0), when there is no remote document, or when the remote version is the recorded one |
| Sync.Pulled | src/lib/firebaseSync.ts:137-144 | the merged value is truthy, so when the next pull reads it back, `local \|\| {}` keeps it unchanged; blank or unparsable local data counts as `{}` |
| Sync.PullTwice | src/lib/firebaseSync.ts:131-148 | when the remote payload has no repeated array items at any depth and the local data is as `JSON.parse` reads it, pulling the same payload twice leaves the same local data as pulling it once |
| Sync.PullTwiceNeedsNormal | src/lib/firebaseSync.ts:144 | with payload `{"k":[1,1]}` and local `{}` the first pull gives the payload and the second `{"k":[1]}` |
| Sync.PulledNormalised | src/lib/firebaseSync.ts:144 | the pull with the remote payload normalised first gives a truthy value |
| Sync.PulledNormalisedAgrees | src/lib/firebaseSync.ts:144 | for a payload without repeats the normalised pull is the pull as written |
| Sync.PullTwiceNormalised | src/lib/firebaseSync.ts:131-148 | with the payload normalised, pulling twice equals pulling once for every parsed payload and local value |
| Sync.SyncEngine.constructor | src/lib/firebaseSync.ts:29 | the engine starts signed out, with the given remote document, stored version and local data |
| Sync.SyncEngine.EnsureDoc | src/lib/firebaseSync.ts:80-89 | an existing document is left alone; a missing one is created with version 0, empty payload, and 0 stored as the last version |
| Sync.SyncEngine.SignIn | src/lib/firebaseSync.ts:62-71 | signs in and ensures the document exists, leaving local data alone |
| Sync.SyncEngine.SignOut | src/lib/firebaseSync.ts:73-78 | signs out and changes nothing else |
| Sync.SyncEngine.PullAndMerge | src/lib/firebaseSync.ts:131-148 | no remote ⇒ nothing changes; otherwise local becomes remote payload merged with local (local wins) and the remote version is recorded |
| Sync.SyncEngine.PushSnapshot | src/lib/firebaseSync.ts:150-176 | refused when signed out, or on a version conflict unless forced; otherwise the remote becomes the local payload with the new version, after which there is no conflict |
| Sync.SyncEngine.ResetFromRemote | src/lib/firebaseSync.ts:178-185 | no remote ⇒ nothing changes; otherwise local becomes the remote payload and its version is recorded |
| WeekDates.AddDays | src/components/Marks/MarksPanel.tsx:21-28 | the date `days` days later |
| WeekDates.AddDaysText | src/components/Marks/MarksPanel.tsx:21-28 | a text that is not a date gives `NaN-NaN-NaN` |
| WeekDates.IsoFromWeekIndex | src/components/Marks/MarksPanel.tsx:29-31 | a DOB text that is not a date gives `NaN-NaN-NaN`; otherwise the text of the date `7w` days after the DOB |
| WeekDates.WeekOfDate | src/components/Marks/MarksPanel.tsx:32-37 | 0 exactly for dates less than a week after (or before) the DOB, else the `w` with `7w ≤ days since DOB < 7w+7` |
| WeekDates.WeekIndexFromISO | src/components/Marks/MarksPanel.tsx:32-37 | a number exactly when both texts are dates (NaN otherwise) |
| WeekDates.LocalTextIsIso | src/components/Marks/MarksPanel.tsx:24-27 | for 4-digit years the unpadded-year text equals the `YYYY-MM-DD` text |
| WeekDates.AddDaysTextOfIso | src/components/Marks/MarksPanel.tsx:21-28 | on a date text, the result is the text of the date `days` later |
| WeekDates.WeekOfDateIff | src/components/Marks/MarksPanel.tsx:32-37 | for weeks ≥ 1, a date is in week `w` iff it is 7w..7w+6 days after the DOB |
| WeekDates.WeekRoundTrip | src/components/Marks/MarksPanel.tsx:29-37 | the start date of week `w` maps back to week `w` |
| MarksPanel.WeekFilterRange | src/components/Marks/MarksPanel.tsx:49-57 | a range is set iff a week is given and a DOB is stored; it runs from the week's start to six days later |
| MarksPanel.DateRangeChronological | src/components/Marks/MarksPanel.tsx:86-88 | the string comparison of the date filter keeps exactly the dates chronologically between from and to |
| MarksPanel.WeekRangeTexts | src/components/Marks/MarksPanel.tsx:49-57 | the range of week `w` is the texts of the DOB plus 7w days and plus 7w+6 days |
| MarksPanel.WeekRangeIsWeek | src/components/Marks/MarksPanel.tsx:49-57 | a mark passes the week's date range iff it lies 7w..7w+6 days after the DOB, i.e. in week `w` |
| MarksPanel.NewMarkInitial | src/components/Marks/MarksPanel.tsx:122-131 | the new form gets the week of the range start when a DOB and a from-date are set, and no fields otherwise |
| MarksPanel.NewMarkInSelectedWeek | src/components/Marks/MarksPanel.tsx:49-57 | after selecting week `w`, "New" opens the form on week `w` |
| MarksPanel.InDateRange | src/components/Marks/MarksPanel.tsx:86-87 | empty bounds impose nothing, and a mark without a date passes only when both bounds are empty |
| MarksPanel.MatchesQuery | src/components/Marks/MarksPanel.tsx:77-82 | a blank query matches every mark, and a query occurring in the lower-cased title always matches |
| MarksPanel.Passes | src/components/Marks/MarksPanel.tsx:78-90 | a passing mark matches the query and the date range, carries the selected tag and kind when one is selected, and with tag, kind and dates off the query alone decides |
| MarksPanel.QueryNormalised | src/components/Marks/MarksPanel.tsx:77-82 | the search ignores surrounding whitespace and ASCII case of the query |
| MarksPanel.NoFilterPassesAll | src/components/Marks/MarksPanel.tsx:76-92 | with a blank query and all filters off every mark passes |
| MarksPanel.QueryMeansOccurrence | src/components/Marks/MarksPanel.tsx:79-82 | a non-blank query matches iff it occurs in the lower-cased title or in non-empty notes |
| MarksPanel.Filtered | src/components/Marks/MarksPanel.tsx:76-92 | the listed marks keep their order, all pass the filter, and each passing mark is listed as many times as it occurs in the data |
| MarksPanel.NoFilterListsAll | src/components/Marks/MarksPanel.tsx:76-92 | with no filter the list is the data itself |
| MarksPanel.Tags | src/components/Marks/MarksPanel.tsx:70-74 | the tag list is strictly sorted and holds exactly the non-empty tags of the marks |
| MarksPanel.SortedUnique | src/components/Marks/MarksPanel.tsx:73 | two strictly sorted lists with the same members are equal |
| MarksPanel.TagsAreDetermined | src/components/Marks/MarksPanel.tsx:70-74 | any strictly sorted list of exactly the tags is the tag list |
| MarkModal.OrAbsent | src/components/Marks/MarkModal.tsx:83-84 | an empty field is stored as absent, any other as itself |
| MarkModal.WeekNumber | src/components/Marks/MarkModal.tsx:18-23 | NaN iff either text is not a date, otherwise the week index, never negative |
| MarkModal.WeekStart | src/components/Marks/MarkModal.tsx:15-17 | a NaN week gives `NaN-NaN-NaN` |
| MarkModal.OpenForm | src/components/Marks/MarkModal.tsx:43-66 | fields come from the initial values or defaults; the date is the given date, else the week's start when a DOB is known, else today, and is never empty |
| MarkModal.SubmittedWeek | src/components/Marks/MarkModal.tsx:73-77 | with a DOB and a date, the week is computed from them; otherwise the initial week, else 0 |
| MarkModal.Submit | src/components/Marks/MarkModal.tsx:70-94 | an update exactly when the form has an id, else an add; the payload carries the fields, today's UTC date for an empty date, and the submitted week |
| MarkModal.OpenedForWeek | src/components/Marks/MarkModal.tsx:50-54 | opening on week `w` with a DOB gives an empty note dated at the week's start |
| MarkModal.OpenForWeekThenSubmit | src/components/Marks/MarkModal.tsx:43-94 | opening the form on week `w` and submitting adds a note in week `w` dated at the week's start |
| MarkModal.EditThenSubmit | src/components/Marks/MarkModal.tsx:43-94 | editing a mark and submitting unchanged updates it with the same fields, its week recomputed from its date when a DOB is known |
| Onboarding.FirstFailing | src/components/OnboardingModal/OnboardingModal.tsx:30-50 | none iff every check passes; otherwise a failing check all of whose predecessors pass |
| Onboarding.Validate | src/components/OnboardingModal/OnboardingModal.tsx:30-50 | on success the date parses, is not in the future, the age is at most 110, and the expectancy is finite, 60..110 and above the age; an empty date asks for one |
| Onboarding.ValidateIsFirstFailing | src/components/OnboardingModal/OnboardingModal.tsx:30-50 | `validate` reports the first failing check in its fixed order |
| Onboarding.NotInFutureByDay | src/components/OnboardingModal/OnboardingModal.tsx:35-36 | a DOB is not in the future iff its day is not after today |
| Onboarding.Submit | src/components/OnboardingModal/OnboardingModal.tsx:52-64 | on an error nothing is written; otherwise DOB then expectancy are stored and the DOB is confirmed |
| Onboarding.WrittenValuesValid | src/components/OnboardingModal/OnboardingModal.tsx:52-64 | every value onboarding stores satisfies the checks: a real past DOB at most 110 years back, an expectancy 60..110 above the age |
| Onboarding.DefaultAcceptsYoung | src/components/OnboardingModal/OnboardingModal.tsx:17 | with the default 80-year expectancy any past DOB under 60 years back is accepted |
| Onboarding.FutureRefused | src/components/OnboardingModal/OnboardingModal.tsx:35-36 | a DOB after today is refused as in the future, whatever the expectancy |
| LifeGrid.StateOf | src/components/LifeGrid/LifeGrid.tsx:74-76 | a cell is past iff below the weeks lived, current iff not past and at the current index, future otherwise |
| LifeGrid.CurrentIndex | src/components/LifeGrid/LifeGrid.tsx:16 | the current index is the weeks lived, or the last cell if that is smaller |
| LifeGrid.Rows | src/components/LifeGrid/LifeGrid.tsx:18-19 | one row per year, 52 cells per row |
| LifeGrid.CellIndexEnumerates | src/components/LifeGrid/LifeGrid.tsx:73 | row `y`, week `w` names cell `52y+w`, inside the grid, and that cell has row `y` and week `w` |
| LifeGrid.CellIndexOnto | src/components/LifeGrid/LifeGrid.tsx:55-73 | every cell of the grid is named by exactly one row and week |
| LifeGrid.RowsAreCells | src/components/LifeGrid/LifeGrid.tsx:72-76 | the state shown at row `y`, week `w` is the state of cell `52y+w` |
| LifeGrid.CountPast | src/components/LifeGrid/LifeGrid.tsx:75 | among the first `n` cells exactly `min(lived, n)` are past |
| LifeGrid.CountCurrent | src/components/LifeGrid/LifeGrid.tsx:76 | there is one current cell iff the current index is at or above the weeks lived and inside the grid, else none |
| LifeGrid.CountAll | src/components/LifeGrid/LifeGrid.tsx:74-76 | every cell is past, current or future |
| LifeGrid.GridCounts | src/components/LifeGrid/LifeGrid.tsx:14-16 | the grid has `min(lived, total)` past cells, one current cell iff lived < total, and the rest future |
| LifeGrid.GridMatchesStats | src/components/LifeGrid/LifeGrid.tsx:14-16 | the grid's past and future cells number the summary's lived and remaining weeks |
| LifeGrid.LabelledRows | src/components/LifeGrid/LifeGrid.tsx:55-56 | the rows showing a year label are rows of the grid whose year is a multiple of 5, in increasing order |
| LifeGrid.LabelledRowsEvery5 | src/components/LifeGrid/LifeGrid.tsx:55-56 | the labelled rows are exactly 0, 5, 10, ..., one per started block of five years |
| LifeGridSvg.BuildCircles | src/components/LifeGridSVG/LifeGridSVG.tsx:36-57 | `rows·52` circles; circle `i` has index `i`, row `i / 52`, column `i % 52`, and is past below the weeks lived, current at them, else future |
| LifeGridSvg.CirclesAreCells | src/components/LifeGridSVG/LifeGridSVG.tsx:44-49 | circle `i` lies in the grid and carries the state of cell `i` with the unclamped current index |
| LifeGridSvg.CurrentCircles | src/components/LifeGridSVG/LifeGridSVG.tsx:33-34 | one current circle iff lived < rows·52; once all weeks are lived every circle is past |
| LifeGridSvg.ClampInvisible | src/components/LifeGridSVG/LifeGridSVG.tsx:33-34 | inside the grid the unclamped and clamped current index give every cell the same state |
| LifeGridSvg.OnKeyDown | src/components/LifeGridSVG/LifeGridSVG.tsx:82-102 | no focus ⇒ nothing happens; Enter or Space report the focused index iff a callback exists; only the arrows move focus; any known key is handled |
| LifeGridSvg.FocusStaysInGrid | src/components/LifeGridSVG/LifeGridSVG.tsx:85-96 | a focus inside the grid stays inside it |
| LifeGridSvg.ArrowMoves | src/components/LifeGridSVG/LifeGridSVG.tsx:85-96 | the arrows move one cell or one row, stopping at the first or last cell; down from the last row goes to the last cell |
| LifeGridSvg.ArrowsUndo | src/components/LifeGridSVG/LifeGridSVG.tsx:85-96 | away from the edges, right undoes left and down undoes up |
| LifeGridSvg.TapStep | src/components/LifeGridSVG/LifeGridSVG.tsx:116-125 | a tap fires iff it is on the last tapped circle less than 300 ms later; firing forgets the last tap, otherwise this tap becomes the last |
| LifeGridSvg.TwoQuickTaps | src/components/LifeGridSVG/LifeGridSVG.tsx:116-125 | of two quick taps on one circle exactly one fires |
| LifeGridSvg.QuickRunPairs | src/components/LifeGridSVG/LifeGridSVG.tsx:113-125 | in a run of quick taps on one circle, taps pair up: from no remembered tap, exactly the 2nd, 4th, ... fire |
| LifeGridSvg.TapDetector.constructor | src/components/LifeGridSVG/LifeGridSVG.tsx:113 | no tap is remembered at first |
| LifeGridSvg.TapDetector.HandleTouchEnd | src/components/LifeGridSVG/LifeGridSVG.tsx:116-125 | fires and updates the remembered tap as one tap step does |

## Left out

- The React rendering, hooks, animation, pixel layout, tooltips, focus and scroll calls, and the label texts are presentation and are not modelled.
- Time zones and daylight saving are not modelled: local time is UTC. The week helpers therefore never show the one-day daylight-saving shift.
- The JavaScript `Date` text parser is not modelled. Date-valued texts are `YYYY-MM-DD` (`FormatIso`); `ParseIsoDate` is its inverse and stands for `new Date(text)`.
- The clock is a parameter: "now" is passed in, in milliseconds.
- Dates.IsValidDateParts: `Number(text)` is not parsed; each part arrives as `Integer(n)` or `NonInteger` (the `Number` datatype).
- Stats.ComputeStats: the floating-point `percent` field is left out.
- Onboarding.Validate: the message texts are replaced by the check that failed. The age uses `AgeBreakdownCorrected`, whose years are proved equal to `ageBreakdown`'s.
- Onboarding: the expectancy field is `Finite(r)` or `NonFinite`; the text-to-number conversion of the input is not modelled.
- `listMarks`, `addMark`, `updateMark`, `removeMark`, `setExpectancy`, `exportData`, `importData` and `resetAll` are not in src/lib/storage.ts. They are modelled as the store calls a screen makes (`StoreApi.StoreCall`), not as state.
- The settings screens (file picking, download, reload) are not modelled.
- The Firebase SDK calls (app set-up, authentication pop-up, document reads and writes) are abstracted: the remote document is an `Option<RemoteDoc>` field of `SyncEngine`, and signed-in is a flag.
- The race between `readRemote` and `setDoc` across devices is not modelled, since each engine operation is atomic.
- Sync.SyncEngine.PushSnapshot: the new version and time (`Date.now()`) are parameters.
- JSON numbers are integers. Text that is not JSON is the single value `Malformed`, and `JSON.parse` of a stored text is the `Text` datatype.
- Storage.DobOf: it returns any non-null JSON value stored under `dobISO`, as the code does (the TypeScript type claims a string).
- Merging.MergeObjects: objects keep their keys in insertion order and `k in out` sees only own keys. JavaScript lists integer-like keys ("0", "12") first in ascending order, in spread, assignment and `JSON.parse` alike, which also changes the `JSON.stringify` text the array de-duplication compares; and `in` also sees inherited names such as `toString` or `__proto__`. The model assumes keys are neither.
- Strings.LexLess: a character is a Unicode scalar value, standing for one UTF-16 code unit of the basic multilingual plane; characters outside it (an emoji such as U+1F600) and lone surrogates have no model. JavaScript compares such a character by its surrogate code units, which sort before U+E000..U+FFFF, so `MarksPanel.Tags` (via `sort()`) and `MarksPanel.MatchesQuery` (via `includes` and `toLowerCase`) are modelled only for titles, notes, tags and queries within that plane.
- Strings.ToLower: lower-cases only A–Z and the Latin-1 capitals; the rest of Unicode's case mapping (such as 'Σ' or 'İ', whose lower case differs in length or by context) is not modelled.
- MarksPanel.QueryNormalised: holds for the modelled `ToLower`; it is not proved for full Unicode case mapping.
- Dates.IsoWeek: a date whose week's Thursday falls in a year 0..99 (early January of year 100, or late December of year −1) is counted from 1 January 19xx, as `Date.UTC` reads it; the model computes the same value but promises the 1..53 range only outside that case.
- Dates.IsoWeeksInYear: year −1 is read as is while its 31 December may have its Thursday in year 0, so the 52-or-53 result is promised for every other year only.
- Dates.AgeBreakdown: `new Date(y, m, 0)` would also read a current year 0..99 as 19xx; "now" is taken to be after year 99.
- Sync.PullTwice: proved only for remote payloads without repeated array items (`Normal`); `Sync.PullTwiceNeedsNormal` shows it fails otherwise. It also takes `getLocal` to return exactly the text `applyMerged` last wrote.
- Merging.MergeTwice: idempotence is proved only for duplicate-free values (`Normal`). `Merging.MergeTwiceNeedsNormal` shows it fails otherwise.
- Sync.SyncEngine.PullAndMerge: the code passes local as the second argument of `deepMergeUnique(remote, local)`, so where both sides hold a scalar the local one wins; the model follows the code, not the remote-wins reading of a pull. It keeps the payload as written, without `Merging.Normalise`.
- MarkModal and MarksPanel take the DOB as `Option<string>`, as their props declare; `Storage.DobOf` returns whatever non-null JSON is stored, so a stored non-string DOB is outside what the screens are modelled for.
- Marks.GroupByWeekIndex: a stored mark's `weekIndex` is an integer (`StoreApi.LifeMark`). A mark submitted while the stored DOB is not a date carries `NaN` (the form's `Num.NaN`), and the `Map` would file it under the `NaN` key; `Marks` and `MarksPanel` do not model such stored marks.
- LifeGridSvg.TapDetector.HandleTouchEnd: `fired` means the double tap was detected; the optional callback it then calls is not modelled.

## Findings

| source | as written | input that shows it | evidently intended | confidence | as-written member | corrected member |
|---|---|---|---|---|---|---|
| src/lib/firebaseSync.ts:144 | the remote payload is merged as it is, so its own repeated array items survive the first pull and are dropped by the second | payload `{"k":[1,1]}`, local `{}`: first pull `{"k":[1,1]}`, second `{"k":[1]}` | a repeated pull of an unchanged remote changes nothing | medium, not executed | Sync.PullTwiceNeedsNormal | Sync.PullTwiceNormalised |
| src/lib/date.ts:63-67 | a negative day difference borrows the length of the month before now's month, without regard to the birth day | birth 1990-01-31, now 2023-03-01: 33 years, 1 month, −2 days | days never negative (33 years, 1 month, 1 day) | high, not executed | Dates.AgeBreakdownNegativeDays | Dates.AgeBreakdownCorrected |
