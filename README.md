# Organizer core: calendar index, month grid, file tree, notes and tasks

This project models the data logic of a single-page personal organizer
(`src/App.js`) and proves properties of it. The React views, hooks and
browser storage are not modelled. The model covers:

- **The calendar index `tasksByDate`** (`calendar_index.dfy`, `recurrence.dfy`,
  `dates.dfy`). It maps each calendar day to the bucket of tasks shown on that
  day. Each entry carries the task's position in the task list.
  - A one-off task, or a recurring task without an end date, lands on its start date only.
  - A recurring task with an end date is expanded day by day over the inclusive
    range [start, end], using its frequency's test: daily, weekly (same
    weekday), monthly (same day of month, clamped to month ends) or yearly
    (same month and day).
  - `TasksByDate` and `AddTaskOccurrences` are methods that keep the source's
    loops and its mutable accumulator (a `map`). `AddTaskOccurrences` is proved
    against `OccursOn`, the days a task occurs on; `TasksByDate` is proved
    against `Bucket`, a definition of what each day's bucket must hold.
- **The month grid `calendarDays`** (`month_grid.dfy`): 35 cells, Sunday first,
  filled by the source's loop.
- **`removeFile` and `getAllDescendantIds`** (`file_tree.dfy`): delete a file or
  folder record and everything collected below it, release the preview URLs of
  the deleted files, and keep the other records in order.
- **Notes** (`notes.dfy`): `toggleNote`, `addNote`, `updateNote` and `deleteNote`
  on the list of notes and the list of open note ids.
- **Tasks** (`task_list.dfy`, `text.dfy`): `addTask` (with JavaScript's `trim`)
  and `removeTask`, and how the rebuilt calendar index relates to the one
  before each edit.

Dates are civil dates `CivilDate(year, month, day)` in the proleptic Gregorian
calendar. Months are numbered 1..12, where JavaScript's `getMonth()` gives
0..11. Weekdays are 0 (Sunday) .. 6 (Saturday), as `getDay()` gives them.
Weekdays are computed through a day count from 0001-01-01. `Le` compares
year, month and day in turn, and `LeIffDayNumber` proves that it agrees with
the day count on valid dates.

Two behaviours of the source are modelled as written:

- The monthly rule's month-end condition also fires for a task that starts on
  the last day of a short month. From February 28, such a task matches March 28
  (same day of the month) and March 31 (month end), so it occurs twice in March.
  `MonthlyFromFebruary28TwiceInMarch` states this.
- The grid always has 35 cells. When a month starts late in the week, its last
  days are not shown. `GridShowsDay` and `August2025DropsLastDay` state this.

## Model

| member | source | states |
|---|---|---|
| CivilDates.DaysInMonth | src/App.js:730-731 | a month has 28 to 31 days; February has 29 days exactly in leap years and 28 otherwise |
| CivilDates.NextDay | src/App.js:752 | the next day is a valid date strictly after the current one |
| CivilDates.NextDayNumber | src/App.js:752 | moving to the next day advances the day count by exactly one, across month and year ends |
| CivilDates.NextDayWeekday | src/App.js:752 | the weekday advances by one, cyclically, from one day to the next |
| CivilDates.Le | src/App.js:719 | the loop's `currentDate <= endDate` on calendar days: every day is before-or-equal itself, and a day is before-or-equal another only if its year is not later |
| CivilDates.LeTotalOrder | src/App.js:719 | the comparison is a total order: reflexive, antisymmetric, transitive, and any two days are comparable |
| CivilDates.Weekday | src/App.js:706 | `getDay()` of a day is a number from 0 (Sunday) to 6 (Saturday); how it moves from day to day is stated by the next rows |
| CivilDates.LeIffDayNumber | src/App.js:719 | the loop's date comparison (calendar order) agrees with the order of day counts |
| CivilDates.DayNumberInjective | src/App.js:746 | distinct valid days have distinct day counts, so no day other than the loop's current day shares its count and only the current day's bucket changes in one step |
| CivilDates.SameWeekdayIffWeeksApart | src/App.js:724-727 | two days share a weekday exactly when they are a whole number of weeks apart |
| CivilDates.WeekdayInMonth | src/App.js:762 | day k of a month falls k - 1 weekdays after the first of that month |
| Recurrence.ShouldAdd | src/App.js:720-743 | the per-day test of the loop: daily always passes; weekly passes exactly on the start's weekday; monthly passes only on the start's day of the month or a month's last day; yearly passes exactly on the start's month and day; any other frequency never passes |
| Recurrence.OccursOn | src/App.js:698-753 | every day a task occurs on is a real calendar day; which days those are is stated by the lemmas below |
| Recurrence.SingleOccurrence | src/App.js:698-716 | a one-off task, or a recurring task with no end date, occurs on its start date and on no other day |
| Recurrence.RangedWithinBounds | src/App.js:719 | a recurring task with an end date occurs only between its start and its end, both included |
| Recurrence.EndBeforeStartNoOccurrence | src/App.js:711-719 | with the end before the start, a recurring task occurs on no day at all, not even its start |
| Recurrence.DailyEveryDay | src/App.js:722-723 | a daily task occurs on every day of its range and on no other day |
| Recurrence.WeeklyWholeWeeks | src/App.js:706-727 | a weekly task occurs exactly on the days of its range a whole number of weeks after its start, so always on the start's weekday |
| Recurrence.MonthlyDays | src/App.js:728-738 | a monthly task occurs only on its start's day of the month or on a month's last day; on a last day that is not its start's day of the month, only when the start day is missing from that month or the start was itself a month end |
| Recurrence.MonthlyClamped | src/App.js:733-734 | in every month of the range a monthly task occurs on its start day, or on the month's last day when the month is too short |
| Recurrence.MonthlyMonthEnd | src/App.js:735 | a monthly task that starts on a month end occurs on the last day of every month in its range |
| Recurrence.YearlySameMonthAndDay | src/App.js:739-742 | a yearly task occurs only on its start's month and day; a February 29 start occurs only in leap years |
| Recurrence.YearlyOnAnniversary | src/App.js:739-742 | a yearly task with an end date occurs exactly on the days of its range whose month and day are the start's |
| Recurrence.UnrecognisedRangedNever | src/App.js:720-743 | a task with an unknown frequency and an end date occurs on no day |
| Recurrence.MonthlyFromJanuary31 | src/App.js:728-738 | monthly from 2024-01-31 to 2024-04-30 occurs exactly on Jan 31, Feb 29, Mar 31 and Apr 30 |
| Recurrence.MonthlyFromFebruary28TwiceInMarch | src/App.js:733-735 | monthly from 2023-02-28 occurs on both March 28 and March 31, but not March 30 |
| Recurrence.YearlyThreeOccurrences | src/App.js:739-742 | yearly from 2023-03-15 to 2025-03-15 occurs exactly three times, on March 15 of each year |
| CalendarIndex.Push | src/App.js:746-748 | pushing creates the key's bucket if missing, appends the entry to it and leaves every other bucket as it was |
| CalendarIndex.AddTaskOccurrences | src/App.js:689-756 | the reduce body for task i appends (task, i) to the bucket of exactly the days the task occurs on, changes no other bucket and creates no empty bucket |
| CalendarIndex.TasksByDate | src/App.js:688-757 | the result is the calendar index of the task list: no empty buckets, and every day's bucket is the day's `Bucket` |
| CalendarIndex.BucketMembership | src/App.js:692-748 | an entry is in a day's bucket exactly when it is (tasks[k], k) for a task k that occurs on that day |
| CalendarIndex.BucketAscending | src/App.js:689 | within a bucket the task positions strictly increase: list order, each task at most once |
| CalendarIndex.IndexedIffOccurs | src/App.js:688-757 | task i appears in the index under day d exactly when it occurs on d |
| CalendarIndex.IndexEntriesSound | src/App.js:692 | every index entry points back at the task at its position, and that task occurs on the entry's day |
| CalendarIndex.SingleBucket | src/App.js:698-716 | a one-off task, or a recurring task with no end date, appears in exactly one bucket: its start date's |
| CalendarIndex.IndexDeterministic | src/App.js:757 | two indexes of the same task list are equal, so recomputing for an unchanged list changes nothing |
| CalendarIndex.BucketAppend | src/App.js:554-560 | appending a task changes only the buckets of its own days, each by one entry at the end |
| MonthGrid.FirstWeekday | src/App.js:762 | the number of leading blank cells is a weekday, 0 to 6 |
| MonthGrid.CalendarDays | src/App.js:765-770 | the grid has 35 cells and cell i is day i - firstDayOfMonth + 1 when that is a day of the month, else empty |
| MonthGrid.GridCellInItsColumn | src/App.js:767-769 | every filled cell is a valid day of the displayed month whose weekday is the cell's column |
| MonthGrid.GridShowsDay | src/App.js:767-769 | day k is shown, in cell firstDayOfMonth + k - 1, exactly when k <= 35 - firstDayOfMonth; later days are dropped |
| MonthGrid.GridBlanks | src/App.js:769 | a cell is empty exactly when it lies before the first or after the last day of the month |
| MonthGrid.April2025 | src/App.js:762-770 | April 2025 has two leading blanks, days 1 to 30 in cells 2 to 31, and three trailing blanks |
| MonthGrid.August2025DropsLastDay | src/App.js:767 | August 2025 starts on a Friday, so its 31st appears in no cell |
| FileTree.GatherChildren | src/App.js:656-663 | one folder's step: its subfolders are marked for descent and its files are collected, and only collected ids are added |
| FileTree.DescendantIds | src/App.js:654-665 | the returned ids are exactly the collected ones: the target, every folder reached through folders below it, and every file directly inside one of those |
| FileTree.Without | src/App.js:682 | the kept records are exactly those whose id is not deleted |
| FileTree.FindFile | src/App.js:675 | the found record is the first file record with the requested id, as `find` returns; when none is found no file has that id |
| FileTree.RemoveFile | src/App.js:652-684 | when no record has the id, the list is returned unchanged and nothing is released; otherwise the records of every collected id are removed and the previews of the deleted files are released |
| FileTree.TargetDeleted | src/App.js:655 | the requested id is always among the deleted ids |
| FileTree.InsideDeletedFolderDeleted | src/App.js:656-662 | with unique ids, whatever sits directly inside a deleted folder is deleted too |
| FileTree.WithoutConcat | src/App.js:682 | filtering distributes over concatenation, so the kept records stay in their original order |
| FileTree.WithoutNothing | src/App.js:682 | filtering out ids that no record has changes nothing |
| FileTree.ReleasedPreviews | src/App.js:674-679 | every released URL is the non-empty `src` of a file record whose id is deleted |
| FileTree.ReleasedAreDeletedFiles | src/App.js:674-679 | with unique ids, the released previews are exactly the non-empty `src` values of the deleted file records |
| Text.TrimStart | src/App.js:552 | leading whitespace is dropped, the rest is kept, and the result does not start with whitespace |
| Text.TrimEnd | src/App.js:552 | trailing whitespace is dropped, the rest is kept, and the result does not end with whitespace |
| Text.Trim | src/App.js:552 | `trim()` never lengthens the text, and its result neither starts nor ends with whitespace |
| Text.TrimIsMiddle | src/App.js:555 | trimmed text is a contiguous part of the input with only whitespace around it |
| Text.TrimEmptyIffBlank | src/App.js:552 | text trims to nothing exactly when it is all whitespace |
| Text.TrimIdempotent | src/App.js:555 | trimming twice gives the same text as trimming once |
| TaskList.AddTask | src/App.js:551-567 | blank text or a missing date leaves the list unchanged; otherwise one task is appended, whose text is `Trim(input)` and non-empty, its date and frequency, and its end date only when the frequency is not once |
| TaskList.RemoveTask | src/App.js:574-576 | the task at the index is dropped and the others are kept in order; an index outside the list changes nothing |
| TaskList.RemoveTaskIsWithout | src/App.js:575 | after removal, the tasks before k keep their positions and those after k move down by one |
| TaskList.BucketsWithout | src/App.js:575 | removing task k drops it from every bucket and moves the positions of later tasks down by one |
| TaskList.RemoveTaskBuckets | src/App.js:574-576 | after `removeTask(k)`, every day's bucket is the old one without task k and with later positions shifted down |
| TaskList.RemoveTaskIndex | src/App.js:574-576 | the index rebuilt after `removeTask(k)` is the old index with task k dropped and later positions shifted down |
| TaskList.AddTaskIndex | src/App.js:551-567 | after `addTask`, every old bucket is a prefix of the new one, and at most one entry is added to it |
| Notes.RemoveId | src/App.js:181 | the filtered ids are exactly the old ids other than the removed one |
| Notes.ToggleNote | src/App.js:179-183 | toggling opens a closed note and closes an open one; other ids stay open or closed as they were |
| Notes.UpdateNote | src/App.js:206-211 | the notes keep their ids and order; notes with the id get the new content, the others keep theirs |
| Notes.RemoveNote | src/App.js:218 | the kept notes are exactly the old notes whose id differs |
| Notes.DeleteNote | src/App.js:217-221 | the note is removed from the notes and its id from the open ids; everything else is kept |
| Notes.AddNote | src/App.js:189-199 | blank content adds nothing; otherwise the note is appended with its content as typed, and the open ids become `ToggleNote` of the old open ids, so a new id is opened and every other note keeps its state |
| Notes.RemoveAbsentId | src/App.js:181 | removing an id that is not open changes nothing |
| Notes.RemoveIdConcat | src/App.js:181 | filtering distributes over concatenation, so the remaining open ids keep their order |
| Notes.ToggleTwiceRestores | src/App.js:179-183 | opening a closed note and toggling it again restores the open list exactly |
| Notes.RemoveIdNoDuplicates | src/App.js:181 | filtering keeps the open list free of duplicates |
| Notes.ToggleNoDuplicates | src/App.js:179-183 | toggling keeps the open list free of duplicates |
| Notes.UpdateNoteLastWins | src/App.js:206-211 | updating a note twice is the same as updating it once with the later content |
| Notes.RemoveNoteConcat | src/App.js:218 | deleting a note keeps the other notes in their original order |

## Left out

- Time zones: the index key is `toAESTDateStr`, the date as seen in Sydney. The model keys buckets by the civil date itself. This matches the source only when the browser's local day is the Sydney day.
- Parsing of `task.date` and `task.endDate` by `new Date(...)`. This covers date-only strings read as UTC midnight, invalid dates, and daylight-saving shifts at local midnight. Tasks carry civil dates that are already valid.
- The time of day of a task (`taskTime`): it is dropped by the midnight normalisation and is not part of the model.
- Years 0 to 99, which the JavaScript `Date` constructor remaps to 1900 to 1999. The model uses the proleptic Gregorian year as given.
- The React state, hooks, JSX rendering and `localStorage` persistence. Each operation is modelled on the values it reads and returns.
- Clearing the form fields after `addTask` and `addNote`: that is view state only.
- `Date.now()` as the id of a new note: `AddNote` takes the id as a parameter.
- `URL.createObjectURL` and `URL.revokeObjectURL`: `RemoveFile` returns the set of released preview URLs instead of revoking them.
- FileTree.DescendantIds: it returns the collected ids as a set. The order and repetitions of the source's array are not modelled; only membership is used by the final `filter`.
- FileTree.DescendantIds: the source's recursion does not terminate when parent links form a cycle. The model computes the finite closure instead.
- The task editing modal (`saveEditedTask`), the login page, month navigation (`changeMonth`, go-to-date), file upload and folder creation are not part of this model.
