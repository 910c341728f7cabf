# Class assignment tracker: a Dafny model of its store and its view logic

The tracker keeps classes and their assignments in an IndexedDB database and shows them in
several views. This project models the parts of it that decide something:

- **The record store** (`records.dfy`, module `RecordStore`). It holds the two object stores, `classes` and
  `assignments`. Each has its own auto-increment key generator starting at 1, and `classes` has a
  unique index on `name`. The operations are `addClass`, `getAllClasses`, `deleteClass` (with
  its cascade), `addAssignment`, `getAssignmentsByClass` (with its stable sort by due date),
  `updateAssignment` (a field-wise merge), `deleteAssignment` and `getAllUpcomingAssignments`.
  `database.dfy` (module `AssignmentDatabase`) wraps each operation in the "database not
  initialized" guard of the typed service.
- **Slugs** (`slugs.dfy`). `generateSlug`, `normalizeSlug` and the `validateSlug` pattern.
- **Date and time helpers** (`datetime.dfy`). These are:
  - the four time-input patterns of `formatTimeInput` and the 12-hour formatting;
  - month-name lookup;
  - the two-digit-year pivot;
  - the day arithmetic of `getDueDateStatus`.
- **Dashboard and tasks list** (`duedays.dfy`, `taskslist.dfy`, `dashboard.dfy`). They cover:
  - the buckets (overdue, today, tomorrow, next 7 days, without dates) computed from the incomplete assignments;
  - the list each view shows;
  - the overdue/other split of the render;
  - the empty-state texts.
- **Type columns and the history filter** (`columns.dfy`). The Homework/Projects/Exams/Other
  columns of the assignment list, the history view's type filter and its per-type buttons.
- **The assignment form** (`form.dfy`). Its initial state, submit validation, due-date composition and reset.
- **The layout** (`layout.dfy`). The class the current path selects, class selection and class deletion.
- **The legacy page script** (`legacyapp.dfy`, module `LegacyApp`). The add-class,
  delete-class, select-class and add-assignment handlers and the due badge of an assignment card.

`common.dfy` and `text.dfy` hold shared helpers. `common.dfy` has `Option`/`Result`, order-preserving `Filter` and
its partition lemmas. `text.dfy` has the JavaScript whitespace set, `trim`, ASCII
`toLowerCase`, decimal digits and zero padding.

### How the model represents the system

- **Due dates.** A due date is a number of milliseconds since the epoch (`Option<int>`, `None` for
  "no due date"). A day is the UTC day number `t / 86400000`. The components compare
  `toISOString().split('T')[0]` strings, and for years 0 to 9999 comparing those strings is the same as comparing
  day numbers.
- **The clock.** The clock is a parameter, and so are the "today", "tomorrow" and "in seven days" keys.
- **Store records and class lists.** Store records are given as the enumeration `getAll` produces, in ascending key
  order. The dashboard and history views take the incomplete/completed lists as
  parameters. The layout takes its class list, with optional slugs, as a parameter.
- **Side effects.** Alerts become returned messages. `confirm` becomes a boolean parameter. `router.push`
  becomes the returned path.

### Properties proved

- **Store.** The store stays well-formed across any sequence of operations, and class names stay unique.
- **Store queries.**
  - A class query returns exactly that class's assignments, as a permutation of them.
  - The result is ordered by due date with undated ones last, and ties keep key order.
  - The upcoming query returns exactly the incomplete, dated, not-yet-due ones, in ascending due order.
- **Store updates.**
  - A merge overwrites only the fields present in the patch.
  - An update with no fields changes nothing, and the same update applied twice equals applying it once.
  - Deleting a class removes exactly its assignments.
- **Slugs.**
  - Both rewrites produce clean slugs (only `[a-z0-9_-]`, no `--`, no edge hyphen).
  - Both rewrites keep the letters, digits and underscores of the lower-cased input, in order.
  - A whitespace run between two words becomes exactly one hyphen.
  - `normalizeSlug` is idempotent, and a generated slug is already normal.
  - `validateSlug` accepts exactly hyphen-joined lower-case alphanumeric runs of at most 100 characters.
  - Every valid slug is a fixed point of both rewrites.
- **`formatTimeInput`.**
  - It succeeds exactly when one of the four patterns parses to a time in range.
  - Both of its outputs parse back to the same time, and reformatting either output gives the same result.
  - Some inputs are accepted unexpectedly: `13am` is read as 13:00 and `0pm` as 12:00. The `am`/`pm`
    conversion only adds or removes 12.
- **Month lookup.**
  - It ignores case.
  - A full or short month name resolves to its month.
  - The short-name fallback never changes the answer.
  - Ambiguous prefixes resolve to the first matching month (`ma` is March, `ju` is June).
- **Year pivot.** A year below 100 is pivoted to 1950–2049. This includes a padded three-digit year such as
  `099`, which becomes 1999.
- **Dashboard.**
  - Overdue, undated and dated-from-today tasks share out the incomplete list.
  - Today's bucket lies inside the seven-day bucket.
  - Rendered on the day it was loaded, the today view shows the overdue cards followed by today's.
- **Tasks list.** It renders every task exactly once, overdue ones first.
- **Columns.**
  - The four columns share out an assignment list.
  - Each history filter button's count equals the length of the list that clicking it selects.
  - A button is shown iff that list is non-empty.
- **Form.** A blank title is rejected before a missing type. After a successful add the form is
  blank, so submitting again is rejected.
- **Layout.**
  - Selecting a class and then loading its path selects the same class again.
  - A `/managerX` path is read as a class slug.
- **Legacy card badge.** The legacy badge calls more cards overdue than the typed due-date status does.
  Any time in the past is overdue for it, while the typed status waits a full day.

## Model

| member | source | states |
|---|---|---|
| RecordStore.EmptyValid | database.js:27-35 | A freshly created database is well-formed: both stores are empty and both key generators are at 1. |
| RecordStore.AddClass | database.js:41-55 | Adding fails with a constraint error exactly when some class already has this exact name. Otherwise the new class gets the generator's next key, which lies above every key in the store, and the generator moves on by one, so a key is never handed out twice. The class carries the given name and time, and every other record is unchanged. |
| RecordStore.GetAllClasses | database.js:57-66 | Returns every stored class and nothing else, in ascending key order. |
| RecordStore.ValuesInKeyOrder | database.js:62 | Lists every value of a keyed collection exactly once per key, in ascending key order. |
| RecordStore.DeleteClass | database.js:68-92 | Removes the class key. It removes exactly the assignments whose class id is the deleted id, even when no such class exists. Everything else is unchanged. |
| RecordStore.AddAssignment | database.js:94-109 | Stores the draft under the generator's next key, above every key in the store, and moves the generator on by one. The record has `completed` false and the creation time. The class id is not checked. Other records are unchanged. |
| RecordStore.AllAssignments | database.js:170 | The store enumeration returns every stored assignment and nothing else, in ascending key order. |
| RecordStore.CompareDueFlip | database.js:121-126 | The due-date comparator is antisymmetric. |
| RecordStore.CompareDueTrans | database.js:121-126 | The due-date comparator is transitive, and strictly so when either step is strict. |
| RecordStore.SortByDue | database.js:121-126 | Sorting is a permutation of its input. |
| RecordStore.SortByDueOrdered | database.js:121-126 | The stable sort of a key-ordered list is ordered by due date with undated entries last. Equal dates keep key order. |
| RecordStore.FilterKeepsIdsAscending | database.js:117-119 | Filtering a key-ordered list keeps it key-ordered. |
| RecordStore.GetAssignmentsByClass | database.js:111-131 | The result holds exactly the assignments of the class, as a permutation of them. It is due-ordered, with every dated assignment before every undated one. |
| RecordStore.DueOrderedPutsDatedFirst | database.js:121-126 | In a due-ordered list, dated entries come first, in ascending due date. |
| RecordStore.GetAllUpcomingAssignments | database.js:165-182 | The result holds exactly the incomplete assignments with a due date at or after now, as a permutation of them, in ascending due date. Equal due dates keep ascending key order, as the stable sort over `getAll` leaves them. |
| RecordStore.FilterTwice | database.js:175-177 | Filtering "incomplete and dated" and then "due at or after now" equals the single upcoming filter. |
| RecordStore.UpdateAssignment | database.js:133-152 | Fails with not-found exactly when the key is absent. Otherwise each field present in the patch is overwritten, every other field and record is kept, and the merged record is returned. |
| RecordStore.UpdateWithNoKeys | database.js:142 | An empty patch rewrites the record unchanged. |
| RecordStore.UpdateIdempotent | database.js:138-144 | Applying the same patch twice gives the same store and record as applying it once. |
| RecordStore.DeleteAssignment | database.js:154-163 | Removes only that key and leaves the classes alone. An absent key is a no-op that still succeeds. |
| RecordStore.Step | database.js:41-163 | Every store operation keeps the store well-formed. A rejected add or update leaves it unchanged. |
| RecordStore.Run | database.js:28 | After any sequence of operations from a well-formed store, the store is well-formed and class names are unique. |
| AssignmentDatabase.AddClass | src/utils/database.ts:56-72 | Fails as not initialized before `init`. Otherwise it is the store's add, and the stored class has the given name. |
| AssignmentDatabase.GetAllClasses | src/utils/database.ts:74-85 | Fails as not initialized before `init`. Otherwise it returns exactly the stored classes. |
| AssignmentDatabase.DeleteClass | src/utils/database.ts:87-113 | Fails as not initialized before `init`. Otherwise the class is gone and no assignment of it remains. |
| AssignmentDatabase.AddAssignment | src/utils/database.ts:115-132 | Fails as not initialized before `init`. Otherwise the new assignment is stored incomplete. |
| AssignmentDatabase.GetAssignmentsByClass | src/utils/database.ts:134-156 | Fails as not initialized before `init`. Otherwise every returned assignment belongs to the class. |
| AssignmentDatabase.UpdateAssignment | src/utils/database.ts:158-179 | Fails as not initialized before `init`, and with not-found for an absent key. |
| AssignmentDatabase.DeleteAssignment | src/utils/database.ts:181-192 | Fails as not initialized before `init`. Otherwise the key is absent afterwards. |
| AssignmentDatabase.GetAllUpcomingAssignments | src/utils/database.ts:194-213 | Fails as not initialized before `init`. Otherwise every result is incomplete and due at or after now. |
| Slugs.CollapseRuns | src/utils/slugHelpers.ts:8-9 | A global `X+` replacement is never longer than its input and starts where the input starts. Every output character is the replacement or a non-run character of the input, and no two replacements end up adjacent. |
| Slugs.CollapseKeepsRest | src/utils/slugHelpers.ts:8-9 | The replacement keeps the rest of the text: the characters that are neither run characters nor the replacement come out in the same order and number. |
| Slugs.CollapseRunToOne | src/utils/slugHelpers.ts:8-9 | `X+` is greedy: a whole run of run characters, of any length, followed by a non-run character or the end becomes exactly one replacement character. |
| Slugs.CollapseCopiesPrefix | src/utils/slugHelpers.ts:8-9 | Text without run characters is copied unchanged in front of whatever the rest becomes. |
| Slugs.StripKeepsNonHyphen | src/utils/slugHelpers.ts:10 | Stripping edge hyphens removes only hyphens: every other character is kept, in order. |
| Slugs.StripEdgeHyphens | src/utils/slugHelpers.ts:10 | Removing one hyphen at each end leaves no edge hyphen when the input has no `--`. |
| Slugs.Kept | src/utils/slugHelpers.ts:4-7 | After lower-casing, trimming and either character filter, every character is a slug character or whitespace. |
| Slugs.Finish | src/utils/slugHelpers.ts:9-10 | Collapsing hyphen runs and stripping edge hyphens gives a clean slug and keeps every word character in order. An already clean slug is left unchanged. |
| Slugs.GenerateSlug | src/utils/slugHelpers.ts:3-11 | A generated slug uses only `[a-z0-9_-]`, has no `--` and has no hyphen at either end. Its letters, digits and underscores are exactly those of the lower-cased name, in order. |
| Slugs.NormalizeSlug | src/utils/slugHelpers.ts:19-26 | A normalized slug has the same clean shape. Its letters, digits and underscores are exactly those of the lower-cased input, in order. |
| Slugs.GenerateJoinsWords | src/utils/slugHelpers.ts:3-11 | Two clean words separated by any non-empty whitespace generate the two words joined by a single hyphen. |
| Slugs.AfterAlnumIff | src/utils/slugHelpers.ts:15 | Matching the tail of the slug pattern is equivalent to being alphanumerics and single inner hyphens not ending in a hyphen. |
| Slugs.ValidateSlugIff | src/utils/slugHelpers.ts:13-17 | A slug is valid iff it is non-empty lower-case alphanumeric runs joined by single hyphens and at most 100 characters long. |
| Slugs.ValidateSlugRejects | src/utils/slugHelpers.ts:13-17 | The empty string, edge hyphens, `--`, upper case, `_` and whitespace are each rejected. |
| Slugs.CollapseWithoutRun | src/utils/slugHelpers.ts:8 | A run replacement changes nothing when no run character occurs. |
| Slugs.CollapseHyphensWithoutDouble | src/utils/slugHelpers.ts:9 | Collapsing hyphen runs changes nothing when there is no `--`. |
| Slugs.CleanIsFixedPoint | src/utils/slugHelpers.ts:3-26 | A clean string passes through both rewrites unchanged. |
| Slugs.NormalizeIdempotent | src/utils/slugHelpers.ts:19-26 | Normalizing twice equals normalizing once. |
| Slugs.GenerateIsNormal | src/utils/slugHelpers.ts:3-26 | A generated slug is unchanged by normalizing and by generating again. |
| Slugs.ValidSlugIsFixedPoint | src/utils/slugHelpers.ts:3-26 | Every valid slug is a fixed point of both rewrites. |
| DateTime.MeridiemFormOf | src/utils/dateTimeHelpers.ts:93-96 | Text, optional whitespace and a two-letter `am`/`pm` splits back into the text and that meridiem. |
| DateTime.To24Hour | src/utils/dateTimeHelpers.ts:119-120 | The 12-hour conversion keeps the hour modulo 12. For hours up to 12 it gives a 24-hour value that is in the afternoon iff the suffix is `pm`. |
| DateTime.InRange | src/utils/dateTimeHelpers.ts:107-108 | A parsed time is accepted iff hours are at most 23 and minutes at most 59. |
| DateTime.ParseTime | src/utils/dateTimeHelpers.ts:85-158 | Blank input parses to nothing, and any parsed time is in range. |
| DateTime.DigitStartNotBlank | src/utils/dateTimeHelpers.ts:86 | Input starting with a digit is not blank. |
| DateTime.ParseColonMeridiemText | src/utils/dateTimeHelpers.ts:112-125 | `H:MM`, whitespace and `am`/`pm` parses to the converted hour with those minutes, range-checked. |
| DateTime.ParseHourMeridiemText | src/utils/dateTimeHelpers.ts:126-138 | `H`, whitespace and `am`/`pm` parses to the converted hour at minute 0, range-checked. |
| DateTime.MilitaryParse | src/utils/dateTimeHelpers.ts:139-158 | Three digits read as `H MM` and four as `HH MM`, then range-checked. |
| DateTime.FormatTime12Hour | src/utils/dateTimeHelpers.ts:192-197 | For an in-range hour the text ends in ` AM` before noon and ` PM` from noon. |
| DateTime.FormatTime12HourParts | src/utils/dateTimeHelpers.ts:192-197 | The text is the shown hour, a colon, the padded minute and ` AM` before noon or ` PM` from noon. |
| DateTime.DisplayHourInverse | src/utils/dateTimeHelpers.ts:193-194 | The displayed hour is between 1 and 12, and the conversion back gives the original hour. |
| DateTime.FormatTime12HourCases | src/utils/dateTimeHelpers.ts:192-197 | Hour 0 shows as `12 AM` and hour 12 as `12 PM`. Hours 1–11 show unchanged with AM, and hours 13–23 show less 12 with PM. |
| DateTime.FormatTimeInput | src/utils/dateTimeHelpers.ts:85-172 | Blank input fails. The result succeeds iff the input parses, and its 24-hour text is a zero-padded, in-range `HH:MM`. |
| DateTime.ParseClockText | src/utils/dateTimeHelpers.ts:100-111 | A zero-padded `HH:MM` in range parses back to that time. |
| DateTime.ParseColonText | src/utils/dateTimeHelpers.ts:100-111 | Any text of the `H:MM` shape is read by the first pattern: its two fields, range-checked. |
| DateTime.EndOfDayText | src/utils/dateTimeHelpers.ts:100-111 | The text `23:59` reads as the last minute of the day. |
| DateTime.ClockTextFields | src/utils/dateTimeHelpers.ts:100-104 | An unpadded hour below 100, a colon and a padded minute below 60 has the first pattern's shape, and its fields read back as that hour and minute. |
| DateTime.ParseTime12Text | src/utils/dateTimeHelpers.ts:112-125 | The 12-hour display text parses back to the time it shows. |
| DateTime.ParseDisplayText | src/utils/dateTimeHelpers.ts:112-125 | `H:MM AM` and `H:MM PM` with H from 1 to 12 parse to the 24-hour conversion of H, with the minutes kept. |
| DateTime.ParseClockMeridiem | src/utils/dateTimeHelpers.ts:112-125 | `H:MM`, any blanks and a meridiem parse to the converted hour with the minutes kept, for any spelling of am or pm. |
| DateTime.FormatTimeInputRoundTrip | src/utils/dateTimeHelpers.ts:160-171 | Both outputs parse back to the input's time, and formatting either output again gives the same result. |
| DateTime.HourMeridiemParse | src/utils/dateTimeHelpers.ts:126-138 | `1am`–`12pm` parse to the expected 24-hour time on the hour. |
| DateTime.MeridiemValue | src/utils/dateTimeHelpers.ts:119-120 | `pm`/`PM` mean afternoon and `am`/`AM` mean morning. |
| DateTime.ColonMeridiemParse | src/utils/dateTimeHelpers.ts:112-125 | `H:MMam` and `H:MMpm` with H from 1 to 12 parse to the expected 24-hour time. |
| DateTime.AmKeepsAfternoonHours | src/utils/dateTimeHelpers.ts:126-138 | Because the am conversion only touches hour 12, `13am` to `23am` are accepted as 13:00 to 23:00. |
| DateTime.ZeroPmIsNoon | src/utils/dateTimeHelpers.ts:126-138 | Hour 0 with `pm` gains twelve hours and reads as 12:00. |
| DateTime.PmPastNoonRejected | src/utils/dateTimeHelpers.ts:126-138 | An hour above 12 with `pm` is pushed past 23, so the range check rejects it. |
| DateTime.FindPrefix | src/utils/dateTimeHelpers.ts:185 | The search finds the first name with the given prefix, or -1 when there is none. |
| DateTime.GetMonthIndex | src/utils/dateTimeHelpers.ts:174-190 | The month index is -1 or a month from 0 to 11. |
| DateTime.MonthTables | src/utils/dateTimeHelpers.ts:175-182 | Each short name is the first three letters of its full name, and short names are distinct. |
| DateTime.MonthIndexIsFullNameSearch | src/utils/dateTimeHelpers.ts:184-189 | The short-name fallback never changes the answer of the full-name search. |
| DateTime.MonthIndexIgnoresCase | src/utils/dateTimeHelpers.ts:184 | Names that differ only in case give the same index. |
| DateTime.MonthNamesResolve | src/utils/dateTimeHelpers.ts:174-190 | Any full or short month name, in any case, resolves to its own month. |
| DateTime.AmbiguousPrefixes | src/utils/dateTimeHelpers.ts:185 | `ma` resolves to March, `ju` to June, and `x` to -1. |
| DateTime.PivotYear | src/utils/dateTimeHelpers.ts:40-42 | A year below 100 becomes the year in 1950–2049 with the same last two digits. Other years are kept. |
| DateTime.ExpandYear | src/utils/dateTimeHelpers.ts:39-42 | The expanded year is the typed number or lies at or after 1950. |
| DateTime.ExpandYearCases | src/utils/dateTimeHelpers.ts:39-42 | Two digits below 50 give 20xx and from 50 give 19xx. A value of 100 or more is kept. |
| DateTime.PaddedYearIsPivoted | src/utils/dateTimeHelpers.ts:39-42 | The three-digit year `099` becomes 1999. |
| DateTime.CeilDiv | src/utils/dateTimeHelpers.ts:214 | The integer ceiling of a division: the least q with x at most q times d. |
| DateTime.DueDateStatus | src/utils/dateTimeHelpers.ts:210-225 | The status class is one of overdue, due-today, due-soon or none. |
| DateTime.DueStatusByMillis | src/utils/dateTimeHelpers.ts:210-225 | Overdue iff due at least a day ago. Due-today iff due less than a day ago or now. Due-soon iff due within three days. Otherwise no class, and the text is the formatted date. |
| DateTime.DueStatusPlural | src/utils/dateTimeHelpers.ts:216-221 | Exactly one day gives `day`, and more gives `days`. |
| DueDays.DayKey | src/components/Dashboard.tsx:66 | The day key is the UTC day containing the instant. |
| DueDays.DayBeforeIffBeforeMidnight | src/components/Dashboard.tsx:66-67 | A due day is before today iff the due instant is before today's UTC midnight. |
| TasksList.OverdueInView | src/components/TasksList.tsx:59-61 | Keeps exactly the dated tasks due before today, in order. |
| TasksList.OtherInView | src/components/TasksList.tsx:63-65 | Keeps exactly the undated tasks and those due today or later, in order. |
| TasksList.ViewPartition | src/components/TasksList.tsx:59-65 | The two lists share out the tasks: there is no overlap, and together they are a permutation of the list. |
| TasksList.CardsOf | src/components/TasksList.tsx:83-104 | The cards are one per task, in order, each with the given overdue flag. |
| TasksList.EmptyHeadlinesDistinct | src/components/TasksList.tsx:23-53 | Different views have different empty-state headlines. |
| TasksList.RenderTasks | src/components/TasksList.tsx:67-109 | The empty state shows exactly when there are no tasks. Every card shows a listed task, flagged overdue iff it is overdue. |
| TasksList.RenderShowsEveryTask | src/components/TasksList.tsx:81-106 | Outside the overdue view, every task is rendered exactly once, overdue ones first and each group in list order. |
| TasksList.OverdueViewShowsOverdueOnly | src/components/TasksList.tsx:69-80 | The overdue view shows only the overdue tasks, and all of them when all are overdue. |
| Dashboard.LoadDashboard | src/components/Dashboard.tsx:64-109 | Each bucket holds exactly the incomplete tasks meeting its day condition, in list order. The counts are the bucket sizes. |
| Dashboard.TodayWithinNext7 | src/components/Dashboard.tsx:71-93 | Today's bucket is an ordered sub-list of the seven-day bucket, and so is tomorrow's when tomorrow is in the window. |
| Dashboard.IncompletePartition | src/components/Dashboard.tsx:64-96 | Overdue, undated and dated-from-today share out the incomplete list, so their sizes sum to the total. |
| Dashboard.TodayViewDisjoint | src/components/Dashboard.tsx:252-253 | The today view holds every task due today or earlier, with no task in both parts. |
| Dashboard.EmptySubShowsEntity | src/components/Dashboard.tsx:255 | As written, the today text contains `&apos;` and differs from the tasks-list text. |
| Dashboard.EmptySub | src/components/Dashboard.tsx:248-283 | The corrected empty-state texts agree with the tasks list's. |
| Dashboard.RenderDashboard | src/components/Dashboard.tsx:337-359 | The empty state shows exactly when the view's list is empty, with the view's headline and the corrected sub-text (see Findings). Otherwise the dashboard renders the same cards as the tasks list does. |
| Dashboard.SplitOverdueThenCurrent | src/components/Dashboard.tsx:292-298 | Overdue tasks followed by current ones split back into exactly those two parts. |
| Dashboard.RenderTodayView | src/components/Dashboard.tsx:350-359 | With an overdue part and a current part, the today view renders the overdue cards followed by the current ones. |
| Dashboard.RenderOverdueOnLoadDay | src/components/Dashboard.tsx:351-352 | Rendered on the load day, the overdue view shows exactly the overdue bucket. |
| Dashboard.RenderTodayOnLoadDay | src/components/Dashboard.tsx:350-359 | Rendered on the load day, the today view shows the overdue bucket flagged, then today's tasks unflagged. |
| TypeColumns.OtherIsNoneOfThree | src/components/AssignmentList.tsx:18-21 | Other means none of homework, projects or exams, and a missing type counts as other. |
| TypeColumns.KindIgnoresCase | src/components/AssignmentList.tsx:18-21 | Types differing only in case fall in the same column. |
| TypeColumns.ItemsOfKind | src/components/AssignmentList.tsx:18-20 | Exactly the assignments whose lower-cased type is the given one, in list order. |
| TypeColumns.OtherItems | src/components/AssignmentList.tsx:21 | Exactly the assignments of any other or missing type, in list order. |
| TypeColumns.AssignmentList | src/components/AssignmentList.tsx:46-69 | The empty notice names the class exactly when the list is empty. Otherwise the Homework, Projects and Exams columns are shown, plus Other iff some assignment has another type. |
| TypeColumns.OtherShownIff | src/components/AssignmentList.tsx:65 | The Other group is non-empty iff some assignment is of another or missing type. |
| TypeColumns.ColumnsPartition | src/components/AssignmentList.tsx:18-21 | The four groups share out the list, so their sizes sum to its length. |
| TypeColumns.ShownColumnsCoverList | src/components/AssignmentList.tsx:61-66 | The shown columns together hold every assignment exactly once. |
| TypeColumns.FilterOfKey | src/components/HistoryView.tsx:75-82 | A known key selects its filter, and any other key keeps everything. |
| TypeColumns.FilterOfKeyRoundTrip | src/components/HistoryView.tsx:98-108 | Each button's key selects that button's filter. |
| TypeColumns.FilteredAssignments | src/components/HistoryView.tsx:75-82 | Exactly the completed assignments matching the selected filter, in order. `all` or an unknown key keeps the whole list. |
| TypeColumns.CandidateButtons | src/components/HistoryView.tsx:98-103 | There are five buttons in a fixed order, and the first counts every completed assignment. |
| TypeColumns.ShownButtons | src/components/HistoryView.tsx:104-105 | The shown buttons are exactly those with a positive count, in order. |
| TypeColumns.ButtonCountMatchesFilter | src/components/HistoryView.tsx:99-108 | Each button's count is the length of the list that clicking it selects. |
| TypeColumns.TypeCountsSum | src/components/HistoryView.tsx:99-103 | The four type counts add up to the all-types count. |
| TypeColumns.ButtonShownIff | src/components/HistoryView.tsx:104-108 | A button is shown iff clicking it selects at least one assignment. |
| AssignmentForm.DefaultKind | src/components/AssignmentForm.tsx:33 | The default type is never empty. It is the given default type when that is non-empty. |
| AssignmentForm.Validate | src/components/AssignmentForm.tsx:134-142 | A blank title is reported first. An empty type is reported only when the title is not blank. With both present there is no error. |
| AssignmentForm.BlankForm | src/components/AssignmentForm.tsx:161-169 | The reset form has empty fields and the default type. |
| AssignmentForm.InitialForm | src/components/AssignmentForm.tsx:31-37 | Without initial data the form is blank. With a typed assignment it starts with that type, and the type is never empty. |
| AssignmentForm.ComposeDueDate | src/components/AssignmentForm.tsx:144-151 | There is no due date iff no date is set. Otherwise it is the date, then `T`, then the time with `:00`, or `23:59:59` when no time is set. |
| AssignmentForm.SubmissionOf | src/components/AssignmentForm.tsx:153-158 | The submitted title and description are trimmed. The title is empty iff it was blank, and the due date is the composed one. |
| AssignmentForm.HandleSubmit | src/components/AssignmentForm.tsx:131-170 | A blank title is rejected first and an empty type second, and a rejection leaves the form unchanged. Otherwise the trimmed submission is passed on, and the form resets when adding and stays when editing. |
| AssignmentForm.SecondAddIsRejected | src/components/AssignmentForm.tsx:131-169 | A non-blank title with a type is accepted. The form is then blank, so submitting again is rejected for the title. |
| AssignmentForm.AcceptedAddResets | src/components/AssignmentForm.tsx:152-169 | A form that passes both checks submits its record and, in add mode, is reset to the blank form. |
| AssignmentForm.BlankFormRejected | src/components/AssignmentForm.tsx:134-137 | Submitting the blank form raises the title alert and leaves the form blank. |
| AssignmentForm.EditResubmitsSame | src/components/AssignmentForm.tsx:160-169 | In edit mode, submitting again resubmits the same data. |
| AssignmentForm.DueDateCarriesTypedTime | src/components/AssignmentForm.tsx:100-106 | A due date built from a formatted typed time has 19 characters, and its time part parses to the typed time. |
| AssignmentForm.UntimedDueIsEndOfDay | src/components/AssignmentForm.tsx:148-149 | With no time, the due time is 23:59. |
| AssignmentForm.UntimedDueTimeText | src/components/AssignmentForm.tsx:148-149 | Without a time, the five characters after the `T` spell `23:59`. |
| AppLayout.SlugOfPath | src/components/AppLayout.tsx:33 | The slug is the path without its first character. |
| AppLayout.FindFirst | src/components/AppLayout.tsx:34 | The search finds the first matching class, or none when no class matches. |
| AppLayout.CurrentForPath | src/components/AppLayout.tsx:32-40 | The dashboard and manager paths clear the selection. A path naming a class's slug selects the first such class, and any other path keeps the selection. |
| AppLayout.ManagerPrefixIsNotExcluded | src/components/AppLayout.tsx:32 | `/managerX` is not a manager path and is read as the slug `managerX`. |
| AppLayout.SelectClass | src/components/AppLayout.tsx:51-57 | Selecting a class with a slug sets it current and navigates to its path. Otherwise nothing changes. |
| AppLayout.SelectThenLoadAgrees | src/components/AppLayout.tsx:32-57 | With unique slugs, loading the path that selection navigated to selects the same class. |
| AppLayout.DeleteClassInLayout | src/components/AppLayout.tsx:59-74 | Without a database or on failure nothing changes. Otherwise the list is reloaded, and the selection is cleared with navigation to `/` iff the deleted class was current. |
| AppLayout.DeleteLeavesNoStaleSelection | src/components/AppLayout.tsx:67-70 | After a successful delete the deleted class is not current. |
| LegacyApp.HandleAddClass | app.js:116-138 | A blank name alerts "Please enter a class name". A taken trimmed name alerts "A class with this name already exists". Otherwise the trimmed name is added. |
| LegacyApp.AddClassTwiceRejected | app.js:125-133 | Adding the same name a second time is rejected with the duplicate alert. |
| LegacyApp.SelectClass | app.js:157-173 | Selecting sets the current class id and name and leaves the store alone. |
| LegacyApp.HandleDeleteClass | app.js:140-155 | Unconfirmed, nothing changes. Confirmed, the class and its assignments go, and the current class is cleared iff it was the deleted one. |
| LegacyApp.SelectThenDeleteClears | app.js:144-148 | Deleting the selected class clears the selection. |
| LegacyApp.ComposeDueDate | app.js:269-272 | There is no due date iff no date is set. Otherwise it is the date, then `T`, then the time, or `23:59` when no time is set. |
| LegacyApp.DueDateAgreesWithForm | app.js:269-272 | The form's due string is the legacy one followed by `:59` or `:00`. |
| LegacyApp.PrepareAssignment | app.js:258-279 | A blank title alerts. Otherwise the record has the trimmed title and the trimmed description (none when blank), and a due date iff a date was set. |
| LegacyApp.HandleAddAssignment | app.js:258-298 | A blank title alerts and changes nothing. Otherwise the prepared assignment is added to the current class. |
| LegacyApp.AddedAssignmentIsPrepared | app.js:274-282 | The stored assignment is the prepared one, under a fresh key, incomplete. |
| LegacyApp.DueBadge | app.js:217-236 | No due date gives the "No due date" text. The class is overdue, due-soon or none. |
| LegacyApp.DueBadgeByMillis | app.js:224-235 | Overdue iff the due time has passed. Due-soon iff it is due within one day from now. No class iff it is due later. |
| LegacyApp.LegacyOverdueIsWider | app.js:227 | Whatever the typed status calls overdue, the badge does too. One millisecond past due is overdue here but due-today there. |

## Left out

- IndexedDB plumbing is not modelled: opening, upgrade, request callbacks, transactions and Promise wrapping. Each store operation is one atomic step, and concurrent operations are not modelled.
- The class fields `emoji` and `slug` and the `getClassBySlug`/`isSlugUnique` lookups are left out. The store files model only `name` and `createdAt`, and those lookups do not exist there. The same goes for the `completedAt` stamping and the incomplete/completed list queries that other parts of the app expect. The store model follows the two store files that exist: database.js and src/utils/database.ts.
- Date parsing and formatting are not modelled: `new Date(...)`, local time zones, `toISOString`, `setDate`, `toLocaleDateString` and `formatDate`. Instants are milliseconds and days are UTC day numbers. The day keys and the formatted date text are parameters.
- Date-input parsing (`formatDateInput`) is left out except for its year pivot, and so is the edit-mode date prefill of the form.
- An invalid date is not modelled. There, `toISOString` throws and `getTime` is NaN. Every modelled due date is a valid instant.
- DateTime.CeilDiv is exact integer ceiling division. The floating-point `Math.ceil(diff / 86400000)` can differ only at magnitudes far beyond real dates.
- Lowercasing is ASCII only. Non-ASCII `toLowerCase` is not modelled, and all constants compared against are ASCII.
- An empty-string due date is not modelled. It is falsy in the components, but a due date here is `Option<int>`, so an empty string cannot be stored.
- Rendering is not modelled: markup, styles, icons, badges' colours, modals and the loading states. What is shown is reduced to the cards, columns, buttons and messages above.
- RecordStore.UpdateAssignment: a patch cannot carry `id`. A patch with a different `id` would make `put` write a second record, and no caller sends one.
- LegacyApp.HandleAddAssignment requires a selected class. The add-assignment button appears only after a class is selected (app.js:169). Without one the source would store a null class id, which a store key cannot represent.
- LegacyApp.HandleAddClass and LegacyApp.HandleDeleteClass do not model the generic "Failed to … Please try again" alerts. The store model fails only with the constraint error.
- AppLayout.DeleteClassInLayout takes the reloaded class list as a parameter, because the layout reads a store method that carries slugs. A failure anywhere in the try block is the `Err` case, and it leaves the state unchanged.
- Dashboard.RenderDashboard: the empty state carries the corrected today text (`tomorrow's`), not the `&apos;` text that Dashboard.tsx:255 shows as written. The discrepancy is stated by Dashboard.EmptySubShowsEntity under Findings, so the render step does not promise the as-written text.
- The default branch of `getEmptyMessage` is not modelled, because a `View` value cannot reach it.
- RecordStore.DeleteAssignment reports no not-found error: deleting an absent key succeeds, as both store files are written, so the model has no error path for it.
- The legacy script's toggle-completion, delete-assignment and class-list rendering handlers are left out. They only call the store operations modelled above and redraw.

## Findings

| source | as written | input that shows it | evidently intended | confidence | as-written member | corrected member |
|---|---|---|---|---|---|---|
| src/components/Dashboard.tsx:255 | The today view's empty text is the JavaScript string `"…tomorrow&apos;s work."` rendered as `{emptyMessage}`. An HTML entity inside a string expression is not decoded, so `&apos;` is shown literally. | The today view when nothing is overdue or due today | "Enjoy your day or get ahead on tomorrow's work." with an apostrophe, as `getEmptyMessage` in src/components/TasksList.tsx:29 has it | high; not executed | Dashboard.EmptySubShowsEntity | Dashboard.EmptySub |
