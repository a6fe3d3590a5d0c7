# Event Manage calendar: a verified model of its scheduling core

Event Manage is a single-page calendar. Users add, edit, delete, search and drag-reschedule
events. An event can repeat daily, weekly, monthly, or every *n* days, weeks or months. This
project models in Dafny the logic behind those features, and proves what that logic
guarantees.

- **Recurrence expander** (`Expansion`). `getExpandedEvents` becomes the method
  `GetExpandedEvents`, with its `for` loop over the events. The inner `while` loop that walks
  one repeating event forward is the method `AppendWalk`.
  - Both are proved equal to the specification `Expand`. `Expand` is built from `Occurrences`
    (one event) and `Walk` (one walk).
  - The lemmas about `Expand` and `Walk` state:
    - non-repeating events pass through exactly once;
    - occurrences lie in the window and are ordered;
    - only the date changes;
    - rules without a step yield at most the anchor.
  - They also state that the occurrences are exactly the step points of the rule (`StepPoint`)
    that fall in the window.
  - The window is a parameter, `now`. It is the month of the clock, not the month the calendar
    shows. So in any other month no repeating event shows up (`Calendar.RepeatsOnlyInClockMonth`).
  - Monthly steps clamp to the end of short months, and the walk goes on from the clamped day.
    So an event anchored on the 31st drifts to an earlier day (`Expansion.MonthStridePoints`).
- **Event-list operations** (`EventList`): add, update, delete, drag-reschedule and the search
  filter. They are pure functions from the old list to the new one, as the handlers compute a
  new list for the store.
- **Event form** (`EventForm`):
  - the initial field values;
  - the conflict check on the date text;
  - the record built on submit;
  - the class `Form`, whose `HandleSubmit` sets the conflict message and picks the callback.
- **Month view** (`Calendar`). The class `CalendarView` holds the displayed month, the
  header's back and forward buttons, and `RenderCells`.
  - `RenderCells` is a `while` loop over weeks. Its 7-step inner loop is the method `PushWeek`.
  - It is proved to produce the grid that `GridRow`/`CellAt` specify. Lemmas then prove the
    grid's shape.
  - The drop and click guards of a day cell are functions.

Dates (`Dates`) follow the proleptic Gregorian calendar without time zones.
- A date-time is a month index, a day of the month and a minute of the day.
- date-fns `addDays`, `addWeeks`, `addMonths` (clamping to the last day of a shorter month),
  `startOfMonth`, `endOfMonth`, `startOfWeek` and `endOfWeek` (weeks from Sunday),
  `isAfter`, `isBefore`, `isSameDay` and `isSameMonth` are defined concretely.
- Their day arithmetic is proved through a day numbering (`DayIndex`).

An event record is `Event<D>`, generic in how its date is held. The form writes and compares
the date as text (`Event<string>`). The expander, the drop handler and the grid use the
interpreted date (`Event<Date>`). For `recurrence` and `description`, the empty string stands
for every falsy JavaScript value.

## Model

| member | source | states |
|---|---|---|
| Expansion.GetExpandedEvents | event-manage/src/App.jsx:45-82 | the result is `Expand` of the events over the month containing `now` |
| Expansion.Expand | event-manage/src/App.jsx:50-81 | defines the expansion: the occurrences of each event in turn, in input order; `ExpandAppend`, `ExpandSources` and `PassThroughOnce` state what it yields |
| Expansion.Occurrences | event-manage/src/App.jsx:52-79 | defines one event's share: itself when it does not repeat, nothing when anchored after the window, else the walk from its own date; `OccurrencesShape` and `RecurringOccurrences` state what it yields |
| Expansion.Walk | event-manage/src/App.jsx:61-79 | defines the walk: the current date is emitted when not before the window, then the walk goes on from the next step until past the window or no step exists; `WalkShape` and `WalkExactly` state what it yields |
| Expansion.HasStep | event-manage/src/App.jsx:65-78 | the rules under which the loop advances rather than breaks: daily, weekly, monthly, and custom with a days, weeks or months unit |
| Expansion.InWindow | event-manage/src/App.jsx:61-62 | a date is in the window when it is neither before its start nor after its end |
| Expansion.AppendWalk | event-manage/src/App.jsx:60-79 | walking a repeating event appends exactly its occurrences in the window to what was collected |
| Expansion.Step | event-manage/src/App.jsx:65-78 | a step exists exactly for daily, weekly, monthly and custom rules with a known unit; it lands strictly later, at the same time of day (so the walk terminates) |
| Expansion.WalkShape | event-manage/src/App.jsx:61-79 | every occurrence of a walk is in the window, is the event with only its date changed, is no earlier than the start, and the dates strictly increase |
| Expansion.OccurrencesShape | event-manage/src/App.jsx:52-63 | a non-repeating event yields itself whatever the window; a repeating one yields copies in the window in increasing order; one anchored after the window yields nothing |
| Expansion.ExpandAppend | event-manage/src/App.jsx:51-80 | the expansion of two lists is the two expansions in order, so the output follows the input order |
| Expansion.ExpandSources | event-manage/src/App.jsx:51-79 | every occurrence is some input event with at most its date changed, in the window if that event repeats, and unchanged if it does not |
| Expansion.PassThroughOnce | event-manage/src/App.jsx:52-54 | a non-repeating event appears exactly once, unchanged, between the expansions of the events before and after it; with unique ids no other occurrence has its id |
| Expansion.NoStepAtMostAnchor | event-manage/src/App.jsx:71-77 | with an unknown rule, a missing custom rule or an unknown unit, the event yields only itself if its date is in the window, else nothing |
| Expansion.StepPoint | event-manage/src/App.jsx:61-78 | the k-th point of the walk is no earlier than its start, later for k > 0, at the same time of day, and exists exactly for k = 0 or a rule with a step |
| Expansion.WalkSound | event-manage/src/App.jsx:61-79 | every occurrence of a walk is dated at a step point |
| Expansion.WalkComplete | event-manage/src/App.jsx:61-79 | every step point in the window is the date of an occurrence |
| Expansion.WalkExactly | event-manage/src/App.jsx:61-79 | a walk yields exactly the copies of the event dated at the step points that lie in the window |
| Expansion.RecurringOccurrences | event-manage/src/App.jsx:56-79 | a repeating event's occurrences are exactly its copies at the step points of its own date that lie in the window |
| Expansion.DayStridePoints | event-manage/src/App.jsx:65-73 | under daily, weekly, or custom day/week rules the k-th step point is k strides of days after the anchor |
| Expansion.MonthStridePoints | event-manage/src/App.jsx:69-74 | under monthly or custom month rules the k-th step point is k strides of months on, same time, on a day no later than the anchor's and equal to it when the anchor's day is at most 28 |
| Expansion.DayStride | event-manage/src/App.jsx:65-73 | a day-based rule's stride is at least one day |
| Expansion.MonthStride | event-manage/src/App.jsx:69-74 | a month-based rule's stride is at least one month |
| EventList.Add | event-manage/src/App.jsx:23-26 | the new event is appended after the unchanged old list |
| Events.IsRecurring | event-manage/src/App.jsx:52 | an event repeats unless its recurrence is missing (empty) or "none" |
| EventList.Update | event-manage/src/App.jsx:34-38 | same length and ids; entries with the updated id are replaced by it, the others unchanged |
| EventList.Delete | event-manage/src/App.jsx:40-42 | no entry with the deleted id remains and the list does not grow |
| EventList.DeleteMembers | event-manage/src/App.jsx:40-42 | an entry survives deletion exactly when it was in the list with another id |
| EventList.DeleteAppend | event-manage/src/App.jsx:40-42 | deletion works entry by entry, so survivors keep their order |
| EventList.DeleteAbsent | event-manage/src/App.jsx:40-42 | deleting an id no entry carries changes nothing |
| EventList.AddThenDelete | event-manage/src/App.jsx:23-42 | adding an event with a fresh id and deleting it restores the list |
| EventList.AddKeepsUniqueIds | event-manage/src/App.jsx:23-26 | adding an event with a fresh id keeps ids unique |
| EventList.UpdateKeepsUniqueIds | event-manage/src/App.jsx:34-38 | update keeps ids unique |
| EventList.UpdateIdempotent | event-manage/src/App.jsx:34-38 | applying an update twice equals applying it once |
| EventList.DeleteKeepsUniqueIds | event-manage/src/App.jsx:40-42 | delete keeps ids unique |
| EventList.LowerChar | event-manage/src/App.jsx:99-100 | upper-case ASCII letters map to lower case, every other character is kept |
| EventList.Lower | event-manage/src/App.jsx:99-100 | lower-casing keeps the length and folds each character |
| EventList.Includes | event-manage/src/App.jsx:99-100 | `includes` is true exactly when the substring occurs at some position |
| EventList.Matches | event-manage/src/App.jsx:99-100 | the search test: the lower-cased query occurs in the lower-cased title, or in the lower-cased description when one is present |
| EventList.Filter | event-manage/src/App.jsx:98-101 | the result is no longer than the list and every kept event matches |
| EventList.FilterMembers | event-manage/src/App.jsx:98-101 | an event is kept exactly when it is in the list and its title, or its present description, contains the query ignoring case |
| EventList.FilterAppend | event-manage/src/App.jsx:98-101 | the filter works entry by entry, so kept events keep their order |
| EventList.FilterEmptyQuery | event-manage/src/App.jsx:98-101 | an empty query keeps every event in order |
| EventList.FilterIgnoresCase | event-manage/src/App.jsx:99-100 | a query and its lower-case form select the same events |
| EventList.Splice | event-manage/src/App.jsx:88-94 | the new date is on the dropped-on day at the old time of day |
| EventList.SetDate | event-manage/src/App.jsx:95 | same length; only dates change, and only on entries with the id |
| EventList.HandleEventDrop | event-manage/src/App.jsx:85-96 | a repeating event leaves the list unchanged; otherwise same ids, only dates change, only entries with the dropped id change, and they move to the dropped-on day keeping the dropped event's time |
| EventList.DropKeepsUniqueIds | event-manage/src/App.jsx:85-96 | a drop keeps ids unique |
| EventForm.Slice | event-manage/src/components/EventForm/EventForm.jsx:20-21 | `slice(i, j)` has the clamped length and the characters from position i |
| EventForm.InitialFields | event-manage/src/components/EventForm/EventForm.jsx:19-26 | a new event starts untitled, without description, at 12:00, not repeating, in the first colour, on the clicked day's date text if any and else with no date; an edited one starts from its title, description, recurrence and colour and its date text cut into date and time; the custom interval and unit start from the event's rule, else every 2 weeks |
| EventForm.BuildEvent | event-manage/src/components/EventForm/EventForm.jsx:39-47 | the record carries the inputs and the given id; its date text is date, "T", time; it has a custom rule exactly when the recurrence is custom, holding the entered interval and unit |
| EventForm.HasConflict | event-manage/src/components/EventForm/EventForm.jsx:29-34 | a conflict exists exactly when some event other than the edited one has exactly that date text |
| EventForm.ConflictIgnoresEdited | event-manage/src/components/EventForm/EventForm.jsx:31 | checking while editing an id equals checking the list with that id deleted, so re-saving an event at its own slot is no conflict |
| EventForm.SliceBuiltDate | event-manage/src/components/EventForm/EventForm.jsx:20-42 | for a 10-character date and a 5-character time, slices [0,10) and [11,16) of the built date text give them back |
| EventForm.BuildThenReload | event-manage/src/components/EventForm/EventForm.jsx:19-47 | opening the form on a record it built restores the inputs (the custom inputs only for a custom event, otherwise the defaults) |
| EventForm.Form.constructor | event-manage/src/components/EventForm/EventForm.jsx:17-27 | the form opens with the derived inputs and no conflict message |
| EventForm.Form.SubmitId | event-manage/src/components/EventForm/EventForm.jsx:40 | the record keeps the edited event's id, else takes the clock reading |
| EventForm.Form.HandleSubmit | event-manage/src/components/EventForm/EventForm.jsx:36-58 | no title: nothing happens; conflict: message set, no callback; else message cleared and the record goes to update when editing with an update callback, else to add when present; a passed record never has a custom interval below 1 |
| Calendar.DayEvents | event-manage/src/components/Calendar/Calendar.jsx:106 | a cell's events are exactly the events dated on its day |
| Calendar.DayEventsAppend | event-manage/src/components/Calendar/Calendar.jsx:106 | the per-day filter keeps list order |
| Calendar.GridStart | event-manage/src/components/Calendar/Calendar.jsx:92-94 | the grid starts at midnight of a Sunday at most six days before the 1st of the displayed month |
| Calendar.GridEnd | event-manage/src/components/Calendar/Calendar.jsx:93-95 | the grid ends at the last minute of a Saturday at most six days after the displayed month's last day |
| Calendar.CellAt | event-manage/src/components/Calendar/Calendar.jsx:103-119 | a cell holds its grid day, is marked today exactly when on today's day, is marked in the month exactly when in the displayed month, and holds exactly the events of its day |
| Calendar.GridRow | event-manage/src/components/Calendar/Calendar.jsx:102-122 | a row has 7 cells, column c holding the cell of the day 7·row + c after the grid's first day |
| Calendar.GridSpan | event-manage/src/components/Calendar/Calendar.jsx:92-101 | from `GridStart` to `GridEnd` there are exactly 7 × `WeekCount` days, 4 to 6 whole weeks, beginning on or before the month's 1st and ending on or after its last day |
| Calendar.GridBounds | event-manage/src/components/Calendar/Calendar.jsx:92-95 | the grid's first day number is 7a − 6, a Sunday's, at most six days before the month's first day; its last is 7b, a Saturday's, at most six days after the month's last day; the grid has `WeekCount` = b − a + 1 rows, 4 to 6 |
| Calendar.WholeWeeks | event-manage/src/components/Calendar/Calendar.jsx:94-95 | weeks a to b, from Sunday 7a − 6 to Saturday 7b, around a month of 28 to 31 days and reaching at most six days past either end, are b − a + 1 weeks, 4 to 6 |
| Calendar.DayAtIndex | event-manage/src/components/Calendar/Calendar.jsx:98-121 | the cell at row r, column c is 7r + c days after the grid's first day, at midnight |
| Calendar.GridConsecutive | event-manage/src/components/Calendar/Calendar.jsx:98-121 | the first cell is the grid's first day and each cell is the day after the one before, across row ends too |
| Calendar.GridLastCell | event-manage/src/components/Calendar/Calendar.jsx:95-101 | the last cell falls on the grid's last day |
| Calendar.LastCellIndex | event-manage/src/components/Calendar/Calendar.jsx:95-101 | the grid has at least one row, and the day number of its last cell is that of the grid's last day |
| Calendar.DayInOneCell | event-manage/src/components/Calendar/Calendar.jsx:92-105 | every day of the displayed month is in exactly one cell, marked as in the month |
| Calendar.RowAfterGrid | event-manage/src/components/Calendar/Calendar.jsx:101 | a row starts after the grid's end exactly when the grid has no such row |
| Calendar.AfterByDay | event-manage/src/components/Calendar/Calendar.jsx:101 | a midnight date is after a last-minute date exactly when its day is later |
| Calendar.RepeatsOnlyInClockMonth | event-manage/src/App.jsx:47-49 | when the displayed month is not the clock's, every event shown in a cell of the month is an unchanged non-repeating event |
| Calendar.OnDrop | event-manage/src/components/Calendar/Calendar.jsx:33-37 | a drop is forwarded, with the cell's day, exactly when the cell is in the displayed month and a drop callback exists |
| Calendar.OnClick | event-manage/src/components/Calendar/Calendar.jsx:49 | a click forwards the cell's day exactly when the cell is in the displayed month |
| Calendar.CanDrop | event-manage/src/components/Calendar/Calendar.jsx:38 | a cell accepts a dragged event exactly when it is in the displayed month |
| Calendar.AfterDrop | event-manage/src/components/Calendar/Calendar.jsx:34-38 | a drop on a cell outside the displayed month leaves the list unchanged |
| Calendar.DropLandsInMonth | event-manage/src/components/Calendar/Calendar.jsx:34-38 | a drop outside the month changes nothing; a non-repeating event dropped on a cell in the month moves into the displayed month at its old time |
| Calendar.CalendarView.constructor | event-manage/src/components/Calendar/Calendar.jsx:67 | the view opens on the clock's month |
| Calendar.CalendarView.ShowPrevious | event-manage/src/components/Calendar/Calendar.jsx:72 | the displayed month moves back by exactly one |
| Calendar.CalendarView.ShowNext | event-manage/src/components/Calendar/Calendar.jsx:74 | the displayed month moves forward by exactly one |
| Calendar.CalendarView.RenderCells | event-manage/src/components/Calendar/Calendar.jsx:91-131 | the rows are the grid's rows, as many as the grid has weeks |
| Calendar.CalendarView.PushWeek | event-manage/src/components/Calendar/Calendar.jsx:102-122 | the seven cells of a row are appended after the given ones and the day after them is returned |
| Dates.DaysInMonth | event-manage/src/App.jsx:70 | every month has 28 to 31 days |
| Dates.MonthStartNext | event-manage/src/App.jsx:70 | each month starts the day after the previous one ends |
| Dates.MonthStartOrder | event-manage/src/App.jsx:61-62 | a later month starts after every day of an earlier one |
| Dates.EarlierIsInstantOrder | event-manage/src/App.jsx:61-62 | comparing month, day and minute in turn orders dates as their instants do |
| Dates.IsAfter | event-manage/src/App.jsx:58-61 | date-fns `isAfter`: the first date is strictly later than the second |
| Dates.IsBefore | event-manage/src/App.jsx:59-62 | date-fns `isBefore`: the first date is strictly earlier than the second |
| Dates.IsSameDay | event-manage/src/components/Calendar/Calendar.jsx:104-106 | date-fns `isSameDay`: same month and same day of the month |
| Dates.IsSameMonth | event-manage/src/components/Calendar/Calendar.jsx:105 | date-fns `isSameMonth`: same month of the same year |
| Dates.SameDayIndex | event-manage/src/components/Calendar/Calendar.jsx:104-106 | two dates are on the same day exactly when their day numbers agree |
| Dates.DayIndexInMonth | event-manage/src/components/Calendar/Calendar.jsx:92-93 | a date's day number lies within its month |
| Dates.AddDays | event-manage/src/App.jsx:66 | adding days keeps the time of day, adding none changes nothing, and adding some moves strictly later |
| Dates.AddDaysIndex | event-manage/src/App.jsx:66 | adding n days advances the day number by n |
| Dates.SubDays | event-manage/src/components/Calendar/Calendar.jsx:94 | going back keeps the time of day |
| Dates.SubDaysIndex | event-manage/src/components/Calendar/Calendar.jsx:94 | going back n days lowers the day number by n |
| Dates.DayIndexDetermines | event-manage/src/components/Calendar/Calendar.jsx:121 | a date is fixed by its day number and time of day |
| Dates.AddDaysAdd | event-manage/src/components/Calendar/Calendar.jsx:121 | adding a days then b days is adding a + b days |
| Dates.SubThenAddDays | event-manage/src/components/Calendar/Calendar.jsx:94 | going back n days then forward n days returns to the same date |
| Dates.AddWeeks | event-manage/src/App.jsx:68 | adding weeks keeps the time of day, and adding at least one moves strictly later |
| Dates.AddMonths | event-manage/src/App.jsx:70 | the month index moves by n at the same time of day, on the same day of the month clamped to the target month's length |
| Dates.Weekday | event-manage/src/components/Calendar/Calendar.jsx:94-95 | the weekday is between 0 (Sunday) and 6 |
| Dates.StartOfMonth | event-manage/src/App.jsx:48 | midnight of the 1st of the same month |
| Dates.EndOfMonth | event-manage/src/App.jsx:49 | the last minute of the last day of the same month |
| Dates.StartOfWeek | event-manage/src/components/Calendar/Calendar.jsx:94 | midnight of a Sunday at most 6 days before |
| Dates.EndOfWeek | event-manage/src/components/Calendar/Calendar.jsx:95 | the last minute of a Saturday at most 6 days after |
| Dates.WeekdayShift | event-manage/src/components/Calendar/Calendar.jsx:94-95 | stepping back by the weekday reaches a Sunday; stepping forward by 6 minus it reaches a Saturday |

## Left out

- Persistence in `useEvents` (reads and writes of `localStorage`, JSON encoding) is I/O and is not part of this model. The list operations stop at the new list handed to the store.
- The modal, the event item, JSX rendering, CSS classes, and the `format(...)` display strings (cell labels, weekday header names, month title) are presentation only.
- The react-dnd wiring of a cell (`isOver`, `collect`) and the modal-opening handlers (`handleDayClick`, `handleEditEvent`) only set UI state.
- Text-to-date parsing (`new Date(text)`) and `toISOString()` are left out, and so are time zones and daylight-saving time. Dates are local calendar date-times, and an occurrence carries its date as a value rather than as an ISO string. The form's date text is not linked to these values.
- Seconds and milliseconds are not modelled; the granularity is the minute.
- `Date.now()` and `new Date()` are the parameters `now` (for the expander's window and the new event's id) and `today` (for the grid).
- `toLowerCase` is modelled on ASCII letters only; other case mappings are not.
- The `start`/`repeatEnd` variables of `getExpandedEvents` are never used by the walk, so they are not modelled.
- The inner loops of `getExpandedEvents` and `renderCells` are separate methods (`AppendWalk`, `PushWeek`) called from the outer loops. Each call does what one run of the inner loop does.
- Expansion.GetExpandedEvents: requires every custom rule with a known unit to have an interval of at least 1, which the form's `min="1"` enforces. With a smaller interval the source's walk does not terminate.
- EventForm.Form.HandleSubmit: requires a shown interval input to hold at least 1, because the browser's constraint check refuses to submit otherwise. A `NaN` interval is not modelled, and neither is the `required` check on the title, since the handler's own guard is modelled.
- EventForm.InitialFields: the clicked day's ISO text is a parameter, since `toISOString()` is left out.
