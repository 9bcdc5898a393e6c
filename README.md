# MustDo task store and deadline monitor, in Dafny

MustDo is a desktop to-do list. This project models its core, which lives in
`app.py`:

- `Task`, a dataclass whose fields the window's handlers change in place;
- `TaskManager`, the ordered list of tasks, with `add_task`, `save_tasks` and `load_tasks`;
- the `MustDo` window's handler logic without its widgets:
  - the add handler;
  - `update_item_display`;
  - `complete_task`;
  - `check_deadlines`, the deadline monitor that a timer runs once a minute;
  - `stop_alarm`;
  - `delete_task`;
  - start-up loading.

Modules, bottom to top:

- `Clock` (clock.dfy): a naive local `datetime` as a whole number of microseconds. It provides the date (`Midnight`), `datetime.combine`, and the `%H` and `%M` fields.
- `ClockText` (clock_text.dfy): `strptime(s, "%H:%M")` and `strftime("%H:%M")`. The parser follows the regular expressions `strptime` builds: `%H` is `2[0-3]|[0-1]\d|\d` and `%M` is `[0-5]\d|\d`, and the whole string must be used up. It is proved equal to an independent description (`SpellsClock`) of the accepted spellings.
- `InputText` (input_text.dfy): `str.strip()` with Python's white-space set.
- `Deadlines` (deadline.dfy): the `add_task` rule. A time text gives today at that time, or tomorrow when today's moment is already in the past.
- `Sequences` (sequences.dfy): the search `list.remove` performs, removal at a position, and lists without repeated references.
- `Tasks` (task.dfy): the `Task` class, and `TaskValue`, the value of its four fields. Dataclass `==` compares exactly these four fields.
- `Monitor` (monitor.dfy): one run of `check_deadlines` and of `stop_alarm`, stated on task values, with its properties.
- `Persistence` (persistence.dfy): the JSON file as a parsed value, what saving writes and what loading reads back.
- `Display` (display.dfy): a row's text and background colour.
- `Store` (store.dfy): the `TaskManager` class.
- `App` (app.dfy): the `MustDo` class. It holds the tasks its list rows reference, the manager, and whether the alarm is sounding. It also contains the `delete_task` finding below.

The current time is a parameter (`now`, and `stopAt` for the second reading in `check_deadlines`) of every operation that reads the clock.

Notes on what the code does:

- **Deadline text.** The add handler takes the deadline text from the time editor, which always writes `"HH:mm"` (app.py:254); the description field holds only the description. `strptime` itself also accepts one-digit fields such as `"9:5"`.
- **Delete.** Deleting removes the first task equal in value to the clicked one (app.py:371), not necessarily the clicked task itself; see Findings.
- **Stop alarm.** `stop_alarm` marks every task whose deadline has passed as notified, including completed tasks, and `check_deadlines` calls it whenever no notified task is still open (app.py:320-323, 346-350).
- **Two clock readings.** `check_deadlines` reads the clock once for its loop (app.py:301), and the `stop_alarm` it may call reads it again later (app.py:349). `Monitor.Check` takes both readings, `now` and `stopAt`. An open task whose deadline falls between them is not alarmed by the loop but is marked notified by `stop_alarm`, so its alarm never plays (`Monitor.StopSilencesTaskDueBetweenReadings`).

## Model

| member | source | states |
|---|---|---|
| Clock.Midnight | app.py:32 | the date of a moment is the midnight at or before it, less than a day before it |
| Clock.HourOf | app.py:281 | the `%H` field is an hour from 0 to 23 |
| Clock.MinuteOf | app.py:281 | the `%M` field is a minute from 0 to 59 |
| Clock.MidnightNextDay | app.py:36-37 | one day after a moment, the date is the next date |
| Clock.Combine | app.py:32 | `datetime.combine(date, time(hour, minute))`: the date's midnight plus the hour and minute; `CombineFields` states what it yields |
| Clock.CombineFields | app.py:32 | `combine(date, HH:MM)` lies on that date; its time of day is HH:MM; `%H` and `%M` read back the hour and minute |
| ClockText.ParseClock | app.py:31 | a successful parse yields an hour below 24 and a minute below 60 |
| ClockText.ParsedIsSpelled | app.py:31 | every text the parse accepts spells its hour and minute, in one or two digits each, joined by `:` |
| ClockText.SpelledIsParsed | app.py:31 | every such spelling is accepted, yielding the hour and minute it spells |
| ClockText.ParseClockExact | app.py:31 | `strptime` succeeds with (h, m) exactly when the text is an accepted spelling of h and m (both directions) |
| ClockText.FormatClock | app.py:281 | `strftime("%H:%M")` is five characters with `:` in the middle |
| ClockText.FormatThenParse | app.py:281 | parsing the `strftime` text gives back the same hour and minute |
| ClockText.ParseThenFormat | app.py:254 | a five-character text that parses is exactly the `strftime` text of its hour and minute |
| InputText.IsSpace | app.py:248 | the characters `str.isspace()` accepts: tab to carriage return, the four separators U+1C to U+1F, space, U+85, U+A0, U+1680, U+2000 to U+200A, U+2028, U+2029, U+202F, U+205F, U+3000 |
| InputText.TrimStart | app.py:248 | drops exactly the leading white space: what remains is a suffix that does not start with white space |
| InputText.TrimEnd | app.py:248 | drops exactly the trailing white space: what remains is a prefix that does not end with white space |
| InputText.Strip | app.py:248 | the stripped text is the middle slice of the input; everything cut off is white space; it neither starts nor ends with white space |
| InputText.StripEmptyIffBlank | app.py:248-251 | the description is rejected as empty exactly when the input is all white space |
| Deadlines.DeadlineAt | app.py:30-37 | the deadline lies in [now, now + one day); it shows the parsed hour and minute; it is on today's date exactly when today's moment is not before now |
| Deadlines.DeadlineIsNextOccurrence | app.py:32-37 | the deadline is the only moment in [now, now + one day) with that time of day |
| Deadlines.Schedule | app.py:26-39 | no deadline iff the text is absent or empty; failure iff a non-empty text does not parse; otherwise the deadline is `DeadlineAt` of the parsed hour and minute, within a day from now, and reads back as the parsed time |
| Deadlines.RolloverExamples | app.py:34-37 | "09:07" at 08:00 is due today; at 10:00, or one microsecond after 09:07, it is due tomorrow; "25:99" fails |
| Sequences.FirstIndex | app.py:371 | the search `list.remove` performs: the position of the first equal element, with no equal element before it, or the length when there is none |
| Sequences.RemoveAt | app.py:372 | `takeItem(row)`: one element fewer; the elements before the row keep their places; the elements after it move up by one |
| Sequences.FirstIndexOfDistinct | app.py:371 | in a list without repeats, an element's first occurrence is its own position |
| Sequences.RemoveAtDistinct | app.py:371-372 | removing one element keeps a list free of repeats |
| Tasks.Task.constructor | app.py:15-20 | a new task has the given description and deadline, and both flags are false |
| Tasks.Task.Value | app.py:15-20 | the four fields, in order, that dataclass `==` compares (the comparison `list.remove` uses at app.py:371) |
| Tasks.Task.FromValue | app.py:71 | a task built from all four fields has exactly those fields |
| Monitor.Alarming | app.py:309-312 | the alarm test of the `check_deadlines` loop: a deadline, not completed, not notified, and not after the clock reading |
| Monitor.Passed | app.py:349 | the test of the `stop_alarm` loop: a deadline not after the clock reading, completed or not |
| Monitor.AnyAlarming | app.py:302-314 | the value `alarm_needed` ends the loop with: some task met the alarm test |
| Monitor.AlarmActive | app.py:320-322 | the `any(...)` test: some task is notified and not completed |
| Monitor.MarkDue | app.py:304-314 | the marking loop of `check_deadlines` on task values: one task out per task in, in order; `MarkDueExact` pins each element |
| Monitor.SilenceAll | app.py:346-350 | the marking loop of `stop_alarm` on task values: one task out per task in, in order; `SilenceAllExact` pins each element |
| Monitor.MarkDueExact | app.py:304-314 | the `check_deadlines` loop sets `notified` on exactly the tasks that have a deadline, are not completed, are not notified, and whose deadline is not after now; nothing else changes |
| Monitor.SilenceAllExact | app.py:346-350 | the `stop_alarm` loop sets `notified` on exactly the tasks whose deadline is not after now; nothing else changes |
| Monitor.MarkDueChangesIffAlarming | app.py:304-318 | the loop changes the list exactly when `alarm_needed` ends up true |
| Monitor.MarkDueSettles | app.py:309-313 | after the loop, no task meets the alarm test at the same clock reading |
| Monitor.SilenceAllKeepsQuiet | app.py:346-350 | `stop_alarm` never makes a task meet the alarm test |
| Monitor.SilenceAllIdempotent | app.py:346-350 | a second `stop_alarm` at the same clock reading changes nothing |
| Monitor.Check | app.py:300-323 | one `check_deadlines` with loop reading `now` and `stop_alarm` reading `stopAt`: the list keeps its length; the alarm plays exactly when the marking loop changed a task; when neither branch runs, no task changes |
| Monitor.CheckTwice | app.py:300-323 | a second `check_deadlines` with the same clock readings changes no task and does not play the alarm |
| Monitor.StopSilencesTaskDueBetweenReadings | app.py:300-353 | an open task due at 100, checked at 99 with `stop_alarm` reading 101, is marked notified by the stop branch and its alarm never plays |
| Monitor.CheckKeepsNotifiedRule | app.py:300-323 | if every notified task had its deadline reached at an earlier reading, this still holds, at the `stop_alarm` reading, after `check_deadlines` at later readings |
| Persistence.Record | app.py:47-50 | the record of a task is an object that loads back as that very task |
| Persistence.Encode | app.py:45-51 | the saved array has one record per task, in list order; every element is an object, and each loads back as the task it records |
| Persistence.Decode | app.py:58-71 | missing fields take `''`, no deadline, false and false, and a `null` deadline is no deadline; an object with all four keys is exactly the record of the task built from it |
| Persistence.DecodePrefix | app.py:58-71 | the loading loop: one task per object up to the first element that is not an object, never more tasks than elements |
| Persistence.LoadRaises | app.py:58-76 | `load_tasks` lets an exception escape: some array element is not an object, so `task_data.get` raises `AttributeError`, which neither `except` clause catches |
| Persistence.Loaded | app.py:53-76 | `self.tasks` after `load_tasks`: empty for a missing or corrupt file, otherwise what the loading loop appended |
| Persistence.DecodePrefixAllObjects | app.py:58-71 | when every element is an object, loading decodes each element, in order |
| Persistence.DecodePrefixAppend | app.py:58-71 | loading past an all-object prefix keeps the prefix's tasks and continues with the rest |
| Persistence.LoadedPrefix | app.py:58-71 | when the loop stops after `i` objects, it has appended exactly their `i` decoded tasks |
| Persistence.SaveLoadRoundTrip | app.py:45-76 | loading what was saved raises nothing and gives back every task with every field |
| Display.DueSuffix | app.py:281 | the 13-character text `" (Due: HH:MM)"`, whose time part reads back, with `strptime`, as the deadline's hour and minute |
| Display.UpdateItemDisplay | app.py:277-292 | completed rows are green; otherwise a deadline strictly before now is red, and anything else is the default colour; the text starts with the description and equals it exactly when there is no deadline |
| Display.ShownTimeReadsBack | app.py:279-281 | the due time shown reads back, with `strptime`, as the deadline's hour and minute |
| Display.ShownTimeIsEnteredTime | app.py:254-256 | a task added with a two-digit `HH:MM` text shows that very text as its due time |
| Store.TaskManager.constructor | app.py:23-24 | a new manager has no tasks |
| Store.TaskManager.AddTask | app.py:26-43 | a bad time text returns `None` and leaves the list unchanged; otherwise one new task with the scheduled deadline and both flags false is appended, and the tasks before it keep their places |
| Store.TaskManager.SaveTasks | app.py:45-51 | the written array is the encoding of the current tasks, in order |
| Store.TaskManager.LoadTasks | app.py:53-76 | the list is replaced by new task objects whose values are what loading the file gives; it raises exactly when some element is not an object; no object is listed twice |
| App.MustDo.constructor | app.py:383-390 | start-up loads the file; without a load error the rows show exactly the manager's tasks; after one, no row is shown |
| App.MustDo.AddTask | app.py:247-269 | an empty stripped description, an invalid time and success are told apart exactly; on success a new row with the new task is appended and rows and manager stay in step; otherwise nothing changes |
| App.MustDo.CompleteTask | app.py:294-298 | the row's task becomes completed and no other field or task changes |
| App.MustDo.StopAlarm | app.py:340-353 | the alarm stops and every task whose deadline has passed is notified |
| App.MarkIfAlarming | app.py:309-315 | one pass of the `check_deadlines` loop: the task is marked notified exactly when it meets the alarm test, and nothing else of it changes |
| App.MustDo.MarkDueTasks | app.py:300-316 | the loop leaves the tasks as the specification `MarkDue` says; `alarm_needed` is true exactly when some task met the alarm test |
| App.MustDo.CheckDeadlines | app.py:300-323 | tasks, result and alarm state are those of one `Check` of the task values, with the loop's reading and `stop_alarm`'s later reading: play, stop (with `stop_alarm`'s marking), or keep |
| App.MustDo.DeleteTaskAsWritten | app.py:368-375 | as written: the manager drops its first task equal in value to the row's task and the row goes; with no equal task nothing changes |
| App.MustDo.DeleteTask | app.py:368-375 | as intended: the manager drops the very task of the row and the row goes; rows and manager stay in step |
| App.TwinTasksFileLoads | app.py:53-76 | a file holding the same task twice loads without raising, as two equal tasks |
| App.PartialTasksFileLoads | app.py:53-76 | the file `[task, 5, task]` makes loading raise after appending the first task only |
| App.PartialLoadHidesAndLosesTasks | app.py:383-390 | after that failed start-up no row is shown; once a task is added, the rows show only it, while the next save writes the hidden first task and the new one, and the third element's task is gone |
| App.DuplicateDeleteLosesCompletion | app.py:368-375 | with two equal tasks, delete the second row and complete the remaining one: the row shows it completed but the saved file records it as not completed |
| App.DuplicateDeleteKeepsCompletion | app.py:368-375 | the same steps with the intended delete save the completion |

## Left out

- The PyQt widgets, styling, context menu, message boxes, the `QTimer` and the media player are not modelled. The alarm is the flag `alarmSounding`, and reported errors are outcomes or `ok` results.
- Files are not modelled. A file is its parsed JSON value (`File`): a missing file, a corrupt file, or an array. The `json` text form and the ISO text of deadlines (`isoformat` and `fromisoformat`) are abstracted; a stored deadline is the moment it stands for.
- Loading does not model these cases, which the model treats as absent:
  - a top-level JSON value that is not an array;
  - object fields of the wrong type;
  - a deadline string that is empty or not valid ISO text.
- `datetime.now()` is a parameter (`now`, or `stopAt` for `stop_alarm`'s reading), which the caller supplies.
- App.MustDo.StopAlarm: it uses one clock reading for all tasks. The source reads `datetime.now()` afresh for each task.
- The save after each handler (`save_tasks` in the add, complete, check, stop and delete handlers) is not repeated in the handler models. `Store.TaskManager.SaveTasks` models what such a save writes.
- Clearing the input field after an add is not modelled.
- `strptime` accepts non-ASCII Unicode decimal digits. The model reads only ASCII digits.
- The year range of `datetime`, and the `OverflowError` near its end, are not modelled: time is unbounded.
- Python's interpreter-level failures (out of memory and the like) are not modelled.

## Findings

| source | as written | input that shows it | evidently intended | confidence | as-written member | corrected member |
|---|---|---|---|---|---|---|
| app.py:368-375 | `list.remove(task)` deletes the manager's first task that is `==` to the row's task, comparing dataclass fields, while `takeItem` deletes the clicked row | a file with two equal tasks, e.g. "Buy milk" with no deadline, twice; delete the second row, then complete the remaining row | the manager drops the same task object the row holds, so rows and manager keep sharing the same objects | not executed | App.DuplicateDeleteLosesCompletion | App.DuplicateDeleteKeepsCompletion |

In the as-written run, the remaining row and the manager's remaining task are different objects. The completion is shown, but it never reaches the saved file. `App.MustDo.DeleteTaskAsWritten` models the handler as written. `App.MustDo.DeleteTask` is the corrected handler. It keeps the rows and the manager's list identical (`Synced`).
