# Tomatito popup: task timer model

A Dafny model of the task-list state machine behind the Tomatito browser
extension popup (`popup/script.js`). The popup keeps a list of tasks
`{id, title, startDate, endDate, elapsedTime}` in local storage. The user
adds a task or renames one, starts and stops a task's timer, deletes tasks,
sees a running total, and copies a plain-text report. Once storage, the DOM
and the clock are taken out, each of these is a pure function over an
immutable state. The current time is an explicit parameter `now`, in
milliseconds.

Modules, one per concern of the script:

- `Wrappers` (`wrappers.dfy`): `Option`, used for the nullable values.
- `Text` (`text.dfy`): the JavaScript string behaviour the script relies on.
  This covers integer `toString`, `padStart`, `trim` with the ECMAScript
  whitespace set, `join`, and `split` as the inverse of `join`.
- `Clock` (`clock.dfy`): `formatTime`. It uses `Math.floor`, which for a
  positive divisor is Dafny's `/`. It also uses JavaScript's `%`, which
  truncates toward zero (`JsRem`), so negative durations format as the
  script formats them (for integer durations, see "Left out").
- `Tasks` (`tasks.dfy`): the task record and the list transformations.
  These are rename (`map`), delete (`filter`), toggle (`find` plus an
  in-place update), the total (`reduce`, a left fold) and the report lines.
- `Popup` (`popup.dfy`): the popup state and the user actions. The state is
  the stored list, the id under edit and the text of the title field.

Behaviour kept as the code has it:

- Ids are not unique. New ids are `length + 1`, so an id comes back after
  a delete (`Popup.IdReusedAfterDelete`).
- A rename changes every task with the edited id.
- A toggle changes only the first task with the id.
- A delete removes every task with the id.
- The stored title is the input exactly as typed. Only the emptiness test
  trims it.
- Stopping a timer keeps `startDate` and sets `endDate`, so a stopped task
  still records its last start.
- Negative durations are neither rejected nor clamped. They format with
  negative fields, such as `-1:-1:-1` for -1 ms, and the text starts with a
  minus sign (`Clock.FormatTime`).
- The report shows the stored `elapsedTime`, without the open interval of a
  running task.
- If the stored value is missing or not an array:
  - add, total and copy read it as the empty list;
  - toggle, delete and edit return without writing anything.

## Model

| member | source | states |
|---|---|---|
| Text.NatToString | popup/script.js:109-111 | an integer's decimal text has at least one digit, only digits and no leading zero, and reads back as the number |
| Text.IntToString | popup/script.js:109-111 | `toString` of an integer starts with a minus sign exactly when it is negative; the rest is at least one digit, reads back as the magnitude, and has no leading zero unless it is "0" |
| Text.PadStart | popup/script.js:109-111 | padding keeps the string as its suffix, fills only with the pad character, and reaches the target length when shorter |
| Text.TrimStart | popup/script.js:14 | the result is a suffix, everything dropped is whitespace, and the result does not start with whitespace |
| Text.TrimEnd | popup/script.js:14 | the result is a prefix, everything dropped is whitespace, and the result does not end with whitespace |
| Text.Trim | popup/script.js:14 | trimming leaves nothing exactly when the input is all whitespace, and otherwise leaves text that starts and ends with a non-whitespace character |
| Text.BlankIffAllWhitespace | popup/script.js:14 | an input is rejected exactly when every character is JavaScript whitespace; the empty input is rejected too |
| Text.Join | popup/script.js:98 | joining no parts gives the empty string, one part gives that part, and the text always starts with the first part |
| Text.JoinSnoc | popup/script.js:98 | joining one more part appends the separator and that part, so with the empty and one-part cases every part appears in order with the separator between neighbours |
| Text.SplitJoin | popup/script.js:98 | splitting a newline join gives the parts back when there is at least one part and none holds the separator |
| Clock.JsRem | popup/script.js:110-111 | the remainder has the dividend's sign, is smaller than the divisor in magnitude, differs from the dividend by a multiple of the divisor, and equals the Euclidean remainder for a non-negative dividend |
| Clock.FieldOfNat | popup/script.js:109-111 | a padded field of a non-negative number is at least two digits and reads back as the number; it is exactly two digits below 100 and has no leading zero when longer |
| Clock.FormatTime | popup/script.js:107-113 | for ms >= 0 the text parses back: an hour field of two digits or of more digits without a leading zero, then two-digit minutes and seconds below 60, with h*3600 + m*60 + s = floor(ms/1000). No duration gives a newline, and a negative duration gives text starting with a minus sign |
| Clock.FormatTimeHoursUnbounded | popup/script.js:109 | the hour field is floor(ms/3600000), with no wrap at 24 |
| Clock.FormatTimeZero | popup/script.js:107-113 | 0 ms formats as 00:00:00 |
| Clock.FormatTimeOneOfEach | popup/script.js:107-113 | 3661000 ms formats as 01:01:01 |
| Clock.FormatTimeNinetySeconds | popup/script.js:107-113 | 90000 ms formats as 00:01:30 |
| Clock.FormatTimeTwoSeconds | popup/script.js:107-113 | 2000 ms formats as 00:00:02 |
| Clock.FormatTimePastOneDay | popup/script.js:109 | 25 hours format as 25:00:00, not wrapped |
| Tasks.NewTask | popup/script.js:31-37 | a created task has the given id and title, no start and no end date, is stopped and has zero elapsed time |
| Tasks.Toggle | popup/script.js:122-130 | a running task stops with endDate = now and gains now - startDate; a stopped task starts with startDate = now, endDate cleared and elapsed time kept; id and title never change |
| Tasks.ToggleKeepsLiveTime | popup/script.js:122-124 | at the instant of a toggle the time shown for the task is the same before and after |
| Tasks.StartThenStop | popup/script.js:122-128 | starting at t1 and stopping at t2 leaves the task stopped with exactly t2 - t1 more elapsed time |
| Tasks.Rename | popup/script.js:23-28 | the length is kept, every field other than the title is kept, and exactly the tasks with the edited id get the new title |
| Tasks.Remove | popup/script.js:159 | survivors come from the list and lack the id, every task without the id survives, the length drops by the number of tasks with the id, and a list without the id is unchanged |
| Tasks.RemoveConcat | popup/script.js:159 | deleting distributes over concatenation, so the order of the survivors is kept |
| Tasks.RemoveOne | popup/script.js:159 | one task is dropped exactly when it has the id |
| Tasks.RemoveIdempotent | popup/script.js:159 | deleting an id twice is the same as deleting it once |
| Tasks.FindFirst | popup/script.js:119 | the index found holds the id and no earlier task has it; None exactly when no task has the id |
| Tasks.ToggleFirst | popup/script.js:119-130 | only the first task with the id changes, and it becomes exactly its toggle at `now`; a missing id leaves the list unchanged |
| Tasks.ToggleFirstKeepsFind | popup/script.js:119 | after a toggle the same id finds the same task |
| Tasks.ToggleFirstTwice | popup/script.js:115-131 | two toggles of a stopped first match at t1 and t2 add exactly t2 - t1 to it and leave every other task as it was |
| Tasks.Total | popup/script.js:184-189 | the left-fold total equals the sum of elapsed times plus now - startDate for each running task |
| Tasks.TotalWhenNothingRuns | popup/script.js:184-189 | with no running task the total is exactly the sum of elapsed times |
| Tasks.TotalAfterToggle | popup/script.js:122-124 | at the toggle instant the total does not change |
| Tasks.TotalAfterRename | popup/script.js:23-28 | renaming never changes the total |
| Tasks.ReportLine | popup/script.js:98 | a line is the title, then ", ", then the clock of the elapsed time, which reads back as its whole seconds when it is not negative; a title without a newline gives a line without one |
| Tasks.Report | popup/script.js:98 | no tasks give the empty text and one task gives its line alone; otherwise the text splits at newlines into exactly the task lines, in order, when no title holds a newline |
| Popup.AddOrUpdateTask | popup/script.js:12-44 | blank input changes nothing; otherwise edit mode ends and the field is cleared. With no edit, exactly one stopped task (id = old length + 1, title as typed, zero elapsed) is appended after the unchanged old tasks. With an edit, the length is kept and only tasks with the edited id are renamed |
| Popup.EditTask | popup/script.js:167-176 | storage is untouched; when the id is present the first match's title fills the field and the id becomes the edit target, otherwise nothing changes |
| Popup.TogglePlay | popup/script.js:115-134 | the edit state and field are kept; without a list or a match nothing changes; otherwise the length is kept, only the first match changes, and it changes by the toggle transition |
| Popup.DeleteTask | popup/script.js:155-165 | without a list nothing changes; otherwise the stored list becomes the order-keeping filter of the tasks without the id (Tasks.Remove), so the length drops by their number; a missing id changes nothing |
| Popup.TotalTime | popup/script.js:178-194 | the header total is the sum of elapsed times plus the open intervals of running tasks, and 0 without a stored list |
| Popup.CopyReport | popup/script.js:92-98 | a missing or empty list gives the empty report and a lone task gives its line; otherwise the report splits at newlines into one line per stored task, in order, when no title holds a newline |
| Popup.TotalTimeAfterToggle | popup/script.js:115-134 | pressing play or pause leaves the header total unchanged at that instant |
| Popup.PlayThenPause | popup/script.js:115-134 | play at t1 then pause at t2 on a stopped task adds exactly t2 - t1 to it and to nothing else |
| Popup.DeleteUndoesAdd | popup/script.js:30-38 | deleting the id of a just-added task restores the old list when that id was not already in use |
| Popup.StaleEditDropsInput | popup/script.js:22-29 | submitting an edit whose target is gone writes the list back unchanged, leaves edit mode and drops the typed title |
| Popup.EditThenSubmitKeepsList | popup/script.js:167-176 | editing and resubmitting without retyping keeps the list when the id is unique |
| Popup.IdReusedAfterDelete | popup/script.js:32 | add, add, delete the first, add: both tasks carry id 2, and toggling id 2 reaches only the first of them |
| Popup.AddPlayPauseReport | popup/script.js:31-38 | add, play at t0, pause at t0 + 2000: one stopped task with 2000 ms, reported as "<title>, 00:00:02" |

## Left out

- DOM rendering and event wiring (`displayTasks` HTML, icons, listeners, lines 1-2, 46-90, 196). This is UI. Only the running predicate it uses is modelled (`Tasks.IsRunning`, lines 61 and 84).
- The per-task tickers (`startTimer`, `stopTimer`, the `activeTimer` map, lines 136-153) and the `visibilitychange` handler (lines 198-212). These are timers that only refresh the display. The value a ticker shows is `Tasks.LiveTime`.
- `navigator.clipboard.writeText` and the `alert`/`console.error` callbacks (lines 100-104). These are asynchronous browser APIs. Only the report text is modelled.
- `localStorage` and `JSON.parse`/`JSON.stringify`. This is host I/O. The stored value is `Option<seq<Task>>`, with None for a missing key or a non-array value. The serialisation round trip is not modelled, and neither are malformed task objects inside an array.
- `new Date()`. Every clock read becomes the parameter `now`. The two reads on lines 123-124 are merged into one, so a stop adds exactly `now - startDate`.
- JavaScript truthiness of `editingTaskId` and `startDate`/`endDate`. These are option types. Ids are assumed to be at least 1, so id 0 being falsy does not arise.
- Clearing the title field after an add (line 43) is modelled as the field becoming empty. The user typing into the field is modelled as setting `input` on the state.
- Number and string width. JavaScript numbers are IEEE doubles, and the model uses unbounded `int`, so it agrees with the script only for integers of magnitude below 2^53. `toString` also switches to exponent notation from 1e21 on, which `Text.IntToString` does not model. ECMAScript time values lie within ±8.64e15 ms, so neither limit is reached by a duration between two clock reads. JavaScript strings are UTF-16 code units and the model's `char` is a Unicode scalar value. That only matters for titles, which the model copies without looking at them, except for the whitespace test.
