# Daily to-do tracker: verified model of the task logic and the export/import codec

The tracker is a small React application. Nearly all of it is presentation; this
project models the logic underneath:

- **The task collection** of the main component (`daily-todo.tsx`): adding, deleting
  (with pruning of the two per-task side maps), the default and custom progress
  increments, replacing an edited task, toggling the custom-amount input, and the
  derived views (per-task percentage, overall totals, "completed today" and the daily
  statistics). Module `TodoOps` holds the pure list operations; class
  `DailyTodo.TodoList` holds `tasks`, `customIncrements`, `customValues` and the stored
  list, with one method per handler. The clock (`today`) and the new id are parameters.
- **The edit dialog** (`edit-task-dialog.tsx`): how the form loads from a task and the
  record `handleSave` builds, with its `Math.max` clamps and the "progress changed"
  rule for `lastUpdatedDate` (module `EditTaskDialog`).
- **Export and import** (`settings-page.tsx`): the export bundle
  `{tasks, exportDate, version: "1.0"}`, the token chain
  `btoa(unescape(encodeURIComponent(json)))` — UTF-8 (RFC 3629, section 3) followed by
  Base64 (RFC 4648, section 4) — and the import that inverts it with `atob` (the WHATWG
  forgiving-base64 decode), checks that `tasks` is an array, keeps the structurally
  valid tasks in order, refuses an empty result and overwrites the store only on
  confirmation (modules `Utf8`, `Base64`, `Json`, `SettingsPage`; class
  `SettingsPage.Settings` holds the store, the import text and the message line).

The model follows the code as written. Points worth knowing:

- `getTotalProgress` (daily-todo.tsx:193-201) sums over **all** tasks. The edit dialog
  saves an `includeInTotal` flag, and the note under its checkbox
  (edit-task-dialog.tsx:166) says an unticked task does not affect the overall progress,
  but the sums never read the flag (`TodoOps.TotalsIgnoreIncludeInTotal`).
- The default increment (daily-todo.tsx:140) is `min(current + defaultIncrement, total)`:
  it caps at `total` and has no lower bound, so a negative step can lower `current` below 0.
  The custom increment (daily-todo.tsx:155) is `max(0, min(current + amount, total))`:
  it lies in `[0, total]` when `total >= 0` and is 0 when `total` is negative. Neither
  consults `startValue`.
- Edit-save (edit-task-dialog.tsx:58-59) raises `total` and `current` against the entered
  start value but does not cap `current` at `total`.
- The "not started" statistic (daily-todo.tsx:370) tests `current === 0`, whatever the
  start value.
- Import (settings-page.tsx:86-98) stores the tasks that pass the filter exactly as they
  appear in the token; fields the filter does not check are neither filled in nor converted.

## Model

| member | source | states |
|---|---|---|
| `Text.TrimStart` | daily-todo.tsx:90 | the result is a suffix of the input, does not start with whitespace, and everything dropped is whitespace (ECMAScript `trim`, leading half) |
| `Text.TrimEnd` | daily-todo.tsx:90 | the result is a prefix of the input, does not end with whitespace, and everything dropped is whitespace (trailing half) |
| `Text.TrimIsInnerSlice` | daily-todo.tsx:94 | `trim()` is a slice of the input with only whitespace cut off on both sides and non-whitespace at both ends |
| `Text.TrimEmptyIffBlank` | daily-todo.tsx:90 | the guard `name.trim() === ""` holds exactly when every character is whitespace |
| `Text.TrimIdempotent` | edit-task-dialog.tsx:57 | trimming an already trimmed name changes nothing |
| `Text.TrimKeepsUnpadded` | settings-page.tsx:78 | text with no whitespace at either end is its own trim |
| `Text.Trim` | daily-todo.tsx:90 | `trim()` is no longer than its input and neither starts nor ends with whitespace |
| `Text.StripAsciiWhitespace` | settings-page.tsx:78 | `atob`'s whitespace removal: no ASCII whitespace remains, every other character is kept and nothing new appears, input without whitespace is unchanged |
| `Text.StripAsciiWhitespaceAppend` | settings-page.tsx:78 | whitespace removal works character by character: it distributes over concatenation |
| `TodoOps.AddedTasks` | daily-todo.tsx:89-101 | a blank name leaves the list unchanged; otherwise the old tasks keep their order and exactly one task is appended with the trimmed name, `current = 0`, the given total, increment, id and creation date, and no last-update date, start value or `includeInTotal` flag |
| `TodoOps.RemoveId` | daily-todo.tsx:114 | a task is in the result iff it was in the list and its id differs; the list does not grow |
| `TodoOps.RemoveIdAppend` | daily-todo.tsx:114 | deleting distributes over concatenation, so the remaining tasks keep their relative order |
| `TodoOps.RemoveAbsentId` | daily-todo.tsx:114 | deleting an id no task has leaves the list unchanged |
| `TodoOps.DeleteUndoesAdd` | daily-todo.tsx:89-124 | adding a task under an unused id and then deleting that id restores the original list |
| `TodoOps.DefaultIncremented` | daily-todo.tsx:140-141 | `current` becomes `min(current + defaultIncrement, total)` (never above `total`), `lastUpdatedDate` becomes today even when already at total, nothing else changes |
| `TodoOps.CustomIncremented` | daily-todo.tsx:155-156 | `current` becomes `max(0, min(current + amount, total))`: never negative, at most `total` when `total >= 0`, exact when in range, clamped at either end otherwise; `lastUpdatedDate` becomes today; nothing else changes |
| `TodoOps.UpdateById` | daily-todo.tsx:138-144 | same length and order; each task with the id gets the update, every other task is unchanged |
| `TodoOps.ReplaceById` | daily-todo.tsx:183 | `tasks.map(t => t.id === u.id ? u : t)`: same length and order, each task with the edited id is replaced, every other task is unchanged |
| `TodoOps.UpdateKeepsIds` | daily-todo.tsx:183 | no increment and no replacement of an edited task changes the sequence of ids |
| `TodoOps.IncrementKeepsRange` | daily-todo.tsx:136-165 | if every task has `0 <= current <= total`, so it stays after a custom increment, and after a default increment whose step is not negative |
| `TodoOps.IncrementKeepsTargetSum` | daily-todo.tsx:136-165 | increments leave the summed target unchanged |
| `TodoOps.CustomAmount` | daily-todo.tsx:152 | `customValues[id] \|\| 1`: the stored amount when present and non-zero, otherwise 1; never 0 |
| `TodoOps.ToggledFlags` | daily-todo.tsx:169 | the id's flag becomes the negation of its old value (absent reads as false); other flags are unchanged |
| `TodoOps.DefaultedAmounts` | daily-todo.tsx:170-172 | a missing or zero amount for the id becomes 1, any other is kept; other amounts are unchanged |
| `TodoOps.RoundedPercent` | daily-todo.tsx:188-190 | `Math.round(current / total * 100)`: the result `r` satisfies `r - 1/2 <= 100·current/total < r + 1/2` (halves round up), for either sign of `total` |
| `TodoOps.PercentInRange` | daily-todo.tsx:188-190 | with `0 <= current <= total` and `total > 0` the percentage is in `[0, 100]`, 0 when untouched and 100 when done |
| `TodoOps.PercentMonotonic` | daily-todo.tsx:188-190 | more progress towards the same target never shows a smaller percentage |
| `TodoOps.SumCurrent` | daily-todo.tsx:196 | the progress sum of one task is its `current`; with no negative `current` the sum is not negative |
| `TodoOps.SumTotal` | daily-todo.tsx:197 | the target sum of one task is its `total`; with no negative `total` the sum is not negative |
| `TodoOps.TotalProgress` | daily-todo.tsx:193-201 | no tasks give `{0, 0, 0}`; otherwise current and total are the sums over all tasks, and the percentage is their ratio times 100 rounded half up, for a positive and for a negative target sum |
| `TodoOps.SumsAppend` | daily-todo.tsx:196-197 | both sums split over concatenation |
| `TodoOps.SumsBounded` | daily-todo.tsx:196-197 | when every task has `0 <= current <= total`, `0 <= sum of current <= sum of total` |
| `TodoOps.TotalProgressInRange` | daily-todo.tsx:193-201 | with every task in range and a positive target sum, the overall percentage is in `[0, 100]` and current is at most total |
| `TodoOps.AllDoneIsHundred` | daily-todo.tsx:193-201 | when every task has reached its target, the overall percentage is 100 |
| `TodoOps.SumsEqualWhenDone` | daily-todo.tsx:196-197 | when every task has reached its target, the two sums are equal |
| `TodoOps.TotalsIgnoreIncludeInTotal` | daily-todo.tsx:193-201 | changing `includeInTotal` on any tasks leaves both sums unchanged: the flag is not consulted |
| `TodoOps.AddedTaskSums` | daily-todo.tsx:92-101 | adding a task adds its total to the target sum and nothing to the progress sum |
| `TodoOps.CompletedToday` | daily-todo.tsx:204-207 | a task counts as completed today exactly when its last-update date is today's date string |
| `TodoOps.InProgress` | daily-todo.tsx:365 | a task is in progress when `0 < current < total` |
| `TodoOps.NotStarted` | daily-todo.tsx:370 | a task is not started when `current == 0` |
| `TodoOps.Count` | daily-todo.tsx:360-371 | `tasks.filter(p).length` is at most the task count, 0 exactly when no task satisfies `p`, and for one task 1 exactly when it satisfies `p` |
| `TodoOps.CountAppend` | daily-todo.tsx:360-371 | the count splits over concatenation, so it is the number of tasks satisfying `p` |
| `TodoOps.DailyStats` | daily-todo.tsx:358-372 | the card shows the task count and, for completed today, in progress and not started, the number of tasks meeting that condition (`tasks.filter(p).length`), each at most the task count and 0 exactly when no task meets it |
| `TodoOps.DisjointCounts` | daily-todo.tsx:365-371 | two conditions no task meets together count at most all tasks between them |
| `TodoOps.StatsDisjoint` | daily-todo.tsx:358-372 | "in progress" (`0 < current < total`) plus "not started" (`current == 0`) is at most the task count |
| `TodoOps.IncrementMarksCompletedToday` | daily-todo.tsx:204-207 | after an increment on `today` every task with the id is completed today, and the "completed today" count does not drop |
| `TodoOps.CountGrows` | daily-todo.tsx:360 | an increment on `today` never lowers the number of tasks completed today |
| `DailyTodo.TodoList.constructor` | daily-todo.tsx:35-66 | mounting starts from empty maps and shows the stored list when there is one |
| `DailyTodo.TodoList.SaveTasks` | daily-todo.tsx:83-86 | the new list is both shown and stored; the side maps are unchanged |
| `DailyTodo.TodoList.AddTask` | daily-todo.tsx:89-110 | the list becomes `AddedTasks` of the old one; it is stored only when the name is not blank; the side maps are unchanged |
| `DailyTodo.TodoList.DeleteTask` | daily-todo.tsx:113-124 | the list loses every task with the id and is stored; the id is removed from both side maps and no other key changes |
| `DailyTodo.TodoList.CompleteTask` | daily-todo.tsx:136-147 | the default increment is applied to the id's tasks and stored; ids and the target sum are kept, those tasks are completed today, and the `0 <= current <= total` range is preserved for non-negative steps |
| `DailyTodo.TodoList.AddCustomProgress` | daily-todo.tsx:150-165 | the stored custom amount (1 when missing or zero) is applied with clamping and stored; the id's input flag becomes false; the range is preserved for any amount |
| `DailyTodo.TodoList.ToggleCustomIncrement` | daily-todo.tsx:168-173 | the id's flag is negated and a missing or zero amount becomes 1; the tasks are untouched |
| `DailyTodo.TodoList.SetCustomValue` | daily-todo.tsx:606-611 | the typed amount is stored for the id; nothing else changes |
| `DailyTodo.TodoList.SaveEditedTask` | daily-todo.tsx:182-185 | the edited task replaces exactly the tasks with its id; length, order and ids are kept, and the list is stored |
| `EditTaskDialog.LoadedStartValue` | edit-task-dialog.tsx:43 | a missing start value loads as 0, a present one as itself |
| `EditTaskDialog.LoadedIncludeInTotal` | edit-task-dialog.tsx:45 | the checkbox loads unticked only when the task says `includeInTotal: false` explicitly |
| `EditTaskDialog.LoadForm` | edit-task-dialog.tsx:38-47 | with a task and the dialog open, the form shows the task's name, numbers and loaded defaults; otherwise it keeps its previous values |
| `EditTaskDialog.HandleSave` | edit-task-dialog.tsx:49-68 | no update without a task or with a blank name; otherwise id and creation date carried over, trimmed name, `total >= startValue + 1` and `>= entered total`, `current >= entered startValue` and `>= entered current`, stored start `>= 0` and 0 exactly for a negative entry, increment `>= 1` and either 1 or the entered one, the checkbox value, and `lastUpdatedDate` = today exactly when the entered current differs from the old one |
| `EditTaskDialog.SaveUntouchedForm` | edit-task-dialog.tsx:38-68 | opening the dialog on a task that already meets the bounds and saving without edits gives the task back, with only its optional fields made explicit |
| `EditTaskDialog.SavedIsWellFormed` | edit-task-dialog.tsx:57-61 | with a non-negative entered start value, the saved task meets every bound the dialog enforces |
| `EditTaskDialog.SaveIdempotent` | edit-task-dialog.tsx:49-68 | with a non-negative entered start value, reopening the saved task and saving again changes nothing (not even the last-update date) |
| `EditTaskDialog.NegativeStartBreaksBounds` | edit-task-dialog.tsx:58-60 | with entered start -3, total 0 and current -3 the saved task has start 0, total 0 and current -3: total is not above the start, current is below it |
| `EditTaskDialog.HandleSaveClamped` | edit-task-dialog.tsx:58-60 | the corrected save clamps total and current against the stored start value, so `total >= startValue + 1` and `current >= startValue` always hold; each is either the bound or the entered value, and the increment is either 1 or the entered one |
| `EditTaskDialog.ClampedSaveIsWellFormedAndIdempotent` | edit-task-dialog.tsx:49-68 | the corrected save always yields a task within the bounds, and saving it again changes nothing |
| `EditTaskDialog.ClampedAgreesOnValidStart` | edit-task-dialog.tsx:58-61 | for non-negative start values the corrected save is the original one |
| `Utf8.EncodeChar` | settings-page.tsx:57 | one scalar value takes 1 to 4 bytes |
| `Utf8.Encode` | settings-page.tsx:57 | `unescape(encodeURIComponent(s))` has between one and four bytes per character, and ASCII text passes through unchanged |
| `Utf8.Decode` | settings-page.tsx:78 | `decodeURIComponent(escape(b))`, when it succeeds, yields between a quarter of and as many characters as there were bytes |
| `Utf8.DecodeFirst` | settings-page.tsx:78 | a sequence accepted at the front (RFC 3629 section 4) takes 1 to 4 bytes and never more than are present |
| `Utf8.DecodeEncode` | settings-page.tsx:57-78 | decoding the UTF-8 bytes of any string gives the string back |
| `Utf8.EncodeDecode` | settings-page.tsx:57-78 | bytes that decode are exactly the encoding of what they decode to: decoding accepts nothing but encodings |
| `Utf8.DecodeFirstEncodeChar` | settings-page.tsx:57-78 | one encoded scalar value is read back whole, whatever follows it |
| `Utf8.EncodeCharDecodeFirst` | settings-page.tsx:57-78 | one well-formed sequence re-encodes to exactly its bytes |
| `Base64.SextetValue` | settings-page.tsx:78 | each alphabet character stands for the 6-bit value the alphabet table maps back to it |
| `Base64.EncodeUnpadded` | settings-page.tsx:57 | 4 characters per 3 bytes, 2 or 3 for a final group of 1 or 2 bytes, all from the alphabet |
| `Base64.Encode` | settings-page.tsx:57 | `btoa`: the length is a multiple of 4, `4·ceil(n/3)`, and `=` appears only in the last two positions |
| `Base64.EncodeTailCanonical` | settings-page.tsx:57 | the bits that fill out a final group of one or two bytes are zero (section 3.5 of RFC 4648) |
| `Base64.EncodeUnpaddedCanonical` | settings-page.tsx:57 | for any input whose length is not a multiple of 3, the last unpadded character has its spare bits zero |
| `Base64.EncodeCanonical` | settings-page.tsx:57 | `btoa` output is canonical: the character just before the `=` padding is an alphabet character whose spare bits are zero, so `[0x41]` gives `QQ==` and never `QV==` |
| `Base64.DecodeUnpadded` | settings-page.tsx:78 | `n` alphabet characters give `floor(3n/4)` bytes |
| `Base64.SpareBitsDiscarded` | settings-page.tsx:78 | in a final group of 2 or 3 characters the bits beyond the last whole byte are ignored: the group decodes like its canonical form with those bits zero |
| `Base64.StripPadding` | settings-page.tsx:78 | the result is a prefix of the input; anything dropped is one or two `=` at the end of a multiple of 4 characters |
| `Base64.StripPaddingDropsPadding` | settings-page.tsx:78 | on a length that is a multiple of 4, two final `=` are dropped when both are `=`, one when only the last is; any other input is left unchanged |
| `Base64.ForgivingDecode` | settings-page.tsx:78 | `atob` succeeds iff, after whitespace removal and dropping padding, what is left has a length not `1 mod 4` and only alphabet characters; the output has `floor(3n/4)` bytes for those `n` characters; an accepted input contains only alphabet characters, `=` and ASCII whitespace, and once the ASCII whitespace is removed, `=` appears only as one or two final characters of a length that is a multiple of 4 |
| `Base64.EqualsOnlyInPadding` | settings-page.tsx:78 | when the unpadded rest is all alphabet, every `=` of the input sits in a final padding run of at most two in a length that is a multiple of 4 |
| `Base64.GroupRoundTrip` | settings-page.tsx:57-78 | a group of three bytes comes back from its four characters |
| `Base64.TailRoundTrip` | settings-page.tsx:57-78 | a final group of one or two bytes comes back from its characters |
| `Base64.DecodeEncodeUnpadded` | settings-page.tsx:57-78 | decoding the unpadded characters gives the bytes back |
| `Base64.DecodeEncode` | settings-page.tsx:57-78 | `atob(btoa(x)) == x` for every byte string |
| `Base64.DecodeWithoutPadding` | settings-page.tsx:78 | the padding is optional: the unpadded characters decode to the same bytes |
| `Base64.WhitespaceIgnored` | settings-page.tsx:78 | ASCII whitespace anywhere in the input does not change the result |
| `Json.Lookup` | settings-page.tsx:81 | absent iff no member has the key; otherwise the value of the last member with that key |
| `Json.Property` | settings-page.tsx:87 | property access on anything but an object gives `undefined`; on an object it is the member lookup |
| `Json.Truthy` | settings-page.tsx:87 | JavaScript truthiness: `undefined`, `null`, `false`, `0` and `""` are falsy, everything else is truthy |
| `Json.IsNumber` | settings-page.tsx:87 | `typeof x === "number"` holds only for a present number |
| `SettingsPage.ExportBundle` | settings-page.tsx:47-54 | the bundle has exactly the three fields `tasks` (the stored value, or an empty array when nothing is stored), `exportDate` and `version = "1.0"` |
| `SettingsPage.EncodeToken` | settings-page.tsx:56-57 | the token uses only Base64 alphabet characters and `=`, and is empty only for empty text |
| `SettingsPage.DecodeToken` | settings-page.tsx:72-78 | blank input fails with the empty-input error, exactly then; otherwise a trimmed input `atob` refuses fails as a malformed token, bytes that are not UTF-8 fail as malformed text exactly when `atob` accepted, on success the text's UTF-8 bytes are what `atob` returned, and a failure arises only from blank input, an `atob` refusal or bytes that are not UTF-8, so every non-blank token `atob` accepts whose bytes are UTF-8 is accepted |
| `SettingsPage.IsValidTask` | settings-page.tsx:87 | a task passes when `id` and `name` are truthy and `total` and `current` are numbers |
| `SettingsPage.KeepValid` | settings-page.tsx:86-88 | a task is kept iff its `id` and `name` are truthy and its `total` and `current` are numbers |
| `SettingsPage.KeepValidAppend` | settings-page.tsx:86-88 | the filter distributes over concatenation, so kept tasks keep their relative order |
| `SettingsPage.KeepAllValid` | settings-page.tsx:86-88 | a list of tasks that all pass the filter is kept whole |
| `SettingsPage.ReadTasks` | settings-page.tsx:79-92 | success iff the payload is an object whose `tasks` is an array without nulls with at least one valid task; the result is the filtered list in order; every failure is a shape error or "no valid tasks" |
| `SettingsPage.ImportTasks` | settings-page.tsx:70-92 | fails as empty input exactly for blank input; a decode failure is passed on unchanged, a parse failure is malformed JSON, and a parsed payload gives exactly the validation result; success means the token decoded, parsed, and passed validation |
| `SettingsPage.TokenRoundTrip` | settings-page.tsx:57-78 | decoding the token of any non-empty text gives the text back; the empty text's token is refused as blank |
| `SettingsPage.ExportThenImport` | settings-page.tsx:45-92 | importing an exported token yields the validation of the stored tasks, given that parsing reads back what printing wrote |
| `SettingsPage.ReadExportedTasks` | settings-page.tsx:79-92 | a bundle carrying a non-empty list of valid tasks reads back as that list |
| `SettingsPage.ReimportIsIdentity` | settings-page.tsx:86-98 | a store written by a confirmed import exports to a token that imports back to exactly the same tasks |
| `SettingsPage.EmptyExportIsRefused` | settings-page.tsx:48-92 | with nothing stored the export carries an empty list, which import refuses as having no valid tasks |
| `SettingsPage.MessageAfterImport` | settings-page.tsx:72-110 | blank input asks for data, any other failure shows the failure message, a confirmed import reports the count, a declined one leaves the message |
| `SettingsPage.Settings.constructor` | settings-page.tsx:18-20 | the page starts with the given store, an empty import box and no message |
| `SettingsPage.Settings.SetImportText` | settings-page.tsx:188 | the typed text goes into the import box; store and message unchanged |
| `SettingsPage.Settings.ExportTasks` | settings-page.tsx:45-67 | the token is the UTF-8-then-Base64 encoding of the printed bundle; the message says whether the clipboard took it; the store is untouched |
| `SettingsPage.Settings.ProcessImport` | settings-page.tsx:70-111 | on confirmation of a valid import the store holds exactly the filtered tasks (a replacement, not a merge) and the box is cleared; on decline, blank input or any failure the store is unchanged and the message says why |

## Findings

| source | as written | input that shows it | evidently intended | confidence | as-written member | corrected member |
|---|---|---|---|---|---|---|
| edit-task-dialog.tsx:58-60 | `total` and `current` are clamped against the entered start value, but the stored start value is `max(0, startValue)` | start value -3, total 0, current -3 (the `min` attributes of number inputs do not stop typed negatives) | the comments say the total must exceed the start value and the current must not fall below it; clamping against the stored start value does that | medium, not executed | `EditTaskDialog.NegativeStartBreaksBounds` | `EditTaskDialog.HandleSaveClamped` |

`EditTaskDialog.HandleSave` stays the model of the dialog as written: the to-do list takes
whatever record the dialog hands it, so nothing else depends on the corrected save.
`EditTaskDialog.ClampedAgreesOnValidStart` shows the two differ only for negative start values.

## Left out

- Rendering, animation and input plumbing: JSX, framer-motion, the disabled state of the increment buttons (daily-todo.tsx:563, 625), the view switch, the form fields of the add view and their reset after adding.
- particle-effects.tsx and the particle trigger in the increment handlers: random floating-point geometry and a timer, with no effect on the tasks; also the `test-particles` event listener (daily-todo.tsx:69-80) and the particle-count setting (settings-page.tsx:18-42, 114-125).
- app/page.tsx: a one-line wrapper around the component.
- Persistence: `localStorage` is a field (`saved`, `storedTasks`) holding the value, not its JSON text; the last-reset key written at mount (daily-todo.tsx:64) is not modelled. The two pages' stores are separate fields: the store holds typed tasks for the list and JSON values for the settings page, so a stored value that is not a task list is outside the list's model.
- `JSON.stringify` and `JSON.parse` are library calls and are function parameters; the round-trip lemmas assume only that parsing reads back what printing wrote, as a precondition.
- The clock and ids: `today`, `exportDate` and the new task id are parameters.
- The clipboard, `confirm`, the page reload and the message timers are booleans or left out.
- JavaScript numbers are integers here: no fractions, NaN or Infinity. `Math.round((c / t) * 100)` is computed over exact rationals, so a floating-point result that lands just below a half (such as 28.499999…) can round differently; a zero total, which gives NaN (zero progress) or an infinity (non-zero progress), is excluded by precondition.
- Strings are sequences of Unicode scalar values: a lone surrogate, which makes `encodeURIComponent` throw and the export show the copy-failed message, cannot be represented.
- `TodoOps.TotalProgress`: the precondition excludes a zero target sum over a non-empty list, where the component shows NaN (zero progress sum) or an infinity (non-zero progress sum).
- `TodoOps.RoundedPercent`: the precondition excludes a zero total, where the component shows NaN or Infinity.
- Stored JSON text that fails to parse during export (which would also show the copy-failed message) cannot arise, since the store holds values.
