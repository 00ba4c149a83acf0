# A verified model of the to-do application's task logic

This project models the logic of a small to-do application, with the I/O stripped away. It has an Express/Postgres backend and a browser front end in plain JavaScript. The model covers five parts:

- **Task service** (`TasksController`, tasks_controller.dfy). The four HTTP handlers (list, create, update, delete) are total functions over an abstract `tasks` table. The table is a sequence of rows plus the next value of the serial id. Each handler returns either a status and body, or a storage `Fault`, which is the `next(err)` path, together with the table afterwards. The column defaults of the schema are the model's assumptions: a serial id, `completed = false`, the insertion timestamp, and the `VARCHAR(255)` limit.
- **Page view-model** (`App`, app.dfy). The state is the list on screen and the id being edited. Each user action is a transition: load, add (prepend), toggle, start/save/cancel edit, and delete. Three things become parameters: how each API call settled, the answer to `confirm()` and the edit box's text; each transition also reports the request it issues.
- **Add form** (`TaskForm`, task_form.dfy). It covers title validation, the `isSubmitting` guard, the button's enabled state and the classification of add errors. The asynchronous `handleAddTask` is split at its `await` into `Submit` and `Settle`, so what a second click sees in between can be stated.
- **`escapeHtml`** (`Html`, html.dfy). It is five global replacements applied in turn. The model proves they equal a per-character entity map, and that a decoder inverts that map.
- **Counters** (`Stats`, stats.dfy). These are the total, completed and pending counts.

Two modules are shared. `Tasks` holds the task row and the by-id lookups that both sides use. `Text` holds JavaScript's `trim` over the ECMAScript white-space and line-terminator characters, and substring search.

`createTask` refuses a blank title, but `updateTask` stores any truthy string title as sent, untrimmed; `BlankTitleCreateVersusUpdate` shows the difference. In both handlers the title goes through the `VARCHAR(255)` column as Postgres binds it (`TitleColumn`): a title holding U+0000, or longer than 255 characters with anything but spaces past the 255th, fails the query before any row is read; a longer title whose excess is all spaces is stored cut to 255 characters. Create trims first, so for create only the failure remains.

## Model

| member | source | states |
|---|---|---|
| Text.Trim | backend/src/controllers/tasksController.js:19 | `trim` returns a contiguous slice of its input that starts and ends with a non-white-space character (or is empty) |
| Text.TrimDropsOnlyWhitespace | backend/src/controllers/tasksController.js:25 | everything `trim` removes, before and after the kept slice, is white space |
| Text.TrimWithin | backend/src/controllers/tasksController.js:25 | every character of the trimmed title comes from the title |
| Text.TrimKeeps | backend/src/controllers/tasksController.js:25 | `trim` keeps every character that is not white space |
| Text.TrimIdempotent | frontend/src/components/TaskForm.js:47 | trimming twice is trimming once |
| Text.TrimOfTrimmed | frontend/src/components/TaskForm.js:47 | a string with no white space at either end is left as it is |
| Text.TrimEmptyIff | backend/src/controllers/tasksController.js:19 | `title.trim() === ''` exactly when every character of the title is white space |
| Text.ContainsIffOccurs | frontend/src/components/TaskForm.js:176 | `includes` holds exactly when the pattern occurs at some position |
| Text.ContainsInContext | frontend/src/components/TaskForm.js:178 | a pattern found in a piece is found in any string that has that piece inside it |
| Tasks.FirstIndexOf | frontend/src/app.js:46 | `find` by id gives `None` exactly when no task has the id; otherwise it gives the first index holding it |
| Tasks.WithoutId | frontend/src/app.js:88 | filtering an id out keeps exactly the tasks without that id and removes at least one entry when the id is present |
| Tasks.WithoutIdAppend | frontend/src/app.js:88 | filtering distributes over concatenation, so the kept tasks stay in order |
| Tasks.WithoutIdOfUnique | backend/src/controllers/tasksController.js:73 | with distinct ids, filtering an id out removes exactly the one entry holding it |
| Tasks.WithoutIdDistinct | backend/src/controllers/tasksController.js:73 | filtering keeps ids distinct |
| TasksController.Truthy | backend/src/controllers/tasksController.js:19 | a value is truthy exactly when it is none of `undefined`, `null`, `false`, `0` and `""` |
| TasksController.TitleColumn | backend/src/config/database.js:23 | the `title` column takes a string exactly when it has no U+0000 and nothing but spaces past the 255th character; it stores the string's prefix of at most 255 characters |
| TasksController.TitleColumnOfTrimmed | backend/src/controllers/tasksController.js:25 | a trimmed title is never cut by the column: it is stored whole, and always when it has no U+0000 and fits |
| TasksController.MalformedIdFaults | backend/src/controllers/tasksController.js:37-56 | an `:id` that is not an integer in the 32-bit range fails the query in update and in delete: a storage fault with the table unchanged, never a 400 or 404 once a field is given |
| TasksController.InsertByCreatedAt | backend/src/controllers/tasksController.js:7 | inserting into a newest-first list keeps it newest first and adds exactly that row |
| TasksController.OrderByCreatedAtDesc | backend/src/controllers/tasksController.js:7 | `ORDER BY created_at DESC` returns the same rows, newest first |
| TasksController.GetAllTasks | backend/src/controllers/tasksController.js:5-12 | listing answers 200 with every row exactly once, newest first, and leaves the table untouched |
| TasksController.NewestFirstUnique | backend/src/controllers/tasksController.js:7 | without timestamp ties, only one arrangement of the rows is newest first |
| TasksController.ListOrder | backend/src/controllers/tasksController.js:7-8 | without timestamp ties, the listing is exactly the newest-first arrangement of the table |
| TasksController.CreateTask | backend/src/controllers/tasksController.js:15-32 | create answers 400 exactly when the title is falsy or all white space; it changes the table only on 201, and then appends exactly one row and answers with that row; it keeps the table valid |
| TasksController.InsertFreshRow | backend/src/config/database.js:21-26 | appending a row that carries the next serial id keeps ids distinct and the table valid |
| TasksController.CreateRejectsBlankTitle | backend/src/controllers/tasksController.js:19-21 | a missing, null or blank title is a 400 with the fixed message and the table unchanged |
| TasksController.CreateStoresTrimmedTitle | backend/src/controllers/tasksController.js:23-28 | a successful create appends the trimmed title, not completed, with the clock's time and an id no row had, and answers 201 with that row |
| TasksController.CreateTooLongFaults | backend/src/config/database.js:23 | the 255-character limit belongs to the column: a trimmed title longer than 255 passes the controller and then fails the insert |
| TasksController.NulTitleFaults | backend/src/controllers/tasksController.js:23-26 | a title holding U+0000 fails both the insert of create and the query of update, and changes nothing |
| TasksController.UpdateTask | backend/src/controllers/tasksController.js:35-66 | update answers only 200, 400 or 404; it changes the table only on 200; it never changes a row's id or timestamp or the number of rows; a 200 needs an integer key that some row has, and its body is the stored row at the first such index; it keeps the table valid |
| TasksController.PatchRows | backend/src/controllers/tasksController.js:44-51 | `UPDATE … WHERE id = $n` keeps the number of rows, every id and timestamp, and every row without the key; with no row holding the key the table is unchanged |
| TasksController.PatchKeepsValid | backend/src/controllers/tasksController.js:44-51 | writing `completed` or a title that fits the column keeps the table valid |
| TasksController.UpdateNeedsAField | backend/src/controllers/tasksController.js:52-54 | with `completed` undefined and no truthy title, update is a 400 and changes nothing, whatever the id |
| TasksController.UpdateCompletedOnly | backend/src/controllers/tasksController.js:46-48 | with only `completed`, the matching row gets the new flag and keeps its title; every other row is unchanged; the answer is 200 with that updated row |
| TasksController.UpdateTitleVerbatim | backend/src/controllers/tasksController.js:49-51 | with only a title that fits the column and has no U+0000, it is stored as sent, untrimmed, the flag is kept, and the answer is 200 with that updated row |
| TasksController.UpdateCutsTrailingSpaces | backend/src/controllers/tasksController.js:49-51 | a title longer than 255 whose excess is all spaces is stored cut to 255 characters and returned that way |
| TasksController.UpdateOverlongFaults | backend/src/controllers/tasksController.js:49-51 | a title with a non-space character past the 255th fails the query and changes nothing, whether or not a row has the id |
| TasksController.BlankTitleCreateVersusUpdate | backend/src/controllers/tasksController.js:19-51 | a title of two spaces is refused by create and stored by update |
| TasksController.UpdateBoth | backend/src/controllers/tasksController.js:43-45 | with both fields, both columns of the matching row are written, the other rows are unchanged, and the answer is 200 with that updated row |
| TasksController.UpdateMissingIsNotFound | backend/src/controllers/tasksController.js:58-60 | updating an id no row has is a 404 and changes nothing, for any request with a field whose values the columns accept |
| TasksController.DeleteTask | backend/src/controllers/tasksController.js:69-83 | delete answers only 204 or 404; it changes the table only on 204; it keeps the id sequence and the table's validity |
| TasksController.DeleteMissingIsNotFound | backend/src/controllers/tasksController.js:75-77 | deleting an id no row has is a 404 and changes nothing |
| TasksController.DeleteRemovesExactlyThatRow | backend/src/controllers/tasksController.js:73-79 | a successful delete answers 204 and removes exactly that row; the others stay, in order |
| TasksController.DeleteTwice | backend/src/controllers/tasksController.js:73-77 | deleting the same id twice gives 204 and then 404 |
| TasksController.Lifecycle | backend/src/controllers/tasksController.js:5-83 | on an empty table, a task is created with id 1 and listed alone. It is then completed and deleted, and the list is empty again |
| App.LoadTasks | frontend/src/app.js:26-33 | a load replaces the list with the server's; a failure keeps the list and shows the load notice |
| App.HandleAddTask | frontend/src/app.js:35-43 | a successful add puts the server's row in front of the list, without re-sorting; a failure leaves the state alone and rethrows the message |
| App.ToggleTask | frontend/src/app.js:45-56 | toggling an id not on screen issues no request and changes nothing; a failure keeps the list and shows the update notice |
| App.ToggleRequestsInverse | frontend/src/app.js:46-50 | toggle asks for the negation of the flag of the first task with the id |
| App.ReplaceById | frontend/src/app.js:51 | the `map` keeps the length and every entry without the id; every entry after it is the server's row or an old entry without the id; the server's row appears when the id was present, and nothing changes when it was not |
| App.ToggleSuccess | frontend/src/app.js:51 | a successful toggle replaces every entry with the id by the server's row; the other entries and the length are unchanged |
| App.ReplaceByIdKeepsOthers | frontend/src/app.js:51 | when the server's row carries the id, the entries without the id are the same before and after the replacement |
| App.StartEdit | frontend/src/app.js:58-61 | starting an edit changes only the edited id |
| App.SaveEdit | frontend/src/app.js:63-76 | a missing box or blank text issues no request and changes nothing; any request carries the trimmed text as the title; a failure changes nothing |
| App.SaveSuccess | frontend/src/app.js:69-72 | a successful save sends the trimmed title, replaces the entries with the id and ends editing |
| App.SaveFailure | frontend/src/app.js:73-75 | a failed save keeps both the list and the edited id, and shows the save notice |
| App.CancelEdit | frontend/src/app.js:78-81 | cancelling clears the edited id and keeps the list |
| App.CancelIgnoresId | frontend/src/app.js:78-81 | cancelling ignores its argument and undoes a start |
| App.DeleteTask | frontend/src/app.js:83-93 | a declined confirmation does nothing; a confirmed one asks to delete that id; success drops every entry with the id and shows no notice; a failure keeps the list and shows the delete notice |
| App.DeleteSuccess | frontend/src/app.js:87-89 | on any list, a successful delete keeps exactly the entries without the id, each side of a removed entry in order, and shows no notice |
| App.DeleteSuccessDistinct | frontend/src/app.js:88 | with distinct ids, the delete removes exactly the one entry at the id's index |
| App.AddUpdatesCounts | frontend/src/app.js:38-39 | after an add, the total grows by one and so does the completed or the pending count, according to the new row |
| App.ToggleMovesOneTask | frontend/src/app.js:50-52 | with distinct ids and the flag flipped by the server, a toggle moves exactly one task between completed and pending |
| TaskForm.ValidateInput | frontend/src/components/TaskForm.js:66-86 | a title is accepted exactly when its length is 2 to 255; empty gets the "ingresa" message, one character gets the "al menos 2" message, too long gets the "demasiado larga" message |
| TaskForm.Submit | frontend/src/components/TaskForm.js:44-56 | while submitting nothing happens. Otherwise `onAddTask` is called once, with the trimmed text, exactly when that text validates, and the form then enters the submitting state |
| TaskForm.Settle | frontend/src/components/TaskForm.js:55-63 | after the call settles the form is not submitting; success clears the box, failure keeps it and shows the classified error |
| TaskForm.HandleAddTask | frontend/src/components/TaskForm.js:44-64 | a whole invocation calls `onAddTask` at most once, only with the validated trimmed text, and leaves the guard down |
| TaskForm.SecondSubmitIgnored | frontend/src/components/TaskForm.js:45 | a second submission while one is in flight does nothing, and the button is disabled meanwhile |
| TaskForm.HandleAddCallsOnceIffValid | frontend/src/components/TaskForm.js:47-56 | with the guard down, `onAddTask` is called exactly once if the trimmed length is 2 to 255, and never otherwise |
| TaskForm.HandleAddSettles | frontend/src/components/TaskForm.js:56-63 | success clears the box, failure keeps its text with the classified error, and the guard is down either way |
| TaskForm.ShortTitles | frontend/src/components/TaskForm.js:73-77 | a one-character title is refused without a call; a two-character title is passed on once |
| TaskForm.ButtonEnabled | frontend/src/components/TaskForm.js:101-115 | the button is enabled exactly when the box holds a character that is not white space and nothing is being submitted |
| TaskForm.ButtonEnabledNotSufficient | frontend/src/components/TaskForm.js:101-104 | a call needs an enabled button, but an enabled button is not enough: a single character enables it and still fails validation |
| TaskForm.ClassifyError | frontend/src/components/TaskForm.js:171-184 | an add error always shows one of the three fixed messages |
| TaskForm.ClassifyErrorPriority | frontend/src/components/TaskForm.js:171-184 | a transport failure gives the connection message; otherwise "500" gives the server message; anything else gives the generic one |
| TaskForm.ClassifyHttpError | frontend/src/components/TaskForm.js:178-179 | any message that mentions 500 but no transport failure reads as a server error |
| TaskForm.ClassifyNetworkWins | frontend/src/components/TaskForm.js:176-177 | a transport failure wins even when the message also mentions 500 |
| Html.ReplaceAll | frontend/src/utils/helpers.js:3 | a replacement leaves a string without the target unchanged, and leaves no target behind when the replacement has none |
| Html.ReplaceAllAppend | frontend/src/utils/helpers.js:3-7 | a global replacement distributes over concatenation |
| Html.EscapeHtml | frontend/src/utils/helpers.js:1-8 | the result holds no raw `<`, `>`, `"` or `'`, and an input without any of the five special characters comes back unchanged |
| Html.ReplaceAllKeepsAbsent | frontend/src/utils/helpers.js:4-7 | a replacement cannot bring in a character that neither the string nor the replacement holds |
| Html.EscapeHtmlAppend | frontend/src/utils/helpers.js:1-8 | `escapeHtml(a + b) == escapeHtml(a) + escapeHtml(b)` |
| Html.EscapeAppend | frontend/src/utils/helpers.js:1-8 | the per-character map distributes over concatenation |
| Html.EscapeHtmlChar | frontend/src/utils/helpers.js:3-7 | on one character the five replacements give that character's entity |
| Html.EscapeHtmlAmp | frontend/src/utils/helpers.js:3 | `escapeHtml("&") == "&amp;"` |
| Html.EscapeHtmlLt | frontend/src/utils/helpers.js:3-4 | `escapeHtml("<") == "&lt;"`: the entity is not escaped again |
| Html.EscapeHtmlGt | frontend/src/utils/helpers.js:5 | `escapeHtml(">") == "&gt;"` |
| Html.EscapeHtmlQuot | frontend/src/utils/helpers.js:6 | `escapeHtml("\"") == "&quot;"` |
| Html.EscapeHtmlApos | frontend/src/utils/helpers.js:7 | `escapeHtml("'") == "&#039;"` |
| Html.EscapeHtmlIsPerCharacter | frontend/src/utils/helpers.js:1-8 | the chain of five replacements equals the per-character entity map on every input |
| Html.EscapeHtmlNotIdempotent | frontend/src/utils/helpers.js:3 | `escapeHtml("&amp;") == "&amp;amp;"` |
| Html.EscapeHtmlTwiceDiffers | frontend/src/utils/helpers.js:3 | escaping `&` twice differs from escaping it once |
| Html.EscapeNoMarkup | frontend/src/utils/helpers.js:4-7 | the per-character map leaves no raw `<`, `>`, `"` or `'` |
| Html.EscapeHtmlNoMarkup | frontend/src/utils/helpers.js:1-8 | the output of `escapeHtml` holds no raw `<`, `>`, `"` or `'`, whatever the input |
| Html.EscapeUnchangedIff | frontend/src/utils/helpers.js:1-8 | the per-character map never shortens its input. It leaves the input unchanged exactly when no special character occurs, and otherwise makes it longer |
| Html.EscapeHtmlUnchangedIff | frontend/src/utils/helpers.js:1-8 | `escapeHtml` returns its input unchanged exactly when the input has none of the five characters; otherwise the output is strictly longer |
| Html.UnescapeStep | frontend/src/utils/helpers.js:3-7 | decoding consumes exactly the one entity or plain character in front |
| Html.UnescapeEscape | frontend/src/utils/helpers.js:1-8 | decoding the five entities undoes the per-character map |
| Html.EscapeHtmlInjective | frontend/src/utils/helpers.js:1-8 | distinct inputs escape to distinct outputs |
| Stats.CompletedTasks | frontend/src/components/Stats.js:10 | the filter keeps exactly the completed tasks |
| Stats.Update | frontend/src/components/Stats.js:8-11 | total is the length; completed is at most total; pending is their difference and never negative; completed is 0 exactly when none is completed, and pending is 0 exactly when all are |
| Stats.CountAllCompleted | frontend/src/components/Stats.js:10-11 | the completed count equals the total exactly when all tasks are completed, and is zero exactly when none is |
| Stats.CompletedAppend | frontend/src/components/Stats.js:10 | the filter distributes over concatenation |
| Stats.CompletedCountIsIndexCount | frontend/src/components/Stats.js:10 | the completed count is the number of positions holding a completed task |
| Stats.CompletedCountPermutation | frontend/src/components/Stats.js:10 | any permutation of the list has the same completed count |
| Stats.UpdatePermutation | frontend/src/components/Stats.js:8-11 | all three counts are invariant under permutation of the list |
| Stats.UpdateEmpty | frontend/src/components/Stats.js:8-11 | the empty list shows three zeros |

## Left out

- The `:id` route parameter is modelled as already classified (`IdParam`): either an integer or not a numeral at all. How Postgres parses the text (signs, spaces, leading zeros) is not modelled; `Key` only applies the 32-bit range of the `integer` column.
- JSON arrays and objects in a request body are not modelled: `completed` and `title` range over `undefined`, `null`, booleans, numbers and strings.
- A title the column refuses (U+0000, or more than spaces past the 255th character) is a storage fault before any row is looked at, because Postgres evaluates the cast of the bound value while planning the statement; update therefore answers 404 for a missing id only when the column accepts the title.
- Postgres type coercion: in update, a `completed` that is not a boolean, or a truthy `title` that is not a string, is modelled as a storage `Fault`. Postgres would accept some such values, for example the string `"true"` for a boolean column.
- A numeric `title` in create is also a `Fault`: numbers have no `trim` method in JavaScript, so the handler throws.
- JSON numbers are modelled as integers. String length counts characters, not UTF-16 code units, so the 255-character bounds apply to a title that is a sequence of Dafny characters.
- Whether the serial sequence advances on a failed insert is not modelled: a `Fault` leaves `nextId` unchanged.
- The status chosen by the error-handling middleware for `next(err)` is not modelled. backend/src/index.js is not part of this model, so a storage failure is the opaque `Fault` outcome.
- TasksController.OrderByCreatedAtDesc: Postgres leaves the order of equal timestamps unspecified. The model fixes one order, and the uniqueness lemmas assume no ties.
- The timestamp of a created row comes from the `now` parameter, because the database clock is outside the model.
- Database connection, pool configuration, table creation and the Express wiring (CORS, health check, `listen`) are I/O. Only the column defaults of the schema are used, as assumptions.
- frontend/src/services/api.js is a thin `fetch` wrapper: each call's settlement is a parameter (`ApiResult`), and the request is reported as data.
- `renderTasks`, the DOM it builds, `showError`'s timer, and all styling, animation and `setTimeout` feedback in TaskForm.js (including `destroy`) are display effects and are not modelled. The titles that `renderTasks` interpolates into markup are not escaped there, and the model does not claim they are.
- TaskItem.js is markup built on locale date formatting, and the live render path does not use it.
- `formatDate` (locale dates) and `debounce` (timers) in helpers.js are not modelled.
- Concurrency is out of scope: overlapping requests, pool limits and last-writer-wins races.
- The input shake that `validateInput` and `handleAddError` trigger is not modelled; only the message they show is.
