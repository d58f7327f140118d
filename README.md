# Task manager front end — views logic in Dafny

This project models the state logic behind the three task views of the task
manager front end. Each view keeps its state in React hooks; here every
handler is a function from the old state, plus the event it handles, to the
new state.

- **Task list** (`src/components/tasks/Tasks.jsx`), module `Tasks`:
  - the three push handlers for created, updated and deleted tasks;
  - the bounded newest-first notification list and the snackbar;
  - the two-step soft delete (confirm, then mark);
  - the search-and-tab filter;
  - the status chip.
- **Realtime registry** (`src/components/tasks/Tasks.jsx`), module `Realtime`:
  - the local `Echo` stand-in, a class with a mutable registry of channels;
  - each channel holds a mutable map of listeners.
- **Assignment view** (`src/components/tasks/TaskAssignment.jsx`), module `Assignment`:
  - normalising task rows (boolean flags, JSON-encoded user arrays);
  - preselecting and toggling user ids;
  - the guard in front of the assign request;
  - the trimmed, case-insensitive task search with its tabs;
  - the user search.
- **History view** (`src/components/tasks/TaskHistory.jsx`), module `History`:
  - normalising events whose `user`/`task` may arrive as JSON text;
  - the list of distinct users in first-occurrence order;
  - the five-criterion event filter;
  - the icon colour of an action;
  - grouping events by task, each group sorted newest first with a stable sort.
- Shared JavaScript semantics:
  - `Common`: truthiness, optional strings, JSON-encoded fields, the snackbar.
  - `Seqs`: `Array.prototype.map` and `filter`, the first occurrence that `find` stops at, and `[...new Set(xs)]`.
  - `Text`: ASCII `toLowerCase`, `includes`, `trim` with the ECMAScript whitespace set, and the decimal `toString` of integers of ordinary size.

Things outside the model are passed in as parameters:

- the JSON parser (`parse`);
- the current time (`now`);
- the outcome of the assign request (`succeeded` in `Assignment.FinishAssign`); for the delete and history requests, only the success case is modelled, as a handler of its own (`Tasks.DeleteTaskSucceeded`, `History.FetchHistorySucceeded`).

Timestamps are integers.

## Model

| member | source | states |
|---|---|---|
| Tasks.AddNotification | src/components/tasks/Tasks.jsx:221 | the new notification is first, the previous list follows in order, and the length is min(old length + 1, 10) |
| Tasks.Notify | src/components/tasks/Tasks.jsx:220-225 | the notification is put first in the list, which is capped at ten; the snackbar opens with its message and severity; tasks and the delete dialog are untouched |
| Tasks.PushAllKeepsNewest | src/components/tasks/Tasks.jsx:221 | after any series of notifications the list is the newest ones first, followed by the older list, cut to ten |
| Tasks.LastTenSurvive | src/components/tasks/Tasks.jsx:221 | once ten or more have arrived, the list holds exactly the last ten, newest first |
| Tasks.ReplaceTask | src/components/tasks/Tasks.jsx:193 | same length; every entry with the pushed id becomes the pushed task, every other entry is unchanged |
| Tasks.MarkDeleted | src/components/tasks/Tasks.jsx:207-209 | same length; entries with the id get status "Eliminada" with all other fields kept; other entries are unchanged |
| Tasks.OnTaskCreated | src/components/tasks/Tasks.jsx:175-187 | the pushed task is appended after the unchanged list; the notification and snackbar say `Nueva tarea creada: "<title>"` with severity success |
| Tasks.OnTaskUpdated | src/components/tasks/Tasks.jsx:189-201 | tasks replaced by id, with no conflict check; info notification and snackbar `Tarea actualizada: "<title>"` |
| Tasks.OnTaskDeleted | src/components/tasks/Tasks.jsx:203-217 | tasks soft-marked by id, never removed; warning notification and snackbar `Tarea eliminada: "<title>"` |
| Tasks.ConfirmDeleteTask | src/components/tasks/Tasks.jsx:298-301 | remembers the task and opens the dialog; the list, notifications and snackbar are untouched |
| Tasks.DeleteTaskSucceeded | src/components/tasks/Tasks.jsx:304-323 | with no chosen task, nothing changes; otherwise the chosen id is marked "Eliminada", the dialog closes and "Tarea desactivada con éxito" is shown |
| Tasks.ConfirmThenDelete | src/components/tasks/Tasks.jsx:298-323 | confirming a task and then succeeding marks exactly that task's id |
| Tasks.ReplaceTaskIdempotent | src/components/tasks/Tasks.jsx:193 | a repeated update push gives the same list as a single one |
| Tasks.MarkDeletedIdempotent | src/components/tasks/Tasks.jsx:207-209 | a repeated delete push gives the same list as a single one |
| Tasks.SearchTasks | src/components/tasks/Tasks.jsx:346-350 | an order-preserving subsequence holding exactly the tasks whose lowercased title, or present description, contains the lowercased term; every occurrence of a match is kept, with its multiplicity |
| Tasks.FilteredTasks | src/components/tasks/Tasks.jsx:345-362 | an order-preserving subsequence holding exactly the tasks that match the search and the tab's status test, each with its full multiplicity |
| Tasks.EmptySearchKeepsAll | src/components/tasks/Tasks.jsx:346-350 | the empty term keeps every task |
| Tasks.DefaultAndDeletedPartition | src/components/tasks/Tasks.jsx:352-360 | the default tab and the deleted tab are disjoint, and together they are all search matches, counted with multiplicity |
| Tasks.PendingAndCompletedSplitDefault | src/components/tasks/Tasks.jsx:352-360 | the pending and completed tabs are disjoint, and together they are exactly the default tab |
| Tasks.LowerDeletedStatus | src/components/tasks/Tasks.jsx:208 | the status the handlers write lowercases to the status the tabs test for |
| Tasks.DeletedLeavesDefaultTab | src/components/tasks/Tasks.jsx:207-209 | after a delete, no task with that id appears on the default tab |
| Tasks.DeletedShowsOnDeletedTab | src/components/tasks/Tasks.jsx:207-209 | after a delete, every marked task that matches the search appears on the deleted tab |
| Tasks.StatusChip | src/components/tasks/Tasks.jsx:62-97 | the four known lowercased statuses give their fixed label and colour (warning, info, success, error); anything else, a missing status included, gives the default colour with the raw status, or "Desconocido" when it is missing or empty |
| Tasks.LowerOfLabels | src/components/tasks/Tasks.jsx:65-84 | each canonical label lowercases to its own case key |
| Tasks.StatusChipIgnoresCase | src/components/tasks/Tasks.jsx:65 | statuses equal up to case give the same colour, and the same chip when known |
| Tasks.StatusLabelIsFixedPoint | src/components/tasks/Tasks.jsx:62-97 | feeding a chip's label back as a status shows the same label |
| Tasks.MarkedTaskShowsDeletedChip | src/components/tasks/Tasks.jsx:81-84 | a task marked by a delete shows the "Eliminada" chip in the error colour |
| Realtime.ChannelEntry.Listen | src/components/tasks/Tasks.jsx:753-756 | overwrites the callback of one event only, and returns the same entry so calls chain |
| Realtime.Echo.constructor | src/components/tasks/Tasks.jsx:744-747 | keeps the options; the registry starts empty |
| Realtime.Echo.Channel | src/components/tasks/Tasks.jsx:749-760 | an existing name returns its entry with listeners and registry unchanged; a new name registers a fresh entry with no listeners |
| Realtime.Echo.LeaveChannel | src/components/tasks/Tasks.jsx:762-764 | removes exactly that name from the registry |
| Realtime.SubscribeTaskEvents | src/components/tasks/Tasks.jsx:166-171 | the "tasks-channel" entry gains the three callbacks on top of its earlier listeners; no other channel or listener changes |
| Assignment.FormattedTasks | src/components/tasks/TaskAssignment.jsx:160-167 | each row is kept whole and in place; the flags are coerced to booleans by JavaScript truthiness; `assignedusers` is parsed only when it arrives as text |
| Assignment.OpenAssignmentDialog | src/components/tasks/TaskAssignment.jsx:119-128 | selects the task and opens the dialog; preselects exactly the assigned users' ids when they form an array, none otherwise |
| Assignment.ToggleUser | src/components/tasks/TaskAssignment.jsx:131-133 | a selected id is removed everywhere while the other ids keep their order and counts; an unselected id is appended; a duplicate-free selection stays duplicate-free |
| Assignment.ToggleTwice | src/components/tasks/TaskAssignment.jsx:132 | toggling twice restores the selected set, and restores the exact list when the id was not selected |
| Assignment.StartAssign | src/components/tasks/TaskAssignment.jsx:136-150 | no request and no state change if and only if no task or no user is selected; otherwise loading starts and the task id is posted with the selection |
| Assignment.FinishAssign | src/components/tasks/TaskAssignment.jsx:149-157 | loading always ends; on success the dialog closes with a success message; on failure the error message is shown |
| Assignment.OpenThenAssign | src/components/tasks/TaskAssignment.jsx:119-150 | right after opening, assigning posts exactly the task's assigned ids; a task without an array posts nothing |
| Assignment.FilteredTasks | src/components/tasks/TaskAssignment.jsx:170-185 | an order-preserving subsequence holding exactly the tasks that pass the trimmed, lowercased title search (off when the term is empty) and the tab flag, each with its full multiplicity |
| Assignment.BlankSearchKeepsAll | src/components/tasks/TaskAssignment.jsx:171-175 | a term of whitespace only, on the "all" tab, returns every task |
| Assignment.SearchIgnoresSurroundingSpace | src/components/tasks/TaskAssignment.jsx:171 | trimming the term first never changes the result |
| Assignment.FormatCommutesWithFilter | src/components/tasks/TaskAssignment.jsx:160-185 | filtering formatted tasks equals formatting the rows that pass the matching row-level test |
| Assignment.FlagTabsSelectTruthyRows | src/components/tasks/TaskAssignment.jsx:160-181 | tab 1 shows exactly the rows with a truthy `assignedtome`, and tab 2 those with a truthy `createdbyme` |
| Assignment.FilteredUsers | src/components/tasks/TaskAssignment.jsx:189 | an order-preserving subsequence holding exactly the users whose lowercased name contains the lowercased term, each with its full multiplicity |
| Assignment.EmptyUserSearchKeepsAll | src/components/tasks/TaskAssignment.jsx:189 | the empty term lists every user |
| History.Normalize | src/components/tasks/TaskHistory.jsx:274-278 | same length; every field is copied; `user` and `task` are parsed only when they arrive as text |
| History.NormalizeRoundTrip | src/components/tasks/TaskHistory.jsx:274-278 | with a parser that inverts the serialiser, text-encoded history normalises back to the events sent (`History.Serialize` is the reference encoder, the server's side, not part of the view) |
| History.UserIdsOf | src/components/tasks/TaskHistory.jsx:283 | the user id of every event, in order |
| History.FindUser | src/components/tasks/TaskHistory.jsx:284 | finds a user exactly when the id occurs, and then returns the user of the first event with that id |
| History.Summaries | src/components/tasks/TaskHistory.jsx:283-286 | one summary per id, copied from the first event carrying it |
| History.UniqueUsers | src/components/tasks/TaskHistory.jsx:283-286 | fails exactly when some event has no user; otherwise ids are pairwise distinct, the id set equals the events' id set, the order is by first occurrence, and id, name and e-mail come from the first event with that id |
| History.FetchHistorySucceeded | src/components/tasks/TaskHistory.jsx:274-293 | the history is always replaced and loading ends; the user list is replaced only when extraction succeeds |
| History.FilteredHistory | src/components/tasks/TaskHistory.jsx:302-325 | an order-preserving subsequence holding exactly the events that meet all five criteria, each with its full multiplicity |
| History.EmptySearchNeedsContent | src/components/tasks/TaskHistory.jsx:305-308 | with an empty term an event is kept only if it has non-empty details, a named user or a titled task |
| History.TypeFilterIgnoresCase | src/components/tasks/TaskHistory.jsx:311-312 | the selected type compares without regard to case |
| History.ActionCaseIgnored | src/components/tasks/TaskHistory.jsx:311-312 | actions equal up to case ("Creada", "creada") pass or fail every type filter alike |
| History.UserFilterSelectsId | src/components/tasks/TaskHistory.jsx:315 | the user filter set to an id's string keeps exactly that user's events |
| History.OfferedUserHasEvents | src/components/tasks/TaskHistory.jsx:283-315 | every offered user occurs in the history, and selecting them keeps each of their events that passes the other criteria |
| History.DateBoundsInclusive | src/components/tasks/TaskHistory.jsx:318-321 | kept events lie within both dates, and events exactly on either bound are kept |
| History.GetIconColor | src/components/tasks/TaskHistory.jsx:126-141 | each of the five known lowercased actions gets its colour, with "creada" and "completada" sharing one; anything else, a missing action included, is grey |
| History.IconColorIgnoresCase | src/components/tasks/TaskHistory.jsx:127 | the colour depends on the action only up to case |
| History.InsertNewestFirst | src/components/tasks/TaskHistory.jsx:340 | inserting into a newest-first sequence keeps it newest first and adds one element |
| History.InsertPermutes | src/components/tasks/TaskHistory.jsx:340 | insertion adds exactly the inserted event |
| History.InsertKeepsTies | src/components/tasks/TaskHistory.jsx:340 | the inserted event goes before the other events with its timestamp, and their order is kept |
| History.NewestFirst | src/components/tasks/TaskHistory.jsx:340 | the sorted group has non-increasing timestamps and the same length |
| History.NewestFirstPermutes | src/components/tasks/TaskHistory.jsx:340 | sorting is a permutation |
| History.NewestFirstStable | src/components/tasks/TaskHistory.jsx:340 | at every timestamp the sorted sequence lists the same events in input order, since the sort is stable |
| History.CollectByTask | src/components/tasks/TaskHistory.jsx:331-336 | one array per occurring task id, holding exactly that task's events in input order |
| History.SortGroups | src/components/tasks/TaskHistory.jsx:339-341 | the keys are unchanged and every group is replaced by its newest-first sort |
| History.GroupEventsByTask | src/components/tasks/TaskHistory.jsx:328-344 | the keys are the occurring task ids; each group is non-empty, newest first, a permutation of that task's events, and every event lies in exactly its own task's group |
| History.GroupSizesSumToLength | src/components/tasks/TaskHistory.jsx:328-344 | the group sizes, taken over the distinct task ids, add up to the number of events |
| Seqs.Map | src/components/tasks/TaskAssignment.jsx:123 | `Array.prototype.map`: same length, and each element is the function applied to the element at the same position |
| Seqs.Filter | src/components/tasks/Tasks.jsx:346 | `Array.prototype.filter`: an order-preserving subsequence holding exactly the elements that pass |
| Seqs.FilterCounts | src/components/tasks/Tasks.jsx:346 | the filter keeps every occurrence of a passing element and none of a failing one |
| Seqs.FilterPartition | src/components/tasks/Tasks.jsx:352-360 | two exclusive tests whose union is a third split its filter result, counted with multiplicity |
| Seqs.Distinct | src/components/tasks/TaskHistory.jsx:283 | `[...new Set(xs)]`: duplicate-free, the same set of values, in first-occurrence order |
| Text.Trim | src/components/tasks/TaskAssignment.jsx:171 | `String.prototype.trim`: a slice of the input with only whitespace cut away and no whitespace at either end |
| Text.TrimIdempotent | src/components/tasks/TaskAssignment.jsx:171 | trimming twice is trimming once |
| Text.TrimEmptyIffAllSpace | src/components/tasks/TaskAssignment.jsx:171-173 | the trimmed term is empty exactly when the input is whitespace only |
| Text.LowerIdempotent | src/components/tasks/TaskHistory.jsx:312 | lowercasing twice is lowercasing once |
| Text.IntToString | src/components/tasks/TaskHistory.jsx:315 | decimal rendering: non-empty, with a leading minus sign exactly for negative numbers |
| Text.IntToStringInjective | src/components/tasks/TaskHistory.jsx:315 | distinct ids render to distinct strings |

## Left out

- HTTP requests are not modelled: fetching tasks, users, the profile and the history, and the create, update, assign and delete requests. Their results enter as the `succeeded` parameter of `Assignment.FinishAssign` or as handlers for the success case only. The other failure paths are not modelled: the error snackbar of the soft delete (`src/components/tasks/Tasks.jsx:333-335`) and the history request's failure, which only ends loading (`src/components/tasks/TaskHistory.jsx:290-293`).
- The soft-delete fallback is not modelled: the hard `DELETE` request and the refetch when the soft-delete endpoint fails (`src/components/tasks/Tasks.jsx:324-336`).
- The Pusher transport is not modelled: the options passed to `Echo` (`broadcaster`, `key`, `cluster`, `forceTLS`) and `window.Pusher`. The `channel`/`listen` chain of `setupEcho` is `Realtime.SubscribeTaskEvents`.
- Event dispatch is not modelled. The local `Echo` stand-in only stores callbacks and never calls them, so the push handlers are modelled as written, as functions, without a source of events.
- React rendering, hooks, dialogs and MUI components are not modelled, nor the scheduling and batching of state updates. Each handler is one step from state to state.
- `JSON.parse` is a parameter. The exceptions it throws on malformed text are not modelled.
- A JSON value in `user`/`task` that is neither an object nor null (a number, say) is not modelled.
- Text.Lower: maps only ASCII letters, whereas JavaScript's `toLowerCase` applies full Unicode case mapping.
- Text.IntToString: prints every digit. JavaScript switches to exponent form ("1e+21") for magnitudes of 10^21 and above; ids that large are not modelled.
- Dates are integer timestamps. Invalid dates (NaN comparisons), `FormattedDate` and the locale-dependent formatting are not modelled.
- History.GroupEventsByTask: keys are integers. JavaScript coerces `task_id` to a property-name string, so ids that print alike (`1` and `"1"`) would merge. The numeric ordering of the resulting object's keys is not modelled either.
- History.NewestFirst: defined as a stable insertion sort. Stability of `Array.prototype.sort` is required by ECMAScript 2019, section 22.1.3.27. The engine's actual algorithm is not modelled.
- Realtime.Echo: the registry is a map from names to entries. A plain JavaScript object also inherits keys such as `toString`, which `channel` would treat as existing; this is not modelled.
- The history view's own status chip and its action icons (`renderActionIcon`) are presentational. They are not part of this model.
- Tasks.Task: `title` and `status` are strings, as the source assumes when it lowercases them (`Tasks.MatchesSearch` reads the title, `Tasks.InTab` the status). Items whose title or status is missing, which would make the source throw, are not modelled.
- Assignment.FilteredUsers assumes `name` is a string, as the source does. Users without a name, which would make the source throw, are not modelled.
