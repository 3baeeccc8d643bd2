# Task tracker: the task list page and the per-track status buttons

This project models, in Dafny, the list logic of a small task tracker's
task page and the status-cycling helper of its task table.

The task page (`src/pages/TasksPage.tsx`) keeps a list of tasks and a list
of projects. It shows a narrowed list: the tasks of the selected project
that pass a status filter ("all", "todo", "in-progress", "completed") and a
case-insensitive search over title and description. The page also defines
a sort of the shown list by creation time (newest or oldest first), by
priority, or by due date with undated tasks last. After every reply from the task and project
services, the page updates its in-memory lists. A created record is put in
front. An updated record replaces the one with its id. A deleted record is
removed by id. Deleting the selected project clears the selection.

The task table (`src/components/TaskTable.tsx`) shows, for every task, one
column per review track (development, quality assurance, final sign-off).
Each column has an "Update" button that proposes the next state of that
track in the cycle todo → in-progress → completed → todo.

Modules, one per concern:

- `TaskTypes` (`task_types.dfy`): the task and project records, status,
  priority, filter and sort options, and `IsSet`, JavaScript's truthiness of
  an optional string.
- `ListOps` (`list_ops.dfy`): `Filter` and `Replace`, the page's
  `filter`/`map` idioms, with order preservation stated as an embedding of
  indices.
- `TextSearch` (`text_search.dfy`): ASCII lower-casing and substring
  containment.
- `TaskView` (`task_view.dfy`): the reference definition of the shown list
  (`View`), and the id-based list updates.
- `TaskSort` (`task_sort.dfy`): the four comparators, what "sorted" means for
  each, and a stable in-place insertion sort on an array.
- `TasksPageState` (`tasks_page.dfy`): the page as a class whose fields are
  its state hooks, with one method per handler.
- `TaskTable` (`task_table.dfy`): tracks, `NextStatus` and the per-track
  proposals.

Service calls are not modelled. Each handler receives the service's reply
as a parameter: `Some(record)` for success, `None` when the call threw. A
delete receives a `bool` instead. The same reply stands for both reads of
the list in a handler (the `setTasks(prev => …)` updater and the closure's
`tasks`), since the handlers are modelled as running one after another.

Two invariants of the page are stated as ghost predicates:

- `Valid()`: an empty task list shows nothing.
- `Consistent()`: the shown list is a reordering of `View` of the task list
  under the current project, filter and query.

Creating, updating, deleting a task and changing its status keep
`Consistent()`, and so does sorting. `HandleSearch`, `HandleFilter` and
`RefreshForSelectedProject` establish it. Three operations can break it:

- `LoadTasks` stores the fetched list unfiltered as the shown list. That is
  consistent only when no project, filter or query is active.
- Deleting the selected project breaks it until the effect on
  `selectedProjectId` (modelled as `RefreshForSelectedProject`) runs.
- Choosing another project breaks it in the same way.

Where the source is not self-consistent, the code was followed:

- `TaskTable` reads `dev_status`, `qa_status` and `final_status`. These
  fields belong to the database row type (`src/types/database.types.ts`),
  not to the page's `Task` type (`src/types/index.ts`), which has a single
  `status`. So the table has its own row type, `TrackedTask`, with the three
  per-track fields.
- The per-track review workflow with remarks and an audit history of state
  changes does not appear in this code. The page changes a status with a
  plain `updateTask(id, { status })`. The model therefore has no
  compare-and-swap transition and no audit log.
- The page passes `onSearch`, `onFilter` and `onSort` to `TaskList`
  (`src/pages/TasksPage.tsx:383-385`), but `TaskList`'s props
  (`src/components/TaskList.tsx:5-10`) declare none of them. No component in
  this code calls `handleSearch`, `handleFilter` or `handleSort`. They are
  modelled as the page defines them, as operations nothing invokes yet.

## Model

| member | source | states |
|---|---|---|
| ListOps.Filter | src/pages/TasksPage.tsx:259-272 | `filter` keeps exactly the elements the predicate accepts, each as often as in the input, and never lengthens the list |
| ListOps.FilterMembership | src/pages/TasksPage.tsx:259-272 | an element is in the filtered list if and only if it is in the input and accepted |
| ListOps.FilterIsSubsequence | src/pages/TasksPage.tsx:255-273 | the filtered list is an order-preserving subsequence of the input |
| ListOps.FilterFilter | src/pages/TasksPage.tsx:255-273 | two successive filters equal one filter by the conjunction of their predicates |
| ListOps.FilterKeepsAll | src/pages/TasksPage.tsx:255 | a filter that accepts every element returns the input unchanged |
| ListOps.Replace | src/pages/TasksPage.tsx:156-161 | the id-based `map` keeps the length, puts the returned record at every hit position and leaves every other position as it was |
| ListOps.ReplaceMissIsIdentity | src/pages/TasksPage.tsx:157 | a replacement that hits no position leaves the list unchanged |
| ListOps.ReplaceIdempotent | src/pages/TasksPage.tsx:157 | applying the same replacement twice is applying it once |
| TextSearch.LowerChar | src/pages/TasksPage.tsx:270 | lower-casing maps each ASCII capital to its own small letter (32 code points on) and fixes every other character |
| TextSearch.Lower | src/pages/TasksPage.tsx:270-271 | a lower-cased string has the same length, is folded character by character, and holds no ASCII capital |
| TextSearch.LowerIdempotent | src/pages/TasksPage.tsx:270-271 | lower-casing twice is lower-casing once |
| TextSearch.Includes | src/pages/TasksPage.tsx:270-271 | `includes` holds for the empty string and for a prefix, and never for a needle longer than the text |
| TextSearch.IncludesIgnoringCase | src/pages/TasksPage.tsx:270-271 | the lower-cased containment holds whenever the query occurs with the exact case, and never for a query longer than the text |
| TextSearch.FoldKeepsOccurrences | src/pages/TasksPage.tsx:270-271 | an occurrence of the query in the text is still an occurrence, at the same offset, after both are lower-cased |
| TextSearch.IgnoringCaseAgrees | src/pages/TasksPage.tsx:270-271 | two queries, or two texts, that agree character by character up to case give the same search answer |
| TextSearch.IgnoringCaseInvariant | src/pages/TasksPage.tsx:270-271 | a query, or a text, gives the same answer as its own lower-cased form |
| TaskView.MatchesQuery | src/pages/TasksPage.tsx:268-272 | the empty query matches every task, and a query occurring with the exact case in the title matches |
| TaskView.Visible | src/pages/TasksPage.tsx:258-272 | with no project, the filter at "all" and no query every task passes; a task of another project, or with another status than the filter's, never does |
| TaskView.View | src/pages/TasksPage.tsx:255-273 | the shown list holds each visible task exactly as often as the input and no invisible task, and is no longer than the input |
| TaskView.ViewIsSubsequence | src/pages/TasksPage.tsx:255-275 | the shown list is an order-preserving subsequence of the list it was computed from |
| TaskView.ViewSound | src/pages/TasksPage.tsx:258-273 | every shown task is in the input, belongs to the selected project when one is set, has the filtered status unless the filter is "all", and matches a non-empty query in title or description |
| TaskView.ViewComplete | src/pages/TasksPage.tsx:258-273 | every input task that meets all applicable conditions is shown, as often as it occurs in the input |
| TaskView.ViewUnfiltered | src/pages/TasksPage.tsx:255-275 | with no project selected, the filter at "all" and an empty query, the shown list is the input |
| TaskView.WithoutTask | src/pages/TasksPage.tsx:176 | `filter` by id keeps every task with another id as often as before and none with the deleted id |
| TaskView.WithoutTaskSpec | src/pages/TasksPage.tsx:176 | after a task delete no position holds the deleted id, and the other tasks keep their order |
| TaskView.WithTask | src/pages/TasksPage.tsx:156-161 | `map` by id keeps the length and the id at every position, and each entry is either the old one or the reply |
| TaskView.WithTaskSpec | src/pages/TasksPage.tsx:189-194 | after an update or status change the length is kept, positions with the returned id hold the returned task, other positions are unchanged, and the ids are unchanged |
| TaskView.WithTaskUnknownId | src/pages/TasksPage.tsx:189-191 | a reply whose id is not in the list leaves the list unchanged |
| TaskView.ViewWithoutTask | src/pages/TasksPage.tsx:176-178 | filtering the list after a delete equals deleting from the filtered list |
| TaskView.WithoutProject | src/pages/TasksPage.tsx:116 | `filter` by id keeps every project with another id as often as before and none with the deleted id |
| TaskView.WithoutProjectSpec | src/pages/TasksPage.tsx:116 | after a project delete no position holds the deleted id, and the others keep their order |
| TaskView.WithProject | src/pages/TasksPage.tsx:99-101 | `map` by id keeps the length and the id at every position, and each entry is either the old one or the reply |
| TaskView.WithProjectSpec | src/pages/TasksPage.tsx:99-101 | the project update replaces the project with the returned id and leaves the others as they were |
| TaskSort.PriorityRank | src/pages/TasksPage.tsx:233 | high ranks 3, medium 2 and low 1 |
| TaskSort.Compare | src/pages/TasksPage.tsx:225-243 | "newest" puts the later creation first and "oldest" the earlier; "priority" puts the higher rank first and ties exactly equal priorities; "due date" orders dated tasks by due date, puts each dated task before each undated one, and ties two undated tasks |
| TaskSort.InOrderTotal | src/pages/TasksPage.tsx:225-243 | each comparator orders any two tasks one way or the other |
| TaskSort.InOrderTransitive | src/pages/TasksPage.tsx:225-243 | each comparator's ordering is transitive |
| TaskSort.CompareAntisymmetric | src/pages/TasksPage.tsx:225-243 | a comparator is positive for (a, b) exactly when it is negative for (b, a) |
| TaskSort.SortedNewest | src/pages/TasksPage.tsx:225-227 | sorted for "newest" means creation times never increase along the list, and conversely |
| TaskSort.SortedOldest | src/pages/TasksPage.tsx:228-230 | sorted for "oldest" means creation times never decrease along the list, and conversely |
| TaskSort.SortedPriority | src/pages/TasksPage.tsx:231-235 | sorted for "priority" means priority ranks never increase along the list, and conversely |
| TaskSort.SortedDueDate | src/pages/TasksPage.tsx:237-243 | sorted for "due date" means every dated task precedes every undated one and dated tasks are in non-decreasing due-date order, and conversely |
| TaskSort.SortInPlace | src/pages/TasksPage.tsx:224-245 | the array ends sorted by the chosen comparator, holds the same tasks as often as before, and is a stable rearrangement of its old contents |
| TaskSort.InsertNext | src/pages/TasksPage.tsx:224-245 | one insertion step extends the sorted, stable prefix of the array by one position |
| TaskSort.ArrangedMultiset | src/pages/TasksPage.tsx:224-245 | a rearrangement by an injective map of positions holds the same tasks, each as often as before |
| TasksPageState.TasksPage.constructor | src/pages/TasksPage.tsx:26-37 | the page starts with empty lists, nothing selected, the filter at "all", an empty query and no error |
| TasksPageState.TasksPage.ApplyFiltersAndSearch | src/pages/TasksPage.tsx:250-276 | the three successive filters by project, status and query store exactly `View` of the given list |
| TasksPageState.TasksPage.LoadTasks | src/pages/TasksPage.tsx:63-73 | fetched tasks become both the task list and the shown list; a failure sets the load error; nothing happens when no user is signed in |
| TasksPageState.TasksPage.LoadProjects | src/pages/TasksPage.tsx:52-61 | fetched projects become the project list; a failure sets the load error; nothing happens when no user is signed in |
| TasksPageState.TasksPage.HandleCreateProject | src/pages/TasksPage.tsx:75-90 | the created project is prepended; a failure sets the error and keeps the list; nothing happens when no user is signed in |
| TasksPageState.TasksPage.HandleUpdateProject | src/pages/TasksPage.tsx:92-110 | without a project being edited nothing changes; otherwise the returned project replaces the one with its id and editing ends, or on failure the error is set and editing continues |
| TasksPageState.TasksPage.HandleDeleteProject | src/pages/TasksPage.tsx:112-124 | the project with the id is removed; the selection is cleared exactly when the deleted project was selected; a failure sets the error and changes nothing else |
| TasksPageState.TasksPage.HandleCreateTask | src/pages/TasksPage.tsx:126-147 | the created task is prepended and the shown list is recomputed from the new list; a failure sets the error; nothing happens when no user is signed in |
| TasksPageState.TasksPage.HandleUpdateTask | src/pages/TasksPage.tsx:149-170 | without a task being edited nothing changes; otherwise the returned task replaces the one with its id, the shown list is recomputed and editing ends, or on failure the error is set |
| TasksPageState.TasksPage.HandleDeleteTask | src/pages/TasksPage.tsx:172-183 | the task with the id is removed from the task list and from the shown list, which is recomputed; a failure sets the error and changes nothing else |
| TasksPageState.TasksPage.HandleStatusChange | src/pages/TasksPage.tsx:185-199 | the returned task replaces the one with its id and the shown list is recomputed; a failure sets the error |
| TasksPageState.TasksPage.HandleEditTask | src/pages/TasksPage.tsx:201-204 | the task becomes the one being edited |
| TasksPageState.TasksPage.HandleEditProject | src/pages/TasksPage.tsx:206-209 | the project becomes the one being edited |
| TasksPageState.TasksPage.HandleSearch | src/pages/TasksPage.tsx:211-214 | the query is stored and the shown list is the view of all tasks under the new query |
| TasksPageState.TasksPage.HandleFilter | src/pages/TasksPage.tsx:216-219 | the filter is stored and the shown list is the view of all tasks under the new filter |
| TasksPageState.TasksPage.HandleSort | src/pages/TasksPage.tsx:221-248 | the shown list becomes a stable permutation of itself, sorted by the chosen key, of the same length |
| TasksPageState.TasksPage.SelectProject | src/pages/TasksPage.tsx:315 | the chosen project id becomes the selection |
| TasksPageState.TasksPage.RefreshForSelectedProject | src/pages/TasksPage.tsx:46-50 | when there are tasks, the shown list is recomputed for the current selection; afterwards the shown list is consistent with the selection |
| TaskTable.StatusOn | src/components/TaskTable.tsx:83-91 | ``task[`${type}_status`]``: the dev, qa or final state of the row, by track |
| TaskTable.NextStatus | src/components/TaskTable.tsx:32-38 | todo goes to in-progress, in-progress to completed, completed to todo, and no state is its own successor |
| TaskTable.PreviousStatus | src/components/TaskTable.tsx:32-38 | every state is the successor of the state PreviousStatus gives |
| TaskTable.NextStatusBijection | src/components/TaskTable.tsx:32-38 | each state is the successor of exactly one state |
| TaskTable.NextStatusCycle | src/components/TaskTable.tsx:32-38 | three steps of the cycle return to the start, two do not |
| TaskTable.Proposal | src/components/TaskTable.tsx:87-92 | an Update button sends the task's id, its own track, and a state that differs from the track's current one and follows it in the cycle |
| TaskTable.ProposalIgnoresOtherTracks | src/components/TaskTable.tsx:83-91 | a track's proposal depends only on the task id and that track's own state |
| TaskTable.RowProposals | src/components/TaskTable.tsx:80-99 | a row has one button per track, in the order dev, qa, final, each proposing the successor of its own track's state, with no track twice |

## Left out

- Service calls (`taskService`, `projectService`, the Supabase client) are network I/O. Their replies are handler parameters. The ids and form data a handler sends to a service are not modelled.
- HandleStatusChange: its `id` and `status` arguments only go to the service call, so the model takes just the reply. Like the page, it replaces by the reply's id.
- The table's `onStatusChange(taskId, track, newStatus)` does not match the page's `handleStatusChange(id, status)` that the list passes to it. The two halves are modelled separately, with no wiring between them.
- Sign-in, sessions and routing are left out. The signed-in user is the `user` field.
- Asynchronous interleaving of handlers, React's batching of state updates, and stale closures are left out. Handlers run one at a time, and each sees the state the previous one left.
- Effect scheduling is left out. The effect on `[user]` (lines 39-44), which loads both lists, is not modelled as an effect; `LoadTasks` and `LoadProjects` are the methods it calls. The effect on `selectedProjectId` is the method `RefreshForSelectedProject`. The caller runs it after `SelectProject` or `HandleDeleteProject`; React would run it after the next render.
- Form-open flags (`isTaskFormOpen`, `isProjectFormOpen`) and `isSubmitting` are presentation state and are left out. `isSubmitting` is false after every handler anyway, since it is reset in `finally`.
- Rendering is left out: the JSX, the colour tables, and date formatting with date-fns.
- `toLowerCase` is modelled as an ASCII case fold. Unicode case mapping is not modelled.
- Dates are integer timestamps. Parsing a date string with `new Date(...)` is not modelled, and neither is the NaN that an unparsable date would give the comparators. An empty-string due date, which the comparator treats as undated, is represented as `None`.
- The priorities `blocker` and `major` that the task form and the database type allow are not modelled. The sort's rank table has no entry for them, so their comparisons would be NaN. The model's priority is `low | medium | high`.
- TaskSort.SortInPlace is an insertion sort standing for the engine's `Array.prototype.sort`. Only its contract is meant to match: sorted, a permutation, and stable, as the ECMAScript specification (2019 edition onward) requires. Its sequence of steps is not meant to match.
- The status-change dialog, the history dialog and the `status_changes` row type are display and persistence shapes with no logic here, so they are left out.
