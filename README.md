# KanFlow board router, modelled in Dafny

This project models the server side of KanFlow, a kanban application. A user owns boards. A board holds columns, a
column holds tasks, and a task holds subtasks. The tRPC board router (`src/server/api/routers/board.ts`) creates,
edits, reorders and deletes these rows through Prisma. The zod schemas in `src/const/form-validation-schema.ts` decide
which create forms the router accepts.

The model has seven modules:

- `Forms` (forms.dfy): the three create schemas. Each is a function returning the list of issues (path and message)
  that zod would report. A form is valid when that list is empty. Lemmas state each validity condition as an
  if-and-only-if, and show that each failure reports its own message and nothing else is reported.
- `Records` (records.dfy): the four tables as maps from id to row, the router's input shapes, and `Consistent`
  (every child names an existing parent, and every id was issued before the store's clock). Fresh ids come from a
  clock: the row created at tick n gets id `MintId(n)`, and where a query sorts by creation time it also gets
  `createdAt = n`.
- `Cascade` (cascade.dfy): what the database does on a delete. Deleting a row deletes the rows below it and changes
  nothing else, so no survivor is renumbered.
- `Upserts` (upserts.dfy): the per-entry writes over one input array, each as a left fold. These are the column and
  subtask creations of the create procedures, the column and subtask upserts of updateBoard and updateTask, and the
  bulk `(id, order)` assignment of reorderTasks. A nested upsert looks an entry's id up among the parent's own
  children only; any other id, such as a client placeholder, takes the create branch and gets a freshly issued id.
- `Mutations` (mutations.dfy): one function per router mutation, from the tables before the call to the tables after
  it and an `Outcome`. The outcome is `Ok`, `NotFound(table)` for a Prisma "record not found" or foreign-key failure,
  or `Invalid(issues)` for a rejected form. Lemmas state what each procedure does to every table, and that it keeps
  the store consistent.
- `BoardRouter` (store.dfy): class `BoardStore`, whose fields are the four tables and the clock. Each procedure method
  performs its procedure's writes one by one, in the source's order, with loops where the source iterates. Its
  contract says the new state and outcome equal the `Mutations` function of the old state, and that `Valid()`
  (consistency) is preserved. This means every `Mutations` lemma holds of the method. The step methods a procedure
  method calls (`InsertBoard`, `AddColumns`, `UpsertColumns`, `ApplyOrders`, `UpsertSubtasks`, `TaskOrder` and the
  like) are instead proved equal to the corresponding fold or function.
- `Queries` (queries.dfy): the two reads as ghost functions. Prisma's `orderBy` becomes a sort by key (`SortAsc`),
  specified by what it returns: each row exactly once, with keys that never decrease. Rows with equal keys may come in
  any order, as in the database.

The model follows the code, including where it surprises:

- `createTask` gives order 0 when the form's column is not one of `boardId`'s columns, even though the task still goes
  into that column.
- `updateTask` ignores the input `order` field.
- `updateTask` never deletes subtasks that are missing from the input.
- An empty `reorderTasks` list succeeds even when the column is missing.

## Model

| member | source | states |
|---|---|---|
| Forms.ItemIssues | src/const/form-validation-schema.ts:6-10 | the issues of a `{title}` array: an issue for every empty title, at that element's index, with the array's message, and no issue at a non-empty title; empty exactly when every title is non-empty |
| Forms.ItemIssuesInIndexOrder | src/const/form-validation-schema.ts:6-10 | the issues of an array come in strictly increasing element index, so together with Forms.ItemIssues there is exactly one issue per empty title, in array order |
| Forms.BoardIssues | src/const/form-validation-schema.ts:3-12 | createBoardFormSchema as an issue list; specified by Forms.BoardFormValidIff and Forms.BoardIssuesReportEachFailure |
| Forms.ColumnIssues | src/const/form-validation-schema.ts:14-16 | createColumnFormSchema as an issue list; specified by Forms.ColumnFormValidIff |
| Forms.TaskIssues | src/const/form-validation-schema.ts:18-27 | createTaskFormSchema as an issue list; specified by Forms.TaskFormValidIff, Forms.TaskIssuesReportEachFailure and Forms.TaskFormOptionalFields |
| Forms.BoardFormValidIff | src/const/form-validation-schema.ts:3-12 | a create-board form is valid iff its title is non-empty, it has at least one column, and every column title is non-empty |
| Forms.BoardIssuesReportEachFailure | src/const/form-validation-schema.ts:4-11 | "A title is required." is reported iff the title is empty; "At least one column is required." iff there are no columns; "A column name is required." at index i iff column i's title is empty; nothing else is reported |
| Forms.ColumnFormValidIff | src/const/form-validation-schema.ts:14-16 | a create-column form is valid iff its title is non-empty; otherwise the only issue is "A title is required." at the title |
| Forms.TaskFormValidIff | src/const/form-validation-schema.ts:18-27 | a create-task form is valid iff title and columnId are non-empty and every subtask title is non-empty |
| Forms.TaskIssuesReportEachFailure | src/const/form-validation-schema.ts:19-24 | each empty title, empty columnId or empty subtask title is reported with its own message at its own path, and nothing else is reported |
| Forms.TaskFormOptionalFields | src/const/form-validation-schema.ts:20-26 | the description never affects validation, and a form with a title, a column and no subtasks is valid |
| Records.MintedIsFresh | src/server/api/routers/board.ts:16-26 | an id issued at the current tick or later is not already stored, which stands in for cuid uniqueness |
| Records.MintIdInjective | src/server/api/routers/board.ts:20-26 | ids issued at different ticks differ |
| Records.WriteColumns | src/server/api/routers/board.ts:19-27 | a write that keeps every column and gives each column a stored board keeps the store consistent |
| Records.WriteTasks | src/server/api/routers/board.ts:85-102 | a write that gives every task a stored column and every subtask a stored task keeps the store consistent |
| Records.TaskCountOfMissingColumn | src/server/api/routers/board.ts:83 | in a consistent store a column that does not exist holds no tasks |
| Cascade.DropTasks | src/const/form-validation-schema.ts:45 | the database's delete of a set of tasks, with the subtask cascade; specified by Cascade.DropTasksEffect |
| Cascade.DropColumns | src/const/form-validation-schema.ts:36 | the delete of a set of columns, cascading to tasks and subtasks; specified by Cascade.DropColumnsEffect |
| Cascade.DropBoard | src/server/api/routers/board.ts:279-283 | the delete of a board, cascading to everything below it; specified by Cascade.DropBoardEffect |
| Cascade.DropTasksEffect | src/const/form-validation-schema.ts:45 | deleting tasks removes exactly those tasks and their subtasks; boards and columns stay, every surviving row is unchanged, and the store stays consistent |
| Cascade.DropColumnsEffect | src/const/form-validation-schema.ts:36 | deleting columns removes exactly them, their tasks and those tasks' subtasks; surviving rows are unchanged; the store stays consistent |
| Cascade.DropBoardEffect | src/server/api/routers/board.ts:279-283 | deleting a board removes exactly it, its columns, their tasks and their subtasks; surviving rows are unchanged; the store stays consistent |
| Upserts.AppendColumns | src/server/api/routers/board.ts:20-26 | the nested create of one column per board-form column, as a fold; specified by Upserts.AppendColumnsKeys, Upserts.AppendColumnsAt and Upserts.AppendColumnsEffect |
| Upserts.AppendColumnsEffect | src/server/api/routers/board.ts:19-26 | entry i of a board form becomes the column issued at tick first+i, with its title and colour and belonging to the board; existing columns are untouched; no other column appears |
| Upserts.AppendSubtasks | src/server/api/routers/board.ts:95-100 | the nested create of one subtask per task-form subtask, as a fold; specified by Upserts.AppendSubtasksKeys, Upserts.AppendSubtasksAt and Upserts.AppendSubtasksEffect |
| Upserts.AppendSubtasksEffect | src/server/api/routers/board.ts:95-100 | entry i of a task form becomes a subtask of the task with order i and done false; existing subtasks are untouched; no other subtask appears |
| Upserts.UpsertColumns | src/server/api/routers/board.ts:144-158 | the column upsert of updateBoard, as a fold; specified by Upserts.UpsertColumnsClock, Upserts.UpsertColumnsKeys, Upserts.UpsertColumnsUntouched, Upserts.UpsertColumnsRetitle and Upserts.UpsertColumnsCreates |
| Upserts.UpsertColumnsClock | src/server/api/routers/board.ts:144-158 | the column upsert issues one id per entry that names no kept column |
| Upserts.UpsertColumnsKeys | src/server/api/routers/board.ts:144-158 | the column upsert deletes nothing and changes only titles of existing columns; every new column belongs to the board and has one of the ids the upsert issues, so nothing is created besides one column per creating entry |
| Upserts.UpsertColumnsUntouched | src/server/api/routers/board.ts:144-158 | a column that is not kept, or that no entry names, is untouched by the upsert |
| Upserts.UpsertColumnsRetitle | src/server/api/routers/board.ts:148-150 | a kept column named by entry k, and by no later entry, ends with entry k's title and its other fields unchanged |
| Upserts.UpsertColumnsCreates | src/server/api/routers/board.ts:151-157 | an entry naming no kept column creates a fresh column, with its title and colour, at the tick after the creations before it |
| Upserts.UpsertSubtasks | src/server/api/routers/board.ts:243-258 | the subtask upsert of updateTask, as a fold; specified by Upserts.UpsertSubtasksClock, Upserts.UpsertSubtasksKeys, Upserts.UpsertSubtasksUntouched, Upserts.UpsertSubtasksUpdates and Upserts.UpsertSubtasksCreates |
| Upserts.UpsertSubtasksClock | src/server/api/routers/board.ts:244-258 | the subtask upsert issues one id per entry that names no subtask of the task |
| Upserts.UpsertSubtasksKeys | src/server/api/routers/board.ts:244-258 | the subtask upsert deletes nothing, changes only title, done and order of existing subtasks, and every new subtask belongs to the task and has one of the ids the upsert issues |
| Upserts.UpsertSubtasksUntouched | src/server/api/routers/board.ts:243-258 | a subtask that is not the task's, or that no entry names, is untouched |
| Upserts.UpsertSubtasksUpdates | src/server/api/routers/board.ts:248-252 | the task's subtask named by entry k, and by no later entry, takes entry k's title and done flag and order k |
| Upserts.UpsertSubtasksCreates | src/server/api/routers/board.ts:253-257 | an entry k naming none of the task's subtasks creates a fresh subtask with its title, order k and done false |
| Upserts.Reorder | src/server/api/routers/board.ts:188-204 | a reorder keeps the same set of task ids |
| Upserts.ReorderChangesOnlyOrderAndColumn | src/server/api/routers/board.ts:194-201 | a reorder changes only a task's order and column, and the column only to the target column |
| Upserts.ReorderSetsListed | src/server/api/routers/board.ts:190-201 | a listed task takes the order of the last entry naming it and the target column |
| Upserts.ReorderKeepsUnlisted | src/server/api/routers/board.ts:188-204 | a task no entry names is unchanged |
| Upserts.ReorderIdempotent | src/server/api/routers/board.ts:188-204 | applying the same list twice gives the same tasks as applying it once |
| Mutations.CreateBoard | src/server/api/routers/board.ts:13-35 | createBoard; specified by Mutations.CreateBoardOutcome, Mutations.InsertBoardEffect and Mutations.InsertBoardConsistent |
| Mutations.CreateColumn | src/server/api/routers/board.ts:38-59 | createColumn; specified by Mutations.CreateColumnEffect |
| Mutations.CreateTask | src/server/api/routers/board.ts:62-104 | createTask; specified by Mutations.CreateTaskOutcome, Mutations.InsertTaskEffect, Mutations.InsertTaskSubtasks and Mutations.InsertTaskGrowsColumn |
| Mutations.UpdateBoard | src/server/api/routers/board.ts:107-162 | updateBoard; specified by Mutations.UpdateBoardOutcome, Mutations.UpdateBoardColumns, Mutations.UpdateBoardCascade, Mutations.UpdateBoardRetitles and Mutations.UpdateBoardCreates |
| Mutations.DeleteColumn | src/server/api/routers/board.ts:165-173 | deleteColumn; specified by Mutations.DeleteColumnEffect |
| Mutations.ReorderTasks | src/server/api/routers/board.ts:175-205 | reorderTasks; specified by Mutations.ReorderTasksOutcome, Mutations.ReorderTasksSetsListed, Mutations.ReorderTasksKeepsUnlisted and Mutations.ReorderTasksIdempotent |
| Mutations.UpdateTask | src/server/api/routers/board.ts:208-262 | updateTask; specified by Mutations.UpdateTaskOutcome, Mutations.UpdateTaskEffect, Mutations.UpdateTaskKeepsSubtasks, Mutations.UpdateTaskUpdatesSubtask and Mutations.UpdateTaskCreatesSubtask |
| Mutations.DeleteTask | src/server/api/routers/board.ts:265-273 | deleteTask; specified by Mutations.DeleteTaskEffect |
| Mutations.DeleteBoard | src/server/api/routers/board.ts:276-284 | deleteBoard; specified by Mutations.DeleteBoardEffect |
| Mutations.UpdateSubtask | src/server/api/routers/board.ts:286-306 | updateSubtask; specified by Mutations.UpdateSubtaskEffect |
| Mutations.InsertBoard | src/server/api/routers/board.ts:16-34 | the writes of a successful createBoard; specified by Mutations.InsertBoardEffect and Mutations.InsertBoardConsistent |
| Mutations.InsertTask | src/server/api/routers/board.ts:85-103 | the writes of a successful createTask; specified by Mutations.InsertTaskEffect, Mutations.InsertTaskSubtasks, Mutations.InsertTaskGrowsColumn and Mutations.InsertTaskConsistent |
| Mutations.NewTaskOrder | src/server/api/routers/board.ts:70-83 | `taskNumber`: the owner column's task count when the column is one of the board's, else 0; specified by Mutations.CreateTaskOutcome and Records.TaskCountOfMissingColumn |
| Mutations.MovedTaskOrder | src/server/api/routers/board.ts:221-232 | `numTask`: the stored order when the column stays, else the target column's task count; specified by Mutations.UpdateTaskEffect and BoardRouter.BoardStore.TaskOrder |
| Mutations.InsertBoardConsistent | src/server/api/routers/board.ts:16-34 | the writes of createBoard keep the store consistent |
| Mutations.InsertBoardEffect | src/server/api/routers/board.ts:16-34 | createBoard adds one new board owned by the user, and one column per form column, in order, under it, with its title and colour and no tasks; tasks and subtasks are unchanged and existing columns are untouched |
| Mutations.CreateBoardOutcome | src/server/api/routers/board.ts:13-35 | createBoard succeeds iff the form is valid; a rejected form is reported with its issues and changes nothing; the store stays consistent |
| Mutations.CreateColumnEffect | src/server/api/routers/board.ts:38-59 | createColumn succeeds iff the form is valid and the board exists, and then adds exactly one fresh column with no tasks to that board; otherwise it reports the title issue or the missing board and changes nothing |
| Mutations.InsertTaskConsistent | src/server/api/routers/board.ts:85-103 | the writes of createTask keep the store consistent when the column exists |
| Mutations.InsertTaskEffect | src/server/api/routers/board.ts:85-94 | createTask adds exactly one task, with a fresh id, in the given column with the given order; boards and columns are unchanged |
| Mutations.InsertTaskSubtasks | src/server/api/routers/board.ts:95-100 | the new task's subtasks are one per form subtask, the i-th with order i and done false; no other subtask changes |
| Mutations.InsertTaskGrowsColumn | src/server/api/routers/board.ts:85-94 | after createTask the target column holds exactly one more task |
| Mutations.CreateTaskOutcome | src/server/api/routers/board.ts:70-103 | createTask succeeds iff the form is valid and names an existing column; the new task's order is the number of tasks of that column when it is one of boardId's columns and 0 otherwise; the task still goes into the form's column; a failure changes nothing |
| Mutations.UpdateBoardDeletion | src/server/api/routers/board.ts:114-133 | after the deletion step the board's columns are exactly those the input names; a missing board loses nothing |
| Mutations.UpdateBoardConsistent | src/server/api/routers/board.ts:114-161 | updateBoard keeps the store consistent |
| Mutations.UpdateBoardOutcome | src/server/api/routers/board.ts:127-161 | updateBoard succeeds iff the board exists; otherwise it reports the missing board and changes nothing |
| Mutations.UpdateBoardColumns | src/server/api/routers/board.ts:114-161 | the board's title is overwritten; an existing column survives iff it belongs to another board or the input names it; a surviving column keeps everything but possibly its title; other boards' columns are unchanged; the clock advances by one per entry naming no kept column, and every new column has one of the ids issued in between, belongs to the board and has no tasks, so with Mutations.UpdateBoardCreates the new columns are exactly one per such entry |
| Mutations.UpdateBoardCascade | src/server/api/routers/board.ts:127-133 | the tasks and subtasks removed are exactly those under the deleted columns; the others are unchanged |
| Mutations.UpdateBoardRetitles | src/server/api/routers/board.ts:144-150 | a matched column, named last by entry k, keeps its id, colour and tasks and takes entry k's title |
| Mutations.UpdateBoardCreates | src/server/api/routers/board.ts:151-157 | an entry naming none of the board's columns becomes a fresh column of the board with its title and colour |
| Mutations.UpsertCreatesFresh | src/server/api/routers/board.ts:151-157 | the column that entry k's upsert creates has an id not stored before the call, and carries entry k's title and colour |
| Mutations.DeleteColumnEffect | src/server/api/routers/board.ts:165-173 | deleteColumn succeeds iff the column exists and removes exactly it, its tasks and their subtasks; every survivor is unchanged, so no order is renumbered; the store stays consistent |
| Mutations.DeleteTaskEffect | src/server/api/routers/board.ts:265-273 | deleteTask succeeds iff the task exists and removes exactly it and its subtasks; every survivor is unchanged; the store stays consistent |
| Mutations.DeleteBoardEffect | src/server/api/routers/board.ts:276-284 | deleteBoard succeeds iff the board exists and removes exactly it and the rows below it; every surviving board, column, task and subtask is unchanged; the store stays consistent |
| Mutations.ReorderTasksConsistent | src/server/api/routers/board.ts:187-204 | reorderTasks changes only tasks, only their order and column, and keeps the store consistent |
| Mutations.ReorderTasksOutcome | src/server/api/routers/board.ts:188-204 | reorderTasks succeeds iff every entry names a stored task and the column exists, or the list is empty; with a missing column nothing changes |
| Mutations.ReorderTasksSetsListed | src/server/api/routers/board.ts:190-201 | every listed task takes the order of the last entry naming it and the target column; its other fields stay |
| Mutations.ReorderTasksKeepsUnlisted | src/server/api/routers/board.ts:188-204 | a task the list does not name is unchanged |
| Mutations.ReorderTasksIdempotent | src/server/api/routers/board.ts:188-204 | a second call with the same list changes nothing and gives the same outcome |
| Mutations.UpdateTaskConsistent | src/server/api/routers/board.ts:216-261 | updateTask keeps the store consistent |
| Mutations.UpdateTaskOutcome | src/server/api/routers/board.ts:216-261 | updateTask succeeds iff the task and the target column exist; it reports the missing task first, then the missing column; a failure changes nothing |
| Mutations.UpdateTaskEffect | src/server/api/routers/board.ts:221-242 | the task takes the input title, description and column; it keeps its stored order when the column stays, and on a move it gets the number of tasks already in the target column, which then grows by one; no other task changes |
| Mutations.UpdateTaskIgnoresOrder | src/server/api/routers/board.ts:234-242 | the input's order field never affects the result |
| Mutations.UpdateTaskKeepsSubtasks | src/server/api/routers/board.ts:243-258 | no subtask is deleted; a subtask that is another task's, or that the input does not name, is unchanged; the clock advances by one per entry naming none of the task's subtasks, and every new subtask has one of the ids issued in between and belongs to the task, so with Mutations.UpdateTaskCreatesSubtask the new subtasks are exactly one per such entry |
| Mutations.UpdateTaskUpdatesSubtask | src/server/api/routers/board.ts:243-252 | the task's subtask named last by entry k takes entry k's title and done flag and order k |
| Mutations.UpdateTaskCreatesSubtask | src/server/api/routers/board.ts:243-257 | an entry naming none of the task's subtasks (such as a placeholder id) creates a fresh subtask with its title, order k and done false |
| Mutations.UpdateSubtaskEffect | src/server/api/routers/board.ts:286-306 | updateSubtask succeeds iff the subtask exists and overwrites only its title and done flag; nothing else changes |
| BoardRouter.NumberSubtasks | src/server/api/routers/board.ts:215 | every element of the submitted subtask array gets `index` set to its position, and nothing else in it changes |
| BoardRouter.BoardStore.constructor | src/server/api/routers/board.ts:11 | the store starts empty and consistent |
| BoardRouter.BoardStore.CreateBoard | src/server/api/routers/board.ts:13-35 | the new state and outcome are `Mutations.CreateBoard` of the old state; consistency is kept |
| BoardRouter.BoardStore.InsertBoard | src/server/api/routers/board.ts:16-34 | writing the board and then its columns gives `Mutations.InsertBoard` |
| BoardRouter.BoardStore.AddColumns | src/server/api/routers/board.ts:20-26 | the column loop gives `Upserts.AppendColumns` and touches no other table |
| BoardRouter.BoardStore.CreateColumn | src/server/api/routers/board.ts:38-59 | the new state and outcome are `Mutations.CreateColumn` of the old state; consistency is kept |
| BoardRouter.BoardStore.CreateTask | src/server/api/routers/board.ts:62-104 | computing `taskNumber` from the board's columns and then writing gives `Mutations.CreateTask` of the old state; consistency is kept |
| BoardRouter.BoardStore.InsertTask | src/server/api/routers/board.ts:85-103 | writing the task and then its subtasks gives `Mutations.InsertTask` |
| BoardRouter.BoardStore.AddSubtasks | src/server/api/routers/board.ts:95-100 | the subtask loop gives `Upserts.AppendSubtasks` and touches no other table |
| BoardRouter.BoardStore.DeleteColumns | src/server/api/routers/board.ts:127-133 | deleting a set of columns gives `Cascade.DropColumns` and keeps consistency |
| BoardRouter.BoardStore.UpdateBoard | src/server/api/routers/board.ts:107-162 | the deletion, the retitle and the upsert loop give `Mutations.UpdateBoard` of the old state; consistency is kept |
| BoardRouter.BoardStore.UpsertColumns | src/server/api/routers/board.ts:144-158 | the upsert loop gives `Upserts.UpsertColumns`, clock included, and touches no other table |
| BoardRouter.BoardStore.DeleteColumn | src/server/api/routers/board.ts:165-173 | gives `Mutations.DeleteColumn` of the old state; consistency is kept |
| BoardRouter.BoardStore.ReorderTasks | src/server/api/routers/board.ts:175-205 | gives `Mutations.ReorderTasks` of the old state; consistency is kept |
| BoardRouter.BoardStore.ApplyOrders | src/server/api/routers/board.ts:188-204 | the per-entry loop gives `Upserts.Reorder` when the column exists; it reports the column when the column is missing and the list is non-empty, and otherwise reports a task when some entry names a missing one |
| BoardRouter.BoardStore.UpdateTask | src/server/api/routers/board.ts:208-262 | numbering the input, computing `numTask`, overwriting the task and the upsert loop give `Mutations.UpdateTask` of the old state; consistency is kept |
| BoardRouter.BoardStore.TaskOrder | src/server/api/routers/board.ts:221-232 | `numTask` is the stored order when the column stays; on a move it is the target column's task count, or 0 when that column is missing |
| BoardRouter.BoardStore.UpsertSubtasks | src/server/api/routers/board.ts:243-258 | the upsert loop over the numbered array gives `Upserts.UpsertSubtasks`, clock included, and touches no other table |
| BoardRouter.BoardStore.DeleteTask | src/server/api/routers/board.ts:265-273 | gives `Mutations.DeleteTask` of the old state; consistency is kept |
| BoardRouter.BoardStore.DeleteBoard | src/server/api/routers/board.ts:276-284 | gives `Mutations.DeleteBoard` of the old state; consistency is kept |
| BoardRouter.BoardStore.UpdateSubtask | src/server/api/routers/board.ts:286-306 | gives `Mutations.UpdateSubtask` of the old state; consistency is kept |
| Queries.GetBoardByUserId | src/server/api/routers/board.ts:309-320 | getBoardByUserId; specified by Queries.GetBoardByUserIdLists |
| Queries.SortAsc | src/server/api/routers/board.ts:316-318 | `orderBy` on a key: the result holds each given row exactly once and nothing else, and its keys never decrease |
| Queries.GetBoardByUserIdLists | src/server/api/routers/board.ts:309-320 | getBoardByUserId lists exactly the user's boards, each once with its stored row, newest first |
| Queries.SubtaskList | src/server/api/routers/board.ts:341-345 | the nested subtasks of a task, sorted by createdAt; specified by Queries.SubtaskListInOrder |
| Queries.TaskList | src/server/api/routers/board.ts:336-345 | the nested tasks of a column, sorted by order, each with its subtask list; specified by Queries.TaskListInOrder and Queries.TaskListTreeInOrder |
| Queries.ColumnList | src/server/api/routers/board.ts:331-345 | the nested columns of a board, sorted by createdAt, each with its task list; specified by Queries.ColumnListInOrder |
| Queries.SubtaskListInOrder | src/server/api/routers/board.ts:341-345 | a task's subtask list holds each of its subtasks exactly once with its stored row, oldest first |
| Queries.TaskListInOrder | src/server/api/routers/board.ts:336-339 | a column's task list holds each of its tasks exactly once with its stored row, by ascending order, each with its subtask list |
| Queries.ColumnListInOrder | src/server/api/routers/board.ts:331-334 | a board's column list holds each of its columns exactly once with its stored row, oldest first, each with its task list |
| Queries.GetBoardById | src/server/api/routers/board.ts:326-329 | getBoardById finds nothing exactly when no board has the id |
| Queries.GetBoardByIdOrdered | src/server/api/routers/board.ts:323-352 | a stored board comes back with its row, its columns oldest first, each column's tasks by ascending order, and each task's subtasks oldest first, each row exactly once |

## Left out

- Colours: `Math.random()` picks each new column's colour. The model takes the colours as parameters instead: `colors`
  for createBoard and updateBoard, and `color` for createColumn.
- Prisma, tRPC, zod and authentication are foreign code.
  - The signed-in user's id is a parameter of createBoard.
  - `protectedProcedure` and sessions are not modelled.
  - The zod object checks on the non-form inputs (strings, numbers, booleans) are assumed to pass.
- reorderTasks runs its updates concurrently with `Promise.all`. The model runs them in list order. When the list names a
  task twice, the last entry wins. Races between the updates are not modelled.
- The `console.log` call in updateBoard is output only and is not modelled.
- The React dialogs, pages and layouts are UI and are not modelled.
- cuids and timestamps become a clock. Ids are the strings `MintId(n)`, and `createdAt` is the issuing tick. Tasks have
  no `createdAt`, because no query sorts tasks by it. `updatedAt` is not modelled.
- The Board and Column models of the Prisma schema are not part of this model. The schema excerpt shows cascading
  deletes for Task and Subtask. The model assumes the same for Column under Board, so deleteBoard removes the board's
  columns.
- `editBoardFormSchema` and `updateTaskFormSchema` are not part of this model. Their shapes (`BoardEdit`, `TaskEdit`) are
  taken from how the router reads them, and their checks are assumed to pass.
- Queries.GetBoardByUserIdLists: it does not say which of two boards with the same `createdAt` comes first, since the
  database does not promise an order for ties. The same holds for the column, task and subtask lists of
  getBoardById.
- Issue paths of nested forms: createColumn and createTask take their form nested in an object (`column`, `task`), so
  zod reports paths such as `task.title`. The model reports the path inside the form, without that prefix.
- Task orders: reorderTasks accepts any `z.number()`, which includes fractions and values beyond the database's 32-bit
  integer. The model takes orders as unbounded integers and does not model non-integer or out-of-range orders, or the
  database error they would cause.
