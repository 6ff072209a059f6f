/**
  The board router's mutations as functions from the tables before a call
  to the tables after it and the call's outcome. A call that fails (its
  input fails the schema, or a row it needs is missing) leaves the tables as
  they are, except where the procedure has already written something before
  the failing database call.

  Each function is paired with lemmas that state what the procedure does to
  the store in terms of rows, and that it keeps the store consistent.
*/
module Mutations {
  import opened Records
  import Forms
  import Cascade
  import Upserts

  // ---------------------------------------------------------------------------
  // The procedures

  /** The writes of a successful createBoard: the board, issued at the current tick, then its columns, item i with colour colors[i]. */
  function InsertBoard(db: Tables, title: string, userId: Id, items: seq<Forms.NamedItem>, colors: seq<string>): Tables
    requires |colors| == |items|
  {
    var b := MintId(db.clock);
    db.(boards := db.boards[b := Board(title, userId, db.clock)],
        columns := Upserts.AppendColumns(db.columns, b, items, colors, db.clock + 1, |items|),
        clock := db.clock + 1 + |items|)
  }

  /** createBoard: a board for the signed-in user with one column per form column, column i with colour colors[i]. */
  function CreateBoard(db: Tables, userId: Id, form: Forms.BoardForm, colors: seq<string>): (Tables, Outcome)
    requires |colors| == |form.columns|
  {
    var issues := Forms.BoardIssues(form);
    if issues != [] then (db, Invalid(issues))
    else (InsertBoard(db, form.title, userId, form.columns, colors), Ok)
  }

  /** createColumn: one column, with no tasks, on an existing board. */
  function CreateColumn(db: Tables, boardId: Id, form: Forms.ColumnForm, color: string): (Tables, Outcome)
  {
    var issues := Forms.ColumnIssues(form);
    if issues != [] then (db, Invalid(issues))
    else if boardId !in db.boards then (db, NotFound(BoardTable))
    else
      (db.(columns := db.columns[MintId(db.clock) := Column(boardId, form.title, color, db.clock)],
           clock := db.clock + 1),
       Ok)
  }

  /** The order createTask gives a new task: the size of its column when that column is one of boardId's, else 0. */
  function NewTaskOrder(db: Tables, boardId: Id, columnId: Id): nat
  {
    if columnId in db.columns && db.columns[columnId].boardId == boardId then TaskCount(db.tasks, columnId) else 0
  }

  /** The writes of a successful createTask: the task, issued at the current tick, then its subtasks, item i with order i. */
  function InsertTask(db: Tables, columnId: Id, title: string, description: string, order: int, items: seq<Forms.NamedItem>): Tables
  {
    var t := MintId(db.clock);
    db.(tasks := db.tasks[t := Task(columnId, title, description, order)],
        subtasks := Upserts.AppendSubtasks(db.subtasks, t, items, db.clock + 1, |items|),
        clock := db.clock + 1 + |items|)
  }

  /** createTask: a task in the form's column, and one subtask per form subtask. */
  function CreateTask(db: Tables, boardId: Id, form: Forms.TaskForm): (Tables, Outcome)
  {
    var issues := Forms.TaskIssues(form);
    if issues != [] then (db, Invalid(issues))
    else if form.columnId !in db.columns then (db, NotFound(ColumnTable))
    else
      (InsertTask(db, form.columnId, form.title, form.description, NewTaskOrder(db, boardId, form.columnId), form.subtasks), Ok)
  }

  /** The columns of the board that updateBoard deletes: those no entry of the edit names. */
  function RemovedColumns(db: Tables, edit: BoardEdit): set<Id>
  {
    ColumnsOf(db.columns, edit.id) - EditIds(edit.columns)
  }

  /** The columns of the board that survive the deletion, which the upsert may update: those some entry names. */
  function KeptColumns(db: Tables, edit: BoardEdit): set<Id>
  {
    ColumnsOf(db.columns, edit.id) * EditIds(edit.columns)
  }

  /**
    updateBoard: delete the board's columns the edit does not name, then retitle the board and upsert the edit's
    columns against the board's remaining columns, which are the kept ones; an entry creating a column takes the colour
    colors[k].
  */
  function UpdateBoard(db: Tables, edit: BoardEdit, colors: seq<string>): (Tables, Outcome)
    requires |colors| == |edit.columns|
  {
    var db1 := Cascade.DropColumns(db, RemovedColumns(db, edit));
    if edit.id !in db1.boards then (db1, NotFound(BoardTable))
    else
      var up := Upserts.UpsertColumns(db1.columns, db1.clock, edit.id, KeptColumns(db, edit), edit.columns, colors, |edit.columns|);
      (db1.(boards := db1.boards[edit.id := db1.boards[edit.id].(title := edit.title)], columns := up.0, clock := up.1), Ok)
  }

  function DeleteColumn(db: Tables, columnId: Id): (Tables, Outcome)
  {
    if columnId !in db.columns then (db, NotFound(ColumnTable)) else (Cascade.DropColumns(db, {columnId}), Ok)
  }

  function DeleteTask(db: Tables, taskId: Id): (Tables, Outcome)
  {
    if taskId !in db.tasks then (db, NotFound(TaskTable)) else (Cascade.DropTasks(db, {taskId}), Ok)
  }

  function DeleteBoard(db: Tables, boardId: Id): (Tables, Outcome)
  {
    if boardId !in db.boards then (db, NotFound(BoardTable)) else (Cascade.DropBoard(db, boardId), Ok)
  }

  /** Every entry names a stored task. */
  predicate AllListed(tasks: map<Id, Task>, entries: seq<OrderEntry>)
  {
    forall j :: 0 <= j < |entries| ==> entries[j].id in tasks
  }

  /**
    reorderTasks: one update per entry, each attempted whatever the others do. An update succeeds when both its task
    and the target column exist; the call succeeds when every update does.
  */
  function ReorderTasks(db: Tables, columnId: Id, entries: seq<OrderEntry>): (Tables, Outcome)
  {
    if columnId !in db.columns then (db, if |entries| == 0 then Ok else NotFound(ColumnTable))
    else
      (db.(tasks := Upserts.Reorder(db.tasks, columnId, entries, |entries|)),
       if AllListed(db.tasks, entries) then Ok else NotFound(TaskTable))
  }

  /** The order updateTask writes: the stored one when the column stays, the size of the target column when it changes. */
  function MovedTaskOrder(db: Tables, edit: TaskEdit): int
    requires edit.id in db.tasks
  {
    var stored := db.tasks[edit.id];
    if stored.columnId == edit.columnId then stored.order else TaskCount(db.tasks, edit.columnId)
  }

  /** updateTask: overwrite the task's fields, with the order rule above, and upsert its subtasks, entry i with order i. */
  function UpdateTask(db: Tables, edit: TaskEdit): (Tables, Outcome)
  {
    if edit.id !in db.tasks then (db, NotFound(TaskTable))
    else if edit.columnId !in db.columns then (db, NotFound(ColumnTable))
    else
      var up := Upserts.UpsertSubtasks(db.subtasks, db.clock, edit.id, SubtasksOf(db.subtasks, edit.id), edit.subtasks, |edit.subtasks|);
      (db.(tasks := db.tasks[edit.id := Task(edit.columnId, edit.title, edit.description, MovedTaskOrder(db, edit))],
           subtasks := up.0,
           clock := up.1),
       Ok)
  }

  /** updateSubtask: overwrite the title and the done flag. */
  function UpdateSubtask(db: Tables, patch: SubtaskPatch): (Tables, Outcome)
  {
    if patch.id !in db.subtasks then (db, NotFound(SubtaskTable))
    else (db.(subtasks := db.subtasks[patch.id := db.subtasks[patch.id].(title := patch.title, done := patch.done)]), Ok)
  }

  // ---------------------------------------------------------------------------
  // createBoard

  /** The writes of createBoard keep the store consistent. */
  lemma InsertBoardConsistent(db: Tables, title: string, userId: Id, items: seq<Forms.NamedItem>, colors: seq<string>)
    requires Consistent(db) && |colors| == |items|
    ensures Consistent(InsertBoard(db, title, userId, items, colors))
  {
    var b := MintId(db.clock);
    Upserts.AppendColumnsKeys(db.columns, b, items, colors, db.clock + 1, |items|);
    WriteColumns(db, InsertBoard(db, title, userId, items, colors));
  }

  /**
    The writes of createBoard add one board, owned by the user, and one column per item, in order, under that board,
    with the item's title, its colour and no tasks. Nothing else changes.
  */
  lemma InsertBoardEffect(db: Tables, title: string, userId: Id, items: seq<Forms.NamedItem>, colors: seq<string>)
    requires Consistent(db) && |colors| == |items|
    ensures var r := InsertBoard(db, title, userId, items, colors);
      var b := MintId(db.clock);
      var first := db.clock + 1;
      && b !in db.boards
      && r.boards == db.boards[b := Board(title, userId, db.clock)]
      && r.tasks == db.tasks && r.subtasks == db.subtasks
      && (forall c :: c in db.columns ==> c in r.columns && r.columns[c] == db.columns[c])
      && (forall c :: c in r.columns && c !in db.columns ==>
            Upserts.MintedBetween(c, first, first + |items|) && r.columns[c].boardId == b && TaskCount(r.tasks, c) == 0)
      && (forall t: nat :: first <= t < first + |items| ==>
            MintId(t) in r.columns && r.columns[MintId(t)] == Column(b, items[t - first].title, colors[t - first], t))
  {
    var b := MintId(db.clock);
    var first := db.clock + 1;
    var cols := Upserts.AppendColumns(db.columns, b, items, colors, first, |items|);
    assert InsertBoard(db, title, userId, items, colors).columns == cols;
    assert IssuedBefore(db.columns, first);
    Upserts.AppendColumnsEffect(db.columns, b, items, colors, first);
    forall c | c in cols && c !in db.columns
      ensures TaskCount(db.tasks, c) == 0
    {
      TaskCountOfMissingColumn(db, c);
    }
  }

  /**
    createBoard succeeds exactly when the form is valid, and then performs the writes above with the form's title and
    columns; a rejected form is reported with its issues and changes nothing. Either way the store stays consistent.
  */
  lemma CreateBoardOutcome(db: Tables, userId: Id, form: Forms.BoardForm, colors: seq<string>)
    requires Consistent(db) && |colors| == |form.columns|
    ensures var (r, out) := CreateBoard(db, userId, form, colors);
      && Consistent(r)
      && (out == Ok <==> Forms.BoardFormValid(form))
      && (out == Ok ==> r == InsertBoard(db, form.title, userId, form.columns, colors))
      && (out != Ok ==> r == db && out == Invalid(Forms.BoardIssues(form)))
  {
    InsertBoardConsistent(db, form.title, userId, form.columns, colors);
  }

  // ---------------------------------------------------------------------------
  // createColumn

  /** createColumn adds one column with no tasks to an existing board, and fails on an invalid form or a missing board. */
  lemma CreateColumnEffect(db: Tables, boardId: Id, form: Forms.ColumnForm, color: string)
    requires Consistent(db)
    ensures var (r, out) := CreateColumn(db, boardId, form, color);
      && Consistent(r)
      && (out == Ok <==> Forms.ColumnFormValid(form) && boardId in db.boards)
      && (!Forms.ColumnFormValid(form) ==> out == Invalid([Forms.Issue(Forms.Title, Forms.TitleRequired)]))
      && (Forms.ColumnFormValid(form) && boardId !in db.boards ==> out == NotFound(BoardTable))
      && (out != Ok ==> r == db)
      && (out == Ok ==>
            var c := MintId(db.clock);
            && c !in db.columns
            && r.columns == db.columns[c := Column(boardId, form.title, color, db.clock)]
            && TaskCount(r.tasks, c) == 0
            && r.boards == db.boards && r.tasks == db.tasks && r.subtasks == db.subtasks)
  {
    if Forms.ColumnIssues(form) == [] && boardId in db.boards {
      var c := MintId(db.clock);
      WriteColumns(db, CreateColumn(db, boardId, form, color).0);
      TaskCountOfMissingColumn(db, c);
    }
  }

  // ---------------------------------------------------------------------------
  // createTask

  /** The writes of createTask keep the store consistent when the column exists. */
  lemma InsertTaskConsistent(db: Tables, columnId: Id, title: string, description: string, order: int, items: seq<Forms.NamedItem>)
    requires Consistent(db) && columnId in db.columns
    ensures Consistent(InsertTask(db, columnId, title, description, order, items))
  {
    var t := MintId(db.clock);
    Upserts.AppendSubtasksKeys(db.subtasks, t, items, db.clock + 1, |items|);
    WriteTasks(db, InsertTask(db, columnId, title, description, order, items));
  }

  /** The writes of createTask add one task, with a fresh id, and change no other task, column or board. */
  lemma InsertTaskEffect(db: Tables, columnId: Id, title: string, description: string, order: int, items: seq<Forms.NamedItem>)
    requires Consistent(db)
    ensures var r := InsertTask(db, columnId, title, description, order, items);
      var t := MintId(db.clock);
      && t !in db.tasks
      && r.tasks == db.tasks[t := Task(columnId, title, description, order)]
      && r.boards == db.boards && r.columns == db.columns
  {
    MintedIsFresh(db.tasks, db.clock, db.clock);
  }

  /**
    The writes of createTask add one subtask of the new task per item: item i becomes a subtask with order i, not done.
    No other subtask changes.
  */
  lemma InsertTaskSubtasks(db: Tables, columnId: Id, title: string, description: string, order: int, items: seq<Forms.NamedItem>)
    requires IssuedBefore(db.subtasks, db.clock)
    ensures var r := InsertTask(db, columnId, title, description, order, items);
      var t := MintId(db.clock);
      var first := db.clock + 1;
      && (forall s :: s in db.subtasks ==> s in r.subtasks && r.subtasks[s] == db.subtasks[s])
      && (forall s :: s in r.subtasks && s !in db.subtasks ==> Upserts.MintedBetween(s, first, first + |items|) && r.subtasks[s].taskId == t)
      && (forall k: nat :: first <= k < first + |items| ==>
            MintId(k) in r.subtasks && r.subtasks[MintId(k)] == Subtask(t, items[k - first].title, false, k - first, k))
  {
    var t := MintId(db.clock);
    var first := db.clock + 1;
    assert InsertTask(db, columnId, title, description, order, items).subtasks == Upserts.AppendSubtasks(db.subtasks, t, items, first, |items|);
    Upserts.AppendSubtasksEffect(db.subtasks, t, items, first);
  }

  /** The writes of createTask grow the task's column by exactly one task. */
  lemma InsertTaskGrowsColumn(db: Tables, columnId: Id, title: string, description: string, order: int, items: seq<Forms.NamedItem>)
    requires IssuedBefore(db.tasks, db.clock)
    ensures TaskCount(InsertTask(db, columnId, title, description, order, items).tasks, columnId) == TaskCount(db.tasks, columnId) + 1
  {
    var t := MintId(db.clock);
    var tasks := db.tasks[t := Task(columnId, title, description, order)];
    MintedIsFresh(db.tasks, db.clock, db.clock);
    assert TasksOf(tasks, {columnId}) == TasksOf(db.tasks, {columnId}) + {t};
  }

  /**
    createTask succeeds exactly when the form is valid and names an existing column; otherwise it changes nothing. A
    successful call performs the writes above in the form's column, with order the number of tasks that column holds
    when it is one of boardId's, and 0 otherwise. Either way the store stays consistent.
  */
  lemma CreateTaskOutcome(db: Tables, boardId: Id, form: Forms.TaskForm)
    requires Consistent(db)
    ensures var (r, out) := CreateTask(db, boardId, form);
      var c := form.columnId;
      && Consistent(r)
      && (out == Ok <==> Forms.TaskFormValid(form) && c in db.columns)
      && (!Forms.TaskFormValid(form) ==> out == Invalid(Forms.TaskIssues(form)))
      && (Forms.TaskFormValid(form) && c !in db.columns ==> out == NotFound(ColumnTable))
      && (out != Ok ==> r == db)
      && (out == Ok && c in ColumnsOf(db.columns, boardId) ==>
            r == InsertTask(db, c, form.title, form.description, TaskCount(db.tasks, c), form.subtasks))
      && (out == Ok && c !in ColumnsOf(db.columns, boardId) ==>
            r == InsertTask(db, c, form.title, form.description, 0, form.subtasks))
  {
    if form.columnId in db.columns {
      InsertTaskConsistent(db, form.columnId, form.title, form.description, NewTaskOrder(db, boardId, form.columnId), form.subtasks);
    }
  }

  // ---------------------------------------------------------------------------
  // updateBoard

  /** The board's columns left after the deletion are the kept ones; a missing board has nothing to delete. */
  lemma UpdateBoardDeletion(db: Tables, edit: BoardEdit)
    requires Consistent(db)
    ensures var db1 := Cascade.DropColumns(db, RemovedColumns(db, edit));
      && ColumnsOf(db1.columns, edit.id) == KeptColumns(db, edit)
      && (edit.id !in db.boards ==> db1 == db)
  {
    var removed := RemovedColumns(db, edit);
    var db1 := Cascade.DropColumns(db, removed);
    Cascade.DropColumnsEffect(db, removed);
    assert ColumnsOf(db1.columns, edit.id) == KeptColumns(db, edit);
    if edit.id !in db.boards {
      assert removed == {};
      assert db1.tasks == db.tasks;
      assert db1.subtasks == db.subtasks;
      assert db1.columns == db.columns;
    }
  }

  /** The board's columns that some entry names survive the deletion. */
  lemma KeptSurvive(db: Tables, edit: BoardEdit)
    ensures KeptColumns(db, edit) <= Cascade.DropColumns(db, RemovedColumns(db, edit)).columns.Keys
  {
  }

  /** updateBoard keeps the store consistent. */
  lemma UpdateBoardConsistent(db: Tables, edit: BoardEdit, colors: seq<string>)
    requires Consistent(db) && |colors| == |edit.columns|
    ensures Consistent(UpdateBoard(db, edit, colors).0)
  {
    var db1 := Cascade.DropColumns(db, RemovedColumns(db, edit));
    Cascade.DropColumnsEffect(db, RemovedColumns(db, edit));
    if edit.id in db1.boards {
      var kept := KeptColumns(db, edit);
      var up := Upserts.UpsertColumns(db1.columns, db1.clock, edit.id, kept, edit.columns, colors, |edit.columns|);
      Upserts.UpsertColumnsKeys(db1.columns, db1.clock, edit.id, kept, edit.columns, colors, |edit.columns|);
      WriteColumns(db1, UpdateBoard(db, edit, colors).0);
    }
  }

  /** updateBoard succeeds exactly when the board exists; on a missing board it changes nothing. */
  lemma UpdateBoardOutcome(db: Tables, edit: BoardEdit, colors: seq<string>)
    requires Consistent(db) && |colors| == |edit.columns|
    ensures var (r, out) := UpdateBoard(db, edit, colors);
      && (out == Ok <==> edit.id in db.boards)
      && (out != Ok ==> out == NotFound(BoardTable) && r == db)
  {
    UpdateBoardDeletion(db, edit);
    Cascade.DropColumnsEffect(db, RemovedColumns(db, edit));
  }

  /**
    What a successful updateBoard does to the columns: the board is retitled; a column of the board survives exactly
    when some entry names it, and a survivor changes at most its title; columns of other boards are untouched; the
    clock advances by one per entry naming no kept column, and every new column has one of the ids issued in between,
    belongs to the board and has no tasks. With UpdateBoardCreates, which gives each such entry its own id in that
    range, the new columns are exactly one per creating entry.
  */
  lemma UpdateBoardColumns(db: Tables, edit: BoardEdit, colors: seq<string>)
    requires Consistent(db) && |colors| == |edit.columns| && edit.id in db.boards
    ensures var r := UpdateBoard(db, edit, colors).0;
      && r.boards == db.boards[edit.id := db.boards[edit.id].(title := edit.title)]
      && (forall c :: c in db.columns ==>
            (c in r.columns <==> db.columns[c].boardId != edit.id || c in EditIds(edit.columns)))
      && (forall c :: c in db.columns && c in r.columns ==> r.columns[c].(title := db.columns[c].title) == db.columns[c])
      && (forall c :: c in db.columns && db.columns[c].boardId != edit.id ==> r.columns[c] == db.columns[c])
      && r.clock == db.clock + Upserts.NewColumnCount(edit.columns, KeptColumns(db, edit), |edit.columns|)
      && (forall c :: c in r.columns && c !in db.columns ==>
            Upserts.MintedBetween(c, db.clock, r.clock) && r.columns[c].boardId == edit.id && TaskCount(r.tasks, c) == 0)
  {
    var removed := RemovedColumns(db, edit);
    var db1 := Cascade.DropColumns(db, removed);
    Cascade.DropColumnsEffect(db, removed);
    var kept := KeptColumns(db, edit);
    var up := Upserts.UpsertColumns(db1.columns, db1.clock, edit.id, kept, edit.columns, colors, |edit.columns|);
    Upserts.UpsertColumnsKeys(db1.columns, db1.clock, edit.id, kept, edit.columns, colors, |edit.columns|);
    KeptSurvive(db, edit);
    Upserts.UpsertColumnsClock(db1.columns, db1.clock, edit.id, kept, edit.columns, colors, |edit.columns|);
    forall c | c in db.columns && db.columns[c].boardId != edit.id
      ensures up.0[c] == db.columns[c]
    {
      Upserts.UpsertColumnsUntouched(db1.columns, db1.clock, edit.id, kept, edit.columns, colors, |edit.columns|, c);
    }
    forall c | c in up.0 && c !in db.columns
      ensures TaskCount(db1.tasks, c) == 0
    {
      TaskCountOfMissingColumn(db1, c);
    }
  }

  /** A successful updateBoard deletes the tasks, and their subtasks, of exactly the columns it deletes; the rest stay as they were. */
  lemma UpdateBoardCascade(db: Tables, edit: BoardEdit, colors: seq<string>)
    requires Consistent(db) && |colors| == |edit.columns| && edit.id in db.boards
    ensures var r := UpdateBoard(db, edit, colors).0;
      var removed := RemovedColumns(db, edit);
      && (forall t :: t in r.tasks <==> t in db.tasks && db.tasks[t].columnId !in removed)
      && (forall t :: t in r.tasks ==> r.tasks[t] == db.tasks[t])
      && (forall s :: s in r.subtasks <==> s in db.subtasks && db.tasks[db.subtasks[s].taskId].columnId !in removed)
      && (forall s :: s in r.subtasks ==> r.subtasks[s] == db.subtasks[s])
  {
    Cascade.DropColumnsEffect(db, RemovedColumns(db, edit));
  }

  /** A column of the board named by entry k, and by no later entry, takes entry k's title and keeps its tasks. */
  lemma UpdateBoardRetitles(db: Tables, edit: BoardEdit, colors: seq<string>, k: nat)
    requires Consistent(db) && |colors| == |edit.columns| && edit.id in db.boards
    requires k < |edit.columns| && edit.columns[k].id in ColumnsOf(db.columns, edit.id)
    requires forall j :: k < j < |edit.columns| ==> edit.columns[j].id != edit.columns[k].id
    ensures var r := UpdateBoard(db, edit, colors).0;
      var c := edit.columns[k].id;
      && c in r.columns
      && r.columns[c] == db.columns[c].(title := edit.columns[k].title)
      && TasksOf(r.tasks, {c}) == TasksOf(db.tasks, {c})
  {
    var c := edit.columns[k].id;
    var removed := RemovedColumns(db, edit);
    var db1 := Cascade.DropColumns(db, removed);
    Cascade.DropColumnsEffect(db, removed);
    assert c in EditIds(edit.columns) by {
      assert edit.columns[k] in edit.columns;
    }
    var kept := KeptColumns(db, edit);
    assert c in kept;
    Upserts.UpsertColumnsRetitle(db1.columns, db1.clock, edit.id, kept, edit.columns, colors, |edit.columns|, k);
    assert TasksOf(db1.tasks, {c}) == TasksOf(db.tasks, {c});
  }

  /**
    An entry k naming none of the board's columns creates a column of the board with entry k's title and colour, issued
    at the tick after the columns the entries before it create.
  */
  lemma UpdateBoardCreates(db: Tables, edit: BoardEdit, colors: seq<string>, k: nat)
    requires IssuedBefore(db.columns, db.clock) && |colors| == |edit.columns| && edit.id in db.boards
    requires k < |edit.columns| && edit.columns[k].id !in ColumnsOf(db.columns, edit.id)
    ensures var r := UpdateBoard(db, edit, colors).0;
      var at := db.clock + Upserts.NewColumnCount(edit.columns, KeptColumns(db, edit), k);
      && MintId(at) !in db.columns
      && MintId(at) in r.columns
      && r.columns[MintId(at)] == Column(edit.id, edit.columns[k].title, colors[k], at)
  {
    UpdateBoardUpsertsColumns(db, edit, colors);
    UpsertCreatesFresh(db, edit, colors, k);
  }

  /** The column the upsert of entry k creates is new to the store. */
  lemma UpsertCreatesFresh(db: Tables, edit: BoardEdit, colors: seq<string>, k: nat)
    requires IssuedBefore(db.columns, db.clock) && |colors| == |edit.columns|
    requires k < |edit.columns| && edit.columns[k].id !in ColumnsOf(db.columns, edit.id)
    ensures var r := Upserts.UpsertColumns(db.columns - RemovedColumns(db, edit), db.clock, edit.id, KeptColumns(db, edit), edit.columns, colors, |edit.columns|).0;
      var at := db.clock + Upserts.NewColumnCount(edit.columns, KeptColumns(db, edit), k);
      && MintId(at) !in db.columns
      && MintId(at) in r
      && r[MintId(at)] == Column(edit.id, edit.columns[k].title, colors[k], at)
  {
    var kept := KeptColumns(db, edit);
    Upserts.UpsertColumnsCreates(db.columns - RemovedColumns(db, edit), db.clock, edit.id, kept, edit.columns, colors, |edit.columns|, k);
    MintedIsFresh(db.columns, db.clock, db.clock + Upserts.NewColumnCount(edit.columns, kept, k));
  }

  /** On a stored board, updateBoard's new columns are the upsert of the entries over the columns left after the deletion. */
  lemma UpdateBoardUpsertsColumns(db: Tables, edit: BoardEdit, colors: seq<string>)
    requires |colors| == |edit.columns| && edit.id in db.boards
    ensures var cols := db.columns - RemovedColumns(db, edit);
      && UpdateBoard(db, edit, colors).0.columns
         == Upserts.UpsertColumns(cols, db.clock, edit.id, KeptColumns(db, edit), edit.columns, colors, |edit.columns|).0
      && KeptColumns(db, edit) <= cols.Keys <= db.columns.Keys
  {
    KeptSurvive(db, edit);
  }

  // ---------------------------------------------------------------------------
  // deleteColumn, deleteTask, deleteBoard

  /** deleteColumn removes the column, its tasks and their subtasks and nothing else; a missing column is reported. */
  lemma DeleteColumnEffect(db: Tables, columnId: Id)
    requires Consistent(db)
    ensures var (r, out) := DeleteColumn(db, columnId);
      && Consistent(r)
      && (out == Ok <==> columnId in db.columns)
      && (out != Ok ==> out == NotFound(ColumnTable) && r == db)
      && r.boards == db.boards
      && (forall c :: c in r.columns <==> c in db.columns && c != columnId)
      && (forall c :: c in r.columns ==> r.columns[c] == db.columns[c])
      && (forall t :: t in r.tasks <==> t in db.tasks && db.tasks[t].columnId != columnId)
      && (forall t :: t in r.tasks ==> r.tasks[t] == db.tasks[t])
      && (forall s :: s in r.subtasks <==> s in db.subtasks && db.tasks[db.subtasks[s].taskId].columnId != columnId)
      && (forall s :: s in r.subtasks ==> r.subtasks[s] == db.subtasks[s])
  {
    Cascade.DropColumnsEffect(db, {columnId});
  }

  /** deleteTask removes the task and its subtasks and nothing else; a missing task is reported. */
  lemma DeleteTaskEffect(db: Tables, taskId: Id)
    requires Consistent(db)
    ensures var (r, out) := DeleteTask(db, taskId);
      && Consistent(r)
      && (out == Ok <==> taskId in db.tasks)
      && (out != Ok ==> out == NotFound(TaskTable) && r == db)
      && r.boards == db.boards && r.columns == db.columns
      && (forall t :: t in r.tasks <==> t in db.tasks && t != taskId)
      && (forall t :: t in r.tasks ==> r.tasks[t] == db.tasks[t])
      && (forall s :: s in r.subtasks <==> s in db.subtasks && db.subtasks[s].taskId != taskId)
      && (forall s :: s in r.subtasks ==> r.subtasks[s] == db.subtasks[s])
  {
    Cascade.DropTasksEffect(db, {taskId});
  }

  /** deleteBoard removes the board and everything below it and nothing else; a missing board is reported. */
  lemma DeleteBoardEffect(db: Tables, boardId: Id)
    requires Consistent(db)
    ensures var (r, out) := DeleteBoard(db, boardId);
      && Consistent(r)
      && (out == Ok <==> boardId in db.boards)
      && (out != Ok ==> out == NotFound(BoardTable) && r == db)
      && (forall x :: x in r.boards <==> x in db.boards && x != boardId)
      && (forall x :: x in r.boards ==> r.boards[x] == db.boards[x])
      && (forall c :: c in r.columns <==> c in db.columns && db.columns[c].boardId != boardId)
      && (forall c :: c in r.columns ==> r.columns[c] == db.columns[c])
      && (forall t :: t in r.tasks <==> t in db.tasks && db.columns[db.tasks[t].columnId].boardId != boardId)
      && (forall t :: t in r.tasks ==> r.tasks[t] == db.tasks[t])
      && (forall s :: s in r.subtasks <==>
            s in db.subtasks && db.columns[db.tasks[db.subtasks[s].taskId].columnId].boardId != boardId)
      && (forall s :: s in r.subtasks ==> r.subtasks[s] == db.subtasks[s])
  {
    Cascade.DropBoardEffect(db, boardId);
  }

  // ---------------------------------------------------------------------------
  // reorderTasks

  /** reorderTasks keeps the store consistent; it changes tasks only, and of a task only its order and column. */
  lemma ReorderTasksConsistent(db: Tables, columnId: Id, entries: seq<OrderEntry>)
    requires Consistent(db)
    ensures var r := ReorderTasks(db, columnId, entries).0;
      && Consistent(r)
      && r.boards == db.boards && r.columns == db.columns && r.subtasks == db.subtasks && r.clock == db.clock
      && r.tasks.Keys == db.tasks.Keys
      && (forall t :: t in db.tasks ==> r.tasks[t].(order := db.tasks[t].order, columnId := db.tasks[t].columnId) == db.tasks[t])
  {
    if columnId in db.columns {
      Upserts.ReorderChangesOnlyOrderAndColumn(db.tasks, columnId, entries, |entries|);
      WriteTasks(db, ReorderTasks(db, columnId, entries).0);
    }
  }

  /**
    reorderTasks succeeds exactly when every entry names a stored task and, unless there are no entries, the column
    exists; with a missing column nothing changes.
  */
  lemma ReorderTasksOutcome(db: Tables, columnId: Id, entries: seq<OrderEntry>)
    ensures var (r, out) := ReorderTasks(db, columnId, entries);
      && (out == Ok <==> (forall j :: 0 <= j < |entries| ==> entries[j].id in db.tasks) && (|entries| == 0 || columnId in db.columns))
      && (columnId !in db.columns ==> r == db)
  {
  }

  /** With the column present, a listed task takes the order of the last entry naming it and moves to the column. */
  lemma ReorderTasksSetsListed(db: Tables, columnId: Id, entries: seq<OrderEntry>, k: nat)
    requires columnId in db.columns && Upserts.LastMention(entries, |entries|, k) && entries[k].id in db.tasks
    ensures var r := ReorderTasks(db, columnId, entries).0;
      r.tasks[entries[k].id] == db.tasks[entries[k].id].(order := entries[k].order, columnId := columnId)
  {
    Upserts.ReorderSetsListed(db.tasks, columnId, entries, |entries|, k);
  }

  /** A task no entry names is untouched. */
  lemma ReorderTasksKeepsUnlisted(db: Tables, columnId: Id, entries: seq<OrderEntry>, t: Id)
    requires t in db.tasks && forall j :: 0 <= j < |entries| ==> entries[j].id != t
    ensures ReorderTasks(db, columnId, entries).0.tasks[t] == db.tasks[t]
  {
    if columnId in db.columns {
      Upserts.ReorderKeepsUnlisted(db.tasks, columnId, entries, |entries|, t);
    }
  }

  /** Sending the same reorder request twice has the effect of sending it once, with the same outcome. */
  lemma ReorderTasksIdempotent(db: Tables, columnId: Id, entries: seq<OrderEntry>)
    ensures var (once, out) := ReorderTasks(db, columnId, entries);
      ReorderTasks(once, columnId, entries) == (once, out)
  {
    Upserts.ReorderIdempotent(db.tasks, columnId, entries);
  }

  // ---------------------------------------------------------------------------
  // updateTask

  /** updateTask keeps the store consistent. */
  lemma UpdateTaskConsistent(db: Tables, edit: TaskEdit)
    requires Consistent(db)
    ensures Consistent(UpdateTask(db, edit).0)
  {
    if edit.id in db.tasks && edit.columnId in db.columns {
      var kept := SubtasksOf(db.subtasks, edit.id);
      var up := Upserts.UpsertSubtasks(db.subtasks, db.clock, edit.id, kept, edit.subtasks, |edit.subtasks|);
      Upserts.UpsertSubtasksKeys(db.subtasks, db.clock, edit.id, kept, edit.subtasks, |edit.subtasks|);
      WriteTasks(db, UpdateTask(db, edit).0);
    }
  }

  /** updateTask succeeds exactly when the task and the target column exist; otherwise it changes nothing. */
  lemma UpdateTaskOutcome(db: Tables, edit: TaskEdit)
    ensures var (r, out) := UpdateTask(db, edit);
      && (out == Ok <==> edit.id in db.tasks && edit.columnId in db.columns)
      && (edit.id !in db.tasks ==> out == NotFound(TaskTable))
      && (edit.id in db.tasks && edit.columnId !in db.columns ==> out == NotFound(ColumnTable))
      && (out != Ok ==> r == db)
  {
  }

  /**
    A successful updateTask overwrites the task's title, description and column. Its order stays when the column does;
    a task moved to another column takes that column's size, which puts it after the tasks already there. No other
    task, column or board changes.
  */
  lemma UpdateTaskEffect(db: Tables, edit: TaskEdit)
    requires Consistent(db) && edit.id in db.tasks && edit.columnId in db.columns
    ensures var r := UpdateTask(db, edit).0;
      var stored := db.tasks[edit.id];
      && r.tasks.Keys == db.tasks.Keys
      && r.tasks[edit.id].columnId == edit.columnId
      && r.tasks[edit.id].title == edit.title
      && r.tasks[edit.id].description == edit.description
      && (stored.columnId == edit.columnId ==> r.tasks[edit.id].order == stored.order)
      && (stored.columnId != edit.columnId ==>
            && r.tasks[edit.id].order == TaskCount(db.tasks, edit.columnId)
            && TaskCount(r.tasks, edit.columnId) == TaskCount(db.tasks, edit.columnId) + 1)
      && (forall t :: t in db.tasks && t != edit.id ==> r.tasks[t] == db.tasks[t])
      && r.boards == db.boards && r.columns == db.columns
  {
    var stored := db.tasks[edit.id];
    if stored.columnId != edit.columnId {
      var r := UpdateTask(db, edit).0;
      assert TasksOf(r.tasks, {edit.columnId}) == TasksOf(db.tasks, {edit.columnId}) + {edit.id};
    }
  }

  /** The order field of the request is never used. */
  lemma UpdateTaskIgnoresOrder(db: Tables, edit: TaskEdit, order: int)
    ensures UpdateTask(db, edit.(order := order)) == UpdateTask(db, edit)
  {
  }

  /**
    A successful updateTask deletes no subtask; a subtask of another task, or of this task but named by no entry, is
    untouched; the clock advances by one per entry naming none of the task's subtasks, and every new subtask has one of
    the ids issued in between and belongs to the task. With UpdateTaskCreatesSubtask, which gives each such entry its
    own id in that range, the new subtasks are exactly one per creating entry.
  */
  lemma UpdateTaskKeepsSubtasks(db: Tables, edit: TaskEdit)
    requires Consistent(db) && edit.id in db.tasks && edit.columnId in db.columns
    ensures var r := UpdateTask(db, edit).0;
      && (forall s :: s in db.subtasks ==> s in r.subtasks)
      && (forall s :: s in db.subtasks && (db.subtasks[s].taskId != edit.id || forall j :: 0 <= j < |edit.subtasks| ==> edit.subtasks[j].id != s)
            ==> r.subtasks[s] == db.subtasks[s])
      && r.clock == db.clock + Upserts.NewSubtaskCount(edit.subtasks, SubtasksOf(db.subtasks, edit.id), |edit.subtasks|)
      && (forall s :: s in r.subtasks && s !in db.subtasks ==> Upserts.MintedBetween(s, db.clock, r.clock) && r.subtasks[s].taskId == edit.id)
  {
    var kept := SubtasksOf(db.subtasks, edit.id);
    Upserts.UpsertSubtasksKeys(db.subtasks, db.clock, edit.id, kept, edit.subtasks, |edit.subtasks|);
    Upserts.UpsertSubtasksClock(db.subtasks, db.clock, edit.id, kept, edit.subtasks, |edit.subtasks|);
    forall s | s in db.subtasks && (db.subtasks[s].taskId != edit.id || forall j :: 0 <= j < |edit.subtasks| ==> edit.subtasks[j].id != s)
      ensures Upserts.UpsertSubtasks(db.subtasks, db.clock, edit.id, kept, edit.subtasks, |edit.subtasks|).0[s] == db.subtasks[s]
    {
      Upserts.UpsertSubtasksUntouched(db.subtasks, db.clock, edit.id, kept, edit.subtasks, |edit.subtasks|, s);
    }
  }

  /** A subtask of the task named by entry k, and by no later entry, takes entry k's title and done flag and order k. */
  lemma UpdateTaskUpdatesSubtask(db: Tables, edit: TaskEdit, k: nat)
    requires Consistent(db) && edit.id in db.tasks && edit.columnId in db.columns
    requires k < |edit.subtasks| && edit.subtasks[k].id in SubtasksOf(db.subtasks, edit.id)
    requires forall j :: k < j < |edit.subtasks| ==> edit.subtasks[j].id != edit.subtasks[k].id
    ensures var r := UpdateTask(db, edit).0;
      var s := edit.subtasks[k].id;
      s in r.subtasks && r.subtasks[s] == db.subtasks[s].(title := edit.subtasks[k].title, done := edit.subtasks[k].done, order := k)
  {
    var kept := SubtasksOf(db.subtasks, edit.id);
    Upserts.UpsertSubtasksUpdates(db.subtasks, db.clock, edit.id, kept, edit.subtasks, |edit.subtasks|, k);
  }

  /**
    An entry k naming none of the task's subtasks creates a subtask of the task with entry k's title, order k and done
    false, whatever done flag the entry carries.
  */
  lemma UpdateTaskCreatesSubtask(db: Tables, edit: TaskEdit, k: nat)
    requires Consistent(db) && edit.id in db.tasks && edit.columnId in db.columns
    requires k < |edit.subtasks| && edit.subtasks[k].id !in SubtasksOf(db.subtasks, edit.id)
    ensures var r := UpdateTask(db, edit).0;
      var at := db.clock + Upserts.NewSubtaskCount(edit.subtasks, SubtasksOf(db.subtasks, edit.id), k);
      && MintId(at) !in db.subtasks
      && MintId(at) in r.subtasks
      && r.subtasks[MintId(at)] == Subtask(edit.id, edit.subtasks[k].title, false, k, at)
  {
    Upserts.UpsertSubtasksCreates(db.subtasks, db.clock, edit.id, SubtasksOf(db.subtasks, edit.id), edit.subtasks, |edit.subtasks|, k);
  }

  // ---------------------------------------------------------------------------
  // updateSubtask

  /** updateSubtask overwrites the title and done flag of an existing subtask and nothing else; a missing one is reported. */
  lemma UpdateSubtaskEffect(db: Tables, patch: SubtaskPatch)
    requires Consistent(db)
    ensures var (r, out) := UpdateSubtask(db, patch);
      && Consistent(r)
      && (out == Ok <==> patch.id in db.subtasks)
      && (out != Ok ==> out == NotFound(SubtaskTable) && r == db)
      && r.boards == db.boards && r.columns == db.columns && r.tasks == db.tasks
      && r.subtasks.Keys == db.subtasks.Keys
      && (out == Ok ==> r.subtasks[patch.id] == db.subtasks[patch.id].(title := patch.title, done := patch.done))
      && (forall s :: s in db.subtasks && s != patch.id ==> r.subtasks[s] == db.subtasks[s])
  {
    if patch.id in db.subtasks {
      WriteTasks(db, UpdateSubtask(db, patch).0);
    }
  }
}
