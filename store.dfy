/**
  The board router as an object over the four tables. Each method performs
  the database writes of one procedure, one row at a time, in the order the
  procedure issues them, and its contract ties the tables after the call to
  the specification function of the same name in `Mutations`: whatever the
  lemmas there prove about that function holds of the method.
*/
module BoardRouter {
  import opened Records
  import Forms
  import Cascade
  import Upserts
  import Mutations

  /**
    updateTask's first statement: each element of the submitted subtask array is given the property `index`, its
    position in the array.
  */
  method NumberSubtasks(a: array<SubtaskEdit>)
    modifies a
    ensures forall i :: 0 <= i < a.Length ==> a[i] == old(a[i]).(index := Some(i))
  {
    var i := 0;
    while i < a.Length
      invariant 0 <= i <= a.Length
      invariant forall j :: 0 <= j < i ==> a[j] == old(a[j]).(index := Some(j))
      invariant forall j :: i <= j < a.Length ==> a[j] == old(a[j])
    {
      a[i] := a[i].(index := Some(i));
      i := i + 1;
    }
  }

  /** `index ?? default`, and what a Prisma update does with an `undefined` field: keep the stored value. */
  function IndexOr(index: Option<nat>, default: int): int
  {
    if index.Some? then index.value else default
  }

  class BoardStore {
    var boards: map<Id, Board>
    var columns: map<Id, Column>
    var tasks: map<Id, Task>
    var subtasks: map<Id, Subtask>
    var clock: nat

    /** The four tables and the clock as one value. */
    ghost function Snapshot(): Tables
      reads this
    {
      Tables(boards, columns, tasks, subtasks, clock)
    }

    ghost predicate Valid()
      reads this
    {
      Consistent(Snapshot())
    }

    /** An empty database. */
    constructor ()
      ensures Valid()
      ensures Snapshot() == Tables(map[], map[], map[], map[], 0)
    {
      boards := map[];
      columns := map[];
      tasks := map[];
      subtasks := map[];
      clock := 0;
    }

    /** createBoard: the board, then one column per form column, column i with colour colors[i]. */
    method CreateBoard(userId: Id, form: Forms.BoardForm, colors: seq<string>) returns (out: Outcome)
      requires Valid() && |colors| == |form.columns|
      modifies this
      ensures Valid()
      ensures (Snapshot(), out) == Mutations.CreateBoard(old(Snapshot()), userId, form, colors)
    {
      var issues := Forms.BoardIssues(form);
      if issues != [] {
        return Invalid(issues);
      }
      Mutations.InsertBoardConsistent(Snapshot(), form.title, userId, form.columns, colors);
      InsertBoard(form.title, userId, form.columns, colors);
      out := Ok;
    }

    /** The writes of createBoard: the board, issued at the current tick, then its columns. */
    method InsertBoard(title: string, userId: Id, items: seq<Forms.NamedItem>, colors: seq<string>)
      requires |colors| == |items|
      modifies this
      ensures Snapshot() == Mutations.InsertBoard(old(Snapshot()), title, userId, items, colors)
    {
      var b := MintId(clock);
      boards := boards[b := Board(title, userId, clock)];
      AddColumns(b, items, colors, clock + 1);
      clock := clock + 1 + |items|;
    }

    /** The columns of a new board: items[i] becomes the column issued at tick first + i, with colour colors[i]. */
    method AddColumns(b: Id, items: seq<Forms.NamedItem>, colors: seq<string>, first: nat)
      requires |colors| == |items|
      modifies this
      ensures columns == Upserts.AppendColumns(old(columns), b, items, colors, first, |items|)
      ensures boards == old(boards) && tasks == old(tasks) && subtasks == old(subtasks) && clock == old(clock)
    {
      var i := 0;
      while i < |items|
        invariant 0 <= i <= |items|
        invariant columns == Upserts.AppendColumns(old(columns), b, items, colors, first, i)
        invariant boards == old(boards) && tasks == old(tasks) && subtasks == old(subtasks) && clock == old(clock)
      {
        var at := first + i;
        columns := columns[MintId(at) := Column(b, items[i].title, colors[i], at)];
        i := i + 1;
      }
    }

    /** createColumn: one column with the given colour on an existing board. */
    method CreateColumn(boardId: Id, form: Forms.ColumnForm, color: string) returns (out: Outcome)
      requires Valid()
      modifies this
      ensures Valid()
      ensures (Snapshot(), out) == Mutations.CreateColumn(old(Snapshot()), boardId, form, color)
    {
      Mutations.CreateColumnEffect(Snapshot(), boardId, form, color);
      var issues := Forms.ColumnIssues(form);
      if issues != [] {
        return Invalid(issues);
      }
      if boardId !in boards {
        return NotFound(BoardTable);
      }
      columns := columns[MintId(clock) := Column(boardId, form.title, color, clock)];
      clock := clock + 1;
      out := Ok;
    }

    /**
      createTask: the order is the number of tasks of the form's column when that column is one of the board's, else 0;
      then the task, then one subtask per form subtask.
    */
    method CreateTask(boardId: Id, form: Forms.TaskForm) returns (out: Outcome)
      requires Valid()
      modifies this
      ensures Valid()
      ensures (Snapshot(), out) == Mutations.CreateTask(old(Snapshot()), boardId, form)
    {
      var issues := Forms.TaskIssues(form);
      if issues != [] {
        return Invalid(issues);
      }
      var ownerColumn := form.columnId in columns && columns[form.columnId].boardId == boardId;
      var taskNumber := if ownerColumn then TaskCount(tasks, form.columnId) else 0;
      if form.columnId !in columns {
        return NotFound(ColumnTable);
      }
      Mutations.InsertTaskConsistent(Snapshot(), form.columnId, form.title, form.description, taskNumber, form.subtasks);
      InsertTask(form.columnId, form.title, form.description, taskNumber, form.subtasks);
      out := Ok;
    }

    /** The writes of createTask: the task, issued at the current tick, then its subtasks. */
    method InsertTask(columnId: Id, title: string, description: string, order: int, items: seq<Forms.NamedItem>)
      modifies this
      ensures Snapshot() == Mutations.InsertTask(old(Snapshot()), columnId, title, description, order, items)
    {
      var t := MintId(clock);
      tasks := tasks[t := Task(columnId, title, description, order)];
      AddSubtasks(t, items, clock + 1);
      clock := clock + 1 + |items|;
    }

    /** The subtasks of a new task: items[i] becomes the subtask issued at tick first + i, with order i, not done. */
    method AddSubtasks(t: Id, items: seq<Forms.NamedItem>, first: nat)
      modifies this
      ensures subtasks == Upserts.AppendSubtasks(old(subtasks), t, items, first, |items|)
      ensures boards == old(boards) && columns == old(columns) && tasks == old(tasks) && clock == old(clock)
    {
      var i := 0;
      while i < |items|
        invariant 0 <= i <= |items|
        invariant subtasks == Upserts.AppendSubtasks(old(subtasks), t, items, first, i)
        invariant boards == old(boards) && columns == old(columns) && tasks == old(tasks) && clock == old(clock)
      {
        var at := first + i;
        subtasks := subtasks[MintId(at) := Subtask(t, items[i].title, false, i, at)];
        i := i + 1;
      }
    }

    /** Deleting the columns cs, and the tasks in them, and those tasks' subtasks. */
    method DeleteColumns(cs: set<Id>)
      requires Valid()
      modifies this
      ensures Valid()
      ensures Snapshot() == Cascade.DropColumns(old(Snapshot()), cs)
    {
      Cascade.DropColumnsEffect(Snapshot(), cs);
      var doomed := TasksOf(tasks, cs);
      tasks := tasks - doomed;
      subtasks := Cascade.SubtasksOutside(subtasks, doomed);
      columns := columns - cs;
    }

    /**
      updateBoard: delete the board's columns the edit does not name, retitle the board, then upsert the edit's columns
      one by one against the board's remaining columns; an entry creating a column takes the colour colors[k].
    */
    method UpdateBoard(edit: BoardEdit, colors: seq<string>) returns (out: Outcome)
      requires Valid() && |colors| == |edit.columns|
      modifies this
      ensures Valid()
      ensures (Snapshot(), out) == Mutations.UpdateBoard(old(Snapshot()), edit, colors)
    {
      Mutations.UpdateBoardConsistent(Snapshot(), edit, colors);
      Mutations.UpdateBoardDeletion(Snapshot(), edit);
      var initialColumns := ColumnsOf(columns, edit.id);
      var deletedColumns := initialColumns - EditIds(edit.columns);
      DeleteColumns(deletedColumns);
      if edit.id !in boards {
        return NotFound(BoardTable);
      }
      boards := boards[edit.id := boards[edit.id].(title := edit.title)];
      var kept := ColumnsOf(columns, edit.id);
      UpsertColumns(edit.id, kept, edit.columns, colors);
      out := Ok;
    }

    /** The upserts of updateBoard, in order: retitle the board's column e.id when it is kept, else create a column. */
    method UpsertColumns(boardId: Id, kept: set<Id>, edits: seq<ColumnEdit>, colors: seq<string>)
      requires |colors| == |edits|
      modifies this
      ensures (columns, clock) == Upserts.UpsertColumns(old(columns), old(clock), boardId, kept, edits, colors, |edits|)
      ensures boards == old(boards) && tasks == old(tasks) && subtasks == old(subtasks)
    {
      var i := 0;
      while i < |edits|
        invariant 0 <= i <= |edits|
        invariant (columns, clock) == Upserts.UpsertColumns(old(columns), old(clock), boardId, kept, edits, colors, i)
        invariant boards == old(boards) && tasks == old(tasks) && subtasks == old(subtasks)
      {
        var column := edits[i];
        if column.id in kept && column.id in columns {
          columns := columns[column.id := columns[column.id].(title := column.title)];
        } else {
          columns := columns[MintId(clock) := Column(boardId, column.title, colors[i], clock)];
          clock := clock + 1;
        }
        i := i + 1;
      }
    }

    /** deleteColumn: the column, its tasks and their subtasks. */
    method DeleteColumn(columnId: Id) returns (out: Outcome)
      requires Valid()
      modifies this
      ensures Valid()
      ensures (Snapshot(), out) == Mutations.DeleteColumn(old(Snapshot()), columnId)
    {
      if columnId !in columns {
        return NotFound(ColumnTable);
      }
      DeleteColumns({columnId});
      out := Ok;
    }

    /**
      reorderTasks: one update per entry, setting the order and moving the task to the column; every entry is attempted,
      and the call fails when any update does.
    */
    method ReorderTasks(columnId: Id, entries: seq<OrderEntry>) returns (out: Outcome)
      requires Valid()
      modifies this
      ensures Valid()
      ensures (Snapshot(), out) == Mutations.ReorderTasks(old(Snapshot()), columnId, entries)
    {
      Mutations.ReorderTasksConsistent(Snapshot(), columnId, entries);
      var failed := ApplyOrders(columnId, entries);
      out := if failed.Some? then NotFound(failed.value) else Ok;
    }

    /**
      The updates of reorderTasks, in order. An update fails when the column or the task is missing; failed reports the
      failing table, the column when it is the column that is missing.
    */
    method ApplyOrders(columnId: Id, entries: seq<OrderEntry>) returns (failed: Option<Table>)
      modifies this
      ensures tasks == if columnId in columns then Upserts.Reorder(old(tasks), columnId, entries, |entries|) else old(tasks)
      ensures columnId !in columns ==> failed == if |entries| == 0 then None else Some(ColumnTable)
      ensures columnId in columns ==> failed == if Mutations.AllListed(old(tasks), entries) then None else Some(TaskTable)
      ensures boards == old(boards) && columns == old(columns) && subtasks == old(subtasks) && clock == old(clock)
    {
      failed := None;
      var i := 0;
      while i < |entries|
        invariant 0 <= i <= |entries|
        invariant columnId in columns ==> tasks == Upserts.Reorder(old(tasks), columnId, entries, i)
        invariant columnId !in columns ==> tasks == old(tasks) && failed == (if i == 0 then None else Some(ColumnTable))
        invariant columnId in columns ==>
                    failed == if forall j :: 0 <= j < i ==> entries[j].id in old(tasks) then None else Some(TaskTable)
        invariant boards == old(boards) && columns == old(columns) && subtasks == old(subtasks) && clock == old(clock)
      {
        var task := entries[i];
        assert columnId in columns ==> (task.id in tasks <==> task.id in old(tasks));
        if columnId !in columns {
          failed := Some(ColumnTable);
        } else if task.id !in tasks {
          failed := Some(TaskTable);
        } else {
          tasks := tasks[task.id := tasks[task.id].(order := task.order, columnId := columnId)];
        }
        i := i + 1;
      }
    }

    /**
      updateTask: number the submitted subtasks, work out the task's order (the stored one, or the size of the target
      column on a move), overwrite the task, then upsert the subtasks one by one against the task's subtasks.
    */
    method UpdateTask(edit: TaskEdit) returns (out: Outcome)
      requires Valid()
      modifies this
      ensures Valid()
      ensures (Snapshot(), out) == Mutations.UpdateTask(old(Snapshot()), edit)
    {
      Mutations.UpdateTaskConsistent(Snapshot(), edit);
      var input := new SubtaskEdit[|edit.subtasks|](i requires 0 <= i < |edit.subtasks| => edit.subtasks[i]);
      NumberSubtasks(input);
      if edit.id !in tasks {
        return NotFound(TaskTable);
      }
      var numTask := TaskOrder(edit);
      if edit.columnId !in columns {
        return NotFound(ColumnTable);
      }
      tasks := tasks[edit.id := Task(edit.columnId, edit.title, edit.description, numTask)];
      var kept := SubtasksOf(subtasks, edit.id);
      UpsertSubtasks(edit.id, kept, input, edit.subtasks);
      out := Ok;
    }

    /**
      The order updateTask gives the task: the stored one, replaced by the size of the target column when the task
      changes column (0 when that column does not exist).
    */
    method TaskOrder(edit: TaskEdit) returns (numTask: int)
      requires edit.id in tasks
      ensures tasks[edit.id].columnId == edit.columnId ==> numTask == tasks[edit.id].order
      ensures tasks[edit.id].columnId != edit.columnId && edit.columnId in columns ==> numTask == TaskCount(tasks, edit.columnId)
      ensures tasks[edit.id].columnId != edit.columnId && edit.columnId !in columns ==> numTask == 0
    {
      var initialTask := tasks[edit.id];
      numTask := initialTask.order;
      if initialTask.columnId != edit.columnId {
        numTask := if edit.columnId in columns then TaskCount(tasks, edit.columnId) else 0;
      }
    }

    /**
      The upserts of updateTask, in order, over the numbered subtask array: update the task's subtask e.id when it is
      kept (title, done flag, and order from the index), else create one from the title and the index, not done.
    */
    method UpsertSubtasks(taskId: Id, kept: set<Id>, input: array<SubtaskEdit>, edits: seq<SubtaskEdit>)
      requires input.Length == |edits| && forall j :: 0 <= j < input.Length ==> input[j] == edits[j].(index := Some(j))
      modifies this
      ensures (subtasks, clock) == Upserts.UpsertSubtasks(old(subtasks), old(clock), taskId, kept, edits, |edits|)
      ensures boards == old(boards) && columns == old(columns) && tasks == old(tasks)
    {
      var i := 0;
      while i < input.Length
        invariant 0 <= i <= input.Length
        invariant (subtasks, clock) == Upserts.UpsertSubtasks(old(subtasks), old(clock), taskId, kept, edits, i)
        invariant boards == old(boards) && columns == old(columns) && tasks == old(tasks)
      {
        var subtask := input[i];
        if subtask.id in kept && subtask.id in subtasks {
          var order := IndexOr(subtask.index, subtasks[subtask.id].order);
          subtasks := subtasks[subtask.id := subtasks[subtask.id].(title := subtask.title, done := subtask.done, order := order)];
        } else {
          var order := IndexOr(subtask.index, 0);
          subtasks := subtasks[MintId(clock) := Subtask(taskId, subtask.title, false, order, clock)];
          clock := clock + 1;
        }
        i := i + 1;
      }
    }

    /** deleteTask: the task and its subtasks. */
    method DeleteTask(taskId: Id) returns (out: Outcome)
      requires Valid()
      modifies this
      ensures Valid()
      ensures (Snapshot(), out) == Mutations.DeleteTask(old(Snapshot()), taskId)
    {
      Cascade.DropTasksEffect(Snapshot(), {taskId});
      if taskId !in tasks {
        return NotFound(TaskTable);
      }
      tasks := tasks - {taskId};
      subtasks := Cascade.SubtasksOutside(subtasks, {taskId});
      out := Ok;
    }

    /** deleteBoard: the board, its columns, their tasks and those tasks' subtasks. */
    method DeleteBoard(boardId: Id) returns (out: Outcome)
      requires Valid()
      modifies this
      ensures Valid()
      ensures (Snapshot(), out) == Mutations.DeleteBoard(old(Snapshot()), boardId)
    {
      Cascade.DropBoardEffect(Snapshot(), boardId);
      if boardId !in boards {
        return NotFound(BoardTable);
      }
      DeleteColumns(ColumnsOf(columns, boardId));
      boards := boards - {boardId};
      out := Ok;
    }

    /** updateSubtask: the title and the done flag. */
    method UpdateSubtask(patch: SubtaskPatch) returns (out: Outcome)
      requires Valid()
      modifies this
      ensures Valid()
      ensures (Snapshot(), out) == Mutations.UpdateSubtask(old(Snapshot()), patch)
    {
      Mutations.UpdateSubtaskEffect(Snapshot(), patch);
      if patch.id !in subtasks {
        return NotFound(SubtaskTable);
      }
      subtasks := subtasks[patch.id := subtasks[patch.id].(title := patch.title, done := patch.done)];
      out := Ok;
    }
  }
}
