/**
  Deletes, as the database performs them: deleting a row deletes every row
  below it (a column's tasks, a task's subtasks), and it changes nothing
  else. In particular no surviving sibling is renumbered: the orders of the
  remaining tasks and subtasks are exactly what they were.
*/
module Cascade {
  import opened Records

  /** The subtasks that survive deleting the tasks ts. */
  function SubtasksOutside(subtasks: map<Id, Subtask>, ts: set<Id>): map<Id, Subtask>
  {
    map s | s in subtasks && subtasks[s].taskId !in ts :: subtasks[s]
  }

  /** Deleting the tasks ts and, with them, their subtasks. */
  function DropTasks(db: Tables, ts: set<Id>): Tables
  {
    db.(tasks := db.tasks - ts, subtasks := SubtasksOutside(db.subtasks, ts))
  }

  /** Deleting the columns cs and, with them, their tasks and those tasks' subtasks. */
  function DropColumns(db: Tables, cs: set<Id>): Tables
  {
    var r := DropTasks(db, TasksOf(db.tasks, cs));
    r.(columns := r.columns - cs)
  }

  /** Deleting board b and everything below it. */
  function DropBoard(db: Tables, b: Id): Tables
  {
    var r := DropColumns(db, ColumnsOf(db.columns, b));
    r.(boards := r.boards - {b})
  }

  lemma DropTasksEffect(db: Tables, ts: set<Id>)
    requires Consistent(db)
    ensures var r := DropTasks(db, ts);
      && Consistent(r)
      && r.boards == db.boards && r.columns == db.columns && r.clock == db.clock
      && (forall t :: t in r.tasks <==> t in db.tasks && t !in ts)
      && (forall t :: t in r.tasks ==> r.tasks[t] == db.tasks[t])
      && (forall s :: s in r.subtasks <==> s in db.subtasks && db.subtasks[s].taskId !in ts)
      && (forall s :: s in r.subtasks ==> r.subtasks[s] == db.subtasks[s])
  {
  }

  lemma DropColumnsEffect(db: Tables, cs: set<Id>)
    requires Consistent(db)
    ensures var r := DropColumns(db, cs);
      && Consistent(r)
      && r.boards == db.boards && r.clock == db.clock
      && (forall c :: c in r.columns <==> c in db.columns && c !in cs)
      && (forall c :: c in r.columns ==> r.columns[c] == db.columns[c])
      && (forall t :: t in r.tasks <==> t in db.tasks && db.tasks[t].columnId !in cs)
      && (forall t :: t in r.tasks ==> r.tasks[t] == db.tasks[t])
      && (forall s :: s in r.subtasks <==> s in db.subtasks && db.tasks[db.subtasks[s].taskId].columnId !in cs)
      && (forall s :: s in r.subtasks ==> r.subtasks[s] == db.subtasks[s])
  {
    DropTasksEffect(db, TasksOf(db.tasks, cs));
  }

  lemma DropBoardEffect(db: Tables, b: Id)
    requires Consistent(db)
    ensures var r := DropBoard(db, b);
      && Consistent(r)
      && r.clock == db.clock
      && (forall x :: x in r.boards <==> x in db.boards && x != b)
      && (forall x :: x in r.boards ==> r.boards[x] == db.boards[x])
      && (forall c :: c in r.columns <==> c in db.columns && db.columns[c].boardId != b)
      && (forall c :: c in r.columns ==> r.columns[c] == db.columns[c])
      && (forall t :: t in r.tasks <==> t in db.tasks && db.columns[db.tasks[t].columnId].boardId != b)
      && (forall t :: t in r.tasks ==> r.tasks[t] == db.tasks[t])
      && (forall s :: s in r.subtasks <==>
            s in db.subtasks && db.columns[db.tasks[db.subtasks[s].taskId].columnId].boardId != b)
      && (forall s :: s in r.subtasks ==> r.subtasks[s] == db.subtasks[s])
  {
    DropColumnsEffect(db, ColumnsOf(db.columns, b));
  }
}
