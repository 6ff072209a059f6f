/**
  The rows of the four tables behind the board router (Board, Column, Task,
  Subtask), the inputs the router's procedures take, and the consistency the
  database keeps between the tables: every child row names an existing
  parent row.

  A row's id is the key it is stored under. The database issues a fresh
  cuid for every created row; here the store keeps a clock, the row created
  at tick n gets the id `MintId(n)` and, where a query orders by creation
  time, `createdAt == n`.
*/
module Records {
  import Forms

  type Id = string

  datatype Option<T> = None | Some(value: T)

  datatype Board = Board(title: string, userId: Id, createdAt: nat)

  datatype Column = Column(boardId: Id, title: string, color: string, createdAt: nat)

  datatype Task = Task(columnId: Id, title: string, description: string, order: int)

  datatype Subtask = Subtask(taskId: Id, title: string, done: bool, order: int, createdAt: nat)

  /** The whole store, with the clock that issues ids. */
  datatype Tables = Tables(
    boards: map<Id, Board>,
    columns: map<Id, Column>,
    tasks: map<Id, Task>,
    subtasks: map<Id, Subtask>,
    clock: nat)

  datatype Table = BoardTable | ColumnTable | TaskTable | SubtaskTable

  /** How a procedure ends: done, a referenced row is missing, or the input failed its schema. */
  datatype Outcome = Ok | NotFound(table: Table) | Invalid(issues: seq<Forms.Issue>)

  /** One element of `editBoardFormSchema`'s columns: an existing column's id, or a placeholder for a new one. */
  datatype ColumnEdit = ColumnEdit(id: Id, title: string)

  datatype BoardEdit = BoardEdit(id: Id, title: string, columns: seq<ColumnEdit>)

  /** One element of `updateTaskFormSchema`'s subtasks; `index` is the property the router writes into it. */
  datatype SubtaskEdit = SubtaskEdit(id: Id, title: string, done: bool, index: Option<nat>)

  datatype TaskEdit = TaskEdit(id: Id, title: string, description: string, columnId: Id, order: int, subtasks: seq<SubtaskEdit>)

  datatype SubtaskPatch = SubtaskPatch(id: Id, title: string, done: bool)

  /** One `{id, order}` pair of a reorderTasks request. */
  datatype OrderEntry = OrderEntry(id: Id, order: int)

  /** The id of the row created at tick n. */
  function MintId(n: nat): (id: Id)
    ensures Tick(id) == n + 1
  {
    seq(n + 1, _ => 'c')
  }

  /** Ids issued later have larger ticks: an id issued at tick n has tick n + 1. */
  function Tick(k: Id): nat
  {
    |k|
  }

  /** Every id stored in m was issued before tick n. */
  ghost predicate IssuedBefore<V>(m: map<Id, V>, n: nat)
  {
    forall k :: k in m ==> Tick(k) <= n
  }

  /** An id issued at tick t or later is not among ids issued before tick n <= t. */
  lemma MintedIsFresh<V>(m: map<Id, V>, n: nat, t: nat)
    requires IssuedBefore(m, n) && n <= t
    ensures MintId(t) !in m
  {
  }

  lemma MintIdInjective(s: nat, t: nat)
    ensures MintId(s) == MintId(t) <==> s == t
  {
    if MintId(s) == MintId(t) {
      assert Tick(MintId(s)) == Tick(MintId(t));
    }
  }

  /** Referential integrity, and every stored id issued before the current tick. */
  ghost predicate Consistent(db: Tables)
  {
    && (forall c :: c in db.columns ==> db.columns[c].boardId in db.boards)
    && (forall t :: t in db.tasks ==> db.tasks[t].columnId in db.columns)
    && (forall s :: s in db.subtasks ==> db.subtasks[s].taskId in db.tasks)
    && IssuedBefore(db.boards, db.clock)
    && IssuedBefore(db.columns, db.clock)
    && IssuedBefore(db.tasks, db.clock)
    && IssuedBefore(db.subtasks, db.clock)
  }

  /** A write r of boards and columns keeps the store consistent when no column loses its board and every id is issued. */
  lemma WriteColumns(db: Tables, r: Tables)
    requires Consistent(db) && db.clock <= r.clock && r.tasks == db.tasks && r.subtasks == db.subtasks
    requires db.boards.Keys <= r.boards.Keys && IssuedBefore(r.boards, r.clock)
    requires forall c :: c in db.columns ==> c in r.columns
    requires forall c :: c in r.columns ==> r.columns[c].boardId in r.boards && Tick(c) <= r.clock
    ensures Consistent(r)
  {
  }

  /** A write r of tasks and subtasks keeps the store consistent when every parent exists and every id is issued. */
  lemma WriteTasks(db: Tables, r: Tables)
    requires Consistent(db) && db.clock <= r.clock && r.boards == db.boards && r.columns == db.columns
    requires forall t :: t in r.tasks ==> r.tasks[t].columnId in db.columns && Tick(t) <= r.clock
    requires forall s :: s in r.subtasks ==> r.subtasks[s].taskId in r.tasks && Tick(s) <= r.clock
    ensures Consistent(r)
  {
  }

  /** The ids of a board's columns. */
  function ColumnsOf(columns: map<Id, Column>, b: Id): set<Id>
  {
    set c | c in columns && columns[c].boardId == b
  }

  /** The ids of the tasks that live in any of the columns cs. */
  function TasksOf(tasks: map<Id, Task>, cs: set<Id>): set<Id>
  {
    set t | t in tasks && tasks[t].columnId in cs
  }

  /** The ids of a task's subtasks. */
  function SubtasksOf(subtasks: map<Id, Subtask>, t: Id): set<Id>
  {
    set s | s in subtasks && subtasks[s].taskId == t
  }

  /** The number of tasks in column c (`column.tasks.length`). */
  function TaskCount(tasks: map<Id, Task>, c: Id): nat
  {
    |TasksOf(tasks, {c})|
  }

  /** The ids named by an array of column edits. */
  function EditIds(edits: seq<ColumnEdit>): set<Id>
  {
    set e | e in edits :: e.id
  }

  lemma TaskCountOfMissingColumn(db: Tables, c: Id)
    requires Consistent(db) && c !in db.columns
    ensures TaskCount(db.tasks, c) == 0
  {
    assert TasksOf(db.tasks, {c}) == {};
  }
}
