/**
  The board router's two read procedures. getBoardByUserId lists a user's
  boards, newest first; getBoardById returns one board with its columns in
  creation order, each column's tasks by ascending `order`, and each task's
  subtasks in creation order. Rows with equal sort keys may come in any
  order: the database does not promise one, and neither does the model.
*/
module Queries {
  import opened Records

  /** A sequence of ids, each stored in key, whose keys never decrease along it. */
  ghost predicate Ascending(key: map<Id, int>, r: seq<Id>)
  {
    forall i, j :: 0 <= i < j < |r| ==> r[i] in key && r[j] in key && key[r[i]] <= key[r[j]]
  }

  /** A sequence that holds every id of ids exactly once and nothing else. */
  ghost predicate Enumerates(r: seq<Id>, ids: set<Id>)
  {
    && |r| == |ids|
    && (forall i :: 0 <= i < |r| ==> r[i] in ids && r[i] !in r[..i])
    && (forall x :: x in ids ==> x in r)
  }

  /** A row of ids whose key is least; which one of several equal rows is left open. */
  ghost function Least(key: map<Id, int>, ids: set<Id>): (m: Id)
    requires ids <= key.Keys && ids != {}
    ensures m in ids && forall x :: x in ids ==> key[m] <= key[x]
    decreases |ids|
  {
    var y :| y in ids;
    if ids == {y} then y
    else
      var m := Least(key, ids - {y});
      if key[y] <= key[m] then y else m
  }

  /** `orderBy: { field: "asc" }` over the rows ids, where key gives each row's field. */
  ghost function SortAsc(key: map<Id, int>, ids: set<Id>): (r: seq<Id>)
    requires ids <= key.Keys
    ensures Enumerates(r, ids) && Ascending(key, r)
    decreases |ids|
  {
    if ids == {} then []
    else
      var m := Least(key, ids);
      var rest := SortAsc(key, ids - {m});
      ConsEnumerates(m, rest, ids);
      ConsAscending(key, m, rest, ids - {m});
      [m] + rest
  }

  lemma ConsEnumerates(m: Id, rest: seq<Id>, ids: set<Id>)
    requires m in ids && Enumerates(rest, ids - {m})
    ensures Enumerates([m] + rest, ids)
  {
    var r := [m] + rest;
    forall x | x in ids
      ensures x in r
    {
      if x != m {
        assert x in ids - {m};
      }
    }
    forall i | 0 < i < |r|
      ensures r[i] in ids && r[i] !in r[..i]
    {
      assert r[i] == rest[i - 1] && r[..i] == [m] + rest[..i - 1];
    }
    assert |ids - {m}| == |ids| - 1;
  }

  lemma ConsAscending(key: map<Id, int>, m: Id, rest: seq<Id>, others: set<Id>)
    requires m in key && Ascending(key, rest) && (forall i :: 0 <= i < |rest| ==> rest[i] in others)
    requires others <= key.Keys && forall x :: x in others ==> key[m] <= key[x]
    ensures Ascending(key, [m] + rest)
  {
    var r := [m] + rest;
    forall i, j | 0 <= i < j < |r|
      ensures r[i] in key && r[j] in key && key[r[i]] <= key[r[j]]
    {
      assert r[j] == rest[j - 1] && r[j] in others;
      if i > 0 {
        assert r[i] == rest[i - 1];
      }
    }
  }

  // ---------------------------------------------------------------------------
  // getBoardByUserId

  /** The key of `orderBy: { createdAt: "desc" }`: a later board sorts first. */
  function NewestFirst(boards: map<Id, Board>): (key: map<Id, int>)
    ensures key.Keys == boards.Keys
    ensures forall b :: b in boards ==> key[b] == -(boards[b].createdAt as int)
  {
    map b | b in boards :: -(boards[b].createdAt as int)
  }

  function BoardsOf(boards: map<Id, Board>, userId: Id): set<Id>
  {
    set b | b in boards && boards[b].userId == userId
  }

  /** The rows of the boards ids with their ids, in the order of ids. */
  function BoardRows(boards: map<Id, Board>, ids: seq<Id>): (r: seq<(Id, Board)>)
    requires forall i :: 0 <= i < |ids| ==> ids[i] in boards
    ensures |r| == |ids| && forall i :: 0 <= i < |r| ==> r[i].0 == ids[i] && r[i].1 == boards[ids[i]]
  {
    if ids == [] then [] else [(ids[0], boards[ids[0]])] + BoardRows(boards, ids[1..])
  }

  /** getBoardByUserId: the user's boards with their ids, the most recently created first. */
  ghost function GetBoardByUserId(db: Tables, userId: Id): seq<(Id, Board)>
  {
    BoardRows(db.boards, SortAsc(NewestFirst(db.boards), BoardsOf(db.boards, userId)))
  }

  /**
    getBoardByUserId lists the stored rows of the user's boards, as many as the user has and each of them, so each
    exactly once, with creation times that never increase.
  */
  lemma GetBoardByUserIdLists(db: Tables, userId: Id)
    ensures var r := GetBoardByUserId(db, userId);
      && |r| == |BoardsOf(db.boards, userId)|
      && (forall i :: 0 <= i < |r| ==> r[i].0 in db.boards && r[i].1 == db.boards[r[i].0] && r[i].1.userId == userId)
      && (forall b :: b in db.boards && db.boards[b].userId == userId ==> exists i :: 0 <= i < |r| && r[i].0 == b)
      && (forall i, j :: 0 <= i < j < |r| ==> r[i].1.createdAt >= r[j].1.createdAt)
  {
    BoardRowsListed(db.boards, userId, SortAsc(NewestFirst(db.boards), BoardsOf(db.boards, userId)));
  }

  lemma BoardRowsListed(boards: map<Id, Board>, userId: Id, ids: seq<Id>)
    requires Enumerates(ids, BoardsOf(boards, userId)) && Ascending(NewestFirst(boards), ids)
    ensures forall i :: 0 <= i < |ids| ==> ids[i] in boards
    ensures var r := BoardRows(boards, ids);
      && |r| == |BoardsOf(boards, userId)|
      && (forall i :: 0 <= i < |r| ==> r[i].0 in boards && r[i].1 == boards[r[i].0] && r[i].1.userId == userId)
      && (forall b :: b in boards && boards[b].userId == userId ==> exists i :: 0 <= i < |r| && r[i].0 == b)
      && (forall i, j :: 0 <= i < j < |r| ==> r[i].1.createdAt >= r[j].1.createdAt)
  {
    var key := NewestFirst(boards);
    var r := BoardRows(boards, ids);
    forall i | 0 <= i < |r|
      ensures r[i].0 in boards && r[i].1 == boards[r[i].0] && r[i].1.userId == userId
    {
      var b := ids[i];
      assert b in BoardsOf(boards, userId);
      assert r[i].0 == b;
    }
    forall b | b in boards && boards[b].userId == userId
      ensures exists i :: 0 <= i < |r| && r[i].0 == b
    {
      assert b in BoardsOf(boards, userId);
      var i :| 0 <= i < |ids| && ids[i] == b;
      assert r[i].0 == b;
    }
    forall i, j | 0 <= i < j < |r|
      ensures r[i].1.createdAt >= r[j].1.createdAt
    {
      assert key[ids[i]] <= key[ids[j]];
    }
  }

  // ---------------------------------------------------------------------------
  // getBoardById

  datatype SubtaskView = SubtaskView(id: Id, subtask: Subtask)

  datatype TaskView = TaskView(id: Id, task: Task, subtasks: seq<SubtaskView>)

  datatype ColumnView = ColumnView(id: Id, column: Column, tasks: seq<TaskView>)

  datatype BoardView = BoardView(id: Id, board: Board, columns: seq<ColumnView>)

  /** The key of `orderBy: { order: "asc" }` on tasks. */
  function ByOrder(tasks: map<Id, Task>): (key: map<Id, int>)
    ensures key.Keys == tasks.Keys
    ensures forall t :: t in tasks ==> key[t] == tasks[t].order
  {
    map t | t in tasks :: tasks[t].order
  }

  /** The key of `orderBy: { createdAt: "asc" }` on columns. */
  function ColumnsByCreation(columns: map<Id, Column>): (key: map<Id, int>)
    ensures key.Keys == columns.Keys
    ensures forall c :: c in columns ==> key[c] == columns[c].createdAt
  {
    map c | c in columns :: columns[c].createdAt
  }

  /** The key of `orderBy: { createdAt: "asc" }` on subtasks. */
  function SubtasksByCreation(subtasks: map<Id, Subtask>): (key: map<Id, int>)
    ensures key.Keys == subtasks.Keys
    ensures forall s :: s in subtasks ==> key[s] == subtasks[s].createdAt
  {
    map s | s in subtasks :: subtasks[s].createdAt
  }

  function SubtaskIds(r: seq<SubtaskView>): (ids: seq<Id>)
    ensures |ids| == |r| && forall i :: 0 <= i < |r| ==> ids[i] == r[i].id
  {
    if r == [] then [] else [r[0].id] + SubtaskIds(r[1..])
  }

  function TaskIds(r: seq<TaskView>): (ids: seq<Id>)
    ensures |ids| == |r| && forall i :: 0 <= i < |r| ==> ids[i] == r[i].id
  {
    if r == [] then [] else [r[0].id] + TaskIds(r[1..])
  }

  function ColumnIds(r: seq<ColumnView>): (ids: seq<Id>)
    ensures |ids| == |r| && forall i :: 0 <= i < |r| ==> ids[i] == r[i].id
  {
    if r == [] then [] else [r[0].id] + ColumnIds(r[1..])
  }

  /** r lists every subtask of task t once, each with its stored row, oldest first. */
  ghost predicate SubtasksInOrder(r: seq<SubtaskView>, subtasks: map<Id, Subtask>, t: Id)
  {
    && Enumerates(SubtaskIds(r), SubtasksOf(subtasks, t))
    && (forall i :: 0 <= i < |r| ==> r[i].id in subtasks && r[i].subtask == subtasks[r[i].id] && r[i].subtask.taskId == t)
    && (forall i, j :: 0 <= i < j < |r| ==> r[i].subtask.createdAt <= r[j].subtask.createdAt)
  }

  /** r lists every task of column c once, each with its stored row, by ascending order. */
  ghost predicate TasksInOrder(r: seq<TaskView>, tasks: map<Id, Task>, c: Id)
  {
    && Enumerates(TaskIds(r), TasksOf(tasks, {c}))
    && (forall i :: 0 <= i < |r| ==> r[i].id in tasks && r[i].task == tasks[r[i].id] && r[i].task.columnId == c)
    && (forall i, j :: 0 <= i < j < |r| ==> r[i].task.order <= r[j].task.order)
  }

  /** r lists every column of board b once, each with its stored row, oldest first. */
  ghost predicate ColumnsInOrder(r: seq<ColumnView>, columns: map<Id, Column>, b: Id)
  {
    && Enumerates(ColumnIds(r), ColumnsOf(columns, b))
    && (forall i :: 0 <= i < |r| ==> r[i].id in columns && r[i].column == columns[r[i].id] && r[i].column.boardId == b)
    && (forall i, j :: 0 <= i < j < |r| ==> r[i].column.createdAt <= r[j].column.createdAt)
  }

  /** The views of the subtasks ids, in the order of ids. */
  function SubtaskViews(subtasks: map<Id, Subtask>, ids: seq<Id>): (r: seq<SubtaskView>)
    requires forall i :: 0 <= i < |ids| ==> ids[i] in subtasks
    ensures SubtaskIds(r) == ids
    ensures forall i :: 0 <= i < |r| ==> r[i].subtask == subtasks[ids[i]]
  {
    if ids == [] then [] else [SubtaskView(ids[0], subtasks[ids[0]])] + SubtaskViews(subtasks, ids[1..])
  }

  /** A task's subtasks, oldest first. */
  ghost function SubtaskList(subtasks: map<Id, Subtask>, t: Id): seq<SubtaskView>
  {
    SubtaskViews(subtasks, SortAsc(SubtasksByCreation(subtasks), SubtasksOf(subtasks, t)))
  }

  lemma SubtaskListInOrder(subtasks: map<Id, Subtask>, t: Id)
    ensures SubtasksInOrder(SubtaskList(subtasks, t), subtasks, t)
  {
    SubtaskViewsInOrder(subtasks, t, SortAsc(SubtasksByCreation(subtasks), SubtasksOf(subtasks, t)));
  }

  lemma SubtaskViewsInOrder(subtasks: map<Id, Subtask>, t: Id, ids: seq<Id>)
    requires Enumerates(ids, SubtasksOf(subtasks, t)) && Ascending(SubtasksByCreation(subtasks), ids)
    ensures forall i :: 0 <= i < |ids| ==> ids[i] in subtasks
    ensures SubtasksInOrder(SubtaskViews(subtasks, ids), subtasks, t)
  {
    var key := SubtasksByCreation(subtasks);
    var r := SubtaskViews(subtasks, ids);
    forall i | 0 <= i < |r|
      ensures r[i].id in subtasks && r[i].subtask == subtasks[r[i].id] && r[i].subtask.taskId == t
    {
      var s := ids[i];
      assert s in SubtasksOf(subtasks, t);
      assert r[i].id == s;
    }
    assert forall i, j :: 0 <= i < j < |r| ==> key[ids[i]] <= key[ids[j]];
  }

  /** Every task's subtask list, by task id. */
  ghost function SubtaskLists(db: Tables): (m: map<Id, seq<SubtaskView>>)
    ensures m.Keys == db.tasks.Keys
    ensures forall t :: t in db.tasks ==> m[t] == SubtaskList(db.subtasks, t)
  {
    map t | t in db.tasks :: SubtaskList(db.subtasks, t)
  }

  /** The views of the tasks ids, in the order of ids, each with its list from nested. */
  function TaskViews(tasks: map<Id, Task>, nested: map<Id, seq<SubtaskView>>, ids: seq<Id>): (r: seq<TaskView>)
    requires forall i :: 0 <= i < |ids| ==> ids[i] in tasks && ids[i] in nested
    ensures TaskIds(r) == ids
    ensures forall i :: 0 <= i < |r| ==> r[i].task == tasks[ids[i]] && r[i].subtasks == nested[ids[i]]
  {
    if ids == [] then []
    else [TaskView(ids[0], tasks[ids[0]], nested[ids[0]])] + TaskViews(tasks, nested, ids[1..])
  }

  /** A column's tasks by ascending order, each with its subtasks. */
  ghost function TaskList(db: Tables, c: Id): seq<TaskView>
  {
    TaskViews(db.tasks, SubtaskLists(db), SortAsc(ByOrder(db.tasks), TasksOf(db.tasks, {c})))
  }

  lemma TaskListInOrder(db: Tables, c: Id)
    ensures var r := TaskList(db, c);
      && TasksInOrder(r, db.tasks, c)
      && forall i :: 0 <= i < |r| ==> r[i].subtasks == SubtaskList(db.subtasks, r[i].id)
  {
    var nested := SubtaskLists(db);
    var ids := SortAsc(ByOrder(db.tasks), TasksOf(db.tasks, {c}));
    TaskViewsRows(db.tasks, nested, c, ids);
    TaskViewsAscending(db.tasks, nested, ids);
  }

  lemma TaskViewsRows(tasks: map<Id, Task>, nested: map<Id, seq<SubtaskView>>, c: Id, ids: seq<Id>)
    requires Enumerates(ids, TasksOf(tasks, {c})) && nested.Keys == tasks.Keys
    ensures forall i :: 0 <= i < |ids| ==> ids[i] in tasks
    ensures var r := TaskViews(tasks, nested, ids);
      && Enumerates(TaskIds(r), TasksOf(tasks, {c}))
      && (forall i :: 0 <= i < |r| ==> r[i].id in tasks && r[i].task == tasks[r[i].id] && r[i].task.columnId == c)
      && (forall i :: 0 <= i < |r| ==> r[i].subtasks == nested[r[i].id])
  {
    var r := TaskViews(tasks, nested, ids);
    forall i | 0 <= i < |r|
      ensures r[i].id in tasks && r[i].task == tasks[r[i].id] && r[i].task.columnId == c
    {
      var t := ids[i];
      assert t in TasksOf(tasks, {c});
      assert r[i].id == t;
    }
  }

  lemma TaskViewsAscending(tasks: map<Id, Task>, nested: map<Id, seq<SubtaskView>>, ids: seq<Id>)
    requires forall i :: 0 <= i < |ids| ==> ids[i] in tasks && ids[i] in nested
    requires Ascending(ByOrder(tasks), ids)
    ensures var r := TaskViews(tasks, nested, ids);
      forall i, j :: 0 <= i < j < |r| ==> r[i].task.order <= r[j].task.order
  {
    var key := ByOrder(tasks);
    var r := TaskViews(tasks, nested, ids);
    assert forall i, j :: 0 <= i < j < |r| ==> key[ids[i]] <= key[ids[j]];
  }

  /** Every column's task list, by column id. */
  ghost function TaskLists(db: Tables): (m: map<Id, seq<TaskView>>)
    ensures m.Keys == db.columns.Keys
    ensures forall c :: c in db.columns ==> m[c] == TaskList(db, c)
  {
    map c | c in db.columns :: TaskList(db, c)
  }

  /** The views of the columns ids, in the order of ids, each with its list from nested. */
  function ColumnViews(columns: map<Id, Column>, nested: map<Id, seq<TaskView>>, ids: seq<Id>): (r: seq<ColumnView>)
    requires forall i :: 0 <= i < |ids| ==> ids[i] in columns && ids[i] in nested
    ensures ColumnIds(r) == ids
    ensures forall i :: 0 <= i < |r| ==> r[i].column == columns[ids[i]] && r[i].tasks == nested[ids[i]]
  {
    if ids == [] then []
    else [ColumnView(ids[0], columns[ids[0]], nested[ids[0]])] + ColumnViews(columns, nested, ids[1..])
  }

  /** A board's columns, oldest first, each with its tasks. */
  ghost function ColumnList(db: Tables, b: Id): seq<ColumnView>
  {
    ColumnViews(db.columns, TaskLists(db), SortAsc(ColumnsByCreation(db.columns), ColumnsOf(db.columns, b)))
  }

  lemma ColumnListInOrder(db: Tables, b: Id)
    ensures var r := ColumnList(db, b);
      && ColumnsInOrder(r, db.columns, b)
      && forall i :: 0 <= i < |r| ==> r[i].tasks == TaskList(db, r[i].id)
  {
    var nested := TaskLists(db);
    var ids := SortAsc(ColumnsByCreation(db.columns), ColumnsOf(db.columns, b));
    ColumnViewsRows(db.columns, nested, b, ids);
    ColumnViewsAscending(db.columns, nested, ids);
  }

  lemma ColumnViewsRows(columns: map<Id, Column>, nested: map<Id, seq<TaskView>>, b: Id, ids: seq<Id>)
    requires Enumerates(ids, ColumnsOf(columns, b)) && nested.Keys == columns.Keys
    ensures forall i :: 0 <= i < |ids| ==> ids[i] in columns
    ensures var r := ColumnViews(columns, nested, ids);
      && Enumerates(ColumnIds(r), ColumnsOf(columns, b))
      && (forall i :: 0 <= i < |r| ==> r[i].id in columns && r[i].column == columns[r[i].id] && r[i].column.boardId == b)
      && (forall i :: 0 <= i < |r| ==> r[i].tasks == nested[r[i].id])
  {
    var r := ColumnViews(columns, nested, ids);
    forall i | 0 <= i < |r|
      ensures r[i].id in columns && r[i].column == columns[r[i].id] && r[i].column.boardId == b
    {
      var c := ids[i];
      assert c in ColumnsOf(columns, b);
      assert r[i].id == c;
    }
  }

  lemma ColumnViewsAscending(columns: map<Id, Column>, nested: map<Id, seq<TaskView>>, ids: seq<Id>)
    requires forall i :: 0 <= i < |ids| ==> ids[i] in columns && ids[i] in nested
    requires Ascending(ColumnsByCreation(columns), ids)
    ensures var r := ColumnViews(columns, nested, ids);
      forall i, j :: 0 <= i < j < |r| ==> r[i].column.createdAt <= r[j].column.createdAt
  {
    var key := ColumnsByCreation(columns);
    var r := ColumnViews(columns, nested, ids);
    assert forall i, j :: 0 <= i < j < |r| ==> key[ids[i]] <= key[ids[j]];
  }

  /** getBoardById: the board with everything below it, or nothing when no board has the id. */
  ghost function GetBoardById(db: Tables, boardId: Id): (r: Option<BoardView>)
    ensures r.None? <==> boardId !in db.boards
  {
    if boardId !in db.boards then None else Some(BoardView(boardId, db.boards[boardId], ColumnList(db, boardId)))
  }

  /** ts lists column c's tasks by ascending order, and under each task its subtasks, oldest first. */
  ghost predicate TaskTreeInOrder(ts: seq<TaskView>, db: Tables, c: Id)
  {
    && TasksInOrder(ts, db.tasks, c)
    && forall k :: 0 <= k < |ts| ==> SubtasksInOrder(ts[k].subtasks, db.subtasks, ts[k].id)
  }

  lemma TaskListTreeInOrder(db: Tables, c: Id)
    ensures TaskTreeInOrder(TaskList(db, c), db, c)
  {
    var ts := TaskList(db, c);
    TaskListInOrder(db, c);
    forall k | 0 <= k < |ts|
      ensures SubtasksInOrder(ts[k].subtasks, db.subtasks, ts[k].id)
    {
      SubtaskListInOrder(db.subtasks, ts[k].id);
    }
  }

  /**
    What getBoardById returns for a stored board: the board's row; each of its columns once and no other, oldest first;
    in each column its tasks by ascending order; under each task its subtasks, oldest first.
  */
  lemma GetBoardByIdOrdered(db: Tables, boardId: Id)
    requires boardId in db.boards
    ensures var v := GetBoardById(db, boardId).value;
      && v.id == boardId && v.board == db.boards[boardId]
      && ColumnsInOrder(v.columns, db.columns, boardId)
      && forall i :: 0 <= i < |v.columns| ==> TaskTreeInOrder(v.columns[i].tasks, db, v.columns[i].id)
  {
    var cs := ColumnList(db, boardId);
    ColumnListInOrder(db, boardId);
    forall i | 0 <= i < |cs|
      ensures TaskTreeInOrder(cs[i].tasks, db, cs[i].id)
    {
      TaskListTreeInOrder(db, cs[i].id);
    }
  }
}
