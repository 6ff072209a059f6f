/**
  The row-by-row writes the router performs for one input array:
  - creating one column per board-form column (createBoard) and one subtask
    per task-form subtask (createTask);
  - upserting the submitted columns of a board (updateBoard) and the
    submitted subtasks of a task (updateTask): an entry whose id names an
    existing child of that parent updates it, any other entry creates a new
    child;
  - assigning `(id, order)` pairs in bulk (reorderTasks).

  Each is a left fold over the first n entries of the input array, one entry
  at a time; the procedure applies it to the whole array. Which entries update
  an existing child is decided against the set `kept` of the parent's children
  as they were before the first upsert: a freshly issued id is never known to
  the client, so no later entry of the same request can name a child that an
  earlier entry created.
*/
module Upserts {
  import opened Records
  import Forms

  /** k is the very id issued at one of the ticks from, ..., to - 1 (not merely an id of the same length). */
  ghost predicate MintedBetween(k: Id, from: nat, to: nat)
  {
    from < Tick(k) <= to && k == MintId(Tick(k) - 1)
  }

  // ---------------------------------------------------------------------------
  // createBoard: one new column per form column

  /** The columns after creating items[i], for each i < n, at tick first + i with colour colors[i]. */
  function AppendColumns(cols: map<Id, Column>, boardId: Id, items: seq<Forms.NamedItem>, colors: seq<string>, first: nat, n: nat): map<Id, Column>
    requires |colors| == |items| && n <= |items|
  {
    if n == 0 then cols
    else
      var at := first + n - 1;
      AppendColumns(cols, boardId, items, colors, first, n - 1)[MintId(at) := Column(boardId, items[n - 1].title, colors[n - 1], at)]
  }

  /** The columns that existed are untouched, and every other column belongs to the board and has a freshly issued id. */
  lemma {:induction false} AppendColumnsKeys(cols: map<Id, Column>, boardId: Id, items: seq<Forms.NamedItem>, colors: seq<string>, first: nat, n: nat)
    requires |colors| == |items| && n <= |items| && IssuedBefore(cols, first)
    ensures var r := AppendColumns(cols, boardId, items, colors, first, n);
      && (forall c :: c in cols ==> c in r && r[c] == cols[c])
      && (forall c :: c in r && c !in cols ==> MintedBetween(c, first, first + n) && r[c].boardId == boardId)
  {
    if n > 0 {
      AppendColumnsKeys(cols, boardId, items, colors, first, n - 1);
    }
  }

  /** Entry i becomes the column issued at tick first + i, with that entry's title and colour. */
  lemma {:induction false} AppendColumnsAt(cols: map<Id, Column>, boardId: Id, items: seq<Forms.NamedItem>, colors: seq<string>, first: nat, n: nat, i: nat)
    requires |colors| == |items| && i < n <= |items|
    ensures var r := AppendColumns(cols, boardId, items, colors, first, n);
      MintId(first + i) in r && r[MintId(first + i)] == Column(boardId, items[i].title, colors[i], first + i)
  {
    if i < n - 1 {
      AppendColumnsAt(cols, boardId, items, colors, first, n - 1, i);
      assert Tick(MintId(first + i)) != Tick(MintId(first + n - 1));
    }
  }

  /** One new column per input entry, in order, with that entry's title and colour; the other columns are untouched. */
  lemma AppendColumnsEffect(cols: map<Id, Column>, boardId: Id, items: seq<Forms.NamedItem>, colors: seq<string>, first: nat)
    requires |colors| == |items| && IssuedBefore(cols, first)
    ensures var r := AppendColumns(cols, boardId, items, colors, first, |items|);
      && (forall c :: c in cols ==> c in r && r[c] == cols[c])
      && (forall c :: c in r && c !in cols ==> MintedBetween(c, first, first + |items|) && r[c].boardId == boardId)
      && (forall t: nat :: first <= t < first + |items| ==>
            MintId(t) in r && r[MintId(t)] == Column(boardId, items[t - first].title, colors[t - first], t))
  {
    AppendColumnsKeys(cols, boardId, items, colors, first, |items|);
    forall t: nat | first <= t < first + |items|
      ensures var r := AppendColumns(cols, boardId, items, colors, first, |items|);
        MintId(t) in r && r[MintId(t)] == Column(boardId, items[t - first].title, colors[t - first], t)
    {
      AppendColumnsAt(cols, boardId, items, colors, first, |items|, t - first);
    }
  }

  // ---------------------------------------------------------------------------
  // createTask: one new subtask per form subtask

  /** The subtasks after creating items[i], for each i < n, at tick first + i with order i, not done. */
  function AppendSubtasks(subs: map<Id, Subtask>, taskId: Id, items: seq<Forms.NamedItem>, first: nat, n: nat): map<Id, Subtask>
    requires n <= |items|
  {
    if n == 0 then subs
    else
      var at := first + n - 1;
      AppendSubtasks(subs, taskId, items, first, n - 1)[MintId(at) := Subtask(taskId, items[n - 1].title, false, n - 1, at)]
  }

  /** The subtasks that existed are untouched, and every other subtask belongs to the task and has a freshly issued id. */
  lemma {:induction false} AppendSubtasksKeys(subs: map<Id, Subtask>, taskId: Id, items: seq<Forms.NamedItem>, first: nat, n: nat)
    requires n <= |items| && IssuedBefore(subs, first)
    ensures var r := AppendSubtasks(subs, taskId, items, first, n);
      && (forall s :: s in subs ==> s in r && r[s] == subs[s])
      && (forall s :: s in r && s !in subs ==> MintedBetween(s, first, first + n) && r[s].taskId == taskId)
  {
    if n > 0 {
      AppendSubtasksKeys(subs, taskId, items, first, n - 1);
    }
  }

  /** Entry i becomes the subtask issued at tick first + i, with order i, not done. */
  lemma {:induction false} AppendSubtasksAt(subs: map<Id, Subtask>, taskId: Id, items: seq<Forms.NamedItem>, first: nat, n: nat, i: nat)
    requires i < n <= |items|
    ensures var r := AppendSubtasks(subs, taskId, items, first, n);
      MintId(first + i) in r && r[MintId(first + i)] == Subtask(taskId, items[i].title, false, i, first + i)
  {
    if i < n - 1 {
      AppendSubtasksAt(subs, taskId, items, first, n - 1, i);
      assert Tick(MintId(first + i)) != Tick(MintId(first + n - 1));
    }
  }

  /** One new subtask per input entry, its order the entry's index, not done; the other subtasks are untouched. */
  lemma AppendSubtasksEffect(subs: map<Id, Subtask>, taskId: Id, items: seq<Forms.NamedItem>, first: nat)
    requires IssuedBefore(subs, first)
    ensures var r := AppendSubtasks(subs, taskId, items, first, |items|);
      && (forall s :: s in subs ==> s in r && r[s] == subs[s])
      && (forall s :: s in r && s !in subs ==> MintedBetween(s, first, first + |items|) && r[s].taskId == taskId)
      && (forall t: nat :: first <= t < first + |items| ==>
            MintId(t) in r && r[MintId(t)] == Subtask(taskId, items[t - first].title, false, t - first, t))
  {
    AppendSubtasksKeys(subs, taskId, items, first, |items|);
    forall t: nat | first <= t < first + |items|
      ensures var r := AppendSubtasks(subs, taskId, items, first, |items|);
        MintId(t) in r && r[MintId(t)] == Subtask(taskId, items[t - first].title, false, t - first, t)
    {
      AppendSubtasksAt(subs, taskId, items, first, |items|, t - first);
    }
  }

  // ---------------------------------------------------------------------------
  // updateBoard: upsert the submitted columns of a board

  /** The number of entries among the first n that create a column. */
  function NewColumnCount(edits: seq<ColumnEdit>, kept: set<Id>, n: nat): nat
    requires n <= |edits|
  {
    if n == 0 then 0 else NewColumnCount(edits, kept, n - 1) + (if edits[n - 1].id in kept then 0 else 1)
  }

  lemma {:induction false} NewColumnCountMonotone(edits: seq<ColumnEdit>, kept: set<Id>, i: nat, j: nat)
    requires i <= j <= |edits|
    ensures NewColumnCount(edits, kept, i) <= NewColumnCount(edits, kept, j)
    decreases j
  {
    if i < j {
      NewColumnCountMonotone(edits, kept, i, j - 1);
    }
  }

  /** One upsert: retitle the board's column e.id, or create a column with e's title and the given colour. */
  function UpsertColumn(acc: (map<Id, Column>, nat), boardId: Id, kept: set<Id>, e: ColumnEdit, color: string): (map<Id, Column>, nat)
  {
    var (m, t) := acc;
    if e.id in kept && e.id in m then (m[e.id := m[e.id].(title := e.title)], t)
    else (m[MintId(t) := Column(boardId, e.title, color, t)], t + 1)
  }

  /** The columns and the clock after upserting the first n entries in order; entry k, if it creates, gets colour colors[k]. */
  function UpsertColumns(cols: map<Id, Column>, clock: nat, boardId: Id, kept: set<Id>, edits: seq<ColumnEdit>, colors: seq<string>, n: nat): (map<Id, Column>, nat)
    requires |colors| == |edits| && n <= |edits|
  {
    if n == 0 then (cols, clock)
    else UpsertColumn(UpsertColumns(cols, clock, boardId, kept, edits, colors, n - 1), boardId, kept, edits[n - 1], colors[n - 1])
  }

  /** The clock advances by one per created column. */
  lemma {:induction false} UpsertColumnsClock(cols: map<Id, Column>, clock: nat, boardId: Id, kept: set<Id>, edits: seq<ColumnEdit>, colors: seq<string>, n: nat)
    requires |colors| == |edits| && n <= |edits| && IssuedBefore(cols, clock) && kept <= cols.Keys
    ensures UpsertColumns(cols, clock, boardId, kept, edits, colors, n).1 == clock + NewColumnCount(edits, kept, n)
  {
    if n > 0 {
      UpsertColumnsClock(cols, clock, boardId, kept, edits, colors, n - 1);
      UpsertColumnsKeys(cols, clock, boardId, kept, edits, colors, n - 1);
    }
  }

  /**
    Upserting never deletes a column and only retitles: every existing column keeps its board, colour and creation
    time, and every other column belongs to the board and has one of the ids the upsert issues.
  */
  lemma {:induction false} UpsertColumnsKeys(cols: map<Id, Column>, clock: nat, boardId: Id, kept: set<Id>, edits: seq<ColumnEdit>, colors: seq<string>, n: nat)
    requires |colors| == |edits| && n <= |edits| && IssuedBefore(cols, clock)
    ensures var (r, t) := UpsertColumns(cols, clock, boardId, kept, edits, colors, n);
      && clock <= t
      && (forall c :: c in cols ==> c in r && r[c].(title := cols[c].title) == cols[c])
      && (forall c :: c in r && c !in cols ==> MintedBetween(c, clock, t) && r[c].boardId == boardId)
  {
    if n > 0 {
      UpsertColumnsKeys(cols, clock, boardId, kept, edits, colors, n - 1);
      var t := UpsertColumns(cols, clock, boardId, kept, edits, colors, n - 1).1;
      assert Tick(MintId(t)) == t + 1;
    }
  }

  /** A column that is not kept, or that none of the first n entries names, is untouched. */
  lemma {:induction false} UpsertColumnsUntouched(cols: map<Id, Column>, clock: nat, boardId: Id, kept: set<Id>, edits: seq<ColumnEdit>, colors: seq<string>, n: nat, c: Id)
    requires |colors| == |edits| && n <= |edits| && IssuedBefore(cols, clock)
    requires c in cols && (c !in kept || forall j :: 0 <= j < n ==> edits[j].id != c)
    ensures var r := UpsertColumns(cols, clock, boardId, kept, edits, colors, n).0;
      c in r && r[c] == cols[c]
  {
    if n > 0 {
      UpsertColumnsUntouched(cols, clock, boardId, kept, edits, colors, n - 1, c);
      UpsertColumnsKeys(cols, clock, boardId, kept, edits, colors, n - 1);
      var t := UpsertColumns(cols, clock, boardId, kept, edits, colors, n - 1).1;
      assert Tick(MintId(t)) == t + 1;
    }
  }

  /** A kept column takes the title of entry k when no later entry among the first n names it. */
  lemma {:induction false} UpsertColumnsRetitle(cols: map<Id, Column>, clock: nat, boardId: Id, kept: set<Id>, edits: seq<ColumnEdit>, colors: seq<string>, n: nat, k: nat)
    requires |colors| == |edits| && n <= |edits| && IssuedBefore(cols, clock) && kept <= cols.Keys
    requires k < n && edits[k].id in kept
    requires forall j :: k < j < n ==> edits[j].id != edits[k].id
    ensures var r := UpsertColumns(cols, clock, boardId, kept, edits, colors, n).0;
      edits[k].id in r && r[edits[k].id] == cols[edits[k].id].(title := edits[k].title)
  {
    UpsertColumnsKeys(cols, clock, boardId, kept, edits, colors, n - 1);
    var t := UpsertColumns(cols, clock, boardId, kept, edits, colors, n - 1).1;
    if k < n - 1 {
      UpsertColumnsRetitle(cols, clock, boardId, kept, edits, colors, n - 1, k);
      assert Tick(MintId(t)) == t + 1;
    }
  }

  /** An entry k naming no kept column creates a column with its title and colour, with a fresh id issued at the tick after the creations before it. */
  lemma {:induction false} UpsertColumnsCreates(cols: map<Id, Column>, clock: nat, boardId: Id, kept: set<Id>, edits: seq<ColumnEdit>, colors: seq<string>, n: nat, k: nat)
    requires |colors| == |edits| && n <= |edits| && IssuedBefore(cols, clock) && kept <= cols.Keys
    requires k < n && edits[k].id !in kept
    ensures var at := clock + NewColumnCount(edits, kept, k);
      var r := UpsertColumns(cols, clock, boardId, kept, edits, colors, n).0;
      MintId(at) !in cols && MintId(at) in r && r[MintId(at)] == Column(boardId, edits[k].title, colors[k], at)
  {
    var at := clock + NewColumnCount(edits, kept, k);
    MintedIsFresh(cols, clock, at);
    UpsertColumnsClock(cols, clock, boardId, kept, edits, colors, n - 1);
    if k < n - 1 {
      UpsertColumnsCreates(cols, clock, boardId, kept, edits, colors, n - 1, k);
      NewColumnCountMonotone(edits, kept, k + 1, n - 1);
      assert NewColumnCount(edits, kept, k + 1) == NewColumnCount(edits, kept, k) + 1;
      MintIdInjective(at, clock + NewColumnCount(edits, kept, n - 1));
    }
  }

  // ---------------------------------------------------------------------------
  // updateTask: upsert the submitted subtasks of a task

  /** The number of entries among the first n that create a subtask. */
  function NewSubtaskCount(edits: seq<SubtaskEdit>, kept: set<Id>, n: nat): nat
    requires n <= |edits|
  {
    if n == 0 then 0 else NewSubtaskCount(edits, kept, n - 1) + (if edits[n - 1].id in kept then 0 else 1)
  }

  lemma {:induction false} NewSubtaskCountMonotone(edits: seq<SubtaskEdit>, kept: set<Id>, i: nat, j: nat)
    requires i <= j <= |edits|
    ensures NewSubtaskCount(edits, kept, i) <= NewSubtaskCount(edits, kept, j)
    decreases j
  {
    if i < j {
      NewSubtaskCountMonotone(edits, kept, i, j - 1);
    }
  }

  /** One upsert of the entry at position index: update the task's subtask e.id, or create one, not done. */
  function UpsertSubtask(acc: (map<Id, Subtask>, nat), taskId: Id, kept: set<Id>, e: SubtaskEdit, index: nat): (map<Id, Subtask>, nat)
  {
    var (m, t) := acc;
    if e.id in kept && e.id in m then (m[e.id := m[e.id].(title := e.title, done := e.done, order := index)], t)
    else (m[MintId(t) := Subtask(taskId, e.title, false, index, t)], t + 1)
  }

  /** The subtasks and the clock after upserting the first n entries in order, entry i with order i. */
  function UpsertSubtasks(subs: map<Id, Subtask>, clock: nat, taskId: Id, kept: set<Id>, edits: seq<SubtaskEdit>, n: nat): (map<Id, Subtask>, nat)
    requires n <= |edits|
  {
    if n == 0 then (subs, clock)
    else UpsertSubtask(UpsertSubtasks(subs, clock, taskId, kept, edits, n - 1), taskId, kept, edits[n - 1], n - 1)
  }

  /** The clock advances by one per created subtask. */
  lemma {:induction false} UpsertSubtasksClock(subs: map<Id, Subtask>, clock: nat, taskId: Id, kept: set<Id>, edits: seq<SubtaskEdit>, n: nat)
    requires n <= |edits| && IssuedBefore(subs, clock) && kept <= subs.Keys
    ensures UpsertSubtasks(subs, clock, taskId, kept, edits, n).1 == clock + NewSubtaskCount(edits, kept, n)
  {
    if n > 0 {
      UpsertSubtasksClock(subs, clock, taskId, kept, edits, n - 1);
      UpsertSubtasksKeys(subs, clock, taskId, kept, edits, n - 1);
    }
  }

  /**
    Upserting subtasks never deletes one: every existing subtask survives with its task and creation time, and every
    other subtask belongs to the task and has one of the ids the upsert issues.
  */
  lemma {:induction false} UpsertSubtasksKeys(subs: map<Id, Subtask>, clock: nat, taskId: Id, kept: set<Id>, edits: seq<SubtaskEdit>, n: nat)
    requires n <= |edits| && IssuedBefore(subs, clock)
    ensures var (r, t) := UpsertSubtasks(subs, clock, taskId, kept, edits, n);
      && clock <= t
      && (forall s :: s in subs ==>
            s in r && r[s].(title := subs[s].title, done := subs[s].done, order := subs[s].order) == subs[s])
      && (forall s :: s in r && s !in subs ==> MintedBetween(s, clock, t) && r[s].taskId == taskId)
  {
    if n > 0 {
      UpsertSubtasksKeys(subs, clock, taskId, kept, edits, n - 1);
      var t := UpsertSubtasks(subs, clock, taskId, kept, edits, n - 1).1;
      assert Tick(MintId(t)) == t + 1;
    }
  }

  /** A subtask that is not kept, or that none of the first n entries names, is untouched. */
  lemma {:induction false} UpsertSubtasksUntouched(subs: map<Id, Subtask>, clock: nat, taskId: Id, kept: set<Id>, edits: seq<SubtaskEdit>, n: nat, s: Id)
    requires n <= |edits| && IssuedBefore(subs, clock)
    requires s in subs && (s !in kept || forall j :: 0 <= j < n ==> edits[j].id != s)
    ensures var r := UpsertSubtasks(subs, clock, taskId, kept, edits, n).0;
      s in r && r[s] == subs[s]
  {
    if n > 0 {
      UpsertSubtasksUntouched(subs, clock, taskId, kept, edits, n - 1, s);
      UpsertSubtasksKeys(subs, clock, taskId, kept, edits, n - 1);
      var t := UpsertSubtasks(subs, clock, taskId, kept, edits, n - 1).1;
      assert Tick(MintId(t)) == t + 1;
    }
  }

  /** A kept subtask named by entry k, and by no later entry among the first n, takes its title and done flag, and order k. */
  lemma {:induction false} UpsertSubtasksUpdates(subs: map<Id, Subtask>, clock: nat, taskId: Id, kept: set<Id>, edits: seq<SubtaskEdit>, n: nat, k: nat)
    requires n <= |edits| && IssuedBefore(subs, clock) && kept <= subs.Keys
    requires k < n && edits[k].id in kept
    requires forall j :: k < j < n ==> edits[j].id != edits[k].id
    ensures var r := UpsertSubtasks(subs, clock, taskId, kept, edits, n).0;
      && edits[k].id in r
      && r[edits[k].id] == subs[edits[k].id].(title := edits[k].title, done := edits[k].done, order := k)
  {
    UpsertSubtasksKeys(subs, clock, taskId, kept, edits, n - 1);
    var t := UpsertSubtasks(subs, clock, taskId, kept, edits, n - 1).1;
    if k < n - 1 {
      UpsertSubtasksUpdates(subs, clock, taskId, kept, edits, n - 1, k);
      assert Tick(MintId(t)) == t + 1;
    }
  }

  /** An entry k naming no kept subtask creates one with a fresh id, its title, order k and done false. */
  lemma {:induction false} UpsertSubtasksCreates(subs: map<Id, Subtask>, clock: nat, taskId: Id, kept: set<Id>, edits: seq<SubtaskEdit>, n: nat, k: nat)
    requires n <= |edits| && IssuedBefore(subs, clock) && kept <= subs.Keys
    requires k < n && edits[k].id !in kept
    ensures var at := clock + NewSubtaskCount(edits, kept, k);
      var r := UpsertSubtasks(subs, clock, taskId, kept, edits, n).0;
      MintId(at) !in subs && MintId(at) in r && r[MintId(at)] == Subtask(taskId, edits[k].title, false, k, at)
  {
    var at := clock + NewSubtaskCount(edits, kept, k);
    MintedIsFresh(subs, clock, at);
    UpsertSubtasksClock(subs, clock, taskId, kept, edits, n - 1);
    if k < n - 1 {
      UpsertSubtasksCreates(subs, clock, taskId, kept, edits, n - 1, k);
      NewSubtaskCountMonotone(edits, kept, k + 1, n - 1);
      assert NewSubtaskCount(edits, kept, k + 1) == NewSubtaskCount(edits, kept, k) + 1;
      MintIdInjective(at, clock + NewSubtaskCount(edits, kept, n - 1));
    }
  }

  // ---------------------------------------------------------------------------
  // reorderTasks: bulk (id, order) assignment

  /** The tasks after assigning, for each of the first n entries, its order and the column columnId to its task. */
  function Reorder(tasks: map<Id, Task>, columnId: Id, entries: seq<OrderEntry>, n: nat): (r: map<Id, Task>)
    requires n <= |entries|
    ensures r.Keys == tasks.Keys
  {
    if n == 0 then tasks
    else
      var acc := Reorder(tasks, columnId, entries, n - 1);
      var e := entries[n - 1];
      if e.id in acc then acc[e.id := acc[e.id].(order := e.order, columnId := columnId)] else acc
  }

  /** Reordering changes only the order and the column of a task, and the column only to columnId. */
  lemma {:induction false} ReorderChangesOnlyOrderAndColumn(tasks: map<Id, Task>, columnId: Id, entries: seq<OrderEntry>, n: nat)
    requires n <= |entries|
    ensures var r := Reorder(tasks, columnId, entries, n);
      && (forall t :: t in tasks ==> r[t].(order := tasks[t].order, columnId := tasks[t].columnId) == tasks[t])
      && (forall t :: t in tasks ==> r[t].columnId == tasks[t].columnId || r[t].columnId == columnId)
  {
    if n > 0 {
      ReorderChangesOnlyOrderAndColumn(tasks, columnId, entries, n - 1);
    }
  }

  /** Among the first n entries, entry k is the last one naming its task. */
  ghost predicate LastMention(entries: seq<OrderEntry>, n: nat, k: nat)
  {
    k < n <= |entries| && forall j :: k < j < n ==> entries[j].id != entries[k].id
  }

  /** A listed task takes the order of the last entry naming it, and the target column; its other fields stay. */
  lemma {:induction false} ReorderSetsListed(tasks: map<Id, Task>, columnId: Id, entries: seq<OrderEntry>, n: nat, k: nat)
    requires LastMention(entries, n, k) && entries[k].id in tasks
    ensures Reorder(tasks, columnId, entries, n)[entries[k].id]
         == tasks[entries[k].id].(order := entries[k].order, columnId := columnId)
  {
    if k < n - 1 {
      ReorderSetsListed(tasks, columnId, entries, n - 1, k);
    } else {
      ReorderChangesOnlyOrderAndColumn(tasks, columnId, entries, n - 1);
    }
  }

  /** A task that none of the first n entries names is untouched. */
  lemma {:induction false} ReorderKeepsUnlisted(tasks: map<Id, Task>, columnId: Id, entries: seq<OrderEntry>, n: nat, t: Id)
    requires n <= |entries| && t in tasks && forall j :: 0 <= j < n ==> entries[j].id != t
    ensures Reorder(tasks, columnId, entries, n)[t] == tasks[t]
  {
    if n > 0 {
      ReorderKeepsUnlisted(tasks, columnId, entries, n - 1, t);
    }
  }

  /** The position of the last entry among the first n naming t. */
  lemma {:induction false} LastIndex(entries: seq<OrderEntry>, n: nat, t: Id) returns (k: nat)
    requires n <= |entries| && exists j :: 0 <= j < n && entries[j].id == t
    ensures LastMention(entries, n, k) && entries[k].id == t
  {
    if entries[n - 1].id == t {
      k := n - 1;
    } else {
      k := LastIndex(entries, n - 1, t);
    }
  }

  /** Applying the same list twice gives what applying it once gives. */
  lemma ReorderIdempotent(tasks: map<Id, Task>, columnId: Id, entries: seq<OrderEntry>)
    ensures var n := |entries|;
      Reorder(Reorder(tasks, columnId, entries, n), columnId, entries, n) == Reorder(tasks, columnId, entries, n)
  {
    var n := |entries|;
    var once := Reorder(tasks, columnId, entries, n);
    var twice := Reorder(once, columnId, entries, n);
    forall t | t in tasks
      ensures twice[t] == once[t]
    {
      if exists j :: 0 <= j < n && entries[j].id == t {
        var k := LastIndex(entries, n, t);
        ReorderSetsListed(tasks, columnId, entries, n, k);
        ReorderSetsListed(once, columnId, entries, n, k);
      } else {
        ReorderKeepsUnlisted(tasks, columnId, entries, n, t);
        ReorderKeepsUnlisted(once, columnId, entries, n, t);
      }
    }
  }
}
