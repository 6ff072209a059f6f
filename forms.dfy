/**
  The form schemas of the task-board application: what a create-board,
  create-column or create-task form must contain before the router accepts
  it, and the field-level issue each failure reports.

  Each schema is an object of string fields; `nonempty` on a string or an
  array reports one issue at that field's path when the value is empty.
  Issues are listed in the order the schema declares its fields, array
  elements in index order.
*/
module Forms {

  /** The path at which a validation issue is reported. */
  datatype Field =
    | Title
    | Columns
    | ColumnId
    | ItemTitle(list: ItemList, index: nat)

  /** The two arrays of `{title}` objects the forms contain. */
  datatype ItemList = ColumnList | SubtaskList

  datatype Issue = Issue(path: Field, message: string)

  const TitleRequired: string := "A title is required."
  const ColumnNameRequired: string := "A column name is required."
  const ColumnsRequired: string := "At least one column is required."
  const ColumnRequired: string := "A column is required."
  const SubtaskNameRequired: string := "A subtask name is required."

  /** An element of the `columns` array of a board form or the `subtasks` array of a task form. */
  datatype NamedItem = NamedItem(title: string)

  datatype BoardForm = BoardForm(title: string, columns: seq<NamedItem>)

  datatype ColumnForm = ColumnForm(title: string)

  datatype TaskForm = TaskForm(title: string, description: string, columnId: string, subtasks: seq<NamedItem>)

  function ItemMessage(list: ItemList): string
  {
    match list
    case ColumnList => ColumnNameRequired
    case SubtaskList => SubtaskNameRequired
  }

  /** A non-empty string check at one field. */
  function Required(value: string, at: Field, message: string): seq<Issue>
  {
    if value == "" then [Issue(at, message)] else []
  }

  /**
    The issues of the element titles of one `{title}` array: one per empty title, at that element's index, and no
    other. ItemIssuesInIndexOrder adds that they come in index order, so no element is reported twice.
  */
  function ItemIssues(items: seq<NamedItem>, list: ItemList): (issues: seq<Issue>)
    ensures forall x :: x in issues ==>
              && x.path.ItemTitle? && x.path.list == list && x.message == ItemMessage(list)
              && x.path.index < |items| && items[x.path.index].title == ""
    ensures forall i :: 0 <= i < |items| && items[i].title == "" ==> Issue(ItemTitle(list, i), ItemMessage(list)) in issues
    ensures issues == [] <==> forall i :: 0 <= i < |items| ==> items[i].title != ""
    decreases |items|
  {
    if |items| == 0 then []
    else
      var n := |items| - 1;
      assert forall i :: 0 <= i < n ==> items[..n][i] == items[i];
      ItemIssues(items[..n], list) + Required(items[n].title, ItemTitle(list, n), ItemMessage(list))
  }

  /** Every issue is at an array element, and the element indices strictly increase along the list. */
  ghost predicate InIndexOrder(issues: seq<Issue>)
  {
    forall a, b :: 0 <= a < b < |issues| ==>
      issues[a].path.ItemTitle? && issues[b].path.ItemTitle? && issues[a].path.index < issues[b].path.index
  }

  /** Issues at element n, at most one, appended to ordered issues at elements before n keep the list ordered. */
  lemma AppendInIndexOrder(earlier: seq<Issue>, last: seq<Issue>, n: nat)
    requires InIndexOrder(earlier) && |last| <= 1
    requires forall x :: x in earlier ==> x.path.ItemTitle? && x.path.index < n
    requires forall x :: x in last ==> x.path.ItemTitle? && x.path.index == n
    ensures InIndexOrder(earlier + last)
  {
  }

  /** The issues of an array come in strictly increasing element index: in array order, and each element at most once. */
  lemma {:induction false} ItemIssuesInIndexOrder(items: seq<NamedItem>, list: ItemList)
    ensures InIndexOrder(ItemIssues(items, list))
    decreases |items|
  {
    if |items| > 0 {
      var n := |items| - 1;
      ItemIssuesInIndexOrder(items[..n], list);
      assert |items[..n]| == n;
      AppendInIndexOrder(ItemIssues(items[..n], list), Required(items[n].title, ItemTitle(list, n), ItemMessage(list)), n);
    }
  }

  /** `createBoardFormSchema`: the title, then the columns array (non-empty, each title non-empty). */
  function BoardIssues(f: BoardForm): seq<Issue>
  {
    Required(f.title, Title, TitleRequired)
    + (if |f.columns| == 0 then [Issue(Columns, ColumnsRequired)] else ItemIssues(f.columns, ColumnList))
  }

  /** `createColumnFormSchema`: the title only. */
  function ColumnIssues(f: ColumnForm): seq<Issue>
  {
    Required(f.title, Title, TitleRequired)
  }

  /** `createTaskFormSchema`: the title, the description (never rejected), the column id, the subtask titles. */
  function TaskIssues(f: TaskForm): seq<Issue>
  {
    Required(f.title, Title, TitleRequired)
    + Required(f.columnId, ColumnId, ColumnRequired)
    + ItemIssues(f.subtasks, SubtaskList)
  }

  predicate BoardFormValid(f: BoardForm) { BoardIssues(f) == [] }

  predicate ColumnFormValid(f: ColumnForm) { ColumnIssues(f) == [] }

  predicate TaskFormValid(f: TaskForm) { TaskIssues(f) == [] }

  lemma BoardFormValidIff(f: BoardForm)
    ensures BoardFormValid(f) <==>
              && f.title != ""
              && |f.columns| > 0
              && forall i :: 0 <= i < |f.columns| ==> f.columns[i].title != ""
  {
  }

  /** Every failure of a board form is reported with its own message, and nothing else is reported. */
  lemma BoardIssuesReportEachFailure(f: BoardForm)
    ensures Issue(Title, TitleRequired) in BoardIssues(f) <==> f.title == ""
    ensures Issue(Columns, ColumnsRequired) in BoardIssues(f) <==> |f.columns| == 0
    ensures forall i :: 0 <= i < |f.columns| ==>
              (Issue(ItemTitle(ColumnList, i), ColumnNameRequired) in BoardIssues(f) <==> f.columns[i].title == "")
    ensures forall x :: x in BoardIssues(f) ==>
              || (x == Issue(Title, TitleRequired) && f.title == "")
              || (x == Issue(Columns, ColumnsRequired) && |f.columns| == 0)
              || (&& x.path.ItemTitle? && x.path.list == ColumnList && x.message == ColumnNameRequired
                  && x.path.index < |f.columns| && f.columns[x.path.index].title == "")
  {
  }

  lemma ColumnFormValidIff(f: ColumnForm)
    ensures ColumnFormValid(f) <==> f.title != ""
    ensures ColumnIssues(f) == [] || ColumnIssues(f) == [Issue(Title, TitleRequired)]
  {
  }

  lemma TaskFormValidIff(f: TaskForm)
    ensures TaskFormValid(f) <==>
              && f.title != ""
              && f.columnId != ""
              && forall i :: 0 <= i < |f.subtasks| ==> f.subtasks[i].title != ""
  {
  }

  /** Every failure of a task form is reported with its own message, and nothing else is reported. */
  lemma TaskIssuesReportEachFailure(f: TaskForm)
    ensures Issue(Title, TitleRequired) in TaskIssues(f) <==> f.title == ""
    ensures Issue(ColumnId, ColumnRequired) in TaskIssues(f) <==> f.columnId == ""
    ensures forall i :: 0 <= i < |f.subtasks| ==>
              (Issue(ItemTitle(SubtaskList, i), SubtaskNameRequired) in TaskIssues(f) <==> f.subtasks[i].title == "")
    ensures forall x :: x in TaskIssues(f) ==>
              || (x == Issue(Title, TitleRequired) && f.title == "")
              || (x == Issue(ColumnId, ColumnRequired) && f.columnId == "")
              || (&& x.path.ItemTitle? && x.path.list == SubtaskList && x.message == SubtaskNameRequired
                  && x.path.index < |f.subtasks| && f.subtasks[x.path.index].title == "")
  {
  }

  /** The description is never checked, and an empty subtask list is accepted. */
  lemma TaskFormOptionalFields(f: TaskForm, description: string)
    ensures TaskIssues(f.(description := description)) == TaskIssues(f)
    ensures f.title != "" && f.columnId != "" ==> TaskFormValid(f.(description := description, subtasks := []))
  {
  }
}
