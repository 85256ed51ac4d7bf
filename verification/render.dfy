/**
 What `renderTasks` puts on the page, as a value instead of markup: either
 the empty-state panel or one row per task, together with the counters.
 */
module Render {
  import opened Todos
  import Stats
  import Text

  /** One list row: the `data-id` the click handler reads back, whether the
      checkbox is checked (and the row styled as completed), the title as
      stored, and the date shown after "Created at:". */
  datatype Row = Row(id: int, completed: bool, title: string, date: string)

  /** The list area: the "No todos yet!" panel, or the rows in list order. */
  datatype Body = EmptyState | Rows(rows: seq<Row>)

  datatype Screen = Screen(body: Body, counts: Stats.Counts)

  /** `createdAt.split("T")[0]`: the text before the first 'T', or the whole
      string when it has none. For an ISO-8601 timestamp this is the date. */
  function DatePrefix(createdAt: string): (d: string)
    ensures d <= createdAt
    ensures 'T' !in d
    ensures |d| < |createdAt| ==> createdAt[|d|] == 'T'
  {
    Text.FirstPartIsPrefix(createdAt, 'T');
    Text.Split(createdAt, 'T')[0]
  }

  function RowOf(t: Task): Row {
    Row(t.id, t.completed, t.title, DatePrefix(t.createdAt))
  }

  /** The `todos.map(...)` of the row template: one row per task, in order. */
  function RowsOf(todos: seq<Task>): (rows: seq<Row>)
    ensures |rows| == |todos|
    ensures forall i :: 0 <= i < |todos| ==> rows[i] == RowOf(todos[i])
  {
    if todos == [] then [] else [RowOf(todos[0])] + RowsOf(todos[1..])
  }

  /** The screen for `todos`. The counters are always those of the whole list. */
  function Render(todos: seq<Task>): (v: Screen)
    ensures v.body.EmptyState? <==> todos == []
    ensures v.body.Rows? ==> |v.body.rows| == |todos|
    ensures v.body.Rows? ==> forall i :: 0 <= i < |todos| ==>
              && v.body.rows[i].id == todos[i].id
              && v.body.rows[i].completed == todos[i].completed
              && v.body.rows[i].title == todos[i].title
              && v.body.rows[i].date == DatePrefix(todos[i].createdAt)
              && v.body.rows[i].date <= todos[i].createdAt
              && 'T' !in v.body.rows[i].date
    ensures v.counts == Stats.Of(todos)
    ensures v.counts.total == |todos|
    ensures v.counts.active + v.counts.completed == v.counts.total
  {
    var counts := Stats.Of(todos);
    if todos == [] then Screen(EmptyState, counts)
    else Screen(Rows(RowsOf(todos)), counts)
  }

  /** Adding a task puts its row above the rows already shown, with an
      unticked checkbox, and replaces the empty state on an empty list. */
  lemma RenderAfterAdd(todos: seq<Task>, title: string, id: int, createdAt: string)
    ensures Render(AddTask(todos, title, id, createdAt)).body
              == Rows([Row(id, false, title, DatePrefix(createdAt))]
                      + (if todos == [] then [] else Render(todos).body.rows))
  {
    var added := AddTask(todos, title, id, createdAt);
    assert added[1..] == todos;
  }

  /** The shown date does not depend on the time of day: two timestamps of
      the same day give the same date. */
  lemma DatePrefixIgnoresTime(day: string, a: string, b: string)
    requires 'T' !in day
    ensures DatePrefix(day + "T" + a) == day
    ensures DatePrefix(day + "T" + a) == DatePrefix(day + "T" + b)
  {
    var s := day + "T" + a;
    assert s[|day|] == 'T';
    var s' := day + "T" + b;
    assert s'[|day|] == 'T';
  }
}
