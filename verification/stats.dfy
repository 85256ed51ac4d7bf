/**
 The three counters shown under the list: how many tasks there are, how many
 are still open and how many are done. They are always computed from the
 whole list.
 */
module Stats {
  import opened Todos

  datatype Counts = Counts(total: nat, active: nat, completed: nat)

  /** The tasks whose completion flag equals `done`, in list order: the
      `filter` calls that feed the active and completed counters. */
  function Where(todos: seq<Task>, done: bool): (r: seq<Task>)
    ensures forall t :: t in r <==> t in todos && t.completed == done
    ensures |r| <= |todos|
  {
    if todos == [] then []
    else if todos[0].completed == done then [todos[0]] + Where(todos[1..], done)
    else Where(todos[1..], done)
  }

  /** Every task is either open or done, never both. */
  lemma {:induction false} WherePartitions(todos: seq<Task>)
    ensures |Where(todos, false)| + |Where(todos, true)| == |todos|
  {
    if todos != [] {
      WherePartitions(todos[1..]);
    }
  }

  /** The counters the page displays for `todos`. */
  function Of(todos: seq<Task>): (c: Counts)
    ensures c.total == |todos|
    ensures c.active + c.completed == c.total
    ensures c.active == 0 <==> forall i :: 0 <= i < |todos| ==> todos[i].completed
    ensures c.completed == 0 <==> forall i :: 0 <= i < |todos| ==> !todos[i].completed
  {
    WherePartitions(todos);
    var c := Counts(|todos|, |Where(todos, false)|, |Where(todos, true)|);
    assert c.active == 0 <==> forall i :: 0 <= i < |todos| ==> todos[i].completed by {
      if c.active != 0 {
        assert Where(todos, false)[0] in Where(todos, false);
      }
    }
    assert c.completed == 0 <==> forall i :: 0 <= i < |todos| ==> !todos[i].completed by {
      if c.completed != 0 {
        assert Where(todos, true)[0] in Where(todos, true);
      }
    }
    c
  }

  /** The counters are built one task at a time: a task in front of a list
      adds one to the total and one to the counter of its own state. */
  lemma OfCons(t: Task, todos: seq<Task>)
    ensures Of([t] + todos) == Counts(|todos| + 1,
                                      Of(todos).active + (if t.completed then 0 else 1),
                                      Of(todos).completed + (if t.completed then 1 else 0))
  {
    assert ([t] + todos)[1..] == todos;
  }

  /** Filtering works piecewise over a concatenation. */
  lemma {:induction false} WhereAppend(a: seq<Task>, b: seq<Task>, done: bool)
    ensures Where(a + b, done) == Where(a, done) + Where(b, done)
  {
    if a != [] {
      assert (a + b)[1..] == a[1..] + b;
      WhereAppend(a[1..], b, done);
    } else {
      assert a + b == b;
    }
  }

  /** A new task is open: it adds one to the total and one to the open
      count and leaves the done count alone. */
  lemma AddTaskCounts(todos: seq<Task>, title: string, id: int, createdAt: string)
    ensures Of(AddTask(todos, title, id, createdAt))
              == Counts(|todos| + 1, Of(todos).active + 1, Of(todos).completed)
  {
    assert AddTask(todos, title, id, createdAt)[1..] == todos;
  }

  /** Toggling a present id moves exactly one task between the open and the
      done count; the total stays. */
  lemma {:induction false} ToggleCounts(todos: seq<Task>, id: int)
    requires HasId(todos, id)
    ensures Of(Toggle(todos, id)).total == Of(todos).total
    ensures exists k :: IsFirstMatch(todos, id, k) &&
              if todos[k].completed then
                Of(Toggle(todos, id)).active == Of(todos).active + 1
                && Of(Toggle(todos, id)).completed == Of(todos).completed - 1
              else
                Of(Toggle(todos, id)).active == Of(todos).active - 1
                && Of(Toggle(todos, id)).completed == Of(todos).completed + 1
  {
    var k := FindIndex(todos, id).value;
    var pre, post := todos[..k], todos[k + 1..];
    assert todos == pre + [todos[k]] + post;
    assert Toggle(todos, id) == pre + [Flip(todos[k])] + post;
    WhereSplice(pre, todos[k], post, false);
    WhereSplice(pre, todos[k], post, true);
    WhereSplice(pre, Flip(todos[k]), post, false);
    WhereSplice(pre, Flip(todos[k]), post, true);
    assert IsFirstMatch(todos, id, k);
  }

  /** Counting over a list with one task singled out in the middle. */
  lemma {:induction false} WhereSplice(pre: seq<Task>, x: Task, post: seq<Task>, done: bool)
    ensures |Where(pre + [x] + post, done)|
              == |Where(pre, done)| + (if x.completed == done then 1 else 0) + |Where(post, done)|
  {
    WhereAppend(pre + [x], post, done);
    WhereAppend(pre, [x], done);
  }

  /** Deleting removes from the total exactly the tasks with that id. */
  lemma {:induction false} DeleteCounts(todos: seq<Task>, id: int)
    ensures Of(Delete(todos, id)).total == |todos| - |Matching(todos, id)|
    ensures Of(Delete(todos, id)).active == Of(todos).active - |Where(Matching(todos, id), false)|
    ensures Of(Delete(todos, id)).completed == Of(todos).completed - |Where(Matching(todos, id), true)|
  {
    if todos != [] {
      DeleteCounts(todos[1..], id);
    }
  }
}
