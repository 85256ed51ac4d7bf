/**
 The in-memory to-do list and the three operations that change it: adding a
 task at the head, toggling the first task with a given id, and deleting every
 task with a given id. The list is an immutable sequence; each operation
 returns the list the page holds afterwards.

 Ids come from a millisecond clock and nothing makes them unique, so two tasks
 may share one. Toggling then affects only the first of them, deleting
 affects all of them.
 */
module Todos {

  datatype Option<T> = None | Some(value: T)

  /** One to-do item: a clock-derived id, an already-escaped title, the
      completion flag and the ISO-8601 creation timestamp. */
  datatype Task = Task(id: int, title: string, completed: bool, createdAt: string)

  /** The task with its completion flag negated and every other field kept. */
  function Flip(t: Task): (u: Task)
    ensures u.completed == !t.completed
    ensures u.id == t.id && u.title == t.title && u.createdAt == t.createdAt
  {
    t.(completed := !t.completed)
  }

  /** Some task of the list carries `id`. */
  predicate HasId(todos: seq<Task>, id: int) {
    exists i :: 0 <= i < |todos| && todos[i].id == id
  }

  /** Position `k` holds the first task of the list whose id is `id`. */
  ghost predicate IsFirstMatch(todos: seq<Task>, id: int, k: int) {
    && 0 <= k < |todos|
    && todos[k].id == id
    && forall j :: 0 <= j < k ==> todos[j].id != id
  }

  /** Adds a new, not yet completed task in front of all the others. */
  function AddTask(todos: seq<Task>, title: string, id: int, createdAt: string): (r: seq<Task>)
    ensures |r| == |todos| + 1
    ensures r[0].id == id && r[0].title == title && r[0].createdAt == createdAt
    ensures !r[0].completed
    ensures r[1..] == todos
  {
    [Task(id, title, false, createdAt)] + todos
  }

  /** The position `Array.prototype.find` stops at when looking for `id`:
      the first matching one, or none when no task matches. */
  function FindIndex(todos: seq<Task>, id: int): (r: Option<nat>)
    ensures r.None? <==> !HasId(todos, id)
    ensures r.Some? ==> IsFirstMatch(todos, id, r.value)
  {
    if todos == [] then None
    else if todos[0].id == id then Some(0)
    else match FindIndex(todos[1..], id)
      case None => None
      case Some(k) => Some(k + 1)
  }

  /** Flips the completion flag of the first task with `id`; a list without
      that id comes back unchanged. Nothing else moves or changes. */
  function Toggle(todos: seq<Task>, id: int): (r: seq<Task>)
    ensures |r| == |todos|
    ensures !HasId(todos, id) ==> r == todos
    ensures forall k :: IsFirstMatch(todos, id, k) ==>
              && r[k] == Flip(todos[k])
              && forall j :: 0 <= j < |todos| && j != k ==> r[j] == todos[j]
  {
    match FindIndex(todos, id)
    case None => todos
    case Some(k) => todos[k := Flip(todos[k])]
  }

  /** The tasks carrying `id`, in list order: what `Delete` takes out. */
  function Matching(todos: seq<Task>, id: int): (r: seq<Task>)
    ensures forall t :: t in r <==> t in todos && t.id == id
    ensures |r| <= |todos|
  {
    if todos == [] then []
    else if todos[0].id == id then [todos[0]] + Matching(todos[1..], id)
    else Matching(todos[1..], id)
  }

  /** Removes every task with `id`, keeping the others in their order. */
  function Delete(todos: seq<Task>, id: int): (r: seq<Task>)
    ensures forall t :: t in r <==> t in todos && t.id != id
    ensures !HasId(r, id)
    ensures !HasId(todos, id) ==> r == todos
    ensures HasId(todos, id) <==> |r| < |todos|
    ensures |r| == |todos| - |Matching(todos, id)|
  {
    if todos == [] then []
    else if todos[0].id == id then Delete(todos[1..], id)
    else
      assert todos == [todos[0]] + todos[1..];
      [todos[0]] + Delete(todos[1..], id)
  }

  /** `a` is `b` with some elements left out and the rest in their order. */
  ghost predicate IsSubsequence(a: seq<Task>, b: seq<Task>)
    decreases |b|
  {
    || a == []
    || (&& b != []
        && ((a[0] == b[0] && IsSubsequence(a[1..], b[1..])) || IsSubsequence(a, b[1..])))
  }

  /** Toggling does not change which ids sit where, so the first match
      stays where it was. */
  lemma ToggleKeepsFirstMatch(todos: seq<Task>, id: int)
    ensures FindIndex(Toggle(todos, id), id) == FindIndex(todos, id)
  {
    var r := Toggle(todos, id);
    match FindIndex(todos, id)
    case None =>
    case Some(k) =>
      assert IsFirstMatch(r, id, k);
  }

  /** Toggling the same id twice gives back the original list. */
  lemma ToggleInvolution(todos: seq<Task>, id: int)
    ensures Toggle(Toggle(todos, id), id) == todos
  {
    ToggleKeepsFirstMatch(todos, id);
  }

  /** Deleting keeps the surviving tasks in their original relative order. */
  lemma {:induction false} DeleteIsSubsequence(todos: seq<Task>, id: int)
    ensures IsSubsequence(Delete(todos, id), todos)
  {
    if todos != [] {
      DeleteIsSubsequence(todos[1..], id);
      if todos[0].id != id {
        assert Delete(todos, id)[1..] == Delete(todos[1..], id);
      }
    }
  }

  /** Deletion works piecewise: deleting from a concatenation deletes from
      each half, so the order of the survivors is the order of the input. */
  lemma {:induction false} DeleteAppend(a: seq<Task>, b: seq<Task>, id: int)
    ensures Delete(a + b, id) == Delete(a, id) + Delete(b, id)
  {
    if a != [] {
      assert (a + b)[0] == a[0];
      assert (a + b)[1..] == a[1..] + b;
      DeleteAppend(a[1..], b, id);
      if a[0].id != id {
        assert Delete(a + b, id) == [a[0]] + Delete(a[1..] + b, id);
        assert Delete(a, id) == [a[0]] + Delete(a[1..], id);
      }
    } else {
      assert a + b == b;
    }
  }

  /** Collecting the matches works piecewise: the matches of a concatenation
      are those of the first half followed by those of the second, so they
      come in list order, each as often as it occurs. */
  lemma {:induction false} MatchingAppend(a: seq<Task>, b: seq<Task>, id: int)
    ensures Matching(a + b, id) == Matching(a, id) + Matching(b, id)
  {
    if a != [] {
      assert (a + b)[0] == a[0];
      assert (a + b)[1..] == a[1..] + b;
      MatchingAppend(a[1..], b, id);
      if a[0].id == id {
        assert Matching(a + b, id) == [a[0]] + Matching(a[1..] + b, id);
        assert Matching(a, id) == [a[0]] + Matching(a[1..], id);
      }
    } else {
      assert a + b == b;
    }
  }

  /** Deleting the same id a second time changes nothing. */
  lemma DeleteIdempotent(todos: seq<Task>, id: int)
    ensures Delete(Delete(todos, id), id) == Delete(todos, id)
  {
  }

  /** The order of two deletions does not matter. */
  lemma {:induction false} DeleteCommutes(todos: seq<Task>, a: int, b: int)
    ensures Delete(Delete(todos, a), b) == Delete(Delete(todos, b), a)
  {
    if todos != [] {
      DeleteCommutes(todos[1..], a, b);
    }
  }

  /** Deleting an id right after adding a task with it removes the new task
      and every older task sharing its id; for an id not yet in use this
      undoes the addition. */
  lemma DeleteUndoesAdd(todos: seq<Task>, title: string, id: int, createdAt: string)
    ensures Delete(AddTask(todos, title, id, createdAt), id) == Delete(todos, id)
    ensures !HasId(todos, id) ==> Delete(AddTask(todos, title, id, createdAt), id) == todos
  {
    assert AddTask(todos, title, id, createdAt)[1..] == todos;
  }

  /** When the clock repeats an id, toggling it affects the newest task
      only, the one at the head. */
  lemma ToggleAfterAddHitsNewest(todos: seq<Task>, title: string, id: int, createdAt: string)
    ensures Toggle(AddTask(todos, title, id, createdAt), id)
              == [Task(id, title, true, createdAt)] + todos
  {
    var added := AddTask(todos, title, id, createdAt);
    assert IsFirstMatch(added, id, 0);
  }
}
