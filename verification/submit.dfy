/**
 The form's submit handler: the typed text is trimmed, a blank entry is
 ignored, and anything else is escaped and added as a new task.

 The browser-side pieces are parameters: `escape` stands for `escapeHTML`,
 whose result comes from the DOM serializer, and `now` / `isoNow` for the
 clock readings `Date.now()` and `new Date().toISOString()`.
 */
module Submit {
  import opened Todos
  import Text

  /** The list after submitting `input`. */
  function Submit(todos: seq<Task>, input: string, escape: string -> string,
                  now: int, isoNow: string): (r: seq<Task>)
    ensures Text.IsBlank(input) ==> r == todos
    ensures !Text.IsBlank(input) ==>
              && |r| == |todos| + 1
              && r[1..] == todos
              && r[0].id == now && r[0].createdAt == isoNow && !r[0].completed
              && r[0].title == escape(Text.Trim(input))
  {
    var title := Text.Trim(input);
    if title == "" then todos else AddTask(todos, escape(title), now, isoNow)
  }

  /** Whitespace typed around a title makes no difference to what is stored. */
  lemma SubmitIgnoresPadding(todos: seq<Task>, before: string, input: string, after: string,
                             escape: string -> string, now: int, isoNow: string)
    requires Text.IsBlank(before) && Text.IsBlank(after)
    ensures Submit(todos, before + input + after, escape, now, isoNow)
              == Submit(todos, input, escape, now, isoNow)
  {
    Text.TrimIgnoresPadding(before, input, after);
  }
}
