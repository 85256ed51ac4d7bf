/**
 Concrete runs of the list operations, written out as lemmas.
 */
module Scenarios {
  import opened Todos
  import Stats
  import Render
  import Submit

  /** Two tasks added one after the other show newest first; ticking the
      newer one leaves one open and one done, and the open ones are just the
      older task. */
  lemma AddTwoThenToggle()
    ensures var s := AddTask(AddTask([], "Buy milk", 1, "2024-05-01T09:00:00.000Z"),
                             "Walk dog", 2, "2024-05-01T09:05:00.000Z");
            && s[0].title == "Walk dog" && s[1].title == "Buy milk"
            && Stats.Of(Toggle(s, 2)) == Stats.Counts(2, 1, 1)
            && Stats.Where(Toggle(s, 2), false) == [s[1]]
  {
    var s := AddTask(AddTask([], "Buy milk", 1, "2024-05-01T09:00:00.000Z"),
                     "Walk dog", 2, "2024-05-01T09:05:00.000Z");
    assert IsFirstMatch(s, 2, 0);
    var t := Toggle(s, 2);
    assert t == [Flip(s[0]), s[1]];
    assert t[1..] == [s[1]];
    assert Stats.Where(t, true) == [t[0]];
  }

  /** Two tasks created in the same millisecond share an id: ticking the
      box flips only the first of them, deleting removes both. */
  lemma SameMillisecond()
    ensures var older := Task(5, "a", false, "2024-05-01T09:00:00.000Z");
            var newer := Task(5, "b", false, "2024-05-01T09:00:00.000Z");
            var other := Task(6, "c", true, "2024-05-01T09:00:00.001Z");
            && Toggle([newer, older, other], 5) == [Flip(newer), older, other]
            && Delete([newer, older, other], 5) == [other]
  {
    var older := Task(5, "a", false, "2024-05-01T09:00:00.000Z");
    var newer := Task(5, "b", false, "2024-05-01T09:00:00.000Z");
    var other := Task(6, "c", true, "2024-05-01T09:00:00.001Z");
    var s := [newer, older, other];
    assert IsFirstMatch(s, 5, 0);
    assert s[1..] == [older, other];
    assert s[1..][1..] == [other];
  }

  /** A title of spaces and a tab is dropped, and the list stays as it was. */
  lemma BlankTitleIgnored(todos: seq<Task>, escape: string -> string, now: int, isoNow: string)
    ensures Submit.Submit(todos, "  \t ", escape, now, isoNow) == todos
  {
  }

  /** For a concrete ISO-8601 timestamp the row shows the calendar date. */
  lemma IsoTimestampShowsDate()
    ensures Render.DatePrefix("2024-05-01T09:30:00.000Z") == "2024-05-01"
  {
    Render.DatePrefixIgnoresTime("2024-05-01", "09:30:00.000Z", "");
    assert "2024-05-01" + "T" + "09:30:00.000Z" == "2024-05-01T09:30:00.000Z";
  }

  /** An empty list renders the empty-state panel with all counters at zero. */
  lemma EmptyListScreen()
    ensures Render.Render([]) == Render.Screen(Render.EmptyState, Stats.Counts(0, 0, 0))
  {
  }
}
