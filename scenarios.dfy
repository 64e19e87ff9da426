module Scenarios {
  import opened Text
  import opened Tasks
  import opened Query

  lemma DueDateExample(a: Task, b: Task, c: Task)
    requires a.dueDate == Some(121) && b.dueDate.None? && c.dueDate == Some(0)
    ensures SortTasks(DueDate, [a, b, c]) == [c, a, b]
  {
    assert [a, b, c][1..] == [b, c];
    assert [b, c][1..] == [c];
    assert [c][1..] == [];
    assert InsertionSort(DueDate, [c]) == [c];
    assert Insert(DueDate, b, []) == [b];
    assert Insert(DueDate, b, [c]) == [c] + Insert(DueDate, b, [c][1..]);
    assert InsertionSort(DueDate, [b, c]) == [c, b];
    assert [c, b][1..] == [b];
    assert Insert(DueDate, a, [b]) == [a, b];
    assert Insert(DueDate, a, [c, b]) == [c] + Insert(DueDate, a, [b]);
  }

  lemma MilkExample()
    ensures MatchesSearch("milk", Task("1", "Buy MILK", None, false, 0))
  {
    var low := ToLower("Buy MILK");
    assert low == "buy milk";
    assert low[4..] == "milk";
    ContainsAt(low, "milk");
  }
}
