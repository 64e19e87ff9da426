/** The task store of the to-do page: the global `tasks` list and the five mutations
    the page performs on it, each followed by `saveTasks` when it changes something. */
module Store {
  import opened Seqs
  import opened Text
  import opened Tasks
  import opened Query

  class TaskStore {
    /** The global `tasks` array, newest task first. */
    var tasks: seq<Task>
    /** What `saveTasks` last wrote under the storage key. */
    ghost var saved: seq<Task>

    /** Distinct ids and valid texts, which every mutation preserves. */
    ghost predicate Valid()
      reads this
    {
      Wellformed(tasks)
    }

    /** The initial load: the stored list, or the empty list when the key is absent. */
    constructor (stored: Option<seq<Task>>)
      ensures tasks == (if stored.Some? then stored.value else [])
      ensures saved == tasks
      ensures stored.None? || Wellformed(stored.value) ==> Valid()
    {
      tasks := if stored.Some? then stored.value else [];
      saved := tasks;
    }

    /** `addTask`: with accepted form input, the new task goes to the front. The id and
        the creation time are passed in, standing for `generateId()` and the clock. */
    method AddTask(text: string, date: Option<Day>, today: Day, id: string, now: int) returns (v: Validation)
      modifies this
      ensures v == ValidateForm(text, date, today, false)
      ensures v.Accepted? ==> tasks == [Task(id, Trim(text), date, false, now)] + old(tasks) && saved == tasks
      ensures v.Rejected? ==> tasks == old(tasks) && saved == old(saved)
      ensures old(Valid()) && !HasId(old(tasks), id) ==> Valid()
    {
      v := ValidateForm(text, date, today, false);
      if v.Rejected? {
        return;
      }
      var t := Task(id, Trim(text), date, false, now);
      AcceptedTextIsValid(text, date, today, false);
      if Wellformed(tasks) && !HasId(tasks, id) {
        AddKeepsWellformed(tasks, t);
      }
      tasks := [t] + tasks;
      saved := tasks;
    }

    /** `toggleTask(id)`: flips the flag of the first task with that id, if any. */
    method ToggleTask(id: string) returns (found: bool)
      modifies this
      ensures found == HasId(old(tasks), id)
      ensures tasks == Toggled(old(tasks), id)
      ensures saved == if found then tasks else old(saved)
      ensures old(Valid()) ==> Valid()
    {
      var idx := FindIndex(tasks, id);
      if idx == -1 {
        return false;
      }
      if Wellformed(tasks) {
        ToggleKeepsWellformed(tasks, id);
      }
      tasks := tasks[idx := tasks[idx].(completed := !tasks[idx].completed)];
      saved := tasks;
      found := true;
    }

    /** `saveEdit`: with accepted modal input, the task `editingId` names gets the trimmed
        text and the date. An absent or missing `editingId` changes nothing. The modal
        shows no date advisory, so the current day plays no part. */
    method SaveEdit(text: string, date: Option<Day>, editingId: Option<string>) returns (v: Validation, found: bool)
      modifies this
      ensures v == ValidateForm(text, date, 0, true)
      ensures found == (v.Accepted? && editingId.Some? && HasId(old(tasks), editingId.value))
      ensures tasks == if found then Edited(old(tasks), editingId.value, Trim(text), date) else old(tasks)
      ensures saved == if found then tasks else old(saved)
      ensures old(Valid()) ==> Valid()
    {
      v := ValidateForm(text, date, 0, true);
      found := false;
      if v.Rejected? || editingId.None? {
        return;
      }
      var id := editingId.value;
      var idx := FindIndex(tasks, id);
      if idx == -1 {
        return;
      }
      var trimmed := Trim(text);
      AcceptedTextIsValid(text, date, 0, true);
      if Wellformed(tasks) {
        EditKeepsWellformed(tasks, id, trimmed, date);
      }
      tasks := tasks[idx := tasks[idx].(text := trimmed, dueDate := date)];
      saved := tasks;
      found := true;
    }

    /** `deleteTask(id)` with its confirmation: when some task has the id, every task
        with it is removed. */
    method DeleteTask(id: string) returns (found: bool)
      modifies this
      ensures found == HasId(old(tasks), id)
      ensures tasks == Without(old(tasks), id)
      ensures saved == if found then tasks else old(saved)
      ensures old(Valid()) ==> Valid()
      ensures old(Valid()) && found ==>
        var i := FindIndex(old(tasks), id); tasks == old(tasks)[..i] + old(tasks)[i + 1..]
    {
      if !HasId(tasks, id) {
        WithoutAbsent(tasks, id);
        return false;
      }
      var rest := Without(tasks, id);
      if Wellformed(tasks) {
        DeleteKeepsWellformed(tasks, id);
        WithoutAt(tasks, id, FindIndex(tasks, id));
      }
      tasks := rest;
      saved := tasks;
      found := true;
    }

    /** `deleteAllTasks` with its confirmation: an empty list is left alone (and not
        saved); otherwise the list becomes empty. */
    method DeleteAllTasks() returns (hadTasks: bool)
      modifies this
      ensures hadTasks == (old(tasks) != [])
      ensures tasks == []
      ensures saved == if hadTasks then [] else old(saved)
      ensures Valid()
    {
      if |tasks| == 0 {
        return false;
      }
      tasks := [];
      saved := tasks;
      hadTasks := true;
    }

    /** `getFilteredTasks`: works on a copy, so `tasks` is left as it is. */
    method GetFilteredTasks(f: FilterMode, m: SortMode, q: string) returns (list: seq<Task>)
      ensures list == FilteredTasks(tasks, f, m, q)
      ensures forall t :: t in list <==> t in tasks && Selected(f, q, t)
      ensures Sorted(m, list)
    {
      list := tasks;
      list := StatusFilter(list, f);
      if q != [] {
        list := Filter(list, (t: Task) => MatchesSearch(q, t));
      }
      list := SortTasks(m, list);
      FilteredTasksSpec(tasks, f, m, q);
    }
  }

  /** Toggling the same task twice through the store restores the list. */
  method ToggleTwiceRestores(s: TaskStore, id: string)
    modifies s
    ensures s.tasks == old(s.tasks)
  {
    var first := s.ToggleTask(id);
    var second := s.ToggleTask(id);
    ToggleTwice(old(s.tasks), id);
  }
}
