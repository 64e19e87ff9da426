/** The task record, the form validation rule, and the list operations that the
    store's mutations perform on the task list. */
module Tasks {
  import opened Text
  import opened Seqs

  datatype Option<T> = None | Some(value: T)

  /** A calendar date, as a day number (the source's "YYYY-MM-DD" string). */
  type Day = int

  /** One to-do item. `dueDate` is `None` where the source stores `null`;
      `addedAt` is the creation time as a number of milliseconds. */
  datatype Task = Task(id: string, text: string, dueDate: Option<Day>, completed: bool, addedAt: int)

  /** The two messages the text rule can produce. */
  datatype TextError = EmptyText | TooShort

  /** The outcome of `validateForm`: a rejection with its message, or an acceptance
      that may carry the non-blocking "due date is in the past" advisory. */
  datatype Validation = Rejected(error: TextError) | Accepted(pastDue: bool)

  /** The shortest task text the form accepts, after trimming. */
  const MinLength := 3

  /** `validateForm(text, date, isModal)`. The text rule alone decides validity; the
      past-date advisory is raised only for accepted input on the add form, because the
      edit modal has no date-error element. `None` is the empty date field. */
  function ValidateForm(text: string, date: Option<Day>, today: Day, isModal: bool): (v: Validation)
    ensures v.Rejected? <==> |Trim(text)| < MinLength
    ensures v == Rejected(EmptyText) <==> AllSpace(text)
    ensures v == Rejected(TooShort) <==> 0 < |Trim(text)| < MinLength
    ensures v.Accepted? ==> (v.pastDue <==> !isModal && date.Some? && date.value < today)
  {
    var t := Trim(text);
    TrimEmpty(text);
    if t == [] then Rejected(EmptyText)
    else if |t| < MinLength then Rejected(TooShort)
    else Accepted(!isModal && date.Some? && date.value < today)
  }

  /** The date, the current day and the form never change whether input is accepted. */
  lemma AdvisoryNeverBlocks(text: string, d1: Option<Day>, d2: Option<Day>, today1: Day, today2: Day, m1: bool, m2: bool)
    ensures ValidateForm(text, d1, today1, m1) == Rejected(EmptyText) <==> ValidateForm(text, d2, today2, m2) == Rejected(EmptyText)
    ensures ValidateForm(text, d1, today1, m1).Accepted? <==> ValidateForm(text, d2, today2, m2).Accepted?
  {
  }

  /** What every stored task text satisfies: at least `MinLength` long, with no white
      space at either end. */
  predicate ValidText(s: string) {
    |s| >= MinLength && !IsSpace(s[0]) && !IsSpace(s[|s| - 1])
  }

  /** The text an accepted form stores is valid, and a valid text is its own trimmed form. */
  lemma AcceptedTextIsValid(text: string, date: Option<Day>, today: Day, isModal: bool)
    requires ValidateForm(text, date, today, isModal).Accepted?
    ensures ValidText(Trim(text))
    ensures ValidText(text) ==> Trim(text) == text
  {
  }

  predicate HasId(s: seq<Task>, id: string) {
    exists k :: 0 <= k < |s| && s[k].id == id
  }

  /** `findIndex(t => t.id === id)`: the first position holding `id`, or -1. */
  function FindIndex(s: seq<Task>, id: string): (i: int)
    ensures -1 <= i < |s|
    ensures i == -1 <==> !HasId(s, id)
    ensures 0 <= i ==> s[i].id == id && forall k :: 0 <= k < i ==> s[k].id != id
  {
    if s == [] then -1
    else if s[0].id == id then 0
    else
      var j := FindIndex(s[1..], id);
      if j == -1 then -1 else j + 1
  }

  /** The first position of an id depends on the ids alone. */
  lemma FindIndexSameIds(s: seq<Task>, r: seq<Task>, id: string)
    requires |s| == |r|
    requires forall k :: 0 <= k < |s| ==> r[k].id == s[k].id
    ensures FindIndex(r, id) == FindIndex(s, id)
  {
  }

  /** The list after `toggleTask(id)`: the first task holding `id` has its flag flipped. */
  function Toggled(s: seq<Task>, id: string): (r: seq<Task>)
    ensures |r| == |s|
    ensures forall k :: 0 <= k < |s| ==> r[k].(completed := s[k].completed) == s[k]
    ensures forall k :: 0 <= k < |s| ==> (r[k].completed != s[k].completed <==> k == FindIndex(s, id))
    ensures !HasId(s, id) ==> r == s
  {
    var i := FindIndex(s, id);
    if i == -1 then s else s[i := s[i].(completed := !s[i].completed)]
  }

  /** Toggling the same id twice restores the list. */
  lemma ToggleTwice(s: seq<Task>, id: string)
    ensures Toggled(Toggled(s, id), id) == s
  {
    var r := Toggled(s, id);
    FindIndexSameIds(s, r, id);
    assert forall k :: 0 <= k < |s| ==> Toggled(r, id)[k] == s[k];
  }

  /** The list after `saveEdit` with target `id`: the first task holding `id` gets the
      new text and due date; its id, flag and creation time are kept. */
  function Edited(s: seq<Task>, id: string, text: string, date: Option<Day>): (r: seq<Task>)
    ensures |r| == |s|
    ensures forall k :: 0 <= k < |s| ==>
      r[k].id == s[k].id && r[k].completed == s[k].completed && r[k].addedAt == s[k].addedAt
    ensures forall k :: 0 <= k < |s| && k != FindIndex(s, id) ==> r[k] == s[k]
    ensures HasId(s, id) ==> r[FindIndex(s, id)].text == text && r[FindIndex(s, id)].dueDate == date
    ensures !HasId(s, id) ==> r == s
  {
    var i := FindIndex(s, id);
    if i == -1 then s else s[i := s[i].(text := text, dueDate := date)]
  }

  /** The list after the delete confirmation: `tasks.filter(t => t.id !== id)`. */
  function Without(s: seq<Task>, id: string): (r: seq<Task>)
    ensures |r| <= |s|
    ensures forall k :: 0 <= k < |r| ==> r[k].id != id
  {
    Filter(s, (t: Task) => t.id != id)
  }

  /** Deleting works piece by piece, so the surviving tasks keep their relative order. */
  lemma WithoutConcat(a: seq<Task>, b: seq<Task>, id: string)
    ensures Without(a + b, id) == Without(a, id) + Without(b, id)
  {
    FilterConcat(a, b, (t: Task) => t.id != id);
  }

  /** Deleting an id no task holds changes nothing. */
  lemma WithoutAbsent(s: seq<Task>, id: string)
    requires !HasId(s, id)
    ensures Without(s, id) == s
  {
    FilterAllPass(s, (t: Task) => t.id != id);
  }

  /** With distinct ids, the id at position `i` occurs nowhere before or after it. */
  lemma IdOnlyAt(s: seq<Task>, id: string, i: nat)
    requires UniqueIds(s) && i < |s| && s[i].id == id
    ensures !HasId(s[..i], id) && !HasId(s[i + 1..], id)
  {
    var before, after := s[..i], s[i + 1..];
    forall k | 0 <= k < |before| ensures before[k].id != id {
      assert before[k] == s[k];
    }
    forall k | 0 <= k < |after| ensures after[k].id != id {
      assert after[k] == s[i + 1 + k];
    }
  }

  /** A task holding `id` at the front is dropped. */
  lemma WithoutHead(x: Task, s: seq<Task>, id: string)
    requires x.id == id
    ensures Without([x] + s, id) == Without(s, id)
  {
    FilterCons(x, s, (t: Task) => t.id != id);
    assert [] + Without(s, id) == Without(s, id);
  }

  /** Deleting an id that only the middle task holds leaves the two outer parts. */
  lemma WithoutSplice(before: seq<Task>, x: Task, after: seq<Task>, id: string)
    requires x.id == id && !HasId(before, id) && !HasId(after, id)
    ensures Without(before + ([x] + after), id) == before + after
  {
    WithoutAbsent(before, id);
    WithoutAbsent(after, id);
    WithoutHead(x, after, id);
    WithoutConcat(before, [x] + after, id);
  }

  /** Deleting an id held at position `i` and nowhere else cuts out exactly that position. */
  lemma WithoutCut(s: seq<Task>, id: string, i: nat)
    requires i < |s| && s[i].id == id
    requires !HasId(s[..i], id) && !HasId(s[i + 1..], id)
    ensures Without(s, id) == s[..i] + s[i + 1..]
  {
    assert s == s[..i] + ([s[i]] + s[i + 1..]);
    WithoutSplice(s[..i], s[i], s[i + 1..], id);
  }

  /** With distinct ids, deleting the id at position `i` cuts out exactly that position. */
  lemma WithoutAt(s: seq<Task>, id: string, i: nat)
    requires UniqueIds(s) && i < |s| && s[i].id == id
    ensures Without(s, id) == s[..i] + s[i + 1..]
  {
    IdOnlyAt(s, id, i);
    WithoutCut(s, id, i);
  }

  /** Deleting drops every task holding `id`, keeps every other occurrence, and changes
      nothing when `id` is absent. */
  lemma WithoutSpec(s: seq<Task>, id: string)
    ensures forall k :: 0 <= k < |Without(s, id)| ==> Without(s, id)[k].id != id
    ensures forall t :: multiset(Without(s, id))[t] == if t.id == id then 0 else multiset(s)[t]
    ensures !HasId(s, id) ==> Without(s, id) == s
  {
    FilterMultiset(s, (t: Task) => t.id != id);
    if !HasId(s, id) {
      FilterAllPass(s, (t: Task) => t.id != id);
    }
  }

  predicate UniqueIds(s: seq<Task>) {
    forall i, j :: 0 <= i < j < |s| ==> s[i].id != s[j].id
  }

  /** The store invariant: distinct ids, and every text trimmed and long enough. */
  predicate Wellformed(s: seq<Task>) {
    UniqueIds(s) && forall k :: 0 <= k < |s| ==> ValidText(s[k].text)
  }

  /** Adding a task with a fresh id and a valid text keeps the list well-formed. */
  lemma AddKeepsWellformed(s: seq<Task>, t: Task)
    requires Wellformed(s) && !HasId(s, t.id) && ValidText(t.text)
    ensures Wellformed([t] + s)
  {
    var r := [t] + s;
    forall i, j | 0 <= i < j < |r| ensures r[i].id != r[j].id {
      assert r[j] == s[j - 1];
      if i > 0 {
        assert r[i] == s[i - 1];
      }
    }
    forall k | 0 <= k < |r| ensures ValidText(r[k].text) {
      if k > 0 {
        assert r[k] == s[k - 1];
      }
    }
  }

  /** Toggling keeps the list well-formed. */
  lemma ToggleKeepsWellformed(s: seq<Task>, id: string)
    requires Wellformed(s)
    ensures Wellformed(Toggled(s, id))
  {
  }

  /** Editing with a valid text keeps the list well-formed. */
  lemma EditKeepsWellformed(s: seq<Task>, id: string, text: string, date: Option<Day>)
    requires Wellformed(s) && ValidText(text)
    ensures Wellformed(Edited(s, id, text, date))
  {
    var r := Edited(s, id, text, date);
    assert UniqueIds(r);
    forall k | 0 <= k < |r| ensures ValidText(r[k].text) {
      if k != FindIndex(s, id) {
        assert r[k] == s[k];
      }
    }
  }

  /** Removing tasks keeps ids distinct. */
  lemma {:induction false} FilterKeepsUniqueIds(s: seq<Task>, p: Task -> bool)
    requires UniqueIds(s)
    ensures UniqueIds(Filter(s, p))
  {
    if s != [] {
      FilterKeepsUniqueIds(s[1..], p);
      var f := Filter(s[1..], p);
      forall k | 0 <= k < |f| ensures f[k].id != s[0].id {
        assert f[k] in s[1..];
      }
    }
  }

  /** Deleting keeps the list well-formed; when ids are distinct it removes exactly one
      task if `id` is present. */
  lemma DeleteKeepsWellformed(s: seq<Task>, id: string)
    requires Wellformed(s)
    ensures Wellformed(Without(s, id))
    ensures HasId(s, id) ==> |Without(s, id)| == |s| - 1
  {
    var r := Without(s, id);
    FilterKeepsUniqueIds(s, (t: Task) => t.id != id);
    forall k | 0 <= k < |r| ensures ValidText(r[k].text) {
      assert r[k] in s;
    }
    if HasId(s, id) {
      WithoutOne(s, id);
    }
  }

  lemma {:induction false} WithoutOne(s: seq<Task>, id: string)
    requires UniqueIds(s) && HasId(s, id)
    ensures |Without(s, id)| == |s| - 1
  {
    if s[0].id == id {
      assert !HasId(s[1..], id) by {
        forall k | 0 <= k < |s| - 1 ensures s[1..][k].id != id {
          assert s[k + 1].id != s[0].id;
        }
      }
      WithoutSpec(s[1..], id);
    } else {
      assert HasId(s[1..], id) by {
        var k :| 0 <= k < |s| && s[k].id == id;
        assert s[1..][k - 1].id == id;
      }
      WithoutOne(s[1..], id);
    }
  }
}
