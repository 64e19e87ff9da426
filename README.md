# TaskFlow to-do list, modelled in Dafny

TaskFlow is a single-page to-do list. In `js/script.js` it keeps one global
list of tasks. Each task has an id, a text, an optional due date, a completed flag
and a creation time. Five user actions change that list:

- add, which puts the new task at the front;
- toggle done;
- edit text and date;
- delete one task, after a confirmation;
- delete all tasks, after a confirmation.

A text rule guards add and edit: the trimmed text must be at least three
characters long. A due date in the past raises only an advisory and never blocks.
On every render the page computes the visible list in three steps: a status
filter, a case-insensitive search, then one of five sort orders. It also computes
the counts of the statistics bar, escapes each task text for HTML and classifies
each due date as overdue, today or upcoming.

The project has seven modules:

- `Seqs` (`seqs.dfy`): order-preserving `Filter` and `Reverse` on sequences, with
  their algebra.
- `Text` (`text.dfy`): the string operations the page relies on.
  - `String.prototype.trim`, with the exact ECMAScript white-space and
    line-terminator set.
  - ASCII `toLowerCase`.
  - `includes`.
  - A code-point lexicographic order that stands in for `localeCompare`.
- `Tasks` (`tasks.dfy`): the parts the store's mutations are built from.
  - The task record.
  - `validateForm`.
  - The list transformations the mutations perform: find, toggle, edit, delete.
  - The store invariant `Wellformed`: distinct ids, and every text trimmed and at
    least three characters long.
- `Store` (`store.dfy`): class `TaskStore`. Its `tasks` field is the global array.
  A ghost field `saved` stands for what `saveTasks` last wrote. Its methods are the
  five mutations and `getFilteredTasks`.
- `Query` (`query.dfy`): the view pipeline.
  - The filter and sort modes.
  - The status and search filters.
  - The five comparators.
  - A stable sort, with a proof that the comparators are consistent and that the
    sorted result is unique.
  - The counts of `renderStats`.
- `Render` (`render.dfy`): `escapeHtml` and the due-date classification of
  `formatDate`.
- `Scenarios` (`scenarios.dfy`): two worked instances of the sort and search rules.

Dates are integer day numbers. `addedAt` is an integer timestamp in
milliseconds. An empty date field is `None`.

## Model

| member | source | states |
|---|---|---|
| Tasks.ValidateForm | js/script.js:58-96 | Rejected exactly when the trimmed text is shorter than 3. It is the "empty" message exactly when the text is all white space, and "too short" exactly when the trimmed length is 1 or 2. On acceptance the past-date advisory is raised exactly when the form is not the modal, a date is given and it lies before today. |
| Tasks.AdvisoryNeverBlocks | js/script.js:83-95 | The date, the current day and the form never change whether input is accepted, nor whether it gets the empty-text message. |
| Tasks.AcceptedTextIsValid | js/script.js:71-81 | An accepted text, once trimmed, is at least 3 long with no white space at either end. A text that already has that form is its own trimmed form. |
| Tasks.FindIndex | js/script.js:130 | -1 exactly when no task has the id; otherwise the first position holding it. |
| Tasks.FindIndexSameIds | js/script.js:130 | The found position depends only on the ids in the list. |
| Tasks.Toggled | js/script.js:129-133 | Same length. Only the `completed` flags can differ, and one differs exactly at the first task holding the id. An absent id leaves the list unchanged. |
| Tasks.ToggleTwice | js/script.js:129-133 | Toggling the same id twice restores the list. |
| Tasks.Edited | js/script.js:202-206 | Same length. Every id, flag and creation time is kept, and every other position is unchanged. The first task holding the id gets the new text and date. An absent id leaves the list unchanged. |
| Tasks.WithoutSpec | js/script.js:149 | After delete no task has the id. Every other task keeps its number of occurrences. An absent id leaves the list unchanged. |
| Tasks.Without | js/script.js:149 | Never longer than the list, and no task left holds the id. Its value is fixed by `WithoutConcat`, `WithoutAt` and `WithoutSpec`. |
| Tasks.WithoutConcat | js/script.js:149 | Deleting from a concatenation deletes from each part, so the surviving tasks keep their relative order. |
| Tasks.WithoutAbsent | js/script.js:149 | Deleting an id no task holds changes nothing. |
| Tasks.WithoutAt | js/script.js:149 | With distinct ids, deleting the id held at position `i` gives exactly `s[..i] + s[i+1..]`: the one task goes and the rest stay in order. |
| Tasks.AddKeepsWellformed | js/script.js:109-115 | Adding a valid text under a fresh id keeps ids distinct and texts valid. |
| Tasks.ToggleKeepsWellformed | js/script.js:133 | Toggling keeps the store invariant. |
| Tasks.EditKeepsWellformed | js/script.js:205-206 | Editing with a valid text keeps the store invariant. |
| Tasks.DeleteKeepsWellformed | js/script.js:149 | Delete keeps the store invariant. When the id is present, exactly one task goes. |
| Tasks.FilterKeepsUniqueIds | js/script.js:149 | Filtering keeps ids distinct. |
| Store.TaskStore.constructor | js/script.js:4 | The stored list, or the empty list when nothing is stored; the snapshot equals it. The store starts valid when nothing is stored or the stored list is well-formed. |
| Store.TaskStore.AddTask | js/script.js:101-117 | Returns the validation. On acceptance the list becomes `[t] + old` with `t` holding the trimmed text, the date, `completed == false`, the given id and time, and is saved. On rejection nothing changes. With a fresh id the invariant is kept. |
| Store.TaskStore.ToggleTask | js/script.js:129-134 | Reports whether the id is present. The list becomes `Toggled(old, id)`. It is saved only when something changed. Keeps the invariant. |
| Store.TaskStore.SaveEdit | js/script.js:197-208 | The edit happens exactly when the modal input is accepted and `editingId` names a task. The list then becomes `Edited(old, id, trim(text), date)` and is saved; otherwise nothing changes. Keeps the invariant. |
| Store.TaskStore.DeleteTask | js/script.js:142-150 | Reports whether the id is present. The list becomes `Without(old, id)`. It is saved only when a task was found. Keeps the invariant. For a valid store and a present id, the new list is the old one with exactly the position of that id cut out, the rest in their order. |
| Store.TaskStore.DeleteAllTasks | js/script.js:160-167 | The list ends empty. An empty list is neither confirmed nor saved, so the snapshot stays as it was. |
| Store.TaskStore.GetFilteredTasks | js/script.js:291-329 | Changes nothing. Returns `FilteredTasks`, which holds exactly the tasks that pass both filters and is in the order of the sort key. |
| Store.ToggleTwiceRestores | js/script.js:129-134 | Two toggles of one id through the store restore the list. |
| Query.ParseFilter | js/script.js:295-296 | "completed" and "pending" select their filter, and only those strings do. Every other name shows all. |
| Query.ParseSort | js/script.js:304-326 | Each of the five keys selects its comparator, and only that key does. Every other key leaves the order alone. |
| Query.StatusFilter | js/script.js:295-296 | Never longer than the list; a task is kept exactly when it is in the list and passes the status filter. Its order is fixed by `SelectionConcat`. |
| Query.NormalizeQuery | js/script.js:218 | Never longer than the input. `NormalizeQueryFacts` ties it to the input. |
| Query.MatchesSearch | js/script.js:300 | The empty query matches every task. `ContainsAt` fixes what a non-empty query matches. |
| Query.SearchFilter | js/script.js:299-301 | Never longer than the list; a task is kept exactly when it is in the list and its lower-cased text contains the query. |
| Query.SelectionConcat | js/script.js:294-301 | Both filters work piece by piece, so the selected tasks keep their relative order from `tasks`. |
| Query.Selection | js/script.js:294-301 | Never longer than the list; a task is selected exactly when it is in the list and passes both the status filter and the search. `SelectionSpec` adds multiplicities and `SelectionConcat` the order. |
| Query.SortCmp | js/script.js:305-324 | A task compares equal to itself, and the two name comparators are 0 exactly for equal texts. `CmpAntisymmetric`, `CmpTransitive` and `SortedMeaning` give the rest. |
| Query.SortTasks | js/script.js:304-326 | A permutation of its input, and an unknown key returns the input as is. `SortTasksCorrect` adds the order and stability. |
| Query.FilteredTasks | js/script.js:291-329 | The shown list is a permutation of the filtered selection. `FilteredTasksSpec` specifies it fully. |
| Query.CmpAntisymmetric | js/script.js:306-324 | Every comparator changes sign when its arguments are swapped. |
| Query.CmpTransitive | js/script.js:306-324 | Every comparator's "no later than" is transitive, so the sort is well defined. |
| Query.SortTasksCorrect | js/script.js:304-326 | The sorted list is a permutation of its input, is in comparator order and keeps tied tasks in prior order. An unknown key returns the input as is. |
| Query.StableSortIsUnique | js/script.js:304-326 | Any list that is sorted by the comparator and keeps every group of tied tasks in input order equals `SortTasks`; this is what a stable `Array.prototype.sort` yields. |
| Query.SortedMeaning | js/script.js:305-325 | In a sorted list: date-added has `addedAt` non-increasing. Due-date puts every dated task before every undated one, in ascending date order. Name orders ascend or descend in the text order. Status puts done tasks only after pending ones. |
| Query.NameDescReversesNameAsc | js/script.js:316-321 | With distinct texts, the name-desc order is the reverse of the name-asc order. |
| Query.SelectionSpec | js/script.js:294-301 | The filters keep every task that passes both the status filter and the search, with its multiplicity, and nothing else. |
| Query.FilteredTasksSpec | js/script.js:291-329 | As a multiset, the shown list is exactly the tasks passing both filters. It is in sort-key order and keeps ties in list order. |
| Query.DefaultsShowEverything | js/script.js:292-326 | The "all" filter, an empty query and an unrecognised sort key show the list as is. |
| Query.FilterNoOps | js/script.js:295-301 | An unrecognised filter name keeps every task, as does an empty query. |
| Query.NormalizeQueryFacts | js/script.js:218 | The stored query equals the input trimmed first and lower-cased second, which is the source order reversed, since the two commute. It is already trimmed and has no upper-case letter. |
| Query.Progress | js/script.js:338 | 0 for an empty list. Otherwise the exact half-up rounding of `100 * completed / total`, which lies in 0..100 when `completed <= total`. |
| Query.RenderStats | js/script.js:334-338 | `total` is the list length; `completed` and `pending` are the sizes of the done and pending filters and sum to `total`. `progress` lies in 0..100 and is the rounded percentage. |
| Query.ProgressEnds | js/script.js:338 | No task done gives 0 percent; all done on a non-empty list gives 100 percent. |
| Render.ReplaceAll | js/script.js:49-52 | Every character of a global one-character replace comes from the replacement or is an input character other than the pattern; with the pattern absent the text is unchanged. |
| Render.EscapeHtml | js/script.js:47-53 | The output holds no `<`, `>` or `"`. |
| Render.EscapeHtmlIsOnePass | js/script.js:47-53 | The four passes, ampersand first, equal a single character-by-character escape, so no inserted entity is escaped again. |
| Render.UnescapeEscapeHtml | js/script.js:47-53 | Decoding the four entities gives back the original text. |
| Render.FormatDate | js/script.js:27-41 | No date gets the "No due date" label, and only no date does. The overdue and upcoming labels carry the due date. |
| Render.FormatDateClasses | js/script.js:36-41 | A due date is overdue exactly when it is before today, "Today" exactly when it is today and upcoming exactly when it is later. |
| Render.AdvisoryMatchesOverdue | js/script.js:84-93 | For accepted add-form input, the past-date advisory is raised exactly when the list would show the date as overdue. |
| Render.UrgencyGrows | js/script.js:33-41 | As the current day advances a label only moves from upcoming to today to overdue, and a date due today is overdue on any later day. |
| Text.Trim | js/script.js:71 | Never longer than the input, and the result starts and ends with a non-white-space character. |
| Text.TrimEmpty | js/script.js:71 | The trimmed text is empty exactly when the text is all white space. |
| Text.TrimIdempotent | js/script.js:111 | Trimming twice is trimming once. |
| Text.ToLowerFacts | js/script.js:300 | Lower-casing leaves no upper-case letter, changes nothing else and is idempotent. |
| Text.TrimLowerCommute | js/script.js:218 | Trimming and lower-casing can be done in either order. |
| Text.ToLower | js/script.js:300 | Same length, with each character lower-cased in place. |
| Text.Contains | js/script.js:300 | A contained query is never longer than the text. `ContainsAt` specifies it fully. |
| Text.ContainsAt | js/script.js:300 | `includes` holds exactly when the query is a prefix of some suffix of the text. |
| Text.LexCmp | js/script.js:317 | The result lies in -1..1 and is 0 exactly for equal strings. |
| Text.LexCmpTransitive | js/script.js:317 | The text order is transitive. |
| Seqs.Filter | js/script.js:295-300 | `Array.prototype.filter`: never longer than the input, every kept element passes, and an element is kept exactly when it is in the input and passes. |
| Seqs.FilterConcat | js/script.js:295-300 | Filtering distributes over concatenation, so it keeps the input order. |
| Scenarios.DueDateExample | js/script.js:308-314 | A task due on a later day, an undated task and a task due on day 0 sort as day 0, later day, undated. |
| Scenarios.MilkExample | js/script.js:299-301 | The query "milk" matches the text "Buy MILK". |

## Left out

- DOM reads and writes are not modelled: element lookups, classes, labels, menus,
  modals, focus and the generated table HTML. `openEditModal` and `closeModal` only
  set or clear `editingId`. That id is a parameter of `SaveEdit` instead.
- `setFilter` and `setSort` appear only as the mode datatypes and `ParseFilter` and
  `ParseSort`. `handleSearch` appears as `NormalizeQuery`. The three globals they
  assign become parameters of `GetFilteredTasks`.
- Persistence is not modelled. `localStorage` and JSON are foreign I/O, and
  `saveTasks` is the ghost snapshot `saved`. At line 4 a missing key gives the empty
  list. Malformed stored text makes `JSON.parse` throw, and the page does not fall
  back to an empty list. The constructor only covers the present and the absent
  cases.
- Store.TaskStore.AddTask: the id is a parameter, because `generateId`
  (`Date.now` and `Math.random`) is nondeterministic and guarantees nothing. The
  invariant is preserved only when that id is not already in the list. The method
  does not demand freshness.
- The JavaScript `Date` is not modelled: parsing "YYYY-MM-DD", time zones, daylight
  saving in the `Math.round` of the day difference, and the
  `toLocaleDateString` text. Days are integers, and `FormatDate` returns the kind of label,
  not the markup.
- Query.Progress: models exact half-up rounding of the true ratio. The source
  rounds a double. For 23 of 40 tasks, `23 / 40 * 100` evaluates just below 57.5
  in double arithmetic, so the page shows 57 where the model gives 58.
- Text.LexCmp: `localeCompare` is a locale-dependent library call; the model uses
  code-point lexicographic order.
- Text.ToLower: lower-cases ASCII letters only, not all of Unicode.
- Text.Trim: `length` counts UTF-16 code units in the source and characters here.
- Query.SortTasks: `Array.prototype.sort` sorts the copy in place. The model is a
  pure stable insertion sort. `StableSortIsUnique` shows that every stable sort
  with the same comparator gives the same list.
- Tasks are values. The object aliasing between `tasks` and the copy that
  `getFilteredTasks` makes is not modelled, and no caller mutates that copy.
- Toasts and their timers, the keyboard and click listeners, and the
  confirm-callback indirection are not modelled. The callback bodies of delete and
  delete-all are the methods themselves.
