/** The view query engine: the status filter, the search filter and the five sort
    orders of `getFilteredTasks`, and the counts of `renderStats`. */
module Query {
  import opened Seqs
  import opened Text
  import opened Tasks

  /** The status filter. The source keeps it as a string; `ParseFilter` maps it here. */
  datatype FilterMode = ShowAll | ShowCompleted | ShowPending

  /** The sort order. `Unsorted` stands for every key the `switch` does not recognise. */
  datatype SortMode = DateAdded | DueDate | NameAsc | NameDesc | ByStatus | Unsorted

  /** `currentFilter`: only "completed" and "pending" filter anything. */
  function ParseFilter(name: string): (f: FilterMode)
    ensures f == ShowCompleted <==> name == "completed"
    ensures f == ShowPending <==> name == "pending"
  {
    if name == "completed" then ShowCompleted
    else if name == "pending" then ShowPending
    else ShowAll
  }

  /** `currentSort`: the five keys of the `switch`; any other key sorts nothing. */
  function ParseSort(name: string): (m: SortMode)
    ensures m == DateAdded <==> name == "date-added"
    ensures m == DueDate <==> name == "due-date"
    ensures m == NameAsc <==> name == "name-asc"
    ensures m == NameDesc <==> name == "name-desc"
    ensures m == ByStatus <==> name == "status"
  {
    match name
    case "date-added" => DateAdded
    case "due-date" => DueDate
    case "name-asc" => NameAsc
    case "name-desc" => NameDesc
    case "status" => ByStatus
    case _ => Unsorted
  }

  predicate IsDone(t: Task) {
    t.completed
  }

  predicate IsPending(t: Task) {
    !t.completed
  }

  predicate PassesStatus(f: FilterMode, t: Task) {
    match f
    case ShowAll => true
    case ShowCompleted => IsDone(t)
    case ShowPending => IsPending(t)
  }

  /** The first step of `getFilteredTasks`. */
  function StatusFilter(s: seq<Task>, f: FilterMode): (r: seq<Task>)
    ensures |r| <= |s|
    ensures forall t :: t in r <==> t in s && PassesStatus(f, t)
  {
    match f
    case ShowAll => s
    case ShowCompleted => Filter(s, IsDone)
    case ShowPending => Filter(s, IsPending)
  }

  /** `handleSearch`: the stored query is the input lower-cased, then trimmed. */
  function NormalizeQuery(value: string): (r: string)
    ensures |r| <= |value|
  {
    Trim(ToLower(value))
  }

  /** Whether `t` survives the search step for the stored query `q`. */
  predicate MatchesSearch(q: string, t: Task)
    ensures q == [] ==> MatchesSearch(q, t)
  {
    ContainsEmpty(ToLower(t.text));
    Contains(ToLower(t.text), q)
  }

  /** The second step: a non-empty query keeps the tasks whose lower-cased text contains it. */
  function SearchFilter(s: seq<Task>, q: string): (r: seq<Task>)
    ensures |r| <= |s|
    ensures forall t :: t in r <==> t in s && MatchesSearch(q, t)
  {
    if q == [] then s else Filter(s, (t: Task) => MatchesSearch(q, t))
  }

  function Bit(b: bool): int {
    if b then 1 else 0
  }

  /** The comparator each sort order passes to `list.sort`: negative when `a` goes first. */
  function SortCmp(m: SortMode, a: Task, b: Task): (r: int)
    ensures a == b ==> r == 0
    ensures m == NameAsc || m == NameDesc ==> (r == 0 <==> a.text == b.text)
  {
    match m
    case DateAdded => b.addedAt - a.addedAt
    case DueDate =>
      if a.dueDate.None? && b.dueDate.None? then 0
      else if a.dueDate.None? then 1
      else if b.dueDate.None? then -1
      else a.dueDate.value - b.dueDate.value
    case NameAsc => LexCmp(a.text, b.text)
    case NameDesc => LexCmp(b.text, a.text)
    case ByStatus => Bit(a.completed) - Bit(b.completed)
    case Unsorted => 0
  }

  /** Every comparator is antisymmetric ... */
  lemma CmpAntisymmetric(m: SortMode, a: Task, b: Task)
    ensures SortCmp(m, a, b) == -SortCmp(m, b, a)
  {
    if m == NameAsc || m == NameDesc {
      LexCmpAntisymmetric(a.text, b.text);
    }
  }

  /** ... and transitive, so it is a consistent comparator in the ECMAScript sense. */
  lemma CmpTransitive(m: SortMode, a: Task, b: Task, c: Task)
    requires SortCmp(m, a, b) <= 0 && SortCmp(m, b, c) <= 0
    ensures SortCmp(m, a, c) <= 0
  {
    match m
    case NameAsc => LexCmpTransitive(a.text, b.text, c.text);
    case NameDesc => LexCmpTransitive(c.text, b.text, a.text);
    case _ =>
  }

  /** Ties are an equivalence: two tasks tied with a third are tied with each other. */
  lemma TiedTransitive(m: SortMode, a: Task, b: Task, c: Task)
    requires SortCmp(m, a, b) == 0 && SortCmp(m, b, c) == 0
    ensures SortCmp(m, a, c) == 0
  {
    CmpAntisymmetric(m, a, b);
    CmpAntisymmetric(m, b, c);
    CmpAntisymmetric(m, a, c);
    CmpTransitive(m, a, b, c);
    CmpTransitive(m, c, b, a);
  }

  /** No pair is out of order under the comparator. */
  ghost predicate Sorted(m: SortMode, s: seq<Task>) {
    forall i, j :: 0 <= i < j < |s| ==> SortCmp(m, s[i], s[j]) <= 0
  }

  /** The tasks of `s` that compare equal to `k`, in their order in `s`. */
  function Ties(m: SortMode, s: seq<Task>, k: Task): seq<Task> {
    Filter(s, (t: Task) => SortCmp(m, t, k) == 0)
  }

  /** A sequence in which the tasks tied with one another keep the order they have in `s`. */
  ghost predicate StableFor(m: SortMode, r: seq<Task>, s: seq<Task>) {
    forall k :: Ties(m, r, k) == Ties(m, s, k)
  }

  /** Puts `x` in front of the first element it does not sort after. */
  function Insert(m: SortMode, x: Task, ys: seq<Task>): seq<Task> {
    if ys == [] || SortCmp(m, x, ys[0]) <= 0 then [x] + ys
    else [ys[0]] + Insert(m, x, ys[1..])
  }

  /** A stable sort by the comparator of `m`. */
  function InsertionSort(m: SortMode, s: seq<Task>): seq<Task> {
    if s == [] then [] else Insert(m, s[0], InsertionSort(m, s[1..]))
  }

  /** The third step: the `switch` on the sort key; an unknown key leaves the list alone. */
  function SortTasks(m: SortMode, s: seq<Task>): (r: seq<Task>)
    ensures multiset(r) == multiset(s)
    ensures m == Unsorted ==> r == s
  {
    if m == Unsorted then s
    else
      InsertionSortCorrect(m, s);
      InsertionSort(m, s)
  }

  lemma {:induction false} InsertPermutes(m: SortMode, x: Task, ys: seq<Task>)
    ensures multiset(Insert(m, x, ys)) == multiset{x} + multiset(ys)
  {
    if ys != [] && SortCmp(m, x, ys[0]) > 0 {
      InsertPermutes(m, x, ys[1..]);
      assert ys == [ys[0]] + ys[1..];
    }
  }

  /** A task that sorts no later than every element of a sorted sequence can go in front. */
  lemma ConsSorted(m: SortMode, y: Task, rest: seq<Task>)
    requires Sorted(m, rest)
    requires forall j :: 0 <= j < |rest| ==> SortCmp(m, y, rest[j]) <= 0
    ensures Sorted(m, [y] + rest)
  {
    var r := [y] + rest;
    forall i, j | 0 <= i < j < |r| ensures SortCmp(m, r[i], r[j]) <= 0 {
      assert r[j] == rest[j - 1];
      if i > 0 {
        assert r[i] == rest[i - 1];
      }
    }
  }

  lemma {:induction false} InsertSorted(m: SortMode, x: Task, ys: seq<Task>)
    requires Sorted(m, ys)
    ensures Sorted(m, Insert(m, x, ys))
  {
    if ys == [] || SortCmp(m, x, ys[0]) <= 0 {
      forall j | 0 <= j < |ys| ensures SortCmp(m, x, ys[j]) <= 0 {
        if j > 0 {
          CmpTransitive(m, x, ys[0], ys[j]);
        }
      }
      ConsSorted(m, x, ys);
    } else {
      var y := ys[0];
      var rest := Insert(m, x, ys[1..]);
      InsertSorted(m, x, ys[1..]);
      InsertPermutes(m, x, ys[1..]);
      CmpAntisymmetric(m, x, y);
      forall j | 0 <= j < |rest| ensures SortCmp(m, y, rest[j]) <= 0 {
        assert rest[j] in multiset(rest);
        if rest[j] != x {
          assert rest[j] in ys[1..];
          var k :| 0 <= k < |ys[1..]| && ys[1..][k] == rest[j];
          assert ys[k + 1] == rest[j];
        }
      }
      ConsSorted(m, y, rest);
    }
  }

  lemma {:induction false} InsertTies(m: SortMode, x: Task, ys: seq<Task>, k: Task)
    ensures Ties(m, Insert(m, x, ys), k) == (if SortCmp(m, x, k) == 0 then [x] else []) + Ties(m, ys, k)
  {
    if ys == [] || SortCmp(m, x, ys[0]) <= 0 {
      TiesCons(m, x, ys, k);
    } else {
      var y, rest := ys[0], ys[1..];
      InsertTies(m, x, rest, k);
      TiesCons(m, y, Insert(m, x, rest), k);
      TiesCons(m, y, rest, k);
      assert ys == [y] + rest;
      if SortCmp(m, x, k) == 0 && SortCmp(m, y, k) == 0 {
        CmpAntisymmetric(m, y, k);
        TiedTransitive(m, x, k, y);
      }
    }
  }

  lemma {:induction false} InsertionSortCorrect(m: SortMode, s: seq<Task>)
    ensures multiset(InsertionSort(m, s)) == multiset(s)
    ensures Sorted(m, InsertionSort(m, s))
    ensures StableFor(m, InsertionSort(m, s), s)
  {
    if s != [] {
      var r := InsertionSort(m, s[1..]);
      InsertionSortCorrect(m, s[1..]);
      InsertPermutes(m, s[0], r);
      InsertSorted(m, s[0], r);
      assert s == [s[0]] + s[1..];
      forall k ensures Ties(m, InsertionSort(m, s), k) == Ties(m, s, k) {
        InsertTies(m, s[0], r, k);
        FilterConcat([s[0]], s[1..], (t: Task) => SortCmp(m, t, k) == 0);
      }
    }
  }

  /** `list.sort` with the comparator of `m`: the result is a permutation of the input,
      in the comparator's order, with tied tasks in their prior relative order. */
  lemma SortTasksCorrect(m: SortMode, s: seq<Task>)
    ensures multiset(SortTasks(m, s)) == multiset(s)
    ensures Sorted(m, SortTasks(m, s))
    ensures StableFor(m, SortTasks(m, s), s)
    ensures m == Unsorted ==> SortTasks(m, s) == s
  {
    if m != Unsorted {
      InsertionSortCorrect(m, s);
    }
  }

  lemma SelfTied(m: SortMode, t: Task)
    ensures SortCmp(m, t, t) == 0
  {
    CmpAntisymmetric(m, t, t);
  }

  /** The tied group of `k` in `[x] + s`. */
  lemma TiesCons(m: SortMode, x: Task, s: seq<Task>, k: Task)
    ensures Ties(m, [x] + s, k) == (if SortCmp(m, x, k) == 0 then [x] else []) + Ties(m, s, k)
  {
    assert ([x] + s)[1..] == s;
  }

  /** The head of a non-empty sequence is in its own tied group. */
  lemma HasOwnTies(m: SortMode, s: seq<Task>)
    requires s != []
    ensures Ties(m, s, s[0]) != []
  {
    SelfTied(m, s[0]);
    TiesCons(m, s[0], s[1..], s[0]);
    assert s == [s[0]] + s[1..];
  }

  /** The head of a sorted sequence sorts no later than any of its elements. */
  lemma HeadFirst(m: SortMode, s: seq<Task>, t: Task)
    requires Sorted(m, s) && t in s
    ensures SortCmp(m, s[0], t) <= 0
  {
    var j :| 0 <= j < |s| && s[j] == t;
    if j == 0 { SelfTied(m, t); }
  }

  /** Two sorted sequences whose groups tied with their heads agree start alike. */
  lemma SameHead(m: SortMode, a: seq<Task>, b: seq<Task>)
    requires Sorted(m, a) && Sorted(m, b) && a != [] && b != []
    requires Ties(m, a, a[0]) == Ties(m, b, a[0]) && Ties(m, a, b[0]) == Ties(m, b, b[0])
    ensures a[0] == b[0]
  {
    var x, y := a[0], b[0];
    assert a == [x] + a[1..] && b == [y] + b[1..];
    SelfTied(m, x);
    SelfTied(m, y);
    TiesCons(m, x, a[1..], x);
    TiesCons(m, y, b[1..], y);
    assert x in Ties(m, b, x);
    HeadFirst(m, b, x);
    assert y in Ties(m, a, y);
    HeadFirst(m, a, y);
    CmpAntisymmetric(m, x, y);
    TiesCons(m, y, b[1..], x);
    assert Ties(m, a, x)[0] == x && Ties(m, b, x)[0] == y;
  }

  /** Two sorted sequences with the same tied groups are equal. */
  lemma {:induction false} SortedTiesUnique(m: SortMode, a: seq<Task>, b: seq<Task>)
    requires Sorted(m, a) && Sorted(m, b)
    requires StableFor(m, a, b)
    ensures a == b
  {
    if a == [] || b == [] {
      if a != [] {
        HasOwnTies(m, a);
        assert false;
      } else if b != [] {
        HasOwnTies(m, b);
        assert false;
      }
    } else {
      SameHead(m, a, b);
      SameTails(m, a, b);
      SortedTail(m, a);
      SortedTail(m, b);
      SortedTiesUnique(m, a[1..], b[1..]);
      assert a == [a[0]] + a[1..] && b == [b[0]] + b[1..];
    }
  }

  /** Removing the same head from both keeps the tied groups equal. */
  lemma SameTails(m: SortMode, a: seq<Task>, b: seq<Task>)
    requires a != [] && b != [] && a[0] == b[0] && StableFor(m, a, b)
    ensures StableFor(m, a[1..], b[1..])
  {
    assert a == [a[0]] + a[1..] && b == [b[0]] + b[1..];
    forall k ensures Ties(m, a[1..], k) == Ties(m, b[1..], k) {
      var h := if SortCmp(m, a[0], k) == 0 then [a[0]] else [];
      TiesCons(m, a[0], a[1..], k);
      TiesCons(m, b[0], b[1..], k);
      assert Ties(m, a[1..], k) == Ties(m, a, k)[|h|..];
      assert Ties(m, b[1..], k) == Ties(m, b, k)[|h|..];
    }
  }

  lemma SortedTail(m: SortMode, s: seq<Task>)
    requires Sorted(m, s) && s != []
    ensures Sorted(m, s[1..])
  {
    forall i, j | 0 <= i < j < |s| - 1 ensures SortCmp(m, s[1..][i], s[1..][j]) <= 0 {
      assert s[1..][i] == s[i + 1] && s[1..][j] == s[j + 1];
    }
  }

  /** Stability determines the outcome: every stable sort by the comparator of `m` (as
      ECMAScript 2019 requires of `Array.prototype.sort`) yields `SortTasks(m, s)`. */
  lemma StableSortIsUnique(m: SortMode, s: seq<Task>, r: seq<Task>)
    requires Sorted(m, r) && StableFor(m, r, s)
    ensures r == SortTasks(m, s)
  {
    SortTasksCorrect(m, s);
    SortedTiesUnique(m, r, SortTasks(m, s));
  }

  /** What `Sorted` means for each of the five orders. */
  lemma SortedMeaning(m: SortMode, r: seq<Task>)
    requires Sorted(m, r)
    ensures m == DateAdded ==> forall i, j :: 0 <= i < j < |r| ==> r[i].addedAt >= r[j].addedAt
    ensures m == DueDate ==> forall i, j :: 0 <= i < j < |r| && r[j].dueDate.Some? ==>
      r[i].dueDate.Some? && r[i].dueDate.value <= r[j].dueDate.value
    ensures m == NameAsc ==> forall i, j :: 0 <= i < j < |r| ==> LexCmp(r[i].text, r[j].text) <= 0
    ensures m == NameDesc ==> forall i, j :: 0 <= i < j < |r| ==> LexCmp(r[j].text, r[i].text) <= 0
    ensures m == ByStatus ==> forall i, j :: 0 <= i < j < |r| && r[i].completed ==> r[j].completed
  {
    if m == DueDate {
      forall i, j | 0 <= i < j < |r| && r[j].dueDate.Some?
        ensures r[i].dueDate.Some? && r[i].dueDate.value <= r[j].dueDate.value
      {
        assert SortCmp(m, r[i], r[j]) <= 0;
      }
    }
    if m == ByStatus {
      forall i, j | 0 <= i < j < |r| && r[i].completed ensures r[j].completed {
        assert SortCmp(m, r[i], r[j]) <= 0;
      }
    }
  }

  predicate DistinctTexts(s: seq<Task>) {
    forall i, j :: 0 <= i < j < |s| ==> s[i].text != s[j].text
  }

  /** The tasks of `s` whose text equals that of `k`. */
  function SameText(s: seq<Task>, k: Task): seq<Task> {
    Filter(s, (t: Task) => t.text == k.text)
  }

  /** For both name orders a tie is an equal text. */
  lemma NameTies(m: SortMode, s: seq<Task>, k: Task)
    requires m == NameAsc || m == NameDesc
    ensures Ties(m, s, k) == SameText(s, k)
  {
    SameFilter(s, (t: Task) => SortCmp(m, t, k) == 0, (t: Task) => t.text == k.text);
  }

  lemma {:induction false} SameFilter(s: seq<Task>, p: Task -> bool, q: Task -> bool)
    requires forall t :: p(t) == q(t)
    ensures Filter(s, p) == Filter(s, q)
  {
    if s != [] {
      SameFilter(s[1..], p, q);
    }
  }

  /** With distinct texts, at most one task has the text of `k`. */
  lemma {:induction false} AtMostOneSameText(s: seq<Task>, k: Task)
    requires DistinctTexts(s)
    ensures |SameText(s, k)| <= 1
  {
    if s != [] {
      AtMostOneSameText(s[1..], k);
      if s[0].text == k.text {
        forall t | t in s[1..] ensures t.text != k.text {
          var j :| 0 <= j < |s[1..]| && s[1..][j] == t;
          assert s[j + 1] == t;
        }
        FilterNone(s[1..], (t: Task) => t.text == k.text);
      }
    }
  }

  /** The name-desc comparator is the name-asc comparator with its arguments swapped, so
      when no two texts are equal the name-desc order is the name-asc order reversed. */
  lemma NameDescReversesNameAsc(s: seq<Task>)
    requires DistinctTexts(s)
    ensures SortTasks(NameDesc, s) == Reverse(SortTasks(NameAsc, s))
  {
    var a := SortTasks(NameAsc, s);
    var r := Reverse(a);
    SortTasksCorrect(NameAsc, s);
    assert Sorted(NameDesc, r) by {
      forall i, j | 0 <= i < j < |r| ensures SortCmp(NameDesc, r[i], r[j]) <= 0 {
        assert SortCmp(NameAsc, a[|a| - 1 - j], a[|a| - 1 - i]) <= 0;
      }
    }
    forall k ensures Ties(NameDesc, r, k) == Ties(NameDesc, s, k) {
      NameTies(NameDesc, r, k);
      NameTies(NameDesc, s, k);
      NameTies(NameAsc, a, k);
      NameTies(NameAsc, s, k);
      FilterReverse(a, (t: Task) => t.text == k.text);
      AtMostOneSameText(s, k);
      var f := SameText(s, k);
      assert Reverse(f) == f;
    }
    StableSortIsUnique(NameDesc, s, r);
  }

  /** Whether `t` is shown for the status filter `f` and the stored query `q`. */
  predicate Selected(f: FilterMode, q: string, t: Task) {
    PassesStatus(f, t) && MatchesSearch(q, t)
  }

  /** `getFilteredTasks`: filter by status, then by search, then sort. */
  function FilteredTasks(tasks: seq<Task>, f: FilterMode, m: SortMode, q: string): (r: seq<Task>)
    ensures multiset(r) == multiset(Selection(tasks, f, q))
  {
    SortTasks(m, Selection(tasks, f, q))
  }

  /** The first two steps: the tasks that pass both filters, in their order in `tasks`. */
  function Selection(tasks: seq<Task>, f: FilterMode, q: string): (r: seq<Task>)
    ensures |r| <= |tasks|
    ensures forall t :: t in r <==> t in tasks && Selected(f, q, t)
  {
    SearchFilter(StatusFilter(tasks, f), q)
  }

  /** Both filters work piece by piece, so the selected tasks keep their order in `tasks`. */
  lemma SelectionConcat(a: seq<Task>, b: seq<Task>, f: FilterMode, q: string)
    ensures Selection(a + b, f, q) == Selection(a, f, q) + Selection(b, f, q)
  {
    match f {
      case ShowAll =>
      case ShowCompleted => FilterConcat(a, b, IsDone);
      case ShowPending => FilterConcat(a, b, IsPending);
    }
    if q != [] {
      FilterConcat(StatusFilter(a, f), StatusFilter(b, f), (t: Task) => MatchesSearch(q, t));
    }
  }

  /** The filters keep, with their multiplicity, exactly the selected tasks. */
  lemma SelectionSpec(tasks: seq<Task>, f: FilterMode, q: string)
    ensures forall t :: multiset(Selection(tasks, f, q))[t] == if Selected(f, q, t) then multiset(tasks)[t] else 0
  {
    var s1 := StatusFilter(tasks, f);
    match f {
      case ShowAll =>
      case ShowCompleted => FilterMultiset(tasks, IsDone);
      case ShowPending => FilterMultiset(tasks, IsPending);
    }
    if q == [] {
      forall t ensures MatchesSearch(q, t) { ContainsEmpty(ToLower(t.text)); }
    } else {
      FilterMultiset(s1, (t: Task) => MatchesSearch(q, t));
    }
  }

  /** `getFilteredTasks` shows a permutation of exactly the selected tasks, in the
      order of the sort key, ties kept in list order. */
  lemma FilteredTasksSpec(tasks: seq<Task>, f: FilterMode, m: SortMode, q: string)
    ensures forall t :: multiset(FilteredTasks(tasks, f, m, q))[t] == if Selected(f, q, t) then multiset(tasks)[t] else 0
    ensures forall t :: t in FilteredTasks(tasks, f, m, q) <==> t in tasks && Selected(f, q, t)
    ensures Sorted(m, FilteredTasks(tasks, f, m, q))
    ensures StableFor(m, FilteredTasks(tasks, f, m, q), Selection(tasks, f, q))
  {
    SelectionSpec(tasks, f, q);
    SortTasksCorrect(m, Selection(tasks, f, q));
    var r := FilteredTasks(tasks, f, m, q);
    forall t ensures t in r <==> t in tasks && Selected(f, q, t) {
      assert t in r <==> multiset(r)[t] > 0;
      assert t in tasks <==> multiset(tasks)[t] > 0;
    }
  }

  /** With the "all" filter, an empty query and an unrecognised sort key the list is shown as is. */
  lemma DefaultsShowEverything(tasks: seq<Task>, name: string)
    requires name != "date-added" && name != "due-date" && name != "name-asc"
    requires name != "name-desc" && name != "status"
    ensures FilteredTasks(tasks, ShowAll, ParseSort(name), []) == tasks
  {
  }

  /** Filter "all" and any unrecognised filter name keep every task; an empty query
      keeps every task. */
  lemma FilterNoOps(tasks: seq<Task>, name: string, q: string)
    requires name != "completed" && name != "pending"
    ensures StatusFilter(tasks, ParseFilter(name)) == tasks
    ensures SearchFilter(tasks, []) == tasks
    ensures forall t :: Selected(ParseFilter(name), [], t)
  {
    forall t ensures MatchesSearch([], t) { ContainsEmpty(ToLower(t.text)); }
  }

  /** The query `handleSearch` stores is the input trimmed and lower-cased, in either
      order; it is trimmed and has no upper-case letter. */
  lemma NormalizeQueryFacts(value: string)
    ensures NormalizeQuery(value) == ToLower(Trim(value))
    ensures Trim(NormalizeQuery(value)) == NormalizeQuery(value)
    ensures forall i :: 0 <= i < |NormalizeQuery(value)| ==> !IsUpper(NormalizeQuery(value)[i])
  {
    TrimLowerCommute(value);
    var l := ToLower(value);
    TrimIdempotent(l);
    TrimChars(l);
    LowerHasNoUpper(value);
  }

  /** The figures `renderStats` shows. */
  datatype Stats = Stats(total: nat, completed: nat, pending: int, progress: int)

  /** `Math.round(completed / total * 100)`, or 0 for an empty list: half-up rounding
      of the percentage, done in integers. */
  function Progress(completed: nat, total: nat): (p: int)
    ensures total == 0 ==> p == 0
    ensures total > 0 ==> 2 * total * p <= 200 * completed + total < 2 * total * (p + 1)
    ensures total > 0 && completed <= total ==> 0 <= p <= 100
  {
    if total == 0 then 0
    else
      var p := (200 * completed + total) / (2 * total);
      DivBounds(200 * completed + total, 2 * total);
      if completed <= total then
        DivBelow(200 * completed + total, 2 * total, 101);
        p
      else p
  }

  /** Euclidean division by a positive divisor brackets the dividend. */
  lemma DivBounds(a: nat, b: nat)
    requires b > 0
    ensures b * (a / b) <= a < b * (a / b + 1)
  {
  }

  /** Multiplying by a positive number keeps a strict order. */
  lemma MulLess(b: nat, x: int, y: int)
    requires b > 0 && x < y
    ensures b * x < b * y
  {
  }

  lemma DivBelow(a: nat, b: nat, q: int)
    requires b > 0 && a < b * q
    ensures a / b < q
  {
    DivBounds(a, b);
    if a / b >= q {
      if a / b > q { MulLess(b, q, a / b); }
    }
  }

  lemma DivAbove(a: nat, b: nat, q: int)
    requires b > 0 && b * q <= a
    ensures q <= a / b
  {
    DivBounds(a, b);
    if a / b < q {
      if a / b + 1 < q { MulLess(b, a / b + 1, q); }
    }
  }

  /** The counts of `renderStats`. */
  function RenderStats(tasks: seq<Task>): (st: Stats)
    ensures st.total == |tasks| && st.completed + st.pending == st.total
    ensures st.completed == |Filter(tasks, IsDone)| && st.pending == |Filter(tasks, IsPending)|
    ensures st.total == 0 ==> st.progress == 0
    ensures 0 <= st.progress <= 100
    ensures st.total > 0 ==> 2 * st.total * st.progress <= 200 * st.completed + st.total < 2 * st.total * (st.progress + 1)
  {
    var total := |tasks|;
    var completed := |Filter(tasks, IsDone)|;
    FilterComplement(tasks, IsDone, IsPending);
    Stats(total, completed, total - completed, Progress(completed, total))
  }

  /** No task done gives 0 percent; all done gives 100 percent. */
  lemma ProgressEnds(tasks: seq<Task>)
    ensures RenderStats(tasks).completed == 0 ==> RenderStats(tasks).progress == 0
    ensures |tasks| > 0 && RenderStats(tasks).pending == 0 ==> RenderStats(tasks).progress == 100
  {
    var st := RenderStats(tasks);
    var t := st.total;
    if t > 0 && st.completed == 0 {
      assert st.progress == t / (2 * t);
      DivBelow(t, 2 * t, 1);
    }
    if t > 0 && st.pending == 0 {
      assert st.progress == (201 * t) / (2 * t);
      DivAbove(201 * t, 2 * t, 100);
    }
  }
}
