/** The query engine behind `filterTasks`: a search over four text fields, a
    status filter, and a stable sort on one of four keys, applied in that order
    to a copy of the task list. */
module Query {
  import opened Tasks
  import opened Seqs
  import opened Text
  import opened Sorting

  /** The `filter` argument; any other string behaves like 'all'. */
  datatype StatusFilter = All | Pending | Completed | Overdue

  /** The `sortBy` argument; any other string behaves like 'created'. */
  datatype SortKey = ByCreated | ByDueDate | ByPriority | ByTitle

  /** The `switch (filter)` dispatch: three names select a filter, every other
      string falls through to 'all'. */
  function StatusFilterOf(name: string): (f: StatusFilter)
    ensures f == Pending <==> name == "pending"
    ensures f == Completed <==> name == "completed"
    ensures f == Overdue <==> name == "overdue"
  {
    if name == "pending" then Pending
    else if name == "completed" then Completed
    else if name == "overdue" then Overdue
    else All
  }

  /** The `switch (sortBy)` dispatch: three names select a key, every other
      string, 'created' among them, sorts by creation time. */
  function SortKeyOf(name: string): (k: SortKey)
    ensures k == ByDueDate <==> name == "dueDate"
    ensures k == ByPriority <==> name == "priority"
    ensures k == ByTitle <==> name == "title"
    ensures name == "created" ==> k == ByCreated
  {
    if name == "dueDate" then ByDueDate
    else if name == "priority" then ByPriority
    else if name == "title" then ByTitle
    else ByCreated
  }

  // ---------------------------------------------------------------- search

  /** The search test for one task, where `term` is already lower-cased: the term
      occurs in the lower-cased title, description or category, or in one of the tags. */
  predicate MatchesSearch(t: Task, term: string)
    ensures term == "" ==> MatchesSearch(t, term)
  {
    || Includes(Lower(t.title), term)
    || Includes(Lower(t.description), term)
    || Includes(Lower(t.category), term)
    || exists k :: 0 <= k < |t.tags| && Includes(Lower(t.tags[k]), term)
  }

  /** Step 1: an empty search term keeps every task. */
  function SearchStep(tasks: seq<Task>, searchTerm: string): (r: seq<Task>)
    ensures forall t :: t in r <==> t in tasks && (searchTerm == "" || MatchesSearch(t, Lower(searchTerm)))
  {
    if searchTerm == "" then tasks
    else
      var term := Lower(searchTerm);
      Filter(tasks, t => MatchesSearch(t, term))
  }

  /** The search ignores the case of the term: a lower-cased term finds the same tasks. */
  lemma SearchCaseInsensitive(tasks: seq<Task>, searchTerm: string)
    ensures SearchStep(tasks, Lower(searchTerm)) == SearchStep(tasks, searchTerm)
  {
    LowerIdempotent(searchTerm);
    if searchTerm != "" {
      assert |Lower(searchTerm)| == |searchTerm|;
    }
  }

  // ---------------------------------------------------------------- status

  /** What the status filter demands of one task. */
  predicate PassesStatus(filter: StatusFilter, t: Task, now: int)
    ensures filter == All ==> PassesStatus(filter, t, now)
    ensures filter == Overdue && PassesStatus(filter, t, now) ==> !t.completed
  {
    match filter
    case All => true
    case Pending => !t.completed
    case Completed => t.completed
    case Overdue => IsOverdue(t, now)
  }

  /** Step 2: the `switch (filter)`. */
  function StatusStep(filter: StatusFilter, tasks: seq<Task>, now: int): (r: seq<Task>)
    ensures forall t :: t in r <==> t in tasks && PassesStatus(filter, t, now)
    ensures filter == All ==> r == tasks
  {
    match filter
    case Pending => Filter(tasks, (t: Task) => !t.completed)
    case Completed => Filter(tasks, (t: Task) => t.completed)
    case Overdue => Filter(tasks, t => IsOverdue(t, now))
    case All => tasks
  }

  // ---------------------------------------------------------------- comparator

  /** `localeCompare`, taken as the lexicographic order on character codes. */
  function LexCompare(a: string, b: string): (c: int)
    ensures -1 <= c <= 1
    decreases |a|
  {
    if a == [] then (if b == [] then 0 else -1)
    else if b == [] then 1
    else if a[0] < b[0] then -1
    else if a[0] > b[0] then 1
    else LexCompare(a[1..], b[1..])
  }

  lemma {:induction false} LexAntisymmetric(a: string, b: string)
    ensures LexCompare(a, b) == -LexCompare(b, a)
    decreases |a|
  {
    if a != [] && b != [] && a[0] == b[0] {
      LexAntisymmetric(a[1..], b[1..]);
    }
  }

  lemma {:induction false} LexTransitive(a: string, b: string, c: string)
    requires LexCompare(a, b) <= 0 && LexCompare(b, c) <= 0
    ensures LexCompare(a, c) <= 0
    decreases |a|
  {
    if a != [] && b != [] && c != [] && a[0] == b[0] && b[0] == c[0] {
      LexTransitive(a[1..], b[1..], c[1..]);
    }
  }

  /** The comparator passed to `sort`: negative puts `a` first, positive puts `b` first. */
  function Compare(key: SortKey, a: Task, b: Task): (c: int)
    ensures a == b ==> c == 0
  {
    match key
    case ByDueDate =>
      if a.dueDate == NoDueDate && b.dueDate == NoDueDate then 0
      else if a.dueDate == NoDueDate then 1
      else if b.dueDate == NoDueDate then -1
      else a.dueDate.day - b.dueDate.day
    case ByPriority => Rank(b.priority) - Rank(a.priority)
    case ByTitle =>
      LexAntisymmetric(a.title, b.title);
      LexCompare(a.title, b.title)
    case ByCreated => b.createdAt - a.createdAt
  }

  /** Swapping the arguments negates the comparison, for every key. */
  lemma CompareAntisymmetric(key: SortKey, a: Task, b: Task)
    ensures Compare(key, a, b) == -Compare(key, b, a)
  {
    if key == ByTitle {
      LexAntisymmetric(a.title, b.title);
    }
  }

  /** "Not after" is transitive, for every key. */
  lemma CompareTransitive(key: SortKey, a: Task, b: Task, c: Task)
    requires Compare(key, a, b) <= 0 && Compare(key, b, c) <= 0
    ensures Compare(key, a, c) <= 0
  {
    if key == ByTitle {
      LexTransitive(a.title, b.title, c.title);
    }
  }

  /** The comparator for `key` as a value, the form `sort` receives it in. Every
      key gives a comparator that `sort` can rely on. */
  function Comparator(key: SortKey): (cmp: (Task, Task) -> int)
    ensures Consistent(cmp)
  {
    var cmp := (a: Task, b: Task) => Compare(key, a, b);
    assert Consistent(cmp) by {
      forall a: Task, b: Task
        ensures cmp(a, b) == -cmp(b, a)
      {
        CompareAntisymmetric(key, a, b);
      }
      forall a: Task, b: Task, c: Task | cmp(a, b) <= 0 && cmp(b, c) <= 0
        ensures cmp(a, c) <= 0
      {
        CompareTransitive(key, a, b, c);
      }
    }
    cmp
  }

  // ---------------------------------------------------------------- the query

  /** The tasks that survive the search and the status filter, in input order. */
  function Selected(tasks: seq<Task>, filter: StatusFilter, searchTerm: string, now: int): (r: seq<Task>)
    ensures forall t :: t in r <==>
              t in tasks && (searchTerm == "" || MatchesSearch(t, Lower(searchTerm))) && PassesStatus(filter, t, now)
  {
    StatusStep(filter, SearchStep(tasks, searchTerm), now)
  }

  /** The list `filterTasks` returns: search, then status filter, then sort. */
  function View(tasks: seq<Task>, filter: StatusFilter, searchTerm: string, sortBy: SortKey, now: int): (r: seq<Task>)
    ensures multiset(r) == multiset(Selected(tasks, filter, searchTerm, now))
  {
    SortByPermutes(Comparator(sortBy), Selected(tasks, filter, searchTerm, now));
    SortBy(Comparator(sortBy), Selected(tasks, filter, searchTerm, now))
  }

  /** The search step is a filter by the search test, an empty term included. */
  lemma SearchStepIsFilter(tasks: seq<Task>, searchTerm: string, p: Task -> bool)
    requires forall t :: p(t) == (searchTerm == "" || MatchesSearch(t, Lower(searchTerm)))
    ensures SearchStep(tasks, searchTerm) == Filter(tasks, p)
  {
    if searchTerm == "" {
      FilterAllKept(tasks, p);
    } else {
      var term := Lower(searchTerm);
      FilterSamePredicate(tasks, t => MatchesSearch(t, term), p);
    }
  }

  /** The status step is a filter by the status test, 'all' included. */
  lemma StatusStepIsFilter(filter: StatusFilter, s: seq<Task>, now: int, p: Task -> bool)
    requires forall t :: p(t) == PassesStatus(filter, t, now)
    ensures StatusStep(filter, s, now) == Filter(s, p)
  {
    match filter
    case All => FilterAllKept(s, p);
    case Pending => FilterSamePredicate(s, (t: Task) => !t.completed, p);
    case Completed => FilterSamePredicate(s, (t: Task) => t.completed, p);
    case Overdue => FilterSamePredicate(s, t => IsOverdue(t, now), p);
  }

  /** The search and the status filter keep the surviving tasks in their input order. */
  lemma SelectedKeepsOrder(tasks: seq<Task>, filter: StatusFilter, searchTerm: string, now: int)
    ensures IsSubsequence(Selected(tasks, filter, searchTerm, now), tasks)
  {
    var found := (t: Task) => searchTerm == "" || MatchesSearch(t, Lower(searchTerm));
    var passes := (t: Task) => PassesStatus(filter, t, now);
    var both := (t: Task) => found(t) && passes(t);
    SearchStepIsFilter(tasks, searchTerm, found);
    StatusStepIsFilter(filter, SearchStep(tasks, searchTerm), now, passes);
    FilterFilter(tasks, found, passes, both);
    FilterIsSubsequence(tasks, both);
  }

  /** The two filtering steps never duplicate a task. */
  lemma SelectedSubMultiset(tasks: seq<Task>, filter: StatusFilter, searchTerm: string, now: int)
    ensures multiset(Selected(tasks, filter, searchTerm, now)) <= multiset(tasks)
  {
    var found := SearchStep(tasks, searchTerm);
    if searchTerm != "" {
      var term := Lower(searchTerm);
      FilterSubMultiset(tasks, t => MatchesSearch(t, term));
    }
    match filter
    case Pending => FilterSubMultiset(found, (t: Task) => !t.completed);
    case Completed => FilterSubMultiset(found, (t: Task) => t.completed);
    case Overdue => FilterSubMultiset(found, t => IsOverdue(t, now));
    case All =>
  }

  /** The query never adds or alters a task: it returns exactly the tasks that
      pass the search and the status filter, at most as often as they occur,
      in the comparator's order. */
  lemma ViewContents(tasks: seq<Task>, filter: StatusFilter, searchTerm: string, sortBy: SortKey, now: int)
    ensures var v := View(tasks, filter, searchTerm, sortBy, now);
      && (forall t :: t in v <==>
            t in tasks && (searchTerm == "" || MatchesSearch(t, Lower(searchTerm))) && PassesStatus(filter, t, now))
      && multiset(v) <= multiset(tasks)
      && Sorted(Comparator(sortBy), v)
  {
    var selected := Selected(tasks, filter, searchTerm, now);
    SortByPermutes(Comparator(sortBy), selected);
    SelectedSubMultiset(tasks, filter, searchTerm, now);
    SortBySorted(Comparator(sortBy), selected);
    assert forall t :: t in View(tasks, filter, searchTerm, sortBy, now) <==> t in multiset(selected);
  }

  /** With no search term and the 'all' filter, the result is a permutation of the input. */
  lemma ViewAllIsPermutation(tasks: seq<Task>, sortBy: SortKey, now: int)
    ensures multiset(View(tasks, All, "", sortBy, now)) == multiset(tasks)
    ensures |View(tasks, All, "", sortBy, now)| == |tasks|
  {
    SortByPermutes(Comparator(sortBy), tasks);
  }

  /** What ordering by each key's comparator means for every pair of tasks. */
  lemma SortedMeaning(key: SortKey, v: seq<Task>)
    requires Sorted(Comparator(key), v)
    ensures key == ByPriority ==>
              forall i, j :: 0 <= i < j < |v| ==> Rank(v[i].priority) >= Rank(v[j].priority)
    ensures key == ByDueDate ==>
              forall i, j :: 0 <= i < j < |v| && v[j].dueDate.Due? ==>
                v[i].dueDate.Due? && v[i].dueDate.day <= v[j].dueDate.day
    ensures key == ByCreated ==>
              forall i, j :: 0 <= i < j < |v| ==> v[i].createdAt >= v[j].createdAt
    ensures key == ByTitle ==>
              forall i, j :: 0 <= i < j < |v| ==> LexCompare(v[i].title, v[j].title) <= 0
  {
    forall i, j | 0 <= i < j < |v|
      ensures Compare(key, v[i], v[j]) <= 0
    {
      assert Comparator(key)(v[i], v[j]) <= 0;
    }
  }

  /** What each sort key guarantees about every pair of tasks in the result. */
  lemma ViewOrder(tasks: seq<Task>, filter: StatusFilter, searchTerm: string, sortBy: SortKey, now: int)
    ensures var v := View(tasks, filter, searchTerm, sortBy, now);
      && (sortBy == ByPriority ==>
            forall i, j :: 0 <= i < j < |v| ==> Rank(v[i].priority) >= Rank(v[j].priority))
      && (sortBy == ByDueDate ==>
            forall i, j :: 0 <= i < j < |v| && v[j].dueDate.Due? ==>
              v[i].dueDate.Due? && v[i].dueDate.day <= v[j].dueDate.day)
      && (sortBy == ByCreated ==>
            forall i, j :: 0 <= i < j < |v| ==> v[i].createdAt >= v[j].createdAt)
      && (sortBy == ByTitle ==>
            forall i, j :: 0 <= i < j < |v| ==> LexCompare(v[i].title, v[j].title) <= 0)
  {
    var selected := Selected(tasks, filter, searchTerm, now);
    SortBySorted(Comparator(sortBy), selected);
    SortedMeaning(sortBy, SortBy(Comparator(sortBy), selected));
  }

  /** Tasks that tie under the sort key keep the relative order they had in the input. */
  lemma ViewStable(tasks: seq<Task>, filter: StatusFilter, searchTerm: string, sortBy: SortKey, now: int, z: Task)
    ensures Filter(View(tasks, filter, searchTerm, sortBy, now), TiedWith(Comparator(sortBy), z))
         == Filter(Selected(tasks, filter, searchTerm, now), TiedWith(Comparator(sortBy), z))
  {
    SortByStable(Comparator(sortBy), Selected(tasks, filter, searchTerm, now), z);
  }

  /** The result does not depend on which stable sort the engine runs: any list
      in the key's order that keeps every group of tied tasks in its input order
      is the query's result. */
  lemma ViewUnique(tasks: seq<Task>, filter: StatusFilter, searchTerm: string, sortBy: SortKey, now: int, r: seq<Task>)
    requires Sorted(Comparator(sortBy), r)
    requires forall z :: Filter(r, TiedWith(Comparator(sortBy), z))
                      == Filter(Selected(tasks, filter, searchTerm, now), TiedWith(Comparator(sortBy), z))
    ensures r == View(tasks, filter, searchTerm, sortBy, now)
  {
    StableSortUnique(Comparator(sortBy), Selected(tasks, filter, searchTerm, now), r);
  }
}
