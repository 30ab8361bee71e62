/** The task store of `TaskService`: every operation reads the whole list kept
    under one storage key, changes it, and writes it back. The list operations
    are first given as functions on sequences, with their properties; the class
    then performs them step by step against its storage field. */
module TaskStore {
  import opened Tasks
  import opened Seqs
  import opened Query
  import Sorting

  /** A `taskData` or `updates` object: any field may be missing. `id`,
      `createdAt` and `updatedAt` are never taken from it. */
  datatype Fields = Fields(
    title: Option<string>,
    description: Option<string>,
    priority: Option<Priority>,
    category: Option<string>,
    dueDate: Option<DueDate>,
    tags: Option<seq<string>>,
    completed: Option<bool>)

  /** The update that changes nothing but the timestamp. */
  const NoChanges := Fields(None, None, None, None, None, None, None)

  /** `value || fallback` for a possibly missing string: a missing or empty
      string yields the fallback. */
  function StringOr(value: Option<string>, fallback: string): (r: string)
    ensures value.Some? && value.value != "" ==> r == value.value
    ensures value.None? || value.value == "" ==> r == fallback
  {
    if value.Some? && value.value != "" then value.value else fallback
  }

  // ---------------------------------------------------------------- create

  /** The record `createTask` builds: missing fields take their defaults, the
      task starts pending, and both timestamps are the creation time. */
  function NewTask(data: Fields, id: string, now: int): (t: Task)
    ensures t.id == id && !t.completed
    ensures t.createdAt == now && t.updatedAt == now
    ensures t.title == (if data.title.Some? then data.title.value else "")
    ensures data.description.None? ==> t.description == ""
    ensures data.description.Some? ==> t.description == data.description.value
    ensures data.priority.None? ==> t.priority == Medium
    ensures data.priority.Some? ==> t.priority == data.priority.value
    ensures t.category != ""
    ensures data.category.None? || data.category.value == "" ==> t.category == "personal"
    ensures data.category.Some? && data.category.value != "" ==> t.category == data.category.value
    ensures data.dueDate.None? ==> t.dueDate == NoDueDate
    ensures data.dueDate.Some? ==> t.dueDate == data.dueDate.value
    ensures data.tags.None? ==> t.tags == []
    ensures data.tags.Some? ==> t.tags == data.tags.value
  {
    Task(
      id,
      if data.title.Some? then data.title.value else "",
      StringOr(data.description, ""),
      if data.priority.Some? then data.priority.value else Medium,
      StringOr(data.category, "personal"),
      if data.dueDate.Some? then data.dueDate.value else NoDueDate,
      if data.tags.Some? then data.tags.value else [],
      false,
      now,
      now)
  }

  /** Prepending a task with a fresh id keeps the ids unique. */
  lemma PrependFresh(t: Task, s: seq<Task>)
    requires UniqueIds(s) && !HasId(s, t.id)
    ensures UniqueIds([t] + s)
  {
    var r := [t] + s;
    forall i, j | 0 <= i < j < |r|
      ensures r[i].id != r[j].id
    {
      if i == 0 {
        assert r[j] == s[j - 1];
      } else {
        assert r[i] == s[i - 1] && r[j] == s[j - 1];
      }
    }
  }

  // ---------------------------------------------------------------- find

  /** `findIndex` on the id: the first position holding `id`, or -1. */
  function FindIndex(s: seq<Task>, id: string): (r: int)
    ensures -1 <= r < |s|
    ensures r == -1 <==> !HasId(s, id)
    ensures r >= 0 ==> s[r].id == id && forall k :: 0 <= k < r ==> s[k].id != id
    decreases |s|
  {
    if s == [] then -1
    else if s[0].id == id then 0
    else
      var k := FindIndex(s[1..], id);
      if k == -1 then
        assert forall j :: 1 <= j < |s| ==> s[j] == s[1..][j - 1];
        -1
      else
        assert s[k + 1] == s[1..][k];
        k + 1
  }

  /** A list whose ids agree position by position with another's has its matches
      in the same places. */
  lemma FindIndexSameIds(s: seq<Task>, r: seq<Task>, id: string)
    requires |r| == |s| && forall k :: 0 <= k < |s| ==> r[k].id == s[k].id
    ensures FindIndex(r, id) == FindIndex(s, id)
  {
    var i, j := FindIndex(s, id), FindIndex(r, id);
    if i != -1 {
      assert r[i].id == id;
    }
    if j != -1 {
      assert s[j].id == id;
    }
  }

  /** A list with the same ids position by position keeps unique ids. */
  lemma UniqueSameIds(s: seq<Task>, r: seq<Task>)
    requires UniqueIds(s)
    requires |r| == |s| && forall k :: 0 <= k < |s| ==> r[k].id == s[k].id
    ensures UniqueIds(r)
  {
  }

  // ---------------------------------------------------------------- update

  /** `{ ...t, ...updates, updatedAt: now }`: present fields replace the old ones. */
  function ApplyPatch(t: Task, p: Fields, now: int): (u: Task)
    ensures u.id == t.id && u.createdAt == t.createdAt && u.updatedAt == now
    ensures u.title == (if p.title.Some? then p.title.value else t.title)
    ensures u.description == (if p.description.Some? then p.description.value else t.description)
    ensures u.priority == (if p.priority.Some? then p.priority.value else t.priority)
    ensures u.category == (if p.category.Some? then p.category.value else t.category)
    ensures u.dueDate == (if p.dueDate.Some? then p.dueDate.value else t.dueDate)
    ensures u.tags == (if p.tags.Some? then p.tags.value else t.tags)
    ensures u.completed == (if p.completed.Some? then p.completed.value else t.completed)
  {
    t.(
      title := if p.title.Some? then p.title.value else t.title,
      description := if p.description.Some? then p.description.value else t.description,
      priority := if p.priority.Some? then p.priority.value else t.priority,
      category := if p.category.Some? then p.category.value else t.category,
      dueDate := if p.dueDate.Some? then p.dueDate.value else t.dueDate,
      tags := if p.tags.Some? then p.tags.value else t.tags,
      completed := if p.completed.Some? then p.completed.value else t.completed,
      updatedAt := now)
  }

  /** Applying the same updates again changes nothing more. */
  lemma ApplyPatchIdempotent(t: Task, p: Fields, now: int)
    ensures ApplyPatch(ApplyPatch(t, p, now), p, now) == ApplyPatch(t, p, now)
  {
  }

  /** Updates without any field only touch `updatedAt`. */
  lemma ApplyNoChanges(t: Task, now: int)
    ensures ApplyPatch(t, NoChanges, now) == t.(updatedAt := now)
  {
  }

  /** The list `updateTask` writes back: the first task with `id` patched in place. */
  function Updated(s: seq<Task>, id: string, p: Fields, now: int): (r: seq<Task>)
    ensures |r| == |s|
  {
    var i := FindIndex(s, id);
    if i == -1 then s else s[i := ApplyPatch(s[i], p, now)]
  }

  /** Only the first task with the id changes; it keeps its place and its id, and
      every other task, and the length, stay as they were. */
  lemma UpdatedChangesOnlyMatch(s: seq<Task>, id: string, p: Fields, now: int)
    ensures var r, i := Updated(s, id, p, now), FindIndex(s, id);
      && |r| == |s|
      && (i == -1 ==> r == s)
      && (i != -1 ==> r[i] == ApplyPatch(s[i], p, now))
      && (forall k :: 0 <= k < |s| && k != i ==> r[k] == s[k])
      && (forall k :: 0 <= k < |s| ==> r[k].id == s[k].id)
      && FindIndex(r, id) == i
  {
    FindIndexSameIds(s, Updated(s, id, p, now), id);
  }

  // ---------------------------------------------------------------- delete

  /** The list `deleteTask` writes back: every task whose id differs, in order. */
  function DeleteById(s: seq<Task>, id: string): (r: seq<Task>)
    ensures !HasId(r, id)
    ensures forall t :: t in r <==> t in s && t.id != id
  {
    var r := Filter(s, (t: Task) => t.id != id);
    assert forall k :: 0 <= k < |r| ==> r[k] in r;
    r
  }

  /** The remaining tasks keep their relative order. */
  lemma DeleteKeepsOrder(s: seq<Task>, id: string)
    ensures IsSubsequence(DeleteById(s, id), s)
  {
    FilterIsSubsequence(s, (t: Task) => t.id != id);
  }

  /** Deleting the same id twice gives what deleting it once gives. */
  lemma DeleteIdempotent(s: seq<Task>, id: string)
    ensures DeleteById(DeleteById(s, id), id) == DeleteById(s, id)
  {
    var r := DeleteById(s, id);
    assert forall k :: 0 <= k < |r| ==> r[k] in r;
    FilterAllKept(r, (t: Task) => t.id != id);
  }

  /** With unique ids, deleting a present id removes exactly one task, and
      deleting an absent id removes none. */
  lemma {:induction false} DeleteCount(s: seq<Task>, id: string)
    requires UniqueIds(s)
    ensures |DeleteById(s, id)| == |s| - (if HasId(s, id) then 1 else 0)
    decreases |s|
  {
    if s != [] {
      var tail := s[1..];
      assert UniqueIds(tail);
      DeleteCount(tail, id);
      assert s == [s[0]] + tail;
      assert DeleteById(s, id) == Filter([s[0]], (t: Task) => t.id != id) + DeleteById(tail, id) by {
        FilterConcat([s[0]], tail, (t: Task) => t.id != id);
      }
      if s[0].id == id {
        assert HasId(s, id);
        assert !HasId(tail, id);
      } else {
        assert HasId(s, id) == HasId(tail, id) by {
          if HasId(s, id) {
            var k :| 0 <= k < |s| && s[k].id == id;
            assert tail[k - 1].id == id;
          }
          if HasId(tail, id) {
            var k :| 0 <= k < |tail| && tail[k].id == id;
            assert s[k + 1].id == id;
          }
        }
      }
    }
  }

  /** Keeping a subset of the tasks keeps the ids unique. */
  lemma {:induction false} FilterKeepsUnique(s: seq<Task>, p: Task -> bool)
    requires UniqueIds(s)
    ensures UniqueIds(Filter(s, p))
    decreases |s|
  {
    if s != [] {
      var tail := s[1..];
      assert UniqueIds(tail);
      FilterKeepsUnique(tail, p);
      var rest := Filter(tail, p);
      if p(s[0]) {
        forall k | 0 <= k < |rest|
          ensures rest[k].id != s[0].id
        {
          assert rest[k] in tail;
          var m :| 0 <= m < |tail| && tail[m] == rest[k];
          assert s[m + 1] == tail[m];
        }
        PrependFresh(s[0], rest);
      }
    }
  }

  // ---------------------------------------------------------------- toggle

  /** What `toggleComplete` does to the task it finds. */
  function Toggle(t: Task, now: int): (u: Task)
    ensures u.completed != t.completed && u.updatedAt == now
    ensures u.id == t.id && u.title == t.title && u.description == t.description
    ensures u.priority == t.priority && u.category == t.category && u.dueDate == t.dueDate
    ensures u.tags == t.tags && u.createdAt == t.createdAt
  {
    t.(completed := !t.completed, updatedAt := now)
  }

  /** The list `toggleComplete` writes back: the first task with `id` toggled in place. */
  function Toggled(s: seq<Task>, id: string, now: int): (r: seq<Task>)
    ensures |r| == |s|
  {
    var i := FindIndex(s, id);
    if i == -1 then s else s[i := Toggle(s[i], now)]
  }

  /** Only the first task with the id changes, and only in its completion flag
      and its timestamp. */
  lemma ToggledChangesOnlyMatch(s: seq<Task>, id: string, now: int)
    ensures var r, i := Toggled(s, id, now), FindIndex(s, id);
      && |r| == |s|
      && (i == -1 ==> r == s)
      && (i != -1 ==> r[i] == s[i].(completed := !s[i].completed, updatedAt := now))
      && (forall k :: 0 <= k < |s| && k != i ==> r[k] == s[k])
      && (forall k :: 0 <= k < |s| ==> r[k].id == s[k].id)
      && FindIndex(r, id) == i
  {
    FindIndexSameIds(s, Toggled(s, id, now), id);
  }

  /** Toggling twice restores every task's completion flag; the list differs from
      the original in the matched task's timestamp at most. */
  lemma ToggleTwice(s: seq<Task>, id: string, now1: int, now2: int)
    ensures var r, i := Toggled(Toggled(s, id, now1), id, now2), FindIndex(s, id);
      && |r| == |s|
      && (forall k :: 0 <= k < |s| ==> r[k].completed == s[k].completed)
      && (i == -1 ==> r == s)
      && (i != -1 ==> r == s[i := s[i].(updatedAt := now2)])
  {
    var once := Toggled(s, id, now1);
    var i := FindIndex(s, id);
    ToggledChangesOnlyMatch(s, id, now1);
    if i != -1 {
      assert FindIndex(once, id) == i;
      assert once == s[i := Toggle(s[i], now1)];
      assert Toggled(once, id, now2) == once[i := Toggle(once[i], now2)];
      assert Toggle(Toggle(s[i], now1), now2) == s[i].(updatedAt := now2);
    }
  }

  // ---------------------------------------------------------------- timestamps

  /** Every task was created no later than its last change, and changed no later
      than `now`. */
  predicate StampsUpTo(s: seq<Task>, now: int)
  {
    forall k :: 0 <= k < |s| ==> s[k].createdAt <= s[k].updatedAt <= now
  }

  /** A task created at `now`, put in front of a list stamped up to `now`, keeps
      the list's stamps in order. */
  lemma CreateKeepsStamps(data: Fields, id: string, s: seq<Task>, now: int)
    requires StampsUpTo(s, now)
    ensures StampsUpTo([NewTask(data, id, now)] + s, now)
  {
    var r := [NewTask(data, id, now)] + s;
    forall k | 1 <= k < |r|
      ensures r[k].createdAt <= r[k].updatedAt <= now
    {
      assert r[k] == s[k - 1];
    }
  }

  /** An update at `now` moves the patched task's `updatedAt` forward, never
      before its creation, and keeps the list's stamps in order. */
  lemma UpdateKeepsStamps(s: seq<Task>, id: string, p: Fields, now: int)
    requires StampsUpTo(s, now)
    ensures StampsUpTo(Updated(s, id, p, now), now)
    ensures var i := FindIndex(s, id);
      i != -1 ==> s[i].updatedAt <= Updated(s, id, p, now)[i].updatedAt == now
  {
    UpdatedChangesOnlyMatch(s, id, p, now);
  }

  /** A toggle at `now` moves the toggled task's `updatedAt` forward, never
      before its creation, and keeps the list's stamps in order. */
  lemma ToggleKeepsStamps(s: seq<Task>, id: string, now: int)
    requires StampsUpTo(s, now)
    ensures StampsUpTo(Toggled(s, id, now), now)
    ensures var i := FindIndex(s, id);
      i != -1 ==> s[i].updatedAt <= Toggled(s, id, now)[i].updatedAt == now
  {
    ToggledChangesOnlyMatch(s, id, now);
  }

  /** Deleting keeps the stamps of the remaining tasks in order. */
  lemma DeleteKeepsStamps(s: seq<Task>, id: string, now: int)
    requires StampsUpTo(s, now)
    ensures StampsUpTo(DeleteById(s, id), now)
  {
    var r := DeleteById(s, id);
    forall k | 0 <= k < |r|
      ensures r[k].createdAt <= r[k].updatedAt <= now
    {
      assert r[k] in r;
    }
  }

  // ---------------------------------------------------------------- the service

  /** Writing one key leaves every other key as it was. */
  lemma OtherKeysKept<K, V>(m: map<K, V>, key: K, v: V)
    ensures m[key := v] - {key} == m - {key}
  {
  }

  /** `TaskService`: the storage it reads and writes is the field `storage`, a map
      from storage key to the list stored there. A key that is missing, or whose
      text does not parse, reads as the empty list. */
  class TaskService {
    const storageKey: string
    var storage: map<string, seq<Task>>

    constructor(initial: map<string, seq<Task>>)
      ensures storageKey == "taskflow_tasks" && storage == initial
    {
      storageKey := "taskflow_tasks";
      storage := initial;
    }

    /** The list under the service's key. */
    function Stored(): (s: seq<Task>)
      reads this
      ensures storageKey in storage ==> s == storage[storageKey]
      ensures storageKey !in storage ==> s == []
    {
      if storageKey in storage then storage[storageKey] else []
    }

    method GetTasks() returns (tasks: seq<Task>)
      ensures tasks == Stored()
    {
      if storageKey in storage {
        tasks := storage[storageKey];
      } else {
        tasks := [];
      }
    }

    method SaveTasks(tasks: seq<Task>)
      modifies this
      ensures storage - {storageKey} == old(storage) - {storageKey}
      ensures storage == old(storage)[storageKey := tasks]
      ensures Stored() == tasks
    {
      OtherKeysKept(storage, storageKey, tasks);
      storage := storage[storageKey := tasks];
    }

    /** Builds the task, puts it in front of the stored list, and returns it. */
    method CreateTask(data: Fields, id: string, now: int) returns (t: Task)
      modifies this
      ensures storage - {storageKey} == old(storage) - {storageKey}
      ensures t == NewTask(data, id, now)
      ensures storage == old(storage)[storageKey := [t] + old(Stored())]
      ensures Stored() == [t] + old(Stored()) && |Stored()| == |old(Stored())| + 1
      ensures StampsUpTo(old(Stored()), now) ==> StampsUpTo(Stored(), now)
    {
      t := NewTask(data, id, now);
      var tasks := GetTasks();
      tasks := [t] + tasks;
      SaveTasks(tasks);
      if StampsUpTo(old(Stored()), now) {
        CreateKeepsStamps(data, id, old(Stored()), now);
      }
    }

    /** Patches the first task with `id`; when there is none, returns `None` and
        writes nothing. */
    method UpdateTask(id: string, updates: Fields, now: int) returns (r: Option<Task>)
      modifies this
      ensures storage - {storageKey} == old(storage) - {storageKey}
      ensures var i := FindIndex(old(Stored()), id);
        && (i == -1 ==> r == None && storage == old(storage))
        && (i != -1 ==> r == Some(ApplyPatch(old(Stored())[i], updates, now))
                        && storage == old(storage)[storageKey := Updated(old(Stored()), id, updates, now)])
      ensures Stored() == Updated(old(Stored()), id, updates, now)
      ensures StampsUpTo(old(Stored()), now) ==> StampsUpTo(Stored(), now)
    {
      var tasks := GetTasks();
      var i := FindIndex(tasks, id);
      if i != -1 {
        tasks := tasks[i := ApplyPatch(tasks[i], updates, now)];
        SaveTasks(tasks);
        r := Some(tasks[i]);
      } else {
        r := None;
      }
      if StampsUpTo(old(Stored()), now) {
        UpdateKeepsStamps(old(Stored()), id, updates, now);
      }
    }

    /** Writes back every task whose id differs; always reports success. */
    method DeleteTask(id: string) returns (ok: bool)
      modifies this
      ensures storage - {storageKey} == old(storage) - {storageKey}
      ensures ok
      ensures storage == old(storage)[storageKey := DeleteById(old(Stored()), id)]
      ensures Stored() == DeleteById(old(Stored()), id)
    {
      var tasks := GetTasks();
      var remaining := DeleteById(tasks, id);
      SaveTasks(remaining);
      ok := true;
    }

    /** Flips the completion flag of the first task with `id`; when there is
        none, returns `None` and writes nothing. */
    method ToggleComplete(id: string, now: int) returns (r: Option<Task>)
      modifies this
      ensures storage - {storageKey} == old(storage) - {storageKey}
      ensures var i := FindIndex(old(Stored()), id);
        && (i == -1 ==> r == None && storage == old(storage))
        && (i != -1 ==> r == Some(Toggle(old(Stored())[i], now))
                        && storage == old(storage)[storageKey := Toggled(old(Stored()), id, now)])
      ensures Stored() == Toggled(old(Stored()), id, now)
      ensures StampsUpTo(old(Stored()), now) ==> StampsUpTo(Stored(), now)
    {
      var tasks := GetTasks();
      var i := FindIndex(tasks, id);
      if i != -1 {
        var t := tasks[i];
        t := t.(completed := !t.completed);
        t := t.(updatedAt := now);
        tasks := tasks[i := t];
        SaveTasks(tasks);
        r := Some(tasks[i]);
      } else {
        r := None;
      }
      if StampsUpTo(old(Stored()), now) {
        ToggleKeepsStamps(old(Stored()), id, now);
      }
    }

    /** `filterTasks`: the search and the status filter on a copy of `tasks`,
        then the copy sorted in place. The caller's sequence is a value and
        cannot be changed. The filter and the sort order arrive as the names
        the filter bar uses. */
    method FilterTasks(tasks: seq<Task>, filter: string, searchTerm: string, sortBy: string, now: int)
      returns (result: seq<Task>)
      ensures result == View(tasks, StatusFilterOf(filter), searchTerm, SortKeyOf(sortBy), now)
      ensures multiset(result) <= multiset(tasks)
      ensures StatusFilterOf(filter) == All && searchTerm == "" ==> multiset(result) == multiset(tasks)
    {
      var status, key := StatusFilterOf(filter), SortKeyOf(sortBy);
      var selected := StatusStep(status, SearchStep(tasks, searchTerm), now);
      var copy := new Task[|selected|](k requires 0 <= k < |selected| => selected[k]);
      assert copy[..] == selected;
      Sorting.SortInPlace(copy, Comparator(key));
      result := copy[..];
      ViewContents(tasks, status, searchTerm, key, now);
      ViewAllIsPermutation(tasks, key, now);
    }
  }
}
