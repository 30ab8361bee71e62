/** The task record shared by the store, the query engine, the statistics panel
    and the form. Dates and timestamps are whole numbers on one time line: the
    model compares them where the source compares parsed `Date` values. */
module Tasks {

  datatype Option<+T> = None | Some(value: T)

  datatype Priority = Low | Medium | High

  /** A due date, or none: the source stores the empty string for "no due date". */
  datatype DueDate = NoDueDate | Due(day: int)

  datatype Task = Task(
    id: string,
    title: string,
    description: string,
    priority: Priority,
    category: string,
    dueDate: DueDate,
    tags: seq<string>,
    completed: bool,
    createdAt: int,
    updatedAt: int)

  /** The sort rank of a priority: high 3, medium 2, low 1. */
  function Rank(p: Priority): (r: int)
    ensures 1 <= r <= 3
  {
    match p
    case High => 3
    case Medium => 2
    case Low => 1
  }

  /** Not completed, with a due date strictly before `now`. The statistics panel
      and the query engine's 'overdue' filter use this same test. */
  predicate IsOverdue(t: Task, now: int)
    ensures t.completed ==> !IsOverdue(t, now)
    ensures t.dueDate == NoDueDate ==> !IsOverdue(t, now)
  {
    if t.dueDate == NoDueDate || t.completed then false
    else t.dueDate.day < now
  }

  predicate HasId(s: seq<Task>, id: string)
  {
    exists k :: 0 <= k < |s| && s[k].id == id
  }

  /** No two tasks of the collection share an id. */
  predicate UniqueIds(s: seq<Task>)
  {
    forall i, j :: 0 <= i < j < |s| ==> s[i].id != s[j].id
  }
}
