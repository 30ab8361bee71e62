/** The application component: the in-memory task list and view settings, and the
    handlers that call the store and then bring the list in step with it. */
module App {
  import opened Tasks
  import opened Query
  import opened TaskStore

  /** `list.map(task => task.id === id ? replacement : task)`. */
  function ReplaceById(s: seq<Task>, id: string, replacement: Task): (r: seq<Task>)
    ensures |r| == |s|
    ensures forall k :: 0 <= k < |s| && s[k].id != id ==> r[k] == s[k]
    ensures forall k :: 0 <= k < |s| && s[k].id == id ==> r[k] == replacement
  {
    seq(|s|, k requires 0 <= k < |s| => if s[k].id == id then replacement else s[k])
  }

  /** When no task has the id, the list comes back as it was. */
  lemma ReplaceAbsent(s: seq<Task>, id: string, replacement: Task)
    requires !HasId(s, id)
    ensures ReplaceById(s, id, replacement) == s
  {
    assert forall k :: 0 <= k < |s| ==> s[k].id != id;
  }

  /** With unique ids, replacing every task with the id replaces just the one the
      store found, in its place. */
  lemma ReplaceUnique(s: seq<Task>, id: string, replacement: Task)
    requires UniqueIds(s) && HasId(s, id)
    ensures ReplaceById(s, id, replacement) == s[FindIndex(s, id) := replacement]
  {
    var i := FindIndex(s, id);
    forall k | 0 <= k < |s| && k != i
      ensures s[k].id != id
    {
      assert s[i].id == id;
    }
  }

  /** The App component's state. */
  class AppState {
    const service: TaskService
    var tasks: seq<Task>
    var filter: string
    var sortBy: string
    var searchTerm: string
    var showForm: bool
    var editingTask: Option<Task>

    /** The in-memory list is the stored list, with no id twice. */
    predicate Valid()
      reads this, service
      ensures Valid() ==> UniqueIds(service.Stored())
    {
      tasks == service.Stored() && UniqueIds(tasks)
    }

    /** The initial state, before the mount effect has loaded the list. */
    constructor(service: TaskService)
      ensures this.service == service
      ensures tasks == [] && filter == "all" && sortBy == "created" && searchTerm == ""
      ensures !showForm && editingTask == None
    {
      this.service := service;
      tasks := [];
      filter := "all";
      sortBy := "created";
      searchTerm := "";
      showForm := false;
      editingTask := None;
    }

    /** The mount effect: the list is read from the store. */
    method LoadTasks()
      modifies this
      ensures tasks == service.Stored()
      ensures UniqueIds(service.Stored()) ==> Valid()
      ensures filter == old(filter) && sortBy == old(sortBy) && searchTerm == old(searchTerm)
      ensures showForm == old(showForm) && editingTask == old(editingTask)
    {
      tasks := service.GetTasks();
    }

    /** The store creates the task; the list gets it in front, as the store did. */
    method HandleCreateTask(taskData: Fields, id: string, now: int)
      requires Valid() && !HasId(service.Stored(), id)
      modifies this, service
      ensures Valid()
      ensures service.storage - {service.storageKey} == old(service.storage) - {service.storageKey}
      ensures tasks == [NewTask(taskData, id, now)] + old(tasks)
      ensures !showForm
      ensures filter == old(filter) && sortBy == old(sortBy) && searchTerm == old(searchTerm)
      ensures editingTask == old(editingTask)
    {
      var newTask := service.CreateTask(taskData, id, now);
      PrependFresh(newTask, tasks);
      tasks := [newTask] + tasks;
      showForm := false;
    }

    /** The store patches the task being edited; the list has every task with
        its id replaced by the result, and the form closes. */
    method HandleUpdateTask(taskData: Fields, now: int)
      requires Valid() && editingTask.Some?
      modifies this, service
      ensures Valid()
      ensures service.storage - {service.storageKey} == old(service.storage) - {service.storageKey}
      ensures tasks == Updated(old(tasks), old(editingTask).value.id, taskData, now)
      ensures |tasks| == |old(tasks)|
      ensures forall k :: 0 <= k < |tasks| && old(tasks)[k].id != old(editingTask).value.id ==> tasks[k] == old(tasks)[k]
      ensures editingTask == None && !showForm
      ensures filter == old(filter) && sortBy == old(sortBy) && searchTerm == old(searchTerm)
    {
      var id := editingTask.value.id;
      var updatedTask := service.UpdateTask(id, taskData, now);
      UpdatedChangesOnlyMatch(tasks, id, taskData, now);
      UniqueSameIds(tasks, Updated(tasks, id, taskData, now));
      if updatedTask.Some? {
        ReplaceUnique(tasks, id, updatedTask.value);
        tasks := ReplaceById(tasks, id, updatedTask.value);
      } else {
        // no task carries the id, so the map leaves every element as it was
        assert !HasId(tasks, id);
      }
      editingTask := None;
      showForm := false;
    }

    /** The store drops the task; so does the list. */
    method HandleDeleteTask(id: string)
      requires Valid()
      modifies this, service
      ensures Valid()
      ensures service.storage - {service.storageKey} == old(service.storage) - {service.storageKey}
      ensures tasks == DeleteById(old(tasks), id)
      ensures !HasId(tasks, id)
      ensures filter == old(filter) && sortBy == old(sortBy) && searchTerm == old(searchTerm)
      ensures showForm == old(showForm) && editingTask == old(editingTask)
    {
      var _ := service.DeleteTask(id);
      FilterKeepsUnique(tasks, (t: Task) => t.id != id);
      tasks := DeleteById(tasks, id);
    }

    /** The store toggles the task; the list has every task with its id replaced
        by the result. */
    method HandleToggleComplete(id: string, now: int)
      requires Valid()
      modifies this, service
      ensures Valid()
      ensures service.storage - {service.storageKey} == old(service.storage) - {service.storageKey}
      ensures tasks == Toggled(old(tasks), id, now)
      ensures |tasks| == |old(tasks)|
      ensures forall k :: 0 <= k < |tasks| && old(tasks)[k].id != id ==> tasks[k] == old(tasks)[k]
      ensures filter == old(filter) && sortBy == old(sortBy) && searchTerm == old(searchTerm)
      ensures showForm == old(showForm) && editingTask == old(editingTask)
    {
      var updatedTask := service.ToggleComplete(id, now);
      ToggledChangesOnlyMatch(tasks, id, now);
      UniqueSameIds(tasks, Toggled(tasks, id, now));
      if updatedTask.Some? {
        ReplaceUnique(tasks, id, updatedTask.value);
        tasks := ReplaceById(tasks, id, updatedTask.value);
      } else {
        // no task carries the id, so the map leaves every element as it was
        assert !HasId(tasks, id);
      }
    }

    /** The form's submit: an update while a task is being edited, a create otherwise. */
    method HandleFormSubmit(taskData: Fields, id: string, now: int)
      requires Valid() && (editingTask.None? ==> !HasId(service.Stored(), id))
      modifies this, service
      ensures Valid()
      ensures service.storage - {service.storageKey} == old(service.storage) - {service.storageKey}
      ensures old(editingTask).Some? ==> tasks == Updated(old(tasks), old(editingTask).value.id, taskData, now)
      ensures old(editingTask).None? ==> tasks == [NewTask(taskData, id, now)] + old(tasks)
      ensures editingTask == None && !showForm
      ensures filter == old(filter) && sortBy == old(sortBy) && searchTerm == old(searchTerm)
    {
      if editingTask.Some? {
        HandleUpdateTask(taskData, now);
      } else {
        HandleCreateTask(taskData, id, now);
      }
    }

    /** The form's cancel: the form closes and nothing is being edited. */
    method HandleCancel()
      modifies this
      ensures !showForm && editingTask == None
      ensures tasks == old(tasks) && filter == old(filter) && sortBy == old(sortBy)
      ensures searchTerm == old(searchTerm)
    {
      showForm := false;
      editingTask := None;
    }

    /** The header's add button: the form opens, still on any task being edited. */
    method HandleAddTask()
      modifies this
      ensures showForm
      ensures tasks == old(tasks) && filter == old(filter) && sortBy == old(sortBy)
      ensures searchTerm == old(searchTerm) && editingTask == old(editingTask)
    {
      showForm := true;
    }

    /** The filter bar's status selector. */
    method SetFilter(newFilter: string)
      modifies this
      ensures filter == newFilter
      ensures tasks == old(tasks) && sortBy == old(sortBy) && searchTerm == old(searchTerm)
      ensures showForm == old(showForm) && editingTask == old(editingTask)
    {
      filter := newFilter;
    }

    /** The filter bar's sort selector. */
    method SetSortBy(newSortBy: string)
      modifies this
      ensures sortBy == newSortBy
      ensures tasks == old(tasks) && filter == old(filter) && searchTerm == old(searchTerm)
      ensures showForm == old(showForm) && editingTask == old(editingTask)
    {
      sortBy := newSortBy;
    }

    /** The header's search box. */
    method SetSearchTerm(newSearchTerm: string)
      modifies this
      ensures searchTerm == newSearchTerm
      ensures tasks == old(tasks) && filter == old(filter) && sortBy == old(sortBy)
      ensures showForm == old(showForm) && editingTask == old(editingTask)
    {
      searchTerm := newSearchTerm;
    }

    /** Opens the form on a task. */
    method HandleEditTask(task: Task)
      modifies this
      ensures editingTask == Some(task) && showForm
      ensures tasks == old(tasks) && filter == old(filter) && sortBy == old(sortBy)
      ensures searchTerm == old(searchTerm)
    {
      editingTask := Some(task);
      showForm := true;
    }

    /** The list on screen, computed from the current state each time it is needed. */
    method FilteredTasks(now: int) returns (result: seq<Task>)
      ensures result == View(tasks, StatusFilterOf(filter), searchTerm, SortKeyOf(sortBy), now)
      ensures multiset(result) <= multiset(tasks)
    {
      result := service.FilterTasks(tasks, filter, searchTerm, sortBy, now);
    }
  }
}
