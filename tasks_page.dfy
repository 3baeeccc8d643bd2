/** The state of the task page and its handlers. Each handler receives the
    reply of the service call it makes as a parameter (`None` when the call
    failed), and updates the page's lists the way the page does after the
    reply arrives. */
module TasksPageState {
  import opened TaskTypes
  import opened ListOps
  import opened TaskView
  import opened TaskSort

  const LoadProjectsFailed := "Failed to load projects."
  const LoadTasksFailed := "Failed to load tasks."
  const CreateProjectFailed := "Failed to create project."
  const UpdateProjectFailed := "Failed to update project."
  const DeleteProjectFailed := "Failed to delete project."
  const CreateTaskFailed := "Failed to create task."
  const UpdateTaskFailed := "Failed to update task."
  const DeleteTaskFailed := "Failed to delete task."
  const StatusChangeFailed := "Failed to update task status."

  class TasksPage {
    /** The id of the signed-in user, if any. */
    var user: Option<string>
    var tasks: seq<Task>
    var projects: seq<Project>
    var selectedProjectId: Option<string>
    /** The list the table shows. */
    var filteredTasks: seq<Task>
    /** The task and project being edited, if any. */
    var selectedTask: Option<Task>
    var selectedProject: Option<Project>
    var currentFilter: FilterOption
    var searchQuery: string
    var error: Option<string>

    /** An empty task list shows nothing. */
    ghost predicate Valid()
      reads this
    {
      tasks == [] ==> filteredTasks == []
    }

    /** The shown list holds exactly the visible tasks under the current
        project, filter and query, in some order (the order a sort chose). */
    ghost predicate Consistent()
      reads this
    {
      multiset(filteredTasks) == multiset(View(tasks, selectedProjectId, currentFilter, searchQuery))
    }

    /** The initial state of the page's state hooks. */
    constructor (user: Option<string>)
      ensures this.user == user
      ensures tasks == [] && projects == [] && filteredTasks == []
      ensures selectedProjectId == None && selectedTask == None && selectedProject == None
      ensures currentFilter == All && searchQuery == "" && error == None
      ensures Valid() && Consistent()
    {
      this.user := user;
      tasks, projects, filteredTasks := [], [], [];
      selectedProjectId, selectedTask, selectedProject := None, None, None;
      currentFilter, searchQuery, error := All, "", None;
    }

    /** Narrows `taskList` by the selected project, then by the status
        filter, then by the query, and shows the result. The three
        successive filters give the one-pass reference view. */
    method ApplyFiltersAndSearch(taskList: seq<Task>, filter: FilterOption, query: string)
      modifies this`filteredTasks
      ensures filteredTasks == View(taskList, selectedProjectId, filter, query)
    {
      var project := selectedProjectId;
      ghost var p1 := (t: Task) => IsSet(project) ==> t.projectId == project;
      ghost var p2 := (t: Task) => p1(t) && (filter.OnlyStatus? ==> t.status == filter.status);
      ghost var p3 := (t: Task) => p2(t) && (query != "" ==> MatchesQuery(t, query));

      var result := taskList;
      if IsSet(project) {
        result := Filter(result, (t: Task) => t.projectId == project);
        FilterExtensional(taskList, (t: Task) => t.projectId == project, p1);
      } else {
        FilterKeepsAll(taskList, p1);
      }
      assert result == Filter(taskList, p1);

      if filter != All {
        var status := filter.status;
        FilterFilter(taskList, p1, (t: Task) => t.status == status, p2);
        result := Filter(result, (t: Task) => t.status == status);
      } else {
        FilterExtensional(taskList, p1, p2);
      }
      assert result == Filter(taskList, p2);

      if query != "" {
        FilterFilter(taskList, p2, (t: Task) => MatchesQuery(t, query), p3);
        result := Filter(result, (t: Task) => MatchesQuery(t, query));
      } else {
        FilterExtensional(taskList, p2, p3);
      }
      assert result == Filter(taskList, p3);

      FilterExtensional(taskList, p3, t => Visible(t, project, filter, query));
      filteredTasks := result;
    }

    /** Stores the fetched tasks as both the task list and the shown list. */
    method LoadTasks(reply: Option<seq<Task>>)
      requires Valid()
      modifies this`tasks, this`filteredTasks, this`error
      ensures user.None? ==> tasks == old(tasks) && filteredTasks == old(filteredTasks) && error == old(error)
      ensures user.Some? && reply.Some? ==>
        tasks == reply.value && filteredTasks == reply.value && error == old(error)
      ensures user.Some? && reply.None? ==>
        tasks == old(tasks) && filteredTasks == old(filteredTasks) && error == Some(LoadTasksFailed)
      ensures Valid()
      ensures user.Some? && reply.Some? && !IsSet(selectedProjectId) && currentFilter == All && searchQuery == "" ==>
        Consistent()
    {
      if user.None? {
        return;
      }
      if reply.Some? {
        tasks := reply.value;
        filteredTasks := reply.value;
        if !IsSet(selectedProjectId) && currentFilter == All && searchQuery == "" {
          ViewUnfiltered(tasks, selectedProjectId);
        }
      } else {
        error := Some(LoadTasksFailed);
      }
    }

    /** Stores the fetched projects. */
    method LoadProjects(reply: Option<seq<Project>>)
      modifies this`projects, this`error
      ensures user.None? ==> projects == old(projects) && error == old(error)
      ensures user.Some? && reply.Some? ==> projects == reply.value && error == old(error)
      ensures user.Some? && reply.None? ==> projects == old(projects) && error == Some(LoadProjectsFailed)
    {
      if user.None? {
        return;
      }
      if reply.Some? {
        projects := reply.value;
      } else {
        error := Some(LoadProjectsFailed);
      }
    }

    /** Puts the created project at the front of the project list. */
    method HandleCreateProject(reply: Option<Project>)
      modifies this`projects, this`error
      ensures user.None? ==> projects == old(projects) && error == old(error)
      ensures user.Some? && reply.Some? ==> projects == [reply.value] + old(projects) && error == None
      ensures user.Some? && reply.None? ==> projects == old(projects) && error == Some(CreateProjectFailed)
    {
      if user.None? {
        return;
      }
      error := None;
      if reply.Some? {
        projects := [reply.value] + projects;
      } else {
        error := Some(CreateProjectFailed);
      }
    }

    /** Replaces the project with the returned one's id and ends editing. */
    method HandleUpdateProject(reply: Option<Project>)
      modifies this`projects, this`selectedProject, this`error
      ensures old(selectedProject).None? ==>
        projects == old(projects) && selectedProject == None && error == old(error)
      ensures old(selectedProject).Some? && reply.Some? ==>
        projects == WithProject(old(projects), reply.value) && selectedProject == None && error == None
      ensures old(selectedProject).Some? && reply.None? ==>
        projects == old(projects) && selectedProject == old(selectedProject) && error == Some(UpdateProjectFailed)
    {
      if selectedProject.None? {
        return;
      }
      error := None;
      if reply.Some? {
        projects := WithProject(projects, reply.value);
        selectedProject := None;
      } else {
        error := Some(UpdateProjectFailed);
      }
    }

    /** Removes the project with id `id`; when it was the selected project,
        no project is selected any more. */
    method HandleDeleteProject(id: string, deleted: bool)
      modifies this`projects, this`selectedProjectId, this`error
      ensures deleted ==> projects == WithoutProject(old(projects), id) && error == None
      ensures deleted && old(selectedProjectId) == Some(id) ==> selectedProjectId == None
      ensures deleted && old(selectedProjectId) != Some(id) ==> selectedProjectId == old(selectedProjectId)
      ensures !deleted ==>
        projects == old(projects) && selectedProjectId == old(selectedProjectId) && error == Some(DeleteProjectFailed)
      ensures old(Consistent()) && selectedProjectId == old(selectedProjectId) ==> Consistent()
    {
      error := None;
      if deleted {
        projects := WithoutProject(projects, id);
        if selectedProjectId == Some(id) {
          selectedProjectId := None;
        }
      } else {
        error := Some(DeleteProjectFailed);
      }
    }

    /** Puts the created task at the front of the task list and recomputes
        the shown list from the new task list. */
    method HandleCreateTask(reply: Option<Task>)
      requires Valid()
      modifies this`tasks, this`filteredTasks, this`error
      ensures user.None? ==> tasks == old(tasks) && filteredTasks == old(filteredTasks) && error == old(error)
      ensures user.Some? && reply.Some? ==>
        && tasks == [reply.value] + old(tasks)
        && filteredTasks == View(tasks, selectedProjectId, currentFilter, searchQuery)
        && error == None
      ensures user.Some? && reply.None? ==>
        tasks == old(tasks) && filteredTasks == old(filteredTasks) && error == Some(CreateTaskFailed)
      ensures Valid()
      ensures old(Consistent()) ==> Consistent()
    {
      if user.None? {
        return;
      }
      error := None;
      if reply.Some? {
        var updated := [reply.value] + tasks;
        tasks := updated;
        ApplyFiltersAndSearch(updated, currentFilter, searchQuery);
      } else {
        error := Some(CreateTaskFailed);
      }
    }

    /** Replaces the task with the returned one's id, recomputes the shown
        list, and ends editing. */
    method HandleUpdateTask(reply: Option<Task>)
      requires Valid()
      modifies this`tasks, this`filteredTasks, this`selectedTask, this`error
      ensures old(selectedTask).None? ==>
        && tasks == old(tasks) && filteredTasks == old(filteredTasks)
        && selectedTask == None && error == old(error)
      ensures old(selectedTask).Some? && reply.Some? ==>
        && tasks == WithTask(old(tasks), reply.value)
        && filteredTasks == View(tasks, selectedProjectId, currentFilter, searchQuery)
        && selectedTask == None && error == None
      ensures old(selectedTask).Some? && reply.None? ==>
        && tasks == old(tasks) && filteredTasks == old(filteredTasks)
        && selectedTask == old(selectedTask) && error == Some(UpdateTaskFailed)
      ensures Valid()
      ensures old(Consistent()) ==> Consistent()
    {
      if selectedTask.None? {
        return;
      }
      error := None;
      if reply.Some? {
        var updated := WithTask(tasks, reply.value);
        tasks := updated;
        ApplyFiltersAndSearch(updated, currentFilter, searchQuery);
        selectedTask := None;
      } else {
        error := Some(UpdateTaskFailed);
      }
    }

    /** Removes the task with id `id` and recomputes the shown list. */
    method HandleDeleteTask(id: string, deleted: bool)
      requires Valid()
      modifies this`tasks, this`filteredTasks, this`error
      ensures deleted ==>
        && tasks == WithoutTask(old(tasks), id)
        && filteredTasks == View(tasks, selectedProjectId, currentFilter, searchQuery)
        && error == None
      ensures deleted ==> forall k :: 0 <= k < |tasks| ==> tasks[k].id != id
      ensures deleted ==> forall k :: 0 <= k < |filteredTasks| ==> filteredTasks[k].id != id
      ensures !deleted ==>
        tasks == old(tasks) && filteredTasks == old(filteredTasks) && error == Some(DeleteTaskFailed)
      ensures Valid()
      ensures old(Consistent()) ==> Consistent()
    {
      error := None;
      if deleted {
        var updated := WithoutTask(tasks, id);
        WithoutTaskSpec(tasks, id);
        tasks := updated;
        ApplyFiltersAndSearch(updated, currentFilter, searchQuery);
        forall k | 0 <= k < |filteredTasks| ensures filteredTasks[k].id != id {
          ViewSound(updated, selectedProjectId, currentFilter, searchQuery, filteredTasks[k]);
          assert filteredTasks[k] in updated;
        }
      } else {
        error := Some(DeleteTaskFailed);
      }
    }

    /** Replaces the task with the returned one's id after a status change
        and recomputes the shown list. */
    method HandleStatusChange(reply: Option<Task>)
      requires Valid()
      modifies this`tasks, this`filteredTasks, this`error
      ensures reply.Some? ==>
        && tasks == WithTask(old(tasks), reply.value)
        && filteredTasks == View(tasks, selectedProjectId, currentFilter, searchQuery)
        && error == None
      ensures reply.None? ==>
        tasks == old(tasks) && filteredTasks == old(filteredTasks) && error == Some(StatusChangeFailed)
      ensures Valid()
      ensures old(Consistent()) ==> Consistent()
    {
      error := None;
      if reply.Some? {
        var updated := WithTask(tasks, reply.value);
        tasks := updated;
        ApplyFiltersAndSearch(updated, currentFilter, searchQuery);
      } else {
        error := Some(StatusChangeFailed);
      }
    }

    /** Opens a task for editing. */
    method HandleEditTask(t: Task)
      modifies this`selectedTask
      ensures selectedTask == Some(t)
    {
      selectedTask := Some(t);
    }

    /** Opens a project for editing. */
    method HandleEditProject(p: Project)
      modifies this`selectedProject
      ensures selectedProject == Some(p)
    {
      selectedProject := Some(p);
    }

    /** Stores the query and shows the task list filtered with it. */
    method HandleSearch(query: string)
      requires Valid()
      modifies this`searchQuery, this`filteredTasks
      ensures searchQuery == query
      ensures filteredTasks == View(tasks, selectedProjectId, currentFilter, query)
      ensures Valid() && Consistent()
    {
      searchQuery := query;
      ApplyFiltersAndSearch(tasks, currentFilter, query);
    }

    /** Stores the status filter and shows the task list filtered with it. */
    method HandleFilter(filter: FilterOption)
      requires Valid()
      modifies this`currentFilter, this`filteredTasks
      ensures currentFilter == filter
      ensures filteredTasks == View(tasks, selectedProjectId, filter, searchQuery)
      ensures Valid() && Consistent()
    {
      currentFilter := filter;
      ApplyFiltersAndSearch(tasks, filter, searchQuery);
    }

    /** Sorts a copy of the shown list by `key` and shows the copy: the
        same tasks, as often as before, now in order, with tied tasks in
        their previous relative order. */
    method HandleSort(key: SortOption)
      requires Valid()
      modifies this`filteredTasks
      ensures |filteredTasks| == |old(filteredTasks)|
      ensures multiset(filteredTasks) == multiset(old(filteredTasks))
      ensures Sorted(key, filteredTasks)
      ensures exists perm :: StableArrangement(key, old(filteredTasks), filteredTasks, perm)
      ensures Valid()
      ensures old(Consistent()) ==> Consistent()
    {
      var shown := filteredTasks;
      var sortedTasks := new Task[|shown|](k requires 0 <= k < |shown| => shown[k]);
      assert sortedTasks[..] == shown;
      SortInPlace(sortedTasks, key);
      filteredTasks := sortedTasks[..];
      assert |filteredTasks| == |multiset(filteredTasks)| == |multiset(shown)| == |shown|;
    }

    /** The project selector's choice. */
    method SelectProject(id: Option<string>)
      modifies this`selectedProjectId
      ensures selectedProjectId == id
    {
      selectedProjectId := id;
    }

    /** What the page does once the selected project has changed: when there
        are tasks at all, shows them filtered for the new selection. */
    method RefreshForSelectedProject()
      requires Valid()
      modifies this`filteredTasks
      ensures |tasks| > 0 ==> filteredTasks == View(tasks, selectedProjectId, currentFilter, searchQuery)
      ensures |tasks| == 0 ==> filteredTasks == old(filteredTasks)
      ensures Valid() && Consistent()
    {
      if |tasks| > 0 {
        ApplyFiltersAndSearch(tasks, currentFilter, searchQuery);
      }
    }
  }
}
