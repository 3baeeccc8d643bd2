/** The records the task page works on: a task with a single status, a
    project, and the filter and sort choices the task list offers. Timestamps
    are integers (milliseconds), and an optional text field is an Option. */
module TaskTypes {

  datatype Option<+T> = None | Some(value: T)

  /** The three lifecycle states of a task (and of each review track). */
  datatype Status = Todo | InProgress | Completed

  /** Priorities the sort's rank table knows. */
  datatype Priority = Low | Medium | High

  datatype Task = Task(
    id: string,
    title: string,
    description: Option<string>,
    status: Status,
    priority: Priority,
    dueDate: Option<int>,
    createdAt: int,
    userId: string,
    projectId: Option<string>)

  datatype Project = Project(
    id: string,
    name: string,
    description: Option<string>,
    createdAt: int,
    userId: string)

  /** The status filter: every task, or only those with one status. */
  datatype FilterOption = All | OnlyStatus(status: Status)

  datatype SortOption = Newest | Oldest | ByPriority | ByDueDate

  /** An optional string that JavaScript treats as true: present and not empty. */
  predicate IsSet(s: Option<string>)
  {
    s.Some? && s.value != ""
  }
}
