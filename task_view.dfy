/** What the task list shows: the tasks of the selected project that pass
    the status filter and the text search, and the id-based list updates
    the page applies after each service reply. */
module TaskView {
  import opened TaskTypes
  import opened ListOps
  import opened TextSearch

  /** The search condition of TasksPage.tsx: the lower-cased title, or the
      lower-cased description when there is one, includes the lower-cased
      query. The empty query matches every task, and a query occurring with
      the exact case in the title matches. */
  predicate MatchesQuery(t: Task, query: string): (r: bool)
    ensures query == "" ==> r
    ensures Includes(t.title, query) ==> r
  {
    || IncludesIgnoringCase(t.title, query)
    || (t.description.Some? && IncludesIgnoringCase(t.description.value, query))
  }

  /** A task passes every condition that applies: the project condition when
      a project is selected, the status condition unless the filter is "all",
      and the search condition when the query is not empty. With no project,
      the filter at "all" and no query, every task passes; a task of another
      project or with another status never does. */
  predicate Visible(t: Task, project: Option<string>, filter: FilterOption, query: string): (r: bool)
    ensures !IsSet(project) && filter == All && query == "" ==> r
    ensures IsSet(project) && t.projectId != project ==> !r
    ensures filter.OnlyStatus? && t.status != filter.status ==> !r
  {
    && (IsSet(project) ==> t.projectId == project)
    && (filter.OnlyStatus? ==> t.status == filter.status)
    && (query != "" ==> MatchesQuery(t, query))
  }

  /** The reference definition of the visible list: one pass keeping the
      visible tasks: each visible task as often as in the input, no other. */
  function View(s: seq<Task>, project: Option<string>, filter: FilterOption, query: string): (r: seq<Task>)
    ensures |r| <= |s|
    ensures forall t: Task :: multiset(r)[t] == if Visible(t, project, filter, query) then multiset(s)[t] else 0
  {
    Filter(s, t => Visible(t, project, filter, query))
  }

  /** The visible list keeps the input's order. */
  lemma ViewIsSubsequence(s: seq<Task>, project: Option<string>, filter: FilterOption, query: string)
    ensures IsSubsequence(View(s, project, filter, query), s)
  {
    FilterIsSubsequence(s, t => Visible(t, project, filter, query));
  }

  /** Soundness: every shown task satisfies every applicable condition. */
  lemma ViewSound(s: seq<Task>, project: Option<string>, filter: FilterOption, query: string, t: Task)
    requires t in View(s, project, filter, query)
    ensures t in s
    ensures IsSet(project) ==> t.projectId == project
    ensures filter.OnlyStatus? ==> t.status == filter.status
    ensures query != "" ==> MatchesQuery(t, query)
  {
    FilterMembership(s, t => Visible(t, project, filter, query), t);
  }

  /** Completeness: every input task satisfying the applicable conditions is
      shown, as often as it occurs in the input. */
  lemma ViewComplete(s: seq<Task>, project: Option<string>, filter: FilterOption, query: string, t: Task)
    requires t in s
    requires IsSet(project) ==> t.projectId == project
    requires filter.OnlyStatus? ==> t.status == filter.status
    requires query != "" ==> MatchesQuery(t, query)
    ensures t in View(s, project, filter, query)
    ensures multiset(View(s, project, filter, query))[t] == multiset(s)[t]
  {
    FilterMembership(s, t => Visible(t, project, filter, query), t);
  }

  /** With no project selected, the filter at "all" and an empty query, the
      whole list is shown as it is. */
  lemma ViewUnfiltered(s: seq<Task>, project: Option<string>)
    requires !IsSet(project)
    ensures View(s, project, All, "") == s
  {
    FilterKeepsAll(s, t => Visible(t, project, All, ""));
  }

  /** `tasks.filter(task => task.id !== id)`: every task with another id as
      often as before, none with this one. */
  function WithoutTask(s: seq<Task>, id: string): (r: seq<Task>)
    ensures |r| <= |s|
    ensures forall t: Task :: multiset(r)[t] == if t.id != id then multiset(s)[t] else 0
  {
    Filter(s, (t: Task) => t.id != id)
  }

  /** After a delete no task with that id remains, the relative order of the
      rest is kept. */
  lemma WithoutTaskSpec(s: seq<Task>, id: string)
    ensures forall k :: 0 <= k < |WithoutTask(s, id)| ==> WithoutTask(s, id)[k].id != id
    ensures IsSubsequence(WithoutTask(s, id), s)
  {
    var r := WithoutTask(s, id);
    forall k | 0 <= k < |r| ensures r[k].id != id {
      FilterMembership(s, (t: Task) => t.id != id, r[k]);
    }
    FilterIsSubsequence(s, (t: Task) => t.id != id);
  }

  /** `tasks.map(task => task.id === u.id ? u : task)`: the same ids in
      the same positions, each entry either as it was or the reply. */
  function WithTask(s: seq<Task>, u: Task): (r: seq<Task>)
    ensures |r| == |s|
    ensures forall k :: 0 <= k < |s| ==> r[k].id == s[k].id && (r[k] == u || r[k] == s[k])
  {
    Replace(s, (t: Task) => t.id == u.id, u)
  }

  /** After an update the length is unchanged, the positions holding the
      updated id hold the returned task, the others are unchanged, and the
      ids of the list are those it had. */
  lemma WithTaskSpec(s: seq<Task>, u: Task)
    ensures |WithTask(s, u)| == |s|
    ensures forall k :: 0 <= k < |s| && s[k].id == u.id ==> WithTask(s, u)[k] == u
    ensures forall k :: 0 <= k < |s| && s[k].id != u.id ==> WithTask(s, u)[k] == s[k]
    ensures forall k :: 0 <= k < |s| ==> WithTask(s, u)[k].id == s[k].id
  {
  }

  /** A reply whose id the list does not hold leaves the list as it was. */
  lemma WithTaskUnknownId(s: seq<Task>, u: Task)
    requires forall k :: 0 <= k < |s| ==> s[k].id != u.id
    ensures WithTask(s, u) == s
  {
    ReplaceMissIsIdentity(s, (t: Task) => t.id == u.id, u);
  }

  /** Deleting a task and then computing the view is the same as deleting it
      from the view: the two filters commute. */
  lemma ViewWithoutTask(s: seq<Task>, id: string, project: Option<string>, filter: FilterOption, query: string)
    ensures View(WithoutTask(s, id), project, filter, query) == WithoutTask(View(s, project, filter, query), id)
  {
    var vis := t => Visible(t, project, filter, query);
    var other := (t: Task) => t.id != id;
    var both := (t: Task) => other(t) && vis(t);
    FilterFilter(s, other, vis, both);
    FilterFilter(s, vis, other, both);
  }

  /** `projects.filter(project => project.id !== id)`: every project with
      another id as often as before, none with this one. */
  function WithoutProject(s: seq<Project>, id: string): (r: seq<Project>)
    ensures |r| <= |s|
    ensures forall p: Project :: multiset(r)[p] == if p.id != id then multiset(s)[p] else 0
  {
    Filter(s, (p: Project) => p.id != id)
  }

  /** After a project delete no project with that id remains and the others
      keep their order. */
  lemma WithoutProjectSpec(s: seq<Project>, id: string)
    ensures forall k :: 0 <= k < |WithoutProject(s, id)| ==> WithoutProject(s, id)[k].id != id
    ensures IsSubsequence(WithoutProject(s, id), s)
  {
    var r := WithoutProject(s, id);
    forall k | 0 <= k < |r| ensures r[k].id != id {
      FilterMembership(s, (p: Project) => p.id != id, r[k]);
    }
    FilterIsSubsequence(s, (p: Project) => p.id != id);
  }

  /** `projects.map(project => project.id === u.id ? u : project)`: the same
      ids in the same positions, each entry either as it was or the reply. */
  function WithProject(s: seq<Project>, u: Project): (r: seq<Project>)
    ensures |r| == |s|
    ensures forall k :: 0 <= k < |s| ==> r[k].id == s[k].id && (r[k] == u || r[k] == s[k])
  {
    Replace(s, (p: Project) => p.id == u.id, u)
  }

  /** Replace-by-id over projects, position by position. */
  lemma WithProjectSpec(s: seq<Project>, u: Project)
    ensures |WithProject(s, u)| == |s|
    ensures forall k :: 0 <= k < |s| && s[k].id == u.id ==> WithProject(s, u)[k] == u
    ensures forall k :: 0 <= k < |s| && s[k].id != u.id ==> WithProject(s, u)[k] == s[k]
  {
  }
}
