/** The records the dashboard reads from the intern, project and task services, and
    how a signed-in intern ("STAGIAIRE") picks out their own projects and tasks. */
module Records {
  import opened Calendar
  import opened OrderedMap

  /** An intern; a missing department or date is `None`. */
  datatype Intern = Intern(userId: int, department: Option<string>, startDate: Option<Date>, endDate: Option<Date>)

  /** A project, its assigned intern (`stagiaireId`, possibly absent) and its progress in percent. */
  datatype Project = Project(id: int, stagiaireId: Option<int>, startDate: Date, progress: int)

  /** A task, the project it belongs to and its raw status code. */
  datatype Task = Task(projectId: int, status: string)

  /** `interns[k]` is the first intern with this user id. */
  ghost predicate FirstWithId(interns: seq<Intern>, userId: int, k: int) {
    0 <= k < |interns| && interns[k].userId == userId && forall i :: 0 <= i < k ==> interns[i].userId != userId
  }

  /** `interns.find(i => i.userId === userId)`: the first intern with that user id. */
  function FindIntern(interns: seq<Intern>, userId: int): (r: Option<Intern>)
    ensures r.None? <==> forall i :: 0 <= i < |interns| ==> interns[i].userId != userId
    ensures r.Some? ==> exists k :: FirstWithId(interns, userId, k) && interns[k] == r.value
  {
    if interns == [] then None
    else if interns[0].userId == userId then
      assert FirstWithId(interns, userId, 0);
      Some(interns[0])
    else
      var r := FindIntern(interns[1..], userId);
      assert r.Some? ==> exists k :: FirstWithId(interns, userId, k) && interns[k] == r.value by {
        if r.Some? {
          var k :| FirstWithId(interns[1..], userId, k) && interns[1..][k] == r.value;
          forall i | 0 <= i < k + 1 ensures interns[i].userId != userId {
            if i > 0 { assert interns[i] == interns[1..][i - 1]; }
          }
          assert FirstWithId(interns, userId, k + 1);
        }
      }
      assert r.None? ==> forall i :: 0 <= i < |interns| ==> interns[i].userId != userId by {
        if r.None? {
          forall i | 0 <= i < |interns| ensures interns[i].userId != userId {
            if i > 0 { assert interns[i] == interns[1..][i - 1]; }
          }
        }
      }
      r
  }

  /** The projects assigned to `userId`, in their order. */
  function AssignedTo(projects: seq<Project>, userId: int): seq<Project> {
    if projects == [] then []
    else
      var last := projects[|projects| - 1];
      AssignedTo(projects[..|projects| - 1], userId) + if last.stagiaireId == Some(userId) then [last] else []
  }

  /** The selection keeps exactly the copies of the projects assigned to the id. */
  lemma {:induction false} AssignedToCounts(projects: seq<Project>, userId: int)
    ensures forall p :: multiset(AssignedTo(projects, userId))[p] == if p.stagiaireId == Some(userId) then multiset(projects)[p] else 0
  {
    if projects != [] {
      var last := projects[|projects| - 1];
      assert projects == projects[..|projects| - 1] + [last];
      AssignedToCounts(projects[..|projects| - 1], userId);
    }
  }

  /** Selecting the projects of an id distributes over putting two lists end to end,
      so the selection keeps the fetched order. */
  lemma {:induction false} AssignedToAppend(a: seq<Project>, b: seq<Project>, userId: int)
    ensures AssignedTo(a + b, userId) == AssignedTo(a, userId) + AssignedTo(b, userId)
    decreases |b|
  {
    if b == [] {
      assert a + b == a;
    } else {
      var b', p := b[..|b| - 1], b[|b| - 1];
      var kept := if p.stagiaireId == Some(userId) then [p] else [];
      assert (a + b)[..|a + b| - 1] == a + b' && (a + b)[|a + b| - 1] == p;
      assert AssignedTo(a + b, userId) == AssignedTo(a + b', userId) + kept;
      assert AssignedTo(b, userId) == AssignedTo(b', userId) + kept;
      AssignedToAppend(a, b', userId);
      assert AssignedTo(a, userId) + AssignedTo(b', userId) + kept == AssignedTo(a, userId) + (AssignedTo(b', userId) + kept);
    }
  }

  /** A single project is selected exactly when it is assigned to the id. */
  lemma AssignedToOne(p: Project, userId: int)
    ensures AssignedTo([p], userId) == if p.stagiaireId == Some(userId) then [p] else []
  {
    assert [p][..0] == [];
  }

  /** A project belongs to the signed-in intern when an intern with their user id exists
      and the project is assigned to that id. */
  predicate Owns(interns: seq<Intern>, userId: int, p: Project) {
    FindIntern(interns, userId).Some? && p.stagiaireId == Some(userId)
  }

  /** `projects.filter(p => String(p.stagiaireId) === userIdString)` where `userIdString` is the
      found intern's id as text, or '' when no intern has this user id. Ids are numbers, so
      two ids print alike exactly when they are equal, and no id (nor a missing one) prints as ''. */
  function MyProjects(interns: seq<Intern>, projects: seq<Project>, userId: int): (r: seq<Project>)
    ensures forall p :: multiset(r)[p] == if Owns(interns, userId, p) then multiset(projects)[p] else 0
  {
    if FindIntern(interns, userId).None? then [] else AssignedToCounts(projects, userId); AssignedTo(projects, userId)
  }

  /** `myProjects.map(p => p.id)`. */
  function ProjectIds(projects: seq<Project>): seq<int> {
    seq(|projects|, i requires 0 <= i < |projects| => projects[i].id)
  }

  /** `tasks.filter(t => projectIds.includes(t.projectId))`. */
  function TasksOf(tasks: seq<Task>, projectIds: seq<int>): seq<Task> {
    if tasks == [] then []
    else
      var last := tasks[|tasks| - 1];
      TasksOf(tasks[..|tasks| - 1], projectIds) + if last.projectId in projectIds then [last] else []
  }

  /** The filter keeps every copy of a task whose project is listed and drops every other task. */
  lemma {:induction false} TasksOfCounts(tasks: seq<Task>, projectIds: seq<int>)
    ensures forall t :: multiset(TasksOf(tasks, projectIds))[t] == (if t.projectId in projectIds then multiset(tasks)[t] else 0)
  {
    if tasks != [] {
      var last := tasks[|tasks| - 1];
      assert tasks == tasks[..|tasks| - 1] + [last];
      TasksOfCounts(tasks[..|tasks| - 1], projectIds);
    }
  }

  /** The filter keeps the input order: filtering two lists put end to end gives the two
      filtered lists end to end. */
  lemma {:induction false} TasksOfAppend(a: seq<Task>, b: seq<Task>, projectIds: seq<int>)
    ensures TasksOf(a + b, projectIds) == TasksOf(a, projectIds) + TasksOf(b, projectIds)
    decreases |b|
  {
    if b == [] {
      assert a + b == a;
    } else {
      var b', t := b[..|b| - 1], b[|b| - 1];
      var kept := if t.projectId in projectIds then [t] else [];
      assert (a + b)[..|a + b| - 1] == a + b' && (a + b)[|a + b| - 1] == t;
      assert TasksOf(a + b, projectIds) == TasksOf(a + b', projectIds) + kept;
      assert TasksOf(b, projectIds) == TasksOf(b', projectIds) + kept;
      TasksOfAppend(a, b', projectIds);
      assert TasksOf(a, projectIds) + TasksOf(b', projectIds) + kept == TasksOf(a, projectIds) + (TasksOf(b', projectIds) + kept);
    }
  }

  /** A single task is kept exactly when its project is listed. */
  lemma TasksOfOne(t: Task, projectIds: seq<int>)
    ensures TasksOf([t], projectIds) == if t.projectId in projectIds then [t] else []
  {
    assert [t][..0] == [];
  }
}
