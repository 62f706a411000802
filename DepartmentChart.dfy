/** The bar chart of the dashboard: for an administrator or a supervisor, the number of
    interns per department, largest first; for an intern ("STAGIAIRE"), the number of
    their own tasks per status, in the fixed order of a task's life. */
module DepartmentChart {
  import opened ArrayOps
  import opened OrderedMap
  import opened Tally
  import opened Records

  /** The bar of interns whose department is missing or empty. */
  const Undefined := "Non défini"

  /** `{ department, interns }`: one bar of the department chart. */
  datatype DepartmentPoint = DepartmentPoint(department: string, interns: nat)

  /** `{ status, count }`: one bar of the task chart. */
  datatype StatusPoint = StatusPoint(status: string, count: nat)

  // ----- interns per department -----

  /** `intern.department || 'Non défini'`: the empty string is falsy, so it is undefined too. */
  function DepartmentName(intern: Intern): (d: string)
    ensures d != ""
    ensures d == Undefined <==> intern.department in {None, Some(""), Some(Undefined)}
    ensures d != Undefined ==> intern.department == Some(d)
  {
    if intern.department.None? || intern.department.value == "" then Undefined else intern.department.value
  }

  /** The department bar of each intern, in input order. */
  function DepartmentNames(interns: seq<Intern>): seq<string> {
    seq(|interns|, i requires 0 <= i < |interns| => DepartmentName(interns[i]))
  }

  /** One more intern adds its department bar at the end. */
  lemma DepartmentNamesAppend(interns: seq<Intern>, intern: Intern)
    ensures DepartmentNames(interns + [intern]) == DepartmentNames(interns) + [DepartmentName(intern)]
  {
    var a, b := DepartmentNames(interns + [intern]), DepartmentNames(interns) + [DepartmentName(intern)];
    forall i | 0 <= i < |a| ensures a[i] == b[i] {
      if i < |interns| { assert (interns + [intern])[i] == interns[i]; }
    }
  }

  /** The `forEach` that fills `departmentMap`. */
  method CountDepartments(interns: seq<Intern>) returns (departmentMap: seq<(string, nat)>)
    ensures departmentMap == TallyOf(DepartmentNames(interns))
  {
    departmentMap := [];
    for i := 0 to |interns|
      invariant departmentMap == TallyOf(DepartmentNames(interns[..i]))
    {
      var dept := DepartmentName(interns[i]);
      departmentMap := Store(departmentMap, dept, GetOr(Lookup(departmentMap, dept), 0) + 1);
      assert interns[..i + 1] == interns[..i] + [interns[i]];
      DepartmentNamesAppend(interns[..i], interns[i]);
      TallyAppend(DepartmentNames(interns[..i]), dept);
    }
    assert interns[..|interns|] == interns;
  }

  /** `(a, b) => b.interns - a.interns`: larger departments first. */
  function BySize(e: (string, nat)): int {
    -(e.1 as int)
  }

  /** `.map(([department, interns]) => ({ department, interns }))`. */
  function DepartmentPoints(es: seq<(string, nat)>): seq<DepartmentPoint> {
    seq(|es|, i requires 0 <= i < |es| => DepartmentPoint(es[i].0, es[i].1))
  }

  /** The department chart's data. Renaming the fields of each entry commutes with the sort
      on their count, so the entries are sorted first. */
  function DepartmentData(interns: seq<Intern>): seq<DepartmentPoint> {
    DepartmentPoints(SortBy(TallyOf(DepartmentNames(interns)), BySize))
  }

  /** The department branch of `loadChartData`, once the interns are fetched. */
  method LoadDepartmentData(interns: seq<Intern>) returns (departmentData: seq<DepartmentPoint>)
    ensures departmentData == DepartmentData(interns)
  {
    var departmentMap := CountDepartments(interns);
    departmentData := DepartmentPoints(SortBy(departmentMap, BySize));
  }

  /** The sum of `height` over the bars of a chart. */
  function BarsTotal<T>(bars: seq<T>, height: T -> int): int {
    if bars == [] then 0 else height(bars[0]) + BarsTotal(bars[1..], height)
  }

  /** Bars whose heights are the counts of a map's entries, in order, add up to the map's total:
      renaming the entries into bars keeps the sum of their counts. */
  lemma {:induction false} BarsTotalOfCounts<T>(es: seq<(string, nat)>, bars: seq<T>, height: T -> int)
    requires |bars| == |es| && forall i :: 0 <= i < |es| ==> height(bars[i]) == es[i].1
    ensures BarsTotal(bars, height) == Total(es)
  {
    if es != [] {
      BarsTotalOfCounts(es[1..], bars[1..], height);
    }
  }

  /** The number of interns the bars add up to. */
  function InternsCounted(ds: seq<DepartmentPoint>): int {
    BarsTotal(ds, (d: DepartmentPoint) => d.interns)
  }

  /** One bar per department that occurs, none twice, each counting the interns of its
      department (so at least one), and no bars at all without interns. */
  lemma DepartmentBars(interns: seq<Intern>)
    ensures forall i, j :: 0 <= i < j < |DepartmentData(interns)| ==>
      DepartmentData(interns)[i].department != DepartmentData(interns)[j].department
    ensures forall i :: 0 <= i < |DepartmentData(interns)| ==>
      DepartmentData(interns)[i].interns == multiset(DepartmentNames(interns))[DepartmentData(interns)[i].department] >= 1
    ensures forall n :: 0 <= n < |interns| ==>
      exists i :: 0 <= i < |DepartmentData(interns)| && DepartmentData(interns)[i].department == DepartmentName(interns[n])
    ensures DepartmentData(interns) == [] <==> interns == []
  {
    var names := DepartmentNames(interns);
    var s := SortBy(TallyOf(names), BySize);
    var ds := DepartmentData(interns);
    SortedTallyEntries(names, BySize);
    assert CountsOf(names, s);
    forall i, j | 0 <= i < j < |ds| ensures ds[i].department != ds[j].department {
      assert ds[i].department == s[i].0 && ds[j].department == s[j].0;
    }
    forall i | 0 <= i < |ds| ensures ds[i].interns == multiset(names)[ds[i].department] >= 1 {
      assert ds[i] == DepartmentPoint(s[i].0, s[i].1);
    }
    forall n | 0 <= n < |interns|
      ensures exists i :: 0 <= i < |ds| && ds[i].department == DepartmentName(interns[n])
    {
      assert names[n] in names;
      var i :| 0 <= i < |s| && s[i].0 == names[n];
      assert ds[i].department == names[n];
    }
    if interns != [] {
      assert names[0] in names;
    }
  }

  /** Every intern is counted in exactly one bar: the bars add up to the number of interns. */
  lemma DepartmentsConserved(interns: seq<Intern>)
    ensures InternsCounted(DepartmentData(interns)) == |interns|
  {
    var names := DepartmentNames(interns);
    var s := SortBy(TallyOf(names), BySize);
    BarsTotalOfCounts(s, DepartmentPoints(s), (d: DepartmentPoint) => d.interns);
    SortedTallyTotal(names, BySize);
  }

  /** The bars go from the largest department to the smallest, and departments of equal size
      keep the order in which the first intern of each appears. */
  lemma DepartmentsDescending(interns: seq<Intern>)
    ensures forall i, j :: 0 <= i < j < |DepartmentData(interns)| ==>
      DepartmentData(interns)[i].interns >= DepartmentData(interns)[j].interns
    ensures forall i, j :: 0 <= i < j < |DepartmentData(interns)| ==>
      (DepartmentData(interns)[i].interns == DepartmentData(interns)[j].interns ==>
       IndexOf(DepartmentNames(interns), DepartmentData(interns)[i].department) <
       IndexOf(DepartmentNames(interns), DepartmentData(interns)[j].department))
  {
    var names := DepartmentNames(interns);
    var s := SortBy(TallyOf(names), BySize);
    var ds := DepartmentData(interns);
    SortedTallyTies(names, BySize);
    forall i, j | 0 <= i < j < |ds| ensures ds[i].interns >= ds[j].interns {
      assert BySize(s[i]) <= BySize(s[j]);
    }
    forall i, j | 0 <= i < j < |ds| && ds[i].interns == ds[j].interns
      ensures IndexOf(names, ds[i].department) < IndexOf(names, ds[j].department)
    {
      assert BySize(s[i]) == BySize(s[j]);
    }
  }

  // ----- the intern's tasks per status -----

  /** The status codes the backend uses, in the order of a task's life. */
  const StatusCodes := ["TODO", "IN_PROGRESS", "DONE", "BUG"]

  /** `['À faire', 'En cours', 'Terminé', 'Bug']`: the labels of the codes, in bar order. */
  const StatusOrder := ["À faire", "En cours", "Terminé", "Bug"]

  /** `getStatusLabel`: the French label of a known code, any other status unchanged. */
  function StatusLabel(status: string): string {
    match status
    case "TODO" => "À faire"
    case "IN_PROGRESS" => "En cours"
    case "DONE" => "Terminé"
    case "BUG" => "Bug"
    case _ => status
  }

  /** A known code becomes the label at its own position in the bar order; any other status
      is shown as it is. */
  lemma StatusLabelCodes(status: string)
    ensures status in StatusCodes ==> StatusLabel(status) == StatusOrder[IndexOf(StatusCodes, status)]
    ensures status !in StatusCodes ==> StatusLabel(status) == status
  {
  }

  /** Labelling twice changes nothing, since no label is itself a code; and a label is one of
      the four ordered labels exactly when the status was a code or already such a label. */
  lemma StatusLabelIdempotent(status: string)
    ensures StatusLabel(StatusLabel(status)) == StatusLabel(status)
    ensures StatusLabel(status) in StatusOrder <==> status in StatusCodes || status in StatusOrder
  {
    if status in StatusCodes {
      var k := IndexOf(StatusCodes, status);
      assert StatusOrder[k] !in StatusCodes;
    }
  }

  /** The label of each of the intern's tasks, in input order. */
  function StatusLabels(tasks: seq<Task>): seq<string> {
    seq(|tasks|, i requires 0 <= i < |tasks| => StatusLabel(tasks[i].status))
  }

  /** One more task adds its label at the end. */
  lemma StatusLabelsAppend(ts: seq<Task>, t: Task)
    ensures StatusLabels(ts + [t]) == StatusLabels(ts) + [StatusLabel(t.status)]
  {
    var a, b := StatusLabels(ts + [t]), StatusLabels(ts) + [StatusLabel(t.status)];
    forall i | 0 <= i < |a| ensures a[i] == b[i] {
      if i < |ts| { assert (ts + [t])[i] == ts[i]; }
    }
  }

  /** The `forEach` that fills `statusMap`. */
  method CountStatuses(myTasks: seq<Task>) returns (statusMap: seq<(string, nat)>)
    ensures statusMap == TallyOf(StatusLabels(myTasks))
  {
    statusMap := [];
    for i := 0 to |myTasks|
      invariant statusMap == TallyOf(StatusLabels(myTasks[..i]))
    {
      var status := StatusLabel(myTasks[i].status);
      statusMap := Store(statusMap, status, GetOr(Lookup(statusMap, status), 0) + 1);
      assert myTasks[..i + 1] == myTasks[..i] + [myTasks[i]];
      StatusLabelsAppend(myTasks[..i], myTasks[i]);
      TallyAppend(StatusLabels(myTasks[..i]), status);
    }
    assert myTasks[..|myTasks|] == myTasks;
  }

  /** `order.indexOf(status)`: the position of a label in the fixed order, -1 for any other. */
  function StatusRank(e: (string, nat)): int {
    IndexOf(StatusOrder, e.0)
  }

  /** `.map(([status, count]) => ({ status, count }))`. */
  function StatusPoints(es: seq<(string, nat)>): seq<StatusPoint> {
    seq(|es|, i requires 0 <= i < |es| => StatusPoint(es[i].0, es[i].1))
  }

  /** `myTasks`: the tasks of the projects that belong to the signed-in intern. */
  function MyTasks(interns: seq<Intern>, projects: seq<Project>, tasks: seq<Task>, userId: int): seq<Task> {
    TasksOf(tasks, ProjectIds(MyProjects(interns, projects, userId)))
  }

  /** The task chart's data. */
  function TaskStatusData(interns: seq<Intern>, projects: seq<Project>, tasks: seq<Task>, userId: int): seq<StatusPoint> {
    StatusPoints(SortBy(TallyOf(StatusLabels(MyTasks(interns, projects, tasks, userId))), StatusRank))
  }

  /** The intern branch of `loadChartData`, once interns, projects and tasks are fetched. */
  method LoadTaskStatusData(interns: seq<Intern>, projects: seq<Project>, tasks: seq<Task>, userId: int)
    returns (taskStatusData: seq<StatusPoint>)
    ensures taskStatusData == TaskStatusData(interns, projects, tasks, userId)
  {
    var myProjects := MyProjects(interns, projects, userId);
    var projectIds := ProjectIds(myProjects);
    var myTasks := TasksOf(tasks, projectIds);
    var statusMap := CountStatuses(myTasks);
    taskStatusData := StatusPoints(SortBy(statusMap, StatusRank));
  }

  /** Project `p` is one of the signed-in intern's and task `t` belongs to it. */
  predicate OwnTaskVia(interns: seq<Intern>, userId: int, p: Project, t: Task) {
    Owns(interns, userId, p) && p.id == t.projectId
  }

  /** Task `t` belongs to one of the signed-in intern's projects. */
  predicate OwnTask(interns: seq<Intern>, projects: seq<Project>, userId: int, t: Task) {
    exists p :: p in projects && OwnTaskVia(interns, userId, p, t)
  }

  /** A task's project is among the intern's project ids exactly when it is one of the
      intern's own projects. */
  lemma OwnTaskListed(interns: seq<Intern>, projects: seq<Project>, userId: int, t: Task)
    ensures t.projectId in ProjectIds(MyProjects(interns, projects, userId)) <==> OwnTask(interns, projects, userId, t)
  {
    var mine := MyProjects(interns, projects, userId);
    var ids := ProjectIds(mine);
    if t.projectId in ids {
      var i :| 0 <= i < |ids| && ids[i] == t.projectId;
      assert mine[i] in multiset(mine);
      assert mine[i] in multiset(projects);
      assert OwnTaskVia(interns, userId, mine[i], t);
    }
    if OwnTask(interns, projects, userId, t) {
      var p :| p in projects && OwnTaskVia(interns, userId, p, t);
      assert p in multiset(projects);
      assert p in multiset(mine);
      var i :| 0 <= i < |mine| && mine[i] == p;
      assert ids[i] == t.projectId;
    }
  }

  /** The intern's tasks are exactly the tasks (with their repetitions) whose project is one
      of the intern's own; with no intern for the user id there are none. */
  lemma MyTasksOwned(interns: seq<Intern>, projects: seq<Project>, tasks: seq<Task>, userId: int)
    ensures forall t ::
      multiset(MyTasks(interns, projects, tasks, userId))[t] == (if OwnTask(interns, projects, userId, t) then multiset(tasks)[t] else 0)
    ensures FindIntern(interns, userId).None? ==> MyTasks(interns, projects, tasks, userId) == []
  {
    var ids := ProjectIds(MyProjects(interns, projects, userId));
    TasksOfCounts(tasks, ids);
    forall t: Task ensures t.projectId in ids <==> OwnTask(interns, projects, userId, t) {
      OwnTaskListed(interns, projects, userId, t);
    }
  }

  /** The intern's tasks keep the order of the fetched tasks: one more task is appended
      exactly when it belongs to one of the intern's projects. */
  lemma MyTasksInOrder(interns: seq<Intern>, projects: seq<Project>, tasks: seq<Task>, t: Task, userId: int)
    ensures MyTasks(interns, projects, tasks + [t], userId) ==
      MyTasks(interns, projects, tasks, userId) + if OwnTask(interns, projects, userId, t) then [t] else []
  {
    var ids := ProjectIds(MyProjects(interns, projects, userId));
    TasksOfAppend(tasks, [t], ids);
    TasksOfOne(t, ids);
    OwnTaskListed(interns, projects, userId, t);
  }

  /** One bar per label that occurs among the intern's tasks, none twice, each counting the
      tasks with that label (so at least one). */
  lemma StatusBars(interns: seq<Intern>, projects: seq<Project>, tasks: seq<Task>, userId: int)
    ensures forall i, j :: 0 <= i < j < |TaskStatusData(interns, projects, tasks, userId)| ==>
      TaskStatusData(interns, projects, tasks, userId)[i].status != TaskStatusData(interns, projects, tasks, userId)[j].status
    ensures forall i :: 0 <= i < |TaskStatusData(interns, projects, tasks, userId)| ==>
      TaskStatusData(interns, projects, tasks, userId)[i].count ==
      multiset(StatusLabels(MyTasks(interns, projects, tasks, userId)))[TaskStatusData(interns, projects, tasks, userId)[i].status] >= 1
    ensures forall l :: l in StatusLabels(MyTasks(interns, projects, tasks, userId)) ==>
      exists i :: 0 <= i < |TaskStatusData(interns, projects, tasks, userId)| && TaskStatusData(interns, projects, tasks, userId)[i].status == l
  {
    var labels := StatusLabels(MyTasks(interns, projects, tasks, userId));
    var s := SortBy(TallyOf(labels), StatusRank);
    var ps := TaskStatusData(interns, projects, tasks, userId);
    SortedTallyEntries(labels, StatusRank);
    assert CountsOf(labels, s);
    forall i, j | 0 <= i < j < |ps| ensures ps[i].status != ps[j].status {
      assert ps[i].status == s[i].0 && ps[j].status == s[j].0;
    }
    forall i | 0 <= i < |ps| ensures ps[i].count == multiset(labels)[ps[i].status] >= 1 {
      assert ps[i] == StatusPoint(s[i].0, s[i].1);
    }
    forall l | l in labels ensures exists i :: 0 <= i < |ps| && ps[i].status == l {
      var i :| 0 <= i < |s| && s[i].0 == l;
      assert ps[i].status == l;
    }
  }

  /** The number of tasks the bars add up to. */
  function TasksCounted(ps: seq<StatusPoint>): int {
    BarsTotal(ps, (p: StatusPoint) => p.count)
  }

  /** Every task of the intern is counted in exactly one bar. */
  lemma StatusesConserved(interns: seq<Intern>, projects: seq<Project>, tasks: seq<Task>, userId: int)
    ensures TasksCounted(TaskStatusData(interns, projects, tasks, userId)) == |MyTasks(interns, projects, tasks, userId)|
  {
    var labels := StatusLabels(MyTasks(interns, projects, tasks, userId));
    var s := SortBy(TallyOf(labels), StatusRank);
    BarsTotalOfCounts(s, StatusPoints(s), (p: StatusPoint) => p.count);
    SortedTallyTotal(labels, StatusRank);
  }

  /** Labels outside the fixed order (rank -1) come first, in the order in which each first
      appears among the tasks; the four known labels follow in the fixed order. */
  lemma StatusesOrdered(interns: seq<Intern>, projects: seq<Project>, tasks: seq<Task>, userId: int)
    ensures forall i, j :: 0 <= i < j < |TaskStatusData(interns, projects, tasks, userId)| ==>
      var a, b := TaskStatusData(interns, projects, tasks, userId)[i].status, TaskStatusData(interns, projects, tasks, userId)[j].status;
      if b in StatusOrder then a !in StatusOrder || IndexOf(StatusOrder, a) < IndexOf(StatusOrder, b)
      else a !in StatusOrder && IndexOf(StatusLabels(MyTasks(interns, projects, tasks, userId)), a) <
                                IndexOf(StatusLabels(MyTasks(interns, projects, tasks, userId)), b)
  {
    var labels := StatusLabels(MyTasks(interns, projects, tasks, userId));
    var s := SortBy(TallyOf(labels), StatusRank);
    var ps := TaskStatusData(interns, projects, tasks, userId);
    SortedTallyEntries(labels, StatusRank);
    assert DistinctKeys(s);
    SortedTallyTies(labels, StatusRank);
    forall i, j | 0 <= i < j < |ps|
      ensures var a, b := ps[i].status, ps[j].status;
        if b in StatusOrder then a !in StatusOrder || IndexOf(StatusOrder, a) < IndexOf(StatusOrder, b)
        else a !in StatusOrder && IndexOf(labels, a) < IndexOf(labels, b)
    {
      assert StatusRank(s[i]) <= StatusRank(s[j]);
      assert s[i].0 != s[j].0;
    }
  }

  /** A task whose raw status is already the label "Bug" shares the bar of the code BUG. */
  lemma StatusLabelMerges()
    ensures StatusLabel("Bug") == StatusLabel("BUG") == "Bug"
  {
  }
}
