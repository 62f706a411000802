# Dashboard chart aggregation, modelled in Dafny

This project models the client-side aggregation of the internship-management dashboard.
Two React components compute their data on the client; the model covers that computation.

- **The progress chart** (`ProgressChart.tsx`) has two modes.
  - For an administrator or a supervisor, it groups projects by the month of their start date. Each month holds the sum, the number and the running maximum of the projects' progress. The months are sorted chronologically and the last six become points: the rounded average and the best progress.
  - For an intern ("STAGIAIRE"), it walks month by month from the start of the internship to the earlier of today and its end. At each step it averages the progress of the projects started by then, and keeps the last six points.
- **The bar chart** (`DepartmentChart.tsx`) also has two modes.
  - For an administrator or a supervisor, it counts interns per department, with "Non défini" for a missing or empty department, and sorts the bars largest first.
  - For an intern, it finds their projects and those projects' tasks, and labels each task status in French ("À faire", "En cours", "Terminé", "Bug"). It counts tasks per label and sorts the bars in that fixed order.

Modules:

- `ArrayOps` models the JavaScript array and number operations the charts use:
  - `Math.max`, `Math.round` of a quotient, `reduce` for a sum, `slice(-n)`, `indexOf`;
  - `Array.prototype.sort`, which is stable, modelled as a stable insertion sort on an integer rank.
- `OrderedMap` models a JavaScript `Map` as its entries in insertion order:
  - `get` answers from the first entry with the key;
  - `set` replaces a present key in place and appends a new one;
  - `Array.from(map.entries())` is the entry list itself.
- `Tally` is the counting idiom `map.set(k, (map.get(k) || 0) + 1)` that both bar charts use.
- `Calendar` has months (year and month number) and dates (a month plus one number for the day and the time of day).
- `Records` holds the intern, project and task records, and how the signed-in intern finds their own projects and tasks.
- `ProgressChart` models `calculateMonthlyProgress` and `calculatePersonalProgress`.
- `DepartmentChart` models the two branches of `loadChartData` and `getStatusLabel`.

The source's loops are methods proved equal to specification functions:

- the `forEach` that fills a `Map`;
- the `while` loop of the personal walk.

The properties are lemmas about those functions.

Two places where the code and the intent its own names show differ:

- The chart's legend calls the monthly line "Meilleure Performance" (`ProgressChart.tsx:212`), the best progress of the month. But the fold seeds `Math.max` with 0 (`ProgressChart.tsx:78`, `:81`), so a month whose projects all have negative progress shows 0. The model follows the code with `MaxFrom(0, …)`, and `MonthlyPerformanceIsMax` proves that the point is the month's best progress whenever no progress is negative.
- The comparator at `ProgressChart.tsx:86-89` evidently intends chronological order of the months. The model sorts chronologically; "## Left out" records how the label re-parsing departs from that.

## Model

| member | source | states |
|---|---|---|
| ArrayOps.Max | frontend/src/components/Dashboard/ProgressChart.tsx:81 | `Math.max` of two numbers, by definition |
| ArrayOps.Sum | frontend/src/components/Dashboard/ProgressChart.tsx:121 | `reduce((sum, x) => sum + x, 0)`, a left fold, by definition; its value is used through `MonthlyProgressPoints` and `PointAt` |
| ArrayOps.MaxFrom | frontend/src/components/Dashboard/ProgressChart.tsx:78-81 | the running `Math.max` from its seed is at least the seed, at least every value, and equal to the seed or to one of the values |
| ArrayOps.MaxOf | frontend/src/components/Dashboard/ProgressChart.tsx:124-126 | `Math.max(...values)` of a non-empty list is one of the values and no value exceeds it |
| ArrayOps.RoundDiv | frontend/src/components/Dashboard/ProgressChart.tsx:95 | `Math.round(total / count)` is the integer within half a step of the quotient, halves rounded up |
| ArrayOps.RoundDivUnique | frontend/src/components/Dashboard/ProgressChart.tsx:120-122 | only one integer meets the rounding bound, so any rounded average the bound admits is the one computed |
| ArrayOps.TakeLast | frontend/src/components/Dashboard/ProgressChart.tsx:91 | `slice(-6)` keeps min(length, 6) elements, and they are the last ones of the list |
| ArrayOps.IndexOf | frontend/src/components/Dashboard/DepartmentChart.tsx:81-82 | `indexOf` is -1 exactly when the element is absent; otherwise it is the position of its first occurrence |
| ArrayOps.IndexOfAppend | frontend/src/components/Dashboard/DepartmentChart.tsx:48-51 | appending does not move a present element's first occurrence, and a new element is found at the end |
| ArrayOps.InsertSorted | frontend/src/components/Dashboard/DepartmentChart.tsx:53-55 | inserting into a list sorted by rank keeps it sorted |
| ArrayOps.SortBy | frontend/src/components/Dashboard/DepartmentChart.tsx:53-55 | the sort returns a permutation of its input in ascending rank |
| ArrayOps.SortByStable | frontend/src/components/Dashboard/DepartmentChart.tsx:80-83 | the sort is stable: elements of equal rank keep any order they had in the input |
| Calendar.IndexInjective | frontend/src/components/Dashboard/ProgressChart.tsx:86-89 | two months compare equal chronologically only when they are the same month, so the order is strict and total |
| Calendar.Next | frontend/src/components/Dashboard/ProgressChart.tsx:134 | the following month is one step later, across the year end too |
| Calendar.AddMonths | frontend/src/components/Dashboard/ProgressChart.tsx:134 | n steps later is n months later |
| Calendar.StepMonth | frontend/src/components/Dashboard/ProgressChart.tsx:134 | `setMonth(getMonth() + 1)` moves one month on, keeps the day and time, and gives a strictly later date |
| Calendar.Shift | frontend/src/components/Dashboard/ProgressChart.tsx:134 | n monthly steps from a date land n months later with the same day and time |
| Calendar.ShiftOrdered | frontend/src/components/Dashboard/ProgressChart.tsx:112 | later steps of the walk give dates that are not earlier |
| Calendar.NotAfter | frontend/src/components/Dashboard/ProgressChart.tsx:111-117 | `a <= b` on dates, as in the loop guard and the start-date filter: an earlier month, or the same month with a day and time not later; by definition, used through `NotAfterTransitive`, `WalkSteps` and `StartedGrows` |
| Calendar.NotAfterTransitive | frontend/src/components/Dashboard/ProgressChart.tsx:117 | `<=` on dates is transitive |
| OrderedMap.GetOr | frontend/src/components/Dashboard/DepartmentChart.tsx:50 | the value `map.get(k)` answers, or the fallback when the key is absent; the values are never falsy, so this is the source's `or` |
| OrderedMap.Lookup | frontend/src/components/Dashboard/DepartmentChart.tsx:50 | `Map.get`, defined on the entry list; described by `LookupFinds` and `LookupEntry` |
| OrderedMap.Store | frontend/src/components/Dashboard/DepartmentChart.tsx:50 | `Map.set`, defined on the entry list; described by `StoreLookup`, `StoreKeys` and `StoreDistinct` |
| OrderedMap.LookupFinds | frontend/src/components/Dashboard/DepartmentChart.tsx:50 | `get` finds a key exactly when an entry holds it, and answers with the value of the first entry that holds it |
| OrderedMap.LookupEntry | frontend/src/components/Dashboard/DepartmentChart.tsx:53 | in a map without repeated keys, `get` of each entry's key answers its value |
| OrderedMap.StoreLookup | frontend/src/components/Dashboard/DepartmentChart.tsx:50 | after `set(k, v)`, `get(k)` is v and every other key answers as before |
| OrderedMap.StoreKeys | frontend/src/components/Dashboard/DepartmentChart.tsx:50 | `set` of a new key appends it at the end; `set` of a present key leaves every key in place |
| OrderedMap.StoreDistinct | frontend/src/components/Dashboard/DepartmentChart.tsx:50 | `set` never creates a second entry for a key |
| OrderedMap.SumOfStore | frontend/src/components/Dashboard/ProgressChart.tsx:82 | `set` changes the sum of the values by the new value less the value it replaces |
| OrderedMap.SumOfAppend | frontend/src/components/Dashboard/DepartmentChart.tsx:53-55 | the sum over two entry lists put end to end is the sum of their sums |
| OrderedMap.SumOfInsert | frontend/src/components/Dashboard/DepartmentChart.tsx:53-55 | inserting an entry adds its weight to the sum |
| OrderedMap.SumOfSortBy | frontend/src/components/Dashboard/DepartmentChart.tsx:53-55 | sorting the entries keeps the sum of their values |
| OrderedMap.SortByDistinctKeys | frontend/src/components/Dashboard/DepartmentChart.tsx:53-55 | sorting the entries keeps their keys distinct |
| OrderedMap.InsertDistinctKeys | frontend/src/components/Dashboard/DepartmentChart.tsx:53-55 | inserting an entry with a new key keeps the keys distinct |
| Tally.Bump | frontend/src/components/Dashboard/DepartmentChart.tsx:50 | one counting step: `set(k, c + 1)` where c is the count `get(k)` answers, or 0 for a new key, by definition |
| Tally.TallyOf | frontend/src/components/Dashboard/DepartmentChart.tsx:72-76 | the map the counting `forEach` leaves behind, a fold of `Bump`; described by `TallyCounts`, `TallyTotal`, `TallyEntries` and `TallyFirstAppearance` |
| Tally.TallyAppend | frontend/src/components/Dashboard/DepartmentChart.tsx:48-51 | counting one more element bumps its count in the map counted so far |
| Tally.TallyCounts | frontend/src/components/Dashboard/DepartmentChart.tsx:47-51 | the counting map has distinct keys; `get(k)` is the number of occurrences of k when k occurs, and nothing otherwise |
| Tally.TallyTotal | frontend/src/components/Dashboard/DepartmentChart.tsx:47-51 | the counts add up to the number of elements counted |
| Tally.TallyEntries | frontend/src/components/Dashboard/DepartmentChart.tsx:47-51 | every entry is an occurring element with its number of occurrences, at least 1 |
| Tally.TallyFirstAppearance | frontend/src/components/Dashboard/DepartmentChart.tsx:47-51 | the entries come in the order in which their elements first occur |
| Tally.SortedTallyEntries | frontend/src/components/Dashboard/DepartmentChart.tsx:53-55 | after sorting, there is still exactly one entry per distinct element, holding its number of occurrences |
| Tally.SortedTallyTotal | frontend/src/components/Dashboard/DepartmentChart.tsx:53-55 | after sorting, the counts still add up to the number of elements |
| Tally.SortedTallyTies | frontend/src/components/Dashboard/DepartmentChart.tsx:53-55 | after sorting, entries of equal rank stay in first-occurrence order |
| Records.FindIntern | frontend/src/components/Dashboard/ProgressChart.tsx:57 | `find` gives nothing exactly when no intern has the user id; otherwise it gives the first intern that has it |
| Records.AssignedTo | frontend/src/components/Dashboard/ProgressChart.tsx:59 | the `filter` on the assigned id, a fold over the projects in input order; described by `AssignedToCounts`, `AssignedToAppend` and `AssignedToOne` |
| Records.AssignedToCounts | frontend/src/components/Dashboard/ProgressChart.tsx:59 | the filter keeps every copy of a project assigned to the id and drops every other project |
| Records.AssignedToAppend | frontend/src/components/Dashboard/ProgressChart.tsx:59 | the filter keeps input order: filtering two lists end to end gives the two filtered lists end to end |
| Records.AssignedToOne | frontend/src/components/Dashboard/ProgressChart.tsx:59 | a single project is kept exactly when it is assigned to the id |
| Records.MyProjects | frontend/src/components/Dashboard/ProgressChart.tsx:57-59 | the intern's projects are exactly the projects assigned to their id, and there are none when no intern has that id (the id text is then '') |
| Records.ProjectIds | frontend/src/components/Dashboard/DepartmentChart.tsx:69 | element-wise definition of `map(p => p.id)`; used through `OwnTaskListed` |
| Records.TasksOf | frontend/src/components/Dashboard/DepartmentChart.tsx:70 | the `filter` on the listed project ids, a fold over the tasks in input order; described by `TasksOfCounts`, `TasksOfAppend` and `TasksOfOne` |
| Records.TasksOfCounts | frontend/src/components/Dashboard/DepartmentChart.tsx:70 | the filter keeps every copy of a task whose project id is listed and drops every other task |
| Records.TasksOfAppend | frontend/src/components/Dashboard/DepartmentChart.tsx:70 | the filter keeps input order: filtering two lists end to end gives the two filtered lists end to end |
| Records.TasksOfOne | frontend/src/components/Dashboard/DepartmentChart.tsx:70 | a single task is kept exactly when its project id is listed |
| ProgressChart.MonthOf | frontend/src/components/Dashboard/ProgressChart.tsx:75-76 | the bucket key of a project: the month of `new Date(project.startDate)`, by definition; the month stands for its locale label, as "## Left out" records |
| ProgressChart.AddProject | frontend/src/components/Dashboard/ProgressChart.tsx:78-82 | one turn of the `forEach`: the bucket of the project's month takes in its progress; described by `BucketTakesProgress` and `BucketStep` |
| ProgressChart.BucketsOf | frontend/src/components/Dashboard/ProgressChart.tsx:74-83 | the map the `forEach` leaves behind, a fold of `AddProject`; described by `BucketsMatchMonths` and `BucketCountsConserved` |
| ProgressChart.MonthBuckets | frontend/src/components/Dashboard/ProgressChart.tsx:72-83 | the `forEach` leaves the map that `BucketsOf` specifies |
| ProgressChart.ProgressInCount | frontend/src/components/Dashboard/ProgressChart.tsx:74-76 | a month has as many progress values as there are projects started in it |
| ProgressChart.BucketsMatchMonths | frontend/src/components/Dashboard/ProgressChart.tsx:74-83 | each month has one bucket exactly when a project started in it; the bucket holds the sum, the number and the maximum (from 0) of those projects' progress |
| ProgressChart.BucketStep | frontend/src/components/Dashboard/ProgressChart.tsx:78-82 | one more project changes only the bucket of its own month, and that bucket stays as specified |
| ProgressChart.BucketTakesProgress | frontend/src/components/Dashboard/ProgressChart.tsx:79-81 | a project adds its progress to the sum, 1 to the count and its progress to the maximum of its month's bucket |
| ProgressChart.BucketCountsConserved | frontend/src/components/Dashboard/ProgressChart.tsx:74-83 | the bucket counts add up to the number of projects: none is lost or counted twice |
| ProgressChart.MonthRank | frontend/src/components/Dashboard/ProgressChart.tsx:86-89 | the comparator's evident intent: a bucket's rank is its month's chronological position |
| ProgressChart.LatestBuckets | frontend/src/components/Dashboard/ProgressChart.tsx:85-91 | the buckets sorted by month, the last six; described by `LatestBucketsAscending` and `MonthlyProgressLatest` |
| ProgressChart.ToPoint | frontend/src/components/Dashboard/ProgressChart.tsx:93-97 | one bucket's point: the month, the rounded average (0 for an empty bucket) and the maximum; described by `MonthlyProgressPoints` |
| ProgressChart.MonthlyProgress | frontend/src/components/Dashboard/ProgressChart.tsx:71-98 | `calculateMonthlyProgress` as a function; described by `MonthlyProgressLength`, `MonthlyProgressAscending`, `MonthlyProgressPoints`, `MonthlyProgressLatest` and `MonthlyProgressExample` |
| ProgressChart.Points | frontend/src/components/Dashboard/ProgressChart.tsx:93-97 | element-wise definition of the `.map`: one `ToPoint` per kept bucket, in order; what the points mean is proved in `MonthlyProgressPoints` |
| ProgressChart.CalculateMonthlyProgress | frontend/src/components/Dashboard/ProgressChart.tsx:71-98 | the method computes `MonthlyProgress`, which the lemmas below describe |
| ProgressChart.SortedBucketsAscending | frontend/src/components/Dashboard/ProgressChart.tsx:85-90 | after sorting, the buckets' months are strictly ascending |
| ProgressChart.ChronologicalSuffix | frontend/src/components/Dashboard/ProgressChart.tsx:91 | dropping the earliest entries keeps months strictly ascending |
| ProgressChart.LatestBucketsAscending | frontend/src/components/Dashboard/ProgressChart.tsx:85-91 | the kept buckets' months are strictly ascending |
| ProgressChart.MonthlyProgressLength | frontend/src/components/Dashboard/ProgressChart.tsx:85-98 | at most six points, as many as months when there are fewer than six; no points exactly when there are no projects |
| ProgressChart.MonthlyProgressAscending | frontend/src/components/Dashboard/ProgressChart.tsx:85-97 | the points' months are strictly ascending, so no month appears twice |
| ProgressChart.MonthlyProgressPoints | frontend/src/components/Dashboard/ProgressChart.tsx:93-97 | each point's month has projects; its progress is the rounded average and its performance the maximum (from 0) of their progress |
| ProgressChart.MonthHasSortedBucket | frontend/src/components/Dashboard/ProgressChart.tsx:74-90 | every project's month has an entry among the sorted buckets |
| ProgressChart.MonthlyProgressLatest | frontend/src/components/Dashboard/ProgressChart.tsx:85-91 | each project's month either has a point or comes before every month shown: the six kept are the latest |
| ProgressChart.KeptIsShown | frontend/src/components/Dashboard/ProgressChart.tsx:91-97 | a sorted bucket among the last six has a point with its month |
| ProgressChart.SuffixIsShown | frontend/src/components/Dashboard/ProgressChart.tsx:91-97 | an entry among the last six of a list has a point with its month |
| ProgressChart.KeptAfterDropped | frontend/src/components/Dashboard/ProgressChart.tsx:85-91 | a sorted bucket that is dropped comes before every month shown |
| ProgressChart.DroppedBeforeShown | frontend/src/components/Dashboard/ProgressChart.tsx:91 | in a chronological list, an entry before the last six comes before every point shown |
| ProgressChart.MonthlyPerformanceIsMax | frontend/src/components/Dashboard/ProgressChart.tsx:81 | when no progress is negative, each point's performance is the largest progress of its month |
| ProgressChart.ProgressInValues | frontend/src/components/Dashboard/ProgressChart.tsx:79-81 | every value a month aggregates is some project's progress |
| ProgressChart.ExampleBuckets | frontend/src/components/Dashboard/ProgressChart.tsx:74-83 | projects of January 2024 with 40 and 60 and one of February with 90 give buckets (100, 2, 60) and (90, 1, 90) |
| ProgressChart.ExampleSorted | frontend/src/components/Dashboard/ProgressChart.tsx:85-90 | those two buckets are already in order |
| ProgressChart.ExamplePoints | frontend/src/components/Dashboard/ProgressChart.tsx:93-97 | they become points (January, 50, 60) and (February, 90, 90) |
| ProgressChart.MonthlyProgressExample | frontend/src/components/Dashboard/ProgressChart.tsx:71-98 | the whole monthly computation on that input gives those two points |
| ProgressChart.Started | frontend/src/components/Dashboard/ProgressChart.tsx:115-118 | the filter on start dates, keeping input order; described by `StartedCounts` and `StartedGrows` |
| ProgressChart.StartedCounts | frontend/src/components/Dashboard/ProgressChart.tsx:115-118 | the filter keeps every copy of a project started by the date and drops every other project |
| ProgressChart.Progresses | frontend/src/components/Dashboard/ProgressChart.tsx:125 | element-wise definition of `map(p => p.progress)` |
| ProgressChart.PointAt | frontend/src/components/Dashboard/ProgressChart.tsx:115-132 | the point pushed at one date: month, rounded average and `Math.max` of the projects started by then, or 0 and 0; described by `PerformanceNeverDecreases` and `ExampleOwnPoints` |
| ProgressChart.Walk | frontend/src/components/Dashboard/ProgressChart.tsx:112-135 | the dates the `while` loop visits; described by `WalkSteps` and `ExampleWalk` |
| ProgressChart.PersonalProgress | frontend/src/components/Dashboard/ProgressChart.tsx:100-138 | `calculatePersonalProgress` as a function; described by `PersonalProgressShape`, `PersonalPerformanceNeverDecreases` and `PersonalProgressExample` |
| ProgressChart.PointsAlong | frontend/src/components/Dashboard/ProgressChart.tsx:112-132 | one point per visited date, in order, each computed from the projects started by that date |
| ProgressChart.WalkStep | frontend/src/components/Dashboard/ProgressChart.tsx:112-134 | a date within both bounds contributes its point, then the walk continues from the following month |
| ProgressChart.CalculatePersonalProgress | frontend/src/components/Dashboard/ProgressChart.tsx:100-138 | the method computes `PersonalProgress`, which the lemmas below describe |
| ProgressChart.WalkSteps | frontend/src/components/Dashboard/ProgressChart.tsx:112-134 | the walk visits the consecutive monthly steps from the start that are after neither today nor the end, and stops at the first step that is |
| ProgressChart.LastPointsOfWalk | frontend/src/components/Dashboard/ProgressChart.tsx:112-137 | the last six points of the walk are those of its last six monthly steps |
| ProgressChart.PersonalProgressShape | frontend/src/components/Dashboard/ProgressChart.tsx:100-137 | no intern, start date or end date gives no points; otherwise at most six points, each the point of one of the walk's last six steps |
| ProgressChart.StartedGrows | frontend/src/components/Dashboard/ProgressChart.tsx:115-118 | a later date never drops a project from those already started |
| ProgressChart.StartedValueSeenLater | frontend/src/components/Dashboard/ProgressChart.tsx:115-125 | a project started by one date is counted at every later date |
| ProgressChart.PerformanceNeverDecreases | frontend/src/components/Dashboard/ProgressChart.tsx:115-126 | when no progress is negative, the best progress at a later date is not lower |
| ProgressChart.LastStepsPerformance | frontend/src/components/Dashboard/ProgressChart.tsx:112-135 | when no progress is negative, performance never goes down along successive monthly steps |
| ProgressChart.PersonalPerformanceNeverDecreases | frontend/src/components/Dashboard/ProgressChart.tsx:100-138 | when no progress is negative, the personal chart's performance line never goes down |
| ProgressChart.ExampleWalk | frontend/src/components/Dashboard/ProgressChart.tsx:112-135 | from 1 January to 1 March 2024, seen on 1 April, the loop visits January, February and March |
| ProgressChart.ExampleStarted | frontend/src/components/Dashboard/ProgressChart.tsx:115-118 | a project started later in the day than a step is not counted at that step |
| ProgressChart.ExampleOwnPoints | frontend/src/components/Dashboard/ProgressChart.tsx:115-132 | the three steps give (40, 40), (40, 40) and (60, 80) |
| ProgressChart.PersonalProgressExample | frontend/src/components/Dashboard/ProgressChart.tsx:100-138 | that internship gives exactly three points, one per stepped month |
| ProgressChart.OwnProgress | frontend/src/components/Dashboard/ProgressChart.tsx:57-61 | the intern branch: the walk over the found intern's internship with their own projects; described by `OwnProgressWithoutIntern` and `OwnProgressIgnoresOthers` |
| ProgressChart.OwnProgressWithoutIntern | frontend/src/components/Dashboard/ProgressChart.tsx:57-61 | a user id with no intern record gets no chart |
| ProgressChart.OwnProgressIgnoresOthers | frontend/src/components/Dashboard/ProgressChart.tsx:57-61 | removing a project assigned to someone else from anywhere in the fetched list leaves the intern's chart unchanged |
| DepartmentChart.DepartmentName | frontend/src/components/Dashboard/DepartmentChart.tsx:49 | the bar is never empty; it is "Non défini" exactly when the department is missing, empty or literally "Non défini", and otherwise the department itself |
| DepartmentChart.DepartmentNames | frontend/src/components/Dashboard/DepartmentChart.tsx:48-49 | element-wise definition: one department bar per intern, in input order |
| DepartmentChart.DepartmentNamesAppend | frontend/src/components/Dashboard/DepartmentChart.tsx:48-49 | one more intern adds its bar at the end |
| DepartmentChart.CountDepartments | frontend/src/components/Dashboard/DepartmentChart.tsx:47-51 | the `forEach` leaves the count of each department bar, in first-occurrence order |
| DepartmentChart.DepartmentPoints | frontend/src/components/Dashboard/DepartmentChart.tsx:54 | element-wise definition of the renaming to `{ department, interns }` |
| DepartmentChart.BySize | frontend/src/components/Dashboard/DepartmentChart.tsx:55 | the comparator `b.interns - a.interns` as a rank: larger departments first |
| DepartmentChart.DepartmentData | frontend/src/components/Dashboard/DepartmentChart.tsx:47-55 | the department chart's data as a function; described by `DepartmentBars`, `DepartmentsConserved` and `DepartmentsDescending` |
| DepartmentChart.LoadDepartmentData | frontend/src/components/Dashboard/DepartmentChart.tsx:47-55 | the branch computes `DepartmentData`, which the lemmas below describe |
| DepartmentChart.BarsTotalOfCounts | frontend/src/components/Dashboard/DepartmentChart.tsx:54 | bars whose heights are the entries' counts, in order, add up to the total count, so renaming the entries into bars (`:54`, `:79`) keeps the sum |
| DepartmentChart.DepartmentBars | frontend/src/components/Dashboard/DepartmentChart.tsx:47-55 | one bar per department that occurs and no bar twice; each bar counts the interns of its department (at least 1); every intern's department has a bar; no bars exactly when there are no interns |
| DepartmentChart.DepartmentsConserved | frontend/src/components/Dashboard/DepartmentChart.tsx:47-55 | the bars add up to the number of interns |
| DepartmentChart.DepartmentsDescending | frontend/src/components/Dashboard/DepartmentChart.tsx:53-55 | bars go from the largest department to the smallest; equal sizes keep the order of each department's first intern |
| DepartmentChart.StatusLabel | frontend/src/components/Dashboard/DepartmentChart.tsx:94-102 | `getStatusLabel`, the `switch` itself; described by `StatusLabelCodes`, `StatusLabelIdempotent` and `StatusLabelMerges` |
| DepartmentChart.StatusLabelCodes | frontend/src/components/Dashboard/DepartmentChart.tsx:94-102 | each of the four codes becomes the label at its own position in the bar order, and any other status is shown unchanged |
| DepartmentChart.StatusLabelIdempotent | frontend/src/components/Dashboard/DepartmentChart.tsx:94-102 | labelling twice changes nothing; a label is one of the four ordered labels exactly when the status was a code or already such a label |
| DepartmentChart.StatusLabelMerges | frontend/src/components/Dashboard/DepartmentChart.tsx:99-100 | a raw status "Bug" shares the bar of the code "BUG" |
| DepartmentChart.StatusLabels | frontend/src/components/Dashboard/DepartmentChart.tsx:73-74 | element-wise definition: one label per task, in input order |
| DepartmentChart.StatusLabelsAppend | frontend/src/components/Dashboard/DepartmentChart.tsx:73-74 | one more task adds its label at the end |
| DepartmentChart.CountStatuses | frontend/src/components/Dashboard/DepartmentChart.tsx:72-76 | the `forEach` leaves the count of each label, in first-occurrence order |
| DepartmentChart.StatusPoints | frontend/src/components/Dashboard/DepartmentChart.tsx:79 | element-wise definition of the renaming to `{ status, count }` |
| DepartmentChart.StatusRank | frontend/src/components/Dashboard/DepartmentChart.tsx:80-83 | the comparator `order.indexOf(a.status) - order.indexOf(b.status)` as a rank, -1 for a label outside the order |
| DepartmentChart.TaskStatusData | frontend/src/components/Dashboard/DepartmentChart.tsx:66-83 | the task chart's data as a function; described by `StatusBars`, `StatusesConserved` and `StatusesOrdered` |
| DepartmentChart.LoadTaskStatusData | frontend/src/components/Dashboard/DepartmentChart.tsx:66-83 | the branch computes `TaskStatusData`, which the lemmas below describe |
| DepartmentChart.MyTasks | frontend/src/components/Dashboard/DepartmentChart.tsx:66-70 | `myTasks`: the tasks filtered on the ids of the intern's projects; described by `MyTasksOwned` and `MyTasksInOrder` |
| DepartmentChart.OwnTaskListed | frontend/src/components/Dashboard/DepartmentChart.tsx:66-70 | a task's project id is among the intern's project ids exactly when its project is one of the intern's own |
| DepartmentChart.MyTasksOwned | frontend/src/components/Dashboard/DepartmentChart.tsx:66-70 | the intern's tasks are exactly the tasks, with repetitions, whose project is one of the intern's own; there are none without an intern record |
| DepartmentChart.MyTasksInOrder | frontend/src/components/Dashboard/DepartmentChart.tsx:66-70 | the intern's tasks keep the fetched order: one more task is appended exactly when it belongs to one of the intern's projects |
| DepartmentChart.StatusBars | frontend/src/components/Dashboard/DepartmentChart.tsx:72-83 | one bar per label among the intern's tasks and no bar twice; each bar counts the tasks with its label (at least 1) |
| DepartmentChart.StatusesConserved | frontend/src/components/Dashboard/DepartmentChart.tsx:72-83 | the bars add up to the number of the intern's tasks |
| DepartmentChart.StatusesOrdered | frontend/src/components/Dashboard/DepartmentChart.tsx:78-83 | labels outside the fixed order (`indexOf` -1) come first, in first-occurrence order; the four known labels follow in the fixed order |

## Left out

- The React components, their state, loading spinners and rendering are not modelled.
- Fetching, the services, roles and error handling are not modelled. The administrator and supervisor branches differ only in which interns and projects the services return. The model takes the fetched collections as parameters.
- Locale formatting (`toLocaleDateString('fr-FR', …)`) is not modelled. A month is `MonthKey(year, month)` rather than its label. Labels have two-digit years, so the source merges months a century apart ("janv. 24" for 1924 and 2024). The model keeps those months apart.
- Date parsing and time zones are not modelled.
  - The monthly sort's comparator re-parses the French label with `new Date(label)`. That parse is not chronological and can give an invalid date (NaN). The result is then engine-dependent, so the model sorts by the month's chronological position, which is the comparator's evident intent.
  - A project's start date is a `Date` value. Two source paths for other start dates are not modelled:
    - an `undefined` or unparsable `startDate` gives an invalid date. The monthly chart then files the project under the label "Invalid Date", and the personal filter never counts it, because every comparison with an invalid date is false;
    - a `null` `startDate` gives the epoch, 1 January 1970. The monthly chart then files the project under "janv. 70", and the personal filter counts it at every step of the walk.
- The day-of-month overflow of `setMonth` (31 January plus one month is 2 or 3 March) is not modelled. `StepMonth` moves to the next month and keeps the day and time unchanged.
- The clock: `new Date()` in `calculatePersonalProgress` is the parameter `today`.
- Floating point is not modelled. Progress values are integers, and `Math.round(total / count)` is `RoundDiv`, computed exactly in integer arithmetic.
- `calculateMonthlyProgress` takes an `interns` argument it never uses. `CalculateMonthlyProgress` takes it too and ignores it.
- DepartmentChart.DepartmentData: the source renames entries to `{ department, interns }` and then sorts. The model sorts the entries and then renames them. The comparator reads only the count, so the result is the same.
- DepartmentChart.TaskStatusData: the source renames entries to `{ status, count }` and then sorts. The model sorts the entries and then renames them. The comparator reads only the status, so the result is the same.
- MaxOf: the model requires a non-empty list. The source calls `Math.max(...)` only when there is at least one project; on an empty list it would give -Infinity.
