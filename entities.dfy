/** The ORM models: one record per table row, and the invariants of the schema. */
module Entities {

  /** Dates are opaque: no handler does arithmetic on them. */
  type Date = int

  datatype Admin = Admin(email: string, fullName: string, passwordHash: string)
  datatype Department = Department(name: string, adminId: int)
  datatype Job = Job(name: string, departmentId: int)
  datatype User = User(name: string, jobId: int)
  datatype Task = Task(userId: int, date: Date, description: string)
  datatype Statistic = Statistic(date: Date, userId: int, metricId: int, value: int)
  datatype Metric = Metric(name: string, cost: int)
  datatype Reviewer = Reviewer(name: string, description: string)

  /** A row as a route returns it: its primary key and its columns. */
  datatype Row<R> = Row(id: int, record: R)

  /** The whole database at one moment: each table maps primary keys to rows. */
  datatype Tables = Tables(
    admins: map<int, Admin>,
    departments: map<int, Department>,
    jobs: map<int, Job>,
    users: map<int, User>,
    tasks: map<int, Task>,
    statistics: map<int, Statistic>,
    metrics: map<int, Metric>,
    reviewers: map<int, Reviewer>)

  /** The key of the composite unique constraint on statistics. */
  datatype StatisticKey = StatisticKey(date: Date, userId: int, metricId: int)

  function KeyOf(s: Statistic): StatisticKey {
    StatisticKey(s.date, s.userId, s.metricId)
  }

  predicate UniqueEmails(admins: map<int, Admin>) {
    forall a, b :: a in admins && b in admins && admins[a].email == admins[b].email ==> a == b
  }

  predicate UniqueDepartmentNames(departments: map<int, Department>) {
    forall a, b :: a in departments && b in departments && departments[a].name == departments[b].name ==> a == b
  }

  predicate UniqueMetricNames(metrics: map<int, Metric>) {
    forall a, b :: a in metrics && b in metrics && metrics[a].name == metrics[b].name ==> a == b
  }

  predicate UniqueStatisticKeys(statistics: map<int, Statistic>) {
    forall a, b :: a in statistics && b in statistics && KeyOf(statistics[a]) == KeyOf(statistics[b]) ==> a == b
  }

  /** Every required foreign key names an existing row (statistics.metric_id is not
      part of this: no handler checks it and the default engine does not enforce it). */
  predicate ReferencesResolve(t: Tables) {
    && (forall d :: d in t.departments ==> t.departments[d].adminId in t.admins)
    && (forall j :: j in t.jobs ==> t.jobs[j].departmentId in t.departments)
    && (forall u :: u in t.users ==> t.users[u].jobId in t.jobs)
    && (forall k :: k in t.tasks ==> t.tasks[k].userId in t.users)
    && (forall s :: s in t.statistics ==> t.statistics[s].userId in t.users)
  }

  /** The schema invariant every committed state satisfies. */
  predicate Valid(t: Tables) {
    && ReferencesResolve(t)
    && UniqueEmails(t.admins)
    && UniqueDepartmentNames(t.departments)
    && UniqueMetricNames(t.metrics)
    && UniqueStatisticKeys(t.statistics)
  }

  /** Admin.departments: the departments whose admin_id is the admin's id. */
  function DepartmentsOf(t: Tables, adminId: int): set<int>
  {
    set d | d in t.departments && t.departments[d].adminId == adminId
  }

  /** Department.jobs */
  function JobsOf(t: Tables, departmentId: int): set<int>
  {
    set j | j in t.jobs && t.jobs[j].departmentId == departmentId
  }

  /** The users of any job in js (Job.users, over several jobs). */
  function UsersOfJobs(t: Tables, js: set<int>): set<int>
  {
    set u | u in t.users && t.users[u].jobId in js
  }

  /** Metric.statistics */
  function StatisticsOfMetric(t: Tables, metricId: int): set<int>
  {
    set s | s in t.statistics && t.statistics[s].metricId == metricId
  }

}
