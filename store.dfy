/** The database session as an object whose tables the handlers change in place,
    and the ORM's delete cascades (Department -> Job -> User -> Task, Statistic). */
module Store {
  import opened Http
  import opened Entities
  import opened Scope

  // ---- The cascades as functions of the state before the delete ----

  /** Deleting users deletes their tasks and statistics (User.tasks, User.statistics). */
  function WithoutUsers(t: Tables, us: set<int>): Tables {
    t.(users := t.users - us,
       tasks := map k | k in t.tasks && t.tasks[k].userId !in us :: t.tasks[k],
       statistics := map s | s in t.statistics && t.statistics[s].userId !in us :: t.statistics[s])
  }

  /** Deleting jobs deletes their users, and so on down (Job.users). */
  function WithoutJobs(t: Tables, js: set<int>): Tables {
    WithoutUsers(t.(jobs := t.jobs - js), UsersOfJobs(t, js))
  }

  /** Deleting a department deletes its jobs, and so on down (Department.jobs). */
  function WithoutDepartment(t: Tables, d: int): Tables {
    WithoutJobs(t.(departments := t.departments - {d}), JobsOf(t, d))
  }

  /** Every table of `after` keeps a subset of the rows of `before`, unchanged. */
  predicate Shrinks(before: Tables, after: Tables) {
    && after.admins == before.admins
    && after.metrics == before.metrics
    && after.reviewers == before.reviewers
    && after.departments.Keys <= before.departments.Keys
    && (forall d :: d in after.departments ==> after.departments[d] == before.departments[d])
    && after.jobs.Keys <= before.jobs.Keys
    && (forall j :: j in after.jobs ==> after.jobs[j] == before.jobs[j])
    && after.users.Keys <= before.users.Keys
    && (forall u :: u in after.users ==> after.users[u] == before.users[u])
    && after.tasks.Keys <= before.tasks.Keys
    && (forall k :: k in after.tasks ==> after.tasks[k] == before.tasks[k])
    && after.statistics.Keys <= before.statistics.Keys
    && (forall s :: s in after.statistics ==> after.statistics[s] == before.statistics[s])
  }

  /** Deleting users keeps the schema invariant, and keeps exactly the tasks and
      statistics whose user is kept. */
  lemma UserCascade(t: Tables, us: set<int>)
    requires Valid(t)
    ensures Valid(WithoutUsers(t, us)) && Shrinks(t, WithoutUsers(t, us))
    ensures forall u :: u in WithoutUsers(t, us).users <==> u in t.users && u !in us
    ensures forall k :: k in WithoutUsers(t, us).tasks <==> k in t.tasks && t.tasks[k].userId in WithoutUsers(t, us).users
    ensures forall s :: s in WithoutUsers(t, us).statistics <==>
                        s in t.statistics && t.statistics[s].userId in WithoutUsers(t, us).users
  {
  }

  /** Deleting jobs keeps the schema invariant and keeps exactly the users whose
      job is kept, and the tasks and statistics of those users. */
  lemma JobCascade(t: Tables, js: set<int>)
    requires Valid(t)
    ensures Valid(WithoutJobs(t, js)) && Shrinks(t, WithoutJobs(t, js))
    ensures forall j :: j in WithoutJobs(t, js).jobs <==> j in t.jobs && j !in js
    ensures forall u :: u in WithoutJobs(t, js).users <==> u in t.users && t.users[u].jobId in WithoutJobs(t, js).jobs
    ensures forall k :: k in WithoutJobs(t, js).tasks <==> k in t.tasks && t.tasks[k].userId in WithoutJobs(t, js).users
    ensures forall s :: s in WithoutJobs(t, js).statistics <==>
                        s in t.statistics && t.statistics[s].userId in WithoutJobs(t, js).users
  {
  }

  /** Deleting a department removes exactly the rows whose chain leads up to it:
      its jobs, their users and those users' tasks and statistics. */
  lemma DepartmentCascade(t: Tables, d: int)
    requires Valid(t)
    ensures Valid(WithoutDepartment(t, d)) && Shrinks(t, WithoutDepartment(t, d))
    ensures WithoutDepartment(t, d).departments == t.departments - {d}
    ensures forall j :: j in WithoutDepartment(t, d).jobs <==> j in t.jobs && JobDepartment(t, j) != Some(d)
    ensures forall u :: u in WithoutDepartment(t, d).users <==> u in t.users && UserDepartment(t, u) != Some(d)
    ensures forall k :: k in WithoutDepartment(t, d).tasks <==> k in t.tasks && TaskDepartment(t, k) != Some(d)
    ensures forall s :: s in WithoutDepartment(t, d).statistics <==>
                        s in t.statistics && StatisticDepartment(t, s) != Some(d)
  {
  }

  /** Deleting admin a's department leaves every other admin's scope, and every
      row in it, as it was. */
  lemma DepartmentCascadeIsolated(t: Tables, d: int, a: int, b: int)
    requires Valid(t) && d in t.departments && t.departments[d].adminId == a && a != b
    ensures DepartmentsOf(WithoutDepartment(t, d), b) == DepartmentsOf(t, b)
    ensures ScopeJobs(WithoutDepartment(t, d), b) == ScopeJobs(t, b)
    ensures ScopeUsers(WithoutDepartment(t, d), b) == ScopeUsers(t, b)
    ensures ScopeTasks(WithoutDepartment(t, d), b) == ScopeTasks(t, b)
    ensures ScopeStatistics(WithoutDepartment(t, d), b) == ScopeStatistics(t, b)
  {
  }

  // ---- The session ----

  predicate KeysBelow<R>(m: map<int, R>, bound: int) {
    forall k :: k in m ==> k < bound
  }

  /** The next value of each table's primary-key sequence. */
  datatype Sequences = Sequences(
    admin: int, department: int, job: int, user: int,
    task: int, statistic: int, metric: int, reviewer: int)

  /** Every key of every table was issued by that table's sequence. */
  predicate Issued(t: Tables, n: Sequences) {
    && KeysBelow(t.admins, n.admin)
    && KeysBelow(t.departments, n.department)
    && KeysBelow(t.jobs, n.job)
    && KeysBelow(t.users, n.user)
    && KeysBelow(t.tasks, n.task)
    && KeysBelow(t.statistics, n.statistic)
    && KeysBelow(t.metrics, n.metric)
    && KeysBelow(t.reviewers, n.reviewer)
  }

  lemma IssuedShrinks(before: Tables, after: Tables, n: Sequences)
    requires Issued(before, n) && Shrinks(before, after)
    ensures Issued(after, n)
  {
  }

  /** The tables of the session, and their key sequences. */
  class Database {
    var admins: map<int, Admin>
    var departments: map<int, Department>
    var jobs: map<int, Job>
    var users: map<int, User>
    var tasks: map<int, Task>
    var statistics: map<int, Statistic>
    var metrics: map<int, Metric>
    var reviewers: map<int, Reviewer>
    var next: Sequences

    /** The committed contents of all tables. */
    function Snapshot(): Tables
      reads this
    {
      Tables(admins, departments, jobs, users, tasks, statistics, metrics, reviewers)
    }

    ghost predicate Valid()
      reads this
    {
      Entities.Valid(Snapshot()) && Issued(Snapshot(), next)
    }

    /** A freshly migrated, empty database. */
    constructor ()
      ensures Valid()
      ensures Snapshot() == Tables(map[], map[], map[], map[], map[], map[], map[], map[])
    {
      admins, departments, jobs, users := map[], map[], map[], map[];
      tasks, statistics, metrics, reviewers := map[], map[], map[], map[];
      next := Sequences(1, 1, 1, 1, 1, 1, 1, 1);
    }

    /** `session.delete` on users: their tasks and statistics go first. */
    method RemoveUsers(us: set<int>)
      requires Valid()
      modifies this
      ensures Valid() && next == old(next)
      ensures Snapshot() == WithoutUsers(old(Snapshot()), us)
    {
      ghost var before := Snapshot();
      UserCascade(before, us);
      IssuedShrinks(before, WithoutUsers(before, us), next);
      tasks := map k | k in tasks && tasks[k].userId !in us :: tasks[k];
      statistics := map s | s in statistics && statistics[s].userId !in us :: statistics[s];
      users := users - us;
      assert Snapshot() == WithoutUsers(before, us);
    }

    /** `session.delete` on jobs: their users (and theirs) go first. */
    method RemoveJobs(js: set<int>)
      requires Valid()
      modifies this
      ensures Valid() && next == old(next)
      ensures Snapshot() == WithoutJobs(old(Snapshot()), js)
    {
      ghost var before := Snapshot();
      JobCascade(before, js);
      IssuedShrinks(before, WithoutJobs(before, js), next);
      RemoveUsers(UsersOfJobs(Snapshot(), js));
      jobs := jobs - js;
      assert Snapshot() == WithoutJobs(before, js);
    }

    /** `session.delete` on a department: its jobs (and theirs) go first. */
    method RemoveDepartment(d: int)
      requires Valid()
      modifies this
      ensures Valid() && next == old(next)
      ensures Snapshot() == WithoutDepartment(old(Snapshot()), d)
    {
      ghost var before := Snapshot();
      DepartmentCascade(before, d);
      IssuedShrinks(before, WithoutDepartment(before, d), next);
      RemoveJobs(JobsOf(Snapshot(), d));
      departments := departments - {d};
      assert Snapshot() == WithoutDepartment(before, d);
    }
  }
}
