/** The ownership chain Task/Statistic -> User -> Job -> Department -> Admin.
    Two definitions: the upward walk each `_ensure_*_access` helper performs on
    one row, and the downward scope reached from an admin, which the list
    queries' joins select. */
module Scope {
  import opened Http
  import opened Entities

  /** The admin owning department d, when d names a department. */
  function AdminOf(t: Tables, d: Option<int>): Option<int> {
    match d
    case Some(i) => if i in t.departments then Some(t.departments[i].adminId) else None
    case None => None
  }

  /** Job.department */
  function JobDepartment(t: Tables, j: int): Option<int> {
    if j in t.jobs then Some(t.jobs[j].departmentId) else None
  }

  /** User.job.department */
  function UserDepartment(t: Tables, u: int): Option<int> {
    if u in t.users then JobDepartment(t, t.users[u].jobId) else None
  }

  /** Task.user.job.department */
  function TaskDepartment(t: Tables, k: int): Option<int> {
    if k in t.tasks then UserDepartment(t, t.tasks[k].userId) else None
  }

  /** Statistic.user.job.department */
  function StatisticDepartment(t: Tables, s: int): Option<int> {
    if s in t.statistics then UserDepartment(t, t.statistics[s].userId) else None
  }

  // The downward scope of admin a: everything reachable from its departments,
  // `DepartmentsOf(t, a)`.

  function ScopeJobs(t: Tables, a: int): set<int> {
    set j | j in t.jobs && t.jobs[j].departmentId in DepartmentsOf(t, a)
  }

  function ScopeUsers(t: Tables, a: int): set<int> {
    UsersOfJobs(t, ScopeJobs(t, a))
  }

  function ScopeTasks(t: Tables, a: int): set<int> {
    set k | k in t.tasks && t.tasks[k].userId in ScopeUsers(t, a)
  }

  function ScopeStatistics(t: Tables, a: int): set<int> {
    set s | s in t.statistics && t.statistics[s].userId in ScopeUsers(t, a)
  }

  /** Walking up from a row reaches admin a exactly when the row lies in a's
      downward scope; no schema invariant is needed for this. */
  lemma ChainWalkMatchesScope(t: Tables, a: int)
    ensures forall d :: AdminOf(t, Some(d)) == Some(a) <==> d in DepartmentsOf(t, a)
    ensures forall j :: AdminOf(t, JobDepartment(t, j)) == Some(a) <==> j in ScopeJobs(t, a)
    ensures forall u :: AdminOf(t, UserDepartment(t, u)) == Some(a) <==> u in ScopeUsers(t, a)
    ensures forall k :: AdminOf(t, TaskDepartment(t, k)) == Some(a) <==> k in ScopeTasks(t, a)
    ensures forall s :: AdminOf(t, StatisticDepartment(t, s)) == Some(a) <==> s in ScopeStatistics(t, a)
  {
  }

  /** Two different admins never share a row of any kind. */
  lemma ScopesAreDisjoint(t: Tables, a: int, b: int)
    requires a != b
    ensures DepartmentsOf(t, a) !! DepartmentsOf(t, b)
    ensures ScopeJobs(t, a) !! ScopeJobs(t, b)
    ensures ScopeUsers(t, a) !! ScopeUsers(t, b)
    ensures ScopeTasks(t, a) !! ScopeTasks(t, b)
    ensures ScopeStatistics(t, a) !! ScopeStatistics(t, b)
  {
  }

  /** Under the schema invariant every row below a department hangs under an
      existing department, and so belongs to exactly one admin's scope. */
  lemma EveryRowHasAnOwner(t: Tables)
    requires Valid(t)
    ensures forall j :: j in t.jobs ==> exists a :: j in ScopeJobs(t, a)
    ensures forall u :: u in t.users ==> exists a :: u in ScopeUsers(t, a)
    ensures forall k :: k in t.tasks ==> exists a :: k in ScopeTasks(t, a)
    ensures forall s :: s in t.statistics ==> exists a :: s in ScopeStatistics(t, a)
  {
    forall j | j in t.jobs ensures exists a :: j in ScopeJobs(t, a) {
      OwnerWitness(t, j, t.departments[t.jobs[j].departmentId].adminId);
    }
    forall u | u in t.users ensures exists a :: u in ScopeUsers(t, a) {
      var j := t.users[u].jobId;
      OwnerWitness(t, j, t.departments[t.jobs[j].departmentId].adminId);
    }
    forall k | k in t.tasks ensures exists a :: k in ScopeTasks(t, a) {
      var j := t.users[t.tasks[k].userId].jobId;
      var a := t.departments[t.jobs[j].departmentId].adminId;
      OwnerWitness(t, j, a);
      assert k in ScopeTasks(t, a);
    }
    forall s | s in t.statistics ensures exists a :: s in ScopeStatistics(t, a) {
      var j := t.users[t.statistics[s].userId].jobId;
      var a := t.departments[t.jobs[j].departmentId].adminId;
      OwnerWitness(t, j, a);
      assert s in ScopeStatistics(t, a);
    }
  }

  /** A job in a's scope puts its users, and their tasks and statistics, in it too. */
  lemma OwnerWitness(t: Tables, j: int, a: int)
    requires j in t.jobs && t.jobs[j].departmentId in t.departments
    requires t.departments[t.jobs[j].departmentId].adminId == a
    ensures j in ScopeJobs(t, a)
    ensures forall u :: u in t.users && t.users[u].jobId == j ==> u in ScopeUsers(t, a)
  {
  }
}
