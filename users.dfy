/** The users routes: a user is reached through its job's department. */
module Users {
  import opened Http
  import opened Entities
  import opened Scope
  import opened Store
  import Jobs
  import Departments

  datatype UserPayload = UserPayload(name: string, jobId: int)

  const UserNotFound: string := "User not found"

  /** `_ensure_user_access`: walks user -> job -> department -> admin_id. */
  function EnsureUserAccess(t: Tables, caller: int, u: int): (r: Result<User>)
    ensures r.Ok? <==> u in ScopeUsers(t, caller)
    ensures r.Ok? ==> r.value == t.users[u]
    ensures r.Err? ==> r.error == NotFound(UserNotFound)
  {
    if u !in t.users || AdminOf(t, UserDepartment(t, u)) != Some(caller) then Err(NotFound(UserNotFound))
    else Ok(t.users[u])
  }

  /** `list_users`: users joined with job and department, filtered on its admin. */
  function ListUsers(t: Tables, caller: int): (r: map<int, User>)
    ensures forall u :: u in r <==> GetUser(t, caller, u).Ok?
    ensures forall u :: u in r ==> GetUser(t, caller, u).value == Row(u, r[u])
  {
    map u | u in t.users && t.users[u].jobId in t.jobs
                         && t.jobs[t.users[u].jobId].departmentId in t.departments
                         && t.departments[t.jobs[t.users[u].jobId].departmentId].adminId == caller :: t.users[u]
  }

  /** `get_user` */
  function GetUser(t: Tables, caller: int, u: int): (r: Result<Row<User>>)
    ensures r.Ok? <==> u in ScopeUsers(t, caller)
    ensures r.Ok? ==> r.value == Row(u, t.users[u])
    ensures r.Err? ==> r.error == NotFound(UserNotFound)
  {
    match EnsureUserAccess(t, caller, u)
    case Ok(user) => Ok(Row(u, user))
    case Err(e) => Err(e)
  }

  /** Another admin's user answers exactly as a user that does not exist. */
  lemma ForeignUserLooksMissing(t: Tables, caller: int, u: int)
    requires u !in ScopeUsers(t, caller)
    ensures GetUser(t, caller, u) == GetUser(t.(users := t.users - {u}), caller, u)
  {
  }

  /** `create_user`: the job must be the caller's; the new user adds one to the
      head count of that job's department and to no other. */
  method CreateUser(db: Database, caller: int, payload: UserPayload) returns (r: Result<Row<User>>)
    requires db.Valid()
    modifies db
    ensures db.Valid()
    ensures r.Ok? <==> payload.jobId in ScopeJobs(old(db.Snapshot()), caller)
    ensures r.Err? ==> r.error == NotFound(Jobs.JobNotFound) && db.Snapshot() == old(db.Snapshot())
    ensures r.Ok? ==> r.value.id !in old(db.users) && r.value.record == User(payload.name, payload.jobId)
    ensures r.Ok? ==> db.Snapshot() == old(db.Snapshot()).(users := old(db.users)[r.value.id := r.value.record])
    ensures r.Ok? ==> GetUser(db.Snapshot(), caller, r.value.id) == Ok(r.value)
    ensures r.Ok? ==> (forall d :: Departments.EmployeesCount(db.Snapshot(), d) ==
                         Departments.EmployeesCount(old(db.Snapshot()), d) + (if old(db.jobs)[payload.jobId].departmentId == d then 1 else 0))
  {
    var access := Jobs.EnsureJobAccess(db.Snapshot(), caller, payload.jobId);
    if access.Err? {
      return Err(access.error);
    }
    ghost var before := db.Snapshot();
    var id := db.next.user;
    var user := User(payload.name, payload.jobId);
    forall d ensures Departments.EmployeesCount(before.(users := before.users[id := user]), d) ==
                     Departments.EmployeesCount(before, d) + (if before.jobs[payload.jobId].departmentId == d then 1 else 0)
    {
      Departments.NewUserCountsOnce(before, id, user, d);
    }
    db.users := db.users[id := user];
    db.next := db.next.(user := id + 1);
    r := Ok(Row(id, user));
  }

  /** `update_user`: the job is re-checked only when it changes, which under the
      schema invariant is the same as requiring the new job to be the caller's. */
  method UpdateUser(db: Database, caller: int, u: int, payload: UserPayload) returns (r: Result<Row<User>>)
    requires db.Valid()
    modifies db
    ensures db.Valid()
    ensures r.Ok? <==> u in ScopeUsers(old(db.Snapshot()), caller) && payload.jobId in ScopeJobs(old(db.Snapshot()), caller)
    ensures r.Err? ==> db.Snapshot() == old(db.Snapshot())
    ensures r.Err? && u !in ScopeUsers(old(db.Snapshot()), caller) ==> r.error == NotFound(UserNotFound)
    ensures r.Err? && u in ScopeUsers(old(db.Snapshot()), caller) ==> r.error == NotFound(Jobs.JobNotFound)
    ensures r.Ok? ==> r.value == Row(u, User(payload.name, payload.jobId))
    ensures r.Ok? ==> db.Snapshot() == old(db.Snapshot()).(users := old(db.users)[u := r.value.record])
  {
    var access := EnsureUserAccess(db.Snapshot(), caller, u);
    if access.Err? {
      return Err(access.error);
    }
    if payload.jobId != db.users[u].jobId {
      var check := Jobs.EnsureJobAccess(db.Snapshot(), caller, payload.jobId);
      if check.Err? {
        return Err(check.error);
      }
    }
    var user := User(payload.name, payload.jobId);
    db.users := db.users[u := user];
    r := Ok(Row(u, user));
  }

  /** `delete_user`: the user goes with its tasks and statistics. */
  method DeleteUser(db: Database, caller: int, u: int) returns (r: Result<()>)
    requires db.Valid()
    modifies db
    ensures db.Valid()
    ensures r.Ok? <==> u in ScopeUsers(old(db.Snapshot()), caller)
    ensures r.Err? ==> r.error == NotFound(UserNotFound) && db.Snapshot() == old(db.Snapshot())
    ensures r.Ok? ==> db.Snapshot() == WithoutUsers(old(db.Snapshot()), {u})
  {
    var access := EnsureUserAccess(db.Snapshot(), caller, u);
    if access.Err? {
      return Err(access.error);
    }
    db.RemoveUsers({u});
    r := Ok(());
  }
}
