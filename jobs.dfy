/** The jobs routes: every job is reached through a department the caller owns. */
module Jobs {
  import opened Http
  import opened Entities
  import opened Scope
  import opened Store

  datatype JobPayload = JobPayload(name: string, departmentId: int)

  const DepartmentNotFound: string := "Department not found"
  const JobNotFound: string := "Job not found"

  /** `_ensure_department_access`: a missing department and another admin's
      department raise the same error. */
  function EnsureDepartmentAccess(t: Tables, caller: int, d: int): (r: Result<()>)
    ensures r.Ok? <==> d in DepartmentsOf(t, caller)
    ensures r.Err? ==> r.error == NotFound(DepartmentNotFound)
  {
    if d !in t.departments || t.departments[d].adminId != caller then Err(NotFound(DepartmentNotFound))
    else Ok(())
  }

  /** `_ensure_job_access`: walks job -> department -> admin_id. */
  function EnsureJobAccess(t: Tables, caller: int, j: int): (r: Result<Job>)
    ensures r.Ok? <==> j in ScopeJobs(t, caller)
    ensures r.Ok? ==> r.value == t.jobs[j]
    ensures r.Err? ==> r.error == NotFound(JobNotFound)
  {
    if j !in t.jobs || AdminOf(t, JobDepartment(t, j)) != Some(caller) then Err(NotFound(JobNotFound))
    else Ok(t.jobs[j])
  }

  /** `list_jobs`: the jobs joined with their department, filtered on its admin. */
  function ListJobs(t: Tables, caller: int): (r: map<int, Job>)
    ensures forall j :: j in r <==> GetJob(t, caller, j).Ok?
    ensures forall j :: j in r ==> GetJob(t, caller, j).value == Row(j, r[j])
  {
    map j | j in t.jobs && t.jobs[j].departmentId in t.departments
                        && t.departments[t.jobs[j].departmentId].adminId == caller :: t.jobs[j]
  }

  /** `get_job` */
  function GetJob(t: Tables, caller: int, j: int): (r: Result<Row<Job>>)
    ensures r.Ok? <==> j in ScopeJobs(t, caller)
    ensures r.Ok? ==> r.value == Row(j, t.jobs[j])
    ensures r.Err? ==> r.error == NotFound(JobNotFound)
  {
    match EnsureJobAccess(t, caller, j)
    case Ok(job) => Ok(Row(j, job))
    case Err(e) => Err(e)
  }

  /** Another admin's job answers exactly as a job that does not exist. */
  lemma ForeignJobLooksMissing(t: Tables, caller: int, j: int)
    requires j !in ScopeJobs(t, caller)
    ensures GetJob(t, caller, j) == GetJob(t.(jobs := t.jobs - {j}), caller, j)
  {
  }

  /** `create_job` */
  method CreateJob(db: Database, caller: int, payload: JobPayload) returns (r: Result<Row<Job>>)
    requires db.Valid() && caller in db.admins
    modifies db
    ensures db.Valid()
    ensures r.Ok? <==> payload.departmentId in DepartmentsOf(old(db.Snapshot()), caller)
    ensures r.Err? ==> r.error == NotFound(DepartmentNotFound) && db.Snapshot() == old(db.Snapshot())
    ensures r.Ok? ==> r.value.id !in old(db.jobs) && r.value.record == Job(payload.name, payload.departmentId)
    ensures r.Ok? ==> db.Snapshot() == old(db.Snapshot()).(jobs := old(db.jobs)[r.value.id := r.value.record])
    ensures r.Ok? ==> GetJob(db.Snapshot(), caller, r.value.id) == Ok(r.value)
  {
    var check := EnsureDepartmentAccess(db.Snapshot(), caller, payload.departmentId);
    if check.Err? {
      return Err(check.error);
    }
    var id := db.next.job;
    var job := Job(payload.name, payload.departmentId);
    db.jobs := db.jobs[id := job];
    db.next := db.next.(job := id + 1);
    r := Ok(Row(id, job));
  }

  /** `update_job`: the department is re-checked only when it changes; since a
      job in scope already sits in an owned department, that is the same as
      requiring the new department to be owned. */
  method UpdateJob(db: Database, caller: int, j: int, payload: JobPayload) returns (r: Result<Row<Job>>)
    requires db.Valid() && caller in db.admins
    modifies db
    ensures db.Valid()
    ensures r.Ok? <==> j in ScopeJobs(old(db.Snapshot()), caller)
                       && payload.departmentId in DepartmentsOf(old(db.Snapshot()), caller)
    ensures r.Err? ==> db.Snapshot() == old(db.Snapshot())
    ensures r.Err? && j !in ScopeJobs(old(db.Snapshot()), caller) ==> r.error == NotFound(JobNotFound)
    ensures r.Err? && j in ScopeJobs(old(db.Snapshot()), caller) ==> r.error == NotFound(DepartmentNotFound)
    ensures r.Ok? ==> r.value == Row(j, Job(payload.name, payload.departmentId))
    ensures r.Ok? ==> db.Snapshot() == old(db.Snapshot()).(jobs := old(db.jobs)[j := r.value.record])
  {
    var access := EnsureJobAccess(db.Snapshot(), caller, j);
    if access.Err? {
      return Err(access.error);
    }
    if payload.departmentId != db.jobs[j].departmentId {
      var check := EnsureDepartmentAccess(db.Snapshot(), caller, payload.departmentId);
      if check.Err? {
        return Err(check.error);
      }
    }
    var job := Job(payload.name, payload.departmentId);
    db.jobs := db.jobs[j := job];
    r := Ok(Row(j, job));
  }

  /** `delete_job`: the job goes with its users and their tasks and statistics. */
  method DeleteJob(db: Database, caller: int, j: int) returns (r: Result<()>)
    requires db.Valid()
    modifies db
    ensures db.Valid()
    ensures r.Ok? <==> j in ScopeJobs(old(db.Snapshot()), caller)
    ensures r.Err? ==> r.error == NotFound(JobNotFound) && db.Snapshot() == old(db.Snapshot())
    ensures r.Ok? ==> db.Snapshot() == WithoutJobs(old(db.Snapshot()), {j})
  {
    var access := EnsureJobAccess(db.Snapshot(), caller, j);
    if access.Err? {
      return Err(access.error);
    }
    db.RemoveJobs({j});
    r := Ok(());
  }
}
