/** The tasks routes: a task is reached through its user's job's department. */
module Tasks {
  import opened Http
  import opened Entities
  import opened Scope
  import opened Store
  import Users

  datatype TaskPayload = TaskPayload(userId: int, date: Date, description: string)

  const TaskNotFound: string := "Task not found"

  function TaskOf(payload: TaskPayload): Task {
    Task(payload.userId, payload.date, payload.description)
  }

  /** `_ensure_task_access`: walks task -> user -> job -> department -> admin_id. */
  function EnsureTaskAccess(t: Tables, caller: int, k: int): (r: Result<Task>)
    ensures r.Ok? <==> k in ScopeTasks(t, caller)
    ensures r.Ok? ==> r.value == t.tasks[k]
    ensures r.Err? ==> r.error == NotFound(TaskNotFound)
  {
    if k !in t.tasks || AdminOf(t, TaskDepartment(t, k)) != Some(caller) then Err(NotFound(TaskNotFound))
    else Ok(t.tasks[k])
  }

  /** `list_tasks`: tasks joined with user, job and department, filtered on its admin. */
  function ListTasks(t: Tables, caller: int): (r: map<int, Task>)
    ensures forall k :: k in r <==> GetTask(t, caller, k).Ok?
    ensures forall k :: k in r ==> GetTask(t, caller, k).value == Row(k, r[k])
  {
    map k | k in t.tasks && t.tasks[k].userId in t.users
                         && t.users[t.tasks[k].userId].jobId in t.jobs
                         && t.jobs[t.users[t.tasks[k].userId].jobId].departmentId in t.departments
                         && t.departments[t.jobs[t.users[t.tasks[k].userId].jobId].departmentId].adminId == caller
      :: t.tasks[k]
  }

  /** `get_task` */
  function GetTask(t: Tables, caller: int, k: int): (r: Result<Row<Task>>)
    ensures r.Ok? <==> k in ScopeTasks(t, caller)
    ensures r.Ok? ==> r.value == Row(k, t.tasks[k])
    ensures r.Err? ==> r.error == NotFound(TaskNotFound)
  {
    match EnsureTaskAccess(t, caller, k)
    case Ok(task) => Ok(Row(k, task))
    case Err(e) => Err(e)
  }

  /** Another admin's task answers exactly as a task that does not exist. */
  lemma ForeignTaskLooksMissing(t: Tables, caller: int, k: int)
    requires k !in ScopeTasks(t, caller)
    ensures GetTask(t, caller, k) == GetTask(t.(tasks := t.tasks - {k}), caller, k)
  {
  }

  /** `create_task` */
  method CreateTask(db: Database, caller: int, payload: TaskPayload) returns (r: Result<Row<Task>>)
    requires db.Valid()
    modifies db
    ensures db.Valid()
    ensures r.Ok? <==> payload.userId in ScopeUsers(old(db.Snapshot()), caller)
    ensures r.Err? ==> r.error == NotFound(Users.UserNotFound) && db.Snapshot() == old(db.Snapshot())
    ensures r.Ok? ==> r.value.id !in old(db.tasks) && r.value.record == TaskOf(payload)
    ensures r.Ok? ==> db.Snapshot() == old(db.Snapshot()).(tasks := old(db.tasks)[r.value.id := r.value.record])
    ensures r.Ok? ==> GetTask(db.Snapshot(), caller, r.value.id) == Ok(r.value)
  {
    var access := Users.EnsureUserAccess(db.Snapshot(), caller, payload.userId);
    if access.Err? {
      return Err(access.error);
    }
    var id := db.next.task;
    db.tasks := db.tasks[id := TaskOf(payload)];
    db.next := db.next.(task := id + 1);
    r := Ok(Row(id, TaskOf(payload)));
  }

  /** `update_task`: all three fields are replaced; the user is re-checked only
      when it changes. */
  method UpdateTask(db: Database, caller: int, k: int, payload: TaskPayload) returns (r: Result<Row<Task>>)
    requires db.Valid()
    modifies db
    ensures db.Valid()
    ensures r.Ok? <==> k in ScopeTasks(old(db.Snapshot()), caller) && payload.userId in ScopeUsers(old(db.Snapshot()), caller)
    ensures r.Err? ==> db.Snapshot() == old(db.Snapshot())
    ensures r.Err? && k !in ScopeTasks(old(db.Snapshot()), caller) ==> r.error == NotFound(TaskNotFound)
    ensures r.Err? && k in ScopeTasks(old(db.Snapshot()), caller) ==> r.error == NotFound(Users.UserNotFound)
    ensures r.Ok? ==> r.value == Row(k, TaskOf(payload))
    ensures r.Ok? ==> db.Snapshot() == old(db.Snapshot()).(tasks := old(db.tasks)[k := r.value.record])
  {
    var access := EnsureTaskAccess(db.Snapshot(), caller, k);
    if access.Err? {
      return Err(access.error);
    }
    if payload.userId != db.tasks[k].userId {
      var check := Users.EnsureUserAccess(db.Snapshot(), caller, payload.userId);
      if check.Err? {
        return Err(check.error);
      }
    }
    db.tasks := db.tasks[k := TaskOf(payload)];
    r := Ok(Row(k, TaskOf(payload)));
  }

  /** `delete_task` */
  method DeleteTask(db: Database, caller: int, k: int) returns (r: Result<()>)
    requires db.Valid()
    modifies db
    ensures db.Valid()
    ensures r.Ok? <==> k in ScopeTasks(old(db.Snapshot()), caller)
    ensures r.Err? ==> r.error == NotFound(TaskNotFound) && db.Snapshot() == old(db.Snapshot())
    ensures r.Ok? ==> db.Snapshot() == old(db.Snapshot()).(tasks := old(db.tasks) - {k})
  {
    var access := EnsureTaskAccess(db.Snapshot(), caller, k);
    if access.Err? {
      return Err(access.error);
    }
    db.tasks := db.tasks - {k};
    r := Ok(());
  }
}
