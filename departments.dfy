/** The departments routes: an admin sees and changes only the departments it owns. */
module Departments {
  import opened Http
  import opened Entities
  import opened Scope
  import opened Store

  /** The response schema keeps only these two fields of what the route builds. */
  datatype DepartmentResponse = DepartmentResponse(id: int, name: string)

  const DepartmentNotFound: string := "Department not found"

  /** The users the outer joins department -> job -> user reach. */
  function Employees(t: Tables, d: int): set<int> {
    UsersOfJobs(t, JobsOf(t, d))
  }

  /** `count(User.id)` grouped by department: null rows of the outer join are not counted. */
  function EmployeesCount(t: Tables, d: int): nat {
    |Employees(t, d)|
  }

  /** `_get_department_with_counts`: the department and its head count, when the
      caller owns it. */
  function GetDepartmentWithCounts(t: Tables, caller: int, d: int): (r: Option<(Department, nat)>)
    ensures r.Some? <==> d in DepartmentsOf(t, caller)
    ensures r.Some? ==> r.value.0 == t.departments[d] && r.value.1 == EmployeesCount(t, d)
  {
    if d in t.departments && t.departments[d].adminId == caller then
      Some((t.departments[d], EmployeesCount(t, d)))
    else None
  }

  /** `_to_department_response`: admin_id, admin_name and employees_count are
      passed along but are not fields of the response schema. */
  function ToDepartmentResponse(id: int, department: Department, employeesCount: nat, admin: Admin): (r: DepartmentResponse)
    ensures r.id == id && r.name == department.name
  {
    DepartmentResponse(id, department.name)
  }

  /** The head count and the owner never reach the client. */
  lemma ResponseIgnoresCountAndAdmin(id: int, department: Department, c: nat, a: Admin, c': nat, a': Admin)
    ensures ToDepartmentResponse(id, department, c, a) == ToDepartmentResponse(id, department, c', a')
  {
  }

  /** `_get_department_response` and `get_department` */
  function GetDepartment(t: Tables, caller: int, d: int): (r: Result<DepartmentResponse>)
    requires caller in t.admins
    ensures r.Ok? <==> d in DepartmentsOf(t, caller)
    ensures r.Ok? ==> r.value == DepartmentResponse(d, t.departments[d].name)
    ensures r.Err? ==> r.error == NotFound(DepartmentNotFound)
  {
    match GetDepartmentWithCounts(t, caller, d)
    case None => Err(NotFound(DepartmentNotFound))
    case Some((department, count)) => Ok(ToDepartmentResponse(d, department, count, t.admins[caller]))
  }

  /** `list_departments` */
  function ListDepartments(t: Tables, caller: int): (r: map<int, DepartmentResponse>)
    requires caller in t.admins
    ensures forall d :: d in r <==> GetDepartment(t, caller, d).Ok?
    ensures forall d :: d in r ==> GetDepartment(t, caller, d).value == r[d]
  {
    map d | d in t.departments && t.departments[d].adminId == caller ::
      ToDepartmentResponse(d, t.departments[d], EmployeesCount(t, d), t.admins[caller])
  }

  /** Another admin's department answers exactly as one that does not exist. */
  lemma ForeignDepartmentLooksMissing(t: Tables, caller: int, d: int)
    requires caller in t.admins && d !in DepartmentsOf(t, caller)
    ensures GetDepartment(t, caller, d) == GetDepartment(t.(departments := t.departments - {d}), caller, d)
  {
  }

  /** A department none of whose jobs has a user (in particular one with no
      jobs) counts 0 employees. */
  lemma NoUsersNoEmployees(t: Tables, d: int)
    requires forall u :: u in t.users ==> UserDepartment(t, u) != Some(d)
    ensures EmployeesCount(t, d) == 0
  {
    forall u | u in t.users ensures u !in Employees(t, d) {
      assert UserDepartment(t, u) != Some(d);
    }
    assert Employees(t, d) == {};
  }

  /** Adding a user under job j adds one employee to j's department and to no other. */
  lemma {:induction false} NewUserCountsOnce(t: Tables, id: int, user: User, d: int)
    requires id !in t.users && user.jobId in t.jobs
    ensures EmployeesCount(t.(users := t.users[id := user]), d)
            == EmployeesCount(t, d) + (if t.jobs[user.jobId].departmentId == d then 1 else 0)
  {
    var t' := t.(users := t.users[id := user]);
    if t.jobs[user.jobId].departmentId == d {
      assert Employees(t', d) == Employees(t, d) + {id};
    } else {
      assert Employees(t', d) == Employees(t, d);
    }
  }

  predicate NameTaken(t: Tables, name: string, except: Option<int>) {
    exists d :: d in t.departments && t.departments[d].name == name && Some(d) != except
  }

  /** `create_department`: the owner is the caller, never the payload; a name
      any admin already uses fails the unique constraint at commit. */
  method CreateDepartment(db: Database, caller: int, name: string) returns (r: Result<DepartmentResponse>)
    requires db.Valid() && caller in db.admins
    modifies db
    ensures db.Valid()
    ensures r.Err? <==> NameTaken(old(db.Snapshot()), name, None)
    ensures r.Err? ==> r.error == IntegrityError(UniqueDepartmentName) && db.Snapshot() == old(db.Snapshot())
    ensures r.Ok? ==> r.value.id !in old(db.departments) && r.value.name == name
    ensures r.Ok? ==> db.Snapshot() == old(db.Snapshot()).(departments := old(db.departments)[r.value.id := Department(name, caller)])
    ensures r.Ok? ==> GetDepartment(db.Snapshot(), caller, r.value.id) == Ok(r.value)
    ensures r.Ok? ==> forall b :: b in db.admins && b != caller ==> GetDepartment(db.Snapshot(), b, r.value.id).Err?
  {
    if exists d :: d in db.departments && db.departments[d].name == name {
      return Err(IntegrityError(UniqueDepartmentName));
    }
    var id := db.next.department;
    db.departments := db.departments[id := Department(name, caller)];
    db.next := db.next.(department := id + 1);
    r := GetDepartment(db.Snapshot(), caller, id);
  }

  /** `update_department`: only the name is replaced; the owner stays. */
  method UpdateDepartment(db: Database, caller: int, d: int, name: string) returns (r: Result<DepartmentResponse>)
    requires db.Valid() && caller in db.admins
    modifies db
    ensures db.Valid()
    ensures d !in DepartmentsOf(old(db.Snapshot()), caller) ==> r == Err(NotFound(DepartmentNotFound))
    ensures d in DepartmentsOf(old(db.Snapshot()), caller) && NameTaken(old(db.Snapshot()), name, Some(d)) ==>
              r == Err(IntegrityError(UniqueDepartmentName))
    ensures r.Ok? <==> d in DepartmentsOf(old(db.Snapshot()), caller) && !NameTaken(old(db.Snapshot()), name, Some(d))
    ensures r.Err? ==> db.Snapshot() == old(db.Snapshot())
    ensures r.Ok? ==> r.value == DepartmentResponse(d, name)
    ensures r.Ok? ==> db.Snapshot() == old(db.Snapshot()).(departments := old(db.departments)[d := Department(name, caller)])
  {
    var found := GetDepartmentWithCounts(db.Snapshot(), caller, d);
    if found.None? {
      return Err(NotFound(DepartmentNotFound));
    }
    if exists e :: e in db.departments && db.departments[e].name == name && e != d {
      return Err(IntegrityError(UniqueDepartmentName));
    }
    var department := found.value.0;
    db.departments := db.departments[d := department.(name := name)];
    r := GetDepartment(db.Snapshot(), caller, d);
  }

  /** `delete_department`: the department goes with its jobs, their users and
      those users' tasks and statistics. */
  method DeleteDepartment(db: Database, caller: int, d: int) returns (r: Result<()>)
    requires db.Valid()
    modifies db
    ensures db.Valid()
    ensures r.Ok? <==> d in DepartmentsOf(old(db.Snapshot()), caller)
    ensures r.Err? ==> r.error == NotFound(DepartmentNotFound) && db.Snapshot() == old(db.Snapshot())
    ensures r.Ok? ==> db.Snapshot() == WithoutDepartment(old(db.Snapshot()), d)
  {
    if d !in db.departments || db.departments[d].adminId != caller {
      return Err(NotFound(DepartmentNotFound));
    }
    db.RemoveDepartment(d);
    r := Ok(());
  }
}
