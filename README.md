# Daily CRM backend: the ownership-scoped entity store

This project models the request handlers of the Daily CRM backend, a FastAPI service. An
administrator owns departments. Each department has jobs, each job has users, and each user has
tasks and daily statistics. Metrics and reviewers are global tables that any authenticated
administrator may read and change.

The model reads each handler as an operation on an in-memory database:

- `Entities.Tables` is one snapshot of all eight tables. Each table maps a primary key to a record.
- `Store.Database` is the session: a class with one `map` field per table and one id sequence per
  table. Every state-changing handler is a method that `modifies` it.
- Every handler returns a `Result`. It is the value the route returns or the HTTP error it raises:
  400 `BadRequest`, 403 `Forbidden`, 404 `NotFound`, or an uncaught commit failure on a unique
  or NOT NULL constraint (`IntegrityError`, which the client sees as a 500).

The modules follow the source files:

| module | file |
|---|---|
| `Http` | outcomes of a handler |
| `Entities` | the ORM models (columns, unique constraints, required foreign keys) |
| `Scope` | the ownership chain Task/Statistic → User → Job → Department → admin |
| `Store` | the session, and the ORM cascades Department → Jobs → Users → Tasks, Statistics |
| `Dependencies` | `require_admin`, `optional_admin` and the token resolver |
| `Auth` | `login` |
| `Admins`, `Departments`, `Jobs`, `Users`, `Tasks`, `Statistics`, `Metrics`, `Reviewers` | the routers |

The schema invariant `Entities.Valid` has two parts:

- every required parent reference resolves: department → admin, job → department, user → job,
  task → user and statistic → user;
- admin emails, department names, metric names and statistic keys (date, user, metric) are unique.

Every state-changing method keeps `Database.Valid()`, which is this invariant plus "every key lies
below its table's id sequence".

Handlers that depend on `require_admin` take the resolved caller's id as a parameter. Resolving
that id from the `Authorization` header is modelled once, in `Dependencies.RequireAdmin`.
`Admins.CreateAdmin` takes the result of `Dependencies.OptionalAdmin` instead.

The source duplicates some helpers: `_ensure_job_access` appears in jobs.py and users.py, and
`_ensure_user_access` appears in users.py, tasks.py and statistics.py. The copies are identical, so
each is modelled once (`Jobs.EnsureJobAccess`, `Users.EnsureUserAccess`).

In three places the handlers do less than their names or response models suggest; the model
follows the code:

- **Department response.** It carries only `id` and `name` (app/api/schemas/department.py:16-24).
  `_to_department_response` also passes `admin_id`, `admin_name` and `employees_count`, but the
  schema drops them. `Departments.GetDepartment` therefore returns `(id, name)`. The head count
  `EmployeesCount` is still modelled and proved about.
- **Uniqueness failures.** No handler checks a duplicate department name, metric name or
  statistic key; the commit error surfaces uncaught as an `IntegrityError` (a 500). Only a
  duplicate admin email is checked by a handler (a 400).
- **Reviewer description.** `generate_description` hands whatever the chat call returns (the
  decoded JSON body of the completion request) to the response as `gigachat_response`. The model
  keeps the prompt and the pass-through, with the reply as an opaque value.

## Model

| member | source | states |
|---|---|---|
| Dependencies.SplitOnce | app/api/dependencies.py:35 | `split(" ", 1)`: one part iff the separator is absent, exactly two otherwise, and then the first part has no separator and first + sep + second is the input |
| Dependencies.BearerCaseInsensitive | app/api/dependencies.py:30 | any casing of "bearer", then a space, then any token passes the bearer test |
| Dependencies.FirstSpaceOfBearer | app/api/dependencies.py:35 | in a header that passes the bearer test, the first space is at index 6 |
| Dependencies.BearerToken | app/api/dependencies.py:35 | the token is exactly the text after the first space, i.e. after the 7-character "bearer " prefix |
| Dependencies.ParseIntOfIntToString | app/api/dependencies.py:19 | `int(str(n)) == n` for every integer, so the id written into a token's subject reads back unchanged |
| Dependencies.GetAdminById | app/api/dependencies.py:9-13 | found iff an admin has the id, which it returns; otherwise 400 "Admin not found" |
| Dependencies.ResolveAdminFromToken | app/api/dependencies.py:9-23 | succeeds only with an existing admin whose id is int(sub) of the decoded token; fails "Invalid or expired token" iff the token does not decode to an integer subject; fails "Admin not found" iff it names a missing admin; no other outcome |
| Dependencies.RequireAdmin | app/api/dependencies.py:26-36 | a missing or non-bearer header fails with the bearer-required 400; otherwise the outcome is the resolver's on the text after "bearer "; a success is an existing admin |
| Dependencies.OptionalAdmin | app/api/dependencies.py:39-46 | no bearer header gives an anonymous caller, never an error; a returned admin exists |
| Dependencies.OptionalAgreesWithRequired | app/api/dependencies.py:39-46 | with a bearer header the optional resolver fails exactly when, and with the same error as, the required one, and otherwise yields the same admin |
| Auth.FindByEmail | app/api/routes/auth.py:16 | finds an admin with the email iff one exists |
| Auth.Login | app/api/routes/auth.py:14-25 | success iff some admin has the email and the hash of the password; every failure is the one 400 response; a success is 200 "Login successful" with a token issued for that admin's id and email |
| Auth.NoAccountEnumeration | app/api/routes/auth.py:16-21 | an unknown email and a known email with a wrong password give identical responses |
| Auth.LoginTokenAuthenticates | app/api/routes/auth.py:23-25 | the token of a successful login, sent as "Bearer token" while it decodes to the claims it was issued with, makes `RequireAdmin` return the admin that logged in |
| Scope.ChainWalkMatchesScope | app/api/routes/tasks.py:27-45 | the upward walk of the access helpers reaches admin a exactly for the rows the list queries' joins select for a, for every level |
| Scope.ScopesAreDisjoint | app/models/department.py:12 | two different admins never share a department, job, user, task or statistic |
| Scope.EveryRowHasAnOwner | app/models/task.py:13 | under the schema invariant every job, user, task and statistic lies in some admin's scope |
| Store.UserCascade | app/models/user.py:15-16 | deleting users keeps the schema invariant and keeps exactly the tasks and statistics of the remaining users |
| Store.JobCascade | app/models/job.py:15 | deleting jobs keeps the schema invariant and keeps exactly the users of the remaining jobs and their tasks and statistics |
| Store.DepartmentCascade | app/models/department.py:14 | deleting a department keeps the schema invariant and removes exactly the jobs, users, tasks and statistics whose chain leads up to it |
| Store.DepartmentCascadeIsolated | app/api/routes/departments.py:125-130 | deleting one admin's department leaves every other admin's scope unchanged at every level |
| Store.Database.RemoveUsers | app/models/user.py:15-16 | the new state is the user cascade of the old one; the invariant is kept |
| Store.Database.RemoveJobs | app/models/job.py:15 | the new state is the job cascade of the old one; the invariant is kept |
| Store.Database.RemoveDepartment | app/models/department.py:14 | the new state is the department cascade of the old one; the invariant is kept |
| Jobs.EnsureDepartmentAccess | app/api/routes/jobs.py:15-17 | passes iff the department exists and the caller owns it; otherwise 404 "Department not found" |
| Jobs.EnsureJobAccess | app/api/routes/jobs.py:20-23 | passes iff the job is in the caller's scope, returning it; otherwise 404 "Job not found" |
| Jobs.ListJobs | app/api/routes/jobs.py:26-36 | lists exactly the jobs `get_job` returns for this caller, with the same records |
| Jobs.GetJob | app/api/routes/jobs.py:39-46 | returns the job iff it is in the caller's scope, else 404 "Job not found" |
| Jobs.ForeignJobLooksMissing | app/api/routes/jobs.py:20-23 | another admin's job answers exactly like a job that does not exist |
| Jobs.CreateJob | app/api/routes/jobs.py:49-62 | an out-of-scope department gives 404 and adds nothing; otherwise adds exactly the payload job under a fresh id, and `GetJob` returns it |
| Jobs.UpdateJob | app/api/routes/jobs.py:65-84 | succeeds iff the job is in scope and the (possibly unchanged) department is in scope; replaces name and department; errors change nothing |
| Jobs.DeleteJob | app/api/routes/jobs.py:87-97 | succeeds iff the job is in scope; the new state is the job cascade of the old one |
| Departments.GetDepartmentWithCounts | app/api/routes/departments.py:33-43 | found iff the caller owns the department; the count is the number of users across its jobs |
| Departments.ToDepartmentResponse | app/api/routes/departments.py:21-30 | the response carries the department's id and name only |
| Departments.ResponseIgnoresCountAndAdmin | app/api/routes/departments.py:21-30 | the head count and the owner passed in have no effect on the response |
| Departments.GetDepartment | app/api/routes/departments.py:46-53 | (id, name) iff the caller owns the department, else 404 "Department not found" |
| Departments.ListDepartments | app/api/routes/departments.py:56-72 | lists exactly the departments `get_department` returns for this caller |
| Departments.ForeignDepartmentLooksMissing | app/api/routes/departments.py:33-51 | another admin's department answers exactly like a missing one |
| Departments.NoUsersNoEmployees | app/api/routes/departments.py:37-39 | a department none of whose jobs has users counts 0 employees |
| Departments.NewUserCountsOnce | app/api/routes/departments.py:37-41 | adding a user adds one employee to its job's department and to no other |
| Departments.CreateDepartment | app/api/routes/departments.py:84-95 | owner is the caller; a name any admin uses fails the unique constraint and adds nothing; the new department is visible to its owner only |
| Departments.UpdateDepartment | app/api/routes/departments.py:98-116 | out of scope gives 404; a name used by another department fails; succeeds iff the department is owned and its new name is free, and then only the name changes, the owner stays |
| Departments.DeleteDepartment | app/api/routes/departments.py:119-130 | missing or foreign gives 404 with no change; otherwise the department cascade |
| Users.EnsureUserAccess | app/api/routes/users.py:26-29 | passes iff the user is in the caller's scope; otherwise 404 "User not found" |
| Users.ListUsers | app/api/routes/users.py:32-43 | lists exactly the users `get_user` returns for this caller |
| Users.GetUser | app/api/routes/users.py:46-53 | returns the user iff in scope, else 404 "User not found" |
| Users.ForeignUserLooksMissing | app/api/routes/users.py:26-29 | another admin's user answers exactly like a missing one |
| Users.CreateUser | app/api/routes/users.py:56-69 | an out-of-scope job gives 404 "Job not found" and adds nothing; otherwise adds the payload user, which raises its department's head count by one |
| Users.UpdateUser | app/api/routes/users.py:72-91 | succeeds iff the user is in scope and the (possibly unchanged) job is in scope; replaces name and job |
| Users.DeleteUser | app/api/routes/users.py:94-104 | succeeds iff in scope; the user goes with its tasks and statistics |
| Tasks.EnsureTaskAccess | app/api/routes/tasks.py:27-30 | passes iff the task is in the caller's scope; otherwise 404 "Task not found" |
| Tasks.ListTasks | app/api/routes/tasks.py:33-45 | lists exactly the tasks `get_task` returns for this caller |
| Tasks.GetTask | app/api/routes/tasks.py:48-55 | returns the task iff in scope, else 404 "Task not found" |
| Tasks.ForeignTaskLooksMissing | app/api/routes/tasks.py:27-30 | another admin's task answers exactly like a missing one |
| Tasks.CreateTask | app/api/routes/tasks.py:58-71 | an out-of-scope user gives 404 "User not found" and adds nothing; otherwise adds the payload task |
| Tasks.UpdateTask | app/api/routes/tasks.py:74-93 | succeeds iff the task is in scope and the (possibly unchanged) user is in scope; replaces user, date and description |
| Tasks.DeleteTask | app/api/routes/tasks.py:96-106 | succeeds iff in scope; removes only that task |
| Statistics.EnsureStatisticAccess | app/api/routes/statistics.py:27-30 | passes iff the statistic is in the caller's scope; otherwise 404 "Statistic not found" |
| Statistics.ListStatistics | app/api/routes/statistics.py:33-45 | lists exactly the statistics `get_statistic` returns for this caller |
| Statistics.GetStatistic | app/api/routes/statistics.py:48-55 | returns the statistic iff in scope, else 404 "Statistic not found" |
| Statistics.ForeignStatisticLooksMissing | app/api/routes/statistics.py:27-30 | another admin's statistic answers exactly like a missing one |
| Statistics.CreateStatistic | app/api/routes/statistics.py:58-71 | only the user is checked (404 "User not found"), not the metric; a taken (date, user, metric) key fails the unique constraint and adds nothing; otherwise adds the payload |
| Statistics.UpdateStatistic | app/api/routes/statistics.py:74-93 | out of scope gives 404; a changed user must be in scope; a key held by another row fails the unique constraint, with no change; otherwise replaces all four fields |
| Statistics.DeleteStatistic | app/api/routes/statistics.py:96-106 | succeeds iff in scope; removes only that statistic |
| Metrics.ListMetrics | app/api/routes/metrics.py:15-17 | every metric, with no owner filter, agreeing with `get_metric` |
| Metrics.GetMetric | app/api/routes/metrics.py:20-25 | the metric iff it exists, else 404 "Metric not found" |
| Metrics.CreateMetric | app/api/routes/metrics.py:28-34 | a taken name fails the unique constraint and adds nothing; otherwise stores name and cost under a fresh id |
| Metrics.UpdateMetric | app/api/routes/metrics.py:37-48 | a missing id gives 404; a name used by another metric fails; otherwise replaces name and cost |
| Metrics.DeleteMetric | app/api/routes/metrics.py:51-58 | a missing id gives 404; a metric still named by a statistic fails the NOT NULL constraint on the statistic's metric, with no change; otherwise removes only the metric row |
| Reviewers.ListReviewers | app/api/routes/reviewers.py:22-24 | every reviewer, agreeing with `get_reviewer` |
| Reviewers.GetReviewer | app/api/routes/reviewers.py:27-32 | the reviewer iff it exists, else 404 "Reviewer not found" |
| Reviewers.CreateReviewer | app/api/routes/reviewers.py:35-41 | stores name and description under a fresh id |
| Reviewers.UpdateReviewer | app/api/routes/reviewers.py:44-57 | a missing id gives 404; otherwise replaces name and description |
| Reviewers.DeleteReviewer | app/api/routes/reviewers.py:60-67 | a missing id gives 404; otherwise removes the reviewer |
| Reviewers.Prompt | app/api/routes/reviewers.py:73-87 | the prompt is the fixed base text, the name label, the name, the description label, the description and a final "." at fixed offsets |
| Reviewers.ReadPromptOfPrompt | app/api/routes/reviewers.py:87 | the prompt loses nothing: a name without "." and any description are read back from it |
| Reviewers.GenerateDescription | app/api/routes/reviewers.py:70-89 | the response holds the chat call's reply to exactly the prompt `Prompt(name, description)`; for a name without ".", the name and description read back intact from that prompt |
| Admins.ListAdmins | app/api/routes/admins.py:16-21 | every admin, whoever asks, agreeing with `get_admin` |
| Admins.GetAdmin | app/api/routes/admins.py:24-33 | the admin's id, email and full name iff it exists, else 404 "Admin not found"; never the hash |
| Admins.CreateAdmin | app/api/routes/admins.py:36-58 | after the optional resolver has run, a taken email gives 400 before the credential check; with admins present an anonymous caller gets 403; otherwise stores email, full name and hash(password) |
| Admins.Patch | app/api/routes/admins.py:72-76 | full name changes only when given; the hash changes only for a non-empty password; the email never changes |
| Admins.UpdateAdmin | app/api/routes/admins.py:61-80 | a missing id gives 404; otherwise the admin is patched and nothing else changes |
| Admins.DeleteAdmin | app/api/routes/admins.py:83-100 | a missing id gives 404; an admin owning a department gives 400 and stays; otherwise only that admin is removed |

## Left out

- HTTP wiring is not modelled: routing, `Depends` injection, response serialisation and app construction. Handlers take the resolved caller id.
- The `auth` and `reviewers` routers are not registered in app/api/routes/__init__.py. Their handlers are modelled anyway.
- Admin update and delete take no caller. Any authenticated admin may change any admin; the `require_admin` step before them is `Dependencies.RequireAdmin`.
- JWT signing and decoding are not modelled; they appear as a `Decoder` parameter and an `Issuer` parameter.
- Password hashing is a `hash` parameter. `verify_password` is modelled as comparing `hash(password)` with the stored hash.
- The `auth` and `reviewers` routers do not import as written. reviewers.py imports `ReviewerDescriptionRequest` and `ReviewerDescriptionResponse`, and auth.py imports `AdminLoginRequest` and `TokenResponse`, none of which app/api/schemas defines. `GigaChatClient()` also reads GigaChat settings (OAuth URL, scope, model, SSL flag, personal token) that app/core/config.py does not define, so `generate_description` raises before it builds the prompt. `Auth.Login`, the reviewer handlers and `Reviewers.GenerateDescription` describe a deployment where these schema classes and settings exist; the shape of the description response is then unknown, so the model keeps only that it carries the chat reply.
- The GigaChat client and its chat call are not modelled. `Reviewers.GenerateDescription` takes the chat call as a parameter and returns a response carrying its reply, an opaque value.
- The secret and the token lifetime are not defined in app/core/config.py, while app/core/security.py:20,26,33 reads them. As the code stands, issuing a token after a correct password raises (a 500), and decoding any token raises inside the handler's try block, so every bearer header is answered "Invalid or expired token". The `Issuer` and `Decoder` parameters, and the hypothesis of `Auth.LoginTokenAuthenticates`, describe a deployment where the settings are supplied.
- Dependencies.RequireAdmin: `str.lower` is modelled on ASCII letters only, because Python's Unicode case mapping is not modelled.
- Dependencies.ParseInt: whitespace, underscores and non-ASCII digits, which Python's `int` also accepts, are not modelled.
- Sessions, transactions and SQLAlchemy queries are replaced by the in-memory maps. A commit that violates a unique constraint leaves the state unchanged.
- List order is not modelled: lists are maps from id to record.
- The Python crash on a dangling parent reference is left out. `job.department.admin_id` on a missing department raises, but the schema invariant rules that state out.
- The default SQLite engine does not enforce foreign keys, so `Statistics.CreateStatistic` and `Statistics.UpdateStatistic` accept any metric id, and statistics may name missing metrics.
- Metrics.DeleteMetric: the NOT NULL failure is the only outcome modelled for a metric that statistics still name; the ORM's nulling of those rows inside the failed transaction is not modelled.
- The Task–Metric and Job–Reviewer relationships are left out. Each back-populates an attribute the other model does not define. The model assumes the ORM mappers configure regardless.
- The ON DELETE clauses of the foreign keys are left out. The ORM cascades delete children before their parent, so those clauses never fire.
- Alembic migrations are left out: they are schema history that disagrees with the ORM models.
- Dates are opaque integers, because no handler computes with them.
- Integer width is not modelled: ids, `cost` and `value` are unbounded. The database stores 64-bit integers. An id of 2^63 or more in the path of a get, update or delete (in Admins, Departments, Jobs, Users, Tasks, Statistics, Metrics and Reviewers) makes the lookup raise, a 500 where the model answers 404. An out-of-range `cost` (Metrics.CreateMetric, Metrics.UpdateMetric) or `value` (Statistics.CreateStatistic, Statistics.UpdateStatistic) fails at insert, where the model stores it.
- Id reuse is not modelled: the id sequences of `Store.Database` never hand out an id twice. SQLite's `INTEGER PRIMARY KEY` without AUTOINCREMENT can hand out the largest freed id again, so an old token may name a newly created admin. The contracts promise only an id absent from its table.
- Pydantic validation is left out, such as `EmailStr` and date parsing.
