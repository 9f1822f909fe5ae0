/** The statistics routes: a statistic is reached through its user; at most one
    statistic exists per (date, user, metric). */
module Statistics {
  import opened Http
  import opened Entities
  import opened Scope
  import opened Store
  import Users

  datatype StatisticPayload = StatisticPayload(date: Date, userId: int, metricId: int, value: int)

  const StatisticNotFound: string := "Statistic not found"

  function StatisticOf(payload: StatisticPayload): Statistic {
    Statistic(payload.date, payload.userId, payload.metricId, payload.value)
  }

  /** Some statistic other than `except` already has this key. */
  predicate KeyTaken(t: Tables, key: StatisticKey, except: Option<int>) {
    exists s :: s in t.statistics && KeyOf(t.statistics[s]) == key && Some(s) != except
  }

  /** `_ensure_statistic_access`: walks statistic -> user -> job -> department -> admin_id. */
  function EnsureStatisticAccess(t: Tables, caller: int, s: int): (r: Result<Statistic>)
    ensures r.Ok? <==> s in ScopeStatistics(t, caller)
    ensures r.Ok? ==> r.value == t.statistics[s]
    ensures r.Err? ==> r.error == NotFound(StatisticNotFound)
  {
    if s !in t.statistics || AdminOf(t, StatisticDepartment(t, s)) != Some(caller) then Err(NotFound(StatisticNotFound))
    else Ok(t.statistics[s])
  }

  /** `list_statistics`: statistics joined with user, job and department, filtered on its admin. */
  function ListStatistics(t: Tables, caller: int): (r: map<int, Statistic>)
    ensures forall s :: s in r <==> GetStatistic(t, caller, s).Ok?
    ensures forall s :: s in r ==> GetStatistic(t, caller, s).value == Row(s, r[s])
  {
    map s | s in t.statistics && t.statistics[s].userId in t.users
                              && t.users[t.statistics[s].userId].jobId in t.jobs
                              && t.jobs[t.users[t.statistics[s].userId].jobId].departmentId in t.departments
                              && t.departments[t.jobs[t.users[t.statistics[s].userId].jobId].departmentId].adminId == caller
      :: t.statistics[s]
  }

  /** `get_statistic` */
  function GetStatistic(t: Tables, caller: int, s: int): (r: Result<Row<Statistic>>)
    ensures r.Ok? <==> s in ScopeStatistics(t, caller)
    ensures r.Ok? ==> r.value == Row(s, t.statistics[s])
    ensures r.Err? ==> r.error == NotFound(StatisticNotFound)
  {
    match EnsureStatisticAccess(t, caller, s)
    case Ok(statistic) => Ok(Row(s, statistic))
    case Err(e) => Err(e)
  }

  /** Another admin's statistic answers exactly as one that does not exist. */
  lemma ForeignStatisticLooksMissing(t: Tables, caller: int, s: int)
    requires s !in ScopeStatistics(t, caller)
    ensures GetStatistic(t, caller, s) == GetStatistic(t.(statistics := t.statistics - {s}), caller, s)
  {
  }

  /** `create_statistic`: only the user is checked (metric_id is not); a taken
      key fails the unique constraint at commit. */
  method CreateStatistic(db: Database, caller: int, payload: StatisticPayload) returns (r: Result<Row<Statistic>>)
    requires db.Valid()
    modifies db
    ensures db.Valid()
    ensures payload.userId !in ScopeUsers(old(db.Snapshot()), caller) ==> r == Err(NotFound(Users.UserNotFound))
    ensures payload.userId in ScopeUsers(old(db.Snapshot()), caller) ==>
              (r.Err? <==> KeyTaken(old(db.Snapshot()), KeyOf(StatisticOf(payload)), None))
    ensures r.Err? && payload.userId in ScopeUsers(old(db.Snapshot()), caller) ==> r.error == IntegrityError(UniqueStatisticKey)
    ensures r.Err? ==> db.Snapshot() == old(db.Snapshot())
    ensures r.Ok? ==> r.value.id !in old(db.statistics) && r.value.record == StatisticOf(payload)
    ensures r.Ok? ==> db.Snapshot() == old(db.Snapshot()).(statistics := old(db.statistics)[r.value.id := r.value.record])
    ensures r.Ok? ==> GetStatistic(db.Snapshot(), caller, r.value.id) == Ok(r.value)
  {
    var access := Users.EnsureUserAccess(db.Snapshot(), caller, payload.userId);
    if access.Err? {
      return Err(access.error);
    }
    var statistic := StatisticOf(payload);
    if exists s :: s in db.statistics && KeyOf(db.statistics[s]) == KeyOf(statistic) {
      return Err(IntegrityError(UniqueStatisticKey));
    }
    var id := db.next.statistic;
    db.statistics := db.statistics[id := statistic];
    db.next := db.next.(statistic := id + 1);
    r := Ok(Row(id, statistic));
  }

  /** `update_statistic`: all four fields are replaced; the user is re-checked
      only when it changes; the key must stay unique among the other rows. */
  method UpdateStatistic(db: Database, caller: int, s: int, payload: StatisticPayload) returns (r: Result<Row<Statistic>>)
    requires db.Valid()
    modifies db
    ensures db.Valid()
    ensures s !in ScopeStatistics(old(db.Snapshot()), caller) ==> r == Err(NotFound(StatisticNotFound))
    ensures s in ScopeStatistics(old(db.Snapshot()), caller) && payload.userId !in ScopeUsers(old(db.Snapshot()), caller) ==>
              r == Err(NotFound(Users.UserNotFound))
    ensures s in ScopeStatistics(old(db.Snapshot()), caller) && payload.userId in ScopeUsers(old(db.Snapshot()), caller) ==>
              (r.Err? <==> KeyTaken(old(db.Snapshot()), KeyOf(StatisticOf(payload)), Some(s)))
    ensures r.Err? && s in ScopeStatistics(old(db.Snapshot()), caller) && payload.userId in ScopeUsers(old(db.Snapshot()), caller) ==>
              r.error == IntegrityError(UniqueStatisticKey)
    ensures r.Err? ==> db.Snapshot() == old(db.Snapshot())
    ensures r.Ok? ==> r.value == Row(s, StatisticOf(payload))
    ensures r.Ok? ==> db.Snapshot() == old(db.Snapshot()).(statistics := old(db.statistics)[s := r.value.record])
  {
    var access := EnsureStatisticAccess(db.Snapshot(), caller, s);
    if access.Err? {
      return Err(access.error);
    }
    if payload.userId != db.statistics[s].userId {
      var check := Users.EnsureUserAccess(db.Snapshot(), caller, payload.userId);
      if check.Err? {
        return Err(check.error);
      }
    }
    var statistic := StatisticOf(payload);
    if exists o :: o in db.statistics && KeyOf(db.statistics[o]) == KeyOf(statistic) && o != s {
      return Err(IntegrityError(UniqueStatisticKey));
    }
    db.statistics := db.statistics[s := statistic];
    r := Ok(Row(s, statistic));
  }

  /** `delete_statistic` */
  method DeleteStatistic(db: Database, caller: int, s: int) returns (r: Result<()>)
    requires db.Valid()
    modifies db
    ensures db.Valid()
    ensures r.Ok? <==> s in ScopeStatistics(old(db.Snapshot()), caller)
    ensures r.Err? ==> r.error == NotFound(StatisticNotFound) && db.Snapshot() == old(db.Snapshot())
    ensures r.Ok? ==> db.Snapshot() == old(db.Snapshot()).(statistics := old(db.statistics) - {s})
  {
    var access := EnsureStatisticAccess(db.Snapshot(), caller, s);
    if access.Err? {
      return Err(access.error);
    }
    db.statistics := db.statistics - {s};
    r := Ok(());
  }
}
