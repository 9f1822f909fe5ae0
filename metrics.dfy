/** The metrics routes: a global table any admin may read and change; metric
    names are unique. */
module Metrics {
  import opened Http
  import opened Entities
  import opened Store

  const MetricNotFound: string := "Metric not found"

  /** Some metric other than `except` already has this name. */
  predicate NameTaken(t: Tables, name: string, except: Option<int>) {
    exists m :: m in t.metrics && t.metrics[m].name == name && Some(m) != except
  }

  /** `get_metric` */
  function GetMetric(t: Tables, m: int): (r: Result<Row<Metric>>)
    ensures r.Ok? <==> m in t.metrics
    ensures r.Ok? ==> r.value == Row(m, t.metrics[m])
    ensures r.Err? ==> r.error == NotFound(MetricNotFound)
  {
    if m in t.metrics then Ok(Row(m, t.metrics[m])) else Err(NotFound(MetricNotFound))
  }

  /** `list_metrics`: every metric, with no owner filter. */
  function ListMetrics(t: Tables): (r: map<int, Metric>)
    ensures forall m :: m in r <==> GetMetric(t, m).Ok?
    ensures forall m :: m in r ==> GetMetric(t, m).value == Row(m, r[m])
  {
    t.metrics
  }

  /** `create_metric`: stores the payload name and cost; a taken name fails the
      unique constraint at commit. */
  method CreateMetric(db: Database, name: string, cost: int) returns (r: Result<Row<Metric>>)
    requires db.Valid()
    modifies db
    ensures db.Valid()
    ensures r.Err? <==> NameTaken(old(db.Snapshot()), name, None)
    ensures r.Err? ==> r.error == IntegrityError(UniqueMetricName) && db.Snapshot() == old(db.Snapshot())
    ensures r.Ok? ==> r.value.id !in old(db.metrics) && r.value.record == Metric(name, cost)
    ensures r.Ok? ==> db.Snapshot() == old(db.Snapshot()).(metrics := old(db.metrics)[r.value.id := r.value.record])
    ensures r.Ok? ==> GetMetric(db.Snapshot(), r.value.id) == Ok(r.value)
  {
    if exists m :: m in db.metrics && db.metrics[m].name == name {
      return Err(IntegrityError(UniqueMetricName));
    }
    var id := db.next.metric;
    db.metrics := db.metrics[id := Metric(name, cost)];
    db.next := db.next.(metric := id + 1);
    r := Ok(Row(id, Metric(name, cost)));
  }

  /** `update_metric`: both name and cost are replaced. */
  method UpdateMetric(db: Database, m: int, name: string, cost: int) returns (r: Result<Row<Metric>>)
    requires db.Valid()
    modifies db
    ensures db.Valid()
    ensures m !in old(db.metrics) ==> r == Err(NotFound(MetricNotFound))
    ensures m in old(db.metrics) ==> (r.Err? <==> NameTaken(old(db.Snapshot()), name, Some(m)))
    ensures m in old(db.metrics) && r.Err? ==> r.error == IntegrityError(UniqueMetricName)
    ensures r.Err? ==> db.Snapshot() == old(db.Snapshot())
    ensures r.Ok? ==> r.value == Row(m, Metric(name, cost))
    ensures r.Ok? ==> db.Snapshot() == old(db.Snapshot()).(metrics := old(db.metrics)[m := Metric(name, cost)])
  {
    if m !in db.metrics {
      return Err(NotFound(MetricNotFound));
    }
    if exists o :: o in db.metrics && db.metrics[o].name == name && o != m {
      return Err(IntegrityError(UniqueMetricName));
    }
    db.metrics := db.metrics[m := Metric(name, cost)];
    r := Ok(Row(m, Metric(name, cost)));
  }

  /** `delete_metric`. `Metric.statistics` has no delete cascade, so the ORM
      nulls the metric_id of the metric's statistics before deleting it; that
      column is NOT NULL, so the commit fails while any statistic names the
      metric. */
  method DeleteMetric(db: Database, m: int) returns (r: Result<()>)
    requires db.Valid()
    modifies db
    ensures db.Valid()
    ensures m !in old(db.metrics) ==> r == Err(NotFound(MetricNotFound))
    ensures m in old(db.metrics) && StatisticsOfMetric(old(db.Snapshot()), m) != {} ==>
              r == Err(IntegrityError(StatisticMetricRequired))
    ensures r.Ok? <==> m in old(db.metrics) && StatisticsOfMetric(old(db.Snapshot()), m) == {}
    ensures r.Err? ==> db.Snapshot() == old(db.Snapshot())
    ensures r.Ok? ==> db.Snapshot() == old(db.Snapshot()).(metrics := old(db.metrics) - {m})
  {
    if m !in db.metrics {
      return Err(NotFound(MetricNotFound));
    }
    if exists s :: s in db.statistics && db.statistics[s].metricId == m {
      ghost var s :| s in db.statistics && db.statistics[s].metricId == m;
      assert s in StatisticsOfMetric(db.Snapshot(), m);
      return Err(IntegrityError(StatisticMetricRequired));
    }
    db.metrics := db.metrics - {m};
    r := Ok(());
  }
}
