/** `HealthReport`: the three-level disk status of the health report and of
    the dashboard. */
module HealthReport {
  import opened Wrappers
  import opened DiskMonitor

  datatype Status = Critique | Attention | Bon

  /** How serious a status is: Bon < Attention < Critique. */
  function Severity(s: Status): nat {
    match s
    case Bon => 0
    case Attention => 1
    case Critique => 2
  }

  /** A trend above a threshold. A missing trend (an undefined mean, which
      compares false with everything) is never above. */
  predicate Above(t: Option<real>, bound: real) {
    t.Some? && t.value > bound
  }

  /** The report's status: Critique above 90% or a usage trend above 5,
      else Attention above 80% or a trend above 2, else Bon. */
  function Classify(percent: real, trend: Option<real>): (s: Status)
    ensures s == Critique <==> percent > 90.0 || Above(trend, 5.0)
    ensures s == Attention <==> !(percent > 90.0 || Above(trend, 5.0)) && (percent > 80.0 || Above(trend, 2.0))
    ensures s == Bon <==> percent <= 80.0 && !Above(trend, 2.0)
  {
    if percent > 90.0 || Above(trend, 5.0) then Critique
    else if percent > 80.0 || Above(trend, 2.0) then Attention
    else Bon
  }

  /** More usage or a steeper trend never gives a milder status. */
  lemma ClassifyMonotone(p1: real, t1: Option<real>, p2: real, t2: Option<real>)
    requires p1 <= p2
    requires t1.Some? ==> t2.Some? && t1.value <= t2.value
    ensures Severity(Classify(p1, t1)) <= Severity(Classify(p2, t2))
  {
  }

  /** The dashboard's status looks at the usage percentage only. */
  function DashboardStatus(percent: real): (s: Status)
    ensures Severity(s) == (if percent > 90.0 then 2 else if percent > 80.0 then 1 else 0)
  {
    if percent > 90.0 then Critique
    else if percent > 80.0 then Attention
    else Bon
  }

  /** The dashboard agrees with the report when the trend is flat or
      undefined, and is never more severe than the report when the trend is
      not negative. */
  lemma DashboardAgreesWithReport(percent: real, trend: Option<real>)
    ensures DashboardStatus(percent) == Classify(percent, Some(0.0))
    ensures DashboardStatus(percent) == Classify(percent, None)
    ensures Severity(DashboardStatus(percent)) <= Severity(Classify(percent, trend))
  {
  }

  /** The thresholds of the three levels Bon, Attention and Critique. */
  lemma ClassifyExamples()
    ensures Classify(95.0, Some(0.0)) == Critique
    ensures Classify(85.0, Some(0.0)) == Attention
    ensures Classify(50.0, Some(0.0)) == Bon
    ensures Classify(50.0, Some(6.0)) == Critique
    ensures Classify(90.0, Some(0.0)) == Attention
  {
  }

  /** `generate_health_report`: no sample gives the empty report. */
  datatype Report =
    | NoReport
    | Report(status: Status, usagePercent: real, freeSpace: nat,
             usageTrend: Option<real>, ioActivity: Option<real>, temperature: Option<real>)

  /** The usage and I/O trends of a non-empty history (pandas' hourly means
      and their differences), given as a parameter. */
  type Trends = seq<Sample> -> (Option<real>, Option<real>)

  /** Sample the disk; with no sample the report is empty, otherwise the
      trends come from the history (both 0 when it is empty) and the status
      from the sample's percentage and the usage trend. */
  function GenerateHealthReport(m: Monitor, p: Probe, now: real, trends: Trends): (r: (Report, Monitor))
    ensures r.1 == GetDiskHealth(m, p, now).1
    ensures r.0.NoReport? <==> GetDiskHealth(m, p, now).0.None?
    ensures r.0.Report? ==>
      var cur := GetDiskHealth(m, p, now).0.value;
      && r.0.usagePercent == cur.percent && r.0.freeSpace == cur.free && r.0.temperature == cur.temperature
      && r.0.status == Classify(cur.percent, r.0.usageTrend)
      && (|r.1.history| == 0 ==> r.0.usageTrend == Some(0.0) && r.0.ioActivity == Some(0.0))
    ensures r.0.Report? && |r.1.history| > 0 ==> (r.0.usageTrend, r.0.ioActivity) == trends(r.1.history)
  {
    var (cur, m1) := GetDiskHealth(m, p, now);
    if cur.None? then (NoReport, m1)
    else
      var (ut, it) := if |m1.history| == 0 then (Some(0.0), Some(0.0)) else trends(m1.history);
      (Report(Classify(cur.value.percent, ut), cur.value.percent, cur.value.free, ut, it, cur.value.temperature), m1)
  }

  /** With an empty history the report's status is the dashboard's. */
  lemma EmptyHistoryReportIsDashboard(m: Monitor, p: Probe, now: real, trends: Trends)
    requires GenerateHealthReport(m, p, now, trends).0.Report?
    requires |GenerateHealthReport(m, p, now, trends).1.history| == 0
    ensures GenerateHealthReport(m, p, now, trends).0.status
      == DashboardStatus(GenerateHealthReport(m, p, now, trends).0.usagePercent)
  {
    DashboardAgreesWithReport(GenerateHealthReport(m, p, now, trends).0.usagePercent, Some(0.0));
  }

  /** With a positive history bound, a report is always read from a history
      that ends with the reported sample, and its trends are that history's:
      the zero trends only arise from a bound below one. */
  lemma ReportReadsCurrentHistory(m: Monitor, p: Probe, now: real, trends: Trends)
    requires m.historySize >= 1
    requires GenerateHealthReport(m, p, now, trends).0.Report?
    ensures var (rep, m1) := GenerateHealthReport(m, p, now, trends);
      && |m1.history| > 0
      && m1.history[|m1.history| - 1].percent == rep.usagePercent
      && m1.history[|m1.history| - 1].free == rep.freeSpace
      && (rep.usageTrend, rep.ioActivity) == trends(m1.history)
  {
    var (cur, m1) := GetDiskHealth(m, p, now);
    if !Samples(m, p, now) {
      assert m1 == m && cur == Last(m.history);
    }
  }
}
