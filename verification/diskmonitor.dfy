/** `DiskMonitor`: a throttled sampler that keeps a count-bounded FIFO history
    of disk samples, and the monitoring tick that feeds the 24-hour usage and
    I/O histories. Clock readings, `psutil` answers and path existence are
    inputs. */
module DiskMonitor {
  import opened Wrappers
  import opened Seqs

  /** `DiskMonitor(history_size=1000)`. */
  const DefaultHistorySize: int := 1000
  /** `update_interval`, in seconds. */
  const DefaultInterval: real := 60.0
  /** `timedelta(hours=24)`, in seconds. */
  const Window: real := 86400.0
  /** Bytes per megabyte in the I/O rate (`/ 1024 / 1024`). */
  const BytesPerMB: real := 1048576.0

  /** One disk-health sample (the dictionary `get_disk_health` builds). */
  datatype Sample = Sample(
    timestamp: real, total: nat, used: nat, free: nat, percent: real,
    readBytes: nat, writeBytes: nat, temperature: Option<real>)

  /** One entry of the usage or I/O history: `{'time', 'usage'}` or `{'time', 'rate'}`. */
  datatype Entry = Entry(time: real, value: real)

  /** The sampler's state. */
  datatype Monitor = Monitor(
    history: seq<Sample>, lastUpdate: real, interval: real, historySize: int,
    usageHistory: seq<Entry>, ioHistory: seq<Entry>)

  /** The state right after construction: no samples, a last update at 0,
      a 60-second interval and empty usage and I/O histories. */
  function Init(historySize: int): Monitor {
    Monitor([], 0.0, DefaultInterval, historySize, [], [])
  }

  /** `psutil.disk_usage(path)`. */
  datatype Usage = Usage(total: nat, used: nat, free: nat, percent: real)

  /** `psutil.disk_io_counters()`: it raises, returns None, or returns counters. */
  datatype IoReading = IoRaised | NoCounters | Counters(read: nat, write: nat)

  /** `psutil.sensors_temperatures()`: it raises, or maps sensor names to
      their readings' `current` values. */
  datatype Sensors = SensorsRaised | Readings(readings: map<string, seq<real>>)

  /** Everything the operating system answers during one call. */
  datatype Probe = Probe(pathExists: bool, usage: Option<Usage>, io: IoReading, sensors: Sensors)

  /** The first reading of a sensor, or None when the list is empty (the
      `IndexError` is swallowed by the bare `except`). */
  function FirstReading(rs: seq<real>): Option<real> {
    if |rs| > 0 then Some(rs[0]) else None
  }

  /** The temperature of a sample: the first `nvme` reading if that sensor is
      present, else the first `coretemp` reading, else None; a sensor error
      gives None. */
  function Temperature(s: Sensors): (t: Option<real>)
    ensures t.Some? ==> s.Readings?
    ensures s.Readings? && "nvme" in s.readings && |s.readings["nvme"]| > 0 ==> t == Some(s.readings["nvme"][0])
    ensures s.Readings? && "nvme" !in s.readings && "coretemp" in s.readings && |s.readings["coretemp"]| > 0
      ==> t == Some(s.readings["coretemp"][0])
    ensures s.Readings? && "nvme" !in s.readings && "coretemp" !in s.readings ==> t == None
    ensures s.Readings? && "nvme" in s.readings ==> t == FirstReading(s.readings["nvme"])
    ensures s.Readings? && "nvme" !in s.readings && "coretemp" in s.readings
      ==> t == FirstReading(s.readings["coretemp"])
  {
    match s
    case SensorsRaised => None
    case Readings(m) =>
      if "nvme" in m then FirstReading(m["nvme"])
      else if "coretemp" in m then FirstReading(m["coretemp"])
      else None
  }

  /** An `nvme` sensor takes precedence: what the `coretemp` sensor reads
      then never matters, even when the `nvme` list is empty. */
  lemma NvmeTakesPrecedence(readings: map<string, seq<real>>, core: seq<real>)
    requires "nvme" in readings
    ensures Temperature(Readings(readings["coretemp" := core])) == Temperature(Readings(readings))
  {
    assert "coretemp" != "nvme";
  }

  /** The call is throttled: less than `interval` since the last sample. */
  predicate Throttled(m: Monitor, now: real) {
    now - m.lastUpdate < m.interval
  }

  /** The call takes a fresh sample. */
  predicate Samples(m: Monitor, p: Probe, now: real) {
    p.pathExists && !Throttled(m, now) && p.usage.Some? && !p.io.IoRaised?
  }

  /** The sample a fresh call builds. */
  function NewSample(p: Probe, now: real): Sample
    requires p.usage.Some?
  {
    var u := p.usage.value;
    var read := if p.io.Counters? then p.io.read else 0;
    var write := if p.io.Counters? then p.io.write else 0;
    Sample(now, u.total, u.used, u.free, u.percent, read, write, Temperature(p.sensors))
  }

  /** Append at the back, then drop the oldest entry if the length exceeds the bound. */
  function PushBounded(h: seq<Sample>, s: Sample, bound: int): seq<Sample> {
    var h' := h + [s];
    if |h'| > bound then h'[1..] else h'
  }

  function Last(h: seq<Sample>): Option<Sample> {
    if |h| > 0 then Some(h[|h| - 1]) else None
  }

  /** `get_disk_health(path)`: a missing path gives None; a throttled call
      returns the newest stored sample; otherwise a sample is taken, pushed
      onto the bounded history, and becomes the last update. Any OS error
      gives None. */
  function GetDiskHealth(m: Monitor, p: Probe, now: real): (r: (Option<Sample>, Monitor))
    ensures !Samples(m, p, now) ==> r.1 == m
    ensures !p.pathExists ==> r.0 == None
    ensures p.pathExists && Throttled(m, now) ==> r.0 == Last(m.history)
    ensures p.pathExists && !Throttled(m, now) && !Samples(m, p, now) ==> r.0 == None
    ensures Samples(m, p, now) ==>
      && r.0.Some?
      && r.0.value.total == p.usage.value.total && r.0.value.used == p.usage.value.used
      && r.0.value.free == p.usage.value.free && r.0.value.percent == p.usage.value.percent
      && r.0.value.readBytes == (if p.io.NoCounters? then 0 else p.io.read)
      && r.0.value.writeBytes == (if p.io.NoCounters? then 0 else p.io.write)
      && r.0.value.temperature == Temperature(p.sensors)
    ensures Samples(m, p, now) ==>
      && r.0.Some? && r.0.value.timestamp == now
      && r.1.lastUpdate == now
      && |m.history| <= |r.1.history| <= |m.history| + 1
      && r.1.history == (m.history + [r.0.value])[|m.history| + 1 - |r.1.history|..]
      && (|r.1.history| == |m.history| + 1 <==> |m.history| + 1 <= m.historySize)
      && (m.historySize >= 1 ==> Last(r.1.history) == r.0)
    ensures r.1.interval == m.interval && r.1.historySize == m.historySize
    ensures r.1.usageHistory == m.usageHistory && r.1.ioHistory == m.ioHistory
  {
    if !p.pathExists then (None, m)
    else if Throttled(m, now) then (Last(m.history), m)
    else if p.usage.None? || p.io.IoRaised? then (None, m)
    else
      var s := NewSample(p, now);
      (Some(s), m.(history := PushBounded(m.history, s, m.historySize), lastUpdate := now))
  }

  /** A sensor error never fails the sample: whether a sample is returned and
      how the state changes do not depend on the sensors, only the
      temperature field does. */
  lemma SensorsDoNotFailSample(m: Monitor, p: Probe, now: real, other: Sensors)
    ensures GetDiskHealth(m, p.(sensors := other), now).0.Some? == GetDiskHealth(m, p, now).0.Some?
    ensures Samples(m, p, now) ==>
      GetDiskHealth(m, p.(sensors := other), now).0.value.(temperature := None)
        == GetDiskHealth(m, p, now).0.value.(temperature := None)
  {
  }

  /** Consecutive samples are at least `interval` apart. */
  ghost predicate Spaced(h: seq<Sample>, interval: real) {
    forall i :: 0 < i < |h| ==> h[i].timestamp - h[i - 1].timestamp >= interval
  }

  /** The invariant the sampler keeps: the history is within its bound, its
      samples are spaced by the interval, and the newest one is the last update. */
  ghost predicate Valid(m: Monitor) {
    && |m.history| <= (if m.historySize > 0 then m.historySize else 0)
    && Spaced(m.history, m.interval)
    && (|m.history| > 0 ==> m.history[|m.history| - 1].timestamp == m.lastUpdate)
  }

  lemma InitValid(historySize: int)
    ensures Valid(Init(historySize))
  {
  }

  /** Every call keeps the invariant, whatever the clock says: a sample is
      only taken when `now - last_update >= interval`. */
  lemma GetDiskHealthKeepsValid(m: Monitor, p: Probe, now: real)
    requires Valid(m)
    ensures Valid(GetDiskHealth(m, p, now).1)
  {
    if Samples(m, p, now) {
      var s := NewSample(p, now);
      var h := m.history + [s];
      assert Spaced(h, m.interval);
      if |h| > m.historySize {
        assert Spaced(h[1..], m.interval) by {
          forall i | 0 < i < |h| - 1 ensures h[1..][i].timestamp - h[1..][i - 1].timestamp >= m.interval {
            assert h[1..][i] == h[i + 1] && h[1..][i - 1] == h[i];
          }
        }
      }
    }
  }

  /** The last `n` elements of `xs` (all of them when there are fewer). */
  function LastN<T>(xs: seq<T>, n: nat): (r: seq<T>)
    ensures |r| == (if |xs| <= n then |xs| else n)
  {
    if |xs| <= n then xs else xs[|xs| - n..]
  }

  /** One bounded push keeps "the newest `bound` samples of everything pushed". */
  lemma PushBoundedIsLastN(all: seq<Sample>, s: Sample, bound: nat)
    ensures PushBounded(LastN(all, bound), s, bound) == LastN(all + [s], bound)
  {
    var h := LastN(all, bound);
    if |all| > bound {
      assert (h + [s])[1..] == (all + [s])[|all| + 1 - bound..];
    }
  }

  /** One call of the sampler: the probe and the clock reading. */
  datatype Call = Call(probe: Probe, now: real)

  /** The state after a sequence of calls. */
  function Run(m: Monitor, calls: seq<Call>): Monitor {
    if |calls| == 0 then m
    else var c := calls[|calls| - 1]; GetDiskHealth(Run(m, calls[..|calls| - 1]), c.probe, c.now).1
  }

  /** The fresh samples taken during a sequence of calls, in order. */
  function Taken(m: Monitor, calls: seq<Call>): seq<Sample> {
    if |calls| == 0 then []
    else
      var c := calls[|calls| - 1];
      var before := Run(m, calls[..|calls| - 1]);
      Taken(m, calls[..|calls| - 1]) + (if Samples(before, c.probe, c.now) then [NewSample(c.probe, c.now)] else [])
  }

  /** FIFO: after any sequence of calls the history holds the newest
      `history_size` of all samples ever stored, oldest first. */
  lemma {:induction false} RunKeepsNewest(m: Monitor, calls: seq<Call>)
    requires m.historySize >= 0 && |m.history| <= m.historySize
    ensures Run(m, calls).history == LastN(m.history + Taken(m, calls), m.historySize)
    ensures Run(m, calls).historySize == m.historySize
  {
    if |calls| > 0 {
      var init := calls[..|calls| - 1];
      var c := calls[|calls| - 1];
      RunKeepsNewest(m, init);
      var before := Run(m, init);
      if Samples(before, c.probe, c.now) {
        PushBoundedIsLastN(m.history + Taken(m, init), NewSample(c.probe, c.now), m.historySize);
        assert m.history + Taken(m, calls) == (m.history + Taken(m, init)) + [NewSample(c.probe, c.now)];
      } else {
        assert Taken(m, calls) == Taken(m, init);
      }
    } else {
      assert m.history + [] == m.history;
    }
  }

  /** The entries strictly newer than `cutoff`, in their original order. */
  function Prune(xs: seq<Entry>, cutoff: real): (r: seq<Entry>)
    ensures |r| <= |xs|
    ensures forall e :: e in r <==> e in xs && e.time > cutoff
  {
    if |xs| == 0 then []
    else
      assert forall e :: e in xs <==> e == xs[0] || e in xs[1..];
      (if xs[0].time > cutoff then [xs[0]] else []) + Prune(xs[1..], cutoff)
  }

  /** Pruning works entry by entry: it distributes over concatenation, and
      keeps a single entry exactly when it is newer than the cutoff. */
  lemma {:induction false} PruneConcat(xs: seq<Entry>, ys: seq<Entry>, cutoff: real)
    ensures Prune(xs + ys, cutoff) == Prune(xs, cutoff) + Prune(ys, cutoff)
  {
    if |xs| == 0 {
      assert xs + ys == ys;
    } else {
      var head := if xs[0].time > cutoff then [xs[0]] else [];
      assert (xs + ys)[0] == xs[0] && (xs + ys)[1..] == xs[1..] + ys;
      assert Prune(xs + ys, cutoff) == head + Prune(xs[1..] + ys, cutoff);
      PruneConcat(xs[1..], ys, cutoff);
      ConcatAssoc(head, Prune(xs[1..], cutoff), Prune(ys, cutoff));
    }
  }

  lemma PruneSingleton(e: Entry, cutoff: real)
    ensures Prune([e], cutoff) == if e.time > cutoff then [e] else []
  {
    assert [e][1..] == [];
  }

  /** Times never decrease along the history. */
  ghost predicate Chronological(xs: seq<Entry>) {
    forall i, j :: 0 <= i < j < |xs| ==> xs[i].time <= xs[j].time
  }

  /** On a chronological history pruning only drops entries from the front. */
  lemma {:induction false} PruneDropsFront(xs: seq<Entry>, cutoff: real)
    requires Chronological(xs)
    ensures Prune(xs, cutoff) == xs[|xs| - |Prune(xs, cutoff)|..]
    ensures forall i :: 0 <= i < |xs| - |Prune(xs, cutoff)| ==> xs[i].time <= cutoff
  {
    if |xs| > 0 {
      if xs[0].time > cutoff {
        PruneKeepsAll(xs, cutoff);
      } else {
        var tail := xs[1..];
        assert Chronological(tail) by {
          forall i, j | 0 <= i < j < |tail| ensures tail[i].time <= tail[j].time {
            assert tail[i] == xs[i + 1] && tail[j] == xs[j + 1];
          }
        }
        PruneDropsFront(tail, cutoff);
        var r := Prune(tail, cutoff);
        assert Prune(xs, cutoff) == r;
        assert tail[|tail| - |r|..] == xs[|xs| - |r|..];
        forall i | 0 <= i < |xs| - |r| ensures xs[i].time <= cutoff {
          if i > 0 {
            assert xs[i] == tail[i - 1];
          }
        }
      }
    }
  }

  lemma {:induction false} PruneKeepsAll(xs: seq<Entry>, cutoff: real)
    requires forall i :: 0 <= i < |xs| ==> xs[i].time > cutoff
    ensures Prune(xs, cutoff) == xs
  {
    if |xs| > 0 {
      var tail := xs[1..];
      assert forall i :: 0 <= i < |tail| ==> tail[i].time > cutoff by {
        forall i | 0 <= i < |tail| ensures tail[i].time > cutoff {
          assert tail[i] == xs[i + 1];
        }
      }
      PruneKeepsAll(tail, cutoff);
      assert [xs[0]] + tail == xs;
    }
  }

  /** With one entry per hour, the newest taken now, exactly the newest 24
      entries survive the 24-hour prune (30 hourly entries leave 24). */
  lemma HourlyWindow(xs: seq<Entry>, t0: real, now: real)
    requires |xs| > 0
    requires forall i :: 0 <= i < |xs| ==> xs[i].time == t0 + 3600.0 * i as real
    requires now == xs[|xs| - 1].time
    ensures Prune(xs, now - Window) == LastN(xs, 24)
  {
    var k := HourlyCut(xs, t0, now);
    assert LastN(xs, 24) == xs[k..];
  }

  /** The number of entries the 24-hour prune drops from an hourly history. */
  lemma HourlyCut(xs: seq<Entry>, t0: real, now: real) returns (k: nat)
    requires |xs| > 0
    requires forall i :: 0 <= i < |xs| ==> xs[i].time == t0 + 3600.0 * i as real
    requires now == xs[|xs| - 1].time
    ensures k == (if |xs| <= 24 then 0 else |xs| - 24)
    ensures Prune(xs, now - Window) == xs[k..]
  {
    HourlyChronological(xs, t0);
    PruneDropsFront(xs, now - Window);
    var n := |xs|;
    var r := Prune(xs, now - Window);
    k := n - |r|;
    assert xs[n - 1] in r;
    assert k < n;
    assert xs[k] == r[0];
    HourlyAfter(t0, k, n - 1, xs[k].time, now);
    if k > 0 {
      HourlyBefore(t0, k - 1, n - 1, xs[k - 1].time, now);
    }
  }

  lemma HourlyChronological(xs: seq<Entry>, t0: real)
    requires forall i :: 0 <= i < |xs| ==> xs[i].time == t0 + 3600.0 * i as real
    ensures Chronological(xs)
  {
    forall i, j | 0 <= i < j < |xs| ensures xs[i].time <= xs[j].time {
      HourlyOrdered(t0, i, j, xs[i].time, xs[j].time);
    }
  }

  lemma HourlyOrdered(t0: real, i: int, j: int, ti: real, tj: real)
    requires ti == t0 + 3600.0 * i as real && tj == t0 + 3600.0 * j as real
    requires i <= j
    ensures ti <= tj
  {
  }

  lemma HourlyBefore(t0: real, i: int, last: int, t: real, now: real)
    requires t == t0 + 3600.0 * i as real && now == t0 + 3600.0 * last as real
    requires t <= now - Window
    ensures i <= last - 24
  {
  }

  lemma HourlyAfter(t0: real, i: int, last: int, t: real, now: real)
    requires t == t0 + 3600.0 * i as real && now == t0 + 3600.0 * last as real
    requires t > now - Window
    ensures i > last - 24
  {
  }

  /** The I/O rate recorded by a tick: read plus write bytes in megabytes. */
  function IoRate(s: Sample): real {
    (s.readBytes + s.writeBytes) as real / BytesPerMB
  }

  /** Append one entry and prune to the last 24 hours: the history update of
      a tick. `PruneAppend` shows an entry stamped `now` survives as the
      newest. */
  function AppendPruned(xs: seq<Entry>, e: Entry, now: real): (r: seq<Entry>)
    ensures forall x :: x in r <==> (x in xs || x == e) && x.time > now - Window
  {
    Prune(xs + [e], now - Window)
  }

  /** A history after a tick that recorded `e` at `now`: the entries of
      the last 24 hours, in their order, then `e` as the newest. */
  predicate Appended(before: seq<Entry>, after: seq<Entry>, e: Entry, now: real) {
    after == Prune(before, now - Window) + [e]
  }

  /** An appended history ends with the recorded entry and holds exactly the
      entries of the last 24 hours. */
  lemma AppendedFacts(before: seq<Entry>, after: seq<Entry>, e: Entry, now: real)
    requires Appended(before, after, e, now) && e.time == now
    ensures |after| > 0 && after[|after| - 1] == e
    ensures forall x :: x in after <==> (x in before || x == e) && x.time > now - Window
  {
  }

  /** The history updates of a tick whose sample came back: the usage and
      the I/O rate are appended at `now` and both histories are pruned to
      the last 24 hours. */
  function Record(m: Monitor, s: Sample, now: real): (r: Monitor)
    ensures r.history == m.history && r.lastUpdate == m.lastUpdate
    ensures r.interval == m.interval && r.historySize == m.historySize
    ensures Appended(m.usageHistory, r.usageHistory, Entry(now, s.percent), now)
    ensures Appended(m.ioHistory, r.ioHistory, Entry(now, IoRate(s)), now)
  {
    PruneAppend(m.usageHistory, Entry(now, s.percent), now - Window);
    PruneAppend(m.ioHistory, Entry(now, IoRate(s)), now - Window);
    var usage := AppendPruned(m.usageHistory, Entry(now, s.percent), now);
    var io := AppendPruned(m.ioHistory, Entry(now, IoRate(s)), now);
    m.(usageHistory := usage, ioHistory := io)
  }

  /** One iteration of `monitor_task`: sample; if a sample came back, append
      its usage and I/O rate at `now` and prune both histories to the last
      24 hours, keeping their order; both new entries are then the newest
      of their histories (`AppendedFacts`). */
  function Tick(m: Monitor, p: Probe, now: real): (r: (Option<Sample>, Monitor))
    ensures r.0 == GetDiskHealth(m, p, now).0
    ensures r.1.history == GetDiskHealth(m, p, now).1.history
    ensures r.1.lastUpdate == GetDiskHealth(m, p, now).1.lastUpdate
    ensures r.1.interval == m.interval && r.1.historySize == m.historySize
    ensures r.0.None? ==> r.1.usageHistory == m.usageHistory && r.1.ioHistory == m.ioHistory
    ensures r.0.Some? ==> Appended(m.usageHistory, r.1.usageHistory, Entry(now, r.0.value.percent), now)
    ensures r.0.Some? ==> Appended(m.ioHistory, r.1.ioHistory, Entry(now, IoRate(r.0.value)), now)
  {
    var g := GetDiskHealth(m, p, now);
    if g.0.None? then g else (g.0, Record(g.1, g.0.value, now))
  }

  /** The monitor loop keeps the sample-history invariant on every tick. */
  lemma TickKeepsValid(m: Monitor, p: Probe, now: real)
    requires Valid(m)
    ensures Valid(Tick(m, p, now).1)
  {
    GetDiskHealthKeepsValid(m, p, now);
  }

  /** After a tick that took a sample, each history holds exactly its
      entries of the last 24 hours plus the new one, which is the newest. */
  lemma TickRecordsNewest(m: Monitor, p: Probe, now: real)
    requires Tick(m, p, now).0.Some?
    ensures var (s, m1) := Tick(m, p, now);
      && (forall e :: e in m1.usageHistory <==> (e in m.usageHistory || e == Entry(now, s.value.percent)) && e.time > now - Window)
      && (forall e :: e in m1.ioHistory <==> (e in m.ioHistory || e == Entry(now, IoRate(s.value))) && e.time > now - Window)
      && |m1.usageHistory| > 0 && m1.usageHistory[|m1.usageHistory| - 1] == Entry(now, s.value.percent)
      && |m1.ioHistory| > 0 && m1.ioHistory[|m1.ioHistory| - 1] == Entry(now, IoRate(s.value))
  {
    var (s, m1) := Tick(m, p, now);
    AppendedFacts(m.usageHistory, m1.usageHistory, Entry(now, s.value.percent), now);
    AppendedFacts(m.ioHistory, m1.ioHistory, Entry(now, IoRate(s.value)), now);
  }

  /** An entry newer than the cutoff, appended to a history, survives the
      prune as its last entry after the surviving older ones. */
  lemma PruneAppend(xs: seq<Entry>, e: Entry, cutoff: real)
    requires e.time > cutoff
    ensures Prune(xs + [e], cutoff) == Prune(xs, cutoff) + [e]
  {
    PruneConcat(xs, [e], cutoff);
    PruneSingleton(e, cutoff);
  }

  /** With a clock that never goes back, ticks keep the usage history in
      chronological order. */
  lemma TickKeepsChronological(m: Monitor, p: Probe, now: real)
    requires Chronological(m.usageHistory)
    requires forall i :: 0 <= i < |m.usageHistory| ==> m.usageHistory[i].time <= now
    ensures Chronological(Tick(m, p, now).1.usageHistory)
  {
    var (s, m1) := GetDiskHealth(m, p, now);
    if s.Some? {
      var e := Entry(now, s.value.percent);
      var usage := m.usageHistory + [e];
      assert Chronological(usage) by {
        var n := |m.usageHistory|;
        forall i, j | 0 <= i < j < |usage| ensures usage[i].time <= usage[j].time {
          assert usage[i] == m.usageHistory[i];
          if j < n {
            assert usage[j] == m.usageHistory[j];
          }
        }
      }
      PruneChronological(usage, now - Window);
      assert Tick(m, p, now).1.usageHistory == AppendPruned(m.usageHistory, e, now);
    }
  }

  lemma PruneChronological(xs: seq<Entry>, cutoff: real)
    requires Chronological(xs)
    ensures Chronological(Prune(xs, cutoff))
  {
    PruneDropsFront(xs, cutoff);
  }
}
