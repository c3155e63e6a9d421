/** A poll cycle as functions of the configured descriptors, the answers of the remote
    server and the derivative table: what the template's execute collects, what
    JMXHelper.run hands back, the status metrics appended, and the reporting filter. */
module Cycle {
  import opened Values
  import opened MetricNames
  import opened RateTable

  /** A configured query: `objectname` and `attributes` are looked up when the cycle runs,
      `type` and `derive` are optional. */
  datatype Descriptor = Descriptor(
    objectName: Option<string>,
    attributes: Option<seq<string>>,
    typeLabel: Option<string>,
    derive: Option<bool>)

  /** One (name, valueType, value) triple of a query answer. */
  datatype RawResult = RawResult(name: string, valueType: string, value: Value)

  /** What the remote side does with one descriptor: its object name does not parse,
      its query throws, or its query answers. */
  datatype Probe = Unparsable | QueryFailed | Answered(results: seq<RawResult>)

  /** How JMXHelper.run can end without a list of metrics. */
  datatype Failure = ConnectionException | OtherException | NullResult

  /** The remote server during one cycle: no session at all, or a session that answers
      each descriptor; `onEscape` says how JMXHelper.run surfaces an exception that
      escapes the template. */
  datatype Remote = NotConnected(failure: Failure) | Connected(probes: seq<Probe>, onEscape: Failure)

  /** The template's execute either returns its list or lets an exception escape. */
  datatype Batch = Completed(metrics: seq<Metric>) | Escaped

  /** What pollCycle gets back from JMXHelper.run. */
  datatype RunResult = Returned(metrics: seq<Metric>) | Failed(failure: Failure)

  /** The descriptor's type label, "value" when `type` is absent. */
  function TypeLabel(d: Descriptor): string
  {
    if d.typeLabel.Some? then d.typeLabel.value else "value"
  }

  /** Whether the descriptor is rate-derived; false when `derive` is absent. */
  function IsDerivative(d: Descriptor): bool
  {
    d.derive == Some(true)
  }

  /** How the descriptor loop names a query result. */
  type Namer = RawResult -> string

  /** The agent's naming: createMetricName(metricPrefix, name, valueType) of the result. */
  function MetricNamer(metricPrefix: string): Namer
  {
    (rr: RawResult) => CreateMetricName(metricPrefix, metricPrefix, rr.name, rr.valueType)
  }

  /** The inner loop over one descriptor's results: name, derived value, metric. */
  function Harvest(nameOf: Namer, metricType: string, derive: bool, rs: seq<RawResult>,
                   t: Table, now: int, rate: RateFn): (r: (seq<Metric>, Table))
    ensures |r.0| == |rs|
    decreases |rs|
  {
    if rs == [] then ([], t)
    else
      var prev := Harvest(nameOf, metricType, derive, rs[..|rs| - 1], t, now, rate);
      var last := rs[|rs| - 1];
      var name := nameOf(last);
      var o := Observe(prev.1, name, last.value, derive, now, rate);
      (prev.0 + [Metric(name, metricType, o.0)], o.1)
  }

  /** The samples that the results `rs` feed to the counter of `key`, in order. */
  function SamplesFor(nameOf: Namer, key: string, rs: seq<RawResult>, now: int): History
    decreases |rs|
  {
    if rs == [] then []
    else
      var last := rs[|rs| - 1];
      SamplesFor(nameOf, key, rs[..|rs| - 1], now)
        + (if nameOf(last) == key then [Sample(last.value, now)] else [])
  }

  /** Whether the descriptor throws before its guarded block: a missing `objectname` or an
      object name that does not parse. */
  predicate Escapes(d: Descriptor, p: Probe)
  {
    d.objectName.None? || p.Unparsable?
  }

  /** One iteration of the descriptor loop: None when the exception escapes execute;
      otherwise the metrics it adds (none when `attributes` is missing or the query throws)
      and the table afterwards. */
  function PollDescriptor(nameOf: Namer, d: Descriptor, p: Probe, t: Table, now: int, rate: RateFn)
    : Option<(seq<Metric>, Table)>
  {
    if Escapes(d, p) then None
    else if d.attributes.None? || p.QueryFailed? then Some(([], t))
    else Some(Harvest(nameOf, TypeLabel(d), IsDerivative(d), p.results, t, now, rate))
  }

  /** One pass of the descriptor loop on top of the batch so far: nothing more happens once an
      exception has escaped. */
  function Continue(nameOf: Namer, prev: (Batch, Table), d: Descriptor, p: Probe, now: int, rate: RateFn)
    : (Batch, Table)
  {
    if prev.0.Escaped? then prev
    else match PollDescriptor(nameOf, d, p, prev.1, now, rate)
      case None => (Escaped, prev.1)
      case Some(step) => (Completed(prev.0.metrics + step.0), step.1)
  }

  /** The template's execute over the descriptors, with one probe per descriptor. The table
      is threaded through, and keeps its updates even when an exception escapes. */
  function Execute(nameOf: Namer, ds: seq<Descriptor>, ps: seq<Probe>, t: Table,
                   now: int, rate: RateFn): (r: (Batch, Table))
    requires |ps| == |ds|
    decreases |ds|
  {
    if ds == [] then (Completed([]), t)
    else
      var n := |ds|;
      Continue(nameOf, Execute(nameOf, ds[..n - 1], ps[..n - 1], t, now, rate), ds[n - 1], ps[n - 1], now, rate)
  }

  /** JMXHelper.run with the template: no session, or a session whose execute returns its
      list or lets an exception escape, which run then reports as `onEscape`. */
  function Run(nameOf: Namer, ds: seq<Descriptor>, remote: Remote, t: Table, now: int, rate: RateFn)
    : (RunResult, Table)
    requires remote.Connected? ==> |remote.probes| == |ds|
  {
    match remote
    case NotConnected(f) => (Failed(f), t)
    case Connected(ps, onEscape) =>
      var e := Execute(nameOf, ds, ps, t, now, rate);
      if e.0.Completed? then (Returned(e.0.metrics), e.1) else (Failed(onEscape), e.1)
  }

  /** A status metric with the given code. */
  function StatusMetric(metricPrefix: string, code: real): Metric
  {
    Metric(StatusName(metricPrefix), "value", Some(Num(code)))
  }

  /** allMetrics before reporting: the returned list, or status 3 after a
      ConnectionException, and in every case status 1 last. */
  function AllMetrics(metricPrefix: string, run: RunResult): (r: seq<Metric>)
    ensures |r| > 0 && r[|r| - 1] == StatusMetric(metricPrefix, 1.0)
    ensures run.Failed? ==> forall m :: m in r ==> m.name == StatusName(metricPrefix)
    ensures run.Returned? ==> r == run.metrics + [StatusMetric(metricPrefix, 1.0)]
    ensures run == Failed(ConnectionException) ==> r == [StatusMetric(metricPrefix, 3.0), StatusMetric(metricPrefix, 1.0)]
    ensures run.Failed? && run.failure != ConnectionException ==> r == [StatusMetric(metricPrefix, 1.0)]
  {
    var body := match run
      case Returned(ms) => ms
      case Failed(ConnectionException) => [StatusMetric(metricPrefix, 3.0)]
      case Failed(_) => [];
    body + [StatusMetric(metricPrefix, 1.0)]
  }

  /** The metrics the reporting loop hands to the sink, in list order. */
  function Reported(a: seq<Metric>): seq<Metric>
    decreases |a|
  {
    if a == [] then []
    else Reported(a[..|a| - 1]) + (if Reportable(a[|a| - 1].value) then [a[|a| - 1]] else [])
  }

  /** The `dropped` counter of the reporting loop. */
  function Dropped(a: seq<Metric>): nat
    decreases |a|
  {
    if a == [] then 0
    else Dropped(a[..|a| - 1]) + (if Reportable(a[|a| - 1].value) then 0 else 1)
  }

  /** The number of metrics of `a` named `name`. */
  function CountNamed(a: seq<Metric>, name: string): nat
    decreases |a|
  {
    if a == [] then 0
    else CountNamed(a[..|a| - 1], name) + (if a[|a| - 1].name == name then 1 else 0)
  }

  /** `s` without its element at `j`. */
  function Remove<T>(s: seq<T>, j: nat): (r: seq<T>)
    requires j < |s|
    ensures |r| == |s| - 1
  {
    s[..j] + s[j + 1..]
  }

  /** The metric `m` is one that descriptor d's answered query produced. */
  ghost predicate Emits(nameOf: Namer, d: Descriptor, p: Probe, m: Metric)
  {
    && !Escapes(d, p) && d.attributes.Some? && p.Answered?
    && m.valueType == TypeLabel(d)
    && exists i :: 0 <= i < |p.results| && m.name == nameOf(p.results[i])
  }

  /** The metric `m` is what descriptor d makes of the query result rr: named after rr, typed
      with d's label, and carrying rr's raw value when d is not derived. */
  predicate Yields(nameOf: Namer, d: Descriptor, rr: RawResult, m: Metric)
  {
    && m.name == nameOf(rr)
    && m.valueType == TypeLabel(d)
    && (!IsDerivative(d) ==> m.value == rr.value)
  }

  /** Some metric of `ms` is what descriptor d makes of the query result rr. */
  ghost predicate Covers(nameOf: Namer, ms: seq<Metric>, d: Descriptor, rr: RawResult)
  {
    exists m :: m in ms && Yields(nameOf, d, rr, m)
  }
}
