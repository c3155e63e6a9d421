# JMXRemote poll cycle, modelled in Dafny

This project models the core of the `JMXRemote` New Relic agent, `src/ar/com/threelegs/newrelic/JMXRemote.java`.
Each poll cycle the agent connects to a remote JMX server and evaluates a configured list of query descriptors.
It names every returned attribute value and, for derived descriptors, turns the value into a rate through a per-name `EpochCounter`.
It then appends status metrics and reports every metric whose value is present and not NaN.

Modules:

- `Values`: `Option`, the numeric `Number` (a real or NaN) and the `Metric` triple.
- `MetricNames`: the constructor's `metricPrefix` and `createMetricName`.
  - The three `replaceAll` calls are modelled literally, as `Sanitize`.
  - They are proved equal to a single-pass reference sanitizer, `Sanitized`.
  - Laws are proved about the result.
- `RateTable`:
  - `EpochCounter`, a class whose state is the history of samples it has processed;
  - `Observe`, the value-level meaning of `calculateValue` over a table from names to histories.
- `Cycle`: pure definitions of one cycle.
  - The descriptor defaults.
  - The inner loop over query results, `Harvest`.
  - The descriptor loop of the template's `execute`, `Execute`.
  - `JMXHelper.run` as seen by the agent, `Run`.
  - The status appends, `AllMetrics`.
  - The reporting filter, `Reported` and `Dropped`.
- `CycleFacts`: the properties of those definitions.
- `Plugin`: the class `JMXRemote`.
  - Fields: a `derivatives` map from names to `EpochCounter` objects, and a ghost `reported` sequence for the sink.
  - Ghost bookkeeping: `Repr`, the counters created so far; `table`, each key's history; and each counter's ghost `key`, the key it was created for.
  - `Valid()` ties `table` to the counters and makes each key own its own counter.
  - Imperative methods for `calculateValue`, the template's loops and `pollCycle`.
  - Each method is proved against the functions of `Cycle` and `RateTable`.

Inputs of the model:

- The remote side is an input value `Remote`.
  - Either `run` fails without calling the template (`NotConnected`). Its `Failure` is a `ConnectionException`, another exception, or a `null` result.
  - Or the template runs, and each descriptor has one `Probe`. The local `ObjectName.getInstance` parse of its object name fails (`Unparsable`), or its attribute query throws (`QueryFailed`), or the query is `Answered` with the raw `(name, valueType, value)` results.
- `JMXHelper.run` is not part of this model. When an exception escapes the template, how `run` reacts is given as `onEscape`. It may throw a `ConnectionException`, throw another exception, or return `null` (the `metrics != null` guard at line 102).
- The counter's rate arithmetic belongs to the New Relic SDK, which is not part of this model. It is an uninterpreted function `rate` of the counter's sample history.
- The clock is an input `now`, one reading per cycle.

Behaviour of the code worth knowing:

- A descriptor's object name is parsed outside the per-descriptor `try` (line 75). A missing `objectname` key is also looked up there.
  - So a malformed descriptor does not get skipped: the exception leaves `execute`, and the whole batch of business metrics is lost.
  - The counters advanced for earlier descriptors keep their updates (`FirstEscapeKeepsEarlierCounters`, `EscapedCycleReportsOnlyStatus`).
- A `ConnectionException` produces two status metrics, code 3 and then code 1, rather than a single status metric (`StatusCount`, `UnreachableCycle`).
- Descriptor fields are looked up during every cycle, not validated when the configuration is loaded. A missing `attributes` list is caught by the per-descriptor `try` and skips that descriptor (`FailedDescriptorIsSkipped`).
- `createMetricName` ignores its `prefix` argument and uses the field `metricPrefix`. The host and port inside that prefix are never sanitized (`PrefixColonSurvives`).

## Model

| member | source | states |
|---|---|---|
| MetricNames.CreateMetricName | src/ar/com/threelegs/newrelic/JMXRemote.java:40-41 | createMetricName as written: metricPrefix, "/", the sanitized name, "/", the value type, with `prefix` unused; its law is CreateMetricNameSpec |
| MetricNames.RemoveAll | src/ar/com/threelegs/newrelic/JMXRemote.java:41 | `replaceAll("\"", "")` on a one-character literal pattern; its law is RemoveAllSpec |
| MetricNames.ReplaceAll | src/ar/com/threelegs/newrelic/JMXRemote.java:41 | `replaceAll(":", "/")` and `replaceAll(",", "/")` on one-character literals; its law is ReplaceAllSpec |
| MetricNames.Sanitize | src/ar/com/threelegs/newrelic/JMXRemote.java:41 | the three chained replaceAll calls in the source's order; proved equal to the one-pass Sanitized by SanitizeIsSinglePass |
| MetricNames.MetricPrefix | src/ar/com/threelegs/newrelic/JMXRemote.java:36 | the metricPrefix field: "JMX/hosts/" + host + ":" + port, unsanitized |
| MetricNames.StatusName | src/ar/com/threelegs/newrelic/JMXRemote.java:105-111 | the status metric's name, metricPrefix + "/" + "status" |
| Values.Reportable | src/ar/com/threelegs/newrelic/JMXRemote.java:119 | the reporting test: the value is non-null and does not print as "NaN" |
| MetricNames.CreateMetricNameSpec | src/ar/com/threelegs/newrelic/JMXRemote.java:40-41 | the name is the agent's metricPrefix, "/", the single-pass sanitized attribute name, "/", the value type; the prefix argument plays no part |
| MetricNames.RemoveAllSpec | src/ar/com/threelegs/newrelic/JMXRemote.java:41 | after removing every `"`, none is left and every other character occurs exactly when it occurred before |
| MetricNames.ReplaceAllSpec | src/ar/com/threelegs/newrelic/JMXRemote.java:41 | a one-character replaceAll keeps the length and maps each position: `from` becomes `to`, everything else stays |
| MetricNames.SanitizeIsSinglePass | src/ar/com/threelegs/newrelic/JMXRemote.java:41 | the chain of three replaceAll calls equals one left-to-right pass that drops `"` and turns `:` and `,` into `/` |
| MetricNames.SanitizedIsClean | src/ar/com/threelegs/newrelic/JMXRemote.java:41 | a sanitized name contains no `"`, no `:` and no `,` |
| MetricNames.SanitizedLength | src/ar/com/threelegs/newrelic/JMXRemote.java:41 | the sanitized length is the original length minus the number of `"` |
| MetricNames.SanitizedKeepsClean | src/ar/com/threelegs/newrelic/JMXRemote.java:41 | a name without `"`, `:` or `,` is left exactly as it is |
| MetricNames.SanitizeIdempotent | src/ar/com/threelegs/newrelic/JMXRemote.java:41 | sanitizing twice gives the same name as sanitizing once |
| MetricNames.PrefixColonSurvives | src/ar/com/threelegs/newrelic/JMXRemote.java:36-41 | the `:` between host and port in the prefix is still in every metric name, since only the attribute part is sanitized |
| MetricNames.BusinessNameIsNotStatus | src/ar/com/threelegs/newrelic/JMXRemote.java:87-111 | no attribute metric can have the status metric's name |
| RateTable.Observe | src/ar/com/threelegs/newrelic/JMXRemote.java:44-55 | non-derived: raw value back, table unchanged; derived: the key is present afterwards, its history gains exactly this sample, the value is the rate over that history, no other key changes |
| RateTable.ObserveExtends | src/ar/com/threelegs/newrelic/JMXRemote.java:46-51 | an existing counter is never replaced: its history only grows, by at most one sample |
| RateTable.EpochCounter.constructor | src/ar/com/threelegs/newrelic/JMXRemote.java:48 | a new counter has seen nothing |
| RateTable.EpochCounter.Process | src/ar/com/threelegs/newrelic/JMXRemote.java:51 | process records the sample and returns the rate over everything seen |
| Cycle.TypeLabel | src/ar/com/threelegs/newrelic/JMXRemote.java:76-78 | the descriptor's `type`, or "value" when the lookup throws |
| Cycle.IsDerivative | src/ar/com/threelegs/newrelic/JMXRemote.java:77-81 | the descriptor's `derive`, or false when the lookup throws |
| Cycle.MetricNamer | src/ar/com/threelegs/newrelic/JMXRemote.java:87 | the call createMetricName(metricPrefix, thisValue.name, thisValue.valueType): the field is passed as the ignored `prefix` argument |
| Cycle.Harvest | src/ar/com/threelegs/newrelic/JMXRemote.java:86-94 | the inner loop over one descriptor's results: one metric per result, in order, with the table threaded through calculateValue |
| Cycle.Escapes | src/ar/com/threelegs/newrelic/JMXRemote.java:75 | the descriptor throws outside the guarded block: a missing `objectname` or an unparsable object name |
| Cycle.PollDescriptor | src/ar/com/threelegs/newrelic/JMXRemote.java:74-98 | one descriptor: escapes, adds nothing (missing `attributes` or a throwing query), or adds Harvest of its results |
| Cycle.Continue | src/ar/com/threelegs/newrelic/JMXRemote.java:74-98 | one descriptor-loop iteration on top of the batch so far; nothing happens once an exception has escaped |
| Cycle.Execute | src/ar/com/threelegs/newrelic/JMXRemote.java:71-100 | the template's execute over all descriptors; the table keeps its updates when an exception escapes |
| Cycle.Run | src/ar/com/threelegs/newrelic/JMXRemote.java:69-103 | JMXHelper.run with the template: the failure, or the returned list; the table as execute left it |
| Cycle.StatusMetric | src/ar/com/threelegs/newrelic/JMXRemote.java:105-111 | a status metric with the given code, labelled "value" |
| Cycle.Yields | src/ar/com/threelegs/newrelic/JMXRemote.java:87-93 | a metric is what a descriptor makes of one query result: its name, the descriptor's label, and the raw value when not derived |
| Cycle.Covers | src/ar/com/threelegs/newrelic/JMXRemote.java:86-93 | some metric of a list is what the descriptor makes of that result |
| Cycle.Reported | src/ar/com/threelegs/newrelic/JMXRemote.java:117-123 | the metrics the reporting loop hands to reportMetric, in list order |
| Cycle.Dropped | src/ar/com/threelegs/newrelic/JMXRemote.java:117-123 | the reporting loop's `dropped` counter |
| Cycle.AllMetrics | src/ar/com/threelegs/newrelic/JMXRemote.java:102-112 | exactly the returned list then status 1; after a ConnectionException, status 3 then status 1; after any other failure, status 1 alone |
| CycleFacts.HarvestShape | src/ar/com/threelegs/newrelic/JMXRemote.java:86-94 | one metric per result, in order, named from that result's name and value type and typed with the descriptor's label; without derivation the raw values and an untouched table |
| CycleFacts.HarvestKey | src/ar/com/threelegs/newrelic/JMXRemote.java:87-91 | a counter exists afterwards iff it existed or some result carries its name, and its history grows by exactly the samples of those results, in order |
| CycleFacts.HarvestTable | src/ar/com/threelegs/newrelic/JMXRemote.java:86-94 | the same for every key at once |
| CycleFacts.HarvestValueAt | src/ar/com/threelegs/newrelic/JMXRemote.java:87-93 | with derivation, the value emitted for result i is the rate of the counter keyed by that result's metric name, over its earlier history plus the samples up to result i |
| CycleFacts.HarvestValues | src/ar/com/threelegs/newrelic/JMXRemote.java:86-94 | the same for every result at once |
| CycleFacts.DescriptorDefaults | src/ar/com/threelegs/newrelic/JMXRemote.java:76-81 | a descriptor without `type` and `derive` reports raw values labelled "value" and touches no counter |
| CycleFacts.EscapedIsFinal | src/ar/com/threelegs/newrelic/JMXRemote.java:74-75 | once an exception has left the loop, later descriptors change neither the batch nor the counters |
| CycleFacts.EscapeIff | src/ar/com/threelegs/newrelic/JMXRemote.java:74-75 | the batch is lost iff some descriptor has no object name or an unparsable one |
| CycleFacts.FirstEscapeKeepsEarlierCounters | src/ar/com/threelegs/newrelic/JMXRemote.java:74-97 | when descriptor j is the first to throw, the batch is lost but the counters hold every update of descriptors before j |
| CycleFacts.FailedDescriptorIsSkipped | src/ar/com/threelegs/newrelic/JMXRemote.java:83-97 | a descriptor whose query throws or lacks attributes gives the same batch and counters as leaving it out of the configuration |
| CycleFacts.ExecuteProvenance | src/ar/com/threelegs/newrelic/JMXRemote.java:74-99 | every metric of a completed batch is named after a result of some descriptor's answered query and typed with that descriptor's label |
| CycleFacts.ContinueCompleteness | src/ar/com/threelegs/newrelic/JMXRemote.java:83-97 | a completed descriptor step keeps every earlier metric and, for an answered descriptor with `attributes`, adds a metric for each of its results |
| CycleFacts.ExecuteCompleteness | src/ar/com/threelegs/newrelic/JMXRemote.java:74-99 | the converse of ExecuteProvenance: a completed batch holds a metric for every result of every answered descriptor with `attributes`, named after it and typed with the label |
| CycleFacts.ConnectedCycleReportsResults | src/ar/com/threelegs/newrelic/JMXRemote.java:69-123 | when no descriptor throws outside its `try`, run returns the batch, every answered result has its metric in it, and a batch metric is reported iff it is reportable |
| CycleFacts.StatusCount | src/ar/com/threelegs/newrelic/JMXRemote.java:102-112 | the status name occurs twice after a ConnectionException and once otherwise |
| CycleFacts.ReportedAppend | src/ar/com/threelegs/newrelic/JMXRemote.java:118-123 | reporting and counting drops distribute over concatenation, so the sink sees metrics in list order |
| CycleFacts.ReportedPartition | src/ar/com/threelegs/newrelic/JMXRemote.java:117-123 | reported plus dropped is the size of the list |
| CycleFacts.ReportedMembership | src/ar/com/threelegs/newrelic/JMXRemote.java:119-120 | a metric reaches the sink iff it is in the list with a non-null, non-NaN value |
| CycleFacts.NothingDroppedIff | src/ar/com/threelegs/newrelic/JMXRemote.java:117-123 | nothing is dropped iff every metric is reportable |
| CycleFacts.CycleReportsStatus | src/ar/com/threelegs/newrelic/JMXRemote.java:110-120 | the last metric handed to the sink in every cycle is status 1 |
| CycleFacts.UnreachableCycle | src/ar/com/threelegs/newrelic/JMXRemote.java:104-124 | a connection failure reports exactly status 3 then status 1, drops nothing and leaves the counters |
| CycleFacts.EscapedCycleReportsOnlyStatus | src/ar/com/threelegs/newrelic/JMXRemote.java:69-112 | a batch lost to an escaping exception yields only status metrics while earlier counters stay advanced |
| Plugin.JMXRemote.constructor | src/ar/com/threelegs/newrelic/JMXRemote.java:30-38 | the prefix is "JMX/hosts/" + host + ":" + port and the derivative map starts empty |
| Plugin.JMXRemote.CounterFor | src/ar/com/threelegs/newrelic/JMXRemote.java:46-49 | the key's counter: the existing one, or a fresh empty one inserted under the key |
| Plugin.JMXRemote.Advance | src/ar/com/threelegs/newrelic/JMXRemote.java:51 | the registered counter processes the value: its history, and the table entry for its key, gain the sample, and the result is its rate |
| Plugin.JMXRemote.CalculateValue | src/ar/com/threelegs/newrelic/JMXRemote.java:44-55 | result and counters follow Observe; existing counters are kept as objects, a non-derived call leaves the map as it was, and the key set grows by the key only for derived values |
| Plugin.JMXRemote.ReportMetric | src/ar/com/threelegs/newrelic/JMXRemote.java:120 | the sink receives one more metric |
| Plugin.JMXRemote.NextMetric | src/ar/com/threelegs/newrelic/JMXRemote.java:87-93 | one result becomes the metric named by createMetricName, typed with the label, valued by calculateValue under that same name |
| Plugin.JMXRemote.CollectResults | src/ar/com/threelegs/newrelic/JMXRemote.java:85-94 | the metrics and counters after the inner loop are those of Harvest |
| Plugin.JMXRemote.Execute | src/ar/com/threelegs/newrelic/JMXRemote.java:71-100 | the batch and counters after the descriptor loop are those of Cycle.Execute, with an early exit on an escaping exception |
| Plugin.JMXRemote.Collect | src/ar/com/threelegs/newrelic/JMXRemote.java:69-103 | the outcome of JMXHelper.run with the template and the counters afterwards are those of Cycle.Run |
| Plugin.JMXRemote.ReportAll | src/ar/com/threelegs/newrelic/JMXRemote.java:116-124 | the sink receives exactly Reported of the list, and the counter returned is Dropped of it |
| Plugin.JMXRemote.PollCycle | src/ar/com/threelegs/newrelic/JMXRemote.java:63-126 | a whole cycle: counters as Cycle.Run leaves them, the sink extended by the reportable metrics of AllMetrics, the dropped count of the others |

## Left out

- `JMXHelper.run`, `queryAndGetAttributes` and the JMX connection are foreign code. Their outcomes are the input `Remote`, and what `run` does with an exception escaping the template is the input `onEscape`.
- Parsing with `ObjectName.getInstance` is javax code. The model only knows parse success (`Answered`/`QueryFailed`) or failure (`Unparsable`).
- The rate arithmetic of `EpochCounter.process` is SDK code involving floating point and the system clock. It is the uninterpreted `rate` over the sample history, and the clock is one input reading per cycle.
- The test `Number.toString().equals("NaN")` involves floating point. A value is `None` (null), `NaN`, or a real number.
- Typesafe `Config` lookups and `ConfigException` are a foreign library. A descriptor is a record of optional fields.
- Exceptions inside a descriptor's result loop are not modelled: a throwing `process` call, or `createMetricName` on a null attribute name (line 87). The Java catches such an exception at line 95, so the metrics already added at line 93 and the counter updates made so far stay, and the descriptor's remaining results are skipped. `FailedDescriptorIsSkipped` covers only a query that throws before the first result.
- A session close that throws is not modelled.
- The model assumes `run` calls the template at most once per cycle and, when `execute` returns, hands back its list unchanged. What `run` does beyond that is not part of this model.
- The `RuntimeException` rethrow at lines 113-114 has no checkable behaviour in the model. The status appends and the reporting loop always run.
- Logging, `printStackTrace`, the `Agent` base class and `getComponentHumanLabel` are plumbing with no behaviour to check.
- The New Relic sink behind `reportMetric` is a ghost sequence of reported metrics. The sink's own handling of a reported value is not part of this model.
