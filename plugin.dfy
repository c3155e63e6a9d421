/** The JMXRemote agent: its configuration, its derivative table and its poll cycle. */
module Plugin {
  import opened Values
  import opened MetricNames
  import opened RateTable
  import opened Cycle
  import CycleFacts

  /** Every counter of `before` is still there, under the same key, in `after`. */
  predicate Keeps(before: map<string, EpochCounter>, after: map<string, EpochCounter>)
  {
    forall k :: k in before ==> k in after && after[k] == before[k]
  }

  /** Two updates of one key: the second wins. */
  lemma UpdateTwice(m: Table, k: string, a: History, b: History)
    ensures m[k := a][k := b] == m[k := b]
  {
  }

  class JMXRemote {
    const name: string
    const host: string
    const port: string
    const metricPrefix: string
    const descriptors: seq<Descriptor>
    /** The arithmetic every EpochCounter applies. */
    const rate: RateFn
    var derivatives: map<string, EpochCounter>
    /** Every counter the agent has created. */
    ghost var Repr: set<EpochCounter>
    /** The abstract content of `derivatives`: each key's counter history. */
    ghost var table: Table
    /** Everything handed to reportMetric so far. */
    ghost var reported: seq<Metric>

    /** Each key owns its own counter (the one created for it), all counters share the SDK's
        arithmetic, and `table` holds their histories. */
    ghost predicate Valid()
      reads this`derivatives, this`Repr, this`table, Repr
    {
      && table.Keys == derivatives.Keys
      && forall k :: k in derivatives ==>
           && derivatives[k] in Repr && derivatives[k].rate == rate && derivatives[k].key == k
           && table[k] == derivatives[k].samples
    }

    constructor (name: string, host: string, port: string, descriptors: seq<Descriptor>, rate: RateFn)
      ensures Valid()
      ensures this.name == name && this.host == host && this.port == port
      ensures this.descriptors == descriptors && this.rate == rate
      ensures metricPrefix == MetricPrefix(host, port)
      ensures derivatives == map[] && table == map[] && reported == []
    {
      this.name := name;
      this.host := host;
      this.port := port;
      this.descriptors := descriptors;
      this.rate := rate;
      metricPrefix := "JMX/hosts/" + host + ":" + port;
      derivatives := map[];
      Repr := {};
      table := map[];
      reported := [];
    }

    /** The counter registered under `key`, created empty on first use. */
    method CounterFor(key: string) returns (counter: EpochCounter)
      requires Valid()
      modifies this`derivatives, this`Repr, this`table
      ensures Valid() && old(Repr) <= Repr && fresh(Repr - old(Repr))
      ensures key in derivatives && counter == derivatives[key]
      ensures derivatives == old(derivatives)[key := counter]
      ensures key in old(derivatives) ==> counter == old(derivatives)[key]
      ensures key !in old(derivatives) ==> fresh(counter) && counter.samples == []
      ensures Keeps(old(derivatives), derivatives)
      ensures table == old(table)[key := Prior(old(table), key)]
    {
      if key !in derivatives {
        counter := new EpochCounter(rate, key);
        derivatives := derivatives[key := counter];
        Repr := Repr + {counter};
        table := table[key := []];
      } else {
        counter := derivatives[key];
        assert table == old(table)[key := table[key]];
      }
    }

    /** process(rawVal) on the counter registered under `key`, with `table` following its
        history. */
    method Advance(key: string, counter: EpochCounter, rawVal: Value, now: int) returns (r: Value)
      requires Valid() && key in derivatives && derivatives[key] == counter
      modifies this`table, counter
      ensures Valid()
      ensures table == old(table)[key := old(counter.samples) + [Sample(rawVal, now)]]
      ensures r == rate(counter.samples)
    {
      assert forall k :: k in derivatives && k != key ==> derivatives[k].key != counter.key;
      r := counter.Process(rawVal, now);
      table := table[key := counter.samples];
    }

    /** calculateValue: a derived value goes through the key's counter, created on first use
        and reused afterwards; any other value passes through and the table is not touched. */
    method CalculateValue(derivativeKey: string, rawVal: Value, isDerivative: bool, now: int) returns (r: Value)
      requires Valid()
      modifies this`derivatives, this`Repr, this`table, Repr
      ensures Valid() && old(Repr) <= Repr && fresh(Repr - old(Repr))
      ensures (r, table) == Observe(old(table), derivativeKey, rawVal, isDerivative, now, rate)
      ensures Keeps(old(derivatives), derivatives)
      ensures !isDerivative ==> derivatives == old(derivatives)
      ensures derivatives.Keys == old(derivatives.Keys) + (if isDerivative then {derivativeKey} else {})
      ensures isDerivative ==> r == rate(derivatives[derivativeKey].samples)
      ensures isDerivative && derivativeKey !in old(derivatives) ==> fresh(derivatives[derivativeKey])
    {
      if isDerivative {
        var counter := CounterFor(derivativeKey);
        ghost var before := Prior(old(table), derivativeKey);
        assert counter.samples == before;
        r := Advance(derivativeKey, counter, rawVal, now);
        UpdateTwice(old(table), derivativeKey, before, before + [Sample(rawVal, now)]);
      } else {
        r := rawVal;
      }
    }

    /** reportMetric, the sink: records one reported metric. */
    method ReportMetric(metricName: string, valueType: string, value: Number)
      modifies this`reported
      ensures reported == old(reported) + [Metric(metricName, valueType, Some(value))]
    {
      reported := reported + [Metric(metricName, valueType, Some(value))];
    }

    /** One pass of the inner loop: the result's metric name, its value through calculateValue
        under that name, and the metric typed with the descriptor's label. */
    method NextMetric(thisValue: RawResult, metricType: string, isDerivative: bool, now: int) returns (m: Metric)
      requires Valid()
      modifies this`derivatives, this`Repr, this`table, Repr
      ensures Valid() && old(Repr) <= Repr && fresh(Repr - old(Repr))
      ensures var name := MetricNamer(metricPrefix)(thisValue);
        var o := Observe(old(table), name, thisValue.value, isDerivative, now, rate);
        m == Metric(name, metricType, o.0) && table == o.1
    {
      var metricName := CreateMetricName(metricPrefix, metricPrefix, thisValue.name, thisValue.valueType);
      var value := CalculateValue(metricName, thisValue.value, isDerivative, now);
      m := Metric(metricName, metricType, value);
    }

    /** The inner loop of execute: each result of one descriptor is named, derived and
        collected, in order. */
    method CollectResults(resultValues: seq<RawResult>, metricType: string, isDerivative: bool, now: int)
      returns (metrics: seq<Metric>)
      requires Valid()
      modifies this`derivatives, this`Repr, this`table, Repr
      ensures Valid() && old(Repr) <= Repr && fresh(Repr - old(Repr))
      ensures (metrics, table)
              == Harvest(MetricNamer(metricPrefix), metricType, isDerivative, resultValues, old(table), now, rate)
    {
      ghost var nameOf := MetricNamer(metricPrefix);
      metrics := [];
      for j := 0 to |resultValues|
        invariant Valid()
        invariant (metrics, table) == Harvest(nameOf, metricType, isDerivative, resultValues[..j], old(table), now, rate)
        invariant old(Repr) <= Repr && fresh(Repr - old(Repr))
      {
        CycleFacts.HarvestStep(nameOf, metricType, isDerivative, resultValues, j, old(table), now, rate);
        var m := NextMetric(resultValues[j], metricType, isDerivative, now);
        metrics := metrics + [m];
      }
      assert resultValues[..|resultValues|] == resultValues;
    }

    /** The template's execute: every descriptor in turn, its results named, derived and
        collected; a failing query adds nothing, an unparsable object name ends everything. */
    method Execute(probes: seq<Probe>, now: int) returns (batch: Batch)
      requires Valid() && |probes| == |descriptors|
      modifies this`derivatives, this`Repr, this`table, Repr
      ensures Valid() && old(Repr) <= Repr && fresh(Repr - old(Repr))
      ensures (batch, table) == Cycle.Execute(MetricNamer(metricPrefix), descriptors, probes, old(table), now, rate)
    {
      ghost var nameOf := MetricNamer(metricPrefix);
      var metrics: seq<Metric> := [];
      var i := 0;
      while i < |descriptors|
        invariant 0 <= i <= |descriptors|
        invariant Valid()
        invariant (Completed(metrics), table)
                  == Cycle.Execute(nameOf, descriptors[..i], probes[..i], old(table), now, rate)
        invariant old(Repr) <= Repr && fresh(Repr - old(Repr))
      {
        var thisMetric := descriptors[i];
        ghost var prev := (Completed(metrics), table);
        CycleFacts.ExecuteStep(nameOf, descriptors, probes, i, old(table), now, rate);
        if thisMetric.objectName.None? || probes[i].Unparsable? {
          // The object name is resolved outside the guarded block: the exception leaves execute.
          CycleFacts.EscapedIsFinal(nameOf, descriptors, probes, i + 1, old(table), now, rate);
          return Escaped;
        }
        var metricType := TypeLabel(thisMetric);
        var isDerivative := IsDerivative(thisMetric);
        if thisMetric.attributes.Some? && probes[i].Answered? {
          var collected := CollectResults(probes[i].results, metricType, isDerivative, now);
          assert PollDescriptor(nameOf, thisMetric, probes[i], prev.1, now, rate) == Some((collected, table));
          metrics := metrics + collected;
        } else {
          assert PollDescriptor(nameOf, thisMetric, probes[i], prev.1, now, rate) == Some(([], prev.1));
          assert metrics + [] == metrics;
        }
        i := i + 1;
      }
      assert descriptors[..i] == descriptors && probes[..i] == probes;
      batch := Completed(metrics);
    }

    /** The reporting loop: every reportable metric goes to the sink in order, the others are
        counted as dropped. */
    method ReportAll(allMetrics: seq<Metric>) returns (dropped: nat)
      modifies this`reported
      ensures reported == old(reported) + Reported(allMetrics)
      ensures dropped == Dropped(allMetrics)
    {
      dropped := 0;
      var i := 0;
      while i < |allMetrics|
        invariant 0 <= i <= |allMetrics|
        invariant reported == old(reported) + Reported(allMetrics[..i])
        invariant dropped == Dropped(allMetrics[..i])
      {
        var m := allMetrics[i];
        assert allMetrics[..i + 1][..i] == allMetrics[..i];
        if m.value.Some? && !m.value.value.NaN? {
          ReportMetric(m.name, m.valueType, m.value.value);
        } else {
          dropped := dropped + 1;
        }
        i := i + 1;
      }
      assert allMetrics[..i] == allMetrics;
    }

    /** JMXHelper.run with the template: no session, or the session's execute, whose escaping
        exception run reports as the remote side's `onEscape`. */
    method Collect(remote: Remote, now: int) returns (result: RunResult)
      requires Valid()
      requires remote.Connected? ==> |remote.probes| == |descriptors|
      modifies this`derivatives, this`Repr, this`table, Repr
      ensures Valid() && old(Repr) <= Repr && fresh(Repr - old(Repr))
      ensures (result, table) == Run(MetricNamer(metricPrefix), descriptors, remote, old(table), now, rate)
    {
      match remote {
        case NotConnected(failure) =>
          result := Failed(failure);
        case Connected(probes, onEscape) =>
          var batch := Execute(probes, now);
          result := if batch.Completed? then Returned(batch.metrics) else Failed(onEscape);
      }
    }

    /** pollCycle: run the template against the remote side, append the status metrics, then
        report what can be reported. */
    method PollCycle(remote: Remote, now: int) returns (dropped: nat)
      requires Valid()
      requires remote.Connected? ==> |remote.probes| == |descriptors|
      modifies this`derivatives, this`Repr, this`table, this`reported, Repr
      ensures Valid() && old(Repr) <= Repr && fresh(Repr - old(Repr))
      ensures var run := Run(MetricNamer(metricPrefix), descriptors, remote, old(table), now, rate);
        && table == run.1
        && reported == old(reported) + Reported(AllMetrics(metricPrefix, run.0))
        && dropped == Dropped(AllMetrics(metricPrefix, run.0))
    {
      var result := Collect(remote, now);
      var allMetrics := AllMetrics(metricPrefix, result);
      dropped := ReportAll(allMetrics);
    }
  }
}
