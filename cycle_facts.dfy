/** Properties of the poll cycle, stated over the functions of module Cycle. */
module CycleFacts {
  import opened Values
  import opened MetricNames
  import opened RateTable
  import opened Cycle

  // ---------------------------------------------------------------- one descriptor's results

  /** The inner loop emits one metric per result, named after that result and typed with the
      descriptor's label; without derivation each value is the raw one and the table is untouched. */
  lemma {:induction false} HarvestShape(nameOf: Namer, metricType: string, derive: bool, rs: seq<RawResult>,
                                        t: Table, now: int, rate: RateFn)
    ensures var r := Harvest(nameOf, metricType, derive, rs, t, now, rate);
      && (forall i :: 0 <= i < |rs| ==> r.0[i].name == nameOf(rs[i]) && r.0[i].valueType == metricType)
      && (!derive ==> r.1 == t && forall i :: 0 <= i < |rs| ==> r.0[i].value == rs[i].value)
    decreases |rs|
  {
    if rs != [] {
      var front := rs[..|rs| - 1];
      HarvestShape(nameOf, metricType, derive, front, t, now, rate);
      var prev := Harvest(nameOf, metricType, derive, front, t, now, rate);
      var r := Harvest(nameOf, metricType, derive, rs, t, now, rate);
      forall i | 0 <= i < |rs| - 1 ensures r.0[i] == prev.0[i] && front[i] == rs[i] {
      }
    }
  }

  /** One more result is one more step of the inner loop. */
  lemma HarvestStep(nameOf: Namer, metricType: string, derive: bool, rs: seq<RawResult>, j: nat,
                    t: Table, now: int, rate: RateFn)
    requires j < |rs|
    ensures var prev := Harvest(nameOf, metricType, derive, rs[..j], t, now, rate);
      var o := Observe(prev.1, nameOf(rs[j]), rs[j].value, derive, now, rate);
      Harvest(nameOf, metricType, derive, rs[..j + 1], t, now, rate)
        == (prev.0 + [Metric(nameOf(rs[j]), metricType, o.0)], o.1)
  {
    assert rs[..j + 1][..j] == rs[..j];
  }

  /** One derived observation, seen from the counter of `key`: it gains a sample exactly when
      the observation is made under its name. */
  lemma KeyStep(prev: Table, t: Table, name: string, raw: Value, now: int, rate: RateFn, key: string, s: History)
    requires key in prev <==> key in t || s != []
    requires key in prev ==> prev[key] == Prior(t, key) + s
    ensures var t' := Observe(prev, name, raw, true, now, rate).1;
      var s' := s + (if name == key then [Sample(raw, now)] else []);
      && (key in t' <==> key in t || s' != [])
      && (key in t' ==> t'[key] == Prior(t, key) + s')
  {
    if name == key {
      assert Prior(prev, key) + [Sample(raw, now)] == Prior(t, key) + (s + [Sample(raw, now)]);
    } else {
      assert s + [] == s;
    }
  }

  /** With derivation on, the counter of `key` afterwards: it exists exactly when it existed
      before or some result is named after it, and its history is the old one extended by
      exactly the samples of the results of that name, in order. */
  lemma {:induction false} HarvestKey(nameOf: Namer, metricType: string, rs: seq<RawResult>,
                                      t: Table, now: int, rate: RateFn, key: string)
    ensures var t' := Harvest(nameOf, metricType, true, rs, t, now, rate).1;
      && (key in t' <==> key in t || SamplesFor(nameOf, key, rs, now) != [])
      && (key in t' ==> t'[key] == Prior(t, key) + SamplesFor(nameOf, key, rs, now))
    decreases |rs|
  {
    if rs != [] {
      var n := |rs|;
      var front := rs[..n - 1];
      var last := rs[n - 1];
      var prev := Harvest(nameOf, metricType, true, front, t, now, rate).1;
      assert Harvest(nameOf, metricType, true, rs, t, now, rate).1
             == Observe(prev, nameOf(last), last.value, true, now, rate).1;
      HarvestKey(nameOf, metricType, front, t, now, rate, key);
      KeyStep(prev, t, nameOf(last), last.value, now, rate, key, SamplesFor(nameOf, key, front, now));
      assert SamplesFor(nameOf, key, rs, now)
             == SamplesFor(nameOf, key, front, now) + (if nameOf(last) == key then [Sample(last.value, now)] else []);
    }
  }

  /** HarvestKey for every key at once: keys named by no result are left alone. */
  lemma HarvestTable(nameOf: Namer, metricType: string, rs: seq<RawResult>,
                     t: Table, now: int, rate: RateFn)
    ensures var t' := Harvest(nameOf, metricType, true, rs, t, now, rate).1;
      && (forall k :: k in t' <==> k in t || SamplesFor(nameOf, k, rs, now) != [])
      && (forall k :: k in t' ==> t'[k] == Prior(t, k) + SamplesFor(nameOf, k, rs, now))
  {
    forall k {
      HarvestKey(nameOf, metricType, rs, t, now, rate, k);
    }
  }

  /** With derivation on, the value emitted for result i is the counter's rate over the history
      its key had before the descriptor plus every sample fed to that key up to and including
      result i. */
  lemma {:induction false} HarvestValueAt(nameOf: Namer, metricType: string, rs: seq<RawResult>,
                                          t: Table, now: int, rate: RateFn, i: nat)
    requires i < |rs|
    ensures Harvest(nameOf, metricType, true, rs, t, now, rate).0[i].value
            == rate(Prior(t, nameOf(rs[i]))
                    + SamplesFor(nameOf, nameOf(rs[i]), rs[..i + 1], now))
    decreases |rs|
  {
    var n := |rs|;
    var front := rs[..n - 1];
    var prev := Harvest(nameOf, metricType, true, front, t, now, rate);
    var last := rs[n - 1];
    var name := nameOf(last);
    var o := Observe(prev.1, name, last.value, true, now, rate);
    var ms := prev.0 + [Metric(name, metricType, o.0)];
    assert Harvest(nameOf, metricType, true, rs, t, now, rate).0 == ms;
    if i == n - 1 {
      HarvestKey(nameOf, metricType, front, t, now, rate, name);
      var s := SamplesFor(nameOf, name, front, now);
      assert Prior(prev.1, name) == Prior(t, name) + s;
      ObserveAfter(prev.1, t, name, s, last.value, now, rate);
      assert rs[..i + 1] == rs;
    } else {
      assert ms[i] == prev.0[i];
      assert rs[..i + 1] == front[..i + 1];
      assert front[i] == rs[i];
      HarvestValueAt(nameOf, metricType, front, t, now, rate, i);
    }
  }

  /** HarvestValueAt for every result at once. */
  lemma HarvestValues(nameOf: Namer, metricType: string, rs: seq<RawResult>,
                      t: Table, now: int, rate: RateFn)
    ensures var ms := Harvest(nameOf, metricType, true, rs, t, now, rate).0;
      forall i :: 0 <= i < |rs| ==>
        ms[i].value == rate(Prior(t, nameOf(rs[i]))
                            + SamplesFor(nameOf, nameOf(rs[i]), rs[..i + 1], now))
  {
    forall i | 0 <= i < |rs|
      ensures Harvest(nameOf, metricType, true, rs, t, now, rate).0[i].value
              == rate(Prior(t, nameOf(rs[i]))
                      + SamplesFor(nameOf, nameOf(rs[i]), rs[..i + 1], now))
    {
      HarvestValueAt(nameOf, metricType, rs, t, now, rate, i);
    }
  }

  /** One derived observation on top of a history already extended by `s`. */
  lemma ObserveAfter(t': Table, t: Table, key: string, s: History, raw: Value, now: int, rate: RateFn)
    requires Prior(t', key) == Prior(t, key) + s
    ensures Observe(t', key, raw, true, now, rate).0 == rate(Prior(t, key) + (s + [Sample(raw, now)]))
  {
    assert Prior(t', key) + [Sample(raw, now)] == Prior(t, key) + (s + [Sample(raw, now)]);
  }

  // ---------------------------------------------------------------- the descriptor loop

  /** Once an exception has escaped at descriptor j - 1, the later descriptors change nothing. */
  lemma {:induction false} EscapedIsFinal(nameOf: Namer, ds: seq<Descriptor>, ps: seq<Probe>, j: nat,
                                          t: Table, now: int, rate: RateFn)
    requires |ps| == |ds| && j <= |ds|
    requires Execute(nameOf, ds[..j], ps[..j], t, now, rate).0.Escaped?
    ensures Execute(nameOf, ds, ps, t, now, rate) == Execute(nameOf, ds[..j], ps[..j], t, now, rate)
    decreases |ds|
  {
    if j < |ds| {
      var n := |ds|;
      assert ds[..n - 1][..j] == ds[..j] && ps[..n - 1][..j] == ps[..j];
      EscapedIsFinal(nameOf, ds[..n - 1], ps[..n - 1], j, t, now, rate);
    } else {
      assert ds[..j] == ds && ps[..j] == ps;
    }
  }

  /** One more descriptor is one more step of the loop. */
  lemma ExecuteStep(nameOf: Namer, ds: seq<Descriptor>, ps: seq<Probe>, i: nat, t: Table, now: int, rate: RateFn)
    requires |ps| == |ds| && i < |ds|
    ensures Execute(nameOf, ds[..i + 1], ps[..i + 1], t, now, rate)
            == Continue(nameOf, Execute(nameOf, ds[..i], ps[..i], t, now, rate), ds[i], ps[i], now, rate)
  {
    assert ds[..i + 1][..i] == ds[..i] && ps[..i + 1][..i] == ps[..i];
  }

  /** The batch is lost exactly when some descriptor throws outside its guarded block. */
  lemma {:induction false} EscapeIff(nameOf: Namer, ds: seq<Descriptor>, ps: seq<Probe>,
                                     t: Table, now: int, rate: RateFn)
    requires |ps| == |ds|
    ensures Execute(nameOf, ds, ps, t, now, rate).0.Escaped?
            <==> exists j :: 0 <= j < |ds| && Escapes(ds[j], ps[j])
    decreases |ds|
  {
    if ds != [] {
      var n := |ds|;
      var front, pfront := ds[..n - 1], ps[..n - 1];
      EscapeIff(nameOf, front, pfront, t, now, rate);
      if exists j :: 0 <= j < n - 1 && Escapes(front[j], pfront[j]) {
        var j :| 0 <= j < n - 1 && Escapes(front[j], pfront[j]);
        assert Escapes(ds[j], ps[j]);
      }
      if exists j :: 0 <= j < n && Escapes(ds[j], ps[j]) {
        var j :| 0 <= j < n && Escapes(ds[j], ps[j]);
        if j < n - 1 {
          assert Escapes(front[j], pfront[j]);
        }
      }
    }
  }

  /** When descriptor j is the first to throw outside its guarded block, the whole batch is
      lost, yet the counters keep every update made for descriptors 0 .. j - 1. */
  lemma FirstEscapeKeepsEarlierCounters(nameOf: Namer, ds: seq<Descriptor>, ps: seq<Probe>, j: nat,
                                        t: Table, now: int, rate: RateFn)
    requires |ps| == |ds| && j < |ds| && Escapes(ds[j], ps[j])
    requires forall i :: 0 <= i < j ==> !Escapes(ds[i], ps[i])
    ensures Execute(nameOf, ds, ps, t, now, rate)
            == (Escaped, Execute(nameOf, ds[..j], ps[..j], t, now, rate).1)
  {
    EscapeIff(nameOf, ds[..j], ps[..j], t, now, rate);
    assert ds[..j + 1][..j] == ds[..j] && ps[..j + 1][..j] == ps[..j];
    assert ds[..j + 1][j] == ds[j] && ps[..j + 1][j] == ps[j];
    EscapedIsFinal(nameOf, ds, ps, j + 1, t, now, rate);
  }

  /** A descriptor that neither throws past its guarded block nor yields results leaves a
      batch exactly as it was. */
  lemma SkippedStep(nameOf: Namer, prev: (Batch, Table), d: Descriptor, p: Probe, now: int, rate: RateFn)
    requires !Escapes(d, p) && (p.QueryFailed? || d.attributes.None?)
    ensures Continue(nameOf, prev, d, p, now, rate) == prev
  {
    if prev.0.Completed? {
      assert PollDescriptor(nameOf, d, p, prev.1, now, rate) == Some(([], prev.1));
      assert prev.0.metrics + [] == prev.0.metrics;
    }
  }

  /** A descriptor whose query throws, or that has no `attributes`, is as if it were not
      configured: the others' metrics and counters come out the same. */
  lemma {:induction false} FailedDescriptorIsSkipped(nameOf: Namer, ds: seq<Descriptor>, ps: seq<Probe>,
                                                     j: nat, t: Table, now: int, rate: RateFn)
    requires |ps| == |ds| && j < |ds|
    requires !Escapes(ds[j], ps[j]) && (ps[j].QueryFailed? || ds[j].attributes.None?)
    ensures Execute(nameOf, ds, ps, t, now, rate)
            == Execute(nameOf, Remove(ds, j), Remove(ps, j), t, now, rate)
    decreases |ds|
  {
    var n := |ds|;
    var front, pfront := ds[..n - 1], ps[..n - 1];
    var prev := Execute(nameOf, front, pfront, t, now, rate);
    assert Execute(nameOf, ds, ps, t, now, rate) == Continue(nameOf, prev, ds[n - 1], ps[n - 1], now, rate);
    if j == n - 1 {
      assert Remove(ds, j) == front && Remove(ps, j) == pfront;
      SkippedStep(nameOf, prev, ds[j], ps[j], now, rate);
    } else {
      var ds', ps' := Remove(ds, j), Remove(ps, j);
      assert ds'[..n - 2] == Remove(front, j) && ps'[..n - 2] == Remove(pfront, j);
      assert ds'[n - 2] == ds[n - 1] && ps'[n - 2] == ps[n - 1];
      FailedDescriptorIsSkipped(nameOf, front, pfront, j, t, now, rate);
      assert Execute(nameOf, ds', ps', t, now, rate)
             == Continue(nameOf, Execute(nameOf, ds'[..n - 2], ps'[..n - 2], t, now, rate), ds'[n - 2], ps'[n - 2], now, rate);
    }
  }

  /** What one more descriptor adds to a completed batch is produced by that descriptor. */
  lemma ContinueProvenance(nameOf: Namer, prev: (Batch, Table), d: Descriptor, p: Probe, now: int, rate: RateFn)
    requires prev.0.Completed?
    ensures var r := Continue(nameOf, prev, d, p, now, rate);
      r.0.Completed? ==> forall m :: m in r.0.metrics ==> m in prev.0.metrics || Emits(nameOf, d, p, m)
  {
    var step := PollDescriptor(nameOf, d, p, prev.1, now, rate);
    if step.Some? {
      var r := Continue(nameOf, prev, d, p, now, rate);
      assert r.0.metrics == prev.0.metrics + step.value.0;
      if p.Answered? && d.attributes.Some? {
        HarvestShape(nameOf, TypeLabel(d), IsDerivative(d), p.results, prev.1, now, rate);
        forall m | m in r.0.metrics && m !in prev.0.metrics
          ensures Emits(nameOf, d, p, m)
        {
          var i :| 0 <= i < |step.value.0| && step.value.0[i] == m;
          assert m.name == nameOf(p.results[i]);
        }
      } else {
        assert step.value.0 == [];
      }
    }
  }

  /** Every metric of a completed batch comes from some descriptor's answered query: it is
      named after one of that query's results and typed with that descriptor's label. */
  lemma {:induction false} ExecuteProvenance(nameOf: Namer, ds: seq<Descriptor>, ps: seq<Probe>,
                                             t: Table, now: int, rate: RateFn)
    requires |ps| == |ds|
    ensures var r := Execute(nameOf, ds, ps, t, now, rate);
      r.0.Completed? ==>
        forall m :: m in r.0.metrics ==> exists j :: 0 <= j < |ds| && Emits(nameOf, ds[j], ps[j], m)
    decreases |ds|
  {
    var r := Execute(nameOf, ds, ps, t, now, rate);
    if ds != [] && r.0.Completed? {
      var n := |ds|;
      var front, pfront := ds[..n - 1], ps[..n - 1];
      var prev := Execute(nameOf, front, pfront, t, now, rate);
      assert r == Continue(nameOf, prev, ds[n - 1], ps[n - 1], now, rate);
      assert prev.0.Completed?;
      ExecuteProvenance(nameOf, front, pfront, t, now, rate);
      assert forall m :: m in prev.0.metrics ==> exists j :: 0 <= j < |front| && Emits(nameOf, front[j], pfront[j], m);
      ContinueProvenance(nameOf, prev, ds[n - 1], ps[n - 1], now, rate);
      forall m | m in r.0.metrics
        ensures exists j :: 0 <= j < n && Emits(nameOf, ds[j], ps[j], m)
      {
        if m in prev.0.metrics {
          var j :| 0 <= j < |front| && Emits(nameOf, front[j], pfront[j], m);
          assert front[j] == ds[j] && pfront[j] == ps[j];
        } else {
          assert Emits(nameOf, ds[n - 1], ps[n - 1], m);
        }
      }
    }
  }

  /** A completed step keeps the batch so far, and an answered descriptor with `attributes`
      adds a metric for each of its results. */
  lemma ContinueCompleteness(nameOf: Namer, prev: (Batch, Table), d: Descriptor, p: Probe, now: int, rate: RateFn)
    ensures var r := Continue(nameOf, prev, d, p, now, rate);
      r.0.Completed? ==>
        && prev.0.Completed?
        && (forall m :: m in prev.0.metrics ==> m in r.0.metrics)
        && (d.attributes.Some? && p.Answered? ==>
              forall i :: 0 <= i < |p.results| ==>
                Covers(nameOf, r.0.metrics, d, p.results[i]))
  {
    var r := Continue(nameOf, prev, d, p, now, rate);
    if r.0.Completed? {
      var step := PollDescriptor(nameOf, d, p, prev.1, now, rate);
      assert prev.0.Completed? && step.Some?;
      assert r.0.metrics == prev.0.metrics + step.value.0;
      if d.attributes.Some? && p.Answered? {
        HarvestShape(nameOf, TypeLabel(d), IsDerivative(d), p.results, prev.1, now, rate);
        forall i | 0 <= i < |p.results|
          ensures Covers(nameOf, r.0.metrics, d, p.results[i])
        {
          assert r.0.metrics[|prev.0.metrics| + i] == step.value.0[i];
          assert Yields(nameOf, d, p.results[i], step.value.0[i]);
        }
      }
    }
  }

  /** The converse of ExecuteProvenance: in a completed batch, every result of every answered
      descriptor with `attributes` has its metric. */
  lemma {:induction false} ExecuteCompleteness(nameOf: Namer, ds: seq<Descriptor>, ps: seq<Probe>,
                                               t: Table, now: int, rate: RateFn)
    requires |ps| == |ds|
    ensures var r := Execute(nameOf, ds, ps, t, now, rate);
      r.0.Completed? ==>
        forall j, i :: 0 <= j < |ds| && ds[j].attributes.Some? && ps[j].Answered? && 0 <= i < |ps[j].results| ==>
          Covers(nameOf, r.0.metrics, ds[j], ps[j].results[i])
    decreases |ds|
  {
    var r := Execute(nameOf, ds, ps, t, now, rate);
    if ds != [] && r.0.Completed? {
      var n := |ds|;
      var front, pfront := ds[..n - 1], ps[..n - 1];
      var prev := Execute(nameOf, front, pfront, t, now, rate);
      assert r == Continue(nameOf, prev, ds[n - 1], ps[n - 1], now, rate);
      ContinueCompleteness(nameOf, prev, ds[n - 1], ps[n - 1], now, rate);
      ExecuteCompleteness(nameOf, front, pfront, t, now, rate);
      forall j, i | 0 <= j < n && ds[j].attributes.Some? && ps[j].Answered? && 0 <= i < |ps[j].results|
        ensures Covers(nameOf, r.0.metrics, ds[j], ps[j].results[i])
      {
        if j < n - 1 {
          assert front[j] == ds[j] && pfront[j] == ps[j];
          assert prev.0.Completed? && front[j].attributes.Some? && pfront[j].Answered? && i < |pfront[j].results|;
          var m :| m in prev.0.metrics && Yields(nameOf, front[j], pfront[j].results[i], m);
          assert m in r.0.metrics;
        }
      }
    }
  }

  /** A descriptor with neither `type` nor `derive` reports its raw values under the label
      "value" and leaves the counters alone. */
  lemma DescriptorDefaults(nameOf: Namer, d: Descriptor, p: Probe, t: Table, now: int, rate: RateFn)
    requires !Escapes(d, p) && d.attributes.Some? && p.Answered?
    requires d.typeLabel.None? && d.derive.None?
    ensures var s := PollDescriptor(nameOf, d, p, t, now, rate);
      && s.Some? && s.value.1 == t && |s.value.0| == |p.results|
      && forall i :: 0 <= i < |p.results| ==>
           s.value.0[i] == Metric(nameOf(p.results[i]), "value", p.results[i].value)
  {
    HarvestShape(nameOf, "value", false, p.results, t, now, rate);
  }

  // ---------------------------------------------------------------- status metrics

  lemma {:induction false} CountNamedAppend(a: seq<Metric>, b: seq<Metric>, name: string)
    ensures CountNamed(a + b, name) == CountNamed(a, name) + CountNamed(b, name)
    decreases |b|
  {
    if b == [] {
      assert a + b == a;
    } else {
      assert (a + b)[..|a + b| - 1] == a + b[..|b| - 1];
      CountNamedAppend(a, b[..|b| - 1], name);
    }
  }

  lemma {:induction false} CountNamedAbsent(a: seq<Metric>, name: string)
    requires forall m :: m in a ==> m.name != name
    ensures CountNamed(a, name) == 0
    decreases |a|
  {
    if a != [] {
      assert a[|a| - 1] in a;
      assert forall m :: m in a[..|a| - 1] ==> m in a;
      CountNamedAbsent(a[..|a| - 1], name);
    }
  }

  /** The status metric is in every batch: once, or twice (3, then 1) after a ConnectionException;
      business metrics never take its name. */
  lemma StatusCount(metricPrefix: string, ds: seq<Descriptor>, remote: Remote, t: Table, now: int, rate: RateFn)
    requires remote.Connected? ==> |remote.probes| == |ds|
    ensures var run := Run(MetricNamer(metricPrefix), ds, remote, t, now, rate).0;
      CountNamed(AllMetrics(metricPrefix, run), StatusName(metricPrefix))
        == if run == Failed(ConnectionException) then 2 else 1
  {
    var run := Run(MetricNamer(metricPrefix), ds, remote, t, now, rate).0;
    var st := StatusName(metricPrefix);
    var all := AllMetrics(metricPrefix, run);
    var body := all[..|all| - 1];
    var s1 := StatusMetric(metricPrefix, 1.0);
    assert all == body + [s1];
    CountNamedAppend(body, [s1], st);
    assert [s1][..0] == [];
    if run.Returned? {
      var ps := remote.probes;
      ExecuteProvenance(MetricNamer(metricPrefix), ds, ps, t, now, rate);
      forall m | m in body ensures m.name != st {
        var j :| 0 <= j < |ds| && Emits(MetricNamer(metricPrefix), ds[j], ps[j], m);
        var i :| 0 <= i < |ps[j].results| && m.name == MetricNamer(metricPrefix)(ps[j].results[i]);
        BusinessNameIsNotStatus(metricPrefix, metricPrefix, ps[j].results[i].name, ps[j].results[i].valueType);
      }
      CountNamedAbsent(body, st);
    } else if run == Failed(ConnectionException) {
      assert body == [StatusMetric(metricPrefix, 3.0)];
      assert body[..0] == [];
      assert CountNamed(body, st) == 1;
    } else {
      assert body == [];
    }
  }

  // ---------------------------------------------------------------- reporting

  /** Reporting and counting drops both distribute over concatenation, so the sink sees the
      reportable metrics in list order. */
  lemma {:induction false} ReportedAppend(a: seq<Metric>, b: seq<Metric>)
    ensures Reported(a + b) == Reported(a) + Reported(b)
    ensures Dropped(a + b) == Dropped(a) + Dropped(b)
    decreases |b|
  {
    if b == [] {
      assert a + b == a;
    } else {
      assert (a + b)[..|a + b| - 1] == a + b[..|b| - 1];
      ReportedAppend(a, b[..|b| - 1]);
    }
  }

  /** Each metric is either reported or dropped. */
  lemma {:induction false} ReportedPartition(a: seq<Metric>)
    ensures |Reported(a)| + Dropped(a) == |a|
    decreases |a|
  {
    if a != [] {
      ReportedPartition(a[..|a| - 1]);
    }
  }

  /** A metric reaches the sink if and only if it is in the batch with a non-null, non-NaN value. */
  lemma {:induction false} ReportedMembership(a: seq<Metric>)
    ensures forall m :: m in Reported(a) <==> m in a && Reportable(m.value)
    decreases |a|
  {
    if a != [] {
      var front := a[..|a| - 1];
      ReportedMembership(front);
      assert a == front + [a[|a| - 1]];
    }
  }

  /** Nothing is dropped exactly when every metric of the batch is reportable. */
  lemma {:induction false} NothingDroppedIff(a: seq<Metric>)
    ensures Dropped(a) == 0 <==> forall m :: m in a ==> Reportable(m.value)
    decreases |a|
  {
    if a != [] {
      var front := a[..|a| - 1];
      NothingDroppedIff(front);
      assert a == front + [a[|a| - 1]];
    }
  }

  /** Every cycle ends by reporting status 1, whatever happened before. */
  lemma CycleReportsStatus(metricPrefix: string, run: RunResult)
    ensures var rep := Reported(AllMetrics(metricPrefix, run));
      |rep| > 0 && rep[|rep| - 1] == StatusMetric(metricPrefix, 1.0)
  {
    var all := AllMetrics(metricPrefix, run);
    assert all[..|all| - 1] + [all[|all| - 1]] == all;
    ReportedAppend(all[..|all| - 1], [all[|all| - 1]]);
    assert Reported([all[|all| - 1]]) == [StatusMetric(metricPrefix, 1.0)] by {
      assert [all[|all| - 1]][..0] == [];
    }
  }

  /** A cycle that cannot connect reports status 3 then status 1, drops nothing and leaves the
      counters as they were. */
  lemma UnreachableCycle(metricPrefix: string, nameOf: Namer, ds: seq<Descriptor>, t: Table, now: int, rate: RateFn)
    ensures var run := Run(nameOf, ds, NotConnected(ConnectionException), t, now, rate);
      && run.1 == t
      && Reported(AllMetrics(metricPrefix, run.0))
         == [StatusMetric(metricPrefix, 3.0), StatusMetric(metricPrefix, 1.0)]
      && Dropped(AllMetrics(metricPrefix, run.0)) == 0
  {
    var s3, s1 := StatusMetric(metricPrefix, 3.0), StatusMetric(metricPrefix, 1.0);
    assert AllMetrics(metricPrefix, Failed(ConnectionException)) == [s3] + [s1];
    ReportedAppend([s3], [s1]);
    assert [s3][..0] == [] && [s1][..0] == [];
  }

  /** A cycle whose batch is lost to an escaping exception reports only status metrics, while
      the counters of the descriptors before the first escape have still advanced. */
  lemma EscapedCycleReportsOnlyStatus(metricPrefix: string, nameOf: Namer, ds: seq<Descriptor>, ps: seq<Probe>, onEscape: Failure,
                                      j: nat, t: Table, now: int, rate: RateFn)
    requires |ps| == |ds| && j < |ds| && Escapes(ds[j], ps[j])
    requires forall i :: 0 <= i < j ==> !Escapes(ds[i], ps[i])
    ensures var run := Run(nameOf, ds, Connected(ps, onEscape), t, now, rate);
      && run.0 == Failed(onEscape)
      && run.1 == Execute(nameOf, ds[..j], ps[..j], t, now, rate).1
      && forall m :: m in AllMetrics(metricPrefix, run.0) ==> m.name == StatusName(metricPrefix)
  {
    FirstEscapeKeepsEarlierCounters(nameOf, ds, ps, j, t, now, rate);
  }

  /** In a connected cycle where no descriptor throws outside its guarded block, `run` returns
      the batch, every result of an answered descriptor has its metric in it, and a metric of
      the batch reaches the sink exactly when its value is reportable. */
  lemma ConnectedCycleReportsResults(metricPrefix: string, nameOf: Namer, ds: seq<Descriptor>, ps: seq<Probe>,
                                     onEscape: Failure, t: Table, now: int, rate: RateFn)
    requires |ps| == |ds|
    requires forall j :: 0 <= j < |ds| ==> !Escapes(ds[j], ps[j])
    ensures var run := Run(nameOf, ds, Connected(ps, onEscape), t, now, rate).0;
      && run.Returned?
      && (forall j, i :: 0 <= j < |ds| && ds[j].attributes.Some? && ps[j].Answered? && 0 <= i < |ps[j].results| ==>
            Covers(nameOf, run.metrics, ds[j], ps[j].results[i]))
      && (forall m :: m in run.metrics ==> (m in Reported(AllMetrics(metricPrefix, run)) <==> Reportable(m.value)))
  {
    EscapeIff(nameOf, ds, ps, t, now, rate);
    ExecuteCompleteness(nameOf, ds, ps, t, now, rate);
    var run := Run(nameOf, ds, Connected(ps, onEscape), t, now, rate).0;
    var all := AllMetrics(metricPrefix, run);
    ReportedMembership(all);
    assert all == run.metrics + [StatusMetric(metricPrefix, 1.0)];
  }
}
