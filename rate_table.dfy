/** The derivative table: metric name to rate counter, and the counters themselves. */
module RateTable {
  import opened Values

  /** One raw value handed to a counter, with the clock reading of that poll cycle. */
  datatype Sample = Sample(raw: Value, at: int)

  /** Everything a counter has processed, oldest first: the model's stand-in for the
      counter's private state. */
  type History = seq<Sample>

  /** The counter's rate arithmetic, left uninterpreted: the value process() returns,
      as a function of all samples it has seen, the newest being the last. */
  type RateFn = History -> Value

  /** The abstract content of the derivative table: each key's counter history. */
  type Table = map<string, History>

  /** The history of `key`, empty for a key that has no counter yet. */
  function Prior(t: Table, key: string): History
  {
    if key in t then t[key] else []
  }

  /** calculateValue on the abstract table: the returned value, and the table afterwards. */
  function Observe(t: Table, key: string, raw: Value, derive: bool, now: int, rate: RateFn): (r: (Value, Table))
    ensures !derive ==> r == (raw, t)
    ensures derive ==> r.1.Keys == t.Keys + {key}
    ensures derive ==> r.1[key] == Prior(t, key) + [Sample(raw, now)] && r.0 == rate(r.1[key])
    ensures forall k :: k in t && k != key ==> k in r.1 && r.1[k] == t[k]
  {
    if derive then
      var h := Prior(t, key) + [Sample(raw, now)];
      (rate(h), t[key := h])
    else
      (raw, t)
  }

  /** An existing history is never reset: what a key has seen stays a prefix of what it sees. */
  lemma ObserveExtends(t: Table, key: string, raw: Value, derive: bool, now: int, rate: RateFn, k: string)
    requires k in t
    ensures var t' := Observe(t, key, raw, derive, now, rate).1;
      k in t' && t[k] <= t'[k] && |t'[k]| <= |t[k]| + 1
  {
  }

  /** The SDK's EpochCounter: a mutable counter that turns raw readings into rates. */
  class EpochCounter {
    const rate: RateFn
    /** The derivative key the counter was created for: bookkeeping of the model only. */
    ghost const key: string
    var samples: History

    constructor (rate: RateFn, ghost key: string)
      ensures this.rate == rate && this.key == key && samples == []
    {
      this.rate := rate;
      this.key := key;
      samples := [];
    }

    /** process(rawVal): records the reading and returns the counter's rate. */
    method Process(raw: Value, now: int) returns (r: Value)
      modifies this
      ensures samples == old(samples) + [Sample(raw, now)]
      ensures r == rate(samples)
    {
      samples := samples + [Sample(raw, now)];
      r := rate(samples);
    }
  }
}
