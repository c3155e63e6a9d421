/** The metric-name builder and the prefix the agent builds from its host and port. */
module MetricNames {

  /** String.replaceAll(c, "") for a one-character literal pattern: deletes every c. */
  function RemoveAll(s: string, c: char): string
  {
    if s == [] then "" else (if s[0] == c then "" else [s[0]]) + RemoveAll(s[1..], c)
  }

  /** String.replaceAll(from, to) for one-character literals: replaces every `from` by `to`. */
  function ReplaceAll(s: string, from: char, to: char): string
  {
    if s == [] then "" else [if s[0] == from then to else s[0]] + ReplaceAll(s[1..], from, to)
  }

  /** The sanitizing chain exactly as the builder applies it: quotes removed first,
      then colons, then commas turned into slashes. */
  function Sanitize(name: string): string
  {
    ReplaceAll(ReplaceAll(RemoveAll(name, '"'), ':', '/'), ',', '/')
  }

  /** What one character of an attribute name becomes in a metric name. */
  function CleanChar(c: char): string
  {
    if c == '"' then "" else if c == ':' || c == ',' then "/" else [c]
  }

  /** Reference definition of the sanitizer: a single left-to-right pass. */
  function Sanitized(s: string): string
  {
    if s == [] then "" else CleanChar(s[0]) + Sanitized(s[1..])
  }

  /** Number of occurrences of c in s. */
  function Count(s: string, c: char): nat
  {
    if s == [] then 0 else (if s[0] == c then 1 else 0) + Count(s[1..], c)
  }

  /** The metricPrefix field, built by the constructor from the configured host and port
      and never sanitized. */
  function MetricPrefix(host: string, port: string): string
  {
    "JMX/hosts/" + host + ":" + port
  }

  /** The name of the status metric of a cycle. */
  function StatusName(metricPrefix: string): string
  {
    metricPrefix + "/" + "status"
  }

  /** createMetricName: the `prefix` argument is ignored and the agent's own
      metricPrefix is used; only the attribute name is sanitized. */
  function CreateMetricName(metricPrefix: string, prefix: string, name: string, valueType: string): string
  {
    metricPrefix + "/" + Sanitize(name) + "/" + valueType
  }

  /** A metric name is the agent's prefix, the single-pass sanitized attribute name and the
      value type, whatever prefix argument is passed. */
  lemma CreateMetricNameSpec(metricPrefix: string, prefix: string, name: string, valueType: string)
    ensures CreateMetricName(metricPrefix, prefix, name, valueType)
            == metricPrefix + "/" + Sanitized(name) + "/" + valueType
  {
    SanitizeIsSinglePass(name);
  }

  /** RemoveAll deletes c and keeps every other character. */
  lemma {:induction false} RemoveAllSpec(s: string, c: char)
    ensures c !in RemoveAll(s, c)
    ensures forall x :: x != c ==> (x in RemoveAll(s, c) <==> x in s)
  {
    if s != [] {
      RemoveAllSpec(s[1..], c);
      assert s == [s[0]] + s[1..];
    }
  }

  /** ReplaceAll keeps the length and rewrites exactly the occurrences of `from`. */
  lemma {:induction false} ReplaceAllSpec(s: string, from: char, to: char)
    ensures |ReplaceAll(s, from, to)| == |s|
    ensures forall i :: 0 <= i < |s| ==>
      ReplaceAll(s, from, to)[i] == if s[i] == from then to else s[i]
  {
    if s != [] {
      ReplaceAllSpec(s[1..], from, to);
    }
  }

  /** Sanitized names hold no quote, colon or comma. */
  lemma {:induction false} SanitizedIsClean(s: string)
    ensures '"' !in Sanitized(s) && ':' !in Sanitized(s) && ',' !in Sanitized(s)
  {
    if s != [] {
      SanitizedIsClean(s[1..]);
    }
  }

  lemma {:induction false} ReplaceAllAppend(a: string, b: string, from: char, to: char)
    ensures ReplaceAll(a + b, from, to) == ReplaceAll(a, from, to) + ReplaceAll(b, from, to)
  {
    if a != [] {
      assert (a + b)[0] == a[0];
      assert (a + b)[1..] == a[1..] + b;
      ReplaceAllAppend(a[1..], b, from, to);
    } else {
      assert a + b == b;
    }
  }

  /** The three chained replaceAll calls compute the single-pass sanitizer. */
  lemma {:induction false} SanitizeIsSinglePass(s: string)
    ensures Sanitize(s) == Sanitized(s)
  {
    if s != [] {
      var q := if s[0] == '"' then "" else [s[0]];
      var rest := RemoveAll(s[1..], '"');
      assert RemoveAll(s, '"') == q + rest;
      ReplaceAllAppend(q, rest, ':', '/');
      ReplaceAllAppend(ReplaceAll(q, ':', '/'), ReplaceAll(rest, ':', '/'), ',', '/');
      assert ReplaceAll(ReplaceAll(q, ':', '/'), ',', '/') == CleanChar(s[0]);
      SanitizeIsSinglePass(s[1..]);
    }
  }

  /** Sanitizing removes only the quotes, so the length drops by their number. */
  lemma {:induction false} SanitizedLength(s: string)
    ensures |Sanitized(s)| == |s| - Count(s, '"')
  {
    if s != [] {
      SanitizedLength(s[1..]);
    }
  }

  /** A name free of quotes, colons and commas is left as it is. */
  lemma {:induction false} SanitizedKeepsClean(s: string)
    requires '"' !in s && ':' !in s && ',' !in s
    ensures Sanitized(s) == s
  {
    if s != [] {
      assert s[0] in s;
      assert s == [s[0]] + s[1..];
      SanitizedKeepsClean(s[1..]);
    }
  }

  /** Sanitizing is idempotent, both as the reference pass and as the source's chain. */
  lemma SanitizeIdempotent(s: string)
    ensures Sanitized(Sanitized(s)) == Sanitized(s)
    ensures Sanitize(Sanitize(s)) == Sanitize(s)
  {
    SanitizedIsClean(s);
    SanitizedKeepsClean(Sanitized(s));
    SanitizeIsSinglePass(s);
    SanitizeIsSinglePass(Sanitize(s));
  }

  /** The host:port colon of the prefix survives into every metric name. */
  lemma PrefixColonSurvives(host: string, port: string, prefix: string, name: string, valueType: string)
    ensures var r := CreateMetricName(MetricPrefix(host, port), prefix, name, valueType);
      |r| > 10 + |host| && r[10 + |host|] == ':'
  {
    var p := MetricPrefix(host, port);
    CreateMetricNameSpec(p, prefix, name, valueType);
    assert p[10 + |host|] == ':';
  }

  /** No business metric name can collide with the status metric name: the part after the
      prefix always holds a slash, and "status" does not. */
  lemma BusinessNameIsNotStatus(metricPrefix: string, prefix: string, name: string, valueType: string)
    ensures CreateMetricName(metricPrefix, prefix, name, valueType) != StatusName(metricPrefix)
  {
    var r := CreateMetricName(metricPrefix, prefix, name, valueType);
    CreateMetricNameSpec(metricPrefix, prefix, name, valueType);
    var st := StatusName(metricPrefix);
    var k := |metricPrefix| + 1 + |Sanitized(name)|;
    assert r[k] == '/';
    if |r| == |st| {
      assert k < |st|;
      assert st[k] in "status";
      assert st[k] != '/';
    }
  }
}
