/** Which envelopes measure a PromQL metric, and the names PromQL accepts. */
module Measurements {
  import opened Envelopes

  predicate IsLetter(c: char) {
    'a' <= c <= 'z' || 'A' <= c <= 'Z'
  }

  predicate IsDigit(c: char) {
    '0' <= c <= '9'
  }

  /** Every character that may not stand where it stands becomes an underscore. */
  function SanitizeMetricName(name: string): string {
    seq(|name|, i requires 0 <= i < |name| =>
      if IsLetter(name[i]) || (i > 0 && IsDigit(name[i])) then name[i] else '_')
  }

  /** A name in PromQL: letters, digits and underscores, not starting with a digit. */
  predicate IsMetricName(s: string) {
    s != "" && forall i :: 0 <= i < |s| ==> IsLetter(s[i]) || s[i] == '_' || (i > 0 && IsDigit(s[i]))
  }

  /** Sanitizing gives a PromQL name of the same length, and changes exactly the names that are not one already. */
  lemma SanitizedIsMetricName(name: string)
    ensures var s := SanitizeMetricName(name);
      |s| == |name| && (name != "" ==> IsMetricName(s) && (s == name <==> IsMetricName(name)))
    ensures var s := SanitizeMetricName(name);
      forall i :: 0 <= i < |name| ==> s[i] == name[i] || s[i] == '_'
    ensures var s := SanitizeMetricName(name);
      forall i :: 0 <= i < |name| && name[i] != '_' ==>
        (s[i] != '_' <==> 'a' <= name[i] <= 'z' || 'A' <= name[i] <= 'Z' || (i > 0 && '0' <= name[i] <= '9'))
  {
    var s := SanitizeMetricName(name);
    if IsMetricName(name) {
      assert s == name;
    }
  }

  /** Which of several matching gauge values a map iteration meets first. */
  type Choice = set<string> -> string

  ghost predicate Chooses(choose: Choice) {
    forall s :: s != {} ==> choose(s) in s
  }

  function Candidates(metrics: map<string, real>, metric: string): set<string> {
    set n | n in metrics && SanitizeMetricName(n) == metric
  }

  /** The value an envelope contributes to a metric. */
  function Measure(e: Envelope, metric: string, choose: Choice): Option<real> {
    match e.message
    case Counter(n, total) => if SanitizeMetricName(n) == metric then Some(total as real) else None
    case Gauge(metrics) =>
      var n := choose(Candidates(metrics, metric));
      if n in metrics && SanitizeMetricName(n) == metric then Some(metrics[n]) else None
    case Timer(n, start, stop) => if SanitizeMetricName(n) == metric then Some((stop - start) as real) else None
    case _ => None
  }

  /** The names of the measurements in an envelope, and the value under each. */
  ghost function Value(e: Envelope, n: string): Option<real> {
    match e.message
    case Counter(m, total) => if n == m then Some(total as real) else None
    case Gauge(metrics) => if n in metrics then Some(metrics[n]) else None
    case Timer(m, start, stop) => if n == m then Some((stop - start) as real) else None
    case _ => None
  }

  /** An envelope contributes exactly if one of its names becomes the metric, and then the value under such a name. */
  lemma MeasureIff(e: Envelope, metric: string, choose: Choice)
    requires Chooses(choose)
    ensures Measure(e, metric, choose).Some? <==> exists n :: SanitizeMetricName(n) == metric && Value(e, n).Some?
    ensures Measure(e, metric, choose).Some? ==>
      exists n :: SanitizeMetricName(n) == metric && Value(e, n) == Measure(e, metric, choose)
  {
    match e.message
    case Counter(n, _) => assert Value(e, n).Some?;
    case Timer(n, _, _) => assert Value(e, n).Some?;
    case Gauge(metrics) =>
      var c := Candidates(metrics, metric);
      if n :| SanitizeMetricName(n) == metric && Value(e, n).Some? {
        assert n in c;
      }
      if Measure(e, metric, choose).Some? {
        assert Value(e, choose(c)) == Measure(e, metric, choose);
      }
    case _ =>
  }
}
