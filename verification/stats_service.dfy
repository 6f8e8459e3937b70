/** The statistics service (StatsServiceImpl): the readings of one metric over the
    half-open range [from, to), reduced to their average, maximum or minimum.
    An empty selection gives no statistic (null in the service). */
module StatsService {
  import opened Results
  import opened LexOrder
  import opened StatTypes
  import opened Measurements
  import SortedStore

  /** One computed statistic of one metric. */
  datatype Stat = Stat(metric: string, stat: StatType, value: real)

  // ---------------------------------------------------------------------------
  // Collecting the readings of one metric

  /** `collect`'s loop: the readings of `metric`, in the order of `ms`, skipping
      measurements that do not report it. */
  function Collect(ms: seq<Measurement>, metric: string): (r: seq<real>)
    ensures |r| <= |ms|
    ensures forall v :: v in r <==> exists m :: m in ms && metric in m.metrics && m.metrics[metric] == v
  {
    if |ms| == 0 then []
    else
      var rest := Collect(ms[1..], metric);
      assert forall m :: m in ms <==> m == ms[0] || m in ms[1..];
      if metric in ms[0].metrics then [ms[0].metrics[metric]] + rest else rest
  }

  /** Collecting distributes over concatenation, so readings keep the order of the measurements. */
  lemma {:induction false} CollectAppend(a: seq<Measurement>, b: seq<Measurement>, metric: string)
    ensures Collect(a + b, metric) == Collect(a, metric) + Collect(b, metric)
  {
    if |a| > 0 {
      assert (a + b)[1..] == a[1..] + b;
      CollectAppend(a[1..], b, metric);
    } else {
      assert a + b == b;
    }
  }

  /** A stored measurement reports `metric` at a timestamp inside [from, to). */
  ghost predicate ReportsInRange(s: MeasurementStore, k: string, metric: string, from: string, to: string) {
    k in s && SortedStore.Within(k, SortedStore.HalfOpen(from, to)) && metric in s[k].metrics
  }

  /** `collect`: the readings of `metric` over [from, to); an inverted range is the
      library's range error. */
  function CollectInRange(s: MeasurementStore, metric: string, from: string, to: string): (r: Result<seq<real>>)
    ensures r.Err? <==> Less(to, from)
    ensures r.Err? ==> r.error == InvalidRange
    ensures r.Ok? ==> r.value == Collect(RetrieveAllBetween(s, from, to).value, metric)
    ensures r.Ok? && WellKeyed(s) ==>
              forall v :: v in r.value <==> exists k :: ReportsInRange(s, k, metric, from, to) && s[k].metrics[metric] == v
  {
    var ms :- RetrieveAllBetween(s, from, to);
    var values := Collect(ms, metric);
    if WellKeyed(s) then CollectedReadings(s, metric, from, to, ms); Ok(values) else Ok(values)
  }

  lemma CollectedReadings(s: MeasurementStore, metric: string, from: string, to: string, ms: seq<Measurement>)
    requires WellKeyed(s)
    requires ExactlyWithin(s, SortedStore.HalfOpen(from, to), ms)
    ensures forall v :: v in Collect(ms, metric) <==>
              exists k :: ReportsInRange(s, k, metric, from, to) && s[k].metrics[metric] == v
  {
    forall v
      ensures v in Collect(ms, metric) <==> exists k :: ReportsInRange(s, k, metric, from, to) && s[k].metrics[metric] == v
    {
      if v in Collect(ms, metric) {
        var m :| m in ms && metric in m.metrics && m.metrics[metric] == v;
        assert ReportsInRange(s, m.timestamp, metric, from, to);
      }
      if exists k :: ReportsInRange(s, k, metric, from, to) && s[k].metrics[metric] == v {
        var k :| ReportsInRange(s, k, metric, from, to) && s[k].metrics[metric] == v;
        assert s[k] in ms;
      }
    }
  }

  /** Readings keep the range's order and multiplicity: over adjacent ranges [a, b)
      and [b, c), the readings of [a, c) are those of [a, b) followed by those of [b, c). */
  lemma CollectInRangeSplit(s: MeasurementStore, metric: string, a: string, b: string, c: string)
    requires LessEq(a, b) && LessEq(b, c)
    ensures CollectInRange(s, metric, a, b).Ok? && CollectInRange(s, metric, b, c).Ok?
    ensures CollectInRange(s, metric, a, c)
         == Ok(CollectInRange(s, metric, a, b).value + CollectInRange(s, metric, b, c).value)
  {
    SortedStore.AdjacentHalfOpen(s, a, b, c);
    CollectAppend(RetrieveAllBetween(s, a, b).value, RetrieveAllBetween(s, b, c).value, metric);
  }

  // ---------------------------------------------------------------------------
  // Reductions

  function MaxOf(vs: seq<real>): (r: real)
    requires |vs| > 0
    ensures r in vs
    ensures forall v :: v in vs ==> v <= r
  {
    if |vs| == 1 then vs[0]
    else
      var m := MaxOf(vs[1..]);
      assert forall v :: v in vs ==> v == vs[0] || v in vs[1..];
      if vs[0] < m then m else vs[0]
  }

  function MinOf(vs: seq<real>): (r: real)
    requires |vs| > 0
    ensures r in vs
    ensures forall v :: v in vs ==> r <= v
  {
    if |vs| == 1 then vs[0]
    else
      var m := MinOf(vs[1..]);
      assert forall v :: v in vs ==> v == vs[0] || v in vs[1..];
      if m < vs[0] then m else vs[0]
  }

  function Sum(vs: seq<real>): real {
    if |vs| == 0 then 0.0 else vs[0] + Sum(vs[1..])
  }

  /** A sum of values between `lo` and `hi` lies between count times each. */
  lemma {:induction false} SumBounds(vs: seq<real>, lo: real, hi: real)
    requires forall v :: v in vs ==> lo <= v <= hi
    ensures (|vs| as real) * lo <= Sum(vs) <= (|vs| as real) * hi
  {
    if |vs| > 0 {
      assert vs[0] in vs;
      assert forall v :: v in vs[1..] ==> v in vs;
      SumBounds(vs[1..], lo, hi);
      var n := (|vs| - 1) as real;
      assert (n + 1.0) * lo == lo + n * lo;
      assert (n + 1.0) * hi == hi + n * hi;
    }
  }

  /** Dividing bounds of the form n * lo <= total <= n * hi by a positive n. */
  lemma Quotient(total: real, n: real, lo: real, hi: real)
    requires n > 0.0
    requires n * lo <= total <= n * hi
    ensures (total / n) * n == total
    ensures lo <= total / n <= hi
  {
    var q := total / n;
    assert q * n == total;
  }

  /** `average()`: the arithmetic mean, which lies between the smallest and the largest value. */
  function Mean(vs: seq<real>): (r: real)
    requires |vs| > 0
    ensures r * (|vs| as real) == Sum(vs)
    ensures MinOf(vs) <= r <= MaxOf(vs)
  {
    var n, total, lo, hi := |vs| as real, Sum(vs), MinOf(vs), MaxOf(vs);
    SumBounds(vs, lo, hi);
    Quotient(total, n, lo, hi);
    total / n
  }

  // ---------------------------------------------------------------------------
  // The three statistics

  /** `getAverage`: the mean reading of `metric` over [from, to), or None when there is none. */
  function GetAverage(s: MeasurementStore, metric: string, from: string, to: string): (r: Result<Option<Stat>>)
    ensures r.Err? <==> Less(to, from)
    ensures r.Err? ==> r.error == InvalidRange
    ensures r.Ok? && WellKeyed(s) ==> (r.value.None? <==> forall k :: !ReportsInRange(s, k, metric, from, to))
    ensures r.Ok? && r.value.Some? ==> r.value.value.metric == metric && r.value.value.stat == Average
    ensures r.Ok? && r.value.Some? && WellKeyed(s) ==>
              (exists k :: ReportsInRange(s, k, metric, from, to) && s[k].metrics[metric] <= r.value.value.value)
              && (exists k :: ReportsInRange(s, k, metric, from, to) && r.value.value.value <= s[k].metrics[metric])
  {
    var values :- CollectInRange(s, metric, from, to);
    assert forall k :: ReportsInRange(s, k, metric, from, to) && WellKeyed(s) ==> s[k].metrics[metric] in values;
    if |values| == 0 then Ok(None)
    else
      var mean := Mean(values);
      assert MinOf(values) in values && MaxOf(values) in values;
      Ok(Some(Stat(metric, Average, mean)))
  }

  /** `getMax`: the largest reading of `metric` over [from, to), or None when there is none. */
  function GetMax(s: MeasurementStore, metric: string, from: string, to: string): (r: Result<Option<Stat>>)
    ensures r.Err? <==> Less(to, from)
    ensures r.Err? ==> r.error == InvalidRange
    ensures r.Ok? && WellKeyed(s) ==> (r.value.None? <==> forall k :: !ReportsInRange(s, k, metric, from, to))
    ensures r.Ok? && r.value.Some? ==> r.value.value.metric == metric && r.value.value.stat == Max
    ensures r.Ok? && r.value.Some? && WellKeyed(s) ==>
              (exists k :: ReportsInRange(s, k, metric, from, to) && s[k].metrics[metric] == r.value.value.value)
              && (forall k :: ReportsInRange(s, k, metric, from, to) ==> s[k].metrics[metric] <= r.value.value.value)
  {
    var values :- CollectInRange(s, metric, from, to);
    assert forall k :: ReportsInRange(s, k, metric, from, to) && WellKeyed(s) ==> s[k].metrics[metric] in values;
    if |values| == 0 then Ok(None)
    else
      var m := MaxOf(values);
      Ok(Some(Stat(metric, Max, m)))
  }

  /** `getMin`: the smallest reading of `metric` over [from, to), or None when there is none. */
  function GetMin(s: MeasurementStore, metric: string, from: string, to: string): (r: Result<Option<Stat>>)
    ensures r.Err? <==> Less(to, from)
    ensures r.Err? ==> r.error == InvalidRange
    ensures r.Ok? && WellKeyed(s) ==> (r.value.None? <==> forall k :: !ReportsInRange(s, k, metric, from, to))
    ensures r.Ok? && r.value.Some? ==> r.value.value.metric == metric && r.value.value.stat == Min
    ensures r.Ok? && r.value.Some? && WellKeyed(s) ==>
              (exists k :: ReportsInRange(s, k, metric, from, to) && s[k].metrics[metric] == r.value.value.value)
              && (forall k :: ReportsInRange(s, k, metric, from, to) ==> r.value.value.value <= s[k].metrics[metric])
  {
    var values :- CollectInRange(s, metric, from, to);
    assert forall k :: ReportsInRange(s, k, metric, from, to) && WellKeyed(s) ==> s[k].metrics[metric] in values;
    if |values| == 0 then Ok(None)
    else
      var m := MinOf(values);
      Ok(Some(Stat(metric, Min, m)))
  }

  /** The statistics read the store only through the range query over [from, to). */
  lemma SameReadingsSameStats(s: MeasurementStore, t: MeasurementStore, metric: string, from: string, to: string)
    requires RetrieveAllBetween(s, from, to) == RetrieveAllBetween(t, from, to)
    ensures GetAverage(s, metric, from, to) == GetAverage(t, metric, from, to)
    ensures GetMax(s, metric, from, to) == GetMax(t, metric, from, to)
    ensures GetMin(s, metric, from, to) == GetMin(t, metric, from, to)
  {
    assert CollectInRange(s, metric, from, to) == CollectInRange(t, metric, from, to);
  }

  /** The `to` bound is exclusive: whatever is (or is not) stored at `to` never
      changes a statistic over [from, to). */
  lemma UpperBoundExcluded(s: MeasurementStore, metric: string, from: string, to: string, x: Measurement)
    ensures GetAverage(s[to := x], metric, from, to) == GetAverage(s, metric, from, to)
    ensures GetMax(s[to := x], metric, from, to) == GetMax(s, metric, from, to)
    ensures GetMin(s[to := x], metric, from, to) == GetMin(s, metric, from, to)
    ensures GetAverage(s - {to}, metric, from, to) == GetAverage(s, metric, from, to)
    ensures GetMax(s - {to}, metric, from, to) == GetMax(s, metric, from, to)
    ensures GetMin(s - {to}, metric, from, to) == GetMin(s, metric, from, to)
  {
    var b := SortedStore.HalfOpen(from, to);
    LessIrreflexive(to);
    assert !SortedStore.Within(to, b);
    SortedStore.RangeReadsOnlyWithin(s[to := x], s, b);
    SortedStore.RangeReadsOnlyWithin(s - {to}, s, b);
    SameReadingsSameStats(s[to := x], s, metric, from, to);
    SameReadingsSameStats(s - {to}, s, metric, from, to);
  }
}
