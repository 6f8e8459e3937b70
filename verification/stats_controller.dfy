/** The stats endpoint (StatsController): validated query parameters, the
    rejection of unsupported statistic names, and the metric-outer, stat-inner
    collection that drops absent statistics. */
module StatsController {
  import opened Results
  import opened LexOrder
  import opened Timestamps
  import opened StatTypes
  import opened Measurements
  import opened StatsService

  // ---------------------------------------------------------------------------
  // toStatTypes

  /** The loop of `toStatTypes` for any parser: every name parsed in order, or None
      at the first name that parses to UNSUPPORTED. */
  function ParseAll(names: seq<string>, parse: string -> StatType): (r: Option<seq<StatType>>)
    ensures r.Some? <==> forall i :: 0 <= i < |names| ==> parse(names[i]) != Unsupported
    ensures r.Some? ==> |r.value| == |names|
    ensures r.Some? ==> forall i :: 0 <= i < |names| ==> r.value[i] == parse(names[i])
  {
    if |names| == 0 then Some([])
    else
      var t := parse(names[0]);
      var rest := ParseAll(names[1..], parse);
      assert forall i :: 1 <= i < |names| ==> names[i] == names[1..][i - 1];
      if t == Unsupported || rest.None? then None else Some([t] + rest.value)
  }

  /** `toStatTypes`: the requested names as statistic types, in request order;
      None is the BadRequest raised at the first unsupported name. */
  function ToStatTypes(names: seq<string>): (r: Option<seq<StatType>>)
    ensures r.Some? <==> forall i :: 0 <= i < |names| ==> FromString(Some(names[i])) != Unsupported
    ensures r.Some? ==> |r.value| == |names|
    ensures r.Some? ==> forall i :: 0 <= i < |names| ==> r.value[i] == FromString(Some(names[i]))
  {
    ParseAll(names, name => FromString(Some(name)))
  }

  // ---------------------------------------------------------------------------
  // collect

  /** The switch of `collect`: the service call matching the statistic type;
      UNSUPPORTED has no case and adds nothing. */
  function StatFor(s: MeasurementStore, metric: string, t: StatType, from: string, to: string): (r: Result<Option<Stat>>)
    ensures t == Unsupported ==> r == Ok(None)
    ensures t != Unsupported ==> (r.Err? <==> Less(to, from))
    ensures r.Err? ==> r.error == InvalidRange
    ensures r.Ok? && r.value.Some? ==> r.value.value.metric == metric && r.value.value.stat == t
    ensures t != Unsupported && r.Ok? && WellKeyed(s) ==>
              (r.value.Some? <==> exists k :: ReportsInRange(s, k, metric, from, to))
  {
    match t
    case Average => GetAverage(s, metric, from, to)
    case Max => GetMax(s, metric, from, to)
    case Min => GetMin(s, metric, from, to)
    case Unsupported => Ok(None)
  }

  /** Some requested type makes a service call. */
  predicate AnySupported(types: seq<StatType>) {
    exists j :: 0 <= j < |types| && types[j] != Unsupported
  }

  /** `StatFor` produces `st` for the metric and type named in `st` itself. */
  predicate Emits(s: MeasurementStore, st: Stat, from: string, to: string) {
    StatFor(s, st.metric, st.stat, from, to) == Ok(Some(st))
  }

  /** What the inner loop accumulates from a list of service answers: the first
      error aborts it; otherwise the present answers, in order. */
  function Present(answers: seq<Result<Option<Stat>>>): (r: Result<seq<Stat>>)
    ensures r.Err? <==> exists i :: 0 <= i < |answers| && answers[i].Err?
    ensures r.Err? ==> exists i :: 0 <= i < |answers| && answers[i] == Err(r.error)
    ensures r.Ok? ==> |r.value| <= |answers|
    ensures r.Ok? ==> forall st :: st in r.value <==> Ok(Some(st)) in answers
  {
    if |answers| == 0 then Ok([])
    else
      var rest := Present(answers[1..]);
      assert forall i :: 1 <= i < |answers| ==> answers[i] == answers[1..][i - 1];
      assert forall a :: a in answers <==> a == answers[0] || a in answers[1..];
      if answers[0].Err? then Err(answers[0].error)
      else if rest.Err? then Err(rest.error)
      else Ok((if answers[0].value.Some? then [answers[0].value.value] else []) + rest.value)
  }

  /** Accumulation distributes over concatenation of error-free answer lists. */
  lemma {:induction false} PresentAppend(a: seq<Result<Option<Stat>>>, b: seq<Result<Option<Stat>>>)
    requires Present(a).Ok? && Present(b).Ok?
    ensures Present(a + b) == Ok(Present(a).value + Present(b).value)
  {
    if |a| == 0 {
      assert a + b == b;
      assert Present(a).value == [];
      assert [] + Present(b).value == Present(b).value;
    } else {
      assert (a + b)[0] == a[0];
      assert (a + b)[1..] == a[1..] + b;
      assert Present(a[1..]).Ok? by {
        assert forall i :: 0 <= i < |a[1..]| ==> a[1..][i] == a[i + 1];
      }
      PresentAppend(a[1..], b);
      var head: seq<Stat> := if a[0].value.Some? then [a[0].value.value] else [];
      var ra, rb := Present(a[1..]).value, Present(b).value;
      assert Present(a) == Ok(head + ra);
      assert Present(a + b) == Ok(head + (ra + rb));
      assert head + (ra + rb) == (head + ra) + rb;
    }
  }

  /** The service answers for one metric, one per requested type, in request order. */
  function Answers(s: MeasurementStore, types: seq<StatType>, metric: string, from: string, to: string)
    : (r: seq<Result<Option<Stat>>>)
    ensures |r| == |types|
    ensures forall j :: 0 <= j < |types| ==> r[j] == StatFor(s, metric, types[j], from, to)
  {
    if |types| == 0 then []
    else
      var rest := Answers(s, types[1..], metric, from, to);
      assert forall j :: 1 <= j < |types| ==> types[j] == types[1..][j - 1];
      [StatFor(s, metric, types[0], from, to)] + rest
  }

  lemma AnswersAppend(s: MeasurementStore, t1: seq<StatType>, t2: seq<StatType>,
                      metric: string, from: string, to: string)
    ensures Answers(s, t1 + t2, metric, from, to) == Answers(s, t1, metric, from, to) + Answers(s, t2, metric, from, to)
  {
    var whole, r1, r2 := Answers(s, t1 + t2, metric, from, to), Answers(s, t1, metric, from, to), Answers(s, t2, metric, from, to);
    forall j | 0 <= j < |whole|
      ensures whole[j] == (r1 + r2)[j]
    {
      if j < |t1| {
        assert (t1 + t2)[j] == t1[j];
      } else {
        assert (t1 + t2)[j] == t2[j - |t1|];
      }
    }
  }

  /** The inner loop of `collect`: the present statistics of one metric, in the
      order of the requested types. An inverted range aborts the request. */
  function CollectForMetric(s: MeasurementStore, types: seq<StatType>, metric: string, from: string, to: string)
    : (r: Result<seq<Stat>>)
    ensures r.Err? <==> Less(to, from) && AnySupported(types)
    ensures r.Err? ==> r.error == InvalidRange
    ensures r.Ok? ==> |r.value| <= |types|
    ensures r.Ok? ==> forall st :: st in r.value ==> st.metric == metric && st.stat in types && Emits(s, st, from, to)
    ensures r.Ok? ==> forall st: Stat :: st.metric == metric && st.stat in types && Emits(s, st, from, to) ==> st in r.value
  {
    var answers := Answers(s, types, metric, from, to);
    var r := Present(answers);
    assert forall st: Stat :: Ok(Some(st)) in answers <==> st.metric == metric && st.stat in types && Emits(s, st, from, to) by {
      forall st: Stat
        ensures Ok(Some(st)) in answers <==> st.metric == metric && st.stat in types && Emits(s, st, from, to)
      {
        if Ok(Some(st)) in answers {
          var j :| 0 <= j < |answers| && answers[j] == Ok(Some(st));
          assert st.stat == types[j];
        }
        if st.metric == metric && st.stat in types && Emits(s, st, from, to) {
          var j :| 0 <= j < |types| && types[j] == st.stat;
          assert answers[j] == Ok(Some(st));
        }
      }
    }
    assert (exists i :: 0 <= i < |answers| && answers[i].Err?) <==> Less(to, from) && AnySupported(types) by {
      if Less(to, from) && AnySupported(types) {
        var j :| 0 <= j < |types| && types[j] != Unsupported;
        assert answers[j].Err?;
      }
    }
    r
  }

  /** `collect`: for each metric in request order, its present statistics in the
      order of the requested types. An inverted range aborts the request. */
  function CollectStats(s: MeasurementStore, types: seq<StatType>, metrics: seq<string>, from: string, to: string)
    : (r: Result<seq<Stat>>)
    ensures r.Err? <==> Less(to, from) && AnySupported(types) && |metrics| > 0
    ensures r.Err? ==> r.error == InvalidRange
    ensures r.Ok? ==> |r.value| <= |metrics| * |types|
    ensures r.Ok? ==> forall st :: st in r.value ==> st.metric in metrics && st.stat in types && Emits(s, st, from, to)
    ensures r.Ok? ==> forall st: Stat :: st.metric in metrics && st.stat in types && Emits(s, st, from, to) ==> st in r.value
  {
    if |metrics| == 0 then Ok([])
    else
      var head := CollectForMetric(s, types, metrics[0], from, to);
      var rest := CollectStats(s, types, metrics[1..], from, to);
      assert forall m :: m in metrics <==> m == metrics[0] || m in metrics[1..];
      if head.Err? then Err(head.error)
      else
        match rest
        case Err(e) => Err(e)
        case Ok(restValue) =>
          assert |metrics| * |types| == |types| + (|metrics| - 1) * |types|;
          Ok(head.value + restValue)
  }

  /** Stat-inner order: splitting the requested types splits one metric's statistics. */
  lemma CollectForMetricAppend(s: MeasurementStore, t1: seq<StatType>, t2: seq<StatType>,
                                                  metric: string, from: string, to: string)
    requires !Less(to, from)
    ensures CollectForMetric(s, t1 + t2, metric, from, to).Ok?
    ensures CollectForMetric(s, t1 + t2, metric, from, to).value
         == CollectForMetric(s, t1, metric, from, to).value + CollectForMetric(s, t2, metric, from, to).value
  {
    var a1, a2 := Answers(s, t1, metric, from, to), Answers(s, t2, metric, from, to);
    AnswersAppend(s, t1, t2, metric, from, to);
    assert CollectForMetric(s, t1, metric, from, to) == Present(a1);
    assert CollectForMetric(s, t2, metric, from, to) == Present(a2);
    PresentAppend(a1, a2);
  }

  /** Metric-outer order: splitting the requested metrics splits the response. */
  lemma {:induction false} CollectStatsAppend(s: MeasurementStore, types: seq<StatType>, m1: seq<string>, m2: seq<string>,
                                              from: string, to: string)
    requires !Less(to, from)
    ensures CollectStats(s, types, m1 + m2, from, to).Ok?
    ensures CollectStats(s, types, m1 + m2, from, to).value
         == CollectStats(s, types, m1, from, to).value + CollectStats(s, types, m2, from, to).value
  {
    if |m1| == 0 {
      assert m1 + m2 == m2;
    } else {
      assert (m1 + m2)[1..] == m1[1..] + m2;
      CollectStatsAppend(s, types, m1[1..], m2, from, to);
    }
  }

  // ---------------------------------------------------------------------------
  // How many statistics a request yields

  /** Some stored measurement reports `metric` inside [from, to). */
  ghost predicate Reported(s: MeasurementStore, metric: string, from: string, to: string) {
    exists k :: ReportsInRange(s, k, metric, from, to)
  }

  /** The number of requested metrics (counted with repetition) that have data in range. */
  ghost function CountReported(s: MeasurementStore, metrics: seq<string>, from: string, to: string): nat {
    if |metrics| == 0 then 0
    else (if Reported(s, metrics[0], from, to) then 1 else 0) + CountReported(s, metrics[1..], from, to)
  }

  predicate AllSupported(types: seq<StatType>) {
    forall j :: 0 <= j < |types| ==> types[j] != Unsupported
  }

  /** With only supported types, a metric yields every requested statistic when it
      has data in range, and none otherwise. */
  lemma {:induction false} MetricAllOrNothing(s: MeasurementStore, types: seq<StatType>, metric: string, from: string, to: string)
    requires WellKeyed(s) && !Less(to, from) && AllSupported(types)
    ensures |CollectForMetric(s, types, metric, from, to).value| == if Reported(s, metric, from, to) then |types| else 0
  {
    if |types| > 0 {
      assert AllSupported(types[1..]) by {
        assert forall j :: 0 <= j < |types[1..]| ==> types[1..][j] == types[j + 1];
      }
      MetricAllOrNothing(s, types[1..], metric, from, to);
    }
  }

  /** The arithmetic of one outer step: a metric adds all `n` statistics or none. */
  lemma CountStep(total: nat, head: nat, rest: nat, n: nat, reported: bool, c: nat, count: nat)
    requires total == head + rest && head == (if reported then n else 0) && rest == n * c
    requires count == (if reported then 1 else 0) + c
    ensures total == n * count
  {
    if reported {
      assert n * (1 + c) == n + n * c;
    }
  }

  /** One step of the outer loop on a valid range: the first metric's statistics,
      then the rest. */
  lemma CollectStatsStep(s: MeasurementStore, types: seq<StatType>, metrics: seq<string>, from: string, to: string)
    requires !Less(to, from) && |metrics| > 0
    ensures CollectStats(s, types, metrics, from, to).value
         == CollectForMetric(s, types, metrics[0], from, to).value + CollectStats(s, types, metrics[1..], from, to).value
  {
  }

  /** The response length is the number of types times the number of metrics with data. */
  lemma {:induction false} ResponseCount(s: MeasurementStore, types: seq<StatType>, metrics: seq<string>, from: string, to: string)
    requires WellKeyed(s) && !Less(to, from) && AllSupported(types)
    ensures |CollectStats(s, types, metrics, from, to).value| == |types| * CountReported(s, metrics, from, to)
  {
    if |metrics| > 0 {
      CollectStatsStep(s, types, metrics, from, to);
      MetricAllOrNothing(s, types, metrics[0], from, to);
      ResponseCount(s, types, metrics[1..], from, to);
      var head, rest := CollectForMetric(s, types, metrics[0], from, to).value, CollectStats(s, types, metrics[1..], from, to).value;
      var reported := Reported(s, metrics[0], from, to);
      var c := CountReported(s, metrics[1..], from, to);
      assert CountReported(s, metrics, from, to) == (if reported then 1 else 0) + c;
      CountStep(|CollectStats(s, types, metrics, from, to).value|, |head|, |rest|, |types|, reported, c,
                CountReported(s, metrics, from, to));
    }
  }

  /** Three statistics over three metrics, one of which has no data, give six results. */
  lemma ThreeByThreeOneMissing(s: MeasurementStore, a: string, b: string, c: string, from: string, to: string)
    requires WellKeyed(s) && !Less(to, from)
    requires Reported(s, a, from, to) && Reported(s, b, from, to) && !Reported(s, c, from, to)
    ensures |CollectStats(s, [Min, Max, Average], [a, b, c], from, to).value| == 6
  {
    var metrics := [a, b, c];
    assert metrics[1..] == [b, c] && metrics[1..][1..] == [c] && metrics[1..][1..][1..] == [];
    assert CountReported(s, [c], from, to) == 0;
    assert CountReported(s, [b, c], from, to) == 1;
    assert CountReported(s, metrics, from, to) == 2;
    ResponseCount(s, [Min, Max, Average], metrics, from, to);
  }

  // ---------------------------------------------------------------------------
  // The endpoint

  /** The query: repeated `stat` and `metric` parameters and the two date-times. */
  datatype StatsQuery = StatsQuery(stats: seq<string>, metrics: seq<string>, fromDateTime: string, toDateTime: string)

  /** The list of statistics (200), a client error (400), or the library's range
      error escaping the handler. */
  datatype StatsReply = Stats(list: seq<Stat>) | BadRequest | Uncaught(error: StoreError)

  /** Types parsed from names: one per name, each found from its name, so some
      type makes a service call exactly when some name was given. */
  lemma {:induction false} SupportedTypes(names: seq<string>, types: seq<StatType>)
    requires ToStatTypes(names) == Some(types)
    ensures AnySupported(types) <==> |names| > 0
    ensures forall t :: t in types ==> exists j :: 0 <= j < |names| && FromString(Some(names[j])) == t
  {
    if |names| > 0 {
      assert types[0] != Unsupported;
    }
    forall t | t in types
      ensures exists j :: 0 <= j < |names| && FromString(Some(names[j])) == t
    {
      var j :| 0 <= j < |types| && types[j] == t;
      assert FromString(Some(names[j])) == t;
    }
  }

  /** What a successful `collect` over parsed names answers: at most one statistic per
      metric and name, each for a requested metric and a requested name's type. */
  lemma StatsListFacts(s: MeasurementStore, q: StatsQuery, types: seq<StatType>, list: seq<Stat>)
    requires ToStatTypes(q.stats) == Some(types)
    requires CollectStats(s, types, q.metrics, q.fromDateTime, q.toDateTime) == Ok(list)
    ensures |list| <= |q.metrics| * |q.stats|
    ensures forall st :: st in list ==>
              st.metric in q.metrics && exists j :: 0 <= j < |q.stats| && FromString(Some(q.stats[j])) == st.stat
  {
    SupportedTypes(q.stats, types);
  }

  /** `get`: both date-times must fit the UTC pattern and every name must be
      supported before any statistic is computed. */
  function HandleStats(s: MeasurementStore, q: StatsQuery): (r: StatsReply)
    ensures r.BadRequest? <==>
              || !IsUtcTimestamp(q.fromDateTime) || !IsUtcTimestamp(q.toDateTime)
              || exists i :: 0 <= i < |q.stats| && FromString(Some(q.stats[i])) == Unsupported
    ensures r.Uncaught? ==> r.error == InvalidRange && |q.stats| > 0 && |q.metrics| > 0
    ensures r.Uncaught? ==> Instant(q.toDateTime) < Instant(q.fromDateTime)
    ensures (!r.BadRequest? && Instant(q.toDateTime) < Instant(q.fromDateTime) && |q.stats| > 0 && |q.metrics| > 0)
              ==> r.Uncaught?
    ensures r.Stats? ==> ToStatTypes(q.stats).Some?
    ensures r.Stats? ==> CollectStats(s, ToStatTypes(q.stats).value, q.metrics, q.fromDateTime, q.toDateTime) == Ok(r.list)
    ensures r.Stats? ==> |r.list| <= |q.metrics| * |q.stats|
    ensures r.Stats? ==> forall st :: st in r.list ==>
              st.metric in q.metrics && exists j :: 0 <= j < |q.stats| && FromString(Some(q.stats[j])) == st.stat
  {
    if !IsUtcTimestamp(q.fromDateTime) || !IsUtcTimestamp(q.toDateTime) then BadRequest
    else
      match ToStatTypes(q.stats)
      case None => BadRequest
      case Some(types) =>
        TimestampOrder(q.toDateTime, q.fromDateTime);
        SupportedTypes(q.stats, types);
        match CollectStats(s, types, q.metrics, q.fromDateTime, q.toDateTime)
        case Err(e) => Uncaught(e)
        case Ok(list) =>
          StatsListFacts(s, q, types, list);
          Stats(list)
  }
}
