/** The measurements endpoint (MeasurementsController) as a pure function from a
    store and a request to a response and the next store. Service errors and
    timestamp mismatches become client errors, and every client error leaves
    the store as it was. */
module MeasurementsController {
  import opened Results
  import opened LexOrder
  import opened Measurements
  import SortedStore

  /** The handled requests: a body, a path timestamp or date, or both. */
  datatype Request =
    | Post(body: Measurement)
    | GetAt(timestamp: string)
    | GetOnDate(date: string)
    | Put(timestamp: string, body: Measurement)
    | Patch(timestamp: string, body: Measurement)
    | Remove(timestamp: string)

  datatype Response =
    | Created(location: string)
    | Found(measurement: Measurement)
    | FoundAll(measurements: seq<Measurement>)
    | NoContent
    | BadRequest
    | NotFound
    | Conflict

  predicate IsClientError(r: Response) {
    r.BadRequest? || r.NotFound? || r.Conflict?
  }

  /** The HTTP status of each response: a void handler answers 204. */
  function Status(r: Response): (code: int)
    ensures 200 <= code < 500
    ensures code >= 400 <==> IsClientError(r)
  {
    match r
    case Created(_) => 201
    case Found(_) => 200
    case FoundAll(_) => 200
    case NoContent => 204
    case BadRequest => 400
    case NotFound => 404
    case Conflict => 409
  }

  datatype Outcome = Outcome(response: Response, store: MeasurementStore)

  /** Every other timestamp reads the same before and after. */
  ghost predicate OthersUnchanged(before: MeasurementStore, after: MeasurementStore, timestamp: string) {
    forall k :: k != timestamp ==> Retrieve(after, k) == Retrieve(before, k)
  }

  /** `postMeasurement`: 201 with the new resource's location, or 400 (not 409)
      when the timestamp is taken. */
  function PostMeasurement(s: MeasurementStore, m: Measurement): (o: Outcome)
    ensures o.response.Created? <==> m.timestamp !in s
    ensures o.response.Created? ==> o.response.location == "measurements/" + m.timestamp
    ensures o.response.Created? ==> Retrieve(o.store, m.timestamp) == Ok(m) && OthersUnchanged(s, o.store, m.timestamp)
    ensures !o.response.Created? ==> o == Outcome(BadRequest, s)
  {
    match Create(s, m)
    case Ok(next) => Outcome(Created("measurements/" + m.timestamp), next)
    case Err(_) => Outcome(BadRequest, s)
  }

  /** `getMeasurementAtTimestamp`: the stored measurement, or 404. */
  function GetMeasurementAtTimestamp(s: MeasurementStore, timestamp: string): (o: Outcome)
    ensures o.store == s
    ensures o.response.Found? <==> timestamp in s
    ensures o.response.Found? ==> o.response.measurement == s[timestamp]
    ensures !o.response.Found? ==> o.response == NotFound
  {
    match Retrieve(s, timestamp)
    case Ok(m) => Outcome(Found(m), s)
    case Err(_) => Outcome(NotFound, s)
  }

  /** `getMeasurementsOnDate`: the date bucket, or 404 when it is empty. */
  function GetMeasurementsOnDate(s: MeasurementStore, date: string): (o: Outcome)
    ensures o.store == s
    ensures o.response.FoundAll? || o.response == NotFound
    ensures WellKeyed(s) ==>
              (o.response == NotFound <==> forall k :: k in s ==> !SortedStore.Within(k, DayBounds(date)))
    ensures o.response.FoundAll? ==> |o.response.measurements| > 0
    ensures o.response.FoundAll? && WellKeyed(s) ==> ExactlyWithin(s, DayBounds(date), o.response.measurements)
  {
    var all := RetrieveAllOnDate(s, date);
    assert WellKeyed(s) ==> forall k :: k in s && SortedStore.Within(k, DayBounds(date)) ==> s[k] in all;
    assert |all| > 0 ==> all[0] in all;
    if |all| == 0 then Outcome(NotFound, s) else Outcome(FoundAll(all), s)
  }

  /** `putMeasurement`: 409 on a path/body timestamp mismatch before anything else,
      404 when absent, otherwise the whole measurement is replaced (204). */
  function PutMeasurement(s: MeasurementStore, timestamp: string, m: Measurement): (o: Outcome)
    ensures timestamp != m.timestamp ==> o == Outcome(Conflict, s)
    ensures timestamp == m.timestamp && timestamp !in s ==> o == Outcome(NotFound, s)
    ensures timestamp == m.timestamp && timestamp in s ==>
              && o.response == NoContent
              && Retrieve(o.store, timestamp) == Ok(m)
              && OthersUnchanged(s, o.store, timestamp)
  {
    if timestamp != m.timestamp then Outcome(Conflict, s)
    else
      match UpdateWhole(s, m)
      case Ok(changed) => Outcome(NoContent, changed.store)
      case Err(_) => Outcome(NotFound, s)
  }

  /** `patchMeasurement`: 409 on a mismatch, 404 when absent, otherwise the stored
      metrics are overlaid by the body's (204). */
  function PatchMeasurement(s: MeasurementStore, timestamp: string, m: Measurement): (o: Outcome)
    ensures timestamp != m.timestamp ==> o == Outcome(Conflict, s)
    ensures timestamp == m.timestamp && timestamp !in s ==> o == Outcome(NotFound, s)
    ensures timestamp == m.timestamp && timestamp in s ==>
              && o.response == NoContent
              && Retrieve(o.store, timestamp) == Ok(ApplyPartialUpdate(s[timestamp], m))
              && OthersUnchanged(s, o.store, timestamp)
  {
    if timestamp != m.timestamp then Outcome(Conflict, s)
    else
      match UpdatePartial(s, m)
      case Ok(changed) => Outcome(NoContent, changed.store)
      case Err(_) => Outcome(NotFound, s)
  }

  /** `deleteMeasurement`: 204 once the measurement is gone, 404 when it was absent. */
  function DeleteMeasurement(s: MeasurementStore, timestamp: string): (o: Outcome)
    ensures timestamp !in s ==> o == Outcome(NotFound, s)
    ensures timestamp in s ==>
              && o.response == NoContent
              && Retrieve(o.store, timestamp).Err?
              && OthersUnchanged(s, o.store, timestamp)
  {
    match Delete(s, timestamp)
    case Ok(changed) => Outcome(NoContent, changed.store)
    case Err(_) => Outcome(NotFound, s)
  }

  /** Dispatch. Every handler keeps the store well keyed, every client error
      leaves it unchanged, and reads never change it. */
  function Handle(s: MeasurementStore, req: Request): (o: Outcome)
    ensures WellKeyed(s) ==> WellKeyed(o.store)
    ensures IsClientError(o.response) ==> o.store == s
    ensures req.GetAt? || req.GetOnDate? ==> o.store == s
    ensures o.response.Created? ==> req.Post? && o.response.location == "measurements/" + req.body.timestamp
    ensures o.response.Conflict? <==> (req.Put? || req.Patch?) && req.timestamp != req.body.timestamp
  {
    match req
    case Post(m) => PostMeasurement(s, m)
    case GetAt(t) => GetMeasurementAtTimestamp(s, t)
    case GetOnDate(d) => GetMeasurementsOnDate(s, d)
    case Put(t, m) => PutMeasurement(s, t, m)
    case Patch(t, m) => PatchMeasurement(s, t, m)
    case Remove(t) => DeleteMeasurement(s, t)
  }

  /** Handling a sequence of requests from one store. */
  function Run(s: MeasurementStore, reqs: seq<Request>): (r: (seq<Response>, MeasurementStore))
    ensures |r.0| == |reqs|
    ensures WellKeyed(s) ==> WellKeyed(r.1)
    decreases reqs
  {
    if |reqs| == 0 then ([], s)
    else
      var o := Handle(s, reqs[0]);
      var rest := Run(o.store, reqs[1..]);
      ([o.response] + rest.0, rest.1)
  }

  // ---------------------------------------------------------------------------
  // Scenarios

  /** A created measurement reads back, and a second POST of it is 400 without effect. */
  lemma PostThenGetThenRepost(s: MeasurementStore, m: Measurement)
    requires m.timestamp !in s
    ensures var first := Handle(s, Post(m));
            && Status(first.response) == 201
            && Handle(first.store, GetAt(m.timestamp)).response == Found(m)
            && Handle(first.store, Post(m)) == Outcome(BadRequest, first.store)
  {
  }

  /** A mismatched PUT is 409 and the measurement still reads as before. */
  lemma MismatchedPutKeepsMeasurement(s: MeasurementStore, timestamp: string, m: Measurement)
    requires timestamp in s && m.timestamp != timestamp
    ensures var put := Handle(s, Put(timestamp, m));
            && Status(put.response) == 409
            && Handle(put.store, GetAt(timestamp)).response == Found(s[timestamp])
  {
  }

  /** After a DELETE the timestamp is 404 for reads, updates and deletes alike,
      while every other measurement still reads as before. */
  lemma DeleteThenAccess(s: MeasurementStore, timestamp: string, other: string, m: Measurement)
    requires timestamp in s && other != timestamp && m.timestamp == timestamp
    ensures var gone := Handle(s, Remove(timestamp)).store;
            && Handle(gone, GetAt(timestamp)).response == NotFound
            && Handle(gone, Put(timestamp, m)) == Outcome(NotFound, gone)
            && Handle(gone, Patch(timestamp, m)) == Outcome(NotFound, gone)
            && Handle(gone, Remove(timestamp)) == Outcome(NotFound, gone)
            && Handle(gone, GetAt(other)).response == Handle(s, GetAt(other)).response
  {
    var gone := Handle(s, Remove(timestamp)).store;
    assert Retrieve(gone, other) == Retrieve(s, other);
  }

  /** A PATCH carrying only a new precipitation answers 204 and keeps the stored
      temperature and dew point. */
  lemma PatchScenario(s: MeasurementStore, t: string, temperature: real, dewPoint: real, precipitation: real,
                      newPrecipitation: real)
    requires t in s
    requires s[t].metrics == map["temperature" := temperature, "dewPoint" := dewPoint, "precipitation" := precipitation]
    ensures var patched := Handle(s, Patch(t, Measurement(t, map["precipitation" := newPrecipitation])));
            && patched.response == NoContent
            && patched.store[t].metrics
               == map["temperature" := temperature, "dewPoint" := dewPoint, "precipitation" := newPrecipitation]
  {
    var patched := Handle(s, Patch(t, Measurement(t, map["precipitation" := newPrecipitation])));
    assert Retrieve(patched.store, t).Ok?;
    PartialUpdateExample(t, temperature, dewPoint, precipitation, newPrecipitation);
  }
}
