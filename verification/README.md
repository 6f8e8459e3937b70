# weather-station, modelled in Dafny

The weather station keeps timestamped measurements in an ordered in-memory store. Each measurement is a map from metric names to readings. The station serves a REST API over that store:

- **`/measurements`** creates, reads, replaces, partially updates and deletes measurements. It can also list one date's measurements.
- **`/stats`** computes the minimum, maximum and average of chosen metrics over a half-open date-time range.

This project models that core as pure functions over immutable values:

| file | module | what it models |
|---|---|---|
| `results.dfy` | `Results` | `Option`, and a `Result` whose errors are the store's exceptions |
| `lex_order.dfy` | `LexOrder` | the natural order of strings, proved a strict total order |
| `sorted_store.dfy` | `SortedStore` | `SortedInMemoryStore`: point operations and the ordered range query over `TreeMap.subMap` |
| `timestamps.dfy` | `Timestamps` | the UTC date-time pattern of `FromToDateTimeParam` and the numeric meaning of matching strings |
| `measurements.dfy` | `Measurements` | `MeasurementsServiceImpl`: timestamp keys, the date bucket, the half-open statistics range, and partial update as a map overlay |
| `stat_type.dfy` | `StatTypes` | `StatType` and its case-insensitive lookup |
| `stats_service.dfy` | `StatsService` | `StatsServiceImpl`: collecting one metric over a range, and min, max and average |
| `stats_controller.dfy` | `StatsController` | `toStatTypes`, the metric-outer/stat-inner `collect`, and the `/stats` handler |
| `measurements_controller.dfy` | `MeasurementsController` | each `/measurements` handler as a function from (store, request) to (response, store) |

How the Java maps onto the model:

- The shared store is an explicit `map<string, V>` value. Each operation returns the next store.
- The store's exceptions, all unchecked runtime exceptions, become `Err` values: `EntityExists`, `EntityNotFound`, and `InvalidRange` for `subMap`'s rejection of an inverted range.
- A `null` statistic becomes `None`.
- HTTP outcomes become a `Response` datatype with its status code.

The invariant `Measurements.WellKeyed` says every measurement is stored under its own timestamp. Every operation keeps it, and the stronger results about ranges assume it.

## Model

| member | source | states |
|---|---|---|
| SortedStore.Create | src/main/java/com/capitalone/service/store/SortedInMemoryStore.java:41-47 | fails with EntityExists exactly when the id is taken; otherwise the entity reads back under its id, the key set grows by that id only, and every other id reads as before |
| SortedStore.Retrieve | src/main/java/com/capitalone/service/store/SortedInMemoryStore.java:49-55 | succeeds exactly when the id is stored, with the stored entity; otherwise EntityNotFound |
| SortedStore.Update | src/main/java/com/capitalone/service/store/SortedInMemoryStore.java:67-73 | fails with EntityNotFound exactly when the id is absent; otherwise returns the entity that was replaced (not the new one), the new entity reads back, the key set is unchanged and other ids read as before |
| SortedStore.Delete | src/main/java/com/capitalone/service/store/SortedInMemoryStore.java:75-81 | fails with EntityNotFound exactly when the id is absent; otherwise returns the removed entity, which then no longer reads, and other ids read as before |
| SortedStore.Clear | src/main/java/com/capitalone/service/store/SortedInMemoryStore.java:83-86 | after clearing, no id reads |
| SortedStore.SortedKeys | src/main/java/com/capitalone/service/store/SortedInMemoryStore.java:21-25 | the TreeMap's iteration order: the keys exactly once each, strictly ascending |
| SortedStore.RangeKeys | src/main/java/com/capitalone/service/store/SortedInMemoryStore.java:57-65 | the keys a range query visits are exactly the stored keys within the bounds, ascending |
| SortedStore.RetrieveInRange | src/main/java/com/capitalone/service/store/SortedInMemoryStore.java:57-65 | fails exactly when `from` sorts after `to`; otherwise the values of the in-bounds keys in ascending key order |
| SortedStore.AscendingUnique | src/main/java/com/capitalone/service/store/SortedInMemoryStore.java:21-25 | two strictly ascending key sequences with the same members are equal, so the range answer is determined by its members |
| SortedStore.RangeReadsOnlyWithin | src/main/java/com/capitalone/service/store/Store.java:27-36 | two stores that agree on every key within the bounds give the same range answer |
| SortedStore.BoundaryFlags | src/test/java/com/capitalone/service/store/SortedInMemoryStoreTest.java:61-82 | for ordered bounds, a stored boundary key is returned exactly when its inclusive flag is set; when both bounds are one key, it is returned exactly when both flags are set |
| SortedStore.HalfOpenBlocksAscending | src/main/java/com/capitalone/service/MeasurementsServiceImpl.java:47-50 | the keys of [a,b) followed by those of [b,c) are strictly ascending |
| SortedStore.HalfOpenBlocksCover | src/main/java/com/capitalone/service/MeasurementsServiceImpl.java:47-50 | for a <= b <= c, a key is in [a,b) or [b,c) exactly when it is in [a,c) |
| SortedStore.AdjacentHalfOpen | src/main/java/com/capitalone/service/MeasurementsServiceImpl.java:47-50 | half-open ranges [a,b) and [b,c) together return exactly [a,c), in order, with no gap or overlap |
| LexOrder.StrictTotalOrder | src/main/java/com/capitalone/service/store/SortedInMemoryStore.java:25 | the key order is irreflexive, asymmetric, transitive and total |
| LexOrder.LessCommonPrefix | src/main/java/com/capitalone/service/MeasurementsServiceImpl.java:41-44 | a shared prefix (the date of a bucket) does not change the order of two keys |
| Timestamps.AcceptedByPositions | src/main/java/com/capitalone/controller/param/FromToDateTimeParam.java:13-16 | a 24-character string with digits and the separators '-', '-', 'T', ':', ':', '.', 'Z' at their places matches the pattern |
| Timestamps.IsUtcTimestamp | src/main/java/com/capitalone/controller/param/FromToDateTimeParam.java:15 | a string matches the whole pattern only if it is 24 characters wide with '-', '-', 'T', ':', ':', '.', 'Z' at positions 4, 7, 10, 13, 16, 19 and 23 |
| Timestamps.AcceptedWidth | src/main/java/com/capitalone/controller/param/FromToDateTimeParam.java:15 | every matching string has the fixed width 24 |
| Timestamps.AcceptedExamples | src/test/java/com/capitalone/controller/param/FromToDateTimeParamTest.java:15-44 | the well-formed example and the all-zero and all-nine edge cases match: no calendar check |
| Timestamps.RejectedExamples | src/test/java/com/capitalone/controller/param/FromToDateTimeParamTest.java:20-38 | lower-case 't' or 'z', a missing 'Z' and missing leading zeros are rejected |
| Timestamps.OrderIsNumeric | src/main/java/com/capitalone/controller/param/FromToDateTimeParam.java:15 | for strings of one fixed layout, string order is the order of the numbers their digits spell, and equality is equality of those numbers |
| Timestamps.TimestampOrder | src/main/java/com/capitalone/controller/param/FromToDateTimeParam.java:13-16 | for matching timestamps, string order is the order of (year, month, day, hour, minute, second, millisecond) |
| Timestamps.SameDate | src/main/java/com/capitalone/service/MeasurementsServiceImpl.java:41-44 | two matching timestamps share their first ten characters exactly when their date fields agree |
| Measurements.RangeAnswersWithin | src/main/java/com/capitalone/service/store/SortedInMemoryStore.java:57-65 | over a well-keyed store, every answer of a range query is the stored measurement at a timestamp within the bounds |
| Measurements.RangeAnswersAll | src/main/java/com/capitalone/service/store/SortedInMemoryStore.java:57-65 | over a well-keyed store, every stored measurement within the bounds is among the range query's answers |
| Measurements.RangeAnswersAscending | src/main/java/com/capitalone/service/store/SortedInMemoryStore.java:57-65 | over a well-keyed store, the answers of a range query come by strictly ascending timestamp |
| Measurements.RangeIsExact | src/main/java/com/capitalone/service/store/SortedInMemoryStore.java:57-65 | over a well-keyed store, a successful range query lists exactly the measurements within the bounds, ascending by timestamp |
| Measurements.Create | src/main/java/com/capitalone/service/MeasurementsServiceImpl.java:30-33 | keyed by its own timestamp: EntityExists exactly when that timestamp is taken; otherwise it reads back, others are unchanged, and the store stays well keyed |
| Measurements.Retrieve | src/main/java/com/capitalone/service/MeasurementsServiceImpl.java:35-38 | the measurement at a timestamp exactly when one is stored; in a well-keyed store it carries that timestamp |
| Measurements.DayBounds | src/main/java/com/capitalone/service/MeasurementsServiceImpl.java:42-43 | both ends inclusive and prefixed by the date, the start sorting before the end; for a well-formed date they are matching timestamps at the first and the last millisecond of the day |
| Measurements.DayBoundsOrdered | src/main/java/com/capitalone/service/MeasurementsServiceImpl.java:41-44 | the date bucket's first instant sorts before its last, so the bucket query never hits the range error |
| Measurements.RetrieveAllOnDate | src/main/java/com/capitalone/service/MeasurementsServiceImpl.java:40-45 | over a well-keyed store, exactly the measurements between date+T00:00:00.000Z and date+T23:59:59.999Z inclusive, ascending |
| Measurements.RetrieveAllBetween | src/main/java/com/capitalone/service/MeasurementsServiceImpl.java:47-50 | InvalidRange exactly when `to` sorts before `from`; otherwise, over a well-keyed store, exactly the measurements in [from, to), ascending |
| Measurements.UpdateWhole | src/main/java/com/capitalone/service/MeasurementsServiceImpl.java:52-55 | EntityNotFound exactly when absent; otherwise the previous measurement is returned, the new one reads back, others are unchanged, and the store stays well keyed |
| Measurements.ApplyPartialUpdate | src/main/java/com/capitalone/service/MeasurementsServiceImpl.java:86-92 | the result keeps the existing timestamp; its metrics are the union of both key sets; the delta wins on shared metrics and the existing value is kept elsewhere |
| Measurements.UpdatePartial | src/main/java/com/capitalone/service/MeasurementsServiceImpl.java:57-65 | EntityNotFound exactly when absent; otherwise the overlay of the stored measurement by the delta reads back, others are unchanged, and the store stays well keyed |
| Measurements.Delete | src/main/java/com/capitalone/service/MeasurementsServiceImpl.java:67-70 | EntityNotFound exactly when absent; otherwise the removed measurement is returned, no longer reads, and others read as before |
| Measurements.ClearAll | src/main/java/com/capitalone/service/MeasurementsServiceImpl.java:76-78 | the cleared store is well keyed and holds nothing |
| Measurements.PartialUpdateIdempotent | src/main/java/com/capitalone/service/MeasurementsServiceImpl.java:86-92 | applying the same delta twice gives the same measurement as applying it once |
| Measurements.UpdatePartialTwice | src/main/java/com/capitalone/service/MeasurementsServiceImpl.java:57-65 | the same partial update sent twice leaves the store as sending it once |
| Measurements.PartialUpdateExample | src/it/java/com.capitalone/MeasurementsControllerIT.java:227-241 | a measurement with temperature, dewPoint and precipitation, patched with precipitation alone, keeps temperature and dewPoint and takes the new precipitation |
| Measurements.OverlayReplacesAndAdds | src/main/java/com/capitalone/service/MeasurementsServiceImpl.java:86-92 | {a:1, b:2} patched with {b:5, c:3} gives {a:1, b:5, c:3}: a shared metric is replaced and a new one added |
| Measurements.HalfOpenEnds | src/main/java/com/capitalone/service/MeasurementsServiceImpl.java:47-50 | with from before to, a stored `from` measurement is included and no measurement at `to` is |
| Measurements.DayBucketContains | src/it/java/com.capitalone/MeasurementsControllerIT.java:123-145 | every matching timestamp on the date, with hour at most 23 and minute and second at most 59, falls in the date bucket |
| Measurements.BucketEnds | src/main/java/com/capitalone/service/MeasurementsServiceImpl.java:41-44 | the two ends of a well-formed date's bucket match the UTC pattern and carry that date |
| Measurements.BucketEndTimes | src/main/java/com/capitalone/service/MeasurementsServiceImpl.java:41-44 | the bucket's ends are the first (00:00:00.000) and the last (23:59:59.999) millisecond of the day |
| Measurements.BetweenSameDate | src/main/java/com/capitalone/service/MeasurementsServiceImpl.java:40-45 | a matching timestamp whose instant lies between two instants of one date has that date |
| Measurements.DayBucketOnlyThatDate | src/main/java/com/capitalone/service/MeasurementsServiceImpl.java:40-45 | a matching timestamp inside a well-formed date's bucket carries that date |
| StatTypes.FirstMatch | src/main/java/com/capitalone/model/StatType.java:41-46 | the loop over the constants returns a candidate whose name matches when there is one, and UNSUPPORTED when none matches |
| StatTypes.NamesDistinct | src/main/java/com/capitalone/model/StatType.java:10-13 | no string matches two of the names, so the first match is the only match |
| StatTypes.FromString | src/main/java/com/capitalone/model/StatType.java:41-46 | AVERAGE, MAX or MIN exactly when the name equals that constant's name ignoring ASCII case; UNSUPPORTED exactly when it matches none of them (including null) |
| StatTypes.FromStringNull | src/main/java/com/capitalone/model/StatType.java:27-29 | a null name is UNSUPPORTED |
| StatTypes.FromStringAnyCase | src/main/java/com/capitalone/model/StatType.java:27-29 | any spelling that lower-cases to a supported name finds that constant |
| StatTypes.Name | src/main/java/com/capitalone/model/StatType.java:31-33 | each constant's name is a non-empty run of lower-case ASCII letters, so it is its own lower-case form |
| StatTypes.EqualsName | src/main/java/com/capitalone/model/StatType.java:27-29 | a null name never matches; a match has the constant's name length; the constant's own name always matches |
| StatTypes.NameRoundTrip | src/main/java/com/capitalone/model/StatType.java:31-33 | every constant is found again from its `toString` |
| StatsService.Collect | src/main/java/com/capitalone/service/StatsServiceImpl.java:86-91 | the collected readings are exactly the metric's values in measurements that report it; there are no more readings than measurements |
| StatsService.CollectAppend | src/main/java/com/capitalone/service/StatsServiceImpl.java:87-90 | collecting distributes over concatenation, so readings keep the order of the measurements |
| StatsService.CollectInRange | src/main/java/com/capitalone/service/StatsServiceImpl.java:84-92 | the range error exactly for an inverted range; otherwise the readings are the metric's values in the half-open range query's answer, in its ascending order, and exactly the values at stored timestamps in [from, to) |
| StatsService.CollectInRangeSplit | src/main/java/com/capitalone/service/StatsServiceImpl.java:84-92 | the readings over [a, c) are those over [a, b) followed by those over [b, c): order and multiplicity are kept |
| StatsService.MaxOf | src/main/java/com/capitalone/service/StatsServiceImpl.java:51 | the maximum is one of the values and bounds every value from above |
| StatsService.MinOf | src/main/java/com/capitalone/service/StatsServiceImpl.java:67 | the minimum is one of the values and bounds every value from below |
| StatsService.Mean | src/main/java/com/capitalone/service/StatsServiceImpl.java:35 | the mean times the count is the sum, and the mean lies between the minimum and the maximum |
| StatsService.GetAverage | src/main/java/com/capitalone/service/StatsServiceImpl.java:29-43 | error exactly for an inverted range; None exactly when no timestamp in [from, to) reports the metric; otherwise an AVERAGE of that metric lying between two in-range readings |
| StatsService.GetMax | src/main/java/com/capitalone/service/StatsServiceImpl.java:45-59 | error exactly for an inverted range; None exactly when nothing in [from, to) reports the metric; otherwise a MAX equal to some in-range reading and at least every in-range reading |
| StatsService.GetMin | src/main/java/com/capitalone/service/StatsServiceImpl.java:61-75 | error exactly for an inverted range; None exactly when nothing in [from, to) reports the metric; otherwise a MIN equal to some in-range reading and at most every in-range reading |
| StatsService.SameReadingsSameStats | src/main/java/com/capitalone/service/StatsServiceImpl.java:84-92 | two stores whose range queries over [from, to) agree give the same average, maximum and minimum |
| StatsService.UpperBoundExcluded | src/main/java/com/capitalone/service/StatsServiceImpl.java:85 | whatever is stored at `to`, or nothing, leaves all three statistics over [from, to) unchanged |
| StatsController.ToStatTypes | src/main/java/com/capitalone/controller/StatsController.java:84-95 | succeeds exactly when every name is supported, with one type per name in request order |
| StatsController.ParseAll | src/main/java/com/capitalone/controller/StatsController.java:86-93 | for any parser: one type per name, in order, when no name parses to UNSUPPORTED, and nothing (the BadRequest) exactly when one does |
| StatsController.StatFor | src/main/java/com/capitalone/controller/StatsController.java:62-78 | UNSUPPORTED yields nothing; otherwise the range error exactly for an inverted range, a statistic of the requested metric and type, present exactly when the metric has data in range |
| StatsController.Present | src/main/java/com/capitalone/controller/StatsController.java:61-79 | the inner accumulation aborts exactly when some service call fails, with that call's error; otherwise it keeps exactly the present statistics, at most one per call |
| StatsController.PresentAppend | src/main/java/com/capitalone/controller/StatsController.java:61-79 | accumulating two error-free runs of service answers one after the other gives the statistics of the first run followed by those of the second |
| StatsController.CollectForMetric | src/main/java/com/capitalone/controller/StatsController.java:61-79 | for one metric: at most one statistic per type; each emitted one is what its type's service call produced; every present service result is emitted; aborted exactly when the range is inverted and a supported type is requested |
| StatsController.CollectStats | src/main/java/com/capitalone/controller/StatsController.java:58-82 | at most metrics × types statistics; each emitted one names a requested metric and type and is what that service call produced; every present result is emitted; aborted exactly when the range is inverted and some call is made |
| StatsController.CollectForMetricAppend | src/main/java/com/capitalone/controller/StatsController.java:61 | stat-inner order: splitting the type list splits one metric's statistics in the same order |
| StatsController.CollectStatsAppend | src/main/java/com/capitalone/controller/StatsController.java:60 | metric-outer order: splitting the metric list splits the response in the same order |
| StatsController.MetricAllOrNothing | src/main/java/com/capitalone/controller/StatsController.java:61-79 | with only supported types, a metric yields all requested statistics when it has data in range and none otherwise |
| StatsController.ResponseCount | src/main/java/com/capitalone/controller/StatsController.java:58-82 | the response length is the number of types times the number of requested metrics with data in range |
| StatsController.ThreeByThreeOneMissing | src/it/java/com.capitalone/StatsControllerIT.java:99-121 | three statistics over three metrics, one without data, give six results |
| StatsController.SupportedTypes | src/main/java/com/capitalone/controller/StatsController.java:84-95 | parsed types each come from a requested name, and some type makes a service call exactly when a name was given |
| StatsController.StatsListFacts | src/main/java/com/capitalone/controller/StatsController.java:58-95 | a successful `collect` over the parsed names has at most metrics × names statistics, each for a requested metric and the type of a requested name |
| StatsController.HandleStats | src/main/java/com/capitalone/controller/StatsController.java:44-56 | 400 exactly when a date-time fails the UTC pattern or a stat name is unsupported; the range error escapes exactly when the request is otherwise valid, non-empty, and `to` is an earlier instant than `from`; a list of statistics is exactly what `collect` answers for the parsed types, so it has at most metrics × stats entries, each for a requested metric and a requested type |
| MeasurementsController.Status | src/main/java/com/capitalone/exception/client/PropagateMessageToClientException.java:40-42 | a status of 400 or more exactly for the client-error responses |
| MeasurementsController.PostMeasurement | src/main/java/com/capitalone/controller/MeasurementsController.java:41-56 | 201 with location "measurements/" + timestamp exactly when the timestamp is free, after which the body reads back and others are unchanged; otherwise 400 with the store unchanged |
| MeasurementsController.GetMeasurementAtTimestamp | src/main/java/com/capitalone/controller/MeasurementsController.java:58-73 | the stored measurement exactly when present, otherwise 404; the store is unchanged |
| MeasurementsController.GetMeasurementsOnDate | src/main/java/com/capitalone/controller/MeasurementsController.java:75-88 | 404 exactly when no stored timestamp lies in the date bucket; otherwise the non-empty bucket, exactly and ascending; the store is unchanged |
| MeasurementsController.PutMeasurement | src/main/java/com/capitalone/controller/MeasurementsController.java:90-110 | 409 with the store unchanged on a path/body timestamp mismatch; 404 with the store unchanged when absent; otherwise 204 with the body stored and others unchanged |
| MeasurementsController.PatchMeasurement | src/main/java/com/capitalone/controller/MeasurementsController.java:112-132 | 409 on a mismatch and 404 when absent, both with the store unchanged; otherwise 204 with the overlay stored and others unchanged |
| MeasurementsController.DeleteMeasurement | src/main/java/com/capitalone/controller/MeasurementsController.java:134-146 | 404 with the store unchanged when absent; otherwise 204, after which the timestamp no longer reads and others read as before |
| MeasurementsController.Handle | src/main/java/com/capitalone/controller/MeasurementsController.java:41-146 | every handler keeps the store well keyed; every client error and every GET leaves the store unchanged; only POST creates; 409 exactly for a PUT or PATCH whose timestamps differ |
| MeasurementsController.Run | src/main/java/com/capitalone/service/store/SortedInMemoryStore.java:35-39 | handling requests one after another on the one shared store gives one response per request and keeps the store well keyed |
| MeasurementsController.PostThenGetThenRepost | src/it/java/com.capitalone/MeasurementsControllerIT.java:60-73 | a created measurement answers 201, reads back, and a second POST of it is 400 with no effect |
| MeasurementsController.MismatchedPutKeepsMeasurement | src/it/java/com.capitalone/MeasurementsControllerIT.java:194-210 | a mismatched PUT is 409 and the stored measurement still reads as before |
| MeasurementsController.DeleteThenAccess | src/it/java/com.capitalone/MeasurementsControllerIT.java:288-326 | after a DELETE the timestamp is 404 for GET, PUT, PATCH and DELETE, while other measurements read as before |
| MeasurementsController.PatchScenario | src/it/java/com.capitalone/MeasurementsControllerIT.java:227-241 | PATCH of precipitation alone onto a stored measurement with temperature, dewPoint and precipitation answers 204 and stores temperature and dewPoint unchanged with the new precipitation |

## Left out

- Concurrency and the singleton: `synchronizedNavigableMap` and `getInstance` become one explicit store value passed from call to call. Interleaving, for example between the retrieve and the update of a partial update, is not modelled.
- Live views: `subMap(...).values()` is a view backed by the map. The model returns a snapshot sequence, which is what the callers iterate immediately.
- Floating point: readings are `real`, not `float`, and the average is the exact mean. `float` rounding, the `double` accumulation of `average()` and the narrowing cast back to `float` are not modelled.
- StatsService.GetAverage: states that the mean lies between two in-range readings, not its exact `float` value, because floating point is not modelled.
- Character order: `String.compareTo` compares UTF-16 code units, while Dafny's `char` is a Unicode scalar value. The two orders differ only for characters outside the Basic Multilingual Plane, and matching timestamps are ASCII.
- StatTypes.EqualsIgnoreCase: folds case on ASCII letters only. Java's `equalsIgnoreCase` also folds some non-ASCII letters (for example, dotless i matches "I"). So a few non-ASCII spellings such as "mın" are UNSUPPORTED here, where Java would accept them.
- Store.update documentation: Store.java:38-45 says `update` returns "the updated entity", but SortedInMemoryStore.java:72 returns the entity that was replaced. Likewise MeasurementsService.java:44 and MeasurementsService.java:52 say `updateWhole` and `updatePartial` return "the Measurement persisted", while MeasurementsServiceImpl.java:54 and :64 return what `update` returns, the replaced one. The model follows the code (`Changed.previous`).
- The `existingM == null` check in MeasurementsServiceImpl.java:60-61 cannot fire, because `retrieve` throws first for an absent key. The model has only the EntityNotFound path.
- Bean validation of request bodies: the `@NotNull` body, the `@NotBlank` timestamp, and the JSON binding of non-numeric metric values (which the integration tests expect to answer 400) are not modelled. Bodies are always well-formed `Measurement` values.
- Path templates: routing by the `{timestamp}` and `{date}` path regexes is not modelled. Handlers receive the path segment as a string. Those regexes leave the '.' unescaped, unlike FromToDateTimeParam.java:15, and Constants.java is not part of this model.
- Missing query parameters of `/stats`: an absent `fromDateTime` or `toDateTime` is not modelled. Both are given strings.
- The range error on `/stats`: the IllegalArgumentException of an inverted range is not translated by the controller. The model reports it as `Uncaught` without claiming a status code.
- `new URI(...)` in postMeasurement can throw URISyntaxException for odd timestamps after the measurement was already stored. This is not modelled; the location is the plain string.
- Response bodies and messages: the texts of the exceptions, logging, and JSON serialisation are not modelled.
