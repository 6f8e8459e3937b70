/** The measurement repository (MeasurementsServiceImpl): the ordered store with
    timestamp keys and Measurement entities, a textual date bucket, a half-open
    range for statistics, and partial update as a shallow map overlay. */
module Measurements {
  import opened Results
  import opened LexOrder
  import opened Timestamps
  import SortedStore

  /** A timestamped set of named metric readings. */
  datatype Measurement = Measurement(timestamp: string, metrics: map<string, real>)

  type MeasurementStore = SortedStore.Store<Measurement>

  /** Every measurement is stored under its own timestamp; every operation below keeps this. */
  predicate WellKeyed(s: MeasurementStore) {
    forall k :: k in s ==> s[k].timestamp == k
  }

  /** `r` lists, by ascending timestamp, exactly the stored measurements whose
      timestamps lie within `b`. */
  ghost predicate ExactlyWithin(s: MeasurementStore, b: SortedStore.Bounds, r: seq<Measurement>) {
    && (forall i, j :: 0 <= i < j < |r| ==> Less(r[i].timestamp, r[j].timestamp))
    && (forall m :: m in r <==> m.timestamp in s && s[m.timestamp] == m && SortedStore.Within(m.timestamp, b))
  }

  /** Over a well-keyed store, the i-th answer of a range query carries the i-th key. */
  lemma RangeTimestamps(s: MeasurementStore, b: SortedStore.Bounds)
    requires WellKeyed(s)
    requires !Less(b.to, b.from)
    ensures |SortedStore.RetrieveInRange(s, b).value| == |SortedStore.RangeKeys(s, b)|
    ensures forall i :: 0 <= i < |SortedStore.RangeKeys(s, b)| ==>
              SortedStore.RetrieveInRange(s, b).value[i].timestamp == SortedStore.RangeKeys(s, b)[i]
  {
    var ks := SortedStore.RangeKeys(s, b);
    forall i | 0 <= i < |ks| ensures SortedStore.RetrieveInRange(s, b).value[i].timestamp == ks[i] {
      assert ks[i] in ks;
    }
  }

  /** Every answer of a range query is a stored measurement within the bounds. */
  lemma RangeAnswersWithin(s: MeasurementStore, b: SortedStore.Bounds, m: Measurement)
    requires WellKeyed(s)
    requires !Less(b.to, b.from)
    requires m in SortedStore.RetrieveInRange(s, b).value
    ensures m.timestamp in s && s[m.timestamp] == m && SortedStore.Within(m.timestamp, b)
  {
    var ks := SortedStore.RangeKeys(s, b);
    var vs := SortedStore.RetrieveInRange(s, b).value;
    RangeTimestamps(s, b);
    var i :| 0 <= i < |vs| && vs[i] == m;
    assert ks[i] in ks;
  }

  /** Every stored measurement within the bounds is among the answers of a range query. */
  lemma RangeAnswersAll(s: MeasurementStore, b: SortedStore.Bounds, m: Measurement)
    requires WellKeyed(s)
    requires !Less(b.to, b.from)
    requires m.timestamp in s && s[m.timestamp] == m && SortedStore.Within(m.timestamp, b)
    ensures m in SortedStore.RetrieveInRange(s, b).value
  {
    var ks := SortedStore.RangeKeys(s, b);
    var vs := SortedStore.RetrieveInRange(s, b).value;
    RangeTimestamps(s, b);
    assert m.timestamp in ks;
    var i :| 0 <= i < |ks| && ks[i] == m.timestamp;
    assert vs[i] == m;
  }

  /** The answers of a range query come by strictly ascending timestamp. */
  lemma RangeAnswersAscending(s: MeasurementStore, b: SortedStore.Bounds)
    requires WellKeyed(s)
    requires !Less(b.to, b.from)
    ensures forall i, j :: 0 <= i < j < |SortedStore.RetrieveInRange(s, b).value| ==>
              Less(SortedStore.RetrieveInRange(s, b).value[i].timestamp, SortedStore.RetrieveInRange(s, b).value[j].timestamp)
  {
    RangeTimestamps(s, b);
  }

  /** Over a well-keyed store a successful range query answers exactly its bounds. */
  lemma RangeIsExact(s: MeasurementStore, b: SortedStore.Bounds)
    requires WellKeyed(s)
    requires !Less(b.to, b.from)
    ensures ExactlyWithin(s, b, SortedStore.RetrieveInRange(s, b).value)
  {
    var vs := SortedStore.RetrieveInRange(s, b).value;
    RangeAnswersAscending(s, b);
    forall m
      ensures m in vs <==> m.timestamp in s && s[m.timestamp] == m && SortedStore.Within(m.timestamp, b)
    {
      if m in vs {
        RangeAnswersWithin(s, b, m);
      }
      if m.timestamp in s && s[m.timestamp] == m && SortedStore.Within(m.timestamp, b) {
        RangeAnswersAll(s, b, m);
      }
    }
  }

  // ---------------------------------------------------------------------------
  // Operations

  /** `create`: stores `m` under its timestamp; a duplicate timestamp is EntityExists. */
  function Create(s: MeasurementStore, m: Measurement): (r: Result<MeasurementStore>)
    ensures r.Err? <==> m.timestamp in s
    ensures r.Err? ==> r.error == EntityExists
    ensures r.Ok? ==> Retrieve(r.value, m.timestamp) == Ok(m)
    ensures r.Ok? ==> forall k :: k != m.timestamp ==> Retrieve(r.value, k) == Retrieve(s, k)
    ensures r.Ok? && WellKeyed(s) ==> WellKeyed(r.value)
  {
    SortedStore.Create(s, m, m.timestamp)
  }

  /** `retrieve`: the measurement at `timestamp`, or EntityNotFound. */
  function Retrieve(s: MeasurementStore, timestamp: string): (r: Result<Measurement>)
    ensures r.Ok? <==> timestamp in s
    ensures r.Err? ==> r.error == EntityNotFound
    ensures r.Ok? ==> r.value == s[timestamp]
    ensures r.Ok? && WellKeyed(s) ==> r.value.timestamp == timestamp
  {
    SortedStore.Retrieve(s, timestamp)
  }

  const StartOfDay: string := "T00:00:00.000Z"
  const EndOfDay: string := "T23:59:59.999Z"

  /** The date bucket: from the first to the last millisecond of `date`, both inclusive.
      The bucket is textual; it relies on the string order of the keys only. */
  function DayBounds(date: string): (b: SortedStore.Bounds)
    ensures b.fromInclusive && b.toInclusive
    ensures |b.from| == |b.to| == |date| + 14
    ensures b.from[..|date|] == date && b.to[..|date|] == date
    ensures Less(b.from, b.to)
    ensures IsDate(date) ==> IsUtcTimestamp(b.from) && TimeOfDayNumber(b.from) == 0
    ensures IsDate(date) ==> IsUtcTimestamp(b.to) && TimeOfDayNumber(b.to) == 235_959_999
  {
    DayBoundsOrdered(date);
    var lo, hi := date + StartOfDay, date + EndOfDay;
    assert lo[..|date|] == date && hi[..|date|] == date;
    if IsDate(date) then
      BucketEnds(date);
      BucketEndTimes(date);
      SortedStore.Bounds(lo, true, hi, true)
    else
      SortedStore.Bounds(lo, true, hi, true)
  }

  lemma DayBoundsOrdered(date: string)
    ensures Less(date + StartOfDay, date + EndOfDay)
    ensures !Less(date + EndOfDay, date + StartOfDay)
  {
    LessCommonPrefix(date, StartOfDay, EndOfDay);
    assert StartOfDay[1..][0] == '0' && EndOfDay[1..][0] == '2';
    assert Less(StartOfDay[1..], EndOfDay[1..]);
    assert Less(StartOfDay, EndOfDay);
    LessAsymmetric(date + StartOfDay, date + EndOfDay);
  }

  /** `retrieveAll(date)`: the measurements of one date bucket, ascending. The bucket's
      bounds are always ordered, so the library's range check never fires. */
  function RetrieveAllOnDate(s: MeasurementStore, date: string): (r: seq<Measurement>)
    ensures WellKeyed(s) ==> ExactlyWithin(s, DayBounds(date), r)
  {
    DayBoundsOrdered(date);
    var all := SortedStore.RetrieveInRange(s, DayBounds(date)).value;
    if WellKeyed(s) then RangeIsExact(s, DayBounds(date)); all else all
  }

  /** `retrieveAll(from, to)`: the measurements in the half-open range [from, to), ascending. */
  function RetrieveAllBetween(s: MeasurementStore, from: string, to: string): (r: Result<seq<Measurement>>)
    ensures r.Err? <==> Less(to, from)
    ensures r.Err? ==> r.error == InvalidRange
    ensures r.Ok? && WellKeyed(s) ==> ExactlyWithin(s, SortedStore.HalfOpen(from, to), r.value)
  {
    var all := SortedStore.RetrieveInRange(s, SortedStore.HalfOpen(from, to));
    if all.Ok? && WellKeyed(s) then RangeIsExact(s, SortedStore.HalfOpen(from, to)); all else all
  }

  /** `updateWhole`: replaces the measurement at `m.timestamp` entirely. */
  function UpdateWhole(s: MeasurementStore, m: Measurement): (r: Result<SortedStore.Changed<Measurement>>)
    ensures r.Err? <==> m.timestamp !in s
    ensures r.Err? ==> r.error == EntityNotFound
    ensures r.Ok? ==> Retrieve(s, m.timestamp) == Ok(r.value.previous)
    ensures r.Ok? ==> Retrieve(r.value.store, m.timestamp) == Ok(m)
    ensures r.Ok? ==> forall k :: k != m.timestamp ==> Retrieve(r.value.store, k) == Retrieve(s, k)
    ensures r.Ok? && WellKeyed(s) ==> WellKeyed(r.value.store)
  {
    SortedStore.Update(s, m, m.timestamp)
  }

  /** `applyPartialUpdate`: the existing metrics overlaid by the delta's; the delta wins
      on a shared metric and the existing timestamp is kept. */
  function ApplyPartialUpdate(existing: Measurement, delta: Measurement): (r: Measurement)
    ensures r.timestamp == existing.timestamp
    ensures r.metrics.Keys == existing.metrics.Keys + delta.metrics.Keys
    ensures forall k :: k in delta.metrics ==> r.metrics[k] == delta.metrics[k]
    ensures forall k :: k in existing.metrics && k !in delta.metrics ==> r.metrics[k] == existing.metrics[k]
  {
    Measurement(existing.timestamp, existing.metrics + delta.metrics)
  }

  /** `updatePartial`: retrieves the existing measurement (EntityNotFound when absent)
      and replaces it by its overlay with `m`. */
  function UpdatePartial(s: MeasurementStore, m: Measurement): (r: Result<SortedStore.Changed<Measurement>>)
    ensures r.Err? <==> m.timestamp !in s
    ensures r.Err? ==> r.error == EntityNotFound
    ensures r.Ok? ==> Retrieve(s, m.timestamp) == Ok(r.value.previous)
    ensures r.Ok? ==> Retrieve(r.value.store, m.timestamp) == Ok(ApplyPartialUpdate(s[m.timestamp], m))
    ensures r.Ok? ==> forall k :: k != m.timestamp ==> Retrieve(r.value.store, k) == Retrieve(s, k)
    ensures r.Ok? && WellKeyed(s) ==> WellKeyed(r.value.store)
  {
    var existing :- SortedStore.Retrieve(s, m.timestamp);
    SortedStore.Update(s, ApplyPartialUpdate(existing, m), m.timestamp)
  }

  /** `delete`: removes the measurement at `timestamp`, returning it. */
  function Delete(s: MeasurementStore, timestamp: string): (r: Result<SortedStore.Changed<Measurement>>)
    ensures r.Err? <==> timestamp !in s
    ensures r.Err? ==> r.error == EntityNotFound
    ensures r.Ok? ==> Retrieve(s, timestamp) == Ok(r.value.previous)
    ensures r.Ok? ==> Retrieve(r.value.store, timestamp).Err?
    ensures r.Ok? ==> forall k :: k != timestamp ==> Retrieve(r.value.store, k) == Retrieve(s, k)
    ensures r.Ok? && WellKeyed(s) ==> WellKeyed(r.value.store)
  {
    SortedStore.Delete(s, timestamp)
  }

  /** `clearAll`: the empty store. */
  function ClearAll(s: MeasurementStore): (r: MeasurementStore)
    ensures WellKeyed(r)
    ensures forall k :: Retrieve(r, k).Err?
  {
    SortedStore.Clear(s)
  }

  // ---------------------------------------------------------------------------
  // Properties

  /** The overlay is idempotent: applying the same delta again changes nothing. */
  lemma PartialUpdateIdempotent(existing: Measurement, delta: Measurement)
    ensures ApplyPartialUpdate(ApplyPartialUpdate(existing, delta), delta) == ApplyPartialUpdate(existing, delta)
  {
  }

  /** The same partial update sent twice leaves the store as sending it once. */
  lemma UpdatePartialTwice(s: MeasurementStore, m: Measurement)
    requires m.timestamp in s
    ensures UpdatePartial(s, m).Ok?
    ensures UpdatePartial(UpdatePartial(s, m).value.store, m).Ok?
    ensures UpdatePartial(UpdatePartial(s, m).value.store, m).value.store == UpdatePartial(s, m).value.store
  {
    var once := UpdatePartial(s, m).value.store;
    PartialUpdateIdempotent(s[m.timestamp], m);
    assert once[m.timestamp] == ApplyPartialUpdate(s[m.timestamp], m);
    var twice := UpdatePartial(once, m).value.store;
    assert twice == once[m.timestamp := ApplyPartialUpdate(once[m.timestamp], m)];
  }

  /** The overlay both replaces a shared metric and adds a new one:
      {a:1, b:2} patched with {b:5, c:3} gives {a:1, b:5, c:3}. */
  lemma OverlayReplacesAndAdds(t: string)
    ensures ApplyPartialUpdate(Measurement(t, map["a" := 1.0, "b" := 2.0]), Measurement(t, map["b" := 5.0, "c" := 3.0]))
         == Measurement(t, map["a" := 1.0, "b" := 5.0, "c" := 3.0])
  {
  }

  /** The data of the partial-update integration test: a delta carrying only a new
      precipitation keeps the stored temperature and dew point. */
  lemma PartialUpdateExample(t: string, temperature: real, dewPoint: real, precipitation: real, newPrecipitation: real)
    ensures ApplyPartialUpdate(
              Measurement(t, map["temperature" := temperature, "dewPoint" := dewPoint, "precipitation" := precipitation]),
              Measurement(t, map["precipitation" := newPrecipitation]))
         == Measurement(t, map["temperature" := temperature, "dewPoint" := dewPoint, "precipitation" := newPrecipitation])
  {
  }

  /** The half-open range includes a stored `from` and never the measurement at `to`:
      adjacent ranges do not count a boundary reading twice. */
  lemma HalfOpenEnds(s: MeasurementStore, from: string, to: string)
    requires WellKeyed(s)
    requires Less(from, to)
    ensures RetrieveAllBetween(s, from, to).Ok?
    ensures from in s ==> s[from] in RetrieveAllBetween(s, from, to).value
    ensures forall m :: m in RetrieveAllBetween(s, from, to).value ==> m.timestamp != to
  {
    LessAsymmetric(from, to);
    LessIrreflexive(to);
  }

  /** The two ends of a date bucket are themselves well-formed timestamps of that date. */
  lemma BucketEnds(date: string)
    requires IsDate(date)
    ensures IsUtcTimestamp(date + StartOfDay) && IsUtcTimestamp(date + EndOfDay)
    ensures (date + StartOfDay)[..10] == date && (date + EndOfDay)[..10] == date
  {
    assert date[4] == DateLayout[4] && date[7] == DateLayout[7];
    assert IsDigit(date[0]) && IsDigit(date[1]) && IsDigit(date[2]) && IsDigit(date[3]);
    assert IsDigit(date[5]) && IsDigit(date[6]) && IsDigit(date[8]) && IsDigit(date[9]);
    var lo, hi := date + StartOfDay, date + EndOfDay;
    assert forall i :: 0 <= i < 10 ==> lo[i] == date[i] && hi[i] == date[i];
    AcceptedByPositions(lo);
    AcceptedByPositions(hi);
  }

  /** Every well-formed timestamp of `date` with an hour of at most 23 and minutes and
      seconds of at most 59 falls in the date bucket. */
  lemma DayBucketContains(date: string, t: string)
    requires IsUtcTimestamp(t) && t[..10] == date
    requires Hour(t) <= 23 && Minute(t) <= 59 && Second(t) <= 59
    ensures SortedStore.Within(t, DayBounds(date))
  {
    LayoutDigits(t);
    assert forall i :: 0 <= i < 10 ==> date[i] == t[i];
    assert IsDate(date);
    BucketEnds(date);
    var lo, hi := date + StartOfDay, date + EndOfDay;
    BucketEndTimes(date);
    SameDate(lo, t);
    SameDate(t, hi);
    assert TimeOfDayNumber(t) <= 235_959_999;
    TimestampOrder(lo, t);
    TimestampOrder(t, hi);
  }

  /** The bucket's ends are the first and the last millisecond of the day. */
  lemma BucketEndTimes(date: string)
    requires IsUtcTimestamp(date + StartOfDay) && IsUtcTimestamp(date + EndOfDay)
    ensures TimeOfDayNumber(date + StartOfDay) == 0
    ensures TimeOfDayNumber(date + EndOfDay) == 235_959_999
  {
    var lo, hi := date + StartOfDay, date + EndOfDay;
    assert lo[11..] == StartOfDay[1..] && hi[11..] == EndOfDay[1..];
  }

  /** Numbers of the form major * 10^9 + minor, with minor below 10^9, that lie between
      two such numbers of the same major share that major. */
  lemma SameMajor(lo: nat, loMinor: nat, mid: nat, midMinor: nat, hi: nat, hiMinor: nat)
    requires loMinor < 1_000_000_000 && midMinor < 1_000_000_000 && hiMinor < 1_000_000_000
    requires lo == hi
    requires lo * 1_000_000_000 + loMinor <= mid * 1_000_000_000 + midMinor <= hi * 1_000_000_000 + hiMinor
    ensures mid == lo
  {
  }

  lemma TimeOfDayBelowOneDay(t: string)
    requires IsUtcTimestamp(t)
    ensures TimeOfDayNumber(t) < 1_000_000_000
  {
  }

  /** A timestamp whose instant lies between two instants of one date has that date. */
  lemma BetweenSameDate(lo: string, t: string, hi: string)
    requires IsUtcTimestamp(lo) && IsUtcTimestamp(t) && IsUtcTimestamp(hi)
    requires lo[..10] == hi[..10]
    requires Instant(lo) <= Instant(t) <= Instant(hi)
    ensures t[..10] == lo[..10]
  {
    SameDate(lo, hi);
    TimeOfDayBelowOneDay(lo);
    TimeOfDayBelowOneDay(t);
    TimeOfDayBelowOneDay(hi);
    SameMajor(DateNumber(lo), TimeOfDayNumber(lo), DateNumber(t), TimeOfDayNumber(t), DateNumber(hi), TimeOfDayNumber(hi));
    SameDate(t, lo);
  }

  /** Conversely, a well-formed timestamp in the bucket of a well-formed date carries that date. */
  lemma DayBucketOnlyThatDate(date: string, t: string)
    requires IsDate(date) && IsUtcTimestamp(t)
    requires SortedStore.Within(t, DayBounds(date))
    ensures t[..10] == date
  {
    BucketEnds(date);
    var lo, hi := date + StartOfDay, date + EndOfDay;
    TimestampOrder(lo, t);
    TimestampOrder(t, hi);
    BetweenSameDate(lo, t, hi);
  }
}
