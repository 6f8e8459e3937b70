/** The ordered in-memory store (SortedInMemoryStore behind the Store interface):
    entities keyed by strings, kept in the natural string order.
    The store is an explicit immutable value here; each mutating operation returns
    the new store, and a failed operation returns no store, so the caller keeps the old one. */
module SortedStore {
  import opened Results
  import opened LexOrder

  /** At most one entity per key, by construction of `map`. */
  type Store<V> = map<string, V>

  /** What `update` and `delete` produce: the new store and the entity that was
      at the key before the call. */
  datatype Changed<V> = Changed(store: Store<V>, previous: V)

  /** The four arguments of `retrieveInRange`. */
  datatype Bounds = Bounds(from: string, fromInclusive: bool, to: string, toInclusive: bool)

  /** `k` lies within `b`, each boundary counted only when its flag is set. */
  predicate Within(k: string, b: Bounds) {
    && (if b.fromInclusive then LessEq(b.from, k) else Less(b.from, k))
    && (if b.toInclusive then LessEq(k, b.to) else Less(k, b.to))
  }

  predicate StrictlyAscending(ks: seq<string>) {
    forall i, j :: 0 <= i < j < |ks| ==> Less(ks[i], ks[j])
  }

  // ---------------------------------------------------------------------------
  // Point operations

  /** Inserts `entity` under `id` only when `id` is absent. */
  function Create<V>(s: Store<V>, entity: V, id: string): (r: Result<Store<V>>)
    ensures r.Err? <==> id in s
    ensures r.Err? ==> r.error == EntityExists
    ensures r.Ok? ==> Retrieve(r.value, id) == Ok(entity)
    ensures r.Ok? ==> r.value.Keys == s.Keys + {id}
    ensures r.Ok? ==> forall k :: k != id ==> Retrieve(r.value, k) == Retrieve(s, k)
  {
    if id in s then Err(EntityExists) else Ok(s[id := entity])
  }

  /** The entity stored under `id`, or EntityNotFound. */
  function Retrieve<V>(s: Store<V>, id: string): (r: Result<V>)
    ensures r.Ok? <==> id in s
    ensures r.Ok? ==> r.value == s[id]
    ensures r.Err? ==> r.error == EntityNotFound
  {
    if id !in s then Err(EntityNotFound) else Ok(s[id])
  }

  /** Replaces the entity at `id`, returning the one it replaced. */
  function Update<V>(s: Store<V>, entity: V, id: string): (r: Result<Changed<V>>)
    ensures r.Err? <==> id !in s
    ensures r.Err? ==> r.error == EntityNotFound
    ensures r.Ok? ==> Retrieve(s, id) == Ok(r.value.previous)
    ensures r.Ok? ==> Retrieve(r.value.store, id) == Ok(entity)
    ensures r.Ok? ==> r.value.store.Keys == s.Keys
    ensures r.Ok? ==> forall k :: k != id ==> Retrieve(r.value.store, k) == Retrieve(s, k)
  {
    if id !in s then Err(EntityNotFound) else Ok(Changed(s[id := entity], s[id]))
  }

  /** Removes the entity at `id`, returning it. */
  function Delete<V>(s: Store<V>, id: string): (r: Result<Changed<V>>)
    ensures r.Err? <==> id !in s
    ensures r.Err? ==> r.error == EntityNotFound
    ensures r.Ok? ==> Retrieve(s, id) == Ok(r.value.previous)
    ensures r.Ok? ==> Retrieve(r.value.store, id) == Err(EntityNotFound)
    ensures r.Ok? ==> r.value.store.Keys == s.Keys - {id}
    ensures r.Ok? ==> forall k :: k != id ==> Retrieve(r.value.store, k) == Retrieve(s, k)
  {
    if id !in s then Err(EntityNotFound) else Ok(Changed(s - {id}, s[id]))
  }

  /** Empties the store. */
  function Clear<V>(s: Store<V>): (r: Store<V>)
    ensures forall k :: Retrieve(r, k) == Err(EntityNotFound)
  {
    map[]
  }

  // ---------------------------------------------------------------------------
  // Key order

  /** `m` is the smallest key of `keys`. */
  predicate IsLeast(m: string, keys: set<string>) {
    m in keys && forall k :: k in keys && k != m ==> Less(m, k)
  }

  lemma {:induction false} LeastExists(keys: set<string>)
    requires keys != {}
    ensures exists m :: IsLeast(m, keys)
    decreases |keys|
  {
    var x :| x in keys;
    if keys == {x} {
      assert IsLeast(x, keys);
    } else {
      var rest := keys - {x};
      LeastExists(rest);
      var m :| IsLeast(m, rest);
      LessTotal(x, m);
      if Less(x, m) {
        forall k | k in keys && k != x
          ensures Less(x, k)
        {
          if k != m {
            LessTransitive(x, m, k);
          }
        }
        assert IsLeast(x, keys);
      } else {
        assert IsLeast(m, keys);
      }
    }
  }

  lemma LeastUnique(keys: set<string>)
    ensures forall m1, m2 :: IsLeast(m1, keys) && IsLeast(m2, keys) ==> m1 == m2
  {
    forall m1, m2 | IsLeast(m1, keys) && IsLeast(m2, keys)
      ensures m1 == m2
    {
      LessAsymmetric(m1, m2);
    }
  }

  function Least(keys: set<string>): (m: string)
    requires keys != {}
    ensures IsLeast(m, keys)
  {
    LeastExists(keys);
    LeastUnique(keys);
    var m :| IsLeast(m, keys); m
  }

  /** The keys of a store in ascending order: what iterating the TreeMap yields. */
  function SortedKeys(keys: set<string>): (r: seq<string>)
    ensures StrictlyAscending(r)
    ensures forall k :: k in r <==> k in keys
    ensures |r| == |keys|
    decreases |keys|
  {
    if keys == {} then []
    else
      var m := Least(keys);
      var rest := SortedKeys(keys - {m});
      assert forall j :: 0 <= j < |rest| ==> Less(m, rest[j]) by {
        forall j | 0 <= j < |rest| ensures Less(m, rest[j]) {
          assert rest[j] in rest;
        }
      }
      [m] + rest
  }

  /** The keys of `ks` that lie within `b`, in the order of `ks`. */
  function Select(ks: seq<string>, b: Bounds): (r: seq<string>)
    ensures forall k :: k in r <==> k in ks && Within(k, b)
    ensures StrictlyAscending(ks) ==> StrictlyAscending(r)
  {
    if |ks| == 0 then []
    else
      var rest := Select(ks[1..], b);
      assert StrictlyAscending(ks) ==> forall j :: 0 <= j < |rest| ==> Less(ks[0], rest[j]) by {
        if StrictlyAscending(ks) {
          forall j | 0 <= j < |rest| ensures Less(ks[0], rest[j]) {
            assert rest[j] in rest;
            var q :| 0 <= q < |ks[1..]| && ks[1..][q] == rest[j];
            assert ks[q + 1] == rest[j];
          }
        }
      }
      (if Within(ks[0], b) then [ks[0]] else []) + rest
  }

  /** The keys a range query visits: exactly the stored keys within `b`, ascending. */
  function RangeKeys<V>(s: Store<V>, b: Bounds): (r: seq<string>)
    ensures StrictlyAscending(r)
    ensures forall k :: k in r <==> k in s && Within(k, b)
  {
    Select(SortedKeys(s.Keys), b)
  }

  /** `retrieveInRange`: the entities whose keys lie within `b`, in ascending key order.
      TreeMap.subMap rejects a `from` that sorts after `to`; that is `InvalidRange`. */
  function RetrieveInRange<V>(s: Store<V>, b: Bounds): (r: Result<seq<V>>)
    ensures r.Err? <==> Less(b.to, b.from)
    ensures r.Err? ==> r.error == InvalidRange
    ensures r.Ok? ==> |r.value| == |RangeKeys(s, b)|
    ensures r.Ok? ==> forall i :: 0 <= i < |r.value| ==> r.value[i] == s[RangeKeys(s, b)[i]]
  {
    if Less(b.to, b.from) then Err(InvalidRange)
    else
      var ks := RangeKeys(s, b);
      Ok(seq(|ks|, i requires 0 <= i < |ks| => s[ks[i]]))
  }

  // ---------------------------------------------------------------------------
  // Properties relating several calls

  lemma FirstIsMember(ks: seq<string>)
    ensures |ks| > 0 ==> ks[0] in ks
  {
  }

  /** Two ascending key sequences with the same members are the same sequence. */
  lemma {:induction false} AscendingUnique(a: seq<string>, b: seq<string>)
    requires StrictlyAscending(a) && StrictlyAscending(b)
    requires forall k :: k in a <==> k in b
    ensures a == b
    decreases |a|
  {
    if |a| == 0 {
      FirstIsMember(b);
    } else {
      assert a[0] in a;
      assert |b| > 0;
      assert b[0] in b;
      var i :| 0 <= i < |a| && a[i] == b[0];
      var j :| 0 <= j < |b| && b[j] == a[0];
      if i > 0 && j > 0 {
        assert Less(a[0], a[i]) && Less(b[0], b[j]);
        LessAsymmetric(a[0], b[0]);
        assert false;
      } else if i > 0 {
        assert a[0] == b[0];
        LessIrreflexive(a[0]);
        assert false;
      }
      assert a[0] == b[0];
      forall k
        ensures k in a[1..] <==> k in b[1..]
      {
        if k in a[1..] {
          var p :| 0 <= p < |a[1..]| && a[1..][p] == k;
          assert Less(a[0], a[p + 1]);
          LessIrreflexive(a[0]);
          assert k in b;
          var q :| 0 <= q < |b| && b[q] == k;
          assert q != 0;
          assert b[1..][q - 1] == k;
        }
        if k in b[1..] {
          var q :| 0 <= q < |b[1..]| && b[1..][q] == k;
          assert Less(b[0], b[q + 1]);
          LessIrreflexive(b[0]);
          assert k in a;
          var p :| 0 <= p < |a| && a[p] == k;
          assert p != 0;
          assert a[1..][p - 1] == k;
        }
      }
      AscendingUnique(a[1..], b[1..]);
      assert a == [a[0]] + a[1..] && b == [b[0]] + b[1..];
    }
  }

  /** A range query reads nothing outside its bounds: two stores that agree on the
      keys within `b` answer the same. */
  lemma RangeReadsOnlyWithin<V>(s: Store<V>, t: Store<V>, b: Bounds)
    requires forall k :: Within(k, b) ==> (k in s <==> k in t)
    requires forall k :: Within(k, b) && k in s && k in t ==> s[k] == t[k]
    ensures RetrieveInRange(s, b) == RetrieveInRange(t, b)
  {
    var ks, kt := RangeKeys(s, b), RangeKeys(t, b);
    forall k
      ensures k in ks <==> k in kt
    {
      assert k in ks <==> k in s && Within(k, b);
      assert k in kt <==> k in t && Within(k, b);
    }
    AscendingUnique(ks, kt);
    if !Less(b.to, b.from) {
      var vs, vt := RetrieveInRange(s, b).value, RetrieveInRange(t, b).value;
      forall i | 0 <= i < |vs|
        ensures vs[i] == vt[i]
      {
        assert ks[i] in ks;
      }
      assert vs == vt;
    }
  }

  /** A boundary key that is stored is returned exactly when its inclusive flag is set;
      when both bounds are the same key, it is returned only when both flags are set. */
  lemma BoundaryFlags<V>(s: Store<V>, b: Bounds)
    requires LessEq(b.from, b.to)
    ensures RetrieveInRange(s, b).Ok?
    ensures b.from != b.to && b.from in s ==> (b.from in RangeKeys(s, b) <==> b.fromInclusive)
    ensures b.from != b.to && b.to in s ==> (b.to in RangeKeys(s, b) <==> b.toInclusive)
    ensures b.from == b.to && b.from in s ==> (b.from in RangeKeys(s, b) <==> b.fromInclusive && b.toInclusive)
  {
    LessIrreflexive(b.from);
    LessIrreflexive(b.to);
    LessAsymmetric(b.from, b.to);
  }

  /** The half-open range [from, to). */
  function HalfOpen(from: string, to: string): Bounds {
    Bounds(from, true, to, false)
  }

  /** Every key of the left range sorts before every key of the right one. */
  lemma HalfOpenBlocksAscending<V>(s: Store<V>, a: string, b: string, c: string)
    ensures StrictlyAscending(RangeKeys(s, HalfOpen(a, b)) + RangeKeys(s, HalfOpen(b, c)))
  {
    var left := RangeKeys(s, HalfOpen(a, b));
    var right := RangeKeys(s, HalfOpen(b, c));
    var both := left + right;
    forall i, j | 0 <= i < j < |both|
      ensures Less(both[i], both[j])
    {
      if j < |left| {
        assert both[i] == left[i] && both[j] == left[j];
      } else if i >= |left| {
        assert both[i] == right[i - |left|] && both[j] == right[j - |left|];
      } else {
        var x, y := left[i], right[j - |left|];
        assert x in left && y in right;
        if b != y {
          LessTransitive(x, b, y);
        }
      }
    }
  }

  /** The keys of [a, b) and [b, c) together are the keys of [a, c). */
  lemma HalfOpenBlocksCover<V>(s: Store<V>, a: string, b: string, c: string)
    requires LessEq(a, b) && LessEq(b, c)
    ensures forall k :: k in RangeKeys(s, HalfOpen(a, b)) + RangeKeys(s, HalfOpen(b, c))
                        <==> k in RangeKeys(s, HalfOpen(a, c))
  {
    var left := RangeKeys(s, HalfOpen(a, b));
    var right := RangeKeys(s, HalfOpen(b, c));
    var whole := RangeKeys(s, HalfOpen(a, c));
    forall k
      ensures k in left + right <==> k in whole
    {
      if k in left {
        if b != c {
          LessTransitive(k, b, c);
        }
      } else if k in right {
        if a != b && b != k {
          LessTransitive(a, b, k);
        }
      } else if k in whole {
        LessTotal(k, b);
        assert false;
      }
    }
  }

  /** Adjacent half-open ranges split a larger one without overlap or gap:
      a key on the shared boundary is counted once, by the later range. */
  lemma AdjacentHalfOpenKeys<V>(s: Store<V>, a: string, b: string, c: string)
    requires LessEq(a, b) && LessEq(b, c)
    ensures RangeKeys(s, HalfOpen(a, b)) + RangeKeys(s, HalfOpen(b, c)) == RangeKeys(s, HalfOpen(a, c))
  {
    HalfOpenBlocksAscending(s, a, b, c);
    HalfOpenBlocksCover(s, a, b, c);
    AscendingUnique(RangeKeys(s, HalfOpen(a, b)) + RangeKeys(s, HalfOpen(b, c)), RangeKeys(s, HalfOpen(a, c)));
  }

  /** The same split, stated for the entities a range query returns. */
  lemma AdjacentHalfOpen<V>(s: Store<V>, a: string, b: string, c: string)
    requires LessEq(a, b) && LessEq(b, c)
    ensures RetrieveInRange(s, HalfOpen(a, b)).Ok? && RetrieveInRange(s, HalfOpen(b, c)).Ok?
    ensures RetrieveInRange(s, HalfOpen(a, c))
         == Ok(RetrieveInRange(s, HalfOpen(a, b)).value + RetrieveInRange(s, HalfOpen(b, c)).value)
  {
    LessAsymmetric(a, b);
    LessAsymmetric(b, c);
    LessIrreflexive(b);
    if a != b && b != c {
      LessTransitive(a, b, c);
    }
    LessAsymmetric(a, c);
    LessIrreflexive(a);
    AdjacentHalfOpenKeys(s, a, b, c);
    var left := RetrieveInRange(s, HalfOpen(a, b)).value;
    var right := RetrieveInRange(s, HalfOpen(b, c)).value;
    var whole := RetrieveInRange(s, HalfOpen(a, c)).value;
    assert |whole| == |left + right|;
    forall i | 0 <= i < |whole|
      ensures whole[i] == (left + right)[i]
    {
    }
    assert whole == left + right;
  }
}
