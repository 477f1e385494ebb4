/**
 * The bounded key/value cache `CacheComponent` of the weather service.
 *
 * The repository carries three copies of it (BackWeather, que and the top-level
 * project); they hold the same `HashMap<String, Object>` and perform the same
 * `put`/`get`/`remove`, the BackWeather copy adding two logging calls. One class
 * models all three. Values are non-null payloads of a type parameter `V`; the
 * map's iteration order is unknown, so the key `put` evicts on overflow is any
 * key of the map at that moment, the one just inserted included.
 */
module Cache {
  import opened Wrappers

  /** The capacity: `maxSize` in two copies, `MAX_SIZE` in the third. */
  const MAX_SIZE: nat := 100

  /** Java `HashMap.get`: the stored value, or absent where Java answers `null`. */
  function Lookup<V>(m: map<string, V>, key: string): Option<V>
  {
    if key in m then Some(m[key]) else None
  }

  /** `put` overflows when the map, after the insertion, holds more than MAX_SIZE entries. */
  predicate Overflows<V>(m: map<string, V>, key: string, value: V)
  {
    |m[key := value]| > MAX_SIZE
  }

  /**
   * `put(key, value)` when the map's iterator would hand back `victim` first:
   * insert or overwrite, then, if the map is over capacity, drop `victim`.
   * Any key of the map after the insertion may be the victim.
   */
  function PutWith<V>(m: map<string, V>, key: string, value: V, victim: string): (r: map<string, V>)
    requires victim in m[key := value]
    // the capacity bound is kept
    ensures |m| <= MAX_SIZE ==> |r| <= MAX_SIZE
    // overwriting a present key changes only its value: same size, nothing evicted
    ensures key in m && |m| <= MAX_SIZE ==> r.Keys == m.Keys && r[key] == value
    // a new key into a full cache leaves it exactly full, and the victim is gone
    ensures key !in m && |m| == MAX_SIZE ==> |r| == MAX_SIZE && victim !in r
    // an overflowing put removes exactly one key, which was there after the insertion
    ensures Overflows(m, key, value) ==> |r| + 1 == |m[key := value]| && victim !in r
    // without overflow the new value is readable back
    ensures !Overflows(m, key, value) ==> Lookup(r, key) == Some(value) && |r| == |m[key := value]|
    // without overflow nothing is evicted: the map is exactly the one after the insertion
    ensures !Overflows(m, key, value) ==> r == m[key := value]
    // whatever survives under `key` is the new value
    ensures key in r ==> r[key] == value
    // no key other than `key` and the victim is touched
    ensures forall k :: k != key && k != victim ==> Lookup(r, k) == Lookup(m, k)
  {
    var inserted := m[key := value];
    if |inserted| > MAX_SIZE then
      var r := inserted - {victim};
      assert r.Keys == inserted.Keys - {victim};
      r
    else
      inserted
  }

  /** One `put` step: some key of the map after the insertion is the victim. */
  ghost predicate PutStep<V>(m: map<string, V>, key: string, value: V, m': map<string, V>)
  {
    exists victim :: victim in m[key := value] && m' == PutWith(m, key, value, victim)
  }

  /** Java `HashMap.remove(key)`: drop the entry if present, no-op otherwise. */
  function Removed<V>(m: map<string, V>, key: string): (r: map<string, V>)
    ensures Lookup(r, key) == None
    ensures forall k :: k != key ==> Lookup(r, k) == Lookup(m, k)
    ensures key !in m ==> r == m
    ensures |r| == if key in m then |m| - 1 else |m|
  {
    var r := m - {key};
    assert r.Keys == m.Keys - {key};
    r
  }

  class CacheComponent<V> {
    /** The backing `HashMap<String, Object>`. */
    var hashMap: map<string, V>

    /** The capacity bound every public operation keeps. */
    ghost predicate Valid()
      reads this
    {
      |hashMap| <= MAX_SIZE
    }

    constructor ()
      ensures Valid()
      ensures hashMap == map[]
    {
      hashMap := map[];
    }

    /** Insert or overwrite, then evict the iterator's first key if over capacity. */
    method Put(key: string, value: V)
      requires Valid()
      modifies this
      ensures Valid()
      ensures PutStep(old(hashMap), key, value, hashMap)
    {
      hashMap := hashMap[key := value];
      if |hashMap| > MAX_SIZE {
        // HashMap's iteration order is unspecified: any present key may come first
        var oldestKey :| oldestKey in hashMap;
        hashMap := hashMap - {oldestKey};
        assert hashMap == PutWith(old(hashMap), key, value, oldestKey);
      } else {
        assert hashMap == PutWith(old(hashMap), key, value, key);
      }
    }

    /** A lookup: the stored value, or absent for a missing key; the map is not changed. */
    method Get(key: string) returns (r: Option<V>)
      ensures r.Some? <==> key in hashMap
      ensures r.Some? ==> r.value == hashMap[key]
    {
      r := if key in hashMap then Some(hashMap[key]) else None;
    }

    /** Delete `key`, a no-op when it is missing. */
    method Remove(key: string)
      requires Valid()
      modifies this
      ensures Valid()
      ensures hashMap == Removed(old(hashMap), key)
    {
      hashMap := hashMap - {key};
      assert hashMap == Removed(old(hashMap), key);
    }
  }

  /* ---------------- Sequences of operations from an empty cache ---------------- */

  /** A call on the cache; `get` is included because it must leave the map alone. */
  datatype Op<V> = PutOp(key: string, value: V) | GetOp(key: string) | RemoveOp(key: string)

  /** The map `m'` is a possible outcome of running `op` on `m`. */
  ghost predicate Step<V>(m: map<string, V>, op: Op<V>, m': map<string, V>)
  {
    match op
    case PutOp(k, v) => PutStep(m, k, v, m')
    case GetOp(_) => m' == m
    case RemoveOp(k) => m' == Removed(m, k)
  }

  /** `states` is a run of `ops` on a freshly constructed cache: states[i] is the map before ops[i]. */
  ghost predicate Run<V>(ops: seq<Op<V>>, states: seq<map<string, V>>)
  {
    && |states| == |ops| + 1
    && states[0] == map[]
    && forall i :: 0 <= i < |ops| ==> Step(states[i], ops[i], states[i + 1])
  }

  /** Every reachable map holds at most MAX_SIZE entries. */
  lemma {:induction false} RunStaysBounded<V>(ops: seq<Op<V>>, states: seq<map<string, V>>, i: nat)
    requires Run(ops, states)
    requires i < |states|
    ensures |states[i]| <= MAX_SIZE
  {
    if i > 0 {
      RunStaysBounded(ops, states, i - 1);
      assert Step(states[i - 1], ops[i - 1], states[i]);
      match ops[i - 1]
      case PutOp(k, v) =>
        var victim :| victim in states[i - 1][k := v] && states[i] == PutWith(states[i - 1], k, v, victim);
      case GetOp(_) =>
      case RemoveOp(k) =>
    }
  }

  /** A key that no `put` of the run ever used is absent from every state: `get` answers absent. */
  lemma {:induction false} NeverPutIsAbsent<V>(ops: seq<Op<V>>, states: seq<map<string, V>>, i: nat, key: string)
    requires Run(ops, states)
    requires i < |states|
    requires forall j :: 0 <= j < i ==> ops[j].PutOp? ==> ops[j].key != key
    ensures Lookup(states[i], key) == None
  {
    if i > 0 {
      NeverPutIsAbsent(ops, states, i - 1, key);
      assert Step(states[i - 1], ops[i - 1], states[i]);
      match ops[i - 1]
      case PutOp(k, v) =>
        var victim :| victim in states[i - 1][k := v] && states[i] == PutWith(states[i - 1], k, v, victim);
        assert ops[i - 1].key != key;
      case GetOp(_) =>
      case RemoveOp(k) =>
    }
  }

  /** A put of a key not yet present grows the cache by one, up to MAX_SIZE, and adds no other key. */
  lemma FreshPut<V>(m: map<string, V>, key: string, value: V, victim: string)
    requires victim in m[key := value]
    requires key !in m && |m| <= MAX_SIZE
    ensures |PutWith(m, key, value, victim)| == if |m| < MAX_SIZE then |m| + 1 else MAX_SIZE
    ensures forall x :: x in PutWith(m, key, value, victim) ==> x == key || x in m
  {
  }

  /**
   * Puts of pairwise distinct keys into an empty cache: after i of them the cache
   * holds min(i, MAX_SIZE) entries, none of them a key still to be put.
   */
  lemma {:induction false} DistinctPutsFill<V>(ops: seq<Op<V>>, states: seq<map<string, V>>, i: nat)
    requires Run(ops, states)
    requires forall j :: 0 <= j < |ops| ==> ops[j].PutOp?
    requires forall j, l :: 0 <= j < l < |ops| ==> ops[j].key != ops[l].key
    requires i < |states|
    ensures |states[i]| == if i <= MAX_SIZE then i else MAX_SIZE
    ensures forall x, j :: x in states[i] && i <= j < |ops| ==> ops[j].key != x
  {
    if i > 0 {
      DistinctPutsFill(ops, states, i - 1);
      var m := states[i - 1];
      var k, v := ops[i - 1].key, ops[i - 1].value;
      assert Step(m, ops[i - 1], states[i]);
      var victim :| victim in m[k := v] && states[i] == PutWith(m, k, v, victim);
      FreshPut(m, k, v, victim);
    }
  }

  /** 101 distinct keys put into an empty cache leave exactly 100 entries. */
  lemma HundredAndOneDistinctPuts<V>(ops: seq<Op<V>>, states: seq<map<string, V>>)
    requires Run(ops, states)
    requires |ops| == MAX_SIZE + 1
    requires forall j :: 0 <= j < |ops| ==> ops[j].PutOp?
    requires forall j, l :: 0 <= j < l < |ops| ==> ops[j].key != ops[l].key
    ensures |states[|ops|]| == MAX_SIZE
  {
    DistinctPutsFill(ops, states, |ops|);
  }

  /**
   * The eviction may hit the key just put: a new key into a full cache whose
   * iterator returns that key first leaves the cache as it was, so a following
   * `get` of that key answers absent.
   */
  lemma PutMayEvictItsOwnKey<V>(m: map<string, V>, key: string, value: V)
    requires |m| == MAX_SIZE && key !in m
    ensures key in m[key := value]
    ensures PutWith(m, key, value, key) == m
    ensures Lookup(PutWith(m, key, value, key), key) == None
  {
  }
}
