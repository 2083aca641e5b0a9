/**
 * Separate chaining stated on values. A table is a sequence of buckets and a
 * bucket is a sequence of (key, value) pairs in insertion order, which is how
 * both hash maps of the project (Project/src/hash_map.py and
 * Project/src/HashMap.py) keep their `table`. The class methods of those maps
 * are proved against the functions below, and the lemmas here say what the
 * functions mean for the abstract map a caller sees through `get`.
 */
module Buckets {
  import opened Wrappers

  type Bucket<K, V> = seq<(K, V)>
  type Table<K, V> = seq<Bucket<K, V>>

  /** `code % size` with Python's `%`; for a positive modulus it agrees with Dafny's. */
  function Slot(code: int, size: int): (b: int)
    requires size > 0
    ensures 0 <= b < size
  {
    code % size
  }

  /** Position of the first pair whose key is `k`, or -1 when there is none. */
  function IndexOf<K(==), V>(bucket: Bucket<K, V>, k: K): (i: int)
    ensures -1 <= i < |bucket|
    ensures 0 <= i ==> bucket[i].0 == k
    ensures forall j :: 0 <= j < |bucket| && (i < 0 || j < i) ==> bucket[j].0 != k
  {
    if |bucket| == 0 then -1
    else if bucket[0].0 == k then 0
    else
      var r := IndexOf(bucket[1..], k);
      assert forall j :: 1 <= j < |bucket| ==> bucket[j] == bucket[1..][j - 1];
      if r < 0 then -1 else r + 1
  }

  /** The `for i, kvp in enumerate(bucket)` scan that every map operation runs. */
  method Scan<K(==), V>(bucket: Bucket<K, V>, k: K) returns (i: int)
    ensures i == IndexOf(bucket, k)
  {
    i := 0;
    while i < |bucket|
      invariant 0 <= i <= |bucket|
      invariant forall j :: 0 <= j < i ==> bucket[j].0 != k
    {
      if bucket[i].0 == k {
        IndexOfIs(bucket, k, i);
        return;
      }
      i := i + 1;
    }
    IndexOfIs(bucket, k, -1);
    i := -1;
  }

  /** The value of the first pair with key `k`: what `get` returns from one bucket. */
  function Lookup<K(==), V>(bucket: Bucket<K, V>, k: K): Option<V> {
    var i := IndexOf(bucket, k);
    if i < 0 then None else Some(bucket[i].1)
  }

  /** `add` on one bucket: replace the first pair with key `k` in place, or append. */
  function Upsert<K(==), V>(bucket: Bucket<K, V>, k: K, v: V): Bucket<K, V> {
    var i := IndexOf(bucket, k);
    if i < 0 then bucket + [(k, v)] else bucket[i := (k, v)]
  }

  /** `remove` on one bucket: drop the first pair with key `k`, if any. */
  function Delete<K(==), V>(bucket: Bucket<K, V>, k: K): Bucket<K, V> {
    var i := IndexOf(bucket, k);
    if i < 0 then bucket else bucket[..i] + bucket[i + 1..]
  }

  predicate UniqueKeys<K(==), V>(s: seq<(K, V)>) {
    forall i, j :: 0 <= i < j < |s| ==> s[i].0 != s[j].0
  }

  /** A table of `size` empty buckets: `[[] for _ in range(size)]`. */
  function EmptyTable<K, V>(size: nat): (t: Table<K, V>)
    ensures |t| == size
  {
    seq(size, _ => [])
  }

  /** The pairs of buckets `b..` in bucket order, then insertion order within a bucket. */
  function FlattenFrom<K, V>(table: Table<K, V>, b: nat): seq<(K, V)>
    requires b <= |table|
    decreases |table| - b
  {
    if b == |table| then [] else table[b] + FlattenFrom(table, b + 1)
  }

  function Flatten<K, V>(table: Table<K, V>): seq<(K, V)> {
    FlattenFrom(table, 0)
  }

  /** Every pair sits in the bucket its key hashes to. */
  ghost predicate Placed<K, V>(table: Table<K, V>, hash: K -> int) {
    |table| > 0 &&
    forall b, j :: 0 <= b < |table| && 0 <= j < |table[b]| ==> Slot(hash(table[b][j].0), |table|) == b
  }

  /** No bucket holds two pairs with the same key. */
  ghost predicate Chained<K, V>(table: Table<K, V>) {
    forall b :: 0 <= b < |table| ==> UniqueKeys(table[b])
  }

  /** The keys of the pairs in a bucket. */
  ghost function BucketKeys<K, V>(bucket: Bucket<K, V>): set<K> {
    if |bucket| == 0 then {} else BucketKeys(bucket[..|bucket| - 1]) + {bucket[|bucket| - 1].0}
  }

  /** The keys of the pairs in buckets `..b`. */
  ghost function TableKeys<K, V>(table: Table<K, V>, b: nat := |table|): set<K>
    requires b <= |table|
  {
    if b == 0 then {} else TableKeys(table, b - 1) + BucketKeys(table[b - 1])
  }

  /**
   * The map a caller observes through `get`: a key is present when the bucket
   * it hashes to holds a pair for it, and its value is that pair's value.
   */
  ghost function Model<K, V>(table: Table<K, V>, hash: K -> int): map<K, V>
    requires |table| > 0
  {
    map k | k in TableKeys(table) && Lookup(table[Slot(hash(k), |table|)], k).Some? ::
      Lookup(table[Slot(hash(k), |table|)], k).value
  }

  // ---------------------------------------------------------------------------
  // Buckets

  /** IndexOf is determined by its contract: the first matching position, or -1. */
  lemma IndexOfIs<K, V>(bucket: Bucket<K, V>, k: K, i: int)
    requires -1 <= i < |bucket|
    requires 0 <= i ==> bucket[i].0 == k
    requires forall j :: 0 <= j < |bucket| && (i < 0 || j < i) ==> bucket[j].0 != k
    ensures IndexOf(bucket, k) == i
  {
  }

  /** After an upsert, `k` maps to `v` and every other key keeps its value. */
  lemma {:induction false} LookupUpsert<K, V>(bucket: Bucket<K, V>, k: K, v: V, x: K)
    ensures Lookup(Upsert(bucket, k, v), x) == if x == k then Some(v) else Lookup(bucket, x)
  {
    var i := IndexOf(bucket, k);
    var u := Upsert(bucket, k, v);
    var m := IndexOf(bucket, x);
    if i < 0 {
      if x == k {
        IndexOfIs(u, k, |bucket|);
      } else {
        IndexOfIs(u, x, m);
      }
    } else {
      assert forall j :: 0 <= j < |u| ==> u[j].0 == bucket[j].0;
      IndexOfIs(u, x, m);
      if x == k {
        assert m == i;
      }
    }
  }

  /** An upsert keeps the keys of a bucket distinct. */
  lemma UpsertUnique<K, V>(bucket: Bucket<K, V>, k: K, v: V)
    requires UniqueKeys(bucket)
    ensures UniqueKeys(Upsert(bucket, k, v))
  {
    var i := IndexOf(bucket, k);
    var u := Upsert(bucket, k, v);
    if i >= 0 {
      assert forall j :: 0 <= j < |u| ==> u[j].0 == bucket[j].0;
    }
  }

  /** An upsert adds `k` to the keys of a bucket and no other key. */
  lemma UpsertKeys<K, V>(bucket: Bucket<K, V>, k: K, v: V, j: int)
    requires 0 <= j < |Upsert(bucket, k, v)|
    ensures Upsert(bucket, k, v)[j].0 == k || (j < |bucket| && Upsert(bucket, k, v)[j] == bucket[j])
  {
  }

  /** After a delete in a bucket with distinct keys, `k` is gone and the rest is unchanged. */
  lemma {:induction false} LookupDelete<K, V>(bucket: Bucket<K, V>, k: K, x: K)
    requires UniqueKeys(bucket)
    ensures Lookup(Delete(bucket, k), x) == if x == k then None else Lookup(bucket, x)
  {
    var i := IndexOf(bucket, k);
    var d := Delete(bucket, k);
    var m := IndexOf(bucket, x);
    if i >= 0 {
      assert forall j :: 0 <= j < i ==> d[j] == bucket[j];
      assert forall j :: i <= j < |d| ==> d[j] == bucket[j + 1];
      if x == k {
        IndexOfIs(d, x, -1);
      } else if m < 0 {
        IndexOfIs(d, x, -1);
      } else if m < i {
        IndexOfIs(d, x, m);
      } else {
        assert m != i;
        IndexOfIs(d, x, m - 1);
      }
    }
  }

  /** A delete keeps the keys of a bucket distinct and only removes pairs. */
  lemma DeleteUnique<K, V>(bucket: Bucket<K, V>, k: K)
    requires UniqueKeys(bucket)
    ensures UniqueKeys(Delete(bucket, k))
    ensures forall p :: p in Delete(bucket, k) ==> p in bucket
  {
    var i := IndexOf(bucket, k);
    var d := Delete(bucket, k);
    if i >= 0 {
      assert forall j :: 0 <= j < i ==> d[j] == bucket[j];
      assert forall j :: i <= j < |d| ==> d[j] == bucket[j + 1];
    }
  }

  // ---------------------------------------------------------------------------
  // Tables

  /** The key of a pair in a bucket is one of the bucket's keys. */
  lemma {:induction false} KeyInBucket<K, V>(bucket: Bucket<K, V>, j: int)
    requires 0 <= j < |bucket|
    ensures bucket[j].0 in BucketKeys(bucket)
    decreases |bucket|
  {
    if j < |bucket| - 1 {
      KeyInBucket(bucket[..|bucket| - 1], j);
    }
  }

  /** The key of a pair in bucket `c < b` is one of the keys of buckets `..b`. */
  lemma {:induction false} KeyInTable<K, V>(table: Table<K, V>, c: int, j: int, b: nat)
    requires 0 <= c < b <= |table| && 0 <= j < |table[c]|
    ensures table[c][j].0 in TableKeys(table, b)
    decreases b
  {
    if c < b - 1 {
      KeyInTable(table, c, j, b - 1);
    } else {
      KeyInBucket(table[c], j);
    }
  }

  /** Two maps with the same keys and the same value at each key are equal. */
  lemma MapsEqual<K, V>(m1: map<K, V>, m2: map<K, V>)
    requires forall x :: (x in m1 <==> x in m2) && (x in m1 ==> m1[x] == m2[x])
    ensures m1 == m2
  {
  }

  /** A key is observable exactly when the bucket it hashes to holds a pair for it. */
  lemma InModel<K, V>(table: Table<K, V>, hash: K -> int, x: K)
    requires |table| > 0
    ensures var l := Lookup(table[Slot(hash(x), |table|)], x);
      (x in Model(table, hash) <==> l.Some?) && (l.Some? ==> Model(table, hash)[x] == l.value)
  {
    var s := Slot(hash(x), |table|);
    var i := IndexOf(table[s], x);
    if i >= 0 {
      KeyInTable(table, s, i, |table|);
    }
  }

  /** `add` without an attribute key: the observed map gains `k := v`. */
  lemma {:induction false} ModelUpsert<K, V>(table: Table<K, V>, hash: K -> int, k: K, v: V)
    requires |table| > 0
    ensures var s := Slot(hash(k), |table|);
      Model(table[s := Upsert(table[s], k, v)], hash) == Model(table, hash)[k := v]
  {
    var s := Slot(hash(k), |table|);
    var t := table[s := Upsert(table[s], k, v)];
    var before, after := Model(table, hash), Model(t, hash);
    var expected := before[k := v];
    forall x
      ensures (x in after <==> x in expected) && (x in after ==> after[x] == expected[x])
    {
      InModel(table, hash, x);
      InModel(t, hash, x);
      LookupUpsert(table[s], k, v, x);
    }
    MapsEqual(after, expected);
  }

  /**
   * `add` with an attribute key whose bucket is not the one the key itself
   * hashes to: the pair lands where `get`, `contains` and `remove` never look,
   * so the observed map does not change at all.
   */
  lemma {:induction false} ModelUpsertElsewhere<K, V>(table: Table<K, V>, hash: K -> int, s: int, k: K, v: V)
    requires |table| > 0 && 0 <= s < |table| && s != Slot(hash(k), |table|)
    ensures Model(table[s := Upsert(table[s], k, v)], hash) == Model(table, hash)
  {
    var t := table[s := Upsert(table[s], k, v)];
    var before, after := Model(table, hash), Model(t, hash);
    forall x
      ensures (x in after <==> x in before) && (x in after ==> after[x] == before[x])
    {
      InModel(table, hash, x);
      InModel(t, hash, x);
      LookupUpsert(table[s], k, v, x);
    }
    MapsEqual(after, before);
  }

  /** `remove`: the observed map loses `k` and nothing else. */
  lemma {:induction false} ModelDelete<K, V>(table: Table<K, V>, hash: K -> int, k: K)
    requires |table| > 0 && Chained(table)
    ensures var s := Slot(hash(k), |table|);
      Model(table[s := Delete(table[s], k)], hash) == Model(table, hash) - {k}
  {
    var s := Slot(hash(k), |table|);
    var t := table[s := Delete(table[s], k)];
    var before, after := Model(table, hash), Model(t, hash);
    var expected := before - {k};
    forall x
      ensures (x in after <==> x in expected) && (x in after ==> after[x] == expected[x])
    {
      InModel(table, hash, x);
      InModel(t, hash, x);
      LookupDelete(table[s], k, x);
    }
    MapsEqual(after, expected);
  }

  /** `clear`: a table of empty buckets shows the empty map. */
  lemma ModelEmpty<K, V>(size: nat, hash: K -> int)
    requires size > 0
    ensures Model(EmptyTable<K, V>(size), hash) == map[]
  {
  }

  /** An upsert at the key's own bucket keeps every pair in place and every bucket duplicate-free. */
  lemma UpsertPlaced<K, V>(table: Table<K, V>, hash: K -> int, k: K, v: V)
    requires Placed(table, hash) && Chained(table)
    ensures var s := Slot(hash(k), |table|);
      Placed(table[s := Upsert(table[s], k, v)], hash) && Chained(table[s := Upsert(table[s], k, v)])
  {
    var s := Slot(hash(k), |table|);
    UpsertUnique(table[s], k, v);
    forall j | 0 <= j < |Upsert(table[s], k, v)| {
      UpsertKeys(table[s], k, v, j);
    }
  }

  /** A delete keeps every pair in place and every bucket duplicate-free. */
  lemma DeletePlaced<K, V>(table: Table<K, V>, hash: K -> int, k: K)
    requires Placed(table, hash) && Chained(table)
    ensures var s := Slot(hash(k), |table|);
      Placed(table[s := Delete(table[s], k)], hash) && Chained(table[s := Delete(table[s], k)])
  {
    var s := Slot(hash(k), |table|);
    var t: Table<K, V> := table[s := Delete(table[s], k)];
    DeleteUnique(table[s], k);
    forall b: int, j: int | 0 <= b < |t| && 0 <= j < |t[b]|
      ensures Slot(hash(t[b][j].0), |t|) == b
    {
      if b == s {
        var i: int :| 0 <= i < |table[s]| && table[s][i] == t[b][j];
      }
    }
  }

  // ---------------------------------------------------------------------------
  // Flattening

  /** Moving one pair from the unread part of a bucket to the output keeps the whole sequence. */
  lemma AppendStep<T>(done: seq<T>, bucket: seq<T>, i: int, later: seq<T>)
    requires 0 <= i < |bucket|
    ensures done + bucket[i..] + later == (done + [bucket[i]]) + bucket[i + 1..] + later
  {
    assert bucket[i..] == [bucket[i]] + bucket[i + 1..];
  }

  /** A pair occurs in buckets `b..` flattened exactly when it occurs in one of them. */
  lemma {:induction false} InFlattenFrom<K, V>(table: Table<K, V>, b: nat, p: (K, V))
    requires b <= |table|
    ensures p in FlattenFrom(table, b) <==> exists c :: b <= c < |table| && p in table[c]
    decreases |table| - b
  {
    if b < |table| {
      InFlattenFrom(table, b + 1, p);
      assert FlattenFrom(table, b) == table[b] + FlattenFrom(table, b + 1);
      if p in table[b] {
        assert b <= b < |table| && p in table[b];
      } else if exists c :: b <= c < |table| && p in table[c] {
        var c :| b <= c < |table| && p in table[c];
        assert b + 1 <= c;
      }
    }
  }

  /** With every pair placed, buckets `b..` hold only keys hashing to `b` or later. */
  lemma {:induction false} FlattenFromSlots<K, V>(table: Table<K, V>, hash: K -> int, b: nat, j: int)
    requires Placed(table, hash) && b <= |table| && 0 <= j < |FlattenFrom(table, b)|
    ensures b <= Slot(hash(FlattenFrom(table, b)[j].0), |table|)
    decreases |table| - b
  {
    if j >= |table[b]| {
      FlattenFromSlots(table, hash, b + 1, j - |table[b]|);
    }
  }

  /** With every pair placed and every bucket duplicate-free, the flattened table has distinct keys. */
  lemma {:induction false} FlattenFromUnique<K, V>(table: Table<K, V>, hash: K -> int, b: nat)
    requires Placed(table, hash) && Chained(table) && b <= |table|
    ensures UniqueKeys(FlattenFrom(table, b))
    decreases |table| - b
  {
    if b < |table| {
      FlattenFromUnique(table, hash, b + 1);
      var head, rest := table[b], FlattenFrom(table, b + 1);
      var all := FlattenFrom(table, b);
      forall i, j | 0 <= i < j < |all|
        ensures all[i].0 != all[j].0
      {
        if j < |head| {
          assert all[i] == head[i] && all[j] == head[j];
        } else if i >= |head| {
          assert all[i] == rest[i - |head|] && all[j] == rest[j - |head|];
        } else {
          assert all[i] == head[i] && all[j] == rest[j - |head|];
          FlattenFromSlots(table, hash, b + 1, j - |head|);
        }
      }
    }
  }

  /**
   * What `get_all_elements` returns: with every pair placed and every bucket
   * duplicate-free, each pair of the observed map occurs once, and nothing
   * else occurs.
   */
  lemma FlattenIsModel<K, V>(table: Table<K, V>, hash: K -> int)
    requires Placed(table, hash) && Chained(table)
    ensures UniqueKeys(Flatten(table))
    ensures forall p :: p in Flatten(table) <==> p.0 in Model(table, hash) && Model(table, hash)[p.0] == p.1
  {
    FlattenFromUnique(table, hash, 0);
    var m := Model(table, hash);
    forall p
      ensures p in Flatten(table) <==> p.0 in m && m[p.0] == p.1
    {
      InFlattenFrom(table, 0, p);
      InModel(table, hash, p.0);
      var s := Slot(hash(p.0), |table|);
      if p in Flatten(table) {
        var c, j :| 0 <= c < |table| && 0 <= j < |table[c]| && table[c][j] == p;
        assert c == s;
        IndexOfIs(table[s], p.0, j);
      }
      if p.0 in m && m[p.0] == p.1 {
        var i := IndexOf(table[s], p.0);
        assert table[s][i] == p;
      }
    }
  }
}
