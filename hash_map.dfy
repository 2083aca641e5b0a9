/**
 * The separate-chaining map of Project/src/hash_map.py, which the dispatcher
 * uses for its package index. Python's `hash` is the constructor parameter
 * `hash`; an `object_key` argument is modelled as the hash of the named
 * attribute, a second function of the key.
 */
module HashMaps {
  import opened Wrappers
  import opened Buckets

  class HashMap<K(==), V> {
    const size: int
    const hash: K -> int
    var table: Table<K, V>

    /** Shape of the table and at most one pair per key in each bucket. */
    ghost predicate Valid()
      reads this
    {
      size > 0 && |table| == size && Chained(table)
    }

    /** The map `get` and `contains` observe when called without an attribute key. */
    ghost function Contents(): map<K, V>
      reads this
      requires Valid()
    {
      Model(table, hash)
    }

    /** The hash code `add` and `get` use: the key's own, or the chosen attribute's. */
    function CodeOf(key: K, objectKey: Option<K -> int>): int {
      match objectKey
      case Some(attribute) => attribute(key)
      case None => hash(key)
    }

    /** `size` empty buckets; `size` defaults to 100. */
    constructor (hash: K -> int, size: int := 100)
      requires size > 0
      ensures Valid() && this.hash == hash && this.size == size
      ensures table == EmptyTable(size) && Placed(table, hash)
      ensures Contents() == map[]
    {
      this.hash := hash;
      this.size := size;
      table := EmptyTable(size);
      new;
      ModelEmpty<K, V>(size, hash);
    }

    /**
     * Replace the first pair for `key` in its bucket, or append a new one;
     * the answer is always true. Without an attribute key the observed map
     * gains `key := value` and every pair stays in its own bucket; with one
     * whose bucket differs from the key's, nothing observable changes.
     */
    method Add(key: K, value: V, objectKey: Option<K -> int> := None) returns (added: bool)
      requires Valid()
      modifies this
      ensures Valid() && added
      ensures var s := Slot(CodeOf(key, objectKey), size);
        table == old(table)[s := Upsert(old(table)[s], key, value)]
      ensures objectKey == None ==> Contents() == old(Contents())[key := value]
      ensures objectKey == None && Placed(old(table), hash) ==> Placed(table, hash)
      ensures Slot(CodeOf(key, objectKey), size) != Slot(hash(key), size) ==> Contents() == old(Contents())
    {
      var s := CodeOf(key, objectKey) % size;
      var bucket := table[s];
      var i := Scan(bucket, key);
      if i >= 0 {
        table := table[s := bucket[i := (key, value)]];
      } else {
        table := table[s := bucket + [(key, value)]];
      }
      UpsertUnique(bucket, key, value);
      if objectKey == None {
        ModelUpsert(old(table), hash, key, value);
        if Placed(old(table), hash) {
          UpsertPlaced(old(table), hash, key, value);
        }
      }
      if s != Slot(hash(key), size) {
        ModelUpsertElsewhere(old(table), hash, s, key, value);
      }
      added := true;
    }

    /** The value of the first pair for `key` in the bucket it hashes to, or None. */
    method Get(key: K, objectKey: Option<K -> int> := None) returns (r: Option<V>)
      requires Valid()
      ensures r == Lookup(table[Slot(CodeOf(key, objectKey), size)], key)
      ensures objectKey == None ==> r == if key in Contents() then Some(Contents()[key]) else None
    {
      var bucket := table[CodeOf(key, objectKey) % size];
      var i := Scan(bucket, key);
      r := if i < 0 then None else Some(bucket[i].1);
      InModel(table, hash, key);
    }

    /** Drop the pair for `key`; true exactly when there was one. */
    method Remove(key: K) returns (removed: bool)
      requires Valid()
      modifies this
      ensures Valid()
      ensures removed <==> key in old(Contents())
      ensures var s := Slot(hash(key), size); table == old(table)[s := Delete(old(table)[s], key)]
      ensures !removed ==> table == old(table)
      ensures Contents() == old(Contents()) - {key}
      ensures Placed(old(table), hash) ==> Placed(table, hash)
    {
      var s := hash(key) % size;
      var bucket := table[s];
      var i := Scan(bucket, key);
      InModel(table, hash, key);
      DeleteUnique(bucket, key);
      ModelDelete(table, hash, key);
      if Placed(table, hash) {
        DeletePlaced(table, hash, key);
      }
      if i >= 0 {
        table := table[s := bucket[..i] + bucket[i + 1..]];
        removed := true;
      } else {
        assert table[s := bucket] == table;
        removed := false;
      }
    }

    /** True exactly when a pair for `key` sits in the bucket `key` hashes to. */
    method Contains(key: K) returns (found: bool)
      requires Valid()
      ensures found <==> key in Contents()
    {
      var bucket := table[hash(key) % size];
      var i := Scan(bucket, key);
      found := i >= 0;
      InModel(table, hash, key);
    }

    /** `size` fresh empty buckets; `size` itself is kept. */
    method Clear()
      requires Valid()
      modifies this
      ensures Valid() && table == EmptyTable(size) && Placed(table, hash)
      ensures Contents() == map[]
    {
      table := EmptyTable(size);
      ModelEmpty<K, V>(size, hash);
    }

    /**
     * Every pair, bucket by bucket and in insertion order within a bucket.
     * When every pair sits in its own bucket, that is each entry of the
     * observed map exactly once (Buckets.FlattenIsModel).
     */
    method GetAllElements() returns (elements: seq<(K, V)>)
      requires Valid()
      ensures elements == Flatten(table)
    {
      var t := table;
      elements := [];
      var b := 0;
      while b < |t|
        invariant 0 <= b <= |t|
        invariant elements + FlattenFrom(t, b) == Flatten(t)
      {
        var bucket := t[b];
        var i := 0;
        while i < |bucket|
          invariant 0 <= i <= |bucket|
          invariant elements + bucket[i..] + FlattenFrom(t, b + 1) == Flatten(t)
        {
          AppendStep(elements, bucket, i, FlattenFrom(t, b + 1));
          elements := elements + [bucket[i]];
          i := i + 1;
        }
        assert bucket[i..] == [];
        b := b + 1;
      }
    }
  }
}
