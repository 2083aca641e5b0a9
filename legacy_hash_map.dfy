/**
 * The earlier separate-chaining map of Project/src/HashMap.py. Every
 * operation hashes the key itself, so, unlike the map in hash_map.py, every
 * pair always sits in the bucket its key hashes to, and that is part of the
 * class invariant.
 */
module LegacyHashMaps {
  import opened Wrappers
  import opened Buckets

  class HashMap<K(==), V> {
    const size: int
    const hash: K -> int
    var table: Table<K, V>

    /** Shape, placement of every pair, and at most one pair per key in each bucket. */
    ghost predicate Valid()
      reads this
    {
      size > 0 && |table| == size && Placed(table, hash) && Chained(table)
    }

    /** The map the operations observe. */
    ghost function Contents(): map<K, V>
      reads this
      requires Valid()
    {
      Model(table, hash)
    }

    /** `size` empty buckets; `size` defaults to 100. */
    constructor (hash: K -> int, size: int := 100)
      requires size > 0
      ensures Valid() && this.hash == hash && this.size == size
      ensures table == EmptyTable(size) && Contents() == map[]
    {
      this.hash := hash;
      this.size := size;
      table := EmptyTable(size);
      new;
      ModelEmpty<K, V>(size, hash);
    }

    /** Upsert in the key's bucket; always true, and the observed map gains `key := value`. */
    method Add(key: K, value: V) returns (added: bool)
      requires Valid()
      modifies this
      ensures Valid() && added
      ensures var s := Slot(hash(key), size); table == old(table)[s := Upsert(old(table)[s], key, value)]
      ensures Contents() == old(Contents())[key := value]
    {
      var s := hash(key) % size;
      var bucket := table[s];
      var i := Scan(bucket, key);
      if i >= 0 {
        table := table[s := bucket[i := (key, value)]];
      } else {
        table := table[s := bucket + [(key, value)]];
      }
      ModelUpsert(old(table), hash, key, value);
      UpsertPlaced(old(table), hash, key, value);
      added := true;
    }

    /** The stored value for `key`, or None when the key is absent. */
    method Get(key: K) returns (r: Option<V>)
      requires Valid()
      ensures r == if key in Contents() then Some(Contents()[key]) else None
    {
      var bucket := table[hash(key) % size];
      var i := Scan(bucket, key);
      r := if i < 0 then None else Some(bucket[i].1);
      InModel(table, hash, key);
    }

    /** Drop the pair for `key`; true exactly when there was one, and otherwise nothing changes. */
    method Remove(key: K) returns (removed: bool)
      requires Valid()
      modifies this
      ensures Valid()
      ensures removed <==> key in old(Contents())
      ensures !removed ==> table == old(table)
      ensures Contents() == old(Contents()) - {key}
    {
      var s := hash(key) % size;
      var bucket := table[s];
      var i := Scan(bucket, key);
      InModel(table, hash, key);
      ModelDelete(table, hash, key);
      DeletePlaced(table, hash, key);
      if i >= 0 {
        table := table[s := bucket[..i] + bucket[i + 1..]];
        removed := true;
      } else {
        assert table[s := bucket] == table;
        removed := false;
      }
    }

    /** True exactly when `key` is stored, which is when `get` finds a value. */
    method Contains(key: K) returns (found: bool)
      requires Valid()
      ensures found <==> key in Contents()
      ensures found <==> Lookup(table[Slot(hash(key), size)], key).Some?
    {
      var bucket := table[hash(key) % size];
      var i := Scan(bucket, key);
      found := i >= 0;
      InModel(table, hash, key);
    }

    /** `size` fresh empty buckets. */
    method Clear()
      requires Valid()
      modifies this
      ensures Valid() && table == EmptyTable(size) && Contents() == map[]
    {
      table := EmptyTable(size);
      ModelEmpty<K, V>(size, hash);
    }
  }
}
