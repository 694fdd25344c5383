/** src/map.c as it runs: probe loops over an array of buckets that are made, updated in place
    and destroyed.  Each operation is proved against module MapModel. */
module HashMap {
  import opened Prelude
  import opened Probing
  import MapModel

  class Bucket {
    const key: Bytes
    const size: nat
    var data: Bytes

    /** bucket_new */
    constructor (key: Bytes, data: Bytes)
      ensures this.key == key && size == |data| && this.data == data
    {
      this.key, size, this.data := key, |data|, data;
    }

    ghost function Content(): Entry<MapModel.Stored>
      reads this
    {
      Entry(key, MapModel.Stored(size, data))
    }

    /** bucket_haskey */
    predicate HasKey(k: Bytes)
    {
      |key| == |k| && key == k
    }

    /** bucket_update */
    method Update(d: Bytes)
      requires MapModel.Updatable(Content().val, d)
      modifies this
      ensures Content() == Entry(key, MapModel.Updated(MapModel.Stored(size, old(data)), d))
    {
      if |d| != size {
        data := d;
      } else {
        data := if |data| > |d| then d + data[|d|..] else d;
      }
    }

    /** bucket_data; None stands for the exit. */
    method Copy() returns (d: Option<Bytes>)
      requires MapModel.Copy(Content().val) != MapModel.Undefined
      ensures MapModel.Copy(Content().val) == if d.Some? then MapModel.Value(d.value) else MapModel.Exited
    {
      if data == [] {
        return None;
      }
      return Some(data[..size]);
    }
  }

  class Map {
    const hash: Hash
    const buckets: array<Bucket?>
    ghost var table: Table<MapModel.Stored>
    ghost var Repr: set<object>

    /** The buckets of the map are its own, one for each occupied slot, and `table` is what they
        hold. */
    ghost predicate Valid()
      reads this, Repr
    {
      && this in Repr && buckets in Repr
      && buckets.Length == |table| < TWO_TO_THE_64
      && (forall j :: 0 <= j < |table| ==> (buckets[j] == null <==> table[j].None?))
      && (forall j :: 0 <= j < |table| && buckets[j] != null ==>
            buckets[j] in Repr && Some(buckets[j].Content()) == table[j])
      && (forall i, j :: 0 <= i < j < |table| && buckets[i] != null ==> buckets[i] != buckets[j])
    }

    /** map_new */
    constructor (n: nat, hash: Hash)
      requires n < TWO_TO_THE_64
      ensures Valid() && fresh(Repr) && this.hash == hash && table == MapModel.NewTable(n)
    {
      this.hash := hash;
      var slots := new Bucket?[n](_ => null);
      buckets := slots;
      table := MapModel.NewTable(n);
      Repr := {this, slots};
    }

    /** map_exists */
    method Exists(key: Bytes) returns (found: bool)
      requires Valid()
      ensures found == MapModel.Exists(table, hash, key)
    {
      var keyHashed, n := hash(key), buckets.Length;
      var i := 0;
      while i < n
        invariant i <= n == |table|
        invariant Probe(table, hash, key) == ProbeFrom(table, keyHashed, key, i)
      {
        var j := ((keyHashed + i) % TWO_TO_THE_64) % n;
        if buckets[j] == null {
          return false;
        }
        if buckets[j].HasKey(key) {
          return true;
        }
        i := i + 1;
      }
      return false;
    }

    /** map_get; `exited` stands for the exit in bucket_data.  A bucket whose buffer is shorter than the
        recorded length is read beyond its end; no admissible run makes one. */
    method Get(key: Bytes) returns (r: Option<Bytes>, exited: bool)
      requires Valid()
      requires MapModel.Get(table, hash, key) != MapModel.Undefined
      ensures MapModel.Get(table, hash, key) ==
              if exited then MapModel.Exited else if r.Some? then MapModel.Value(r.value) else MapModel.Missing
    {
      var keyHashed, n := hash(key), buckets.Length;
      var i := 0;
      while i < n
        invariant i <= n == |table|
        invariant Probe(table, hash, key) == ProbeFrom(table, keyHashed, key, i)
      {
        var j := ((keyHashed + i) % TWO_TO_THE_64) % n;
        if buckets[j] == null {
          return None, false;
        }
        if buckets[j].HasKey(key) {
          r := buckets[j].Copy();
          return r, r.None?;
        }
        i := i + 1;
      }
      return None, false;
    }

    /** map_set */
    method Set(key: Bytes, data: Bytes) returns (ret: int)
      requires Valid() && MapModel.Settable(table, hash, key, data)
      modifies Repr
      ensures Valid() && fresh(Repr - old(Repr))
      ensures ret == if MapModel.Set(old(table), hash, key, data).Some? then 0 else -1
      ensures table == MapModel.Set(old(table), hash, key, data).GetOr(old(table))
    {
      var keyHashed, n := hash(key), buckets.Length;
      var i := 0;
      while i < n
        invariant i <= n == |table| && table == old(table) && Valid() && Repr == old(Repr)
        invariant Probe(table, hash, key) == ProbeFrom(table, keyHashed, key, i)
      {
        var j := ((keyHashed + i) % TWO_TO_THE_64) % n;
        if buckets[j] != null {
          if buckets[j].HasKey(key) {
            buckets[j].Update(data);
            table := table[j := Some(buckets[j].Content())];
            return 0;
          }
        } else {
          var bucket := new Bucket(key, data);
          buckets[j] := bucket;
          table := table[j := Some(bucket.Content())];
          Repr := Repr + {bucket};
          return 0;
        }
        i := i + 1;
      }
      return -1;
    }

    /** map_del */
    method Del(key: Bytes) returns (ret: int)
      requires Valid()
      modifies this, buckets
      ensures Valid() && Repr == old(Repr)
      ensures ret == if MapModel.Del(old(table), hash, key).Some? then 0 else -1
      ensures table == MapModel.Del(old(table), hash, key).GetOr(old(table))
    {
      var keyHashed, n := hash(key), buckets.Length;
      var i := 0;
      while i < n
        invariant i <= n == |table| && table == old(table) && Valid() && Repr == old(Repr)
        invariant Probe(table, hash, key) == ProbeFrom(table, keyHashed, key, i)
      {
        var j := ((keyHashed + i) % TWO_TO_THE_64) % n;
        if buckets[j] == null {
          return -1;
        }
        if buckets[j].HasKey(key) {
          buckets[j] := null;
          table := table[j := None];
          return 0;
        }
        i := i + 1;
      }
      return -1;
    }
  }
}
