/** src/set.c as it runs: probe loops over an array of slots.  Each operation is proved against
    module SetModel. */
module HashSet {
  import opened Prelude
  import opened Probing
  import SetModel

  class Set {
    const hash: Hash
    const buckets: array<Option<Bytes>>
    ghost var table: SetModel.Keys
    ghost const Repr: set<object>

    /** A bucket of a set is never changed once it is made, so a slot holds just its key. */
    ghost predicate Valid()
      reads Repr
    {
      && Repr == {this, buckets} && buckets.Length == |table| < TWO_TO_THE_64
      && forall j :: 0 <= j < |table| ==>
           table[j] == if buckets[j].None? then None else Some(Entry(buckets[j].value, ()))
    }

    /** set_new */
    constructor (n: nat, hash: Hash)
      requires n < TWO_TO_THE_64
      ensures Valid() && fresh(Repr) && this.hash == hash && table == SetModel.NewKeys(n)
    {
      this.hash := hash;
      var slots := new Option<Bytes>[n](_ => None);
      buckets := slots;
      table := SetModel.NewKeys(n);
      Repr := {this, slots};
    }

    /** set_exists */
    method Exists(key: Bytes) returns (found: bool)
      requires Valid()
      ensures found == SetModel.Exists(table, hash, key)
    {
      var keyHashed, n := hash(key), buckets.Length;
      var i := 0;
      while i < n
        invariant i <= n == |table|
        invariant Probe(table, hash, key) == ProbeFrom(table, keyHashed, key, i)
      {
        var j := ((keyHashed + i) % TWO_TO_THE_64) % n;
        if buckets[j].None? {
          return false;
        }
        if buckets[j].value == key {
          return true;
        }
        i := i + 1;
      }
      return false;
    }

    /** set_add */
    method Add(key: Bytes) returns (ret: int)
      requires Valid()
      modifies Repr
      ensures Valid()
      ensures ret == if SetModel.Add(old(table), hash, key).Some? then 0 else -1
      ensures table == SetModel.Add(old(table), hash, key).GetOr(old(table))
    {
      var keyHashed, n := hash(key), buckets.Length;
      var i := 0;
      while i < n
        invariant i <= n == |table| && table == old(table) && Valid()
        invariant Probe(table, hash, key) == ProbeFrom(table, keyHashed, key, i)
      {
        var j := ((keyHashed + i) % TWO_TO_THE_64) % n;
        if buckets[j].Some? {
          if buckets[j].value == key {
            SetModel.AddPresent(table, hash, key);
            return 0;
          }
        } else {
          assert Probe(table, hash, key) == Empty(i) && j == At(table, hash, key, i);
          buckets[j] := Some(key);
          table := table[j := Some(Entry(key, ()))];
          return 0;
        }
        i := i + 1;
      }
      return -1;
    }

    /** set_remove */
    method Remove(key: Bytes) returns (ret: int)
      requires Valid()
      modifies Repr
      ensures Valid()
      ensures ret == if Probing.Remove(old(table), hash, key).Some? then 0 else -1
      ensures table == Probing.Remove(old(table), hash, key).GetOr(old(table))
    {
      var keyHashed, n := hash(key), buckets.Length;
      var i := 0;
      while i < n
        invariant i <= n == |table| && table == old(table) && Valid()
        invariant Probe(table, hash, key) == ProbeFrom(table, keyHashed, key, i)
      {
        var j := ((keyHashed + i) % TWO_TO_THE_64) % n;
        if buckets[j].None? {
          return -1;
        }
        if buckets[j].value == key {
          buckets[j] := None;
          table := table[j := None];
          return 0;
        }
        i := i + 1;
      }
      return -1;
    }

    /** set_getall: the stored keys one after the other, None standing for NULL.  `exited` says that
        the code leaves the program instead, in bucket_key for an empty key. */
    method GetAll() returns (data: Option<Bytes>, overall: nat, exited: bool)
      requires Valid()
      ensures exited <==> Holds(table, [], ())
      ensures !exited ==> data == SetModel.Joined(table) && overall == |Concat(SetModel.InOrder(table))|
      ensures !exited ==> (data.None? <==> forall j :: 0 <= j < |table| ==> table[j].None?)
      ensures !exited && data.Some? ==> data.value == Concat(SetModel.InOrder(table)) && overall == |data.value|
    {
      data, overall, exited := None, 0, false;
      var i, n := 0, buckets.Length;
      while i < n
        invariant i <= n == |table|
        invariant !exited && data == SetModel.Joined(table[..i])
        invariant overall == |Concat(SetModel.InOrder(table[..i]))|
        invariant forall j :: 0 <= j < i ==> table[j] != Some(Entry([], ()))
      {
        SetModel.JoinedNext(table, i);
        if buckets[i].Some? {
          var key := buckets[i].value;
          if key == [] {
            assert table[i] == Some(Entry([], ()));
            return None, 0, true;
          }
          if data.None? {
            data := Some(key);
          } else {
            data := Some(data.value + key);
          }
          overall := overall + |key|;
        }
        i := i + 1;
      }
      assert table[..n] == table;
      SetModel.JoinedIs(table);
    }
  }
}
