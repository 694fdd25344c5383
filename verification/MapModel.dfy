/** What map_set, map_get, map_exists and map_del of src/map.c do to a table of buckets, and
    how far that is a finite map. */
module MapModel {
  import opened Prelude
  import opened Probing
  import opened Capacity

  /** The value part of a bucket_t: the length recorded when the bucket was made, and the bytes
      in its data buffer. */
  datatype Stored = Stored(size: nat, data: Bytes)

  /** What map_get gives back: NULL, a copy of the value, the exit taken for a bucket without data,
      or nothing that the code defines, when it copies beyond the data. */
  datatype Answer = Missing | Value(data: Bytes) | Exited | Undefined

  /** Has data, and at least as much as was recorded.  A bucket made for an empty value has a NULL
      data pointer, which is an empty buffer here. */
  predicate Sized(v: Stored)
  {
    v.data != [] && v.size <= |v.data|
  }

  /** bucket_new */
  function NewBucket(data: Bytes): Stored
  {
    Stored(|data|, data)
  }

  /** bucket_update: the buffer is reallocated only if the length differs from the recorded one,
      and the recorded length stays as it was. */
  function Updated(before: Stored, data: Bytes): Stored
  {
    if |data| == before.size && |before.data| > |data|
    then Stored(before.size, data + before.data[|data|..])
    else Stored(before.size, data)
  }

  /** When the code defines bucket_update: data of the recorded length are written over the old
      buffer, which an earlier, shorter update has made too small, and a buffer is not reallocated
      to no bytes at all. */
  predicate Updatable(before: Stored, data: Bytes)
  {
    (|data| == before.size ==> |data| <= |before.data|) && (data == [] ==> before.size == 0)
  }

  /** bucket_data */
  function Copy(v: Stored): Answer
  {
    if v.data == [] then Exited else if v.size <= |v.data| then Value(v.data[..v.size]) else Undefined
  }

  // ---------- the operations on a table ----------

  function Get(t: Table<Stored>, hash: Hash, key: Bytes): Answer
  {
    if Probe(t, hash, key).Hit? then Copy(t[Home(t, hash, key)].value.val) else Missing
  }

  function Exists(t: Table<Stored>, hash: Hash, key: Bytes): bool
  {
    Probe(t, hash, key).Hit?
  }

  function Set(t: Table<Stored>, hash: Hash, key: Bytes, data: Bytes): Option<Table<Stored>>
  {
    Write(t, hash, key,
          if Probe(t, hash, key).Hit? then Updated(t[Home(t, hash, key)].value.val, data) else NewBucket(data))
  }

  /** When the code defines map_set. */
  predicate Settable(t: Table<Stored>, hash: Hash, key: Bytes, data: Bytes)
  {
    Exists(t, hash, key) ==> Updatable(t[Home(t, hash, key)].value.val, data)
  }

  function Del(t: Table<Stored>, hash: Hash, key: Bytes): Option<Table<Stored>>
  {
    Remove(t, hash, key)
  }

  // ---------- laws of one key, in every table ----------

  /** What was set is what is got, unless the key was already there with a value of another
      recorded length, or an empty value meets a bucket without data: exactly then map_get does not
      return the new value. */
  lemma {:induction false} SetThenGet(t: Table<Stored>, hash: Hash, key: Bytes, data: Bytes)
    requires Set(t, hash, key, data).Some? && Settable(t, hash, key, data)
    ensures var t' := Set(t, hash, key, data).value;
            && Exists(t', hash, key)
            && (Get(t', hash, key) == Value(data) <==>
                if Exists(t, hash, key)
                then var before := t[Home(t, hash, key)].value.val;
                     before.size == |data| && (data != [] || before.data != [])
                else data != [])
  {
    var v := if Probe(t, hash, key).Hit? then Updated(t[Home(t, hash, key)].value.val, data) else NewBucket(data);
    WriteOwn(t, hash, key, v);
    assert v.data[..|data|] == data;
  }

  /** After an update with a longer value the new value comes back cut to the recorded length. */
  lemma {:induction false} LongerUpdateIsCut(t: Table<Stored>, hash: Hash, key: Bytes, data: Bytes)
    requires Exists(t, hash, key) && t[Home(t, hash, key)].value.val.size < |data|
    ensures Set(t, hash, key, data).Some?
    ensures Get(Set(t, hash, key, data).value, hash, key) == Value(data[..t[Home(t, hash, key)].value.val.size])
  {
    WriteOwn(t, hash, key, Updated(t[Home(t, hash, key)].value.val, data));
  }

  /** After an update with a shorter value map_get reads beyond the buffer. */
  lemma {:induction false} ShorterUpdateIsUndefined(t: Table<Stored>, hash: Hash, key: Bytes, data: Bytes)
    requires Exists(t, hash, key) && data != [] && |data| < t[Home(t, hash, key)].value.val.size
    ensures Set(t, hash, key, data).Some?
    ensures Get(Set(t, hash, key, data).value, hash, key) == Undefined
  {
    WriteOwn(t, hash, key, Updated(t[Home(t, hash, key)].value.val, data));
  }

  /** A new key with an empty value makes map_get leave the program. */
  lemma {:induction false} EmptyValueExits(t: Table<Stored>, hash: Hash, key: Bytes)
    requires !Exists(t, hash, key) && Set(t, hash, key, []).Some?
    ensures Get(Set(t, hash, key, []).value, hash, key) == Exited
  {
    WriteOwn(t, hash, key, NewBucket([]));
  }

  lemma {:induction false} DelThenGone(t: Table<Stored>, hash: Hash, key: Bytes)
    requires Del(t, hash, key).Some?
    ensures var t' := Del(t, hash, key).value;
            !Exists(t', hash, key) && Get(t', hash, key) == Missing && Del(t', hash, key).None?
  {
    RemoveOwn(t, hash, key);
  }

  // ---------- refinement of a finite map ----------

  /** The value that map_set leaves under a key. */
  function Assigned(m: map<Bytes, Stored>, key: Bytes, data: Bytes): Stored
  {
    if key in m then Updated(m[key], data) else NewBucket(data)
  }

  lemma {:induction false} SetRefines(t: Table<Stored>, hash: Hash, m: map<Bytes, Stored>, key: Bytes, data: Bytes)
    requires Refines(t, hash, m) && Set(t, hash, key, data).Some?
    ensures Refines(Set(t, hash, key, data).value, hash, m[key := Assigned(m, key, data)])
  {
    LookupRefines(t, hash, m, key);
    WriteRefines(t, hash, m, key, Assigned(m, key, data));
  }

  lemma {:induction false} GetRefines(t: Table<Stored>, hash: Hash, m: map<Bytes, Stored>, key: Bytes)
    requires Refines(t, hash, m)
    ensures Exists(t, hash, key) <==> key in m
    ensures Get(t, hash, key) == if key in m then Copy(m[key]) else Missing
  {
    LookupRefines(t, hash, m, key);
  }

  // ---------- runs ----------

  datatype Op = Put(key: Bytes, data: Bytes) | Delete(key: Bytes)

  function Apply(t: Table<Stored>, hash: Hash, op: Op): Table<Stored>
  {
    match op
    case Put(k, d) => Set(t, hash, k, d).GetOr(t)
    case Delete(k) => Del(t, hash, k).GetOr(t)
  }

  function Run(t: Table<Stored>, hash: Hash, ops: seq<Op>): Table<Stored>
    decreases |ops|
  {
    if ops == [] then t else Run(Apply(t, hash, ops[0]), hash, ops[1..])
  }

  /** The same operation on a finite map; `ok` says whether map_set succeeded. */
  function ApplyToMap(m: map<Bytes, Stored>, op: Op, ok: bool): map<Bytes, Stored>
  {
    match op
    case Put(k, d) => if ok then m[k := Assigned(m, k, d)] else m
    case Delete(k) => m - {k}
  }

  function Succeeds(t: Table<Stored>, hash: Hash, op: Op): bool
  {
    op.Put? ==> Set(t, hash, op.key, op.data).Some?
  }

  function RunOnMap(t: Table<Stored>, hash: Hash, m: map<Bytes, Stored>, ops: seq<Op>): map<Bytes, Stored>
    decreases |ops|
  {
    if ops == [] then m else
      RunOnMap(Apply(t, hash, ops[0]), hash, ApplyToMap(m, ops[0], Succeeds(t, hash, ops[0])), ops[1..])
  }

  ghost predicate AllSized(m: map<Bytes, Stored>)
  {
    forall k :: k in m ==> Sized(m[k])
  }

  /** What the source demands of one operation: values are not empty, and no update is shorter
      than the length recorded for its key. */
  predicate Admissible(m: map<Bytes, Stored>, op: Op)
  {
    op.Put? ==> op.data != [] && (op.key in m ==> m[op.key].size <= |op.data|)
  }

  predicate AdmissibleRun(t: Table<Stored>, hash: Hash, m: map<Bytes, Stored>, ops: seq<Op>)
    decreases |ops|
  {
    ops == [] ||
    (&& Admissible(m, ops[0])
     && AdmissibleRun(Apply(t, hash, ops[0]), hash, ApplyToMap(m, ops[0], Succeeds(t, hash, ops[0])), ops[1..]))
  }

  /** No deletion of the run breaks the probe chain of another key. */
  ghost predicate SafeRun(t: Table<Stored>, hash: Hash, m: map<Bytes, Stored>, ops: seq<Op>)
    decreases |ops|
  {
    ops == [] ||
    (&& (ops[0].Delete? && Probe(t, hash, ops[0].key).Hit? ==> SafeToRemove(t, hash, m, ops[0].key))
     && SafeRun(Apply(t, hash, ops[0]), hash, ApplyToMap(m, ops[0], Succeeds(t, hash, ops[0])), ops[1..]))
  }

  /** After every operation of the run the table stands for the finite map. */
  ghost predicate AlwaysRefines(t: Table<Stored>, hash: Hash, m: map<Bytes, Stored>, ops: seq<Op>)
    decreases |ops|
  {
    && Refines(t, hash, m)
    && (ops != [] ==>
          AlwaysRefines(Apply(t, hash, ops[0]), hash, ApplyToMap(m, ops[0], Succeeds(t, hash, ops[0])), ops[1..]))
  }

  lemma {:induction false} ApplyRefines(t: Table<Stored>, hash: Hash, m: map<Bytes, Stored>, op: Op)
    requires Refines(t, hash, m)
    requires op.Delete? && Probe(t, hash, op.key).Hit? ==> SafeToRemove(t, hash, m, op.key)
    ensures Refines(Apply(t, hash, op), hash, ApplyToMap(m, op, Succeeds(t, hash, op)))
    ensures |Apply(t, hash, op)| == |t|
  {
    match op
    case Put(k, d) =>
      if Set(t, hash, k, d).Some? {
        SetRefines(t, hash, m, k, d);
      }
    case Delete(k) =>
      LookupRefines(t, hash, m, k);
      if Probe(t, hash, k).Hit? {
        RemoveRefines(t, hash, m, k);
      } else {
        assert m - {k} == m;
      }
  }

  lemma {:induction false} ApplySized(m: map<Bytes, Stored>, op: Op, ok: bool)
    requires AllSized(m) && Admissible(m, op)
    ensures AllSized(ApplyToMap(m, op, ok))
  {
  }

  /** Exactly the safe runs keep the table equal to the finite map throughout. */
  lemma {:induction false} AlwaysRefinesIff(t: Table<Stored>, hash: Hash, m: map<Bytes, Stored>, ops: seq<Op>)
    requires Refines(t, hash, m)
    ensures AlwaysRefines(t, hash, m, ops) <==> SafeRun(t, hash, m, ops)
    decreases |ops|
  {
    if ops != [] {
      var op := ops[0];
      if op.Delete? && Probe(t, hash, op.key).Hit? {
        RemoveRefines(t, hash, m, op.key);
      } else {
        ApplyRefines(t, hash, m, op);
      }
      var t', m' := Apply(t, hash, op), ApplyToMap(m, op, Succeeds(t, hash, op));
      if Refines(t', hash, m') {
        AlwaysRefinesIff(t', hash, m', ops[1..]);
      }
    }
  }

  /** Refinement over every run without a chain-breaking deletion, for every hash, with or without
      wrap-around: map_exists and map_get agree with the finite map on all keys, and map_get
      always returns a value for a stored key. */
  lemma {:induction false} RunRefines(t: Table<Stored>, hash: Hash, m: map<Bytes, Stored>, ops: seq<Op>, key: Bytes)
    requires Refines(t, hash, m) && AllSized(m) && SafeRun(t, hash, m, ops) && AdmissibleRun(t, hash, m, ops)
    ensures Refines(Run(t, hash, ops), hash, RunOnMap(t, hash, m, ops))
    ensures Exists(Run(t, hash, ops), hash, key) <==> key in RunOnMap(t, hash, m, ops)
    ensures Get(Run(t, hash, ops), hash, key) ==
            if key in RunOnMap(t, hash, m, ops) then Copy(RunOnMap(t, hash, m, ops)[key]) else Missing
    ensures Get(Run(t, hash, ops), hash, key).Missing? || Get(Run(t, hash, ops), hash, key).Value?
    decreases |ops|
  {
    if ops == [] {
      GetRefines(t, hash, m, key);
    } else {
      ApplyRefines(t, hash, m, ops[0]);
      ApplySized(m, ops[0], Succeeds(t, hash, ops[0]));
      RunRefines(Apply(t, hash, ops[0]), hash, ApplyToMap(m, ops[0], Succeeds(t, hash, ops[0])), ops[1..], key);
    }
  }

  // ---------- runs with one length for each key ----------

  /** What an operation does to a plain finite map; `ok` says whether map_set succeeded. */
  function ApplyPlain(p: map<Bytes, Bytes>, op: Op, ok: bool): map<Bytes, Bytes>
  {
    match op
    case Put(k, d) => if ok then p[k := d] else p
    case Delete(k) => p - {k}
  }

  /** The plain finite map that a run should behave as. */
  function RunPlain(t: Table<Stored>, hash: Hash, p: map<Bytes, Bytes>, ops: seq<Op>): map<Bytes, Bytes>
    decreases |ops|
  {
    if ops == [] then p else
      RunPlain(Apply(t, hash, ops[0]), hash, ApplyPlain(p, ops[0], Succeeds(t, hash, ops[0])), ops[1..])
  }

  ghost predicate Exact(m: map<Bytes, Stored>, p: map<Bytes, Bytes>, len: Bytes -> nat)
  {
    m.Keys == p.Keys && forall k :: k in m ==> m[k] == Stored(len(k), p[k]) && |p[k]| == len(k) > 0
  }

  /** Safe runs whose values have one length for each key, and every hash: map_get returns the value
      last set successfully and not deleted since, and NULL for every other key. */
  lemma {:induction false} EqualLengthRun(t: Table<Stored>, hash: Hash, m: map<Bytes, Stored>, p: map<Bytes, Bytes>,
                                          len: Bytes -> nat, ops: seq<Op>, key: Bytes)
    requires Refines(t, hash, m) && Exact(m, p, len) && SafeRun(t, hash, m, ops)
    requires forall i :: 0 <= i < |ops| && ops[i].Put? ==> |ops[i].data| == len(ops[i].key) > 0
    ensures Get(Run(t, hash, ops), hash, key) ==
            if key in RunPlain(t, hash, p, ops) then Value(RunPlain(t, hash, p, ops)[key]) else Missing
    decreases |ops|
  {
    if ops == [] {
      GetRefines(t, hash, m, key);
      if key in p {
        assert p[key][..len(key)] == p[key];
      }
    } else {
      var op := ops[0];
      var ok := Succeeds(t, hash, op);
      ApplyRefines(t, hash, m, op);
      assert Exact(ApplyToMap(m, op, ok), ApplyPlain(p, op, ok), len);
      EqualLengthRun(Apply(t, hash, op), hash, ApplyToMap(m, op, ok), ApplyPlain(p, op, ok), len, ops[1..], key);
    }
  }

  /** Without deletions every run is safe. */
  lemma {:induction false} PutsAreSafe(t: Table<Stored>, hash: Hash, m: map<Bytes, Stored>, ops: seq<Op>)
    requires forall i :: 0 <= i < |ops| ==> ops[i].Put?
    ensures SafeRun(t, hash, m, ops)
    decreases |ops|
  {
    if ops != [] {
      PutsAreSafe(Apply(t, hash, ops[0]), hash, ApplyToMap(m, ops[0], Succeeds(t, hash, ops[0])), ops[1..]);
    }
  }

  // ---------- capacity ----------

  /** A finite map that takes at most n keys. */
  function BoundedRun(m: map<Bytes, Stored>, n: nat, ops: seq<Op>): map<Bytes, Stored>
    decreases |ops|
  {
    if ops == [] then m else
      BoundedRun(ApplyToMap(m, ops[0], ops[0].key in m || |m| < n), n, ops[1..])
  }

  /** When no hash wraps badly, the table is a finite map of bounded capacity: which map_set
      fails depends on nothing but the number of keys. */
  lemma {:induction false} RunIsBoundedMap(t: Table<Stored>, hash: Hash, m: map<Bytes, Stored>, ops: seq<Op>)
    requires 0 < |t| < TWO_TO_THE_64 && Refines(t, hash, m) && SafeRun(t, hash, m, ops)
    requires forall i :: 0 <= i < |ops| && ops[i].Put? ==> CleanCycle(hash(ops[i].key), |t|)
    ensures Refines(Run(t, hash, ops), hash, BoundedRun(m, |t|, ops))
    decreases |ops|
  {
    if ops != [] {
      var op := ops[0];
      FullAtCapacity(t, hash, m);
      if op.Put? {
        WriteFailsIff(t, hash, m, op.key, Assigned(m, op.key, op.data));
        LookupRefines(t, hash, m, op.key);
      }
      ApplyRefines(t, hash, m, op);
      RunIsBoundedMap(Apply(t, hash, op), hash, ApplyToMap(m, op, Succeeds(t, hash, op)), ops[1..]);
    }
  }

  /** From map_new: the table has as many slots as were asked for, and a safe run is one on a finite map
      that takes that many keys. */
  lemma {:induction false} NewMapRun(n: nat, hash: Hash, ops: seq<Op>)
    requires 0 < n < TWO_TO_THE_64 && SafeRun(NewTable(n), hash, map[], ops)
    requires forall i :: 0 <= i < |ops| && ops[i].Put? ==> CleanCycle(hash(ops[i].key), n)
    ensures Refines(Run(NewTable(n), hash, ops), hash, BoundedRun(map[], n, ops))
  {
    NewTableRefines(n, hash);
    RunIsBoundedMap(NewTable(n), hash, map[], ops);
  }

  /** A table fresh from map_new. */
  function NewTable(n: nat): Table<Stored>
  {
    seq(n, _ => None)
  }

  lemma {:induction false} NewTableRefines(n: nat, hash: Hash)
    ensures Refines(NewTable(n), hash, map[])
  {
  }
}
