/** What set_add, set_exists, set_remove and set_getall of src/set.c do to a table of keys, and
    how far that is a finite set. */
module SetModel {
  import opened Prelude
  import opened Probing
  import opened Products
  import opened Capacity

  type Keys = Table<()>

  function Exists(t: Keys, hash: Hash, key: Bytes): bool
  {
    Probe(t, hash, key).Hit?
  }

  function Add(t: Keys, hash: Hash, key: Bytes): Option<Keys>
  {
    Write(t, hash, key, ())
  }

  function NewKeys(n: nat): Keys
  {
    seq(n, _ => None)
  }

  // ---------- refinement of a finite set ----------

  ghost function AsMap(s: set<Bytes>): map<Bytes, ()>
  {
    map k | k in s :: ()
  }

  /** The table stands for the finite set s. */
  ghost predicate RefinesSet(t: Keys, hash: Hash, s: set<Bytes>)
  {
    Refines(t, hash, AsMap(s))
  }

  lemma {:induction false} NewKeysRefine(n: nat, hash: Hash)
    ensures RefinesSet(NewKeys(n), hash, {})
  {
  }

  /** set_exists and set_add, where chains are intact. */
  lemma {:induction false} AddRefines(t: Keys, hash: Hash, s: set<Bytes>, key: Bytes)
    requires RefinesSet(t, hash, s)
    ensures Exists(t, hash, key) <==> key in s
    ensures key in s ==> Add(t, hash, key) == Some(t)
    ensures Add(t, hash, key).Some? ==> RefinesSet(Add(t, hash, key).value, hash, s + {key})
  {
    LookupRefines(t, hash, AsMap(s), key);
    AddPresent(t, hash, key);
    if Add(t, hash, key).Some? {
      WriteRefines(t, hash, AsMap(s), key, ());
      assert AsMap(s)[key := ()] == AsMap(s + {key});
    }
  }

  lemma {:induction false} AddPresent(t: Keys, hash: Hash, key: Bytes)
    ensures Exists(t, hash, key) ==> Add(t, hash, key) == Some(t)
  {
    if Exists(t, hash, key) {
      var j := Home(t, hash, key);
      assert t[j].value.val == ();
      assert t[j := Some(Entry(key, ()))] == t;
    }
  }

  /** On a clean cycle set_add fails exactly when the key is new and there is no empty slot. */
  lemma {:induction false} AddFailsIff(t: Keys, hash: Hash, s: set<Bytes>, key: Bytes)
    requires RefinesSet(t, hash, s) && 0 < |t| < TWO_TO_THE_64 && CleanCycle(hash(key), |t|)
    ensures Add(t, hash, key).None? <==> key !in s && Full(t)
  {
    WriteFailsIff(t, hash, AsMap(s), key, ());
  }

  /** set_remove: exactly when the set without the key is what is left. */
  lemma {:induction false} RemoveRefinesSet(t: Keys, hash: Hash, s: set<Bytes>, key: Bytes)
    requires RefinesSet(t, hash, s) && Probe(t, hash, key).Hit?
    ensures RefinesSet(t[Home(t, hash, key) := None], hash, s - {key}) <==> SafeToRemove(t, hash, AsMap(s), key)
  {
    RemoveRefines(t, hash, AsMap(s), key);
    assert AsMap(s) - {key} == AsMap(s - {key});
  }

  // ---------- runs ----------

  datatype Op = Insert(key: Bytes) | Delete(key: Bytes)

  function Apply(t: Keys, hash: Hash, op: Op): Keys
  {
    match op
    case Insert(k) => Add(t, hash, k).GetOr(t)
    case Delete(k) => Remove(t, hash, k).GetOr(t)
  }

  function Run(t: Keys, hash: Hash, ops: seq<Op>): Keys
    decreases |ops|
  {
    if ops == [] then t else Run(Apply(t, hash, ops[0]), hash, ops[1..])
  }

  /** The same operation on a finite set; set_add may fail. */
  function ApplyToSet(t: Keys, hash: Hash, s: set<Bytes>, op: Op): set<Bytes>
  {
    match op
    case Insert(k) => if Add(t, hash, k).Some? then s + {k} else s
    case Delete(k) => s - {k}
  }

  function RunOnSet(t: Keys, hash: Hash, s: set<Bytes>, ops: seq<Op>): set<Bytes>
    decreases |ops|
  {
    if ops == [] then s else RunOnSet(Apply(t, hash, ops[0]), hash, ApplyToSet(t, hash, s, ops[0]), ops[1..])
  }

  /** No removal of the run breaks the probe chain of another key. */
  ghost predicate SafeRun(t: Keys, hash: Hash, s: set<Bytes>, ops: seq<Op>)
    decreases |ops|
  {
    ops == [] ||
    (&& (ops[0].Delete? && Probe(t, hash, ops[0].key).Hit? ==> SafeToRemove(t, hash, AsMap(s), ops[0].key))
     && SafeRun(Apply(t, hash, ops[0]), hash, ApplyToSet(t, hash, s, ops[0]), ops[1..]))
  }

  /** After every operation of the run the table stands for the finite set. */
  ghost predicate AlwaysRefines(t: Keys, hash: Hash, s: set<Bytes>, ops: seq<Op>)
    decreases |ops|
  {
    && RefinesSet(t, hash, s)
    && (ops != [] ==> AlwaysRefines(Apply(t, hash, ops[0]), hash, ApplyToSet(t, hash, s, ops[0]), ops[1..]))
  }

  lemma {:induction false} ApplyRefinesIff(t: Keys, hash: Hash, s: set<Bytes>, op: Op)
    requires RefinesSet(t, hash, s)
    ensures RefinesSet(Apply(t, hash, op), hash, ApplyToSet(t, hash, s, op)) <==>
            (op.Delete? && Probe(t, hash, op.key).Hit? ==> SafeToRemove(t, hash, AsMap(s), op.key))
  {
    AddRefines(t, hash, s, op.key);
    if op.Delete? {
      if Probe(t, hash, op.key).Hit? {
        RemoveRefinesSet(t, hash, s, op.key);
      } else {
        assert s - {op.key} == s;
      }
    }
  }

  /** Exactly the safe runs of set_add and set_remove keep the table equal to the finite set throughout. */
  lemma {:induction false} AlwaysRefinesIff(t: Keys, hash: Hash, s: set<Bytes>, ops: seq<Op>)
    requires RefinesSet(t, hash, s)
    ensures AlwaysRefines(t, hash, s, ops) <==> SafeRun(t, hash, s, ops)
    decreases |ops|
  {
    if ops != [] {
      ApplyRefinesIff(t, hash, s, ops[0]);
      if RefinesSet(Apply(t, hash, ops[0]), hash, ApplyToSet(t, hash, s, ops[0])) {
        AlwaysRefinesIff(Apply(t, hash, ops[0]), hash, ApplyToSet(t, hash, s, ops[0]), ops[1..]);
      }
    }
  }

  /** After a safe run set_exists is membership in the finite set. */
  lemma {:induction false} RunRefines(t: Keys, hash: Hash, s: set<Bytes>, ops: seq<Op>, key: Bytes)
    requires RefinesSet(t, hash, s) && SafeRun(t, hash, s, ops)
    ensures RefinesSet(Run(t, hash, ops), hash, RunOnSet(t, hash, s, ops))
    ensures Exists(Run(t, hash, ops), hash, key) <==> key in RunOnSet(t, hash, s, ops)
    decreases |ops|
  {
    if ops == [] {
      AddRefines(t, hash, s, key);
    } else {
      ApplyRefinesIff(t, hash, s, ops[0]);
      RunRefines(Apply(t, hash, ops[0]), hash, ApplyToSet(t, hash, s, ops[0]), ops[1..], key);
    }
  }

  // ---------- capacity ----------

  /** A finite set that takes at most n keys. */
  function BoundedRun(s: set<Bytes>, n: nat, ops: seq<Op>): set<Bytes>
    decreases |ops|
  {
    if ops == [] then s
    else
      match ops[0]
      case Insert(k) => BoundedRun(if k in s || |s| < n then s + {k} else s, n, ops[1..])
      case Delete(k) => BoundedRun(s - {k}, n, ops[1..])
  }

  /** When no key that the run adds wraps badly, the table is a finite set of bounded capacity. */
  lemma {:induction false} RunIsBoundedSet(t: Keys, hash: Hash, s: set<Bytes>, ops: seq<Op>)
    requires 0 < |t| < TWO_TO_THE_64 && RefinesSet(t, hash, s) && SafeRun(t, hash, s, ops)
    requires forall i :: 0 <= i < |ops| && ops[i].Insert? ==> CleanCycle(hash(ops[i].key), |t|)
    ensures RefinesSet(Run(t, hash, ops), hash, BoundedRun(s, |t|, ops))
    decreases |ops|
  {
    if ops != [] {
      var op := ops[0];
      FullAtCapacity(t, hash, AsMap(s));
      assert AsMap(s).Keys == s;
      ApplyRefinesIff(t, hash, s, op);
      if op.Insert? {
        AddFailsIff(t, hash, s, op.key);
        assert op.key in s ==> s + {op.key} == s;
      }
      RunIsBoundedSet(Apply(t, hash, op), hash, ApplyToSet(t, hash, s, op), ops[1..]);
    }
  }

  /** From set_new: the table has as many slots as were asked for, and a run is one on a finite set that
      takes that many keys. */
  lemma {:induction false} NewSetRun(n: nat, hash: Hash, ops: seq<Op>)
    requires 0 < n < TWO_TO_THE_64 && SafeRun(NewKeys(n), hash, {}, ops)
    requires forall i :: 0 <= i < |ops| && ops[i].Insert? ==> CleanCycle(hash(ops[i].key), n)
    ensures RefinesSet(Run(NewKeys(n), hash, ops), hash, BoundedRun({}, n, ops))
  {
    NewKeysRefine(n, hash);
    RunIsBoundedSet(NewKeys(n), hash, {}, ops);
  }

  // ---------- set_getall ----------

  /** The stored keys in slot order. */
  function InOrder(t: Keys): seq<Bytes>
  {
    if t == [] then []
    else (if t[0].Some? then [t[0].value.key] else []) + InOrder(t[1..])
  }

  /** What set_getall returns for keys that are not empty: NULL for an empty set. */
  function Joined(t: Keys): Option<Bytes>
  {
    if InOrder(t) == [] then None else Some(Concat(InOrder(t)))
  }

  /** What a caller does with the buffer when every key has n bytes. */
  function Chunks(b: Bytes, n: nat): seq<Bytes>
    requires n > 0
    decreases |b|
  {
    if |b| < n then [] else [b[..n]] + Chunks(b[n..], n)
  }

  predicate AllOfLength(keys: seq<Bytes>, n: nat)
  {
    forall i :: 0 <= i < |keys| ==> |keys[i]| == n
  }

  lemma {:induction false} ChunksOfConcat(keys: seq<Bytes>, n: nat)
    requires n > 0 && AllOfLength(keys, n)
    ensures Chunks(Concat(keys), n) == keys
    decreases |keys|
  {
    if keys != [] {
      ChunksOfConcat(keys[1..], n);
      assert Concat(keys)[..n] == keys[0] && Concat(keys)[n..] == Concat(keys[1..]);
    }
  }

  lemma {:induction false} ConcatLength(keys: seq<Bytes>, n: nat)
    requires AllOfLength(keys, n)
    ensures |Concat(keys)| == |keys| * n
    decreases |keys|
  {
    if keys != [] {
      ConcatLength(keys[1..], n);
      Distribute(|keys| - 1, n);
    }
  }

  lemma {:induction false} InOrderKeys(t: Keys, key: Bytes)
    ensures key in InOrder(t) <==> Some(Entry(key, ())) in t
  {
    if t != [] {
      InOrderKeys(t[1..], key);
      assert t == [t[0]] + t[1..];
      assert t[0].Some? ==> t[0].value.val == ();
    }
  }

  ghost predicate DistinctKeys(t: Keys)
  {
    forall i, j :: 0 <= i < j < |t| && t[i].Some? && t[j].Some? ==> t[i].value.key != t[j].value.key
  }

  lemma {:induction false} InOrderDistinct(t: Keys)
    requires DistinctKeys(t)
    ensures forall i, j :: 0 <= i < j < |InOrder(t)| ==> InOrder(t)[i] != InOrder(t)[j]
  {
    if t != [] {
      assert DistinctKeys(t[1..]);
      InOrderDistinct(t[1..]);
      if t[0].Some? {
        InOrderKeys(t[1..], t[0].value.key);
        assert t[0].value.key !in InOrder(t[1..]);
      }
    }
  }

  /** The keys that are put together are those of the set, each once. */
  lemma {:induction false} InOrderIsSet(t: Keys, hash: Hash, s: set<Bytes>)
    requires RefinesSet(t, hash, s)
    ensures forall k :: k in InOrder(t) <==> k in s
    ensures forall i, j :: 0 <= i < j < |InOrder(t)| ==> InOrder(t)[i] != InOrder(t)[j]
  {
    forall k ensures k in InOrder(t) <==> k in s {
      InOrderKeys(t, k);
      assert Holds(t, k, ()) <==> k in AsMap(s);
    }
    forall i, j | 0 <= i < j < |t| && t[i].Some? && t[j].Some? ensures t[i].value.key != t[j].value.key {
      OnlyHome(t, hash, t[i].value.key);
    }
    InOrderDistinct(t);
  }

  /** The answer of set_getall is NULL exactly for an empty table, and otherwise it is the keys of the
      slots, one after the other, whatever their lengths. */
  lemma {:induction false} JoinedIs(t: Keys)
    ensures Joined(t).None? <==> forall j :: 0 <= j < |t| ==> t[j].None?
    ensures Joined(t).Some? ==> Joined(t).value == Concat(InOrder(t))
  {
    if InOrder(t) != [] {
      InOrderKeys(t, InOrder(t)[0]);
    }
    forall j | 0 <= j < |t| && t[j].Some? ensures InOrder(t) != [] {
      assert t[j].value.val == ();
      InOrderKeys(t, t[j].value.key);
    }
  }

  /** Tables one behind the other: the keys come in slot order. */
  lemma {:induction false} InOrderAppend(t: Keys, u: Keys)
    ensures InOrder(t + u) == InOrder(t) + InOrder(u)
    decreases |t|
  {
    if t == [] {
      assert t + u == u;
    } else {
      InOrderAppend(t[1..], u);
      assert (t + u)[1..] == t[1..] + u;
    }
  }

  lemma {:induction false} InOrderOne(k: Bytes)
    ensures InOrder([None]) == [] && InOrder([Some(Entry(k, ()))]) == [k]
  {
    var free: Keys, taken: Keys := [None], [Some(Entry(k, ()))];
    assert free[1..] == [] && taken[1..] == [];
  }

  /** Round trip: set_getall answers NULL exactly for the empty set; from a set whose keys all have
      n > 0 bytes, cutting its answer into n-byte chunks gives back the keys, each once. */
  lemma {:induction false} GetAllRoundTrip(t: Keys, hash: Hash, s: set<Bytes>, n: nat)
    requires RefinesSet(t, hash, s) && n > 0 && forall k :: k in s ==> |k| == n
    ensures Joined(t).None? <==> s == {}
    ensures Joined(t).Some? ==>
              var keys := Chunks(Joined(t).value, n);
              && (forall k :: k in keys <==> k in s)
              && (forall i, j :: 0 <= i < j < |keys| ==> keys[i] != keys[j])
              && |Joined(t).value| == |keys| * n
  {
    InOrderIsSet(t, hash, s);
    if InOrder(t) != [] {
      assert InOrder(t)[0] in s;
    }
    assert forall i :: 0 <= i < |InOrder(t)| ==> InOrder(t)[i] in s;
    ChunksOfConcat(InOrder(t), n);
    ConcatLength(InOrder(t), n);
  }

  lemma {:induction false} OneMore(t: Keys, i: nat)
    requires i < |t|
    ensures InOrder(t[..i + 1]) ==
            if t[i].Some? then InOrder(t[..i]) + [t[i].value.key] else InOrder(t[..i])
  {
    if i == 0 {
      assert t[..1] == [t[0]] && [t[0]][1..] == [] && t[..0] == [];
    } else {
      OneMore(t[1..], i - 1);
      assert t[..i + 1][1..] == t[1..][..i] && t[..i][1..] == t[1..][..i - 1];
    }
  }

  lemma {:induction false} ConcatAppend(keys: seq<Bytes>, k: Bytes)
    ensures Concat(keys + [k]) == Concat(keys) + k
  {
    if keys != [] {
      ConcatAppend(keys[1..], k);
      assert (keys + [k])[1..] == keys[1..] + [k];
    } else {
      assert ([k])[1..] == [];
    }
  }

  /** One turn of the loop of set_getall. */
  lemma {:induction false} JoinedNext(t: Keys, i: nat)
    requires i < |t|
    ensures var before, now := InOrder(t[..i]), InOrder(t[..i + 1]);
            && (t[i].None? ==> now == before && Joined(t[..i + 1]) == Joined(t[..i]))
            && (t[i].Some? ==>
                  && |Concat(now)| == |Concat(before)| + |t[i].value.key|
                  && Joined(t[..i + 1]) ==
                     Some(if before == [] then t[i].value.key else Concat(before) + t[i].value.key))
  {
    OneMore(t, i);
    if t[i].Some? {
      var before, key := InOrder(t[..i]), t[i].value.key;
      ConcatAppend(before, key);
      assert before == [] ==> Concat(before) + key == key;
    }
  }
}
