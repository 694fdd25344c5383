/** How many keys a table holds. */
module Capacity {
  import opened Prelude
  import opened Probing

  /** The keys stored in the first k slots. */
  ghost function KeysUpTo<V>(t: Table<V>, k: nat): set<Bytes>
    requires k <= |t|
  {
    if k == 0 then {}
    else KeysUpTo(t, k - 1) + (if t[k - 1].Some? then {t[k - 1].value.key} else {})
  }

  lemma {:induction false} KeysUpToAre<V>(t: Table<V>, k: nat, key: Bytes)
    requires k <= |t|
    ensures key in KeysUpTo(t, k) <==> exists j :: 0 <= j < k && t[j].Some? && t[j].value.key == key
  {
    if k > 0 {
      KeysUpToAre(t, k - 1, key);
    }
  }

  predicate FullUpTo<V>(t: Table<V>, k: nat)
    requires k <= |t|
  {
    k == 0 || (t[k - 1].Some? && FullUpTo(t, k - 1))
  }

  lemma {:induction false} FullUpToAll<V>(t: Table<V>, k: nat)
    requires k <= |t|
    ensures FullUpTo(t, k) <==> forall j :: 0 <= j < k ==> t[j].Some?
  {
    if k > 0 {
      FullUpToAll(t, k - 1);
    }
  }

  lemma {:induction false} CountKeys<V>(t: Table<V>, hash: Hash, k: nat)
    requires k <= |t| && Intact(t, hash)
    ensures |KeysUpTo(t, k)| <= k && (|KeysUpTo(t, k)| == k <==> FullUpTo(t, k))
  {
    if k > 0 {
      CountKeys(t, hash, k - 1);
      OneMoreSlot(t, hash, k - 1);
    }
  }

  lemma {:induction false} OneMoreSlot<V>(t: Table<V>, hash: Hash, k: nat)
    requires k < |t| && Intact(t, hash)
    ensures |KeysUpTo(t, k + 1)| == |KeysUpTo(t, k)| + (if t[k].Some? then 1 else 0)
  {
    if t[k].Some? {
      FreshKey(t, hash, k);
      AddOne(KeysUpTo(t, k), t[k].value.key);
    } else {
      assert KeysUpTo(t, k + 1) == KeysUpTo(t, k);
    }
  }

  lemma {:induction false} AddOne(s: set<Bytes>, x: Bytes)
    requires x !in s
    ensures |s + {x}| == |s| + 1
  {
  }

  lemma {:induction false} FreshKey<V>(t: Table<V>, hash: Hash, k: nat)
    requires k < |t| && Intact(t, hash) && t[k].Some?
    ensures t[k].value.key !in KeysUpTo(t, k)
  {
    OnlyHome(t, hash, t[k].value.key);
    KeysUpToAre(t, k, t[k].value.key);
  }

  /** The keys in the slots of a table that stands for m are those of m. */
  lemma {:induction false} StoredKeys<V(!new)>(t: Table<V>, hash: Hash, m: map<Bytes, V>)
    requires Refines(t, hash, m)
    ensures KeysUpTo(t, |t|) == m.Keys
  {
    forall key ensures key in KeysUpTo(t, |t|) <==> key in m.Keys {
      KeysUpToAre(t, |t|, key);
      if key in KeysUpTo(t, |t|) {
        var j :| 0 <= j < |t| && t[j].Some? && t[j].value.key == key;
        assert Holds(t, key, t[j].value.val);
      }
      if key in m {
        assert Holds(t, key, m[key]);
      }
    }
  }

  /** A table that stands for m is full exactly when m has as many keys as it has slots. */
  lemma {:induction false} FullAtCapacity<V(!new)>(t: Table<V>, hash: Hash, m: map<Bytes, V>)
    requires Refines(t, hash, m)
    ensures |m| <= |t| && (Full(t) <==> |m| == |t|)
  {
    StoredKeys(t, hash, m);
    CountKeys(t, hash, |t|);
    FullUpToAll(t, |t|);
  }
}
