/** Inputs on which src/map.c does not behave as a finite map, for the library's own hash. */
module Counterexamples {
  import opened Prelude
  import opened Probing
  import opened MapModel
  import XxHash
  import XxHashProofs

  const SEED: uint64 := 2

  /** `__hash__`; no key in memory has 2^64 bytes. */
  function LibraryHash(key: Bytes): uint64
  {
    if |key| < TWO_TO_THE_64 then XxHash.Hash(key, SEED) else 0
  }

  /** The eight-byte key with a given hash. */
  function KeyOf(h: uint64): (key: Bytes)
    ensures |key| == 8 && LibraryHash(key) == h
  {
    XxHashProofs.Hash8Bijection(XxHashProofs.Unhash8(h, SEED), h, SEED);
    XxHashProofs.Unhash8(h, SEED)
  }

  /** The two probes for a key in a table of two slots. */
  lemma {:induction false} TwoProbes<V>(t: Table<V>, hash: Hash, key: Bytes)
    requires |t| == 2
    ensures var a, b := t[hash(key) % 2], t[1 - hash(key) % 2];
            Probe(t, hash, key) ==
            if a.None? then Empty(0) else if a.value.key == key then Hit(0)
            else if b.None? then Empty(1) else if b.value.key == key then Hit(1)
            else Exhausted
    ensures At(t, hash, key, 0) == hash(key) % 2 && At(t, hash, key, 1) == 1 - hash(key) % 2
  {
    CleanSlot(hash(key), 0, 2);
    CleanSlot(hash(key), 1, 2);
    var h := hash(key);
    assert ProbeFrom(t, h, key, 2) == Exhausted;
    assert ProbeFrom(t, h, key, 1) ==
           var b := t[Slot(h, 1, 2)];
           if b.None? then Empty(1) else if b.value.key == key then Hit(1) else Exhausted;
  }

  lemma {:induction false} RunCons(t: Table<Stored>, hash: Hash, op: Op, ops: seq<Op>)
    ensures Run(t, hash, [op] + ops) == Run(Apply(t, hash, op), hash, ops)
  {
    assert ([op] + ops)[1..] == ops;
  }

  lemma {:induction false} RunThree(t: Table<Stored>, hash: Hash, a: Op, b: Op, c: Op)
    ensures Run(t, hash, [a, b]) == Apply(Apply(t, hash, a), hash, b)
    ensures Run(t, hash, [a, b, c]) == Apply(Run(t, hash, [a, b]), hash, c)
  {
    var t1 := Apply(t, hash, a);
    var t2 := Apply(t1, hash, b);
    assert [a, b] == [a] + ([b] + []) && [a, b, c] == [a] + ([b] + ([c] + []));
    RunCons(t2, hash, c, []);
    RunCons(t1, hash, b, []);
    RunCons(t1, hash, b, [c] + []);
    RunCons(t, hash, a, [b] + []);
    RunCons(t, hash, a, [b] + ([c] + []));
  }

  /** Two slots, and the second key hashes to the slot of the first: deleting the first key makes the
      second, which was never deleted, impossible to find. */
  lemma {:induction false} DeletionLoses(hash: Hash, k1: Bytes, k2: Bytes, v: Bytes)
    requires k1 != k2 && hash(k1) % 2 == hash(k2) % 2
    ensures Exists(Run(NewTable(2), hash, [Put(k1, v), Put(k2, v)]), hash, k2)
    ensures !Exists(Run(NewTable(2), hash, [Put(k1, v), Put(k2, v), Delete(k1)]), hash, k2)
  {
    var t1 := Apply(NewTable(2), hash, Put(k1, v));
    var t2 := Apply(t1, hash, Put(k2, v));
    var t3 := Apply(t2, hash, Delete(k1));
    TwoProbes(NewTable(2), hash, k1);
    TwoProbes(t1, hash, k2);
    TwoProbes(t2, hash, k1);
    TwoProbes(t2, hash, k2);
    TwoProbes(t3, hash, k2);
    RunThree(NewTable(2), hash, Put(k1, v), Put(k2, v), Delete(k1));
  }

  /** In the same two slots: once k1 is deleted, a write to k2 makes a second copy of it, and a deletion
      of k2 takes away only that copy.  The next write to k1 uncovers the other one. */
  lemma {:induction false} DeletedKeyReturns(hash: Hash, k1: Bytes, k2: Bytes, v: Bytes, w: Bytes)
    requires k1 != k2 && hash(k1) % 2 == hash(k2) % 2 && v != []
    ensures var t := Run(NewTable(2), hash, [Put(k1, v), Put(k2, v), Delete(k1)]);
            && Get(Run(t, hash, [Put(k2, w), Delete(k2)]), hash, k2) == Missing
            && Get(Run(t, hash, [Put(k2, w), Delete(k2), Put(k1, w)]), hash, k2) == Value(v)
  {
    var t1 := Apply(NewTable(2), hash, Put(k1, v));
    var t2 := Apply(t1, hash, Put(k2, v));
    var t3 := Apply(t2, hash, Delete(k1));
    var t4 := Apply(t3, hash, Put(k2, w));
    var t5 := Apply(t4, hash, Delete(k2));
    TwoProbes(NewTable(2), hash, k1);
    TwoProbes(t1, hash, k2);
    TwoProbes(t2, hash, k1);
    TwoProbes(t3, hash, k2);
    TwoProbes(t4, hash, k2);
    TwoProbes(t5, hash, k1);
    TwoProbes(t5, hash, k2);
    TwoProbes(Apply(t5, hash, Put(k1, w)), hash, k2);
    assert v[..|v|] == v;
    RunThree(NewTable(2), hash, Put(k1, v), Put(k2, v), Delete(k1));
    RunThree(t3, hash, Put(k2, w), Delete(k2), Put(k1, w));
  }

  /** Three slots, and a key with the largest hash: its probes reach slots 0, 0 and 1 only. */
  lemma {:induction false} WrapFails(hash: Hash, k0: Bytes, k1: Bytes, k: Bytes, v: Bytes)
    requires hash(k0) == 0 && hash(k1) == 1 && hash(k) == TWO_TO_THE_64 - 1
    ensures var t := Run(NewTable(3), hash, [Put(k0, v), Put(k1, v)]);
            |t| == 3 && t[2].None? && Set(t, hash, k, v).None?
  {
    var t0 := NewTable(3);
    assert Probe(t0, hash, k0) == Empty(0);
    var t1 := Apply(t0, hash, Put(k0, v));
    assert t1 == t0[0 := Some(Entry(k0, NewBucket(v)))];
    assert Probe(t1, hash, k1) == Empty(0);
    var t := Apply(t1, hash, Put(k1, v));
    assert t == t1[1 := Some(Entry(k1, NewBucket(v)))];
    assert Run(t1, hash, [Put(k1, v)]) == Run(t, hash, []);
    WriteFailsExactly(t, hash, k, NewBucket(v));
    assert !Reached(hash(k), 3, 2);
    ProbeMeets(t, hash, k);
  }

  /** One slot, and a value of two bytes for a key that was made with one. */
  lemma {:induction false} LongerIsCut(hash: Hash, key: Bytes)
    ensures Get(Run(NewTable(1), hash, [Put(key, [1]), Put(key, [1, 2])]), hash, key) == Value([1])
  {
    var t := Apply(NewTable(1), hash, Put(key, [1]));
    assert Probe(NewTable(1), hash, key) == Empty(0);
    WriteOwn(NewTable(1), hash, key, NewBucket([1]));
    LongerUpdateIsCut(t, hash, key, [1, 2]);
    RunThree(NewTable(1), hash, Put(key, [1]), Put(key, [1, 2]), Delete(key));
  }

  /** All of these happen with the library's hash, on eight-byte keys such as the graph stores; and an
      update with a longer value comes back cut. */
  lemma {:induction false} LibraryFails(v: Bytes)
    requires v != []
    ensures var t := Run(NewTable(2), LibraryHash, [Put(KeyOf(0), v), Put(KeyOf(2), v), Delete(KeyOf(0))]);
            && !Exists(t, LibraryHash, KeyOf(2))
            && var t' := Run(t, LibraryHash, [Put(KeyOf(2), v), Delete(KeyOf(2)), Put(KeyOf(0), v)]);
               Get(t', LibraryHash, KeyOf(2)) == Value(v)
    ensures var t := Run(NewTable(3), LibraryHash, [Put(KeyOf(0), v), Put(KeyOf(1), v)]);
            |t| == 3 && t[2].None? && Set(t, LibraryHash, KeyOf(TWO_TO_THE_64 - 1), v).None?
    ensures Get(Run(NewTable(1), LibraryHash, [Put(KeyOf(0), [1]), Put(KeyOf(0), [1, 2])]), LibraryHash, KeyOf(0)) ==
            Value([1])
  {
    LongerIsCut(LibraryHash, KeyOf(0));
    DeletionLoses(LibraryHash, KeyOf(0), KeyOf(2), v);
    DeletedKeyReturns(LibraryHash, KeyOf(0), KeyOf(2), v, v);
    WrapFails(LibraryHash, KeyOf(0), KeyOf(1), KeyOf(TWO_TO_THE_64 - 1), v);
  }
}
