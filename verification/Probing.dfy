/** Linear probing as src/map.c and src/set.c do it: over a fixed table, with the slot number
    computed in wrapping uint64_t arithmetic, and with deletion that just empties a slot.

    A table is a sequence of slots; V is what a bucket holds besides its key.  The hash is an
    arbitrary function: nothing here depends on which one it is. */
module Probing {
  import opened Prelude

  datatype Entry<V> = Entry(key: Bytes, val: V)

  type Table<V> = seq<Option<Entry<V>>>

  type Hash = Bytes -> uint64

  /** `(key_hashed + i) % self->size` */
  function Slot(h: uint64, i: nat, n: nat): (j: nat)
    requires n > 0
    ensures j < n
  {
    ((h + i) % TWO_TO_THE_64) % n
  }

  /** How a probe loop ends: at the i-th probe with the key, at the i-th probe with an empty
      slot, or after the last probe. */
  datatype Outcome = Hit(i: nat) | Empty(i: nat) | Exhausted

  function ProbeFrom<V>(t: Table<V>, h: uint64, key: Bytes, i: nat): Outcome
    requires i <= |t|
    decreases |t| - i
  {
    if i == |t| then Exhausted
    else
      var s := t[Slot(h, i, |t|)];
      if s.None? then Empty(i)
      else if s.value.key == key then Hit(i)
      else ProbeFrom(t, h, key, i + 1)
  }

  function Probe<V>(t: Table<V>, hash: Hash, key: Bytes): Outcome
  {
    ProbeFrom(t, hash(key), key, 0)
  }

  /** The slot of the i-th probe for a key. */
  function At<V>(t: Table<V>, hash: Hash, key: Bytes, i: nat): (j: nat)
    requires i < |t|
    ensures j < |t|
  {
    Slot(hash(key), i, |t|)
  }

  /** The first i probes meet only other keys. */
  ghost predicate Passes<V>(t: Table<V>, hash: Hash, key: Bytes, i: nat)
  {
    i <= |t| && forall a :: 0 <= a < i ==>
      t[At(t, hash, key, a)].Some? && t[At(t, hash, key, a)].value.key != key
  }

  /** An outcome says what the probes met, and what they met determines the outcome. */
  lemma {:induction false} ProbeMeets<V>(t: Table<V>, hash: Hash, key: Bytes)
    ensures var o := Probe(t, hash, key);
            match o
            case Hit(i) => i < |t| && Passes(t, hash, key, i) &&
                           t[At(t, hash, key, i)].Some? && t[At(t, hash, key, i)].value.key == key
            case Empty(i) => i < |t| && Passes(t, hash, key, i) && t[At(t, hash, key, i)].None?
            case Exhausted => Passes(t, hash, key, |t|)
  {
    MeetsFrom(t, hash, key, 0);
  }

  lemma {:induction false} MeetsFrom<V>(t: Table<V>, hash: Hash, key: Bytes, from: nat)
    requires Passes(t, hash, key, from)
    ensures var o := ProbeFrom(t, hash(key), key, from);
            match o
            case Hit(i) => i < |t| && Passes(t, hash, key, i) &&
                           t[At(t, hash, key, i)].Some? && t[At(t, hash, key, i)].value.key == key
            case Empty(i) => i < |t| && Passes(t, hash, key, i) && t[At(t, hash, key, i)].None?
            case Exhausted => Passes(t, hash, key, |t|)
    decreases |t| - from
  {
    if from < |t| {
      var s := t[At(t, hash, key, from)];
      if s.Some? && s.value.key != key {
        MeetsFrom(t, hash, key, from + 1);
      }
    }
  }

  lemma {:induction false} SkipPassed<V>(t: Table<V>, hash: Hash, key: Bytes, from: nat, i: nat)
    requires from <= i && Passes(t, hash, key, i)
    ensures ProbeFrom(t, hash(key), key, from) == ProbeFrom(t, hash(key), key, i)
    decreases i - from
  {
    if from < i {
      var s := t[At(t, hash, key, from)];
      assert s.Some? && s.value.key != key;
      SkipPassed(t, hash, key, from + 1, i);
    }
  }

  ghost predicate Stores<V>(t: Table<V>, j: nat, key: Bytes)
    requires j < |t|
  {
    t[j].Some? && t[j].value.key == key
  }

  /** A key stored on its probe path is found if no slot before it is empty. */
  lemma {:induction false} StoredIsFound<V>(t: Table<V>, hash: Hash, key: Bytes, from: nat, i: nat)
    requires from <= i < |t| && Stores(t, At(t, hash, key, i), key)
    requires forall a :: from <= a < i ==> t[At(t, hash, key, a)].Some?
    ensures ProbeFrom(t, hash(key), key, from).Hit?
    decreases i - from
  {
    if from < i {
      assert t[At(t, hash, key, from)].Some?;
      StoredIsFound(t, hash, key, from + 1, i);
    }
  }

  // ---------- what a table stands for ----------

  /** Looking up the key stored in slot j leads to slot j. */
  ghost predicate Findable<V>(t: Table<V>, hash: Hash, j: nat)
    requires j < |t| && t[j].Some?
  {
    var k := t[j].value.key;
    var o := Probe(t, hash, k);
    o.Hit? && o.i < |t| && At(t, hash, k, o.i) == j
  }

  /** Every probe chain is intact.  It follows that no key is stored twice. */
  ghost predicate Intact<V>(t: Table<V>, hash: Hash)
  {
    forall j :: 0 <= j < |t| && t[j].Some? ==> Findable(t, hash, j)
  }

  ghost predicate Holds<V>(t: Table<V>, k: Bytes, v: V)
  {
    Some(Entry(k, v)) in t
  }

  ghost predicate SameContents<V(!new)>(t: Table<V>, m: map<Bytes, V>)
  {
    forall k, v :: Holds(t, k, v) <==> k in m && m[k] == v
  }

  /** The table stands for the finite map m. */
  ghost predicate Refines<V(!new)>(t: Table<V>, hash: Hash, m: map<Bytes, V>)
  {
    Intact(t, hash) && SameContents(t, m)
  }

  /** The slot at which the probe for a key finds it. */
  function Home<V>(t: Table<V>, hash: Hash, key: Bytes): (j: nat)
    requires Probe(t, hash, key).Hit?
    ensures Probe(t, hash, key).i < |t| && j < |t| && j == At(t, hash, key, Probe(t, hash, key).i)
    ensures t[j].Some? && t[j].value.key == key
  {
    ProbeMeets(t, hash, key);
    At(t, hash, key, Probe(t, hash, key).i)
  }

  /** With intact chains a key is stored at its home and nowhere else. */
  lemma {:induction false} OnlyHome<V>(t: Table<V>, hash: Hash, key: Bytes)
    requires Intact(t, hash)
    ensures forall b :: 0 <= b < |t| && t[b].Some? && t[b].value.key == key ==>
              Probe(t, hash, key).Hit? && b == Home(t, hash, key)
  {
    forall b | 0 <= b < |t| && t[b].Some? && t[b].value.key == key
      ensures Probe(t, hash, key).Hit? && b == Home(t, hash, key)
    {
      assert Findable(t, hash, b);
    }
  }

  /** In a table that refines m, a probe answers exactly as m does. */
  lemma {:induction false} LookupRefines<V(!new)>(t: Table<V>, hash: Hash, m: map<Bytes, V>, key: Bytes)
    requires Refines(t, hash, m)
    ensures Probe(t, hash, key).Hit? <==> key in m
    ensures key in m ==>
              Probe(t, hash, key).i < |t| &&
              t[At(t, hash, key, Probe(t, hash, key).i)] == Some(Entry(key, m[key]))
  {
    ProbeMeets(t, hash, key);
    var o := Probe(t, hash, key);
    if o.Hit? {
      var e := t[At(t, hash, key, o.i)].value;
      assert Holds(t, e.key, e.val);
    }
    if key in m {
      assert Holds(t, key, m[key]);
      var j :| 0 <= j < |t| && t[j] == Some(Entry(key, m[key]));
      assert Findable(t, hash, j);
    }
  }

  // ---------- writing ----------

  /** The table after a write of v under `key`: at the end of the probe, if it has one. */
  function Write<V>(t: Table<V>, hash: Hash, key: Bytes, v: V): Option<Table<V>>
  {
    ProbeMeets(t, hash, key);
    match Probe(t, hash, key)
    case Hit(i) => Some(t[At(t, hash, key, i) := Some(Entry(key, v))])
    case Empty(i) => Some(t[At(t, hash, key, i) := Some(Entry(key, v))])
    case Exhausted => None
  }

  /** Own-key law, in every table, broken chains included: what has been written under a key is
      what the next probe for that key finds. */
  lemma {:induction false} WriteOwn<V>(t: Table<V>, hash: Hash, key: Bytes, v: V)
    requires Write(t, hash, key, v).Some?
    ensures var t' := Write(t, hash, key, v).value;
            var i := Probe(t, hash, key).i;
            && |t'| == |t| && i < |t|
            && Probe(t', hash, key) == Hit(i)
            && t'[At(t', hash, key, i)] == Some(Entry(key, v))
  {
    ProbeMeets(t, hash, key);
    var t', i := Write(t, hash, key, v).value, Probe(t, hash, key).i;
    assert Passes(t', hash, key, i) by {
      forall a | 0 <= a < i
        ensures t'[At(t', hash, key, a)].Some? && t'[At(t', hash, key, a)].value.key != key
      {
        assert t[At(t, hash, key, a)].Some? && t[At(t, hash, key, a)].value.key != key;
      }
    }
    SkipPassed(t', hash, key, 0, i);
  }

  /** A write under one key leaves every other key where it can be found. */
  lemma {:induction false} WriteFrame<V>(t: Table<V>, hash: Hash, key: Bytes, v: V, other: Bytes)
    requires Write(t, hash, key, v).Some? && other != key && Probe(t, hash, other).Hit?
    ensures var t' := Write(t, hash, key, v).value;
            var i := Probe(t, hash, other).i;
            && |t'| == |t| && i < |t|
            && Probe(t', hash, other) == Hit(i)
            && t'[At(t', hash, other, i)] == t[At(t, hash, other, i)]
  {
    ProbeMeets(t, hash, key);
    ProbeMeets(t, hash, other);
    var t', i := Write(t, hash, key, v).value, Probe(t, hash, other).i;
    assert Passes(t', hash, other, i) by {
      forall a | 0 <= a < i
        ensures t'[At(t', hash, other, a)].Some? && t'[At(t', hash, other, a)].value.key != other
      {
        assert t[At(t, hash, other, a)].Some? && t[At(t, hash, other, a)].value.key != other;
      }
    }
    SkipPassed(t', hash, other, 0, i);
  }

  /** The slot that a successful write fills. */
  function Target<V>(t: Table<V>, hash: Hash, key: Bytes): (j: nat)
    requires !Probe(t, hash, key).Exhausted?
    ensures Probe(t, hash, key).i < |t| && j < |t| && j == At(t, hash, key, Probe(t, hash, key).i)
    ensures t[j].Some? ==> t[j].value.key == key
  {
    ProbeMeets(t, hash, key);
    At(t, hash, key, Probe(t, hash, key).i)
  }

  /** The exact effect of a write on the probe for another key that was not found: if that probe
      ended in the slot that is filled now, it goes on behind it, and otherwise nothing changes.  So a
      key that a deletion made unreachable, or a copy left behind it, can come back. */
  lemma {:induction false} WriteUncovers<V>(t: Table<V>, hash: Hash, key: Bytes, v: V, other: Bytes)
    requires Write(t, hash, key, v).Some? && other != key && !Probe(t, hash, other).Hit?
    ensures var t', o := Write(t, hash, key, v).value, Probe(t, hash, other);
            && |t'| == |t|
            && (o.Empty? ==> o.i < |t|)
            && Probe(t', hash, other) ==
               if o.Empty? && At(t, hash, other, o.i) == Target(t, hash, key)
               then ProbeFrom(t', hash(other), other, o.i + 1)
               else o
  {
    ProbeMeets(t, hash, other);
    var t', j := Write(t, hash, key, v).value, Target(t, hash, key);
    var o := Probe(t, hash, other);
    var i := if o.Empty? then o.i else |t|;
    assert Passes(t', hash, other, i) by {
      forall a | 0 <= a < i
        ensures t'[At(t', hash, other, a)].Some? && t'[At(t', hash, other, a)].value.key != other
      {
        assert t[At(t, hash, other, a)].Some? && t[At(t, hash, other, a)].value.key != other;
      }
    }
    SkipPassed(t', hash, other, 0, i);
  }

  /** A copy of the key lies behind the slot j where its probe ended, and nothing but j is empty on
      the way there. */
  ghost predicate CopyBehind<V>(t: Table<V>, hash: Hash, key: Bytes, j: nat)
  {
    var o := Probe(t, hash, key);
    && o.Empty? && o.i < |t| && At(t, hash, key, o.i) == j
    && exists i :: o.i < i < |t| && Stores(t, At(t, hash, key, i), key) && NoGap(t, hash, key, j, o.i, i)
  }

  ghost predicate NoGap<V>(t: Table<V>, hash: Hash, key: Bytes, j: nat, from: nat, to: nat)
    requires to <= |t|
  {
    forall a :: from < a < to ==> t[At(t, hash, key, a)].Some? || At(t, hash, key, a) == j
  }

  /** Which keys a write brings back, by what is in the table before it. */
  lemma {:induction false} WriteBringsBackIff<V>(t: Table<V>, hash: Hash, key: Bytes, v: V, other: Bytes)
    requires Write(t, hash, key, v).Some? && other != key && !Probe(t, hash, other).Hit?
    ensures Probe(Write(t, hash, key, v).value, hash, other).Hit? <==>
            CopyBehind(t, hash, other, Target(t, hash, key))
  {
    var t', j := Write(t, hash, key, v).value, Target(t, hash, key);
    ProbeMeets(t, hash, other);
    ProbeMeets(t', hash, other);
    WriteUncovers(t, hash, key, v, other);
    var o, o' := Probe(t, hash, other), Probe(t', hash, other);
    if o'.Hit? {
      assert t'[At(t', hash, other, o'.i)] == t[At(t, hash, other, o'.i)];
      assert Stores(t, At(t, hash, other, o'.i), other);
      assert o'.i > o.i;
      forall a | o.i < a < o'.i ensures t[At(t, hash, other, a)].Some? || At(t, hash, other, a) == j {
        assert t'[At(t', hash, other, a)].Some?;
      }
      assert NoGap(t, hash, other, j, o.i, o'.i);
    }
    if CopyBehind(t, hash, other, j) {
      CopyIsFound(t, hash, other, j, t'[j].value);
    }
  }

  lemma {:induction false} CopyIsFound<V>(t: Table<V>, hash: Hash, other: Bytes, j: nat, e: Entry<V>)
    requires j < |t| && t[j].None? && CopyBehind(t, hash, other, j)
    ensures Probe(t[j := Some(e)], hash, other).Hit?
  {
    var t', o := t[j := Some(e)], Probe(t, hash, other);
    ProbeMeets(t, hash, other);
    var i :| o.i < i < |t| && Stores(t, At(t, hash, other, i), other) && NoGap(t, hash, other, j, o.i, i);
    forall a | 0 <= a < i ensures t'[At(t', hash, other, a)].Some? {
      assert a < o.i ==> t[At(t, hash, other, a)].Some?;
    }
    StoredIsFound(t', hash, other, 0, i);
  }

  /** With intact chains no write brings a key back. */
  lemma {:induction false} WriteKeepsAbsent<V>(t: Table<V>, hash: Hash, key: Bytes, v: V, other: Bytes)
    requires Intact(t, hash) && Write(t, hash, key, v).Some? && other != key && !Probe(t, hash, other).Hit?
    ensures !Probe(Write(t, hash, key, v).value, hash, other).Hit?
  {
    var t' := Write(t, hash, key, v).value;
    forall b | 0 <= b < |t| && t'[b].Some? ensures t'[b].value.key != other {
      if t[b].Some? {
        assert Findable(t, hash, b);
      }
    }
    ProbeMeets(t', hash, other);
  }

  /** A successful write refines the update of the finite map. */
  lemma {:induction false} WriteRefines<V(!new)>(t: Table<V>, hash: Hash, m: map<Bytes, V>, key: Bytes, v: V)
    requires Refines(t, hash, m) && Write(t, hash, key, v).Some?
    ensures Refines(Write(t, hash, key, v).value, hash, m[key := v])
  {
    var t' := Write(t, hash, key, v).value;
    ProbeMeets(t, hash, key);
    WriteOwn(t, hash, key, v);
    OnlyHome(t, hash, key);
    var j := At(t, hash, key, Probe(t, hash, key).i);
    forall b | 0 <= b < |t'| && t'[b].Some? ensures Findable(t', hash, b) {
      if b != j {
        assert t[b] == t'[b] && Findable(t, hash, b) && t[b].value.key != key;
        WriteFrame(t, hash, key, v, t[b].value.key);
      }
    }
    WriteHolds(t, t', m, key, v, j);
  }

  lemma {:induction false} WriteHolds<V(!new)>(t: Table<V>, t': Table<V>, m: map<Bytes, V>, key: Bytes, v: V, j: nat)
    requires SameContents(t, m) && j < |t| && t' == t[j := Some(Entry(key, v))]
    requires t[j].Some? ==> t[j].value.key == key
    requires forall b :: 0 <= b < |t| && b != j && t[b].Some? ==> t[b].value.key != key
    ensures SameContents(t', m[key := v])
  {
    forall k, w | Holds(t', k, w) ensures k in m[key := v] && m[key := v][k] == w {
      var b :| 0 <= b < |t'| && t'[b] == Some(Entry(k, w));
      if b != j {
        assert t[b] == Some(Entry(k, w)) && Holds(t, k, w);
      }
    }
    forall k, w | k in m[key := v] && m[key := v][k] == w ensures Holds(t', k, w) {
      if k == key {
        assert t'[j] == Some(Entry(k, w));
      } else {
        assert Holds(t, k, w);
        var b :| 0 <= b < |t| && t[b] == Some(Entry(k, w));
        assert t'[b] == Some(Entry(k, w));
      }
    }
  }

  // ---------- emptying a slot ----------

  /** The table after a deletion of `key`, if the probe finds it. */
  function Remove<V>(t: Table<V>, hash: Hash, key: Bytes): Option<Table<V>>
  {
    ProbeMeets(t, hash, key);
    match Probe(t, hash, key)
    case Hit(i) => Some(t[At(t, hash, key, i) := None])
    case _ => None
  }

  /** Own-key law for deletion, in every table: the key is gone, and a second deletion fails. */
  lemma {:induction false} RemoveOwn<V>(t: Table<V>, hash: Hash, key: Bytes)
    requires Remove(t, hash, key).Some?
    ensures var t' := Remove(t, hash, key).value;
            Probe(t', hash, key) == Empty(Probe(t, hash, key).i) && Remove(t', hash, key).None?
  {
    ProbeMeets(t, hash, key);
    var t', i := Remove(t, hash, key).value, Probe(t, hash, key).i;
    assert Passes(t', hash, key, i) by {
      forall a | 0 <= a < i
        ensures t'[At(t', hash, key, a)].Some? && t'[At(t', hash, key, a)].value.key != key
      {
        assert t[At(t, hash, key, a)].Some? && t[At(t, hash, key, a)].value.key != key;
      }
    }
    SkipPassed(t', hash, key, 0, i);
  }

  /** The probe for k visits slot j before it arrives at the slot of k. */
  ghost predicate PassesThrough<V>(t: Table<V>, hash: Hash, k: Bytes, j: nat)
  {
    var o := Probe(t, hash, k);
    o.Hit? && exists a :: 0 <= a < o.i && a < |t| && At(t, hash, k, a) == j
  }

  /** Deletion characterised, in every table and for every other key that could be found: it can
      still be found, in the same place, exactly if its probe does not pass the emptied slot. */
  lemma {:induction false} RemoveLookup<V>(t: Table<V>, hash: Hash, key: Bytes, other: Bytes)
    requires Probe(t, hash, key).Hit? && other != key && Probe(t, hash, other).Hit?
    ensures var t' := t[Home(t, hash, key) := None];
            && Remove(t, hash, key) == Some(t')
            && (!PassesThrough(t, hash, other, Home(t, hash, key)) ==>
                  Probe(t', hash, other) == Probe(t, hash, other) &&
                  t'[Home(t, hash, other)] == t[Home(t, hash, other)])
            && (PassesThrough(t, hash, other, Home(t, hash, key)) ==> Probe(t', hash, other).Empty?)
  {
    var j := Home(t, hash, key);
    var t' := t[j := None];
    if PassesThrough(t, hash, other, j) {
      RemoveLoses(t, hash, other, j);
    } else {
      RemoveKeeps(t, hash, other, j);
    }
  }

  /** In every table a deletion makes no other key appear. */
  lemma {:induction false} RemoveKeepsAbsent<V>(t: Table<V>, hash: Hash, key: Bytes, other: Bytes)
    requires Remove(t, hash, key).Some? && !Probe(t, hash, other).Hit?
    ensures !Probe(Remove(t, hash, key).value, hash, other).Hit?
  {
    var t' := Remove(t, hash, key).value;
    ProbeMeets(t', hash, other);
    var o' := Probe(t', hash, other);
    if o'.Hit? {
      forall a | 0 <= a < o'.i ensures t[At(t, hash, other, a)].Some? {
        assert t'[At(t', hash, other, a)].Some?;
      }
      StoredIsFound(t, hash, other, 0, o'.i);
    }
  }

  lemma {:induction false} RemoveKeeps<V>(t: Table<V>, hash: Hash, other: Bytes, j: nat)
    requires Probe(t, hash, other).Hit? && j < |t| && j != Home(t, hash, other)
    requires !PassesThrough(t, hash, other, j)
    ensures Probe(t[j := None], hash, other) == Probe(t, hash, other)
  {
    var t', i := t[j := None], Probe(t, hash, other).i;
    ProbeMeets(t, hash, other);
    assert Passes(t', hash, other, i) by {
      forall a | 0 <= a < i
        ensures t'[At(t', hash, other, a)].Some? && t'[At(t', hash, other, a)].value.key != other
      {
        assert t[At(t, hash, other, a)].Some? && t[At(t, hash, other, a)].value.key != other;
        assert At(t, hash, other, a) != j;
      }
    }
    SkipPassed(t', hash, other, 0, i);
  }

  lemma {:induction false} RemoveLoses<V>(t: Table<V>, hash: Hash, other: Bytes, j: nat)
    requires j < |t| && PassesThrough(t, hash, other, j)
    ensures Probe(t[j := None], hash, other).Empty?
  {
    var t', i := t[j := None], Probe(t, hash, other).i;
    ProbeMeets(t, hash, other);
    var a :| 0 <= a < i && a < |t| && At(t, hash, other, a) == j;
    forall b | 0 <= b <= a
      ensures t'[At(t', hash, other, b)].None? || t'[At(t', hash, other, b)].value.key != other
    {
      assert t[At(t, hash, other, b)].Some? && t[At(t, hash, other, b)].value.key != other;
    }
    StopsAt(t', hash, other, 0, a);
  }

  /** A probe that meets an empty slot, and not the key before it, ends at an empty slot. */
  lemma {:induction false} StopsAt<V>(t: Table<V>, hash: Hash, key: Bytes, from: nat, a: nat)
    requires from <= a < |t| && t[At(t, hash, key, a)].None?
    requires forall b :: from <= b <= a ==>
               t[At(t, hash, key, b)].None? || t[At(t, hash, key, b)].value.key != key
    ensures ProbeFrom(t, hash(key), key, from).Empty?
    decreases a - from
  {
    if t[At(t, hash, key, from)].Some? {
      StopsAt(t, hash, key, from + 1, a);
    }
  }

  /** No stored key other than `key` is probed for through the slot of `key`. */
  ghost predicate SafeToRemove<V>(t: Table<V>, hash: Hash, m: map<Bytes, V>, key: Bytes)
    requires Probe(t, hash, key).Hit?
  {
    forall k :: k in m && k != key ==> !PassesThrough(t, hash, k, Home(t, hash, key))
  }

  /** After a deletion the table stands for the map without the key exactly if no other stored
      key is probed for through the emptied slot. */
  lemma {:induction false} RemoveRefines<V(!new)>(t: Table<V>, hash: Hash, m: map<Bytes, V>, key: Bytes)
    requires Refines(t, hash, m) && Probe(t, hash, key).Hit?
    ensures Refines(t[Home(t, hash, key) := None], hash, m - {key}) <==> SafeToRemove(t, hash, m, key)
  {
    var j := Home(t, hash, key);
    if SafeToRemove(t, hash, m, key) {
      RemoveRefinesIf(t, hash, m, key, j);
    }
    if Refines(t[j := None], hash, m - {key}) {
      forall k | k in m && k != key ensures !PassesThrough(t, hash, k, j) {
        LookupRefines(t, hash, m, k);
        LookupRefines(t[j := None], hash, m - {key}, k);
        RemoveLookup(t, hash, key, k);
      }
    }
  }

  lemma {:induction false} RemoveRefinesIf<V(!new)>(t: Table<V>, hash: Hash, m: map<Bytes, V>, key: Bytes, j: nat)
    requires Refines(t, hash, m) && Probe(t, hash, key).Hit? && j == Home(t, hash, key)
    requires SafeToRemove(t, hash, m, key)
    ensures Refines(t[j := None], hash, m - {key})
  {
    var t' := t[j := None];
    OnlyHome(t, hash, key);
    forall b | 0 <= b < |t'| && t'[b].Some? ensures Findable(t', hash, b) {
      var k := t[b].value.key;
      assert Holds(t, k, t[b].value.val) && Findable(t, hash, b) && k != key;
      RemoveLookup(t, hash, key, k);
    }
    RemoveHolds(t, hash, m, key, j);
  }

  lemma {:induction false} RemoveHolds<V(!new)>(t: Table<V>, hash: Hash, m: map<Bytes, V>, key: Bytes, j: nat)
    requires Refines(t, hash, m) && Probe(t, hash, key).Hit? && j == Home(t, hash, key)
    ensures SameContents(t[j := None], m - {key})
  {
    var t', m' := t[j := None], m - {key};
    OnlyHome(t, hash, key);
    forall k, w | Holds(t', k, w) ensures k in m' && m'[k] == w {
      var b :| 0 <= b < |t'| && t'[b] == Some(Entry(k, w));
      assert t[b] == Some(Entry(k, w)) && Holds(t, k, w);
    }
    forall k, w | k in m' && m'[k] == w ensures Holds(t', k, w) {
      assert Holds(t, k, w);
      var b :| 0 <= b < |t| && t[b] == Some(Entry(k, w));
      assert t'[b] == Some(Entry(k, w));
    }
  }

  // ---------- which slots a probe sequence reaches ----------

  ghost predicate Visits(h: uint64, n: nat, j: nat)
    requires n > 0
  {
    exists i :: 0 <= i < n && Slot(h, i, n) == j
  }

  /** The probe sequence of hash h visits every one of the n slots. */
  ghost predicate Covers(h: uint64, n: nat)
    requires n > 0
  {
    forall j :: 0 <= j < n ==> Visits(h, n, j)
  }

  /** The sum `key_hashed + i` never wraps, or wrapping does not matter. */
  predicate CleanCycle(h: uint64, n: nat)
    requires n > 0
  {
    h + n <= TWO_TO_THE_64 || TWO_TO_THE_64 % n == 0
  }

  lemma {:induction false} ModPlus(q: int, n: nat, x: nat)
    requires x < n
    ensures (q * n + x) % n == x
  {
    assert (q * n + x) - x == q * n;
    var d, r := (q * n + x) / n, (q * n + x) % n;
    assert q * n + x == n * d + r;
    assert (q - d) * n == r - x;
    if q > d {
      MulAtLeast(q - d, n);
    } else if q < d {
      assert (d - q) * n == x - r;
      MulAtLeast(d - q, n);
    }
  }

  lemma {:induction false} MulAtLeast(k: nat, n: nat)
    requires k >= 1
    ensures k * n >= n
  {
    assert k * n == n + (k - 1) * n;
    assert (k - 1) * n >= 0;
  }

  /** A walk of i steps from residue r around a circle of n. */
  function Around(r: int, i: nat, n: nat): int
  {
    if r + i < 0 then r + i + n else if r + i < n then r + i else r + i - n
  }

  lemma {:induction false} ModWalk(e: int, n: nat, r: int, i: nat)
    requires n > 0 && 0 <= r + i + n < 3 * n
    ensures (e * n + r + i) % n == Around(r, i, n)
  {
    if r + i < 0 {
      assert (e - 1) * n + (r + i + n) == e * n + r + i;
      ModPlus(e - 1, n, r + i + n);
    } else if r + i < n {
      ModPlus(e, n, r + i);
    } else {
      assert (e + 1) * n + (r + i - n) == e * n + r + i;
      ModPlus(e + 1, n, r + i - n);
    }
  }

  /** On a clean cycle the probes walk once around the table. */
  lemma {:induction false} CleanSlot(h: uint64, i: nat, n: nat)
    requires 0 < n < TWO_TO_THE_64 && i < n && CleanCycle(h, n)
    ensures Slot(h, i, n) == Around(h % n, i, n)
  {
    var q := h / n;
    assert h == q * n + h % n;
    if h + i < TWO_TO_THE_64 {
      ModWalk(q, n, h % n, i);
    } else {
      var w := TWO_TO_THE_64 / n;
      assert TWO_TO_THE_64 == w * n;
      assert (h + i) % TWO_TO_THE_64 == h + i - TWO_TO_THE_64;
      assert h + i - TWO_TO_THE_64 == (q - w) * n + h % n + i;
      ModWalk(q - w, n, h % n, i);
    }
  }

  lemma {:induction false} CleanCovers(h: uint64, n: nat)
    requires 0 < n < TWO_TO_THE_64 && CleanCycle(h, n)
    ensures Covers(h, n)
  {
    forall j | 0 <= j < n ensures Visits(h, n, j) {
      var r := h % n;
      var i := if j >= r then j - r else j + n - r;
      CleanSlot(h, i, n);
      assert Slot(h, i, n) == j;
    }
  }

  /** A probe sequence that wraps when n does not divide 2^64 misses a slot: w probes are made
      before the wrap, ending at residue r - 1, and the others start again from slot 0. */
  lemma {:induction false} WrapMisses(h: uint64, n: nat)
    requires 0 < n < TWO_TO_THE_64 && !CleanCycle(h, n)
    ensures !Covers(h, n)
  {
    var w, r, q := TWO_TO_THE_64 - h, TWO_TO_THE_64 % n, TWO_TO_THE_64 / n;
    assert TWO_TO_THE_64 == q * n + r;
    var missed := if r >= w then n - 1 else if r >= n - w then r else n - w;
    forall i: nat | i < n ensures Slot(h, i, n) != missed {
      if i < w {
        assert (h + i) % TWO_TO_THE_64 == q * n + (r - w) + i;
        ModWalk(q, n, r - w, i);
      } else {
        assert (h + i) % TWO_TO_THE_64 == i - w;
        ModPlus(0, n, i - w);
      }
    }
    assert 0 <= missed < n && !Visits(h, n, missed);
  }

  /** Exactly when the probe sequence of a hash is a permutation of the slots. */
  lemma {:induction false} CoversIff(h: uint64, n: nat)
    requires 0 < n < TWO_TO_THE_64
    ensures Covers(h, n) <==> CleanCycle(h, n)
  {
    if CleanCycle(h, n) {
      CleanCovers(h, n);
    } else {
      WrapMisses(h, n);
    }
  }

  /** The slots that the probe sequence of hash h reaches: all of them on a clean cycle.  Otherwise
      the w probes before the wrap walk on from the residue of h, and the others start from slot 0. */
  predicate Reached(h: uint64, n: nat, j: nat)
    requires n > 0
  {
    var w, r := TWO_TO_THE_64 - h, h % n;
    CleanCycle(h, n) || j < n - w || (if j >= r then j - r else j + n - r) < w
  }

  lemma {:induction false} VisitsIff(h: uint64, n: nat, j: nat)
    requires 0 < n < TWO_TO_THE_64 && j < n
    ensures Visits(h, n, j) <==> Reached(h, n, j)
  {
    if CleanCycle(h, n) {
      CleanCovers(h, n);
    } else {
      var w := TWO_TO_THE_64 - h;
      forall i: nat | i < n ensures Slot(h, i, n) == if i < w then Around(h % n, i, n) else i - w {
        WrappedSlot(h, i, n);
      }
      var r := h % n;
      var d := if j >= r then j - r else j + n - r;
      assert d < w ==> Slot(h, d, n) == j;
      assert j < n - w ==> Slot(h, j + w, n) == j;
    }
  }

  lemma {:induction false} WrappedSlot(h: uint64, i: nat, n: nat)
    requires 0 < n < TWO_TO_THE_64 && i < n && !CleanCycle(h, n)
    ensures var w := TWO_TO_THE_64 - h;
            Slot(h, i, n) == if i < w then Around(h % n, i, n) else i - w
  {
    var w, q := TWO_TO_THE_64 - h, h / n;
    assert h == q * n + h % n;
    if i < w {
      assert (h + i) % TWO_TO_THE_64 == q * n + h % n + i;
      ModWalk(q, n, h % n, i);
    } else {
      assert (h + i) % TWO_TO_THE_64 == i - w;
      ModPlus(0, n, i - w);
    }
  }

  // ---------- when a write fails, and when a deletion is safe ----------

  ghost predicate Full<V>(t: Table<V>)
  {
    forall j :: 0 <= j < |t| ==> t[j].Some?
  }

  /** When a write fails, in every table and with any wrap-around: the key is not found, and every slot
      that its probe sequence reaches is occupied. */
  lemma {:induction false} WriteFailsExactly<V>(t: Table<V>, hash: Hash, key: Bytes, v: V)
    requires 0 < |t| < TWO_TO_THE_64
    ensures Write(t, hash, key, v).None? <==>
              !Probe(t, hash, key).Hit? && forall j :: 0 <= j < |t| && Reached(hash(key), |t|, j) ==> t[j].Some?
  {
    ProbeMeets(t, hash, key);
    forall j | 0 <= j < |t| ensures Visits(hash(key), |t|, j) <==> Reached(hash(key), |t|, j) {
      VisitsIff(hash(key), |t|, j);
    }
    var o := Probe(t, hash, key);
    if o.Empty? {
      assert Visits(hash(key), |t|, At(t, hash, key, o.i));
    }
    if o.Exhausted? {
      forall j | 0 <= j < |t| && Visits(hash(key), |t|, j) ensures t[j].Some? {
        var i :| 0 <= i < |t| && Slot(hash(key), i, |t|) == j;
        assert t[At(t, hash, key, i)].Some?;
      }
    }
  }

  /** On a clean cycle a write into an intact table fails exactly when the key is absent and no
      slot is empty. */
  lemma {:induction false} WriteFailsIff<V(!new)>(t: Table<V>, hash: Hash, m: map<Bytes, V>, key: Bytes, v: V)
    requires 0 < |t| < TWO_TO_THE_64 && Refines(t, hash, m) && CleanCycle(hash(key), |t|)
    ensures Write(t, hash, key, v).None? <==> key !in m && Full(t)
  {
    LookupRefines(t, hash, m, key);
    WriteFailsExactly(t, hash, key, v);
    assert forall j :: 0 <= j < |t| ==> Reached(hash(key), |t|, j);
  }

  /** On clean cycles an empty slot behind the deleted one makes the deletion safe: a probe that
      passed the slot would have stopped at the next. */
  lemma {:induction false} EmptyNextIsSafe<V>(t: Table<V>, hash: Hash, m: map<Bytes, V>, key: Bytes)
    requires 0 < |t| < TWO_TO_THE_64 && Probe(t, hash, key).Hit?
    requires forall k :: k in m ==> CleanCycle(hash(k), |t|)
    requires t[Around(Home(t, hash, key), 1, |t|)].None?
    ensures SafeToRemove(t, hash, m, key)
  {
    var j := Home(t, hash, key);
    forall k | k in m && PassesThrough(t, hash, k, j) ensures t[Around(j, 1, |t|)].Some? {
      ProbeMeets(t, hash, k);
      var o := Probe(t, hash, k);
      var a :| 0 <= a < o.i && a < |t| && At(t, hash, k, a) == j;
      CleanSlot(hash(k), a, |t|);
      CleanSlot(hash(k), a + 1, |t|);
      assert At(t, hash, k, a + 1) == Around(j, 1, |t|);
    }
  }
}
