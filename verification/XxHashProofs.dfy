/** What the hash does with its input: every byte is used once, and any one piece of the tail
    can be recovered from the hash and the rest of the input. */
module XxHashProofs {
  import opened Prelude
  import opened Products
  import opened Words
  import opened XxHash

  // ---------- every byte is read exactly once ----------

  predicate AllStripes(l: seq<Bytes>)
  {
    forall i :: 0 <= i < |l| ==> |l[i]| == 32
  }

  function StripeList(b: Bytes): (l: seq<Bytes>)
    ensures AllStripes(l)
  {
    if |b| < 32 then [] else [b[..32]] + StripeList(b[32..])
  }

  function FoldStripes(a: Acc, l: seq<Bytes>): Acc
    requires AllStripes(l)
    decreases |l|
  {
    if l == [] then a else FoldStripes(StripeStep(a, l[0]), l[1..])
  }

  lemma {:induction false} CutConcat(b: Bytes)
    ensures Concat(Cut(b)) == b
    decreases |b|
  {
    if b != [] {
      var n := if |b| >= 8 then 8 else if |b| >= 4 then 4 else 1;
      CutConcat(b[n..]);
      CutFirst(b, n);
      assert b == b[..n] + b[n..];
    }
  }

  lemma {:induction false} StripesConcat(b: Bytes, n: nat)
    requires n == Striped(b)
    ensures Concat(StripeList(b)) == b[..n]
    decreases |b|
  {
    if |b| >= 32 {
      StripesConcat(b[32..], n - 32);
      assert StripeList(b) == [b[..32]] + StripeList(b[32..]);
      assert b[..n] == b[..32] + b[32..][..n - 32];
    }
  }

  lemma {:induction false} StripesFold(a: Acc, b: Bytes)
    ensures Stripes(a, b) == FoldStripes(a, StripeList(b))
    decreases |b|
  {
    if |b| >= 32 {
      StripesFold(StripeStep(a, b[..32]), b[32..]);
      assert StripeList(b)[0] == b[..32] && StripeList(b)[1..] == StripeList(b[32..]);
    }
  }

  /** The stripes and the pieces of the tail that the hash is folded over are the input, cut
      up: nothing is skipped and nothing is read twice. */
  lemma {:induction false} ConsumesEveryByte(b: Bytes, seed: uint64)
    requires |b| < TWO_TO_THE_64
    ensures Concat(StripeList(b)) + Concat(Cut(b[Striped(b)..])) == b
    ensures |b| >= 32 ==> Start(b, seed) == Add(Converge(FoldStripes(Init(seed), StripeList(b))), |b|)
  {
    StripesConcat(b, Striped(b));
    StripesFold(Init(seed), b);
    CutConcat(b[Striped(b)..]);
  }

  // ---------- a piece can be recovered ----------

  function ToBytes(w: nat, n: nat): (b: Bytes)
    ensures |b| == n
  {
    if n == 0 then [] else [w % 256] + ToBytes(w / 256, n - 1)
  }

  lemma {:induction false} ToBytesLittleEndian(b: Bytes)
    ensures ToBytes(LittleEndian(b), |b|) == b
  {
    if b != [] {
      var rest := LittleEndian(b[1..]);
      ToBytesLittleEndian(b[1..]);
      LowByte(b[0], rest);
      assert ToBytes(LittleEndian(b), |b|) == [b[0]] + ToBytes(rest, |b| - 1);
      assert b == [b[0]] + b[1..];
    }
  }

  lemma {:induction false} LowByte(x: byte, rest: nat)
    ensures (256 * rest + x) % 256 == x && (256 * rest + x) / 256 == rest
  {
  }

  lemma {:induction false} LittleEndianToBytes(w: nat, n: nat)
    requires w < Pow(256, n)
    ensures LittleEndian(ToBytes(w, n)) == w
  {
    if n > 0 {
      LittleEndianToBytes(w / 256, n - 1);
      assert ToBytes(w, n)[1..] == ToBytes(w / 256, n - 1);
    }
  }

  lemma {:induction false} MixInjective(p: Bytes, q: Bytes)
    requires IsPiece(p) && IsPiece(q) && |p| == |q| && Mix(p) == Mix(q)
    ensures p == q
  {
    Inverses();
    if |p| == 8 {
      MixLaneBijection(Read(p));
      MixLaneBijection(Read(q));
    } else if |p| == 4 {
      MulInverse(Read(p), PRIME_1, INVERSE_1);
      MulInverse(Read(q), PRIME_1, INVERSE_1);
    } else {
      MulInverse(Read(p), PRIME_5, INVERSE_5);
      MulInverse(Read(q), PRIME_5, INVERSE_5);
    }
    ToBytesLittleEndian(p);
    ToBytesLittleEndian(q);
  }

  /** One step of the tail loses neither the accumulator nor the piece. */
  lemma {:induction false} StepInjective(h: uint64, g: uint64, p: Bytes, q: Bytes)
    requires IsPiece(p) && IsPiece(q) && |p| == |q| && Step(h, p) == Step(g, q)
    ensures h == g <==> p == q
  {
    StirBijection(|p|, Xor(h, Mix(p)));
    StirBijection(|q|, Xor(g, Mix(q)));
    assert Xor(h, Mix(p)) == Xor(g, Mix(q));
    XorUndo(h, Mix(p));
    XorUndo(g, Mix(q));
    if h == g {
      MixInjective(p, q);
    }
  }

  /** The pieces behind a point do not merge two different accumulators. */
  lemma {:induction false} FoldInjective(h: uint64, g: uint64, pieces: seq<Bytes>)
    requires AllPieces(pieces) && Fold(h, pieces) == Fold(g, pieces)
    ensures h == g
    decreases |pieces|
  {
    if pieces != [] {
      FoldInjective(Step(h, pieces[0]), Step(g, pieces[0]), pieces[1..]);
      StepInjective(h, g, pieces[0], pieces[0]);
    }
  }

  /** Two lists of pieces that agree everywhere but at j. */
  ghost predicate AgreeBut(ps: seq<Bytes>, qs: seq<Bytes>, j: nat)
  {
    && |ps| == |qs| && AllPieces(ps) && AllPieces(qs) && j < |ps| && |ps[j]| == |qs[j]|
    && forall i :: 0 <= i < |ps| && i != j ==> ps[i] == qs[i]
  }

  lemma {:induction false} FoldOnePiece(h: uint64, ps: seq<Bytes>, qs: seq<Bytes>, j: nat)
    requires AgreeBut(ps, qs, j) && Fold(h, ps) == Fold(h, qs)
    ensures ps == qs
    decreases |ps|
  {
    AgreeTails(ps, qs, j);
    if j == 0 {
      FoldInjective(Step(h, ps[0]), Step(h, qs[0]), ps[1..]);
      StepInjective(h, h, ps[0], qs[0]);
    } else {
      FoldOnePiece(Step(h, ps[0]), ps[1..], qs[1..], j - 1);
    }
  }

  lemma {:induction false} AgreeTails(ps: seq<Bytes>, qs: seq<Bytes>, j: nat)
    requires AgreeBut(ps, qs, j)
    ensures if j == 0 then ps[1..] == qs[1..] else ps[0] == qs[0] && AgreeBut(ps[1..], qs[1..], j - 1)
    ensures ps[0] == qs[0] && ps[1..] == qs[1..] ==> ps == qs
  {
    assert ps == [ps[0]] + ps[1..] && qs == [qs[0]] + qs[1..];
  }

  lemma {:induction false} CutLengths(a: Bytes, b: Bytes)
    requires |a| == |b|
    ensures |Cut(a)| == |Cut(b)|
    ensures forall i :: 0 <= i < |Cut(a)| ==> |Cut(a)[i]| == |Cut(b)[i]|
    decreases |a|
  {
    if a != [] {
      var n := if |a| >= 8 then 8 else if |a| >= 4 then 4 else 1;
      CutLengths(a[n..], b[n..]);
      CutFirst(a, n);
      CutFirst(b, n);
    }
  }

  lemma {:induction false} CutFirst(b: Bytes, n: nat)
    requires b != [] && n == (if |b| >= 8 then 8 else if |b| >= 4 then 4 else 1)
    ensures Cut(b) == [b[..n]] + Cut(b[n..])
  {
  }

  lemma {:induction false} SameStripes(acc: Acc, a: Bytes, b: Bytes, k: nat)
    requires |a| == |b| && 32 * k <= |a| < 32 * k + 32 && a[..32 * k] == b[..32 * k]
    ensures Stripes(acc, a) == Stripes(acc, b)
    decreases k
  {
    if k > 0 {
      SamePrefix(a, b, 32 * k);
      SameStripes(StripeStep(acc, a[..32]), a[32..], b[32..], k - 1);
    }
  }

  lemma {:induction false} SamePrefix(a: Bytes, b: Bytes, n: nat)
    requires 32 <= n <= |a| == |b| && a[..n] == b[..n]
    ensures a[..32] == b[..32] && a[32..][..n - 32] == b[32..][..n - 32]
  {
    assert a[..32] == a[..n][..32] && b[..32] == b[..n][..32];
    assert a[32..][..n - 32] == a[..n][32..] && b[32..][..n - 32] == b[..n][32..];
  }

  /** Tail injectivity: two inputs of one length, however long, that differ in nothing but one
      piece of the tail (an eight-byte lane, the four-byte word or a single byte after the last
      full stripe) have the same hash only if they are equal. */
  lemma {:induction false} TailInjective(a: Bytes, b: Bytes, seed: uint64, j: nat)
    requires |a| == |b| < TWO_TO_THE_64 && a[..Striped(a)] == b[..Striped(b)]
    requires j < |Cut(a[Striped(a)..])|
    requires forall i :: 0 <= i < |Cut(a[Striped(a)..])| && i != j && i < |Cut(b[Striped(b)..])| ==>
               Cut(a[Striped(a)..])[i] == Cut(b[Striped(b)..])[i]
    ensures Hash(a, seed) == Hash(b, seed) <==> a == b
  {
    if Hash(a, seed) == Hash(b, seed) {
      CutLengths(a[Striped(a)..], b[Striped(b)..]);
      SameStart(a, b, seed);
      SamePieces(Start(a, seed), Cut(a[Striped(a)..]), Cut(b[Striped(b)..]), j);
      SameInput(a, b, Striped(a));
    }
  }

  lemma {:induction false} SameInput(a: Bytes, b: Bytes, n: nat)
    requires n <= |a| == |b| && a[..n] == b[..n] && Cut(a[n..]) == Cut(b[n..])
    ensures a == b
  {
    CutConcat(a[n..]);
    CutConcat(b[n..]);
    assert a == a[..n] + a[n..] && b == b[..n] + b[n..];
  }

  lemma {:induction false} SameStart(a: Bytes, b: Bytes, seed: uint64)
    requires |a| == |b| < TWO_TO_THE_64 && a[..Striped(a)] == b[..Striped(b)]
    ensures Start(a, seed) == Start(b, seed)
  {
    SameStripes(Init(seed), a, b, |a| / 32);
  }

  lemma {:induction false} SamePieces(h: uint64, ps: seq<Bytes>, qs: seq<Bytes>, j: nat)
    requires AgreeBut(ps, qs, j) && Finish(Fold(h, ps)) == Finish(Fold(h, qs))
    ensures ps == qs
  {
    FinishBijection(Fold(h, ps));
    FinishBijection(Fold(h, qs));
    FoldOnePiece(h, ps, qs, j);
  }

  // ---------- the stripes lose nothing before they converge ----------

  lemma {:induction false} RoundInjective(v: uint64, w: uint64, k: uint64, l: uint64)
    requires Round(v, k) == Round(w, l)
    ensures v == w <==> k == l
  {
    Inverses();
    RotlMulInverse(Add(v, Mul(k, PRIME_2)), 31, PRIME_1, INVERSE_1);
    RotlMulInverse(Add(w, Mul(l, PRIME_2)), 31, PRIME_1, INVERSE_1);
    AddCancel(v, w, Mul(k, PRIME_2), Mul(l, PRIME_2));
    MulInverse(k, PRIME_2, INVERSE_2);
    MulInverse(l, PRIME_2, INVERSE_2);
  }

  lemma {:induction false} AddCancel(v: uint64, w: uint64, x: uint64, y: uint64)
    requires Add(v, x) == Add(w, y)
    ensures v == w <==> x == y
  {
    AddInverse(v, x);
    AddInverse(w, y);
    assert Add(v, x) == Add(x, v) && Add(w, y) == Add(y, w);
    AddInverse(x, v);
    AddInverse(y, w);
  }

  lemma {:induction false} ReadInjective(b: Bytes, c: Bytes)
    requires |b| == |c| <= 8 && Read(b) == Read(c)
    ensures b == c
  {
    ToBytesLittleEndian(b);
    ToBytesLittleEndian(c);
  }

  /** A stripe step loses neither the accumulators nor the 32 bytes of the stripe. */
  lemma {:induction false} StripeInjective(a: Acc, c: Acc, s: Bytes, t: Bytes)
    requires |s| == |t| == 32 && StripeStep(a, s) == StripeStep(c, t)
    ensures a == c <==> s == t
  {
    RoundInjective(a.v1, c.v1, Read(s[0..8]), Read(t[0..8]));
    RoundInjective(a.v2, c.v2, Read(s[8..16]), Read(t[8..16]));
    RoundInjective(a.v3, c.v3, Read(s[16..24]), Read(t[16..24]));
    RoundInjective(a.v4, c.v4, Read(s[24..32]), Read(t[24..32]));
    if a == c {
      ReadInjective(s[0..8], t[0..8]);
      ReadInjective(s[8..16], t[8..16]);
      ReadInjective(s[16..24], t[16..24]);
      ReadInjective(s[24..32], t[24..32]);
      FourLanes(s);
      FourLanes(t);
    }
  }

  lemma {:induction false} FourLanes(s: Bytes)
    requires |s| == 32
    ensures s == s[0..8] + s[8..16] + s[16..24] + s[24..32]
  {
  }

  lemma {:induction false} FoldStripesInjective(a: Acc, c: Acc, l: seq<Bytes>)
    requires AllStripes(l) && FoldStripes(a, l) == FoldStripes(c, l)
    ensures a == c
    decreases |l|
  {
    if l != [] {
      FoldStripesInjective(StripeStep(a, l[0]), StripeStep(c, l[0]), l[1..]);
      StripeInjective(a, c, l[0], l[0]);
    }
  }

  /** Two inputs that differ in nothing but one stripe leave the stripe loop with different
      accumulators; only their convergence into one word can make the hashes equal. */
  lemma {:induction false} OneStripeInjective(a: Acc, l: seq<Bytes>, m: seq<Bytes>, j: nat)
    requires AllStripes(l) && AllStripes(m) && |l| == |m| && j < |l|
    requires forall i :: 0 <= i < |l| && i != j ==> l[i] == m[i]
    ensures FoldStripes(a, l) == FoldStripes(a, m) <==> l == m
    decreases |l|
  {
    if FoldStripes(a, l) == FoldStripes(a, m) {
      if j == 0 {
        assert l[1..] == m[1..];
        FoldStripesInjective(StripeStep(a, l[0]), StripeStep(a, m[0]), l[1..]);
        StripeInjective(a, a, l[0], m[0]);
      } else {
        OneStripeInjective(StripeStep(a, l[0]), l[1..], m[1..], j - 1);
      }
      assert l == [l[0]] + l[1..] && m == [m[0]] + m[1..];
    }
  }

  /** The seed of an input shorter than a stripe can be recovered from its hash. */
  lemma {:induction false} SeedInjective(b: Bytes, seed: uint64, other: uint64)
    requires |b| < 32 && Hash(b, seed) == Hash(b, other)
    ensures seed == other
  {
    var ps := Cut(b[Striped(b)..]);
    FinishBijection(Fold(Start(b, seed), ps));
    FinishBijection(Fold(Start(b, other), ps));
    FoldInjective(Start(b, seed), Start(b, other), ps);
    AddInverse(seed, PRIME_5);
    AddInverse(other, PRIME_5);
    AddInverse(Add(seed, PRIME_5), |b|);
    AddInverse(Add(other, PRIME_5), |b|);
  }

  /** The seed enters all four accumulators, in each as it is. */
  lemma {:induction false} InitShift(seed: uint64, d: uint64)
    ensures var a, b := Init(seed), Init(Add(seed, d));
            b.v1 == Add(a.v1, d) && b.v2 == Add(a.v2, d) && b.v3 == Add(a.v3, d) && b.v4 == Add(a.v4, d)
  {
    AddSwap(seed, d, PRIME_1);
    AddSwap(Add(seed, PRIME_1), d, PRIME_2);
    AddSwap(seed, d, PRIME_2);
    AddSwap(seed, d, 0);
    SubSwap(seed, d, PRIME_1);
  }

  lemma {:induction false} AddSwap(x: uint64, d: uint64, c: uint64)
    ensures Add(Add(x, d), c) == Add(Add(x, c), d)
  {
    assert Add(x, d) == x + d || Add(x, d) == x + d - TWO_TO_THE_64;
    assert Add(x, c) == x + c || Add(x, c) == x + c - TWO_TO_THE_64;
  }

  lemma {:induction false} SubSwap(x: uint64, d: uint64, c: uint64)
    ensures Sub(Add(x, d), c) == Add(Sub(x, c), d)
  {
    assert Add(x, d) == x + d || Add(x, d) == x + d - TWO_TO_THE_64;
    assert Sub(x, c) == x - c || Sub(x, c) == x - c + TWO_TO_THE_64;
  }

  /** For inputs of a stripe or more, different seeds leave the stripe loop with different accumulators. */
  lemma {:induction false} StripesSeedInjective(l: seq<Bytes>, seed: uint64, other: uint64)
    requires AllStripes(l)
    ensures FoldStripes(Init(seed), l) == FoldStripes(Init(other), l) <==> seed == other
  {
    if FoldStripes(Init(seed), l) == FoldStripes(Init(other), l) {
      FoldStripesInjective(Init(seed), Init(other), l);
      AddInverse(seed, PRIME_2);
      AddInverse(other, PRIME_2);
    }
  }

  // ---------- eight-byte keys ----------

  /** The eight bytes whose hash is y: the inverse of the hash on pointer-sized keys. */
  function Unhash8(y: uint64, seed: uint64): (b: Bytes)
    ensures |b| == 8
  {
    var h := Add(Add(seed, PRIME_5), 8);
    ToBytes(UnmixLane(Xor(h, Unstir(8, Unfinish(y)))), 8)
  }

  lemma {:induction false} Hash8(b: Bytes, seed: uint64)
    requires |b| == 8
    ensures Hash(b, seed) == Finish(Stir(8, Xor(Add(Add(seed, PRIME_5), 8), MixLane(Read(b)))))
  {
    assert Striped(b) == 0 && b[0..] == b && b[..8] == b && b[8..] == [];
    assert Cut(b) == [b];
    assert Fold(Start(b, seed), [b]) == Step(Start(b, seed), b);
  }

  /** On eight-byte keys, which is what the graph stores, the hash is a bijection onto uint64_t
      for every seed: no two pointers collide before the reduction to a slot. */
  lemma {:induction false} Hash8Bijection(b: Bytes, y: uint64, seed: uint64)
    requires |b| == 8
    ensures Unhash8(Hash(b, seed), seed) == b
    ensures Hash(Unhash8(y, seed), seed) == y
  {
    var h := Add(Add(seed, PRIME_5), 8);
    var k := Read(b);
    Hash8(b, seed);
    FinishBijection(Stir(8, Xor(h, MixLane(k))));
    StirBijection(8, Xor(h, MixLane(k)));
    XorUndo(h, MixLane(k));
    MixLaneBijection(k);
    ToBytesLittleEndian(b);

    var x := Unstir(8, Unfinish(y));
    var m := Xor(h, x);
    assert Pow(256, 8) == TWO_TO_THE_64;
    LittleEndianToBytes(UnmixLane(m), 8);
    Hash8(Unhash8(y, seed), seed);
    MixLaneBijection(m);
    XorUndo(h, x);
    StirBijection(8, Unfinish(y));
    FinishBijection(y);
  }

  // ---------- one lane decides the hash ----------

  /** The accumulator from which a step with the piece p leads to y. */
  function Unstep(y: uint64, p: Bytes): uint64
    requires IsPiece(p)
  {
    Xor(Unstir(|p|, y), Mix(p))
  }

  function Unfold(y: uint64, pieces: seq<Bytes>): uint64
    requires AllPieces(pieces)
    decreases |pieces|
  {
    if pieces == [] then y else Unstep(Unfold(y, pieces[1..]), pieces[0])
  }

  lemma {:induction false} StepIs(h: uint64, y: uint64, p: Bytes)
    requires IsPiece(p)
    ensures Step(h, p) == y <==> Xor(h, Mix(p)) == Unstir(|p|, y)
    ensures Step(h, p) == y <==> h == Unstep(y, p)
  {
    StirBijection(|p|, Xor(h, Mix(p)));
    StirBijection(|p|, y);
    XorUndo(h, Mix(p));
    XorUndo(Unstir(|p|, y), Mix(p));
  }

  /** The tail steps behind a point are a bijection of the accumulator. */
  lemma {:induction false} FoldIs(h: uint64, y: uint64, pieces: seq<Bytes>)
    requires AllPieces(pieces)
    ensures Fold(h, pieces) == y <==> h == Unfold(y, pieces)
    decreases |pieces|
  {
    if pieces != [] {
      FoldIs(Step(h, pieces[0]), y, pieces[1..]);
      StepIs(h, Unfold(y, pieces[1..]), pieces[0]);
    }
  }

  /** The lane with which a step leads from h to y. */
  function LaneBetween(h: uint64, y: uint64): (lane: Bytes)
    ensures |lane| == 8
  {
    ToBytes(UnmixLane(Xor(h, Unstir(8, y))), 8)
  }

  lemma {:induction false} LaneIs(h: uint64, y: uint64, lane: Bytes)
    requires |lane| == 8
    ensures Step(h, lane) == y <==> lane == LaneBetween(h, y)
  {
    var m := Xor(h, Unstir(8, y));
    StepIs(h, y, lane);
    XorUndo(h, Unstir(8, y));
    XorUndo(h, Mix(lane));
    MixLaneBijection(Read(lane));
    MixLaneBijection(m);
    ToBytesLittleEndian(lane);
    assert Pow(256, 8) == TWO_TO_THE_64;
    LittleEndianToBytes(UnmixLane(m), 8);
  }

  function WithLane(b: Bytes, at: nat, lane: Bytes): (r: Bytes)
    requires at + 8 <= |b| && |lane| == 8
    ensures |r| == |b|
  {
    b[..at] + lane + b[at + 8..]
  }

  /** The value of lane j of a tail that takes the accumulator from h to y. */
  function LaneOf(h: uint64, tail: Bytes, j: nat, y: uint64): (lane: Bytes)
    requires 8 * j + 8 <= |tail|
    ensures |lane| == 8
    decreases j
  {
    if j == 0 then LaneBetween(h, Unfold(y, Cut(tail[8..])))
    else LaneOf(Step(h, tail[..8]), tail[8..], j - 1, y)
  }

  lemma {:induction false} LaneSplits(tail: Bytes, at: nat, lane: Bytes)
    requires at + 8 <= |tail| && |lane| == 8
    ensures var t := WithLane(tail, at, lane);
            && (at == 0 ==> t[..8] == lane && t[8..] == tail[8..])
            && (at >= 8 ==> t[..8] == tail[..8] && t[8..] == WithLane(tail[8..], at - 8, lane))
  {
  }

  lemma {:induction false} TailLaneIs(h: uint64, tail: Bytes, j: nat, y: uint64, lane: Bytes)
    requires 8 * j + 8 <= |tail| && |lane| == 8
    ensures Fold(h, Cut(WithLane(tail, 8 * j, lane))) == y <==> lane == LaneOf(h, tail, j, y)
    decreases j
  {
    CutFirst(WithLane(tail, 8 * j, lane), 8);
    LaneSplits(tail, 8 * j, lane);
    if j == 0 {
      FoldIs(Step(h, lane), y, Cut(tail[8..]));
      LaneIs(h, Unfold(y, Cut(tail[8..])), lane);
    } else {
      TailLaneIs(Step(h, tail[..8]), tail[8..], j - 1, y, lane);
    }
  }

  /** Whatever the rest of the input, however long, and the seed: one eight-byte lane of the tail can
      be chosen in exactly one way to give the hash a wanted value. */
  lemma {:induction false} OneLaneBijection(b: Bytes, seed: uint64, j: nat, y: uint64, lane: Bytes)
    requires |b| < TWO_TO_THE_64 && Striped(b) + 8 * j + 8 <= |b| && |lane| == 8
    ensures Hash(WithLane(b, Striped(b) + 8 * j, lane), seed) == y <==>
            lane == LaneOf(Start(b, seed), b[Striped(b)..], j, Unfinish(y))
  {
    var n := Striped(b);
    var c := WithLane(b, n + 8 * j, lane);
    assert c[..n] == b[..n] && c[n..] == WithLane(b[n..], 8 * j, lane);
    SameStart(c, b, seed);
    TailLaneIs(Start(b, seed), b[n..], j, Unfinish(y), lane);
    FinishBijection(Fold(Start(b, seed), Cut(c[n..])));
    FinishBijection(y);
  }

  // ---------- the loops ----------

  /** xxh3, with the pointer p as an index into the input. */
  method Xxh3(data: Bytes, seed: uint64) returns (h64: uint64)
    requires |data| < TWO_TO_THE_64
    ensures h64 == Hash(data, seed)
  {
    var p := 0;
    if |data| >= 32 {
      h64, p := StripeLoop(data, seed);
    } else {
      h64 := Add(seed, PRIME_5);
      StripedIs(data, 0);
    }
    h64 := Add(h64, |data|);
    h64, p := LaneLoop(data, p, h64);
    h64 := WordAndByteLoop(data, p, h64);
    h64 := FinalMix(h64);
  }

  lemma {:induction false} StripedIs(b: Bytes, k: nat)
    requires 32 * k <= |b| < 32 * k + 32
    ensures Striped(b) == 32 * k
  {
  }

  method FinalMix(h: uint64) returns (h64: uint64)
    ensures h64 == Finish(h)
  {
    h64 := Xor(h, ShiftRight(h, 33));
    h64 := Mul(h64, PRIME_2);
    h64 := Xor(h64, ShiftRight(h64, 29));
    h64 := Mul(h64, PRIME_3);
    h64 := Xor(h64, ShiftRight(h64, 32));
  }

  /** The do-while loop over the full stripes, and the convergence of its four accumulators. */
  method StripeLoop(data: Bytes, seed: uint64) returns (h64: uint64, p: nat)
    requires |data| >= 32
    ensures p == Striped(data) && h64 == Converge(Stripes(Init(seed), data))
  {
    var limit := |data| - 32;
    var v1 := Add(Add(seed, PRIME_1), PRIME_2);
    var v2 := Add(seed, PRIME_2);
    var v3 := Add(seed, 0);
    var v4 := Sub(seed, PRIME_1);
    p := 0;
    var again := true;
    ghost var k := 0;
    while again
      invariant p == 32 * k <= |data|
      invariant again <==> p <= limit
      invariant Stripes(Init(seed), data) == Stripes(Acc(v1, v2, v3, v4), data[p..])
      decreases |data| - p
    {
      NextStripe(Acc(v1, v2, v3, v4), data, p);
      v1 := AccumulateLane(v1, data, p);
      v2 := AccumulateLane(v2, data, p + 8);
      v3 := AccumulateLane(v3, data, p + 16);
      v4 := AccumulateLane(v4, data, p + 24);
      p := p + 32;
      k := k + 1;
      again := p <= limit;
    }
    StripedIs(data, k);
    h64 := Add(Add(Add(Rotl(v1, 1), Rotl(v2, 7)), Rotl(v3, 12)), Rotl(v4, 18));
    h64 := MergeAccumulator(h64, v1);
    h64 := MergeAccumulator(h64, v2);
    h64 := MergeAccumulator(h64, v3);
    h64 := MergeAccumulator(h64, v4);
  }

  method AccumulateLane(acc: uint64, data: Bytes, p: nat) returns (v: uint64)
    requires p + 8 <= |data|
    ensures v == Round(acc, Read(data[p..p + 8]))
  {
    v := Add(acc, Mul(Read(data[p..p + 8]), PRIME_2));
    v := Rotl(v, 31);
    v := Mul(v, PRIME_1);
  }

  method MergeAccumulator(h: uint64, acc: uint64) returns (h64: uint64)
    ensures h64 == MergeRound(h, acc)
  {
    var v := Mul(acc, PRIME_2);
    v := Rotl(v, 31);
    v := Mul(v, PRIME_1);
    h64 := Xor(h, v);
    h64 := Add(Mul(h64, PRIME_1), PRIME_4);
  }

  /** The loop over eight-byte lanes. */
  method LaneLoop(data: Bytes, start: nat, h: uint64) returns (h64: uint64, p: nat)
    requires start <= |data|
    ensures start <= p <= |data| < p + 8
    ensures Fold(h64, Cut(data[p..])) == Fold(h, Cut(data[start..]))
  {
    p := start;
    h64 := h;
    while p + 8 <= |data|
      invariant start <= p <= |data|
      invariant Fold(h64, Cut(data[p..])) == Fold(h, Cut(data[start..]))
    {
      NextLane(h64, data, p);
      var k1 := Read(data[p..p + 8]);
      k1 := Mul(k1, PRIME_2);
      k1 := Rotl(k1, 31);
      k1 := Mul(k1, PRIME_1);
      h64 := Xor(h64, k1);
      h64 := Add(Mul(Rotl(h64, 27), PRIME_1), PRIME_4);
      p := p + 8;
    }
  }

  /** The four-byte word, if there is one, and the loop over single bytes. */
  method WordAndByteLoop(data: Bytes, start: nat, h: uint64) returns (h64: uint64)
    requires start <= |data| < start + 8
    ensures h64 == Fold(h, Cut(data[start..]))
  {
    var p, end := start, |data|;
    h64 := h;
    if p + 4 <= end {
      NextWord(h64, data, p);
      h64 := Xor(h64, Mul(Read(data[p..p + 4]), PRIME_1));
      h64 := Add(Mul(Rotl(h64, 23), PRIME_2), PRIME_3);
      p := p + 4;
    }
    while p < end
      invariant start <= p <= end < p + 4
      invariant Fold(h64, Cut(data[p..])) == Fold(h, Cut(data[start..]))
    {
      NextByte(h64, data, p);
      h64 := Xor(h64, Mul(data[p], PRIME_5));
      h64 := Mul(Rotl(h64, 11), PRIME_1);
      p := p + 1;
    }
    assert data[p..] == [];
  }

  lemma {:induction false} NextStripe(a: Acc, data: Bytes, p: nat)
    requires p + 32 <= |data|
    ensures Stripes(a, data[p..]) ==
            Stripes(Acc(Round(a.v1, Read(data[p..p + 8])), Round(a.v2, Read(data[p + 8..p + 16])),
                        Round(a.v3, Read(data[p + 16..p + 24])), Round(a.v4, Read(data[p + 24..p + 32]))),
                    data[p + 32..])
  {
    var b := data[p..];
    assert b[..32][0..8] == data[p..p + 8] && b[..32][8..16] == data[p + 8..p + 16];
    assert b[..32][16..24] == data[p + 16..p + 24] && b[..32][24..32] == data[p + 24..p + 32];
    assert b[32..] == data[p + 32..];
  }

  lemma {:induction false} NextPiece(h: uint64, b: Bytes, n: nat)
    requires 0 < n <= |b| && n == (if |b| >= 8 then 8 else if |b| >= 4 then 4 else 1)
    ensures Fold(h, Cut(b)) == Fold(Step(h, b[..n]), Cut(b[n..]))
  {
    CutFirst(b, n);
    assert Cut(b)[0] == b[..n] && Cut(b)[1..] == Cut(b[n..]);
  }

  lemma {:induction false} NextLane(h: uint64, data: Bytes, p: nat)
    requires p + 8 <= |data|
    ensures Fold(h, Cut(data[p..])) ==
            Fold(Add(Mul(Rotl(Xor(h, MixLane(Read(data[p..p + 8]))), 27), PRIME_1), PRIME_4), Cut(data[p + 8..]))
  {
    NextPiece(h, data[p..], 8);
    assert data[p..][..8] == data[p..p + 8] && data[p..][8..] == data[p + 8..];
  }

  lemma {:induction false} NextWord(h: uint64, data: Bytes, p: nat)
    requires p + 4 <= |data| < p + 8
    ensures Fold(h, Cut(data[p..])) ==
            Fold(Add(Mul(Rotl(Xor(h, Mul(Read(data[p..p + 4]), PRIME_1)), 23), PRIME_2), PRIME_3), Cut(data[p + 4..]))
  {
    NextPiece(h, data[p..], 4);
    assert data[p..][..4] == data[p..p + 4] && data[p..][4..] == data[p + 4..];
  }

  lemma {:induction false} NextByte(h: uint64, data: Bytes, p: nat)
    requires p < |data| < p + 4
    ensures Fold(h, Cut(data[p..])) ==
            Fold(Mul(Rotl(Xor(h, Mul(data[p], PRIME_5)), 11), PRIME_1), Cut(data[p + 1..]))
  {
    NextPiece(h, data[p..], 1);
    assert data[p..][..1] == [data[p]] && data[p..][1..] == data[p + 1..];
    OneByte(data[p]);
  }

  lemma {:induction false} OneByte(x: byte)
    ensures Read([x]) == x
  {
    assert LittleEndian([x][1..]) == 0;
  }
}
