/** src/internal/hash.c as a function of the input bytes.  The function is called xxh3 there;
    its arithmetic is that of XXH64, with the words read in little-endian order. */
module XxHash {
  import opened Prelude
  import opened Products
  import opened Words

  const PRIME_1: uint64 := 11400714785074694791
  const PRIME_2: uint64 := 14029467366897019727
  const PRIME_3: uint64 := 1609587929392839161
  const PRIME_4: uint64 := 9650029242287828579
  const PRIME_5: uint64 := 2870177450012600261

  // ---------- reading ----------

  /** The unsigned integer stored in b, lowest byte first. */
  function LittleEndian(b: Bytes): nat
  {
    if b == [] then 0 else b[0] + 256 * LittleEndian(b[1..])
  }

  lemma {:induction false} LittleEndianBound(b: Bytes)
    ensures LittleEndian(b) < Pow(256, |b|)
  {
    if b != [] {
      LittleEndianBound(b[1..]);
    }
  }

  lemma {:induction false} ReadBound(b: Bytes)
    requires |b| <= 8
    ensures LittleEndian(b) < TWO_TO_THE_64
  {
    LittleEndianBound(b);
    PowSum(256, |b|, 8 - |b|);
    PowPositive(256, 8 - |b|);
    MulMono(Pow(256, |b|), Pow(256, |b|), 1, Pow(256, 8 - |b|));
    assert Pow(256, 8) == TWO_TO_THE_64;
  }

  /** XXH_read64 and XXH_read32, and the plain byte. */
  function Read(b: Bytes): uint64
    requires |b| <= 8
  {
    ReadBound(b);
    LittleEndian(b)
  }

  // ---------- the stripes ----------

  datatype Acc = Acc(v1: uint64, v2: uint64, v3: uint64, v4: uint64)

  function Init(seed: uint64): Acc
  {
    Acc(Add(Add(seed, PRIME_1), PRIME_2), Add(seed, PRIME_2), Add(seed, 0), Sub(seed, PRIME_1))
  }

  function Round(v: uint64, lane: uint64): uint64
  {
    Mul(Rotl(Add(v, Mul(lane, PRIME_2)), 31), PRIME_1)
  }

  function StripeStep(a: Acc, b: Bytes): Acc
    requires |b| == 32
  {
    Acc(Round(a.v1, Read(b[0..8])), Round(a.v2, Read(b[8..16])),
        Round(a.v3, Read(b[16..24])), Round(a.v4, Read(b[24..32])))
  }

  function Stripes(a: Acc, b: Bytes): Acc
    decreases |b|
  {
    if |b| < 32 then a else Stripes(StripeStep(a, b[..32]), b[32..])
  }

  function MixLane(k: uint64): uint64
  {
    Mul(Rotl(Mul(k, PRIME_2), 31), PRIME_1)
  }

  function MergeRound(h: uint64, v: uint64): uint64
  {
    Add(Mul(Xor(h, MixLane(v)), PRIME_1), PRIME_4)
  }

  function Converge(a: Acc): uint64
  {
    var h := Add(Add(Add(Rotl(a.v1, 1), Rotl(a.v2, 7)), Rotl(a.v3, 12)), Rotl(a.v4, 18));
    MergeRound(MergeRound(MergeRound(MergeRound(h, a.v1), a.v2), a.v3), a.v4)
  }

  // ---------- the tail ----------

  predicate IsPiece(p: Bytes)
  {
    |p| == 8 || |p| == 4 || |p| == 1
  }

  predicate AllPieces(pieces: seq<Bytes>)
  {
    forall i :: 0 <= i < |pieces| ==> IsPiece(pieces[i])
  }

  /** What follows the last full stripe, cut as the loops of the tail read it: lanes of eight
      bytes, then at most one word of four, then single bytes. */
  function Cut(b: Bytes): (pieces: seq<Bytes>)
    ensures AllPieces(pieces)
  {
    if |b| >= 8 then [b[..8]] + Cut(b[8..])
    else if |b| >= 4 then [b[..4]] + Cut(b[4..])
    else if |b| >= 1 then [b[..1]] + Cut(b[1..])
    else []
  }

  /** What a piece is turned into before it is added to the accumulator. */
  function Mix(p: Bytes): uint64
    requires IsPiece(p)
  {
    if |p| == 8 then MixLane(Read(p))
    else if |p| == 4 then Mul(Read(p), PRIME_1)
    else Mul(Read(p), PRIME_5)
  }

  /** What happens to the accumulator after a piece of n bytes has been added. */
  function Stir(n: nat, x: uint64): uint64
  {
    if n == 8 then Add(Mul(Rotl(x, 27), PRIME_1), PRIME_4)
    else if n == 4 then Add(Mul(Rotl(x, 23), PRIME_2), PRIME_3)
    else Mul(Rotl(x, 11), PRIME_1)
  }

  function Step(h: uint64, p: Bytes): uint64
    requires IsPiece(p)
  {
    Stir(|p|, Xor(h, Mix(p)))
  }

  function Fold(h: uint64, pieces: seq<Bytes>): uint64
    requires AllPieces(pieces)
    decreases |pieces|
  {
    if pieces == [] then h else Fold(Step(h, pieces[0]), pieces[1..])
  }

  function Finish(h: uint64): uint64
  {
    XorShift(Mul(XorShift(Mul(XorShift(h, 33), PRIME_2), 29), PRIME_3), 32)
  }

  // ---------- the whole hash ----------

  /** The number of bytes in full stripes. */
  function Striped(b: Bytes): (n: nat)
    ensures n <= |b| && |b| - n < 32 && n % 32 == 0
  {
    |b| - |b| % 32
  }

  function Start(b: Bytes, seed: uint64): uint64
    requires |b| < TWO_TO_THE_64
  {
    Add(if |b| >= 32 then Converge(Stripes(Init(seed), b)) else Add(seed, PRIME_5), |b|)
  }

  function Hash(b: Bytes, seed: uint64): uint64
    requires |b| < TWO_TO_THE_64
  {
    Finish(Fold(Start(b, seed), Cut(b[Striped(b)..])))
  }

  // ---------- undoing the steps ----------

  const INVERSE_1: uint64 := 614540362697595703
  const INVERSE_2: uint64 := 839798700976720815
  const INVERSE_3: uint64 := 16855272203555305545
  const INVERSE_5: uint64 := 14236653164957433613

  lemma {:induction false} Inverses()
    ensures (PRIME_1 * INVERSE_1) % TWO_TO_THE_64 == 1 && (INVERSE_1 * PRIME_1) % TWO_TO_THE_64 == 1
    ensures (PRIME_2 * INVERSE_2) % TWO_TO_THE_64 == 1 && (INVERSE_2 * PRIME_2) % TWO_TO_THE_64 == 1
    ensures (PRIME_3 * INVERSE_3) % TWO_TO_THE_64 == 1 && (INVERSE_3 * PRIME_3) % TWO_TO_THE_64 == 1
    ensures (PRIME_5 * INVERSE_5) % TWO_TO_THE_64 == 1 && (INVERSE_5 * PRIME_5) % TWO_TO_THE_64 == 1
  {
  }

  function Unstir(n: nat, y: uint64): uint64
  {
    if n == 8 then Rotl(Mul(Sub(y, PRIME_4), INVERSE_1), 37)
    else if n == 4 then Rotl(Mul(Sub(y, PRIME_3), INVERSE_2), 41)
    else Rotl(Mul(y, INVERSE_1), 53)
  }

  function UnmixLane(m: uint64): uint64
  {
    Mul(Rotl(Mul(m, INVERSE_1), 33), INVERSE_2)
  }

  function Unfinish(y: uint64): uint64
  {
    XorShift(Mul(UnXorShift(Mul(XorShift(y, 32), INVERSE_3), 29), INVERSE_2), 33)
  }

  /** Multiplying by an odd prime, then rotating: undone by the inverse and the rest of the turn. */
  lemma {:induction false} RotlMulInverse(x: uint64, r: nat, c: uint64, d: uint64)
    requires 0 < r < 64 && (c * d) % TWO_TO_THE_64 == 1 && (d * c) % TWO_TO_THE_64 == 1
    ensures Rotl(Mul(Mul(Rotl(x, r), c), d), 64 - r) == x
    ensures Mul(Rotl(Rotl(Mul(x, d), 64 - r), r), c) == x
  {
    MulInverse(Rotl(x, r), c, d);
    RotlInverse(x, r);
    RotlInverse(Mul(x, d), 64 - r);
    MulInverse(x, d, c);
  }

  lemma {:induction false} AddInverse(x: uint64, c: uint64)
    ensures Sub(Add(x, c), c) == x && Add(Sub(x, c), c) == x
  {
  }

  lemma {:induction false} StirBijection(n: nat, x: uint64)
    ensures Unstir(n, Stir(n, x)) == x && Stir(n, Unstir(n, x)) == x
  {
    Inverses();
    if n == 8 {
      AddInverse(Mul(Rotl(x, 27), PRIME_1), PRIME_4);
      AddInverse(x, PRIME_4);
      RotlMulInverse(x, 27, PRIME_1, INVERSE_1);
      RotlMulInverse(Sub(x, PRIME_4), 27, PRIME_1, INVERSE_1);
    } else if n == 4 {
      AddInverse(Mul(Rotl(x, 23), PRIME_2), PRIME_3);
      AddInverse(x, PRIME_3);
      RotlMulInverse(x, 23, PRIME_2, INVERSE_2);
      RotlMulInverse(Sub(x, PRIME_3), 23, PRIME_2, INVERSE_2);
    } else {
      RotlMulInverse(x, 11, PRIME_1, INVERSE_1);
    }
  }

  lemma {:induction false} MixLaneBijection(k: uint64)
    ensures UnmixLane(MixLane(k)) == k && MixLane(UnmixLane(k)) == k
  {
    Inverses();
    RotlMulInverse(Mul(k, PRIME_2), 31, PRIME_1, INVERSE_1);
    MulInverse(k, PRIME_2, INVERSE_2);
    RotlMulInverse(k, 31, PRIME_1, INVERSE_1);
    MulInverse(Rotl(Mul(k, INVERSE_1), 33), INVERSE_2, PRIME_2);
  }

  /** The final mix is a bijection of uint64_t, with Unfinish as its inverse. */
  lemma {:induction false} FinishBijection(h: uint64)
    ensures Unfinish(Finish(h)) == h && Finish(Unfinish(h)) == h
  {
    Inverses();
    FinishBack(h);
    FinishForth(h);
  }

  lemma {:induction false} FinishBack(h: uint64)
    requires (PRIME_2 * INVERSE_2) % TWO_TO_THE_64 == 1 && (PRIME_3 * INVERSE_3) % TWO_TO_THE_64 == 1
    ensures Unfinish(Finish(h)) == h
  {
    var a := XorShift(h, 33);
    var b := Mul(a, PRIME_2);
    var c := Mul(XorShift(b, 29), PRIME_3);
    XorShiftInverse(c, 32);
    MulInverse(XorShift(b, 29), PRIME_3, INVERSE_3);
    UnXorShiftInverse(b, 29);
    MulInverse(a, PRIME_2, INVERSE_2);
    XorShiftInverse(h, 33);
  }

  lemma {:induction false} FinishForth(y: uint64)
    requires (INVERSE_2 * PRIME_2) % TWO_TO_THE_64 == 1 && (INVERSE_3 * PRIME_3) % TWO_TO_THE_64 == 1
    ensures Finish(Unfinish(y)) == y
  {
    var a := XorShift(y, 32);
    var b := Mul(a, INVERSE_3);
    var c := Mul(UnXorShift(b, 29), INVERSE_2);
    XorShiftInverse(c, 33);
    MulInverse(UnXorShift(b, 29), INVERSE_2, PRIME_2);
    UnXorShiftInverse(b, 29);
    MulInverse(a, INVERSE_3, PRIME_3);
    XorShiftInverse(y, 32);
  }
}
