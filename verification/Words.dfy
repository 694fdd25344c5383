/** Arithmetic of uint64_t: the operators of src/internal/hash.c on naturals below 2^64,
    and the ones among them that can be undone. */
module Words {
  import opened Prelude
  import opened Products

  function Add(x: uint64, y: uint64): uint64
  {
    (x + y) % TWO_TO_THE_64
  }

  function Sub(x: uint64, y: uint64): uint64
  {
    (x - y) % TWO_TO_THE_64
  }

  function Mul(x: uint64, y: uint64): uint64
  {
    (x * y) % TWO_TO_THE_64
  }

  /** x >> r: halved r times. */
  function ShiftNat(x: nat, r: nat): (y: nat)
    ensures y <= x
    decreases r, x
  {
    if r == 0 then x else ShiftNat(x / 2, r - 1)
  }

  function ShiftRight(x: uint64, r: nat): uint64
  {
    ShiftNat(x, r)
  }

  /** XXH_rotl64: the two halves of the disjunction have no bit in common, so it is a sum. */
  function Rotl(x: uint64, r: nat): uint64
    requires 0 < r < 64
  {
    PowPositive(2, r);
    PowPositive(2, 64 - r);
    RotlSplit(x, r);
    (x * Pow(2, r)) % TWO_TO_THE_64 + x / Pow(2, 64 - r)
  }

  /** Exclusive or, bit by bit from the lowest. */
  function XorNat(a: nat, b: nat): nat
    decreases a + b
  {
    if a == 0 && b == 0 then 0 else (a % 2 + b % 2) % 2 + 2 * XorNat(a / 2, b / 2)
  }

  function Xor(x: uint64, y: uint64): uint64
  {
    PowOf64();
    XorBound(x, y, 64);
    XorNat(x, y)
  }

  // ---------- powers and quotients ----------

  lemma {:induction false} PowOf64()
    ensures Pow(2, 64) == TWO_TO_THE_64
  {
    PowPower(2, 8, 8);
    assert Pow(2, 8) == 256;
    assert Pow(256, 8) == TWO_TO_THE_64;
  }

  lemma {:induction false} DivModUnique(x: nat, p: nat, a: nat, b: nat)
    requires b < p && x == a * p + b
    ensures x / p == a && x % p == b
  {
    var d := x / p;
    assert x == p * d + x % p;
    Commute(p, d);
    if d < a {
      MulMono(d + 1, a, p, p);
      Distribute(d, p);
    } else if d > a {
      MulMono(a + 1, d, p, p);
      Distribute(a, p);
    }
  }

  lemma {:induction false} PowSplit64(r: nat)
    requires r <= 64
    ensures Pow(2, r) * Pow(2, 64 - r) == TWO_TO_THE_64
    ensures Pow(2, r) >= 1 && Pow(2, 64 - r) >= 1
  {
    PowOf64();
    PowSum(2, r, 64 - r);
    PowPositive(2, r);
    PowPositive(2, 64 - r);
  }

  lemma {:induction false} ModUnique(n: int, e: int, x: nat)
    requires n == e * TWO_TO_THE_64 + x && x < TWO_TO_THE_64
    ensures n % TWO_TO_THE_64 == x
  {
  }

  // ---------- multiplication by an odd constant ----------

  /** If c d = 1 mod 2^64, multiplying by d undoes multiplying by c. */
  lemma {:induction false} MulInverse(x: uint64, c: uint64, d: uint64)
    requires (c * d) % TWO_TO_THE_64 == 1
    ensures Mul(Mul(x, c), d) == x
  {
    var m, k, l := Mul(x, c), (x * c) / TWO_TO_THE_64, (c * d) / TWO_TO_THE_64;
    assert x * c == TWO_TO_THE_64 * k + m && c * d == TWO_TO_THE_64 * l + 1;
    MulExpand(x, c, d, m, k, l, TWO_TO_THE_64);
    ModUnique(m * d, x * l - k * d, x);
  }

  lemma {:induction false} MulExpand(x: nat, c: nat, d: nat, m: nat, k: nat, l: nat, n: nat)
    requires x * c == n * k + m && c * d == n * l + 1
    ensures m * d == (x * l - k * d) * n + x
  {
    calc {
      m * d;
      (x * c - n * k) * d;
      (x * c) * d - (n * k) * d;
      { Assoc(x, c, d); }
      x * (n * l + 1) - (n * k) * d;
      x * (n * l) + x - (n * k) * d;
      { Factor(x, n, l, k, d); }
      (x * l - k * d) * n + x;
    }
  }

  lemma {:induction false} Factor(x: nat, n: nat, l: nat, k: nat, d: nat)
    ensures x * (n * l) - (n * k) * d == (x * l - k * d) * n
  {
    assert x * (n * l) == (x * l) * n;
    assert (n * k) * d == (k * d) * n;
  }

  // ---------- rotation ----------

  /** Rotation moves the upper r bits below the others. */
  lemma {:induction false} RotlParts(x: uint64, r: nat)
    requires 0 < r < 64
    ensures var p, q := Pow(2, r), Pow(2, 64 - r);
            && p * q == TWO_TO_THE_64 && p >= 1 && q >= 1
            && x / q < p && x % q < q && x == (x / q) * q + x % q
            && (x * p) % TWO_TO_THE_64 == (x % q) * p
  {
    PowSplit64(r);
    var p, q := Pow(2, r), Pow(2, 64 - r);
    RotlArithmetic(x, p, q, x / q, x % q);
  }

  lemma {:induction false} RotlArithmetic(x: uint64, p: nat, q: nat, a: nat, b: nat)
    requires p >= 1 && q >= 1 && p * q == TWO_TO_THE_64 && x == q * a + b && b < q
    ensures a < p && x == a * q + b && (x * p) % TWO_TO_THE_64 == b * p
  {
    if a >= p {
      MulMono(p, a, q, q);
      Commute(a, q);
    }
    assert x * p == a * (p * q) + b * p by {
      assert (q * a + b) * p == (q * a) * p + b * p;
      assert (q * a) * p == a * (p * q);
    }
    MulMono(b + 1, q, p, p);
    Distribute(b, p);
    Commute(q, p);
    ModUnique(x * p, a, b * p);
  }

  lemma {:induction false} RotlSplit(x: uint64, r: nat)
    requires 0 < r < 64
    ensures var p, q := Pow(2, r), Pow(2, 64 - r);
            && p >= 1 && q >= 1
            && (x * p) % TWO_TO_THE_64 + x / q == (x % q) * p + x / q < TWO_TO_THE_64
  {
    RotlParts(x, r);
    var p, q := Pow(2, r), Pow(2, 64 - r);
    MulMono(x % q + 1, q, p, p);
    Distribute(x % q, p);
    Commute(q, p);
  }

  lemma {:induction false} RotlInverse(x: uint64, r: nat)
    requires 0 < r < 64
    ensures Rotl(Rotl(x, r), 64 - r) == x
  {
    var p, q := Pow(2, r), Pow(2, 64 - r);
    var y := Rotl(x, r);
    RotlSplit(x, r);
    RotlParts(x, r);
    DivModUnique(y, p, x % q, x / q);
    RotlParts(y, 64 - r);
  }

  // ---------- exclusive or ----------

  lemma {:induction false} XorBound(a: nat, b: nat, k: nat)
    requires a < Pow(2, k) && b < Pow(2, k)
    ensures XorNat(a, b) < Pow(2, k)
  {
    if k > 0 && (a != 0 || b != 0) {
      XorBound(a / 2, b / 2, k - 1);
    }
  }

  lemma {:induction false} XorParts(a: nat, b: nat)
    ensures XorNat(a, b) / 2 == XorNat(a / 2, b / 2)
    ensures XorNat(a, b) % 2 == (a % 2 + b % 2) % 2
  {
  }

  lemma {:induction false} XorCancel(a: nat, b: nat)
    ensures XorNat(XorNat(a, b), b) == a
    decreases a + b
  {
    if a != 0 || b != 0 {
      XorCancel(a / 2, b / 2);
      XorParts(a, b);
      XorParts(XorNat(a, b), b);
      ParityCancel(a, b);
      HalvesEqual(XorNat(XorNat(a, b), b), a);
    }
  }

  lemma {:induction false} ParityCancel(a: nat, b: nat)
    ensures ((a % 2 + b % 2) % 2 + b % 2) % 2 == a % 2
  {
  }

  lemma {:induction false} HalvesEqual(a: nat, b: nat)
    requires a / 2 == b / 2 && a % 2 == b % 2
    ensures a == b
  {
  }

  lemma {:induction false} XorCommutes(a: nat, b: nat)
    ensures XorNat(a, b) == XorNat(b, a)
    decreases a + b
  {
    if a != 0 || b != 0 {
      XorCommutes(a / 2, b / 2);
    }
  }

  /** Shifting right commutes with exclusive or, so bit k of a ^ b is the sum mod 2 of the
      two bits k. */
  lemma {:induction false} XorShifted(a: nat, b: nat, k: nat)
    ensures ShiftNat(XorNat(a, b), k) == XorNat(ShiftNat(a, k), ShiftNat(b, k))
    ensures ShiftNat(XorNat(a, b), k) % 2 == (ShiftNat(a, k) % 2 + ShiftNat(b, k) % 2) % 2
    decreases k
  {
    XorParts(a, b);
    if k > 0 {
      XorShifted(a / 2, b / 2, k - 1);
    }
  }

  lemma {:induction false} ShiftTwice(a: nat, j: nat, k: nat)
    ensures ShiftNat(ShiftNat(a, j), k) == ShiftNat(a, j + k)
    decreases j
  {
    if j > 0 {
      ShiftTwice(a / 2, j - 1, k);
    }
  }

  /** Shifting by k is dividing by 2^k. */
  lemma {:induction false} ShiftIsQuotient(a: nat, k: nat)
    ensures Pow(2, k) >= 1 && ShiftNat(a, k) == a / Pow(2, k)
    decreases k
  {
    PowPositive(2, k);
    if k > 0 {
      var q := Pow(2, k - 1);
      ShiftIsQuotient(a / 2, k - 1);
      DivTwice(a, 2, q, a / 2, a % 2, (a / 2) / q, (a / 2) % q);
    }
  }

  lemma {:induction false} DivTwice(a: nat, p: nat, q: nat, u: nat, v: nat, w: nat, z: nat)
    requires p >= 1 && q >= 1 && v < p && z < q
    requires a == p * u + v && u == q * w + z
    ensures p * q >= 1 && a / (p * q) == w
  {
    PositiveProduct(p, q);
    assert a == w * (p * q) + (p * z + v) by {
      assert p * (q * w + z) == p * (q * w) + p * z;
      assert p * (q * w) == w * (p * q);
    }
    MulMono(p, p, z + 1, q);
    assert p * (z + 1) == p * z + p;
    DivModUnique(a, p * q, w, p * z + v);
  }

  // ---------- x ^= x >> r ----------

  function XorShift(x: uint64, r: nat): uint64
  {
    Xor(x, ShiftRight(x, r))
  }

  lemma {:induction false} ShiftOut(x: nat, k: nat, r: nat)
    requires x < Pow(2, k) && k <= r
    ensures ShiftNat(x, r) == 0
    decreases r
  {
    if r > 0 && k > 0 {
      ShiftOut(x / 2, k - 1, r - 1);
    } else if r > 0 {
      ShiftOut(x / 2, 0, r - 1);
    }
  }

  lemma {:induction false} XorZero(a: nat)
    ensures XorNat(a, 0) == a
  {
    if a != 0 {
      XorZero(a / 2);
    }
  }

  /** The effect of `x ^= x >> r` on a later shift by k. */
  lemma {:induction false} XorShiftShifted(x: uint64, r: nat, k: nat)
    ensures ShiftRight(XorShift(x, r), k) == XorNat(ShiftRight(x, k), ShiftRight(x, r + k))
  {
    XorShifted(x, ShiftRight(x, r), k);
    ShiftTwice(x, r, k);
  }

  /** Shifts by 32 bits or more are undone by repeating them. */
  lemma {:induction false} XorShiftInverse(x: uint64, r: nat)
    requires 32 <= r
    ensures XorShift(XorShift(x, r), r) == x
  {
    XorShiftShifted(x, r, r);
    PowOf64();
    ShiftOut(x, 64, r + r);
    XorZero(ShiftRight(x, r));
    XorCancel(x, ShiftRight(x, r));
  }

  lemma {:induction false} XorUndo(x: uint64, y: uint64)
    ensures Xor(Xor(x, y), y) == x && Xor(x, Xor(x, y)) == y
  {
    XorCancel(x, y);
    XorCancel(y, x);
    XorCommutes(x, y);
    XorCommutes(x, XorNat(x, y));
  }

  /** Undoing `x ^= x >> r` for a shift of at least 22 bits. */
  function UnXorShift(y: uint64, r: nat): uint64
  {
    Xor(y, Xor(ShiftRight(y, r), ShiftRight(y, r + r)))
  }

  lemma {:induction false} UnXorShiftInverse(x: uint64, r: nat)
    requires 22 <= r
    ensures UnXorShift(XorShift(x, r), r) == x && XorShift(UnXorShift(x, r), r) == x
  {
    PowOf64();
    ShiftOut(x, 64, r + (r + r));
    UndoAfter(x, r);
    UndoBefore(x, r);
  }

  lemma {:induction false} UndoAfter(x: uint64, r: nat)
    requires ShiftRight(x, r + (r + r)) == 0
    ensures UnXorShift(XorShift(x, r), r) == x
  {
    var a, b := ShiftRight(x, r), ShiftRight(x, r + r);
    XorShiftShifted(x, r, r);
    XorShiftShifted(x, r, r + r);
    XorZero(b);
    XorCancel(a, b);
    XorCancel(x, a);
  }

  lemma {:induction false} UndoBefore(y: uint64, r: nat)
    requires ShiftRight(y, r + (r + r)) == 0
    ensures XorShift(UnXorShift(y, r), r) == y
  {
    var a, b := ShiftRight(y, r), ShiftRight(y, r + r);
    XorShifted(y, Xor(a, b), r);
    XorShifted(a, b, r);
    ShiftTwice(y, r, r);
    ShiftTwice(y, r + r, r);
    XorZero(b);
    XorCancel(y, Xor(a, b));
  }
}
