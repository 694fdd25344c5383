/** The exclusive or of module Words, bit by bit on naturals, is the one of the machine: byte by byte
    it is `^` on bit-vectors.  This is also how it is computed on numbers that are written out. */
module XorBytes {
  import opened Prelude
  import opened Words

  /** The natural number of a byte, from its bits. */
  function FromBits(a: bv8): nat
  {
    if a == 0 then 0 else 2 * FromBits(a >> 1) + LowBit(a)
  }

  function LowBit(a: bv8): nat
  {
    if a & 1 == 1 then 1 else 0
  }

  lemma {:induction false} HalfByte(a: bv8)
    ensures a as nat == 2 * ((a >> 1) as nat) + LowBit(a)
  {
  }

  lemma {:induction false} FromBitsIs(a: bv8)
    ensures FromBits(a) == a as nat
  {
    if a != 0 {
      FromBitsIs(a >> 1);
      HalfByte(a);
    }
  }

  lemma {:induction false} Unroll(a: bv8)
    ensures FromBits(a) == 2 * FromBits(a >> 1) + LowBit(a)
  {
    assert a == 0 ==> a >> 1 == 0 && a & 1 == 0;
  }

  lemma {:induction false} ByteParts(a: bv8, b: bv8)
    ensures (a ^ b) >> 1 == (a >> 1) ^ (b >> 1)
    ensures LowBit(a ^ b) == (LowBit(a) + LowBit(b)) % 2
  {
    assert (a ^ b) & 1 == (a & 1) ^ (b & 1);
  }

  lemma {:induction false} UnrollXor(a: bv8, b: bv8)
    ensures FromBits(a ^ b) == 2 * FromBits((a >> 1) ^ (b >> 1)) + (LowBit(a) + LowBit(b)) % 2
  {
    ByteParts(a, b);
    Unroll(a ^ b);
  }

  lemma {:induction false} XorDigit(x: nat, y: nat, l: nat, m: nat)
    requires l < 2 && m < 2
    ensures XorNat(2 * x + l, 2 * y + m) == 2 * XorNat(x, y) + (l + m) % 2
  {
    assert (2 * x + l) / 2 == x && (2 * x + l) % 2 == l;
    assert (2 * y + m) / 2 == y && (2 * y + m) % 2 == m;
  }

  lemma {:induction false} XorBitsStep(a: bv8, b: bv8)
    requires XorNat(FromBits(a >> 1), FromBits(b >> 1)) == FromBits((a >> 1) ^ (b >> 1))
    ensures XorNat(FromBits(a), FromBits(b)) == FromBits(a ^ b)
  {
    UnrollXor(a, b);
    Unroll(a);
    Unroll(b);
    XorNamed(FromBits(a), FromBits(b), FromBits(a >> 1), FromBits(b >> 1), LowBit(a), LowBit(b),
             (LowBit(a) + LowBit(b)) % 2);
  }

  lemma {:induction false} BothZero(a: bv8, b: bv8)
    requires FromBits(a) == 0 && FromBits(b) == 0
    ensures FromBits(a ^ b) == 0
  {
    FromBitsIs(a);
    FromBitsIs(b);
  }

  lemma {:induction false} XorBits(a: bv8, b: bv8, n: nat)
    requires FromBits(a) + FromBits(b) <= n
    ensures XorNat(FromBits(a), FromBits(b)) == FromBits(a ^ b)
    decreases n
  {
    if n == 0 {
      BothZero(a, b);
    } else {
      Unroll(a);
      Unroll(b);
      XorBits(a >> 1, b >> 1, n - 1);
      XorBitsStep(a, b);
    }
  }

  /** On bytes the exclusive or is `^`. */
  lemma {:induction false} XorByte(a: bv8, b: bv8)
    ensures XorNat(a as nat, b as nat) == (a ^ b) as nat
  {
    XorBits(a, b, FromBits(a) + FromBits(b));
    FromBitsIs(a);
    FromBitsIs(b);
    FromBitsIs(a ^ b);
  }

  // ---------- byte by byte ----------

  function Doubled(u: nat, k: nat): nat
  {
    if k == 0 then u else 2 * Doubled(u, k - 1)
  }

  /** XorDigit with its terms named, so that nothing has to be rearranged where it is used. */
  lemma {:induction false} XorNamed(a: nat, b: nat, x: nat, y: nat, l: nat, m: nat, c: nat)
    requires a == 2 * x + l && b == 2 * y + m && l < 2 && m < 2 && c == (l + m) % 2
    ensures XorNat(a, b) == 2 * XorNat(x, y) + c
  {
    XorDigit(x, y, l, m);
  }

  lemma {:induction false} SplitStep(u: nat, l: nat, h: nat, d: nat, v: nat, m: nat, i: nat, e: nat, x: nat)
    requires l == 2 * h + d && m == 2 * i + e && d < 2 && e < 2
    requires XorNat(u + h, v + i) == x + XorNat(h, i)
    ensures XorNat(2 * u + l, 2 * v + m) == 2 * x + XorNat(l, m)
  {
    XorNamed(2 * u + l, 2 * v + m, u + h, v + i, d, e, (d + e) % 2);
    XorNamed(l, m, h, i, d, e, (d + e) % 2);
  }

  ghost predicate Splits(u: nat, l: nat, v: nat, m: nat, x: nat)
  {
    XorNat(u + l, v + m) == x + XorNat(l, m)
  }

  lemma {:induction false} SplitsNext(u: nat, l: nat, v: nat, m: nat, x: nat)
    requires Splits(u, l / 2, v, m / 2, x)
    ensures Splits(2 * u, l, 2 * v, m, 2 * x)
  {
    SplitStep(u, l, l / 2, l % 2, v, m, m / 2, m % 2, x);
  }

  lemma {:induction false} XorSplit(u: nat, l: nat, v: nat, m: nat, k: nat)
    requires l < Doubled(1, k) && m < Doubled(1, k)
    ensures Splits(Doubled(u, k), l, Doubled(v, k), m, Doubled(XorNat(u, v), k))
    decreases k
  {
    if k > 0 {
      XorSplit(u, l / 2, v, m / 2, k - 1);
      SplitsNext(Doubled(u, k - 1), l, Doubled(v, k - 1), m, Doubled(XorNat(u, v), k - 1));
    }
  }

  lemma {:induction false} EightTimes(u: nat)
    ensures Doubled(u, 8) == 256 * u
  {
    assert Doubled(u, 1) == 2 * u;
    assert Doubled(u, 2) == 4 * u;
    assert Doubled(u, 3) == 8 * u;
    assert Doubled(u, 4) == 16 * u;
    assert Doubled(u, 5) == 32 * u;
    assert Doubled(u, 6) == 64 * u;
    assert Doubled(u, 7) == 128 * u;
  }

  lemma {:induction false} XorLastByte(u: nat, l: byte, v: nat, m: byte)
    ensures XorNat(256 * u + l, 256 * v + m) == 256 * XorNat(u, v) + XorNat(l, m)
  {
    EightTimes(1);
    EightTimes(u);
    EightTimes(v);
    EightTimes(XorNat(u, v));
    XorSplit(u, l, v, m, 8);
  }

  function Join(u: nat, b: bv8): nat
  {
    256 * u + (b as nat)
  }

  lemma {:induction false} XorJoin(u: nat, v: nat, a: bv8, b: bv8)
    ensures XorNat(Join(u, a), Join(v, b)) == Join(XorNat(u, v), a ^ b)
  {
    XorLastByte(u, a as nat, v, b as nat);
    XorByte(a, b);
  }

  /** Eight bytes, the highest first. */
  function Word(h: bv8, g: bv8, f: bv8, e: bv8, d: bv8, c: bv8, b: bv8, a: bv8): nat
  {
    Join(Join(Join(Join(Join(Join(Join(Join(0, h), g), f), e), d), c), b), a)
  }

  /** On words the exclusive or is `^` on each byte. */
  lemma {:induction false} XorWord(h: bv8, g: bv8, f: bv8, e: bv8, d: bv8, c: bv8, b: bv8, a: bv8,
                                   s: bv8, t: bv8, u: bv8, v: bv8, w: bv8, x: bv8, y: bv8, z: bv8)
    ensures XorNat(Word(h, g, f, e, d, c, b, a), Word(s, t, u, v, w, x, y, z)) ==
            Word(h ^ s, g ^ t, f ^ u, e ^ v, d ^ w, c ^ x, b ^ y, a ^ z)
  {
    var p, q := Join(0, h), Join(0, s);
    XorJoin(0, 0, h, s);
    XorJoin(p, q, g, t);
    p, q := Join(p, g), Join(q, t);
    XorJoin(p, q, f, u);
    p, q := Join(p, f), Join(q, u);
    XorJoin(p, q, e, v);
    p, q := Join(p, e), Join(q, v);
    XorJoin(p, q, d, w);
    p, q := Join(p, d), Join(q, w);
    XorJoin(p, q, c, x);
    p, q := Join(p, c), Join(q, x);
    XorJoin(p, q, b, y);
    p, q := Join(p, b), Join(q, y);
    XorJoin(p, q, a, z);
  }
}
