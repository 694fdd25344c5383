/** Published values of XXH64, one for each path through src/internal/hash.c: the hash of module XxHash
    is that function, constants, rotations and all. */
module ReferenceValues {
  import opened Prelude
  import opened Products
  import opened Words
  import opened XxHash
  import opened XxHashProofs
  import opened XorBytes

  // ---------- computing with numbers that are written out ----------

  lemma {:induction false} Powers()
    ensures Pow(2, 1) == 2 && Pow(2, 7) == 0x80 && Pow(2, 11) == 0x800 && Pow(2, 12) == 0x1000
    ensures Pow(2, 18) == 0x40000 && Pow(2, 23) == 0x800000 && Pow(2, 27) == 0x8000000
    ensures Pow(2, 29) == 0x20000000 && Pow(2, 31) == 0x80000000 && Pow(2, 32) == 0x100000000
    ensures Pow(2, 33) == 0x200000000 && Pow(2, 37) == 0x2000000000 && Pow(2, 41) == 0x20000000000
    ensures Pow(2, 46) == 0x400000000000 && Pow(2, 52) == 0x10000000000000 && Pow(2, 53) == 0x20000000000000
    ensures Pow(2, 57) == 0x200000000000000 && Pow(2, 63) == 0x8000000000000000
  {
    assert Pow(2, 1) == 2;
    PowSum(2, 1, 1);
    PowSum(2, 2, 2);
    PowSum(2, 4, 2);
    PowSum(2, 6, 1);
    PowSum(2, 7, 4);
    PowSum(2, 11, 1);
    PowSum(2, 7, 11);
    PowSum(2, 12, 11);
    PowSum(2, 23, 4);
    PowSum(2, 27, 2);
    PowSum(2, 29, 2);
    PowSum(2, 31, 1);
    PowSum(2, 32, 1);
    PowSum(2, 33, 4);
    PowSum(2, 37, 4);
    PowSum(2, 23, 23);
    PowSum(2, 41, 11);
    PowSum(2, 52, 1);
    PowSum(2, 53, 4);
    PowSum(2, 52, 11);
  }

  lemma {:induction false} MulIs(x: uint64, y: uint64, k: nat, z: uint64)
    requires x * y == k * TWO_TO_THE_64 + z
    ensures Mul(x, y) == z
  {
    ModUnique(x * y, k, z);
  }

  lemma {:induction false} RotlIs(x: uint64, r: nat, p: nat, q: nat, a: nat, b: nat, z: nat)
    requires 0 < r < 64 && Pow(2, r) == p > 0 && Pow(2, 64 - r) == q > 0
    requires x == a * q + b && b < q && z == b * p + a
    ensures Rotl(x, r) == z
  {
    DivModUnique(x, q, a, b);
    RotlSplit(x, r);
  }

  lemma {:induction false} ShiftIs(x: uint64, r: nat, p: nat, a: nat, b: nat)
    requires Pow(2, r) == p > 0 && x == a * p + b && b < p
    ensures ShiftRight(x, r) == a
  {
    ShiftIsQuotient(x, r);
    DivModUnique(x, p, a, b);
  }

  lemma {:induction false} XorIs(l: uint64, r: uint64, sum: uint64,
                                 h: bv8, g: bv8, f: bv8, e: bv8, d: bv8, c: bv8, b: bv8, a: bv8,
                                 s: bv8, t: bv8, u: bv8, v: bv8, w: bv8, x: bv8, y: bv8, z: bv8)
    requires l == Word(h, g, f, e, d, c, b, a) && r == Word(s, t, u, v, w, x, y, z)
    requires sum == Word(h ^ s, g ^ t, f ^ u, e ^ v, d ^ w, c ^ x, b ^ y, a ^ z)
    ensures Xor(l, r) == sum
  {
    XorWord(h, g, f, e, d, c, b, a, s, t, u, v, w, x, y, z);
  }

  function Before(low: nat, rest: nat): nat
  {
    low + 256 * rest
  }

  lemma {:induction false} OneByte(x: byte)
    ensures LittleEndian([x]) == x
  {
    assert [x][1..] == [];
  }

  lemma {:induction false} FourBytes(b: Bytes)
    requires |b| == 4
    ensures LittleEndian(b) == Before(b[0], Before(b[1], Before(b[2], b[3])))
  {
    assert b[1..][1..] == b[2..] && b[2..][1..] == b[3..] && b[3..] == [b[3]];
    OneByte(b[3]);
    assert LittleEndian(b[2..]) == Before(b[2], b[3]);
    assert LittleEndian(b[1..]) == Before(b[1], LittleEndian(b[2..]));
  }

  lemma {:induction false} EightBytes(b: Bytes)
    requires |b| == 8
    ensures LittleEndian(b) ==
            Before(b[0], Before(b[1], Before(b[2], Before(b[3], Before(b[4], Before(b[5], Before(b[6], b[7])))))))
  {
    FourBytes(b[4..]);
    assert b[1..][1..] == b[2..] && b[2..][1..] == b[3..] && b[3..][1..] == b[4..];
    assert LittleEndian(b[3..]) == Before(b[3], LittleEndian(b[4..]));
    assert LittleEndian(b[2..]) == Before(b[2], LittleEndian(b[3..]));
    assert LittleEndian(b[1..]) == Before(b[1], LittleEndian(b[2..]));
  }

  lemma {:induction false} StripeOf(a: Acc, k: Bytes, l: Bytes, m: Bytes, n: Bytes)
    requires |k| == |l| == |m| == |n| == 8
    ensures StripeStep(a, k + l + m + n) ==
            Acc(Round(a.v1, Read(k)), Round(a.v2, Read(l)), Round(a.v3, Read(m)), Round(a.v4, Read(n)))
  {
    var b := k + l + m + n;
    assert b[0..8] == k && b[8..16] == l && b[16..24] == m && b[24..32] == n;
  }

  lemma {:induction false} FoldWord(h: uint64, w: Bytes, rest: seq<Bytes>)
    requires |w| == 4 && AllPieces(rest)
    ensures Fold(h, [w] + rest) == Fold(Stir(4, Xor(h, Mul(Read(w), PRIME_1))), rest)
  {
    assert ([w] + rest)[1..] == rest;
  }

  lemma {:induction false} FoldByte(h: uint64, x: byte, rest: seq<Bytes>)
    requires AllPieces(rest)
    ensures Fold(h, [[x]] + rest) == Fold(Stir(1, Xor(h, Mul(x, PRIME_5))), rest)
  {
    OneByte(x);
    assert ([[x]] + rest)[1..] == rest;
  }

  lemma {:induction false} FoldTail(h: uint64, w: Bytes, x: byte, y: byte, z: byte,
                                    h1: uint64, h2: uint64, h3: uint64, h4: uint64)
    requires |w| == 4 && Stir(4, Xor(h, Mul(Read(w), PRIME_1))) == h1
    requires Stir(1, Xor(h1, Mul(x, PRIME_5))) == h2 && Stir(1, Xor(h2, Mul(y, PRIME_5))) == h3
    requires Stir(1, Xor(h3, Mul(z, PRIME_5))) == h4
    ensures Fold(h, [w, [x], [y], [z]]) == h4
  {
    assert [w, [x], [y], [z]] == [w] + ([[x]] + ([[y]] + ([[z]] + [])));
    FoldWord(h, w, [[x]] + ([[y]] + ([[z]] + [])));
    FoldByte(h1, x, [[y]] + ([[z]] + []));
    FoldByte(h2, y, [[z]] + []);
    FoldByte(h3, z, []);
  }

  lemma {:induction false} FoldLane(h: uint64, k: Bytes, rest: seq<Bytes>)
    requires |k| == 8 && AllPieces(rest)
    ensures Fold(h, [k] + rest) == Fold(Stir(8, Xor(h, MixLane(Read(k)))), rest)
  {
    assert ([k] + rest)[1..] == rest;
  }

  /** An input shorter than a stripe: three lanes, a word and three bytes. */
  lemma {:induction false} ShortHash(k: Bytes, l: Bytes, m: Bytes, w: Bytes, x: byte, y: byte, z: byte, seed: uint64,
                                     h0: uint64, h: uint64, r: uint64)
    requires |k| == |l| == |m| == 8 && |w| == 4
    requires Add(Add(seed, PRIME_5), 31) == h0 && Fold(h0, [k] + ([l] + ([m] + [w, [x], [y], [z]]))) == h
    requires Finish(h) == r
    ensures Hash(k + (l + (m + (w + [x, y, z]))), seed) == r
  {
    var b := k + (l + (m + (w + [x, y, z])));
    assert Striped(b) == 0 && b[0..] == b;
    CutLane(k, l + (m + (w + [x, y, z])));
    CutLane(l, m + (w + [x, y, z]));
    CutLane(m, w + [x, y, z]);
    TailCut(w, x, y, z);
  }

  lemma {:induction false} CutLane(k: Bytes, rest: Bytes)
    requires |k| == 8
    ensures Cut(k + rest) == [k] + Cut(rest)
  {
    assert (k + rest)[..8] == k && (k + rest)[8..] == rest;
  }

  lemma {:induction false} FoldThreeLanes(h: uint64, k: Bytes, l: Bytes, m: Bytes, rest: seq<Bytes>,
                                          h1: uint64, h2: uint64, h3: uint64)
    requires |k| == |l| == |m| == 8 && AllPieces(rest)
    requires Stir(8, Xor(h, MixLane(Read(k)))) == h1 && Stir(8, Xor(h1, MixLane(Read(l)))) == h2
    requires Stir(8, Xor(h2, MixLane(Read(m)))) == h3
    ensures Fold(h, [k] + ([l] + ([m] + rest))) == Fold(h3, rest)
  {
    FoldLane(h, k, [l] + ([m] + rest));
    FoldLane(h1, l, [m] + rest);
    FoldLane(h2, m, rest);
  }

  /** An input of one stripe, a word and three bytes. */
  lemma {:induction false} LongHash(stripe: Bytes, w: Bytes, x: byte, y: byte, z: byte, seed: uint64)
    requires |stripe| == 32 && |w| == 4
    ensures Hash(stripe + w + [x, y, z], seed) ==
            Finish(Fold(Add(Converge(StripeStep(Init(seed), stripe)), 39), [w, [x], [y], [z]]))
  {
    var b := stripe + w + [x, y, z];
    assert Striped(b) == 32 && b[..32] == stripe && b[32..] == w + [x, y, z];
    assert Stripes(Init(seed), b) == StripeStep(Init(seed), stripe);
    TailCut(w, x, y, z);
  }

  lemma {:induction false} TailCut(w: Bytes, x: byte, y: byte, z: byte)
    requires |w| == 4
    ensures Cut(w + [x, y, z]) == [w, [x], [y], [z]]
  {
    var t := w + [x, y, z];
    assert t[..4] == w && t[4..] == [x, y, z];
    assert [x, y, z][..1] == [x] && [x, y, z][1..] == [y, z];
    assert [y, z][..1] == [y] && [y, z][1..] == [z] && [z][..1] == [z] && [z][1..] == [];
    assert Cut([z]) == [[z]] && Cut([y, z]) == [[y]] + Cut([z]);
  }

  // ---------- the empty input ----------

  lemma {:induction false} EmptyFinish1()
    ensures Mul(XorShift(0x27D4EB2F165667C5, 33), PRIME_2) == 0xBEB13DDA13C2ED4E
  {
    Powers();
    ShiftIs(0x27D4EB2F165667C5, 33, 0x200000000, 0x13EA7597, 0x1165667C5);
    XorIs(0x27D4EB2F165667C5, 0x13EA7597, 0x27D4EB2F05BC1252,
          0x27, 0xD4, 0xEB, 0x2F, 0x16, 0x56, 0x67, 0xC5,
          0x00, 0x00, 0x00, 0x00, 0x13, 0xEA, 0x75, 0x97);
    MulIs(0x27D4EB2F05BC1252, PRIME_2, 0x1E4B276164D31384, 0xBEB13DDA13C2ED4E);
  }

  lemma {:induction false} EmptyFinish2()
    ensures Mul(XorShift(0xBEB13DDA13C2ED4E, 29), PRIME_3) == 0xEF46DB37BE9E32AE
  {
    Powers();
    ShiftIs(0xBEB13DDA13C2ED4E, 29, 0x20000000, 0x5F589EED0, 0x13C2ED4E);
    XorIs(0xBEB13DDA13C2ED4E, 0x5F589EED0, 0xBEB13DDFE64B039E,
          0xBE, 0xB1, 0x3D, 0xDA, 0x13, 0xC2, 0xED, 0x4E,
          0x00, 0x00, 0x00, 0x05, 0xF5, 0x89, 0xEE, 0xD0);
    MulIs(0xBEB13DDFE64B039E, PRIME_3, 0x10A39819A54D6418, 0xEF46DB37BE9E32AE);
  }

  lemma {:induction false} EmptyFinish()
    ensures Finish(0x27D4EB2F165667C5) == 0xEF46DB3751D8E999
  {
    Powers();
    EmptyFinish1();
    EmptyFinish2();
    ShiftIs(0xEF46DB37BE9E32AE, 32, 0x100000000, 0xEF46DB37, 0xBE9E32AE);
    XorIs(0xEF46DB37BE9E32AE, 0xEF46DB37, 0xEF46DB3751D8E999,
          0xEF, 0x46, 0xDB, 0x37, 0xBE, 0x9E, 0x32, 0xAE,
          0x00, 0x00, 0x00, 0x00, 0xEF, 0x46, 0xDB, 0x37);
  }

  lemma {:induction false} SeededFinish1()
    ensures Mul(XorShift(0x27D4EB2FB48DE176, 33), PRIME_2) == 0x15E223734FF57C6F
  {
    Powers();
    ShiftIs(0x27D4EB2FB48DE176, 33, 0x200000000, 0x13EA7597, 0x1B48DE176);
    XorIs(0x27D4EB2FB48DE176, 0x13EA7597, 0x27D4EB2FA76794E1,
          0x27, 0xD4, 0xEB, 0x2F, 0xB4, 0x8D, 0xE1, 0x76,
          0x00, 0x00, 0x00, 0x00, 0x13, 0xEA, 0x75, 0x97);
    MulIs(0x27D4EB2FA76794E1, PRIME_2, 0x1E4B2761DFC7E3BF, 0x15E223734FF57C6F);
  }

  lemma {:induction false} SeededFinish2()
    ensures Mul(XorShift(0x15E223734FF57C6F, 29), PRIME_3) == 0xAC75FDA23EEEEA4D
  {
    Powers();
    ShiftIs(0x15E223734FF57C6F, 29, 0x20000000, 0xAF111B9A, 0xFF57C6F);
    XorIs(0x15E223734FF57C6F, 0xAF111B9A, 0x15E22373E0E467F5,
          0x15, 0xE2, 0x23, 0x73, 0x4F, 0xF5, 0x7C, 0x6F,
          0x00, 0x00, 0x00, 0x00, 0xAF, 0x11, 0x1B, 0x9A);
    MulIs(0x15E22373E0E467F5, PRIME_3, 0x1E8D1E10965A028, 0xAC75FDA23EEEEA4D);
  }

  lemma {:induction false} SeededFinish()
    ensures Finish(0x27D4EB2FB48DE176) == 0xAC75FDA2929B17EF
  {
    Powers();
    SeededFinish1();
    SeededFinish2();
    ShiftIs(0xAC75FDA23EEEEA4D, 32, 0x100000000, 0xAC75FDA2, 0x3EEEEA4D);
    XorIs(0xAC75FDA23EEEEA4D, 0xAC75FDA2, 0xAC75FDA2929B17EF,
          0xAC, 0x75, 0xFD, 0xA2, 0x3E, 0xEE, 0xEA, 0x4D,
          0x00, 0x00, 0x00, 0x00, 0xAC, 0x75, 0xFD, 0xA2);
  }

  lemma {:induction false} EmptyHash(seed: uint64)
    ensures Hash([], seed) == Finish(Add(seed, PRIME_5))
  {
    assert Striped([]) == 0 && Cut([]) == [];
    assert Start([], seed) == Add(seed, PRIME_5);
  }

  /** The empty input with seed 0 and with the seed 2654435761. */
  lemma {:induction false} EmptyInput()
    ensures Hash([], 0) == 0xEF46DB3751D8E999
    ensures Hash([], 2654435761) == 0xAC75FDA2929B17EF
  {
    EmptyHash(0);
    EmptyHash(2654435761);
    assert Add(0, PRIME_5) == 0x27D4EB2F165667C5 && Add(2654435761, PRIME_5) == 0x27D4EB2FB48DE176;
    EmptyFinish();
    SeededFinish();
  }

  // ---------- one lane ----------

  lemma {:induction false} ZeroLane()
    ensures Stir(8, Xor(0x27D4EB2F165667CD, MixLane(0x0))) == 0x68197E6A8E7C2852
  {
    Powers();
    MulIs(0x0, PRIME_2, 0x0, 0x0);
    RotlIs(0x0, 31, 0x80000000, 0x200000000, 0x0, 0x0, 0x0);
    MulIs(0x0, PRIME_1, 0x0, 0x0);
    XorIs(0x27D4EB2F165667CD, 0x0, 0x27D4EB2F165667CD,
          0x27, 0xD4, 0xEB, 0x2F, 0x16, 0x56, 0x67, 0xCD,
          0x00, 0x00, 0x00, 0x00, 0x00, 0x00, 0x00, 0x00);
    RotlIs(0x27D4EB2F165667CD, 27, 0x8000000, 0x2000000000, 0x13EA759, 0xF165667CD, 0x78B2B33E693EA759);
    MulIs(0x78B2B33E693EA759, PRIME_1, 0x4A98726530C7B84A, 0xE22DB3F2CBC979EF);
    assert Add(0xE22DB3F2CBC979EF, PRIME_4) == 0x68197E6A8E7C2852;
  }

  lemma {:induction false} ZeroFinish1()
    ensures Mul(XorShift(0x68197E6A8E7C2852, 33), PRIME_2) == 0xC10D9DEDF60645C9
  {
    Powers();
    ShiftIs(0x68197E6A8E7C2852, 33, 0x200000000, 0x340CBF35, 0x8E7C2852);
    XorIs(0x68197E6A8E7C2852, 0x340CBF35, 0x68197E6ABA709767,
          0x68, 0x19, 0x7E, 0x6A, 0x8E, 0x7C, 0x28, 0x52,
          0x00, 0x00, 0x00, 0x00, 0x34, 0x0C, 0xBF, 0x35);
    MulIs(0x68197E6ABA709767, PRIME_2, 0x4F2BFA60F9B1163A, 0xC10D9DEDF60645C9);
  }

  lemma {:induction false} ZeroFinish2()
    ensures Mul(XorShift(0xC10D9DEDF60645C9, 29), PRIME_3) == 0x34C96ACDFE127176
  {
    Powers();
    ShiftIs(0xC10D9DEDF60645C9, 29, 0x20000000, 0x6086CEF6F, 0x160645C9);
    XorIs(0xC10D9DEDF60645C9, 0x6086CEF6F, 0xC10D9DEBFE6AAAA6,
          0xC1, 0x0D, 0x9D, 0xED, 0xF6, 0x06, 0x45, 0xC9,
          0x00, 0x00, 0x00, 0x06, 0x08, 0x6C, 0xEF, 0x6F);
    MulIs(0xC10D9DEBFE6AAAA6, PRIME_3, 0x10D85457C1690367, 0x34C96ACDFE127176);
  }

  lemma {:induction false} ZeroFinish()
    ensures Finish(0x68197E6A8E7C2852) == 0x34C96ACDCADB1BBB
  {
    Powers();
    ZeroFinish1();
    ZeroFinish2();
    ShiftIs(0x34C96ACDFE127176, 32, 0x100000000, 0x34C96ACD, 0xFE127176);
    XorIs(0x34C96ACDFE127176, 0x34C96ACD, 0x34C96ACDCADB1BBB,
          0x34, 0xC9, 0x6A, 0xCD, 0xFE, 0x12, 0x71, 0x76,
          0x00, 0x00, 0x00, 0x00, 0x34, 0xC9, 0x6A, 0xCD);
  }

  /** Eight zero bytes with seed 0. */
  lemma {:induction false} EightZeros(b: Bytes)
    requires |b| == 8 && forall i :: 0 <= i < 8 ==> b[i] == 0
    ensures Hash(b, 0) == 0x34C96ACDCADB1BBB
  {
    Hash8(b, 0);
    EightBytes(b);
    assert Add(Add(0, PRIME_5), 8) == 0x27D4EB2F165667CD;
    ZeroLane();
    ZeroFinish();
  }

  // ---------- a stripe, a word and three bytes ----------

  lemma {:induction false} Round1()
    ensures Round(0x60EA27EEADC0B5D6, 0x692079646F626F4E) == 0x37245127A4067E4B
  {
    Powers();
    MulIs(0x692079646F626F4E, PRIME_2, 0x4FF3FC1FB3D89D72, 0x6F06E4CCA24F312);
    assert Add(0x60EA27EEADC0B5D6, 0x6F06E4CCA24F312) == 0x67DA963B77E5A8E8;
    RotlIs(0x67DA963B77E5A8E8, 31, 0x80000000, 0x200000000, 0x33ED4B1D, 0x177E5A8E8, 0xBBF2D47433ED4B1D);
    MulIs(0xBBF2D47433ED4B1D, PRIME_1, 0x742899A378A5B234, 0x37245127A4067E4B);
  }

  lemma {:induction false} Round2()
    ensures Round(0xC2B2AE3D27D4EB4F, 0x207374636570736E) == 0x1B302B0A818F92CF
  {
    Powers();
    MulIs(0x207374636570736E, PRIME_2, 0x18AE249079A69E76, 0xBEF890B5E0C198F2);
    assert Add(0xC2B2AE3D27D4EB4F, 0xBEF890B5E0C198F2) == 0x81AB3EF308968441;
    RotlIs(0x81AB3EF308968441, 31, 0x80000000, 0x200000000, 0x40D59F79, 0x108968441, 0x844B4220C0D59F79);
    MulIs(0x844B4220C0D59F79, PRIME_1, 0x51C31DDEBB8C6D36, 0x1B302B0A818F92CF);
  }

  lemma {:induction false} Round3()
    ensures Round(0x0, 0x6D61707320656874) == 0xCD62D843D0580FCA
  {
    Powers();
    MulIs(0x6D61707320656874, PRIME_2, 0x53302F69CA443C7B, 0xA6264CC423DB7CC);
    assert Add(0x0, 0xA6264CC423DB7CC) == 0xA6264CC423DB7CC;
    RotlIs(0xA6264CC423DB7CC, 31, 0x80000000, 0x200000000, 0x5313266, 0x423DB7CC, 0x211EDBE605313266);
    MulIs(0x211EDBE605313266, PRIME_1, 0x14783917C338C6F0, 0xCD62D843D0580FCA);
  }

  lemma {:induction false} Round4()
    ensures Round(0x61C8864E7A143579, 0x706572206873696D) == 0x1C16E43EF2142A4A
  {
    Powers();
    MulIs(0x706572206873696D, PRIME_2, 0x557B5385B6EB3E90, 0x7EC4417E16A897A3);
    assert Add(0x61C8864E7A143579, 0x7EC4417E16A897A3) == 0xE08CC7CC90BCCD1C;
    RotlIs(0xE08CC7CC90BCCD1C, 31, 0x80000000, 0x200000000, 0x704663E6, 0x90BCCD1C, 0x485E668E704663E6);
    MulIs(0x485E668E704663E6, PRIME_1, 0x2CB9F1FABF7F7F85, 0x1C16E43EF2142A4A);
  }

  lemma {:induction false} Sum()
    ensures Add(Add(Add(Rotl(0x37245127A4067E4B, 1), Rotl(0x1B302B0A818F92CF, 7)), Rotl(0xCD62D843D0580FCA, 12)),
                Rotl(0x1C16E43EF2142A4A, 18)) == 0xC4DE2CE639FB8154
  {
    Powers();
    RotlIs(0x37245127A4067E4B, 1, 0x2, 0x8000000000000000, 0x0, 0x37245127A4067E4B, 0x6E48A24F480CFC96);
    RotlIs(0x1B302B0A818F92CF, 7, 0x80, 0x200000000000000, 0xD, 0x1302B0A818F92CF, 0x98158540C7C9678D);
    RotlIs(0xCD62D843D0580FCA, 12, 0x1000, 0x10000000000000, 0xCD6, 0x2D843D0580FCA, 0x2D843D0580FCACD6);
    RotlIs(0x1C16E43EF2142A4A, 18, 0x40000, 0x400000000000, 0x705B, 0x243EF2142A4A, 0x90FBC850A928705B);
  }

  lemma {:induction false} Merge1()
    ensures MergeRound(0xC4DE2CE639FB8154, 0x37245127A4067E4B) == 0x30D40DDD00AEA144
  {
    Powers();
    MulIs(0x37245127A4067E4B, PRIME_2, 0x29F002485341A546, 0xBF0E534A970BD225);
    RotlIs(0xBF0E534A970BD225, 31, 0x80000000, 0x200000000, 0x5F8729A5, 0x970BD225, 0x4B85E912DF8729A5);
    MulIs(0x4B85E912DF8729A5, PRIME_1, 0x2EAD03856345A534, 0x7790FF1F7A9A2803);
    XorIs(0xC4DE2CE639FB8154, 0x7790FF1F7A9A2803, 0xB34ED3F94361A957,
          0xC4, 0xDE, 0x2C, 0xE6, 0x39, 0xFB, 0x81, 0x54,
          0x77, 0x90, 0xFF, 0x1F, 0x7A, 0x9A, 0x28, 0x03);
    MulIs(0xB34ED3F94361A957, PRIME_1, 0x6ED181FFFBA23C07, 0xAAE843653DFBF2E1);
    assert Add(0xAAE843653DFBF2E1, PRIME_4) == 0x30D40DDD00AEA144;
  }

  lemma {:induction false} Merge2()
    ensures MergeRound(0x30D40DDD00AEA144, 0x1B302B0A818F92CF) == 0xE5A1F095BF498698
  {
    Powers();
    MulIs(0x1B302B0A818F92CF, PRIME_2, 0x14AD7A9D1F733C15, 0x40BCC4C2E37E52E1);
    RotlIs(0x40BCC4C2E37E52E1, 31, 0x80000000, 0x200000000, 0x205E6261, 0xE37E52E1, 0x71BF2970A05E6261);
    MulIs(0x71BF2970A05E6261, PRIME_1, 0x464CA1B7A56FACA9, 0xDECED6C0BF716B27);
    XorIs(0x30D40DDD00AEA144, 0xDECED6C0BF716B27, 0xEE1ADB1DBFDFCA63,
          0x30, 0xD4, 0x0D, 0xDD, 0x00, 0xAE, 0xA1, 0x44,
          0xDE, 0xCE, 0xD6, 0xC0, 0xBF, 0x71, 0x6B, 0x27);
    MulIs(0xEE1ADB1DBFDFCA63, PRIME_1, 0x93282C313E822A1C, 0x5FB6261DFC96D835);
    assert Add(0x5FB6261DFC96D835, PRIME_4) == 0xE5A1F095BF498698;
  }

  lemma {:induction false} Merge3()
    ensures MergeRound(0xE5A1F095BF498698, 0xCD62D843D0580FCA) == 0xF9CEE721E748096D
  {
    Powers();
    MulIs(0xCD62D843D0580FCA, PRIME_2, 0x9C344268028A1A8D, 0x1917FFA4FAF34D56);
    RotlIs(0x1917FFA4FAF34D56, 31, 0x80000000, 0x200000000, 0xC8BFFD2, 0xFAF34D56, 0x7D79A6AB0C8BFFD2);
    MulIs(0x7D79A6AB0C8BFFD2, PRIME_1, 0x4D8C45A5E304F4B0, 0x70073EB805759BBE);
    XorIs(0xE5A1F095BF498698, 0x70073EB805759BBE, 0x95A6CE2DBA3C1D26,
          0xE5, 0xA1, 0xF0, 0x95, 0xBF, 0x49, 0x86, 0x98,
          0x70, 0x07, 0x3E, 0xB8, 0x05, 0x75, 0x9B, 0xBE);
    MulIs(0x95A6CE2DBA3C1D26, PRIME_1, 0x5C7D613A22D5C72D, 0x73E31CAA24955B0A);
    assert Add(0x73E31CAA24955B0A, PRIME_4) == 0xF9CEE721E748096D;
  }

  lemma {:induction false} Merge4()
    ensures MergeRound(0xF9CEE721E748096D, 0x1C16E43EF2142A4A) == 0x84F22C421A11A8B5
  {
    Powers();
    MulIs(0x1C16E43EF2142A4A, PRIME_2, 0x155CF400AC2D9F27, 0x2898226B8252FAD6);
    RotlIs(0x2898226B8252FAD6, 31, 0x80000000, 0x200000000, 0x144C1135, 0x18252FAD6, 0xC1297D6B144C1135);
    MulIs(0xC1297D6B144C1135, PRIME_1, 0x77617724978C1AA6, 0xC1CBBAE50E57E4F3);
    XorIs(0xF9CEE721E748096D, 0xC1CBBAE50E57E4F3, 0x38055DC4E91FED9E,
          0xF9, 0xCE, 0xE7, 0x21, 0xE7, 0x48, 0x09, 0x6D,
          0xC1, 0xCB, 0xBA, 0xE5, 0x0E, 0x57, 0xE4, 0xF3);
    MulIs(0x38055DC4E91FED9E, PRIME_1, 0x229F73A80F8614CE, 0xFF0661CA575EFA52);
    assert Add(0xFF0661CA575EFA52, PRIME_4) == 0x84F22C421A11A8B5;
  }

  lemma {:induction false} Converged()
    ensures Converge(Acc(0x37245127A4067E4B, 0x1B302B0A818F92CF, 0xCD62D843D0580FCA, 0x1C16E43EF2142A4A)) ==
            0x84F22C421A11A8B5
  {
    Sum();
    Merge1();
    Merge2();
    Merge3();
    Merge4();
  }

  lemma {:induction false} TailWord()
    ensures Stir(4, Xor(0x84F22C421A11A8DC, Mul(0x74697465, PRIME_1))) == 0x9FCA0F5D0AAA110F
  {
    Powers();
    MulIs(0x74697465, PRIME_1, 0x47F24FD4, 0xE9863933EB2B1343);
    XorIs(0x84F22C421A11A8DC, 0xE9863933EB2B1343, 0x6D741571F13ABB9F,
          0x84, 0xF2, 0x2C, 0x42, 0x1A, 0x11, 0xA8, 0xDC,
          0xE9, 0x86, 0x39, 0x33, 0xEB, 0x2B, 0x13, 0x43);
    RotlIs(0x6D741571F13ABB9F, 23, 0x800000, 0x20000000000, 0x36BA0A, 0x171F13ABB9F, 0xB8F89D5DCFB6BA0A);
    MulIs(0xB8F89D5DCFB6BA0A, PRIME_2, 0x8CAD8203AD9DE072, 0x8973A7AB6C729716);
    assert Add(0x8973A7AB6C729716, PRIME_3) == 0x9FCA0F5D0AAA110F;
  }

  lemma {:induction false} TailByte1()
    ensures Stir(1, Xor(0x9FCA0F5D0AAA110F, Mul(105, PRIME_5))) == 0x769671546F21BA14
  {
    Powers();
    MulIs(0x69, PRIME_5, 0x10, 0x5654765029708FCD);
    XorIs(0x9FCA0F5D0AAA110F, 0x5654765029708FCD, 0xC99E790D23DA9EC2,
          0x9F, 0xCA, 0x0F, 0x5D, 0x0A, 0xAA, 0x11, 0x0F,
          0x56, 0x54, 0x76, 0x50, 0x29, 0x70, 0x8F, 0xCD);
    RotlIs(0xC99E790D23DA9EC2, 11, 0x800, 0x20000000000000, 0x64C, 0x1E790D23DA9EC2, 0xF3C8691ED4F6164C);
    MulIs(0xF3C8691ED4F6164C, PRIME_1, 0x96AA84D263D78C0D, 0x769671546F21BA14);
  }

  lemma {:induction false} TailByte2()
    ensures Stir(1, Xor(0x769671546F21BA14, Mul(111, PRIME_5))) == 0xEAE9B643C5F94E52
  {
    Powers();
    MulIs(0x6F, PRIME_5, 0x11, 0x4551F96AAF76FE6B);
    XorIs(0x769671546F21BA14, 0x4551F96AAF76FE6B, 0x33C7883EC057447F,
          0x76, 0x96, 0x71, 0x54, 0x6F, 0x21, 0xBA, 0x14,
          0x45, 0x51, 0xF9, 0x6A, 0xAF, 0x76, 0xFE, 0x6B);
    RotlIs(0x33C7883EC057447F, 11, 0x800, 0x20000000000000, 0x19E, 0x7883EC057447F, 0x3C41F602BA23F99E);
    MulIs(0x3C41F602BA23F99E, PRIME_1, 0x253DC4A67FE058AF, 0xEAE9B643C5F94E52);
  }

  lemma {:induction false} TailByte3()
    ensures Stir(1, Xor(0xEAE9B643C5F94E52, Mul(110, PRIME_5))) == 0x1D0A47483B37CC24
  {
    Powers();
    MulIs(0x6E, PRIME_5, 0x11, 0x1D7D0E3B992096A6);
    XorIs(0xEAE9B643C5F94E52, 0x1D7D0E3B992096A6, 0xF794B8785CD9D8F4,
          0xEA, 0xE9, 0xB6, 0x43, 0xC5, 0xF9, 0x4E, 0x52,
          0x1D, 0x7D, 0x0E, 0x3B, 0x99, 0x20, 0x96, 0xA6);
    RotlIs(0xF794B8785CD9D8F4, 11, 0x800, 0x20000000000000, 0x7BC, 0x14B8785CD9D8F4, 0xA5C3C2E6CEC7A7BC);
    MulIs(0xA5C3C2E6CEC7A7BC, PRIME_1, 0x6672BE25CD65E1D6, 0x1D0A47483B37CC24);
  }

  lemma {:induction false} LongFinish1()
    ensures Mul(XorShift(0x1D0A47483B37CC24, 33), PRIME_2) == 0x5F0214BEAA126880
  {
    Powers();
    ShiftIs(0x1D0A47483B37CC24, 33, 0x200000000, 0xE8523A4, 0x3B37CC24);
    XorIs(0x1D0A47483B37CC24, 0xE8523A4, 0x1D0A474835B2EF80,
          0x1D, 0x0A, 0x47, 0x48, 0x3B, 0x37, 0xCC, 0x24,
          0x00, 0x00, 0x00, 0x00, 0x0E, 0x85, 0x23, 0xA4);
    MulIs(0x1D0A474835B2EF80, PRIME_2, 0x16160EEE3551B8AE, 0x5F0214BEAA126880);
  }

  lemma {:induction false} LongFinish2()
    ensures Mul(XorShift(0x5F0214BEAA126880, 29), PRIME_3) == 0xFBCEA83C71F923CD
  {
    Powers();
    ShiftIs(0x5F0214BEAA126880, 29, 0x20000000, 0x2F810A5F5, 0xA126880);
    XorIs(0x5F0214BEAA126880, 0x2F810A5F5, 0x5F0214BC5202CD75,
          0x5F, 0x02, 0x14, 0xBE, 0xAA, 0x12, 0x68, 0x80,
          0x00, 0x00, 0x00, 0x02, 0xF8, 0x10, 0xA5, 0xF5);
    MulIs(0x5F0214BC5202CD75, PRIME_3, 0x84A3EF6E7CFC54F, 0xFBCEA83C71F923CD);
  }

  lemma {:induction false} LongFinish()
    ensures Finish(0x1D0A47483B37CC24) == 0xFBCEA83C8A378BF1
  {
    Powers();
    LongFinish1();
    LongFinish2();
    ShiftIs(0xFBCEA83C71F923CD, 32, 0x100000000, 0xFBCEA83C, 0x71F923CD);
    XorIs(0xFBCEA83C71F923CD, 0xFBCEA83C, 0xFBCEA83C8A378BF1,
          0xFB, 0xCE, 0xA8, 0x3C, 0x71, 0xF9, 0x23, 0xCD,
          0x00, 0x00, 0x00, 0x00, 0xFB, 0xCE, 0xA8, 0x3C);
  }

  /** The 39 bytes of "Nobody inspects the spammish repetition": four lanes, a word and three bytes. */
  const LANE_1: Bytes := [78, 111, 98, 111, 100, 121, 32, 105]
  const LANE_2: Bytes := [110, 115, 112, 101, 99, 116, 115, 32]
  const LANE_3: Bytes := [116, 104, 101, 32, 115, 112, 97, 109]
  const LANE_4: Bytes := [109, 105, 115, 104, 32, 114, 101, 112]
  const TAIL_WORD: Bytes := [101, 116, 105, 116]

  lemma {:induction false} Lanes()
    ensures Read(LANE_1) == 0x692079646F626F4E && Read(LANE_2) == 0x207374636570736E
    ensures Read(LANE_3) == 0x6D61707320656874 && Read(LANE_4) == 0x706572206873696D
  {
    EightBytes(LANE_1);
    EightBytes(LANE_2);
    EightBytes(LANE_3);
    EightBytes(LANE_4);
  }

  lemma {:induction false} WordRead()
    ensures Read(TAIL_WORD) == 0x74697465
  {
    FourBytes(TAIL_WORD);
  }

  /** The accumulators after the stripe. */
  lemma {:induction false} Accumulated()
    ensures StripeStep(Init(0), LANE_1 + LANE_2 + LANE_3 + LANE_4) ==
            Acc(0x37245127A4067E4B, 0x1B302B0A818F92CF, 0xCD62D843D0580FCA, 0x1C16E43EF2142A4A)
  {
    StripeOf(Init(0), LANE_1, LANE_2, LANE_3, LANE_4);
    Lanes();
    assert Init(0) == Acc(0x60EA27EEADC0B5D6, 0xC2B2AE3D27D4EB4F, 0, 0x61C8864E7A143579);
    Round1();
    Round2();
    Round3();
    Round4();
  }

  lemma {:induction false} TailFolded()
    ensures Fold(0x84F22C421A11A8DC, [TAIL_WORD, [105], [111], [110]]) == 0x1D0A47483B37CC24
  {
    WordRead();
    TailWord();
    TailByte1();
    TailByte2();
    TailByte3();
    FoldTail(0x84F22C421A11A8DC, TAIL_WORD, 105, 111, 110,
             0x9FCA0F5D0AAA110F, 0x769671546F21BA14, 0xEAE9B643C5F94E52, 0x1D0A47483B37CC24);
  }

  lemma {:induction false} LongInput()
    ensures Hash(LANE_1 + LANE_2 + LANE_3 + LANE_4 + TAIL_WORD + [105, 111, 110], 0) ==
            0xFBCEA83C8A378BF1
  {
    LongHash(LANE_1 + LANE_2 + LANE_3 + LANE_4, TAIL_WORD, 105, 111, 110, 0);
    Accumulated();
    Converged();
    assert Add(0x84F22C421A11A8B5, 39) == 0x84F22C421A11A8DC;
    TailFolded();
    LongFinish();
  }

  // ---------- three lanes, a word and three bytes, with a seed ----------

  lemma {:induction false} Lane1()
    ensures Stir(8, Xor(0x27D4EB2F165667E5, MixLane(0x6120746E61772049))) == 0x2939D53C75DBDB7
  {
    Powers();
    MulIs(0x6120746E61772049, PRIME_2, 0x49DE62E7DD9789BB, 0xF63D6D7F49D9F987);
    RotlIs(0xF63D6D7F49D9F987, 31, 0x80000000, 0x200000000, 0x7B1EB6BF, 0x149D9F987, 0xA4ECFCC3FB1EB6BF);
    MulIs(0xA4ECFCC3FB1EB6BF, PRIME_1, 0x65EE0151A4B254ED, 0x1B700AB1A5BA14B9);
    XorIs(0x27D4EB2F165667E5, 0x1B700AB1A5BA14B9, 0x3CA4E19EB3EC735C,
          0x27, 0xD4, 0xEB, 0x2F, 0x16, 0x56, 0x67, 0xE5,
          0x1B, 0x70, 0x0A, 0xB1, 0xA5, 0xBA, 0x14, 0xB9);
    RotlIs(0x3CA4E19EB3EC735C, 27, 0x8000000, 0x2000000000, 0x1E5270C, 0x1EB3EC735C, 0xF59F639AE1E5270C);
    MulIs(0xF59F639AE1E5270C, PRIME_1, 0x97CD997AA7781391, 0x7CA7D2DC04AB0F54);
    assert Add(0x7CA7D2DC04AB0F54, PRIME_4) == 0x2939D53C75DBDB7;
  }

  lemma {:induction false} Lane2()
    ensures Stir(8, Xor(0x2939D53C75DBDB7, MixLane(0x6E6769736E75206E))) == 0xF2666409986B2B70
  {
    Powers();
    MulIs(0x6E6769736E75206E, PRIME_2, 0x53F76CF57575B9C7, 0xBF91502A3801FBF2);
    RotlIs(0xBF91502A3801FBF2, 31, 0x80000000, 0x200000000, 0x5FC8A815, 0x3801FBF2, 0x1C00FDF95FC8A815);
    MulIs(0x1C00FDF95FC8A815, PRIME_1, 0x114EAE465D12328D, 0x634C04200BB83513);
    XorIs(0x2939D53C75DBDB7, 0x634C04200BB83513, 0x61DF9973CCE588A4,
          0x02, 0x93, 0x9D, 0x53, 0xC7, 0x5D, 0xBD, 0xB7,
          0x63, 0x4C, 0x04, 0x20, 0x0B, 0xB8, 0x35, 0x13);
    RotlIs(0x61DF9973CCE588A4, 27, 0x8000000, 0x2000000000, 0x30EFCCB, 0x13CCE588A4, 0x9E672C45230EFCCB);
    MulIs(0x9E672C45230EFCCB, PRIME_1, 0x61E600C9CA9D91A3, 0x6C7A9991D5B87D0D);
    assert Add(0x6C7A9991D5B87D0D, PRIME_4) == 0xF2666409986B2B70;
  }

  lemma {:induction false} Lane3()
    ensures Stir(8, Xor(0xF2666409986B2B70, MixLane(0x69622D3436206465))) == 0x256B014776F4DD79
  {
    Powers();
    MulIs(0x69622D3436206465, PRIME_2, 0x5025F43EE6D60BE3, 0x4A7534FBF6CBB22B);
    RotlIs(0x4A7534FBF6CBB22B, 31, 0x80000000, 0x200000000, 0x253A9A7D, 0x1F6CBB22B, 0xFB65D915A53A9A7D);
    MulIs(0xFB65D915A53A9A7D, PRIME_1, 0x9B5F565E782A7529, 0xBD1B9346218D19EB);
    XorIs(0xF2666409986B2B70, 0xBD1B9346218D19EB, 0x4F7DF74FB9E6329B,
          0xF2, 0x66, 0x64, 0x09, 0x98, 0x6B, 0x2B, 0x70,
          0xBD, 0x1B, 0x93, 0x46, 0x21, 0x8D, 0x19, 0xEB);
    RotlIs(0x4F7DF74FB9E6329B, 27, 0x8000000, 0x2000000000, 0x27BEFBA, 0xFB9E6329B, 0x7DCF3194DA7BEFBA);
    MulIs(0x7DCF3194DA7BEFBA, PRIME_1, 0x4DC123EBB2549741, 0x9F7F36CFB4422F16);
    assert Add(0x9F7F36CFB4422F16, PRIME_4) == 0x256B014776F4DD79;
  }

  lemma {:induction false} ShortWord()
    ensures Stir(4, Xor(0x256B014776F4DD79, Mul(0x65732074, PRIME_1))) == 0x60CE4BE13EABA9D7
  {
    Powers();
    MulIs(0x65732074, PRIME_1, 0x3EB309FD, 0x54EE850165CDA52C);
    XorIs(0x256B014776F4DD79, 0x54EE850165CDA52C, 0x7185844613397855,
          0x25, 0x6B, 0x01, 0x47, 0x76, 0xF4, 0xDD, 0x79,
          0x54, 0xEE, 0x85, 0x01, 0x65, 0xCD, 0xA5, 0x2C);
    RotlIs(0x7185844613397855, 23, 0x800000, 0x20000000000, 0x38C2C2, 0x4613397855, 0x23099CBC2AB8C2C2);
    MulIs(0x23099CBC2AB8C2C2, PRIME_2, 0x1AA5BD4E7A7B90F9, 0x4A77E42FA0742FDE);
    assert Add(0x4A77E42FA0742FDE, PRIME_3) == 0x60CE4BE13EABA9D7;
  }

  lemma {:induction false} ShortByte1()
    ensures Stir(1, Xor(0x60CE4BE13EABA9D7, Mul(101, PRIME_5))) == 0x40B10F4813678A32
  {
    Powers();
    MulIs(0x65, PRIME_5, 0xF, 0xB700C993D016F0B9);
    XorIs(0x60CE4BE13EABA9D7, 0xB700C993D016F0B9, 0xD7CE8272EEBD596E,
          0x60, 0xCE, 0x4B, 0xE1, 0x3E, 0xAB, 0xA9, 0xD7,
          0xB7, 0x00, 0xC9, 0x93, 0xD0, 0x16, 0xF0, 0xB9);
    RotlIs(0xD7CE8272EEBD596E, 11, 0x800, 0x20000000000000, 0x6BE, 0xE8272EEBD596E, 0x74139775EACB76BE);
    MulIs(0x74139775EACB76BE, PRIME_1, 0x47BD3EDE121A9102, 0x40B10F4813678A32);
  }

  lemma {:induction false} ShortByte2()
    ensures Stir(1, Xor(0x40B10F4813678A32, Mul(100, PRIME_5))) == 0x5B87FCA08A889364
  {
    Powers();
    MulIs(0x64, PRIME_5, 0xF, 0x8F2BDE64B9C088F4);
    XorIs(0x40B10F4813678A32, 0x8F2BDE64B9C088F4, 0xCF9AD12CAAA702C6,
          0x40, 0xB1, 0x0F, 0x48, 0x13, 0x67, 0x8A, 0x32,
          0x8F, 0x2B, 0xDE, 0x64, 0xB9, 0xC0, 0x88, 0xF4);
    RotlIs(0xCF9AD12CAAA702C6, 11, 0x800, 0x20000000000000, 0x67C, 0x1AD12CAAA702C6, 0xD68965553816367C);
    MulIs(0xD68965553816367C, PRIME_1, 0x84974A0B140C1553, 0x5B87FCA08A889364);
  }

  lemma {:induction false} ShortByte3()
    ensures Stir(1, Xor(0x5B87FCA08A889364, Mul(33, PRIME_5))) == 0x974AEB7FC4849029
  {
    Powers();
    MulIs(0x21, PRIME_5, 0x5, 0x22725111E1236065);
    XorIs(0x5B87FCA08A889364, 0x22725111E1236065, 0x79F5ADB16BABF301,
          0x5B, 0x87, 0xFC, 0xA0, 0x8A, 0x88, 0x93, 0x64,
          0x22, 0x72, 0x51, 0x11, 0xE1, 0x23, 0x60, 0x65);
    RotlIs(0x79F5ADB16BABF301, 11, 0x800, 0x20000000000000, 0x3CF, 0x15ADB16BABF301, 0xAD6D8B5D5F980BCF);
    MulIs(0xAD6D8B5D5F980BCF, PRIME_1, 0x6B2F30FD9C6584DC, 0x974AEB7FC4849029);
  }

  lemma {:induction false} ShortFinish1()
    ensures Mul(XorShift(0x974AEB7FC4849029, 33), PRIME_2) == 0x5E291F8B436E8B4A
  {
    Powers();
    ShiftIs(0x974AEB7FC4849029, 33, 0x200000000, 0x4BA575BF, 0x1C4849029);
    XorIs(0x974AEB7FC4849029, 0x4BA575BF, 0x974AEB7F8F21E596,
          0x97, 0x4A, 0xEB, 0x7F, 0xC4, 0x84, 0x90, 0x29,
          0x00, 0x00, 0x00, 0x00, 0x4B, 0xA5, 0x75, 0xBF);
    MulIs(0x974AEB7F8F21E596, PRIME_2, 0x73105F87799E4537, 0x5E291F8B436E8B4A);
  }

  lemma {:induction false} ShortFinish2()
    ensures Mul(XorShift(0x5E291F8B436E8B4A, 29), PRIME_3) == 0xCE5087F1EA205E90
  {
    Powers();
    ShiftIs(0x5E291F8B436E8B4A, 29, 0x20000000, 0x2F148FC5A, 0x36E8B4A);
    XorIs(0x5E291F8B436E8B4A, 0x2F148FC5A, 0x5E291F89B2267710,
          0x5E, 0x29, 0x1F, 0x8B, 0x43, 0x6E, 0x8B, 0x4A,
          0x00, 0x00, 0x00, 0x02, 0xF1, 0x48, 0xFC, 0x5A);
    MulIs(0x5E291F89B2267710, PRIME_3, 0x83750AA4DE22532, 0xCE5087F1EA205E90);
  }

  lemma {:induction false} ShortFinish()
    ensures Finish(0x974AEB7FC4849029) == 0xCE5087F12470D961
  {
    Powers();
    ShortFinish1();
    ShortFinish2();
    ShiftIs(0xCE5087F1EA205E90, 32, 0x100000000, 0xCE5087F1, 0xEA205E90);
    XorIs(0xCE5087F1EA205E90, 0xCE5087F1, 0xCE5087F12470D961,
          0xCE, 0x50, 0x87, 0xF1, 0xEA, 0x20, 0x5E, 0x90,
          0x00, 0x00, 0x00, 0x00, 0xCE, 0x50, 0x87, 0xF1);
  }

  /** The 31 bytes of "I want an unsigned 64-bit seed!". */
  const SHORT_1: Bytes := [73, 32, 119, 97, 110, 116, 32, 97]
  const SHORT_2: Bytes := [110, 32, 117, 110, 115, 105, 103, 110]
  const SHORT_3: Bytes := [101, 100, 32, 54, 52, 45, 98, 105]
  const SHORT_WORD: Bytes := [116, 32, 115, 101]

  lemma {:induction false} ShortRead()
    ensures Read(SHORT_1) == 0x6120746E61772049 && Read(SHORT_2) == 0x6E6769736E75206E
    ensures Read(SHORT_3) == 0x69622D3436206465 && Read(SHORT_WORD) == 0x65732074
  {
    EightBytes(SHORT_1);
    EightBytes(SHORT_2);
    EightBytes(SHORT_3);
    FourBytes(SHORT_WORD);
  }

  lemma {:induction false} ShortTail()
    ensures Fold(0x256B014776F4DD79, [SHORT_WORD, [101], [100], [33]]) == 0x974AEB7FC4849029
  {
    ShortRead();
    ShortWord();
    ShortByte1();
    ShortByte2();
    ShortByte3();
    FoldTail(0x256B014776F4DD79, SHORT_WORD, 101, 100, 33,
             0x60CE4BE13EABA9D7, 0x40B10F4813678A32, 0x5B87FCA08A889364, 0x974AEB7FC4849029);
  }

  lemma {:induction false} ShortLanes(rest: seq<Bytes>)
    requires AllPieces(rest)
    ensures Fold(0x27D4EB2F165667E5, [SHORT_1] + ([SHORT_2] + ([SHORT_3] + rest))) == Fold(0x256B014776F4DD79, rest)
  {
    ShortRead();
    Lane1();
    Lane2();
    Lane3();
    FoldThreeLanes(0x27D4EB2F165667E5, SHORT_1, SHORT_2, SHORT_3, rest,
                   0x2939D53C75DBDB7, 0xF2666409986B2B70, 0x256B014776F4DD79);
  }

  lemma {:induction false} ShortFolded()
    ensures Fold(0x27D4EB2F165667E5, [SHORT_1] + ([SHORT_2] + ([SHORT_3] +
                 [SHORT_WORD, [101], [100], [33]]))) == 0x974AEB7FC4849029
  {
    ShortLanes([SHORT_WORD, [101], [100], [33]]);
    ShortTail();
  }

  lemma {:induction false} ShortInput()
    ensures Hash(SHORT_1 + (SHORT_2 + (SHORT_3 + (SHORT_WORD + [101, 100, 33]))), 1) ==
            0xCE5087F12470D961
  {
    assert Add(Add(1, PRIME_5), 31) == 0x27D4EB2F165667E5;
    ShortFolded();
    ShortFinish();
    ShortHash(SHORT_1, SHORT_2, SHORT_3, SHORT_WORD, 101, 100, 33, 1,
              0x27D4EB2F165667E5, 0x974AEB7FC4849029, 0xCE5087F12470D961);
  }
}
