/** Products of naturals: the nonlinear arithmetic behind the amortised bounds, one small
    step at a time. */
module Products {

  function Pow(b: nat, e: nat): nat
  {
    if e == 0 then 1 else b * Pow(b, e - 1)
  }

  lemma {:induction false} PowFour(e: nat)
    ensures Pow(2, e + 2) == 4 * Pow(2, e)
  {
    assert Pow(2, e + 2) == 2 * Pow(2, e + 1);
  }

  lemma {:induction false} PowPositive(b: nat, e: nat)
    requires b >= 1
    ensures Pow(b, e) >= 1
  {
    if e > 0 {
      PowPositive(b, e - 1);
      PositiveProduct(b, Pow(b, e - 1));
    }
  }

  lemma {:induction false} PowSum(b: nat, d: nat, e: nat)
    ensures Pow(b, d + e) == Pow(b, d) * Pow(b, e)
  {
    if d > 0 {
      PowSum(b, d - 1, e);
      Assoc(b, Pow(b, d - 1), Pow(b, e));
    }
  }

  lemma {:induction false} PowPower(b: nat, d: nat, e: nat)
    ensures Pow(Pow(b, d), e) == Pow(b, d * e)
  {
    if e > 0 {
      PowPower(b, d, e - 1);
      PowSum(b, d, d * (e - 1));
      assert d + d * (e - 1) == d * e;
    }
  }

  /** Powers of two are strictly monotone in the exponent. */
  lemma {:induction false} PowMonotone(d: nat, e: nat)
    requires Pow(2, d) <= Pow(2, e)
    ensures d <= e
  {
    if d > e {
      PowSum(2, d - e - 1, e);
      assert Pow(2, d) == 2 * Pow(2, d - 1);
      PowPositive(2, e);
      PowPositive(2, d - e - 1);
      MulMono(1, Pow(2, d - e - 1), Pow(2, e), Pow(2, e));
    }
  }

  lemma {:induction false} PositiveProduct(a: nat, b: nat)
    requires a >= 1 && b >= 1
    ensures a * b >= 1
  {
    MulMono(1, a, 1, b);
  }

  lemma {:induction false} MulMono(a: nat, b: nat, c: nat, d: nat)
    requires a <= b && c <= d
    ensures a * c <= b * d
  {
    assert b * d == a * c + a * (d - c) + (b - a) * d;
    assert a * (d - c) >= 0 && (b - a) * d >= 0;
  }

  lemma {:induction false} Regroup(s: nat, u: nat, m: nat, n: nat, p: nat, q: nat)
    ensures s * (u * (q * p)) * (m * n) == s * u * ((m * p) * (n * q))
  {
    assert (m * p) * (n * q) == (m * n) * (p * q);
    Shuffle(s, u, q * p, m * n);
  }

  lemma {:induction false} Shuffle(s: nat, r: nat, u: nat, v: nat)
    ensures s * (r * u) * v == s * r * (v * u)
  {
  }

  /** The step of the two-pass analysis: `pair` is the potential of a merged pair of trees
      with m = u + 1 nodes, in front of a list of r >= 1 nodes whose own merge has potential
      `res`; s = w + 1 = m + r, q counts the nodes from the second tree on, and `x` is the
      product of the potentials of the pair's two child lists. */
  lemma {:induction false} PairStep(s: nat, w: nat, u: nat, m: nat, r: nat, q: nat, x: nat, rest: nat,
                                    pair: nat, res: nat, after: nat, before: nat, k: nat, k4: nat)
    requires m == u + 1 && s == w + 1 == m + r && r >= 1 && q >= r && k4 == 4 * k
    requires res * k <= 4 * (r * r * r) * rest
    requires pair == m * (u * x) && before == s * (x * (q * rest))
    requires after * (m * r) == s * w * (pair * res)
    ensures after * k4 <= 4 * (s * s * s) * before
  {
    PairExact(m, r, s * w, u * x, after, res);
    PairBound(r, s * w * (u * x), rest, after, res, k);
    CoreInequality(s, w, u, r, q);
    Assemble(s, w, u, r, q, x, rest);
    Assoc4(after, k, (s * s * s) * before, s * s * s, before);
  }

  lemma {:induction false} Assoc4(a: nat, k: nat, e: nat, c: nat, d: nat)
    requires a * k <= e && e == c * d
    ensures a * (4 * k) <= 4 * c * d
  {
    assert a * (4 * k) == 4 * (a * k);
    assert 4 * c * d == 4 * (c * d);
  }

  lemma {:induction false} PairExact(m: nat, r: nat, f: nat, y: nat, merged: nat, res: nat)
    requires m >= 1
    requires merged * (m * r) == f * (m * y * res)
    ensures merged * r == f * y * res
  {
    Assoc3(merged, r, m);
    PullOut(f, m, y, res);
    Cancel(merged * r, f * y * res, m);
  }

  lemma {:induction false} PairBound(r: nat, g: nat, list: nat, merged: nat, res: nat, k: nat)
    requires r >= 1
    requires merged * r == g * res
    requires res * k <= 4 * (r * r * r) * list
    ensures merged * k <= g * (4 * (r * r) * list)
  {
    Swap(merged, k, r);
    Assoc(g, res, k);
    MulMono(g, g, res * k, 4 * (r * r * r) * list);
    CubeOut(g, r, list);
    CancelLess(merged * k, g * (4 * (r * r) * list), r);
  }

  lemma {:induction false} Assoc3(a: nat, r: nat, m: nat)
    ensures (a * r) * m == a * (m * r)
  {
  }

  lemma {:induction false} PullOut(f: nat, m: nat, y: nat, z: nat)
    ensures f * (m * y * z) == (f * y * z) * m
  {
  }

  lemma {:induction false} Swap(a: nat, b: nat, c: nat)
    ensures (a * b) * c == (a * c) * b
  {
  }

  lemma {:induction false} Assoc(a: nat, b: nat, c: nat)
    ensures (a * b) * c == a * (b * c)
  {
  }

  lemma {:induction false} CubeOut(g: nat, r: nat, l: nat)
    ensures g * (4 * (r * r * r) * l) == (g * (4 * (r * r) * l)) * r
  {
    assert 4 * (r * r * r) * l == (4 * (r * r) * l) * r;
  }

  lemma {:induction false} Cancel(a: nat, b: nat, c: nat)
    requires c >= 1 && a * c == b * c
    ensures a == b
  {
    CancelLess(a, b, c);
    CancelLess(b, a, c);
  }

  lemma {:induction false} CancelLess(a: nat, b: nat, c: nat)
    requires c >= 1 && a * c <= b * c
    ensures a <= b
  {
    if a > b {
      MulMono(b + 1, a, c, c);
      Distribute(b, c);
    }
  }

  lemma {:induction false} Distribute(b: nat, c: nat)
    ensures (b + 1) * c == b * c + c
  {
  }

  /** 4 u r <= (u + r)^2, carried to the form the step needs. */
  lemma {:induction false} CoreInequality(s: nat, w: nat, u: nat, r: nat, q: nat)
    requires s == w + 1 && w == u + r && q >= r
    ensures 4 * (w * (u * (r * r))) <= (s * s * s) * q
  {
    ArithmeticGeometric(u, r);
    MulMono(w, s, w, s);
    CoreProduct(w, s, 4 * (u * r), s * s, r, q);
    Assoc5(w, u, r);
    Assoc(s, s, s);
  }

  lemma {:induction false} CoreProduct(t: nat, s: nat, a: nat, b: nat, r: nat, q: nat)
    requires t <= s && a <= b && r <= q
    ensures t * a * r <= s * b * q
  {
    MulMono(t, s, a, b);
    MulMono(t * a, s * b, r, q);
  }

  lemma {:induction false} ArithmeticGeometric(u: nat, r: nat)
    ensures 4 * (u * r) <= (u + r) * (u + r)
  {
    assert (u + r) * (u + r) - 4 * (u * r) == (u - r) * (u - r);
  }

  lemma {:induction false} Assoc5(t: nat, u: nat, r: nat)
    ensures t * (4 * (u * r)) * r == 4 * (t * (u * (r * r)))
  {
    assert (u * r) * r == u * (r * r);
    Swap(t, 4 * (u * r), r);
    assert t * (4 * (u * r)) * r == t * (4 * ((u * r) * r));
  }

  lemma {:induction false} Assemble(s: nat, w: nat, u: nat, r: nat, q: nat, x: nat, l: nat)
    requires 4 * (w * (u * (r * r))) <= (s * s * s) * q
    ensures s * w * (u * x) * (4 * (r * r) * l) <= (s * s * s) * (s * (x * (q * l)))
  {
    var left, right := 4 * (w * (u * (r * r))), (s * s * s) * q;
    MulMono(left, right, s * (x * l), s * (x * l));
    AssembleLeft(s, w, u, r * r, x, l);
    AssembleRight(s * s * s, q, s, x, l);
  }

  lemma {:induction false} AssembleLeft(s: nat, t: nat, u: nat, rr: nat, x: nat, l: nat)
    ensures s * t * (u * x) * (4 * rr * l) == 4 * (t * (u * rr)) * (s * (x * l))
  {
    calc {
      s * t * (u * x) * (4 * rr * l);
      { assert s * t * (u * x) == s * (t * u) * x by { Assoc6(s, t, u, x); } }
      s * (t * u) * x * (4 * rr * l);
      { Assoc7(s * (t * u), x, 4 * rr, l); }
      s * (t * u) * (4 * rr) * (x * l);
      { Assoc8(s, t * u, rr); }
      4 * ((t * u) * rr) * s * (x * l);
      { assert (t * u) * rr == t * (u * rr); }
      4 * (t * (u * rr)) * s * (x * l);
      { Assoc(4 * (t * (u * rr)), s, x * l); }
      4 * (t * (u * rr)) * (s * (x * l));
    }
  }

  lemma {:induction false} Assoc6(s: nat, t: nat, u: nat, x: nat)
    ensures s * t * (u * x) == s * (t * u) * x
  {
  }

  lemma {:induction false} Assoc7(a: nat, x: nat, b: nat, l: nat)
    ensures a * x * (b * l) == a * b * (x * l)
  {
  }

  lemma {:induction false} Assoc8(s: nat, t: nat, r: nat)
    ensures s * t * (4 * r) == 4 * (t * r) * s
  {
  }

  lemma {:induction false} AssembleRight(c: nat, q: nat, s: nat, x: nat, l: nat)
    ensures (c * q) * (s * (x * l)) == c * (s * (x * (q * l)))
  {
    assert q * (s * (x * l)) == s * (x * (q * l));
  }

  lemma {:induction false} Commute(a: nat, b: nat)
    ensures a * b == b * a
  {
  }

  lemma {:induction false} SingleTree(s: nat, p: nat, k: nat)
    requires s >= 1 && k == 2
    ensures p * k <= 4 * (s * s * s) * p
  {
    CubePositive(s);
    MulMono(k, 4 * (s * s * s), p, p);
  }

  lemma {:induction false} CubePositive(s: nat)
    requires s >= 1
    ensures s * s * s >= 1
  {
    PositiveProduct(s, s);
    PositiveProduct(s * s, s);
  }

  lemma {:induction false} TwoTreesBound(s: nat, u: nat, q: nat, x: nat, l: nat, after: nat, before: nat, k: nat)
    requires s == u + 1 && q >= 1 && l == 1 && k == 4
    requires after == s * (u * x) && before == s * (x * (q * l))
    ensures after * k <= 4 * (s * s * s) * before
  {
    MulMono(x, x, 1, q * l);
    MulMono(u, s, x, x * (q * l));
    PositiveProduct(s, s);
    MulMono(1, s * s, s, s);
    MulMono(s, s * s * s, u * x, before);
    Assoc4(after, 1, (s * s * s) * before, s * s * s, before);
  }

  lemma {:induction false} MergeBound(a: nat, b: nat, s: nat, u: nat, n: nat, after: nat, before: nat)
    requires a >= 1 && b >= 1 && n >= s == u + 1 == a + b
    requires after * (a * b) == s * u * before
    ensures 2 * after <= 2 * n * before
  {
    assert a * b - u == (a - 1) * (b - 1);
    PositiveOrZero(a - 1, b - 1);
    MulMono(after, after, u, a * b);
    Swap(s, u, before);
    CancelLess(after, s * before, u);
    MulMono(s, n, before, before);
    Assoc(2, n, before);
  }

  lemma {:induction false} PositiveOrZero(a: nat, b: nat)
    ensures a * b >= 0
  {
  }

  lemma {:induction false} PopBound(s: nat, n: nat, after: nat, list: nat, k: nat)
    requires s >= 1 && n >= s + 1
    requires after * (2 * k) <= 4 * (s * s * s) * list
    ensures k * after <= 2 * (n * n) * ((s + 1) * list)
  {
    assert after * (2 * k) == 2 * (k * after);
    Assoc(4, s * s * s, list);
    assert k * after <= 2 * ((s * s * s) * list);
    MulMono(s, n, s, n);
    Assoc(s * s, s, list);
    MulMono(s, s + 1, list, list);
    MulMono(s * s, n * n, s * list, (s + 1) * list);
    Assoc(2, n * n, (s + 1) * list);
  }

  // ---------- carrying a bound over to a whole state or run ----------

  lemma {:induction false} Frame(k: nat, f: nat, rest: nat, after: nat, before: nat)
    requires k * after <= f * before
    ensures k * (rest * after) <= f * (rest * before)
  {
    MulMono(rest, rest, k * after, f * before);
    MoveOut(k, rest, after);
    MoveOut(f, rest, before);
  }

  lemma {:induction false} MoveOut(k: nat, r: nat, a: nat)
    ensures k * (r * a) == r * (k * a)
  {
  }

  lemma {:induction false} MergeFrame(k: nat, f: nat, rest: nat, after: nat, a: nat, b: nat)
    requires k * after <= f * (a * b)
    ensures k * (rest * after) <= f * (rest * b * a)
  {
    Frame(k, f, rest, after, a * b);
    Commute(a, b);
    Assoc(rest, b, a);
  }

  lemma {:induction false} Chain(d: nat, e: nat, m: nat, last: nat, f: nat, mid: nat, first: nat)
    requires Pow(2, d) * mid <= f * first
    requires Pow(2, e) * last <= Pow(f, m) * mid
    ensures Pow(2, d + e) * last <= Pow(f, m + 1) * first
  {
    PowSum(2, d, e);
    Link(Pow(2, d), Pow(2, e), last, Pow(f, m), f, mid, first);
  }

  lemma {:induction false} Link(k: nat, l: nat, last: nat, g: nat, f: nat, mid: nat, first: nat)
    requires k * mid <= f * first
    requires l * last <= g * mid
    ensures (k * l) * last <= (f * g) * first
  {
    MulMono(k, k, l * last, g * mid);
    Assoc(k, l, last);
    MulMono(g, g, k * mid, f * first);
    MoveOut(k, g, mid);
    MoveOut(g, f, first);
    Assoc(f, g, first);
  }
}
