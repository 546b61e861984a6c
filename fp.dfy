/**
 * The base prime field Fp of the BN254 curve: canonical residues modulo the
 * curve's field prime. It is the ground level of the extension tower
 * (Fp2 over Fp, Fp4 over Fp2). Only the operations the tower uses are
 * modelled: addition, subtraction, negation, multiplication, exact halving
 * and inversion, each returning the canonical residue in [0, P).
 */
module Fp {

  /** The BN254 field prime, 36u^4 + 36u^3 + 24u^2 + 6u + 1 for u = -(2^62 + 2^55 + 1). */
  const P: int := 0x2523648240000001BA344D80000000086121000000000013A700000000000013

  /** A canonical residue modulo P. */
  type Elem = x: int | 0 <= x < P

  // Addition, subtraction and negation reduce by one conditional
  // correction; AddRep, SubRep and NegRep below show that the result is the
  // residue of the integer sum, difference and negation.

  function Add(x: Elem, y: Elem): Elem { if x + y < P then x + y else x + y - P }

  function Sub(x: Elem, y: Elem): Elem { if y <= x then x - y else x - y + P }

  function Neg(x: Elem): Elem { if x == 0 then 0 else P - x }

  /**
   * The product, by shift-and-add over the bits of y, so that no value ever
   * exceeds 2P. MulIsProduct shows that it is the residue of x * y.
   */
  function Mul(x: Elem, y: Elem): Elem
    decreases y
  {
    if y == 0 then 0
    else
      var h := Mul(x, y / 2);
      if y % 2 == 0 then Add(h, h) else Add(Add(h, h), x)
  }

  /** Multiplication by a machine integer, which may be negative. */
  function MulInt(x: Elem, n: int): Elem { (x * n) % P }

  /** Exact halving: the unique residue whose double is x (P is odd). */
  function Div2(x: Elem): (r: Elem)
    ensures Add(r, r) == x
  {
    if x % 2 == 0 then x / 2 else (x + P) / 2
  }

  /** Inversion by the extended Euclidean algorithm on (x, P). */
  function Inverse(x: Elem): Elem
  {
    var e := Egcd(x, P);
    e.1 % P
  }

  // ---------------------------------------------------------------------
  // Primality and the extended Euclidean algorithm

  predicate Divides(d: int, n: int)
    requires d > 0
  {
    n % d == 0
  }

  /** n is prime. The model does not prove this of the 254-bit constant P; lemmas that need it say so. */
  ghost predicate IsPrime(n: int)
  {
    n > 1 && forall d :: 1 < d < n ==> !Divides(d, n)
  }

  /**
   * Returns (g, s, t, ka, kb) with g = s*a + t*b, a = g*ka and b = g*kb:
   * g is a common divisor of a and b that is a combination of both.
   */
  function Egcd(a: nat, b: nat): (r: (nat, int, int, int, int))
    decreases b
    ensures r.0 == r.1 * a + r.2 * b
    ensures a == r.0 * r.3 && b == r.0 * r.4
    ensures a > 0 || b > 0 ==> r.0 > 0
  {
    if b == 0 then (a, 1, 0, 1, 0)
    else
      var e := Egcd(b, a % b);
      var q := a / b;
      EgcdStep(a, b, q, a % b, e.0, e.1, e.2, e.3, e.4);
      (e.0, e.2, e.1 - q * e.2, q * e.3 + e.4, e.3)
  }

  /** One step of Euclid: from the result for (b, m) with a = q*b + m, the result for (a, b). */
  lemma EgcdStep(a: int, b: int, q: int, m: int, g: int, s: int, t: int, kb: int, km: int)
    requires a == q * b + m
    requires g == s * b + t * m && b == g * kb && m == g * km
    ensures g == t * a + (s - q * t) * b
    ensures a == g * (q * kb + km)
    ensures b > 0 && g >= 0 ==> g > 0
  {
    calc {
      t * a + (s - q * t) * b;
      t * (q * b + m) + s * b - (q * t) * b;
      { assert t * (q * b) == (q * t) * b; }
      t * m + s * b;
    }
    calc {
      g * (q * kb + km);
      q * (g * kb) + g * km;
      q * b + m;
    }
  }

  /** A product of a positive number and a nonzero integer is at least the first in absolute value. */
  lemma MulGrows(g: int, d: int)
    requires g > 0 && d >= 1
    ensures g * d >= g
  {
    assert g * d == g + g * (d - 1);
  }

  /** The only multiple of g in [0, g) is 0. */
  lemma SmallMultiple(g: int, d: int)
    requires g > 0 && 0 <= g * d < g
    ensures d == 0
  {
    if d >= 1 {
      MulGrows(g, d);
      assert false;
    } else if d <= -1 {
      MulGrows(g, -d);
      assert false;
    }
  }

  lemma MultipleMod(g: int, k: int)
    requires g > 0
    ensures (g * k) % g == 0
  {
    var n := g * k;
    var q, m := n / g, n % g;
    assert n == g * q + m && 0 <= m < g;
    assert g * (k - q) == m;
    SmallMultiple(g, k - q);
  }

  /** For prime n, the only positive common divisor of n and some x in (0, n) is 1. */
  lemma {:induction false} CoprimeToPrime(n: int, x: int, g: int, kx: int, kn: int)
    requires IsPrime(n) && 0 < x < n
    requires g > 0 && x == g * kx && n == g * kn
    ensures g == 1
  {
    assert kx >= 1 by {
      if kx <= 0 {
        MulGrows(g, 1 - kx);
        assert false;
      }
    }
    MulGrows(g, kx);
    MultipleMod(g, kn);
    if g != 1 {
      assert Divides(g, n);
      assert false;
    }
  }

  /** A Bezout identity s*x + t*P == 1 makes s an inverse of x modulo P. */
  lemma BezoutInverse(x: int, s: int, t: int)
    requires s * x + t * P == 1
    ensures (x * (s % P)) % P == 1
  {
    var r := s % P;
    IntComm(x, r);
    ModCongr(x * r, r * x);
    ModMulLeft(s, x);
    ModCongr(s * x, 1 + (0 - t) * P);
    ModShift(1, 0 - t);
  }

  /** For prime P, Inverse really inverts every nonzero residue. */
  lemma {:induction false} InverseCorrect(x: Elem)
    requires IsPrime(P) && x != 0
    ensures Mul(x, Inverse(x)) == 1
  {
    var e := Egcd(x, P);
    CoprimeToPrime(P, x, e.0, e.3, e.4);
    BezoutInverse(x, e.1, e.2);
    MulIsProduct(x, Inverse(x));
  }

  // ---------------------------------------------------------------------
  // Reduction commutes with ring operations on integers

  lemma ModAdd(x: int, y: int)
    ensures (x % P + y % P) % P == (x + y) % P
  {
  }

  lemma ModSub(x: int, y: int)
    ensures (x % P - y % P) % P == (x - y) % P
  {
  }

  lemma ModMulLeft(x: int, y: int)
    ensures ((x % P) * y) % P == (x * y) % P
  {
    var q, r := x / P, x % P;
    MulSplit(x, y, q, r);
    ModShift(r * y, q * y);
  }

  /** Adding a multiple of P does not change the residue. */
  lemma ModShift(a: int, b: int)
    ensures (a + b * P) % P == a % P
  {
  }

  lemma MulSplit(x: int, y: int, q: int, r: int)
    requires x == q * P + r
    ensures x * y == r * y + (q * y) * P
  {
    calc {
      x * y;
      (q * P + r) * y;
      (q * P) * y + r * y;
      { assert (q * P) * y == (q * y) * P; }
      r * y + (q * y) * P;
    }
  }

  lemma ModMul(x: int, y: int)
    ensures ((x % P) * (y % P)) % P == (x * y) % P
  {
    ModMulLeft(x, y % P);
    ModMulLeft(y, x);
    assert x * (y % P) == (y % P) * x;
    assert y * x == x * y;
  }

  // ---------------------------------------------------------------------
  // Each operation, applied to residues of integers X and Y, yields the
  // residue of the same operation on X and Y.

  /** A value within one P of the canonical range is reduced by one correction. */
  lemma ReduceOnce(v: int)
    requires -P <= v < 2 * P
    ensures v % P == if v < 0 then v + P else if v < P then v else v - P
  {
  }

  lemma AddRep(x: Elem, y: Elem, X: int, Y: int)
    requires x == X % P && y == Y % P
    ensures Add(x, y) == (X + Y) % P
  {
    ModAdd(X, Y);
    ReduceOnce(x + y);
  }

  lemma SubRep(x: Elem, y: Elem, X: int, Y: int)
    requires x == X % P && y == Y % P
    ensures Sub(x, y) == (X - Y) % P
  {
    ModSub(X, Y);
    ReduceOnce(x - y);
  }

  lemma NegRep(x: Elem, X: int)
    requires x == X % P
    ensures Neg(x) == (0 - X) % P
  {
    ModSub(0, X);
    ReduceOnce(0 - x);
  }

  /** Multiplying by a machine integer is multiplying by its residue. */
  lemma MulIntIsMul(x: Elem, n: int)
    ensures MulInt(x, n) == Mul(x, n % P)
  {
    var r := n % P;
    MulIsProduct(x, r);
    ModMulLeft(n, x);
    IntComm(n, x);
    IntComm(r, x);
  }

  lemma {:induction false} MulIsProduct(x: Elem, y: Elem)
    ensures Mul(x, y) == (x * y) % P
    decreases y
  {
    if y > 0 {
      var q := y / 2;
      var m, h := Mul(x, q), x * q;
      MulIsProduct(x, q);
      AddRep(m, m, h, h);
      if y % 2 == 0 {
        IntDouble(x, q, y, 0);
        ModCongr(x * y, h + h);
      } else {
        IntDouble(x, q, y, 1);
        ElemRep(x);
        AddRep(Add(m, m), x, h + h, x);
        ModCongr(x * y, h + h + x);
      }
    }
  }

  lemma MulRep(x: Elem, y: Elem, X: int, Y: int)
    requires x == X % P && y == Y % P
    ensures Mul(x, y) == (X * Y) % P
  {
    MulIsProduct(x, y);
    ModMul(X, Y);
  }

  // ---------------------------------------------------------------------
  // Integer identities, kept apart from the field terms

  lemma IntMulAssoc(x: int, y: int, z: int)
    ensures (x * y) * z == x * (y * z)
  {
  }

  lemma IntComm(x: int, y: int)
    ensures x * y == y * x
  {
  }

  lemma IntDouble(x: int, q: int, y: int, b: int)
    requires y == q + q + b && (b == 0 || b == 1)
    ensures x * y == x * q + x * q + x * b
  {
  }

  /** A canonical value is its own residue. */
  lemma ElemRep(x: Elem)
    ensures x == x % P
  {
  }

  /** Equal integers have equal residues. */
  lemma ModCongr(a: int, b: int)
    requires a == b
    ensures a % P == b % P
  {
  }

  lemma IntDistrib(x: int, y: int, z: int)
    ensures x * (y + z) == x * y + x * z
    ensures x * (y - z) == x * y - x * z
  {
  }

  lemma IntNeg(x: int, y: int)
    ensures x * (0 - y) == 0 - x * y
    ensures (0 - x) * (0 - y) == x * y
  {
  }

  // ---------------------------------------------------------------------
  // Ring laws

  lemma AddComm(x: Elem, y: Elem)
    ensures Add(x, y) == Add(y, x)
  {
  }

  lemma AddAssoc(x: Elem, y: Elem, z: Elem)
    ensures Add(Add(x, y), z) == Add(x, Add(y, z))
  {
  }

  lemma MulComm(x: Elem, y: Elem)
    ensures Mul(x, y) == Mul(y, x)
  {
    MulIsProduct(x, y);
    MulIsProduct(y, x);
    IntComm(x, y);
    ModCongr(x * y, y * x);
  }

  lemma MulAssoc(x: Elem, y: Elem, z: Elem)
    ensures Mul(Mul(x, y), z) == Mul(x, Mul(y, z))
  {
    ElemRep(x);
    ElemRep(z);
    MulIsProduct(x, y);
    MulRep(Mul(x, y), z, x * y, z);
    MulIsProduct(y, z);
    MulRep(x, Mul(y, z), x, y * z);
    IntMulAssoc(x, y, z);
    ModCongr((x * y) * z, x * (y * z));
  }

  lemma MulAddDistrib(x: Elem, y: Elem, z: Elem)
    ensures Mul(x, Add(y, z)) == Add(Mul(x, y), Mul(x, z))
  {
    var xy, xz := x * y, x * z;
    ElemRep(x);
    ElemRep(y);
    ElemRep(z);
    AddRep(y, z, y, z);
    MulRep(x, Add(y, z), x, y + z);
    MulIsProduct(x, y);
    MulIsProduct(x, z);
    AddRep(Mul(x, y), Mul(x, z), xy, xz);
    IntDistrib(x, y, z);
    ModCongr(x * (y + z), xy + xz);
  }

  lemma MulSubDistrib(x: Elem, y: Elem, z: Elem)
    ensures Mul(x, Sub(y, z)) == Sub(Mul(x, y), Mul(x, z))
  {
    var xy, xz := x * y, x * z;
    ElemRep(x);
    ElemRep(y);
    ElemRep(z);
    SubRep(y, z, y, z);
    MulRep(x, Sub(y, z), x, y - z);
    MulIsProduct(x, y);
    MulIsProduct(x, z);
    SubRep(Mul(x, y), Mul(x, z), xy, xz);
    IntDistrib(x, y, z);
    ModCongr(x * (y - z), xy - xz);
  }

  lemma MulAddDistribRight(x: Elem, y: Elem, z: Elem)
    ensures Mul(Add(y, z), x) == Add(Mul(y, x), Mul(z, x))
  {
    MulAddDistrib(x, y, z);
    MulComm(Add(y, z), x);
    MulComm(y, x);
    MulComm(z, x);
  }

  lemma MulSubDistribRight(x: Elem, y: Elem, z: Elem)
    ensures Mul(Sub(y, z), x) == Sub(Mul(y, x), Mul(z, x))
  {
    MulSubDistrib(x, y, z);
    MulComm(Sub(y, z), x);
    MulComm(y, x);
    MulComm(z, x);
  }

  /** (p - q) - (r + s) == (p - r) - (s + q) */
  lemma SubSumSwap(p: Elem, q: Elem, r: Elem, s: Elem)
    ensures Sub(Sub(p, q), Add(r, s)) == Sub(Sub(p, r), Add(s, q))
  {
  }

  /** (p - q) + (r + s) == (p + r) + (s - q) */
  lemma AddDiffSwap(p: Elem, q: Elem, r: Elem, s: Elem)
    ensures Add(Sub(p, q), Add(r, s)) == Add(Add(p, r), Sub(s, q))
  {
  }

  /** (p + q) - (r + s) == (p - r) + (q - s) */
  lemma SubOfSums(p: Elem, q: Elem, r: Elem, s: Elem)
    ensures Sub(Add(p, q), Add(r, s)) == Add(Sub(p, r), Sub(q, s))
  {
  }

  /** (p + q) + (r + s) == (p + r) + (q + s) */
  lemma AddOfSums(p: Elem, q: Elem, r: Elem, s: Elem)
    ensures Add(Add(p, q), Add(r, s)) == Add(Add(p, r), Add(q, s))
  {
  }

  /** (p - q) - (r - s) == (p - r) - (q - s) */
  lemma SubOfDiffs(p: Elem, q: Elem, r: Elem, s: Elem)
    ensures Sub(Sub(p, q), Sub(r, s)) == Sub(Sub(p, r), Sub(q, s))
  {
  }

  /** (p - q) + (r - s) == (p + r) - (q + s) */
  lemma AddOfDiffs(p: Elem, q: Elem, r: Elem, s: Elem)
    ensures Add(Sub(p, q), Sub(r, s)) == Sub(Add(p, r), Add(q, s))
  {
  }

  /** The difference of squares: (a + b)(a - b) == a^2 - b^2. */
  lemma SquareIdentity(a: Elem, b: Elem)
    ensures Mul(Add(a, b), Sub(a, b)) == Sub(Mul(a, a), Mul(b, b))
  {
    var u := Add(a, b);
    MulSubDistrib(u, a, b);
    MulComm(u, a);
    MulAddDistrib(a, a, b);
    MulComm(u, b);
    MulAddDistrib(b, a, b);
    MulComm(b, a);
    CancelCommon(Mul(a, a), Mul(a, b), Mul(b, b));
  }

  /** (p + q) - (q + s) == p - s */
  lemma CancelCommon(p: Elem, q: Elem, s: Elem)
    ensures Sub(Add(p, q), Add(q, s)) == Sub(p, s)
  {
  }

  /** Karatsuba: (b1 + a1)(a2 + b2) - a1 a2 - b1 b2 == a1 b2 + a2 b1. */
  lemma KaratsubaIdentity(a1: Elem, b1: Elem, a2: Elem, b2: Elem)
    ensures Sub(Sub(Mul(Add(b1, a1), Add(a2, b2)), Mul(a1, a2)), Mul(b1, b2))
         == Add(Mul(a1, b2), Mul(a2, b1))
  {
    var t := Add(a2, b2);
    MulComm(Add(b1, a1), t);
    MulAddDistrib(t, b1, a1);
    MulComm(t, b1);
    MulAddDistrib(b1, a2, b2);
    MulComm(t, a1);
    MulAddDistrib(a1, a2, b2);
    CancelMiddle2(Mul(b1, a2), Mul(b1, b2), Mul(a1, a2), Mul(a1, b2));
    AddComm(Mul(b1, a2), Mul(a1, b2));
    MulComm(b1, a2);
  }

  /** ((p + q) + (r + s)) - q - r == p + s */
  lemma CancelMiddle(p: Elem, q: Elem, r: Elem, s: Elem)
    ensures Sub(Sub(Add(Add(p, q), Add(r, s)), q), r) == Add(p, s)
  {
  }

  /** ((p + q) + (r + s)) - r - q == p + s */
  lemma CancelMiddle2(p: Elem, q: Elem, r: Elem, s: Elem)
    ensures Sub(Sub(Add(Add(p, q), Add(r, s)), r), q) == Add(p, s)
  {
  }

  lemma NegAdd(x: Elem, y: Elem)
    ensures Neg(Add(x, y)) == Add(Neg(x), Neg(y))
  {
  }

  lemma NegSub(x: Elem, y: Elem)
    ensures Neg(Sub(x, y)) == Sub(Neg(x), Neg(y))
  {
  }

  lemma MulNeg(x: Elem, y: Elem)
    ensures Mul(x, Neg(y)) == Neg(Mul(x, y))
  {
    ElemRep(x);
    ElemRep(y);
    NegRep(y, y);
    MulRep(x, Neg(y), x, 0 - y);
    MulIsProduct(x, y);
    NegRep(Mul(x, y), x * y);
    IntNeg(x, y);
    ModCongr(x * (0 - y), 0 - x * y);
  }

  lemma MulNegNeg(x: Elem, y: Elem)
    ensures Mul(Neg(x), Neg(y)) == Mul(x, y)
  {
    ElemRep(x);
    ElemRep(y);
    NegRep(x, x);
    NegRep(y, y);
    MulRep(Neg(x), Neg(y), 0 - x, 0 - y);
    MulIsProduct(x, y);
    IntNeg(x, y);
    ModCongr((0 - x) * (0 - y), x * y);
  }

  lemma AddNegSelf(x: Elem)
    ensures Add(Neg(x), x) == 0
  {
  }

  lemma MulUnits(x: Elem)
    ensures Mul(x, 0) == 0 && Mul(0, x) == 0
    ensures Mul(x, 1) == x && Mul(1, x) == x
  {
    MulIsProduct(0, x);
    MulIsProduct(1, x);
  }

  lemma AddNeg(x: Elem, y: Elem)
    ensures Add(x, Neg(y)) == Sub(x, y)
  {
  }

  /** x + y and x - y agree exactly when y is zero. */
  lemma SumEqualsDiff(x: Elem, y: Elem)
    ensures Add(x, y) == Sub(x, y) <==> y == 0
  {
  }
}
