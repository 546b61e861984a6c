/**
 * The quadratic extension Fp2 = Fp[i]/(i^2 + 1): elements a + b*i with a, b
 * in the base field and i^2 = -1. The value type and its pure operators are
 * functions on the datatype Fp2; the in-place operators (+=, -=, *=, sqr,
 * times_i) are methods of the class Fp2Var, each proved to leave the object
 * holding what the pure operator returns.
 */
module Fp2 {
  import Fp

  /** a + b*i */
  datatype Fp2 = Fp2(a: Fp.Elem, b: Fp.Elem)

  function Zero(): Fp2 { Fp2(0, 0) }

  function One(): Fp2 { Fp2(1, 0) }

  /** The imaginary unit i. */
  function I(): Fp2 { Fp2(0, 1) }

  /** The quadratic non-residue 1 + i that defines the next tower level. */
  function Qnr(): Fp2 { Fp2(1, 1) }

  /** Embedding of the base field: the one-argument constructor Fp2(a). */
  function FromBase(a: Fp.Elem): Fp2 { Fp2(a, 0) }

  function Add(x: Fp2, y: Fp2): Fp2 { Fp2(Fp.Add(x.a, y.a), Fp.Add(x.b, y.b)) }

  function Sub(x: Fp2, y: Fp2): Fp2 { Fp2(Fp.Sub(x.a, y.a), Fp.Sub(x.b, y.b)) }

  function Neg(x: Fp2): Fp2 { Fp2(Fp.Neg(x.a), Fp.Neg(x.b)) }

  function Conj(x: Fp2): Fp2 { Fp2(x.a, Fp.Neg(x.b)) }

  /**
   * The product in Fp[i]/(i^2 + 1), written the schoolbook way:
   * (a1 + b1 i)(a2 + b2 i) = (a1 a2 - b1 b2) + (a1 b2 + a2 b1) i.
   * This is the specification of the Karatsuba code in Fp2Var.IMul and of Times.
   */
  function Mul(x: Fp2, y: Fp2): Fp2
  {
    Fp2(Fp.Sub(Fp.Mul(x.a, y.a), Fp.Mul(x.b, y.b)), Fp.Add(Fp.Mul(x.a, y.b), Fp.Mul(y.a, x.b)))
  }

  /** Multiplication by a base-field scalar. */
  function Muls(x: Fp2, s: Fp.Elem): (r: Fp2)
    ensures r == Mul(x, FromBase(s))
  {
    Fp.MulUnits(x.a);
    Fp.MulUnits(x.b);
    Fp.MulComm(s, x.b);
    Fp2(Fp.Mul(x.a, s), Fp.Mul(x.b, s))
  }

  /** Multiplication by a machine integer. */
  function MulI(x: Fp2, n: int): (r: Fp2)
    ensures r == Muls(x, n % Fp.P)
  {
    Fp.MulIntIsMul(x.a, n);
    Fp.MulIntIsMul(x.b, n);
    Fp2(Fp.MulInt(x.a, n), Fp.MulInt(x.b, n))
  }

  function IsZero(x: Fp2): (r: bool)
    ensures r <==> x == Zero()
  {
    x.a == 0 && x.b == 0
  }

  function IsOne(x: Fp2): (r: bool)
    ensures r <==> x == One()
  {
    x.a == 1 && x.b == 0
  }

  /** The coordinate swap performed by times_i: no component is negated. */
  function Swapped(x: Fp2): Fp2 { Fp2(x.b, x.a) }

  /** Multiplication by the non-residue 1 + i (the code assumes p = 3 mod 8). */
  function MulQNR(x: Fp2): (r: Fp2)
    ensures r == Mul(x, Qnr())
  {
    Fp.MulUnits(x.a);
    Fp.MulUnits(x.b);
    Fp2(Fp.Sub(x.a, x.b), Fp.Add(x.a, x.b))
  }

  /** The norm a^2 + b^2, which lies in the base field. */
  function Norm(x: Fp2): Fp.Elem { Fp.Add(Fp.Mul(x.a, x.a), Fp.Mul(x.b, x.b)) }

  /**
   * conj(x) scaled by the base-field inverse c of the norm N: the product
   * with x is N * c, which is 1 whenever the base-field inverse is.
   */
  function Inverse(x: Fp2): (r: Fp2)
    ensures Mul(x, r) == FromBase(Fp.Mul(Norm(x), Fp.Inverse(Norm(x))))
  {
    var w := Conj(x);
    var c := Fp.Inverse(Norm(x));
    MulMuls(x, w, c);
    MulConjIsNorm(x);
    Fp.MulUnits(c);
    Fp2(Fp.Mul(w.a, c), Fp.Mul(w.b, c))
  }

  function Div2(x: Fp2): (r: Fp2)
    ensures Add(r, r) == x
  {
    Fp2(Fp.Div2(x.a), Fp.Div2(x.b))
  }

  /** Division by the non-residue 1 + i: (a + b, b - a), halved. */
  function DivQNR(x: Fp2): (r: Fp2)
    ensures MulQNR(r) == x
  {
    var h := Div2(DivQNR2(x));
    MulQNRDouble(h);
    DoubleInjective(MulQNR(h), x);
    h
  }

  /** Division by 1 + i without the halving: multiplying back by 1 + i gives 2x. */
  function DivQNR2(x: Fp2): (r: Fp2)
    ensures MulQNR(r) == Add(x, x)
  {
    Fp2(Fp.Add(x.a, x.b), Fp.Sub(x.b, x.a))
  }

  // ---------------------------------------------------------------------
  // Ring laws of Fp2, used by the quartic level

  lemma AddComm(x: Fp2, y: Fp2)
    ensures Add(x, y) == Add(y, x)
  {
  }

  /** Zero is neutral for addition, on either side. */
  lemma AddZero(x: Fp2)
    ensures Add(x, Zero()) == x && Add(Zero(), x) == x
  {
  }

  lemma AddAssoc(x: Fp2, y: Fp2, z: Fp2)
    ensures Add(Add(x, y), z) == Add(x, Add(y, z))
  {
    Fp.AddAssoc(x.a, y.a, z.a);
    Fp.AddAssoc(x.b, y.b, z.b);
  }

  lemma MulComm(x: Fp2, y: Fp2)
    ensures Mul(x, y) == Mul(y, x)
  {
    Fp.MulComm(x.a, y.a);
    Fp.MulComm(x.b, y.b);
    Fp.MulComm(x.a, y.b);
    Fp.MulComm(y.a, x.b);
  }

  lemma MulAssoc(x: Fp2, y: Fp2, z: Fp2)
    ensures Mul(Mul(x, y), z) == Mul(x, Mul(y, z))
  {
    MulAssocReal(x, y, z);
    MulAssocImag(x, y, z);
  }

  /** The real part of (xy)z: both sides expand to xa ya za - xb yb za - xa yb zb - ya xb zb. */
  lemma MulAssocReal(x: Fp2, y: Fp2, z: Fp2)
    ensures Mul(Mul(x, y), z).a == Mul(x, Mul(y, z)).a
  {
    var t1, t2 := Fp.Mul(x.a, y.a), Fp.Mul(x.b, y.b);
    var t3, t4 := Fp.Mul(x.a, y.b), Fp.Mul(y.a, x.b);
    Fp.MulSubDistribRight(z.a, t1, t2);
    Fp.MulAddDistribRight(z.b, t3, t4);
    Fp.MulSubDistrib(x.a, Fp.Mul(y.a, z.a), Fp.Mul(y.b, z.b));
    Fp.MulAddDistrib(x.b, Fp.Mul(y.a, z.b), Fp.Mul(z.a, y.b));
    Fp.MulAssoc(x.a, y.a, z.a);
    Fp.MulAssoc(x.b, y.b, z.a);
    Fp.MulComm(y.b, z.a);
    Fp.MulAssoc(x.a, y.b, z.b);
    Fp.MulComm(y.a, x.b);
    Fp.MulAssoc(x.b, y.a, z.b);
    Fp.SubSumSwap(Fp.Mul(t1, z.a), Fp.Mul(t2, z.a), Fp.Mul(t3, z.b), Fp.Mul(t4, z.b));
  }

  /** The imaginary part of (xy)z: both sides expand to xa ya zb - xb yb zb + xa yb za + ya xb za. */
  lemma MulAssocImag(x: Fp2, y: Fp2, z: Fp2)
    ensures Mul(Mul(x, y), z).b == Mul(x, Mul(y, z)).b
  {
    var t1, t2 := Fp.Mul(x.a, y.a), Fp.Mul(x.b, y.b);
    var t3, t4 := Fp.Mul(x.a, y.b), Fp.Mul(y.a, x.b);
    Fp.MulSubDistribRight(z.b, t1, t2);
    Fp.MulAddDistrib(z.a, t3, t4);
    Fp.MulAddDistrib(x.a, Fp.Mul(y.a, z.b), Fp.Mul(z.a, y.b));
    Fp.MulSubDistribRight(x.b, Fp.Mul(y.a, z.a), Fp.Mul(y.b, z.b));
    Fp.MulAssoc(x.a, y.a, z.b);
    Fp.MulComm(Fp.Mul(y.b, z.b), x.b);
    Fp.MulAssoc(x.b, y.b, z.b);
    Fp.MulComm(z.a, t3);
    Fp.MulAssoc(x.a, y.b, z.a);
    Fp.MulComm(y.b, z.a);
    Fp.MulAssoc(y.a, z.a, x.b);
    Fp.MulAssoc(z.a, y.a, x.b);
    Fp.MulComm(z.a, y.a);
    Fp.AddDiffSwap(Fp.Mul(t1, z.b), Fp.Mul(t2, z.b), Fp.Mul(z.a, t3), Fp.Mul(z.a, t4));
  }

  /** Multiplication distributes over addition. */
  lemma MulAddDistrib(x: Fp2, y: Fp2, z: Fp2)
    ensures Mul(x, Add(y, z)) == Add(Mul(x, y), Mul(x, z))
  {
    Fp.MulAddDistrib(x.a, y.a, z.a);
    Fp.MulAddDistrib(x.b, y.b, z.b);
    Fp.SubOfSums(Fp.Mul(x.a, y.a), Fp.Mul(x.a, z.a), Fp.Mul(x.b, y.b), Fp.Mul(x.b, z.b));
    Fp.MulAddDistrib(x.a, y.b, z.b);
    Fp.MulComm(Fp.Add(y.a, z.a), x.b);
    Fp.MulAddDistrib(x.b, y.a, z.a);
    Fp.MulComm(y.a, x.b);
    Fp.MulComm(z.a, x.b);
    Fp.AddOfSums(Fp.Mul(x.a, y.b), Fp.Mul(x.a, z.b), Fp.Mul(y.a, x.b), Fp.Mul(z.a, x.b));
  }

  /** Multiplication distributes over subtraction. */
  lemma MulSubDistrib(x: Fp2, y: Fp2, z: Fp2)
    ensures Mul(x, Sub(y, z)) == Sub(Mul(x, y), Mul(x, z))
  {
    Fp.MulSubDistrib(x.a, y.a, z.a);
    Fp.MulSubDistrib(x.b, y.b, z.b);
    Fp.SubOfDiffs(Fp.Mul(x.a, y.a), Fp.Mul(x.a, z.a), Fp.Mul(x.b, y.b), Fp.Mul(x.b, z.b));
    Fp.MulSubDistrib(x.a, y.b, z.b);
    Fp.MulComm(Fp.Sub(y.a, z.a), x.b);
    Fp.MulSubDistrib(x.b, y.a, z.a);
    Fp.MulComm(y.a, x.b);
    Fp.MulComm(z.a, x.b);
    Fp.AddOfDiffs(Fp.Mul(x.a, y.b), Fp.Mul(x.a, z.b), Fp.Mul(y.a, x.b), Fp.Mul(z.a, x.b));
  }

  /** (p + q) - (r + s) == (p - r) + (q - s) */
  lemma SubOfSums(p: Fp2, q: Fp2, r: Fp2, s: Fp2)
    ensures Sub(Add(p, q), Add(r, s)) == Add(Sub(p, r), Sub(q, s))
  {
    Fp.SubOfSums(p.a, q.a, r.a, s.a);
    Fp.SubOfSums(p.b, q.b, r.b, s.b);
  }

  /** (p + q) + (r + s) == (p + r) + (q + s) */
  lemma AddOfSums(p: Fp2, q: Fp2, r: Fp2, s: Fp2)
    ensures Add(Add(p, q), Add(r, s)) == Add(Add(p, r), Add(q, s))
  {
    Fp.AddOfSums(p.a, q.a, r.a, s.a);
    Fp.AddOfSums(p.b, q.b, r.b, s.b);
  }

  /** ((p + q) + (r + s)) - q - r == p + s */
  lemma CancelMiddle(p: Fp2, q: Fp2, r: Fp2, s: Fp2)
    ensures Sub(Sub(Add(Add(p, q), Add(r, s)), q), r) == Add(p, s)
  {
    Fp.CancelMiddle(p.a, q.a, r.a, s.a);
    Fp.CancelMiddle(p.b, q.b, r.b, s.b);
  }

  /** ((p + q) + (r + s)) - r - q == p + s */
  lemma CancelMiddle2(p: Fp2, q: Fp2, r: Fp2, s: Fp2)
    ensures Sub(Sub(Add(Add(p, q), Add(r, s)), r), q) == Add(p, s)
  {
    Fp.CancelMiddle2(p.a, q.a, r.a, s.a);
    Fp.CancelMiddle2(p.b, q.b, r.b, s.b);
  }

  lemma AddNeg(x: Fp2, y: Fp2)
    ensures Add(x, Neg(y)) == Sub(x, y)
  {
    Fp.AddNeg(x.a, y.a);
    Fp.AddNeg(x.b, y.b);
  }

  lemma MulUnits(x: Fp2)
    ensures Mul(x, Zero()) == Zero() && Mul(Zero(), x) == Zero()
    ensures Mul(x, One()) == x && Mul(One(), x) == x
  {
    Fp.MulUnits(x.a);
    Fp.MulUnits(x.b);
  }

  lemma MulNeg(x: Fp2, y: Fp2)
    ensures Mul(x, Neg(y)) == Neg(Mul(x, y))
  {
    Fp.MulNeg(x.a, y.a);
    Fp.MulNeg(x.b, y.b);
    Fp.MulNeg(x.a, y.b);
    Fp.MulComm(Fp.Neg(y.a), x.b);
    Fp.MulNeg(x.b, y.a);
    Fp.MulComm(x.b, y.a);
  }

  /** Multiplying a factor by 1 + i multiplies the product by 1 + i. */
  lemma MulQNRMul(x: Fp2, y: Fp2)
    ensures Mul(MulQNR(x), y) == MulQNR(Mul(x, y))
  {
    MulAssoc(x, Qnr(), y);
    MulComm(Qnr(), y);
    MulAssoc(x, y, Qnr());
  }

  lemma MulQNRNeg(x: Fp2)
    ensures MulQNR(Neg(x)) == Neg(MulQNR(x))
  {
    Fp.NegSub(x.a, x.b);
    Fp.NegAdd(x.a, x.b);
  }

  lemma MulQNRAdd(x: Fp2, y: Fp2)
    ensures MulQNR(Add(x, y)) == Add(MulQNR(x), MulQNR(y))
  {
    MulComm(Add(x, y), Qnr());
    MulAddDistrib(Qnr(), x, y);
    MulComm(Qnr(), x);
    MulComm(Qnr(), y);
  }

  /** Conjugation is additive. */
  lemma ConjAdd(x: Fp2, y: Fp2)
    ensures Conj(Add(x, y)) == Add(Conj(x), Conj(y))
  {
    Fp.NegAdd(x.b, y.b);
  }

  /** Conjugation is multiplicative: it is the Frobenius map of Fp2. */
  lemma ConjMul(x: Fp2, y: Fp2)
    ensures Conj(Mul(x, y)) == Mul(Conj(x), Conj(y))
  {
    Fp.MulNegNeg(x.b, y.b);
    Fp.MulNeg(x.a, y.b);
    Fp.MulNeg(y.a, x.b);
    Fp.NegAdd(Fp.Mul(x.a, y.b), Fp.Mul(y.a, x.b));
  }

  /** conj(1 + i) == (1 + i) * (-i) */
  lemma ConjQnr()
    ensures Conj(Qnr()) == Mul(Qnr(), Neg(I()))
  {
    Fp.MulUnits(Fp.Neg(1));
  }

  // ---------------------------------------------------------------------
  // Properties the code promises

  /** The schoolbook product is multiplication in Fp[i]/(i^2 + 1): i*i = -1. */
  lemma {:induction false} ISquaredIsMinusOne()
    ensures Mul(I(), I()) == Neg(One())
  {
    assert Fp.Mul(0, 0) == 0 && Fp.Mul(1, 1) == 1;
    assert Fp.Sub(0, 1) == Fp.P - 1;
  }

  /** DivQNR also undoes MulQNR from the other side, and DivQNR2 is twice DivQNR. */
  lemma DivQNRRoundTrip(x: Fp2)
    ensures DivQNR(MulQNR(x)) == x
    ensures DivQNR2(x) == Add(DivQNR(x), DivQNR(x))
  {
    DivQNR2OfMulQNR(x);
    HalveDouble(x);
  }

  /** Undoing 1 + i without halving leaves the double. */
  lemma DivQNR2OfMulQNR(x: Fp2)
    ensures DivQNR2(MulQNR(x)) == Add(x, x)
  {
  }

  /** MulQNR commutes with doubling. */
  lemma MulQNRDouble(h: Fp2)
    ensures MulQNR(Add(h, h)) == Add(MulQNR(h), MulQNR(h))
  {
    Fp.SubOfSums(h.a, h.a, h.b, h.b);
    Fp.AddOfSums(h.a, h.a, h.b, h.b);
  }

  /** Halving a double gives the element back. */
  lemma HalveDouble(x: Fp2)
    ensures Div2(Add(x, x)) == x
  {
    DoubleInjective(Div2(Add(x, x)), x);
  }

  /** Doubling is injective because P is odd. */
  lemma DoubleInjective(x: Fp2, y: Fp2)
    requires Add(x, x) == Add(y, y)
    ensures x == y
  {
  }

  lemma NegInvolution(x: Fp2)
    ensures Neg(Neg(x)) == x
  {
  }

  /** Conjugation is an involution. */
  lemma ConjInvolution(x: Fp2)
    ensures Conj(Conj(x)) == x
  {
  }

  /** x * conj(x) is the norm a^2 + b^2, with imaginary part zero. */
  lemma MulConjIsNorm(x: Fp2)
    ensures Mul(x, Conj(x)) == FromBase(Norm(x))
  {
    Fp.MulNeg(x.b, x.b);
    Fp.MulNeg(x.a, x.b);
    Fp.MulComm(x.a, x.b);
  }

  /** For prime P and a nonzero norm, Inverse(x) is a multiplicative inverse. */
  lemma {:induction false} InverseCorrect(x: Fp2)
    requires Fp.IsPrime(Fp.P) && Norm(x) != 0
    ensures IsOne(Mul(x, Inverse(x)))
  {
    Fp.InverseCorrect(Norm(x));
    assert Mul(x, Inverse(x)) == FromBase(1);
  }

  /** Scaling a factor by a base-field scalar scales the product. */
  lemma MulMuls(x: Fp2, y: Fp2, s: Fp.Elem)
    ensures Mul(x, Muls(y, s)) == Muls(Mul(x, y), s)
  {
    Fp.MulAssoc(x.a, y.a, s);
    Fp.MulAssoc(x.b, y.b, s);
    Fp.MulSubDistribRight(s, Fp.Mul(x.a, y.a), Fp.Mul(x.b, y.b));
    Fp.MulAssoc(x.a, y.b, s);
    Fp.MulAssoc(y.a, s, x.b);
    Fp.MulComm(s, x.b);
    Fp.MulAssoc(y.a, x.b, s);
    Fp.MulAddDistribRight(s, Fp.Mul(x.a, y.b), Fp.Mul(y.a, x.b));
  }

  /** times_i is a swap: it equals i * conj(x), and applying it twice restores x. */
  lemma TimesIIsIConj(x: Fp2)
    ensures Swapped(x) == Mul(I(), Conj(x))
    ensures Swapped(Swapped(x)) == x
  {
    Fp.MulUnits(x.a);
    Fp.MulUnits(Fp.Neg(x.b));
  }

  /** Subtraction undoes addition. */
  lemma AddSubRoundTrip(x: Fp2, y: Fp2)
    ensures Sub(Add(x, y), y) == x
    ensures Add(Sub(x, y), y) == x
  {
  }

  /** -x is the additive inverse of x. */
  lemma AddNegSelf(x: Fp2)
    ensures Add(Neg(x), x) == Zero()
  {
    Fp.AddNegSelf(x.a);
    Fp.AddNegSelf(x.b);
  }

  /** The steps of sqr() compute the product x * x. */
  lemma SqrSteps(x: Fp2)
    ensures Fp.Mul(Fp.Add(x.a, x.b), Fp.Sub(x.a, x.b)) == Mul(x, x).a
    ensures Fp.Add(Fp.Mul(x.b, x.a), Fp.Mul(x.b, x.a)) == Mul(x, x).b
  {
    Fp.SquareIdentity(x.a, x.b);
    Fp.MulComm(x.b, x.a);
  }

  /** The steps of *= (Karatsuba) compute the imaginary part of x * y. */
  lemma KaratsubaSteps(x: Fp2, y: Fp2)
    ensures Fp.Sub(Fp.Sub(Fp.Mul(Fp.Add(x.b, x.a), Fp.Add(y.a, y.b)), Fp.Mul(x.a, y.a)), Fp.Mul(x.b, y.b))
         == Mul(x, y).b
  {
    Fp.KaratsubaIdentity(x.a, x.b, y.a, y.b);
  }

  // ---------------------------------------------------------------------
  // The in-place interface: an Fp2 object whose fields are overwritten

  class Fp2Var {
    var a: Fp.Elem
    var b: Fp.Elem

    function Value(): Fp2
      reads this
    {
      Fp2(a, b)
    }

    /** Fp2(a, b), and copy(). */
    constructor (x: Fp2)
      ensures Value() == x
    {
      a, b := x.a, x.b;
    }

    /** x += y */
    method IAdd(y: Fp2)
      modifies this
      ensures Value() == Add(old(Value()), y)
    {
      a := Fp.Add(a, y.a);
      b := Fp.Add(b, y.b);
    }

    /** x -= y */
    method ISub(y: Fp2)
      modifies this
      ensures Value() == Sub(old(Value()), y)
    {
      a := Fp.Sub(a, y.a);
      b := Fp.Sub(b, y.b);
    }

    /** sqr(): (a + b)(a - b) and 2ab, the same value as the product x * x. */
    method Sqr()
      modifies this
      ensures Value() == Mul(old(Value()), old(Value()))
    {
      ghost var x := Value();
      var newa := Fp.Mul(Fp.Add(a, b), Fp.Sub(a, b));
      b := Fp.Mul(b, a);
      b := Fp.Add(b, b);
      a := newa;
      SqrSteps(x);
    }

    /** times_i(): swap the two components. */
    method TimesI()
      modifies this
      ensures Value() == Swapped(old(Value()))
    {
      var x := a;
      a := b;
      b := x;
    }

    /** x *= y, by the three-multiplication Karatsuba formula. */
    method IMul(y: Fp2)
      modifies this
      ensures Value() == Mul(old(Value()), y)
    {
      ghost var x := Value();
      var t1 := Fp.Mul(a, y.a);
      var t2 := Fp.Mul(b, y.b);
      var t3 := Fp.Add(y.a, y.b);
      b := Fp.Add(b, a);
      b := Fp.Mul(b, t3);
      b := Fp.Sub(b, t1);
      b := Fp.Sub(b, t2);
      a := Fp.Sub(t1, t2);
      KaratsubaSteps(x, y);
    }
  }

  /**
   * x * y: multiply a copy of x, squaring it when it equals y. Both branches
   * return the product, and x itself is not changed.
   */
  method Times(x: Fp2Var, y: Fp2Var) returns (r: Fp2)
    ensures r == Mul(x.Value(), y.Value())
  {
    var R := new Fp2Var(x.Value());
    if R.Value() == y.Value() {
      R.Sqr();
    } else {
      R.IMul(y.Value());
    }
    r := R.Value();
  }
}
