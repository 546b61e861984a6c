/**
 * The quartic extension Fp4 = Fp2[j]/(j^2 - (1 + i)), towered over Fp2:
 * elements a + b*j with a, b in Fp2. As at the quadratic level, the value
 * type and its pure operators are functions on the datatype Fp4, and the
 * in-place operators are methods of the class Fp4Var. Where the code
 * updates an Fp2 component in place (b *= a, b += a, s.times_i()), the
 * methods below do so through an Fp2Var.
 */
module Fp4 {
  import Fp
  import Fp2

  /** a + b*j */
  datatype Fp4 = Fp4(a: Fp2.Fp2, b: Fp2.Fp2)

  function Zero(): Fp4 { Fp4(Fp2.Zero(), Fp2.Zero()) }

  function One(): Fp4 { Fp4(Fp2.One(), Fp2.Zero()) }

  /** The generator j of the tower, Fp4(0, 1). */
  function J(): Fp4 { Fp4(Fp2.Zero(), Fp2.One()) }

  /** Embedding of Fp2: the one-argument constructor Fp4(a). */
  function FromFp2(a: Fp2.Fp2): Fp4 { Fp4(a, Fp2.Zero()) }

  function Add(x: Fp4, y: Fp4): Fp4 { Fp4(Fp2.Add(x.a, y.a), Fp2.Add(x.b, y.b)) }

  function Sub(x: Fp4, y: Fp4): Fp4 { Fp4(Fp2.Sub(x.a, y.a), Fp2.Sub(x.b, y.b)) }

  function Neg(x: Fp4): Fp4 { Fp4(Fp2.Neg(x.a), Fp2.Neg(x.b)) }

  function Conj(x: Fp4): Fp4 { Fp4(x.a, Fp2.Neg(x.b)) }

  /**
   * The product in Fp2[j]/(j^2 - (1 + i)), written the schoolbook way:
   * (a1 + b1 j)(a2 + b2 j) = (a1 a2 + (1 + i) b1 b2) + (a1 b2 + a2 b1) j.
   * This is the specification of Fp4Var.IMul, Fp4Var.Sqr and Times.
   */
  function Mul(x: Fp4, y: Fp4): Fp4
  {
    Fp4(Fp2.Add(Fp2.Mul(x.a, y.a), Fp2.MulQNR(Fp2.Mul(x.b, y.b))),
        Fp2.Add(Fp2.Mul(x.a, y.b), Fp2.Mul(y.a, x.b)))
  }

  /** Multiplication by an Fp2 scalar. */
  function Muls(x: Fp4, s: Fp2.Fp2): (r: Fp4)
    ensures r == Mul(x, FromFp2(s))
  {
    Fp2.MulUnits(x.a);
    Fp2.MulUnits(x.b);
    Fp2.MulComm(s, x.b);
    assert Fp2.MulQNR(Fp2.Zero()) == Fp2.Zero();
    Fp4(Fp2.Mul(x.a, s), Fp2.Mul(x.b, s))
  }

  function IsZero(x: Fp4): (r: bool)
    ensures r <==> x == Zero()
  {
    Fp2.IsZero(x.a) && Fp2.IsZero(x.b)
  }

  function IsOne(x: Fp4): (r: bool)
    ensures r <==> x == One()
  {
    Fp2.IsOne(x.a) && Fp2.IsZero(x.b)
  }

  /** Multiplication by the tower's non-residue j: (mulQNR(b), a). */
  function MulQNR(x: Fp4): (r: Fp4)
    ensures r == Mul(x, J())
  {
    Fp2.MulUnits(x.a);
    Fp2.MulUnits(x.b);
    Fp4(Fp2.MulQNR(x.b), x.a)
  }

  /** What times_i leaves in the object: (b + swap(b), a). */
  function TimesIResult(x: Fp4): Fp4 { Fp4(Fp2.Add(x.b, Fp2.Swapped(x.b)), x.a) }

  /** The Fp2-valued norm a^2 - (1 + i) b^2. */
  function Norm(x: Fp4): Fp2.Fp2 { Fp2.Sub(Fp2.Mul(x.a, x.a), Fp2.MulQNR(Fp2.Mul(x.b, x.b))) }

  /**
   * conj(x) scaled by the Fp2 inverse c of the norm N: the product with x
   * is N * c, which is 1 whenever the Fp2 inverse is.
   */
  function Inverse(x: Fp4): (r: Fp4)
    ensures Mul(x, r) == FromFp2(Fp2.Mul(Norm(x), Fp2.Inverse(Norm(x))))
  {
    var w := Conj(x);
    var c := Fp2.Inverse(Norm(x));
    MulMuls(x, w, c);
    MulConjIsNorm(x);
    Fp2.MulUnits(c);
    Fp4(Fp2.Mul(w.a, c), Fp2.Mul(w.b, c))
  }

  /** X * X * X */
  function Cube(x: Fp2.Fp2): Fp2.Fp2 { Fp2.Mul(Fp2.Mul(x, x), x) }

  /**
   * The Frobenius map x -> x^p, which acts on the subfield Fp2 as
   * conjugation. The curve constants Fra and Frb, which are not part of this
   * model, enter as frob == Fp2(Fra, Frb).
   */
  function PowQ(x: Fp4, frob: Fp2.Fp2): (r: Fp4)
    ensures x.b == Fp2.Zero() ==> r == FromFp2(Fp2.Conj(x.a))
  {
    Fp2.MulUnits(Cube(frob));
    Fp4(Fp2.Conj(x.a), Fp2.Mul(Fp2.Conj(x.b), Cube(frob)))
  }

  // ---------------------------------------------------------------------
  // Identities in Fp2 behind the quartic code

  /** Karatsuba over Fp2: (b1 + a1)(a2 + b2) - a1 a2 - b1 b2 == a1 b2 + a2 b1. */
  lemma KaratsubaIdentity(a1: Fp2.Fp2, b1: Fp2.Fp2, a2: Fp2.Fp2, b2: Fp2.Fp2)
    ensures Fp2.Sub(Fp2.Sub(Fp2.Mul(Fp2.Add(b1, a1), Fp2.Add(a2, b2)), Fp2.Mul(a1, a2)), Fp2.Mul(b1, b2))
         == Fp2.Add(Fp2.Mul(a1, b2), Fp2.Mul(a2, b1))
  {
    var t := Fp2.Add(a2, b2);
    Fp2.MulComm(Fp2.Add(b1, a1), t);
    Fp2.MulAddDistrib(t, b1, a1);
    Fp2.MulComm(t, b1);
    Fp2.MulAddDistrib(b1, a2, b2);
    Fp2.MulComm(t, a1);
    Fp2.MulAddDistrib(a1, a2, b2);
    Fp2.CancelMiddle2(Fp2.Mul(b1, a2), Fp2.Mul(b1, b2), Fp2.Mul(a1, a2), Fp2.Mul(a1, b2));
    Fp2.AddComm(Fp2.Mul(b1, a2), Fp2.Mul(a1, b2));
    Fp2.MulComm(b1, a2);
  }

  /** The steps of sqr() compute the product x * x. */
  lemma SqrSteps(x: Fp4)
    ensures Fp2.Sub(Fp2.Sub(Fp2.Mul(Fp2.Add(x.a, x.b), Fp2.Add(x.a, Fp2.MulQNR(x.b))),
                            Fp2.Mul(x.b, x.a)),
                    Fp2.MulQNR(Fp2.Mul(x.b, x.a)))
         == Mul(x, x).a
    ensures Fp2.Add(Fp2.Mul(x.b, x.a), Fp2.Mul(x.b, x.a)) == Mul(x, x).b
  {
    var a, b := x.a, x.b;
    var u, qb := Fp2.Add(a, b), Fp2.MulQNR(b);
    Fp2.MulAddDistrib(u, a, qb);
    Fp2.MulComm(u, a);
    Fp2.MulAddDistrib(a, a, b);
    Fp2.MulComm(u, qb);
    Fp2.MulAddDistrib(qb, a, b);
    Fp2.MulQNRMul(b, a);
    Fp2.MulQNRMul(b, b);
    Fp2.MulComm(a, b);
    Fp2.CancelMiddle(Fp2.Mul(a, a), Fp2.Mul(b, a), Fp2.MulQNR(Fp2.Mul(b, a)), Fp2.MulQNR(Fp2.Mul(b, b)));
  }

  // ---------------------------------------------------------------------
  // Properties the code promises

  /** The product is commutative. */
  lemma MulComm(x: Fp4, y: Fp4)
    ensures Mul(x, y) == Mul(y, x)
  {
    Fp2.MulComm(x.a, y.a);
    Fp2.MulComm(x.b, y.b);
    Fp2.AddComm(Fp2.Mul(x.a, y.b), Fp2.Mul(y.a, x.b));
  }

  /** Addition is commutative. */
  lemma AddComm(x: Fp4, y: Fp4)
    ensures Add(x, y) == Add(y, x)
  {
    Fp2.AddComm(x.a, y.a);
    Fp2.AddComm(x.b, y.b);
  }

  /** Zero is neutral for addition, on either side. */
  lemma AddZero(x: Fp4)
    ensures Add(x, Zero()) == x && Add(Zero(), x) == x
  {
    Fp2.AddZero(x.a);
    Fp2.AddZero(x.b);
  }

  /** Addition is associative. */
  lemma AddAssoc(x: Fp4, y: Fp4, z: Fp4)
    ensures Add(Add(x, y), z) == Add(x, Add(y, z))
  {
    Fp2.AddAssoc(x.a, y.a, z.a);
    Fp2.AddAssoc(x.b, y.b, z.b);
  }

  /** Multiplication distributes over addition. */
  lemma MulAddDistrib(x: Fp4, y: Fp4, z: Fp4)
    ensures Mul(x, Add(y, z)) == Add(Mul(x, y), Mul(x, z))
  {
    Fp2.MulAddDistrib(x.a, y.a, z.a);
    Fp2.MulAddDistrib(x.b, y.b, z.b);
    Fp2.MulQNRAdd(Fp2.Mul(x.b, y.b), Fp2.Mul(x.b, z.b));
    Fp2.AddOfSums(Fp2.Mul(x.a, y.a), Fp2.Mul(x.a, z.a),
                  Fp2.MulQNR(Fp2.Mul(x.b, y.b)), Fp2.MulQNR(Fp2.Mul(x.b, z.b)));
    Fp2.MulAddDistrib(x.a, y.b, z.b);
    Fp2.MulComm(Fp2.Add(y.a, z.a), x.b);
    Fp2.MulAddDistrib(x.b, y.a, z.a);
    Fp2.MulComm(x.b, y.a);
    Fp2.MulComm(x.b, z.a);
    Fp2.AddOfSums(Fp2.Mul(x.a, y.b), Fp2.Mul(x.a, z.b), Fp2.Mul(y.a, x.b), Fp2.Mul(z.a, x.b));
  }

  /** Zero annihilates and one is neutral, on either side. */
  lemma MulUnits(x: Fp4)
    ensures Mul(x, Zero()) == Zero() && Mul(Zero(), x) == Zero()
    ensures Mul(x, One()) == x && Mul(One(), x) == x
  {
    Fp2.MulUnits(x.a);
    Fp2.MulUnits(x.b);
    Fp2.MulUnits(Fp2.Zero());
    assert Fp2.MulQNR(Fp2.Zero()) == Fp2.Zero();
  }

  /** j^2 is the non-residue 1 + i of Fp2. */
  lemma JSquared()
    ensures Mul(J(), J()) == FromFp2(Fp2.Qnr())
  {
    Fp2.MulUnits(Fp2.Zero());
    Fp2.MulUnits(Fp2.One());
    Fp2.MulUnits(Fp2.Qnr());
  }

  /**
   * times_i is not multiplication by j: the two agree exactly when the
   * imaginary part of the j-coefficient is zero.
   */
  lemma TimesIVersusMulQNR(x: Fp4)
    ensures TimesIResult(x) == MulQNR(x) <==> x.b.b == 0
  {
    Fp.SumEqualsDiff(x.b.a, x.b.b);
  }

  /** Conjugation is an involution. */
  lemma ConjInvolution(x: Fp4)
    ensures Conj(Conj(x)) == x
  {
    Fp2.NegInvolution(x.b);
  }

  /** x * conj(x) is the norm a^2 - (1 + i) b^2, with zero j-component. */
  lemma MulConjIsNorm(x: Fp4)
    ensures Mul(x, Conj(x)) == FromFp2(Norm(x))
  {
    var a, b := x.a, x.b;
    Fp2.MulNeg(b, b);
    Fp2.MulQNRNeg(Fp2.Mul(b, b));
    Fp2.AddNeg(Fp2.Mul(a, a), Fp2.MulQNR(Fp2.Mul(b, b)));
    Fp2.MulNeg(a, b);
    Fp2.AddNegSelf(Fp2.Mul(a, b));
  }

  /** Scaling a factor by an Fp2 scalar scales the product. */
  lemma MulMuls(x: Fp4, y: Fp4, s: Fp2.Fp2)
    ensures Mul(x, Muls(y, s)) == Muls(Mul(x, y), s)
  {
    var m1, m2 := Fp2.Mul(x.a, y.a), Fp2.Mul(x.b, y.b);
    Fp2.MulComm(Fp2.Add(m1, Fp2.MulQNR(m2)), s);
    Fp2.MulAddDistrib(s, m1, Fp2.MulQNR(m2));
    Fp2.MulComm(s, m1);
    Fp2.MulAssoc(x.a, y.a, s);
    Fp2.MulComm(s, Fp2.MulQNR(m2));
    Fp2.MulQNRMul(m2, s);
    Fp2.MulAssoc(x.b, y.b, s);
    var n1, n2 := Fp2.Mul(x.a, y.b), Fp2.Mul(y.a, x.b);
    Fp2.MulComm(Fp2.Add(n1, n2), s);
    Fp2.MulAddDistrib(s, n1, n2);
    Fp2.MulComm(s, n1);
    Fp2.MulComm(s, n2);
    Fp2.MulAssoc(x.a, y.b, s);
    Fp2.MulAssoc(y.a, x.b, s);
    Fp2.MulAssoc(y.a, s, x.b);
    Fp2.MulComm(s, x.b);
  }

  /**
   * For prime P, when the norm has a nonzero norm of its own (the condition
   * under which the Fp2 inverse exists), Inverse(x) is an inverse of x.
   */
  lemma {:induction false} InverseCorrect(x: Fp4)
    requires Fp.IsPrime(Fp.P) && Fp2.Norm(Norm(x)) != 0
    ensures IsOne(Mul(x, Inverse(x)))
  {
    Fp2.InverseCorrect(Norm(x));
    assert Mul(x, Inverse(x)) == FromFp2(Fp2.One());
  }

  /** Subtraction undoes addition. */
  lemma AddSubRoundTrip(x: Fp4, y: Fp4)
    ensures Sub(Add(x, y), y) == x
    ensures Add(Sub(x, y), y) == x
  {
    Fp2.AddSubRoundTrip(x.a, y.a);
    Fp2.AddSubRoundTrip(x.b, y.b);
  }

  /** -x is the additive inverse of x. */
  lemma AddNegSelf(x: Fp4)
    ensures Add(Neg(x), x) == Zero()
  {
    Fp2.AddNegSelf(x.a);
    Fp2.AddNegSelf(x.b);
  }

  /** powq is additive. */
  lemma PowQAdd(x: Fp4, y: Fp4, frob: Fp2.Fp2)
    ensures PowQ(Add(x, y), frob) == Add(PowQ(x, frob), PowQ(y, frob))
  {
    var w := Cube(frob);
    var cx, cy := Fp2.Conj(x.b), Fp2.Conj(y.b);
    Fp2.ConjAdd(x.a, y.a);
    Fp2.ConjAdd(x.b, y.b);
    Fp2.MulComm(Fp2.Add(cx, cy), w);
    Fp2.MulAddDistrib(w, cx, cy);
    Fp2.MulComm(w, cx);
    Fp2.MulComm(w, cy);
  }

  /** (p q)(r s) == (p r)(q s) in Fp2. */
  lemma Interchange(p: Fp2.Fp2, q: Fp2.Fp2, r: Fp2.Fp2, s: Fp2.Fp2)
    ensures Fp2.Mul(Fp2.Mul(p, q), Fp2.Mul(r, s)) == Fp2.Mul(Fp2.Mul(p, r), Fp2.Mul(q, s))
  {
    Fp2.MulAssoc(p, q, Fp2.Mul(r, s));
    Fp2.MulAssoc(q, r, s);
    Fp2.MulComm(q, r);
    Fp2.MulAssoc(r, q, s);
    Fp2.MulAssoc(p, r, Fp2.Mul(q, s));
  }

  /** conj((1 + i) m) == (1 + i) conj(m) w^2 when w^2 == -i. */
  lemma ConjMulQNR(m: Fp2.Fp2, w: Fp2.Fp2)
    requires Fp2.Mul(w, w) == Fp2.Neg(Fp2.I())
    ensures Fp2.Conj(Fp2.MulQNR(m)) == Fp2.MulQNR(Fp2.Mul(Fp2.Conj(m), Fp2.Mul(w, w)))
  {
    var cm, ww := Fp2.Conj(m), Fp2.Mul(w, w);
    Fp2.ConjMul(m, Fp2.Qnr());
    Fp2.ConjQnr();
    Fp2.MulAssoc(cm, ww, Fp2.Qnr());
    Fp2.MulComm(ww, Fp2.Qnr());
  }

  /**
   * powq is multiplicative, as the Frobenius map must be, whenever the cube
   * of frob squares to -i: then conj(1 + i) == (1 + i) * X3^2.
   */
  lemma PowQMul(x: Fp4, y: Fp4, frob: Fp2.Fp2)
    requires Fp2.Mul(Cube(frob), Cube(frob)) == Fp2.Neg(Fp2.I())
    ensures PowQ(Mul(x, y), frob) == Mul(PowQ(x, frob), PowQ(y, frob))
  {
    var w := Cube(frob);
    var ca1, cb1, ca2, cb2 := Fp2.Conj(x.a), Fp2.Conj(x.b), Fp2.Conj(y.a), Fp2.Conj(y.b);
    // the Fp2 part
    var m := Fp2.Mul(x.b, y.b);
    Fp2.ConjAdd(Fp2.Mul(x.a, y.a), Fp2.MulQNR(m));
    Fp2.ConjMul(x.a, y.a);
    Fp2.ConjMul(x.b, y.b);
    ConjMulQNR(m, w);
    Interchange(cb1, w, cb2, w);
    // the j part
    var n1, n2 := Fp2.Mul(ca1, cb2), Fp2.Mul(ca2, cb1);
    Fp2.ConjAdd(Fp2.Mul(x.a, y.b), Fp2.Mul(y.a, x.b));
    Fp2.ConjMul(x.a, y.b);
    Fp2.ConjMul(y.a, x.b);
    Fp2.MulComm(Fp2.Add(n1, n2), w);
    Fp2.MulAddDistrib(w, n1, n2);
    Fp2.MulComm(w, n1);
    Fp2.MulComm(w, n2);
    Fp2.MulAssoc(ca1, cb2, w);
    Fp2.MulAssoc(ca2, cb1, w);
  }

  // ---------------------------------------------------------------------
  // The in-place interface

  class Fp4Var {
    var a: Fp2.Fp2
    var b: Fp2.Fp2

    function Value(): Fp4
      reads this
    {
      Fp4(a, b)
    }

    /** Fp4(a, b), and copy(). */
    constructor (x: Fp4)
      ensures Value() == x
    {
      a, b := x.a, x.b;
    }

    /** x += y */
    method IAdd(y: Fp4)
      modifies this
      ensures Value() == Add(old(Value()), y)
    {
      a := Fp2.Add(a, y.a);
      b := Fp2.Add(b, y.b);
    }

    /** x -= y */
    method ISub(y: Fp4)
      modifies this
      ensures Value() == Sub(old(Value()), y)
    {
      a := Fp2.Sub(a, y.a);
      b := Fp2.Sub(b, y.b);
    }

    /**
     * sqr(): newa = (a + b)(a + (1 + i) b) - ab - (1 + i) ab and b = 2ab,
     * the same value as the product x * x.
     */
    method Sqr()
      modifies this
      ensures Value() == Mul(old(Value()), old(Value()))
    {
      ghost var x := Value();
      var newa := new Fp2.Fp2Var(Fp2.Mul(Fp2.Add(a, b), Fp2.Add(a, Fp2.MulQNR(b))));
      var nb := new Fp2.Fp2Var(b);
      nb.IMul(a);
      newa.ISub(nb.Value());
      newa.ISub(Fp2.MulQNR(nb.Value()));
      nb.IAdd(nb.Value());
      b := nb.Value();
      a := newa.Value();
      SqrSteps(x);
    }

    /** times_i(): s = swap(b); the new value is (b + s, a). */
    method TimesI()
      modifies this
      ensures Value() == TimesIResult(old(Value()))
    {
      var s := new Fp2.Fp2Var(b);
      var t := new Fp2.Fp2Var(b);
      s.TimesI();
      t.IAdd(s.Value());
      b := a;
      a := t.Value();
    }

    /** x *= y, by the three-multiplication Karatsuba formula. */
    method IMul(y: Fp4)
      modifies this
      ensures Value() == Mul(old(Value()), y)
    {
      ghost var x := Value();
      var t1 := Fp2.Mul(a, y.a);
      var t2 := Fp2.Mul(b, y.b);
      var t3 := Fp2.Add(y.a, y.b);
      var nb := new Fp2.Fp2Var(b);
      nb.IAdd(a);
      nb.IMul(t3);
      nb.ISub(t1);
      nb.ISub(t2);
      b := nb.Value();
      a := Fp2.Add(t1, Fp2.MulQNR(t2));
      KaratsubaIdentity(x.a, x.b, y.a, y.b);
    }
  }

  /**
   * x * y: multiply a copy of x, squaring it when it equals y. Both branches
   * return the product, and x itself is not changed.
   */
  method Times(x: Fp4Var, y: Fp4Var) returns (r: Fp4)
    ensures r == Mul(x.Value(), y.Value())
  {
    var R := new Fp4Var(x.Value());
    if R.Value() == y.Value() {
      R.Sqr();
    } else {
      R.IMul(y.Value());
    }
    r := R.Value();
  }
}
