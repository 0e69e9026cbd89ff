/** Polynomials over the field: evaluation, roots, products, and uniqueness of division. */
module GfPoly {
  import opened Gf256

  type Poly = seq<Elem>

  /** The value of the polynomial whose coefficients are listed from the constant term up. */
  function Eval(p: Poly, x: Elem): Elem {
    if p == [] then 0 else Add(p[0], Mul(x, Eval(p[1..], x)))
  }

  function Zeros(n: nat): Poly {
    seq(n, _ => 0)
  }

  ghost predicate AllZero(p: Poly) {
    forall i :: 0 <= i < |p| ==> p[i] == 0
  }

  ghost predicate Distinct(xs: seq<Elem>) {
    forall i, j :: 0 <= i < j < |xs| ==> xs[i] != xs[j]
  }

  // ---------------------------------------------------------------- roots

  /** Quotient by X - r (synthetic division). */
  function Quot(p: Poly, r: Elem): (q: Poly)
    ensures |q| == if |p| == 0 then 0 else |p| - 1
  {
    if |p| <= 1 then [] else [Eval(p[1..], r)] + Quot(p[1..], r)
  }

  /** p(x) = p(r) + (x - r) q(x). */
  lemma {:induction false} QuotLaw(p: Poly, r: Elem, x: Elem)
    ensures Eval(p, x) == Add(Eval(p, r), Mul(Add(x, r), Eval(Quot(p, r), x)))
  {
    hide Mul, Add;
    AddLaws(Eval(p, r), 0, 0);
    MulOne(Add(x, r));
    if |p| > 0 {
      var t := p[1..];
      if |p| == 1 {
        MulOne(x);
        MulOne(r);
      } else {
        QuotLaw(t, r, x);
        var q := Quot(p, r);
        assert q[0] == Eval(t, r) && q[1..] == Quot(t, r);
        QuotStep(p[0], x, r, Eval(t, x), Eval(t, r), Eval(Quot(t, r), x));
      }
    }
  }

  lemma QuotStep(c: Elem, x: Elem, r: Elem, tx: Elem, tr: Elem, qx: Elem)
    requires tx == Add(tr, Mul(Add(x, r), qx))
    ensures Add(c, Mul(x, tx)) == Add(Add(c, Mul(r, tr)), Mul(Add(x, r), Add(tr, Mul(x, qx))))
  {
    hide Mul, Add;
    var d := Add(x, r);
    MulAdd(x, tr, Mul(d, qx));
    MulAdd(d, tr, Mul(x, qx));
    MulAdd(tr, x, r);
    MulAssoc(x, d, qx);
    MulAssoc(d, x, qx);
    MulComm(x, d);
    AddRegroup(c, Mul(x, tr), Mul(r, tr), Mul(d, Mul(x, qx)));
  }

  lemma AddRegroup(c: Elem, a: Elem, b: Elem, e: Elem)
    ensures Add(c, Add(a, e)) == Add(Add(c, b), Add(Add(a, b), e))
  {
  }

  lemma {:induction false} QuotZero(p: Poly, r: Elem)
    requires AllZero(Quot(p, r)) && Eval(p, r) == 0
    ensures AllZero(p)
  {
    hide Mul, Add;
    if |p| > 0 {
      var t := p[1..];
      MulOne(r);
      AddLaws(p[0], 0, 0);
      if |p| > 1 {
        var q := Quot(p, r);
        assert q[0] == Eval(t, r) && q[1..] == Quot(t, r);
        forall i | 0 <= i < |Quot(t, r)|
          ensures Quot(t, r)[i] == 0
        {
          assert q[i + 1] == 0;
        }
        QuotZero(t, r);
      }
      assert p == [p[0]] + t;
    }
  }

  /** A polynomial with as many distinct roots as coefficients is zero. */
  lemma {:induction false} RootsDetermine(p: Poly, xs: seq<Elem>)
    requires |p| <= |xs| && Distinct(xs)
    requires forall i :: 0 <= i < |xs| ==> Eval(p, xs[i]) == 0
    ensures AllZero(p)
    decreases |p|
  {
    hide Mul, Eval, Quot, Add;
    if |p| > 0 {
      var r, ys := xs[0], xs[1..];
      var q := Quot(p, r);
      forall i | 0 <= i < |ys|
        ensures Eval(q, ys[i]) == 0
      {
        assert ys[i] == xs[i + 1] && ys[i] != r;
        QuotLaw(p, r, ys[i]);
        AddLaws(0, Mul(Add(ys[i], r), Eval(q, ys[i])), 0);
        AddLaws(ys[i], r, 0);
        MulNonZero(Add(ys[i], r), Eval(q, ys[i]));
      }
      RootsDetermine(q, ys);
      QuotZero(p, r);
    }
  }

  // ---------------------------------------------------------------- sums, multiples, shifts and products

  function Coef(p: Poly, k: nat): Elem {
    if k < |p| then p[k] else 0
  }

  function Max(a: nat, b: nat): nat {
    if a < b then b else a
  }

  function Sum(p: Poly, q: Poly): (s: Poly)
    ensures |s| == Max(|p|, |q|)
  {
    seq(Max(|p|, |q|), k requires 0 <= k => Add(Coef(p, k), Coef(q, k)))
  }

  function Scale(c: Elem, p: Poly): (s: Poly)
    ensures |s| == |p|
  {
    seq(|p|, k requires 0 <= k < |p| => Mul(c, p[k]))
  }

  function Shift(n: nat, p: Poly): (s: Poly)
    ensures |s| == n + |p|
  {
    Zeros(n) + p
  }

  function Product(p: Poly, q: Poly): (s: Poly)
    ensures |s| == if p == [] then 0 else |p| - 1 + Max(|q|, 1)
  {
    if p == [] then [] else if |p| == 1 then Scale(p[0], q) + (if q == [] then [0] else [])
    else Sum(Scale(p[0], q), Shift(1, Product(p[1..], q)))
  }

  lemma {:induction false} EvalSum(p: Poly, q: Poly, x: Elem)
    ensures Eval(Sum(p, q), x) == Add(Eval(p, x), Eval(q, x))
    decreases |p| + |q|
  {
    hide Mul, Add;
    AddLaws(0, 0, 0);
    if p == [] {
      AddLaws(Eval(q, x), 0, 0);
      assert Sum(p, q) == q by {
        forall k | 0 <= k < |q|
          ensures Add(0, q[k]) == q[k]
        {
          AddLaws(q[k], 0, 0);
        }
      }
    } else if q == [] {
      AddLaws(Eval(p, x), 0, 0);
      assert Sum(p, q) == p by {
        forall k | 0 <= k < |p|
          ensures Add(p[k], 0) == p[k]
        {
          AddLaws(p[k], 0, 0);
        }
      }
    } else {
      assert Sum(p, q)[1..] == Sum(p[1..], q[1..]);
      EvalSum(p[1..], q[1..], x);
      MulAdd(x, Eval(p[1..], x), Eval(q[1..], x));
      AddSwap(p[0], q[0], Mul(x, Eval(p[1..], x)), Mul(x, Eval(q[1..], x)));
    }
  }

  lemma {:induction false} EvalScale(c: Elem, p: Poly, x: Elem)
    ensures Eval(Scale(c, p), x) == Mul(c, Eval(p, x))
  {
    hide Mul, Add;
    MulOne(c);
    if p != [] {
      assert Scale(c, p)[1..] == Scale(c, p[1..]);
      EvalScale(c, p[1..], x);
      var t := Eval(p[1..], x);
      MulAdd(c, p[0], Mul(x, t));
      MulAssoc(x, c, t);
      MulAssoc(c, x, t);
      MulComm(c, x);
    }
  }

  lemma {:induction false} EvalShift(n: nat, p: Poly, x: Elem)
    ensures Eval(Shift(n, p), x) == Mul(Exp(x, n), Eval(p, x))
  {
    hide Mul, Add;
    if n == 0 {
      assert Shift(0, p) == p;
      MulOne(Eval(p, x));
    } else {
      assert Shift(n, p)[0] == 0 && Shift(n, p)[1..] == Shift(n - 1, p);
      EvalShift(n - 1, p, x);
      AddLaws(Mul(x, Eval(Shift(n - 1, p), x)), 0, 0);
      MulAssoc(x, Exp(x, n - 1), Eval(p, x));
    }
  }

  lemma {:induction false} EvalProduct(p: Poly, q: Poly, x: Elem)
    ensures Eval(Product(p, q), x) == Mul(Eval(p, x), Eval(q, x))
  {
    hide Mul, Add;
    MulOne(Eval(q, x));
    if p == [] {
    } else {
      EvalScale(p[0], q, x);
      MulOne(x);
      AddLaws(p[0], 0, 0);
      if |p| == 1 {
        assert Eval(p[1..], x) == 0;
        if q == [] {
          MulOne(p[0]);
          AddLaws(0, 0, 0);
          assert Product(p, q) == [0];
          assert Eval([0], x) == Add(0, Mul(x, Eval([], x)));
        } else {
          assert Scale(p[0], q) + [] == Scale(p[0], q);
        }
      } else {
        var t := p[1..];
        EvalProduct(t, q, x);
        EvalSum(Scale(p[0], q), Shift(1, Product(t, q)), x);
        EvalShift(1, Product(t, q), x);
        MulOne(x);
        assert Exp(x, 1) == Mul(x, Exp(x, 0));
        MulAdd(Eval(q, x), p[0], Mul(x, Eval(t, x)));
        MulAssoc(x, Eval(t, x), Eval(q, x));
      }
    }
  }

  // ---------------------------------------------------------------- uniqueness

  /** Same coefficients, up to leading zeros. */
  ghost predicate Same(p: Poly, q: Poly) {
    forall k: nat :: Coef(p, k) == Coef(q, k)
  }

  lemma {:induction false} EvalZeros(p: Poly, x: Elem)
    requires AllZero(p)
    ensures Eval(p, x) == 0
  {
    hide Mul, Add;
    if p != [] {
      EvalZeros(p[1..], x);
      MulOne(x);
      AddLaws(0, 0, 0);
    }
  }

  lemma {:induction false} EvalTrailing(p: Poly, z: Poly, x: Elem)
    requires AllZero(z)
    ensures Eval(p + z, x) == Eval(p, x)
  {
    hide Mul, Add;
    if p == [] {
      assert p + z == z;
      EvalZeros(z, x);
    } else {
      assert (p + z)[1..] == p[1..] + z;
      EvalTrailing(p[1..], z, x);
    }
  }

  /** Polynomials below degree n that agree at n distinct points are the same. */
  lemma AgreeDetermines(p: Poly, q: Poly, xs: seq<Elem>)
    requires |p| <= |xs| && |q| <= |xs| && Distinct(xs)
    requires forall i :: 0 <= i < |xs| ==> Eval(p, xs[i]) == Eval(q, xs[i])
    ensures Same(p, q)
  {
    hide Mul, Add, Eval;
    var s := Sum(p, q);
    forall i | 0 <= i < |xs|
      ensures Eval(s, xs[i]) == 0
    {
      EvalSum(p, q, xs[i]);
      AddLaws(Eval(p, xs[i]), Eval(q, xs[i]), 0);
    }
    RootsDetermine(s, xs);
    forall k: nat
      ensures Coef(p, k) == Coef(q, k)
    {
      if k < |s| {
        assert s[k] == Add(Coef(p, k), Coef(q, k));
        AddLaws(Coef(p, k), Coef(q, k), 0);
      }
    }
  }

  /** All 256 points of the field: zero and the powers of two. */
  function FieldPoints(): (xs: seq<Elem>)
    ensures |xs| == 256
  {
    seq(256, i requires 0 <= i < 256 => if i == 0 then 0 else Pow2(i))
  }

  lemma FieldPointsDistinct()
    ensures Distinct(FieldPoints())
  {
    hide Pow2;
    forall i, j | 0 <= i < j < 256
      ensures FieldPoints()[i] != FieldPoints()[j]
    {
      if i == 0 {
        PowNonZero(j);
      } else if j == 255 {
        PowPeriodic(255);
        PowDistinct(0, i);
      } else {
        PowDistinct(i, j);
      }
    }
  }

  lemma {:induction false} ProductLead(p: Poly, q: Poly)
    requires p != [] && q != []
    ensures |Product(p, q)| == |p| + |q| - 1
    ensures Product(p, q)[|p| + |q| - 2] == Mul(p[|p| - 1], q[|q| - 1])
  {
    hide Mul, Add, Sum, Shift;
    if |p| == 1 {
      assert Product(p, q) == Scale(p[0], q) + [] == Scale(p[0], q);
    } else {
      var t := Product(p[1..], q);
      ProductLead(p[1..], q);
      hide Scale;
      assert Product(p, q) == Sum(Scale(p[0], q), Shift(1, t));
      hide Product;
      LeadStep(Scale(p[0], q), t, |p| + |q| - 2);
    }
  }

  lemma LeadStep(a: Poly, t: Poly, k: nat)
    requires |a| <= k && |t| == k
    ensures |Sum(a, Shift(1, t))| == k + 1
    ensures k > 0 ==> Sum(a, Shift(1, t))[k] == t[k - 1]
  {
    hide Add;
    var s := Shift(1, t);
    assert |s| == k + 1 && (k > 0 ==> s[k] == t[k - 1]);
    assert Sum(a, s)[k] == Add(Coef(a, k), Coef(s, k));
    AddLaws(Coef(s, k), 0, 0);
  }

  ghost predicate IsQuotient(p: Poly, b: Poly, q: Poly, r: Poly) {
    forall x: Elem :: Eval(p, x) == Add(Mul(Eval(q, x), Eval(b, x)), Eval(r, x))
  }

  /** The index of the last non-zero coefficient. */
  lemma LastNonZero(p: Poly) returns (t: nat)
    requires !AllZero(p)
    ensures t < |p| && p[t] != 0 && AllZero(p[t + 1..])
  {
    t := |p| - 1;
    while p[t] == 0
      invariant t < |p| && AllZero(p[t + 1..]) && !AllZero(p)
      decreases t
    {
      assert p[t + 1 - 1] == 0;
      if t == 0 {
        assert forall i :: 0 <= i < |p| ==> p[i] == (if i == 0 then p[0] else p[1..][i - 1]);
        assert false;
      }
      assert p[t..] == [p[t]] + p[t + 1..];
      t := t - 1;
    }
  }

  /** A multiple of b that equals something of lower degree than b everywhere is zero. */
  lemma NoSmallMultiple(d: Poly, b: Poly, r: Poly)
    requires b != [] && b[|b| - 1] != 0 && |r| < |b| && |d| + |b| <= 257
    requires forall x: Elem :: Mul(Eval(d, x), Eval(b, x)) == Eval(r, x)
    ensures AllZero(d) && AllZero(r)
  {
    hide Mul, Add, Eval, FieldPoints;
    if !AllZero(d) {
      var t := MultipleIsLong(d, b, r);
      assert false;
    }
    forall i | 0 <= i < 256
      ensures Eval(r, FieldPoints()[i]) == 0
    {
      EvalZeros(d, FieldPoints()[i]);
      MulOne(Eval(b, FieldPoints()[i]));
    }
    FieldPointsDistinct();
    RootsDetermine(r, FieldPoints());
  }

  /** A multiple of b by a factor whose last non-zero coefficient is the t-th has at least t coefficients more than b. */
  lemma MultipleIsLong(d: Poly, b: Poly, r: Poly) returns (t: nat)
    requires b != [] && b[|b| - 1] != 0 && |d| + |b| <= 257 && |r| <= 256 && !AllZero(d)
    requires forall x: Elem :: Mul(Eval(d, x), Eval(b, x)) == Eval(r, x)
    ensures t < |d| && d[t] != 0 && AllZero(d[t + 1..]) && t + |b| <= |r|
  {
    hide Mul, Add, Eval, Product, FieldPoints;
    t := LastNonZero(d);
    var c, z := d[..t + 1], d[t + 1..];
    ProductLead(c, b);
    MulNonZero(d[t], b[|b| - 1]);
    CutProduct(d, b, t + 1);
    EqualEverywhere(Product(c, b), r);
    LeadBounds(Product(c, b), r);
  }

  /** Trailing zeros of a factor do not change a product's values. */
  lemma CutProduct(d: Poly, b: Poly, n: nat)
    requires n <= |d| && AllZero(d[n..])
    ensures forall x: Elem :: Eval(Product(d[..n], b), x) == Mul(Eval(d, x), Eval(b, x))
  {
    hide Mul, Add, Eval, Product, AllZero;
    assert d == d[..n] + d[n..];
    forall x: Elem
      ensures Eval(Product(d[..n], b), x) == Mul(Eval(d, x), Eval(b, x))
    {
      EvalTrailing(d[..n], d[n..], x);
      EvalProduct(d[..n], b, x);
    }
  }

  /** Polynomials of at most 256 coefficients with equal values everywhere are equal. */
  lemma EqualEverywhere(p: Poly, q: Poly)
    requires |p| <= 256 && |q| <= 256 && forall x: Elem :: Eval(p, x) == Eval(q, x)
    ensures Same(p, q)
  {
    hide Eval, FieldPoints;
    FieldPointsDistinct();
    AgreeDetermines(p, q, FieldPoints());
  }

  lemma LeadBounds(p: Poly, r: Poly)
    requires p != [] && p[|p| - 1] != 0 && Same(p, r)
    ensures |p| <= |r|
  {
    assert Coef(p, |p| - 1) == Coef(r, |p| - 1);
  }

  /** Quotient and remainder are unique. */
  lemma QuotientUnique(p: Poly, b: Poly, q: Poly, r: Poly, q': Poly, r': Poly)
    requires b != [] && b[|b| - 1] != 0 && |r| < |b| && |r'| < |b|
    requires |q| + |b| <= 257 && |q'| + |b| <= 257
    requires IsQuotient(p, b, q, r) && IsQuotient(p, b, q', r')
    ensures Same(q, q') && Same(r, r')
  {
    hide Mul, Add, Eval;
    var d, e := Sum(q, q'), Sum(r, r');
    forall x: Elem
      ensures Mul(Eval(d, x), Eval(b, x)) == Eval(e, x)
    {
      EvalSum(q, q', x);
      EvalSum(r, r', x);
      MulAdd(Eval(b, x), Eval(q, x), Eval(q', x));
      Balance(Mul(Eval(q, x), Eval(b, x)), Eval(r, x), Mul(Eval(q', x), Eval(b, x)), Eval(r', x));
    }
    NoSmallMultiple(d, b, e);
    SumZeroIsSame(q, q');
    SumZeroIsSame(r, r');
  }

  lemma Balance(a: Elem, b: Elem, c: Elem, d: Elem)
    requires Add(a, b) == Add(c, d)
    ensures Add(a, c) == Add(b, d)
  {
    hide Add;
    AddSwap(a, b, c, d);
    AddLaws(Add(a, b), Add(c, d), 0);
    AddLaws(Add(a, c), Add(b, d), 0);
  }

  lemma SumZeroIsSame(p: Poly, q: Poly)
    requires AllZero(Sum(p, q))
    ensures Same(p, q)
  {
    hide Add;
    forall k: nat
      ensures Coef(p, k) == Coef(q, k)
    {
      if k < |Sum(p, q)| {
        assert Sum(p, q)[k] == Add(Coef(p, k), Coef(q, k));
        AddLaws(Coef(p, k), Coef(q, k), 0);
      }
    }
  }

  lemma {:induction false} SameEval(p: Poly, q: Poly, x: Elem)
    requires Same(p, q)
    ensures Eval(p, x) == Eval(q, x)
  {
    hide Mul, Add, Eval;
    if |p| <= |q| {
      PrefixSame(p, q);
      EvalTrailing(p, q[|p|..], x);
    } else {
      assert Same(q, p);
      PrefixSame(q, p);
      EvalTrailing(q, p[|q|..], x);
    }
  }

  lemma PrefixSame(p: Poly, q: Poly)
    requires Same(p, q) && |p| <= |q|
    ensures q == p + q[|p|..] && AllZero(q[|p|..])
  {
    forall k | 0 <= k < |p|
      ensures p[k] == q[k]
    {
      assert Coef(p, k) == Coef(q, k);
    }
    forall k | 0 <= k < |q| - |p|
      ensures q[|p|..][k] == 0
    {
      assert Coef(p, |p| + k) == Coef(q, |p| + k);
    }
  }
}
