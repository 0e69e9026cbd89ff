/** Berlekamp-Welch error correction of one byte column. */
module RsDecode {
  import opened Gf256
  import opened GfPoly
  import opened GfDivision
  import GfTables
  import opened GfMatrix

  // ---------------------------------------------------------------- points

  /** `eval_point`: share 0 sits at 0, share n at 2^(n-1). */
  function Point(n: nat): Elem {
    if n == 0 then 0 else Exp(2, n - 1)
  }

  /** The points are 0, 1, 2, 4, ...: each is twice the one before. */
  lemma PointSteps(n: nat)
    requires n > 0
    ensures Point(0) == 0 && Point(1) == 1 && Point(n + 1) == Mul(2, Point(n))
  {
    hide Mul;
  }

  lemma ExpOfTwo(n: nat)
    ensures Exp(2, n) == Pow2(n)
  {
    hide Log, Mul, Times;
    TwoIsPow();
    LogOfPow(1);
    GfTables.ExpIsPow(2, n);
  }

  lemma PointsDiffer(m: nat, n: nat)
    requires m < n < 256
    ensures Point(m) != Point(n)
  {
    hide Exp, Pow2;
    ExpOfTwo(n - 1);
    if m == 0 {
      PowNonZero(n - 1);
    } else {
      ExpOfTwo(m - 1);
      PowDistinct(m - 1, n - 1);
    }
  }

  // ---------------------------------------------------------------- rows of powers

  function Powers(x: Elem, n: nat): (r: Row)
    ensures |r| == n
  {
    seq(n, i requires 0 <= i => Exp(x, i))
  }

  lemma PowersSplit(x: Elem, n: nat)
    requires 0 < n
    ensures Powers(x, n)[0] == 1 && Powers(x, n)[1..] == GfMatrix.ScaleRow(x, Powers(x, n - 1))
  {
    hide Mul;
  }

  /** A row of powers times coefficients evaluates the polynomial. */
  lemma {:induction false} DotPowers(x: Elem, p: Poly)
    ensures Dot(Powers(x, |p|), p) == Eval(p, x)
  {
    hide Mul, Add, Exp, GfMatrix.ScaleRow;
    if p != [] {
      PowersSplit(x, |p|);
      DotPowers(x, p[1..]);
      DotScaleRow(x, Powers(x, |p| - 1), p[1..]);
      MulOne(p[0]);
    }
  }

  // ---------------------------------------------------------------- the key equation

  /** One row: powers of the point for Q, and powers times the received value for E. */
  function KeyRow(x: Elem, r: Elem, q: nat, e: nat): (row: Row)
    ensures |row| == q + e
  {
    Powers(x, q) + GfMatrix.ScaleRow(r, Powers(x, e))
  }

  function KeyMatrix(xs: seq<Elem>, rs: seq<Elem>, q: nat, e: nat): (m: Matrix)
    requires |xs| == |rs| == q + e
    ensures IsMatrix(m, q + e, q + e)
  {
    seq(q + e, i requires 0 <= i < q + e => KeyRow(xs[i], rs[i], q, e))
  }

  function KeySide(xs: seq<Elem>, rs: seq<Elem>, e: nat): (f: Row)
    requires |xs| == |rs|
    ensures |f| == |xs|
  {
    seq(|xs|, i requires 0 <= i < |xs| => Mul(Exp(xs[i], e), rs[i]))
  }

  /** A row applied to the unknowns is Q(x) + r E(x). */
  lemma KeyRowMeaning(x: Elem, r: Elem, q: Poly, e: Poly)
    ensures Dot(KeyRow(x, r, |q|, |e|), q + e) == Add(Eval(q, x), Mul(r, Eval(e, x)))
  {
    hide Mul, Add, Exp, Powers, Dot, GfMatrix.ScaleRow;
    DotConcat(Powers(x, |q|), GfMatrix.ScaleRow(r, Powers(x, |e|)), q, e);
    DotPowers(x, q);
    DotPowers(x, e);
    DotScaleRow(r, Powers(x, |e|), e);
  }

  // ---------------------------------------------------------------- right and wrong shares

  /** Points whose received value is (or is not) that of the polynomial. */
  function Select(xs: seq<Elem>, rs: seq<Elem>, p: Poly, right: bool): (s: seq<Elem>)
    requires |xs| == |rs|
  {
    if xs == [] then []
    else (if (rs[0] == Eval(p, xs[0])) == right then [xs[0]] else []) + Select(xs[1..], rs[1..], p, right)
  }

  lemma {:induction false} SelectSizes(xs: seq<Elem>, rs: seq<Elem>, p: Poly)
    requires |xs| == |rs|
    ensures |Select(xs, rs, p, true)| + |Select(xs, rs, p, false)| == |xs|
  {
    hide Eval;
    if xs != [] {
      SelectSizes(xs[1..], rs[1..], p);
    }
  }

  lemma {:induction false} SelectMember(xs: seq<Elem>, rs: seq<Elem>, p: Poly, right: bool, j: nat) returns (i: nat)
    requires |xs| == |rs| && j < |Select(xs, rs, p, right)|
    ensures i < |xs| && xs[i] == Select(xs, rs, p, right)[j] && (rs[i] == Eval(p, xs[i])) == right
  {
    hide Eval;
    var here := (rs[0] == Eval(p, xs[0])) == right;
    if here && j == 0 {
      i := 0;
    } else {
      i := SelectMember(xs[1..], rs[1..], p, right, if here then j - 1 else j);
      i := i + 1;
    }
  }

  lemma {:induction false} SelectDistinct(xs: seq<Elem>, rs: seq<Elem>, p: Poly, right: bool)
    requires |xs| == |rs| && Distinct(xs)
    ensures Distinct(Select(xs, rs, p, right))
  {
    hide Eval;
    if xs != [] {
      var s := Select(xs[1..], rs[1..], p, right);
      SelectDistinct(xs[1..], rs[1..], p, right);
      forall j | 0 <= j < |s|
        ensures s[j] != xs[0]
      {
        var i := SelectMember(xs[1..], rs[1..], p, right, j);
        assert xs[i + 1] == s[j];
      }
    }
  }

  /** The number of shares that disagree with the polynomial. */
  function Wrong(xs: seq<Elem>, rs: seq<Elem>, p: Poly): nat
    requires |xs| == |rs|
  {
    |Select(xs, rs, p, false)|
  }

  // ---------------------------------------------------------------- what the key equation forces

  /** Q(x) = r E(x) at every share. */
  ghost predicate Explains(xs: seq<Elem>, rs: seq<Elem>, q: Poly, e: Poly)
    requires |xs| == |rs|
  {
    forall i :: 0 <= i < |xs| ==> Eval(q, xs[i]) == Mul(rs[i], Eval(e, xs[i]))
  }

  lemma ExplainsAtGood(xs: seq<Elem>, rs: seq<Elem>, p: Poly, q: Poly, e: Poly, j: nat)
    requires |xs| == |rs| && Explains(xs, rs, q, e) && j < |Select(xs, rs, p, true)|
    ensures var x := Select(xs, rs, p, true)[j]; Eval(q, x) == Eval(Product(p, e), x)
  {
    hide Mul, Eval, Product, Select;
    var i := SelectMember(xs, rs, p, true, j);
    EvalProduct(p, e, xs[i]);
  }

  /** With few enough errors, Q is P E as a polynomial. */
  lemma ExplainsFactors(xs: seq<Elem>, rs: seq<Elem>, p: Poly, q: Poly, e: Poly)
    requires |xs| == |rs| && Distinct(xs) && Explains(xs, rs, q, e)
    requires p != [] && e != [] && |q| + Wrong(xs, rs, p) <= |xs| && |p| + |e| <= |q| + 1
    ensures forall x: Elem :: Eval(q, x) == Mul(Eval(p, x), Eval(e, x))
  {
    hide Mul, Eval, Product, Select, Explains, Same;
    var good, d := Select(xs, rs, p, true), Product(p, e);
    SelectSizes(xs, rs, p);
    SelectDistinct(xs, rs, p, true);
    forall j | 0 <= j < |good|
      ensures Eval(q, good[j]) == Eval(d, good[j])
    {
      ExplainsAtGood(xs, rs, p, q, e, j);
    }
    ProductLead(p, e);
    AgreeDetermines(q, d, good);
    forall x: Elem
      ensures Eval(q, x) == Mul(Eval(p, x), Eval(e, x))
    {
      EvalProduct(p, e, x);
      SameEval(q, d, x);
    }
  }

  /** At least as many errors as the locator has coefficients leave only the zero solution. */
  lemma OnlyZeroExplains(xs: seq<Elem>, rs: seq<Elem>, p: Poly, q: Poly, e: Poly)
    requires |xs| == |rs| && Distinct(xs) && Explains(xs, rs, q, e)
    requires p != [] && e != [] && |e| <= Wrong(xs, rs, p) && |q| + Wrong(xs, rs, p) <= |xs| && |p| + |e| <= |q| + 1
    ensures AllZero(q) && AllZero(e)
  {
    hide Mul, Eval, Select, Explains;
    var bad := Select(xs, rs, p, false);
    ExplainsFactors(xs, rs, p, q, e);
    SelectDistinct(xs, rs, p, false);
    forall j | 0 <= j < |bad|
      ensures Eval(e, bad[j]) == 0
    {
      var i := SelectMember(xs, rs, p, false, j);
      ExplainsAt(xs, rs, q, e, i);
      WrongForcesZero(rs[i], Eval(p, xs[i]), Eval(e, xs[i]));
    }
    RootsDetermine(e, bad);
    ProductWithZero(xs, p, q, e);
  }

  lemma ExplainsAt(xs: seq<Elem>, rs: seq<Elem>, q: Poly, e: Poly, i: nat)
    requires |xs| == |rs| && Explains(xs, rs, q, e) && i < |xs|
    ensures Eval(q, xs[i]) == Mul(rs[i], Eval(e, xs[i]))
  {
  }

  lemma WrongForcesZero(r: Elem, v: Elem, y: Elem)
    requires Mul(v, y) == Mul(r, y) && r != v
    ensures y == 0
  {
    hide Mul;
    if y != 0 {
      MulCancel(v, r, y);
    }
  }

  lemma ProductWithZero(xs: seq<Elem>, p: Poly, q: Poly, e: Poly)
    requires Distinct(xs) && |q| <= |xs| && AllZero(e)
    requires forall x: Elem :: Eval(q, x) == Mul(Eval(p, x), Eval(e, x))
    ensures AllZero(q)
  {
    hide Mul, Eval;
    forall i | 0 <= i < |xs|
      ensures Eval(q, xs[i]) == 0
    {
      EvalZeros(e, xs[i]);
      MulOne(Eval(p, xs[i]));
    }
    RootsDetermine(q, xs);
  }

  // ---------------------------------------------------------------- too few errors

  /** The polynomial with the given roots; its leading coefficient is 1. */
  function Locator(ws: seq<Elem>): (l: Poly)
    ensures |l| == |ws| + 1
  {
    if ws == [] then [1] else Sum(Shift(1, Locator(ws[1..])), Scale(ws[0], Locator(ws[1..])))
  }

  lemma {:induction false} LocatorLead(ws: seq<Elem>)
    ensures Locator(ws)[|ws|] == 1
  {
    hide Mul, Add;
    if ws != [] {
      LocatorLead(ws[1..]);
      assert Locator(ws)[|ws|] == Add(Coef(Shift(1, Locator(ws[1..])), |ws|), Coef(Scale(ws[0], Locator(ws[1..])), |ws|));
      AddLaws(1, 0, 0);
    }
  }

  lemma {:induction false} LocatorRoot(ws: seq<Elem>, j: nat)
    requires j < |ws|
    ensures Eval(Locator(ws), ws[j]) == 0
  {
    hide Mul, Add, Eval, Sum, Shift, Scale;
    var l, x := Locator(ws[1..]), ws[j];
    EvalSum(Shift(1, l), Scale(ws[0], l), x);
    EvalShift(1, l, x);
    EvalScale(ws[0], l, x);
    assert Exp(x, 1) == Mul(x, Exp(x, 0));
    MulOne(x);
    var y := Eval(l, x);
    if j == 0 {
      AddLaws(Mul(x, y), Mul(x, y), 0);
    } else {
      LocatorRoot(ws[1..], j - 1);
      MulOne(x);
      MulOne(ws[0]);
      AddLaws(0, 0, 0);
    }
  }

  // ---------------------------------------------------------------- kernel of the key matrix

  lemma KeyApply(xs: seq<Elem>, rs: seq<Elem>, q: Poly, e: Poly, i: nat)
    requires |xs| == |rs| == |q| + |e| && i < |xs|
    ensures Apply(KeyMatrix(xs, rs, |q|, |e|), q + e)[i] == Add(Eval(q, xs[i]), Mul(rs[i], Eval(e, xs[i])))
  {
    hide Mul, Add, Eval, Dot, KeyRow;
    KeyRowMeaning(xs[i], rs[i], q, e);
  }

  lemma KernelIsExplanation(xs: seq<Elem>, rs: seq<Elem>, q: Poly, e: Poly)
    requires |xs| == |rs| == |q| + |e|
    ensures IsZero(Apply(KeyMatrix(xs, rs, |q|, |e|), q + e)) <==> Explains(xs, rs, q, e)
  {
    hide Mul, Add, Eval, KeyMatrix, Apply;
    var v := Apply(KeyMatrix(xs, rs, |q|, |e|), q + e);
    forall i | 0 <= i < |xs|
      ensures v[i] == 0 <==> Eval(q, xs[i]) == Mul(rs[i], Eval(e, xs[i]))
    {
      KeyApply(xs, rs, q, e, i);
      AddLaws(Eval(q, xs[i]), Mul(rs[i], Eval(e, xs[i])), 0);
    }
  }

  /** Exactly e errors: every pivot will be found. */
  lemma ExactMeansNoKernel(xs: seq<Elem>, rs: seq<Elem>, p: Poly, q: nat, e: nat)
    requires |xs| == |rs| == q + e && Distinct(xs) && 0 < e && 0 < |p| && |p| + e == q
    requires Wrong(xs, rs, p) == e
    ensures !HasKernel(KeyMatrix(xs, rs, q, e), q + e)
  {
    hide KeyMatrix, Apply, Explains, Wrong;
    if HasKernel(KeyMatrix(xs, rs, q, e), q + e) {
      var u: Row :| |u| == q + e && !IsZero(u) && IsZero(Apply(KeyMatrix(xs, rs, q, e), u));
      var qs, es := u[..q], u[q..];
      assert u == qs + es;
      KernelIsExplanation(xs, rs, qs, es);
      OnlyZeroExplains(xs, rs, p, qs, es);
      assert false;
    }
  }

  // ---------------------------------------------------------------- at most e errors

  /** A multiple of the locator of the wrong shares, with leading coefficient 1 at d. */
  function MonicLocator(xs: seq<Elem>, rs: seq<Elem>, p: Poly, d: nat): (l: Poly)
    requires |xs| == |rs| && Wrong(xs, rs, p) <= d
    ensures |l| == d + 1
  {
    Shift(d - Wrong(xs, rs, p), Locator(Select(xs, rs, p, false)))
  }

  lemma MonicLocatorLaw(xs: seq<Elem>, rs: seq<Elem>, p: Poly, d: nat)
    requires |xs| == |rs| && Wrong(xs, rs, p) <= d
    ensures MonicLocator(xs, rs, p, d)[d] == 1
    ensures forall i :: 0 <= i < |xs| && rs[i] != Eval(p, xs[i]) ==> Eval(MonicLocator(xs, rs, p, d), xs[i]) == 0
  {
    hide Mul, Eval, Locator, Select, Exp;
    var bad := Select(xs, rs, p, false);
    var n := d - |bad|;
    LocatorLead(bad);
    forall i | 0 <= i < |xs| && rs[i] != Eval(p, xs[i])
      ensures Eval(MonicLocator(xs, rs, p, d), xs[i]) == 0
    {
      var j := SelectFinds(xs, rs, p, i);
      LocatorRoot(bad, j);
      EvalShift(n, Locator(bad), xs[i]);
      MulOne(Exp(xs[i], n));
    }
  }

  /** Whatever vanishes at the wrong shares explains them, together with its product with the message. */
  lemma VanishingExplains(xs: seq<Elem>, rs: seq<Elem>, p: Poly, l: Poly, qs: Poly, es: Poly)
    requires |xs| == |rs| && p != [] && |l| <= |es| && |Product(p, l)| <= |qs|
    requires forall i :: 0 <= i < |xs| && rs[i] != Eval(p, xs[i]) ==> Eval(l, xs[i]) == 0
    requires es == l + Zeros(|es| - |l|) && qs == Product(p, l) + Zeros(|qs| - |Product(p, l)|)
    ensures Explains(xs, rs, qs, es)
  {
    hide Eval, Mul, Product;
    forall i | 0 <= i < |xs|
      ensures Eval(qs, xs[i]) == Mul(rs[i], Eval(es, xs[i]))
    {
      EvalTrailing(l, Zeros(|es| - |l|), xs[i]);
      EvalTrailing(Product(p, l), Zeros(|qs| - |Product(p, l)|), xs[i]);
      EvalProduct(p, l, xs[i]);
      MulOne(rs[i]);
      MulOne(Eval(p, xs[i]));
    }
  }

  lemma {:induction false} SelectFinds(xs: seq<Elem>, rs: seq<Elem>, p: Poly, i: nat) returns (j: nat)
    requires |xs| == |rs| && i < |xs| && rs[i] != Eval(p, xs[i])
    ensures j < |Select(xs, rs, p, false)| && Select(xs, rs, p, false)[j] == xs[i]
  {
    hide Eval;
    if i == 0 {
      j := 0;
    } else {
      j := SelectFinds(xs[1..], rs[1..], p, i - 1);
      if rs[0] != Eval(p, xs[0]) {
        j := j + 1;
      }
    }
  }

  /** Column q + j depends on the columns before it if at most j shares are wrong. */
  lemma KeyDepends(xs: seq<Elem>, rs: seq<Elem>, p: Poly, q: nat, e: nat, j: nat)
    requires |xs| == |rs| == q + e && 0 < |p| && |p| + e == q
    requires Wrong(xs, rs, p) <= j < e
    ensures Depends(KeyMatrix(xs, rs, q, e), q + e, q + j)
  {
    hide KeyMatrix, Apply, Explains, Eval, Mul, MonicLocator, Product, Wrong;
    var l := MonicLocator(xs, rs, p, j);
    var d := Product(p, l);
    var es, qs := l + Zeros(e - |l|), d + Zeros(q - |d|);
    MonicLocatorLaw(xs, rs, p, j);
    VanishingExplains(xs, rs, p, l, qs, es);
    KernelIsExplanation(xs, rs, qs, es);
    EndsInLocator(qs, es, j);
  }

  lemma EndsInLocator(qs: Row, es: Row, j: nat)
    requires j < |es| && es[j] == 1 && forall i :: j < i < |es| ==> es[i] == 0
    ensures EndsAt(qs + es, |qs| + |es|, |qs| + j)
  {
  }

  /** No earlier column depends on the ones before it. */
  lemma KeyIndependent(xs: seq<Elem>, rs: seq<Elem>, p: Poly, q: nat, e: nat, c: nat)
    requires |xs| == |rs| == q + e && Distinct(xs) && 0 < |p| && |p| + e == q
    requires Wrong(xs, rs, p) <= e && c < q + Wrong(xs, rs, p)
    ensures !Depends(KeyMatrix(xs, rs, q, e), q + e, c)
  {
    hide KeyMatrix, Apply, Explains, Eval, Wrong;
    if Depends(KeyMatrix(xs, rs, q, e), q + e, c) {
      var v: Row :| EndsAt(v, q + e, c) && IsZero(Apply(KeyMatrix(xs, rs, q, e), v));
      var w := Wrong(xs, rs, p);
      var qs, es := v[..q], v[q..];
      assert v == qs + es;
      KernelIsExplanation(xs, rs, qs, es);
      assert v[c] == 1 == if c < q then qs[c] else es[..w][c - q];
      if c < q {
        forall i | 0 <= i < e
          ensures es[i] == 0
        {
          assert es[i] == v[q + i];
        }
        OnlyZeroLocator(xs, rs, qs, es);
      } else {
        ExplainsCut(xs, rs, qs, es, w);
        OnlyZeroExplains(xs, rs, p, qs, es[..w]);
      }
      assert false;
    }
  }

  lemma OnlyZeroLocator(xs: seq<Elem>, rs: seq<Elem>, qs: Poly, es: Poly)
    requires |xs| == |rs| && Distinct(xs) && |qs| <= |xs| && AllZero(es) && Explains(xs, rs, qs, es)
    ensures AllZero(qs)
  {
    hide Mul, Eval;
    forall i | 0 <= i < |xs|
      ensures Eval(qs, xs[i]) == 0
    {
      EvalZeros(es, xs[i]);
      MulOne(rs[i]);
    }
    RootsDetermine(qs, xs);
  }

  /** Trailing zeros of the locator do not matter. */
  lemma ExplainsCut(xs: seq<Elem>, rs: seq<Elem>, qs: Poly, es: Poly, w: nat)
    requires |xs| == |rs| && w <= |es| && Explains(xs, rs, qs, es)
    requires forall i :: w <= i < |es| ==> es[i] == 0
    ensures Explains(xs, rs, qs, es[..w])
  {
    hide Mul, Eval;
    assert es == es[..w] + es[w..];
    forall i | 0 <= i < |xs|
      ensures Eval(qs, xs[i]) == Mul(rs[i], Eval(es[..w], xs[i]))
    {
      EvalTrailing(es[..w], es[w..], xs[i]);
    }
  }

  /** With w <= e wrong shares the first q + w columns are independent and span the rest. */
  lemma KeyLeads(xs: seq<Elem>, rs: seq<Elem>, p: Poly, q: nat, e: nat)
    requires |xs| == |rs| == q + e && Distinct(xs) && 0 < |p| && |p| + e == q
    requires Wrong(xs, rs, p) <= e
    ensures Leads(KeyMatrix(xs, rs, q, e), q + e, q + Wrong(xs, rs, p))
  {
    hide KeyMatrix, Depends, Wrong;
    var w, dim := Wrong(xs, rs, p), q + e;
    forall c: nat | c < dim
      ensures Depends(KeyMatrix(xs, rs, q, e), dim, c) <==> q + w <= c
    {
      if q + w <= c {
        KeyDepends(xs, rs, p, q, e, c - q);
      } else {
        KeyIndependent(xs, rs, p, q, e, c);
      }
    }
  }

  /** Fewer than e errors: some pivot is missing. */
  lemma FewerMeansKernel(xs: seq<Elem>, rs: seq<Elem>, p: Poly, q: nat, e: nat)
    requires |xs| == |rs| == q + e && 0 < |p| && |p| + e == q
    requires Wrong(xs, rs, p) < e
    ensures HasKernel(KeyMatrix(xs, rs, q, e), q + e)
  {
    hide KeyMatrix, Depends, Wrong, HasKernel;
    var w := Wrong(xs, rs, p);
    KeyDepends(xs, rs, p, q, e, w);
    DependsMeansKernel(KeyMatrix(xs, rs, q, e), q + e, q + w);
  }

  // ---------------------------------------------------------------- the solution of the key equation

  lemma {:induction false} EvalAppend(p: Poly, c: Elem, x: Elem)
    ensures Eval(p + [c], x) == Add(Eval(p, x), Mul(Exp(x, |p|), c))
  {
    hide Mul, Add;
    if p == [] {
      MulOne(x);
      MulOne(c);
      AddLaws(c, 0, 0);
      assert Eval([c], x) == Add(c, Mul(x, Eval([c][1..], x)));
    } else {
      assert (p + [c])[1..] == p[1..] + [c];
      EvalAppend(p[1..], c, x);
      var y := Exp(x, |p| - 1);
      MulAdd(x, Eval(p[1..], x), Mul(y, c));
      MulAssoc(x, y, c);
      AddLaws(p[0], Mul(x, Eval(p[1..], x)), Mul(Mul(x, y), c));
    }
  }

  /** The key equation is solved exactly by the locators that explain the shares once completed by their leading 1. */
  lemma SolutionExplains(xs: seq<Elem>, rs: seq<Elem>, q: Poly, e: Poly)
    requires |xs| == |rs| == |q| + |e|
    ensures Apply(KeyMatrix(xs, rs, |q|, |e|), q + e) == KeySide(xs, rs, |e|) <==> Explains(xs, rs, q, e + [1])
  {
    hide Mul, Add, Eval, KeyMatrix, Apply, Exp, KeySide;
    var v, f := Apply(KeyMatrix(xs, rs, |q|, |e|), q + e), KeySide(xs, rs, |e|);
    forall i | 0 <= i < |xs|
      ensures v[i] == f[i] <==> Eval(q, xs[i]) == Mul(rs[i], Eval(e + [1], xs[i]))
    {
      SolvedRow(xs, rs, q, e, i);
    }
    if Explains(xs, rs, q, e + [1]) {
      assert v == f;
    }
  }

  lemma SolvedRow(xs: seq<Elem>, rs: seq<Elem>, q: Poly, e: Poly, i: nat)
    requires |xs| == |rs| == |q| + |e| && i < |xs|
    ensures Apply(KeyMatrix(xs, rs, |q|, |e|), q + e)[i] == KeySide(xs, rs, |e|)[i]
       <==> Eval(q, xs[i]) == Mul(rs[i], Eval(e + [1], xs[i]))
  {
    hide Mul, Add, Eval, KeyMatrix, Apply, Exp;
    var x, r := xs[i], rs[i];
    KeyApply(xs, rs, q, e, i);
    assert KeySide(xs, rs, |e|)[i] == Mul(Exp(x, |e|), r);
    EvalAppend(e, 1, x);
    MulOne(Exp(x, |e|));
    MulComm(r, Exp(x, |e|));
    MulAdd(r, Eval(e, x), Exp(x, |e|));
    MoveOver(Eval(q, x), Mul(r, Eval(e, x)), Mul(r, Exp(x, |e|)));
  }

  /** With at most e wrong shares the key equation has a solution. */
  lemma KeySolvable(xs: seq<Elem>, rs: seq<Elem>, p: Poly, q: nat, e: nat)
    requires |xs| == |rs| == q + e && 0 < |p| && |p| + e == q
    requires Wrong(xs, rs, p) <= e
    ensures Solvable(KeyMatrix(xs, rs, q, e), KeySide(xs, rs, e), q + e)
  {
    hide KeyMatrix, KeySide, Apply, Explains, Eval, MonicLocator, Product, Wrong;
    var l := MonicLocator(xs, rs, p, e);
    var qs, es := Product(p, l), l[..e];
    MonicLocatorLaw(xs, rs, p, e);
    assert l == es + [1] && l == l + Zeros(0) && qs == qs + Zeros(0);
    VanishingExplains(xs, rs, p, l, qs, l);
    SolutionExplains(xs, rs, qs, es);
    assert |qs + es| == q + e;
  }

  lemma MoveOver(a: Elem, b: Elem, c: Elem)
    ensures Add(a, b) == c <==> a == Add(b, c)
  {
    AddLaws(b, a, 0);
    AddLaws(b, c, 0);
  }

  /** The division of Q by E then gives exactly the polynomial that was sent. */
  lemma QuotientIsMessage(xs: seq<Elem>, rs: seq<Elem>, p: Poly, q: Poly, e: Poly, quot: Poly, rem: Poly)
    requires |xs| == |rs| == |q| + |e| <= 256 && Distinct(xs) && p != [] && e != [] && |p| + |e| == |q|
    requires Wrong(xs, rs, p) <= |e| && Explains(xs, rs, q, e + [1])
    requires IsQuotient(q, e + [1], quot, rem) && |quot| + |e| + 1 <= 257
    requires AllZero(rem) || |rem| < |e| + 1
    ensures AllZero(rem) && forall x: Elem :: Eval(quot, x) == Eval(p, x)
  {
    hide Mul, Add, Eval, Same, Wrong, Explains;
    var b := e + [1];
    ExplainsFactors(xs, rs, p, q, b);
    forall x: Elem
      ensures Eval(q, x) == Add(Mul(Eval(p, x), Eval(b, x)), Eval([], x))
    {
      EvalZeros([], x);
      AddLaws(Mul(Eval(p, x), Eval(b, x)), 0, 0);
    }
    var r: Poly := if AllZero(rem) then [] else rem;
    forall x: Elem | AllZero(rem)
      ensures Eval(rem, x) == Eval(r, x)
    {
      EvalZeros(rem, x);
      EvalZeros([], x);
    }
    assert IsQuotient(q, b, quot, r);
    QuotientUnique(q, b, quot, r, p, []);
    SameEmpty(r);
    forall x: Elem
      ensures Eval(quot, x) == Eval(p, x)
    {
      SameEval(quot, p, x);
    }
  }

  /** Conversely, a factor P of Q, at E completed by its leading 1, is short and differs from few shares. */
  lemma FactorIsClose(xs: seq<Elem>, rs: seq<Elem>, q: Poly, e: Poly, quot: Poly, rem: Poly) returns (p: Poly)
    requires |xs| == |rs| == |q| + |e| <= 256 && |e| < |q| && Explains(xs, rs, q, e + [1]) && Distinct(xs)
    requires IsQuotient(q, e + [1], quot, rem) && |quot| + |e| + 1 <= 257 && AllZero(rem)
    ensures |p| + |e| == |q| && Wrong(xs, rs, p) <= |e| && forall x: Elem :: Eval(quot, x) == Eval(p, x)
  {
    hide Mul, Add, Eval, Explains, Wrong, Select;
    var b := e + [1];
    forall x: Elem
      ensures Mul(Eval(quot, x), Eval(b, x)) == Eval(q, x)
    {
      EvalZeros(rem, x);
      AddLaws(Mul(Eval(quot, x), Eval(b, x)), 0, 0);
    }
    p := ShortFactor(quot, b, q);
    FactorFits(xs, rs, q, b, p);
  }

  lemma ShortFactor(quot: Poly, b: Poly, q: Poly) returns (p: Poly)
    requires b != [] && b[|b| - 1] == 1 && |b| <= |q| <= 256 && |quot| + |b| <= 257
    requires forall x: Elem :: Mul(Eval(quot, x), Eval(b, x)) == Eval(q, x)
    ensures |p| + |b| == |q| + 1 && forall x: Elem :: Eval(quot, x) == Eval(p, x)
  {
    hide Mul, Add, Eval;
    var n := |q| + 1 - |b|;
    if !AllZero(quot) {
      var t := MultipleIsLong(quot, b, q);
      assert forall i :: n <= i < |quot| ==> quot[i] == quot[t + 1..][i - t - 1];
    }
    assert forall i :: n <= i < |quot| ==> quot[i] == 0;
    if n <= |quot| {
      p := quot[..n];
      assert quot == p + quot[n..];
      forall x: Elem
        ensures Eval(quot, x) == Eval(p, x)
      {
        EvalTrailing(p, quot[n..], x);
      }
    } else {
      p := quot + Zeros(n - |quot|);
      forall x: Elem
        ensures Eval(quot, x) == Eval(p, x)
      {
        EvalTrailing(quot, Zeros(n - |quot|), x);
      }
    }
  }

  /** The locator vanishes at every wrong share, so there are fewer of them than it has coefficients. */
  lemma FactorFits(xs: seq<Elem>, rs: seq<Elem>, q: Poly, b: Poly, p: Poly)
    requires |xs| == |rs| && Distinct(xs) && Explains(xs, rs, q, b) && b != [] && b[|b| - 1] == 1
    requires forall x: Elem :: Mul(Eval(p, x), Eval(b, x)) == Eval(q, x)
    ensures Wrong(xs, rs, p) < |b|
  {
    hide Mul, Add, Eval, Explains, Select;
    var bad := Select(xs, rs, p, false);
    SelectDistinct(xs, rs, p, false);
    forall j | 0 <= j < |bad|
      ensures Eval(b, bad[j]) == 0
    {
      var i := SelectMember(xs, rs, p, false, j);
      ExplainsAt(xs, rs, q, b, i);
      WrongForcesZero(rs[i], Eval(p, xs[i]), Eval(b, xs[i]));
    }
    if |b| <= |bad| {
      RootsDetermine(b, bad);
      assert false;
    }
  }

  lemma SameEmpty(r: Poly)
    requires Same(r, [])
    ensures AllZero(r)
  {
    forall i | 0 <= i < |r|
      ensures r[i] == 0
    {
      assert Coef(r, i) == Coef([], i);
    }
  }

  // ---------------------------------------------------------------- the decoder

  /** One byte of one share. */
  datatype ByteShare = ByteShare(number: nat, value: Elem)

  datatype DecodeError = DivPoly | CannotRecover

  datatype Result<T> = Ok(value: T) | Err(error: DecodeError)

  function SharePoints(shares: seq<ByteShare>): (xs: seq<Elem>)
    ensures |xs| == |shares|
  {
    seq(|shares|, i requires 0 <= i < |shares| => Point(shares[i].number))
  }

  function ShareValues(shares: seq<ByteShare>): (rs: seq<Elem>)
    ensures |rs| == |shares|
  {
    seq(|shares|, i requires 0 <= i < |shares| => shares[i].value)
  }

  ghost predicate ValidShares(shares: seq<ByteShare>) {
    && (forall i :: 0 <= i < |shares| ==> shares[i].number < 256)
    && (forall i, j :: 0 <= i < j < |shares| ==> shares[i].number != shares[j].number)
  }

  lemma SharePointsDistinct(shares: seq<ByteShare>)
    requires ValidShares(shares)
    ensures Distinct(SharePoints(shares))
  {
    hide Point;
    forall i, j | 0 <= i < j < |shares|
      ensures SharePoints(shares)[i] != SharePoints(shares)[j]
    {
      var a, b := shares[i].number, shares[j].number;
      if a < b {
        PointsDiffer(a, b);
      } else {
        PointsDiffer(b, a);
      }
    }
  }

  /** Value of the polynomial at every share position. */
  function Corrected(p: Poly, total: nat): (c: seq<Elem>)
    ensures |c| == total
  {
    seq(total, i requires 0 <= i => Eval(p, Point(i)))
  }

  lemma KeyRowEntries(x: Elem, r: Elem, q: nat, e: nat)
    ensures forall c :: 0 <= c < q ==> KeyRow(x, r, q, e)[c] == Exp(x, c)
    ensures forall k :: 0 <= k < e ==> KeyRow(x, r, q, e)[q + k] == Mul(Exp(x, k), r)
  {
    hide Mul, Exp;
    forall k | 0 <= k < e
      ensures KeyRow(x, r, q, e)[q + k] == Mul(Exp(x, k), r)
    {
      MulComm(Exp(x, k), r);
    }
  }

  /** One row of the key equation. */
  method FillKeyRow(s: array2<Elem>, i: nat, x: Elem, r: Elem, q: nat, e: nat)
    requires s.Length1 == q + e && i < s.Length0
    modifies s
    ensures forall c :: 0 <= c < q + e ==> s[i, c] == KeyRow(x, r, q, e)[c]
    ensures forall j, c :: 0 <= j < s.Length0 && j != i && 0 <= c < q + e ==> s[j, c] == old(s[j, c])
  {
    hide Mul, Exp, KeyRow;
    KeyRowEntries(x, r, q, e);
    for c := 0 to q
      invariant forall d :: 0 <= d < c ==> s[i, d] == KeyRow(x, r, q, e)[d]
      invariant forall j, d :: 0 <= j < s.Length0 && j != i && 0 <= d < q + e ==> s[j, d] == old(s[j, d])
    {
      s[i, c] := Exp(x, c);
    }
    for k := 0 to e
      invariant forall d :: 0 <= d < q + k ==> s[i, d] == KeyRow(x, r, q, e)[d]
      invariant forall j, d :: 0 <= j < s.Length0 && j != i && 0 <= d < q + e ==> s[j, d] == old(s[j, d])
    {
      assert KeyRow(x, r, q, e)[q + k] == Mul(Exp(x, k), r);
      s[i, q + k] := Mul(Exp(x, k), r);
    }
  }

  /** The loop that sets up the key equation. */
  method FillKeyEquation(shares: seq<ByteShare>, q: nat, e: nat) returns (s: array2<Elem>, f: array<Elem>)
    requires |shares| == q + e
    ensures fresh(s) && fresh(f) && s.Length0 == s.Length1 == f.Length == q + e
    ensures View(s) == KeyMatrix(SharePoints(shares), ShareValues(shares), q, e)
    ensures f[..] == KeySide(SharePoints(shares), ShareValues(shares), e)
  {
    hide Mul, Exp, Point, KeyRow;
    var dim := q + e;
    s := new Elem[dim, dim];
    f := new Elem[dim];
    for i := 0 to dim
      invariant forall j :: 0 <= j < i ==> f[j] == Mul(Exp(Point(shares[j].number), e), shares[j].value)
      invariant forall j, c :: 0 <= j < i && 0 <= c < dim ==> s[j, c] == KeyRow(Point(shares[j].number), shares[j].value, q, e)[c]
    {
      var x, r := Point(shares[i].number), shares[i].value;
      f[i] := Mul(Exp(x, e), r);
      FillKeyRow(s, i, x, r, q, e);
    }
    forall i | 0 <= i < dim
      ensures View(s)[i] == KeyMatrix(SharePoints(shares), ShareValues(shares), q, e)[i]
    {
    }
  }

  /** Elimination and multiplication with the right-hand side: a solution if there is one, whether or not all pivots exist. */
  method SolveKeyEquation(shares: seq<ByteShare>, q: nat, e: nat) returns (u: Row)
    requires |shares| == q + e
    ensures |u| == q + e
    ensures var m, f := KeyMatrix(SharePoints(shares), ShareValues(shares), q, e), KeySide(SharePoints(shares), ShareValues(shares), e);
            && (forall t: nat :: Leads(m, |shares|, t) && Solvable(m, f, |shares|) ==> Apply(m, u) == f)
            && (!HasKernel(m, |shares|) ==> Apply(m, u) == f)
  {
    hide KeyMatrix, KeySide, HasKernel, Apply, Leads, Solvable, ReducedTo, SameSolutions;
    var dim := q + e;
    var s, f := FillKeyEquation(shares, q, e);
    ghost var m := View(s);
    var a := new Elem[dim, dim]((i, j) => if i == j then 1 else 0);
    StartsAsIdentity(a, dim);
    InvertMatrixWith(s, dim, a);
    u := Apply(View(a), f[..]);
    forall t: nat | Leads(m, dim, t) && Solvable(m, f[..], dim)
      ensures Apply(m, u) == f[..]
    {
      ReducedSolves(View(s), View(a), m, dim, t, f[..]);
    }
    if !HasKernel(m, dim) {
      InverseSolves(m, View(a), dim, f[..]);
    }
  }

  /** Division of Q by the completed locator, and evaluation of the quotient at every position. */
  method DivideAndEvaluate(qs: Poly, es: Poly, total: nat) returns (result: Result<seq<Elem>>, ghost quot: Poly, ghost rem: Poly)
    requires |qs| <= 255 && |es| <= 255
    ensures IsQuotient(qs, es + [1], quot, rem) && |quot| + |es| + 1 <= 257
    ensures AllZero(rem) || |rem| < |es| + 1
    ensures result == if AllZero(rem) then Ok(Corrected(quot, total)) else Err(CannotRecover)
  {
    hide Mul, Add, Eval, Point, IsQuotient;
    var quotBuf := new PolyBuf(qs);
    var locBuf := new PolyBuf(es + [1]);
    MonicSanitized(es);
    var division := Div(quotBuf, locBuf);
    var (p, r) := division.value;
    quot, rem := p.Coeffs(), r.Coeffs();
    var remainder := r.data[..r.len];
    if exists i :: 0 <= i < |remainder| && remainder[i] != 0 {
      result := Err(CannotRecover);
    } else {
      result := Ok(Corrected(p.data[..p.len], total));
    }
  }

  lemma MonicSanitized(es: Poly)
    ensures Sanitized(es + [1]) == es + [1] && !AllZero(es + [1])
  {
    var p := es + [1];
    assert p[|es|] == 1;
  }

  /** Whichever short polynomial differs from at most e of the used shares is the one returned, at every position. */
  ghost predicate DecodesUniquely(used: seq<ByteShare>, e: nat, q: nat, total: nat, result: Result<seq<Elem>>) {
    forall p: Poly :: |p| + e == q && Wrong(SharePoints(used), ShareValues(used), p) <= e ==> result == Ok(Corrected(p, total))
  }

  /** Some short polynomial differs from at most e of the used shares. */
  ghost predicate Decodable(used: seq<ByteShare>, e: nat, q: nat) {
    exists p: Poly :: |p| + e == q && Wrong(SharePoints(used), ShareValues(used), p) <= e
  }

  /** `berklekamp_welch` on one byte column: e correctable errors, q = e + required unknowns for Q. */
  method BerlekampWelch(shares: seq<ByteShare>, e: nat, q: nat, total: nat) returns (result: Result<seq<Elem>>)
    requires 0 < e < q && q + e <= |shares| && q + e <= 256 && ValidShares(shares)
    ensures DecodesUniquely(shares[..q + e], e, q, total, result)
    ensures var used := shares[..q + e];
            !HasKernel(KeyMatrix(SharePoints(used), ShareValues(used), q, e), q + e) ==> (result.Ok? <==> Decodable(used, e, q))
    ensures result.Ok? || result == Err(CannotRecover)
  {
    hide KeyMatrix, KeySide, Wrong, Leads, Solvable, HasKernel, Apply, Explains, Corrected, IsQuotient;
    var used := shares[..q + e];
    ghost var xs, rs := SharePoints(used), ShareValues(used);
    SharePointsDistinct(used);
    var u := SolveKeyEquation(used, q, e);
    ghost var quot, rem;
    result, quot, rem := DivideAndEvaluate(u[..q], u[q..], total);
    forall p: Poly | |p| + e == q && Wrong(xs, rs, p) <= e
      ensures result == Ok(Corrected(p, total))
    {
      KeyLeads(xs, rs, p, q, e);
      KeySolvable(xs, rs, p, q, e);
      assert u == u[..q] + u[q..];
      SolutionExplains(xs, rs, u[..q], u[q..]);
      QuotientIsMessage(xs, rs, p, u[..q], u[q..], quot, rem);
      CorrectedSame(quot, p, total);
    }
    if !HasKernel(KeyMatrix(xs, rs, q, e), q + e) && result.Ok? {
      assert u == u[..q] + u[q..];
      SolutionExplains(xs, rs, u[..q], u[q..]);
      ghost var p := FactorIsClose(xs, rs, u[..q], u[q..], quot, rem);
    }
  }

  lemma CorrectedSame(q: Poly, p: Poly, total: nat)
    requires forall x: Elem :: Eval(q, x) == Eval(p, x)
    ensures Corrected(q, total) == Corrected(p, total)
  {
    hide Eval, Point;
  }

  /** Among shares with at most e errors, the elimination finds every pivot exactly when there are e of them. */
  lemma PivotsFoundIffExactErrors(shares: seq<ByteShare>, p: Poly, e: nat, q: nat)
    requires 0 < e < q && |shares| == q + e && ValidShares(shares) && |p| == q - e
    requires Wrong(SharePoints(shares), ShareValues(shares), p) <= e
    ensures HasKernel(KeyMatrix(SharePoints(shares), ShareValues(shares), q, e), q + e)
       <==> Wrong(SharePoints(shares), ShareValues(shares), p) < e
  {
    hide KeyMatrix, HasKernel, Wrong;
    var xs, rs := SharePoints(shares), ShareValues(shares);
    SharePointsDistinct(shares);
    if Wrong(xs, rs, p) < e {
      FewerMeansKernel(xs, rs, p, q, e);
    } else {
      ExactMeansNoKernel(xs, rs, p, q, e);
    }
  }
}
