/** The syndrome check: which received bytes belong to one polynomial. */
module RsSyndrome {
  import opened Gf256
  import opened GfPoly
  import opened GfMatrix
  import opened GfStandard
  import opened RsDecode

  // ---------------------------------------------------------------- Vandermonde rows over chosen points

  /** Row i holds the i-th powers of the points. */
  ghost predicate IsVandermonde(m: Matrix, xs: seq<Elem>, r: nat) {
    IsMatrix(m, r, |xs|) && forall i, j :: 0 <= i < r && 0 <= j < |xs| ==> m[i][j] == Exp(xs[j], i)
  }

  /** The values of one polynomial with r coefficients at the given points. */
  ghost predicate IsCodeword(xs: seq<Elem>, v: Row, r: nat) {
    exists p: Poly :: IsReadOf(xs, v, r, p)
  }

  ghost predicate IsReadOf(xs: seq<Elem>, v: Row, r: nat, p: Poly) {
    |p| == r && |v| == |xs| && forall j :: 0 <= j < |xs| ==> v[j] == Eval(p, xs[j])
  }

  lemma VandermondeColumn(m: Matrix, xs: seq<Elem>, r: nat, a: Row, j: nat)
    requires IsVandermonde(m, xs, r) && |a| == r && j < |xs|
    ensures Dot(a, Column(m, |xs|, j)) == Eval(a, xs[j])
  {
    hide Dot, Eval, Exp;
    assert Column(m, |xs|, j) == Powers(xs[j], r);
    DotComm(a, Powers(xs[j], r));
    DotPowers(xs[j], a);
  }

  /** The row space of the Vandermonde rows is the set of codewords. */
  lemma SpanIsCodewords(m: Matrix, xs: seq<Elem>, r: nat, v: Row)
    requires IsVandermonde(m, xs, r)
    ensures InSpan(m, |xs|, v) <==> IsCodeword(xs, v, r)
  {
    hide Dot, Eval, Exp;
    forall a: Row | |a| == r
      ensures forall j :: 0 <= j < |xs| ==> Dot(a, Column(m, |xs|, j)) == Eval(a, xs[j])
    {
      forall j | 0 <= j < |xs|
        ensures Dot(a, Column(m, |xs|, j)) == Eval(a, xs[j])
      {
        VandermondeColumn(m, xs, r, a, j);
      }
    }
    if InSpan(m, |xs|, v) {
      var a: Row :| Combines(m, |xs|, a, v);
      assert IsReadOf(xs, v, r, a);
    }
    if IsCodeword(xs, v, r) {
      var p: Poly :| IsReadOf(xs, v, r, p);
      assert Combines(m, |xs|, p, v);
    }
  }

  function Values(p: Poly, xs: seq<Elem>): (v: Row)
    ensures |v| == |xs|
  {
    seq(|xs|, j requires 0 <= j < |xs| => Eval(p, xs[j]))
  }

  lemma EvalSnoc(p: Poly, n: nat, x: Elem)
    requires 0 < n <= |p|
    ensures Eval(p[..n], x) == Add(Eval(p[..n - 1], x), Mul(p[n - 1], Exp(x, n - 1)))
  {
    hide Mul, Add, Eval, Exp, Dot;
    var w := Powers(x, |p|);
    DotPowers(x, p[..n]);
    DotPowers(x, p[..n - 1]);
    assert w[..n] == Powers(x, n) && w[..n - 1] == Powers(x, n - 1);
    DotSnoc(w, p, n);
    MulComm(w[n - 1], p[n - 1]);
  }

  /** A vector orthogonal to the rows is orthogonal to every codeword. */
  lemma {:induction false} OrthogonalToValues(m: Matrix, xs: seq<Elem>, r: nat, u: Row, p: Poly, n: nat)
    requires IsVandermonde(m, xs, r) && |u| == |xs| && n <= |p| <= r
    requires forall i :: 0 <= i < r ==> Dot(m[i], u) == 0
    ensures Dot(Values(p[..n], xs), u) == 0
  {
    hide Mul, Add, Eval, Exp, Dot;
    if n == 0 {
      EmptyValues(xs);
      assert p[..0] == [];
      DotZero(Values([], xs), u);
    } else {
      OrthogonalToValues(m, xs, r, u, p, n - 1);
      forall j | 0 <= j < |xs|
        ensures Values(p[..n], xs)[j] == AddRow(Values(p[..n - 1], xs), m[n - 1], p[n - 1])[j]
      {
        EvalSnoc(p, n, xs[j]);
      }
      assert Values(p[..n], xs) == AddRow(Values(p[..n - 1], xs), m[n - 1], p[n - 1]);
      DotAddRow(Values(p[..n - 1], xs), m[n - 1], p[n - 1], u);
      MulOne(p[n - 1]);
      AddLaws(0, 0, 0);
    }
  }

  lemma EmptyValues(xs: seq<Elem>)
    ensures IsZero(Values([], xs))
  {
  }

  /** Distinct points give regular rows: a kernel vector would be orthogonal to a polynomial that singles out one point. */
  lemma VandermondeRegular(m: Matrix, xs: seq<Elem>, r: nat)
    requires IsVandermonde(m, xs, r) && |xs| == r && Distinct(xs)
    ensures !HasKernel(m, r)
  {
    hide Mul, Add, Eval, Exp, Dot, Locator;
    if HasKernel(m, r) {
      var u: Row :| |u| == r && !IsZero(u) && IsZero(Apply(m, u));
      var k: nat :| k < r && u[k] != 0;
      forall i | 0 <= i < r
        ensures Dot(m[i], u) == 0
      {
        assert Apply(m, u)[i] == 0;
      }
      var others := xs[..k] + xs[k + 1..];
      var p := Locator(others);
      var y := Eval(p, xs[k]);
      SinglesOut(xs, k);
      OrthogonalToValues(m, xs, r, u, p, r);
      assert p[..r] == p;
      var z := ZeroRow(r);
      assert Values(p, xs) == z[k := y];
      DotUpdate(z, u, k, y);
      DotZero(z, u);
      AddLaws(0, y, 0);
      AddLaws(0, Mul(y, u[k]), 0);
      AddLaws(y, 0, 0);
      AddLaws(Mul(y, u[k]), 0, 0);
      MulNonZero(y, u[k]);
      assert false;
    }
  }

  lemma SinglesOut(xs: seq<Elem>, k: nat)
    requires Distinct(xs) && k < |xs|
    ensures var p := Locator(xs[..k] + xs[k + 1..]);
            && Eval(p, xs[k]) != 0
            && forall j :: 0 <= j < |xs| && j != k ==> Eval(p, xs[j]) == 0
  {
    hide Eval, Locator;
    var others := xs[..k] + xs[k + 1..];
    var p := Locator(others);
    forall j | 0 <= j < |xs| && j != k
      ensures Eval(p, xs[j]) == 0
    {
      var i := if j < k then j else j - 1;
      assert others[i] == xs[j];
      LocatorRoot(others, i);
    }
    LocatorLead(others);
    if Eval(p, xs[k]) == 0 {
      RootsDetermine(p, xs);
      assert false;
    }
  }

  // ---------------------------------------------------------------- syndrome_matrix

  ghost predicate Ascending(numbers: seq<nat>) {
    forall i, j :: 0 <= i < j < |numbers| ==> numbers[i] < numbers[j]
  }

  function PointsOf(numbers: seq<nat>): (xs: seq<Elem>)
    ensures |xs| == |numbers|
  {
    seq(|numbers|, i requires 0 <= i < |numbers| => Point(numbers[i]))
  }

  /** Marks the shares that are present. */
  method Presence(total: nat, numbers: seq<nat>) returns (keepers: array<bool>)
    requires forall i :: 0 <= i < |numbers| ==> numbers[i] < total
    ensures fresh(keepers) && keepers.Length == total && forall k :: 0 <= k < total ==> (keepers[k] <==> k in numbers)
  {
    keepers := new bool[total](_ => false);
    for i := 0 to |numbers|
      invariant forall k :: 0 <= k < total ==> (keepers[k] <==> k in numbers[..i])
    {
      keepers[numbers[i]] := true;
      assert numbers[..i + 1] == numbers[..i] + [numbers[i]];
    }
    assert numbers[..|numbers|] == numbers;
  }

  /** Selects the columns of the present shares. */
  method PresentColumns(vand: array2<Elem>, required: nat, total: nat, numbers: seq<nat>) returns (out: array2<Elem>)
    requires vand.Length0 == required && vand.Length1 == total
    requires Ascending(numbers) && forall i :: 0 <= i < |numbers| ==> numbers[i] < total
    ensures fresh(out) && out.Length0 == required && out.Length1 == |numbers|
    ensures forall r, j :: 0 <= r < required && 0 <= j < |numbers| ==> out[r, j] == vand[r, numbers[j]]
  {
    var keepers := Presence(total, numbers);
    out := new Elem[required, |numbers|]((i, j) => 0);
    for row := 0 to required
      invariant forall k :: 0 <= k < total ==> (keepers[k] <==> k in numbers)
      invariant forall r, j :: 0 <= r < row && 0 <= j < |numbers| ==> out[r, j] == vand[r, numbers[j]]
    {
      PresentRow(vand, total, numbers, keepers, out, row);
    }
  }

  method PresentRow(vand: array2<Elem>, total: nat, numbers: seq<nat>, keepers: array<bool>, out: array2<Elem>, row: nat)
    requires vand.Length0 == out.Length0 && vand.Length1 == total && out.Length1 == |numbers| && out != vand
    requires Ascending(numbers) && forall i :: 0 <= i < |numbers| ==> numbers[i] < total
    requires keepers.Length == total && forall k :: 0 <= k < total ==> (keepers[k] <==> k in numbers)
    requires row < out.Length0 && out as object != keepers
    modifies out
    ensures forall j :: 0 <= j < |numbers| ==> out[row, j] == vand[row, numbers[j]]
    ensures forall r, j :: 0 <= r < out.Length0 && 0 <= j < |numbers| && r != row ==> out[r, j] == old(out[r, j])
  {
    var skipped := 0;
    for col := 0 to total
      invariant skipped <= col && col - skipped <= |numbers|
      invariant forall j :: 0 <= j < col - skipped ==> numbers[j] < col
      invariant forall j :: col - skipped <= j < |numbers| ==> col <= numbers[j]
      invariant forall j :: 0 <= j < col - skipped ==> out[row, j] == vand[row, numbers[j]]
      invariant forall r, j :: 0 <= r < out.Length0 && 0 <= j < |numbers| && r != row ==> out[r, j] == old(out[r, j])
    {
      if !keepers[col] {
        skipped := skipped + 1;
      } else {
        NextPresent(numbers, col, col - skipped);
        out[row, col - skipped] := vand[row, col];
      }
    }
  }

  lemma NextPresent(numbers: seq<nat>, col: nat, idx: nat)
    requires Ascending(numbers) && col in numbers && idx <= |numbers|
    requires forall j :: 0 <= j < idx ==> numbers[j] < col
    requires forall j :: idx <= j < |numbers| ==> col <= numbers[j]
    ensures idx < |numbers| && numbers[idx] == col
  {
    var j :| 0 <= j < |numbers| && numbers[j] == col;
    assert j >= idx;
  }

  /** `syndrome_matrix`: the parity rows vanish on the received bytes exactly when they are a codeword. */
  method SyndromeMatrix(vand: array2<Elem>, required: nat, total: nat, numbers: seq<nat>) returns (parity: array2<Elem>)
    requires vand.Length0 == required && vand.Length1 == total <= 256
    requires forall r, c :: 0 <= r < required && 0 <= c < total ==> vand[r, c] == Exp(Point(c), r)
    requires Ascending(numbers) && (forall i :: 0 <= i < |numbers| ==> numbers[i] < total) && required <= |numbers|
    ensures fresh(parity) && parity.Length0 == |numbers| - required && parity.Length1 == |numbers|
    ensures forall v: Row :: |v| == |numbers| ==>
              ((forall i :: 0 <= i < |numbers| - required ==> Dot(View(parity)[i], v) == 0) <==> IsCodeword(PointsOf(numbers), v, required))
  {
    hide Dot, IsCodeword, SameSpan, HasKernel, Identity, Exp, Point;
    var out := PresentColumns(vand, required, total, numbers);
    ghost var start, xs := View(out), PointsOf(numbers);
    var c := |numbers|;
    assert IsVandermonde(start, xs, required);
    PresentRegular(start, numbers, required);
    StandardizeMatrix(out, required, c);
    ghost var m := View(out);
    parity := new Elem[c - required, c]((i, j) => 0);
    ParityMatrix(out, required, c, parity);
    forall v: Row | |v| == c
      ensures (forall i :: 0 <= i < c - required ==> Dot(View(parity)[i], v) == 0) <==> IsCodeword(xs, v, required)
    {
      SyndromeDecides(start, m, numbers, required, v);
      SameRows(View(parity), m, required, c, v);
    }
  }

  lemma SameRows(h: Matrix, m: Matrix, r: nat, c: nat, v: Row)
    requires IsMatrix(m, r, c) && r <= c == |v| && IsMatrix(h, c - r, c)
    requires forall i :: 0 <= i < c - r ==> h[i] == ParityRow(m, r, c, i)
    ensures Vanishes(m, r, c, v) <==> forall i :: 0 <= i < c - r ==> Dot(h[i], v) == 0
  {
    hide Dot, ParityRow;
    if forall i :: 0 <= i < c - r ==> Dot(h[i], v) == 0 {
      forall i | 0 <= i < c - r
        ensures Dot(ParityRow(m, r, c, i), v) == 0
      {
        assert Dot(h[i], v) == 0;
      }
    }
  }

  lemma PresentRegular(m: Matrix, numbers: seq<nat>, r: nat)
    requires IsVandermonde(m, PointsOf(numbers), r) && Ascending(numbers) && r <= |numbers|
    requires forall i :: 0 <= i < |numbers| ==> numbers[i] < 256
    ensures !HasKernel(Left(m, r, |numbers|), r)
  {
    hide Exp, Point, HasKernel;
    var xs := PointsOf(numbers)[..r];
    forall i, j | 0 <= i < j < r
      ensures xs[i] != xs[j]
    {
      PointsDiffer(numbers[i], numbers[j]);
    }
    VandermondeRegular(Left(m, r, |numbers|), xs, r);
  }

  lemma SyndromeDecides(start: Matrix, m: Matrix, numbers: seq<nat>, r: nat, v: Row)
    requires IsVandermonde(start, PointsOf(numbers), r) && r <= |numbers| == |v|
    requires IsMatrix(m, r, |numbers|) && SameSpan(m, start, |numbers|) && Left(m, r, |numbers|) == Identity(r)
    ensures Vanishes(m, r, |numbers|, v) <==> IsCodeword(PointsOf(numbers), v, r)
  {
    hide InSpan, IsCodeword, Vanishes;
    ParityRecognises(m, r, |numbers|, v);
    SpanIsCodewords(start, PointsOf(numbers), r, v);
  }
}
