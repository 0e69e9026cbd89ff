/** Gauss-Jordan inversion. The row-major byte buffers of the source are two-dimensional arrays here. */
module GfMatrix {
  import opened Gf256

  type Row = seq<Elem>
  type Matrix = seq<Row>

  ghost predicate IsMatrix(m: Matrix, r: nat, c: nat) {
    |m| == r && forall i :: 0 <= i < r ==> |m[i]| == c
  }

  function View(a: array2<Elem>): (m: Matrix)
    reads a
  {
    seq(a.Length0, i requires 0 <= i < a.Length0 reads a =>
      seq(a.Length1, j requires 0 <= j < a.Length1 reads a => a[i, j]))
  }

  lemma ViewShape(a: array2<Elem>)
    ensures IsMatrix(View(a), a.Length0, a.Length1)
    ensures forall i, j :: 0 <= i < a.Length0 && 0 <= j < a.Length1 ==> View(a)[i][j] == a[i, j]
  {
  }

  function Dot(x: Row, u: Row): Elem
    requires |x| == |u|
  {
    if x == [] then 0 else Add(Mul(x[0], u[0]), Dot(x[1..], u[1..]))
  }

  function AddRow(x: Row, y: Row, f: Elem): (z: Row)
    requires |x| == |y|
    ensures |z| == |x|
  {
    seq(|x|, j requires 0 <= j < |x| => Add(x[j], Mul(f, y[j])))
  }

  function ScaleRow(f: Elem, x: Row): (z: Row)
    ensures |z| == |x|
  {
    seq(|x|, j requires 0 <= j < |x| => Mul(f, x[j]))
  }

  lemma {:induction false} DotAddRow(x: Row, y: Row, f: Elem, u: Row)
    requires |x| == |y| == |u|
    ensures Dot(AddRow(x, y, f), u) == Add(Dot(x, u), Mul(f, Dot(y, u)))
  {
    hide Mul, Add;
    if x == [] {
      MulOne(f);
      AddLaws(0, 0, 0);
    } else {
      assert AddRow(x, y, f)[1..] == AddRow(x[1..], y[1..], f);
      DotAddRow(x[1..], y[1..], f, u[1..]);
      var d := Dot(y[1..], u[1..]);
      MulAdd(u[0], x[0], Mul(f, y[0]));
      MulAssoc(f, y[0], u[0]);
      MulAdd(f, Mul(y[0], u[0]), d);
      AddSwap(Mul(x[0], u[0]), Mul(f, Mul(y[0], u[0])), Dot(x[1..], u[1..]), Mul(f, d));
    }
  }

  lemma {:induction false} DotScaleRow(f: Elem, x: Row, u: Row)
    requires |x| == |u|
    ensures Dot(ScaleRow(f, x), u) == Mul(f, Dot(x, u))
  {
    hide Mul, Add;
    MulOne(f);
    if x != [] {
      assert ScaleRow(f, x)[1..] == ScaleRow(f, x[1..]);
      DotScaleRow(f, x[1..], u[1..]);
      MulAssoc(f, x[0], u[0]);
      MulAdd(f, Mul(x[0], u[0]), Dot(x[1..], u[1..]));
    }
  }

  // ---------------------------------------------------------------- systems of equations

  /** M u = O f, row by row. */
  ghost predicate Holds(m: Matrix, o: Matrix, u: Row, f: Row) {
    |m| == |o| && forall i :: 0 <= i < |m| ==> |m[i]| == |u| && |o[i]| == |f| && Dot(m[i], u) == Dot(o[i], f)
  }

  /** The two systems have the same solutions for all unknowns and all right-hand sides. */
  ghost predicate SameSolutions(m: Matrix, o: Matrix, m': Matrix, o': Matrix, k: nat) {
    forall u: Row, f: Row :: |u| == k && |f| == k ==> (Holds(m, o, u, f) <==> Holds(m', o', u, f))
  }

  function SwappedRows(m: Matrix, a: nat, b: nat): Matrix
    requires a < |m| && b < |m|
  {
    m[a := m[b]][b := m[a]]
  }

  function AddedRows(m: Matrix, a: nat, b: nat, f: Elem): Matrix
    requires a < |m| && b < |m| && |m[a]| == |m[b]|
  {
    m[b := AddRow(m[b], m[a], f)]
  }

  function ScaledRow(m: Matrix, i: nat, f: Elem): Matrix
    requires i < |m|
  {
    m[i := ScaleRow(f, m[i])]
  }

  lemma SwapKeeps(m: Matrix, o: Matrix, k: nat, a: nat, b: nat)
    requires IsMatrix(m, k, k) && IsMatrix(o, k, k) && a < k && b < k
    ensures IsMatrix(SwappedRows(m, a, b), k, k) && IsMatrix(SwappedRows(o, a, b), k, k)
    ensures SameSolutions(SwappedRows(m, a, b), SwappedRows(o, a, b), m, o, k)
  {
    hide Dot;
    var m', o' := SwappedRows(m, a, b), SwappedRows(o, a, b);
    forall u: Row, f: Row | |u| == k && |f| == k
      ensures Holds(m', o', u, f) <==> Holds(m, o, u, f)
    {
      assert m'[a] == m[b] && m'[b] == m[a] && o'[a] == o[b] && o'[b] == o[a];
      if Holds(m', o', u, f) {
        forall i | 0 <= i < k
          ensures Dot(m[i], u) == Dot(o[i], f)
        {
          var j := if i == a then b else if i == b then a else i;
          assert m'[j] == m[i] && o'[j] == o[i];
        }
      }
    }
  }

  lemma AddKeeps(m: Matrix, o: Matrix, k: nat, a: nat, b: nat, c: Elem)
    requires IsMatrix(m, k, k) && IsMatrix(o, k, k) && a < k && b < k && a != b
    ensures IsMatrix(AddedRows(m, a, b, c), k, k) && IsMatrix(AddedRows(o, a, b, c), k, k)
    ensures SameSolutions(AddedRows(m, a, b, c), AddedRows(o, a, b, c), m, o, k)
  {
    hide Dot, Add, Mul, AddRow;
    var m', o' := AddedRows(m, a, b, c), AddedRows(o, a, b, c);
    forall u: Row, f: Row | |u| == k && |f| == k
      ensures Holds(m', o', u, f) <==> Holds(m, o, u, f)
    {
      DotAddRow(m[b], m[a], c, u);
      DotAddRow(o[b], o[a], c, f);
      assert m'[a] == m[a] && o'[a] == o[a];
      AddBoth(Dot(m[b], u), Dot(o[b], f), Mul(c, Dot(m[a], u)));
      if Holds(m', o', u, f) {
        assert Dot(m'[a], u) == Dot(o'[a], f) && Dot(m'[b], u) == Dot(o'[b], f);
        forall i | 0 <= i < k
          ensures Dot(m[i], u) == Dot(o[i], f)
        {
          if i != b {
            assert m'[i] == m[i] && o'[i] == o[i];
          }
        }
      }
    }
  }

  lemma AddBoth(x: Elem, y: Elem, z: Elem)
    ensures Add(x, z) == Add(y, z) <==> x == y
  {
  }

  lemma ScaleKeeps(m: Matrix, o: Matrix, k: nat, i: nat, c: Elem)
    requires IsMatrix(m, k, k) && IsMatrix(o, k, k) && i < k && c != 0
    ensures IsMatrix(ScaledRow(m, i, c), k, k) && IsMatrix(ScaledRow(o, i, c), k, k)
    ensures SameSolutions(ScaledRow(m, i, c), ScaledRow(o, i, c), m, o, k)
  {
    hide Dot, Mul, ScaleRow;
    var m', o' := ScaledRow(m, i, c), ScaledRow(o, i, c);
    forall u: Row, f: Row | |u| == k && |f| == k
      ensures Holds(m', o', u, f) <==> Holds(m, o, u, f)
    {
      DotScaleRow(c, m[i], u);
      DotScaleRow(c, o[i], f);
      MulComm(c, Dot(m[i], u));
      MulComm(c, Dot(o[i], f));
      if Mul(c, Dot(m[i], u)) == Mul(c, Dot(o[i], f)) {
        MulCancel(Dot(m[i], u), Dot(o[i], f), c);
      }
      if Holds(m', o', u, f) {
        assert Dot(m'[i], u) == Dot(o'[i], f);
        forall j | 0 <= j < k
          ensures Dot(m[j], u) == Dot(o[j], f)
        {
          if j != i {
            assert m'[j] == m[j] && o'[j] == o[j];
          }
        }
      }
    }
  }

  lemma SameSolutionsTrans(m: Matrix, o: Matrix, m': Matrix, o': Matrix, m'': Matrix, o'': Matrix, k: nat)
    requires SameSolutions(m, o, m', o', k) && SameSolutions(m', o', m'', o'', k)
    ensures SameSolutions(m, o, m'', o'', k)
  {
    hide Holds;
  }

  // ---------------------------------------------------------------- identity, inverse, kernel

  function Unit(k: nat, i: nat): (x: Row)
    ensures |x| == k
  {
    seq(k, j => if j == i then 1 else 0)
  }

  function Identity(k: nat): (m: Matrix)
    ensures IsMatrix(m, k, k)
  {
    seq(k, i requires 0 <= i < k => Unit(k, i))
  }

  lemma StartsAsIdentity(a: array2<Elem>, k: nat)
    requires a.Length0 == a.Length1 == k
    requires forall i, j :: 0 <= i < k && 0 <= j < k ==> a[i, j] == if i == j then 1 else 0
    ensures View(a) == Identity(k)
  {
    forall i | 0 <= i < k
      ensures View(a)[i] == Identity(k)[i]
    {
    }
  }

  function ZeroRow(k: nat): (x: Row)
    ensures |x| == k
  {
    seq(k, _ => 0)
  }

  ghost predicate IsZero(u: Row) {
    forall i :: 0 <= i < |u| ==> u[i] == 0
  }

  lemma {:induction false} DotZero(x: Row, u: Row)
    requires |x| == |u| && (IsZero(x) || IsZero(u))
    ensures Dot(x, u) == 0
  {
    hide Mul, Add;
    if x != [] {
      DotZero(x[1..], u[1..]);
      MulOne(x[0]);
      MulOne(u[0]);
      AddLaws(0, 0, 0);
    }
  }

  lemma {:induction false} DotUnit(k: nat, i: nat, u: Row)
    requires |u| == k && i < k
    ensures Dot(Unit(k, i), u) == u[i]
  {
    hide Mul, Add;
    var x := Unit(k, i);
    MulOne(u[0]);
    if i == 0 {
      DotZero(x[1..], u[1..]);
      AddLaws(u[0], 0, 0);
    } else {
      assert x[1..] == Unit(k - 1, i - 1);
      DotUnit(k - 1, i - 1, u[1..]);
      AddLaws(u[i], 0, 0);
    }
  }

  lemma {:induction false} DotConcat(x: Row, y: Row, u: Row, v: Row)
    requires |x| == |u| && |y| == |v|
    ensures Dot(x + y, u + v) == Add(Dot(x, u), Dot(y, v))
  {
    hide Mul, Add;
    AddLaws(Dot(y, v), 0, 0);
    if x == [] {
      assert x + y == y && u + v == v;
    } else {
      assert (x + y)[1..] == x[1..] + y && (u + v)[1..] == u[1..] + v;
      DotConcat(x[1..], y, u[1..], v);
      AddLaws(Mul(x[0], u[0]), Dot(x[1..], u[1..]), Dot(y, v));
    }
  }

  lemma DotEmpty(x: Row, y: Row)
    requires |x| == |y| == 0
    ensures Dot(x, y) == 0
  {
  }

  lemma DotSnoc(x: Row, y: Row, n: nat)
    requires 0 < n <= |x| && n <= |y|
    ensures Dot(x[..n], y[..n]) == Add(Dot(x[..n - 1], y[..n - 1]), Mul(x[n - 1], y[n - 1]))
  {
    hide Mul, Add;
    assert x[..n] == x[..n - 1] + [x[n - 1]] && y[..n] == y[..n - 1] + [y[n - 1]];
    DotConcat(x[..n - 1], [x[n - 1]], y[..n - 1], [y[n - 1]]);
    var u, v := [x[n - 1]], [y[n - 1]];
    assert u[1..] == [] && v[1..] == [];
    assert Dot(u, v) == Add(Mul(u[0], v[0]), Dot(u[1..], v[1..]));
    AddLaws(Mul(x[n - 1], y[n - 1]), 0, 0);
  }

  /** Matrix times vector. */
  function Apply(m: Matrix, u: Row): (v: Row)
    requires forall i :: 0 <= i < |m| ==> |m[i]| == |u|
    ensures |v| == |m|
  {
    seq(|m|, i requires 0 <= i < |m| => Dot(m[i], u))
  }

  lemma HoldsIsEquation(m: Matrix, o: Matrix, u: Row, f: Row)
    requires IsMatrix(m, |u|, |u|) && IsMatrix(o, |f|, |f|) && |u| == |f|
    ensures Holds(m, o, u, f) <==> Apply(m, u) == Apply(o, f)
  {
    hide Dot;
    if Holds(m, o, u, f) {
      assert Apply(m, u) == Apply(o, f);
    } else {
      var i :| 0 <= i < |m| && Dot(m[i], u) != Dot(o[i], f);
      assert Apply(m, u)[i] != Apply(o, f)[i];
    }
  }

  lemma ApplyIdentity(k: nat, u: Row)
    requires |u| == k
    ensures Apply(Identity(k), u) == u
  {
    hide Dot;
    forall i | 0 <= i < k
      ensures Dot(Identity(k)[i], u) == u[i]
    {
      DotUnit(k, i, u);
    }
  }

  /** A two-sided inverse, as operators on vectors. */
  ghost predicate IsInverse(a: Matrix, b: Matrix, k: nat)
    requires IsMatrix(a, k, k) && IsMatrix(b, k, k)
  {
    forall u: Row :: |u| == k ==> Apply(b, Apply(a, u)) == u && Apply(a, Apply(b, u)) == u
  }

  ghost predicate HasKernel(a: Matrix, k: nat)
    requires IsMatrix(a, k, k)
  {
    exists u: Row :: |u| == k && !IsZero(u) && IsZero(Apply(a, u))
  }

  /** If elimination has turned the left side into the identity, the right side is the inverse. */
  lemma IdentityMeansInverse(a: Matrix, o: Matrix, k: nat)
    requires IsMatrix(a, k, k) && IsMatrix(o, k, k)
    requires SameSolutions(Identity(k), o, a, Identity(k), k)
    ensures IsInverse(a, o, k) && !HasKernel(a, k)
  {
    hide Dot, Apply, SameSolutions, Identity;
    forall u: Row | |u| == k
      ensures Apply(o, Apply(a, u)) == u && Apply(a, Apply(o, u)) == u
    {
      Solved(a, o, k, u, Apply(a, u));
      Solved(a, o, k, Apply(o, u), u);
    }
    if HasKernel(a, k) {
      var u: Row :| |u| == k && !IsZero(u) && IsZero(Apply(a, u));
      ApplyZero(o, Apply(a, u));
      assert false;
    }
  }

  lemma Solved(a: Matrix, o: Matrix, k: nat, u: Row, f: Row)
    requires IsMatrix(a, k, k) && IsMatrix(o, k, k) && |u| == k && |f| == k
    requires SameSolutions(Identity(k), o, a, Identity(k), k)
    ensures u == Apply(o, f) <==> Apply(a, u) == f
  {
    hide Dot, Apply, Identity;
    HoldsIsEquation(Identity(k), o, u, f);
    HoldsIsEquation(a, Identity(k), u, f);
    ApplyIdentity(k, u);
    ApplyIdentity(k, f);
  }

  lemma ApplyZero(m: Matrix, u: Row)
    requires forall i :: 0 <= i < |m| ==> |m[i]| == |u|
    requires IsZero(u)
    ensures IsZero(Apply(m, u))
  {
    hide Dot;
    forall i | 0 <= i < |m|
      ensures Dot(m[i], u) == 0
    {
      DotZero(m[i], u);
    }
  }

  // ---------------------------------------------------------------- a column without pivot

  /** The first i columns are those of a unit upper triangular matrix. */
  ghost predicate Eliminated(m: Matrix, k: nat, i: nat) {
    && IsMatrix(m, k, k) && i <= k
    && forall c, r :: 0 <= c < i && c <= r < k ==> m[r][c] == if r == c then 1 else 0
  }

  lemma {:induction false} DotTermwise(x: Row, u: Row)
    requires |x| == |u| && forall j :: 0 <= j < |x| ==> x[j] == 0 || u[j] == 0
    ensures Dot(x, u) == 0
  {
    hide Mul, Add;
    if x != [] {
      assert x[0] == 0 || u[0] == 0;
      forall j | 0 <= j < |x| - 1
        ensures x[1..][j] == 0 || u[1..][j] == 0
      {
        assert x[j + 1] == 0 || u[j + 1] == 0;
      }
      DotTermwise(x[1..], u[1..]);
      MulOne(x[0]);
      MulOne(u[0]);
      AddLaws(0, 0, 0);
    }
  }

  lemma {:induction false} DotSkip(x: Row, u: Row, r: nat)
    requires |x| == |u| && r <= |x| && forall j :: 0 <= j < r ==> x[j] == 0
    ensures Dot(x, u) == Dot(x[r..], u[r..])
  {
    hide Mul, Add;
    if r == 0 {
      assert x[0..] == x && u[0..] == u;
    } else {
      DotSkip(x[1..], u[1..], r - 1);
      assert x[1..][r - 1..] == x[r..] && u[1..][r - 1..] == u[r..];
      MulOne(u[0]);
      AddLaws(Dot(x[1..], u[1..]), 0, 0);
    }
  }

  /** Entries c.. of the vector that back substitution builds from a 1 at place i. */
  function KernelTail(m: Matrix, k: nat, i: nat, c: nat): (t: Row)
    requires IsMatrix(m, k, k) && c <= i < k
    ensures |t| == k - c
    decreases i - c
  {
    if c == i then [1] + ZeroRow(k - i - 1)
    else
      var t := KernelTail(m, k, i, c + 1);
      [Dot(m[c][c + 1..], t)] + t
  }

  lemma {:induction false} KernelTailDrop(m: Matrix, k: nat, i: nat, c: nat, r: nat)
    requires IsMatrix(m, k, k) && c <= r <= i < k
    ensures KernelTail(m, k, i, c)[r - c..] == KernelTail(m, k, i, r)
    decreases r - c
  {
    hide Dot;
    if c < r {
      KernelTailDrop(m, k, i, c + 1, r);
      assert KernelTail(m, k, i, c)[r - c..] == KernelTail(m, k, i, c + 1)[r - c - 1..];
    }
  }

  lemma KernelRow(m: Matrix, k: nat, i: nat, r: nat)
    requires Eliminated(m, k, i) && i < k && r < k
    requires forall j :: i <= j < k ==> m[j][i] == 0
    ensures Dot(m[r], KernelTail(m, k, i, 0)) == 0
  {
    hide Mul, Add;
    var v := KernelTail(m, k, i, 0);
    if r < i {
      KernelTailDrop(m, k, i, 0, r);
      DotSkip(m[r], v, r);
      var x, t := m[r][r..], KernelTail(m, k, i, r);
      assert x[0] == m[r][r] == 1 && x[1..] == m[r][r + 1..];
      assert t[0] == Dot(m[r][r + 1..], KernelTail(m, k, i, r + 1)) && t[1..] == KernelTail(m, k, i, r + 1);
      MulOne(t[0]);
      AddLaws(t[0], t[0], 0);
    } else {
      KernelTailDrop(m, k, i, 0, i);
      forall j | 0 <= j < k
        ensures m[r][j] == 0 || v[j] == 0
      {
        if j > i {
          assert v[j] == v[i..][j - i];
        }
      }
      DotTermwise(m[r], v);
    }
  }

  /** The vector ends with a one at place c. */
  ghost predicate EndsAt(v: Row, k: nat, c: nat) {
    |v| == k && c < k && v[c] == 1 && forall j :: c < j < k ==> v[j] == 0
  }

  /** Column c is a combination of the columns before it. */
  ghost predicate Depends(a: Matrix, k: nat, c: nat)
    requires IsMatrix(a, k, k)
  {
    exists v: Row :: EndsAt(v, k, c) && IsZero(Apply(a, v))
  }

  /** The first t columns are independent and span all others. */
  ghost predicate Leads(a: Matrix, k: nat, t: nat)
    requires IsMatrix(a, k, k)
  {
    t <= k && forall c: nat :: c < k ==> (Depends(a, k, c) <==> t <= c)
  }

  lemma LeadsUnique(a: Matrix, k: nat, s: nat, t: nat)
    requires IsMatrix(a, k, k) && Leads(a, k, s) && Leads(a, k, t)
    ensures s == t
  {
    hide Depends;
    assert s < k ==> Depends(a, k, s);
    assert t < k ==> Depends(a, k, t);
  }

  lemma DependsMeansKernel(a: Matrix, k: nat, c: nat)
    requires IsMatrix(a, k, k) && Depends(a, k, c)
    ensures HasKernel(a, k)
  {
    hide Apply;
    var v: Row :| EndsAt(v, k, c) && IsZero(Apply(a, v));
    assert !IsZero(v);
  }

  /** Without a kernel all columns are independent. */
  lemma NoKernelLeads(a: Matrix, k: nat)
    requires IsMatrix(a, k, k) && !HasKernel(a, k)
    ensures Leads(a, k, k)
  {
    hide Depends, HasKernel;
    forall c: nat | c < k
      ensures !Depends(a, k, c)
    {
      if Depends(a, k, c) {
        DependsMeansKernel(a, k, c);
      }
    }
  }

  /** A column whose remaining entries are all zero is a combination of the columns before it. */
  lemma NoPivotMeansDepends(m: Matrix, o: Matrix, a: Matrix, k: nat, i: nat)
    requires Eliminated(m, k, i) && i < k && IsMatrix(o, k, k) && IsMatrix(a, k, k)
    requires forall j :: i <= j < k ==> m[j][i] == 0
    requires SameSolutions(m, o, a, Identity(k), k)
    ensures Depends(a, k, i)
  {
    hide Dot, Identity, Apply, KernelTail;
    var v, z := KernelTail(m, k, i, 0), ZeroRow(k);
    forall r | 0 <= r < k
      ensures Dot(m[r], v) == Dot(o[r], z)
    {
      KernelRow(m, k, i, r);
      DotZero(o[r], z);
    }
    assert Holds(m, o, v, z);
    HoldsIsEquation(a, Identity(k), v, z);
    ApplyIdentity(k, z);
    KernelEnds(m, k, i);
  }

  /** It betrays a non-trivial kernel of the original matrix. */
  lemma NoPivotMeansKernel(m: Matrix, o: Matrix, a: Matrix, k: nat, i: nat)
    requires Eliminated(m, k, i) && i < k && IsMatrix(o, k, k) && IsMatrix(a, k, k)
    requires forall j :: i <= j < k ==> m[j][i] == 0
    requires SameSolutions(m, o, a, Identity(k), k)
    ensures HasKernel(a, k)
  {
    NoPivotMeansDepends(m, o, a, k, i);
    DependsMeansKernel(a, k, i);
  }

  lemma KernelEnds(m: Matrix, k: nat, i: nat)
    requires IsMatrix(m, k, k) && i < k
    ensures EndsAt(KernelTail(m, k, i, 0), k, i)
  {
    hide Dot;
    KernelTailDrop(m, k, i, 0, i);
    var v, t := KernelTail(m, k, i, 0), KernelTail(m, k, i, i);
    assert t == [1] + ZeroRow(k - i - 1);
    forall j | i <= j < k
      ensures v[j] == t[j - i]
    {
      assert v[i..][j - i] == v[j];
    }
  }

  // ---------------------------------------------------------------- rows left over without pivot

  /** The first t columns are eliminated and the rows from t on are zero. */
  ghost predicate Echelon(m: Matrix, k: nat, t: nat) {
    Eliminated(m, k, t) && forall r, c :: t <= r < k && 0 <= c < k ==> m[r][c] == 0
  }

  /** A row without entries before c, applied to a vector that ends with a one at c. */
  lemma DotAtEnd(x: Row, v: Row, k: nat, c: nat)
    requires |x| == k && EndsAt(v, k, c) && forall j :: 0 <= j < c ==> x[j] == 0
    ensures Dot(x, v) == x[c]
  {
    hide Mul, Add;
    DotSkip(x, v, c);
    var y, w := x[c..], v[c..];
    assert y[1..] == x[c + 1..] && w[1..] == v[c + 1..];
    DotZero(y[1..], w[1..]);
    MulOne(x[c]);
    AddLaws(x[c], 0, 0);
  }

  /** The rows below the last pivot are zero: each further column depends on earlier ones. */
  lemma {:induction false} LeftoverRow(m: Matrix, o: Matrix, a: Matrix, k: nat, t: nat, r: nat, c: nat)
    requires Eliminated(m, k, t) && IsMatrix(o, k, k) && IsMatrix(a, k, k) && t <= r < k && c <= k
    requires SameSolutions(m, o, a, Identity(k), k) && Leads(a, k, t)
    ensures forall j :: 0 <= j < c ==> m[r][j] == 0
  {
    hide Dot, Identity, SameSolutions;
    if c > 0 {
      var d := c - 1;
      LeftoverRow(m, o, a, k, t, r, d);
      if t <= d {
        assert Depends(a, k, d);
        var v: Row :| EndsAt(v, k, d) && IsZero(Apply(a, v));
        EndsLength(v, k, d);
        KernelCarries(m, o, a, k, v);
        DotAtEnd(m[r], v, k, d);
        assert Apply(m, v)[r] == Dot(m[r], v);
      }
    }
  }

  lemma EndsLength(v: Row, k: nat, c: nat)
    requires EndsAt(v, k, c)
    ensures |v| == k
  {
  }

  /** Row operations keep the kernel. */
  lemma KernelCarries(m: Matrix, o: Matrix, a: Matrix, k: nat, v: Row)
    requires IsMatrix(m, k, k) && IsMatrix(o, k, k) && IsMatrix(a, k, k) && |v| == k
    requires SameSolutions(m, o, a, Identity(k), k) && IsZero(Apply(a, v))
    ensures IsZero(Apply(m, v))
  {
    hide Dot, Identity, Apply;
    var z := ZeroRow(k);
    assert Apply(a, v) == z;
    ApplyIdentity(k, z);
    HoldsIsEquation(a, Identity(k), v, z);
    HoldsIsEquation(m, o, v, z);
    ApplyZero(o, z);
  }

  lemma LeftoverRows(m: Matrix, o: Matrix, a: Matrix, k: nat, t: nat)
    requires Eliminated(m, k, t) && IsMatrix(o, k, k) && IsMatrix(a, k, k)
    requires SameSolutions(m, o, a, Identity(k), k) && Leads(a, k, t)
    ensures Echelon(m, k, t)
  {
    hide Identity, SameSolutions, Leads;
    forall r | t <= r < k
      ensures forall c :: 0 <= c < k ==> m[r][c] == 0
    {
      LeftoverRow(m, o, a, k, t, r, k);
    }
  }

  /** The leading t columns are those of the identity, and the rows from t on are zero. */
  ghost predicate ReducedTo(m: Matrix, k: nat, t: nat) {
    && IsMatrix(m, k, k) && t <= k
    && (forall r, c :: 0 <= r < k && 0 <= c < t ==> m[r][c] == if r == c then 1 else 0)
    && (forall r, c :: t <= r < k && 0 <= c < k ==> m[r][c] == 0)
  }

  lemma ReducedIsIdentity(m: Matrix, k: nat)
    requires ReducedTo(m, k, k)
    ensures m == Identity(k)
  {
    forall r | 0 <= r < k
      ensures m[r] == Identity(k)[r]
    {
      forall c | 0 <= c < k
        ensures m[r][c] == Unit(k, r)[c]
      {
      }
    }
  }

  /** The ones on its diagonal show whether every pivot was found. */
  lemma DiagonalShowsPivots(m: Matrix, k: nat, t: nat)
    requires ReducedTo(m, k, t)
    ensures (forall i :: 0 <= i < k ==> m[i][i] == 1) <==> t == k
  {
    if t < k {
      assert m[t][t] == 0;
    }
  }

  /** A reduced matrix leaves a vector unchanged that vanishes from t on. */
  lemma ReducedKeeps(m: Matrix, k: nat, t: nat, u: Row)
    requires ReducedTo(m, k, t) && |u| == k && forall c :: t <= c < k ==> u[c] == 0
    ensures Apply(m, u) == u
  {
    hide Dot, Mul, Add;
    forall r | 0 <= r < k
      ensures Dot(m[r], u) == u[r]
    {
      if t <= r {
        DotZero(m[r], u);
      } else {
        var x := AddRow(m[r], Unit(k, r), 1);
        forall c | 0 <= c < k
          ensures x[c] == 0 || u[c] == 0
        {
          MulOne(Unit(k, r)[c]);
          AddLaws(m[r][c], Unit(k, r)[c], 0);
        }
        DotTermwise(x, u);
        DotAddRow(m[r], Unit(k, r), 1, u);
        DotUnit(k, r, u);
        MulOne(u[r]);
        AddLaws(Dot(m[r], u), u[r], 0);
      }
    }
  }

  ghost predicate Solvable(a: Matrix, f: Row, k: nat)
    requires IsMatrix(a, k, k)
  {
    exists u: Row :: |u| == k && Apply(a, u) == f
  }

  /** Then the companion solves every system that has a solution, whether or not all pivots were found. */
  lemma ReducedSolves(m: Matrix, o: Matrix, a: Matrix, k: nat, t: nat, f: Row)
    requires ReducedTo(m, k, t) && IsMatrix(o, k, k) && IsMatrix(a, k, k) && |f| == k
    requires SameSolutions(m, o, a, Identity(k), k) && Solvable(a, f, k)
    ensures Apply(a, Apply(o, f)) == f
  {
    hide Dot, Identity;
    var u: Row :| |u| == k && Apply(a, u) == f;
    ApplyIdentity(k, f);
    HoldsIsEquation(a, Identity(k), u, f);
    HoldsIsEquation(m, o, u, f);
    var w := Apply(o, f);
    assert w == Apply(m, u);
    forall c | t <= c < k
      ensures w[c] == 0
    {
      DotZero(m[c], u);
    }
    ReducedKeeps(m, k, t, w);
    HoldsIsEquation(m, o, w, f);
    HoldsIsEquation(a, Identity(k), w, f);
  }

  lemma InverseSolves(a: Matrix, o: Matrix, k: nat, f: Row)
    requires IsMatrix(a, k, k) && IsMatrix(o, k, k) && |f| == k && IsInverse(a, o, k)
    ensures Apply(a, Apply(o, f)) == f
  {
    hide Apply;
  }

  // ---------------------------------------------------------------- elementary steps in place

  /** `matrix_swap_rows`. */
  method SwapRows(m: array2<Elem>, a: nat, b: nat)
    requires a < b < m.Length0
    modifies m
    ensures View(m) == SwappedRows(old(View(m)), a, b)
  {
    for j := 0 to m.Length1
      invariant forall r, c :: 0 <= r < m.Length0 && 0 <= c < m.Length1 ==>
        m[r, c] == if c < j && r == a then old(m[b, c]) else if c < j && r == b then old(m[a, c]) else old(m[r, c])
    {
      m[a, j], m[b, j] := m[b, j], m[a, j];
    }
    forall r | 0 <= r < m.Length0
      ensures View(m)[r] == SwappedRows(old(View(m)), a, b)[r]
    {
    }
  }

  /** `matrix_add_mul_rows`: row b gains fac times row a. */
  method AddMulRows(m: array2<Elem>, a: nat, b: nat, fac: Elem)
    requires a < m.Length0 && b < m.Length0 && a != b
    modifies m
    ensures View(m) == AddedRows(old(View(m)), a, b, fac)
  {
    hide Mul, Add;
    for j := 0 to m.Length1
      invariant forall r, c :: 0 <= r < m.Length0 && 0 <= c < m.Length1 ==>
        m[r, c] == if c < j && r == b then Add(old(m[b, c]), Mul(fac, old(m[a, c]))) else old(m[r, c])
    {
      m[b, j] := Add(m[b, j], Mul(fac, m[a, j]));
    }
    forall r | 0 <= r < m.Length0
      ensures View(m)[r] == AddedRows(old(View(m)), a, b, fac)[r]
    {
    }
  }

  /** `mul_slice_in_place` (scalar form) on one row. */
  method ScaleRowInPlace(m: array2<Elem>, i: nat, f: Elem)
    requires i < m.Length0
    modifies m
    ensures View(m) == ScaledRow(old(View(m)), i, f)
  {
    hide Mul;
    for j := 0 to m.Length1
      invariant forall r, c :: 0 <= r < m.Length0 && 0 <= c < m.Length1 ==>
        m[r, c] == if c < j && r == i then Mul(f, old(m[i, c])) else old(m[r, c])
    {
      m[i, j] := Mul(f, m[i, j]);
    }
    forall r | 0 <= r < m.Length0
      ensures View(m)[r] == ScaledRow(old(View(m)), i, f)[r]
    {
    }
  }

  // ---------------------------------------------------------------- the same steps on both sides of the system

  /** The working matrix, the companion and the original: shapes, and solutions unchanged so far. */
  ghost predicate Reduces(mx: array2<Elem>, out: array2<Elem>, a: Matrix, k: nat)
    reads mx, out
  {
    && mx.Length0 == mx.Length1 == out.Length0 == out.Length1 == k && mx != out
    && IsMatrix(View(mx), k, k) && IsMatrix(View(out), k, k) && IsMatrix(a, k, k)
    && SameSolutions(View(mx), View(out), a, Identity(k), k)
  }

  method SwapBoth(mx: array2<Elem>, out: array2<Elem>, i: nat, p: nat, ghost a: Matrix, ghost k: nat)
    requires Reduces(mx, out, a, k) && i < p < k
    modifies mx, out
    ensures Reduces(mx, out, a, k) && View(mx) == SwappedRows(old(View(mx)), i, p)
  {
    hide SameSolutions, SwappedRows, Identity, View;
    ghost var m, o := View(mx), View(out);
    SwapKeeps(m, o, k, i, p);
    SwapRows(mx, i, p);
    SwapRows(out, i, p);
    SameSolutionsTrans(View(mx), View(out), m, o, a, Identity(k), k);
  }

  method ScaleBoth(mx: array2<Elem>, out: array2<Elem>, i: nat, f: Elem, ghost a: Matrix, ghost k: nat)
    requires Reduces(mx, out, a, k) && i < k && f != 0
    modifies mx, out
    ensures Reduces(mx, out, a, k) && View(mx) == ScaledRow(old(View(mx)), i, f)
  {
    hide SameSolutions, ScaledRow, Identity, View;
    ghost var m, o := View(mx), View(out);
    ScaleKeeps(m, o, k, i, f);
    ScaleRowInPlace(mx, i, f);
    ScaleRowInPlace(out, i, f);
    SameSolutionsTrans(View(mx), View(out), m, o, a, Identity(k), k);
  }

  method AddBothRows(mx: array2<Elem>, out: array2<Elem>, i: nat, j: nat, f: Elem, ghost a: Matrix, ghost k: nat)
    requires Reduces(mx, out, a, k) && i < k && j < k && i != j
    modifies mx, out
    ensures Reduces(mx, out, a, k) && View(mx) == AddedRows(old(View(mx)), i, j, f)
  {
    hide SameSolutions, AddedRows, Identity, View;
    ghost var m, o := View(mx), View(out);
    AddKeeps(m, o, k, i, j, f);
    AddMulRows(mx, i, j, f);
    AddMulRows(out, i, j, f);
    SameSolutionsTrans(View(mx), View(out), m, o, a, Identity(k), k);
  }

  // ---------------------------------------------------------------- what the steps do to the shape

  lemma SwapEliminated(m: Matrix, k: nat, i: nat, p: nat)
    requires Eliminated(m, k, i) && i < p < k
    ensures Eliminated(SwappedRows(m, i, p), k, i)
  {
  }

  lemma ScaleEliminated(m: Matrix, k: nat, i: nat, f: Elem)
    requires Eliminated(m, k, i) && i < k
    ensures Eliminated(ScaledRow(m, i, f), k, i)
  {
    hide Mul;
    MulOne(f);
  }

  /** Column i is cleared in rows i + 1 .. j - 1. */
  ghost predicate Clearing(m: Matrix, k: nat, i: nat, j: nat) {
    && Eliminated(m, k, i) && i < j <= k && m[i][i] == 1
    && forall r :: i < r < j ==> m[r][i] == 0
  }

  lemma AddClears(m: Matrix, k: nat, i: nat, j: nat)
    requires Clearing(m, k, i, j) && j < k
    ensures Clearing(AddedRows(m, i, j, m[j][i]), k, i, j + 1)
  {
    hide Mul, Add;
    var f := m[j][i];
    MulOne(f);
    AddLaws(f, f, 0);
    AddLaws(0, 0, 0);
    var n := AddedRows(m, i, j, f);
    assert n[j] == AddRow(m[j], m[i], f);
    assert n[j][i] == Add(f, Mul(f, 1));
    forall c, r | 0 <= c < i && c <= r < k
      ensures n[r][c] == if r == c then 1 else 0
    {
      if r == j {
        assert n[j][c] == Add(m[j][c], Mul(f, m[i][c]));
      }
    }
  }

  /** Eliminated up to t, with the columns from i to t on already those of the identity; in column i, rows below j too. */
  ghost predicate Backward(m: Matrix, k: nat, t: nat, i: nat, j: nat) {
    && Echelon(m, k, t) && j <= i < t
    && (forall c, r :: i < c < t && 0 <= r < c ==> m[r][c] == 0)
    && (forall r :: j <= r < i ==> m[r][i] == 0)
  }

  lemma AddBackward(m: Matrix, k: nat, t: nat, i: nat, j: nat)
    requires Backward(m, k, t, i, j + 1)
    ensures Backward(AddedRows(m, i, j, m[j][i]), k, t, i, j)
  {
    hide Mul, Add;
    var f := m[j][i];
    var n := AddedRows(m, i, j, f);
    MulOne(f);
    AddLaws(f, f, 0);
    forall c | 0 <= c < t
      ensures n[j][c] == if c == i then 0 else m[j][c]
    {
      assert n[j][c] == Add(m[j][c], Mul(f, m[i][c]));
      assert c != i ==> m[i][c] == 0;
      AddLaws(m[j][c], 0, 0);
    }
  }

  lemma BackwardDone(m: Matrix, k: nat, t: nat)
    requires Echelon(m, k, t) && (0 < t ==> Backward(m, k, t, 0, 0))
    ensures ReducedTo(m, k, t)
  {
  }

  /** A zero row adds nothing. */
  lemma ZeroRowAdds(m: Matrix, k: nat, t: nat, i: nat, j: nat, f: Elem)
    requires Echelon(m, k, t) && t <= i < k && j < k
    ensures AddedRows(m, i, j, f) == m
  {
    hide Mul, Add;
    MulOne(f);
    forall c | 0 <= c < k
      ensures AddRow(m[j], m[i], f)[c] == m[j][c]
    {
      AddLaws(m[j][c], 0, 0);
    }
    assert AddRow(m[j], m[i], f) == m[j];
  }

  /** The first row from i on with a non-zero entry in column i; k if there is none. */
  method FindPivot(mx: array2<Elem>, i: nat) returns (p: nat)
    requires i < mx.Length0 && i < mx.Length1
    ensures i <= p <= mx.Length0
    ensures forall j :: i <= j < p ==> mx[j, i] == 0
    ensures p < mx.Length0 ==> mx[p, i] != 0
  {
    p := i;
    while p < mx.Length0 && mx[p, i] == 0
      invariant i <= p <= mx.Length0
      invariant forall j :: i <= j < p ==> mx[j, i] == 0
    {
      p := p + 1;
    }
  }

  /** Clearing column i below a pivot found in row p. */
  method PivotStep(mx: array2<Elem>, out: array2<Elem>, i: nat, p: nat, ghost a: Matrix, k: nat)
    requires Reduces(mx, out, a, k) && i <= p < k && mx[p, i] != 0
    modifies mx, out
    ensures Reduces(mx, out, a, k)
    ensures old(Eliminated(View(mx), k, i)) ==> Eliminated(View(mx), k, i + 1)
  {
    hide SameSolutions, SwappedRows, ScaledRow, AddedRows, Identity, Over, Mul;
    ghost var before := View(mx);
    var pivot := mx[p, i];
    if p != i {
      if Eliminated(before, k, i) {
        SwapEliminated(before, k, i, p);
      }
      SwapBoth(mx, out, i, p, a, k);
      SwappedEntry(before, i, p);
    }
    assert View(mx)[i][i] == pivot;
    ghost var swapped := View(mx);
    var inv := Over(1, pivot);
    OverLaw(1, pivot);
    if Eliminated(before, k, i) {
      ScaleEliminated(swapped, k, i, inv);
    }
    ScaleBoth(mx, out, i, inv, a, k);
    ScaledEntry(swapped, i, inv);
    for j := i + 1 to k
      invariant Reduces(mx, out, a, k)
      invariant Eliminated(before, k, i) ==> Clearing(View(mx), k, i, j)
    {
      ghost var m := View(mx);
      var fac := mx[j, i];
      assert fac == m[j][i];
      if Eliminated(before, k, i) {
        AddClears(m, k, i, j);
      }
      AddBothRows(mx, out, i, j, fac, a, k);
    }
  }

  lemma SwappedEntry(m: Matrix, i: nat, p: nat)
    requires i < |m| && p < |m|
    ensures |SwappedRows(m, i, p)| == |m| && SwappedRows(m, i, p)[i] == m[p]
  {
  }

  lemma ScaledEntry(m: Matrix, i: nat, f: Elem)
    requires i < |m|
    ensures |ScaledRow(m, i, f)| == |m| && ScaledRow(m, i, f)[i] == ScaleRow(f, m[i])
  {
  }

  /** `invert_matrix_with`, with the companion started from the identity. */
  method InvertMatrixWith(mx: array2<Elem>, k: nat, out: array2<Elem>)
    requires mx.Length0 == mx.Length1 == out.Length0 == out.Length1 == k && mx != out
    requires View(out) == Identity(k)
    modifies mx, out
    ensures Reduces(mx, out, old(View(mx)), k)
    ensures View(mx) == Identity(k) <==> !HasKernel(old(View(mx)), k)
    ensures View(mx) == Identity(k) ==> IsInverse(old(View(mx)), View(out), k)
    ensures forall t: nat :: Leads(old(View(mx)), k, t) ==> ReducedTo(View(mx), k, t)
  {
    hide SameSolutions, Identity, Mul, AddedRows, HasKernel, IsInverse, Leads, Echelon, ReducedTo;
    ghost var a := View(mx);
    ViewShape(mx);
    ViewShape(out);
    SameSolutionsRefl(a, Identity(k), k);
    ghost var leads := exists t: nat :: Leads(a, k, t);
    ghost var t: nat := k;
    if leads {
      t :| Leads(a, k, t);
    }
    ForwardPass(mx, out, a, k, leads, t);
    BackSubstitute(mx, out, a, k, t);
    forall s: nat | Leads(a, k, s)
      ensures ReducedTo(View(mx), k, s)
    {
      LeadsUnique(a, k, s, t);
    }
    if !HasKernel(a, k) {
      NoKernelLeads(a, k);
      ReducedIsIdentity(View(mx), k);
    }
    if View(mx) == Identity(k) {
      IdentityMeansInverse(a, View(out), k);
    }
  }

  /** The forward half of the elimination; columns without pivot are passed over. */
  method ForwardPass(mx: array2<Elem>, out: array2<Elem>, ghost a: Matrix, k: nat, ghost leads: bool, ghost t: nat)
    requires Reduces(mx, out, a, k) && (leads ==> Leads(a, k, t))
    modifies mx, out
    ensures Reduces(mx, out, a, k) && (leads ==> Echelon(View(mx), k, t))
  {
    hide SameSolutions, Identity, Mul, AddedRows, Depends;
    if leads && t == 0 {
      LeftoverRows(View(mx), View(out), a, k, t);
    }
    for i := 0 to k
      invariant Reduces(mx, out, a, k)
      invariant leads && i < t ==> Eliminated(View(mx), k, i)
      invariant leads && t <= i ==> Echelon(View(mx), k, t)
    {
      ViewShape(mx);
      var p := FindPivot(mx, i);
      if p == k {
        if leads && i < t {
          NoPivotMeansDepends(View(mx), View(out), a, k, i);
          assert false;
        }
      } else {
        assert View(mx)[p][i] != 0;
        PivotStep(mx, out, i, p, a, k);
        if leads && i + 1 == t {
          LeftoverRows(View(mx), View(out), a, k, t);
        }
      }
    }
  }

  lemma SameSolutionsRefl(m: Matrix, o: Matrix, k: nat)
    ensures SameSolutions(m, o, m, o, k)
  {
  }

  /** The backward half of the elimination. */
  method BackSubstitute(mx: array2<Elem>, out: array2<Elem>, ghost a: Matrix, k: nat, ghost t: nat)
    requires Reduces(mx, out, a, k)
    modifies mx, out
    ensures Reduces(mx, out, a, k)
    ensures old(Echelon(View(mx), k, t)) ==> ReducedTo(View(mx), k, t)
  {
    hide SameSolutions, Identity, Mul, AddedRows, ReducedTo;
    ghost var upper := Echelon(View(mx), k, t);
    for i := k downto 0
      invariant Reduces(mx, out, a, k)
      invariant upper && i < t ==> Backward(View(mx), k, t, i, 0)
      invariant upper && t <= i ==> Echelon(View(mx), k, t)
    {
      for j := i downto 0
        invariant Reduces(mx, out, a, k)
        invariant upper && i < t ==> Backward(View(mx), k, t, i, j)
        invariant upper && t <= i ==> Echelon(View(mx), k, t)
      {
        ghost var m := View(mx);
        var fac := mx[j, i];
        assert fac == m[j][i];
        if upper && i < t {
          AddBackward(m, k, t, i, j);
        } else if upper {
          ZeroRowAdds(m, k, t, i, j, fac);
        }
        AddBothRows(mx, out, i, j, fac, a, k);
      }
    }
    if upper {
      BackwardDone(View(mx), k, t);
    }
  }

  /** At every point of the elimination the companion times the original is the working matrix. */
  lemma CompanionTimesOriginal(mx: array2<Elem>, out: array2<Elem>, a: Matrix, k: nat, u: Row)
    requires Reduces(mx, out, a, k) && |u| == k
    ensures Apply(View(mx), u) == Apply(View(out), Apply(a, u))
  {
    hide Dot, Apply, Identity, View;
    var f := Apply(a, u);
    HoldsIsEquation(View(mx), View(out), u, f);
    HoldsIsEquation(a, Identity(k), u, f);
    ApplyIdentity(k, f);
  }
}
