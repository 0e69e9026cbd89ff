/** Standard form, and the parity rows that recognise a row space. */
module GfStandard {
  import opened Gf256
  import opened GfMatrix

  // ---------------------------------------------------------------- row space

  function Column(m: Matrix, c: nat, j: nat): (x: Row)
    requires IsMatrix(m, |m|, c) && j < c
    ensures |x| == |m|
  {
    seq(|m|, i requires 0 <= i < |m| => m[i][j])
  }

  /** v is the sum of the rows of m weighted by a. */
  ghost predicate Combines(m: Matrix, c: nat, a: Row, v: Row)
    requires IsMatrix(m, |m|, c)
  {
    |a| == |m| && |v| == c && forall j :: 0 <= j < c ==> v[j] == Dot(a, Column(m, c, j))
  }

  ghost predicate InSpan(m: Matrix, c: nat, v: Row)
    requires IsMatrix(m, |m|, c)
  {
    exists a: Row :: Combines(m, c, a, v)
  }

  ghost predicate SameSpan(m: Matrix, m': Matrix, c: nat) {
    && IsMatrix(m, |m|, c) && IsMatrix(m', |m'|, c)
    && forall v: Row :: InSpan(m, c, v) <==> InSpan(m', c, v)
  }

  lemma {:induction false} DotUpdate(x: Row, u: Row, i: nat, y: Elem)
    requires |x| == |u| && i < |x|
    ensures Dot(x[i := y], u) == Add(Dot(x, u), Mul(Add(x[i], y), u[i]))
  {
    hide Mul, Add;
    var rest := Dot(x[1..], u[1..]);
    if i == 0 {
      assert x[0 := y][1..] == x[1..];
      MulAdd(u[0], x[0], y);
      TermReplaced(Mul(x[0], u[0]), Mul(y, u[0]), rest);
    } else {
      assert x[i := y][1..] == x[1..][i - 1 := y];
      DotUpdate(x[1..], u[1..], i - 1, y);
      AddLaws(Mul(x[0], u[0]), rest, Mul(Add(x[i], y), u[i]));
    }
  }

  lemma TermReplaced(p: Elem, q: Elem, rest: Elem)
    ensures Add(q, rest) == Add(Add(p, rest), Add(p, q))
  {
  }

  lemma {:induction false} DotComm(x: Row, u: Row)
    requires |x| == |u|
    ensures Dot(x, u) == Dot(u, x)
  {
    hide Mul, Add;
    if x != [] {
      MulComm(x[0], u[0]);
      DotComm(x[1..], u[1..]);
    }
  }

  /** Moving a multiple of one weight to another undoes a row addition. */
  lemma AddedCombination(m: Matrix, c: nat, p: nat, q: nat, f: Elem, a: Row, v: Row)
    requires IsMatrix(m, |m|, c) && p < |m| && q < |m| && p != q
    requires IsMatrix(AddedRows(m, p, q, f), |m|, c) && Combines(AddedRows(m, p, q, f), c, a, v)
    ensures Combines(m, c, a[p := Add(a[p], Mul(f, a[q]))], v)
  {
    hide Mul, Add, Dot;
    var n, b := AddedRows(m, p, q, f), a[p := Add(a[p], Mul(f, a[q]))];
    forall j | 0 <= j < c
      ensures v[j] == Dot(b, Column(m, c, j))
    {
      var x := Column(m, c, j);
      assert n[q][j] == Add(m[q][j], Mul(f, m[p][j]));
      assert Column(n, c, j) == x[q := Add(x[q], Mul(f, x[p]))];
      SameUpdate(a, x, p, q, f);
    }
  }

  lemma SameUpdate(a: Row, x: Row, p: nat, q: nat, f: Elem)
    requires |a| == |x| && p < |x| && q < |x|
    ensures Dot(a, x[q := Add(x[q], Mul(f, x[p]))]) == Dot(a[p := Add(a[p], Mul(f, a[q]))], x)
  {
    hide Mul, Add, Dot;
    var y := Add(x[q], Mul(f, x[p]));
    DotUpdate(a, x, p, Add(a[p], Mul(f, a[q])));
    DotUpdate(x, a, q, y);
    DotComm(x, a);
    DotComm(x[q := y], a);
    CancelTwice(x[q], Mul(f, x[p]));
    CancelTwice(a[p], Mul(f, a[q]));
    MulComm(f, x[p]);
    MulAssoc(x[p], f, a[q]);
    MulComm(x[p], Mul(f, a[q]));
  }

  lemma CancelTwice(x: Elem, y: Elem)
    ensures Add(x, Add(x, y)) == y
  {
  }

  lemma AddedTwice(m: Matrix, c: nat, p: nat, q: nat, f: Elem)
    requires IsMatrix(m, |m|, c) && p < |m| && q < |m| && p != q
    ensures IsMatrix(AddedRows(m, p, q, f), |m|, c) && AddedRows(AddedRows(m, p, q, f), p, q, f) == m
  {
    hide Mul, Add;
    var n := AddedRows(m, p, q, f);
    forall j | 0 <= j < c
      ensures AddRow(n[q], n[p], f)[j] == m[q][j]
    {
      var t := Mul(f, m[p][j]);
      AddLaws(m[q][j], t, t);
      AddLaws(t, t, 0);
      AddLaws(m[q][j], 0, 0);
    }
    assert AddRow(n[q], n[p], f) == m[q];
  }

  lemma AddedSpan(m: Matrix, c: nat, p: nat, q: nat, f: Elem)
    requires IsMatrix(m, |m|, c) && p < |m| && q < |m| && p != q
    ensures SameSpan(AddedRows(m, p, q, f), m, c)
  {
    hide Mul, Add, AddedRows, Combines;
    AddedTwice(m, c, p, q, f);
    var n := AddedRows(m, p, q, f);
    forall v: Row
      ensures InSpan(n, c, v) <==> InSpan(m, c, v)
    {
      if InSpan(n, c, v) {
        var a: Row :| Combines(n, c, a, v);
        AddedWeights(m, c, p, q, f, a, v);
      }
      if InSpan(m, c, v) {
        var a: Row :| Combines(m, c, a, v);
        AddedWeights(n, c, p, q, f, a, v);
      }
    }
  }

  lemma AddedWeights(m: Matrix, c: nat, p: nat, q: nat, f: Elem, a: Row, v: Row)
    requires IsMatrix(m, |m|, c) && p < |m| && q < |m| && p != q
    requires IsMatrix(AddedRows(m, p, q, f), |AddedRows(m, p, q, f)|, c) && Combines(AddedRows(m, p, q, f), c, a, v)
    ensures InSpan(m, c, v)
  {
    hide Mul, Add;
    AddedCombination(m, c, p, q, f, a, v);
  }

  /** A swap is three additions. */
  lemma SwapByAdding(m: Matrix, c: nat, a: nat, b: nat)
    requires IsMatrix(m, |m|, c) && a < b < |m|
    ensures var m1 := AddedRows(m, a, b, 1);
            IsMatrix(m1, |m|, c) &&
            var m2 := AddedRows(m1, b, a, 1);
            IsMatrix(m2, |m|, c) && AddedRows(m2, a, b, 1) == SwappedRows(m, a, b)
  {
    hide Mul, Add;
    var m1 := AddedRows(m, a, b, 1);
    var m2 := AddedRows(m1, b, a, 1);
    var m3 := AddedRows(m2, a, b, 1);
    forall j | 0 <= j < c
      ensures m2[a][j] == m[b][j] && m3[b][j] == m[a][j]
    {
      var x, y := m[a][j], m[b][j];
      OnceEach(x, y);
      assert m1[b][j] == Add(y, x);
      assert m2[a][j] == Add(x, Add(y, x));
      assert m3[b][j] == Add(Add(y, x), y);
    }
    assert m3[a] == m2[a] == m[b] && m3[b] == m[a];
  }

  lemma OnceEach(x: Elem, y: Elem)
    ensures Mul(1, x) == x && Mul(1, y) == y && Mul(1, Add(y, x)) == Add(y, x)
    ensures Add(x, Add(y, x)) == y && Add(Add(y, x), y) == x
  {
    hide Mul, Add;
    MulOne(x);
    MulOne(y);
    MulOne(Add(y, x));
    AddLaws(y, x, y);
    AddLaws(x, y, 0);
    AddLaws(y, x, 0);
  }

  lemma SwappedSpan(m: Matrix, c: nat, a: nat, b: nat)
    requires IsMatrix(m, |m|, c) && a < b < |m|
    ensures SameSpan(SwappedRows(m, a, b), m, c)
  {
    hide AddedRows, InSpan, SwappedRows;
    SwapByAdding(m, c, a, b);
    var m1 := AddedRows(m, a, b, 1);
    var m2 := AddedRows(m1, b, a, 1);
    AddedSpan(m, c, a, b, 1);
    AddedSpan(m1, c, b, a, 1);
    AddedSpan(m2, c, a, b, 1);
  }

  lemma ScaledWeights(m: Matrix, c: nat, i: nat, f: Elem, a: Row, v: Row)
    requires IsMatrix(m, |m|, c) && i < |m|
    requires IsMatrix(ScaledRow(m, i, f), |ScaledRow(m, i, f)|, c) && Combines(ScaledRow(m, i, f), c, a, v)
    ensures InSpan(m, c, v)
  {
    hide Mul, Add, Dot;
    var n, b := ScaledRow(m, i, f), a[i := Mul(f, a[i])];
    forall j | 0 <= j < c
      ensures v[j] == Dot(b, Column(m, c, j))
    {
      var x := Column(m, c, j);
      assert n[i][j] == Mul(f, m[i][j]);
      assert Column(n, c, j) == x[i := Mul(f, x[i])];
      SameScaling(a, x, i, f);
    }
    assert Combines(m, c, b, v);
  }

  lemma SameScaling(a: Row, x: Row, i: nat, f: Elem)
    requires |a| == |x| && i < |x|
    ensures Dot(a, x[i := Mul(f, x[i])]) == Dot(a[i := Mul(f, a[i])], x)
  {
    hide Mul, Add, Dot;
    DotUpdate(a, x, i, Mul(f, a[i]));
    DotUpdate(x, a, i, Mul(f, x[i]));
    DotComm(x, a);
    DotComm(x[i := Mul(f, x[i])], a);
    PlusMultiple(a[i], x[i], f);
  }

  lemma PlusMultiple(a: Elem, x: Elem, f: Elem)
    ensures Mul(Add(a, Mul(f, a)), x) == Mul(Add(x, Mul(f, x)), a)
  {
    hide Mul, Add;
    MulAdd(x, a, Mul(f, a));
    MulAdd(a, x, Mul(f, x));
    MulComm(a, x);
    MulAssoc(f, a, x);
    MulAssoc(f, x, a);
  }

  lemma ScaledBack(m: Matrix, c: nat, i: nat, f: Elem)
    requires IsMatrix(m, |m|, c) && i < |m| && f != 0
    ensures IsMatrix(ScaledRow(m, i, f), |m|, c) && ScaledRow(ScaledRow(m, i, f), i, Inv(f)) == m
  {
    hide Mul, Inv;
    var n := ScaledRow(m, i, f);
    forall j | 0 <= j < c
      ensures ScaleRow(Inv(f), n[i])[j] == m[i][j]
    {
      MulAssoc(Inv(f), f, m[i][j]);
      MulComm(Inv(f), f);
      MulInverse(f);
      MulOne(m[i][j]);
    }
    assert ScaleRow(Inv(f), n[i]) == m[i];
  }

  lemma ScaledSpan(m: Matrix, c: nat, i: nat, f: Elem)
    requires IsMatrix(m, |m|, c) && i < |m| && f != 0
    ensures SameSpan(ScaledRow(m, i, f), m, c)
  {
    hide Mul, ScaledRow, Combines;
    ScaledBack(m, c, i, f);
    var n := ScaledRow(m, i, f);
    forall v: Row
      ensures InSpan(n, c, v) <==> InSpan(m, c, v)
    {
      if InSpan(n, c, v) {
        var a: Row :| Combines(n, c, a, v);
        ScaledWeights(m, c, i, f, a, v);
      }
      if InSpan(m, c, v) {
        var a: Row :| Combines(m, c, a, v);
        ScaledWeights(n, c, i, Inv(f), a, v);
      }
    }
  }

  // ---------------------------------------------------------------- the leading square block

  function Left(m: Matrix, r: nat, c: nat): (l: Matrix)
    requires IsMatrix(m, r, c) && r <= c
    ensures IsMatrix(l, r, r)
  {
    seq(r, i requires 0 <= i < r => m[i][..r])
  }

  /** m comes from m0 by row steps that o records: same row space, same equations for the leading block. */
  ghost predicate Reached(m: Matrix, o: Matrix, m0: Matrix, r: nat, c: nat) {
    && r <= c && IsMatrix(m, r, c) && IsMatrix(o, r, r) && IsMatrix(m0, r, c)
    && SameSpan(m, m0, c)
    && SameSolutions(Left(m, r, c), o, Left(m0, r, c), Identity(r), r)
  }

  lemma ReachedStart(m: Matrix, r: nat, c: nat)
    requires IsMatrix(m, r, c) && r <= c
    ensures Reached(m, Identity(r), m, r, c)
  {
    SameSolutionsRefl(Left(m, r, c), Identity(r), r);
  }

  lemma ReachedSwap(m: Matrix, o: Matrix, m0: Matrix, r: nat, c: nat, a: nat, b: nat)
    requires Reached(m, o, m0, r, c) && a < b < r
    ensures Reached(SwappedRows(m, a, b), SwappedRows(o, a, b), m0, r, c)
    ensures Left(SwappedRows(m, a, b), r, c) == SwappedRows(Left(m, r, c), a, b)
  {
    hide SameSolutions, InSpan;
    SwappedSpan(m, c, a, b);
    var l, n := Left(m, r, c), SwappedRows(m, a, b);
    assert Left(n, r, c) == SwappedRows(l, a, b);
    SwapKeeps(l, o, r, a, b);
    SameSolutionsTrans(Left(n, r, c), SwappedRows(o, a, b), l, o, Left(m0, r, c), Identity(r), r);
  }

  lemma ReachedAdd(m: Matrix, o: Matrix, m0: Matrix, r: nat, c: nat, a: nat, b: nat, f: Elem)
    requires Reached(m, o, m0, r, c) && a < r && b < r && a != b
    ensures IsMatrix(AddedRows(m, a, b, f), r, c) && Reached(AddedRows(m, a, b, f), AddedRows(o, a, b, f), m0, r, c)
    ensures Left(AddedRows(m, a, b, f), r, c) == AddedRows(Left(m, r, c), a, b, f)
  {
    hide SameSolutions, InSpan, Mul, Add;
    AddedSpan(m, c, a, b, f);
    var l, n := Left(m, r, c), AddedRows(m, a, b, f);
    assert n[b][..r] == AddRow(l[b], l[a], f);
    assert Left(n, r, c) == AddedRows(l, a, b, f);
    AddKeeps(l, o, r, a, b, f);
    SameSolutionsTrans(Left(n, r, c), AddedRows(o, a, b, f), l, o, Left(m0, r, c), Identity(r), r);
  }

  lemma ReachedScale(m: Matrix, o: Matrix, m0: Matrix, r: nat, c: nat, i: nat, f: Elem)
    requires Reached(m, o, m0, r, c) && i < r && f != 0
    ensures Reached(ScaledRow(m, i, f), ScaledRow(o, i, f), m0, r, c)
    ensures Left(ScaledRow(m, i, f), r, c) == ScaledRow(Left(m, r, c), i, f)
  {
    hide SameSolutions, InSpan, Mul;
    ScaledSpan(m, c, i, f);
    var l, n := Left(m, r, c), ScaledRow(m, i, f);
    assert n[i][..r] == ScaleRow(f, l[i]);
    assert Left(n, r, c) == ScaledRow(l, i, f);
    ScaleKeeps(l, o, r, i, f);
    SameSolutionsTrans(Left(n, r, c), ScaledRow(o, i, f), l, o, Left(m0, r, c), Identity(r), r);
  }

  // ---------------------------------------------------------------- standardize_matrix

  method SwapStep(mx: array2<Elem>, i: nat, p: nat, ghost o: Matrix, ghost m0: Matrix, r: nat, c: nat) returns (ghost o': Matrix)
    requires mx.Length0 == r && mx.Length1 == c && Reached(View(mx), o, m0, r, c) && i < p < r
    modifies mx
    ensures Reached(View(mx), o', m0, r, c)
    ensures Left(View(mx), r, c) == SwappedRows(old(Left(View(mx), r, c)), i, p)
  {
    hide Left, View, SwappedRows, SameSpan, SameSolutions;
    ReachedSwap(View(mx), o, m0, r, c, i, p);
    SwapRows(mx, i, p);
    o' := SwappedRows(o, i, p);
  }

  method ScaleStep(mx: array2<Elem>, i: nat, f: Elem, ghost o: Matrix, ghost m0: Matrix, r: nat, c: nat) returns (ghost o': Matrix)
    requires mx.Length0 == r && mx.Length1 == c && Reached(View(mx), o, m0, r, c) && i < r && f != 0
    modifies mx
    ensures Reached(View(mx), o', m0, r, c)
    ensures Left(View(mx), r, c) == ScaledRow(old(Left(View(mx), r, c)), i, f)
  {
    hide Left, View, ScaledRow, SameSpan, SameSolutions;
    ReachedScale(View(mx), o, m0, r, c, i, f);
    ScaleRowInPlace(mx, i, f);
    o' := ScaledRow(o, i, f);
  }

  method AddStep(mx: array2<Elem>, i: nat, j: nat, f: Elem, ghost o: Matrix, ghost m0: Matrix, r: nat, c: nat) returns (ghost o': Matrix)
    requires mx.Length0 == r && mx.Length1 == c && Reached(View(mx), o, m0, r, c) && i < r && j < r && i != j
    modifies mx
    ensures Reached(View(mx), o', m0, r, c)
    ensures Left(View(mx), r, c) == AddedRows(old(Left(View(mx), r, c)), i, j, f)
  {
    hide Left, View, SameSpan, SameSolutions;
    ReachedAdd(View(mx), o, m0, r, c, i, j, f);
    AddMulRows(mx, i, j, f);
    o' := AddedRows(o, i, j, f);
  }

  lemma LeftEntry(m: Matrix, r: nat, c: nat)
    requires IsMatrix(m, r, c) && r <= c
    ensures forall i, j :: 0 <= i < r && 0 <= j < r ==> Left(m, r, c)[i][j] == m[i][j]
  {
  }

  /** One pivot of the forward pass. */
  method PivotColumn(mx: array2<Elem>, i: nat, p: nat, ghost o: Matrix, ghost m0: Matrix, r: nat, c: nat) returns (ghost o': Matrix)
    requires mx.Length0 == r && mx.Length1 == c && Reached(View(mx), o, m0, r, c) && i <= p < r && mx[p, i] != 0
    modifies mx
    ensures Reached(View(mx), o', m0, r, c)
    ensures old(Eliminated(Left(View(mx), r, c), r, i)) ==> Eliminated(Left(View(mx), r, c), r, i + 1)
  {
    hide SwappedRows, ScaledRow, AddedRows, Over, Mul, SameSpan, SameSolutions, Left;
    o' := o;
    ghost var before := Left(View(mx), r, c);
    LeftEntry(View(mx), r, c);
    var pivot := mx[p, i];
    if p != i {
      if Eliminated(before, r, i) {
        SwapEliminated(before, r, i, p);
      }
      o' := SwapStep(mx, i, p, o', m0, r, c);
      SwappedEntry(before, i, p);
    }
    ghost var swapped := Left(View(mx), r, c);
    assert swapped[i][i] == pivot;
    var inv := Over(1, pivot);
    OverLaw(1, pivot);
    if Eliminated(before, r, i) {
      ScaleEliminated(swapped, r, i, inv);
    }
    o' := ScaleStep(mx, i, inv, o', m0, r, c);
    ScaledEntry(swapped, i, inv);
    for j := i + 1 to r
      invariant Reached(View(mx), o', m0, r, c)
      invariant Eliminated(before, r, i) ==> Clearing(Left(View(mx), r, c), r, i, j)
    {
      ghost var m := Left(View(mx), r, c);
      LeftEntry(View(mx), r, c);
      var fac := mx[j, i];
      assert fac == m[j][i];
      if Eliminated(before, r, i) {
        AddClears(m, r, i, j);
      }
      o' := AddStep(mx, i, j, fac, o', m0, r, c);
    }
  }

  /** The backward pass. */
  method ClearAbove(mx: array2<Elem>, ghost o: Matrix, ghost m0: Matrix, r: nat, c: nat) returns (ghost o': Matrix)
    requires mx.Length0 == r && mx.Length1 == c && Reached(View(mx), o, m0, r, c)
    modifies mx
    ensures Reached(View(mx), o', m0, r, c)
    ensures old(Eliminated(Left(View(mx), r, c), r, r)) ==> Left(View(mx), r, c) == Identity(r)
  {
    hide AddedRows, Mul, SameSpan, SameSolutions, Left, Identity;
    o' := o;
    ghost var upper := Eliminated(Left(View(mx), r, c), r, r);
    for i := r downto 0
      invariant Reached(View(mx), o', m0, r, c)
      invariant upper && i < r ==> Backward(Left(View(mx), r, c), r, r, i, 0)
      invariant upper && i == r ==> Eliminated(Left(View(mx), r, c), r, r)
    {
      for j := i downto 0
        invariant Reached(View(mx), o', m0, r, c)
        invariant upper ==> Backward(Left(View(mx), r, c), r, r, i, j)
      {
        ghost var m := Left(View(mx), r, c);
        LeftEntry(View(mx), r, c);
        var fac := mx[j, i];
        assert fac == m[j][i];
        if upper {
          AddBackward(m, r, r, i, j);
        }
        o' := AddStep(mx, i, j, fac, o', m0, r, c);
      }
    }
    if upper {
      BackwardDone(Left(View(mx), r, c), r, r);
      ReducedIsIdentity(Left(View(mx), r, c), r);
    }
  }

  /** `standardize_matrix`: the row space is kept, and the leading block becomes the identity exactly if it is regular. */
  method StandardizeMatrix(mx: array2<Elem>, r: nat, c: nat)
    requires mx.Length0 == r && mx.Length1 == c && r <= c
    modifies mx
    ensures IsMatrix(View(mx), r, c) && IsMatrix(old(View(mx)), r, c)
    ensures SameSpan(View(mx), old(View(mx)), c)
    ensures Left(View(mx), r, c) == Identity(r) <==> !HasKernel(Left(old(View(mx)), r, c), r)
  {
    hide SameSpan, SameSolutions, Identity, Mul, AddedRows, HasKernel, Left;
    ghost var m0 := View(mx);
    ViewShape(mx);
    ReachedStart(m0, r, c);
    ghost var o := Identity(r);
    ghost var a := Left(m0, r, c);
    for i := 0 to r
      invariant Reached(View(mx), o, m0, r, c)
      invariant HasKernel(a, r) || Eliminated(Left(View(mx), r, c), r, i)
    {
      var p := FindPivot(mx, i);
      if p == r {
        if Eliminated(Left(View(mx), r, c), r, i) {
          LeftEntry(View(mx), r, c);
          NoPivotMeansKernel(Left(View(mx), r, c), o, a, r, i);
        }
      } else {
        o := PivotColumn(mx, i, p, o, m0, r, c);
      }
    }
    o := ClearAbove(mx, o, m0, r, c);
    if Left(View(mx), r, c) == Identity(r) {
      IdentityMeansInverse(a, o, r);
    }
  }

  // ---------------------------------------------------------------- parity_matrix

  /** Row i of the parity matrix: column r + i of the standard form, then a unit row. */
  function ParityRow(m: Matrix, r: nat, c: nat, i: nat): (h: Row)
    requires IsMatrix(m, r, c) && r + i < c
    ensures |h| == c
  {
    Column(m, c, r + i) + Unit(c - r, i)
  }

  /** `parity_matrix`, into a zeroed buffer. */
  method ParityMatrix(mx: array2<Elem>, r: nat, c: nat, out: array2<Elem>)
    requires mx.Length0 == r && mx.Length1 == c && r <= c && mx != out
    requires out.Length0 == c - r && out.Length1 == c && forall i, j :: 0 <= i < c - r && 0 <= j < c ==> out[i, j] == 0
    modifies out
    ensures forall i :: 0 <= i < c - r ==> View(out)[i] == ParityRow(View(mx), r, c, i)
  {
    for i := 0 to c - r
      invariant forall k, j :: 0 <= k < c - r && 0 <= j < c ==> out[k, j] == if k < i && j == k + r then 1 else 0
    {
      out[i, i + r] := 1;
    }
    for i := 0 to c - r
      invariant forall k, j :: 0 <= k < c - r && r <= j < c ==> out[k, j] == if j == k + r then 1 else 0
      invariant forall k, j :: 0 <= k < i && 0 <= j < r ==> out[k, j] == mx[j, k + r]
    {
      for j := 0 to r
        invariant forall k, j :: 0 <= k < c - r && r <= j < c ==> out[k, j] == if j == k + r then 1 else 0
        invariant forall k, j :: 0 <= k < i && 0 <= j < r ==> out[k, j] == mx[j, k + r]
        invariant forall k :: 0 <= k < j ==> out[i, k] == mx[k, i + r]
      {
        out[i, j] := mx[j, i + r];
      }
    }
    forall i | 0 <= i < c - r
      ensures View(out)[i] == ParityRow(View(mx), r, c, i)
    {
    }
  }

  ghost predicate Vanishes(m: Matrix, r: nat, c: nat, v: Row)
    requires IsMatrix(m, r, c) && r <= c && |v| == c
  {
    forall i :: 0 <= i < c - r ==> Dot(ParityRow(m, r, c, i), v) == 0
  }

  /** In standard form the parity rows vanish exactly on the row space. */
  lemma ParityRecognises(m: Matrix, r: nat, c: nat, v: Row)
    requires IsMatrix(m, r, c) && r <= c && Left(m, r, c) == Identity(r) && |v| == c
    ensures Vanishes(m, r, c, v) <==> InSpan(m, c, v)
  {
    hide Dot, Mul, Add;
    forall i | 0 <= i < c - r
      ensures Dot(ParityRow(m, r, c, i), v) == 0 <==> v[r + i] == Dot(v[..r], Column(m, c, r + i))
    {
      ParityValue(m, r, c, v, i);
    }
    forall j | 0 <= j < r
      ensures Column(m, c, j) == Unit(r, j)
    {
      UnitColumn(m, r, c, j);
    }
    if Vanishes(m, r, c, v) {
      forall j | 0 <= j < c
        ensures v[j] == Dot(v[..r], Column(m, c, j))
      {
        if j < r {
          DotComm(v[..r], Unit(r, j));
          DotUnit(r, j, v[..r]);
        } else {
          var i := j - r;
          assert Dot(ParityRow(m, r, c, i), v) == 0;
          assert r + i == j;
        }
      }
      assert Combines(m, c, v[..r], v);
    }
    if InSpan(m, c, v) {
      var a: Row :| Combines(m, c, a, v);
      forall j | 0 <= j < r
        ensures a[j] == v[j]
      {
        DotComm(a, Unit(r, j));
        DotUnit(r, j, a);
      }
      assert a == v[..r];
    }
  }

  lemma ParityValue(m: Matrix, r: nat, c: nat, v: Row, i: nat)
    requires IsMatrix(m, r, c) && r + i < c && |v| == c
    ensures Dot(ParityRow(m, r, c, i), v) == 0 <==> v[r + i] == Dot(v[..r], Column(m, c, r + i))
  {
    hide Dot, Mul, Add;
    var x, u := Column(m, c, r + i), Unit(c - r, i);
    assert v == v[..r] + v[r..];
    DotConcat(x, u, v[..r], v[r..]);
    DotUnit(c - r, i, v[r..]);
    DotComm(x, v[..r]);
    AddLaws(Dot(x, v[..r]), v[r + i], 0);
  }

  lemma UnitColumn(m: Matrix, r: nat, c: nat, j: nat)
    requires IsMatrix(m, r, c) && r <= c && Left(m, r, c) == Identity(r) && j < r
    ensures Column(m, c, j) == Unit(r, j)
  {
    forall i | 0 <= i < r
      ensures m[i][j] == Unit(r, j)[i]
    {
      assert Left(m, r, c)[i][j] == Identity(r)[i][j];
    }
  }
}
