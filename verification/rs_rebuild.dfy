/** Rebuilding the data from any `required` shares. */
module RsRebuild {
  import opened Gf256
  import opened GfPoly
  import opened GfMatrix
  import opened GfTables
  import opened GfStandard
  import opened RsEncode
  import opened Sorting

  // ---------------------------------------------------------------- the identity with one row replaced

  function WithRow(k: nat, i: nat, e: Row): (m: Matrix)
    requires i < k && |e| == k
    ensures IsMatrix(m, k, k)
  {
    Identity(k)[i := e]
  }

  /** Row i of the inverse. */
  function InverseRow(e: Row, i: nat): (r: Row)
    requires i < |e| && e[i] != 0
    ensures |r| == |e|
  {
    GfMatrix.ScaleRow(Over(1, e[i]), e[i := 1])
  }

  /** The inverse row solves the equation of the replaced row for unknown i. */
  lemma InverseRowSolves(e: Row, i: nat, s: Row)
    requires i < |e| == |s| && e[i] != 0
    ensures Dot(InverseRow(e, i), s[i := Dot(e, s)]) == s[i]
  {
    hide Mul, Add, Dot, Over;
    var p, a := Dot(e, s), e[i];
    var t := s[i := p];
    DotScaleRow(Over(1, a), e[i := 1], t);
    DotUpdate(e, t, i, 1);
    DotUpdate(s, e, i, p);
    DotComm(s, e);
    DotComm(t, e);
    var x := s[i];
    Cancels(p, x, a);
    OverLaw(1, a);
    MulAssoc(Over(1, a), a, x);
    MulComm(Over(1, a), a);
    MulComm(x, a);
    MulOne(x);
  }

  lemma Cancels(p: Elem, x: Elem, a: Elem)
    ensures Add(Add(p, Mul(Add(x, p), a)), Mul(Add(a, 1), p)) == Mul(x, a)
  {
    hide Mul, Add;
    MulAdd(a, x, p);
    MulAdd(p, a, 1);
    MulOne(p);
    MulComm(p, a);
    CancelSums(p, Mul(x, a), Mul(p, a));
  }

  lemma CancelSums(p: Elem, y: Elem, z: Elem)
    ensures Add(Add(p, Add(y, z)), Add(z, p)) == y
  {
  }

  // ---------------------------------------------------------------- invert_matrix

  /** The first unused row with a non-zero entry in the column is taken; k if there is none. */
  method TakePivot(mx: array2<Elem>, unused: array<bool>, c: nat) returns (pivot: nat)
    requires unused.Length == mx.Length0 && c < mx.Length1
    modifies unused
    ensures pivot <= mx.Length0
    ensures forall j :: 0 <= j < pivot ==> mx[j, c] == 0 || !old(unused[j])
    ensures pivot < mx.Length0 ==> mx[pivot, c] != 0 && old(unused[pivot]) && !unused[pivot]
    ensures forall j :: 0 <= j < unused.Length && j != pivot ==> unused[j] == old(unused[j])
  {
    pivot := 0;
    while pivot < mx.Length0 && !(mx[pivot, c] != 0 && unused[pivot])
      invariant pivot <= mx.Length0
      invariant forall j :: 0 <= j < pivot ==> mx[j, c] == 0 || !unused[j]
    {
      pivot := pivot + 1;
    }
    if pivot < mx.Length0 {
      unused[pivot] := false;
    }
  }

  /** An entry is taken out and the pivot row is added that many times. */
  method TakeAndAdd(mx: array2<Elem>, pivot: nat, r: nat, c: nat)
    requires pivot < mx.Length0 && r < mx.Length0 && pivot != r && c < mx.Length1
    modifies mx
    ensures old(mx[r, c]) == 0 ==> View(mx) == old(View(mx))
  {
    hide Mul, Add;
    ghost var before := View(mx);
    var f := mx[r, c];
    mx[r, c] := 0;
    if f == 0 {
      SameView(mx, before);
      ZeroTimes(before, pivot, r);
    }
    AddMulRows(mx, pivot, r, f);
  }

  lemma SameView(mx: array2<Elem>, before: Matrix)
    requires IsMatrix(before, mx.Length0, mx.Length1)
    requires forall i, j :: 0 <= i < mx.Length0 && 0 <= j < mx.Length1 ==> mx[i, j] == before[i][j]
    ensures View(mx) == before
  {
    forall i | 0 <= i < mx.Length0
      ensures View(mx)[i] == before[i]
    {
    }
  }

  lemma ZeroTimes(m: Matrix, a: nat, b: nat)
    requires a < |m| && b < |m| && |m[a]| == |m[b]|
    ensures AddedRows(m, a, b, 0) == m
  {
    hide Mul, Add;
    forall j | 0 <= j < |m[b]|
      ensures AddRow(m[b], m[a], 0)[j] == m[b][j]
    {
      MulOne(m[a][j]);
      AddLaws(m[b][j], 0, 0);
    }
    assert AddRow(m[b], m[a], 0) == m[b];
  }

  /** Scaling the pivot row and clearing the column, unless the pivot row is a unit row already. */
  method ClearColumn(mx: array2<Elem>, k: nat, c: nat, ghost i: nat, ghost e: Row)
    requires mx.Length0 == mx.Length1 == k && c < k && mx[c, c] != 0
    requires i < k && |e| == k && e[i] != 0
    modifies mx
    ensures old(View(mx)) == WithRow(k, i, if c <= i then e else InverseRow(e, i)) ==>
              View(mx) == WithRow(k, i, if c + 1 <= i then e else InverseRow(e, i))
  {
    hide Mul, Over, WithRow, InverseRow;
    ghost var expected := View(mx) == WithRow(k, i, if c <= i then e else InverseRow(e, i));
    ghost var target := WithRow(k, i, if c + 1 <= i then e else InverseRow(e, i));
    ghost var start := View(mx);
    ViewShape(mx);
    var p := mx[c, c];
    if p != 1 {
      var inv := Over(1, p);
      mx[c, c] := 1;
      SameView(mx, start[c := start[c][c := 1]]);
      ScaleRowInPlace(mx, c, inv);
    }
    ViewShape(mx);
    if expected {
      PivotRow(start, View(mx), k, i, e, c);
    }
    if forall j :: 0 <= j < k && j != c ==> mx[c, j] == 0 {
      return;
    }
    for r := 0 to c
      invariant expected ==> View(mx) == target && c == i
    {
      ViewShape(mx);
      if expected {
        ColumnClear(k, i, r, InverseRow(e, i));
      }
      TakeAndAdd(mx, c, r, c);
    }
    for r := c + 1 to k
      invariant expected ==> View(mx) == target && c == i
    {
      ViewShape(mx);
      if expected {
        ColumnClear(k, i, r, InverseRow(e, i));
      }
      TakeAndAdd(mx, c, r, c);
    }
  }

  lemma ColumnClear(k: nat, i: nat, r: nat, e: Row)
    requires i < k && |e| == k && r < k && r != i
    ensures WithRow(k, i, e)[r][i] == 0
  {
  }

  /** What becomes of the pivot row. */
  lemma PivotRow(start: Matrix, now: Matrix, k: nat, i: nat, e: Row, c: nat)
    requires i < k && |e| == k && e[i] != 0 && c < k && IsMatrix(start, k, k) && start[c][c] != 0
    requires start == WithRow(k, i, if c <= i then e else InverseRow(e, i))
    requires now == if start[c][c] == 1 then start else ScaledRow(start[c := start[c][c := 1]], c, Over(1, start[c][c]))
    ensures now == WithRow(k, i, if c + 1 <= i then e else InverseRow(e, i))
    ensures c != i ==> forall j :: 0 <= j < k && j != c ==> now[c][j] == 0
  {
    hide Mul, Over;
    if c == i {
      assert start[c] == e;
      if e[i] == 1 {
        InverseOfOne(e, i);
      } else {
        assert ScaledRow(start[c := start[c][c := 1]], c, Over(1, start[c][c])) == WithRow(k, i, InverseRow(e, i));
      }
    } else {
      assert start[c] == Unit(k, c);
    }
  }

  lemma InverseOfOne(e: Row, i: nat)
    requires i < |e| && e[i] == 1
    ensures InverseRow(e, i) == e
  {
    hide Mul, Over;
    OverLaw(1, 1);
    MulOne(Over(1, 1));
    forall j | 0 <= j < |e|
      ensures InverseRow(e, i)[j] == e[j]
    {
      MulOne(e[j]);
    }
  }

  lemma PivotIsDiagonal(k: nat, i: nat, c: nat, e: Row)
    requires i < k && |e| == k && e[i] != 0 && c < k
    ensures WithRow(k, i, e)[c][c] != 0
  {
  }

  lemma SwappedPivot(m: Matrix, pivot: nat, c: nat)
    requires pivot < |m| && c < |m|
    ensures SwappedRows(m, pivot, c)[c] == SwappedRows(m, c, pivot)[c] == m[pivot]
  {
  }

  lemma InverseDiagonal(e: Row, i: nat)
    requires i < |e| && e[i] != 0
    ensures InverseRow(e, i)[i] != 0
  {
    hide Mul, Over;
    OverLaw(1, e[i]);
    MulOne(Over(1, e[i]));
  }

  /** `invert_matrix`, on the identity with one row replaced: the inverse row takes its place. */
  method InvertMatrix(mx: array2<Elem>, k: nat, ghost i: nat, ghost e: Row) returns (ok: bool)
    requires mx.Length0 == mx.Length1 == k && i < k && |e| == k && e[i] != 0
    modifies mx
    ensures old(View(mx)) == WithRow(k, i, e) ==> ok && View(mx) == WithRow(k, i, InverseRow(e, i))
  {
    hide Mul, Over, InverseRow;
    var unused := new bool[k](_ => true);
    var swaps: seq<(nat, nat)> := [];
    ghost var expected := View(mx) == WithRow(k, i, e);
    for c := 0 to k
      invariant forall s :: 0 <= s < |swaps| ==> swaps[s].0 < swaps[s].1 < k
      invariant expected ==> swaps == [] && View(mx) == WithRow(k, i, if c <= i then e else InverseRow(e, i))
      invariant expected ==> forall j :: 0 <= j < k ==> (unused[j] <==> c <= j)
    {
      ViewShape(mx);
      if expected {
        InverseDiagonal(e, i);
        PivotIsDiagonal(k, i, c, if c <= i then e else InverseRow(e, i));
      }
      var pivot := TakePivot(mx, unused, c);
      if pivot == k {
        return false;
      }
      if pivot != c {
        var pair := if pivot < c then (pivot, c) else (c, pivot);
        ghost var before := View(mx);
        SwapRows(mx, pair.0, pair.1);
        swaps := swaps + [pair];
        SwappedPivot(before, pivot, c);
        ViewShape(mx);
      }
      ClearColumn(mx, k, c, i, e);
    }
    while |swaps| > 0
      invariant forall s :: 0 <= s < |swaps| ==> swaps[s].0 < swaps[s].1 < k
      invariant expected ==> swaps == [] && View(mx) == WithRow(k, i, InverseRow(e, i))
      decreases |swaps|
    {
      var pair := swaps[|swaps| - 1];
      SwapRows(mx, pair.0, pair.1);
      swaps := swaps[..|swaps| - 1];
    }
    ok := true;
  }

  // ---------------------------------------------------------------- shares

  datatype Share = Share(number: nat, data: seq<Elem>)

  datatype RebuildError = NotEnoughShares | NotEqualLengths | SingularMatrix

  datatype Rebuilt = Ok(shares: seq<Share>) | Err(error: RebuildError)

  /** `usize::MAX`, from which stand-ins for missing shares are counted down. */
  const MAX := 0xFFFF_FFFF_FFFF_FFFF

  function Number(s: Share): nat {
    s.number
  }

  /** The key of the second sort: stand-ins go to the place of the share they replace. */
  function Place(k: nat, s: Share): nat {
    if k < s.number <= MAX then MAX - s.number else s.number
  }

  /** Share n of one encoding. */
  function Chunk(data: seq<Elem>, parity: seq<Elem>, size: nat, k: nat, total: nat, n: nat): (c: seq<Elem>)
    requires n < total && k <= total && IsParity(data, parity, size, k, total - k)
    ensures |c| == size
  {
    seq(size, col requires 0 <= col < size => if n < k then Stripe(data, size, k, col)[n] else parity[Slot(n - k, size, col)])
  }

  /** Data share n is the n-th block of the data. */
  lemma ChunkIsBlock(data: seq<Elem>, parity: seq<Elem>, size: nat, k: nat, total: nat, n: nat)
    requires n < k <= total && IsParity(data, parity, size, k, total - k)
    ensures n * size + size <= |data| && Chunk(data, parity, size, k, total, n) == data[n * size..n * size + size]
  {
    BlockInside(n, k, size);
    var c, b := Chunk(data, parity, size, k, total, n), data[n * size..n * size + size];
    forall col | 0 <= col < size
      ensures c[col] == b[col]
    {
      assert Slot(n, size, col) == n * size + col;
    }
  }

  /** A complete set of data shares in order. */
  ghost predicate Complete(s: seq<Share>, k: nat) {
    |s| == k && forall j :: 0 <= j < k ==> s[j].number == j
  }

  /** In order, but data share i is missing and a parity share stands at the end. */
  ghost predicate Lacks(s: seq<Share>, k: nat, i: nat) {
    && |s| == k && i < k && k <= s[k - 1].number
    && (forall j :: 0 <= j < i ==> s[j].number == j)
    && (forall j :: i <= j < k - 1 ==> s[j].number == j + 1)
  }

  ghost predicate SortedByNumber(s: seq<Share>) {
    forall i, j :: 0 <= i < j < |s| ==> s[i].number < s[j].number
  }

  lemma {:induction false} NumbersGrow(s: seq<Share>, j: nat)
    requires SortedByNumber(s) && j < |s|
    ensures j <= s[j].number
    ensures s[j].number + (|s| - 1 - j) <= s[|s| - 1].number
    decreases j
  {
    if j > 0 {
      NumbersGrow(s[..j], j - 1);
    }
    if j < |s| - 1 {
      LastIsFar(s, j);
    }
  }

  lemma {:induction false} LastIsFar(s: seq<Share>, j: nat)
    requires SortedByNumber(s) && j < |s|
    ensures s[j].number + (|s| - 1 - j) <= s[|s| - 1].number
    decreases |s| - j
  {
    if j < |s| - 1 {
      LastIsFar(s, j + 1);
    }
  }

  /** k ascending numbers of which all but the last are below k: complete, or one is missing. */
  lemma CompleteOrLacks(s: seq<Share>, k: nat) returns (i: nat)
    requires 0 < k == |s| && SortedByNumber(s) && forall j :: 0 <= j < k - 1 ==> s[j].number < k
    ensures if s[k - 1].number < k then Complete(s, k) else Lacks(s, k, i)
  {
    i := 0;
    forall j | 0 <= j < k
      ensures j <= s[j].number && s[j].number + (k - 1 - j) <= s[k - 1].number
    {
      NumbersGrow(s, j);
    }
    if s[k - 1].number >= k {
      while i < k - 1 && s[i].number == i
        invariant i <= k - 1 && forall j :: 0 <= j < i ==> s[j].number == j
      {
        i := i + 1;
      }
      forall j | i <= j < k - 1
        ensures s[j].number == j + 1
      {
        Shifted(s[..k - 1], i, j);
        LastIsFar(s[..k - 1], j);
      }
    }
  }

  lemma {:induction false} Shifted(s: seq<Share>, i: nat, j: nat)
    requires SortedByNumber(s) && i <= j < |s| && s[i].number > i
    ensures s[j].number > j
  {
    if i < j {
      Shifted(s, i, j - 1);
    }
  }

  // ---------------------------------------------------------------- which numbers are missing

  function Range(a: nat, b: nat): seq<nat>
    decreases b - a
  {
    if a >= b then [] else [a] + Range(a + 1, b)
  }

  /** NumberGaps between neighbours, then the numbers behind the last share, then those before the first. */
  function NumberGaps(s: seq<Share>): seq<nat> {
    if |s| < 2 then [] else NumberGaps(s[..|s| - 1]) + Range(s[|s| - 2].number + 1, s[|s| - 1].number)
  }

  function Missing(s: seq<Share>, k: nat): seq<nat> {
    NumberGaps(s) + Range(if s == [] then 0 else s[|s| - 1].number + 1, k) + Range(0, if s == [] then 0 else s[0].number)
  }

  lemma {:induction false} NoGaps(s: seq<Share>, from: nat)
    requires forall j :: 0 <= j < |s| ==> s[j].number == from + j
    ensures NumberGaps(s) == []
  {
    if |s| >= 2 {
      NoGaps(s[..|s| - 1], from);
    }
  }

  lemma {:induction false} OneGap(s: seq<Share>, i: nat)
    requires 0 < i < |s|
    requires (forall j :: 0 <= j < i ==> s[j].number == j) && forall j :: i <= j < |s| ==> s[j].number == j + 1
    ensures NumberGaps(s) == [i]
  {
    var n := |s| - 1;
    if i < n {
      OneGap(s[..n], i);
    } else {
      NoGaps(s[..n], 0);
      assert Range(i, i + 1) == [i];
    }
  }

  lemma MissingNone(s: seq<Share>, k: nat)
    requires 0 < k && Complete(s, k)
    ensures Missing(s, k) == []
  {
    NoGaps(s, 0);
  }

  lemma MissingOne(s: seq<Share>, k: nat, i: nat)
    requires Lacks(s, k, i)
    ensures Missing(s[..k - 1], k) == [i]
  {
    var t := s[..k - 1];
    assert Range(i, i + 1) == [i] + Range(i + 1, i + 1) == [i];
    if i == 0 {
      NoGaps(t, 1);
    } else if i == k - 1 {
      NoGaps(t, 0);
    } else {
      OneGap(t, i);
    }
  }

  // ---------------------------------------------------------------- the arrangement after the second sort

  /** Every share stands at its own place; at place i the stand-in carries the data of share r. */
  ghost predicate Arranged(t: seq<Share>, s: seq<Share>, k: nat, i: nat) {
    && |t| == |s| == k && i < k <= 256 && t[i] == Share(MAX - i, s[k - 1].data)
    && (forall j :: 0 <= j < i ==> t[j] == s[j] && t[j].number == j)
    && (forall j :: i < j < k ==> t[j] == s[j - 1] && t[j].number == j)
  }

  function Arrangement(s: seq<Share>, k: nat, i: nat): seq<Share>
    requires i < k == |s| && k <= 256
  {
    s[..i] + [Share(MAX - i, s[k - 1].data)] + s[i..k - 1]
  }

  lemma SortArranges(s: seq<Share>, k: nat, i: nat)
    requires Lacks(s, k, i) && k <= 256
    ensures var u := s[k - 1 := Share(MAX - i, s[k - 1].data)];
            Arranged(SortBy(x => Place(k, x), u), s, k, i)
  {
    hide Place, Arranged;
    var key: Share -> nat := x => Place(k, x);
    var x := Share(MAX - i, s[k - 1].data);
    var u, t := s[k - 1 := x], Arrangement(s, k, i);
    ArrangementIsArranged(s, k, i);
    assert u == s[..i] + s[i..k - 1] + [x];
    Reordered(s[..i], s[i..k - 1], x);
    SortedPlaces(key, u, t);
  }

  lemma ArrangementIsArranged(s: seq<Share>, k: nat, i: nat)
    requires Lacks(s, k, i) && k <= 256
    ensures Arranged(Arrangement(s, k, i), s, k, i)
    ensures forall j :: 0 <= j < k ==> Place(k, Arrangement(s, k, i)[j]) == j
  {
  }

  lemma Reordered<T>(a: seq<T>, b: seq<T>, x: T)
    ensures multiset(a + b + [x]) == multiset(a + [x] + b)
  {
  }

  lemma SortedPlaces(key: Share -> nat, u: seq<Share>, t: seq<Share>)
    requires multiset(u) == multiset(t) && forall j :: 0 <= j < |t| ==> key(t[j]) == j
    ensures SortBy(key, u) == t
  {
    SortOrder(key, u);
    forall x, y | x in multiset(t) && y in multiset(t) && key(x) == key(y)
      ensures x == y
    {
      var a :| 0 <= a < |t| && t[a] == x;
      var b :| 0 <= b < |t| && t[b] == y;
    }
    OrderedUnique(key, t, SortBy(key, u));
  }

  lemma SortStays(s: seq<Share>, k: nat)
    requires Complete(s, k)
    ensures SortBy(x => Place(k, x), s) == s
  {
    SortedPlaces(x => Place(k, x), s, s);
  }

  /** A parity row of the generator has no zero entry. */
  lemma ParityRowNonZero(k: nat, r: nat, i: nat)
    requires i < k <= r < 256
    ensures EncRow(k, r)[i] != 0
  {
    hide Eval, Basis, RowPoint;
    var b := Basis(k, i);
    var xs := seq(k, j requires 0 <= j < k => RowPoint(if j == i then r else j));
    if Eval(b, RowPoint(r)) == 0 {
      forall j | 0 <= j < k
        ensures Eval(b, xs[j]) == 0
      {
        BasisValues(k, i, j);
      }
      forall j, l | 0 <= j < l < k
        ensures xs[j] != xs[l]
      {
        var m, n := if j == i then r else j, if l == i then r else l;
        if m < n {
          RowPointsDiffer(m, n);
        } else {
          RowPointsDiffer(n, m);
        }
      }
      RootsDetermine(b, xs);
      EvalZeros(b, RowPoint(i));
      BasisValues(k, i, i);
      assert false;
    }
  }

  // ---------------------------------------------------------------- rebuild

  /** The shares come from one encoding. */
  ghost predicate FromEncoding(s: seq<Share>, data: seq<Elem>, parity: seq<Elem>, size: nat, k: nat, total: nat)
    requires k <= total && IsParity(data, parity, size, k, total - k)
  {
    forall j :: 0 <= j < |s| ==> s[j].number < total && s[j].data == Chunk(data, parity, size, k, total, s[j].number)
  }

  /** Share i's data is recovered from the stand-in's and the others'. */
  lemma RowRecovers(t: seq<Share>, s: seq<Share>, data: seq<Elem>, parity: seq<Elem>, size: nat, k: nat, total: nat, i: nat, col: nat)
    requires 0 < k <= total <= 256 && IsParity(data, parity, size, k, total - k) && col < size
    requires FromEncoding(s, data, parity, size, k, total) && Lacks(s, k, i) && Arranged(t, s, k, i)
    ensures s[k - 1].number < total && EncRow(k, s[k - 1].number)[i] != 0
    ensures forall j :: 0 <= j < k ==> |t[j].data| == size
    ensures Dot(InverseRow(EncRow(k, s[k - 1].number), i), seq(k, j requires 0 <= j < k => t[j].data[col]))
         == Stripe(data, size, k, col)[i]
  {
    hide EncRow, InverseRow, Eval, Interpolant, RowPoint, Stripe, Dot;
    var r := s[k - 1].number;
    var e, d := EncRow(k, r), Stripe(data, size, k, col);
    ParityRowNonZero(k, r, i);
    ParityIsInterpolant(d, r);
    assert e[..k] == e && d[..k] == d;
    var p := r - k;
    assert parity[Slot(p, size, col)] == Eval(Interpolant(d), RowPoint(k + p));
    InverseRowSolves(e, i, d);
    assert seq(k, j requires 0 <= j < k => t[j].data[col]) == d[i := Dot(e, d)];
  }

  ghost predicate EqualLengths(t: seq<Share>, size: nat) {
    forall j :: 0 <= j < |t| ==> |t[j].data| == size
  }

  lemma SortedMembers(key: Share -> nat, s: seq<Share>)
    ensures forall x :: x in SortBy(key, s) <==> x in s
  {
    SortOrder(key, s);
    forall x
      ensures x in SortBy(key, s) <==> x in s
    {
      assert x in SortBy(key, s) <==> x in multiset(SortBy(key, s));
      assert x in s <==> x in multiset(s);
    }
  }

  function ShareBytes(t: seq<Share>, size: nat, col: nat): (x: Row)
    requires EqualLengths(t, size) && col < size
    ensures |x| == |t|
  {
    seq(|t|, j requires 0 <= j < |t| => t[j].data[col])
  }

  /** One row of the inverse times the shares. */
  method RowTimesShares(tables: Tables, m: array2<Elem>, row: nat, t: seq<Share>, size: nat) returns (data: seq<Elem>)
    requires tables.Valid() && row < m.Length0 && m.Length1 == |t| && EqualLengths(t, size)
    ensures |data| == size && forall col :: 0 <= col < size ==> data[col] == Dot(View(m)[row], ShareBytes(t, size, col))
  {
    hide Mul, Add, Dot;
    ViewShape(m);
    ghost var x := View(m)[row];
    var buf := new Elem[size](_ => 0);
    forall col | 0 <= col < size
      ensures buf[col] == Dot(x[..0], ShareBytes(t, size, col)[..0])
    {
      DotEmpty(x[..0], ShareBytes(t, size, col)[..0]);
    }
    for j := 0 to |t|
      invariant tables.Valid() && tables.Apart(buf)
      invariant forall col :: 0 <= col < size ==> buf[col] == Dot(x[..j], ShareBytes(t, size, col)[..j])
    {
      ghost var before := buf[..];
      MulSliceXor(tables, m[row, j], t[j].data, buf, 0);
      forall col | 0 <= col < size
        ensures buf[col] == Dot(x[..j + 1], ShareBytes(t, size, col)[..j + 1])
      {
        assert before[col] == Dot(x[..j], ShareBytes(t, size, col)[..j]);
        DotSnoc(x, ShareBytes(t, size, col), j + 1);
      }
    }
    data := buf[..];
    assert x[..|t|] == x;
    forall col | 0 <= col < size
      ensures data[col] == Dot(x, ShareBytes(t, size, col))
    {
      assert ShareBytes(t, size, col)[..|t|] == ShareBytes(t, size, col);
    }
  }

  /** Row i of the working matrix becomes row r of the generator. */
  method CopyRow(m: array2<Elem>, enc: array2<Elem>, i: nat, r: nat)
    requires m != enc && m.Length1 == enc.Length1 && i < m.Length0 && r < enc.Length0
    modifies m
    ensures forall j :: 0 <= j < m.Length1 ==> m[i, j] == enc[r, j]
    ensures forall q, j :: 0 <= q < m.Length0 && q != i && 0 <= j < m.Length1 ==> m[q, j] == old(m[q, j])
  {
    for j := 0 to m.Length1
      invariant forall l :: 0 <= l < j ==> m[i, l] == enc[r, l]
      invariant forall q, l :: 0 <= q < m.Length0 && q != i && 0 <= l < m.Length1 ==> m[q, l] == old(m[q, l])
    {
      m[i, j] := enc[r, j];
    }
  }

  lemma {:induction false} RangeBelow(a: nat, b: nat)
    ensures forall x :: x in Range(a, b) ==> x < b
    decreases b - a
  {
    if a < b {
      RangeBelow(a + 1, b);
    }
  }

  lemma {:induction false} GapsBelow(s: seq<Share>, k: nat)
    requires forall j :: 0 <= j < |s| ==> s[j].number < k
    ensures forall x :: x in NumberGaps(s) ==> x < k
  {
    if |s| >= 2 {
      GapsBelow(s[..|s| - 1], k);
      RangeBelow(s[|s| - 2].number + 1, s[|s| - 1].number);
    }
  }

  lemma MissingBelow(s: seq<Share>, k: nat)
    requires forall j :: 0 <= j < |s| ==> s[j].number < k
    ensures forall j :: 0 <= j < |Missing(s, k)| ==> Missing(s, k)[j] < k
  {
    GapsBelow(s, k);
    RangeBelow(if s == [] then 0 else s[|s| - 1].number + 1, k);
    RangeBelow(0, if s == [] then 0 else s[0].number);
    var m := Missing(s, k);
    forall j | 0 <= j < |m|
      ensures m[j] < k
    {
      assert m[j] in m;
    }
  }

  /** Share j and all before it are data shares. */
  ghost predicate LeadsWithData(s: seq<Share>, j: nat, k: nat)
    requires j < |s|
  {
    forall l :: 0 <= l <= j ==> s[l].number < k
  }

  lemma LeadsInside(s: seq<Share>, k: nat, n: nat)
    requires n <= |s| && (n == |s| || s[n].number >= k)
    ensures forall j :: 0 <= j < |s| && LeadsWithData(s, j, k) ==> j < n
  {
  }

  /** The parity shares among the chosen ones stand in for missing data shares. */
  method StandIns(fec: Fec, s: seq<Share>, m: array2<Elem>) returns (u: seq<Share>)
    requires fec.Valid() && |s| == fec.required && m.Length0 == m.Length1 == fec.required && m != fec.encMatrix && m != fec.vandMatrix
    requires forall j :: 0 <= j < |s| ==> s[j].number < fec.total
    requires View(m) == Identity(fec.required)
    modifies m
    ensures |u| == |s| && forall j :: 0 <= j < |s| ==> u[j].data == s[j].data
    ensures forall j :: 0 <= j < |s| && LeadsWithData(s, j, fec.required) ==> u[j] == s[j]
    ensures Complete(s, fec.required) ==> u == s && View(m) == Identity(fec.required)
    ensures forall i :: Lacks(s, fec.required, i) ==>
              u == s[fec.required - 1 := Share(MAX - i, s[fec.required - 1].data)]
              && View(m) == WithRow(fec.required, i, EncRow(fec.required, s[fec.required - 1].number))
  {
    hide EncRow, Missing, LeadsWithData;
    var k := fec.required;
    var dataCount := 0;
    while dataCount < k && s[dataCount].number < k
      invariant dataCount <= k && forall j :: 0 <= j < dataCount ==> s[j].number < k
    {
      dataCount := dataCount + 1;
    }
    LeadsInside(s, k, dataCount);
    var missing := Missing(s[..dataCount], k);
    MissingBelow(s[..dataCount], k);
    assert k <= 256 && forall j :: 0 <= j < |missing| ==> missing[j] <= MAX;
    u := s;
    var count := if |missing| <= k - dataCount then |missing| else k - dataCount;
    if Complete(s, k) {
      assert s[..k] == s;
      MissingNone(s, k);
    }
    forall i: nat | Lacks(s, k, i)
      ensures dataCount == k - 1 && missing == [i] && count == 1
    {
      MissingOne(s, k, i);
    }
    for t := 0 to count
      invariant |u| == |s| && forall j :: 0 <= j < |s| ==> u[j].data == s[j].data
      invariant forall j :: 0 <= j < dataCount ==> u[j] == s[j]
      invariant t == 0 ==> u == s && View(m) == Identity(k)
      invariant fec.Valid()
      invariant t == 1 ==> u == s[dataCount := Share(MAX - missing[0], s[dataCount].data)]
      invariant t == 1 ==> View(m) == WithRow(k, missing[0], EncRow(k, s[dataCount].number))
    {
      ViewShape(m);
      CopyRow(m, fec.encMatrix, missing[t], s[dataCount + t].number);
      u := u[dataCount + t := Share(MAX - missing[t], u[dataCount + t].data)];
      if t == 0 {
        SameView(m, WithRow(k, missing[0], EncRow(k, s[dataCount].number)));
      }
    }
  }

  /** The `required` lowest-numbered shares come from one encoding and include at most one parity share. */
  ghost predicate Usable(s: seq<Share>, k: nat) {
    0 < k == |s| && SortedByNumber(s) && forall j :: 0 <= j < k - 1 ==> s[j].number < k
  }

  /** `rebuild`: with at most one parity share in use, every data block is restored at its place. */
  method Rebuild(fec: Fec, tables: Tables, shares: seq<Share>, ghost data: seq<Elem>, ghost parity: seq<Elem>, ghost size: nat) returns (result: Rebuilt)
    requires fec.Valid() && tables.Valid() && forall j :: 0 <= j < |shares| ==> shares[j].number < fec.total
    requires IsParity(data, parity, size, fec.required, fec.total - fec.required)
    ensures result == Err(NotEnoughShares) <==> |shares| < fec.required
    ensures |shares| >= fec.required ==>
              var s := SortBy(Number, shares)[..fec.required];
              && (result == Err(NotEqualLengths) <==> !EqualLengths(s, |s[0].data|))
              && (Usable(s, fec.required) && FromEncoding(s, data, parity, size, fec.required, fec.total) ==>
                    && result.Ok? && |result.shares| == fec.required
                    && Numbered(s, result.shares, fec.required)
                    && forall n :: 0 <= n < fec.required ==> result.shares[n].data == Chunk(data, parity, size, fec.required, fec.total, n))
              && (result.Ok? ==> forall j :: 0 <= j < fec.required && s[j].number < fec.required ==> s[j] in result.shares)
  {
    hide EncRow, IsParity, Chunk, Lacks, Complete;
    var k := fec.required;
    if |shares| < k {
      return Err(NotEnoughShares);
    }
    SortedMembers(Number, shares);
    var s := SortBy(Number, shares)[..k];
    forall j | 0 <= j < k
      ensures s[j].number < fec.total
    {
      assert s[j] in SortBy(Number, shares);
    }
    if exists j :: 0 <= j < k && |s[j].data| != |s[0].data| {
      return Err(NotEqualLengths);
    }
    result := RebuildSorted(fec, tables, s, data, parity, size);
    SortOrder(Number, shares);
    forall j | 0 <= j < k && s[j].number < k
      ensures LeadsWithData(s, j, k)
    {
      forall l | 0 <= l <= j
        ensures s[l].number < k
      {
        assert Number(s[l]) <= Number(s[j]);
      }
    }
  }

  /** The last loop: shares that stand in are replaced by the product of their row with all shares. */
  method FinalPass(tables: Tables, m: array2<Elem>, t: seq<Share>, k: nat, size: nat) returns (out: seq<Share>)
    requires tables.Valid() && m.Length0 == m.Length1 == k == |t| && EqualLengths(t, size)
    ensures |out| == k && EqualLengths(out, size)
    ensures forall q :: 0 <= q < k ==> out[q].number == t[q].number
    ensures forall q :: 0 <= q < k && t[q].number < k ==> out[q] == t[q]
    ensures forall q :: 0 <= q < k && t[q].number >= k && (forall j :: 0 <= j < k && j != q ==> t[j].number < k) ==>
              forall col :: 0 <= col < size ==> out[q].data[col] == Dot(View(m)[q], ShareBytes(t, size, col))
  {
    hide Dot;
    out := t;
    for q := 0 to k
      invariant |out| == k && EqualLengths(out, size)
      invariant forall j :: 0 <= j < k ==> out[j].number == t[j].number
      invariant forall j :: q <= j < k ==> out[j] == t[j]
      invariant forall j :: 0 <= j < q && t[j].number < k ==> out[j] == t[j]
      invariant (forall j :: 0 <= j < q ==> t[j].number < k) ==> out == t
      invariant forall p :: 0 <= p < q && t[p].number >= k && (forall j :: 0 <= j < k && j != p ==> t[j].number < k) ==>
                  forall col :: 0 <= col < size ==> out[p].data[col] == Dot(View(m)[p], ShareBytes(t, size, col))
    {
      if out[q].number < k {
        continue;
      }
      var data := RowTimesShares(tables, m, q, out, size);
      out := out[q := Share(out[q].number, data)];
    }
  }

  /** The second sort keeps the shares. */
  lemma SortKeepsLengths(k: nat, u: seq<Share>, size: nat)
    requires EqualLengths(u, size)
    ensures EqualLengths(SortBy(x => Place(k, x), u), size)
  {
    var t := SortBy(x => Place(k, x), u);
    SortedMembers(x => Place(k, x), u);
    forall j | 0 <= j < |t|
      ensures |t[j].data| == size
    {
      assert t[j] in u;
    }
  }

  lemma DataSharesStay(s: seq<Share>, u: seq<Share>, t: seq<Share>, out: seq<Share>, k: nat)
    requires |s| == |u| == |t| == |out| == k && t == SortBy(x => Place(k, x), u)
    requires forall j :: 0 <= j < k && LeadsWithData(s, j, k) ==> u[j] == s[j]
    requires forall q :: 0 <= q < k && t[q].number < k ==> out[q] == t[q]
    ensures forall j :: 0 <= j < k && LeadsWithData(s, j, k) ==> s[j] in out
  {
    SortedMembers(x => Place(k, x), u);
    hide SortBy;
    forall j | 0 <= j < k && LeadsWithData(s, j, k)
      ensures s[j] in out
    {
      assert u[j] in u && u[j] in t;
      var q :| 0 <= q < k && t[q] == s[j];
      assert out[q] == t[q];
    }
  }

  /** What the last loop makes of a complete set. */
  lemma CompleteIsData(s: seq<Share>, data: seq<Elem>, parity: seq<Elem>, size: nat, k: nat, total: nat, n: nat)
    requires k <= total && IsParity(data, parity, size, k, total - k)
    requires FromEncoding(s, data, parity, size, k, total) && Complete(s, k) && n < k
    ensures s[n].data == Chunk(data, parity, size, k, total, n) && s[n].number < k
  {
  }

  /** What the last loop makes of a set with one stand-in. */
  lemma StandInIsData(t: seq<Share>, s: seq<Share>, out: seq<Share>, data: seq<Elem>, parity: seq<Elem>, size: nat, k: nat, total: nat, i: nat, n: nat)
    requires 0 < k <= total <= 256 && IsParity(data, parity, size, k, total - k)
    requires FromEncoding(s, data, parity, size, k, total) && Lacks(s, k, i) && Arranged(t, s, k, i) && n < k
    requires s[k - 1].number < total && EncRow(k, s[k - 1].number)[i] != 0 && EqualLengths(t, size)
    requires |out| == k && EqualLengths(out, size) && forall q :: 0 <= q < k && q != i ==> out[q] == t[q]
    requires forall col :: 0 <= col < size ==> out[i].data[col] == Dot(InverseRow(EncRow(k, s[k - 1].number), i), ShareBytes(t, size, col))
    ensures out[n].data == Chunk(data, parity, size, k, total, n)
  {
    hide EncRow, InverseRow, Dot, IsParity, Stripe;
    if n == i {
      var c := Chunk(data, parity, size, k, total, i);
      forall col | 0 <= col < size
        ensures out[i].data[col] == c[col]
      {
        RowRecovers(t, s, data, parity, size, k, total, i, col);
        assert ShareBytes(t, size, col) == seq(k, j requires 0 <= j < k => t[j].data[col]);
      }
    }
  }

  lemma UnitRow(k: nat)
    requires k > 0
    ensures Unit(k, 0)[0] != 0 && WithRow(k, 0, Unit(k, 0)) == Identity(k)
  {
  }

  lemma ArrangedNumbers(t: seq<Share>, s: seq<Share>, k: nat, i: nat)
    requires Arranged(t, s, k, i)
    ensures forall j :: 0 <= j < k ==> (t[j].number < k <==> j != i)
  {
  }

  /** Complete and in order, or arranged with the stand-in at place i. */
  ghost predicate Settled(s: seq<Share>, t: seq<Share>, k: nat, i: nat)
    requires k > 0 && k <= 256
  {
    && |s| == |t| == k && i < k
    && if s[k - 1].number < k then Complete(s, k) && t == s
       else Lacks(s, k, i) && Arranged(t, s, k, i) && EncRow(k, s[k - 1].number)[i] != 0
  }

  /** The working matrix of a usable set is the identity with one row replaced, and the sorted shares match it. */
  lemma Prepared(s: seq<Share>, u: seq<Share>, m: Matrix, k: nat, total: nat) returns (i: nat, e: Row)
    requires 0 < k < total <= 256 && |s| == |u| == k && forall j :: 0 <= j < k ==> s[j].number < total
    requires Complete(s, k) ==> u == s && m == Identity(k)
    requires forall i :: Lacks(s, k, i) ==> u == s[k - 1 := Share(MAX - i, s[k - 1].data)] && m == WithRow(k, i, EncRow(k, s[k - 1].number))
    ensures i < k && |e| == k && e[i] != 0
    ensures Usable(s, k) ==> m == WithRow(k, i, e) && Settled(s, SortBy(x => Place(k, x), u), k, i)
    ensures Usable(s, k) && s[k - 1].number >= k ==> e == EncRow(k, s[k - 1].number)
  {
    hide EncRow, Lacks, Complete, Identity, WithRow, Arranged;
    i, e := 0, Unit(k, 0);
    UnitRow(k);
    if Usable(s, k) {
      var gap := CompleteOrLacks(s, k);
      if s[k - 1].number >= k {
        GapInside(s, k, gap);
        ParityRowNonZero(k, s[k - 1].number, gap);
        i, e := gap, EncRow(k, s[k - 1].number);
        SortArranges(s, k, i);
      } else {
        SortStays(s, k);
      }
    }
  }

  lemma GapInside(s: seq<Share>, k: nat, i: nat)
    requires Lacks(s, k, i)
    ensures i < k
  {
  }

  /** Data shares keep their number; a restored one is marked by the number counted down from the top. */
  ghost predicate Numbered(s: seq<Share>, out: seq<Share>, k: nat) {
    |out| == k && forall n :: 0 <= n < k ==>
      out[n].number == if exists j :: 0 <= j < |s| && s[j].number == n then n else MAX - n
  }

  lemma SettledNumbers(s: seq<Share>, t: seq<Share>, k: nat, i: nat)
    requires 0 < k <= 256 && |s| == |t| == k && i < k && Settled(s, t, k, i)
    ensures Numbered(s, t, k)
  {
    hide EncRow;
    forall n | 0 <= n < k
      ensures t[n].number == if exists j :: 0 <= j < |s| && s[j].number == n then n else MAX - n
    {
      if s[k - 1].number < k {
        assert s[n].number == n;
      } else if n < i {
        assert s[n].number == n;
      } else if n > i {
        assert s[n - 1].number == n;
      }
    }
  }

  lemma Restored(s: seq<Share>, t: seq<Share>, out: seq<Share>, v: Matrix, data: seq<Elem>, parity: seq<Elem>, size: nat, k: nat, total: nat, i: nat, e: Row)
    requires 0 < k <= total <= 256 && IsParity(data, parity, size, k, total - k) && FromEncoding(s, data, parity, size, k, total)
    requires |s| == |t| == |out| == k && IsMatrix(v, k, k) && EqualLengths(t, size) && EqualLengths(out, size)
    requires Settled(s, t, k, i) && |e| == k && i < k && e[i] != 0 && v == WithRow(k, i, InverseRow(e, i))
    requires s[k - 1].number >= k ==> e == EncRow(k, s[k - 1].number)
    requires forall q :: 0 <= q < k ==> out[q].number == t[q].number
    requires forall q :: 0 <= q < k && t[q].number < k ==> out[q] == t[q]
    requires forall q :: 0 <= q < k && t[q].number >= k && (forall j :: 0 <= j < k && j != q ==> t[j].number < k) ==>
               forall col :: 0 <= col < size ==> out[q].data[col] == Dot(v[q], ShareBytes(t, size, col))
    ensures forall n :: 0 <= n < k ==> out[n].data == Chunk(data, parity, size, k, total, n)
    ensures Numbered(s, out, k)
  {
    SettledNumbers(s, t, k, i);
    hide EncRow, IsParity, Chunk, Lacks, Complete, InverseRow, Arranged, Dot, Identity;
    forall n | 0 <= n < k
      ensures out[n].data == Chunk(data, parity, size, k, total, n)
    {
      if s[k - 1].number < k {
        CompleteIsData(s, data, parity, size, k, total, n);
      } else {
        ArrangedNumbers(t, s, k, i);
        assert v[i] == InverseRow(e, i);
        StandInIsData(t, s, out, data, parity, size, k, total, i, n);
      }
    }
  }

  lemma EncodedLength(s: seq<Share>, data: seq<Elem>, parity: seq<Elem>, size: nat, k: nat, total: nat)
    requires k <= total && IsParity(data, parity, size, k, total - k) && s != []
    requires FromEncoding(s, data, parity, size, k, total)
    ensures |s[0].data| == size
  {
  }

  /** The part of `rebuild` behind the checks. */
  method RebuildSorted(fec: Fec, tables: Tables, s: seq<Share>, ghost data: seq<Elem>, ghost parity: seq<Elem>, ghost size: nat) returns (result: Rebuilt)
    requires fec.Valid() && tables.Valid() && |s| == fec.required && EqualLengths(s, |s[0].data|)
    requires forall j :: 0 <= j < |s| ==> s[j].number < fec.total
    requires IsParity(data, parity, size, fec.required, fec.total - fec.required)
    ensures result.Ok? || result == Err(SingularMatrix)
    ensures Usable(s, fec.required) && FromEncoding(s, data, parity, size, fec.required, fec.total) ==>
              && result.Ok? && |result.shares| == fec.required
              && Numbered(s, result.shares, fec.required)
              && forall n :: 0 <= n < fec.required ==> result.shares[n].data == Chunk(data, parity, size, fec.required, fec.total, n)
    ensures result.Ok? ==> forall j :: 0 <= j < fec.required && LeadsWithData(s, j, fec.required) ==> s[j] in result.shares
  {
    hide EncRow, IsParity, Chunk, Lacks, Complete, Identity, WithRow, InverseRow, Settled, Usable, Dot, View, SortBy, Numbered, LeadsWithData;
    var k := fec.required;
    var m := new Elem[k, k]((i, j) => if i == j then 1 else 0);
    StartsAsIdentity(m, k);
    var u := StandIns(fec, s, m);
    ghost var usable := Usable(s, k) && FromEncoding(s, data, parity, size, k, fec.total);
    ghost var i, e := Prepared(s, u, View(m), k, fec.total);
    var t := SortBy(x => Place(k, x), u);
    SortKeepsLengths(k, u, |s[0].data|);
    var ok := InvertMatrix(m, k, i, e);
    if !ok {
      return Err(SingularMatrix);
    }
    var out := FinalPass(tables, m, t, k, |s[0].data|);
    DataSharesStay(s, u, t, out, k);
    if usable {
      EncodedLength(s, data, parity, size, k, fec.total);
      Restored(s, t, out, View(m), data, parity, size, k, fec.total, i, e);
    }
    result := Ok(out);
  }
}
