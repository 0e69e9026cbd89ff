/** The encoder: closed-form Vandermonde inverse, systematic generator matrix, parity blocks. */
module RsEncode {
  import opened Division
  import opened Gf256
  import opened GfPoly
  import opened GfMatrix
  import opened RsDecode
  import opened GfTables

  // ---------------------------------------------------------------- encoder points

  /** Row 0 of the Vandermonde matrix sits at 0, row n at 2^n. */
  function RowPoint(n: nat): Elem {
    if n == 0 then 0 else Pow2(n)
  }

  lemma RowPointsDiffer(m: nat, n: nat)
    requires m < n < 256
    ensures RowPoint(m) != RowPoint(n)
  {
    hide Pow2;
    if m == 0 {
      PowNonZero(n);
    } else {
      PowPeriodic(n);
      if n == 255 {
        PowDistinct(0, m);
      } else {
        PowDistinct(m, n);
      }
    }
  }

  /** The first k points. */
  function RowPoints(k: nat): (xs: seq<Elem>)
    ensures |xs| == k
  {
    seq(k, i requires 0 <= i < k => RowPoint(i))
  }

  lemma RowPointsDistinct(k: nat)
    requires k <= 256
    ensures Distinct(RowPoints(k))
  {
    hide RowPoint;
    forall i, j | 0 <= i < j < k
      ensures RowPoints(k)[i] != RowPoints(k)[j]
    {
      RowPointsDiffer(i, j);
    }
  }

  // ---------------------------------------------------------------- the polynomial with all points as roots

  function Master(n: nat): (m: Poly)
    ensures |m| == n + 1
  {
    if n == 0 then [1] else Sum(Shift(1, Master(n - 1)), GfPoly.Scale(RowPoint(n - 1), Master(n - 1)))
  }

  /** Coefficients of the next master polynomial; the constant term stays zero because 0 is the first root. */
  lemma {:induction false} MasterStep(n: nat)
    ensures Master(n)[n] == 1
    ensures 0 < n ==> Master(n)[0] == 0
    ensures forall s :: 1 <= s < n ==> Master(n)[s] == Add(Master(n - 1)[s - 1], Mul(RowPoint(n - 1), Master(n - 1)[s]))
  {
    hide Mul, Add;
    if n > 0 {
      MasterStep(n - 1);
      var m, p := Master(n - 1), RowPoint(n - 1);
      var a, b := Shift(1, m), GfPoly.Scale(p, m);
      SumEntries(a, b);
      hide Sum;
      assert Coef(a, n) == 1 && Coef(b, n) == 0 && Coef(a, 0) == 0 && Coef(b, 0) == Mul(p, m[0]);
      AddLaws(1, 0, 0);
      AddLaws(0, 0, 0);
      MulOne(p);
      MulOne(m[0]);
      if n == 1 {
        assert p == 0;
      }
    }
  }

  lemma SumEntries(a: Poly, b: Poly)
    ensures forall s :: 0 <= s < |Sum(a, b)| ==> Sum(a, b)[s] == Add(Coef(a, s), Coef(b, s))
  {
    hide Add;
  }

  lemma {:induction false} MasterRoot(n: nat, i: nat)
    requires i < n
    ensures Eval(Master(n), RowPoint(i)) == 0
  {
    hide Mul, Add, Eval, Sum, Shift, GfPoly.Scale, RowPoint;
    var m, p, x := Master(n - 1), RowPoint(n - 1), RowPoint(i);
    EvalSum(Shift(1, m), GfPoly.Scale(p, m), x);
    EvalShift(1, m, x);
    EvalScale(p, m, x);
    assert Exp(x, 1) == Mul(x, Exp(x, 0));
    MulOne(x);
    var y := Eval(m, x);
    if i == n - 1 {
      AddLaws(Mul(x, y), Mul(x, y), 0);
    } else {
      MasterRoot(n - 1, i);
      MulOne(p);
      AddLaws(0, 0, 0);
    }
  }

  // ---------------------------------------------------------------- Lagrange basis

  /** The master polynomial divided by X - x_i. */
  function Numerator(k: nat, i: nat): (b: Poly)
    ensures |b| == k
  {
    Quot(Master(k), RowPoint(i))
  }

  lemma NumeratorValues(k: nat, i: nat, j: nat)
    requires i < k <= 256 && j < k && i != j
    ensures Eval(Numerator(k, i), RowPoint(j)) == 0
  {
    hide Mul, Add, Eval, Quot, Master, RowPoint;
    var p, x := RowPoint(i), RowPoint(j);
    QuotLaw(Master(k), p, x);
    MasterRoot(k, i);
    MasterRoot(k, j);
    if i < j {
      RowPointsDiffer(i, j);
    } else {
      RowPointsDiffer(j, i);
    }
    var y := Eval(Numerator(k, i), x);
    AddLaws(Mul(Add(x, p), y), 0, 0);
    AddLaws(x, p, 0);
    MulNonZero(Add(x, p), y);
  }

  lemma {:induction false} QuotLead(p: Poly, r: Elem)
    requires |p| >= 2
    ensures Quot(p, r)[|p| - 2] == p[|p| - 1]
  {
    hide Mul, Add;
    if |p| > 2 {
      QuotLead(p[1..], r);
      assert Quot(p, r)[|p| - 2] == Quot(p[1..], r)[|p| - 3];
    } else {
      var t := p[1..];
      assert Quot(p, r)[0] == Eval(t, r) == Add(t[0], Mul(r, Eval(t[1..], r)));
      MulOne(r);
      AddLaws(t[0], 0, 0);
    }
  }

  lemma NumeratorNonZero(k: nat, i: nat)
    requires i < k <= 256
    ensures Eval(Numerator(k, i), RowPoint(i)) != 0
  {
    hide Eval, Quot, Master, RowPoint;
    var b := Numerator(k, i);
    MasterStep(k);
    QuotLead(Master(k), RowPoint(i));
    assert b[k - 1] == 1;
    if Eval(b, RowPoint(i)) == 0 {
      forall j | 0 <= j < k
        ensures Eval(b, RowPoints(k)[j]) == 0
      {
        if i != j {
          NumeratorValues(k, i, j);
        }
      }
      RowPointsDistinct(k);
      RootsDetermine(b, RowPoints(k));
      assert false;
    }
  }

  /** The polynomial of degree below k that is 1 at point i and 0 at the other points. */
  function Basis(k: nat, i: nat): (b: Poly)
    requires i < k <= 256
    ensures |b| == k
  {
    NumeratorNonZero(k, i);
    GfPoly.Scale(Inv(Eval(Numerator(k, i), RowPoint(i))), Numerator(k, i))
  }

  lemma BasisValues(k: nat, i: nat, j: nat)
    requires i < k <= 256 && j < k
    ensures Eval(Basis(k, i), RowPoint(j)) == if i == j then 1 else 0
  {
    hide Mul, Eval, Numerator, RowPoint, GfPoly.Scale, Inv;
    NumeratorNonZero(k, i);
    var t := Eval(Numerator(k, i), RowPoint(i));
    EvalScale(Inv(t), Numerator(k, i), RowPoint(j));
    MulInverse(t);
    MulComm(t, Inv(t));
    if i != j {
      NumeratorValues(k, i, j);
      MulOne(Inv(t));
    }
  }

  /** As matrices: the powers of the points times the basis coefficients give the identity. */
  lemma VandermondeInverse(k: nat, i: nat, j: nat)
    requires i < k <= 256 && j < k
    ensures Dot(Powers(RowPoint(j), k), Basis(k, i)) == Unit(k, j)[i]
  {
    hide Mul, Eval, Basis, RowPoint, Dot, Powers;
    DotPowers(RowPoint(j), Basis(k, i));
    BasisValues(k, i, j);
  }

  // ---------------------------------------------------------------- create_inverted_vdm

  /** The array holds the coefficients of the first n points' polynomial, aligned to the end, without the leading 1. */
  ghost predicate HoldsMaster(c: seq<Elem>, n: nat) {
    && 1 <= n <= |c|
    && (forall s :: 0 <= s < n ==> c[|c| - n + s] == Master(n)[s])
    && (forall j :: 0 <= j < |c| - n ==> c[j] == 0)
  }

  /** The first loop of `create_inverted_vdm`: multiply in one point after the other. */
  method MasterCoefficients(k: nat) returns (c: array<Elem>)
    requires 1 <= k <= 256
    ensures fresh(c) && c.Length == k && forall j :: 0 <= j < k ==> c[j] == Master(k)[j]
  {
    hide Mul, Add, RowPoint, Master;
    c := new Elem[k](_ => 0);
    c[k - 1] := 0;
    MasterStep(1);
    for i := 1 to k
      invariant HoldsMaster(c[..], i)
    {
      ghost var before := c[..];
      var p := RowPoint(i);
      for j := k - i to k - 1
        invariant forall t :: k - i <= t < j ==> c[t] == Add(before[t], Mul(p, before[t + 1]))
        invariant forall t :: 0 <= t < k - i || j <= t < k ==> c[t] == before[t]
      {
        c[j] := Add(c[j], Mul(p, c[j + 1]));
      }
      c[k - 1] := Add(c[k - 1], p);
      NextMaster(before, c[..], i, p);
    }
  }

  lemma NextMaster(before: seq<Elem>, c: seq<Elem>, i: nat, p: Elem)
    requires HoldsMaster(before, i) && |c| == |before| && i < |c| && p == RowPoint(i)
    requires forall t :: |c| - i <= t < |c| - 1 ==> c[t] == Add(before[t], Mul(p, before[t + 1]))
    requires c[|c| - 1] == Add(before[|c| - 1], p)
    requires forall t :: 0 <= t < |c| - i && t != |c| - 1 ==> c[t] == before[t]
    ensures HoldsMaster(c, i + 1)
  {
    hide Mul, Add, RowPoint, Master;
    var k := |c|;
    MasterStep(i);
    MasterStep(i + 1);
    var next := Master(i + 1);
    forall s | 0 <= s < i + 1
      ensures c[k - (i + 1) + s] == next[s]
    {
      if 0 < s {
        assert next[s] == Add(Master(i)[s - 1], Mul(p, Master(i)[s]));
        assert before[k - i + (s - 1)] == Master(i)[s - 1];
        if s == i {
          MulOne(p);
        } else {
          assert before[k - i + s] == Master(i)[s];
        }
      }
    }
  }

  /** The second loop: synthetic division by X - p, with the value of the quotient at p alongside. */
  method DivideByPoint(c: array<Elem>, p: Elem, k: nat) returns (b: array<Elem>, t: Elem)
    requires 1 <= k <= 256 && c.Length == k && forall j :: 0 <= j < k ==> c[j] == Master(k)[j]
    ensures fresh(b) && b[..] == Quot(Master(k), p) && t == Eval(b[..], p)
  {
    hide Mul, Add, Master, Quot, Eval;
    b := new Elem[k](_ => 0);
    t := 1;
    b[k - 1] := 1;
    MasterStep(k);
    SuffixStart(Master(k), b[..], p);
    for i := k - 1 downto 0
      invariant b[i..] == Quot(Master(k), p)[i..]
      invariant t == Eval(b[i..], p)
    {
      ghost var later := b[i + 1..];
      assert b[i + 1] == later[0];
      QuotSuffix(Master(k), p, i);
      SuffixCons(Quot(Master(k), p), i);
      b[i] := Add(c[i + 1], Mul(p, b[i + 1]));
      EvalCons(b[i], later, p);
      t := Add(b[i], Mul(p, t));
      assert b[i..] == [b[i]] + later;
    }
    assert b[0..] == b[..] && Quot(Master(k), p)[0..] == Quot(Master(k), p);
  }

  lemma SuffixCons<T>(q: seq<T>, i: nat)
    requires i < |q|
    ensures q[i..] == [q[i]] + q[i + 1..]
  {
  }

  lemma EvalCons(x: Elem, later: seq<Elem>, p: Elem)
    ensures Eval([x] + later, p) == Add(x, Mul(p, Eval(later, p)))
  {
    hide Mul, Add;
    assert ([x] + later)[1..] == later;
  }

  /** Coefficient i of the quotient is the value of the coefficients above it, hence the Horner recurrence. */
  lemma {:induction false} QuotSuffix(m: Poly, p: Elem, i: nat)
    requires |m| >= 2 && i < |m| - 1
    ensures Quot(m, p)[i] == Eval(m[i + 1..], p)
    ensures i + 1 < |m| - 1 ==> Quot(m, p)[i] == Add(m[i + 1], Mul(p, Quot(m, p)[i + 1]))
  {
    hide Mul, Add;
    QuotEntry(m, p, i);
    if i + 1 < |m| - 1 {
      QuotEntry(m, p, i + 1);
      assert m[i + 1..][1..] == m[i + 2..];
    }
  }

  lemma {:induction false} QuotEntry(m: Poly, p: Elem, i: nat)
    requires |m| >= 2 && i < |m| - 1
    ensures Quot(m, p)[i] == Eval(m[i + 1..], p)
  {
    hide Mul, Add, Eval;
    if i > 0 {
      QuotEntry(m[1..], p, i - 1);
      assert m[1..][i..] == m[i + 1..];
      assert Quot(m, p)[i] == Quot(m[1..], p)[i - 1];
    }
  }

  lemma SuffixStart(m: Poly, b: seq<Elem>, p: Elem)
    requires |m| >= 2 && |b| == |m| - 1 && m[|m| - 1] == 1 && b[|b| - 1] == 1
    ensures b[|b| - 1..] == Quot(m, p)[|b| - 1..] && Eval(b[|b| - 1..], p) == 1
  {
    hide Mul, Add;
    QuotLead(m, p);
    var l := b[|b| - 1..];
    assert l == [1] && l[1..] == [];
    assert Eval(l, p) == Add(1, Mul(p, Eval([], p)));
    MulOne(p);
    AddLaws(1, 0, 0);
  }

  /** `create_inverted_vdm`: column i of the top block receives the Lagrange basis polynomial of point i. */
  method CreateInvertedVdm(vdm: array2<Elem>, k: nat)
    requires 1 <= k <= 256 && vdm.Length0 >= k && vdm.Length1 == k
    modifies vdm
    ensures forall i, c :: 0 <= i < k && 0 <= c < k ==> vdm[c, i] == Basis(k, i)[c]
    ensures forall r, c :: k <= r < vdm.Length0 && 0 <= c < k ==> vdm[r, c] == old(vdm[r, c])
  {
    hide Mul, Add, RowPoint, Master, Quot, Basis, Eval, Inv;
    if k == 1 {
      SingleBasis();
      vdm[0, 0] := 1;
      return;
    }
    var coefs := MasterCoefficients(k);
    for row := 0 to k
      invariant forall i, c :: 0 <= i < row && 0 <= c < k ==> vdm[c, i] == Basis(k, i)[c]
      invariant forall r, c :: k <= r < vdm.Length0 && 0 <= c < k ==> vdm[r, c] == old(vdm[r, c])
      invariant forall j :: 0 <= j < k ==> coefs[j] == Master(k)[j]
    {
      var b, t := DivideByPoint(coefs, RowPoint(row), k);
      BasisEntries(k, row);
      for col := 0 to k
        invariant forall i, c :: 0 <= i < row && 0 <= c < k ==> vdm[c, i] == Basis(k, i)[c]
        invariant forall c :: 0 <= c < col ==> vdm[c, row] == Basis(k, row)[c]
        invariant forall r, c :: k <= r < vdm.Length0 && 0 <= c < k ==> vdm[r, c] == old(vdm[r, c])
        invariant b[..] == Numerator(k, row)
        invariant forall j :: 0 <= j < k ==> coefs[j] == Master(k)[j]
      {
        assert b[col] == b[..][col];
        vdm[col, row] := Mul(Inv(t), b[col]);
      }
    }
  }

  lemma BasisEntries(k: nat, i: nat)
    requires i < k <= 256
    ensures Eval(Numerator(k, i), RowPoint(i)) != 0
    ensures forall c :: 0 <= c < k ==> Basis(k, i)[c] == Mul(Inv(Eval(Numerator(k, i), RowPoint(i))), Numerator(k, i)[c])
  {
    hide Mul, Eval, Numerator, RowPoint, Inv;
    NumeratorNonZero(k, i);
  }

  lemma SingleBasis()
    ensures Basis(1, 0) == [1]
  {
    hide Mul, Basis, Add;
    BasisValues(1, 0, 0);
    var b := Basis(1, 0);
    assert b[1..] == [];
    assert Eval(b, RowPoint(0)) == Add(b[0], Mul(RowPoint(0), 0));
    MulOne(RowPoint(0));
    AddLaws(b[0], 0, 0);
    assert b == [b[0]];
  }

  // ---------------------------------------------------------------- generator matrix

  lemma MulPow(a: nat, b: nat)
    ensures Mul(Pow2(a), Pow2(b)) == Pow2(a + b)
  {
    hide Pow2, Log, Times;
    PowPeriodic(a);
    PowPeriodic(b);
    LogOfPow(a % 255);
    LogOfPow(b % 255);
    PowPeriodic(a + b);
    PowPeriodic(a % 255 + b % 255);
    var s := a % 255 + b % 255;
    DivModUnique(a + b, 255, a / 255 + b / 255 + s / 255, s % 255);
  }

  lemma {:induction false} PowerOfRow(row: nat, col: nat)
    ensures Exp(Pow2(row), col) == Pow2(row * col)
  {
    hide Pow2, Mul;
    if col == 0 {
      PowZero();
      assert row * 0 == 0;
    } else {
      PowerOfRow(row, col - 1);
      MulPow(row, row * (col - 1));
      assert row + row * (col - 1) == row * col;
    }
  }

  lemma PowZero()
    ensures Pow2(0) == 1
  {
  }

  /** Row r of the systematic generator: the basis polynomials at point r. */
  function EncRow(k: nat, r: nat): (row: Row)
    requires k <= 256
    ensures |row| == k
  {
    seq(k, c requires 0 <= c < k => Eval(Basis(k, c), RowPoint(r)))
  }

  /** The polynomial of degree below k through the data bytes at the first k points. */
  function Interpolant(d: seq<Elem>): (p: Poly)
    requires |d| <= 256
    ensures |p| == |d|
  {
    InterpolantUpTo(d, |d|)
  }

  function InterpolantUpTo(d: seq<Elem>, n: nat): (p: Poly)
    requires n <= |d| <= 256
    ensures |p| == |d|
  {
    if n == 0 then Zeros(|d|)
    else Sum(InterpolantUpTo(d, n - 1), GfPoly.Scale(d[n - 1], Basis(|d|, n - 1)))
  }

  /** Evaluating the interpolant at point r is the product of generator row r with the data. */
  lemma {:induction false} InterpolantIsDot(d: seq<Elem>, n: nat, r: nat)
    requires n <= |d| <= 256
    ensures Eval(InterpolantUpTo(d, n), RowPoint(r)) == Dot(EncRow(|d|, r)[..n], d[..n])
  {
    hide Mul, Add, Eval, Basis, RowPoint, Sum, GfPoly.Scale, Dot;
    var x := RowPoint(r);
    if n == 0 {
      EvalZeros(Zeros(|d|), x);
      DotEmpty(EncRow(|d|, r)[..0], d[..0]);
    } else {
      var p, b := InterpolantUpTo(d, n - 1), Basis(|d|, n - 1);
      InterpolantIsDot(d, n - 1, r);
      EvalSum(p, GfPoly.Scale(d[n - 1], b), x);
      EvalScale(d[n - 1], b, x);
      DotSnoc(EncRow(|d|, r), d, n);
      MulComm(d[n - 1], Eval(b, x));
    }
  }

  /** The first k rows of the generator are the identity: the code is systematic. */
  lemma InterpolantThroughData(d: seq<Elem>, i: nat)
    requires i < |d| <= 256
    ensures Eval(Interpolant(d), RowPoint(i)) == d[i]
    ensures EncRow(|d|, i) == Unit(|d|, i)
  {
    hide Mul, Add, Eval, Basis, RowPoint, Dot, InterpolantUpTo;
    var k := |d|;
    forall c | 0 <= c < k
      ensures EncRow(k, i)[c] == Unit(k, i)[c]
    {
      BasisValues(k, c, i);
    }
    assert EncRow(k, i) == Unit(k, i);
    InterpolantIsDot(d, k, i);
    assert EncRow(k, i)[..k] == EncRow(k, i) && d[..k] == d;
    DotUnit(k, i, d);
    assert Interpolant(d) == InterpolantUpTo(d, k);
  }

  // ---------------------------------------------------------------- Fec

  datatype EncodeStatus = Encoded | InvalidDataLength | InvalidParityLength

  /** Byte `col` of block i in a buffer of equal blocks. */
  function Slot(i: nat, size: nat, col: nat): nat {
    i * size + col
  }

  lemma {:induction false} BlockInside(i: nat, n: nat, size: nat)
    requires i < n
    ensures i * size + size <= n * size
  {
    assert n * size == (n - 1) * size + size;
    if i < n - 1 {
      BlockInside(i, n - 1, size);
    }
  }

  lemma SlotInside(i: nat, n: nat, size: nat, col: nat)
    requires i < n && col < size
    ensures Slot(i, size, col) < Slot(i, size, 0) + size <= n * size
  {
    BlockInside(i, n, size);
  }

  /** Byte `col` of every data block. */
  function Stripe(data: seq<Elem>, size: nat, k: nat, col: nat): (d: seq<Elem>)
    requires |data| == k * size && col < size
    ensures |d| == k
  {
    seq(k, j requires 0 <= j < k => (SlotInside(j, k, size, col); data[Slot(j, size, col)]))
  }

  /** `Fec`: the encoder for a given number of required and total shares. */
  class Fec {
    const required: nat
    const total: nat
    const encMatrix: array2<Elem>
    const vandMatrix: array2<Elem>

    ghost predicate Valid()
      reads encMatrix, vandMatrix
    {
      && 0 < required < total <= 256
      && encMatrix.Length0 == total && encMatrix.Length1 == required
      && vandMatrix.Length0 == required && vandMatrix.Length1 == total
      && (forall r, c :: 0 <= r < total && 0 <= c < required ==> encMatrix[r, c] == EncRow(required, r)[c])
      && (forall r, c :: 0 <= r < required && 0 <= c < total ==> vandMatrix[r, c] == Exp(Point(c), r))
    }

    /** `Fec::new`. */
    constructor (required: nat, total: nat)
      requires 0 < required < total <= 256
      ensures Valid() && fresh(encMatrix) && fresh(vandMatrix)
      ensures this.required == required && this.total == total
    {
      var enc := GeneratorMatrix(required, total);
      var vand := VandermondeMatrix(required, total);
      this.required, this.total := required, total;
      encMatrix, vandMatrix := enc, vand;
    }

    /** `Fec::encode`: every parity byte is its stripe's interpolant at the parity share's point. */
    method Encode(tables: Tables, data: seq<Elem>, parity: array<Elem>) returns (status: EncodeStatus)
      requires Valid() && tables.Valid() && tables.Apart(parity) && encMatrix as object != parity && vandMatrix as object != parity
      requires data != [] || parity.Length > 0
      modifies parity
      ensures Valid()
      ensures status == if |data| % required != 0 then InvalidDataLength
                        else if parity.Length != |data| / required * (total - required) then InvalidParityLength
                        else Encoded
      ensures status != Encoded ==> parity[..] == old(parity[..])
      ensures status == Encoded ==>
                IsParity(data, parity[..], |data| / required, required, total - required)
    {
      hide IsParity;
      var size := |data| / required;
      if size * required != |data| {
        return InvalidDataLength;
      }
      if size * (total - required) != parity.Length {
        return InvalidParityLength;
      }
      EncodeBlocks(tables, data, parity, size);
      status := Encoded;
    }

    method EncodeBlocks(tables: Tables, data: seq<Elem>, parity: array<Elem>, size: nat)
      requires Valid() && tables.Valid() && tables.Apart(parity) && encMatrix as object != parity && vandMatrix as object != parity
      requires |data| == required * size && parity.Length == (total - required) * size
      modifies parity
      ensures Valid() && IsParity(data, parity[..], size, required, total - required)
    {
      hide IsParity, Slot;
      ZeroFill(parity);
      NoBlocksYet(data, parity[..], size, required);
      for i := 0 to total - required
        invariant Valid() && tables.Valid()
        invariant IsParity(data, parity[..], size, required, i)
        invariant forall u :: Slot(i, size, 0) <= u < parity.Length ==> parity[u] == 0
      {
        NextBlock(tables, data, parity, size, i);
      }
    }

    /** Block i, from the state in which the blocks before it are done. */
    method NextBlock(tables: Tables, data: seq<Elem>, parity: array<Elem>, size: nat, i: nat)
      requires Valid() && tables.Valid() && tables.Apart(parity) && encMatrix as object != parity && vandMatrix as object != parity
      requires i < total - required && |data| == required * size && parity.Length == (total - required) * size
      requires IsParity(data, parity[..], size, required, i)
      requires forall u :: Slot(i, size, 0) <= u < parity.Length ==> parity[u] == 0
      modifies parity
      ensures Valid() && tables.Valid() && IsParity(data, parity[..], size, required, i + 1)
      ensures forall u :: Slot(i + 1, size, 0) <= u < parity.Length ==> parity[u] == 0
    {
      hide IsParity, Eval, Interpolant, RowPoint, Stripe;
      NextSlot(i, total - required, size);
      ghost var before := parity[..];
      EncodeBlock(tables, data, parity, size, i);
      OneMoreBlock(data, before, parity[..], size, required, i);
    }

    /** One parity block: data block after data block is multiplied in. */
    method EncodeBlock(tables: Tables, data: seq<Elem>, parity: array<Elem>, size: nat, i: nat)
      requires Valid() && tables.Valid() && tables.Apart(parity) && encMatrix as object != parity && vandMatrix as object != parity
      requires i < total - required && |data| == required * size
      requires Slot(i, size, 0) + size <= parity.Length
      requires forall u :: Slot(i, size, 0) <= u < parity.Length ==> parity[u] == 0
      modifies parity
      ensures Valid() && tables.Valid()
      ensures forall col :: 0 <= col < size ==>
                parity[Slot(i, size, col)] == Eval(Interpolant(Stripe(data, size, required, col)), RowPoint(required + i))
      ensures forall u :: 0 <= u < Slot(i, size, 0) || Slot(i, size, 0) + size <= u < parity.Length ==> parity[u] == old(parity[u])
    {
      hide Mul, Add, Eval, Interpolant, RowPoint, EncRow, Dot, Stripe;
      ghost var row := EncRow(required, required + i);
      var at := i * size;
      forall col | 0 <= col < size
        ensures parity[at + col] == Dot(row[..0], Stripe(data, size, required, col)[..0])
      {
        DotEmpty(row[..0], Stripe(data, size, required, col)[..0]);
      }
      for j := 0 to required
        invariant Valid() && tables.Valid()
        invariant forall col :: 0 <= col < size ==> parity[at + col] == Dot(row[..j], Stripe(data, size, required, col)[..j])
        invariant forall u :: 0 <= u < at || at + size <= u < parity.Length ==> parity[u] == old(parity[u])
      {
        BlockInside(j, required, size);
        ghost var before := parity[..];
        var block := data[j * size..j * size + size];
        MulSliceXor(tables, encMatrix[i + required, j], block, parity, at);
        forall col | 0 <= col < size
          ensures parity[at + col] == Dot(row[..j + 1], Stripe(data, size, required, col)[..j + 1])
        {
          assert before[at + col] == Dot(row[..j], Stripe(data, size, required, col)[..j]);
          assert parity[at + col] == Add(before[at + col], Mul(row[j], block[col]));
          StripeAt(data, size, required, col, j);
          DotSnoc(row, Stripe(data, size, required, col), j + 1);
        }
      }
      forall col | 0 <= col < size
        ensures parity[Slot(i, size, col)] == Eval(Interpolant(Stripe(data, size, required, col)), RowPoint(required + i))
      {
        ParityIsInterpolant(Stripe(data, size, required, col), required + i);
        assert parity[at + col] == Dot(row[..required], Stripe(data, size, required, col)[..required]);
      }
    }
  }

  lemma StripeAt(data: seq<Elem>, size: nat, k: nat, col: nat, j: nat)
    requires |data| == k * size && col < size && j < k
    ensures j * size + col < j * size + size <= |data|
    ensures Stripe(data, size, k, col)[j] == data[j * size + col]
  {
    SlotInside(j, k, size, col);
  }

  lemma ParityIsInterpolant(d: seq<Elem>, r: nat)
    requires |d| <= 256
    ensures Dot(EncRow(|d|, r)[..|d|], d[..|d|]) == Eval(Interpolant(d), RowPoint(r))
  {
    hide Eval, Dot, InterpolantUpTo, EncRow, RowPoint;
    InterpolantIsDot(d, |d|, r);
    assert Interpolant(d) == InterpolantUpTo(d, |d|);
  }

  lemma OneMoreBlock(data: seq<Elem>, before: seq<Elem>, parity: seq<Elem>, size: nat, k: nat, i: nat)
    requires IsParity(data, before, size, k, i) && |parity| == |before| && Slot(i, size, 0) + size <= |parity|
    requires forall col :: 0 <= col < size ==>
               parity[Slot(i, size, col)] == Eval(Interpolant(Stripe(data, size, k, col)), RowPoint(k + i))
    requires forall u :: 0 <= u < Slot(i, size, 0) ==> parity[u] == before[u]
    ensures IsParity(data, parity, size, k, i + 1)
  {
    hide Eval, Interpolant, RowPoint, Stripe;
    forall r, col | 0 <= r < i + 1 && 0 <= col < size
      ensures Slot(r, size, col) < |parity|
      ensures parity[Slot(r, size, col)] == Eval(Interpolant(Stripe(data, size, k, col)), RowPoint(k + r))
    {
      if r < i {
        assert Slot(r, size, col) < |before|;
        EarlierSlot(r, i, size, col);
      }
    }
  }

  lemma EarlierSlot(r: nat, i: nat, size: nat, col: nat)
    requires r < i && col < size
    ensures Slot(r, size, col) < Slot(i, size, 0)
  {
    BlockInside(r, i, size);
  }

  lemma NoBlocksYet(data: seq<Elem>, parity: seq<Elem>, size: nat, k: nat)
    requires |data| == k * size && k <= 256
    ensures IsParity(data, parity, size, k, 0)
  {
  }

  lemma NextSlot(i: nat, n: nat, size: nat)
    requires i < n
    ensures Slot(i, size, 0) + size <= n * size && Slot(i + 1, size, 0) == Slot(i, size, 0) + size
  {
    BlockInside(i, n, size);
  }

  method ZeroFill(out: array<Elem>)
    modifies out
    ensures forall u :: 0 <= u < out.Length ==> out[u] == 0
  {
    for t := 0 to out.Length
      invariant forall u :: 0 <= u < t ==> out[u] == 0
    {
      out[t] := 0;
    }
  }

  /** The first n parity blocks hold the stripes' interpolants at the parity points. */
  ghost predicate IsParity(data: seq<Elem>, parity: seq<Elem>, size: nat, k: nat, n: nat)
  {
    && |data| == k * size && k <= 256
    && forall i, col :: 0 <= i < n && 0 <= col < size ==>
         && Slot(i, size, col) < |parity|
         && parity[Slot(i, size, col)] == Eval(Interpolant(Stripe(data, size, k, col)), RowPoint(k + i))
  }

  /** Vandermonde rows times the inverted Vandermonde block, under the identity. */
  method GeneratorMatrix(required: nat, total: nat) returns (enc: array2<Elem>)
    requires 0 < required < total <= 256
    ensures fresh(enc) && enc.Length0 == total && enc.Length1 == required
    ensures forall r, c :: 0 <= r < total && 0 <= c < required ==> enc[r, c] == EncRow(required, r)[c]
  {
    hide Mul, Add, Basis, RowPoint, Eval, EncRow, Exp, Pow2;
    var vdm := new Elem[total, required]((i, j) => 0);
    CreateInvertedVdm(vdm, required);
    FillPowers(vdm, required);
    enc := new Elem[total, required]((i, j) => if i == j then 1 else 0);
    forall r, c | 0 <= r < required && 0 <= c < required
      ensures enc[r, c] == EncRow(required, r)[c]
    {
      InterpolantThroughData(ZeroRow(required), r);
    }
    for row := required to total
      invariant enc != vdm
      invariant forall i, c :: 0 <= i < required && 0 <= c < required ==> vdm[c, i] == Basis(required, i)[c]
      invariant forall r, c :: required <= r < total && 0 <= c < required ==> vdm[r, c] == Exp(RowPoint(r), c)
      invariant forall r, c :: 0 <= r < row && 0 <= c < required ==> enc[r, c] == EncRow(required, r)[c]
    {
      ParityRow(vdm, enc, required, row);
    }
  }

  /** Below the inverted block, row r holds the powers of its point. */
  method FillPowers(vdm: array2<Elem>, k: nat)
    requires 0 < k <= vdm.Length0 <= 256 && vdm.Length1 == k
    modifies vdm
    ensures forall r, c :: 0 <= r < k && 0 <= c < k ==> vdm[r, c] == old(vdm[r, c])
    ensures forall r, c :: k <= r < vdm.Length0 && 0 <= c < k ==> vdm[r, c] == Exp(RowPoint(r), c)
  {
    hide RowPoint, Exp, Pow2;
    for row := k to vdm.Length0
      invariant forall r, c :: 0 <= r < k && 0 <= c < k ==> vdm[r, c] == old(vdm[r, c])
      invariant forall r, c :: k <= r < row && 0 <= c < k ==> vdm[r, c] == Exp(RowPoint(r), c)
    {
      for col := 0 to k
        invariant forall r, c :: 0 <= r < k && 0 <= c < k ==> vdm[r, c] == old(vdm[r, c])
        invariant forall r, c :: k <= r < row && 0 <= c < k ==> vdm[r, c] == Exp(RowPoint(r), c)
        invariant forall c :: 0 <= c < col ==> vdm[row, c] == Exp(RowPoint(row), c)
      {
        RowPower(row, col);
        vdm[row, col] := Pow2(row * col % 255);
      }
    }
  }

  /** One parity row of the generator. */
  method ParityRow(vdm: array2<Elem>, enc: array2<Elem>, k: nat, row: nat)
    requires 0 < k <= row < vdm.Length0 && vdm.Length1 == k <= 256
    requires enc != vdm && enc.Length0 == vdm.Length0 && enc.Length1 == k
    requires forall i, c :: 0 <= i < k && 0 <= c < k ==> vdm[c, i] == Basis(k, i)[c]
    requires forall c :: 0 <= c < k ==> vdm[row, c] == Exp(RowPoint(row), c)
    modifies enc
    ensures forall c :: 0 <= c < k ==> enc[row, c] == EncRow(k, row)[c]
    ensures forall r, c :: 0 <= r < enc.Length0 && 0 <= c < k && r != row ==> enc[r, c] == old(enc[r, c])
  {
    hide Basis, RowPoint, EncRow, Exp;
    for col := 0 to k
      invariant forall c :: 0 <= c < col ==> enc[row, c] == EncRow(k, row)[c]
      invariant forall r, c :: 0 <= r < enc.Length0 && 0 <= c < k && r != row ==> enc[r, c] == old(enc[r, c])
    {
      enc[row, col] := GeneratorEntry(vdm, k, row, col);
    }
  }

  lemma RowPower(row: nat, col: nat)
    requires 0 < row < 256
    ensures Pow2(row * col % 255) == Exp(RowPoint(row), col)
  {
    hide Pow2, Exp;
    PowPeriodic(row * col);
    PowerOfRow(row, col);
  }

  /** One inner product of the generator. */
  method GeneratorEntry(vdm: array2<Elem>, k: nat, row: nat, col: nat) returns (acc: Elem)
    requires 0 < k <= row < vdm.Length0 && vdm.Length1 == k <= 256 && col < k
    requires forall c :: 0 <= c < k ==> vdm[c, col] == Basis(k, col)[c]
    requires forall c :: 0 <= c < k ==> vdm[row, c] == Exp(RowPoint(row), c)
    ensures acc == EncRow(k, row)[col]
  {
    hide Mul, Add, Basis, RowPoint, Eval, Exp, Dot;
    ghost var x, b := Powers(RowPoint(row), k), Basis(k, col);
    acc := 0;
    DotEmpty(x[..0], b[..0]);
    for i := 0 to k
      invariant acc == Dot(x[..i], b[..i])
    {
      DotSnoc(x, b, i + 1);
      assert x[i] == vdm[row, i] && b[i] == vdm[i, col];
      acc := Add(acc, Mul(vdm[row, i], vdm[i, col]));
    }
    assert x[..k] == x && b[..k] == b;
    DotPowers(RowPoint(row), b);
  }

  /** The loop with running factors that fills the decoder's Vandermonde matrix. */
  method VandermondeMatrix(required: nat, total: nat) returns (vand: array2<Elem>)
    requires 0 < required < total <= 256
    ensures fresh(vand) && vand.Length0 == required && vand.Length1 == total
    ensures forall r, c :: 0 <= r < required && 0 <= c < total ==> vand[r, c] == Exp(Point(c), r)
  {
    hide Mul, Pow2;
    vand := new Elem[required, total]((i, j) => if i == 0 && j == 0 then 1 else 0);
    var g: Elem := 1;
    PowZero();
    for row := 0 to required
      invariant g == Pow2(row)
      invariant forall r :: 0 <= r < required ==> vand[r, 0] == if r == 0 then 1 else 0
      invariant forall r, c :: 0 <= r < row && 1 <= c < total ==> vand[r, c] == Pow2(r * (c - 1))
    {
      var a: Elem := 1;
      assert row * 0 == 0;
      for col := 1 to total
        invariant a == Pow2(row * (col - 1))
        invariant forall r :: 0 <= r < required ==> vand[r, 0] == if r == 0 then 1 else 0
        invariant forall r, c :: 0 <= r < row && 1 <= c < total ==> vand[r, c] == Pow2(r * (c - 1))
        invariant forall c :: 1 <= c < col ==> vand[row, c] == Pow2(row * (c - 1))
      {
        vand[row, col] := a;
        MulPow(row, row * (col - 1));
        assert row + row * (col - 1) == row * col;
        a := Mul(g, a);
      }
      TwoIsPow();
      MulPow(1, row);
      g := Mul(2, g);
    }
    forall r, c | 0 <= r < required && 0 <= c < total
      ensures vand[r, c] == Exp(Point(c), r)
    {
      PointPower(c, r);
    }
  }

  lemma PointPower(c: nat, r: nat)
    ensures Exp(Point(c), r) == if c == 0 then (if r == 0 then 1 else 0) else Pow2(r * (c - 1))
  {
    hide Pow2, Mul;
    if c == 0 {
      if r > 0 {
        MulOne(Exp(0, r - 1));
      }
    } else {
      ExpOfTwo(c - 1);
      PowerOfRow(c - 1, r);
      assert (c - 1) * r == r * (c - 1);
    }
  }
}
