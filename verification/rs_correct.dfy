/** From `encode` through corrupted shares to `berklekamp_welch`. */
module RsCorrectness {
  import opened Gf256
  import opened GfPoly
  import opened RsDecode
  import opened RsEncode
  import opened RsSyndrome

  /** The coefficients of P(2X). */
  function Doubled(p: Poly): (d: Poly)
    ensures |d| == |p|
  {
    if p == [] then [] else [p[0]] + GfPoly.Scale(2, Doubled(p[1..]))
  }

  lemma {:induction false} EvalDoubled(p: Poly, x: Elem)
    ensures Eval(Doubled(p), x) == Eval(p, Mul(2, x))
  {
    hide Mul, Add, GfPoly.Scale;
    if p != [] {
      var t := Doubled(p[1..]);
      EvalDoubled(p[1..], x);
      EvalScale(2, t, x);
      assert Doubled(p)[1..] == GfPoly.Scale(2, t);
      MulAssoc(x, 2, Eval(t, x));
      MulComm(x, 2);
    }
  }

  /** The decoder's points are the encoder's points, halved. */
  lemma PointsHalved(n: nat)
    ensures Mul(2, Point(n)) == RowPoint(n)
  {
    hide Mul, Pow2, Exp;
    if n == 0 {
      MulOne(2);
    } else {
      ExpOfTwo(n - 1);
      TwoIsPow();
      MulPow(1, n - 1);
    }
  }

  /** What share n of the stripe d must hold. */
  function Codeword(d: seq<Elem>, n: nat): Elem
    requires |d| <= 256
  {
    Eval(Interpolant(d), RowPoint(n))
  }

  /** A codeword is one polynomial of degree below |d|, read at the decoder's points. */
  lemma CodewordAtDecoderPoints(d: seq<Elem>, n: nat)
    requires |d| <= 256
    ensures Eval(Doubled(Interpolant(d)), Point(n)) == Codeword(d, n)
    ensures n < |d| ==> Codeword(d, n) == d[n]
  {
    hide Mul, Eval, Point, RowPoint, Interpolant, EncRow;
    EvalDoubled(Interpolant(d), Point(n));
    PointsHalved(n);
    if n < |d| {
      InterpolantThroughData(d, n);
    }
  }

  /** The number of shares whose byte is not the one `truth` records for them. */
  function Corrupted(shares: seq<ByteShare>, truth: seq<Elem>): nat
    requires forall i :: 0 <= i < |shares| ==> shares[i].number < |truth|
  {
    if shares == [] then 0
    else (if shares[0].value == truth[shares[0].number] then 0 else 1) + Corrupted(shares[1..], truth)
  }

  lemma {:induction false} CorruptedIsWrong(shares: seq<ByteShare>, truth: seq<Elem>, p: Poly)
    requires forall i :: 0 <= i < |shares| ==> shares[i].number < |truth|
    requires forall n :: 0 <= n < |truth| ==> truth[n] == Eval(p, Point(n))
    ensures Corrupted(shares, truth) == Wrong(SharePoints(shares), ShareValues(shares), p)
  {
    hide Eval, Point;
    if shares != [] {
      CorruptedIsWrong(shares[1..], truth, p);
      assert SharePoints(shares)[1..] == SharePoints(shares[1..]);
      assert ShareValues(shares)[1..] == ShareValues(shares[1..]);
    }
  }

  /** Column `col` of all shares: data blocks first, then parity blocks. */
  function ShareColumn(data: seq<Elem>, parity: seq<Elem>, size: nat, k: nat, total: nat, col: nat): (c: seq<Elem>)
    requires k <= total && col < size && IsParity(data, parity, size, k, total - k)
    ensures |c| == total
  {
    seq(total, n requires 0 <= n < total => if n < k then Stripe(data, size, k, col)[n] else parity[Slot(n - k, size, col)])
  }

  /** Every column `encode` produces is one polynomial's values at the decoder's points. */
  lemma ColumnIsCodeword(data: seq<Elem>, parity: seq<Elem>, size: nat, k: nat, total: nat, col: nat)
    requires k <= total <= 256 && col < size && IsParity(data, parity, size, k, total - k)
    ensures var p := Doubled(Interpolant(Stripe(data, size, k, col)));
            |p| == k && ShareColumn(data, parity, size, k, total, col) == Corrected(p, total)
  {
    hide Eval, Point, RowPoint, Interpolant, EncRow, Doubled, Stripe;
    var d := Stripe(data, size, k, col);
    var p := Doubled(Interpolant(d));
    var c := ShareColumn(data, parity, size, k, total, col);
    forall n | 0 <= n < total
      ensures c[n] == Corrected(p, total)[n]
    {
      CodewordAtDecoderPoints(d, n);
      if n >= k {
        var i := n - k;
        assert parity[Slot(i, size, col)] == Eval(Interpolant(d), RowPoint(k + i));
      }
    }
  }

  /** Encode, corrupt at most e of the used shares, decode: every share's byte comes back, the data bytes among them. */
  lemma DecodingRestoresEncoding(data: seq<Elem>, parity: seq<Elem>, size: nat, k: nat, total: nat, col: nat, used: seq<ByteShare>, e: nat, result: Result<seq<Elem>>)
    requires k <= total <= 256 && col < size && IsParity(data, parity, size, k, total - k)
    requires forall i :: 0 <= i < |used| ==> used[i].number < total
    requires Corrupted(used, ShareColumn(data, parity, size, k, total, col)) <= e
    requires DecodesUniquely(used, e, k + e, total, result)
    ensures result == Ok(ShareColumn(data, parity, size, k, total, col))
    ensures result.value[..k] == Stripe(data, size, k, col)
  {
    var c := ShareColumn(data, parity, size, k, total, col);
    ColumnIsCodeword(data, parity, size, k, total, col);
    var p := Doubled(Interpolant(Stripe(data, size, k, col)));
    assert |p| == k && c == Corrected(p, total);
    DataFirst(data, parity, size, k, total, col);
    hide *;
    CorruptedByCodeword(used, c, p, total);
    CodewordIsDecoded(used, e, k + e, total, result, p);
  }

  lemma CorruptedByCodeword(used: seq<ByteShare>, c: seq<Elem>, p: Poly, total: nat)
    requires c == Corrected(p, total) && forall i :: 0 <= i < |used| ==> used[i].number < total
    ensures Corrupted(used, c) == Wrong(SharePoints(used), ShareValues(used), p)
  {
    hide Eval, Point, Wrong;
    CorruptedIsWrong(used, c, p);
  }

  lemma CodewordIsDecoded(used: seq<ByteShare>, e: nat, q: nat, total: nat, result: Result<seq<Elem>>, p: Poly)
    requires DecodesUniquely(used, e, q, total, result) && |p| + e == q
    requires Wrong(SharePoints(used), ShareValues(used), p) <= e
    ensures result == Ok(Corrected(p, total))
  {
    hide Corrected, Wrong;
  }

  lemma DataFirst(data: seq<Elem>, parity: seq<Elem>, size: nat, k: nat, total: nat, col: nat)
    requires k <= total && col < size && IsParity(data, parity, size, k, total - k)
    ensures ShareColumn(data, parity, size, k, total, col)[..k] == Stripe(data, size, k, col)
  {
    hide Stripe, Eval;
  }

  // ---------------------------------------------------------------- what the syndrome sees

  /** Any uncorrupted shares of one encoding pass the syndrome check. */
  lemma EncodedSharesPass(data: seq<Elem>, parity: seq<Elem>, size: nat, k: nat, total: nat, col: nat, numbers: seq<nat>, v: seq<Elem>)
    requires k <= total <= 256 && col < size && IsParity(data, parity, size, k, total - k)
    requires |v| == |numbers| && forall i :: 0 <= i < |numbers| ==>
               numbers[i] < total && v[i] == ShareColumn(data, parity, size, k, total, col)[numbers[i]]
    ensures IsCodeword(PointsOf(numbers), v, k)
  {
    hide Eval, Point, Doubled, Interpolant, Stripe, ShareColumn;
    ColumnIsCodeword(data, parity, size, k, total, col);
    assert IsReadOf(PointsOf(numbers), v, k, Doubled(Interpolant(Stripe(data, size, k, col))));
  }

  /** Between one and n - r wrong values among n always fail it. */
  lemma CorruptionIsDetected(xs: seq<Elem>, v: seq<Elem>, p: Poly, r: nat)
    requires |xs| == |v| && Distinct(xs) && |p| == r
    requires 1 <= Wrong(xs, v, p) && Wrong(xs, v, p) + r <= |xs|
    ensures !IsCodeword(xs, v, r)
  {
    hide Eval, Select;
    if IsCodeword(xs, v, r) {
      var q: Poly :| IsReadOf(xs, v, r, q);
      var good := Select(xs, v, p, true);
      SelectSizes(xs, v, p);
      SelectDistinct(xs, v, p, true);
      forall j | 0 <= j < |good|
        ensures Eval(p, good[j]) == Eval(q, good[j])
      {
        var i := SelectMember(xs, v, p, true, j);
      }
      AgreeDetermines(p, q, good);
      var i := SelectMember(xs, v, p, false, 0);
      SameEval(p, q, xs[i]);
      assert false;
    }
  }
}
