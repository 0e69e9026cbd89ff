/** The fixed-capacity polynomial buffer and its Euclidean division. */
module GfDivision {
  import opened Common
  import opened Gf256
  import opened GfPoly

  function Reverse<T>(s: seq<T>): (r: seq<T>)
    ensures |r| == |s| && forall i :: 0 <= i < |s| ==> r[i] == s[|s| - 1 - i]
  {
    seq(|s|, i requires 0 <= i < |s| => s[|s| - 1 - i])
  }

  /** Number of coefficients left by `sanitize`: at least one, the last one non-zero unless it is the only one. */
  function Trimmed(p: Poly): (n: nat)
    ensures 1 <= n <= Max(|p|, 1)
  {
    if |p| <= 1 then 1 else if p[|p| - 1] == 0 then Trimmed(p[..|p| - 1]) else |p|
  }

  /** The coefficients after `sanitize`; an empty list becomes a single zero. */
  function Sanitized(p: Poly): (s: Poly)
    ensures |s| == Trimmed(p)
  {
    if p == [] then [0] else p[..Trimmed(p)]
  }

  lemma {:induction false} SanitizedFacts(p: Poly)
    ensures Same(Sanitized(p), p)
    ensures |Sanitized(p)| > 1 ==> Sanitized(p)[|Sanitized(p)| - 1] != 0
    ensures Sanitized(p)[|Sanitized(p)| - 1] == 0 <==> AllZero(p)
  {
    if |p| > 1 && p[|p| - 1] == 0 {
      var t := p[..|p| - 1];
      SanitizedFacts(t);
      assert p == t + [0];
      assert Sanitized(p) == Sanitized(t);
      assert forall k: nat :: Coef(p, k) == Coef(t, k);
      assert AllZero(p) <==> AllZero(t);
    } else if |p| > 1 {
      assert Sanitized(p) == p;
    }
  }

  /** `math::Poly`: 256 coefficients of storage of which the first `len` count; the rest is zero. */
  class PolyBuf {
    const data: array<Elem>
    var len: nat

    ghost predicate Valid()
      reads this, data
    {
      data.Length == 256 && len <= 256 && forall i :: len <= i < 256 ==> data[i] == 0
    }

    ghost function Coeffs(): (p: Poly)
      requires Valid()
      reads this, data
    {
      data[..len]
    }

    /** `from_iter`: more than 256 items would fail the assertion of the source. */
    constructor (p: Poly)
      requires |p| <= 256
      ensures Valid() && Coeffs() == p && fresh(data)
    {
      data := new Elem[256](i => if 0 <= i < |p| then p[i] else 0);
      len := |p|;
    }

    /** `sanitize`: drop trailing zeros, but keep one coefficient. */
    method Sanitize()
      requires Valid()
      modifies this
      ensures Valid() && Coeffs() == Sanitized(old(Coeffs()))
    {
      if len == 0 {
        len := 1;
        assert Coeffs() == [0];
        return;
      }
      ghost var p := Coeffs();
      while len > 1 && data[len - 1] == 0
        invariant Valid() && 1 <= len <= |p| && Coeffs() == p[..len]
        invariant Trimmed(p[..len]) == Trimmed(p)
        decreases len
      {
        assert p[..len][..len - 1] == p[..len - 1];
        len := len - 1;
      }
    }

    /** `push`: refused when the storage is full. */
    method Push(x: Elem) returns (ok: bool)
      requires Valid()
      modifies this, data
      ensures Valid() && ok == (|old(Coeffs())| < 256)
      ensures Coeffs() == if ok then old(Coeffs()) + [x] else old(Coeffs())
    {
      if len == 256 {
        return false;
      }
      data[len] := x;
      len := len + 1;
      return true;
    }

    /** `pop` of a zero leading coefficient; the source returns the cell behind it, which is zero as well. */
    method PopZero() returns (x: Option<Elem>)
      requires Valid() && len < 256 && (len > 0 ==> data[len - 1] == 0)
      modifies this
      ensures Valid()
      ensures old(len) == 0 ==> x == None && Coeffs() == old(Coeffs())
      ensures old(len) > 0 ==> x == Some(0) && Coeffs() == old(Coeffs())[..old(len) - 1]
    {
      if len == 0 {
        return None;
      }
      x := Some(data[len]);
      len := len - 1;
    }

    /** `add`: coefficients of b are added where both have one. */
    method AddInPlace(b: PolyBuf)
      requires Valid() && b.Valid() && b.data != data && b.len <= len
      modifies data
      ensures Valid() && Coeffs() == Sum(old(Coeffs()), b.Coeffs())
    {
      hide Add;
      for i := 0 to b.len
        invariant Valid() && b.Valid() && b.Coeffs() == old(b.Coeffs())
        invariant forall j :: 0 <= j < i ==> data[j] == Add(old(data[j]), b.data[j])
        invariant forall j :: i <= j < len ==> data[j] == old(data[j])
      {
        data[i] := Add(data[i], b.data[i]);
      }
      forall j | b.len <= j < len
        ensures Add(data[j], 0) == data[j]
      {
        AddLaws(data[j], 0, 0);
      }
    }

    method ReverseInPlace()
      requires Valid()
      modifies data
      ensures Valid() && Coeffs() == Reverse(old(Coeffs()))
    {
      var n := len;
      for i := 0 to n / 2
        invariant forall j :: 0 <= j < i ==> data[j] == old(data[n - 1 - j]) && data[n - 1 - j] == old(data[j])
        invariant forall j :: i <= j < n - i ==> data[j] == old(data[j])
        invariant forall j :: n <= j < 256 ==> data[j] == 0
      {
        data[i], data[n - 1 - i] := data[n - 1 - i], data[i];
      }
    }
  }

  // ---------------------------------------------------------------- one step of long division

  /** The quotient read off so far: the coefficients found, highest first, above s + 1 places still open. */
  function Partial(s: nat, found: Poly): (q: Poly) {
    Shift(s, Reverse(found))
  }

  lemma {:induction false} EvalLeading(s: nat, c: Elem, t: Poly, x: Elem)
    ensures Eval(Shift(s, [c] + t), x) == Add(Mul(Exp(x, s), c), Eval(Shift(s + 1, t), x))
  {
    hide Mul, Add;
    EvalShift(s, [c] + t, x);
    EvalShift(s + 1, t, x);
    assert ([c] + t)[1..] == t;
    var y, e := Exp(x, s), Eval(t, x);
    MulAdd(y, c, Mul(x, e));
    MulAssoc(y, x, e);
    MulComm(y, x);
  }

  /** Adding c x^s b to the remainder and c x^s to the quotient keeps the division identity. */
  lemma DivisionStep(p0: Poly, b: Poly, found: Poly, p: Poly, s: nat, c: Elem)
    requires IsQuotient(p0, b, Partial(s + 1, found), p)
    ensures IsQuotient(p0, b, Partial(s, found + [c]), Sum(p, Shift(s, Scale(c, b))))
  {
    hide Mul, Add, Eval, Sum, Shift, Scale;
    var q, q' := Partial(s + 1, found), Partial(s, found + [c]);
    assert Reverse(found + [c]) == [c] + Reverse(found);
    forall x: Elem
      ensures Eval(p0, x) == Add(Mul(Eval(q', x), Eval(b, x)), Eval(Sum(p, Shift(s, Scale(c, b))), x))
    {
      var y, bx := Exp(x, s), Eval(b, x);
      EvalLeading(s, c, Reverse(found), x);
      EvalSum(p, Shift(s, Scale(c, b)), x);
      EvalShift(s, Scale(c, b), x);
      EvalScale(c, b, x);
      MulAdd(bx, Mul(y, c), Eval(q, x));
      MulAssoc(y, c, bx);
      CancelTwice(Mul(y, Mul(c, bx)), Mul(Eval(q, x), bx), Eval(p, x));
    }
  }

  lemma CancelTwice(a: Elem, b: Elem, c: Elem)
    ensures Add(b, c) == Add(Add(a, b), Add(c, a))
  {
  }

  lemma FirstRemainder(p: Poly, b: Poly, s: nat)
    ensures IsQuotient(p, b, Partial(s, []), p)
  {
    hide Mul, Add;
    forall x: Elem
      ensures Eval(p, x) == Add(Mul(Eval(Partial(s, []), x), Eval(b, x)), Eval(p, x))
    {
      EvalZeros(Partial(s, []), x);
      MulOne(Eval(b, x));
      AddLaws(Eval(p, x), 0, 0);
    }
  }

  /** The leading coefficient of the remainder cancels, and dropping it changes nothing. */
  lemma LeadCancels(p0: Poly, b: Poly, found: Poly, p: Poly, c: Elem)
    requires 1 <= |b| <= |p| && b[|b| - 1] != 0 && c == Over(p[|p| - 1], b[|b| - 1])
    requires IsQuotient(p0, b, Partial(|p| - |b| + 1, found), p)
    ensures var n := Sum(p, Shift(|p| - |b|, Scale(c, b)));
            && |n| == |p| && n[|p| - 1] == 0
            && IsQuotient(p0, b, Partial(|p| - |b|, found + [c]), n[..|p| - 1])
  {
    hide Mul, Add, Eval, Over, IsQuotient, Partial;
    var n := Sum(p, Shift(|p| - |b|, Scale(c, b)));
    OverLaw(p[|p| - 1], b[|b| - 1]);
    assert n[|p| - 1] == Add(p[|p| - 1], Mul(c, b[|b| - 1]));
    AddLaws(p[|p| - 1], p[|p| - 1], 0);
    DivisionStep(p0, b, found, p, |p| - |b|, c);
    DropLead(p0, b, Partial(|p| - |b|, found + [c]), n);
  }

  lemma DropLead(p0: Poly, b: Poly, q: Poly, n: Poly)
    requires IsQuotient(p0, b, q, n) && n != [] && n[|n| - 1] == 0
    ensures IsQuotient(p0, b, q, n[..|n| - 1])
  {
    hide Mul, Add, Eval;
    var t := n[..|n| - 1];
    assert n == t + [0];
    forall x: Elem
      ensures Eval(n, x) == Eval(t, x)
    {
      EvalTrailing(t, [0], x);
    }
  }

  /** Replacing the operands, or quotient and remainder, by lists with the same coefficients. */
  lemma SameQuotient(p: Poly, b: Poly, p': Poly, b': Poly, q: Poly, r: Poly)
    requires IsQuotient(p, b, q, r) && Same(p, p') && Same(b, b')
    ensures IsQuotient(p', b', q, r)
  {
    hide Mul, Add, Eval, Same;
    forall x: Elem
      ensures Eval(p', x) == Add(Mul(Eval(q, x), Eval(b', x)), Eval(r, x))
    {
      SameEval(p, p', x);
      SameEval(b, b', x);
    }
  }

  lemma SameResult(p: Poly, b: Poly, q: Poly, r: Poly, q': Poly, r': Poly)
    requires IsQuotient(p, b, q, r) && Same(q, q') && Same(r', r)
    ensures IsQuotient(p, b, q', r')
  {
    hide Mul, Add, Eval, Same;
    forall x: Elem
      ensures Eval(p, x) == Add(Mul(Eval(q', x), Eval(b, x)), Eval(r', x))
    {
      SameEval(q, q', x);
      SameEval(r', r, x);
    }
  }

  lemma ReversedQuotient(found: Poly)
    ensures Same(Partial(0, found), Sanitized(Reverse([0] + found)))
  {
    var l := Reverse([0] + found);
    SanitizedFacts(l);
    assert l == Reverse(found) + [0];
    assert Partial(0, found) == Reverse(found);
    forall k: nat
      ensures Coef(Reverse(found), k) == Coef(l, k)
    {
    }
  }

  /** The multiple of b that cancels the leading coefficient of the remainder, aligned with it. */
  method Aligned(b: PolyBuf, s: nat, c: Elem) returns (padded: PolyBuf)
    requires b.Valid() && s + b.len <= 256
    ensures padded.Valid() && padded.Coeffs() == Shift(s, Scale(c, b.Coeffs()))
    ensures fresh(padded) && fresh(padded.data)
  {
    hide Mul;
    padded := new PolyBuf(Shift(s, Scale(c, b.data[..b.len])));
  }

  /** One round of the division loop with a non-zero leading coefficient in b. */
  method Round(ghost a: Poly, p: PolyBuf, b: PolyBuf, q: PolyBuf, ghost found: Poly, ghost d: Poly) returns (ghost c: Elem)
    requires p.Valid() && b.Valid() && q.Valid()
    requires p.data != b.data && p.data != q.data && b.data != q.data && p != q && b != q && p != b
    requires b.Coeffs() == d && q.Coeffs() == [0] + found && |found| < 255 && p.len < 256
    requires 1 <= |d| <= p.len && d[|d| - 1] != 0
    requires IsQuotient(a, d, Partial(p.len - |d| + 1, found), p.Coeffs())
    modifies p, p.data, q, q.data
    ensures p.Valid() && b.Valid() && q.Valid()
    ensures b.Coeffs() == d && q.Coeffs() == [0] + (found + [c]) && p.len == old(p.len) - 1
    ensures IsQuotient(a, d, Partial(p.len - |d| + 1, found + [c]), p.Coeffs())
  {
    hide Mul, Add, Eval, Sum, Shift, Scale, Over, IsQuotient, Partial;
    ghost var n := p.Coeffs();
    var leadP, leadB := p.data[p.len - 1], b.data[b.len - 1];
    assert leadP == n[|n| - 1] && leadB == d[|d| - 1];
    var coef := Over(leadP, leadB);
    c := coef;
    var ok := q.Push(coef);
    assert q.Coeffs() == [0] + (found + [c]);
    LeadCancels(a, d, found, n, coef);
    var padded := Aligned(b, p.len - b.len, coef);
    p.AddInPlace(padded);
    var popped := p.PopZero();
  }

  /** After the loop: the quotient list is turned around and both results lose their leading zeros. */
  method Finish(p: PolyBuf, q: PolyBuf, ghost a: Poly, ghost d: Poly, ghost found: Poly)
    requires p.Valid() && q.Valid() && p != q && p.data != q.data
    requires q.Coeffs() == [0] + found && IsQuotient(a, d, Partial(0, found), p.Coeffs())
    modifies p, q, q.data
    ensures p.Valid() && q.Valid() && p.Coeffs() == Sanitized(old(p.Coeffs()))
    ensures IsQuotient(a, d, q.Coeffs(), p.Coeffs()) && |q.Coeffs()| <= |found| + 1
  {
    hide IsQuotient, Partial, Same, Sanitized;
    ghost var rest := p.Coeffs();
    q.ReverseInPlace();
    p.Sanitize();
    q.Sanitize();
    ReversedQuotient(found);
    SanitizedFacts(rest);
    SameResult(a, d, Partial(0, found), rest, q.Coeffs(), p.Coeffs());
  }

  /** The division loop: one quotient coefficient a round, the highest one first. */
  method Rounds(p: PolyBuf, b: PolyBuf, q: PolyBuf, ghost a: Poly, ghost d: Poly) returns (ok: bool, ghost found: Poly)
    requires p.Valid() && b.Valid() && q.Valid() && p.Coeffs() == a && b.Coeffs() == d && q.Coeffs() == [0]
    requires p.data != b.data && p.data != q.data && b.data != q.data && p != q && b != q && p != b
    requires 1 <= |a| <= 255 && 1 <= |d| && (|d| > 1 ==> d[|d| - 1] != 0)
    modifies p, p.data, q, q.data
    ensures p.Valid() && q.Valid()
    ensures ok <==> d[|d| - 1] != 0 || |d| > |a|
    ensures ok ==> q.Coeffs() == [0] + found && |found| <= |a| && IsQuotient(a, d, Partial(0, found), p.Coeffs())
    ensures ok ==> |p.Coeffs()| < |d| && |found| + |d| <= Max(|a| + 1, |d|)
  {
    hide Mul, Add, Eval, Sum, IsQuotient, Partial;
    found := [];
    FirstRemainder(a, d, if |a| + 1 >= |d| then |a| + 1 - |d| else 0);
    while b.len <= p.len
      invariant p.Valid() && b.Valid() && q.Valid()
      invariant b.Coeffs() == d && p.len + |found| == |a| && q.Coeffs() == [0] + found
      invariant found != [] ==> d[|d| - 1] != 0 && |d| - 1 <= p.len
      invariant IsQuotient(a, d, Partial(if p.len + 1 >= |d| then p.len + 1 - |d| else 0, found), p.Coeffs())
      decreases p.len
    {
      if b.data[b.len - 1] == 0 {
        assert d[|d| - 1] == 0;
        return false, found;
      }
      ghost var c := Round(a, p, b, q, found, d);
      found := found + [c];
    }
    ok := true;
  }

  /** `Poly::div`: None exactly for a zero divisor, otherwise quotient and remainder. */
  method Div(p: PolyBuf, b: PolyBuf) returns (result: Option<(PolyBuf, PolyBuf)>)
    requires p.Valid() && b.Valid() && p != b && p.data != b.data
    requires |p.Coeffs()| <= 255
    modifies p, p.data, b, b.data
    ensures result.None? <==> AllZero(old(b.Coeffs()))
    ensures result.Some? ==>
              var (q, r) := result.value;
              && q.Valid() && r.Valid()
              && IsQuotient(old(p.Coeffs()), old(b.Coeffs()), q.Coeffs(), r.Coeffs())
              && (AllZero(r.Coeffs()) || |r.Coeffs()| < |Sanitized(old(b.Coeffs()))|)
              && |q.Coeffs()| + |Sanitized(old(b.Coeffs()))| <= 257
  {
    hide Mul, Add, Eval, Sum, IsQuotient, Partial, Same, Sanitized;
    ghost var p0, b0 := p.Coeffs(), b.Coeffs();
    p.Sanitize();
    b.Sanitize();
    SanitizedFacts(p0);
    SanitizedFacts(b0);
    ghost var a, d := p.Coeffs(), b.Coeffs();
    var q := new PolyBuf([0]);
    var ok;
    ghost var found;
    ok, found := Rounds(p, b, q, a, d);
    if !ok {
      return None;
    }
    SanitizedFacts(p.Coeffs());
    Finish(p, q, a, d, found);
    SameQuotient(a, d, p0, b0, q.Coeffs(), p.Coeffs());
    result := Some((q, p));
  }
}
