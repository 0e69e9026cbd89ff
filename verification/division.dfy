/** Quotient and remainder by a positive divisor are determined by their equation. */
module Division {
  lemma DivModUnique(x: int, d: int, q: int, r: int)
    requires 0 <= r < d && x == q * d + r
    ensures x / d == q && x % d == r
  {
    var e := x / d - q;
    assert d * e == r - x % d;
    MultipleApart(d, e);
  }

  /** A multiple of d is zero or at least d away from zero. */
  lemma MultipleApart(d: int, e: int)
    requires 0 < d
    ensures e == 0 || d * e >= d || d * e <= -d
  {
    if e >= 1 {
      NonNegative(d, e - 1);
    } else if e <= -1 {
      NonNegative(d, -1 - e);
    }
  }

  lemma NonNegative(x: nat, y: nat)
    ensures 0 <= x * y
  {
  }

  /** Products grow with a factor, by at least the other one. */
  lemma ProductGrows(q: int, r: int, p: nat)
    ensures q <= r ==> q * p <= r * p
    ensures q < r ==> q * p + p <= r * p
  {
    if q <= r {
      NonNegative(r - q, p);
      assert r * p == q * p + (r - q) * p;
    }
    if q < r {
      NonNegative(r - q - 1, p);
      assert r * p == q * p + p + (r - q - 1) * p;
    }
  }

  /** Dividing by twice d is dividing by d and halving. */
  lemma HalveQuotient(b: nat, d: nat)
    requires 0 < d
    ensures b / (2 * d) == b / d / 2
  {
    var h := b / d;
    assert b == h * d + b % d && h == h / 2 * 2 + h % 2;
    HalfTimes(h, d);
    DivModUnique(b, 2 * d, h / 2, h % 2 * d + b % d);
  }

  lemma HalfTimes(h: nat, d: nat)
    ensures h * d == h / 2 * (2 * d) + h % 2 * d
    ensures h % 2 * d == if h % 2 == 1 then d else 0
  {
    var q, r := h / 2, h % 2;
    assert h == 2 * q + r;
    assert h * d == (2 * q) * d + r * d;
  }

  lemma HalveTwice(j: nat, p: nat)
    requires p > 0
    ensures j / 2 / p == j / (2 * p)
  {
    var q, r := j / (2 * p), j % (2 * p);
    assert j / 2 == q * p + r / 2 && 0 <= r / 2 < p by {
      assert j == 2 * (q * p) + r;
    }
    DivModUnique(j / 2, p, q, r / 2);
  }
}
