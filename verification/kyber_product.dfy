/** Products in the transformed domain: the laws they obey and the loops that compute them. */
module KyberProduct {
  import opened Common
  import opened KyberArith
  import opened KyberZetas
  import opened KyberRing
  import opened KyberTransform
  import opened KyberLoops

  /** The value of a Rust `[i16; 256]`. */
  type Words = p: seq<I16> | |p| == 256 witness seq(256, _ => 0)

  // ---------------------------------------------------------------- the pairwise product is a ring product

  function Mul(a: Poly, b: Poly): Poly {
    ChunkMul(a, b, 1)
  }

  lemma MulPair(a: Poly, b: Poly, c: nat)
    requires c < 128
    ensures Mul(a, b)[2 * c] == a[2 * c] * b[2 * c] + NodeConst(128 + c) * (a[2 * c + 1] * b[2 * c + 1])
    ensures Mul(a, b)[2 * c + 1] == a[2 * c] * b[2 * c + 1] + a[2 * c + 1] * b[2 * c]
  {
    hide NodeConst;
    ChunkPlace(a, b, 1, c, 0);
    ChunkPlace(a, b, 1, c, 1);
    assert Conv(a, b, 2, NodeConst(128 + c), 2 * c, 0, 1) == a[2 * c] * b[2 * c];
    assert Conv(a, b, 2, NodeConst(128 + c), 2 * c, 1, 1) == a[2 * c] * b[2 * c + 1];
  }

  /** Polynomials that agree on both entries of every pair are equal. */
  lemma PairwiseEqual(a: Poly, b: Poly)
    requires forall c {:trigger a[2 * c]} :: 0 <= c < 128 ==> a[2 * c] == b[2 * c] && a[2 * c + 1] == b[2 * c + 1]
    ensures a == b
  {
    forall j | 0 <= j < 256
      ensures a[j] == b[j]
    {
      assert a[2 * (j / 2)] == b[2 * (j / 2)];
    }
  }

  lemma MulComm(a: Poly, b: Poly)
    ensures Mul(a, b) == Mul(b, a)
  {
    hide Mul, NodeConst;
    forall c | 0 <= c < 128
      ensures Mul(a, b)[2 * c] == Mul(b, a)[2 * c] && Mul(a, b)[2 * c + 1] == Mul(b, a)[2 * c + 1]
    {
      MulPair(a, b, c);
      MulPair(b, a, c);
    }
    PairwiseEqual(Mul(a, b), Mul(b, a));
  }

  lemma MulDistributes(a: Poly, b: Poly, d: Poly)
    ensures Mul(Add(a, b), d) == Add(Mul(a, d), Mul(b, d))
    ensures Mul(Sub(a, b), d) == Sub(Mul(a, d), Mul(b, d))
  {
    MulOfSum(a, b, d);
    MulOfDifference(a, b, d);
  }

  lemma MulOfSum(a: Poly, b: Poly, d: Poly)
    ensures Mul(Add(a, b), d) == Add(Mul(a, d), Mul(b, d))
  {
    hide Mul, NodeConst;
    forall c | 0 <= c < 128
      ensures Mul(Add(a, b), d)[2 * c] == Mul(a, d)[2 * c] + Mul(b, d)[2 * c]
      ensures Mul(Add(a, b), d)[2 * c + 1] == Mul(a, d)[2 * c + 1] + Mul(b, d)[2 * c + 1]
    {
      MulPair(Add(a, b), d, c);
      MulPair(a, d, c);
      MulPair(b, d, c);
    }
    PairwiseEqual(Mul(Add(a, b), d), Add(Mul(a, d), Mul(b, d)));
  }

  lemma MulOfDifference(a: Poly, b: Poly, d: Poly)
    ensures Mul(Sub(a, b), d) == Sub(Mul(a, d), Mul(b, d))
  {
    hide Mul, NodeConst;
    forall c | 0 <= c < 128
      ensures Mul(Sub(a, b), d)[2 * c] == Mul(a, d)[2 * c] - Mul(b, d)[2 * c]
      ensures Mul(Sub(a, b), d)[2 * c + 1] == Mul(a, d)[2 * c + 1] - Mul(b, d)[2 * c + 1]
    {
      MulPair(Sub(a, b), d, c);
      MulPair(a, d, c);
      MulPair(b, d, c);
    }
    PairwiseEqual(Mul(Sub(a, b), d), Sub(Mul(a, d), Mul(b, d)));
  }

  lemma PairAssoc(a0: int, a1: int, b0: int, b1: int, d0: int, d1: int, g: int)
    ensures (a0 * b0 + g * (a1 * b1)) * d0 + g * ((a0 * b1 + a1 * b0) * d1)
         == a0 * (b0 * d0 + g * (b1 * d1)) + g * (a1 * (b0 * d1 + b1 * d0))
    ensures (a0 * b0 + g * (a1 * b1)) * d1 + (a0 * b1 + a1 * b0) * d0
         == a0 * (b0 * d1 + b1 * d0) + a1 * (b0 * d0 + g * (b1 * d1))
  {
    calc {
      (a0 * b0 + g * (a1 * b1)) * d0 + g * ((a0 * b1 + a1 * b0) * d1);
      a0 * b0 * d0 + g * (a1 * b1 * d0) + g * (a0 * b1 * d1 + a1 * b0 * d1);
      a0 * (b0 * d0 + g * (b1 * d1)) + g * (a1 * (b0 * d1 + b1 * d0));
    }
    calc {
      (a0 * b0 + g * (a1 * b1)) * d1 + (a0 * b1 + a1 * b0) * d0;
      a0 * b0 * d1 + g * (a1 * b1 * d1) + a0 * b1 * d0 + a1 * b0 * d0;
      a0 * (b0 * d1 + b1 * d0) + a1 * (b0 * d0 + g * (b1 * d1));
    }
  }

  lemma MulAssoc(a: Poly, b: Poly, d: Poly)
    ensures Mul(Mul(a, b), d) == Mul(a, Mul(b, d))
  {
    hide Mul, NodeConst;
    forall c | 0 <= c < 128
      ensures Mul(Mul(a, b), d)[2 * c] == Mul(a, Mul(b, d))[2 * c]
      ensures Mul(Mul(a, b), d)[2 * c + 1] == Mul(a, Mul(b, d))[2 * c + 1]
    {
      MulPair(a, b, c);
      MulPair(b, d, c);
      MulPair(Mul(a, b), d, c);
      MulPair(a, Mul(b, d), c);
      PairAssoc(a[2 * c], a[2 * c + 1], b[2 * c], b[2 * c + 1], d[2 * c], d[2 * c + 1], NodeConst(128 + c));
    }
    PairwiseEqual(Mul(Mul(a, b), d), Mul(a, Mul(b, d)));
  }

  lemma ProductsCong(a: int, a': int, b: int, b': int, c: int, c': int, d: int, d': int, g: int)
    requires Cong(a, a') && Cong(b, b') && Cong(c, c') && Cong(d, d')
    ensures Cong(a * b + g * (c * d), a' * b' + g * (c' * d'))
  {
    hide Mod;
    CongMul(a, a', b, b');
    CongMul(c, c', d, d');
    CombineCong(a * b, c * d, g, a' * b', c' * d');
  }

  lemma MulCong(a: Poly, a': Poly, b: Poly, b': Poly)
    requires CongPoly(a, a') && CongPoly(b, b')
    ensures CongPoly(Mul(a, b), Mul(a', b'))
  {
    hide Mod, Mul, NodeConst;
    forall j | 0 <= j < 256
      ensures Cong(Mul(a, b)[j], Mul(a', b')[j])
    {
      var c := j / 2;
      MulPair(a, b, c);
      MulPair(a', b', c);
      var x, y := 2 * c, 2 * c + 1;
      ProductsCong(a[x], a'[x], b[x], b'[x], a[y], a'[y], b[y], b'[y], NodeConst(128 + c));
      ProductsCong(a[x], a'[x], b[y], b'[y], a[y], a'[y], b[x], b'[x], 1);
    }
  }

  lemma AddCong(a: Poly, a': Poly, b: Poly, b': Poly)
    requires CongPoly(a, a') && CongPoly(b, b')
    ensures CongPoly(Add(a, b), Add(a', b')) && CongPoly(Sub(a, b), Sub(a', b'))
  {
    hide Mod;
    forall j | 0 <= j < 256
      ensures Cong(a[j] + b[j], a'[j] + b'[j]) && Cong(a[j] - b[j], a'[j] - b'[j])
    {
      CongAdd(a[j], a'[j], b[j], b'[j]);
    }
  }

  // ---------------------------------------------------------------- vectors of three polynomials

  const ZERO: Words := seq(256, _ => 0)

  type Vec = v: seq<Poly> | |v| == 3 witness [ZERO, ZERO, ZERO]

  type WordsVec = v: seq<Words> | |v| == 3 witness [ZERO, ZERO, ZERO]

  /** The inner product in the transformed domain. */
  function Dot(a: Vec, b: Vec): Poly {
    Add(Add(Mul(a[0], b[0]), Mul(a[1], b[1])), Mul(a[2], b[2]))
  }

  /** The inner product over Z[X]/(X^256 + 1). */
  function RingDot(a: Vec, b: Vec): Poly {
    Add(Add(RingMul(a[0], b[0]), RingMul(a[1], b[1])), RingMul(a[2], b[2]))
  }

  function NttVec(a: Vec): Vec {
    [Ntt(a[0]), Ntt(a[1]), Ntt(a[2])]
  }

  ghost predicate CongVec(a: Vec, b: Vec) {
    CongPoly(a[0], b[0]) && CongPoly(a[1], b[1]) && CongPoly(a[2], b[2])
  }

  lemma DotCong(a: Vec, a': Vec, b: Vec, b': Vec)
    requires CongVec(a, a') && CongVec(b, b')
    ensures CongPoly(Dot(a, b), Dot(a', b'))
  {
    hide CongPoly, Mul;
    MulCong(a[0], a'[0], b[0], b'[0]);
    MulCong(a[1], a'[1], b[1], b'[1]);
    MulCong(a[2], a'[2], b[2], b'[2]);
    AddCong(Mul(a[0], b[0]), Mul(a'[0], b'[0]), Mul(a[1], b[1]), Mul(a'[1], b'[1]));
    AddCong(Add(Mul(a[0], b[0]), Mul(a[1], b[1])), Add(Mul(a'[0], b'[0]), Mul(a'[1], b'[1])),
            Mul(a[2], b[2]), Mul(a'[2], b'[2]));
  }

  // ---------------------------------------------------------------- the loops

  /** `ntt::basemul` on pair c of the operands. */
  method BasePair(a: Words, b: Words, c: nat, zeta: I16) returns (r0: I16, r1: I16)
    requires c < 128 && Within(a, 4095) && Within(b, 4095)
    requires -1664 <= zeta <= 1664 && NodeConst(128 + c) == 169 * zeta
    ensures Cong(r0, 169 * Mul(a, b)[2 * c]) && Cong(r1, 169 * Mul(a, b)[2 * c + 1])
    ensures -6656 <= r0 <= 6656 && -6656 <= r1 <= 6656
  {
    hide Mod, Mul;
    MulPair(a, b, c);
    var r := BaseMul(a[2 * c], a[2 * c + 1], b[2 * c], b[2 * c + 1], zeta);
    r0, r1 := r.0, r.1;
  }

  /** `poly::basemul_montgomery`: all 128 base products, each with a factor 2^-16 (169 modulo Q). */
  method BaseMulMontgomery(a: Words, b: Words) returns (r: Words)
    requires Within(a, 4095) && Within(b, 4095)
    ensures CongPoly(r, Scale(169, Mul(a, b))) && Within(r, 6656)
  {
    hide Mod, Mul, ZETAS;
    var output := new I16[256];
    for i := 0 to 64
      invariant forall j :: 0 <= j < 4 * i ==> Cong(output[j], 169 * Mul(a, b)[j]) && -6656 <= output[j] <= 6656
    {
      var zeta := ZETAS(64 + i);
      ZetasSmall(64 + i);
      output[4 * i], output[4 * i + 1] := BasePair(a, b, 2 * i, zeta);
      output[4 * i + 2], output[4 * i + 3] := BasePair(a, b, 2 * i + 1, -zeta);
    }
    r := output[..];
  }

  /** `poly::add`. */
  function AddWords(a: Words, b: Words): Words
    requires forall j :: 0 <= j < 256 ==> -0x8000 <= a[j] + b[j] < 0x8000
  {
    seq(256, j requires 0 <= j < 256 => a[j] + b[j])
  }

  /** `poly::sub`. */
  function SubWords(a: Words, b: Words): Words
    requires forall j :: 0 <= j < 256 ==> -0x8000 <= a[j] - b[j] < 0x8000
  {
    seq(256, j requires 0 <= j < 256 => a[j] - b[j])
  }

  /** `polyvec::basemul_acc_montgomery`: three product polynomials, added and reduced. */
  method BaseMulAcc(a: WordsVec, b: WordsVec) returns (r: Words)
    requires forall i :: 0 <= i < 3 ==> Within(a[i], 4095) && Within(b[i], 4095)
    ensures CongPoly(r, Scale(169, Dot(a, b))) && Within(r, 1664)
  {
    hide Mod, Mul;
    var p0 := BaseMulMontgomery(a[0], b[0]);
    var p1 := BaseMulMontgomery(a[1], b[1]);
    var p2 := BaseMulMontgomery(a[2], b[2]);
    var sum := AddWords(AddWords(p0, p1), p2);
    AddCong(p0, Scale(169, Mul(a[0], b[0])), p1, Scale(169, Mul(a[1], b[1])));
    AddCong(Add(p0, p1), Add(Scale(169, Mul(a[0], b[0])), Scale(169, Mul(a[1], b[1]))), p2, Scale(169, Mul(a[2], b[2])));
    var res := new I16[256](j requires 0 <= j < 256 => sum[j]);
    assert res[..] == sum == Add(Add(p0, p1), p2);
    Reduce(res);
    r := res[..];
    assert Scale(169, Dot(a, b))
        == Add(Add(Scale(169, Mul(a[0], b[0])), Scale(169, Mul(a[1], b[1]))), Scale(169, Mul(a[2], b[2])));
    CongPolyTrans(r, sum, Scale(169, Dot(a, b)));
  }

  /** `poly::tomont`: multiplication by 2^16 in place. */
  method ToMont(f: array<I16>)
    requires f.Length == 256 && Within(f[..], 3328)
    modifies f
    ensures CongPoly(f[..], Scale(R, old(f[..]))) && Within(f[..], 3328)
  {
    hide Mod;
    var factor := 0x1_0000_0000 % Q;
    for i := 0 to 256
      invariant forall j :: 0 <= j < i ==> Cong(f[j], R * old(f[j])) && -3328 <= f[j] <= 3328
      invariant forall j :: i <= j < 256 ==> f[j] == old(f[j])
    {
      ghost var x := f[i];
      f[i] := MontgomeryReduce(f[i] * factor);
      Unscale(f[i], x * factor);
      CongExact(169 * 1353, R, 49);
      CongMul(169 * 1353, R, x, x);
      assert 169 * (x * 1353) == 169 * 1353 * x;
    }
  }

  // ---------------------------------------------------------------- the inner product

  /** Inverse transforms turn the pairwise inner product, with its factor 2^-16, into the ring inner product. */
  lemma DotThroughTransform(a: Vec, b: Vec)
    ensures CongPoly(InvNttToMont(Scale(169, Dot(NttVec(a), NttVec(b)))), RingDot(a, b))
  {
    hide Mod, Mul, Ntt, RingMul, InvNttToMont, Add, Scale;
    var m0, m1, m2 := Mul(Ntt(a[0]), Ntt(b[0])), Mul(Ntt(a[1]), Ntt(b[1])), Mul(Ntt(a[2]), Ntt(b[2]));
    var r0, r1, r2 := RingMul(a[0], b[0]), RingMul(a[1], b[1]), RingMul(a[2], b[2]);
    ScaledProduct(a[0], b[0]);
    ScaledProduct(a[1], b[1]);
    ScaledProduct(a[2], b[2]);
    InvNttLinear(Add(m0, m1), m2, 169);
    InvNttLinear(m0, m1, 169);
    InvNttLinear(m1, m2, 169);
    InvNttLinear(m2, m2, 169);
    InvNttLinear(Add(Add(m0, m1), m2), m2, 169);
    var i0, i1, i2 := InvNttToMont(m0), InvNttToMont(m1), InvNttToMont(m2);
    ScaleAdd(169, i0, i1);
    ScaleAdd(169, Add(i0, i1), i2);
    AddCong(Scale(169, i0), r0, Scale(169, i1), r1);
    AddCong(Add(Scale(169, i0), Scale(169, i1)), Add(r0, r1), Scale(169, i2), r2);
  }

  lemma ScaledProduct(a: Poly, b: Poly)
    ensures CongPoly(Scale(169, InvNttToMont(Mul(Ntt(a), Ntt(b)))), RingMul(a, b))
  {
    hide Mod, Ntt, RingMul, InvNttToMont, ChunkMul, Scale;
    ProductThroughTransform(a, b);
    Unscaled(InvNttToMont(Mul(Ntt(a), Ntt(b))), RingMul(a, b));
  }

  lemma ScaleAdd(s: int, a: Poly, b: Poly)
    ensures Scale(s, Add(a, b)) == Add(Scale(s, a), Scale(s, b))
  {
    forall j | 0 <= j < 256
      ensures s * (a[j] + b[j]) == s * a[j] + s * b[j]
    {
    }
  }

  /** Sequence of calls of the decryption: both transforms, the accumulated base product and the way back. */
  method InnerProduct(a0: array<I16>, a1: array<I16>, a2: array<I16>, b0: array<I16>, b1: array<I16>, b2: array<I16>)
    returns (r: Words)
    requires {a0, a1, a2} !! {b0, b1, b2} && a0 != a1 && a0 != a2 && a1 != a2 && b0 != b1 && b0 != b2 && b1 != b2
    requires forall f :: f in {a0, a1, a2, b0, b1, b2} ==> f.Length == 256 && Within(f[..], 9471)
    modifies a0, a1, a2, b0, b1, b2
    ensures CongPoly(r, RingDot([old(a0[..]), old(a1[..]), old(a2[..])], [old(b0[..]), old(b1[..]), old(b2[..])]))
    ensures Within(r, 3328)
  {
    hide Mod, Ntt, RingMul, InvNttToMont, Mul, Add, Scale;
    ghost var a: Vec := [a0[..], a1[..], a2[..]];
    ghost var b: Vec := [b0[..], b1[..], b2[..]];
    NttInPlace(a0);
    NttInPlace(a1);
    NttInPlace(a2);
    NttInPlace(b0);
    NttInPlace(b1);
    NttInPlace(b2);
    var u: WordsVec := [a0[..], a1[..], a2[..]];
    var v: WordsVec := [b0[..], b1[..], b2[..]];
    var p := BaseMulAcc(u, v);
    DotCong(u, NttVec(a), v, NttVec(b));
    ScaleCong(169, 169, Dot(u, v), Dot(NttVec(a), NttVec(b)));
    CongPolyTrans(p, Scale(169, Dot(u, v)), Scale(169, Dot(NttVec(a), NttVec(b))));
    InvNttLinear(p, Scale(169, Dot(NttVec(a), NttVec(b))), 1);
    DotThroughTransform(a, b);
    CongPolyTrans(InvNttToMont(p), InvNttToMont(Scale(169, Dot(NttVec(a), NttVec(b)))), RingDot(a, b));
    var f := new I16[256](j requires 0 <= j < 256 => p[j]);
    assert f[..] == p;
    InvNttInPlace(f);
    CongPolyTrans(f[..], InvNttToMont(p), RingDot(a, b));
    r := f[..];
  }
}
