/** The seven-layer transform, its inverse, and the in-place loops that compute them. */
module KyberTransform {
  import opened KyberArith
  import opened KyberZetas
  import opened KyberRing

  /** The layers of half-length len, len/2, ..., 2, in the order the forward transform applies them. */
  function NttFrom(a: Poly, len: nat): Poly
    requires len == 1 || IsLen(len)
    decreases len
  {
    if len == 1 then a else NttFrom(Layer(a, len), len / 2)
  }

  /** The inverse layers of half-length 2, 4, ..., len. */
  function InvUpTo(a: Poly, len: nat): Poly
    requires len == 1 || IsLen(len)
    decreases len
  {
    if len == 1 then a else InvLayer(InvUpTo(a, len / 2), len)
  }

  function Ntt(a: Poly): Poly {
    NttFrom(a, 128)
  }

  /** The inverse transform with the final factor 1441, which includes 2^16. */
  function InvNttToMont(a: Poly): Poly {
    Scale(169 * 1441, InvUpTo(a, 128))
  }

  // ---------------------------------------------------------------- congruent inputs, sums and multiples

  lemma CongPolyTrans(a: Poly, b: Poly, c: Poly)
    requires CongPoly(a, b) && CongPoly(b, c)
    ensures CongPoly(a, c) && CongPoly(b, a)
  {
    hide Mod;
  }

  lemma CombineCong(x: int, y: int, z: int, x': int, y': int)
    requires Cong(x, x') && Cong(y, y')
    ensures Cong(x + z * y, x' + z * y') && Cong(x - z * y, x' - z * y') && Cong(z * (x - y), z * (x' - y'))
    ensures Cong(x + y, x' + y')
  {
    hide Mod;
    CongMul(z, z, y, y');
    CongAdd(x, x', z * y, z * y');
    CongAdd(x, x', y, y');
    CongMul(z, z, x - y, x' - y');
  }

  lemma LayerCong(a: Poly, b: Poly, len: nat)
    requires IsLen(len) && CongPoly(a, b)
    ensures CongPoly(Layer(a, len), Layer(b, len))
  {
    hide Mod, LayerZeta, InvLayerZeta, IsLow;
    forall j | 0 <= j < 256
      ensures Cong(LayerAt(a, len, j), LayerAt(b, len, j))
    {
      var z := LayerZeta(len, j);
      if IsLow(len, j) {
        CombineCong(a[j], a[j + len], z, b[j], b[j + len]);
      } else {
        CombineCong(a[j - len], a[j], z, b[j - len], b[j]);
      }
    }
  }

  lemma InvLayerCong(a: Poly, b: Poly, len: nat)
    requires IsLen(len) && CongPoly(a, b)
    ensures CongPoly(InvLayer(a, len), InvLayer(b, len))
  {
    hide Mod, LayerZeta, InvLayerZeta, IsLow;
    forall j | 0 <= j < 256
      ensures Cong(InvLayerAt(a, len, j), InvLayerAt(b, len, j))
    {
      var z := InvLayerZeta(len, j);
      if IsLow(len, j) {
        CombineCong(a[j], a[j + len], z, b[j], b[j + len]);
      } else {
        CombineCong(a[j], a[j - len], z, b[j], b[j - len]);
      }
    }
  }

  lemma {:induction false} NttFromCong(a: Poly, b: Poly, len: nat)
    requires len == 1 || IsLen(len)
    requires CongPoly(a, b)
    ensures CongPoly(NttFrom(a, len), NttFrom(b, len))
    decreases len
  {
    hide Mod, Layer;
    if len > 1 {
      LayerCong(a, b, len);
      NttFromCong(Layer(a, len), Layer(b, len), len / 2);
    }
  }

  lemma {:induction false} InvUpToCong(a: Poly, b: Poly, len: nat)
    requires len == 1 || IsLen(len)
    requires CongPoly(a, b)
    ensures CongPoly(InvUpTo(a, len), InvUpTo(b, len))
    decreases len
  {
    hide Mod, InvLayer;
    if len > 1 {
      InvUpToCong(a, b, len / 2);
      InvLayerCong(InvUpTo(a, len / 2), InvUpTo(b, len / 2), len);
    }
  }

  lemma LayerLinear(a: Poly, b: Poly, s: int, len: nat)
    requires IsLen(len)
    ensures Layer(Add(a, b), len) == Add(Layer(a, len), Layer(b, len))
    ensures InvLayer(Add(a, b), len) == Add(InvLayer(a, len), InvLayer(b, len))
    ensures InvLayer(Scale(s, a), len) == Scale(s, InvLayer(a, len))
  {
    hide LayerZeta, InvLayerZeta, IsLow;
    forall j | 0 <= j < 256
      ensures LayerAt(Add(a, b), len, j) == LayerAt(a, len, j) + LayerAt(b, len, j)
    {
    }
    forall j | 0 <= j < 256
      ensures InvLayerAt(Add(a, b), len, j) == InvLayerAt(a, len, j) + InvLayerAt(b, len, j)
    {
    }
    forall j | 0 <= j < 256
      ensures InvLayerAt(Scale(s, a), len, j) == s * InvLayerAt(a, len, j)
    {
    }
  }

  // ---------------------------------------------------------------- the transform is multiplicative

  lemma {:induction false} NttFromMul(a: Poly, b: Poly, len: nat)
    requires len == 1 || IsLen(len)
    ensures CongPoly(NttFrom(ChunkMul(a, b, len), len), ChunkMul(NttFrom(a, len), NttFrom(b, len), 1))
    decreases len
  {
    hide Mod, Layer, ChunkMul;
    if len > 1 {
      var u, v := Layer(a, len), Layer(b, len);
      LayerMul(a, b, len);
      NttFromCong(Layer(ChunkMul(a, b, len), len), ChunkMul(u, v, len / 2), len / 2);
      NttFromMul(u, v, len / 2);
      CongPolyTrans(NttFrom(ChunkMul(a, b, len), len), NttFrom(ChunkMul(u, v, len / 2), len / 2),
                    ChunkMul(NttFrom(a, len), NttFrom(b, len), 1));
    }
  }

  lemma RootChunk(a: Poly, b: Poly)
    ensures ChunkMul(a, b, 128) == RingMul(a, b)
  {
    hide Conv;
    forall j | 0 <= j < 256
      ensures ChunkMulAt(a, b, 128, j) == Conv(a, b, 256, -1, 0, j, 256)
    {
    }
  }

  /** Section 4.3.1 of FIPS 203: the transform of a product is the pairwise product of the transforms. */
  lemma NttMul(a: Poly, b: Poly)
    ensures CongPoly(Ntt(RingMul(a, b)), ChunkMul(Ntt(a), Ntt(b), 1))
  {
    hide Mod, ChunkMul, RingMul, NttFrom;
    RootChunk(a, b);
    NttFromMul(a, b, 128);
  }

  // ---------------------------------------------------------------- the inverse

  lemma MirrorCancel(z: int, w: int, x: int, y: int)
    requires Cong(z * w, -1)
    ensures Cong(w * ((x - z * y) - (x + z * y)), 2 * y)
    ensures Cong((x + y) + z * (w * (y - x)), 2 * x)
    ensures Cong((x + y) - z * (w * (y - x)), 2 * y)
  {
    hide Mod;
    CongMul(z * w, -1, -2 * y, -2 * y);
    assert w * ((x - z * y) - (x + z * y)) == z * w * (-2 * y);
    CongMul(z * w, -1, y - x, y - x);
    assert z * (w * (y - x)) == z * w * (y - x);
    CongAdd(x + y, x + y, z * w * (y - x), -1 * (y - x));
  }

  lemma LayerRoundTripAt(a: Poly, len: nat, c: nat, t: nat)
    requires IsLen(len) && c < 128 / len && t < len
    ensures var o := Offset(len, c);
            && Cong(InvLayerAt(Layer(a, len), len, o + t), 2 * a[o + t])
            && Cong(InvLayerAt(Layer(a, len), len, o + len + t), 2 * a[o + len + t])
            && Cong(LayerAt(InvLayer(a, len), len, o + t), 2 * a[o + t])
            && Cong(LayerAt(InvLayer(a, len), len, o + len + t), 2 * a[o + len + t])
  {
    hide Mod, Zeta, LayerAt, InvLayerAt, Offset;
    var o, z, w := Offset(len, c), Zeta(Node(len, c)), Zeta(Node(len, 128 / len - 1 - c));
    Mirror(128 / len, c);
    LayerPlace(a, len, c, t);
    LayerPlace(InvLayer(a, len), len, c, t);
    InvLayerPlace(a, len, c, t);
    InvLayerPlace(Layer(a, len), len, c, t);
    MirrorCancel(z, w, a[o + t], a[o + len + t]);
  }

  lemma LayerRoundTrip(a: Poly, len: nat)
    requires IsLen(len)
    ensures CongPoly(InvLayer(Layer(a, len), len), Scale(2, a))
    ensures CongPoly(Layer(InvLayer(a, len), len), Scale(2, a))
  {
    hide Mod, LayerAt, InvLayerAt, Offset, ChunkOf;
    forall j | 0 <= j < 256
      ensures Cong(InvLayerAt(Layer(a, len), len, j), 2 * a[j]) && Cong(LayerAt(InvLayer(a, len), len, j), 2 * a[j])
    {
      var c := ChunkOf(len, j);
      var t := j - Offset(len, c);
      LayerRoundTripAt(a, len, c, if t < len then t else t - len);
    }
  }

  lemma {:induction false} NttLinear(a: Poly, b: Poly, len: nat)
    requires len == 1 || IsLen(len)
    ensures NttFrom(Add(a, b), len) == Add(NttFrom(a, len), NttFrom(b, len))
    decreases len
  {
    hide Layer, Add, Scale;
    if len > 1 {
      LayerLinear(a, b, 0, len);
      NttLinear(Layer(a, len), Layer(b, len), len / 2);
    }
  }

  lemma {:induction false} InvLinear(a: Poly, b: Poly, len: nat)
    requires len == 1 || IsLen(len)
    ensures InvUpTo(Add(a, b), len) == Add(InvUpTo(a, len), InvUpTo(b, len))
    decreases len
  {
    hide InvLayer, Add, Scale;
    if len > 1 {
      InvLinear(a, b, len / 2);
      LayerLinear(InvUpTo(a, len / 2), InvUpTo(b, len / 2), 0, len);
    }
  }

  lemma ScaleCong(s: int, t: int, a: Poly, b: Poly)
    requires Cong(s, t) && CongPoly(a, b)
    ensures CongPoly(Scale(s, a), Scale(t, b))
  {
    hide Mod;
    forall j | 0 <= j < 256
      ensures Cong(s * a[j], t * b[j])
    {
      CongMul(s, t, a[j], b[j]);
    }
  }

  lemma ScaleScale(s: int, t: int, a: Poly)
    ensures Scale(s, Scale(t, a)) == Scale(s * t, a)
  {
    forall j | 0 <= j < 256
      ensures s * (t * a[j]) == s * t * a[j]
    {
    }
  }

  lemma LayerScale(s: int, a: Poly, len: nat)
    requires IsLen(len)
    ensures Layer(Scale(s, a), len) == Scale(s, Layer(a, len))
  {
    hide LayerZeta, IsLow;
    forall j | 0 <= j < 256
      ensures LayerAt(Scale(s, a), len, j) == s * LayerAt(a, len, j)
    {
    }
  }

  lemma {:induction false} NttScale(s: int, a: Poly, len: nat)
    requires len == 1 || IsLen(len)
    ensures NttFrom(Scale(s, a), len) == Scale(s, NttFrom(a, len))
    decreases len
  {
    hide Layer, Scale;
    if len > 1 {
      LayerScale(s, a, len);
      NttScale(s, Layer(a, len), len / 2);
    }
  }

  /** Undoing the layers multiplies by 2 per layer, hence by len. */
  lemma {:induction false} InvOfNtt(a: Poly, len: nat)
    requires len == 1 || IsLen(len)
    ensures CongPoly(InvUpTo(NttFrom(a, len), len), Scale(len, a))
    decreases len
  {
    hide Mod, Layer, InvLayer;
    if len > 1 {
      hide Scale;
      var u, h := Layer(a, len), len / 2;
      InvOfNtt(u, h);
      InvLayerCong(InvUpTo(NttFrom(u, h), h), Scale(h, u), len);
      LayerLinear(u, u, h, len);
      LayerRoundTrip(a, len);
      ScaleCong(h, h, InvLayer(u, len), Scale(2, a));
      ScaleScale(h, 2, a);
      CongPolyTrans(InvUpTo(NttFrom(a, len), len), Scale(h, InvLayer(u, len)), Scale(len, a));
    }
  }

  lemma {:induction false} NttOfInv(a: Poly, len: nat)
    requires len == 1 || IsLen(len)
    ensures CongPoly(NttFrom(InvUpTo(a, len), len), Scale(len, a))
    decreases len
  {
    hide Mod, Layer, InvLayer;
    if len > 1 {
      hide Scale;
      var u, h := InvUpTo(a, len / 2), len / 2;
      LayerRoundTrip(u, len);
      NttFromCong(Layer(InvLayer(u, len), len), Scale(2, u), h);
      NttScale(2, u, h);
      NttOfInv(a, h);
      ScaleCong(2, 2, NttFrom(u, h), Scale(h, a));
      ScaleScale(2, h, a);
      CongPolyTrans(NttFrom(InvUpTo(a, len), len), Scale(2, NttFrom(u, h)), Scale(len, a));
    }
  }

  const R: int := 0x1_0000

  /** Forward then inverse, or inverse then forward: multiplication of every coefficient by 2^16. */
  lemma TransformRoundTrip(a: Poly)
    ensures CongPoly(InvNttToMont(Ntt(a)), Scale(R, a))
    ensures CongPoly(Ntt(InvNttToMont(a)), Scale(R, a))
  {
    hide Mod, NttFrom, InvUpTo, Scale;
    var f := 169 * 1441;
    CongExact(f * 128, R, 9344);
    InvOfNtt(a, 128);
    ScaleCong(f, f, InvUpTo(NttFrom(a, 128), 128), Scale(128, a));
    ScaleScale(f, 128, a);
    NttScale(f, InvUpTo(a, 128), 128);
    NttOfInv(a, 128);
    ScaleCong(f, f, NttFrom(InvUpTo(a, 128), 128), Scale(128, a));
    ScaleCong(f * 128, R, a, a);
    CongPolyTrans(InvNttToMont(Ntt(a)), Scale(f * 128, a), Scale(R, a));
    CongPolyTrans(Ntt(InvNttToMont(a)), Scale(f * 128, a), Scale(R, a));
  }

  /** Multiplying transforms pairwise and transforming back is the ring product, with one factor 2^16. */
  lemma ProductThroughTransform(a: Poly, b: Poly)
    ensures CongPoly(InvNttToMont(ChunkMul(Ntt(a), Ntt(b), 1)), Scale(R, RingMul(a, b)))
  {
    hide Mod, Ntt, ChunkMul, RingMul, InvUpTo, Scale;
    var p, f := ChunkMul(Ntt(a), Ntt(b), 1), 169 * 1441;
    NttMul(a, b);
    CongPolyTrans(Ntt(RingMul(a, b)), p, p);
    InvUpToCong(p, Ntt(RingMul(a, b)), 128);
    ScaleCong(f, f, InvUpTo(p, 128), InvUpTo(Ntt(RingMul(a, b)), 128));
    TransformRoundTrip(RingMul(a, b));
    CongPolyTrans(InvNttToMont(p), InvNttToMont(Ntt(RingMul(a, b))), Scale(R, RingMul(a, b)));
  }

  lemma {:induction false} InvScale(s: int, a: Poly, len: nat)
    requires len == 1 || IsLen(len)
    ensures InvUpTo(Scale(s, a), len) == Scale(s, InvUpTo(a, len))
    decreases len
  {
    hide InvLayer, Add, Scale;
    if len > 1 {
      InvScale(s, a, len / 2);
      LayerLinear(InvUpTo(a, len / 2), InvUpTo(a, len / 2), s, len);
    }
  }

  /** The inverse transform respects congruence, sums and multiples. */
  lemma InvNttLinear(a: Poly, b: Poly, s: int)
    ensures InvNttToMont(Add(a, b)) == Add(InvNttToMont(a), InvNttToMont(b))
    ensures InvNttToMont(Scale(s, a)) == Scale(s, InvNttToMont(a))
    ensures CongPoly(a, b) ==> CongPoly(InvNttToMont(a), InvNttToMont(b))
  {
    hide Mod, InvUpTo;
    var f := 169 * 1441;
    InvLinear(a, b, 128);
    InvScale(s, a, 128);
    ScaleScale(f, s, InvUpTo(a, 128));
    ScaleScale(s, f, InvUpTo(a, 128));
    if CongPoly(a, b) {
      InvUpToCong(a, b, 128);
      ScaleCong(f, f, InvUpTo(a, 128), InvUpTo(b, 128));
    }
  }

  /** 169 * 2^16 is 1 modulo Q. */
  lemma Unscaled(a: Poly, b: Poly)
    requires CongPoly(a, Scale(R, b))
    ensures CongPoly(Scale(169, a), b)
  {
    hide Mod;
    CongExact(169 * R, 1, 3327);
    ScaleCong(169, 169, a, Scale(R, b));
    ScaleScale(169, R, b);
    ScaleCong(169 * R, 1, b, b);
    CongPolyTrans(Scale(169, a), Scale(169 * R, b), Scale(1, b));
    assert Scale(1, b) == b;
  }
}
