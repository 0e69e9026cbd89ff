/** The in-place loops over coefficient arrays: both transforms, the base products and the reductions. */
module KyberLoops {
  import opened Common
  import opened KyberArith
  import opened KyberZetas
  import opened KyberRing
  import opened KyberTransform

  ghost predicate Within(f: Poly, bound: int) {
    forall j :: 0 <= j < 256 ==> -bound <= f[j] <= bound
  }

  /** Indices before o hold a congruent copy of the target b, those from o on are still those of a. */
  ghost predicate LayerDone(f: Poly, a: Poly, b: Poly, o: int) {
    && (forall j :: 0 <= j < 256 && j < o ==> Cong(f[j], b[j]))
    && (forall j :: 0 <= j < 256 && o <= j ==> f[j] == a[j])
  }

  /** The same in the middle of the chunk at o, after its first i butterflies. */
  ghost predicate ChunkDone(f: Poly, a: Poly, b: Poly, len: nat, o: nat, i: nat)
    requires o + 2 * len <= 256 && i <= len
  {
    && (forall j :: 0 <= j < 256 && (j < o || o <= j < o + i || o + len <= j < o + len + i) ==> Cong(f[j], b[j]))
    && (forall j :: 0 <= j < 256 && (o + i <= j < o + len || o + len + i <= j) ==> f[j] == a[j])
  }

  lemma ChunkDoneStep(f: Poly, g: Poly, a: Poly, b: Poly, len: nat, o: nat, i: nat)
    requires o + 2 * len <= 256 && i < len
    requires ChunkDone(f, a, b, len, o, i)
    requires g == f[o + i := g[o + i]][o + len + i := g[o + len + i]]
    requires Cong(g[o + i], b[o + i]) && Cong(g[o + len + i], b[o + len + i])
    ensures ChunkDone(g, a, b, len, o, i + 1)
  {
    hide Mod;
  }

  // ---------------------------------------------------------------- forward

  /** The forward butterfly: new values, their congruence and the growth of the bound. */
  method ForwardButterfly(l: I16, r: I16, k: nat, ghost bound: int) returns (l': I16, r': I16)
    requires k < 128 && -bound <= l <= bound && bound + 3328 < 0x8000
    ensures Cong(l', l + Zeta(k) * r) && Cong(r', l - Zeta(k) * r)
    ensures -bound - 3328 <= l' <= bound + 3328 && -bound - 3328 <= r' <= bound + 3328
  {
    hide Mod, ZETAS;
    ZetasSmall(k);
    ProductBound(ZETAS(k), r, 1664, 0x8000);
    var t := FqMul(ZETAS(k), r);
    CongAdd(l, l, t, 169 * (ZETAS(k) * r));
    assert 169 * (ZETAS(k) * r) == Zeta(k) * r;
    r' := l - t;
    l' := l + t;
  }

  /** The butterflies of one chunk. */
  method ForwardChunk(f: array<I16>, len: nat, ghost c: nat, o: nat, k: nat, ghost a: Poly, ghost bound: int)
    requires f.Length == 256 && IsLen(len) && c < 128 / len && o == Offset(len, c) && k == Node(len, c)
    requires LayerDone(f[..], a, Layer(a, len), o)
    requires Within(a, bound) && Within(f[..], bound + 3328) && bound + 3328 < 0x8000
    modifies f
    ensures LayerDone(f[..], a, Layer(a, len), o + 2 * len)
    ensures Within(f[..], bound + 3328)
  {
    hide Mod, LayerAt, Zeta, Offset, Node;
    for i := 0 to len
      invariant ChunkDone(f[..], a, Layer(a, len), len, o, i)
      invariant Within(f[..], bound + 3328)
    {
      ghost var g := f[..];
      assert g[o + i] == a[o + i] && g[o + len + i] == a[o + len + i];
      LayerPlace(a, len, c, i);
      f[o + i], f[o + len + i] := ForwardButterfly(f[o + i], f[o + len + i], k, bound);
      assert f[..] == g[o + i := f[o + i]][o + len + i := f[o + len + i]];
      ChunkDoneStep(g, f[..], a, Layer(a, len), len, o, i);
    }
  }

  /** The chunks of one layer, each with the next twiddle factor. */
  method ForwardLayer(f: array<I16>, len: nat, zeta: nat, ghost bound: int) returns (zeta': nat)
    requires f.Length == 256 && IsLen(len) && zeta == 128 / len
    requires Within(f[..], bound) && 0 <= bound && bound + 3328 < 0x8000
    modifies f
    ensures zeta' == 2 * zeta
    ensures CongPoly(f[..], Layer(old(f[..]), len))
    ensures Within(f[..], bound + 3328)
  {
    hide Mod, LayerAt;
    ghost var a: Poly := f[..];
    zeta' := zeta;
    ghost var c := 0;
    var o := 0;
    while o < 256
      invariant 0 <= c <= 128 / len && o == 2 * len * c && zeta' == zeta + c
      invariant LayerDone(f[..], a, Layer(a, len), o)
      invariant Within(f[..], bound + 3328)
      decreases 256 - o
    {
      ForwardChunk(f, len, c, o, zeta', a, bound);
      zeta' := zeta' + 1;
      o := o + 2 * len;
      c := c + 1;
    }
  }

  /** What the coefficients may have grown to when the layer of half-length len is entered. */
  function NttBound(len: nat): int
    requires len == 1 || IsLen(len)
  {
    match len case 128 => 9471 case 64 => 12799 case 32 => 16127 case 16 => 19455 case 8 => 22783 case 4 => 26111
    case 2 => 29439 case _ => 32767
  }

  /** `ntt::ntt`: seven layers in place, without overflow for coefficients up to 9471. */
  method NttLayers(f: array<I16>)
    requires f.Length == 256 && Within(f[..], 9471)
    modifies f
    ensures CongPoly(f[..], Ntt(old(f[..])))
  {
    hide Mod, Layer;
    ghost var a: Poly := f[..];
    var zeta: nat, len: nat := 1, 128;
    while len >= 2
      invariant len == 1 || IsLen(len)
      invariant zeta == 128 / len
      invariant CongPoly(NttFrom(f[..], len), Ntt(a))
      invariant Within(f[..], NttBound(len))
      decreases len
    {
      ghost var g: Poly := f[..];
      zeta := ForwardLayer(f, len, zeta, NttBound(len));
      NttFromCong(f[..], Layer(g, len), len / 2);
      CongPolyTrans(NttFrom(f[..], len / 2), NttFrom(g, len), Ntt(a));
      len := len / 2;
    }
  }

  /** `poly::reduce`. */
  method Reduce(f: array<I16>)
    requires f.Length == 256
    modifies f
    ensures CongPoly(f[..], old(f[..])) && Within(f[..], 1664)
  {
    hide Mod;
    for i := 0 to 256
      invariant forall j :: 0 <= j < i ==> Cong(f[j], old(f[j])) && -1664 <= f[j] <= 1664
      invariant forall j :: i <= j < 256 ==> f[j] == old(f[j])
    {
      f[i] := BarrettReduce(f[i]);
    }
  }

  /** `poly::ntt`. */
  method NttInPlace(f: array<I16>)
    requires f.Length == 256 && Within(f[..], 9471)
    modifies f
    ensures CongPoly(f[..], Ntt(old(f[..]))) && Within(f[..], 1664)
  {
    hide Mod, NttFrom;
    NttLayers(f);
    ghost var g: Poly := f[..];
    Reduce(f);
    CongPolyTrans(f[..], g, Ntt(old(f[..])));
  }

  // ---------------------------------------------------------------- inverse

  method InverseButterfly(l: I16, r: I16, k: nat) returns (l': I16, r': I16)
    requires k < 128 && -0x3fff <= l <= 0x3fff && -0x3fff <= r <= 0x3fff
    ensures Cong(l', l + r) && Cong(r', Zeta(k) * (r - l))
    ensures -3328 <= l' <= 3328 && -3328 <= r' <= 3328
  {
    hide Mod, ZETAS;
    var t := l;
    l' := BarrettReduce(t + r);
    var d := r - t;
    ZetasSmall(k);
    ProductBound(ZETAS(k), d, 1664, 0x8000);
    r' := FqMul(ZETAS(k), d);
    assert 169 * (ZETAS(k) * d) == Zeta(k) * d;
  }

  method InverseChunk(f: array<I16>, len: nat, ghost c: nat, o: nat, k: nat, ghost a: Poly)
    requires f.Length == 256 && IsLen(len) && c < 128 / len && o == Offset(len, c) && k == Node(len, 128 / len - 1 - c)
    requires LayerDone(f[..], a, InvLayer(a, len), o)
    requires Within(f[..], 0x3fff)
    modifies f
    ensures LayerDone(f[..], a, InvLayer(a, len), o + 2 * len)
    ensures Within(f[..], 0x3fff)
  {
    hide Mod, InvLayerAt, Zeta, Offset, Node;
    for i := 0 to len
      invariant ChunkDone(f[..], a, InvLayer(a, len), len, o, i)
      invariant Within(f[..], 0x3fff)
    {
      ghost var g := f[..];
      assert g[o + i] == a[o + i] && g[o + len + i] == a[o + len + i];
      InvLayerPlace(a, len, c, i);
      f[o + i], f[o + len + i] := InverseButterfly(f[o + i], f[o + len + i], k);
      assert f[..] == g[o + i := f[o + i]][o + len + i := f[o + len + i]];
      ChunkDoneStep(g, f[..], a, InvLayer(a, len), len, o, i);
    }
  }

  /** The chunks of one inverse layer; the twiddle factors are taken backwards. */
  method InverseLayer(f: array<I16>, len: nat, zeta: nat) returns (zeta': nat)
    requires f.Length == 256 && IsLen(len) && zeta == 2 * (128 / len) - 1
    requires Within(f[..], 0x3fff)
    modifies f
    ensures zeta' == 128 / len - 1
    ensures CongPoly(f[..], InvLayer(old(f[..]), len))
    ensures Within(f[..], 0x3fff)
  {
    hide Mod, InvLayerAt;
    ghost var a: Poly := f[..];
    zeta' := zeta;
    ghost var c := 0;
    var o := 0;
    while o < 256
      invariant 0 <= c <= 128 / len && o == 2 * len * c && zeta' == zeta - c
      invariant LayerDone(f[..], a, InvLayer(a, len), o)
      invariant Within(f[..], 0x3fff)
      decreases 256 - o
    {
      InverseChunk(f, len, c, o, zeta', a);
      zeta' := zeta' - 1;
      o := o + 2 * len;
      c := c + 1;
    }
  }

  /** `ntt::invntt`: seven layers and the final scaling, in place. */
  method InvNttInPlace(f: array<I16>)
    requires f.Length == 256 && Within(f[..], 0x3fff)
    modifies f
    ensures CongPoly(f[..], InvNttToMont(old(f[..])))
    ensures Within(f[..], 3328)
  {
    hide Mod, InvLayer;
    ghost var a: Poly := f[..];
    var zeta: nat, len: nat := 127, 2;
    while len <= 128
      invariant len == 256 || IsLen(len)
      invariant zeta == 256 / len - 1
      invariant CongPoly(f[..], InvUpTo(a, len / 2))
      invariant Within(f[..], 0x3fff)
      decreases 256 - len
    {
      ghost var g: Poly := f[..];
      zeta := InverseLayer(f, len, zeta);
      InvLayerCong(g, InvUpTo(a, len / 2), len);
      CongPolyTrans(f[..], InvLayer(g, len), InvUpTo(a, len));
      len := 2 * len;
    }
    ghost var g: Poly := f[..];
    ScaleInPlace(f);
    ScaleCong(169 * 1441, 169 * 1441, g, InvUpTo(a, 128));
    CongPolyTrans(f[..], Scale(169 * 1441, g), InvNttToMont(a));
  }

  /** The last loop of `invntt`: every coefficient is multiplied by 1441 with reduction. */
  method ScaleInPlace(f: array<I16>)
    requires f.Length == 256 && Within(f[..], 0x3fff)
    modifies f
    ensures CongPoly(f[..], Scale(169 * 1441, old(f[..]))) && Within(f[..], 3328)
  {
    hide Mod;
    ghost var g: Poly := f[..];
    for i := 0 to 256
      invariant forall j :: 0 <= j < i ==> Cong(f[j], 169 * 1441 * g[j]) && -3328 <= f[j] <= 3328
      invariant forall j :: i <= j < 256 ==> f[j] == g[j]
      invariant Within(g, 0x3fff)
    {
      assert f[i] == g[i];
      f[i] := FqMul(f[i], 1441);
    }
  }

  // ---------------------------------------------------------------- base products

  /** `ntt::basemul`: the product modulo X^2 - z, with one factor 2^-16 left over. */
  function BaseMul(a0: I16, a1: I16, b0: I16, b1: I16, zeta: I16): (r: (I16, I16))
    requires -1664 <= zeta <= 1664
    requires -4095 <= a0 <= 4095 && -4095 <= a1 <= 4095 && -4095 <= b0 <= 4095 && -4095 <= b1 <= 4095
    ensures Cong(r.0, 169 * (a0 * b0 + 169 * zeta * (a1 * b1)))
    ensures Cong(r.1, 169 * (a0 * b1 + a1 * b0))
    ensures -6656 <= r.0 <= 6656 && -6656 <= r.1 <= 6656
  {
    hide Mod;
    ProductBound(a0, b0, 4095, 4095);
    ProductBound(a0, b1, 4095, 4095);
    ProductBound(a1, b0, 4095, 4095);
    ProductBound(a1, b1, 4095, 4095);
    var r0 := FqMul(a1, b1);
    ProductBound(r0, zeta, 3328, 1664);
    var r1 := FqMul(r0, zeta);
    BaseMulCong(r0, r1, FqMul(a0, b0), a0 * b0, a1 * b1, zeta);
    CongAdd(FqMul(a0, b1), 169 * (a0 * b1), FqMul(a1, b0), 169 * (a1 * b0));
    (r1 + FqMul(a0, b0), FqMul(a0, b1) + FqMul(a1, b0))
  }

  lemma BaseMulCong(r0: int, r1: int, s: int, x: int, y: int, zeta: int)
    requires Cong(r0, 169 * y) && Cong(r1, 169 * (r0 * zeta)) && Cong(s, 169 * x)
    ensures Cong(r1 + s, 169 * (x + 169 * zeta * y))
  {
    hide Mod;
    CongMul(169 * zeta, 169 * zeta, r0, 169 * y);
    assert 169 * (r0 * zeta) == 169 * zeta * r0;
    CongAdd(r1, 169 * zeta * (169 * y), s, 169 * x);
    assert 169 * zeta * (169 * y) + 169 * x == 169 * (x + 169 * zeta * y);
  }
}
