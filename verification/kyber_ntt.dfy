/** The ring Z_q[X]/(X^256 + 1), its splitting into quadratic factors, and the transform that performs it. */
module KyberRing {
  import opened KyberArith
  import opened KyberZetas

  type Poly = p: seq<int> | |p| == 256 witness seq(256, _ => 0)

  ghost predicate CongPoly(a: Poly, b: Poly) {
    forall j :: 0 <= j < 256 ==> Cong(a[j], b[j])
  }

  function Add(a: Poly, b: Poly): Poly {
    seq(256, j requires 0 <= j < 256 => a[j] + b[j])
  }

  function Sub(a: Poly, b: Poly): Poly {
    seq(256, j requires 0 <= j < 256 => a[j] - b[j])
  }

  function Scale(s: int, a: Poly): Poly {
    seq(256, j requires 0 <= j < 256 => s * a[j])
  }

  // ---------------------------------------------------------------- products modulo X^n - c

  /** One summand of coefficient k of the product, modulo X^n - c, of the chunks of a and b at offset o. */
  function Term(a: Poly, b: Poly, n: nat, c: int, o: nat, k: nat, t: nat): int
    requires o + n <= 256 && k < n && t < n
  {
    if t <= k then a[o + t] * b[o + k - t] else c * (a[o + t] * b[o + n + k - t])
  }

  function Conv(a: Poly, b: Poly, n: nat, c: int, o: nat, k: nat, i: nat): int
    requires o + n <= 256 && k < n && i <= n
  {
    if i == 0 then 0 else Conv(a, b, n, c, o, k, i - 1) + Term(a, b, n, c, o, k, i - 1)
  }

  /** The product in Z[X]/(X^256 + 1). */
  function RingMul(a: Poly, b: Poly): Poly {
    seq(256, k requires 0 <= k < 256 => Conv(a, b, 256, -1, 0, k, 256))
  }

  /** The half-lengths of the seven layers. */
  predicate IsLen(len: nat) {
    len in {2, 4, 8, 16, 32, 64, 128}
  }

  /** The constant c of the factor X^n - c that node i of the splitting tree stands for; node 1 is the root. */
  function NodeConst(i: nat): int
    requires 1 <= i < 256
  {
    if i == 1 then -1 else if i % 2 == 0 then Zeta(i / 2) else -Zeta(i / 2)
  }

  /** Node of chunk c among the 128/len chunks of length 2 len. */
  function Node(len: nat, c: nat): (i: nat)
    requires len == 1 || IsLen(len)
    requires c < 128 / len
    ensures 1 <= i < 256 && (len != 1 ==> i < 128)
  {
    128 / len + c
  }

  /** First index of chunk c. */
  function Offset(len: nat, c: nat): (o: nat)
    requires len == 1 || IsLen(len)
    requires c < 128 / len
    ensures o + 2 * len <= 256
  {
    2 * len * c
  }

  /** Chunk of an index, and its place within the chunk. */
  function ChunkOf(len: nat, j: nat): (c: nat)
    requires len == 1 || IsLen(len)
    requires j < 256
    ensures c < 128 / len && Offset(len, c) <= j < Offset(len, c) + 2 * len
  {
    j / (2 * len)
  }

  lemma ChunkOfUnique(len: nat, c: nat, t: nat)
    requires len == 1 || IsLen(len)
    requires c < 128 / len && t < 2 * len
    ensures ChunkOf(len, Offset(len, c) + t) == c
  {
  }

  /** The product of two vectors of residues modulo the 128/len factors X^(2 len) - c. */
  function ChunkMul(a: Poly, b: Poly, len: nat): Poly
    requires len == 1 || IsLen(len)
  {
    seq(256, j requires 0 <= j < 256 => ChunkMulAt(a, b, len, j))
  }

  function ChunkMulAt(a: Poly, b: Poly, len: nat, j: nat): int
    requires len == 1 || IsLen(len)
    requires j < 256
  {
    var c := ChunkOf(len, j);
    Conv(a, b, 2 * len, NodeConst(Node(len, c)), Offset(len, c), j - Offset(len, c), 2 * len)
  }

  lemma NodeSquare(i: nat)
    requires 1 <= i < 128
    ensures Cong(Zeta(i) * Zeta(i), NodeConst(i))
  {
    hide Mod, Zeta;
    if i == 1 {
      ZetaEnds();
    } else {
      ChildSquare(i / 2);
    }
  }

  // ---------------------------------------------------------------- one layer of the transform

  /** Whether index j lies in the first half of its chunk of length 2 len. */
  predicate IsLow(len: nat, j: nat)
    requires IsLen(len) && j < 256
    ensures if IsLow(len, j) then j + len < 256 else len <= j
  {
    j < Offset(len, ChunkOf(len, j)) + len
  }

  /** The factor used by the chunk of index j, and the one used on the way back. */
  function LayerZeta(len: nat, j: nat): int
    requires IsLen(len) && j < 256
  {
    Zeta(Node(len, ChunkOf(len, j)))
  }

  function InvLayerZeta(len: nat, j: nat): int
    requires IsLen(len) && j < 256
  {
    Zeta(Node(len, 128 / len - 1 - ChunkOf(len, j)))
  }

  /** Reduction modulo X^len - z and X^len + z of every residue modulo X^(2 len) - z^2. */
  function Layer(a: Poly, len: nat): Poly
    requires IsLen(len)
  {
    seq(256, j requires 0 <= j < 256 => LayerAt(a, len, j))
  }

  function LayerAt(a: Poly, len: nat, j: nat): int
    requires IsLen(len) && j < 256
  {
    var z := LayerZeta(len, j);
    if IsLow(len, j) then a[j] + z * a[j + len] else a[j - len] - z * a[j]
  }

  /** The inverse butterflies, up to a factor of two. */
  function InvLayer(a: Poly, len: nat): Poly
    requires IsLen(len)
  {
    seq(256, j requires 0 <= j < 256 => InvLayerAt(a, len, j))
  }

  function InvLayerAt(a: Poly, len: nat, j: nat): int
    requires IsLen(len) && j < 256
  {
    var z := InvLayerZeta(len, j);
    if IsLow(len, j) then a[j] + a[j + len] else z * (a[j] - a[j - len])
  }

  lemma LayerPlace(a: Poly, len: nat, c: nat, t: nat)
    requires IsLen(len) && c < 128 / len && t < len
    ensures var o, z := Offset(len, c), Zeta(Node(len, c));
            && LayerAt(a, len, o + t) == a[o + t] + z * a[o + len + t]
            && LayerAt(a, len, o + len + t) == a[o + t] - z * a[o + len + t]
  {
    hide Zeta, Node, Offset, ChunkOf;
    ChunkOfUnique(len, c, t);
    ChunkOfUnique(len, c, len + t);
  }

  lemma InvLayerPlace(a: Poly, len: nat, c: nat, t: nat)
    requires IsLen(len) && c < 128 / len && t < len
    ensures var o, z := Offset(len, c), Zeta(Node(len, 128 / len - 1 - c));
            && InvLayerAt(a, len, o + t) == a[o + t] + a[o + len + t]
            && InvLayerAt(a, len, o + len + t) == z * (a[o + len + t] - a[o + t])
  {
    hide Zeta, Node, Offset, ChunkOf;
    ChunkOfUnique(len, c, t);
    ChunkOfUnique(len, c, len + t);
  }

  // ---------------------------------------------------------------- a layer is a ring homomorphism

  lemma SplitLow(l: int, r: int, x: int, y: int, w: int, c: int)
    requires Cong(c, w * w)
    ensures Cong(l * x + c * (r * y) + w * (l * y + r * x), (l + w * r) * (x + w * y))
  {
    hide Mod;
    CongMul(c, w * w, r * y, r * y);
    CongAdd(c * (r * y), w * w * (r * y), l * x + w * (l * y + r * x), l * x + w * (l * y + r * x));
    assert (l + w * r) * (x + w * y) == w * w * (r * y) + (l * x + w * (l * y + r * x));
  }

  lemma SplitHigh(l: int, r: int, x: int, y: int, w: int, c: int)
    requires Cong(c, w * w)
    ensures Cong(c * (l * y) + c * (r * x) + w * (l * x + c * (r * y)), w * ((l + w * r) * (x + w * y)))
  {
    hide Mod;
    SplitLow(l, r, x, y, w, c);
    CongMul(c, w * w, l * y + r * x, l * y + r * x);
    CongMul(w, w, l * x + c * (r * y) + w * (l * y + r * x), (l + w * r) * (x + w * y));
    var d := w * (l * x + c * (r * y));
    CongAdd(c * (l * y + r * x), w * w * (l * y + r * x), d, d);
    assert w * (l * x + c * (r * y) + w * (l * y + r * x)) == w * w * (l * y + r * x) + d;
    assert c * (l * y) + c * (r * x) == c * (l * y + r * x);
  }

  /** The chunk of u at offset p holds the residues modulo X^m - w of the double chunk of a at offset o. */
  ghost predicate IsSplit(a: Poly, u: Poly, m: nat, w: int, o: nat, p: nat)
    requires o + 2 * m <= 256 && p + m <= 256
  {
    forall t :: 0 <= t < m ==> SplitAt(a, u, m, w, o, p, t)
  }

  ghost predicate SplitAt(a: Poly, u: Poly, m: nat, w: int, o: nat, p: nat, t: nat)
    requires o + 2 * m <= 256 && p + m <= 256 && t < m
  {
    u[p + t] == a[o + t] + w * a[o + m + t]
  }

  /** Terms t and m + t of coefficients k and m + k of the big product make term t of the small one. */
  ghost predicate TermsSplit(a: Poly, b: Poly, u: Poly, v: Poly, m: nat, c: int, w: int, o: nat, p: nat, k: nat, t: nat)
    requires o + 2 * m <= 256 && p + m <= 256 && k < m && t < m
  {
    Cong(Term(a, b, 2 * m, c, o, k, t) + Term(a, b, 2 * m, c, o, k, m + t)
         + w * (Term(a, b, 2 * m, c, o, m + k, t) + Term(a, b, 2 * m, c, o, m + k, m + t)),
         Term(u, v, m, w, p, k, t))
  }

  lemma TermSplit(a: Poly, b: Poly, u: Poly, v: Poly, m: nat, c: int, w: int, o: nat, p: nat, k: nat, t: nat)
    requires o + 2 * m <= 256 && p + m <= 256 && k < m && t < m
    requires IsSplit(a, u, m, w, o, p) && IsSplit(b, v, m, w, o, p)
    requires Cong(c, w * w)
    ensures TermsSplit(a, b, u, v, m, c, w, o, p, k, t)
  {
    hide Mod;
    var s := if t <= k then k - t else m + k - t;
    assert SplitAt(a, u, m, w, o, p, t) && SplitAt(b, v, m, w, o, p, s);
    if t <= k {
      TermLow(a, b, u, v, m, c, w, o, p, k, t, s);
    } else {
      TermHigh(a, b, u, v, m, c, w, o, p, k, t, s);
    }
  }

  lemma TermLow(a: Poly, b: Poly, u: Poly, v: Poly, m: nat, c: int, w: int, o: nat, p: nat, k: nat, t: nat, s: nat)
    requires o + 2 * m <= 256 && p + m <= 256 && k < m && t < m
    requires t <= k && s == k - t
    requires SplitAt(a, u, m, w, o, p, t) && SplitAt(b, v, m, w, o, p, s)
    requires Cong(c, w * w)
    ensures TermsSplit(a, b, u, v, m, c, w, o, p, k, t)
  {
    hide Mod;
    var l, r, x, y := a[o + t], a[o + m + t], b[o + s], b[o + m + s];
    assert Term(a, b, 2 * m, c, o, k, t) == l * x;
    assert Term(a, b, 2 * m, c, o, k, m + t) == c * (r * y);
    assert Term(a, b, 2 * m, c, o, m + k, t) == l * y;
    assert Term(a, b, 2 * m, c, o, m + k, m + t) == r * x;
    assert Term(u, v, m, w, p, k, t) == u[p + t] * v[p + s];
    SplitLow(l, r, x, y, w, c);
  }

  lemma TermHigh(a: Poly, b: Poly, u: Poly, v: Poly, m: nat, c: int, w: int, o: nat, p: nat, k: nat, t: nat, s: nat)
    requires o + 2 * m <= 256 && p + m <= 256 && k < m && t < m
    requires t > k && s == m + k - t
    requires SplitAt(a, u, m, w, o, p, t) && SplitAt(b, v, m, w, o, p, s)
    requires Cong(c, w * w)
    ensures TermsSplit(a, b, u, v, m, c, w, o, p, k, t)
  {
    hide Mod;
    var l, r, x, y := a[o + t], a[o + m + t], b[o + s], b[o + m + s];
    assert Term(a, b, 2 * m, c, o, k, t) == c * (l * y);
    assert Term(a, b, 2 * m, c, o, k, m + t) == c * (r * x);
    assert Term(a, b, 2 * m, c, o, m + k, t) == l * x;
    assert Term(a, b, 2 * m, c, o, m + k, m + t) == c * (r * y);
    assert Term(u, v, m, w, p, k, t) == w * (u[p + t] * v[p + s]);
    SplitHigh(l, r, x, y, w, c);
  }

  /** The first i terms of each half of coefficient k, as a difference of partial sums. */
  function Halves(a: Poly, b: Poly, m: nat, c: int, o: nat, k: nat, i: nat): int
    requires o + 2 * m <= 256 && k < 2 * m && i <= m
  {
    Conv(a, b, 2 * m, c, o, k, i) + Conv(a, b, 2 * m, c, o, k, m + i) - Conv(a, b, 2 * m, c, o, k, m)
  }

  lemma HalvesStep(a: Poly, b: Poly, m: nat, c: int, o: nat, k: nat, i: nat)
    requires o + 2 * m <= 256 && k < 2 * m && i < m
    ensures Halves(a, b, m, c, o, k, i + 1)
         == Halves(a, b, m, c, o, k, i) + (Term(a, b, 2 * m, c, o, k, i) + Term(a, b, 2 * m, c, o, k, m + i))
  {
    hide Term;
  }

  lemma CombineStep(lo: int, hi: int, dl: int, dh: int, w: int, x: int, y: int)
    requires Cong(lo + w * hi, x) && Cong(dl + w * dh, y)
    ensures Cong((lo + dl) + w * (hi + dh), x + y)
  {
    hide Mod;
    CongAdd(lo + w * hi, x, dl + w * dh, y);
    assert lo + w * hi + (dl + w * dh) == (lo + dl) + w * (hi + dh);
  }

  lemma {:induction false} ConvSplit(a: Poly, b: Poly, u: Poly, v: Poly, m: nat, c: int, w: int, o: nat, p: nat, k: nat, i: nat)
    requires o + 2 * m <= 256 && p + m <= 256 && k < m && i <= m
    requires IsSplit(a, u, m, w, o, p) && IsSplit(b, v, m, w, o, p)
    requires Cong(c, w * w)
    ensures Cong(Halves(a, b, m, c, o, k, i) + w * Halves(a, b, m, c, o, m + k, i), Conv(u, v, m, w, p, k, i))
  {
    hide Mod, Halves, Term, IsSplit, Conv;
    if i == 0 {
      ConvStart(a, b, u, v, m, c, w, o, p, k);
    } else {
      var t := i - 1;
      ConvSplit(a, b, u, v, m, c, w, o, p, k, t);
      TermSplit(a, b, u, v, m, c, w, o, p, k, t);
      HalvesStep(a, b, m, c, o, k, t);
      HalvesStep(a, b, m, c, o, m + k, t);
      ConvStep(u, v, m, w, p, k, t);
      CombineStep(Halves(a, b, m, c, o, k, t), Halves(a, b, m, c, o, m + k, t),
                  Term(a, b, 2 * m, c, o, k, t) + Term(a, b, 2 * m, c, o, k, m + t),
                  Term(a, b, 2 * m, c, o, m + k, t) + Term(a, b, 2 * m, c, o, m + k, m + t),
                  w, Conv(u, v, m, w, p, k, t), Term(u, v, m, w, p, k, t));
    }
  }

  lemma ConvStart(a: Poly, b: Poly, u: Poly, v: Poly, m: nat, c: int, w: int, o: nat, p: nat, k: nat)
    requires o + 2 * m <= 256 && p + m <= 256 && k < m
    ensures Halves(a, b, m, c, o, k, 0) == Halves(a, b, m, c, o, m + k, 0) == Conv(u, v, m, w, p, k, 0) == 0
  {
    hide Term;
  }

  lemma ConvStep(a: Poly, b: Poly, n: nat, c: int, o: nat, k: nat, i: nat)
    requires o + n <= 256 && k < n && i < n
    ensures Conv(a, b, n, c, o, k, i + 1) == Conv(a, b, n, c, o, k, i) + Term(a, b, n, c, o, k, i)
  {
    hide Term;
  }

  /** Coefficient k of the split product, on the side of X^m - w. */
  lemma ProductSplit(a: Poly, b: Poly, u: Poly, v: Poly, m: nat, c: int, w: int, o: nat, p: nat, k: nat)
    requires o + 2 * m <= 256 && p + m <= 256 && k < m
    requires IsSplit(a, u, m, w, o, p) && IsSplit(b, v, m, w, o, p)
    requires Cong(c, w * w)
    ensures Cong(Conv(a, b, 2 * m, c, o, k, 2 * m) + w * Conv(a, b, 2 * m, c, o, m + k, 2 * m), Conv(u, v, m, w, p, k, m))
  {
    hide Mod, Term, IsSplit;
    ConvSplit(a, b, u, v, m, c, w, o, p, k, m);
  }

  lemma ChunkPlace(a: Poly, b: Poly, len: nat, c: nat, t: nat)
    requires len == 1 || IsLen(len)
    requires c < 128 / len && t < 2 * len
    ensures ChunkMulAt(a, b, len, Offset(len, c) + t) == Conv(a, b, 2 * len, NodeConst(Node(len, c)), Offset(len, c), t, 2 * len)
  {
    hide Conv, NodeConst, Node, Offset, ChunkOf;
    ChunkOfUnique(len, c, t);
  }

  lemma LayerSplits(a: Poly, len: nat, c: nat)
    requires IsLen(len) && c < 128 / len
    ensures IsSplit(a, Layer(a, len), len, Zeta(Node(len, c)), Offset(len, c), Offset(len, c))
    ensures IsSplit(a, Layer(a, len), len, -Zeta(Node(len, c)), Offset(len, c), Offset(len, c) + len)
  {
    hide Zeta, LayerAt, Node, Offset;
    var z, o := Zeta(Node(len, c)), Offset(len, c);
    var w, p := -z, o + len;
    forall t | 0 <= t < len
      ensures SplitAt(a, Layer(a, len), len, z, o, o, t)
    {
      LayerPlace(a, len, c, t);
    }
    forall t | 0 <= t < len
      ensures SplitAt(a, Layer(a, len), len, w, o, p, t)
    {
      LayerPlace(a, len, c, t);
    }
  }

  /** The half-length layer below: side s of chunk c is its chunk 2c + s. */
  lemma HalfPlace(u: Poly, v: Poly, len: nat, c: nat, s: nat, t: nat)
    requires IsLen(len) && c < 128 / len && s < 2 && t < len
    ensures Offset(len, c) + s * len + len <= 256
    ensures ChunkMulAt(u, v, len / 2, Offset(len, c) + s * len + t)
         == Conv(u, v, len, if s == 0 then Zeta(Node(len, c)) else -Zeta(Node(len, c)), Offset(len, c) + s * len, t, len)
  {
    hide Conv, Zeta, ChunkMulAt;
    HalfArith(len, c, s);
    ChunkPlace(u, v, len / 2, 2 * c + s, t);
  }

  lemma HalfArith(len: nat, c: nat, s: nat)
    requires IsLen(len) && c < 128 / len && s < 2
    ensures 2 * (len / 2) == len && 2 * c + s < 128 / (len / 2)
    ensures Node(len / 2, 2 * c + s) == 2 * Node(len, c) + s
    ensures Offset(len / 2, 2 * c + s) == Offset(len, c) + s * len
  {
  }

  /** Both halves of chunk c of the layer of a product are the products of the halves. */
  lemma LayerMulChunk(a: Poly, b: Poly, len: nat, c: nat, t: nat)
    requires IsLen(len) && c < 128 / len && t < len
    ensures Cong(LayerAt(ChunkMul(a, b, len), len, Offset(len, c) + t),
                 ChunkMulAt(Layer(a, len), Layer(b, len), len / 2, Offset(len, c) + t))
    ensures Cong(LayerAt(ChunkMul(a, b, len), len, Offset(len, c) + len + t),
                 ChunkMulAt(Layer(a, len), Layer(b, len), len / 2, Offset(len, c) + len + t))
  {
    hide Mod, Zeta, Node, Offset, NodeConst, Layer, LayerAt, ChunkMulAt, Conv, IsSplit;
    var o, z, g := Offset(len, c), Zeta(Node(len, c)), NodeConst(Node(len, c));
    var u, v := Layer(a, len), Layer(b, len);
    ChunkPlace(a, b, len, c, t);
    ChunkPlace(a, b, len, c, len + t);
    LayerPlace(ChunkMul(a, b, len), len, c, t);
    NodeSquare(Node(len, c));
    LayerSplits(a, len, c);
    LayerSplits(b, len, c);
    HalfPlace(u, v, len, c, 0, t);
    HalfPlace(u, v, len, c, 1, t);
    hide IsLen;
    assert -z * -z == z * z;
    ProductSplit(a, b, u, v, len, g, z, o, o, t);
    ProductSplit(a, b, u, v, len, g, -z, o, o + len, t);
  }

  /** A layer maps the product modulo the factors X^(2 len) - c to the product modulo the factors X^len - z. */
  lemma LayerMul(a: Poly, b: Poly, len: nat)
    requires IsLen(len)
    ensures CongPoly(Layer(ChunkMul(a, b, len), len), ChunkMul(Layer(a, len), Layer(b, len), len / 2))
  {
    hide Mod, ChunkMulAt, LayerAt, Offset, ChunkOf;
    forall j | 0 <= j < 256
      ensures Cong(LayerAt(ChunkMul(a, b, len), len, j), ChunkMulAt(Layer(a, len), Layer(b, len), len / 2, j))
    {
      var c := ChunkOf(len, j);
      var t := j - Offset(len, c);
      LayerMulChunk(a, b, len, c, if t < len then t else t - len);
    }
  }
}
