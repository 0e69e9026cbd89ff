/** K-PKE: key generation, encryption and decryption, and exactly when decryption inverts encryption. */
module KyberPke {
  import opened Common
  import opened KyberArith
  import opened KyberRing
  import opened KyberTransform
  import opened KyberLoops
  import opened KyberProduct
  import opened KyberCodec

  // ---------------------------------------------------------------- what the three operations compute

  type Bytes12 = b: seq<Byte> | |b| == 384 witness seq(384, _ => 0)
  type Bytes10 = b: seq<Byte> | |b| == 320 witness seq(320, _ => 0)
  type Bytes4 = b: seq<Byte> | |b| == 128 witness seq(128, _ => 0)
  type Message = b: seq<Byte> | |b| == 32 witness seq(32, _ => 0)
  const ZERO12: Bytes12 := seq(384, _ => 0)
  type Key = k: seq<Bytes12> | |k| == 3 witness [ZERO12, ZERO12, ZERO12]

  datatype Ciphertext = Ciphertext(u0: Bytes10, u1: Bytes10, u2: Bytes10, v: Bytes4)

  /** A matrix of polynomials in the transformed domain, row by row, as sampled: entries below Q. */
  type Matrix = a: seq<WordsVec> | |a| == 3 && forall i, j :: 0 <= i < 3 && 0 <= j < 3 ==> Within(a[i][j], 3328)
    witness [ZEROVEC, ZEROVEC, ZEROVEC]

  const ZEROVEC: WordsVec := [ZERO, ZERO, ZERO]

  function Transpose(a: Matrix): Matrix {
    [[a[0][0], a[1][0], a[2][0]], [a[0][1], a[1][1], a[2][1]], [a[0][2], a[1][2], a[2][2]]]
  }

  /** The representatives closest to zero. */
  function CentredPoly(p: Poly): Words {
    seq(256, j requires 0 <= j < 256 => Centred(p[j]))
  }

  lemma CentredPolyUnique(p: Poly, w: Words)
    ensures CongPoly(CentredPoly(p), p) && Within(CentredPoly(p), 1664)
    ensures CongPoly(w, p) && Within(w, 1664) ==> w == CentredPoly(p)
  {
    hide Mod;
    if CongPoly(w, p) && Within(w, 1664) {
      forall j | 0 <= j < 256
        ensures w[j] == Centred(p[j])
      {
        CentredUnique(p[j], w[j]);
      }
    }
  }

  /** Row i of t = A s + e, in the transformed domain. */
  function PublicPoly(a: Matrix, s: Vec, e: Vec, i: nat): Poly
    requires i < 3
  {
    Add(Dot(a[i], NttVec(s)), Ntt(e[i]))
  }

  ghost predicate IsKeyPair(a: Matrix, s: Vec, e: Vec, pk: Key, sk: Key) {
    && (forall i :: 0 <= i < 3 ==> IsToBytes(CentredPoly(PublicPoly(a, s, e, i)), pk[i]))
    && (forall i :: 0 <= i < 3 ==> IsToBytes(CentredPoly(Ntt(s[i])), sk[i]))
  }

  function DecodedKey(k: Key): WordsVec {
    [Decoded12(k[0]), Decoded12(k[1]), Decoded12(k[2])]
  }

  /** Row i of u = A^T r + e1. */
  function MaskPoly(a: Matrix, r: Vec, e1: Vec, i: nat): Poly
    requires i < 3
  {
    Add(InvNttToMont(Scale(169, Dot(Transpose(a)[i], NttVec(r)))), e1[i])
  }

  function MessagePoly(m: Message): Words {
    seq(256, j requires 0 <= j < 256 => Bit(m[j / 8], j % 8) * ((Q + 1) / 2))
  }

  /** v = t r + e2 + encoded message. */
  function PayloadPoly(t: Vec, r: Vec, e2: Poly, m: Message): Poly {
    Add(Add(InvNttToMont(Scale(169, Dot(t, NttVec(r)))), e2), MessagePoly(m))
  }

  ghost predicate IsEncryption(a: Matrix, pk: Key, r: Vec, e1: Vec, e2: Poly, m: Message, c: Ciphertext) {
    && IsCompressed10(CentredPoly(MaskPoly(a, r, e1, 0)), c.u0)
    && IsCompressed10(CentredPoly(MaskPoly(a, r, e1, 1)), c.u1)
    && IsCompressed10(CentredPoly(MaskPoly(a, r, e1, 2)), c.u2)
    && IsCompressed4(CentredPoly(PayloadPoly(DecodedKey(pk), r, e2, m)), c.v)
  }

  function DecodedMask(c: Ciphertext): WordsVec {
    [Decoded10(c.u0), Decoded10(c.u1), Decoded10(c.u2)]
  }

  /** v' - s u'. */
  function RecoveredPoly(sk: Key, c: Ciphertext): Poly {
    Sub(Decoded4(c.v), InvNttToMont(Scale(169, Dot(DecodedKey(sk), NttVec(DecodedMask(c))))))
  }

  ghost predicate IsDecryption(sk: Key, c: Ciphertext, m: Message) {
    IsToMsg(CentredPoly(RecoveredPoly(sk, c)), m)
  }

  // ---------------------------------------------------------------- the operations

  /** Brings a copy of a polynomial into the transformed domain. */
  method Transformed(p: Words) returns (w: Words)
    requires Within(p, 9471)
    ensures w == CentredPoly(Ntt(p)) && Within(w, 1664)
  {
    hide Mod, Ntt, Centred;
    var f := new I16[256](j requires 0 <= j < 256 => p[j]);
    assert f[..] == p;
    NttInPlace(f);
    w := f[..];
    CentredPolyUnique(Ntt(p), w);
  }

  method TransformedVec(v: WordsVec) returns (w: WordsVec)
    requires Within(v[0], 9471) && Within(v[1], 9471) && Within(v[2], 9471)
    ensures CongVec(w, NttVec(v)) && Within(w[0], 1664) && Within(w[1], 1664) && Within(w[2], 1664)
    ensures forall i :: 0 <= i < 3 ==> w[i] == CentredPoly(Ntt(v[i]))
  {
    hide Mod, Ntt, Centred;
    var w0 := Transformed(v[0]);
    var w1 := Transformed(v[1]);
    var w2 := Transformed(v[2]);
    w := [w0, w1, w2];
    CentredPolyUnique(Ntt(v[0]), w0);
    CentredPolyUnique(Ntt(v[1]), w1);
    CentredPolyUnique(Ntt(v[2]), w2);
  }

  /** Inverse transform of a copy of an accumulated product. */
  method BackTransformed(p: Words, ghost d: Poly) returns (w: Words)
    requires Within(p, 0x3fff) && CongPoly(p, Scale(169, d))
    ensures CongPoly(w, InvNttToMont(Scale(169, d))) && Within(w, 3328)
  {
    hide Mod, InvNttToMont, Scale;
    var f := new I16[256](j requires 0 <= j < 256 => p[j]);
    assert f[..] == p;
    InvNttInPlace(f);
    InvNttLinear(p, Scale(169, d), 1);
    w := f[..];
    CongPolyTrans(w, InvNttToMont(p), InvNttToMont(Scale(169, d)));
  }

  /** Reduction of a copy. */
  method ReducedSum(p: Words, ghost q: Poly) returns (w: Words)
    requires CongPoly(p, q)
    ensures w == CentredPoly(q) && Within(w, 1664)
  {
    hide Mod, Centred;
    var f := new I16[256](j requires 0 <= j < 256 => p[j]);
    assert f[..] == p;
    Reduce(f);
    w := f[..];
    CongPolyTrans(w, p, q);
    CentredPolyUnique(q, w);
  }

  /** One row of the public key: accumulate, move to Montgomery form, add the noise, reduce, encode. */
  method PublicRow(row: WordsVec, skpv: WordsVec, e: Words, ghost s: Vec, ghost noise: Poly) returns (b: Bytes12)
    requires forall i :: 0 <= i < 3 ==> Within(row[i], 3328) && Within(skpv[i], 1664)
    requires CongVec(skpv, NttVec(s)) && CongPoly(e, Ntt(noise)) && Within(e, 1664)
    ensures IsToBytes(CentredPoly(Add(Dot(row, NttVec(s)), Ntt(noise))), b)
  {
    hide Mod, Ntt, Centred, Scale, Mul, Add;
    var p := BaseMulAcc(row, skpv);
    ghost var d := Dot(row, NttVec(s));
    CongVecRefl(row);
    DotCong(row, row, skpv, NttVec(s));
    var f := new I16[256](j requires 0 <= j < 256 => p[j]);
    assert f[..] == p;
    ToMont(f);
    RescaleDot(f[..], p, Dot(row, skpv), d);
    var t := f[..];
    var sum := AddWords(t, e);
    assert sum == Add(t, e) by {
      AddWordsIsAdd(t, e);
    }
    AddCong(t, d, e, Ntt(noise));
    var w := ReducedSum(sum, Add(d, Ntt(noise)));
    b := ToBytes(w);
  }

  lemma AddWordsIsAdd(a: Words, b: Words)
    requires forall j :: 0 <= j < 256 ==> -0x8000 <= a[j] + b[j] < 0x8000
    ensures AddWords(a, b) == Add(a, b)
  {
  }

  lemma CongVecRefl(a: Vec)
    ensures CongVec(a, a)
  {
    hide Mod;
  }

  /** 2^16 cancels the factor 169 of the base products. */
  lemma RescaleDot(f: Poly, p: Poly, x: Poly, d: Poly)
    requires CongPoly(f, Scale(R, p)) && CongPoly(p, Scale(169, x)) && CongPoly(x, d)
    ensures CongPoly(f, d)
  {
    hide Mod;
    ScaleCong(R, R, p, Scale(169, x));
    ScaleScale(R, 169, x);
    CongExact(R * 169, 1, 3327);
    ScaleCong(R * 169, 1, x, d);
    assert Scale(1, d) == d;
    CongPolyTrans(f, Scale(R, p), Scale(R * 169, x));
    CongPolyTrans(f, Scale(R * 169, x), d);
  }

  /** `indcpa::keypair_derand`, given the sampled matrix and noise. */
  method KeyPair(a: Matrix, s: WordsVec, e: WordsVec) returns (pk: Key, sk: Key)
    requires forall i :: 0 <= i < 3 ==> Within(s[i], 9471) && Within(e[i], 9471)
    ensures IsKeyPair(a, s, e, pk, sk)
  {
    hide Mod, Ntt, Centred, Dot, Add, Pack12;
    var skpv := TransformedVec(s);
    var noise := TransformedVec(e);
    var p0 := PublicRow(a[0], skpv, noise[0], s, e[0]);
    var p1 := PublicRow(a[1], skpv, noise[1], s, e[1]);
    var p2 := PublicRow(a[2], skpv, noise[2], s, e[2]);
    var s0 := ToBytes(skpv[0]);
    var s1 := ToBytes(skpv[1]);
    var s2 := ToBytes(skpv[2]);
    pk, sk := [p0, p1, p2], [s0, s1, s2];
  }

  /** One row of the mask. */
  method MaskRow(row: WordsVec, sp: WordsVec, ep: Words, ghost r: Vec) returns (b: Bytes10)
    requires forall i :: 0 <= i < 3 ==> Within(row[i], 3328) && Within(sp[i], 1664)
    requires CongVec(row, row) && CongVec(sp, NttVec(r)) && Within(ep, 9471)
    ensures IsCompressed10(CentredPoly(Add(InvNttToMont(Scale(169, Dot(row, NttVec(r)))), ep)), b)
  {
    hide Mod, InvNttToMont, Centred, Scale, Mul, Add;
    var p := AccumulatedProduct(row, sp, row, NttVec(r));
    ghost var d := Dot(row, NttVec(r));
    var w := BackTransformed(p, d);
    var sum := AddWords(w, ep);
    AddWordsIsAdd(w, ep);
    AddCong(w, InvNttToMont(Scale(169, d)), ep, ep);
    var res := ReducedSum(sum, Add(InvNttToMont(Scale(169, d)), ep));
    b := CompressPoly10(res);
  }

  /** The accumulated product, up to congruence of its operands. */
  method AccumulatedProduct(a: WordsVec, b: WordsVec, ghost x: Vec, ghost y: Vec) returns (p: Words)
    requires forall i :: 0 <= i < 3 ==> Within(a[i], 4095) && Within(b[i], 4095)
    requires CongVec(a, x) && CongVec(b, y)
    ensures CongPoly(p, Scale(169, Dot(x, y))) && Within(p, 1664)
  {
    hide Mod, Dot;
    p := BaseMulAcc(a, b);
    DotCong(a, x, b, y);
    ScaleCong(169, 169, Dot(a, b), Dot(x, y));
    CongPolyTrans(p, Scale(169, Dot(a, b)), Scale(169, Dot(x, y)));
  }

  method DecodeKey(k: Key) returns (t: WordsVec)
    ensures t == DecodedKey(k) && forall i :: 0 <= i < 3 ==> Within(t[i], 4095)
  {
    hide Decoded12, IsFromBytes;
    var t0 := FromBytes(k[0]);
    var t1 := FromBytes(k[1]);
    var t2 := FromBytes(k[2]);
    DecodedUnique12(k[0], t0);
    DecodedUnique12(k[1], t1);
    DecodedUnique12(k[2], t2);
    t := [t0, t1, t2];
  }

  /** `indcpa::enc`, given the sampled matrix and noise. */
  method Enc(a: Matrix, pk: Key, r: WordsVec, e1: WordsVec, e2: Words, m: Message) returns (c: Ciphertext)
    requires forall i :: 0 <= i < 3 ==> Within(r[i], 9471) && Within(e1[i], 9471)
    requires Within(e2, 9471)
    ensures IsEncryption(a, pk, r, e1, e2, m, c)
  {
    hide Mod, Ntt, Centred, Dot, Add, Scale, InvNttToMont, Decoded12, Pack10, Bit, Group;
    var t := DecodeKey(pk);
    var k := FromMsg(m);
    assert k == MessagePoly(m);
    var sp := TransformedVec(r);
    var at := Transpose(a);
    CongVecRefl(at[0]);
    CongVecRefl(at[1]);
    CongVecRefl(at[2]);
    CongVecRefl(t);
    var u0 := MaskRow(at[0], sp, e1[0], r);
    var u1 := MaskRow(at[1], sp, e1[1], r);
    var u2 := MaskRow(at[2], sp, e1[2], r);
    var p := AccumulatedProduct(t, sp, t, NttVec(r));
    ghost var d := Dot(t, NttVec(r));
    var w := BackTransformed(p, d);
    AddWordsIsAdd(w, e2);
    var x := AddWords(w, e2);
    AddCong(w, InvNttToMont(Scale(169, d)), e2, e2);
    WithinSum(w, e2, 3328, 9471);
    WithinSum(x, k, 12799, 1665);
    AddWordsIsAdd(x, k);
    var y := AddWords(x, k);
    AddCong(x, Add(InvNttToMont(Scale(169, d)), e2), k, k);
    var v := ReducedSum(y, PayloadPoly(t, r, e2, m));
    var b := CompressPoly(v);
    c := Ciphertext(u0, u1, u2, b);
  }

  lemma WithinSum(a: Words, b: Words, m: int, n: int)
    requires Within(a, m) && Within(b, n)
    ensures Within(Add(a, b), m + n)
  {
  }

  /** `indcpa::dec`. */
  method Dec(c: Ciphertext, sk: Key) returns (m: Message)
    ensures IsDecryption(sk, c, m)
  {
    hide Mod, Ntt, Centred, Dot, Scale, InvNttToMont, Decoded12, Decoded10, Decoded4, IsDecompressed10, IsDecompressed4;
    var s := DecodeKey(sk);
    var b0 := DecompressPoly10(c.u0);
    var b1 := DecompressPoly10(c.u1);
    var b2 := DecompressPoly10(c.u2);
    var v := DecompressPoly(c.v);
    DecodedUnique10(c.u0, b0);
    DecodedUnique10(c.u1, b1);
    DecodedUnique10(c.u2, b2);
    DecodedUnique4(c.v, v);
    var b := TransformedVec([b0, b1, b2]);
    CongVecRefl(s);
    ghost var y := NttVec(DecodedMask(c));
    var p := AccumulatedProduct(s, b, s, y);
    var w := BackTransformed(p, Dot(s, y));
    var mp := SubWords(v, w);
    assert mp == Sub(v, w);
    AddCong(v, v, w, InvNttToMont(Scale(169, Dot(s, y))));
    var res := ReducedSum(mp, RecoveredPoly(sk, c));
    m := ToMsg(res);
  }
}
