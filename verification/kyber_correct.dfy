/** Decryption inverts encryption exactly when the noise stays near zero. */
module KyberCorrectness {
  import opened KyberArith
  import opened KyberRing
  import opened KyberTransform
  import opened KyberLoops
  import opened KyberProduct
  import opened KyberCodec
  import opened KyberPke

  function AddVec(a: Vec, b: Vec): Vec {
    [Add(a[0], b[0]), Add(a[1], b[1]), Add(a[2], b[2])]
  }

  // ---------------------------------------------------------------- the noise

  /** What compression changes in the mask and in the payload. */
  function RowRounding(b: Bytes10, p: Poly): Poly {
    Sub(Decoded10(b), p)
  }

  function MaskRounding(a: Matrix, r: Vec, e1: Vec, c: Ciphertext): Vec {
    hide MaskPoly, RowRounding;
    [RowRounding(c.u0, MaskPoly(a, r, e1, 0)), RowRounding(c.u1, MaskPoly(a, r, e1, 1)),
     RowRounding(c.u2, MaskPoly(a, r, e1, 2))]
  }

  function PayloadRounding(pk: Key, r: Vec, e2: Poly, m: Message, c: Ciphertext): Poly {
    Sub(Decoded4(c.v), PayloadPoly(DecodedKey(pk), r, e2, m))
  }

  /** e r + e2 + dv - s (e1 + du). */
  function Noise(s: Vec, e: Vec, r: Vec, e1: Vec, e2: Poly, du: Vec, dv: Poly): Poly {
    Sub(Add(Add(RingDot(e, r), e2), dv), RingDot(s, AddVec(e1, du)))
  }

  // ---------------------------------------------------------------- algebra of inner products

  lemma DotAdditive(a: Vec, b: Vec, d: Vec)
    ensures Dot(AddVec(a, b), d) == Add(Dot(a, d), Dot(b, d))
    ensures Dot(d, AddVec(a, b)) == Add(Dot(d, a), Dot(d, b))
  {
    hide Mul;
    DotCommutes(d, a);
    DotCommutes(d, b);
    DotCommutes(d, AddVec(a, b));
    MulDistributes(a[0], b[0], d[0]);
    MulDistributes(a[1], b[1], d[1]);
    MulDistributes(a[2], b[2], d[2]);
  }

  lemma DotCommutes(a: Vec, b: Vec)
    ensures Dot(a, b) == Dot(b, a)
  {
    hide Mul, Add;
    MulComm(a[0], b[0]);
    MulComm(a[1], b[1]);
    MulComm(a[2], b[2]);
  }

  function Rows(a: Matrix, s: Vec): Vec {
    [Dot(a[0], s), Dot(a[1], s), Dot(a[2], s)]
  }

  /** x (y z) regrouped as y (x z). */
  lemma MulSwap(x: Poly, y: Poly, z: Poly)
    ensures Mul(Mul(x, y), z) == Mul(y, Mul(x, z))
  {
    hide Mul;
    MulComm(x, y);
    MulAssoc(y, x, z);
  }

  lemma MulDot(x: Vec, s: Vec, z: Poly)
    ensures Mul(Dot(x, s), z) == Add(Add(Mul(s[0], Mul(x[0], z)), Mul(s[1], Mul(x[1], z))), Mul(s[2], Mul(x[2], z)))
  {
    hide Mul, Add;
    MulDistributes(Add(Mul(x[0], s[0]), Mul(x[1], s[1])), Mul(x[2], s[2]), z);
    MulDistributes(Mul(x[0], s[0]), Mul(x[1], s[1]), z);
    MulSwap(x[0], s[0], z);
    MulSwap(x[1], s[1], z);
    MulSwap(x[2], s[2], z);
  }

  lemma DotMul(s: Poly, x: Vec, r: Vec)
    ensures Mul(s, Dot(x, r)) == Add(Add(Mul(s, Mul(x[0], r[0])), Mul(s, Mul(x[1], r[1]))), Mul(s, Mul(x[2], r[2])))
  {
    hide Mul, Add;
    MulComm(s, Dot(x, r));
    MulDistributes(Add(Mul(x[0], r[0]), Mul(x[1], r[1])), Mul(x[2], r[2]), s);
    MulDistributes(Mul(x[0], r[0]), Mul(x[1], r[1]), s);
    MulComm(s, Mul(x[0], r[0]));
    MulComm(s, Mul(x[1], r[1]));
    MulComm(s, Mul(x[2], r[2]));
  }

  /** (A s) r = s (A^T r). */
  lemma TransposeLaw(a: Matrix, s: Vec, r: Vec)
    ensures Dot(Rows(a, s), r) == Dot(s, Rows(Transpose(a), r))
  {
    hide Mul;
    var t := Transpose(a);
    MulDot(a[0], s, r[0]);
    MulDot(a[1], s, r[1]);
    MulDot(a[2], s, r[2]);
    DotMul(s[0], t[0], r);
    DotMul(s[1], t[1], r);
    DotMul(s[2], t[2], r);
    assert t[0][1] == a[1][0] && t[0][2] == a[2][0] && t[1][0] == a[0][1];
    assert t[1][2] == a[2][1] && t[2][0] == a[0][2] && t[2][1] == a[1][2];
  }

  // ---------------------------------------------------------------- back to the ring

  /** The inverse transform with the Montgomery factors cancelled. */
  function Back(p: Poly): Poly {
    InvNttToMont(Scale(169, p))
  }

  lemma BackLinear(p: Poly, q: Poly)
    ensures Back(Add(p, q)) == Add(Back(p), Back(q))
    ensures CongPoly(p, q) ==> CongPoly(Back(p), Back(q))
    ensures CongPoly(Ntt(Back(p)), p)
  {
    hide Mod, InvNttToMont, Add, Ntt;
    ScaleAdd(169, p, q);
    InvNttLinear(Scale(169, p), Scale(169, q), 1);
    if CongPoly(p, q) {
      ScaleCong(169, 169, p, q);
    }
    TransformRoundTrip(Scale(169, p));
    ScaleScale(R, 169, p);
    CongExact(R * 169, 1, 3327);
    ScaleCong(R * 169, 1, p, p);
    assert Scale(1, p) == p;
    CongPolyTrans(Ntt(Back(p)), Scale(R, Scale(169, p)), p);
  }

  lemma NttAdd(p: Poly, q: Poly)
    ensures Ntt(Add(p, q)) == Add(Ntt(p), Ntt(q))
  {
    hide NttFrom;
    NttLinear(p, q, 128);
  }

  /** The transform of a received mask row: the unrounded product plus the transformed small terms. */
  lemma MaskTransform(p: Poly, d: Poly, e: Poly, du: Poly)
    requires p == Add(Add(Back(d), e), du)
    ensures CongPoly(Ntt(p), Add(d, Ntt(Add(e, du))))
  {
    hide Mod, Back, Ntt;
    var n := Add(e, du);
    assert p == Add(Back(d), n);
    NttAdd(Back(d), n);
    BackLinear(d, d);
    AddCong(Ntt(Back(d)), d, Ntt(n), Ntt(n));
  }

  /** Subtracting the two products leaves only the small terms. */
  lemma ProductsCancel(x: Poly, y: Poly, z: Poly, rest: Poly)
    ensures Sub(Add(Back(Add(x, y)), rest), Back(Add(x, z))) == Sub(Add(Back(y), rest), Back(z))
  {
    hide Back, Add, Sub;
    BackLinear(x, y);
    BackLinear(x, z);
    CancelCommon(Back(x), Back(y), Back(z), rest);
  }

  lemma CancelCommon(x: Poly, y: Poly, z: Poly, rest: Poly)
    ensures Sub(Add(Add(x, y), rest), Add(x, z)) == Sub(Add(y, rest), z)
  {
  }

  lemma BackDot(x: Vec, y: Vec)
    ensures CongPoly(Back(Dot(NttVec(x), NttVec(y))), RingDot(x, y))
  {
    hide Mod, NttVec, RingDot;
    DotThroughTransform(x, y);
  }

  // ---------------------------------------------------------------- decoded keys

  lemma KeyRowDecodes(p: Poly, b: Bytes12)
    requires IsToBytes(CentredPoly(p), b)
    ensures CongPoly(Decoded12(b), p)
  {
    hide Mod, Decoded12;
    CentredPolyUnique(p, CentredPoly(p));
    DecodedUnique12(b, Decoded12(b));
    BytesRoundTrip(CentredPoly(p), b, Decoded12(b));
  }

  function PublicVec(a: Matrix, s: Vec, e: Vec): Vec {
    AddVec(Rows(a, NttVec(s)), NttVec(e))
  }

  lemma KeysDecode(a: Matrix, s: Vec, e: Vec, pk: Key, sk: Key)
    requires IsKeyPair(a, s, e, pk, sk)
    ensures CongVec(DecodedKey(pk), PublicVec(a, s, e)) && CongVec(DecodedKey(sk), NttVec(s))
  {
    hide CongPoly, Ntt, Dot, Add, Decoded12, IsToBytes, CentredPoly;
    KeyRowDecodes(PublicPoly(a, s, e, 0), pk[0]);
    KeyRowDecodes(PublicPoly(a, s, e, 1), pk[1]);
    KeyRowDecodes(PublicPoly(a, s, e, 2), pk[2]);
    KeyRowDecodes(Ntt(s[0]), sk[0]);
    KeyRowDecodes(Ntt(s[1]), sk[1]);
    KeyRowDecodes(Ntt(s[2]), sk[2]);
  }

  // ---------------------------------------------------------------- what decryption recovers

  /** The payload and mask in the transformed domain share the product (A s) r = s (A^T r). */
  lemma PayloadProduct(a: Matrix, s: Vec, e: Vec, pk: Key, sk: Key, r: Vec)
    requires IsKeyPair(a, s, e, pk, sk)
    ensures CongPoly(Dot(DecodedKey(pk), NttVec(r)),
                     Add(Dot(NttVec(s), Rows(Transpose(a), NttVec(r))), Dot(NttVec(e), NttVec(r))))
  {
    hide CongPoly, Dot, Add, NttVec, DecodedKey, IsKeyPair;
    KeysDecode(a, s, e, pk, sk);
    CongVecRefl(NttVec(r));
    DotCong(DecodedKey(pk), PublicVec(a, s, e), NttVec(r), NttVec(r));
    DotAdditive(Rows(a, NttVec(s)), NttVec(e), NttVec(r));
    TransposeLaw(a, NttVec(s), NttVec(r));
  }

  lemma MaskProduct(a: Matrix, s: Vec, e: Vec, pk: Key, sk: Key, r: Vec, e1: Vec, c: Ciphertext)
    requires IsKeyPair(a, s, e, pk, sk)
    ensures CongPoly(Dot(DecodedKey(sk), NttVec(DecodedMask(c))),
                     Add(Dot(NttVec(s), Rows(Transpose(a), NttVec(r))),
                         Dot(NttVec(s), NttVec(AddVec(e1, MaskRounding(a, r, e1, c))))))
  {
    hide CongPoly, Dot, Add, DecodedKey, IsKeyPair, Ntt, Decoded10;
    var t, y := Transpose(a), NttVec(r);
    var du, u := MaskRounding(a, r, e1, c), DecodedMask(c);
    KeysDecode(a, s, e, pk, sk);
    MaskRowTransform(u[0], Dot(t[0], y), e1[0], du[0]);
    MaskRowTransform(u[1], Dot(t[1], y), e1[1], du[1]);
    MaskRowTransform(u[2], Dot(t[2], y), e1[2], du[2]);
    var w := AddVec(Rows(t, y), NttVec(AddVec(e1, du)));
    DotCong(DecodedKey(sk), NttVec(s), NttVec(u), w);
    DotAdditive(Rows(t, y), NttVec(AddVec(e1, du)), NttVec(s));
  }

  lemma MaskRowTransform(u: Poly, d: Poly, e: Poly, du: Poly)
    requires du == Sub(u, Add(Back(d), e))
    ensures CongPoly(Ntt(u), Add(d, Ntt(Add(e, du))))
  {
    hide CongPoly, Back, Ntt;
    assert u == Add(Add(Back(d), e), du);
    MaskTransform(u, d, e, du);
  }

  /** Decryption recovers the encoded message plus the noise. */
  lemma Recovered(a: Matrix, s: Vec, e: Vec, pk: Key, sk: Key, r: Vec, e1: Vec, e2: Poly, m: Message, c: Ciphertext)
    requires IsKeyPair(a, s, e, pk, sk)
    ensures CongPoly(RecoveredPoly(sk, c),
                     Add(MessagePoly(m), Noise(s, e, r, e1, e2, MaskRounding(a, r, e1, c), PayloadRounding(pk, r, e2, m, c))))
  {
    hide CongPoly, Dot, NttVec, DecodedKey, IsKeyPair, Ntt, Decoded10, Decoded4, Back, RingDot, Add, Sub, MaskRounding, Rows, DecodedMask, MessagePoly, InvNttToMont;
    var du, dv := MaskRounding(a, r, e1, c), PayloadRounding(pk, r, e2, m, c);
    var k, n := MessagePoly(m), AddVec(e1, du);
    var x := Dot(NttVec(s), Rows(Transpose(a), NttVec(r)));
    var y, z := Dot(NttVec(e), NttVec(r)), Dot(NttVec(s), NttVec(n));
    var p, q := Dot(DecodedKey(pk), NttVec(r)), Dot(DecodedKey(sk), NttVec(DecodedMask(c)));
    PayloadProduct(a, s, e, pk, sk, r);
    MaskProduct(a, s, e, pk, sk, r, e1, c);
    BackLinear(p, Add(x, y));
    BackLinear(q, Add(x, z));
    BackDot(e, r);
    BackDot(s, n);
    Shapes(pk, sk, r, e2, m, c);
    PayloadSum(Decoded4(c.v), Back(p), e2, k, dv);
    hide RecoveredPoly, PayloadPoly, PayloadRounding;
    var rest := Add(Add(e2, dv), k);
    RecoveredCong(RecoveredPoly(sk, c), Back(p), Back(q), Back(Add(x, y)), Back(Add(x, z)), rest);
    ProductsCancel(x, y, z, rest);
    SmallTerms(Back(y), RingDot(e, r), Back(z), RingDot(s, n), e2, dv, k);
    CongPolyTrans(RecoveredPoly(sk, c), Sub(Add(Back(y), rest), Back(z)), Add(k, Noise(s, e, r, e1, e2, du, dv)));
  }

  lemma Shapes(pk: Key, sk: Key, r: Vec, e2: Poly, m: Message, c: Ciphertext)
    ensures PayloadPoly(DecodedKey(pk), r, e2, m) == Add(Add(Back(Dot(DecodedKey(pk), NttVec(r))), e2), MessagePoly(m))
    ensures RecoveredPoly(sk, c) == Sub(Decoded4(c.v), Back(Dot(DecodedKey(sk), NttVec(DecodedMask(c)))))
  {
    hide Dot, NttVec, DecodedKey, Decoded4, DecodedMask, MessagePoly, InvNttToMont, Add, Sub;
  }

  lemma PayloadSum(v: Poly, b: Poly, e2: Poly, k: Poly, dv: Poly)
    requires dv == Sub(v, Add(Add(b, e2), k))
    ensures v == Add(b, Add(Add(e2, dv), k))
  {
  }

  lemma RecoveredCong(w: Poly, b: Poly, d: Poly, b': Poly, d': Poly, rest: Poly)
    requires w == Sub(Add(b, rest), d) && CongPoly(b, b') && CongPoly(d, d')
    ensures CongPoly(w, Sub(Add(b', rest), d'))
  {
    hide Mod, Add, Sub;
    CongPolyRefl(rest);
    AddCong(b, b', rest, rest);
    AddCong(Add(b, rest), Add(b', rest), d, d');
  }

  lemma CongPolyRefl(p: Poly)
    ensures CongPoly(p, p)
  {
    hide Mod;
  }

  lemma SmallTerms(y: Poly, y': Poly, z: Poly, z': Poly, e2: Poly, dv: Poly, k: Poly)
    requires CongPoly(y, y') && CongPoly(z, z')
    ensures CongPoly(Sub(Add(y, Add(Add(e2, dv), k)), z), Add(k, Sub(Add(Add(y', e2), dv), z')))
  {
    RecoveredCong(Sub(Add(y, Add(Add(e2, dv), k)), z), y, z, y', z', Add(Add(e2, dv), k));
    assert Sub(Add(y', Add(Add(e2, dv), k)), z') == Add(k, Sub(Add(Add(y', e2), dv), z'));
  }

  // ---------------------------------------------------------------- when the message comes back

  /** A message bit survives noise n (centred) exactly in this range; one side differs by one for a set bit. */
  predicate Tolerable(bit: int, n: int) {
    -832 <= n <= 832 - bit
  }

  lemma BitSurvives(w: int, bit: int, n: int)
    requires (bit == 0 || bit == 1) && Cong(w, bit * ((Q + 1) / 2) + n)
    ensures Compress(Lift(Centred(w)), 2) == bit <==> Tolerable(bit, Centred(n))
  {
    var c := Centred(n);
    var x := bit * 1665 + c;
    LiftIsMod(Centred(w));
    CongAdd(bit * 1665, bit * 1665, n, c);
    ModOfShort(x);
    hide Mod, Centred, Lift, Compress;
    CompressBit(Mod(w));
  }

  lemma ModOfShort(x: int)
    requires -Q <= x <= Q
    ensures Mod(x) == if x < 0 then x + Q else if x == Q then 0 else x
  {
    if x == -Q {
      assert Mod(x) == 0;
    }
  }

  /**
   * For every matrix, keys, noise and message: decrypting the encryption returns the message if and only if
   * every coefficient of the total noise, centred modulo Q, is tolerable for the message bit it meets.
   */
  lemma DecryptionInvertsEncryption(a: Matrix, s: Vec, e: Vec, pk: Key, sk: Key,
                                    r: Vec, e1: Vec, e2: Poly, m: Message, c: Ciphertext, d: Message)
    requires IsKeyPair(a, s, e, pk, sk)
    requires IsDecryption(sk, c, d)
    ensures var n := Noise(s, e, r, e1, e2, MaskRounding(a, r, e1, c), PayloadRounding(pk, r, e2, m, c));
            d == m <==> forall j :: 0 <= j < 256 ==> Tolerable(Bit(m[j / 8], j % 8), Centred(n[j]))
  {
    hide IsKeyPair, Noise, MaskRounding, PayloadRounding, Bit, Tolerable, Compress, Lift, Centred, Mod, RecoveredPoly;
    var n := Noise(s, e, r, e1, e2, MaskRounding(a, r, e1, c), PayloadRounding(pk, r, e2, m, c));
    var w := RecoveredPoly(sk, c);
    Recovered(a, s, e, pk, sk, r, e1, e2, m, c);
    forall j | 0 <= j < 256
      ensures Bit(d[j / 8], j % 8) == Bit(m[j / 8], j % 8) <==> Tolerable(Bit(m[j / 8], j % 8), Centred(n[j]))
    {
      BitSurvives(w[j], Bit(m[j / 8], j % 8), n[j]);
      assert CentredPoly(w)[j] == Centred(w[j]);
    }
    SameBits(d, m);
  }

  lemma SameBits(d: Message, m: Message)
    ensures d == m <==> forall j :: 0 <= j < 256 ==> Bit(d[j / 8], j % 8) == Bit(m[j / 8], j % 8)
  {
    hide Bit;
    if forall j :: 0 <= j < 256 ==> Bit(d[j / 8], j % 8) == Bit(m[j / 8], j % 8) {
      forall i | 0 <= i < 32
        ensures d[i] == m[i]
      {
        forall k | 0 <= k < 8
          ensures Bit(d[i], k) == Bit(m[i], k)
        {
          assert (8 * i + k) / 8 == i && (8 * i + k) % 8 == k;
        }
        BitsDetermineByte(d[i], m[i]);
      }
    }
  }

  /** Compression contributes at most 2 to every coefficient of the mask and at most 104 to those of the payload. */
  lemma RoundingBounds(a: Matrix, pk: Key, r: Vec, e1: Vec, e2: Poly, m: Message, c: Ciphertext, j: nat)
    requires IsEncryption(a, pk, r, e1, e2, m, c) && j < 256
    ensures -104 <= Centred(PayloadRounding(pk, r, e2, m, c)[j]) <= 104
    ensures forall i :: 0 <= i < 3 ==> -2 <= Centred(MaskRounding(a, r, e1, c)[i][j]) <= 2
  {
    hide Centred, Mod, MaskPoly, PayloadPoly, Decoded4, Decoded10, DecodedKey, IsCompressed10, IsCompressed4;
    RowBound(MaskPoly(a, r, e1, 0), c.u0, j);
    RowBound(MaskPoly(a, r, e1, 1), c.u1, j);
    RowBound(MaskPoly(a, r, e1, 2), c.u2, j);
    var p := PayloadPoly(DecodedKey(pk), r, e2, m);
    DecodedUnique4(c.v, Decoded4(c.v));
    Compressed4RoundTrip(CentredPoly(p), c.v, Decoded4(c.v));
    ErrorOf(p[j], 16);
  }

  lemma RowBound(p: Poly, b: Bytes10, j: nat)
    requires IsCompressed10(CentredPoly(p), b) && j < 256
    ensures -2 <= Centred(RowRounding(b, p)[j]) <= 2
  {
    hide Centred, Mod, Decoded10, IsCompressed10, IsDecompressed10;
    DecodedUnique10(b, Decoded10(b));
    Compressed10RoundTrip(CentredPoly(p), b, Decoded10(b));
    ErrorOf(p[j], 1024);
  }

  lemma ErrorOf(x: int, m: nat)
    requires m == 16 || m == 1024
    ensures var n := Centred(Decompress(Compress(Lift(Centred(x)), m), m) - x);
            var bound := if m == 16 then 104 else 2;
            -bound <= n <= bound
  {
    hide Compress, Decompress;
    var y := Lift(Centred(x));
    RoundingError(y, m);
    var f := Decompress(Compress(y, m), m);
    LiftIsMod(Centred(x));
    CongAdd(f, f, y, x);
    CentredUnique(f - x, Centred(f - y));
  }

  /** Section 5 of FIPS 203: total noise within 831 per coefficient is enough for every message. */
  lemma SmallNoiseDecrypts(a: Matrix, s: Vec, e: Vec, pk: Key, sk: Key,
                           r: Vec, e1: Vec, e2: Poly, m: Message, c: Ciphertext, d: Message)
    requires IsKeyPair(a, s, e, pk, sk)
    requires IsDecryption(sk, c, d)
    requires var n := Noise(s, e, r, e1, e2, MaskRounding(a, r, e1, c), PayloadRounding(pk, r, e2, m, c));
             forall j :: 0 <= j < 256 ==> -831 <= Centred(n[j]) <= 831
    ensures d == m
  {
    hide IsKeyPair, Noise, MaskRounding, PayloadRounding, Bit, Centred, IsDecryption;
    DecryptionInvertsEncryption(a, s, e, pk, sk, r, e1, e2, m, c, d);
  }

  /** Key generation, encryption and decryption in sequence, on arbitrary sampled inputs. */
  method Exchange(a: Matrix, s: WordsVec, e: WordsVec, r: WordsVec, e1: WordsVec, e2: Words, m: Message)
    returns (d: Message, pk: Key, sk: Key, c: Ciphertext)
    requires forall i :: 0 <= i < 3 ==> Within(s[i], 9471) && Within(e[i], 9471) && Within(r[i], 9471) && Within(e1[i], 9471)
    requires Within(e2, 9471)
    ensures var n := Noise(s, e, r, e1, e2, MaskRounding(a, r, e1, c), PayloadRounding(pk, r, e2, m, c));
            d == m <==> forall j :: 0 <= j < 256 ==> Tolerable(Bit(m[j / 8], j % 8), Centred(n[j]))
    ensures IsEncryption(a, pk, r, e1, e2, m, c)
  {
    hide IsKeyPair, Noise, MaskRounding, PayloadRounding, Bit, Centred, IsDecryption, IsEncryption;
    pk, sk := KeyPair(a, s, e);
    c := Enc(a, pk, r, e1, e2, m);
    d := Dec(c, sk);
    DecryptionInvertsEncryption(a, s, e, pk, sk, r, e1, e2, m, c, d);
  }
}
