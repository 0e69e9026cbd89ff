/** Coefficient arithmetic of Kyber: the modulus, congruence, and the two word-level reductions. */
module KyberArith {
  import opened Common
  import opened Division

  const Q: int := 3329

  // ---------------------------------------------------------------- congruence modulo Q

  /** The residue class of an integer; algebraic proofs hide its definition and keep equality. */
  function Mod(a: int): int {
    a % Q
  }

  ghost predicate Cong(a: int, b: int) {
    Mod(a) == Mod(b)
  }

  lemma CongMul(a: int, b: int, c: int, d: int)
    requires Cong(a, b) && Cong(c, d)
    ensures Cong(a * c, b * d)
  {
    var s := CongQuotient(a, b);
    var t := CongQuotient(c, d);
    hide Mod;
    ProductDifference(a, b, c, d, s, t);
    CongExact(a * c, b * d, a * t + d * s);
  }

  lemma ProductDifference(a: int, b: int, c: int, d: int, s: int, t: int)
    requires a - b == Q * s && c - d == Q * t
    ensures a * c - b * d == Q * (a * t + d * s)
  {
    assert a * c - b * d == a * (c - d) + d * (a - b);
  }

  lemma CongAdd(a: int, b: int, c: int, d: int)
    requires Cong(a, b) && Cong(c, d)
    ensures Cong(a + c, b + d) && Cong(a - c, b - d)
  {
    var s := CongQuotient(a, b);
    var t := CongQuotient(c, d);
    hide Mod;
    CongExact(a + c, b + d, s + t);
    CongExact(a - c, b - d, s - t);
  }

  lemma CongQuotient(a: int, b: int) returns (k: int)
    requires Cong(a, b)
    ensures a - b == Q * k
  {
    k := (a - b) / Q;
  }

  /** A product with the modulus vanishes; the form in which exact integer identities are reduced. */
  lemma CongExact(a: int, b: int, k: int)
    requires a - b == Q * k
    ensures Cong(a, b)
  {
  }

  // ---------------------------------------------------------------- Montgomery and Barrett

  const QINV: int := -3327
  const BARRETT_V: int := (0x400_0000 + Q / 2) / Q

  /** `x as i16` of a wider integer: truncation to the low 16 bits, two's complement. */
  function WrapI16(x: int): (r: I16)
    ensures (x - r) % 0x1_0000 == 0
  {
    (x + 0x8000) % 0x1_0000 - 0x8000
  }

  /** Montgomery reduction divides by 2^16 modulo Q; the shift by 16 is exact and nothing overflows. */
  function MontgomeryReduce(a: int): (r: I16)
    requires -Q * 0x8000 <= a < Q * 0x8000
    ensures Cong(0x1_0000 * r, a)
    ensures -Q < r < Q
  {
    MontgomeryLaws(a);
    var t := WrapI16(WrapI16(a) * QINV);
    (a - t * Q) / 0x1_0000
  }

  lemma MontgomeryLaws(a: int)
    requires -Q * 0x8000 <= a < Q * 0x8000
    ensures var r := (a - WrapI16(WrapI16(a) * QINV) * Q) / 0x1_0000; -Q < r < Q && Cong(0x1_0000 * r, a)
  {
    MontgomeryShiftExact(a);
    var t := WrapI16(WrapI16(a) * QINV);
    hide WrapI16;
    var r := (a - t * Q) / 0x1_0000;
    assert 0x1_0000 * r == a - t * Q;
    CongExact(0x1_0000 * r, a, -t);
  }

  lemma MontgomeryShiftExact(a: int)
    ensures (a - WrapI16(WrapI16(a) * QINV) * Q) % 0x1_0000 == 0
  {
    var lo := WrapI16(a);
    var t := WrapI16(lo * QINV);
    var i, j := (a - lo) / 0x1_0000, (lo * QINV - t) / 0x1_0000;
    assert a == lo + 0x1_0000 * i && t == lo * QINV - 0x1_0000 * j;
    assert a - t * Q == 0x1_0000 * (i + Q * j + 169 * lo);
  }

  /** Barrett reduction picks the representative closest to zero, for every 16-bit input. */
  function BarrettReduce(a: I16): (r: I16)
    ensures Cong(r, a)
    ensures -1664 <= r <= 1664
  {
    var t := (BARRETT_V * a + 0x200_0000) / 0x400_0000;
    BarrettLaws(a, t);
    a - t * Q
  }

  lemma BarrettLaws(a: I16, t: int)
    requires t == (BARRETT_V * a + 0x200_0000) / 0x400_0000
    ensures -1664 <= a - t * Q <= 1664 && Cong(a - t * Q, a)
  {
    assert BARRETT_V == 20159;
    assert 0x400_0000 * t <= 20159 * a + 0x200_0000 < 0x400_0000 * t + 0x400_0000;
    CongExact(a - t * Q, a, -t);
  }

  /** `fqmul`: the Montgomery product of two words. */
  function FqMul(a: I16, b: I16): (r: I16)
    requires -Q * 0x8000 <= a * b < Q * 0x8000
    ensures Cong(r, 169 * (a * b))
    ensures -Q < r < Q
  {
    var r := MontgomeryReduce(a * b);
    Unscale(r, a * b);
    r
  }

  /** 169 is the inverse of 2^16 modulo Q. */
  lemma Unscale(r: int, x: int)
    requires Cong(0x1_0000 * r, x)
    ensures Cong(r, 169 * x)
  {
    var k := CongQuotient(0x1_0000 * r, x);
    hide Mod;
    CongExact(r, 169 * x, 169 * k - 3327 * r);
  }

  lemma ProductBound(a: int, b: int, m: int, n: int)
    requires -m <= a <= m && -n <= b <= n
    ensures -(m * n) <= a * b <= m * n
  {
    calc {
      (m - a) * (n + b) + (m + a) * (n - b);
      2 * (m * n) - 2 * (a * b);
    }
    calc {
      (m - a) * (n - b) + (m + a) * (n + b);
      2 * (m * n) + 2 * (a * b);
    }
    NonNegative(m - a, n + b);
    NonNegative(m + a, n - b);
    NonNegative(m - a, n - b);
    NonNegative(m + a, n + b);
  }
}

/** The table of twiddle factors and the relations between its entries that the transform rests on. */
module KyberZetas {
  import opened KyberArith

  /** `ZETAS`: powers of 17 in bit-reversed order, each multiplied by 2^16 and centred. */
  function ZETAS(k: nat): (z: int)
    requires k < 128
  {
    match k
    case 0 => -1044 case 1 => -758 case 2 => -359 case 3 => -1517 case 4 => 1493 case 5 => 1422 case 6 => 287 case 7 => 202
    case 8 => -171 case 9 => 622 case 10 => 1577 case 11 => 182 case 12 => 962 case 13 => -1202 case 14 => -1474 case 15 => 1468
    case 16 => 573 case 17 => -1325 case 18 => 264 case 19 => 383 case 20 => -829 case 21 => 1458 case 22 => -1602 case 23 => -130
    case 24 => -681 case 25 => 1017 case 26 => 732 case 27 => 608 case 28 => -1542 case 29 => 411 case 30 => -205 case 31 => -1571
    case 32 => 1223 case 33 => 652 case 34 => -552 case 35 => 1015 case 36 => -1293 case 37 => 1491 case 38 => -282 case 39 => -1544
    case 40 => 516 case 41 => -8 case 42 => -320 case 43 => -666 case 44 => -1618 case 45 => -1162 case 46 => 126 case 47 => 1469
    case 48 => -853 case 49 => -90 case 50 => -271 case 51 => 830 case 52 => 107 case 53 => -1421 case 54 => -247 case 55 => -951
    case 56 => -398 case 57 => 961 case 58 => -1508 case 59 => -725 case 60 => 448 case 61 => -1065 case 62 => 677 case 63 => -1275
    case 64 => -1103 case 65 => 430 case 66 => 555 case 67 => 843 case 68 => -1251 case 69 => 871 case 70 => 1550 case 71 => 105
    case 72 => 422 case 73 => 587 case 74 => 177 case 75 => -235 case 76 => -291 case 77 => -460 case 78 => 1574 case 79 => 1653
    case 80 => -246 case 81 => 778 case 82 => 1159 case 83 => -147 case 84 => -777 case 85 => 1483 case 86 => -602 case 87 => 1119
    case 88 => -1590 case 89 => 644 case 90 => -872 case 91 => 349 case 92 => 418 case 93 => 329 case 94 => -156 case 95 => -75
    case 96 => 817 case 97 => 1097 case 98 => 603 case 99 => 610 case 100 => 1322 case 101 => -1285 case 102 => -1465 case 103 => 384
    case 104 => -1215 case 105 => -136 case 106 => 1218 case 107 => -1335 case 108 => -874 case 109 => 220 case 110 => -1187 case 111 => -1659
    case 112 => -1185 case 113 => -1530 case 114 => -1278 case 115 => 794 case 116 => -1510 case 117 => -854 case 118 => -870 case 119 => 478
    case 120 => -108 case 121 => -308 case 122 => 996 case 123 => 991 case 124 => 958 case 125 => -1460 case 126 => 1522
    case _ => 1628
  }

  /** The twiddle factor without its Montgomery factor, as an unreduced integer. */
  function Zeta(k: nat): int
    requires k < 128
  {
    169 * ZETAS(k)
  }

  lemma ZetasSmall(k: nat)
    requires k < 128
    ensures -1664 <= ZETAS(k) <= 1664
  {
  }

  /** The powers of two below 128: the number of chunks of a transform layer. */
  predicate IsHalf(h: nat) {
    h in {1, 2, 4, 8, 16, 32, 64}
  }

  /** 17^(64/h): by how much entry k + h exceeds entry k. */
  function Step(h: nat): int
    requires IsHalf(h)
  {
    match h case 1 => 1729 case 2 => 2580 case 4 => 2642 case 8 => 1062 case 16 => 296 case 32 => 289 case _ => 17
  }

  lemma StepSquare(h: nat)
    requires IsHalf(h)
    ensures Cong(Step(h) * Step(h), if h == 1 then -1 else Step(h / 2))
  {
    match h
    case 1 => CongExact(1729 * 1729, -1, 898);
    case 2 => CongExact(2580 * 2580, 1729, 1999);
    case 4 => CongExact(2642 * 2642, 2580, 2096);
    case 8 => CongExact(1062 * 1062, 2642, 338);
    case 16 => CongExact(296 * 296, 1062, 26);
    case 32 => CongExact(289 * 289, 296, 25);
    case _ =>
  }

  lemma Doubling1(k: nat)
    requires k < 16
    ensures k < 1 ==> Cong(ZETAS(k + 1), 1729 * ZETAS(k))
    ensures k < 2 ==> Cong(ZETAS(k + 2), 2580 * ZETAS(k))
    ensures k < 4 ==> Cong(ZETAS(k + 4), 2642 * ZETAS(k))
    ensures k < 8 ==> Cong(ZETAS(k + 8), 1062 * ZETAS(k))
    ensures Cong(ZETAS(k + 16), 296 * ZETAS(k))
  {
  }

  lemma Doubling32(k: nat)
    requires k < 32
    ensures Cong(ZETAS(k + 32), 289 * ZETAS(k))
  {
  }

  lemma Doubling64Low(k: nat)
    requires k < 32
    ensures Cong(ZETAS(k + 64), 17 * ZETAS(k))
  {
  }

  lemma Doubling64High(k: nat)
    requires 32 <= k < 64
    ensures Cong(ZETAS(k + 64), 17 * ZETAS(k))
  {
  }

  /** The whole table is generated by its first entry and the seven steps. */
  lemma Doubling(h: nat, k: nat)
    requires IsHalf(h) && k < h
    ensures Cong(Zeta(k + h), Step(h) * Zeta(k))
  {
    if h <= 16 {
      Doubling1(k);
    } else if h == 32 {
      Doubling32(k);
    } else if k < 32 {
      Doubling64Low(k);
    } else {
      Doubling64High(k);
    }
    hide Mod, ZETAS, Step;
    assert Cong(ZETAS(k + h), Step(h) * ZETAS(k));
    CongMul(169, 169, ZETAS(k + h), Step(h) * ZETAS(k));
    assert 169 * (Step(h) * ZETAS(k)) == Step(h) * Zeta(k);
  }

  /** The largest power of two not above k. */
  function Top(k: nat): (h: nat)
    requires 1 <= k < 128
    ensures IsHalf(h) && h <= k < 2 * h
  {
    if k < 2 then 1 else if k < 4 then 2 else if k < 8 then 4 else if k < 16 then 8
    else if k < 32 then 16 else if k < 64 then 32 else 64
  }

  lemma ZetaEnds()
    ensures Cong(Zeta(0), 1) && Cong(Zeta(0) * Zeta(0), 1) && Cong(Zeta(1) * Zeta(1), -1)
  {
    CongExact(-176436, 1, -53);
    CongExact(-176436 * -176436, 1, 9351055);
    CongExact((169 * -758) * (169 * -758), -1, 4929445);
  }

  lemma ScaledSquare(x: int, s: int, y: int, t: int, w: int)
    requires Cong(x, s * y) && Cong(s * s, t) && Cong(y * y, w)
    ensures Cong(x * x, t * w)
  {
    hide Mod;
    CongMul(x, s * y, x, s * y);
    CongMul(s * s, t, y * y, w);
    assert (s * y) * (s * y) == (s * s) * (y * y);
  }

  /** Entries 2k and 2k+1 are square roots of entry k and of its negation. */
  lemma {:induction false} ChildSquare(k: nat)
    requires k < 64
    ensures Cong(Zeta(2 * k) * Zeta(2 * k), Zeta(k))
    ensures Cong(Zeta(2 * k + 1) * Zeta(2 * k + 1), -Zeta(k))
  {
    hide Mod, Zeta, Step;
    if k == 0 {
      ZetaEnds();
      CongMul(-1, -1, Zeta(0), 1);
    } else {
      var h := Top(k);
      var j := k - h;
      ChildSquare(j);
      Doubling(h, j);
      StepSquare(2 * h);
      Doubling(2 * h, 2 * j);
      Doubling(2 * h, 2 * j + 1);
      ScaledSquare(Zeta(2 * k), Step(2 * h), Zeta(2 * j), Step(h), Zeta(j));
      ScaledSquare(Zeta(2 * k + 1), Step(2 * h), Zeta(2 * j + 1), Step(h), -Zeta(j));
      CongMul(-1, -1, Zeta(k), Step(h) * Zeta(j));
      assert Step(h) * -Zeta(j) == -1 * (Step(h) * Zeta(j));
    }
  }

  /** 17^(128 - 128/h): the product of two mirrored entries among the first h. */
  function MirrorProduct(h: nat): int
    requires IsHalf(h)
  {
    match h case 1 => 1 case 2 => 1729 case 4 => 3289 case 8 => 848 case 16 => 1746 case 32 => 821 case _ => 910
  }

  lemma MirrorStep(h: nat)
    requires IsHalf(h)
    ensures h < 64 ==> Cong(Step(h) * MirrorProduct(h), MirrorProduct(2 * h))
    ensures Cong((Step(h) * Step(h)) * MirrorProduct(h), -1)
  {
    match h
    case 1 => CongExact(1729 * 1, 1729, 0); CongExact(2989441 * 1, -1, 898);
    case 2 => CongExact(2580 * 1729, 3289, 1339); CongExact(6656400 * 1729, -1, 3457169);
    case 4 => CongExact(2642 * 3289, 848, 2610); CongExact(6980164 * 3289, -1, 6896293);
    case 8 => CongExact(1062 * 848, 1746, 270); CongExact(1127844 * 848, -1, 287297);
    case 16 => CongExact(296 * 1746, 821, 155); CongExact(87616 * 1746, -1, 45953);
    case 32 => CongExact(289 * 821, 910, 71); CongExact(83521 * 821, -1, 20598);
    case _ => CongExact(289 * 910, -1, 79);
  }

  lemma {:induction false} MirrorLow(h: nat, i: nat)
    requires IsHalf(h) && i < h
    ensures Cong(Zeta(i) * Zeta(h - 1 - i), MirrorProduct(h))
  {
    hide Mod, Zeta, Step;
    if h == 1 {
      ZetaEnds();
    } else {
      var g := h / 2;
      var a, b := if i < g then i else h - 1 - i, if i < g then g - 1 - i else i - g;
      MirrorLow(g, a);
      Doubling(g, b);
      MirrorStep(g);
      CongMul(Zeta(a), Zeta(a), Zeta(g + b), Step(g) * Zeta(b));
      CongMul(Step(g), Step(g), Zeta(a) * Zeta(b), MirrorProduct(g));
      assert Zeta(a) * (Step(g) * Zeta(b)) == Step(g) * (Zeta(a) * Zeta(b));
      assert Cong(Zeta(a) * Zeta(g + b), MirrorProduct(h));
      assert Zeta(a) * Zeta(g + b) == Zeta(g + b) * Zeta(a);
    }
  }

  /** Reading the table backwards gives, layer by layer, the negated inverses of the forward factors. */
  lemma Mirror(h: nat, i: nat)
    requires IsHalf(h) && i < h
    ensures Cong(Zeta(h + i) * Zeta(2 * h - 1 - i), -1)
  {
    hide Mod, Zeta, Step, MirrorProduct;
    var j := h - 1 - i;
    MirrorLow(h, i);
    Doubling(h, i);
    Doubling(h, j);
    MirrorStep(h);
    CongMul(Zeta(h + i), Step(h) * Zeta(i), Zeta(h + j), Step(h) * Zeta(j));
    CongMul(Step(h) * Step(h), Step(h) * Step(h), Zeta(i) * Zeta(j), MirrorProduct(h));
    assert (Step(h) * Zeta(i)) * (Step(h) * Zeta(j)) == (Step(h) * Step(h)) * (Zeta(i) * Zeta(j));
  }
}
