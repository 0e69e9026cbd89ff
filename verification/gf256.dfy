/** The field of 256 elements, as the generated logarithm and exponent tables define it. */
module Gf256 {
  import opened Division

  type Elem = bv8

  /** Addition and subtraction. */
  function Add(a: Elem, b: Elem): Elem {
    a ^ b
  }

  lemma AddLaws(a: Elem, b: Elem, c: Elem)
    ensures Add(a, b) == Add(b, a)
    ensures Add(Add(a, b), c) == Add(a, Add(b, c))
    ensures Add(a, 0) == a && Add(0, a) == a && Add(a, a) == 0
    ensures Add(a, b) == 0 <==> a == b
    ensures Add(a, Add(a, b)) == b
  {
    hide Add;
    AddOrder(a, b, c);
    AddCancels(a, b);
  }

  lemma AddSwap(a: Elem, b: Elem, c: Elem, d: Elem)
    ensures Add(Add(a, b), Add(c, d)) == Add(Add(a, c), Add(b, d))
  {
    hide Add;
    AddLaws(a, b, Add(c, d));
    AddLaws(b, c, d);
    AddLaws(c, b, d);
    AddLaws(a, c, Add(b, d));
  }

  lemma AddOrder(a: Elem, b: Elem, c: Elem)
    ensures Add(a, b) == Add(b, a) && Add(Add(a, b), c) == Add(a, Add(b, c))
  {
  }

  lemma AddCancels(a: Elem, b: Elem)
    ensures Add(a, 0) == a && Add(0, a) == a && Add(a, a) == 0
    ensures Add(a, b) == 0 <==> a == b
    ensures Add(a, Add(a, b)) == b
  {
  }

  /** The array index of a byte. */
  function Index(b: Elem): (i: nat)
    ensures i < 256 && (i == 0 <==> b == 0)
  {
    b as int
  }

  /** The byte of an array index. */
  function ByteOf(i: nat): (b: Elem)
    requires i < 256
    ensures Index(b) == i
  {
    BinaryDigits(i);
    i as Elem
  }

  lemma BinaryDigits(i: nat)
    requires i < 256
    ensures i == 2 * (i / 2) + i % 2 && i / 2 == 2 * (i / 4) + i / 2 % 2
    ensures i / 4 == 2 * (i / 8) + i / 4 % 2 && i / 8 == 2 * (i / 16) + i / 8 % 2
    ensures i / 16 == 2 * (i / 32) + i / 16 % 2 && i / 32 == 2 * (i / 64) + i / 32 % 2
    ensures i / 64 == 2 * (i / 128) + i / 64 % 2 && i / 128 == i / 128 % 2
  {
    HalveQuotient(i, 2);
    HalveQuotient(i, 4);
    HalveQuotient(i, 8);
    HalveQuotient(i, 16);
    HalveQuotient(i, 32);
    HalveQuotient(i, 64);
    HalveQuotient(i, 128);
    DivModUnique(i, 256, 0, i);
  }

  lemma IndexInjective(a: Elem, b: Elem)
    requires Index(a) == Index(b)
    ensures a == b
  {
  }

  /** Multiplication by x modulo x^8 + x^4 + x^3 + x^2 + 1: shift, and fold the carry with the polynomial 29. */
  function Double(b: Elem): Elem {
    if b < 128 then b << 1 else (b << 1) ^ 29
  }

  function Times(i: nat, b: Elem): Elem {
    if i == 0 then b else Double(Times(i - 1, b))
  }

  /** The powers of the generator 2. */
  function Pow2(i: nat): Elem {
    Times(i, 1)
  }

  lemma DoubleLinear(a: Elem, b: Elem)
    ensures Double(Add(a, b)) == Add(Double(a), Double(b))
    ensures Double(a) == Double(b) ==> a == b
  {
    DoubleBranchless(a);
    DoubleBranchless(b);
    DoubleBranchless(a ^ b);
    hide Double;
  }

  lemma DoubleBranchless(b: Elem)
    ensures Double(b) == (b << 1) ^ ((b >> 7) * 29)
  {
  }

  lemma {:induction false} TimesLinear(i: nat, a: Elem, b: Elem)
    ensures Times(i, Add(a, b)) == Add(Times(i, a), Times(i, b))
  {
    hide Double, Add;
    if i > 0 {
      TimesLinear(i - 1, a, b);
      DoubleLinear(Times(i - 1, a), Times(i - 1, b));
    }
  }

  lemma {:induction false} TimesInjective(i: nat, a: Elem, b: Elem)
    requires Times(i, a) == Times(i, b)
    ensures a == b
  {
    hide Double;
    if i > 0 {
      DoubleLinear(Times(i - 1, a), Times(i - 1, b));
      TimesInjective(i - 1, a, b);
    }
  }

  lemma {:induction false} TimesZero(i: nat)
    ensures Times(i, 0) == 0
  {
    if i > 0 {
      TimesZero(i - 1);
    }
  }

  lemma {:induction false} TimesAdd(i: nat, j: nat, b: Elem)
    ensures Times(i + j, b) == Times(i, Times(j, b))
  {
    if i > 0 {
      TimesAdd(i - 1, j, b);
    }
  }

  lemma PowAdd(i: nat, j: nat)
    ensures Pow2(i + j) == Times(i, Pow2(j)) == Times(j, Pow2(i))
  {
    TimesAdd(i, j, 1);
    TimesAdd(j, i, 1);
  }

  // ---------------------------------------------------------------- the generator has order 255

  lemma Step(i: nat, b: Elem, c: Elem)
    requires Pow2(i) == b && Double(b) == c
    ensures Pow2(i + 1) == c
  {
  }

  lemma Jump(i: nat, b: Elem, c: Elem)
    requires Pow2(i) == b && Double(Double(Double(Double(Double(Double(Double(Double(b)))))))) == c
    ensures Pow2(i + 8) == c
  {
    hide Double;
    assert Pow2(i + 2) == Double(Pow2(i + 1)) && Pow2(i + 4) == Double(Pow2(i + 3));
    assert Pow2(i + 6) == Double(Pow2(i + 5)) && Pow2(i + 8) == Double(Pow2(i + 7));
  }

  lemma PowValuesLow()
    ensures Pow2(15) != 1 && Pow2(51) != 1 && Pow2(48) == 70
  {
    assert Pow2(0) == 1;
    hide Pow2;
    Jump(0, 1, 29); Jump(8, 29, 76); Jump(16, 76, 143); Jump(24, 143, 157);
    Jump(32, 157, 106); Jump(40, 106, 70);
    Step(8, 29, 58); Step(9, 58, 116); Step(10, 116, 232); Step(11, 232, 205); Step(12, 205, 135); Step(13, 135, 19); Step(14, 19, 38);
    Step(48, 70, 140); Step(49, 140, 5); Step(50, 5, 10);
  }

  lemma PowValuesMiddle()
    ensures Pow2(85) != 1 && Pow2(128) == 133
  {
    PowValuesLow();
    hide Pow2;
    Jump(48, 70, 93); Jump(56, 93, 95); Jump(64, 95, 101); Jump(72, 101, 253);
    Jump(80, 253, 254); Jump(88, 254, 217); Jump(96, 217, 13); Jump(104, 13, 129);
    Jump(112, 129, 59); Jump(120, 59, 133);
    Step(80, 253, 231); Step(81, 231, 211); Step(82, 211, 187); Step(83, 187, 107); Step(84, 107, 214);
  }

  lemma PowValuesHigh()
    ensures Pow2(192) == 130
  {
    PowValuesMiddle();
    hide Pow2;
    Jump(128, 133, 79); Jump(136, 79, 168); Jump(144, 168, 73); Jump(152, 73, 230);
    Jump(160, 230, 252); Jump(168, 252, 227); Jump(176, 227, 149); Jump(184, 149, 130);
  }

  lemma PowValues()
    ensures Pow2(15) != 1 && Pow2(51) != 1 && Pow2(85) != 1 && Pow2(255) == 1
  {
    PowValuesLow();
    PowValuesMiddle();
    PowValuesHigh();
    hide Pow2;
    Jump(192, 130, 28); Jump(200, 28, 81); Jump(208, 81, 195); Jump(216, 195, 18);
    Jump(224, 18, 247); Jump(232, 247, 44); Jump(240, 44, 27);
    Step(248, 27, 54); Step(249, 54, 108); Step(250, 108, 216); Step(251, 216, 173); Step(252, 173, 71); Step(253, 71, 142); Step(254, 142, 1);
  }

  /** Powers that are 1 repeat: their exponents are closed under differences and multiples. */
  lemma {:induction false} PowMultiple(d: nat, k: nat)
    requires Pow2(d) == 1
    ensures Pow2(k * d) == 1
  {
    if k > 0 {
      PowMultiple(d, k - 1);
      PowAdd(d, (k - 1) * d);
      assert k * d == d + (k - 1) * d;
    }
  }

  /** The exponent at which the powers first return to 1 divides every exponent at which they are 1. */
  lemma PowRemainder(d: nat, n: nat)
    requires 0 < d && Pow2(d) == 1 && Pow2(n) == 1
    ensures Pow2(n % d) == 1
  {
    var k := n / d;
    PowMultiple(d, k);
    assert n == k * d + n % d;
    PowAdd(n % d, k * d);
  }

  lemma {:induction false} OrderDivides(d: nat)
    requires 0 < d < 255 && Pow2(d) == 1
    ensures exists g :: 0 < g < 255 && Pow2(g) == 1 && 255 % g == 0
    decreases d
  {
    PowValues();
    hide Pow2;
    if 255 % d != 0 {
      PowRemainder(d, 255);
      OrderDivides(255 % d);
    }
  }

  /** No power below the 255th returns to 1. */
  lemma OrderIs255(d: nat)
    requires 0 < d < 255
    ensures Pow2(d) != 1
  {
    if Pow2(d) == 1 {
      OrderDivides(d);
      var g :| 0 < g < 255 && Pow2(g) == 1 && 255 % g == 0;
      PowValues();
      hide Pow2;
      ProperDivisors(g);
      var m := if 85 % g == 0 then 85 else if 51 % g == 0 then 51 else 15;
      var k := m / g;
      assert k * g == m;
      PowMultiple(g, k);
      assert false;
    }
  }

  lemma ProperDivisors(g: nat)
    requires 0 < g < 255 && 255 % g == 0
    ensures g in {1, 3, 5, 15, 17, 51, 85}
  {
    var k := 255 / g;
    assert k * g == 255;
    assert 2 <= k;
  }

  lemma PowInjective(i: nat, j: nat)
    requires i < 255 && j < 255 && Pow2(i) == Pow2(j)
    ensures i == j
  {
    if i < j {
      PowDistinct(i, j);
    } else if j < i {
      PowDistinct(j, i);
    }
  }

  lemma PowDistinct(i: nat, j: nat)
    requires i < j < 255
    ensures Pow2(i) != Pow2(j)
  {
    PowAdd(i, j - i);
    OrderIs255(j - i);
    if Pow2(i) == Pow2(j) {
      TimesInjective(i, 1, Pow2(j - i));
    }
  }

  lemma PowNonZero(i: nat)
    ensures Pow2(i) != 0
  {
    if Pow2(i) == 0 {
      TimesZero(i);
      TimesInjective(i, 1, 0);
    }
  }

  lemma {:induction false} PowPeriodic(i: nat)
    ensures Pow2(i) == Pow2(i % 255)
    decreases i
  {
    if i >= 255 {
      PowValues();
      PowAdd(i - 255, 255);
      hide Pow2, Times;
      PowPeriodic(i - 255);
      DivModUnique(i - 255, 255, i / 255 - 1, i % 255);
    }
  }

  // ---------------------------------------------------------------- every non-zero element is a power

  function PowSet(n: nat): (s: set<Elem>) {
    set i | 0 <= i < n :: Pow2(i)
  }

  lemma {:induction false} PowSetSize(n: nat)
    requires n <= 255
    ensures |PowSet(n)| == n
  {
    if n > 0 {
      PowSetSize(n - 1);
      assert PowSet(n) == PowSet(n - 1) + {Pow2(n - 1)};
      if Pow2(n - 1) in PowSet(n - 1) {
        var i :| 0 <= i < n - 1 && Pow2(i) == Pow2(n - 1);
        PowDistinct(i, n - 1);
      }
    }
  }

  function ByteSet(n: nat): set<Elem>
    requires n < 256
  {
    if n == 0 then {} else ByteSet(n - 1) + {n as Elem}
  }

  lemma {:induction false} ByteSetFacts(n: nat, b: Elem)
    requires n < 256
    ensures |ByteSet(n)| <= n
    ensures 0 < b as int <= n ==> b in ByteSet(n)
  {
    if n > 0 {
      ByteSetFacts(n - 1, b);
      if b as int == n {
        assert b == (b as int) as Elem;
      }
    }
  }

  lemma NonZeroInByteSet(b: Elem)
    requires b != 0
    ensures b in ByteSet(255)
  {
    ByteSetFacts(255, b);
  }

  /** Counting: the 255 distinct powers fill the 255 non-zero elements. */
  lemma PowSurjective(b: Elem)
    requires b != 0
    ensures exists i :: 0 <= i < 255 && Pow2(i) == b
  {
    hide ByteSet, Times;
    PowSetSize(255);
    ByteSetFacts(255, b);
    NonZeroInByteSet(b);
    forall c | c in PowSet(255)
      ensures c in ByteSet(255)
    {
      var i := InPowSet(255, c);
      PowNonZero(i);
      NonZeroInByteSet(c);
    }
    if b !in PowSet(255) {
      assert |PowSet(255) + {b}| == 256;
      SubsetSize(PowSet(255) + {b}, ByteSet(255));
    } else {
      var i := InPowSet(255, b);
    }
  }

  lemma InPowSet(n: nat, c: Elem) returns (i: nat)
    requires c in PowSet(n)
    ensures i < n && Pow2(i) == c
  {
    i :| 0 <= i < n && Pow2(i) == c;
  }

  lemma {:induction false} SubsetSize<T>(s: set<T>, t: set<T>)
    requires s <= t
    ensures |s| <= |t|
  {
    if s != {} {
      var x :| x in s;
      SubsetSize(s - {x}, t - {x});
    }
  }

  // ---------------------------------------------------------------- logarithm, product, quotient, power

  function LogFrom(b: Elem, i: nat): nat
    requires i <= 255
    decreases 255 - i
  {
    if i == 255 || Pow2(i) == b then i else LogFrom(b, i + 1)
  }

  lemma {:induction false} LogFromFinds(b: Elem, i: nat, k: nat)
    requires i <= k < 255 && Pow2(k) == b
    ensures i <= LogFrom(b, i) <= k && Pow2(LogFrom(b, i)) == b
    decreases 255 - i
  {
    hide Pow2;
    if i < k && Pow2(i) != b {
      LogFromFinds(b, i + 1, k);
    }
  }

  /** The discrete logarithm of a non-zero element. */
  function Log(b: Elem): (i: nat)
    requires b != 0
    ensures i < 255 && Pow2(i) == b
  {
    LogExists(b);
    LogFrom(b, 0)
  }

  lemma LogExists(b: Elem)
    requires b != 0
    ensures LogFrom(b, 0) < 255 && Pow2(LogFrom(b, 0)) == b
  {
    hide Pow2, LogFrom;
    PowSurjective(b);
    var k :| 0 <= k < 255 && Pow2(k) == b;
    LogFromFinds(b, 0, k);
  }

  lemma LogOfPow(i: nat)
    requires i < 255
    ensures Pow2(i) != 0 && Log(Pow2(i)) == i
  {
    hide Pow2, Log;
    PowNonZero(i);
    PowInjective(Log(Pow2(i)), i);
  }

  function Mul(a: Elem, b: Elem): Elem {
    if a == 0 || b == 0 then 0 else Pow2(Log(a) + Log(b))
  }

  function Inv(a: Elem): Elem
    requires a != 0
  {
    Pow2(255 - Log(a))
  }

  /** The n-th power, with 0^0 = 1. */
  function Exp(a: Elem, n: nat): Elem {
    if n == 0 then 1 else Mul(a, Exp(a, n - 1))
  }

  /** Multiplying by a non-zero element is repeated doubling, hence linear. */
  lemma MulIsTimes(a: Elem, b: Elem)
    requires a != 0
    ensures Mul(a, b) == Times(Log(a), b)
  {
    hide Times, Log;
    TimesZero(Log(a));
    if b != 0 {
      PowAdd(Log(a), Log(b));
    }
  }

  lemma MulComm(a: Elem, b: Elem)
    ensures Mul(a, b) == Mul(b, a)
  {
    hide Pow2, Log;
  }

  lemma MulOne(a: Elem)
    ensures Mul(a, 1) == a && Mul(1, a) == a
    ensures Mul(a, 0) == 0 && Mul(0, a) == 0
  {
    assert Pow2(0) == 1;
    hide Pow2, Log;
    LogOfPow(0);
  }

  lemma MulAdd(a: Elem, b: Elem, c: Elem)
    ensures Mul(a, Add(b, c)) == Add(Mul(a, b), Mul(a, c))
    ensures Mul(Add(b, c), a) == Add(Mul(b, a), Mul(c, a))
  {
    hide Mul, Times, Log, Add;
    MulComm(a, Add(b, c));
    MulComm(a, b);
    MulComm(a, c);
    if a == 0 {
      MulOne(b);
      MulOne(c);
      MulOne(Add(b, c));
      AddLaws(0, 0, 0);
    } else {
      MulIsTimes(a, b);
      MulIsTimes(a, c);
      MulIsTimes(a, Add(b, c));
      TimesLinear(Log(a), b, c);
    }
  }

  lemma MulAssoc(a: Elem, b: Elem, c: Elem)
    ensures Mul(Mul(a, b), c) == Mul(a, Mul(b, c))
  {
    hide Mul, Times, Log;
    if a == 0 || b == 0 {
      MulOne(a);
      MulOne(b);
      MulOne(c);
      MulOne(Mul(b, c));
    } else {
      MulIsTimes(a, b);
      MulIsTimes(b, c);
      MulIsTimes(a, Mul(b, c));
      MulComm(Mul(a, b), c);
      if c == 0 {
        MulOne(Mul(a, b));
        MulOne(a);
        MulOne(b);
      } else {
        MulIsTimes(c, Mul(a, b));
        MulComm(b, c);
        MulIsTimes(c, b);
        TimesAdd(Log(c), Log(a), b);
        TimesAdd(Log(a), Log(c), b);
        TimesAddComm(Log(a), Log(c), b);
      }
    }
  }

  lemma TimesAddComm(i: nat, j: nat, b: Elem)
    ensures Times(i, Times(j, b)) == Times(j, Times(i, b))
  {
    TimesAdd(i, j, b);
    TimesAdd(j, i, b);
  }

  lemma MulInverse(a: Elem)
    requires a != 0
    ensures Mul(a, Inv(a)) == 1 && Inv(a) != 0
  {
    hide Times, Log, Mul, Pow2;
    PowNonZero(255 - Log(a));
    MulIsTimes(a, Inv(a));
    PowAdd(Log(a), 255 - Log(a));
    PowValues();
  }

  /** There are no zero divisors. */
  lemma MulNonZero(a: Elem, b: Elem)
    ensures Mul(a, b) == 0 <==> a == 0 || b == 0
  {
    hide Pow2, Log;
    if a != 0 && b != 0 {
      PowNonZero(Log(a) + Log(b));
    }
  }

  // ---------------------------------------------------------------- the product is a polynomial product

  /** Shift-and-add multiplication of polynomials over GF(2), reduced as it goes. */
  function ShiftAdd(a: Elem, b: Elem): Elem
    decreases b as int
  {
    if b == 0 then 0
    else
      HalfSmaller(b);
      Add(if b & 1 == 1 then a else 0, ShiftAdd(Double(a), b >> 1))
  }

  lemma HalfSmaller(b: Elem)
    requires b != 0
    ensures (b >> 1) as int < b as int
  {
  }

  lemma DoubleIsMul(a: Elem)
    ensures Double(a) == Mul(2, a)
  {
    TwoIsPow();
    LogOfPow(1);
    hide Pow2, Log, Mul, Double;
    MulIsTimes(2, a);
    assert Times(1, a) == Double(Times(0, a));
  }

  lemma TwoIsPow()
    ensures Pow2(1) == 2
  {
    assert Pow2(1) == Double(Times(0, 1));
  }

  /** The table product is multiplication modulo x^8 + x^4 + x^3 + x^2 + 1. */
  lemma {:induction false} MulIsShiftAdd(a: Elem, b: Elem)
    ensures Mul(a, b) == ShiftAdd(a, b)
    decreases b as int
  {
    hide Mul, Double, Add;
    if b == 0 {
      MulOne(a);
    } else {
      HalfSmaller(b);
      MulIsShiftAdd(Double(a), b >> 1);
      BitSplit(b);
      MulAdd(a, b & 1, Double(b >> 1));
      MulDouble(a, b >> 1);
      MulOne(a);
      LowBit(b);
    }
  }

  lemma LowBit(b: Elem)
    ensures b & 1 == 0 || b & 1 == 1
  {
  }

  lemma MulDouble(a: Elem, b: Elem)
    ensures Mul(a, Double(b)) == Mul(Double(a), b)
  {
    hide Mul, Double;
    DoubleIsMul(a);
    DoubleIsMul(b);
    MulAssoc(2, a, b);
    MulAssoc(a, 2, b);
    MulComm(a, 2);
  }

  lemma BitSplit(b: Elem)
    ensures b == Add(b & 1, Double(b >> 1))
  {
    DoubleBranchless(b >> 1);
  }

  // ---------------------------------------------------------------- quotients

  function Over(a: Elem, b: Elem): Elem
    requires b != 0
  {
    Mul(a, Inv(b))
  }

  lemma MulCancel(a: Elem, b: Elem, c: Elem)
    requires c != 0 && Mul(a, c) == Mul(b, c)
    ensures a == b
  {
    hide Mul, Inv;
    MulInverse(c);
    MulAssoc(a, c, Inv(c));
    MulAssoc(b, c, Inv(c));
    MulOne(a);
    MulOne(b);
  }

  lemma OverLaw(a: Elem, b: Elem)
    requires b != 0
    ensures Mul(Over(a, b), b) == a
    ensures a != 0 ==> Over(a, b) != 0
  {
    hide Mul, Inv;
    MulInverse(b);
    MulComm(b, Inv(b));
    MulAssoc(a, Inv(b), b);
    MulOne(a);
    MulNonZero(a, Inv(b));
  }
}
