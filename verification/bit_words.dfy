/** Bitwise operators and wrap-around arithmetic of unsigned machine words, on integers. */
module BitWords {
  import opened Common
  import opened Division

  type U8 = Byte

  type U16 = x: int | 0 <= x < 0x1_0000

  type U32 = x: int | 0 <= x < 0x1_0000_0000

  function And(a: nat, b: nat): (r: nat)
    ensures r <= a && r <= b
  {
    if a == 0 || b == 0 then 0 else 2 * And(a / 2, b / 2) + (if a % 2 == 1 && b % 2 == 1 then 1 else 0)
  }

  function Or(a: nat, b: nat): nat {
    if a == 0 then b else 2 * Or(a / 2, b / 2) + (if a % 2 == 1 || b % 2 == 1 then 1 else 0)
  }

  function Xor(a: nat, b: nat): nat {
    if a == 0 then b else 2 * Xor(a / 2, b / 2) + (if a % 2 == b % 2 then 0 else 1)
  }

  function Sub32(a: U32, b: U32): U32 {
    (a - b) % 0x1_0000_0000
  }

  function Power(k: nat): (p: nat)
    ensures p > 0
  {
    if k == 0 then 1 else 2 * Power(k - 1)
  }

  lemma {:induction false} AndOnes(x: nat, k: nat)
    requires x < Power(k)
    ensures And(x, Power(k) - 1) == x && And(Power(k) - 1, x) == x
  {
    if k > 0 && x > 0 {
      AndOnes(x / 2, k - 1);
      assert (Power(k) - 1) / 2 == Power(k - 1) - 1 && (Power(k) - 1) % 2 == 1;
    }
  }

  lemma {:induction false} OrOnes(x: nat, k: nat)
    requires x < Power(k)
    ensures Or(x, Power(k) - 1) == Power(k) - 1
  {
    if k > 0 && x > 0 {
      OrOnes(x / 2, k - 1);
      assert (Power(k) - 1) / 2 == Power(k - 1) - 1 && (Power(k) - 1) % 2 == 1;
    }
  }

  lemma {:induction false} OrZero(x: nat)
    ensures Or(x, 0) == x && Or(0, x) == x
  {
    if x > 0 {
      OrZero(x / 2);
    }
  }

  lemma {:induction false} XorZero(x: nat)
    ensures Xor(x, 0) == x && Xor(0, x) == x
  {
    if x > 0 {
      XorZero(x / 2);
    }
  }

  lemma {:induction false} XorTwice(a: nat, b: nat)
    ensures Xor(a, Xor(a, b)) == b
  {
    if a > 0 {
      XorTwice(a / 2, b / 2);
      var c := Xor(a, b);
      assert c / 2 == Xor(a / 2, b / 2);
    }
  }

  lemma {:induction false} XorComm(a: nat, b: nat)
    ensures Xor(a, b) == Xor(b, a)
  {
    if a == 0 || b == 0 {
      XorZero(a + b);
    } else {
      XorComm(a / 2, b / 2);
    }
  }

  lemma {:induction false} XorBelow(a: nat, b: nat, k: nat)
    requires a < Power(k) && b < Power(k)
    ensures Xor(a, b) < Power(k)
  {
    if k > 0 && a > 0 {
      XorBelow(a / 2, b / 2, k - 1);
    }
  }

  /** Masking with one bit reads that binary digit. */
  lemma {:induction false} AndPower(j: nat, k: nat)
    ensures And(j, Power(k)) == if j / Power(k) % 2 == 1 then Power(k) else 0
  {
    if j == 0 {
    } else if k == 0 {
      assert And(j / 2, 0) == 0;
    } else {
      var p := Power(k - 1);
      assert Power(k) / 2 == p && Power(k) % 2 == 0;
      assert And(j, Power(k)) == 2 * And(j / 2, p);
      hide And;
      AndPower(j / 2, k - 1);
      HalveTwice(j, p);
    }
  }

  lemma PowerTable()
    ensures Power(0) == 1 && Power(1) == 2 && Power(2) == 4 && Power(3) == 8 && Power(4) == 16 && Power(5) == 32
    ensures Power(6) == 64 && Power(7) == 128 && Power(8) == 256 && Power(9) == 512 && Power(10) == 1024
    ensures Power(16) == 0x1_0000 && Power(32) == 0x1_0000_0000
  {
    assert Power(8) == 0x100;
    assert Power(16) == 0x100 * Power(8);
    assert Power(24) == 0x100 * Power(16);
    assert Power(32) == 0x100 * Power(24);
  }

  lemma {:induction false} PowerMonotone(k: nat, l: nat)
    requires k <= l
    ensures Power(k) <= Power(l)
  {
    if k < l {
      PowerMonotone(k, l - 1);
    }
  }
}
