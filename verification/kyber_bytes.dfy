/** The byte formats of Kyber polynomials as numbers: little-endian bytes are the digits of the coefficients. */
module KyberBytes {
  import opened Common
  import opened KyberArith
  import opened KyberLoops
  import opened KyberProduct
  import opened KyberCodec

  /** The number with these digits, the least significant one first. */
  function Number(base: nat, ds: seq<int>): int {
    if ds == [] then 0 else ds[0] + base * Number(base, ds[1..])
  }

  /** The bytes hold the digits, each below the base, as section 4.2.1 of FIPS 203 encodes them. */
  ghost predicate Encodes(b: seq<Byte>, base: nat, ds: seq<int>) {
    && (forall j :: 0 <= j < |ds| ==> 0 <= ds[j] < base)
    && Number(256, b) == Number(base, ds)
  }

  // ---------------------------------------------------------------- one group of digits

  lemma Digits2(base: nat, ds: seq<int>, o: nat)
    requires o + 2 <= |ds|
    ensures Number(base, ds[o..]) == ds[o] + base * (ds[o + 1] + base * Number(base, ds[o + 2..]))
  {
    assert ds[o..][1..] == ds[o + 1..] && ds[o + 1..][1..] == ds[o + 2..];
  }

  lemma Digits3(base: nat, ds: seq<int>, o: nat)
    requires o + 3 <= |ds|
    ensures Number(base, ds[o..]) == ds[o] + base * (ds[o + 1] + base * (ds[o + 2] + base * Number(base, ds[o + 3..])))
  {
    Digits2(base, ds, o);
    assert ds[o + 2..][1..] == ds[o + 3..];
  }

  lemma Digits4(base: nat, ds: seq<int>, o: nat)
    requires o + 4 <= |ds|
    ensures Number(base, ds[o..]) ==
            ds[o] + base * (ds[o + 1] + base * (ds[o + 2] + base * (ds[o + 3] + base * Number(base, ds[o + 4..]))))
  {
    Digits2(base, ds, o);
    Digits2(base, ds, o + 2);
  }

  lemma Digits5(base: nat, ds: seq<int>, o: nat)
    requires o + 5 <= |ds|
    ensures Number(base, ds[o..]) ==
            ds[o] + base * (ds[o + 1] + base * (ds[o + 2] + base * (ds[o + 3] + base * (ds[o + 4] + base * Number(base, ds[o + 5..])))))
  {
    Digits3(base, ds, o);
    Digits2(base, ds, o + 3);
  }

  lemma Digits8(base: nat, ds: seq<int>, o: nat)
    requires o + 8 <= |ds|
    ensures Number(base, ds[o..]) ==
            ds[o] + base * (ds[o + 1] + base * (ds[o + 2] + base * (ds[o + 3] + base *
            (ds[o + 4] + base * (ds[o + 5] + base * (ds[o + 6] + base * (ds[o + 7] + base * Number(base, ds[o + 8..]))))))))
  {
    Digits4(base, ds, o);
    Digits4(base, ds, o + 4);
  }

  lemma NoDigits(base: nat, ds: seq<int>, o: nat)
    requires o == |ds|
    ensures Number(base, ds[o..]) == 0
  {
  }

  // ---------------------------------------------------------------- twelve bits

  lemma Pack12Number(t0: int, t1: int)
    requires 0 <= t0 < 4096 && 0 <= t1 < 4096
    ensures var b := Pack12(t0, t1); b.0 as int + 256 * b.1 as int + 65536 * b.2 as int == t0 + 4096 * t1
  {
    Pack12RoundTrip(t0, t1);
  }

  lemma Unpack12Number(b0: Byte, b1: Byte, b2: Byte)
    ensures var t := Unpack12(b0, b1, b2); b0 as int + 256 * b1 as int + 65536 * b2 as int == t.0 + 4096 * t.1
  {
  }

  ghost predicate Grouped12(b: seq<Byte>, ds: seq<int>) {
    && |b| == 384 && |ds| == 256
    && forall i {:trigger b[3 * i]} :: 0 <= i < 128 ==> b[3 * i] as int + 256 * b[3 * i + 1] as int + 65536 * b[3 * i + 2] as int == ds[2 * i] + 4096 * ds[2 * i + 1]
  }

  lemma {:induction false} Numbers12(b: seq<Byte>, ds: seq<int>, i: nat)
    requires Grouped12(b, ds) && i <= 128
    ensures Number(256, b[3 * i..]) == Number(4096, ds[2 * i..])
    decreases 128 - i
  {
    hide Number;
    if i == 128 {
      NoDigits(256, b, 384);
      NoDigits(4096, ds, 256);
    } else {
      Numbers12(b, ds, i + 1);
      Digits3(256, b, 3 * i);
      Digits2(4096, ds, 2 * i);
      assert b[3 * i] as int + 256 * b[3 * i + 1] as int + 65536 * b[3 * i + 2] as int == ds[2 * i] + 4096 * ds[2 * i + 1];
    }
  }

  lemma Grouped12Encodes(b: seq<Byte>, ds: seq<int>)
    requires Grouped12(b, ds) && forall j :: 0 <= j < 256 ==> 0 <= ds[j] < 4096
    ensures Encodes(b, 4096, ds)
  {
    Numbers12(b, ds, 0);
    assert b[0..] == b && ds[0..] == ds;
  }

  /** What `poly::to_bytes` writes: the lifted coefficients are the digits to base 4096. */
  lemma ToBytesEncodes(p: Words, b: seq<Byte>)
    requires Within(p, 3328) && IsToBytes(p, b)
    ensures Encodes(b, 4096, seq<int>(256, j requires 0 <= j < 256 => Lift(p[j])))
  {
    hide Pack12, Encodes;
    var ds := seq<int>(256, j requires 0 <= j < 256 => Lift(p[j]));
    forall i {:trigger b[3 * i]} | 0 <= i < 128
      ensures b[3 * i] as int + 256 * b[3 * i + 1] as int + 65536 * b[3 * i + 2] as int == ds[2 * i] + 4096 * ds[2 * i + 1]
    {
      Pack12Number(ds[2 * i], ds[2 * i + 1]);
      assert (b[3 * i], b[3 * i + 1], b[3 * i + 2]) == Pack12(Lift(p[2 * i]), Lift(p[2 * i + 1]));
    }
    Grouped12Encodes(b, ds);
  }

  /** What `poly::from_bytes` reads: the digits to base 4096. */
  lemma FromBytesDecodes(b: seq<Byte>, p: Words)
    requires |b| == 384 && IsFromBytes(b, p)
    ensures Encodes(b, 4096, seq<int>(256, j requires 0 <= j < 256 => p[j]))
  {
    hide Encodes;
    var ds := seq<int>(256, j requires 0 <= j < 256 => p[j]);
    forall i {:trigger b[3 * i]} | 0 <= i < 128
      ensures b[3 * i] as int + 256 * b[3 * i + 1] as int + 65536 * b[3 * i + 2] as int == ds[2 * i] + 4096 * ds[2 * i + 1]
      ensures 0 <= ds[2 * i] < 4096 && 0 <= ds[2 * i + 1] < 4096
    {
      assert (p[2 * i] as int, p[2 * i + 1] as int) == Unpack12(b[3 * i], b[3 * i + 1], b[3 * i + 2]);
      Unpack12Number(b[3 * i], b[3 * i + 1], b[3 * i + 2]);
    }
    forall j | 0 <= j < 256
      ensures 0 <= ds[j] < 4096
    {
      var i := j / 2;
      assert b[3 * i] >= 0;
      assert j == 2 * i || j == 2 * i + 1;
    }
    Grouped12Encodes(b, ds);
  }

  // ---------------------------------------------------------------- four bits

  ghost predicate Grouped4(b: seq<Byte>, ds: seq<int>) {
    && |b| == 128 && |ds| == 256
    && forall i :: 0 <= i < 128 ==> b[i] == ds[2 * i] + 16 * ds[2 * i + 1]
  }

  lemma {:induction false} Numbers4(b: seq<Byte>, ds: seq<int>, i: nat)
    requires Grouped4(b, ds) && i <= 128
    ensures Number(256, b[i..]) == Number(16, ds[2 * i..])
    decreases 128 - i
  {
    if i == 128 {
      NoDigits(256, b, 128);
      NoDigits(16, ds, 256);
    } else {
      Numbers4(b, ds, i + 1);
      assert b[i..][1..] == b[i + 1..];
      Digits2(16, ds, 2 * i);
    }
  }

  /** What `poly::compress` writes: the compressions are the digits to base 16. */
  lemma CompressEncodes(p: Words, b: seq<Byte>)
    requires IsCompressed4(p, b)
    ensures Encodes(b, 16, seq<int>(256, j requires 0 <= j < 256 => Compress(Lift(p[j]), 16)))
  {
    hide Compress, Lift, Number;
    var ds := seq<int>(256, j requires 0 <= j < 256 => Compress(Lift(p[j]), 16));
    Numbers4(b, ds, 0);
    assert b[0..] == b && ds[0..] == ds;
  }

  /** The low and the high half of every byte. */
  function Nibbles(b: seq<Byte>): (ds: seq<int>)
    requires |b| == 128
    ensures |ds| == 256
  {
    seq(256, j requires 0 <= j < 256 => if j % 2 == 0 then b[j / 2] % 16 else b[j / 2] / 16)
  }

  lemma NibblesOf(b: seq<Byte>, i: nat)
    requires |b| == 128 && i < 128
    ensures var ds := Nibbles(b);
            ds[2 * i] == b[i] % 16 && ds[2 * i + 1] == b[i] / 16 && b[i] == ds[2 * i] + 16 * ds[2 * i + 1]
            && 0 <= ds[2 * i] < 16 && 0 <= ds[2 * i + 1] < 16
  {
    assert (2 * i) / 2 == i && (2 * i + 1) / 2 == i;
  }

  /** What `poly::decompress` reads: the nearest coefficients to the digits to base 16. */
  lemma DecompressDecodes(b: seq<Byte>, p: Words) returns (ds: seq<int>)
    requires |b| == 128 && IsDecompressed4(b, p)
    ensures |ds| == 256 && Encodes(b, 16, ds) && NearestTo(ds, 16, p)
  {
    hide Decompress, Number, Nibbles, NearestTo;
    ds := Nibbles(b);
    forall i | 0 <= i < 128
      ensures b[i] == ds[2 * i] + 16 * ds[2 * i + 1]
    {
      NibblesOf(b, i);
    }
    Numbers4(b, ds, 0);
    assert b[0..] == b && ds[0..] == ds;
    forall j | 0 <= j < 256
      ensures 0 <= ds[j] < 16 && p[j] == Decompress(ds[j], 16)
    {
      var i := j / 2;
      NibblesOf(b, i);
      assert j == 2 * i || j == 2 * i + 1;
    }
    AllNearest(ds, 16, p);
  }

  /** Every coefficient is the whole number nearest to its digit times Q / m, the upper one at a tie. */
  ghost predicate NearestTo(ds: seq<int>, m: nat, p: Words) {
    |ds| == 256 && forall j :: 0 <= j < 256 ==> Nearest(p[j], ds[j], m)
  }

  lemma AllNearest(ds: seq<int>, m: nat, p: Words)
    requires IsLevels(m) && |ds| == 256 && forall j :: 0 <= j < 256 ==> 0 <= ds[j] < m && p[j] == Decompress(ds[j], m)
    ensures NearestTo(ds, m, p)
  {
    hide Decompress, Nearest;
    forall j | 0 <= j < 256
      ensures Nearest(p[j], ds[j], m)
    {
      DecompressNearest(ds[j], m);
    }
  }

  // ---------------------------------------------------------------- ten bits

  function Five(b: seq<Byte>, o: nat): int
    requires o + 5 <= |b|
  {
    b[o] + 256 * b[o + 1] as int + 0x1_0000 * b[o + 2] as int + 0x100_0000 * b[o + 3] as int + 0x1_0000_0000 * b[o + 4] as int
  }

  function Four(ds: seq<int>, o: nat): int
    requires o + 4 <= |ds|
  {
    ds[o] + 0x400 * ds[o + 1] + 0x10_0000 * ds[o + 2] + 0x4000_0000 * ds[o + 3]
  }

  ghost predicate Grouped10(b: seq<Byte>, ds: seq<int>) {
    |b| == 320 && |ds| == 256 && forall i :: 0 <= i < 64 ==> Five(b, 5 * i) == Four(ds, 4 * i)
  }

  lemma {:induction false} Numbers10(b: seq<Byte>, ds: seq<int>, i: nat)
    requires Grouped10(b, ds) && i <= 64
    ensures Number(256, b[5 * i..]) == Number(1024, ds[4 * i..])
    decreases 64 - i
  {
    hide Number;
    if i == 64 {
      NoDigits(256, b, 320);
      NoDigits(1024, ds, 256);
    } else {
      Numbers10(b, ds, i + 1);
      Digits5(256, b, 5 * i);
      Digits4(1024, ds, 4 * i);
      assert Five(b, 5 * i) == Four(ds, 4 * i);
    }
  }

  lemma Pack10Number(t0: int, t1: int, t2: int, t3: int)
    requires 0 <= t0 < 1024 && 0 <= t1 < 1024 && 0 <= t2 < 1024 && 0 <= t3 < 1024
    ensures var b := Pack10(t0, t1, t2, t3);
            b.0 as int + 256 * b.1 as int + 0x1_0000 * b.2 as int + 0x100_0000 * b.3 as int + 0x1_0000_0000 * b.4 as int
            == t0 + 0x400 * t1 + 0x10_0000 * t2 + 0x4000_0000 * t3
  {
    hide Pack10;
    var h0, h1, h2, h3 := t0 / 256, t1 / 64, t2 / 16, t3 / 4;
    var l0, l1, l2, l3 := t0 - 256 * h0, t1 - 64 * h1, t2 - 16 * h2, t3 - 4 * h3;
    Pack10Bytes(l0, h0, l1, h1, l2, h2, l3, h3);
  }

  lemma Unpack10Number(b0: Byte, b1: Byte, b2: Byte, b3: Byte, b4: Byte)
    ensures var t := Unpack10(b0, b1, b2, b3, b4);
            b0 as int + 256 * b1 as int + 0x1_0000 * b2 as int + 0x100_0000 * b3 as int + 0x1_0000_0000 * b4 as int
            == t.0 + 0x400 * t.1 + 0x10_0000 * t.2 + 0x4000_0000 * t.3
  {
    hide Unpack10;
    var l1, l2, l3 := b1 as int / 4, b2 as int / 16, b3 as int / 64;
    var h0, h1, h2 := b1 - 4 * l1, b2 - 16 * l2, b3 - 64 * l3;
    Unpack10Bytes(b0, h0, l1, h1, l2, h2, l3, b4);
  }

  /** What one polynomial of `polyvec::compress` writes: the compressions are the digits to base 1024. */
  lemma CompressEncodes10(p: Words, b: seq<Byte>)
    requires IsCompressed10(p, b)
    ensures Encodes(b, 1024, seq<int>(256, j requires 0 <= j < 256 => Compress(Lift(p[j]), 1024)))
  {
    hide Compress, Lift, Number, Pack10;
    var ds := seq<int>(256, j requires 0 <= j < 256 => Compress(Lift(p[j]), 1024));
    forall i | 0 <= i < 64
      ensures Five(b, 5 * i) == Four(ds, 4 * i)
    {
      var t := Group(p, i);
      Pack10Number(t.0, t.1, t.2, t.3);
      assert (b[5 * i], b[5 * i + 1], b[5 * i + 2], b[5 * i + 3], b[5 * i + 4]) == Pack10(t.0, t.1, t.2, t.3);
    }
    Numbers10(b, ds, 0);
    assert b[0..] == b && ds[0..] == ds;
  }

  /** What one polynomial of `polyvec::decompress` reads: the nearest coefficients to the digits to base 1024. */
  lemma DecompressDecodes10(b: seq<Byte>, p: Words) returns (ds: seq<int>)
    requires |b| == 320 && IsDecompressed10(b, p)
    ensures |ds| == 256 && Encodes(b, 1024, ds) && NearestTo(ds, 1024, p)
  {
    hide Decompress, Number, Unpack10;
    ds := seq<int>(256, j requires 0 <= j < 256 =>
      var t := Group10(b, j / 4);
      match j % 4 case 0 => t.0 case 1 => t.1 case 2 => t.2 case _ => t.3);
    forall i | 0 <= i < 64
      ensures Five(b, 5 * i) == Four(ds, 4 * i)
      ensures (ds[4 * i], ds[4 * i + 1], ds[4 * i + 2], ds[4 * i + 3]) == Group10(b, i)
    {
      Unpack10Number(b[5 * i], b[5 * i + 1], b[5 * i + 2], b[5 * i + 3], b[5 * i + 4]);
      assert (4 * i) / 4 == (4 * i + 1) / 4 == (4 * i + 2) / 4 == (4 * i + 3) / 4 == i;
    }
    Numbers10(b, ds, 0);
    assert b[0..] == b && ds[0..] == ds;
    forall j | 0 <= j < 256
      ensures 0 <= ds[j] < 1024 && p[j] == Decompress(ds[j], 1024)
    {
      var i := j / 4;
      assert GroupDecoded(b, p, i);
      assert j == 4 * i || j == 4 * i + 1 || j == 4 * i + 2 || j == 4 * i + 3;
    }
    AllNearest(ds, 1024, p);
  }

  // ---------------------------------------------------------------- one bit

  lemma EightBits(x: Byte, ds: seq<int>, o: nat)
    requires o + 8 <= |ds| && forall k :: 0 <= k < 8 ==> ds[o + k] == Bit(x, k)
    ensures Number(2, ds[o..]) == x + 256 * Number(2, ds[o + 8..])
  {
    hide Bit, Number;
    ByteIsItsBits(x);
    Digits8(2, ds, o);
    assert ds[o + 0] == Bit(x, 0);
  }

  lemma {:induction false} NumbersOfBits(b: seq<Byte>, ds: seq<int>, i: nat)
    requires |b| == 32 && |ds| == 256 && i <= 32
    requires forall j :: 0 <= j < 256 ==> ds[j] == Bit(b[j / 8], j % 8)
    ensures Number(256, b[i..]) == Number(2, ds[8 * i..])
    decreases 32 - i
  {
    hide Bit, Number;
    if i == 32 {
      NoDigits(256, b, 32);
      NoDigits(2, ds, 256);
    } else {
      NumbersOfBits(b, ds, i + 1);
      OneDigit(256, b, i);
      forall k | 0 <= k < 8
        ensures ds[8 * i + k] == Bit(b[i], k)
      {
        assert (8 * i + k) / 8 == i && (8 * i + k) % 8 == k;
      }
      EightBits(b[i], ds, 8 * i);
    }
  }

  lemma OneDigit(base: nat, ds: seq<int>, o: nat)
    requires o < |ds|
    ensures Number(base, ds[o..]) == ds[o] + base * Number(base, ds[o + 1..])
  {
    assert ds[o..][1..] == ds[o + 1..];
  }

  /** What `poly::from_msg` reads: the binary digits of the message, each set one as (Q + 1) / 2. */
  lemma FromMsgDecodes(m: seq<Byte>, p: Words) returns (ds: seq<int>)
    requires |m| == 32 && IsFromMsg(m, p)
    ensures |ds| == 256 && Encodes(m, 2, ds) && forall j :: 0 <= j < 256 ==> p[j] == if ds[j] == 1 then 1665 else 0
  {
    hide Bit, Number;
    ds := seq<int>(256, j requires 0 <= j < 256 => Bit(m[j / 8], j % 8));
    NumbersOfBits(m, ds, 0);
    assert m[0..] == m && ds[0..] == ds;
  }

  /** What `poly::to_msg` writes: the binary digits say which coefficients lie nearer to Q / 2 than to zero. */
  lemma ToMsgEncodes(p: Words, m: seq<Byte>)
    requires IsToMsg(p, m)
    ensures Encodes(m, 2, seq<int>(256, j requires 0 <= j < 256 => if 833 <= Lift(p[j]) <= 2496 then 1 else 0))
  {
    hide Bit, Number, Lift, Compress;
    var ds := seq<int>(256, j requires 0 <= j < 256 => if 833 <= Lift(p[j]) <= 2496 then 1 else 0);
    forall j | 0 <= j < 256
      ensures ds[j] == Bit(m[j / 8], j % 8)
    {
      CompressBit(Lift(p[j]));
      assert Bit(m[j / 8], j % 8) == MsgBit(p, j);
    }
    NumbersOfBits(m, ds, 0);
    assert m[0..] == m && ds[0..] == ds;
  }
}
