/** Bit strings, most significant bit first, and the accumulator that packs them into bytes. */
module FalconBits {
  import opened BitWords

  /** The low k binary digits of v. */
  function Bits(v: nat, k: nat): (b: seq<bool>)
    ensures |b| == k
  {
    if k == 0 then [] else Bits(v / 2, k - 1) + [v % 2 == 1]
  }

  function Value(b: seq<bool>): nat {
    if b == [] then 0 else 2 * Value(b[..|b| - 1]) + if b[|b| - 1] then 1 else 0
  }

  function ZeroDigits(k: nat): (b: seq<bool>)
    ensures |b| == k && forall i :: 0 <= i < k ==> !b[i]
  {
    seq(k, _ => false)
  }

  lemma {:induction false} ValueOfBits(v: nat, k: nat)
    requires v < Power(k)
    ensures Value(Bits(v, k)) == v
  {
    if k > 0 {
      ValueOfBits(v / 2, k - 1);
      assert Bits(v, k)[..k - 1] == Bits(v / 2, k - 1);
    }
  }

  lemma {:induction false} BitsOfValue(b: seq<bool>)
    ensures Value(b) < Power(|b|) && Bits(Value(b), |b|) == b
  {
    if b != [] {
      BitsOfValue(b[..|b| - 1]);
    }
  }

  lemma {:induction false} ValueOfConcat(a: seq<bool>, b: seq<bool>)
    ensures Value(a + b) == Value(a) * Power(|b|) + Value(b)
  {
    if b == [] {
      assert a + b == a;
    } else {
      var n := |b| - 1;
      ValueOfConcat(a, b[..n]);
      ValueOfLast(a + b);
      ValueOfLast(b);
      assert (a + b)[..|a + b| - 1] == a + b[..n] && (a + b)[|a + b| - 1] == b[n];
      PowerNext(n);
      hide Value, Power;
      DoubledFactor(Value(a), Power(n));
    }
  }

  lemma ValueOfLast(b: seq<bool>)
    requires b != []
    ensures Value(b) == 2 * Value(b[..|b| - 1]) + if b[|b| - 1] then 1 else 0
  {
  }

  lemma PowerNext(k: nat)
    ensures Power(k + 1) == 2 * Power(k)
  {
  }

  lemma DoubledFactor(x: nat, p: nat)
    ensures x * (2 * p) == 2 * (x * p)
  {
  }

  /** `v >> k`. */
  function Shr(v: nat, k: nat): (r: nat)
    ensures r <= v
  {
    if k == 0 then v else Shr(v / 2, k - 1)
  }

  /** `v << k`, without bound. */
  function Shl(v: nat, k: nat): nat {
    if k == 0 then v else 2 * Shl(v, k - 1)
  }

  /** Truncation to k binary digits. */
  function Low(v: nat, k: nat): (r: nat)
    ensures r < Power(k)
  {
    if k == 0 then 0 else 2 * Low(v / 2, k - 1) + v % 2
  }

  /** The upper part of a digit string belongs to the shifted word. */
  lemma {:induction false} BitsSplit(v: nat, j: nat, k: nat)
    ensures Bits(v, j + k) == Bits(Shr(v, k), j) + Bits(v, k)
  {
    if k > 0 {
      BitsSplit(v / 2, j, k - 1);
      assert Bits(v, j + k) == Bits(v / 2, j + k - 1) + [v % 2 == 1];
    }
  }

  /** Truncation to at least k digits does not change the low k digits. */
  lemma {:induction false} BitsOfLow(v: nat, m: nat, k: nat)
    requires k <= m
    ensures Bits(Low(v, m), k) == Bits(v, k)
  {
    if k > 0 {
      BitsOfLow(v / 2, m - 1, k - 1);
      assert Low(v, m) / 2 == Low(v / 2, m - 1) && Low(v, m) % 2 == v % 2;
    }
  }

  lemma {:induction false} LowOfSmall(v: nat, k: nat)
    requires v < Power(k)
    ensures Low(v, k) == v
  {
    if k > 0 {
      LowOfSmall(v / 2, k - 1);
    }
  }

  /** `acc << k | x` on a 32-bit word. */
  function ShiftIn(acc: U32, k: nat, x: nat): nat {
    Or(Low(Shl(acc, k), 32), x)
  }

  lemma {:induction false} OrDisjoint(h: nat, k: nat, x: nat)
    requires x < Power(k)
    ensures Or(Shl(h, k), x) == Shl(h, k) + x
  {
    if k == 0 {
      OrZero(h);
    } else {
      OrDisjoint(h, k - 1, x / 2);
      if Shl(h, k) == 0 {
        OrZero(x);
      }
    }
  }

  lemma {:induction false} LowOfShl(v: nat, k: nat, m: nat)
    requires k <= m
    ensures Low(Shl(v, k), m) == Shl(Low(v, m - k), k)
  {
    if k > 0 {
      LowOfShl(v, k - 1, m - 1);
      assert Shl(v, k) / 2 == Shl(v, k - 1) && Shl(v, k) % 2 == 0;
    }
  }

  lemma {:induction false} ShlBelow(h: nat, j: nat, k: nat, x: nat)
    requires h < Power(j) && x < Power(k)
    ensures Shl(h, k) + x < Power(j + k)
  {
    if k > 0 {
      ShlBelow(h, j, k - 1, x / 2);
    }
  }

  lemma {:induction false} BitsOfShl(h: nat, len: nat, k: nat, x: nat)
    requires x < Power(k)
    ensures Bits(Shl(h, k) + x, len + k) == Bits(h, len) + Bits(x, k)
  {
    if k > 0 {
      BitsOfShl(h, len, k - 1, x / 2);
      var w := Shl(h, k) + x;
      assert w / 2 == Shl(h, k - 1) + x / 2 && w % 2 == x % 2;
      assert Bits(w, len + k) == Bits(w / 2, len + k - 1) + [w % 2 == 1];
    } else {
      assert Bits(h, len) + [] == Bits(h, len);
    }
  }

  /** Shifting digits in appends them to the pending ones, as long as the word holds them all. */
  lemma ShiftInAppends(acc: U32, len: nat, k: nat, x: nat)
    requires x < Power(k) && len + k <= 32
    ensures ShiftIn(acc, k, x) < 0x1_0000_0000
    ensures Bits(ShiftIn(acc, k, x), len + k) == Bits(acc, len) + Bits(x, k)
  {
    PowerTable();
    var h := Low(acc, 32 - k);
    LowOfShl(acc, k, 32);
    OrDisjoint(h, k, x);
    ShlBelow(h, 32 - k, k, x);
    BitsOfShl(h, len, k, x);
    BitsOfLow(acc, 32 - k, len);
  }

  // ---------------------------------------------------------------- bytes

  /** The digits of a byte string. */
  function Stream(bytes: seq<U8>): (b: seq<bool>)
    ensures |b| == 8 * |bytes|
  {
    if bytes == [] then [] else Stream(bytes[..|bytes| - 1]) + Bits(bytes[|bytes| - 1], 8)
  }

  lemma StreamSnoc(bytes: seq<U8>, b: U8)
    ensures Stream(bytes + [b]) == Stream(bytes) + Bits(b, 8)
  {
    assert (bytes + [b])[..|bytes|] == bytes;
  }

  /** Byte i is the i-th group of eight digits, most significant digit first. */
  lemma StreamShape(bytes: seq<U8>, i: nat)
    requires i < |bytes|
    ensures Value(Stream(bytes)[8 * i..8 * i + 8]) == bytes[i]
  {
    hide Bits, Value;
    PowerTable();
    ValueOfBits(bytes[i], 8);
    StreamPrefix(bytes, i + 1);
    var head := bytes[..i + 1];
    assert head[..i] == bytes[..i];
    assert Stream(bytes)[8 * i..8 * i + 8] == Stream(head)[8 * i..];
  }

  lemma {:induction false} StreamInjective(a: seq<U8>, b: seq<U8>)
    requires Stream(a) == Stream(b)
    ensures a == b
  {
    if a != [] && b != [] {
      var m, n := |a| - 1, |b| - 1;
      var s, t := Stream(a), Stream(b);
      assert m == n;
      assert s[..8 * m] == Stream(a[..m]) && t[..8 * m] == Stream(b[..m]);
      assert s[8 * m..] == Bits(a[m], 8) && t[8 * m..] == Bits(b[m], 8);
      StreamInjective(a[..m], b[..m]);
      PowerTable();
      ValueOfBits(a[m], 8);
      ValueOfBits(b[m], 8);
      assert a == a[..m] + [a[m]] && b == b[..m] + [b[m]];
    }
  }

  lemma {:induction false} StreamPrefix(bytes: seq<U8>, v: nat)
    requires v <= |bytes|
    ensures Stream(bytes)[..8 * v] == Stream(bytes[..v])
  {
    if v < |bytes| {
      StreamPrefix(bytes[..|bytes| - 1], v);
      assert bytes[..|bytes| - 1][..v] == bytes[..v];
    } else {
      assert bytes[..v] == bytes;
    }
  }

  /** The bytes hold the digits, the last byte filled up with zeros. */
  ghost predicate Packs(bytes: seq<U8>, b: seq<bool>) {
    |b| <= 8 * |bytes| < |b| + 8 && Stream(bytes) == b + ZeroDigits(8 * |bytes| - |b|)
  }

  /** Bytes are determined by the digits they pack. */
  lemma PacksUnique(a: seq<U8>, c: seq<U8>, b: seq<bool>)
    requires Packs(a, b) && Packs(c, b)
    ensures a == c
  {
    StreamInjective(a, c);
  }

  /** The next whole byte of the pending digits. */
  lemma TopByte(acc: U32, len: nat)
    requires 8 <= len
    ensures Bits(acc, len) == Bits(Low(Shr(acc, len - 8), 8), 8) + Bits(acc, len - 8)
  {
    BitsSplit(acc, 8, len - 8);
    BitsOfLow(Shr(acc, len - 8), 8, 8);
  }

  /** The last, partial byte: the pending digits and zeros. */
  lemma LastByte(acc: U32, len: nat)
    requires 0 < len < 8
    ensures Bits(Low(Low(Shl(acc, 8 - len), 32), 8), 8) == Bits(acc, len) + ZeroDigits(8 - len)
  {
    var k := 8 - len;
    BitsOfLow(Low(Shl(acc, k), 32), 8, 8);
    BitsOfLow(Shl(acc, k), 32, 8);
    BitsOfShl(acc, len, k, 0);
    ZeroBits(k);
  }

  lemma {:induction false} ZeroBits(k: nat)
    ensures Bits(0, k) == ZeroDigits(k)
  {
    if k > 0 {
      ZeroBits(k - 1);
    }
  }

  /** A new input byte joins the pending digits. */
  lemma ByteIn(acc: U32, len: nat, b: U8)
    requires len + 8 <= 32
    ensures ShiftIn(acc, 8, b) < 0x1_0000_0000
    ensures Bits(ShiftIn(acc, 8, b), len + 8) == Bits(acc, len) + Bits(b, 8)
  {
    PowerTable();
    ShiftInAppends(acc, len, 8, b);
  }

  /** `acc >> rest & (1 << k) - 1` reads the first k of the pending digits. */
  lemma TakeField(acc: U32, k: nat, rest: nat)
    ensures Bits(acc, k + rest) == Bits(And(Shr(acc, rest), Power(k) - 1), k) + Bits(acc, rest)
    ensures And(Shr(acc, rest), Power(k) - 1) < Power(k)
  {
    BitsSplit(acc, k, rest);
    AndMask(Shr(acc, rest), k);
    BitsOfLow(Shr(acc, rest), k, k);
  }

  lemma {:induction false} AndMask(x: nat, k: nat)
    ensures And(x, Power(k) - 1) == Low(x, k)
  {
    if k > 0 {
      AndMask(x / 2, k - 1);
      assert (Power(k) - 1) / 2 == Power(k - 1) - 1 && (Power(k) - 1) % 2 == 1;
      if x == 0 {
        assert Low(0 / 2, k - 1) == 0;
      }
    }
  }

  /** `acc & (1 << len) - 1 == 0` holds exactly when all pending digits are zero. */
  lemma PendingZero(acc: U32, len: nat)
    ensures And(acc, Power(len) - 1) == 0 <==> Bits(acc, len) == ZeroDigits(len)
  {
    AndMask(acc, len);
    BitsOfLow(acc, len, len);
    ZeroBits(len);
    ValueOfBits(Low(acc, len), len);
    ValueOfBits(0, len);
  }

  // ---------------------------------------------------------------- encoder and decoder states

  lemma Associative(a: seq<bool>, b: seq<bool>, c: seq<bool>)
    ensures a + b + c == a + (b + c)
  {
  }

  lemma Cut(a: seq<bool>, s: seq<bool>, c: seq<bool>, t: seq<bool>)
    requires |a| == |c| && a + s == c + t
    ensures a == c && s == t
  {
    assert a == (a + s)[..|a|] && c == (c + t)[..|a|];
    assert s == (a + s)[|a|..] && t == (c + t)[|a|..];
  }

  /** The bytes written so far and the pending digits are the digits produced so far. */
  ghost predicate Writing(bytes: seq<U8>, acc: nat, len: nat, s: seq<bool>) {
    Stream(bytes) + Bits(acc, len) == s
  }

  lemma WriteDigits(bytes: seq<U8>, acc: U32, len: nat, s: seq<bool>, k: nat, x: nat)
    requires Writing(bytes, acc, len, s) && len + k <= 32 && x < Power(k)
    ensures ShiftIn(acc, k, x) < 0x1_0000_0000
    ensures Writing(bytes, ShiftIn(acc, k, x), len + k, s + Bits(x, k))
  {
    hide Bits, Stream, ShiftIn;
    ShiftInAppends(acc, len, k, x);
    Associative(Stream(bytes), Bits(acc, len), Bits(x, k));
  }

  lemma WriteByte(bytes: seq<U8>, acc: U32, len: nat, s: seq<bool>)
    requires Writing(bytes, acc, len, s) && 8 <= len
    ensures Low(Shr(acc, len - 8), 8) < 256
    ensures Writing(bytes + [Low(Shr(acc, len - 8), 8)], acc, len - 8, s)
  {
    hide Bits, Stream, Shr;
    PowerTable();
    TopByte(acc, len);
    var b := Low(Shr(acc, len - 8), 8);
    StreamSnoc(bytes, b);
    Associative(Stream(bytes), Bits(b, 8), Bits(acc, len - 8));
  }

  /** The last, partial byte completes the encoding. */
  lemma WriteLast(bytes: seq<U8>, acc: U32, len: nat, s: seq<bool>)
    requires Writing(bytes, acc, len, s) && len < 8
    ensures Low(Low(Shl(acc, 8 - len), 32), 8) < 256
    ensures Packs(if len > 0 then bytes + [Low(Low(Shl(acc, 8 - len), 32), 8)] else bytes, s)
  {
    hide Bits, Stream, Shl;
    PowerTable();
    if len > 0 {
      LastByte(acc, len);
      var b := Low(Low(Shl(acc, 8 - len), 32), 8);
      StreamSnoc(bytes, b);
      Associative(Stream(bytes), Bits(acc, len), ZeroDigits(8 - len));
    } else {
      assert Bits(acc, 0) == [] && ZeroDigits(0) == [];
    }
  }

  lemma NothingYet(bytes: seq<U8>)
    requires bytes == []
    ensures Writing(bytes, 0, 0, []) && Reading(bytes, 0, 0, [])
  {
  }

  /** The bytes read so far are the digits decoded so far and the pending digits. */
  ghost predicate Reading(bytes: seq<U8>, acc: nat, len: nat, s: seq<bool>) {
    Stream(bytes) == s + Bits(acc, len)
  }

  lemma ReadByte(bytes: seq<U8>, acc: U32, len: nat, s: seq<bool>, b: U8)
    requires Reading(bytes, acc, len, s) && len + 8 <= 32
    ensures ShiftIn(acc, 8, b) < 0x1_0000_0000
    ensures Reading(bytes + [b], ShiftIn(acc, 8, b), len + 8, s)
  {
    hide Bits, Stream, ShiftIn;
    ByteIn(acc, len, b);
    StreamSnoc(bytes, b);
    Associative(s, Bits(acc, len), Bits(b, 8));
  }

  lemma ReadDigits(bytes: seq<U8>, acc: U32, len: nat, s: seq<bool>, w: nat)
    requires Reading(bytes, acc, len, s) && w <= len
    ensures And(Shr(acc, len - w), Power(w) - 1) < Power(w)
    ensures Reading(bytes, acc, len - w, s + Bits(And(Shr(acc, len - w), Power(w) - 1), w))
  {
    hide Bits, Stream, Shr, And;
    TakeField(acc, w, len - w);
    var f := And(Shr(acc, len - w), Power(w) - 1);
    Associative(s, Bits(f, w), Bits(acc, len - w));
  }
}
