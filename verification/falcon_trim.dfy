/** Falcon's codec for small signed values in two's complement of a given width. */
module FalconTrim {
  import opened Division
  import opened BitWords
  import opened FalconBits
  import opened FalconFixed

  type I8 = x: int | -128 <= x < 128

  // ---------------------------------------------------------------- two's complement fields

  /** The values a field of w digits may hold: symmetric around zero. */
  predicate InRange(x: int, w: nat)
    requires w > 0
  {
    -(Power(w - 1) - 1) <= x <= Power(w - 1) - 1
  }

  ghost predicate AllInRange(xs: seq<int>, w: nat)
    requires w > 0
  {
    forall i :: 0 <= i < |xs| ==> InRange(xs[i], w)
  }

  /** Two's complement in w digits. */
  function Field(x: int, w: nat): (f: nat)
    requires w > 0 && InRange(x, w)
    ensures f < Power(w) && f != Power(w - 1)
  {
    if x >= 0 then x else x + Power(w)
  }

  function Signed(f: nat, w: nat): int
    requires w > 0 && f < Power(w)
  {
    if f < Power(w - 1) then f else f - Power(w)
  }

  /** Every field but the one of the missing least value stands for exactly one value. */
  lemma FieldOfSigned(f: nat, w: nat)
    requires w > 0 && f < Power(w) && f != Power(w - 1)
    ensures InRange(Signed(f, w), w) && Field(Signed(f, w), w) == f
  {
  }

  function FieldSeq(xs: seq<int>, w: nat): (fs: seq<nat>)
    requires w > 0 && AllInRange(xs, w)
    ensures |fs| == |xs| && AllBelow(fs, Power(w)) && forall i :: 0 <= i < |fs| ==> fs[i] != Power(w - 1)
  {
    seq(|xs|, i requires 0 <= i < |xs| => Field(xs[i], w))
  }

  lemma FieldSeqInjective(xs: seq<int>, ys: seq<int>, w: nat)
    requires w > 0 && AllInRange(xs, w) && AllInRange(ys, w) && FieldSeq(xs, w) == FieldSeq(ys, w)
    ensures xs == ys
  {
    forall i | 0 <= i < |xs|
      ensures xs[i] == ys[i]
    {
      assert FieldSeq(xs, w)[i] == FieldSeq(ys, w)[i];
    }
  }

  lemma FieldSeqSnoc(xs: seq<int>, x: int, w: nat)
    requires w > 0 && AllInRange(xs, w) && InRange(x, w)
    ensures AllInRange(xs + [x], w) && FieldSeq(xs + [x], w) == FieldSeq(xs, w) + [Field(x, w)]
  {
  }

  ghost predicate TrimFormat(bytes: seq<U8>, xs: seq<int>, w: nat)
    requires w > 0
  {
    AllInRange(xs, w) && Holds(bytes, FieldSeq(xs, w), w, Power(w))
  }

  /** An encoding is decoded to what was encoded, and an accepted input is the encoding of what it decodes to. */
  lemma TrimRoundTrip(a: seq<U8>, b: seq<U8>, x: seq<int>, y: seq<int>, w: nat)
    requires w > 0 && TrimFormat(a, x, w) && TrimFormat(b, y, w) && |x| == |y|
    ensures a == b <==> x == y
  {
    HoldsUnique(a, b, FieldSeq(x, w), FieldSeq(y, w), w, Power(w));
    if a == b {
      FieldSeqInjective(x, y, w);
    }
  }

  // ---------------------------------------------------------------- the word operations

  lemma {:induction false} LowOfSum(a: nat, k: nat, r: nat)
    requires r < Power(k)
    ensures Low(Shl(a, k) + r, k) == r
  {
    if k > 0 {
      LowOfSum(a, k - 1, r / 2);
      assert (Shl(a, k) + r) / 2 == Shl(a, k - 1) + r / 2;
    }
  }

  /** `*x as u8 as u32 & mask`. */
  lemma EncodedField(x: I8, w: nat)
    requires 1 <= w <= 8 && InRange(x, w)
    ensures And(x % 256, Power(w) - 1) == Field(x, w)
  {
    hide And, Low, Shl;
    PowerOfWidth(w);
    AndMask(x % 256, w);
    if x >= 0 {
      assert x % 256 == x;
      LowOfSmall(x, w);
    } else {
      FillsByte(w);
      LowOfSum(Power(8 - w) - 1, w, x + Power(w));
      assert x % 256 == x + 256;
    }
  }

  lemma FillsByte(w: nat)
    requires 1 <= w <= 8
    ensures Shl(Power(8 - w) - 1, w) == 256 - Power(w)
  {
    ShlOfOnes(8 - w, w);
    PowerTable();
  }

  lemma {:induction false} ShlOfOnes(j: nat, k: nat)
    ensures Shl(Power(j) - 1, k) == Power(j + k) - Power(k)
  {
    if k > 0 {
      ShlOfOnes(j, k - 1);
    }
  }

  /** Or-ing in all digits from the sign digit on. */
  lemma {:induction false} OrSigned(g: nat, k: nat, h: nat)
    requires g < Power(k) && h % 2 == 1
    ensures Or(Power(k) + g, Shl(h, k)) == Shl(h, k) + g
  {
    if k == 0 {
      assert Or(1, h) == 2 * Or(0, h / 2) + 1;
    } else {
      OrSigned(g / 2, k - 1, h);
      assert (Power(k) + g) / 2 == Power(k - 1) + g / 2 && Shl(h, k) / 2 == Shl(h, k - 1);
    }
  }

  /** `w |= (w & mask2).wrapping_neg()`. */
  function SignExtended(f: U32, w: nat): nat
    requires 1 <= w <= 8
  {
    PowerOfWidth(w);
    Or(f, Sub32(0, And(f, Power(w - 1))))
  }

  lemma PowerOfWidth(w: nat)
    requires 1 <= w <= 8
    ensures 2 <= Power(w) == 2 * Power(w - 1) <= 256
  {
    PowerTable();
    PowerMonotone(w, 8);
    PowerMonotone(1, w);
  }

  lemma SignDigit(f: nat, w: nat)
    requires 1 <= w && f < Power(w)
    ensures And(f, Power(w - 1)) == if f < Power(w - 1) then 0 else Power(w - 1)
  {
    hide And;
    AndPower(f, w - 1);
    var p := Power(w - 1);
    if f < p {
      DivModUnique(f, p, 0, f);
    } else {
      DivModUnique(f, p, 1, f - p);
    }
  }

  lemma SignExtendedValue(f: nat, w: nat)
    requires 1 <= w <= 8 && f < Power(w)
    ensures f < 256 && SignExtended(f, w) == if f < Power(w - 1) then f else 0x1_0000_0000 - Power(w) + f
  {
    hide And, Or;
    PowerOfWidth(w);
    SignDigit(f, w);
    if f < Power(w - 1) {
      OrZero(f);
    } else {
      var k := w - 1;
      ShlOfOnes(32 - k, k);
      PowerTable();
      OddOnes(32 - k);
      OrSigned(f - Power(k), k, Power(32 - k) - 1);
    }
  }

  lemma OddOnes(k: nat)
    requires k > 0
    ensures (Power(k) - 1) % 2 == 1
  {
  }

  /** Reinterpreting a word as signed and truncating to eight bits. */
  function ToI8(v: int): I8 {
    (v + 128) % 256 - 128
  }

  /** The rejected pattern is that of the least value; any other field decodes to its signed value. */
  lemma DecodedField(f: nat, w: nat)
    requires 1 <= w <= 8 && f < Power(w)
    ensures f < 256 && Power(w - 1) < 0x1_0000_0000
    ensures SignExtended(f, w) == Sub32(0, Power(w - 1)) <==> f == Power(w - 1)
    ensures f != Power(w - 1) ==> ToI8(SignExtended(f, w)) == Signed(f, w)
  {
    hide SignExtended, Power;
    PowerOfWidth(w);
    SignExtendedValue(f, w);
    var p := Power(w);
    if f < Power(w - 1) {
      DivModUnique(f + 128, 256, 0, f + 128);
    } else {
      DivModUnique(0x1_0000_0000 - p + f + 128, 256, 0x100_0000, f - p + 128);
    }
    assert Sub32(0, Power(w - 1)) == 0x1_0000_0000 - Power(w - 1);
  }

  // ---------------------------------------------------------------- the codec

  /** `trim_i8_encode`. */
  method TrimEncode(out: array?<U8>, maxOutLen: nat, x: seq<I8>, logn: nat, bits: nat) returns (len: nat)
    requires |x| == Power(logn) && 1 <= bits <= 8 && (out != null ==> maxOutLen <= out.Length)
    modifies out
    ensures var fits := ByteLength(|x|, bits);
            len == if !AllInRange(x, bits) then 0 else if out == null then fits else if fits > maxOutLen then 0 else fits
    ensures out != null && len != 0 ==> TrimFormat(out[..len], x, bits)
    ensures out != null ==> forall k :: len <= k < out.Length ==> out[k] == old(out[k])
  {
    hide Fields, Packs, Writing, Power, ShiftIn, And, Field;
    var maxv := Power(bits - 1) - 1;
    for u := 0 to |x|
      invariant AllInRange(x[..u], bits)
    {
      if x[u] < -maxv || x[u] > maxv {
        return 0;
      }
    }
    assert x[..|x|] == x;
    len := ByteLength(|x|, bits);
    if out == null {
      return;
    }
    if len > maxOutLen {
      return 0;
    }
    TrimWrite(out, len, x, bits);
  }

  /** The writing loop of the encoder. */
  method TrimWrite(out: array<U8>, len: nat, x: seq<I8>, bits: nat)
    requires 1 <= bits <= 8 && AllInRange(x, bits) && len == ByteLength(|x|, bits) <= out.Length
    modifies out
    ensures TrimFormat(out[..len], x, bits)
    ensures forall k :: len <= k < out.Length ==> out[k] == old(out[k])
  {
    hide Fields, Packs, Writing, Power, ShiftIn, And, Field, InRange, Span;
    ghost var fs := FieldSeq(x, bits);
    var acc: U32, accLen: nat, v: nat := 0, 0, 0;
    WritingStarts(out[..0], bits);
    NoSpan(bits);
    for u := 0 to |x|
      invariant accLen < 8 && 8 * v + accLen == Span(u, bits) && v <= len
      invariant Writing(out[..v], acc, accLen, Fields(fs[..u], bits))
      invariant forall k :: len <= k < out.Length ==> out[k] == old(out[k])
    {
      LengthBounds(|x|, u + 1, bits);
      SpanNext(u, bits);
      EncodedField(x[u], bits);
      var f := And(x[u] as int % 256, Power(bits) - 1);
      WriteField(out[..v], acc, accLen, fs[..u], bits, f);
      assert fs[..u + 1] == fs[..u] + [f];
      acc := ShiftIn(acc, bits, f);
      accLen := accLen + bits;
      v, accLen := Drain(out, v, acc, accLen, Fields(fs[..u + 1], bits));
    }
    assert fs[..|x|] == fs;
    LengthBounds(|x|, |x|, bits);
    DrainLast(out, v, acc, accLen, Fields(fs, bits), len);
  }

  /** What decoding has established: the bytes read are the fields of the values written, and the pending digits. */
  ghost predicate Decoding(bytes: seq<U8>, acc: nat, len: nat, xs: seq<int>, w: nat)
    requires w > 0
  {
    AllInRange(xs, w) && Reading(bytes, acc, len, Fields(FieldSeq(xs, w), w))
  }

  ghost predicate NoFormat(bytes: seq<U8>, n: nat, w: nat)
    requires w > 0
  {
    forall y: seq<int> :: |y| == n ==> !TrimFormat(bytes, y, w)
  }

  /** One field leaves the accumulator: it stands for a value, or no list of values has these bytes. */
  lemma DecodeStep(bytes: seq<U8>, v: nat, acc: U32, len: nat, xs: seq<int>, w: nat, n: nat)
    requires 1 <= w <= 8 && v <= |bytes| && w <= len && |xs| < n && Decoding(bytes[..v], acc, len, xs, w)
    ensures var f := And(Shr(acc, len - w), Power(w) - 1);
            && f < Power(w)
            && if f == Power(w - 1) then NoFormat(bytes, n, w) else Decoding(bytes[..v], acc, len - w, xs + [Signed(f, w)], w)
  {
    hide Reading, And, Shr, Packs, Power;
    ReadField(bytes[..v], acc, len, FieldSeq(xs, w), w);
    var f := And(Shr(acc, len - w), Power(w) - 1);
    PowerOfWidth(w);
    if f == Power(w - 1) {
      forall y: seq<int> | |y| == n
        ensures !TrimFormat(bytes, y, w)
      {
        if AllInRange(y, w) {
          var fs, gs, k := FieldSeq(xs, w) + [f], FieldSeq(y, w), |xs|;
          assert fs[k] == f && gs[..k + 1][k] == gs[k];
          IfHeldBegins(bytes, v, acc, len - w, fs, w, gs);
        }
      }
    } else {
      FieldOfSigned(f, w);
      FieldSeqSnoc(xs, Signed(f, w), w);
    }
  }

  lemma DecodeEnds(bytes: seq<U8>, acc: U32, len: nat, xs: seq<int>, w: nat)
    requires 1 <= w <= 8 && len < 8 && Decoding(bytes, acc, len, xs, w)
    ensures And(acc, Power(len) - 1) == 0 ==> TrimFormat(bytes, xs, w)
    ensures And(acc, Power(len) - 1) != 0 ==> NoFormat(bytes, |xs|, w)
  {
    hide Reading, And, Holds;
    ReadingEnds(bytes, acc, len, FieldSeq(xs, w), w);
    if And(acc, Power(len) - 1) != 0 {
      forall y: seq<int> | |y| == |xs|
        ensures !TrimFormat(bytes, y, w)
      {
        if AllInRange(y, w) {
          var gs := FieldSeq(y, w);
          assert !Holds(bytes, gs, w, Power(w));
        }
      }
    }
  }

  /** `trim_i8_decode`: succeeds exactly when the input starts with an encoding, and then yields what was encoded. */
  method TrimDecode(x: array<I8>, logn: nat, bits: nat, input: seq<U8>) returns (len: nat)
    requires x.Length == Power(logn) && 1 <= bits <= 8
    modifies x
    ensures len == 0 || len == ByteLength(x.Length, bits) <= |input|
    ensures len != 0 ==> TrimFormat(input[..len], x[..], bits)
    ensures len == 0 ==> ByteLength(x.Length, bits) > |input| || NoFormat(input[..ByteLength(x.Length, bits)], x.Length, bits)
  {
    hide Decoding, NoFormat, TrimFormat, Power, ShiftIn, And, Shr, SignExtended, Sub32, ToI8, Signed, ByteLength;
    var n := x.Length;
    var inLen := ByteLength(n, bits);
    if inLen > |input| {
      return 0;
    }
    ghost var bytes := input[..inLen];
    var acc: U32, accLen: nat, u: nat, v: nat := 0, 0, 0, 0;
    DecodingStarts(bytes[..0], bits);
    assert x[..0] == [];
    LengthBounds(n, n, bits);
    while u < n
      invariant u <= n && v <= inLen && 8 * v == Span(u, bits) + accLen
      invariant if u < n then accLen < bits else accLen < 8
      invariant Decoding(bytes[..v], acc, accLen, x[..u], bits)
      decreases inLen - v
    {
      LengthBounds(n, u + 1, bits);
      DecodeByte(bytes[..v], acc, accLen, x[..u], bits, input[v]);
      assert bytes[..v + 1] == bytes[..v] + [input[v]];
      acc := ShiftIn(acc, 8, input[v]);
      v := v + 1;
      accLen := accLen + 8;
      while accLen >= bits && u < n
        invariant u <= n && 8 * v == Span(u, bits) + accLen && accLen < bits + 8
        invariant u == n ==> accLen < 8
        invariant Decoding(bytes[..v], acc, accLen, x[..u], bits)
        decreases accLen
      {
        DecodeStep(bytes, v, acc, accLen, x[..u], bits, n);
        LengthBounds(n, u + 1, bits);
        accLen := accLen - bits;
        var f := And(Shr(acc, accLen), Power(bits) - 1);
        DecodedField(f, bits);
        var w := SignExtended(f, bits);
        if w == Sub32(0, Power(bits - 1)) {
          return 0;
        }
        ghost var before: seq<int> := x[..u];
        x[u] := ToI8(w);
        u := u + 1;
        assert x[..u] == before + [Signed(f, bits)];
      }
    }
    assert bytes[..v] == bytes && x[..u] == x[..];
    DecodeEnds(bytes, acc, accLen, x[..], bits);
    if And(acc, Power(accLen) - 1) != 0 {
      return 0;
    }
    len := inLen;
  }

  lemma DecodingStarts(bytes: seq<U8>, w: nat)
    requires bytes == [] && w > 0
    ensures Decoding(bytes, 0, 0, [], w)
  {
    WritingStarts(bytes, w);
    assert FieldSeq([], w) == [];
  }

  lemma DecodeByte(bytes: seq<U8>, acc: U32, len: nat, xs: seq<int>, w: nat, b: U8)
    requires w > 0 && len + 8 <= 32 && Decoding(bytes, acc, len, xs, w)
    ensures ShiftIn(acc, 8, b) < 0x1_0000_0000
    ensures Decoding(bytes + [b], ShiftIn(acc, 8, b), len + 8, xs, w)
  {
    hide Reading, ShiftIn;
    ReadByte(bytes, acc, len, Fields(FieldSeq(xs, w), w), b);
  }
}
