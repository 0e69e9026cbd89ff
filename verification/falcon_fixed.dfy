/** Falcon's fixed-width codecs: 14-bit values modulo q, and small signed values. */
module FalconFixed {
  import opened BitWords
  import opened FalconBits

  const Q := 12289

  // ---------------------------------------------------------------- fields of equal width

  /** The number of digits of n fields. */
  function Span(n: nat, w: nat): nat {
    if n == 0 then 0 else Span(n - 1, w) + w
  }

  lemma {:induction false} SpanIsProduct(n: nat, w: nat)
    ensures Span(n, w) == n * w
  {
    if n > 0 {
      SpanIsProduct(n - 1, w);
      assert (n - 1) * w + w == n * w;
    }
  }

  /** All values with w digits each. */
  function Fields(fs: seq<nat>, w: nat): (b: seq<bool>)
    ensures |b| == Span(|fs|, w)
  {
    if fs == [] then [] else Fields(fs[..|fs| - 1], w) + Bits(fs[|fs| - 1], w)
  }

  /** Field i is the i-th group of w digits, most significant digit first. */
  lemma {:induction false} FieldsShape(fs: seq<nat>, w: nat, i: nat)
    requires i < |fs| && fs[i] < Power(w)
    ensures Span(i + 1, w) <= Span(|fs|, w) && Value(Fields(fs, w)[Span(i, w)..Span(i + 1, w)]) == fs[i]
  {
    hide Bits, Value;
    var n := |fs| - 1;
    if i == n {
      ValueOfBits(fs[n], w);
      assert Fields(fs, w)[Span(n, w)..Span(n + 1, w)] == Bits(fs[n], w);
    } else {
      FieldsShape(fs[..n], w, i);
      assert Fields(fs, w)[Span(i, w)..Span(i + 1, w)] == Fields(fs[..n], w)[Span(i, w)..Span(i + 1, w)];
    }
  }

  lemma FieldsSnoc(fs: seq<nat>, f: nat, w: nat)
    ensures Fields(fs + [f], w) == Fields(fs, w) + Bits(f, w)
  {
    assert (fs + [f])[..|fs|] == fs;
  }

  lemma NoSpan(w: nat)
    ensures Span(0, w) == 0
  {
  }

  lemma SpanNext(u: nat, w: nat)
    ensures Span(u + 1, w) == Span(u, w) + w
  {
  }

  ghost predicate AllBelow(fs: seq<nat>, bound: nat) {
    forall i :: 0 <= i < |fs| ==> fs[i] < bound
  }

  lemma {:induction false} FieldsConcat(fs: seq<nat>, gs: seq<nat>, w: nat)
    ensures Fields(fs + gs, w) == Fields(fs, w) + Fields(gs, w)
  {
    hide Fields, Bits;
    if gs == [] {
      NoFields(w);
      assert fs + gs == fs && Fields(fs, w) + [] == Fields(fs, w);
    } else {
      var n := |gs| - 1;
      var g, head := gs[n], gs[..n];
      FieldsConcat(fs, head, w);
      FieldsSnoc(fs + head, g, w);
      FieldsSnoc(head, g, w);
      Associative(Fields(fs, w), Fields(head, w), Bits(g, w));
      assert gs == head + [g] && fs + gs == fs + head + [g];
    }
  }

  lemma NoFields(w: nat)
    ensures Fields([], w) == []
  {
  }

  lemma {:induction false} FieldsInjective(fs: seq<nat>, gs: seq<nat>, w: nat)
    requires |fs| == |gs| && AllBelow(fs, Power(w)) && AllBelow(gs, Power(w)) && Fields(fs, w) == Fields(gs, w)
    ensures fs == gs
  {
    if fs != [] {
      var n := |fs| - 1;
      Cut(Fields(fs[..n], w), Bits(fs[n], w), Fields(gs[..n], w), Bits(gs[n], w));
      FieldsInjective(fs[..n], gs[..n], w);
      ValueOfBits(fs[n], w);
      ValueOfBits(gs[n], w);
      assert fs == fs[..n] + [fs[n]] && gs == gs[..n] + [gs[n]];
    }
  }

  /** Two digit strings that start with fields agree on the fields they share. */
  lemma SharedFields(fs: seq<nat>, gs: seq<nat>, w: nat, s: seq<bool>, t: seq<bool>)
    requires |fs| <= |gs| && AllBelow(fs, Power(w)) && AllBelow(gs, Power(w))
    requires Fields(fs, w) + s == Fields(gs, w) + t
    ensures fs == gs[..|fs|]
    ensures |fs| == |gs| ==> s == t
  {
    hide Fields;
    var m := |fs|;
    var head, tail := gs[..m], gs[m..];
    assert gs == head + tail;
    FieldsConcat(head, tail, w);
    Associative(Fields(head, w), Fields(tail, w), t);
    Cut(Fields(fs, w), s, Fields(head, w), Fields(tail, w) + t);
    FieldsInjective(fs, head, w);
    assert m == |gs| ==> Fields(tail, w) == [] && [] + t == t;
  }

  /** The bytes hold exactly these fields, each below the bound. */
  ghost predicate Holds(bytes: seq<U8>, fs: seq<nat>, w: nat, bound: nat) {
    AllBelow(fs, bound) && Packs(bytes, Fields(fs, w))
  }

  /** A byte string holds at most one list of the given length, and a list is held by exactly one byte string. */
  lemma HoldsUnique(a: seq<U8>, c: seq<U8>, fs: seq<nat>, gs: seq<nat>, w: nat, bound: nat)
    requires Holds(a, fs, w, bound) && Holds(c, gs, w, bound) && bound <= Power(w) && |fs| == |gs|
    ensures a == c <==> fs == gs
  {
    if a == c {
      SharedFields(fs, gs, w, ZeroDigits(8 * |a| - |Fields(fs, w)|), ZeroDigits(8 * |a| - |Fields(gs, w)|));
    }
    if fs == gs {
      PacksUnique(a, c, Fields(fs, w));
    }
  }

  // ---------------------------------------------------------------- encoder and decoder states

  lemma WriteField(bytes: seq<U8>, acc: U32, len: nat, fs: seq<nat>, w: nat, f: nat)
    requires Writing(bytes, acc, len, Fields(fs, w)) && len + w <= 32 && f < Power(w)
    ensures ShiftIn(acc, w, f) < 0x1_0000_0000
    ensures Writing(bytes, ShiftIn(acc, w, f), len + w, Fields(fs + [f], w))
  {
    hide Fields, Bits, Writing, ShiftIn;
    WriteDigits(bytes, acc, len, Fields(fs, w), w, f);
    FieldsSnoc(fs, f, w);
  }

  lemma ReadField(bytes: seq<U8>, acc: U32, len: nat, fs: seq<nat>, w: nat)
    requires Reading(bytes, acc, len, Fields(fs, w)) && w <= len
    ensures And(Shr(acc, len - w), Power(w) - 1) < Power(w)
    ensures Reading(bytes, acc, len - w, Fields(fs + [And(Shr(acc, len - w), Power(w) - 1)], w))
  {
    hide Fields, Bits, Reading, Shr, And;
    ReadDigits(bytes, acc, len, Fields(fs, w), w);
    FieldsSnoc(fs, And(Shr(acc, len - w), Power(w) - 1), w);
  }

  /** If the input holds some list, the decoded fields begin it. */
  lemma ReadingBegins(bytes: seq<U8>, v: nat, acc: nat, len: nat, fs: seq<nat>, w: nat, gs: seq<nat>)
    requires v <= |bytes| && Reading(bytes[..v], acc, len, Fields(fs, w)) && |fs| <= |gs|
    requires AllBelow(fs, Power(w)) && Holds(bytes, gs, w, Power(w))
    ensures fs == gs[..|fs|]
  {
    hide Fields, Bits, Stream;
    StreamPrefix(bytes, v);
    var s := Stream(bytes);
    assert s == s[..8 * v] + s[8 * v..];
    Associative(Fields(fs, w), Bits(acc, len), s[8 * v..]);
    SharedFields(fs, gs, w, Bits(acc, len) + s[8 * v..], ZeroDigits(8 * |bytes| - |Fields(gs, w)|));
  }

  /** All fields read: the input holds them exactly if the pending digits are zero, and otherwise holds no list of that length. */
  lemma ReadingEnds(bytes: seq<U8>, acc: U32, len: nat, fs: seq<nat>, w: nat)
    requires Reading(bytes, acc, len, Fields(fs, w)) && len < 8 && AllBelow(fs, Power(w))
    ensures And(acc, Power(len) - 1) == 0 ==> Holds(bytes, fs, w, Power(w))
    ensures And(acc, Power(len) - 1) != 0 ==> forall gs: seq<nat> :: |gs| == |fs| ==> !Holds(bytes, gs, w, Power(w))
  {
    hide Fields, Bits, Stream, And;
    PendingZero(acc, len);
    if And(acc, Power(len) - 1) != 0 {
      forall gs: seq<nat> | |gs| == |fs|
        ensures !Holds(bytes, gs, w, Power(w))
      {
        if Holds(bytes, gs, w, Power(w)) {
          SharedFields(fs, gs, w, Bits(acc, len), ZeroDigits(8 * |bytes| - |Fields(gs, w)|));
          assert false;
        }
      }
    }
  }

  // ---------------------------------------------------------------- the codecs

  /** The number of bytes for n fields. */
  function ByteLength(n: nat, w: nat): nat {
    (n * w + 7) / 8
  }

  lemma LengthBounds(n: nat, u: nat, w: nat)
    requires u <= n
    ensures Span(u, w) <= Span(n, w) <= 8 * ByteLength(n, w) < Span(n, w) + 8
  {
    SpanIsProduct(n, w);
    SpanGrows(u, n, w);
  }

  lemma {:induction false} SpanGrows(u: nat, n: nat, w: nat)
    requires u <= n
    ensures Span(u, w) <= Span(n, w)
  {
    if u < n {
      SpanGrows(u, n - 1, w);
    }
  }

  /** The inner loop of an encoder: whole bytes leave the accumulator. */
  method Drain(out: array<U8>, v: nat, acc: U32, len: nat, ghost s: seq<bool>) returns (v': nat, len': nat)
    requires v <= out.Length && v + len / 8 <= out.Length && len <= 32 && Writing(out[..v], acc, len, s)
    modifies out
    ensures v' == v + len / 8 && len' == len % 8 && Writing(out[..v'], acc, len', s)
    ensures forall k :: 0 <= k < v || v' <= k < out.Length ==> out[k] == old(out[k])
  {
    hide Writing, Low, Shr;
    v', len' := v, len;
    while len' >= 8
      invariant v <= v' <= out.Length && 8 * v' + len' == 8 * v + len
      invariant Writing(out[..v'], acc, len', s)
      invariant forall k :: 0 <= k < v || v' <= k < out.Length ==> out[k] == old(out[k])
    {
      WriteByte(out[..v'], acc, len', s);
      ghost var bytes := out[..v'];
      len' := len' - 8;
      out[v'] := Low(Shr(acc, len'), 8);
      v' := v' + 1;
      assert out[..v'] == bytes + [Low(Shr(acc, len'), 8)];
    }
  }

  /** The tail of an encoder: the pending digits and zeros. */
  method DrainLast(out: array<U8>, v: nat, acc: U32, len: nat, ghost s: seq<bool>, ghost total: nat)
    requires len < 8 && 8 * v + len == |s| && total <= out.Length
    requires |s| <= 8 * total < |s| + 8 && Writing(out[..v], acc, len, s)
    modifies out
    ensures Packs(out[..total], s)
    ensures forall k :: total <= k < out.Length ==> out[k] == old(out[k])
  {
    hide Writing, Low, Shl, Packs;
    WriteLast(out[..v], acc, len, s);
    ghost var bytes := out[..v];
    if len > 0 {
      out[v] := Low(Low(Shl(acc, 8 - len), 32), 8);
      assert out[..total] == bytes + [out[v]];
    }
  }

  ghost predicate ModqFormat(bytes: seq<U8>, x: seq<nat>) {
    Holds(bytes, x, 14, Q)
  }

  lemma FieldWidth()
    ensures Power(14) == 16384
  {
    PowerTable();
    assert Power(14) == 16 * Power(10);
  }

  /** `modq_encode`. */
  method ModqEncode(out: array?<U8>, maxOutLen: nat, x: seq<U16>, logn: nat) returns (len: nat)
    requires |x| == Power(logn) && (out != null ==> maxOutLen <= out.Length)
    modifies out
    ensures var fits := ByteLength(|x|, 14);
            len == if !AllBelow(x, Q) then 0 else if out == null then fits else if fits > maxOutLen then 0 else fits
    ensures out != null && len != 0 ==> ModqFormat(out[..len], x)
    ensures out != null ==> forall k :: len <= k < out.Length ==> out[k] == old(out[k])
  {
    hide Fields, Packs, Writing, Power, ShiftIn;
    for u := 0 to |x|
      invariant AllBelow(x[..u], Q)
    {
      if x[u] >= 12289 {
        return 0;
      }
    }
    assert x[..|x|] == x;
    len := ByteLength(|x|, 14);
    if out == null {
      return;
    }
    if len > maxOutLen {
      return 0;
    }
    ModqWrite(out, len, x);
  }

  /** The writing loop of the encoder. */
  method ModqWrite(out: array<U8>, len: nat, x: seq<U16>)
    requires AllBelow(x, Q) && len == ByteLength(|x|, 14) <= out.Length
    modifies out
    ensures ModqFormat(out[..len], x)
    ensures forall k :: len <= k < out.Length ==> out[k] == old(out[k])
  {
    hide Fields, Packs, Writing, Power, ShiftIn, Span;
    FieldWidth();
    NoSpan(14);
    var acc: U32, accLen: nat, v: nat := 0, 0, 0;
    WritingStarts(out[..0], 14);
    for u := 0 to |x|
      invariant accLen < 8 && 8 * v + accLen == Span(u, 14) && v <= len
      invariant Writing(out[..v], acc, accLen, Fields(x[..u], 14))
      invariant forall k :: len <= k < out.Length ==> out[k] == old(out[k])
    {
      LengthBounds(|x|, u + 1, 14);
      SpanNext(u, 14);
      WriteField(out[..v], acc, accLen, x[..u], 14, x[u]);
      assert x[..u + 1] == x[..u] + [x[u]];
      acc := ShiftIn(acc, 14, x[u]);
      accLen := accLen + 14;
      v, accLen := Drain(out, v, acc, accLen, Fields(x[..u + 1], 14));
    }
    assert x[..|x|] == x;
    LengthBounds(|x|, |x|, 14);
    DrainLast(out, v, acc, accLen, Fields(x, 14), len);
  }

  lemma WritingStarts(bytes: seq<U8>, w: nat)
    requires bytes == []
    ensures Writing(bytes, 0, 0, Fields([], w)) && Reading(bytes, 0, 0, Fields([], w))
  {
  }

  /** `modq_decode`: succeeds exactly when the input starts with an encoding, and then yields what was encoded. */
  method ModqDecode(x: array<U16>, logn: nat, input: seq<U8>) returns (len: nat)
    requires x.Length == Power(logn)
    modifies x
    ensures len == 0 || len == ByteLength(x.Length, 14) <= |input|
    ensures len != 0 ==> ModqFormat(input[..len], x[..])
    ensures len == 0 ==> ByteLength(x.Length, 14) > |input| ||
                         forall y: seq<nat> :: |y| == x.Length ==> !ModqFormat(input[..ByteLength(x.Length, 14)], y)
  {
    hide Fields, Packs, Reading, Power, ShiftIn, And, Shr, Holds;
    var n := x.Length;
    var inLen := ByteLength(n, 14);
    if inLen > |input| {
      return 0;
    }
    FieldWidth();
    ghost var bytes := input[..inLen];
    var acc: U32, accLen: nat, u: nat, v: nat := 0, 0, 0, 0;
    WritingStarts(bytes[..0], 14);
    LengthBounds(n, n, 14);
    while u < n
      invariant u <= n && v <= inLen && 8 * v == Span(u, 14) + accLen
      invariant accLen < 14 && (u == n ==> accLen < 8)
      invariant AllBelow(x[..u], Q) && Reading(bytes[..v], acc, accLen, Fields(x[..u], 14))
      decreases inLen - v
    {
      LengthBounds(n, u + 1, 14);
      NextByte(bytes, v, acc, accLen, x[..u]);
      acc := ShiftIn(acc, 8, input[v]);
      v := v + 1;
      accLen := accLen + 8;
      if accLen >= 14 {
        NextField(bytes, v, acc, accLen, x[..u], n);
        accLen := accLen - 14;
        var w := And(Shr(acc, accLen), 0x3FFF);
        if w >= 12289 {
          return 0;
        }
        ghost var before: seq<nat> := x[..u];
        x[u] := w;
        u := u + 1;
        assert x[..u] == before + [w];
      }
    }
    assert bytes[..v] == bytes && x[..u] == x[..];
    ReadingEnds(bytes, acc, accLen, x[..], 14);
    if And(acc, Power(accLen) - 1) != 0 {
      NotModq(bytes, n);
      return 0;
    }
    len := inLen;
    assert ModqFormat(input[..len], x[..]) by {
      Tightened(bytes, x[..], 14, Power(14), Q);
    }
  }

  lemma NextByte(bytes: seq<U8>, v: nat, acc: U32, len: nat, fs: seq<nat>)
    requires v < |bytes| && len < 14 && Reading(bytes[..v], acc, len, Fields(fs, 14))
    ensures ShiftIn(acc, 8, bytes[v]) < 0x1_0000_0000
    ensures Reading(bytes[..v + 1], ShiftIn(acc, 8, bytes[v]), len + 8, Fields(fs, 14))
  {
    hide Fields, Reading, ShiftIn;
    ReadByte(bytes[..v], acc, len, Fields(fs, 14), bytes[v]);
    assert bytes[..v + 1] == bytes[..v] + [bytes[v]];
  }

  /** One field leaves the accumulator; if it is too large, the input holds no encoding. */
  lemma NextField(bytes: seq<U8>, v: nat, acc: U32, len: nat, fs: seq<nat>, n: nat)
    requires v <= |bytes| && 14 <= len && Reading(bytes[..v], acc, len, Fields(fs, 14)) && AllBelow(fs, Q) && |fs| < n
    ensures var w := And(Shr(acc, len - 14), 0x3FFF);
            && w < 16384
            && Reading(bytes[..v], acc, len - 14, Fields(fs + [w], 14))
            && if w < Q then AllBelow(fs + [w], Q) else forall y: seq<nat> :: |y| == n ==> !ModqFormat(bytes, y)
  {
    hide Fields, Reading, And, Shr, Power, ModqFormat;
    FieldWidth();
    ReadField(bytes[..v], acc, len, fs, 14);
    var w := And(Shr(acc, len - 14), 0x3FFF);
    if w >= Q {
      AllBelowSnoc(fs, w, 14, Q);
      RejectField(bytes, v, acc, len - 14, fs + [w], n);
    }
  }

  lemma Tightened(bytes: seq<U8>, fs: seq<nat>, w: nat, bound: nat, tight: nat)
    requires Holds(bytes, fs, w, bound) && AllBelow(fs, tight)
    ensures Holds(bytes, fs, w, tight)
  {
  }

  lemma Widened(bytes: seq<U8>, y: seq<nat>, w: nat, bound: nat, tight: nat)
    requires tight <= bound
    ensures Holds(bytes, y, w, tight) ==> Holds(bytes, y, w, bound)
  {
  }

  lemma NotModq(bytes: seq<U8>, n: nat)
    requires forall gs: seq<nat> :: |gs| == n ==> !Holds(bytes, gs, 14, Power(14))
    ensures forall y: seq<nat> :: |y| == n ==> !ModqFormat(bytes, y)
  {
    hide Holds, Power;
    FieldWidth();
    forall y: seq<nat> | |y| == n
      ensures !ModqFormat(bytes, y)
    {
      Widened(bytes, y, 14, Power(14), Q);
    }
  }

  lemma IfHeldBegins(bytes: seq<U8>, v: nat, acc: nat, len: nat, fs: seq<nat>, w: nat, gs: seq<nat>)
    requires v <= |bytes| && Reading(bytes[..v], acc, len, Fields(fs, w)) && |fs| <= |gs| && AllBelow(fs, Power(w))
    ensures Holds(bytes, gs, w, Power(w)) ==> fs == gs[..|fs|]
  {
    hide Holds, Reading;
    if Holds(bytes, gs, w, Power(w)) {
      ReadingBegins(bytes, v, acc, len, fs, w, gs);
    }
  }

  /** A field that is too large cannot occur in an encoding. */
  lemma RejectField(bytes: seq<U8>, v: nat, acc: nat, len: nat, fs: seq<nat>, n: nat)
    requires v <= |bytes| && Reading(bytes[..v], acc, len, Fields(fs, 14)) && 0 < |fs| <= n
    requires AllBelow(fs, Power(14)) && Q <= fs[|fs| - 1]
    ensures forall y: seq<nat> :: |y| == n ==> !ModqFormat(bytes, y)
  {
    hide Power, Packs, Reading, Fields, ModqFormat, AllBelow;
    forall y: seq<nat> | |y| == n
      ensures !ModqFormat(bytes, y)
    {
      IfHeldBegins(bytes, v, acc, len, fs, 14, y);
      NotBegun(bytes, fs, y);
    }
  }

  lemma AllBelowSnoc(fs: seq<nat>, f: nat, w: nat, bound: nat)
    requires AllBelow(fs, bound) && bound <= Power(w) && f < Power(w)
    ensures AllBelow(fs + [f], Power(w))
  {
  }

  lemma NotBegun(bytes: seq<U8>, fs: seq<nat>, y: seq<nat>)
    requires 0 < |fs| <= |y| && Q <= fs[|fs| - 1] && (Holds(bytes, y, 14, Power(14)) ==> fs == y[..|fs|])
    ensures !ModqFormat(bytes, y)
  {
    hide Packs, Power, Fields;
    var k := |fs| - 1;
    FieldWidth();
    assert y[..k + 1][k] == y[k];
    Widened(bytes, y, 14, Power(14), Q);
  }

  /** An encoding is decoded to what was encoded, and an accepted input is the encoding of what it decodes to. */
  lemma ModqRoundTrip(a: seq<U8>, b: seq<U8>, x: seq<nat>, y: seq<nat>)
    requires ModqFormat(a, x) && ModqFormat(b, y) && |x| == |y|
    ensures a == b <==> x == y
  {
    FieldWidth();
    HoldsUnique(a, b, x, y, 14, Q);
  }
}
