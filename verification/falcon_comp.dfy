/** Falcon's compressed signature format: a sign, seven low digits, and the rest in unary. */
module FalconComp {
  import opened Common
  import opened BitWords
  import opened FalconBits

  const LIMIT := 2047

  function Abs(x: int): nat {
    if x < 0 then -x else x
  }

  predicate Encodable(x: int) {
    -LIMIT <= x <= LIMIT
  }

  ghost predicate AllEncodable(xs: seq<int>) {
    forall i :: 0 <= i < |xs| ==> Encodable(xs[i])
  }

  // ---------------------------------------------------------------- the code of one value

  function Unary(h: nat): (b: seq<bool>)
    ensures |b| == h + 1
  {
    ZeroDigits(h) + [true]
  }

  function Code(x: int): (b: seq<bool>)
    ensures |b| >= 9
  {
    [x < 0] + Bits(Abs(x), 7) + Unary(Shr(Abs(x), 7))
  }

  /** A code: the sign, the low seven digits of the magnitude, as many zeros as 128 goes into it, and a one. */
  lemma CodeShape(x: int)
    ensures var c, a := Code(x), Abs(x);
            && |c| == 9 + a / 128 && (c[0] <==> x < 0) && Value(c[1..8]) == a % 128
            && (forall i :: 8 <= i < |c| - 1 ==> !c[i]) && c[|c| - 1]
  {
    var c, a := Code(x), Abs(x);
    LowSeven(a);
    PowerTable();
    BitsOfLow(a, 7, 7);
    ValueOfBits(Low(a, 7), 7);
    assert c[1..8] == Bits(a, 7);
  }

  function Codes(xs: seq<int>): seq<bool> {
    if xs == [] then [] else Codes(xs[..|xs| - 1]) + Code(xs[|xs| - 1])
  }

  lemma CodesSnoc(xs: seq<int>, x: int)
    ensures Codes(xs + [x]) == Codes(xs) + Code(x)
  {
    assert (xs + [x])[..|xs|] == xs;
  }

  lemma {:induction false} CodesConcat(xs: seq<int>, ys: seq<int>)
    ensures Codes(xs + ys) == Codes(xs) + Codes(ys)
  {
    hide Code;
    if ys == [] {
      assert xs + ys == xs && Codes(ys) == [] && Codes(xs) + [] == Codes(xs);
    } else {
      var n := |ys| - 1;
      var y, head := ys[n], ys[..n];
      assert ys == head + [y] && xs + ys == xs + head + [y];
      CodesConcat(xs, head);
      CodesSnoc(xs + head, y);
      CodesSnoc(head, y);
      hide *;
      Associative(Codes(xs), Codes(head), Code(y));
    }
  }

  /** The value whose low digits and unary part are given. */
  lemma SplitAbs(v: nat)
    ensures v == 128 * Shr(v, 7) + Low(v, 7) && Low(v, 7) < 128
  {
    LowSeven(v);
  }

  lemma LowSeven(v: nat)
    ensures Shr(v, 7) == v / 128 && Low(v, 7) == v % 128
  {
    var v1 := v / 2;
    var v2 := v1 / 2;
    var v3 := v2 / 2;
    var v4 := v3 / 2;
    var v5 := v4 / 2;
    var v6 := v5 / 2;
    assert Shr(v, 7) == Shr(v1, 6) == Shr(v2, 5) == Shr(v3, 4) == Shr(v4, 3) == Shr(v5, 2) == Shr(v6, 1) == v6 / 2;
    assert Low(v6, 1) == v6 % 2;
    assert Low(v5, 2) == 2 * Low(v6, 1) + v5 % 2;
    assert Low(v4, 3) == 2 * Low(v5, 2) + v4 % 2;
    assert Low(v3, 4) == 2 * Low(v4, 3) + v3 % 2;
    assert Low(v2, 5) == 2 * Low(v3, 4) + v2 % 2;
    assert Low(v1, 6) == 2 * Low(v2, 5) + v1 % 2;
    assert Low(v, 7) == 2 * Low(v1, 6) + v % 2;
  }

  /** A unary part ends at its first one. */
  lemma UnaryCut(g: nat, h: nat, s: seq<bool>, t: seq<bool>)
    requires Unary(g) + s == Unary(h) + t
    ensures g == h && s == t
  {
    FirstOne(g, s);
    FirstOne(h, t);
    if g == h {
      Cut(Unary(g), s, Unary(h), t);
    }
  }

  lemma FirstOne(h: nat, s: seq<bool>)
    ensures (Unary(h) + s)[h] && forall i :: 0 <= i < h ==> !(Unary(h) + s)[i]
  {
  }

  /** No code is the beginning of another one. */
  lemma CodeCut(x: int, y: int, s: seq<bool>, t: seq<bool>)
    requires Code(x) + s == Code(y) + t
    ensures x == y && s == t
  {
    var a, b := Abs(x), Abs(y);
    hide Shr, Unary, Abs;
    CodeParts(x, s);
    CodeParts(y, t);
    Cut([x < 0], Bits(a, 7) + (Unary(Shr(a, 7)) + s), [y < 0], Bits(b, 7) + (Unary(Shr(b, 7)) + t));
    Cut(Bits(a, 7), Unary(Shr(a, 7)) + s, Bits(b, 7), Unary(Shr(b, 7)) + t);
    UnaryCut(Shr(a, 7), Shr(b, 7), s, t);
    SameSeven(a, b);
    SignAndAbs(x, y);
  }

  lemma SameSeven(a: nat, b: nat)
    requires Bits(a, 7) == Bits(b, 7) && Shr(a, 7) == Shr(b, 7)
    ensures a == b
  {
    hide Bits, Shr, Low;
    SplitAbs(a);
    SplitAbs(b);
    BitsOfLow(a, 7, 7);
    BitsOfLow(b, 7, 7);
    ValueOfBits(Low(a, 7), 7);
    ValueOfBits(Low(b, 7), 7);
  }

  lemma SignAndAbs(x: int, y: int)
    requires Abs(x) == Abs(y) && [x < 0] == [y < 0]
    ensures x == y
  {
    assert [x < 0][0] == [y < 0][0];
  }

  /** Code strings that begin alike agree on the values they share. */
  lemma {:induction false} SharedCodes(xs: seq<int>, ys: seq<int>, s: seq<bool>, t: seq<bool>)
    requires |xs| <= |ys| && Codes(xs) + s == Codes(ys) + t
    ensures xs == ys[..|xs|] && s == Codes(ys[|xs|..]) + t
  {
    hide Code;
    if xs == [] {
      assert Codes(xs) + s == s && ys[0..] == ys;
    } else {
      var n := |xs| - 1;
      var x := xs[n];
      Associative(Codes(xs[..n]), Code(x), s);
      SharedCodes(xs[..n], ys, Code(x) + s, t);
      var y, tail := ys[n], ys[n + 1..];
      assert ys[n..] == [y] + tail;
      CodesConcat([y], tail);
      OneCode(y);
      Associative(Code(y), Codes(tail), t);
      CodeCut(x, y, s, Codes(tail) + t);
      assert xs == xs[..n] + [x] && ys[..n + 1] == ys[..n] + [y];
    }
  }

  lemma OneCode(y: int)
    ensures Codes([y]) == Code(y)
  {
    assert [y][..0] == [] && [] + Code(y) == Code(y);
  }

  ghost predicate CompFormat(bytes: seq<U8>, xs: seq<int>) {
    AllEncodable(xs) && Packs(bytes, Codes(xs))
  }

  /** The beginning of an input holds at most one list of a given length, and that list has one encoding. */
  lemma CompUnique(input: seq<U8>, k: nat, l: nat, xs: seq<int>, ys: seq<int>)
    requires k <= |input| && l <= |input| && |xs| == |ys|
    requires CompFormat(input[..k], xs) && CompFormat(input[..l], ys)
    ensures xs == ys && k == l
  {
    hide Codes, Stream;
    var s := FormatStarts(input, k, xs);
    var t := FormatStarts(input, l, ys);
    SharedCodes(xs, ys, s, t);
    assert ys[..|xs|] == ys;
  }

  /** An encoded list begins the digits of the whole input. */
  lemma FormatStarts(input: seq<U8>, k: nat, xs: seq<int>) returns (t: seq<bool>)
    requires k <= |input| && Packs(input[..k], Codes(xs))
    ensures Stream(input) == Codes(xs) + t
  {
    hide Codes;
    StreamPrefix(input, k);
    var z := ZeroDigits(8 * k - |Codes(xs)|);
    var rest := Stream(input)[8 * k..];
    assert Stream(input) == Stream(input)[..8 * k] + rest;
    Associative(Codes(xs), z, rest);
    t := z + rest;
  }

  // ---------------------------------------------------------------- comp_encode

  lemma CodeDigits(x: int)
    requires Encodable(x)
    ensures Shr(Abs(x), 7) <= 15 && Abs(x) < 0x8000
    ensures And(Abs(x), 127) == Low(Abs(x), 7) < 128
    ensures Bits(if x < 0 then 1 else 0, 1) + Bits(Low(Abs(x), 7), 7) + Bits(1, Shr(Abs(x), 7) + 1) == Code(x)
  {
    var a := Abs(x);
    SplitAbs(a);
    PowerTable();
    AndMask(a, 7);
    BitsOfLow(a, 7, 7);
    OneAfterZeros(Shr(a, 7));
    assert Bits(if x < 0 then 1 else 0, 1) == [x < 0];
  }

  lemma {:induction false} OneAfterZeros(h: nat)
    ensures Bits(1, h + 1) == Unary(h) && 1 < Power(h + 1)
  {
    ZeroBits(h);
    assert 1 / 2 == 0 && Bits(1, h + 1) == Bits(0, h) + [true];
  }

  /** The writes of one value. */
  method WriteValue(acc: U32, accLen: nat, x: I16, ghost bytes: seq<U8>, ghost xs: seq<int>) returns (acc': U32, accLen': nat)
    requires Encodable(x) && accLen < 8 && Writing(bytes, acc, accLen, Codes(xs))
    ensures accLen' <= 31 && Writing(bytes, acc', accLen', Codes(xs + [x]))
    ensures accLen' == accLen + |Code(x)|
  {
    hide Writing, Codes, Code, ShiftIn, Shr, And, Power, Bits;
    var t: nat := if x < 0 then -x else x;
    assert t == Abs(x);
    CodeDigits(x);
    PowerTable();
    ghost var s := Codes(xs);
    var sign: nat := if x < 0 then 1 else 0;
    WriteDigits(bytes, acc, accLen, s, 1, sign);
    acc' := ShiftIn(acc, 1, sign);
    WriteDigits(bytes, acc', accLen + 1, s + Bits(sign, 1), 7, And(t, 127));
    acc' := ShiftIn(acc', 7, And(t, 127));
    var w := Shr(t, 7);
    accLen' := accLen + 8;
    OneAfterZeros(w);
    WriteDigits(bytes, acc', accLen', s + Bits(sign, 1) + Bits(And(t, 127), 7), w + 1, 1);
    acc' := ShiftIn(acc', w + 1, 1);
    accLen' := accLen' + (w + 1);
    CodesSnoc(xs, x);
    Regrouped(s, Bits(sign, 1), Bits(And(t, 127), 7), Bits(1, w + 1));
  }

  lemma Regrouped(s: seq<bool>, a: seq<bool>, b: seq<bool>, c: seq<bool>)
    ensures s + a + b + c == s + (a + b + c)
  {
  }

  /** What is in the buffer, if there is one: the bytes counted so far. */
  ghost predicate Filled(out: array?<U8>, maxLen: nat, v: nat, bytes: seq<U8>)
    reads out
  {
    |bytes| == v && (out != null ==> maxLen <= out.Length && v <= maxLen && out[..v] == bytes)
  }

  /** The byte loop of the encoder, with its check of the room left. */
  method DrainChecked(out: array?<U8>, maxLen: nat, v: nat, acc: U32, len: nat, ghost bytes: seq<U8>, ghost s: seq<bool>)
    returns (ok: bool, v': nat, len': nat, ghost bytes': seq<U8>)
    requires Filled(out, maxLen, v, bytes) && Writing(bytes, acc, len, s) && len <= 32
    modifies out
    ensures Filled(out, maxLen, v', bytes') && v <= v'
    ensures ok ==> len' < 8 && Writing(bytes', acc, len', s)
    ensures !ok ==> out != null && 8 * maxLen < |s|
    ensures out != null ==> forall k :: v' <= k < out.Length ==> out[k] == old(out[k])
  {
    hide Low, Shr, Stream, Bits;
    v', len', bytes' := v, len, bytes;
    while len' >= 8
      invariant Filled(out, maxLen, v', bytes') && v <= v' && len' <= 32 && Writing(bytes', acc, len', s)
      invariant out != null ==> forall k :: v' <= k < out.Length ==> out[k] == old(out[k])
    {
      WriteByte(bytes', acc, len', s);
      len' := len' - 8;
      if out != null {
        if v' >= maxLen {
          return false, v', len', bytes';
        }
        out[v'] := Low(Shr(acc, len'), 8);
        assert out[..v' + 1] == out[..v'] + [Low(Shr(acc, len'), 8)];
      }
      bytes' := bytes' + [Low(Shr(acc, len'), 8)];
      v' := v' + 1;
    }
    ok := true;
  }

  lemma {:induction false} CodesGrow(xs: seq<int>, k: nat)
    requires k <= |xs|
    ensures |Codes(xs[..k])| <= |Codes(xs)|
  {
    hide Code;
    CodesConcat(xs[..k], xs[k..]);
    assert xs == xs[..k] + xs[k..];
  }

  /** The number of bytes of an encoding. */
  function CompLength(xs: seq<int>): nat {
    (|Codes(xs)| + 7) / 8
  }

  /** `comp_encode`; without a buffer only the length is computed. */
  method CompEncode(out: array?<U8>, maxOutLen: nat, x: seq<I16>, logn: nat) returns (len: nat)
    requires |x| == Power(logn) && (out != null ==> maxOutLen <= out.Length)
    modifies out
    ensures len == if !AllEncodable(x) || (out != null && CompLength(x) > maxOutLen) then 0 else CompLength(x)
    ensures out != null && len != 0 ==> CompFormat(out[..len], x)
    ensures out != null ==> forall k :: maxOutLen <= k < out.Length ==> out[k] == old(out[k])
  {
    hide Codes, Code, Packs, Writing, Power, Filled;
    for u := 0 to |x|
      invariant AllEncodable(x[..u])
    {
      if x[u] < -2047 || x[u] > 2047 {
        return 0;
      }
    }
    assert x[..|x|] == x;
    var acc: U32, accLen: nat, v: nat := 0, 0, 0;
    ghost var bytes: seq<U8> := [];
    CompStarts(out, maxOutLen, x[..0]);
    for u := 0 to |x|
      invariant accLen < 8 && Filled(out, maxOutLen, v, bytes) && Writing(bytes, acc, accLen, Codes(x[..u]))
      invariant out != null ==> forall k :: maxOutLen <= k < out.Length ==> out[k] == old(out[k])
    {
      acc, accLen := WriteValue(acc, accLen, x[u], bytes, x[..u]);
      assert x[..u + 1] == x[..u] + [x[u]];
      var ok;
      ok, v, accLen, bytes := DrainChecked(out, maxOutLen, v, acc, accLen, bytes, Codes(x[..u + 1]));
      FilledBelow(out, maxOutLen, v, bytes);
      if !ok {
        CodesGrow(x, u + 1);
        return 0;
      }
    }
    len := CompTail(out, maxOutLen, v, acc, accLen, bytes, x);
  }

  lemma FilledBelow(out: array?<U8>, maxLen: nat, v: nat, bytes: seq<U8>)
    requires Filled(out, maxLen, v, bytes)
    ensures out != null ==> v <= maxLen
  {
  }

  lemma CompStarts(out: array?<U8>, maxLen: nat, xs: seq<int>)
    requires xs == [] && (out != null ==> maxLen <= out.Length)
    ensures Filled(out, maxLen, 0, []) && Writing([], 0, 0, Codes(xs))
  {
    NothingYet([]);
  }

  /** The last, partial byte. */
  method CompTail(out: array?<U8>, maxLen: nat, v: nat, acc: U32, len: nat, ghost bytes: seq<U8>, ghost xs: seq<int>) returns (v': nat)
    requires AllEncodable(xs) && len < 8 && Filled(out, maxLen, v, bytes) && Writing(bytes, acc, len, Codes(xs))
    modifies out
    ensures v' == if out != null && CompLength(xs) > maxLen then 0 else CompLength(xs)
    ensures out != null && v' != 0 ==> CompFormat(out[..v'], xs)
    ensures out != null ==> forall k :: maxLen <= k < out.Length ==> out[k] == old(out[k])
  {
    hide Codes, Low, Shl, Packs, Stream, Bits;
    v' := v;
    WriteLast(bytes, acc, len, Codes(xs));
    if len > 0 {
      if out != null {
        if v' >= maxLen {
          return 0;
        }
        out[v'] := Low(Low(Shl(acc, 8 - len), 32), 8);
        assert out[..v' + 1] == bytes + [out[v']];
      }
      v' := v' + 1;
    }
  }

  // ---------------------------------------------------------------- comp_decode

  /** No beginning of the input encodes n values. */
  ghost predicate NoComp(input: seq<U8>, n: nat) {
    forall k: nat, y: seq<int> :: k <= |input| && |y| == n ==> !CompFormat(input[..k], y)
  }

  /** The digits behind the decoded values cannot start with a code. */
  ghost predicate Stuck(rest: seq<bool>) {
    forall y: int, t: seq<bool> :: Encodable(y) ==> Code(y) + t != rest
  }

  lemma StuckRejects(input: seq<U8>, xs: seq<int>, rest: seq<bool>, n: nat)
    requires Stream(input) == Codes(xs) + rest && |xs| < n && Stuck(rest)
    ensures NoComp(input, n)
  {
    hide Codes, Code, Stream, Packs, Stuck;
    forall k: nat, y: seq<int> | k <= |input| && |y| == n
      ensures !CompFormat(input[..k], y)
    {
      if CompFormat(input[..k], y) {
        NotStuck(input, k, xs, rest, y);
        assert false;
      }
    }
  }

  lemma NotStuck(input: seq<U8>, k: nat, xs: seq<int>, rest: seq<bool>, y: seq<int>)
    requires Stream(input) == Codes(xs) + rest && |xs| < |y| && k <= |input| && CompFormat(input[..k], y)
    ensures !Stuck(rest)
  {
    hide Codes, Code, Stream;
    var t := FormatStarts(input, k, y);
    SharedCodes(xs, y, rest, t);
    var m := |xs|;
    var tail := y[m + 1..];
    assert y[m..] == [y[m]] + tail;
    CodesConcat([y[m]], tail);
    OneCode(y[m]);
    Associative(Code(y[m]), Codes(tail), t);
    assert Encodable(y[m]) && Code(y[m]) + (Codes(tail) + t) == rest;
  }

  /** A sign, seven low digits and c zeros: the beginning of a value that is being read. */
  function Head(sign: bool, low: nat, c: nat): (b: seq<bool>)
    ensures |b| == 8 + c
  {
    [sign] + Bits(low, 7) + ZeroDigits(c)
  }

  lemma ShortIsStuck(rest: seq<bool>)
    requires |rest| < 9
    ensures Stuck(rest)
  {
    hide Code;
    forall y: int, t: seq<bool> | Encodable(y)
      ensures Code(y) + t != rest
    {
      assert |Code(y) + t| >= 9;
    }
  }

  /** What a code that starts with the given head looks like. */
  lemma HeadOfCode(sign: bool, low: nat, c: nat, s: seq<bool>, y: int, t: seq<bool>)
    requires low < 128 && Code(y) + t == Head(sign, low, c) + s && Encodable(y)
    ensures (y < 0) == sign && Low(Abs(y), 7) == low
    ensures c <= Shr(Abs(y), 7) <= 15 && Unary(Shr(Abs(y), 7)) + t == ZeroDigits(c) + s
    ensures Shr(Abs(y), 7) + 1 + |t| == c + |s|
  {
    var a := Abs(y);
    CodeDigits(y);
    CodeParts(y, t);
    HeadParts(sign, low, c, s);
    hide Shr, Unary, Abs, Bits, Low, Code, Head;
    Cut([y < 0], Bits(a, 7) + (Unary(Shr(a, 7)) + t), [sign], Bits(low, 7) + (ZeroDigits(c) + s));
    Cut(Bits(a, 7), Unary(Shr(a, 7)) + t, Bits(low, 7), ZeroDigits(c) + s);
    assert [y < 0][0] == [sign][0];
    SameLow(a, low);
    ZerosInUnary(Shr(a, 7), c, t, s);
    assert |Unary(Shr(a, 7)) + t| == |ZeroDigits(c) + s|;
  }

  lemma CodeParts(x: int, s: seq<bool>)
    ensures Code(x) + s == [x < 0] + (Bits(Abs(x), 7) + (Unary(Shr(Abs(x), 7)) + s))
  {
    hide Unary, Shr, Abs, Bits;
  }

  lemma HeadParts(sign: bool, low: nat, c: nat, s: seq<bool>)
    ensures Head(sign, low, c) + s == [sign] + (Bits(low, 7) + (ZeroDigits(c) + s))
  {
    hide Bits;
  }

  lemma SameLow(a: nat, low: nat)
    requires low < 128 && Bits(a, 7) == Bits(low, 7)
    ensures Low(a, 7) == low
  {
    hide Bits, Low;
    PowerTable();
    BitsOfLow(a, 7, 7);
    ValueOfBits(Low(a, 7), 7);
    ValueOfBits(low, 7);
  }

  lemma ZerosInUnary(h: nat, c: nat, t: seq<bool>, s: seq<bool>)
    requires Unary(h) + t == ZeroDigits(c) + s
    ensures c <= h
  {
    FirstOne(h, t);
    if h < c {
      NotAmongZeros(c, s, h);
      assert false;
    }
  }

  lemma NotAmongZeros(c: nat, s: seq<bool>, h: nat)
    requires h < c
    ensures !(ZeroDigits(c) + s)[h]
  {
  }

  /** The input ends inside the unary part. */
  lemma EndlessIsStuck(sign: bool, low: nat, c: nat)
    requires low < 128
    ensures Stuck(Head(sign, low, c))
  {
    hide Code, Unary, Shr, Abs;
    forall y: int, t: seq<bool> | Encodable(y)
      ensures Code(y) + t != Head(sign, low, c)
    {
      if Code(y) + t == Head(sign, low, c) {
        assert Head(sign, low, c) + [] == Head(sign, low, c);
        HeadOfCode(sign, low, c, [], y, t);
        assert false;
      }
    }
  }

  /** Sixteen zeros are more than any value has. */
  lemma LongIsStuck(sign: bool, low: nat, c: nat, s: seq<bool>)
    requires low < 128 && c >= 16
    ensures Stuck(Head(sign, low, c) + s)
  {
    hide Code, Unary, Shr, Abs, Head;
    forall y: int, t: seq<bool> | Encodable(y)
      ensures Code(y) + t != Head(sign, low, c) + s
    {
      if Code(y) + t == Head(sign, low, c) + s {
        HeadOfCode(sign, low, c, s, y, t);
        assert false;
      }
    }
  }

  /** Minus zero is not a code. */
  lemma NegativeZeroIsStuck(s: seq<bool>)
    ensures Stuck(Head(true, 0, 0) + [true] + s)
  {
    hide Code, Unary, Shr, Abs, Head, Low;
    var h := Head(true, 0, 0);
    forall y: int, t: seq<bool> | Encodable(y)
      ensures Code(y) + t != h + [true] + s
    {
      if Code(y) + t == h + [true] + s {
        Associative(h, [true], s);
        HeadOfCode(true, 0, 0, [true] + s, y, t);
        NoZeros(s);
        UnaryCut(Shr(Abs(y), 7), 0, t, s);
        SplitAbs(Abs(y));
        AbsPositive(y);
        assert false;
      }
    }
  }

  lemma NoZeros(s: seq<bool>)
    ensures ZeroDigits(0) + ([true] + s) == Unary(0) + s
  {
  }

  lemma AbsPositive(y: int)
    requires y < 0
    ensures Abs(y) > 0
  {
  }

  function WithSign(sign: bool, m: int): int {
    if sign then -m else m
  }

  /** A head, a one, and no minus zero: the code of a value. */
  lemma HeadIsCode(sign: bool, low: nat, c: nat, m: nat)
    requires low < 128 && m == low + 128 * c && (sign ==> m != 0)
    ensures Head(sign, low, c) + [true] == Code(WithSign(sign, m))
  {
    var x := WithSign(sign, m);
    LowSeven(m);
    assert m / 128 == c && m % 128 == low;
    BitsOfLow(m, 7, 7);
    assert [x < 0] == [sign];
  }

  lemma RestOf(input: seq<U8>, v: nat, acc: nat, len: nat, s: seq<bool>)
    requires v <= |input| && Reading(input[..v], acc, len, s)
    ensures Stream(input) == s + (Bits(acc, len) + Stream(input)[8 * v..])
    ensures v == |input| ==> Stream(input) == s + Bits(acc, len)
  {
    hide Bits, Stream;
    StreamPrefix(input, v);
    var all := Stream(input);
    assert all == all[..8 * v] + all[8 * v..];
    Associative(s, Bits(acc, len), all[8 * v..]);
    assert v == |input| ==> all[8 * v..] == [] && Bits(acc, len) + [] == Bits(acc, len);
  }

  /** Too few digits are left for another value. */
  lemma RejectShort(input: seq<U8>, acc: nat, len: nat, xs: seq<int>, n: nat)
    requires Reading(input[..|input|], acc, len, Codes(xs)) && len < 8 && |xs| < n
    ensures NoComp(input, n)
  {
    hide Codes, Bits, Stream, Reading, Stuck, NoComp;
    RestOf(input, |input|, acc, len, Codes(xs));
    ShortIsStuck(Bits(acc, len));
    StuckRejects(input, xs, Bits(acc, len), n);
  }

  lemma RejectHead(input: seq<U8>, v: nat, acc: nat, len: nat, xs: seq<int>, n: nat, sign: bool, low: nat, c: nat)
    requires v <= |input| && Reading(input[..v], acc, len, Codes(xs) + Head(sign, low, c)) && |xs| < n && low < 128
    requires c >= 16 || (v == |input| && len == 0)
    ensures NoComp(input, n)
  {
    hide Codes, Bits, Stream, Reading, Stuck, NoComp, Head;
    var h, s := Head(sign, low, c), Bits(acc, len) + Stream(input)[8 * v..];
    RestOf(input, v, acc, len, Codes(xs) + h);
    if c >= 16 {
      Associative(Codes(xs), h, s);
      LongIsStuck(sign, low, c, s);
      StuckRejects(input, xs, h + s, n);
    } else {
      assert Bits(acc, 0) == [] && Codes(xs) + h + [] == Codes(xs) + h;
      EndlessIsStuck(sign, low, c);
      StuckRejects(input, xs, h, n);
    }
  }

  lemma RejectNegativeZero(input: seq<U8>, v: nat, acc: nat, len: nat, xs: seq<int>, n: nat)
    requires v <= |input| && Reading(input[..v], acc, len, Codes(xs) + (Head(true, 0, 0) + [true])) && |xs| < n
    ensures NoComp(input, n)
  {
    hide Codes, Bits, Stream, Reading, Stuck, NoComp, Head;
    var h, s := Head(true, 0, 0) + [true], Bits(acc, len) + Stream(input)[8 * v..];
    RestOf(input, v, acc, len, Codes(xs) + h);
    Associative(Codes(xs), h, s);
    NegativeZeroIsStuck(s);
    StuckRejects(input, xs, h + s, n);
  }

  /** The first eight digits of a value: sign and low part, read off the accumulator. */
  lemma ReadHead(bytes: seq<U8>, acc: U32, len: nat, s: seq<bool>)
    requires Reading(bytes, acc, len + 8, s)
    ensures And(Shr(acc, len), 127) < 128
    ensures Reading(bytes, acc, len, s + Head(And(Shr(acc, len), 128) != 0, And(Shr(acc, len), 127), 0))
  {
    hide Stream;
    PowerTable();
    var b := Shr(acc, len);
    HeadByte(b);
    hide Bits, Shr, And, Head;
    BitsSplit(acc, 8, len);
    Associative(s, Bits(b, 8), Bits(acc, len));
  }

  lemma HeadByte(b: nat)
    ensures And(b, 127) < 128 && Bits(b, 8) == Head(And(b, 128) != 0, And(b, 127), 0)
  {
    hide And;
    PowerTable();
    AndPower(b, 7);
    AndMask(b, 7);
    LowSeven(b);
    BitsSplit(b, 1, 7);
    BitsOfLow(b, 7, 7);
    assert Bits(Shr(b, 7), 1) == [Shr(b, 7) % 2 == 1];
  }

  /** One digit of the unary part. */
  lemma ReadUnary(bytes: seq<U8>, acc: U32, len: nat, s: seq<bool>)
    requires Reading(bytes, acc, len + 1, s)
    ensures Reading(bytes, acc, len, s + [And(Shr(acc, len), 1) != 0])
  {
    PowerTable();
    ReadDigits(bytes, acc, len + 1, s, 1);
    assert Bits(And(Shr(acc, len), 1), 1) == [And(Shr(acc, len), 1) != 0];
  }

  lemma AnotherZero(s: seq<bool>, sign: bool, low: nat, c: nat)
    ensures s + Head(sign, low, c) + [false] == s + Head(sign, low, c + 1)
  {
  }

  /** Reads one value, or finds that no encoding of n values begins the input. */
  method DecodeValue(input: seq<U8>, v: nat, acc: U32, accLen: nat, ghost xs: seq<int>, ghost n: nat)
    returns (ok: bool, v': nat, acc': U32, accLen': nat, value: I16)
    requires v <= |input| && accLen < 8 && Reading(input[..v], acc, accLen, Codes(xs)) && |xs| < n
    ensures !ok ==> NoComp(input, n)
    ensures ok ==> v < v' <= |input| && accLen' < 8 && Encodable(value) && Reading(input[..v'], acc', accLen', Codes(xs + [value]))
  {
    hide Codes, Code, Reading, ShiftIn, And, Shr, Head, NoComp;
    v', acc', accLen', value := v, acc, accLen, 0;
    if v' >= |input| {
      RejectShort(input, acc, accLen, xs, n);
      return false, v', acc', accLen', value;
    }
    ghost var s := Codes(xs);
    ReadByte(input[..v'], acc', accLen', s, input[v']);
    assert input[..v' + 1] == input[..v'] + [input[v']];
    acc' := ShiftIn(acc', 8, input[v']);
    v' := v' + 1;
    ReadHead(input[..v'], acc', accLen', s);
    var b := Shr(acc', accLen');
    var sign := And(b, 128) != 0;
    var m: nat := And(b, 127);
    ghost var low := m;
    ghost var c := 0;
    while true
      invariant v < v' <= |input| && accLen' < 8 && m == low + 128 * c <= LIMIT && low < 128
      invariant Reading(input[..v'], acc', accLen', s + Head(sign, low, c))
      decreases LIMIT - m
    {
      if accLen' == 0 {
        if v' >= |input| {
          RejectHead(input, v', acc', accLen', xs, n, sign, low, c);
          return false, v', acc', accLen', value;
        }
        ReadByte(input[..v'], acc', accLen', s + Head(sign, low, c), input[v']);
        assert input[..v' + 1] == input[..v'] + [input[v']];
        acc' := ShiftIn(acc', 8, input[v']);
        v' := v' + 1;
        accLen' := 8;
      }
      accLen' := accLen' - 1;
      ReadUnary(input[..v'], acc', accLen', s + Head(sign, low, c));
      if And(Shr(acc', accLen'), 1) != 0 {
        break;
      }
      AnotherZero(s, sign, low, c);
      m := m + 128;
      c := c + 1;
      if m > LIMIT {
        RejectHead(input, v', acc', accLen', xs, n, sign, low, c);
        return false, v', acc', accLen', value;
      }
    }
    Associative(s, Head(sign, low, c), [true]);
    if sign && m == 0 {
      RejectNegativeZero(input, v', acc', accLen', xs, n);
      return false, v', acc', accLen', value;
    }
    HeadIsCode(sign, low, c, m);
    value := WithSign(sign, m);
    CodesSnoc(xs, value);
    ok := true;
  }

  /** All values read: the pending digits decide. */
  lemma CompEnds(input: seq<U8>, v: nat, acc: U32, len: nat, xs: seq<int>)
    requires v <= |input| && len < 8 && Reading(input[..v], acc, len, Codes(xs)) && AllEncodable(xs)
    ensures And(acc, Power(len) - 1) == 0 ==> CompFormat(input[..v], xs)
    ensures And(acc, Power(len) - 1) != 0 ==> NoComp(input, |xs|)
  {
    hide Codes, Bits, Stream, And;
    PendingZero(acc, len);
    if And(acc, Power(len) - 1) != 0 {
      forall k: nat, y: seq<int> | k <= |input| && |y| == |xs|
        ensures !CompFormat(input[..k], y)
      {
        if CompFormat(input[..k], y) {
          PaddingIsZero(input, v, acc, len, xs, k, y);
          assert false;
        }
      }
    }
  }

  lemma PaddingIsZero(input: seq<U8>, v: nat, acc: nat, len: nat, xs: seq<int>, k: nat, y: seq<int>)
    requires v <= |input| && len < 8 && Reading(input[..v], acc, len, Codes(xs))
    requires k <= |input| && |y| == |xs| && CompFormat(input[..k], y)
    ensures Bits(acc, len) == ZeroDigits(len)
  {
    hide Codes, Bits, Stream;
    var t := FormatStarts(input, k, y);
    RestOf(input, v, acc, len, Codes(xs));
    SharedCodes(xs, y, Bits(acc, len) + Stream(input)[8 * v..], t);
    assert y[..|xs|] == y;
    assert |Stream(input[..v])| == 8 * v && |Stream(input[..k])| == 8 * k;
    assert k == v;
    Cut(Codes(xs), Bits(acc, len), Codes(xs), ZeroDigits(8 * k - |Codes(y)|));
  }

  /** `comp_decode`: succeeds exactly when the input begins with an encoding, and then yields its values and its length. */
  method CompDecode(x: array<I16>, logn: nat, input: seq<U8>) returns (len: nat)
    requires x.Length == Power(logn)
    modifies x
    ensures len <= |input| && (len != 0 ==> CompFormat(input[..len], x[..]))
    ensures len == 0 ==> NoComp(input, x.Length)
  {
    hide Codes, Code, Reading, NoComp, CompFormat, Power, And, Encodable;
    var acc: U32, accLen: nat, v: nat, u: nat := 0, 0, 0, 0;
    DecodeStarts(input[..0], x[..0]);
    while u < x.Length
      invariant u <= x.Length && v <= |input| && accLen < 8 && u <= v
      invariant AllEncodable(x[..u]) && Reading(input[..v], acc, accLen, Codes(x[..u]))
    {
      ghost var xs: seq<int> := x[..u];
      var ok, value;
      ok, v, acc, accLen, value := DecodeValue(input, v, acc, accLen, xs, x.Length);
      if !ok {
        return 0;
      }
      x[u] := value;
      u := u + 1;
      assert x[..u] == xs + [value];
    }
    assert x[..u] == x[..];
    CompEnds(input, v, acc, accLen, x[..]);
    if And(acc, Power(accLen) - 1) != 0 {
      return 0;
    }
    len := v;
  }

  lemma DecodeStarts(bytes: seq<U8>, xs: seq<int>)
    requires bytes == [] && xs == []
    ensures Reading(bytes, 0, 0, Codes(xs))
  {
    NothingYet(bytes);
  }
}
