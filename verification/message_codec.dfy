/** The encoding of a chat message: identity, nonce in groups of seven bits, content. */
module MessageCodec {
  import opened Common
  import opened Division

  const MAX_MESSAGE_SIZE := 1024

  // ---------------------------------------------------------------- numbers

  /** `base128_encode`: seven bits a byte, low bits first, the top bit set on all but the last. */
  function Base128(value: U64): (b: seq<Byte>)
    decreases value
  {
    if value < 128 then [value] else [value % 128 + 128] + Base128(value / 128)
  }

  function Pow128(k: nat): nat {
    if k == 0 then 1 else 128 * Pow128(k - 1)
  }

  lemma {:induction false} Base128Length(value: U64, k: nat)
    requires value < Pow128(k + 1)
    ensures 1 <= |Base128(value)| <= k + 1
    decreases k
  {
    if value >= 128 {
      Base128Length(value / 128, k - 1);
    }
  }

  /** The number whose digits to base 128 are the bytes without their top bits. */
  function Digits128(b: seq<Byte>): nat {
    if b == [] then 0 else b[0] % 128 + 128 * Digits128(b[1..])
  }

  /** One number: every byte but the last has its top bit set. */
  ghost predicate IsNumeral(b: seq<Byte>) {
    b != [] && b[|b| - 1] < 128 && forall k :: 0 <= k < |b| - 1 ==> 128 <= b[k]
  }

  lemma {:induction false} Base128Value(value: U64)
    ensures IsNumeral(Base128(value)) && Digits128(Base128(value)) == value
    decreases value
  {
    if value >= 128 {
      var t := Base128(value / 128);
      Base128Value(value / 128);
      assert Base128(value)[1..] == t;
      DivModUnique(value % 128 + 128, 128, 1, value % 128);
    }
  }

  lemma Base128Short(value: U64)
    ensures |Base128(value)| <= 10
  {
    assert Pow128(4) == 0x1000_0000 && Pow128(8) == 0x1000_0000 * 0x1000_0000;
    assert Pow128(10) == 128 * 128 * Pow128(8);
    Base128Length(value, 9);
  }

  /** `base128_encode`. */
  method EncodeBase128(value: U64, buffer: seq<Byte>) returns (result: seq<Byte>)
    ensures result == buffer + Base128(value)
  {
    var rest: U64 := value;
    result := buffer;
    while rest >= 128
      invariant result + Base128(rest) == buffer + Base128(value)
      decreases rest
    {
      ghost var before := result;
      result := result + [rest % 128 + 128];
      assert before + Base128(rest) == result + Base128(rest / 128);
      rest := rest / 128;
    }
    result := result + [rest];
  }

  lemma {:induction false} DigitsSnoc(b: seq<Byte>, x: Byte)
    ensures Digits128(b + [x]) == Digits128(b) + x % 128 * Pow128(|b|)
    ensures Digits128(b) < Pow128(|b|)
  {
    if b == [] {
      assert (b + [x])[1..] == [];
    } else {
      var t := b[1..];
      DigitsSnoc(t, x);
      assert (b + [x])[1..] == t + [x] && (b + [x])[0] == b[0];
      FactorOut(x % 128, Pow128(|t|));
    }
  }

  lemma FactorOut(x: nat, p: nat)
    ensures 128 * (x * p) == x * (128 * p)
  {
  }

  lemma NineDigits(k: nat)
    requires k <= 9
    ensures k <= 8 ==> Pow128(k) <= 0x100_0000_0000_0000
    ensures k == 9 ==> Pow128(k) == 0x8000_0000_0000_0000
  {
    assert Pow128(4) == 0x1000_0000 && Pow128(8) == 0x1000_0000 * 0x1000_0000;
    assert Pow128(5) == 128 * Pow128(4) && Pow128(6) == 128 * Pow128(5) && Pow128(7) == 128 * Pow128(6);
    assert Pow128(9) == 128 * Pow128(8);
  }

  /** `base128_decode`: the number at the front and its length, if one ends within ten bytes; shifts drop what exceeds 64 bits. */
  method DecodeBase128(b: seq<Byte>) returns (r: Option<(U64, nat)>)
    ensures r.None? ==> forall n :: 0 < n <= |b| && n <= 10 ==> !IsNumeral(b[..n])
    ensures r.Some? ==> var (value, n) := r.value;
            n <= |b| && n <= 10 && IsNumeral(b[..n]) && value == Digits128(b[..n]) % 0x1_0000_0000_0000_0000
  {
    var value: U64, k: nat := 0, 0;
    ghost var exact := 0;
    while k < |b| && k < 10
      invariant k <= |b| && k <= 10 && exact == Digits128(b[..k]) && value == exact % 0x1_0000_0000_0000_0000
      invariant forall i :: 0 <= i < k ==> 128 <= b[i]
    {
      assert b[..k + 1] == b[..k] + [b[k]];
      DigitsSnoc(b[..k], b[k]);
      NineDigits(k);
      ghost var grown := exact + b[k] % 128 * Pow128(k);
      var digit := b[k] % 128 * Pow128(k) % 0x1_0000_0000_0000_0000;
      SumOfParts(exact, b[k] % 128, k);
      value := value + digit;
      exact := grown;
      k := k + 1;
      if b[k - 1] < 128 {
        return Some((value, k));
      }
    }
    r := None;
    forall n | 0 < n <= |b| && n <= 10
      ensures !IsNumeral(b[..n])
    {
      assert b[..n][n - 1] == b[n - 1];
    }
  }

  /** The or of the source is a sum: what is shifted in starts above what is there. */
  lemma SumOfParts(exact: nat, digit: nat, k: nat)
    requires k <= 9 && exact < Pow128(k) && digit < 128
    ensures var p := digit * Pow128(k);
            && exact % 0x1_0000_0000_0000_0000 + p % 0x1_0000_0000_0000_0000 == (exact + p) % 0x1_0000_0000_0000_0000
            && exact % 0x1_0000_0000_0000_0000 + p % 0x1_0000_0000_0000_0000 < 0x1_0000_0000_0000_0000
  {
    hide Pow128;
    NineDigits(k);
    var u := Pow128(k);
    if k < 9 {
      Bounded(digit, u);
      SmallSum(exact, digit * u);
    } else {
      TopDigit(exact, digit);
    }
  }

  lemma SmallSum(exact: nat, p: nat)
    requires exact < 0x100_0000_0000_0000 && p <= 127 * 0x100_0000_0000_0000
    ensures exact % 0x1_0000_0000_0000_0000 + p % 0x1_0000_0000_0000_0000 == (exact + p) % 0x1_0000_0000_0000_0000 == exact + p
    ensures exact + p < 0x1_0000_0000_0000_0000
  {
  }

  lemma TopDigit(exact: nat, digit: nat)
    requires exact < 0x8000_0000_0000_0000
    ensures var p := digit * 0x8000_0000_0000_0000;
            && exact % 0x1_0000_0000_0000_0000 + p % 0x1_0000_0000_0000_0000 == (exact + p) % 0x1_0000_0000_0000_0000
            && exact % 0x1_0000_0000_0000_0000 + p % 0x1_0000_0000_0000_0000 < 0x1_0000_0000_0000_0000
  {
    var h, o := digit / 2, digit % 2;
    DivModUnique(exact, 0x1_0000_0000_0000_0000, 0, exact);
    DivModUnique(digit * 0x8000_0000_0000_0000, 0x1_0000_0000_0000_0000, h, 0x8000_0000_0000_0000 * o);
    DivModUnique(exact + digit * 0x8000_0000_0000_0000, 0x1_0000_0000_0000_0000, h, exact + 0x8000_0000_0000_0000 * o);
  }

  lemma Bounded(digit: nat, u: nat)
    requires digit < 128 && u <= 0x100_0000_0000_0000
    ensures digit * u <= 127 * 0x100_0000_0000_0000
  {
  }

  /** The number written at the front is read back, whatever follows. */
  lemma Base128RoundTrip(value: U64, rest: seq<Byte>, n: nat)
    requires var b := Base128(value) + rest; n <= |b| && IsNumeral(b[..n])
    ensures n == |Base128(value)| && Digits128((Base128(value) + rest)[..n]) == value
  {
    Base128Value(value);
    NumeralEnds(Base128(value), rest, n);
  }

  lemma NumeralEnds(d: seq<Byte>, rest: seq<Byte>, n: nat)
    requires IsNumeral(d) && n <= |d + rest| && IsNumeral((d + rest)[..n])
    ensures n == |d| && (d + rest)[..n] == d
  {
    var b := d + rest;
    assert forall i :: 0 <= i < |d| ==> b[i] == d[i];
    assert forall i :: 0 <= i < n ==> b[..n][i] == b[i];
  }

  // ---------------------------------------------------------------- messages

  /** The sender's identity is a hash of 32 bytes. */
  datatype ChatMessage = ChatMessage(identity: seq<Byte>, nonce: U64, content: seq<Byte>)

  /** The parts of an encoded `Message`, in the order in which they are written. */
  function Pieces(m: ChatMessage): seq<seq<Byte>> {
    [m.identity, Base128(m.nonce), m.content]
  }

  function Concatenated(pieces: seq<seq<Byte>>): seq<Byte> {
    if pieces == [] then [] else Concatenated(pieces[..|pieces| - 1]) + pieces[|pieces| - 1]
  }

  lemma ThreePieces(a: seq<Byte>, b: seq<Byte>, c: seq<Byte>)
    ensures Concatenated([a, b, c]) == a + b + c
  {
    var p := [a, b, c];
    assert p[..2] == [a, b] && [a, b][..1] == [a] && [a][..0] == [];
    assert Concatenated([a]) == Concatenated([a][..0]) + a;
    assert Concatenated([a, b]) == Concatenated([a, b][..1]) + b;
  }

  /** The longest encoded message: 32 bytes of identity, ten of nonce, and the content. */
  const MAX_ENCODED := 32 + 10 + MAX_MESSAGE_SIZE

  lemma EncodedFits(m: ChatMessage)
    requires |m.identity| == 32 && |m.content| <= MAX_MESSAGE_SIZE
    ensures |Concatenated(Pieces(m))| <= MAX_ENCODED
  {
    ThreePieces(m.identity, Base128(m.nonce), m.content);
    Base128Short(m.nonce);
  }

  /** The bytes are the identity, a numeral for the nonce, and the content. */
  ghost predicate ReadsAs(b: seq<Byte>, m: ChatMessage) {
    exists n: nat :: n <= 10 && 32 + n <= |b| && b[..32] == m.identity && b[32 + n..] == m.content
                     && IsNumeral(b[32..][..n]) && m.nonce == Digits128(b[32..][..n]) % 0x1_0000_0000_0000_0000
  }

  /** Decoding of a message: 32 bytes, a number, and all that is left. */
  method DecodeMessage(b: seq<Byte>) returns (r: Option<ChatMessage>)
    ensures r.Some? ==> |r.value.identity| == 32 && ReadsAs(b, r.value)
    ensures r == None && |b| >= 32 ==> forall n :: 0 < n <= |b| - 32 && n <= 10 ==> !IsNumeral(b[32..][..n])
    ensures forall m: ChatMessage :: |m.identity| == 32 && b == Concatenated(Pieces(m)) ==> r == Some(m)
  {
    hide IsNumeral, Base128, Digits128;
    if |b| < 32 {
      r := None;
    } else {
      var number := DecodeBase128(b[32..]);
      r := if number == None then None else Some(ChatMessage(b[..32], number.value.0, b[32 + number.value.1..]));
    }
    forall m: ChatMessage | |m.identity| == 32 && b == Concatenated(Pieces(m))
      ensures r == Some(m)
    {
      EncodedParts(b, m);
      var d := Base128(m.nonce);
      assert |b| >= 32 && IsNumeral(b[32..][..|d|]);
      if r.Some? {
        var n: nat := |b| - 32 - |r.value.content|;
        Base128RoundTrip(m.nonce, m.content, n);
      }
    }
  }

  lemma EncodedParts(b: seq<Byte>, m: ChatMessage)
    requires |m.identity| == 32 && b == Concatenated(Pieces(m))
    ensures var d := Base128(m.nonce);
            && |d| <= 10 && |b| == 32 + |d| + |m.content| && b[..32] == m.identity
            && b[32..] == d + m.content && b[32..][..|d|] == d && IsNumeral(d)
  {
    ThreePieces(m.identity, Base128(m.nonce), m.content);
    Base128Short(m.nonce);
    Base128Value(m.nonce);
  }
}
