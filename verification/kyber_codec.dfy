/** Byte encodings, rounding compression and message encoding of Kyber polynomials. */
module KyberCodec {
  import opened Common
  import opened KyberArith
  import opened KyberLoops
  import opened KyberProduct
  import opened Division

  /** A polynomial with 12-bit non-negative coefficients. */
  ghost predicate Fits12(p: Words) {
    forall j :: 0 <= j < 256 ==> 0 <= p[j] < 4096
  }

  /** `u + ((u >> 15) & Q)`: the sign bit selects whether Q is added. */
  function Lift(x: I16): (r: I16)
    ensures Cong(r, x)
    ensures -Q <= x < Q ==> 0 <= r < Q
  {
    if x < 0 then x + Q else x
  }

  lemma LiftIsMod(x: I16)
    requires -Q <= x < Q
    ensures Lift(x) == Mod(x)
  {
  }

  // ---------------------------------------------------------------- twelve bits per coefficient

  /** Two 12-bit values in three bytes; the or of disjoint bit ranges is a sum. */
  function Pack12(t0: int, t1: int): (Byte, Byte, Byte) {
    (t0 % 256, t0 / 256 % 16 + t1 % 16 * 16, t1 / 16 % 256)
  }

  function Unpack12(b0: Byte, b1: Byte, b2: Byte): (r: (int, int))
    ensures 0 <= r.0 < 4096 && 0 <= r.1 < 4096
  {
    (b0 + b1 % 16 * 256, b1 / 16 + b2 * 16)
  }

  lemma Pack12RoundTrip(t0: int, t1: int)
    requires 0 <= t0 < 4096 && 0 <= t1 < 4096
    ensures var b := Pack12(t0, t1); Unpack12(b.0, b.1, b.2) == (t0, t1)
  {
    var l, h := t0 % 256, t0 / 256;
    var m, n := t1 % 16, t1 / 16;
    DivModUnique(h, 16, 0, h);
    DivModUnique(n, 256, 0, n);
    DivModUnique(h + m * 16, 16, m, h);
  }

  lemma Unpack12RoundTrip(b0: Byte, b1: Byte, b2: Byte)
    ensures var t := Unpack12(b0, b1, b2); Pack12(t.0, t.1) == (b0, b1, b2)
  {
    var l, h := b1 % 16, b1 / 16;
    assert b1 == l + 16 * h;
    DivModUnique(b0 + l * 256, 256, l, b0);
    DivModUnique(l, 16, 0, l);
    DivModUnique(h + b2 * 16, 16, b2, h);
    DivModUnique(b2, 256, 0, b2);
  }

  /** Every triple of bytes holds the pair of lifted coefficients at the same place. */
  ghost predicate IsToBytes(p: Words, b: seq<Byte>) {
    && |b| == 384
    && forall i {:trigger b[3 * i]} :: 0 <= i < 128 ==> (b[3 * i], b[3 * i + 1], b[3 * i + 2]) == Pack12(Lift(p[2 * i]), Lift(p[2 * i + 1]))
  }

  ghost predicate IsFromBytes(b: seq<Byte>, p: Words)
    requires |b| == 384
  {
    forall i {:trigger p[2 * i]} :: 0 <= i < 128 ==> (p[2 * i] as int, p[2 * i + 1] as int) == Unpack12(b[3 * i], b[3 * i + 1], b[3 * i + 2])
  }

  /** `poly::to_bytes`. */
  method ToBytes(p: Words) returns (b: seq<Byte>)
    requires Within(p, 3328)
    ensures IsToBytes(p, b)
  {
    hide Lift, Pack12;
    var output := new Byte[384];
    for i := 0 to 128
      invariant forall k :: 0 <= k < i ==> (output[3 * k], output[3 * k + 1], output[3 * k + 2]) == Pack12(Lift(p[2 * k]), Lift(p[2 * k + 1]))
    {
      var t := Pack12(Lift(p[2 * i]), Lift(p[2 * i + 1]));
      output[3 * i], output[3 * i + 1], output[3 * i + 2] := t.0, t.1, t.2;
    }
    b := output[..];
  }

  /** `poly::from_bytes`. */
  method FromBytes(b: seq<Byte>) returns (p: Words)
    requires |b| == 384
    ensures IsFromBytes(b, p) && Fits12(p)
  {
    hide Unpack12;
    var output := new I16[256];
    for i := 0 to 128
      invariant forall k :: 0 <= k < i ==> (output[2 * k] as int, output[2 * k + 1] as int) == Unpack12(b[3 * k], b[3 * k + 1], b[3 * k + 2])
      invariant forall j :: 0 <= j < 2 * i ==> 0 <= output[j] < 4096
    {
      var t := Unpack12(b[3 * i], b[3 * i + 1], b[3 * i + 2]);
      output[2 * i], output[2 * i + 1] := t.0, t.1;
    }
    p := output[..];
  }

  /** Decoding an encoding yields the canonical representatives. */
  lemma BytesRoundTrip(p: Words, b: seq<Byte>, r: Words)
    requires Within(p, 3328) && IsToBytes(p, b) && IsFromBytes(b, r)
    ensures forall j :: 0 <= j < 256 ==> r[j] == Lift(p[j])
  {
    hide Lift, Pack12, Unpack12;
    forall j | 0 <= j < 256
      ensures r[j] == Lift(p[j])
    {
      var i := j / 2;
      var (b0, b1, b2) := (b[3 * i], b[3 * i + 1], b[3 * i + 2]);
      assert (r[2 * i] as int, r[2 * i + 1] as int) == Unpack12(b0, b1, b2);
      Pack12RoundTrip(Lift(p[2 * i]), Lift(p[2 * i + 1]));
      assert j == 2 * i || j == 2 * i + 1;
    }
  }

  /** Every string of 384 bytes is the encoding of what it decodes to. */
  lemma BytesReencode(b: seq<Byte>, p: Words, r: seq<Byte>)
    requires |b| == 384 && IsFromBytes(b, p) && IsToBytes(p, r)
    ensures r == b
  {
    hide Pack12;
    forall k | 0 <= k < 384
      ensures r[k] == b[k]
    {
      var i := k / 3;
      var (r0, r1, r2) := (r[3 * i], r[3 * i + 1], r[3 * i + 2]);
      assert (p[2 * i] as int, p[2 * i + 1] as int) == Unpack12(b[3 * i], b[3 * i + 1], b[3 * i + 2]);
      assert (r0, r1, r2) == Pack12(p[2 * i], p[2 * i + 1]);
      Unpack12RoundTrip(b[3 * i], b[3 * i + 1], b[3 * i + 2]);
      assert k == 3 * i || k == 3 * i + 1 || k == 3 * i + 2;
    }
  }

  // ---------------------------------------------------------------- rounding compression

  /** The number of levels of the three compressions in use: 1, 4 and 10 bits. */
  predicate IsLevels(m: nat) {
    m in {2, 16, 1024}
  }

  /** `((x << d) + Q / 2) / Q & (2^d - 1)` with m = 2^d. */
  function Compress(x: int, m: nat): (y: int)
    requires IsLevels(m) && 0 <= x < Q
    ensures 0 <= y < m
  {
    (m * x + Q / 2) / Q % m
  }

  /** `(y * Q + 2^(d-1)) >> d` with m = 2^d. */
  function Decompress(y: int, m: nat): (x: int)
    requires IsLevels(m) && 0 <= y < m
    ensures 0 <= x < Q
  {
    (y * Q + m / 2) / m
  }

  /** Compression is the nearest multiple of Q / m, counted modulo m. */
  lemma CompressNearest(x: int, m: nat) returns (k: int)
    requires IsLevels(m) && 0 <= x < Q
    ensures 0 <= k <= m && Compress(x, m) == k % m
    ensures -Q < 2 * (k * Q - m * x) < Q
  {
    k := (m * x + Q / 2) / Q;
    RoundedRange(x, k, m);
  }

  /** x is the whole number nearest to y * Q / m, the upper one at a tie. */
  ghost predicate Nearest(x: int, y: int, m: nat) {
    2 * y * Q - m < 2 * m * x <= 2 * y * Q + m
  }

  lemma DecompressNearest(y: int, m: nat)
    requires IsLevels(m) && 0 <= y < m
    ensures Nearest(Decompress(y, m), y, m)
  {
    match m
    case 2 =>
    case 16 =>
    case _ =>
  }

  /** The representative of a residue class that is closest to zero. */
  function Centred(x: int): (r: int)
    ensures -1664 <= r <= 1664 && Cong(r, x)
  {
    if Mod(x) <= 1664 then Mod(x) else Mod(x) - Q
  }

  lemma CentredUnique(x: int, r: int)
    requires Cong(r, x) && -1664 <= r <= 1664
    ensures r == Centred(x)
  {
  }

  /** Section 4.2.1 of FIPS 203: decompressing a compressed value loses at most round(Q / 2^(d+1)). */
  lemma RoundingError(x: int, m: nat)
    requires IsLevels(m) && 0 <= x < Q
    ensures var e := Centred(Decompress(Compress(x, m), m) - x);
            var bound := if m == 16 then 104 else if m == 1024 then 2 else 832;
            -bound <= e <= bound
  {
    var y := (m * x + Q / 2) / Q;
    RoundedRange(x, y, m);
    if y == m {
      assert Decompress(0, m) == 0;
      CentredUnique(-x, Q - x);
    } else {
      var e := Decompress(y, m) - x;
      RoundedBack(x, y, m);
      CentredUnique(e, e);
    }
  }

  lemma RoundedRange(x: int, y: int, m: nat)
    requires IsLevels(m) && 0 <= x < Q && y == (m * x + Q / 2) / Q
    ensures 0 <= y <= m && y * Q <= m * x + Q / 2 < y * Q + Q
    ensures Compress(x, m) == if y == m then 0 else y
    ensures y == m ==> Q - x <= 832 && (m == 16 ==> Q - x <= 104) && (m == 1024 ==> Q - x <= 1)
  {
    match m
    case 2 => Rounded(x, y, 2 * x, 2);
    case 16 => Rounded(x, y, 16 * x, 16);
    case _ => Rounded(x, y, 1024 * x, 1024);
  }

  /** The rounding step with the product as a number of its own. */
  lemma Rounded(x: int, y: int, p: int, m: nat)
    requires IsLevels(m) && 0 <= x < Q && y == (p + Q / 2) / Q && 0 <= p <= m * (Q - 1)
    ensures 0 <= y <= m && y * Q <= p + Q / 2 < y * Q + Q && y % m == (if y == m then 0 else y)
  {
    if y == m {
      DivModUnique(y, m, 1, 0);
    } else if y < m {
      DivModUnique(y, m, 0, y);
    }
  }

  lemma RoundedBack(x: int, y: int, m: nat)
    requires IsLevels(m) && 0 <= x && 0 <= y < m
    requires y * Q <= m * x + Q / 2 < y * Q + Q
    ensures var bound := if m == 16 then 104 else if m == 1024 then 2 else 832;
            -bound <= Decompress(y, m) - x <= bound
  {
    match m
    case 2 =>
    case 16 =>
    case _ =>
  }

  /** Compression loses nothing on decompressed values. */
  lemma CompressDecompress(y: int, m: nat)
    requires IsLevels(m) && 0 <= y < m
    ensures Compress(Decompress(y, m), m) == y
  {
    var x := Decompress(y, m);
    match m
    case 2 => CompressedBack(y, x, 2 * x, 2);
    case 16 => CompressedBack(y, x, 16 * x, 16);
    case _ => CompressedBack(y, x, 1024 * x, 1024);
  }

  lemma CompressedBack(y: int, x: int, p: int, m: nat)
    requires IsLevels(m) && 0 <= y < m && y * Q + m / 2 - m < p <= y * Q + m / 2
    ensures (p + Q / 2) / Q % m == y
  {
    DivModUnique(p + Q / 2, Q, y, p + Q / 2 - y * Q);
    DivModUnique(y, m, 0, y);
  }

  /** The one-bit compression of a value decides whether it is nearer to Q/2 than to 0. */
  lemma CompressBit(x: int)
    requires 0 <= x < Q
    ensures Compress(x, 2) == if 833 <= x <= 2496 then 1 else 0
  {
  }

  // ---------------------------------------------------------------- four bits per coefficient

  ghost predicate IsCompressed4(p: Words, b: seq<Byte>) {
    && |b| == 128
    && Within(p, 3328)
    && forall i :: 0 <= i < 128 ==> b[i] == Compress(Lift(p[2 * i]), 16) + 16 * Compress(Lift(p[2 * i + 1]), 16)
  }

  ghost predicate IsDecompressed4(b: seq<Byte>, p: Words)
    requires |b| == 128
  {
    forall i :: 0 <= i < 128 ==> p[2 * i] == Decompress(b[i] % 16, 16) && p[2 * i + 1] == Decompress(b[i] / 16, 16)
  }

  /** `poly::compress`. */
  method CompressPoly(p: Words) returns (b: seq<Byte>)
    requires Within(p, 3328)
    ensures IsCompressed4(p, b)
  {
    hide Compress, Lift;
    var output := new Byte[128];
    for i := 0 to 128
      invariant forall k :: 0 <= k < i ==> output[k] == Compress(Lift(p[2 * k]), 16) + 16 * Compress(Lift(p[2 * k + 1]), 16)
    {
      output[i] := Compress(Lift(p[2 * i]), 16) + 16 * Compress(Lift(p[2 * i + 1]), 16);
    }
    b := output[..];
  }

  /** `poly::decompress`. */
  method DecompressPoly(b: seq<Byte>) returns (p: Words)
    requires |b| == 128
    ensures IsDecompressed4(b, p) && Within(p, 3328)
    ensures forall i :: 0 <= i < 128 ==> Nearest(p[2 * i], b[i] % 16, 16) && Nearest(p[2 * i + 1], b[i] / 16, 16)
  {
    hide Decompress, Nearest;
    var output := new I16[256];
    for i := 0 to 128
      invariant forall k :: 0 <= k < i ==> output[2 * k] == Decompress(b[k] % 16, 16) && output[2 * k + 1] == Decompress(b[k] / 16, 16)
      invariant forall j :: 0 <= j < 2 * i ==> 0 <= output[j] < Q
    {
      output[2 * i], output[2 * i + 1] := Decompress(b[i] % 16, 16), Decompress(b[i] / 16, 16);
    }
    p := output[..];
    forall i | 0 <= i < 128
      ensures Nearest(p[2 * i], b[i] % 16, 16) && Nearest(p[2 * i + 1], b[i] / 16, 16)
    {
      DecompressNearest(b[i] % 16, 16);
      DecompressNearest(b[i] / 16, 16);
    }
  }

  /** Every coefficient comes back as its own rounding. */
  lemma Compressed4RoundTrip(p: Words, b: seq<Byte>, r: Words)
    requires IsCompressed4(p, b) && IsDecompressed4(b, r)
    ensures forall j :: 0 <= j < 256 ==> r[j] == Decompress(Compress(Lift(p[j]), 16), 16)
  {
    hide Compress, Decompress, Lift;
    forall j | 0 <= j < 256
      ensures r[j] == Decompress(Compress(Lift(p[j]), 16), 16)
    {
      var i := j / 2;
      var x, y := Compress(Lift(p[2 * i]), 16), Compress(Lift(p[2 * i + 1]), 16);
      assert b[i] % 16 == x && b[i] / 16 == y;
      assert j == 2 * i || j == 2 * i + 1;
    }
  }

  // ---------------------------------------------------------------- ten bits per coefficient

  /** Four 10-bit values in five bytes; the or of disjoint bit ranges is a sum. */
  function Pack10(t0: int, t1: int, t2: int, t3: int): (Byte, Byte, Byte, Byte, Byte) {
    (t0 % 256, (t0 / 256 + t1 * 4) % 256, (t1 / 64 + t2 * 16) % 256, (t2 / 16 + t3 * 64) % 256, t3 / 4 % 256)
  }

  /** `(in[i] >> 2i | in[i + 1] << (8 - 2i)) & 0x3ff` for the four values of a group. */
  function Unpack10(b0: Byte, b1: Byte, b2: Byte, b3: Byte, b4: Byte): (r: (int, int, int, int))
    ensures 0 <= r.0 < 1024 && 0 <= r.1 < 1024 && 0 <= r.2 < 1024 && 0 <= r.3 < 1024
  {
    ((b0 + b1 * 256) % 1024, (b1 / 4 + b2 * 64) % 1024, (b2 / 16 + b3 * 16) % 1024, (b3 / 64 + b4 * 4) % 1024)
  }

  lemma Pack10RoundTrip(t0: int, t1: int, t2: int, t3: int)
    requires 0 <= t0 < 1024 && 0 <= t1 < 1024 && 0 <= t2 < 1024 && 0 <= t3 < 1024
    ensures var b := Pack10(t0, t1, t2, t3); Unpack10(b.0, b.1, b.2, b.3, b.4) == (t0, t1, t2, t3)
  {
    var h0, h1, h2, h3 := t0 / 256, t1 / 64, t2 / 16, t3 / 4;
    var l0, l1, l2, l3 := t0 - 256 * h0, t1 - 64 * h1, t2 - 16 * h2, t3 - 4 * h3;
    Pack10Bytes(l0, h0, l1, h1, l2, h2, l3, h3);
    Unpack10Bytes(l0, h0, l1, h1, l2, h2, l3, h3);
  }

  lemma Pack10Bytes(l0: int, h0: int, l1: int, h1: int, l2: int, h2: int, l3: int, h3: int)
    requires 0 <= l0 < 256 && 0 <= l1 < 64 && 0 <= l2 < 16 && 0 <= l3 < 4
    requires 0 <= h0 < 4 && 0 <= h1 < 16 && 0 <= h2 < 64 && 0 <= h3 < 256
    ensures Pack10(l0 + 256 * h0, l1 + 64 * h1, l2 + 16 * h2, l3 + 4 * h3) == (l0, h0 + 4 * l1, h1 + 16 * l2, h2 + 64 * l3, h3)
  {
    var t0, t1, t2, t3 := l0 + 256 * h0, l1 + 64 * h1, l2 + 16 * h2, l3 + 4 * h3;
    DivModUnique(t0, 256, h0, l0);
    DivModUnique(t1, 64, h1, l1);
    DivModUnique(t2, 16, h2, l2);
    DivModUnique(t3, 4, h3, l3);
    DivModUnique(h0 + t1 * 4, 256, h1, h0 + 4 * l1);
    DivModUnique(h1 + t2 * 16, 256, h2, h1 + 16 * l2);
    DivModUnique(h2 + t3 * 64, 256, h3, h2 + 64 * l3);
    DivModUnique(h3, 256, 0, h3);
  }

  lemma Unpack10Bytes(l0: int, h0: int, l1: int, h1: int, l2: int, h2: int, l3: int, h3: int)
    requires 0 <= l0 < 256 && 0 <= l1 < 64 && 0 <= l2 < 16 && 0 <= l3 < 4
    requires 0 <= h0 < 4 && 0 <= h1 < 16 && 0 <= h2 < 64 && 0 <= h3 < 256
    ensures Unpack10(l0, h0 + 4 * l1, h1 + 16 * l2, h2 + 64 * l3, h3) == (l0 + 256 * h0, l1 + 64 * h1, l2 + 16 * h2, l3 + 4 * h3)
  {
    var b1, b2, b3 := h0 + 4 * l1, h1 + 16 * l2, h2 + 64 * l3;
    DivModUnique(b1, 4, l1, h0);
    DivModUnique(b2, 16, l2, h1);
    DivModUnique(b3, 64, l3, h2);
    DivModUnique(l0 + b1 * 256, 1024, l1, l0 + 256 * h0);
    DivModUnique(l1 + b2 * 64, 1024, l2, l1 + 64 * h1);
    DivModUnique(l2 + b3 * 16, 1024, l3, l2 + 16 * h2);
    DivModUnique(l3 + h3 * 4, 1024, 0, l3 + 4 * h3);
  }

  function Group(p: Words, i: nat): (int, int, int, int)
    requires i < 64 && Within(p, 3328)
  {
    (Compress(Lift(p[4 * i]), 1024), Compress(Lift(p[4 * i + 1]), 1024),
     Compress(Lift(p[4 * i + 2]), 1024), Compress(Lift(p[4 * i + 3]), 1024))
  }

  ghost predicate IsCompressed10(p: Words, b: seq<Byte>) {
    && |b| == 320
    && Within(p, 3328)
    && forall i :: 0 <= i < 64 ==>
         var t := Group(p, i);
         (b[5 * i], b[5 * i + 1], b[5 * i + 2], b[5 * i + 3], b[5 * i + 4]) == Pack10(t.0, t.1, t.2, t.3)
  }

  function Group10(b: seq<Byte>, i: nat): (int, int, int, int)
    requires |b| == 320 && i < 64
  {
    Unpack10(b[5 * i], b[5 * i + 1], b[5 * i + 2], b[5 * i + 3], b[5 * i + 4])
  }

  ghost predicate GroupDecoded(b: seq<Byte>, p: Words, i: nat)
    requires |b| == 320 && i < 64
  {
    var t := Group10(b, i);
    && p[4 * i] == Decompress(t.0, 1024) && p[4 * i + 1] == Decompress(t.1, 1024)
    && p[4 * i + 2] == Decompress(t.2, 1024) && p[4 * i + 3] == Decompress(t.3, 1024)
  }

  ghost predicate GroupNearest(b: seq<Byte>, p: Words, i: nat)
    requires |b| == 320 && i < 64
  {
    var t := Group10(b, i);
    && Nearest(p[4 * i], t.0, 1024) && Nearest(p[4 * i + 1], t.1, 1024)
    && Nearest(p[4 * i + 2], t.2, 1024) && Nearest(p[4 * i + 3], t.3, 1024)
  }

  lemma DecodedNearest(b: seq<Byte>, p: Words, i: nat)
    requires |b| == 320 && i < 64 && GroupDecoded(b, p, i)
    ensures GroupNearest(b, p, i)
  {
    hide Decompress, Nearest, Unpack10;
    var t := Group10(b, i);
    DecompressNearest(t.0, 1024);
    DecompressNearest(t.1, 1024);
    DecompressNearest(t.2, 1024);
    DecompressNearest(t.3, 1024);
  }

  ghost predicate IsDecompressed10(b: seq<Byte>, p: Words)
    requires |b| == 320
  {
    forall i :: 0 <= i < 64 ==> GroupDecoded(b, p, i)
  }

  /** One polynomial of `polyvec::compress`. */
  method CompressPoly10(p: Words) returns (b: seq<Byte>)
    requires Within(p, 3328)
    ensures IsCompressed10(p, b)
  {
    hide Compress, Lift, Pack10;
    var output := new Byte[320];
    for i := 0 to 64
      invariant forall k :: 0 <= k < i ==>
        var t := Group(p, k);
        (output[5 * k], output[5 * k + 1], output[5 * k + 2], output[5 * k + 3], output[5 * k + 4]) == Pack10(t.0, t.1, t.2, t.3)
    {
      var t := Group(p, i);
      var g := Pack10(t.0, t.1, t.2, t.3);
      output[5 * i], output[5 * i + 1], output[5 * i + 2], output[5 * i + 3], output[5 * i + 4] := g.0, g.1, g.2, g.3, g.4;
    }
    b := output[..];
  }

  /** One polynomial of `polyvec::decompress`. */
  method DecompressPoly10(b: seq<Byte>) returns (p: Words)
    requires |b| == 320
    ensures IsDecompressed10(b, p) && Within(p, 3328)
    ensures forall i :: 0 <= i < 64 ==> GroupNearest(b, p, i)
  {
    hide Decompress, Unpack10;
    var output := new I16[256];
    for i := 0 to 64
      invariant forall k :: 0 <= k < i ==>
        var t := Group10(b, k);
        && output[4 * k] == Decompress(t.0, 1024) && output[4 * k + 1] == Decompress(t.1, 1024)
        && output[4 * k + 2] == Decompress(t.2, 1024) && output[4 * k + 3] == Decompress(t.3, 1024)
      invariant forall j :: 0 <= j < 4 * i ==> 0 <= output[j] < Q
    {
      var t := Group10(b, i);
      output[4 * i], output[4 * i + 1] := Decompress(t.0, 1024), Decompress(t.1, 1024);
      output[4 * i + 2], output[4 * i + 3] := Decompress(t.2, 1024), Decompress(t.3, 1024);
    }
    p := output[..];
    assert IsDecompressed10(b, p);
    hide GroupDecoded, GroupNearest;
    forall i | 0 <= i < 64
      ensures GroupNearest(b, p, i)
    {
      DecodedNearest(b, p, i);
    }
  }

  lemma Compressed10RoundTrip(p: Words, b: seq<Byte>, r: Words)
    requires IsCompressed10(p, b) && IsDecompressed10(b, r)
    ensures forall j :: 0 <= j < 256 ==> r[j] == Decompress(Compress(Lift(p[j]), 1024), 1024)
  {
    hide Compress, Decompress, Lift, Pack10, Unpack10;
    forall j | 0 <= j < 256
      ensures r[j] == Decompress(Compress(Lift(p[j]), 1024), 1024)
    {
      var i := j / 4;
      var t := Group(p, i);
      var c := (b[5 * i], b[5 * i + 1], b[5 * i + 2], b[5 * i + 3], b[5 * i + 4]);
      assert c == Pack10(t.0, t.1, t.2, t.3);
      Pack10RoundTrip(t.0, t.1, t.2, t.3);
      assert GroupDecoded(b, r, i);
      assert j == 4 * i || j == 4 * i + 1 || j == 4 * i + 2 || j == 4 * i + 3;
    }
  }

  // ---------------------------------------------------------------- messages

  function Bit(b: Byte, i: nat): (r: int)
    requires i < 8
    ensures r == 0 || r == 1
  {
    match i
    case 0 => b % 2 case 1 => b / 2 % 2 case 2 => b / 4 % 2 case 3 => b / 8 % 2
    case 4 => b / 16 % 2 case 5 => b / 32 % 2 case 6 => b / 64 % 2 case _ => b / 128 % 2
  }

  function FromBits(b0: int, b1: int, b2: int, b3: int, b4: int, b5: int, b6: int, b7: int): (b: int) {
    b0 + 2 * b1 + 4 * b2 + 8 * b3 + 16 * b4 + 32 * b5 + 64 * b6 + 128 * b7
  }

  ghost predicate IsFromMsg(m: seq<Byte>, p: Words)
    requires |m| == 32
  {
    forall j :: 0 <= j < 256 ==> p[j] == Bit(m[j / 8], j % 8) * ((Q + 1) / 2)
  }

  function MsgBit(p: Words, j: nat): (r: int)
    requires j < 256 && Within(p, 3328)
    ensures r == 0 || r == 1
  {
    Compress(Lift(p[j]), 2)
  }

  ghost predicate IsToMsg(p: Words, m: seq<Byte>) {
    && |m| == 32
    && Within(p, 3328)
    && forall j :: 0 <= j < 256 ==> Bit(m[j / 8], j % 8) == MsgBit(p, j)
  }

  /** `poly::from_msg`: a set bit becomes (Q + 1) / 2. */
  method FromMsg(m: seq<Byte>) returns (p: Words)
    requires |m| == 32
    ensures IsFromMsg(m, p) && Within(p, 1665)
  {
    hide Bit;
    var output := new I16[256];
    for i := 0 to 32
      invariant forall j :: 0 <= j < 8 * i ==> output[j] == Bit(m[j / 8], j % 8) * ((Q + 1) / 2) && 0 <= output[j] <= 1665
    {
      for k := 0 to 8
        invariant forall j :: 0 <= j < 8 * i + k ==> output[j] == Bit(m[j / 8], j % 8) * ((Q + 1) / 2) && 0 <= output[j] <= 1665
      {
        output[8 * i + k] := Bit(m[i], k) * ((Q + 1) / 2);
        assert (8 * i + k) / 8 == i && (8 * i + k) % 8 == k;
      }
    }
    p := output[..];
  }

  lemma BitsOfByte(b0: int, b1: int, b2: int, b3: int, b4: int, b5: int, b6: int, b7: int)
    requires 0 <= b0 < 2 && 0 <= b1 < 2 && 0 <= b2 < 2 && 0 <= b3 < 2 && 0 <= b4 < 2 && 0 <= b5 < 2 && 0 <= b6 < 2 && 0 <= b7 < 2
    ensures var b := FromBits(b0, b1, b2, b3, b4, b5, b6, b7);
            && 0 <= b < 256
            && Bit(b, 0) == b0 && Bit(b, 1) == b1 && Bit(b, 2) == b2 && Bit(b, 3) == b3
            && Bit(b, 4) == b4 && Bit(b, 5) == b5 && Bit(b, 6) == b6 && Bit(b, 7) == b7
  {
    var b := FromBits(b0, b1, b2, b3, b4, b5, b6, b7);
    var h6 := b6 + 2 * b7;
    var h5 := b5 + 2 * h6;
    var h4 := b4 + 2 * h5;
    var h3 := b3 + 2 * h4;
    var h2 := b2 + 2 * h3;
    var h1 := b1 + 2 * h2;
    assert b == b0 + 2 * h1;
    hide FromBits;
    HalvesOfByte(b);
    DivModUnique(b, 2, h1, b0);
    DivModUnique(h1, 2, h2, b1);
    DivModUnique(h2, 2, h3, b2);
    DivModUnique(h3, 2, h4, b3);
    DivModUnique(h4, 2, h5, b4);
    DivModUnique(h5, 2, h6, b5);
    DivModUnique(h6, 2, b7, b6);
    DivModUnique(b7, 2, 0, b7);
  }

  lemma HalvesOfByte(b: Byte)
    ensures b / 4 == b / 2 / 2 && b / 8 == b / 4 / 2 && b / 16 == b / 8 / 2 && b / 32 == b / 16 / 2
    ensures b / 64 == b / 32 / 2 && b / 128 == b / 64 / 2 && b / 128 / 2 == 0
  {
    HalveQuotient(b, 2);
    HalveQuotient(b, 4);
    HalveQuotient(b, 8);
    HalveQuotient(b, 16);
    HalveQuotient(b, 32);
    HalveQuotient(b, 64);
    HalveQuotient(b, 128);
    DivModUnique(b, 256, 0, b);
  }

  lemma Telescope(b: int, h1: int, h2: int, h3: int, h4: int, h5: int, h6: int, h7: int,
                  r0: int, r1: int, r2: int, r3: int, r4: int, r5: int, r6: int)
    requires b == 2 * h1 + r0 && h1 == 2 * h2 + r1 && h2 == 2 * h3 + r2 && h3 == 2 * h4 + r3
    requires h4 == 2 * h5 + r4 && h5 == 2 * h6 + r5 && h6 == 2 * h7 + r6
    ensures b == FromBits(r0, r1, r2, r3, r4, r5, r6, h7)
  {
  }

  lemma ByteIsItsBits(b: Byte)
    ensures b == FromBits(Bit(b, 0), Bit(b, 1), Bit(b, 2), Bit(b, 3), Bit(b, 4), Bit(b, 5), Bit(b, 6), Bit(b, 7))
  {
    hide FromBits;
    HalvesOfByte(b);
    var h1, h2, h3, h4, h5, h6, h7 := b / 2, b / 4, b / 8, b / 16, b / 32, b / 64, b / 128;
    assert h7 == h7 % 2;
    Telescope(b, h1, h2, h3, h4, h5, h6, h7, b % 2, h1 % 2, h2 % 2, h3 % 2, h4 % 2, h5 % 2, h6 % 2);
  }

  lemma BitsDetermineByte(a: Byte, b: Byte)
    requires forall i :: 0 <= i < 8 ==> Bit(a, i) == Bit(b, i)
    ensures a == b
  {
    hide Bit;
    ByteIsItsBits(a);
    ByteIsItsBits(b);
  }

  /** `poly::to_msg`: every byte gathers the one-bit compressions of eight coefficients. */
  method ToMsg(p: Words) returns (m: seq<Byte>)
    requires Within(p, 3328)
    ensures IsToMsg(p, m)
  {
    hide Bit, MsgBit, FromBits;
    var output := new Byte[32];
    for i := 0 to 32
      invariant forall j :: 0 <= j < 8 * i ==> Bit(output[j / 8], j % 8) == MsgBit(p, j)
    {
      var o := 8 * i;
      BitsOfByte(MsgBit(p, o), MsgBit(p, o + 1), MsgBit(p, o + 2), MsgBit(p, o + 3),
                 MsgBit(p, o + 4), MsgBit(p, o + 5), MsgBit(p, o + 6), MsgBit(p, o + 7));
      output[i] := FromBits(MsgBit(p, o), MsgBit(p, o + 1), MsgBit(p, o + 2), MsgBit(p, o + 3),
                            MsgBit(p, o + 4), MsgBit(p, o + 5), MsgBit(p, o + 6), MsgBit(p, o + 7));
      forall j | o <= j < o + 8
        ensures Bit(output[j / 8], j % 8) == MsgBit(p, j)
      {
        assert j / 8 == i && j == o + j % 8;
      }
    }
    m := output[..];
  }

  // ---------------------------------------------------------------- decoding as functions

  function Decoded12(b: seq<Byte>): Words
    requires |b| == 384
  {
    seq(256, j requires 0 <= j < 256 =>
      var t := Unpack12(b[3 * (j / 2)], b[3 * (j / 2) + 1], b[3 * (j / 2) + 2]);
      if j % 2 == 0 then t.0 else t.1)
  }

  function Decoded4(b: seq<Byte>): Words
    requires |b| == 128
  {
    seq(256, j requires 0 <= j < 256 => Decompress(if j % 2 == 0 then b[j / 2] % 16 else b[j / 2] / 16, 16))
  }

  function Decoded10(b: seq<Byte>): Words
    requires |b| == 320
  {
    seq(256, j requires 0 <= j < 256 =>
      var t := Group10(b, j / 4);
      Decompress(match j % 4 case 0 => t.0 case 1 => t.1 case 2 => t.2 case _ => t.3, 1024))
  }

  lemma DecodedUnique12(b: seq<Byte>, p: Words)
    requires |b| == 384
    ensures IsFromBytes(b, Decoded12(b))
    ensures IsFromBytes(b, p) ==> p == Decoded12(b)
  {
    hide Unpack12;
    if IsFromBytes(b, p) {
      forall j | 0 <= j < 256
        ensures p[j] == Decoded12(b)[j]
      {
        var i := j / 2;
        assert (p[2 * i] as int, p[2 * i + 1] as int) == Unpack12(b[3 * i], b[3 * i + 1], b[3 * i + 2]);
        assert j == 2 * i || j == 2 * i + 1;
      }
    }
  }

  lemma DecodedUnique4(b: seq<Byte>, p: Words)
    requires |b| == 128
    ensures IsDecompressed4(b, Decoded4(b))
    ensures IsDecompressed4(b, p) ==> p == Decoded4(b)
  {
    hide Decompress;
    var d := Decoded4(b);
    forall i | 0 <= i < 128
      ensures d[2 * i] == Decompress(b[i] % 16, 16) && d[2 * i + 1] == Decompress(b[i] / 16, 16)
    {
      DivModUnique(2 * i, 2, i, 0);
      DivModUnique(2 * i + 1, 2, i, 1);
    }
    if IsDecompressed4(b, p) {
      PairwiseEqual(p, d);
    }
  }

  lemma DecodedUnique10(b: seq<Byte>, p: Words)
    requires |b| == 320
    ensures IsDecompressed10(b, Decoded10(b))
    ensures IsDecompressed10(b, p) ==> p == Decoded10(b)
  {
    hide Decompress, Unpack10;
    forall i | 0 <= i < 64
      ensures GroupDecoded(b, Decoded10(b), i)
    {
      DivModUnique(4 * i, 4, i, 0);
      DivModUnique(4 * i + 1, 4, i, 1);
      DivModUnique(4 * i + 2, 4, i, 2);
      DivModUnique(4 * i + 3, 4, i, 3);
    }
    if IsDecompressed10(b, p) {
      hide Decoded10;
      forall j | 0 <= j < 256
        ensures p[j] == Decoded10(b)[j]
      {
        var i := j / 4;
        assert GroupDecoded(b, p, i) && GroupDecoded(b, Decoded10(b), i);
        assert j == 4 * i || j == 4 * i + 1 || j == 4 * i + 2 || j == 4 * i + 3;
      }
    }
  }
}
