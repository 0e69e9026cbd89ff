/** The table generator and the element and slice kernels that use its tables. */
module GfTables {
  import opened Common
  import opened Gf256

  // ---------------------------------------------------------------- the generated tables

  ghost predicate IsLogTable(t: array<nat>)
    reads t
  {
    t.Length == 256 && t[0] == 0 && forall b: Elem :: b != 0 ==> t[Index(b)] == Log(b)
  }

  ghost predicate IsExpTable(t: array<Elem>)
    reads t
  {
    t.Length == 510 && forall k :: 0 <= k < 510 ==> t[k] == Pow2(k)
  }

  ghost predicate IsMulTable(t: array2<Elem>)
    reads t
  {
    t.Length0 == 256 && t.Length1 == 256 && forall a: Elem, b: Elem :: t[Index(a), Index(b)] == Mul(a, b)
  }

  ghost predicate IsInvTable(t: array<Elem>)
    reads t
  {
    t.Length == 256 && t[0] == 0 && forall b: Elem :: b != 0 ==> t[Index(b)] == Inv(b)
  }

  /** The low-nibble table holds the product of a with b, if b is a low-half byte. */
  ghost predicate IsLowCell(low: array2<Elem>, a: Elem, b: Elem)
    requires low.Length0 == 256 && low.Length1 == 16
    reads low
  {
    b & 0x0F == b ==> Index(b) < 16 && low[Index(a), Index(b)] == Mul(a, b)
  }

  /** The high-nibble table holds the product of a with b, if b is a high-half byte. */
  ghost predicate IsHighCell(high: array2<Elem>, a: Elem, b: Elem)
    requires high.Length0 == 256 && high.Length1 == 16
    reads high
  {
    b & 0xF0 == b ==> high[Index(a), Index(b >> 4)] == Mul(a, b)
  }

  ghost predicate AreNibbleTables(low: array2<Elem>, high: array2<Elem>)
    reads low, high
  {
    && low.Length0 == 256 && low.Length1 == 16 && high.Length0 == 256 && high.Length1 == 16
    && forall a: Elem, b: Elem :: IsLowCell(low, a, b) && IsHighCell(high, a, b)
  }

  /** `gen_log_table`: walk the powers of two and record each exponent. */
  method GenLogTable() returns (result: array<nat>)
    ensures fresh(result) && IsLogTable(result)
  {
    hide Pow2, Double, Log, Index, ByteOf;
    result := new nat[256](_ => 0);
    var b: Elem := 1;
    PowStart();
    for log := 0 to 255
      invariant b == Pow2(log)
      invariant result[0] == 0
      invariant forall i :: 0 <= i < log ==> result[Index(Pow2(i))] == i
    {
      PowNonZero(log);
      forall i | 0 <= i < log
        ensures Index(Pow2(i)) != Index(b)
      {
        PowDistinct(i, log);
        if Index(Pow2(i)) == Index(b) {
          IndexInjective(Pow2(i), b);
        }
      }
      result[Index(b)] := log;
      PowNext(log);
      b := Double(b);
    }
    forall c: Elem | c != 0
      ensures result[Index(c)] == Log(c)
    {
      assert result[Index(Pow2(Log(c)))] == Log(c);
    }
  }

  lemma PowStart()
    ensures Pow2(0) == 1
  {
  }

  lemma PowNext(i: nat)
    ensures Pow2(i + 1) == Double(Pow2(i))
  {
  }

  /** `gen_exp_table`: invert the logarithm table, twice over, so that sums of two logarithms need no reduction. */
  method GenExpTable(log: array<nat>) returns (result: array<Elem>)
    requires IsLogTable(log)
    ensures fresh(result) && IsExpTable(result)
  {
    hide Pow2, Log, Index, ByteOf;
    result := new Elem[510](_ => 0);
    for i := 1 to 256
      invariant forall b: Elem :: 0 < Index(b) < i ==> result[Log(b)] == b && result[Log(b) + 255] == b
    {
      var e := ByteOf(i);
      assert Index(e) == i;
      forall b: Elem | 0 < Index(b) < i
        ensures Log(b) != Log(e)
      {
        assert Pow2(Log(b)) == b && Pow2(Log(e)) == e;
      }
      result[log[i]] := e;
      result[log[i] + 255] := e;
      forall b: Elem | 0 < Index(b) < i + 1
        ensures result[Log(b)] == b && result[Log(b) + 255] == b
      {
        if Index(b) == i {
          IndexInjective(b, e);
        }
      }
    }
    forall k | 0 <= k < 510
      ensures result[k] == Pow2(k)
    {
      var b := Pow2(k % 255);
      LogOfPow(k % 255);
      PowPeriodic(k);
      assert k == Log(b) || k == Log(b) + 255;
    }
  }

  /** `multiply`: the product by adding logarithms. */
  method Multiply(log: array<nat>, exp: array<Elem>, a: Elem, b: Elem) returns (c: Elem)
    requires IsLogTable(log) && IsExpTable(exp)
    ensures c == Mul(a, b)
  {
    hide Pow2, Log, Index, ByteOf;
    if a == 0 || b == 0 {
      return 0;
    }
    assert log[Index(a)] == Log(a) && log[Index(b)] == Log(b);
    c := exp[log[Index(a)] + log[Index(b)]];
  }

  /** `gen_mul_table`. */
  method GenMulTable(log: array<nat>, exp: array<Elem>) returns (result: array2<Elem>)
    requires IsLogTable(log) && IsExpTable(exp)
    ensures fresh(result) && IsMulTable(result)
  {
    hide Mul, IsLogTable, IsExpTable, Index, ByteOf;
    result := new Elem[256, 256];
    for a := 0 to 256
      invariant forall x: Elem, y: Elem :: Index(x) < a ==> result[Index(x), Index(y)] == Mul(x, y)
    {
      for b := 0 to 256
        invariant forall x: Elem, y: Elem :: Index(x) < a || (Index(x) == a && Index(y) < b) ==> result[Index(x), Index(y)] == Mul(x, y)
      {
        var p := Multiply(log, exp, ByteOf(a), ByteOf(b));
        result[a, b] := p;
        forall x: Elem, y: Elem | Index(x) < a || (Index(x) == a && Index(y) < b + 1)
          ensures result[Index(x), Index(y)] == Mul(x, y)
        {
          if Index(x) == a && Index(y) == b {
            IndexInjective(x, ByteOf(a));
            IndexInjective(y, ByteOf(b));
          }
        }
      }
    }
  }

  /** `gen_inv_table`. */
  method GenInvTable(log: array<nat>, exp: array<Elem>) returns (result: array<Elem>)
    requires IsLogTable(log) && IsExpTable(exp)
    ensures fresh(result) && IsInvTable(result)
  {
    hide Pow2, Log, Index, ByteOf;
    result := new Elem[256](_ => 0);
    for i := 1 to 256
      invariant result[0] == 0
      invariant forall b: Elem :: 0 < Index(b) < i ==> result[Index(b)] == Inv(b)
    {
      var e := ByteOf(i);
      assert Index(e) == i && log[Index(e)] == Log(e);
      result[i] := exp[255 - log[i]];
      forall b: Elem | 0 < Index(b) < i + 1
        ensures result[Index(b)] == Inv(b)
      {
        if Index(b) == i {
          IndexInjective(b, e);
        }
      }
    }
    forall b: Elem | b != 0
      ensures result[Index(b)] == Inv(b)
    {
    }
  }

  // ---------------------------------------------------------------- elements

  /** `galois::div`. */
  method Div(log: array<nat>, exp: array<Elem>, inv: array<Elem>, a: Elem, b: Elem) returns (q: Option<Elem>)
    requires IsLogTable(log) && IsExpTable(exp) && IsInvTable(inv)
    ensures q == if b == 0 then None else Some(Over(a, b))
  {
    hide Pow2, Log, Mul, Index;
    if b == 0 {
      return None;
    }
    MulOne(Inv(b));
    if a == 0 {
      return Some(0);
    }
    if a == 1 {
      return Some(inv[Index(b)]);
    }
    var logA: int, logB: int := log[Index(a)], log[Index(b)];
    var d := logA - logB;
    if d < 0 {
      d := d + 255;
    }
    QuotientByLogs(a, b, d);
    OverLaw(a, b);
    MulCancel(Pow2(d), Over(a, b), b);
    q := Some(exp[d]);
  }

  lemma QuotientByLogs(a: Elem, b: Elem, d: nat)
    requires a != 0 && b != 0 && d < 255
    requires d == Log(a) - Log(b) || d == Log(a) - Log(b) + 255
    ensures Mul(Pow2(d), b) == a
  {
    hide Log;
    LogOfPow(d);
    assert Mul(Pow2(d), b) == Pow2(d + Log(b));
    PowPeriodic(Log(a) + 255);
    PowPeriodic(Log(a));
  }

  /** `galois::exp`: multiply the logarithm and reduce it by repeated subtraction. */
  method ExpByLog(log: array<nat>, exp: array<Elem>, a: Elem, n: nat) returns (p: Elem)
    requires IsLogTable(log) && IsExpTable(exp)
    ensures p == Exp(a, n)
  {
    hide Pow2, Log, Mul, Index;
    if n == 0 {
      return 1;
    }
    if a == 0 {
      MulOne(Exp(a, n - 1));
      return 0;
    }
    var r := log[Index(a)] * n;
    ghost var s := r;
    while 255 <= r
      invariant 0 <= r && Pow2(r) == Pow2(s)
    {
      PowPeriodic(r);
      PowPeriodic(r - 255);
      assert r % 255 == (r - 255) % 255;
      r := r - 255;
    }
    ExpIsPow(a, n);
    assert s == n * Log(a);
    p := exp[r];
  }

  lemma {:induction false} ExpIsPow(a: Elem, n: nat)
    requires a != 0
    ensures Exp(a, n) == Pow2(n * Log(a))
  {
    hide Log, Times, Mul, Pow2;
    if n == 0 {
      PowStart();
      assert 0 * Log(a) == 0;
    } else {
      ExpIsPow(a, n - 1);
      MulIsTimes(a, Exp(a, n - 1));
      PowAdd(Log(a), (n - 1) * Log(a));
      assert n * Log(a) == Log(a) + (n - 1) * Log(a);
    }
  }

  // ---------------------------------------------------------------- nibble tables

  /** A byte is the exclusive or of its halves, so its product is the exclusive or of two table entries. */
  lemma MulByHalves(c: Elem, b: Elem)
    ensures Mul(c, b) == Add(Mul(c, b & 0x0F), Mul(c, b & 0xF0))
  {
    hide Mul, Index;
    assert b == Add(b & 0x0F, b & 0xF0);
    MulAdd(c, b & 0x0F, b & 0xF0);
  }

  lemma NibbleIndices(b: Elem, c: Elem)
    ensures b & 0x0F == b ==> Index(b) < 16
    ensures b & 0xF0 == b && c & 0xF0 == c && Index(b >> 4) == Index(c >> 4) ==> b == c
  {
    if b & 0xF0 == b && c & 0xF0 == c && Index(b >> 4) == Index(c >> 4) {
      IndexInjective(b >> 4, c >> 4);
    }
  }

  method StoreLow(low: array2<Elem>, a: Elem, b: Elem, p: Elem)
    requires low.Length0 == 256 && low.Length1 == 16 && p == Mul(a, b)
    modifies low
    ensures IsLowCell(low, a, b)
    ensures forall x: Elem, y: Elem :: (x != a || y != b) && old(IsLowCell(low, x, y)) ==> IsLowCell(low, x, y)
  {
    hide Mul, Index;
    if b & 0x0F == b {
      NibbleIndices(b, b);
      low[Index(a), Index(b)] := p;
      forall x: Elem, y: Elem | (x != a || y != b) && old(IsLowCell(low, x, y))
        ensures IsLowCell(low, x, y)
      {
        if Index(x) == Index(a) && Index(y) == Index(b) {
          IndexInjective(x, a);
          IndexInjective(y, b);
        }
      }
    }
  }

  lemma HighIndex(b: Elem)
    ensures Index(b >> 4) < 16 && Index((b >> 4) & 0x0F) < 16
  {
  }

  method StoreHigh(high: array2<Elem>, a: Elem, b: Elem, p: Elem)
    requires high.Length0 == 256 && high.Length1 == 16 && p == Mul(a, b)
    modifies high
    ensures IsHighCell(high, a, b)
    ensures forall x: Elem, y: Elem :: (x != a || y != b) && old(IsHighCell(high, x, y)) ==> IsHighCell(high, x, y)
  {
    hide Mul, Index;
    if b & 0xF0 == b {
      HighIndex(b);
      high[Index(a), Index(b >> 4)] := p;
      forall x: Elem, y: Elem | (x != a || y != b) && old(IsHighCell(high, x, y))
        ensures IsHighCell(high, x, y)
      {
        NibbleIndices(y, b);
        if Index(x) == Index(a) {
          IndexInjective(x, a);
        }
      }
    }
  }

  /** `gen_mul_table_half`. */
  method GenMulTableHalf(log: array<nat>, exp: array<Elem>) returns (low: array2<Elem>, high: array2<Elem>)
    requires IsLogTable(log) && IsExpTable(exp)
    ensures fresh(low) && fresh(high) && AreNibbleTables(low, high)
  {
    hide Mul, IsLogTable, IsExpTable, IsLowCell, IsHighCell, Index, ByteOf;
    low := new Elem[256, 16]((i, j) => 0);
    high := new Elem[256, 16]((i, j) => 0);
    for a := 0 to 256
      invariant IsLogTable(log) && IsExpTable(exp)
      invariant forall x: Elem, y: Elem :: Index(x) < a ==> IsLowCell(low, x, y) && IsHighCell(high, x, y)
    {
      for b := 0 to 256
        invariant IsLogTable(log) && IsExpTable(exp)
        invariant forall x: Elem, y: Elem :: Index(x) < a || (Index(x) == a && Index(y) < b) ==>
                    IsLowCell(low, x, y) && IsHighCell(high, x, y)
      {
        var row, col := ByteOf(a), ByteOf(b);
        var p := Multiply(log, exp, row, col);
        StoreLow(low, row, col, p);
        StoreHigh(high, row, col, p);
        forall x: Elem, y: Elem | Index(x) == a && Index(y) == b
          ensures IsLowCell(low, x, y) && IsHighCell(high, x, y)
        {
          IndexInjective(x, row);
          IndexInjective(y, col);
        }
      }
    }
  }

  // ---------------------------------------------------------------- slices

  function Scaled(c: Elem, out: seq<Elem>): seq<Elem> {
    seq(|out|, i requires 0 <= i < |out| => Mul(c, out[i]))
  }

  /** The build-time tables, and the number of bytes one vector register holds. */
  datatype Tables = Tables(full: array2<Elem>, low: array2<Elem>, high: array2<Elem>, lanes: nat)
  {
    ghost predicate Valid()
      reads full, low, high
    {
      IsMulTable(full) && AreNibbleTables(low, high) && 0 < lanes
    }

    ghost predicate Apart(out: array<Elem>) {
      full as object != out && low as object != out && high as object != out
    }
  }

  /** `mul_slice_xor_low` on the slice of `out` that starts at `at`, from index `from` on. */
  method MulSliceXorLow(table: array2<Elem>, c: Elem, input: seq<Elem>, out: array<Elem>, at: nat, from: nat)
    requires IsMulTable(table) && table as object != out
    requires at + |input| <= out.Length && from <= |input|
    modifies out
    ensures forall j :: 0 <= j < out.Length ==>
              out[j] == if at + from <= j < at + |input| then Add(old(out[j]), Mul(c, input[j - at])) else old(out[j])
  {
    hide Mul, Add, Index;
    for i := from to |input|
      invariant IsMulTable(table)
      invariant forall j :: 0 <= j < out.Length ==>
                  out[j] == if at + from <= j < at + i then Add(old(out[j]), Mul(c, input[j - at])) else old(out[j])
    {
      out[at + i] := Add(out[at + i], table[Index(c), Index(input[i])]);
    }
  }

  /** The vector loop: nibble tables on the first `upto` bytes. */
  method MulSliceXorLanes(low: array2<Elem>, high: array2<Elem>, c: Elem, input: seq<Elem>, out: array<Elem>, at: nat, upto: nat)
    requires AreNibbleTables(low, high) && low as object != out && high as object != out
    requires at + |input| <= out.Length && upto <= |input|
    modifies out
    ensures forall j :: 0 <= j < out.Length ==>
              out[j] == if at <= j < at + upto then Add(old(out[j]), Mul(c, input[j - at])) else old(out[j])
  {
    hide Mul, Add, AreNibbleTables;
    for i := 0 to upto
      invariant AreNibbleTables(low, high)
      invariant forall j :: 0 <= j < out.Length ==>
                  out[j] == if at <= j < at + i then Add(old(out[j]), Mul(c, input[j - at])) else old(out[j])
    {
      var p := NibbleProduct(low, high, c, input[i]);
      out[at + i] := Add(out[at + i], p);
    }
  }

  /** `mul_slice_xor` with vector lanes: nibble tables on whole chunks, the byte table on the remainder. */
  method MulSliceXor(tables: Tables, c: Elem, input: seq<Elem>, out: array<Elem>, at: nat)
    requires tables.Valid() && tables.Apart(out)
    requires at + |input| <= out.Length
    modifies out
    ensures forall j :: 0 <= j < out.Length ==>
              out[j] == if at <= j < at + |input| then Add(old(out[j]), Mul(c, input[j - at])) else old(out[j])
  {
    hide Mul, Add, AreNibbleTables, IsMulTable;
    var whole := |input| - |input| % tables.lanes;
    MulSliceXorLanes(tables.low, tables.high, c, input, out, at, whole);
    MulSliceXorLow(tables.full, c, input, out, at, whole);
  }

  /** One lane: two lookups with the halves of the byte. */
  method NibbleProduct(low: array2<Elem>, high: array2<Elem>, c: Elem, b: Elem) returns (p: Elem)
    requires AreNibbleTables(low, high)
    ensures p == Mul(c, b)
  {
    hide Mul, Index;
    var l, h := b & 0x0F, (b >> 4) & 0x0F;
    NibbleIndices(l, l);
    HighIndex(b);
    assert (b & 0xF0) >> 4 == h && (b & 0xF0) & 0xF0 == b & 0xF0 && l & 0x0F == l;
    MulByHalves(c, b);
    assert IsLowCell(low, c, l) && IsHighCell(high, c, b & 0xF0);
    p := Add(low[Index(c), Index(l)], high[Index(c), Index(h)]);
  }

  /** `mul_slice_in_place_low`: scale by table lookups, from index `from` on. */
  method MulSliceInPlaceLow(table: array2<Elem>, c: Elem, out: array<Elem>, from: nat)
    requires IsMulTable(table) && table as object != out && from <= out.Length
    modifies out
    ensures out[..from] == old(out[..from])
    ensures out[from..] == Scaled(c, old(out[from..]))
  {
    hide Mul, Add, Index;
    for i := from to out.Length
      invariant IsMulTable(table)
      invariant forall j :: from <= j < i ==> out[j] == Mul(c, old(out[j]))
      invariant forall j :: 0 <= j < from || i <= j < out.Length ==> out[j] == old(out[j])
    {
      out[i] := table[Index(c), Index(out[i])];
    }
  }

  /** What the vector form of scaling leaves on whole chunks: its result still contains the old byte. */
  function LaneScaled(c: Elem, out: seq<Elem>): seq<Elem> {
    seq(|out|, i requires 0 <= i < |out| => Add(out[i], Mul(c, out[i])))
  }

  method MulSliceInPlaceLanes(low: array2<Elem>, high: array2<Elem>, c: Elem, out: array<Elem>, upto: nat)
    requires AreNibbleTables(low, high) && low as object != out && high as object != out && upto <= out.Length
    modifies out
    ensures out[..upto] == LaneScaled(c, old(out[..upto]))
    ensures out[upto..] == old(out[upto..])
  {
    hide Mul, Add, AreNibbleTables;
    for i := 0 to upto
      invariant AreNibbleTables(low, high)
      invariant forall j :: 0 <= j < i ==> out[j] == Add(old(out[j]), Mul(c, old(out[j])))
      invariant forall j :: i <= j < out.Length ==> out[j] == old(out[j])
    {
      var p := NibbleProduct(low, high, c, out[i]);
      out[i] := Add(out[i], p);
    }
  }

  /** `mul_slice_in_place` with vector lanes. */
  method MulSliceInPlace(table: array2<Elem>, low: array2<Elem>, high: array2<Elem>, c: Elem, out: array<Elem>, lanes: nat)
    requires IsMulTable(table) && AreNibbleTables(low, high) && 0 < lanes
    requires table as object != out && low as object != out && high as object != out
    modifies out
    ensures out[..] == LaneScaled(c, old(out[..])[..out.Length - out.Length % lanes])
                     + Scaled(c, old(out[..])[out.Length - out.Length % lanes..])
  {
    hide Mul, Add, AreNibbleTables, IsMulTable;
    var whole := out.Length - out.Length % lanes;
    ghost var before := out[..];
    MulSliceInPlaceLanes(low, high, c, out, whole);
    ghost var middle := out[..];
    MulSliceInPlaceLow(table, c, out, whole);
    assert out[..] == out[..whole] + out[whole..];
    assert out[..whole] == middle[..whole] && middle[whole..] == before[whole..];
  }

  /** The vector form of scaling agrees with the scalar form exactly on slices whose whole chunks are zero. */
  lemma LaneScalingIsScaling(c: Elem, out: seq<Elem>, whole: nat)
    requires whole <= |out|
    ensures LaneScaled(c, out[..whole]) + Scaled(c, out[whole..]) == Scaled(c, out) <==> forall i :: 0 <= i < whole ==> out[i] == 0
  {
    hide Mul, Add, Index;
    var l, r := LaneScaled(c, out[..whole]) + Scaled(c, out[whole..]), Scaled(c, out);
    forall i | 0 <= i < |out|
      ensures l[i] == r[i] <==> (i < whole ==> out[i] == 0)
    {
      if i < whole {
        XorSame(out[i], Mul(c, out[i]));
      }
    }
    if forall i :: 0 <= i < whole ==> out[i] == 0 {
      assert l == r;
    } else {
      var i :| 0 <= i < whole && out[i] != 0;
      assert l[i] != r[i];
    }
  }

  lemma XorSame(a: Elem, p: Elem)
    ensures Add(a, p) == p <==> a == 0
  {
  }

  /** Multiplying one full chunk of ones by one with lanes leaves zeros, at either width the source is built for. */
  lemma LaneScalingDiffers(lanes: nat, out: seq<Elem>, whole: nat)
    requires (lanes == 16 || lanes == 32) && out == seq<Elem>(lanes, _ => 1) && whole == |out| - |out| % lanes
    ensures LaneScaled(1, out[..whole]) + Scaled(1, out[whole..]) == seq<Elem>(lanes, _ => 0)
    ensures Scaled(1, out) == out
  {
    hide Mul, Index;
    MulOne(1);
    assert whole == lanes;
  }
}
