/** Falcon hash-to-point: the rejection loop and its branch-free counterpart. */
module FalconHash {
  import opened Division
  import opened BitWords
  import opened FalconBits

  const Q := 12289

  const REJECTED := 0xFFFF

  // ---------------------------------------------------------------- samples

  /** The u-th 16-bit big-endian sample of the squeezed stream. */
  function Sample(stream: seq<U8>, u: nat): U16
    requires 2 * u + 1 < |stream|
  {
    stream[2 * u] as int * 256 + stream[2 * u + 1] as int
  }

  function Samples(stream: seq<U8>, m: nat): (ws: seq<U16>)
    requires 2 * m <= |stream|
    ensures |ws| == m
  {
    seq(m, u requires 0 <= u < m => Sample(stream, u))
  }

  /** The number written by the u-th group of 16 digits, most significant digit first. */
  function Group(s: seq<bool>, u: nat): (w: U16)
    requires 16 * u + 16 <= |s|
    ensures Bits(w, 16) == s[16 * u..16 * u + 16]
  {
    var g := s[16 * u..16 * u + 16];
    BitsOfValue(g);
    PowerTable();
    Value(g)
  }

  /** The first m groups of 16 digits as numbers. */
  function Groups(s: seq<bool>, m: nat): (ws: seq<U16>)
    requires 16 * m <= |s|
    ensures |ws| == m
  {
    seq(m, u requires 0 <= u < m => Group(s, u))
  }

  lemma TwoBytes(stream: seq<U8>, n: nat)
    requires n + 2 <= |stream|
    ensures Stream(stream)[8 * n..8 * n + 16] == Bits(stream[n], 8) + Bits(stream[n + 1], 8)
  {
    hide Bits, Stream;
    var zero, x, y := stream[..n], stream[n], stream[n + 1];
    var s, a, b, c := Stream(stream), Stream(zero), Bits(x, 8), Bits(y, 8);
    StreamPrefix(stream, n + 2);
    assert stream[..n + 2] == zero + [x] + [y];
    StreamSnoc(zero, x);
    StreamSnoc(zero + [x], y);
    assert |a + b + c| == 8 * n + 16;
    LastParts(s, a, b, c);
  }

  lemma LastParts(s: seq<bool>, a: seq<bool>, b: seq<bool>, c: seq<bool>)
    requires |a + b + c| <= |s| && s[..|a + b + c|] == a + b + c
    ensures s[|a|..|a + b + c|] == b + c
  {
    assert s[|a|..|a + b + c|] == (a + b + c)[|a|..];
  }

  /** Sample u is the u-th group of 16 digits of the stream. */
  lemma SampleDigits(stream: seq<U8>, u: nat)
    requires 2 * u + 1 < |stream|
    ensures Bits(Sample(stream, u), 16) == Stream(stream)[16 * u..16 * u + 16]
    ensures Sample(stream, u) == Group(Stream(stream), u)
  {
    hide Bits, Stream, Value;
    var a, b := Bits(stream[2 * u], 8), Bits(stream[2 * u + 1], 8);
    TwoBytes(stream, 2 * u);
    PowerTable();
    ValueOfBits(stream[2 * u], 8);
    ValueOfBits(stream[2 * u + 1], 8);
    ValueOfConcat(a, b);
    BitsOfValue(a + b);
  }

  lemma SamplesAreGroups(stream: seq<U8>, m: nat)
    requires 2 * m <= |stream|
    ensures Samples(stream, m) == Groups(Stream(stream), m)
  {
    hide Sample, Group;
    forall u | 0 <= u < m
      ensures Sample(stream, u) == Group(Stream(stream), u)
    {
      SampleDigits(stream, u);
    }
  }

  predicate Accepts(w: U16) {
    w < 61445
  }

  /** Rejection sampling: the accepted samples, reduced, in order. */
  function Accepted(ws: seq<U16>): (vals: seq<U16>)
    ensures |vals| <= |ws|
    ensures forall k :: 0 <= k < |vals| ==> vals[k] < Q
  {
    if ws == [] then []
    else
      var w := ws[|ws| - 1];
      Accepted(ws[..|ws| - 1]) + if Accepts(w) then [w % Q] else []
  }

  /** For every accepted sample, the number of rejected samples before it. */
  function Gaps(ws: seq<U16>): (d: seq<nat>)
    ensures |d| == |Accepted(ws)|
  {
    if ws == [] then []
    else
      var n := |ws| - 1;
      var was := Gaps(ws[..n]);
      if Accepts(ws[n]) then was + [n - |was|] else was
  }

  lemma {:induction false} GapsGrow(ws: seq<U16>)
    ensures forall k :: 0 <= k < |Gaps(ws)| ==> Gaps(ws)[k] <= |ws| - |Gaps(ws)|
    ensures forall k, l :: 0 <= k <= l < |Gaps(ws)| ==> Gaps(ws)[k] <= Gaps(ws)[l]
  {
    if ws != [] {
      GapsGrow(ws[..|ws| - 1]);
    }
  }

  lemma {:induction false} AcceptedPrefix(ws: seq<U16>, n: nat)
    requires n <= |ws|
    ensures |Accepted(ws[..n])| <= |Accepted(ws)|
    ensures Accepted(ws)[..|Accepted(ws[..n])|] == Accepted(ws[..n])
  {
    if n < |ws| {
      AcceptedPrefix(ws[..|ws| - 1], n);
      assert ws[..|ws| - 1][..n] == ws[..n];
    } else {
      assert ws[..n] == ws;
    }
  }

  // ---------------------------------------------------------------- the variable-time loop

  lemma NoneAccepted()
    ensures Accepted([]) == []
  {
  }

  /** `hash_to_point_vartime`; the loop ends once the stream has yielded 2^logn accepted groups of 16 digits. */
  method HashToPointVartime(stream: seq<U8>, x: array<U16>)
    requires x.Length <= |Accepted(Groups(Stream(stream), |stream| / 2))|
    modifies x
    ensures x[..] == Accepted(Groups(Stream(stream), |stream| / 2))[..x.Length]
  {
    hide Group, Groups, Stream, Accepted, Bits;
    SamplesAreGroups(stream, |stream| / 2);
    ghost var ws := Samples(stream, |stream| / 2);
    NoneAccepted();
    var done, u := 0, 0;
    assert ws[..|ws|] == ws;
    while done < x.Length
      invariant done <= x.Length && u <= |ws|
      invariant done == |Accepted(ws[..u])| && x[..done] == Accepted(ws[..u])
      invariant ws[..|ws|] == ws
      decreases |ws| - u
    {
      var sample := Sample(stream, u);
      var w := sample;
      assert w == ws[u] && ws[..u + 1][..u] == ws[..u];
      OneMoreAccepted(ws[..u + 1]);
      if w < 61445 {
        ghost var q := 0;
        while w >= Q
          invariant 0 <= w && w == sample - q * Q
        {
          w := w - Q;
          q := q + 1;
        }
        DivModUnique(sample, Q, q, w);
        x[done] := w;
        done := done + 1;
      }
      u := u + 1;
    }
    AcceptedPrefix(ws, u);
  }

  // ---------------------------------------------------------------- branch-free reduction

  /** All ones when w >= bound, else zero; both below 2^31. */
  function AtLeastMask(w: U32, bound: U32): U32 {
    Sub32(Sub32(w, bound) / 0x8000_0000, 1)
  }

  lemma MaskValue(w: U32, bound: U32)
    requires w < 0x8000_0000 && bound < 0x8000_0000
    ensures AtLeastMask(w, bound) == if w >= bound then 0xFFFF_FFFF else 0
  {
  }

  lemma SelectedByMask(x: U32, mask: U32)
    requires mask == 0 || mask == 0xFFFF_FFFF
    ensures And(x, mask) == And(mask, x) == (if mask == 0 then 0 else x)
    ensures Or(x, mask) == if mask == 0 then x else 0xFFFF_FFFF
  {
    PowerTable();
    AndOnes(x, 32);
    OrOnes(x, 32);
    OrZero(x);
  }

  /** One conditional subtraction. */
  function SubtractedOnce(w: U32, bound: U32): U32 {
    Sub32(w, And(bound, AtLeastMask(w, bound)))
  }

  lemma ReducedValue(w: U32, bound: U32)
    requires w < 0x8000_0000 && bound < 0x8000_0000
    ensures SubtractedOnce(w, bound) == if w >= bound then w - bound else w
  {
    hide And, AtLeastMask;
    MaskValue(w, bound);
    SelectedByMask(bound, AtLeastMask(w, bound));
    if w >= bound {
      DivModUnique(w - bound, 0x1_0000_0000, 0, w - bound);
    } else {
      DivModUnique(w, 0x1_0000_0000, 0, w);
    }
  }

  /** The three subtractions, the rejection mask, and the cast to 16 bits. */
  function Branchless(w: U16): U16 {
    var a := SubtractedOnce(w, 24578);
    var b := SubtractedOnce(a, 24578);
    var c := SubtractedOnce(b, 12289);
    Or(c, AtLeastMask(w, 61445)) % 0x1_0000
  }

  /** The branch-free sample is the loop's value, or the marker. */
  lemma BranchlessIsRejection(w: U16)
    ensures Branchless(w) == if Accepts(w) then w % Q else REJECTED
  {
    hide And, Or, SubtractedOnce, AtLeastMask, Sub32;
    ReducedValue(w, 24578);
    var a := SubtractedOnce(w, 24578);
    ReducedValue(a, 24578);
    var b := SubtractedOnce(a, 24578);
    ReducedValue(b, 12289);
    var c := SubtractedOnce(b, 12289);
    MaskValue(w, 61445);
    SelectedByMask(c, AtLeastMask(w, 61445));
    var q := (if w >= 24578 then 2 else 0) + (if a >= 24578 then 2 else 0) + (if b >= 12289 then 1 else 0);
    if Accepts(w) {
      DivModUnique(w, Q, q, c);
    }
  }

  // ---------------------------------------------------------------- where the accepted samples stand

  /** Remaining displacement before the pass with stride p. */
  function Base(d: nat, p: nat): (b: nat)
    requires p > 0
    ensures b <= d
  {
    d - d % p
  }

  /** Inside the pass with stride p, the first v accepted samples have been moved. */
  function Places(d: seq<nat>, v: nat, p: nat): (pl: seq<nat>)
    requires p > 0
    ensures |pl| == |d|
  {
    seq(|d|, k requires 0 <= k < |d| => k + if k < v then Base(d[k], 2 * p) else Base(d[k], p))
  }

  /** Every accepted value stands at its place and every other cell holds the marker. */
  ghost predicate Spread(c: seq<U16>, vals: seq<U16>, pl: seq<nat>) {
    && |vals| == |pl|
    && (forall k :: 0 <= k < |pl| ==> pl[k] < |c| && c[pl[k]] == vals[k] < Q)
    && (forall i :: 0 <= i < |c| && c[i] != REJECTED ==> i in pl)
  }

  /** The state in the middle of a pass: cell u is next, v accepted samples were met. */
  ghost predicate Midway(c: seq<U16>, vals: seq<U16>, d: seq<nat>, p: nat, u: nat, v: nat) {
    && p > 0 && v <= |d|
    && (forall k, l :: 0 <= k <= l < |d| ==> d[k] <= d[l])
    && Spread(c, vals, Places(d, v, p))
    && (forall k :: 0 <= k < v ==> Places(d, v, p)[k] < u)
    && (forall k :: v <= k < |d| ==> u <= Places(d, v, p)[k])
  }

  lemma BaseMonotone(a: nat, b: nat, p: nat)
    requires a <= b && p > 0
    ensures Base(a, p) <= Base(b, p)
  {
    var q, r := a / p, b / p;
    assert a == q * p + a % p && b == r * p + b % p;
    ProductGrows(q, r, p);
    ProductGrows(r, q, p);
  }

  /** Doubling the stride drops exactly the binary digit p of the displacement. */
  lemma BaseHalves(d: nat, p: nat)
    requires p > 0
    ensures Base(d, p) == Base(d, 2 * p) + if Base(d, p) / p % 2 == 1 then p else 0
  {
    var q, r := d / p, d % p;
    assert d == q * p + r;
    DivModUnique(q * p, p, q, 0);
    var h, o := q / 2, q % 2;
    HalvedMultiple(q, h, o, p);
    DivModUnique(d, 2 * p, h, o * p + r);
    hide Base;
    BaseIsMultiple(d, p, q, r);
    BaseIsMultiple(d, 2 * p, h, o * p + r);
  }

  lemma HalvedMultiple(q: nat, h: nat, o: nat, p: nat)
    requires q == 2 * h + o && 0 <= o <= 1
    ensures q * p == h * (2 * p) + o * p
    ensures o * p == if o == 1 then p else 0
  {
  }

  lemma BaseIsMultiple(d: nat, p: nat, q: nat, r: nat)
    requires p > 0 && d == q * p + r && d % p == r
    ensures Base(d, p) == q * p
  {
  }

  /** A marker is passed over. */
  lemma SkipMarker(c: seq<U16>, vals: seq<U16>, d: seq<nat>, p: nat, u: nat, v: nat)
    requires Midway(c, vals, d, p, u, v) && u < |c| && c[u] == REJECTED
    ensures Midway(c, vals, d, p, u + 1, v)
  {
    var pl := Places(d, v, p);
    forall k | v <= k < |d|
      ensures u + 1 <= pl[k]
    {
      assert c[pl[k]] == vals[k];
    }
  }

  /** An accepted value met at cell u is number v, and its displacement is u - v. */
  lemma MetInOrder(c: seq<U16>, vals: seq<U16>, d: seq<nat>, p: nat, u: nat, v: nat)
    requires Midway(c, vals, d, p, u, v) && u < |c| && c[u] != REJECTED
    ensures v < |d| && u == v + Base(d[v], p)
  {
    hide Base;
    var pl := Places(d, v, p);
    var k :| 0 <= k < |pl| && pl[k] == u;
    assert k >= v;
    assert u <= pl[v];
    if k > v {
      BaseMonotone(d[v], d[k], p);
    }
  }

  lemma MovedPlaces(d: seq<nat>, v: nat, p: nat)
    requires p > 0 && v < |d|
    ensures Places(d, v + 1, p) == Places(d, v, p)[v := v + Base(d[v], 2 * p)]
  {
  }

  /** An accepted value with the digit set swaps with a marker; without it, it stays. */
  lemma MoveValue(c: seq<U16>, c': seq<U16>, vals: seq<U16>, d: seq<nat>, p: nat, u: nat, v: nat)
    requires Midway(c, vals, d, p, u, v) && u < |c| && c[u] != REJECTED
    requires var j := u - v;
             if j / p % 2 == 1 then p <= u && c' == c[u := c[u - p]][u - p := c[u]] else c' == c
    ensures Midway(c', vals, d, p, u + 1, v + 1)
  {
    MetInOrder(c, vals, d, p, u, v);
    BaseHalves(d[v], p);
    MovedPlaces(d, v, p);
    hide Base;
    var pl, pl' := Places(d, v, p), Places(d, v + 1, p);
    assert pl[v] == u;
    forall k | v < k < |d|
      ensures u < pl[k]
    {
      BaseMonotone(d[v], d[k], p);
    }
    var j := u - v;
    if j / p % 2 == 1 {
      var t := u - p;
      forall k | 0 <= k < v
        ensures pl[k] < t
      {
        BaseMonotone(d[k], d[v], 2 * p);
      }
      SwapSpread(c, c', vals, pl, pl', u, t, v);
    } else {
      assert pl' == pl;
    }
  }

  lemma SwapSpread(c: seq<U16>, c': seq<U16>, vals: seq<U16>, pl: seq<nat>, pl': seq<nat>, u: nat, t: nat, v: nat)
    requires Spread(c, vals, pl) && v < |pl| && pl[v] == u && t < u && pl' == pl[v := t]
    requires forall k :: 0 <= k < v ==> pl[k] < t
    requires forall k :: v < k < |pl| ==> u < pl[k]
    requires c' == c[u := c[t]][t := c[u]]
    ensures Spread(c', vals, pl')
  {
    assert forall k :: 0 <= k < |pl| ==> pl[k] != t;
    assert t !in pl;
    forall i | 0 <= i < |c'| && c'[i] != REJECTED
      ensures i in pl'
    {
      if i == t {
        assert pl'[v] == t;
      } else {
        assert c[i] != REJECTED;
        var k :| 0 <= k < |pl| && pl[k] == i;
        assert pl'[k] == i;
      }
    }
  }

  lemma NextInside(c: seq<U16>, vals: seq<U16>, d: seq<nat>, p: nat, u: nat, v: nat)
    requires Midway(c, vals, d, p, u, v) && v < |d|
    ensures u < |c|
  {
    hide Base;
    assert u <= Places(d, v, p)[v] < |c|;
  }

  /** At the end of a pass everything has moved: the next pass starts. */
  lemma PassDone(c: seq<U16>, vals: seq<U16>, d: seq<nat>, p: nat, v: nat)
    requires Midway(c, vals, d, p, |c|, v)
    ensures Midway(c, vals, d, 2 * p, 0, 0)
  {
    var pl := Places(d, v, p);
    if v < |d| {
      NextInside(c, vals, d, p, |c|, v);
      assert false;
    }
    assert Places(d, 0, 2 * p) == pl;
  }

  // ---------------------------------------------------------------- before the first and after the last pass

  /** The samples as the branch-free loop stores them. */
  function Stored(ws: seq<U16>): (c: seq<U16>)
    ensures |c| == |ws|
  {
    seq(|ws|, i requires 0 <= i < |ws| => Branchless(ws[i]))
  }

  lemma {:induction false} StoredSpread(ws: seq<U16>)
    ensures Spread(Stored(ws), Accepted(ws), Places(Gaps(ws), 0, 1))
  {
    hide Branchless, Spread, Accepted, Gaps, Places;
    if ws == [] {
      NothingStored();
    } else {
      var n := |ws| - 1;
      var was := ws[..n];
      StoredSpread(was);
      StoredNext(was, ws[n]);
      assert ws == was + [ws[n]];
    }
  }

  lemma NothingStored()
    ensures Spread(Stored([]), Accepted([]), Places(Gaps([]), 0, 1))
  {
    assert |Stored([])| == 0 && Accepted([]) == [] && Gaps([]) == [];
  }

  lemma StoredNext(was: seq<U16>, w: U16)
    requires Spread(Stored(was), Accepted(was), Places(Gaps(was), 0, 1))
    ensures Spread(Stored(was + [w]), Accepted(was + [w]), Places(Gaps(was + [w]), 0, 1))
  {
    hide Branchless, Places, Spread, Accepted, Gaps;
    var ws, n := was + [w], |was|;
    assert ws[..n] == was;
    BranchlessIsRejection(w);
    OneMoreSample(ws);
    assert Stored(ws) == Stored(was) + [Branchless(w)];
    var pl := Places(Gaps(was), 0, 1);
    if Accepts(w) {
      PlacesSnoc(Gaps(was), n - |Gaps(was)|);
      SpreadValue(Stored(was), Accepted(was), pl, w % Q);
    } else {
      SpreadMarker(Stored(was), Accepted(was), pl);
      assert Accepted(was) + [] == Accepted(was);
    }
  }

  lemma OneMoreSample(ws: seq<U16>)
    requires ws != []
    ensures var n := |ws| - 1;
            && Accepted(ws) == Accepted(ws[..n]) + (if Accepts(ws[n]) then [ws[n] % Q] else [])
            && Gaps(ws) == if Accepts(ws[n]) then Gaps(ws[..n]) + [n - |Gaps(ws[..n])|] else Gaps(ws[..n])
  {
    hide *;
    OneMoreAccepted(ws);
    OneMoreGap(ws);
  }

  lemma OneMoreAccepted(ws: seq<U16>)
    requires ws != []
    ensures Accepted(ws) == Accepted(ws[..|ws| - 1]) + if Accepts(ws[|ws| - 1]) then [ws[|ws| - 1] % Q] else []
  {
  }

  lemma OneMoreGap(ws: seq<U16>)
    requires ws != []
    ensures var n := |ws| - 1; Gaps(ws) == if Accepts(ws[n]) then Gaps(ws[..n]) + [n - |Gaps(ws[..n])|] else Gaps(ws[..n])
  {
    hide Accepted;
  }

  lemma PlacesSnoc(d: seq<nat>, x: nat)
    ensures Places(d + [x], 0, 1) == Places(d, 0, 1) + [|d| + x]
  {
  }

  lemma SpreadMarker(c: seq<U16>, vals: seq<U16>, pl: seq<nat>)
    requires Spread(c, vals, pl)
    ensures Spread(c + [REJECTED], vals, pl)
  {
  }

  lemma SpreadValue(c: seq<U16>, vals: seq<U16>, pl: seq<nat>, x: U16)
    requires Spread(c, vals, pl) && x < Q
    ensures Spread(c + [x], vals + [x], pl + [|c|])
  {
    var pl' := pl + [|c|];
    assert pl'[|pl|] == |c|;
    forall i | 0 <= i < |c| && c[i] != REJECTED
      ensures i in pl'
    {
      assert i in pl;
    }
  }

  lemma StoredMidway(ws: seq<U16>)
    ensures Midway(Stored(ws), Accepted(ws), Gaps(ws), 1, 0, 0)
  {
    GapsGrow(ws);
    StoredSpread(ws);
  }

  /** Once the stride exceeds every gap, cell k holds accepted sample k. */
  lemma Compacted(c: seq<U16>, vals: seq<U16>, d: seq<nat>, p: nat, n: nat)
    requires Midway(c, vals, d, p, 0, 0) && n <= |d| && forall k :: 0 <= k < |d| ==> d[k] < p
    ensures |vals| <= |c| && c[..n] == vals[..n]
  {
    var pl := Places(d, 0, p);
    forall k | 0 <= k < |d|
      ensures pl[k] == k
    {
      DivModUnique(d[k], p, 0, d[k]);
    }
    assert |d| > 0 ==> pl[|d| - 1] == |d| - 1;
  }

  /** Without n accepted samples, a marker is left among the first n cells. */
  lemma NotFilled(c: seq<U16>, vals: seq<U16>, d: seq<nat>, p: nat, n: nat)
    requires Midway(c, vals, d, p, 0, 0) && |d| < n <= |c|
    ensures exists i :: 0 <= i < n && c[i] == REJECTED
  {
    var pl := Places(d, 0, p);
    forall k, l | 0 <= k < l < |d|
      ensures pl[k] < pl[l]
    {
      BaseMonotone(d[k], d[l], p);
    }
    if forall i :: 0 <= i < n ==> c[i] != REJECTED {
      FillsInOrder(pl, n);
      assert false;
    }
  }

  lemma {:induction false} FillsInOrder(pl: seq<nat>, n: nat)
    requires forall k, l :: 0 <= k < l < |pl| ==> pl[k] < pl[l]
    requires forall i :: 0 <= i < n ==> i in pl
    ensures n <= |pl|
    ensures forall k :: 0 <= k < n ==> pl[k] == k
  {
    if n > 0 {
      FillsInOrder(pl, n - 1);
      assert n - 1 in pl;
      var k :| 0 <= k < |pl| && pl[k] == n - 1;
      if k > n - 1 {
        AtLeastIndex(pl, k);
      }
    }
  }

  lemma {:induction false} AtLeastIndex(pl: seq<nat>, k: nat)
    requires forall k, l :: 0 <= k < l < |pl| ==> pl[k] < pl[l]
    requires k < |pl|
    ensures k <= pl[k]
  {
    if k > 0 {
      AtLeastIndex(pl, k - 1);
    }
  }

  // ---------------------------------------------------------------- hash_to_point_ct

  /** The number of extra samples for each degree 2^logn. */
  const OVERTAB: seq<nat> := [0, 65, 67, 71, 77, 86, 100, 122, 154, 205, 287]

  lemma BuffersSuffice(logn: nat)
    requires logn <= 10
    ensures Power(logn) + OVERTAB[logn] <= 2 * Power(logn) + 63 && OVERTAB[logn] < 512
    ensures Power(logn) <= 1024
  {
    PowerTable();
  }

  /** The three buffers as one row of cells. */
  function Whole(x: array<U16>, tt1: array<U16>, tt2: array<U16>): (c: seq<U16>)
    reads x, tt1, tt2
    ensures |c| == x.Length + tt1.Length + tt2.Length
  {
    x[..] + tt1[..] + tt2[..]
  }

  method ReadCell(x: array<U16>, tt1: array<U16>, tt2: array<U16>, u: nat) returns (w: U16)
    requires tt1.Length == x.Length && u < 2 * x.Length + tt2.Length
    ensures w == Whole(x, tt1, tt2)[u]
  {
    var n := x.Length;
    w := if u < n then x[u] else if u < 2 * n then tt1[u - n] else tt2[u - 2 * n];
  }

  method WriteCell(x: array<U16>, tt1: array<U16>, tt2: array<U16>, u: nat, w: U16)
    requires tt1.Length == x.Length && u < 2 * x.Length + tt2.Length && x != tt1 && x != tt2 && tt1 != tt2
    modifies x, tt1, tt2
    ensures Whole(x, tt1, tt2) == old(Whole(x, tt1, tt2))[u := w]
  {
    var n := x.Length;
    if u < n {
      x[u] := w;
    } else if u < 2 * n {
      tt1[u - n] := w;
    } else {
      tt2[u - 2 * n] := w;
    }
  }

  /** A swap under an all-or-nothing mask. */
  lemma MaskedSwap(sv: U16, dv: U16, mk: U32)
    requires mk == 0 || mk == 0xFFFF_FFFF
    ensures Xor(sv, And(mk, Xor(sv, dv))) == if mk == 0 then sv else dv
    ensures Xor(dv, And(mk, Xor(sv, dv))) == if mk == 0 then dv else sv
  {
    hide Xor, And;
    PowerTable();
    XorBelow(sv, dv, 16);
    SelectedByMask(Xor(sv, dv), mk);
    XorZero(sv);
    XorZero(dv);
    XorTwice(sv, dv);
    XorTwice(dv, sv);
    XorComm(sv, dv);
  }

  /** All ones exactly if the displacement has the digit p. */
  lemma DigitMask(j: U32, t: nat)
    requires t <= 9
    ensures And(j, Power(t)) + 0x1FF < 0x1_0000_0000
    ensures Sub32(0, (And(j, Power(t)) + 0x1FF) / 0x200) == if j / Power(t) % 2 == 1 then 0xFFFF_FFFF else 0
  {
    hide And;
    PowerTable();
    PowerMonotone(t, 9);
    AndPower(j, t);
  }

  /** All ones exactly if the value is an accepted one. */
  lemma AcceptedMask(sv: U16)
    requires sv < Q || sv == REJECTED
    ensures Sub32(sv / 0x8000, 1) == if sv < Q then 0xFFFF_FFFF else 0
  {
  }

  /** What one step does to the cells. */
  function Stepped(c: seq<U16>, p: nat, u: nat, v: nat): seq<U16>
    requires p > 0 && u < |c|
  {
    if c[u] < Q && (u - v) / p % 2 == 1 && p <= u then c[u := c[u - p]][u - p := c[u]] else c
  }

  /** One step of a pass. */
  method PassStep(x: array<U16>, tt1: array<U16>, tt2: array<U16>, ghost t: nat, p: nat, u: nat, v: nat) returns (v': nat)
    requires tt1.Length == x.Length && u < 2 * x.Length + tt2.Length < 0x1_0000 && x != tt1 && x != tt2 && tt1 != tt2
    requires t <= 9 && p == Power(t) && v <= u
    requires var sv := Whole(x, tt1, tt2)[u]; sv < Q || sv == REJECTED
    modifies x, tt1, tt2
    ensures v' == if old(Whole(x, tt1, tt2))[u] < Q then v + 1 else v
    ensures Whole(x, tt1, tt2) == Stepped(old(Whole(x, tt1, tt2)), p, u, v)
  {
    hide And, Xor, Whole, Sub32;
    var sv := ReadCell(x, tt1, tt2, u);
    var j: U32 := Sub32(u, v);
    var mk: U32 := Sub32(sv / 0x8000, 1);
    AcceptedMask(sv);
    v' := Sub32(v, mk);
    Difference(u, v);
    Increment(v, mk);
    if !(u < p) {
      var dv := ReadCell(x, tt1, tt2, u - p);
      DigitMask(j, t);
      var digit: U32 := Sub32(0, (And(j, p) + 0x1FF) / 0x200);
      SelectedByMask(digit, mk);
      mk := And(mk, digit);
      MaskedSwap(sv, dv, mk);
      ghost var c: seq<U16> := Whole(x, tt1, tt2);
      assert c[u := sv][u - p := dv] == c;
      WriteCell(x, tt1, tt2, u, Xor(sv, And(mk, Xor(sv, dv))));
      WriteCell(x, tt1, tt2, u - p, Xor(dv, And(mk, Xor(sv, dv))));
    }
  }

  lemma Difference(u: nat, v: nat)
    requires v <= u < 0x1_0000
    ensures Sub32(u, v) == u - v
  {
  }

  lemma Increment(v: nat, mk: U32)
    requires v < 0x1_0000 && (mk == 0 || mk == 0xFFFF_FFFF)
    ensures Sub32(v, mk) == if mk == 0 then v else v + 1
  {
  }

  lemma StepMidway(c: seq<U16>, vals: seq<U16>, d: seq<nat>, p: nat, u: nat, v: nat)
    requires Midway(c, vals, d, p, u, v) && v <= u < |c|
    ensures c[u] < Q || c[u] == REJECTED
    ensures Midway(Stepped(c, p, u, v), vals, d, p, u + 1, if c[u] < Q then v + 1 else v)
  {
    hide Base;
    if c[u] == REJECTED {
      SkipMarker(c, vals, d, p, u, v);
    } else {
      MetInOrder(c, vals, d, p, u, v);
      assert c[u] == vals[v] by {
        assert Places(d, v, p)[v] == u;
      }
      if (u - v) / p % 2 == 1 {
        DigitMeansRoom(u, v, p);
      }
      MoveValue(c, Stepped(c, p, u, v), vals, d, p, u, v);
    }
  }

  lemma DigitMeansRoom(u: nat, v: nat, p: nat)
    requires p > 0 && v <= u && (u - v) / p % 2 == 1
    ensures p <= u
  {
    if u - v < p {
      DivModUnique(u - v, p, 0, u - v);
    }
  }

  lemma SteppedPrefix(c: seq<U16>, m: nat, p: nat, u: nat, v: nat)
    requires u < m <= |c| && p > 0
    ensures Stepped(c, p, u, v)[..m] == Stepped(c[..m], p, u, v)
  {
  }

  /** One pass over all samples: every accepted value loses the binary digit p of its displacement. */
  method Pass(x: array<U16>, tt1: array<U16>, tt2: array<U16>, m: nat, ghost t: nat, p: nat, ghost vals: seq<U16>, ghost d: seq<nat>)
    requires tt1.Length == x.Length && m <= 2 * x.Length + tt2.Length < 0x1_0000 && x != tt1 && x != tt2 && tt1 != tt2
    requires t <= 9 && p == Power(t) && Midway(Whole(x, tt1, tt2)[..m], vals, d, p, 0, 0)
    modifies x, tt1, tt2
    ensures Midway(Whole(x, tt1, tt2)[..m], vals, d, 2 * p, 0, 0)
  {
    hide Whole, Midway, Stepped;
    var v := 0;
    for u := 0 to m
      invariant v <= u && Midway(Whole(x, tt1, tt2)[..m], vals, d, p, u, v)
    {
      ghost var c: seq<U16> := Whole(x, tt1, tt2);
      StepMidway(c[..m], vals, d, p, u, v);
      SteppedPrefix(c, m, p, u, v);
      v := PassStep(x, tt1, tt2, t, p, u, v);
    }
    PassDone(Whole(x, tt1, tt2)[..m], vals, d, p, v);
  }

  /** The sampling loop: every sample is stored, rejected ones as markers. */
  method DrawSamples(stream: seq<U8>, x: array<U16>, tt1: array<U16>, tt2: array<U16>, m: nat)
    requires tt1.Length == x.Length && m <= 2 * x.Length + tt2.Length && x != tt1 && x != tt2 && tt1 != tt2
    requires 2 * m <= |stream|
    modifies x, tt1, tt2
    ensures Whole(x, tt1, tt2)[..m] == Stored(Samples(stream, m))
  {
    hide Whole, Branchless;
    for u := 0 to m
      invariant forall i :: 0 <= i < u ==> Whole(x, tt1, tt2)[i] == Branchless(Sample(stream, i))
    {
      WriteCell(x, tt1, tt2, u, Branchless(Sample(stream, u)));
    }
  }

  /** All passes: the stride doubles until it exceeds every gap. */
  method Passes(x: array<U16>, tt1: array<U16>, tt2: array<U16>, m: nat, over: nat, ghost vals: seq<U16>, ghost d: seq<nat>)
    returns (ghost stride: nat)
    requires tt1.Length == x.Length && m <= 2 * x.Length + tt2.Length < 0x1_0000 && x != tt1 && x != tt2 && tt1 != tt2
    requires over < 512 && Midway(Whole(x, tt1, tt2)[..m], vals, d, 1, 0, 0)
    modifies x, tt1, tt2
    ensures over < stride && Midway(Whole(x, tt1, tt2)[..m], vals, d, stride, 0, 0)
  {
    hide Midway, Whole;
    PowerTable();
    var p := 1;
    ghost var t := 0;
    while p <= over
      invariant p == Power(t) && t <= 9
      invariant Midway(Whole(x, tt1, tt2)[..m], vals, d, p, 0, 0)
      decreases over - p
    {
      Pass(x, tt1, tt2, m, t, p, vals, d);
      if t == 9 {
        assert false;
      }
      t := t + 1;
      p := 2 * p;
    }
    stride := p;
  }

  lemma WholeStart(x: array<U16>, tt1: array<U16>, tt2: array<U16>, m: nat)
    requires x.Length <= m <= |Whole(x, tt1, tt2)|
    ensures Whole(x, tt1, tt2)[..m][..x.Length] == x[..]
  {
  }

  /** `hash_to_point_ct`: with 2^logn accepted groups of 16 digits the first ones in order, otherwise a marker remains. */
  method HashToPointCt(stream: seq<U8>, x: array<U16>, logn: nat, tt1: array<U16>)
    requires logn <= 10 && x.Length == tt1.Length == Power(logn) && x != tt1
    requires 2 * (Power(logn) + OVERTAB[logn]) <= |stream|
    modifies x, tt1
    ensures var found := Accepted(Groups(Stream(stream), Power(logn) + OVERTAB[logn]));
            if Power(logn) <= |found| then x[..] == found[..Power(logn)] else REJECTED in x[..]
  {
    hide Midway, Accepted, Gaps, Samples, Groups, Power, Stored, Whole;
    BuffersSuffice(logn);
    SamplesAreGroups(stream, Power(logn) + OVERTAB[logn]);
    var tt2 := new U16[63];
    var n := x.Length;
    var over := OVERTAB[logn];
    var m := n + over;
    ghost var ws := Samples(stream, m);
    ghost var vals, d := Accepted(ws), Gaps(ws);
    DrawSamples(stream, x, tt1, tt2, m);
    StoredMidway(ws);
    ghost var p := Passes(x, tt1, tt2, m, over, vals, d);
    ghost var c: seq<U16> := Whole(x, tt1, tt2)[..m];
    WholeStart(x, tt1, tt2, m);
    GapsGrow(ws);
    if n <= |vals| {
      Compacted(c, vals, d, p, n);
    } else {
      NotFilled(c, vals, d, p, n);
    }
  }

  /** Enough samples are accepted exactly if no more are rejected than the degree allows. */
  lemma RejectionsAllowed(stream: seq<U8>, logn: nat)
    requires logn <= 10 && 2 * (Power(logn) + OVERTAB[logn]) <= |stream|
    ensures var m := Power(logn) + OVERTAB[logn];
            var allowed := match logn case 0 => 0 case 1 => 65 case 2 => 67 case 3 => 71 case 4 => 77 case 5 => 86
                                      case 6 => 100 case 7 => 122 case 8 => 154 case 9 => 205 case _ => 287;
            var found := |Accepted(Groups(Stream(stream), m))|;
            Power(logn) <= found <==> m - found <= allowed
  {
    hide Accepted, Groups, Power;
  }

  /** On one stream, the branch-free result is the loop's result exactly when enough of the drawn samples are accepted. */
  lemma SamePoint(stream: seq<U8>, m: nat, n: nat, loop: seq<U16>, ct: seq<U16>)
    requires 2 * m <= |stream| && n <= |Accepted(Groups(Stream(stream), |stream| / 2))|
    requires loop == Accepted(Groups(Stream(stream), |stream| / 2))[..n]
    requires var found := Accepted(Groups(Stream(stream), m)); if n <= |found| then ct == found[..n] else REJECTED in ct
    ensures ct == loop <==> n <= |Accepted(Groups(Stream(stream), m))|
  {
    hide Group;
    var all := Groups(Stream(stream), |stream| / 2);
    assert all[..m] == Groups(Stream(stream), m);
    AcceptedPrefix(all, m);
    hide Accepted;
    var found := Accepted(Groups(Stream(stream), m));
    if n <= |found| {
      assert Accepted(all)[..|found|][..n] == Accepted(all)[..n];
    } else {
      assert forall k :: 0 <= k < n ==> loop[k] < Q;
    }
  }
}
