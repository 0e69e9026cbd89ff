/** The recursive Merkle tree, its flat in-order layout, and audit paths. */
module MerkleShape {
  import opened BitWords

  // ---------------------------------------------------------------- powers of two

  /** The exponent of the least power of two that is at least n. */
  function CeilLog(n: nat): (q: nat)
    requires n > 0
    ensures n <= Power(q)
    ensures n >= 2 ==> q >= 1 && Power(q - 1) < n
  {
    if n == 1 then 0 else 1 + CeilLog((n + 1) / 2)
  }

  /** The exponent of the greatest power of two that is at most n. */
  function FloorLog(n: nat): (q: nat)
    requires n > 0
    ensures Power(q) <= n < 2 * Power(q)
  {
    if n == 1 then 0 else 1 + FloorLog(n / 2)
  }

  /** The greatest power of two below n. */
  function Split(n: nat): (p: nat)
    requires n >= 2
    ensures 0 < p < n <= 2 * p
  {
    Power(CeilLog(n) - 1)
  }

  lemma {:induction false} PowerStrict(k: nat, l: nat)
    requires k < l
    ensures 2 * Power(k) <= Power(l)
  {
    if k + 1 < l {
      PowerStrict(k, l - 1);
    }
  }

  lemma SplitUnique(n: nat, h: nat)
    requires Power(h) < n <= 2 * Power(h)
    ensures Split(n) == Power(h) && CeilLog(n) == h + 1
  {
    var q := CeilLog(n) - 1;
    if q < h {
      PowerStrict(q, h);
    } else if h < q {
      PowerStrict(h, q);
    }
  }

  // ---------------------------------------------------------------- tree and layout

  /** The root of the tree over the leaves, split at the greatest power of two below their number. */
  function Root<T>(f: (T, T) -> T, ls: seq<T>): T
    requires ls != []
    decreases |ls|
  {
    if |ls| == 1 then ls[0]
    else
      var p := Split(|ls|);
      f(Root(f, ls[..p]), Root(f, ls[p..]))
  }

  ghost predicate Associative<T(!new)>(f: (T, T) -> T) {
    forall a, b, c :: f(f(a, b), c) == f(a, f(b, c))
  }

  /** All leaves combined one after the other. */
  ghost function InOrder<T>(f: (T, T) -> T, ls: seq<T>): T
    requires ls != []
  {
    if |ls| == 1 then ls[0] else f(InOrder(f, ls[..|ls| - 1]), ls[|ls| - 1])
  }

  lemma {:induction false} InOrderParts<T(!new)>(f: (T, T) -> T, a: seq<T>, b: seq<T>)
    requires Associative(f) && a != [] && b != []
    ensures InOrder(f, a + b) == f(InOrder(f, a), InOrder(f, b))
    decreases |b|
  {
    var n := |b| - 1;
    assert (a + b)[..|a + b| - 1] == a + b[..n];
    if n == 0 {
      assert a + b[..n] == a;
    } else {
      InOrderParts(f, a, b[..n]);
      assert f(f(InOrder(f, a), InOrder(f, b[..n])), b[n]) == f(InOrder(f, a), f(InOrder(f, b[..n]), b[n]));
    }
  }

  /** The root contains every leaf once and in order: where grouping does not matter, it is the leaves combined from left to right. */
  lemma {:induction false} RootInOrder<T(!new)>(f: (T, T) -> T, ls: seq<T>)
    requires Associative(f) && ls != []
    ensures Root(f, ls) == InOrder(f, ls)
    decreases |ls|
  {
    hide Associative;
    if |ls| > 1 {
      var p := Split(|ls|);
      RootInOrder(f, ls[..p]);
      RootInOrder(f, ls[p..]);
      InOrderParts(f, ls[..p], ls[p..]);
      assert ls == ls[..p] + ls[p..];
    }
  }

  /** Left part, root, right part. */
  function Layout<T>(f: (T, T) -> T, ls: seq<T>): (nodes: seq<T>)
    requires ls != []
    ensures |nodes| == 2 * |ls| - 1
    decreases |ls|
  {
    if |ls| == 1 then ls
    else
      var p := Split(|ls|);
      Layout(f, ls[..p]) + [Root(f, ls)] + Layout(f, ls[p..])
  }

  /** Where the root of n leaves stands. */
  function RootAt(n: nat): (k: nat)
    requires n > 0
    ensures k < 2 * n - 1
  {
    if n == 1 then 0 else 2 * Split(n) - 1
  }

  lemma RootInLayout<T>(f: (T, T) -> T, ls: seq<T>)
    requires ls != []
    ensures Layout(f, ls)[RootAt(|ls|)] == Root(f, ls)
  {
  }

  lemma RootAtBelow(n: nat, h: nat)
    requires 0 < n <= Power(h)
    ensures RootAt(n) <= Power(h) - 1
    ensures n == Power(h) ==> RootAt(n) == Power(h) - 1
  {
    if n > 1 {
      var q := CeilLog(n);
      if h < q {
        PowerMonotone(h, q - 1);
        assert false;
      } else if q < h {
        PowerStrict(q, h);
      }
    }
  }

  /** The first leaf of block b among blocks of w leaves. */
  function Start(b: nat, w: nat): nat {
    b * w
  }

  /** Block b of w leaves, as far as its leaves exist. */
  function Block<T>(ls: seq<T>, w: nat, b: nat): (l: seq<T>)
    requires Start(b, w) < |ls| && w > 0
    ensures 0 < |l| == if Start(b, w) + w <= |ls| then w else |ls| - Start(b, w)
  {
    if Start(b, w) + w <= |ls| then ls[Start(b, w)..Start(b, w) + w] else ls[Start(b, w)..]
  }

  /** Every aligned block of leaves s .. e, clipped or not, has its own layout as a contiguous part of the whole. */
  lemma {:induction false} BlockLayout<T>(f: (T, T) -> T, ls: seq<T>, h: nat, b: nat, s: nat, e: nat)
    requires s == Start(b, Power(h)) < e <= |ls| && (e == s + Power(h) || (e == |ls| && e < s + Power(h)))
    ensures Layout(f, ls)[2 * s..2 * e - 1] == Layout(f, ls[s..e])
    decreases |ls|
  {
    hide Start, Layout, Root, Split, Power;
    if |ls| <= Power(h) {
      BlockZero(b, Power(h), |ls|);
      assert ls[0..|ls|] == ls && Layout(f, ls)[0..2 * |ls| - 1] == Layout(f, ls);
    } else {
      var p := Split(|ls|);
      var m := AlignedSplit(|ls|, h, b);
      var lo, hi := Layout(f, ls[..p]), Layout(f, ls[p..]);
      LayoutParts(f, ls);
      if b < m {
        PartOfLeft(ls, p, s, e);
        BlockLayout(f, ls[..p], h, b, s, e);
        SliceLeft(lo, Root(f, ls), hi, 2 * s, 2 * e - 1);
      } else {
        PartOfRight(ls, p, s, e);
        BlockLayout(f, ls[p..], h, b - m, s - p, e - p);
        SliceRight(lo, Root(f, ls), hi, 2 * (s - p), 2 * (e - p) - 1);
      }
    }
  }

  lemma PartOfLeft<T>(ls: seq<T>, p: nat, s: nat, e: nat)
    requires s <= e <= p <= |ls|
    ensures ls[..p][s..e] == ls[s..e]
  {
  }

  lemma PartOfRight<T>(ls: seq<T>, p: nat, s: nat, e: nat)
    requires p <= s <= e <= |ls|
    ensures ls[p..][s - p..e - p] == ls[s..e]
  {
  }

  lemma LayoutParts<T>(f: (T, T) -> T, ls: seq<T>)
    requires |ls| >= 2
    ensures var p := Split(|ls|); Layout(f, ls) == Layout(f, ls[..p]) + [Root(f, ls)] + Layout(f, ls[p..])
    ensures var p := Split(|ls|); Root(f, ls) == f(Root(f, ls[..p]), Root(f, ls[p..]))
  {
  }

  lemma BlockInLeft<T>(ls: seq<T>, p: nat, w: nat, b: nat)
    requires w > 0 && Start(b, w) + w <= p <= |ls|
    ensures Block(ls[..p], w, b) == Block(ls, w, b)
  {
    hide Start;
  }

  lemma BlockInRight<T>(ls: seq<T>, p: nat, w: nat, b: nat, c: nat)
    requires w > 0 && p <= Start(b, w) == p + Start(c, w) < |ls|
    ensures Block(ls[p..], w, c) == Block(ls, w, b)
  {
    hide Start;
  }

  lemma SliceLeft<T>(lo: seq<T>, x: T, hi: seq<T>, a: nat, b: nat)
    requires a <= b <= |lo|
    ensures (lo + [x] + hi)[a..b] == lo[a..b]
  {
  }

  lemma SliceRight<T>(lo: seq<T>, x: T, hi: seq<T>, a: nat, b: nat)
    requires a <= b <= |hi|
    ensures (lo + [x] + hi)[|lo| + 1 + a..|lo| + 1 + b] == hi[a..b]
  {
  }

  lemma BlockZero(b: nat, w: nat, n: nat)
    requires Start(b, w) < n <= w
    ensures b == 0 && Start(b, w) == 0
  {
    if b > 0 {
      StartSplits(b, 1, w);
      assert false;
    }
  }

  lemma StartSplits(b: nat, m: nat, w: nat)
    requires m <= b
    ensures Start(b, w) == Start(m, w) + Start(b - m, w)
    ensures Start(1, w) == w
  {
  }

  lemma StartNext(b: nat, w: nat)
    ensures Start(b + 1, w) == Start(b, w) + w
  {
  }

  lemma {:induction false} PowerProduct(a: nat, b: nat)
    ensures Power(a + b) == Start(Power(a), Power(b))
  {
    hide Start;
    var w := Power(b);
    if a == 0 {
      StartSplits(1, 1, w);
    } else {
      var half := Power(a - 1);
      PowerProduct(a - 1, b);
      StartSplits(2 * half, half, w);
    }
  }

  lemma BlockBefore(q: nat, m: nat, w: nat)
    ensures q < m <==> Start(q, w) < Start(m, w) || (w == 0 && q < m)
    ensures q < m ==> Start(q, w) + w <= Start(m, w)
  {
    if q < m {
      StartSplits(m, q, w);
      StartSplits(m - q, 1, w);
    } else {
      StartSplits(q, m, w);
    }
  }

  /** The split point of more than 2^h leaves is block boundary m; a block lies entirely on one side. */
  lemma AlignedSplit(n: nat, h: nat, b: nat) returns (m: nat)
    requires Power(h) < n
    ensures Split(n) == Start(m, Power(h))
    ensures b < m ==> Start(b, Power(h)) + Power(h) <= Split(n)
    ensures b >= m ==> Start(b, Power(h)) == Split(n) + Start(b - m, Power(h))
  {
    hide Start;
    var w, q := Power(h), CeilLog(n) - 1;
    if q < h {
      PowerMonotone(q + 1, h);
      assert false;
    }
    m := Power(q - h);
    PowerProduct(q - h, h);
    if b < m {
      StartSplits(m, b, w);
      StartSplits(m - b, 1, w);
    } else {
      StartSplits(b, m, w);
    }
  }
}
