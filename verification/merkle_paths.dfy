/** Audit paths, top down by the recursive tree and bottom up by levels. */
module MerklePaths {
  import opened BitWords
  import opened Division
  import opened MerkleShape

  /** The side on which a sibling stands. */
  datatype Side = Left | Right

  datatype Step<T> = Step(side: Side, value: T)

  function Combined<T>(f: (T, T) -> T, step: Step<T>, x: T): T {
    if step.side == Left then f(step.value, x) else f(x, step.value)
  }

  /** Folding a path from the leaf upward. */
  function Fold<T>(f: (T, T) -> T, path: seq<Step<T>>, x: T): T {
    if path == [] then x else Combined(f, path[|path| - 1], Fold(f, path[..|path| - 1], x))
  }

  /** Folding the bare values, as for an operation where sides do not matter. */
  function PlainFold<T>(f: (T, T) -> T, values: seq<T>, x: T): T {
    if values == [] then x else f(PlainFold(f, values[..|values| - 1], x), values[|values| - 1])
  }

  function Siblings<T>(path: seq<Step<T>>): (values: seq<T>)
    ensures |values| == |path|
  {
    seq(|path|, k requires 0 <= k < |path| => path[k].value)
  }

  lemma {:induction false} FoldPlain<T(!new)>(f: (T, T) -> T, path: seq<Step<T>>, x: T)
    requires forall a, b :: f(a, b) == f(b, a)
    ensures PlainFold(f, Siblings(path), x) == Fold(f, path, x)
  {
    if path != [] {
      var n := |path| - 1;
      FoldPlain(f, path[..n], x);
      assert Siblings(path)[..n] == Siblings(path[..n]);
    }
  }

  // ---------------------------------------------------------------- top down

  /** The audit path of leaf i, lowest sibling first (section 2.1.1 of RFC 6962). */
  function AuditPath<T>(f: (T, T) -> T, ls: seq<T>, i: nat): seq<Step<T>>
    requires i < |ls|
    decreases |ls|
  {
    if |ls| == 1 then []
    else
      var p := Split(|ls|);
      if i < p then AuditPath(f, ls[..p], i) + [Step(Right, Root(f, ls[p..]))]
      else AuditPath(f, ls[p..], i - p) + [Step(Left, Root(f, ls[..p]))]
  }

  /** Folding the audit path from its leaf gives the root. */
  lemma {:induction false} AuditPathFolds<T>(f: (T, T) -> T, ls: seq<T>, i: nat)
    requires i < |ls|
    ensures Fold(f, AuditPath(f, ls, i), ls[i]) == Root(f, ls)
    decreases |ls|
  {
    if |ls| > 1 {
      var p := Split(|ls|);
      var path := AuditPath(f, ls, i);
      if i < p {
        AuditPathFolds(f, ls[..p], i);
        assert path[..|path| - 1] == AuditPath(f, ls[..p], i);
      } else {
        AuditPathFolds(f, ls[p..], i - p);
        assert path[..|path| - 1] == AuditPath(f, ls[p..], i - p);
      }
    }
  }

  // ---------------------------------------------------------------- bottom up

  /** The sibling of block q on the level of blocks of w leaves, on the side q's lowest bit says, if it exists. */
  function LevelStep<T>(f: (T, T) -> T, ls: seq<T>, w: nat, q: nat): seq<Step<T>>
    requires w > 0 && Start(q, w) < |ls|
  {
    if q % 2 == 1 then
      StartNext(q - 1, w);
      [Step(Left, Root(f, Block(ls, w, q - 1)))]
    else if Start(q + 1, w) < |ls| then [Step(Right, Root(f, Block(ls, w, q + 1)))]
    else []
  }

  /** The block of w leaves in which leaf i lies. */
  function BlockNumber(i: nat, w: nat): nat
    requires w > 0
  {
    i / w
  }

  lemma BlockOf(i: nat, w: nat)
    requires w > 0
    ensures Start(BlockNumber(i, w), w) <= i < Start(BlockNumber(i, w), w) + w
  {
  }

  lemma BlockIndex(i: nat, w: nat, q: nat)
    requires w > 0 && Start(q, w) <= i < Start(q, w) + w
    ensures BlockNumber(i, w) == q
  {
    DivModUnique(i, w, q, i - Start(q, w));
  }

  /** The siblings met on the lowest h levels above leaf i. */
  function LevelPath<T>(f: (T, T) -> T, ls: seq<T>, i: nat, h: nat): seq<Step<T>>
    requires i < |ls|
  {
    if h == 0 then []
    else
      var w := Power(h - 1);
      BlockOf(i, w);
      LevelPath(f, ls, i, h - 1) + LevelStep(f, ls, w, BlockNumber(i, w))
  }

  /** Below the split point a level sees only its own side. */
  lemma StepInLeft<T>(f: (T, T) -> T, ls: seq<T>, i: nat, h: nat)
    requires 2 <= |ls| && 2 * Power(h) <= Split(|ls|) && i < Split(|ls|)
    ensures var w, p := Power(h), Split(|ls|);
            && Start(BlockNumber(i, w), w) < p
            && LevelStep(f, ls[..p], w, BlockNumber(i, w)) == LevelStep(f, ls, w, BlockNumber(i, w))
  {
    hide Root, Start, Block, Power, Split, LevelStep, BlockNumber;
    var w, p := Power(h), Split(|ls|);
    var q := BlockNumber(i, w);
    BlockOf(i, w);
    var m := AlignedSplit(|ls|, h, q);
    EvenSplit(|ls|, h, m);
    BlockBefore(q, m, w);
    StepStays(f, ls, p, w, q, m);
  }

  lemma StepStays<T>(f: (T, T) -> T, ls: seq<T>, p: nat, w: nat, q: nat, m: nat)
    requires 0 < w && p == Start(m, w) <= |ls| && q < m && m % 2 == 0
    ensures Start(q, w) < p && LevelStep(f, ls[..p], w, q) == LevelStep(f, ls, w, q)
  {
    hide Root, Start, Block;
    BlockBefore(q, m, w);
    if q % 2 == 1 {
      StartNext(q - 1, w);
      BlockBefore(q - 1, m, w);
      BlockInLeft(ls, p, w, q - 1);
    } else {
      BlockBefore(q + 1, m, w);
      BlockInLeft(ls, p, w, q + 1);
    }
  }

  /** A split point at least twice the block size is an even boundary. */
  lemma EvenSplit(n: nat, h: nat, m: nat)
    requires 2 <= n && 2 * Power(h) <= Split(n) == Start(m, Power(h))
    ensures m % 2 == 0
  {
    hide Start, CeilLog, Power;
    var w, q := Power(h), CeilLog(n) - 1;
    if q <= h {
      PowerMonotone(q, h);
      assert false;
    }
    PowerProduct(q - h, h);
    PowerEven(q - h);
    var e := Power(q - h);
    BlockBefore(e, m, w);
    BlockBefore(m, e, w);
  }

  lemma PowerEven(k: nat)
    requires k > 0
    ensures Power(k) % 2 == 0
  {
    DivModUnique(Power(k), 2, Power(k - 1), 0);
  }

  lemma StepInRight<T>(f: (T, T) -> T, ls: seq<T>, i: nat, h: nat)
    requires 2 <= |ls| && 2 * Power(h) <= Split(|ls|) <= i < |ls|
    ensures var w, p := Power(h), Split(|ls|);
            && Start(BlockNumber(i - p, w), w) < |ls| - p && Start(BlockNumber(i, w), w) < |ls|
            && LevelStep(f, ls[p..], w, BlockNumber(i - p, w)) == LevelStep(f, ls, w, BlockNumber(i, w))
  {
    hide Start, Power, Split, LevelStep, BlockNumber;
    ShiftedIndex(|ls|, i, h);
    StepShifts(f, ls, Split(|ls|), Power(h), BlockNumber(i, Power(h)), BlockNumber(i - Split(|ls|), Power(h)));
  }

  /** Behind the split point block numbers are shifted by an even number. */
  lemma ShiftedIndex(n: nat, i: nat, h: nat)
    requires 2 <= n && 2 * Power(h) <= Split(n) <= i < n
    ensures var w, p := Power(h), Split(n);
            var q, c := BlockNumber(i, w), BlockNumber(i - p, w);
            c <= q && q % 2 == c % 2 && Start(q, w) == p + Start(c, w) < n
  {
    hide Start, Power, Split, BlockNumber;
    var w, p := Power(h), Split(n);
    var q := BlockNumber(i, w);
    BlockOf(i, w);
    var m := AlignedSplit(n, h, q);
    EvenSplit(n, h, m);
    BlockBefore(q, m, w);
    BlockIndex(i - p, w, q - m);
  }

  lemma StepShifts<T>(f: (T, T) -> T, ls: seq<T>, p: nat, w: nat, q: nat, c: nat)
    requires 0 < w && p < |ls| && c <= q && q % 2 == c % 2 && Start(q, w) == p + Start(c, w) < |ls|
    ensures LevelStep(f, ls[p..], w, c) == LevelStep(f, ls, w, q)
  {
    hide Root, Start, Block;
    if q % 2 == 1 {
      StartNext(q - 1, w);
      StartNext(c - 1, w);
      BlockInRight(ls, p, w, q - 1, c - 1);
    } else {
      StartNext(q, w);
      StartNext(c, w);
      if Start(q + 1, w) < |ls| {
        BlockInRight(ls, p, w, q + 1, c + 1);
      }
    }
  }

  lemma {:induction false} PathInLeft<T>(f: (T, T) -> T, ls: seq<T>, i: nat, h: nat)
    requires 2 <= |ls| && Power(h) <= Split(|ls|) && i < Split(|ls|)
    ensures LevelPath(f, ls[..Split(|ls|)], i, h) == LevelPath(f, ls, i, h)
  {
    hide Root, Start, Block, Split, LevelStep, BlockNumber;
    if h > 0 {
      PathInLeft(f, ls, i, h - 1);
      StepInLeft(f, ls, i, h - 1);
    }
  }

  lemma {:induction false} PathInRight<T>(f: (T, T) -> T, ls: seq<T>, i: nat, h: nat)
    requires 2 <= |ls| && Power(h) <= Split(|ls|) <= i < |ls|
    ensures LevelPath(f, ls[Split(|ls|)..], i - Split(|ls|), h) == LevelPath(f, ls, i, h)
  {
    hide Root, Start, Block, Split, LevelStep, BlockNumber;
    if h > 0 {
      PathInRight(f, ls, i, h - 1);
      StepInRight(f, ls, i, h - 1);
    }
  }

  /** Levels above the whole tree add nothing. */
  lemma {:induction false} IdleLevels<T>(f: (T, T) -> T, ls: seq<T>, i: nat, h: nat, g: nat)
    requires i < |ls| <= Power(h) && h <= g
    ensures LevelPath(f, ls, i, g) == LevelPath(f, ls, i, h)
  {
    hide Root, Block, Power;
    if h < g {
      IdleLevels(f, ls, i, h, g - 1);
      var w := Power(g - 1);
      PowerMonotone(h, g - 1);
      DivModUnique(i, w, 0, i);
      BlockOf(i, w);
      assert Start(1, w) == w;
      assert LevelStep(f, ls, w, 0) == [];
    }
  }

  /** The level of the split point adds the other side. */
  lemma TopStepLeft<T>(f: (T, T) -> T, ls: seq<T>, i: nat)
    requires 2 <= |ls| && i < Split(|ls|)
    ensures BlockNumber(i, Split(|ls|)) == 0 && Start(0, Split(|ls|)) < |ls|
    ensures LevelStep(f, ls, Split(|ls|), 0) == [Step(Right, Root(f, ls[Split(|ls|)..]))]
  {
    hide Root, Split, Start, Block, BlockNumber;
    TwoBlocks(ls, Split(|ls|));
    BlockIndex(i, Split(|ls|), 0);
  }

  lemma TopStepRight<T>(f: (T, T) -> T, ls: seq<T>, i: nat)
    requires 2 <= |ls| && Split(|ls|) <= i < |ls|
    ensures BlockNumber(i, Split(|ls|)) == 1 && Start(1, Split(|ls|)) < |ls|
    ensures LevelStep(f, ls, Split(|ls|), 1) == [Step(Left, Root(f, ls[..Split(|ls|)]))]
  {
    hide Root, Split, Start, Block, BlockNumber;
    TwoBlocks(ls, Split(|ls|));
    BlockIndex(i, Split(|ls|), 1);
  }

  lemma TwoBlocks<T>(ls: seq<T>, p: nat)
    requires 0 < p < |ls| <= 2 * p
    ensures Start(0, p) == 0 && Start(1, p) == p
    ensures Block(ls, p, 0) == ls[..p] && Block(ls, p, 1) == ls[p..]
  {
  }

  /** Enough levels give the audit path. */
  lemma {:induction false} LevelPathIsAudit<T>(f: (T, T) -> T, ls: seq<T>, i: nat, h: nat)
    requires i < |ls| <= Power(h)
    ensures LevelPath(f, ls, i, h) == AuditPath(f, ls, i)
    decreases |ls|
  {
    hide Root, Start, Block, LevelStep, Power, BlockNumber;
    if |ls| == 1 {
      PowerTable();
      IdleLevels(f, ls, i, 0, h);
    } else {
      var q, p := CeilLog(|ls|) - 1, Split(|ls|);
      if h < q + 1 {
        PowerMonotone(h, q);
        assert false;
      }
      IdleLevels(f, ls, i, q + 1, h);
      hide Split;
      if i < p {
        TopStepLeft(f, ls, i);
        PathInLeft(f, ls, i, q);
        LevelPathIsAudit(f, ls[..p], i, q);
      } else {
        TopStepRight(f, ls, i);
        PathInRight(f, ls, i, q);
        LevelPathIsAudit(f, ls[p..], i - p, q);
      }
    }
  }

  /** For a commutative operation the bare sibling values fold to the root. */
  lemma SiblingsFoldToRoot<T(!new)>(f: (T, T) -> T, ls: seq<T>, i: nat)
    requires i < |ls| && forall a, b :: f(a, b) == f(b, a)
    ensures PlainFold(f, Siblings(AuditPath(f, ls, i)), ls[i]) == Root(f, ls)
  {
    FoldPlain(f, AuditPath(f, ls, i), ls[i]);
    AuditPathFolds(f, ls, i);
  }
}
