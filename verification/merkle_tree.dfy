/** The append-only Merkle tree over one flat vector. */
module MerkleTrees {
  import opened BitWords
  import opened MerkleShape
  import opened MerklePaths

  // ---------------------------------------------------------------- what one level of `psuh` does

  /** The part from the last block on is laid out for all leaves; what lies before it is untouched. */
  ghost predicate Pushing<T(!new)>(f: (T, T) -> T, nodes: seq<T>, was: seq<T>, all: seq<T>, w: nat, b: nat) {
    && |nodes| == |was| == 2 * |all| - 1
    && Start(b, w) < |all| <= Start(b, w) + w
    && nodes[..2 * Start(b, w)] == was[..2 * Start(b, w)]
    && nodes[2 * Start(b, w)..] == Layout(f, all[Start(b, w)..])
  }

  /** A parent block starts at its left child. */
  lemma ParentStart(b: nat, w: nat)
    ensures Start(b / 2, 2 * w) == if b % 2 == 0 then Start(b, w) else Start(b, w) - w
    ensures b % 2 == 1 ==> Start(b - 1, w) == Start(b, w) - w
  {
    assert b == 2 * (b / 2) + b % 2;
    var c := b / 2;
    assert c * (2 * w) == 2 * (c * w);
    assert b % 2 == 1 ==> b * w == 2 * (c * w) + w;
    assert b % 2 == 0 ==> b * w == 2 * (c * w);
    assert (b - 1) * w == b * w - w;
  }

  /** A pushing state with the cursor on the last leaf's ancestor and the clamp on the root of its block. */
  ghost predicate AtLevel<T(!new)>(f: (T, T) -> T, nodes: seq<T>, was: seq<T>, all: seq<T>, w: nat, b: nat, cursor: int, clamp: int) {
    && Pushing(f, nodes, was, all, w, b)
    && cursor == 2 * Start(b, w) + w - 1
    && clamp == 2 * Start(b, w) + RootAt(|all| - Start(b, w))
  }

  lemma StayLeft<T(!new)>(f: (T, T) -> T, nodes: seq<T>, was: seq<T>, all: seq<T>, w: nat, b: nat, cursor: int, clamp: int)
    requires AtLevel(f, nodes, was, all, w, b, cursor, clamp) && b % 2 == 0
    ensures AtLevel(f, nodes, was, all, 2 * w, b / 2, cursor + w, clamp)
  {
    hide Start;
    ParentStart(b, w);
  }

  /** Two cells were appended to the layout of the old leaves. */
  ghost predicate Extends<T(!new)>(f: (T, T) -> T, was: seq<T>, ls: seq<T>)
    requires ls != []
  {
    |was| == 2 * |ls| + 1 && was[..2 * |ls| - 1] == Layout(f, ls)
  }

  /** The full block to the left keeps the layout it had before the push. */
  lemma LeftBlock<T(!new)>(f: (T, T) -> T, nodes: seq<T>, was: seq<T>, ls: seq<T>, h: nat, b: nat)
    requires ls != [] && Extends(f, was, ls) && |nodes| == |was|
    requires 0 < b && Start(b, Power(h)) <= |ls| && nodes[..2 * Start(b, Power(h))] == was[..2 * Start(b, Power(h))]
    ensures Start(b, Power(h)) == Start(b - 1, Power(h)) + Power(h)
    ensures var t, s := Start(b - 1, Power(h)), Start(b, Power(h));
            nodes[2 * t..2 * s - 1] == Layout(f, ls[t..s])
  {
    hide Start, Layout, Power;
    var t, s := Start(b - 1, Power(h)), Start(b, Power(h));
    StartNext(b - 1, Power(h));
    BlockLayout(f, ls, h, b - 1, t, s);
    SameSlice(nodes, was, Layout(f, ls), 2 * s, 2 * t, 2 * s - 1);
  }

  lemma SameSlice<T>(nodes: seq<T>, was: seq<T>, lay: seq<T>, n: nat, a: nat, b: nat)
    requires n <= |nodes| == |was| && nodes[..n] == was[..n] && |lay| <= |was| && was[..|lay|] == lay
    requires a <= b <= n && b <= |lay|
    ensures nodes[a..b] == lay[a..b]
  {
    assert nodes[a..b] == nodes[..n][a..b];
    assert was[..n][a..b] == was[a..b];
    assert was[..|lay|][a..b] == was[a..b];
  }

  /** Writing the root between two laid-out neighbours. */
  lemma JoinNodes<T(!new)>(f: (T, T) -> T, nodes: seq<T>, left: seq<T>, right: seq<T>, h: nat, t: nat)
    requires |left| == Power(h) && 0 < |right| <= Power(h)
    requires |nodes| == 2 * (t + |left| + |right|) - 1
    requires nodes[2 * t..2 * (t + |left|) - 1] == Layout(f, left)
    requires nodes[2 * (t + |left|)..] == Layout(f, right)
    ensures var c := 2 * (t + |left|) - 1;
            && RootAt(|right|) <= |left| - 1
            && nodes[c := f(nodes[c - |left|], nodes[c + 1 + RootAt(|right|)])][2 * t..] == Layout(f, left + right)
  {
    hide Layout, Root, RootAt, Power;
    var c := 2 * (t + |left|) - 1;
    RootAtBelow(|left|, h);
    RootAtBelow(|right|, h);
    LaidRoot(f, nodes[2 * t..c], left);
    LaidRoot(f, nodes[c + 1..], right);
    var x := f(Root(f, left), Root(f, right));
    JoinLayout(f, left, right, h);
    ReplaceCell(nodes, 2 * t, c, x);
  }

  lemma LaidRoot<T>(f: (T, T) -> T, part: seq<T>, ls: seq<T>)
    requires ls != [] && part == Layout(f, ls)
    ensures part[RootAt(|ls|)] == Root(f, ls)
  {
    hide Layout, Root, RootAt;
    RootInLayout(f, ls);
  }

  lemma ReplaceCell<T>(nodes: seq<T>, a: nat, c: nat, x: T)
    requires a <= c < |nodes|
    ensures nodes[c := x][a..] == nodes[a..c] + [x] + nodes[c + 1..]
  {
  }

  /** One level up from a right child: the parent of a full left block and the clipped right block is written. */
  lemma JoinRight<T(!new)>(f: (T, T) -> T, nodes: seq<T>, was: seq<T>, all: seq<T>, h: nat, b: nat, cursor: int, clamp: int)
    requires |all| > 1 && Extends(f, was, all[..|all| - 1])
    requires AtLevel(f, nodes, was, all, Power(h), b, cursor, clamp) && b % 2 == 1
    ensures var w := Power(h);
            && 0 <= cursor - w - w && cursor - w < |nodes| && 0 <= clamp <= cursor && clamp < |nodes|
            && AtLevel(f, nodes[cursor - w := f(nodes[cursor - w - w], nodes[clamp])], was, all, 2 * w, b / 2, cursor - w, cursor - w)
  {
    hide Start, Layout, Root, RootAt, Split, Power, Extends;
    var w, s := Power(h), Start(b, Power(h));
    ParentStart(b, w);
    LeftBlock(f, nodes, was, all[..|all| - 1], h, b);
    ParentRoot(|all|, h, b);
    hide Pushing;
    JoinedNodes(f, nodes, was, all, h, s - w, s);
  }

  /** The nodes from the joined block on, and those before it. */
  lemma JoinedNodes<T(!new)>(f: (T, T) -> T, nodes: seq<T>, was: seq<T>, all: seq<T>, h: nat, t: nat, s: nat)
    requires s == t + Power(h) < |all| <= s + Power(h) && |nodes| == |was| == 2 * |all| - 1
    requires nodes[..2 * s] == was[..2 * s] && nodes[2 * s..] == Layout(f, all[s..])
    requires nodes[2 * t..2 * s - 1] == Layout(f, all[..|all| - 1][t..s])
    ensures RootAt(|all| - s) <= Power(h) - 1
    ensures var c, w := 2 * s - 1, Power(h);
            var nodes' := nodes[c := f(nodes[c - w], nodes[2 * s + RootAt(|all| - s)])];
            nodes'[..2 * t] == was[..2 * t] && nodes'[2 * t..] == Layout(f, all[t..])
  {
    hide Layout, Root, RootAt, Power;
    var left, right := all[t..s], all[s..];
    assert left == all[..|all| - 1][t..s];
    JoinNodes(f, nodes, left, right, h, t);
    assert all[t..] == left + right;
    assert nodes[..2 * s][..2 * t] == nodes[..2 * t] && was[..2 * s][..2 * t] == was[..2 * t];
  }

  lemma JoinLayout<T>(f: (T, T) -> T, left: seq<T>, right: seq<T>, h: nat)
    requires |left| == Power(h) && 0 < |right| <= Power(h)
    ensures Layout(f, left + right) == Layout(f, left) + [f(Root(f, left), Root(f, right))] + Layout(f, right)
    ensures Root(f, left + right) == f(Root(f, left), Root(f, right))
  {
    hide Layout, Root;
    var ls := left + right;
    SplitUnique(|ls|, h);
    LayoutParts(f, ls);
    assert ls[..Power(h)] == left && ls[Power(h)..] == right;
  }

  // ---------------------------------------------------------------- the tree

  class MerkleTree<T(!new)> {
    const combine: (T, T) -> T
    const blank: T
    var nodes: seq<T>
    ghost var leaves: seq<T>

    ghost predicate Valid()
      reads this
    {
      leaves != [] && nodes == Layout(combine, leaves)
    }

    /** `new`. */
    constructor (combine: (T, T) -> T, blank: T, root: T)
      ensures Valid() && leaves == [root] && this.combine == combine && this.blank == blank
    {
      this.combine, this.blank := combine, blank;
      nodes := [root];
      leaves := [root];
    }

    /** `from_base` on a power of two of leaves. */
    constructor FromBase(combine: (T, T) -> T, blank: T, base: seq<T>, ghost h: nat)
      requires |base| == Power(h)
      ensures Valid() && leaves == base && this.combine == combine && this.blank == blank
    {
      hide Layout, Root, Power;
      var cells := new T[2 * |base| - 1](_ => blank);
      for i := 0 to |base|
        invariant forall k :: 0 <= k < i ==> cells[2 * k] == base[k]
      {
        cells[2 * i] := base[i];
      }
      assert cells[0..cells.Length] == cells[..];
      var root := ComputeRecursively(combine, cells, 0, cells.Length, h, base);
      this.combine, this.blank := combine, blank;
      nodes := cells[..];
      leaves := base;
      assert cells[0..cells.Length] == cells[..];
    }

    /** `clear`. */
    method Clear(root: T)
      modifies this
      ensures Valid() && leaves == [root]
    {
      nodes := [root];
      leaves := [root];
    }

    /** `psuh`: appends a leaf and repairs the nodes on its path. */
    method Psuh(value: T)
      requires Valid()
      modifies this
      ensures Valid() && leaves == old(leaves) + [value]
    {
      hide Start, Layout, RootAt, AtLevel, Extends;
      ghost var ls := leaves;
      ghost var all := ls + [value];
      nodes := nodes + [blank, value];
      ghost var was := nodes;
      var cursor := |nodes| - 1;
      var clamp := cursor;
      var width: nat := 1;
      var mask: nat := |nodes| / 2;
      PushStart(combine, was, ls, value, blank);
      assert all[..|all| - 1] == ls;
      for h := 0 to FloorLog(|nodes|)
        invariant width == Power(h) && leaves == ls
        invariant AtLevel(combine, nodes, was, all, width, mask, cursor, clamp)
      {
        if mask % 2 == 0 {
          StayLeft(combine, nodes, was, all, width, mask, cursor, clamp);
          cursor := cursor + width;
        } else {
          JoinRight(combine, nodes, was, all, h, mask, cursor, clamp);
          cursor := cursor - width;
          var right := if cursor + width <= clamp then cursor + width else clamp;
          nodes := nodes[cursor := combine(nodes[cursor - width], nodes[right])];
          clamp := cursor;
        }
        width := 2 * width;
        mask := mask / 2;
      }
      leaves := all;
      PushEnd(combine, nodes, was, all, width, mask, cursor, clamp);
    }

    /** `root`, for at least two leaves. */
    method GetRoot() returns (root: T)
      requires Valid() && |leaves| >= 2
      ensures root == Root(combine, leaves)
    {
      hide Layout, Root;
      RootPosition(|leaves|);
      RootInLayout(combine, leaves);
      root := nodes[Power(CeilLog(|nodes|)) / 2 - 1];
    }

    /** `proof` of the leaf stored at an even index, drained: the sibling values of its audit path. */
    method Proof(index: nat) returns (values: seq<T>)
      requires Valid() && index % 2 == 0 && index < |nodes|
      ensures values == Siblings(AuditPath(combine, leaves, index / 2))
    {
      hide Start, Layout, RootAt, Root, LevelStep, AuditPath, Walking;
      var clampCursor := |nodes| - 1;
      var clamp := clampCursor;
      var clampMask: nat := |nodes| / 2;
      var cursor: int := index;
      var width: nat := 1;
      var directionMask: nat := (index + 1) / 2;
      values := [];
      ghost var i := index / 2;
      WalkStart(|leaves|, i);
      for h := 0 to FloorLog(|nodes|)
        invariant width == Power(h)
        invariant Walking(|leaves|, i, width, directionMask, cursor, clampMask, clampCursor, clamp)
        invariant values == Siblings(LevelPath(combine, leaves, i, h))
      {
        ghost var step := LevelSibling(combine, leaves, i, h, directionMask, cursor, clampMask, clampCursor, clamp);
        WalkUp(|leaves|, i, h, directionMask, cursor, clampMask, clampCursor, clamp);
        var opposite;
        if directionMask % 2 == 0 {
          cursor := cursor + width;
          opposite := cursor + width;
        } else {
          cursor := cursor - width;
          opposite := cursor - width;
        }
        ghost var before := values;
        if clampMask % 2 == 0 {
          clampCursor := clampCursor + width;
          if opposite < |nodes| {
            values := values + [nodes[opposite]];
          }
        } else {
          clampCursor := clampCursor - width;
          values := values + [nodes[if opposite <= clamp then opposite else clamp]];
          clamp := clampCursor;
        }
        SiblingsSnoc(LevelPath(combine, leaves, i, h), step);
        width := 2 * width;
        directionMask := directionMask / 2;
        clampMask := clampMask / 2;
      }
      LevelPathIsAudit(combine, leaves, i, FloorLog(|nodes|));
    }
  }

  /** Leaves at even offsets. */
  ghost predicate HoldsLeaves<T(!new)>(s: seq<T>, ls: seq<T>) {
    |s| == 2 * |ls| - 1 && forall k :: 0 <= k < |ls| ==> s[2 * k] == ls[k]
  }

  lemma HalfLeaves<T(!new)>(s: seq<T>, ls: seq<T>, w: nat)
    requires HoldsLeaves(s, ls) && 0 < w < |ls|
    ensures HoldsLeaves(s[..2 * w - 1], ls[..w]) && HoldsLeaves(s[2 * w..], ls[w..])
  {
    forall k | 0 <= k < |ls| - w
      ensures s[2 * w..][2 * k] == ls[w..][k]
    {
      var j := w + k;
      assert s[2 * j] == ls[j];
    }
  }

  /** The recursive pass of `from_base` over one slice. */
  method ComputeRecursively<T(!new)>(f: (T, T) -> T, cells: array<T>, lo: nat, hi: nat, ghost h: nat, ghost ls: seq<T>) returns (root: T)
    requires |ls| == Power(h) && lo <= hi <= cells.Length && hi - lo == 2 * |ls| - 1 && HoldsLeaves(cells[lo..hi], ls)
    modifies cells
    ensures cells[lo..hi] == Layout(f, ls) && root == Root(f, ls)
    ensures forall k :: 0 <= k < lo || hi <= k < cells.Length ==> cells[k] == old(cells[k])
    decreases h, 1
  {
    hide Layout, Root, Split, HoldsLeaves, Power;
    if hi - lo == 1 {
      SingleLayout(f, cells[lo..hi], ls);
      return cells[lo];
    }
    HalfPower(h);
    var mid := lo + (hi - lo) / 2;
    ghost var w := Power(h - 1);
    var a, b := ComputeHalves(f, cells, lo, mid, hi, h - 1, ls);
    ghost var part, m := cells[lo..hi], mid - lo;
    assert part[0..m] == cells[lo..mid] && part[m + 1..] == cells[mid + 1..hi];
    cells[mid] := f(a, b);
    root := cells[mid];
    assert ls == ls[..w] + ls[w..];
    JoinLayout(f, ls[..w], ls[w..], h - 1);
    ReplaceCell(part, 0, m, root);
    assert cells[lo..hi] == part[m := root] == part[m := root][0..];
  }

  method ComputeHalves<T(!new)>(f: (T, T) -> T, cells: array<T>, lo: nat, mid: nat, hi: nat, ghost h: nat, ghost ls: seq<T>) returns (a: T, b: T)
    requires |ls| == 2 * Power(h) && lo <= mid < hi <= cells.Length && mid - lo == 2 * Power(h) - 1 == hi - mid - 1
    requires HoldsLeaves(cells[lo..hi], ls)
    modifies cells
    ensures var w := Power(h);
            && cells[lo..mid] == Layout(f, ls[..w]) && cells[mid + 1..hi] == Layout(f, ls[w..])
            && a == Root(f, ls[..w]) && b == Root(f, ls[w..])
    ensures forall k :: 0 <= k < lo || hi <= k < cells.Length ==> cells[k] == old(cells[k])
    decreases h + 1, 0
  {
    hide Layout, Root, HoldsLeaves;
    ghost var w := Power(h);
    ghost var was := cells[..];
    HalfLeaves(cells[lo..hi], ls, w);
    assert cells[lo..mid] == cells[lo..hi][..2 * w - 1] && cells[mid + 1..hi] == cells[lo..hi][2 * w..];
    a := ComputeRecursively(f, cells, lo, mid, h, ls[..w]);
    assert cells[mid + 1..hi] == was[mid + 1..hi];
    ghost var laid := cells[lo..mid];
    b := ComputeRecursively(f, cells, mid + 1, hi, h, ls[w..]);
    assert cells[lo..mid] == laid;
  }

  lemma SingleLayout<T(!new)>(f: (T, T) -> T, s: seq<T>, ls: seq<T>)
    requires |ls| == 1 && HoldsLeaves(s, ls)
    ensures Layout(f, ls) == s && Root(f, ls) == s[0]
  {
    assert s[2 * 0] == ls[0];
  }

  lemma HalfPower(h: nat)
    requires Power(h) != 1
    ensures h > 0 && Power(h) == 2 * Power(h - 1)
  {
  }

  // ---------------------------------------------------------------- reading positions

  lemma RootPosition(n: nat)
    requires n >= 2
    ensures Power(CeilLog(2 * n - 1)) / 2 - 1 == RootAt(n)
  {
    assert CeilLog(2 * n - 1) == 1 + CeilLog(n);
  }

  /** The two cursors of a proof: the ancestor of leaf i, and that of the last leaf with the root of its clipped block. */
  ghost predicate Walking(n: nat, i: nat, w: nat, q: nat, cursor: int, b: nat, clampCursor: int, clamp: int) {
    && i < n
    && Start(q, w) <= i < Start(q, w) + w && cursor == 2 * Start(q, w) + w - 1
    && Start(b, w) < n <= Start(b, w) + w && clampCursor == 2 * Start(b, w) + w - 1
    && clamp == 2 * Start(b, w) + RootAt(n - Start(b, w))
  }

  lemma WalkStart(n: nat, i: nat)
    requires i < n
    ensures Walking(n, i, 1, i, 2 * i, n - 1, 2 * n - 2, 2 * n - 2)
  {
  }

  lemma WalkUp(n: nat, i: nat, h: nat, q: nat, cursor: int, b: nat, clampCursor: int, clamp: int)
    requires Walking(n, i, Power(h), q, cursor, b, clampCursor, clamp)
    ensures var w := Power(h);
            Walking(n, i, 2 * w, q / 2, if q % 2 == 0 then cursor + w else cursor - w,
                    b / 2, if b % 2 == 0 then clampCursor + w else clampCursor - w, if b % 2 == 0 then clamp else clampCursor - w)
  {
    hide Start, RootAt;
    ParentStart(q, Power(h));
    ParentStart(b, Power(h));
    if b % 2 == 1 {
      ParentRoot(n, h, b);
    }
  }

  /** The root of any block stands where its layout says. */
  lemma BlockRootNode<T>(f: (T, T) -> T, ls: seq<T>, h: nat, b: nat)
    requires Start(b, Power(h)) < |ls|
    ensures var s, l := Start(b, Power(h)), Block(ls, Power(h), b);
            2 * s + RootAt(|l|) < 2 * |ls| - 1 && Layout(f, ls)[2 * s + RootAt(|l|)] == Root(f, l)
  {
    hide Start, Layout, Root, RootAt;
    var s, l := Start(b, Power(h)), Block(ls, Power(h), b);
    var e := s + |l|;
    assert l == ls[s..e];
    hide Block;
    BlockLayout(f, ls, h, b, s, e);
    RootInLayout(f, l);
    assert Layout(f, ls)[2 * s..2 * e - 1][RootAt(|l|)] == Layout(f, ls)[2 * s + RootAt(|l|)];
  }

  /** Where a proof step looks: the clipped sibling block's root, or beyond the nodes if there is no sibling. */
  lemma SiblingPlace(n: nat, i: nat, h: nat, q: nat, cursor: int, b: nat, clampCursor: int, clamp: int)
    requires Walking(n, i, Power(h), q, cursor, b, clampCursor, clamp)
    ensures var w := Power(h);
            var sibling := if q % 2 == 0 then q + 1 else q - 1;
            var opposite := if q % 2 == 0 then cursor + w + w else cursor - w - w;
            && 0 <= opposite && 0 <= clamp < 2 * n - 1
            && if Start(sibling, w) < n then
                 var c := if Start(sibling, w) + w <= n then w else n - Start(sibling, w);
                 (b % 2 == 1 || opposite < 2 * n - 1)
                 && (if b % 2 == 1 && opposite > clamp then clamp else opposite) == 2 * Start(sibling, w) + RootAt(c)
               else b % 2 == 0 && opposite >= 2 * n - 1
  {
    hide Start, RootAt, Power;
    var w := Power(h);
    RootAtBelow(w, h);
    RootAtBelow(n - Start(b, w), h);
    BlockBefore(b, q, w);
    BlockBefore(q, b, w);
    if q % 2 == 1 {
      StartNext(q - 1, w);
    } else {
      StartNext(q, w);
      BlockBefore(q + 1, b, w);
      BlockBefore(b, q + 1, w);
    }
  }

  /** What one level of a proof yields: the sibling's root, or nothing where no right sibling exists. */
  lemma LevelSibling<T>(f: (T, T) -> T, ls: seq<T>, i: nat, h: nat, q: nat, cursor: int, b: nat, clampCursor: int, clamp: int) returns (step: seq<Step<T>>)
    requires Walking(|ls|, i, Power(h), q, cursor, b, clampCursor, clamp)
    ensures LevelPath(f, ls, i, h + 1) == LevelPath(f, ls, i, h) + step
    ensures var w := Power(h);
            var opposite := if q % 2 == 0 then cursor + w + w else cursor - w - w;
            && 0 <= opposite && 0 <= clamp < 2 * |ls| - 1
            && Siblings(step) ==
               if b % 2 == 0 && opposite >= 2 * |ls| - 1 then []
               else [Layout(f, ls)[if b % 2 == 1 && opposite > clamp then clamp else opposite]]
  {
    hide Start, RootAt, Power, Root, Layout, Block;
    var w := Power(h);
    var sibling := if q % 2 == 0 then q + 1 else q - 1;
    BlockIndex(i, w, q);
    step := LevelStep(f, ls, w, q);
    SiblingPlace(|ls|, i, h, q, cursor, b, clampCursor, clamp);
    if q % 2 == 1 {
      StartNext(q - 1, w);
    }
    if Start(sibling, w) < |ls| {
      BlockRootNode(f, ls, h, sibling);
    }
  }

  lemma SiblingsSnoc<T>(path: seq<Step<T>>, step: seq<Step<T>>)
    ensures Siblings(path + step) == Siblings(path) + Siblings(step)
  {
  }

  lemma PushStart<T(!new)>(f: (T, T) -> T, was: seq<T>, ls: seq<T>, x: T, blank: T)
    requires ls != [] && was == Layout(f, ls) + [blank, x]
    ensures Extends(f, was, ls) && AtLevel(f, was, was, ls + [x], 1, |was| / 2, |was| - 1, |was| - 1)
  {
    assert (ls + [x])[|ls|..] == [x];
    assert was[2 * |ls|..] == [x];
  }

  /** The root of the joined block. */
  lemma ParentRoot(n: nat, h: nat, b: nat)
    requires b % 2 == 1 && Start(b, Power(h)) < n <= Start(b, Power(h)) + Power(h)
    ensures var s, t := Start(b, Power(h)), Start(b / 2, 2 * Power(h)); t < n && 2 * s - 1 == 2 * t + RootAt(n - t)
  {
    hide Start;
    ParentStart(b, Power(h));
    SplitUnique(n - Start(b / 2, 2 * Power(h)), h);
  }

  lemma PushEnd<T(!new)>(f: (T, T) -> T, nodes: seq<T>, was: seq<T>, all: seq<T>, w: nat, b: nat, cursor: int, clamp: int)
    requires w > 0 && AtLevel(f, nodes, was, all, w, b, cursor, clamp) && |all| <= w
    ensures nodes == Layout(f, all)
  {
    BlockZero(b, w, |all|);
  }
}
