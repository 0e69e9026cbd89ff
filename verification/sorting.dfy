/** Sorting by a key: the order and the contents of the result, and its uniqueness for distinct keys. */
module Sorting {
  function Inserted<T>(key: T -> nat, xs: seq<T>, x: T): (r: seq<T>)
    ensures |r| == |xs| + 1
  {
    if xs == [] || key(x) <= key(xs[0]) then [x] + xs else [xs[0]] + Inserted(key, xs[1..], x)
  }

  /** `sort_unstable_by_key`. */
  function SortBy<T>(key: T -> nat, xs: seq<T>): (r: seq<T>)
    ensures |r| == |xs|
  {
    if xs == [] then [] else Inserted(key, SortBy(key, xs[1..]), xs[0])
  }

  ghost predicate Ordered<T(!new)>(key: T -> nat, xs: seq<T>) {
    forall i, j :: 0 <= i < j < |xs| ==> key(xs[i]) <= key(xs[j])
  }

  lemma {:induction false} InsertedMembers<T>(key: T -> nat, xs: seq<T>, x: T)
    ensures multiset(Inserted(key, xs, x)) == multiset(xs) + multiset{x}
  {
    if xs != [] && key(x) > key(xs[0]) {
      InsertedMembers(key, xs[1..], x);
      assert xs == [xs[0]] + xs[1..];
    }
  }

  lemma {:induction false} InsertedOrder<T(!new)>(key: T -> nat, xs: seq<T>, x: T)
    requires Ordered(key, xs)
    ensures Ordered(key, Inserted(key, xs, x))
  {
    if xs != [] && key(x) > key(xs[0]) {
      InsertedOrder(key, xs[1..], x);
      InsertedMembers(key, xs[1..], x);
      var rest := Inserted(key, xs[1..], x);
      forall j | 0 <= j < |rest|
        ensures key(xs[0]) <= key(rest[j])
      {
        assert rest[j] in multiset(rest);
        assert rest[j] == x || rest[j] in xs[1..];
      }
    }
  }

  lemma {:induction false} SortOrder<T(!new)>(key: T -> nat, xs: seq<T>)
    ensures Ordered(key, SortBy(key, xs)) && multiset(SortBy(key, xs)) == multiset(xs)
  {
    if xs != [] {
      SortOrder(key, xs[1..]);
      InsertedOrder(key, SortBy(key, xs[1..]), xs[0]);
      InsertedMembers(key, SortBy(key, xs[1..]), xs[0]);
      assert xs == [xs[0]] + xs[1..];
    }
  }

  /** The key identifies the element. */
  ghost predicate Identifies<T(!new)>(key: T -> nat, m: multiset<T>) {
    forall x, y :: x in m && y in m && key(x) == key(y) ==> x == y
  }

  lemma TailMembers<T>(a: seq<T>)
    requires a != []
    ensures multiset(a[1..]) == multiset(a) - multiset{a[0]}
  {
    assert a == [a[0]] + a[1..];
  }

  lemma HeadIsLeast<T(!new)>(key: T -> nat, a: seq<T>, x: T)
    requires Ordered(key, a) && x in multiset(a)
    ensures key(a[0]) <= key(x)
  {
    var j :| 0 <= j < |a| && a[j] == x;
  }

  lemma HeadsEqual<T(!new)>(key: T -> nat, a: seq<T>, b: seq<T>)
    requires Ordered(key, a) && Ordered(key, b) && multiset(a) == multiset(b) && Identifies(key, multiset(a))
    requires a != [] && b != []
    ensures a[0] == b[0]
  {
    hide Ordered;
    assert a[0] in multiset(a) && b[0] in multiset(b);
    HeadIsLeast(key, a, b[0]);
    HeadIsLeast(key, b, a[0]);
  }

  lemma FewerIdentified<T(!new)>(key: T -> nat, m: multiset<T>, x: T)
    requires Identifies(key, m)
    ensures Identifies(key, m - multiset{x})
  {
  }

  /** Where the key identifies the element, ordered lists with the same elements are equal. */
  lemma {:induction false} OrderedUnique<T(!new)>(key: T -> nat, a: seq<T>, b: seq<T>)
    requires Ordered(key, a) && Ordered(key, b) && multiset(a) == multiset(b) && Identifies(key, multiset(a))
    ensures a == b
  {
    hide *;
    SameSize(a, b);
    if a != [] {
      HeadsEqual(key, a, b);
      TailMembers(a);
      TailMembers(b);
      FewerIdentified(key, multiset(a), a[0]);
      OrderedTail(key, a);
      OrderedTail(key, b);
      OrderedUnique(key, a[1..], b[1..]);
      HeadAndTail(a, b);
    }
  }

  lemma SameSize<T>(a: seq<T>, b: seq<T>)
    requires multiset(a) == multiset(b)
    ensures |a| == |b|
  {
    assert |a| == |multiset(a)| && |b| == |multiset(b)|;
  }

  lemma HeadAndTail<T>(a: seq<T>, b: seq<T>)
    requires |a| == |b| > 0 && a[0] == b[0] && a[1..] == b[1..]
    ensures a == b
  {
    assert a == [a[0]] + a[1..] && b == [b[0]] + b[1..];
  }

  lemma OrderedTail<T(!new)>(key: T -> nat, a: seq<T>)
    requires Ordered(key, a) && a != []
    ensures Ordered(key, a[1..])
  {
  }

  /** Sorting forgets the order. */
  lemma SortForgets<T(!new)>(key: T -> nat, a: seq<T>, b: seq<T>)
    requires multiset(a) == multiset(b) && Identifies(key, multiset(a))
    ensures SortBy(key, a) == SortBy(key, b)
  {
    SortOrder(key, a);
    SortOrder(key, b);
    OrderedUnique(key, SortBy(key, a), SortBy(key, b));
  }
}
