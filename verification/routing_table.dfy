/** The routing table: ids sorted on a ring of 2^256 places, and the two-ended sweep by circular distance. */
module Routing {
  import opened Common

  /** 2^256. */
  const RING: int := 0x1_0000000000000000_0000000000000000_0000000000000000_0000000000000000

  type Id = x: int | 0 <= x < RING

  /** The address is not looked into. */
  datatype Route = Route(id: Id, addr: string)

  /** `shortest_distance`: the smaller of the two wrapped differences. */
  function Distance(a: Id, b: Id): Id {
    var forth, back := (a - b) % RING, (b - a) % RING;
    if forth <= back then forth else back
  }

  ghost predicate Sorted(routes: seq<Route>) {
    forall i, j :: 0 <= i < j < |routes| ==> routes[i].id <= routes[j].id
  }

  ghost predicate Unique(routes: seq<Route>) {
    forall i, j :: 0 <= i < j < |routes| ==> routes[i].id < routes[j].id
  }

  // ---------------------------------------------------------------- ring order

  /** The table read from position `index` around the ring. */
  function Rotated(routes: seq<Route>, index: nat): (ring: seq<Route>)
    requires index <= |routes|
    ensures |ring| == |routes|
  {
    routes[index..] + routes[..index]
  }

  /** `index` separates the ids up to `id` from those from `id` on. */
  ghost predicate Separates(routes: seq<Route>, index: nat, id: Id) {
    && index <= |routes|
    && (forall i :: 0 <= i < index ==> routes[i].id <= id)
    && (forall i :: index <= i < |routes| ==> id <= routes[i].id)
  }

  /** Going around the ring, the distance to `id` first grows and then shrinks. */
  ghost predicate Bitonic(ring: seq<Route>, id: Id) {
    forall i, j, k :: 0 <= i < j < k < |ring| ==>
      Distance(id, ring[i].id) <= Distance(id, ring[j].id) || Distance(id, ring[k].id) <= Distance(id, ring[j].id)
  }

  /** How far clockwise ring[k] lies, the last part being counted up to a full turn. */
  function Turn(routes: seq<Route>, index: nat, id: Id, k: nat): int
    requires index <= |routes| && k < |routes|
  {
    var offset := Rotated(routes, index)[k].id - id;
    if k < |routes| - index then offset else offset + RING
  }

  lemma TurnGivesDistance(routes: seq<Route>, index: nat, id: Id, k: nat)
    requires Separates(routes, index, id) && k < |routes|
    ensures var t := Turn(routes, index, id, k);
            0 <= t <= RING && Distance(id, Rotated(routes, index)[k].id) == if t <= RING - t then t else RING - t
  {
  }

  lemma RingIsBitonic(routes: seq<Route>, index: nat, id: Id)
    requires Sorted(routes) && Separates(routes, index, id)
    ensures Bitonic(Rotated(routes, index), id)
  {
    var ring := Rotated(routes, index);
    forall i, j, k | 0 <= i < j < k < |ring|
      ensures Distance(id, ring[i].id) <= Distance(id, ring[j].id) || Distance(id, ring[k].id) <= Distance(id, ring[j].id)
    {
      TurnGivesDistance(routes, index, id, i);
      TurnGivesDistance(routes, index, id, j);
      TurnGivesDistance(routes, index, id, k);
      assert Turn(routes, index, id, i) <= Turn(routes, index, id, j) <= Turn(routes, index, id, k);
    }
  }

  /** How far clockwise x lies from id. */
  function Clockwise(id: Id, x: Id): int {
    (x - id) % RING
  }

  /** Going around the ring, every route lies farther clockwise than the one before. */
  ghost predicate Rising(ring: seq<Route>, id: Id) {
    forall i, j :: 0 <= i < j < |ring| ==> Clockwise(id, ring[i].id) < Clockwise(id, ring[j].id)
  }

  lemma DistanceIsShorterWay(id: Id, x: Id)
    ensures var c := Clockwise(id, x); 0 <= c < RING && Distance(id, x) == if c <= RING - c then c else RING - c
  {
  }

  /** `index` is the first position from `id` on. */
  ghost predicate StartsAt(routes: seq<Route>, index: nat, id: Id) {
    && index <= |routes|
    && (forall i :: 0 <= i < index ==> routes[i].id < id)
    && (forall i :: index <= i < |routes| ==> id <= routes[i].id)
  }

  lemma RingIsRising(routes: seq<Route>, index: nat, id: Id)
    requires Unique(routes) && StartsAt(routes, index, id)
    ensures Rising(Rotated(routes, index), id)
  {
    var ring := Rotated(routes, index);
    forall k | 0 <= k < |ring|
      ensures Clockwise(id, ring[k].id) == if k < |routes| - index then ring[k].id - id else ring[k].id - id + RING
    {
      if k >= |routes| - index {
        assert ring[k] == routes[k - (|routes| - index)];
      }
    }
  }

  // ---------------------------------------------------------------- binary search

  datatype Search = Found(index: nat) | Missing(index: nat)

  /** `binary_search_by_key`: some position of the id, or the place where it would keep the order. */
  method BinarySearch(routes: seq<Route>, id: Id) returns (s: Search)
    requires Sorted(routes)
    ensures Separates(routes, s.index, id)
    ensures match s
            case Found(i) => i < |routes| && routes[i].id == id
            case Missing(i) => forall j :: 0 <= j < |routes| ==> routes[j].id != id
  {
    var lo, hi := 0, |routes|;
    while lo < hi
      invariant lo <= hi <= |routes|
      invariant forall i :: 0 <= i < lo ==> routes[i].id < id
      invariant forall i :: hi <= i < |routes| ==> id < routes[i].id
    {
      var mid := lo + (hi - lo) / 2;
      if routes[mid].id == id {
        return Found(mid);
      } else if routes[mid].id < id {
        lo := mid + 1;
      } else {
        hi := mid;
      }
    }
    s := Missing(lo);
  }

  // ---------------------------------------------------------------- the sweep

  /** The list is in order of distance to `id`. */
  ghost predicate Nearing(found: seq<Route>, id: Id) {
    forall i, j :: 0 <= i < j < |found| ==> Distance(id, found[i].id) <= Distance(id, found[j].id)
  }

  function Peeked(peek: Option<Route>): seq<Route> {
    if peek == None then [] else [peek.value]
  }

  /** What the two iterators and the two peeks still hold, in ring order. */
  function Rest(left: seq<Route>, right: seq<Route>, leftPeek: Option<Route>, rightPeek: Option<Route>): seq<Route> {
    Peeked(rightPeek) + right + left + Peeked(leftPeek)
  }

  /** Both ends are peeked; only the last route may be peeked from one side. */
  ghost predicate Primed(left: seq<Route>, right: seq<Route>, leftPeek: Option<Route>, rightPeek: Option<Route>) {
    leftPeek == None || rightPeek == None ==> left == [] && right == []
  }

  /** `left.next().or_else(|| right.next_back())`: the last element of the remaining ring part. */
  method NextLeft(left: seq<Route>, right: seq<Route>) returns (peek: Option<Route>, left': seq<Route>, right': seq<Route>)
    ensures right + left == right' + left' + Peeked(peek)
    ensures peek == None ==> left' == [] && right' == []
  {
    if left != [] {
      peek, left', right' := Some(left[|left| - 1]), left[..|left| - 1], right;
    } else if right != [] {
      peek, left', right' := Some(right[|right| - 1]), left, right[..|right| - 1];
    } else {
      peek, left', right' := None, left, right;
    }
  }

  /** `right.next().or_else(|| left.next_back())`: the first element of the remaining ring part. */
  method NextRight(left: seq<Route>, right: seq<Route>) returns (peek: Option<Route>, left': seq<Route>, right': seq<Route>)
    ensures right + left == Peeked(peek) + right' + left'
    ensures peek == None ==> left' == [] && right' == []
  {
    if right != [] {
      peek, left', right' := Some(right[0]), left, right[1..];
    } else if left != [] {
      peek, left', right' := Some(left[0]), left[1..], right;
    } else {
      peek, left', right' := None, left, right;
    }
  }

  /** Everything swept so far is in order and no farther than what is left; nothing is lost or repeated. */
  ghost predicate Sweeping(found: seq<Route>, rest: seq<Route>, ring: seq<Route>, id: Id) {
    && Nearing(found, id) && Bitonic(rest, id)
    && (forall i, j :: 0 <= i < |found| && 0 <= j < |rest| ==> Distance(id, found[i].id) <= Distance(id, rest[j].id))
    && multiset(found) + multiset(rest) == multiset(ring)
  }

  lemma SweepingBends(found: seq<Route>, rest: seq<Route>, ring: seq<Route>, id: Id)
    requires Sweeping(found, rest, ring, id)
    ensures Bitonic(rest, id)
  {
  }

  lemma TakeFirst(found: seq<Route>, rest: seq<Route>, ring: seq<Route>, id: Id)
    requires Sweeping(found, rest, ring, id) && rest != []
    requires Distance(id, rest[0].id) <= Distance(id, rest[|rest| - 1].id)
    ensures Sweeping(found + [rest[0]], rest[1..], ring, id)
  {
    hide Distance, Bitonic;
    var rest' := rest[1..];
    BitonicTail(rest, id);
    forall j | 0 <= j < |rest'|
      ensures Distance(id, rest[0].id) <= Distance(id, rest'[j].id)
    {
      EndsAreNearest(rest, id, j + 1);
    }
    assert rest == [rest[0]] + rest';
  }

  lemma BitonicTail(rest: seq<Route>, id: Id)
    requires Bitonic(rest, id) && rest != []
    ensures Bitonic(rest[1..], id)
  {
    hide Distance;
    var t := rest[1..];
    forall i, j, k | 0 <= i < j < k < |t|
      ensures Distance(id, t[i].id) <= Distance(id, t[j].id) || Distance(id, t[k].id) <= Distance(id, t[j].id)
    {
      var i', j', k' := i + 1, j + 1, k + 1;
      assert t[i] == rest[i'] && t[j] == rest[j'] && t[k] == rest[k'];
    }
  }

  /** One of the two ends is at least as near as any route in between. */
  lemma EndsAreNearest(rest: seq<Route>, id: Id, j: nat)
    requires Bitonic(rest, id) && j < |rest|
    ensures Distance(id, rest[0].id) <= Distance(id, rest[j].id) || Distance(id, rest[|rest| - 1].id) <= Distance(id, rest[j].id)
  {
    hide Distance;
    var k := |rest| - 1;
    assert 0 < j < k || j == 0 || j == k;
  }

  lemma TakeLast(found: seq<Route>, rest: seq<Route>, ring: seq<Route>, id: Id)
    requires Sweeping(found, rest, ring, id) && rest != []
    requires Distance(id, rest[|rest| - 1].id) <= Distance(id, rest[0].id)
    ensures Sweeping(found + [rest[|rest| - 1]], rest[..|rest| - 1], ring, id)
  {
    hide Distance, Bitonic;
    var n := |rest| - 1;
    var rest' := rest[..n];
    BitonicInit(rest, id);
    forall j | 0 <= j < |rest'|
      ensures Distance(id, rest[n].id) <= Distance(id, rest'[j].id)
    {
      EndsAreNearest(rest, id, j);
    }
    assert rest == rest' + [rest[n]];
  }

  lemma BitonicInit(rest: seq<Route>, id: Id)
    requires Bitonic(rest, id) && rest != []
    ensures Bitonic(rest[..|rest| - 1], id)
  {
    hide Distance;
  }

  /** The nearer end of the remaining ring part is taken, the front one when both are equally near. */
  ghost predicate Taken(rest: seq<Route>, id: Id, route: Option<Route>, after: seq<Route>) {
    if rest == [] then route == None && after == []
    else
      var n := |rest| - 1;
      if Distance(id, rest[n].id) < Distance(id, rest[0].id) then route == Some(rest[n]) && after == rest[..n]
      else route == Some(rest[0]) && after == rest[1..]
  }

  /** The nearer route first, and of two equally near ones the one clockwise of `id`. */
  ghost predicate Before(id: Id, x: Route, y: Route) {
    || Distance(id, x.id) < Distance(id, y.id)
    || (Distance(id, x.id) == Distance(id, y.id) && Clockwise(id, x.id) < Clockwise(id, y.id))
  }

  ghost predicate Ranked(found: seq<Route>, id: Id) {
    forall i, j :: 0 <= i < j < |found| ==> Before(id, found[i], found[j])
  }

  /** Everything swept so far is ranked, before everything that is left. */
  ghost predicate Ranking(found: seq<Route>, rest: seq<Route>, id: Id) {
    Rising(rest, id) && Ranked(found, id) && forall i, j :: 0 <= i < |found| && 0 <= j < |rest| ==> Before(id, found[i], rest[j])
  }

  lemma TakenRanks(found: seq<Route>, rest: seq<Route>, id: Id, route: Option<Route>, after: seq<Route>)
    requires Ranking(found, rest, id) && Bitonic(rest, id) && Taken(rest, id, route, after) && rest != []
    ensures route.Some? && Ranking(found + [route.value], after, id)
  {
    hide Distance, Clockwise, Bitonic, Before;
    var n := |rest| - 1;
    if Distance(id, rest[n].id) < Distance(id, rest[0].id) {
      forall j | 0 <= j < n
        ensures Before(id, rest[n], rest[j])
      {
        EndsAreNearest(rest, id, j);
        LastIsBefore(rest, id, j);
      }
    } else {
      forall j | 0 < j <= n
        ensures Before(id, rest[0], rest[j])
      {
        EndsAreNearest(rest, id, j);
        FirstIsBefore(rest, id, j);
      }
    }
  }

  lemma FirstIsBefore(rest: seq<Route>, id: Id, j: nat)
    requires Rising(rest, id) && 0 < j < |rest| && Distance(id, rest[0].id) <= Distance(id, rest[j].id)
    ensures Before(id, rest[0], rest[j])
  {
    hide Distance, Clockwise;
  }

  lemma LastIsBefore(rest: seq<Route>, id: Id, j: nat)
    requires Rising(rest, id) && j < |rest| - 1
    requires Distance(id, rest[|rest| - 1].id) < Distance(id, rest[0].id) && Distance(id, rest[|rest| - 1].id) <= Distance(id, rest[j].id)
    ensures Before(id, rest[|rest| - 1], rest[j])
  {
    hide Distance, Clockwise;
    DistanceIsShorterWay(id, rest[0].id);
    DistanceIsShorterWay(id, rest[j].id);
    DistanceIsShorterWay(id, rest[|rest| - 1].id);
    assert j > 0 ==> Clockwise(id, rest[0].id) < Clockwise(id, rest[j].id);
  }

  lemma TakenSweeps(found: seq<Route>, rest: seq<Route>, ring: seq<Route>, id: Id, route: Option<Route>, after: seq<Route>)
    requires Sweeping(found, rest, ring, id) && Taken(rest, id, route, after)
    ensures route == None <==> rest == []
    ensures route != None ==> Sweeping(found + [route.value], after, ring, id) && |after| < |rest|
    ensures route != None && Ranking(found, rest, id) ==> Ranking(found + [route.value], after, id)
  {
    SweepingBends(found, rest, ring, id);
    hide Distance, Sweeping, Ranking, Bitonic;
    if rest != [] && Ranking(found, rest, id) {
      TakenRanks(found, rest, id, route, after);
    }
    if rest != [] {
      if Distance(id, rest[|rest| - 1].id) < Distance(id, rest[0].id) {
        TakeLast(found, rest, ring, id);
      } else {
        TakeFirst(found, rest, ring, id);
      }
    }
  }

  /** One call of the closure. */
  method SweepNext(id: Id, left: seq<Route>, right: seq<Route>, leftPeek: Option<Route>, rightPeek: Option<Route>)
    returns (route: Option<Route>, left': seq<Route>, right': seq<Route>, leftPeek': Option<Route>, rightPeek': Option<Route>)
    requires Primed(left, right, leftPeek, rightPeek)
    ensures Primed(left', right', leftPeek', rightPeek')
    ensures Taken(Rest(left, right, leftPeek, rightPeek), id, route, Rest(left', right', leftPeek', rightPeek'))
  {
    hide Distance, Rest, Peeked, Taken;
    left', right', leftPeek', rightPeek' := left, right, leftPeek, rightPeek;
    if leftPeek == None || rightPeek == None {
      route := if leftPeek != None then leftPeek else rightPeek;
      leftPeek', rightPeek' := None, None;
      LastTaken(id, left, right, leftPeek, rightPeek);
    } else if Distance(id, leftPeek.value.id) < Distance(id, rightPeek.value.id) {
      leftPeek', left', right' := NextLeft(left, right);
      route := leftPeek;
      LeftTaken(id, left, right, leftPeek, rightPeek, left', right', leftPeek');
    } else {
      rightPeek', left', right' := NextRight(left, right);
      route := rightPeek;
      RightTaken(id, left, right, leftPeek, rightPeek, left', right', rightPeek');
    }
  }

  lemma LastTaken(id: Id, left: seq<Route>, right: seq<Route>, leftPeek: Option<Route>, rightPeek: Option<Route>)
    requires Primed(left, right, leftPeek, rightPeek) && (leftPeek == None || rightPeek == None)
    ensures Taken(Rest(left, right, leftPeek, rightPeek), id, if leftPeek != None then leftPeek else rightPeek, Rest(left, right, None, None))
  {
    hide Distance, Rest, Peeked;
    RestShape(left, right, leftPeek, rightPeek);
    RestShape(left, right, None, None);
    LastOne(leftPeek, rightPeek);
  }

  lemma LeftTaken(id: Id, left: seq<Route>, right: seq<Route>, leftPeek: Option<Route>, rightPeek: Option<Route>,
                  left': seq<Route>, right': seq<Route>, leftPeek': Option<Route>)
    requires leftPeek.Some? && rightPeek.Some? && right + left == right' + left' + Peeked(leftPeek')
    requires Distance(id, leftPeek.value.id) < Distance(id, rightPeek.value.id)
    ensures Taken(Rest(left, right, leftPeek, rightPeek), id, leftPeek, Rest(left', right', leftPeek', rightPeek))
  {
    hide Distance, Rest, Peeked;
    RestShape(left, right, leftPeek, rightPeek);
    RestShape(left', right', leftPeek', rightPeek);
  }

  lemma RightTaken(id: Id, left: seq<Route>, right: seq<Route>, leftPeek: Option<Route>, rightPeek: Option<Route>,
                   left': seq<Route>, right': seq<Route>, rightPeek': Option<Route>)
    requires leftPeek.Some? && rightPeek.Some? && right + left == Peeked(rightPeek') + right' + left'
    requires !(Distance(id, leftPeek.value.id) < Distance(id, rightPeek.value.id))
    ensures Taken(Rest(left, right, leftPeek, rightPeek), id, rightPeek, Rest(left', right', leftPeek, rightPeek'))
  {
    hide Distance, Rest, Peeked;
    RestShape(left, right, leftPeek, rightPeek);
    RestShape(left', right', leftPeek, rightPeek');
  }

  lemma LastOne(leftPeek: Option<Route>, rightPeek: Option<Route>)
    requires leftPeek == None || rightPeek == None
    ensures Peeked(None) + Peeked(None) == []
    ensures Peeked(rightPeek) + Peeked(leftPeek) ==
            if leftPeek != None then [leftPeek.value] else if rightPeek != None then [rightPeek.value] else []
  {
  }

  lemma RestShape(left: seq<Route>, right: seq<Route>, leftPeek: Option<Route>, rightPeek: Option<Route>)
    ensures var rest := Rest(left, right, leftPeek, rightPeek);
            && rest == Peeked(rightPeek) + (right + left + Peeked(leftPeek)) == (Peeked(rightPeek) + right + left) + Peeked(leftPeek)
            && (leftPeek.Some? && rightPeek.Some? ==>
                  && |rest| >= 2 && rest[0] == rightPeek.value && rest[|rest| - 1] == leftPeek.value
                  && rest[1..] == right + left + Peeked(leftPeek) && rest[..|rest| - 1] == Peeked(rightPeek) + (right + left))
            && (Primed(left, right, leftPeek, rightPeek) && (leftPeek == None || rightPeek == None) ==>
                  rest == Peeked(rightPeek) + Peeked(leftPeek))
  {
    Grouped(Peeked(rightPeek), right, left, Peeked(leftPeek));
    if leftPeek.Some? && rightPeek.Some? {
      Ends(rightPeek.value, right + left, leftPeek.value);
    } else if left == [] && right == [] {
      assert right + left + Peeked(leftPeek) == Peeked(leftPeek);
    }
  }

  lemma Grouped(a: seq<Route>, b: seq<Route>, c: seq<Route>, d: seq<Route>)
    ensures a + b + c + d == a + (b + c + d) == a + (b + c) + d
  {
  }

  lemma Ends(x: Route, middle: seq<Route>, y: Route)
    ensures var rest := [x] + middle + [y];
            && rest[0] == x && rest[|rest| - 1] == y
            && rest[1..] == middle + [y] && rest[..|rest| - 1] == [x] + middle
  {
  }

  // ---------------------------------------------------------------- the table

  lemma Replaced(was: seq<Route>, i: nat, route: Route)
    requires Sorted(was) && i < |was| && was[i].id == route.id
    ensures Sorted(was[i := route])
    ensures Unique(was) ==> Unique(was[i := route]) && forall r :: r in was[i := route] <==> r == route || (r in was && r.id != route.id)
  {
    var now := was[i := route];
    if Unique(was) {
      forall r
        ensures r in now <==> r == route || (r in was && r.id != route.id)
      {
        assert now[i] == route;
        if r in was && r.id != route.id {
          var k :| 0 <= k < |was| && was[k] == r;
          assert now[k] == r;
        }
      }
    }
  }

  lemma Added(was: seq<Route>, i: nat, route: Route)
    requires Sorted(was) && Separates(was, i, route.id) && forall j :: 0 <= j < |was| ==> was[j].id != route.id
    ensures var now := was[..i] + [route] + was[i..];
            && Sorted(now) && multiset(now) == multiset(was) + multiset{route}
            && (Unique(was) ==> Unique(now))
            && forall r :: r in now <==> r == route || (r in was && r.id != route.id)
  {
    AddedOrder(was, i, route);
    hide Sorted, Unique, Separates;
    var now := was[..i] + [route] + was[i..];
    assert was == was[..i] + was[i..];
    forall r
      ensures r in now <==> r == route || (r in was && r.id != route.id)
    {
      Membership(was[..i], was[i..], route, r);
    }
  }

  lemma AddedOrder(was: seq<Route>, i: nat, route: Route)
    requires Separates(was, i, route.id) && forall j :: 0 <= j < |was| ==> was[j].id != route.id
    ensures Sorted(was) ==> Sorted(was[..i] + [route] + was[i..])
    ensures Unique(was) ==> Unique(was[..i] + [route] + was[i..])
  {
    var now := was[..i] + [route] + was[i..];
    assert forall k :: 0 <= k < |now| ==> now[k] == if k < i then was[k] else if k == i then route else was[k - 1];
  }

  lemma Removed(was: seq<Route>, i: nat)
    requires Sorted(was) && i < |was|
    ensures var now := was[..i] + was[i + 1..];
            && Sorted(now) && multiset(now) + multiset{was[i]} == multiset(was)
            && (Unique(was) ==> Unique(now) && forall r :: r in now <==> r in was && r.id != was[i].id)
  {
    RemovedOrder(was, i);
    assert was == was[..i] + [was[i]] + was[i + 1..];
    if Unique(was) {
      OnlyOne(was, i);
      forall r
        ensures r in was[..i] + was[i + 1..] <==> r in was && r.id != was[i].id
      {
        Membership(was[..i], was[i + 1..], was[i], r);
      }
    }
  }

  lemma RemovedOrder(was: seq<Route>, i: nat)
    requires i < |was|
    ensures Sorted(was) ==> Sorted(was[..i] + was[i + 1..])
    ensures Unique(was) ==> Unique(was[..i] + was[i + 1..])
  {
  }

  lemma OnlyOne(was: seq<Route>, i: nat)
    requires i < |was| && Unique(was)
    ensures forall r :: r in was[..i] + was[i + 1..] ==> r.id != was[i].id
  {
  }

  lemma Membership(a: seq<Route>, b: seq<Route>, x: Route, r: Route)
    ensures r in a + [x] + b <==> r == x || r in a + b
  {
  }

  class RoutingTable {
    var routes: seq<Route>

    ghost predicate Valid()
      reads this
    {
      Sorted(routes)
    }

    constructor ()
      ensures Valid() && routes == []
    {
      routes := [];
    }

    /** `insert`: replaces the route of a known id, otherwise adds the route. */
    method Insert(route: Route)
      requires Valid()
      modifies this
      ensures Valid()
      ensures old(Unique(routes)) ==> Unique(routes) && forall r :: r in routes <==> r == route || (r in old(routes) && r.id != route.id)
      ensures if forall j :: 0 <= j < |old(routes)| ==> old(routes)[j].id != route.id
              then multiset(routes) == old(multiset(routes)) + multiset{route}
              else exists i :: 0 <= i < |old(routes)| && old(routes)[i].id == route.id && routes == old(routes)[i := route]
    {
      var s := BinarySearch(routes, route.id);
      ghost var was := routes;
      match s {
        case Found(i) =>
          routes := routes[i := route];
          Replaced(was, i, route);
        case Missing(i) =>
          routes := routes[..i] + [route] + routes[i..];
          Added(was, i, route);
      }
    }

    /** `remove`; `id` is absent when the peer id is not an ed25519 key. */
    method Remove(id: Option<Id>) returns (removed: Option<Route>)
      requires Valid()
      modifies this
      ensures Valid()
      ensures removed == None ==> routes == old(routes) && (id == None || forall j :: 0 <= j < |routes| ==> routes[j].id != id.value)
      ensures removed.Some? ==> id.Some? && removed.value.id == id.value && multiset(routes) + multiset{removed.value} == old(multiset(routes))
      ensures old(Unique(routes)) && id.Some? ==> Unique(routes) && forall r :: r in routes <==> r in old(routes) && r.id != id.value
    {
      if id == None {
        return None;
      }
      var s := BinarySearch(routes, id.value);
      ghost var was := routes;
      match s {
        case Found(i) =>
          removed := Some(routes[i]);
          routes := routes[..i] + routes[i + 1..];
          Removed(was, i);
        case Missing(i) =>
          removed := None;
      }
    }

    /** `get`. */
    method Get(id: Option<Id>) returns (addr: Option<string>)
      requires Valid()
      ensures addr.Some? ==> id.Some? && exists i :: 0 <= i < |routes| && routes[i] == Route(id.value, addr.value)
      ensures addr == None && id.Some? ==> forall i :: 0 <= i < |routes| ==> routes[i].id != id.value
    {
      if id == None {
        return None;
      }
      var s := BinarySearch(routes, id.value);
      match s {
        case Found(i) =>
          assert routes[i] == Route(id.value, routes[i].addr);
          addr := Some(routes[i].addr);
        case Missing(i) => addr := None;
      }
    }

    /** `closest_low`, drained: every route once, nearest first. */
    method ClosestLow(id: Id) returns (found: seq<Route>)
      requires Valid()
      ensures Nearing(found, id)
      ensures multiset(found) == multiset(routes)
      ensures Unique(routes) ==> Ranked(found, id)
    {
      hide Distance, Sweeping, Taken, Rest, Peeked, Nearing, Separates, Sorted, Ranking, Ranked, Unique, Clockwise;
      var s := BinarySearch(routes, id);
      SweepStarts(routes, s, id);
      var left, right := routes[..s.index], routes[s.index..];
      ghost var ring := right + left;
      var leftPeek, rightPeek;
      leftPeek, left, right := NextLeft(left, right);
      rightPeek, left, right := NextRight(left, right);
      found := [];
      ghost var rest := Rest(left, right, leftPeek, rightPeek);
      RestShape(left, right, leftPeek, rightPeek);
      var route;
      route, left, right, leftPeek, rightPeek := SweepNext(id, left, right, leftPeek, rightPeek);
      TakenSweeps(found, rest, ring, id, route, Rest(left, right, leftPeek, rightPeek));
      while route != None
        invariant Primed(left, right, leftPeek, rightPeek) && Sweeping(found, rest, ring, id)
        invariant Unique(routes) ==> Ranking(found, rest, id)
        invariant Taken(rest, id, route, Rest(left, right, leftPeek, rightPeek))
        decreases |rest|
      {
        TakenSweeps(found, rest, ring, id, route, Rest(left, right, leftPeek, rightPeek));
        found := found + [route.value];
        rest := Rest(left, right, leftPeek, rightPeek);
        route, left, right, leftPeek, rightPeek := SweepNext(id, left, right, leftPeek, rightPeek);
      }
      TakenSweeps(found, rest, ring, id, route, Rest(left, right, leftPeek, rightPeek));
      SweepEnds(found, rest, ring, routes, s.index, id);
    }
  }

  /** For every k the first k routes are k nearest ones: no route left over is nearer than any of them. */
  lemma FirstAreNearest(found: seq<Route>, routes: seq<Route>, id: Id, k: nat)
    requires Nearing(found, id) && multiset(found) == multiset(routes) && k <= |found|
    ensures multiset(found[..k]) + multiset(found[k..]) == multiset(routes)
    ensures forall x, y :: x in found[..k] && y in found[k..] ==> Distance(id, x.id) <= Distance(id, y.id)
  {
    hide Distance;
    assert found == found[..k] + found[k..];
    forall x, y | x in found[..k] && y in found[k..]
      ensures Distance(id, x.id) <= Distance(id, y.id)
    {
      var i :| 0 <= i < k && found[i] == x;
      var j :| k <= j < |found| && found[j] == y;
    }
  }

  /** Ranked lists of the same routes are equal: with distinct ids the answer is fully determined. */
  lemma {:induction false} RankedUnique(a: seq<Route>, b: seq<Route>, id: Id)
    requires Ranked(a, id) && Ranked(b, id) && multiset(a) == multiset(b)
    ensures a == b
  {
    hide Ranked, Before;
    assert |a| == |multiset(a)| && |b| == |multiset(b)|;
    if a != [] {
      SameHead(a, b, id);
      WithoutHead(a, id);
      WithoutHead(b, id);
      RankedUnique(a[1..], b[1..], id);
      assert a == [a[0]] + a[1..] && b == [b[0]] + b[1..];
    }
  }

  lemma SameHead(a: seq<Route>, b: seq<Route>, id: Id)
    requires Ranked(a, id) && Ranked(b, id) && multiset(a) == multiset(b) && a != [] && b != []
    ensures a[0] == b[0]
  {
    hide Distance, Clockwise;
    assert a[0] in multiset(b) && b[0] in multiset(a);
    var i :| 0 <= i < |b| && b[i] == a[0];
    var j :| 0 <= j < |a| && a[j] == b[0];
    assert i > 0 ==> Before(id, b[0], b[i]);
    assert j > 0 ==> Before(id, a[0], a[j]);
  }

  lemma WithoutHead(a: seq<Route>, id: Id)
    requires a != []
    ensures multiset(a[1..]) == multiset(a) - multiset{a[0]}
    ensures Ranked(a, id) ==> Ranked(a[1..], id)
  {
    hide Before;
    assert a == [a[0]] + a[1..];
  }

  lemma SweepStarts(routes: seq<Route>, s: Search, id: Id)
    requires Sorted(routes) && Separates(routes, s.index, id)
    requires match s
             case Found(i) => i < |routes| && routes[i].id == id
             case Missing(i) => forall j :: 0 <= j < |routes| ==> routes[j].id != id
    ensures Sweeping([], Rotated(routes, s.index), Rotated(routes, s.index), id)
    ensures Unique(routes) ==> Ranking([], Rotated(routes, s.index), id)
  {
    hide Distance, Clockwise;
    RingIsBitonic(routes, s.index, id);
    if Unique(routes) {
      RingIsRising(routes, s.index, id);
    }
  }

  lemma SweepEnds(found: seq<Route>, rest: seq<Route>, ring: seq<Route>, routes: seq<Route>, index: nat, id: Id)
    requires index <= |routes| && ring == Rotated(routes, index) && rest == [] && Sweeping(found, rest, ring, id)
    ensures Nearing(found, id) && multiset(found) == multiset(routes)
    ensures Ranking(found, rest, id) ==> Ranked(found, id)
  {
    assert routes == routes[..index] + routes[index..];
    assert multiset(routes) == multiset(routes[..index]) + multiset(routes[index..]) == multiset(ring);
  }
}
