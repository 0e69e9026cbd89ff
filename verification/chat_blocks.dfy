/** Block hashes: the messages' hashes, sorted and combined. */
module BlockHash {
  import opened Common
  import opened MessageBuffers
  import opened Sorting

  /** A 32-byte hash, read as a big-endian number. */
  type Hash = nat

  /** The hash functions, which are not looked into. */
  datatype Crypto = Crypto(ofBytes: Message -> Hash, combine: (Hash, Hash) -> Hash)

  /** `sort_unstable`. */
  function Sort(hs: seq<Hash>): seq<Hash> {
    SortBy<Hash>((h: Hash) => h, hs)
  }

  lemma SortKeeps(hs: seq<Hash>)
    ensures multiset(Sort(hs)) == multiset(hs)
  {
    SortOrder<Hash>((h: Hash) => h, hs);
  }

  lemma SameSort(a: seq<Hash>, b: seq<Hash>)
    requires multiset(a) == multiset(b)
    ensures Sort(a) == Sort(b)
  {
    SortForgets<Hash>((h: Hash) => h, a, b);
  }

  function Hashes(c: Crypto, ms: seq<Message>): (hs: seq<Hash>)
    ensures |hs| == |ms|
  {
    seq<Hash>(|ms|, k requires 0 <= k < |ms| => c.ofBytes(ms[k]))
  }

  /** Left fold of the combine operation. */
  function Folded(c: Crypto, hs: seq<Hash>): Hash
    requires hs != []
  {
    if |hs| == 1 then hs[0] else c.combine(Folded(c, hs[..|hs| - 1]), hs[|hs| - 1])
  }

  /** The block hash of a buffer; none if no message can be parsed from it. */
  function HashOf(c: Crypto, b: seq<Byte>): Option<Hash> {
    var hs := Sort(Hashes(c, Parse(b)));
    if hs == [] then None else Some(Folded(c, hs))
  }

  lemma {:induction false} SameHashes(c: Crypto, a: seq<Message>, b: seq<Message>)
    requires multiset(a) == multiset(b)
    ensures multiset(Hashes(c, a)) == multiset(Hashes(c, b))
  {
    SameSize(a, b);
    if a != [] {
      assert a[0] in multiset(b);
      var k :| 0 <= k < |b| && b[k] == a[0];
      var rest := b[..k] + b[k + 1..];
      WithoutOne(b, k);
      WithoutFirst(a);
      Cancel(multiset(a[1..]), multiset(rest), a[0]);
      hide *;
      SameHashes(c, a[1..], rest);
      HashesWithout(c, a, 0);
      HashesWithout(c, b, k);
    }
  }

  lemma WithoutFirst<T>(a: seq<T>)
    requires a != []
    ensures a[..0] + a[1..] == a[1..] && multiset(a) == multiset(a[1..]) + multiset{a[0]}
  {
    assert a[..0] + a[1..] == a[1..];
    WithoutOne(a, 0);
  }

  lemma HashesWithout(c: Crypto, ms: seq<Message>, k: nat)
    requires k < |ms|
    ensures multiset(Hashes(c, ms)) == multiset(Hashes(c, ms[..k] + ms[k + 1..])) + multiset{c.ofBytes(ms[k])}
  {
    var hs := Hashes(c, ms);
    WithoutOne(hs, k);
    assert hs[..k] + hs[k + 1..] == Hashes(c, ms[..k] + ms[k + 1..]);
  }

  lemma Cancel<T>(m: multiset<T>, n: multiset<T>, x: T)
    requires m + multiset{x} == n + multiset{x}
    ensures m == n
  {
    assert m == (m + multiset{x}) - multiset{x} && n == (n + multiset{x}) - multiset{x};
  }

  lemma WithoutOne<T>(s: seq<T>, k: nat)
    requires k < |s|
    ensures multiset(s) == multiset(s[..k] + s[k + 1..]) + multiset{s[k]}
  {
    assert s == s[..k] + [s[k]] + s[k + 1..];
  }

  /** The block hash depends only on the multiset of messages. */
  lemma HashForgetsOrder(c: Crypto, a: seq<Byte>, b: seq<Byte>)
    requires multiset(Parse(a)) == multiset(Parse(b))
    ensures HashOf(c, a) == HashOf(c, b)
  {
    SameHashes(c, Parse(a), Parse(b));
    SameSort(Hashes(c, Parse(a)), Hashes(c, Parse(b)));
  }

  // ---------------------------------------------------------------- what the hash is made of

  lemma SortOneMore(hs: seq<Hash>, x: Hash)
    requires forall k :: 0 <= k < |hs| ==> hs[k] <= x
    ensures Sort(hs + [x]) == Sort(hs) + [x]
  {
    var a, b := Sort(hs + [x]), Sort(hs) + [x];
    SortOrder<Hash>((h: Hash) => h, hs + [x]);
    SortOrder<Hash>((h: Hash) => h, hs);
    forall k | 0 <= k < |Sort(hs)|
      ensures Sort(hs)[k] <= x
    {
      assert Sort(hs)[k] in multiset(Sort(hs));
      assert Sort(hs)[k] in multiset(hs);
    }
    assert multiset(a) == multiset(hs) + multiset{x} == multiset(b);
    OrderedUnique<Hash>((h: Hash) => h, a, b);
  }

  lemma FoldedOneMore(c: Crypto, hs: seq<Hash>, x: Hash)
    requires hs != []
    ensures Folded(c, hs + [x]) == c.combine(Folded(c, hs), x)
  {
    assert (hs + [x])[..|hs|] == hs;
  }

  /** The hash of a block of one message is the hash of the message. */
  lemma HashOfOne(c: Crypto, b: seq<Byte>, m: Message)
    requires |m| < 65536 && HashOf(c, b) == None
    ensures HashOf(c, b + Record(m)) == Some(c.ofBytes(m))
  {
    hide Parse, Record, Sort;
    RecordIsRead(b, m);
    SortKeeps(Hashes(c, Parse(b)));
    SameSize(Sort(Hashes(c, Parse(b))), Hashes(c, Parse(b)));
    assert Parse(b) + [m] == [m];
    assert Hashes(c, [m]) == [c.ofBytes(m)];
    SortedOne(c.ofBytes(m));
  }

  lemma SortedOne(h: Hash)
    ensures Sort([h]) == [h]
  {
    SortOneMore([], h);
    assert [] + [h] == [h];
  }

  /** A further message whose hash is not below those of the block is combined last. */
  lemma HashOfMore(c: Crypto, b: seq<Byte>, m: Message)
    requires |m| < 65536 && HashOf(c, b).Some?
    requires forall k :: 0 <= k < |Parse(b)| ==> c.ofBytes(Parse(b)[k]) <= c.ofBytes(m)
    ensures HashOf(c, b + Record(m)) == Some(c.combine(HashOf(c, b).value, c.ofBytes(m)))
  {
    hide Parse, Record, Sort, Folded;
    RecordIsRead(b, m);
    var hs, x := Hashes(c, Parse(b)), c.ofBytes(m);
    assert Hashes(c, Parse(b) + [m]) == hs + [x];
    SortOneMore(hs, x);
    FoldedOneMore(c, Sort(hs), x);
  }

  /** Different messages, and different pairs of hashes, have different hashes, and no combination is a message's hash. */
  ghost predicate CollisionFree(c: Crypto) {
    && (forall m, n :: c.ofBytes(m) == c.ofBytes(n) ==> m == n)
    && (forall a, b, a', b' :: c.combine(a, b) == c.combine(a', b') ==> a == a' && b == b')
    && (forall a, b, m :: c.combine(a, b) != c.ofBytes(m))
  }

  ghost predicate AreHashes(c: Crypto, hs: seq<Hash>) {
    forall k :: 0 <= k < |hs| ==> IsHash(c, hs[k])
  }

  ghost predicate IsHash(c: Crypto, h: Hash) {
    exists m :: h == c.ofBytes(m)
  }

  lemma CombinationIsNoHash(c: Crypto, a: Hash, b: Hash)
    requires CollisionFree(c)
    ensures !IsHash(c, c.combine(a, b))
  {
  }

  lemma {:induction false} FoldedIdentifies(c: Crypto, hs: seq<Hash>, gs: seq<Hash>)
    requires CollisionFree(c) && hs != [] && gs != [] && Folded(c, hs) == Folded(c, gs)
    requires AreHashes(c, hs) && AreHashes(c, gs)
    ensures hs == gs
    decreases |hs|
  {
    hide IsHash;
    assert IsHash(c, hs[0]) && IsHash(c, gs[0]);
    if |hs| > 1 {
      CombinationIsNoHash(c, Folded(c, hs[..|hs| - 1]), hs[|hs| - 1]);
    }
    if |gs| > 1 {
      CombinationIsNoHash(c, Folded(c, gs[..|gs| - 1]), gs[|gs| - 1]);
    }
    if |hs| > 1 && |gs| > 1 {
      var i, j := |hs| - 1, |gs| - 1;
      FoldedIdentifies(c, hs[..i], gs[..j]);
      assert hs == hs[..i] + [hs[i]] && gs == gs[..j] + [gs[j]];
    }
  }

  lemma SortedAreHashes(c: Crypto, ms: seq<Message>)
    ensures AreHashes(c, Sort(Hashes(c, ms)))
  {
    hide Sort;
    var hs := Hashes(c, ms);
    SortKeeps(hs);
    forall k | 0 <= k < |Sort(hs)|
      ensures IsHash(c, Sort(hs)[k])
    {
      assert Sort(hs)[k] in multiset(Sort(hs));
      var j :| 0 <= j < |hs| && hs[j] == Sort(hs)[k];
      assert hs[j] == c.ofBytes(ms[j]);
    }
  }

  lemma {:induction false} MessagesOfHashes(c: Crypto, a: seq<Message>, b: seq<Message>)
    requires CollisionFree(c) && multiset(Hashes(c, a)) == multiset(Hashes(c, b))
    ensures multiset(a) == multiset(b)
  {
    SameSize(Hashes(c, a), Hashes(c, b));
    if a != [] {
      var k := FindHash(c, b, a[0], Hashes(c, a));
      var rest := b[..k] + b[k + 1..];
      WithoutFirst(a);
      WithoutOne(b, k);
      HashesWithout(c, a, 0);
      HashesWithout(c, b, k);
      hide CollisionFree, Hashes;
      Cancel(multiset(Hashes(c, a[1..])), multiset(Hashes(c, rest)), c.ofBytes(a[0]));
      MessagesOfHashes(c, a[1..], rest);
    }
  }

  lemma FindHash(c: Crypto, b: seq<Message>, m: Message, hs: seq<Hash>) returns (k: nat)
    requires CollisionFree(c) && hs != [] && hs[0] == c.ofBytes(m) && multiset(hs) == multiset(Hashes(c, b))
    ensures k < |b| && b[k] == m
  {
    assert hs[0] in multiset(hs);
    k :| 0 <= k < |b| && Hashes(c, b)[k] == hs[0];
  }

  /** Without collisions, equal block hashes mean the same messages. */
  lemma HashIdentifies(c: Crypto, a: seq<Byte>, b: seq<Byte>)
    requires CollisionFree(c) && HashOf(c, a) == HashOf(c, b)
    ensures multiset(Parse(a)) == multiset(Parse(b))
  {
    hide Parse, Sort, Folded, CollisionFree, Hashes, AreHashes;
    var hs, gs := Hashes(c, Parse(a)), Hashes(c, Parse(b));
    SortKeeps(hs);
    SortKeeps(gs);
    SortedAreHashes(c, Parse(a));
    SortedAreHashes(c, Parse(b));
    if HashOf(c, a).Some? {
      FoldedIdentifies(c, Sort(hs), Sort(gs));
    }
    MessagesOfHashes(c, Parse(a), Parse(b));
  }

  lemma {:induction false} ReversedSame(ms: seq<Message>)
    ensures multiset(Reversed(ms)) == multiset(ms)
  {
    if ms != [] {
      ReversedSame(ms[..|ms| - 1]);
      assert ms == ms[..|ms| - 1] + [ms[|ms| - 1]];
    }
  }

  /** `reduce`. */
  method Reduce(c: Crypto, hs: seq<Hash>) returns (acc: Hash)
    requires hs != []
    ensures acc == Folded(c, hs)
  {
    acc := hs[0];
    for k := 1 to |hs|
      invariant acc == Folded(c, hs[..k])
    {
      assert hs[..k + 1][..k] == hs[..k];
      acc := c.combine(acc, hs[k]);
    }
    assert hs[..|hs|] == hs;
  }

  /** `hash_block`, with the sorted message hashes it leaves in its scratch buffer. */
  method HashBlock(c: Crypto, b: seq<Byte>) returns (hash: Option<Hash>, temp: seq<Hash>)
    ensures hash == HashOf(c, b) && multiset(temp) == multiset(Hashes(c, Parse(b)))
  {
    hide Parse, Reversed, Sort, Folded;
    var messages := UnpackMessages(b);
    temp := [];
    for k := 0 to |messages|
      invariant temp == Hashes(c, messages)[..k]
    {
      temp := temp + [c.ofBytes(messages[k])];
    }
    assert temp == Hashes(c, messages);
    ReversedSame(Parse(b));
    SameHashes(c, messages, Parse(b));
    hide Hashes;
    SameSort(temp, Hashes(c, Parse(b)));
    SortKeeps(temp);
    temp := Sort(temp);
    if temp == [] {
      hash := None;
    } else {
      var acc := Reduce(c, temp);
      hash := Some(acc);
    }
  }
}
