/** Length-suffixed message buffers: parsing from the back, and retention in place. */
module MessageBuffers {
  import opened Common
  import opened Division

  type Message = seq<Byte>

  // ---------------------------------------------------------------- format

  /** The big-endian length suffix. */
  function Suffix(n: nat): seq<Byte> {
    [n / 256 % 256, n % 256]
  }

  function SuffixValue(hi: Byte, lo: Byte): nat {
    hi * 256 + lo
  }

  /** One message with its length behind it. */
  function Record(m: Message): (r: seq<Byte>)
    ensures |r| == |m| + 2
  {
    m + Suffix(|m|)
  }

  /** The two bytes behind a message are its length, the higher one first. */
  lemma RecordEnds(m: Message)
    requires |m| < 65536
    ensures var r := Record(m); r[..|m|] == m && 256 * r[|m|] + r[|m| + 1] as int == |m|
  {
  }

  function Print(ms: seq<Message>): seq<Byte> {
    if ms == [] then [] else Record(ms[0]) + Print(ms[1..])
  }

  /** The length of the last message, if the buffer ends with a complete one. */
  predicate HasMessage(b: seq<Byte>) {
    |b| >= 2 && |b| >= SuffixValue(b[|b| - 2], b[|b| - 1]) + 2
  }

  function LastLength(b: seq<Byte>): nat
    requires HasMessage(b)
  {
    SuffixValue(b[|b| - 2], b[|b| - 1])
  }

  /** Backwards parse: the messages in the order in which they stand in the buffer. */
  function Parse(b: seq<Byte>): seq<Message> {
    if HasMessage(b) then
      var n, len := |b|, LastLength(b);
      Parse(b[..n - len - 2]) + [b[n - len - 2..n - 2]]
    else []
  }

  function Kept(keep: Message -> bool, ms: seq<Message>): seq<Message> {
    if ms == [] then [] else Kept(keep, ms[..|ms| - 1]) + if keep(ms[|ms| - 1]) then [ms[|ms| - 1]] else []
  }

  lemma {:induction false} PrintConcat(a: seq<Message>, b: seq<Message>)
    ensures Print(a + b) == Print(a) + Print(b)
  {
    hide Record;
    if a == [] {
      assert a + b == b;
    } else {
      PrintConcat(a[1..], b);
      assert (a + b)[1..] == a[1..] + b;
    }
  }

  lemma PrintOne(m: Message)
    ensures Print([m]) == Record(m)
  {
    assert [m][1..] == [];
  }

  /** What stands at the end of a buffer with a complete message is that message's record. */
  lemma LastRecord(b: seq<Byte>)
    requires HasMessage(b)
    ensures var n, len := |b|, LastLength(b); b[n - len - 2..] == Record(b[n - len - 2..n - 2])
  {
    var n, len := |b|, LastLength(b);
    DivModUnique(len, 256, b[n - 2], b[n - 1]);
    DivModUnique(b[n - 2], 256, 0, b[n - 2]);
    assert b[n - len - 2..] == b[n - len - 2..n - 2] + b[n - 2..];
  }

  /** A printed message is read back whatever precedes it. */
  lemma RecordIsRead(b: seq<Byte>, m: Message)
    requires |m| < 65536
    ensures HasMessage(b + Record(m)) && LastLength(b + Record(m)) == |m|
    ensures Parse(b + Record(m)) == Parse(b) + [m]
  {
    var c, n := b + Record(m), |b| + |m| + 2;
    assert c[n - 2] == |m| / 256 % 256 && c[n - 1] == |m| % 256;
    assert SuffixValue(c[n - 2], c[n - 1]) == |m|;
    assert c[..|b|] == b && c[|b|..n - 2] == m;
  }

  /** Round trip: printed messages parse to themselves. */
  lemma {:induction false} ParsePrint(ms: seq<Message>)
    requires forall k :: 0 <= k < |ms| ==> |ms[k]| < 65536
    ensures Parse(Print(ms)) == ms
  {
    if ms != [] {
      var n := |ms| - 1;
      ParsePrint(ms[..n]);
      PrintConcat(ms[..n], [ms[n]]);
      PrintOne(ms[n]);
      assert ms == ms[..n] + [ms[n]];
      RecordIsRead(Print(ms[..n]), ms[n]);
    }
  }

  lemma ParseLast(b: seq<Byte>)
    requires HasMessage(b)
    ensures var c := |b| - LastLength(b) - 2; Parse(b) == Parse(b[..c]) + [b[c..|b| - 2]]
  {
  }

  lemma TwoParts(b: seq<Byte>, c: nat, k: nat)
    requires k <= c <= |b|
    ensures b[k..] == b[..c][k..] + b[c..] && b[..c][..k] == b[..k]
  {
  }

  /** The other way: what a parse found stands, printed, at the end of the buffer, behind a rest without a message. */
  lemma {:induction false} PrintParse(b: seq<Byte>)
    ensures |Print(Parse(b))| <= |b|
    ensures var k := |b| - |Print(Parse(b))|; b[k..] == Print(Parse(b)) && !HasMessage(b[..k])
    decreases |b|
  {
    if HasMessage(b) {
      var c := |b| - LastLength(b) - 2;
      var m := b[c..|b| - 2];
      ParseLast(b);
      hide Parse, Print, Record, SuffixValue;
      PrintParse(b[..c]);
      LastRecord(b);
      PrintConcat(Parse(b[..c]), [m]);
      PrintOne(m);
      TwoParts(b, c, c - |Print(Parse(b[..c]))|);
    }
  }

  lemma {:induction false} ParsedLengths(b: seq<Byte>)
    ensures forall k :: 0 <= k < |Parse(b)| ==> |Parse(b)[k]| < 65536
    decreases |b|
  {
    if HasMessage(b) {
      ParsedLengths(b[..|b| - LastLength(b) - 2]);
    }
  }

  lemma {:induction false} KeptMembers(keep: Message -> bool, ms: seq<Message>)
    ensures forall k :: 0 <= k < |Kept(keep, ms)| ==> keep(Kept(keep, ms)[k]) && Kept(keep, ms)[k] in ms
    ensures (forall k :: 0 <= k < |ms| ==> keep(ms[k])) ==> Kept(keep, ms) == ms
  {
    if ms != [] {
      var n := |ms| - 1;
      KeptMembers(keep, ms[..n]);
      assert ms == ms[..n] + [ms[n]];
      assert forall m :: m in ms[..n] ==> m in ms;
    }
  }

  /** Retention twice is retention once. */
  lemma RetainedStays(keep: Message -> bool, b: seq<Byte>)
    ensures var kept := Print(Kept(keep, Parse(b))); Parse(kept) == Kept(keep, Parse(b)) && Kept(keep, Parse(kept)) == Parse(kept)
  {
    ParsedLengths(b);
    KeptMembers(keep, Parse(b));
    ParsePrint(Kept(keep, Parse(b)));
    KeptMembers(keep, Kept(keep, Parse(b)));
  }

  // ---------------------------------------------------------------- retention in place

  /** `ptr::copy` to a higher address, overlap allowed. */
  method CopyUp(buffer: array<Byte>, from: nat, to: nat, len: nat)
    requires from <= to && to + len <= buffer.Length
    modifies buffer
    ensures buffer[to..to + len] == old(buffer[from..from + len])
    ensures forall k :: 0 <= k < to || to + len <= k < buffer.Length ==> buffer[k] == old(buffer[k])
  {
    for i := len downto 0
      invariant forall k :: to + i <= k < to + len ==> buffer[k] == old(buffer[k - (to - from)])
      invariant forall k :: 0 <= k < to + i || to + len <= k < buffer.Length ==> buffer[k] == old(buffer[k])
    {
      buffer[to + i] := buffer[from + i];
    }
  }

  /** `move_mem`: the bytes between the message at the cursor and the hole move to the write cursor. */
  method MoveMem(buffer: array<Byte>, holeEnd: nat, cursor: nat, writeCursor: nat, len: nat) returns (write: nat)
    requires cursor <= holeEnd <= writeCursor <= buffer.Length && (cursor < holeEnd ==> cursor + len <= holeEnd)
    modifies buffer
    ensures cursor == holeEnd ==> write == writeCursor
    ensures cursor < holeEnd ==> write == writeCursor - (holeEnd - cursor - len)
    ensures cursor <= write <= writeCursor
    ensures buffer[write..] == (if cursor < holeEnd then old(buffer[cursor + len..holeEnd]) else []) + old(buffer[writeCursor..])
    ensures forall k :: 0 <= k < cursor ==> buffer[k] == old(buffer[k])
  {
    if holeEnd == cursor {
      return writeCursor;
    }
    var writeLen := holeEnd - cursor - len;
    write := writeCursor - writeLen;
    if holeEnd != writeCursor {
      CopyUp(buffer, holeEnd - writeLen, write, writeLen);
    }
    assert buffer[write..] == buffer[write..write + writeLen] + buffer[writeCursor..];
  }

  /** The untouched front, the kept messages not yet moved, and the kept messages already moved to the end. */
  ghost predicate Retaining(keep: Message -> bool, all: seq<Message>, now: seq<Byte>, cursor: nat, holeEnd: nat, write: nat, pending: seq<Message>, done: seq<Message>) {
    && cursor <= holeEnd <= write <= |now|
    && now[cursor..holeEnd] == Print(pending)
    && now[write..] == Print(done)
    && Kept(keep, all) == Kept(keep, Parse(now[..cursor])) + pending + done
  }

  lemma KeepOne(keep: Message -> bool, all: seq<Message>, now: seq<Byte>, cursor: nat, holeEnd: nat, write: nat, pending: seq<Message>, done: seq<Message>)
    requires Retaining(keep, all, now, cursor, holeEnd, write, pending, done) && HasMessage(now[..cursor])
    ensures var len := LastLength(now[..cursor]);
            var m := now[cursor - len - 2..cursor - 2];
            if keep(m) then Retaining(keep, all, now, cursor - len - 2, holeEnd, write, [m] + pending, done)
            else Kept(keep, all) == Kept(keep, Parse(now[..cursor - len - 2])) + pending + done
  {
    hide Kept, Parse, Print, HasMessage, Record;
    var b := now[..cursor];
    var len := LastLength(b);
    var c := cursor - len - 2;
    MessageTest(b);
    var m := now[c..cursor - 2];
    assert b[..c] == now[..c] && b[c..cursor - 2] == m;
    KeptLast(keep, b);
    if keep(m) {
      LastRecord(b);
      assert now[c..holeEnd] == b[c..] + now[cursor..holeEnd];
      PrintOne(m);
      PrintConcat([m], pending);
      assert Kept(keep, Parse(now[..c])) + [m] + pending == Kept(keep, Parse(now[..c])) + ([m] + pending);
    } else {
      assert Kept(keep, Parse(now[..c])) + [] == Kept(keep, Parse(now[..c]));
    }
  }

  lemma KeptLast(keep: Message -> bool, b: seq<Byte>)
    requires HasMessage(b)
    ensures var n, len := |b|, LastLength(b);
            var m := b[n - len - 2..n - 2];
            Kept(keep, Parse(b)) == Kept(keep, Parse(b[..n - len - 2])) + if keep(m) then [m] else []
  {
    var n, len := |b|, LastLength(b);
    var before, m := Parse(b[..n - len - 2]), b[n - len - 2..n - 2];
    assert Parse(b) == before + [m];
    assert (before + [m])[..|before|] == before;
  }

  lemma Moved(keep: Message -> bool, all: seq<Message>, was: seq<Byte>, now: seq<Byte>, cursor: nat, gap: nat, holeEnd: nat, write: nat, write': nat, pending: seq<Message>, done: seq<Message>)
    requires |now| == |was| && cursor <= gap <= holeEnd <= write <= |was| && cursor <= write' <= |now|
    requires was[gap..holeEnd] == Print(pending) && was[write..] == Print(done)
    requires Kept(keep, all) == Kept(keep, Parse(was[..cursor])) + pending + done
    requires now[..cursor] == was[..cursor] && now[write'..] == was[gap..holeEnd] + was[write..]
    ensures Retaining(keep, all, now, cursor, cursor, write', [], pending + done)
  {
    hide Print, Kept, Parse;
    EmptyPrint();
    PrintConcat(pending, done);
    Regroup(Kept(keep, Parse(was[..cursor])), pending, done);
  }

  lemma Regroup(a: seq<Message>, b: seq<Message>, c: seq<Message>)
    ensures a + b + c == a + [] + (b + c)
  {
  }

  /** `retain_messages`: the region from `start` on holds exactly the kept messages, in order. */
  method RetainMessages(buffer: array<Byte>, keep: Message -> bool) returns (start: nat)
    modifies buffer
    ensures start <= buffer.Length && buffer[start..] == Print(Kept(keep, Parse(old(buffer[..]))))
  {
    hide Print, Kept, Parse, HasMessage;
    ghost var all := Parse(buffer[..]);
    var write: nat, cursor: nat, holeEnd: nat := buffer.Length, buffer.Length, buffer.Length;
    ghost var pending: seq<Message>, done: seq<Message> := [], [];
    StartRetaining(keep, buffer[..]);
    while true
      invariant Retaining(keep, all, buffer[..], cursor, holeEnd, write, pending, done)
      decreases cursor
    {
      ghost var b := buffer[..cursor];
      assert b == buffer[..][..cursor];
      MessageTest(b);
      if cursor < 2 {
        break;
      }
      var len := SuffixValue(buffer[cursor - 2], buffer[cursor - 1]);
      if cursor < len + 2 {
        break;
      }
      KeepOne(keep, all, buffer[..], cursor, holeEnd, write, pending, done);
      var next := cursor - (len + 2);
      var m := buffer[next..next + len];
      assert m == buffer[..][next..cursor - 2];
      if keep(m) {
        pending := [m] + pending;
      } else {
        ghost var was := buffer[..];
        ghost var write0 := write;
        write := MoveMem(buffer, holeEnd, next, write, len + 2);
        Moved(keep, all, was, buffer[..], next, cursor, holeEnd, write0, write, pending, done);
        done := pending + done;
        pending := [];
        holeEnd := next;
      }
      cursor := next;
    }
    ghost var was := buffer[..];
    start := MoveMem(buffer, holeEnd, cursor, write, 0);
    NothingLeft(keep, was[..cursor]);
    PrintConcat(pending, done);
    EmptyPrint();
    assert [] + pending + done == pending + done;
  }

  lemma StartRetaining(keep: Message -> bool, now: seq<Byte>)
    ensures Retaining(keep, Parse(now), now, |now|, |now|, |now|, [], [])
  {
    assert now[..|now|] == now;
  }

  lemma MessageTest(b: seq<Byte>)
    ensures HasMessage(b) <==> |b| >= 2 && |b| >= SuffixValue(b[|b| - 2], b[|b| - 1]) + 2
    ensures HasMessage(b) ==> LastLength(b) == SuffixValue(b[|b| - 2], b[|b| - 1])
  {
  }

  lemma NothingLeft(keep: Message -> bool, b: seq<Byte>)
    requires !HasMessage(b)
    ensures Kept(keep, Parse(b)) == []
  {
  }

  lemma EmptyPrint()
    ensures Print([]) == []
  {
  }

  /** `retain_messages_in_vec`: only the retained region is left. */
  method RetainMessagesInVec(buffer: seq<Byte>, keep: Message -> bool) returns (kept: seq<Byte>)
    ensures kept == Print(Kept(keep, Parse(buffer)))
  {
    hide Print, Kept, Parse;
    var cells := new Byte[|buffer|](i requires 0 <= i < |buffer| => buffer[i]);
    assert cells[..] == buffer;
    var start := RetainMessages(cells, keep);
    kept := cells[start..];
  }

  // ---------------------------------------------------------------- iteration

  function Reversed(ms: seq<Message>): (r: seq<Message>)
    ensures |r| == |ms|
  {
    if ms == [] then [] else [ms[|ms| - 1]] + Reversed(ms[..|ms| - 1])
  }

  /** `unpack_messages` and `unpack_messages_ref`, drained: the parsed messages, last one first. */
  method UnpackMessages(buffer: seq<Byte>) returns (messages: seq<Message>)
    ensures messages == Reversed(Parse(buffer))
  {
    var b := buffer;
    messages := [];
    while true
      invariant Reversed(Parse(buffer)) == messages + Reversed(Parse(b))
      decreases |b|
    {
      if |b| < 2 {
        break;
      }
      var len := SuffixValue(b[|b| - 2], b[|b| - 1]);
      var front := b[..|b| - 2];
      if |front| < len {
        break;
      }
      ghost var before := messages;
      assert b[..|b| - LastLength(b) - 2] == front[..|front| - len];
      var m := front[|front| - len..];
      assert Parse(b) == Parse(front[..|front| - len]) + [m];
      ReversedSnoc(Parse(front[..|front| - len]), m);
      messages := messages + [m];
      b := front[..|front| - len];
    }
  }

  lemma ReversedSnoc(ms: seq<Message>, m: Message)
    ensures Reversed(ms + [m]) == [m] + Reversed(ms)
  {
    assert (ms + [m])[..|ms|] == ms;
  }
}
