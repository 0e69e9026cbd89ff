/** What the chat steps mean: where messages go, what a lagging replica is sent, and when a block is given up. */
module ChatLaws {
  import opened Common
  import opened MessageBuffers
  import opened MessageCodec
  import opened BlockHash
  import opened ChatSteps

  // ---------------------------------------------------------------- a local message

  /** A block closed earlier still waits to be settled. */
  predicate Awaiting(s: State) {
    match s.stage
    case Unfinalized(proposed, _) => proposed.Some?
    case Recovering(_, weFinalized) => weFinalized
  }

  /** A message is stored behind the current block, or as the first one of a new block, or refused without effect. */
  lemma PushStores(c: Crypto, s: State, m: Message)
    requires Invariant(c, s) && |m| <= MAX_ENCODED
    ensures var (after, outcome) := PushStep(c, s, m);
            && (outcome == Done <==> Fits(s.current, m))
            && (outcome == Done ==> after == s.(current := after.current) && Parse(after.current) == Parse(s.current) + [m])
            && (outcome == NotFinalized <==> !Fits(s.current, m) && Awaiting(s))
            && (outcome == NotFinalized ==> after == s)
            && (outcome.Proposed? <==> !Fits(s.current, m) && !Awaiting(s))
            && (outcome.Proposed? ==> HashOf(c, s.current) == Some(outcome.hash) && Parse(after.current) == [m])
  {
    hide Parse, Print, Record, HashOf, Closed;
    RecordIsRead(s.current, m);
    if !Fits(s.current, m) {
      WholeBlockHashes(c, s.current);
      ClosedKeeps(c, s, HashOf(c, s.current).value);
      RecordIsRead([], m);
      NothingParsed();
    }
  }

  lemma NothingParsed()
    ensures Parse([]) == []
  {
  }

  /** A full block is settled on two votes or as the block that recovery waits for; else it is proposed, or in recovery given up. */
  lemma CloseDecides(c: Crypto, s: State, m: Message)
    requires Invariant(c, s) && |m| <= MAX_ENCODED && PushStep(c, s, m).1.Proposed?
    ensures var (after, outcome) := PushStep(c, s, m);
            var b := Block(outcome.hash, s.current);
            match s.stage
            case Unfinalized(_, others) =>
              && after.number == Wrapped(s.number + 1)
              && (if Count(others, b.hash) >= 2 then after.stage == DefaultStage() && after.finalized == Finalized(s.finalized, b)
                  else after.stage == Unfinalized(Some(b), others) && after.finalized == s.finalized)
            case Recovering(finalHash, _) =>
              if b.hash == finalHash then
                after.number == Wrapped(s.number + 1) && after.stage == DefaultStage() && after.finalized == Finalized(s.finalized, b)
              else
                after.number == s.number && after.stage == Recovering(finalHash, true) && after.finalized == s.finalized
  {
    hide HashOf, Count, Finalized, Wrapped, Print, Parse, Record;
  }

  // ---------------------------------------------------------------- a proposal

  /** A proposal by a replica that is behind changes nothing: it is told that it agrees, or sent the newest settled block. */
  lemma BehindIsAnswered(c: Crypto, s: State, index: nat, number: U64, h: Hash)
    requires Slots(s) && index < REPLICATION_FACTOR && number < LastFinalized(s)
    ensures Step(c, s, Propose(index, number, h)) ==
            (s, if LastFinalized(s) - number > 1 then Unsupported
                else if s.finalized == [] then NoBlocks
                else if s.finalized[0].hash == h then Done
                else Reply(s.finalized[0].data))
  {
  }

  /** A proposal that is not behind: a vote, unless the replica recovers or is itself far behind. */
  lemma VoteDecides(c: Crypto, s: State, index: nat, number: U64, h: Hash)
    requires Slots(s) && index < REPLICATION_FACTOR && LastFinalized(s) <= number
    ensures var e := Propose(index, number, h);
            var (after, outcome) := Step(c, s, e);
            if number > LastFinalized(s) + 1 then after == s && outcome == Unsupported
            else if s.stage.Recovering? then after == s && outcome == Done
            else
              var own := s.stage.proposed.Some? && s.stage.proposed.value.hash == h;
              var others := SlotsAfter(c, s, e);
              && others[index] == h && (forall i :: 0 <= i < REPLICATION_FACTOR && i != index ==> others[i] == s.stage.others[i])
              && after == (if own && Count(others, h) >= 2 then s.(finalized := Finalized(s.finalized, s.stage.proposed.value), stage := DefaultStage())
                           else if !own && Count(others, h) >= 3 then s.(stage := Recovering(h, s.stage.proposed.Some?))
                           else s.(stage := Unfinalized(s.stage.proposed, others)))
              && (outcome == Unsupported <==> after.stage.Unfinalized? && after.stage.proposed.Some? && ZERO !in others)
              && (outcome != Unsupported ==> outcome == Done)
  {
    hide Count, Finalized;
  }

  // ---------------------------------------------------------------- a block

  /** A received block is taken in exactly if it has the right number and enough support. */
  ghost predicate TakenIn(c: Crypto, s: State, index: nat, number: U64, data: seq<Byte>)
    requires Slots(s) && index < REPLICATION_FACTOR
  {
    && number == LastFinalized(s) && HashOf(c, data).Some?
    && (s.stage.Unfinalized? ==> s.stage.proposed.Some?)
    && Supported(c, s, Receive(index, number, data), HashOf(c, data).value)
  }

  /** Then it joins the history; the stage ends, or in recovery its messages leave the current block. Else at most a vote is kept. */
  lemma ReceiveDecides(c: Crypto, s: State, index: nat, number: U64, data: seq<Byte>)
    requires Slots(s) && index < REPLICATION_FACTOR
    ensures var e := Receive(index, number, data);
            var (after, outcome) := Step(c, s, e);
            && (outcome == Done <==> TakenIn(c, s, index, number, data))
            && (outcome == Outdated <==> number != LastFinalized(s))
            && (outcome == NotExpected <==> number == LastFinalized(s) && s.stage.Unfinalized? && s.stage.proposed == None)
            && (outcome == Done ==>
                  && after.finalized == Finalized(s.finalized, Block(HashOf(c, data).value, data)) && after.number == s.number
                  && (s.stage.Unfinalized? ==> after.stage == DefaultStage() && after.current == s.current)
                  && (s.stage.Recovering? ==>
                        && after.stage == s.stage
                        && Parse(after.current) == Kept((m: Message) => c.ofBytes(m) !in Hashes(c, Parse(data)), Parse(s.current))))
            && (outcome != Done ==>
                  after == if s.stage.Unfinalized? then s.(stage := Unfinalized(s.stage.proposed, SlotsAfter(c, s, e))) else s)
  {
    hide HashOf, Count, Finalized, Parse, Kept, Unsettled, Hashes;
    RecoveryDropsSettled(c, s.current, data);
  }

  // ---------------------------------------------------------------- what a lagging replica is sent

  lemma {:induction false} HistoryStays(c: Crypto, es: seq<Event>, k: nat, n: nat)
    requires Legal(es) && k <= n <= |es|
    requires forall l: nat :: k <= l < n ==> At(c, es, l + 1).finalized == At(c, es, l).finalized
    ensures At(c, es, n).finalized == At(c, es, k).finalized
  {
    hide At;
    if k < n {
      HistoryStays(c, es, k, n - 1);
      assert At(c, es, n - 1 + 1).finalized == At(c, es, n - 1).finalized;
    }
  }

  /** A proposal one number behind is answered with the block that was settled last, unless it names that block's hash. */
  lemma LaggingReplica(c: Crypto, es: seq<Event>, k: nat, b: Block, index: nat, h: Hash)
    requires Legal(es) && SettledBy(c, es, k, b) && index < REPLICATION_FACTOR
    requires forall l: nat :: k < l < |es| ==> At(c, es, l + 1).finalized == At(c, es, l).finalized
    requires 0 < LastFinalized(Run(c, es))
    ensures var s := Run(c, es);
            Step(c, s, Propose(index, LastFinalized(s) - 1, h)) == (s, if h == b.hash then Done else Reply(b.data))
  {
    hide Run, Step, SettledBy, LastFinalized;
    SettledInFront(c, es, k, b);
    HistoryStays(c, es, k + 1, |es|);
    assert es[..|es|] == es;
    assert Run(c, es).finalized == Finalized(At(c, es, k).finalized, b);
    BehindIsAnswered(c, Run(c, es), index, LastFinalized(Run(c, es)) - 1, h);
  }

  /** Outside recovery the number goes up only with a supported block. */
  lemma StepAdds(c: Crypto, s: State, e: Event)
    requires Invariant(c, s) && Possible(e) && s.stage.Unfinalized? && Step(c, s, e).0.stage.Unfinalized?
    requires LastFinalized(Step(c, s, e).0) != LastFinalized(s)
    ensures exists b: Block :: Step(c, s, e).0.finalized == Finalized(s.finalized, b) && HashMatches(c, b) && Supported(c, s, e, b.hash)
  {
    hide HashOf, Count, Finalized, Wrapped, WholeMessages, Undecided, Parse, Kept, Unsettled, Record;
    WrappedLaws(s.number);
    match e
    case Push(m) =>
      PushStores(c, s, m);
      CloseDecides(c, s, m);
      var b := Block(PushStep(c, s, m).1.hash, s.current);
      assert HashMatches(c, b) && Supported(c, s, e, b.hash);
    case Propose(index, number, h) =>
      var b := s.stage.proposed.value;
      assert HashMatches(c, b) && Supported(c, s, e, b.hash);
    case Receive(index, number, data) =>
      ReceiveDecides(c, s, index, number, data);
      var b := Block(HashOf(c, data).value, data);
      assert HashMatches(c, b) && Supported(c, s, e, b.hash);
  }

  /** While the number stays, so does the history. */
  lemma {:induction false} SameNumber(c: Crypto, es: seq<Event>, k: nat, n: nat)
    requires Legal(es) && NeverRecovers(c, es) && k <= n <= |es| < 0x1_0000_0000_0000_0000
    ensures LastFinalized(At(c, es, k)) <= LastFinalized(At(c, es, n))
    ensures LastFinalized(At(c, es, k)) == LastFinalized(At(c, es, n)) ==> At(c, es, k).finalized == At(c, es, n).finalized
  {
    hide Run, Step, LastFinalized;
    if k < n {
      SameNumber(c, es, k, n - 1);
      AtNext(c, es, n - 1);
      OneBlockPerNumber(c, es, n - 1);
      assert At(c, es, n - 1).stage.Unfinalized? && At(c, es, n).stage.Unfinalized?;
      StepCounts(c, At(c, es, n - 1), es[n - 1]);
    }
  }

  /** Without recovery, the block sent is the one that was settled under the number the proposal names. */
  lemma LaggingNumber(c: Crypto, es: seq<Event>, k: nat, index: nat, h: Hash) returns (b: Block)
    requires Legal(es) && NeverRecovers(c, es) && k < |es| < 0x1_0000_0000_0000_0000 && index < REPLICATION_FACTOR
    requires LastFinalized(At(c, es, k)) < LastFinalized(At(c, es, k + 1)) == LastFinalized(Run(c, es))
    ensures SettledBy(c, es, k, b)
    ensures var s := Run(c, es);
            Step(c, s, Propose(index, LastFinalized(At(c, es, k)), h)) == (s, if h == b.hash then Done else Reply(b.data))
  {
    hide Run, Step, LastFinalized, Count, Supported, Finalized, HashMatches, Invariant;
    var s, after := At(c, es, k), At(c, es, k + 1);
    AtNext(c, es, k);
    RunKeeps(c, es[..k]);
    assert s.stage.Unfinalized? && after.stage.Unfinalized?;
    StepCounts(c, s, es[k]);
    OneBlockPerNumber(c, es, k);
    StepAdds(c, s, es[k]);
    b :| after.finalized == Finalized(s.finalized, b) && HashMatches(c, b) && Supported(c, s, es[k], b.hash);
    SupportSettles(c, es, k, b);
    assert es[..|es|] == es;
    SameNumber(c, es, k + 1, |es|);
    InFront(s.finalized, b);
    BehindIsAnswered(c, Run(c, es), index, LastFinalized(s), h);
  }

  lemma InFront(blocks: seq<Block>, b: Block)
    ensures Finalized(blocks, b) != [] && Finalized(blocks, b)[0] == b
  {
  }

  lemma SupportSettles(c: Crypto, es: seq<Event>, k: nat, b: Block)
    requires Legal(es) && k < |es| && At(c, es, k).stage.Unfinalized?
    requires At(c, es, k + 1).finalized == Finalized(At(c, es, k).finalized, b) && Supported(c, At(c, es, k), es[k], b.hash)
    ensures SettledBy(c, es, k, b)
  {
    hide At, Count, Finalized, SlotsAfter;
  }

  // ---------------------------------------------------------------- where messages are

  /** The message stands in the current block or in the proposal. */
  ghost predicate Holds(s: State, m: Message) {
    m in Parse(s.current) || (s.stage.Unfinalized? && s.stage.proposed.Some? && m in Parse(s.stage.proposed.value.data))
  }

  /** The event adds a block with this hash to the history. */
  ghost predicate Adds(c: Crypto, s: State, e: Event, h: Hash)
    requires Slots(s) && Possible(e)
  {
    exists b: Block :: b.hash == h && Step(c, s, e).0.finalized == Finalized(s.finalized, b)
  }

  /** Another hash has won: a block with it is settled, or recovery waits for it. */
  ghost predicate OtherWins(c: Crypto, s: State, e: Event, h: Hash)
    requires Slots(s) && Possible(e)
  {
    var stage := Step(c, s, e).0.stage;
    || (stage.Recovering? && stage.finalHash != h)
    || exists g: Hash :: g != h && Adds(c, s, e, g)
  }

  /** The proposal, or the current block as it is closed, is settled, or given up because another hash has won. */
  ghost predicate Departs(c: Crypto, s: State, e: Event, b: Block)
    requires Slots(s) && Possible(e)
  {
    && ((s.stage.Unfinalized? && s.stage.proposed == Some(b)) || (Step(c, s, e).1 == Proposed(b.hash) && b.data == s.current))
    && (Adds(c, s, e, b.hash) || OtherWins(c, s, e, b.hash))
  }

  /** In recovery the message is found, by its hash, in the block that is taken in. */
  ghost predicate TakenOver(c: Crypto, s: State, e: Event, m: Message)
    requires Slots(s) && Possible(e)
  {
    && s.stage.Recovering? && e.Receive? && Step(c, s, e).1 == Done && Adds(c, s, e, s.stage.finalHash)
    && c.ofBytes(m) in Hashes(c, Parse(e.data))
  }

  ghost predicate Leaves(c: Crypto, s: State, e: Event, m: Message)
    requires Slots(s) && Possible(e)
  {
    TakenOver(c, s, e, m) || exists b: Block :: Departs(c, s, e, b) && m in Parse(b.data)
  }

  lemma AddsBlock(c: Crypto, s: State, e: Event, b: Block)
    requires Slots(s) && Possible(e) && Step(c, s, e).0.finalized == Finalized(s.finalized, b)
    ensures Adds(c, s, e, b.hash)
  {
  }

  lemma {:induction false} KeptAll(keep: Message -> bool, ms: seq<Message>, m: Message)
    requires m in ms
    ensures m in Kept(keep, ms) || !keep(m)
    ensures multiset(Kept(keep, ms)) <= multiset(ms)
  {
    var n := |ms| - 1;
    assert ms == ms[..n] + [ms[n]];
    if m in ms[..n] {
      KeptAll(keep, ms[..n], m);
    } else {
      KeptWithin(keep, ms[..n]);
    }
  }

  lemma {:induction false} KeptWithin(keep: Message -> bool, ms: seq<Message>)
    ensures multiset(Kept(keep, ms)) <= multiset(ms)
  {
    if ms != [] {
      var n := |ms| - 1;
      KeptWithin(keep, ms[..n]);
      assert ms == ms[..n] + [ms[n]];
    }
  }

  lemma InvariantSlots(c: Crypto, s: State)
    requires Invariant(c, s)
    ensures Slots(s)
  {
  }

  lemma PushMoves(c: Crypto, s: State, e: Event, m: Message)
    requires Invariant(c, s) && Possible(e) && e.Push? && Holds(s, m)
    ensures Holds(Step(c, s, e).0, m) || Leaves(c, s, e, m)
  {
    hide HashOf, Count, Finalized, Parse, Record, PushStep, Wrapped;
    PushStores(c, s, e.message);
    if PushStep(c, s, e.message).1.Proposed? && m in Parse(s.current) {
      CloseDecides(c, s, e.message);
      var b := Block(PushStep(c, s, e.message).1.hash, s.current);
      if Step(c, s, e).0.finalized == Finalized(s.finalized, b) {
        AddsBlock(c, s, e, b);
      }
      assert m in Parse(b.data);
      assert Holds(Step(c, s, e).0, m) || Departs(c, s, e, b);
    }
  }

  lemma VoteMoves(c: Crypto, s: State, e: Event, m: Message)
    requires Invariant(c, s) && Possible(e) && e.Propose? && Holds(s, m)
    ensures Holds(Step(c, s, e).0, m) || Leaves(c, s, e, m)
  {
    hide HashOf, Count, Finalized, Parse, SlotsAfter, Step, Invariant;
    InvariantSlots(c, s);
    if e.number < LastFinalized(s) {
      BehindIsAnswered(c, s, e.index, e.number, e.hash);
    } else {
      VoteDecides(c, s, e.index, e.number, e.hash);
      if s.stage.Unfinalized? && s.stage.proposed.Some? {
        var b := s.stage.proposed.value;
        if Step(c, s, e).0.finalized == Finalized(s.finalized, b) {
          AddsBlock(c, s, e, b);
        }
        assert Holds(Step(c, s, e).0, m) || Departs(c, s, e, b);
      }
    }
  }

  lemma ReceiveMoves(c: Crypto, s: State, e: Event, m: Message)
    requires Invariant(c, s) && Possible(e) && e.Receive? && Holds(s, m)
    ensures Holds(Step(c, s, e).0, m) || Leaves(c, s, e, m)
  {
    hide HashOf, Count, Finalized, Parse, SlotsAfter, Step, Invariant, Hashes, Kept;
    InvariantSlots(c, s);
    ReceiveDecides(c, s, e.index, e.number, e.data);
    if Step(c, s, e).1 == Done {
      var taken := Block(HashOf(c, e.data).value, e.data);
      AddsBlock(c, s, e, taken);
      if s.stage.Unfinalized? {
        var b := s.stage.proposed.value;
        assert Departs(c, s, e, b);
      } else {
        KeptAll((m: Message) => c.ofBytes(m) !in Hashes(c, Parse(e.data)), Parse(s.current), m);
      }
    }
  }

  /** No step loses a message: it stays, or leaves with a block that is settled or has lost against another hash. */
  lemma StepMoves(c: Crypto, s: State, e: Event, m: Message)
    requires Invariant(c, s) && Possible(e) && Holds(s, m)
    ensures Holds(Step(c, s, e).0, m) || Leaves(c, s, e, m)
  {
    hide *;
    match e
    case Push(_) => PushMoves(c, s, e, m);
    case Propose(_, _, _) => VoteMoves(c, s, e, m);
    case Receive(_, _, _) => ReceiveMoves(c, s, e, m);
  }

  /** Event j of the run is a local message that was accepted. */
  ghost predicate Accepted(c: Crypto, es: seq<Event>, j: nat)
    requires Legal(es)
  {
    j < |es| && es[j].Push? && (Step(c, At(c, es, j), es[j]).1 == Done || Step(c, At(c, es, j), es[j]).1.Proposed?)
  }

  /** In every run an accepted message is still held, or has left with a block that was settled or has lost. */
  lemma {:induction false} AcceptedStands(c: Crypto, es: seq<Event>, j: nat, n: nat)
    requires Legal(es) && Accepted(c, es, j) && j < n <= |es|
    ensures Holds(At(c, es, n), es[j].message) || exists k: nat :: j < k < n && Leaves(c, At(c, es, k), es[k], es[j].message)
  {
    hide Run, Step, Holds, Leaves, Invariant;
    var m := es[j].message;
    AtNext(c, es, n - 1);
    RunKeeps(c, es[..n - 1]);
    if n == j + 1 {
      AcceptedHeld(c, At(c, es, j), es[j]);
    } else {
      AcceptedStands(c, es, j, n - 1);
      if Holds(At(c, es, n - 1), m) {
        StepMoves(c, At(c, es, n - 1), es[n - 1], m);
      }
    }
  }

  lemma AcceptedHeld(c: Crypto, s: State, e: Event)
    requires Invariant(c, s) && Possible(e) && e.Push? && (Step(c, s, e).1 == Done || Step(c, s, e).1.Proposed?)
    ensures Holds(Step(c, s, e).0, e.message)
  {
    hide Parse, Invariant, PushStep, HashOf;
    PushStores(c, s, e.message);
  }

  // ---------------------------------------------------------------- nothing appears

  /** All messages in the current block and in the proposal. */
  ghost function Pending(s: State): multiset<Message> {
    multiset(Parse(s.current)) +
    if s.stage.Unfinalized? && s.stage.proposed.Some? then multiset(Parse(s.stage.proposed.value.data)) else multiset{}
  }

  /** All messages accepted before event n. */
  ghost function AcceptedBefore(c: Crypto, es: seq<Event>, n: nat): multiset<Message>
    requires Legal(es) && n <= |es|
  {
    if n == 0 then multiset{}
    else AcceptedBefore(c, es, n - 1) + if Accepted(c, es, n - 1) then multiset{es[n - 1].message} else multiset{}
  }

  lemma StepAddsNothing(c: Crypto, s: State, e: Event)
    requires Invariant(c, s) && Possible(e)
    ensures var accepted := e.Push? && (Step(c, s, e).1 == Done || Step(c, s, e).1.Proposed?);
            Pending(Step(c, s, e).0) <= Pending(s) + if accepted then multiset{e.message} else multiset{}
  {
    hide HashOf, Count, Finalized, Parse, SlotsAfter, PushStep, Invariant, Hashes, Kept, Wrapped, VoteStep, ReceiveStep;
    InvariantSlots(c, s);
    match e
    case Push(m) =>
      PushStores(c, s, m);
      if PushStep(c, s, m).1.Proposed? {
        CloseDecides(c, s, m);
      }
    case Propose(index, number, h) =>
      if number < LastFinalized(s) {
        BehindIsAnswered(c, s, index, number, h);
      } else {
        VoteDecides(c, s, index, number, h);
      }
    case Receive(index, number, data) =>
      ReceiveDecides(c, s, index, number, data);
      KeptWithin((m: Message) => c.ofBytes(m) !in Hashes(c, Parse(data)), Parse(s.current));
  }

  /** In every run the current block and the proposal hold accepted messages only, each at most as often as it was accepted. */
  lemma {:induction false} NothingAppears(c: Crypto, es: seq<Event>, n: nat)
    requires Legal(es) && n <= |es|
    ensures Pending(At(c, es, n)) <= AcceptedBefore(c, es, n)
  {
    hide Run, Step, Invariant, Pending;
    if n == 0 {
      StartsEmpty(c, es);
      NothingPending();
    } else {
      NothingAppears(c, es, n - 1);
      AtNext(c, es, n - 1);
      RunKeeps(c, es[..n - 1]);
      StepAddsNothing(c, At(c, es, n - 1), es[n - 1]);
    }
  }

  lemma NothingPending()
    ensures Pending(Initial()) == multiset{}
  {
    NothingParsed();
  }
}
