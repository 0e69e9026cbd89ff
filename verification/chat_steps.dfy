/** The chat block protocol of one replica as a state machine. */
module ChatSteps {
  import opened Common
  import opened MessageBuffers
  import opened MessageCodec
  import opened BlockHash

  const BLOCK_SIZE := 1024 * 32
  const BLOCK_HISTORY := 32
  const REPLICATION_FACTOR := 4

  /** The default hash. */
  const ZERO: Hash := 0

  function Wrapped(x: int): U64 {
    x % 0x1_0000_0000_0000_0000
  }

  // ---------------------------------------------------------------- state

  datatype Block = Block(hash: Hash, data: seq<Byte>)

  datatype Stage =
    | Unfinalized(proposed: Option<Block>, others: seq<Hash>)
    | Recovering(finalHash: Hash, weFinalized: bool)

  datatype State = State(finalized: seq<Block>, current: seq<Byte>, number: U64, stage: Stage)

  /** What can happen to a chat: a local message, another replica's proposal, another replica's block. */
  datatype Event =
    | Push(message: Message)
    | Propose(index: nat, number: U64, hash: Hash)
    | Receive(index: nat, number: U64, data: seq<Byte>)

  datatype Outcome =
    | Done
    | Proposed(hash: Hash)
    | NotFinalized
    | NoBlocks
    | Reply(data: seq<Byte>)
    | Outdated
    | NotExpected
    | MajorityMismatch
    | Unsupported
    | Panicked

  function DefaultStage(): Stage {
    Unfinalized(None, [ZERO, ZERO, ZERO, ZERO])
  }

  /** `Chat::new`. */
  function Initial(): State {
    State([], [], 0, DefaultStage())
  }

  function Count(hs: seq<Hash>, h: Hash): nat {
    if hs == [] then 0 else Count(hs[..|hs| - 1], h) + if hs[|hs| - 1] == h then 1 else 0
  }

  /** `last_finalized_block`; unsigned subtraction wraps. */
  function LastFinalized(s: State): U64 {
    Wrapped(s.number - if s.stage.Recovering? || s.stage.proposed.Some? then 1 else 0)
  }

  /** `push_to_finalized`. */
  function Finalized(blocks: seq<Block>, b: Block): seq<Block> {
    [b] + if |blocks| == BLOCK_HISTORY then blocks[..|blocks| - 1] else blocks
  }

  /** `finalize_current_block`. */
  function FinalizedCurrent(s: State, hash: Hash): State {
    State(Finalized(s.finalized, Block(hash, s.current)), [], Wrapped(s.number + 1), DefaultStage())
  }

  predicate Fits(block: seq<Byte>, m: Message) {
    |block| + |m| + 2 <= BLOCK_SIZE
  }

  // ---------------------------------------------------------------- steps

  /** The block is full: what becomes of it under the block hash `hash`. */
  function Closed(s: State, hash: Hash): State {
    match s.stage
    case Unfinalized(_, others) =>
      if Count(others, hash) >= REPLICATION_FACTOR / 2 then FinalizedCurrent(s, hash)
      else State(s.finalized, [], Wrapped(s.number + 1), Unfinalized(Some(Block(hash, s.current)), others))
    case Recovering(finalHash, _) =>
      if hash == finalHash then FinalizedCurrent(s, hash)
      else State(s.finalized, [], s.number, Recovering(finalHash, true))
  }

  /** `push_message`. */
  function PushStep(c: Crypto, s: State, m: Message): (State, Outcome) {
    if Fits(s.current, m) then (s.(current := s.current + Record(m)), Done)
    else if (s.stage.Unfinalized? && s.stage.proposed.Some?) || (s.stage.Recovering? && s.stage.weFinalized) then (s, NotFinalized)
    else
      match HashOf(c, s.current)
      case None => (s, Panicked)
      case Some(hash) =>
        var closed := Closed(s, hash);
        if Fits(closed.current, m) then (closed.(current := closed.current + Record(m)), Proposed(hash)) else (s, Panicked)
  }

  /** The vote count of `ProposeMsgBlock`. */
  function VoteStep(s: State, index: nat, hash: Hash): (State, Outcome)
    requires s.stage.Unfinalized? && index < |s.stage.others|
  {
    var proposed, others := s.stage.proposed, s.stage.others[index := hash];
    var weMatch := proposed.Some? && proposed.value.hash == hash;
    if Count(others, hash) > REPLICATION_FACTOR / 2 - (if weMatch then 1 else 0) then
      if weMatch then (s.(finalized := Finalized(s.finalized, proposed.value), stage := DefaultStage()), Done)
      else (s.(stage := Recovering(hash, proposed.Some?)), Done)
    else (s.(stage := Unfinalized(proposed, others)), if ZERO !in others && proposed.Some? then Unsupported else Done)
  }

  /** `ProposeMsgBlock` from the replica with the given slot. */
  function ProposeStep(s: State, index: nat, number: U64, hash: Hash): (State, Outcome)
    requires s.stage.Unfinalized? ==> index < |s.stage.others|
  {
    var ours := LastFinalized(s);
    if number < ours then
      if ours - number > 1 then (s, Unsupported)
      else if s.finalized == [] then (s, NoBlocks)
      else if s.finalized[0].hash == hash then (s, Done)
      else (s, Reply(s.finalized[0].data))
    else if number > ours && number - ours > 1 then (s, Unsupported)
    else if s.stage.Recovering? then (s, Done)
    else VoteStep(s, index, hash)
  }

  /** The messages of the current block that a received block does not already contain. */
  function Unsettled(c: Crypto, current: seq<Byte>, data: seq<Byte>): seq<Byte> {
    var settled := Hashes(c, Parse(data));
    Print(Kept(m => c.ofBytes(m) !in settled, Parse(current)))
  }

  /** `SendBlock` from the replica with the given slot. */
  function ReceiveStep(c: Crypto, s: State, index: nat, number: U64, data: seq<Byte>): (State, Outcome)
    requires s.stage.Unfinalized? ==> index < |s.stage.others|
  {
    if LastFinalized(s) != number then (s, Outdated)
    else if s.stage.Unfinalized? && s.stage.proposed == None then (s, NotExpected)
    else
      match HashOf(c, data)
      case None => (s, Panicked)
      case Some(hash) =>
        match s.stage
        case Unfinalized(proposed, before) =>
          var others := before[index := hash];
          if Count(others, hash) < REPLICATION_FACTOR / 2 then (s.(stage := Unfinalized(proposed, others)), MajorityMismatch)
          else (s.(finalized := Finalized(s.finalized, Block(hash, data)), stage := DefaultStage()), Done)
        case Recovering(finalHash, _) =>
          if hash != finalHash then (s, MajorityMismatch)
          else (s.(finalized := Finalized(s.finalized, Block(hash, data)), current := Unsettled(c, s.current, data)), Done)
  }

  /** Local messages obey the size limit and slots are those of the four other replicas. */
  predicate Possible(e: Event) {
    match e
    case Push(m) => |m| <= MAX_ENCODED
    case Propose(index, _, _) => index < REPLICATION_FACTOR
    case Receive(index, _, _) => index < REPLICATION_FACTOR
  }

  predicate Slots(s: State) {
    s.stage.Unfinalized? ==> |s.stage.others| == REPLICATION_FACTOR
  }

  function Step(c: Crypto, s: State, e: Event): (r: (State, Outcome))
    requires Possible(e) && Slots(s)
    ensures Slots(r.0)
  {
    match e
    case Push(m) => PushStep(c, s, m)
    case Propose(index, number, hash) => ProposeStep(s, index, number, hash)
    case Receive(index, number, data) => ReceiveStep(c, s, index, number, data)
  }

  predicate Legal(es: seq<Event>) {
    forall k :: 0 <= k < |es| ==> Possible(es[k])
  }

  /** The state after a whole run. */
  function Run(c: Crypto, es: seq<Event>): (s: State)
    requires Legal(es)
    ensures Slots(s)
  {
    if es == [] then Initial() else Step(c, Run(c, es[..|es| - 1]), es[|es| - 1]).0
  }

  lemma RunAppend(c: Crypto, es: seq<Event>, e: Event)
    requires Legal(es) && Possible(e)
    ensures Legal(es + [e]) && Run(c, es + [e]) == Step(c, Run(c, es), e).0
  {
    hide Step;
    assert (es + [e])[..|es|] == es;
  }

  /** The state of a run before its event k. */
  function At(c: Crypto, es: seq<Event>, k: nat): (s: State)
    requires Legal(es) && k <= |es|
    ensures Slots(s)
  {
    Run(c, es[..k])
  }

  lemma AtNext(c: Crypto, es: seq<Event>, k: nat)
    requires Legal(es) && k < |es|
    ensures At(c, es, k + 1) == Step(c, At(c, es, k), es[k]).0
  {
    hide Step;
    assert es[..k + 1][..k] == es[..k];
  }

  /** No event of the run meets an unfinished branch or a panic. */
  predicate Clean(c: Crypto, es: seq<Event>)
    requires Legal(es)
  {
    forall k :: 0 <= k < |es| ==> Completes(Step(c, At(c, es, k), es[k]).1)
  }

  predicate Completes(outcome: Outcome) {
    outcome != Unsupported && outcome != Panicked
  }

  lemma CleanAppend(c: Crypto, es: seq<Event>, e: Event)
    requires Legal(es) && Possible(e) && Clean(c, es) && Completes(Step(c, Run(c, es), e).1)
    ensures Legal(es + [e]) && Clean(c, es + [e])
  {
    hide Run, Step;
    var fs := es + [e];
    forall k | 0 <= k < |fs|
      ensures Completes(Step(c, At(c, fs, k), fs[k]).1)
    {
      if k < |es| {
        assert fs[..k] == es[..k];
        assert At(c, fs, k) == At(c, es, k);
      } else {
        assert fs[..k] == es;
      }
    }
  }

  // ---------------------------------------------------------------- votes

  /** The hash an event names. */
  function Named(c: Crypto, e: Event): Option<Hash> {
    match e
    case Push(_) => None
    case Propose(_, _, hash) => Some(hash)
    case Receive(_, _, data) => HashOf(c, data)
  }

  /** The step writes the named hash into the slot of the replica. */
  predicate Votes(c: Crypto, s: State, e: Event) {
    && s.stage.Unfinalized? && Named(c, e).Some?
    && match e
       case Push(_) => false
       case Propose(_, number, _) => LastFinalized(s) <= number <= LastFinalized(s) + 1
       case Receive(_, number, _) => number == LastFinalized(s) && s.stage.proposed.Some?
  }

  /** The slots after the write of the event, which are the ones that are counted. */
  function SlotsAfter(c: Crypto, s: State, e: Event): (others: seq<Hash>)
    requires s.stage.Unfinalized? && Slots(s) && Possible(e)
    ensures |others| == REPLICATION_FACTOR
  {
    if Votes(c, s, e) then s.stage.others[e.index := Named(c, e).value] else s.stage.others
  }

  /** What a block with this hash needs to be settled by the event: two slots, or the hash that recovery waits for. */
  ghost predicate Supported(c: Crypto, s: State, e: Event, h: Hash)
    requires Slots(s) && Possible(e)
  {
    match s.stage
    case Unfinalized(_, _) => Count(SlotsAfter(c, s, e), h) >= 2
    case Recovering(finalHash, _) => h == finalHash
  }

  lemma {:induction false} CountWrite(hs: seq<Hash>, i: nat, x: Hash, h: Hash)
    requires i < |hs| && h != x
    ensures Count(hs[i := x], h) <= Count(hs, h)
  {
    var n := |hs| - 1;
    if i < n {
      CountWrite(hs[..n], i, x, h);
      assert hs[i := x][..n] == hs[..n][i := x];
    } else {
      assert hs[i := x][..n] == hs[..n];
    }
  }

  lemma {:induction false} CountFinds(hs: seq<Hash>, h: Hash) returns (i: nat)
    requires Count(hs, h) >= 1
    ensures i < |hs| && hs[i] == h && Count(hs[..i], h) == Count(hs, h) - 1
  {
    var n := |hs| - 1;
    if hs[n] == h {
      i := n;
    } else {
      i := CountFinds(hs[..n], h);
      assert hs[..n][..i] == hs[..i];
    }
  }

  // ---------------------------------------------------------------- what every step keeps

  ghost predicate HashMatches(c: Crypto, b: Block) {
    HashOf(c, b.data) == Some(b.hash)
  }

  /** A buffer that consists of complete messages and nothing else. */
  ghost predicate WholeMessages(b: seq<Byte>) {
    b == Print(Parse(b))
  }

  ghost predicate HistoryOk(c: Crypto, blocks: seq<Block>) {
    |blocks| <= BLOCK_HISTORY && forall k :: 0 <= k < |blocks| ==> HashMatches(c, blocks[k])
  }

  /** No majority is left unused: two votes settle the proposed block, three votes end the stage. */
  ghost predicate Undecided(proposed: Option<Block>, others: seq<Hash>) {
    && (forall h: Hash :: h != ZERO ==> Count(others, h) <= 2)
    && (proposed.Some? ==> Count(others, proposed.value.hash) < 2)
  }

  ghost predicate StageOk(c: Crypto, stage: Stage) {
    stage.Unfinalized? ==>
      && |stage.others| == REPLICATION_FACTOR && Undecided(stage.proposed, stage.others)
      && (stage.proposed.Some? ==> HashMatches(c, stage.proposed.value))
  }

  ghost predicate Invariant(c: Crypto, s: State) {
    && HistoryOk(c, s.finalized)
    && WholeMessages(s.current) && |s.current| <= BLOCK_SIZE
    && StageOk(c, s.stage)
  }

  lemma EmptyStageOk(c: Crypto)
    ensures StageOk(c, DefaultStage()) && WholeMessages([])
  {
    EmptyPrint();
    forall h: Hash | h != ZERO
      ensures Count([ZERO, ZERO, ZERO, ZERO], h) == 0
    {
      NoVotes(h);
    }
  }

  // ---------------------------------------------------------------- blocks

  lemma PushKeepsWhole(b: seq<Byte>, m: Message)
    requires WholeMessages(b) && |m| <= MAX_ENCODED
    ensures WholeMessages(b + Record(m))
  {
    hide Print, Parse, Record;
    RecordIsRead(b, m);
    PrintConcat(Parse(b), [m]);
    PrintOne(m);
  }

  lemma WholeBlockHashes(c: Crypto, b: seq<Byte>)
    requires WholeMessages(b) && b != []
    ensures HashOf(c, b).Some?
  {
    hide Parse, Sort, Hashes, Folded;
    EmptyPrint();
    SortKeeps(Hashes(c, Parse(b)));
    var hs := Hashes(c, Parse(b));
    assert hs[0] in multiset(Sort(hs));
  }

  lemma {:induction false} KeptShorter(keep: Message -> bool, ms: seq<Message>)
    ensures |Print(Kept(keep, ms))| <= |Print(ms)|
  {
    hide Record;
    if ms != [] {
      var n := |ms| - 1;
      KeptShorter(keep, ms[..n]);
      PrintConcat(ms[..n], [ms[n]]);
      PrintConcat(Kept(keep, ms[..n]), [ms[n]]);
      PrintConcat(Kept(keep, ms[..n]), []);
      assert ms == ms[..n] + [ms[n]];
    }
  }

  lemma UnsettledWhole(c: Crypto, current: seq<Byte>, data: seq<Byte>)
    requires WholeMessages(current)
    ensures WholeMessages(Unsettled(c, current, data)) && |Unsettled(c, current, data)| <= |current|
  {
    var settled := Hashes(c, Parse(data));
    hide Print, Parse, Kept;
    var keep: Message -> bool := m => c.ofBytes(m) !in settled;
    RetainedStays(keep, current);
    KeptShorter(keep, Parse(current));
  }

  /** After recovery no message of the received block is left in the current block, and only such messages are gone. */
  lemma RecoveryDropsSettled(c: Crypto, current: seq<Byte>, data: seq<Byte>)
    ensures var keep := (m: Message) => c.ofBytes(m) !in Hashes(c, Parse(data));
            && Parse(Unsettled(c, current, data)) == Kept(keep, Parse(current))
            && forall m :: m in Parse(Unsettled(c, current, data)) ==> m !in Parse(data)
  {
    var hs := Hashes(c, Parse(data));
    var keep: Message -> bool := m => c.ofBytes(m) !in hs;
    RetainedStays(keep, current);
    KeptMembers(keep, Parse(current));
    forall m | m in Parse(data)
      ensures !keep(m)
    {
      HashIncluded(c, Parse(data), m);
    }
  }

  lemma HashIncluded(c: Crypto, ms: seq<Message>, m: Message)
    requires m in ms
    ensures c.ofBytes(m) in Hashes(c, ms)
  {
    var j :| 0 <= j < |ms| && ms[j] == m;
    assert Hashes(c, ms)[j] == c.ofBytes(m);
  }

  // ---------------------------------------------------------------- the steps one by one

  /** Closing a full block keeps the invariant, empties the current block, and settles it only with support. */
  lemma ClosedKeeps(c: Crypto, s: State, hash: Hash)
    requires Invariant(c, s) && HashOf(c, s.current) == Some(hash)
    ensures Invariant(c, Closed(s, hash)) && Closed(s, hash).current == []
    ensures Closed(s, hash).finalized == s.finalized
            || (&& Closed(s, hash).finalized == Finalized(s.finalized, Block(hash, s.current))
                && if s.stage.Unfinalized? then Count(s.stage.others, hash) >= 2 else hash == s.stage.finalHash)
  {
    hide WholeMessages, HashOf, Count;
    EmptyStageOk(c);
  }

  lemma PushKeeps(c: Crypto, s: State, m: Message)
    requires Invariant(c, s) && |m| <= MAX_ENCODED
    ensures Invariant(c, PushStep(c, s, m).0) && PushStep(c, s, m).1 != Panicked
  {
    hide WholeMessages, HashOf, Closed, StageOk, HashMatches;
    if Fits(s.current, m) {
      PushKeepsWhole(s.current, m);
    } else {
      WholeBlockHashes(c, s.current);
      var hash := HashOf(c, s.current).value;
      ClosedKeeps(c, s, hash);
      PushKeepsWhole(Closed(s, hash).current, m);
    }
  }

  /** A vote that settles nothing leaves no majority behind. */
  lemma StaysUndecided(proposed: Option<Block>, others: seq<Hash>, index: nat, hash: Hash)
    requires index < |others| && Undecided(proposed, others)
    requires Count(others[index := hash], hash) <= 2
    requires proposed.Some? && proposed.value.hash == hash ==> Count(others[index := hash], hash) < 2
    ensures Undecided(proposed, others[index := hash])
  {
    hide Count;
    var written := others[index := hash];
    forall h: Hash | h != ZERO
      ensures Count(written, h) <= 2
    {
      if h != hash {
        CountWrite(others, index, hash, h);
      }
    }
    if proposed.Some? && proposed.value.hash != hash {
      CountWrite(others, index, hash, proposed.value.hash);
    }
  }

  lemma VoteKeeps(c: Crypto, s: State, index: nat, hash: Hash)
    requires Invariant(c, s) && s.stage.Unfinalized? && index < REPLICATION_FACTOR
    ensures Invariant(c, VoteStep(s, index, hash).0)
  {
    hide WholeMessages, HashOf, Count, Undecided;
    EmptyStageOk(c);
    var others := s.stage.others[index := hash];
    if VoteStep(s, index, hash).0.stage == Unfinalized(s.stage.proposed, others) {
      StaysUndecided(s.stage.proposed, s.stage.others, index, hash);
    }
  }

  lemma ReceiveKeeps(c: Crypto, s: State, index: nat, number: U64, data: seq<Byte>)
    requires Invariant(c, s) && index < REPLICATION_FACTOR
    ensures Invariant(c, ReceiveStep(c, s, index, number, data).0)
  {
    hide WholeMessages, HashOf, Count, Unsettled, Undecided;
    EmptyStageOk(c);
    UnsettledWhole(c, s.current, data);
    if s.stage.Unfinalized? && HashOf(c, data).Some? {
      var hash := HashOf(c, data).value;
      if Count(s.stage.others[index := hash], hash) < 2 {
        StaysUndecided(s.stage.proposed, s.stage.others, index, hash);
      }
    }
  }

  /** Every step keeps the invariant, and a local message never panics. */
  lemma StepKeeps(c: Crypto, s: State, e: Event)
    requires Invariant(c, s) && Possible(e)
    ensures Invariant(c, Step(c, s, e).0)
    ensures e.Push? ==> Step(c, s, e).1 != Panicked
  {
    hide WholeMessages, HashOf, PushStep, VoteStep, ReceiveStep, Undecided;
    match e
    case Push(m) => PushKeeps(c, s, m);
    case Propose(index, _, hash) =>
      if s.stage.Unfinalized? {
        VoteKeeps(c, s, index, hash);
      }
    case Receive(index, number, data) => ReceiveKeeps(c, s, index, number, data);
  }

  /** A step leaves the history alone or adds a supported block that carries its own hash. */
  lemma StepSettles(c: Crypto, s: State, e: Event)
    requires Invariant(c, s) && Possible(e)
    ensures var after := Step(c, s, e).0;
            after.finalized == s.finalized
            || exists b: Block :: after.finalized == Finalized(s.finalized, b) && HashMatches(c, b) && Supported(c, s, e, b.hash)
  {
    hide WholeMessages, HashOf, Count, Unsettled, Undecided, Closed, Finalized;
    var after := Step(c, s, e).0;
    match e
    case Push(m) =>
      if HashOf(c, s.current).Some? {
        var hash := HashOf(c, s.current).value;
        ClosedKeeps(c, s, hash);
        assert HashMatches(c, Block(hash, s.current));
        assert s.stage.Unfinalized? ==> SlotsAfter(c, s, e) == s.stage.others;
      }
    case Propose(index, _, hash) =>
      if after.finalized != s.finalized {
        var b := s.stage.proposed.value;
        assert HashMatches(c, b) && Supported(c, s, e, b.hash);
      }
    case Receive(index, _, data) =>
      if after.finalized != s.finalized {
        var b := Block(HashOf(c, data).value, data);
        assert HashMatches(c, b) && Supported(c, s, e, b.hash);
      }
  }

  /** The slots after a step are empty, or those that were counted. */
  lemma StepSlots(c: Crypto, s: State, e: Event)
    requires Slots(s) && Possible(e) && Step(c, s, e).0.stage.Unfinalized?
    ensures var others := Step(c, s, e).0.stage.others;
            others == [ZERO, ZERO, ZERO, ZERO] || (s.stage.Unfinalized? && others == SlotsAfter(c, s, e))
  {
    hide HashOf, Count, Unsettled, Finalized;
  }

  /** Recovery starts with three equal slots, and its hash never changes. */
  lemma StepRecovers(c: Crypto, s: State, e: Event)
    requires Slots(s) && Possible(e) && Step(c, s, e).0.stage.Recovering?
    ensures var h := Step(c, s, e).0.stage.finalHash;
            if s.stage.Unfinalized? then Count(SlotsAfter(c, s, e), h) >= 3 else h == s.stage.finalHash
  {
    hide HashOf, Count, Unsettled, Finalized;
  }

  // ---------------------------------------------------------------- whole runs

  /** In every run the invariant holds. */
  lemma {:induction false} RunKeeps(c: Crypto, es: seq<Event>)
    requires Legal(es)
    ensures Invariant(c, Run(c, es))
  {
    hide Invariant, Step;
    if es == [] {
      InitialOk(c);
    } else {
      var n := |es| - 1;
      RunKeeps(c, es[..n]);
      StepKeeps(c, Run(c, es[..n]), es[n]);
    }
  }

  lemma InitialOk(c: Crypto)
    ensures Invariant(c, Initial())
  {
    hide WholeMessages, Undecided;
    EmptyStageOk(c);
  }

  /** The replica in slot i votes for the hash with event j, and its slot keeps it up to event k. */
  ghost predicate VoteStands(c: Crypto, es: seq<Event>, j: nat, k: nat, i: nat, h: Hash)
    requires Legal(es) && i < REPLICATION_FACTOR
  {
    && j <= k <= |es| && j < |es|
    && Votes(c, At(c, es, j), es[j]) && es[j].index == i && Named(c, es[j]) == Some(h)
    && forall l: nat :: j < l <= k ==> At(c, es, l).stage.Unfinalized? && At(c, es, l).stage.others[i] == h
  }

  /** Every non-empty slot holds a vote of its replica, cast in this stage and standing since. */
  lemma {:induction false} SlotHistory(c: Crypto, es: seq<Event>, k: nat, i: nat) returns (j: nat)
    requires Legal(es) && k <= |es| && i < REPLICATION_FACTOR
    requires At(c, es, k).stage.Unfinalized? && At(c, es, k).stage.others[i] != ZERO
    ensures j < k && VoteStands(c, es, j, k, i, At(c, es, k).stage.others[i])
  {
    hide HashOf, Step, Run, LastFinalized;
    var h := At(c, es, k).stage.others[i];
    StartsEmpty(c, es);
    j := k - 1;
    var s := At(c, es, j);
    AtNext(c, es, j);
    StepSlots(c, s, es[j]);
    if !(Votes(c, s, es[j]) && es[j].index == i) {
      j := SlotHistory(c, es, j, i);
    }
  }

  lemma StartsEmpty(c: Crypto, es: seq<Event>)
    requires Legal(es)
    ensures At(c, es, 0) == Initial() && LastFinalized(Initial()) == 0
  {
  }

  /** Two equal slots when an event is counted are standing votes of two different replicas. */
  lemma CountBacks(c: Crypto, es: seq<Event>, k: nat, h: Hash)
    requires Legal(es) && k < |es| && At(c, es, k).stage.Unfinalized? && h != ZERO
    requires Count(SlotsAfter(c, At(c, es, k), es[k]), h) >= 2
    ensures exists i, i', j, j' :: 0 <= i < i' < REPLICATION_FACTOR && VoteStands(c, es, j, k, i, h) && VoteStands(c, es, j', k, i', h)
  {
    hide At, VoteStands, SlotsAfter;
    var others := SlotsAfter(c, At(c, es, k), es[k]);
    var i' := CountFinds(others, h);
    var i := CountFinds(others[..i'], h);
    var j := SlotVoter(c, es, k, i);
    var j' := SlotVoter(c, es, k, i');
    assert others[i] == h && others[i'] == h;
  }

  lemma SlotVoter(c: Crypto, es: seq<Event>, k: nat, i: nat) returns (j: nat)
    requires Legal(es) && k < |es| && At(c, es, k).stage.Unfinalized? && i < REPLICATION_FACTOR
    requires SlotsAfter(c, At(c, es, k), es[k])[i] != ZERO
    ensures VoteStands(c, es, j, k, i, SlotsAfter(c, At(c, es, k), es[k])[i])
  {
    hide At, Named;
    if Votes(c, At(c, es, k), es[k]) && es[k].index == i {
      j := k;
    } else {
      j := SlotHistory(c, es, k, i);
    }
  }

  /** Recovery of the hash was entered by event j on three equal slots and lasts up to event k. */
  ghost predicate RecoversSince(c: Crypto, es: seq<Event>, j: nat, k: nat, h: Hash)
    requires Legal(es)
  {
    && j < k <= |es| && At(c, es, j).stage.Unfinalized?
    && Count(SlotsAfter(c, At(c, es, j), es[j]), h) >= 3
    && forall l: nat :: j < l <= k ==> At(c, es, l).stage.Recovering? && At(c, es, l).stage.finalHash == h
  }

  lemma {:induction false} RecoveryHistory(c: Crypto, es: seq<Event>, k: nat) returns (j: nat)
    requires Legal(es) && k <= |es| && At(c, es, k).stage.Recovering?
    ensures RecoversSince(c, es, j, k, At(c, es, k).stage.finalHash)
  {
    hide Step, Run, SlotsAfter, Count;
    StartsEmpty(c, es);
    j := k - 1;
    AtNext(c, es, j);
    StepRecovers(c, At(c, es, j), es[j]);
    if At(c, es, j).stage.Recovering? {
      j := RecoveryHistory(c, es, j);
    }
  }

  /** Event k puts the block in front of the history, on two equal slots or out of a recovery that three equal slots began. */
  ghost predicate SettledBy(c: Crypto, es: seq<Event>, k: nat, b: Block)
    requires Legal(es)
  {
    && k < |es| && At(c, es, k + 1).finalized == Finalized(At(c, es, k).finalized, b)
    && if At(c, es, k).stage.Unfinalized? then Count(SlotsAfter(c, At(c, es, k), es[k]), b.hash) >= 2
       else exists j :: RecoversSince(c, es, j, k, b.hash)
  }

  ghost predicate WasSettled(c: Crypto, es: seq<Event>, b: Block)
    requires Legal(es)
  {
    exists k: nat :: SettledBy(c, es, k, b)
  }

  /** Every event of a run leaves the history alone or settles a block that carries its own hash. */
  lemma EventSettles(c: Crypto, es: seq<Event>, k: nat)
    requires Legal(es) && k < |es|
    ensures At(c, es, k + 1).finalized == At(c, es, k).finalized
            || exists b: Block :: SettledBy(c, es, k, b) && HashMatches(c, b)
  {
    hide Step, Run, SlotsAfter, Count, Finalized, HashMatches, Invariant, RecoversSince;
    var s := At(c, es, k);
    RunKeeps(c, es[..k]);
    AtNext(c, es, k);
    StepSettles(c, s, es[k]);
    var after := At(c, es, k + 1);
    if after.finalized != s.finalized {
      var b: Block :| after.finalized == Finalized(s.finalized, b) && HashMatches(c, b) && Supported(c, s, es[k], b.hash);
      if s.stage.Recovering? {
        var j := RecoveryHistory(c, es, k);
      }
      assert SettledBy(c, es, k, b);
    }
  }

  /** Every block of the history was settled so by some event. */
  lemma {:induction false} HistorySettled(c: Crypto, es: seq<Event>, n: nat, m: nat) returns (k: nat)
    requires Legal(es) && n <= |es| && m < |At(c, es, n).finalized|
    ensures k < n && SettledBy(c, es, k, At(c, es, n).finalized[m])
  {
    hide Step, Run, SlotsAfter, Count, HashMatches, RecoversSince, SettledBy;
    StartsEmpty(c, es);
    k := n - 1;
    EventSettles(c, es, k);
    var before, after := At(c, es, k).finalized, At(c, es, n).finalized;
    if after == before {
      k := HistorySettled(c, es, k, m);
    } else {
      var b: Block :| SettledBy(c, es, k, b) && HashMatches(c, b);
      SettledInFront(c, es, k, b);
      if m > 0 {
        k := HistorySettled(c, es, k, m - 1);
      }
    }
  }

  lemma SettledInFront(c: Crypto, es: seq<Event>, k: nat, b: Block)
    requires Legal(es) && SettledBy(c, es, k, b)
    ensures k < |es| && At(c, es, k + 1).finalized == Finalized(At(c, es, k).finalized, b)
  {
    hide At, SlotsAfter, Count, Finalized, RecoversSince;
  }

  /** In every run the history is bounded, and each of its blocks carries its own hash and was settled by a majority. */
  lemma SettledBlocks(c: Crypto, es: seq<Event>)
    requires Legal(es)
    ensures var s := Run(c, es);
            && |s.finalized| <= BLOCK_HISTORY
            && (forall m :: 0 <= m < |s.finalized| ==> HashOf(c, s.finalized[m].data) == Some(s.finalized[m].hash))
            && (forall m :: 0 <= m < |s.finalized| ==> WasSettled(c, es, s.finalized[m]))
  {
    hide HashOf, SettledBy, Run;
    RunKeeps(c, es);
    var s := Run(c, es);
    assert es[..|es|] == es;
    forall m | 0 <= m < |s.finalized|
      ensures WasSettled(c, es, s.finalized[m])
    {
      var k := HistorySettled(c, es, |es|, m);
      assert SettledBy(c, es, k, s.finalized[m]);
    }
  }

  /** In every run no majority is overlooked: an undecided stage has at most two equal votes, and one for its own block. */
  lemma NoMajorityOverlooked(c: Crypto, es: seq<Event>, h: Hash)
    requires Legal(es) && Run(c, es).stage.Unfinalized? && h != ZERO
    ensures var stage := Run(c, es).stage;
            Count(stage.others, h) <= if stage.proposed.Some? && stage.proposed.value.hash == h then 1 else 2
  {
    hide Count, WholeMessages, HashOf, Run;
    RunKeeps(c, es);
  }

  /** In every run the current block consists of whole messages within its capacity, and pushing another one never panics. */
  lemma PushNeverPanics(c: Crypto, es: seq<Event>, m: Message)
    requires Legal(es) && |m| <= MAX_ENCODED
    ensures var s := Run(c, es);
            s.current == Print(Parse(s.current)) && |s.current| <= BLOCK_SIZE && PushStep(c, s, m).1 != Panicked
  {
    hide PushStep, Run;
    RunKeeps(c, es);
    PushKeeps(c, Run(c, es), m);
  }

  /** Two different replicas voted for each settled block, and both votes stood in their slots when it won. */
  lemma SettledVoters(c: Crypto, es: seq<Event>, b: Block) returns (k: nat)
    requires Legal(es) && WasSettled(c, es, b) && b.hash != ZERO
    ensures exists i, i', j, j' :: 0 <= i < i' < REPLICATION_FACTOR && VoteStands(c, es, j, k, i, b.hash) && VoteStands(c, es, j', k, i', b.hash)
  {
    hide VoteStands, Count, SlotsAfter, At;
    var n: nat :| SettledBy(c, es, n, b);
    k := n;
    if At(c, es, n).stage.Recovering? {
      k :| RecoversSince(c, es, k, n, b.hash);
    }
    CountBacks(c, es, k, b.hash);
  }

  // ---------------------------------------------------------------- one block for each number

  /** Outside recovery a step counts the last finalized block up exactly when it adds one block to the history. */
  lemma StepCounts(c: Crypto, s: State, e: Event)
    requires Slots(s) && Possible(e) && s.stage.Unfinalized? && Step(c, s, e).0.stage.Unfinalized?
    ensures var after := Step(c, s, e).0;
            || (LastFinalized(after) == LastFinalized(s) && after.finalized == s.finalized)
            || (LastFinalized(after) == Wrapped(LastFinalized(s) + 1) && exists b: Block :: after.finalized == Finalized(s.finalized, b))
  {
    hide HashOf, Count, Finalized, Wrapped;
    WrappedLaws(s.number);
  }

  lemma WrappedLaws(n: U64)
    ensures Wrapped(n) == n && Wrapped(Wrapped(n + 1)) == Wrapped(n + 1) && Wrapped(Wrapped(n + 1) - 1) == n && Wrapped(Wrapped(n - 1) + 1) == n
  {
  }

  ghost predicate NeverRecovers(c: Crypto, es: seq<Event>)
    requires Legal(es)
  {
    forall k: nat :: k <= |es| ==> At(c, es, k).stage.Unfinalized?
  }

  /** A run without recovery settles one block for each number: the history holds as many as were counted, up to its bound. */
  lemma {:induction false} OneBlockPerNumber(c: Crypto, es: seq<Event>, k: nat)
    requires Legal(es) && NeverRecovers(c, es) && k <= |es| < 0x1_0000_0000_0000_0000
    ensures var s := At(c, es, k);
            LastFinalized(s) <= k && |s.finalized| == if LastFinalized(s) < BLOCK_HISTORY then LastFinalized(s) else BLOCK_HISTORY
  {
    hide Run, Step, LastFinalized;
    StartsEmpty(c, es);
    if k > 0 {
      OneBlockPerNumber(c, es, k - 1);
      AtNext(c, es, k - 1);
      assert At(c, es, k - 1).stage.Unfinalized? && At(c, es, k).stage.Unfinalized?;
      StepCounts(c, At(c, es, k - 1), es[k - 1]);
    }
  }

  /** The run continued by m times the same event. */
  function Repeated(es: seq<Event>, e: Event, m: nat): (fs: seq<Event>)
    requires Legal(es) && Possible(e)
    ensures Legal(fs)
  {
    if m == 0 then es else Repeated(es, e, m - 1) + [e]
  }

  /** The first m blocks are this one, or the whole history once m reaches its bound. */
  ghost predicate StartsWith(blocks: seq<Block>, b: Block, m: nat) {
    (m <= |blocks| || |blocks| == BLOCK_HISTORY) && forall k :: 0 <= k < m && k < |blocks| ==> blocks[k] == b
  }

  /** In recovery the block that was voted for is added every time it is received: it ends up filling the history. */
  lemma {:induction false} ReceivedAgain(c: Crypto, es: seq<Event>, i: nat, data: seq<Byte>, m: nat)
    requires Legal(es) && i < REPLICATION_FACTOR
    requires Run(c, es).stage.Recovering? && HashOf(c, data) == Some(Run(c, es).stage.finalHash)
    ensures var s, fs := Run(c, es), Repeated(es, Receive(i, LastFinalized(Run(c, es)), data), m);
            && Run(c, fs).stage == s.stage && Run(c, fs).number == s.number
            && (Clean(c, es) ==> Clean(c, fs))
            && StartsWith(Run(c, fs).finalized, Block(s.stage.finalHash, data), m)
  {
    hide Run, Step, Clean, HashOf, StartsWith, Finalized, Legal;
    var s := Run(c, es);
    if m > 0 {
      ReceivedAgain(c, es, i, data, m - 1);
      OneMoreReceipt(c, Repeated(es, Receive(i, LastFinalized(s), data), m - 1), s, i, data, m - 1);
    } else {
      NoneNeeded(s.finalized, Block(s.stage.finalHash, data));
    }
  }

  lemma OneMoreReceipt(c: Crypto, es: seq<Event>, s: State, i: nat, data: seq<Byte>, m: nat)
    requires Legal(es) && s.stage.Recovering? && i < REPLICATION_FACTOR && HashOf(c, data) == Some(s.stage.finalHash)
    requires Run(c, es).stage == s.stage && Run(c, es).number == s.number
    requires StartsWith(Run(c, es).finalized, Block(s.stage.finalHash, data), m)
    ensures var fs := es + [Receive(i, LastFinalized(s), data)];
            && Legal(fs) && Run(c, fs).stage == s.stage && Run(c, fs).number == s.number && (Clean(c, es) ==> Clean(c, fs))
            && StartsWith(Run(c, fs).finalized, Block(s.stage.finalHash, data), m + 1)
  {
    hide Run, Step, Clean, HashOf, StartsWith, Finalized, Legal;
    var e := Receive(i, LastFinalized(s), data);
    RunAppend(c, es, e);
    RunKeeps(c, es);
    ReceivedInRecovery(c, Run(c, es), i, data);
    if Clean(c, es) {
      CleanAppend(c, es, e);
    }
    StartsWithOneMore(Run(c, es).finalized, Block(s.stage.finalHash, data), m);
  }

  lemma NoneNeeded(blocks: seq<Block>, b: Block)
    ensures StartsWith(blocks, b, 0)
  {
  }

  lemma StartsWithOneMore(blocks: seq<Block>, b: Block, m: nat)
    requires StartsWith(blocks, b, m) && |blocks| <= BLOCK_HISTORY
    ensures StartsWith(Finalized(blocks, b), b, m + 1)
  {
    var now := Finalized(blocks, b);
    forall k | 0 <= k < m + 1 && k < |now|
      ensures now[k] == b
    {
      if k > 0 {
        assert now[k] == blocks[k - 1];
      }
    }
  }

  lemma ReceivedInRecovery(c: Crypto, s: State, i: nat, data: seq<Byte>)
    requires s.stage.Recovering? && i < REPLICATION_FACTOR && HashOf(c, data) == Some(s.stage.finalHash)
    ensures var (after, outcome) := Step(c, s, Receive(i, LastFinalized(s), data));
            && outcome == Done && after.stage == s.stage && after.number == s.number
            && after.finalized == Finalized(s.finalized, Block(s.stage.finalHash, data))
  {
    hide HashOf, Unsettled, Finalized;
  }

  // ---------------------------------------------------------------- where recovery does not end

  /** Recovery ends exactly when a replica that neither entered it with a proposal nor closed a block in it closes the block that was voted for. */
  lemma RecoveryEnds(c: Crypto, s: State, e: Event)
    requires s.stage.Recovering? && Possible(e)
    ensures Step(c, s, e).0.stage.Unfinalized? <==>
            e.Push? && !Fits(s.current, e.message) && !s.stage.weFinalized && HashOf(c, s.current) == Some(s.stage.finalHash)
    ensures var after := Step(c, s, e).0;
            after.stage.Recovering? ==>
              && after.number == s.number && after.stage.finalHash == s.stage.finalHash
              && (after.stage.weFinalized <==> s.stage.weFinalized || (e.Push? && !Fits(s.current, e.message) && HashOf(c, s.current).Some?))
    ensures s.stage.weFinalized ==> !Step(c, s, e).1.Proposed?
  {
    hide HashOf, Unsettled, Finalized;
  }

  /** A replica that entered recovery with a proposal, or closed a block in it, stays there in every continuation. */
  lemma {:induction false} ClosedRecoveryIsFinal(c: Crypto, es: seq<Event>, fs: seq<Event>, e: Event)
    requires Legal(es) && Legal(fs) && Run(c, es).stage.Recovering? && Run(c, es).stage.weFinalized && Possible(e)
    ensures Legal(es + fs) && Run(c, es + fs).stage == Run(c, es).stage && Run(c, es + fs).number == Run(c, es).number
    ensures !Step(c, Run(c, es + fs), e).1.Proposed?
  {
    hide Run, Step;
    if fs == [] {
      assert es + fs == es;
    } else {
      var n := |fs| - 1;
      ClosedRecoveryIsFinal(c, es, fs[..n], fs[n]);
      RunAppend(c, es + fs[..n], fs[n]);
      assert es + fs == (es + fs[..n]) + [fs[n]];
      RecoveryEnds(c, Run(c, es + fs[..n]), fs[n]);
    }
    RecoveryEnds(c, Run(c, es + fs), e);
  }

  /** Outvoted with a vote for block v, a replica takes that block in only if it has proposed one itself and v is its number. */
  lemma RecoveryNeedsProposal(c: Crypto, s: State, index: nat, v: U64, h: Hash, i: nat, data: seq<Byte>)
    requires s.stage.Unfinalized? && Slots(s) && index < REPLICATION_FACTOR && i < REPLICATION_FACTOR
    requires ProposeStep(s, index, v, h).0.stage.Recovering? && HashOf(c, data) == Some(h)
    ensures var outcome := ReceiveStep(c, ProposeStep(s, index, v, h).0, i, v, data).1;
            outcome == if s.stage.proposed.Some? && v == LastFinalized(s) then Done else Outdated
  {
    hide HashOf, Count, Unsettled, Finalized;
  }

  /** The run continued by the votes of three replicas for one hash. */
  function Outvoted(es: seq<Event>, n: U64, h: Hash): (fs: seq<Event>)
    requires Legal(es)
    ensures Legal(fs)
  {
    es + [Propose(0, n, h)] + [Propose(1, n, h)] + [Propose(2, n, h)]
  }

  /** Three votes for the block that a replica is still filling leave it refusing that block from everyone. */
  lemma OutvotedRefuses(c: Crypto, es: seq<Event>, h: Hash)
    requires Legal(es) && Run(c, es).stage.Unfinalized? && Run(c, es).stage.proposed == None
    ensures var n := Run(c, es).number;
            var fs := Outvoted(es, n, h);
            && Run(c, fs).stage == Recovering(h, false) && Run(c, fs).number == n
            && forall i, data :: 0 <= i < REPLICATION_FACTOR ==> Step(c, Run(c, fs), Receive(i, n, data)).1 == Outdated
  {
    hide Run, Count, Step;
    var s := Run(c, es);
    var n := s.number;
    var e0, e1, e2 := Propose(0, n, h), Propose(1, n, h), Propose(2, n, h);
    RunAppend(c, es, e0);
    RunAppend(c, es + [e0], e1);
    RunAppend(c, es + [e0] + [e1], e2);
    var s1 := Run(c, es + [e0]);
    var s2 := Run(c, es + [e0] + [e1]);
    var s3 := Run(c, es + [e0] + [e1] + [e2]);
    OutvotedStep(c, s, n, h, 0);
    OutvotedStep(c, s1, n, h, 1);
    OutvotedStep(c, s2, n, h, 2);
    assert s3.stage == Recovering(h, false) by {
      if s3.stage.Unfinalized? {
        ThreeSlots(s3.stage.others, h);
      }
    }
    forall i, data | 0 <= i < REPLICATION_FACTOR
      ensures Step(c, s3, Receive(i, n, data)).1 == Outdated
    {
      RefusedWhileFilling(c, s3, i, n, data);
    }
  }

  lemma RefusedWhileFilling(c: Crypto, s: State, i: nat, n: U64, data: seq<Byte>)
    requires i < REPLICATION_FACTOR && s.stage.Recovering? && s.number == n
    ensures Step(c, s, Receive(i, n, data)).1 == Outdated
  {
  }

  /** The replica has not closed its block n, and is either outvoted or holds the given number of votes for h. */
  ghost predicate Outvoting(s: State, n: U64, h: Hash, votes: nat) {
    && s.number == n && Slots(s)
    && match s.stage
       case Unfinalized(proposed, others) =>
         && proposed == None && (votes > 0 ==> Count(others, h) <= 2)
         && votes <= |others| && forall i :: 0 <= i < votes ==> others[i] == h
       case Recovering(finalHash, weFinalized) => finalHash == h && !weFinalized
  }

  lemma OutvotedStep(c: Crypto, s: State, n: U64, h: Hash, votes: nat)
    requires votes < REPLICATION_FACTOR && Outvoting(s, n, h, votes)
    ensures Outvoting(Step(c, s, Propose(votes, n, h)).0, n, h, votes + 1)
  {
    hide Count;
  }

  lemma ThreeSlots(others: seq<Hash>, h: Hash)
    requires |others| == 4 && others[0] == others[1] == others[2] == h
    ensures Count(others, h) >= 3
  {
    var t := others[..3];
    assert t[..2][..1] == [h] && [h][..0] == [] && t[..2] == [h, h];
    assert Count([h], h) == 1;
    assert Count(t[..2], h) == 2;
    assert Count(t, h) == 3;
  }

  /** A message of the greatest content size. */
  function Filler(): (m: Message)
    ensures |m| == MAX_MESSAGE_SIZE
  {
    seq(MAX_MESSAGE_SIZE, _ => 0)
  }

  /** Local messages fill the current block in any stage. */
  lemma {:induction false} FillBlock(c: Crypto, es: seq<Event>) returns (fs: seq<Event>)
    requires Legal(es) && Clean(c, es)
    ensures Legal(fs) && Clean(c, fs) && Run(c, fs).stage == Run(c, es).stage && Run(c, fs).number == Run(c, es).number
    ensures !Fits(Run(c, fs).current, Filler())
    decreases BLOCK_SIZE - |Run(c, es).current|
  {
    hide Run, Step, Invariant, Clean;
    RunKeeps(c, es);
    fs := es;
    if Fits(Run(c, es).current, Filler()) {
      var e := Push(Filler());
      RunAppend(c, es, e);
      FillerFits(c, Run(c, es));
      CleanAppend(c, es, e);
      fs := FillBlock(c, es + [e]);
    }
  }

  /** From a fresh stage some run fills the block, settles it and reaches the next number. */
  lemma NextNumber(c: Crypto, start: seq<Event>) returns (fs: seq<Event>)
    requires Legal(start) && Clean(c, start) && Run(c, start).stage == DefaultStage()
    ensures Legal(fs) && Clean(c, fs) && Run(c, fs).stage == DefaultStage() && Run(c, fs).number == Wrapped(Run(c, start).number + 1)
  {
    hide Run, Step, Invariant, Clean;
    var es := FillBlock(c, start);
    var s, e := Run(c, es), Push(Filler());
    RunKeeps(c, es);
    RunAppend(c, es, e);
    ClosesFull(c, s);
    CleanAppend(c, es, e);
    fs := es + [e];
    if Run(c, fs).stage != DefaultStage() {
      var h := Run(c, fs).stage.proposed.value.hash;
      var e0, e1 := Propose(0, s.number, h), Propose(1, s.number, h);
      TwoVotesSettle(c, Run(c, fs), s.number, h);
      RunAppend(c, fs, e0);
      CleanAppend(c, fs, e0);
      fs := fs + [e0];
      RunAppend(c, fs, e1);
      CleanAppend(c, fs, e1);
      fs := fs + [e1];
    }
  }

  lemma FillerFits(c: Crypto, s: State)
    requires Invariant(c, s) && Fits(s.current, Filler())
    ensures var after := Step(c, s, Push(Filler())).0;
            after.stage == s.stage && after.number == s.number && |s.current| < |after.current| <= BLOCK_SIZE
    ensures Step(c, s, Push(Filler())).1 == Done
  {
    hide Invariant;
  }

  lemma ClosesFull(c: Crypto, s: State)
    requires Invariant(c, s) && s.stage == DefaultStage() && !Fits(s.current, Filler())
    ensures var after := Step(c, s, Push(Filler())).0;
            && after.number == Wrapped(s.number + 1) && after.stage.Unfinalized? && after.stage.others == DefaultStage().others
            && (after.stage.proposed.Some? ==> after.stage.proposed.value.hash != ZERO)
            && (HashOf(c, s.current) != Some(ZERO) ==> after.stage.proposed.Some?)
    ensures Step(c, s, Push(Filler())).1.Proposed?
  {
    hide HashOf, Finalized, Print, Parse, Undecided, HistoryOk;
    WholeBlockHashes(c, s.current);
    ThreeSlots([ZERO, ZERO, ZERO, ZERO], ZERO);
    if HashOf(c, s.current) != Some(ZERO) {
      NoVotes(HashOf(c, s.current).value);
    }
  }

  lemma NoVotes(h: Hash)
    requires h != ZERO
    ensures Count([ZERO, ZERO, ZERO, ZERO], h) == 0
  {
    if Count([ZERO, ZERO, ZERO, ZERO], h) > 0 {
      var i := CountFinds([ZERO, ZERO, ZERO, ZERO], h);
    }
  }

  lemma TwoVotesSettle(c: Crypto, s: State, n: U64, h: Hash)
    requires s.number == Wrapped(n + 1) && h != ZERO
    requires s.stage.Unfinalized? && s.stage.others == DefaultStage().others && s.stage.proposed.Some? && s.stage.proposed.value.hash == h
    ensures var first := Step(c, s, Propose(0, n, h)).0;
            var second := Step(c, first, Propose(1, n, h)).0;
            second.stage == DefaultStage() && second.number == s.number
            && Step(c, s, Propose(0, n, h)).1 == Step(c, first, Propose(1, n, h)).1 == Done
  {
    hide Finalized;
    FirstVotes(h);
    assert [ZERO, ZERO, ZERO, ZERO][0 := h] == [h, ZERO, ZERO, ZERO];
    assert [h, ZERO, ZERO, ZERO][1 := h] == [h, h, ZERO, ZERO];
  }

  lemma FirstVotes(h: Hash)
    requires h != ZERO
    ensures Count([h, ZERO, ZERO, ZERO], h) == 1 && Count([h, h, ZERO, ZERO], h) == 2
  {
    assert [h][..0] == [] && [h, h][..1] == [h];
    assert [h, ZERO][..1] == [h] && [h, ZERO, ZERO][..2] == [h, ZERO] && [h, ZERO, ZERO, ZERO][..3] == [h, ZERO, ZERO];
    assert [h, h, ZERO][..2] == [h, h] && [h, h, ZERO, ZERO][..3] == [h, h, ZERO];
    assert Count([h], h) == 1;
    assert Count([h, ZERO], h) == 1;
    assert Count([h, ZERO, ZERO], h) == 1;
    assert Count([h, h], h) == 2;
    assert Count([h, h, ZERO], h) == 2;
  }

  /** Every block number is reached with nothing proposed. */
  lemma {:induction false} EveryNumber(c: Crypto, n: U64) returns (es: seq<Event>)
    ensures Legal(es) && Clean(c, es) && Run(c, es).stage == DefaultStage() && Run(c, es).number == n
  {
    hide Run;
    if n == 0 {
      es := [];
      RunOfNothing(c);
    } else {
      var fs := EveryNumber(c, n - 1);
      es := NextNumber(c, fs);
    }
  }

  lemma RunOfNothing(c: Crypto)
    ensures Run(c, []) == Initial()
  {
  }

  /** From empty slots, three votes for another hash than that of the own proposal end in recovery. */
  lemma FreshVotes(c: Crypto, s: State, h: Hash)
    requires s.stage.Unfinalized? && s.stage.others == DefaultStage().others && h != ZERO
    requires s.stage.proposed.Some? ==> s.stage.proposed.value.hash != h
    ensures var n := LastFinalized(s);
            var s1, s2 := Step(c, s, Propose(0, n, h)), Step(c, Step(c, s, Propose(0, n, h)).0, Propose(1, n, h));
            s1.1 == s2.1 == Done && Step(c, s2.0, Propose(2, n, h)) == (s.(stage := Recovering(h, s.stage.proposed.Some?)), Done)
            && Slots(s1.0) && Slots(s2.0)
  {
    FirstVotes(h);
    ThreeSlots([h, h, h, ZERO], h);
    assert [ZERO, ZERO, ZERO, ZERO][0 := h] == [h, ZERO, ZERO, ZERO];
    assert [h, ZERO, ZERO, ZERO][1 := h] == [h, h, ZERO, ZERO];
    assert [h, h, ZERO, ZERO][2 := h] == [h, h, h, ZERO];
  }

  lemma FreshOutvoted(c: Crypto, es: seq<Event>, h: Hash)
    requires Legal(es) && Clean(c, es) && h != ZERO
    requires Run(c, es).stage.Unfinalized? && Run(c, es).stage.others == DefaultStage().others
    requires Run(c, es).stage.proposed.Some? ==> Run(c, es).stage.proposed.value.hash != h
    ensures var s := Run(c, es);
            var fs := Outvoted(es, LastFinalized(s), h);
            Clean(c, fs) && Run(c, fs) == s.(stage := Recovering(h, s.stage.proposed.Some?))
  {
    hide Run, Step, Clean;
    var s := Run(c, es);
    var n := LastFinalized(s);
    FreshVotes(c, s, h);
    var e0, e1, e2 := Propose(0, n, h), Propose(1, n, h), Propose(2, n, h);
    RunAppend(c, es, e0);
    CleanAppend(c, es, e0);
    RunAppend(c, es + [e0], e1);
    CleanAppend(c, es + [e0], e1);
    RunAppend(c, es + [e0] + [e1], e2);
    CleanAppend(c, es + [e0] + [e1], e2);
  }

  /** At every block number there is a run that ends outvoted and refuses the block it waits for. */
  lemma OutvotedAtEveryNumber(c: Crypto, n: U64, h: Hash) returns (es: seq<Event>)
    ensures Legal(es) && Run(c, es).stage == Recovering(h, false) && Run(c, es).number == n
    ensures forall i, data :: 0 <= i < REPLICATION_FACTOR ==> Step(c, Run(c, es), Receive(i, n, data)).1 == Outdated
    ensures h != ZERO ==> Clean(c, es)
  {
    hide Run, Step, Clean;
    var fs := EveryNumber(c, n);
    OutvotedRefuses(c, fs, h);
    if h != ZERO {
      FreshOutvoted(c, fs, h);
    }
    es := Outvoted(fs, n, h);
  }

  /** At every block number there is a run into a recovery that never ends: outvoted, then a block of its own is closed. */
  lemma OwnBlockLocksRecovery(c: Crypto, n: U64) returns (es: seq<Event>, h: Hash)
    ensures Legal(es) && Clean(c, es) && Run(c, es).stage == Recovering(h, true) && Run(c, es).number == n
  {
    hide Run, Step, Clean, Invariant, HashOf;
    var start := EveryNumber(c, n);
    var fs := FillBlock(c, start);
    var s, e := Run(c, fs), Push(Filler());
    RunKeeps(c, fs);
    h := ForeignHash(c, s);
    FreshOutvoted(c, fs, h);
    var gs := Outvoted(fs, n, h);
    LockedByPush(c, Run(c, gs));
    RunAppend(c, gs, e);
    CleanAppend(c, gs, e);
    es := gs + [e];
  }

  lemma ForeignHash(c: Crypto, s: State) returns (h: Hash)
    requires Invariant(c, s) && !Fits(s.current, Filler())
    ensures HashOf(c, s.current).Some? && HashOf(c, s.current) != Some(h) && h != ZERO
  {
    hide HashOf;
    WholeBlockHashes(c, s.current);
    h := HashOf(c, s.current).value + 1;
  }

  lemma LockedByPush(c: Crypto, s: State)
    requires s.stage.Recovering? && !s.stage.weFinalized && !Fits(s.current, Filler())
    requires HashOf(c, s.current).Some? && HashOf(c, s.current) != Some(s.stage.finalHash)
    ensures var (after, outcome) := Step(c, s, Push(Filler()));
            outcome.Proposed? && after.stage == Recovering(s.stage.finalHash, true) && after.number == s.number
  {
    hide HashOf;
  }

  /** A run after which the replica holds a proposal for block n. */
  lemma ProposalAtEveryNumber(c: Crypto, n: U64) returns (es: seq<Event>)
    requires forall b :: HashOf(c, b) != Some(ZERO)
    ensures Legal(es) && Clean(c, es) && LastFinalized(Run(c, es)) == n
    ensures var stage := Run(c, es).stage; stage.Unfinalized? && stage.proposed.Some? && stage.others == DefaultStage().others
  {
    hide Run, Step, Clean, Invariant, HashOf;
    var start := EveryNumber(c, n);
    var fs := FillBlock(c, start);
    var e := Push(Filler());
    RunKeeps(c, fs);
    ClosesFull(c, Run(c, fs));
    RunAppend(c, fs, e);
    CleanAppend(c, fs, e);
    es := fs + [e];
  }

  /** Where two blocks hash differently, and none to zero: at every number a run takes in the winning block and stays in a recovery that never ends. */
  lemma RecoveryOutlivesItsBlock(c: Crypto, n: U64, first: seq<Byte>, second: seq<Byte>) returns (es: seq<Event>, data: seq<Byte>)
    requires forall b :: HashOf(c, b) != Some(ZERO)
    requires HashOf(c, first).Some? && HashOf(c, second).Some? && HashOf(c, first) != HashOf(c, second)
    ensures data == first || data == second
    ensures Legal(es) && Clean(c, es) && Run(c, es).stage == Recovering(HashOf(c, data).value, true) && LastFinalized(Run(c, es)) == n
    ensures forall i :: 0 <= i < REPLICATION_FACTOR ==>
              var (after, outcome) := Step(c, Run(c, es), Receive(i, n, data));
              && outcome == Done && after.stage == Run(c, es).stage && after.number == Run(c, es).number
              && after.finalized == Finalized(Run(c, es).finalized, Block(HashOf(c, data).value, data))
  {
    hide Run, Step, Clean, HashOf, Finalized;
    var fs := ProposalAtEveryNumber(c, n);
    data := if HashOf(c, first) == Some(Run(c, fs).stage.proposed.value.hash) then second else first;
    var h := HashOf(c, data).value;
    FreshOutvoted(c, fs, h);
    es := Outvoted(fs, n, h);
    RunKeeps(c, es);
    var s := Run(c, es);
    forall i | 0 <= i < REPLICATION_FACTOR
      ensures var (after, outcome) := Step(c, s, Receive(i, n, data));
              && outcome == Done && after.stage == s.stage && after.number == s.number
              && after.finalized == Finalized(s.finalized, Block(h, data))
    {
      ReceivedInRecovery(c, s, i, data);
    }
  }
}
