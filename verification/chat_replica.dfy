/** The chat object, updated in place, against the state machine. */
module ChatReplica {
  import opened Common
  import opened MessageBuffers
  import opened MessageCodec
  import opened BlockHash
  import opened ChatSteps
  import opened ChatLaws

  class Chat {
    const crypto: Crypto
    var finalized: seq<Block>
    var currentBlock: seq<Byte>
    var blockNumber: U64
    var stage: Stage

    function State(): State
      reads this
    {
      ChatSteps.State.State(finalized, currentBlock, blockNumber, stage)
    }

    ghost predicate Valid(es: seq<Event>)
      reads this
    {
      Legal(es) && State() == Run(crypto, es)
    }

    /** `Chat::new`. */
    constructor (crypto: Crypto)
      ensures State() == Initial() && this.crypto == crypto && Valid([])
    {
      this.crypto := crypto;
      finalized, currentBlock, blockNumber, stage := [], [], 0, DefaultStage();
    }

    /** `try_push`: the parts are written one by one; a part beyond the capacity is refused, earlier ones stay. */
    method TryPush(pieces: seq<seq<Byte>>) returns (ok: bool)
      modifies this`currentBlock
      ensures ok <==> Fits(old(currentBlock), Concatenated(pieces))
      ensures ok ==> currentBlock == old(currentBlock) + Record(Concatenated(pieces))
      ensures |old(currentBlock)| <= |currentBlock| && currentBlock[..|old(currentBlock)|] == old(currentBlock)
    {
      var len := |currentBlock|;
      for k := 0 to |pieces|
        invariant currentBlock == old(currentBlock) + Concatenated(pieces[..k])
      {
        assert pieces[..k + 1][..k] == pieces[..k];
        if |currentBlock| + |pieces[k]| > BLOCK_SIZE {
          ConcatenatedGrows(pieces, k + 1);
          return false;
        }
        currentBlock := currentBlock + pieces[k];
      }
      assert pieces[..|pieces|] == pieces;
      var suffix := Suffix(|currentBlock| - len);
      if |currentBlock| + |suffix| > BLOCK_SIZE {
        return false;
      }
      currentBlock := currentBlock + suffix;
      ok := true;
    }

    /** `push_to_finalized`. */
    method PushToFinalized(block: Block)
      modifies this`finalized
      ensures finalized == Finalized(old(finalized), block)
    {
      if |finalized| == BLOCK_HISTORY {
        finalized := finalized[..|finalized| - 1];
      }
      finalized := [block] + finalized;
    }

    /** `finalize_current_block`. */
    method FinalizeCurrentBlock(hash: Hash)
      modifies this
      ensures State() == FinalizedCurrent(old(State()), hash)
    {
      stage := DefaultStage();
      PushToFinalized(Block(hash, currentBlock));
      currentBlock := [];
      blockNumber := Wrapped(blockNumber + 1);
    }

    /** The full block is settled, proposed or dropped. */
    method CloseBlock(hash: Hash)
      modifies this
      ensures State() == Closed(old(State()), hash)
    {
      match stage {
        case Unfinalized(_, others) =>
          if Count(others, hash) >= REPLICATION_FACTOR / 2 {
            FinalizeCurrentBlock(hash);
          } else {
            stage := Unfinalized(Some(Block(hash, currentBlock)), others);
            currentBlock := [];
            blockNumber := Wrapped(blockNumber + 1);
          }
        case Recovering(finalHash, _) =>
          stage := Recovering(finalHash, true);
          if hash == finalHash {
            FinalizeCurrentBlock(hash);
          } else {
            currentBlock := [];
          }
      }
    }

    /** `push_message`. */
    method PushMessage(pieces: seq<seq<Byte>>, ghost es: seq<Event>) returns (outcome: Outcome)
      requires Valid(es) && |Concatenated(pieces)| <= MAX_ENCODED
      modifies this
      ensures (State(), outcome) == PushStep(crypto, old(State()), Concatenated(pieces))
      ensures Valid(es + [Push(Concatenated(pieces))]) && outcome != Panicked
      ensures outcome == Done ==> Parse(currentBlock) == Parse(old(currentBlock)) + [Concatenated(pieces)]
      ensures outcome.Proposed? ==> Parse(currentBlock) == [Concatenated(pieces)] && HashOf(crypto, old(currentBlock)) == Some(outcome.hash)
      ensures outcome == NotFinalized ==> State() == old(State())
    {
      hide Parse;
      hide Closed, HashOf, Record, Run, Concatenated, Fits;
      ghost var m := Concatenated(pieces);
      PushSafe(crypto, es, m);
      RunKeeps(crypto, es);
      PushStores(crypto, State(), m);
      ghost var start := State();
      var prevLen := |currentBlock|;
      var pushed := TryPush(pieces);
      if pushed {
        return Done;
      }
      currentBlock := currentBlock[..prevLen];
      if (stage.Unfinalized? && stage.proposed.Some?) || (stage.Recovering? && stage.weFinalized) {
        return NotFinalized;
      }
      var hash, _ := HashBlock(crypto, currentBlock);
      CloseBlock(hash.value);
      pushed := TryPush(pieces);
      assert pushed;
      outcome := Proposed(hash.value);
    }

    /** `last_finalized_block`. */
    method LastFinalizedBlock() returns (number: U64)
      ensures number == LastFinalized(State())
    {
      number := Wrapped(blockNumber - if stage.Recovering? || stage.proposed.Some? then 1 else 0);
    }

    /** The state change of `ProposeMsgBlock`. */
    method ProposeMsgBlock(index: nat, number: U64, phash: Hash, ghost es: seq<Event>) returns (outcome: Outcome)
      requires Valid(es) && index < REPLICATION_FACTOR
      modifies this
      ensures (State(), outcome) == ProposeStep(old(State()), index, number, phash)
      ensures Valid(es + [Propose(index, number, phash)])
      ensures outcome.Reply? ==> State() == old(State()) && finalized != [] && finalized[0].hash != phash && outcome.data == finalized[0].data
    {
      hide Count, Run, HashOf, Finalized;
      RunAppend(crypto, es, Propose(index, number, phash));
      var ours := LastFinalizedBlock();
      if number < ours && ours - number <= 1 {
        if finalized == [] {
          return NoBlocks;
        }
        return if finalized[0].hash == phash then Done else Reply(finalized[0].data);
      } else if number < ours {
        return Unsupported;
      } else if number > ours && number - ours > 1 {
        return Unsupported;
      }
      if stage.Recovering? {
        return Done;
      }
      var proposed, others := stage.proposed, stage.others[index := phash];
      var weFinalized := proposed.Some?;
      var weMatch := proposed.Some? && proposed.value.hash == phash;
      stage := Unfinalized(proposed, others);
      if Count(others, phash) > REPLICATION_FACTOR / 2 - (if weMatch then 1 else 0) {
        if weMatch {
          PushToFinalized(proposed.value);
          stage := DefaultStage();
        } else {
          stage := Recovering(phash, weFinalized);
        }
      } else if ZERO !in others && weFinalized {
        return Unsupported;
      }
      outcome := Done;
    }

    /** The state change of `SendBlock`. */
    method SendBlock(index: nat, number: U64, block: seq<Byte>, ghost es: seq<Event>) returns (outcome: Outcome)
      requires Valid(es) && index < REPLICATION_FACTOR
      modifies this
      ensures (State(), outcome) == ReceiveStep(crypto, old(State()), index, number, block)
      ensures Valid(es + [Receive(index, number, block)])
      ensures outcome == Done <==> old(TakenIn(crypto, State(), index, number, block))
      ensures outcome == Done ==> finalized == Finalized(old(finalized), Block(HashOf(crypto, block).value, block))
      ensures outcome == Done && old(stage.Recovering?) ==>
                Parse(currentBlock) == Kept((m: Message) => crypto.ofBytes(m) !in Hashes(crypto, Parse(block)), Parse(old(currentBlock)))
    {
      hide Count, Run, HashOf, Finalized, Parse, Print, Kept, Hashes;
      RunAppend(crypto, es, Receive(index, number, block));
      ReceiveDecides(crypto, State(), index, number, block);
      var ours := LastFinalizedBlock();
      if ours != number {
        return Outdated;
      }
      if stage.Unfinalized? && stage.proposed == None {
        return NotExpected;
      }
      var hash, temp := HashBlock(crypto, block);
      if hash == None {
        return Panicked;
      }
      match stage {
        case Unfinalized(proposed, before) =>
          var others := before[index := hash.value];
          stage := Unfinalized(proposed, others);
          if Count(others, hash.value) < REPLICATION_FACTOR / 2 {
            return MajorityMismatch;
          }
          stage := DefaultStage();
        case Recovering(finalHash, _) =>
          if hash.value != finalHash {
            return MajorityMismatch;
          }
          var ofBytes := crypto.ofBytes;
          var kept := RetainMessagesInVec(currentBlock, m => ofBytes(m) !in temp);
          RetainedIsUnsettled(crypto, currentBlock, block, temp);
          currentBlock := kept;
      }
      PushToFinalized(Block(hash.value, block));
      outcome := Done;
    }
  }

  lemma {:induction false} ConcatenatedGrows(pieces: seq<seq<Byte>>, k: nat)
    requires k <= |pieces|
    ensures |Concatenated(pieces[..k])| <= |Concatenated(pieces)|
  {
    if k < |pieces| {
      ConcatenatedGrows(pieces[..|pieces| - 1], k);
      assert pieces[..|pieces| - 1][..k] == pieces[..k];
    } else {
      assert pieces[..k] == pieces;
    }
  }

  /** What the invariant gives a push: the block that must be closed hashes, and the message then fits. */
  lemma PushSafe(c: Crypto, es: seq<Event>, m: Message)
    requires Legal(es) && |m| <= MAX_ENCODED
    ensures Legal(es + [Push(m)]) && Run(c, es + [Push(m)]) == PushStep(c, Run(c, es), m).0
    ensures var s := Run(c, es);
            && PushStep(c, s, m).1 != Panicked && Fits([], m)
            && (!Fits(s.current, m) ==> HashOf(c, s.current).Some?)
            && (HashOf(c, s.current).Some? ==> Closed(s, HashOf(c, s.current).value).current == [])
  {
    hide Run, PushStep, HashOf;
    var s := Run(c, es);
    RunKeeps(c, es);
    PushKeeps(c, s, m);
    RunAppend(c, es, Push(m));
    if !Fits(s.current, m) {
      WholeBlockHashes(c, s.current);
    }
  }

  lemma {:induction false} KeptSame(p: Message -> bool, q: Message -> bool, ms: seq<Message>)
    requires forall m :: p(m) == q(m)
    ensures Kept(p, ms) == Kept(q, ms)
  {
    if ms != [] {
      KeptSame(p, q, ms[..|ms| - 1]);
    }
  }

  /** The scratch buffer of sorted hashes decides like the hashes of the received block. */
  lemma RetainedIsUnsettled(c: Crypto, current: seq<Byte>, data: seq<Byte>, temp: seq<Hash>)
    requires multiset(temp) == multiset(Hashes(c, Parse(data)))
    ensures var ofBytes := c.ofBytes; Print(Kept(m => ofBytes(m) !in temp, Parse(current))) == Unsettled(c, current, data)
  {
    hide Print, Parse, Hashes;
    var settled, ofBytes := Hashes(c, Parse(data)), c.ofBytes;
    forall h: Hash
      ensures h in temp <==> h in settled
    {
      assert h in temp <==> h in multiset(temp);
      assert h in settled <==> h in multiset(settled);
    }
    KeptSame(m => ofBytes(m) !in temp, m => c.ofBytes(m) !in settled, Parse(current));
  }
}
