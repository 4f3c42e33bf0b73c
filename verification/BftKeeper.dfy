/** BFTConsensus as the object that updates its rounds in place, each locked section proved
    against the step function of the same name. */
module BftKeeper {
  import opened NumberTheory
  import opened Words
  import opened Blockchain
  import opened Mempool
  import Bft
  import opened BlockProduction

  /** The string that hashBlock digests. */
  function BlockHashInput(height: int, prevHash: string, timestamp: string, validator: string,
                          txCount: int, reward: int, stateRoot: string): string {
    Decimal(height) + prevHash + timestamp + validator + Decimal(txCount) + Decimal(reward) + stateRoot
  }

  class BftConsensus {
    const nodeAddr: string
    const blockchain: Chain
    const mempool: Pool
    var validators: seq<string>
    var quorum: int
    var current: Option<Bft.Round>
    var totalBlocks: nat
    var spawned: nat

    ghost predicate Valid()
      reads this, blockchain, mempool
    {
      blockchain.Valid() && mempool.Valid() && quorum == Bft.Quorum(|validators|)
    }

    ghost function Abs(): Bft.State
      reads this
    {
      Bft.State(validators, quorum, current, totalBlocks, spawned)
    }

    constructor (validators: seq<string>, blockchain: Chain, mempool: Pool, nodeAddr: string)
      requires blockchain.Valid() && mempool.Valid()
      ensures Valid() && Abs() == Bft.Initial(validators)
      ensures this.blockchain == blockchain && this.mempool == mempool && this.nodeAddr == nodeAddr
    {
      this.validators := validators;
      this.blockchain := blockchain;
      this.mempool := mempool;
      this.nodeAddr := nodeAddr;
      var n := |validators|;
      this.quorum := 2 * n / 3 + 1;
      this.current := None;
      this.totalBlocks := 0;
      this.spawned := 0;
    }

    /** The first locked section of StartRound. pick is the leading hash byte of selectLeader,
        which divides by the number of validators. */
    method BeginRound(height: int, round: int, pick: nat) returns (leads: bool)
      requires Valid() && |validators| > 0
      modifies this
      ensures Valid()
      ensures var leader := old(validators)[pick % |old(validators)|];
              && Abs() == Bft.StartRound(old(Abs()), height, round, leader) && (leads <==> leader == nodeAddr)
              && current == Some(Bft.Round(height, round, Bft.NewRound, leader, None, map[], map[]))
    {
      var leader := validators[pick % |validators|];
      current := Some(Bft.Round(height, round, Bft.NewRound, leader, None, map[], map[]));
      leads := leader == nodeAddr;
    }

    /** proposeBlock up to its own prepare vote, which is returned. */
    method ProposeBlock(now: int, timestamp: string) returns (vote: Option<Bft.Vote>, ghost chosen: seq<PendingTx>)
      requires Valid()
      modifies this, mempool
      ensures Valid()
      ensures old(current).None? ==> vote.None? && Abs() == old(Abs()) && mempool.pending == old(mempool.pending)
      ensures old(current).Some? ==>
                && IsSelection(old(mempool.pending), now, MAX_TX_PER_BLOCK, chosen)
                && mempool.pending == old(mempool.pending) - Hashes(chosen)
                && mempool.size == old(mempool.size) - |chosen|
                && vote.Some? && current.Some? && current.value.proposed.Some? && current.value.phase == Bft.Propose
                && vote.value == Bft.Vote(nodeAddr, current.value.proposed.value.hash,
                                          old(current).value.height, old(current).value.round)
                && vote.value.blockHash
                   == Sha(blockchain.hasher,
                          Decimal(old(current).value.height) + blockchain.blocks[|blockchain.blocks| - 1].hash
                          + timestamp + nodeAddr + Decimal(|chosen|) + Decimal(50_000_000)
                          + Sha(blockchain.hasher, Concat(HashSeq(chosen))))
                && Abs() == Bft.ProposeBlock(old(Abs()),
                     Bft.Proposal(old(current).value.height, vote.value.blockHash, nodeAddr, HashSeq(chosen),
                                  FeeTotal(chosen), Burned(FeeTotal(chosen)), 50_000_000))
    {
      if current.None? {
        return None, [];
      }
      var hashes, fees;
      hashes, fees, chosen := TakeSelection(now);
      var prevHash := blockchain.blocks[|blockchain.blocks| - 1].hash;
      var stateRoot := StateRoot(blockchain.hasher, hashes);
      var hash := Sha(blockchain.hasher, BlockHashInput(current.value.height, prevHash, timestamp, nodeAddr,
                                                        |hashes|, 50_000_000, stateRoot));
      var block := Bft.Proposal(current.value.height, hash, nodeAddr, hashes, fees, Burned(fees), 50_000_000);
      current := Some(current.value.(proposed := Some(block), phase := Bft.Propose));
      vote := Some(Bft.Vote(nodeAddr, hash, block.height, current.value.round));
    }

    /** The selection of proposeBlock, with its hashes and fee total. */
    method TakeSelection(now: int) returns (hashes: seq<string>, fees: int, ghost chosen: seq<PendingTx>)
      requires Valid()
      modifies mempool
      ensures Valid() && IsSelection(old(mempool.pending), now, MAX_TX_PER_BLOCK, chosen)
      ensures mempool.pending == old(mempool.pending) - Hashes(chosen) && mempool.size == old(mempool.size) - |chosen|
      ensures hashes == HashSeq(chosen) && fees == FeeTotal(chosen)
    {
      var txs := mempool.SelectForBlock(1000, now);
      chosen := WithStatus(txs, Pending);
      StatusKeepsHashes(txs, Pending);
      hashes, fees := Summarize(txs);
      SameSummary(txs, chosen);
    }

    method ReceivePrepareVote(v: Bft.Vote)
      requires Valid()
      modifies this
      ensures Valid() && Abs() == Bft.ReceivePrepareVote(old(Abs()), v)
      ensures old(current).None? || v.height != old(current).value.height ==> Abs() == old(Abs())
      ensures old(current).Some? && v.height == old(current).value.height ==>
                var votes := old(current).value.prepareVotes[v.validator := v];
                && current.Some? && current.value.prepareVotes == votes
                && current.value.phase == (if 3 * |votes| > 2 * |validators| then Bft.Commit else Bft.Prepare)
                && spawned == old(spawned) + (if 3 * |votes| > 2 * |validators| then 1 else 0)
    {
      Bft.PrepareExactly(Abs(), v);
      if current.None? || v.height != current.value.height {
        return;
      }
      var votes := current.value.prepareVotes[v.validator := v];
      current := Some(current.value.(prepareVotes := votes, phase := Bft.Prepare));
      if |votes| >= quorum {
        current := Some(current.value.(phase := Bft.Commit));
        spawned := spawned + 1;
      }
    }

    /** A goroutine started by ReceivePrepareVote runs and builds its vote. */
    method SubmitCommitVote() returns (v: Option<Bft.Vote>)
      requires Valid() && spawned > 0
      modifies this`spawned
      ensures Valid() && Abs() == Bft.Step(old(Abs()), Bft.RunGoroutine)
      ensures v == Bft.BuildCommitVote(old(Abs()), nodeAddr)
      ensures v.Some? <==> current.Some? && current.value.proposed.Some?
      ensures v.Some? ==> && v.value.validator == nodeAddr && v.value.blockHash == current.value.proposed.value.hash
                          && v.value.height == current.value.height && v.value.round == current.value.round
    {
      spawned := spawned - 1;
      if current.None? || current.value.proposed.None? {
        return None;
      }
      return Some(Bft.Vote(nodeAddr, current.value.proposed.value.hash, current.value.height, current.value.round));
    }

    /** ReceiveCommitVote with the finalizeBlock it may call: a block is appended exactly when the
        vote completes a quorum in the Commit phase, and it carries the proposed transactions. */
    method ReceiveCommitVote(v: Bft.Vote, time: string)
      requires Valid() && IsTimestamp(time)
      modifies this, blockchain
      ensures Valid() && Abs() == Bft.ReceiveCommitVote(old(Abs()), v)
      ensures |blockchain.blocks| > |old(blockchain.blocks)| <==>
              && old(current).Some? && v.height == old(current).value.height && old(current).value.phase == Bft.Commit
              && old(current).value.proposed.Some?
              && 3 * |old(current).value.commitVotes[v.validator := v]| > 2 * |validators|
      ensures match Bft.Finalizes(old(Abs()), v)
              case None => blockchain.blocks == old(blockchain.blocks)
              case Some(p) =>
                && blockchain.blocks
                   == old(blockchain.blocks) + [BlockFor(blockchain.hasher, old(blockchain.blocks), p, time)]
                && Carries(blockchain.blocks[|old(blockchain.blocks)|], p, time)
    {
      Bft.CommitExactly(Abs(), v);
      if current.None? || v.height != current.value.height {
        return;
      }
      var votes := current.value.commitVotes[v.validator := v];
      current := Some(current.value.(commitVotes := votes));
      if |votes| >= quorum && current.value.phase == Bft.Commit {
        if current.value.proposed.Some? {
          var block := current.value.proposed.value;
          current := Some(current.value.(phase := Bft.Finalized));
          totalBlocks := totalBlocks + 1;
          var b := blockchain.AddBlock(block.validator, block.transactions, block.totalFees, block.burnedAmount,
                                       block.miningReward, time);
        }
      }
    }

    method AddValidator(v: string)
      requires Valid()
      modifies this
      ensures Valid() && Abs() == Bft.AddValidator(old(Abs()), v)
      ensures validators == old(validators) + [v] && current == old(current)
    {
      validators := validators + [v];
      quorum := 2 * |validators| / 3 + 1;
    }
  }

  /** The hash list and the fee total that proposeBlock accumulates. */
  method Summarize(txs: seq<PendingTx>) returns (hashes: seq<string>, fees: int)
    ensures hashes == HashSeq(txs) && fees == FeeTotal(txs)
    ensures FeeSum(txs) <= MAX_INT64 && (forall i :: 0 <= i < |txs| ==> txs[i].fee >= 0) ==> fees == FeeSum(txs)
  {
    hashes, fees := [], 0;
    for i := 0 to |txs|
      invariant |hashes| == i && forall j :: 0 <= j < i ==> hashes[j] == txs[j].hash
      invariant fees == FeeTotal(txs[..i])
    {
      hashes := hashes + [txs[i].hash];
      fees := I64(fees + txs[i].fee);
      assert txs[..i + 1][..i] == txs[..i];
      I64Adds(FeeSum(txs[..i]), txs[i].fee);
    }
    assert txs[..|txs|] == txs;
    if forall i :: 0 <= i < |txs| ==> txs[i].fee >= 0 {
      FeesNonNegative(txs);
    }
  }

  lemma {:induction false} FeesNonNegative(txs: seq<PendingTx>)
    requires forall i :: 0 <= i < |txs| ==> txs[i].fee >= 0
    ensures FeeSum(txs) >= 0
  {
    if txs != [] {
      FeesNonNegative(txs[..|txs| - 1]);
    }
  }

  lemma {:induction false} SameSummary(a: seq<PendingTx>, b: seq<PendingTx>)
    requires |a| == |b| && forall i :: 0 <= i < |a| ==> a[i].hash == b[i].hash && a[i].fee == b[i].fee
    ensures HashSeq(a) == HashSeq(b) && FeeSum(a) == FeeSum(b)
  {
    if a != [] {
      SameSummary(a[..|a| - 1], b[..|b| - 1]);
    }
  }
}
