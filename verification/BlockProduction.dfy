/** Block production as the node wires it: mempool, voting rounds and chain together.
    One thread calls StartRound, whose three locked sections are separate steps; the
    submitCommitVote goroutines, submissions, cleanup and validator additions interleave
    with it freely. The only prepare votes are the node's own. */
module BlockProduction {
  import opened NumberTheory
  import opened Words
  import opened Totals
  import opened Blockchain
  import opened Mempool
  import opened Bft

  /** Where the thread inside StartRound stands. */
  datatype Pc = Idle | MustPropose | MustPrepare(vote: Vote)

  datatype Node = Node(
    addr: string,
    pending: map<string, PendingTx>, size: int,
    bft: State,
    chain: seq<Block>,
    pc: Pc,
    commits: seq<Vote>,
    // history: every accepted submission, and where the lost ones went
    submitted: set<string>, dropped: multiset<string>, expired: multiset<string>)

  datatype Action =
    | SubmitTx(hash: string, from: string, to: string, amount: int, fee: int, nonce: nat, now: int)
    | CleanUp(now: int)
    | BeginRound(height: int, round: int, leader: string)
    | MakeProposal(now: int, chosen: seq<PendingTx>, hash: string)
    | CastPrepare
    | FireGoroutine
    | DeliverCommit(k: nat, time: string)
    | JoinValidator(v: string)

  function HashSeq(txs: seq<PendingTx>): (r: seq<string>)
    ensures |r| == |txs| && forall i :: 0 <= i < |txs| ==> r[i] == txs[i].hash
  {
    seq(|txs|, i requires 0 <= i < |txs| => txs[i].hash)
  }

  /** Transactions taken out of the pool for a proposal that is not on the chain yet. */
  function InFlight(s: State): multiset<string> {
    if s.current.Some? && s.current.value.proposed.Some? && s.current.value.phase != Finalized
    then multiset(s.current.value.proposed.value.transactions) else multiset{}
  }

  function OnChain(chain: seq<Block>): multiset<string> {
    if chain == [] then multiset{}
    else OnChain(chain[..|chain| - 1]) + multiset(chain[|chain| - 1].transactions)
  }

  /** The int64 sum that proposeBlock accumulates. */
  function FeeTotal(txs: seq<PendingTx>): int { I64(FeeSum(txs)) }

  /** totalFees * 10 / 10_000 in int64, with Go's division toward zero. */
  function Burned(fees: int): int {
    var x := I64(fees * 10);
    if x >= 0 then x / 10_000 else -(-x / 10_000)
  }

  /** Fee total and burned amount are those of the true sum if and only if ten times the sum is an
      int64; Submit bounds no fee from above. */
  lemma FeesExactly(sum: nat)
    ensures I64(sum) == sum && Burned(I64(sum)) == sum / 1000 <==> 10 * sum <= MAX_INT64
  {
    if 10 * sum <= MAX_INT64 {
      assert I64(sum * 10) == sum * 10;
    } else if sum <= MAX_INT64 {
      BurnedWraps(sum * 10, sum);
    }
  }

  lemma BurnedWraps(x: int, sum: nat)
    requires x == sum * 10 > MAX_INT64
    ensures Burned(sum) < sum / 1000
  {
    if x < TWO_64 {
      assert I64(x) == I64(x - TWO_64) < 0;
    }
  }

  /** The block that proposeBlock builds. */
  function ProposalFor(n: Node, chosen: seq<PendingTx>, hash: string): Proposal
    requires n.bft.current.Some?
  {
    Proposal(n.bft.current.value.height, hash, n.addr, HashSeq(chosen), FeeTotal(chosen),
             Burned(FeeTotal(chosen)), 50_000_000)
  }

  ghost predicate Enabled(n: Node, a: Action) {
    match a
    case SubmitTx(hash, _, _, _, _, _, _) => hash !in n.submitted
    case CleanUp(_) => true
    case BeginRound(_, _, leader) => n.pc.Idle? && leader in n.bft.validators
    case MakeProposal(now, chosen, _) =>
      n.pc.MustPropose? && IsSelection(n.pending, now, MAX_TX_PER_BLOCK, chosen)
    case CastPrepare => n.pc.MustPrepare?
    case FireGoroutine => n.bft.spawned > 0
    case DeliverCommit(k, time) => k < |n.commits| && IsTimestamp(time)
    case JoinValidator(_) => true
  }

  ghost function Submitted(n: Node, tx: PendingTx): Node {
    if n.size >= MAX_MEMPOOL_SIZE || tx.fee < MIN_FEE then n
    else n.(pending := n.pending[tx.hash := tx], size := n.size + 1, submitted := n.submitted + {tx.hash})
  }

  ghost function CleanedUp(n: Node, now: int): Node {
    var stale := n.pending.Keys - LiveHashes(n.pending, now);
    n.(pending := n.pending - stale, size := n.size - |stale|, expired := n.expired + multiset(stale))
  }

  ghost function Begun(n: Node, height: int, round: int, leader: string): Node {
    n.(bft := StartRound(n.bft, height, round, leader),
       dropped := n.dropped + InFlight(n.bft),
       pc := if leader == n.addr then MustPropose else Idle)
  }

  ghost function WithProposal(n: Node, chosen: seq<PendingTx>, hash: string): Node {
    if n.bft.current.None? then n.(pc := Idle)
    else
      var p := ProposalFor(n, chosen, hash);
      n.(pending := n.pending - Hashes(chosen), size := n.size - |chosen|,
         bft := ProposeBlock(n.bft, p),
         pc := MustPrepare(Vote(n.addr, hash, p.height, n.bft.current.value.round)))
  }

  ghost function Prepared(n: Node): Node
    requires n.pc.MustPrepare?
  {
    n.(bft := ReceivePrepareVote(n.bft, n.pc.vote), pc := Idle)
  }

  ghost function Fired(n: Node): Node
    requires n.bft.spawned > 0
  {
    var v := BuildCommitVote(n.bft, n.addr);
    n.(bft := n.bft.(spawned := n.bft.spawned - 1),
       commits := if v.Some? then n.commits + [v.value] else n.commits)
  }

  ghost function Delivered(h: Hasher, n: Node, k: nat, time: string): Node
    requires k < |n.commits| && |n.chain| > 0
  {
    var v := n.commits[k];
    var added := Finalizes(n.bft, v);
    n.(bft := ReceiveCommitVote(n.bft, v), commits := n.commits[..k] + n.commits[k + 1..],
       chain := if added.None? then n.chain else n.chain + [BlockFor(h, n.chain, added.value, time)])
  }

  function BlockFor(h: Hasher, chain: seq<Block>, p: Proposal, time: string): Block
    requires |chain| > 0
  {
    NextBlock(h, chain[|chain| - 1], p.validator, p.transactions, p.totalFees, p.burnedAmount, p.miningReward, time)
  }

  /** b is what finalizeBlock makes of proposal p at the given time. */
  predicate Carries(b: Block, p: Proposal, time: string) {
    && b.validator == p.validator && b.transactions == p.transactions && b.txCount == |p.transactions|
    && b.totalFees == p.totalFees && b.burnedAmount == p.burnedAmount && b.miningReward == p.miningReward
    && b.timestamp == time
  }

  ghost function Next(h: Hasher, n: Node, a: Action): Node
    requires Enabled(n, a) && |n.chain| > 0
  {
    match a
    case SubmitTx(hash, from, to, amount, fee, nonce, now) =>
      Submitted(n, PendingTx(hash, from, to, amount, fee, nonce, now, fee, Pending))
    case CleanUp(now) => CleanedUp(n, now)
    case BeginRound(height, round, leader) => Begun(n, height, round, leader)
    case MakeProposal(now, chosen, hash) => WithProposal(n, chosen, hash)
    case CastPrepare => Prepared(n)
    case FireGoroutine => Fired(n)
    case DeliverCommit(k, time) => Delivered(h, n, k, time)
    case JoinValidator(v) => n.(bft := AddValidator(n.bft, v))
  }

  // ----- Invariant -----

  /** Every accepted submission is accounted for exactly once. */
  ghost predicate Accounted(n: Node) {
    multiset(n.pending.Keys) + InFlight(n.bft) + OnChain(n.chain) + n.dropped + n.expired == multiset(n.submitted)
  }

  /** Between its locked sections StartRound finds the round as it left it. */
  predicate ThreadInStep(n: Node) {
    && (n.pc.MustPropose? ==>
          n.bft.current.Some? && n.bft.current.value.phase == NewRound && n.bft.current.value.proposed.None?)
    && (n.pc.MustPrepare? ==>
          n.bft.current.Some? && n.bft.current.value.phase == Propose
          && n.pc.vote.height == n.bft.current.value.height && n.pc.vote.validator == n.addr)
  }

  ghost predicate Inv(h: Hasher, n: Node) {
    && WellKept(n.pending) && n.size == |n.pending| <= MAX_MEMPOOL_SIZE
    && Built(h, n.chain)
    && ThreadInStep(n)
    && Accounted(n)
  }

  lemma PendingIsSubmitted(n: Node, h: string)
    requires Accounted(n)
    ensures h in n.pending ==> h in n.submitted
  {
    assert multiset(n.submitted)[h] >= multiset(n.pending.Keys)[h];
  }

  lemma OneMore(s: set<string>, h: string)
    requires h !in s
    ensures multiset(s + {h}) == multiset(s) + multiset{h} && |s + {h}| == |s| + 1
  {
  }

  lemma PendingGrows(pending: map<string, PendingTx>, tx: PendingTx)
    requires tx.hash !in pending
    ensures var more := pending[tx.hash := tx];
            |more| == |pending| + 1 && multiset(more.Keys) == multiset(pending.Keys) + multiset{tx.hash}
    ensures WellKept(pending) && tx.status == Pending && tx.priority == tx.fee >= MIN_FEE ==>
              WellKept(pending[tx.hash := tx])
  {
    assert pending[tx.hash := tx].Keys == pending.Keys + {tx.hash};
    OneMore(pending.Keys, tx.hash);
  }

  /** A submission is accepted exactly while the pool has fewer than 10,000 entries and the fee is at
      least 100; then it is pending as submitted, and otherwise nothing changes. */
  lemma SubmitExactly(n: Node, tx: PendingTx)
    requires tx.hash !in n.submitted
    ensures var m := Submitted(n, tx);
            && (tx.hash in m.submitted <==> n.size < 10_000 && tx.fee >= 100)
            && (tx.hash in m.submitted ==> tx.hash in m.pending && m.pending[tx.hash] == tx && m.size == n.size + 1)
            && (tx.hash !in m.submitted ==> m == n)
            && m == n.(pending := m.pending, size := m.size, submitted := m.submitted)
  {
  }

  /** Cleanup expires exactly the entries that are older than an hour. */
  lemma CleanUpExactly(n: Node, now: int, hash: string)
    requires hash in n.pending
    ensures var m := CleanedUp(n, now);
            var stale := now - n.pending[hash].timestamp > 3_600_000_000_000;
            && (hash in m.pending <==> !stale) && m.expired[hash] == n.expired[hash] + (if stale then 1 else 0)
  {
  }

  lemma SubmitKeeps(h: Hasher, n: Node, tx: PendingTx)
    requires Inv(h, n) && tx.hash !in n.submitted && tx.priority == tx.fee && tx.status == Pending
    ensures Inv(h, Submitted(n, tx))
  {
    if n.size < MAX_MEMPOOL_SIZE && tx.fee >= MIN_FEE {
      PendingIsSubmitted(n, tx.hash);
      PendingGrows(n.pending, tx);
      OneMore(n.submitted, tx.hash);
    }
  }

  lemma CleanUpKeeps(h: Hasher, n: Node, now: int)
    requires Inv(h, n)
    ensures Inv(h, CleanedUp(n, now))
  {
    var stale := n.pending.Keys - LiveHashes(n.pending, now);
    MapMinus(n.pending, stale);
    assert (n.pending - stale).Keys == n.pending.Keys - stale;
    assert multiset(n.pending.Keys) == multiset(n.pending.Keys - stale) + multiset(stale);
  }

  lemma {:induction false} HashSeqMultiset(txs: seq<PendingTx>)
    requires Distinct(txs)
    ensures multiset(HashSeq(txs)) == multiset(Hashes(txs))
  {
    if txs != [] {
      var k := |txs| - 1;
      HashSeqMultiset(txs[..k]);
      HashesLast(txs);
      assert HashSeq(txs) == HashSeq(txs[..k]) + [txs[k].hash];
      assert multiset(Hashes(txs[..k]) + {txs[k].hash}) == multiset(Hashes(txs[..k])) + multiset{txs[k].hash};
    } else {
      assert Hashes(txs) == {};
    }
  }

  /** Taking a selection out of the pool moves exactly its hashes. */
  lemma SelectionMoves(pending: map<string, PendingTx>, now: int, chosen: seq<PendingTx>)
    requires Drawn(pending, now, chosen) && Distinct(chosen)
    ensures |pending - Hashes(chosen)| == |pending| - |chosen|
    ensures multiset(pending.Keys) == multiset((pending - Hashes(chosen)).Keys) + multiset(HashSeq(chosen))
  {
    var taken := Hashes(chosen);
    DrawnHashes(pending, now, chosen);
    MapMinus(pending, taken);
    HashSeqMultiset(chosen);
    assert (pending - taken).Keys == pending.Keys - taken;
    assert multiset(pending.Keys) == multiset(pending.Keys - taken) + multiset(taken);
  }

  lemma ProposalInFlight(n: Node, chosen: seq<PendingTx>, hash: string)
    requires ThreadInStep(n) && n.pc.MustPropose?
    ensures InFlight(n.bft) == multiset{}
    ensures InFlight(WithProposal(n, chosen, hash).bft) == multiset(HashSeq(chosen))
  {
  }

  lemma ProposalKeeps(h: Hasher, n: Node, now: int, chosen: seq<PendingTx>, hash: string)
    requires Inv(h, n) && n.pc.MustPropose? && IsSelection(n.pending, now, MAX_TX_PER_BLOCK, chosen)
    ensures Inv(h, WithProposal(n, chosen, hash))
  {
    SelectionMoves(n.pending, now, chosen);
    ProposalInFlight(n, chosen, hash);
  }

  /** A commit vote moves the proposal in flight onto the chain, or moves nothing. */
  lemma CommitMoves(s: State, v: Vote)
    ensures var p := Finalizes(s, v);
            InFlight(s)
            == InFlight(ReceiveCommitVote(s, v)) + (if p.Some? then multiset(p.value.transactions) else multiset{})
    ensures Finalizes(s, v).None? && s.current.Some? ==>
              var t := ReceiveCommitVote(s, v);
              t.current.Some? && t.current.value.phase == s.current.value.phase
              && t.current.value.height == s.current.value.height
              && t.current.value.proposed == s.current.value.proposed
    ensures Finalizes(s, v).Some? ==> s.current.Some? && s.current.value.phase == Commit
  {
  }

  lemma ChainGrows(h: Hasher, chain: seq<Block>, p: Proposal, time: string)
    requires Built(h, chain) && IsTimestamp(time)
    ensures var longer := chain + [BlockFor(h, chain, p, time)];
            Built(h, longer) && OnChain(longer) == OnChain(chain) + multiset(p.transactions)
  {
    var b := BlockFor(h, chain, p, time);
    BuiltGrows(h, chain, b);
    assert (chain + [b])[..|chain|] == chain;
  }

  lemma DeliverKeeps(h: Hasher, n: Node, k: nat, time: string)
    requires Inv(h, n) && k < |n.commits| && IsTimestamp(time)
    ensures Inv(h, Delivered(h, n, k, time))
  {
    CommitMoves(n.bft, n.commits[k]);
    var m := Delivered(h, n, k, time);
    var added := Finalizes(n.bft, n.commits[k]);
    if added.Some? {
      ChainGrows(h, n.chain, added.value, time);
      assert OnChain(m.chain) == OnChain(n.chain) + multiset(added.value.transactions);
    }
    assert InFlight(m.bft) + OnChain(m.chain) == InFlight(n.bft) + OnChain(n.chain);
  }

  /** Replacing a round drops the proposal it had in flight. */
  lemma BeginKeeps(h: Hasher, n: Node, height: int, round: int, leader: string)
    requires Inv(h, n)
    ensures Inv(h, Begun(n, height, round, leader))
  {
    assert InFlight(Begun(n, height, round, leader).bft) == multiset{};
  }

  lemma PrepareKeeps(h: Hasher, n: Node)
    requires Inv(h, n) && n.pc.MustPrepare?
    ensures Inv(h, Prepared(n))
  {
    assert InFlight(Prepared(n).bft) == InFlight(n.bft);
  }

  lemma FireKeeps(h: Hasher, n: Node)
    requires Inv(h, n) && n.bft.spawned > 0
    ensures Inv(h, Fired(n))
  {
    assert InFlight(Fired(n).bft) == InFlight(n.bft);
  }

  lemma JoinKeeps(h: Hasher, n: Node, v: string)
    requires Inv(h, n)
    ensures Inv(h, n.(bft := AddValidator(n.bft, v)))
  {
    assert InFlight(AddValidator(n.bft, v)) == InFlight(n.bft);
  }

  /** Every step keeps the invariant. */
  lemma StepKeeps(h: Hasher, n: Node, a: Action)
    requires Inv(h, n) && Enabled(n, a)
    ensures Inv(h, Next(h, n, a))
  {
    match a
    case SubmitTx(hash, from, to, amount, fee, nonce, now) =>
      SubmitKeeps(h, n, PendingTx(hash, from, to, amount, fee, nonce, now, fee, Pending));
    case CleanUp(now) => CleanUpKeeps(h, n, now);
    case MakeProposal(now, chosen, hash) => ProposalKeeps(h, n, now, chosen, hash);
    case DeliverCommit(k, time) => DeliverKeeps(h, n, k, time);
    case BeginRound(height, round, leader) => BeginKeeps(h, n, height, round, leader);
    case CastPrepare => PrepareKeeps(h, n);
    case FireGoroutine => FireKeeps(h, n);
    case JoinValidator(v) => JoinKeeps(h, n, v);
  }

  // ----- Runs -----

  ghost function Fresh(h: Hasher, addr: string, validators: seq<string>): Node {
    Node(addr, map[], 0, Initial(validators), [Genesis(h)], Idle, [], {}, multiset{}, multiset{})
  }

  ghost predicate StepsTo(h: Hasher, n: Node, a: Action, m: Node) {
    Enabled(n, a) && |n.chain| > 0 && m == Next(h, n, a)
  }

  ghost predicate StepAt(h: Hasher, run: seq<Node>, actions: seq<Action>, i: nat)
    requires i < |actions| < |run|
  {
    StepsTo(h, run[i], actions[i], run[i + 1])
  }

  /** States and the actions between them. */
  ghost predicate IsPath(h: Hasher, run: seq<Node>, actions: seq<Action>) {
    && |run| == |actions| + 1
    && forall i :: 0 <= i < |actions| ==> StepAt(h, run, actions, i)
  }

  ghost predicate IsRun(h: Hasher, addr: string, validators: seq<string>, run: seq<Node>, actions: seq<Action>) {
    IsPath(h, run, actions) && run[0] == Fresh(h, addr, validators)
  }

  lemma FreshInv(h: Hasher, addr: string, validators: seq<string>)
    ensures Inv(h, Fresh(h, addr, validators))
  {
    assert [Genesis(h)][..0] == [];
    assert OnChain([Genesis(h)]) == multiset{};
  }

  lemma {:induction false} RunInv(h: Hasher, addr: string, validators: seq<string>,
                                  run: seq<Node>, actions: seq<Action>, i: nat)
    requires IsRun(h, addr, validators, run, actions) && i < |run|
    ensures Inv(h, run[i])
  {
    if i == 0 {
      FreshInv(h, addr, validators);
    } else {
      RunInv(h, addr, validators, run, actions, i - 1);
      InvNext(h, run, actions, i);
    }
  }

  lemma InvNext(h: Hasher, run: seq<Node>, actions: seq<Action>, i: nat)
    requires IsPath(h, run, actions) && 0 < i < |run| && Inv(h, run[i - 1])
    ensures Inv(h, run[i])
  {
    assert StepAt(h, run, actions, i - 1);
    StepKeeps(h, run[i - 1], actions[i - 1]);
  }

  lemma PlacedOnce(h: Hasher, n: Node, hash: string)
    requires Inv(h, n)
    ensures (if hash in n.pending then 1 else 0) + InFlight(n.bft)[hash] + OnChain(n.chain)[hash]
            + n.dropped[hash] + n.expired[hash] == (if hash in n.submitted then 1 else 0)
  {
    assert (multiset(n.pending.Keys) + InFlight(n.bft) + OnChain(n.chain) + n.dropped + n.expired)[hash]
        == multiset(n.submitted)[hash];
  }

  /** In every state of every interleaving, an accepted transaction is in exactly one place
      (pending, in a proposal in flight, on the chain, lost with a dropped round, or expired),
      once there, and nothing else is anywhere; so no hash is on the chain twice. The pool
      counter counts the pool, and the chain validates. */
  lemma EveryTransactionInOnePlace(h: Hasher, addr: string, validators: seq<string>,
                                   run: seq<Node>, actions: seq<Action>, i: nat, hash: string)
    requires IsRun(h, addr, validators, run, actions) && i < |run|
    ensures var n := run[i];
            && (if hash in n.pending then 1 else 0) + InFlight(n.bft)[hash] + OnChain(n.chain)[hash]
               + n.dropped[hash] + n.expired[hash]
               == (if hash in n.submitted then 1 else 0)
            && OnChain(n.chain)[hash] <= 1
            && n.size == |n.pending| <= MAX_MEMPOOL_SIZE
            && ChainValid(h, n.chain)
  {
    RunInv(h, addr, validators, run, actions, i);
    var n := run[i];
    BuiltIsValid(h, n.chain);
    PlacedOnce(h, n, hash);
  }

  /** Nothing that was accepted is ever forgotten, and blocks are only ever appended. */
  ghost predicate Grows(n: Node, m: Node) {
    n.submitted <= m.submitted && n.chain <= m.chain && n.dropped <= m.dropped && n.expired <= m.expired
  }

  lemma StepGrows(h: Hasher, n: Node, a: Action)
    requires Enabled(n, a) && |n.chain| > 0
    ensures Grows(n, Next(h, n, a))
  {
    match a
    case DeliverCommit(k, time) =>
      assert n.chain <= Delivered(h, n, k, time).chain;
    case BeginRound(height, round, leader) =>
      assert n.dropped <= Begun(n, height, round, leader).dropped;
    case CleanUp(now) =>
      assert n.expired <= CleanedUp(n, now).expired;
    case _ =>
  }

  lemma GrowsNext(h: Hasher, run: seq<Node>, actions: seq<Action>, i: nat)
    requires IsPath(h, run, actions) && 0 < i < |run|
    ensures Grows(run[i - 1], run[i])
  {
    assert StepAt(h, run, actions, i - 1);
    StepGrows(h, run[i - 1], actions[i - 1]);
  }

  lemma GrowsNot(n: Node)
    ensures Grows(n, n) && OnChain(n.chain) <= OnChain(n.chain)
  {
  }

  lemma GrowsOn(n: Node, m: Node, k: Node)
    requires Grows(n, m) && Grows(m, k)
    ensures Grows(n, k) && OnChain(n.chain) <= OnChain(k.chain)
  {
    OnChainGrows(n.chain, k.chain);
  }

  lemma {:induction false} OnChainGrows(a: seq<Block>, b: seq<Block>)
    requires a <= b
    ensures OnChain(a) <= OnChain(b)
    decreases |b|
  {
    if |a| < |b| {
      OnChainGrows(a, b[..|b| - 1]);
    } else {
      assert a == b;
    }
  }

  /** Between any two states of a path blocks were only appended, so what is on the chain stays on
      it; what was dropped or has expired stays lost; and no submission is forgotten. */
  lemma {:induction false} PathGrows(h: Hasher, run: seq<Node>, actions: seq<Action>, i: nat, j: nat)
    requires IsPath(h, run, actions) && i <= j < |run|
    ensures Grows(run[i], run[j]) && OnChain(run[i].chain) <= OnChain(run[j].chain)
    decreases j
  {
    if i < j {
      PathGrows(h, run, actions, i, j - 1);
      GrowsNext(h, run, actions, j);
      GrowsOn(run[i], run[j - 1], run[j]);
    } else {
      GrowsNot(run[i]);
    }
  }

  // ----- What becomes of a proposal -----

  /** All votes that the node has recorded or is about to deliver are its own. */
  predicate OwnVotes(n: Node) {
    && n.bft.quorum == Quorum(|n.bft.validators|)
    && (forall k :: 0 <= k < |n.commits| ==> n.commits[k].validator == n.addr)
    && (n.bft.current.Some? ==> n.bft.current.value.commitVotes.Keys <= {n.addr})
  }

  lemma StepOwnVotes(h: Hasher, n: Node, a: Action)
    requires OwnVotes(n) && Enabled(n, a) && |n.chain| > 0
    ensures OwnVotes(Next(h, n, a)) && Next(h, n, a).addr == n.addr
  {
    match a
    case DeliverCommit(k, time) =>
      assert n.commits[k].validator == n.addr;
    case _ =>
  }

  /** The action delivers a vote for the current height while the node is its only validator. */
  predicate Commits(n: Node, a: Action) {
    && a.DeliverCommit? && a.k < |n.commits|
    && |n.bft.validators| <= 1 && n.bft.current.Some? && n.bft.current.value.phase == Commit
    && n.commits[a.k].height == n.bft.current.value.height
  }

  /** With only its own votes, a delivery appends the proposal exactly when it commits. */
  lemma OwnCommitFinalizes(n: Node, a: Action)
    requires OwnVotes(n) && a.DeliverCommit? && a.k < |n.commits|
    requires n.bft.current.Some? && n.bft.current.value.proposed.Some?
    ensures Finalizes(n.bft, n.commits[a.k]).Some? <==> Commits(n, a)
  {
    var v, r := n.commits[a.k], n.bft.current.value;
    var votes := r.commitVotes[v.validator := v];
    assert votes.Keys == {n.addr};
    assert |votes| == |votes.Keys| == 1;
  }

  /** The thread is idle and the round holds proposal p in this phase. */
  predicate Holds(n: Node, p: Proposal, phase: Phase) {
    && n.pc.Idle? && phase != Finalized && n.bft.current.Some?
    && n.bft.current.value.proposed == Some(p) && n.bft.current.value.phase == phase
  }

  /** One step of a node that holds a proposal: it drops it, appends it, or keeps it. */
  lemma StepFate(h: Hasher, n: Node, a: Action, p: Proposal, phase: Phase)
    requires OwnVotes(n) && Enabled(n, a) && |n.chain| > 0 && Holds(n, p, phase)
    ensures var m := Next(h, n, a);
            if a.BeginRound? then m.dropped == n.dropped + multiset(p.transactions)
            else if Commits(n, a) then OnChain(m.chain) == OnChain(n.chain) + multiset(p.transactions)
            else Holds(m, p, phase)
  {
    match a
    case DeliverCommit(k, time) =>
      OwnCommitFinalizes(n, a);
      if Commits(n, a) {
        var b := BlockFor(h, n.chain, p, time);
        assert (n.chain + [b])[..|n.chain|] == n.chain;
      }
    case _ =>
  }

  predicate RoundBegins(actions: seq<Action>, i: nat, j: nat)
    requires i <= j <= |actions|
  {
    exists b :: i <= b < j && actions[b].BeginRound?
  }

  /** A committing delivery happens between i and j, before a new round begins. */
  predicate CommitsFirst(run: seq<Node>, actions: seq<Action>, i: nat, j: nat)
    requires i <= j <= |actions| < |run|
  {
    exists k :: i <= k < j && Commits(run[k], actions[k]) && !RoundBegins(actions, i, k)
  }

  /** Where a transaction of proposal p is once it has been committed, or a new round has begun. */
  ghost predicate FateAt(n: Node, committed: bool, begun: bool, p: Proposal, phase: Phase, hash: string) {
    && OwnVotes(n)
    && (if committed then hash in OnChain(n.chain) else if begun then hash in n.dropped else Holds(n, p, phase))
  }

  lemma FateStep(h: Hasher, n: Node, a: Action, m: Node, committed: bool, begun: bool,
                 p: Proposal, phase: Phase, hash: string)
    requires StepsTo(h, n, a, m) && hash in p.transactions && FateAt(n, committed, begun, p, phase, hash)
    ensures FateAt(m, committed || (Commits(n, a) && !begun), begun || a.BeginRound?, p, phase, hash)
  {
    StepOwnVotes(h, n, a);
    StepGrows(h, n, a);
    OnChainGrows(n.chain, m.chain);
    if !committed && !begun {
      StepFate(h, n, a, p, phase);
    }
  }

  lemma FateNext(h: Hasher, run: seq<Node>, actions: seq<Action>, i: nat, j: nat,
                 p: Proposal, phase: Phase, hash: string)
    requires IsPath(h, run, actions) && i < j < |run| && hash in p.transactions
    requires FateAt(run[j - 1], CommitsFirst(run, actions, i, j - 1), RoundBegins(actions, i, j - 1), p, phase, hash)
    ensures FateAt(run[j], CommitsFirst(run, actions, i, j), RoundBegins(actions, i, j), p, phase, hash)
  {
    var c, b := CommitsFirst(run, actions, i, j - 1), RoundBegins(actions, i, j - 1);
    assert StepAt(h, run, actions, j - 1);
    FateStep(h, run[j - 1], actions[j - 1], run[j], c, b, p, phase, hash);
    LastAction(run, actions, i, j);
  }

  lemma {:induction false} PathFate(h: Hasher, run: seq<Node>, actions: seq<Action>, i: nat, j: nat,
                                    p: Proposal, phase: Phase, hash: string)
    requires IsPath(h, run, actions) && i <= j < |run|
    requires OwnVotes(run[i]) && Holds(run[i], p, phase) && hash in p.transactions
    ensures FateAt(run[j], CommitsFirst(run, actions, i, j), RoundBegins(actions, i, j), p, phase, hash)
    decreases j
  {
    if i < j {
      PathFate(h, run, actions, i, j - 1, p, phase, hash);
      FateNext(h, run, actions, i, j, p, phase, hash);
    }
  }

  lemma LastAction(run: seq<Node>, actions: seq<Action>, i: nat, j: nat)
    requires i < j <= |actions| < |run|
    ensures RoundBegins(actions, i, j) <==> RoundBegins(actions, i, j - 1) || actions[j - 1].BeginRound?
    ensures CommitsFirst(run, actions, i, j)
       <==> CommitsFirst(run, actions, i, j - 1)
            || (Commits(run[j - 1], actions[j - 1]) && !RoundBegins(actions, i, j - 1))
  {
  }

  lemma {:induction false} RunOwnVotes(h: Hasher, addr: string, validators: seq<string>,
                                       run: seq<Node>, actions: seq<Action>, i: nat)
    requires IsRun(h, addr, validators, run, actions) && i < |run|
    ensures OwnVotes(run[i]) && run[i].addr == addr
  {
    if i > 0 {
      RunOwnVotes(h, addr, validators, run, actions, i - 1);
      OwnVotesNext(h, run, actions, i);
    }
  }

  lemma OwnVotesNext(h: Hasher, run: seq<Node>, actions: seq<Action>, i: nat)
    requires IsPath(h, run, actions) && 0 < i < |run| && OwnVotes(run[i - 1])
    ensures OwnVotes(run[i]) && run[i].addr == run[i - 1].addr
  {
    assert StepAt(h, run, actions, i - 1);
    StepOwnVotes(h, run[i - 1], actions[i - 1]);
  }

  /** In every interleaving, a transaction that is in a proposal when StartRound returns is on the
      chain later if and only if, before the next round began, a commit vote for the round's height
      was delivered while the round was in Commit and the node had no second validator. Otherwise
      the next round drops it, and until then it stays in flight. */
  lemma ProposalFate(h: Hasher, addr: string, validators: seq<string>,
                     run: seq<Node>, actions: seq<Action>, i: nat, j: nat, hash: string)
    requires IsRun(h, addr, validators, run, actions) && i <= j < |run|
    requires run[i].pc.Idle? && hash in InFlight(run[i].bft)
    ensures hash in OnChain(run[j].chain) <==> CommitsFirst(run, actions, i, j)
    ensures hash in run[j].dropped <==> !CommitsFirst(run, actions, i, j) && RoundBegins(actions, i, j)
    ensures hash in InFlight(run[j].bft) <==> !CommitsFirst(run, actions, i, j) && !RoundBegins(actions, i, j)
  {
    var r := run[i].bft.current.value;
    RunOwnVotes(h, addr, validators, run, actions, i);
    PathFate(h, run, actions, i, j, r.proposed.value, r.phase, hash);
    RunInv(h, addr, validators, run, actions, j);
    PlacedOnce(h, run[j], hash);
  }

  // ----- Where blocks come from -----

  /** The action proposes these contents: what proposeBlock computes from the selection. */
  predicate Proposes(a: Action, addr: string, validator: string, txs: seq<string>,
                     fees: int, burned: int, reward: int) {
    && a.MakeProposal? && validator == addr && txs == HashSeq(a.chosen)
    && fees == I64(FeeSum(a.chosen)) && burned == Burned(I64(FeeSum(a.chosen))) && reward == 50_000_000
  }

  predicate ProposedBefore(actions: seq<Action>, i: nat, addr: string, validator: string, txs: seq<string>,
                           fees: int, burned: int, reward: int)
    requires i <= |actions|
  {
    exists k :: 0 <= k < i && Proposes(actions[k], addr, validator, txs, fees, burned, reward)
  }

  predicate BlockSourced(actions: seq<Action>, i: nat, addr: string, b: Block)
    requires i <= |actions|
  {
    ProposedBefore(actions, i, addr, b.validator, b.transactions, b.totalFees, b.burnedAmount, b.miningReward)
  }

  predicate ChainSourced(actions: seq<Action>, i: nat, addr: string, chain: seq<Block>)
    requires i <= |actions|
  {
    forall j :: 1 <= j < |chain| ==> BlockSourced(actions, i, addr, chain[j])
  }

  predicate ProposalSourced(actions: seq<Action>, i: nat, n: Node)
    requires i <= |actions|
  {
    n.bft.current.Some? && n.bft.current.value.proposed.Some? ==>
      var p := n.bft.current.value.proposed.value;
      ProposedBefore(actions, i, n.addr, p.validator, p.transactions, p.totalFees, p.burnedAmount, p.miningReward)
  }

  /** A step keeps the proposal, starts without one, or proposes as the action says. */
  lemma StepProposal(h: Hasher, n: Node, a: Action)
    requires Enabled(n, a) && |n.chain| > 0
    ensures var m := Next(h, n, a);
            m.addr == n.addr
            && (m.bft.current.Some? && m.bft.current.value.proposed.Some? ==>
                  var p := m.bft.current.value.proposed.value;
                  || (n.bft.current.Some? && n.bft.current.value.proposed == Some(p))
                  || Proposes(a, n.addr, p.validator, p.transactions, p.totalFees, p.burnedAmount, p.miningReward))
  {
  }

  /** A step appends nothing, or one block that carries the current proposal. */
  lemma StepBlock(h: Hasher, n: Node, a: Action)
    requires Enabled(n, a) && |n.chain| > 0
    ensures var m := Next(h, n, a);
            m.chain == n.chain
            || (&& a.DeliverCommit? && |m.chain| == |n.chain| + 1 && n.chain <= m.chain
                && n.bft.current.Some? && n.bft.current.value.proposed.Some?
                && Carries(m.chain[|n.chain|], n.bft.current.value.proposed.value, a.time))
  {
    match a
    case DeliverCommit(k, time) => DeliverBlock(h, n, k, time);
    case _ =>
  }

  lemma DeliverBlock(h: Hasher, n: Node, k: nat, time: string)
    requires k < |n.commits| && |n.chain| > 0
    ensures var m := Delivered(h, n, k, time);
            m.chain == n.chain
            || (&& |m.chain| == |n.chain| + 1 && n.chain <= m.chain
                && n.bft.current.Some? && n.bft.current.value.proposed.Some?
                && Carries(m.chain[|n.chain|], n.bft.current.value.proposed.value, time))
  {
    var added := Finalizes(n.bft, n.commits[k]);
    if added.Some? {
      BlockCarries(h, n.chain, added.value, time);
    }
  }

  lemma BlockCarries(h: Hasher, chain: seq<Block>, p: Proposal, time: string)
    requires |chain| > 0
    ensures Carries(BlockFor(h, chain, p, time), p, time)
  {
  }

  lemma SourcedLater(actions: seq<Action>, i: nat, addr: string, validator: string, txs: seq<string>,
                     fees: int, burned: int, reward: int)
    requires i < |actions|
    ensures ProposedBefore(actions, i, addr, validator, txs, fees, burned, reward)
            || Proposes(actions[i], addr, validator, txs, fees, burned, reward)
            ==> ProposedBefore(actions, i + 1, addr, validator, txs, fees, burned, reward)
  {
  }

  lemma {:induction false} RunSourced(h: Hasher, addr: string, validators: seq<string>,
                                      run: seq<Node>, actions: seq<Action>, i: nat)
    requires IsRun(h, addr, validators, run, actions) && i < |run|
    ensures run[i].addr == addr && |run[i].chain| > 0 && ProposalSourced(actions, i, run[i])
    ensures ChainSourced(actions, i, addr, run[i].chain)
  {
    if i > 0 {
      RunSourced(h, addr, validators, run, actions, i - 1);
      SourcedNext(h, addr, run, actions, i);
    }
  }

  lemma SourcedNext(h: Hasher, addr: string, run: seq<Node>, actions: seq<Action>, i: nat)
    requires IsPath(h, run, actions) && 0 < i < |run|
    requires run[i - 1].addr == addr && |run[i - 1].chain| > 0 && ProposalSourced(actions, i - 1, run[i - 1])
    requires ChainSourced(actions, i - 1, addr, run[i - 1].chain)
    ensures run[i].addr == addr && |run[i].chain| > 0 && ProposalSourced(actions, i, run[i])
    ensures ChainSourced(actions, i, addr, run[i].chain)
  {
    var n, a, m := run[i - 1], actions[i - 1], run[i];
    assert StepAt(h, run, actions, i - 1);
    StepProposal(h, n, a);
    StepBlock(h, n, a);
    if m.bft.current.Some? && m.bft.current.value.proposed.Some? {
      var p := m.bft.current.value.proposed.value;
      SourcedLater(actions, i - 1, addr, p.validator, p.transactions, p.totalFees, p.burnedAmount, p.miningReward);
    }
    forall j | 1 <= j < |m.chain|
      ensures BlockSourced(actions, i, addr, m.chain[j])
    {
      var b := m.chain[j];
      assert j < |n.chain| ==> b == n.chain[j];
      SourcedLater(actions, i - 1, addr, b.validator, b.transactions, b.totalFees, b.burnedAmount, b.miningReward);
    }
  }

  /** Every block of every run after genesis carries what one of the node's proposals computed from
      its selection: the hashes in order, the int64 fee total, its burn, the reward and the node. */
  lemma BlocksComeFromProposals(h: Hasher, addr: string, validators: seq<string>,
                                run: seq<Node>, actions: seq<Action>, i: nat, j: nat) returns (k: nat)
    requires IsRun(h, addr, validators, run, actions) && i < |run| && 1 <= j < |run[i].chain|
    ensures k < i && actions[k].MakeProposal?
    ensures var b, chosen := run[i].chain[j], actions[k].chosen;
            && b.validator == addr && b.transactions == HashSeq(chosen) && b.totalFees == I64(FeeSum(chosen))
            && b.burnedAmount == Burned(I64(FeeSum(chosen))) && b.miningReward == 50_000_000
  {
    RunSourced(h, addr, validators, run, actions, i);
    var b := run[i].chain[j];
    assert BlockSourced(actions, i, addr, b);
    k :| 0 <= k < i && Proposes(actions[k], addr, b.validator, b.transactions, b.totalFees, b.burnedAmount,
                                b.miningReward);
  }

  // ----- Heights -----

  /** How many rounds have begun before action k. */
  function Rounds(actions: seq<Action>, k: nat): nat
    requires k <= |actions|
  {
    if k == 0 then 0 else Rounds(actions, k - 1) + if actions[k - 1].BeginRound? then 1 else 0
  }

  predicate Unfinished(n: Node) {
    n.bft.current.Some? && n.bft.current.value.phase != Finalized
  }

  /** How many of them replaced a round that had not appended its block. */
  function LostRounds(run: seq<Node>, actions: seq<Action>, k: nat): nat
    requires k <= |actions| < |run|
  {
    if k == 0 then 0
    else LostRounds(run, actions, k - 1) + if actions[k - 1].BeginRound? && Unfinished(run[k - 1]) then 1 else 0
  }

  lemma {:induction false} NoneLost(run: seq<Node>, actions: seq<Action>, k: nat)
    requires k <= |actions| < |run|
    ensures LostRounds(run, actions, k) == 0
       <==> forall b :: 0 <= b < k ==> !(actions[b].BeginRound? && Unfinished(run[b]))
  {
    if k > 0 {
      NoneLost(run, actions, k - 1);
    }
  }

  /** The loop of the application raises the height with every round, whether or not the round before
      appended its block. */
  predicate Numbered(actions: seq<Action>) {
    forall b :: 0 <= b < |actions| && actions[b].BeginRound? ==> actions[b].height == Rounds(actions, b) + 1
  }

  /** Each round has appended its block, was lost, or is under way; its number is its height. */
  predicate RoundsAdd(n: Node, rounds: nat, lost: nat) {
    && |n.chain| + lost + (if Unfinished(n) then 1 else 0) == rounds + 1
    && (n.bft.current.Some? ==>
          && n.bft.current.value.height == rounds
          && (n.bft.current.value.proposed.Some? ==> n.bft.current.value.proposed.value.height == rounds))
  }

  lemma StepRoundsAdd(h: Hasher, n: Node, a: Action, rounds: nat, lost: nat)
    requires Enabled(n, a) && |n.chain| > 0 && ThreadInStep(n) && RoundsAdd(n, rounds, lost)
    requires a.BeginRound? ==> a.height == rounds + 1
    ensures if a.BeginRound? then RoundsAdd(Next(h, n, a), rounds + 1, if Unfinished(n) then lost + 1 else lost)
            else RoundsAdd(Next(h, n, a), rounds, lost)
  {
    match a
    case DeliverCommit(k, time) => DeliverRoundsAdd(h, n, k, time, rounds, lost);
    case _ =>
  }

  lemma DeliverRoundsAdd(h: Hasher, n: Node, k: nat, time: string, rounds: nat, lost: nat)
    requires k < |n.commits| && |n.chain| > 0 && RoundsAdd(n, rounds, lost)
    ensures RoundsAdd(Delivered(h, n, k, time), rounds, lost)
  {
    CommitMoves(n.bft, n.commits[k]);
  }

  lemma RoundsNext(h: Hasher, run: seq<Node>, actions: seq<Action>, i: nat)
    requires IsPath(h, run, actions) && Numbered(actions) && 0 < i < |run| && ThreadInStep(run[i - 1])
    requires RoundsAdd(run[i - 1], Rounds(actions, i - 1), LostRounds(run, actions, i - 1))
    ensures RoundsAdd(run[i], Rounds(actions, i), LostRounds(run, actions, i))
  {
    assert StepAt(h, run, actions, i - 1);
    StepRoundsAdd(h, run[i - 1], actions[i - 1], Rounds(actions, i - 1), LostRounds(run, actions, i - 1));
  }

  lemma RunThread(h: Hasher, addr: string, validators: seq<string>, run: seq<Node>, actions: seq<Action>, i: nat)
    requires IsRun(h, addr, validators, run, actions) && i < |run|
    ensures ThreadInStep(run[i])
  {
    RunInv(h, addr, validators, run, actions, i);
  }

  lemma {:induction false} RunRoundsAdd(h: Hasher, addr: string, validators: seq<string>,
                                        run: seq<Node>, actions: seq<Action>, i: nat)
    requires IsRun(h, addr, validators, run, actions) && Numbered(actions) && i < |run|
    ensures RoundsAdd(run[i], Rounds(actions, i), LostRounds(run, actions, i))
  {
    if i > 0 {
      RunRoundsAdd(h, addr, validators, run, actions, i - 1);
      RunThread(h, addr, validators, run, actions, i - 1);
      RoundsNext(h, run, actions, i);
    }
  }

  /** The block that a delivery appends is lower than the one the votes were for by exactly the number
      of rounds lost before; the heights agree if and only if no round was lost. */
  lemma HeightsDrift(h: Hasher, addr: string, validators: seq<string>,
                     run: seq<Node>, actions: seq<Action>, k: nat)
    requires IsRun(h, addr, validators, run, actions) && Numbered(actions) && k < |actions|
    requires actions[k].DeliverCommit? && actions[k].k < |run[k].commits|
    requires Finalizes(run[k].bft, run[k].commits[actions[k].k]).Some?
    ensures var p := Finalizes(run[k].bft, run[k].commits[actions[k].k]).value;
            && |run[k + 1].chain| == |run[k].chain| + 1
            && var b := run[k + 1].chain[|run[k].chain|];
               && Carries(b, p, actions[k].time) && p.height == b.height + LostRounds(run, actions, k)
               && (p.height == b.height
                   <==> forall j :: 0 <= j < k ==> !(actions[j].BeginRound? && Unfinished(run[j])))
  {
    RunRoundsAdd(h, addr, validators, run, actions, k);
    RunInv(h, addr, validators, run, actions, k + 1);
    assert StepAt(h, run, actions, k);
    BuiltIsValid(h, run[k + 1].chain);
    NoneLost(run, actions, k);
  }

  // ----- When blocks are produced at all -----

  /** The node's own vote is no quorum, or it is never the leader: no round leaves Prepare. */
  predicate Waiting(h: Hasher, n: Node) {
    && n.bft.validators != [] && n.bft.validators != [n.addr]
    && (|n.bft.validators| == 1 ==> n.pc.Idle?)
    && n.bft.quorum == Quorum(|n.bft.validators|)
    && n.bft.spawned == 0 && n.commits == [] && n.chain == [Genesis(h)] && n.bft.totalBlocks == 0
    && (n.pc.MustPrepare? ==> n.pc.vote.validator == n.addr)
    && (n.bft.current.Some? ==>
          && n.bft.current.value.phase !in {Commit, Finalized}
          && n.bft.current.value.prepareVotes.Keys <= {n.addr})
  }

  lemma StepWaits(h: Hasher, n: Node, a: Action)
    requires Waiting(h, n) && Enabled(n, a)
    ensures Waiting(h, Next(h, n, a)) && Next(h, n, a).addr == n.addr
  {
    if a.CastPrepare? && n.bft.current.Some? {
      var votes := n.bft.current.value.prepareVotes[n.pc.vote.validator := n.pc.vote];
      assert votes.Keys <= {n.addr};
      SubsetSize(votes.Keys, {n.addr});
    }
  }

  /** A node started with any other validator never appends a block, in any interleaving: the only
      prepare vote of a round is its own, and every proposal it makes is lost. */
  lemma {:induction false} NoBlockWithPeers(h: Hasher, addr: string, validators: seq<string>,
                                            run: seq<Node>, actions: seq<Action>, i: nat)
    requires IsRun(h, addr, validators, run, actions) && i < |run| && validators != [] && validators != [addr]
    ensures Waiting(h, run[i]) && run[i].addr == addr && run[i].chain == [Genesis(h)]
  {
    if i > 0 {
      NoBlockWithPeers(h, addr, validators, run, actions, i - 1);
      assert StepAt(h, run, actions, i - 1);
      StepWaits(h, run[i - 1], actions[i - 1]);
    }
  }

  /** After the three locked sections of StartRound, a sole validator is in Commit with one
      goroutine to run. */
  lemma SoloPrepares(h: Hasher, n: Node, height: int, round: int, chosen: seq<PendingTx>, hash: string)
    requires n.bft.quorum == Quorum(1)
    ensures var m := WithProposal(Begun(n, height, round, n.addr), chosen, hash);
            && m.pc == MustPrepare(Vote(n.addr, hash, height, round))
            && var r := Prepared(m).bft.current;
               && r.Some? && r.value.phase == Commit && r.value.height == height && r.value.round == round
               && r.value.commitVotes == map[]
               && r.value.proposed == Some(ProposalFor(Begun(n, height, round, n.addr), chosen, hash))
               && Prepared(m).bft.spawned == n.bft.spawned + 1 && Prepared(m).bft.quorum == 1
               && Prepared(m).chain == n.chain && Prepared(m).commits == n.commits && Prepared(m).addr == n.addr
  {
    var own := Vote(n.addr, hash, height, round);
    var empty: map<string, Vote> := map[];
    assert empty[n.addr := own].Keys == {n.addr};
  }

  /** From Commit with quorum one, running the goroutine and delivering its vote appends the proposal. */
  lemma SoloCommits(h: Hasher, n: Node, time: string)
    requires n.bft.current.Some? && n.bft.current.value.phase == Commit && n.bft.current.value.proposed.Some?
    requires n.bft.current.value.commitVotes == map[] && n.bft.quorum == 1 && n.bft.spawned > 0 && |n.chain| > 0
    ensures var f := Fired(n);
            && |f.commits| == |n.commits| + 1 && f.chain == n.chain
            && var m := Delivered(h, f, |n.commits|, time);
               && m.chain == n.chain + [BlockFor(h, n.chain, n.bft.current.value.proposed.value, time)]
               && m.bft.current.Some? && m.bft.current.value.phase == Finalized && m.pc == n.pc
  {
    var v := BuildCommitVote(n.bft, n.addr).value;
    var empty: map<string, Vote> := map[];
    assert empty[n.addr := v].Keys == {n.addr};
    assert Fired(n).commits[|n.commits|] == v;
  }

  /** A round of a sole validator as far as StartRound takes it. */
  ghost function SoloRound(n: Node, height: int, round: int, chosen: seq<PendingTx>, hash: string): Node {
    Prepared(WithProposal(Begun(n, height, round, n.addr), chosen, hash))
  }

  /** From any idle state a sole validator can run StartRound with any selection, and then hold it. */
  lemma SoloStartsRound(h: Hasher, n: Node, height: int, round: int, now: int, chosen: seq<PendingTx>, hash: string)
    returns (run: seq<Node>, actions: seq<Action>)
    requires Inv(h, n) && n.pc.Idle? && n.bft.validators == [n.addr] && n.bft.quorum == Quorum(1)
    requires IsSelection(n.pending, now, MAX_TX_PER_BLOCK, chosen)
    ensures IsPath(h, run, actions) && run[0] == n && |actions| == 3
    ensures var m := run[3];
            && m == SoloRound(n, height, round, chosen, hash) && Inv(h, m)
            && m.pc.Idle? && InFlight(m.bft) == multiset(HashSeq(chosen)) && m.chain == n.chain
            && m.bft.validators == n.bft.validators && m.addr == n.addr
  {
    var n1, n2, n3 := SoloSteps(h, n, height, round, now, chosen, hash);
    InvStep(h, n, BeginRound(height, round, n.addr), n1);
    InvStep(h, n1, MakeProposal(now, chosen, hash), n2);
    InvStep(h, n2, CastPrepare, n3);
    run, actions := ThreeSteps(h, n, BeginRound(height, round, n.addr), n1, MakeProposal(now, chosen, hash), n2,
                               CastPrepare, n3);
  }

  lemma InvStep(h: Hasher, n: Node, a: Action, m: Node)
    requires Inv(h, n) && StepsTo(h, n, a, m)
    ensures Inv(h, m)
  {
    StepKeeps(h, n, a);
  }

  lemma SoloSteps(h: Hasher, n: Node, height: int, round: int, now: int, chosen: seq<PendingTx>, hash: string)
    returns (n1: Node, n2: Node, n3: Node)
    requires |n.chain| > 0 && n.pc.Idle? && n.bft.validators == [n.addr] && n.bft.quorum == Quorum(1)
    requires IsSelection(n.pending, now, MAX_TX_PER_BLOCK, chosen)
    ensures StepsTo(h, n, BeginRound(height, round, n.addr), n1)
    ensures StepsTo(h, n1, MakeProposal(now, chosen, hash), n2) && StepsTo(h, n2, CastPrepare, n3)
    ensures n3 == SoloRound(n, height, round, chosen, hash)
    ensures n3.pc.Idle? && InFlight(n3.bft) == multiset(HashSeq(chosen)) && n3.chain == n.chain
    ensures n3.bft.validators == n.bft.validators && n3.addr == n.addr
  {
    n1 := Begun(n, height, round, n.addr);
    n2 := WithProposal(n1, chosen, hash);
    n3 := Prepared(n2);
    SoloPrepares(h, n, height, round, chosen, hash);
  }

  lemma ThreeSteps(h: Hasher, n: Node, a: Action, n1: Node, b: Action, n2: Node, c: Action, n3: Node)
    returns (run: seq<Node>, actions: seq<Action>)
    requires StepsTo(h, n, a, n1) && StepsTo(h, n1, b, n2) && StepsTo(h, n2, c, n3)
    ensures IsPath(h, run, actions) && run == [n, n1, n2, n3] && actions == [a, b, c]
  {
    run, actions := [n], [];
    PathExtends(h, run, actions, a, n1);
    PathExtends(h, run + [n1], actions + [a], b, n2);
    PathExtends(h, run + [n1] + [n2], actions + [a] + [b], c, n3);
    assert run + [n1] + [n2] + [n3] == [n, n1, n2, n3] && actions + [a] + [b] + [c] == [a, b, c];
    run, actions := [n, n1, n2, n3], [a, b, c];
  }

  lemma PathExtends(h: Hasher, run: seq<Node>, actions: seq<Action>, a: Action, m: Node)
    requires IsPath(h, run, actions) && StepsTo(h, run[|actions|], a, m)
    ensures IsPath(h, run + [m], actions + [a])
  {
    var longer, more := run + [m], actions + [a];
    forall i | 0 <= i < |more|
      ensures StepAt(h, longer, more, i)
    {
      if i < |actions| {
        assert longer[i] == run[i] && more[i] == actions[i] && longer[i + 1] == run[i + 1];
        assert StepAt(h, run, actions, i);
      } else {
        assert longer[i] == run[|actions|] && more[i] == a && longer[i + 1] == m;
      }
    }
  }

  /** If its goroutine runs and its vote is delivered before the next round, a sole validator
      appends exactly the selection. */
  lemma SoloNodeAppends(h: Hasher, n: Node, height: int, round: int, now: int,
                        chosen: seq<PendingTx>, hash: string, time: string)
    returns (run: seq<Node>, actions: seq<Action>)
    requires Inv(h, n) && n.pc.Idle? && n.bft.validators == [n.addr] && n.bft.quorum == Quorum(1)
    requires IsSelection(n.pending, now, MAX_TX_PER_BLOCK, chosen) && IsTimestamp(time)
    ensures IsPath(h, run, actions) && run[0] == n && |actions| == 5
    ensures var m := run[5];
            && |m.chain| == |n.chain| + 1 && n.chain <= m.chain
            && var b := m.chain[|n.chain|];
               && b.transactions == HashSeq(chosen) && b.validator == n.addr && b.timestamp == time
               && b.totalFees == I64(FeeSum(chosen)) && b.burnedAmount == Burned(I64(FeeSum(chosen)))
               && b.miningReward == 50_000_000
  {
    run, actions := SoloStartsRound(h, n, height, round, now, chosen, hash);
    var n3 := run[3];
    SoloPrepares(h, n, height, round, chosen, hash);
    SoloCommits(h, n3, time);
    var n4 := Fired(n3);
    PathExtends(h, run, actions, FireGoroutine, n4);
    run, actions := run + [n4], actions + [FireGoroutine];
    var n5 := Delivered(h, n4, |n.commits|, time);
    PathExtends(h, run, actions, DeliverCommit(|n.commits|, time), n5);
    run, actions := run + [n5], actions + [DeliverCommit(|n.commits|, time)];
  }

  /** If the next round begins first, it appends nothing and the selection is lost. */
  lemma SoloNodeDrops(h: Hasher, n: Node, height: int, round: int, now: int, chosen: seq<PendingTx>, hash: string)
    returns (run: seq<Node>, actions: seq<Action>)
    requires Inv(h, n) && n.pc.Idle? && n.bft.validators == [n.addr] && n.bft.quorum == Quorum(1)
    requires InFlight(n.bft) == multiset{} && IsSelection(n.pending, now, MAX_TX_PER_BLOCK, chosen)
    ensures IsPath(h, run, actions) && run[0] == n && |actions| == 4
    ensures run[4].chain == n.chain && run[4].dropped == n.dropped + multiset(HashSeq(chosen))
  {
    run, actions := SoloStartsRound(h, n, height, round, now, chosen, hash);
    var n4 := Begun(run[3], height + 1, 0, n.addr);
    PathExtends(h, run, actions, BeginRound(height + 1, 0, n.addr), n4);
    run, actions := run + [n4], actions + [BeginRound(height + 1, 0, n.addr)];
  }

  /** Some interleaving appends a block. */
  ghost predicate CanAppend(h: Hasher, addr: string, validators: seq<string>) {
    exists run: seq<Node>, actions: seq<Action> ::
      IsRun(h, addr, validators, run, actions) && run[|actions|].chain != [Genesis(h)]
  }

  /** The node can append blocks at all if and only if it starts with itself as the only validator,
      or with none and is the first to join. */
  lemma BlocksExactlyWhenAlone(h: Hasher, addr: string, validators: seq<string>)
    ensures CanAppend(h, addr, validators) <==> validators == [] || validators == [addr]
  {
    if validators == [] || validators == [addr] {
      var run, actions := FirstBlock(h, addr, validators);
      assert IsRun(h, addr, validators, run, actions) && run[|actions|].chain != [Genesis(h)];
    } else {
      forall run: seq<Node>, actions: seq<Action> | IsRun(h, addr, validators, run, actions)
        ensures run[|actions|].chain == [Genesis(h)]
      {
        NoBlockWithPeers(h, addr, validators, run, actions, |actions|);
      }
    }
  }

  lemma FirstBlock(h: Hasher, addr: string, validators: seq<string>) returns (run: seq<Node>, actions: seq<Action>)
    requires validators == [] || validators == [addr]
    ensures IsRun(h, addr, validators, run, actions) && |run[|actions|].chain| == 2
  {
    var n := Fresh(h, addr, validators);
    FreshInv(h, addr, validators);
    var time := "2025-10-01T12:00:00Z";
    if validators == [addr] {
      run, actions := SoloNodeAppends(h, n, 1, 0, 0, [], "", time);
    } else {
      var m := n.(bft := AddValidator(n.bft, addr));
      JoinKeeps(h, n, addr);
      assert StepsTo(h, n, JoinValidator(addr), m);
      var rest, later := SoloNodeAppends(h, m, 1, 0, 0, [], "", time);
      PathPrepended(h, n, JoinValidator(addr), rest, later);
      run, actions := [n] + rest, [JoinValidator(addr)] + later;
    }
  }

  lemma PathPrepended(h: Hasher, n: Node, a: Action, run: seq<Node>, actions: seq<Action>)
    requires IsPath(h, run, actions) && StepsTo(h, n, a, run[0])
    ensures IsPath(h, [n] + run, [a] + actions)
  {
    var longer, more := [n] + run, [a] + actions;
    forall i | 0 <= i < |more|
      ensures StepAt(h, longer, more, i)
    {
      if i > 0 {
        assert longer[i] == run[i - 1] && more[i] == actions[i - 1] && longer[i + 1] == run[i];
        assert StepAt(h, run, actions, i - 1);
      }
    }
  }
}
