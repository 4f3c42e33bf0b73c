/** All coins of the node: the three keepers that share one account map, over whole runs, for
    every int64 amount and fee and every uint64 stake and deposit. Each keeper call is one atomic
    step. In the source, Stake and CreateProposal check the balance in one critical section of the
    account map and debit it in another. */
module Economy {
  import opened Totals
  import opened Words
  import opened Ledger
  import opened Staking
  import opened Governance

  /** fees, rewards and lost are history: fees taken by transfers, rewards paid by Unstake, and
      stakes debited by a call that then panicked. */
  datatype World = World(
    accounts: map<string, Ledger.Account>, positions: map<string, Position>,
    proposals: map<nat, Proposal>, nextId: nat,
    fees: int, rewards: int, lost: int)

  datatype Op =
    | Pay(from: string, to: string, amount: int, fee: int, authorized: bool)
    | StakeCoins(owner: string, stake: nat, isGreen: bool, posId: string, now: int)
    | UnstakeCoins(owner: string, posId: string, now: int)
    | AccrueRewards(now: int)
    | ProposeChange(proposer: string, deposit: nat, now: int)
    | CastVote(id: nat, voter: string, choice: Choice, now: int)
    | SettleProposal(id: nat, now: int)

  function ActiveStake(p: Position): int { if p.isActive then p.amount else 0 }

  /** Coins that someone holds or can still get back. */
  ghost function Coins(w: World): int {
    Total(w.accounts, BalanceOf) + Total(w.positions, ActiveStake) + Total(w.proposals, OpenDeposit)
  }

  /** Everything that was ever issued, wherever it is now, less the rewards: the genesis supply. */
  ghost function Books(w: World): int {
    Coins(w) + Total(w.proposals, Forfeited) + w.fees + w.lost - w.rewards
  }

  // ----- Steps -----

  function Paid(w: World, from: string, to: string, amount: int, fee: int, authorized: bool): World {
    if !authorized || !Covered(w.accounts, from, amount, fee) then w
    else w.(accounts := Moved(w.accounts, from, to, amount, fee), fees := w.fees + fee)
  }

  function StakedIn(w: World, owner: string, amount: nat, isGreen: bool, id: string, now: int): World {
    match StakeOutcome(w.accounts, owner, amount)
    case Staked => w.(accounts := Debited(w.accounts, owner, amount),
                      positions := w.positions[id := NewPosition(owner, amount, isGreen, now)])
    case Panicked => w.(accounts := Debited(w.accounts, owner, amount), lost := w.lost + amount)
    case _ => w
  }

  /** The owner of a position always has an account (PositionsOwned). */
  function UnstakedOut(w: World, owner: string, id: string, now: int): World
    requires id in w.positions ==> now >= w.positions[id].lastReward
  {
    match UnstakeOutcome(w.positions, owner, id, now)
    case Unstaked(p) =>
      if owner !in w.accounts then w
      else w.(accounts := Credited(w.accounts, owner, p.amount + p.totalRewards),
              positions := w.positions[id := p], rewards := w.rewards + p.totalRewards)
    case _ => w
  }

  function Proposed(w: World, proposer: string, deposit: nat, now: int): World {
    match CreateOutcome(w.accounts, w.nextId, proposer, deposit)
    case Created(id) => w.(accounts := Debited(w.accounts, proposer, deposit),
                           proposals := w.proposals[id := NewProposal(proposer, deposit, now)], nextId := id + 1)
    case _ => w
  }

  function VotedOn(w: World, id: nat, voter: string, choice: Choice, now: int): World {
    match VoteOutcome(w.accounts, w.proposals, id, voter, choice, now)
    case Accepted(b) => w.(proposals := w.proposals[id := Voted(w.proposals[id], b)])
    case _ => w
  }

  function SettledIn(w: World, id: nat, now: int): World {
    if id !in w.proposals || !Due(w.proposals[id], now) then w
    else
      var p := Settled(w.proposals[id]);
      w.(proposals := w.proposals[id := p], accounts := Refund(w.accounts, p))
  }

  /** What the types, the clock and the ids give: int64 amounts, fresh position ids (they carry
      the nanosecond clock), time that does not run backwards. */
  predicate Enabled(w: World, op: Op) {
    match op
    case Pay(_, _, amount, fee, _) => IsInt64(amount) && IsInt64(fee)
    case StakeCoins(_, _, _, posId, now) => posId !in w.positions && ClockAtLeast(w.positions, now)
    case UnstakeCoins(_, _, now) => ClockAtLeast(w.positions, now)
    case AccrueRewards(now) => ClockAtLeast(w.positions, now)
    case _ => true
  }

  function Step(w: World, op: Op): World
    requires Enabled(w, op)
  {
    match op
    case Pay(from, to, amount, fee, authorized) => Paid(w, from, to, amount, fee, authorized)
    case StakeCoins(owner, stake, isGreen, posId, now) => StakedIn(w, owner, stake, isGreen, posId, now)
    case UnstakeCoins(owner, posId, now) => UnstakedOut(w, owner, posId, now)
    case AccrueRewards(now) => w.(positions := AllAccrued(w.positions, now))
    case ProposeChange(proposer, deposit, now) => Proposed(w, proposer, deposit, now)
    case CastVote(id, voter, choice, now) => VotedOn(w, id, voter, choice, now)
    case SettleProposal(id, now) => SettledIn(w, id, now)
  }

  // ----- What every step keeps, whatever the amounts -----

  ghost predicate PositionsOwned(w: World) {
    forall id :: id in w.positions ==> w.positions[id].owner in w.accounts
  }

  ghost predicate ProposersKnown(w: World) {
    forall id :: id in w.proposals ==> w.proposals[id].proposer in w.accounts
  }

  ghost predicate Linked(w: World) {
    Typed(w.accounts) && PositionsOwned(w) && ProposersKnown(w) && AllSound(w.proposals, w.nextId)
  }

  lemma PayLinked(w: World, from: string, to: string, amount: int, fee: int, authorized: bool)
    requires Linked(w)
    ensures Linked(Paid(w, from, to, amount, fee, authorized))
  {
    if from in w.accounts {
      MovedEntries(w.accounts, from, to, amount, fee);
    }
  }

  lemma VoteLinked(w: World, id: nat, voter: string, choice: Choice, now: int)
    requires Linked(w)
    ensures Linked(VotedOn(w, id, voter, choice, now))
  {
    match VoteOutcome(w.accounts, w.proposals, id, voter, choice, now)
    case Accepted(b) =>
      assert SoundAt(w.proposals, w.nextId, id);
      VotedSound(w.proposals[id], b);
      SoundUpdate(w.proposals, w.nextId, id, Voted(w.proposals[id], b), w.nextId);
    case _ =>
  }

  lemma SettleLinked(w: World, id: nat, now: int)
    requires Linked(w)
    ensures Linked(SettledIn(w, id, now))
  {
    if id in w.proposals && Due(w.proposals[id], now) {
      assert SoundAt(w.proposals, w.nextId, id);
      SettledTwice(w.proposals[id]);
      SoundUpdate(w.proposals, w.nextId, id, Settled(w.proposals[id]), w.nextId);
      RefundKeys(w.accounts, Settled(w.proposals[id]));
    }
  }

  lemma RefundKeys(accounts: map<string, Ledger.Account>, p: Proposal)
    requires Typed(accounts)
    ensures Typed(Refund(accounts, p)) && Refund(accounts, p).Keys == accounts.Keys
  {
  }

  lemma ProposeLinked(w: World, proposer: string, deposit: nat, now: int)
    requires Linked(w)
    ensures Linked(Proposed(w, proposer, deposit, now))
  {
    SoundUpdate(w.proposals, w.nextId, w.nextId, NewProposal(proposer, deposit, now), w.nextId + 1);
  }

  lemma StakingLinked(w: World, owner: string, amount: nat, isGreen: bool, id: string, now: int)
    requires Linked(w)
    ensures Linked(StakedIn(w, owner, amount, isGreen, id, now))
    ensures ClockAtLeast(w.positions, now) ==> Linked(UnstakedOut(w, owner, id, now))
    ensures ClockAtLeast(w.positions, now) ==> Linked(w.(positions := AllAccrued(w.positions, now)))
  {
  }

  lemma StepLinked(w: World, op: Op)
    requires Linked(w) && Enabled(w, op)
    ensures Linked(Step(w, op))
  {
    match op
    case Pay(from, to, amount, fee, authorized) => PayLinked(w, from, to, amount, fee, authorized);
    case StakeCoins(owner, stake, isGreen, posId, now) => StakingLinked(w, owner, stake, isGreen, posId, now);
    case UnstakeCoins(owner, posId, now) => StakingLinked(w, owner, 0, false, posId, now);
    case AccrueRewards(now) => StakingLinked(w, "", 0, false, "", now);
    case ProposeChange(proposer, deposit, now) => ProposeLinked(w, proposer, deposit, now);
    case CastVote(id, voter, choice, now) => VoteLinked(w, id, voter, choice, now);
    case SettleProposal(id, now) => SettleLinked(w, id, now);
  }

  /** Moving x between the accounts and the other books, modulo 2^64. */
  lemma MoveModulo(before: int, after: int, x: int, rest: int)
    requires I64(after) == I64(before + x)
    ensures I64(after + (rest - x)) == I64(before + rest)
  {
    SameShift(after, before + x, rest - x);
  }

  lemma PayModulo(w: World, from: string, to: string, amount: int, fee: int, authorized: bool)
    requires Typed(w.accounts)
    ensures I64(Books(Paid(w, from, to, amount, fee, authorized))) == I64(Books(w))
  {
    var v := Paid(w, from, to, amount, fee, authorized);
    if authorized && Covered(w.accounts, from, amount, fee) {
      MovedTotalModulo(w.accounts, from, to, amount, fee);
      var before := Total(w.accounts, BalanceOf);
      MoveModulo(before, Total(v.accounts, BalanceOf), -fee, Books(w) - before);
    }
  }

  lemma StakeModulo(w: World, owner: string, amount: nat, isGreen: bool, id: string, now: int)
    requires id !in w.positions
    ensures I64(Books(StakedIn(w, owner, amount, isGreen, id, now))) == I64(Books(w))
  {
    var v := StakedIn(w, owner, amount, isGreen, id, now);
    var r := StakeOutcome(w.accounts, owner, amount);
    if r.Staked? || r.Panicked? {
      DebitModulo(w, v, owner, amount);
      TotalUpdate(w.positions, ActiveStake, id, NewPosition(owner, amount, isGreen, now));
    }
  }

  lemma CreditModulo(w: World, v: World, who: string, x: int)
    requires who in w.accounts && v.accounts == Credited(w.accounts, who, x)
    ensures Books(v) - Total(v.accounts, BalanceOf) == Books(w) - Total(w.accounts, BalanceOf) - x
            ==> I64(Books(v)) == I64(Books(w))
  {
    CreditedEntries(w.accounts, who, x);
    var before := Total(w.accounts, BalanceOf);
    MoveModulo(before, Total(v.accounts, BalanceOf), x, Books(w) - before);
  }

  lemma DebitModulo(w: World, v: World, who: string, x: int)
    requires who in w.accounts && v.accounts == Debited(w.accounts, who, x)
    ensures Books(v) - Total(v.accounts, BalanceOf) == Books(w) - Total(w.accounts, BalanceOf) + x
            ==> I64(Books(v)) == I64(Books(w))
  {
    assert Debited(w.accounts, who, x) == Credited(w.accounts, who, -x);
    CreditModulo(w, v, who, -x);
  }

  lemma UnstakeModulo(w: World, owner: string, id: string, now: int)
    requires PositionsOwned(w) && ClockAtLeast(w.positions, now)
    ensures I64(Books(UnstakedOut(w, owner, id, now))) == I64(Books(w))
  {
    var v := UnstakedOut(w, owner, id, now);
    match UnstakeOutcome(w.positions, owner, id, now)
    case Unstaked(p) =>
      TotalUpdate(w.positions, ActiveStake, id, p);
      CreditModulo(w, v, owner, p.amount + p.totalRewards);
    case _ =>
  }

  lemma ProposeModulo(w: World, proposer: string, deposit: nat, now: int)
    requires w.nextId !in w.proposals
    ensures I64(Books(Proposed(w, proposer, deposit, now))) == I64(Books(w))
  {
    var v := Proposed(w, proposer, deposit, now);
    if CreateOutcome(w.accounts, w.nextId, proposer, deposit).Created? {
      var p := NewProposal(proposer, deposit, now);
      TotalUpdate(w.proposals, OpenDeposit, w.nextId, p);
      TotalUpdate(w.proposals, Forfeited, w.nextId, p);
      DebitModulo(w, v, proposer, deposit);
    }
  }

  lemma SettleModulo(w: World, id: nat, now: int)
    requires ProposersKnown(w)
    ensures I64(Books(SettledIn(w, id, now))) == I64(Books(w))
  {
    var v := SettledIn(w, id, now);
    if id in w.proposals && Due(w.proposals[id], now) {
      var p := Settled(w.proposals[id]);
      assert p.proposer in w.accounts;
      TotalUpdate(w.proposals, OpenDeposit, id, p);
      TotalUpdate(w.proposals, Forfeited, id, p);
      if p.status == Passed {
        CreditModulo(w, v, p.proposer, p.deposit);
      }
    }
  }

  /** Voting and accrual move no coins at all. */
  lemma VoteMovesNothing(w: World, id: nat, voter: string, choice: Choice, now: int)
    ensures var v := VotedOn(w, id, voter, choice, now);
            Coins(v) == Coins(w) && Books(v) == Books(w)
  {
    match VoteOutcome(w.accounts, w.proposals, id, voter, choice, now)
    case Accepted(b) =>
      TotalUpdate(w.proposals, OpenDeposit, id, Voted(w.proposals[id], b));
      TotalUpdate(w.proposals, Forfeited, id, Voted(w.proposals[id], b));
    case _ =>
  }

  lemma AccrualMovesNothing(w: World, now: int)
    requires ClockAtLeast(w.positions, now)
    ensures var v := w.(positions := AllAccrued(w.positions, now));
            Coins(v) == Coins(w) && Books(v) == Books(w)
  {
    TotalSame(w.positions, AllAccrued(w.positions, now), ActiveStake);
  }

  /** Whatever the amounts, every keeper call keeps the books modulo 2^64. */
  lemma StepModulo(w: World, op: Op)
    requires Linked(w) && Enabled(w, op)
    ensures I64(Books(Step(w, op))) == I64(Books(w))
  {
    match op
    case Pay(from, to, amount, fee, authorized) => PayModulo(w, from, to, amount, fee, authorized);
    case StakeCoins(owner, stake, isGreen, posId, now) => StakeModulo(w, owner, stake, isGreen, posId, now);
    case UnstakeCoins(owner, posId, now) => UnstakeModulo(w, owner, posId, now);
    case AccrueRewards(now) => AccrualMovesNothing(w, now);
    case ProposeChange(proposer, deposit, now) =>
      assert SoundAt(w.proposals, w.nextId, w.nextId);
      ProposeModulo(w, proposer, deposit, now);
    case CastVote(id, voter, choice, now) => VoteMovesNothing(w, id, voter, choice, now);
    case SettleProposal(id, now) => SettleModulo(w, id, now);
  }

  // ----- When the books are exact -----

  /** Every balance is a non-negative int64. */
  ghost predicate Solvent(w: World) {
    InRange(w.accounts)
  }

  /** What a caller can check: the balances that a transfer, the payout of Unstake or the refund of a
      passing proposal leads to are non-negative int64 values. Every other call is safe. */
  predicate Safe(w: World, op: Op) {
    match op
    case Pay(from, to, amount, fee, authorized) =>
      authorized && Covered(w.accounts, from, amount, fee) ==> Fits(w.accounts, from, to, amount, fee)
    case UnstakeCoins(owner, posId, now) =>
      ClockAtLeast(w.positions, now) && UnstakeOutcome(w.positions, owner, posId, now).Unstaked? ==>
        var p := UnstakeOutcome(w.positions, owner, posId, now).pos;
        GetBalance(w.accounts, owner) + p.amount + p.totalRewards <= MAX_INT64
    case SettleProposal(id, now) =>
      id in w.proposals && Due(w.proposals[id], now) && Settled(w.proposals[id]).status == Passed ==>
        GetBalance(w.accounts, w.proposals[id].proposer) + w.proposals[id].deposit <= MAX_INT64
    case _ => true
  }

  /** v continues w without a balance below zero, a wrap-around or a coin out of nothing. */
  ghost predicate KeepsBooks(w: World, v: World) {
    Solvent(v) && Books(v) == Books(w)
  }

  lemma PayExactly(w: World, from: string, to: string, amount: int, fee: int)
    requires Solvent(w) && IsInt64(amount) && IsInt64(fee) && Covered(w.accounts, from, amount, fee)
    ensures KeepsBooks(w, Paid(w, from, to, amount, fee, true)) <==> Fits(w.accounts, from, to, amount, fee)
  {
    MovedExactly(w.accounts, from, to, amount, fee);
  }

  lemma StakeExact(w: World, owner: string, amount: nat, isGreen: bool, id: string, now: int)
    requires Solvent(w) && id !in w.positions
    ensures KeepsBooks(w, StakedIn(w, owner, amount, isGreen, id, now))
  {
    var r := StakeOutcome(w.accounts, owner, amount);
    if r.Staked? || r.Panicked? {
      DebitedExactly(w.accounts, owner, amount);
      TotalUpdate(w.positions, ActiveStake, id, NewPosition(owner, amount, isGreen, now));
    }
  }

  lemma UnstakeExactly(w: World, owner: string, id: string, now: int, p: Position)
    requires Solvent(w) && PositionsOwned(w) && ClockAtLeast(w.positions, now)
    requires UnstakeOutcome(w.positions, owner, id, now) == Unstaked(p)
    ensures KeepsBooks(w, UnstakedOut(w, owner, id, now))
       <==> GetBalance(w.accounts, owner) + p.amount + p.totalRewards <= MAX_INT64
  {
    CreditedExactly(w.accounts, owner, p.amount + p.totalRewards);
    TotalUpdate(w.positions, ActiveStake, id, p);
  }

  lemma ProposeExact(w: World, proposer: string, deposit: nat, now: int)
    requires Solvent(w) && w.nextId !in w.proposals
    ensures KeepsBooks(w, Proposed(w, proposer, deposit, now))
  {
    if CreateOutcome(w.accounts, w.nextId, proposer, deposit).Created? {
      DebitedExactly(w.accounts, proposer, deposit);
      var p := NewProposal(proposer, deposit, now);
      TotalUpdate(w.proposals, OpenDeposit, w.nextId, p);
      TotalUpdate(w.proposals, Forfeited, w.nextId, p);
    }
  }

  /** Settling moves the deposit exactly once: out of the open deposits, and back to the
      proposer if the proposal passed or to the forfeited deposits if not. */
  lemma SettlementMovesDeposit(w: World, id: nat, now: int)
    requires Linked(w) && Solvent(w) && id in w.proposals && Due(w.proposals[id], now)
    ensures var v := SettledIn(w, id, now);
            var p := w.proposals[id];
            && (KeepsBooks(w, v) <==> Safe(w, SettleProposal(id, now)))
            && Total(v.proposals, OpenDeposit) == Total(w.proposals, OpenDeposit) - p.deposit
            && (if v.proposals[id].status == Passed then
                  && GetBalance(v.accounts, p.proposer) == I64(GetBalance(w.accounts, p.proposer) + p.deposit)
                  && Total(v.proposals, Forfeited) == Total(w.proposals, Forfeited)
                else
                  && v.accounts == w.accounts
                  && Total(v.proposals, Forfeited) == Total(w.proposals, Forfeited) + p.deposit)
  {
    var p := Settled(w.proposals[id]);
    assert p.proposer in w.accounts;
    DepositLeaves(w.proposals, id);
    if p.status == Passed {
      CreditedExactly(w.accounts, p.proposer, p.deposit);
    }
  }

  lemma DepositLeaves(proposals: map<nat, Proposal>, id: nat)
    requires id in proposals && proposals[id].status == Voting
    ensures var p := Settled(proposals[id]);
            && Total(proposals[id := p], OpenDeposit) == Total(proposals, OpenDeposit) - p.deposit
            && Total(proposals[id := p], Forfeited)
               == Total(proposals, Forfeited) + (if p.status == Passed then 0 else p.deposit)
  {
    TotalUpdate(proposals, OpenDeposit, id, Settled(proposals[id]));
    TotalUpdate(proposals, Forfeited, id, Settled(proposals[id]));
  }

  /** For every call of any keeper: from non-negative balances it keeps them non-negative and the
      books exact if and only if it is safe. */
  lemma StepKeeps(w: World, op: Op)
    requires Linked(w) && Solvent(w) && Enabled(w, op)
    ensures KeepsBooks(w, Step(w, op)) <==> Safe(w, op)
  {
    match op
    case Pay(from, to, amount, fee, authorized) =>
      if authorized && Covered(w.accounts, from, amount, fee) {
        PayExactly(w, from, to, amount, fee);
      }
    case StakeCoins(owner, stake, isGreen, posId, now) => StakeExact(w, owner, stake, isGreen, posId, now);
    case UnstakeCoins(owner, posId, now) =>
      var r := UnstakeOutcome(w.positions, owner, posId, now);
      if r.Unstaked? {
        UnstakeExactly(w, owner, posId, now, r.pos);
      }
    case AccrueRewards(now) => AccrualMovesNothing(w, now);
    case ProposeChange(proposer, deposit, now) =>
      assert SoundAt(w.proposals, w.nextId, w.nextId);
      ProposeExact(w, proposer, deposit, now);
    case CastVote(id, voter, choice, now) => VoteMovesNothing(w, id, voter, choice, now);
    case SettleProposal(id, now) =>
      if id in w.proposals && Due(w.proposals[id], now) {
        SettlementMovesDeposit(w, id, now);
      }
  }

  // ----- Runs -----

  function AtGenesis(accounts: map<string, Ledger.Account>): World {
    World(accounts, map[], map[], 1, 0, 0, 0)
  }

  ghost predicate StepsTo(w: World, op: Op, next: World) {
    Enabled(w, op) && next == Step(w, op)
  }

  ghost predicate StepAt(run: seq<World>, ops: seq<Op>, i: nat)
    requires i < |ops| < |run|
  {
    StepsTo(run[i], ops[i], run[i + 1])
  }

  ghost predicate IsRun(run: seq<World>, ops: seq<Op>) {
    && |run| == |ops| + 1 && Typed(run[0].accounts) && run[0] == AtGenesis(run[0].accounts)
    && forall i :: 0 <= i < |ops| ==> StepAt(run, ops, i)
  }

  /** The first i calls of a run were safe when they were made. */
  ghost predicate SafeUpTo(run: seq<World>, ops: seq<Op>, i: nat)
    requires i <= |ops| < |run|
  {
    forall k :: 0 <= k < i ==> Safe(run[k], ops[k])
  }

  /** The state is solvent and accounts for every coin of the genesis supply. */
  ghost predicate Exact(w: World, genesis: int) {
    Solvent(w) && Books(w) == genesis
  }

  /** A step from a good state leads to a good one exactly when it fits. */
  ghost predicate Decides(good: int -> bool, fits: int -> bool, k: int) {
    good(k) ==> (good(k + 1) <==> fits(k))
  }

  lemma {:induction false} GoodWhile(good: int -> bool, fits: int -> bool, i: nat)
    requires good(0) && forall k :: 0 <= k < i ==> Decides(good, fits, k)
    ensures (forall j :: 0 <= j <= i ==> good(j)) <==> (forall k :: 0 <= k < i ==> fits(k))
  {
    if i > 0 {
      GoodWhile(good, fits, i - 1);
      assert Decides(good, fits, i - 1);
    }
  }

  lemma {:induction false} RunLinked(run: seq<World>, ops: seq<Op>, i: nat)
    requires IsRun(run, ops) && i < |run|
    ensures Linked(run[i])
  {
    if i > 0 {
      RunLinked(run, ops, i - 1);
      assert StepAt(run, ops, i - 1);
      StepLinked(run[i - 1], ops[i - 1]);
    }
  }

  lemma GenesisBooks(w: World)
    requires w == AtGenesis(w.accounts)
    ensures Books(w) == Coins(w) == Total(w.accounts, BalanceOf)
  {
  }

  /** In every state of every run, whatever the amounts: balances, active stakes, open and
      forfeited deposits, fees taken and stakes lost to a panic add up to the genesis supply plus
      the rewards paid, modulo 2^64. */
  lemma {:induction false} ConservedModulo(run: seq<World>, ops: seq<Op>, i: nat)
    requires IsRun(run, ops) && i < |run|
    ensures I64(Books(run[i])) == I64(Total(run[0].accounts, BalanceOf))
  {
    if i == 0 {
      GenesisBooks(run[0]);
    } else {
      ConservedModulo(run, ops, i - 1);
      RunLinked(run, ops, i - 1);
      ModuloNext(run, ops, i);
    }
  }

  lemma ModuloNext(run: seq<World>, ops: seq<Op>, i: nat)
    requires IsRun(run, ops) && 0 < i < |run| && Linked(run[i - 1])
    ensures I64(Books(run[i])) == I64(Books(run[i - 1]))
  {
    assert StepAt(run, ops, i - 1);
    StepModulo(run[i - 1], ops[i - 1]);
  }

  /** A run from non-negative balances keeps them non-negative and accounts for every coin exactly,
      in all its states up to i, if and only if each of its first i calls was safe. */
  lemma {:induction false} ExactWhileSafe(run: seq<World>, ops: seq<Op>, i: nat)
    requires IsRun(run, ops) && i < |run| && InRange(run[0].accounts)
    ensures SafeUpTo(run, ops, i) <==> forall j :: 0 <= j <= i ==> Exact(run[j], Total(run[0].accounts, BalanceOf))
  {
    var genesis := Total(run[0].accounts, BalanceOf);
    GenesisBooks(run[0]);
    if i > 0 {
      ExactWhileSafe(run, ops, i - 1);
      RunLinked(run, ops, i - 1);
      assert StepAt(run, ops, i - 1);
      if Exact(run[i - 1], genesis) {
        StepKeeps(run[i - 1], ops[i - 1]);
      }
      assert SafeUpTo(run, ops, i) <==> SafeUpTo(run, ops, i - 1) && Safe(run[i - 1], ops[i - 1]);
    }
  }

  lemma RunSolvent(run: seq<World>, ops: seq<Op>, i: nat)
    requires IsRun(run, ops) && i < |run| && InRange(run[0].accounts) && SafeUpTo(run, ops, i)
    ensures Exact(run[i], Total(run[0].accounts, BalanceOf)) && Solvent(run[i])
  {
    ExactWhileSafe(run, ops, i);
    assert Exact(run[i], Total(run[0].accounts, BalanceOf));
  }

  /** After safe calls, balances, active stakes, open and forfeited deposits, fees taken and stakes
      lost to a panic add up to the genesis supply plus the rewards paid; and no balance is
      negative or beyond int64, so every 64-bit cast and sum was exact. */
  lemma CoinsConserved(run: seq<World>, ops: seq<Op>, i: nat)
    requires IsRun(run, ops) && i < |run| && InRange(run[0].accounts) && SafeUpTo(run, ops, i)
    ensures var w := run[i];
            && Total(w.accounts, BalanceOf) + Total(w.positions, ActiveStake) + Total(w.proposals, OpenDeposit)
               + Total(w.proposals, Forfeited) + w.fees + w.lost
               == Total(run[0].accounts, BalanceOf) + w.rewards
            && (forall x :: x in w.accounts ==> 0 <= w.accounts[x].balance <= MAX_INT64)
  {
    RunSolvent(run, ops, i);
  }

  // ----- Runs that are safe because all coins fit in int64 -----

  /** Transfers move non-negative amounts whose sum is an int64. */
  predicate Ordinary(op: Op) {
    op.Pay? ==> op.amount >= 0 && op.fee >= 0 && op.amount + op.fee <= MAX_INT64
  }

  /** Coins outside the accounts are non-negative. */
  lemma PartsNonNegative(w: World)
    ensures Total(w.positions, ActiveStake) >= 0
    ensures Total(w.proposals, OpenDeposit) >= 0
    ensures Total(w.proposals, Forfeited) >= 0
    ensures forall id :: id in w.positions ==> ActiveStake(w.positions[id]) <= Total(w.positions, ActiveStake)
    ensures forall id :: id in w.proposals ==> OpenDeposit(w.proposals[id]) <= Total(w.proposals, OpenDeposit)
  {
    TotalBounds(w.positions, ActiveStake);
    TotalBounds(w.proposals, OpenDeposit);
    TotalBounds(w.proposals, Forfeited);
  }

  /** All coins, with the rewards that the call pays, fit in int64. */
  lemma OrdinaryIsSafe(w: World, op: Op)
    requires Linked(w) && Solvent(w) && Enabled(w, op) && Ordinary(op)
    requires Coins(w) + Step(w, op).rewards - w.rewards <= MAX_INT64
    ensures Safe(w, op)
  {
    PartsNonNegative(w);
    TotalBounds(w.accounts, BalanceOf);
    match op
    case Pay(from, to, amount, fee, authorized) =>
      if Covered(w.accounts, from, amount, fee) {
        OrdinaryFits(w.accounts, from, to, amount, fee);
      }
    case UnstakeCoins(owner, posId, now) =>
      var r := UnstakeOutcome(w.positions, owner, posId, now);
      if r.Unstaked? {
        assert ActiveStake(w.positions[posId]) == r.pos.amount;
      }
    case SettleProposal(id, now) =>
      if id in w.proposals && Due(w.proposals[id], now) {
        assert OpenDeposit(w.proposals[id]) == w.proposals[id].deposit;
      }
    case _ =>
  }

  lemma OrdinaryHistory(w: World, op: Op)
    requires Enabled(w, op) && Ordinary(op) && w.fees >= 0 && w.lost >= 0
    ensures Step(w, op).fees >= 0 && Step(w, op).lost >= 0
  {
  }

  /** A run of ordinary calls is safe as long as the genesis supply with the rewards fits in int64. */
  lemma {:induction false} OrdinaryRunIsSafe(run: seq<World>, ops: seq<Op>)
    requires IsRun(run, ops) && InRange(run[0].accounts)
    requires forall k :: 0 <= k < |ops| ==> Ordinary(ops[k])
    requires forall k :: 0 <= k < |run| ==> Total(run[0].accounts, BalanceOf) + run[k].rewards <= MAX_INT64
    ensures SafeUpTo(run, ops, |ops|)
  {
    for i := 0 to |ops|
      invariant SafeUpTo(run, ops, i) && run[i].fees >= 0 && run[i].lost >= 0
    {
      RunSolvent(run, ops, i);
      RunLinked(run, ops, i);
      PartsNonNegative(run[i]);
      assert StepAt(run, ops, i) && Ordinary(ops[i]);
      OrdinaryIsSafe(run[i], ops[i]);
      OrdinaryHistory(run[i], ops[i]);
    }
  }

  // ----- Lost stakes -----

  /** The owner is too short for the id prefix and the checks pass. */
  predicate Loses(w: World, owner: string, amount: nat) {
    |owner| < ID_PREFIX && MIN_STAKE <= amount <= U64(GetBalance(w.accounts, owner))
  }

  /** A stake keeps balances and active stakes together the same, unless the owner is too short for
      the id prefix and the checks pass: then exactly the stake is gone. */
  lemma StakeLostExactly(w: World, owner: string, amount: nat, isGreen: bool, id: string, now: int)
    requires Solvent(w) && id !in w.positions
    ensures var v := StakedIn(w, owner, amount, isGreen, id, now);
            Total(v.accounts, BalanceOf) + Total(v.positions, ActiveStake)
            == Total(w.accounts, BalanceOf) + Total(w.positions, ActiveStake)
               - (if |owner| < ID_PREFIX && MIN_STAKE <= amount <= GetBalance(w.accounts, owner) then amount else 0)
  {
    var r := StakeOutcome(w.accounts, owner, amount);
    if r.Staked? || r.Panicked? {
      DebitedExactly(w.accounts, owner, amount);
      TotalUpdate(w.positions, ActiveStake, id, NewPosition(owner, amount, isGreen, now));
    }
  }

  /** Such a loss is one call away from any genesis that gives a short owner the minimum stake. */
  lemma ShortOwnerLoses(accounts: map<string, Ledger.Account>, owner: string, amount: nat)
    returns (run: seq<World>, ops: seq<Op>)
    requires InRange(accounts) && |owner| < ID_PREFIX && MIN_STAKE <= amount <= GetBalance(accounts, owner)
    ensures IsRun(run, ops) && |ops| == 1 && run[0].accounts == accounts
    ensures run[1].positions == map[] && GetBalance(run[1].accounts, owner) == GetBalance(accounts, owner) - amount
  {
    var op := StakeCoins(owner, amount, false, "", 0);
    var w := AtGenesis(accounts);
    run, ops := [w, Step(w, op)], [op];
    assert StepAt(run, ops, 0);
  }

  lemma StepLoses(w: World, op: Op)
    requires Enabled(w, op)
    ensures Step(w, op).lost == w.lost + if op.StakeCoins? && Loses(w, op.owner, op.stake) then op.stake else 0
  {
  }

  /** In every run, nothing has been lost by state i if and only if no earlier Stake call passed
      its checks for an owner shorter than ten bytes. */
  lemma {:induction false} NothingLost(run: seq<World>, ops: seq<Op>, i: nat)
    requires IsRun(run, ops) && i < |run|
    ensures run[i].lost >= 0
    ensures run[i].lost == 0
       <==> forall k :: 0 <= k < i && ops[k].StakeCoins? ==> !Loses(run[k], ops[k].owner, ops[k].stake)
  {
    if i > 0 {
      NothingLost(run, ops, i - 1);
      assert StepAt(run, ops, i - 1);
      StepLoses(run[i - 1], ops[i - 1]);
    }
  }

  // ----- Proposals over runs -----

  /** Proposer, deposit and end of a proposal. */
  predicate SameTerms(p: Proposal, q: Proposal) {
    p.proposer == q.proposer && p.deposit == q.deposit && p.endTime == q.endTime
  }

  /** Accounts never disappear, the terms of a proposal never change, and nothing of a settled one. */
  ghost predicate Grows(w: World, v: World) {
    && w.accounts.Keys <= v.accounts.Keys
    && (forall id :: id in w.proposals ==> id in v.proposals && SameTerms(w.proposals[id], v.proposals[id]))
    && (forall id :: id in w.proposals && w.proposals[id].status != Voting ==> v.proposals[id] == w.proposals[id])
  }

  lemma StepGrows(w: World, op: Op)
    requires Linked(w) && Enabled(w, op)
    ensures Grows(w, Step(w, op))
  {
    match op
    case CastVote(id, voter, choice, now) =>
    case SettleProposal(id, now) =>
    case ProposeChange(_, _, _) =>
      assert SoundAt(w.proposals, w.nextId, w.nextId);
    case _ =>
  }

  /** A call adds to or changes the ballots of a proposal exactly when it is a vote on it, while it is
      open and not over, by someone with a balance; a proposal ends seven days after it was made. */
  lemma BallotsChangeExactly(w: World, op: Op, id: nat)
    requires Linked(w) && Solvent(w) && Enabled(w, op)
    ensures id in w.proposals ==>
              var p, q := w.proposals[id], Step(w, op).proposals[id];
              && (q.votes == p.votes || (op.CastVote? && op.id == id && p.status == Voting && op.now <= p.endTime))
              && (op.CastVote? && op.id == id && p.status == Voting && op.now <= p.endTime
                  && GetBalance(w.accounts, op.voter) > 0 ==>
                    Ballot(op.voter, op.choice, GetBalance(w.accounts, op.voter)) in q.votes)
    ensures id !in w.proposals && id in Step(w, op).proposals ==>
              var p := Step(w, op).proposals[id];
              op.ProposeChange? && p.proposer == op.proposer && p.deposit == op.deposit
              && p.endTime == op.now + 604_800_000_000_000 && p.votes == []
  {
    StepGrows(w, op);
    if op.CastVote? && op.id == id {
      var r := VoteOutcome(w.accounts, w.proposals, id, op.voter, op.choice, op.now);
      if r.Accepted? {
        assert SoundAt(w.proposals, w.nextId, id);
        VotedBallots(w.proposals[id], r.ballot);
      }
    } else {
      OtherCallsKeepTallies(w, op, id);
    }
  }

  /** A proposal is settled at most once: from the moment it is no longer open, its record, its
      tallies and its outcome stay the same for the rest of the run. */
  lemma {:induction false} SettledForGood(run: seq<World>, ops: seq<Op>, i: nat, j: nat)
    requires IsRun(run, ops) && i <= j < |run|
    ensures Grows(run[i], run[j])
    decreases j
  {
    if i < j {
      SettledForGood(run, ops, i, j - 1);
      RunLinked(run, ops, j - 1);
      assert StepAt(run, ops, j - 1);
      StepGrows(run[j - 1], ops[j - 1]);
    }
  }

  /** In every reachable state: each voter counts once, the tallies are the ballot sums modulo 2^64,
      the tallies of a passed proposal say that 33% of the supply voted and more than half of that
      power said yes, and the proposer's account is there to receive the refund. */
  lemma ProposalsAreSound(run: seq<World>, ops: seq<Op>, i: nat, id: nat)
    requires IsRun(run, ops) && i < |run| && id in run[i].proposals
    ensures var p := run[i].proposals[id];
            && Tallied(p) && p.proposer in run[i].accounts
            && var quorum := 100 * p.totalPower >= 33 * 500_000_000_000_000;
               && (p.status == Passed ==> quorum && 2 * p.yesPower > p.totalPower)
               && (p.status == Rejected ==> quorum && 2 * p.yesPower <= p.totalPower)
               && (p.status == Expired ==> !quorum)
  {
    RunLinked(run, ops, i);
    assert SoundAt(run[i].proposals, run[i].nextId, id);
    PassesExactly(run[i].proposals[id]);
  }

  /** The call is not a vote on this proposal, or one that fits its tally. */
  predicate FitsTally(w: World, op: Op, id: nat) {
    op.CastVote? && op.id == id ==>
      match VoteOutcome(w.accounts, w.proposals, id, op.voter, op.choice, op.now)
      case Accepted(b) => VoteFits(w.proposals[id], b)
      case _ => true
  }

  ghost predicate ExactIn(w: World, id: nat) {
    id in w.proposals ==> TallyExact(w.proposals[id])
  }

  lemma StepTallyExactly(w: World, op: Op, id: nat)
    requires Linked(w) && Enabled(w, op) && ExactIn(w, id)
    ensures ExactIn(Step(w, op), id) <==> FitsTally(w, op, id)
  {
    if op.CastVote? && op.id == id {
      var r := VoteOutcome(w.accounts, w.proposals, id, op.voter, op.choice, op.now);
      if r.Accepted? {
        assert SoundAt(w.proposals, w.nextId, id);
        VoteExactly(w.proposals[id], r.ballot);
      }
    } else {
      OtherCallsKeepTallies(w, op, id);
    }
  }

  lemma OtherCallsKeepTallies(w: World, op: Op, id: nat)
    requires Linked(w) && Enabled(w, op) && (op.CastVote? ==> op.id != id)
    ensures var v := Step(w, op);
            && (id in w.proposals ==> id in v.proposals && SameBallots(w.proposals[id], v.proposals[id]))
            && (id in v.proposals && id !in w.proposals ==> v.proposals[id].votes == [] && TallyExact(v.proposals[id]))
  {
    match op
    case ProposeChange(proposer, deposit, now) =>
      assert SoundAt(w.proposals, w.nextId, w.nextId);
    case _ =>
  }

  predicate SameBallots(p: Proposal, q: Proposal) {
    p.votes == q.votes && p.totalPower == q.totalPower && p.yesPower == q.yesPower
    && p.noPower == q.noPower && p.abstainPower == q.abstainPower
  }

  /** In every run, the tallies of a proposal are exactly its ballot sums in all states up to i if
      and only if every vote on it fitted when it was cast. */
  lemma TalliesExactly(run: seq<World>, ops: seq<Op>, i: nat, id: nat)
    requires IsRun(run, ops) && i < |run|
    ensures (forall j :: 0 <= j <= i ==> ExactIn(run[j], id))
       <==> (forall k :: 0 <= k < i ==> FitsTally(run[k], ops[k], id))
  {
    var good := (j: int) => 0 <= j <= i ==> ExactIn(run[j], id);
    var fits := (k: int) => 0 <= k < i ==> FitsTally(run[k], ops[k], id);
    forall k | 0 <= k < i
      ensures Decides(good, fits, k)
    {
      RunLinked(run, ops, k);
      assert StepAt(run, ops, k);
      TallyNext(run[k], ops[k], run[k + 1], id);
    }
    GoodWhile(good, fits, i);
    assert forall j :: 0 <= j <= i ==> (good(j) <==> ExactIn(run[j], id));
    assert forall k :: 0 <= k < i ==> (fits(k) <==> FitsTally(run[k], ops[k], id));
  }

  lemma TallyNext(w: World, op: Op, v: World, id: nat)
    requires Linked(w) && StepsTo(w, op, v)
    ensures ExactIn(w, id) ==> (ExactIn(v, id) <==> FitsTally(w, op, id))
  {
    if ExactIn(w, id) {
      StepTallyExactly(w, op, id);
    }
  }

  // ----- Voting power against the supply -----

  /** Every voter still holds what it voted with. */
  predicate StillHeld(accounts: map<string, Ledger.Account>, votes: seq<Ballot>) {
    forall b :: b in votes ==> b.power <= GetBalance(accounts, b.voter)
  }

  /** Then the ballots together weigh no more than all accounts hold. */
  lemma {:induction false} HeldPower(accounts: map<string, Ledger.Account>, votes: seq<Ballot>)
    requires OneVoteEach(votes) && StillHeld(accounts, votes)
    requires forall x :: x in accounts ==> accounts[x].balance >= 0
    ensures Power(votes) <= Total(accounts, BalanceOf)
    decreases |votes|
  {
    TotalBounds(accounts, BalanceOf);
    if votes != [] {
      var n := |votes| - 1;
      var b := votes[n];
      assert b in votes;
      var rest := accounts - {b.voter};
      forall a | a in votes[..n]
        ensures a.power <= GetBalance(rest, a.voter)
      {
        assert a in votes && a.voter != b.voter;
      }
      HeldPower(rest, votes[..n]);
      if b.voter in accounts {
        TotalWithout(accounts, BalanceOf, b.voter);
      } else {
        assert rest == accounts;
      }
    }
  }

  ghost predicate HeldIn(w: World, id: nat) {
    id in w.proposals ==> StillHeld(w.accounts, w.proposals[id].votes)
  }

  /** What a call takes from x: the net of a transfer, a stake or a deposit that passes its checks. */
  function Spends(w: World, op: Op, x: string): int {
    match op
    case Pay(from, to, amount, fee, authorized) =>
      if authorized && Covered(w.accounts, from, amount, fee) then -Delta(from, to, amount, fee, x) else 0
    case StakeCoins(owner, stake, _, _, _) =>
      var r := StakeOutcome(w.accounts, owner, stake);
      if x == owner && (r.Staked? || r.Panicked?) then stake else 0
    case ProposeChange(proposer, deposit, _) =>
      if x == proposer && CreateOutcome(w.accounts, w.nextId, proposer, deposit).Created? then deposit else 0
    case _ => 0
  }

  /** The call leaves every voter of the proposal at least the power of its ballot. */
  predicate KeepsBallots(w: World, op: Op, id: nat) {
    id in w.proposals ==>
      forall b :: b in w.proposals[id].votes ==> b.power <= GetBalance(w.accounts, b.voter) - Spends(w, op, b.voter)
  }

  predicate OnlyCredits(op: Op) { op.UnstakeCoins? || op.SettleProposal? }

  /** Safe calls take exactly what they spend; paying out or back only adds. */
  lemma SpendsExactly(w: World, op: Op, x: string)
    requires Linked(w) && Solvent(w) && Enabled(w, op) && Safe(w, op)
    ensures var after := GetBalance(Step(w, op).accounts, x);
            if OnlyCredits(op) then after >= GetBalance(w.accounts, x)
            else after == GetBalance(w.accounts, x) - Spends(w, op, x)
  {
    match op
    case Pay(from, to, amount, fee, authorized) =>
      if authorized && Covered(w.accounts, from, amount, fee) {
        FittingTransfer(w.accounts, from, to, amount, fee);
      }
    case StakeCoins(owner, stake, isGreen, posId, now) =>
      var r := StakeOutcome(w.accounts, owner, stake);
      if r.Staked? || r.Panicked? {
        DebitedExactly(w.accounts, owner, stake);
      }
    case ProposeChange(proposer, deposit, now) =>
      if CreateOutcome(w.accounts, w.nextId, proposer, deposit).Created? {
        DebitedExactly(w.accounts, proposer, deposit);
      }
    case UnstakeCoins(owner, posId, now) => UnstakeAdds(w, owner, posId, now, x);
    case SettleProposal(id, now) => SettlementAdds(w, id, now, x);
    case _ =>
  }

  lemma UnstakeAdds(w: World, owner: string, id: string, now: int, x: string)
    requires Linked(w) && Solvent(w) && ClockAtLeast(w.positions, now) && Safe(w, UnstakeCoins(owner, id, now))
    ensures GetBalance(UnstakedOut(w, owner, id, now).accounts, x) >= GetBalance(w.accounts, x)
  {
    var r := UnstakeOutcome(w.positions, owner, id, now);
    if r.Unstaked? {
      CreditedExactly(w.accounts, owner, r.pos.amount + r.pos.totalRewards);
    }
  }

  lemma SettlementAdds(w: World, id: nat, now: int, x: string)
    requires Linked(w) && Solvent(w) && Safe(w, SettleProposal(id, now))
    ensures GetBalance(SettledIn(w, id, now).accounts, x) >= GetBalance(w.accounts, x)
  {
    if id in w.proposals && Due(w.proposals[id], now) && Settled(w.proposals[id]).status == Passed {
      CreditedExactly(w.accounts, w.proposals[id].proposer, w.proposals[id].deposit);
    }
  }

  lemma VoteHeld(w: World, id: nat, voter: string, choice: Choice, now: int)
    requires Linked(w) && Solvent(w) && HeldIn(w, id)
    ensures HeldIn(VotedOn(w, id, voter, choice, now), id)
  {
    match VoteOutcome(w.accounts, w.proposals, id, voter, choice, now)
    case Accepted(b) =>
      assert SoundAt(w.proposals, w.nextId, id);
      VotedBallots(w.proposals[id], b);
    case _ =>
  }

  /** From a state in which every ballot is still held, a safe call keeps them held if and only if it
      leaves each voter at least the power of its ballot. */
  lemma StepHeldExactly(w: World, op: Op, id: nat)
    requires Linked(w) && Solvent(w) && Enabled(w, op) && Safe(w, op) && HeldIn(w, id)
    ensures HeldIn(Step(w, op), id) <==> KeepsBallots(w, op, id)
  {
    if op.CastVote? && op.id == id {
      VoteHeld(w, id, op.voter, op.choice, op.now);
    } else {
      OtherCallsKeepTallies(w, op, id);
      if id in w.proposals {
        BallotsFollow(w, op, id, w.proposals[id].votes);
      }
    }
  }

  lemma BallotsFollow(w: World, op: Op, id: nat, votes: seq<Ballot>)
    requires Linked(w) && Solvent(w) && Enabled(w, op) && Safe(w, op) && StillHeld(w.accounts, votes)
    ensures StillHeld(Step(w, op).accounts, votes)
       <==> forall b :: b in votes ==> b.power <= GetBalance(w.accounts, b.voter) - Spends(w, op, b.voter)
  {
    var v := Step(w, op);
    forall b | b in votes
      ensures b.power <= GetBalance(v.accounts, b.voter)
         <==> b.power <= GetBalance(w.accounts, b.voter) - Spends(w, op, b.voter)
    {
      SpendsExactly(w, op, b.voter);
    }
  }

  /** Along safe calls, the ballots on a proposal are still held in all states up to i if and only if
      no call left a voter less than the power of its ballot. */
  lemma HeldExactly(run: seq<World>, ops: seq<Op>, i: nat, id: nat)
    requires IsRun(run, ops) && i < |run| && InRange(run[0].accounts) && SafeUpTo(run, ops, i)
    ensures (forall j :: 0 <= j <= i ==> HeldIn(run[j], id))
       <==> (forall k :: 0 <= k < i ==> KeepsBallots(run[k], ops[k], id))
  {
    var good := (j: int) => 0 <= j <= i ==> HeldIn(run[j], id);
    var fits := (k: int) => 0 <= k < i ==> KeepsBallots(run[k], ops[k], id);
    forall k | 0 <= k < i
      ensures Decides(good, fits, k)
    {
      RunLinked(run, ops, k);
      RunSolvent(run, ops, k);
      assert StepAt(run, ops, k);
      HeldNext(run[k], ops[k], run[k + 1], id);
    }
    GoodWhile(good, fits, i);
    assert forall j :: 0 <= j <= i ==> (good(j) <==> HeldIn(run[j], id));
    assert forall k :: 0 <= k < i ==> (fits(k) <==> KeepsBallots(run[k], ops[k], id));
  }

  lemma HeldNext(w: World, op: Op, v: World, id: nat)
    requires Linked(w) && Solvent(w) && StepsTo(w, op, v) && Safe(w, op)
    ensures HeldIn(w, id) ==> (HeldIn(v, id) <==> KeepsBallots(w, op, id))
  {
    if HeldIn(w, id) {
      StepHeldExactly(w, op, id);
    }
  }

  /** Voting power is the balance at voting time. As long as no call leaves a voter of the proposal
      less than its ballot, the votes on it never weigh more than all accounts hold. */
  lemma PowerWithinSupply(run: seq<World>, ops: seq<Op>, i: nat, id: nat)
    requires IsRun(run, ops) && i < |run| && InRange(run[0].accounts) && SafeUpTo(run, ops, i)
    requires forall k :: 0 <= k < i ==> KeepsBallots(run[k], ops[k], id)
    ensures id in run[i].proposals ==> run[i].proposals[id].totalPower <= Total(run[i].accounts, BalanceOf)
  {
    HeldExactly(run, ops, i, id);
    assert HeldIn(run[i], id);
    RunSolvent(run, ops, i);
    RunLinked(run, ops, i);
    if id in run[i].proposals {
      var p := run[i].proposals[id];
      assert SoundAt(run[i].proposals, run[i].nextId, id);
      HeldPower(run[i].accounts, p.votes);
      U64AtMost(Power(p.votes));
    }
  }

  /** A first vote adds the voter's power to the tally. */
  lemma FirstVote(w: World, id: nat, voter: string, choice: Choice, now: int)
    requires id in w.proposals && w.proposals[id].status == Voting && now <= w.proposals[id].endTime
    requires forall b :: b in w.proposals[id].votes ==> b.voter != voter
    requires U64(GetBalance(w.accounts, voter)) > 0
    ensures var v := VotedOn(w, id, voter, choice, now);
            var p, b := w.proposals[id], Ballot(voter, choice, U64(GetBalance(w.accounts, voter)));
            && v == w.(proposals := v.proposals) && v.proposals == w.proposals[id := Counted(p, b)]
  {
    var b := Ballot(voter, choice, U64(GetBalance(w.accounts, voter)));
    assert VoteOutcome(w.accounts, w.proposals, id, voter, choice, now) == Accepted(b);
    var votes := w.proposals[id].votes;
    assert BallotOf(votes, voter) == |votes|;
  }

  lemma AliceOwns(accounts: map<string, Ledger.Account>, x: nat)
    requires accounts == map["alice" := Account(x, 0, "")] && x <= MAX_INT64
    ensures InRange(accounts) && Total(accounts, BalanceOf) == x
  {
    var none: map<string, Ledger.Account> := map[];
    TotalUpdate(none, BalanceOf, "alice", Account(x, 0, ""));
    assert none["alice" := Account(x, 0, "")] == accounts;
  }

  lemma AliceVotes(w: World) returns (w1: World, v: World, p: Proposal)
    requires w == AtGenesis(map["alice" := Account(3 * MIN_DEPOSIT, 0, "")])
    ensures StepsTo(w, ProposeChange("alice", MIN_DEPOSIT, 0), w1) && StepsTo(w1, CastVote(1, "alice", Yes, 0), v)
    ensures v.accounts == map["alice" := Account(2 * MIN_DEPOSIT, 0, "")] && w1.rewards == v.rewards == 0
    ensures v.proposals == map[1 := p] && p.status == Voting && p.endTime >= 0
    ensures p.totalPower == 2 * MIN_DEPOSIT && forall b :: b in p.votes ==> b.voter == "alice"
  {
    w1 := Proposed(w, "alice", MIN_DEPOSIT, 0);
    assert CreateOutcome(w.accounts, 1, "alice", MIN_DEPOSIT) == Created(1);
    assert w1.accounts == map["alice" := Account(2 * MIN_DEPOSIT, 0, "")];
    assert w1.proposals == map[1 := NewProposal("alice", MIN_DEPOSIT, 0)];
    v := VotedOn(w1, 1, "alice", Yes, 0);
    FirstVote(w1, 1, "alice", Yes, 0);
    p := v.proposals[1];
  }

  lemma BobVotes(w: World, p: Proposal) returns (w1: World, v: World)
    requires w.accounts == map["alice" := Account(2 * MIN_DEPOSIT, 0, "")] && w.rewards == 0
    requires w.proposals == map[1 := p] && p.status == Voting && p.endTime >= 0 && p.totalPower == 2 * MIN_DEPOSIT
    requires forall b :: b in p.votes ==> b.voter != "bob"
    ensures StepsTo(w, Pay("alice", "bob", 2 * MIN_DEPOSIT, 0, true), w1) && StepsTo(w1, CastVote(1, "bob", Yes, 0), v)
    ensures 1 in v.proposals && v.proposals[1].totalPower == 4 * MIN_DEPOSIT && w1.rewards == v.rewards == 0
  {
    w1 := Paid(w, "alice", "bob", 2 * MIN_DEPOSIT, 0, true);
    MovedEntry(w.accounts, "alice", "bob", 2 * MIN_DEPOSIT, 0, "bob");
    v := VotedOn(w1, 1, "bob", Yes, 0);
    FirstVote(w1, 1, "bob", Yes, 0);
  }

  /** Without that condition the same coins can vote twice: a voter pays them on to another
      account, which votes too, and the proposal counts more power than was ever issued. */
  lemma CoinsVoteTwice() returns (run: seq<World>, ops: seq<Op>)
    ensures IsRun(run, ops) && InRange(run[0].accounts) && SafeUpTo(run, ops, |ops|)
    ensures var last := run[|ops|];
            1 in last.proposals && last.proposals[1].totalPower > Total(run[0].accounts, BalanceOf) + last.rewards
  {
    var w0 := AtGenesis(map["alice" := Account(3 * MIN_DEPOSIT, 0, "")]);
    AliceOwns(w0.accounts, 3 * MIN_DEPOSIT);
    var w1, w2, p := AliceVotes(w0);
    var w3, w4 := BobVotes(w2, p);
    run, ops := FourSteps(w0, ProposeChange("alice", MIN_DEPOSIT, 0), w1, CastVote(1, "alice", Yes, 0), w2,
                          Pay("alice", "bob", 2 * MIN_DEPOSIT, 0, true), w3, CastVote(1, "bob", Yes, 0), w4);
  }

  lemma FourSteps(w0: World, a: Op, w1: World, b: Op, w2: World, c: Op, w3: World, d: Op, w4: World)
    returns (run: seq<World>, ops: seq<Op>)
    requires w0 == AtGenesis(w0.accounts) && InRange(w0.accounts) && Total(w0.accounts, BalanceOf) <= MAX_INT64
    requires Ordinary(a) && Ordinary(b) && Ordinary(c) && Ordinary(d)
    requires w1.rewards == w2.rewards == w3.rewards == w4.rewards == 0
    requires StepsTo(w0, a, w1) && StepsTo(w1, b, w2) && StepsTo(w2, c, w3) && StepsTo(w3, d, w4)
    ensures IsRun(run, ops) && ops == [a, b, c, d] && run[0] == w0 && run[4] == w4
    ensures SafeUpTo(run, ops, 4)
  {
    run, ops := [w0, w1, w2, w3, w4], [a, b, c, d];
    assert StepAt(run, ops, 0) && StepAt(run, ops, 1) && StepAt(run, ops, 2) && StepAt(run, ops, 3);
    OrdinaryRunIsSafe(run, ops);
  }

  // ----- A run in which a tally wraps around -----

  lemma BobOverdrawn(w: World) returns (w1: World, v: World)
    requires w == AtGenesis(map["alice" := Account(2 * MIN_DEPOSIT, 0, ""), "bob" := Account(100, 0, "")])
    ensures StepsTo(w, ProposeChange("alice", MIN_DEPOSIT, 0), w1) && StepsTo(w1, Pay("alice", "bob", -101, 1, true), v)
    ensures GetBalance(v.accounts, "alice") == MIN_DEPOSIT + 100 && GetBalance(v.accounts, "bob") == -1
    ensures v.proposals == map[1 := NewProposal("alice", MIN_DEPOSIT, 0)]
  {
    w1 := Proposed(w, "alice", MIN_DEPOSIT, 0);
    assert CreateOutcome(w.accounts, 1, "alice", MIN_DEPOSIT) == Created(1);
    assert w1.accounts == map["alice" := Account(MIN_DEPOSIT, 0, ""), "bob" := Account(100, 0, "")];
    v := Paid(w1, "alice", "bob", -101, 1, true);
    MovedEntry(w1.accounts, "alice", "bob", -101, 1, "alice");
    MovedEntry(w1.accounts, "alice", "bob", -101, 1, "bob");
  }

  lemma BothVoteYes(w: World) returns (w1: World, v: World, p: Proposal)
    requires GetBalance(w.accounts, "alice") == MIN_DEPOSIT + 100 && GetBalance(w.accounts, "bob") == -1
    requires w.proposals == map[1 := NewProposal("alice", MIN_DEPOSIT, 0)]
    ensures StepsTo(w, CastVote(1, "bob", Yes, 0), w1) && StepsTo(w1, CastVote(1, "alice", Yes, 0), v)
    ensures v.proposals == map[1 := p] && p.status == Voting && p.endTime == VOTING_PERIOD_NS
    ensures p.votes == [Ballot("bob", Yes, TWO_64 - 1), Ballot("alice", Yes, MIN_DEPOSIT + 100)]
    ensures p.totalPower == MIN_DEPOSIT + 99
  {
    w1 := VotedOn(w, 1, "bob", Yes, 0);
    FirstVote(w, 1, "bob", Yes, 0);
    assert U64(-1) == TWO_64 - 1;
    v := VotedOn(w1, 1, "alice", Yes, 0);
    FirstVote(w1, 1, "alice", Yes, 0);
    p := v.proposals[1];
    assert U64(TWO_64 - 1 + (MIN_DEPOSIT + 100)) == U64(MIN_DEPOSIT + 99);
  }

  lemma ExpiresLate(w: World, p: Proposal, late: int) returns (v: World)
    requires w.proposals == map[1 := p] && p.status == Voting && p.endTime < late
    requires 100 * p.totalPower < 33 * TOTAL_SUPPLY
    ensures StepsTo(w, SettleProposal(1, late), v) && v.proposals == map[1 := p.(status := Expired)]
  {
    PassesExactly(p);
    v := SettledIn(w, 1, late);
  }

  lemma YesOfBoth(votes: seq<Ballot>, b: Ballot, c: Ballot)
    requires votes == [b, c] && b.choice == c.choice == Yes
    ensures Power(votes) == PowerFor(votes, Yes) == b.power + c.power
  {
    PowerWith([], b, Yes);
    PowerWith([b], c, Yes);
    assert [] + [b] == [b] && [b] + [c] == votes;
  }

  lemma WrappedRun() returns (run: seq<World>, ops: seq<Op>, p: Proposal)
    ensures IsRun(run, ops) && InRange(run[0].accounts) && run[|ops|].proposals == map[1 := p.(status := Expired)]
    ensures p.votes == [Ballot("bob", Yes, TWO_64 - 1), Ballot("alice", Yes, MIN_DEPOSIT + 100)]
  {
    var w0 := AtGenesis(map["alice" := Account(2 * MIN_DEPOSIT, 0, ""), "bob" := Account(100, 0, "")]);
    var w1, w2 := BobOverdrawn(w0);
    var w3, w4;
    w3, w4, p := BothVoteYes(w2);
    var late := VOTING_PERIOD_NS + 1;
    var w5 := ExpiresLate(w4, p, late);
    run, ops := FiveSteps(w0, ProposeChange("alice", MIN_DEPOSIT, 0), w1, Pay("alice", "bob", -101, 1, true), w2,
                          CastVote(1, "bob", Yes, 0), w3, CastVote(1, "alice", Yes, 0), w4,
                          SettleProposal(1, late), w5);
  }

  /** When a vote does not fit, the outcome can contradict the ballots: a voter with a balance of -1
      has a power of 2^64 - 1, the next vote wraps the total around, and a proposal for which
      everyone voted expires. */
  lemma TallyWraps() returns (run: seq<World>, ops: seq<Op>)
    ensures IsRun(run, ops) && InRange(run[0].accounts) && 1 in run[|ops|].proposals
    ensures var p := run[|ops|].proposals[1];
            && p.status == Expired
            && 100 * Power(p.votes) >= 33 * TOTAL_SUPPLY && PowerFor(p.votes, Yes) == Power(p.votes)
  {
    var p;
    run, ops, p := WrappedRun();
    YesOfBoth(p.votes, p.votes[0], p.votes[1]);
  }

  lemma FiveSteps(w0: World, a: Op, w1: World, b: Op, w2: World, c: Op, w3: World, d: Op, w4: World, e: Op, w5: World)
    returns (run: seq<World>, ops: seq<Op>)
    requires w0 == AtGenesis(w0.accounts) && Typed(w0.accounts)
    requires StepsTo(w0, a, w1) && StepsTo(w1, b, w2) && StepsTo(w2, c, w3) && StepsTo(w3, d, w4) && StepsTo(w4, e, w5)
    ensures IsRun(run, ops) && |ops| == 5 && run[0] == w0 && run[5] == w5
  {
    run, ops := [w0, w1, w2, w3, w4, w5], [a, b, c, d, e];
    assert StepAt(run, ops, 0) && StepAt(run, ops, 1) && StepAt(run, ops, 2);
    assert StepAt(run, ops, 3) && StepAt(run, ops, 4);
  }
}
