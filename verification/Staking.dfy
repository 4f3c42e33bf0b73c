/** Staking positions and linear rewards of staking.go. Times are nanoseconds of one
    non-decreasing clock; the float64 reward is computed in real, so only its floor rounds. */
module Staking {
  import opened NumberTheory
  import opened Words
  import opened Ledger

  const MIN_STAKE: int := 100_000_000
  const NS_PER_DAY: real := 86_400_000_000_000.0
  /** Stake slices the first ten bytes of the owner for the position id, after the debit. */
  const ID_PREFIX: int := 10

  datatype Position = Position(
    owner: string, amount: nat, start: int, lastReward: int, totalRewards: nat, isGreen: bool, isActive: bool)

  function Apy(isGreen: bool): real { if isGreen then 0.105 else 0.10 }

  /** Amount * dailyRate * days, before rounding. */
  function Linear(amount: nat, isGreen: bool, elapsed: int): real {
    amount as real * (Apy(isGreen) / 365.0) * (elapsed as real / NS_PER_DAY)
  }

  /** uint64(math.Floor(...)) for a clock that does not run backwards. */
  function Reward(amount: nat, isGreen: bool, elapsed: int): nat
    requires elapsed >= 0
  {
    LinearNonNegative(amount, isGreen, elapsed);
    Linear(amount, isGreen, elapsed).Floor
  }

  /** calculateRewards: LastReward moves only when something was paid. */
  function Accrued(p: Position, now: int): Position
    requires now >= p.lastReward
  {
    var r := Reward(p.amount, p.isGreen, now - p.lastReward);
    if r > 0 then p.(totalRewards := p.totalRewards + r, lastReward := now) else p
  }

  // ----- Linearity -----

  function Slope(amount: nat, isGreen: bool): real {
    amount as real * (Apy(isGreen) / 365.0) / NS_PER_DAY
  }

  lemma LinearIsSlope(amount: nat, isGreen: bool, elapsed: int)
    ensures Linear(amount, isGreen, elapsed) == Slope(amount, isGreen) * elapsed as real
  {
    var a, t := amount as real * (Apy(isGreen) / 365.0), elapsed as real;
    assert a * (t / NS_PER_DAY) == a / NS_PER_DAY * t;
  }

  lemma SlopeNonNegative(amount: nat, isGreen: bool)
    ensures Slope(amount, isGreen) >= 0.0
  {
  }

  lemma NonNegativeProduct(a: real, b: real)
    requires a >= 0.0 && b >= 0.0
    ensures a * b >= 0.0
  {
  }

  lemma LinearNonNegative(amount: nat, isGreen: bool, elapsed: int)
    requires elapsed >= 0
    ensures Linear(amount, isGreen, elapsed) >= 0.0
  {
    LinearIsSlope(amount, isGreen, elapsed);
    SlopeNonNegative(amount, isGreen);
    NonNegativeProduct(Slope(amount, isGreen), elapsed as real);
  }

  lemma LinearAdds(amount: nat, isGreen: bool, s: int, t: int)
    ensures Linear(amount, isGreen, s + t) == Linear(amount, isGreen, s) + Linear(amount, isGreen, t)
  {
    LinearIsSlope(amount, isGreen, s);
    LinearIsSlope(amount, isGreen, t);
    LinearIsSlope(amount, isGreen, s + t);
    var k := Slope(amount, isGreen);
    assert (s + t) as real == s as real + t as real;
    assert k * (s as real + t as real) == k * s as real + k * t as real;
  }

  // ----- Accrual over any sequence of instants -----

  /** A position with the number of accruals that paid something. */
  datatype Accrual = Accrual(pos: Position, paying: nat)

  function Unpaid(owner: string, amount: nat, isGreen: bool, start: int): Accrual {
    Accrual(NewPosition(owner, amount, isGreen, start), 0)
  }

  function Accrue(a: Accrual, now: int): Accrual
    requires now >= a.pos.lastReward
  {
    var p := Accrued(a.pos, now);
    Accrual(p, a.paying + if p.lastReward != a.pos.lastReward || p.totalRewards != a.pos.totalRewards then 1 else 0)
  }

  predicate NonDecreasing(start: int, times: seq<int>) {
    && (forall i :: 0 <= i < |times| ==> start <= times[i])
    && (forall i, j :: 0 <= i < j < |times| ==> times[i] <= times[j])
  }

  function Last(start: int, times: seq<int>): int {
    if times == [] then start else times[|times| - 1]
  }

  lemma PrefixTimes(start: int, times: seq<int>)
    requires NonDecreasing(start, times) && times != []
    ensures NonDecreasing(start, times[..|times| - 1]) && Last(start, times[..|times| - 1]) <= Last(start, times)
  {
  }

  /** Rewards after accruing at each of the given instants. */
  function AfterAccruals(owner: string, amount: nat, isGreen: bool, start: int, times: seq<int>): (a: Accrual)
    requires NonDecreasing(start, times)
    ensures a.pos.amount == amount && a.pos.isGreen == isGreen && a.pos.start == start
    ensures start <= a.pos.lastReward <= Last(start, times)
    decreases |times|
  {
    if times == [] then Unpaid(owner, amount, isGreen, start)
    else
      PrefixTimes(start, times);
      Accrue(AfterAccruals(owner, amount, isGreen, start, times[..|times| - 1]), times[|times| - 1])
  }

  /** Up to the last payment, what was paid is the exact linear amount less a fraction of one
      unit per payment; since then less than one unit has built up. */
  ghost predicate Tracks(a: Accrual, now: int) {
    var p := a.pos;
    && a.pos.lastReward <= now
    && p.totalRewards as real <= Linear(p.amount, p.isGreen, p.lastReward - p.start)
    && (a.paying > 0 ==>
          Linear(p.amount, p.isGreen, p.lastReward - p.start) < p.totalRewards as real + a.paying as real)
    && (a.paying == 0 ==> p.totalRewards == 0 && p.lastReward == p.start)
    && Linear(p.amount, p.isGreen, now - p.lastReward) < 1.0
  }

  lemma RewardIsFloor(amount: nat, isGreen: bool, elapsed: int)
    requires elapsed >= 0
    ensures var r := Reward(amount, isGreen, elapsed) as real;
            r <= Linear(amount, isGreen, elapsed) < r + 1.0
  {
  }

  lemma LinearOfNothing(amount: nat, isGreen: bool)
    ensures Linear(amount, isGreen, 0) == 0.0
  {
    LinearIsSlope(amount, isGreen, 0);
  }

  lemma AccrueTracks(a: Accrual, before: int, now: int)
    requires Tracks(a, before) && before <= now
    ensures Tracks(Accrue(a, now), now)
  {
    var p := a.pos;
    RewardIsFloor(p.amount, p.isGreen, now - p.lastReward);
    var x := Linear(p.amount, p.isGreen, now - p.lastReward);
    var r := Reward(p.amount, p.isGreen, now - p.lastReward);
    LinearAdds(p.amount, p.isGreen, p.lastReward - p.start, now - p.lastReward);
    assert p.lastReward - p.start + (now - p.lastReward) == now - p.start;
    LinearOfNothing(p.amount, p.isGreen);
    var q := Accrue(a, now).pos;
    if r > 0 {
      assert q.lastReward - q.start == now - p.start && now - q.lastReward == 0;
    } else {
      assert q == p;
    }
  }

  /** However often a position accrues, what it has been paid by the last instant T is at most
      the exact linear amount for T - start and falls short of it by less than the number of
      paying accruals plus one: accruing more often never pays more than the linear amount. */
  lemma {:induction false} AccrualIsLinear(owner: string, amount: nat, isGreen: bool, start: int, times: seq<int>)
    requires NonDecreasing(start, times)
    ensures var a := AfterAccruals(owner, amount, isGreen, start, times);
            var exact := Linear(amount, isGreen, Last(start, times) - start);
            a.pos.totalRewards as real <= exact < a.pos.totalRewards as real + a.paying as real + 1.0
            && Tracks(a, Last(start, times))
  {
    var a := AfterAccruals(owner, amount, isGreen, start, times);
    if times == [] {
      LinearIsSlope(amount, isGreen, 0);
      assert start - start == 0;
    } else {
      PrefixTimes(start, times);
      var before := times[..|times| - 1];
      AccrualIsLinear(owner, amount, isGreen, start, before);
      AccrueTracks(AfterAccruals(owner, amount, isGreen, start, before), Last(start, before), times[|times| - 1]);
    }
    var now := Last(start, times);
    LinearAdds(amount, isGreen, a.pos.lastReward - start, now - a.pos.lastReward);
    assert a.pos.lastReward - start + (now - a.pos.lastReward) == now - start;
    LinearNonNegative(amount, isGreen, now - a.pos.lastReward);
    LinearIsSlope(amount, isGreen, 0);
  }

  // ----- The yield, in whole numbers -----

  /** A year of 365 days. */
  const YEAR_NS: int := 31_536_000_000_000_000

  lemma ScaledProduct(a: real, t: real, apy: real)
    ensures a * (apy / 365.0) * (t / NS_PER_DAY) * (1000.0 * YEAR_NS as real) == 1000.0 * apy * (a * t)
  {
    assert a * (apy / 365.0) * (t / NS_PER_DAY) == a * t * (apy / 365.0 / NS_PER_DAY);
  }

  /** 10% a year, and 10.5% for green positions, in proportion to stake and time. */
  lemma LinearInWholes(amount: nat, isGreen: bool, elapsed: int)
    ensures Linear(amount, isGreen, elapsed) * (1000.0 * YEAR_NS as real)
         == ((if isGreen then 105 else 100) * (amount * elapsed)) as real
  {
    ScaledProduct(amount as real, elapsed as real, if isGreen then 0.105 else 0.10);
    assert (amount * elapsed) as real == amount as real * elapsed as real;
  }

  lemma ScaledBetween(x: real, lo: int, hi: int, whole: int)
    requires lo as real <= x < hi as real && x * (1000.0 * YEAR_NS as real) == whole as real
    ensures 1000 * YEAR_NS * lo <= whole < 1000 * YEAR_NS * hi
  {
    assert (1000 * YEAR_NS * lo) as real <= whole as real < (1000 * YEAR_NS * hi) as real;
  }

  /** What a position has been paid by the last of any accrual instants, without the formula that
      computes it: 100 (green: 105) per 1000 and year, short of it by less than the paying accruals
      plus one. */
  lemma YieldExactly(owner: string, amount: nat, isGreen: bool, start: int, times: seq<int>)
    requires NonDecreasing(start, times)
    ensures var a := AfterAccruals(owner, amount, isGreen, start, times);
            var paid := a.pos.totalRewards;
            1000 * 31_536_000_000_000_000 * paid
            <= (if isGreen then 105 else 100) * (amount * (Last(start, times) - start))
            < 1000 * 31_536_000_000_000_000 * (paid + a.paying + 1)
  {
    AccrualIsLinear(owner, amount, isGreen, start, times);
    var a := AfterAccruals(owner, amount, isGreen, start, times);
    var elapsed := Last(start, times) - start;
    LinearInWholes(amount, isGreen, elapsed);
    ScaledBetween(Linear(amount, isGreen, elapsed), a.pos.totalRewards, a.pos.totalRewards + a.paying + 1,
                  (if isGreen then 105 else 100) * (amount * elapsed));
  }

  /** After exactly one year: at most a tenth of the stake, or 10.5% of it when green. */
  lemma YearlyYield(owner: string, amount: nat, isGreen: bool, start: int, times: seq<int>)
    requires NonDecreasing(start, times) && Last(start, times) == start + 365 * 86_400 * 1_000_000_000
    ensures var a := AfterAccruals(owner, amount, isGreen, start, times);
            var paid := a.pos.totalRewards;
            if isGreen then 1000 * paid <= 105 * amount < 1000 * (paid + a.paying + 1)
            else 10 * paid <= amount < 10 * (paid + a.paying + 1)
  {
    YieldExactly(owner, amount, isGreen, start, times);
    var a := AfterAccruals(owner, amount, isGreen, start, times);
    YearCancels(amount, Last(start, times) - start, if isGreen then 105 else 100, a.pos.totalRewards,
                a.pos.totalRewards + a.paying + 1);
  }

  lemma YearCancels(amount: int, t: int, rate: int, lo: int, hi: int)
    requires t == YEAR_NS && (rate == 100 || rate == 105)
    requires 1000 * YEAR_NS * lo <= rate * (amount * t) < 1000 * YEAR_NS * hi
    ensures 1000 * lo <= rate * amount < 1000 * hi
  {
    assert amount * t == YEAR_NS * amount;
  }

  /** One accrual, in whole numbers. */
  lemma RewardInWholes(amount: nat, isGreen: bool, elapsed: int)
    requires elapsed >= 0
    ensures var paid := Reward(amount, isGreen, elapsed);
            1000 * 31_536_000_000_000_000 * paid <= (if isGreen then 105 else 100) * (amount * elapsed)
            < 1000 * 31_536_000_000_000_000 * (paid + 1)
  {
    RewardIsFloor(amount, isGreen, elapsed);
    LinearInWholes(amount, isGreen, elapsed);
    var paid := Reward(amount, isGreen, elapsed);
    ScaledBetween(Linear(amount, isGreen, elapsed), paid, paid + 1,
                  (if isGreen then 105 else 100) * (amount * elapsed));
  }

  /** A green position never earns less for the same stake and time, and more once half a percent of
      the stake over that time is a whole unit. */
  lemma GreenEarnsMore(amount: nat, elapsed: nat)
    ensures Reward(amount, true, elapsed) >= Reward(amount, false, elapsed)
    ensures 5 * (amount * elapsed) >= 1000 * 31_536_000_000_000_000 ==>
              Reward(amount, true, elapsed) > Reward(amount, false, elapsed)
  {
    RewardInWholes(amount, true, elapsed);
    RewardInWholes(amount, false, elapsed);
    NonNegativeWhole(amount, elapsed);
  }

  lemma NonNegativeWhole(a: nat, b: nat)
    ensures a * b >= 0
  {
  }

  const NINE_YEARS_NS: int := 9 * 365 * 86_400_000_000_000

  lemma ScaledAtMost(a: real, x: real)
    requires a >= 0.0 && x <= 1.0
    ensures a * x <= a
  {
    NonNegativeProduct(a, 1.0 - x);
    assert a * (1.0 - x) == a - a * x;
  }

  lemma LinearAtMostStake(amount: nat, isGreen: bool, elapsed: int)
    requires 0 <= elapsed <= NINE_YEARS_NS
    ensures Linear(amount, isGreen, elapsed) <= amount as real
  {
    var rate, days := Apy(isGreen) / 365.0, elapsed as real / NS_PER_DAY;
    assert days <= 3285.0;
    assert rate <= 0.105 / 365.0;
    assert rate * days <= 0.105 / 365.0 * days;
    assert amount as real * rate * days == amount as real * (rate * days);
    ScaledAtMost(amount as real, rate * days);
  }

  /** Within nine years no position earns more than its stake, however often it accrues; so the
      uint64 total of any uint64 stake cannot wrap around in that time. */
  lemma RewardsBelowStake(owner: string, amount: nat, isGreen: bool, start: int, times: seq<int>)
    requires NonDecreasing(start, times) && Last(start, times) - start <= NINE_YEARS_NS
    ensures AfterAccruals(owner, amount, isGreen, start, times).pos.totalRewards <= amount
  {
    AccrualIsLinear(owner, amount, isGreen, start, times);
    LinearAtMostStake(amount, isGreen, Last(start, times) - start);
  }

  // ----- The keeper -----

  function NewPosition(owner: string, amount: nat, isGreen: bool, now: int): Position {
    Position(owner, amount, now, now, 0, isGreen, true)
  }

  datatype StakeResult = Staked | BelowMinimum | NotEnoughBalance | Panicked

  /** Panicked: the owner is shorter than the id prefix, and the debit has already happened. */
  function StakeOutcome(accounts: map<string, Ledger.Account>, owner: string, amount: nat): StakeResult {
    if amount < MIN_STAKE then BelowMinimum
    else if U64(GetBalance(accounts, owner)) < amount then NotEnoughBalance
    else if |owner| < ID_PREFIX then Panicked
    else Staked
  }

  /** Which stakes are accepted, on non-negative balances. */
  lemma StakeAcceptedExactly(accounts: map<string, Ledger.Account>, owner: string, amount: nat)
    requires InRange(accounts)
    ensures StakeOutcome(accounts, owner, amount).Staked?
       <==> 100_000_000 <= amount <= GetBalance(accounts, owner) && |owner| >= 10
    ensures StakeOutcome(accounts, owner, amount).Panicked?
       <==> 100_000_000 <= amount <= GetBalance(accounts, owner) && |owner| < 10
  {
  }

  datatype UnstakeResult = Unstaked(pos: Position) | PositionNotFound | NotYours | AlreadyInactive

  function UnstakeOutcome(positions: map<string, Position>, owner: string, id: string, now: int): UnstakeResult
    requires id in positions ==> now >= positions[id].lastReward
  {
    if id !in positions then PositionNotFound
    else if positions[id].owner != owner then NotYours
    else if !positions[id].isActive then AlreadyInactive
    else Unstaked(Accrued(positions[id], now).(isActive := false))
  }

  /** One pass of rewardLoop. */
  function AllAccrued(positions: map<string, Position>, now: int): map<string, Position>
    requires ClockAtLeast(positions, now)
  {
    map id | id in positions :: if positions[id].isActive then Accrued(positions[id], now) else positions[id]
  }

  predicate ClockAtLeast(positions: map<string, Position>, now: int) {
    forall id :: id in positions ==> positions[id].lastReward <= now
  }

  class StakingKeeper {
    const state: StateKeeper
    var positions: map<string, Position>

    ghost predicate Valid()
      reads this, state
    {
      state.Valid() && forall id :: id in positions ==> positions[id].owner in state.accounts
    }

    constructor (state: StateKeeper)
      requires state.Valid()
      ensures Valid() && this.state == state && positions == map[]
    {
      this.state := state;
      positions := map[];
    }

    /** id is the owner prefix with the clock reading. */
    method Stake(owner: string, amount: nat, isGreen: bool, id: string, now: int) returns (r: StakeResult)
      requires Valid()
      modifies this, state
      ensures Valid() && r == StakeOutcome(old(state.accounts), owner, amount)
      ensures r.BelowMinimum? <==> amount < 100_000_000
      ensures r.NotEnoughBalance? <==> 100_000_000 <= amount && U64(GetBalance(old(state.accounts), owner)) < amount
      ensures r.Panicked? ==> |owner| < 10
      ensures r.Staked? <==> 100_000_000 <= amount <= U64(GetBalance(old(state.accounts), owner)) && |owner| >= 10
      ensures r.Staked? || r.Panicked? ==>
                owner in old(state.accounts) && state.accounts == Debited(old(state.accounts), owner, amount)
      ensures !r.Staked? && !r.Panicked? ==> state.accounts == old(state.accounts)
      ensures positions == if r.Staked? then old(positions)[id := Position(owner, amount, now, now, 0, isGreen, true)]
                           else old(positions)
    {
      if amount < MIN_STAKE {
        return BelowMinimum;
      }
      var balance := U64(GetBalance(state.accounts, owner));
      if balance < amount {
        return NotEnoughBalance;
      }
      state.accounts := Debited(state.accounts, owner, amount);
      if |owner| < ID_PREFIX {
        return Panicked;
      }
      positions := positions[id := NewPosition(owner, amount, isGreen, now)];
      return Staked;
    }

    /** Pays back the stake with everything it has earned. */
    method Unstake(owner: string, id: string, now: int) returns (r: UnstakeResult)
      requires Valid() && (id in positions ==> now >= positions[id].lastReward)
      modifies this, state
      ensures Valid() && r == UnstakeOutcome(old(positions), owner, id, now)
      ensures r.PositionNotFound? <==> id !in old(positions)
      ensures r.NotYours? <==> id in old(positions) && old(positions)[id].owner != owner
      ensures r.Unstaked? <==> id in old(positions) && old(positions)[id].owner == owner && old(positions)[id].isActive
      ensures r.Unstaked? ==> && !r.pos.isActive && r.pos.owner == owner && r.pos.amount == old(positions)[id].amount
                              && r.pos.totalRewards == Accrued(old(positions)[id], now).totalRewards
      ensures r.Unstaked? ==>
                && owner in old(state.accounts)
                && state.accounts == Credited(old(state.accounts), owner, r.pos.amount + r.pos.totalRewards)
                && positions == old(positions)[id := r.pos]
      ensures !r.Unstaked? ==> state.accounts == old(state.accounts) && positions == old(positions)
    {
      if id !in positions {
        return PositionNotFound;
      }
      var pos := positions[id];
      if pos.owner != owner {
        return NotYours;
      }
      if !pos.isActive {
        return AlreadyInactive;
      }
      pos := CalculateRewards(pos, now);
      state.accounts := Credited(state.accounts, owner, pos.amount + pos.totalRewards);
      pos := pos.(isActive := false);
      positions := positions[id := pos];
      return Unstaked(pos);
    }

    /** The preview is exactly what Unstake adds at the same instant. */
    method PendingRewards(id: string, now: int) returns (r: nat)
      requires id in positions ==> now >= positions[id].lastReward
      ensures id !in positions || !positions[id].isActive ==> r == 0
      ensures id in positions && positions[id].isActive ==>
                Accrued(positions[id], now).totalRewards == positions[id].totalRewards + r
    {
      if id !in positions || !positions[id].isActive {
        return 0;
      }
      var pos := positions[id];
      var elapsed := now - pos.lastReward;
      LinearNonNegative(pos.amount, pos.isGreen, elapsed);
      var rewards := pos.amount as real * (Apy(pos.isGreen) / 365.0) * (elapsed as real / NS_PER_DAY);
      return rewards.Floor;
    }

    method RewardLoop(now: int)
      requires Valid() && ClockAtLeast(positions, now)
      modifies this
      ensures Valid() && positions == AllAccrued(old(positions), now)
      ensures positions.Keys == old(positions).Keys
      ensures forall id :: id in positions ==>
                positions[id] == if old(positions)[id].isActive then Accrued(old(positions)[id], now)
                                 else old(positions)[id]
    {
      var todo := positions.Keys;
      while todo != {}
        invariant todo <= positions.Keys == old(positions).Keys
        invariant forall id :: id in positions ==>
                    positions[id] == if id in todo || !old(positions)[id].isActive then old(positions)[id]
                                     else Accrued(old(positions)[id], now)
        decreases |todo|
      {
        var id :| id in todo;
        if positions[id].isActive {
          var pos := CalculateRewards(positions[id], now);
          positions := positions[id := pos];
        }
        todo := todo - {id};
      }
    }
  }

  /** An accrual pays the linear amount rounded down, and moves LastReward exactly when it pays. */
  lemma AccruedPays(pos: Position, now: int)
    requires now >= pos.lastReward
    ensures var r := Accrued(pos, now);
            var paid := r.totalRewards - pos.totalRewards;
            && paid >= 0 && paid as real <= Linear(pos.amount, pos.isGreen, now - pos.lastReward) < paid as real + 1.0
            && 1000 * 31_536_000_000_000_000 * paid
               <= (if pos.isGreen then 105 else 100) * (pos.amount * (now - pos.lastReward))
               < 1000 * 31_536_000_000_000_000 * (paid + 1)
            && r == pos.(totalRewards := r.totalRewards, lastReward := if paid > 0 then now else pos.lastReward)
  {
    RewardIsFloor(pos.amount, pos.isGreen, now - pos.lastReward);
    RewardInWholes(pos.amount, pos.isGreen, now - pos.lastReward);
  }

  /** Rewards since LastReward, computed as the source does. */
  method CalculateRewards(pos: Position, now: int) returns (r: Position)
    requires now >= pos.lastReward
    ensures r == Accrued(pos, now)
    ensures var paid := r.totalRewards - pos.totalRewards;
            && paid >= 0
            && 1000 * 31_536_000_000_000_000 * paid
               <= (if pos.isGreen then 105 else 100) * (pos.amount * (now - pos.lastReward))
               < 1000 * 31_536_000_000_000_000 * (paid + 1)
            && r == pos.(totalRewards := r.totalRewards, lastReward := if paid > 0 then now else pos.lastReward)
  {
    AccruedPays(pos, now);
    var elapsed := now - pos.lastReward;
    var apy := if pos.isGreen then 0.10 + 0.005 else 0.10;
    var dailyRate := apy / 365.0;
    var days := elapsed as real / NS_PER_DAY;
    LinearNonNegative(pos.amount, pos.isGreen, elapsed);
    var rewards := (pos.amount as real * dailyRate * days).Floor;
    r := pos;
    if rewards > 0 {
      r := r.(totalRewards := r.totalRewards + rewards, lastReward := now);
    }
  }
}
