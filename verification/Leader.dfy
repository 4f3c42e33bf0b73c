/** Stake-weighted leader choice and block processing of consensus.go. The SHA-256 seed is an
    argument. Both sums of powers are int64 values that wrap around. */
module Leader {
  import opened NumberTheory
  import opened Words
  import opened Mining

  datatype Validator = Validator(address: string, votingPower: int, isActive: bool, isGreen: bool, totalEarned: int)

  function Weight(v: Validator): int { if v.isActive then v.votingPower else 0 }

  predicate NonNegative(vs: seq<Validator>) {
    forall i :: 0 <= i < |vs| ==> 0 <= vs[i].votingPower <= MAX_INT64
  }

  /** Active power before index i. */
  function Below(vs: seq<Validator>, i: nat): int
    requires i <= |vs|
  {
    if i == 0 then 0 else Below(vs, i - 1) + Weight(vs[i - 1])
  }

  lemma {:induction false} BelowGrows(vs: seq<Validator>, i: nat, j: nat)
    requires NonNegative(vs) && i <= j <= |vs|
    ensures 0 <= Below(vs, i) <= Below(vs, j)
    decreases j
  {
    if i < j {
      BelowGrows(vs, i, j - 1);
    } else if i > 0 {
      BelowGrows(vs, i - 1, i - 1);
    }
  }

  /** The slots that belong to validator i. */
  predicate Owns(vs: seq<Validator>, i: nat, slot: int)
    requires i < |vs|
  {
    Below(vs, i) <= slot < Below(vs, i + 1)
  }

  /** Every slot below the total has exactly one owner, and the owner is active. */
  lemma {:induction false} OwnerUnique(vs: seq<Validator>, slot: int, i: nat, j: nat)
    requires NonNegative(vs) && i < |vs| && j < |vs| && Owns(vs, i, slot) && Owns(vs, j, slot)
    ensures i == j && vs[i].isActive
  {
    if i < j {
      BelowGrows(vs, i + 1, j);
    } else if j < i {
      BelowGrows(vs, j + 1, i);
    }
  }

  /** What the choice is meant for: non-negative powers whose sum over the active ones is an int64. */
  predicate PowersFit(vs: seq<Validator>) {
    NonNegative(vs) && Below(vs, |vs|) <= MAX_INT64
  }

  /** The search of SelectLeader from index i: the first active validator at which the running int64
      sum exceeds slot. */
  function Picked(vs: seq<Validator>, slot: int, i: nat, cum: int): (r: Option<nat>)
    requires i <= |vs|
    ensures r.Some? ==> i <= r.value < |vs|
    decreases |vs| - i
  {
    if i == |vs| then None
    else if !vs[i].isActive then Picked(vs, slot, i + 1, cum)
    else
      var c := I64(cum + vs[i].votingPower);
      if slot < c then Some(i) else Picked(vs, slot, i + 1, c)
  }

  /** When the powers fit, the search finds the owner of every slot. */
  lemma {:induction false} PickedOwns(vs: seq<Validator>, slot: int, i: nat)
    requires PowersFit(vs) && i <= |vs| && Below(vs, i) <= slot < Below(vs, |vs|)
    ensures var r := Picked(vs, slot, i, Below(vs, i));
            r.Some? && Owns(vs, r.value, slot)
    decreases |vs| - i
  {
    BelowGrows(vs, 0, i);
    BelowGrows(vs, i + 1, |vs|);
    if slot >= Below(vs, i + 1) {
      PickedOwns(vs, slot, i + 1);
    }
  }

  /** The validator at which the sum passes int64 is not found for its own first slot. */
  lemma {:induction false} PickedMisses(vs: seq<Validator>, i: nat, j: nat)
    requires NonNegative(vs) && i <= j < |vs| && Below(vs, j) <= MAX_INT64 < Below(vs, j + 1)
    ensures Picked(vs, Below(vs, j), i, Below(vs, i)) != Some(j)
    decreases j - i
  {
    BelowGrows(vs, 0, i);
    BelowGrows(vs, i, j);
    if i < j {
      BelowGrows(vs, i + 1, j);
      PickedMisses(vs, i + 1, j);
    } else {
      assert I64(Below(vs, j + 1) - TWO_64) < 0;
    }
  }

  lemma {:induction false} PassesInt64(vs: seq<Validator>, n: nat) returns (j: nat)
    requires n <= |vs| && Below(vs, n) > MAX_INT64
    ensures j < n && Below(vs, j) <= MAX_INT64 < Below(vs, j + 1)
  {
    if Below(vs, n - 1) <= MAX_INT64 {
      j := n - 1;
    } else {
      j := PassesInt64(vs, n - 1);
    }
  }

  ghost predicate FindsOwner(vs: seq<Validator>, slot: int) {
    var r := Picked(vs, I64(slot), 0, 0);
    r.Some? && Owns(vs, r.value, slot)
  }

  /** For non-negative powers, the search finds the owner of every slot below the total if and only if
      the total is an int64. */
  lemma SearchExactly(vs: seq<Validator>)
    requires NonNegative(vs)
    ensures (forall slot :: 0 <= slot < Below(vs, |vs|) ==> FindsOwner(vs, slot)) <==> Below(vs, |vs|) <= MAX_INT64
  {
    if Below(vs, |vs|) <= MAX_INT64 {
      forall slot | 0 <= slot < Below(vs, |vs|)
        ensures FindsOwner(vs, slot)
      {
        PickedOwns(vs, slot, 0);
      }
    } else {
      var j := PassesInt64(vs, |vs|);
      BelowGrows(vs, 0, j);
      BelowGrows(vs, j + 1, |vs|);
      PickedMisses(vs, 0, j);
      var slot := Below(vs, j);
      if FindsOwner(vs, slot) {
        OwnerUnique(vs, slot, Picked(vs, slot, 0, 0).value, j);
      }
      assert !FindsOwner(vs, slot);
    }
  }

  /** The second loop of SelectLeader with its fallback to the first validator, which no slot of
      fitting powers reaches. */
  method PickSlot(vs: seq<Validator>, slot: int) returns (k: nat)
    requires vs != []
    ensures k < |vs| && k == (match Picked(vs, slot, 0, 0) case Some(i) => i case None => 0)
    ensures PowersFit(vs) && 0 <= slot < Below(vs, |vs|) ==> Owns(vs, k, slot) && vs[k].isActive
  {
    if PowersFit(vs) && 0 <= slot < Below(vs, |vs|) {
      PickedOwns(vs, slot, 0);
      var owner := Picked(vs, slot, 0, 0).value;
      OwnerUnique(vs, slot, owner, owner);
    }
    var cum, i := 0, 0;
    while i < |vs|
      invariant 0 <= i <= |vs| && Picked(vs, slot, 0, 0) == Picked(vs, slot, i, cum)
    {
      if vs[i].isActive {
        cum := I64(cum + vs[i].votingPower);
        if slot < cum {
          return i;
        }
      }
      i := i + 1;
    }
    return 0;
  }

  /** When the powers fit, the first validator leads without active power, and otherwise the active
      owner of the seeded slot. */
  ghost predicate RightLeader(vs: seq<Validator>, k: nat, seed: nat)
    requires k < |vs|
  {
    PowersFit(vs) ==>
      if Below(vs, |vs|) <= 0 then k == 0 else Owns(vs, k, seed % Below(vs, |vs|)) && vs[k].isActive
  }

  /** SelectLeader; None is the nil of an empty validator list. */
  method SelectLeader(vs: seq<Validator>, seed: nat) returns (r: Option<nat>)
    ensures r.None? <==> vs == []
    ensures r.Some? ==> r.value < |vs| && RightLeader(vs, r.value, seed)
  {
    if vs == [] {
      return None;
    }
    var total := SumPowers(vs);
    if total == 0 {
      return Some(0);
    }
    assert total < 0 ==> U64(total + TWO_64) == total + TWO_64;
    var slot := I64(seed % U64(total));
    var k := PickSlot(vs, slot);
    return Some(k);
  }

  /** The first loop of SelectLeader. */
  method SumPowers(vs: seq<Validator>) returns (total: int)
    ensures total == I64(Below(vs, |vs|))
    ensures PowersFit(vs) ==> total == Below(vs, |vs|) >= 0
  {
    total := 0;
    for i := 0 to |vs|
      invariant total == I64(Below(vs, i))
    {
      I64Adds(Below(vs, i), Weight(vs[i]));
      if vs[i].isActive {
        total := I64(total + vs[i].votingPower);
      }
    }
    if PowersFit(vs) {
      BelowGrows(vs, 0, |vs|);
    }
  }

  ghost function SlotsOf(vs: seq<Validator>, i: nat): set<int>
    requires i < |vs|
  {
    set slot | 0 <= slot < Below(vs, |vs|) && Owns(vs, i, slot)
  }

  ghost function Interval(lo: int, hi: int): (s: set<int>)
    requires lo <= hi
    ensures forall x :: x in s <==> lo <= x < hi
    ensures |s| == hi - lo
    decreases hi - lo
  {
    if lo == hi then {} else Interval(lo, hi - 1) + {hi - 1}
  }

  /** The choice is exactly stake-proportional: of all slots, as many pick validator i as it has
      active voting power, and every slot picks someone. */
  lemma Proportional(vs: seq<Validator>, i: nat)
    requires NonNegative(vs) && i < |vs|
    ensures |SlotsOf(vs, i)| == if vs[i].isActive then vs[i].votingPower else 0
  {
    BelowGrows(vs, 0, i);
    BelowGrows(vs, i, i + 1);
    BelowGrows(vs, i + 1, |vs|);
    assert SlotsOf(vs, i) == Interval(Below(vs, i), Below(vs, i + 1));
  }

  lemma {:induction false} EverySlotOwned(vs: seq<Validator>, slot: int, n: nat)
    requires NonNegative(vs) && n <= |vs| && 0 <= slot < Below(vs, n)
    ensures exists i :: 0 <= i < n && Owns(vs, i, slot)
    decreases n
  {
    if Below(vs, n - 1) <= slot {
      assert Owns(vs, n - 1, slot);
    } else {
      EverySlotOwned(vs, slot, n - 1);
    }
  }

  // ----- Block processing -----

  predicate DistinctAddresses(vs: seq<Validator>) {
    forall i, j :: 0 <= i < j < |vs| ==> vs[i].address != vs[j].address
  }

  function Earned(vs: seq<Validator>): int {
    if vs == [] then 0 else Earned(vs[..|vs| - 1]) + vs[|vs| - 1].totalEarned
  }

  /** Every entry with the address earns the amount. */
  function PaidTo(vs: seq<Validator>, address: string, amount: int): (r: seq<Validator>)
    ensures |r| == |vs|
  {
    seq(|vs|, i requires 0 <= i < |vs| => PaidOne(vs[i], address, amount))
  }

  function PaidOne(v: Validator, address: string, amount: int): Validator {
    if v.address == address then v.(totalEarned := v.totalEarned + amount) else v
  }

  /** Entry by entry: those with the address earn pay, and nothing else changes. */
  lemma PaidOnly(vs: seq<Validator>, address: string, pay: int, i: nat)
    requires i < |vs|
    ensures var after := PaidTo(vs, address, pay);
            && |after| == |vs|
            && after[i] == vs[i].(totalEarned := vs[i].totalEarned + if vs[i].address == address then pay else 0)
  {
  }

  function Copies(vs: seq<Validator>, address: string): nat {
    if vs == [] then 0
    else Copies(vs[..|vs| - 1], address) + if vs[|vs| - 1].address == address then 1 else 0
  }

  /** x added n times. */
  function Times(n: nat, x: int): int {
    if n == 0 then 0 else Times(n - 1, x) + x
  }

  lemma {:induction false} TimesNonNegative(n: nat, x: nat)
    ensures Times(n, x) >= 0
  {
    if n > 0 {
      TimesNonNegative(n - 1, x);
    }
  }

  /** The earnings of all grow by the amount once for every entry with the address. */
  lemma {:induction false} EarnedPaid(vs: seq<Validator>, address: string, amount: int)
    ensures Earned(PaidTo(vs, address, amount)) == Earned(vs) + Times(Copies(vs, address), amount)
  {
    if vs != [] {
      var n := |vs| - 1;
      EarnedPaid(vs[..n], address, amount);
      assert PaidTo(vs, address, amount)[..n] == PaidTo(vs[..n], address, amount);
    }
  }

  lemma {:induction false} NoCopies(vs: seq<Validator>, address: string)
    requires forall i :: 0 <= i < |vs| ==> vs[i].address != address
    ensures Copies(vs, address) == 0
  {
    if vs != [] {
      NoCopies(vs[..|vs| - 1], address);
    }
  }

  /** An entry has at least one copy, and exactly one when no address is repeated. */
  lemma {:induction false} CopiesOf(vs: seq<Validator>, k: nat)
    requires k < |vs|
    ensures Copies(vs, vs[k].address) >= 1
    ensures DistinctAddresses(vs) ==> Copies(vs, vs[k].address) == 1
    decreases |vs|
  {
    var n := |vs| - 1;
    if k < n {
      CopiesOf(vs[..n], k);
    } else if DistinctAddresses(vs) {
      NoCopies(vs[..n], vs[n].address);
    }
  }

  /** What was earned since the opening: what left the pool, bonuses of at most half a percent of it,
      and payments to entries that repeat an address. */
  predicate Balanced(vs: seq<Validator>, opening: int, mined: int, bonuses: int, repeated: int) {
    && Earned(vs) == opening + mined + bonuses + repeated
    && 0 <= 1000 * bonuses <= 5 * mined
    && repeated >= 0 && (DistinctAddresses(vs) ==> repeated == 0)
  }

  class ConsensusEngine {
    const mining: MiningKeeper
    var validators: seq<Validator>
    /** History: earnings before the first block, green bonuses since, and what entries that repeat
        the leader's address were paid on top. */
    ghost const opening: int
    ghost var bonuses: int
    ghost var repeated: int

    ghost predicate Valid()
      reads this, mining
    {
      mining.Valid() && Balanced(validators, opening, mining.state.mined, bonuses, repeated)
    }

    constructor (validators: seq<Validator>)
      ensures Valid() && this.validators == validators && fresh(mining) && mining.state == FRESH
    {
      this.validators := validators;
      mining := new MiningKeeper();
      opening := Earned(validators);
      bonuses := 0;
      repeated := 0;
    }

    /** Every entry with the leader's address earns what the pool pays, plus half a percent if the
        leader is green; no other entry earns anything. Over all blocks, earnings are what left the
        pool, plus bonuses of at most half a percent of it, plus what repeated entries were paid,
        which is nothing when addresses are distinct. */
    method ProcessBlock(height: int, seed: nat) returns (leader: Option<nat>)
      requires Valid()
      modifies this, mining
      ensures Valid()
      ensures leader.None? <==> old(validators) == []
      ensures leader.None? ==> validators == [] && mining.state == old(mining.state)
      ensures leader.Some? ==> leader.value < |old(validators)| && RightLeader(old(validators), leader.value, seed)
      ensures leader.Some? ==> mining.state == Mined(old(mining.state), height)
      ensures leader.Some? ==>
                && leader.value < |old(validators)| && mining.state.mined >= old(mining.state).mined
                && var v := old(validators)[leader.value];
                   var reward := mining.state.mined - old(mining.state).mined;
                   var pay := reward + Bonus(v.isGreen, reward);
                   && validators == PaidTo(old(validators), v.address, pay)
                   && repeated == old(repeated) + Surplus(old(validators), v.address, pay)
                   && (repeated > old(repeated) <==> pay > 0 && Copies(old(validators), v.address) >= 2)
    {
      leader := SelectLeader(validators, seed);
      if leader.None? {
        return;
      }
      var k := leader.value;
      var reward := mining.ProcessBlockReward(height);
      CreditLeader(k, reward, old(mining.state).mined);
    }

    /** The second half of ProcessBlock, once the reward has left the pool. */
    method CreditLeader(k: nat, reward: nat, ghost mined: int)
      requires k < |validators| && Balanced(validators, opening, mined, bonuses, repeated)
      modifies this`validators, this`bonuses, this`repeated
      ensures Balanced(validators, opening, mined + reward, bonuses, repeated)
      ensures var v := old(validators)[k];
              var pay := reward + Bonus(v.isGreen, reward);
              && validators == PaidTo(old(validators), v.address, pay)
              && repeated == old(repeated) + Surplus(old(validators), v.address, pay)
              && (repeated > old(repeated) <==> pay > 0 && Copies(old(validators), v.address) >= 2)
    {
      var bonus := GreenBonus(validators[k].isGreen, reward);
      BalancedPay(validators, k, opening, mined, bonuses, repeated, reward, bonus);
      var pay := reward + bonus;
      SurplusPositive(validators, validators[k].address, pay);
      ghost var surplus := Surplus(validators, validators[k].address, pay);
      var paid := Pay(validators, k, pay);
      validators, bonuses, repeated := paid, bonuses + bonus, repeated + surplus;
    }
  }

  /** What a payment to an address pays beyond one entry. */
  function Surplus(vs: seq<Validator>, address: string, pay: int): int {
    var n := Copies(vs, address);
    if n == 0 then 0 else Times(n - 1, pay)
  }

  lemma {:induction false} TimesPositive(n: nat, x: nat)
    ensures Times(n, x) > 0 <==> n > 0 && x > 0
  {
    TimesNonNegative(n, x);
    if n > 0 {
      TimesPositive(n - 1, x);
    }
  }

  /** More than one payment is made exactly when something is paid and the address is repeated. */
  lemma SurplusPositive(vs: seq<Validator>, address: string, pay: nat)
    ensures Surplus(vs, address, pay) > 0 <==> pay > 0 && Copies(vs, address) >= 2
  {
    if Copies(vs, address) > 0 {
      TimesPositive(Copies(vs, address) - 1, pay);
    }
  }

  /** A list that names one validator twice pays it twice. */
  lemma TwicePaid(v: Validator, pay: nat)
    ensures Earned(PaidTo([v, v], v.address, pay)) == Earned([v, v]) + 2 * pay
  {
    EarnedPaid([v, v], v.address, pay);
    assert [v, v][..1] == [v] && [v][..0] == [];
    assert Copies([v], v.address) == 1 && Copies([v, v], v.address) == 2;
    assert Times(1, pay) == pay;
  }

  lemma PayAccounts(vs: seq<Validator>, k: nat, pay: nat)
    requires k < |vs|
    ensures var address := vs[k].address;
            && Earned(PaidTo(vs, address, pay)) == Earned(vs) + pay + Surplus(vs, address, pay)
            && Surplus(vs, address, pay) >= 0 && (DistinctAddresses(vs) ==> Surplus(vs, address, pay) == 0)
  {
    CopiesOf(vs, k);
    EarnedPaid(vs, vs[k].address, pay);
    TimesNonNegative(Copies(vs, vs[k].address) - 1, pay);
  }

  lemma BalancedPay(vs: seq<Validator>, k: nat, opening: int, mined: int, bonuses: int, repeated: int,
                    reward: nat, bonus: nat)
    requires k < |vs| && Balanced(vs, opening, mined, bonuses, repeated)
    requires 1000 * bonus <= 5 * reward
    ensures var address, pay := vs[k].address, reward + bonus;
            var r := PaidTo(vs, address, pay);
            Balanced(r, opening, mined + reward, bonuses + bonus, repeated + Surplus(vs, address, pay))
  {
    PayAccounts(vs, k, reward + bonus);
    PayKeepsList(vs, vs[k].address, reward + bonus);
  }

  lemma PayKeepsList(vs: seq<Validator>, address: string, pay: int)
    ensures var r := PaidTo(vs, address, pay);
            DistinctAddresses(r) ==> DistinctAddresses(vs)
  {
    var r := PaidTo(vs, address, pay);
    assert forall i :: 0 <= i < |vs| ==> r[i].address == vs[i].address;
  }

  /** Half a percent, rounded down. */
  function Bonus(isGreen: bool, reward: nat): (b: nat)
    ensures if isGreen then 1000 * b <= 5 * reward < 1000 * (b + 1) else b == 0
  {
    if isGreen then reward * 5 / 1000 else 0
  }

  method GreenBonus(isGreen: bool, reward: nat) returns (bonus: nat)
    ensures bonus == Bonus(isGreen, reward)
  {
    bonus := 0;
    if isGreen && reward > 0 {
      bonus := reward * 5 / 1000;
    }
  }

  /** The loop that credits every validator with the leader's address. */
  method Pay(vs: seq<Validator>, k: nat, amount: int) returns (r: seq<Validator>)
    requires k < |vs|
    ensures r == PaidTo(vs, vs[k].address, amount)
  {
    r := vs;
    for i := 0 to |vs|
      invariant |r| == |vs|
      invariant forall j :: 0 <= j < |vs| ==> r[j] == if j < i then PaidOne(vs[j], vs[k].address, amount) else vs[j]
    {
      if r[i].address == vs[k].address {
        r := r[i := r[i].(totalEarned := r[i].totalEarned + amount)];
      }
    }
  }
}
