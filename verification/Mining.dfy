/** Block rewards and halvings of mining.go. */
module Mining {

  const INITIAL_REWARD: int := 50_000_000
  const BLOCKS_PER_HALVING: int := 78_840_000
  const MAX_HALVINGS: int := 10
  const POOL: int := 100_000_000_000_000

  datatype Halving = Halving(epoch: nat, reward: int, nextHalving: int, mined: int)

  const FRESH: Halving := Halving(0, INITIAL_REWARD, BLOCKS_PER_HALVING, 0)

  /** checkHalving: at most one halving per call. */
  function Checked(s: Halving, height: int): Halving {
    if height < s.nextHalving || s.epoch >= MAX_HALVINGS then s
    else s.(reward := s.reward / 2, epoch := s.epoch + 1, nextHalving := s.nextHalving + BLOCKS_PER_HALVING)
  }

  /** What GetBlockReward returns once the halving has been checked. */
  function Available(s: Halving): int {
    if s.mined >= POOL then 0
    else if POOL - s.mined < s.reward then POOL - s.mined
    else s.reward
  }

  /** ProcessBlockReward. */
  function Mined(s: Halving, height: int): Halving {
    var c := Checked(s, height);
    c.(mined := c.mined + Available(c))
  }

  function Pow2(k: nat): (p: nat)
    ensures p > 0
  {
    if k == 0 then 1 else 2 * Pow2(k - 1)
  }

  /** What holds in every state, for any heights in any order. */
  predicate Consistent(s: Halving) {
    && s.epoch <= MAX_HALVINGS
    && s.reward == INITIAL_REWARD / Pow2(s.epoch)
    && s.nextHalving == (s.epoch + 1) * BLOCKS_PER_HALVING
    && 0 <= s.mined <= POOL
  }

  lemma HalfOfQuotient(a: nat, b: nat)
    requires b > 0
    ensures a / b / 2 == a / (2 * b)
  {
    var q, r := a / b, a % b;
    var h, t := q / 2, q % 2;
    assert a == b * q + r && q == 2 * h + t;
    assert a == 2 * b * h + (b * t + r) by {
      assert b * q == b * (2 * h) + b * t;
      assert b * (2 * h) == 2 * b * h;
    }
    assert 0 <= b * t + r < 2 * b;
    QuotientUnique(a, 2 * b, h, b * t + r);
  }

  lemma QuotientUnique(a: int, d: int, q: int, r: int)
    requires d > 0 && a == d * q + r && 0 <= r < d
    ensures a / d == q
  {
    var p, s := a / d, a % d;
    assert d * (p - q) == r - s;
    if p > q {
      AtLeast(d, p - q);
    } else if p < q {
      AtLeast(d, q - p);
    }
  }

  lemma AtLeast(d: int, k: int)
    requires d > 0 && k >= 1
    ensures d * k >= d
  {
  }

  lemma RewardNonNegative(s: Halving)
    requires Consistent(s)
    ensures s.reward >= 0
  {
    QuotientNonNegative(INITIAL_REWARD, Pow2(s.epoch));
  }

  lemma QuotientNonNegative(a: nat, b: nat)
    requires b > 0
    ensures a / b >= 0
  {
  }

  lemma CheckedConsistent(s: Halving, height: int)
    requires Consistent(s)
    ensures Consistent(Checked(s, height))
  {
    HalfOfQuotient(INITIAL_REWARD, Pow2(s.epoch));
  }

  /** The pool is never exceeded and the reward is always 50 NVX divided by 2^epoch. */
  lemma MinedConsistent(s: Halving, height: int)
    requires Consistent(s)
    ensures Consistent(Mined(s, height))
  {
    CheckedConsistent(s, height);
    RewardNonNegative(Checked(s, height));
  }

  /** What one block pays, in any epoch: the initial reward halved once per epoch, or whatever is left
      of the pool if that is less. */
  lemma PaysExactly(s: Halving, height: int)
    requires Consistent(s)
    ensures var m := Mined(s, height);
            m.mined - s.mined == Min(50_000_000 / Pow2(m.epoch), 100_000_000_000_000 - s.mined)
  {
    CheckedConsistent(s, height);
    RewardNonNegative(Checked(s, height));
  }

  /** A call halves exactly when the height has reached the next multiple of 78,840,000 and fewer than
      ten halvings have happened. */
  lemma HalvesExactly(s: Halving, height: int)
    requires Consistent(s)
    ensures Mined(s, height).epoch
         == s.epoch + if height >= (s.epoch + 1) * 78_840_000 && s.epoch < 10 then 1 else 0
  {
  }

  /** The rewards that blocks at these heights are entitled to, pool or not. */
  function Entitled(heights: seq<int>): int {
    if heights == [] then 0
    else Entitled(heights[..|heights| - 1]) + INITIAL_REWARD / Pow2(AfterHeights(heights).epoch)
  }

  /** For any heights in any order, across any halvings: what has been mined is the sum of the halved
      rewards, capped by the pool. */
  lemma {:induction false} EmissionAnyHeights(heights: seq<int>)
    ensures Entitled(heights) >= 0 && AfterHeights(heights).mined == Min(Entitled(heights), POOL)
  {
    if heights != [] {
      var before := heights[..|heights| - 1];
      EmissionAnyHeights(before);
      AnyHeightsConsistent(before);
      PaysExactly(AfterHeights(before), heights[|heights| - 1]);
      QuotientNonNegative(INITIAL_REWARD, Pow2(AfterHeights(heights).epoch));
    }
  }

  function AfterHeights(heights: seq<int>): Halving {
    if heights == [] then FRESH else Mined(AfterHeights(heights[..|heights| - 1]), heights[|heights| - 1])
  }

  lemma {:induction false} AnyHeightsConsistent(heights: seq<int>)
    ensures Consistent(AfterHeights(heights))
  {
    if heights != [] {
      AnyHeightsConsistent(heights[..|heights| - 1]);
      MinedConsistent(AfterHeights(heights[..|heights| - 1]), heights[|heights| - 1]);
    }
  }

  // ----- Catching up with the schedule -----

  function Min(a: int, b: int): int { if a <= b then a else b }

  /** The epoch that height h belongs to. */
  function Target(h: nat): int { Min(h / BLOCKS_PER_HALVING, MAX_HALVINGS) }

  function Repeated(s: Halving, h: nat, calls: nat): Halving {
    if calls == 0 then s else Checked(Repeated(s, h, calls - 1), h)
  }

  /** k calls at height h advance the epoch by k, up to the target and never past it; so ten
      calls always suffice. A state already past the target stays where it is. */
  lemma {:induction false} CatchesUp(s: Halving, h: nat, calls: nat)
    requires Consistent(s)
    ensures var t := Repeated(s, h, calls);
            && Consistent(t)
            && t.epoch == (if s.epoch >= Target(h) then s.epoch else Min(s.epoch + calls, Target(h)))
            && (s.epoch <= Target(h) && calls >= 10 ==> t.epoch == Target(h))
  {
    if calls > 0 {
      CatchesUp(s, h, calls - 1);
      var t := Repeated(s, h, calls - 1);
      CheckedConsistent(t, h);
      assert h < (t.epoch + 1) * BLOCKS_PER_HALVING <==> h / BLOCKS_PER_HALVING < t.epoch + 1;
    }
  }

  // ----- The emission of a chain that counts 1, 2, 3, ... -----

  function AfterBlocks(n: nat): Halving {
    if n == 0 then FRESH else Mined(AfterBlocks(n - 1), n)
  }

  /** After n blocks exactly min(50 NVX * n, pool) has been mined: the pool empties at block
      2,000,000, long before the first halving at block 78,840,000, so no halving ever changes
      what is paid. */
  lemma {:induction false} EmissionExactly(n: nat)
    ensures var s := AfterBlocks(n);
            && Consistent(s)
            && s.mined == Min(INITIAL_REWARD * n, POOL)
            && (n < BLOCKS_PER_HALVING ==> s.epoch == 0)
            && (s.mined == POOL <==> n >= 2_000_000)
  {
    if n > 0 {
      EmissionExactly(n - 1);
      MinedConsistent(AfterBlocks(n - 1), n);
    }
  }

  // ----- The keeper -----

  class MiningKeeper {
    var state: Halving

    predicate Valid()
      reads this
    {
      Consistent(state)
    }

    constructor ()
      ensures Valid() && state == FRESH
    {
      state := Halving(0, INITIAL_REWARD, BLOCKS_PER_HALVING, 0);
    }

    method CheckHalving(height: int)
      requires Valid()
      modifies this
      ensures Valid() && state == Checked(old(state), height)
    {
      CheckedConsistent(state, height);
      if height < state.nextHalving {
        return;
      }
      if state.epoch >= MAX_HALVINGS {
        return;
      }
      state := state.(reward := state.reward / 2);
      state := state.(epoch := state.epoch + 1);
      state := state.(nextHalving := state.nextHalving + BLOCKS_PER_HALVING);
    }

    /** The query has the halving as a side effect. */
    method GetBlockReward(height: int) returns (r: int)
      requires Valid()
      modifies this
      ensures Valid() && state == Checked(old(state), height) && r == Available(state)
      ensures 0 <= r <= POOL - state.mined
    {
      CheckHalving(height);
      RewardNonNegative(state);
      if state.mined >= POOL {
        return 0;
      }
      var remaining := POOL - state.mined;
      if remaining < state.reward {
        return remaining;
      }
      return state.reward;
    }

    method ProcessBlockReward(height: int) returns (r: int)
      requires Valid()
      modifies this
      ensures Valid() && state == Mined(old(state), height)
      ensures r == state.mined - old(state).mined >= 0
    {
      MinedConsistent(state, height);
      r := GetBlockReward(height);
      if r == 0 {
        return;
      }
      state := state.(mined := state.mined + r);
    }
  }
}
