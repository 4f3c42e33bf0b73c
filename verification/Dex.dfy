/** The constant-product exchange of dex.go. float64 is modelled by real, so rounding is not
    captured; math.Sqrt enters as an argument that squares to the product of the deposits. */
module Dex {
  import opened Totals

  const MINIMUM_LIQUIDITY: real := 1000.0
  const SWAP_FEE_BPS: real := 30.0

  datatype Pool = Pool(
    tokenA: string, tokenB: string,
    reserveA: real, reserveB: real,
    totalLP: real, holders: map<string, real>,
    volume: real, fees: real, trades: nat)

  function Held(holders: map<string, real>, who: string): real {
    if who in holders then holders[who] else 0.0
  }

  // ----- The four pool operations as functions of the pool value -----

  /** root is math.Sqrt(a*b). */
  function Created(tokenA: string, tokenB: string, a: real, b: real, creator: string, root: real): Pool {
    Pool(tokenA, tokenB, a, b, root - MINIMUM_LIQUIDITY + MINIMUM_LIQUIDITY,
         map[creator := root - MINIMUM_LIQUIDITY], 0.0, 0.0, 0)
  }

  function Min(x: real, y: real): real { if x <= y then x else y }

  function Minted(p: Pool, a: real, b: real): real
    requires p.reserveA != 0.0 && p.reserveB != 0.0
  {
    Min(a / p.reserveA * p.totalLP, b / p.reserveB * p.totalLP)
  }

  function Added(p: Pool, a: real, b: real, provider: string): Pool
    requires p.reserveA != 0.0 && p.reserveB != 0.0
  {
    WithShare(p, a, b, Minted(p, a, b), provider)
  }

  /** The pool after a deposit of a and b for lp new tokens. */
  function WithShare(p: Pool, a: real, b: real, lp: real, provider: string): Pool {
    p.(reserveA := p.reserveA + a, reserveB := p.reserveB + b, totalLP := p.totalLP + lp,
       holders := p.holders[provider := Held(p.holders, provider) + lp])
  }

  datatype Amounts = Amounts(a: real, b: real)

  /** The share of both reserves that lp tokens redeem. */
  function Redeemed(p: Pool, lp: real): Amounts
    requires p.totalLP != 0.0
  {
    var share := lp / p.totalLP;
    Amounts(share * p.reserveA, share * p.reserveB)
  }

  function Removed(p: Pool, lp: real, provider: string): Pool
    requires p.totalLP != 0.0
  {
    var out := Redeemed(p, lp);
    p.(reserveA := p.reserveA - out.a, reserveB := p.reserveB - out.b, totalLP := p.totalLP - lp,
       holders := p.holders[provider := Held(p.holders, provider) - lp])
  }

  function Fee(amountIn: real): real { amountIn * SWAP_FEE_BPS / 10000.0 }

  function AfterFee(amountIn: real): real { amountIn - Fee(amountIn) }

  /** k / (reserveIn + amountInAfterFee). */
  function NewReserveOut(reserveIn: real, reserveOut: real, amountIn: real): real
    requires reserveIn + AfterFee(amountIn) != 0.0
  {
    reserveIn * reserveOut / (reserveIn + AfterFee(amountIn))
  }

  function AmountOut(reserveIn: real, reserveOut: real, amountIn: real): real
    requires reserveIn + AfterFee(amountIn) != 0.0
  {
    reserveOut - NewReserveOut(reserveIn, reserveOut, amountIn)
  }

  /** A successful swap; aToB says which token went in. The fee stays out of the reserves. */
  function Swapped(p: Pool, aToB: bool, amountIn: real): Pool
    requires p.reserveA > 0.0 && p.reserveB > 0.0 && amountIn > 0.0
  {
    var q := p.(volume := p.volume + amountIn, fees := p.fees + Fee(amountIn), trades := p.trades + 1);
    if aToB then
      q.(reserveA := p.reserveA + AfterFee(amountIn), reserveB := NewReserveOut(p.reserveA, p.reserveB, amountIn))
    else
      q.(reserveB := p.reserveB + AfterFee(amountIn), reserveA := NewReserveOut(p.reserveB, p.reserveA, amountIn))
  }

  function Payout(p: Pool, aToB: bool, amountIn: real): real
    requires p.reserveA > 0.0 && p.reserveB > 0.0 && amountIn > 0.0
  {
    if aToB then AmountOut(p.reserveA, p.reserveB, amountIn) else AmountOut(p.reserveB, p.reserveA, amountIn)
  }

  // ----- Real arithmetic -----

  function Product(x: real, y: real): real { x * y }

  lemma ProductPos(x: real, y: real)
    requires x > 0.0 && y > 0.0
    ensures Product(x, y) > 0.0
  {
  }

  lemma ProductCommutes(x: real, y: real)
    ensures Product(x, y) == Product(y, x)
  {
  }

  lemma ProductMono(x: real, y: real, z: real)
    requires x <= y && z >= 0.0
    ensures Product(x, z) <= Product(y, z)
  {
    assert (y - x) * z >= 0.0;
  }

  lemma MulPos(a: real, b: real)
    requires a > 0.0 && b > 0.0
    ensures a * b > 0.0
  {
  }

  lemma MulMono(a: real, b: real, c: real)
    requires a <= b && c >= 0.0
    ensures a * c <= b * c
  {
    assert (b - a) * c >= 0.0;
  }

  lemma MulCancel(a: real, b: real, c: real)
    requires c > 0.0 && a * c <= b * c
    ensures a <= b
  {
    if a > b {
      MulPos(a - b, c);
    }
  }

  lemma DivTimes(a: real, b: real)
    requires b != 0.0
    ensures a / b * b == a
  {
  }

  lemma DivPos(a: real, b: real)
    requires a > 0.0 && b > 0.0
    ensures a / b > 0.0
  {
    DivTimes(a, b);
    if a / b <= 0.0 {
      MulMono(a / b, 0.0, b);
    }
  }

  lemma Regroup(a: real, u: real, b: real, v: real)
    ensures Product(a * u, b * v) == Product(a, b) * Product(u, v)
  {
  }

  lemma SquareBelow(u: real, v: real, w: real)
    requires w > 0.0 && u >= w && v >= w
    ensures Product(w, w) <= Product(u, v)
  {
    ProductMono(w, u, w);
    ProductMono(w, v, u);
    ProductCommutes(u, w);
    ProductCommutes(u, v);
  }

  // ----- Pool invariant -----

  /** q has at least as much reserve product behind each squared LP token as p:
      q.reserveA*q.reserveB / q.totalLP^2 >= p.reserveA*p.reserveB / p.totalLP^2, cross-multiplied. */
  predicate NotDiluted(p: Pool, q: Pool) {
    Product(q.reserveA, q.reserveB) * Product(p.totalLP, p.totalLP)
    >= Product(p.reserveA, p.reserveB) * Product(q.totalLP, q.totalLP)
  }

  ghost predicate Sound(p: Pool) {
    && p.reserveA > 0.0 && p.reserveB > 0.0
    && (forall h :: h in p.holders ==> p.holders[h] >= 0.0)
    && p.totalLP == RealTotal(p.holders) + MINIMUM_LIQUIDITY
    && p.totalLP >= MINIMUM_LIQUIDITY
    && Product(p.reserveA, p.reserveB) >= Product(p.totalLP, p.totalLP)
  }

  lemma RatioTrans(kp: real, sp: real, kq: real, sq: real, kr: real, sr: real)
    requires sp > 0.0 && sq > 0.0 && sr > 0.0 && kq * sp >= kp * sq && kr * sq >= kq * sr
    ensures kr * sp >= kp * sr
  {
    MulMono(kp * sq, kq * sp, sr);
    MulMono(kq * sr, kr * sq, sp);
    assert kp * sq * sr == kp * sr * sq;
    assert kq * sp * sr == kq * sr * sp;
    assert kr * sq * sp == kr * sp * sq;
    MulCancel(kp * sr, kr * sp, sq);
  }

  lemma RatioAtLeastOne(kp: real, sp: real, kq: real, sq: real)
    requires sp > 0.0 && sq >= 0.0 && kp >= sp && kq * sp >= kp * sq
    ensures kq >= sq
  {
    MulMono(sp, kp, sq);
    assert sp * sq == sq * sp;
    MulCancel(sq, kq, sp);
  }

  /** Chained steps without dilution are a run without dilution. */
  lemma NotDilutedTrans(p: Pool, q: Pool, r: Pool)
    requires p.totalLP > 0.0 && q.totalLP > 0.0 && r.totalLP > 0.0
    requires NotDiluted(p, q) && NotDiluted(q, r)
    ensures NotDiluted(p, r)
  {
    ProductPos(p.totalLP, p.totalLP);
    ProductPos(q.totalLP, q.totalLP);
    ProductPos(r.totalLP, r.totalLP);
    RatioTrans(Product(p.reserveA, p.reserveB), Product(p.totalLP, p.totalLP),
               Product(q.reserveA, q.reserveB), Product(q.totalLP, q.totalLP),
               Product(r.reserveA, r.reserveB), Product(r.totalLP, r.totalLP));
  }

  /** Soundness carries over to any pool that is not diluted. */
  lemma BackedAfter(p: Pool, q: Pool)
    requires p.totalLP > 0.0 && q.totalLP > 0.0
    requires Product(p.reserveA, p.reserveB) >= Product(p.totalLP, p.totalLP) && NotDiluted(p, q)
    ensures Product(q.reserveA, q.reserveB) >= Product(q.totalLP, q.totalLP)
  {
    ProductPos(p.totalLP, p.totalLP);
    ProductPos(q.totalLP, q.totalLP);
    RatioAtLeastOne(Product(p.reserveA, p.reserveB), Product(p.totalLP, p.totalLP),
                    Product(q.reserveA, q.reserveB), Product(q.totalLP, q.totalLP));
  }

  /** Scaling a product by factors u, v >= w gains at least as much as scaling a square by w. */
  lemma ScaledRatio(ra: real, rb: real, t: real, u: real, v: real, w: real)
    requires ra > 0.0 && rb > 0.0 && t > 0.0 && w > 0.0 && u >= w && v >= w
    ensures Product(ra * u, rb * v) * Product(t, t) >= Product(ra, rb) * Product(t * w, t * w)
  {
    var k, s := Product(ra, rb), Product(t, t);
    ProductPos(ra, rb);
    ProductPos(t, t);
    Regroup(ra, u, rb, v);
    Regroup(t, w, t, w);
    SquareBelow(u, v, w);
    MulPos(k, s);
    MulMono(Product(w, w), Product(u, v), k * s);
    Reorder(k, s, Product(w, w), Product(u, v));
  }

  lemma Reorder(k: real, s: real, z: real, uv: real)
    requires z * (k * s) <= uv * (k * s)
    ensures k * uv * s >= k * (s * z)
  {
    assert z * (k * s) == k * (s * z);
    assert uv * (k * s) == k * uv * s;
  }

  /** Scaling the reserves by u and v and the LP supply by w, with u, v >= w, does not dilute. */
  lemma ScaledNotDiluted(p: Pool, q: Pool, u: real, v: real, w: real)
    requires p.reserveA > 0.0 && p.reserveB > 0.0 && p.totalLP > 0.0 && w > 0.0 && u >= w && v >= w
    requires q.reserveA == p.reserveA * u && q.reserveB == p.reserveB * v && q.totalLP == p.totalLP * w
    ensures NotDiluted(p, q)
  {
    ScaledRatio(p.reserveA, p.reserveB, p.totalLP, u, v, w);
  }

  /** A new pool is sound, with a reserve product of exactly totalLP^2. */
  lemma CreatedSound(tokenA: string, tokenB: string, a: real, b: real, creator: string, root: real)
    requires a > 0.0 && b > 0.0 && root * root == a * b && root > MINIMUM_LIQUIDITY
    ensures var p := Created(tokenA, tokenB, a, b, creator, root);
            Sound(p) && Product(p.reserveA, p.reserveB) == Product(p.totalLP, p.totalLP)
  {
    var p := Created(tokenA, tokenB, a, b, creator, root);
    RealTotalUpdate(map[], creator, root - MINIMUM_LIQUIDITY);
    assert p.holders == map[][creator := root - MINIMUM_LIQUIDITY];
    assert p.totalLP == root;
  }

  lemma MintedIsScaled(p: Pool, a: real, b: real)
    requires p.reserveA > 0.0 && p.reserveB > 0.0 && p.totalLP > 0.0
    ensures Minted(p, a, b) == p.totalLP * Min(a / p.reserveA, b / p.reserveB)
  {
    var x, y := a / p.reserveA, b / p.reserveB;
    if x <= y {
      MulMono(x, y, p.totalLP);
    } else {
      MulMono(y, x, p.totalLP);
      if x * p.totalLP == y * p.totalLP {
        MulCancel(x, y, p.totalLP);
      }
    }
  }

  lemma GrownReserve(r: real, a: real)
    requires r > 0.0 && a > 0.0
    ensures a / r > 0.0 && r + a == r * (1.0 + a / r)
  {
    DivPos(a, r);
    DivTimes(a, r);
  }

  lemma GrownSupply(t: real, m: real)
    requires t > 0.0 && m > 0.0
    ensures t * m > 0.0 && t + t * m == t * (1.0 + m)
  {
    MulPos(t, m);
  }

  /** Adding liquidity keeps a pool sound and never dilutes an LP token. */
  lemma AddedSound(p: Pool, a: real, b: real, provider: string)
    requires Sound(p) && a > 0.0 && b > 0.0
    ensures Sound(Added(p, a, b, provider)) && NotDiluted(p, Added(p, a, b, provider))
    ensures Minted(p, a, b) > 0.0
  {
    var x, y := a / p.reserveA, b / p.reserveB;
    var m := Min(x, y);
    GrownReserve(p.reserveA, a);
    GrownReserve(p.reserveB, b);
    MintedIsScaled(p, a, b);
    GrownSupply(p.totalLP, m);
    WithShareSound(p, a, b, Minted(p, a, b), provider, 1.0 + x, 1.0 + y, 1.0 + m);
  }

  lemma WithShareSound(p: Pool, a: real, b: real, lp: real, provider: string, u: real, v: real, w: real)
    requires Sound(p) && a > 0.0 && b > 0.0 && lp > 0.0 && w > 0.0 && u >= w && v >= w
    requires p.reserveA + a == p.reserveA * u && p.reserveB + b == p.reserveB * v && p.totalLP + lp == p.totalLP * w
    ensures var q := WithShare(p, a, b, lp, provider);
            Sound(q) && NotDiluted(p, q)
  {
    var q := WithShare(p, a, b, lp, provider);
    ScaledNotDiluted(p, q, u, v, w);
    BackedAfter(p, q);
    RealTotalUpdate(p.holders, provider, Held(p.holders, provider) + lp);
  }

  /** A provider never holds the locked 1000 tokens. */
  lemma HeldBound(p: Pool, provider: string)
    requires Sound(p)
    ensures 0.0 <= Held(p.holders, provider) <= p.totalLP - MINIMUM_LIQUIDITY
  {
    RealTotalBounds(p.holders);
  }

  lemma ShrunkSupply(t: real, lp: real)
    requires t > 0.0 && lp < t
    ensures 1.0 - lp / t > 0.0 && t - lp == t * (1.0 - lp / t)
  {
    DivTimes(lp, t);
    if 1.0 - lp / t <= 0.0 {
      MulMono(1.0, lp / t, t);
    }
  }

  lemma ShrunkReserve(r: real, share: real)
    requires r > 0.0 && 1.0 - share > 0.0
    ensures r - share * r == r * (1.0 - share) > 0.0
  {
    MulPos(r, 1.0 - share);
  }

  lemma RemovedFields(p: Pool, lp: real, provider: string, w: real)
    requires p.reserveA > 0.0 && p.reserveB > 0.0 && p.totalLP > 0.0 && lp < p.totalLP
    requires w == 1.0 - lp / p.totalLP
    ensures var q := Removed(p, lp, provider);
            && w > 0.0
            && q.reserveA == p.reserveA * w > 0.0 && q.reserveB == p.reserveB * w > 0.0
            && q.totalLP == p.totalLP * w
  {
    ShrunkSupply(p.totalLP, lp);
    ShrunkReserve(p.reserveA, lp / p.totalLP);
    ShrunkReserve(p.reserveB, lp / p.totalLP);
  }

  /** Redeeming keeps a pool sound, and the backing of the remaining tokens does not change. */
  lemma RemovedSound(p: Pool, lp: real, provider: string)
    requires Sound(p) && lp <= Held(p.holders, provider)
    ensures var q := Removed(p, lp, provider);
            Sound(q) && NotDiluted(p, q) && NotDiluted(q, p)
  {
    HeldBound(p, provider);
    var w := 1.0 - lp / p.totalLP;
    RemovedFields(p, lp, provider, w);
    RealTotalUpdate(p.holders, provider, Held(p.holders, provider) - lp);
    ScaledBack(p, Removed(p, lp, provider), w);
  }

  /** dex.go only checks that the provider holds lp, and a negative lp always passes. For every
      accepted lp the call takes exactly lp from the provider and from the supply and pays the same
      share of both reserves; so it mints, and takes both tokens in, if and only if lp is negative. */
  lemma RemoveMintsExactly(p: Pool, lp: real, provider: string)
    requires Sound(p) && lp <= Held(p.holders, provider)
    ensures var q, out := Removed(p, lp, provider), Redeemed(p, lp);
            && Held(q.holders, provider) == Held(p.holders, provider) - lp && q.totalLP == p.totalLP - lp
            && q.reserveA == p.reserveA - out.a && q.reserveB == p.reserveB - out.b
            && (q.totalLP > p.totalLP <==> lp < 0.0) && (out.a < 0.0 <==> lp < 0.0) && (out.b < 0.0 <==> lp < 0.0)
  {
    HeldBound(p, provider);
    ShareSign(lp, p.totalLP, p.reserveA);
    ShareSign(lp, p.totalLP, p.reserveB);
  }

  lemma ShareSign(lp: real, t: real, r: real)
    requires t > 0.0 && r > 0.0
    ensures lp / t * r < 0.0 <==> lp < 0.0
  {
    DivTimes(lp, t);
    SameSign(lp / t, t, r);
  }

  lemma SameSign(x: real, t: real, r: real)
    requires t > 0.0 && r > 0.0
    ensures x * r < 0.0 <==> x * t < 0.0
  {
    if x < 0.0 {
      MulPos(-x, t);
      MulPos(-x, r);
    } else {
      MulMono(0.0, x, t);
      MulMono(0.0, x, r);
    }
  }

  lemma ScaledBack(p: Pool, q: Pool, w: real)
    requires p.reserveA > 0.0 && p.reserveB > 0.0 && p.totalLP > 0.0 && q.totalLP > 0.0 && w > 0.0
    requires q.reserveA == p.reserveA * w && q.reserveB == p.reserveB * w && q.totalLP == p.totalLP * w
    requires Product(p.reserveA, p.reserveB) >= Product(p.totalLP, p.totalLP)
    ensures NotDiluted(p, q) && NotDiluted(q, p)
    ensures Product(q.reserveA, q.reserveB) >= Product(q.totalLP, q.totalLP)
  {
    ScaledNotDiluted(p, q, w, w, w);
    BackedAfter(p, q);
    Unscaled(p.reserveA, p.reserveB, p.totalLP, w);
  }

  lemma SwapFactors(k: real, s: real, z: real)
    ensures k * (s * z) == k * z * s
  {
  }

  lemma Unscaled(ra: real, rb: real, t: real, w: real)
    ensures Product(ra, rb) * Product(t * w, t * w) == Product(ra * w, rb * w) * Product(t, t)
  {
    Regroup(t, w, t, w);
    Regroup(ra, w, rb, w);
    SwapFactors(Product(ra, rb), Product(t, t), Product(w, w));
  }

  lemma ProductKept(rIn: real, rOut: real, net: real, out: real)
    requires rIn > 0.0 && rOut > 0.0 && net > 0.0 && out == rIn * rOut / (rIn + net)
    ensures Product(rIn + net, out) == Product(rIn, rOut) == Product(out, rIn + net)
    ensures 0.0 < out < rOut
  {
    var z, k := rIn + net, rIn * rOut;
    MulPos(rIn, rOut);
    MulPos(rOut, net);
    DivTimes(k, z);
    DivPos(k, z);
    assert rOut * z == k + rOut * net;
    if out >= rOut {
      MulMono(rOut, out, z);
    }
  }

  /** One side of a swap: the product is kept and the other reserve neither empties nor grows. */
  lemma SideKept(rIn: real, rOut: real, amountIn: real)
    requires rIn > 0.0 && rOut > 0.0 && amountIn > 0.0
    ensures AfterFee(amountIn) > 0.0
    ensures var out := NewReserveOut(rIn, rOut, amountIn);
            && Product(rIn + AfterFee(amountIn), out) == Product(rIn, rOut) == Product(out, rIn + AfterFee(amountIn))
            && 0.0 < out < rOut && AmountOut(rIn, rOut, amountIn) == rOut - out
  {
    assert AfterFee(amountIn) == 0.997 * amountIn;
    ProductKept(rIn, rOut, AfterFee(amountIn), NewReserveOut(rIn, rOut, amountIn));
  }

  /** The reserve product after a swap is exactly the product before it, neither reserve
      empties, and the payout is what leaves the other reserve. */
  lemma SwapKeepsProduct(p: Pool, aToB: bool, amountIn: real)
    requires p.reserveA > 0.0 && p.reserveB > 0.0 && amountIn > 0.0
    ensures var q := Swapped(p, aToB, amountIn);
            && Product(q.reserveA, q.reserveB) == Product(p.reserveA, p.reserveB)
            && q.reserveA > 0.0 && q.reserveB > 0.0
            && Payout(p, aToB, amountIn) > 0.0
            && (if aToB then
                  && q.reserveA == p.reserveA + AfterFee(amountIn)
                  && q.reserveB == p.reserveB - Payout(p, aToB, amountIn)
                else
                  && q.reserveB == p.reserveB + AfterFee(amountIn)
                  && q.reserveA == p.reserveA - Payout(p, aToB, amountIn))
  {
    if aToB {
      SideKept(p.reserveA, p.reserveB, amountIn);
    } else {
      SideKept(p.reserveB, p.reserveA, amountIn);
      ProductCommutes(p.reserveA, p.reserveB);
    }
  }

  lemma SwappedSound(p: Pool, aToB: bool, amountIn: real)
    requires Sound(p) && amountIn > 0.0
    ensures var q := Swapped(p, aToB, amountIn);
            Sound(q) && NotDiluted(p, q) && NotDiluted(q, p)
  {
    SwapKeepsProduct(p, aToB, amountIn);
  }

  // ----- What each operation does to every field, without its formulas -----

  /** A new pool holds what was put in; the creator gets all LP tokens but the locked 1000. */
  lemma CreatedExactly(tokenA: string, tokenB: string, a: real, b: real, creator: string, root: real)
    ensures var p := Created(tokenA, tokenB, a, b, creator, root);
            && p.tokenA == tokenA && p.tokenB == tokenB && p.reserveA == a && p.reserveB == b && p.totalLP == root
            && (forall x :: Held(p.holders, x) == if x == creator then root - 1000.0 else 0.0)
            && p.volume == 0.0 && p.fees == 0.0 && p.trades == 0
  {
  }

  lemma ShareTimes(a: real, r: real, t: real)
    requires r > 0.0
    ensures a / r * t * r == a * t
  {
    DivTimes(a, r);
    assert a / r * t * r == a / r * r * t;
  }

  /** The minted amount is the largest that neither deposit makes dearer than the pool's own ratio:
      one deposit pays for it exactly, the other at least. */
  lemma MintedExactly(p: Pool, a: real, b: real)
    requires p.reserveA > 0.0 && p.reserveB > 0.0 && p.totalLP > 0.0
    ensures var lp := Minted(p, a, b);
            && lp * p.reserveA <= a * p.totalLP && lp * p.reserveB <= b * p.totalLP
            && (lp * p.reserveA == a * p.totalLP || lp * p.reserveB == b * p.totalLP)
  {
    ShareTimes(a, p.reserveA, p.totalLP);
    ShareTimes(b, p.reserveB, p.totalLP);
    var lp := Minted(p, a, b);
    MulMono(lp, a / p.reserveA * p.totalLP, p.reserveA);
    MulMono(lp, b / p.reserveB * p.totalLP, p.reserveB);
  }

  /** Adding: the deposits enter the reserves, the provider and the supply get the minted tokens, and
      no other holder, token or statistic changes. */
  lemma AddedExactly(p: Pool, a: real, b: real, provider: string)
    requires p.reserveA > 0.0 && p.reserveB > 0.0
    ensures var q, lp := Added(p, a, b, provider), Minted(p, a, b);
            && q.reserveA == p.reserveA + a && q.reserveB == p.reserveB + b && q.totalLP == p.totalLP + lp
            && (forall x :: Held(q.holders, x) == Held(p.holders, x) + if x == provider then lp else 0.0)
            && SameRecord(p, q)
  {
  }

  /** Tokens and trading statistics are the same. */
  predicate SameRecord(p: Pool, q: Pool) {
    q.tokenA == p.tokenA && q.tokenB == p.tokenB && q.volume == p.volume && q.fees == p.fees && q.trades == p.trades
  }

  /** Removing: provider and supply lose lp, both reserves pay the same share of what they hold, and
      nothing else changes. */
  lemma RemovedExactly(p: Pool, lp: real, provider: string)
    requires p.totalLP > 0.0
    ensures var q, out := Removed(p, lp, provider), Redeemed(p, lp);
            && out.a * p.totalLP == lp * p.reserveA && out.b * p.totalLP == lp * p.reserveB
            && q.reserveA == p.reserveA - out.a && q.reserveB == p.reserveB - out.b && q.totalLP == p.totalLP - lp
            && (forall x :: Held(q.holders, x) == Held(p.holders, x) - if x == provider then lp else 0.0)
            && SameRecord(p, q)
  {
    ShareTimes(lp, p.totalLP, p.reserveA);
    ShareTimes(lp, p.totalLP, p.reserveB);
  }

  /** Swapping: 99.7% of the amount enters one reserve, the payout leaves the other so that their
      product stays, 0.3% is recorded as fee, and no LP token moves. */
  lemma SwappedExactly(p: Pool, aToB: bool, amountIn: real)
    requires p.reserveA > 0.0 && p.reserveB > 0.0 && amountIn > 0.0
    ensures var q, out := Swapped(p, aToB, amountIn), Payout(p, aToB, amountIn);
            && (if aToB then q.reserveA == p.reserveA + 0.997 * amountIn && q.reserveB == p.reserveB - out
                else q.reserveB == p.reserveB + 0.997 * amountIn && q.reserveA == p.reserveA - out)
            && Product(q.reserveA, q.reserveB) == Product(p.reserveA, p.reserveB)
            && q.volume == p.volume + amountIn && q.fees == p.fees + 0.003 * amountIn && q.trades == p.trades + 1
            && q.holders == p.holders && q.totalLP == p.totalLP && q.tokenA == p.tokenA && q.tokenB == p.tokenB
  {
    SwapKeepsProduct(p, aToB, amountIn);
  }

  // ----- Adding and taking back -----

  lemma ShareOfGrowth(share: real, m: real, x: real)
    requires 0.0 < m <= x && share * (1.0 + m) == m
    ensures share * (1.0 + x) <= x
    ensures x == m ==> share * (1.0 + x) == x
  {
    assert share < 1.0 by {
      if share >= 1.0 {
        MulMono(1.0, share, 1.0 + m);
      }
    }
    MulMono(0.0, x - m, 1.0 - share);
    assert x - share * (1.0 + x) == (x - m) * (1.0 - share) by {
      assert (x - m) * (1.0 - share) == x - m - share * x + share * m;
      assert share * (1.0 + x) == share + share * x;
      assert share + share * m == m;
    }
  }

  lemma RedeemedReserve(r: real, a: real, share: real, m: real)
    requires r > 0.0 && a > 0.0 && 0.0 < m <= a / r && share * (1.0 + m) == m
    ensures share * (r + a) <= a
    ensures a / r == m ==> share * (r + a) == a
  {
    var x := a / r;
    GrownReserve(r, a);
    DivTimes(a, r);
    ShareOfGrowth(share, m, x);
    assert share * (r + a) == share * (1.0 + x) * r;
    MulMono(share * (1.0 + x), x, r);
  }

  /** Taking back the LP tokens just minted returns no more of either token than was put in,
      and all of the token that limited the minting. */
  lemma AddThenRemove(p: Pool, a: real, b: real, provider: string)
    requires p.reserveA > 0.0 && p.reserveB > 0.0 && p.totalLP > 0.0 && a > 0.0 && b > 0.0
    ensures Added(p, a, b, provider).totalLP > 0.0
    ensures var back := Redeemed(Added(p, a, b, provider), Minted(p, a, b));
            back.a <= a && back.b <= b && (back.a == a || back.b == b)
    ensures var q, lp := Added(p, a, b, provider), Minted(p, a, b);
            && (Held(p.holders, provider) >= 0.0 ==> lp <= Held(q.holders, provider))
            && var r := Removed(q, lp, provider);
               && r.totalLP == p.totalLP && (forall x :: Held(r.holders, x) == Held(p.holders, x))
               && r.reserveA >= p.reserveA && r.reserveB >= p.reserveB && SameRecord(p, r)
  {
    BackToHolders(p, a, b, provider);
    var x, y := a / p.reserveA, b / p.reserveB;
    var m := Min(x, y);
    MintedPositive(p, a, b);
    var share := Minted(p, a, b) / (p.totalLP + Minted(p, a, b));
    MintedShare(p, a, b, share);
    RedeemedReserve(p.reserveA, a, share, m);
    RedeemedReserve(p.reserveB, b, share, m);
    RedeemedIs(Added(p, a, b, provider), Minted(p, a, b), share, p.reserveA + a, p.reserveB + b);
  }

  lemma BackToHolders(p: Pool, a: real, b: real, provider: string)
    requires p.reserveA > 0.0 && p.reserveB > 0.0 && p.totalLP > 0.0 && a > 0.0 && b > 0.0
    ensures var q, lp := Added(p, a, b, provider), Minted(p, a, b);
            && q.totalLP > 0.0 && lp > 0.0
            && (Held(p.holders, provider) >= 0.0 ==> lp <= Held(q.holders, provider))
            && var r, back := Removed(q, lp, provider), Redeemed(q, lp);
               && r.totalLP == p.totalLP && (forall x :: Held(r.holders, x) == Held(p.holders, x))
               && r.reserveA == p.reserveA + a - back.a && r.reserveB == p.reserveB + b - back.b && SameRecord(p, r)
  {
    MintedPositive(p, a, b);
    AddedExactly(p, a, b, provider);
    RemovedExactly(Added(p, a, b, provider), Minted(p, a, b), provider);
  }

  lemma RedeemedIs(q: Pool, lp: real, share: real, ra: real, rb: real)
    requires q.totalLP != 0.0 && share == lp / q.totalLP && q.reserveA == ra && q.reserveB == rb
    ensures Redeemed(q, lp).a == share * ra && Redeemed(q, lp).b == share * rb
  {
  }

  lemma MintedPositive(p: Pool, a: real, b: real)
    requires p.reserveA > 0.0 && p.reserveB > 0.0 && p.totalLP > 0.0 && a > 0.0 && b > 0.0
    ensures Minted(p, a, b) > 0.0
  {
    DivPos(a, p.reserveA);
    DivPos(b, p.reserveB);
    MulPos(a / p.reserveA, p.totalLP);
    MulPos(b / p.reserveB, p.totalLP);
  }

  lemma MintedShare(p: Pool, a: real, b: real, share: real)
    requires p.reserveA > 0.0 && p.reserveB > 0.0 && p.totalLP > 0.0 && a > 0.0 && b > 0.0
    requires Minted(p, a, b) > 0.0 && share == Minted(p, a, b) / (p.totalLP + Minted(p, a, b))
    ensures var m := Min(a / p.reserveA, b / p.reserveB);
            m > 0.0 && share * (1.0 + m) == m
  {
    var m := Min(a / p.reserveA, b / p.reserveB);
    GrownReserve(p.reserveA, a);
    GrownReserve(p.reserveB, b);
    MintedIsScaled(p, a, b);
    GrownSupply(p.totalLP, m);
    ShareSolved(p.totalLP, m, share);
  }

  lemma ShareSolved(t: real, m: real, share: real)
    requires t > 0.0 && m > 0.0 && t * m > 0.0 && share == t * m / (t + t * m)
    ensures share * (1.0 + m) == m
  {
    DivTimes(t * m, t + t * m);
    assert share * (1.0 + m) * t == m * t by {
      assert share * (t + t * m) == share * (1.0 + m) * t;
    }
    MulCancel(share * (1.0 + m), m, t);
    MulCancel(m, share * (1.0 + m), t);
  }

  // ----- Swaps compose -----

  /** Two swaps in one direction pay exactly what one swap of the sum pays and leave the same
      reserves, fees and volume: no order is worth splitting or merging. */
  lemma SwapSplits(p: Pool, aToB: bool, x: real, y: real)
    requires p.reserveA > 0.0 && p.reserveB > 0.0 && x > 0.0 && y > 0.0
    ensures var q := Swapped(p, aToB, x);
            && q.reserveA > 0.0 && q.reserveB > 0.0
            && Payout(p, aToB, x) + Payout(q, aToB, y) == Payout(p, aToB, x + y)
            && Swapped(q, aToB, y) == Swapped(p, aToB, x + y).(trades := p.trades + 2)
  {
    SwapKeepsProduct(p, aToB, x);
    var q := Swapped(p, aToB, x);
    SwapKeepsProduct(q, aToB, y);
    SwapKeepsProduct(p, aToB, x + y);
    var two, one := Swapped(q, aToB, y), Swapped(p, aToB, x + y);
    if aToB {
      assert two.reserveA == one.reserveA;
      SameFactor(one.reserveA, two.reserveB, one.reserveB);
    } else {
      assert two.reserveB == one.reserveB;
      assert Product(two.reserveA, two.reserveB) == Product(two.reserveB, two.reserveA);
      assert Product(one.reserveA, one.reserveB) == Product(one.reserveB, one.reserveA);
      SameFactor(one.reserveB, two.reserveA, one.reserveA);
    }
  }

  lemma SameFactor(z: real, x: real, y: real)
    requires z > 0.0 && Product(z, x) == Product(z, y)
    ensures x == y
  {
    assert x * z == y * z;
    MulCancel(x, y, z);
    MulCancel(y, x, z);
  }

  // ----- What traders as a group pay -----

  datatype Order = Order(tokenIn: string, amountIn: real, minAmountOut: real)

  /** The checks of Swap, in the order of the source. */
  predicate Accepts(p: Pool, o: Order)
    requires p.reserveA > 0.0 && p.reserveB > 0.0
  {
    o.amountIn > 0.0 && (o.tokenIn == p.tokenA || o.tokenIn == p.tokenB)
    && Payout(p, o.tokenIn == p.tokenA, o.amountIn) >= o.minAmountOut
  }

  /** A pool with the net payments of all traders so far and the fees inside them. */
  datatype Market = Market(pool: Pool, paidA: real, paidB: real, feesA: real, feesB: real)

  function Trade(m: Market, o: Order): Market
    requires m.pool.reserveA > 0.0 && m.pool.reserveB > 0.0
  {
    if !Accepts(m.pool, o) then m
    else
      var aToB := o.tokenIn == m.pool.tokenA;
      var q, out := Swapped(m.pool, aToB, o.amountIn), Payout(m.pool, aToB, o.amountIn);
      if aToB then Market(q, m.paidA + o.amountIn, m.paidB - out, m.feesA + Fee(o.amountIn), m.feesB)
      else Market(q, m.paidA - out, m.paidB + o.amountIn, m.feesA, m.feesB + Fee(o.amountIn))
  }

  /** How a market is related to the pool it started from. */
  predicate Follows(p: Pool, m: Market) {
    && m.pool.reserveA > 0.0 && m.pool.reserveB > 0.0
    && m.feesA >= 0.0 && m.feesB >= 0.0
    && m.pool.reserveA == p.reserveA + m.paidA - m.feesA
    && m.pool.reserveB == p.reserveB + m.paidB - m.feesB
    && Product(m.pool.reserveA, m.pool.reserveB) == Product(p.reserveA, p.reserveB)
  }

  function Start(p: Pool): Market { Market(p, 0.0, 0.0, 0.0, 0.0) }

  lemma TradeFollows(p: Pool, m: Market, o: Order)
    requires Follows(p, m)
    ensures Follows(p, Trade(m, o))
  {
    if Accepts(m.pool, o) {
      SwapKeepsProduct(m.pool, o.tokenIn == m.pool.tokenA, o.amountIn);
    }
  }

  ghost predicate TradingRun(p: Pool, run: seq<Market>, orders: seq<Order>) {
    && |run| == |orders| + 1 && run[0] == Start(p)
    && forall i :: 0 <= i < |orders| ==>
         run[i].pool.reserveA > 0.0 && run[i].pool.reserveB > 0.0 && run[i + 1] == Trade(run[i], orders[i])
  }

  /** After any sequence of orders on one pool, in any directions: the reserves moved by exactly
      what traders paid net of fees, and traders who took out one token net paid in the other. */
  lemma {:induction false} TradersPayNet(p: Pool, run: seq<Market>, orders: seq<Order>)
    requires p.reserveA > 0.0 && p.reserveB > 0.0 && TradingRun(p, run, orders)
    ensures var m := run[|orders|];
            && Follows(p, m)
            && (m.paidA < 0.0 ==> m.paidB > 0.0)
            && (m.paidB < 0.0 ==> m.paidA > 0.0)
    decreases |orders|
  {
    var n := |orders|;
    if n > 0 {
      assert TradingRun(p, run[..n], orders[..n - 1]) by {
        assert forall i :: 0 <= i < n - 1 ==> run[..n][i + 1] == Trade(run[..n][i], orders[..n - 1][i]);
      }
      TradersPayNet(p, run[..n], orders[..n - 1]);
      TradeFollows(p, run[n - 1], orders[n - 1]);
    }
    OneSideGrows(p, run[n]);
  }

  lemma OneSideGrows(p: Pool, m: Market)
    requires p.reserveA > 0.0 && p.reserveB > 0.0 && Follows(p, m)
    ensures m.paidA < 0.0 ==> m.paidB > 0.0
    ensures m.paidB < 0.0 ==> m.paidA > 0.0
  {
    if m.paidA < 0.0 && m.pool.reserveB <= p.reserveB {
      SmallerProduct(m.pool.reserveA, m.pool.reserveB, p.reserveA, p.reserveB);
    }
    if m.paidB < 0.0 && m.pool.reserveA <= p.reserveA {
      assert Product(m.pool.reserveA, m.pool.reserveB) == Product(m.pool.reserveB, m.pool.reserveA);
      SmallerProduct(m.pool.reserveB, m.pool.reserveA, p.reserveB, p.reserveA);
    }
  }

  lemma SmallerProduct(x: real, y: real, u: real, v: real)
    requires 0.0 < x < u && 0.0 < y <= v
    ensures Product(x, y) < Product(u, v)
  {
    MulPos(u - x, v);
    MulMono(y, v, x);
    assert x * y == y * x && (u - x) * v == u * v - v * x;
  }

  // ----- The keeper -----

  datatype Outcome<T> =
    | Ok(value: T)
    | PoolExists
    | PoolNotFound
    | NotPositive
    | TooLittleLiquidity
    | NotEnoughLP
    | TokenNotInPool
    | Slippage
    | NotFinite

  datatype Operation =
    | Create(tokenA: string, tokenB: string, a: real, b: real, creator: string, root: real)
    | Add(id: string, a: real, b: real, provider: string)
    | Remove(id: string, lp: real, provider: string)
    | Swap(id: string, order: Order)

  ghost predicate AllSound(pools: map<string, Pool>) {
    forall id :: id in pools ==> Sound(pools[id])
  }

  /** root is a non-negative square root of a*b wherever math.Sqrt is reached. */
  predicate IsRoot(a: real, b: real, root: real) {
    a > 0.0 && b > 0.0 ==> root >= 0.0 && root * root == a * b
  }

  predicate WellFormed(op: Operation) {
    op.Create? ==> IsRoot(op.a, op.b, op.root)
  }

  /** The pools after one call; a failing call changes nothing. */
  ghost function Step(pools: map<string, Pool>, op: Operation): map<string, Pool>
    requires AllSound(pools)
  {
    match op
    case Create(tokenA, tokenB, a, b, creator, root) =>
      var id := tokenA + "-" + tokenB;
      if id in pools || a <= 0.0 || b <= 0.0 || root <= MINIMUM_LIQUIDITY then pools
      else pools[id := Created(tokenA, tokenB, a, b, creator, root)]
    case Add(id, a, b, provider) =>
      if id !in pools || a <= 0.0 || b <= 0.0 then pools
      else pools[id := Added(pools[id], a, b, provider)]
    case Remove(id, lp, provider) =>
      if id !in pools || Held(pools[id].holders, provider) < lp then pools
      else pools[id := Removed(pools[id], lp, provider)]
    case Swap(id, order) =>
      if id !in pools || !Accepts(pools[id], order) then pools
      else pools[id := Swapped(pools[id], order.tokenIn == pools[id].tokenA, order.amountIn)]
  }

  ghost predicate Keeps(before: map<string, Pool>, after: map<string, Pool>) {
    && AllSound(after)
    && forall id :: id in before ==> id in after && NotDiluted(before[id], after[id])
  }

  lemma Unchanged(pools: map<string, Pool>)
    requires AllSound(pools)
    ensures Keeps(pools, pools)
  {
    forall id | id in pools
      ensures NotDiluted(pools[id], pools[id])
    {
    }
  }

  lemma Replaced(pools: map<string, Pool>, id: string, q: Pool)
    requires AllSound(pools) && Sound(q) && (id in pools ==> NotDiluted(pools[id], q))
    ensures Keeps(pools, pools[id := q])
  {
    Unchanged(pools);
  }

  /** One call keeps every pool sound, removes none and dilutes no LP token. */
  lemma StepSound(pools: map<string, Pool>, op: Operation)
    requires AllSound(pools) && WellFormed(op)
    ensures Keeps(pools, Step(pools, op))
  {
    Unchanged(pools);
    match op
    case Create(tokenA, tokenB, a, b, creator, root) =>
      if a > 0.0 && b > 0.0 && root > MINIMUM_LIQUIDITY && tokenA + "-" + tokenB !in pools {
        CreatedSound(tokenA, tokenB, a, b, creator, root);
        Replaced(pools, tokenA + "-" + tokenB, Created(tokenA, tokenB, a, b, creator, root));
      }
    case Add(id, a, b, provider) =>
      if id in pools && a > 0.0 && b > 0.0 {
        AddedSound(pools[id], a, b, provider);
        Replaced(pools, id, Added(pools[id], a, b, provider));
      }
    case Remove(id, lp, provider) =>
      if id in pools && lp <= Held(pools[id].holders, provider) {
        RemovedSound(pools[id], lp, provider);
        Replaced(pools, id, Removed(pools[id], lp, provider));
      }
    case Swap(id, order) =>
      if id in pools && Accepts(pools[id], order) {
        SwappedSound(pools[id], order.tokenIn == pools[id].tokenA, order.amountIn);
        Replaced(pools, id, Swapped(pools[id], order.tokenIn == pools[id].tokenA, order.amountIn));
      }
  }

  /** LP tokens move only by their holder's own calls: in one step the holding of x in a pool changes
      by what x had minted or redeemed there, and by nothing else. */
  lemma HoldersExactly(pools: map<string, Pool>, op: Operation, id: string, x: string)
    requires AllSound(pools) && WellFormed(op) && id in pools
    ensures var p := pools[id];
            id in Step(pools, op)
            && Held(Step(pools, op)[id].holders, x) == Held(p.holders, x)
               + (if op.Add? && op.id == id && op.provider == x && op.a > 0.0 && op.b > 0.0 then Minted(p, op.a, op.b)
                  else if op.Remove? && op.id == id && op.provider == x && op.lp <= Held(p.holders, x) then -op.lp
                  else 0.0)
  {
    match op
    case Add(pool, a, b, provider) =>
      if pool == id && a > 0.0 && b > 0.0 {
        AddedExactly(pools[id], a, b, provider);
      }
    case Remove(pool, lp, provider) =>
      if pool == id && lp <= Held(pools[id].holders, provider) {
        RemovedExactly(pools[id], lp, provider);
      }
    case _ =>
  }

  /** A run of the keeper: every state and the call that led to it. */
  ghost predicate IsRun(run: seq<map<string, Pool>>, ops: seq<Operation>) {
    && |run| == |ops| + 1 && AllSound(run[0])
    && forall i :: 0 <= i < |ops| ==>
         WellFormed(ops[i]) && (AllSound(run[i]) ==> run[i + 1] == Step(run[i], ops[i]))
  }

  /** In every run from sound pools (in particular from none), every pool stays sound, no pool
      disappears, and between any two states no LP token has been diluted. */
  lemma {:induction false} RunSound(run: seq<map<string, Pool>>, ops: seq<Operation>, i: nat, j: nat)
    requires IsRun(run, ops) && i <= j <= |ops|
    ensures AllSound(run[i]) && Keeps(run[i], run[j])
    decreases j
  {
    if i < j {
      RunSound(run, ops, i, j - 1);
      StepSound(run[j - 1], ops[j - 1]);
      forall id | id in run[i]
        ensures id in run[j] && NotDiluted(run[i][id], run[j][id])
      {
        NotDilutedTrans(run[i][id], run[j - 1][id], run[j][id]);
      }
    } else if j > 0 {
      RunSound(run, ops, j - 1, j - 1);
      StepSound(run[j - 1], ops[j - 1]);
      Unchanged(run[j]);
    } else {
      Unchanged(run[0]);
    }
  }

  datatype SwapResult = SwapResult(poolId: string, tokenIn: string, tokenOut: string,
                                   amountIn: real, amountOut: real, fee: real,
                                   priceImpact: real, newPrice: real)

  function Abs(x: real): real { if x < 0.0 then -x else x }

  /** The result record shared by Swap and GetQuote, for a trade of reserveIn against reserveOut. */
  function QuoteFor(rIn: real, rOut: real, id: string, tokenIn: string, tokenOut: string, amountIn: real): SwapResult
    requires rIn > 0.0 && rOut > 0.0 && rIn + AfterFee(amountIn) != 0.0
  {
    var oldPrice, newPrice := rOut / rIn, NewReserveOut(rIn, rOut, amountIn) / (rIn + AfterFee(amountIn));
    DivPos(rOut, rIn);
    SwapResult(id, tokenIn, tokenOut, amountIn, AmountOut(rIn, rOut, amountIn), Fee(amountIn),
               Abs(oldPrice - newPrice) / oldPrice * 100.0, newPrice)
  }

  function Quoted(p: Pool, id: string, tokenIn: string, aToB: bool, amountIn: real): SwapResult
    requires p.reserveA > 0.0 && p.reserveB > 0.0
    requires (if aToB then p.reserveA else p.reserveB) + AfterFee(amountIn) != 0.0
  {
    if aToB then QuoteFor(p.reserveA, p.reserveB, id, tokenIn, p.tokenB, amountIn)
    else QuoteFor(p.reserveB, p.reserveA, id, tokenIn, p.tokenA, amountIn)
  }

  /** The figures of a quote for any amount, negative ones included: with 99.7% of it in, the payout
      keeps the product of the two sides. */
  lemma QuoteExactly(rIn: real, rOut: real, id: string, tokenIn: string, tokenOut: string, amountIn: real)
    requires rIn > 0.0 && rOut > 0.0 && rIn + 0.997 * amountIn != 0.0 && rIn + AfterFee(amountIn) != 0.0
    ensures var q := QuoteFor(rIn, rOut, id, tokenIn, tokenOut, amountIn);
            && (rOut - q.amountOut) * (rIn + 0.997 * amountIn) == rIn * rOut
            && q.newPrice * (rIn + 0.997 * amountIn) == rOut - q.amountOut && q.fee == 0.003 * amountIn
            && q.poolId == id && q.tokenIn == tokenIn && q.tokenOut == tokenOut && q.amountIn == amountIn
  {
    DivTimes(rIn * rOut, rIn + AfterFee(amountIn));
    DivTimes(NewReserveOut(rIn, rOut, amountIn), rIn + AfterFee(amountIn));
  }

  /** A quote is what a swap then does: same payout, and the quoted price is the price of the
      pool afterwards. */
  lemma QuoteIsHonest(p: Pool, id: string, tokenIn: string, aToB: bool, amountIn: real)
    requires p.reserveA > 0.0 && p.reserveB > 0.0 && amountIn > 0.0
    ensures var q := Swapped(p, aToB, amountIn);
            var quote := Quoted(p, id, tokenIn, aToB, amountIn);
            && q.reserveA > 0.0 && q.reserveB > 0.0
            && quote.amountOut == (if aToB then p.reserveB - q.reserveB else p.reserveA - q.reserveA)
            && quote.newPrice == (if aToB then q.reserveB / q.reserveA else q.reserveA / q.reserveB)
            && quote.fee == q.fees - p.fees == 0.003 * amountIn
            && quote.poolId == id && quote.tokenIn == tokenIn && quote.amountIn == amountIn
            && quote.tokenOut == (if aToB then p.tokenB else p.tokenA)
            && var before := if aToB then p.reserveB / p.reserveA else p.reserveA / p.reserveB;
               before > 0.0 && quote.priceImpact == Abs(before - quote.newPrice) / before * 100.0
  {
    DivPos(p.reserveB, p.reserveA);
    DivPos(p.reserveA, p.reserveB);
    SwapKeepsProduct(p, aToB, amountIn);
  }

  /** The figures of a quote, computed step by step. */
  method ComputeQuote(rIn: real, rOut: real, id: string, tokenIn: string, tokenOut: string, amountIn: real)
    returns (r: SwapResult)
    requires rIn > 0.0 && rOut > 0.0 && rIn + AfterFee(amountIn) != 0.0
    ensures r == QuoteFor(rIn, rOut, id, tokenIn, tokenOut, amountIn)
  {
    var fee := amountIn * SWAP_FEE_BPS / 10000.0;
    var newReserveIn := rIn + (amountIn - fee);
    var k := rIn * rOut;
    var newReserveOut := k / newReserveIn;
    var amountOut := rOut - newReserveOut;
    var oldPrice, newPrice := rOut / rIn, newReserveOut / newReserveIn;
    DivPos(rOut, rIn);
    var priceImpact := Abs(oldPrice - newPrice) / oldPrice * 100.0;
    r := SwapResult(id, tokenIn, tokenOut, amountIn, amountOut, fee, priceImpact, newPrice);
  }

  /** The field updates of RemoveLiquidity on one pool. */
  method TakeShare(pool: Pool, lp: real, provider: string) returns (q: Pool, out: Amounts)
    requires pool.totalLP != 0.0
    ensures q == Removed(pool, lp, provider) && out == Redeemed(pool, lp)
  {
    var share := lp / pool.totalLP;
    out := Amounts(share * pool.reserveA, share * pool.reserveB);
    q := pool.(reserveA := pool.reserveA - out.a, reserveB := pool.reserveB - out.b);
    q := q.(totalLP := q.totalLP - lp);
    q := q.(holders := q.holders[provider := Held(q.holders, provider) - lp]);
  }

  /** The field updates of AddLiquidity on one pool. */
  method GiveShare(pool: Pool, a: real, b: real, provider: string) returns (q: Pool, lp: real)
    requires pool.reserveA != 0.0 && pool.reserveB != 0.0
    ensures lp == Minted(pool, a, b) && q == WithShare(pool, a, b, lp, provider)
  {
    lp := Min(a / pool.reserveA * pool.totalLP, b / pool.reserveB * pool.totalLP);
    q := pool.(reserveA := pool.reserveA + a, reserveB := pool.reserveB + b);
    q := q.(totalLP := q.totalLP + lp);
    q := q.(holders := q.holders[provider := Held(q.holders, provider) + lp]);
  }

  /** The arithmetic of Swap on one pool; a slippage refusal changes nothing. */
  method Exchange(pool: Pool, id: string, tokenIn: string, amountIn: real, minAmountOut: real)
    returns (q: Pool, r: Outcome<SwapResult>)
    requires pool.reserveA > 0.0 && pool.reserveB > 0.0 && amountIn > 0.0
    requires tokenIn == pool.tokenA || tokenIn == pool.tokenB
    ensures var aToB := tokenIn == pool.tokenA;
            if Payout(pool, aToB, amountIn) < minAmountOut then q == pool && r == Slippage
            else q == Swapped(pool, aToB, amountIn) && r == Ok(Quoted(pool, id, tokenIn, aToB, amountIn))
  {
    var fromA := tokenIn == pool.tokenA;
    var reserveIn, reserveOut, tokenOut := pool.reserveA, pool.reserveB, pool.tokenB;
    if !fromA {
      reserveIn, reserveOut, tokenOut := pool.reserveB, pool.reserveA, pool.tokenA;
    }
    var fee := amountIn * SWAP_FEE_BPS / 10000.0;
    var amountInAfterFee := amountIn - fee;
    var k := reserveIn * reserveOut;
    var newReserveIn := reserveIn + amountInAfterFee;
    var newReserveOut := k / newReserveIn;
    var amountOut := reserveOut - newReserveOut;
    assert newReserveOut == NewReserveOut(reserveIn, reserveOut, amountIn);
    assert amountOut == Payout(pool, fromA, amountIn);
    if amountOut < minAmountOut {
      return pool, Slippage;
    }
    DivPos(reserveOut, reserveIn);
    var oldPrice, newPrice := reserveOut / reserveIn, newReserveOut / newReserveIn;
    var priceImpact := Abs(oldPrice - newPrice) / oldPrice * 100.0;
    if fromA {
      q := pool.(reserveA := pool.reserveA + amountInAfterFee, reserveB := newReserveOut);
    } else {
      q := pool.(reserveB := pool.reserveB + amountInAfterFee, reserveA := newReserveOut);
    }
    q := q.(volume := q.volume + amountIn, fees := q.fees + fee, trades := q.trades + 1);
    r := Ok(SwapResult(id, tokenIn, tokenOut, amountIn, amountOut, fee, priceImpact, newPrice));
    assert r.value == QuoteFor(reserveIn, reserveOut, id, tokenIn, tokenOut, amountIn);
  }

  class DexKeeper {
    var pools: map<string, Pool>
    var swapHistory: seq<SwapResult>

    ghost predicate Valid()
      reads this
    {
      AllSound(pools)
    }

    constructor ()
      ensures Valid() && pools == map[] && swapHistory == []
    {
      pools := map[];
      swapHistory := [];
    }

    method CreatePool(tokenA: string, tokenB: string, a: real, b: real, creator: string, root: real)
      returns (r: Outcome<Pool>)
      requires Valid() && IsRoot(a, b, root)
      modifies this`pools
      ensures Valid() && pools == Step(old(pools), Create(tokenA, tokenB, a, b, creator, root))
      ensures r.Ok? <==> pools != old(pools)
      ensures r.PoolExists? <==> tokenA + "-" + tokenB in old(pools)
      ensures r.NotPositive? <==> tokenA + "-" + tokenB !in old(pools) && (a <= 0.0 || b <= 0.0)
      ensures r.Ok? <==> tokenA + "-" + tokenB !in old(pools) && a > 0.0 && b > 0.0 && root > 1000.0
      ensures r.Ok? ==> tokenA + "-" + tokenB in pools && pools[tokenA + "-" + tokenB] == r.value
    {
      ghost var op := Create(tokenA, tokenB, a, b, creator, root);
      StepSound(pools, op);
      var id := tokenA + "-" + tokenB;
      if id in pools {
        return PoolExists;
      }
      if a <= 0.0 || b <= 0.0 {
        return NotPositive;
      }
      var lp := root - MINIMUM_LIQUIDITY;
      if lp <= 0.0 {
        return TooLittleLiquidity;
      }
      var pool := Pool(tokenA, tokenB, a, b, lp + MINIMUM_LIQUIDITY, map[creator := lp], 0.0, 0.0, 0);
      pools := pools[id := pool];
      return Ok(pool);
    }

    method AddLiquidity(id: string, a: real, b: real, provider: string) returns (r: Outcome<real>)
      requires Valid()
      modifies this`pools
      ensures Valid() && pools == Step(old(pools), Add(id, a, b, provider))
      ensures r.Ok? <==> id in old(pools) && a > 0.0 && b > 0.0
      ensures r.PoolNotFound? <==> id !in old(pools)
      ensures r.Ok? ==> Held(pools[id].holders, provider) == Held(old(pools)[id].holders, provider) + r.value
      ensures r.Ok? ==> r.value == Minted(old(pools)[id], a, b) > 0.0
    {
      StepSound(pools, Add(id, a, b, provider));
      if id !in pools {
        return PoolNotFound;
      }
      if a <= 0.0 || b <= 0.0 {
        return NotPositive;
      }
      AddedSound(pools[id], a, b, provider);
      var pool, lp := GiveShare(pools[id], a, b, provider);
      pools := pools[id := pool];
      return Ok(lp);
    }

    method RemoveLiquidity(id: string, lp: real, provider: string) returns (r: Outcome<Amounts>)
      requires Valid()
      modifies this`pools
      ensures Valid() && pools == Step(old(pools), Remove(id, lp, provider))
      ensures r.Ok? <==> id in old(pools) && lp <= Held(old(pools)[id].holders, provider)
      ensures r.PoolNotFound? <==> id !in old(pools)
      ensures r.Ok? ==> Held(pools[id].holders, provider) == Held(old(pools)[id].holders, provider) - lp
      ensures r.Ok? ==> r.value == Redeemed(old(pools)[id], lp)
    {
      StepSound(pools, Remove(id, lp, provider));
      if id !in pools {
        return PoolNotFound;
      }
      if Held(pools[id].holders, provider) < lp {
        return NotEnoughLP;
      }
      var pool, out := TakeShare(pools[id], lp, provider);
      pools := pools[id := pool];
      return Ok(out);
    }

    /** A slippage failure is reported in the result and changes nothing. */
    method Swap(id: string, tokenIn: string, amountIn: real, minAmountOut: real) returns (r: Outcome<SwapResult>)
      requires Valid()
      modifies this
      ensures Valid() && pools == Step(old(pools), Operation.Swap(id, Order(tokenIn, amountIn, minAmountOut)))
      ensures r.PoolNotFound? <==> id !in old(pools)
      ensures r.NotPositive? <==> id in old(pools) && amountIn <= 0.0
      ensures r.TokenNotInPool? <==> id in old(pools) && amountIn > 0.0
                                     && tokenIn !in {old(pools)[id].tokenA, old(pools)[id].tokenB}
      ensures r.Ok? <==> && id in old(pools) && amountIn > 0.0
                         && tokenIn in {old(pools)[id].tokenA, old(pools)[id].tokenB}
                         && Payout(old(pools)[id], tokenIn == old(pools)[id].tokenA, amountIn) >= minAmountOut
      ensures r.Ok? ==> && r.value == Quoted(old(pools)[id], id, tokenIn, tokenIn == old(pools)[id].tokenA, amountIn)
                        && r.value.amountOut >= minAmountOut
      ensures swapHistory == old(swapHistory) + (if r.Ok? then [r.value] else [])
    {
      ghost var order := Order(tokenIn, amountIn, minAmountOut);
      StepSound(pools, Operation.Swap(id, order));
      if id !in pools {
        return PoolNotFound;
      }
      if amountIn <= 0.0 {
        return NotPositive;
      }
      if tokenIn != pools[id].tokenA && tokenIn != pools[id].tokenB {
        return TokenNotInPool;
      }
      var pool;
      pool, r := Exchange(pools[id], id, tokenIn, amountIn, minAmountOut);
      if r.Ok? {
        pools := pools[id := pool];
        swapHistory := swapHistory + [r.value];
      }
    }

    /** Any token other than TokenA is quoted as TokenB. NotFinite stands for the float division
        by zero that a large negative amount can reach. */
    method GetQuote(id: string, tokenIn: string, amountIn: real) returns (r: Outcome<SwapResult>)
      requires Valid()
      ensures r.PoolNotFound? <==> id !in pools
      ensures id in pools ==>
                var p, aToB := pools[id], tokenIn == pools[id].tokenA;
                if (if aToB then p.reserveA else p.reserveB) + AfterFee(amountIn) == 0.0 then r == NotFinite
                else r == Ok(Quoted(p, id, tokenIn, aToB, amountIn))
    {
      if id !in pools {
        return PoolNotFound;
      }
      var pool := pools[id];
      var reserveIn, reserveOut, tokenOut := pool.reserveB, pool.reserveA, pool.tokenA;
      if tokenIn == pool.tokenA {
        reserveIn, reserveOut, tokenOut := pool.reserveA, pool.reserveB, pool.tokenB;
      }
      if reserveIn + AfterFee(amountIn) == 0.0 {
        return NotFinite;
      }
      var result := ComputeQuote(reserveIn, reserveOut, id, tokenIn, tokenOut, amountIn);
      return Ok(result);
    }
  }
}
