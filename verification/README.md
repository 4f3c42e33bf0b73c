# Nuvex node: a verified model of its keepers

Nuvex is a Go blockchain node. This project models the parts of it that hold state or
arithmetic worth proving and proves what they guarantee over every input, every interleaving
or every run. `dafny verify dfyconfig.toml` checks the whole project (Dafny 4.11).

| file | what it models |
|---|---|
| `NumberTheory.dfy`, `Monoid.dfy`, `Bytes.dfy`, `Curve.dfy`, `Ecdsa.dfy` | `crypto.go`: `big.Int` residues and inverses, point addition, double-and-add, byte and hex encodings, ECDSA |
| `Dex.dfy` | `dex.go`: the constant-product exchange |
| `Blockchain.dfy`, `Mempool.dfy`, `Bft.dfy` | `blockchain.go`, `mempool.go`, `consensus_bft.go` one by one |
| `BlockProduction.dfy`, `BftKeeper.dfy` | the three of them joined: all interleavings of the node's own steps, and the object that executes them |
| `Ledger.dfy`, `Staking.dfy`, `Governance.dfy` | `state.go`, `staking.go`, `governance.go` |
| `Economy.dfy` | every coin of the node over whole runs of the three keepers |
| `Leader.dfy`, `Mining.dfy` | `consensus.go`, `mining.go` |
| `Totals.dfy`, `Words.dfy` | sums over maps and sets; int64 and uint64 wrap-around |

## How the model is built

Objects whose methods update fields are classes (`DexKeeper`, `Chain`, `Pool`, `BftConsensus`,
`StateKeeper`, `StakingKeeper`, `GovernanceKeeper`, `MiningKeeper`, `ConsensusEngine`). Each
method is proved against a function of the old state, and the lemmas about runs use that
function. Go maps are `map` fields that the methods reassign; ranging over a map picks keys in
arbitrary order. Loops of the source are loops here. Lock-protected sections are atomic steps.

Inputs that the node takes from outside are arguments: clock readings, SHA-256 followed by hex
(the function value `sha` of a `Hasher`, whose other part is the string that `calculateHash`
digests; `NodeHasher` is the node's own), the nonce derivation of `Sign`, the square root of
`math.Sqrt`, the verdict of the P-256 signature check of `SignedTransfer`.

Hypotheses that appear in `requires` clauses and are not proved here:

- `Secp256k1.GroupFacts`: the field prime and the group order are prime, point addition is
  associative on the curve, `N * G` is infinity, and no curve point has y = 0. Closure,
  commutativity, neutral element, inverses, cancellation, the order of every multiple below `N`
  and the generator being on the curve are proved.
- `Blockchain.CollisionFree`: no two different hash inputs among the blocks of the two chains
  being compared were given the same digest; `RootsCollisionFree`: the same for their state roots;
  `HexDigest`: digests are 64 hex characters.
- `Economy.Enabled`: position ids are fresh (they carry the nanosecond clock), the clock does not
  run backwards, and amounts and fees are int64 values.
- In block production, submission hashes are fresh (they digest the nanosecond clock) and
  rounds start one after the other, from the single loop of `app/app.go:91-97`; `HeightsDrift`
  also takes its numbering of the rounds (`Numbered`).

What the proofs show about the code, beyond what its comments say:

- A node that starts with any validator but itself never appends a block: the only prepare vote
  of a round is its own, and no file of the node delivers another (`NoBlockWithPeers`,
  `BlocksExactlyWhenAlone`).
- A sole validator appends a selection only if its commit goroutine comes before the next
  `StartRound`, for which the loop in `app/app.go:91-97` does not wait. Otherwise the selected
  transactions are neither on the chain nor in the pool any more (`ProposalFate`, `SoloNodeDrops`).
- `state.go` accepts negative amounts and fees and sums that wrap around. Conservation holds for
  them modulo 2^64, and exactly if and only if the two balances that a transfer leads to are
  non-negative int64 values (`MovedExactly`, `ExactWhileSafe`).
- The uint64 tallies of a proposal are its ballot sums modulo 2^64. A balance below zero votes with
  a power near 2^64, and the outcome can then contradict the ballots (`VoteExactly`,
  `TalliesExactly`, `TallyWraps`).
- The leader search finds the owner of every slot exactly while the active powers add up to an
  int64 (`SearchExactly`).
- The appended block carries the height of the chain, not the one voted on: they differ by the
  number of rounds lost before (`HeightsDrift`).
- The mining pool is empty at block 2,000,000, before the first halving at block 78,840,000, so
  the halvings never change what is paid (`EmissionExactly`).
- The block hash determines height, previous hash, time and state root although its input has no
  delimiters. Validator, transaction count, fees and reward are only determined as one string, and
  the burned amount not at all (`InputDetermines`, `TailIsAmbiguous`).
- Voting power is the balance at voting time, so the same coins can vote from two accounts.
  `HeldExactly` says exactly which calls leave a ballot without its coins (`CoinsVoteTwice`,
  `PowerWithinSupply`).
- `RemoveLiquidity` with a negative amount passes its check for anyone and mints LP tokens against
  both reserves, in proportion (`RemoveMintsExactly`).
- A validator list that repeats the leader's address pays each copy (`ProcessBlock`).
- `Stake` slices the first ten bytes of the owner for the position id after it has debited the
  account; a shorter owner makes it panic there and the stake is lost (`StakeLostExactly`,
  `NothingLost`).

Where code and comments disagree, the model follows the code: `staking.go` announces daily
compounding and pays simple linear interest; `dex.go` compares itself with Uniswap v2 and, unlike
it, keeps the swap fee out of the reserves; `crypto.go` names RFC 6979 and HMAC-SHA-256 and uses
truncated HMAC-SHA-512 without retries; `governance.go` speaks of the circulating supply and
compares with the constant 500,000,000,000,000.

## Model

| member | source | states |
|---|---|---|
| NumberTheory.ModInverse | x/nvx/keeper/crypto.go:123-125 | an inverse returned by ModInverse is in [1, m) and multiplies to 1 modulo m |
| NumberTheory.ModInverseComplete | x/nvx/keeper/crypto.go:123-125 | whenever some v inverts a, ModInverse returns v reduced: it is nil only if no inverse exists, and inverses are unique |
| NumberTheory.PrimeInverse | x/nvx/keeper/crypto.go:66 | modulo a prime, every non-multiple has an inverse |
| Curve.AddIsDefined | x/nvx/keeper/crypto.go:52-106 | adding or doubling curve points never reaches a nil inverse |
| Curve.AddOnCurve | x/nvx/keeper/crypto.go:52-82 | in every branch the sum of reduced curve points is infinity or a reduced curve point |
| Curve.DoubleOnCurve | x/nvx/keeper/crypto.go:85-106 | doubling stays on the curve with reduced coordinates |
| Curve.ChordLaw | x/nvx/keeper/crypto.go:63-81 | for every s with s*(x2-x1) = y2-y1 the sum has x3 = s^2-x1-x2 and y3 = s*(x1-x3)-y1, as section 2.2.1 of SEC 1 says, whatever inverse was used |
| Curve.TangentLaw | x/nvx/keeper/crypto.go:88-105 | the same for doubling, for every s with s*2y = 3x^2 |
| Curve.InfinityExactly | x/nvx/keeper/crypto.go:53-61 | the sum is infinity exactly for opposite points or two infinities: the equal-X different-Y branch is right |
| Curve.SumOnChord | x/nvx/keeper/crypto.go:63-81 | without slope or inverse: the opposite of the sum lies on the line through both points, and the three abscissas add up to the squared slope |
| Curve.SumOnTangent | x/nvx/keeper/crypto.go:85-105 | the same for doubling and the tangent |
| Curve.AddThenSubtract | x/nvx/keeper/crypto.go:52-106 | addition can be undone: (a + b) + (-b) = a for all curve points, in every branch, without assuming associativity |
| Curve.AddCommutes | x/nvx/keeper/crypto.go:52-82 | addition is commutative |
| Curve.BitLenIsLastShift | x/nvx/keeper/crypto.go:113 | the loop bound k.BitLen() is reached exactly when no bits remain |
| Curve.ScalarMult | x/nvx/keeper/crypto.go:109-120 | the bit loop computes double-and-add of all bits of k |
| Curve.LoopIsDefined | x/nvx/keeper/crypto.go:109-120 | no iteration of the loop reaches a nil inverse |
| Monoid.DoubleAndAddCorrect | x/nvx/keeper/crypto.go:113-118 | the loop invariant: the result is accumulator + (remaining bits)*addend |
| Curve.ScalarMultIsMultiple | x/nvx/keeper/crypto.go:109-120 | scalarMult(k, P) is the k-fold sum of P for every k >= 0, and is on the curve |
| Curve.CombineMultiples | x/nvx/keeper/crypto.go:277-279 | u1*G + u2*(d*G) is ((u1 + u2*d) mod n)*G |
| Curve.MultipleBelowOrder | x/nvx/keeper/crypto.go:205-206 | no multiple k*G with 0 < k < n is infinity, so kG.X is never nil |
| Curve.OppositeMultiples | x/nvx/keeper/crypto.go:53-61 | multiples whose counts add up to the order are both infinity or share their first coordinate |
| Bytes.WriteField32 | x/nvx/keeper/crypto.go:234-239 | make, Bytes and copy leave the zero-padded 32-byte big-endian form in the buffer |
| Bytes.Field32RoundTrip | x/nvx/keeper/crypto.go:234-256 | SetBytes of a padded field gives back every number below 2^256 |
| Bytes.FromBytesJoins | x/nvx/keeper/crypto.go:254-256 | SetBytes is big-endian: bytes in front count for 256 to the number behind them |
| Bytes.HexRoundTrip | x/nvx/keeper/crypto.go:241-250 | hex decoding inverts hex encoding |
| Bytes.HexEncodesExactly | x/nvx/keeper/crypto.go:241 | two lower-case digits per byte, high nibble first |
| Bytes.HexDecodesExactly | x/nvx/keeper/crypto.go:250 | decoding succeeds if and only if the length is even and every character is a hex digit of either case; encoding then gives the string back in lower case |
| Ecdsa.VerifyNumbersExactly | x/nvx/keeper/crypto.go:258-290 | under the key d*G, verification compares r with the first coordinate of ((h + r*d)/s)*G, and meets no nil inverse of s, inside either scalar loop or in the final addition |
| Ecdsa.VerifyExactly | x/nvx/keeper/crypto.go:249-291 | for every string: accepted if and only if it is the hex of 64 bytes with r, s in [1, n-1] and that point has x = r modulo n |
| Ecdsa.VerdictsExactly | x/nvx/keeper/crypto.go:249-291 | for every string, which verdict verification gives and why |
| Ecdsa.TwinVerifies | x/nvx/keeper/crypto.go:258-290 | signatures are malleable: (r, n - s) gets the same verdict as (r, s) for every key, hash and r, s in range |
| Ecdsa.SignNeverPanics | x/nvx/keeper/crypto.go:194-225 | with a nonce in [1, n-1] Sign meets no nil inverse inside scalarMult or after it |
| Ecdsa.SignsExactly | x/nvx/keeper/crypto.go:205-225 | with r the first coordinate of k*G modulo n: the zero-r error if and only if r = 0, the zero-s error if and only if r is not 0 and n divides h + r*d, and a signature (r, s) with k*s = h + r*d otherwise |
| Ecdsa.RecoverNonce | x/nvx/keeper/crypto.go:212-218 | for s = e/k, e/s is k again |
| Ecdsa.SignThenVerify | x/nvx/keeper/crypto.go:156-291 | for every key, every hash and every nonce in range for which signing succeeds, the 128 hex digits decode to the same (r, s) and verify under the public key |
| Secp256k1.DomainIsGroup | x/nvx/keeper/crypto.go:19-35 | the constants put G on the curve and, with the public facts, meet every hypothesis of the signing theorems |
| Secp256k1.NodeSignatureVerifies | x/nvx/keeper/crypto.go:156-291 | sign-then-verify for the node's own curve constants |
| Dex.CreatedSound | x/nvx/keeper/dex.go:187-204 | a new pool is sound with reserve product exactly totalLP^2 |
| Dex.CreatedExactly | x/nvx/keeper/dex.go:187-204 | a new pool holds what was put in; the creator gets all LP tokens but 1000 |
| Dex.AddedSound | x/nvx/keeper/dex.go:239-251 | adding liquidity keeps the pool sound, mints a positive amount and dilutes no LP token |
| Dex.MintedExactly | x/nvx/keeper/dex.go:239-243 | the minted amount is paid for exactly by one deposit and at least by the other, at the ratio of the pool |
| Dex.AddedExactly | x/nvx/keeper/dex.go:245-251 | the deposits enter the reserves, the provider alone gets the minted tokens, nothing else changes |
| Dex.RemovedSound | x/nvx/keeper/dex.go:286-301 | redeeming keeps the pool sound and leaves the backing per LP token exactly unchanged |
| Dex.RemovedExactly | x/nvx/keeper/dex.go:291-301 | the provider alone loses the tokens, both reserves pay the same share, nothing else changes |
| Dex.RemoveMintsExactly | x/nvx/keeper/dex.go:286-306 | for every accepted amount, RemoveLiquidity mints LP tokens and takes both tokens in if and only if the amount is negative |
| Dex.SwapKeepsProduct | x/nvx/keeper/dex.go:348-380 | a swap keeps the reserve product exactly, empties no reserve, and pays what leaves the other reserve |
| Dex.SwappedExactly | x/nvx/keeper/dex.go:348-385 | 99.7% of the amount enters one reserve, the payout leaves the other, 0.3% is recorded as fee, no LP token moves |
| Dex.RunSound | x/nvx/keeper/dex.go:165-406 | in every run of create, add, remove and swap: totalLP = holders + 1000, reserves positive, reserveA*reserveB >= totalLP^2, no pool disappears, and between any two states no LP token is diluted |
| Dex.HoldersExactly | x/nvx/keeper/dex.go:221-301 | LP tokens move only by their holder's own calls, by exactly what was minted or redeemed |
| Dex.AddThenRemove | x/nvx/keeper/dex.go:239-306 | the provider can redeem the LP tokens just minted; that returns at most what was put in of each token and all of the limiting one, and gives every holder and the supply back what they had |
| Dex.SwapSplits | x/nvx/keeper/dex.go:348-385 | two swaps in one direction pay exactly what one swap of the sum pays and leave the same pool |
| Dex.TradersPayNet | x/nvx/keeper/dex.go:328-385 | over any sequence of orders the reserves move by what traders pay net of fees, and traders who take out one token net pay in the other |
| Dex.QuoteIsHonest | x/nvx/keeper/dex.go:426-459 | a quote names the payout, fee, price impact and resulting price of the swap it previews |
| Dex.QuoteExactly | x/nvx/keeper/dex.go:439-448 | the figures of a quote for any amount, negative ones included |
| Dex.Exchange | x/nvx/keeper/dex.go:333-385 | the field updates of Swap are the modelled ones, and a slippage refusal changes nothing |
| Dex.DexKeeper.CreatePool | x/nvx/keeper/dex.go:165-214 | creates exactly the specified pool or fails without effect; all pools stay sound |
| Dex.DexKeeper.AddLiquidity | x/nvx/keeper/dex.go:221-266 | succeeds exactly on a known pool and positive amounts; all pools stay sound |
| Dex.DexKeeper.RemoveLiquidity | x/nvx/keeper/dex.go:273-307 | succeeds exactly when the provider holds the tokens; all pools stay sound |
| Dex.DexKeeper.Swap | x/nvx/keeper/dex.go:314-406 | succeeds exactly when the order is acceptable, at the quoted figures, and appends them to the history |
| Dex.DexKeeper.GetQuote | x/nvx/keeper/dex.go:413-461 | quotes any amount without changing the pool; unknown tokens count as token B |
| Blockchain.DigitsInjective | x/nvx/keeper/blockchain.go:141 | decimal notation determines the number |
| Blockchain.DigitsExactly | x/nvx/keeper/blockchain.go:141 | the decimal notation: digits only, most significant first, no leading zero, with the value of the number |
| Blockchain.BuiltAt | x/nvx/keeper/blockchain.go:68-121 | in a chain that genesis and AddBlock built, block i has height i, its own hash and the hash of block i-1 |
| Blockchain.BuiltIsValid | x/nvx/keeper/blockchain.go:167-194 | every built chain passes ValidateChain |
| Blockchain.ValidExactly | x/nvx/keeper/blockchain.go:167-194 | ValidateChain accepts exactly the chains whose blocks after the first digest their own fields, repeat the hash before and are one higher |
| Blockchain.ValidHeights | x/nvx/keeper/blockchain.go:171-190 | the heights of a validated chain count up |
| Blockchain.TamperShows | x/nvx/keeper/blockchain.go:171-190 | a block below the tip of a valid chain can only be replaced by one with the same hash input, unless the digest collides |
| Blockchain.HeaderParses | x/nvx/keeper/blockchain.go:140-153 | the undelimited hash input determines height, previous hash and timestamp |
| Blockchain.NodeHasherParses | x/nvx/keeper/blockchain.go:140-153 | the hash input of the node is one that parses, so the theorem on tip hashes applies to it |
| Blockchain.InputDetermines | x/nvx/keeper/blockchain.go:95-153 | two appended blocks have the same hash input if and only if height, previous hash, time and state root agree and validator, count, fees and reward read the same when written together |
| Blockchain.TailIsAmbiguous | x/nvx/keeper/blockchain.go:95-153 | after any block, AddBlock can give two blocks with different validator, fees and burned amount the same hash under every digest |
| Blockchain.TipDeterminesHeaders | x/nvx/keeper/blockchain.go:95-153 | built chains with the same tip hash have equal length and equal hash, previous hash, height, time and state root everywhere, and equal validator, count, fees and reward written together |
| Blockchain.ConcatInjective | x/nvx/keeper/blockchain.go:155-161 | hashes of one length can be told apart in the state-root input |
| Blockchain.ConcatJoins | x/nvx/keeper/blockchain.go:155-161 | the state root digests the hashes in order |
| Blockchain.TipDeterminesTransactions | x/nvx/keeper/blockchain.go:95-161 | without state-root collisions the tip hash determines the concatenated transactions of every block, and the list itself when all hashes have one length |
| Blockchain.Chain.constructor | x/nvx/keeper/blockchain.go:48-89 | a new chain is the genesis block |
| Blockchain.Chain.AddBlock | x/nvx/keeper/blockchain.go:95-134 | appends the next block and keeps the chain built |
| Blockchain.Chain.ValidateChain | x/nvx/keeper/blockchain.go:167-194 | accepts exactly the chains whose every link is sound, and otherwise reports the first bad one |
| Blockchain.Chain.GetBlock | x/nvx/keeper/blockchain.go:209-218 | finds block h at index h, and nothing for other heights |
| Mempool.SelectionIsOptimal | x/nvx/keeper/mempool.go:89-122 | no set of at most cap live transactions collects more in fees than the selection |
| Mempool.SelectionSize | x/nvx/keeper/mempool.go:111-113 | a selection has min(maxTxs, 1000, live count) transactions |
| Mempool.SelectionIsFresh | x/nvx/keeper/mempool.go:97-113 | every chosen transaction is at most an hour old; one left out although it is, was left out for a full block of no smaller fees |
| Mempool.SortByPriority | x/nvx/keeper/mempool.go:107-109 | sorting keeps the candidates and puts them in descending priority |
| Mempool.DropStale | x/nvx/keeper/mempool.go:191-197 | the cleanup loop keeps exactly the live entries and counts the others |
| Mempool.Pool.Submit | x/nvx/keeper/mempool.go:53-87 | full and low-fee refusals change nothing; the size counter stays right exactly when the hash is new |
| Mempool.Pool.SelectForBlock | x/nvx/keeper/mempool.go:89-122 | returns a selection marked confirmed; pending is exactly the rest and size counts it |
| Mempool.Pool.CollectLive | x/nvx/keeper/mempool.go:97-105 | the candidates are exactly the unexpired entries, each once |
| Mempool.Pool.Confirm | x/nvx/keeper/mempool.go:115-119 | marks and deletes exactly the given transactions |
| Mempool.Pool.Cleanup | x/nvx/keeper/mempool.go:184-197 | removes exactly the expired entries and keeps the counter right |
| Bft.EveryBlockIsBacked | x/nvx/keeper/consensus_bft.go:159-218 | for arbitrary rounds, proposals, votes and validator additions: every block added follows its own transition into Commit in the same round, and both had a quorum of distinct voters |
| Bft.QuorumFollowsValidators | x/nvx/keeper/consensus_bft.go:79-274 | after any inputs the quorum is 2n/3 + 1 of the current number n of validators |
| Bft.QuorumExactly | x/nvx/keeper/consensus_bft.go:80-84 | the quorum is the least number above two thirds; all but a third of the validators are just enough |
| Bft.PrepareExactly | x/nvx/keeper/consensus_bft.go:159-171 | the whole effect of a prepare vote in any phase, with Commit exactly above two thirds |
| Bft.CommitExactly | x/nvx/keeper/consensus_bft.go:191-218 | the whole effect of a commit vote in any phase, finalising exactly in Commit above two thirds |
| Bft.HashIsIgnored | x/nvx/keeper/consensus_bft.go:159-201 | neither vote handler depends on the block hash or round of a vote |
| Bft.BlocksAtMostQuorums | x/nvx/keeper/consensus_bft.go:159-218 | within a round, blocks never outnumber the prepare votes that found a quorum |
| Bft.QuorumsOverlap | x/nvx/keeper/consensus_bft.go:80-84 | two quorums of n validators share more than n/3 of them |
| Bft.CommitSetsOverlap | x/nvx/keeper/consensus_bft.go:191-201 | any two blocks of a run under the same validators were committed by sets that share more than n/3 members |
| BlockProduction.StepKeeps | x/nvx/keeper/consensus_bft.go:96-218 | each step of the joined system keeps the invariant, in particular the accounting of every transaction |
| BlockProduction.SubmitExactly | x/nvx/keeper/mempool.go:53-87 | a submission is accepted exactly below 10,000 entries and from a fee of 100 on |
| BlockProduction.CleanUpExactly | x/nvx/keeper/mempool.go:184-197 | cleanup expires exactly the entries older than an hour |
| BlockProduction.EveryTransactionInOnePlace | x/nvx/keeper/consensus_bft.go:96-218 | in every interleaving each accepted transaction is in exactly one of pending, in flight, on chain, dropped, expired; none is on the chain twice; size = pending count <= 10000; the chain validates |
| BlockProduction.SelectionMoves | x/nvx/keeper/mempool.go:115-119 | taking a selection out of the pool moves exactly its hashes |
| BlockProduction.CommitMoves | x/nvx/keeper/consensus_bft.go:191-218 | a commit vote moves the proposal in flight onto the chain or moves nothing |
| BlockProduction.PathGrows | x/nvx/keeper/consensus_bft.go:96-218 | between any two states blocks are only appended, what is on the chain stays, what was dropped or expired stays lost, no submission is forgotten |
| BlockProduction.OwnCommitFinalizes | x/nvx/keeper/consensus_bft.go:191-218 | with only its own votes, a delivered vote appends the proposal if and only if it is for the current height, the round is in Commit and there is no second validator |
| BlockProduction.ProposalFate | x/nvx/keeper/consensus_bft.go:96-218 | in every interleaving, a proposed transaction reaches the chain if and only if such a vote is delivered before the next round begins; otherwise the next round drops it |
| BlockProduction.BlocksComeFromProposals | x/nvx/keeper/consensus_bft.go:114-218 | every block of every run after genesis carries the hashes, fee total, burn and reward that one of the node's proposals computed from its selection |
| BlockProduction.HeightsDrift | x/nvx/keeper/consensus_bft.go:132-218 | the appended block carries the contents of the proposal and is lower than it by exactly the number of rounds lost before; the heights agree if and only if none was lost |
| BlockProduction.FeesExactly | x/nvx/keeper/consensus_bft.go:122-140 | fee total and burned amount are those of the true sum if and only if ten times the sum is an int64 |
| BlockProduction.NoBlockWithPeers | x/nvx/keeper/consensus_bft.go:149-171 | a node started with any validator but itself alone never appends a block |
| BlockProduction.SoloNodeAppends | x/nvx/keeper/consensus_bft.go:96-218 | from any idle state a sole validator can append a block with exactly the selected transactions, their fee total and its burn: the schedule in which its goroutine comes before the next round |
| BlockProduction.SoloNodeDrops | x/nvx/keeper/consensus_bft.go:96-112 | the same sole validator loses the selection when the next round begins first |
| BlockProduction.BlocksExactlyWhenAlone | x/nvx/keeper/consensus_bft.go:79-218 | some interleaving appends a block if and only if the node starts with itself as only validator, or with none |
| BftKeeper.BftConsensus.constructor | x/nvx/keeper/consensus_bft.go:79-94 | no round, quorum 2n/3 + 1 |
| BftKeeper.BftConsensus.BeginRound | x/nvx/keeper/consensus_bft.go:96-112 | replaces the round and reports whether this node leads it |
| BftKeeper.BftConsensus.ProposeBlock | x/nvx/keeper/consensus_bft.go:114-157 | proposes a selection with its int64 fee total and burn, takes it out of the pool and returns the node's own vote |
| BftKeeper.BftConsensus.ReceivePrepareVote | x/nvx/keeper/consensus_bft.go:159-171 | ignores other heights, records the vote, overwrites the phase, and with more than two thirds enters Commit and starts a goroutine |
| BftKeeper.BftConsensus.SubmitCommitVote | x/nvx/keeper/consensus_bft.go:173-189 | a goroutine votes for the proposal of whatever round is current |
| BftKeeper.BftConsensus.ReceiveCommitVote | x/nvx/keeper/consensus_bft.go:191-218 | appends a block exactly when the vote makes more than two thirds in Commit with a proposal; the block carries the proposal field by field |
| BftKeeper.BftConsensus.AddValidator | x/nvx/keeper/consensus_bft.go:269-274 | adds a validator and recomputes the quorum |
| BftKeeper.Summarize | x/nvx/keeper/consensus_bft.go:121-126 | collects the hashes in order and the fee total modulo 2^64, which is exact while it is an int64 |
| Ledger.MovedEntries | x/nvx/keeper/state.go:122-135 | for all amounts and fees, every account after a transfer: balance modulo 2^64, nonce, key, and which accounts exist, self-transfers included |
| Ledger.MovedTotalModulo | x/nvx/keeper/state.go:122-135 | for all amounts, the sum of balances drops by the fee modulo 2^64 |
| Ledger.MovedExactly | x/nvx/keeper/state.go:114-135 | for every accepted int64 amount and fee: non-negative int64 balances stay so and their sum drops by exactly the fee if and only if the balances the transfer leads to, computed without wrap-around, are non-negative int64 values |
| Ledger.WhoPays | x/nvx/keeper/state.go:122-135 | an accepted transfer lowers another account if and only if the amount is negative or wraps the receiver around; when it fits, coins are created if and only if the fee is negative |
| Ledger.AcceptedAndWrapped | x/nvx/keeper/state.go:175-186 | an accepted transfer of a positive amount that wraps the receiver below zero |
| Ledger.AcceptedAndOverdrawn | x/nvx/keeper/state.go:175-186 | an accepted transfer that leaves the receiver below zero |
| Ledger.LoggedTransferExplained | x/nvx/keeper/state.go:170-204 | for all amounts, after a logged transfer the account map is the replay of the longer log |
| Ledger.GenesisExplained | x/nvx/keeper/state.go:50-65 | opening an account that no transfer touched commutes with the whole log |
| Ledger.LogExplains | x/nvx/keeper/state.go:170-204 | a replayed log gives balance = opening + received - spent modulo 2^64, nonce = number sent, unchanged keys, and exactly the opened and receiving accounts |
| Ledger.NonceIsCount | x/nvx/keeper/state.go:186-198 | the k-th transaction of a sender carries nonce k |
| Ledger.NoncesIncrease | x/nvx/keeper/state.go:186-198 | later transactions of a sender carry larger nonces |
| Ledger.StateKeeper.InitGenesis | x/nvx/keeper/state.go:50-65 | opens exactly the missing accounts from the first entry of each address, leaves existing ones alone, keeps the map the replay of the log |
| Ledger.StateKeeper.Transfer | x/nvx/keeper/state.go:166-209 | for all amounts: succeeds exactly for a known sender whose balance covers the wrapped sum; the map stays the replay of the log |
| Ledger.StateKeeper.SignedTransfer | x/nvx/keeper/state.go:83-163 | additionally needs a valid signature and a key that derives the sender |
| Staking.AccrualIsLinear | x/nvx/keeper/staking.go:205-235 | for any accrual instants, rewards by time T are at most the exact linear amount and fall short by less than the paying accruals plus one |
| Staking.YieldExactly | x/nvx/keeper/staking.go:205-235 | for any accrual instants, in whole numbers: 100 (green: 105) per 1000 and year, short of it by less than the paying accruals plus one |
| Staking.YearlyYield | x/nvx/keeper/staking.go:205-235 | after one year at most a tenth of the stake, or 10.5% when green |
| Staking.GreenEarnsMore | x/nvx/keeper/staking.go:209-213 | a green position never earns less, and more once half a percent over the time is a whole unit |
| Staking.RewardsBelowStake | x/nvx/keeper/staking.go:205-235 | within nine years no position earns more than its stake, so the uint64 total cannot wrap in that time |
| Staking.CalculateRewards | x/nvx/keeper/staking.go:205-235 | pays 100 (green: 105) per 1000 and year rounded down, and moves LastReward to now exactly when something was paid |
| Staking.StakingKeeper.Stake | x/nvx/keeper/staking.go:104-155 | each outcome with its exact condition and effect, the panic after the debit included |
| Staking.StakeAcceptedExactly | x/nvx/keeper/staking.go:112-131 | a stake is accepted if and only if it is at least 100,000,000, covered, and the owner has ten bytes |
| Staking.StakingKeeper.Unstake | x/nvx/keeper/staking.go:162-198 | pays back the stake with all rewards once, or refuses without effect; balances stay int64 values and every owner keeps an account |
| Staking.StakingKeeper.PendingRewards | x/nvx/keeper/staking.go:308-328 | is exactly what accruing at the same instant adds |
| Staking.StakingKeeper.RewardLoop | x/nvx/keeper/staking.go:238-255 | accrues every active position and no other |
| Governance.RetractedTallied | x/nvx/keeper/governance.go:210-224 | taking back a ballot keeps the uint64 tallies equal to the ballot sums modulo 2^64 and each voter at most once |
| Governance.RetractionExact | x/nvx/keeper/governance.go:210-224 | while the tallies are exact, taking a ballot back subtracts no more than is there |
| Governance.VotedTallied | x/nvx/keeper/governance.go:209-243 | after a vote each voter counts once, the new ballot is there, and the four tallies are the ballot sums modulo 2^64 |
| Governance.VotedBallots | x/nvx/keeper/governance.go:209-235 | a vote leaves every other voter's ballot as it was, and exactly one of its own |
| Governance.VoteExactly | x/nvx/keeper/governance.go:209-243 | from exact tallies, a vote keeps them exact if and only if the total with the new ballot in place of the old stays below 2^64, and if and only if the voter's next vote can take it back without underflow |
| Governance.PassesExactly | x/nvx/keeper/governance.go:270-296 | on the wrapped tallies: passes if and only if they show at least 33% of the supply and more than half of that saying yes; expires if and only if they miss the quorum |
| Governance.RefundedMore | x/nvx/keeper/governance.go:259-268 | settling one more proposal, in any order, adds exactly its refund to its proposer |
| Governance.RefundFits | x/nvx/keeper/governance.go:284-290 | while balances and open deposits fit in int64 together, a refund is exact and keeps them so |
| Governance.TakeBack | x/nvx/keeper/governance.go:210-224 | the search loop removes exactly the voter's ballot; exact tallies stay exact, without underflow |
| Governance.Recount | x/nvx/keeper/governance.go:209-243 | both halves of Vote, with their wrap-around, give the modelled proposal |
| Governance.GovernanceKeeper.CreateProposal | x/nvx/keeper/governance.go:130-176 | with a deposit of at least 1,000,000,000 that is covered, debits it and opens a proposal for seven days; otherwise refuses without effect |
| Governance.GovernanceKeeper.Vote | x/nvx/keeper/governance.go:182-249 | each refusal with its condition; otherwise replaces or adds a ballot with the balance; exact tallies stay exact if and only if the vote fits |
| Governance.VoteAcceptedExactly | x/nvx/keeper/governance.go:190-207 | a vote counts if and only if the proposal is open, not over, and the voter has a balance, which is its power |
| Governance.CreateAcceptedExactly | x/nvx/keeper/governance.go:140-148 | a proposal is accepted if and only if its deposit is at least 1,000,000,000 and covered |
| Governance.GovernanceKeeper.FinalizeProposal | x/nvx/keeper/governance.go:270-296 | settles one proposal, refunds the deposit exactly if it passed, and leaves room for the other open deposits |
| Governance.GovernanceKeeper.ProcessLoop | x/nvx/keeper/governance.go:255-268 | settles exactly the proposals that are due, in any order; each account grows by the deposits of its proposals that passed and by nothing else; none is due afterwards |
| Economy.StepKeeps | x/nvx/keeper/staking.go:119-191 | from non-negative balances, each keeper call keeps them non-negative and every coin accounted for if and only if it is safe: a transfer fits, and the balance that a payout or a refund leads to is an int64 |
| Economy.StepModulo | x/nvx/keeper/staking.go:119-191 | whatever the amounts, each keeper call keeps the books modulo 2^64 |
| Economy.ConservedModulo | x/nvx/keeper/governance.go:140-295 | in every run with any int64 and uint64 inputs, all coins add up to genesis plus rewards modulo 2^64 |
| Economy.ExactWhileSafe | x/nvx/keeper/state.go:114-135 | a run keeps balances non-negative and accounts for every coin exactly, in all its states, if and only if each of its calls was safe when made |
| Economy.OrdinaryRunIsSafe | x/nvx/keeper/state.go:114-135 | while the genesis supply with the rewards fits in int64, all calls are safe whose transfers move non-negative amounts with an int64 sum |
| Economy.CoinsConserved | x/nvx/keeper/governance.go:140-295 | after safe calls, balances + active stakes + open and forfeited deposits + fees + lost stakes = genesis + rewards paid, and no balance is negative or beyond int64 |
| Economy.StakeLostExactly | x/nvx/keeper/staking.go:119-144 | balances and active stakes together change by a Stake call if and only if the owner is shorter than ten bytes and the checks pass, and then by the whole stake |
| Economy.ShortOwnerLoses | x/nvx/keeper/staking.go:119-131 | from any genesis that gives a short owner the minimum stake, one call loses it |
| Economy.NothingLost | x/nvx/keeper/staking.go:119-144 | in every run nothing is lost if and only if no Stake call passed its checks for an owner shorter than ten bytes |
| Economy.SettledForGood | x/nvx/keeper/governance.go:259-296 | a settled proposal never changes again and accounts never disappear |
| Economy.BallotsChangeExactly | x/nvx/keeper/governance.go:160-235 | the ballots of a proposal change only by a vote on it while it is open and within seven days of its making |
| Economy.ProposalsAreSound | x/nvx/keeper/governance.go:195-296 | in every reachable state, whatever the amounts: each voter once, uint64 tallies equal to the ballot sums modulo 2^64, every outcome met its condition on them, and the proposer's account exists |
| Economy.TalliesExactly | x/nvx/keeper/governance.go:195-243 | in every run, the tallies of a proposal are exactly its ballot sums in all states if and only if every vote on it fitted when cast |
| Economy.TallyWraps | x/nvx/keeper/governance.go:203-282 | a run in which a vote does not fit and a proposal for which everyone voted expires |
| Economy.StepHeldExactly | x/nvx/keeper/governance.go:203-228 | a safe call keeps every ballot of a proposal backed by its voter's balance if and only if what it takes from each voter leaves at least the ballot |
| Economy.HeldExactly | x/nvx/keeper/governance.go:203-228 | the same over runs: backed in all states if and only if every call left each voter its ballot |
| Economy.PowerWithinSupply | x/nvx/keeper/governance.go:203-228 | as long as no call leaves a voter of a proposal less than its ballot, its total power is at most what all accounts hold |
| Economy.CoinsVoteTwice | x/nvx/keeper/governance.go:203-228 | without that condition a run exists in which a proposal counts more power than was ever issued |
| Economy.SettlementMovesDeposit | x/nvx/keeper/governance.go:270-296 | settling moves the deposit once: back to the proposer, or to the forfeited deposits; the books stay exact if and only if the refunded balance is an int64 |
| Leader.PickSlot | x/nvx/keeper/consensus.go:57-67 | the search, with its int64 running sum and its fallback, finds the active owner of every slot when the powers fit, so the fallback is unreachable then |
| Leader.SelectLeader | x/nvx/keeper/consensus.go:35-68 | nil only without validators; when the powers fit, the first one without active power, else the active owner of the seeded slot |
| Leader.OwnerUnique | x/nvx/keeper/consensus.go:57-66 | a slot has one owner and it is active |
| Leader.EverySlotOwned | x/nvx/keeper/consensus.go:57-66 | every slot below the total has an owner |
| Leader.SearchExactly | x/nvx/keeper/consensus.go:57-67 | for non-negative powers, the search finds the owner of every slot below the total if and only if the total is an int64 |
| Leader.Proportional | x/nvx/keeper/consensus.go:46-66 | the number of slots that choose a validator is its voting power if it is active and 0 otherwise |
| Leader.ConsensusEngine.ProcessBlock | x/nvx/keeper/consensus.go:70-92 | exactly the entries with the leader's address earn what left the pool plus the green bonus; over all blocks, earnings are what was mined, bonuses within half a percent of it, and what repeated entries got, which grows if and only if something is paid to an address that occurs twice |
| Leader.Pay | x/nvx/keeper/consensus.go:88-92 | the crediting loop pays every entry with the leader's address, and no other |
| Leader.PaidOnly | x/nvx/keeper/consensus.go:88-92 | entry by entry, who earns and that nothing else changes |
| Leader.Bonus | x/nvx/keeper/consensus.go:82-86 | half a percent rounded down for a green leader, nothing for another |
| Leader.SurplusPositive | x/nvx/keeper/consensus.go:88-92 | more than one payment is made if and only if something is paid and the address is repeated |
| Leader.TwicePaid | x/nvx/keeper/consensus.go:88-92 | a list that names one validator twice pays it twice |
| Mining.AnyHeightsConsistent | x/nvx/keeper/mining.go:76-136 | for any heights in any order: mined <= pool, reward = 50,000,000 div 2^epoch, next halving = (epoch + 1) * 78,840,000 |
| Mining.PaysExactly | x/nvx/keeper/mining.go:76-116 | in any epoch a block pays 50,000,000 div 2^epoch or what is left of the pool |
| Mining.HalvesExactly | x/nvx/keeper/mining.go:123-136 | a call halves exactly when the height has reached the next multiple of 78,840,000 and fewer than ten halvings have happened |
| Mining.EmissionAnyHeights | x/nvx/keeper/mining.go:76-136 | for any heights in any order, across halvings: what was mined is the sum of the halved rewards, capped by the pool |
| Mining.CatchesUp | x/nvx/keeper/mining.go:123-136 | k calls at height h advance the epoch by k up to min(h / 78,840,000, 10), never past it; ten always suffice |
| Mining.EmissionExactly | x/nvx/keeper/mining.go:76-116 | fed 1, 2, 3, ..., exactly min(50,000,000 * n, 10^14) is mined after n blocks |
| Mining.MiningKeeper.CheckHalving | x/nvx/keeper/mining.go:123-146 | at most one halving per call, kept consistent |
| Mining.MiningKeeper.GetBlockReward | x/nvx/keeper/mining.go:76-92 | checks the halving and never offers more than remains |
| Mining.MiningKeeper.ProcessBlockReward | x/nvx/keeper/mining.go:95-116 | mines exactly the reward it returns |

## Left out

- Floating-point rounding: `dex.go`, the staking reward and the governance ratios are modelled over `real`.
- Go pointers handed out to callers (`CreatePool`, `AddBlock`, `Stake`, `SelectForBlock`): map entries and blocks are values here, so later writes through such a pointer are not captured.
- Balance check and debit of `Stake` and `CreateProposal` are two critical sections of the account map in the source and one step here; a transfer between them is not captured.
- `Bft.EveryBlockIsBacked`: says who voted, not for which block, because the vote handlers do not compare `BlockHash` (`HashIsIgnored`).
- 64-bit overflow of nonces, heights, trade counters and validator earnings, which are unbounded here; of accrued rewards after more than nine years (`RewardsBelowStake`); and the saturation of `time.Duration` at 292 years.
- Associativity of the elliptic-curve group law, primality of the two constants and the absence of points with y = 0 on secp256k1 are hypotheses.
- `generateDeterministicK`: an input with the range that its own check enforces.
- The stored chain and state files, JSON, printing and the panics of the log slices (`owner[:10]` in messages, `from[:16]`).
- `BroadcastBlock` after finalisation and the rest of `p2p.go`.
- The timeouts and `failedRounds` of `Run`.
- `ProcessBlock` also burns fees through `burn.go`, which is not part of this model.
- `evm.go`, `evm_v2.go`, `signature.go`, `state_leveldb.go`, `app/`, the wallets, the web pages and `ethereum/NuvexToken.sol`.
- Statistics getters and the printed halving schedule.
