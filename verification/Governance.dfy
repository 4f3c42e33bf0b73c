/** Proposals, votes and settlement of governance.go. The four tallies are uint64 values that wrap
    around; float64 ratios are modelled by real. */
module Governance {
  import opened Totals
  import opened Words
  import opened Ledger

  const MIN_DEPOSIT: int := 1_000_000_000
  const VOTING_PERIOD_NS: int := 7 * 24 * 3600 * 1_000_000_000
  const TOTAL_SUPPLY: int := 500_000_000_000_000

  datatype Status = Voting | Passed | Rejected | Expired

  /** VoteOption is a string; anything but the three known ones is Other. */
  datatype Choice = Yes | No | Abstain | Other

  datatype Ballot = Ballot(voter: string, choice: Choice, power: nat)

  datatype Proposal = Proposal(
    proposer: string, deposit: nat, status: Status, endTime: int, votes: seq<Ballot>,
    yesPower: nat, noPower: nat, abstainPower: nat, totalPower: nat)

  // ----- Tallies -----

  function Power(votes: seq<Ballot>): nat {
    if votes == [] then 0 else Power(votes[..|votes| - 1]) + votes[|votes| - 1].power
  }

  function PowerFor(votes: seq<Ballot>, c: Choice): nat {
    if votes == [] then 0
    else PowerFor(votes[..|votes| - 1], c) + ForChoice(votes[|votes| - 1], c)
  }

  ghost predicate OneVoteEach(votes: seq<Ballot>) {
    forall i, j :: 0 <= i < j < |votes| ==> votes[i].voter != votes[j].voter
  }

  /** Each voter appears once, and the four tallies are the sums over the ballots modulo 2^64. */
  ghost predicate Tallied(p: Proposal) {
    OneVoteEach(p.votes) && SumsModulo(p)
  }

  ghost predicate SumsModulo(p: Proposal) {
    && p.totalPower == U64(Power(p.votes))
    && p.yesPower == U64(PowerFor(p.votes, Yes))
    && p.noPower == U64(PowerFor(p.votes, No))
    && p.abstainPower == U64(PowerFor(p.votes, Abstain))
  }

  /** The four tallies are the sums over the ballots. */
  ghost predicate TallyExact(p: Proposal) {
    && p.totalPower == Power(p.votes)
    && p.yesPower == PowerFor(p.votes, Yes)
    && p.noPower == PowerFor(p.votes, No)
    && p.abstainPower == PowerFor(p.votes, Abstain)
  }

  /** They are exact as long as the ballots together stay below 2^64. */
  lemma ExactWhileSmall(p: Proposal)
    requires SumsModulo(p)
    ensures TallyExact(p) <==> Power(p.votes) < TWO_64
  {
    PowerNonNegative(p.votes, Yes);
    PowerNonNegative(p.votes, No);
    PowerNonNegative(p.votes, Abstain);
    U64AtMost(Power(p.votes));
  }

  function Without(votes: seq<Ballot>, i: nat): seq<Ballot>
    requires i < |votes|
  {
    votes[..i] + votes[i + 1..]
  }

  lemma {:induction false} PowerWithout(votes: seq<Ballot>, i: nat, c: Choice)
    requires i < |votes|
    ensures Power(Without(votes, i)) == Power(votes) - votes[i].power
    ensures PowerFor(Without(votes, i), c) == PowerFor(votes, c) - ForChoice(votes[i], c)
    decreases |votes|
  {
    var n := |votes| - 1;
    if i == n {
      assert Without(votes, i) == votes[..n];
    } else {
      PowerWithout(votes[..n], i, c);
      var w := Without(votes, i);
      assert w[..|w| - 1] == Without(votes[..n], i);
      assert w[|w| - 1] == votes[n];
    }
  }

  lemma PowerWith(votes: seq<Ballot>, b: Ballot, c: Choice)
    ensures Power(votes + [b]) == Power(votes) + b.power
    ensures PowerFor(votes + [b], c) == PowerFor(votes, c) + ForChoice(b, c)
  {
    assert (votes + [b])[..|votes|] == votes;
  }

  lemma {:induction false} PowerNonNegative(votes: seq<Ballot>, c: Choice)
    ensures 0 <= PowerFor(votes, c) <= Power(votes)
  {
    if votes != [] {
      PowerNonNegative(votes[..|votes| - 1], c);
    }
  }

  function ForChoice(b: Ballot, c: Choice): nat { if b.choice == c then b.power else 0 }

  /** One case of the two switches of Vote. */
  function Plus(tally: nat, b: Ballot, c: Choice): nat {
    if b.choice == c then U64(tally + b.power) else tally
  }

  function Minus(tally: nat, b: Ballot, c: Choice): nat {
    if b.choice == c then U64(tally - b.power) else tally
  }

  lemma SwitchModulo(sum: nat, b: Ballot, c: Choice)
    ensures Plus(U64(sum), b, c) == U64(sum + ForChoice(b, c))
    ensures Minus(U64(sum), b, c) == U64(sum - ForChoice(b, c))
  {
    U64Adds(sum, b.power);
    U64Adds(sum, -(b.power as int));
  }

  /** Subtracts a ballot from the tallies and splices it out. */
  function Retracted(p: Proposal, i: nat): Proposal
    requires i < |p.votes|
  {
    var v := p.votes[i];
    p.(votes := Without(p.votes, i), totalPower := U64(p.totalPower - v.power),
       yesPower := Minus(p.yesPower, v, Yes), noPower := Minus(p.noPower, v, No),
       abstainPower := Minus(p.abstainPower, v, Abstain))
  }

  function Counted(p: Proposal, b: Ballot): Proposal {
    p.(votes := p.votes + [b], totalPower := U64(p.totalPower + b.power),
       yesPower := Plus(p.yesPower, b, Yes), noPower := Plus(p.noPower, b, No),
       abstainPower := Plus(p.abstainPower, b, Abstain))
  }

  /** Index of the voter's ballot, or the number of ballots. */
  function BallotOf(votes: seq<Ballot>, voter: string): (i: nat)
    ensures i <= |votes|
    ensures i < |votes| ==> votes[i].voter == voter
    ensures forall j :: 0 <= j < i ==> votes[j].voter != voter
  {
    if votes == [] || votes[0].voter == voter then 0 else 1 + BallotOf(votes[1..], voter)
  }

  /** A vote replaces the voter's earlier one. */
  function Voted(p: Proposal, b: Ballot): Proposal {
    var i := BallotOf(p.votes, b.voter);
    Counted(if i < |p.votes| then Retracted(p, i) else p, b)
  }

  lemma RetractedTallied(p: Proposal, i: nat)
    requires Tallied(p) && i < |p.votes|
    ensures Tallied(Retracted(p, i))
    ensures Power(Retracted(p, i).votes) == Power(p.votes) - p.votes[i].power
    ensures forall j :: 0 <= j < |Retracted(p, i).votes| ==> Retracted(p, i).votes[j].voter != p.votes[i].voter
  {
    RetractedSums(p, i);
    StillOneEach(p.votes, i);
  }

  lemma RetractedSums(p: Proposal, i: nat)
    requires SumsModulo(p) && i < |p.votes|
    ensures SumsModulo(Retracted(p, i)) && Power(Retracted(p, i).votes) == Power(p.votes) - p.votes[i].power
  {
    MinusTotal(p.votes, p.totalPower, i);
    MinusTally(p.votes, p.yesPower, i, Yes);
    MinusTally(p.votes, p.noPower, i, No);
    MinusTally(p.votes, p.abstainPower, i, Abstain);
  }

  lemma MinusTotal(votes: seq<Ballot>, tally: nat, i: nat)
    requires i < |votes| && tally == U64(Power(votes))
    ensures Power(Without(votes, i)) == Power(votes) - votes[i].power
    ensures U64(tally - votes[i].power) == U64(Power(Without(votes, i)))
  {
    PowerWithout(votes, i, Yes);
    U64Adds(Power(votes), -(votes[i].power as int));
  }

  lemma MinusTally(votes: seq<Ballot>, tally: nat, i: nat, c: Choice)
    requires i < |votes| && tally == U64(PowerFor(votes, c))
    ensures Minus(tally, votes[i], c) == U64(PowerFor(Without(votes, i), c))
  {
    PowerWithout(votes, i, c);
    SwitchModulo(PowerFor(votes, c), votes[i], c);
  }

  lemma StillOneEach(votes: seq<Ballot>, i: nat)
    requires OneVoteEach(votes) && i < |votes|
    ensures OneVoteEach(Without(votes, i))
    ensures forall j :: 0 <= j < |Without(votes, i)| ==> Without(votes, i)[j].voter != votes[i].voter
  {
    var w := Without(votes, i);
    assert forall j :: 0 <= j < |w| ==> w[j] == votes[if j < i then j else j + 1];
  }

  /** While the tallies are exact, taking a ballot back subtracts no more than is there. */
  lemma RetractionExact(p: Proposal, i: nat)
    requires SumsModulo(p) && TallyExact(p) && i < |p.votes|
    ensures var v, q := p.votes[i], Retracted(p, i);
            && q.totalPower == p.totalPower - v.power
            && q.yesPower == p.yesPower - ForChoice(v, Yes)
            && q.noPower == p.noPower - ForChoice(v, No)
            && q.abstainPower == p.abstainPower - ForChoice(v, Abstain)
  {
    PowerWithout(p.votes, i, Yes);
    PowerWithout(p.votes, i, No);
    PowerWithout(p.votes, i, Abstain);
    PowerNonNegative(p.votes, Yes);
    PowerNonNegative(p.votes, No);
    PowerNonNegative(p.votes, Abstain);
  }

  lemma CountedTallied(p: Proposal, b: Ballot)
    requires Tallied(p) && forall j :: 0 <= j < |p.votes| ==> p.votes[j].voter != b.voter
    ensures Tallied(Counted(p, b)) && Power(Counted(p, b).votes) == Power(p.votes) + b.power
  {
    CountedSums(p, b);
    OneMoreEach(p.votes, b);
  }

  lemma OneMoreEach(votes: seq<Ballot>, b: Ballot)
    requires OneVoteEach(votes) && forall j :: 0 <= j < |votes| ==> votes[j].voter != b.voter
    ensures OneVoteEach(votes + [b])
  {
  }

  lemma PlusTotal(votes: seq<Ballot>, tally: nat, b: Ballot)
    requires tally == U64(Power(votes))
    ensures Power(votes + [b]) == Power(votes) + b.power && U64(tally + b.power) == U64(Power(votes + [b]))
  {
    PowerWith(votes, b, Yes);
    U64Adds(Power(votes), b.power);
  }

  lemma PlusTally(votes: seq<Ballot>, tally: nat, b: Ballot, c: Choice)
    requires tally == U64(PowerFor(votes, c))
    ensures Plus(tally, b, c) == U64(PowerFor(votes + [b], c))
  {
    PowerWith(votes, b, c);
    SwitchModulo(PowerFor(votes, c), b, c);
  }

  lemma CountedSums(p: Proposal, b: Ballot)
    requires SumsModulo(p)
    ensures SumsModulo(Counted(p, b)) && Power(Counted(p, b).votes) == Power(p.votes) + b.power
  {
    PlusTotal(p.votes, p.totalPower, b);
    PlusTally(p.votes, p.yesPower, b, Yes);
    PlusTally(p.votes, p.noPower, b, No);
    PlusTally(p.votes, p.abstainPower, b, Abstain);
  }

  /** The power of the ballot that a vote of this voter replaces. */
  function OwnPower(votes: seq<Ballot>, voter: string): nat {
    var i := BallotOf(votes, voter);
    if i < |votes| then votes[i].power else 0
  }

  /** Voting keeps every tally right modulo 2^64, whether or not it replaces a ballot, and
      afterwards the voter's ballot is the new one. */
  lemma VotedTallied(p: Proposal, b: Ballot)
    requires Tallied(p)
    ensures var q := Voted(p, b);
            && Tallied(q) && |q.votes| > 0 && q.votes[|q.votes| - 1] == b
            && Power(q.votes) == Power(p.votes) - OwnPower(p.votes, b.voter) + b.power
  {
    var i := BallotOf(p.votes, b.voter);
    if i < |p.votes| {
      RetractedTallied(p, i);
      CountedTallied(Retracted(p, i), b);
    } else {
      CountedTallied(p, b);
    }
  }

  /** A vote leaves every other voter's ballot as it was, and exactly one of its own. */
  lemma VotedBallots(p: Proposal, b: Ballot)
    requires OneVoteEach(p.votes)
    ensures forall c :: c in Voted(p, b).votes <==> c == b || (c in p.votes && c.voter != b.voter)
  {
    var i := BallotOf(p.votes, b.voter);
    var q := Voted(p, b);
    if i < |p.votes| {
      var w := Without(p.votes, i);
      assert q.votes == w + [b];
      forall c
        ensures c in w <==> c in p.votes && c.voter != b.voter
      {
        WithoutExactly(p.votes, i, c);
      }
    }
  }

  lemma WithoutExactly(votes: seq<Ballot>, i: nat, c: Ballot)
    requires OneVoteEach(votes) && i < |votes|
    ensures c in Without(votes, i) <==> c in votes && c.voter != votes[i].voter
  {
    var w := Without(votes, i);
    if c in w {
      var j :| 0 <= j < |w| && w[j] == c;
      assert w[j] == votes[if j < i then j else j + 1];
    }
    if c in votes && c.voter != votes[i].voter {
      var j :| 0 <= j < |votes| && votes[j] == c;
      assert w[if j < i then j else j - 1] == c;
    }
  }

  /** What a voter can check: the tally with its new ballot in place of the old one. */
  predicate VoteFits(p: Proposal, b: Ballot) {
    p.totalPower - OwnPower(p.votes, b.voter) + b.power < TWO_64
  }

  /** From exact tallies, a vote keeps the tallies exact if and only if it fits, and if and only if
      the voter's next vote could take this one back without going below zero. */
  lemma VoteExactly(p: Proposal, b: Ballot)
    requires Tallied(p) && TallyExact(p) && b.power < TWO_64
    ensures var q := Voted(p, b);
            && (TallyExact(q) <==> VoteFits(p, b))
            && (q.totalPower >= b.power <==> VoteFits(p, b))
  {
    var q := Voted(p, b);
    VotedTallied(p, b);
    ExactWhileSmall(p);
    ExactWhileSmall(q);
    OwnPowerBound(p.votes, b.voter);
    var sum := Power(q.votes);
    assert sum >= TWO_64 ==> U64(sum - TWO_64) == sum - TWO_64;
  }

  lemma OwnPowerBound(votes: seq<Ballot>, voter: string)
    ensures OwnPower(votes, voter) <= Power(votes)
  {
    var i := BallotOf(votes, voter);
    if i < |votes| {
      PowerWithout(votes, i, Yes);
    }
  }

  // ----- Settlement -----

  predicate QuorumReached(p: Proposal) {
    p.totalPower as real / TOTAL_SUPPLY as real >= 0.33
  }

  function Settled(p: Proposal): Proposal {
    if !QuorumReached(p) then p.(status := Expired)
    else
      QuorumIsPositive(p);
      if p.yesPower as real / p.totalPower as real > 0.50 then p.(status := Passed) else p.(status := Rejected)
  }

  /** The second division of finalizeProposal is never by zero. */
  lemma QuorumIsPositive(p: Proposal)
    requires QuorumReached(p)
    ensures p.totalPower > 0
  {
  }

  /** A proposal passes exactly when its tallies, wrapped as they may be, say that 33% of the supply
      voted and more than half of it said yes. */
  lemma PassesExactly(p: Proposal)
    ensures Settled(p).status == Passed
       <==> 100 * p.totalPower >= 33 * 500_000_000_000_000 && 2 * p.yesPower > p.totalPower
    ensures Settled(p).status == Expired <==> 100 * p.totalPower < 33 * 500_000_000_000_000
    ensures Settled(p) == p.(status := Settled(p).status)
    ensures Settled(p).status != Voting
  {
    if QuorumReached(p) {
      QuorumIsPositive(p);
      Ratio(p.yesPower, p.totalPower);
    }
  }

  lemma Ratio(a: int, b: int)
    requires b > 0
    ensures a as real / b as real > 0.50 <==> 2 * a > b
  {
    HalfOf(a as real / b as real, a as real, b as real);
  }

  lemma HalfOf(x: real, a: real, b: real)
    requires b > 0.0 && x * b == a
    ensures x > 0.50 <==> 2.0 * a > b
  {
    if x > 0.50 {
      Positive(x - 0.50, b);
    } else if x < 0.50 {
      Positive(0.50 - x, b);
    }
  }

  lemma Positive(x: real, y: real)
    requires x > 0.0 && y > 0.0
    ensures x * y > 0.0
  {
  }

  predicate Due(p: Proposal, now: int) {
    p.status == Voting && now > p.endTime
  }

  /** What every proposal in the map satisfies. */
  ghost predicate SoundProposal(p: Proposal) {
    && Tallied(p)
    && (p.status != Voting ==> p == Settled(p))
  }

  lemma VotedSound(p: Proposal, b: Ballot)
    requires SoundProposal(p) && p.status == Voting
    ensures SoundProposal(Voted(p, b))
  {
    VotedTallied(p, b);
  }

  function AfterPass(p: Proposal, now: int): Proposal {
    if Due(p, now) then Settled(p) else p
  }

  /** A pass over the proposals has settled those that were due, except that it has yet to look at todo. */
  ghost predicate PassedOver(before: map<nat, Proposal>, after: map<nat, Proposal>, todo: set<nat>, now: int) {
    && after.Keys == before.Keys
    && forall id :: id in before ==> after[id] == if id in todo then before[id] else AfterPass(before[id], now)
  }

  lemma NoneDue(before: map<nat, Proposal>, after: map<nat, Proposal>, now: int)
    requires PassedOver(before, after, {}, now)
    ensures forall id :: id in after ==> !Due(after[id], now)
  {
    forall id | id in after
      ensures !Due(after[id], now)
    {
      SettledTwice(before[id]);
    }
  }

  // ----- Deposits -----

  function OpenDeposit(p: Proposal): int { if p.status == Voting then p.deposit else 0 }

  function Forfeited(p: Proposal): int { if p.status == Rejected || p.status == Expired then p.deposit else 0 }

  /** The accounts after a settlement: a passed proposal pays its deposit back. */
  function Refund(accounts: map<string, Account>, p: Proposal): map<string, Account> {
    if p.status == Passed && p.proposer in accounts then Credited(accounts, p.proposer, p.deposit) else accounts
  }

  /** What a pass at time now pays back to x for one proposal. */
  function RefundOf(p: Proposal, now: int, x: string): int {
    if Due(p, now) && Settled(p).status == Passed && p.proposer == x then p.deposit else 0
  }

  function RefundTo(now: int, x: string): Proposal -> int {
    p => RefundOf(p, now, x)
  }

  /** Each account grew by all the deposits that a pass over the proposals pays back to it. */
  ghost predicate Refunded(before: map<string, Account>, after: map<string, Account>,
                           proposals: map<nat, Proposal>, now: int) {
    && after.Keys == before.Keys
    && forall x :: x in before ==> after[x] == Grown(before[x], Total(proposals, RefundTo(now, x)))
  }

  function Grown(a: Account, x: int): Account { a.(balance := I64(a.balance + x)) }

  lemma GrownTwice(a: Account, x: int, y: int)
    ensures Grown(Grown(a, x), y) == Grown(a, x + y)
  {
    I64Adds(a.balance + x, y);
  }

  /** Processing one more proposal, in any order. */
  lemma RefundedMore(before: map<string, Account>, mid: map<string, Account>, done: map<nat, Proposal>,
                     id: nat, p: Proposal, now: int)
    requires Typed(before) && Refunded(before, mid, done, now) && id !in done
    ensures Refunded(before, if Due(p, now) then Refund(mid, Settled(p)) else mid, done[id := p], now)
  {
    var after := if Due(p, now) then Refund(mid, Settled(p)) else mid;
    forall x | x in before
      ensures after[x] == Grown(before[x], Total(done[id := p], RefundTo(now, x)))
    {
      RefundedMoreTo(mid, p, now, x);
      TotalUpdate(done, RefundTo(now, x), id, p);
      GrownTwice(before[x], Total(done, RefundTo(now, x)), RefundOf(p, now, x));
    }
  }

  lemma RefundedMoreTo(mid: map<string, Account>, p: Proposal, now: int, x: string)
    requires x in mid && IsInt64(mid[x].balance)
    ensures var after := if Due(p, now) then Refund(mid, Settled(p)) else mid;
            after.Keys == mid.Keys && after[x] == Grown(mid[x], RefundOf(p, now, x))
  {
  }

  /** The proposals a pass has looked at. */
  ghost function Seen(proposals: map<nat, Proposal>, todo: set<nat>): map<nat, Proposal> {
    map id | id in proposals && id !in todo :: proposals[id]
  }

  lemma SeenMore(proposals: map<nat, Proposal>, todo: set<nat>, id: nat)
    requires id in proposals && id in todo
    ensures id !in Seen(proposals, todo)
    ensures Seen(proposals, todo - {id}) == Seen(proposals, todo)[id := proposals[id]]
  {
  }

  lemma SeenAll(proposals: map<nat, Proposal>)
    ensures Seen(proposals, {}) == proposals && Seen(proposals, proposals.Keys) == map[]
  {
  }

  /** The accounts hold int64 balances that leave room for every open deposit to come back. */
  ghost predicate Reserved(accounts: map<string, Account>, proposals: map<nat, Proposal>) {
    Sane(accounts) && Total(accounts, BalanceOf) + Total(proposals, OpenDeposit) <= MAX_INT64
  }

  lemma OpenDepositBound(proposals: map<nat, Proposal>, id: nat)
    requires id in proposals
    ensures 0 <= OpenDeposit(proposals[id]) <= Total(proposals, OpenDeposit)
  {
    TotalBounds(proposals, OpenDeposit);
  }

  /** A settlement takes its deposit out of the open ones, so the refund always fits. */
  lemma RefundFits(accounts: map<string, Account>, proposals: map<nat, Proposal>, id: nat)
    requires Reserved(accounts, proposals) && id in proposals && proposals[id].status == Voting
    ensures Reserved(Refund(accounts, Settled(proposals[id])), proposals[id := Settled(proposals[id])])
  {
    var p := proposals[id];
    TotalUpdate(proposals, OpenDeposit, id, Settled(p));
    OpenDepositBound(proposals, id);
    SaneIsInRange(accounts);
    if Settled(p).status == Passed && p.proposer in accounts {
      BalanceBound(accounts, p.proposer);
      CreditedExactly(accounts, p.proposer, p.deposit);
    }
  }

  /** Where a pass stands: what it has looked at is settled and refunded. */
  ghost predicate MidPass(before: map<nat, Proposal>, proposals: map<nat, Proposal>,
                          opening: map<string, Account>, accounts: map<string, Account>, todo: set<nat>, now: int) {
    && PassedOver(before, proposals, todo, now) && Refunded(opening, accounts, Seen(before, todo), now)
    && (Reserved(opening, before) ==> Reserved(accounts, proposals))
  }

  lemma PassBegins(before: map<nat, Proposal>, opening: map<string, Account>, now: int)
    requires Typed(opening)
    ensures MidPass(before, before, opening, opening, before.Keys, now)
  {
    SeenAll(before);
  }

  lemma PassAdvances(before: map<nat, Proposal>, proposals: map<nat, Proposal>,
                     opening: map<string, Account>, accounts: map<string, Account>, todo: set<nat>, id: nat, now: int)
    requires Typed(opening) && MidPass(before, proposals, opening, accounts, todo, now) && id in todo && id in before
    ensures var next := AfterPass(proposals[id], now);
            MidPass(before, proposals[id := next],
                    opening, if Due(proposals[id], now) then Refund(accounts, next) else accounts, todo - {id}, now)
  {
    SeenMore(before, todo, id);
    RefundedMore(opening, accounts, Seen(before, todo), id, before[id], now);
    StaysReserved(accounts, proposals, id, now);
    PassedOne(before, proposals, todo, id, now);
  }

  lemma StaysReserved(accounts: map<string, Account>, proposals: map<nat, Proposal>, id: nat, now: int)
    requires id in proposals
    ensures var next := AfterPass(proposals[id], now);
            Reserved(accounts, proposals) ==>
              Reserved(if Due(proposals[id], now) then Refund(accounts, next) else accounts, proposals[id := next])
  {
    if !Due(proposals[id], now) {
      assert proposals[id := proposals[id]] == proposals;
    } else if Reserved(accounts, proposals) {
      RefundFits(accounts, proposals, id);
    }
  }

  lemma PassedOne(before: map<nat, Proposal>, proposals: map<nat, Proposal>, todo: set<nat>, id: nat, now: int)
    requires PassedOver(before, proposals, todo, now) && id in todo && id in before
    ensures proposals[id] == before[id]
    ensures PassedOver(before, proposals[id := AfterPass(proposals[id], now)], todo - {id}, now)
  {
  }

  lemma SettledExactly(before: map<nat, Proposal>, after: map<nat, Proposal>, now: int)
    requires PassedOver(before, after, {}, now)
    ensures forall id :: id in after ==>
              (after[id].status != before[id].status <==> before[id].status == Voting && now > before[id].endTime)
  {
    forall id | id in after
      ensures after[id].status != before[id].status <==> before[id].status == Voting && now > before[id].endTime
    {
      assert after[id] == AfterPass(before[id], now);
    }
  }

  lemma PassEnds(before: map<nat, Proposal>, proposals: map<nat, Proposal>,
                 opening: map<string, Account>, accounts: map<string, Account>, now: int)
    requires MidPass(before, proposals, opening, accounts, {}, now)
    ensures PassedOver(before, proposals, {}, now) && Refunded(opening, accounts, before, now)
    ensures forall id :: id in proposals ==> !Due(proposals[id], now)
    ensures Reserved(opening, before) ==> Reserved(accounts, proposals)
  {
    SeenAll(before);
    NoneDue(before, proposals, now);
  }

  // ----- The keeper -----

  datatype CreateResult = Created(id: nat) | DepositTooSmall | NotEnoughBalance

  function CreateOutcome(accounts: map<string, Account>, nextId: nat, proposer: string, deposit: nat): CreateResult {
    if deposit < MIN_DEPOSIT then DepositTooSmall
    else if U64(GetBalance(accounts, proposer)) < deposit then NotEnoughBalance
    else Created(nextId)
  }

  datatype VoteResult = Accepted(ballot: Ballot) | ProposalNotFound | NotOpen | PeriodOver | NoPower

  function VoteOutcome(accounts: map<string, Account>, proposals: map<nat, Proposal>, id: nat, voter: string,
                       choice: Choice, now: int): VoteResult
  {
    if id !in proposals then ProposalNotFound
    else if proposals[id].status != Voting then NotOpen
    else if now > proposals[id].endTime then PeriodOver
    else if U64(GetBalance(accounts, voter)) == 0 then NoPower
    else Accepted(Ballot(voter, choice, U64(GetBalance(accounts, voter))))
  }

  /** Which votes count: an existing open proposal, until seven days after it was made, and some
      balance; the ballot carries the balance. */
  lemma VoteAcceptedExactly(accounts: map<string, Account>, proposals: map<nat, Proposal>, id: nat, voter: string,
                            choice: Choice, now: int)
    requires InRange(accounts)
    ensures var r := VoteOutcome(accounts, proposals, id, voter, choice, now);
            && (r.Accepted? <==> && id in proposals && proposals[id].status == Voting && now <= proposals[id].endTime
                                 && GetBalance(accounts, voter) > 0)
            && (r.Accepted? ==> r.ballot == Ballot(voter, choice, GetBalance(accounts, voter)))
  {
  }

  /** Which proposals are accepted, on non-negative balances. */
  lemma CreateAcceptedExactly(accounts: map<string, Account>, nextId: nat, proposer: string, deposit: nat)
    requires InRange(accounts)
    ensures CreateOutcome(accounts, nextId, proposer, deposit).Created?
       <==> 1_000_000_000 <= deposit <= GetBalance(accounts, proposer)
  {
  }

  function NewProposal(proposer: string, deposit: nat, now: int): Proposal {
    Proposal(proposer, deposit, Voting, now + VOTING_PERIOD_NS, [], 0, 0, 0, 0)
  }

  ghost predicate SoundAt(proposals: map<nat, Proposal>, nextId: nat, id: nat) {
    id in proposals ==> id < nextId && SoundProposal(proposals[id])
  }

  ghost predicate AllSound(proposals: map<nat, Proposal>, nextId: nat) {
    forall id :: SoundAt(proposals, nextId, id)
  }

  lemma SoundUpdate(proposals: map<nat, Proposal>, nextId: nat, id: nat, p: Proposal, next: nat)
    requires AllSound(proposals, nextId) && id < next && nextId <= next && SoundProposal(p)
    ensures AllSound(proposals[id := p], next)
  {
    var more := proposals[id := p];
    forall k: nat
      ensures SoundAt(more, next, k)
    {
      assert SoundAt(proposals, nextId, k);
    }
  }

  class GovernanceKeeper {
    const state: StateKeeper
    var proposals: map<nat, Proposal>
    var nextId: nat

    ghost predicate Valid()
      reads this, state
    {
      state.Valid() && AllSound(proposals, nextId)
    }

    constructor (state: StateKeeper)
      requires state.Valid()
      ensures Valid() && this.state == state && proposals == map[] && nextId == 1
    {
      this.state := state;
      proposals := map[];
      nextId := 1;
    }

    method CreateProposal(proposer: string, deposit: nat, now: int) returns (r: CreateResult)
      requires Valid()
      modifies this, state
      ensures Valid() && r == CreateOutcome(old(state.accounts), old(nextId), proposer, deposit)
      ensures r.DepositTooSmall? <==> deposit < 1_000_000_000
      ensures r.Created? <==> 1_000_000_000 <= deposit <= U64(GetBalance(old(state.accounts), proposer))
      ensures r.Created? ==>
                && r.id == old(nextId) && r.id in proposals
                && var p := proposals[r.id];
                   && p.proposer == proposer && p.deposit == deposit && p.status == Voting && p.votes == []
                   && p.endTime == now + 604_800_000_000_000 && p.totalPower == 0
                   && p.yesPower == p.noPower == p.abstainPower == 0
      ensures r.Created? ==> && proposer in old(state.accounts)
                             && state.accounts == Debited(old(state.accounts), proposer, deposit)
                             && old(nextId) !in old(proposals)
                             && proposals == old(proposals)[old(nextId) := NewProposal(proposer, deposit, now)]
                             && nextId == old(nextId) + 1
      ensures !r.Created? ==>
                state.accounts == old(state.accounts) && proposals == old(proposals) && nextId == old(nextId)
    {
      if deposit < MIN_DEPOSIT {
        return DepositTooSmall;
      }
      var balance := U64(GetBalance(state.accounts, proposer));
      if balance < deposit {
        return NotEnoughBalance;
      }
      if proposer in state.accounts {
        state.accounts := Debited(state.accounts, proposer, deposit);
      }
      r := Created(nextId);
      assert SoundAt(proposals, nextId, nextId);
      SoundUpdate(proposals, nextId, nextId, NewProposal(proposer, deposit, now), nextId + 1);
      proposals := proposals[nextId := Proposal(proposer, deposit, Voting, now + VOTING_PERIOD_NS, [], 0, 0, 0, 0)];
      nextId := nextId + 1;
    }

    /** Replaces the voter's ballot. The tallies stay the ballot sums modulo 2^64, and stay exact
        if and only if the vote fits. */
    method Vote(id: nat, voter: string, choice: Choice, now: int) returns (r: VoteResult)
      requires Valid()
      modifies this
      ensures Valid() && nextId == old(nextId)
      ensures r == VoteOutcome(state.accounts, old(proposals), id, voter, choice, now)
      ensures r.ProposalNotFound? <==> id !in old(proposals)
      ensures r.NotOpen? <==> id in old(proposals) && old(proposals)[id].status != Voting
      ensures r.PeriodOver? <==> id in old(proposals) && old(proposals)[id].status == Voting
                                 && now > old(proposals)[id].endTime
      ensures r.Accepted? <==> && id in old(proposals) && old(proposals)[id].status == Voting
                               && now <= old(proposals)[id].endTime && U64(GetBalance(state.accounts, voter)) > 0
      ensures r.Accepted? ==> r.ballot == Ballot(voter, choice, U64(GetBalance(state.accounts, voter)))
      ensures proposals == if r.Accepted? then old(proposals)[id := Voted(old(proposals)[id], r.ballot)]
                           else old(proposals)
      ensures r.Accepted? && TallyExact(old(proposals)[id]) ==>
                (TallyExact(proposals[id]) <==> VoteFits(old(proposals)[id], r.ballot))
    {
      r := CheckVote(id, voter, choice, now);
      if r.Accepted? {
        assert SoundAt(proposals, nextId, id);
        VotedSound(proposals[id], r.ballot);
        SoundUpdate(proposals, nextId, id, Voted(proposals[id], r.ballot), nextId);
        if TallyExact(proposals[id]) {
          VoteExactly(proposals[id], r.ballot);
        }
        var p := Recount(proposals[id], r.ballot);
        proposals := proposals[id := p];
      }
    }

    /** The checks of Vote, in the order of the source. */
    method CheckVote(id: nat, voter: string, choice: Choice, now: int) returns (r: VoteResult)
      requires Valid()
      ensures r == VoteOutcome(state.accounts, proposals, id, voter, choice, now)
    {
      if id !in proposals {
        return ProposalNotFound;
      }
      if proposals[id].status != Voting {
        return NotOpen;
      }
      if now > proposals[id].endTime {
        return PeriodOver;
      }
      var power := U64(GetBalance(state.accounts, voter));
      if power == 0 {
        return NoPower;
      }
      return Accepted(Ballot(voter, choice, power));
    }

    /** The body of processLoop: every proposal whose time is over is settled, once, and each
        account grows by the deposits of its proposals that passed. */
    method ProcessLoop(now: int)
      requires Valid()
      modifies this, state
      ensures Valid() && nextId == old(nextId)
      ensures PassedOver(old(proposals), proposals, {}, now)
      ensures forall id :: id in proposals ==>
                (proposals[id].status != old(proposals)[id].status
                 <==> old(proposals)[id].status == Voting && now > old(proposals)[id].endTime)
      ensures forall id :: id in proposals ==> !Due(proposals[id], now)
      ensures Refunded(old(state.accounts), state.accounts, old(proposals), now)
      ensures old(Reserved(state.accounts, proposals)) ==> Reserved(state.accounts, proposals)
    {
      ghost var before, accounts := proposals, state.accounts;
      var todo := proposals.Keys;
      PassBegins(before, accounts, now);
      while todo != {}
        invariant Valid() && nextId == old(nextId) && todo <= before.Keys
        invariant MidPass(before, proposals, accounts, state.accounts, todo, now)
        decreases |todo|
      {
        var id :| id in todo;
        PassAdvances(before, proposals, accounts, state.accounts, todo, id, now);
        Visit(id, now);
        todo := todo - {id};
      }
      PassEnds(before, proposals, accounts, state.accounts, now);
      SettledExactly(before, proposals, now);
    }

    /** One iteration of processLoop. */
    method Visit(id: nat, now: int)
      requires Valid() && id in proposals
      modifies this`proposals, state
      ensures Valid() && proposals == old(proposals)[id := AfterPass(old(proposals)[id], now)]
      ensures state.accounts == if Due(old(proposals)[id], now) then Refund(old(state.accounts), proposals[id])
                                else old(state.accounts)
    {
      if proposals[id].status == Voting && now > proposals[id].endTime {
        FinalizeProposal(id);
      }
    }

    /** Settles one proposal and pays the deposit back if it passed. */
    method FinalizeProposal(id: nat)
      requires Valid() && id in proposals && proposals[id].status == Voting
      modifies this`proposals, state
      ensures Valid() && proposals == old(proposals)[id := Settled(old(proposals)[id])]
      ensures state.accounts == Refund(old(state.accounts), proposals[id])
      ensures old(Reserved(state.accounts, proposals)) ==> Reserved(state.accounts, proposals)
    {
      var p := Decide(proposals[id]);
      assert SoundAt(proposals, nextId, id);
      SettledTwice(proposals[id]);
      SoundUpdate(proposals, nextId, id, p, nextId);
      if Reserved(state.accounts, proposals) {
        RefundFits(state.accounts, proposals, id);
      }
      proposals := proposals[id := p];
      if p.status == Passed && p.proposer in state.accounts {
        state.accounts := Credited(state.accounts, p.proposer, p.deposit);
      }
    }
  }

  /** The two ratios of finalizeProposal and the status they give, in whole numbers. */
  method Decide(p: Proposal) returns (q: Proposal)
    ensures q == Settled(p)
    ensures q == p.(status := q.status) && q.status != Voting
    ensures q.status == Passed <==> 100 * p.totalPower >= 33 * 500_000_000_000_000 && 2 * p.yesPower > p.totalPower
    ensures q.status == Expired <==> 100 * p.totalPower < 33 * 500_000_000_000_000
  {
    PassesExactly(p);
    var quorumReached := p.totalPower as real / TOTAL_SUPPLY as real >= 0.33;
    if !quorumReached {
      return p.(status := Expired);
    }
    QuorumIsPositive(p);
    var yesRatio := p.yesPower as real / p.totalPower as real;
    q := p.(status := if yesRatio > 0.50 then Passed else Rejected);
  }

  lemma SettledTwice(p: Proposal)
    ensures Settled(Settled(p)) == Settled(p)
    ensures Tallied(p) ==> Tallied(Settled(p))
  {
  }

  /** Both halves of Vote on one proposal. */
  method Recount(p: Proposal, ballot: Ballot) returns (q: Proposal)
    requires Tallied(p)
    ensures q == Voted(p, ballot)
  {
    q := TakeBack(p, ballot.voter);
    q := CountBallot(q, ballot);
  }

  /** The appending half of Vote. */
  method CountBallot(p: Proposal, ballot: Ballot) returns (q: Proposal)
    ensures q == Counted(p, ballot)
  {
    q := p.(votes := p.votes + [ballot], totalPower := U64(p.totalPower + ballot.power));
    match ballot.choice {
      case Yes => q := q.(yesPower := U64(q.yesPower + ballot.power));
      case No => q := q.(noPower := U64(q.noPower + ballot.power));
      case Abstain => q := q.(abstainPower := U64(q.abstainPower + ballot.power));
      case Other =>
    }
  }

  /** Undoes one ballot, tally by tally. */
  method Retract(p: Proposal, i: nat) returns (q: Proposal)
    requires i < |p.votes|
    ensures q == Retracted(p, i)
  {
    var v := p.votes[i];
    q := p;
    match v.choice {
      case Yes => q := q.(yesPower := U64(q.yesPower - v.power));
      case No => q := q.(noPower := U64(q.noPower - v.power));
      case Abstain => q := q.(abstainPower := U64(q.abstainPower - v.power));
      case Other =>
    }
    q := q.(totalPower := U64(q.totalPower - v.power));
    q := q.(votes := q.votes[..i] + q.votes[i + 1..]);
  }

  /** The search loop of Vote that removes an earlier ballot of the same voter. */
  method TakeBack(p: Proposal, voter: string) returns (q: Proposal)
    requires Tallied(p)
    ensures var i := BallotOf(p.votes, voter);
            q == if i < |p.votes| then Retracted(p, i) else p
    ensures TallyExact(p) ==> TallyExact(q) && q.totalPower == p.totalPower - OwnPower(p.votes, voter)
  {
    q := p;
    var i := 0;
    while i < |p.votes|
      invariant 0 <= i <= |p.votes| && i <= BallotOf(p.votes, voter)
      invariant q == p
      decreases |p.votes| - i
    {
      var v := p.votes[i];
      if v.voter == voter {
        RetractedTallied(p, i);
        ExactWhileSmall(p);
        ExactWhileSmall(Retracted(p, i));
        q := Retract(p, i);
        return;
      }
      i := i + 1;
    }
  }
}
