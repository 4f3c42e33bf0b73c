/** The voting rounds of consensus_bft.go as a state machine over its locked sections.
    Votes come from any address, in any order; goroutines that are started and have not run
    yet are counted. */
module Bft {
  import opened NumberTheory

  datatype Phase = NewRound | Propose | Prepare | Commit | Finalized

  datatype Vote = Vote(validator: string, blockHash: string, height: int, round: int)

  /** The part of a proposed Block that finalizeBlock hands to AddBlock, and its own hash. */
  datatype Proposal = Proposal(
    height: int, hash: string, validator: string, transactions: seq<string>,
    totalFees: int, burnedAmount: int, miningReward: int)

  datatype Round = Round(
    height: int, round: int, phase: Phase, leader: string, proposed: Option<Proposal>,
    prepareVotes: map<string, Vote>, commitVotes: map<string, Vote>)

  /** spawned counts the submitCommitVote goroutines that have been started and not run. */
  datatype State = State(validators: seq<string>, quorum: int, current: Option<Round>, totalBlocks: nat, spawned: nat)

  function Quorum(n: nat): int { 2 * n / 3 + 1 }

  function Initial(validators: seq<string>): State {
    State(validators, Quorum(|validators|), None, 0, 0)
  }

  // ----- One locked section each -----

  function StartRound(s: State, height: int, round: int, leader: string): State {
    s.(current := Some(Round(height, round, NewRound, leader, None, map[], map[])))
  }

  function ProposeBlock(s: State, p: Proposal): State {
    if s.current.None? then s
    else s.(current := Some(s.current.value.(proposed := Some(p), phase := Propose)))
  }

  /** The vote overwrites the phase whatever it was; a quorum then moves it on to Commit. */
  function ReceivePrepareVote(s: State, v: Vote): State {
    if s.current.None? || v.height != s.current.value.height then s
    else
      var votes := s.current.value.prepareVotes[v.validator := v];
      var r := s.current.value.(prepareVotes := votes);
      if |votes| >= s.quorum then s.(current := Some(r.(phase := Commit)), spawned := s.spawned + 1)
      else s.(current := Some(r.(phase := Prepare)))
  }

  /** The read-locked half of submitCommitVote. */
  function BuildCommitVote(s: State, node: string): Option<Vote> {
    if s.current.None? || s.current.value.proposed.None? then None
    else
      var r := s.current.value;
      Some(Vote(node, r.proposed.value.hash, r.height, r.round))
  }

  /** The round with the vote recorded, when the vote is for the current height. */
  function WithCommitVote(s: State, v: Vote): Option<Round> {
    if s.current.None? || v.height != s.current.value.height then None
    else Some(s.current.value.(commitVotes := s.current.value.commitVotes[v.validator := v]))
  }

  /** Whether the vote makes finalizeBlock append a block, and which. */
  function Finalizes(s: State, v: Vote): Option<Proposal> {
    match WithCommitVote(s, v)
    case None => None
    case Some(r) =>
      if |r.commitVotes| >= s.quorum && r.phase == Commit then r.proposed else None
  }

  function ReceiveCommitVote(s: State, v: Vote): State {
    match WithCommitVote(s, v)
    case None => s
    case Some(r) =>
      if Finalizes(s, v).Some? then
        s.(current := Some(r.(phase := Finalized)), totalBlocks := s.totalBlocks + 1)
      else s.(current := Some(r))
  }

  function AddValidator(s: State, v: string): State {
    var validators := s.validators + [v];
    s.(validators := validators, quorum := Quorum(|validators|))
  }

  /** Neither handler looks at the block hash or the round of a vote: a vote for any other block of
      the same height counts the same. */
  lemma HashIsIgnored(s: State, v: Vote, hash: string, round: int)
    ensures var u := v.(blockHash := hash, round := round);
            && Finalizes(s, u) == Finalizes(s, v)
            && var a, b := ReceivePrepareVote(s, u), ReceivePrepareVote(s, v);
               && a.spawned == b.spawned && a.current.Some? == b.current.Some?
               && (a.current.Some? ==> a.current.value.phase == b.current.value.phase)
  {
    if s.current.Some? {
      var u, r := v.(blockHash := hash, round := round), s.current.value;
      assert r.commitVotes[v.validator := u].Keys == r.commitVotes[v.validator := v].Keys;
      assert r.prepareVotes[v.validator := u].Keys == r.prepareVotes[v.validator := v].Keys;
    }
  }

  // ----- What a quorum is -----

  /** The least number of voters that is more than two thirds of n; all but a third of n validators
      are just enough. */
  lemma QuorumExactly(n: nat)
    ensures 3 * Quorum(n) > 2 * n >= 3 * (Quorum(n) - 1)
    ensures n > 0 ==> Quorum(n) == n - (n - 1) / 3
  {
  }

  lemma MoreThanTwoThirds(votes: nat, n: nat)
    ensures votes >= Quorum(n) <==> 3 * votes > 2 * n
  {
  }

  /** What a prepare vote does, in every phase: other heights are ignored; otherwise the voter's vote
      is recorded, and the round is in Commit, with one more goroutine, exactly when more than two
      thirds of the validators have voted, and in Prepare if not. */
  lemma PrepareExactly(s: State, v: Vote)
    requires s.quorum == Quorum(|s.validators|)
    ensures var t := ReceivePrepareVote(s, v);
            if s.current.None? || v.height != s.current.value.height then t == s
            else
              var r := s.current.value;
              var votes := r.prepareVotes[v.validator := v];
              var enough := 3 * |votes| > 2 * |s.validators|;
              && t.current == Some(r.(prepareVotes := votes, phase := if enough then Commit else Prepare))
              && t == s.(current := t.current, spawned := s.spawned + if enough then 1 else 0)
  {
    if s.current.Some? {
      MoreThanTwoThirds(|s.current.value.prepareVotes[v.validator := v]|, |s.validators|);
    }
  }

  /** What a commit vote does: other heights are ignored; otherwise it is recorded, and the proposal
      is finalised exactly in Commit with more than two thirds of the validators. */
  lemma CommitExactly(s: State, v: Vote)
    requires s.quorum == Quorum(|s.validators|)
    ensures var t := ReceiveCommitVote(s, v);
            if s.current.None? || v.height != s.current.value.height then t == s && Finalizes(s, v) == None
            else
              var r := s.current.value;
              var votes := r.commitVotes[v.validator := v];
              var done := 3 * |votes| > 2 * |s.validators| && r.phase == Commit && r.proposed.Some?;
              && t.current == Some(r.(commitVotes := votes, phase := if done then Finalized else r.phase))
              && t == s.(current := t.current, totalBlocks := s.totalBlocks + if done then 1 else 0)
              && Finalizes(s, v) == if done then r.proposed else None
  {
    if s.current.Some? {
      MoreThanTwoThirds(|s.current.value.commitVotes[v.validator := v]|, |s.validators|);
    }
  }

  // ----- Runs under arbitrary votes -----

  datatype Input =
    | Start(height: int, round: int, leader: string)
    | Proposes(p: Proposal)
    | PrepareVote(v: Vote)
    | RunGoroutine
    | CommitVote(v: Vote)
    | NewValidator(addr: string)

  function Step(s: State, i: Input): State {
    match i
    case Start(height, round, leader) => StartRound(s, height, round, leader)
    case Proposes(p) => ProposeBlock(s, p)
    case PrepareVote(v) => ReceivePrepareVote(s, v)
    case RunGoroutine => if s.spawned > 0 then s.(spawned := s.spawned - 1) else s
    case CommitVote(v) => ReceiveCommitVote(s, v)
    case NewValidator(addr) => AddValidator(s, addr)
  }

  /** What an observer of the node records. The voter sets are those held at the instant. */
  datatype Event =
    | RoundStarted(height: int)
    | PrepareQuorum(voters: set<string>, quorum: int)
    | BlockAdded(block: Proposal, voters: set<string>, quorum: int)

  function Observed(s: State, i: Input): seq<Event> {
    match i
    case Start(height, _, _) => [RoundStarted(height)]
    case PrepareVote(v) =>
      if s.current.Some? && v.height == s.current.value.height
         && |s.current.value.prepareVotes[v.validator := v]| >= s.quorum
      then [PrepareQuorum(s.current.value.prepareVotes.Keys + {v.validator}, s.quorum)] else []
    case CommitVote(v) =>
      (match Finalizes(s, v)
       case Some(p) => [BlockAdded(p, s.current.value.commitVotes.Keys + {v.validator}, s.quorum)]
       case None => [])
    case _ => []
  }

  function Run(s: State, inputs: seq<Input>): State {
    if inputs == [] then s else Step(Run(s, inputs[..|inputs| - 1]), inputs[|inputs| - 1])
  }

  function Log(s: State, inputs: seq<Input>): seq<Event> {
    if inputs == [] then []
    else
      var before := inputs[..|inputs| - 1];
      Log(s, before) + Observed(Run(s, before), inputs[|inputs| - 1])
  }

  /** A block is added right after, in the order of events, a transition into Commit of the same
      round; that transition and the block each had a quorum of distinct voters. */
  ghost predicate Backed(log: seq<Event>) {
    && (forall j :: 0 <= j < |log| && log[j].PrepareQuorum? ==> |log[j].voters| >= log[j].quorum)
    && (forall j :: 0 <= j < |log| && log[j].BlockAdded? ==>
          |log[j].voters| >= log[j].quorum && j > 0 && log[j - 1].PrepareQuorum?)
  }

  ghost predicate Armed(log: seq<Event>) {
    |log| > 0 && log[|log| - 1].PrepareQuorum?
  }

  lemma LastInput(s: State, inputs: seq<Input>)
    requires inputs != []
    ensures var before, i := inputs[..|inputs| - 1], inputs[|inputs| - 1];
            && Run(s, inputs) == Step(Run(s, before), i)
            && Log(s, inputs) == Log(s, before) + Observed(Run(s, before), i)
  {
  }

  /** For any sequence of rounds, proposals, votes and validator additions: every block added
      follows its own transition into Commit. */
  lemma {:induction false} EveryBlockIsBacked(validators: seq<string>, inputs: seq<Input>)
    ensures Backed(Log(Initial(validators), inputs))
    ensures CommitIsArmed(Run(Initial(validators), inputs), Log(Initial(validators), inputs))
    decreases |inputs|
  {
    if inputs != [] {
      var before := inputs[..|inputs| - 1];
      EveryBlockIsBacked(validators, before);
      LastInput(Initial(validators), inputs);
      ObservedBacked(Run(Initial(validators), before), Log(Initial(validators), before), inputs[|inputs| - 1]);
    }
  }

  /** The quorum always belongs to the current number of validators. */
  lemma {:induction false} QuorumFollowsValidators(validators: seq<string>, inputs: seq<Input>)
    ensures var s := Run(Initial(validators), inputs);
            s.quorum == Quorum(|s.validators|)
    decreases |inputs|
  {
    if inputs != [] {
      QuorumFollowsValidators(validators, inputs[..|inputs| - 1]);
      LastInput(Initial(validators), inputs);
    }
  }

  lemma AppendBacked(log: seq<Event>, e: Event)
    requires Backed(log)
    requires !e.RoundStarted? ==> |e.voters| >= e.quorum
    requires e.BlockAdded? ==> Armed(log)
    ensures Backed(log + [e]) && (e.PrepareQuorum? ==> Armed(log + [e]))
  {
  }

  ghost predicate CommitIsArmed(s: State, log: seq<Event>) {
    s.current.Some? && s.current.value.phase == Commit ==> Armed(log)
  }

  lemma PrepareBacked(s: State, log: seq<Event>, v: Vote)
    requires Backed(log) && CommitIsArmed(s, log)
    ensures var more := log + Observed(s, PrepareVote(v));
            Backed(more) && CommitIsArmed(ReceivePrepareVote(s, v), more)
  {
    if s.current.Some? && v.height == s.current.value.height {
      var votes := s.current.value.prepareVotes;
      assert votes[v.validator := v].Keys == votes.Keys + {v.validator};
      if |votes[v.validator := v]| >= s.quorum {
        AppendBacked(log, PrepareQuorum(votes.Keys + {v.validator}, s.quorum));
        return;
      }
    }
    assert log + [] == log;
  }

  lemma CommitBacked(s: State, log: seq<Event>, v: Vote)
    requires Backed(log) && CommitIsArmed(s, log)
    ensures var more := log + Observed(s, CommitVote(v));
            Backed(more) && CommitIsArmed(ReceiveCommitVote(s, v), more)
  {
    if Finalizes(s, v).Some? {
      var votes := s.current.value.commitVotes;
      assert votes[v.validator := v].Keys == votes.Keys + {v.validator};
      AppendBacked(log, BlockAdded(Finalizes(s, v).value, votes.Keys + {v.validator}, s.quorum));
    } else {
      assert log + [] == log;
    }
  }

  lemma ObservedBacked(s: State, log: seq<Event>, i: Input)
    requires Backed(log) && CommitIsArmed(s, log)
    ensures Backed(log + Observed(s, i)) && CommitIsArmed(Step(s, i), log + Observed(s, i))
  {
    match i
    case Start(height, _, _) => AppendBacked(log, RoundStarted(height));
    case PrepareVote(v) => PrepareBacked(s, log, v);
    case CommitVote(v) => CommitBacked(s, log, v);
    case _ => assert log + [] == log;
  }

  function Blocks(log: seq<Event>): nat {
    if log == [] then 0 else Blocks(log[..|log| - 1]) + if log[|log| - 1].BlockAdded? then 1 else 0
  }

  function Quorums(log: seq<Event>): nat {
    if log == [] then 0 else Quorums(log[..|log| - 1]) + if log[|log| - 1].PrepareQuorum? then 1 else 0
  }

  /** Inside one round, that is in any stretch of events with no earlier event before it than
      its RoundStarted, blocks never outnumber prepare votes that found a quorum. */
  lemma {:induction false} BlocksAtMostQuorums(log: seq<Event>, lo: nat, hi: nat)
    requires Backed(log) && lo <= hi <= |log|
    requires lo > 0 ==> log[lo - 1].RoundStarted?
    ensures Blocks(log[lo..hi]) <= Quorums(log[lo..hi])
    ensures lo < hi && log[hi - 1].PrepareQuorum? ==> Blocks(log[lo..hi]) < Quorums(log[lo..hi])
    decreases hi
  {
    if lo < hi {
      BlocksAtMostQuorums(log, lo, hi - 1);
      assert log[lo..hi][..hi - lo - 1] == log[lo..hi - 1];
      assert log[lo..hi][hi - lo - 1] == log[hi - 1];
    }
  }

  /** Two quorums of the same n validators share more than a third of them. */
  lemma QuorumsOverlap(validators: set<string>, n: nat, a: set<string>, b: set<string>)
    requires |validators| <= n && a <= validators && b <= validators
    requires |a| >= Quorum(n) && |b| >= Quorum(n)
    ensures 3 * |a * b| > n
  {
    assert |a + b| == |a| + |b| - |a * b|;
    UnionSize(a + b, validators);
  }

  lemma UnionSize(a: set<string>, b: set<string>)
    requires a <= b
    ensures |a| <= |b|
  {
    assert b == a + (b - a);
  }

  /** Any two blocks that a run adds under n validators, with votes only from those, were
      committed by voter sets that share more than n/3 members. */
  lemma CommitSetsOverlap(validators: seq<string>, inputs: seq<Input>, members: set<string>, n: nat, i: nat, j: nat)
    requires |members| <= n
    requires var log := Log(Initial(validators), inputs);
             && i < |log| && log[i].BlockAdded? && log[i].quorum == Quorum(n) && log[i].voters <= members
             && j < |log| && log[j].BlockAdded? && log[j].quorum == Quorum(n) && log[j].voters <= members
    ensures var log := Log(Initial(validators), inputs);
            3 * |log[i].voters * log[j].voters| > n
  {
    EveryBlockIsBacked(validators, inputs);
    var log := Log(Initial(validators), inputs);
    QuorumsOverlap(members, n, log[i].voters, log[j].voters);
  }
}
