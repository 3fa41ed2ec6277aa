/** Every run on the nullifier lists simulates a run on the ballot. */
module Refinement {
  import opened Wrappers
  import opened Words
  import opened Lists
  import opened Records
  import opened Borsh
  import opened Hashing
  import opened Program
  import opened Voting
  import B = Ballots

  /** Votes and execution never touch what was proposed. */
  predicate SameContent(p: Proposal, q: Proposal) {
    p.index == q.index && p.createKey == q.createKey && p.action == q.action && p.actionHash == q.actionHash
  }

  lemma FaithfulStatus(poll: Poll, p: Proposal, b: B.Ballot, choice: Choice, q: Proposal)
    requires FaithfulList(poll, p, b, choice)
    requires SameContent(p, q) && ListOf(q, choice) == ListOf(p, choice)
    ensures FaithfulList(poll, q, b, choice)
  {
    MarksIgnoreVotes(poll, p, q);
  }

  /** A vote succeeds unless it repeats the salt's current vote, and then records exactly that vote. In
      particular the subtraction in is_dead cannot underflow, whatever the build. */
  lemma CastVoteSimulates(poll: Poll, p: Proposal, t: B.Tally, salts: set<Bytes32>, s: Bytes32, choice: Choice)
    requires Faithful(poll, p, t) && MarksDistinct(poll, p, salts)
    requires t.ballot.Keys <= salts && s in salts && p.status == Active
    requires |t.ballot.Keys + {s}| <= |poll.memberCms|
    ensures var r := CastVote(poll.env, poll.stateId, poll.threshold, |poll.memberCms|, p, s, choice);
            var b := t.ballot[s := choice];
            var dead := choice == Against && |poll.memberCms| - |B.Voters(b, Against)| < poll.threshold as nat;
            && (r.Ok? <==> B.Entry(t.ballot, s) != Some(choice))
            && (r.Ok? ==> SameContent(p, r.value)
                          && Faithful(poll, r.value, B.Tally(b, if dead then Rejected else Active)))
  {
    hide VoteNullifier, RejectNullifier, FaithfulList, MarksDistinct, MarksDistinctOn, B.Voters;
    var mark, retracted := MarkOf(poll, p, choice, s), MarkOf(poll, p, Other(choice), s);
    MarkTellsVote(poll, p, t.ballot, salts, s, choice);
    var b := t.ballot[s := choice];
    B.ParticipantsAfter(t.ballot, s, choice);
    var q := match choice
      case For => p.(rejectNullifiers := Without(p.rejectNullifiers, retracted), voteNullifiers := p.voteNullifiers + [mark])
      case Against => p.(voteNullifiers := Without(p.voteNullifiers, retracted), rejectNullifiers := p.rejectNullifiers + [mark]);
    if mark !in ListOf(p, choice) {
      PushIsFaithful(poll, p, t.ballot, s, choice, q);
      RetractIsFaithful(poll, p, t.ballot, salts, s, choice, q);
      DistinctOnSubset(poll, p, salts, q, b.Keys);
      VotersDistinct(poll, q, b, choice);
      ListCounts(poll, q, b, choice);
      B.VotersPartition(b);
      var q' := q.(status := Rejected);
      FaithfulStatus(poll, q, b, For, q');
      FaithfulStatus(poll, q, b, Against, q');
    }
  }

  lemma DistinctOnSubset(poll: Poll, p: Proposal, salts: set<Bytes32>, q: Proposal, fewer: set<Bytes32>)
    requires MarksDistinct(poll, p, salts) && fewer <= salts
    requires q.index == p.index && q.actionHash == p.actionHash
    ensures MarksDistinct(poll, q, fewer)
  {
    MarksIgnoreVotes(poll, p, q);
  }

  lemma AttemptOfMember(poll: Poll, p: Proposal, op: Op)
    requires op.Vote? && Eligible(poll, op) && p.status == Active
    ensures var r := CastVote(poll.env, poll.stateId, poll.threshold, |poll.memberCms|, p, op.salt, op.choice);
            var fits := r.Ok? && |EncodeProposal(r.value)| <= poll.env.dataLimit as nat;
            && (Attempt(poll, p, op).Ok? <==> fits)
            && (fits ==> Attempt(poll, p, op) == Ok((r.value, [])))
  {
    hide CastVote, EncodeProposal;
  }

  /** What a vote is stored as has the size that the ballot foresees. */
  lemma VoteSize(poll: Poll, p: Proposal, t: B.Tally, salts: set<Bytes32>, s: Bytes32, choice: Choice)
    requires Faithful(poll, p, t) && MarksDistinct(poll, p, salts) && t.ballot.Keys <= salts && s in salts
    requires p.status == Active && |t.ballot.Keys + {s}| <= |poll.memberCms|
    ensures var r := CastVote(poll.env, poll.stateId, poll.threshold, |poll.memberCms|, p, s, choice);
            r.Ok? ==> |EncodeProposal(r.value)| == BaseSize(p.action) + 32 * |t.ballot[s := choice]|
  {
    hide EncodeProposal, BaseSize, CastVote, Faithful, B.Voters, MarksDistinct, B.Entry;
    var r, b := CastVote(poll.env, poll.stateId, poll.threshold, |poll.memberCms|, p, s, choice), t.ballot[s := choice];
    CastVoteSimulates(poll, p, t, salts, s, choice);
    if r.Ok? {
      var dead := choice == Against && |poll.memberCms| - |B.Voters(b, Against)| < poll.threshold as nat;
      B.ParticipantsAfter(t.ballot, s, choice);
      DistinctOnSubset(poll, p, salts, r.value, b.Keys);
      FaithfulCounts(poll, r.value, B.Tally(b, if dead then Rejected else Active));
    }
  }

  lemma NextVote(rules: B.Rules, t: B.Tally, s: Bytes32, choice: Choice)
    requires t.status == Active
    ensures var next, b := B.Next(rules, t, B.Vote(s, choice, true)), t.ballot[s := choice];
            && (next.Some? <==> B.Entry(t.ballot, s) != Some(choice) && 32 * |b| <= rules.room)
            && (next.Some? ==> next.value == B.Tally(b,
                  if choice == Against && rules.memberCount - |B.Voters(b, Against)| < rules.threshold then Rejected
                  else Active))
  {
  }

  lemma VoteSimulates(poll: Poll, p: Proposal, t: B.Tally, salts: set<Bytes32>, op: Op)
    requires Faithful(poll, p, t) && MarksDistinct(poll, p, salts) && t.ballot.Keys <= salts
    requires op.Vote? && op.salt in salts && Eligible(poll, op) && p.status == Active
    requires |t.ballot.Keys + {op.salt}| <= |poll.memberCms|
    ensures var r, next := Attempt(poll, p, op), B.Next(RulesOf(poll, p.action), t, StepOf(poll, op));
            && (r.Ok? <==> next.Some?)
            && (r.Ok? ==> SameContent(p, r.value.0) && Faithful(poll, r.value.0, next.value))
  {
    assert t.status == Active;
    assert StepOf(poll, op) == B.Vote(op.salt, op.choice, true);
    hide EncodeProposal, BaseSize, CastVote, Faithful, B.Voters, MarksDistinct, Attempt, Eligible, StepOf, B.Next, B.Entry;
    AttemptOfMember(poll, p, op);
    CastVoteSimulates(poll, p, t, salts, op.salt, op.choice);
    VoteSize(poll, p, t, salts, op.salt, op.choice);
    NextVote(RulesOf(poll, p.action), t, op.salt, op.choice);
  }

  lemma ExecuteSimulates(poll: Poll, p: Proposal, t: B.Tally, op: Op)
    requires Faithful(poll, p, t) && MarksDistinct(poll, p, t.ballot.Keys) && op.Execute?
    ensures var r, next := Attempt(poll, p, op), B.Next(RulesOf(poll, p.action), t, StepOf(poll, op));
            && (r.Ok? <==> next.Some?)
            && (r.Ok? ==> SameContent(p, r.value.0) && Faithful(poll, r.value.0, next.value))
  {
    hide EncodeProposal, BaseSize, FaithfulList, MarksDistinct, B.Voters, Forward;
    FaithfulCounts(poll, p, t);
    var q := p.(status := Executed);
    FaithfulStatus(poll, p, t.ballot, For, q);
    FaithfulStatus(poll, p, t.ballot, Against, q);
    ProposalSize(p);
    ProposalSize(q);
  }

  lemma AttemptSimulates(poll: Poll, p: Proposal, t: B.Tally, salts: set<Bytes32>, op: Op)
    requires Faithful(poll, p, t) && MarksDistinct(poll, p, salts)
    requires t.ballot.Keys <= salts
    requires op.Vote? ==> op.salt in salts
    requires op.Vote? && Eligible(poll, op) ==> |t.ballot.Keys + {op.salt}| <= |poll.memberCms|
    ensures var r, next := Attempt(poll, p, op), B.Next(RulesOf(poll, p.action), t, StepOf(poll, op));
            && (r.Ok? <==> next.Some?)
            && (r.Ok? ==> SameContent(p, r.value.0) && Faithful(poll, r.value.0, next.value))
  {
    if op.Execute? {
      hide Attempt, B.Next, Faithful;
      DistinctOnSubset(poll, p, salts, p, t.ballot.Keys);
      ExecuteSimulates(poll, p, t, op);
    } else if Eligible(poll, op) && p.status == Active {
      hide Attempt, B.Next, Faithful, MarksDistinct;
      VoteSimulates(poll, p, t, salts, op);
    } else {
      hide CastVote, B.Voters, FaithfulList, MarksDistinct, EncodeProposal;
    }
  }

  /** Salts that vote as members are no more numerous than members, as long as commitments do not collide. */
  lemma ElectorateBound(poll: Poll, ops: seq<Op>)
    requires CommitmentsDistinct(poll, ops)
    ensures |B.ValidSalts(StepsOf(poll, ops))| <= |poll.memberCms|
    ensures B.ValidSalts(StepsOf(poll, ops)) <= Salts(ops)
  {
    hide CommitmentsDistinct;
    var steps := StepsOf(poll, ops);
    var rel := (s: Bytes32, cm: Bytes32) => exists i :: ElectsAs(poll, ops, i, s, cm);
    forall s | s in B.ValidSalts(steps)
      ensures s in Salts(ops)
      ensures exists cm :: cm in SetOf(poll.memberCms) && rel(s, cm)
    {
      var i :| 0 <= i < |steps| && steps[i].Vote? && steps[i].valid && steps[i].salt == s;
      assert ElectsAs(poll, ops, i, s, Commitment(poll, ops[i]));
      assert Commitment(poll, ops[i]) in SetOf(poll.memberCms);
    }
    forall s, s', cm | s in B.ValidSalts(steps) && s' in B.ValidSalts(steps) && rel(s, cm) && rel(s', cm)
      ensures s == s'
    {
      var i :| ElectsAs(poll, ops, i, s, cm);
      var j :| ElectsAs(poll, ops, j, s', cm);
      CommitmentsDetermineSalts(poll, ops, i, j);
    }
    Pigeonhole(B.ValidSalts(steps), SetOf(poll.memberCms), rel);
    SetOfCount(poll.memberCms);
  }

  predicate ElectsAs(poll: Poll, ops: seq<Op>, i: int, s: Bytes32, cm: Bytes32) {
    0 <= i < |ops| && ops[i].Vote? && ops[i].salt == s && Commitment(poll, ops[i]) == cm
  }

  /** The ballot after some attempts on a fresh proposal. */
  function TallyAfter(poll: Poll, p: Proposal, ops: seq<Op>): B.Tally {
    B.Run(RulesOf(poll, p.action), B.START, StepsOf(poll, ops))
  }

  lemma StepsPrefix(poll: Poll, ops: seq<Op>, k: nat)
    requires k <= |ops|
    ensures StepsOf(poll, ops[..k]) == StepsOf(poll, ops)[..k]
  {
  }

  /** Ballot refinement: whatever is attempted, in any order, the lists stand for the ballot. */
  lemma {:induction false} RunSimulates(poll: Poll, p: Proposal, ops: seq<Op>)
    requires Fresh(p) && poll.threshold as nat <= |poll.memberCms|
    requires NoCollision(poll, p, ops)
    ensures var q, t := After(poll, p, ops), TallyAfter(poll, p, ops);
            && Faithful(poll, q, t)
            && SameContent(p, q)
            && t.ballot.Keys <= Salts(ops)
            && MarksDistinct(poll, p, Salts(ops))
            && B.Sound(RulesOf(poll, p.action), t)
  {
    var rules, steps := RulesOf(poll, p.action), StepsOf(poll, ops);
    NoCollisionMeansDistinctCommitments(poll, p, ops);
    ElectorateBound(poll, ops);
    B.SoundRun(rules, steps);
    NoCollisionMeansDistinctMarks(poll, p, ops);
    if ops != [] {
      hide Attempt, B.Next, B.Sound, NoCollision, Faithful, MarksDistinct, StepOf, RulesOf, B.ValidSalts;
      var init, last := ops[..|ops| - 1], ops[|ops| - 1];
      NoCollisionFewer(poll, p, init, ops);
      RunSimulates(poll, p, init);
      StepsPrefix(poll, ops, |init|);
      AttemptAfter(poll, p, ops, |init|);
    }
  }

  /** Attempt k of a run meets the ballot that the attempts before it left. */
  lemma AttemptAfter(poll: Poll, p: Proposal, ops: seq<Op>, k: nat)
    requires k < |ops| && NoCollision(poll, p, ops)
    requires poll.threshold as nat <= |poll.memberCms|
    requires var q, t := After(poll, p, ops[..k]), TallyAfter(poll, p, ops[..k]);
             Faithful(poll, q, t) && SameContent(p, q)
    ensures var q, t := After(poll, p, ops[..k]), TallyAfter(poll, p, ops[..k]);
            var r, next := Attempt(poll, q, ops[k]), B.Next(RulesOf(poll, p.action), t, StepOf(poll, ops[k]));
            && (r.Ok? <==> next.Some?)
            && (r.Ok? ==> SameContent(q, r.value.0) && Faithful(poll, r.value.0, next.value))
  {
    hide Attempt, B.Next, NoCollision, Faithful;
    var rules, steps := RulesOf(poll, p.action), StepsOf(poll, ops);
    var q, t := After(poll, p, ops[..k]), TallyAfter(poll, p, ops[..k]);
    NoCollisionMeansDistinctCommitments(poll, p, ops);
    ElectorateBound(poll, ops);
    StepsPrefix(poll, ops, k);
    B.ValidSaltsPrefix(steps, k);
    SubsetCount(B.ValidSalts(steps[..k]), B.ValidSalts(steps));
    B.SoundRun(rules, steps[..k]);
    NoCollisionMeansDistinctMarks(poll, p, ops);
    DistinctOnSubset(poll, p, Salts(ops), q, Salts(ops));
    assert ops[k].Vote? ==> ops[k].salt in Salts(ops);
    if ops[k].Vote? && Eligible(poll, ops[k]) {
      assert steps[k].salt in B.ValidSalts(steps);
      SubsetCount(t.ballot.Keys + {ops[k].salt}, B.ValidSalts(steps));
    }
    AttemptSimulates(poll, q, t, Salts(ops), ops[k]);
  }
}
