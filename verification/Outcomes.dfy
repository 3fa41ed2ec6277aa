/** What the refinement means for the voters of one proposal: safety, liveness, and the exact power of
    the threshold, over every run of attempts. */
module Outcomes {
  import opened Wrappers
  import opened Words
  import opened Lists
  import opened Records
  import opened Borsh
  import opened Program
  import opened Voting
  import opened Refinement
  import opened Bounds
  import B = Ballots

  /** A run of attempts on a fresh proposal of a well-formed multisig, none of whose hashes collide. */
  ghost predicate Regular(poll: Poll, p: Proposal, ops: seq<Op>) {
    Fresh(p) && 1 <= poll.threshold as nat <= |poll.memberCms| && NoCollision(poll, p, ops)
  }

  lemma RegularFewer(poll: Poll, p: Proposal, fewer: seq<Op>, ops: seq<Op>)
    requires Regular(poll, p, ops) && forall op :: op in fewer && op.Vote? ==> op in ops
    ensures Regular(poll, p, fewer)
  {
    NoCollisionFewer(poll, p, fewer, ops);
  }

  lemma RegularIsLawful(poll: Poll, p: Proposal, ops: seq<Op>)
    requires Regular(poll, p, ops)
    ensures Lawful(poll, p, ops)
  {
    NoCollisionMeansDistinctCommitments(poll, p, ops);
  }

  /** The length of a list is the number of salts that vote that way. */
  lemma TallyCounts(poll: Poll, p: Proposal, ops: seq<Op>)
    requires Regular(poll, p, ops)
    ensures var q, b := After(poll, p, ops), TallyAfter(poll, p, ops).ballot;
            && |q.voteNullifiers| == |B.Voters(b, For)| && |q.rejectNullifiers| == |B.Voters(b, Against)|
            && |q.voteNullifiers| + |q.rejectNullifiers| == |b|
            && |EncodeProposal(q)| == BaseSize(p.action) + 32 * |b|
  {
    hide NoCollision, EncodeProposal, BaseSize, FaithfulList, MarksDistinct, After, TallyAfter, B.Voters;
    var q, t := After(poll, p, ops), TallyAfter(poll, p, ops);
    RunSimulates(poll, p, ops);
    DistinctOnSubset(poll, p, Salts(ops), q, t.ballot.Keys);
    FaithfulCounts(poll, q, t);
  }

  /** The ballot decides which attempts succeed. */
  lemma SucceedsAgrees(poll: Poll, p: Proposal, ops: seq<Op>, k: nat)
    requires Regular(poll, p, ops) && k < |ops|
    ensures Succeeds(poll, p, ops, k)
            <==> B.Succeeds(RulesOf(poll, p.action), B.START, StepsOf(poll, ops), k)
  {
    hide Attempt, B.Next, NoCollision, Faithful, StepOf, RulesOf;
    RegularFewer(poll, p, ops[..k], ops);
    RunSimulates(poll, p, ops[..k]);
    AttemptAfter(poll, p, ops, k);
    StepsPrefix(poll, ops, k);
  }

  // Safety

  /** Attempt j is a successful vote by the authorised member behind cm, and no vote of its salt that succeeds before
      attempt k takes it back. */
  ghost predicate Standing(poll: Poll, p: Proposal, ops: seq<Op>, k: nat, choice: Choice, j: int, cm: Bytes32)
    requires k <= |ops|
  {
    && 0 <= j < k
    && ops[j].Vote? && ops[j].choice == choice && ops[j].member.isAuthorized && Commitment(poll, ops[j]) == cm
    && cm in poll.memberCms
    && Succeeds(poll, p, ops, j)
    && forall i :: j < i < k && ops[i].Vote? && ops[i].salt == ops[j].salt && Succeeds(poll, p, ops, i)
                   ==> ops[i].choice == choice
  }

  /** The members whose vote for a choice stands just before attempt k. */
  ghost function Supporters(poll: Poll, p: Proposal, ops: seq<Op>, k: nat, choice: Choice): set<Bytes32>
    requires k <= |ops|
  {
    set cm | cm in poll.memberCms && exists j :: Standing(poll, p, ops, k, choice, j, cm)
  }

  /** The salts that those members vote with. */
  ghost function StandingSalts(poll: Poll, p: Proposal, ops: seq<Op>, k: nat, choice: Choice): set<Bytes32>
    requires k <= |ops|
  {
    set j | 0 <= j < k && ops[j].Vote? && Standing(poll, p, ops, k, choice, j, Commitment(poll, ops[j])) :: ops[j].salt
  }

  lemma VoterStands(poll: Poll, p: Proposal, ops: seq<Op>, k: nat, choice: Choice, s: Bytes32) returns (j: nat)
    requires Regular(poll, p, ops) && k <= |ops|
    requires B.Entry(TallyAfter(poll, p, ops[..k]).ballot, s) == Some(choice)
    ensures j < k && ops[j].Vote? && ops[j].salt == s
    ensures Standing(poll, p, ops, k, choice, j, Commitment(poll, ops[j]))
  {
    hide Attempt, B.Next, NoCollision, Commitment, Eligible, RulesOf, Succeeds, B.Succeeds, B.Entry;
    var rules, steps := RulesOf(poll, p.action), StepsOf(poll, ops);
    StepsPrefix(poll, ops, k);
    B.EntryIsLastSuccess(rules, steps, k, s);
    B.LastSuccessIsLast(rules, B.START, steps, k, s);
    j := B.LastSuccess(rules, B.START, steps, k, s).value;
    SucceedsAgrees(poll, p, ops, j);
    B.OnlyValidVotesSucceed(rules, B.START, steps, j);
    EligibleMeans(poll, ops[j]);
    forall i | j < i < k && ops[i].Vote? && ops[i].salt == s
      ensures !Succeeds(poll, p, ops, i)
    {
      SucceedsAgrees(poll, p, ops, i);
      assert !B.VoteSucceeds(rules, B.START, steps, i, s);
    }
  }

  lemma StandingVotes(poll: Poll, p: Proposal, ops: seq<Op>, k: nat, choice: Choice, j: nat, cm: Bytes32)
    requires Regular(poll, p, ops) && k <= |ops| && Standing(poll, p, ops, k, choice, j, cm)
    ensures B.Entry(TallyAfter(poll, p, ops[..k]).ballot, ops[j].salt) == Some(choice)
  {
    hide Attempt, B.Next, NoCollision, Commitment, Eligible, RulesOf, Succeeds, B.Succeeds, B.Entry;
    var rules, steps, s := RulesOf(poll, p.action), StepsOf(poll, ops), ops[j].salt;
    StepsPrefix(poll, ops, k);
    B.EntryIsLastSuccess(rules, steps, k, s);
    B.LastSuccessIsLast(rules, B.START, steps, k, s);
    SucceedsAgrees(poll, p, ops, j);
    assert B.VoteSucceeds(rules, B.START, steps, j, s);
    var i := B.LastSuccess(rules, B.START, steps, k, s).value;
    SucceedsAgrees(poll, p, ops, i);
  }

  lemma EligibleMeans(poll: Poll, op: Op)
    requires op.Vote?
    ensures Eligible(poll, op) <==> op.member.isAuthorized && Commitment(poll, op) in poll.memberCms
  {
  }

  /** The salts with a standing vote are those that vote that way on the ballot, each for a member of its own. */
  lemma StandingIsTheBallot(poll: Poll, p: Proposal, ops: seq<Op>, k: nat, choice: Choice)
    requires Regular(poll, p, ops) && k <= |ops|
    ensures StandingSalts(poll, p, ops, k, choice) == B.Voters(TallyAfter(poll, p, ops[..k]).ballot, choice)
    ensures |StandingSalts(poll, p, ops, k, choice)| <= |Supporters(poll, p, ops, k, choice)|
  {
    hide Standing, TallyAfter, NoCollision, Commitment, CommitmentsDistinct;
    var b := TallyAfter(poll, p, ops[..k]).ballot;
    var voters, supporters := B.Voters(b, choice), Supporters(poll, p, ops, k, choice);
    var rel := (s: Bytes32, cm: Bytes32) => exists j :: ElectsAs(poll, ops, j, s, cm);
    forall s | s in voters
      ensures s in StandingSalts(poll, p, ops, k, choice)
      ensures exists cm :: cm in supporters && rel(s, cm)
    {
      var j := VoterStands(poll, p, ops, k, choice, s);
      var cm := Commitment(poll, ops[j]);
      StandingIsMember(poll, p, ops, k, choice, j, cm);
      assert cm in supporters && ElectsAs(poll, ops, j, s, cm);
    }
    forall s | s in StandingSalts(poll, p, ops, k, choice)
      ensures s in voters
    {
      var j :| 0 <= j < k && ops[j].Vote? && ops[j].salt == s
               && Standing(poll, p, ops, k, choice, j, Commitment(poll, ops[j]));
      StandingVotes(poll, p, ops, k, choice, j, Commitment(poll, ops[j]));
    }
    forall s, s', cm | s in voters && s' in voters && rel(s, cm) && rel(s', cm)
      ensures s == s'
    {
      var i :| ElectsAs(poll, ops, i, s, cm);
      var j :| ElectsAs(poll, ops, j, s', cm);
      NoCollisionMeansDistinctCommitments(poll, p, ops);
      CommitmentsDetermineSalts(poll, ops, i, j);
    }
    Pigeonhole(voters, supporters, rel);
  }

  lemma StandingIsMember(poll: Poll, p: Proposal, ops: seq<Op>, k: nat, choice: Choice, j: int, cm: Bytes32)
    requires k <= |ops| && Standing(poll, p, ops, k, choice, j, cm)
    ensures cm in poll.memberCms && ops[j].Vote? && Eligible(poll, ops[j]) && ops[j].choice == choice
    ensures Commitment(poll, ops[j]) == cm
  {
    hide Succeeds;
  }

  /** Trace safety: whenever an execution succeeds, at least M distinct members each have an approval standing, with at
      least M distinct salts. */
  lemma ExecutionNeedsThreshold(poll: Poll, p: Proposal, ops: seq<Op>, k: nat)
    requires Regular(poll, p, ops) && k < |ops|
    requires ops[k].Execute? && Succeeds(poll, p, ops, k)
    ensures |StandingSalts(poll, p, ops, k, For)| >= poll.threshold as nat
    ensures |Supporters(poll, p, ops, k, For)| >= poll.threshold as nat
  {
    hide Attempt, NoCollision, Commitment, Eligible, Succeeds, B.Entry, B.Run, Supporters, StandingSalts;
    SucceedsAgrees(poll, p, ops, k);
    StepsPrefix(poll, ops, k);
    assert |B.Voters(TallyAfter(poll, p, ops[..k]).ballot, For)| >= poll.threshold as nat;
    StandingIsTheBallot(poll, p, ops, k, For);
  }

  /** Exact veto: a proposal is Rejected exactly when more than N - M distinct salts have a rejection standing, and then
      more than N - M distinct members do. */
  lemma RejectedByVeto(poll: Poll, p: Proposal, ops: seq<Op>)
    requires Regular(poll, p, ops)
    ensures var q, veto := After(poll, p, ops), |poll.memberCms| - poll.threshold as nat;
            && (q.status == Rejected <==> |StandingSalts(poll, p, ops, |ops|, Against)| > veto)
            && (q.status == Rejected ==> |Supporters(poll, p, ops, |ops|, Against)| > veto)
  {
    hide NoCollision, After, TallyAfter, Supporters, StandingSalts, EncodeProposal, BaseSize, B.Voters, CommitmentsDistinct;
    RegularIsLawful(poll, p, ops);
    StatusMeans(poll, p, ops);
    TallyCounts(poll, p, ops);
    assert ops[..|ops|] == ops;
    StandingIsTheBallot(poll, p, ops, |ops|, Against);
  }

  /** The members, and the salts, of every attempt to vote one way. */
  function Attempting(poll: Poll, ops: seq<Op>, choice: Choice): set<Bytes32> {
    set i | 0 <= i < |ops| && ops[i].Vote? && ops[i].choice == choice && Eligible(poll, ops[i]) :: Commitment(poll, ops[i])
  }

  function AttemptingSalts(poll: Poll, ops: seq<Op>, choice: Choice): set<Bytes32> {
    set i | 0 <= i < |ops| && ops[i].Vote? && ops[i].choice == choice && Eligible(poll, ops[i]) :: ops[i].salt
  }

  lemma StandingWasAttempted(poll: Poll, p: Proposal, ops: seq<Op>, k: nat, choice: Choice)
    requires k <= |ops|
    ensures |Supporters(poll, p, ops, k, choice)| <= |Attempting(poll, ops, choice)|
    ensures |StandingSalts(poll, p, ops, k, choice)| <= |AttemptingSalts(poll, ops, choice)|
  {
    hide Standing, Commitment, Eligible;
    forall cm | cm in Supporters(poll, p, ops, k, choice)
      ensures cm in Attempting(poll, ops, choice)
    {
      var j :| Standing(poll, p, ops, k, choice, j, cm);
      StandingIsMember(poll, p, ops, k, choice, j, cm);
      StandingIsEarlier(poll, p, ops, k, choice, j, cm);
    }
    forall s | s in StandingSalts(poll, p, ops, k, choice)
      ensures s in AttemptingSalts(poll, ops, choice)
    {
      var j :| 0 <= j < k && ops[j].Vote? && ops[j].salt == s
               && Standing(poll, p, ops, k, choice, j, Commitment(poll, ops[j]));
      StandingIsMember(poll, p, ops, k, choice, j, Commitment(poll, ops[j]));
    }
    SubsetCount(Supporters(poll, p, ops, k, choice), Attempting(poll, ops, choice));
    SubsetCount(StandingSalts(poll, p, ops, k, choice), AttemptingSalts(poll, ops, choice));
  }

  lemma StandingIsEarlier(poll: Poll, p: Proposal, ops: seq<Op>, k: nat, choice: Choice, j: int, cm: Bytes32)
    requires k <= |ops| && Standing(poll, p, ops, k, choice, j, cm)
    ensures 0 <= j < k
  {
  }

  /** When fewer than M members ever try to approve, nothing is ever executed. */
  lemma TooFewApproversNeverExecute(poll: Poll, p: Proposal, ops: seq<Op>, k: nat)
    requires Regular(poll, p, ops) && k < |ops| && ops[k].Execute?
    requires |Attempting(poll, ops, For)| < poll.threshold as nat
    ensures !Succeeds(poll, p, ops, k)
  {
    hide Attempt, NoCollision, Succeeds, Attempting, AttemptingSalts, Supporters, StandingSalts;
    if Succeeds(poll, p, ops, k) {
      ExecutionNeedsThreshold(poll, p, ops, k);
      StandingWasAttempted(poll, p, ops, k, For);
    }
  }

  /** Nor when members try to approve with fewer than M salts between them, however many others reject. */
  lemma TooFewSaltsNeverExecute(poll: Poll, p: Proposal, ops: seq<Op>, k: nat)
    requires Regular(poll, p, ops) && k < |ops| && ops[k].Execute?
    requires |AttemptingSalts(poll, ops, For)| < poll.threshold as nat
    ensures !Succeeds(poll, p, ops, k)
  {
    hide Attempt, NoCollision, Succeeds, Attempting, AttemptingSalts, Supporters, StandingSalts;
    if Succeeds(poll, p, ops, k) {
      ExecutionNeedsThreshold(poll, p, ops, k);
      StandingWasAttempted(poll, p, ops, k, For);
    }
  }

  /** When at most N - M members ever try to reject, or with at most N - M salts, the proposal is never Rejected. */
  lemma TooFewRejectersNeverReject(poll: Poll, p: Proposal, ops: seq<Op>)
    requires Regular(poll, p, ops)
    requires var veto := |poll.memberCms| - poll.threshold as nat;
             |Attempting(poll, ops, Against)| <= veto || |AttemptingSalts(poll, ops, Against)| <= veto
    ensures After(poll, p, ops).status != Rejected
  {
    hide NoCollision, After, Attempting, AttemptingSalts, Supporters, StandingSalts;
    RejectedByVeto(poll, p, ops);
    StandingWasAttempted(poll, p, ops, |ops|, Against);
  }

  // Liveness

  /** Votes for one choice by members with pairwise distinct salts. */
  ghost predicate Group(poll: Poll, group: seq<Op>, choice: Choice) {
    && (forall i :: 0 <= i < |group| ==> group[i].Vote? && group[i].choice == choice && Eligible(poll, group[i]))
    && (forall i, j :: 0 <= i < j < |group| ==> group[i].salt != group[j].salt)
  }

  /** The votes of those who do not vote that way yet, in the same order. For approvals, this is the
      has_voted check of the SDK. */
  function NotYet(poll: Poll, q: Proposal, choice: Choice, group: seq<Op>): seq<Op> {
    if group == [] then []
    else
      var rest, last := NotYet(poll, q, choice, group[..|group| - 1]), group[|group| - 1];
      if last.Vote? && MarkOf(poll, q, choice, last.salt) in ListOf(q, choice) then rest else rest + [last]
  }

  lemma {:induction false} NotYetKeeps(poll: Poll, q: Proposal, choice: Choice, group: seq<Op>)
    requires Group(poll, group, choice)
    ensures var todo := NotYet(poll, q, choice, group);
            && |todo| <= |group|
            && Group(poll, todo, choice)
            && (forall op :: op in todo <==> op in group && MarkOf(poll, q, choice, op.salt) !in ListOf(q, choice))
  {
    if group != [] {
      hide Eligible, MarkOf, ListOf;
      var init, last := group[..|group| - 1], group[|group| - 1];
      NotYetKeeps(poll, q, choice, init);
      var rest := NotYet(poll, q, choice, init);
      assert group == init + [last];
      forall i | 0 <= i < |rest|
        ensures rest[i].salt != last.salt
      {
        assert rest[i] in rest;
        assert rest[i] in init;
      }
    }
  }

  /** The salts of a group that have no mark in either list yet. */
  function Newcomers(poll: Poll, q: Proposal, group: seq<Op>): set<Bytes32> {
    set i | 0 <= i < |group| && group[i].Vote? && MarkOf(poll, q, For, group[i].salt) !in q.voteNullifiers
            && MarkOf(poll, q, Against, group[i].salt) !in q.rejectNullifiers :: group[i].salt
  }

  /** The proposal's account can also hold a nullifier of each of the group's newcomers. */
  predicate Fits(poll: Poll, q: Proposal, group: seq<Op>) {
    |EncodeProposal(q)| + 32 * |Newcomers(poll, q, group)| <= poll.env.dataLimit as nat
  }

  /** The account can hold the proposal with a nullifier of every member. */
  predicate Roomy(poll: Poll, p: Proposal) {
    |EncodeProposal(p)| + 32 * |poll.memberCms| <= poll.env.dataLimit as nat
  }

  lemma StepsAppend(poll: Poll, a: seq<Op>, b: seq<Op>)
    ensures StepsOf(poll, a + b) == StepsOf(poll, a) + StepsOf(poll, b)
  {
  }

  lemma GroupSteps(poll: Poll, group: seq<Op>, choice: Choice)
    requires Group(poll, group, choice)
    ensures B.GroupVote(StepsOf(poll, group), choice)
    ensures |B.ValidSalts(StepsOf(poll, group))| == |group|
    ensures forall op :: op in group ==> op.salt in B.ValidSalts(StepsOf(poll, group))
    ensures forall s :: s in B.ValidSalts(StepsOf(poll, group)) ==> exists i :: 0 <= i < |group| && group[i].salt == s
  {
    hide Eligible;
    var steps := StepsOf(poll, group);
    assert B.GroupVote(steps, choice);
    B.GroupSize(steps, choice);
    forall op | op in group
      ensures op.salt in B.ValidSalts(steps)
    {
      var i :| 0 <= i < |group| && group[i] == op;
      assert steps[i].salt == op.salt;
    }
  }

  lemma MarkTellsVoteAfter(poll: Poll, p: Proposal, ops: seq<Op>, more: seq<Op>, s: Bytes32, choice: Choice)
    requires Regular(poll, p, ops + more) && s in Salts(ops + more)
    ensures var q, t := After(poll, p, ops), TallyAfter(poll, p, ops);
            MarkOf(poll, q, choice, s) in ListOf(q, choice) <==> B.Entry(t.ballot, s) == Some(choice)
  {
    var q, t := After(poll, p, ops), TallyAfter(poll, p, ops);
    var salts := Salts(ops + more);
    SaltsGrow(ops, more);
    hide FaithfulList, NoCollision, MarksDistinct, Salts;
    RegularFewer(poll, p, ops, ops + more);
    RunSimulates(poll, p, ops);
    NoCollisionMeansDistinctMarks(poll, p, ops + more);
    DistinctOnSubset(poll, p, salts, q, salts);
    MarkTellsVote(poll, q, t.ballot, salts, s, choice);
  }

  lemma SaltsGrow(ops: seq<Op>, more: seq<Op>)
    ensures Salts(ops) <= Salts(ops + more) && Salts(more) <= Salts(ops + more)
  {
    forall i | 0 <= i < |ops| && ops[i].Vote?
      ensures ops[i].salt in Salts(ops + more)
    {
      assert (ops + more)[i] == ops[i];
    }
    forall i | 0 <= i < |more| && more[i].Vote?
      ensures more[i].salt in Salts(ops + more)
    {
      assert (ops + more)[|ops| + i] == more[i];
    }
  }

  /** A group's votes can be added to the participants without exceeding N. */
  lemma GroupFits(poll: Poll, p: Proposal, ops: seq<Op>, more: seq<Op>)
    requires Regular(poll, p, ops + more)
    ensures |TallyAfter(poll, p, ops).ballot.Keys + B.ValidSalts(StepsOf(poll, more))| <= |poll.memberCms|
  {
    hide NoCollision, B.ValidSalts, StepOf, B.Sound, B.Run;
    var before, after := StepsOf(poll, ops), StepsOf(poll, more);
    StepsAppend(poll, ops, more);
    B.ValidSaltsAppend(before, after);
    NoCollisionMeansDistinctCommitments(poll, p, ops + more);
    ElectorateBound(poll, ops + more);
    SubsetCount(B.ValidSalts(before), B.ValidSalts(before + after));
    B.SoundRun(RulesOf(poll, p.action), before);
    SubsetCount(TallyAfter(poll, p, ops).ballot.Keys + B.ValidSalts(after), B.ValidSalts(before + after));
  }

  /** None of the group votes that way yet. */
  ghost predicate Pending(poll: Poll, q: Proposal, group: seq<Op>, choice: Choice) {
    Group(poll, group, choice) && forall op :: op in group ==> MarkOf(poll, q, choice, op.salt) !in ListOf(q, choice)
  }

  /** A group fits exactly when there is room for the nullifiers of all who will then have voted. */
  lemma FitsMeans(poll: Poll, p: Proposal, ops: seq<Op>, group: seq<Op>, choice: Choice)
    requires Regular(poll, p, ops + group) && Group(poll, group, choice)
    ensures var t, salts := TallyAfter(poll, p, ops), B.ValidSalts(StepsOf(poll, group));
            && Newcomers(poll, After(poll, p, ops), group) == salts - t.ballot.Keys
            && (Fits(poll, After(poll, p, ops), group)
                <==> 32 * |t.ballot.Keys + salts| <= RulesOf(poll, p.action).room)
  {
    hide Regular, Group, B.ValidSalts, EncodeProposal, BaseSize, StepsOf, After, TallyAfter, Newcomers, B.Voters;
    var t, salts := TallyAfter(poll, p, ops), B.ValidSalts(StepsOf(poll, group));
    RegularFewer(poll, p, ops, ops + group);
    TallyCounts(poll, p, ops);
    NewcomersAre(poll, p, ops, group, choice);
    UnionCount(t.ballot.Keys, salts);
  }

  lemma NewcomersAre(poll: Poll, p: Proposal, ops: seq<Op>, group: seq<Op>, choice: Choice)
    requires Regular(poll, p, ops + group) && Group(poll, group, choice)
    ensures Newcomers(poll, After(poll, p, ops), group)
            == B.ValidSalts(StepsOf(poll, group)) - TallyAfter(poll, p, ops).ballot.Keys
  {
    hide Regular, B.ValidSalts, MarkOf, StepsOf, After, TallyAfter, Eligible;
    var q, b := After(poll, p, ops), TallyAfter(poll, p, ops).ballot;
    GroupSteps(poll, group, choice);
    SaltsGrow(ops, group);
    forall i | 0 <= i < |group|
      ensures group[i] in group && group[i].salt in B.ValidSalts(StepsOf(poll, group))
      ensures group[i].salt in b <==> MarkOf(poll, q, For, group[i].salt) in q.voteNullifiers
                                      || MarkOf(poll, q, Against, group[i].salt) in q.rejectNullifiers
    {
      var s := group[i].salt;
      assert group[i] in group && s in Salts(group);
      MarkTellsVoteAfter(poll, p, ops, group, s, For);
      MarkTellsVoteAfter(poll, p, ops, group, s, Against);
      assert s in b ==> b[s] == For || b[s] == Against;
    }
  }

  /** An account with room for every member's nullifier has room for any group. */
  lemma RoomyFits(poll: Poll, p: Proposal, ops: seq<Op>, group: seq<Op>, choice: Choice)
    requires Regular(poll, p, ops + group) && Group(poll, group, choice) && Roomy(poll, p)
    ensures Fits(poll, After(poll, p, ops), group)
  {
    hide NoCollision, Group, B.ValidSalts, B.Run, EncodeProposal, BaseSize, StepsOf, Fits;
    FitsMeans(poll, p, ops, group, choice);
    GroupFits(poll, p, ops, group);
    ProposalSize(p);
  }

  lemma GroupReady(poll: Poll, p: Proposal, ops: seq<Op>, todo: seq<Op>, choice: Choice)
    requires Regular(poll, p, ops + todo) && After(poll, p, ops).status == Active
    requires Pending(poll, After(poll, p, ops), todo, choice)
    ensures var rules, t, steps := RulesOf(poll, p.action), TallyAfter(poll, p, ops), StepsOf(poll, todo);
            && t.status == Active && B.Sound(rules, t)
            && B.GroupVote(steps, choice) && B.ValidSalts(steps) !! B.Voters(t.ballot, choice)
            && (Fits(poll, After(poll, p, ops), todo) ==> B.Holds(rules, t.ballot.Keys + B.ValidSalts(steps)))
  {
    hide NoCollision, Eligible, B.ValidSalts, StepOf, B.Sound, B.Run, EncodeProposal, MarkOf, FaithfulList, Fits, BaseSize;
    RegularFewer(poll, p, ops, ops + todo);
    RunSimulates(poll, p, ops);
    GroupFits(poll, p, ops, todo);
    FitsMeans(poll, p, ops, todo, choice);
    GroupSteps(poll, todo, choice);
    SaltsGrow(ops, todo);
    var t, steps := TallyAfter(poll, p, ops), StepsOf(poll, todo);
    forall s | s in B.ValidSalts(steps)
      ensures s !in B.Voters(t.ballot, choice)
    {
      var i :| 0 <= i < |todo| && todo[i].salt == s;
      assert todo[i] in todo && s in Salts(todo);
      MarkTellsVoteAfter(poll, p, ops, todo, s, choice);
    }
  }

  /** A group votes one way on an Active proposal, each of them for the first time that way. */
  lemma GroupRun(poll: Poll, p: Proposal, ops: seq<Op>, todo: seq<Op>, choice: Choice)
    requires Regular(poll, p, ops + todo) && After(poll, p, ops).status == Active
    requires Pending(poll, After(poll, p, ops), todo, choice) && Fits(poll, After(poll, p, ops), todo)
    ensures B.GroupOutcome(RulesOf(poll, p.action), TallyAfter(poll, p, ops), TallyAfter(poll, p, ops + todo),
                           B.ValidSalts(StepsOf(poll, todo)), choice)
  {
    var rules, t, steps := RulesOf(poll, p.action), TallyAfter(poll, p, ops), StepsOf(poll, todo);
    GroupReady(poll, p, ops, todo, choice);
    hide Regular, Pending, Fits, After, B.Run, StepsOf, RulesOf, B.Sound, B.Voters, B.ValidSalts, B.GroupVote, B.Holds;
    B.GroupVotes(rules, t, steps, choice);
    StepsAppend(poll, ops, todo);
    B.RunAppend(rules, B.START, StepsOf(poll, ops), steps);
  }

  lemma GroupVoteSucceeds(poll: Poll, p: Proposal, ops: seq<Op>, todo: seq<Op>, choice: Choice, k: nat)
    requires Regular(poll, p, ops + todo) && After(poll, p, ops).status == Active
    requires Pending(poll, After(poll, p, ops), todo, choice) && Fits(poll, After(poll, p, ops), todo)
    requires k < |todo| && TallyAfter(poll, p, ops + todo[..k]).status == Active
    ensures Succeeds(poll, p, ops + todo, |ops| + k)
  {
    hide Regular, Pending, Fits, After, B.Run, StepsOf, RulesOf, B.Sound, B.Voters, B.ValidSalts, B.GroupVote, Succeeds,
         B.Succeeds, B.Holds;
    var rules, t, steps := RulesOf(poll, p.action), TallyAfter(poll, p, ops), StepsOf(poll, todo);
    GroupReady(poll, p, ops, todo, choice);
    StepsAppend(poll, ops, todo[..k]);
    StepsPrefix(poll, todo, k);
    B.RunAppend(rules, B.START, StepsOf(poll, ops), steps[..k]);
    B.GroupVotesSucceed(rules, t, steps, choice, k);
    SucceedsAfter(poll, p, ops, todo, k);
  }

  /** When all of a group's votes succeed, all of the group have voted. */
  lemma AllVotesJoin(poll: Poll, p: Proposal, ops: seq<Op>, todo: seq<Op>, choice: Choice)
    requires Regular(poll, p, ops + todo) && Group(poll, todo, choice)
    requires forall k :: |ops| <= k < |ops + todo| ==> Succeeds(poll, p, ops + todo, k)
    ensures TallyAfter(poll, p, ops + todo).ballot.Keys
            == TallyAfter(poll, p, ops).ballot.Keys + B.ValidSalts(StepsOf(poll, todo))
  {
    hide Regular, Group, After, B.Run, StepsOf, RulesOf, B.ValidSalts, B.GroupVote, Succeeds, B.Succeeds;
    var rules, t, steps := RulesOf(poll, p.action), TallyAfter(poll, p, ops), StepsOf(poll, todo);
    GroupSteps(poll, todo, choice);
    StepsAppend(poll, ops, todo);
    B.RunAppend(rules, B.START, StepsOf(poll, ops), steps);
    forall k | 0 <= k < |todo|
      ensures B.Succeeds(rules, t, steps, k)
    {
      SucceedsAfter(poll, p, ops, todo, k);
    }
    B.AllSucceedJoin(rules, t, steps, choice);
  }

  lemma SucceedsAfter(poll: Poll, p: Proposal, ops: seq<Op>, todo: seq<Op>, k: nat)
    requires Regular(poll, p, ops + todo) && k < |todo|
    ensures Succeeds(poll, p, ops + todo, |ops| + k)
            <==> B.Succeeds(RulesOf(poll, p.action), TallyAfter(poll, p, ops), StepsOf(poll, todo), k)
  {
    hide Regular, After, B.Run, StepsOf, RulesOf, Succeeds, B.Succeeds;
    StepsAppend(poll, ops, todo);
    B.SucceedsAppend(RulesOf(poll, p.action), B.START, StepsOf(poll, ops), StepsOf(poll, todo), k);
    SucceedsAgrees(poll, p, ops + todo, |ops| + k);
  }

  /** A successful attempt leaves a record that its account holds. */
  lemma SuccessIsStored(poll: Poll, p: Proposal, ops: seq<Op>, op: Op)
    requires Succeeds(poll, p, ops + [op], |ops|)
    ensures |EncodeProposal(After(poll, p, ops + [op]))| <= poll.env.dataLimit as nat
  {
    hide CastVote, ExecuteRecord, EncodeProposal;
    assert (ops + [op])[..|ops|] == ops;
  }

  /** After the rest of the group has voted, everyone in the group votes that way, unless the proposal is decided. */
  lemma GroupAgrees(poll: Poll, p: Proposal, ops: seq<Op>, group: seq<Op>, choice: Choice)
    requires Regular(poll, p, ops + group) && After(poll, p, ops).status == Active
    requires Group(poll, group, choice) && Fits(poll, After(poll, p, ops), group)
    ensures var todo := NotYet(poll, After(poll, p, ops), choice, group);
            var t, t' := TallyAfter(poll, p, ops), TallyAfter(poll, p, ops + todo);
            && B.GroupOutcome(RulesOf(poll, p.action), t, t', B.ValidSalts(StepsOf(poll, todo)), choice)
            && (t'.status == Active ==> |B.Voters(t'.ballot, choice)| >= |group|)
  {
    var q := After(poll, p, ops);
    var todo := NotYet(poll, q, choice, group);
    NotYetKeeps(poll, q, choice, group);
    NotYetFits(poll, q, choice, group);
    var t, t' := TallyAfter(poll, p, ops), TallyAfter(poll, p, ops + todo);
    hide NoCollision, Eligible, Succeeds, StepOf, RulesOf, B.Sound, B.ValidSalts, MarkOf, NotYet, Fits, After, TallyAfter;
    RegularFewer(poll, p, ops + todo, ops + group);
    GroupRun(poll, p, ops, todo, choice);
    if t'.status == Active {
      GroupVoters(poll, p, ops, group, choice, todo);
    }
  }

  /** Those of a group who vote that way already need no more room. */
  lemma NotYetFits(poll: Poll, q: Proposal, choice: Choice, group: seq<Op>)
    requires Group(poll, group, choice)
    ensures Newcomers(poll, q, NotYet(poll, q, choice, group)) == Newcomers(poll, q, group)
    ensures Fits(poll, q, NotYet(poll, q, choice, group)) <==> Fits(poll, q, group)
    ensures Pending(poll, q, NotYet(poll, q, choice, group), choice)
  {
    hide MarkOf, Eligible, NotYet, EncodeProposal;
    var todo := NotYet(poll, q, choice, group);
    NotYetKeeps(poll, q, choice, group);
    forall s | s in Newcomers(poll, q, group)
      ensures s in Newcomers(poll, q, todo)
    {
      var i :| 0 <= i < |group| && group[i].salt == s && MarkOf(poll, q, For, s) !in q.voteNullifiers
               && MarkOf(poll, q, Against, s) !in q.rejectNullifiers;
      assert group[i] in group;
      var j :| 0 <= j < |todo| && todo[j] == group[i];
    }
    forall s | s in Newcomers(poll, q, todo)
      ensures s in Newcomers(poll, q, group)
    {
      var i :| 0 <= i < |todo| && todo[i].salt == s && MarkOf(poll, q, For, s) !in q.voteNullifiers
               && MarkOf(poll, q, Against, s) !in q.rejectNullifiers;
      assert todo[i] in todo;
      var j :| 0 <= j < |group| && group[j] == todo[i];
    }
  }

  lemma GroupVoters(poll: Poll, p: Proposal, ops: seq<Op>, group: seq<Op>, choice: Choice, todo: seq<Op>)
    requires Regular(poll, p, ops + group) && Group(poll, group, choice) && Group(poll, todo, choice)
    requires var q := After(poll, p, ops);
             forall op :: op in group && MarkOf(poll, q, choice, op.salt) !in ListOf(q, choice) ==> op in todo
    requires B.Voters(TallyAfter(poll, p, ops + todo).ballot, choice)
             == B.Voters(TallyAfter(poll, p, ops).ballot, choice) + B.ValidSalts(StepsOf(poll, todo))
    ensures |B.Voters(TallyAfter(poll, p, ops + todo).ballot, choice)| >= |group|
  {
    hide Regular, Eligible, StepsOf, B.ValidSalts, MarkOf, After, TallyAfter, ListOf;
    GroupSteps(poll, group, choice);
    GroupSteps(poll, todo, choice);
    SaltsGrow(ops, group);
    var voters := B.Voters(TallyAfter(poll, p, ops + todo).ballot, choice);
    forall s | s in B.ValidSalts(StepsOf(poll, group))
      ensures s in voters
    {
      var i :| 0 <= i < |group| && group[i].salt == s;
      assert group[i] in group && s in Salts(group);
      MarkTellsVoteAfter(poll, p, ops, group, s, choice);
    }
    SubsetCount(B.ValidSalts(StepsOf(poll, group)), voters);
  }
}
