/** What holds of every run on one proposal as long as its members' commitments do not collide, even if nullifiers do:
    the lists never outnumber the members, so the arithmetic is safe and the status means what it says. */
module Bounds {
  import opened Words
  import opened Lists
  import opened Records
  import opened Borsh
  import opened Hashing
  import opened Program
  import opened Voting
  import opened Refinement
  import B = Ballots

  /** A run of attempts on a fresh proposal of a well-formed multisig, whose commitments do not collide. */
  ghost predicate Lawful(poll: Poll, p: Proposal, ops: seq<Op>) {
    Fresh(p) && 1 <= poll.threshold as nat <= |poll.memberCms| && CommitmentsDistinct(poll, ops)
  }

  lemma LawfulFewer(poll: Poll, p: Proposal, fewer: seq<Op>, ops: seq<Op>)
    requires Lawful(poll, p, ops) && forall op :: op in fewer && op.Vote? ==> op in ops
    ensures Lawful(poll, p, fewer)
  {
    CommitmentsDistinctFewer(poll, fewer, ops);
  }

  /** Active: M can still be met. Rejected: it cannot, and was not. Executed: it was. */
  predicate StatusTells(q: Proposal, threshold: nat, memberCount: nat) {
    var approvals, rejections := |q.voteNullifiers|, |q.rejectNullifiers|;
    && (q.status == Active ==> memberCount - rejections >= threshold)
    && (q.status == Rejected ==> memberCount - rejections < threshold && approvals < threshold)
    && (q.status == Executed ==> approvals >= threshold && rejections <= memberCount - threshold)
  }

  // A salt behind every nullifier

  /** Each nullifier belongs to one salt that has voted that way; which of the salts, if they collide, does not matter. */
  ghost predicate Backed(poll: Poll, q: Proposal, b: B.Ballot) {
    && FaithfulList(poll, q, b, For) && MarksDistinctOn(poll, q, For, B.Voters(b, For))
    && FaithfulList(poll, q, b, Against) && MarksDistinctOn(poll, q, Against, B.Voters(b, Against))
  }

  lemma BackedCounts(poll: Poll, q: Proposal, b: B.Ballot)
    requires Backed(poll, q, b)
    ensures |q.voteNullifiers| == |B.Voters(b, For)| && |q.rejectNullifiers| == |B.Voters(b, Against)|
    ensures |q.voteNullifiers| + |q.rejectNullifiers| == |b|
  {
    hide FaithfulList, MarksDistinctOn, B.Voters;
    ListCounts(poll, q, b, For);
    ListCounts(poll, q, b, Against);
    B.VotersPartition(b);
  }

  /** A vote also forgets whoever else the retracted nullifier stood for. */
  function Recast(poll: Poll, q: Proposal, b: B.Ballot, s: Bytes32, choice: Choice): B.Ballot {
    (map t | t in b && (b[t] == choice || MarkOf(poll, q, Other(choice), t) != MarkOf(poll, q, Other(choice), s)) :: b[t])
    [s := choice]
  }

  lemma RecastVoters(poll: Poll, q: Proposal, b: B.Ballot, s: Bytes32, choice: Choice)
    ensures var b', other := Recast(poll, q, b, s, choice), Other(choice);
            && b'.Keys <= b.Keys + {s}
            && B.Voters(b', choice) == B.Voters(b, choice) + {s}
            && B.Voters(b', other) == set t | t in B.Voters(b, other) && MarkOf(poll, q, other, t) != MarkOf(poll, q, other, s)
  {
    hide MarkOf;
  }

  lemma PushIsBacked(poll: Poll, q: Proposal, b: B.Ballot, s: Bytes32, choice: Choice, q': Proposal)
    requires FaithfulList(poll, q, b, choice) && MarksDistinctOn(poll, q, choice, B.Voters(b, choice))
    requires MarkOf(poll, q, choice, s) !in ListOf(q, choice)
    requires SameContent(q, q') && ListOf(q', choice) == ListOf(q, choice) + [MarkOf(poll, q, choice, s)]
    ensures var b' := Recast(poll, q, b, s, choice);
            FaithfulList(poll, q', b', choice) && MarksDistinctOn(poll, q', choice, B.Voters(b', choice))
  {
    var mark, voters := MarkOf(poll, q, choice, s), B.Voters(b, choice);
    RecastVoters(poll, q, b, s, choice);
    MarksIgnoreVotes(poll, q, q');
    hide MarkOf, Mark, B.Voters, Recast;
    assert SetOf(ListOf(q', choice)) == SetOf(ListOf(q, choice)) + {mark};
    assert mark !in SetOf(ListOf(q, choice));
    assert forall t :: t in voters ==> MarkOf(poll, q, choice, t) in MarksOf(poll, q, choice, voters);
  }

  lemma RetractIsBacked(poll: Poll, q: Proposal, b: B.Ballot, s: Bytes32, choice: Choice, q': Proposal)
    requires FaithfulList(poll, q, b, Other(choice)) && MarksDistinctOn(poll, q, Other(choice), B.Voters(b, Other(choice)))
    requires SameContent(q, q')
    requires ListOf(q', Other(choice)) == Without(ListOf(q, Other(choice)), MarkOf(poll, q, Other(choice), s))
    ensures var b', other := Recast(poll, q, b, s, choice), Other(choice);
            FaithfulList(poll, q', b', other) && MarksDistinctOn(poll, q', other, B.Voters(b', other))
  {
    var other := Other(choice);
    var mark := MarkOf(poll, q, other, s);
    RecastVoters(poll, q, b, s, choice);
    MarksIgnoreVotes(poll, q, q');
    WithoutMembers(ListOf(q, other), mark);
    WithoutNoDup(ListOf(q, other), mark);
    hide Mark, MarkOf, Without, B.Voters, Recast;
    assert SetOf(ListOf(q', other)) == SetOf(ListOf(q, other)) - {mark};
  }

  /** A successful vote in terms of the two lists. */
  lemma VoteEffect(poll: Poll, q: Proposal, op: Op)
    requires op.Vote? && Attempt(poll, q, op).Ok?
    ensures var q' := Attempt(poll, q, op).value.0;
            var mark, retracted := MarkOf(poll, q, op.choice, op.salt), MarkOf(poll, q, Other(op.choice), op.salt);
            && q.status == Active && SameContent(q, q') && Eligible(poll, op)
            && mark !in ListOf(q, op.choice)
            && ListOf(q', op.choice) == ListOf(q, op.choice) + [mark]
            && ListOf(q', Other(op.choice)) == Without(ListOf(q, Other(op.choice)), retracted)
            && (|q'.rejectNullifiers| <= |poll.memberCms| ==>
                  q'.status == if op.choice == Against && |poll.memberCms| - |q'.rejectNullifiers| < poll.threshold as nat
                               then Rejected else Active)
  {
    hide EncodeProposal, VoteNullifier, RejectNullifier, Without, Commitment;
  }

  lemma VoteIsBacked(poll: Poll, q: Proposal, b: B.Ballot, op: Op)
    requires Backed(poll, q, b) && op.Vote? && Attempt(poll, q, op).Ok?
    ensures Backed(poll, Attempt(poll, q, op).value.0, Recast(poll, q, b, op.salt, op.choice))
  {
    hide Attempt, MarkOf, FaithfulList, MarksDistinctOn, B.Voters, Recast, Eligible, Without;
    var q' := Attempt(poll, q, op).value.0;
    VoteEffect(poll, q, op);
    PushIsBacked(poll, q, b, op.salt, op.choice, q');
    RetractIsBacked(poll, q, b, op.salt, op.choice, q');
  }

  lemma VoteTells(poll: Poll, q: Proposal, b: B.Ballot, op: Op)
    requires Backed(poll, q, b) && StatusTells(q, poll.threshold as nat, |poll.memberCms|)
    requires op.Vote? && Attempt(poll, q, op).Ok? && |Recast(poll, q, b, op.salt, op.choice)| <= |poll.memberCms|
    ensures StatusTells(Attempt(poll, q, op).value.0, poll.threshold as nat, |poll.memberCms|)
  {
    hide Attempt, MarkOf, Backed, B.Voters, Recast, Eligible, Without;
    var q', b' := Attempt(poll, q, op).value.0, Recast(poll, q, b, op.salt, op.choice);
    VoteEffect(poll, q, op);
    VoteIsBacked(poll, q, b, op);
    BackedCounts(poll, q, b);
    BackedCounts(poll, q', b');
    if op.choice == For {
      RecastVoters(poll, q, b, op.salt, op.choice);
      SubsetCount(B.Voters(b', Against), B.Voters(b, Against));
    }
  }

  lemma ExecuteEffect(poll: Poll, q: Proposal, op: Op)
    requires op.Execute? && Attempt(poll, q, op).Ok?
    ensures Attempt(poll, q, op).value.0 == q.(status := Executed)
    ensures q.status == Active && |q.voteNullifiers| >= poll.threshold as nat
  {
    hide EncodeProposal, Forward;
  }

  lemma ExecuteIsBacked(poll: Poll, q: Proposal, b: B.Ballot)
    requires Backed(poll, q, b)
    ensures Backed(poll, q.(status := Executed), b)
  {
    hide Mark, B.Voters;
    MarksIgnoreVotes(poll, q, q.(status := Executed));
  }

  /** One attempt, whether or not it succeeds. */
  lemma AttemptKeeps(poll: Poll, h: History, b: B.Ballot, op: Op) returns (b': B.Ballot)
    requires Backed(poll, h.p, b) && StatusTells(h.p, poll.threshold as nat, |poll.memberCms|)
    requires var more := if op.Vote? && Eligible(poll, op) then {op.salt} else {};
             |b.Keys + more| <= |poll.memberCms|
    ensures var q := ApplyOp(poll, h, op).p;
            && Backed(poll, q, b') && StatusTells(q, poll.threshold as nat, |poll.memberCms|) && SameContent(h.p, q)
    ensures b'.Keys <= b.Keys + if op.Vote? && Eligible(poll, op) then {op.salt} else {}
  {
    hide Attempt, MarkOf, Backed, Recast, Eligible, ListOf;
    b' := b;
    if Attempt(poll, h.p, op).Ok? {
      if op.Vote? {
        b' := Recast(poll, h.p, b, op.salt, op.choice);
        VoteEffect(poll, h.p, op);
        VoteIsBacked(poll, h.p, b, op);
        RecastVoters(poll, h.p, b, op.salt, op.choice);
        SubsetCount(b'.Keys, b.Keys + {op.salt});
        VoteTells(poll, h.p, b, op);
      } else {
        ExecuteEffect(poll, h.p, op);
        ExecuteIsBacked(poll, h.p, b);
        ListsFit(poll, h.p, b);
      }
    }
  }

  lemma ListsFit(poll: Poll, q: Proposal, b: B.Ballot)
    requires Backed(poll, q, b) && |b.Keys| <= |poll.memberCms|
    ensures |q.voteNullifiers| + |q.rejectNullifiers| <= |poll.memberCms|
  {
    hide Backed;
    BackedCounts(poll, q, b);
  }

  /** In every reachable state distinct members' salts stand behind the nullifiers. */
  lemma {:induction false} RunKeeps(poll: Poll, p: Proposal, ops: seq<Op>) returns (b: B.Ballot)
    requires Lawful(poll, p, ops)
    ensures var q := After(poll, p, ops);
            && Backed(poll, q, b) && StatusTells(q, poll.threshold as nat, |poll.memberCms|) && SameContent(p, q)
    ensures b.Keys <= B.ValidSalts(StepsOf(poll, ops)) && |b.Keys| <= |poll.memberCms|
  {
    if ops == [] {
      b := map[];
    } else {
      hide CommitmentsDistinct, Backed, ApplyOp, StatusTells, Eligible, B.ValidSalts, StepsOf;
      var init, last := ops[..|ops| - 1], ops[|ops| - 1];
      LawfulFewer(poll, p, init, ops);
      var b0 := RunKeeps(poll, p, init);
      VotersGrow(poll, ops);
      ElectorateBound(poll, ops);
      var more := if last.Vote? && Eligible(poll, last) then {last.salt} else {};
      SubsetCount(b0.Keys + more, B.ValidSalts(StepsOf(poll, ops)));
      b := AttemptKeeps(poll, RunOps(poll, History(p, []), init), b0, last);
      SubsetCount(b.Keys, B.ValidSalts(StepsOf(poll, ops)));
    }
  }

  lemma VotersGrow(poll: Poll, ops: seq<Op>)
    requires ops != []
    ensures B.ValidSalts(StepsOf(poll, ops[..|ops| - 1])) <= B.ValidSalts(StepsOf(poll, ops))
    ensures var last := ops[|ops| - 1];
            last.Vote? && Eligible(poll, last) ==> last.salt in B.ValidSalts(StepsOf(poll, ops))
  {
    hide Eligible;
    var steps := StepsOf(poll, ops);
    StepsPrefix(poll, ops, |ops| - 1);
    B.ValidSaltsPrefix(steps, |ops| - 1);
    assert steps[|ops| - 1] == StepOf(poll, ops[|ops| - 1]);
  }

  /** In every reachable state the lists are small enough for the arithmetic and for the account, and the status says
      exactly whether the threshold can still be reached, cannot, or was reached. */
  lemma StatusMeans(poll: Poll, p: Proposal, ops: seq<Op>)
    requires Lawful(poll, p, ops)
    ensures var q := After(poll, p, ops);
            && |q.voteNullifiers| + |q.rejectNullifiers| <= |poll.memberCms|
            && NoDup(q.voteNullifiers) && NoDup(q.rejectNullifiers)
            && StatusTells(q, poll.threshold as nat, |poll.memberCms|)
            && |EncodeProposal(q)| == |EncodeProposal(p)| + 32 * (|q.voteNullifiers| + |q.rejectNullifiers|)
  {
    hide CommitmentsDistinct, EncodeProposal, BaseSize, MarksDistinctOn, After, StatusTells, NoDup;
    var b := RunKeeps(poll, p, ops);
    ListsFit(poll, After(poll, p, ops), b);
    BackedNoDup(poll, After(poll, p, ops), b);
    ProposalSize(p);
    ProposalSize(After(poll, p, ops));
  }

  lemma BackedNoDup(poll: Poll, q: Proposal, b: B.Ballot)
    requires Backed(poll, q, b)
    ensures NoDup(q.voteNullifiers) && NoDup(q.rejectNullifiers)
  {
    hide MarksDistinctOn, NoDup;
  }

  // Builds

  function Built(poll: Poll, arith: Arith): Poll {
    poll.(env := poll.env.(arith := arith))
  }

  /** A rejection that is not a duplicate is one of at most N. */
  lemma RejectionFits(poll: Poll, p: Proposal, ops: seq<Op>, op: Op)
    requires Lawful(poll, p, ops + [op])
    requires op.Vote? && op.choice == Against && Eligible(poll, op)
    requires var q := After(poll, p, ops); MarkOf(poll, q, Against, op.salt) !in q.rejectNullifiers
    ensures |After(poll, p, ops).rejectNullifiers| + 1 <= |poll.memberCms|
  {
    hide CommitmentsDistinct, After, MarkOf, Eligible, B.ValidSalts, StepsOf, Recast, FaithfulList, MarksDistinctOn, B.Voters;
    var q, full := After(poll, p, ops), ops + [op];
    assert full[..|full| - 1] == ops;
    LawfulFewer(poll, p, ops, full);
    var b := RunKeeps(poll, p, ops);
    VotersGrow(poll, full);
    ElectorateBound(poll, full);
    var q' := q.(rejectNullifiers := q.rejectNullifiers + [MarkOf(poll, q, Against, op.salt)]);
    var b' := Recast(poll, q, b, op.salt, Against);
    PushIsBacked(poll, q, b, op.salt, Against, q');
    ListCounts(poll, q', b', Against);
    RecastVoters(poll, q, b, op.salt, Against);
    B.VotersPartition(b');
    SubsetCount(B.Voters(b', Against), B.ValidSalts(StepsOf(poll, full)));
  }

  /** Without underflow, a checked and a wrapping build do the same. */
  lemma AttemptIgnoresBuild(poll: Poll, q: Proposal, op: Op, arith: Arith)
    requires op.Vote? && op.choice == Against && Eligible(poll, op)
             && MarkOf(poll, q, Against, op.salt) !in q.rejectNullifiers
             ==> |q.rejectNullifiers| + 1 <= |poll.memberCms|
    ensures Attempt(Built(poll, arith), q, op) == Attempt(poll, q, op)
  {
    hide EncodeProposal, NullifierPreimage, MemberPreimage, Without, Forward;
  }

  /** Arithmetic safety over whole runs: the unchecked subtraction and the checked one never differ. */
  lemma {:induction false} RunIgnoresBuild(poll: Poll, p: Proposal, ops: seq<Op>, arith: Arith)
    requires Lawful(poll, p, ops)
    ensures RunOps(Built(poll, arith), History(p, []), ops) == RunOps(poll, History(p, []), ops)
  {
    if ops != [] {
      hide CommitmentsDistinct, Attempt, Eligible, MarkOf;
      var init, last := ops[..|ops| - 1], ops[|ops| - 1];
      assert ops == init + [last];
      LawfulFewer(poll, p, init, ops);
      RunIgnoresBuild(poll, p, init, arith);
      var q := After(poll, p, init);
      if last.Vote? && last.choice == Against && Eligible(poll, last)
         && MarkOf(poll, q, Against, last.salt) !in q.rejectNullifiers {
        RejectionFits(poll, p, init, last);
      }
      AttemptIgnoresBuild(poll, q, last, arith);
    }
  }
}
