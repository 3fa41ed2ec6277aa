/** What members can achieve: no Active proposal is ever stuck, the veto is exact, the last vote wins,
    and the order of different voters does not matter. */
module Power {
  import opened Wrappers
  import opened Words
  import opened Lists
  import opened Records
  import opened Borsh
  import opened Hashing
  import opened Program
  import opened Voting
  import opened Refinement
  import opened Bounds
  import opened Outcomes
  import B = Ballots

  lemma SucceedsPrefix(poll: Poll, p: Proposal, a: seq<Op>, b: seq<Op>, k: nat)
    requires k < |a|
    ensures Succeeds(poll, p, a + b, k) <==> Succeeds(poll, p, a, k)
  {
    assert (a + b)[..k] == a[..k];
  }

  lemma AfterSnoc(poll: Poll, p: Proposal, ops: seq<Op>, op: Op)
    ensures var r := Attempt(poll, After(poll, p, ops), op);
            After(poll, p, ops + [op]) == if r.Ok? then r.value.0 else After(poll, p, ops)
    ensures Succeeds(poll, p, ops + [op], |ops|) <==> Attempt(poll, After(poll, p, ops), op).Ok?
  {
    hide Attempt;
    assert (ops + [op])[..|ops|] == ops;
  }

  lemma TallyStatus(poll: Poll, p: Proposal, ops: seq<Op>)
    requires Regular(poll, p, ops)
    ensures After(poll, p, ops).status == TallyAfter(poll, p, ops).status
  {
    hide NoCollision, FaithfulList, MarksDistinct, After, TallyAfter;
    RunSimulates(poll, p, ops);
  }

  /** Never stuck: from every reachable Active proposal, any M members with distinct salts, in any order,
      finish it, without any attempt that fails, exactly when the account has room for those of them who have
      not voted yet: each of them who does not approve yet approves, and then anyone executes. */
  lemma NeverStuck(poll: Poll, p: Proposal, ops: seq<Op>, group: seq<Op>, targets: seq<AccountWithMetadata>)
    requires Regular(poll, p, ops + group)
    requires After(poll, p, ops).status == Active
    requires Group(poll, group, For) && |group| == poll.threshold as nat
    requires |targets| == p.action.targetAccountCount as nat
    ensures var q := After(poll, p, ops);
            var todo := NotYet(poll, q, For, group);
            var full := ops + todo + [Op.Execute(targets)];
            && |todo| <= poll.threshold as nat
            && (Fits(poll, q, group) <==> forall k :: |ops| <= k < |full| ==> Succeeds(poll, p, full, k))
            && (Fits(poll, q, group) ==> After(poll, p, full).status == Executed)
  {
    hide Regular, Group, Fits, Pending, After, TallyAfter, MarkOf, ListOf, NotYet, Succeeds;
    var q := After(poll, p, ops);
    var todo := NotYet(poll, q, For, group);
    NotYetKeeps(poll, q, For, group);
    NotYetFits(poll, q, For, group);
    RegularFewer(poll, p, ops + todo, ops + group);
    var full := ops + todo + [Op.Execute(targets)];
    if Fits(poll, q, group) {
      GroupExecutes(poll, p, ops, group, targets);
      forall k | |ops| <= k < |full|
        ensures Succeeds(poll, p, full, k)
      {
        if k < |ops + todo| {
          ApprovalsSucceed(poll, p, ops, todo, k - |ops|);
          SucceedsPrefix(poll, p, ops + todo, [Op.Execute(targets)], k);
        }
      }
    }
    if forall k :: |ops| <= k < |full| ==> Succeeds(poll, p, full, k) {
      forall k | |ops| <= k < |ops + todo|
        ensures Succeeds(poll, p, ops + todo, k)
      {
        SucceedsPrefix(poll, p, ops + todo, [Op.Execute(targets)], k);
      }
      assert Succeeds(poll, p, full, |ops + todo|);
      ExecutionFits(poll, p, ops, todo, targets);
    }
  }

  lemma ApprovalsSucceed(poll: Poll, p: Proposal, ops: seq<Op>, todo: seq<Op>, k: nat)
    requires Regular(poll, p, ops + todo) && After(poll, p, ops).status == Active
    requires Pending(poll, After(poll, p, ops), todo, For) && Fits(poll, After(poll, p, ops), todo) && k < |todo|
    ensures Succeeds(poll, p, ops + todo, |ops| + k)
  {
    hide Regular, Group, Fits, After, TallyAfter, MarkOf, ListOf, Succeeds, B.Voters, B.ValidSalts, B.Sound;
    RegularFewer(poll, p, ops + todo[..k], ops + todo);
    PrefixFits(poll, After(poll, p, ops), todo, For, k);
    GroupRun(poll, p, ops, todo[..k], For);
    GroupVoteSucceeds(poll, p, ops, todo, For, k);
  }

  lemma PrefixFits(poll: Poll, q: Proposal, todo: seq<Op>, choice: Choice, k: nat)
    requires Pending(poll, q, todo, choice) && k <= |todo|
    ensures Pending(poll, q, todo[..k], choice)
    ensures Fits(poll, q, todo) ==> Fits(poll, q, todo[..k])
  {
    hide EncodeProposal, MarkOf, Eligible, ListOf;
    assert forall i :: 0 <= i < k ==> todo[..k][i] == todo[i];
    SubsetCount(Newcomers(poll, q, todo[..k]), Newcomers(poll, q, todo));
  }

  /** The votes of the group leave room for the execution. */
  lemma GroupExecutes(poll: Poll, p: Proposal, ops: seq<Op>, group: seq<Op>, targets: seq<AccountWithMetadata>)
    requires Regular(poll, p, ops + group) && After(poll, p, ops).status == Active
    requires Group(poll, group, For) && |group| == poll.threshold as nat && Fits(poll, After(poll, p, ops), group)
    requires |targets| == p.action.targetAccountCount as nat
    ensures var full := ops + NotYet(poll, After(poll, p, ops), For, group) + [Op.Execute(targets)];
            && Succeeds(poll, p, full, |full| - 1)
            && After(poll, p, full).status == Executed
  {
    hide Regular, Group, Fits, After, TallyAfter, MarkOf, ListOf, NotYet, Succeeds, RulesOf, B.Voters, B.ValidSalts,
         B.Sound, StepsOf, EncodeProposal, BaseSize;
    var q := After(poll, p, ops);
    var todo := NotYet(poll, q, For, group);
    NotYetKeeps(poll, q, For, group);
    NotYetFits(poll, q, For, group);
    RegularFewer(poll, p, ops + todo, ops + group);
    GroupAgrees(poll, p, ops, group, For);
    FitsMeans(poll, p, ops, todo, For);
    var t, t', salts := TallyAfter(poll, p, ops), TallyAfter(poll, p, ops + todo), B.ValidSalts(StepsOf(poll, todo));
    SubsetCount(t'.ballot.Keys, t.ballot.Keys + salts);
    Room(poll, p);
    TallyCounts(poll, p, ops + todo);
    ExecutionSucceeds(poll, p, ops + todo, targets);
  }

  lemma Room(poll: Poll, p: Proposal)
    ensures RulesOf(poll, p.action).room == poll.env.dataLimit as int - BaseSize(p.action)
  {
  }

  /** When the group's votes and the execution succeed, the group fitted. */
  lemma ExecutionFits(poll: Poll, p: Proposal, ops: seq<Op>, todo: seq<Op>, targets: seq<AccountWithMetadata>)
    requires Regular(poll, p, ops + todo) && Group(poll, todo, For)
    requires forall k :: |ops| <= k < |ops + todo| ==> Succeeds(poll, p, ops + todo, k)
    requires Succeeds(poll, p, ops + todo + [Op.Execute(targets)], |ops + todo|)
    ensures Fits(poll, After(poll, p, ops), todo)
  {
    hide NoCollision, Group, Fits, After, TallyAfter, MarkOf, Succeeds, RulesOf, B.ValidSalts, StepsOf, EncodeProposal,
         BaseSize;
    var op := Op.Execute(targets);
    RegularFewer(poll, p, ops + todo + [op], ops + todo);
    FitsMeans(poll, p, ops, todo, For);
    AllVotesJoin(poll, p, ops, todo, For);
    TallyCounts(poll, p, ops + todo + [op]);
    ExecutionKeepsBallot(poll, p, ops + todo, op);
    SuccessIsStored(poll, p, ops + todo, op);
    Room(poll, p);
  }

  lemma ExecutionKeepsBallot(poll: Poll, p: Proposal, ops: seq<Op>, op: Op)
    requires op.Execute?
    ensures TallyAfter(poll, p, ops + [op]).ballot == TallyAfter(poll, p, ops).ballot
  {
    hide B.Voters;
    StepsAppend(poll, ops, [op]);
    assert StepsOf(poll, [op]) == [StepOf(poll, op)];
    B.RunSnoc(RulesOf(poll, p.action), B.START, StepsOf(poll, ops), StepOf(poll, op));
  }

  lemma ExecutionSucceeds(poll: Poll, p: Proposal, ops: seq<Op>, targets: seq<AccountWithMetadata>)
    requires Regular(poll, p, ops) && |EncodeProposal(After(poll, p, ops))| <= poll.env.dataLimit as nat
    requires var t := TallyAfter(poll, p, ops);
             t.status == Active && |B.Voters(t.ballot, For)| >= poll.threshold as nat
    requires |targets| == p.action.targetAccountCount as nat
    ensures Succeeds(poll, p, ops + [Op.Execute(targets)], |ops|)
    ensures After(poll, p, ops + [Op.Execute(targets)]).status == Executed
  {
    hide NoCollision, FaithfulList, MarksDistinct, EncodeProposal, BaseSize, B.Voters;
    var q, t := After(poll, p, ops), TallyAfter(poll, p, ops);
    RunSimulates(poll, p, ops);
    TallyCounts(poll, p, ops);
    ProposalSize(q);
    ProposalSize(q.(status := Executed));
    AfterSnoc(poll, p, ops, Op.Execute(targets));
  }

  /** Why the group needs room: a proposal created with fewer than 32 bytes left can never be decided, because no
      attempt on it by anyone ever succeeds. */
  lemma {:induction false} FullProposalIsStuck(poll: Poll, p: Proposal, ops: seq<Op>)
    requires Fresh(p) && poll.threshold as nat >= 1
    requires |EncodeProposal(p)| + 32 > poll.env.dataLimit as nat
    ensures After(poll, p, ops) == p
    ensures forall k :: 0 <= k < |ops| ==> !Succeeds(poll, p, ops, k)
  {
    if ops != [] {
      hide Attempt, EncodeProposal;
      var init := ops[..|ops| - 1];
      FullProposalIsStuck(poll, p, init);
      FirstAttempt(poll, p, ops[|ops| - 1]);
      forall k | 0 <= k < |ops|
        ensures !Succeeds(poll, p, ops, k)
      {
        if k < |init| {
          assert init[..k] == ops[..k] && init[k] == ops[k] && !Succeeds(poll, p, init, k);
        }
      }
    }
  }

  /** The first attempt to succeed on a proposal is a member's vote that finds 32 bytes. */
  lemma FirstAttempt(poll: Poll, p: Proposal, op: Op)
    requires Fresh(p) && poll.threshold as nat >= 1
    ensures Attempt(poll, p, op).Ok?
            <==> op.Vote? && Eligible(poll, op) && |EncodeProposal(p)| + 32 <= poll.env.dataLimit as nat
  {
    hide EncodeProposal, BaseSize, Commitment, VoteNullifier, RejectNullifier;
    ProposalSize(p);
    if op.Vote? && Eligible(poll, op) {
      AttemptOfMember(poll, p, op);
      FirstVote(poll, p, op);
    }
  }

  lemma FirstVote(poll: Poll, p: Proposal, op: Op)
    requires Fresh(p) && op.Vote? && Eligible(poll, op)
    ensures var r := CastVote(poll.env, poll.stateId, poll.threshold, |poll.memberCms|, p, op.salt, op.choice);
            r.Ok? && |EncodeProposal(r.value)| == |EncodeProposal(p)| + 32
  {
    hide EncodeProposal, BaseSize, VoteNullifier, RejectNullifier, Commitment;
    var r := CastVote(poll.env, poll.stateId, poll.threshold, |poll.memberCms|, p, op.salt, op.choice);
    ProposalSize(p);
    ProposalSize(r.value);
  }

  /** Exactly those proposals are stuck: where there is a member at all, some attempt in some run succeeds if and only if
      32 bytes are left at creation. */
  lemma StuckExactlyWhenFull(poll: Poll, p: Proposal, voter: Op)
    requires Fresh(p) && poll.threshold as nat >= 1
    requires voter.Vote? && Eligible(poll, voter)
    ensures (forall ops, k :: 0 <= k < |ops| ==> !Succeeds(poll, p, ops, k))
            <==> |EncodeProposal(p)| + 32 > poll.env.dataLimit as nat
  {
    hide Attempt, EncodeProposal, Eligible;
    if |EncodeProposal(p)| + 32 > poll.env.dataLimit as nat {
      forall ops, k | 0 <= k < |ops|
        ensures !Succeeds(poll, p, ops, k)
      {
        FullProposalIsStuck(poll, p, ops);
      }
    } else {
      FirstAttempt(poll, p, voter);
      assert [voter][..0] == [] && Succeeds(poll, p, [voter], 0);
    }
  }

  /** Why the group's salts must differ: a member's vote that fits an Active proposal succeeds exactly when no vote the
      same way stands for the member's salt, no matter by which member. */
  lemma SaltVotesOnce(poll: Poll, p: Proposal, ops: seq<Op>, op: Op)
    requires Regular(poll, p, ops + [op])
    requires After(poll, p, ops).status == Active
    requires op.Vote? && Eligible(poll, op) && Fits(poll, After(poll, p, ops), [op])
    ensures Succeeds(poll, p, ops + [op], |ops|) <==> op.salt !in StandingSalts(poll, p, ops, |ops|, op.choice)
  {
    hide Regular, Fits, After, TallyAfter, MarkOf, ListOf, Succeeds, Eligible, StandingSalts, B.Voters;
    VoteUnlessVoted(poll, p, ops, op);
    RegularFewer(poll, p, ops, ops + [op]);
    assert ops[..|ops|] == ops && (ops + [op])[|ops|] == op;
    StandingIsTheBallot(poll, p, ops, |ops|, op.choice);
    VoterMeans(TallyAfter(poll, p, ops).ballot, op.salt, op.choice);
    MarkTellsVoteAfter(poll, p, ops, [op], op.salt, op.choice);
  }

  /** How many more rejections reject an Active proposal. */
  function Missing(poll: Poll, q: Proposal): int {
    |poll.memberCms| - poll.threshold as nat + 1 - |q.rejectNullifiers|
  }

  /** Veto: among any N - M + 1 members with distinct salts there are at least as many who do not reject yet as
      rejections are missing. Exactly when the account has room for the first that many of them, all their
      rejections succeed, and the last one rejects the proposal. */
  lemma VetoSuffices(poll: Poll, p: Proposal, ops: seq<Op>, group: seq<Op>)
    requires Regular(poll, p, ops + group)
    requires After(poll, p, ops).status == Active
    requires Group(poll, group, Against) && |group| == |poll.memberCms| - poll.threshold as nat + 1
    ensures var q := After(poll, p, ops);
            var todo := NotYet(poll, q, Against, group);
            && 1 <= Missing(poll, q) <= |todo| <= |group|
            && var first := todo[..Missing(poll, q)];
               && (Fits(poll, q, first) <==> forall k :: |ops| <= k < |ops + first| ==> Succeeds(poll, p, ops + first, k))
               && (Fits(poll, q, first) ==> After(poll, p, ops + first).status == Rejected)
  {
    hide Regular, Group, Pending, Fits, After, TallyAfter, MarkOf, ListOf, NotYet, Succeeds;
    var q := After(poll, p, ops);
    var todo := NotYet(poll, q, Against, group);
    NotYetKeeps(poll, q, Against, group);
    NotYetFits(poll, q, Against, group);
    RejectionsMissing(poll, p, ops, group);
    var first := todo[..Missing(poll, q)];
    RegularFewer(poll, p, ops + first, ops + group);
    PrefixFits(poll, q, todo, Against, |first|);
    if Fits(poll, q, first) {
      RejectionsDecide(poll, p, ops, first);
      forall k | |ops| <= k < |ops + first|
        ensures Succeeds(poll, p, ops + first, k)
      {
        RejectionsSucceed(poll, p, ops, first, k - |ops|);
      }
    }
    if forall k :: |ops| <= k < |ops + first| ==> Succeeds(poll, p, ops + first, k) {
      PendingGroup(poll, q, first, Against);
      VotesFit(poll, p, ops, first, Against);
    }
  }

  /** When all of a group's votes succeed, the group fitted. */
  lemma VotesFit(poll: Poll, p: Proposal, ops: seq<Op>, todo: seq<Op>, choice: Choice)
    requires Regular(poll, p, ops + todo) && Group(poll, todo, choice) && todo != []
    requires forall k :: |ops| <= k < |ops + todo| ==> Succeeds(poll, p, ops + todo, k)
    ensures Fits(poll, After(poll, p, ops), todo)
  {
    hide NoCollision, Group, Fits, After, TallyAfter, MarkOf, Succeeds, RulesOf, B.ValidSalts, StepsOf, EncodeProposal,
         BaseSize;
    FitsMeans(poll, p, ops, todo, choice);
    AllVotesJoin(poll, p, ops, todo, choice);
    TallyCounts(poll, p, ops + todo);
    var init, last := ops + todo[..|todo| - 1], todo[|todo| - 1];
    assert ops + todo == init + [last];
    SuccessIsStored(poll, p, init, last);
    Room(poll, p);
  }

  lemma RejectionsMissing(poll: Poll, p: Proposal, ops: seq<Op>, group: seq<Op>)
    requires Regular(poll, p, ops + group) && After(poll, p, ops).status == Active
    requires Group(poll, group, Against) && |group| == |poll.memberCms| - poll.threshold as nat + 1
    ensures var q := After(poll, p, ops);
            1 <= Missing(poll, q) <= |NotYet(poll, q, Against, group)|
  {
    hide NoCollision, Group, After, TallyAfter, NotYet, EncodeProposal, B.Voters;
    RegularFewer(poll, p, ops, ops + group);
    RegularIsLawful(poll, p, ops);
    StatusMeans(poll, p, ops);
    TallyCounts(poll, p, ops);
    GroupMissing(poll, p, ops, group, Against);
  }

  lemma GroupMissing(poll: Poll, p: Proposal, ops: seq<Op>, group: seq<Op>, choice: Choice)
    requires Regular(poll, p, ops + group) && Group(poll, group, choice)
    ensures |group| <= |B.Voters(TallyAfter(poll, p, ops).ballot, choice)|
                       + |NotYet(poll, After(poll, p, ops), choice, group)|
  {
    hide Regular, Eligible, StepsOf, B.ValidSalts, MarkOf, After, TallyAfter, ListOf, NotYet, B.Voters;
    var q, voters := After(poll, p, ops), B.Voters(TallyAfter(poll, p, ops).ballot, choice);
    var todo := NotYet(poll, q, choice, group);
    NotYetKeeps(poll, q, choice, group);
    GroupSteps(poll, group, choice);
    GroupSteps(poll, todo, choice);
    SaltsGrow(ops, group);
    var all, rest := B.ValidSalts(StepsOf(poll, group)), B.ValidSalts(StepsOf(poll, todo));
    forall s | s in all
      ensures s in voters + rest
    {
      var i :| 0 <= i < |group| && group[i].salt == s;
      assert group[i] in group && s in Salts(group);
      MarkTellsVoteAfter(poll, p, ops, group, s, choice);
      VoterMeans(TallyAfter(poll, p, ops).ballot, s, choice);
    }
    SubsetCount(all, voters + rest);
    SubsetCount(rest - voters, rest);
    assert voters + rest == voters + (rest - voters);
  }

  lemma VoterMeans(b: B.Ballot, s: Bytes32, choice: Choice)
    ensures s in B.Voters(b, choice) <==> B.Entry(b, s) == Some(choice)
  {
  }

  /** With as many rejections as are missing the proposal is Rejected, and not before. */
  lemma RejectionsDecide(poll: Poll, p: Proposal, ops: seq<Op>, first: seq<Op>)
    requires Regular(poll, p, ops + first) && After(poll, p, ops).status == Active
    requires Pending(poll, After(poll, p, ops), first, Against) && Fits(poll, After(poll, p, ops), first)
    ensures After(poll, p, ops + first).status
            == if |first| >= Missing(poll, After(poll, p, ops)) then Rejected else Active
  {
    hide Regular, Fits, Pending, After, TallyAfter, B.ValidSalts, B.Voters, StepsOf, B.GroupVote;
    var q, t, t' := After(poll, p, ops), TallyAfter(poll, p, ops), TallyAfter(poll, p, ops + first);
    var voters, salts := B.Voters(t.ballot, Against), B.ValidSalts(StepsOf(poll, first));
    GroupRun(poll, p, ops, first, Against);
    GroupReady(poll, p, ops, first, Against);
    PendingGroup(poll, q, first, Against);
    GroupSteps(poll, first, Against);
    RegularFewer(poll, p, ops, ops + first);
    TallyCounts(poll, p, ops);
    TallyStatus(poll, p, ops + first);
    SubsetCount(B.Voters(t'.ballot, Against), voters + salts);
  }

  lemma PendingGroup(poll: Poll, q: Proposal, todo: seq<Op>, choice: Choice)
    requires Pending(poll, q, todo, choice)
    ensures Group(poll, todo, choice)
  {
  }

  lemma RejectionsSucceed(poll: Poll, p: Proposal, ops: seq<Op>, first: seq<Op>, k: nat)
    requires Regular(poll, p, ops + first) && After(poll, p, ops).status == Active
    requires Pending(poll, After(poll, p, ops), first, Against) && Fits(poll, After(poll, p, ops), first)
    requires k < |first| <= Missing(poll, After(poll, p, ops))
    ensures Succeeds(poll, p, ops + first, |ops| + k)
  {
    hide Regular, Pending, Fits, After, TallyAfter, Succeeds;
    RegularFewer(poll, p, ops + first[..k], ops + first);
    PrefixFits(poll, After(poll, p, ops), first, Against, k);
    RejectionsDecide(poll, p, ops, first[..k]);
    TallyStatus(poll, p, ops + first[..k]);
    GroupVoteSucceeds(poll, p, ops, first, Against, k);
  }

  /** A successful rejection decides the proposal exactly when more than N - M rejections then stand. */
  lemma VetoIsExact(poll: Poll, p: Proposal, ops: seq<Op>, op: Op)
    requires Regular(poll, p, ops + [op])
    requires op.Vote? && op.choice == Against && Succeeds(poll, p, ops + [op], |ops|)
    ensures var q := After(poll, p, ops + [op]);
            && (q.status == Rejected <==> |q.rejectNullifiers| > |poll.memberCms| - poll.threshold as nat)
            && (q.status == Active <==> |q.rejectNullifiers| <= |poll.memberCms| - poll.threshold as nat)
  {
    hide NoCollision, EncodeProposal;
    RegularIsLawful(poll, p, ops + [op]);
    StatusMeans(poll, p, ops + [op]);
    AfterSnoc(poll, p, ops, op);
  }

  // Resuming, and changing one's mind

  /** The SDK's has_voted: a salt's approval mark is recorded. */
  predicate HasVoted(env: Env, stateId: Bytes32, p: Proposal, salt: Bytes32) {
    VoteNullifier(env, salt, stateId, p.index, p.actionHash) in p.voteNullifiers
  }

  /** On an Active proposal, a member can approve exactly when has_voted says no and the account has room
      for one more nullifier, which a member who retracts a rejection does not need. */
  lemma ApproveUnlessVoted(poll: Poll, p: Proposal, ops: seq<Op>, op: Op)
    requires Regular(poll, p, ops + [op])
    requires After(poll, p, ops).status == Active
    requires op.Vote? && op.choice == For && Eligible(poll, op)
    ensures var q := After(poll, p, ops);
            var more := if MarkOf(poll, q, Against, op.salt) in q.rejectNullifiers then 0 else 32;
            Succeeds(poll, p, ops + [op], |ops|)
            <==> !HasVoted(poll.env, poll.stateId, q, op.salt) && |EncodeProposal(q)| + more <= poll.env.dataLimit as nat
  {
    hide Regular, After, EncodeProposal, Succeeds, VoteNullifier, RejectNullifier;
    VoteUnlessVoted(poll, p, ops, op);
    if !HasVoted(poll.env, poll.stateId, After(poll, p, ops), op.salt) {
      OneFits(poll, After(poll, p, ops), op);
    }
  }

  lemma OneFits(poll: Poll, q: Proposal, op: Op)
    requires op.Vote? && MarkOf(poll, q, op.choice, op.salt) !in ListOf(q, op.choice)
    ensures Fits(poll, q, [op])
            <==> |EncodeProposal(q)| + (if MarkOf(poll, q, Other(op.choice), op.salt) in ListOf(q, Other(op.choice)) then 0
                                        else 32) <= poll.env.dataLimit as nat
  {
    hide MarkOf, EncodeProposal;
    assert [op][0] == op;
    if MarkOf(poll, q, Other(op.choice), op.salt) in ListOf(q, Other(op.choice)) {
      assert Newcomers(poll, q, [op]) == {};
    } else {
      assert Newcomers(poll, q, [op]) == {op.salt};
    }
  }

  /** A member's attempt on an Active proposal succeeds exactly when it does not repeat the member's vote and fits. */
  lemma VoteUnlessVoted(poll: Poll, p: Proposal, ops: seq<Op>, op: Op)
    requires Regular(poll, p, ops + [op])
    requires After(poll, p, ops).status == Active
    requires op.Vote? && Eligible(poll, op)
    ensures var q := After(poll, p, ops);
            Succeeds(poll, p, ops + [op], |ops|)
            <==> MarkOf(poll, q, op.choice, op.salt) !in ListOf(q, op.choice) && Fits(poll, q, [op])
  {
    var q := After(poll, p, ops);
    assert (ops + [op])[|ops|] == op;
    hide Regular, Fits, After, TallyAfter, MarkOf, ListOf, Succeeds, Eligible;
    assert Group(poll, [op], op.choice);
    if MarkOf(poll, q, op.choice, op.salt) in ListOf(q, op.choice) {
      RepeatFails(poll, p, ops, op);
    } else if Fits(poll, q, [op]) {
      TallyStatus(poll, p, ops) by { RegularFewer(poll, p, ops, ops + [op]); }
      assert ops + [op][..0] == ops;
      GroupVoteSucceeds(poll, p, ops, [op], op.choice, 0);
    } else if Succeeds(poll, p, ops + [op], |ops|) {
      VotesFit(poll, p, ops, [op], op.choice);
    }
  }

  lemma RepeatFails(poll: Poll, p: Proposal, ops: seq<Op>, op: Op)
    requires op.Vote? && MarkOf(poll, After(poll, p, ops), op.choice, op.salt) in ListOf(After(poll, p, ops), op.choice)
    ensures !Succeeds(poll, p, ops + [op], |ops|)
  {
    hide EncodeProposal, VoteNullifier, RejectNullifier;
    AfterSnoc(poll, p, ops, op);
  }

  lemma {:induction false} LastAttemptAgrees(poll: Poll, ops: seq<Op>, s: Bytes32)
    ensures B.LastAttempt(StepsOf(poll, ops), s) == LastChoice(poll, ops, s)
  {
    if ops != [] {
      hide Eligible;
      StepsPrefix(poll, ops, |ops| - 1);
      LastAttemptAgrees(poll, ops[..|ops| - 1], s);
    }
  }

  /** What the member behind a salt last tried to vote, whether or not the attempt succeeded. */
  function LastChoice(poll: Poll, ops: seq<Op>, s: Bytes32): Option<Choice> {
    if ops == [] then None
    else
      var last := ops[|ops| - 1];
      if last.Vote? && Eligible(poll, last) && last.salt == s then Some(last.choice)
      else LastChoice(poll, ops[..|ops| - 1], s)
  }

  /** The member's last attempt repeated the member's vote, or fitted. */
  predicate LastFits(poll: Poll, p: Proposal, ops: seq<Op>, s: Bytes32) {
    if ops == [] then true
    else
      var init, last := ops[..|ops| - 1], ops[|ops| - 1];
      if last.Vote? && Eligible(poll, last) && last.salt == s then
        var q := After(poll, p, init);
        MarkOf(poll, q, last.choice, s) in ListOf(q, last.choice) || Fits(poll, q, [last])
      else LastFits(poll, p, init, s)
  }

  lemma {:induction false} LastFitsAgrees(poll: Poll, p: Proposal, ops: seq<Op>, s: Bytes32)
    requires Regular(poll, p, ops)
    ensures LastFits(poll, p, ops, s) <==> B.LastFits(RulesOf(poll, p.action), StepsOf(poll, ops), s)
  {
    if ops != [] {
      hide Regular, After, Fits, MarkOf, ListOf, RulesOf, Eligible, B.LastFits, StepsOf, B.Entry;
      var init, last := ops[..|ops| - 1], ops[|ops| - 1];
      assert ops == init + [last];
      RegularFewer(poll, p, init, ops);
      LastFitsAgrees(poll, p, init, s);
      StepsAppend(poll, init, [last]);
      assert StepsOf(poll, [last]) == [StepOf(poll, last)] by { OneStep(poll, last); }
      B.LastFitsSnoc(RulesOf(poll, p.action), StepsOf(poll, init), StepOf(poll, last), s);
      if last.Vote? && Eligible(poll, last) && last.salt == s {
        LastFitsNow(poll, p, init, last);
      }
    }
  }

  lemma OneStep(poll: Poll, op: Op)
    ensures StepsOf(poll, [op]) == [StepOf(poll, op)]
  {
  }

  lemma LastFitsNow(poll: Poll, p: Proposal, ops: seq<Op>, op: Op)
    requires Regular(poll, p, ops + [op]) && op.Vote? && Eligible(poll, op)
    ensures var q, b := After(poll, p, ops), TallyAfter(poll, p, ops).ballot;
            && (MarkOf(poll, q, op.choice, op.salt) in ListOf(q, op.choice) <==> B.Entry(b, op.salt) == Some(op.choice))
            && (Fits(poll, q, [op]) <==> 32 * |b[op.salt := op.choice]| <= RulesOf(poll, p.action).room)
  {
    hide Regular, After, Fits, MarkOf, ListOf, RulesOf, Eligible, TallyAfter;
    var b := TallyAfter(poll, p, ops).ballot;
    assert (ops + [op])[|ops|] == op;
    assert op.salt in Salts(ops + [op]);
    MarkTellsVoteAfter(poll, p, ops, [op], op.salt, op.choice);
    assert Group(poll, [op], op.choice);
    FitsMeans(poll, p, ops, [op], op.choice);
    assert StepsOf(poll, [op]) == [StepOf(poll, op)];
    OneSalt(StepOf(poll, op)) by { assert Eligible(poll, op); }
    B.ParticipantsAfter(b, op.salt, op.choice);
  }

  lemma OneSalt(step: B.Step)
    requires step.Vote? && step.valid
    ensures B.ValidSalts([step]) == {step.salt}
  {
    assert [step][0] == step;
  }

  /** Last vote wins: on a proposal that is still Active, a member's mark is in exactly the list of the
      member's last attempt, so a duplicate vote that fails never changes the outcome. The one exception
      is a last attempt that found the account full. */
  lemma LastVoteWins(poll: Poll, p: Proposal, ops: seq<Op>, s: Bytes32)
    requires Regular(poll, p, ops)
    requires After(poll, p, ops).status == Active
    requires s in Salts(ops)
    ensures var q := After(poll, p, ops);
            LastFits(poll, p, ops, s) <==> forall choice ::
              MarkOf(poll, q, choice, s) in ListOf(q, choice) <==> LastChoice(poll, ops, s) == Some(choice)
  {
    hide NoCollision, After, MarkOf, ListOf, EncodeProposal, BaseSize, StepsOf, LastChoice, LastFits, TallyAfter;
    var q, b := After(poll, p, ops), TallyAfter(poll, p, ops).ballot;
    TallyStatus(poll, p, ops);
    B.LastAttemptWins(RulesOf(poll, p.action), StepsOf(poll, ops), s) by { TallyIsRun(poll, p, ops); }
    TallyIsRun(poll, p, ops);
    LastAttemptAgrees(poll, ops, s);
    LastFitsAgrees(poll, p, ops, s);
    assert ops + [] == ops;
    forall choice
      ensures MarkOf(poll, q, choice, s) in ListOf(q, choice) <==> B.Entry(b, s) == Some(choice)
    {
      MarkTellsVoteAfter(poll, p, ops, [], s, choice);
    }
    EntryByChoices(B.Entry(b, s), LastChoice(poll, ops, s));
  }

  lemma TallyIsRun(poll: Poll, p: Proposal, ops: seq<Op>)
    ensures TallyAfter(poll, p, ops) == B.Run(RulesOf(poll, p.action), B.START, StepsOf(poll, ops))
  {
  }

  lemma EntryByChoices(a: Option<Choice>, b: Option<Choice>)
    ensures a == b <==> forall choice :: a == Some(choice) <==> b == Some(choice)
  {
    if forall choice :: a == Some(choice) <==> b == Some(choice) {
      assert a.Some? ==> (a == Some(a.value) <==> b == Some(a.value));
      assert b.Some? ==> (a == Some(b.value) <==> b == Some(b.value));
    }
  }

  /** Where the account has room for every member, the last vote always wins. */
  lemma {:induction false} RoomyLastFits(poll: Poll, p: Proposal, ops: seq<Op>, s: Bytes32)
    requires Regular(poll, p, ops) && Roomy(poll, p)
    ensures LastFits(poll, p, ops, s)
  {
    if ops != [] {
      hide Regular, Roomy, After, Fits, MarkOf, ListOf, Eligible;
      var init, last := ops[..|ops| - 1], ops[|ops| - 1];
      assert ops == init + [last];
      RegularFewer(poll, p, init, ops);
      RoomyLastFits(poll, p, init, s);
      if last.Vote? && Eligible(poll, last) {
        assert Group(poll, [last], last.choice);
        RoomyFits(poll, p, init, [last], last.choice);
      }
    }
  }

  /** Participation: a salt's first successful vote lengthens the two lists together by one, a switch
      leaves their total as it is, and nothing ever shortens it. */
  lemma ParticipationGrows(poll: Poll, p: Proposal, ops: seq<Op>, op: Op)
    requires Regular(poll, p, ops + [op])
    ensures var q, q' := After(poll, p, ops), After(poll, p, ops + [op]);
            var before, after := |q.voteNullifiers| + |q.rejectNullifiers|, |q'.voteNullifiers| + |q'.rejectNullifiers|;
            var first := op.Vote? && MarkOf(poll, q, For, op.salt) !in q.voteNullifiers
                         && MarkOf(poll, q, Against, op.salt) !in q.rejectNullifiers;
            after == before + if first && Succeeds(poll, p, ops + [op], |ops|) then 1 else 0
  {
    hide NoCollision, After, MarkOf, EncodeProposal, Succeeds, FaithfulList, B.Run, B.Next, RulesOf, StepOf;
    var q, t := After(poll, p, ops), TallyAfter(poll, p, ops);
    RegularFewer(poll, p, ops, ops + [op]);
    TallyCounts(poll, p, ops);
    TallyCounts(poll, p, ops + [op]);
    StepsAppend(poll, ops, [op]);
    assert StepsOf(poll, [op]) == [StepOf(poll, op)];
    B.RunSnoc(RulesOf(poll, p.action), B.START, StepsOf(poll, ops), StepOf(poll, op));
    B.Participation(RulesOf(poll, p.action), t, StepOf(poll, op));
    SucceedsAgrees(poll, p, ops + [op], |ops|);
    assert StepOf(poll, op).Vote? <==> op.Vote? by { StepKind(poll, op); }
    if op.Vote? {
      StepKind(poll, op);
      assert (ops + [op])[|ops|] == op;
      assert op.salt in Salts(ops + [op]);
      MarkTellsVoteAfter(poll, p, ops, [op], op.salt, For);
      MarkTellsVoteAfter(poll, p, ops, [op], op.salt, Against);
      assert op.salt in t.ballot ==> t.ballot[op.salt] == For || t.ballot[op.salt] == Against;
    }
  }

  lemma StepKind(poll: Poll, op: Op)
    ensures StepOf(poll, op).Vote? <==> op.Vote?
    ensures op.Vote? ==> StepOf(poll, op).salt == op.salt
  {
  }
}
