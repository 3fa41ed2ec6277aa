/** Order and calls: which orders do not matter, and what an execution emits. */
module Executions {
  import opened Words
  import opened Lists
  import opened Records
  import opened Borsh
  import opened Hashing
  import opened Program
  import opened Voting
  import opened Refinement
  import opened Bounds
  import opened Outcomes
  import opened Power
  import B = Ballots

  // Order of voters

  lemma FaithfulListsAgree(poll: Poll, q: Proposal, q': Proposal, b: B.Ballot, choice: Choice)
    requires SameContent(q, q') && FaithfulList(poll, q, b, choice) && FaithfulList(poll, q', b, choice)
    ensures multiset(ListOf(q, choice)) == multiset(ListOf(q', choice))
  {
    MarksIgnoreVotes(poll, q, q');
    NoDupMultiset(ListOf(q, choice));
    NoDupMultiset(ListOf(q', choice));
  }

  /** Commutation: votes with two different salts lead to the same ballot and status, and to lists that
      are permutations of each other, whenever both succeed in both orders. */
  lemma VotesCommute(poll: Poll, p: Proposal, ops: seq<Op>, x: Op, y: Op)
    requires Regular(poll, p, ops + [x, y])
    requires x.Vote? && y.Vote? && x.salt != y.salt
    requires Succeeds(poll, p, ops + [x, y], |ops|) && Succeeds(poll, p, ops + [x, y], |ops| + 1)
    requires Succeeds(poll, p, ops + [y, x], |ops|) && Succeeds(poll, p, ops + [y, x], |ops| + 1)
    ensures TallyAfter(poll, p, ops + [x, y]) == TallyAfter(poll, p, ops + [y, x])
    ensures var q, q' := After(poll, p, ops + [x, y]), After(poll, p, ops + [y, x]);
            && SameContent(q, q') && q.status == q'.status
            && multiset(q.voteNullifiers) == multiset(q'.voteNullifiers)
            && multiset(q.rejectNullifiers) == multiset(q'.rejectNullifiers)
  {
    hide NoCollision, After, Succeeds, StepOf, RulesOf, B.Next, B.Run, B.Apply, FaithfulList, MarksDistinct;
    RegularFewer(poll, p, ops + [y, x], ops + [x, y]);
    var rules, t := RulesOf(poll, p.action), TallyAfter(poll, p, ops);
    var sx, sy := StepOf(poll, x), StepOf(poll, y);
    TwoSteps(poll, p, ops, x, y);
    TwoSteps(poll, p, ops, y, x);
    StepKind(poll, x);
    StepKind(poll, y);
    B.VotesCommute(rules, t, sx, sy);
    RunSimulates(poll, p, ops + [x, y]);
    RunSimulates(poll, p, ops + [y, x]);
    var q, q' := After(poll, p, ops + [x, y]), After(poll, p, ops + [y, x]);
    var b := TallyAfter(poll, p, ops + [x, y]).ballot;
    FaithfulListsAgree(poll, q, q', b, For);
    FaithfulListsAgree(poll, q, q', b, Against);
  }

  lemma TwoSteps(poll: Poll, p: Proposal, ops: seq<Op>, x: Op, y: Op)
    requires Regular(poll, p, ops + [x, y])
    requires Succeeds(poll, p, ops + [x, y], |ops|) && Succeeds(poll, p, ops + [x, y], |ops| + 1)
    ensures var rules, t := RulesOf(poll, p.action), TallyAfter(poll, p, ops);
            var t1 := B.Apply(rules, t, StepOf(poll, x));
            && B.Next(rules, t, StepOf(poll, x)).Some? && B.Next(rules, t1, StepOf(poll, y)).Some?
            && TallyAfter(poll, p, ops + [x, y]) == B.Apply(rules, t1, StepOf(poll, y))
  {
    hide NoCollision, After, Succeeds, StepOf, RulesOf, B.Next, B.Run, B.Apply;
    var rules, steps := RulesOf(poll, p.action), StepsOf(poll, ops);
    var sx, sy := StepOf(poll, x), StepOf(poll, y);
    SucceedsAgrees(poll, p, ops + [x, y], |ops|);
    SucceedsAgrees(poll, p, ops + [x, y], |ops| + 1);
    assert StepsOf(poll, ops + [x, y]) == steps + [sx] + [sy];
    B.RunSnoc(rules, B.START, steps, sx);
    B.RunSnoc(rules, B.START, steps + [sx], sy);
    assert B.Succeeds(rules, B.START, steps + [sx] + [sy], |ops|) ==> B.Succeeds(rules, B.START, steps + [sx], |ops|) by {
      assert (steps + [sx] + [sy])[..|ops|] == (steps + [sx])[..|ops|];
    }
  }

  /** A proposal can leave a value and come back to it: a member who rejected last approves, and rejects again. */
  lemma SwitchingBackRestores(poll: Poll, p: Proposal, earlier: seq<Bytes32>, approve: Op, reject: Op)
    requires approve.Vote? && approve.choice == For && reject.Vote? && reject.choice == Against
    requires reject.salt == approve.salt
    requires p.rejectNullifiers == earlier + [MarkOf(poll, p, Against, approve.salt)]
    requires MarkOf(poll, p, Against, approve.salt) !in earlier
    requires Succeeds(poll, p, [approve, reject], 0) && Succeeds(poll, p, [approve, reject], 1)
    requires After(poll, p, [approve, reject]).status == Active
    ensures After(poll, p, [approve]) != p && After(poll, p, [approve, reject]) == p
  {
    hide Attempt, After, VoteNullifier, RejectNullifier, Succeeds, Mark;
    var v, m := MarkOf(poll, p, For, approve.salt), MarkOf(poll, p, Against, approve.salt);
    assert [] + [approve] == [approve] && [approve] + [reject] == [approve, reject];
    AfterNothing(poll, p);
    AfterSnoc(poll, p, [], approve);
    AfterSnoc(poll, p, [approve], reject);
    SucceedsPrefix(poll, p, [approve], [reject], 0);
    var q := After(poll, p, [approve]);
    VoteEffect(poll, p, approve);
    VoteEffect(poll, q, reject);
    MarksIgnoreVotes(poll, p, q);
    WithoutSnoc(earlier, m, m);
    WithoutAbsent(earlier, m);
    WithoutSnoc(p.voteNullifiers, v, v);
    WithoutAbsent(p.voteNullifiers, v);
  }

  lemma AfterNothing(poll: Poll, p: Proposal)
    ensures After(poll, p, []) == p
  {
  }

  // Calls

  function CallFor(action: ProposalAction, targets: seq<AccountWithMetadata>): ChainedCall {
    ChainedCall(action.targetProgramId, action.targetInstructionData, Forward(targets, action.authorizedIndices),
                action.pdaSeeds)
  }

  /** Attempt i is the execution that emitted the calls. */
  ghost predicate EmittedBy(poll: Poll, p: Proposal, ops: seq<Op>, i: int, calls: seq<ChainedCall>) {
    && 0 <= i < |ops| && ops[i].Execute? && Succeeds(poll, p, ops, i)
    && |ops[i].targets| == p.action.targetAccountCount as nat
    && calls == [CallFor(p.action, ops[i].targets)]
  }

  /** Exactly-once faithful execution: an Executed proposal has emitted one call, the proposed one, with the
      targets of the execution that succeeded; any other proposal has emitted none. */
  lemma {:induction false} CallsFollowStatus(poll: Poll, p: Proposal, ops: seq<Op>)
    requires p.status == Active
    ensures var h := RunOps(poll, History(p, []), ops);
            && SameContent(p, h.p)
            && (h.p.status != Executed ==> h.calls == [])
            && (h.p.status == Executed ==> exists i :: EmittedBy(poll, p, ops, i, h.calls))
  {
    if ops != [] {
      var init, last := ops[..|ops| - 1], ops[|ops| - 1];
      CallsFollowStatus(poll, p, init);
      var h := RunOps(poll, History(p, []), init);
      AttemptEffect(poll, h.p, last);
      hide Attempt, CallFor;
      if h.p.status == Executed {
        var i :| EmittedBy(poll, p, init, i, h.calls);
        EmittedStill(poll, p, ops, i, h.calls);
      } else if last.Execute? && Attempt(poll, h.p, last).Ok? {
        assert h.calls + [CallFor(p.action, last.targets)] == [CallFor(p.action, last.targets)];
        assert EmittedBy(poll, p, ops, |init|, [CallFor(p.action, last.targets)]);
      }
    }
  }

  lemma EmittedStill(poll: Poll, p: Proposal, ops: seq<Op>, i: int, calls: seq<ChainedCall>)
    requires ops != [] && EmittedBy(poll, p, ops[..|ops| - 1], i, calls)
    ensures EmittedBy(poll, p, ops, i, calls)
  {
    hide Attempt, CallFor;
    assert ops[..|ops| - 1][..i] == ops[..i];
  }

  lemma AttemptEffect(poll: Poll, q: Proposal, op: Op)
    ensures var r := Attempt(poll, q, op);
            r.Ok? ==>
              && q.status == Active && SameContent(q, r.value.0)
              && (op.Execute? ==> r.value.0.status == Executed && r.value.1 == [CallFor(q.action, op.targets)]
                                  && |op.targets| == q.action.targetAccountCount as nat)
              && (op.Vote? ==> r.value.0.status != Executed && r.value.1 == [])
  {
    hide EncodeProposal, VoteNullifier, RejectNullifier, Without, Forward, Commitment;
  }

  /** Executed and Rejected are absorbing, and freeze the record, its lists and its calls. */
  lemma {:induction false} DecidedFreezes(poll: Poll, h: History, ops: seq<Op>)
    requires h.p.status != Active
    ensures RunOps(poll, h, ops) == h
    ensures forall k :: 0 <= k < |ops| ==> Attempt(poll, RunOps(poll, h, ops[..k]).p, ops[k]).Err?
  {
    hide Attempt;
    if ops != [] {
      var init := ops[..|ops| - 1];
      DecidedFreezes(poll, h, init);
      AttemptEffect(poll, h.p, ops[|ops| - 1]);
      forall k | 0 <= k < |ops|
        ensures Attempt(poll, RunOps(poll, h, ops[..k]).p, ops[k]).Err?
      {
        if k < |init| {
          assert init[..k] == ops[..k] && init[k] == ops[k];
        }
      }
    }
  }

  /** Authorisation forwarding: of a proposal that Propose accepted, every listed index names a target; a
      target is authorised in the call iff it was supplied authorised or is listed; nothing else changes. */
  lemma ForwardAuthorizes(action: ProposalAction, targets: seq<AccountWithMetadata>)
    requires IndicesInRange(action) && |targets| == action.targetAccountCount as nat
    ensures var pre := Forward(targets, action.authorizedIndices);
            && |pre| == |targets|
            && (forall i :: 0 <= i < |targets| ==>
                  pre[i].account == targets[i].account && pre[i].accountId == targets[i].accountId)
            && (forall i :: 0 <= i < |targets| ==>
                  (pre[i].isAuthorized <==>
                   targets[i].isAuthorized || exists k :: 0 <= k < |action.authorizedIndices|
                                                          && action.authorizedIndices[k] as int == i))
    ensures forall k :: 0 <= k < |action.authorizedIndices| ==> action.authorizedIndices[k] as int < |targets|
  {
    forall i | 0 <= i < |targets|
      ensures (i % 0x100) as u8 in action.authorizedIndices
              <==> exists k :: 0 <= k < |action.authorizedIndices| && action.authorizedIndices[k] as int == i
    {
      assert i % 0x100 == i;
    }
  }
}
