/** Two multisigs that the program accepts and whose members cannot finish what they start: why the theorems about what
    members can do ask for room, and for distinct salts. */
module Limits {
  import opened Words
  import opened Lists
  import opened Records
  import opened Borsh
  import opened Hashing
  import opened Program
  import opened Voting
  import opened Refinement
  import opened Bounds
  import opened Outcomes
  import opened Power
  import opened Chains
  import opened Runs
  import B = Ballots

  // Room

  /** An action whose proposal takes exactly the bytes that an account can hold. */
  function Filling(env: Env): ProposalAction
    requires env.dataLimit >= 126
  {
    ProposalAction([0, 0, 0, 0, 0, 0, 0, 0], [], 1, [], seq(env.dataLimit as nat - 126, _ => 0))
  }

  lemma FillingFills(env: Env, index: u64, createKey: Bytes32)
    requires env.dataLimit >= 126
    ensures |EncodeProposal(NewProposal(env, index, createKey, Filling(env)))| == env.dataLimit as nat
  {
    hide EncodeProposal, ActionHash;
    var a := Filling(env);
    ItemsExact();
    ItemsWidth(WORD, a.targetProgramId);
    VecWidth(WORD, a.targetInstructionData);
    VecWidth(HASH, a.pdaSeeds);
    VecWidth(BYTE, a.authorizedIndices);
    ProposalSize(NewProposal(env, index, createKey, a));
  }

  /** On every reachable chain, Propose accepts such an action as a multisig's next proposal, and then whatever is
      attempted on it, by whomever, leaves it as it was. */
  lemma AcceptedButStuck(env: Env, txs: seq<Tx>, key: Key, ops: seq<Op>)
    requires env.dataLimit >= 126
    requires var c := Run(env, txs);
             && key.0 in c.states && key !in c.proposals
             && c.states[key.0].transactionIndex < MAX_U64 && key.1 == c.states[key.0].transactionIndex + 1
    ensures var open := Open(key, Filling(env));
            var c := Run(env, txs + [open] + Acts(key, ops));
            && Opens(env, Run(env, txs), open)
            && key in c.proposals && c.proposals[key] == NewProposal(env, key.1, key.0, Filling(env))
            && CallsOf(c.log, key) == []
  {
    hide EncodeProposal, EncodeState, NewProposal, Filling, Attempt, CallsOf, Run, NextIndex;
    var open, c := Open(key, Filling(env)), Run(env, txs);
    FillingFills(env, key.1, key.0);
    FillingInRange(env);
    StatesFit(env, txs, key.0);
    StateSize(c.states[key.0]);
    StateSize(c.states[key.0].(transactionIndex := key.1));
    StatesNamed(env, txs, key.0);
    NextIndexIs(env.arith, c.states[key.0].transactionIndex, key.1);
    RunSnoc(env, txs, open);
    var c1 := Run(env, txs + [open]);
    Projection(env, txs, key);
    NewIsFresh(env, key.1, key.0, Filling(env));
    RunActs(env, txs + [open], key, ops);
    FullProposalIsStuck(PollOf(env, c1.states[key.0]), c1.proposals[key], ops);
    NothingEmitted(PollOf(env, c1.states[key.0]), c1.proposals[key], ops);
  }

  lemma FillingInRange(env: Env)
    requires env.dataLimit >= 126
    ensures IndicesInRange(Filling(env))
  {
  }

  lemma NewIsFresh(env: Env, index: u64, createKey: Bytes32, action: ProposalAction)
    ensures Fresh(NewProposal(env, index, createKey, action))
  {
  }

  lemma {:induction false} NothingEmitted(poll: Poll, p: Proposal, ops: seq<Op>)
    requires forall k :: 0 <= k < |ops| ==> !Voting.Succeeds(poll, p, ops, k)
    ensures RunOps(poll, History(p, []), ops) == History(p, [])
  {
    if ops != [] {
      hide Attempt;
      var init := ops[..|ops| - 1];
      forall k | 0 <= k < |init|
        ensures !Voting.Succeeds(poll, p, init, k)
      {
        assert init[..k] == ops[..k] && init[k] == ops[k] && !Voting.Succeeds(poll, p, ops, k);
      }
      NothingEmitted(poll, p, init);
      assert !Voting.Succeeds(poll, p, ops, |init|);
    }
  }

  // Salts

  function Approval(salt: Bytes32, member: AccountWithMetadata): Op {
    Op.Vote(For, salt, member)
  }

  /** A 2-of-2 multisig of two accounts that commit with one salt, and its first proposal. */
  function SharedSalt(env: Env, createKey: Bytes32, salt: Bytes32, a: Bytes32, b: Bytes32, action: ProposalAction): seq<Tx> {
    [Create(createKey, 2, [MemberCommitment(env, salt, a), MemberCommitment(env, salt, b)]), Open((createKey, 1), action)]
  }

  lemma SharedSaltOpens(env: Env, createKey: Bytes32, salt: Bytes32, a: Bytes32, b: Bytes32, action: ProposalAction)
    requires a != b && CollisionFree(env.sha, {MemberPreimage(salt, a), MemberPreimage(salt, b)})
    requires env.dataLimit >= 109 && IndicesInRange(action)
    requires |EncodeProposal(NewProposal(env, 1, createKey, action))| <= env.dataLimit as nat
    ensures var c, key := Run(env, SharedSalt(env, createKey, salt, a, b, action)), (createKey, 1 as u64);
            var cms := [MemberCommitment(env, salt, a), MemberCommitment(env, salt, b)];
            && createKey in c.states && c.states[createKey] == MultisigState(createKey, 2, cms, 1)
            && key in c.proposals && c.proposals[key] == NewProposal(env, 1, createKey, action)
  {
    hide EncodeProposal, EncodeState, NewProposal, MemberPreimage, IndicesInRange;
    var txs := SharedSalt(env, createKey, salt, a, b, action);
    var cms := txs[0].memberCms;
    if cms[0] == cms[1] {
      MemberPreimageInjective(salt, a, salt, b);
    }
    StateSize(MultisigState(createKey, 2, cms, 0));
    StateSize(MultisigState(createKey, 2, cms, 1));
    assert [] + [txs[0]] == [txs[0]] && [txs[0]] + [txs[1]] == txs;
    RunSnoc(env, [], txs[0]);
    RunSnoc(env, [txs[0]], txs[1]);
  }

  /** Two distinct members, both eligible: creation accepts them, the first one's approval succeeds, and the second
      one's fails. One nullifier stands for a salt, not for a member. */
  lemma SharedSaltIsOneVoter(
      env: Env, createKey: Bytes32, salt: Bytes32, a: AccountWithMetadata, b: AccountWithMetadata, action: ProposalAction)
    requires a.isAuthorized && b.isAuthorized && a.accountId != b.accountId
    requires CollisionFree(env.sha, {MemberPreimage(salt, a.accountId), MemberPreimage(salt, b.accountId)})
    requires env.dataLimit >= 109 && IndicesInRange(action)
    requires |EncodeProposal(NewProposal(env, 1, createKey, action))| + 32 <= env.dataLimit as nat
    ensures var txs, key := SharedSalt(env, createKey, salt, a.accountId, b.accountId, action), (createKey, 1 as u64);
            var c := Run(env, txs);
            && createKey in c.states && key in c.proposals
            && var poll := PollOf(env, c.states[createKey]);
            && Commitment(poll, Approval(salt, a)) != Commitment(poll, Approval(salt, b))
            && Eligible(poll, Approval(salt, a)) && Eligible(poll, Approval(salt, b))
            && Takes(env, c, key, Approval(salt, a))
            && !Takes(env, Run(env, txs + [Act(key, Approval(salt, a))]), key, Approval(salt, b))
  {
    hide EncodeProposal, NewProposal, MemberPreimage, SharedSalt, Run, Attempt, Address;
    var txs, key := SharedSalt(env, createKey, salt, a.accountId, b.accountId, action), (createKey, 1 as u64);
    SharedSaltOpens(env, createKey, salt, a.accountId, b.accountId, action);
    NewIsFresh(env, 1, createKey, action);
    var c, x := Run(env, txs), Approval(salt, a);
    var poll, p := PollOf(env, c.states[createKey]), c.proposals[key];
    if Commitment(poll, x) == Commitment(poll, Approval(salt, b)) {
      MemberPreimageInjective(salt, a.accountId, salt, b.accountId);
    }
    FirstAttempt(poll, p, x);
    RunSnoc(env, txs, Act(key, x));
    ActEffect(env, c, Act(key, x));
    SecondFails(poll, p, x, Approval(salt, b));
  }

  lemma SecondFails(poll: Poll, p: Proposal, x: Op, y: Op)
    requires x.Vote? && y.Vote? && x.salt == y.salt && x.choice == y.choice && Attempt(poll, p, x).Ok?
    ensures Attempt(poll, Attempt(poll, p, x).value.0, y).Err?
  {
    hide EncodeProposal, VoteNullifier, RejectNullifier, Without, Commitment;
  }

  /** Such a multisig never executes anything, whatever is attempted after both its members have approved. */
  lemma SharedSaltNeverExecutes(poll: Poll, p: Proposal, x: Op, y: Op, ops: seq<Op>)
    requires Regular(poll, p, [x, y] + ops)
    requires x.Vote? && y.Vote? && x.salt == y.salt
    requires poll.threshold == 2 && poll.memberCms == [Commitment(poll, x), Commitment(poll, y)]
    ensures After(poll, p, [x, y] + ops).status != Executed
  {
    hide NoCollision, Commitment, CommitmentsDistinct, After, TallyAfter, EncodeProposal, BaseSize, B.Voters, Eligible,
         StandingSalts, Supporters;
    var all := [x, y] + ops;
    RegularIsLawful(poll, p, all);
    StatusMeans(poll, p, all);
    TallyCounts(poll, p, all);
    assert all[..|all|] == all;
    StandingIsTheBallot(poll, p, all, |all|, For);
    StandingWasAttempted(poll, p, all, |all|, For);
    forall s | s in AttemptingSalts(poll, all, For)
      ensures s in {x.salt}
    {
      var i :| 0 <= i < |all| && all[i].Vote? && all[i].salt == s && Eligible(poll, all[i]);
      EligibleMeans(poll, all[i]);
      assert Commitment(poll, all[i]) == Commitment(poll, all[0]) || Commitment(poll, all[i]) == Commitment(poll, all[1]);
      CommitmentsDetermineSalts(poll, all, i, if Commitment(poll, all[i]) == Commitment(poll, all[0]) then 0 else 1);
    }
    SubsetCount(AttemptingSalts(poll, all, For), {x.salt});
  }
}
