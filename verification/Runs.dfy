/** What holds of every run of the whole chain: some of it whatever the hash does, some as long as commitments do not
    collide, and what concerns who voted as long as nullifiers do not either. */
module Runs {
  import opened Wrappers
  import opened Words
  import opened Lists
  import opened Records
  import opened Borsh
  import opened Hashing
  import opened Program
  import opened Voting
  import opened Bounds
  import opened Outcomes
  import opened Power
  import opened Executions
  import opened Chains

  /** The nullifier preimage of a vote on the proposal that some transaction opens. */
  function Nullified(env: Env, tag: Tag, vote: Tx, open: Tx): Bytes
    requires IsVote(vote) && open.Open?
  {
    NullifierPreimage(tag, vote.op.salt, Address(env, StateOf(vote.key.0)), vote.key.1, ActionHash(env, open.action))
  }

  function MemberHashes(txs: seq<Tx>): set<Bytes> {
    set i | 0 <= i < |txs| && IsVote(txs[i]) :: MemberPreimage(txs[i].op.salt, txs[i].op.member.accountId)
  }

  /** Each vote on each proposal that a transaction would open under the key it votes on. */
  function NullifierHashes(env: Env, tag: Tag, txs: seq<Tx>): set<Bytes> {
    set i, j | 0 <= i < |txs| && 0 <= j < |txs| && IsVote(txs[i]) && txs[j].Open? && txs[j].key == txs[i].key
      :: Nullified(env, tag, txs[i], txs[j])
  }

  /** What the votes of a run hash. */
  function Hashed(env: Env, txs: seq<Tx>): set<Bytes> {
    MemberHashes(txs) + NullifierHashes(env, VoteTag, txs) + NullifierHashes(env, RejectTag, txs)
  }

  ghost predicate Honest(env: Env, txs: seq<Tx>) {
    CollisionFree(env.sha, Hashed(env, txs))
  }

  /** Only that commitments do not collide. */
  ghost predicate DistinctMembers(env: Env, txs: seq<Tx>) {
    CollisionFree(env.sha, MemberHashes(txs))
  }

  lemma HonestMeansDistinctMembers(env: Env, txs: seq<Tx>)
    requires Honest(env, txs)
    ensures DistinctMembers(env, txs)
  {
    hide MemberHashes, NullifierHashes;
  }

  lemma {:induction false} OpsComeFromTxs(txs: seq<Tx>, key: Key, op: Op)
    requires op in OpsOn(txs, key)
    ensures exists i :: 0 <= i < |txs| && txs[i].Act? && txs[i].key == key && txs[i].op == op
  {
    var rest, last := OpsOn(txs[..|txs| - 1], key), txs[|txs| - 1];
    if op in rest {
      OpsComeFromTxs(txs[..|txs| - 1], key, op);
    } else {
      assert last.Act? && last.key == key && last.op == op;
    }
  }

  lemma HashedByVote(env: Env, txs: seq<Tx>, i: nat, j: nat)
    requires i < |txs| && j < |txs| && IsVote(txs[i]) && txs[j].Open? && txs[j].key == txs[i].key
    ensures MemberPreimage(txs[i].op.salt, txs[i].op.member.accountId) in Hashed(env, txs)
    ensures Nullified(env, VoteTag, txs[i], txs[j]) in Hashed(env, txs)
    ensures Nullified(env, RejectTag, txs[i], txs[j]) in Hashed(env, txs)
  {
    hide MemberPreimage, Nullified;
  }

  /** The hypothesis of a run is the hypothesis of each of its proposals. */
  lemma HonestMeansNoCollision(env: Env, txs: seq<Tx>, key: Key, j: nat, s: MultisigState, ops: seq<Op>)
    requires Honest(env, txs)
    requires j < |txs| && txs[j].Open? && txs[j].key == key && s.createKey == key.0
    requires forall op :: op in ops && op.Vote? ==> op in OpsOn(txs, key)
    ensures NoCollision(PollOf(env, s), Opened(env, txs[j]), ops)
  {
    hide Hashed, MemberPreimage, NullifierPreimage, ActionHash, Address, OpsOn;
    var poll, p := PollOf(env, s), Opened(env, txs[j]);
    forall x | x in Preimages(poll, p.index, p.actionHash, ops)
      ensures x in Hashed(env, txs)
    {
      var i :| 0 <= i < |ops| && ops[i].Vote?
               && (x == MemberPreimage(ops[i].salt, ops[i].member.accountId)
                   || x == NullifierPreimage(VoteTag, ops[i].salt, poll.stateId, p.index, p.actionHash)
                   || x == NullifierPreimage(RejectTag, ops[i].salt, poll.stateId, p.index, p.actionHash));
      assert ops[i] in ops;
      OpsComeFromTxs(txs, key, ops[i]);
      var n :| 0 <= n < |txs| && txs[n].Act? && txs[n].key == key && txs[n].op == ops[i];
      HashedByVote(env, txs, n, j);
    }
  }

  lemma {:induction false} OpsOnSuffix(txs: seq<Tx>, key: Key, j: nat, op: Op)
    requires j <= |txs| && op in OpsOn(txs[j..], key)
    ensures op in OpsOn(txs, key)
  {
    if j < |txs| {
      var init, last := txs[..|txs| - 1], txs[|txs| - 1];
      assert txs[j..][..|txs| - j - 1] == init[j..];
      if op in OpsOn(init[j..], key) {
        OpsOnSuffix(init, key, j, op);
      }
    }
  }

  lemma DistinctMembersMeansDistinctCommitments(env: Env, txs: seq<Tx>, key: Key, s: MultisigState, ops: seq<Op>)
    requires DistinctMembers(env, txs)
    requires forall op :: op in ops && op.Vote? ==> op in OpsOn(txs, key)
    ensures CommitmentsDistinct(PollOf(env, s), ops)
  {
    hide MemberPreimage, Address, OpsOn;
    forall x | x in MemberPreimages(ops)
      ensures x in MemberHashes(txs)
    {
      var i :| 0 <= i < |ops| && ops[i].Vote? && x == MemberPreimage(ops[i].salt, ops[i].member.accountId);
      assert ops[i] in ops;
      OpsComeFromTxs(txs, key, ops[i]);
      var n :| 0 <= n < |txs| && txs[n].Act? && txs[n].key == key && txs[n].op == ops[i];
    }
  }

  /** The reachable proposals of a chain are exactly those the theorems about one proposal speak of: the record and calls
      of a proposal are those of a run of its own attempts, on what its one opening left. */
  ghost predicate Accounted(env: Env, txs: seq<Tx>, key: Key, j: int, poll: Poll, p: Proposal, ops: seq<Op>) {
    && ReplaysFrom(env, txs, key, j)
    && poll == PollOf(env, Run(env, txs).states[key.0]) && p == Opened(env, txs[j]) && ops == OpsOn(txs[j + 1..], key)
    && Fresh(p) && 1 <= poll.threshold as nat <= |poll.memberCms| <= MAX_MEMBERS
  }

  lemma EveryProposalIsAccounted(env: Env, txs: seq<Tx>, key: Key) returns (j: nat, poll: Poll, p: Proposal, ops: seq<Op>)
    requires key in Run(env, txs).proposals
    ensures Accounted(env, txs, key, j, poll, p, ops)
    ensures forall i :: OpenedAt(env, txs, key, i) ==> i == j
    ensures Run(env, txs).proposals[key] == After(poll, p, ops)
    ensures CallsOf(Run(env, txs).log, key) == RunOps(poll, History(p, []), ops).calls
  {
    hide Run, Opens, OpsOn, CallsOf, RunOps, ActionHash, Address, NoDup;
    Projection(env, txs, key);
    j :| ReplaysFrom(env, txs, key, j) && forall i :: OpenedAt(env, txs, key, i) ==> i == j;
    StatesNamed(env, txs, key.0);
    poll, p, ops := PollOf(env, Run(env, txs).states[key.0]), Opened(env, txs[j]), OpsOn(txs[j + 1..], key);
  }

  lemma AccountedOps(env: Env, txs: seq<Tx>, key: Key, j: int, poll: Poll, p: Proposal, ops: seq<Op>)
    requires Accounted(env, txs, key, j, poll, p, ops)
    ensures forall op :: op in ops ==> op in OpsOn(txs, key)
  {
    hide Run, OpsOn, RunOps, CallsOf;
    forall op | op in ops
      ensures op in OpsOn(txs, key)
    {
      OpsOnSuffix(txs, key, j + 1, op);
    }
  }

  lemma AccountedIsLawful(env: Env, txs: seq<Tx>, key: Key, j: int, poll: Poll, p: Proposal, ops: seq<Op>)
    requires Accounted(env, txs, key, j, poll, p, ops) && DistinctMembers(env, txs)
    ensures Lawful(poll, p, ops)
  {
    hide DistinctMembers, CommitmentsDistinct, Run, OpsOn, RunOps, CallsOf, Address;
    AccountedOps(env, txs, key, j, poll, p, ops);
    DistinctMembersMeansDistinctCommitments(env, txs, key, Run(env, txs).states[key.0], ops);
  }

  lemma AccountedIsRegular(env: Env, txs: seq<Tx>, key: Key, j: int, poll: Poll, p: Proposal, ops: seq<Op>)
    requires Accounted(env, txs, key, j, poll, p, ops) && Honest(env, txs)
    ensures Regular(poll, p, ops)
  {
    hide Honest, NoCollision, Run, OpsOn, Opens, RunOps, CallsOf, ActionHash, Address;
    AccountedOps(env, txs, key, j, poll, p, ops);
    HonestMeansNoCollision(env, txs, key, j, Run(env, txs).states[key.0], ops);
  }

  /** In every reachable chain whose members' commitments do not collide, for every proposal: approvals and rejections
      number at most N <= 16 together, the status says exactly whether the threshold can still be met, and the account
      never outgrows what it held at creation by more than 32 bytes for each member. */
  lemma ReachableProposals(env: Env, txs: seq<Tx>, key: Key)
    requires DistinctMembers(env, txs) && key in Run(env, txs).proposals
    ensures key.0 in Run(env, txs).states
    ensures var q, s := Run(env, txs).proposals[key], Run(env, txs).states[key.0];
            && |q.voteNullifiers| + |q.rejectNullifiers| <= |s.memberCms| <= MAX_MEMBERS
            && NoDup(q.voteNullifiers) && NoDup(q.rejectNullifiers)
            && StatusTells(q, s.threshold as nat, |s.memberCms|)
            && |EncodeProposal(q)| <= |EncodeProposal(NewProposal(env, key.1, key.0, q.action))| + 32 * |s.memberCms|
  {
    hide DistinctMembers, CommitmentsDistinct, Run, CallsOf, RunOps, EncodeProposal, NoDup, StatusTells;
    var j, poll, p, ops := EveryProposalIsAccounted(env, txs, key);
    AccountedIsLawful(env, txs, key, j, poll, p, ops);
    AccountedMeans(env, txs, key, j, poll, p, ops);
    StatusMeans(poll, p, ops);
    CallsFollowStatus(poll, p, ops);
  }

  /** In every run, whatever the hash does, the log holds one call for each Executed proposal and none for any other
      name. One transaction opened the proposal, one executed it; the call is what the first asked for, with the
      targets that the second brought, and the stored action and its hash are still the proposed ones. */
  lemma ExactlyOnce(env: Env, txs: seq<Tx>, key: Key)
    ensures var c := Run(env, txs);
            && (CallsOf(c.log, key) != [] <==> key in c.proposals && c.proposals[key].status == Executed)
            && (key in c.proposals ==> exists j ::
                  OpenedAt(env, txs, key, j) && (forall i :: OpenedAt(env, txs, key, i) ==> i == j)
                  && c.proposals[key].action == txs[j].action && c.proposals[key].actionHash == ActionHash(env, txs[j].action)
                  && IndicesInRange(txs[j].action))
            && (key in c.proposals && c.proposals[key].status == Executed ==> exists i ::
                  ExecutedAt(env, txs, key, i) && (forall n :: ExecutedAt(env, txs, key, n) ==> n == i)
                  && CallsOf(c.log, key) == [CallFor(c.proposals[key].action, txs[i].op.targets)]
                  && |txs[i].op.targets| == c.proposals[key].action.targetAccountCount as nat)
  {
    hide Run, OpsOn, CallsOf, RunOps, ActionHash, Address, CallFor, Accounted, EmittedBy, OpenedAt, ExecutedAt;
    Projection(env, txs, key);
    if key in Run(env, txs).proposals {
      var j, poll, p, ops := EveryProposalIsAccounted(env, txs, key);
      AccountedMeans(env, txs, key, j, poll, p, ops);
      CallsFollowStatus(poll, p, ops);
      EmittedIsOne(poll, p, ops);
      if Run(env, txs).proposals[key].status == Executed {
        var i := ExecutionOf(env, txs, key);
        forall n | ExecutedAt(env, txs, key, n)
          ensures n == i
        {
          ExecutedOnce(env, txs, key, n, i);
        }
      }
    }
  }

  lemma EmittedIsOne(poll: Poll, p: Proposal, ops: seq<Op>)
    requires p.status == Active
    ensures var h := RunOps(poll, History(p, []), ops);
            h.p.status == Executed ==> |h.calls| == 1
  {
    hide RunOps, CallFor;
    CallsFollowStatus(poll, p, ops);
  }

  lemma {:induction false} ExecutedStays(env: Env, txs: seq<Tx>, key: Key, i: nat, j: nat)
    requires i < j <= |txs| && ExecutedAt(env, txs, key, i)
    ensures key in Run(env, txs[..j]).proposals && key.0 in Run(env, txs[..j]).states
    ensures Run(env, txs[..j]).proposals[key].status == Executed
  {
    hide Step, Run, Attempt, PollOf, CallsOf;
    var c := Run(env, txs[..j - 1]);
    RunPrefix(env, txs, j - 1);
    StepIsIsolated(env, c, txs[j - 1], key, key.0);
    if i < j - 1 {
      ExecutedStays(env, txs, key, i, j - 1);
    }
    if KeyOf(txs[j - 1]) == Some(key) {
      if txs[j - 1].Act? {
        ActEffect(env, c, txs[j - 1]);
        AttemptEffect(PollOf(env, c.states[key.0]), c.proposals[key], txs[j - 1].op);
      } else {
        StaysOpened(env, c, txs[j - 1]);
      }
    }
  }

  lemma ExecutedOnce(env: Env, txs: seq<Tx>, key: Key, i: int, j: int)
    requires ExecutedAt(env, txs, key, i) && ExecutedAt(env, txs, key, j)
    ensures i == j
  {
    hide Run, Attempt, PollOf;
    var a, b := if i < j then i else j, if i < j then j else i;
    if a < b {
      ExecutedStays(env, txs, key, a, b);
      var c := Run(env, txs[..b]);
      AttemptEffect(PollOf(env, c.states[key.0]), c.proposals[key], txs[b].op);
    }
  }

  /** The transaction that executed a proposal brought the targets of its call. */
  lemma {:induction false} ExecutionOf(env: Env, txs: seq<Tx>, key: Key) returns (i: nat)
    requires key in Run(env, txs).proposals && Run(env, txs).proposals[key].status == Executed
    ensures ExecutedAt(env, txs, key, i)
    ensures CallsOf(Run(env, txs).log, key) == [CallFor(Run(env, txs).proposals[key].action, txs[i].op.targets)]
    ensures |txs[i].op.targets| == Run(env, txs).proposals[key].action.targetAccountCount as nat
  {
    if txs == [] {
      assert false;
    } else {
      hide Step, Run, CallsOf, CallFor, ExecutedAt;
      var init, last := txs[..|txs| - 1], txs[|txs| - 1];
      var c := Run(env, init);
      LastStep(env, txs);
      if key in c.proposals && c.proposals[key].status == Executed {
        i := ExecutionOf(env, init, key);
        ExecutedStill(env, txs, key, i);
        ExecutedKeeps(env, c, last, key);
      } else {
        i := |init|;
        BecomesExecuted(env, txs, key);
      }
    }
  }

  lemma LastStep(env: Env, txs: seq<Tx>)
    requires txs != []
    ensures Run(env, txs) == Step(env, Run(env, txs[..|txs| - 1]), txs[|txs| - 1])
  {
    hide Step;
  }

  lemma ExecutedStill(env: Env, txs: seq<Tx>, key: Key, i: nat)
    requires txs != [] && ExecutedAt(env, txs[..|txs| - 1], key, i)
    ensures ExecutedAt(env, txs, key, i)
  {
    hide Run, Takes;
    assert txs[..|txs| - 1][..i] == txs[..i];
  }

  lemma ExecutedKeeps(env: Env, c: Chain, tx: Tx, key: Key)
    requires key in c.proposals && c.proposals[key].status == Executed
    ensures var c' := Step(env, c, tx);
            key in c'.proposals && c'.proposals[key] == c.proposals[key] && CallsOf(c'.log, key) == CallsOf(c.log, key)
  {
    hide Step, Attempt, PollOf, CallsOf;
    StepIsIsolated(env, c, tx, key, key.0);
    if KeyOf(tx) == Some(key) {
      if tx.Open? {
        StaysOpened(env, c, tx);
      } else if key.0 in c.states {
        ActEffect(env, c, tx);
        AttemptEffect(PollOf(env, c.states[key.0]), c.proposals[key], tx.op);
      } else {
        ActNeedsState(env, c, tx);
      }
    }
  }

  lemma ActNeedsState(env: Env, c: Chain, tx: Tx)
    requires tx.Act? && tx.key.0 !in c.states
    ensures Step(env, c, tx) == c
  {
  }

  lemma BecomesExecuted(env: Env, txs: seq<Tx>, key: Key)
    requires txs != []
    requires var c, c' := Run(env, txs[..|txs| - 1]), Run(env, txs);
             && key in c'.proposals && c'.proposals[key].status == Executed
             && (key in c.proposals ==> c.proposals[key].status != Executed)
    ensures ExecutedAt(env, txs, key, |txs| - 1)
    ensures var last, q := txs[|txs| - 1], Run(env, txs).proposals[key];
            && CallsOf(Run(env, txs).log, key) == [CallFor(q.action, last.op.targets)]
            && |last.op.targets| == q.action.targetAccountCount as nat
  {
    hide Step, Run, Attempt, PollOf, CallsOf, CallFor, RunOps;
    var init, last := txs[..|txs| - 1], txs[|txs| - 1];
    var c := Run(env, init);
    LastStep(env, txs);
    StepIsIsolated(env, c, last, key, key.0);
    if key in c.proposals {
      if last.Open? {
        StaysOpened(env, c, last);
      } else {
        var j, poll, p, ops := EveryProposalIsAccounted(env, init, key);
        AccountedMeans(env, init, key, j, poll, p, ops);
        CallsFollowStatus(poll, p, ops);
        ActEffect(env, c, last);
        AttemptEffect(PollOf(env, c.states[key.0]), c.proposals[key], last.op);
        assert [] + [CallFor(c.proposals[key].action, last.op.targets)] == [CallFor(c.proposals[key].action, last.op.targets)];
      }
    } else {
      NewIsActive(env, c, last, key);
    }
  }

  lemma NewIsActive(env: Env, c: Chain, tx: Tx, key: Key)
    requires key !in c.proposals && key in Step(env, c, tx).proposals
    ensures Step(env, c, tx).proposals[key].status == Active
  {
    hide EncodeState, EncodeProposal, Attempt, ActionHash, Tagged, IndicesInRange, NoDup, PollOf;
  }

  /** Trace safety on the chain: behind every call in the log there is an execution on that proposal at which at
      least M distinct members of its multisig, with M distinct salts, had an authorised approval standing on that same
      proposal. */
  lemma NoCallWithoutThreshold(env: Env, txs: seq<Tx>, key: Key) returns (j: nat, poll: Poll, p: Proposal, ops: seq<Op>, k: nat)
    requires Honest(env, txs) && CallsOf(Run(env, txs).log, key) != []
    ensures Accounted(env, txs, key, j, poll, p, ops)
    ensures k < |ops| && ops[k].Execute? && Voting.Succeeds(poll, p, ops, k)
    ensures |Supporters(poll, p, ops, k, For)| >= poll.threshold as nat
    ensures |StandingSalts(poll, p, ops, k, For)| >= poll.threshold as nat
  {
    hide Honest, NoCollision, Run, OpsOn, CallsOf, RunOps, ActionHash, Address, CallFor, Accounted, Supporters, StandingSalts;
    Projection(env, txs, key);
    j, poll, p, ops := EveryProposalIsAccounted(env, txs, key);
    AccountedIsRegular(env, txs, key, j, poll, p, ops);
    CallsFollowStatus(poll, p, ops);
    var h := RunOps(poll, History(p, []), ops);
    var i :| EmittedBy(poll, p, ops, i, h.calls);
    k := i;
    ExecutionNeedsThreshold(poll, p, ops, k);
  }

  lemma AttemptingFewer(poll: Poll, fewer: seq<Op>, ops: seq<Op>, choice: Choice)
    requires forall op :: op in fewer ==> op in ops
    ensures |Attempting(poll, fewer, choice)| <= |Attempting(poll, ops, choice)|
    ensures |AttemptingSalts(poll, fewer, choice)| <= |AttemptingSalts(poll, ops, choice)|
  {
    hide Eligible, Commitment;
    forall i | 0 <= i < |fewer|
      ensures exists n :: 0 <= n < |ops| && ops[n] == fewer[i]
    {
      assert fewer[i] in fewer;
    }
    SubsetCount(Attempting(poll, fewer, choice), Attempting(poll, ops, choice));
    SubsetCount(AttemptingSalts(poll, fewer, choice), AttemptingSalts(poll, ops, choice));
  }

  /** No run in which fewer than M members, or members with fewer than M salts, ever try to approve a proposal emits its
      call, whoever rejects it. */
  lemma TooFewNeverCall(env: Env, txs: seq<Tx>, key: Key)
    requires Honest(env, txs) && key.0 in Run(env, txs).states
    requires var poll := PollOf(env, Run(env, txs).states[key.0]);
             || |Attempting(poll, OpsOn(txs, key), For)| < poll.threshold as nat
             || |AttemptingSalts(poll, OpsOn(txs, key), For)| < poll.threshold as nat
    ensures CallsOf(Run(env, txs).log, key) == []
  {
    hide Honest, NoCollision, Run, OpsOn, CallsOf, RunOps, Accounted, Supporters, StandingSalts, Attempting, AttemptingSalts,
         PollOf, OpenedAt;
    if CallsOf(Run(env, txs).log, key) != [] {
      var j, poll, p, ops, k := NoCallWithoutThreshold(env, txs, key);
      AccountedOps(env, txs, key, j, poll, p, ops);
      AccountedMeans(env, txs, key, j, poll, p, ops);
      StandingWasAttempted(poll, p, ops, k, For);
      AttemptingFewer(poll, ops, OpsOn(txs, key), For);
    }
  }

  /** Exact veto on the chain: a proposal is Rejected exactly when more than N - M distinct salts of its multisig's
      members have an authorised rejection standing on it. */
  lemma RejectedOnlyByVeto(env: Env, txs: seq<Tx>, key: Key) returns (j: nat, poll: Poll, p: Proposal, ops: seq<Op>)
    requires Honest(env, txs) && key in Run(env, txs).proposals
    ensures Accounted(env, txs, key, j, poll, p, ops)
    ensures var q, veto := Run(env, txs).proposals[key], |poll.memberCms| - poll.threshold as nat;
            && (q.status == Rejected <==> |StandingSalts(poll, p, ops, |ops|, Against)| > veto)
            && (q.status == Rejected ==> |Supporters(poll, p, ops, |ops|, Against)| > veto)
  {
    hide Honest, NoCollision, Run, OpsOn, CallsOf, RunOps, ActionHash, Address, Accounted, Supporters, StandingSalts;
    j, poll, p, ops := EveryProposalIsAccounted(env, txs, key);
    AccountedIsRegular(env, txs, key, j, poll, p, ops);
    RejectedByVeto(poll, p, ops);
  }

  // Counters

  ghost predicate Dense(c: Chain, key: Key, count: nat) {
    && (key in c.proposals <==> key.0 in c.states && 1 <= key.1 <= c.states[key.0].transactionIndex)
    && (key.0 in c.states ==> c.states[key.0].transactionIndex <= count)
  }

  lemma DenseStep(env: Env, c: Chain, tx: Tx, key: Key, count: nat)
    requires Dense(c, key, count) && (env.arith.Checked? || count < MAX_U64)
    ensures Dense(Step(env, c, tx), key, count + 1)
  {
    hide Attempt, NewProposal, EncodeState, EncodeProposal, Tagged, IndicesInRange, NoDup, Opened, PollOf;
  }

  /** Dense, and no index is ever reused: the proposals of a multisig are exactly those with an index from 1 to
      its counter. A wrapping build needs at most 2^64 - 1 transactions for that. */
  lemma {:induction false} IndicesAreDense(env: Env, txs: seq<Tx>, key: Key)
    requires env.arith.Checked? || |txs| <= MAX_U64
    ensures Dense(Run(env, txs), key, |txs|)
  {
    if txs != [] {
      hide Step, Dense;
      IndicesAreDense(env, txs[..|txs| - 1], key);
      DenseStep(env, Run(env, txs[..|txs| - 1]), txs[|txs| - 1], key, |txs| - 1);
    } else {
      assert Run(env, txs) == GENESIS;
    }
  }

  /** A stored multisig state takes exactly 45 + 32 N bytes, at most 557. */
  lemma StateAccountSize(env: Env, txs: seq<Tx>, createKey: Bytes32)
    requires createKey in Run(env, txs).states
    ensures var s := Run(env, txs).states[createKey];
            |EncodeState(s)| == 45 + 32 * |s.memberCms| <= 557
  {
    StatesNamed(env, txs, createKey);
    StateSize(Run(env, txs).states[createKey]);
  }

  /** A stored state always fits its account. */
  lemma {:induction false} StatesFit(env: Env, txs: seq<Tx>, createKey: Bytes32)
    requires createKey in Run(env, txs).states
    ensures |EncodeState(Run(env, txs).states[createKey])| <= env.dataLimit as nat
  {
    if txs != [] {
      var init, last := txs[..|txs| - 1], txs[|txs| - 1];
      var c := Run(env, init);
      if createKey in c.states {
        StatesFit(env, init, createKey);
      }
      StateFitsStep(env, c, last, createKey);
    }
  }

  lemma StateFitsStep(env: Env, c: Chain, tx: Tx, createKey: Bytes32)
    requires createKey in c.states ==> |EncodeState(c.states[createKey])| <= env.dataLimit as nat
    ensures var c' := Step(env, c, tx);
            createKey in c'.states ==> |EncodeState(c'.states[createKey])| <= env.dataLimit as nat
  {
    hide EncodeState, EncodeProposal, Attempt, NewProposal, Tagged, NextIndex, IndicesInRange, NoDup;
  }

  // What anyone can start

  /** On every chain a multisig is created, with no proposals, exactly when its key is new, 1 <= M <= N <= 16, its
      commitments differ, and 45 + 32 N bytes fit an account. */
  lemma AnyoneCanCreate(env: Env, txs: seq<Tx>, createKey: Bytes32, threshold: u8, memberCms: seq<Bytes32>)
    requires createKey !in Run(env, txs).states
    ensures var c, c' := Run(env, txs), Run(env, txs + [Create(createKey, threshold, memberCms)]);
            if && 1 <= threshold as nat <= |memberCms| <= 16
               && (forall i, j :: 0 <= i < j < |memberCms| ==> memberCms[i] != memberCms[j])
               && 45 + 32 * |memberCms| <= env.dataLimit as nat
            then c' == c.(states := c.states[createKey := MultisigState(createKey, threshold, memberCms, 0)])
            else c' == c
  {
    hide EncodeState;
    RunSnoc(env, txs, Create(createKey, threshold, memberCms));
    StateSize(MultisigState(createKey, threshold, memberCms, 0));
  }

  /** On every chain a multisig's next proposal opens, and the counter goes up by one, exactly when it carries the
      counter plus one, its indices name targets, and its record fits an account; no other proposal does. */
  lemma AnyoneCanPropose(env: Env, txs: seq<Tx>, key: Key, action: ProposalAction)
    requires key.0 in Run(env, txs).states && Run(env, txs).states[key.0].transactionIndex < MAX_U64
    requires env.arith.Checked? || |txs| <= MAX_U64
    ensures var c, c' := Run(env, txs), Run(env, txs + [Open(key, action)]);
            var s, p := c.states[key.0], Proposal(key.1, key.0, action, ActionHash(env, action), [], [], Active);
            if && key.1 == s.transactionIndex + 1
               && (forall k :: 0 <= k < |action.authorizedIndices| ==>
                     action.authorizedIndices[k] as int < action.targetAccountCount as int)
               && |EncodeProposal(p)| <= env.dataLimit as nat
            then && key !in c.proposals
                 && c' == c.(states := c.states[key.0 := s.(transactionIndex := s.transactionIndex + 1)],
                             proposals := c.proposals[key := p])
            else c' == c
  {
    hide EncodeState, EncodeProposal, ActionHash, NextIndex, Run;
    var s := Run(env, txs).states[key.0];
    RunSnoc(env, txs, Open(key, action));
    IndicesAreDense(env, txs, key);
    NextIndexIs(env.arith, s.transactionIndex, key.1);
    StatesFit(env, txs, key.0);
    StateSize(s);
    StateSize(s.(transactionIndex := key.1));
  }

  // Continuing a run

  function Acts(key: Key, ops: seq<Op>): seq<Tx> {
    seq(|ops|, i requires 0 <= i < |ops| => Act(key, ops[i]))
  }

  lemma {:induction false} OpsOnActs(txs: seq<Tx>, key: Key, ops: seq<Op>)
    ensures OpsOn(txs + Acts(key, ops), key) == OpsOn(txs, key) + ops
  {
    if ops == [] {
      assert txs + Acts(key, ops) == txs;
    } else {
      var init, last := ops[..|ops| - 1], ops[|ops| - 1];
      OpsOnActs(txs, key, init);
      var full := txs + Acts(key, ops);
      assert full == txs + Acts(key, init) + [Act(key, last)];
      assert full[..|full| - 1] == txs + Acts(key, init);
    }
  }

  /** Attempts on one proposal, continued on the chain, do to it what they do to its record. */
  lemma {:induction false} RunActs(env: Env, txs: seq<Tx>, key: Key, ops: seq<Op>)
    requires key in Run(env, txs).proposals && key.0 in Run(env, txs).states
    ensures var c, c' := Run(env, txs), Run(env, txs + Acts(key, ops));
            var h := RunOps(PollOf(env, c.states[key.0]), History(c.proposals[key], CallsOf(c.log, key)), ops);
            && c'.states == c.states
            && key in c'.proposals && c'.proposals[key] == h.p && CallsOf(c'.log, key) == h.calls
  {
    hide Step, CallsOf, ApplyOp;
    if ops == [] {
      assert txs + Acts(key, ops) == txs;
    } else {
      var init, last := ops[..|ops| - 1], ops[|ops| - 1];
      RunActs(env, txs, key, init);
      var full := txs + Acts(key, ops);
      assert full == txs + Acts(key, init) + [Act(key, last)];
      assert full[..|full| - 1] == txs + Acts(key, init);
      ActEffect(env, Run(env, txs + Acts(key, init)), Act(key, last));
    }
  }

  lemma {:induction false} RunOpsAppend(poll: Poll, h: History, a: seq<Op>, b: seq<Op>)
    ensures RunOps(poll, h, a + b) == RunOps(poll, RunOps(poll, h, a), b)
  {
    hide ApplyOp;
    if b == [] {
      assert a + b == a;
    } else {
      RunOpsAppend(poll, h, a, b[..|b| - 1]);
      assert (a + b)[..|a + b| - 1] == a + b[..|b| - 1];
    }
  }

  lemma ContinuedOps(env: Env, txs: seq<Tx>, key: Key, more: seq<Op>, j: nat, poll: Poll, p: Proposal, ops: seq<Op>)
    requires Accounted(env, txs, key, j, poll, p, ops)
    ensures forall op :: op in ops + more ==> op in OpsOn(txs + Acts(key, more), key)
  {
    hide Accounted, Run, OpsOn;
    OpsOnActs(txs, key, more);
    AccountedOps(env, txs, key, j, poll, p, ops);
  }

  lemma ContinuedIsRegular(env: Env, txs: seq<Tx>, key: Key, more: seq<Op>, j: nat, poll: Poll, p: Proposal, ops: seq<Op>)
    requires Honest(env, txs + Acts(key, more)) && Accounted(env, txs, key, j, poll, p, ops)
    ensures Regular(poll, p, ops + more)
  {
    hide Honest, NoCollision, Run, OpsOn, Opens, CallsOf, RunOps, ActionHash, Address;
    var full := txs + Acts(key, more);
    assert full[j] == txs[j];
    ContinuedOps(env, txs, key, more, j, poll, p, ops);
    HonestMeansNoCollision(env, full, key, j, Run(env, txs).states[key.0], ops + more);
  }

  lemma ContinuedIsLawful(env: Env, txs: seq<Tx>, key: Key, more: seq<Op>, j: nat, poll: Poll, p: Proposal, ops: seq<Op>)
    requires DistinctMembers(env, txs + Acts(key, more)) && Accounted(env, txs, key, j, poll, p, ops)
    ensures Lawful(poll, p, ops + more)
  {
    hide DistinctMembers, CommitmentsDistinct, Run, OpsOn, Opens, CallsOf, RunOps, Address;
    ContinuedOps(env, txs, key, more, j, poll, p, ops);
    DistinctMembersMeansDistinctCommitments(env, txs + Acts(key, more), key, Run(env, txs).states[key.0], ops + more);
  }

  /** The chain accepts every one of these attempts, in this order. */
  ghost predicate AllTaken(env: Env, txs: seq<Tx>, key: Key, ops: seq<Op>) {
    forall k :: 0 <= k < |ops| ==> Takes(env, Run(env, txs + Acts(key, ops[..k])), key, ops[k])
  }

  lemma TakenMeans(env: Env, txs: seq<Tx>, key: Key, poll: Poll, p: Proposal, ops: seq<Op>, more: seq<Op>)
    requires key in Run(env, txs).proposals && key.0 in Run(env, txs).states
    requires poll == PollOf(env, Run(env, txs).states[key.0])
    requires var h := RunOps(poll, History(p, []), ops);
             Run(env, txs).proposals[key] == h.p && CallsOf(Run(env, txs).log, key) == h.calls
    ensures AllTaken(env, txs, key, more)
            <==> forall k :: |ops| <= k < |ops + more| ==> Voting.Succeeds(poll, p, ops + more, k)
  {
    hide Run, CallsOf, RunOps, Attempt, PollOf;
    forall k | 0 <= k < |more|
      ensures Takes(env, Run(env, txs + Acts(key, more[..k])), key, more[k])
              <==> Voting.Succeeds(poll, p, ops + more, |ops| + k)
    {
      ContinuedRecord(env, txs, key, poll, p, ops, more[..k]);
      RunActs(env, txs, key, more[..k]);
      assert (ops + more)[..|ops| + k] == ops + more[..k];
    }
    if AllTaken(env, txs, key, more) {
      forall k | |ops| <= k < |ops + more|
        ensures Voting.Succeeds(poll, p, ops + more, k)
      {
        var i := k - |ops|;
        assert Takes(env, Run(env, txs + Acts(key, more[..i])), key, more[i]);
      }
    }
  }

  /** Never stuck, on the chain: any M members with distinct salts can bring an Active proposal to execution, in at most
      M approvals and one execution, all accepted, exactly when its account has room for their votes; the proposed call
      is then the one that the log gains. */
  lemma AnyMMembersCanExecute(env: Env, txs: seq<Tx>, key: Key, group: seq<Op>, targets: seq<AccountWithMetadata>)
    requires Honest(env, txs + Acts(key, group))
    requires key in Run(env, txs).proposals && key.0 in Run(env, txs).states
    requires var q, poll := Run(env, txs).proposals[key], PollOf(env, Run(env, txs).states[key.0]);
             && q.status == Active
             && Group(poll, group, For) && |group| == poll.threshold as nat
             && |targets| == q.action.targetAccountCount as nat
    ensures var q, poll := Run(env, txs).proposals[key], PollOf(env, Run(env, txs).states[key.0]);
            var todo := NotYet(poll, q, For, group);
            var full := todo + [Op.Execute(targets)];
            var c := Run(env, txs + Acts(key, full));
            && |todo| <= poll.threshold as nat
            && (Fits(poll, q, group) <==> AllTaken(env, txs, key, full))
            && (Fits(poll, q, group) ==>
                  && key in c.proposals && c.proposals[key].status == Executed
                  && CallsOf(c.log, key) == [CallFor(q.action, targets)])
  {
    hide Honest, Run, OpsOn, Opens, CallsOf, RunOps, ActionHash, Address, EncodeProposal, Group, Fits, NotYet, CallFor, Accounted,
         AllTaken, PollOf, OpenedAt;
    var j, poll, p, ops := EveryProposalIsAccounted(env, txs, key);
    AccountedMeans(env, txs, key, j, poll, p, ops);
    ContinuedIsRegular(env, txs, key, group, j, poll, p, ops);
    CallsFollowStatus(poll, p, ops);
    NeverStuck(poll, p, ops, group, targets);
    var todo, last := NotYet(poll, After(poll, p, ops), For, group), Op.Execute(targets);
    TakenMeans(env, txs, key, poll, p, ops, todo + [last]);
    ContinuedRecord(env, txs, key, poll, p, ops, todo + [last]);
    assert ops + (todo + [last]) == ops + todo + [last];
    if Fits(poll, After(poll, p, ops), group) {
      LastEmits(poll, p, ops + todo, last);
    }
  }

  lemma AccountedMeans(env: Env, txs: seq<Tx>, key: Key, j: int, poll: Poll, p: Proposal, ops: seq<Op>)
    requires Accounted(env, txs, key, j, poll, p, ops)
    ensures key.0 in Run(env, txs).states && poll == PollOf(env, Run(env, txs).states[key.0])
    ensures p == NewProposal(env, key.1, key.0, p.action) && p.status == Active
    ensures |poll.memberCms| <= MAX_MEMBERS
    ensures OpenedAt(env, txs, key, j) && p.action == txs[j].action && p.actionHash == ActionHash(env, txs[j].action)
    ensures IndicesInRange(txs[j].action)
  {
    hide NoCollision, Run, OpsOn, RunOps, CallsOf;
  }

  lemma ContinuedRecord(env: Env, txs: seq<Tx>, key: Key, poll: Poll, p: Proposal, ops: seq<Op>, more: seq<Op>)
    requires key in Run(env, txs).proposals && key.0 in Run(env, txs).states
    requires poll == PollOf(env, Run(env, txs).states[key.0])
    requires var h := RunOps(poll, History(p, []), ops);
             Run(env, txs).proposals[key] == h.p && CallsOf(Run(env, txs).log, key) == h.calls
    ensures var c, h := Run(env, txs + Acts(key, more)), RunOps(poll, History(p, []), ops + more);
            key in c.proposals && c.proposals[key] == h.p && CallsOf(c.log, key) == h.calls
  {
    hide Run, CallsOf, RunOps;
    RunActs(env, txs, key, more);
    RunOpsAppend(poll, History(p, []), ops, more);
  }

  lemma LastEmits(poll: Poll, p: Proposal, ops: seq<Op>, op: Op)
    requires op.Execute? && p.status == Active && Voting.Succeeds(poll, p, ops + [op], |ops|)
    ensures RunOps(poll, History(p, []), ops + [op]).calls == [CallFor(p.action, op.targets)]
  {
    hide Attempt, CallFor;
    var h := RunOps(poll, History(p, []), ops);
    assert (ops + [op])[..|ops|] == ops;
    CallsFollowStatus(poll, p, ops);
    AttemptEffect(poll, h.p, op);
    assert [] + [CallFor(p.action, op.targets)] == [CallFor(p.action, op.targets)];
  }

  /** Veto, on the chain: among any N - M + 1 members with distinct salts there are at least as many who do not reject
      yet as rejections are missing. Exactly when the account has room for the first that many of them, the chain accepts
      all their rejections, and the last one rejects the proposal. */
  lemma EnoughMembersCanReject(env: Env, txs: seq<Tx>, key: Key, group: seq<Op>)
    requires Honest(env, txs + Acts(key, group))
    requires key in Run(env, txs).proposals && key.0 in Run(env, txs).states
    requires var q, poll := Run(env, txs).proposals[key], PollOf(env, Run(env, txs).states[key.0]);
             && q.status == Active
             && Group(poll, group, Against) && |group| == |poll.memberCms| - poll.threshold as nat + 1
    ensures var q, poll := Run(env, txs).proposals[key], PollOf(env, Run(env, txs).states[key.0]);
            var todo := NotYet(poll, q, Against, group);
            && 1 <= Missing(poll, q) <= |todo| <= |group|
            && var first := todo[..Missing(poll, q)];
               var c := Run(env, txs + Acts(key, first));
               && (Fits(poll, q, first) <==> AllTaken(env, txs, key, first))
               && (Fits(poll, q, first) ==> key in c.proposals && c.proposals[key].status == Rejected)
  {
    hide Honest, Run, OpsOn, Opens, CallsOf, RunOps, ActionHash, Address, EncodeProposal, Group, Fits, Missing, NotYet, Accounted,
         AllTaken, PollOf, OpenedAt;
    var j, poll, p, ops := EveryProposalIsAccounted(env, txs, key);
    AccountedMeans(env, txs, key, j, poll, p, ops);
    ContinuedIsRegular(env, txs, key, group, j, poll, p, ops);
    CallsFollowStatus(poll, p, ops);
    VetoSuffices(poll, p, ops, group);
    var q := After(poll, p, ops);
    var first := NotYet(poll, q, Against, group)[..Missing(poll, q)];
    TakenMeans(env, txs, key, poll, p, ops, first);
    ContinuedRecord(env, txs, key, poll, p, ops, first);
  }

  // Builds

  lemma PollOfBuild(env: Env, s: MultisigState, arith: Arith)
    ensures PollOf(env.(arith := arith), s) == Built(PollOf(env, s), arith)
  {
    hide CombineSeeds;
    assert CombineSeeds(env.(arith := arith), StateSeeds(s.createKey)) == CombineSeeds(env, StateSeeds(s.createKey)) by {
      CombineIgnoresBuild(env, StateSeeds(s.createKey), arith);
    }
  }

  lemma CombineIgnoresBuild(env: Env, seeds: seq<Bytes32>, arith: Arith)
    ensures CombineSeeds(env.(arith := arith), seeds) == CombineSeeds(env, seeds)
  {
  }

  lemma StepIgnoresBuild(env: Env, c: Chain, tx: Tx, arith: Arith)
    requires tx.Open? && tx.key.0 in c.states ==> c.states[tx.key.0].transactionIndex < MAX_U64
    requires tx.Act? && tx.key.0 in c.states && tx.key in c.proposals ==>
               var poll := PollOf(env, c.states[tx.key.0]);
               Attempt(Built(poll, arith), c.proposals[tx.key], tx.op) == Attempt(poll, c.proposals[tx.key], tx.op)
    ensures Step(env.(arith := arith), c, tx) == Step(env, c, tx)
  {
    if tx.Act? && tx.key.0 in c.states {
      PollOfBuild(env, c.states[tx.key.0], arith);
    }
    hide Attempt, EncodeState, EncodeProposal, Tagged, PollOf, Built, IndicesInRange, NoDup;
  }

  lemma RunSnoc(env: Env, init: seq<Tx>, last: Tx)
    ensures Run(env, init + [last]) == Step(env, Run(env, init), last)
  {
    hide Step;
    assert (init + [last])[..|init|] == init;
  }

  lemma LastIgnoresBuild(env: Env, init: seq<Tx>, last: Tx, arith: Arith)
    requires DistinctMembers(env, init + [last]) && |init| < MAX_U64
    ensures Step(env.(arith := arith), Run(env, init), last) == Step(env, Run(env, init), last)
  {
    hide DistinctMembers, Step, Dense, Attempt, PollOf, Built, Run;
    var c := Run(env, init);
    if last.Open? && last.key.0 in c.states {
      IndicesAreDense(env, init, last.key);
      CounterIsSmall(c, last.key, |init|);
    }
    if last.Act? && last.key.0 in c.states && last.key in c.proposals {
      ActIgnoresBuild(env, init, last, arith);
    }
    StepIgnoresBuild(env, c, last, arith);
  }

  lemma CounterIsSmall(c: Chain, key: Key, count: nat)
    requires Dense(c, key, count) && key.0 in c.states
    ensures c.states[key.0].transactionIndex <= count
  {
  }

  lemma ActIgnoresBuild(env: Env, init: seq<Tx>, last: Tx, arith: Arith)
    requires DistinctMembers(env, init + [last]) && last.Act?
    requires last.key.0 in Run(env, init).states && last.key in Run(env, init).proposals
    ensures var poll, q := PollOf(env, Run(env, init).states[last.key.0]), Run(env, init).proposals[last.key];
            Attempt(Built(poll, arith), q, last.op) == Attempt(poll, q, last.op)
  {
    hide DistinctMembers, Run, OpsOn, CallsOf, RunOps, Accounted, Attempt, Eligible, MarkOf, Built, OpenedAt;
    assert init + [last] == init + Acts(last.key, [last.op]);
    var j, poll, p, ops := EveryProposalIsAccounted(env, init, last.key);
    AccountedMeans(env, init, last.key, j, poll, p, ops);
    ContinuedIsLawful(env, init, last.key, [last.op], j, poll, p, ops);
    var q, op := After(poll, p, ops), last.op;
    if op.Vote? && op.choice == Against && Eligible(poll, op) && MarkOf(poll, q, Against, op.salt) !in q.rejectNullifiers {
      RejectionFits(poll, p, ops, op);
    }
    AttemptIgnoresBuild(poll, q, op, arith);
  }

  lemma DistinctMembersPrefix(env: Env, init: seq<Tx>, last: Tx)
    requires DistinctMembers(env, init + [last])
    ensures DistinctMembers(env, init)
  {
    hide MemberPreimage;
    var full := init + [last];
    assert forall i :: 0 <= i < |init| ==> full[i] == init[i];
    assert MemberHashes(init) <= MemberHashes(full);
  }

  lemma OneMoreStep(env: Env, init: seq<Tx>, last: Tx, arith: Arith)
    requires DistinctMembers(env, init + [last]) && |init| < MAX_U64
    requires Run(env.(arith := arith), init) == Run(env, init)
    ensures Run(env.(arith := arith), init + [last]) == Run(env, init + [last])
  {
    hide DistinctMembers, Step, Run;
    LastIgnoresBuild(env, init, last, arith);
    RunSnoc(env, init, last);
    RunSnoc(env.(arith := arith), init, last);
  }

  /** Arithmetic safety of the whole chain: neither the subtraction in is_dead nor the counter ever leaves its type,
      so a build that panics on overflow and one that wraps around go through the same states. */
  lemma {:induction false} RunIgnoresBuild(env: Env, txs: seq<Tx>, arith: Arith)
    requires DistinctMembers(env, txs) && |txs| <= MAX_U64
    ensures Run(env.(arith := arith), txs) == Run(env, txs)
  {
    if txs != [] {
      hide DistinctMembers, Step, Run;
      var init, last := txs[..|txs| - 1], txs[|txs| - 1];
      assert txs == init + [last];
      DistinctMembersPrefix(env, init, last);
      RunIgnoresBuild(env, init, arith);
      OneMoreStep(env, init, last, arith);
    } else {
      assert Run(env, []) == GENESIS == Run(env.(arith := arith), []);
    }
  }
}
