/** Each instruction in terms of the bytes it is given: exactly when it succeeds, what it writes, and why it fails. */
module Instructions {
  import opened Wrappers
  import opened Words
  import opened Lists
  import opened Records
  import opened Borsh
  import opened Hashing
  import opened Program
  import opened Chains
  import opened Ledgers

  /** The account as the platform knows it before anyone has used it. */
  predicate Untouched(a: Account) {
    a.programOwner == [0, 0, 0, 0, 0, 0, 0, 0] && a.balance == 0 && a.nonce == 0 && a.data == []
  }

  /** CreateMultisig succeeds on one untouched account, for 1 <= M <= N <= 16 distinct commitments that fit, writes them
      with the counter at zero, and claims the account; otherwise it names the first condition that fails. */
  lemma CreateOnBytes(
      env: Env, accounts: seq<AccountWithMetadata>, createKey: Bytes32, threshold: u8, memberCms: seq<Bytes32>)
    ensures var r := Process(env, accounts, CreateMultisig(createKey, threshold, memberCms));
            var n := |memberCms|;
            var distinct := forall i, j :: 0 <= i < j < n ==> memberCms[i] != memberCms[j];
            && (r.Ok? <==> |accounts| == 1 && Untouched(accounts[0].account) && 1 <= threshold as nat <= n <= 16
                           && distinct && 45 + 32 * n <= env.dataLimit as nat)
            && (r.Ok? ==>
                  && |r.value.posts| == 1 && r.value.calls == []
                  && r.value.posts[0].account
                     == accounts[0].account.(data := EncodeState(MultisigState(createKey, threshold, memberCms, 0)))
                  && r.value.posts[0].claim == Some(CombineSeeds(env, [Dst(StateTag), createKey])))
            && (r == Err(BadAccountCount) <==> |accounts| != 1)
            && (|accounts| == 1 ==> (r == Err(AlreadyInitialized) <==> !Untouched(accounts[0].account)))
            && (|accounts| == 1 && Untouched(accounts[0].account) ==>
                  && (r == Err(BadThreshold) <==> !(1 <= threshold as nat <= n <= 16))
                  && (r == Err(DuplicateMember) <==> 1 <= threshold as nat <= n <= 16 && !distinct))
  {
    hide EncodeState, CombineSeeds, Dst;
    StateSize(MultisigState(createKey, threshold, memberCms, 0));
  }

  /** Propose succeeds on a state and an untouched account, for the index after the counter, indices that name targets,
      and records that fit; it counts the proposal in the one account and writes and claims the other. */
  lemma ProposeOnBytes(
      env: Env, accounts: seq<AccountWithMetadata>, s: MultisigState, createKey: Bytes32, index: u64, a: ProposalAction)
    requires |accounts| == 2 && DecodeState(accounts[0].account.data) == Some(s)
    ensures var r := Process(env, accounts, Propose(createKey, index, a.targetProgramId, a.targetInstructionData,
                                                    a.targetAccountCount, a.pdaSeeds, a.authorizedIndices));
            var p := Proposal(index, createKey, a, ActionHash(env, a), [], [], Active);
            var s' := s.(transactionIndex := index);
            var next := if s.transactionIndex < MAX_U64 then index == s.transactionIndex + 1
                        else env.arith.Wrapping? && index == 0;
            var inRange := forall k :: 0 <= k < |a.authorizedIndices| ==>
                             a.authorizedIndices[k] as int < a.targetAccountCount as int;
            && (r.Ok? <==> && s.createKey == createKey && Untouched(accounts[1].account) && next && inRange
                           && 45 + 32 * |s.memberCms| <= env.dataLimit as nat
                           && |EncodeProposal(p)| <= env.dataLimit as nat)
            && (r.Ok? ==>
                  && |r.value.posts| == 2 && r.value.calls == []
                  && r.value.posts[0] == PostState(accounts[0].account.(data := EncodeState(s')), None)
                  && r.value.posts[1].account == accounts[1].account.(data := EncodeProposal(p))
                  && r.value.posts[1].claim == Some(CombineSeeds(env, [Dst(ProposalTag), createKey, SeedU64(index)])))
            && (r == Err(StateMismatch) <==> s.createKey != createKey)
            && (s.createKey == createKey ==> (r == Err(ProposalExists) <==> !Untouched(accounts[1].account)))
            && (s.createKey == createKey && Untouched(accounts[1].account) ==>
                  && (s.transactionIndex < MAX_U64 ==> (r == Err(BadProposalIndex) <==> !next))
                  && (r == Err(BadAuthorizedIndex) <==> next && !inRange))
  {
    hide EncodeState, DecodeState, EncodeProposal, CombineSeeds, Dst, SeedU64, ActionHash, NextIndex;
    NextIndexIs(env.arith, s.transactionIndex, index);
    NextIndexExists(env.arith, s.transactionIndex);
    StateSize(s.(transactionIndex := index));
  }

  lemma NextIndexExists(arith: Arith, transactionIndex: u64)
    ensures NextIndex(arith, transactionIndex).None? <==> transactionIndex == MAX_U64 && arith.Checked?
  {
  }

  /** The voter controls the account, and it commits with the salt to a member. */
  predicate Admitted(env: Env, s: MultisigState, voter: AccountWithMetadata, salt: Bytes32) {
    voter.isAuthorized && MemberCommitment(env, salt, voter.accountId) in s.memberCms
  }

  /** Approve retracts the voter's rejection, if there is one, and appends the voter's approval. */
  lemma ApproveOnBytes(env: Env, accounts: seq<AccountWithMetadata>, s: MultisigState, p: Proposal, key: Key, salt: Bytes32)
    requires |accounts| == 3 && Hold(accounts, s, p, key)
    ensures var r := Process(env, accounts, Approve(key.0, key.1, salt));
            var mark := VoteNullifier(env, salt, accounts[0].accountId, key.1, p.actionHash);
            var retracted := RejectNullifier(env, salt, accounts[0].accountId, key.1, p.actionHash);
            var q := p.(rejectNullifiers := Without(p.rejectNullifiers, retracted),
                        voteNullifiers := p.voteNullifiers + [mark]);
            && (r.Ok? <==> && Admitted(env, s, accounts[2], salt) && p.status == Active && mark !in p.voteNullifiers
                           && |EncodeProposal(q)| <= env.dataLimit as nat)
            && (r.Ok? ==>
                  r.value == Output([PostState(accounts[0].account, None),
                                     PostState(accounts[1].account.(data := EncodeProposal(q)), None),
                                     PostState(accounts[2].account, None)], []))
            && (Admitted(env, s, accounts[2], salt) && p.status == Active ==>
                  (r == Err(DuplicateVote) <==> mark in p.voteNullifiers))
  {
    hide EncodeProposal, DecodeProposal, DecodeState, MemberCommitment, VoteNullifier, RejectNullifier, Without;
  }

  /** Reject retracts the voter's approval, if there is one, appends the voter's rejection, and makes the proposal Rejected
      when fewer than M members do not reject. With more than N rejections, which no run reaches, a build that checks
      panics, and another computes modulo the width of usize. */
  lemma RejectOnBytes(env: Env, accounts: seq<AccountWithMetadata>, s: MultisigState, p: Proposal, key: Key, salt: Bytes32)
    requires |accounts| == 3 && Hold(accounts, s, p, key)
    ensures var r := Process(env, accounts, Reject(key.0, key.1, salt));
            var mark := RejectNullifier(env, salt, accounts[0].accountId, key.1, p.actionHash);
            var retracted := VoteNullifier(env, salt, accounts[0].accountId, key.1, p.actionHash);
            var left := |s.memberCms| - (|p.rejectNullifiers| + 1);
            var wrapped := if left < 0 && env.arith.Wrapping? then left + env.arith.usizeModulus else left;
            var q := p.(voteNullifiers := Without(p.voteNullifiers, retracted),
                        rejectNullifiers := p.rejectNullifiers + [mark],
                        status := if wrapped < s.threshold as int then Rejected else Active);
            && (r.Ok? <==> && Admitted(env, s, accounts[2], salt) && p.status == Active && mark !in p.rejectNullifiers
                           && (left >= 0 || env.arith.Wrapping?) && |EncodeProposal(q)| <= env.dataLimit as nat)
            && (r.Ok? ==>
                  r.value == Output([PostState(accounts[0].account, None),
                                     PostState(accounts[1].account.(data := EncodeProposal(q)), None),
                                     PostState(accounts[2].account, None)], []))
            && (Admitted(env, s, accounts[2], salt) && p.status == Active ==>
                  (r == Err(DuplicateReject) <==> mark in p.rejectNullifiers))
  {
    hide EncodeProposal, DecodeProposal, DecodeState, MemberCommitment, VoteNullifier, RejectNullifier, Without;
  }

  /** Why a vote on a stored proposal is refused before it is looked at, in the order of the checks. */
  lemma VoteRefused(
      env: Env, accounts: seq<AccountWithMetadata>, s: MultisigState, p: Proposal, key: Key, salt: Bytes32, choice: Choice)
    requires |accounts| == 3 && Hold(accounts, s, p, key)
    ensures var r := Process(env, accounts, if choice == For then Approve(key.0, key.1, salt) else Reject(key.0, key.1, salt));
            && (r == Err(MemberNotAuthorized) <==> !accounts[2].isAuthorized)
            && (accounts[2].isAuthorized ==>
                  (r == Err(NotAMember) <==> MemberCommitment(env, salt, accounts[2].accountId) !in s.memberCms))
            && (Admitted(env, s, accounts[2], salt) ==> (r == Err(ProposalNotActive) <==> p.status != Active))
  {
    hide EncodeProposal, DecodeProposal, DecodeState, MemberCommitment, VoteNullifier, RejectNullifier, Without;
  }

  /** Execute succeeds on an Active proposal with M approvals and the declared number of targets. It writes the proposal as
      Executed, passes everything else through, and emits the one call that the proposal holds: to its program, with its
      data and seeds, and with the targets given, authorised where they were or where an index lists them. */
  lemma ExecuteOnBytes(env: Env, accounts: seq<AccountWithMetadata>, s: MultisigState, p: Proposal, key: Key)
    requires Hold(accounts, s, p, key)
    ensures var r := Process(env, accounts, Instruction.Execute(key.0, key.1));
            var q, n := p.(status := Executed), |accounts| - 2;
            && (r.Ok? <==> && p.status == Active && |p.voteNullifiers| >= s.threshold as nat
                           && n == p.action.targetAccountCount as nat && |EncodeProposal(q)| <= env.dataLimit as nat)
            && (r.Ok? ==>
                  && |r.value.posts| == |accounts| && |r.value.calls| == 1
                  && r.value.posts[1] == PostState(accounts[1].account.(data := EncodeProposal(q)), None)
                  && (forall i :: 0 <= i < |accounts| && i != 1 ==>
                        r.value.posts[i] == PostState(accounts[i].account, None))
                  && var call := r.value.calls[0];
                  && call.programId == p.action.targetProgramId && call.instructionData == p.action.targetInstructionData
                  && call.pdaSeeds == p.action.pdaSeeds && |call.preStates| == n
                  && (forall i :: 0 <= i < n ==>
                        && call.preStates[i].accountId == accounts[2 + i].accountId
                        && call.preStates[i].account == accounts[2 + i].account
                        && (call.preStates[i].isAuthorized
                            <==> accounts[2 + i].isAuthorized || ListsTarget(p.action.authorizedIndices, i))))
            && (r == Err(ProposalNotActive) <==> p.status != Active)
            && (p.status == Active ==> (r == Err(ThresholdNotMet) <==> |p.voteNullifiers| < s.threshold as nat))
            && (p.status == Active && |p.voteNullifiers| >= s.threshold as nat ==>
                  (r == Err(BadTargetCount) <==> n != p.action.targetAccountCount as nat))
  {
    hide EncodeProposal, DecodeProposal, DecodeState;
    var targets := accounts[2..];
    assert forall i :: 0 <= i < |targets| ==> targets[i] == accounts[2 + i];
    if |targets| == p.action.targetAccountCount as nat {
      forall i | 0 <= i < |targets|
        ensures (i % 0x100) as u8 in p.action.authorizedIndices <==> ListsTarget(p.action.authorizedIndices, i)
      {
        assert i % 0x100 == i;
      }
    }
  }

  predicate ListsTarget(indices: seq<u8>, i: int) {
    exists k :: 0 <= k < |indices| && indices[k] as int == i
  }

  /** Instructions on accounts that do not hold the records they name fail, and say which record is missing. */
  lemma RecordsMissing(env: Env, accounts: seq<AccountWithMetadata>, key: Key, salt: Bytes32, choice: Choice)
    requires |accounts| == 3 && accounts[2].isAuthorized
    ensures var s, p := DecodeState(accounts[0].account.data), DecodeProposal(accounts[1].account.data);
            var vote := Process(env, accounts, if choice == For then Approve(key.0, key.1, salt) else Reject(key.0, key.1, salt));
            var execution := Process(env, accounts, Instruction.Execute(key.0, key.1));
            var isState := s.Some? && s.value.createKey == key.0;
            var isProposal := p.Some? && p.value.createKey == key.0 && p.value.index == key.1;
            && (vote == Err(StateMismatch) <==> !isState) && (execution == Err(StateMismatch) <==> !isState)
            && (isState ==> (execution == Err(ProposalMismatch) <==> !isProposal))
            && (isState && Admitted(env, s.value, accounts[2], salt) ==> (vote == Err(ProposalMismatch) <==> !isProposal))
  {
    hide EncodeProposal, DecodeProposal, DecodeState, MemberCommitment, VoteNullifier, RejectNullifier, Without, Forward;
  }
}
