/** The handlers, step by step as the program runs them, each proved to do what module Program says. */
module Handlers {
  import opened Wrappers
  import opened Words
  import opened Lists
  import opened Records
  import opened Borsh
  import opened Hashing
  import opened Buffers
  import opened Program

  /** A decoded proposal, whose lists and status the handlers change in place. */
  class ProposalRecord {
    const index: u64
    const createKey: Bytes32
    const action: ProposalAction
    const actionHash: Bytes32
    var voteNullifiers: seq<Bytes32>
    var rejectNullifiers: seq<Bytes32>
    var status: Status

    function Value(): Proposal
      reads this
    {
      Proposal(index, createKey, action, actionHash, voteNullifiers, rejectNullifiers, status)
    }

    constructor (p: Proposal)
      ensures Value() == p
    {
      index, createKey, action, actionHash := p.index, p.createKey, p.action, p.actionHash;
      voteNullifiers, rejectNullifiers, status := p.voteNullifiers, p.rejectNullifiers, p.status;
    }

    method RetractApproval(nullifier: Bytes32)
      modifies this`voteNullifiers
      ensures voteNullifiers == Without(old(voteNullifiers), nullifier)
    {
      voteNullifiers := Retain(voteNullifiers, nullifier);
    }

    method RetractRejection(nullifier: Bytes32)
      modifies this`rejectNullifiers
      ensures rejectNullifiers == Without(old(rejectNullifiers), nullifier)
    {
      rejectNullifiers := Retain(rejectNullifiers, nullifier);
    }
  }

  /** xs.retain(|y| y != x) */
  method Retain<T(==)>(xs: seq<T>, x: T) returns (kept: seq<T>)
    ensures kept == Without(xs, x)
  {
    kept := [];
    for i := 0 to |xs|
      invariant kept == Without(xs[..i], x)
    {
      assert xs[..i + 1][..i] == xs[..i];
      if xs[i] != x {
        kept := kept + [xs[i]];
      }
    }
    assert xs[..|xs|] == xs;
  }

  method CreateMultisig(
      env: Env, accounts: seq<AccountWithMetadata>, createKey: Bytes32, threshold: u8, memberCms: seq<Bytes32>)
    returns (r: Result<Output>)
    ensures r == HandleCreateMultisig(env, accounts, createKey, threshold, memberCms)
  {
    if |accounts| != 1 { return Err(BadAccountCount); }
    if accounts[0].account != DEFAULT_ACCOUNT { return Err(AlreadyInitialized); }
    var n := |memberCms|;
    if !(threshold >= 1 && threshold as nat <= n && n <= MAX_MEMBERS) { return Err(BadThreshold); }
    for i := 0 to n
      invariant NoDup(memberCms[..i])
    {
      if memberCms[i] in memberCms[..i] { return Err(DuplicateMember); }
    }
    assert memberCms[..n] == memberCms;
    var stored := Store(env, accounts[0].account, EncodeState(NewState(createKey, threshold, memberCms)));
    if stored.Err? { return Err(stored.error); }
    var dst := FillDst(StateTag);
    var seed := ComputeCombinedSeeds(env, [dst, createKey]);
    r := Ok(Output([PostState(stored.value, Some(seed))], []));
  }

  method Propose(
      env: Env, accounts: seq<AccountWithMetadata>, createKey: Bytes32, proposalIndex: u64, action: ProposalAction)
    returns (r: Result<Output>)
    ensures r == HandlePropose(env, accounts, createKey, proposalIndex, action)
  {
    hide DecodeState, DecodeProposal, EncodeState, EncodeProposal, NullifierPreimage, MemberPreimage, Dst, SeedU64;
    if |accounts| != 2 { return Err(BadAccountCount); }
    var decoded := DecodeState(accounts[0].account.data);
    if decoded.None? { return Err(StateMismatch); }
    var state := decoded.value;
    if state.createKey != createKey { return Err(StateMismatch); }
    if accounts[1].account != DEFAULT_ACCOUNT { return Err(ProposalExists); }
    var next := NextIndex(env.arith, state.transactionIndex);
    if next.None? { return Err(ArithmeticOverflow); }
    if proposalIndex != next.value { return Err(BadProposalIndex); }
    for k := 0 to |action.authorizedIndices|
      invariant forall j :: 0 <= j < k ==> action.authorizedIndices[j] < action.targetAccountCount
    {
      if !(action.authorizedIndices[k] < action.targetAccountCount) { return Err(BadAuthorizedIndex); }
    }
    state := state.(transactionIndex := proposalIndex);
    var actionHash := ComputeActionHash(env, action);
    var proposal := Proposal(proposalIndex, createKey, action, actionHash, [], [], Active);
    var statePost := Store(env, accounts[0].account, EncodeState(state));
    if statePost.Err? { return Err(statePost.error); }
    var proposalPost := Store(env, accounts[1].account, EncodeProposal(proposal));
    if proposalPost.Err? { return Err(proposalPost.error); }
    var dst := FillDst(ProposalTag);
    var seedIndex := FillSeedU64(proposalIndex);
    var seed := ComputeCombinedSeeds(env, [dst, createKey, seedIndex]);
    r := Ok(Output([PostState(statePost.value, None), PostState(proposalPost.value, Some(seed))], []));
  }

  method CommonVoteChecks(
      env: Env, accounts: seq<AccountWithMetadata>, createKey: Bytes32, proposalIndex: u64, salt: Bytes32)
    returns (r: Result<(MultisigState, Proposal)>)
    ensures r == VoteChecks(env, accounts, createKey, proposalIndex, salt)
  {
    hide DecodeState, DecodeProposal, EncodeState, EncodeProposal, NullifierPreimage, MemberPreimage, Dst, SeedU64;
    if |accounts| != 3 { return Err(BadAccountCount); }
    if !accounts[2].isAuthorized { return Err(MemberNotAuthorized); }
    var state := DecodeState(accounts[0].account.data);
    if state.None? || state.value.createKey != createKey { return Err(StateMismatch); }
    var cm := ComputeMemberCommitment(env, salt, accounts[2].accountId);
    if cm !in state.value.memberCms { return Err(NotAMember); }
    var proposal := DecodeProposal(accounts[1].account.data);
    if proposal.None? || proposal.value.createKey != state.value.createKey || proposal.value.index != proposalIndex {
      return Err(ProposalMismatch);
    }
    if proposal.value.status != Active { return Err(ProposalNotActive); }
    r := Ok((state.value, proposal.value));
  }

  method Approve(
      env: Env, accounts: seq<AccountWithMetadata>, createKey: Bytes32, proposalIndex: u64, salt: Bytes32)
    returns (r: Result<Output>)
    ensures r == HandleVote(env, accounts, createKey, proposalIndex, salt, For)
  {
    hide DecodeState, DecodeProposal, EncodeState, EncodeProposal, NullifierPreimage, MemberPreimage, Dst, SeedU64;
    var checked := CommonVoteChecks(env, accounts, createKey, proposalIndex, salt);
    if checked.Err? { return Err(checked.error); }
    var proposal := new ProposalRecord(checked.value.1);
    var stateId := accounts[0].accountId;
    var nullifier := ComputeNullifier(env, VoteTag, salt, stateId, proposalIndex, proposal.actionHash);
    if nullifier in proposal.voteNullifiers { return Err(DuplicateVote); }
    var rejection := ComputeNullifier(env, RejectTag, salt, stateId, proposalIndex, proposal.actionHash);
    proposal.RetractRejection(rejection);
    proposal.voteNullifiers := proposal.voteNullifiers + [nullifier];
    r := FinalizeVote(env, accounts, proposal.Value());
  }

  method Reject(
      env: Env, accounts: seq<AccountWithMetadata>, createKey: Bytes32, proposalIndex: u64, salt: Bytes32)
    returns (r: Result<Output>)
    ensures r == HandleVote(env, accounts, createKey, proposalIndex, salt, Against)
  {
    hide DecodeState, DecodeProposal, EncodeState, EncodeProposal, NullifierPreimage, MemberPreimage, Dst, SeedU64;
    var checked := CommonVoteChecks(env, accounts, createKey, proposalIndex, salt);
    if checked.Err? { return Err(checked.error); }
    var state := checked.value.0;
    var proposal := new ProposalRecord(checked.value.1);
    var stateId := accounts[0].accountId;
    var nullifier := ComputeNullifier(env, RejectTag, salt, stateId, proposalIndex, proposal.actionHash);
    if nullifier in proposal.rejectNullifiers { return Err(DuplicateReject); }
    var approval := ComputeNullifier(env, VoteTag, salt, stateId, proposalIndex, proposal.actionHash);
    proposal.RetractApproval(approval);
    proposal.rejectNullifiers := proposal.rejectNullifiers + [nullifier];
    var dead := IsDead(env.arith, proposal.Value(), state.threshold, |state.memberCms|);
    if dead.None? { return Err(ArithmeticOverflow); }
    if dead.value {
      proposal.status := Rejected;
    }
    r := FinalizeVote(env, accounts, proposal.Value());
  }

  method ForwardTargets(targets: seq<AccountWithMetadata>, authorizedIndices: seq<u8>)
    returns (preStates: seq<AccountWithMetadata>)
    ensures preStates == Forward(targets, authorizedIndices)
  {
    preStates := [];
    for i := 0 to |targets|
      invariant preStates == Forward(targets, authorizedIndices)[..i]
    {
      var acc := targets[i];
      if (i % 0x100) as u8 in authorizedIndices {
        acc := acc.(isAuthorized := true);
      }
      preStates := preStates + [acc];
    }
  }

  method PushTargets(before: seq<PostState>, targets: seq<AccountWithMetadata>) returns (posts: seq<PostState>)
    ensures posts == before + PassThrough(targets)
  {
    posts := before;
    for i := 0 to |targets|
      invariant posts == before + PassThrough(targets)[..i]
    {
      posts := posts + [PostState(targets[i].account, None)];
    }
  }

  method Execute(env: Env, accounts: seq<AccountWithMetadata>, createKey: Bytes32, proposalIndex: u64)
    returns (r: Result<Output>)
    ensures r == HandleExecute(env, accounts, createKey, proposalIndex)
  {
    hide DecodeState, DecodeProposal, EncodeState, EncodeProposal, NullifierPreimage, MemberPreimage, Dst, SeedU64;
    if |accounts| < 2 { return Err(BadAccountCount); }
    var targets := accounts[2..];
    var state := DecodeState(accounts[0].account.data);
    if state.None? || state.value.createKey != createKey { return Err(StateMismatch); }
    var decoded := DecodeProposal(accounts[1].account.data);
    if decoded.None? || decoded.value.createKey != state.value.createKey || decoded.value.index != proposalIndex {
      return Err(ProposalMismatch);
    }
    var proposal := new ProposalRecord(decoded.value);
    if proposal.status != Active { return Err(ProposalNotActive); }
    if !HasThreshold(proposal.Value(), state.value.threshold) { return Err(ThresholdNotMet); }
    if |targets| != proposal.action.targetAccountCount as nat { return Err(BadTargetCount); }
    proposal.status := Executed;
    var preStates := ForwardTargets(targets, proposal.action.authorizedIndices);
    var call := ChainedCall(proposal.action.targetProgramId, proposal.action.targetInstructionData, preStates,
                            proposal.action.pdaSeeds);
    var post := Store(env, accounts[1].account, EncodeProposal(proposal.Value()));
    if post.Err? { return Err(post.error); }
    var posts := PushTargets([PostState(accounts[0].account, None), PostState(post.value, None)], targets);
    r := Ok(Output(posts, [call]));
  }

  method Dispatch(env: Env, accounts: seq<AccountWithMetadata>, instruction: Instruction) returns (r: Result<Output>)
    ensures r == Process(env, accounts, instruction)
  {
    match instruction
    case CreateMultisig(createKey, threshold, memberCms) =>
      r := CreateMultisig(env, accounts, createKey, threshold, memberCms);
    case Propose(createKey, index, programId, data, count, seeds, indices) =>
      r := Propose(env, accounts, createKey, index, ProposalAction(programId, data, count, seeds, indices));
    case Approve(createKey, index, salt) =>
      r := Approve(env, accounts, createKey, index, salt);
    case Reject(createKey, index, salt) =>
      r := Reject(env, accounts, createKey, index, salt);
    case Execute(createKey, index) =>
      r := Execute(env, accounts, createKey, index);
  }
}
