/** What each instruction of the program does to the accounts it is given: the specification of the
    handlers in module Handlers. A panic is an Err, and leaves no output. */
module Program {
  import opened Wrappers
  import opened Words
  import opened Lists
  import opened Records
  import opened Borsh
  import opened Hashing

  // The platform's side of a call. Of an account, the program changes nothing but the data.

  datatype Account = Account(programOwner: ProgramId, balance: nat, nonce: nat, data: Bytes)

  const DEFAULT_ACCOUNT := Account([0, 0, 0, 0, 0, 0, 0, 0], 0, 0, [])

  datatype AccountWithMetadata = AccountWithMetadata(accountId: Bytes32, account: Account, isAuthorized: bool)

  /** claim is the PDA seed under which the platform is asked to hand over a fresh account. */
  datatype PostState = PostState(account: Account, claim: Option<Bytes32>)

  datatype ChainedCall = ChainedCall(
    programId: ProgramId,
    instructionData: seq<u32>,
    preStates: seq<AccountWithMetadata>,
    pdaSeeds: seq<Bytes32>)

  datatype Output = Output(posts: seq<PostState>, calls: seq<ChainedCall>)

  datatype Instruction =
    | CreateMultisig(createKey: Bytes32, threshold: u8, memberCms: seq<Bytes32>)
    | Propose(
        createKey: Bytes32,
        proposalIndex: u64,
        targetProgramId: ProgramId,
        targetInstructionData: seq<u32>,
        targetAccountCount: u8,
        pdaSeeds: seq<Bytes32>,
        authorizedIndices: seq<u8>)
    | Approve(createKey: Bytes32, proposalIndex: u64, memberSalt: Bytes32)
    | Reject(createKey: Bytes32, proposalIndex: u64, memberSalt: Bytes32)
    | Execute(createKey: Bytes32, proposalIndex: u64)

  datatype Choice = For | Against

  /** Writing an encoded record panics when account data cannot hold it. */
  function Store(env: Env, account: Account, data: Bytes): Result<Account> {
    if |data| <= env.dataLimit as nat then Ok(account.(data := data)) else Err(DataTooLong)
  }

  function HandleCreateMultisig(
      env: Env, accounts: seq<AccountWithMetadata>, createKey: Bytes32, threshold: u8, memberCms: seq<Bytes32>)
    : (r: Result<Output>)
    ensures r.Ok? ==> |r.value.posts| == |accounts|
  {
    if |accounts| != 1 then Err(BadAccountCount) else
    :- Need(accounts[0].account == DEFAULT_ACCOUNT, AlreadyInitialized);
    :- Need(1 <= threshold as nat <= |memberCms| <= MAX_MEMBERS, BadThreshold);
    :- Need(NoDup(memberCms), DuplicateMember);
    var post :- Store(env, accounts[0].account, EncodeState(NewState(createKey, threshold, memberCms)));
    Ok(Output([PostState(post, Some(CombineSeeds(env, StateSeeds(createKey))))], []))
  }

  /** Every index that asks for authorization names one of the declared target accounts. */
  predicate IndicesInRange(action: ProposalAction) {
    forall k :: 0 <= k < |action.authorizedIndices| ==> action.authorizedIndices[k] < action.targetAccountCount
  }

  function HandlePropose(
      env: Env, accounts: seq<AccountWithMetadata>, createKey: Bytes32, proposalIndex: u64, action: ProposalAction)
    : (r: Result<Output>)
    ensures r.Ok? ==> |r.value.posts| == |accounts|
  {
    if |accounts| != 2 then Err(BadAccountCount) else
    var decoded := DecodeState(accounts[0].account.data);
    :- Need(decoded.Some? && decoded.value.createKey == createKey, StateMismatch);
    var state := decoded.value;
    :- Need(accounts[1].account == DEFAULT_ACCOUNT, ProposalExists);
    var next := NextIndex(env.arith, state.transactionIndex);
    :- Need(next.Some?, ArithmeticOverflow);
    :- Need(proposalIndex == next.value, BadProposalIndex);
    :- Need(IndicesInRange(action), BadAuthorizedIndex);
    var statePost :- Store(env, accounts[0].account, EncodeState(state.(transactionIndex := proposalIndex)));
    var proposalPost :-
      Store(env, accounts[1].account, EncodeProposal(NewProposal(env, proposalIndex, createKey, action)));
    Ok(Output(
         [PostState(statePost, None),
          PostState(proposalPost, Some(CombineSeeds(env, ProposalSeeds(createKey, proposalIndex))))],
         []))
  }

  function VoteChecks(
      env: Env, accounts: seq<AccountWithMetadata>, createKey: Bytes32, proposalIndex: u64, salt: Bytes32)
    : (r: Result<(MultisigState, Proposal)>)
    ensures r.Ok? ==> |accounts| == 3
  {
    if |accounts| != 3 then Err(BadAccountCount) else
    :- Need(accounts[2].isAuthorized, MemberNotAuthorized);
    var state := DecodeState(accounts[0].account.data);
    :- Need(state.Some? && state.value.createKey == createKey, StateMismatch);
    :- Need(MemberCommitment(env, salt, accounts[2].accountId) in state.value.memberCms, NotAMember);
    var proposal := DecodeProposal(accounts[1].account.data);
    :- Need(proposal.Some? && proposal.value.createKey == state.value.createKey && proposal.value.index == proposalIndex,
            ProposalMismatch);
    :- Need(proposal.value.status == Active, ProposalNotActive);
    Ok((state.value, proposal.value))
  }

  /** The nullifier that records a salt's vote for a choice on a proposal. */
  function Mark(env: Env, stateId: Bytes32, p: Proposal, choice: Choice, salt: Bytes32): Bytes32 {
    match choice
    case For => VoteNullifier(env, salt, stateId, p.index, p.actionHash)
    case Against => RejectNullifier(env, salt, stateId, p.index, p.actionHash)
  }

  /** The vote itself, once its voter and the proposal have been checked. */
  function CastVote(env: Env, stateId: Bytes32, threshold: u8, memberCount: nat, p: Proposal, salt: Bytes32, choice: Choice)
    : Result<Proposal>
  {
    var approval, rejection := Mark(env, stateId, p, For, salt), Mark(env, stateId, p, Against, salt);
    match choice
    case For =>
      :- Need(approval !in p.voteNullifiers, DuplicateVote);
      Ok(p.(rejectNullifiers := Without(p.rejectNullifiers, rejection),
            voteNullifiers := p.voteNullifiers + [approval]))
    case Against =>
      :- Need(rejection !in p.rejectNullifiers, DuplicateReject);
      var q := p.(voteNullifiers := Without(p.voteNullifiers, approval),
                  rejectNullifiers := p.rejectNullifiers + [rejection]);
      var dead := IsDead(env.arith, q, threshold, memberCount);
      :- Need(dead.Some?, ArithmeticOverflow);
      Ok(if dead.value then q.(status := Rejected) else q)
  }

  function FinalizeVote(env: Env, accounts: seq<AccountWithMetadata>, p: Proposal): Result<Output>
    requires |accounts| == 3
  {
    var post :- Store(env, accounts[1].account, EncodeProposal(p));
    Ok(Output([PostState(accounts[0].account, None), PostState(post, None), PostState(accounts[2].account, None)], []))
  }

  function HandleVote(
      env: Env, accounts: seq<AccountWithMetadata>, createKey: Bytes32, proposalIndex: u64, salt: Bytes32, choice: Choice)
    : (r: Result<Output>)
    ensures r.Ok? ==> |r.value.posts| == |accounts|
  {
    var (state, proposal) :- VoteChecks(env, accounts, createKey, proposalIndex, salt);
    var voted :-
      CastVote(env, accounts[0].accountId, state.threshold, |state.memberCms|, proposal, salt, choice);
    FinalizeVote(env, accounts, voted)
  }

  /** The target accounts as the callee sees them: the listed ones authorized, nothing else changed.
      The comparison is on i as u8, which drops the high bits. */
  function Forward(targets: seq<AccountWithMetadata>, authorizedIndices: seq<u8>): seq<AccountWithMetadata> {
    seq(|targets|, i requires 0 <= i < |targets| =>
      if (i % 0x100) as u8 in authorizedIndices then targets[i].(isAuthorized := true) else targets[i])
  }

  function ExecuteRecord(threshold: u8, p: Proposal, targets: seq<AccountWithMetadata>)
    : Result<(Proposal, ChainedCall)>
  {
    if p.status != Active then Err(ProposalNotActive) else
    :- Need(HasThreshold(p, threshold), ThresholdNotMet);
    :- Need(|targets| == p.action.targetAccountCount as nat, BadTargetCount);
    Ok((p.(status := Executed),
        ChainedCall(p.action.targetProgramId, p.action.targetInstructionData,
                    Forward(targets, p.action.authorizedIndices), p.action.pdaSeeds)))
  }

  function PassThrough(accounts: seq<AccountWithMetadata>): seq<PostState> {
    seq(|accounts|, i requires 0 <= i < |accounts| => PostState(accounts[i].account, None))
  }

  function HandleExecute(env: Env, accounts: seq<AccountWithMetadata>, createKey: Bytes32, proposalIndex: u64)
    : (r: Result<Output>)
    ensures r.Ok? ==> |r.value.posts| == |accounts|
  {
    if |accounts| < 2 then Err(BadAccountCount) else
    var state := DecodeState(accounts[0].account.data);
    :- Need(state.Some? && state.value.createKey == createKey, StateMismatch);
    var proposal := DecodeProposal(accounts[1].account.data);
    :- Need(proposal.Some? && proposal.value.createKey == state.value.createKey && proposal.value.index == proposalIndex,
            ProposalMismatch);
    var (executed, call) :- ExecuteRecord(state.value.threshold, proposal.value, accounts[2..]);
    var post :- Store(env, accounts[1].account, EncodeProposal(executed));
    Ok(Output([PostState(accounts[0].account, None), PostState(post, None)] + PassThrough(accounts[2..]), [call]))
  }

  function Process(env: Env, accounts: seq<AccountWithMetadata>, instruction: Instruction): (r: Result<Output>)
    ensures r.Ok? ==> |r.value.posts| == |accounts|
  {
    match instruction
    case CreateMultisig(createKey, threshold, memberCms) =>
      HandleCreateMultisig(env, accounts, createKey, threshold, memberCms)
    case Propose(createKey, index, programId, data, count, seeds, indices) =>
      HandlePropose(env, accounts, createKey, index, ProposalAction(programId, data, count, seeds, indices))
    case Approve(createKey, index, salt) => HandleVote(env, accounts, createKey, index, salt, For)
    case Reject(createKey, index, salt) => HandleVote(env, accounts, createKey, index, salt, Against)
    case Execute(createKey, index) => HandleExecute(env, accounts, createKey, index)
  }
}
