# Private multisig: a model and its proofs

A multisig here is a list of N salted commitments and a threshold M. Anyone may open a proposal; a member votes for or
against it by showing a salt that, with an account the member controls, hashes to one of the commitments; anyone may
execute a proposal that M members approve. The program never stores who voted: a proposal holds two lists of opaque
nullifiers, and everything is decided from their lengths. The central question is therefore whether those lengths mean
what they are taken to mean, in every state that any sequence of successful and failing attempts can reach. The project
models the five handlers, the records and encodings they rely on, the chain they run on, and the optimistic protocol of
private votes, and proves that they do.

## How the model is built

| module | what it is |
|---|---|
| `Words`, `Wrappers`, `Lists` | machine words and little-endian encodings; results and error codes; lists without repetition, and counting |
| `Records`, `Borsh` | the stored records, and their layout in bytes |
| `Hashing`, `Buffers` | domain tags, hash preimages and address seeds; the buffers in which the program fills them |
| `Layouts` | where every byte of the records and of the hash inputs lies, by offset and value |
| `Program` | what each instruction does to the accounts it is given, as functions on account bytes |
| `Handlers` | the handlers step by step, with a record changed in place, each proved to compute its function in `Program` |
| `Ballots` | the abstract ballot: each salt votes for, against, or not at all |
| `Voting`, `Refinement` | one proposal and all that is attempted on it, and the proof that its lists stand for a ballot |
| `Bounds` | what holds even if nullifiers collide: the bound on votes, the meaning of the status, safe arithmetic |
| `Outcomes`, `Power`, `Executions` | what follows: safety, liveness, the power of M and of N - M + 1 members, commutation, exactly-once calls |
| `Chains`, `Runs` | any number of multisigs and proposals, a log of emitted calls, and what holds of all their runs |
| `Ledgers`, `Instructions` | the same chain as account bytes at derived addresses; when each instruction succeeds there, what it writes, and with which error it fails |
| `Optimism` | clients that read two accounts, one after the other, compute a vote locally, and have it included only if nothing changed |
| `Guarantees` | the results together: what ledger bytes and emitted calls say after any interleaving |
| `Limits` | multisigs and proposals that the program accepts and whose members cannot finish what they start |
| `Feasibility` | a run that meets every hypothesis, from the empty chain to an emitted call |

A failing assertion is a panic, and leaves the chain as it was; it is an `Err` with the program's own error code.

The simulation goes in four steps: the handlers compute the functions of `Program`, each behind the instruction that
`Handlers.Dispatch` takes to it; those functions, on account bytes,
are attempts on records (`Ledgers`); the records of a chain are those of each proposal's own attempts, replayed
(`Chains.Projection`, `Runs.EveryProposalIsAccounted`); and the attempts on one proposal are a run of the ballot
(`Refinement.RunSimulates`). A theorem about the ballot is therefore one about the bytes of the ledger.

## What is assumed

Nothing is an axiom. Each theorem names what it needs, as a hypothesis on its own run; `Feasibility.SomeRunExecutes` is a
run that meets them all.

- SHA-256 (section 6.2 of FIPS 180-4) is a parameter `Env.sha`. `CollisionFree` asks that no two of finitely many inputs
  collide. Bounds on the lists, on their arithmetic and on storage ask it of the commitments that votes compute alone
  (`Voting.CommitmentsDistinct`, `Runs.DistinctMembers`); results on who voted ask it of the nullifiers too
  (`Voting.NoCollision`, `Runs.Honest`); what concerns calls and indices asks nothing. Injectivity of the preimages is
  proved.
- The platform's address derivation is a parameter `Env.pda`; `AddressesDistinct` asks for distinct addresses of the
  accounts that a run names. `Hashing.NamesHaveDistinctAddresses` reduces that to the hash and the derivation.
- The size limit of account data is a parameter below 2^32. The program panics when a record does not fit, so a result
  that promises success states exactly when there is room.
- A build either panics on overflow or wraps around (`Records.Arith`). `Runs.RunIgnoresBuild` proves that runs of at most
  2^64 - 1 transactions cannot tell, so `is_dead` never underflows. `Runs.IndicesAreDense` needs that bound only for a
  build that wraps around.
- A transaction passes the accounts at the derived addresses, as the SDK does, and targets are other accounts. The handlers
  themselves take any account with the right bytes: `Ledgers.HandleVoteIsAttempt` and `Ledgers.HandleExecuteIsAttempt`
  hold at any address, and `Ledgers.ExecuteReadsTheSuppliedThreshold` says what the rule on addresses is needed for.
- A submitted private vote is consumed when it is included, once: the platform's own rule for private account states.

A voter is a salt. Nullifiers bind the salt and not the account, while creation checks that commitments differ, not that
salts do. The repository's documents say that a nullifier is unique to a member and a proposal; two members with one salt
are a single voter in the code (`Limits.SharedSaltIsOneVoter`; `Power.SaltVotesOnce` says exactly when a member's vote
succeeds). Counting bounds hold regardless; results that promise that members can finish something ask for members with
distinct salts, and `Outcomes.TooFewSaltsNeverExecute` shows that M distinct salts are needed as well as enough. An account
that holds several commitments is several members.

Likewise nothing promises a proposal room for its votes: `Limits.AcceptedButStuck` is a proposal that the program accepts
and that no one can ever decide, and `Power.StuckExactlyWhenFull` says which ones those are. The successes that
`Power.NeverStuck` and `Power.VetoSuffices` state come about if and only if the account has room for the voters that would
be new (`Outcomes.Fits`), which the members can compute beforehand from the account and their salts.

## Model

| member | source | states |
|---|---|---|
| Refinement.RunSimulates | multisig_program/src/approve.rs:38-66 | After any attempts at all on a fresh proposal, failed ones included, each list has no repetition and is exactly the set of nullifiers of the salts that vote that way; the status is that of the ballot; what was proposed is untouched |
| Refinement.CastVoteSimulates | multisig_program/src/reject.rs:28-49 | A vote succeeds iff the salt does not vote that way already, and turns lists that stand for a ballot into lists that stand for the ballot with that one entry changed; the subtraction in the death test never underflows, in any build |
| Refinement.AttemptSimulates | multisig_program/src/approve.rs:84-109 | Any attempt by anyone, on an Active proposal or not, succeeds iff the ballot machine accepts it, and then reaches the state that it reaches |
| Refinement.ElectorateBound | multisig_program/src/approve.rs:95-96 | However many votes are attempted, at most N salts ever vote as members, if the commitments that the votes compute do not collide |
| Voting.ListCounts | pms_core/src/lib.rs:218-229 | The length of a list is the true number of salts that vote that way |
| Voting.MarkTellsVote | sdk/src/lib.rs:189-203 | A salt's nullifier is in a list iff that salt's ballot entry is that choice |
| Voting.RetractIsFaithful | multisig_program/src/reject.rs:35-41 | Removing a salt's opposite nullifier forgets that salt's opposite vote, and no other salt's |
| Outcomes.SucceedsAgrees | multisig_program/src/lib.rs:176-227 | In any run, an attempt succeeds on the lists iff it succeeds on the ballot |
| Bounds.RunKeeps | multisig_program/src/reject.rs:28-49 | Even if nullifiers collide, in every reachable state a salt of its own that has voted that way stands behind each nullifier, at most N in all |
| Bounds.StatusMeans | pms_core/src/lib.rs:226-229 | As long as commitments do not collide, in every reachable state approvals and rejections number at most N together, without repetition; Active means that the threshold can still be met, Rejected that it cannot and was not, Executed that it was; the encoded size is the size at creation and 32 bytes a nullifier |
| Outcomes.ExecutionNeedsThreshold | multisig_program/src/execute.rs:39-55 | When an execution succeeds, at least M distinct commitments of the multisig, with at least M distinct salts, each have a successful approval, by an account whose holder authorised it, with no later successful rejection by that salt |
| Outcomes.TooFewApproversNeverExecute | multisig_program/src/execute.rs:44-48 | In a run in which fewer than M distinct members attempt an approval, no execution succeeds |
| Outcomes.TooFewSaltsNeverExecute | multisig_program/src/execute.rs:44-48 | Nor does one in a run in which members attempt approvals with fewer than M salts between them, however many others reject |
| Outcomes.RejectedByVeto | multisig_program/src/reject.rs:43-47 | In every reachable state the proposal is Rejected iff more than N - M distinct salts of members have a successful rejection with no later successful approval by that salt, and then more than N - M distinct commitments do |
| Outcomes.TooFewRejectersNeverReject | multisig_program/src/reject.rs:43-47 | In a run in which at most N - M members, or members with at most N - M salts, attempt a rejection, the proposal is never Rejected |
| Power.NeverStuck | multisig_program/src/approve.rs:47-64 | From every reachable Active proposal, for any M members with distinct salts in any order: every approval by those not yet approving and then the execution succeed, iff the account has room for those who never voted; the proposal is then Executed |
| Power.FullProposalIsStuck | multisig_program/src/approve.rs:123-127 | A proposal created with fewer than 32 bytes left in its account stays as it is through every run: no attempt on it ever succeeds |
| Power.StuckExactlyWhenFull | multisig_program/src/approve.rs:123-127 | For a fresh proposal that some member can vote on, no attempt in any run ever succeeds iff fewer than 32 bytes are left |
| Limits.AcceptedButStuck | multisig_program/src/propose.rs:41-58 | On any reachable chain Propose accepts, as a multisig's next proposal, one that fills its account; after any attempts by anyone it is as it was, and nothing was called |
| Power.SaltVotesOnce | multisig_program/src/approve.rs:41-51 | On a reachable Active proposal with room, an eligible member's vote succeeds iff no vote that way stands for the member's salt, whichever member cast it |
| Limits.SharedSaltIsOneVoter | multisig_program/src/create_multisig.rs:37-43 | Creation accepts two distinct commitments made with one salt; both voters are eligible on the first proposal; the first one's approval succeeds and the second one's then fails |
| Limits.SharedSaltNeverExecutes | multisig_program/src/execute.rs:44-48 | Such a 2-of-2 multisig never executes a proposal, whatever is attempted after both have approved |
| Power.VetoSuffices | multisig_program/src/reject.rs:43-47 | Among any N - M + 1 members with distinct salts enough do not reject yet; as many of them as rejections are missing all succeed iff the account has room for those who never voted, and the last one makes the proposal Rejected |
| Power.VetoIsExact | multisig_program/src/reject.rs:43-47 | A successful rejection leaves the proposal Rejected iff more than N - M rejections then stand, and Active otherwise |
| Power.RejectionsDecide | pms_core/src/lib.rs:226-229 | After any number of new rejections that fit, the proposal is Rejected iff they are at least as many as were missing, and Active before that |
| Power.VoteUnlessVoted | multisig_program/src/reject.rs:28-47 | On a reachable Active proposal a member's vote succeeds iff it is not the member's current vote and fits the account |
| Power.ApproveUnlessVoted | sdk/src/lib.rs:189-203 | On a reachable Active proposal a member can approve iff has_voted answers no and the account has 32 bytes more, or none if a rejection is retracted |
| Power.LastVoteWins | multisig_program/src/approve.rs:47-64 | On a proposal that is still Active, a member's nullifier is in exactly the list of the member's last attempt, failed ones counted, iff that last attempt did not find the account full |
| Power.RoomyLastFits | multisig_program/src/approve.rs:123-127 | If the account has room for a nullifier of every member, no member's last attempt ever finds it full |
| Power.ParticipationGrows | multisig_program/src/reject.rs:28-43 | Approvals plus rejections grow by one on a salt's first successful vote, stay equal on a switch, and never shrink |
| Executions.VotesCommute | multisig_program/src/approve.rs:62-64 | Votes with two different salts that succeed in both orders lead to the same ballot and status, and to lists that are permutations of each other |
| Executions.SwitchingBackRestores | multisig_program/src/reject.rs:35-41 | A proposal can leave a value and return to it exactly: approving and rejecting again restores both lists |
| Executions.DecidedFreezes | multisig_program/src/approve.rs:105-109 | Once a proposal is not Active, no attempt on it succeeds, and its record and calls never change again |
| Executions.CallsFollowStatus | multisig_program/src/execute.rs:55-95 | In any run an Executed proposal has emitted one call, built from its own action and the targets of the execution that succeeded; any other has emitted none |
| Bounds.RunIgnoresBuild | pms_core/src/lib.rs:226-229 | As long as commitments do not collide, in every run on one proposal a build that panics on underflow and one that wraps around reach the same state and emit the same calls |
| Executions.ForwardAuthorizes | multisig_program/src/execute.rs:57-67 | For an action that Propose accepts, a target is authorised in the call iff it was supplied authorised or is listed; every listed index is a target, the cast to u8 loses nothing, and targets are otherwise forwarded unchanged and in order |
| Ballots.SoundRun | multisig_program/src/reject.rs:43-47 | Every run of the ballot machine keeps the meaning of the status and the bound on votes |
| Ballots.DecidedIsFinal | multisig_program/src/approve.rs:105-109 | Executed and Rejected are absorbing, and freeze the ballot |
| Ballots.EntryIsLastSuccess | multisig_program/src/approve.rs:47-64 | A salt's entry is the choice of its last successful vote |
| Ballots.LastAttemptWins | multisig_program/src/approve.rs:47-64 | As long as the ballot is Active, an entry is the salt's last attempt iff that attempt repeated the vote or found room |
| Ballots.GroupVotes | multisig_program/src/reject.rs:41-47 | When salts that do not vote one way vote that way and fit, all of them are counted, unless rejections decide the ballot first |
| Ballots.VotesCommute | multisig_program/src/reject.rs:41-47 | Two votes of different salts that succeed in both orders reach the same ballot and status |
| Chains.StepIsIsolated | multisig_program/src/propose.rs:31-46 | A transaction leaves every other proposal, multisig and their calls alone; members and threshold never change; nothing is removed |
| Chains.StatesNamed | multisig_program/src/create_multisig.rs:25-45 | In every run a stored multisig has 1 <= M <= N <= 16 and pairwise distinct commitments |
| Chains.OpenedOnce | multisig_program/src/propose.rs:31-46 | Of all transactions of a run at most one opens a proposal under a given key and index |
| Chains.Projection | multisig_program/src/lib.rs:176-227 | In every run over any number of multisigs and proposals, a proposal and its calls are those of its own attempts alone, replayed from the one transaction that opened it |
| Runs.EveryProposalIsAccounted | multisig_program/src/propose.rs:45-46 | Whatever the hash does, every reachable proposal of a chain is a fresh proposal of a well-formed multisig after its own attempts since its one opening, so all results about one proposal apply to it |
| Runs.ReachableProposals | pms_core/src/lib.rs:187-229 | In every reachable chain in which commitments do not collide, for every proposal: lists without repetition, at most N <= 16 votes, the meaning of the status, and at most 32 N bytes more than at creation |
| Runs.ExactlyOnce | multisig_program/src/execute.rs:55-95 | Over any run, whatever the hash does, the log holds a call for a name iff it is an Executed proposal, and then exactly one: that of the stored action, which one transaction proposed, with the targets that the one transaction whose execution succeeded brought; the stored hash is still that of the action |
| Runs.NoCallWithoutThreshold | multisig_program/src/execute.rs:44-48 | Behind every call in the log of any chain stands an execution at which M distinct members of that multisig, with M distinct salts, had an approval of that same proposal standing |
| Runs.TooFewNeverCall | multisig_program/src/execute.rs:44-48 | No run in which fewer than M members, or members with fewer than M salts, try to approve a proposal emits its call |
| Runs.RejectedOnlyByVeto | multisig_program/src/reject.rs:43-47 | On any reachable chain a proposal is Rejected iff more than N - M distinct salts of its multisig's members have a rejection standing, and then more than N - M distinct members do |
| Runs.IndicesAreDense | multisig_program/src/propose.rs:31-45 | The proposals of a multisig are exactly those with an index from 1 to its counter |
| Runs.StateAccountSize | pms_core/src/lib.rs:125-136 | A stored multisig takes 45 + 32 N bytes, at most 557 |
| Runs.AnyoneCanCreate | multisig_program/src/create_multisig.rs:25-45 | On any chain a new multisig is added, with counter 0 and nothing else changed, iff 1 <= M <= N <= 16, its commitments differ and 45 + 32 N bytes fit |
| Runs.AnyoneCanPropose | multisig_program/src/propose.rs:36-46 | On any reachable chain a proposal is added, without votes, and the counter goes up by one, with nothing else changed, iff it carries the counter plus one, its indices name targets and its record fits |
| Runs.AnyMMembersCanExecute | multisig_program/src/execute.rs:44-55 | On any reachable chain, any M members with distinct salts bring an Active proposal to Executed in at most M approvals and an execution, all of them accepted, iff there is room for their votes; the log then holds its proposed call once |
| Runs.EnoughMembersCanReject | multisig_program/src/reject.rs:43-47 | On any reachable chain, of any N - M + 1 members with distinct salts, the first of those not yet rejecting, as many as rejections are missing, bring an Active proposal to Rejected with every rejection accepted, iff there is room for their votes |
| Runs.RunIgnoresBuild | pms_core/src/lib.rs:226-229 | Whole chains in which commitments do not collide are the same in a build that panics on overflow and in one that wraps around, for at most 2^64 - 1 transactions |
| Feasibility.SomeRunExecutes | multisig_program/src/execute.rs:44-95 | A 2-of-3 multisig created, proposed to, approved by two and executed on the empty chain, without a collision of hashes or addresses: the hypotheses of the other results can be met |
| Instructions.CreateOnBytes | multisig_program/src/create_multisig.rs:16-60 | CreateMultisig succeeds iff its one account is untouched, 1 <= M <= N <= 16, no commitment occurs twice and 45 + 32 N bytes fit; it then writes that state with counter 0 and claims the account; E001, E002, E003 and E016 are given exactly for the first of these that fails |
| Instructions.ProposeOnBytes | multisig_program/src/propose.rs:17-70 | Propose on a state and an account succeeds iff the key is the state's, the account is untouched, the index is the counter plus one, every listed index is below the count and both records fit; it writes the counted state and an Active proposal without votes, and claims the latter; E004 to E007 are given exactly for the first that fails |
| Instructions.ApproveOnBytes | multisig_program/src/approve.rs:32-67 | Approve succeeds iff the voter is an authorised member, the proposal is Active, the approval is not listed and the result fits; it removes the voter's rejection, appends the approval, and changes nothing else; E012 exactly for a repeated approval |
| Instructions.RejectOnBytes | multisig_program/src/reject.rs:13-50 | Reject succeeds likewise; it removes the voter's approval, appends the rejection, and makes the proposal Rejected iff N less the rejections is below M, in either build; E013 exactly for a repeated rejection |
| Instructions.VoteRefused | multisig_program/src/approve.rs:84-109 | A vote fails with E010 iff the voter is not authorised, else with E011 iff not a member, else with E009 iff the proposal is not Active |
| Instructions.ExecuteOnBytes | multisig_program/src/execute.rs:18-96 | Execute succeeds iff the proposal is Active with M approvals, the targets are as many as declared and the record fits; it writes Executed, passes the rest through, and emits the stored program, data and seeds with the targets in order, authorised iff supplied so or listed; E009, E014 and E015 exactly for the first that fails |
| Instructions.RecordsMissing | multisig_program/src/execute.rs:28-38 | Votes and executions fail with E004 iff the first account holds no state of the key given, else with E008 iff the second holds no proposal of that key and index |
| Ledgers.VoteChecksAdmit | multisig_program/src/approve.rs:72-112 | The shared checks return a state and a proposal iff there are three accounts, the third is authorised and commits with the salt to a member of that state, and the bytes of the first two are the encodings of that state and of that proposal, which is Active and carries the key and index given |
| Ledgers.HandleVoteIsAttempt | multisig_program/src/approve.rs:72-140 | Approve and Reject on account bytes, wherever the accounts are, succeed iff the vote on the decoded records does, write the encoding of its result, and pass the other two accounts through |
| Ledgers.HandleExecuteIsAttempt | multisig_program/src/execute.rs:18-96 | Execute on account bytes, wherever the accounts are, succeeds iff the execution of the decoded record does, writes its encoding, emits its call, and passes state and targets through |
| Ledgers.ExecuteReadsTheSuppliedThreshold | multisig_program/src/execute.rs:28-53 | Given a state and a proposal of its key at any addresses, Execute succeeds iff the proposal is Active, its approvals meet the M of the state supplied, the targets are as many as declared and the record fits |
| Ledgers.OnlyDataChanges | multisig_program/src/lib.rs:176-227 | Whatever the instruction, of each account only the data may change, of targets and voters nothing, of the state nothing unless it is created or counts a proposal; only an execution emits a call, exactly one; and exactly the accounts created are claimed |
| Ledgers.HandleProposeOpens | multisig_program/src/propose.rs:17-70 | Propose on account bytes succeeds iff the proposal's account is fresh, the index is the counter plus one, listed indices name targets and both records fit, and then writes both encodings |
| Ledgers.ClaimsDeriveOwnAddresses | multisig_program/src/create_multisig.rs:52-57 | Exactly the state account that a CreateMultisig creates and the proposal account that a Propose creates are claimed; each was fresh, and its seed derives exactly the address it was loaded from |
| Ledgers.LedgerStoresChain | multisig_program/src/lib.rs:176-227 | Every run on account bytes is the run on records: every account named holds the encoding of its record or nothing, and the same calls have been emitted |
| Optimism.PoolIsProven | sdk/src/lib.rs:364-434 | Every submitted vote is what the program computes from the two accounts that its client read, at whatever times, with the client's salt and account |
| Optimism.InclusionIsExecution | sdk/src/lib.rs:361-365 | Writing the proved post-states of a vote whose snapshot still holds is running that vote now, and it succeeds |
| Optimism.InclusionActs | sdk/src/lib.rs:361-365 | In any reachable world, including a submitted vote runs it now, successfully, iff it was not included before and both accounts equal what its client read; otherwise nothing changes |
| Optimism.EveryoneCanVote | sdk/src/lib.rs:350-449 | From any reachable world, a client that reads both accounts as they are and is included before they change casts exactly its vote, whenever the program accepts that vote |
| Optimism.EveryInterleavingIsSerial | sdk/src/lib.rs:350-449 | For any number of clients and any snapshots, stale or read at two different times, every interleaving with inclusions and public transactions is the sequential run of what took effect; each included vote succeeds at its place and none takes effect twice, even if accounts return to a snapshot |
| Optimism.InterleavedWorldStoresChain | sdk/src/lib.rs:358-365 | So the accounts of the interleaved world hold the record chain of the transactions that took effect |
| Guarantees.EveryCallIsBacked | multisig_program/src/execute.rs:39-55 | After any interleaving, a proposal has emitted at most one call, and behind it stood M distinct members' approvals of that proposal, with M distinct salts |
| Guarantees.EveryRejectionIsBacked | multisig_program/src/reject.rs:43-47 | After any interleaving, if a proposal's account reads Rejected, more than N - M distinct members' rejections of it stand |
| Guarantees.AccountTellsTheTruth | multisig_program/src/approve.rs:98-99 | After any interleaving, a proposal's account decodes to the record of its own attempts, with at most N nullifiers, Executed iff its call was emitted |
| Borsh.StateRoundTrip | pms_core/src/lib.rs:125-136 | Bytes decode to a multisig state iff they are its encoding, to the last byte |
| Borsh.ActionRoundTrip | pms_core/src/lib.rs:157-170 | Bytes decode to an action iff they are its encoding, for all vector lengths that fit in 32 bits |
| Borsh.ProposalRoundTrip | pms_core/src/lib.rs:172-202 | Bytes decode to a proposal iff they are its encoding, to the last byte |
| Layouts.StateLayout | pms_core/src/lib.rs:125-136 | The byte range and value of every field of an encoded state, each of the N commitments included, 45 + 32 N bytes in all |
| Layouts.ActionLayout | pms_core/src/lib.rs:157-170 | The byte range and value of every field of an encoded action, each word of the program and of its data, each seed and each index included |
| Layouts.ProposalLayout | pms_core/src/lib.rs:172-202 | The byte range and value of every field of an encoded proposal, each nullifier included: votes change only the bytes after what was proposed, and the last byte is 0 iff Active, 1 iff Executed, 2 iff Rejected |
| Layouts.WordBytes | pms_core/src/lib.rs:313-313 | Byte i of an encoded word is its i-th digit in base 256, the lowest first |
| Borsh.ProposalSize | pms_core/src/lib.rs:186-202 | An encoded proposal takes 32 bytes for each nullifier, and otherwise a size that only its action determines |
| Layouts.CommitmentLayout | pms_core/src/lib.rs:258-264 | A commitment is the hash of exactly the 96 bytes that hold the text "/PMS/v0.1/MemberCommitment/" and zeros up to 32, then the salt, then the account |
| Layouts.NullifierLayout | pms_core/src/lib.rs:271-316 | A vote and a reject nullifier are the hashes of exactly the 136 bytes that hold their text and zeros up to 32, the salt, from 64 the multisig, from 96 the little-endian index, from 104 the action hash |
| Layouts.ActionHashLayout | pms_core/src/lib.rs:318-323 | An action hash is the hash of its text and zeros up to 32 and then the encoded action |
| Layouts.KeyAddressLayout | pms_core/src/lib.rs:350-385 | State and vault addresses are derived from the hash of their text and zeros up to 32 and then the create key |
| Layouts.ProposalAddressLayout | pms_core/src/lib.rs:335-381 | A proposal's address is derived from the hash of its text and zeros up to 32, the create key, the little-endian index, and 24 zeros |
| Hashing.MemberPreimageInjective | pms_core/src/lib.rs:258-264 | A commitment's preimage determines salt and account |
| Hashing.NullifierPreimageInjective | pms_core/src/lib.rs:302-316 | A nullifier's preimage determines tag, salt, multisig, index and action hash |
| Hashing.ActionPreimageInjective | pms_core/src/lib.rs:318-323 | An action's preimage determines the whole action |
| Hashing.ZeroPadForgetsTrailingZeros | pms_core/src/lib.rs:245-251 | Two texts pad to the same tag iff they differ only in trailing zeros |
| Hashing.TagsAreDistinct | pms_core/src/lib.rs:260-333 | The seven tags pad to seven different 32-byte values |
| Hashing.TagsSeparateDomains | pms_core/src/lib.rs:245-323 | Preimages under different tags never coincide, whatever follows |
| Hashing.FlattenInjective | pms_core/src/lib.rs:341-348 | Any number of 32-byte seeds can be read back from what the hasher absorbs |
| Hashing.SeedsNameOneAccount | pms_core/src/lib.rs:350-369 | State, proposal and vault seeds never coincide across kinds, create keys and indices |
| Hashing.NamesHaveDistinctAddresses | pms_core/src/lib.rs:371-385 | Addresses of a finite set of accounts are distinct if the hash does not collide on their seeds and the platform's derivation does not on the results |
| Buffers.FillDst | pms_core/src/lib.rs:244-251 | The buffer holds the text, then zeros |
| Buffers.FillSeedU64 | pms_core/src/lib.rs:335-339 | The buffer holds the little-endian word, then zeros |
| Buffers.ComputeMemberCommitment | pms_core/src/lib.rs:258-264 | The 96-byte buffer filled at fixed offsets is the concatenation that is proved injective |
| Buffers.ComputeNullifier | pms_core/src/lib.rs:302-316 | The 136-byte buffer filled at fixed offsets is the concatenation that is proved injective |
| Buffers.ComputeCombinedSeeds | pms_core/src/lib.rs:341-348 | The loop over the seeds absorbs their concatenation |
| Lists.WithoutLaws | multisig_program/src/approve.rs:62-62 | What retain leaves of a list: the given element is gone, every other stays, in order, part by part |
| Handlers.Retain | multisig_program/src/approve.rs:62-62 | Keeps, in order, all elements but the given one |
| Handlers.ProposalRecord.RetractRejection | multisig_program/src/approve.rs:53-62 | Removes one nullifier from the rejections in place, and changes nothing else |
| Handlers.ProposalRecord.RetractApproval | multisig_program/src/reject.rs:34-41 | Removes one nullifier from the approvals in place, and changes nothing else |
| Handlers.CreateMultisig | multisig_program/src/create_multisig.rs:16-60 | The loop over prefixes accepts exactly lists without repetition; same result and same error code as the function that the chain proofs use |
| Handlers.Propose | multisig_program/src/propose.rs:17-70 | The loop over listed indices accepts exactly those that name targets; same result and error code as the function that the chain proofs use |
| Handlers.Approve | multisig_program/src/approve.rs:32-67 | Retracting, then pushing, in place, has the result or the error of the approval that the proofs speak of |
| Handlers.Reject | multisig_program/src/reject.rs:13-50 | Retracting, pushing and testing for death, in place, has the result or the error of the rejection that the proofs speak of |
| Handlers.ForwardTargets | multisig_program/src/execute.rs:57-67 | The loop yields every target in order, authorised where listed |
| Handlers.PushTargets | multisig_program/src/execute.rs:87-93 | The loop appends every target account unchanged |
| Handlers.Execute | multisig_program/src/execute.rs:18-96 | Same status change, call and post-states, or same error code, as the execution that the proofs speak of |

## Left out

- `InitVault` and the token program's instructions: one straight-line call whose meaning lies in another program. The vault's seed is part of `Hashing.SeedsNameOneAccount`.
- The SPEL entry points beside `process`: they call the same handlers and would add only equalities.
- The command line, scripts, benchmarks and build glue, and the rest of the SDK: key derivation, transaction assembly, polling and timeouts.
- The privacy circuit, zero-knowledge proofs and unlinkability: `isAuthorized` is an input, and a proof is a snapshot with the output computed from it.
- The platform: programs own accounts, nonces move, claims are checked and chained calls run. A claim is an output, a call is a log entry, and an absent account is the default account; the model does not carry out the effects of a call on its targets.
- Transactions that pass other accounts than those at the derived addresses: the handlers are modelled for them, whole runs are not.
- Deserialisation failures below the level of the record: bytes decode to the record or they do not.
- Power.NeverStuck: asks for members with distinct salts; see "What is assumed" for why the code makes that necessary.
- Power.VetoSuffices: asks for members with distinct salts, for the same reason.
- Runs.AnyMMembersCanExecute: asks for members with distinct salts, for the same reason.
- Runs.EnoughMembersCanReject: asks for members with distinct salts, for the same reason.
- Runs.IndicesAreDense: for a build that wraps around, at most 2^64 - 1 transactions; a longer run would reuse indices.
- Executions.VotesCommute: asks that both votes succeed in both orders; a rejection that decides the proposal makes a later vote fail.
