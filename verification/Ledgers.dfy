/** The chain as it is stored: account bytes at derived addresses. Running the program there is running the
    record chain, as long as the addresses of the accounts involved do not collide. */
module Ledgers {
  import opened Wrappers
  import opened Words
  import opened Lists
  import opened Records
  import opened Borsh
  import opened Hashing
  import opened Program
  import opened Voting
  import opened Refinement
  import opened Chains

  datatype Ledger = Ledger(accounts: map<Bytes32, Account>, log: seq<Entry>)

  /** An absent account is the default account. */
  function At(l: Ledger, id: Bytes32): Account {
    if id in l.accounts then l.accounts[id] else DEFAULT_ACCOUNT
  }

  function Load(env: Env, l: Ledger, name: Name): AccountWithMetadata {
    var id := Address(env, name);
    AccountWithMetadata(id, At(l, id), false)
  }

  function ProposalName(key: Key): Name {
    ProposalOf(key.0, key.1)
  }

  /** The program's own accounts that a transaction names, in the order in which it passes them. */
  function NamesOf(tx: Tx): seq<Name> {
    match tx
    case Create(createKey, _, _) => [StateOf(createKey)]
    case Open(key, _) => [StateOf(key.0), ProposalName(key)]
    case Act(key, _) => [StateOf(key.0), ProposalName(key)]
  }

  /** The accounts that a transaction brings along: the voter's, or the targets. */
  function Extra(tx: Tx): seq<AccountWithMetadata> {
    match tx
    case Create(_, _, _) => []
    case Open(_, _) => []
    case Act(_, Vote(_, _, member)) => [member]
    case Act(_, Execute(targets)) => targets
  }

  function InstructionOf(tx: Tx): Instruction {
    match tx
    case Create(createKey, threshold, memberCms) => CreateMultisig(createKey, threshold, memberCms)
    case Open(key, a) =>
      Propose(key.0, key.1, a.targetProgramId, a.targetInstructionData, a.targetAccountCount, a.pdaSeeds, a.authorizedIndices)
    case Act(key, Vote(choice, salt, _)) => if choice == For then Approve(key.0, key.1, salt) else Reject(key.0, key.1, salt)
    case Act(key, Execute(_)) => Instruction.Execute(key.0, key.1)
  }

  function Accounts(env: Env, l: Ledger, tx: Tx): seq<AccountWithMetadata> {
    match tx
    case Create(createKey, _, _) => [Load(env, l, StateOf(createKey))]
    case Open(key, _) => [Load(env, l, StateOf(key.0)), Load(env, l, ProposalName(key))]
    case Act(key, _) => [Load(env, l, StateOf(key.0)), Load(env, l, ProposalName(key))] + Extra(tx)
  }

  function KeyOrNone(tx: Tx): Key {
    if tx.Create? then (tx.createKey, 0) else tx.key
  }

  /** The program's own accounts take their post-states; a panic changes nothing. */
  function LedgerStep(env: Env, l: Ledger, tx: Tx): Ledger {
    var r := Process(env, Accounts(env, l, tx), InstructionOf(tx));
    if r.Err? then l
    else
      var state := l.accounts[Address(env, NamesOf(tx)[0]) := r.value.posts[0].account];
      Ledger(
        if tx.Create? then state else state[Address(env, NamesOf(tx)[1]) := r.value.posts[1].account],
        l.log + Tagged(KeyOrNone(tx), r.value.calls))
  }

  const EMPTY := Ledger(map[], [])

  function LedgerRun(env: Env, txs: seq<Tx>): Ledger {
    if txs == [] then EMPTY else LedgerStep(env, LedgerRun(env, txs[..|txs| - 1]), txs[|txs| - 1])
  }

  // Handlers on bytes are handlers on records

  lemma StateDecodes(s: MultisigState)
    requires |s.memberCms| <= MAX_MEMBERS
    ensures DecodeState(EncodeState(s)) == Some(s)
  {
    hide EncodeState, DecodeState;
    StateRoundTrip(EncodeState(s), s);
  }

  lemma ProposalDecodes(env: Env, p: Proposal)
    requires |EncodeProposal(p)| <= env.dataLimit as nat
    ensures DecodeProposal(EncodeProposal(p)) == Some(p)
  {
    hide EncodeProposal, DecodeProposal, ProposalFits;
    ShortProposalFits(p);
    ProposalRoundTrip(EncodeProposal(p), p);
  }

  lemma NothingDecodes()
    ensures DecodeState([]) == None && DecodeProposal([]) == None
  {
  }

  /** Two accounts, wherever they are, that hold the encodings of a state and of a proposal of that state. */
  predicate Hold(accounts: seq<AccountWithMetadata>, s: MultisigState, p: Proposal, key: Key) {
    && |accounts| >= 2
    && DecodeState(accounts[0].account.data) == Some(s) && DecodeProposal(accounts[1].account.data) == Some(p)
    && s.createKey == key.0 && p.createKey == key.0 && p.index == key.1
  }

  /** The checks that Approve and Reject share admit exactly an authorised account that commits, with the salt, to a
      member of the state that the first account's bytes encode, and an Active proposal of that state, under the index
      given, that the second account's bytes encode. */
  lemma VoteChecksAdmit(env: Env, accounts: seq<AccountWithMetadata>, key: Key, salt: Bytes32, s: MultisigState, p: Proposal)
    ensures VoteChecks(env, accounts, key.0, key.1, salt) == Ok((s, p))
            <==>
            && |accounts| == 3 && accounts[2].isAuthorized
            && StateFits(s) && accounts[0].account.data == EncodeState(s) && s.createKey == key.0
            && MemberCommitment(env, salt, accounts[2].accountId) in s.memberCms
            && ProposalFits(p) && accounts[1].account.data == EncodeProposal(p) && p.createKey == key.0 && p.index == key.1
            && p.status == Active
  {
    hide EncodeState, DecodeState, EncodeProposal, DecodeProposal, MemberCommitment, StateFits, ProposalFits;
    if |accounts| == 3 {
      StateRoundTrip(accounts[0].account.data, s);
      ProposalRoundTrip(accounts[1].account.data, p);
    }
  }

  /** An execution takes M from the state it is given, at whatever address: only the chain's rule of loading the state
      from its own address makes it the M of the multisig. */
  lemma ExecuteReadsTheSuppliedThreshold(env: Env, accounts: seq<AccountWithMetadata>, s: MultisigState, p: Proposal, key: Key)
    requires Hold(accounts, s, p, key)
    ensures HandleExecute(env, accounts, key.0, key.1).Ok?
            <==>
            && p.status == Active && |p.voteNullifiers| >= s.threshold as nat
            && |accounts| - 2 == p.action.targetAccountCount as nat
            && |EncodeProposal(p)| <= env.dataLimit as nat
  {
    hide EncodeProposal, DecodeProposal, DecodeState, Forward, BaseSize;
    ProposalSize(p);
    ProposalSize(p.(status := Executed));
  }

  /** Of all accounts, whatever the instruction, only data changes, and only of the first two; the state's only when it
      is created or counts a proposal; calls come from executions alone, one at a time; and exactly the accounts created are
      claimed, which were fresh. */
  lemma OnlyDataChanges(env: Env, accounts: seq<AccountWithMetadata>, instruction: Instruction)
    ensures var r := Process(env, accounts, instruction);
            r.Ok? ==>
              && |r.value.posts| == |accounts|
              && (forall i :: 0 <= i < |accounts| ==>
                    && r.value.posts[i].account == accounts[i].account.(data := r.value.posts[i].account.data)
                    && (i >= 2 ==> r.value.posts[i].account == accounts[i].account)
                    && (i == 0 && !instruction.CreateMultisig? && !instruction.Propose? ==>
                          r.value.posts[i].account == accounts[i].account)
                    && (r.value.posts[i].claim.Some?
                        <==> (instruction.CreateMultisig? && i == 0) || (instruction.Propose? && i == 1))
                    && (r.value.posts[i].claim.Some? ==> accounts[i].account == DEFAULT_ACCOUNT))
              && |r.value.calls| == if instruction.Execute? then 1 else 0
  {
    hide EncodeState, DecodeState, EncodeProposal, DecodeProposal, NoDup, IndicesInRange, NewProposal, CastVote,
         MemberCommitment, CombineSeeds, Forward, HasThreshold;
  }

  /** Approve and Reject on account bytes are a vote on the records: they succeed together, and write back
      the encoding of the record that results. */
  lemma HandleVoteIsAttempt(env: Env, accounts: seq<AccountWithMetadata>, s: MultisigState, p: Proposal, key: Key,
                            salt: Bytes32, choice: Choice)
    requires |accounts| == 3 && Hold(accounts, s, p, key)
    ensures var r, a := HandleVote(env, accounts, key.0, key.1, salt, choice),
                        Attempt(PollAt(env, accounts[0].accountId, s), p, Vote(choice, salt, accounts[2]));
            && (r.Ok? <==> a.Ok?)
            && (r.Ok? ==>
                  && r.value.calls == a.value.1 == []
                  && r.value.posts[0].account == accounts[0].account
                  && r.value.posts[1].account == accounts[1].account.(data := EncodeProposal(a.value.0))
                  && r.value.posts[2].account == accounts[2].account)
  {
    hide CastVote, EncodeProposal, DecodeProposal, DecodeState, MemberCommitment, Address;
  }

  /** Execute on account bytes is an execution on the records. */
  lemma HandleExecuteIsAttempt(env: Env, accounts: seq<AccountWithMetadata>, s: MultisigState, p: Proposal, key: Key)
    requires Hold(accounts, s, p, key)
    ensures var r, a := HandleExecute(env, accounts, key.0, key.1),
                        Attempt(PollAt(env, accounts[0].accountId, s), p, Op.Execute(accounts[2..]));
            && (r.Ok? <==> a.Ok?)
            && (r.Ok? ==>
                  && r.value.calls == a.value.1
                  && r.value.posts[0].account == accounts[0].account
                  && r.value.posts[1].account == accounts[1].account.(data := EncodeProposal(a.value.0))
                  && forall i :: 2 <= i < |accounts| ==> r.value.posts[i].account == accounts[i].account)
  {
    hide ExecuteRecord, EncodeProposal, DecodeProposal, DecodeState, Address;
  }

  /** Propose on account bytes: it succeeds exactly when the record chain opens the proposal. */
  lemma HandleProposeOpens(env: Env, accounts: seq<AccountWithMetadata>, s: MultisigState, key: Key, action: ProposalAction)
    requires |accounts| == 2 && DecodeState(accounts[0].account.data) == Some(s) && s.createKey == key.0
    ensures var r, s', p := HandlePropose(env, accounts, key.0, key.1, action), s.(transactionIndex := key.1),
                            NewProposal(env, key.1, key.0, action);
            && (r.Ok? <==>
                  && accounts[1].account == DEFAULT_ACCOUNT
                  && (if s.transactionIndex < MAX_U64 then key.1 == s.transactionIndex + 1
                      else env.arith.Wrapping? && key.1 == 0)
                  && IndicesInRange(action)
                  && |EncodeState(s')| <= env.dataLimit as nat && |EncodeProposal(p)| <= env.dataLimit as nat)
            && (r.Ok? ==>
                  && r.value.calls == []
                  && r.value.posts[0].account == accounts[0].account.(data := EncodeState(s'))
                  && r.value.posts[1].account == accounts[1].account.(data := EncodeProposal(p)))
  {
    hide EncodeState, DecodeState, EncodeProposal, Address, IndicesInRange, CombineSeeds, NewProposal, NextIndex;
    NextIndexIs(env.arith, s.transactionIndex, key.1);
  }

  /** Of all accounts, exactly the one that a transaction creates is claimed: it was fresh, and the seed that the handler
      hands the platform derives exactly the address at which the transaction found it. */
  lemma ClaimsDeriveOwnAddresses(env: Env, l: Ledger, tx: Tx, i: nat)
    requires var r := Process(env, Accounts(env, l, tx), InstructionOf(tx)); r.Ok? && i < |r.value.posts|
    ensures var accounts := Accounts(env, l, tx);
            var claim := Process(env, accounts, InstructionOf(tx)).value.posts[i].claim;
            && i < |accounts|
            && (claim.Some? <==> (tx.Create? && i == 0) || (tx.Open? && i == 1))
            && (claim.Some? ==>
                  accounts[i].account == DEFAULT_ACCOUNT && env.pda(env.programId, claim.value) == accounts[i].accountId)
  {
    hide EncodeState, DecodeState, EncodeProposal, DecodeProposal, Flatten, Dst, NoDup, IndicesInRange, NewProposal,
         CastVote, ExecuteRecord, MemberCommitment, At, NextIndex;
  }

  // The ledger stores the chain

  /** What the chain keeps under a name, as the account that stores it. */
  function Stores(c: Chain, name: Name): Account {
    match name
    case StateOf(createKey) =>
      if createKey in c.states then DEFAULT_ACCOUNT.(data := EncodeState(c.states[createKey])) else DEFAULT_ACCOUNT
    case ProposalOf(createKey, index) =>
      if (createKey, index) in c.proposals then DEFAULT_ACCOUNT.(data := EncodeProposal(c.proposals[(createKey, index)]))
      else DEFAULT_ACCOUNT
    case VaultOf(_) => DEFAULT_ACCOUNT
  }

  ghost predicate Represents(env: Env, l: Ledger, c: Chain, names: set<Name>) {
    && (forall n :: n in names ==> At(l, Address(env, n)) == Stores(c, n))
    && l.log == c.log
  }

  /** A record is stored under its own name, and fits its account. */
  ghost predicate Filed(env: Env, c: Chain, key: Key) {
    && (key.0 in c.states ==> c.states[key.0].createKey == key.0 && |c.states[key.0].memberCms| <= MAX_MEMBERS)
    && (key in c.proposals ==>
          && c.proposals[key].createKey == key.0 && c.proposals[key].index == key.1
          && |EncodeProposal(c.proposals[key])| <= env.dataLimit as nat)
  }

  lemma AttemptFits(poll: Poll, p: Proposal, op: Op)
    ensures var r := Attempt(poll, p, op);
            r.Ok? ==> SameContent(p, r.value.0) && |EncodeProposal(r.value.0)| <= poll.env.dataLimit as nat
  {
    hide EncodeProposal, VoteNullifier, RejectNullifier, Without, Forward, Commitment;
  }

  lemma FiledStep(env: Env, c: Chain, tx: Tx, key: Key)
    requires Filed(env, c, key)
    ensures Filed(env, Step(env, c, tx), key)
  {
    if tx.Act? && tx.key.0 in c.states && tx.key in c.proposals {
      AttemptFits(PollOf(env, c.states[tx.key.0]), c.proposals[tx.key], tx.op);
    }
    hide EncodeProposal, EncodeState, Attempt, ActionHash, Tagged, IndicesInRange, NoDup;
  }

  lemma {:induction false} FiledRun(env: Env, txs: seq<Tx>, key: Key)
    ensures Filed(env, Run(env, txs), key)
  {
    if txs != [] {
      hide Step, Filed;
      FiledRun(env, txs[..|txs| - 1], key);
      FiledStep(env, Run(env, txs[..|txs| - 1]), txs[|txs| - 1], key);
    }
  }

  /** What the program reads back from a name's account. */
  lemma ReadsBack(env: Env, l: Ledger, c: Chain, names: set<Name>, key: Key)
    requires Represents(env, l, c, names) && Filed(env, c, key)
    ensures StateOf(key.0) in names ==>
              var a := At(l, Address(env, StateOf(key.0)));
              && DecodeState(a.data) == (if key.0 in c.states then Some(c.states[key.0]) else None)
              && (a == DEFAULT_ACCOUNT <==> key.0 !in c.states)
    ensures ProposalName(key) in names ==>
              var a := At(l, Address(env, ProposalName(key)));
              && DecodeProposal(a.data) == (if key in c.proposals then Some(c.proposals[key]) else None)
              && (a == DEFAULT_ACCOUNT <==> key !in c.proposals)
  {
    hide EncodeProposal, EncodeState, DecodeProposal, DecodeState, Address, At;
    NothingDecodes();
    assert key == (key.0, key.1);
    if key.0 in c.states {
      StateDecodes(c.states[key.0]);
    }
    if key in c.proposals {
      ProposalDecodes(env, c.proposals[key]);
    }
  }

  /** Whether a transaction succeeds, and what it leaves in the program's own accounts and in the log. */
  ghost predicate Agrees(env: Env, l: Ledger, c: Chain, tx: Tx) {
    var r, c' := Process(env, Accounts(env, l, tx), InstructionOf(tx)), Step(env, c, tx);
    && (r.Err? ==> c' == c)
    && (r.Ok? ==>
          && r.value.posts[0].account == Stores(c', NamesOf(tx)[0])
          && (!tx.Create? ==> r.value.posts[1].account == Stores(c', NamesOf(tx)[1]))
          && c'.log == c.log + Tagged(KeyOrNone(tx), r.value.calls))
  }

  lemma CreateAgrees(env: Env, l: Ledger, c: Chain, tx: Tx, names: set<Name>)
    requires tx.Create? && Represents(env, l, c, names) && Filed(env, c, (tx.createKey, 0))
    requires StateOf(tx.createKey) in names
    ensures Agrees(env, l, c, tx)
  {
    ReadsBack(env, l, c, names, (tx.createKey, 0));
    hide EncodeState, DecodeState, Address, At, NoDup, CombineSeeds;
    assert c.log + Tagged(KeyOrNone(tx), []) == c.log;
  }

  lemma OpenAgrees(env: Env, l: Ledger, c: Chain, tx: Tx, names: set<Name>)
    requires tx.Open? && Represents(env, l, c, names) && Filed(env, c, tx.key)
    requires StateOf(tx.key.0) in names && ProposalName(tx.key) in names
    ensures Agrees(env, l, c, tx)
  {
    ReadsBack(env, l, c, names, tx.key);
    hide EncodeState, DecodeState, EncodeProposal, DecodeProposal, Address, At, IndicesInRange, NewProposal, HandlePropose;
    assert tx.key == (tx.key.0, tx.key.1);
    assert c.log + Tagged(tx.key, []) == c.log;
    if tx.key.0 in c.states {
      NextIndexIs(env.arith, c.states[tx.key.0].transactionIndex, tx.key.1);
      HandleProposeOpens(env, Accounts(env, l, tx), c.states[tx.key.0], tx.key, tx.action);
    } else {
      ProposeNeedsState(env, Accounts(env, l, tx), tx.key.0, tx.key.1, tx.action);
    }
  }

  lemma ProposeNeedsState(env: Env, accounts: seq<AccountWithMetadata>, createKey: Bytes32, index: u64, action: ProposalAction)
    requires |accounts| == 2 && DecodeState(accounts[0].account.data) == None
    ensures HandlePropose(env, accounts, createKey, index, action).Err?
  {
    hide EncodeState, DecodeState, EncodeProposal, IndicesInRange, CombineSeeds, NewProposal;
  }

  /** The accounts of an attempt hold the records it is an attempt on, if there are any. */
  lemma ActReads(env: Env, l: Ledger, c: Chain, tx: Tx, names: set<Name>)
    requires tx.Act? && Represents(env, l, c, names) && Filed(env, c, tx.key)
    requires StateOf(tx.key.0) in names && ProposalName(tx.key) in names
    ensures var accounts := Accounts(env, l, tx);
            && |accounts| >= 2 && accounts[2..] == Extra(tx) && accounts[0].accountId == Address(env, StateOf(tx.key.0))
            && accounts[0].account == Stores(c, NamesOf(tx)[0]) && accounts[1].account == Stores(c, NamesOf(tx)[1])
            && (if tx.key.0 in c.states && tx.key in c.proposals
                then Hold(accounts, c.states[tx.key.0], c.proposals[tx.key], tx.key)
                else DecodeState(accounts[0].account.data) == None || DecodeProposal(accounts[1].account.data) == None)
  {
    ReadsBack(env, l, c, names, tx.key);
    hide EncodeState, DecodeState, EncodeProposal, DecodeProposal, Address, At;
    assert tx.key == (tx.key.0, tx.key.1);
    assert Accounts(env, l, tx)[2..] == Extra(tx);
  }

  lemma ActAgrees(env: Env, l: Ledger, c: Chain, tx: Tx, names: set<Name>)
    requires tx.Act? && Represents(env, l, c, names) && Filed(env, c, tx.key)
    requires StateOf(tx.key.0) in names && ProposalName(tx.key) in names
    ensures Agrees(env, l, c, tx)
  {
    hide EncodeState, EncodeProposal, Step, Process, Represents, Filed, Attempt, InstructionOf, Accounts, Hold;
    assert tx.key == (tx.key.0, tx.key.1);
    ActReads(env, l, c, tx, names);
    if tx.key.0 in c.states && tx.key in c.proposals {
      ActStep(env, c, tx);
      ProcessIsAttempt(env, Accounts(env, l, tx), c.states[tx.key.0], c.proposals[tx.key], tx);
    } else {
      ActNeedsRecords(env, Accounts(env, l, tx), tx);
      ActNeedsRecordsOnChain(env, c, tx);
    }
  }

  lemma ActStep(env: Env, c: Chain, tx: Tx)
    requires tx.Act? && tx.key.0 in c.states && tx.key in c.proposals
    ensures var a, c' := Attempt(PollOf(env, c.states[tx.key.0]), c.proposals[tx.key], tx.op), Step(env, c, tx);
            && c'.states == c.states
            && (a.Err? ==> c' == c)
            && (a.Ok? ==> c'.proposals == c.proposals[tx.key := a.value.0] && c'.log == c.log + Tagged(tx.key, a.value.1))
  {
    hide Attempt;
  }

  lemma ActNeedsRecordsOnChain(env: Env, c: Chain, tx: Tx)
    requires tx.Act? && (tx.key.0 !in c.states || tx.key !in c.proposals)
    ensures Step(env, c, tx) == c
  {
  }

  lemma ProcessIsAttempt(env: Env, accounts: seq<AccountWithMetadata>, s: MultisigState, p: Proposal, tx: Tx)
    requires tx.Act? && Hold(accounts, s, p, tx.key) && accounts[2..] == Extra(tx)
    requires accounts[0].accountId == Address(env, StateOf(tx.key.0))
    ensures var r, a := Process(env, accounts, InstructionOf(tx)), Attempt(PollOf(env, s), p, tx.op);
            && (r.Ok? <==> a.Ok?)
            && (r.Ok? ==>
                  && r.value.calls == a.value.1
                  && r.value.posts[0].account == accounts[0].account
                  && r.value.posts[1].account == accounts[1].account.(data := EncodeProposal(a.value.0)))
  {
    hide EncodeProposal, DecodeProposal, DecodeState, Address, Attempt, HandleVote, HandleExecute;
    if tx.op.Vote? {
      assert accounts[2] == accounts[2..][0];
      assert tx.op == Vote(tx.op.choice, tx.op.salt, accounts[2]);
      HandleVoteIsAttempt(env, accounts, s, p, tx.key, tx.op.salt, tx.op.choice);
    } else {
      HandleExecuteIsAttempt(env, accounts, s, p, tx.key);
    }
  }

  lemma ActNeedsRecords(env: Env, accounts: seq<AccountWithMetadata>, tx: Tx)
    requires tx.Act? && |accounts| >= 2
    requires DecodeState(accounts[0].account.data) == None || DecodeProposal(accounts[1].account.data) == None
    ensures Process(env, accounts, InstructionOf(tx)).Err?
  {
    hide EncodeState, DecodeState, EncodeProposal, DecodeProposal, MemberCommitment, CastVote, FinalizeVote, ExecuteRecord;
  }

  lemma StepAgrees(env: Env, l: Ledger, c: Chain, tx: Tx, names: set<Name>)
    requires Represents(env, l, c, names) && Filed(env, c, KeyOrNone(tx))
    requires forall n :: n in NamesOf(tx) ==> n in names
    ensures Agrees(env, l, c, tx)
  {
    hide Represents, Filed, Agrees;
    var own := NamesOf(tx);
    assert own[0] in own && (!tx.Create? ==> own[1] in own);
    match tx
    case Create(_, _, _) => CreateAgrees(env, l, c, tx, names);
    case Open(_, _) => OpenAgrees(env, l, c, tx, names);
    case Act(_, _) => ActAgrees(env, l, c, tx, names);
  }

  /** A name that a transaction does not pass keeps its record. */
  lemma StoresElsewhere(env: Env, c: Chain, tx: Tx, n: Name)
    requires n !in NamesOf(tx)
    ensures Stores(Step(env, c, tx), n) == Stores(c, n)
  {
    hide EncodeState, EncodeProposal, Attempt, CallsOf, Tagged, NewProposal;
    assert NamesOf(tx)[0] != n;
    assert !tx.Create? ==> NamesOf(tx)[1] != n && tx.key == (tx.key.0, tx.key.1);
  }

  lemma RepresentsStep(env: Env, l: Ledger, c: Chain, tx: Tx, names: set<Name>)
    requires Represents(env, l, c, names) && Agrees(env, l, c, tx) && AddressesDistinct(env, names)
    requires forall n :: n in NamesOf(tx) ==> n in names
    ensures Represents(env, LedgerStep(env, l, tx), Step(env, c, tx), names)
  {
    hide Step, Process, Address, Stores, Accounts, InstructionOf, Tagged;
    var l', c' := LedgerStep(env, l, tx), Step(env, c, tx);
    var own := NamesOf(tx);
    assert own[0] in own && (!tx.Create? ==> own[1] in own && own[1] != own[0]);
    forall n | n in names
      ensures At(l', Address(env, n)) == Stores(c', n)
    {
      if n !in own {
        StoresElsewhere(env, c, tx, n);
      }
    }
  }

  /** The accounts that some transactions name. */
  function AllNames(txs: seq<Tx>): set<Name> {
    set i, n | 0 <= i < |txs| && n in NamesOf(txs[i]) :: n
  }

  /** Every run on account bytes is the run on records: after any transactions, each account that they name holds
      the encoding of its record, or nothing, and the same calls have been emitted. */
  lemma {:induction false} LedgerStoresChain(env: Env, txs: seq<Tx>, names: set<Name>)
    requires AllNames(txs) <= names && AddressesDistinct(env, names)
    ensures Represents(env, LedgerRun(env, txs), Run(env, txs), names)
  {
    if txs != [] {
      var init, last := txs[..|txs| - 1], txs[|txs| - 1];
      AllNamesPrefix(txs);
      hide Step, LedgerStep, Process, Represents, AddressesDistinct, Filed, Agrees, AllNames, NamesOf;
      LedgerStoresChain(env, init, names);
      var l, c := LedgerRun(env, init), Run(env, init);
      FiledRun(env, init, KeyOrNone(last));
      StepAgrees(env, l, c, last, names);
      RepresentsStep(env, l, c, last, names);
    }
  }

  lemma AllNamesPrefix(txs: seq<Tx>)
    requires txs != []
    ensures AllNames(txs[..|txs| - 1]) <= AllNames(txs)
    ensures forall n :: n in NamesOf(txs[|txs| - 1]) ==> n in AllNames(txs)
  {
    hide NamesOf;
    var init := txs[..|txs| - 1];
    forall n | n in AllNames(init)
      ensures n in AllNames(txs)
    {
      var i :| 0 <= i < |init| && n in NamesOf(init[i]);
      assert init[i] == txs[i];
    }
  }
}
