/** One proposal and everything that is ever attempted on it, and the proof that its two nullifier lists
    stand for a ballot. */
module Voting {
  import opened Wrappers
  import opened Words
  import opened Lists
  import opened Records
  import opened Borsh
  import opened Hashing
  import opened Program
  import B = Ballots

  /** What a proposal's votes are checked against. It never changes once the multisig exists. */
  datatype Poll = Poll(env: Env, stateId: Bytes32, threshold: u8, memberCms: seq<Bytes32>)

  datatype Op =
    | Vote(choice: Choice, salt: Bytes32, member: AccountWithMetadata)
    | Execute(targets: seq<AccountWithMetadata>)

  function Commitment(poll: Poll, op: Op): Bytes32
    requires op.Vote?
  {
    MemberCommitment(poll.env, op.salt, op.member.accountId)
  }

  /** The voter controls the account, and salt and account commit to a member. */
  predicate Eligible(poll: Poll, op: Op)
    requires op.Vote?
  {
    op.member.isAuthorized && Commitment(poll, op) in poll.memberCms
  }

  function Stored(env: Env, p: Proposal): Result<Proposal> {
    if |EncodeProposal(p)| <= env.dataLimit as nat then Ok(p) else Err(DataTooLong)
  }

  /** One attempt on the record: the new record and the calls emitted, or why the attempt failed. */
  function Attempt(poll: Poll, p: Proposal, op: Op): Result<(Proposal, seq<ChainedCall>)> {
    match op
    case Vote(choice, salt, member) =>
      :- Need(member.isAuthorized, MemberNotAuthorized);
      :- Need(Commitment(poll, op) in poll.memberCms, NotAMember);
      :- Need(p.status == Active, ProposalNotActive);
      var voted :- CastVote(poll.env, poll.stateId, poll.threshold, |poll.memberCms|, p, salt, choice);
      var stored :- Stored(poll.env, voted);
      Ok((stored, []))
    case Execute(targets) =>
      var (executed, call) :- ExecuteRecord(poll.threshold, p, targets);
      var stored :- Stored(poll.env, executed);
      Ok((stored, [call]))
  }

  /** A proposal, and the calls it has emitted so far. */
  datatype History = History(p: Proposal, calls: seq<ChainedCall>)

  function ApplyOp(poll: Poll, h: History, op: Op): History {
    var r := Attempt(poll, h.p, op);
    if r.Ok? then History(r.value.0, h.calls + r.value.1) else h
  }

  /** A failed attempt is a panic, and changes nothing. */
  function RunOps(poll: Poll, h: History, ops: seq<Op>): History {
    if ops == [] then h else ApplyOp(poll, RunOps(poll, h, ops[..|ops| - 1]), ops[|ops| - 1])
  }

  function After(poll: Poll, p: Proposal, ops: seq<Op>): Proposal {
    RunOps(poll, History(p, []), ops).p
  }

  predicate Succeeds(poll: Poll, p: Proposal, ops: seq<Op>, k: nat)
    requires k < |ops|
  {
    Attempt(poll, After(poll, p, ops[..k]), ops[k]).Ok?
  }

  /** A proposal as Propose leaves it. */
  ghost predicate Fresh(p: Proposal) {
    p.voteNullifiers == [] && p.rejectNullifiers == [] && p.status == Active
  }

  // What the hash must not confuse

  /** What the votes among the attempts hash into commitments. */
  function MemberPreimages(ops: seq<Op>): set<Bytes> {
    set i | 0 <= i < |ops| && ops[i].Vote? :: MemberPreimage(ops[i].salt, ops[i].member.accountId)
  }

  /** Everything hashed by the votes among the attempts. */
  function Preimages(poll: Poll, index: u64, actionHash: Bytes32, ops: seq<Op>): set<Bytes> {
    MemberPreimages(ops)
    + (set i | 0 <= i < |ops| && ops[i].Vote? :: NullifierPreimage(VoteTag, ops[i].salt, poll.stateId, index, actionHash))
    + (set i | 0 <= i < |ops| && ops[i].Vote? :: NullifierPreimage(RejectTag, ops[i].salt, poll.stateId, index, actionHash))
  }

  /** Commitments do not collide; nullifiers may. */
  ghost predicate CommitmentsDistinct(poll: Poll, ops: seq<Op>) {
    CollisionFree(poll.env.sha, MemberPreimages(ops))
  }

  ghost predicate NoCollision(poll: Poll, p: Proposal, ops: seq<Op>) {
    CollisionFree(poll.env.sha, Preimages(poll, p.index, p.actionHash, ops))
  }

  lemma NoCollisionMeansDistinctCommitments(poll: Poll, p: Proposal, ops: seq<Op>)
    requires NoCollision(poll, p, ops)
    ensures CommitmentsDistinct(poll, ops)
  {
    hide MemberPreimages;
  }

  function Salts(ops: seq<Op>): set<Bytes32> {
    set i | 0 <= i < |ops| && ops[i].Vote? :: ops[i].salt
  }

  function MarkOf(poll: Poll, p: Proposal, choice: Choice, salt: Bytes32): Bytes32 {
    Mark(poll.env, poll.stateId, p, choice, salt)
  }

  ghost predicate MarksDistinctOn(poll: Poll, p: Proposal, choice: Choice, salts: set<Bytes32>) {
    forall s, t :: s in salts && t in salts && MarkOf(poll, p, choice, s) == MarkOf(poll, p, choice, t) ==> s == t
  }

  ghost predicate MarksDistinct(poll: Poll, p: Proposal, salts: set<Bytes32>) {
    MarksDistinctOn(poll, p, For, salts) && MarksDistinctOn(poll, p, Against, salts)
  }

  lemma VotePreimages(poll: Poll, p: Proposal, ops: seq<Op>, i: nat)
    requires i < |ops| && ops[i].Vote?
    ensures MemberPreimage(ops[i].salt, ops[i].member.accountId) in Preimages(poll, p.index, p.actionHash, ops)
    ensures NullifierPreimage(VoteTag, ops[i].salt, poll.stateId, p.index, p.actionHash)
            in Preimages(poll, p.index, p.actionHash, ops)
    ensures NullifierPreimage(RejectTag, ops[i].salt, poll.stateId, p.index, p.actionHash)
            in Preimages(poll, p.index, p.actionHash, ops)
  {
    hide MemberPreimage, NullifierPreimage;
  }

  lemma NoCollisionMeansDistinctMarks(poll: Poll, p: Proposal, ops: seq<Op>)
    requires NoCollision(poll, p, ops)
    ensures MarksDistinct(poll, p, Salts(ops))
  {
    hide Preimages, MemberPreimage, NullifierPreimage;
    forall choice, s, t | s in Salts(ops) && t in Salts(ops) && MarkOf(poll, p, choice, s) == MarkOf(poll, p, choice, t)
      ensures s == t
    {
      var i :| 0 <= i < |ops| && ops[i].Vote? && ops[i].salt == s;
      var j :| 0 <= j < |ops| && ops[j].Vote? && ops[j].salt == t;
      VotePreimages(poll, p, ops, i);
      VotePreimages(poll, p, ops, j);
      var tag := if choice == For then VoteTag else RejectTag;
      NullifierPreimageInjective(tag, s, poll.stateId, p.index, p.actionHash, tag, t, poll.stateId, p.index, p.actionHash);
    }
  }

  lemma CommitmentsDetermineSalts(poll: Poll, ops: seq<Op>, i: nat, j: nat)
    requires CommitmentsDistinct(poll, ops)
    requires i < |ops| && j < |ops| && ops[i].Vote? && ops[j].Vote?
    requires Commitment(poll, ops[i]) == Commitment(poll, ops[j])
    ensures ops[i].salt == ops[j].salt && ops[i].member.accountId == ops[j].member.accountId
  {
    hide MemberPreimage;
    MemberPreimageInjective(ops[i].salt, ops[i].member.accountId, ops[j].salt, ops[j].member.accountId);
  }

  /** Fewer attempts hash fewer inputs. */
  lemma NoCollisionFewer(poll: Poll, p: Proposal, fewer: seq<Op>, ops: seq<Op>)
    requires NoCollision(poll, p, ops)
    requires forall op :: op in fewer && op.Vote? ==> op in ops
    ensures NoCollision(poll, p, fewer)
  {
    hide MemberPreimage, NullifierPreimage;
    forall x | x in Preimages(poll, p.index, p.actionHash, fewer)
      ensures x in Preimages(poll, p.index, p.actionHash, ops)
    {
      var i :| 0 <= i < |fewer| && fewer[i].Vote?
               && (x == MemberPreimage(fewer[i].salt, fewer[i].member.accountId)
                   || x == NullifierPreimage(VoteTag, fewer[i].salt, poll.stateId, p.index, p.actionHash)
                   || x == NullifierPreimage(RejectTag, fewer[i].salt, poll.stateId, p.index, p.actionHash));
      assert fewer[i] in fewer;
      var j :| 0 <= j < |ops| && ops[j] == fewer[i];
      VotePreimages(poll, p, ops, j);
    }
  }

  lemma CommitmentsDistinctFewer(poll: Poll, fewer: seq<Op>, ops: seq<Op>)
    requires CommitmentsDistinct(poll, ops)
    requires forall op :: op in fewer && op.Vote? ==> op in ops
    ensures CommitmentsDistinct(poll, fewer)
  {
    hide MemberPreimage;
    forall x | x in MemberPreimages(fewer)
      ensures x in MemberPreimages(ops)
    {
      var i :| 0 <= i < |fewer| && fewer[i].Vote? && x == MemberPreimage(fewer[i].salt, fewer[i].member.accountId);
      assert fewer[i] in fewer;
    }
  }

  // The ballot behind the lists

  function StepOf(poll: Poll, op: Op): B.Step {
    match op
    case Vote(choice, salt, _) => B.Vote(salt, choice, Eligible(poll, op))
    case Execute(targets) => B.Execute(|targets|)
  }

  function StepsOf(poll: Poll, ops: seq<Op>): (steps: seq<B.Step>)
    ensures |steps| == |ops|
  {
    seq(|ops|, i requires 0 <= i < |ops| => StepOf(poll, ops[i]))
  }

  function RulesOf(poll: Poll, action: ProposalAction): B.Rules {
    B.Rules(poll.threshold as nat, |poll.memberCms|, poll.env.dataLimit as int - BaseSize(action),
            action.targetAccountCount as nat)
  }

  function ListOf(p: Proposal, choice: Choice): seq<Bytes32> {
    match choice
    case For => p.voteNullifiers
    case Against => p.rejectNullifiers
  }

  function MarksOf(poll: Poll, p: Proposal, choice: Choice, salts: set<Bytes32>): set<Bytes32> {
    set s | s in salts :: MarkOf(poll, p, choice, s)
  }

  /** A list holds the marks of the salts that vote that way, each once, and nothing else. */
  ghost predicate FaithfulList(poll: Poll, p: Proposal, b: B.Ballot, choice: Choice) {
    NoDup(ListOf(p, choice)) && SetOf(ListOf(p, choice)) == MarksOf(poll, p, choice, B.Voters(b, choice))
  }

  ghost predicate Faithful(poll: Poll, p: Proposal, t: B.Tally) {
    && p.status == t.status
    && FaithfulList(poll, p, t.ballot, For)
    && FaithfulList(poll, p, t.ballot, Against)
  }

  /** So the length of a list is the true number of salts that vote that way. */
  lemma ListCounts(poll: Poll, p: Proposal, b: B.Ballot, choice: Choice)
    requires FaithfulList(poll, p, b, choice) && MarksDistinctOn(poll, p, choice, B.Voters(b, choice))
    ensures |ListOf(p, choice)| == |B.Voters(b, choice)|
  {
    hide Mark;
    NoDupCount(ListOf(p, choice));
    var mark := (s: Bytes32) => MarkOf(poll, p, choice, s);
    ImageCount(B.Voters(b, choice), mark);
    assert MarksOf(poll, p, choice, B.Voters(b, choice)) == Image(B.Voters(b, choice), mark);
  }

  lemma VotersDistinct(poll: Poll, p: Proposal, b: B.Ballot, choice: Choice)
    requires MarksDistinct(poll, p, b.Keys)
    ensures MarksDistinctOn(poll, p, choice, B.Voters(b, choice))
  {
    hide Mark;
  }

  lemma FaithfulCounts(poll: Poll, p: Proposal, t: B.Tally)
    requires Faithful(poll, p, t) && MarksDistinct(poll, p, t.ballot.Keys)
    ensures |p.voteNullifiers| == |B.Voters(t.ballot, For)|
    ensures |p.rejectNullifiers| == |B.Voters(t.ballot, Against)|
    ensures |p.voteNullifiers| + |p.rejectNullifiers| == |t.ballot|
    ensures |EncodeProposal(p)| == BaseSize(p.action) + 32 * |t.ballot|
  {
    hide EncodeProposal, BaseSize, FaithfulList, MarksDistinct, MarksDistinctOn, B.Voters;
    VotersDistinct(poll, p, t.ballot, For);
    VotersDistinct(poll, p, t.ballot, Against);
    ListCounts(poll, p, t.ballot, For);
    ListCounts(poll, p, t.ballot, Against);
    B.VotersPartition(t.ballot);
    ProposalSize(p);
  }

  /** Whether a salt's mark is in a list tells whether the salt votes that way. */
  lemma MarkTellsVote(poll: Poll, p: Proposal, b: B.Ballot, salts: set<Bytes32>, s: Bytes32, choice: Choice)
    requires FaithfulList(poll, p, b, choice) && MarksDistinct(poll, p, salts)
    requires b.Keys <= salts && s in salts
    ensures MarkOf(poll, p, choice, s) in ListOf(p, choice) <==> B.Entry(b, s) == Some(choice)
  {
    hide Mark;
    assert MarkOf(poll, p, choice, s) in ListOf(p, choice) <==> MarkOf(poll, p, choice, s) in SetOf(ListOf(p, choice));
  }

  // One vote

  /** Pushing a new mark records the vote. */
  lemma PushIsFaithful(poll: Poll, p: Proposal, b: B.Ballot, s: Bytes32, choice: Choice, q: Proposal)
    requires FaithfulList(poll, p, b, choice)
    requires MarkOf(poll, p, choice, s) !in ListOf(p, choice)
    requires q.index == p.index && q.actionHash == p.actionHash
    requires ListOf(q, choice) == ListOf(p, choice) + [MarkOf(poll, p, choice, s)]
    ensures FaithfulList(poll, q, b[s := choice], choice)
  {
    var mark := MarkOf(poll, p, choice, s);
    MarksIgnoreVotes(poll, p, q);
    hide Mark, B.Voters, MarkOf;
    B.VotersAfter(b, s, choice, choice);
    assert SetOf(ListOf(q, choice)) == SetOf(ListOf(p, choice)) + {mark};
  }

  /** Retracting the mark of the opposite vote forgets that vote, and no other. */
  lemma RetractIsFaithful(poll: Poll, p: Proposal, b: B.Ballot, salts: set<Bytes32>, s: Bytes32, choice: Choice, q: Proposal)
    requires FaithfulList(poll, p, b, Other(choice)) && MarksDistinct(poll, p, salts)
    requires b.Keys <= salts && s in salts
    requires q.index == p.index && q.actionHash == p.actionHash
    requires ListOf(q, Other(choice)) == Without(ListOf(p, Other(choice)), MarkOf(poll, p, Other(choice), s))
    ensures FaithfulList(poll, q, b[s := choice], Other(choice))
  {
    var other := Other(choice);
    var mark := MarkOf(poll, p, other, s);
    MarksIgnoreVotes(poll, p, q);
    WithoutMembers(ListOf(p, other), mark);
    WithoutNoDup(ListOf(p, other), mark);
    hide Mark, MarkOf, Without;
    B.VotersAfter(b, s, choice, other);
    assert SetOf(ListOf(q, other)) == SetOf(ListOf(p, other)) - {mark};
    assert MarksOf(poll, p, other, B.Voters(b, other) - {s}) == MarksOf(poll, p, other, B.Voters(b, other)) - {mark};
  }

  function Other(choice: Choice): Choice {
    match choice
    case For => Against
    case Against => For
  }

  lemma MarksIgnoreVotes(poll: Poll, p: Proposal, q: Proposal)
    requires q.index == p.index && q.actionHash == p.actionHash
    ensures forall choice, s :: MarkOf(poll, q, choice, s) == MarkOf(poll, p, choice, s)
    ensures forall choice, salts :: MarksOf(poll, q, choice, salts) == MarksOf(poll, p, choice, salts)
  {
    hide VoteNullifier, RejectNullifier;
    forall choice, s
      ensures MarkOf(poll, q, choice, s) == MarkOf(poll, p, choice, s)
    {
    }
  }
}
