/** The hypotheses of the theorems can be met: there is a hash, and a run from the empty chain to an executed call of a
    2-of-3 multisig, that satisfies all of them. */
module Feasibility {
  import opened Words
  import opened Lists
  import opened Records
  import opened Borsh
  import opened Hashing
  import opened Program
  import opened Voting
  import opened Outcomes
  import opened Executions
  import opened Chains
  import opened Runs
  import opened Ledgers
  import opened Optimism
  import G = Guarantees

  /** A hash that keeps an input's tag and the byte after it. */
  function Digest(x: Bytes): Bytes32 {
    if |x| > 32 then x[..31] + [x[32]] else seq(32, _ => 0)
  }

  const ENV := Env(Digest, (p: ProgramId, seed: Bytes32) => seed, [0, 0, 0, 0, 0, 0, 0, 0], Checked, 102400)

  const ACTION := ProposalAction([0, 0, 0, 0, 0, 0, 0, 0], [], 0, [], [])

  function Stem(tag: Tag): Bytes {
    Dst(tag)[..31]
  }

  /** The n-th voter's salt, and account. */
  function Voter(n: u8): Bytes32 {
    seq(32, _ => n)
  }

  function Members(): seq<Bytes32> {
    [Commit(1), Commit(2), Commit(3)]
  }

  function Commit(n: u8): Bytes32 {
    MemberCommitment(ENV, Voter(n), Voter(n))
  }

  function Approval(n: u8): Op {
    Op.Vote(For, Voter(n), AccountWithMetadata(Voter(n), DEFAULT_ACCOUNT, true))
  }

  function Opening(createKey: Bytes32): seq<Tx> {
    [Create(createKey, 2, Members()), Open((createKey, 1), ACTION)]
  }

  // No collisions

  lemma DigestSees(tag: Tag, rest: Bytes)
    requires rest != []
    ensures Digest(Dst(tag) + rest) == Stem(tag) + [rest[0]]
  {
    hide Dst;
    var x := Dst(tag) + rest;
    assert x[..31] == Dst(tag)[..31] && x[32] == rest[0];
  }

  lemma StemsDiffer(s: Tag, m: u8, t: Tag, n: u8)
    requires Stem(s) + [m] == Stem(t) + [n]
    ensures s == t && m == n
  {
    hide Text, Ascii;
    TextLengths();
    assert Dst(s)[31] == 0 && Dst(t)[31] == 0 by {
      LastByte(s);
      LastByte(t);
    }
    hide Dst;
    assert Stem(s) == (Stem(s) + [m])[..31] && Stem(t) == (Stem(t) + [n])[..31];
    assert m == (Stem(s) + [m])[31] && n == (Stem(t) + [n])[31];
    assert Dst(s) == Stem(s) + [Dst(s)[31]] && Dst(t) == Stem(t) + [Dst(t)[31]];
    TagsAreDistinct(s, t);
  }

  lemma LastByte(tag: Tag)
    ensures Dst(tag)[31] == 0
  {
    hide Text, Ascii;
    TextLengths();
  }

  /** What the n-th voter hashes under a tag, when voting on the proposal. */
  function Input(createKey: Bytes32, tag: Tag, n: u8): Bytes {
    if tag == MemberTag then MemberPreimage(Voter(n), Voter(n))
    else NullifierPreimage(tag, Voter(n), Address(ENV, StateOf(createKey)), 1, ActionHash(ENV, ACTION))
  }

  lemma InputDigest(createKey: Bytes32, tag: Tag, n: u8)
    ensures Digest(Input(createKey, tag, n)) == Stem(tag) + [n]
  {
    hide Dst, ActionHash, Address, Digest, Stem;
    var s := Voter(n);
    var rest: Bytes := Address(ENV, StateOf(createKey)) + (ToLE(1, 8) + ActionHash(ENV, ACTION));
    DigestSees(MemberTag, s + s);
    DigestSees(tag, s + rest);
    assert (s + s)[0] == n && (s + rest)[0] == n;
  }

  /** Whoever votes for the one proposal, under an own salt each, the hash has no collision. */
  lemma VotersAreHonest(txs: seq<Tx>, createKey: Bytes32)
    requires forall i :: 0 <= i < |txs| && IsVote(txs[i]) ==> exists n :: txs[i] == Act((createKey, 1), Approval(n))
    requires forall i :: 0 <= i < |txs| && txs[i].Open? ==> txs[i] == Open((createKey, 1), ACTION)
    ensures Honest(ENV, txs)
  {
    hide MemberPreimage, NullifierPreimage, Digest, Stem, ActionHash, Address, Voter;
    forall x | x in Hashed(ENV, txs)
      ensures exists tag, n :: x == Input(createKey, tag, n)
    {
      InputOf(txs, createKey, x);
    }
    forall x, y | x in Hashed(ENV, txs) && y in Hashed(ENV, txs) && Digest(x) == Digest(y)
      ensures x == y
    {
      var s, m :| x == Input(createKey, s, m);
      var t, n :| y == Input(createKey, t, n);
      InputDigest(createKey, s, m);
      InputDigest(createKey, t, n);
      StemsDiffer(s, m, t, n);
    }
  }

  lemma InputOf(txs: seq<Tx>, createKey: Bytes32, x: Bytes)
    requires forall i :: 0 <= i < |txs| && IsVote(txs[i]) ==> exists n :: txs[i] == Act((createKey, 1), Approval(n))
    requires forall i :: 0 <= i < |txs| && txs[i].Open? ==> txs[i] == Open((createKey, 1), ACTION)
    requires x in Hashed(ENV, txs)
    ensures exists tag, n :: x == Input(createKey, tag, n)
  {
    hide MemberPreimage, NullifierPreimage, ActionHash, Address, Voter;
    var i :| 0 <= i < |txs| && IsVote(txs[i])
             && (x == MemberPreimage(txs[i].op.salt, txs[i].op.member.accountId)
                 || exists tag, j :: tag in {VoteTag, RejectTag} && 0 <= j < |txs| && txs[j].Open?
                                     && x == Nullified(ENV, tag, txs[i], txs[j]));
    var n :| txs[i] == Act((createKey, 1), Approval(n));
    if x == MemberPreimage(txs[i].op.salt, txs[i].op.member.accountId) {
      assert x == Input(createKey, MemberTag, n);
    } else {
      var tag, j :| tag in {VoteTag, RejectTag} && 0 <= j < |txs| && txs[j].Open? && x == Nullified(ENV, tag, txs[i], txs[j]);
      assert x == Input(createKey, tag, n);
    }
  }

  lemma SeedDigest(tag: Tag, createKey: Bytes32, rest: seq<Bytes32>)
    ensures Digest(Flatten([Dst(tag), createKey])) == Stem(tag) + [createKey[0]]
    ensures forall last: Bytes32 :: Digest(Flatten([Dst(tag), createKey, last])) == Stem(tag) + [createKey[0]]
  {
    hide Dst, Digest, Stem;
    var two := [Dst(tag), createKey];
    assert two[..1] == [Dst(tag)] && [Dst(tag)][..0] == [];
    assert Flatten([Dst(tag)]) == Flatten([]) + Dst(tag) == Dst(tag);
    assert Flatten(two) == Flatten(two[..1]) + createKey == Dst(tag) + createKey;
    DigestSees(tag, createKey);
    forall last: Bytes32
      ensures Digest(Flatten([Dst(tag), createKey, last])) == Stem(tag) + [createKey[0]]
    {
      assert [Dst(tag), createKey, last][..2] == two;
      Assoc(Dst(tag), createKey, last);
      DigestSees(tag, createKey + last);
    }
  }

  lemma TwoAddresses(createKey: Bytes32, names: set<Name>)
    requires names <= {StateOf(createKey), ProposalOf(createKey, 1)}
    ensures AddressesDistinct(ENV, names)
  {
    hide Dst, Digest, Stem, Flatten;
    SeedDigest(StateTag, createKey, []);
    SeedDigest(ProposalTag, createKey, []);
    if Address(ENV, StateOf(createKey)) == Address(ENV, ProposalOf(createKey, 1)) {
      StemsDiffer(StateTag, createKey[0], ProposalTag, createKey[0]);
    }
  }

  // The run

  lemma SmallAction()
    ensures BaseSize(ACTION) == 126
  {
    ItemsExact();
    ItemsWidth(WORD, ACTION.targetProgramId);
    VecWidth(WORD, ACTION.targetInstructionData);
    VecWidth(HASH, ACTION.pdaSeeds);
    VecWidth(BYTE, ACTION.authorizedIndices);
  }

  lemma MembersDiffer()
    ensures NoDup(Members())
  {
    hide Dst, Digest, MemberPreimage, Stem;
    var k := Voter(0);
    InputDigest(k, MemberTag, 1);
    InputDigest(k, MemberTag, 2);
    InputDigest(k, MemberTag, 3);
    if Commit(1) == Commit(2) { StemsDiffer(MemberTag, 1, MemberTag, 2); }
    if Commit(1) == Commit(3) { StemsDiffer(MemberTag, 1, MemberTag, 3); }
    if Commit(2) == Commit(3) { StemsDiffer(MemberTag, 2, MemberTag, 3); }
  }

  lemma OpeningSucceeds(createKey: Bytes32)
    ensures var c, key := Run(ENV, Opening(createKey)), (createKey, 1 as u64);
            && createKey in c.states && key in c.proposals
            && c.states[createKey] == MultisigState(createKey, 2, Members(), 1)
            && c.proposals[key] == NewProposal(ENV, 1, createKey, ACTION)
  {
    hide EncodeState, EncodeProposal, NewProposal, Commit, BaseSize, NoDup;
    var txs := Opening(createKey);
    MembersDiffer();
    SmallAction();
    StateSize(MultisigState(createKey, 2, Members(), 0));
    StateSize(MultisigState(createKey, 2, Members(), 1));
    ProposalSize(NewProposal(ENV, 1, createKey, ACTION));
    FreshRecord(createKey);
    assert [] + [txs[0]] == [txs[0]] && [txs[0]] + [txs[1]] == txs;
    RunSnoc(ENV, [], txs[0]);
    RunSnoc(ENV, [txs[0]], txs[1]);
  }

  lemma FreshRecord(createKey: Bytes32)
    ensures NewProposal(ENV, 1, createKey, ACTION) == Proposal(1, createKey, ACTION, ActionHash(ENV, ACTION), [], [], Active)
  {
  }

  lemma VotersQualify(createKey: Bytes32)
    ensures var q, poll := NewProposal(ENV, 1, createKey, ACTION), PollOf(ENV, MultisigState(createKey, 2, Members(), 1));
            Group(poll, [Approval(1), Approval(2)], For) && Fits(poll, q, [Approval(1), Approval(2)])
  {
    hide EncodeProposal, MemberCommitment, BaseSize, MarkOf, Address;
    var q, poll := NewProposal(ENV, 1, createKey, ACTION), PollOf(ENV, MultisigState(createKey, 2, Members(), 1));
    var group := [Approval(1), Approval(2)];
    SmallAction();
    ProposalSize(q);
    assert Voter(1)[0] != Voter(2)[0];
    assert Newcomers(poll, q, group) <= {Voter(1), Voter(2)};
    SubsetCount(Newcomers(poll, q, group), {Voter(1), Voter(2)});
  }

  lemma {:induction false} PublicHistory(txs: seq<Tx>)
    ensures G.History(ENV, seq(|txs|, i requires 0 <= i < |txs| => Public(txs[i]))) == txs
  {
    hide Happen;
    var events := seq(|txs|, i requires 0 <= i < |txs| => Public(txs[i]));
    if txs != [] {
      var init := txs[..|txs| - 1];
      PublicHistory(init);
      assert events[..|events| - 1] == seq(|init|, i requires 0 <= i < |init| => Public(init[i]));
      assert txs == init + [txs[|txs| - 1]];
    }
  }

  lemma NotYetAll(poll: Poll, q: Proposal)
    requires q.voteNullifiers == []
    ensures NotYet(poll, q, For, [Approval(1), Approval(2)]) == [Approval(1), Approval(2)]
  {
    hide MarkOf, Voter;
    var a, b := Approval(1), Approval(2);
    assert [a, b][..1] == [a] && [a][..0] == [];
    assert NotYet(poll, q, For, []) == [];
    assert NotYet(poll, q, For, [a]) == [] + [a];
  }

  /** From the empty chain to an emitted call of a 2-of-3 multisig, without any collision of hashes or addresses. */
  lemma SomeRunExecutes(createKey: Bytes32) returns (txs: seq<Tx>, events: seq<Event>)
    ensures G.History(ENV, events) == txs && G.NothingCollides(ENV, events)
    ensures var c, key := Run(ENV, txs), (createKey, 1 as u64);
            && createKey in c.states && c.states[createKey] == MultisigState(createKey, 2, Members(), 1)
            && key in c.proposals && c.proposals[key].status == Executed
            && CallsOf(c.log, key) == [CallFor(ACTION, [])]
  {
    hide EncodeProposal, NewProposal, Digest, Run, Group, Fits, NotYet, Honest, CallsOf, CallFor, Commit, AllTaken,
         AddressesDistinct, AllNames, Voter, G.History, Acts;
    var key, group := (createKey, 1 as u64), [Approval(1), Approval(2)];
    var full := group + [Op.Execute([])];
    OpeningSucceeds(createKey);
    VotersQualify(createKey);
    FreshRecord(createKey);
    ActsAreHonest(createKey, group);
    AnyMMembersCanExecute(ENV, Opening(createKey), key, group, []);
    NotYetAll(PollOf(ENV, Run(ENV, Opening(createKey)).states[createKey]), NewProposal(ENV, 1, createKey, ACTION));
    RunActs(ENV, Opening(createKey), key, full);
    txs := Opening(createKey) + Acts(key, full);
    events := seq(|txs|, i requires 0 <= i < |txs| => Public(txs[i]));
    ActsAreHonest(createKey, full);
    PublicHistory(txs);
  }

  lemma ActsAreHonest(createKey: Bytes32, ops: seq<Op>)
    requires forall i :: 0 <= i < |ops| && ops[i].Vote? ==> exists n :: ops[i] == Approval(n)
    ensures var txs := Opening(createKey) + Acts((createKey, 1), ops);
            Honest(ENV, txs) && AddressesDistinct(ENV, AllNames(txs))
  {
    hide Honest, AddressesDistinct, Approval, Members;
    var txs := Opening(createKey) + Acts((createKey, 1), ops);
    forall i | 0 <= i < |txs| && IsVote(txs[i])
      ensures exists n :: txs[i] == Act((createKey, 1), Approval(n))
    {
      var n :| ops[i - 2] == Approval(n);
    }
    VotersAreHonest(txs, createKey);
    forall name | name in AllNames(txs)
      ensures name in {StateOf(createKey), ProposalOf(createKey, 1)}
    {
      var i :| 0 <= i < |txs| && name in NamesOf(txs[i]);
    }
    TwoAddresses(createKey, AllNames(txs));
  }
}
