/** The end-to-end guarantees: what the bytes on the ledger and the calls it has emitted say, after any interleaving of
    public transactions and private votes. */
module Guarantees {
  import opened Wrappers
  import opened Records
  import opened Borsh
  import opened Hashing
  import opened Program
  import opened Voting
  import opened Outcomes
  import opened Chains
  import opened Runs
  import opened Ledgers
  import opened Optimism

  /** The transactions that took effect, in order. */
  function History(env: Env, events: seq<Event>): seq<Tx> {
    TxsOf(Effects(env, events))
  }

  /** The collisions that would matter: among the hashes of the votes that took effect, and among the addresses of the
      accounts involved. */
  ghost predicate NothingCollides(env: Env, events: seq<Event>) {
    Honest(env, History(env, events)) && AddressesDistinct(env, AllNames(History(env, events)))
  }

  /** A Rejected proposal has more than N - M distinct members' rejections standing. */
  lemma EveryRejectionIsBacked(env: Env, events: seq<Event>, key: Key)
    returns (j: nat, poll: Poll, p: Proposal, ops: seq<Op>)
    requires NothingCollides(env, events) && ProposalName(key) in AllNames(History(env, events))
    requires var decoded := DecodeProposal(At(Unfold(env, events).ledger, Address(env, ProposalName(key))).data);
             decoded.Some? && decoded.value.status == Rejected
    ensures Accounted(env, History(env, events), key, j, poll, p, ops)
    ensures |Supporters(poll, p, ops, |ops|, Against)| > |poll.memberCms| - poll.threshold as nat
  {
    hide Honest, AddressesDistinct, AllNames, Effects, Unfold, Run, At, Address, DecodeProposal, EncodeProposal, Accounted,
         Supporters, StandingSalts;
    var txs := History(env, events);
    AccountTellsTheTruth(env, events, key);
    j, poll, p, ops := RejectedOnlyByVeto(env, txs, key);
  }

  /** No proposal is ever called twice, and behind every call at least M distinct members of its multisig had, at its
      execution, a standing approval of that same proposal, given by an account they control. */
  lemma EveryCallIsBacked(env: Env, events: seq<Event>, key: Key)
    returns (j: nat, poll: Poll, p: Proposal, ops: seq<Op>, k: nat)
    requires NothingCollides(env, events)
    requires CallsOf(Unfold(env, events).ledger.log, key) != []
    ensures |CallsOf(Unfold(env, events).ledger.log, key)| == 1
    ensures Accounted(env, History(env, events), key, j, poll, p, ops)
    ensures k < |ops| && ops[k].Execute? && Voting.Succeeds(poll, p, ops, k)
    ensures |StandingSalts(poll, p, ops, k, For)| >= poll.threshold as nat
    ensures |Supporters(poll, p, ops, k, For)| >= poll.threshold as nat
  {
    hide Honest, AddressesDistinct, AllNames, Effects, Unfold, Run, CallsOf, Accounted, Supporters, StandingSalts, Voting.Succeeds,
         ExecutedAt, OpenedAt;
    var txs := History(env, events);
    InterleavedWorldStoresChain(env, events, AllNames(txs));
    ExactlyOnce(env, txs, key);
    j, poll, p, ops, k := NoCallWithoutThreshold(env, txs, key);
  }

  /** What a client reads from a proposal's account is the proposal: its bytes decode to the record that its own attempts
      produced, whose lists hold at most N nullifiers between them, and which is Executed exactly when its one call
      has been emitted. */
  lemma AccountTellsTheTruth(env: Env, events: seq<Event>, key: Key)
    requires NothingCollides(env, events) && ProposalName(key) in AllNames(History(env, events))
    ensures var l, c := Unfold(env, events).ledger, Run(env, History(env, events));
            var decoded := DecodeProposal(At(l, Address(env, ProposalName(key))).data);
            && decoded == (if key in c.proposals then Some(c.proposals[key]) else None)
            && (decoded.Some? ==>
                  && key.0 in c.states
                  && |decoded.value.voteNullifiers| + |decoded.value.rejectNullifiers| <= |c.states[key.0].memberCms|
                  && (decoded.value.status == Executed <==> CallsOf(l.log, key) != []))
  {
    hide Honest, AddressesDistinct, AllNames, Effects, Unfold, Run, CallsOf, At, Address, DecodeProposal, EncodeProposal;
    var txs := History(env, events);
    InterleavedWorldStoresChain(env, events, AllNames(txs));
    FiledRun(env, txs, key);
    ReadsBack(env, Unfold(env, events).ledger, Run(env, txs), AllNames(txs), key);
    if key in Run(env, txs).proposals {
      HonestMeansDistinctMembers(env, txs);
      ReachableProposals(env, txs, key);
      ExactlyOnce(env, txs, key);
    }
  }
}
