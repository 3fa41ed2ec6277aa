/** Private votes: any number of clients each read the two public accounts, one after the other, run the program on
    what they read, and submit the result, which is included only if the accounts still equal what was read. */
module Optimism {
  import opened Wrappers
  import opened Hashing
  import opened Program
  import opened Chains
  import opened Ledgers

  /** A submitted vote: the snapshot that its proof binds to, and the output computed from it. */
  datatype Pending = Pending(tx: Tx, preState: Account, preProposal: Account, output: Output)

  /** spent holds the transactions already included: the platform consumes each private account state once. */
  datatype World = World(ledger: Ledger, pool: seq<Pending>, spent: set<nat>)

  const DAWN := World(EMPTY, [], {})

  /** A public transaction; a client computing a vote from whatever two accounts it has read, be they current, stale, read
      at different times, or never on the chain at all; or the inclusion of the i-th submitted vote. */
  datatype Event = Public(tx: Tx) | Prove(tx: Tx, preState: Account, preProposal: Account) | Include(i: nat)

  /** The accounts of a vote as its client has read them. */
  function Snapshot(env: Env, tx: Tx, preState: Account, preProposal: Account): seq<AccountWithMetadata>
    requires IsVote(tx)
  {
    [AccountWithMetadata(Address(env, StateOf(tx.key.0)), preState, false),
     AccountWithMetadata(Address(env, ProposalName(tx.key)), preProposal, false)] + Extra(tx)
  }

  function StateAt(env: Env, l: Ledger, tx: Tx): Account
    requires IsVote(tx)
  {
    At(l, Address(env, StateOf(tx.key.0)))
  }

  function ProposalAt(env: Env, l: Ledger, tx: Tx): Account
    requires IsVote(tx)
  {
    At(l, Address(env, ProposalName(tx.key)))
  }

  predicate Unchanged(env: Env, l: Ledger, pending: Pending)
    requires IsVote(pending.tx)
  {
    StateAt(env, l, pending.tx) == pending.preState && ProposalAt(env, l, pending.tx) == pending.preProposal
  }

  predicate Includes(env: Env, w: World, i: nat) {
    i < |w.pool| && i !in w.spent && IsVote(w.pool[i].tx) && |w.pool[i].output.posts| >= 2
    && Unchanged(env, w.ledger, w.pool[i])
  }

  /** The public accounts take the post-states that the proof commits to; nothing is computed again. */
  function Written(env: Env, l: Ledger, pending: Pending): Ledger
    requires IsVote(pending.tx) && |pending.output.posts| >= 2
  {
    Ledger(
      l.accounts[Address(env, StateOf(pending.tx.key.0)) := pending.output.posts[0].account]
                [Address(env, ProposalName(pending.tx.key)) := pending.output.posts[1].account],
      l.log + Tagged(pending.tx.key, pending.output.calls))
  }

  function Happen(env: Env, w: World, e: Event): World {
    match e
    case Public(tx) => w.(ledger := LedgerStep(env, w.ledger, tx))
    case Prove(tx, preState, preProposal) =>
      if !IsVote(tx) then w
      else
        var r := Process(env, Snapshot(env, tx, preState, preProposal), InstructionOf(tx));
        if r.Err? then w else w.(pool := w.pool + [Pending(tx, preState, preProposal, r.value)])
    case Include(i) =>
      if Includes(env, w, i) then w.(ledger := Written(env, w.ledger, w.pool[i]), spent := w.spent + {i}) else w
  }

  function Unfold(env: Env, events: seq<Event>): World {
    if events == [] then DAWN else Happen(env, Unfold(env, events[..|events| - 1]), events[|events| - 1])
  }

  /** What took effect: a public transaction, or the i-th submitted vote. */
  datatype Effect = Direct(tx: Tx) | Voted(i: nat, tx: Tx)

  function Effects(env: Env, events: seq<Event>): seq<Effect> {
    if events == [] then []
    else
      var w, earlier := Unfold(env, events[..|events| - 1]), Effects(env, events[..|events| - 1]);
      match events[|events| - 1]
      case Public(tx) => earlier + [Direct(tx)]
      case Prove(_, _, _) => earlier
      case Include(i) => if Includes(env, w, i) then earlier + [Voted(i, w.pool[i].tx)] else earlier
  }

  function TxsOf(effects: seq<Effect>): seq<Tx> {
    seq(|effects|, i requires 0 <= i < |effects| => effects[i].tx)
  }

  /** A submitted vote is what the program computes from its snapshot. */
  ghost predicate Proven(env: Env, pending: Pending) {
    && IsVote(pending.tx)
    && Process(env, Snapshot(env, pending.tx, pending.preState, pending.preProposal), InstructionOf(pending.tx))
       == Ok(pending.output)
  }

  lemma {:induction false} PoolIsProven(env: Env, events: seq<Event>, i: nat)
    requires i < |Unfold(env, events).pool|
    ensures Proven(env, Unfold(env, events).pool[i])
  {
    hide Process, Address, At, LedgerStep, Includes, Written, InstructionOf;
    var init := events[..|events| - 1];
    if i < |Unfold(env, init).pool| {
      PoolIsProven(env, init, i);
    }
  }

  /** Including a vote whose snapshot still holds does exactly what running it now would do, and it succeeds. */
  lemma InclusionIsExecution(env: Env, l: Ledger, pending: Pending)
    requires Proven(env, pending) && Unchanged(env, l, pending)
    ensures |pending.output.posts| >= 2
    ensures Process(env, Accounts(env, l, pending.tx), InstructionOf(pending.tx)) == Ok(pending.output)
    ensures LedgerStep(env, l, pending.tx) == Written(env, l, pending)
  {
    hide Process, Address, At, InstructionOf;
  }

  predicate SucceedsOn(env: Env, l: Ledger, tx: Tx) {
    Process(env, Accounts(env, l, tx), InstructionOf(tx)).Ok?
  }

  /** Each submitted vote takes effect at most once, and when it does it succeeds where it stands in the order. */
  ghost predicate Serialized(env: Env, w: World, effects: seq<Effect>) {
    && w.ledger == LedgerRun(env, TxsOf(effects))
    && (forall k :: 0 <= k < |effects| && effects[k].Voted? ==>
          && effects[k].i in w.spent
          && SucceedsOn(env, LedgerRun(env, TxsOf(effects)[..k]), effects[k].tx))
    && (forall k, n :: 0 <= k < n < |effects| && effects[k].Voted? && effects[n].Voted? ==> effects[k].i != effects[n].i)
  }

  lemma OneMoreEffect(env: Env, w: World, effects: seq<Effect>, effect: Effect, w': World)
    requires Serialized(env, w, effects)
    requires w'.ledger == LedgerStep(env, w.ledger, effect.tx)
    requires w.spent <= w'.spent
    requires effect.Voted? ==> effect.i !in w.spent && effect.i in w'.spent && SucceedsOn(env, w.ledger, effect.tx)
    ensures Serialized(env, w', effects + [effect])
  {
    hide LedgerStep, SucceedsOn;
    var longer := effects + [effect];
    var txs, txs' := TxsOf(effects), TxsOf(longer);
    assert txs'[..|txs|] == txs && txs == txs[..|txs|];
    forall k | 0 <= k < |longer| && longer[k].Voted?
      ensures longer[k].i in w'.spent && SucceedsOn(env, LedgerRun(env, txs'[..k]), longer[k].tx)
    {
      if k < |effects| {
        assert longer[k] == effects[k] && txs'[..k] == txs[..k];
      }
    }
  }

  /** Serialisability: every interleaving of public transactions, votes computed and inclusions is the sequential run of
      the public transactions and the included votes, in the order of inclusion. No included vote is lost, none
      overwrites another, and none counts twice, even if the accounts leave a snapshot and return to it. */
  lemma {:induction false} EveryInterleavingIsSerial(env: Env, events: seq<Event>)
    ensures Serialized(env, Unfold(env, events), Effects(env, events))
  {
    if events == [] {
      assert TxsOf([]) == [];
    } else {
      var init, last := events[..|events| - 1], events[|events| - 1];
      EveryInterleavingIsSerial(env, init);
      var w, effects := Unfold(env, init), Effects(env, init);
      hide Serialized, LedgerStep, Process, Accounts, InstructionOf, Written, Unchanged;
      match last
      case Public(tx) =>
        OneMoreEffect(env, w, effects, Direct(tx), Unfold(env, events));
      case Prove(_, _, _) =>
        SameEffects(env, w, effects, Unfold(env, events));
      case Include(i) =>
        if Includes(env, w, i) {
          PoolIsProven(env, init, i);
          InclusionIsExecution(env, w.ledger, w.pool[i]);
          OneMoreEffect(env, w, effects, Voted(i, w.pool[i].tx), Unfold(env, events));
        }
    }
  }

  lemma SameEffects(env: Env, w: World, effects: seq<Effect>, w': World)
    requires Serialized(env, w, effects) && w'.ledger == w.ledger && w'.spent == w.spent
    ensures Serialized(env, w', effects)
  {
  }

  // No vote is lost

  /** Including a submitted vote, in any reachable world, runs it if it has not been included before and both accounts are
      as its client read them, and otherwise does nothing at all. */
  lemma InclusionActs(env: Env, events: seq<Event>, i: nat)
    requires i < |Unfold(env, events).pool|
    ensures var w := Unfold(env, events);
            var w', pending := Happen(env, w, Include(i)), w.pool[i];
            && IsVote(pending.tx)
            && var asRead := && At(w.ledger, Address(env, StateOf(pending.tx.key.0))) == pending.preState
                             && At(w.ledger, Address(env, ProposalName(pending.tx.key))) == pending.preProposal;
            && (i !in w.spent && asRead ==>
                  && SucceedsOn(env, w.ledger, pending.tx)
                  && w' == World(LedgerStep(env, w.ledger, pending.tx), w.pool, w.spent + {i}))
            && (i in w.spent || !asRead ==> w' == w)
  {
    hide Process, Address, At, LedgerStep, Written, InstructionOf, Accounts;
    var w := Unfold(env, events);
    PoolIsProven(env, events, i);
    if Unchanged(env, w.ledger, w.pool[i]) {
      InclusionIsExecution(env, w.ledger, w.pool[i]);
    }
  }

  /** Whatever a client computes a vote from, it can submit it exactly if the program accepts it on those accounts. */
  lemma ProvingSubmits(env: Env, w: World, tx: Tx, preState: Account, preProposal: Account)
    requires IsVote(tx)
    ensures var r := Process(env, Snapshot(env, tx, preState, preProposal), InstructionOf(tx));
            Happen(env, w, Prove(tx, preState, preProposal))
            == if r.Ok? then w.(pool := w.pool + [Pending(tx, preState, preProposal, r.value)]) else w
  {
    hide Process, Address, InstructionOf;
  }

  lemma {:induction false} SpentIsSubmitted(env: Env, events: seq<Event>, i: nat)
    requires i in Unfold(env, events).spent
    ensures i < |Unfold(env, events).pool|
  {
    if events != [] {
      hide Process, Address, At, LedgerStep, Written, InstructionOf, Unchanged;
      var init := events[..|events| - 1];
      if i in Unfold(env, init).spent {
        SpentIsSubmitted(env, init, i);
      }
    }
  }

  lemma UnfoldSnoc(env: Env, events: seq<Event>, e: Event)
    ensures Unfold(env, events + [e]) == Happen(env, Unfold(env, events), e)
  {
    hide Happen;
    assert (events + [e])[..|events|] == events;
  }

  /** Progress: in every reachable world, a client that reads both accounts as they are and submits the vote computed from
      them, before anything else changes them, gets exactly that vote cast, whenever the program accepts it. */
  lemma EveryoneCanVote(env: Env, events: seq<Event>, tx: Tx)
    requires IsVote(tx) && SucceedsOn(env, Unfold(env, events).ledger, tx)
    ensures var w := Unfold(env, events);
            var prove := Prove(tx, At(w.ledger, Address(env, StateOf(tx.key.0))),
                               At(w.ledger, Address(env, ProposalName(tx.key))));
            var w' := Unfold(env, events + [prove] + [Include(|w.pool|)]);
            w'.ledger == LedgerStep(env, w.ledger, tx) && w'.spent == w.spent + {|w.pool|} && |w'.pool| == |w.pool| + 1
  {
    hide Process, Address, At, LedgerStep, InstructionOf, Happen, Unfold;
    var w := Unfold(env, events);
    var preState, preProposal := At(w.ledger, Address(env, StateOf(tx.key.0))), At(w.ledger, Address(env, ProposalName(tx.key)));
    var prove := Prove(tx, preState, preProposal);
    UnfoldSnoc(env, events, prove);
    UnfoldSnoc(env, events + [prove], Include(|w.pool|));
    ProvingSubmits(env, w, tx, preState, preProposal);
    SnapshotIsAccounts(env, w.ledger, tx);
    InclusionActs(env, events + [prove], |w.pool|);
    if |w.pool| in w.spent {
      SpentIsSubmitted(env, events, |w.pool|);
    }
  }

  lemma SnapshotIsAccounts(env: Env, l: Ledger, tx: Tx)
    requires IsVote(tx)
    ensures Snapshot(env, tx, At(l, Address(env, StateOf(tx.key.0))), At(l, Address(env, ProposalName(tx.key))))
            == Accounts(env, l, tx)
  {
    hide Address, At;
  }

  /** So everything proved of runs holds of the interleaved world: its accounts store the record chain of the
      transactions that took effect. */
  lemma InterleavedWorldStoresChain(env: Env, events: seq<Event>, names: set<Name>)
    requires var txs := TxsOf(Effects(env, events));
             AllNames(txs) <= names && AddressesDistinct(env, names)
    ensures Represents(env, Unfold(env, events).ledger, Run(env, TxsOf(Effects(env, events))), names)
  {
    EveryInterleavingIsSerial(env, events);
    LedgerStoresChain(env, TxsOf(Effects(env, events)), names);
  }
}
