/** Many multisigs and many proposals: the chain as maps from names to records, and a log of the calls. */
module Chains {
  import opened Wrappers
  import opened Words
  import opened Lists
  import opened Records
  import opened Borsh
  import opened Hashing
  import opened Program
  import opened Voting

  /** A proposal's name: its multisig's create key, and its index. */
  type Key = (Bytes32, u64)

  datatype Entry = Entry(key: Key, call: ChainedCall)

  datatype Chain = Chain(states: map<Bytes32, MultisigState>, proposals: map<Key, Proposal>, log: seq<Entry>)

  const GENESIS := Chain(map[], map[], [])

  /** A transaction: what it attempts, with the accounts that it brings along. */
  datatype Tx =
    | Create(createKey: Bytes32, threshold: u8, memberCms: seq<Bytes32>)
    | Open(key: Key, action: ProposalAction)
    | Act(key: Key, op: Op)

  predicate IsVote(tx: Tx) {
    tx.Act? && tx.op.Vote?
  }

  /** What votes are checked against when the state is read from the account stateId. */
  function PollAt(env: Env, stateId: Bytes32, s: MultisigState): Poll {
    Poll(env, stateId, s.threshold, s.memberCms)
  }

  function PollOf(env: Env, s: MultisigState): Poll {
    PollAt(env, Address(env, StateOf(s.createKey)), s)
  }

  predicate Creates(env: Env, c: Chain, tx: Tx)
    requires tx.Create?
  {
    && tx.createKey !in c.states
    && 1 <= tx.threshold as nat <= |tx.memberCms| <= MAX_MEMBERS && NoDup(tx.memberCms)
    && |EncodeState(NewState(tx.createKey, tx.threshold, tx.memberCms))| <= env.dataLimit as nat
  }

  function Opened(env: Env, tx: Tx): Proposal
    requires tx.Open?
  {
    NewProposal(env, tx.key.1, tx.key.0, tx.action)
  }

  predicate Opens(env: Env, c: Chain, tx: Tx)
    requires tx.Open?
  {
    && tx.key.0 in c.states && tx.key !in c.proposals
    && var s := c.states[tx.key.0];
    && NextIndex(env.arith, s.transactionIndex) == Some(tx.key.1)
    && IndicesInRange(tx.action)
    && |EncodeState(s.(transactionIndex := tx.key.1))| <= env.dataLimit as nat
    && |EncodeProposal(Opened(env, tx))| <= env.dataLimit as nat
  }

  function Tagged(key: Key, calls: seq<ChainedCall>): seq<Entry> {
    seq(|calls|, i requires 0 <= i < |calls| => Entry(key, calls[i]))
  }

  /** A transaction that fails changes nothing. */
  function Step(env: Env, c: Chain, tx: Tx): Chain {
    match tx
    case Create(createKey, threshold, memberCms) =>
      if Creates(env, c, tx) then c.(states := c.states[createKey := NewState(createKey, threshold, memberCms)]) else c
    case Open(key, action) =>
      if Opens(env, c, tx) then
        c.(states := c.states[key.0 := c.states[key.0].(transactionIndex := key.1)],
           proposals := c.proposals[key := Opened(env, tx)])
      else c
    case Act(key, op) =>
      if key.0 in c.states && key in c.proposals then
        var r := Attempt(PollOf(env, c.states[key.0]), c.proposals[key], op);
        if r.Ok? then c.(proposals := c.proposals[key := r.value.0], log := c.log + Tagged(key, r.value.1)) else c
      else c
  }

  function Run(env: Env, txs: seq<Tx>): Chain {
    if txs == [] then GENESIS else Step(env, Run(env, txs[..|txs| - 1]), txs[|txs| - 1])
  }

  function CallsOf(log: seq<Entry>, key: Key): seq<ChainedCall> {
    if log == [] then []
    else
      var rest, last := CallsOf(log[..|log| - 1], key), log[|log| - 1];
      if last.key == key then rest + [last.call] else rest
  }

  lemma {:induction false} CallsOfTagged(log: seq<Entry>, key: Key, calls: seq<ChainedCall>, other: Key)
    ensures CallsOf(log + Tagged(key, calls), other) == CallsOf(log, other) + if other == key then calls else []
  {
    if calls == [] {
      assert log + Tagged(key, calls) == log;
    } else {
      var init, last := calls[..|calls| - 1], calls[|calls| - 1];
      CallsOfTagged(log, key, init, other);
      assert log + Tagged(key, calls) == log + Tagged(key, init) + [Entry(key, last)];
      assert (log + Tagged(key, calls))[..|log + Tagged(key, calls)| - 1] == log + Tagged(key, init);
    }
  }

  function KeyOf(tx: Tx): Option<Key> {
    if tx.Create? then None else Some(tx.key)
  }

  function CreateKeyOf(tx: Tx): Bytes32 {
    if tx.Create? then tx.createKey else tx.key.0
  }

  /** Isolation: a transaction leaves every other proposal, every other multisig and every other
      proposal's calls as they were; members and thresholds never change; nothing is ever removed. */
  lemma StepIsIsolated(env: Env, c: Chain, tx: Tx, key: Key, createKey: Bytes32)
    ensures var c' := Step(env, c, tx);
            && (KeyOf(tx) != Some(key) ==> (key in c'.proposals <==> key in c.proposals)
                                           && (key in c.proposals ==> c'.proposals[key] == c.proposals[key])
                                           && CallsOf(c'.log, key) == CallsOf(c.log, key))
            && (CreateKeyOf(tx) != createKey || tx.Act? ==>
                  (createKey in c'.states <==> createKey in c.states)
                  && (createKey in c.states ==> c'.states[createKey] == c.states[createKey]))
            && (createKey in c.states ==>
                  createKey in c'.states
                  && c'.states[createKey] == c.states[createKey].(transactionIndex := c'.states[createKey].transactionIndex))
            && (key in c.proposals ==> key in c'.proposals)
  {
    hide EncodeState, EncodeProposal, Attempt, NewProposal, CallsOf, Tagged;
    if tx.Act? && tx.key.0 in c.states && tx.key in c.proposals {
      var r := Attempt(PollOf(env, c.states[tx.key.0]), c.proposals[tx.key], tx.op);
      if r.Ok? {
        CallsOfTagged(c.log, tx.key, r.value.1, key);
      }
    }
  }

  // Openings and executions

  /** Transaction j opens the proposal. */
  ghost predicate OpenedAt(env: Env, txs: seq<Tx>, key: Key, j: int) {
    0 <= j < |txs| && txs[j].Open? && txs[j].key == key && Opens(env, Run(env, txs[..j]), txs[j])
  }

  /** The chain accepts this attempt on a proposal. */
  predicate Takes(env: Env, c: Chain, key: Key, op: Op) {
    key.0 in c.states && key in c.proposals && Attempt(PollOf(env, c.states[key.0]), c.proposals[key], op).Ok?
  }

  /** Transaction i executes the proposal. */
  ghost predicate ExecutedAt(env: Env, txs: seq<Tx>, key: Key, i: int) {
    && 0 <= i < |txs| && txs[i].Act? && txs[i].key == key && txs[i].op.Execute?
    && Takes(env, Run(env, txs[..i]), key, txs[i].op)
  }

  lemma RunPrefix(env: Env, txs: seq<Tx>, k: nat)
    requires k < |txs|
    ensures Run(env, txs[..k + 1]) == Step(env, Run(env, txs[..k]), txs[k])
  {
    hide Step;
    assert txs[..k + 1][..k] == txs[..k];
  }

  lemma {:induction false} OpenedStays(env: Env, txs: seq<Tx>, key: Key, i: nat, j: nat)
    requires i < j <= |txs| && OpenedAt(env, txs, key, i)
    ensures key in Run(env, txs[..j]).proposals
  {
    hide Step, Run, Opens;
    RunPrefix(env, txs, j - 1);
    if i == j - 1 {
      OpensEffect(env, Run(env, txs[..i]), txs[i]);
    } else {
      OpenedStays(env, txs, key, i, j - 1);
      StepIsIsolated(env, Run(env, txs[..j - 1]), txs[j - 1], key, key.0);
    }
  }

  /** A proposal is opened once: no index is ever reused. */
  lemma OpenedOnce(env: Env, txs: seq<Tx>, key: Key, i: int, j: int)
    requires OpenedAt(env, txs, key, i) && OpenedAt(env, txs, key, j)
    ensures i == j
  {
    hide Run;
    if i < j {
      OpenedStays(env, txs, key, i, j);
    } else if j < i {
      OpenedStays(env, txs, key, j, i);
    }
  }

  // Replaying one proposal

  /** The attempts on one proposal, in order. */
  function OpsOn(txs: seq<Tx>, key: Key): seq<Op> {
    if txs == [] then []
    else
      var rest, last := OpsOn(txs[..|txs| - 1], key), txs[|txs| - 1];
      if last.Act? && last.key == key then rest + [last.op] else rest
  }

  /** The proposal is what its own attempts since transaction j, which opened it, make of a new proposal. */
  ghost predicate ReplaysFrom(env: Env, txs: seq<Tx>, key: Key, j: int) {
    var c := Run(env, txs);
    && OpenedAt(env, txs, key, j)
    && key.0 in c.states && c.states[key.0].createKey == key.0 && key in c.proposals
    && var h := RunOps(PollOf(env, c.states[key.0]), History(Opened(env, txs[j]), []), OpsOn(txs[j + 1..], key));
    && c.proposals[key] == h.p
    && CallsOf(c.log, key) == h.calls
  }

  lemma OpensEffect(env: Env, c: Chain, tx: Tx)
    requires tx.Open? && Opens(env, c, tx)
    ensures var c' := Step(env, c, tx);
            && tx.key.0 in c'.states && c'.states[tx.key.0].createKey == c.states[tx.key.0].createKey
            && tx.key in c'.proposals && c'.proposals[tx.key] == Opened(env, tx) && c'.log == c.log
  {
    hide Opened, EncodeState, EncodeProposal;
  }

  /** The effect on one proposal of a transaction on it. */
  lemma ActEffect(env: Env, c: Chain, tx: Tx)
    requires tx.Act? && tx.key.0 in c.states && tx.key in c.proposals
    ensures var c' := Step(env, c, tx);
            var h' := ApplyOp(PollOf(env, c.states[tx.key.0]), History(c.proposals[tx.key], CallsOf(c.log, tx.key)), tx.op);
            && c'.states == c.states
            && tx.key in c'.proposals && c'.proposals[tx.key] == h'.p && CallsOf(c'.log, tx.key) == h'.calls
  {
    hide Attempt, CallsOf, Tagged;
    var r := Attempt(PollOf(env, c.states[tx.key.0]), c.proposals[tx.key], tx.op);
    if r.Ok? {
      CallsOfTagged(c.log, tx.key, r.value.1, tx.key);
    }
  }

  lemma {:induction false} StatesNamed(env: Env, txs: seq<Tx>, createKey: Bytes32)
    ensures var c := Run(env, txs);
            createKey in c.states ==>
              && c.states[createKey].createKey == createKey
              && 1 <= c.states[createKey].threshold as nat <= |c.states[createKey].memberCms| <= MAX_MEMBERS
              && NoDup(c.states[createKey].memberCms)
  {
    if txs != [] {
      var init := txs[..|txs| - 1];
      hide NoDup, EncodeState, EncodeProposal, Attempt, NewProposal, Tagged;
      StatesNamed(env, init, createKey);
    }
  }

  /** Projection: in every run over any number of multisigs and proposals, each proposal's record and calls
      are those of its own attempts alone, replayed from the one transaction that opened it. */
  lemma {:induction false} Projection(env: Env, txs: seq<Tx>, key: Key)
    ensures key in Run(env, txs).proposals ==>
              exists j :: ReplaysFrom(env, txs, key, j) && forall i :: OpenedAt(env, txs, key, i) ==> i == j
    ensures key !in Run(env, txs).proposals ==> CallsOf(Run(env, txs).log, key) == []
  {
    if txs != [] {
      hide Step, ReplaysFrom, Opens;
      var init, last := txs[..|txs| - 1], txs[|txs| - 1];
      Projection(env, init, key);
      var c, c' := Run(env, init), Run(env, txs);
      StepIsIsolated(env, c, last, key, key.0);
      if key in c.proposals {
        var j :| ReplaysFrom(env, init, key, j);
        ReplayContinues(env, txs, key, j);
        OpenerIsUnique(env, txs, key, j);
      } else if key in c'.proposals {
        ReplayStarts(env, txs, key);
        OpenerIsUnique(env, txs, key, |txs| - 1);
      } else {
        NoReplayYet(env, c, last, key);
      }
    }
  }

  lemma OpenerIsUnique(env: Env, txs: seq<Tx>, key: Key, j: int)
    requires ReplaysFrom(env, txs, key, j)
    ensures forall i :: OpenedAt(env, txs, key, i) ==> i == j
  {
    hide Opens, RunOps, OpsOn, CallsOf, Run;
    forall i | OpenedAt(env, txs, key, i)
      ensures i == j
    {
      OpenedOnce(env, txs, key, i, j);
    }
  }

  lemma NoReplayYet(env: Env, c: Chain, tx: Tx, key: Key)
    requires key !in c.proposals && key !in Step(env, c, tx).proposals
    ensures CallsOf(Step(env, c, tx).log, key) == CallsOf(c.log, key)
  {
    hide EncodeState, EncodeProposal, Attempt, NewProposal, CallsOf, Tagged;
    StepIsIsolated(env, c, tx, key, key.0);
  }

  lemma ReplayContinues(env: Env, txs: seq<Tx>, key: Key, j: int)
    requires txs != [] && ReplaysFrom(env, txs[..|txs| - 1], key, j)
    ensures ReplaysFrom(env, txs, key, j)
  {
    hide Step, Opens, Opened, ApplyOp, CallsOf;
    var init, last := txs[..|txs| - 1], txs[|txs| - 1];
    var c := Run(env, init);
    StepIsIsolated(env, c, last, key, key.0);
    assert init[..j] == txs[..j];
    var since, since' := init[j + 1..], txs[j + 1..];
    assert since'[..|since'| - 1] == since;
    if KeyOf(last) == Some(key) {
      if last.Act? {
        ActEffect(env, c, last);
        OpsOnAct(since', key);
      } else {
        StaysOpened(env, c, last);
      }
    }
  }

  lemma OpsOnAct(txs: seq<Tx>, key: Key)
    requires txs != [] && txs[|txs| - 1].Act? && txs[|txs| - 1].key == key
    ensures var ops := OpsOn(txs, key);
            ops != [] && ops[|ops| - 1] == txs[|txs| - 1].op && ops[..|ops| - 1] == OpsOn(txs[..|txs| - 1], key)
  {
  }

  lemma StaysOpened(env: Env, c: Chain, tx: Tx)
    requires tx.Open? && tx.key in c.proposals
    ensures Step(env, c, tx) == c
  {
  }

  lemma ReplayStarts(env: Env, txs: seq<Tx>, key: Key)
    requires txs != [] && key in Run(env, txs).proposals && key !in Run(env, txs[..|txs| - 1]).proposals
    requires CallsOf(Run(env, txs[..|txs| - 1]).log, key) == []
    ensures ReplaysFrom(env, txs, key, |txs| - 1)
  {
    hide EncodeState, EncodeProposal, Attempt, NewProposal, CallsOf, Tagged, Opened;
    var init, last := txs[..|txs| - 1], txs[|txs| - 1];
    assert last.Open? && last.key == key && Opens(env, Run(env, init), last);
    StatesNamed(env, init, key.0);
    OpensEffect(env, Run(env, init), last);
    assert txs[|txs|..] == [];
  }
}
