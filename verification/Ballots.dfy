/** The vote the lists stand for: every salt votes for, against, or not at all. */
module Ballots {
  import opened Wrappers
  import opened Words
  import opened Lists
  import opened Records
  import opened Program

  type Ballot = map<Bytes32, Choice>

  function Voters(b: Ballot, choice: Choice): set<Bytes32> {
    set s | s in b && b[s] == choice
  }

  /** M, N, the bytes left for nullifiers in the proposal's account, and the declared number of targets. */
  datatype Rules = Rules(threshold: nat, memberCount: nat, room: int, targetCount: nat)

  datatype Tally = Tally(ballot: Ballot, status: Status)

  const START := Tally(map[], Active)

  /** An attempt: valid says that it comes from an authorised member. */
  datatype Step = Vote(salt: Bytes32, choice: Choice, valid: bool) | Execute(targets: nat)

  /** One attempt, or None when it fails. */
  function Next(r: Rules, t: Tally, step: Step): Option<Tally> {
    match step
    case Vote(s, choice, valid) =>
      var b := t.ballot[s := choice];
      if !valid || t.status != Active || (s in t.ballot && t.ballot[s] == choice) || 32 * |b| > r.room then None
      else if choice == Against && r.memberCount - |Voters(b, Against)| < r.threshold then Some(Tally(b, Rejected))
      else Some(Tally(b, Active))
    case Execute(targets) =>
      if t.status != Active || |Voters(t.ballot, For)| < r.threshold || targets != r.targetCount
         || 32 * |t.ballot| > r.room then None
      else Some(t.(status := Executed))
  }

  function Apply(r: Rules, t: Tally, step: Step): Tally {
    var next := Next(r, t, step);
    if next.Some? then next.value else t
  }

  /** A failed attempt changes nothing. */
  function Run(r: Rules, t: Tally, steps: seq<Step>): Tally {
    if steps == [] then t else Apply(r, Run(r, t, steps[..|steps| - 1]), steps[|steps| - 1])
  }

  predicate Succeeds(r: Rules, t: Tally, steps: seq<Step>, k: nat)
    requires k < |steps|
  {
    Next(r, Run(r, t, steps[..k]), steps[k]).Some?
  }

  lemma RunOne(r: Rules, t: Tally, steps: seq<Step>, k: nat)
    requires k < |steps|
    ensures Run(r, t, steps[..k + 1]) == Apply(r, Run(r, t, steps[..k]), steps[k])
  {
    assert steps[..k + 1][..k] == steps[..k];
  }

  lemma RunSnoc(r: Rules, t: Tally, steps: seq<Step>, step: Step)
    ensures Run(r, t, steps + [step]) == Apply(r, Run(r, t, steps), step)
    ensures Succeeds(r, t, steps + [step], |steps|) <==> Next(r, Run(r, t, steps), step).Some?
  {
    assert (steps + [step])[..|steps|] == steps;
  }

  lemma {:induction false} RunAppend(r: Rules, t: Tally, a: seq<Step>, b: seq<Step>)
    ensures Run(r, t, a + b) == Run(r, Run(r, t, a), b)
  {
    if b == [] {
      assert a + b == a;
    } else {
      RunAppend(r, t, a, b[..|b| - 1]);
      assert (a + b)[..|a + b| - 1] == a + b[..|b| - 1];
    }
  }

  function ValidSalts(steps: seq<Step>): set<Bytes32> {
    set i | 0 <= i < |steps| && steps[i].Vote? && steps[i].valid :: steps[i].salt
  }

  lemma ValidSaltsAppend(a: seq<Step>, b: seq<Step>)
    ensures ValidSalts(a + b) == ValidSalts(a) + ValidSalts(b)
  {
    assert (a + b)[..|a|] == a;
    ValidSaltsPrefix(a + b, |a|);
    forall s | s in ValidSalts(b)
      ensures s in ValidSalts(a + b)
    {
      var i :| 0 <= i < |b| && b[i].Vote? && b[i].valid && b[i].salt == s;
      assert (a + b)[|a| + i].salt == s;
    }
  }

  lemma SucceedsAppend(r: Rules, t: Tally, a: seq<Step>, b: seq<Step>, k: nat)
    requires k < |b|
    ensures Succeeds(r, t, a + b, |a| + k) <==> Succeeds(r, Run(r, t, a), b, k)
  {
    assert (a + b)[..|a| + k] == a + b[..k];
    RunAppend(r, t, a, b[..k]);
  }

  lemma VotersPartition(b: Ballot)
    ensures Voters(b, For) !! Voters(b, Against)
    ensures Voters(b, For) + Voters(b, Against) == b.Keys
    ensures |Voters(b, For)| + |Voters(b, Against)| == |b|
  {
    assert forall s :: s in b ==> b[s] == For || b[s] == Against;
    assert Voters(b, For) + Voters(b, Against) == b.Keys;
  }

  lemma VotersAfter(b: Ballot, s: Bytes32, choice: Choice, other: Choice)
    ensures Voters(b[s := choice], other) == if choice == other then Voters(b, other) + {s} else Voters(b, other) - {s}
  {
  }

  lemma ParticipantsAfter(b: Ballot, s: Bytes32, choice: Choice)
    ensures b[s := choice].Keys == b.Keys + {s}
    ensures |b[s := choice]| == |b.Keys + {s}| == |b| + if s in b then 0 else 1
  {
    assert b[s := choice].Keys == b.Keys + {s};
    if s in b {
      assert b.Keys + {s} == b.Keys;
    }
  }

  /** What the status says about the votes, in every reachable state. */
  ghost predicate Sound(r: Rules, t: Tally) {
    var approvals, rejections := |Voters(t.ballot, For)|, |Voters(t.ballot, Against)|;
    && approvals + rejections <= r.memberCount
    && (t.status == Active ==> r.memberCount - rejections >= r.threshold)
    && (t.status == Rejected ==> r.memberCount - rejections < r.threshold && approvals < r.threshold)
    && (t.status == Executed ==> approvals >= r.threshold && rejections <= r.memberCount - r.threshold)
  }

  lemma SoundNext(r: Rules, t: Tally, step: Step)
    requires Sound(r, t)
    requires step.Vote? && step.valid ==> |t.ballot.Keys + {step.salt}| <= r.memberCount
    ensures Sound(r, Apply(r, t, step))
  {
    var next := Next(r, t, step);
    if step.Vote? && next.Some? {
      VotersAfter(t.ballot, step.salt, step.choice, Against);
      ParticipantsAfter(t.ballot, step.salt, step.choice);
      VotersPartition(next.value.ballot);
      SubsetCount(Voters(t.ballot, Against) - {step.salt}, Voters(t.ballot, Against));
    }
  }

  /** Whatever is attempted, as long as no more than N salts attempt valid votes. */
  lemma {:induction false} SoundRun(r: Rules, steps: seq<Step>)
    requires r.threshold <= r.memberCount
    requires |ValidSalts(steps)| <= r.memberCount
    ensures Sound(r, Run(r, START, steps))
    ensures Run(r, START, steps).ballot.Keys <= ValidSalts(steps)
  {
    if steps != [] {
      var init, last := steps[..|steps| - 1], steps[|steps| - 1];
      ValidSaltsPrefix(steps, |init|);
      SubsetCount(ValidSalts(init), ValidSalts(steps));
      SoundRun(r, init);
      var t := Run(r, START, init);
      if last.Vote? && last.valid {
        SubsetCount(t.ballot.Keys + {last.salt}, ValidSalts(steps));
      }
      SoundNext(r, t, last);
    }
  }

  lemma ValidSaltsPrefix(steps: seq<Step>, k: nat)
    requires k <= |steps|
    ensures ValidSalts(steps[..k]) <= ValidSalts(steps)
  {
    forall s | s in ValidSalts(steps[..k])
      ensures s in ValidSalts(steps)
    {
      var i :| 0 <= i < k && steps[..k][i].Vote? && steps[..k][i].valid && steps[..k][i].salt == s;
      assert steps[i].salt == s;
    }
  }

  lemma DecidedStays(r: Rules, t: Tally, step: Step)
    requires t.status != Active
    ensures Next(r, t, step).None? && Apply(r, t, step) == t
  {
  }

  /** Executed and Rejected are absorbing, and freeze the votes. */
  lemma {:induction false} DecidedIsFinal(r: Rules, t: Tally, steps: seq<Step>)
    requires t.status != Active
    ensures Run(r, t, steps) == t
    ensures forall k :: 0 <= k < |steps| ==> !Succeeds(r, t, steps, k)
  {
    if steps != [] {
      var init := steps[..|steps| - 1];
      DecidedIsFinal(r, t, init);
      forall k | 0 <= k < |steps|
        ensures !Succeeds(r, t, steps, k)
      {
        if k < |init| {
          assert init[..k] == steps[..k] && init[k] == steps[k] && !Succeeds(r, t, init, k);
        }
      }
    }
  }

  /** The run passes through every prefix; if it ends Active it was Active throughout. */
  lemma ActiveThroughout(r: Rules, t: Tally, steps: seq<Step>, k: nat)
    requires k <= |steps| && Run(r, t, steps).status == Active
    ensures Run(r, t, steps[..k]).status == Active
  {
    assert steps == steps[..k] + steps[k..];
    RunAppend(r, t, steps[..k], steps[k..]);
    if Run(r, t, steps[..k]).status != Active {
      DecidedIsFinal(r, Run(r, t, steps[..k]), steps[k..]);
    }
  }

  // Where a ballot entry comes from

  function Entry(b: Ballot, s: Bytes32): Option<Choice> {
    if s in b then Some(b[s]) else None
  }

  lemma EntryAfter(r: Rules, t: Tally, step: Step, s: Bytes32)
    ensures Entry(Apply(r, t, step).ballot, s)
            == if step.Vote? && step.salt == s && Next(r, t, step).Some? then Some(step.choice) else Entry(t.ballot, s)
  {
  }

  predicate VoteSucceeds(r: Rules, t: Tally, steps: seq<Step>, k: nat, s: Bytes32)
    requires k < |steps|
  {
    steps[k].Vote? && steps[k].salt == s && Succeeds(r, t, steps, k)
  }

  /** The last successful vote of s among the first k steps. */
  function LastSuccess(r: Rules, t: Tally, steps: seq<Step>, k: nat, s: Bytes32): Option<nat>
    requires k <= |steps|
  {
    if k == 0 then None
    else if VoteSucceeds(r, t, steps, k - 1, s) then Some(k - 1)
    else LastSuccess(r, t, steps, k - 1, s)
  }

  /** Attempt j is the last successful vote of s before k, or there is none. */
  ghost predicate IsLast(r: Rules, t: Tally, steps: seq<Step>, k: nat, s: Bytes32, j: Option<nat>)
    requires k <= |steps|
  {
    && (j.Some? ==> j.value < k && VoteSucceeds(r, t, steps, j.value, s))
    && forall i :: 0 <= i < k && VoteSucceeds(r, t, steps, i, s) ==> j.Some? && i <= j.value
  }

  lemma {:induction false} LastSuccessIsLast(r: Rules, t: Tally, steps: seq<Step>, k: nat, s: Bytes32)
    requires k <= |steps|
    ensures IsLast(r, t, steps, k, s, LastSuccess(r, t, steps, k, s))
  {
    if k > 0 {
      hide VoteSucceeds, Succeeds, Run;
      LastSuccessIsLast(r, t, steps, k - 1, s);
    }
  }

  /** A salt's entry is the choice of its last successful vote. */
  lemma {:induction false} EntryIsLastSuccess(r: Rules, steps: seq<Step>, k: nat, s: Bytes32)
    requires k <= |steps|
    ensures Entry(Run(r, START, steps[..k]).ballot, s)
            == var j := LastSuccess(r, START, steps, k, s);
               if j.Some? && j.value < |steps| && steps[j.value].Vote? then Some(steps[j.value].choice) else None
  {
    if k > 0 {
      hide Run, Apply, Next, Entry;
      EntryIsLastSuccess(r, steps, k - 1, s);
      RunOne(r, START, steps, k - 1);
      EntryAfter(r, Run(r, START, steps[..k - 1]), steps[k - 1], s);
    }
  }

  lemma OnlyValidVotesSucceed(r: Rules, t: Tally, steps: seq<Step>, k: nat)
    requires k < |steps| && steps[k].Vote? && Succeeds(r, t, steps, k)
    ensures steps[k].valid
  {
  }

  /** The choice of a salt's last valid attempt, whether or not it succeeded. */
  function LastAttempt(steps: seq<Step>, s: Bytes32): Option<Choice> {
    if steps == [] then None
    else
      var last := steps[|steps| - 1];
      if last.Vote? && last.valid && last.salt == s then Some(last.choice)
      else LastAttempt(steps[..|steps| - 1], s)
  }

  /** A salt's last valid attempt repeated its vote, or there was room for its nullifier. */
  predicate LastFits(r: Rules, steps: seq<Step>, s: Bytes32) {
    if steps == [] then true
    else
      var init, last := steps[..|steps| - 1], steps[|steps| - 1];
      if last.Vote? && last.valid && last.salt == s then
        var b := Run(r, START, init).ballot;
        Entry(b, s) == Some(last.choice) || 32 * |b[s := last.choice]| <= r.room
      else LastFits(r, init, s)
  }

  lemma LastFitsSnoc(r: Rules, steps: seq<Step>, last: Step, s: Bytes32)
    ensures var b := Run(r, START, steps).ballot;
            LastFits(r, steps + [last], s)
            <==> if last.Vote? && last.valid && last.salt == s
                 then Entry(b, s) == Some(last.choice) || 32 * |b[s := last.choice]| <= r.room
                 else LastFits(r, steps, s)
  {
    hide Run, Entry;
    assert (steps + [last])[..|steps|] == steps;
  }

  /** As long as the proposal stays Active, only an attempt that found no room matters among those that fail. */
  lemma {:induction false} LastAttemptWins(r: Rules, steps: seq<Step>, s: Bytes32)
    requires Run(r, START, steps).status == Active
    ensures Entry(Run(r, START, steps).ballot, s) == LastAttempt(steps, s) <==> LastFits(r, steps, s)
  {
    if steps != [] {
      var init := steps[..|steps| - 1];
      ActiveThroughout(r, START, steps, |init|);
      LastAttemptWins(r, init, s);
    }
  }

  /** A first vote adds one participant, a switch adds none, and nothing ever removes one. */
  lemma Participation(r: Rules, t: Tally, step: Step)
    ensures |Apply(r, t, step).ballot|
            == |t.ballot| + if step.Vote? && step.salt !in t.ballot && Next(r, t, step).Some? then 1 else 0
  {
    if step.Vote? {
      ParticipantsAfter(t.ballot, step.salt, step.choice);
    }
  }

  // What a group of members can do

  /** Valid votes for one choice by pairwise distinct salts. */
  ghost predicate GroupVote(steps: seq<Step>, choice: Choice) {
    && (forall i :: 0 <= i < |steps| ==> steps[i].Vote? && steps[i].choice == choice && steps[i].valid)
    && (forall i, j :: 0 <= i < j < |steps| ==> steps[i].salt != steps[j].salt)
  }

  lemma GroupSalts(steps: seq<Step>, choice: Choice)
    requires steps != [] && GroupVote(steps, choice)
    ensures GroupVote(steps[..|steps| - 1], choice)
    ensures ValidSalts(steps) == ValidSalts(steps[..|steps| - 1]) + {steps[|steps| - 1].salt}
    ensures steps[|steps| - 1].salt !in ValidSalts(steps[..|steps| - 1])
  {
    var init, last := steps[..|steps| - 1], steps[|steps| - 1];
    ValidSaltsPrefix(steps, |init|);
    forall s | s in ValidSalts(steps)
      ensures s in ValidSalts(init) + {last.salt}
    {
      var i :| 0 <= i < |steps| && steps[i].Vote? && steps[i].valid && steps[i].salt == s;
      if i < |init| {
        assert init[i].salt == s;
      }
    }
    assert last.salt in ValidSalts(steps);
  }

  lemma {:induction false} GroupSize(steps: seq<Step>, choice: Choice)
    requires GroupVote(steps, choice)
    ensures |ValidSalts(steps)| == |steps|
  {
    if steps != [] {
      GroupSalts(steps, choice);
      GroupSize(steps[..|steps| - 1], choice);
    }
  }

  lemma GroupVoteStep(r: Rules, t: Tally, step: Step)
    requires t.status == Active && Sound(r, t)
    requires step.Vote? && step.valid && step.salt !in Voters(t.ballot, step.choice)
    requires |t.ballot.Keys + {step.salt}| <= r.memberCount && 32 * |t.ballot.Keys + {step.salt}| <= r.room
    ensures var t' := Apply(r, t, step);
            && Next(r, t, step).Some? && Sound(r, t')
            && t'.ballot.Keys == t.ballot.Keys + {step.salt}
            && Voters(t'.ballot, step.choice) == Voters(t.ballot, step.choice) + {step.salt}
            && t'.status == if step.choice == Against && r.memberCount - |Voters(t'.ballot, Against)| < r.threshold
                            then Rejected else Active
  {
    VotersAfter(t.ballot, step.salt, step.choice, step.choice);
    ParticipantsAfter(t.ballot, step.salt, step.choice);
    SoundNext(r, t, step);
  }

  /** There are enough members, and there is room for their nullifiers, for these salts to vote. */
  ghost predicate Holds(r: Rules, salts: set<Bytes32>) {
    |salts| <= r.memberCount && 32 * |salts| <= r.room
  }

  lemma HoldsFewer(r: Rules, fewer: set<Bytes32>, salts: set<Bytes32>)
    requires Holds(r, salts) && fewer <= salts
    ensures Holds(r, fewer)
  {
    SubsetCount(fewer, salts);
  }

  /** What the votes of some salts for one choice made of t. */
  ghost predicate GroupOutcome(r: Rules, t: Tally, t': Tally, salts: set<Bytes32>, choice: Choice) {
    && Sound(r, t')
    && t'.ballot.Keys <= t.ballot.Keys + salts
    && Voters(t'.ballot, choice) <= Voters(t.ballot, choice) + salts
    && t'.status != Executed
    && (choice == For ==> t'.status == Active)
    && (t'.status == Active ==> Voters(t'.ballot, choice) == Voters(t.ballot, choice) + salts)
  }

  lemma SetAssoc<T>(a: set<T>, b: set<T>, c: set<T>)
    ensures a + (b + c) == (a + b) + c
  {
  }

  lemma GroupOutcomeStep(r: Rules, t: Tally, t1: Tally, salts: set<Bytes32>, step: Step)
    requires step.Vote? && step.valid && GroupOutcome(r, t, t1, salts, step.choice)
    requires step.salt !in salts && step.salt !in Voters(t.ballot, step.choice)
    requires Holds(r, t.ballot.Keys + (salts + {step.salt}))
    ensures GroupOutcome(r, t, Apply(r, t1, step), salts + {step.salt}, step.choice)
    ensures t1.status == Active ==> Next(r, t1, step).Some?
  {
    hide Next, Apply, Sound, Voters;
    SetAssoc(t.ballot.Keys, salts, {step.salt});
    SetAssoc(Voters(t.ballot, step.choice), salts, {step.salt});
    if t1.status == Active {
      HoldsFewer(r, t1.ballot.Keys + {step.salt}, (t.ballot.Keys + salts) + {step.salt});
      GroupVoteStep(r, t1, step);
    } else {
      DecidedStays(r, t1, step);
    }
  }

  /** A group voting one way, none of whom vote that way yet: every vote succeeds until the proposal
      is no longer Active, which only rejections can bring about. */
  lemma {:induction false} GroupVotes(r: Rules, t: Tally, steps: seq<Step>, choice: Choice)
    requires t.status == Active && Sound(r, t)
    requires GroupVote(steps, choice) && ValidSalts(steps) !! Voters(t.ballot, choice)
    requires Holds(r, t.ballot.Keys + ValidSalts(steps))
    ensures GroupOutcome(r, t, Run(r, t, steps), ValidSalts(steps), choice)
  {
    if steps == [] {
      assert ValidSalts(steps) == {};
    } else {
      hide GroupOutcome, Next, Apply, Sound, Voters, ValidSalts;
      var init, last := steps[..|steps| - 1], steps[|steps| - 1];
      GroupSalts(steps, choice);
      HoldsFewer(r, t.ballot.Keys + ValidSalts(init), t.ballot.Keys + ValidSalts(steps));
      GroupVotes(r, t, init, choice);
      GroupOutcomeStep(r, t, Run(r, t, init), ValidSalts(init), last);
    }
  }

  /** Each vote of the group succeeds as long as the votes before it left the proposal Active. */
  lemma GroupVotesSucceed(r: Rules, t: Tally, steps: seq<Step>, choice: Choice, k: nat)
    requires t.status == Active && Sound(r, t)
    requires GroupVote(steps, choice) && ValidSalts(steps) !! Voters(t.ballot, choice)
    requires Holds(r, t.ballot.Keys + ValidSalts(steps))
    requires k < |steps| && Run(r, t, steps[..k]).status == Active
    ensures Succeeds(r, t, steps, k)
  {
    hide Next, Sound, Voters, ValidSalts, Run;
    var init, upTo := steps[..k], steps[..k + 1];
    ValidSaltsPrefix(steps, k + 1);
    assert upTo[..k] == init;
    GroupSalts(upTo, choice);
    HoldsFewer(r, t.ballot.Keys + ValidSalts(init), t.ballot.Keys + ValidSalts(steps));
    GroupVotes(r, t, init, choice);
    HoldsFewer(r, t.ballot.Keys + ValidSalts(upTo), t.ballot.Keys + ValidSalts(steps));
    GroupOutcomeStep(r, t, Run(r, t, init), ValidSalts(init), steps[k]);
  }

  lemma SuccessfulVote(r: Rules, t: Tally, step: Step)
    requires step.Vote? && Next(r, t, step).Some?
    ensures var b := t.ballot[step.salt := step.choice];
            && t.status == Active
            && Apply(r, t, step) == Tally(b, if step.choice == Against && r.memberCount - |Voters(b, Against)| < r.threshold
                                             then Rejected else Active)
  {
    hide Voters;
  }

  /** Votes of two different salts can be exchanged, provided both succeed in both orders. */
  lemma VotesCommute(r: Rules, t: Tally, x: Step, y: Step)
    requires x.Vote? && y.Vote? && x.salt != y.salt
    requires Next(r, t, x).Some? && Next(r, Apply(r, t, x), y).Some?
    requires Next(r, t, y).Some? && Next(r, Apply(r, t, y), x).Some?
    ensures Apply(r, Apply(r, t, x), y) == Apply(r, Apply(r, t, y), x)
  {
    hide Next, Apply, Voters;
    assert t.ballot[x.salt := x.choice][y.salt := y.choice] == t.ballot[y.salt := y.choice][x.salt := x.choice];
    SuccessfulVote(r, t, x);
    SuccessfulVote(r, Apply(r, t, x), y);
    SuccessfulVote(r, t, y);
    SuccessfulVote(r, Apply(r, t, y), x);
    RejectersFew(r, t, x, y);
    RejectersFew(r, t, y, x);
  }

  /** An approval after another vote leaves no more rejections than there were. */
  lemma RejectersFew(r: Rules, t: Tally, x: Step, y: Step)
    requires x.Vote? && y.Vote?
    ensures y.choice == For ==> |Voters(t.ballot[x.salt := x.choice][y.salt := y.choice], Against)|
                                <= |Voters(t.ballot[x.salt := x.choice], Against)|
  {
    var b := t.ballot[x.salt := x.choice];
    VotersAfter(b, y.salt, y.choice, Against);
    SubsetCount(Voters(b, Against) - {y.salt}, Voters(b, Against));
  }

  /** When all of a group's votes succeed, all of the group participate. */
  lemma {:induction false} AllSucceedJoin(r: Rules, t: Tally, steps: seq<Step>, choice: Choice)
    requires GroupVote(steps, choice)
    requires forall k :: 0 <= k < |steps| ==> Succeeds(r, t, steps, k)
    ensures Run(r, t, steps).ballot.Keys == t.ballot.Keys + ValidSalts(steps)
  {
    if steps == [] {
      assert ValidSalts(steps) == {};
    } else {
      var init, last := steps[..|steps| - 1], steps[|steps| - 1];
      GroupSalts(steps, choice);
      hide ValidSalts, Voters;
      forall k | 0 <= k < |init|
        ensures Succeeds(r, t, init, k)
      {
        assert init[..k] == steps[..k] && Succeeds(r, t, steps, k);
      }
      AllSucceedJoin(r, t, init, choice);
      assert Succeeds(r, t, steps, |init|);
      SuccessfulVote(r, Run(r, t, init), last);
      ParticipantsAfter(Run(r, t, init).ballot, last.salt, choice);
    }
  }
}
