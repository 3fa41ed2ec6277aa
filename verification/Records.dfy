/** The records of pms_core that the program stores in accounts, and the few decisions they make. */
module Records {
  import opened Wrappers
  import opened Words

  const MAX_MEMBERS := 16

  type ProgramId = p: seq<u32> | |p| == 8 witness seq(8, _ => 0)

  datatype MultisigState = MultisigState(
    createKey: Bytes32,
    threshold: u8,
    memberCms: seq<Bytes32>,
    transactionIndex: u64)

  /** The chained call a proposal emits when it is executed. */
  datatype ProposalAction = ProposalAction(
    targetProgramId: ProgramId,
    targetInstructionData: seq<u32>,
    targetAccountCount: u8,
    pdaSeeds: seq<Bytes32>,
    authorizedIndices: seq<u8>)

  datatype Status = Active | Executed | Rejected

  /** No voter is named here: only two lists of opaque nullifiers. */
  datatype Proposal = Proposal(
    index: u64,
    createKey: Bytes32,
    action: ProposalAction,
    actionHash: Bytes32,
    voteNullifiers: seq<Bytes32>,
    rejectNullifiers: seq<Bytes32>,
    status: Status)

  /** A build either panics when an unsigned operation leaves its type, or wraps around. */
  datatype Arith = Checked | Wrapping(usizeModulus: nat)

  function NewState(createKey: Bytes32, threshold: u8, memberCms: seq<Bytes32>): MultisigState {
    MultisigState(createKey, threshold, memberCms, 0)
  }

  predicate HasThreshold(p: Proposal, threshold: u8) {
    |p.voteNullifiers| >= threshold as nat
  }

  /** memberCount - rejections < threshold, on usize; None is the panic of a checked build. */
  function IsDead(arith: Arith, p: Proposal, threshold: u8, memberCount: nat): Option<bool> {
    var rejections := |p.rejectNullifiers|;
    if rejections <= memberCount then Some(memberCount - rejections < threshold as int)
    else match arith
      case Checked => None
      case Wrapping(modulus) => Some(modulus + memberCount - rejections < threshold as int)
  }

  /** transaction_index + 1 on u64; None is the panic of a checked build. */
  function NextIndex(arith: Arith, transactionIndex: u64): Option<u64> {
    if transactionIndex < MAX_U64 then Some(transactionIndex + 1)
    else match arith
      case Checked => None
      case Wrapping(_) => Some(0)
  }

  /** The next index is one more in either build, except past the last one. */
  lemma NextIndexIs(arith: Arith, transactionIndex: u64, next: u64)
    ensures NextIndex(arith, transactionIndex) == Some(next)
            <==> if transactionIndex < MAX_U64 then next == transactionIndex + 1 else arith.Wrapping? && next == 0
  {
  }

  /** Dead when fewer than M members do not reject; past N rejections a checked build panics, and another one adds the
      modulus of usize. */
  lemma IsDeadMeans(arith: Arith, p: Proposal, threshold: u8, memberCount: nat)
    ensures var left := memberCount - |p.rejectNullifiers|;
            && (IsDead(arith, p, threshold, memberCount).None? <==> left < 0 && arith.Checked?)
            && (left >= 0 ==> IsDead(arith, p, threshold, memberCount) == Some(left < threshold as int))
            && (left < 0 && arith.Wrapping? ==>
                  IsDead(arith, p, threshold, memberCount) == Some(left + arith.usizeModulus < threshold as int))
  {
  }
}
