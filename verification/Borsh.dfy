/** The Borsh layout of the stored records (Borsh specification, borsh.io): fixed-width little-endian
    words, a 32-bit length before every vector, one byte for an enum variant, fields in order. */
module Borsh {
  import opened Wrappers
  import opened Words
  import opened Records

  /** An element of fixed width. */
  datatype Item<!T> = Item(width: nat, enc: T -> Bytes, dec: Bytes -> T)

  ghost predicate Exact<T(!new)>(it: Item<T>) {
    && (forall t :: |it.enc(t)| == it.width && it.dec(it.enc(t)) == t)
    && (forall b :: |b| == it.width ==> it.enc(it.dec(b)) == b)
  }

  function DecodeWord(b: Bytes): u32 {
    if |b| == 4 then Widths(); FromLE(b) as u32 else 0
  }

  function DecodeHash(b: Bytes): Bytes32 {
    if |b| == 32 then b else seq(32, _ => 0)
  }

  function DecodeByte(b: Bytes): u8 {
    if |b| == 1 then b[0] else 0
  }

  const WORD: Item<u32> := Item(4, (n: u32) => ToLE(n as nat, 4), DecodeWord)
  const HASH: Item<Bytes32> := Item(32, (h: Bytes32) => h, DecodeHash)
  const BYTE: Item<u8> := Item(1, (n: u8) => [n], DecodeByte)

  lemma ItemsExact()
    ensures Exact(WORD) && Exact(HASH) && Exact(BYTE)
  {
    Widths();
    forall n: u32
      ensures |WORD.enc(n)| == 4 && WORD.dec(WORD.enc(n)) == n
    {
      FromToLE(n as nat, 4);
    }
    forall b: Bytes | |b| == 4
      ensures WORD.enc(WORD.dec(b)) == b
    {
      ToFromLE(b);
    }
    forall b: Bytes | |b| == 1
      ensures BYTE.enc(BYTE.dec(b)) == b
    {
      assert [b[0]] == b;
    }
  }

  // Vectors

  function EncodeItems<T>(it: Item<T>, xs: seq<T>): Bytes {
    if xs == [] then [] else it.enc(xs[0]) + EncodeItems(it, xs[1..])
  }

  function EncodeVec<T>(it: Item<T>, xs: seq<T>): Bytes {
    ToLE(|xs|, 4) + EncodeItems(it, xs)
  }

  lemma OneMore(width: nat, n: nat)
    ensures width * (n + 1) == width + width * n
  {
  }

  lemma {:induction false} ItemsWidth<T(!new)>(it: Item<T>, xs: seq<T>)
    requires Exact(it)
    ensures |EncodeItems(it, xs)| == it.width * |xs|
  {
    if xs != [] {
      ItemsWidth(it, xs[1..]);
      OneMore(it.width, |xs| - 1);
    }
  }

  lemma VecWidth<T(!new)>(it: Item<T>, xs: seq<T>)
    requires Exact(it)
    ensures |EncodeVec(it, xs)| == 4 + it.width * |xs|
  {
    ItemsWidth(it, xs);
  }

  /** What a reader leaves: the value, and the bytes it did not consume. */
  type Read<T> = Option<(T, Bytes)>

  function TakeBytes(b: Bytes, k: nat): (r: Read<Bytes>)
    ensures r.Some? ==> |r.value.0| == k && b == r.value.0 + r.value.1
  {
    if |b| < k then None else Some((b[..k], b[k..]))
  }

  function TakeItems<T>(it: Item<T>, n: nat, b: Bytes): Read<seq<T>> {
    if n == 0 then Some(([], b))
    else
      var (first, rest) :- TakeBytes(b, it.width);
      var (xs, left) :- TakeItems(it, n - 1, rest);
      Some(([it.dec(first)] + xs, left))
  }

  function TakeVec<T>(it: Item<T>, b: Bytes): Read<seq<T>> {
    var (len, rest) :- TakeBytes(b, 4);
    TakeItems(it, FromLE(len), rest)
  }

  lemma TakeBytesOf(a: Bytes, rest: Bytes)
    ensures TakeBytes(a + rest, |a|) == Some((a, rest))
  {
  }

  lemma {:induction false} TakeItemsOf<T(!new)>(it: Item<T>, xs: seq<T>, rest: Bytes)
    requires Exact(it)
    ensures TakeItems(it, |xs|, EncodeItems(it, xs) + rest) == Some((xs, rest))
  {
    if xs == [] {
      assert EncodeItems(it, xs) + rest == rest;
    } else {
      TakeItemsOf(it, xs[1..], rest);
      var tail := EncodeItems(it, xs[1..]) + rest;
      Assoc(it.enc(xs[0]), EncodeItems(it, xs[1..]), rest);
      TakeBytesOf(it.enc(xs[0]), tail);
      assert xs == [xs[0]] + xs[1..];
    }
  }

  lemma {:induction false} TakeItemsExact<T(!new)>(it: Item<T>, n: nat, b: Bytes)
    requires Exact(it)
    ensures var r := TakeItems(it, n, b);
            r.Some? ==> |r.value.0| == n && b == EncodeItems(it, r.value.0) + r.value.1
  {
    var r := TakeItems(it, n, b);
    if n > 0 && r.Some? {
      var first, rest := b[..it.width], b[it.width..];
      TakeItemsExact(it, n - 1, rest);
      var xs := r.value.0;
      assert xs[1..] == TakeItems(it, n - 1, rest).value.0;
      assert it.enc(xs[0]) == first;
      Assoc(first, EncodeItems(it, xs[1..]), r.value.1);
    }
  }

  lemma TakeVecOf<T(!new)>(it: Item<T>, xs: seq<T>, rest: Bytes)
    requires Exact(it) && |xs| < 0x1_0000_0000
    ensures TakeVec(it, EncodeVec(it, xs) + rest) == Some((xs, rest))
  {
    Widths();
    FromToLE(|xs|, 4);
    assert EncodeVec(it, xs) + rest == ToLE(|xs|, 4) + (EncodeItems(it, xs) + rest);
    TakeBytesOf(ToLE(|xs|, 4), EncodeItems(it, xs) + rest);
    TakeItemsOf(it, xs, rest);
  }

  lemma TakeVecExact<T(!new)>(it: Item<T>, b: Bytes)
    requires Exact(it)
    ensures var r := TakeVec(it, b);
            r.Some? ==> |r.value.0| < 0x1_0000_0000 && b == EncodeVec(it, r.value.0) + r.value.1
  {
    var r := TakeVec(it, b);
    if r.Some? {
      Widths();
      ToFromLE(b[..4]);
      TakeItemsExact(it, FromLE(b[..4]), b[4..]);
      assert b == b[..4] + b[4..];
      Assoc(b[..4], EncodeItems(it, r.value.0), r.value.1);
    }
  }

  // Records

  function EncodeState(s: MultisigState): Bytes {
    s.createKey + ([s.threshold] + (EncodeVec(HASH, s.memberCms) + ToLE(s.transactionIndex, 8)))
  }

  function EncodeAction(a: ProposalAction): Bytes {
    EncodeItems(WORD, a.targetProgramId) + (EncodeVec(WORD, a.targetInstructionData) + ([a.targetAccountCount]
    + (EncodeVec(HASH, a.pdaSeeds) + EncodeVec(BYTE, a.authorizedIndices))))
  }

  function EncodeStatus(s: Status): u8 {
    match s
    case Active => 0
    case Executed => 1
    case Rejected => 2
  }

  function EncodeProposal(p: Proposal): Bytes {
    ToLE(p.index, 8) + (p.createKey + (EncodeAction(p.action) + (p.actionHash
    + (EncodeVec(HASH, p.voteNullifiers) + (EncodeVec(HASH, p.rejectNullifiers) + [EncodeStatus(p.status)])))))
  }

  /** Every vector has a length that fits in the 32 bits in front of it. */
  predicate StateFits(s: MultisigState) {
    |s.memberCms| < 0x1_0000_0000
  }

  predicate ActionFits(a: ProposalAction) {
    |a.targetInstructionData| < 0x1_0000_0000 && |a.pdaSeeds| < 0x1_0000_0000 && |a.authorizedIndices| < 0x1_0000_0000
  }

  predicate ProposalFits(p: Proposal) {
    ActionFits(p.action) && |p.voteNullifiers| < 0x1_0000_0000 && |p.rejectNullifiers| < 0x1_0000_0000
  }

  function TakeU64(b: Bytes): Read<u64> {
    var (n, rest) :- TakeBytes(b, 8);
    Widths();
    Some((FromLE(n), rest))
  }

  function TakeHash(b: Bytes): Read<Bytes32> {
    var (h, rest) :- TakeBytes(b, 32);
    Some((h, rest))
  }

  function TakeByte(b: Bytes): Read<u8> {
    var (n, rest) :- TakeBytes(b, 1);
    Some((n[0], rest))
  }

  function TakeProgramId(b: Bytes): Read<ProgramId> {
    var (words, rest) :- TakeItems(WORD, 8, b);
    if |words| == 8 then Some((words, rest)) else None
  }

  function TakeStatus(b: Bytes): Read<Status> {
    var (variant, rest) :- TakeByte(b);
    if variant == 0 then Some((Active, rest))
    else if variant == 1 then Some((Executed, rest))
    else if variant == 2 then Some((Rejected, rest))
    else None
  }

  function TakeAction(b: Bytes): Read<ProposalAction> {
    var (targetProgramId, b1) :- TakeProgramId(b);
    var (targetInstructionData, b2) :- TakeVec(WORD, b1);
    var (targetAccountCount, b3) :- TakeByte(b2);
    var (pdaSeeds, b4) :- TakeVec(HASH, b3);
    var (authorizedIndices, b5) :- TakeVec(BYTE, b4);
    Some((ProposalAction(targetProgramId, targetInstructionData, targetAccountCount, pdaSeeds, authorizedIndices), b5))
  }

  function TakeState(b: Bytes): Read<MultisigState> {
    var (createKey, b1) :- TakeHash(b);
    var (threshold, b2) :- TakeByte(b1);
    var (memberCms, b3) :- TakeVec(HASH, b2);
    var (transactionIndex, b4) :- TakeU64(b3);
    Some((MultisigState(createKey, threshold, memberCms, transactionIndex), b4))
  }

  function TakeProposal(b: Bytes): Read<Proposal> {
    var (index, b1) :- TakeU64(b);
    var (createKey, b2) :- TakeHash(b1);
    var (action, b3) :- TakeAction(b2);
    var (actionHash, b4) :- TakeHash(b3);
    var (tally, b5) :- TakeTally(b4);
    Some((Proposal(index, createKey, action, actionHash, tally.0, tally.1, tally.2), b5))
  }

  /** The part of a proposal that votes change: both nullifier lists, and the status. */
  function TakeTally(b: Bytes): Read<(seq<Bytes32>, seq<Bytes32>, Status)> {
    var (votes, b1) :- TakeVec(HASH, b);
    var (rejects, b2) :- TakeVec(HASH, b1);
    var (status, b3) :- TakeStatus(b2);
    Some(((votes, rejects, status), b3))
  }

  /** borsh::from_slice: bytes left over are an error. */
  function DecodeState(b: Bytes): Option<MultisigState> {
    var (s, rest) :- TakeState(b);
    if rest == [] then Some(s) else None
  }

  function DecodeAction(b: Bytes): Option<ProposalAction> {
    var (a, rest) :- TakeAction(b);
    if rest == [] then Some(a) else None
  }

  function DecodeProposal(b: Bytes): Option<Proposal> {
    var (p, rest) :- TakeProposal(b);
    if rest == [] then Some(p) else None
  }

  // Each reader inverts its writer whatever follows, and reads nothing the writer would not have written.

  lemma TakeU64Of(n: u64, rest: Bytes)
    ensures TakeU64(ToLE(n, 8) + rest) == Some((n, rest))
  {
    Widths();
    FromToLE(n, 8);
    TakeBytesOf(ToLE(n, 8), rest);
  }

  lemma TakeU64Exact(b: Bytes)
    ensures var r := TakeU64(b);
            r.Some? ==> b == ToLE(r.value.0, 8) + r.value.1
  {
    if |b| >= 8 {
      ToFromLE(b[..8]);
    }
  }

  lemma TakeHashOf(h: Bytes32, rest: Bytes)
    ensures TakeHash(h + rest) == Some((h, rest))
  {
    TakeBytesOf(h, rest);
  }

  lemma TakeHashExact(b: Bytes)
    ensures var r := TakeHash(b);
            r.Some? ==> b == r.value.0 + r.value.1
  {
  }

  lemma TakeByteOf(n: u8, rest: Bytes)
    ensures TakeByte([n] + rest) == Some((n, rest))
  {
    TakeBytesOf([n], rest);
  }

  lemma TakeByteExact(b: Bytes)
    ensures var r := TakeByte(b);
            r.Some? ==> b == [r.value.0] + r.value.1
  {
  }

  lemma TakeStatusOf(s: Status, rest: Bytes)
    ensures TakeStatus([EncodeStatus(s)] + rest) == Some((s, rest))
  {
    TakeBytesOf([EncodeStatus(s)], rest);
  }

  lemma TakeStatusExact(b: Bytes)
    ensures var r := TakeStatus(b);
            r.Some? ==> b == [EncodeStatus(r.value.0)] + r.value.1
  {
  }

  lemma TakeProgramIdOf(p: ProgramId, rest: Bytes)
    ensures TakeProgramId(EncodeItems(WORD, p) + rest) == Some((p, rest))
  {
    ItemsExact();
    TakeItemsOf(WORD, p, rest);
  }

  lemma TakeProgramIdExact(b: Bytes)
    ensures var r := TakeProgramId(b);
            r.Some? ==> b == EncodeItems(WORD, r.value.0) + r.value.1
  {
    ItemsExact();
    TakeItemsExact(WORD, 8, b);
  }

  lemma TakeActionOf(a: ProposalAction, rest: Bytes)
    requires ActionFits(a)
    ensures TakeAction(EncodeAction(a) + rest) == Some((a, rest))
  {
    hide ToLE, FromLE, EncodeItems, EncodeVec, TakeItems, TakeVec, Exact, TakeHash, TakeByte, TakeU64, TakeStatus, TakeProgramId;
    ItemsExact();
    var b4 := EncodeVec(BYTE, a.authorizedIndices) + rest;
    var b3 := EncodeVec(HASH, a.pdaSeeds) + b4;
    var b2 := [a.targetAccountCount] + b3;
    var b1 := EncodeVec(WORD, a.targetInstructionData) + b2;
    Nest5(EncodeItems(WORD, a.targetProgramId), EncodeVec(WORD, a.targetInstructionData), [a.targetAccountCount],
          EncodeVec(HASH, a.pdaSeeds), EncodeVec(BYTE, a.authorizedIndices), rest);
    TakeProgramIdOf(a.targetProgramId, b1);
    TakeVecOf(WORD, a.targetInstructionData, b2);
    TakeByteOf(a.targetAccountCount, b3);
    TakeVecOf(HASH, a.pdaSeeds, b4);
    TakeVecOf(BYTE, a.authorizedIndices, rest);
  }

  lemma TakeActionExact(b: Bytes)
    ensures var r := TakeAction(b);
            r.Some? ==> ActionFits(r.value.0) && b == EncodeAction(r.value.0) + r.value.1
  {
    hide ToLE, FromLE, EncodeItems, EncodeVec, TakeItems, TakeVec, Exact, TakeHash, TakeByte, TakeU64, TakeStatus, TakeProgramId;
    var r := TakeAction(b);
    if r.Some? {
      ItemsExact();
      TakeProgramIdExact(b);
      var b1 := TakeProgramId(b).value.1;
      TakeVecExact(WORD, b1);
      var b2 := TakeVec(WORD, b1).value.1;
      var b3 := TakeByte(b2).value.1;
      TakeByteExact(b2);
      TakeVecExact(HASH, b3);
      var b4 := TakeVec(HASH, b3).value.1;
      TakeVecExact(BYTE, b4);
      var a := r.value.0;
      Nest5(EncodeItems(WORD, a.targetProgramId), EncodeVec(WORD, a.targetInstructionData), [a.targetAccountCount],
            EncodeVec(HASH, a.pdaSeeds), EncodeVec(BYTE, a.authorizedIndices), r.value.1);
    }
  }

  lemma TakeStateOf(s: MultisigState, rest: Bytes)
    requires StateFits(s)
    ensures TakeState(EncodeState(s) + rest) == Some((s, rest))
  {
    hide ToLE, FromLE, EncodeItems, EncodeVec, TakeItems, TakeVec, Exact, TakeHash, TakeByte, TakeU64, TakeStatus, TakeProgramId;
    ItemsExact();
    var b3 := ToLE(s.transactionIndex, 8) + rest;
    var b2 := EncodeVec(HASH, s.memberCms) + b3;
    var b1 := [s.threshold] + b2;
    Nest4(s.createKey, [s.threshold], EncodeVec(HASH, s.memberCms), ToLE(s.transactionIndex, 8), rest);
    TakeHashOf(s.createKey, b1);
    TakeByteOf(s.threshold, b2);
    TakeVecOf(HASH, s.memberCms, b3);
    TakeU64Of(s.transactionIndex, rest);
  }

  lemma TakeStateExact(b: Bytes)
    ensures var r := TakeState(b);
            r.Some? ==> StateFits(r.value.0) && b == EncodeState(r.value.0) + r.value.1
  {
    hide ToLE, FromLE, EncodeItems, EncodeVec, TakeItems, TakeVec, Exact, TakeHash, TakeByte, TakeU64, TakeStatus, TakeProgramId;
    var r := TakeState(b);
    if r.Some? {
      ItemsExact();
      var b1 := TakeHash(b).value.1;
      var b2 := TakeByte(b1).value.1;
      TakeByteExact(b1);
      TakeHashExact(b);
      TakeVecExact(HASH, b2);
      TakeU64Exact(TakeVec(HASH, b2).value.1);
      var s := r.value.0;
      Nest4(s.createKey, [s.threshold], EncodeVec(HASH, s.memberCms), ToLE(s.transactionIndex, 8), r.value.1);
    }
  }

  lemma TakeProposalOf(p: Proposal, rest: Bytes)
    requires ProposalFits(p)
    ensures TakeProposal(EncodeProposal(p) + rest) == Some((p, rest))
  {
    hide ToLE, FromLE, EncodeItems, EncodeVec, TakeItems, TakeVec, Exact, TakeHash, TakeByte, TakeU64, TakeStatus, TakeProgramId,
         EncodeAction, TakeAction, ActionFits;
    ItemsExact();
    var b6 := [EncodeStatus(p.status)] + rest;
    var b5 := EncodeVec(HASH, p.rejectNullifiers) + b6;
    var b4 := EncodeVec(HASH, p.voteNullifiers) + b5;
    var b3 := p.actionHash + b4;
    var b2 := EncodeAction(p.action) + b3;
    var b1 := p.createKey + b2;
    Nest7(ToLE(p.index, 8), p.createKey, EncodeAction(p.action), p.actionHash, EncodeVec(HASH, p.voteNullifiers),
          EncodeVec(HASH, p.rejectNullifiers), [EncodeStatus(p.status)], rest);
    TakeU64Of(p.index, b1);
    TakeHashOf(p.createKey, b2);
    TakeActionOf(p.action, b3);
    TakeHashOf(p.actionHash, b4);
    TakeVecOf(HASH, p.voteNullifiers, b5);
    TakeVecOf(HASH, p.rejectNullifiers, b6);
    TakeStatusOf(p.status, rest);
    assert TakeTally(b4) == Some(((p.voteNullifiers, p.rejectNullifiers, p.status), rest));
  }

  lemma TakeTallyExact(b: Bytes)
    ensures var r := TakeTally(b);
            r.Some? ==>
              && |r.value.0.0| < 0x1_0000_0000 && |r.value.0.1| < 0x1_0000_0000
              && b == EncodeVec(HASH, r.value.0.0) + (EncodeVec(HASH, r.value.0.1)
                      + ([EncodeStatus(r.value.0.2)] + r.value.1))
  {
    hide ToLE, FromLE, EncodeItems, EncodeVec, TakeItems, TakeVec, Exact, TakeStatus;
    if TakeTally(b).Some? {
      ItemsExact();
      TakeVecExact(HASH, b);
      var b1 := TakeVec(HASH, b).value.1;
      TakeVecExact(HASH, b1);
      TakeStatusExact(TakeVec(HASH, b1).value.1);
    }
  }

  lemma TakeProposalExact(b: Bytes)
    ensures var r := TakeProposal(b);
            r.Some? ==> ProposalFits(r.value.0) && b == EncodeProposal(r.value.0) + r.value.1
  {
    hide ToLE, FromLE, EncodeItems, EncodeVec, TakeItems, TakeVec, Exact, TakeHash, TakeByte, TakeU64, TakeStatus, TakeProgramId,
         EncodeAction, TakeAction, ActionFits, TakeTally;
    if TakeProposal(b).Some? {
      ItemsExact();
      TakeU64Exact(b);
      var (index, b1) := TakeU64(b).value;
      TakeHashExact(b1);
      var (createKey, b2) := TakeHash(b1).value;
      TakeActionExact(b2);
      var (action, b3) := TakeAction(b2).value;
      TakeHashExact(b3);
      var (actionHash, b4) := TakeHash(b3).value;
      TakeTallyExact(b4);
      var ((votes, rejects, status), rest) := TakeTally(b4).value;
      Nest7(ToLE(index, 8), createKey, EncodeAction(action), actionHash, EncodeVec(HASH, votes),
            EncodeVec(HASH, rejects), [EncodeStatus(status)], rest);
    }
  }

  // The codec theorems: decoding succeeds exactly on encodings, and returns what was encoded.

  lemma StateRoundTrip(b: Bytes, s: MultisigState)
    ensures DecodeState(b) == Some(s) <==> StateFits(s) && b == EncodeState(s)
  {
    TakeStateExact(b);
    if StateFits(s) {
      TakeStateOf(s, []);
      assert EncodeState(s) + [] == EncodeState(s);
    }
  }

  lemma ActionRoundTrip(b: Bytes, a: ProposalAction)
    ensures DecodeAction(b) == Some(a) <==> ActionFits(a) && b == EncodeAction(a)
  {
    TakeActionExact(b);
    if ActionFits(a) {
      TakeActionOf(a, []);
      assert EncodeAction(a) + [] == EncodeAction(a);
    }
  }

  lemma ProposalRoundTrip(b: Bytes, p: Proposal)
    ensures DecodeProposal(b) == Some(p) <==> ProposalFits(p) && b == EncodeProposal(p)
  {
    TakeProposalExact(b);
    if ProposalFits(p) {
      TakeProposalOf(p, []);
      assert EncodeProposal(p) + [] == EncodeProposal(p);
    }
  }

  lemma StateSize(s: MultisigState)
    ensures |EncodeState(s)| == 45 + 32 * |s.memberCms|
  {
    ItemsExact();
    VecWidth(HASH, s.memberCms);
  }

  /** The part of a proposal's encoding that votes do not change. */
  function BaseSize(a: ProposalAction): nat {
    |EncodeAction(a)| + 81
  }

  lemma ProposalSize(p: Proposal)
    ensures |EncodeProposal(p)| == BaseSize(p.action) + 32 * (|p.voteNullifiers| + |p.rejectNullifiers|)
  {
    ItemsExact();
    VecWidth(HASH, p.voteNullifiers);
    VecWidth(HASH, p.rejectNullifiers);
  }

  /** An encoding shorter than 2^32 bytes holds no vector too long for its length word. */
  lemma ShortProposalFits(p: Proposal)
    requires |EncodeProposal(p)| < 0x1_0000_0000
    ensures ProposalFits(p)
  {
    ItemsExact();
    ProposalSize(p);
    VecWidth(WORD, p.action.targetInstructionData);
    VecWidth(HASH, p.action.pdaSeeds);
    VecWidth(BYTE, p.action.authorizedIndices);
  }
}
