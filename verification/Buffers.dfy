/** The hash inputs of pms_core, filled in place in fixed-size buffers at fixed offsets. */
module Buffers {
  import opened Words
  import opened Records
  import opened Borsh
  import opened Hashing

  /** out[at..at + |src|].copy_from_slice(src) */
  method CopyFromSlice(out: array<u8>, at: nat, src: Bytes)
    requires at + |src| <= out.Length
    modifies out
    ensures out[at..at + |src|] == src
    ensures forall k :: 0 <= k < out.Length && !(at <= k < at + |src|) ==> out[k] == old(out[k])
  {
    for i := 0 to |src|
      invariant out[at..at + i] == src[..i]
      invariant forall k :: 0 <= k < out.Length && !(at <= k < at + i) ==> out[k] == old(out[k])
    {
      out[at + i] := src[i];
    }
  }

  method FillDst(tag: Tag) returns (r: Bytes32)
    ensures r == Dst(tag)
  {
    TextEndsInLetter(tag);
    var src := Ascii(Text(tag));
    var out := new u8[32](_ => 0);
    CopyFromSlice(out, 0, src);
    r := out[..];
  }

  method FillSeedU64(value: u64) returns (r: Bytes32)
    ensures r == SeedU64(value)
  {
    var out := new u8[32](_ => 0);
    CopyFromSlice(out, 0, ToLE(value, 8));
    r := out[..];
  }

  method ComputeMemberCommitment(env: Env, salt: Bytes32, account: Bytes32) returns (r: Bytes32)
    ensures r == MemberCommitment(env, salt, account)
  {
    var bytes := new u8[96](_ => 0);
    var dst := FillDst(MemberTag);
    CopyFromSlice(bytes, 0, dst);
    CopyFromSlice(bytes, 32, salt);
    CopyFromSlice(bytes, 64, account);
    ThreeSlices(bytes[..]);
    assert bytes[..][0..32] == dst && bytes[..][32..64] == salt && bytes[..][64..96] == account;
    r := env.sha(bytes[..]);
  }

  method ComputeNullifier(env: Env, tag: Tag, salt: Bytes32, stateId: Bytes32, index: u64, actionHash: Bytes32)
    returns (r: Bytes32)
    ensures r == env.sha(NullifierPreimage(tag, salt, stateId, index, actionHash))
  {
    var bytes := new u8[136](_ => 0);
    var dst := FillDst(tag);
    CopyFromSlice(bytes, 0, dst);
    CopyFromSlice(bytes, 32, salt);
    CopyFromSlice(bytes, 64, stateId);
    CopyFromSlice(bytes, 96, ToLE(index, 8));
    CopyFromSlice(bytes, 104, actionHash);
    FiveSlices(bytes[..]);
    assert bytes[..][0..32] == dst && bytes[..][32..64] == salt && bytes[..][64..96] == stateId;
    assert bytes[..][96..104] == ToLE(index, 8) && bytes[..][104..136] == actionHash;
    r := env.sha(bytes[..]);
  }

  method ComputeActionHash(env: Env, action: ProposalAction) returns (r: Bytes32)
    ensures r == ActionHash(env, action)
  {
    var bytes: Bytes := FillDst(ActionTag);
    bytes := bytes + EncodeAction(action);
    r := env.sha(bytes);
  }

  /** The hasher absorbs one seed after the other. */
  method ComputeCombinedSeeds(env: Env, seeds: seq<Bytes32>) returns (r: Bytes32)
    ensures r == CombineSeeds(env, seeds)
  {
    var absorbed: Bytes := [];
    for i := 0 to |seeds|
      invariant absorbed == Flatten(seeds[..i])
    {
      absorbed := absorbed + seeds[i];
      assert seeds[..i + 1][..i] == seeds[..i];
    }
    assert seeds[..|seeds|] == seeds;
    r := env.sha(absorbed);
  }
}
