/** Domain tags, hash preimages and PDA seeds of pms_core. SHA-256 (section 6.2 of FIPS 180-4) and the
    platform's PDA derivation are parameters: nothing is assumed of them but what a theorem says. */
module Hashing {
  import opened Words
  import opened Records
  import opened Borsh

  /** What the program runs in: the hash, the platform's address derivation and account-data limit,
      its own identifier, and the arithmetic of its build. */
  datatype Env = Env(
    sha: Bytes -> Bytes32,
    pda: (ProgramId, Bytes32) -> Bytes32,
    programId: ProgramId,
    arith: Arith,
    dataLimit: u32)

  /** No two distinct members of a finite set of inputs have the same hash. */
  ghost predicate CollisionFree(sha: Bytes -> Bytes32, inputs: set<Bytes>) {
    forall x, y :: x in inputs && y in inputs && sha(x) == sha(y) ==> x == y
  }

  // Domain tags

  datatype Tag = MemberTag | VoteTag | RejectTag | ActionTag | StateTag | ProposalTag | VaultTag

  function Text(tag: Tag): string {
    match tag
    case MemberTag => "/PMS/v0.1/MemberCommitment/"
    case VoteTag => "/PMS/v0.1/VoteNullifier/"
    case RejectTag => "/PMS/v0.1/RejectNullifier/"
    case ActionTag => "/PMS/v0.1/ActionHash/"
    case StateTag => "pms_state"
    case ProposalTag => "pms_proposal"
    case VaultTag => "pms_vault"
  }

  function Ascii(s: string): (b: Bytes)
    ensures |b| == |s|
  {
    seq(|s|, i requires 0 <= i < |s| => (s[i] as int % 256) as u8)
  }

  function ZeroPad(b: Bytes): (r: Bytes32)
    requires |b| <= 32
  {
    b + seq(32 - |b|, _ => 0)
  }

  function Dst(tag: Tag): Bytes32 {
    ZeroPad(Ascii(Text(tag)))
  }

  function StripZeros(b: Bytes): Bytes {
    if b == [] || b[|b| - 1] != 0 then b else StripZeros(b[..|b| - 1])
  }

  lemma {:induction false} StripZerosPadded(b: Bytes, n: nat)
    ensures StripZeros(b + seq(n, _ => 0)) == StripZeros(b)
  {
    var padded := b + seq(n, _ => 0);
    if n == 0 {
      assert padded == b;
    } else {
      assert padded[..|padded| - 1] == b + seq(n - 1, _ => 0);
      StripZerosPadded(b, n - 1);
    }
  }

  lemma {:induction false} StripZerosParts(b: Bytes)
    ensures |StripZeros(b)| <= |b|
    ensures b == StripZeros(b) + seq(|b| - |StripZeros(b)|, _ => 0)
  {
    if b != [] && b[|b| - 1] == 0 {
      StripZerosParts(b[..|b| - 1]);
      assert b == b[..|b| - 1] + [0];
    }
  }

  /** Zero-padding forgets exactly the trailing zeros. */
  lemma ZeroPadForgetsTrailingZeros(a: Bytes, b: Bytes)
    requires |a| <= 32 && |b| <= 32
    ensures ZeroPad(a) == ZeroPad(b) <==> StripZeros(a) == StripZeros(b)
  {
    StripZerosPadded(a, 32 - |a|);
    StripZerosPadded(b, 32 - |b|);
    StripZerosParts(ZeroPad(a));
    StripZerosParts(ZeroPad(b));
  }

  lemma TextEndsInLetter(tag: Tag)
    ensures 0 < |Ascii(Text(tag))| <= 32
    ensures StripZeros(Ascii(Text(tag))) == Ascii(Text(tag))
  {
  }

  lemma TextLengths()
    ensures |Text(MemberTag)| == 27 && |Text(VoteTag)| == 24 && |Text(RejectTag)| == 26 && |Text(ActionTag)| == 21
    ensures |Text(StateTag)| == |Text(VaultTag)| == 9 && |Text(ProposalTag)| == 12
    ensures Ascii(Text(StateTag)) != Ascii(Text(VaultTag))
  {
    assert Ascii(Text(StateTag))[4] != Ascii(Text(VaultTag))[4];
  }

  lemma TagsAreDistinct(s: Tag, t: Tag)
    ensures Dst(s) == Dst(t) ==> s == t
  {
    hide Text, Ascii, StripZeros, ZeroPad;
    TextEndsInLetter(s);
    TextEndsInLetter(t);
    TextLengths();
    ZeroPadForgetsTrailingZeros(Ascii(Text(s)), Ascii(Text(t)));
  }

  // Preimages

  function MemberPreimage(salt: Bytes32, account: Bytes32): Bytes {
    Dst(MemberTag) + (salt + account)
  }

  function NullifierPreimage(tag: Tag, salt: Bytes32, stateId: Bytes32, index: u64, actionHash: Bytes32): Bytes {
    Dst(tag) + (salt + (stateId + (ToLE(index, 8) + actionHash)))
  }

  function ActionPreimage(action: ProposalAction): Bytes {
    Dst(ActionTag) + EncodeAction(action)
  }

  function SeedU64(value: u64): Bytes32 {
    ToLE(value, 8) + seq(24, _ => 0)
  }

  function Flatten(seeds: seq<Bytes32>): Bytes {
    if seeds == [] then [] else Flatten(seeds[..|seeds| - 1]) + seeds[|seeds| - 1]
  }

  function StateSeeds(createKey: Bytes32): seq<Bytes32> {
    [Dst(StateTag), createKey]
  }

  function ProposalSeeds(createKey: Bytes32, index: u64): seq<Bytes32> {
    [Dst(ProposalTag), createKey, SeedU64(index)]
  }

  function VaultSeeds(createKey: Bytes32): seq<Bytes32> {
    [Dst(VaultTag), createKey]
  }

  // Digests and addresses

  function MemberCommitment(env: Env, salt: Bytes32, account: Bytes32): Bytes32 {
    env.sha(MemberPreimage(salt, account))
  }

  function VoteNullifier(env: Env, salt: Bytes32, stateId: Bytes32, index: u64, actionHash: Bytes32): Bytes32 {
    env.sha(NullifierPreimage(VoteTag, salt, stateId, index, actionHash))
  }

  function RejectNullifier(env: Env, salt: Bytes32, stateId: Bytes32, index: u64, actionHash: Bytes32): Bytes32 {
    env.sha(NullifierPreimage(RejectTag, salt, stateId, index, actionHash))
  }

  function ActionHash(env: Env, action: ProposalAction): Bytes32 {
    env.sha(ActionPreimage(action))
  }

  function CombineSeeds(env: Env, seeds: seq<Bytes32>): Bytes32 {
    env.sha(Flatten(seeds))
  }

  function NewProposal(env: Env, index: u64, createKey: Bytes32, action: ProposalAction): Proposal {
    Proposal(index, createKey, action, ActionHash(env, action), [], [], Active)
  }

  // Preimages determine their fields, and preimages of different kinds never coincide.

  lemma ToLEInjective(m: u64, n: u64)
    ensures ToLE(m, 8) == ToLE(n, 8) ==> m == n
  {
    Widths();
    FromToLE(m, 8);
    FromToLE(n, 8);
  }

  lemma MemberPreimageInjective(salt: Bytes32, account: Bytes32, salt': Bytes32, account': Bytes32)
    requires MemberPreimage(salt, account) == MemberPreimage(salt', account')
    ensures salt == salt' && account == account'
  {
    SplitConcat(Dst(MemberTag), salt + account, Dst(MemberTag), salt' + account');
    SplitConcat(salt, account, salt', account');
  }

  lemma NullifierPreimageInjective(
      tag: Tag, salt: Bytes32, id: Bytes32, index: u64, hash: Bytes32,
      tag': Tag, salt': Bytes32, id': Bytes32, index': u64, hash': Bytes32)
    requires NullifierPreimage(tag, salt, id, index, hash) == NullifierPreimage(tag', salt', id', index', hash')
    ensures tag == tag' && salt == salt' && id == id' && index == index' && hash == hash'
  {
    var le, le' := ToLE(index, 8), ToLE(index', 8);
    SplitConcat(Dst(tag), salt + (id + (le + hash)), Dst(tag'), salt' + (id' + (le' + hash')));
    TagsAreDistinct(tag, tag');
    SplitConcat(salt, id + (le + hash), salt', id' + (le' + hash'));
    SplitConcat(id, le + hash, id', le' + hash');
    SplitConcat(le, hash, le', hash');
    ToLEInjective(index, index');
  }

  lemma ActionPreimageInjective(a: ProposalAction, b: ProposalAction)
    requires ActionFits(a) && ActionFits(b)
    requires ActionPreimage(a) == ActionPreimage(b)
    ensures a == b
  {
    SplitConcat(Dst(ActionTag), EncodeAction(a), Dst(ActionTag), EncodeAction(b));
    ActionRoundTrip(EncodeAction(a), a);
    ActionRoundTrip(EncodeAction(a), b);
  }

  /** Whatever follows them, preimages under two different tags differ. */
  lemma TagsSeparateDomains(s: Tag, a: Bytes, t: Tag, b: Bytes)
    requires Dst(s) + a == Dst(t) + b
    ensures s == t && a == b
  {
    SplitConcat(Dst(s), a, Dst(t), b);
    TagsAreDistinct(s, t);
  }

  lemma {:induction false} FlattenWidth(seeds: seq<Bytes32>)
    ensures |Flatten(seeds)| == 32 * |seeds|
  {
    if seeds != [] {
      FlattenWidth(seeds[..|seeds| - 1]);
    }
  }

  /** Any number of 32-byte seeds can be read back from their concatenation. */
  lemma {:induction false} FlattenInjective(s: seq<Bytes32>, t: seq<Bytes32>)
    requires Flatten(s) == Flatten(t)
    ensures s == t
  {
    FlattenWidth(s);
    FlattenWidth(t);
    if s != [] {
      var s', t' := s[..|s| - 1], t[..|t| - 1];
      FlattenWidth(s');
      FlattenWidth(t');
      SplitConcat(Flatten(s'), s[|s| - 1], Flatten(t'), t[|t| - 1]);
      FlattenInjective(s', t');
      assert s == s' + [s[|s| - 1]];
      assert t == t' + [t[|t| - 1]];
    }
  }

  /** A program-derived address of this program, by what it names. */
  datatype Name = StateOf(createKey: Bytes32) | ProposalOf(createKey: Bytes32, index: u64) | VaultOf(createKey: Bytes32)

  function Seeds(name: Name): seq<Bytes32> {
    match name
    case StateOf(createKey) => StateSeeds(createKey)
    case ProposalOf(createKey, index) => ProposalSeeds(createKey, index)
    case VaultOf(createKey) => VaultSeeds(createKey)
  }

  function Address(env: Env, name: Name): Bytes32 {
    env.pda(env.programId, CombineSeeds(env, Seeds(name)))
  }

  /** State, proposal and vault seeds never coincide, across kinds, keys and indices. */
  lemma SeedsNameOneAccount(m: Name, n: Name)
    requires Flatten(Seeds(m)) == Flatten(Seeds(n))
    ensures m == n
  {
    FlattenInjective(Seeds(m), Seeds(n));
    assert Seeds(m)[0] == Seeds(n)[0];
    assert Seeds(m)[1] == Seeds(n)[1];
    TagsAreDistinct(StateTag, ProposalTag);
    TagsAreDistinct(StateTag, VaultTag);
    TagsAreDistinct(ProposalTag, VaultTag);
    if m.ProposalOf? && n.ProposalOf? {
      assert Seeds(m)[2] == Seeds(n)[2];
      SplitConcat(ToLE(m.index, 8), seq(24, _ => 0), ToLE(n.index, 8), seq(24, _ => 0));
      ToLEInjective(m.index, n.index);
    }
  }

  ghost predicate AddressesDistinct(env: Env, names: set<Name>) {
    forall m, n :: m in names && n in names && Address(env, m) == Address(env, n) ==> m == n
  }

  /** A finite set of names has distinct addresses as soon as the hash has no collision on their seed
      preimages and the platform derives distinct addresses from the resulting seeds. */
  lemma NamesHaveDistinctAddresses(env: Env, names: set<Name>)
    requires CollisionFree(env.sha, set n | n in names :: Flatten(Seeds(n)))
    requires forall m, n :: m in names && n in names && Address(env, m) == Address(env, n)
                            ==> CombineSeeds(env, Seeds(m)) == CombineSeeds(env, Seeds(n))
    ensures AddressesDistinct(env, names)
  {
    forall m, n | m in names && n in names && Address(env, m) == Address(env, n)
      ensures m == n
    {
      SeedsNameOneAccount(m, n);
    }
  }
}
