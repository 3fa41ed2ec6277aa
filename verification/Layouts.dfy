/** Where every byte lies: the stored records and the inputs of the hash by offset, length and value, so that another
    program can read and write them. */
module Layouts {
  import opened Words
  import opened Records
  import opened Borsh
  import opened Hashing

  // Words

  lemma DivDiv(n: nat, a: nat, b: nat)
    requires a > 0 && b > 0
    ensures a * b > 0 && (n / a) / b == n / (a * b)
  {
    var r, r' := n % a, n / a % b;
    Regroup(n, a, b, n / a, r, n / a / b, r');
    BelowProduct(a, b, r, r');
    QuotientIs(n, a * b, n / a / b, a * r' + r);
  }

  lemma Regroup(n: nat, a: nat, b: nat, q: nat, r: nat, q': nat, r': nat)
    requires n == a * q + r && q == b * q' + r'
    ensures n == (a * b) * q' + (a * r' + r)
  {
    assert a * (b * q' + r') == a * (b * q') + a * r';
    assert a * (b * q') == (a * b) * q';
  }

  lemma BelowProduct(a: nat, b: nat, r: nat, r': nat)
    requires r < a && r' < b
    ensures a * r' + r < a * b
  {
    assert a * (r' + 1) <= a * b;
  }

  lemma MulMonotone(d: nat, m: nat, n: nat)
    requires m <= n
    ensures d * m <= d * n
  {
  }

  lemma QuotientNotLess(d: nat, q: nat, r: nat, q': nat, r': nat)
    requires d * q + r == d * q' + r' && r < d && r' < d
    ensures q >= q'
  {
    if q < q' {
      MulMonotone(d, q + 1, q');
    }
  }

  lemma QuotientIs(n: nat, d: nat, q: nat, r: nat)
    requires d > 0 && n == d * q + r && r < d
    ensures n / d == q
  {
    QuotientNotLess(d, q, r, n / d, n % d);
    QuotientNotLess(d, n / d, n % d, q, r);
  }

  lemma {:induction false} Digit(n: nat, k: nat, i: nat)
    requires i < k
    ensures ToLE(n, k)[i] as int == (n / Pow256(i)) % 256
  {
    if i > 0 {
      Digit(n / 256, k - 1, i - 1);
      assert ToLE(n, k)[i] == ToLE(n / 256, k - 1)[i - 1];
      DivDiv(n, 256, Pow256(i - 1));
    }
  }

  lemma Powers()
    ensures Pow256(0) == 1 && Pow256(1) == 0x100 && Pow256(2) == 0x1_0000 && Pow256(3) == 0x100_0000
    ensures Pow256(4) == 0x1_0000_0000 && Pow256(5) == 0x100_0000_0000
    ensures Pow256(6) == 0x1_0000_0000_0000 && Pow256(7) == 0x100_0000_0000_0000
  {
    Widths();
    assert Pow256(2) == 256 * Pow256(1);
    assert Pow256(3) == 256 * Pow256(2);
    assert Pow256(5) == 256 * Pow256(4);
    assert Pow256(6) == 256 * Pow256(5);
    assert Pow256(7) == 256 * Pow256(6);
  }

  /** A word's bytes, the lowest first. */
  lemma WordBytes(n: nat)
    ensures var b := ToLE(n, 8);
            && |b| == 8
            && b[0] as int == n % 256 && b[1] as int == n / 0x100 % 256
            && b[2] as int == n / 0x1_0000 % 256 && b[3] as int == n / 0x100_0000 % 256
            && b[4] as int == n / 0x1_0000_0000 % 256 && b[5] as int == n / 0x100_0000_0000 % 256
            && b[6] as int == n / 0x1_0000_0000_0000 % 256 && b[7] as int == n / 0x100_0000_0000_0000 % 256
    ensures ToLE(n, 4) == ToLE(n, 8)[..4]
  {
    Powers();
    assert n / 1 == n;
    forall i | 0 <= i < 8
      ensures ToLE(n, 8)[i] as int == (n / Pow256(i)) % 256
    {
      Digit(n, 8, i);
    }
    forall i | 0 <= i < 4
      ensures ToLE(n, 4)[i] == ToLE(n, 8)[i]
    {
      Digit(n, 4, i);
    }
  }

  // Vectors

  lemma SubSlice(b: Bytes, at: nat, v: Bytes, i: nat, j: nat)
    requires at + |v| <= |b| && b[at..at + |v|] == v && i <= j <= |v|
    ensures b[at + i..at + j] == v[i..j]
  {
    forall t | 0 <= t < j - i
      ensures b[at + i..at + j][t] == v[i..j][t]
    {
      assert v[i + t] == b[at..at + |v|][i + t];
    }
  }

  lemma Shifted(first: Bytes, rest: Bytes, at: nat, width: nat)
    requires at + width <= |rest|
    ensures (first + rest)[|first| + at..|first| + at + width] == rest[at..at + width]
  {
  }

  lemma {:induction false} ItemAt<T(!new)>(it: Item<T>, xs: seq<T>, k: nat, at: nat)
    requires Exact(it) && k < |xs| && at == it.width * k
    ensures at + it.width <= |EncodeItems(it, xs)|
    ensures EncodeItems(it, xs)[at..at + it.width] == it.enc(xs[k])
  {
    var first, rest := it.enc(xs[0]), EncodeItems(it, xs[1..]);
    assert EncodeItems(it, xs) == first + rest && |first| == it.width;
    hide Exact, EncodeItems;
    if k > 0 {
      Before(it.width, k, at);
      ItemAt(it, xs[1..], k - 1, at - it.width);
      Shifted(first, rest, at - it.width, it.width);
    }
  }

  lemma Before(width: nat, k: nat, at: nat)
    requires k > 0 && at == width * k
    ensures at >= width && at - width == width * (k - 1)
  {
    OneMore(width, k - 1);
  }

  lemma VecAt<T(!new)>(it: Item<T>, xs: seq<T>, k: nat, at: nat)
    requires Exact(it) && k < |xs| && at == it.width * k
    ensures 4 + at + it.width <= |EncodeVec(it, xs)|
    ensures EncodeVec(it, xs)[4 + at..4 + at + it.width] == it.enc(xs[k])
  {
    hide Exact, EncodeItems, ToLE;
    ItemAt(it, xs, k, at);
    Shifted(ToLE(|xs|, 4), EncodeItems(it, xs), at, it.width);
  }

  lemma VecLength<T(!new)>(it: Item<T>, xs: seq<T>)
    requires Exact(it)
    ensures |EncodeVec(it, xs)| == 4 + it.width * |xs| && EncodeVec(it, xs)[0..4] == ToLE(|xs|, 4)
  {
    hide Exact, EncodeItems, ToLE;
    VecWidth(it, xs);
  }

  lemma HashesLength(xs: seq<Bytes32>)
    ensures |EncodeVec(HASH, xs)| == 4 + 32 * |xs| && EncodeVec(HASH, xs)[0..4] == ToLE(|xs|, 4)
  {
    hide EncodeVec, ToLE;
    ItemsExact();
    VecLength(HASH, xs);
  }

  lemma HashAt(xs: seq<Bytes32>, k: nat)
    requires k < |xs|
    ensures 36 + 32 * k <= |EncodeVec(HASH, xs)| && EncodeVec(HASH, xs)[4 + 32 * k..36 + 32 * k] == xs[k]
  {
    hide EncodeVec, ToLE;
    ItemsExact();
    VecAt(HASH, xs, k, 32 * k);
  }

  lemma WordsLength(xs: seq<u32>)
    ensures |EncodeVec(WORD, xs)| == 4 + 4 * |xs| && EncodeVec(WORD, xs)[0..4] == ToLE(|xs|, 4)
  {
    hide EncodeVec, ToLE;
    ItemsExact();
    VecLength(WORD, xs);
  }

  lemma WordAt(xs: seq<u32>, k: nat)
    requires k < |xs|
    ensures 8 + 4 * k <= |EncodeVec(WORD, xs)| && EncodeVec(WORD, xs)[4 + 4 * k..8 + 4 * k] == ToLE(xs[k] as nat, 4)
  {
    hide EncodeVec, ToLE;
    ItemsExact();
    VecAt(WORD, xs, k, 4 * k);
  }

  lemma BytesLength(xs: seq<u8>)
    ensures |EncodeVec(BYTE, xs)| == 4 + |xs| && EncodeVec(BYTE, xs)[0..4] == ToLE(|xs|, 4)
  {
    hide EncodeVec, ToLE;
    ItemsExact();
    VecLength(BYTE, xs);
  }

  lemma ByteAt(xs: seq<u8>, k: nat)
    requires k < |xs|
    ensures 5 + k <= |EncodeVec(BYTE, xs)| && EncodeVec(BYTE, xs)[4 + k..5 + k] == [xs[k]]
  {
    hide EncodeVec, ToLE;
    ItemsExact();
    VecAt(BYTE, xs, k, k);
  }

  // Inside a record: a length, then the elements in order, hashes and bytes as they are, words in little-endian order

  lemma HashesIn(b: Bytes, at: nat, xs: seq<Bytes32>)
    requires at + |EncodeVec(HASH, xs)| <= |b| && b[at..at + |EncodeVec(HASH, xs)|] == EncodeVec(HASH, xs)
    ensures |EncodeVec(HASH, xs)| == 4 + 32 * |xs| && b[at..at + 4] == ToLE(|xs|, 4)
    ensures forall k :: 0 <= k < |xs| ==> b[at + 4 + 32 * k..at + 36 + 32 * k] == xs[k]
  {
    hide EncodeVec, ToLE;
    HashesLength(xs);
    SubSlice(b, at, EncodeVec(HASH, xs), 0, 4);
    forall k | 0 <= k < |xs|
      ensures b[at + 4 + 32 * k..at + 36 + 32 * k] == xs[k]
    {
      HashAt(xs, k);
      SubSlice(b, at, EncodeVec(HASH, xs), 4 + 32 * k, 36 + 32 * k);
    }
  }

  lemma WordsIn(b: Bytes, at: nat, xs: seq<u32>)
    requires at + |EncodeVec(WORD, xs)| <= |b| && b[at..at + |EncodeVec(WORD, xs)|] == EncodeVec(WORD, xs)
    ensures |EncodeVec(WORD, xs)| == 4 + 4 * |xs| && b[at..at + 4] == ToLE(|xs|, 4)
    ensures forall k :: 0 <= k < |xs| ==> b[at + 4 + 4 * k..at + 8 + 4 * k] == ToLE(xs[k] as nat, 4)
  {
    hide EncodeVec, ToLE;
    WordsLength(xs);
    SubSlice(b, at, EncodeVec(WORD, xs), 0, 4);
    forall k | 0 <= k < |xs|
      ensures b[at + 4 + 4 * k..at + 8 + 4 * k] == ToLE(xs[k] as nat, 4)
    {
      WordAt(xs, k);
      SubSlice(b, at, EncodeVec(WORD, xs), 4 + 4 * k, 8 + 4 * k);
    }
  }

  lemma BytesIn(b: Bytes, at: nat, xs: seq<u8>)
    requires at + |EncodeVec(BYTE, xs)| <= |b| && b[at..at + |EncodeVec(BYTE, xs)|] == EncodeVec(BYTE, xs)
    ensures |EncodeVec(BYTE, xs)| == 4 + |xs| && b[at..at + 4] == ToLE(|xs|, 4)
    ensures forall k :: 0 <= k < |xs| ==> b[at + 4 + k] == xs[k]
  {
    hide EncodeVec, ToLE;
    BytesLength(xs);
    SubSlice(b, at, EncodeVec(BYTE, xs), 0, 4);
    forall k | 0 <= k < |xs|
      ensures b[at + 4 + k] == xs[k]
    {
      ByteAt(xs, k);
      SubSlice(b, at, EncodeVec(BYTE, xs), 4 + k, 5 + k);
      assert b[at + 4 + k] == b[at + 4 + k..at + 5 + k][0];
    }
  }

  // Records

  /** The field after a prefix. */
  lemma FieldAt(before: Bytes, field: Bytes, after: Bytes)
    ensures (before + (field + after))[|before|..|before| + |field|] == field
    ensures before + (field + after) == (before + field) + after
  {
    Assoc(before, field, after);
  }

  lemma StateFields(s: MultisigState)
    ensures var b, end := EncodeState(s), 37 + 32 * |s.memberCms|;
            && |b| == end + 8
            && b[0..32] == s.createKey && b[32..33] == [s.threshold]
            && b[33..end] == EncodeVec(HASH, s.memberCms) && b[end..end + 8] == ToLE(s.transactionIndex, 8)
  {
    hide EncodeVec, ToLE, Exact;
    var k, t, m, i := s.createKey, [s.threshold], EncodeVec(HASH, s.memberCms), ToLE(s.transactionIndex, 8);
    ItemsExact();
    VecWidth(HASH, s.memberCms);
    FieldAt([], k, t + (m + i));
    FieldAt(k, t, m + i);
    FieldAt(k + t, m, i);
    FieldAt((k + t) + m, i, []);
    assert [] + EncodeState(s) == EncodeState(s) && i + [] == i;
  }

  /** Key, M, N, the N commitments in order, the counter. */
  lemma StateLayout(s: MultisigState)
    ensures var b, n := EncodeState(s), |s.memberCms|;
            && |b| == 45 + 32 * n
            && b[0..32] == s.createKey && b[32] == s.threshold && b[33..37] == ToLE(n, 4)
            && (forall k :: 0 <= k < n ==> b[37 + 32 * k..69 + 32 * k] == s.memberCms[k])
            && b[37 + 32 * n..45 + 32 * n] == ToLE(s.transactionIndex, 8)
  {
    hide EncodeVec, EncodeState, ToLE, Exact;
    StateFields(s);
    HashesLength(s.memberCms);
    assert EncodeState(s)[32] == EncodeState(s)[32..33][0];
    HashesIn(EncodeState(s), 33, s.memberCms);
  }

  lemma ActionFields(a: ProposalAction)
    ensures var b, d := EncodeAction(a), 36 + 4 * |a.targetInstructionData|;
            var e := d + 5 + 32 * |a.pdaSeeds|;
            && |b| == e + 4 + |a.authorizedIndices|
            && b[0..32] == EncodeItems(WORD, a.targetProgramId) && b[32..d] == EncodeVec(WORD, a.targetInstructionData)
            && b[d..d + 1] == [a.targetAccountCount]
            && b[d + 1..e] == EncodeVec(HASH, a.pdaSeeds) && b[e..] == EncodeVec(BYTE, a.authorizedIndices)
  {
    hide EncodeVec, EncodeItems, Exact;
    var p, i, c := EncodeItems(WORD, a.targetProgramId), EncodeVec(WORD, a.targetInstructionData), [a.targetAccountCount];
    var s, x := EncodeVec(HASH, a.pdaSeeds), EncodeVec(BYTE, a.authorizedIndices);
    ItemsExact();
    ItemsWidth(WORD, a.targetProgramId);
    VecWidth(WORD, a.targetInstructionData);
    VecWidth(HASH, a.pdaSeeds);
    VecWidth(BYTE, a.authorizedIndices);
    FieldAt([], p, i + (c + (s + x)));
    FieldAt(p, i, c + (s + x));
    FieldAt(p + i, c, s + x);
    FieldAt((p + i) + c, s, x);
    FieldAt(((p + i) + c) + s, x, []);
    assert [] + EncodeAction(a) == EncodeAction(a) && x + [] == x;
  }

  /** Program, instruction data, count, seeds, indices: each element at its place. */
  lemma ActionLayout(a: ProposalAction)
    ensures var b, d, n, m := EncodeAction(a), |a.targetInstructionData|, |a.pdaSeeds|, |a.authorizedIndices|;
            var seeds := 37 + 4 * d;
            var indices := seeds + 4 + 32 * n;
            && |b| == indices + 4 + m
            && (forall k :: 0 <= k < 8 ==> b[4 * k..4 * k + 4] == ToLE(a.targetProgramId[k] as nat, 4))
            && b[32..36] == ToLE(d, 4)
            && (forall k :: 0 <= k < d ==> b[36 + 4 * k..40 + 4 * k] == ToLE(a.targetInstructionData[k] as nat, 4))
            && b[36 + 4 * d] == a.targetAccountCount
            && b[seeds..seeds + 4] == ToLE(n, 4)
            && (forall k :: 0 <= k < n ==> b[seeds + 4 + 32 * k..seeds + 36 + 32 * k] == a.pdaSeeds[k])
            && b[indices..indices + 4] == ToLE(m, 4)
            && (forall k :: 0 <= k < m ==> b[indices + 4 + k] == a.authorizedIndices[k])
  {
    hide EncodeVec, EncodeItems, EncodeAction, ToLE, Exact;
    var b, d, x := EncodeAction(a), |a.targetInstructionData|, EncodeVec(BYTE, a.authorizedIndices);
    var indices := 41 + 4 * d + 32 * |a.pdaSeeds|;
    ActionFields(a);
    ProgramIdAt(a, b);
    assert b[36 + 4 * d] == b[36 + 4 * d..37 + 4 * d][0];
    WordsLength(a.targetInstructionData);
    HashesLength(a.pdaSeeds);
    BytesLength(a.authorizedIndices);
    WordsIn(b, 32, a.targetInstructionData);
    HashesIn(b, 37 + 4 * d, a.pdaSeeds);
    assert b[indices..] == b[indices..indices + |x|];
    BytesIn(b, indices, a.authorizedIndices);
  }

  lemma ProgramIdAt(a: ProposalAction, b: Bytes)
    requires |b| >= 32 && b[0..32] == EncodeItems(WORD, a.targetProgramId)
    ensures forall k :: 0 <= k < 8 ==> b[4 * k..4 * k + 4] == ToLE(a.targetProgramId[k] as nat, 4)
  {
    hide EncodeItems, ToLE;
    ItemsExact();
    forall k | 0 <= k < 8
      ensures b[4 * k..4 * k + 4] == ToLE(a.targetProgramId[k] as nat, 4)
    {
      ItemAt(WORD, a.targetProgramId, k, 4 * k);
      SubSlice(b, 0, EncodeItems(WORD, a.targetProgramId), 4 * k, 4 * k + 4);
    }
  }

  lemma ProposalFields(p: Proposal)
    ensures var b, n := EncodeProposal(p), |EncodeAction(p.action)|;
            var votes := 72 + n;
            var rejects := votes + 4 + 32 * |p.voteNullifiers|;
            var end := rejects + 4 + 32 * |p.rejectNullifiers|;
            && |b| == end + 1
            && b[0..8] == ToLE(p.index, 8) && b[8..40] == p.createKey && b[40..40 + n] == EncodeAction(p.action)
            && b[40 + n..votes] == p.actionHash
            && b[votes..rejects] == EncodeVec(HASH, p.voteNullifiers)
            && b[rejects..end] == EncodeVec(HASH, p.rejectNullifiers)
            && b[end..end + 1] == [EncodeStatus(p.status)]
  {
    hide EncodeVec, EncodeAction, ToLE, EncodeStatus, Exact;
    var i, k, a, h := ToLE(p.index, 8), p.createKey, EncodeAction(p.action), p.actionHash;
    var v, r, s := EncodeVec(HASH, p.voteNullifiers), EncodeVec(HASH, p.rejectNullifiers), [EncodeStatus(p.status)];
    ItemsExact();
    VecWidth(HASH, p.voteNullifiers);
    VecWidth(HASH, p.rejectNullifiers);
    FieldAt([], i, k + (a + (h + (v + (r + s)))));
    FieldAt(i, k, a + (h + (v + (r + s))));
    FieldAt(i + k, a, h + (v + (r + s)));
    FieldAt((i + k) + a, h, v + (r + s));
    FieldAt(((i + k) + a) + h, v, r + s);
    FieldAt((((i + k) + a) + h) + v, r, s);
    FieldAt(((((i + k) + a) + h) + v) + r, s, []);
    assert [] + EncodeProposal(p) == EncodeProposal(p) && s + [] == s;
  }

  /** What was proposed comes first; votes change only what follows it; the last byte is 0 for Active, 1 for Executed and
      2 for Rejected. */
  lemma ProposalLayout(p: Proposal)
    ensures var b, n, v, r := EncodeProposal(p), |EncodeAction(p.action)|, |p.voteNullifiers|, |p.rejectNullifiers|;
            var votes := 72 + n;
            var rejects := votes + 4 + 32 * v;
            var end := rejects + 4 + 32 * r;
            && |b| == end + 1
            && b[0..8] == ToLE(p.index, 8) && b[8..40] == p.createKey && b[40..40 + n] == EncodeAction(p.action)
            && b[40 + n..72 + n] == p.actionHash
            && b[votes..votes + 4] == ToLE(v, 4)
            && (forall k :: 0 <= k < v ==> b[votes + 4 + 32 * k..votes + 36 + 32 * k] == p.voteNullifiers[k])
            && b[rejects..rejects + 4] == ToLE(r, 4)
            && (forall k :: 0 <= k < r ==> b[rejects + 4 + 32 * k..rejects + 36 + 32 * k] == p.rejectNullifiers[k])
            && (p.status == Active <==> b[end] == 0) && (p.status == Executed <==> b[end] == 1)
            && (p.status == Rejected <==> b[end] == 2)
  {
    hide EncodeVec, EncodeAction, EncodeProposal, ToLE, Exact;
    var b, n := EncodeProposal(p), |EncodeAction(p.action)|;
    var votes := 72 + n;
    var rejects := votes + 4 + 32 * |p.voteNullifiers|;
    var end := rejects + 4 + 32 * |p.rejectNullifiers|;
    ProposalFields(p);
    assert b[end] == b[end..end + 1][0];
    HashesLength(p.voteNullifiers);
    HashesLength(p.rejectNullifiers);
    HashesIn(b, votes, p.voteNullifiers);
    HashesIn(b, rejects, p.rejectNullifiers);
  }

  // What is hashed

  /** The first 32 bytes are a text's characters, then zeros. */
  predicate Tagged(x: Bytes, text: string) {
    && |text| <= 32 <= |x|
    && (forall i :: 0 <= i < |text| ==> x[i] as int == text[i] as int)
    && (forall i :: |text| <= i < 32 ==> x[i] == 0)
  }

  /** The texts are those of the program, and no other 32 bytes make a tag. */
  lemma TagLayout(tag: Tag, x: Bytes, text: string)
    requires match tag
             case MemberTag => text == "/PMS/v0.1/MemberCommitment/"
             case VoteTag => text == "/PMS/v0.1/VoteNullifier/"
             case RejectTag => text == "/PMS/v0.1/RejectNullifier/"
             case ActionTag => text == "/PMS/v0.1/ActionHash/"
             case StateTag => text == "pms_state"
             case ProposalTag => text == "pms_proposal"
             case VaultTag => text == "pms_vault"
    requires |x| >= 32
    ensures Tagged(x, text) <==> x[..32] == Dst(tag)
  {
    assert text == Text(tag);
    hide Text;
    TextIsAscii(tag);
    DstBytes(tag);
    if Tagged(x, text) {
      assert forall i :: 0 <= i < 32 ==> x[i] as int == Dst(tag)[i] as int;
      assert forall i :: 0 <= i < 32 ==> x[..32][i] == x[i];
    }
    assert x[..32] == Dst(tag) ==> forall i :: 0 <= i < 32 ==> x[i] == x[..32][i];
  }

  lemma DstBytes(tag: Tag)
    requires forall i :: 0 <= i < |Text(tag)| ==> Text(tag)[i] as int < 256
    ensures |Text(tag)| <= 32 && Tagged(Dst(tag), Text(tag))
  {
    hide Text;
    TextEndsInLetter(tag);
  }

  lemma TextIsAscii(tag: Tag)
    ensures forall i :: 0 <= i < |Text(tag)| ==> Text(tag)[i] as int < 256
  {
  }

  lemma Parts(a: Bytes, b: Bytes)
    ensures (a + b)[..|a|] == a && (a + b)[|a|..] == b
  {
  }

  /** Of each hash input, the bytes: the tag at 0, and every field at its offset. Only these bytes are the input, and a
      commitment, nullifier, action hash or address is the hash of just them. */
  lemma CommitmentLayout(env: Env, salt: Bytes32, account: Bytes32, x: Bytes)
    ensures x == MemberPreimage(salt, account)
            <==> && |x| == 96 && Tagged(x, "/PMS/v0.1/MemberCommitment/")
                 && x[32..64] == salt && x[64..96] == account
    ensures x == MemberPreimage(salt, account) ==> MemberCommitment(env, salt, account) == env.sha(x)
  {
    hide Tagged, Dst;
    if |x| == 96 {
      TagLayout(MemberTag, x, "/PMS/v0.1/MemberCommitment/");
      ThreeSlices(x);
      if x == MemberPreimage(salt, account) {
        Parts(Dst(MemberTag), salt + account);
        Parts(salt, account);
        assert x[32..][..32] == x[32..64] && x[32..][32..] == x[64..96];
      }
    }
  }

  lemma NullifierFields(tag: Tag, salt: Bytes32, id: Bytes32, index: u64, hash: Bytes32, x: Bytes)
    ensures x == NullifierPreimage(tag, salt, id, index, hash)
            <==> && |x| == 136 && x[..32] == Dst(tag) && x[32..64] == salt && x[64..96] == id
                 && x[96..104] == ToLE(index, 8) && x[104..136] == hash
  {
    hide Dst, ToLE;
    if |x| == 136 {
      FiveSlices(x);
      if x == NullifierPreimage(tag, salt, id, index, hash) {
        var le := ToLE(index, 8);
        Parts(Dst(tag), salt + (id + (le + hash)));
        Parts(salt, id + (le + hash));
        Parts(id, le + hash);
        Parts(le, hash);
        assert x[32..][..32] == x[32..64] && x[32..][32..] == x[64..];
        assert x[64..][..32] == x[64..96] && x[64..][32..] == x[96..];
        assert x[96..][..8] == x[96..104] && x[96..][8..] == x[104..136];
      }
    }
  }

  /** An approval's nullifier, and a rejection's, which differs in its tag alone. */
  lemma NullifierLayout(env: Env, salt: Bytes32, id: Bytes32, index: u64, hash: Bytes32, x: Bytes)
    requires |x| == 136 && x[32..64] == salt && x[64..96] == id && x[96..104] == ToLE(index, 8) && x[104..136] == hash
    ensures x == NullifierPreimage(VoteTag, salt, id, index, hash) <==> Tagged(x, "/PMS/v0.1/VoteNullifier/")
    ensures x == NullifierPreimage(RejectTag, salt, id, index, hash) <==> Tagged(x, "/PMS/v0.1/RejectNullifier/")
    ensures Tagged(x, "/PMS/v0.1/VoteNullifier/") ==> VoteNullifier(env, salt, id, index, hash) == env.sha(x)
    ensures Tagged(x, "/PMS/v0.1/RejectNullifier/") ==> RejectNullifier(env, salt, id, index, hash) == env.sha(x)
  {
    hide Tagged, Dst, ToLE, NullifierPreimage;
    TagLayout(VoteTag, x, "/PMS/v0.1/VoteNullifier/");
    TagLayout(RejectTag, x, "/PMS/v0.1/RejectNullifier/");
    NullifierFields(VoteTag, salt, id, index, hash, x);
    NullifierFields(RejectTag, salt, id, index, hash, x);
  }

  lemma ActionHashLayout(env: Env, a: ProposalAction, x: Bytes)
    requires |x| >= 32
    ensures x == ActionPreimage(a) <==> Tagged(x, "/PMS/v0.1/ActionHash/") && x[32..] == EncodeAction(a)
    ensures x == ActionPreimage(a) ==> ActionHash(env, a) == env.sha(x)
  {
    hide Tagged, Dst, EncodeAction;
    TagLayout(ActionTag, x, "/PMS/v0.1/ActionHash/");
    assert x == x[..32] + x[32..];
    Parts(Dst(ActionTag), EncodeAction(a));
  }

  lemma FlattenTwo(a: Bytes32, b: Bytes32)
    ensures Flatten([a, b]) == a + b
  {
    assert [a, b][..1] == [a] && [a][..0] == [];
    assert Flatten([a]) == Flatten([]) + a == a;
  }

  lemma FlattenThree(a: Bytes32, b: Bytes32, c: Bytes32)
    ensures Flatten([a, b, c]) == (a + b) + c
  {
    assert [a, b, c][..2] == [a, b];
    FlattenTwo(a, b);
  }

  /** State and vault seeds are the tag and the create key; the address is what the platform derives from their hash. */
  lemma KeyAddressLayout(env: Env, createKey: Bytes32, x: Bytes)
    requires |x| == 64 && x[32..64] == createKey
    ensures Tagged(x, "pms_state") ==> Address(env, StateOf(createKey)) == env.pda(env.programId, env.sha(x))
    ensures Tagged(x, "pms_vault") ==> Address(env, VaultOf(createKey)) == env.pda(env.programId, env.sha(x))
    ensures Tagged(x, "pms_state") ==> CombineSeeds(env, StateSeeds(createKey)) == env.sha(x)
  {
    hide Tagged, Dst, Flatten;
    TagLayout(StateTag, x, "pms_state");
    TagLayout(VaultTag, x, "pms_vault");
    FlattenTwo(Dst(StateTag), createKey);
    FlattenTwo(Dst(VaultTag), createKey);
    assert x == x[..32] + x[32..64];
  }

  /** Proposal seeds are the tag, the create key, and the index in eight bytes before 24 zeros. */
  lemma ProposalAddressLayout(env: Env, createKey: Bytes32, index: u64, x: Bytes)
    requires |x| == 96 && Tagged(x, "pms_proposal") && x[32..64] == createKey && x[64..72] == ToLE(index, 8)
    requires forall i :: 72 <= i < 96 ==> x[i] == 0
    ensures Address(env, ProposalOf(createKey, index)) == env.pda(env.programId, env.sha(x))
    ensures CombineSeeds(env, ProposalSeeds(createKey, index)) == env.sha(x)
  {
    hide Tagged, Dst, Flatten, ToLE;
    TagLayout(ProposalTag, x, "pms_proposal");
    FlattenThree(Dst(ProposalTag), createKey, SeedU64(index));
    assert x[72..96] == seq(24, _ => 0);
    Cut(x, 64, 72, 96);
    ThreeSlices(x);
    Assoc(x[0..32], x[32..64], x[64..96]);
    assert x[0..32] == x[..32];
  }
}
