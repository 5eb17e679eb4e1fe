/** The message every ciphertext is committed to, the fold over a batch, and the
    metadata a proof is bound to. keccak256 is a parameter: any function from
    bytes to 32 bytes. */
module Signing {
  import opened Common
  import opened Hex

  type Hash = Bytes -> Hash32

  /** Big-endian bytes of `x`, `w` of them. */
  function BigEndian(x: nat, w: nat): (bs: Bytes)
    ensures |bs| == w
  {
    if w == 0 then [] else BigEndian(x / 0x100, w - 1) + [x % 0x100]
  }

  lemma {:induction false} BigEndianInjective(x: nat, y: nat, w: nat)
    requires x < Pow256(w) && y < Pow256(w) && BigEndian(x, w) == BigEndian(y, w)
    ensures x == y
  {
    if w > 0 {
      SplitAgree(BigEndian(x / 0x100, w - 1), [x % 0x100], BigEndian(y / 0x100, w - 1), [y % 0x100]);
      assert [x % 0x100][0] == [y % 0x100][0];
      BigEndianInjective(x / 0x100, y / 0x100, w - 1);
    }
  }

  /** The number a big-endian byte string stands for. */
  function BigEndianValue(bs: Bytes): nat {
    if bs == [] then 0 else 0x100 * BigEndianValue(bs[..|bs| - 1]) + bs[|bs| - 1]
  }

  lemma {:induction false} BigEndianReads(x: nat, w: nat)
    requires x < Pow256(w)
    ensures BigEndianValue(BigEndian(x, w)) == x
  {
    if w > 0 {
      BigEndianReads(x / 0x100, w - 1);
      assert BigEndian(x, w)[..w - 1] == BigEndian(x / 0x100, w - 1);
    }
  }

  // ----- the message builder ------------------------------------------------

  type i32 = n: int | -0x8000_0000 <= n < 0x8000_0000
  type i64 = n: int | -TWO_63 <= n < TWO_63

  /** A value that can be added to a message: raw bytes (of a slice, an array or a
      string) or an integer of some width. */
  datatype Field =
    | Raw(bytes: Bytes)
    | U8(u8: byte)
    | U16(u16: nat)
    | U32(u32: u32)
    | U64(u64: u64)
    | I32(i32: i32)
    | I64(i64: i64)
  {
    predicate Fits() { U16? ==> u16 < 0x1_0000 }
  }

  /** Integers are big-endian, negative ones in two's complement; nothing is prefixed. */
  function FieldBytes(f: Field): Bytes {
    match f
    case Raw(bytes) => bytes
    case U8(n) => [n]
    case U16(n) => BigEndian(n, 2)
    case U32(n) => BigEndian(n, 4)
    case U64(n) => BigEndian(n, 8)
    case I32(n) => BigEndian(if n < 0 then n + TWO_32 else n, 4)
    case I64(n) => BigEndian(if n < 0 then n + TWO_64 else n, 8)
  }

  /** What the bytes of an integer say, read as a number of its width: itself, or for
      a negative one itself and the power of two past that width. */
  lemma FieldReads(f: Field)
    requires f.Fits()
    ensures match f
            case Raw(bytes) => FieldBytes(f) == bytes
            case U8(n) => FieldBytes(f) == [n]
            case U16(n) => |FieldBytes(f)| == 2 && BigEndianValue(FieldBytes(f)) == n
            case U32(n) => |FieldBytes(f)| == 4 && BigEndianValue(FieldBytes(f)) == n
            case U64(n) => |FieldBytes(f)| == 8 && BigEndianValue(FieldBytes(f)) == n
            case I32(n) => |FieldBytes(f)| == 4
                           && BigEndianValue(FieldBytes(f)) == n + if n < 0 then 0x1_0000_0000 else 0
            case I64(n) => |FieldBytes(f)| == 8
                           && BigEndianValue(FieldBytes(f)) == n + if n < 0 then 0x1_0000_0000_0000_0000 else 0
  {
    Widths();
    assert Pow256(2) == 0x1_0000;
    hide BigEndian, BigEndianValue, Pow256;
    match f {
      case Raw(_) =>
      case U8(_) =>
      case U16(n) => BigEndianReads(n, 2);
      case U32(n) => BigEndianReads(n, 4);
      case U64(n) => BigEndianReads(n, 8);
      case I32(n) => BigEndianReads(if n < 0 then n + TWO_32 else n, 4);
      case I64(n) => BigEndianReads(if n < 0 then n + TWO_64 else n, 8);
    }
  }

  predicate SameKind(f: Field, g: Field) {
    match f
    case Raw(_) => g.Raw?
    case U8(_) => g.U8?
    case U16(_) => g.U16?
    case U32(_) => g.U32?
    case U64(_) => g.U64?
    case I32(_) => g.I32?
    case I64(_) => g.I64?
  }

  /** Of one kind and, if raw, of one length. */
  predicate SameShape(f: Field, g: Field) {
    SameKind(f, g) && (f.Raw? ==> |f.bytes| == |g.bytes|)
  }

  lemma FieldInjective(f: Field, g: Field)
    requires f.Fits() && g.Fits() && SameKind(f, g) && FieldBytes(f) == FieldBytes(g)
    ensures f == g
  {
    Widths();
    assert Pow256(2) == 0x1_0000;
    match f {
      case Raw(_) =>
      case U8(_) => assert [f.u8][0] == [g.u8][0];
      case U16(_) => BigEndianInjective(f.u16, g.u16, 2);
      case U32(_) => BigEndianInjective(f.u32, g.u32, 4);
      case U64(_) => BigEndianInjective(f.u64, g.u64, 8);
      case I32(m) =>
        var n := g.i32;
        BigEndianInjective(if m < 0 then m + TWO_32 else m, if n < 0 then n + TWO_32 else n, 4);
      case I64(m) =>
        var n := g.i64;
        BigEndianInjective(if m < 0 then m + TWO_64 else m, if n < 0 then n + TWO_64 else n, 8);
    }
  }

  /** A whole message. */
  function Packed(fs: seq<Field>): Bytes {
    if fs == [] then [] else Packed(fs[..|fs| - 1]) + FieldBytes(fs[|fs| - 1])
  }

  lemma SameShapeSameWidth(f: Field, g: Field)
    requires SameShape(f, g)
    ensures |FieldBytes(f)| == |FieldBytes(g)|
  {
  }

  lemma {:induction false} SameShapeSameLength(fs: seq<Field>, gs: seq<Field>)
    requires |fs| == |gs| && forall i :: 0 <= i < |fs| ==> SameShape(fs[i], gs[i])
    ensures |Packed(fs)| == |Packed(gs)|
  {
    if fs != [] {
      SameShapeSameWidth(fs[|fs| - 1], gs[|gs| - 1]);
      hide FieldBytes;
      SameShapeSameLength(fs[..|fs| - 1], gs[..|gs| - 1]);
    }
  }

  lemma LengthsAgree(fs: seq<Field>, gs: seq<Field>, k: nat)
    requires |fs| == |gs| > 0 && |Packed(fs)| == |Packed(gs)|
    requires forall i :: 0 <= i < |fs| && i != k ==> SameShape(fs[i], gs[i])
    ensures |Packed(fs[..|fs| - 1])| == |Packed(gs[..|gs| - 1])|
  {
    var n := |fs| - 1;
    if k >= n {
      SameShapeSameLength(fs[..n], gs[..n]);
    } else {
      SameShapeSameWidth(fs[n], gs[n]);
      hide FieldBytes;
    }
  }

  lemma PackedLast(fs: seq<Field>)
    requires fs != []
    ensures Packed(fs) == Packed(fs[..|fs| - 1]) + FieldBytes(fs[|fs| - 1])
  {
    hide FieldBytes;
  }

  /** Equal messages of one layout have equal last fields, and agree up to there. */
  lemma LastFieldAgrees(fs: seq<Field>, gs: seq<Field>, k: nat)
    requires |fs| == |gs| > 0
    requires forall i :: 0 <= i < |fs| ==> fs[i].Fits() && gs[i].Fits() && SameKind(fs[i], gs[i])
    requires forall i :: 0 <= i < |fs| && i != k ==> SameShape(fs[i], gs[i])
    requires Packed(fs) == Packed(gs)
    ensures var n := |fs| - 1; fs[n] == gs[n] && Packed(fs[..n]) == Packed(gs[..n])
  {
    var n := |fs| - 1;
    LengthsAgree(fs, gs, k);
    PackedLast(fs);
    PackedLast(gs);
    hide FieldBytes, Packed;
    SplitAgree(Packed(fs[..n]), FieldBytes(fs[n]), Packed(gs[..n]), FieldBytes(gs[n]));
    FieldInjective(fs[n], gs[n]);
  }

  /** Packing loses no information as long as at most one field, `k`, is raw bytes
      of a length not fixed beforehand, wherever it stands. */
  lemma {:induction false} PackedInjective(fs: seq<Field>, gs: seq<Field>, k: nat)
    requires |fs| == |gs| && forall i :: 0 <= i < |fs| ==> fs[i].Fits() && gs[i].Fits() && SameKind(fs[i], gs[i])
    requires forall i :: 0 <= i < |fs| && i != k ==> SameShape(fs[i], gs[i])
    ensures Packed(fs) == Packed(gs) <==> fs == gs
  {
    if fs != [] && Packed(fs) == Packed(gs) {
      var n := |fs| - 1;
      LastFieldAgrees(fs, gs, k);
      hide Packed;
      PackedInjective(fs[..n], gs[..n], k);
      assert fs == fs[..n] + [fs[n]] && gs == gs[..n] + [gs[n]];
    }
  }

  class SigningMessageBuilder {
    var buffer: Bytes

    constructor ()
      ensures buffer == []
    {
      buffer := [];
    }

    method Add(value: Field)
      modifies this
      ensures buffer == old(buffer) + FieldBytes(value)
    {
      match value {
        case Raw(bytes) => buffer := buffer + bytes;
        case U8(n) => buffer := buffer + [n];
        case _ => buffer := buffer + FieldBytes(value);
      }
    }

    method BuildHash(keccak: Hash) returns (h: Hash32)
      ensures h == keccak(buffer)
    {
      h := keccak(buffer);
    }
  }

  // ----- packed pre-images --------------------------------------------------

  /** The chain id as a 32-byte big-endian integer. */
  function ChainWord(chainId: u32): (bs: Bytes)
    ensures |bs| == 32
  {
    BigEndian(chainId, 32)
  }

  lemma {:induction false} BigEndianZero(w: nat)
    ensures forall k :: 0 <= k < w ==> BigEndian(0, w)[k] == 0
  {
    if w > 0 {
      BigEndianZero(w - 1);
    }
  }

  lemma ChainWordPadded(chainId: u32)
    ensures forall k :: 0 <= k < 28 ==> ChainWord(chainId)[k] == 0
    ensures ChainWord(chainId)[28..] == BigEndian(chainId, 4)
  {
    var x1, x2, x3, x4 := chainId / 0x100, chainId / 0x100 / 0x100, chainId / 0x100 / 0x100 / 0x100,
                          chainId / 0x100 / 0x100 / 0x100 / 0x100;
    assert x4 == 0;
    BigEndianZero(28);
    assert BigEndian(x3, 29) == BigEndian(0, 28) + BigEndian(x3, 1);
    assert BigEndian(x2, 30) == BigEndian(0, 28) + BigEndian(x2, 2);
    assert BigEndian(x1, 31) == BigEndian(0, 28) + BigEndian(x1, 3);
    assert BigEndian(chainId, 32) == BigEndian(0, 28) + BigEndian(chainId, 4);
  }

  /** Byte by byte: the highest first. */
  lemma HighestFirst(x: nat)
    ensures BigEndian(x, 4) == [x / 0x100_0000 % 0x100, x / 0x1_0000 % 0x100, x / 0x100 % 0x100, x % 0x100]
  {
    var x1, x2, x3 := x / 0x100, x / 0x1_0000, x / 0x100_0000;
    assert x1 / 0x100 == x2 && x2 / 0x100 == x3;
    assert BigEndian(x3, 1) == BigEndian(x3 / 0x100, 0) + [x3 % 0x100];
    assert BigEndian(x2, 2) == BigEndian(x3, 1) + [x2 % 0x100];
    assert BigEndian(x1, 3) == BigEndian(x2, 2) + [x1 % 0x100];
    assert BigEndian(x, 4) == BigEndian(x1, 3) + [x % 0x100];
    hide BigEndian;
  }

  lemma ChainWordReads(chainId: u32)
    ensures BigEndianValue(ChainWord(chainId)) == chainId
  {
    Widths();
    PowGrows(4, 32);
    BigEndianReads(chainId, 32);
  }

  lemma PaddedIsChainWord(chainId: u32, word: Bytes)
    requires |word| == 32 && word[28..] == BigEndian(chainId, 4) && forall k :: 0 <= k < 28 ==> word[k] == 0
    ensures word == ChainWord(chainId)
  {
    hide ChainWord, BigEndian;
    ChainWordPadded(chainId);
    assert word == word[..28] + word[28..] && ChainWord(chainId) == ChainWord(chainId)[..28] + ChainWord(chainId)[28..];
  }

  lemma LastFour(chainId: u32, word: Bytes)
    requires |word| == 32 && word[28..] == BigEndian(chainId, 4)
    ensures word[28] == chainId / 0x100_0000 && word[29] == chainId / 0x1_0000 % 0x100
    ensures word[30] == chainId / 0x100 % 0x100 && word[31] == chainId % 0x100
  {
    hide BigEndian;
    HighestFirst(chainId);
    assert word[28..][0] == word[28] && word[28..][1] == word[29] && word[28..][2] == word[30];
    assert word[28..][3] == word[31];
  }

  method PadChainId(chainId: u32) returns (word: Bytes)
    ensures word == ChainWord(chainId)
    ensures |word| == 32 && forall k :: 0 <= k < 28 ==> word[k] == 0
    ensures word[28] == chainId / 0x100_0000 && word[29] == chainId / 0x1_0000 % 0x100
    ensures word[30] == chainId / 0x100 % 0x100 && word[31] == chainId % 0x100
  {
    var chainIdBytes := new byte[32](_ => 0);
    var be := BigEndian(chainId, 4);
    hide BigEndian, ChainWord;
    for i := 0 to 4
      invariant forall k :: 0 <= k < 28 ==> chainIdBytes[k] == 0
      invariant forall k :: 0 <= k < i ==> chainIdBytes[28 + k] == be[k]
    {
      chainIdBytes[28 + i] := be[i];
    }
    word := chainIdBytes[..];
    assert word[28..] == be;
    PaddedIsChainWord(chainId, word);
    LastFour(chainId, word);
  }

  /** `ct_hash || ct_type || zone || account || chain_id_padded || contract` */
  function CtMessage(ctHash: Bytes, ctType: byte, zone: byte, account: Bytes, chainId: u32, contract: Bytes): Bytes {
    ctHash + ([ctType, zone] + (account + (ChainWord(chainId) + contract)))
  }

  /** Field by field, the chain as a 32-byte number, and nothing else. */
  lemma MessageLayout(ctHash: Bytes, ctType: byte, zone: byte, account: Bytes, chainId: u32, contract: Bytes)
    ensures var message := CtMessage(ctHash, ctType, zone, account, chainId, contract);
            var z := |ctHash| + 1;
            var n := z + 1 + |account|;
            && |message| == n + 32 + |contract|
            && message[..z - 1] == ctHash && message[z - 1] == ctType && message[z] == zone
            && message[z + 1..n] == account && BigEndianValue(message[n..n + 32]) == chainId
            && message[n + 32..] == contract
  {
    ChainWordReads(chainId);
    var tail := ChainWord(chainId) + contract;
    var middle := account + tail;
    var message := CtMessage(ctHash, ctType, zone, account, chainId, contract);
    var n := |ctHash| + 2 + |account|;
    assert message[|ctHash| + 2..] == middle;
    assert message[n..] == tail;
    assert message[n..n + 32] == ChainWord(chainId);
    hide ChainWord, BigEndianValue;
  }

  /** Six fields appended in turn. */
  lemma MessageInOrder(ctHash: Bytes, ctType: byte, zone: byte, account: Bytes, word: Bytes, contract: Bytes)
    ensures [] + ctHash + [ctType] + [zone] + account + word + contract
         == ctHash + ([ctType, zone] + (account + (word + contract)))
  {
    var head := [] + ctHash + [ctType] + [zone];
    assert head == ctHash + [ctType, zone];
    ConcatAssoc(head + account, word, contract);
    ConcatAssoc(head, account, word + contract);
    ConcatAssoc(ctHash, [ctType, zone], account + (word + contract));
  }

  method CtMessageHash(keccak: Hash, ctHash: Bytes, ctType: byte, zone: byte, account: Bytes, chainId: u32,
                       contract: Bytes)
    returns (h: Hash32)
    ensures h == keccak(CtMessage(ctHash, ctType, zone, account, chainId, contract))
    ensures exists message: Bytes ::
              var z := |ctHash| + 1;
              var n := z + 1 + |account|;
              && |message| == n + 32 + |contract|
              && message[..z - 1] == ctHash && message[z - 1] == ctType && message[z] == zone
              && message[z + 1..n] == account && BigEndianValue(message[n..n + 32]) == chainId
              && message[n + 32..] == contract && h == keccak(message)
  {
    MessageLayout(ctHash, ctType, zone, account, chainId, contract);
    var chainIdBytes := PadChainId(chainId);
    var builder := new SigningMessageBuilder();
    builder.Add(Raw(ctHash));
    builder.Add(U8(ctType));
    builder.Add(U8(zone));
    builder.Add(Raw(account));
    builder.Add(Raw(chainIdBytes));
    builder.Add(Raw(contract));
    MessageInOrder(ctHash, ctType, zone, account, chainIdBytes, contract);
    assert builder.buffer == CtMessage(ctHash, ctType, zone, account, chainId, contract);
    h := builder.BuildHash(keccak);
  }

  datatype SigningError = EmptyBatch | SigningFailed

  /** The digest of a batch: the hash of its message hashes, in order. */
  function FoldDigest(keccak: Hash, hashes: seq<Hash32>): Hash32 {
    keccak(Flat(hashes))
  }

  /** The hashes stand one after the other, 32 bytes each. */
  lemma {:induction false} HashesInFlat(hashes: seq<Hash32>)
    ensures |Flat(hashes)| == 32 * |hashes|
    ensures forall i :: 0 <= i < |hashes| ==> Flat(hashes)[32 * i..32 * i + 32] == hashes[i]
  {
    if hashes != [] {
      var rest := hashes[1..];
      HashesInFlat(rest);
      forall i | 0 < i < |hashes|
        ensures Flat(hashes)[32 * i..32 * i + 32] == hashes[i]
      {
        assert Flat(rest)[32 * (i - 1)..32 * (i - 1) + 32] == rest[i - 1];
      }
    }
  }

  /** `sign` is the prehash signer, which may itself fail. */
  method SignBatch<S>(keccak: Hash, sign: Hash32 -> Result<S, SigningError>, hashes: seq<Hash32>)
    returns (r: Result<S, SigningError>)
    ensures hashes == [] ==> r == Err(EmptyBatch)
    ensures hashes != [] ==> r == sign(FoldDigest(keccak, hashes))
    ensures hashes != [] ==>
              exists message: Bytes ::
                && |message| == 32 * |hashes|
                && (forall i :: 0 <= i < |hashes| ==> message[32 * i..32 * i + 32] == hashes[i])
                && r == sign(keccak(message))
  {
    HashesInFlat(hashes);
    if |hashes| == 0 {
      return Err(EmptyBatch);
    }
    var builder := new SigningMessageBuilder();
    for i := 0 to |hashes|
      invariant builder.buffer == Flat(hashes[..i])
    {
      FlatSnoc(hashes[..i], hashes[i]);
      assert hashes[..i + 1] == hashes[..i] + [hashes[i]];
      builder.Add(Raw(hashes[i]));
    }
    assert hashes[..|hashes|] == hashes;
    var batchHash := builder.BuildHash(keccak);
    r := sign(batchHash);
  }

  /** `zone || account || chain_id_padded || contract`: what a proof is bound to. */
  function Metadata(account: Bytes, zone: byte, chainId: u32, contract: Bytes): Bytes {
    [zone] + (account + (ChainWord(chainId) + contract))
  }

  lemma MetadataLayout(account: Bytes, zone: byte, chainId: u32, contract: Bytes)
    ensures var metadata, n := Metadata(account, zone, chainId, contract), |account| + 1;
            && |metadata| == n + 32 + |contract|
            && metadata[0] == zone && metadata[1..n] == account
            && BigEndianValue(metadata[n..n + 32]) == chainId && metadata[n + 32..] == contract
  {
    ChainWordReads(chainId);
    var tail := ChainWord(chainId) + contract;
    var metadata, n := Metadata(account, zone, chainId, contract), |account| + 1;
    assert metadata[n..] == tail;
    assert metadata[n..n + 32] == ChainWord(chainId);
    hide ChainWord, BigEndianValue;
  }

  /** Field by field: the zone, the account, the chain as a 32-byte number, the contract,
      and nothing else. */
  method ReconstructMetadata(account: Bytes, zone: byte, chainId: u32, contract: Bytes) returns (metadata: Bytes)
    ensures metadata == Metadata(account, zone, chainId, contract)
    ensures var n := |account| + 1;
            && |metadata| == n + 32 + |contract|
            && metadata[0] == zone && metadata[1..n] == account
            && BigEndianValue(metadata[n..n + 32]) == chainId && metadata[n + 32..] == contract
  {
    MetadataLayout(account, zone, chainId, contract);
    var chainIdBytes := PadChainId(chainId);
    metadata := [];
    metadata := metadata + [zone];
    metadata := metadata + account;
    metadata := metadata + chainIdBytes;
    metadata := metadata + contract;
    assert metadata == [zone] + (account + (chainIdBytes + contract));
  }

  // ----- unique decodability ------------------------------------------------

  lemma ChainWordInjective(c: u32, d: u32)
    ensures ChainWord(c) == ChainWord(d) ==> c == d
  {
    if ChainWord(c) == ChainWord(d) {
      ChainWordPadded(c);
      ChainWordPadded(d);
      Widths();
      BigEndianInjective(c, d, 4);
    }
  }

  /** Accounts of any length: the fixed-width tail is cut off from the end. */
  lemma AccountTailInjective(acc1: Bytes, chain1: u32, contract1: Bytes, acc2: Bytes, chain2: u32, contract2: Bytes)
    requires |contract1| == |contract2|
    requires acc1 + (ChainWord(chain1) + contract1) == acc2 + (ChainWord(chain2) + contract2)
    ensures acc1 == acc2 && chain1 == chain2 && contract1 == contract2
  {
    var tail1, tail2 := ChainWord(chain1) + contract1, ChainWord(chain2) + contract2;
    assert |acc1| == |acc1 + tail1| - |tail1| == |acc2 + tail2| - |tail2| == |acc2|;
    SplitAgree(acc1, tail1, acc2, tail2);
    SplitAgree(ChainWord(chain1), contract1, ChainWord(chain2), contract2);
    ChainWordInjective(chain1, chain2);
  }

  lemma CtMessageInjective(h1: Bytes, t1: byte, z1: byte, a1: Bytes, c1: u32, k1: Bytes,
                           h2: Bytes, t2: byte, z2: byte, a2: Bytes, c2: u32, k2: Bytes)
    requires |h1| == |h2| && |k1| == |k2|
    ensures CtMessage(h1, t1, z1, a1, c1, k1) == CtMessage(h2, t2, z2, a2, c2, k2)
       <==> h1 == h2 && t1 == t2 && z1 == z2 && a1 == a2 && c1 == c2 && k1 == k2
  {
    if CtMessage(h1, t1, z1, a1, c1, k1) == CtMessage(h2, t2, z2, a2, c2, k2) {
      var r1, r2 := a1 + (ChainWord(c1) + k1), a2 + (ChainWord(c2) + k2);
      SplitAgree(h1, [t1, z1] + r1, h2, [t2, z2] + r2);
      SplitAgree([t1, z1], r1, [t2, z2], r2);
      assert [t1, z1][0] == [t2, z2][0] && [t1, z1][1] == [t2, z2][1];
      AccountTailInjective(a1, c1, k1, a2, c2, k2);
    }
  }

  /** Two proofs bound to the same bytes are bound to the same zone, account,
      chain and contract. */
  lemma MetadataInjective(a1: Bytes, z1: byte, c1: u32, k1: Address, a2: Bytes, z2: byte, c2: u32, k2: Address)
    ensures Metadata(a1, z1, c1, k1) == Metadata(a2, z2, c2, k2)
       <==> a1 == a2 && z1 == z2 && c1 == c2 && k1 == k2
  {
    if Metadata(a1, z1, c1, k1) == Metadata(a2, z2, c2, k2) {
      var r1, r2 := a1 + (ChainWord(c1) + k1), a2 + (ChainWord(c2) + k2);
      SplitAgree([z1], r1, [z2], r2);
      assert [z1][0] == [z2][0];
      AccountTailInjective(a1, c1, k1, a2, c2, k2);
    }
  }

  /** The 20-byte contract check is needed: with a longer contract, a chain word
      can pass from the contract to the account without changing the message or
      the proof metadata. */
  lemma ContractLengthNeeded(h: Bytes, t: byte, z: byte, chainId: u32, contract: Address)
    ensures var shifted := ChainWord(chainId) + contract;
            && CtMessage(h, t, z, [], chainId, shifted) == CtMessage(h, t, z, ChainWord(chainId), chainId, contract)
            && Metadata([], z, chainId, shifted) == Metadata(ChainWord(chainId), z, chainId, contract)
            && shifted != contract
  {
    var w := ChainWord(chainId);
    assert [] + (w + (w + contract)) == w + (w + contract);
    assert |w + contract| == 52;
  }

  /** The 32-byte ciphertext hash is needed: one byte more shifts every field after it. */
  lemma HashLengthNeeded(h: Hash32, t: byte, z: byte, first: byte, account: Bytes, chainId: u32, contract: Address)
    ensures CtMessage(h + [t], z, first, account, chainId, contract)
         == CtMessage(h, t, z, [first] + account, chainId, contract)
  {
    var tail := ChainWord(chainId) + contract;
    assert (h + [t]) + ([z, first] + (account + tail)) == h + ([t, z] + (([first] + account) + tail));
  }

  // ----- digest binding -----------------------------------------------------

  datatype BatchInputs = BatchInputs(cts: seq<(Hash32, byte)>, zone: byte, account: Bytes, chainId: u32,
                                     contract: Address)

  function MessageOf(b: BatchInputs, i: nat): Bytes
    requires i < |b.cts|
  {
    CtMessage(b.cts[i].0, b.cts[i].1, b.zone, b.account, b.chainId, b.contract)
  }

  function MessageHash(keccak: Hash, b: BatchInputs, i: nat): Hash32
    requires i < |b.cts|
  {
    keccak(MessageOf(b, i))
  }

  function MessageHashes(keccak: Hash, b: BatchInputs): (hs: seq<Hash32>)
    ensures |hs| == |b.cts|
  {
    seq(|b.cts|, i requires 0 <= i < |b.cts| => MessageHash(keccak, b, i))
  }

  function BatchDigest(keccak: Hash, b: BatchInputs): Hash32 {
    FoldDigest(keccak, MessageHashes(keccak, b))
  }

  /** Everything hashed on the way to the digest of `b`. */
  function Preimages(keccak: Hash, b: BatchInputs): seq<Bytes> {
    [Flat(MessageHashes(keccak, b))] + seq(|b.cts|, i requires 0 <= i < |b.cts| => MessageOf(b, i))
  }

  ghost predicate NoCollision(keccak: Hash, messages: seq<Bytes>) {
    forall a, b :: a in messages && b in messages && keccak(a) == keccak(b) ==> a == b
  }

  lemma {:induction false} FoldInjective(xs: seq<Hash32>, ys: seq<Hash32>)
    requires Flat(xs) == Flat(ys)
    ensures xs == ys
  {
    assert xs != [] ==> |Flat(xs)| >= 32;
    assert ys != [] ==> |Flat(ys)| >= 32;
    if xs != [] {
      SplitAgree(xs[0], Flat(xs[1..]), ys[0], Flat(ys[1..]));
      FoldInjective(xs[1..], ys[1..]);
      assert xs == [xs[0]] + xs[1..] && ys == [ys[0]] + ys[1..];
    }
  }

  /** Two signed batches have the same digest exactly when they cover the same
      ciphertexts in the same order, for the same zone, account, chain and
      contract, unless the hash collides on one of the messages hashed. */
  lemma DigestBinding(keccak: Hash, a: BatchInputs, b: BatchInputs)
    requires a.cts != [] && b.cts != []
    requires NoCollision(keccak, Preimages(keccak, a) + Preimages(keccak, b))
    ensures BatchDigest(keccak, a) == BatchDigest(keccak, b) <==> a == b
  {
    if BatchDigest(keccak, a) == BatchDigest(keccak, b) {
      var as_, bs_ := MessageHashes(keccak, a), MessageHashes(keccak, b);
      assert Preimages(keccak, a)[0] == Flat(as_) && Preimages(keccak, b)[0] == Flat(bs_);
      FoldInjective(as_, bs_);
      forall i | 0 <= i < |a.cts|
        ensures a.cts[i] == b.cts[i]
        ensures a.zone == b.zone && a.account == b.account && a.chainId == b.chainId && a.contract == b.contract
      {
        assert as_[i] == bs_[i];
        assert Preimages(keccak, a)[i + 1] == MessageOf(a, i) && Preimages(keccak, b)[i + 1] == MessageOf(b, i);
        CtMessageInjective(a.cts[i].0, a.cts[i].1, a.zone, a.account, a.chainId, a.contract,
                           b.cts[i].0, b.cts[i].1, b.zone, b.account, b.chainId, b.contract);
      }
      assert a.cts == b.cts;
      assert a.cts[0] == b.cts[0];
    }
  }

  /** Why the empty batch is refused: its digest says nothing about anything. */
  lemma EmptyDigestBindsNothing(keccak: Hash, a: BatchInputs, b: BatchInputs)
    requires a.cts == [] && b.cts == []
    ensures BatchDigest(keccak, a) == BatchDigest(keccak, b) == keccak([])
  {
    assert MessageHashes(keccak, a) == [] && MessageHashes(keccak, b) == [];
  }
}
