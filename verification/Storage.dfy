/** What one verified batch leaves in the object store: one object for each
    ciphertext, under a key that carries its type and zone, and one for the proof. */
module Storage {
  import opened Common
  import opened Hex
  import opened Bincode
  import opened Paths
  import opened Signing
  import opened Batch
  import opened Persist

  const TYPE_BYTE := 30
  const ZONE_BYTE := 31

  /** The hash with its last two bytes given over to the type (seven bits), the
      trivial-encryption flag (the high bit) and the zone. */
  function AdjustHash(h: Hash32, ctType: byte, zone: byte, trivial: bool): Hash32 {
    h[TYPE_BYTE := ctType % 0x80 + if trivial then 0x80 else 0][ZONE_BYTE := zone]
  }

  method AdjustHashForMetadata(hash: array<byte>, ctType: byte, zone: byte, trivial: bool)
    requires hash.Length == 32
    modifies hash
    ensures hash[..] == AdjustHash(old(hash[..]), ctType, zone, trivial)
    ensures hash[..30] == old(hash[..30])
    ensures hash[30] == ctType % 128 + (if trivial then 128 else 0) && hash[31] == zone
  {
    hash[TYPE_BYTE] := ctType % 0x80;
    if trivial {
      hash[TYPE_BYTE] := hash[TYPE_BYTE] + 0x80;
    }
    hash[ZONE_BYTE] := zone;
  }

  /** Which byte says what. */
  lemma AdjustedBytes(h: Hash32, ctType: byte, zone: byte, trivial: bool)
    ensures var k := AdjustHash(h, ctType, zone, trivial);
            k[..30] == h[..30] && k[30] == ctType % 128 + (if trivial then 128 else 0) && k[31] == zone
  {
  }

  lemma AdjustedIs(h: Hash32, ctType: byte, zone: byte, trivial: bool, k: Hash32)
    ensures k == AdjustHash(h, ctType, zone, trivial)
       <==> k[..30] == h[..30] && k[30] == ctType % 128 + (if trivial then 128 else 0) && k[31] == zone
  {
    var a := AdjustHash(h, ctType, zone, trivial);
    AdjustedBytes(h, ctType, zone, trivial);
    assert a == a[..30] + [a[30], a[31]] && k == k[..30] + [k[30], k[31]];
    hide AdjustHash;
  }

  /** Exactly when two adjusted hashes coincide: two bytes of the hash and the high
      bit of the type are lost. */
  lemma AdjustedCollide(h1: Hash32, t1: byte, z1: byte, f1: bool, h2: Hash32, t2: byte, z2: byte, f2: bool)
    ensures AdjustHash(h1, t1, z1, f1) == AdjustHash(h2, t2, z2, f2)
       <==> h1[..30] == h2[..30] && t1 % 0x80 == t2 % 0x80 && z1 == z2 && f1 == f2
  {
    var a, b := AdjustHash(h1, t1, z1, f1), AdjustHash(h2, t2, z2, f2);
    assert a[..30] == h1[..30] && b[..30] == h2[..30];
    assert a == a[..30] + [a[30], a[31]] && b == b[..30] + [b[30], b[31]];
  }

  /** `0x` and the lowercase digits of a hash. */
  function KeyText(h: Hash32): (key: Text)
    ensures Strip0x(key) == Encode(h)
  {
    AsciiIsUtf8(To0x(h));
    To0x(h)
  }

  /** The key a ciphertext is stored under. The writer never sets the flag. */
  function KeyOf(ct: VerifiedCt, zone: byte): Text {
    KeyText(AdjustHash(ct.ctHash, ct.ctType, zone, false))
  }

  /** A key spelled out: `0x`, the first 30 bytes of the hash, the type without its high
      bit, and the zone, in lowercase hex. */
  lemma KeySpelled(ct: VerifiedCt, zone: byte) returns (k: Hash32)
    ensures KeyOf(ct, zone) == Ascii("0x") + Encode(k)
    ensures k[..30] == ct.ctHash[..30] && k[30] == ct.ctType % 128 && k[31] == zone
  {
    k := AdjustHash(ct.ctHash, ct.ctType, zone, false);
    AdjustedBytes(ct.ctHash, ct.ctType, zone, false);
    PrefixedText(k);
  }

  /** One verified request, as it reaches persistence. */
  datatype Submission = Submission(packed: Bytes, cts: seq<VerifiedCt>, account: Text, zone: byte, chainId: u32,
                                   contract: Text, timestamp: Text)
  {
    /** It is in memory: every length fits a word. */
    predicate Sized() {
      && |packed| < TWO_64 && |cts| < TWO_64
      && forall i :: 0 <= i < |cts| ==> |cts[i].ctBytes| < TWO_64
    }
  }

  function CtObject(blake3: Hash, sub: Submission, i: nat): StoredCiphertext
    requires sub.Sized() && i < |sub.cts|
  {
    var ct := sub.cts[i];
    StoredCiphertext(
      CtMetadata(KeyOf(ct, sub.zone), KeyText(blake3(sub.packed)), sub.account, sub.zone, sub.chainId, i, ct.ctType,
                 sub.timestamp),
      ct.ctBytes)
  }

  function KeysOf(cts: seq<VerifiedCt>, zone: byte): (keys: seq<Text>)
    ensures |keys| == |cts|
  {
    if cts == [] then [] else KeysOf(cts[..|cts| - 1], zone) + [KeyOf(cts[|cts| - 1], zone)]
  }

  function ProofObject(blake3: Hash, sub: Submission): (o: StoredProof)
    requires sub.Sized()
    ensures o.Storable()
  {
    StoredProof(
      ProofMetadata(
        LegacyProofMetadata(
          KeyText(blake3(sub.packed)), sub.account, sub.zone, sub.chainId,
          KeysOf(sub.cts, sub.zone), |sub.cts|, sub.timestamp),
        sub.contract),
      sub.packed)
  }

  function CtItem(blake3: Hash, sub: Submission, i: nat): Item
    requires sub.Sized() && i < |sub.cts|
  {
    Item(ObjectPath(WRITTEN_PREFIX, sub.chainId, sub.zone, CTS_TYPE, KeyOf(sub.cts[i], sub.zone)),
         PutCiphertext(CtObject(blake3, sub, i), []))
  }

  function ProofItem(blake3: Hash, sub: Submission): Item
    requires sub.Sized()
  {
    Item(ObjectPath(WRITTEN_PREFIX, sub.chainId, sub.zone, PROOFS_TYPE, KeyText(blake3(sub.packed))),
         PutProof(ProofObject(blake3, sub), []))
  }

  /** The objects of the first `n` ciphertexts. */
  function CtItems(blake3: Hash, sub: Submission, n: nat): (items: seq<Item>)
    requires sub.Sized() && n <= |sub.cts|
    ensures |items| == n
  {
    if n == 0 then [] else CtItems(blake3, sub, n - 1) + [CtItem(blake3, sub, n - 1)]
  }

  /** The n+1 uploads of a request. */
  function Items(blake3: Hash, sub: Submission): (items: seq<Item>)
    requires sub.Sized()
    ensures |items| == |sub.cts| + 1
  {
    CtItems(blake3, sub, |sub.cts|) + [ProofItem(blake3, sub)]
  }

  lemma {:induction false} ItemAt(blake3: Hash, sub: Submission, n: nat, i: nat)
    requires sub.Sized() && i < n <= |sub.cts|
    ensures CtItems(blake3, sub, n)[i] == CtItem(blake3, sub, i)
  {
    hide CtItem;
    if i < n - 1 {
      ItemAt(blake3, sub, n - 1, i);
    }
  }

  /** What the object written for a ciphertext reads back as, field by field. */
  lemma StoredCiphertextIs(blake3: Hash, sub: Submission, i: nat) returns (o: StoredCiphertext, k: Hash32)
    requires sub.Sized() && i < |sub.cts|
    ensures k[..30] == sub.cts[i].ctHash[..30] && k[30] == sub.cts[i].ctType % 128 && k[31] == sub.zone
    ensures GetCiphertext(CtItem(blake3, sub, i).data) == Some(o)
    ensures && o.ctData == sub.cts[i].ctBytes
            && o.metadata.ctHash == Ascii("0x") + Encode(k)
            && o.metadata.proofId == Ascii("0x") + Encode(blake3(sub.packed))
            && o.metadata.accountAddr == sub.account && o.metadata.securityZone == sub.zone
            && o.metadata.chainId == sub.chainId && o.metadata.ctIndex == i
            && o.metadata.ctType == sub.cts[i].ctType && o.metadata.timestamp == sub.timestamp
    ensures CtItem(blake3, sub, i).path == ObjectPath(WRITTEN_PREFIX, sub.chainId, sub.zone, CTS_TYPE,
                                                      Ascii("0x") + Encode(k))
  {
    k := KeySpelled(sub.cts[i], sub.zone);
    PrefixedText(blake3(sub.packed));
    o := CtObject(blake3, sub, i);
    CiphertextReadBack(o, []);
    hide PutCiphertext, GetCiphertext, ObjectPath, KeyOf, Encode;
  }

  lemma {:induction false} KeysAre(cts: seq<VerifiedCt>, zone: byte, i: nat)
    requires i < |cts|
    ensures KeysOf(cts, zone)[i] == KeyOf(cts[i], zone)
  {
    hide KeyOf;
    if i < |cts| - 1 {
      KeysAre(cts[..|cts| - 1], zone, i);
    }
  }

  /** What the object written for the proof reads back as: the hashes are the keys of the
      ciphertexts, in order. */
  lemma StoredProofIs(blake3: Hash, sub: Submission, i: nat) returns (o: StoredProof)
    requires sub.Sized() && i < |sub.cts|
    ensures FromBytes(ProofItem(blake3, sub).data) == Some(o)
    ensures && o.proofData == sub.packed && o.metadata.contractAddr == sub.contract
            && o.metadata.base.proofId == Ascii("0x") + Encode(blake3(sub.packed))
            && o.metadata.base.accountAddr == sub.account && o.metadata.base.securityZone == sub.zone
            && o.metadata.base.chainId == sub.chainId && o.metadata.base.timestamp == sub.timestamp
            && o.metadata.base.ctCount == |sub.cts| == |o.metadata.base.ctHashes|
            && o.metadata.base.ctHashes[i] == KeyOf(sub.cts[i], sub.zone)
  {
    PrefixedText(blake3(sub.packed));
    KeysAre(sub.cts, sub.zone, i);
    o := ProofObject(blake3, sub);
    CurrentRoundTrip(o, []);
    assert ProofItem(blake3, sub).data + [] == ProofItem(blake3, sub).data;
    hide PutProof, FromBytes, ObjectPath, KeyOf, Encode;
  }

  lemma StoredProofPath(blake3: Hash, sub: Submission)
    requires sub.Sized()
    ensures ProofItem(blake3, sub).path == ObjectPath(WRITTEN_PREFIX, sub.chainId, sub.zone, PROOFS_TYPE,
                                                      Ascii("0x") + Encode(blake3(sub.packed)))
  {
    PrefixedText(blake3(sub.packed));
    hide PutProof, ObjectPath, Encode;
  }

  function EntryOf(ct: VerifiedCt, zone: byte): Entry {
    Entry(ct.ctType, To0x(ct.ctBytes), zone)
  }

  /** The StoreCts call of a request lists every ciphertext, in order. */
  function Entries(sub: Submission): seq<Entry> {
    seq(|sub.cts|, i requires 0 <= i < |sub.cts| => EntryOf(sub.cts[i], sub.zone))
  }

  /** An entry's type, bytes and zone are those of its ciphertext. */
  lemma EntriesAre(sub: Submission)
    ensures |Entries(sub)| == |sub.cts|
    ensures forall i :: 0 <= i < |sub.cts| ==>
              && Entries(sub)[i].utype == sub.cts[i].ctType
              && Entries(sub)[i].value == Ascii("0x") + Encode(sub.cts[i].ctBytes)
              && Decode(Strip0x(Entries(sub)[i].value)) == Some(sub.cts[i].ctBytes)
              && Entries(sub)[i].securityZone == sub.zone
  {
    forall i | 0 <= i < |sub.cts|
      ensures Decode(Strip0x(Entries(sub)[i].value)) == Some(sub.cts[i].ctBytes)
      ensures Entries(sub)[i].value == Ascii("0x") + Encode(sub.cts[i].ctBytes)
    {
      DecodeEncode(sub.cts[i].ctBytes);
      PrefixedText(sub.cts[i].ctBytes);
    }
  }

  /** What StoreCts is told of a request: its chain, and for each of its ciphertexts, in
      order and no others, the type, the bytes in hex, and the zone. */
  predicate IsCallOf(sub: Submission, call: StoreCtsRequest) {
    && call.chainId == sub.chainId && |call.cts| == |sub.cts|
    && forall i :: 0 <= i < |sub.cts| ==>
         && call.cts[i].utype == sub.cts[i].ctType
         && call.cts[i].value == Ascii("0x") + Encode(sub.cts[i].ctBytes)
         && Decode(Strip0x(call.cts[i].value)) == Some(sub.cts[i].ctBytes)
         && call.cts[i].securityZone == sub.zone
  }

  /** The body of the StoreCts call, entry by entry. */
  method BuildUpdates(sub: Submission) returns (request: StoreCtsRequest)
    ensures request == StoreCtsRequest(Entries(sub), sub.chainId)
    ensures IsCallOf(sub, request)
  {
    EntriesAre(sub);
    hide Decode, Encode, Strip0x;
    var updates: seq<Entry> := [];
    for i := 0 to |sub.cts|
      invariant |updates| == i && forall k :: 0 <= k < i ==> updates[k] == EntryOf(sub.cts[k], sub.zone)
    {
      var verified := sub.cts[i];
      updates := updates + [Entry(verified.ctType, To0x(verified.ctBytes), sub.zone)];
    }
    assert updates == Entries(sub);
    request := StoreCtsRequest(updates, sub.chainId);
  }

  datatype CtDatum = CtDatum(key: Text, bytes: Bytes, ctType: byte)

  function DatumOf(ct: VerifiedCt, zone: byte): CtDatum {
    CtDatum(KeyOf(ct, zone), ct.ctBytes, ct.ctType)
  }

  ghost predicate SpellsKey(key: Text, ct: VerifiedCt, zone: byte) {
    exists k: Hash32 ::
      && key == Ascii("0x") + Encode(k)
      && k[..30] == ct.ctHash[..30] && k[30] == ct.ctType % 128 && k[31] == zone
  }

  method PrepareCts(cts: seq<VerifiedCt>, zone: byte) returns (ctData: seq<CtDatum>)
    ensures |ctData| == |cts| && forall i :: 0 <= i < |cts| ==> ctData[i] == DatumOf(cts[i], zone)
    ensures forall i :: 0 <= i < |cts| ==> ctData[i].bytes == cts[i].ctBytes && ctData[i].ctType == cts[i].ctType
    ensures forall i :: 0 <= i < |cts| ==> SpellsKey(ctData[i].key, cts[i], zone)
  {
    ctData := [];
    for i := 0 to |cts|
      invariant |ctData| == i && forall k :: 0 <= k < i ==> ctData[k] == DatumOf(cts[k], zone)
    {
      var hashArray := new byte[32](k requires 0 <= k < 32 => cts[i].ctHash[k]);
      assert hashArray[..] == cts[i].ctHash;
      AdjustHashForMetadata(hashArray, cts[i].ctType, zone, false);
      ctData := ctData + [CtDatum(KeyText(hashArray[..]), cts[i].ctBytes, cts[i].ctType)];
    }
    forall i | 0 <= i < |cts|
      ensures SpellsKey(ctData[i].key, cts[i], zone)
    {
      var k := KeySpelled(cts[i], zone);
    }
  }

  /** The chain id of the proof's path goes through its decimal form and back;
      the fallback to chain 0 is never taken. */
  method ProofChain(chainId: u32) returns (chain: u32)
    ensures chain == chainId
  {
    var parsed := ParseU32(Decimal(chainId));
    ParsePrinted(chainId);
    chain := if parsed.Some? then parsed.value else 0;
  }

  method StoreCt(key: Text, bytes: Bytes, metadata: CtMetadata, chainId: u32) returns (upload: Item)
    requires |bytes| < TWO_64 && CharBoundary(Strip0x(key), SHARD_PREFIX_LENGTH)
    ensures upload.path == ObjectPath(WRITTEN_PREFIX, chainId, metadata.securityZone, CTS_TYPE, key)
    ensures upload.data == PutCiphertext(StoredCiphertext(metadata, bytes), [])
  {
    var base := BasePath(WRITTEN_PREFIX, chainId, metadata.securityZone, CTS_TYPE);
    var path := GenerateObjectKey(key, Some(base), None);
    upload := Item(path, PutCiphertext(StoredCiphertext(metadata, bytes), []));
  }

  method StoreProof(proofId: Text, bytes: Bytes, metadata: ProofMetadata, chainId: u32) returns (upload: Item)
    requires |bytes| < TWO_64 && CharBoundary(Strip0x(proofId), SHARD_PREFIX_LENGTH)
    ensures upload.path == ObjectPath(WRITTEN_PREFIX, chainId, metadata.base.securityZone, PROOFS_TYPE, proofId)
    ensures upload.data == PutProof(StoredProof(metadata, bytes), [])
  {
    var chain := ProofChain(chainId);
    var base := BasePath(WRITTEN_PREFIX, chain, metadata.base.securityZone, PROOFS_TYPE);
    var path := GenerateObjectKey(proofId, Some(base), None);
    upload := Item(path, PutProof(StoredProof(metadata, bytes), []));
  }

  lemma HexKeySplits(h: Hash32)
    ensures CharBoundary(Strip0x(KeyText(h)), SHARD_PREFIX_LENGTH)
  {
  }

  method UploadCt(proofId: Text, blake3: Hash, sub: Submission, i: nat, datum: CtDatum) returns (upload: Item)
    requires sub.Sized() && i < |sub.cts| && datum == DatumOf(sub.cts[i], sub.zone)
    requires proofId == KeyText(blake3(sub.packed))
    ensures upload == CtItem(blake3, sub, i)
  {
    var metadata := CtMetadata(datum.key, proofId, sub.account, sub.zone, sub.chainId, i, datum.ctType, sub.timestamp);
    HexKeySplits(AdjustHash(sub.cts[i].ctHash, sub.cts[i].ctType, sub.zone, false));
    upload := StoreCt(datum.key, datum.bytes, metadata, sub.chainId);
    assert StoredCiphertext(metadata, datum.bytes) == CtObject(blake3, sub, i);
  }

  method UploadProof(proofId: Text, blake3: Hash, sub: Submission, ctHashes: seq<Text>) returns (upload: Item)
    requires sub.Sized() && proofId == KeyText(blake3(sub.packed)) && ctHashes == KeysOf(sub.cts, sub.zone)
    ensures upload == ProofItem(blake3, sub)
  {
    var metadata := ProofMetadata(
      LegacyProofMetadata(proofId, sub.account, sub.zone, sub.chainId, ctHashes, |ctHashes|, sub.timestamp),
      sub.contract);
    HexKeySplits(blake3(sub.packed));
    upload := StoreProof(proofId, sub.packed, metadata, sub.chainId);
    assert StoredProof(metadata, sub.packed) == ProofObject(blake3, sub);
  }

  lemma NothingUploaded(blake3: Hash, sub: Submission)
    requires sub.Sized()
    ensures CtItems(blake3, sub, 0) == [] && KeysOf(sub.cts[..0], sub.zone) == []
  {
  }

  lemma OneMoreUploaded(blake3: Hash, sub: Submission, i: nat)
    requires sub.Sized() && i < |sub.cts|
    ensures CtItems(blake3, sub, i + 1) == CtItems(blake3, sub, i) + [CtItem(blake3, sub, i)]
    ensures KeysOf(sub.cts[..i + 1], sub.zone) == KeysOf(sub.cts[..i], sub.zone) + [KeyOf(sub.cts[i], sub.zone)]
  {
    hide CtItem, KeyOf;
    assert sub.cts[..i + 1][..i] == sub.cts[..i];
  }

  method StoreProofAndCts(blake3: Hash, sub: Submission, ctData: seq<CtDatum>) returns (uploads: seq<Item>)
    requires sub.Sized()
    requires |ctData| == |sub.cts| && forall i :: 0 <= i < |ctData| ==> ctData[i] == DatumOf(sub.cts[i], sub.zone)
    ensures uploads == Items(blake3, sub)
  {
    hide CtItem, ProofItem, CtItems, KeysOf, Strip0x, Encode;
    var proofId := KeyText(blake3(sub.packed));
    NothingUploaded(blake3, sub);
    uploads := [];
    var ctHashes: seq<Text> := [];
    for i := 0 to |ctData|
      invariant uploads == CtItems(blake3, sub, i)
      invariant ctHashes == KeysOf(sub.cts[..i], sub.zone)
    {
      var upload := UploadCt(proofId, blake3, sub, i, ctData[i]);
      OneMoreUploaded(blake3, sub, i);
      uploads := uploads + [upload];
      ctHashes := ctHashes + [ctData[i].key];
    }
    assert sub.cts[..|ctData|] == sub.cts;
    var upload := UploadProof(proofId, blake3, sub, ctHashes);
    uploads := uploads + [upload];
  }

  /** A request under way: what it uploads and what it hands to StoreCts. */
  function PlanOf(blake3: Hash, sub: Submission, config: Retry.RetryConfig): Plan
    requires sub.Sized()
  {
    Plan(Items(blake3, sub), StoreCtsRequest(Entries(sub), sub.chainId), true, true, config, 5)
  }

  /** In every run of a request, released or not: whatever StoreCts accepts from it is the
      chain of the request and exactly its ciphertexts, in order, each with its type, its
      bytes in hex and the zone; and a release means that it has accepted that. */
  lemma AcceptedCalls(blake3: Hash, sub: Submission, config: Retry.RetryConfig, steps: seq<Step>)
    requires sub.Sized() && Run(PlanOf(blake3, sub, config), steps).Some?
    ensures forall call :: call in Run(PlanOf(blake3, sub, config), steps).value.taken ==> IsCallOf(sub, call)
    ensures var s := Run(PlanOf(blake3, sub, config), steps).value; s.answer.Released? ==> s.taken != []
  {
    var plan := PlanOf(blake3, sub, config);
    RunKeepsInv(plan, steps);
    EntriesAre(sub);
    assert IsCallOf(sub, plan.request);
    hide Run, Entries, IsCallOf, Items;
  }

  /** The endpoint's budget for StoreCts: six calls at most, and a refusal on its account
      only after all six. */
  lemma EndpointCalls(blake3: Hash, sub: Submission, config: Retry.RetryConfig, steps: seq<Step>)
    requires sub.Sized() && Run(PlanOf(blake3, sub, config), steps).Some?
    ensures var s := Run(PlanOf(blake3, sub, config), steps).value;
            s.ctsCalls <= 6 && (s.answer.Refused? && !s.external.ExtErr? ==> s.ctsCalls == 6)
  {
    var plan := PlanOf(blake3, sub, config);
    CallsBounded(plan, steps, 0);
    if Run(plan, steps).value.answer.Refused? {
      RefusedMeansFailed(plan, steps);
    }
    hide Run, Items, GivesUp, FailedWith;
  }
}
