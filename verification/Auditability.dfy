/** What the verifier writes, the audit tool finds: paths, keys and the stored-hash
    check. */
module Auditability {
  import opened Common
  import opened Hex
  import opened Bincode
  import opened Paths
  import opened Signing
  import opened Batch
  import opened Storage
  import opened Audit
  import P = Persist

  function StoreOf(log: seq<P.Write>): Store {
    path => P.Holds(log, path)
  }

  // ----- the reader's path --------------------------------------------------

  lemma EncodeInjective(a: Bytes, b: Bytes)
    ensures Encode(a) == Encode(b) <==> a == b
  {
    DecodeEncode(a);
    DecodeEncode(b);
  }

  predicate Lowercase(text: Bytes) {
    forall i :: 0 <= i < |text| ==> LowerHexDigit(text[i])
  }

  /** The tool accepts a key in any case, but looks where the writer wrote exactly
      when the key is spelled in lowercase. */
  lemma ReaderFindsWriterPath(arg: Bytes, h: Hash32, chainId: u32)
    requires Decode(Strip0x(arg)) == Some(h)
    ensures ObjectPath(WRITTEN_PREFIX, chainId, h[ZONE_BYTE], CTS_TYPE, arg)
         == ObjectPath(WRITTEN_PREFIX, chainId, h[ZONE_BYTE], CTS_TYPE, KeyText(h))
       <==> Lowercase(Strip0x(arg))
  {
    TypesDiffer();
    HexHasNoSlash(Strip0x(arg));
    DecodeEncode(h);
    HexHasNoSlash(Encode(h));
    PathsDistinct(WRITTEN_PREFIX, chainId, h[ZONE_BYTE], CTS_TYPE, arg,
                  WRITTEN_PREFIX, chainId, h[ZONE_BYTE], CTS_TYPE, KeyText(h));
    if Lowercase(Strip0x(arg)) {
      EncodeDecode(Strip0x(arg));
    }
  }

  /** Of the objects a verifier writes, a path names the prefix, the type, the
      chain, the zone and the hash. */
  lemma WrittenPaths(prefix: Bytes, chain1: u32, zone1: byte, type1: Bytes, arg: Bytes,
                     chain2: u32, zone2: byte, type2: Bytes, h: Hash32)
    requires prefix in STORAGE_PREFIXES && type1 in {CTS_TYPE, PROOFS_TYPE} && type2 in {CTS_TYPE, PROOFS_TYPE}
    requires NoSlash(Strip0x(arg))
    ensures ObjectPath(prefix, chain1, zone1, type1, arg)
         == ObjectPath(WRITTEN_PREFIX, chain2, zone2, type2, KeyText(h))
       <==> && prefix == WRITTEN_PREFIX && chain1 == chain2 && zone1 == zone2 && type1 == type2
            && Strip0x(arg) == Encode(h)
  {
    TypesDiffer();
    DecodeEncode(h);
    HexHasNoSlash(Encode(h));
    PathsDistinct(prefix, chain1, zone1, type1, arg, WRITTEN_PREFIX, chain2, zone2, type2, KeyText(h));
  }

  // ----- the stored-hash check ----------------------------------------------

  /** The hashes a verified request carries are those of its ciphertexts. */
  predicate WellHashed(keccak: Hash, sub: Submission) {
    sub.Sized() && forall i :: 0 <= i < |sub.cts| ==> sub.cts[i].ctHash == keccak(sub.cts[i].ctBytes)
  }

  lemma CoveredIsWellHashed(keccak: Hash, prove: Prover, account: Bytes, contract: Address, sub: Submission)
    requires sub.Sized() && Covers(keccak, prove, account, sub.zone, sub.chainId, contract, sub.cts)
    ensures WellHashed(keccak, sub)
  {
    forall i | 0 <= i < |sub.cts|
      ensures sub.cts[i].ctHash == keccak(sub.cts[i].ctBytes)
    {
      assert sub.cts[i] == Verified(keccak, ToExpanded(sub.cts[i]), sub.zone, account,
                                    sub.chainId, contract);
    }
  }

  /** The check accepts every object the verifier writes, whatever its type byte:
      the high bit lost from the key is lost from the recomputed key too, and the
      flag read from the key is never set. */
  lemma StoredHashChecks(keccak: Hash, blake3: Hash, sub: Submission, i: nat, key: Hash32)
    requires WellHashed(keccak, sub) && i < |sub.cts|
    requires key == AdjustHash(sub.cts[i].ctHash, sub.cts[i].ctType, sub.zone, false)
    ensures key[ZONE_BYTE] == sub.zone && key[TYPE_BYTE] < 0x80
    ensures var o := CtObject(blake3, sub, i);
            ComputedKey(keccak(o.ctData), o.metadata, false) == o.metadata.ctHash == KeyText(key)
  {
  }

  lemma ItemKinds(blake3: Hash, sub: Submission, item: P.Item) returns (i: nat)
    requires sub.Sized() && item in Items(blake3, sub)
    ensures i <= |sub.cts|
    ensures i < |sub.cts| ==> item == CtItem(blake3, sub, i)
    ensures i == |sub.cts| ==> item == ProofItem(blake3, sub)
  {
    hide CtItem, ProofItem;
    i :| 0 <= i < |Items(blake3, sub)| && Items(blake3, sub)[i] == item;
    if i < |sub.cts| {
      ItemAt(blake3, sub, |sub.cts|, i);
    }
  }

  // ----- stores the verifier writes to --------------------------------------

  /** Every write to `path` was made by the verifier, for one of the requests `subs`. */
  ghost predicate ServiceAt(blake3: Hash, subs: seq<Submission>, log: seq<P.Write>, path: Bytes)
    requires forall k :: 0 <= k < |subs| ==> subs[k].Sized()
  {
    forall w :: w in log && w.item.path == path ==> exists k :: 0 <= k < |subs| && w.item in Items(blake3, subs[k])
  }

  predicate AllHashed(keccak: Hash, subs: seq<Submission>) {
    forall k :: 0 <= k < |subs| ==> WellHashed(keccak, subs[k])
  }

  /** The verifier's part of the bucket. */
  predicate Ours(path: Bytes) {
    WRITTEN_PREFIX <= path || OLD_PREFIX <= path
  }

  /** Nobody but the verifier writes to its part of the bucket. */
  ghost predicate ServiceLog(keccak: Hash, blake3: Hash, subs: seq<Submission>, log: seq<P.Write>) {
    AllHashed(keccak, subs) && forall path :: Ours(path) ==> ServiceAt(blake3, subs, log, path)
  }

  lemma PathIsOurs(prefix: Bytes, chainId: u32, zone: byte, objectType: Bytes, key: Bytes)
    requires prefix in STORAGE_PREFIXES
    ensures Ours(ObjectPath(prefix, chainId, zone, objectType, key))
  {
    PathShape(prefix, chainId, zone, objectType, key);
    assert STORAGE_PREFIXES[0] == WRITTEN_PREFIX && STORAGE_PREFIXES[1] == OLD_PREFIX;
    hide ObjectPath, Decimal;
  }

  /** Where ciphertexts are kept, a path the verifier alone writes to holds a
      ciphertext object of the very key, chain and zone looked for, under the
      current prefix. */
  lemma CtAt(keccak: Hash, blake3: Hash, subs: seq<Submission>, log: seq<P.Write>, prefix: Bytes, chainId: u32,
             zone: byte, arg: Bytes)
    returns (k: nat, i: nat)
    requires AllHashed(keccak, subs) && prefix in STORAGE_PREFIXES && NoSlash(Strip0x(arg))
    requires ServiceAt(blake3, subs, log, CtPath(prefix, arg, chainId, zone))
    requires P.Holds(log, CtPath(prefix, arg, chainId, zone)).Some?
    ensures prefix == WRITTEN_PREFIX
    ensures k < |subs| && i < |subs[k].cts| && chainId == subs[k].chainId && zone == subs[k].zone
    ensures Strip0x(arg) == Strip0x(KeyOf(subs[k].cts[i], zone))
    ensures P.Holds(log, CtPath(prefix, arg, chainId, zone)) == Some(PutCiphertext(CtObject(blake3, subs[k], i), []))
  {
    hide Items, PutCiphertext, PutProof;
    TypesDiffer();
    var w := P.HeldWasWritten(log, CtPath(prefix, arg, chainId, zone));
    k :| k < |subs| && w.item in Items(blake3, subs[k]);
    var sub := subs[k];
    i := ItemKinds(blake3, sub, w.item);
    if i < |sub.cts| {
      var ct := sub.cts[i];
      WrittenPaths(prefix, chainId, zone, CTS_TYPE, arg, sub.chainId, sub.zone, CTS_TYPE,
                   AdjustHash(ct.ctHash, ct.ctType, sub.zone, false));
    } else {
      WrittenPaths(prefix, chainId, zone, CTS_TYPE, arg, sub.chainId, sub.zone, PROOFS_TYPE, blake3(sub.packed));
    }
  }

  function ProofPath(chainId: u32, zone: byte, id: Hash32): Bytes {
    ObjectPath(WRITTEN_PREFIX, chainId, zone, PROOFS_TYPE, KeyText(id))
  }

  /** The same where proofs are kept. */
  lemma ProofAt(keccak: Hash, blake3: Hash, subs: seq<Submission>, log: seq<P.Write>, chainId: u32, zone: byte,
                id: Hash32)
    returns (k: nat)
    requires AllHashed(keccak, subs) && ServiceAt(blake3, subs, log, ProofPath(chainId, zone, id))
    requires P.Holds(log, ProofPath(chainId, zone, id)).Some?
    ensures k < |subs| && chainId == subs[k].chainId && zone == subs[k].zone && blake3(subs[k].packed) == id
    ensures P.Holds(log, ProofPath(chainId, zone, id)) == Some(PutProof(ProofObject(blake3, subs[k]), []))
  {
    hide Items, PutCiphertext, PutProof;
    TypesDiffer();
    DecodeEncode(id);
    HexHasNoSlash(Encode(id));
    var w := P.HeldWasWritten(log, ProofPath(chainId, zone, id));
    k :| k < |subs| && w.item in Items(blake3, subs[k]);
    var sub := subs[k];
    var i := ItemKinds(blake3, sub, w.item);
    if i < |sub.cts| {
      var ct := sub.cts[i];
      WrittenPaths(WRITTEN_PREFIX, chainId, zone, PROOFS_TYPE, KeyText(id), sub.chainId, sub.zone, CTS_TYPE,
                   AdjustHash(ct.ctHash, ct.ctType, sub.zone, false));
    } else {
      WrittenPaths(WRITTEN_PREFIX, chainId, zone, PROOFS_TYPE, KeyText(id), sub.chainId, sub.zone, PROOFS_TYPE,
                   blake3(sub.packed));
      EncodeInjective(id, blake3(sub.packed));
    }
  }

  /** Object `i` of request `k`, with a proof stored for the same proof bytes (up to
      a blake3 collision) on the same chain and zone. */
  predicate Genuine(blake3: Hash, subs: seq<Submission>, k: nat, i: nat, p: nat, o: StoredCiphertext,
                    proof: StoredProof)
    requires forall n :: 0 <= n < |subs| ==> subs[n].Sized()
  {
    && k < |subs| && i < |subs[k].cts| && o == CtObject(blake3, subs[k], i)
    && p < |subs| && proof == ProofObject(blake3, subs[p])
    && blake3(subs[p].packed) == blake3(subs[k].packed)
    && subs[p].chainId == subs[k].chainId && subs[p].zone == subs[k].zone
  }

  /** Under the previous prefix the verifier writes nothing. */
  lemma OldPathEmpty(keccak: Hash, blake3: Hash, subs: seq<Submission>, log: seq<P.Write>, chainId: u32,
                     zone: byte, arg: Bytes)
    requires AllHashed(keccak, subs) && NoSlash(Strip0x(arg))
    requires ServiceAt(blake3, subs, log, CtPath(OLD_PREFIX, arg, chainId, zone))
    ensures P.Holds(log, CtPath(OLD_PREFIX, arg, chainId, zone)).None?
  {
    TypesDiffer();
    assert STORAGE_PREFIXES[1] == OLD_PREFIX;
    hide CtObject, PutCiphertext, CtPath;
    if P.Holds(log, CtPath(OLD_PREFIX, arg, chainId, zone)).Some? {
      var k, i := CtAt(keccak, blake3, subs, log, OLD_PREFIX, chainId, zone, arg);
    }
  }

  /** Once a written object is found, only its proof decides. */
  lemma FoundObject(keccak: Hash, blake3: Hash, store: Store, sub: Submission, i: nat, arg: Bytes)
    requires WellHashed(keccak, sub) && i < |sub.cts|
    requires Strip0x(arg) == Strip0x(KeyOf(sub.cts[i], sub.zone))
    requires store(CtPath(WRITTEN_PREFIX, arg, sub.chainId, sub.zone))
          == Some(PutCiphertext(CtObject(blake3, sub, i), []))
    ensures Found(keccak, store, arg, sub.chainId)
         == WithProof(CtObject(blake3, sub, i),
                      FetchedProof(store, KeyText(blake3(sub.packed)), sub.chainId, sub.zone, WRITTEN_PREFIX))
  {
    hide PutCiphertext, GetCiphertext, FetchedProof, CtPath, KeyText;
    var ct, o := sub.cts[i], CtObject(blake3, sub, i);
    var key := AdjustHash(ct.ctHash, ct.ctType, sub.zone, false);
    DecodeEncode(key);
    StoredHashChecks(keccak, blake3, sub, i, key);
    CiphertextReadBack(o, []);
    FetchCases(store, arg, sub.chainId, sub.zone);
    assert FetchUnder(store, STORAGE_PREFIXES, arg, sub.chainId, sub.zone) == Ok((o, WRITTEN_PREFIX));
    assert KeyFits(keccak, arg, o);
  }

  lemma FetchedProofIsGenuine(keccak: Hash, blake3: Hash, subs: seq<Submission>, log: seq<P.Write>, k: nat)
    returns (p: nat)
    requires AllHashed(keccak, subs) && k < |subs|
    requires ServiceAt(blake3, subs, log, ProofPath(subs[k].chainId, subs[k].zone, blake3(subs[k].packed)))
    ensures var r := FetchedProof(StoreOf(log), KeyText(blake3(subs[k].packed)), subs[k].chainId, subs[k].zone,
                                  WRITTEN_PREFIX);
            && (r.Err? ==> r.error == ProofMissing
                           && P.Holds(log, ProofPath(subs[k].chainId, subs[k].zone, blake3(subs[k].packed))).None?)
            && (r.Ok? ==> p < |subs| && r.value == ProofObject(blake3, subs[p])
                          && blake3(subs[p].packed) == blake3(subs[k].packed)
                          && subs[p].chainId == subs[k].chainId && subs[p].zone == subs[k].zone)
  {
    hide PutProof, FromBytes, ObjectPath, KeyText, ProofObject, Items;
    p := k;
    var sub := subs[k];
    HexKeySplits(blake3(sub.packed));
    var path := ProofPath(sub.chainId, sub.zone, blake3(sub.packed));
    if P.Holds(log, path).Some? {
      p := ProofAt(keccak, blake3, subs, log, sub.chainId, sub.zone, blake3(sub.packed));
      CurrentRoundTrip(ProofObject(blake3, subs[p]), []);
      assert P.Holds(log, path).value + [] == P.Holds(log, path).value;
    }
  }

  /** What an audit that gets past the stored-hash check has in hand. */
  ghost predicate SoundFind(blake3: Hash, subs: seq<Submission>, arg: Bytes, chainId: u32,
                            r: Result<(StoredCiphertext, StoredProof), AuditError>)
    requires forall n :: 0 <= n < |subs| ==> subs[n].Sized()
  {
    && (r.Err? ==> r.error in {NotHex, NotAHash, NotFound, ProofMissing})
    && (r.Ok? ==> && Strip0x(r.value.0.metadata.ctHash) == Strip0x(arg) && r.value.0.metadata.chainId == chainId
                  && exists k: nat, i: nat, p: nat :: Genuine(blake3, subs, k, i, p, r.value.0, r.value.1))
  }

  lemma FindAt(keccak: Hash, blake3: Hash, subs: seq<Submission>, log: seq<P.Write>, arg: Bytes, k: nat, i: nat)
    requires AllHashed(keccak, subs) && k < |subs| && i < |subs[k].cts|
    requires ServiceAt(blake3, subs, log, ProofPath(subs[k].chainId, subs[k].zone, blake3(subs[k].packed)))
    requires Strip0x(arg) == Strip0x(KeyOf(subs[k].cts[i], subs[k].zone))
    requires P.Holds(log, CtPath(WRITTEN_PREFIX, arg, subs[k].chainId, subs[k].zone))
          == Some(PutCiphertext(CtObject(blake3, subs[k], i), []))
    ensures SoundFind(blake3, subs, arg, subs[k].chainId, Found(keccak, StoreOf(log), arg, subs[k].chainId))
  {
    hide Found, FetchedProof, ProofObject, PutCiphertext, PutProof, KeyOf, ObjectPath;
    FoundObject(keccak, blake3, StoreOf(log), subs[k], i, arg);
    var p := FetchedProofIsGenuine(keccak, blake3, subs, log, k);
    var r := Found(keccak, StoreOf(log), arg, subs[k].chainId);
    if r.Ok? {
      assert Genuine(blake3, subs, k, i, p, r.value.0, r.value.1);
    }
  }

  lemma NothingFound(keccak: Hash, store: Store, arg: Bytes, chainId: u32, h: Hash32)
    requires Decode(Strip0x(arg)) == Some(h)
    requires store(CtPath(WRITTEN_PREFIX, arg, chainId, h[ZONE_BYTE])).None?
    requires store(CtPath(OLD_PREFIX, arg, chainId, h[ZONE_BYTE])).None?
    ensures Found(keccak, store, arg, chainId) == Err(NotFound)
  {
    hide CtPath;
    FetchCases(store, arg, chainId, h[ZONE_BYTE]);
  }

  /** In a bucket where only the verifier writes to its own part, however requests
      overwrite one another's objects and whatever fails halfway, the audit never
      meets an object it cannot read and its stored-hash check never fails: it finds
      an object of the chain it was asked for, stored under the very key, whose proof
      object is either a genuine one or not there (yet). */
  lemma StoredHashAlwaysPasses(keccak: Hash, blake3: Hash, subs: seq<Submission>, log: seq<P.Write>, arg: Bytes,
                               chainId: u32)
    requires ServiceLog(keccak, blake3, subs, log)
    ensures SoundFind(blake3, subs, arg, chainId, Found(keccak, StoreOf(log), arg, chainId))
  {
    hide CtObject, ProofObject, FetchUnder, FetchedProof, AdjustHash, PutCiphertext, ObjectPath, ServiceAt, Ours;
    var provided := Decode(Strip0x(arg));
    if provided.Some? && |provided.value| == 32 {
      var zone := provided.value[ZONE_BYTE];
      HexHasNoSlash(Strip0x(arg));
      assert STORAGE_PREFIXES[0] == WRITTEN_PREFIX && STORAGE_PREFIXES[1] == OLD_PREFIX;
      PathIsOurs(WRITTEN_PREFIX, chainId, zone, CTS_TYPE, arg);
      PathIsOurs(OLD_PREFIX, chainId, zone, CTS_TYPE, arg);
      if P.Holds(log, CtPath(WRITTEN_PREFIX, arg, chainId, zone)).Some? {
        var k, i := CtAt(keccak, blake3, subs, log, WRITTEN_PREFIX, chainId, zone, arg);
        PathIsOurs(WRITTEN_PREFIX, chainId, zone, PROOFS_TYPE, KeyText(blake3(subs[k].packed)));
        FindAt(keccak, blake3, subs, log, arg, k, i);
      } else {
        OldPathEmpty(keccak, blake3, subs, log, chainId, zone, arg);
        NothingFound(keccak, StoreOf(log), arg, chainId, provided.value);
      }
    }
  }
}
