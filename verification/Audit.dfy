/** The audit tool: from the key of a stored ciphertext and a chain id alone, find
    the object and its proof, check the object's hash, verify the proof again and
    compare. A store is what each path holds; a failed read is an empty path. */
module Audit {
  import opened Common
  import opened Hex
  import opened Bincode
  import opened Paths
  import opened Signing
  import opened Batch
  import opened Storage

  type Store = Bytes -> Option<Bytes>

  /** Deserialising proof bytes, if they are a proof, into what verifies against
      metadata. */
  type Replay = Bytes -> Option<Prover>

  datatype AuditError =
    | NotHex
    | NotAHash
    | NotFound
    | CorruptCiphertext
    | HashMismatch
    | ProofMissing
    | CorruptProof
    | SlicePanics
    | BadProof
    | BadAccount
    | BadContract
    | ReplayFailed
    | NoSuchIndex

  datatype Audited = Audited(metadata: CtMetadata, ctHashMatches: bool)

  // ----- finding the ciphertext ---------------------------------------------

  function CtPath(prefix: Bytes, ctHash: Bytes, chainId: u32, zone: byte): Bytes {
    ObjectPath(prefix, chainId, zone, CTS_TYPE, ctHash)
  }

  /** `prefix` is the newest one with an object for the key, and holds `data` there. */
  predicate Newest(store: Store, ctHash: Bytes, chainId: u32, zone: byte, prefix: Bytes, data: Bytes) {
    exists k :: 0 <= k < |STORAGE_PREFIXES| && STORAGE_PREFIXES[k] == prefix
                && store(CtPath(prefix, ctHash, chainId, zone)) == Some(data)
                && forall j :: 0 <= j < k ==> store(CtPath(STORAGE_PREFIXES[j], ctHash, chainId, zone)).None?
  }

  ghost predicate StartsCiphertext(data: Bytes, o: StoredCiphertext) {
    exists rest :: data == PutCiphertext(o, rest)
  }

  /** The newest object for the key is `o`, under `prefix`. */
  ghost predicate NewestIs(store: Store, ctHash: Bytes, chainId: u32, zone: byte, prefix: Bytes, o: StoredCiphertext) {
    exists data :: Newest(store, ctHash, chainId, zone, prefix, data) && StartsCiphertext(data, o)
  }

  /** No prefix has an object for the key. */
  predicate NothingStored(store: Store, ctHash: Bytes, chainId: u32, zone: byte) {
    forall prefix :: prefix in STORAGE_PREFIXES ==> store(CtPath(prefix, ctHash, chainId, zone)).None?
  }

  function ReadAs(data: Bytes, prefix: Bytes): Result<(StoredCiphertext, Bytes), AuditError> {
    match GetCiphertext(data)
    case Some(o) => Ok((o, prefix))
    case None => Err(CorruptCiphertext)
  }

  /** The first of `prefixes` with an object decides, readable or not. */
  function FetchUnder(store: Store, prefixes: seq<Bytes>, ctHash: Bytes, chainId: u32, zone: byte)
    : Result<(StoredCiphertext, Bytes), AuditError>
  {
    if prefixes == [] then Err(NotFound)
    else
      match store(CtPath(prefixes[0], ctHash, chainId, zone))
      case None => FetchUnder(store, prefixes[1..], ctHash, chainId, zone)
      case Some(data) => ReadAs(data, prefixes[0])
  }

  lemma NewestCases(store: Store, ctHash: Bytes, chainId: u32, zone: byte, prefix: Bytes, data: Bytes)
    ensures var current := store(CtPath(WRITTEN_PREFIX, ctHash, chainId, zone));
            var old_ := store(CtPath(OLD_PREFIX, ctHash, chainId, zone));
            Newest(store, ctHash, chainId, zone, prefix, data)
            <==> || (prefix == WRITTEN_PREFIX && current == Some(data))
                 || (prefix == OLD_PREFIX && current.None? && old_ == Some(data))
  {
    hide CtPath;
    TypesDiffer();
    assert STORAGE_PREFIXES[0] == WRITTEN_PREFIX && STORAGE_PREFIXES[1] == OLD_PREFIX;
  }

  lemma FetchCases(store: Store, ctHash: Bytes, chainId: u32, zone: byte)
    ensures var current := store(CtPath(WRITTEN_PREFIX, ctHash, chainId, zone));
            var old_ := store(CtPath(OLD_PREFIX, ctHash, chainId, zone));
            FetchUnder(store, STORAGE_PREFIXES, ctHash, chainId, zone)
            == if current.Some? then ReadAs(current.value, WRITTEN_PREFIX)
               else if old_.Some? then ReadAs(old_.value, OLD_PREFIX)
               else Err(NotFound)
  {
    hide CtPath, GetCiphertext;
    assert STORAGE_PREFIXES[1..] == [OLD_PREFIX] && [OLD_PREFIX][1..] == [];
    assert FetchUnder(store, [], ctHash, chainId, zone) == Err(NotFound);
    assert FetchUnder(store, [OLD_PREFIX], ctHash, chainId, zone)
        == var old_ := store(CtPath(OLD_PREFIX, ctHash, chainId, zone));
           if old_.Some? then ReadAs(old_.value, OLD_PREFIX) else Err(NotFound);
  }

  lemma NewestIsFetched(store: Store, ctHash: Bytes, chainId: u32, zone: byte, prefix: Bytes, o: StoredCiphertext)
    ensures NewestIs(store, ctHash, chainId, zone, prefix, o)
       <==> FetchUnder(store, STORAGE_PREFIXES, ctHash, chainId, zone) == Ok((o, prefix))
  {
    FetchCases(store, ctHash, chainId, zone);
    TypesDiffer();
    hide CtPath, FetchUnder, Newest, PutCiphertext;
    forall data
      ensures Newest(store, ctHash, chainId, zone, prefix, data)
         <==> || (prefix == WRITTEN_PREFIX && store(CtPath(WRITTEN_PREFIX, ctHash, chainId, zone)) == Some(data))
              || (prefix == OLD_PREFIX && store(CtPath(WRITTEN_PREFIX, ctHash, chainId, zone)).None?
                  && store(CtPath(OLD_PREFIX, ctHash, chainId, zone)) == Some(data))
      ensures StartsCiphertext(data, o) <==> GetCiphertext(data) == Some(o)
    {
      NewestCases(store, ctHash, chainId, zone, prefix, data);
      ReadsCiphertext(data, o);
    }
    hide GetCiphertext, StartsCiphertext;
  }

  /** A fetch finds exactly the newest object, fails for want of one only if no
      prefix has any, and otherwise because the newest is not a ciphertext object. */
  lemma FetchOutcome(store: Store, ctHash: Bytes, chainId: u32, zone: byte)
    ensures var r := FetchUnder(store, STORAGE_PREFIXES, ctHash, chainId, zone);
            && (forall prefix, o :: NewestIs(store, ctHash, chainId, zone, prefix, o) <==> r == Ok((o, prefix)))
            && (r == Err(NotFound) <==> NothingStored(store, ctHash, chainId, zone))
            && (r.Err? ==> r.error == NotFound || r.error == CorruptCiphertext)
  {
    var r := FetchUnder(store, STORAGE_PREFIXES, ctHash, chainId, zone);
    FetchCases(store, ctHash, chainId, zone);
    TypesDiffer();
    hide CtPath, FetchUnder, GetCiphertext, Newest, StartsCiphertext;
    forall prefix, o
      ensures NewestIs(store, ctHash, chainId, zone, prefix, o) <==> r == Ok((o, prefix))
    {
      NewestIsFetched(store, ctHash, chainId, zone, prefix, o);
    }
  }

  method FetchCiphertext(store: Store, ctHash: Bytes, chainId: u32, zone: byte)
    returns (r: Result<(StoredCiphertext, Bytes), AuditError>)
    requires CharBoundary(Strip0x(ctHash), SHARD_PREFIX_LENGTH)
    ensures forall prefix, o :: NewestIs(store, ctHash, chainId, zone, prefix, o) <==> r == Ok((o, prefix))
    ensures r == Err(NotFound) <==> NothingStored(store, ctHash, chainId, zone)
    ensures r == FetchUnder(store, STORAGE_PREFIXES, ctHash, chainId, zone)
  {
    FetchOutcome(store, ctHash, chainId, zone);
    hide NewestIs, NothingStored;
    for i := 0 to |STORAGE_PREFIXES|
      invariant FetchUnder(store, STORAGE_PREFIXES, ctHash, chainId, zone)
             == FetchUnder(store, STORAGE_PREFIXES[i..], ctHash, chainId, zone)
    {
      var prefix := STORAGE_PREFIXES[i];
      var basePath := BasePath(prefix, chainId, zone, CTS_TYPE);
      var objectPath := GenerateObjectKey(ctHash, Some(basePath), None);
      var data := store(objectPath);
      assert STORAGE_PREFIXES[i..][1..] == STORAGE_PREFIXES[i + 1..];
      if data.Some? {
        var o := GetCiphertext(data.value);
        return if o.Some? then Ok((o.value, prefix)) else Err(CorruptCiphertext);
      }
    }
    r := Err(NotFound);
  }

  // ----- fetching the proof -------------------------------------------------

  lemma HeadOfSlice(s: Bytes, at: nat)
    requires Utf8Head(s) > 0 && 0 < at <= |s|
    ensures Utf8Head(s[..at]) == if at < Utf8Head(s) then 0 else Utf8Head(s)
    ensures CharBoundary(s, 0)
    ensures at < Utf8Head(s) ==> !CharBoundary(s, at)
  {
  }

  lemma SliceOfRest<T>(s: seq<T>, n: nat, at: nat)
    requires n <= at <= |s|
    ensures s[..at][n..] == s[n..][..at - n]
  {
  }

  /** Of a text, slicing panics exactly where the part in front would be none. */
  lemma {:induction false} SliceKeepsText(s: Bytes, at: nat)
    requires ValidUtf8(s) && at <= |s|
    ensures CharBoundary(s, at) <==> ValidUtf8(s[..at])
    decreases |s|
  {
    if at > 0 {
      HeadOfSlice(s, at);
      var n := Utf8Head(s);
      if n <= at {
        SliceOfRest(s, n, at);
        SliceKeepsText(s[n..], at - n);
      }
      hide Utf8Head;
    } else if s != [] {
      HeadOfSlice(s, 1);
    }
  }

  /** The proof id comes from the object read: one with a multi-byte character
      across its fourth byte makes the path's slice panic. */
  function FetchedProof(store: Store, proofId: Bytes, chainId: u32, zone: byte, prefix: Bytes)
    : Result<StoredProof, AuditError>
  {
    if !CharBoundary(Strip0x(proofId), SHARD_PREFIX_LENGTH) then Err(SlicePanics)
    else
      match store(ObjectPath(prefix, chainId, zone, PROOFS_TYPE, proofId))
      case None => Err(ProofMissing)
      case Some(data) => if FromBytes(data).Some? then Ok(FromBytes(data).value) else Err(CorruptProof)
  }

  /** What fetching a proof comes to: the proof object, of either layout, that the
      bytes at its path stand for. */
  ghost predicate IsProofFetch(store: Store, proofId: Bytes, chainId: u32, zone: byte, prefix: Bytes,
                               r: Result<StoredProof, AuditError>)
  {
    var data := store(ObjectPath(prefix, chainId, zone, PROOFS_TYPE, proofId));
    if !CharBoundary(Strip0x(proofId), SHARD_PREFIX_LENGTH) then r == Err(SlicePanics)
    else if data.None? then r == Err(ProofMissing)
    else if exists o :: StandsFor(data.value, o) then r.Ok? && StandsFor(data.value, r.value)
    else r == Err(CorruptProof)
  }

  lemma FetchedProofIs(store: Store, proofId: Bytes, chainId: u32, zone: byte, prefix: Bytes)
    ensures forall r :: IsProofFetch(store, proofId, chainId, zone, prefix, r)
                        <==> r == FetchedProof(store, proofId, chainId, zone, prefix)
  {
    var data := store(ObjectPath(prefix, chainId, zone, PROOFS_TYPE, proofId));
    hide ObjectPath, StandsFor, CharBoundary;
    if data.Some? {
      forall o
        ensures FromBytes(data.value) == Some(o) <==> StandsFor(data.value, o)
      {
        FromBytesReads(data.value, o);
      }
      hide FromBytes;
    }
  }

  method FetchProof(store: Store, proofId: Bytes, chainId: u32, zone: byte, prefix: Bytes)
    returns (r: Result<StoredProof, AuditError>)
    ensures IsProofFetch(store, proofId, chainId, zone, prefix, r)
    ensures r == FetchedProof(store, proofId, chainId, zone, prefix)
  {
    FetchedProofIs(store, proofId, chainId, zone, prefix);
    hide IsProofFetch;
    if !CharBoundary(Strip0x(proofId), SHARD_PREFIX_LENGTH) {
      return Err(SlicePanics);
    }
    var basePath := BasePath(prefix, chainId, zone, PROOFS_TYPE);
    var objectPath := GenerateObjectKey(proofId, Some(basePath), None);
    var data := store(objectPath);
    if data.None? {
      return Err(ProofMissing);
    }
    var proof := FromBytes(data.value);
    r := if proof.Some? then Ok(proof.value) else Err(CorruptProof);
  }

  // ----- replaying the proof ------------------------------------------------

  predicate AllExpand(expanded: seq<Expanded>) {
    forall i :: 0 <= i < |expanded| ==> expanded[i].Ct?
  }

  /** The hashes of the expanded ciphertexts, if all of them expand. */
  function ReplayedHashes(keccak: Hash, expanded: seq<Expanded>): (r: Option<seq<Hash32>>)
    ensures r.Some? <==> AllExpand(expanded)
    ensures r.Some? ==>
              |r.value| == |expanded| && forall i :: 0 <= i < |expanded| ==> r.value[i] == keccak(expanded[i].bytes)
  {
    if expanded == [] then Some([])
    else
      var before :- ReplayedHashes(keccak, expanded[..|expanded| - 1]);
      var last := expanded[|expanded| - 1];
      if last.Ct? then Some(before + [keccak(last.bytes)]) else None
  }

  /** The account must be 20 bytes here, which the verifier does not ask; the
      contract may have any length, empty for a proof of the previous layout. */
  function Replayed(keccak: Hash, prove: Prover, account: Bytes, zone: byte, chainId: u32, contract: Bytes)
    : Result<seq<Hash32>, AuditError>
  {
    if AddressBytes(account).None? then Err(BadAccount)
    else if Decode(Strip0x(contract)).None? then Err(BadContract)
    else
      var expanded := prove(Metadata(AddressBytes(account).value, zone, chainId, Decode(Strip0x(contract)).value));
      if expanded.None? || ReplayedHashes(keccak, expanded.value).None? then Err(ReplayFailed)
      else Ok(ReplayedHashes(keccak, expanded.value).value)
  }

  method VerifyAndExtractHashes(keccak: Hash, prove: Prover, account: Bytes, zone: byte, chainId: u32,
                                contract: Bytes)
    returns (r: Result<seq<Hash32>, AuditError>)
    ensures r == Replayed(keccak, prove, account, zone, chainId, contract)
  {
    var accountBytes := Decode(Strip0x(account));
    if accountBytes.None? || |accountBytes.value| != 20 {
      return Err(BadAccount);
    }
    var contractBytes := Decode(Strip0x(contract));
    if contractBytes.None? {
      return Err(BadContract);
    }
    var metadata := ReconstructMetadata(accountBytes.value, zone, chainId, contractBytes.value);
    var proven := prove(metadata);
    if proven.None? {
      return Err(ReplayFailed);
    }
    var expander := proven.value;
    var hashes: seq<Hash32> := [];
    for i := 0 to |expander|
      invariant |hashes| == i
      invariant forall k :: 0 <= k < i ==> expander[k].Ct? && hashes[k] == keccak(expander[k].bytes)
    {
      if !expander[i].Ct? {
        return Err(ReplayFailed);
      }
      hashes := hashes + [keccak(expander[i].bytes)];
    }
    assert hashes == ReplayedHashes(keccak, expander).value;
    r := Ok(hashes);
  }

  // ----- the audit ----------------------------------------------------------

  /** The key the object's own bytes and metadata call for. */
  function ComputedKey(h: Hash32, m: CtMetadata, trivial: bool): Text {
    KeyText(AdjustHash(h, m.ctType, m.securityZone, trivial))
  }

  /** The trivial-encryption flag in a key. */
  predicate IsTrivial(ctHash: Bytes) {
    var bytes := Decode(Strip0x(ctHash));
    bytes.Some? && |bytes.value| == 32 && bytes.value[TYPE_BYTE] >= 0x80
  }

  /** The argument is 32 bytes with the high bit of byte 30 set. */
  predicate HighBit(arg: Bytes) {
    var bytes := Decode(Strip0x(arg));
    bytes.Some? && |bytes.value| == 32 && bytes.value[30] >= 128
  }

  /** `key` is `0x` and the lowercase hex of the hash but for its last two bytes, which
      are the type with its high bit replaced by the flag of the argument, and the zone. */
  ghost predicate CallsFor(key: Text, h: Hash32, ctType: byte, zone: byte, arg: Bytes) {
    exists k: Hash32 ::
      && key == Ascii("0x") + Encode(k)
      && k[..30] == h[..30] && k[30] == ctType % 128 + (if HighBit(arg) then 128 else 0) && k[31] == zone
  }

  lemma KeyIsText(key: Text, k: Hash32)
    ensures key == KeyText(k) <==> key == Ascii("0x") + Encode(k)
  {
    PrefixedText(k);
  }

  lemma SameKeyText(a: Hash32, b: Hash32)
    requires Ascii("0x") + Encode(a) == Ascii("0x") + Encode(b)
    ensures a == b
  {
    DecodeEncode(a);
    DecodeEncode(b);
    SplitAgree(Ascii("0x"), Encode(a), Ascii("0x"), Encode(b));
  }

  lemma ComputedKeyIs(h: Hash32, m: CtMetadata, arg: Bytes)
    ensures ComputedKey(h, m, IsTrivial(arg)) == m.ctHash
       <==> CallsFor(m.ctHash, h, m.ctType, m.securityZone, arg)
  {
    var trivial := IsTrivial(arg);
    var k := AdjustHash(h, m.ctType, m.securityZone, trivial);
    assert trivial == HighBit(arg);
    AdjustedIs(h, m.ctType, m.securityZone, trivial, k);
    KeyIsText(m.ctHash, k);
    hide AdjustHash, KeyText, Encode, IsTrivial, HighBit;
    if j: Hash32 :| && m.ctHash == Ascii("0x") + Encode(j)
                    && j[..30] == h[..30] && j[30] == m.ctType % 128 + (if HighBit(arg) then 128 else 0)
                    && j[31] == m.securityZone {
      AdjustedIs(h, m.ctType, m.securityZone, trivial, j);
    }
  }

  /** The object's bytes hash to what its metadata says. */
  predicate KeyFits(keccak: Hash, ctHash: Bytes, o: StoredCiphertext) {
    ComputedKey(keccak(o.ctData), o.metadata, IsTrivial(ctHash)) == o.metadata.ctHash
  }

  /** The audit up to the stored-hash check and the proof fetch. */
  function Found(keccak: Hash, store: Store, ctHash: Bytes, chainId: u32)
    : Result<(StoredCiphertext, StoredProof), AuditError>
  {
    var provided := Decode(Strip0x(ctHash));
    if provided.None? then Err(NotHex)
    else if |provided.value| != 32 then Err(NotAHash)
    else
      var (o, prefix) :- FetchUnder(store, STORAGE_PREFIXES, ctHash, chainId, provided.value[ZONE_BYTE]);
      if !KeyFits(keccak, ctHash, o) then Err(HashMismatch)
      else
        var proof :- FetchedProof(store, o.metadata.proofId, o.metadata.chainId, o.metadata.securityZone, prefix);
        Ok((o, proof))
  }

  /** The second half of an audit. */
  function ReplayResult(keccak: Hash, replay: Replay, ctHash: Bytes, m: CtMetadata, proof: StoredProof)
    : Result<Audited, AuditError>
  {
    var prove := replay(proof.proofData);
    if prove.None? then Err(BadProof)
    else
      var hashes :- Replayed(keccak, prove.value, m.accountAddr, m.securityZone, m.chainId,
                             proof.metadata.contractAddr);
      if m.ctIndex >= |hashes| then Err(NoSuchIndex)
      else Ok(Audited(m, ComputedKey(hashes[m.ctIndex], m, IsTrivial(ctHash)) == m.ctHash))
  }

  function AuditResult(keccak: Hash, replay: Replay, store: Store, ctHash: Bytes, chainId: u32)
    : Result<Audited, AuditError>
  {
    var (o, proof) :- Found(keccak, store, ctHash, chainId);
    ReplayResult(keccak, replay, ctHash, o.metadata, proof)
  }

  function WithProof(o: StoredCiphertext, proof: Result<StoredProof, AuditError>)
    : Result<(StoredCiphertext, StoredProof), AuditError>
  {
    if proof.Ok? then Ok((o, proof.value)) else Err(proof.error)
  }

  /** What is made of the object found under `prefix`: its bytes hash to its own key,
      and its proof is fetched from under the same prefix. */
  ghost predicate IsCheck(keccak: Hash, store: Store, ctHash: Bytes, prefix: Bytes, o: StoredCiphertext,
                          r: Result<(StoredCiphertext, StoredProof), AuditError>)
  {
    var m := o.metadata;
    if !CallsFor(m.ctHash, keccak(o.ctData), m.ctType, m.securityZone, ctHash) then r == Err(HashMismatch)
    else exists proof ::
      IsProofFetch(store, m.proofId, m.chainId, m.securityZone, prefix, proof) && r == WithProof(o, proof)
  }

  /** What the first half of an audit comes to, and in which order it refuses: the
      key is 32 bytes of hex; some prefix has an object for it, and the newest one
      with any holds a ciphertext object; that object's bytes hash to its own key;
      and its proof is fetched from under the same prefix. */
  ghost predicate IsFind(keccak: Hash, store: Store, ctHash: Bytes, chainId: u32,
                         r: Result<(StoredCiphertext, StoredProof), AuditError>)
  {
    var provided := Decode(Strip0x(ctHash));
    if provided.None? then r == Err(NotHex)
    else if |provided.value| != 32 then r == Err(NotAHash)
    else if NothingStored(store, ctHash, chainId, provided.value[ZONE_BYTE]) then r == Err(NotFound)
    else if forall prefix, o :: !NewestIs(store, ctHash, chainId, provided.value[ZONE_BYTE], prefix, o)
    then r == Err(CorruptCiphertext)
    else
      forall prefix, o :: NewestIs(store, ctHash, chainId, provided.value[ZONE_BYTE], prefix, o) ==>
        IsCheck(keccak, store, ctHash, prefix, o, r)
  }

  /** What the second half comes to: the proof bytes are a proof; the account is 20
      bytes of hex and the contract is hex; the proof verifies against their metadata
      and expands throughout; it has a ciphertext at the stored index; and then the
      answer is whether that ciphertext calls for the stored key. */
  ghost predicate IsReplay(keccak: Hash, replay: Replay, ctHash: Bytes, m: CtMetadata, proof: StoredProof,
                           r: Result<Audited, AuditError>)
  {
    var prove, account, contract :=
      replay(proof.proofData), AddressBytes(m.accountAddr), Decode(Strip0x(proof.metadata.contractAddr));
    if prove.None? then r == Err(BadProof)
    else if account.None? then r == Err(BadAccount)
    else if contract.None? then r == Err(BadContract)
    else
      var expanded := prove.value(Metadata(account.value, m.securityZone, m.chainId, contract.value));
      if expanded.None? || !AllExpand(expanded.value) then r == Err(ReplayFailed)
      else if m.ctIndex >= |expanded.value| then r == Err(NoSuchIndex)
      else
        && r.Ok? && r.value.metadata == m
        && (r.value.ctHashMatches
            <==> CallsFor(m.ctHash, keccak(expanded.value[m.ctIndex].bytes), m.ctType, m.securityZone, ctHash))
  }

  lemma FoundFromFetched(keccak: Hash, store: Store, ctHash: Bytes, chainId: u32, h: Hash32)
    requires Decode(Strip0x(ctHash)) == Some(h)
    ensures Found(keccak, store, ctHash, chainId)
         == match FetchUnder(store, STORAGE_PREFIXES, ctHash, chainId, h[ZONE_BYTE])
            case Err(e) => Err(e)
            case Ok((o, prefix)) =>
              if !KeyFits(keccak, ctHash, o) then Err(HashMismatch)
              else WithProof(o, FetchedProof(store, o.metadata.proofId, o.metadata.chainId,
                                             o.metadata.securityZone, prefix))
  {
    hide FetchUnder, FetchedProof, KeyFits, Decode;
  }

  lemma CheckIs(keccak: Hash, store: Store, ctHash: Bytes, chainId: u32, h: Hash32, prefix: Bytes,
                o: StoredCiphertext)
    requires Decode(Strip0x(ctHash)) == Some(h)
    requires FetchUnder(store, STORAGE_PREFIXES, ctHash, chainId, h[ZONE_BYTE]) == Ok((o, prefix))
    ensures IsCheck(keccak, store, ctHash, prefix, o, Found(keccak, store, ctHash, chainId))
  {
    var m := o.metadata;
    FoundFromFetched(keccak, store, ctHash, chainId, h);
    FetchedProofIs(store, m.proofId, m.chainId, m.securityZone, prefix);
    ComputedKeyIs(keccak(o.ctData), m, ctHash);
    hide Found, FetchUnder, FetchedProof, IsProofFetch, Decode, Strip0x, ComputedKey, IsTrivial, CallsFor;
    assert IsProofFetch(store, m.proofId, m.chainId, m.securityZone, prefix,
                        FetchedProof(store, m.proofId, m.chainId, m.securityZone, prefix));
  }

  lemma FoundIs(keccak: Hash, store: Store, ctHash: Bytes, chainId: u32)
    ensures IsFind(keccak, store, ctHash, chainId, Found(keccak, store, ctHash, chainId))
  {
    var provided := Decode(Strip0x(ctHash));
    if provided.Some? && |provided.value| == 32 {
      var zone := provided.value[ZONE_BYTE];
      FetchOutcome(store, ctHash, chainId, zone);
      FoundFromFetched(keccak, store, ctHash, chainId, provided.value);
      var fetched := FetchUnder(store, STORAGE_PREFIXES, ctHash, chainId, zone);
      hide Found, FetchUnder, NewestIs, NothingStored, FetchedProof, IsProofFetch, KeyFits, Decode, Strip0x, IsCheck;
      if fetched.Ok? {
        var (o, prefix) := fetched.value;
        CheckIs(keccak, store, ctHash, chainId, provided.value, prefix, o);
        assert NewestIs(store, ctHash, chainId, zone, prefix, o);
      }
    }
  }

  lemma FetchIsNoMismatch(store: Store, proofId: Bytes, chainId: u32, zone: byte, prefix: Bytes)
    ensures FetchedProof(store, proofId, chainId, zone, prefix) != Err(HashMismatch)
  {
    hide ObjectPath, FromBytes, CharBoundary, Strip0x;
  }

  /** When the stored-hash check fails: the newest object does not hash to its own key. */
  lemma MismatchCalls(keccak: Hash, store: Store, ctHash: Bytes, chainId: u32, h: Hash32, prefix: Bytes,
                      o: StoredCiphertext)
    requires Decode(Strip0x(ctHash)) == Some(h) && NewestIs(store, ctHash, chainId, h[31], prefix, o)
    ensures Found(keccak, store, ctHash, chainId) == Err(HashMismatch)
       <==> !CallsFor(o.metadata.ctHash, keccak(o.ctData), o.metadata.ctType, o.metadata.securityZone, ctHash)
  {
    NewestIsFetched(store, ctHash, chainId, h[31], prefix, o);
    FoundFromFetched(keccak, store, ctHash, chainId, h);
    ComputedKeyIs(keccak(o.ctData), o.metadata, ctHash);
    FetchIsNoMismatch(store, o.metadata.proofId, o.metadata.chainId, o.metadata.securityZone, prefix);
    hide Found, FetchUnder, FetchedProof, NewestIs, Decode, Strip0x, ComputedKey, IsTrivial, CallsFor;
  }

  lemma CallsForSpelled(o: StoredCiphertext, h: Hash32, ctHash: Bytes, provided: Hash32)
    requires Decode(Strip0x(ctHash)) == Some(provided)
    ensures CallsFor(o.metadata.ctHash, h, o.metadata.ctType, o.metadata.securityZone, ctHash)
       <==> exists k: Hash32 ::
              && o.metadata.ctHash == Ascii("0x") + Encode(k)
              && k[..30] == h[..30]
              && k[30] == o.metadata.ctType % 128 + (if provided[30] >= 128 then 128 else 0)
              && k[31] == o.metadata.securityZone
  {
    hide Decode, Strip0x;
  }

  /** For a readable newest object the audit ends in a hash mismatch exactly if its bytes
      do not hash to its own key. */
  ghost predicate MismatchExactly(keccak: Hash, store: Store, ctHash: Bytes, chainId: u32,
                                  r: Result<(StoredCiphertext, StoredProof), AuditError>)
  {
    var provided := Decode(Strip0x(ctHash));
    provided.Some? && |provided.value| == 32 ==>
      forall prefix, o :: NewestIs(store, ctHash, chainId, provided.value[31], prefix, o) ==>
        (r == Err(HashMismatch) <==>
           !exists k: Hash32 ::
              && o.metadata.ctHash == Ascii("0x") + Encode(k)
              && k[..30] == keccak(o.ctData)[..30]
              && k[30] == o.metadata.ctType % 128 + (if provided.value[30] >= 128 then 128 else 0)
              && k[31] == o.metadata.securityZone)
  }

  lemma MismatchIs(keccak: Hash, store: Store, ctHash: Bytes, chainId: u32)
    ensures MismatchExactly(keccak, store, ctHash, chainId, Found(keccak, store, ctHash, chainId))
  {
    hide Found, NewestIs, Decode, Strip0x, CallsFor;
    var provided := Decode(Strip0x(ctHash));
    if provided.Some? && |provided.value| == 32 {
      forall prefix, o | NewestIs(store, ctHash, chainId, provided.value[31], prefix, o)
        ensures Found(keccak, store, ctHash, chainId) == Err(HashMismatch) <==>
                  !exists k: Hash32 ::
                     && o.metadata.ctHash == Ascii("0x") + Encode(k)
                     && k[..30] == keccak(o.ctData)[..30]
                     && k[30] == o.metadata.ctType % 128 + (if provided.value[30] >= 128 then 128 else 0)
                     && k[31] == o.metadata.securityZone
      {
        MismatchCalls(keccak, store, ctHash, chainId, provided.value, prefix, o);
        CallsForSpelled(o, keccak(o.ctData), ctHash, provided.value);
      }
    }
  }

  method AdjustedKey(h: Hash32, m: CtMetadata, trivial: bool) returns (key: Text)
    ensures key == ComputedKey(h, m, trivial)
  {
    var hashArray := new byte[32](k requires 0 <= k < 32 => h[k]);
    assert hashArray[..] == h;
    AdjustHashForMetadata(hashArray, m.ctType, m.securityZone, trivial);
    key := KeyText(hashArray[..]);
  }

  method FindStored(keccak: Hash, store: Store, ctHash: Bytes, chainId: u32)
    returns (r: Result<(StoredCiphertext, StoredProof), AuditError>)
    ensures IsFind(keccak, store, ctHash, chainId, r)
    ensures MismatchExactly(keccak, store, ctHash, chainId, r)
    ensures r == Found(keccak, store, ctHash, chainId)
  {
    FoundIs(keccak, store, ctHash, chainId);
    MismatchIs(keccak, store, ctHash, chainId);
    hide IsFind, MismatchExactly, FetchUnder, FetchedProof, ComputedKey, IsProofFetch;
    var provided := Decode(Strip0x(ctHash));
    if provided.None? {
      return Err(NotHex);
    }
    if |provided.value| != 32 {
      return Err(NotAHash);
    }
    HexHasNoSlash(Strip0x(ctHash));
    var fetched := FetchCiphertext(store, ctHash, chainId, provided.value[ZONE_BYTE]);
    if fetched.Err? {
      return Err(fetched.error);
    }
    var (o, prefix) := fetched.value;
    var computed := AdjustedKey(keccak(o.ctData), o.metadata, IsTrivial(ctHash));
    if computed != o.metadata.ctHash {
      return Err(HashMismatch);
    }
    var proof := FetchProof(store, o.metadata.proofId, o.metadata.chainId, o.metadata.securityZone, prefix);
    r := if proof.Ok? then Ok((o, proof.value)) else Err(proof.error);
  }

  lemma ReplayIs(keccak: Hash, replay: Replay, ctHash: Bytes, m: CtMetadata, proof: StoredProof)
    ensures IsReplay(keccak, replay, ctHash, m, proof, ReplayResult(keccak, replay, ctHash, m, proof))
  {
    var r := ReplayResult(keccak, replay, ctHash, m, proof);
    if r.Ok? {
      var prove := replay(proof.proofData).value;
      var expanded := prove(Metadata(AddressBytes(m.accountAddr).value, m.securityZone, m.chainId,
                                     Decode(Strip0x(proof.metadata.contractAddr)).value)).value;
      ComputedKeyIs(keccak(expanded[m.ctIndex].bytes), m, ctHash);
    }
    hide ComputedKey, IsTrivial, Decode, Strip0x, Metadata, CallsFor, AddressBytes;
  }

  /** The whole audit is what the first half finds, replayed. */
  lemma AuditResultIs(keccak: Hash, replay: Replay, store: Store, ctHash: Bytes, chainId: u32)
    ensures var found, r := Found(keccak, store, ctHash, chainId), AuditResult(keccak, replay, store, ctHash, chainId);
            && (found.Err? ==> r == Err(found.error))
            && (found.Ok? ==> IsReplay(keccak, replay, ctHash, found.value.0.metadata, found.value.1, r))
  {
    hide Found, ComputedKey, IsTrivial, Decode, Strip0x, Metadata, CallsFor;
    var found := Found(keccak, store, ctHash, chainId);
    if found.Ok? {
      ReplayIs(keccak, replay, ctHash, found.value.0.metadata, found.value.1);
    }
  }

  /** The audit: what the first half finds, replayed. */
  method RunVerification(keccak: Hash, replay: Replay, store: Store, ctHash: Bytes, chainId: u32)
    returns (r: Result<Audited, AuditError>)
    ensures exists found ::
              && IsFind(keccak, store, ctHash, chainId, found)
              && (found.Err? ==> r == Err(found.error))
              && (found.Ok? ==> IsReplay(keccak, replay, ctHash, found.value.0.metadata, found.value.1, r))
    ensures r == AuditResult(keccak, replay, store, ctHash, chainId)
  {
    AuditResultIs(keccak, replay, store, ctHash, chainId);
    var found := FindStored(keccak, store, ctHash, chainId);
    hide IsFind, IsReplay, Found, ComputedKey, IsTrivial;
    if found.Err? {
      return Err(found.error);
    }
    var (o, proof) := found.value;
    var m := o.metadata;
    var prove := replay(proof.proofData);
    if prove.None? {
      return Err(BadProof);
    }
    var hashes := VerifyAndExtractHashes(keccak, prove.value, m.accountAddr, m.securityZone, m.chainId,
                                         proof.metadata.contractAddr);
    if hashes.Err? {
      return Err(hashes.error);
    }
    if m.ctIndex >= |hashes.value| {
      return Err(NoSuchIndex);
    }
    var generated := AdjustedKey(hashes.value[m.ctIndex], m, IsTrivial(ctHash));
    r := Ok(Audited(m, generated == m.ctHash));
  }
}
