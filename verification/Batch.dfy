/** From a request to one signed batch, and from the JSON answer back to the
    digest on the client's side. The proof system is a parameter: given the
    metadata it either refuses the proof or yields the expanded ciphertexts. */
module Batch {
  import opened Common
  import opened Hex
  import opened Signing

  datatype Expanded = Ct(ctType: byte, bytes: Bytes) | Missing | Failed

  type Prover = Bytes -> Option<seq<Expanded>>

  datatype VerifiedCt = VerifiedCt(ctBytes: Bytes, ctType: byte, ctHash: Hash32, messageHash: Hash32)

  datatype VerifyError =
    | BadAccountHex
    | BadContractHex
    | BadContractLength
    | ProofRejected
    | CannotExpand(index: nat)
    | NoCiphertext(index: nat)
    | NotSigned(error: SigningError)

  /** What the verifier makes of one expanded ciphertext. */
  function Verified(keccak: Hash, e: Expanded, zone: byte, account: Bytes, chainId: u32, contract: Bytes): VerifiedCt
    requires e.Ct?
  {
    var h := keccak(e.bytes);
    VerifiedCt(e.bytes, e.ctType, h, keccak(CtMessage(h, e.ctType, zone, account, chainId, contract)))
  }

  /** Its bytes, its type, the hash of its bytes, and the hash of the message of six
      fields that commits to them. */
  lemma VerifiedIs(keccak: Hash, e: Expanded, zone: byte, account: Bytes, chainId: u32, contract: Bytes)
    requires e.Ct?
    ensures var v := Verified(keccak, e, zone, account, chainId, contract);
            && v.ctBytes == e.bytes && v.ctType == e.ctType && v.ctHash == keccak(e.bytes)
            && exists message: Bytes ::
                 var n := 34 + |account|;
                 && |message| == n + 32 + |contract|
                 && message[..32] == keccak(e.bytes) && message[32] == e.ctType && message[33] == zone
                 && message[34..n] == account && BigEndianValue(message[n..n + 32]) == chainId
                 && message[n + 32..] == contract && v.messageHash == keccak(message)
  {
    MessageLayout(keccak(e.bytes), e.ctType, zone, account, chainId, contract);
    hide CtMessage, BigEndianValue;
  }

  method VerifyAndExpand(keccak: Hash, prove: Prover, accountAddr: Bytes, zone: byte, chainId: u32,
                         contractAddr: Bytes)
    returns (r: Result<seq<VerifiedCt>, VerifyError>)
    // Refusals, in the order they are decided.
    ensures r == Err(BadAccountHex) <==> Decode(Strip0x(accountAddr)).None?
    ensures Decode(Strip0x(accountAddr)).Some? ==>
              && (r == Err(BadContractHex) <==> Decode(Strip0x(contractAddr)).None?)
              && (r == Err(BadContractLength) <==>
                    Decode(Strip0x(contractAddr)).Some? && AddressBytes(contractAddr).None?)
    ensures Decode(Strip0x(accountAddr)).Some? && AddressBytes(contractAddr).Some? ==>
              var account, contract := Decode(Strip0x(accountAddr)).value, AddressBytes(contractAddr).value;
              var expanded := prove(Metadata(account, zone, chainId, contract));
              && (r == Err(ProofRejected) <==> expanded.None?)
              && (expanded.Some? ==>
                    && (r.Ok? <==> forall i :: 0 <= i < |expanded.value| ==> expanded.value[i].Ct?)
                    && (r.Ok? ==>
                          && |r.value| == |expanded.value|
                          && forall i :: 0 <= i < |r.value| ==>
                               r.value[i] == Verified(keccak, expanded.value[i], zone, account, chainId, contract))
                    && (r.Err? ==>
                          && (r.error.CannotExpand? || r.error.NoCiphertext?)
                          && r.error.index < |expanded.value|
                          && (r.error.CannotExpand? <==> expanded.value[r.error.index].Failed?)
                          && (r.error.NoCiphertext? <==> expanded.value[r.error.index].Missing?)
                          && forall i :: 0 <= i < r.error.index ==> expanded.value[i].Ct?))
  {
    hide CtMessage, Metadata, Decode, Strip0x, BigEndianValue;
    var accountBytes := Decode(Strip0x(accountAddr));
    if accountBytes.None? {
      return Err(BadAccountHex);
    }
    var contractBytes := Decode(Strip0x(contractAddr));
    if contractBytes.None? {
      return Err(BadContractHex);
    }
    if |contractBytes.value| != 20 {
      return Err(BadContractLength);
    }
    var metadata := ReconstructMetadata(accountBytes.value, zone, chainId, contractBytes.value);
    var proven := prove(metadata);
    if proven.None? {
      return Err(ProofRejected);
    }
    var expander := proven.value;
    var verifiedCts: seq<VerifiedCt> := [];
    for i := 0 to |expander|
      invariant |verifiedCts| == i
      invariant forall k :: 0 <= k < i ==>
        && expander[k].Ct?
        && verifiedCts[k] == Verified(keccak, expander[k], zone, accountBytes.value, chainId, contractBytes.value)
    {
      match expander[i] {
        case Failed => return Err(CannotExpand(i));
        case Missing => return Err(NoCiphertext(i));
        case Ct(ctType, ctBytes) =>
          var ctHash := keccak(ctBytes);
          var messageHash := CtMessageHash(keccak, ctHash, ctType, zone, accountBytes.value, chainId,
                                           contractBytes.value);
          verifiedCts := verifiedCts + [VerifiedCt(ctBytes, ctType, ctHash, messageHash)];
      }
    }
    r := Ok(verifiedCts);
  }

  datatype VerifiedBatch<S> = VerifiedBatch(cts: seq<VerifiedCt>, signature: S)

  function HashAndType(ct: VerifiedCt): (Hash32, byte) {
    (ct.ctHash, ct.ctType)
  }

  /** The content of a signed batch. */
  function InputsOf(cts: seq<VerifiedCt>, zone: byte, account: Bytes, chainId: u32, contract: Address): BatchInputs {
    BatchInputs(seq(|cts|, i requires 0 <= i < |cts| => HashAndType(cts[i])), zone, account, chainId, contract)
  }

  function ToExpanded(ct: VerifiedCt): (e: Expanded)
    ensures e.Ct?
  {
    Ct(ct.ctType, ct.ctBytes)
  }

  predicate Committed(keccak: Hash, cts: seq<VerifiedCt>, zone: byte, account: Bytes, chainId: u32, contract: Bytes) {
    forall i :: 0 <= i < |cts| ==>
      cts[i] == Verified(keccak, ToExpanded(cts[i]), zone, account, chainId, contract)
  }

  function ExpandedOf(cts: seq<VerifiedCt>): seq<Expanded> {
    seq(|cts|, i requires 0 <= i < |cts| => ToExpanded(cts[i]))
  }

  /** `cts` is at least one ciphertext, and all those the proof expands to under
      the metadata of this very request, in order. */
  predicate Covers(keccak: Hash, prove: Prover, account: Bytes, zone: byte, chainId: u32, contract: Address,
                   cts: seq<VerifiedCt>)
  {
    && cts != []
    && Committed(keccak, cts, zone, account, chainId, contract)
    && prove(Metadata(account, zone, chainId, contract)) == Some(ExpandedOf(cts))
  }

  function HashesOf(cts: seq<VerifiedCt>): seq<Hash32> {
    seq(|cts|, i requires 0 <= i < |cts| => cts[i].messageHash)
  }

  lemma MessageHashesOf(keccak: Hash, cts: seq<VerifiedCt>, zone: byte, account: Bytes, chainId: u32,
                        contract: Address)
    requires Committed(keccak, cts, zone, account, chainId, contract)
    ensures MessageHashes(keccak, InputsOf(cts, zone, account, chainId, contract)) == HashesOf(cts)
  {
    var b := InputsOf(cts, zone, account, chainId, contract);
    forall i | 0 <= i < |cts|
      ensures MessageHashes(keccak, b)[i] == cts[i].messageHash
    {
      assert b.cts[i] == HashAndType(cts[i]);
    }
  }

  /** What the proof of a request expands to, if its addresses are hex, the contract
      is 20 bytes, the proof verifies and every ciphertext expands. */
  function Expansion(prove: Prover, accountAddr: Bytes, zone: byte, chainId: u32, contractAddr: Bytes)
    : (r: Option<seq<Expanded>>)
    ensures r.Some? ==> Decode(Strip0x(accountAddr)).Some? && AddressBytes(contractAddr).Some?
  {
    var account :- Decode(Strip0x(accountAddr));
    var contract :- AddressBytes(contractAddr);
    var expanded :- prove(Metadata(account, zone, chainId, contract));
    if forall i :: 0 <= i < |expanded| ==> expanded[i].Ct? then Some(expanded) else None
  }

  /** The verified ciphertexts of an expansion. */
  function VerifiedAll(keccak: Hash, expanded: seq<Expanded>, zone: byte, account: Bytes, chainId: u32,
                       contract: Bytes): (cts: seq<VerifiedCt>)
    requires forall i :: 0 <= i < |expanded| ==> expanded[i].Ct?
    ensures |cts| == |expanded|
  {
    seq(|expanded|, i requires 0 <= i < |expanded| => Verified(keccak, expanded[i], zone, account, chainId, contract))
  }

  /** They are the only ones that cover the request. */
  lemma CoversExactly(keccak: Hash, prove: Prover, account: Bytes, zone: byte, chainId: u32, contract: Address,
                      cts: seq<VerifiedCt>, expanded: seq<Expanded>)
    requires prove(Metadata(account, zone, chainId, contract)) == Some(expanded)
    requires expanded != [] && forall i :: 0 <= i < |expanded| ==> expanded[i].Ct?
    ensures Covers(keccak, prove, account, zone, chainId, contract, cts)
       <==> cts == VerifiedAll(keccak, expanded, zone, account, chainId, contract)
  {
    var all := VerifiedAll(keccak, expanded, zone, account, chainId, contract);
    assert ExpandedOf(all) == expanded;
    if Covers(keccak, prove, account, zone, chainId, contract, cts) {
      forall i | 0 <= i < |cts|
        ensures cts[i] == all[i]
      {
        assert ExpandedOf(cts)[i] == expanded[i];
      }
    }
  }

  /** A request is refused before signing exactly when it has no expansion; without
      ciphertexts nothing is signed; otherwise it is signed over the digest of the
      ciphertexts that cover it, and only the signer itself can still fail. */
  method VerifyAndSignBatch<S>(keccak: Hash, prove: Prover, sign: Hash32 -> Result<S, SigningError>,
                               accountAddr: Bytes, zone: byte, chainId: u32, contractAddr: Bytes)
    returns (r: Result<VerifiedBatch<S>, VerifyError>)
    ensures r.Err? && !r.error.NotSigned? <==> Expansion(prove, accountAddr, zone, chainId, contractAddr).None?
    ensures Expansion(prove, accountAddr, zone, chainId, contractAddr) == Some([]) ==> r == Err(NotSigned(EmptyBatch))
    ensures Expansion(prove, accountAddr, zone, chainId, contractAddr) !in {None, Some([])} ==>
              var account, contract := Decode(Strip0x(accountAddr)).value, AddressBytes(contractAddr).value;
              exists cts ::
                && Covers(keccak, prove, account, zone, chainId, contract, cts)
                && var signed := sign(BatchDigest(keccak, InputsOf(cts, zone, account, chainId, contract)));
                   r == if signed.Ok? then Ok(VerifiedBatch(cts, signed.value)) else Err(NotSigned(signed.error))
  {
    var expanded := VerifyAndExpand(keccak, prove, accountAddr, zone, chainId, contractAddr);
    if expanded.Err? {
      return Err(expanded.error);
    }
    var cts := expanded.value;
    ghost var account, contract := Decode(Strip0x(accountAddr)).value, AddressBytes(contractAddr).value;
    ghost var proven := prove(Metadata(account, zone, chainId, contract));
    assert proven.value == ExpandedOf(cts);
    assert Committed(keccak, cts, zone, account, chainId, contract);
    MessageHashesOf(keccak, cts, zone, account, chainId, contract);
    var signed := SignBatch(keccak, sign, HashesOf(cts));
    assert cts != [] ==> Covers(keccak, prove, account, zone, chainId, contract, cts);
    if signed.Err? {
      return Err(NotSigned(signed.error));
    }
    r := Ok(VerifiedBatch(cts, signed.value));
  }

  // ----- the client ---------------------------------------------------------

  datatype CiphertextResponse = CiphertextResponse(ctHash: Bytes, ctType: byte)

  /** The answer carries the raw hash, not the one objects are stored under. */
  function ToResponse(ct: VerifiedCt): CiphertextResponse {
    CiphertextResponse(To0x(ct.ctHash), ct.ctType)
  }

  function Responses(cts: seq<VerifiedCt>): seq<CiphertextResponse> {
    seq(|cts|, i requires 0 <= i < |cts| => ToResponse(cts[i]))
  }

  method PerCtMessageHash(keccak: Hash, ctHash: Bytes, ctType: byte, zone: byte, account: Bytes, chainId: u32,
                          contract: Bytes)
    returns (h: Hash32)
    ensures h == keccak(CtMessage(ctHash, ctType, zone, account, chainId, contract))
    ensures exists message: Bytes ::
              var z := |ctHash| + 1;
              var n := z + 1 + |account|;
              && |message| == n + 32 + |contract|
              && message[..z - 1] == ctHash && message[z - 1] == ctType && message[z] == zone
              && message[z + 1..n] == account && BigEndianValue(message[n..n + 32]) == chainId
              && message[n + 32..] == contract && h == keccak(message)
  {
    MessageLayout(ctHash, ctType, zone, account, chainId, contract);
    var chainIdPadded := PadChainId(chainId);
    var buf: Bytes := [];
    buf := buf + ctHash;
    buf := buf + [ctType];
    buf := buf + [zone];
    buf := buf + account;
    buf := buf + chainIdPadded;
    buf := buf + contract;
    assert buf == CtMessage(ctHash, ctType, zone, account, chainId, contract);
    h := keccak(buf);
  }

  /** The per-ciphertext hashes a client rebuilds, if every hash it was sent is hex. */
  function RebuiltHashes(keccak: Hash, account: Bytes, zone: byte, chainId: u32, contract: Bytes,
                         ciphertexts: seq<CiphertextResponse>): (r: Option<seq<Hash32>>)
    ensures r.Some? ==> |r.value| == |ciphertexts|
  {
    if ciphertexts == [] then Some([])
    else
      var last := ciphertexts[|ciphertexts| - 1];
      var before :- RebuiltHashes(keccak, account, zone, chainId, contract, ciphertexts[..|ciphertexts| - 1]);
      var ctHash :- Decode(Strip0x(last.ctHash));
      Some(before + [keccak(CtMessage(ctHash, last.ctType, zone, account, chainId, contract))])
  }

  /** The digest a client rebuilds from its own request and the answer. */
  function RebuiltDigest(keccak: Hash, account: Bytes, zone: byte, chainId: u32, contract: Bytes,
                         ciphertexts: seq<CiphertextResponse>): Option<Hash32>
  {
    var accountBytes :- AddressBytes(account);
    var contractBytes :- AddressBytes(contract);
    var hashes :- RebuiltHashes(keccak, accountBytes, zone, chainId, contractBytes, ciphertexts);
    Some(FoldDigest(keccak, hashes))
  }

  lemma {:induction false} RebuildStops(keccak: Hash, account: Bytes, zone: byte, chainId: u32, contract: Bytes,
                                        ciphertexts: seq<CiphertextResponse>, i: nat)
    requires i <= |ciphertexts|
    requires RebuiltHashes(keccak, account, zone, chainId, contract, ciphertexts[..i]).None?
    ensures RebuiltHashes(keccak, account, zone, chainId, contract, ciphertexts).None?
  {
    if i < |ciphertexts| {
      assert ciphertexts[..|ciphertexts| - 1][..i] == ciphertexts[..i];
      RebuildStops(keccak, account, zone, chainId, contract, ciphertexts[..|ciphertexts| - 1], i);
    } else {
      assert ciphertexts[..i] == ciphertexts;
    }
  }

  lemma {:induction false} RebuiltHashesAre(keccak: Hash, account: Bytes, zone: byte, chainId: u32, contract: Bytes,
                                            ciphertexts: seq<CiphertextResponse>)
    ensures var r := RebuiltHashes(keccak, account, zone, chainId, contract, ciphertexts);
            && (r.Some? <==> forall i :: 0 <= i < |ciphertexts| ==> Decode(Strip0x(ciphertexts[i].ctHash)).Some?)
            && (r.Some? ==> forall i :: 0 <= i < |ciphertexts| ==>
                  r.value[i] == keccak(CtMessage(Decode(Strip0x(ciphertexts[i].ctHash)).value, ciphertexts[i].ctType,
                                                 zone, account, chainId, contract)))
  {
    hide Decode, Strip0x, CtMessage;
    if ciphertexts != [] {
      RebuiltHashesAre(keccak, account, zone, chainId, contract, ciphertexts[..|ciphertexts| - 1]);
    }
  }

  /** A client rebuilds a digest exactly if both addresses are 20 bytes and every hash is
      hex: the hash of the message hashes of the answer's ciphertexts, in order. */
  lemma RebuiltAre(keccak: Hash, account: Bytes, zone: byte, chainId: u32, contract: Bytes,
                   ciphertexts: seq<CiphertextResponse>)
    ensures var r := RebuiltDigest(keccak, account, zone, chainId, contract, ciphertexts);
            && (r.Some? <==> && AddressBytes(account).Some? && AddressBytes(contract).Some?
                             && forall i :: 0 <= i < |ciphertexts| ==>
                                  Decode(Strip0x(ciphertexts[i].ctHash)).Some?)
            && (r.Some? ==> exists hashes: seq<Hash32> ::
                  && |hashes| == |ciphertexts| && r.value == keccak(Flat(hashes))
                  && forall i :: 0 <= i < |ciphertexts| ==>
                       hashes[i] == keccak(CtMessage(Decode(Strip0x(ciphertexts[i].ctHash)).value,
                                                     ciphertexts[i].ctType, zone, AddressBytes(account).value, chainId,
                                                     AddressBytes(contract).value)))
  {
    hide Decode, Strip0x, CtMessage, AddressBytes, RebuiltHashes, Flat;
    if AddressBytes(account).Some? && AddressBytes(contract).Some? {
      var a, c := AddressBytes(account).value, AddressBytes(contract).value;
      RebuiltHashesAre(keccak, a, zone, chainId, c, ciphertexts);
    }
  }

  method ClientDigest(keccak: Hash, account: Bytes, zone: byte, chainId: u32, contract: Bytes,
                      ciphertexts: seq<CiphertextResponse>)
    returns (r: Option<Hash32>)
    ensures r == RebuiltDigest(keccak, account, zone, chainId, contract, ciphertexts)
  {
    var accountBytes := Decode(Strip0x(account));
    if accountBytes.None? || |accountBytes.value| != 20 {
      return None;
    }
    var contractBytes := Decode(Strip0x(contract));
    if contractBytes.None? || |contractBytes.value| != 20 {
      return None;
    }
    var concat: Bytes := [];
    ghost var hashes: seq<Hash32> := [];
    for i := 0 to |ciphertexts|
      invariant RebuiltHashes(keccak, accountBytes.value, zone, chainId, contractBytes.value, ciphertexts[..i])
             == Some(hashes)
      invariant concat == Flat(hashes)
    {
      var out := ciphertexts[i];
      assert ciphertexts[..i + 1][..i] == ciphertexts[..i];
      var ctHash := Decode(Strip0x(out.ctHash));
      if ctHash.None? {
        RebuildStops(keccak, accountBytes.value, zone, chainId, contractBytes.value, ciphertexts, i + 1);
        return None;
      }
      var h := PerCtMessageHash(keccak, ctHash.value, out.ctType, zone, accountBytes.value, chainId,
                                contractBytes.value);
      FlatSnoc(hashes, h);
      concat := concat + h;
      hashes := hashes + [h];
    }
    assert ciphertexts[..|ciphertexts|] == ciphertexts;
    r := Some(keccak(concat));
  }

  /** What is sent for one ciphertext leads back to its message hash. */
  lemma RebuiltHash(keccak: Hash, ct: VerifiedCt, zone: byte, account: Bytes, chainId: u32, contract: Bytes)
    requires ct == Verified(keccak, ToExpanded(ct), zone, account, chainId, contract)
    ensures Decode(Strip0x(ToResponse(ct).ctHash)) == Some(ct.ctHash)
    ensures keccak(CtMessage(ct.ctHash, ToResponse(ct).ctType, zone, account, chainId, contract)) == ct.messageHash
  {
    DecodeEncode(ct.ctHash);
  }

  lemma ResponsesSnoc(cts: seq<VerifiedCt>)
    requires cts != []
    ensures var init, last := cts[..|cts| - 1], cts[|cts| - 1];
            && |Responses(cts)| == |cts|
            && Responses(cts)[..|cts| - 1] == Responses(init) && Responses(cts)[|cts| - 1] == ToResponse(last)
            && HashesOf(cts) == HashesOf(init) + [last.messageHash]
  {
  }

  lemma {:induction false} RebuiltAreCommitted(keccak: Hash, cts: seq<VerifiedCt>, zone: byte, account: Bytes,
                                               chainId: u32, contract: Bytes)
    requires Committed(keccak, cts, zone, account, chainId, contract)
    ensures RebuiltHashes(keccak, account, zone, chainId, contract, Responses(cts)) == Some(HashesOf(cts))
  {
    if cts == [] {
      assert Responses(cts) == [] && HashesOf(cts) == [];
    } else {
      var init, last := cts[..|cts| - 1], cts[|cts| - 1];
      RebuiltHash(keccak, last, zone, account, chainId, contract);
      assert Committed(keccak, init, zone, account, chainId, contract);
      hide CtMessage, Decode, Encode, Strip0x, ToResponse, Verified, Committed, Responses, HashesOf;
      RebuiltAreCommitted(keccak, init, zone, account, chainId, contract);
      ResponsesSnoc(cts);
    }
  }

  datatype BatchAnswer<S> =
    | Success(ciphertexts: seq<CiphertextResponse>, signature: S)
    | Refused

  /** What is answered: the ciphertexts that cover the request, each with its raw
      hash and type, and a signature over their digest. */
  ghost predicate Answers<S>(keccak: Hash, prove: Prover, sign: Hash32 -> Result<S, SigningError>, account: Bytes,
                             zone: byte, chainId: u32, contract: Address, answer: BatchAnswer<S>)
  {
    answer.Success? && exists cts: seq<VerifiedCt> ::
      && Covers(keccak, prove, account, zone, chainId, contract, cts)
      && |answer.ciphertexts| == |cts|
      && (forall i :: 0 <= i < |cts| ==>
            && answer.ciphertexts[i].ctHash == Ascii("0x") + Encode(cts[i].ctHash)
            && answer.ciphertexts[i].ctType == cts[i].ctType)
      && sign(BatchDigest(keccak, InputsOf(cts, zone, account, chainId, contract))) == Ok(answer.signature)
  }

  lemma IsAnswer<S>(keccak: Hash, prove: Prover, sign: Hash32 -> Result<S, SigningError>, account: Bytes, zone: byte,
                    chainId: u32, contract: Address, cts: seq<VerifiedCt>, signature: S)
    requires Covers(keccak, prove, account, zone, chainId, contract, cts)
    requires sign(BatchDigest(keccak, InputsOf(cts, zone, account, chainId, contract))) == Ok(signature)
    ensures Answers(keccak, prove, sign, account, zone, chainId, contract, Success(Responses(cts), signature))
  {
    hide Covers, BatchDigest, InputsOf, Encode;
    forall i | 0 <= i < |cts|
      ensures Responses(cts)[i].ctHash == Ascii("0x") + Encode(cts[i].ctHash)
    {
      PrefixedText(cts[i].ctHash);
    }
  }

  /** The request as the endpoint serves it, persistence aside: one canonical
      spelling of the contract reaches the verifier. A success answers with the
      ciphertexts of this very request and their signature; and for every 20-byte
      account and every spelling of the contract, the digest a client rebuilds from
      the answer and its own request is the one that was signed. With a signer that
      works, exactly the requests without ciphertexts to sign are refused. */
  method ServeBatch<S>(keccak: Hash, prove: Prover, sign: Hash32 -> Result<S, SigningError>, account: Bytes,
                       zone: byte, chainId: u32, contract: Bytes)
    returns (answer: BatchAnswer<S>)
    ensures answer.Success? ==>
              && Expansion(prove, account, zone, chainId, contract).Some?
              && Answers(keccak, prove, sign, Decode(Strip0x(account)).value, zone, chainId,
                         AddressBytes(contract).value, answer)
    ensures answer.Success? && AddressBytes(account).Some? ==>
              && RebuiltDigest(keccak, account, zone, chainId, contract, answer.ciphertexts).Some?
              && sign(RebuiltDigest(keccak, account, zone, chainId, contract, answer.ciphertexts).value)
                 == Ok(answer.signature)
    ensures (forall digest :: sign(digest).Ok?) ==>
              (answer.Refused? <==> Expansion(prove, account, zone, chainId, contract) in {None, Some([])})
  {
    var canonical := CanonicalContractAddress(contract);
    CanonicalKeepsBytes(contract);
    if canonical.None? {
      return Refused;
    }
    var r := VerifyAndSignBatch(keccak, prove, sign, account, zone, chainId, canonical.value);
    if r.Err? {
      return Refused;
    }
    var cts := r.value.cts;
    IsAnswer(keccak, prove, sign, Decode(Strip0x(account)).value, zone, chainId, AddressBytes(contract).value, cts,
             r.value.signature);
    hide Answers, Encode, CanonicalContractAddress, BatchDigest, InputsOf, Responses;
    answer := Success(Responses(cts), r.value.signature);
    if AddressBytes(account).Some? {
      RebuiltAreCommitted(keccak, cts, zone, AddressBytes(account).value, chainId, AddressBytes(contract).value);
      MessageHashesOf(keccak, cts, zone, AddressBytes(account).value, chainId, AddressBytes(contract).value);
    }
  }
}
