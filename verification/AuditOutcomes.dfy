/** How an audit ends. The verifier and the audit tool handle the same cryptographic
    objects in different formats: the verifier reads proofs and writes ciphertexts
    with the shared safe serialisation, the tool with plain bincode. */
module AuditOutcomes {
  import opened Common
  import opened Hex
  import opened Bincode
  import opened Paths
  import opened Signing
  import opened Batch
  import opened Storage
  import opened Audit
  import opened Auditability
  import P = Persist
  import R = Retry

  // ----- two programs over one library --------------------------------------

  /** One place of an expanded proof: a ciphertext of some type, nothing, or an error. */
  datatype Cell<V> = Value(ctType: byte, value: V) | Absent | Broken

  /** The cryptographic library as the two programs use it: proofs `Pr` and ciphertexts
      `V` with two readers of the former and two writers of the latter. */
  datatype Library<!Pr, !V> = Library(
    safeRead: Bytes -> Option<Pr>, plainRead: Bytes -> Option<Pr>,
    expand: (Pr, Bytes) -> Option<seq<Cell<V>>>,
    safeBytes: V -> Option<Bytes>, plainBytes: V -> Option<Bytes>)

  function Written<V>(cell: Cell<V>, write: V -> Option<Bytes>): (e: Expanded)
    ensures e.Ct? <==> cell.Value? && write(cell.value).Some?
    ensures e.Missing? <==> cell.Absent?
    ensures e.Ct? ==> e.ctType == cell.ctType && Some(e.bytes) == write(cell.value)
  {
    match cell
    case Absent => Missing
    case Broken => Failed
    case Value(ctType, value) =>
      match write(value)
      case Some(bytes) => Ct(ctType, bytes)
      case None => Failed
  }

  function WrittenAll<V>(cells: seq<Cell<V>>, write: V -> Option<Bytes>): (expanded: seq<Expanded>)
    ensures |expanded| == |cells|
  {
    seq(|cells|, i requires 0 <= i < |cells| => Written(cells[i], write))
  }

  function ProverOf<Pr, V>(proof: Pr, expand: (Pr, Bytes) -> Option<seq<Cell<V>>>, write: V -> Option<Bytes>): Prover
  {
    metadata =>
      match expand(proof, metadata)
      case None => None
      case Some(cells) => Some(WrittenAll(cells, write))
  }

  /** A program that reads proofs with `read` and writes ciphertexts with `write`. */
  function ReaderOf<Pr, V>(read: Bytes -> Option<Pr>, expand: (Pr, Bytes) -> Option<seq<Cell<V>>>,
                           write: V -> Option<Bytes>): Replay
  {
    packed =>
      match read(packed)
      case None => None
      case Some(proof) => Some(ProverOf(proof, expand, write))
  }

  function ServiceReader<Pr, V>(lib: Library<Pr, V>): Replay {
    ReaderOf(lib.safeRead, lib.expand, lib.safeBytes)
  }

  function ToolReader<Pr, V>(lib: Library<Pr, V>): Replay {
    ReaderOf(lib.plainRead, lib.expand, lib.plainBytes)
  }

  // ----- requests the verifier has served -----------------------------------

  function AccountOf(sub: Submission): Bytes
    requires Decode(Strip0x(sub.account)).Some?
  {
    Decode(Strip0x(sub.account)).value
  }

  /** What the verifier, reading proofs as `serve` does, establishes of a request
      before it persists anything. */
  predicate Served(keccak: Hash, serve: Replay, sub: Submission) {
    && sub.Sized() && Decode(Strip0x(sub.account)).Some? && AddressBytes(sub.contract).Some?
    && serve(sub.packed).Some?
    && Covers(keccak, serve(sub.packed).value, AccountOf(sub), sub.zone, sub.chainId, AddressBytes(sub.contract).value,
              sub.cts)
  }

  ghost predicate AllServed(keccak: Hash, serve: Replay, subs: seq<Submission>) {
    forall k :: 0 <= k < |subs| ==> Served(keccak, serve, subs[k])
  }

  lemma ServedIsHashed(keccak: Hash, serve: Replay, subs: seq<Submission>)
    requires AllServed(keccak, serve, subs)
    ensures AllHashed(keccak, subs)
  {
    forall k | 0 <= k < |subs|
      ensures WellHashed(keccak, subs[k])
    {
      var sub := subs[k];
      CoveredIsWellHashed(keccak, serve(sub.packed).value, AccountOf(sub), AddressBytes(sub.contract).value, sub);
    }
  }

  /** A proof verifies against at most one metadata. */
  ghost predicate OneMetadata(prove: Prover) {
    forall m1, m2 :: prove(m1).Some? && prove(m2).Some? ==> m1 == m2
  }

  predicate SameParties(a: Submission, b: Submission)
    requires Decode(Strip0x(a.account)).Some? && Decode(Strip0x(b.account)).Some?
  {
    AccountOf(a) == AccountOf(b) && AddressBytes(a.contract) == AddressBytes(b.contract)
  }

  /** Among the requests blake3 tells different proof bytes apart, and the same proof
      bytes name the same account and contract, however these are spelled. */
  ghost predicate ProofsAreNamed(keccak: Hash, blake3: Hash, serve: Replay, subs: seq<Submission>)
    requires AllServed(keccak, serve, subs)
  {
    forall a, b :: 0 <= a < |subs| && 0 <= b < |subs| && blake3(subs[a].packed) == blake3(subs[b].packed) ==>
      subs[a].packed == subs[b].packed && SameParties(subs[a], subs[b])
  }

  lemma SameProofSameParties(keccak: Hash, serve: Replay, a: Submission, b: Submission)
    requires Served(keccak, serve, a) && Served(keccak, serve, b) && a.packed == b.packed
    requires OneMetadata(serve(a.packed).value)
    ensures SameParties(a, b)
  {
    MetadataInjective(AccountOf(a), a.zone, a.chainId, AddressBytes(a.contract).value,
                      AccountOf(b), b.zone, b.chainId, AddressBytes(b.contract).value);
  }

  /** They do, if blake3 does not collide on them and no proof verifies against two
      different metadata. */
  lemma OneMetadataNamesParties(keccak: Hash, blake3: Hash, serve: Replay, subs: seq<Submission>)
    requires AllServed(keccak, serve, subs)
    requires forall k :: 0 <= k < |subs| ==> OneMetadata(serve(subs[k].packed).value)
    requires forall a, b :: 0 <= a < |subs| && 0 <= b < |subs| && blake3(subs[a].packed) == blake3(subs[b].packed)
               ==> subs[a].packed == subs[b].packed
    ensures ProofsAreNamed(keccak, blake3, serve, subs)
  {
    hide OneMetadata, CtMessage;
    forall i, j | 0 <= i < |subs| && 0 <= j < |subs| && blake3(subs[i].packed) == blake3(subs[j].packed)
      ensures SameParties(subs[i], subs[j])
    {
      SameProofSameParties(keccak, serve, subs[i], subs[j]);
    }
  }

  // ----- the replay of one request's ciphertext ------------------------------

  /** What the tool expands the proof of a request to. */
  function ToolExpansion(tool: Replay, sub: Submission): Option<seq<Expanded>>
    requires Decode(Strip0x(sub.account)).Some? && AddressBytes(sub.contract).Some?
  {
    var prove :- tool(sub.packed);
    prove(Metadata(AccountOf(sub), sub.zone, sub.chainId, AddressBytes(sub.contract).value))
  }

  predicate SameFirst30(a: Hash32, b: Hash32) {
    a[..30] == b[..30]
  }

  /** How the replay of ciphertext `j` of a request ends: with an error if the tool
      cannot read the proof bytes, if the account is not 20 bytes, or if what it
      expands the proof to is not as long; else with a match exactly if the bytes it
      writes for the ciphertext hash, but for two bytes, like the stored ones. */
  predicate ToolOutcome(keccak: Hash, blake3: Hash, tool: Replay, sub: Submission, j: nat,
                        r: Result<Audited, AuditError>)
    requires sub.Sized() && Decode(Strip0x(sub.account)).Some? && AddressBytes(sub.contract).Some? && j < |sub.cts|
  {
    var expanded := ToolExpansion(tool, sub);
    if tool(sub.packed).None? then r == Err(BadProof)
    else if |AccountOf(sub)| != 20 then r == Err(BadAccount)
    else if expanded.None? || !AllExpand(expanded.value) then r == Err(ReplayFailed)
    else if j >= |expanded.value| then r == Err(NoSuchIndex)
    else r == Ok(Audited(CtObject(blake3, sub, j).metadata,
                         SameFirst30(keccak(expanded.value[j].bytes), sub.cts[j].ctHash)))
  }

  predicate IsMatch(r: Result<Audited, AuditError>) {
    r.Ok? && r.value.ctHashMatches
  }

  /** When the tool reports a match for ciphertext `j` of a request, once it has found
      it and its proof. */
  predicate ToolMatches(keccak: Hash, tool: Replay, sub: Submission, j: nat)
    requires Decode(Strip0x(sub.account)).Some? && AddressBytes(sub.contract).Some? && j < |sub.cts|
  {
    var expanded := ToolExpansion(tool, sub);
    && |AccountOf(sub)| == 20 && expanded.Some? && AllExpand(expanded.value) && j < |expanded.value|
    && SameFirst30(keccak(expanded.value[j].bytes), sub.cts[j].ctHash)
  }

  lemma OutcomeMatches(keccak: Hash, blake3: Hash, tool: Replay, sub: Submission, j: nat,
                       r: Result<Audited, AuditError>)
    requires sub.Sized() && Decode(Strip0x(sub.account)).Some? && AddressBytes(sub.contract).Some? && j < |sub.cts|
    requires ToolOutcome(keccak, blake3, tool, sub, j, r)
    ensures IsMatch(r) <==> ToolMatches(keccak, tool, sub, j)
  {
  }

  /** Two keys for one type and zone are equal exactly if the hashes agree on 30 bytes. */
  lemma KeysAgree(a: Hash32, b: Hash32, ctType: byte, zone: byte)
    ensures KeyText(AdjustHash(a, ctType, zone, false)) == KeyText(AdjustHash(b, ctType, zone, false))
       <==> SameFirst30(a, b)
  {
    AdjustedCollide(a, ctType, zone, false, b, ctType, zone, false);
    var x, y := AdjustHash(a, ctType, zone, false), AdjustHash(b, ctType, zone, false);
    hide AdjustHash, Encode;
    EncodeInjective(x, y);
  }

  lemma NotTrivial(sub: Submission, j: nat, arg: Bytes)
    requires j < |sub.cts| && Strip0x(arg) == Strip0x(KeyOf(sub.cts[j], sub.zone))
    ensures !IsTrivial(arg)
  {
    DecodeEncode(AdjustHash(sub.cts[j].ctHash, sub.cts[j].ctType, sub.zone, false));
  }

  lemma KeyFollowsHash(keccak: Hash, blake3: Hash, sub: Submission, j: nat, arg: Bytes, bytes: Bytes)
    requires sub.Sized() && j < |sub.cts|
    requires Strip0x(arg) == Strip0x(KeyOf(sub.cts[j], sub.zone))
    ensures var m := CtObject(blake3, sub, j).metadata;
            CallsFor(m.ctHash, keccak(bytes), m.ctType, m.securityZone, arg)
            <==> SameFirst30(keccak(bytes), sub.cts[j].ctHash)
  {
    NotTrivial(sub, j, arg);
    KeysAgree(keccak(bytes), sub.cts[j].ctHash, sub.cts[j].ctType, sub.zone);
    ComputedKeyIs(keccak(bytes), CtObject(blake3, sub, j).metadata, arg);
    hide KeyText, AdjustHash, Strip0x, IsTrivial, SameFirst30, CallsFor;
  }

  lemma ObjectFields(blake3: Hash, sub: Submission, j: nat, other: Submission)
    requires sub.Sized() && other.Sized() && j < |sub.cts|
    ensures var m := CtObject(blake3, sub, j).metadata;
            m.accountAddr == sub.account && m.securityZone == sub.zone && m.chainId == sub.chainId && m.ctIndex == j
    ensures var o := ProofObject(blake3, other);
            o.proofData == other.packed && o.metadata.contractAddr == other.contract
  {
    hide KeyOf;
  }

  lemma ReplayParties(sub: Submission, m: CtMetadata, contract: Bytes)
    requires Decode(Strip0x(sub.account)).Some? && AddressBytes(sub.contract).Some?
    requires m.accountAddr == sub.account && AddressBytes(sub.contract) == AddressBytes(contract)
    ensures AddressBytes(m.accountAddr) == if |AccountOf(sub)| == 20 then Some(AccountOf(sub)) else None
    ensures Decode(Strip0x(contract)) == AddressBytes(sub.contract)
  {
    hide Decode, Strip0x;
  }

  /** One replay, with the metadata and the fields of the proof at hand. */
  lemma ReplayOfParts(keccak: Hash, blake3: Hash, tool: Replay, sub: Submission, m: CtMetadata, proof: StoredProof,
                      arg: Bytes, j: nat, r: Result<Audited, AuditError>)
    requires sub.Sized() && Decode(Strip0x(sub.account)).Some? && AddressBytes(sub.contract).Some?
    requires j < |sub.cts| && m == CtObject(blake3, sub, j).metadata
    requires m.securityZone == sub.zone && m.chainId == sub.chainId && m.ctIndex == j && proof.proofData == sub.packed
    requires AddressBytes(m.accountAddr) == if |AccountOf(sub)| == 20 then Some(AccountOf(sub)) else None
    requires Decode(Strip0x(proof.metadata.contractAddr)) == AddressBytes(sub.contract)
    requires forall bytes :: CallsFor(m.ctHash, keccak(bytes), m.ctType, m.securityZone, arg)
                             <==> SameFirst30(keccak(bytes), sub.cts[j].ctHash)
    requires IsReplay(keccak, tool, arg, m, proof, r)
    ensures ToolOutcome(keccak, blake3, tool, sub, j, r)
  {
    hide CallsFor, Decode, Strip0x, Metadata, SameFirst30, CtObject, AddressBytes;
  }

  /** The object of one request replayed against the proof object of another with the
      same proof bytes and parties. */
  lemma ReplayOfRequest(keccak: Hash, blake3: Hash, tool: Replay, sub: Submission, other: Submission, arg: Bytes,
                        j: nat, r: Result<Audited, AuditError>)
    requires sub.Sized() && Decode(Strip0x(sub.account)).Some? && AddressBytes(sub.contract).Some?
    requires other.Sized() && sub.packed == other.packed && AddressBytes(sub.contract) == AddressBytes(other.contract)
    requires j < |sub.cts| && Strip0x(arg) == Strip0x(KeyOf(sub.cts[j], sub.zone))
    requires IsReplay(keccak, tool, arg, CtObject(blake3, sub, j).metadata, ProofObject(blake3, other), r)
    ensures ToolOutcome(keccak, blake3, tool, sub, j, r)
  {
    ObjectFields(blake3, sub, j, other);
    var m, proof := CtObject(blake3, sub, j).metadata, ProofObject(blake3, other);
    ReplayParties(sub, m, proof.metadata.contractAddr);
    hide ToolOutcome, IsReplay, CallsFor, Decode, Strip0x, SameFirst30, CtObject, ProofObject, KeyOf, AddressBytes;
    forall bytes
      ensures CallsFor(m.ctHash, keccak(bytes), m.ctType, m.securityZone, arg)
              <==> SameFirst30(keccak(bytes), sub.cts[j].ctHash)
    {
      KeyFollowsHash(keccak, blake3, sub, j, arg, bytes);
    }
    ReplayOfParts(keccak, blake3, tool, sub, m, proof, arg, j, r);
  }

  // ----- a bucket -----------------------------------------------------------

  /** How the audit of an object under the previous prefix ends; nothing is known of
      who wrote it. */
  ghost predicate OldOutcome(keccak: Hash, tool: Replay, store: Store, arg: Bytes, data: Bytes,
                             r: Result<Audited, AuditError>)
  {
    if forall o :: !StartsCiphertext(data, o) then r == Err(CorruptCiphertext)
    else exists o, found ::
      && StartsCiphertext(data, o) && IsCheck(keccak, store, arg, OLD_PREFIX, o, found)
      && (found.Err? ==> r == Err(found.error))
      && (found.Ok? ==> IsReplay(keccak, tool, arg, o.metadata, found.value.1, r))
  }

  /** How the audit of the object of request `a` ends once found: in `ProofMissing`
      exactly if nothing was written to its proof's path. */
  predicate FoundOutcome(keccak: Hash, blake3: Hash, tool: Replay, log: seq<P.Write>, sub: Submission, j: nat,
                         r: Result<Audited, AuditError>)
    requires sub.Sized() && Decode(Strip0x(sub.account)).Some? && AddressBytes(sub.contract).Some? && j < |sub.cts|
  {
    if P.Holds(log, ProofPath(sub.chainId, sub.zone, blake3(sub.packed))).None? then r == Err(ProofMissing)
    else ToolOutcome(keccak, blake3, tool, sub, j, r)
  }

  /** Ciphertext `j` of request `a` is what is stored under the key `arg`. */
  predicate HeldUnder(blake3: Hash, subs: seq<Submission>, log: seq<P.Write>, arg: Bytes, chainId: u32, zone: byte,
                      a: nat, j: nat)
    requires forall k :: 0 <= k < |subs| ==> subs[k].Sized()
  {
    && a < |subs| && j < |subs[a].cts| && subs[a].chainId == chainId && subs[a].zone == zone
    && Strip0x(arg) == Strip0x(KeyOf(subs[a].cts[j], zone))
    && P.Holds(log, CtPath(WRITTEN_PREFIX, arg, chainId, zone)) == Some(PutCiphertext(CtObject(blake3, subs[a], j), []))
  }

  predicate SharesKey(sub: Submission, arg: Bytes, chainId: u32, zone: byte) {
    && sub.chainId == chainId && sub.zone == zone
    && exists j :: 0 <= j < |sub.cts| && Strip0x(arg) == Strip0x(KeyOf(sub.cts[j], zone))
  }

  /** The verifier alone writes to the current path of `arg`, and to the proof paths of
      the requests that store a ciphertext there. */
  ghost predicate Undisturbed(blake3: Hash, subs: seq<Submission>, log: seq<P.Write>, arg: Bytes, chainId: u32,
                              zone: byte)
    requires forall k :: 0 <= k < |subs| ==> subs[k].Sized()
  {
    && ServiceAt(blake3, subs, log, CtPath(WRITTEN_PREFIX, arg, chainId, zone))
    && forall a :: 0 <= a < |subs| && SharesKey(subs[a], arg, chainId, zone) ==>
         ServiceAt(blake3, subs, log, ProofPath(chainId, zone, blake3(subs[a].packed)))
  }

  /** How the audit of any key ends in a bucket with objects under both prefixes. */
  ghost predicate BucketOutcome(keccak: Hash, blake3: Hash, tool: Replay, subs: seq<Submission>, log: seq<P.Write>,
                                arg: Bytes, chainId: u32, zone: byte, r: Result<Audited, AuditError>)
    requires forall k :: 0 <= k < |subs| ==>
               subs[k].Sized() && Decode(Strip0x(subs[k].account)).Some? && AddressBytes(subs[k].contract).Some?
  {
    var old_ := P.Holds(log, CtPath(OLD_PREFIX, arg, chainId, zone));
    if P.Holds(log, CtPath(WRITTEN_PREFIX, arg, chainId, zone)).Some? then
      exists a: nat, j: nat :: HeldUnder(blake3, subs, log, arg, chainId, zone, a, j)
                               && FoundOutcome(keccak, blake3, tool, log, subs[a], j, r)
    else if old_.None? then r == Err(NotFound)
    else OldOutcome(keccak, tool, StoreOf(log), arg, old_.value, r)
  }

  lemma HeldOutcome(keccak: Hash, blake3: Hash, serve: Replay, tool: Replay, subs: seq<Submission>,
                    log: seq<P.Write>, arg: Bytes, chainId: u32, zone: byte, a: nat, j: nat)
    requires AllServed(keccak, serve, subs) && ProofsAreNamed(keccak, blake3, serve, subs)
    requires Undisturbed(blake3, subs, log, arg, chainId, zone)
    requires HeldUnder(blake3, subs, log, arg, chainId, zone, a, j)
    ensures FoundOutcome(keccak, blake3, tool, log, subs[a], j, AuditResult(keccak, tool, StoreOf(log), arg, chainId))
  {
    ServedIsHashed(keccak, serve, subs);
    hide Covers, CtObject, ProofObject, PutCiphertext, KeyOf, Found, AuditResult, FetchedProof, IsReplay, ToolOutcome;
    assert SharesKey(subs[a], arg, chainId, zone);
    FoundObject(keccak, blake3, StoreOf(log), subs[a], j, arg);
    var p := FetchedProofIsGenuine(keccak, blake3, subs, log, a);
    AuditResultIs(keccak, tool, StoreOf(log), arg, chainId);
    var r := AuditResult(keccak, tool, StoreOf(log), arg, chainId);
    if Found(keccak, StoreOf(log), arg, chainId).Ok? {
      assert subs[a].packed == subs[p].packed && SameParties(subs[a], subs[p]);
      ReplayOfRequest(keccak, blake3, tool, subs[a], subs[p], arg, j, r);
    }
  }

  lemma StartsIsRead(data: Bytes)
    ensures forall o :: StartsCiphertext(data, o) <==> GetCiphertext(data) == Some(o)
  {
    forall o
      ensures StartsCiphertext(data, o) <==> GetCiphertext(data) == Some(o)
    {
      ReadsCiphertext(data, o);
    }
  }

  /** The object found under the previous prefix, checked and replayed. */
  lemma OldIsChecked(keccak: Hash, tool: Replay, store: Store, arg: Bytes, chainId: u32, h: Hash32, data: Bytes,
                     o: StoredCiphertext)
    requires Decode(Strip0x(arg)) == Some(h) && StartsCiphertext(data, o)
    requires FetchUnder(store, STORAGE_PREFIXES, arg, chainId, h[ZONE_BYTE]) == Ok((o, OLD_PREFIX))
    ensures OldOutcome(keccak, tool, store, arg, data, AuditResult(keccak, tool, store, arg, chainId))
  {
    CheckIs(keccak, store, arg, chainId, h, OLD_PREFIX, o);
    AuditResultIs(keccak, tool, store, arg, chainId);
    FoundFromFetched(keccak, store, arg, chainId, h);
    var found := Found(keccak, store, arg, chainId);
    hide Found, AuditResult, FetchUnder, IsReplay, Decode, IsCheck, StartsCiphertext, KeyFits, FetchedProof;
    assert IsCheck(keccak, store, arg, OLD_PREFIX, o, found);
    assert found.Ok? ==> found.value.0 == o;
  }

  lemma OldIsAudited(keccak: Hash, tool: Replay, store: Store, arg: Bytes, chainId: u32, h: Hash32)
    requires Decode(Strip0x(arg)) == Some(h)
    requires store(CtPath(WRITTEN_PREFIX, arg, chainId, h[ZONE_BYTE])).None?
    ensures var old_ := store(CtPath(OLD_PREFIX, arg, chainId, h[ZONE_BYTE]));
            var r := AuditResult(keccak, tool, store, arg, chainId);
            if old_.None? then r == Err(NotFound) else OldOutcome(keccak, tool, store, arg, old_.value, r)
  {
    var old_ := store(CtPath(OLD_PREFIX, arg, chainId, h[ZONE_BYTE]));
    FetchCases(store, arg, chainId, h[ZONE_BYTE]);
    FoundFromFetched(keccak, store, arg, chainId, h);
    AuditResultIs(keccak, tool, store, arg, chainId);
    hide Found, AuditResult, FetchUnder, IsReplay, CtPath, Decode, IsCheck, GetCiphertext, StartsCiphertext;
    if old_.Some? {
      StartsIsRead(old_.value);
      if GetCiphertext(old_.value).Some? {
        var o := GetCiphertext(old_.value).value;
        OldIsChecked(keccak, tool, store, arg, chainId, h, old_.value, o);
      }
    }
  }

  /** Every audit of a 32-byte key, in a bucket whose current prefix the verifier alone
      writes to while anything at all may lie under the previous one, and whatever
      requests overwrote and whatever failed halfway: a current object decides, and
      belongs to one request, the last to write it; the audit ends for that request. */
  lemma EveryAuditEnds(keccak: Hash, blake3: Hash, serve: Replay, tool: Replay, subs: seq<Submission>,
                       log: seq<P.Write>, arg: Bytes, chainId: u32, h: Hash32)
    requires AllServed(keccak, serve, subs) && ProofsAreNamed(keccak, blake3, serve, subs)
    requires Decode(Strip0x(arg)) == Some(h) && Undisturbed(blake3, subs, log, arg, chainId, h[ZONE_BYTE])
    ensures BucketOutcome(keccak, blake3, tool, subs, log, arg, chainId, h[ZONE_BYTE],
                          AuditResult(keccak, tool, StoreOf(log), arg, chainId))
  {
    var zone := h[ZONE_BYTE];
    HexHasNoSlash(Strip0x(arg));
    ServedIsHashed(keccak, serve, subs);
    assert STORAGE_PREFIXES[0] == WRITTEN_PREFIX;
    hide Covers, CtObject, PutCiphertext, KeyOf, AuditResult, FoundOutcome, OldOutcome, Decode, CtPath, ServiceAt;
    if P.Holds(log, CtPath(WRITTEN_PREFIX, arg, chainId, zone)).Some? {
      var a, j := CtAt(keccak, blake3, subs, log, WRITTEN_PREFIX, chainId, zone, arg);
      assert HeldUnder(blake3, subs, log, arg, chainId, zone, a, j);
      HeldOutcome(keccak, blake3, serve, tool, subs, log, arg, chainId, zone, a, j);
    } else {
      OldIsAudited(keccak, tool, StoreOf(log), arg, chainId, h);
    }
  }

  // ----- stored and released inputs -----------------------------------------

  /** The key of ciphertext `i`, as a hash. */
  function KeyHash(sub: Submission, i: nat): (h: Hash32)
    requires i < |sub.cts|
    ensures h[ZONE_BYTE] == sub.zone
  {
    AdjustHash(sub.cts[i].ctHash, sub.cts[i].ctType, sub.zone, false)
  }

  /** A path somebody has written an item to is not empty. */
  lemma WrittenIsHeld(log: seq<P.Write>, item: P.Item)
    requires P.Wrote(log, item)
    ensures P.Holds(log, item.path).Some?
  {
    var v := P.HoldsSomeWrite(log, P.Write(item, true));
  }

  /** Once ciphertext `i` of a request has been written, an object is found under its
      key exactly if the key is spelled in lowercase. */
  lemma HeldIfLowercase(keccak: Hash, blake3: Hash, subs: seq<Submission>, log: seq<P.Write>, k: nat, i: nat,
                        arg: Bytes)
    requires AllHashed(keccak, subs) && k < |subs| && i < |subs[k].cts|
    requires ServiceAt(blake3, subs, log, CtPath(WRITTEN_PREFIX, arg, subs[k].chainId, subs[k].zone))
    requires Decode(Strip0x(arg)) == Some(KeyHash(subs[k], i)) && P.Wrote(log, CtItem(blake3, subs[k], i))
    ensures P.Holds(log, CtPath(WRITTEN_PREFIX, arg, subs[k].chainId, subs[k].zone)).Some? <==> Lowercase(Strip0x(arg))
  {
    var sub := subs[k];
    HexHasNoSlash(Strip0x(arg));
    WrittenIsHeld(log, CtItem(blake3, sub, i));
    ReaderFindsWriterPath(arg, KeyHash(sub, i), sub.chainId);
    assert STORAGE_PREFIXES[0] == WRITTEN_PREFIX;
    hide PutCiphertext, CtObject, Items, Decode;
    if P.Holds(log, CtPath(WRITTEN_PREFIX, arg, sub.chainId, sub.zone)).Some? {
      var a, j := CtAt(keccak, blake3, subs, log, WRITTEN_PREFIX, sub.chainId, sub.zone, arg);
    }
  }

  /** Once the objects of request `k` have been written, and whatever other requests
      wrote over them, halfway or for good: the audit of any spelling of the key of its
      ciphertext `i` ends as the bucket says, with a current object to find exactly for
      a lowercase spelling. The proof of request `k` is there. */
  lemma StoredInputsAreAudited(keccak: Hash, blake3: Hash, serve: Replay, tool: Replay, subs: seq<Submission>,
                               log: seq<P.Write>, k: nat, i: nat, arg: Bytes)
    requires AllServed(keccak, serve, subs) && ProofsAreNamed(keccak, blake3, serve, subs)
    requires k < |subs| && i < |subs[k].cts| && Decode(Strip0x(arg)) == Some(KeyHash(subs[k], i))
    requires Undisturbed(blake3, subs, log, arg, subs[k].chainId, subs[k].zone)
    requires P.Wrote(log, CtItem(blake3, subs[k], i)) && P.Wrote(log, ProofItem(blake3, subs[k]))
    ensures P.Holds(log, CtPath(WRITTEN_PREFIX, arg, subs[k].chainId, subs[k].zone)).Some? <==> Lowercase(Strip0x(arg))
    ensures P.Holds(log, ProofPath(subs[k].chainId, subs[k].zone, blake3(subs[k].packed))).Some?
    ensures BucketOutcome(keccak, blake3, tool, subs, log, arg, subs[k].chainId, subs[k].zone,
                          AuditResult(keccak, tool, StoreOf(log), arg, subs[k].chainId))
  {
    hide Covers, PutProof, PutCiphertext, AuditResult, BucketOutcome, Decode;
    ServedIsHashed(keccak, serve, subs);
    WrittenIsHeld(log, ProofItem(blake3, subs[k]));
    HeldIfLowercase(keccak, blake3, subs, log, k, i, arg);
    EveryAuditEnds(keccak, blake3, serve, tool, subs, log, arg, subs[k].chainId, KeyHash(subs[k], i));
  }

  predicate ProofStored(blake3: Hash, log: seq<P.Write>, sub: Submission) {
    P.Holds(log, ProofPath(sub.chainId, sub.zone, blake3(sub.packed))).Some?
  }

  lemma FoundMatches(keccak: Hash, blake3: Hash, tool: Replay, log: seq<P.Write>, sub: Submission, j: nat,
                     r: Result<Audited, AuditError>)
    requires sub.Sized() && Decode(Strip0x(sub.account)).Some? && AddressBytes(sub.contract).Some? && j < |sub.cts|
    requires FoundOutcome(keccak, blake3, tool, log, sub, j, r)
    ensures IsMatch(r) <==> ProofStored(blake3, log, sub) && ToolMatches(keccak, tool, sub, j)
  {
    hide ToolMatches, ToolOutcome, ProofPath;
    if ProofStored(blake3, log, sub) {
      OutcomeMatches(keccak, blake3, tool, sub, j, r);
    }
  }

  /** When such an audit reports a match, with nothing under the previous prefix: for a
      lowercase spelling exactly if the request that wrote last has its proof stored
      and the tool matches it; for any other spelling never. */
  lemma MatchExactly(keccak: Hash, blake3: Hash, serve: Replay, tool: Replay, subs: seq<Submission>,
                     log: seq<P.Write>, k: nat, i: nat, arg: Bytes)
    requires AllServed(keccak, serve, subs) && ProofsAreNamed(keccak, blake3, serve, subs)
    requires k < |subs| && i < |subs[k].cts| && Decode(Strip0x(arg)) == Some(KeyHash(subs[k], i))
    requires Undisturbed(blake3, subs, log, arg, subs[k].chainId, subs[k].zone)
    requires P.Holds(log, CtPath(OLD_PREFIX, arg, subs[k].chainId, subs[k].zone)).None?
    requires P.Wrote(log, CtItem(blake3, subs[k], i)) && P.Wrote(log, ProofItem(blake3, subs[k]))
    ensures var r := AuditResult(keccak, tool, StoreOf(log), arg, subs[k].chainId);
            if !Lowercase(Strip0x(arg)) then r == Err(NotFound)
            else exists a: nat, j: nat ::
              && HeldUnder(blake3, subs, log, arg, subs[k].chainId, subs[k].zone, a, j)
              && (subs[a].packed == subs[k].packed ==> ProofStored(blake3, log, subs[a]))
              && (IsMatch(r) <==> ProofStored(blake3, log, subs[a]) && ToolMatches(keccak, tool, subs[a], j))
  {
    hide Covers, CtItem, ProofItem, CtObject, PutCiphertext, AuditResult, Decode, CtPath, KeyOf, ToolMatches,
         FoundOutcome, Undisturbed, ProofsAreNamed, ProofPath;
    StoredInputsAreAudited(keccak, blake3, serve, tool, subs, log, k, i, arg);
    var r := AuditResult(keccak, tool, StoreOf(log), arg, subs[k].chainId);
    if Lowercase(Strip0x(arg)) {
      var a: nat, j: nat :| HeldUnder(blake3, subs, log, arg, subs[k].chainId, subs[k].zone, a, j)
                            && FoundOutcome(keccak, blake3, tool, log, subs[a], j, r);
      FoundMatches(keccak, blake3, tool, log, subs[a], j, r);
    }
  }

  /** Every write another request made where an audit of `arg` may look is one the
      verifier makes for one of `subs`. */
  ghost predicate OthersServed(blake3: Hash, subs: seq<Submission>, log: seq<P.Write>, arg: Bytes, chainId: u32,
                               zone: byte)
    requires forall k :: 0 <= k < |subs| ==> subs[k].Sized()
  {
    forall w :: w in log && !w.mine
                && (|| w.item.path == CtPath(WRITTEN_PREFIX, arg, chainId, zone)
                    || exists a :: 0 <= a < |subs| && SharesKey(subs[a], arg, chainId, zone)
                                   && w.item.path == ProofPath(chainId, zone, blake3(subs[a].packed))) ==>
      exists k :: 0 <= k < |subs| && w.item in Items(blake3, subs[k])
  }

  lemma RunIsUndisturbed(blake3: Hash, subs: seq<Submission>, log: seq<P.Write>, k: nat, arg: Bytes, chainId: u32,
                         zone: byte)
    requires forall n :: 0 <= n < |subs| ==> subs[n].Sized()
    requires k < |subs| && OthersServed(blake3, subs, log, arg, chainId, zone)
    requires forall w :: w in log && w.mine ==> w.item in Items(blake3, subs[k])
    ensures Undisturbed(blake3, subs, log, arg, chainId, zone)
  {
    hide Items, CtPath, ProofPath, SharesKey;
  }

  lemma WrittenItems(blake3: Hash, sub: Submission, log: seq<P.Write>, i: nat)
    requires sub.Sized() && i < |sub.cts|
    requires forall n :: 0 <= n < |Items(blake3, sub)| ==> P.Wrote(log, Items(blake3, sub)[n])
    ensures P.Wrote(log, CtItem(blake3, sub, i)) && P.Wrote(log, ProofItem(blake3, sub))
  {
    hide CtItem, ProofItem;
    ItemAt(blake3, sub, |sub.cts|, i);
    assert Items(blake3, sub)[i] == CtItem(blake3, sub, i);
    assert Items(blake3, sub)[|sub.cts|] == ProofItem(blake3, sub);
  }

  /** Whenever a run of a served request ends in a success answer: StoreCts accepted
      exactly its ciphertexts under its chain, its ciphertexts and its proof are stored,
      and the audit of any spelling of their keys finds a current object exactly if the
      spelling is lowercase, and ends as the bucket says. Other requests may write to
      the same paths, resubmissions and other proofs of the same ciphertext included,
      as long as it is the verifier who writes for them. */
  lemma ReleasedInputsAreAudited(keccak: Hash, blake3: Hash, serve: Replay, tool: Replay, subs: seq<Submission>,
                                 k: nat, config: R.RetryConfig, steps: seq<P.Step>, i: nat, arg: Bytes)
    requires AllServed(keccak, serve, subs) && ProofsAreNamed(keccak, blake3, serve, subs)
    requires k < |subs| && i < |subs[k].cts| && Decode(Strip0x(arg)) == Some(KeyHash(subs[k], i))
    requires P.Run(PlanOf(blake3, subs[k], config), steps).Some?
    requires var s := P.Run(PlanOf(blake3, subs[k], config), steps).value;
             s.answer.Released? && OthersServed(blake3, subs, s.log, arg, subs[k].chainId, subs[k].zone)
    ensures var s := P.Run(PlanOf(blake3, subs[k], config), steps).value;
            && s.taken != []
            && (forall call :: call in s.taken ==> IsCallOf(subs[k], call))
            && P.Wrote(s.log, CtItem(blake3, subs[k], i)) && P.Wrote(s.log, ProofItem(blake3, subs[k]))
            && Undisturbed(blake3, subs, s.log, arg, subs[k].chainId, subs[k].zone)
            && (P.Holds(s.log, CtPath(WRITTEN_PREFIX, arg, subs[k].chainId, subs[k].zone)).Some?
                <==> Lowercase(Strip0x(arg)))
            && BucketOutcome(keccak, blake3, tool, subs, s.log, arg, subs[k].chainId, subs[k].zone,
                             AuditResult(keccak, tool, StoreOf(s.log), arg, subs[k].chainId))
  {
    hide Items, CtItem, ProofItem, Covers, KeyHash, BucketOutcome, AuditResult, OthersServed, Undisturbed, CtPath;
    var plan := PlanOf(blake3, subs[k], config);
    var s := P.Run(plan, steps).value;
    P.PersistBeforeRelease(plan, steps);
    EntriesAre(subs[k]);
    assert IsCallOf(subs[k], plan.request);
    hide IsCallOf, Entries;
    WrittenItems(blake3, subs[k], s.log, i);
    RunIsUndisturbed(blake3, subs, s.log, k, arg, subs[k].chainId, subs[k].zone);
    StoredInputsAreAudited(keccak, blake3, serve, tool, subs, s.log, k, i, arg);
  }

  // ----- with two formats nothing matches -----------------------------------

  /** If the tool did expand proofs to the verifier's own bytes it would match every
      ciphertext of an account of 20 bytes. */
  lemma OneFormatMatches(keccak: Hash, serve: Replay, tool: Replay, sub: Submission, j: nat)
    requires Served(keccak, serve, sub) && j < |sub.cts|
    requires ToolExpansion(tool, sub) == ToolExpansion(serve, sub)
    ensures ToolMatches(keccak, tool, sub, j) <==> |AccountOf(sub)| == 20
  {
    CoveredIsWellHashed(keccak, serve(sub.packed).value, AccountOf(sub), AddressBytes(sub.contract).value, sub);
    hide Metadata, Committed, Decode, Strip0x;
    assert ExpandedOf(sub.cts)[j] == ToExpanded(sub.cts[j]);
  }

  /** When the tool reads the same proof from the stored bytes as the verifier did, what
      decides is whether the two writers' bytes of the one ciphertext hash alike. */
  lemma SameProofMatches<Pr, V>(keccak: Hash, lib: Library<Pr, V>, sub: Submission, proof: Pr, cells: seq<Cell<V>>,
                                j: nat)
    requires Served(keccak, ServiceReader(lib), sub) && j < |sub.cts|
    requires lib.safeRead(sub.packed) == lib.plainRead(sub.packed) == Some(proof)
    requires lib.expand(proof, Metadata(AccountOf(sub), sub.zone, sub.chainId, AddressBytes(sub.contract).value))
          == Some(cells)
    ensures |cells| == |sub.cts|
    ensures forall i :: 0 <= i < |cells| ==> cells[i].Value? && lib.safeBytes(cells[i].value).Some?
    ensures ToolMatches(keccak, ToolReader(lib), sub, j)
       <==> && |AccountOf(sub)| == 20
            && (forall i :: 0 <= i < |cells| ==> lib.plainBytes(cells[i].value).Some?)
            && SameFirst30(keccak(lib.plainBytes(cells[j].value).value), keccak(lib.safeBytes(cells[j].value).value))
  {
    CoveredIsWellHashed(keccak, ServiceReader(lib)(sub.packed).value, AccountOf(sub),
                        AddressBytes(sub.contract).value, sub);
    hide Committed, Decode, Strip0x, SameFirst30;
    assert WrittenAll(cells, lib.safeBytes) == ExpandedOf(sub.cts);
    forall i | 0 <= i < |cells|
      ensures Written(cells[i], lib.safeBytes) == ToExpanded(sub.cts[i])
    {
      assert WrittenAll(cells, lib.safeBytes)[i] == ExpandedOf(sub.cts)[i];
    }
    var plain := WrittenAll(cells, lib.plainBytes);
    assert ToolExpansion(ToolReader(lib), sub) == Some(plain);
    forall i | 0 <= i < |cells|
      ensures plain[i].Ct? <==> lib.plainBytes(cells[i].value).Some?
    {
      assert plain[i] == Written(cells[i], lib.plainBytes);
    }
    assert plain[j] == Written(cells[j], lib.plainBytes);
    assert Written(cells[j], lib.safeBytes) == ToExpanded(sub.cts[j]);
  }

  /** The two writers never give the same bytes. */
  ghost predicate DifferentFormats<Pr, V(!new)>(lib: Library<Pr, V>) {
    forall v, w :: lib.safeBytes(v).Some? ==> lib.safeBytes(v) != lib.plainBytes(w)
  }

  /** keccak256 does not collide on the first 30 bytes between what they write. */
  ghost predicate NoShortCollision<Pr, V(!new)>(keccak: Hash, lib: Library<Pr, V>) {
    forall v, w :: lib.safeBytes(v).Some? && lib.plainBytes(w).Some?
                   && SameFirst30(keccak(lib.plainBytes(w).value), keccak(lib.safeBytes(v).value)) ==>
      lib.safeBytes(v) == lib.plainBytes(w)
  }

  /** The bytes the verifier stored for a ciphertext are its writer's. */
  lemma ServiceBytes<Pr, V>(keccak: Hash, lib: Library<Pr, V>, sub: Submission, j: nat) returns (v: V)
    requires Served(keccak, ServiceReader(lib), sub) && j < |sub.cts|
    ensures lib.safeBytes(v) == Some(sub.cts[j].ctBytes) && keccak(sub.cts[j].ctBytes) == sub.cts[j].ctHash
  {
    CoveredIsWellHashed(keccak, ServiceReader(lib)(sub.packed).value, AccountOf(sub),
                        AddressBytes(sub.contract).value, sub);
    hide Committed, Decode, Strip0x;
    var metadata := Metadata(AccountOf(sub), sub.zone, sub.chainId, AddressBytes(sub.contract).value);
    var cells := lib.expand(lib.safeRead(sub.packed).value, metadata).value;
    assert WrittenAll(cells, lib.safeBytes)[j] == ExpandedOf(sub.cts)[j] == ToExpanded(sub.cts[j]);
    v := cells[j].value;
  }

  /** The bytes the tool compares are its own writer's. */
  lemma ToolBytes<Pr, V>(keccak: Hash, lib: Library<Pr, V>, sub: Submission, j: nat) returns (w: V)
    requires Decode(Strip0x(sub.account)).Some? && AddressBytes(sub.contract).Some? && j < |sub.cts|
    requires ToolMatches(keccak, ToolReader(lib), sub, j)
    ensures lib.plainBytes(w).Some? && SameFirst30(keccak(lib.plainBytes(w).value), sub.cts[j].ctHash)
  {
    hide Decode, Strip0x;
    var metadata := Metadata(AccountOf(sub), sub.zone, sub.chainId, AddressBytes(sub.contract).value);
    var cells := lib.expand(lib.plainRead(sub.packed).value, metadata).value;
    assert ToolExpansion(ToolReader(lib), sub) == Some(WrittenAll(cells, lib.plainBytes));
    var e := WrittenAll(cells, lib.plainBytes)[j];
    assert e == Written(cells[j], lib.plainBytes) && e.Ct?;
    w := cells[j].value;
  }

  lemma NothingMatches<Pr, V(!new)>(keccak: Hash, lib: Library<Pr, V>, sub: Submission, j: nat)
    requires DifferentFormats(lib) && NoShortCollision(keccak, lib)
    requires Served(keccak, ServiceReader(lib), sub) && j < |sub.cts|
    ensures !ToolMatches(keccak, ToolReader(lib), sub, j)
  {
    assert Decode(Strip0x(sub.account)).Some? && AddressBytes(sub.contract).Some?;
    hide Served, ToolMatches, SameFirst30;
    if ToolMatches(keccak, ToolReader(lib), sub, j) {
      var v := ServiceBytes(keccak, lib, sub, j);
      var w := ToolBytes(keccak, lib, sub, j);
      assert false;
    }
  }

  /** So with different formats no audit of an input the verifier stored ever reports a
      match, whatever its account and however its key is spelled. */
  lemma NoStoredInputMatches<Pr, V(!new)>(keccak: Hash, blake3: Hash, lib: Library<Pr, V>, subs: seq<Submission>,
                                          log: seq<P.Write>, k: nat, i: nat, arg: Bytes)
    requires DifferentFormats(lib) && NoShortCollision(keccak, lib)
    requires AllServed(keccak, ServiceReader(lib), subs) && ProofsAreNamed(keccak, blake3, ServiceReader(lib), subs)
    requires k < |subs| && i < |subs[k].cts| && Decode(Strip0x(arg)) == Some(KeyHash(subs[k], i))
    requires Undisturbed(blake3, subs, log, arg, subs[k].chainId, subs[k].zone)
    requires P.Holds(log, CtPath(OLD_PREFIX, arg, subs[k].chainId, subs[k].zone)).None?
    requires P.Wrote(log, CtItem(blake3, subs[k], i)) && P.Wrote(log, ProofItem(blake3, subs[k]))
    ensures !IsMatch(AuditResult(keccak, ToolReader(lib), StoreOf(log), arg, subs[k].chainId))
  {
    hide DifferentFormats, NoShortCollision, Covers, CtItem, ProofItem, AuditResult, Decode, ToolMatches, CtPath;
    MatchExactly(keccak, blake3, ServiceReader(lib), ToolReader(lib), subs, log, k, i, arg);
    if Lowercase(Strip0x(arg)) {
      forall a, j | 0 <= a < |subs| && 0 <= j < |subs[a].cts|
        ensures !ToolMatches(keccak, ToolReader(lib), subs[a], j)
      {
        NothingMatches(keccak, lib, subs[a], j);
      }
    }
  }

  // ----- a released input that the tool rejects -----------------------------

  /** A library with one proof, of one ciphertext, whose bytes are [1] in the safe and
      [2] in the plain format. `readable` tells whether the plain reader reads proofs. */
  function ToyLibrary(readable: bool): Library<bool, bool> {
    Library((_: Bytes) => Some(true), (_: Bytes) => if readable then Some(true) else None,
            (_: bool, _: Bytes) => Some([Value(0, true)]), (_: bool) => Some([1]), (_: bool) => Some([2]))
  }

  function AddressText(address: Address): (text: Text)
    ensures Decode(Strip0x(text)) == Some(address) && AddressBytes(text) == Some(address)
  {
    DecodeEncode(address);
    AsciiIsUtf8(To0x(address));
    To0x(address)
  }

  /** A request of a 20-byte account with that proof. */
  function ToySubmission(keccak: Hash, address: Address): (sub: Submission)
    ensures sub.Sized() && |sub.cts| == 1 && sub.cts[0].ctHash == keccak([1])
    ensures Decode(Strip0x(sub.account)) == Some(address) && AddressBytes(sub.contract) == Some(address)
  {
    Submission([], [Verified(keccak, Ct(0, [1]), 0, address, 1, address)],
               AddressText(address), 0, 1, AddressText(address), [])
  }

  lemma ToyIsServed(keccak: Hash, address: Address, readable: bool)
    ensures Served(keccak, ServiceReader(ToyLibrary(readable)), ToySubmission(keccak, address))
  {
    var lib, sub := ToyLibrary(readable), ToySubmission(keccak, address);
    var prove := ServiceReader(lib)(sub.packed).value;
    var expanded := [Ct(0, [1])];
    assert WrittenAll([Value(0, true)], lib.safeBytes) == expanded;
    assert prove(Metadata(address, 0, 1, address)) == Some(expanded);
    assert sub.cts == [Verified(keccak, expanded[0], 0, address, 1, address)];
    hide CtMessage, Metadata, Decode, Strip0x, Verified, Covers, ServiceReader, AddressText;
    assert VerifiedAll(keccak, expanded, 0, address, 1, address) == sub.cts;
    CoversExactly(keccak, prove, address, 0, 1, address, sub.cts, expanded);
  }

  /** What the tool makes of that request, if the hash tells the writers' bytes apart. */
  lemma ToyOutcome(keccak: Hash, blake3: Hash, address: Address, readable: bool, r: Result<Audited, AuditError>)
    requires !SameFirst30(keccak([2]), keccak([1]))
    requires ToolOutcome(keccak, blake3, ToolReader(ToyLibrary(readable)), ToySubmission(keccak, address), 0, r)
    ensures if readable then r.Ok? && !r.value.ctHashMatches else r == Err(BadProof)
  {
    var lib, sub := ToyLibrary(readable), ToySubmission(keccak, address);
    assert WrittenAll([Value(0, true)], lib.plainBytes) == [Ct(0, [2])];
    assert readable ==> ToolExpansion(ToolReader(lib), sub) == Some([Ct(0, [2])]);
    hide ToySubmission, ToolExpansion, SameFirst30, CtObject, Decode, Strip0x, Metadata;
  }

  lemma OnlyOwnIsServed(blake3: Hash, subs: seq<Submission>, log: seq<P.Write>, arg: Bytes, chainId: u32, zone: byte)
    requires P.OnlyMine(log) && forall k :: 0 <= k < |subs| ==> subs[k].Sized()
    ensures OthersServed(blake3, subs, log, arg, chainId, zone)
  {
  }

  /** Where there is one request with one ciphertext, the audit ends as its own. */
  lemma OnlyRequestDecides(keccak: Hash, blake3: Hash, tool: Replay, sub: Submission, log: seq<P.Write>, arg: Bytes,
                           r: Result<Audited, AuditError>)
    requires sub.Sized() && Decode(Strip0x(sub.account)).Some? && AddressBytes(sub.contract).Some? && |sub.cts| == 1
    requires P.Holds(log, CtPath(WRITTEN_PREFIX, arg, sub.chainId, sub.zone)).Some? && ProofStored(blake3, log, sub)
    requires BucketOutcome(keccak, blake3, tool, [sub], log, arg, sub.chainId, sub.zone, r)
    ensures ToolOutcome(keccak, blake3, tool, sub, 0, r)
  {
    hide ToolOutcome, CtPath, ProofPath, CtObject, PutCiphertext, KeyOf, Decode;
  }

  lemma OwnProofStored(blake3: Hash, sub: Submission, log: seq<P.Write>)
    requires sub.Sized() && P.Wrote(log, ProofItem(blake3, sub))
    ensures ProofStored(blake3, log, sub)
  {
    hide PutProof, ProofObject, ObjectPath;
    WrittenIsHeld(log, ProofItem(blake3, sub));
  }

  lemma OwnKey(sub: Submission, i: nat)
    requires i < |sub.cts|
    ensures var arg := KeyOf(sub.cts[i], sub.zone);
            Decode(Strip0x(arg)) == Some(KeyHash(sub, i)) && Lowercase(Strip0x(arg))
  {
    DecodeEncode(KeyHash(sub, i));
  }

  lemma AloneIsServed(keccak: Hash, blake3: Hash, serve: Replay, sub: Submission)
    requires Served(keccak, serve, sub)
    ensures AllServed(keccak, serve, [sub]) && ProofsAreNamed(keccak, blake3, serve, [sub]) && sub.Sized()
  {
    hide Covers, Decode, Strip0x;
  }

  lemma ReleasedEnds(keccak: Hash, blake3: Hash, serve: Replay, tool: Replay, sub: Submission,
                     config: R.RetryConfig, steps: seq<P.Step>)
    requires Served(keccak, serve, sub) && |sub.cts| == 1
    requires P.Run(PlanOf(blake3, sub, config), steps).Some?
    requires var s := P.Run(PlanOf(blake3, sub, config), steps).value; s.answer.Released? && P.OnlyMine(s.log)
    ensures var log, arg := P.Run(PlanOf(blake3, sub, config), steps).value.log, KeyOf(sub.cts[0], sub.zone);
            && sub.Sized() && P.Wrote(log, ProofItem(blake3, sub))
            && P.Holds(log, CtPath(WRITTEN_PREFIX, arg, sub.chainId, sub.zone)).Some?
            && BucketOutcome(keccak, blake3, tool, [sub], log, arg, sub.chainId, sub.zone,
                             AuditResult(keccak, tool, StoreOf(log), arg, sub.chainId))
  {
    var arg, log := KeyOf(sub.cts[0], sub.zone), P.Run(PlanOf(blake3, sub, config), steps).value.log;
    OwnKey(sub, 0);
    hide P.Run, P.OnlyMine, PlanOf, KeyOf, KeyHash, BucketOutcome, AuditResult, Covers, ToolOutcome, Items, CtItem,
         ProofItem, Undisturbed, OthersServed, Decode, CtPath, Strip0x, Lowercase;
    AloneIsServed(keccak, blake3, serve, sub);
    OnlyOwnIsServed(blake3, [sub], log, arg, sub.chainId, sub.zone);
    hide Served, AllServed, ProofsAreNamed;
    ReleasedInputsAreAudited(keccak, blake3, serve, tool, [sub], 0, config, steps, 0, arg);
  }

  /** Any run of a served request that nobody else disturbs ends, if in success, so that
      the audit of its only ciphertext ends as the replay of its proof does. */
  lemma ReleasedUndisturbed(keccak: Hash, blake3: Hash, serve: Replay, tool: Replay, sub: Submission,
                            config: R.RetryConfig, steps: seq<P.Step>)
    requires Served(keccak, serve, sub) && |sub.cts| == 1
    requires P.Run(PlanOf(blake3, sub, config), steps).Some?
    requires var s := P.Run(PlanOf(blake3, sub, config), steps).value; s.answer.Released? && P.OnlyMine(s.log)
    ensures var log := P.Run(PlanOf(blake3, sub, config), steps).value.log;
            ToolOutcome(keccak, blake3, tool, sub, 0,
                        AuditResult(keccak, tool, StoreOf(log), KeyOf(sub.cts[0], sub.zone), sub.chainId))
  {
    var arg, log := KeyOf(sub.cts[0], sub.zone), P.Run(PlanOf(blake3, sub, config), steps).value.log;
    hide P.Run, P.OnlyMine, PlanOf, KeyOf, BucketOutcome, AuditResult, Covers, ToolOutcome, Items, ProofItem, Decode,
         CtPath, Strip0x, ProofStored, P.Wrote;
    ReleasedEnds(keccak, blake3, serve, tool, sub, config, steps);
    OwnProofStored(blake3, sub, log);
    OnlyRequestDecides(keccak, blake3, tool, sub, log, arg, AuditResult(keccak, tool, StoreOf(log), arg, sub.chainId));
  }

  /** A released input, of a 20-byte account, whose audit by its own key does not
      match: with an error where the tool cannot read the verifier's proof bytes, and
      where it can because its own bytes for the ciphertext hash differently. */
  lemma ReleasedButRejected(keccak: Hash, blake3: Hash, address: Address, config: R.RetryConfig, readable: bool)
    returns (steps: seq<P.Step>)
    requires !SameFirst30(keccak([2]), keccak([1]))
    ensures Served(keccak, ServiceReader(ToyLibrary(readable)), ToySubmission(keccak, address))
    ensures var sub := ToySubmission(keccak, address);
            var run := P.Run(PlanOf(blake3, sub, config), steps);
            && run.Some? && run.value.answer.Released?
            && var r := AuditResult(keccak, ToolReader(ToyLibrary(readable)), StoreOf(run.value.log),
                                    KeyOf(sub.cts[0], sub.zone), sub.chainId);
               if readable then r.Ok? && !r.value.ctHashMatches else r == Err(BadProof)
  {
    var lib, sub := ToyLibrary(readable), ToySubmission(keccak, address);
    ToyIsServed(keccak, address, readable);
    hide P.Run, ToyLibrary, ToySubmission, Served, PlanOf, KeyOf, ToolReader, AuditResult, ToolOutcome, SameFirst30;
    steps := P.SuccessIsReachable(PlanOf(blake3, sub, config));
    ReleasedUndisturbed(keccak, blake3, ServiceReader(lib), ToolReader(lib), sub, config, steps);
    var log := P.Run(PlanOf(blake3, sub, config), steps).value.log;
    ToyOutcome(keccak, blake3, address, readable,
               AuditResult(keccak, ToolReader(lib), StoreOf(log), KeyOf(sub.cts[0], sub.zone), sub.chainId));
  }

  // ----- what a released request leaves -------------------------------------

  ghost predicate OnlyOwnWrites(items: seq<P.Item>, log: seq<P.Write>) {
    forall item :: item in items ==> P.NoForeignWrite(log, item.path)
  }

  lemma OwnCt(blake3: Hash, sub: Submission, log: seq<P.Write>, i: nat) returns (j: nat)
    requires sub.Sized() && i < |sub.cts| && P.HoldsOwn(Items(blake3, sub), log, CtItem(blake3, sub, i).path)
    ensures j < |sub.cts| && KeyOf(sub.cts[j], sub.zone) == KeyOf(sub.cts[i], sub.zone)
    ensures P.Holds(log, CtItem(blake3, sub, i).path) == Some(CtItem(blake3, sub, j).data)
  {
    hide Items, PutCiphertext, PutProof, CtObject, ProofObject, KeyText;
    TypesDiffer();
    var key := KeyHash(sub, i);
    var n :| 0 <= n < |Items(blake3, sub)| && Items(blake3, sub)[n].path == CtItem(blake3, sub, i).path
             && P.Holds(log, CtItem(blake3, sub, i).path) == Some(Items(blake3, sub)[n].data);
    j := ItemKinds(blake3, sub, Items(blake3, sub)[n]);
    DecodeEncode(key);
    HexHasNoSlash(Encode(key));
    if j < |sub.cts| {
      WrittenPaths(WRITTEN_PREFIX, sub.chainId, sub.zone, CTS_TYPE, KeyText(key),
                   sub.chainId, sub.zone, CTS_TYPE, KeyHash(sub, j));
      EncodeInjective(key, KeyHash(sub, j));
    } else {
      WrittenPaths(WRITTEN_PREFIX, sub.chainId, sub.zone, CTS_TYPE, KeyText(key),
                   sub.chainId, sub.zone, PROOFS_TYPE, blake3(sub.packed));
    }
  }

  lemma OwnProof(blake3: Hash, sub: Submission, log: seq<P.Write>)
    requires sub.Sized() && P.HoldsOwn(Items(blake3, sub), log, ProofItem(blake3, sub).path)
    ensures P.Holds(log, ProofItem(blake3, sub).path) == Some(ProofItem(blake3, sub).data)
  {
    hide Items, PutCiphertext, PutProof, CtObject, ProofObject, KeyText;
    TypesDiffer();
    var id := blake3(sub.packed);
    var n :| 0 <= n < |Items(blake3, sub)| && Items(blake3, sub)[n].path == ProofItem(blake3, sub).path
             && P.Holds(log, ProofItem(blake3, sub).path) == Some(Items(blake3, sub)[n].data);
    var j := ItemKinds(blake3, sub, Items(blake3, sub)[n]);
    DecodeEncode(id);
    HexHasNoSlash(Encode(id));
    if j < |sub.cts| {
      WrittenPaths(WRITTEN_PREFIX, sub.chainId, sub.zone, PROOFS_TYPE, KeyText(id),
                   sub.chainId, sub.zone, CTS_TYPE, KeyHash(sub, j));
    }
  }

  /** After a released run with nobody else writing to its paths, the path of a
      ciphertext holds one of the ciphertext objects of the request with that very
      key, and the proof's path its proof. */
  lemma ReleasedObjects(blake3: Hash, sub: Submission, config: R.RetryConfig, steps: seq<P.Step>, i: nat)
    returns (j: nat)
    requires sub.Sized() && i < |sub.cts|
    requires P.Run(PlanOf(blake3, sub, config), steps).Some?
    requires var s := P.Run(PlanOf(blake3, sub, config), steps).value;
             s.answer.Released? && OnlyOwnWrites(Items(blake3, sub), s.log)
    ensures j < |sub.cts| && KeyOf(sub.cts[j], sub.zone) == KeyOf(sub.cts[i], sub.zone)
    ensures var log := P.Run(PlanOf(blake3, sub, config), steps).value.log;
            && P.Holds(log, CtItem(blake3, sub, i).path) == Some(CtItem(blake3, sub, j).data)
            && P.Holds(log, ProofItem(blake3, sub).path) == Some(ProofItem(blake3, sub).data)
  {
    var plan := PlanOf(blake3, sub, config);
    var log := P.Run(plan, steps).value.log;
    hide CtItem, ProofItem;
    P.PersistBeforeRelease(plan, steps);
    ItemAt(blake3, sub, |sub.cts|, i);
    assert plan.items[i] == CtItem(blake3, sub, i) && plan.items[|sub.cts|] == ProofItem(blake3, sub);
    j := OwnCt(blake3, sub, log, i);
    OwnProof(blake3, sub, log);
  }

  // ----- inputs stored before the prefix and the contract field --------------

  /** An object of the previous prefix with a proof of the previous layout beside it. */
  predicate OldObjects(keccak: Hash, store: Store, arg: Bytes, chainId: u32, o: StoredCiphertext, l: LegacyStoredProof)
  {
    var h, m := Decode(Strip0x(arg)), o.metadata;
    && h.Some? && |h.value| == 32 && l.metadata.Storable() && CharBoundary(Strip0x(m.proofId), SHARD_PREFIX_LENGTH)
    && store(CtPath(WRITTEN_PREFIX, arg, chainId, h.value[ZONE_BYTE])).None?
    && store(CtPath(OLD_PREFIX, arg, chainId, h.value[ZONE_BYTE])) == Some(PutCiphertext(o, []))
    && store(ObjectPath(OLD_PREFIX, m.chainId, m.securityZone, PROOFS_TYPE, m.proofId)) == Some(PutLegacy(l, []))
    && KeyFits(keccak, arg, o)
  }

  lemma OldObjectsFound(keccak: Hash, store: Store, arg: Bytes, chainId: u32, o: StoredCiphertext,
                        l: LegacyStoredProof)
    requires OldObjects(keccak, store, arg, chainId, o, l)
    ensures Found(keccak, store, arg, chainId) == Ok((o, Lifted(l)))
  {
    hide CtPath, ObjectPath, PutCiphertext, GetCiphertext, PutLegacy, FromBytes, KeyFits, Decode, FetchUnder;
    var h := Decode(Strip0x(arg)).value;
    CiphertextReadBack(o, []);
    LegacyRoundTrip(l);
    FetchCases(store, arg, chainId, h[ZONE_BYTE]);
    FoundFromFetched(keccak, store, arg, chainId, h);
  }

  /** Inputs stored under the previous prefix and layout stay auditable: the audit
      finds them behind the newer prefix, reads the proof beside them, and verifies
      it against the metadata of that time, which ended with the chain. */
  lemma OldInputsStayAuditable(keccak: Hash, replay: Replay, store: Store, arg: Bytes, chainId: u32,
                               o: StoredCiphertext, l: LegacyStoredProof, account: Address, expanded: seq<Expanded>)
    requires OldObjects(keccak, store, arg, chainId, o, l)
    requires AddressBytes(o.metadata.accountAddr) == Some(account) && replay(l.proofData).Some?
    requires replay(l.proofData).value(Metadata(account, o.metadata.securityZone, o.metadata.chainId, []))
          == Some(expanded)
    requires AllExpand(expanded) && o.metadata.ctIndex < |expanded|
    ensures AuditResult(keccak, replay, store, arg, chainId)
         == Ok(Audited(o.metadata,
                       ComputedKey(keccak(expanded[o.metadata.ctIndex].bytes), o.metadata, IsTrivial(arg))
                       == o.metadata.ctHash))
  {
    hide Found, OldObjects, ComputedKey, IsTrivial, Metadata;
    OldObjectsFound(keccak, store, arg, chainId, o, l);
    assert Decode(Strip0x([])) == Some([]);
  }
}
