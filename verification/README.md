# Verification of the zk-verifier's protocols

A Dafny model of the logic of the zk-verifier service and its tools that does not
live in a library: what a batch signature commits to, what is persisted before a
signature is released, where it is stored and how the audit tool finds it again, how
requests are admitted, retried and observed, and how the metrics export is cut into
requests the Telemetry API accepts. `dafny verify dfyconfig.toml` checks the whole
project.

| file | models |
|---|---|
| `Common.dfy`, `Hex.dfy` | bytes, options, big lists; hexadecimal text and the canonical contract address |
| `OtlpModel.dfy`, `OtlpPacking.dfy`, `OtlpProject.dfy`, `OtlpSplit.dfy`, `OtlpSend.dfy` | the OTLP export splitter: attributed points and slices, greedy packing, rebuilt requests, the loops with their cursors, and the sequential send loop |
| `Gate.dfy` | admission cap and CPU gate of the batch endpoint as a transition system |
| `Persist.dfy` | the n+1 uploads beside StoreCts, interleaved with failures, late writes, other requests and disconnects |
| `Retry.dfy` | both retry loops in 32- and 64-bit arithmetic |
| `Bincode.dfy`, `Paths.dfy` | the two stored-object layouts and the object paths |
| `Signing.dfy`, `Batch.dfy`, `Ecdsa.dfy` | packed messages, the batch digest, client and server, low-S normalisation with key recovery |
| `Endpoint.dfy` | the whole endpoint: the gate with a run of persistence for every request that gets that far |
| `Storage.dfy`, `Audit.dfy`, `Auditability.dfy`, `AuditOutcomes.dfy` | what a request writes, how the audit reads it, where the two agree and how an audit ends |
| `WorkSharing.dfy`, `Health.dfy` | the load generator's shared counter; the health loop's log and gauges |

## Reading the model

- Text is its UTF-8 bytes. Strings of the source that are read from storage are
  checked to be well-formed UTF-8 as in section 4 of RFC 3629.
- Hash functions are parameters: any function from bytes to 32 bytes. Where a property
  needs it, the hypothesis is that the hash does not collide on the messages actually
  hashed (`NoCollision`), never global injectivity, which no hash has.
- Curve points are any group of odd prime order with coordinates where P and -P share x
  and differ in the parity of y; `Ecdsa.ToyIsCurve` shows that these laws can be met.
- The proof system is a function from metadata to the expanded ciphertexts, or nothing.
- The verifier and the audit tool handle proofs and ciphertexts in different formats: the
  verifier reads proofs and writes ciphertexts with `rust_common::safe_serde`
  (`zk-verifier/src/api/mod.rs:769`, `zk-verifier/src/verifier/traits.rs:24`), the tool
  with plain `bincode` (`zk-verifier/scripts/verify_stored_ct.rs:757` and line 224). So a
  library has two readers and two writers (`AuditOutcomes.Library`), and the two programs
  are two functions from proof bytes (`ServiceReader`, `ToolReader`).
- Network and storage outcomes are arbitrary: scripts for the sequential loops, steps for
  the concurrent parts. An upload may reach the store and be reported as failed, and may
  reach it after its caller has given up.
- Integers are unbounded except where a width matters; arithmetic that can overflow wraps,
  as in a release build (a debug build would panic there instead).

## Findings

Places where the code does less than its comments or its callers might expect, each with
its exact condition:

- Backoff closed form: validating a `RetryConfig` does not bound the delay arithmetic.
  Every sleep is the capped power of two if and only if `max_retries` is 1, or
  `max_delay_ms` is below 2^63, or `initial_delay_ms * 2^(max_retries - 2)` is
  (`Retry.ClosedForm`); `Retry.WrappedRun` is a run whose second sleep is 0.
- Attempt bound: at `max_retries = u32::MAX` the attempt counter wraps to 0 and the loop
  never gives up (`Retry.AttemptBound`).
- EVM recovery byte: documented as 27-28, it is 29 or 30 when x was reduced
  (`Ecdsa.EvmVRange`).
- Audit of released inputs: it does not confirm them, as the tool reads the stored proof
  and writes the ciphertexts it hashes in another format than the verifier.
  `AuditOutcomes.ReleasedButRejected` gives a released input of a 20-byte account whose
  audit fails on the proof bytes or, where they can be read, reports a mismatch. An audit
  matches if and only if the key is spelled in lowercase, the account is 20 bytes, the
  tool reads the stored proof bytes and expands them throughout, and the hash of its own
  bytes for the ciphertext agrees with the stored hash on the first 30 bytes
  (`AuditOutcomes.MatchExactly`; `SameProofMatches` for one proof read by both). If the
  two formats never give the same bytes and keccak256 does not collide on 30 of them, no
  input the verifier stored ever matches (`AuditOutcomes.NoStoredInputMatches`); with one
  format every 20-byte account's would (`AuditOutcomes.OneFormatMatches`). The check
  against the hash stored with the object is not affected
  (`Auditability.StoredHashAlwaysPasses`).
- Audit of a key not spelled in lowercase: accepted, but looked up at a path the writer
  never uses, so not found (`Auditability.ReaderFindsWriterPath`,
  `AuditOutcomes.StoredInputsAreAudited`).
- Accounts that are not 20 bytes are verified, signed and stored, but the audit tool
  refuses them once it has read the proof (`AuditOutcomes.ReplayOfRequest`).
- A previous-layout object parses as a current one only if bytes follow it
  (`Bincode.LegacyTakenForCurrent`); as written it never does.

## Model

| member | source | states |
|---|---|---|
| OtlpModel.MetricSlice | zk-verifier/src/otel_split.rs:35-48 | The copy is the metric with its points replaced by those of the range, in order: name, unit, metadata, temporality and monotonicity are unchanged. |
| OtlpModel.RowIs | zk-verifier/src/otel_split.rs:55-61 | An attributed point is the point, its metric without the points, and the scope, the resource and both schema URLs it is reported under; a metric has one for each of its points. |
| OtlpModel.TotalIsRows | zk-verifier/src/otel_split.rs:55-61 | The total that decides whether to split is the number of attributed points: points with the resource, scope, schema URLs and metric fields they are reported under. |
| OtlpModel.MetricSlices | zk-verifier/src/otel_split.rs:77-83 | A metric of n points becomes exactly ceil(n/max) pieces, all from its own resource and scope position; none for n = 0. |
| OtlpModel.PieceRows | zk-verifier/src/otel_split.rs:82-84 | Piece k is never empty and carries exactly the attributed points from k*max up to (k+1)*max or n. |
| OtlpModel.SlicingConserves | zk-verifier/src/otel_split.rs:74-84 | For every export and every max >= 1 the pieces of all metrics, in source order, have 1 to max points each and together carry every attributed point once, in order. |
| OtlpPacking.GroupsArePacked | zk-verifier/src/otel_split.rs:85-89 | The greedy loop cuts the pieces into contiguous nonempty groups of at most max points, where the first piece of a group would not have fitted into the group before it. |
| OtlpPacking.PackedIsUnique | zk-verifier/src/otel_split.rs:85-89 | There is only one such grouping, so the statement above pins the splitter's groups down completely. |
| OtlpPacking.PackedIsOptimal | zk-verifier/src/otel_split.rs:81-122 | No order-preserving partition of the pieces into contiguous groups of at most max points has fewer groups. |
| OtlpPacking.PackedBounds | zk-verifier/src/otel_split.rs:85-89 | Two consecutive groups together exceed max points, so for c groups and a total: ceil(total/max) <= c and floor(c/2)*(max+1) <= total. |
| OtlpProject.AddSlice | zk-verifier/src/otel_split.rs:90-113 | Adding the next piece to a rebuilt group appends its metric to its own scope's shell, opening that shell and its resource's only if they are not there. |
| OtlpProject.ProjectConserves | zk-verifier/src/otel_split.rs:90-113 | Rebuilding any in-order group keeps its attributed points: nothing lands under another resource's or scope's shell. |
| OtlpProject.ProjectionWellFormed | zk-verifier/src/otel_split.rs:90-113 | A rebuilt group has no empty shell, at most one shell per source resource and one per source scope in it, in source order, and only metrics of 1 to max points. |
| OtlpSplit.PushIntoShells | zk-verifier/src/otel_split.rs:90-114 | One turn of the loop body: with the cursors saying what is open, the piece ends up in the right shells and the cursors name them. |
| OtlpSplit.CloseIfFull | zk-verifier/src/otel_split.rs:85-89 | A piece that does not fit closes the open request, encodes it and makes the cursors forget its shells; otherwise nothing changes. |
| OtlpSplit.PushSlice | zk-verifier/src/otel_split.rs:82-115 | After each piece the five loop variables are exactly those of greedy packing of everything pushed so far. |
| OtlpSplit.SplitMetric | zk-verifier/src/otel_split.rs:76-116 | The inner `while` pushes exactly the pieces of one metric. |
| OtlpSplit.SplitScope | zk-verifier/src/otel_split.rs:76-117 | The metric loop pushes exactly the pieces of one scope, metrics without points included (they push nothing). |
| OtlpSplit.SplitResource | zk-verifier/src/otel_split.rs:75-118 | The scope loop pushes exactly the pieces of one resource. |
| OtlpSplit.SplitAll | zk-verifier/src/otel_split.rs:66-119 | The three loops push exactly the pieces of the export, in source order. |
| OtlpSplit.SplitRequest | zk-verifier/src/otel_split.rs:53-124 | Undecodable bytes are refused; an export within the cap comes back as the same bytes; a larger one as the encodings of its greedy groups rebuilt as requests. |
| OtlpSend.SplitConserves | zk-verifier/src/otel_split.rs:72-122 | End to end: decoding the returned requests and flattening them gives exactly the ordered attributed points of the input. |
| OtlpSend.SplitWellFormed | zk-verifier/src/otel_split.rs:55-122 | Every returned request decodes, has between 1 and max points and mirrors the source's shells; the list is empty only if there is nothing to send. |
| OtlpSend.SplitIsOptimal | zk-verifier/src/otel_split.rs:72-122 | The number of requests is minimal among all order-preserving ways to send the pieces, and within the packing bounds for the export's points. |
| OtlpSend.SendPieces | zk-verifier/src/otel_push.rs:130-141 | For every behaviour of the API: if answer i is the first that is no status from 200 to 299, it has taken exactly the first i pieces (and piece i too if it was taken and its answer lost) and the response is that answer's status, none if it was lost; without such an answer it has taken all. |
| OtlpSend.SendBytes | zk-verifier/src/otel_push.rs:116-159 | The same of a whole export: what was taken is that prefix of the requests it splits into, so of its attributed points; the result is the status of the first answer outside 200 to 299, an error without a token, with bytes that do not decode or a lost answer; a success result means that every piece was answered by a success and all points were taken. |
| Gate.StepKeepsInv | zk-verifier/src/api/mod.rs:448-509 | Every step (arrival, shed, 400, CPU permit, closure start, end or panic, permit drop, join, persist answer, client disconnect) keeps permits conserved and the gauge exact. |
| Gate.PermitsConserved | zk-verifier/src/api/mod.rs:448-509 | In every reachable state the free admission permits and the live handlers (parsing, waiting, persisting) add up to the cap, the free CPU permits and the blocking tasks queued, running or unwinding to the gate, and `zk_verify_in_flight` equals the running closures. |
| Gate.AnythingCanHappen | zk-verifier/src/api/mod.rs:410-427 | Arrivals, every way a running closure can end, every status of persistence and a client that hangs up at any await are possible steps; a hang-up leaves the closure as it is. |
| Gate.AnswersFit | zk-verifier/src/api/mod.rs:500-508 | In every reachable state: 503 exactly for the requests that were shed; an admitted one without a task got 400, one whose task refused 400, one whose task panicked 500; anything else was verified first and got 200, 400, 403, 404, 500, 502 or 504. |
| Gate.OrphanBound | zk-verifier/src/api/mod.rs:260-271 | Live handlers and verify tasks whose handler is gone never exceed the two caps together; the latter never exceed the CPU gate. |
| Gate.ShedExactlyAtCap | zk-verifier/src/api/mod.rs:448-457 | A request is denied admission, and answered with 503, exactly when as many handlers are live as the cap allows. |
| Gate.Progress | zk-verifier/src/api/mod.rs:474-509 | While work is left the server can take a step of its own, with no arrival and no disconnect: waiting at the CPU gate never deadlocks. |
| Gate.StepUsesWork | zk-verifier/src/api/mod.rs:466-509 | Every step but an arrival strictly decreases the work left. |
| Gate.Quiescence | zk-verifier/src/api/mod.rs:410-427 | The server has no step of its own exactly when no work is left, and then both semaphores are full and the gauge is at zero. |
| Gate.RunsEnd | zk-verifier/src/api/mod.rs:659-755 | Without new arrivals every run ends within the work there was. |
| Persist.StepKeepsInv | zk-verifier/src/api/mod.rs:536-649 | Every interleaved step of the n+1 uploads, their retries, the StoreCts call, late writes, other requests' writes and disconnects keeps the persistence invariant. |
| Persist.PersistBeforeRelease | zk-verifier/src/api/mod.rs:627-649 | In every run that ends in a success answer every object was written to the store, StoreCts accepted a call and every accepted call lists all entries in order under the request's chain; where nobody else wrote, each path holds one of the request's objects for that path. |
| Persist.RefusedMeansFailed | zk-verifier/src/api/mod.rs:589-648 | A refusal means an upload that failed with an error that is not retried or once more than its retries, answered with 504 for a timeout, 502 network, 403 permission, 404 not found, 400 serialization and 500 otherwise, and preferred over StoreCts; or StoreCts failing in every call of its budget, answered with 500. |
| Persist.AnsweredAs | zk-verifier/src/api/mod.rs:589-603 | A request whose upload failed is refused with 403 if the storage answered 401 or 403, 404 if 404, 504 if 408, 502 if 429, 5xx or nothing, and 500 otherwise. |
| Persist.FailureStopsUploads | zk-verifier/src/storage/storage_manager.rs:154 | Once an upload has failed for good the others are stored, failed or dropped, and none makes another call. |
| Persist.AnythingCanHappen | zk-verifier/src/api/mod.rs:536-649 | Other writers, uploads that land late, failures of any kind of any call under way, landed or not, and disconnects are possible steps. |
| Persist.HoldsLastWrite | zk-verifier/src/storage/storage_manager.rs:161-162 | Upserts: a path holds the data of the last write to it, and nothing if there was none. |
| Persist.CallsBounded | zk-verifier/src/storage/storage_manager.rs:254-306 | Over every interleaving no upload is attempted more than max_retries + 1 times and StoreCts not more than its retries + 1. |
| Persist.SuccessIsReachable | zk-verifier/src/api/mod.rs:627-649 | For every request there is a run that ends in success with nobody else writing. |
| Persist.StepUsesWork | zk-verifier/src/storage/storage_manager.rs:254-306 | Every step of a request itself, whatever its calls answer, strictly decreases a measure over phases and failures. |
| Persist.Progress | zk-verifier/src/api/mod.rs:627-649 | Until a request is answered it always has a step of its own to take. |
| Persist.EveryRequestIsAnswered | zk-verifier/src/api/mod.rs:627-649 | From every reachable state, left to itself a request takes at most as many steps as there is work, and where it can go no further it has been answered; for every retry budget but the largest 32-bit value. |
| Persist.HoldsSomeWrite | zk-verifier/src/storage/storage_manager.rs:161-162 | Whoever has written to a path, it holds the data of one of the writes to it. |
| Endpoint.GateOfRun | zk-verifier/src/api/mod.rs:448-509 | Seen from the gate, every run of the whole endpoint is a run of the gate, so all that holds of the gate holds here, with persistence answering what it really came to. |
| Endpoint.SuccessMeansPersisted | zk-verifier/src/api/mod.rs:500-649 | In every reachable state, through sheds, refusals, panics and disconnects of any request: a request answered 200 has had every object written to the store and StoreCts accept a call, and every accepted call is its own. |
| Endpoint.FailureMeansGaveUp | zk-verifier/src/api/mod.rs:627-649 | A verified request answered with another status has an upload or StoreCts that has given up, and the status of that failure, error by error. |
| Endpoint.Progress | zk-verifier/src/api/mod.rs:474-649 | While work is left the whole server has a step of its own: one that persists has one until it has an answer, and then gives it. |
| Endpoint.AnythingCanHappen | zk-verifier/src/api/mod.rs:474-649 | Every step of the gate and every step of a request's persistence is possible in the whole. |
| Retry.StopsExactlyOnDenied | zk-verifier/src/storage/gcs.rs:100-117 | Of all answers and non-answers exactly 401, 403 and 404 stop the retries. |
| Retry.RetriesExactly | zk-verifier/src/storage/storage_manager.rs:273-300 | A failure is followed by another call exactly if it is a network failure, a timeout or a generic one and fewer than max_retries came before it, or the budget is the largest 32-bit value. |
| Retry.RetryOperation | zk-verifier/src/storage/storage_manager.rs:244-307 | For every script of outcomes: the loop goes on exactly while calls fail retryably within the budget, sleeps once between calls, and records exactly one outcome, that of its last call. |
| Retry.DelaysAt | zk-verifier/src/storage/storage_manager.rs:296-303 | Sleep i of a run is the delay in force after i retries. |
| Retry.ClosedForm | zk-verifier/src/storage/storage_manager.rs:302-303 | With a validated configuration every sleep that some run makes, sleep k, is min(d0*2^k, cap) if and only if max_retries is 1, or the cap is below 2^63, or d0*2^(max_retries-2) is: otherwise the doubling of the 64-bit delay wraps before a sleep. |
| Retry.SleptWithinBudget | zk-verifier/src/storage/storage_manager.rs:273-303 | Sleep k happens in some run exactly when k < max_retries, or at the largest 32-bit budget, always. |
| Retry.WrappedRun | zk-verifier/src/storage/storage_manager.rs:302-303 | A run of the loop, under a configuration that validates, that sleeps 2^63 milliseconds and then 0 where the closed form asks for the cap. |
| Retry.TotalCapped | zk-verifier/src/config.rs:20-29 | The total sleep of k retries of a validated configuration is at most k*cap, wrapped or not. |
| Retry.ValidatedExactly | zk-verifier/src/config.rs:20-30 | A configuration validates exactly if it allows some retry and no sleep is ever longer than its cap. |
| Retry.AttemptBound | zk-verifier/src/storage/storage_manager.rs:273-291 | At most max_retries + 1 calls are made if and only if max_retries is below the largest 32-bit value; at that value the attempt counter wraps and no number of failures ends the loop. |
| Retry.StoreCtsRetryable | zk-verifier/src/api/mod.rs:365-398 | The StoreCts loop makes at most M + 1 calls, gives up exactly after M + 1 failures, doubles its delay after each sleep and records one outcome. |
| Retry.StoreCtsDelaysAt | zk-verifier/src/api/mod.rs:392-396 | The same for StoreCts. |
| Retry.StoreCtsClosedForm | zk-verifier/src/api/mod.rs:392-396 | Sleep k is d0*2^k for every k below M if and only if the last one fits 64 bits. |
| Retry.StoreCtsTotal | zk-verifier/src/api/mod.rs:392-396 | Unwrapped, k sleeps last d0*(2^k - 1) in all. |
| Retry.EndpointBudget | zk-verifier/src/api/mod.rs:611-620 | With the endpoint's settings StoreCts sleeps 31 seconds in all over five retries, and never longer. |
| Bincode.ReadsCiphertext | zk-verifier/src/storage/types.rs:38-67 | A ciphertext object is read from exactly the byte strings that start with its encoding (trailing bytes accepted). |
| Bincode.ReadsCurrent | zk-verifier/src/storage/types.rs:69-119 | The same for a proof object in the current layout. |
| Bincode.CiphertextLayout | zk-verifier/src/storage/types.rs:38-67 | The bytes of a ciphertext object field by field: lengths in 8 bytes before texts and data, integers in the width of their type, the source's order of fields. |
| Bincode.BaseLayout | zk-verifier/src/storage/types.rs:69-119 | The same for the fields both layouts of a proof object begin with. |
| Bincode.TextsLayout | zk-verifier/src/storage/types.rs:69-119 | A list of texts is each length and text in turn. |
| Bincode.ProofLayouts | zk-verifier/scripts/verify_stored_ct.rs:127-152 | After these come the proof bytes in the previous layout, the contract and then the proof bytes in the current one. |
| Bincode.LowestFirst | zk-verifier/src/storage/types.rs:38-119 | Integers are little-endian. |
| Bincode.TextIsScalars | zk-verifier/scripts/verify_stored_ct.rs:127-152 | What is read as text is exactly the encodings of Unicode scalar values (section 3 of RFC 3629). |
| Bincode.CurrentRoundTrip | zk-verifier/scripts/verify_stored_ct.rs:132-135 | Every current proof object is read back whole, whatever bytes follow it. |
| Bincode.LegacyRoundTrip | zk-verifier/scripts/verify_stored_ct.rs:127-152 | Every previous-layout object fails to parse as current and comes back with its fields and an empty contract. |
| Bincode.LegacyTakenForCurrent | zk-verifier/scripts/verify_stored_ct.rs:127-152 | With bytes after it, a previous-layout object is taken for a current one exactly when its proof bytes are UTF-8 and the bytes after it start with an encoded vector. |
| Bincode.FromBytesReads | zk-verifier/scripts/verify_stored_ct.rs:127-152 | What `from_bytes` reads, and as what: exactly the byte strings that start with a current encoding or, starting with none, with a previous-layout one, whose contract then is empty. |
| Bincode.CurrentAlsoReadsAsLegacy | zk-verifier/scripts/verify_stored_ct.rs:127-133 | Every current object also parses as the previous layout, with the contract text as its proof bytes: the order of attempts is necessary. |
| Bincode.LayoutsInjective | zk-verifier/src/storage/types.rs:69-119 | No two objects of either layout share their bytes. |
| Hex.EncodeAt | zk-verifier/src/api/mod.rs:98-108 | Every byte is written as its high and its low digit out of 0123456789abcdef. |
| Hex.ReadsAnyCase | zk-verifier/src/api/mod.rs:98-108 | A text is read as given bytes exactly if it is their encoding once A to F are in lowercase: case does not matter and nothing else is read. |
| Hex.CanonicalKeepsBytes | zk-verifier/src/api/mod.rs:98-108 | The canonical contract form exists exactly for spellings of 20 bytes, is `0x` and 40 lowercase digits of the same bytes, and is its own canonical form. |
| Hex.CanonicalOfSpelling | zk-verifier/src/api/mod.rs:98-108 | Every spelling of an address, in any case, with `0x` or without, has the same canonical form: `0x` and its lowercase digits. |
| Hex.SpellingOfCanonical | zk-verifier/src/api/mod.rs:98-108 | And what has a canonical form is such a spelling of that address. |
| Hex.CanonicalAgreesOnBytes | zk-verifier/src/api/mod.rs:98-108 | Two accepted spellings have the same canonical form exactly when they decode to the same 20 bytes. |
| Paths.ParsePrinted | zk-verifier/src/storage/storage_manager.rs:80 | Every 32-bit chain id survives printing and parsing. |
| Paths.ParsesExactly | zk-verifier/src/storage/storage_manager.rs:211 | The parser reads a number from exactly its decimal form with any zeros in front and at most one plus sign before them. |
| Paths.GenerateObjectKey | zk-verifier/src/storage/gcs.rs:127-158 | The parts pushed and joined are base path, dynamic path and sharded key, with slashes only between parts that are there. |
| Paths.PathSpelled | zk-verifier/src/storage/storage_manager.rs:50-55 | Paths spelled out for both prefixes and both kinds of object: `cofhe/v2/chain/C/security-zone/Z/verified-inputs/KKKK/K` with chain and zone in decimal and the first four characters of the key. |
| Paths.PathsDistinct | zk-verifier/src/storage/storage_manager.rs:50-55 | Paths under prefixes of one length are equal exactly when prefix, chain id, zone, object type and key (without `0x`) are. |
| Signing.SigningMessageBuilder.constructor | rust-common/src/signing/message_builder.rs:116-119 | A new builder is empty. |
| Signing.SigningMessageBuilder.Add | rust-common/src/signing/message_builder.rs:128-134 | Adding appends exactly the encoding of the value: raw bytes, or a big-endian integer of its width. |
| Signing.SigningMessageBuilder.BuildHash | rust-common/src/signing/message_builder.rs:141-144 | The hash is that of everything added, in order. |
| Signing.FieldInjective | rust-common/src/signing/message_builder.rs:18-86 | Within one kind of value, encodings determine values, for every width and for signed integers. |
| Signing.FieldReads | rust-common/src/signing/message_builder.rs:18-86 | Each integer is big-endian in the width of its type, negative ones in two's complement; bytes are added as they are. |
| Signing.PackedInjective | rust-common/src/signing/message_builder.rs:18-134 | A packed message determines all its fields as long as at most one of them, anywhere, has a length not fixed beforehand. |
| Signing.PadChainId | zk-verifier/src/signer/ecdsa.rs:74-76 | The array filled in place is 28 zero bytes and the four bytes of the chain id, highest first. |
| Signing.CtMessageHash | zk-verifier/src/signer/ecdsa.rs:58-92 | What is hashed is, by position, ct hash, type, zone, account, chain id as a 32-byte big-endian number and contract, and nothing else. |
| Signing.MessageLayout | zk-verifier/src/signer/ecdsa.rs:78-87 | The positions of the six fields in the message. |
| Signing.CtMessageInjective | zk-verifier/src/signer/ecdsa.rs:78-87 | That message determines all six fields, for accounts of any length, given equal lengths of hash and contract. |
| Signing.SignBatch | zk-verifier/src/signer/ecdsa.rs:94-121 | The empty batch is refused; any other is signed over the hash of its message hashes, 32 bytes each, in order. |
| Signing.ReconstructMetadata | zk-verifier/src/verifier/mod.rs:221-246 | The proof metadata is, by position, zone, account, chain id as a 32-byte big-endian number and contract, and nothing else. |
| Signing.MetadataLayout | zk-verifier/src/verifier/mod.rs:215-246 | The positions of the four fields in the metadata. |
| Signing.MetadataInjective | zk-verifier/src/verifier/mod.rs:215-246 | Proof metadata for 20-byte contracts determines zone, account, chain and contract. |
| Signing.ContractLengthNeeded | zk-verifier/src/verifier/mod.rs:76-84 | Without the 20-byte check a chain word can pass from contract to account and leave both message and metadata unchanged. |
| Signing.HashLengthNeeded | zk-verifier/src/signer/ecdsa.rs:80-82 | With a longer ct hash every later field can shift without changing the message. |
| Signing.DigestBinding | zk-verifier/src/signer/ecdsa.rs:110-116 | Unless the hash collides on one of the messages hashed, two nonempty batches have equal digests exactly when they have the same ordered hashes and types, zone, account bytes, chain and contract. |
| Signing.EmptyDigestBindsNothing | zk-verifier/src/signer/ecdsa.rs:100-108 | All empty batches would share one constant digest. |
| Batch.VerifyAndExpand | zk-verifier/src/verifier/mod.rs:58-194 | Which request is refused, why and in which order of checks; otherwise every expanded ciphertext, in order, with its hash and message hash. |
| Batch.VerifiedIs | zk-verifier/src/verifier/mod.rs:136-171 | A verified ciphertext has the bytes and type it was expanded to, the hash of the bytes, and the hash of the message with, by position, that hash, the type, zone, account, chain and contract. |
| Batch.VerifyAndSignBatch | zk-verifier/src/verifier/mod.rs:201-228 | Requests are refused exactly for bad addresses, a rejected proof or a ciphertext that does not expand; a proof of no ciphertexts is never signed; any other is signed over the digest of the ciphertexts that cover it, and fails only if the signer fails on that digest. |
| Batch.CoversExactly | zk-verifier/src/verifier/mod.rs:58-194 | The ciphertexts covering a request are unique: those its proof expands to, in order, with their hashes and message hashes. |
| Batch.PerCtMessageHash | zk-verifier/scripts/smoke_verify_batch.rs:83-102 | The client's separately written message has the same six fields at the same positions, and its hash is the signer's. |
| Batch.ClientDigest | zk-verifier/scripts/smoke_verify_batch.rs:231-255 | The client's loop computes the rebuilt digest, failing exactly on a hash that is not hex or an address that is not 20 bytes. |
| Batch.RebuiltAre | zk-verifier/scripts/smoke_verify_batch.rs:231-255 | A client rebuilds a digest exactly if both addresses are 20 bytes and every hash is hex: the hash of the message hashes of the ciphertexts it was sent, in order. |
| Batch.RebuiltAreCommitted | zk-verifier/scripts/smoke_verify_batch.rs:231-255 | From the JSON answer the client rebuilds exactly the message hashes the verifier committed to. |
| Batch.ServeBatch | zk-verifier/src/api/mod.rs:690-755 | A success answers with exactly the ciphertexts that cover the request and a signature over their digest; for every 20-byte account and every spelling of the contract the digest a client rebuilds from the answer and its own request is the one signed; with a working signer exactly the requests without an expansion, or with an empty one, are refused. |
| Ecdsa.NormalizeKeepsRecovery | rust-common/src/signing/signer.rs:97-109 | For every signature and recovery id in range: same r, low s, same x bit, the same recovered key (or none), and idempotent. |
| Ecdsa.FlipNeeded | rust-common/src/signing/signer.rs:103 | Normalising a high s without flipping the parity bit always recovers a different key. |
| Ecdsa.SignedRecoversSigner | rust-common/src/signing/signer.rs:97-109 | Whatever nonce is drawn, a signature with nonzero parts comes out low-S and recovers the signer's public key (section 4.1.6 of SEC 1 version 2.0). |
| Ecdsa.EvmVRange | rust-common/src/signing/signer.rs:20-35 | The EVM recovery byte is 27 or 28 exactly when x was not reduced, 29 or 30 otherwise; the source's comment promises 27-28. |
| Ecdsa.RecoveryByte | rust-common/src/signing/signer.rs:29-35 | The recovery byte is the parity of y, 2 more if x was reduced, and 27 more in the EVM form. |
| Ecdsa.ReadV | rust-common/src/signing/signer.rs:29-35 | A byte is the recovery byte of at most one format and recovery id, and the reading is exactly that one: the raw and EVM ranges are disjoint. |
| Ecdsa.SignedBytes | rust-common/src/signing/signer.rs:97-145 | The 65 bytes of a normalised signature read as r, then n - s if s was high and s otherwise, both big-endian, then the recovery byte with its parity flipped if s was high. |
| Ecdsa.SignPrehashToHex | rust-common/src/signing/signer.rs:127-145 | The 130 hex digits are those of exactly these bytes. |
| Ecdsa.HexFormReads | rust-common/src/signing/signer.rs:119-145 | Signature, format and recovery id are recovered from the hex form. |
| Storage.AdjustHashForMetadata | zk-verifier/src/api/mod.rs:80-96 | In place: byte 30 becomes type (7 bits) and flag, byte 31 the zone, and the first 30 bytes stay. |
| Storage.AdjustedCollide | zk-verifier/src/api/mod.rs:78-96 | Two adjusted hashes coincide exactly when the first 30 bytes, the types modulo 128, the zones and the flags do. |
| Storage.PrepareCts | zk-verifier/src/api/mod.rs:555-578 | Every ciphertext, in order, with its bytes, its type and its key: `0x` and lowercase hex of the first 30 bytes of its hash, the type without its high bit, and the zone. |
| Storage.ProofChain | zk-verifier/src/storage/storage_manager.rs:211 | The proof's chain id is the request's; the fallback to 0 is never taken. |
| Storage.StoreCt | zk-verifier/src/storage/storage_manager.rs:163-200 | A ciphertext is written under the current prefix, its chain, zone and key, as the encoding of its object. |
| Storage.StoreProof | zk-verifier/src/storage/storage_manager.rs:204-240 | The same for the proof. |
| Storage.StoreProofAndCts | zk-verifier/src/storage/storage_manager.rs:67-155 | The n+1 uploads are those of the ciphertexts in order and of the proof, each with its index, keys and counts. |
| Storage.StoredCiphertextIs | zk-verifier/src/storage/storage_manager.rs:97-119 | What is written for a ciphertext reads back with its bytes, its own key, the proof id, account, zone, chain, index, type and timestamp of the request, at the path of that key. |
| Storage.StoredProofIs | zk-verifier/src/storage/storage_manager.rs:121-153 | What is written for the proof reads back with the proof bytes, contract, account, zone, chain and timestamp, and the keys of all ciphertexts in order with their number. |
| Storage.BuildUpdates | zk-verifier/src/api/mod.rs:354-361 | The loop builds one entry per ciphertext, in order: its type, `0x` and the hex of its bytes, and the zone. |
| Storage.AcceptedCalls | zk-verifier/src/api/mod.rs:339-398 | In every run, released or not, whatever StoreCts accepts is the chain of the request and exactly those entries; a release means it has accepted them. |
| Storage.EndpointCalls | zk-verifier/src/api/mod.rs:610-620 | StoreCts is called at most six times, and a refusal on its account comes only after all six. |
| Audit.FetchCiphertext | zk-verifier/scripts/verify_stored_ct.rs:872-896 | Found is exactly the newest object: under the first prefix with any, if its bytes start with a ciphertext encoding; not found exactly if no prefix has one. |
| Audit.FetchProof | zk-verifier/scripts/verify_stored_ct.rs:898-914 | The proof read is the object the bytes at its path stand for in either layout; missing, corrupt and a proof id the path cannot be cut from are told apart exactly. |
| Audit.SliceKeepsText | zk-verifier/scripts/verify_stored_ct.rs:168-171 | Cutting a text panics exactly where the part in front would be no text. |
| Audit.VerifyAndExtractHashes | zk-verifier/scripts/verify_stored_ct.rs:403-450 | The proof is replayed against account (20 bytes), zone, chain and contract (any length); the hashes of all its ciphertexts come back in order, or none if one does not expand. |
| Audit.FindStored | zk-verifier/scripts/verify_stored_ct.rs:649-742 | In this order: a key that is no hex, or not 32 bytes; nothing under any prefix; newest object unreadable; hash mismatch, exactly if the object's key is not `0x` and lowercase hex of the first 30 bytes of the hash of its bytes, its type with the flag of the argument, and its zone; then whatever fetching its proof from the same prefix comes to. |
| Audit.ComputedKeyIs | zk-verifier/scripts/verify_stored_ct.rs:697-725 | The key computed from a hash and metadata is the stored one exactly if the stored one is spelled so, byte by byte. |
| Audit.RunVerification | zk-verifier/scripts/verify_stored_ct.rs:649-855 | What is found, replayed in this order: the proof bytes are a proof, the account is 20 bytes, the contract is hex, the proof verifies against their metadata and expands, it has the stored index; the answer is a match exactly if the ciphertext there hashes to the stored key. |
| Auditability.ReaderFindsWriterPath | zk-verifier/scripts/verify_stored_ct.rs:881-883 | Given only the key, the reader looks exactly where the writer wrote if and only if the key is spelled in lowercase; other spellings are accepted but look elsewhere. |
| Auditability.WrittenPaths | zk-verifier/src/storage/storage_manager.rs:50-55 | Of the objects the verifier writes, a path determines prefix, type, chain, zone and hash. |
| Auditability.StoredHashChecks | zk-verifier/scripts/verify_stored_ct.rs:697-728 | The stored-hash check accepts every object the verifier writes, for every type byte. |
| Auditability.StoredHashAlwaysPasses | zk-verifier/scripts/verify_stored_ct.rs:685-742 | In any bucket where only the verifier writes to its own part, whatever overwrote what and whatever failed halfway, the audit never meets an unreadable object or a hash mismatch, and what it finds is an object of the chain asked for, stored under that very key, with a proof for the same bytes or no proof yet. |
| AuditOutcomes.ReleasedObjects | zk-verifier/src/api/mod.rs:555-649 | After a released run with nobody else writing to its paths, each ciphertext path holds a ciphertext object of the request with that key, and the proof path its proof. |
| AuditOutcomes.OneMetadataNamesParties | zk-verifier/src/verifier/mod.rs:215-246 | If blake3 tells the proofs apart and no proof verifies against two metadata, served requests with the same proof bytes name the same account and contract, however they spell them. |
| AuditOutcomes.ReplayOfRequest | zk-verifier/scripts/verify_stored_ct.rs:754-848 | The replay of a served request's object ends, in this order: an error if the tool cannot read the proof bytes, if the account is not 20 bytes (which the verifier does not ask), if its expansion fails or is too short; else a match exactly if the keccak of its own bytes for the ciphertext agrees with the stored hash on the first 30 bytes. |
| AuditOutcomes.EveryAuditEnds | zk-verifier/scripts/verify_stored_ct.rs:649-855 | The one outcome of the audit of any 32-byte key in a bucket with objects under both prefixes, those of the previous one of any origin, whatever overwrote what and whatever failed halfway: a current object decides and belongs to the request that wrote last, so the audit ends as that request's replay, or in a missing proof exactly if none was written at its path; else the previous prefix decides. |
| AuditOutcomes.StoredInputsAreAudited | zk-verifier/scripts/verify_stored_ct.rs:649-855 | Once the objects of a request have been written, whatever other requests write over them, other proofs of the same ciphertexts included: its proof is there, a current object is found under its key exactly for the lowercase spelling, and every spelling has the outcome above. |
| AuditOutcomes.MatchExactly | zk-verifier/scripts/verify_stored_ct.rs:820-848 | For such a key with nothing under the previous prefix: another spelling than lowercase is not found; the lowercase one matches if and only if the request that wrote last has its proof stored and the tool, for a 20-byte account, reads it, expands it and agrees on the 30 bytes. |
| AuditOutcomes.ReleasedInputsAreAudited | zk-verifier/src/api/mod.rs:627-755 | Every run that ends in success has written the request's objects and had StoreCts accept nothing but its chain and, in order, the type, bytes and zone of each of its ciphertexts; so, though other requests write to the same paths, the audit of each key has the outcome above. |
| AuditOutcomes.OneFormatMatches | zk-verifier/scripts/verify_stored_ct.rs:403-450 | Were the tool to expand the proof to the verifier's bytes, it would match exactly the accounts of 20 bytes. |
| AuditOutcomes.SameProofMatches | zk-verifier/scripts/verify_stored_ct.rs:217-226 | Even where both programs read the same proof from the stored bytes, the tool matches a 20-byte account exactly if its writer writes every ciphertext and the two writers' bytes for the one asked for have hashes that agree on 30 bytes. |
| AuditOutcomes.NoStoredInputMatches | zk-verifier/src/verifier/traits.rs:19-27 | If the two formats never give the same bytes and the hash does not collide on the first 30 bytes between them, no audit of an input the verifier stored reports a match, for any account and any spelling (nothing being stored under the previous prefix). |
| AuditOutcomes.ReleasedButRejected | zk-verifier/scripts/verify_stored_ct.rs:755-758 | For every hash that differs on [1] and [2] within 30 bytes: a released request of a 20-byte account, with nobody else writing, whose own key the tool does not confirm: an error where it cannot read the verifier's proof bytes, a mismatch where it can. |
| AuditOutcomes.OldInputsStayAuditable | zk-verifier/scripts/verify_stored_ct.rs:858-896 | An object under the previous prefix with a previous-layout proof beside it is found behind the newer prefix and its proof replayed against metadata without a contract. |
| WorkSharing.StepKeepsInv | zk-verifier/scripts/stress_verify.rs:310-335 | Every `fetch_add` and every answer keeps: requests below the counter are taken exactly once; and leaves strictly less to do. |
| WorkSharing.TakenAtMostOnce | zk-verifier/scripts/stress_verify.rs:310-314 | In every state of every interleaving request i has been taken once if the counter has passed it and not at all otherwise. |
| WorkSharing.AnswersAreRecorded | zk-verifier/scripts/stress_verify.rs:316-333 | Every worker records the status of every answer it gets, in order. |
| WorkSharing.AnswerIsForPull | zk-verifier/scripts/stress_verify.rs:310-333 | And with it the number of the request its last pull gave it. |
| WorkSharing.AnyWorkerMoves | zk-verifier/scripts/stress_verify.rs:299-335 | No schedule is ruled out: any worker that is not done can move next, and a request can end with any status. |
| WorkSharing.RunsEnd | zk-verifier/scripts/stress_verify.rs:309-335 | Some worker can move until all are done, and no run is longer than twice requests plus workers. |
| WorkSharing.Merge | zk-verifier/scripts/stress_verify.rs:337-340 | The results are the workers' samples, worker by worker. |
| WorkSharing.ExactlyOnce | zk-verifier/scripts/stress_verify.rs:299-340 | When all workers (at least one) are done, every request was sent exactly once, the merged results have exactly one sample for each, and the counter is requests + workers. |
| Health.ChangesAlternate | zk-verifier/src/health.rs:81-95 | The last line about a dependency states its latest verdict, and lines alternate. |
| Health.LogDecodes | zk-verifier/src/health.rs:81-95 | The log encodes the whole history of verdicts: that of any round is stated by the last line written by then. |
| Health.LoggedChange | zk-verifier/src/health.rs:87-95 | Logging on a change of verdict extends the dependency's changes by one probe and leaves the other's lines alone. |
| Health.Monitor.constructor | zk-verifier/src/health.rs:132-139 | Before the first round every published gauge is 0 and nothing is logged. |
| Health.Monitor.LogTransition | zk-verifier/src/health.rs:87-95 | A line is added exactly when the verdict differs from the previous round's, the first round included. |
| Health.Monitor.Publish | zk-verifier/src/health.rs:116-122 | The gauges are those of the given verdicts; no storage series appears without a storage result. |
| Health.Monitor.Tick | zk-verifier/src/health.rs:141-157 | One round keeps: log = changes of each history, gauges = verdict of the latest probes. |
| Health.Spawn | zk-verifier/src/health.rs:132-160 | After every number of rounds the log about each dependency is exactly the changes of its probes, and the gauges are the verdict of the last round, zero before the first, with no storage series where none is configured. |

## Left out

- OtlpSplit.SplitRequest: requires `max >= 1` unless there is no point to send, because with `max = 0` the source's inner loop never advances; the only caller passes 200.
- OtlpSend.SplitConserves: assumes that decoding an encoded request gives it back; the protobuf codec itself and its unknown fields are not modelled.
- OtlpSend.SendPieces: an answer that is not a success is taken to mean that the request was refused whole, as the comments in the source say the API does.
- OtlpSplit.PushIntoShells: lists are values here; the source appends through mutable references into the open request, which cannot alias anything else.
- OtlpSplit.SplitResource: the three nested loops of one source function are three methods, one per loop, so that each has its own contract.
- Ecdsa.SignedRecoversSigner: the nonce is a parameter; its deterministic derivation, point arithmetic and the curve's constants are not modelled.
- Signing.SigningMessageBuilder.Add: consumes and returns the builder in the source; here the object is updated in place.
- AuditOutcomes.NoStoredInputMatches: that the two formats give different bytes (`DifferentFormats`) is a hypothesis; the formats belong to libraries and are parameters of `Library`.
- AuditOutcomes.EveryAuditEnds: assumes that among the requests no two different proofs share a blake3 hash and that equal proof bytes name equal parties (`ProofsAreNamed`), and that at the paths it reads under the current prefix the verifier alone writes (`Undisturbed`).
- Endpoint.SuccessMeansPersisted: every request's run sees the other requests' writes as steps that may happen at any moment; that they come from those requests' own runs is not used.
- Persist.PersistBeforeRelease: a late write may happen any number of times after its call was issued, which allows more behaviours than the network has.
- WorkSharing.ExactlyOnce: the counter is unbounded; a real one wraps once requests plus workers exceed the word size.
- WorkSharing.Merge: samples carry the request number they belong to instead of the elapsed time.
- Health.Spawn: probes are given; timeouts, URLs and the ticker's timing are not modelled, and gauges are reals restricted to 0 and 1.
- Audit.RunVerification: error values tell which check failed, not the message text; `AuditError.SlicePanics` stands for the panic of slicing a proof id inside a character.
- Persist.EveryRequestIsAnswered: sleeps and calls are steps that always end; a call that never answers is not modelled.
- Gate.PermitsConserved: process shutdown and a runtime that drops queued blocking tasks are not modelled.
- The verifier's own copy of `generate_object_key` and the audit tool's are the same code; they are one method here.
- TFHE verification, expansion and key loading, keccak256, blake3 and secp256k1 arithmetic: libraries.
- HTTP routing, JSON, the GCS client, metadata server, attestation and token exchange: I/O.
- Secret-sharing, key gathering and the tdx-signer's access rules.
- Configuration overlays, logging text, metric names, histogram buckets and recorder wiring.
- Concurrency defaults from the environment: clamps of one expression each.
- Percentiles, wall-clock times and printed reports of the command-line tools.
