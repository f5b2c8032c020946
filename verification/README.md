# Receiver registry and MLAT reference: a Dafny model

This project models the parts of the repository whose correctness is hard to see from one function:
the Registry V2 contract and what it guarantees over a whole CKB ledger, the bytes that transactions
are hashed from, the JSON record codecs of three languages, the Beast stream decoder, discovery and
history in the SDK and the Python package, the runtime that keeps its receivers in step with the
registry, and the algorithms that match, correlate, limit and draw.

`dafny verify dfyconfig.toml` checks everything.

## How it is built

- **Registry on a ledger** (`RegistryRecord`, `TypeScript`, `Ledger`, `IdentityTrace`, `LedgerRuns`).
  The type script sees one script group of one transaction. A ledger state holds the live cells, the
  spent out points, every serialized transaction and every Type ID preimage so far, and the records
  each identity went through. An accepted transaction consumes at least one live cell and passes the
  script once for every identity it touches. The hash is any function. That it does not collide is
  assumed only for the byte strings hashed in the run at hand: a function into 32 bytes cannot be
  injective on all byte strings.
- **Molecule** (`LittleEndian`, `Molecule`, `MoleculeDecoder`, `MoleculeSize`): the encoder of the
  evidence verifier, a strict decoder for Nervos CKB RFC 0008, and the exact condition for encoding.
- **Records as JSON** (`Lexemes`, `Json`, `JsonParser`, `JsonRoundTrip`, `Utf8`, `JsonLexemes`,
  `Numerals`, `SdkRecord`, `RecordCodec`, `RecordFields`, `RecordRoundTrip`, `SdkAgreement`,
  `PythonRecord`, `JsonGrammar`, `PythonAgreement`): the contract's byte scanner, the SDK's parser class,
  the validators, decoders and printers of both packages, strict UTF-8. Numbers are printed by a
  function of which only one thing is asked, number by number: it writes a JSON number of at most 32
  characters that reads back as the same value.
- **Beast framing** (`Beast`): bytes are integers, frames are a type and an unescaped payload.
- **Matcher**, **rate limiter** (`Matcher`, `RateLimit`): time stamps are exact reals.
- **Correlator and evidence gate** (`Correlation`, `CorrelatorClusters`, `CorrelatorGroups`,
  `CorrelatorHistory`, `CorrelatorRepeats`, `EvidenceGate`): every reception has an integer nanosecond
  stamp, which is what clustering and ids use; the wall-clock time stamp, used for eviction, is an
  exact real.
- **Convex hull** (`ConvexHull`): exact real coordinates.
- **Discovery and history** (`Discovery`, `DiscoveryResults`, `LedgerDiscovery`, `Lifecycle`,
  `LifecycleHistory`, `LedgerHistory`): an indexer is any function from the number of the request and
  its cursor to a page, so it may also change its answers during a scan.
- **Receiver pool** (`ReceiverPool`, `MlatRuntime`): the result of each discovery is part of the event.
- `Grouping`, `Sorting`, `TextOrder`, `DecimalText`, `Wrappers` are shared: filtering and grouping,
  stable sorting, code point order, decimal text.

Code that works step by step is modelled by methods and classes and proved against a function; what
the source promises is proved about that function. An exception is `None` or an error value.

## What is not as one might expect

- A refresh that raises does not always leave the pool without registry receivers: in strict
  production mode `_augment_receivers_for_simulation` raises after the pool was already replaced.
  `ReceiverPool.RaisedRefresh` states in terms of the configuration and the endpoints exactly when a
  refresh raises and when registry receivers then stay; `ReceiverPool.RaisedWithReceivers` is a run in
  which they do. They are always the ones that the latest discovery selected.
- A Beast frame cut inside an escape pair is not dropped. Its body runs on through the next frame:
  `Beast.CutInsideEscapePair` says, for every frame, cut, next frame and continuation, which frame comes
  out when that fills it and where parsing goes on; `Beast.CutInsidePairLosesBoth` says that otherwise
  both are lost; `Beast.CutInLastPair` is the case in which the cut frame itself comes out whole.
- A reception may be returned in more than one group. `CorrelatorRepeats.RepeatHasCause` shows that
  then different calls returned them, and that between these calls a signal of the message with a stamp
  before the later of the two first stamps arrived or was evicted; both do happen
  (`CorrelatorRepeats.LateRepeats`, `CorrelatorRepeats.EvictedRepeats`,
  `CorrelatorRepeats.ReceptionsRepeat`). `CorrelatorRepeats.ReturnedNextIff` says from buffer and ids
  exactly what the next call returns. The same message and first stamp are never returned twice
  (`CorrelatorHistory.NeverTwice`).
- The lookup of one identity, unlike discovery, does not look at `updated_at`:
  `DiscoveryResults.LookupAgrees` states the difference, `DiscoveryResults.FutureIsLookedUp` shows it.
- Neither the lookup nor `requireCurrentCell` compares the identity of the cell it was given with the
  one it asked for: `DiscoveryResults.AnsweredIdentity` and `Lifecycle.CurrentIdentity` say when it is
  the one, `DiscoveryResults.AnotherIsAnswered` and `Lifecycle.AnotherIsCurrent` give servers for which
  it is not.
- A cell whose code hash has upper-case letters has an identity for the Python package and none for the
  SDK (`DiscoveryResults.IdentitiesAgree`, `DiscoveryResults.UpperCaseIsRefused`).
- The SDK's parser builds plain objects and wraps numbers in objects, so a JSON key `__proto__` sets the
  prototype instead of a field, and an object with a number as its prototype is read as that number, or
  as the text of its own field `raw`. The model of the decoder does the same at any depth
  (`Numerals.NumeralOf`, `RecordCodec.PrototypeIsRead`).
- The SDK drops a byte order mark before a record, the Python package refuses it
  (`PythonAgreement.MarkIsDropped`). Apart from that and from objects in place of field values the two
  decoders agree on every payload (`PythonAgreement.DecodersAgree`).

## Model

| member | source | states |
|---|---|---|
| RegistryRecord.LineageFacts | contracts/registry-v2/src/record.rs:110-137 | Along any chain of accepted records the n-th has sequence n, the label never changes, time does not go back, only the last can be revoked, and there are at most 2^64 records |
| TypeScript.PreimageInjective | contracts/README.md:15-19 | The Type ID preimage determines the first input and the output index |
| TypeScript.RunAccepts | contracts/registry-v2/src/entry.rs:17-36 | Helper of the ledger proofs: a group passes only as a creation whose identity hashes its preimage, or as one accepted update; never as a burn |
| Ledger.MoleculeChainInjective | tools/registry/verify_registry_v2_evidence.py:203-211 | The serialization a transaction is hashed from is injective, as the ledger model needs |
| Ledger.MintIsFresh | contracts/README.md:15-21 | A newly minted identity was never minted before: its preimage names an out point that was live until now |
| Ledger.StepInv | contracts/registry-v2/src/entry.rs:22-35 | Every accepted transaction keeps the ledger invariant: out points are never reused, every identity ever minted is the hash of a preimage whose out point is spent, and has exactly one live cell with its last record |
| Ledger.StepChange | contracts/registry-v2/src/entry.rs:27-35 | One transaction does to an identity exactly one thing: nothing, its creation, or one more record |
| LedgerRuns.OneLiveCellForever | contracts/README.md:6-23 | In every reachable ledger an identity has one live cell from its creation on, and none before |
| LedgerRuns.MintedOnce | contracts/README.md:15-21 | No identity is created a second time in any run |
| LedgerRuns.LiveRecord | contracts/README.md:11-12 | The live cell decodes, and its sequence number counts the transactions that ran the script for the identity, of which there are at most 2^64 |
| LedgerRuns.LaterRecord | contracts/README.md:8-13 | Between any two moments the label stays, time and sequence do not go back, and the same sequence number means the same record |
| LedgerRuns.RevokedIsTerminal | contracts/README.md:13 | After a revocation the identity's cell and record never change again |
| LedgerRuns.NeverTwice | tools/registry/verify_registry_v2_evidence.py:203-211 | No transaction is accepted twice, so no out point comes back |
| LittleEndian.DecodeEncode | tools/registry/verify_registry_v2_evidence.py:97-102 | Reading a fixed-width little-endian number gives it back, if it fits |
| LittleEndian.EncodeDecode | tools/registry/verify_registry_v2_evidence.py:97-102 | Writing what was read gives the bytes back |
| Molecule.EncodeDynvec | tools/registry/verify_registry_v2_evidence.py:109-118 | The offset loop writes the dynvec layout: total size, one offset for each item, the items; it fails if a number does not fit |
| Molecule.EncodeTransaction | tools/registry/verify_registry_v2_evidence.py:140-200 | The loops over dependencies, inputs, outputs and data compute the specified bytes, or the first error |
| MoleculeDecoder.DynvecInverse | tools/registry/verify_registry_v2_evidence.py:109-118 | The strict dynvec decoder accepts exactly the encodings and inverts them |
| MoleculeDecoder.FixvecInverse | tools/registry/verify_registry_v2_evidence.py:105-106 | The same for vectors of items of one size |
| MoleculeDecoder.TypeScriptInverse | tools/registry/verify_registry_v2_evidence.py:165-175 | The same for the optional type script: an absent one differs from every present one |
| MoleculeDecoder.TransactionInverse | tools/registry/verify_registry_v2_evidence.py:140-200 | Bytes encode a transaction if and only if decoding them gives it back |
| MoleculeDecoder.RawBytesInjective | tools/registry/verify_registry_v2_evidence.py:140-211 | Two transactions with the same bytes are the same |
| MoleculeSize.TransactionFits | tools/registry/verify_registry_v2_evidence.py:97-200 | Encoding succeeds exactly for well-formed parts whose total size is below 2^32, and the length is that size |
| Lexemes.ConsumeJsonNumber | contracts/registry-v2/src/record.rs:186-236 | The loops of the number scanner compute the specified end |
| Lexemes.HasStrictJsonLexemes | contracts/registry-v2/src/record.rs:153-184 | The scanning loop decides strict lexemes |
| Lexemes.ConsumeNumberExact | contracts/registry-v2/src/record.rs:186-236 | The scanner returns n exactly when bytes i to n form a number of section 6 of RFC 8259 followed by a delimiter or the end |
| JsonParser.StrictJsonParser.ParseValueAt | sdk/typescript/src/strict-json.ts:32-42 | The recursive descent reads at its position what the grammar function reads, and moves there |
| JsonParser.StrictJsonParser.ParseObjectAt | sdk/typescript/src/strict-json.ts:44-81 | Objects with distinct keys, in order; a duplicate key is an error |
| JsonParser.StrictJsonParser.ParseArrayAt | sdk/typescript/src/strict-json.ts:83-105 | Arrays, element by element |
| JsonParser.ParseStrictJson | sdk/typescript/src/strict-json.ts:23-30 | The class as a whole computes the parse, and refuses trailing data |
| JsonRoundTrip.ParsePrint | sdk/typescript/src/strict-json.ts:23-137 | Parsing a printed value of any depth gives that value back |
| JsonLexemes.AcceptedIsStrict | contracts/registry-v2/src/record.rs:153-236 | Every text that the SDK's parser accepts passes the contract's byte scanner in UTF-8 |
| RecordCodec.DecodeRegistryRecord | sdk/typescript/src/record.ts:239-253 | For text or bytes and the caller's own limit: size limit, fatal UTF-8 decoding, parser and validation compute the record or fail |
| RecordCodec.PrototypeIsRead | sdk/typescript/src/record.ts:75-103 | Helper: an object whose prototype was set to a number is read as that number |
| Numerals.BigIntOfDigits | sdk/typescript/src/record.ts:79-81 | The model of `BigInt` reads the digits of a JSON integer as the number they write |
| Utf8.DecodeIsInverse | sdk/typescript/src/record.ts:248-251 | The fatal decoder accepts exactly the UTF-8 encodings of texts, and reads each of them back |
| RecordCodec.EncodeRegistryRecord | sdk/typescript/src/record.ts:259-277 | A value that does not validate is refused; else pushing fields and joining them gives the bytes of the object in fixed order |
| RecordFields.DecodeReordered | sdk/typescript/src/record.ts:134-218 | Decoding does not depend on the order of the fields |
| RecordFields.KeysAreSorted | src/ckb_registry/record.py:305-312 | The Python printer's keys are in ascending code point order |
| RecordRoundTrip.FixedOrderRoundTrip | sdk/typescript/src/record.ts:239-277 | Decoding the SDK's printing of a valid record gives it back, and it fits 16 KiB |
| RecordRoundTrip.SortedKeysRoundTrip | src/ckb_registry/record.py:281-312 | The same for the Python printing with sorted keys |
| RecordRoundTrip.PrintersAgree | src/ckb_registry/record.py:305-312 | Both printings of one record decode to the same value, even with different number printers |
| RecordRoundTrip.CellRoundTrip | sdk/typescript/src/record.ts:239-277 | The bytes that either printer writes into a cell fit 16 KiB and decode to the record |
| RecordRoundTrip.DecodedIsValid | sdk/typescript/src/record.ts:134-253 | Whatever the SDK decodes, the contract's validator accepts |
| SdkAgreement.ValidatedIs | sdk/typescript/src/record.ts:134-218 | The SDK's checks of ids, patterns, counts, ranges and byte lengths accept a value exactly if its integers fit their widths, the contract's validator accepts it, and the contract's record type can hold it |
| SdkAgreement.ValidatorsAgree | sdk/typescript/src/record.ts:220-237 | The SDK accepts a creation or a successor exactly if the contract does, within these widths and sizes |
| SdkAgreement.DecodedIsValidated | sdk/typescript/src/record.ts:239-253 | Validating what was decoded changes nothing |
| PythonAgreement.ValidatorsAgree | src/ckb_registry/record.py:180-279 | The Python validators of records, creations and successors accept exactly what the SDK's accept |
| JsonGrammar.ParseKept | sdk/typescript/src/strict-json.ts:127-138 | Both JSON parsers accept one grammar with the same values; the strict one refuses exactly the values with a float that no f64 holds |
| JsonGrammar.LoadsIs | src/ckb_registry/record.py:104-120 | The Python test for escape sequences refuses nothing that the grammar accepts |
| PythonAgreement.TextsAgree | src/ckb_registry/record.py:85-120 | Both packages decode a text to the same record, except where the SDK reads an object in place of a field value; the Python package then refuses it |
| PythonAgreement.DecodersAgree | src/ckb_registry/record.py:85-120 | The same for every payload, and except for a byte order mark, which only the SDK drops |
| PythonAgreement.MarkIsDropped | sdk/typescript/src/record.ts:248-251 | A payload of that kind for every valid record |
| Beast.ParseBeastFrames | tools/mlat/beast_tcp_adapter.py:145-201 | The nested loops return the frames and the remainder of the specified parse |
| Beast.ReadStream | tools/mlat/beast_tcp_adapter.py:271-280 | Parsing chunk by chunk and carrying the remainder gives what parsing the whole stream gives |
| Beast.ChunkIndependent | tools/mlat/beast_tcp_adapter.py:145-201 | For any split of a buffer, parsing the first part and then its remainder with the second is parsing the whole |
| Beast.RestIsStable | tools/mlat/beast_tcp_adapter.py:172-201 | A remainder holds no complete frame |
| Beast.RestIsBounded | tools/mlat/beast_tcp_adapter.py:172-201 | At most 43 bytes are carried |
| Beast.BoundIsReached | tools/mlat/beast_tcp_adapter.py:172-201 | That bound is attained |
| Beast.ParseEncodedAll | tools/mlat/beast_tcp_adapter.py:149-150 | Parsing the concatenated encodings of any frames returns exactly those frames, then what follows |
| Beast.ParseIsSound | tools/mlat/beast_tcp_adapter.py:155-201 | Every emitted frame is well formed and its exact encoding is an ordered, disjoint segment of the input |
| Beast.CutLosesOnlyItself | tools/mlat/beast_tcp_adapter.py:187-196 | A frame cut short outside an escape pair loses only itself when a full frame follows |
| Beast.CutInsideEscapePair | tools/mlat/beast_tcp_adapter.py:155-190 | Cut inside any escape pair, a frame swallows the next one; if both payloads are enough, a frame of the first type made of them comes out, and parsing goes on with the escaped rest of the next frame |
| Beast.CutInsidePairLosesBoth | tools/mlat/beast_tcp_adapter.py:155-196 | If they are not enough, both frames are lost when a third follows, and the third is read |
| Beast.CutInLastPair | tools/mlat/beast_tcp_adapter.py:155-190 | Cut inside the pair of its last payload byte, the frame comes out whole, and the next one loses its marker |
| Beast.DeltaTicksExact | tools/mlat/beast_tcp_adapter.py:116-119 | Helper: unwrapping the 48-bit counter recovers the signed distance exactly if it is within half a wrap |
| Matcher.WindowIs | tools/mlat/benchmark_mlat_against_reference.py:128-132 | The bisected slice holds exactly the entries within the tolerance, crossing bounds included |
| Matcher.MatchRecords | tools/mlat/benchmark_mlat_against_reference.py:104-153 | The result is one-to-one, in order of (delta, i, j), made of same-aircraft pairs within tolerance, and every other such pair shares an end with a chosen pair before it |
| Matcher.NearestFirstUnique | tools/mlat/benchmark_mlat_against_reference.py:143-153 | Only one list of matches has these properties |
| Matcher.AtLeastHalf | tools/mlat/benchmark_mlat_against_reference.py:109 | No matching of the candidates has more than twice as many pairs |
| RateLimit.SlidingWindowRateLimiter.ConsumeAt | src/mlat_reference/api/rate_limit.py:45-64 | One call changes table and buckets and answers as specified |
| RateLimit.SlidingWindowRateLimiter.Create | src/mlat_reference/api/rate_limit.py:28-43 | Construction fails exactly for a value below one |
| RateLimit.TableIsMostRecent | src/mlat_reference/api/rate_limit.py:49-61 | After any run the table is exactly the max_clients most recently seen clients, in order |
| RateLimit.WindowBound | src/mlat_reference/api/rate_limit.py:49-59 | While a client stays in the table no window (t-W, t] holds more than limit of its allowed requests |
| RateLimit.RefusedIffFull | src/mlat_reference/api/rate_limit.py:53-56 | A request is refused exactly when limit allowed ones lie in the window that ends with it |
| RateLimit.RetryIsAdmitted | src/mlat_reference/api/rate_limit.py:55-63 | A retry after the announced reset, with nothing in between, is admitted |
| SignalCorrelation.SignalCorrelator.AddSignal | src/mlat_reference/correlation/correlator.py:113-116 | Adding a signal evicts what is then too old and keeps the ids |
| SignalCorrelation.SignalCorrelator.AddSignals | src/mlat_reference/correlation/correlator.py:118-121 | The same for a batch, evicted once |
| SignalCorrelation.SignalCorrelator.CleanupOldSignals | src/mlat_reference/correlation/correlator.py:123-132 | Eviction keeps, in order, what is not older than the duration before the newest |
| SignalCorrelation.SignalCorrelator.ClusterByTime | src/mlat_reference/correlation/correlator.py:189-217 | The loop returns the greedy runs that are long enough |
| SignalCorrelation.SignalCorrelator.IsValidCluster | src/mlat_reference/correlation/correlator.py:219-241 | Enough signals, enough different receivers, at most 10 ms |
| SignalCorrelation.SignalCorrelator.Correlate | src/mlat_reference/correlation/correlator.py:134-187 | Returns, message by message, the groups whose id is new, and notes their ids |
| CorrelatorClusters.RunsAreFewest | src/mlat_reference/correlation/correlator.py:189-217 | The greedy runs partition the sorted signals into window-bounded runs, and no other such partition has fewer |
| CorrelatorGroups.CandidateIsGood | src/mlat_reference/correlation/correlator.py:147-171 | A group consists of receptions of one message, each used once, in order, from enough receivers, within the window and 10 ms, with its first time and span right |
| CorrelatorGroups.CandidateIsHeard | src/mlat_reference/correlation/correlator.py:189-217 | A group takes everything heard of its message within the window from its first stamp |
| CorrelatorGroups.IsolatedIsCandidate | src/mlat_reference/correlation/correlator.py:134-241 | A transmission not heard within one window before its first stamp makes a group if and only if enough receivers heard it and the last one within 10 ms |
| CorrelatorHistory.BufferIsRecent | src/mlat_reference/correlation/correlator.py:113-132 | After any calls the buffer is the arrival history without what is older than the duration before the newest ever, in order |
| CorrelatorHistory.NeverTwice | src/mlat_reference/correlation/correlator.py:173-185 | Over any run no message and first stamp are returned twice |
| CorrelatorHistory.ReturnedAreGood | src/mlat_reference/correlation/correlator.py:134-187 | Everything ever returned is a group of signals that did arrive |
| CorrelatorHistory.IsolatedIsReturned | src/mlat_reference/correlation/correlator.py:134-187 | An isolated transmission that enough receivers heard is returned by the next call with everything heard of it, unless its id was returned before |
| CorrelatorRepeats.CandidateIff | src/mlat_reference/correlation/correlator.py:147-217 | A message and first stamp are a group of the buffer exactly if the stamps of the message start a greedy run there and enough receivers heard it in time |
| CorrelatorRepeats.ReturnedNextIff | src/mlat_reference/correlation/correlator.py:134-187 | The next call returns a reception, for the first time or again, exactly if it lies in such a group whose message and first stamp were not returned before |
| CorrelatorRepeats.RepeatHasCause | src/mlat_reference/correlation/correlator.py:134-187 | If two returned groups share a reception, different calls returned them, and in between a signal of the message with a stamp before the later first stamp arrived or was evicted |
| CorrelatorRepeats.LateRepeats | src/mlat_reference/correlation/correlator.py:173-185 | A family of witnesses, for 1 ms, two receivers and 2 s: two receptions are returned, an earlier one arrives late, and they are returned again |
| CorrelatorRepeats.EvictedRepeats | src/mlat_reference/correlation/correlator.py:123-132 | Another family, for the same configuration: three receptions are returned, the first is evicted, and the other two are returned again |
| CorrelatorRepeats.ReceptionsRepeat | src/mlat_reference/correlation/correlator.py:123-187 | An input of each kind |
| EvidenceGate.HasFourReceiverGroup | tools/mlat/capture_grant_evidence.py:93-119 | The search finds a group if and only if four records of one message, from four receivers, lie within 5,000,000 ns of each other |
| EvidenceGate.ReturnedPassesGate | tools/mlat/capture_grant_evidence.py:93-119 | Whatever the correlator returns, with four receivers and at most 5 ms, passes the gate on any log that holds its signals |
| ConvexHull.PopStep | reference/mlat/frontend/components/airspace-map.tsx:87 | Popping a vertex keeps every point on the left of the step to the new point |
| ConvexHull.Chain | reference/mlat/frontend/components/airspace-map.tsx:86-89 | The push and pop loop builds a chain from first to last point that turns strictly left and has no point strictly right of any edge |
| ConvexHull.Hull | reference/mlat/frontend/components/airspace-map.tsx:82-94 | Fewer than three points give nothing; else the ring is closed, made of input points, has no input point strictly right of any edge, and consists of two strictly left-turning chains between the extreme points |
| Discovery.Discover | sdk/typescript/src/discovery.ts:75-185 | One pass over the pages lists exactly the accepted receivers whose cell is the only one bound to their identity, and quarantines exactly the identities bound twice; breaking a limit yields no receiver |
| Discovery.SearchReceiverCells | src/ckb_registry/discovery.py:195-241 | Collects every cell, or fails on the cell, page and cursor limits |
| Discovery.DiscoverPeers | src/ckb_registry/discovery.py:130-193 | The Python pass meets the same specification with its own filter, and fails when the search does |
| Discovery.FindByIdentity | sdk/typescript/src/discovery.ts:188-255 | The paged lookup answers with the one cell, or with the error that applies |
| DiscoveryResults.ListingIsUnique | sdk/typescript/src/discovery.ts:171-178 | The list of receivers is determined by the cells |
| DiscoveryResults.OrderDoesNotMatter | src/ckb_registry/discovery.py:145-192 | Permuting the cells changes neither the list nor the quarantine |
| DiscoveryResults.ProperPagesAreScanned | sdk/typescript/src/discovery.ts:94-169 | Proper pages are scanned to the end exactly if there is room for one request more than pages and for all cells |
| DiscoveryResults.PagingDoesNotMatter | sdk/typescript/src/discovery.ts:94-178 | Other pages, another order and other limits give the same list and the same quarantine |
| DiscoveryResults.LookupAgrees | sdk/typescript/src/discovery.ts:188-255 | The lookup finds a receiver exactly if discovery lists it, except for records from the future |
| DiscoveryResults.DuplicatesAgree | sdk/typescript/src/discovery.ts:236-239 | The lookup reports a duplicate exactly if discovery quarantines the identity |
| DiscoveryResults.AnsweredIdentity | sdk/typescript/src/discovery.ts:188-255 | Helper: the lookup answers with the requested identity exactly if the one cell it was served is bound to it |
| DiscoveryResults.AnotherIsAnswered | sdk/typescript/src/discovery.ts:188-255 | A server whose cell is answered whatever identity was asked for |
| DiscoveryResults.FutureIsLookedUp | sdk/typescript/src/discovery.ts:171-178 | A visible record from the future is found by the lookup and not listed by discovery |
| DiscoveryResults.UpperCaseIsRefused | src/ckb_registry/discovery.py:293-307 | A cell whose identity only the Python package reads |
| DiscoveryResults.FiltersAgree | src/ckb_registry/discovery.py:381-457 | Helper: without a maximal age both packages accept the same valid records |
| DiscoveryResults.IdentitiesAgree | src/ckb_registry/discovery.py:293-307 | Helper: both packages read the same identity from a cell, unless its code hash is the configured one with upper-case letters |
| DiscoveryResults.PackagesAgree | src/ckb_registry/discovery.py:145-192 | Readers that agree on every cell list the same receivers of the same cells, with the filter of either package |
| PythonAgreement.PackagesListAlike | src/ckb_registry/discovery.py:145-192 | With their own decoders and identity readers both packages list the same receivers of the same cells, however served, if code hashes are in lower case and payloads have no mark and no object for a field value |
| LedgerDiscovery.MintedIsBoundOnce | contracts/README.md:21-23 | On every reachable ledger, in every answer that lists the contract's live cells, an identity is bound by exactly one cell if it was ever created, and by none before |
| LedgerDiscovery.NothingIsQuarantined | sdk/typescript/src/discovery.ts:121-133 | On every reachable ledger discovery quarantines nothing, whatever the cells hold |
| LedgerDiscovery.MintedIsFound | sdk/typescript/src/discovery.ts:95-136 | Every created identity is found, with the record of its one live cell |
| ReceiverPool.SelectTakesFirst | src/mlat_reference/ingest/client.py:129-139 | Selected are online candidates, at most as many as allowed, and none left out comes before them |
| ReceiverPool.TopUpIsEnough | src/mlat_reference/ingest/client.py:344-366 | Topping up never exceeds what is enough, and falls short only when every simulated receiver is in |
| ReceiverPool.RefreshReplaces | src/mlat_reference/ingest/client.py:163-190 | After any refresh the registry receivers of the pool are exactly those it selected, or none if discovery failed; the others stay |
| ReceiverPool.RaisedRefresh | src/mlat_reference/ingest/client.py:141-190 | A refresh raises exactly if discovery failed or the new pool has no live transport in strict production mode; it then leaves registry receivers exactly if discovery succeeded and selected some |
| ReceiverPool.RaisedWithReceivers | src/mlat_reference/ingest/client.py:304-327 | A run of the system, from its initialization, whose refresh raises and keeps its receiver |
| ReceiverPool.RunInStep | src/mlat_reference/base.py:48-59 | Over every run geometry equals the pool, stored registry rows equal its registry receivers with their data, and clock states belong to known receivers |
| ReceiverPool.PoolIsLatest | src/mlat_reference/ingest/client.py:141-209 | Over every run the registry receivers are those of the latest discovery |
| ReceiverPool.OnlySelectedAreObserved | src/mlat_reference/base.py:127-135 | Over every run no group, however old, yields an observation from an identity that the latest discovery did not select, or from another place than it reported |
| MlatRuntime.NetworkClient.InitializePool | src/mlat_reference/ingest/client.py:92-123 | The first discovery, with its fallback, fills the pool or raises |
| MlatRuntime.NetworkClient.AugmentReceiversForSimulation | src/mlat_reference/ingest/client.py:344-366 | The loop adds simulated receivers until there are enough, only for the simulation transport |
| MlatRuntime.NetworkClient.RefreshRegistryReceivers | src/mlat_reference/ingest/client.py:141-209 | Pool, exception and status after a refresh; it reports a change exactly if a compared field differs |
| MlatRuntime.Runtime.OnReceiversRemoved | src/mlat_reference/runtime.py:298-307 | Rows and clock states of removed receivers go |
| MlatRuntime.Runtime.OnReceiverCacheSynchronized | src/mlat_reference/runtime.py:309-320 | Registry rows outside the pool go, all others stay |
| MlatRuntime.Runtime.CacheReceiverPositions | src/mlat_reference/base.py:48-59 | The loops bring geometry, rows and clock states in step with the pool |
| MlatRuntime.Runtime.RefreshRound | src/mlat_reference/runtime.py:390-415 | One round is one step of the run, on success and on failure; the feed is restarted after a success exactly if a compared field changed, after an exception of the refresh or of that restart exactly if membership changed; strict mode then ends the loop |
| MlatRuntime.Runtime.HandleIncomingSignal | src/mlat_reference/base.py:87-125 | Signals of unknown receivers change nothing and do not reach the correlator |
| MlatRuntime.Runtime.BuildObservationsFromGroup | src/mlat_reference/base.py:127-135 | One observation for each signal whose receiver has a position |
| MlatRuntime.Runtime.ProcessRound | src/mlat_reference/runtime.py:417-450 | Each new group is solved with observations of the current geometry, or counted as rejected for fewer than four of them or for a clock that is not qualified |
| MlatRuntime.SolvableAre | src/mlat_reference/runtime.py:417-450 | What is solved has at least four observations and comes from a group of qualified signals |
| Lifecycle.PreparedPassesRule | sdk/typescript/src/lifecycle.ts:182-262 | Every successor that is prepared, whatever the caller overwrites, passes the contract's rule |
| Lifecycle.WhatCanBePrepared | sdk/typescript/src/lifecycle.ts:206-262 | A transfer or a revocation can be prepared exactly from every record that is not revoked and below the last sequence, if the time fits a u64 |
| Lifecycle.RevokedRecord | sdk/typescript/src/lifecycle.ts:245-262 | A revocation keeps label and capabilities, drops the stream, and does not move time back |
| Lifecycle.NothingAfterRevocation | sdk/typescript/src/lifecycle.ts:182-262 | Nothing can be prepared after a revocation |
| Lifecycle.EncodedIsDecoded | contracts/registry-v2/src/record.rs:139-151 | If the contract's JSON library reads back what the SDK encoded, the contract decodes it: it fits 16 KiB, its lexemes are strict, and it is valid |
| Lifecycle.SuccessorPassesScript | sdk/typescript/src/lifecycle.ts:383-404 | The type script accepts the group whose output holds the encoding of a prepared successor |
| Lifecycle.CreationPassesScript | sdk/typescript/src/lifecycle.ts:133-169 | The type script accepts the group whose output holds the encoding of a prepared creation and whose identity hashes the funding cell and index 0 |
| Lifecycle.RequireCurrentCell | sdk/typescript/src/lifecycle.ts:337-381 | The loop ends after at most three requests for any server and answers with the one cell |
| Lifecycle.CurrentIsOnly | sdk/typescript/src/lifecycle.ts:337-381 | A server that serves an identity's cells gives the current cell exactly if discovery finds it to be the only one |
| Lifecycle.CurrentIdentity | sdk/typescript/src/lifecycle.ts:337-381 | Helper: the current cell has the requested identity exactly if the one cell served is bound to it |
| Lifecycle.AnotherIsCurrent | sdk/typescript/src/lifecycle.ts:337-381 | A server whose cell is the current one whatever identity was asked for |
| LifecycleHistory.IndexTransactions | sdk/typescript/src/history.ts:53-87 | The page loop builds the index, or fails on its limits |
| LifecycleHistory.EventIs | sdk/typescript/src/history.ts:90-111 | An event is made exactly of the committed transaction's only output with the identity's type script, with its data, lock, index and block |
| LifecycleHistory.LabelEvents | sdk/typescript/src/history.ts:115-137 | Sorting, checking and labelling succeed exactly for a chain and give every step its action |
| LifecycleHistory.DiscoverHistory | sdk/typescript/src/history.ts:40-138 | The whole rebuild answers with the labelled chain, or fails exactly if a stage does |
| LifecycleHistory.IndexIsDistinct | sdk/typescript/src/history.ts:53-75 | However often a transaction is reported it is one event, and there are at most maxEvents |
| LifecycleHistory.AcceptedIsLegal | sdk/typescript/src/history.ts:122-129 | A history is accepted exactly if its records are a legal lifecycle of the contract |
| LifecycleHistory.OrderIsRecovered | sdk/typescript/src/history.ts:115-121 | Sorting the events of a chain, reported in any order, gives the chain |
| LifecycleHistory.HistoryIsChain | sdk/typescript/src/history.ts:89-137 | For any order of the index the history is the chain, with its actions |
| LifecycleHistory.ActionsAre | sdk/typescript/src/history.ts:122-136 | The first step alone is the creation, a revocation is last, and the others are updates or transfers by their owner |
| LifecycleHistory.CollectedIs | sdk/typescript/src/history.ts:53-87 | The index does not depend on how the reports are split into pages |
| LifecycleHistory.ProperReportsAreIndexed | sdk/typescript/src/history.ts:53-87 | Proper pages are indexed exactly if there is room for one request more than pages, every hash is well formed, and there are at most maxEvents transactions |
| LedgerHistory.TouchAppends | contracts/registry-v2/src/entry.rs:17-36 | An accepted transaction that runs the script for an identity has exactly one output with it, whose record is the one added to the identity's lineage |
| LedgerHistory.ReportsAreEvents | sdk/typescript/src/history.ts:89-113 | Along every run the transactions that ran the script for an identity give one event each, with the records of its lineage in order |
| LedgerHistory.HistoryIsLineage | sdk/typescript/src/history.ts:40-138 | For every run and identity, however often and in whatever order and pages an indexer reports these transactions, they are indexed exactly if the limits suffice, and the rebuilt history tells of exactly them, in ledger order, with the lineage of the identity as its records |

## Left out

- Blake2b, `serde_json_core` and the CKB syscalls: parameters of the model; `check_type_id` follows the rule that contracts/README.md states.
- Lock scripts, capacities, fees, cell dependencies and header dependencies of the ledger: they only refuse more transactions. Coinbase transactions, which consume a null out point, may be part of the starting ledger; later ones are not steps of a run.
- Hexadecimal text, missing JSON fields and their defaults in the transaction encoder: the model starts from bytes and numbers.
- Float rounding and the sign of zero: coordinates are exact reals up to the sign of zero, so a printer that drops the sign of -0 is allowed.
- Validation messages, failure lists, page and cell counters of discovery and history, and log lines: only whether and what kind of error is modelled.
- The nesting and digit limits of Python's JSON library and the stack of the JavaScript engine: the parsers are modelled without.
- Lone surrogates: a character is a Unicode scalar value, as both packages demand of their input; UTF-16 code units are not modelled.
- `correlate` quality metadata and `get_statistics`: floating-point scores that decide nothing.
- Signals without a nanosecond stamp, and mixtures of both kinds: their sort key and their difference use different scales.
- The lock of the rate limiter and the clock that is read before it: one call is one step at a given time.
- The transport tasks of the network client, heartbeat times, latencies and the solver: only whether the feed is restarted is modelled.
- SQLite: the inventory is a map from receiver id to row.
- The other messages of the evidence checks, the frontend other than the hull, the REST routes, report builders and release gates: easy checks or user interface.
- DiscoveryResults.PackagesAgree: it assumes that the readers agree; `PythonAgreement.PackagesListAlike` proves this for the readers of the two packages.
- LedgerDiscovery.MintedIsFound: that the SDK decodes the data of the contract's live cells as the contract does is assumed, because the contract's JSON library is a parameter; for data that the SDK wrote, `Lifecycle.EncodedIsDecoded` and `RecordRoundTrip.CellRoundTrip` give both sides.
- LedgerHistory.HistoryIsLineage: the same is assumed of the data of the contract's outputs that the node shows.
- LedgerHistory.ReportsAreEvents: the same.
- MlatRuntime.Runtime.RefreshRound: an exception of the cache step, which the same handler catches, and one of the handler's own restart are not modelled.
- Lifecycle.WhatCanBePrepared: the checks of deployment, network and signer before a transaction is prepared are not modelled; they refuse more.
