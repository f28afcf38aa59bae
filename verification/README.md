# Fabric bridge: direct endorsement path

A Dafny model of the part of the Fabric bridge that talks to peers itself, in its Go and TypeScript forms:

- **Peer identity and selection** (`EndpointIdentity`, `EndpointGrammar`, `PeerResolution`, `Targeting`): reading
  endpoints into a canonical identity, the accepted texts spelled out, deduplicating names, checking discovery for uniqueness, resolving the peers a caller names.
- **Ordering and failover** (`RoundRobin`, `GoSlices`, `StableSort`, `SinglePeerOrder`, `Failover`, `SingleSubmit`,
  `SinglePeerSubmission`): sorting, rotating by a shared counter, trying one peer at a time, submitting once.
- **Concurrent endorsement** (`ExplicitEndorsement`, `ExplicitSubmission`): one goroutine per peer, a wait group, and
  all-or-nothing validation.
- **Bytes** (`Wire`, `Utf8`, `FabricMessages`, `MessageFields`, `Proposals`, `GoProposals`, `ProposalContents`,
  `TransactionPayloads`, `Base64`, `SigningMessages`): the protobuf wire format, UTF-8, the Fabric messages and their
  fields by number, building and reading proposals and transaction payloads, and the signing texts. Marshalling is concrete: no inverse is assumed.
- **Offline signing** (`OfflineRouting`, `OfflineSigning`, `GoTransactions`): routing snapshots, resuming them, and the
  whole journey of an unsigned proposal.
- **State over time** (`Events`, `DiscoveryCaching`, `Discovery`): the event stream, the discovery cache and the
  sessions sharing it, and reading a discovery response.

Objects whose methods update fields are classes, algorithms on slices work on arrays with Go's capacity rules, and
loops are methods with invariants; each is proved equal to a specification function, and the properties are proved of
that function. Goroutines and interleaved discover calls are state machines over their steps. Peers, orderers, the
signer, the nonce, the clock and SHA-256 are parameters; nothing is assumed about SHA-256 beyond being a function.

Where the code does not do what its names and comments suggest, the model follows the code. For each of these the
exact condition is proved, and a lemma gives a concrete input:

- TypeScript identities with a leading zero in the port of a plain `host:port` change when normalized a second time
  (`TsIdempotentExactly`; `TsLeadingZeroMoves`). A third normalization changes nothing more (`TwiceIsStable`). So a
  peer asked for by the text it was discovered under may not be found (`SelfRequestExactly`; `SelfRequestFails`), and
  two entries may become one target (`PipelineKeepsNamesExactly`; `TwoNamesOneTarget`).
- Go identities of plain endpoints with a non-numeric port are refused when read again, so such a snapshot cannot be
  resumed even against the same discovery (`GoIdempotentExactly`, `ResumesExactly`; `GoNamedPortIsRefused`,
  `NamedPortCannotResume`).
- The Go `unwrapProposalBytes` turns a raw proposal into its chaincode input, and reads an empty creator, exactly when
  the header bytes are valid UTF-8 (`GoProposals.UnwrapRaw`, `CreatorReadsExactly`; `PlainProposalIsMisread`). A
  certificate of ordinary length rules that out (`UnwrapOrdinary`). The TypeScript one always leaves raw proposals
  alone (`Proposals.UnwrapRaw`).
- The strict base64 test also accepts missing padding and surplus `=` signs in multiples of four (`AcceptsExactly`;
  `PaddingOfOneByte`, `PaddingExamples`).
- Two channel and peer lists with the same pieces between bars share a round-robin counter
  (`KeysCollideExactly`; `BarsInterfere`).
- Clearing channel `a` in the TypeScript cache also deletes the counters of channels named `a:...`
  (`ClearSparesExactly`; `ClearReachesFurther`), and clearing the empty name clears everything.
- The TypeScript single-peer order depends on discovery order exactly when two host names compare equal
  (`TsOrderIgnoresDiscoveryExactly`; `TsSameHostShowsOrder`).

## Model

| member | source | states |
|---|---|---|
| `EndpointIdentity.GoSameIdentityExactly` | go/fabricbridge/peer_endpoint_identity.go:90-123 | Go: two accepted endpoints get one identity if and only if their filled-in schemes and ports are equal and their hosts are equal ignoring case |
| `EndpointIdentity.TsSameIdentityExactly` | src/peer/endpointIdentity.ts:4-42 | the same for TypeScript, whose explicit-scheme ports lose leading zeros |
| `EndpointIdentity.GoIdempotentExactly` | go/fabricbridge/peer_endpoint_identity.go:90-123 | Go: an identity read again under either TLS flag is unchanged when its port is numeric and is refused otherwise; it never becomes another identity |
| `EndpointIdentity.GoNamedPortIsRefused` | go/fabricbridge/peer_endpoint_identity.go:99-122 | the concrete endpoint h:http has an identity that is refused when read again |
| `EndpointIdentity.TsIdempotentExactly` | src/peer/endpointIdentity.ts:4-42 | TypeScript: what an identity becomes when read again; it is unchanged if and only if the port is at most 65535 and has no leading zero |
| `EndpointIdentity.TwiceIsStable` | src/peer/endpointIdentity.ts:4-42 | TypeScript: whatever survives two normalizations is a fixed point under every TLS flag |
| `EndpointIdentity.TsLeadingZeroMoves` | src/peer/endpointIdentity.ts:14-36 | a concrete endpoint whose identity changes when it is normalized again |
| `EndpointIdentity.CanonicalReads` | go/fabricbridge/peer_endpoint_identity.go:117-122 | a printed identity is already trimmed and splits back into the scheme, lower-case host and port it was printed from |
| `EndpointGrammar.GoNormalizeExactly` | go/fabricbridge/peer_endpoint_identity.go:90-123 | Go: a text has an identity if and only if it spells, amid white space, host:port or grpc(s)://host:port in any case of letters; the identity is written out, with grpcs for a plain text exactly under the TLS flag |
| `EndpointGrammar.TsNormalizeExactly` | src/peer/endpointIdentity.ts:4-42 | TypeScript: the same, with numeric ports everywhere, explicit ones at most 65535 and stripped of leading zeros, and an optional final slash |
| `EndpointGrammar.RefusedExactly` | go/fabricbridge/peer_endpoint_identity.go:90-123 | both languages: which of the three errors comes back, decided by blank text and by "://" without a known scheme |
| `EndpointGrammar.PlainIdentity` | go/fabricbridge/peer_endpoint_identity.go:106-122 | every host name and digit port normalizes, in both languages, to ("grpcs" under TLS, else "grpc") + "://" + lower-case host + ":" + port, hosts called grpc included |
| `EndpointGrammar.PlainIsSecureExactly` | src/peer/endpointIdentity.ts:4-42 | a plain name has the identity of its grpcs:// form if and only if the TLS flag is set; in TypeScript the port must also have no leading zero |
| `EndpointGrammar.LowerExactly` | go/fabricbridge/peer_endpoint_identity.go:122 | lower-casing adds 32 to the codes 65 to 90 and keeps every other character |
| `EndpointGrammar.ClassesExactly` | go/fabricbridge/peer_endpoint_identity.go:90-92 | digits, name characters and white space by their ASCII codes |
| `EndpointIdentity.DecimalReads` | go/fabricbridge/direct_discovery.go:219-222 | the decimal text of a number is digits and denotes that number |
| `PeerResolution.DedupePeerEndpointInputs` | go/fabricbridge/peer_endpoint_identity.go:10-25 | the loop gives the first-occurrence list of all identities, or the error of the first input without one, under the normalizer of either language |
| `PeerResolution.FirstOccurrences` | go/fabricbridge/peer_endpoint_identity.go:11-23 | deduplication keeps exactly the elements of the list, none twice |
| `PeerResolution.FirstOccurrencesInOrder` | go/fabricbridge/peer_endpoint_identity.go:13-23 | the kept elements stand in the order of their first positions |
| `PeerResolution.EnsureUniqueDiscoveredPeerEndpoints` | go/fabricbridge/peer_endpoint_identity.go:67-80 | the loop reports the first peer without an identity or the first identity met twice |
| `PeerResolution.EnsureUniqueExactly` | go/fabricbridge/peer_endpoint_identity.go:54-80 | discovery passes if and only if every peer has an identity and no two share one |
| `PeerResolution.UniquenessFaultExactly` | go/fabricbridge/peer_endpoint_identity.go:67-80 | the fault is that of the first peer without an identity or with an earlier peer's one |
| `PeerResolution.MatchDiscoveredPeer` | go/fabricbridge/peer_endpoint_identity.go:27-39 | the loop finds the first discovered peer with the given identity, passing over unreadable ones |
| `PeerResolution.UsesTLSExactly` | go/fabricbridge/peer_endpoint_identity.go:54-61 | a peer uses TLS if and only if its URL names the scheme grpcs, in any case and after any white space |
| `PeerResolution.ResolveEndorsingPeerTargets` | go/fabricbridge/singlepeer.go:98-137 | the loop's outcome in every error and success case, with the last branch unreachable |
| `PeerResolution.SomethingResolved` | go/fabricbridge/singlepeer.go:130-135 | with nothing missing something was resolved, so the final empty-result branch cannot be taken |
| `PeerResolution.ResolveExactly` | go/fabricbridge/singlepeer.go:98-137 | success if and only if every requested identity is discovered; targets are discovered peers whose identities are the first-occurrence dedupe of the names in order; otherwise the error names exactly the absent ones in order |
| `PeerResolution.RefusedExactly` | go/fabricbridge/singlepeer.go:98-113 | the other errors in their order: no names, the first faulty discovered peer, the first name without an identity |
| `PeerResolution.DiscoveredExactly` | go/fabricbridge/singlepeer.go:87-96 | single-peer selection takes all discovered peers if they are uniquely identified and there are some, and otherwise says why not |
| `RoundRobin.RoundRobinState.Next` | go/fabricbridge/singlepeer.go:62-71 | one locked call: the start index and the one counter that moves |
| `RoundRobin.KeysCollideExactly` | go/fabricbridge/singlepeer.go:79-83 | two key-part lists join to one key if and only if they have the same pieces between bars |
| `RoundRobin.KeyInjective` | go/fabricbridge/singlepeer.go:79-83 | without bars in names, keys are equal if and only if channel and peer list are |
| `RoundRobin.StartExactly` | go/fabricbridge/singlepeer.go:62-84 | in any interleaving of calls, the i-th call for one channel and peer set of size n starts at i mod n |
| `RoundRobin.Fair` | go/fabricbridge/singlepeer.go:62-84 | over any stretch of any interleaving holding k calls for one peer set of size n, each index starts floor(k/n) or ceil(k/n) of them |
| `RoundRobin.BarsInterfere` | go/fabricbridge/singlepeer.go:79-83 | with a bar in a channel name two different calls share a counter and the rotation of one is disturbed |
| `GoSlices.Append` | go/fabricbridge/singlepeer.go:84 | append gives the concatenation of the old contents, in place when capacity allows even though both slices share the array, by copy otherwise |
| `GoSlices.SortInPlace` | go/fabricbridge/singlepeer.go:75-77 | the in-place sort leaves the stable sort of the prefix and touches nothing else |
| `StableSort.SortStable` | go/fabricbridge/singlepeer.go:75-77 | tied elements keep their input order |
| `StableSort.TextLeqExactly` | go/fabricbridge/singlepeer.go:75-77 | the text order is dictionary order: equal, a proper beginning, or the smaller character where the texts part |
| `StableSort.SortIgnoresOrder` | go/fabricbridge/singlepeer.go:75-77 | without ties the sorted order does not depend on the input order |
| `StableSort.OrderIndependentExactly` | src/peer/peerSelection.ts:36 | for distinct elements, independence of the input order holds if and only if nothing is tied |
| `SinglePeerOrder.OrderSinglePeers` | go/fabricbridge/singlepeer.go:73-85 | with any spare capacity of the copied slice, the result is the rotated sorted list, the shared counters advance once, and the caller's peers are untouched |
| `SinglePeerOrder.OrderedIsRotation` | go/fabricbridge/singlepeer.go:73-85 | the order is a permutation of the peers; element i is element start + i, counted round, of the peers in dictionary order of their URLs |
| `SinglePeerOrder.OrderIgnoresDiscovery` | go/fabricbridge/singlepeer.go:73-96 | any permutation of a uniquely identified list gives the same counter key, the same order and the same counters afterwards |
| `SinglePeerOrder.FirstPeerExactly` | go/fabricbridge/singlepeer.go:73-85 | after any history of calls, element i of the order is the sorted peer at (earlier calls for this peer set + i) mod n |
| `SinglePeerOrder.EachPeerFirst` | go/fabricbridge/singlepeer.go:62-85 | over any stretch of any interleaving holding k orderings of one peer set of size n, each peer comes first floor(k/n) or ceil(k/n) times |
| `SinglePeerOrder.TsOrderIgnoresDiscoveryExactly` | src/peer/peerSelection.ts:21-52 | the TypeScript sort ignores discovery order if and only if no two host names compare equal, for any locale order |
| `SinglePeerOrder.TsSameHostShowsOrder` | src/peer/peerSelection.ts:36 | two concrete peers on one host keep their discovery order under every locale |
| `Failover.EligibleExactly` | go/fabricbridge/failover.go:30-90 | every decision over the whole tree of wrapped and joined errors: failover if and only if none of the seven final kinds is in it and there is a deadline, a first gRPC code of 4 or 14, or one of the twelve texts; category and reason of each case |
| `Failover.TsEligibleExactly` | src/peer/failoverEligibility.ts:3-73 | every TypeScript decision: failover if and only if the name is none of the seven and the code is 4 or 14 or the message holds one of the thirteen texts, ignoring case; category and reason of each case |
| `Failover.ExecuteSinglePeerTargets` | go/fabricbridge/singlepeer.go:139-184 | the peers called are a prefix of the ordered ones, each once; the result is the first success, the first ineligible error unchanged, or, when all fail over, every peer in order with its decision |
| `SingleSubmit.Broadcast.Finish` | src/peer/DirectPeerRuntime.ts:184-190 | only the first reply settles, later ones change nothing |
| `SingleSubmit.Broadcast.Deliver` | src/peer/DirectPeerRuntime.ts:192-220 | for every sequence of data, error and end events the first one decides and the stream is ended once |
| `SingleSubmit.EventReplyExactly` | src/peer/DirectPeerRuntime.ts:192-220 | accepted if and only if the event is data with status 200; every other event is a SubmitError with its message, the status in decimal |
| `SingleSubmit.SubmitToSinglePeer` | src/peer/PeerContract.ts:554-633 | at most one envelope is written, after it no peer is tried, an error after a write is thrown unchanged, and exhaustion lists every peer with its cause and decision, all having failed over before writing |
| `ExplicitEndorsement.StepKeepsInvariant` | go/fabricbridge/explicit_endorsement.go:52-80 | every goroutine step writes only its own slot and keeps the wait group equal to the number of goroutines not yet done |
| `ExplicitEndorsement.RunKeepsInvariant` | go/fabricbridge/explicit_endorsement.go:52-80 | the invariant holds in every reachable state of every schedule |
| `ExplicitEndorsement.ScheduleIndependent` | go/fabricbridge/explicit_endorsement.go:52-80 | every schedule that reaches a verdict reaches the one of calling the targets in sequence, after exactly two steps per target and the join |
| `ExplicitEndorsement.NeverStuck` | go/fabricbridge/explicit_endorsement.go:55-69 | until there is a verdict some step is enabled |
| `ExplicitEndorsement.VerdictExactly` | go/fabricbridge/explicit_endorsement.go:71-136 | all responses from their own targets and agreeing, or the error of the lowest failing target, or a validation fault when none failed |
| `ExplicitSubmission.EveryScheduleTransacts` | go/fabricbridge/network.go:466-507 | whatever the schedule, an endorsed run yields a transaction with the built channel and id and one endorsement per target, its own, in target order |
| `TransactionPayloads.ValidatePeerProposalResponses` | go/fabricbridge/explicit_endorsement.go:104-136 | no fault if and only if all responses are successful, endorsed and carry the first one's payload; otherwise the first fault in order |
| `TransactionPayloads.ValidateExactly` | go/fabricbridge/explicit_endorsement.go:104-136 | validation passes if and only if there is a response and each is successful, endorsed and carries the first one's payload |
| `TransactionPayloads.FaultExactly` | go/fabricbridge/explicit_endorsement.go:104-136 | the fault is that of the first response at fault: missing, status outside 200 to 399 with a missing response counting as 0, no endorsement, or another payload |
| `TransactionPayloads.BuildSucceedsExactly` | go/fabricbridge/offline.go:515-562 | building succeeds if and only if the responses agree and the proposal's header and payload parse |
| `TransactionPayloads.BuildErrorExactly` | go/fabricbridge/offline.go:515-531 | which error a failed build returns, in the order of the checks |
| `TransactionPayloads.ParseInvertsBuild` | go/fabricbridge/offline.go:515-614 | through all nested encodings, a built payload reads back with the channel and id of the proposal's header and the result read from the responses, errors included; for a payload carrying a chaincode response that result is its payload |
| `TransactionPayloads.UnreadableExactly` | go/fabricbridge/offline.go:579-614 | which error an unreadable payload gives: no payload, no channel header, no transaction, no action, no result |
| `TransactionPayloads.EndorsementsAreExact` | go/fabricbridge/offline.go:530-562 | the payload holds the proposal's header, the action its signature header, the agreed response payload, the invocation input, and exactly the endorsements of all responses in order |
| `TransactionPayloads.TransientIsDropped` | go/fabricbridge/offline.go:536-539 | proposals differing only in transient data give identical outcomes, bytes included |
| `TransactionPayloads.TsParseInvertsBuild` | src/peer/PeerContract.ts:1270-1318 | the TypeScript payload reads back with the proposal's channel and id and the first endorsed response's result |
| `TransactionPayloads.TsEndorsementsAreExact` | src/peer/PeerContract.ts:1274-1317 | the TypeScript payload holds the proposal's header, the action its signature header, and exactly the endorsements of the endorsed responses in order over the first one's payload |
| `TransactionPayloads.TsBuildErrorExactly` | src/peer/PeerContract.ts:1270-1297 | the TypeScript build succeeds if and only if some response is endorsed and header and payload parse, and which error it gives otherwise |
| `TransactionPayloads.EndorsedOnlySnoc` | src/peer/PeerContract.ts:1274 | a further response is kept if and only if it is endorsed, behind those kept before |
| `TransactionPayloads.BuildersAgree` | src/peer/PeerContract.ts:1228-1318 | on responses that pass validation the TypeScript and Go builders give the same bytes or the same error |
| `Wire.VarintRoundTrip` | go/fabricbridge/offline.go:467-485 | unmarshalling as used here: every varint reads back, whatever follows it |
| `Wire.FieldRoundTrip` | go/fabricbridge/offline.go:467-485 | unmarshalling as used here: every emitted field reads back and leaves the rest of the message |
| `Wire.ParseInvertsEncode` | go/fabricbridge/offline.go:467-485 | unmarshalling inverts marshalling on every list of emitted fields, repeated numbers included |
| `Wire.TagExactly` | go/fabricbridge/offline.go:467-485 | a tag is read if and only if its field number is between 1 and 2^29 - 1 |
| `Wire.LastWins` | go/fabricbridge/offline.go:467-485 | the last occurrence of a scalar field decides, whatever precedes it |
| `Wire.EmbeddedMerges` | go/fabricbridge/offline.go:467-485 | an embedded message given in two parts reads as one with the fields of both |
| `Wire.FixedIsSkipped` | go/fabricbridge/offline.go:467-485 | unknown fixed-width fields are stepped over by eight and by four bytes |
| `Wire.GroupIsSkipped` | go/fabricbridge/offline.go:467-485 | an unknown group is stepped over with everything in it |
| `Wire.TruncatedIsRefused` | go/fabricbridge/offline.go:467-485 | a field promising more bytes than there are is refused |
| `Wire.ForeignEndIsRefused` | go/fabricbridge/offline.go:467-485 | a group ended by another number, and an end without a group, are refused |
| `Wire.HexTextTag` | src/offlineSigning.ts:203-214 | every tag read from lower-case hexadecimal text has field number 6, 7 or 12 and leaves hexadecimal text, wherever reading stops |
| `Wire.HexTextFields` | src/offlineSigning.ts:203-214 | a message read from lower-case hexadecimal text has only fields numbered 6, 7 and 12 |
| `FabricMessages.ChannelHeaderRoundTrip` | go/fabricbridge/network.go:446-452 | a channel header reads back its channel, transaction id and extension whatever its type and timestamp |
| `FabricMessages.ActionPayloadRoundTrip` | go/fabricbridge/offline.go:540-549 | an action payload reads back its proposal payload, response payload and all endorsements in order |
| `FabricMessages.TransactionRoundTrip` | go/fabricbridge/offline.go:550-557 | a one-action transaction reads back that action |
| `FabricMessages.PayloadRoundTrip` | go/fabricbridge/offline.go:561 | a payload reads back its header and data |
| `FabricMessages.ProposalPayloadRoundTrip` | go/fabricbridge/network.go:434-437 | a proposal payload reads back its input whatever the transient map |
| `FabricMessages.ProposedTransactionRoundTrip` | src/gateway/GatewayContract.ts:678-683 | a proposed transaction reads back the proposal bytes inside it |
| `Utf8.ValidExactly` | go/fabricbridge/offline.go:504-513 | bytes are valid UTF-8 if and only if they are the encoding of a sequence of scalar values |
| `MessageFields.PairMessages` | go/fabricbridge/network.go:453-463 | identity, signature header, header, proposal, endorsement and action hold their two parts under fields 1 and 2 |
| `MessageFields.ChannelHeaderHolds` | go/fabricbridge/network.go:443-452 | type 1, timestamp 3 with seconds 1 and nanoseconds 2, channel 4, transaction id 5, extension 7 |
| `MessageFields.PayloadReadsBack` | go/fabricbridge/network.go:434-437 | a proposal payload reads back with its invocation (1) and every transient entry (2), key 1 and value 2, in order |
| `MessageFields.InvocationReadsBack` | go/fabricbridge/network.go:402-412 | an invocation reads back with its chaincode type, its chaincode and all its arguments in order, by field numbers |
| `MessageFields.ResultReadsBack` | go/fabricbridge/offline.go:564-577 | for every response payload, the result read is exactly the payload of the chaincode's response, empty when there is none |
| `MessageFields.ActionPayloadHolds` | go/fabricbridge/offline.go:540-549 | proposal payload 1, endorsed action 2, in it response payload 1 and the endorsements 2 |
| `MessageFields.PayloadHolds` | go/fabricbridge/offline.go:550-561 | the action is field 1 of the transaction; header 1 and data 2 make the payload |
| `MessageFields.FirstActionIsRead` | go/fabricbridge/offline.go:598-604 | of several actions the first one is read |
| `MessageFields.ProposedTransactionHolds` | src/gateway/GatewayContract.ts:678-683 | transaction id 1, signed proposal 2, in it the proposal bytes 1 |
| `MessageFields.MalformedPartsAreRefused` | go/fabricbridge/offline.go:467-485 | a message is refused when any occurrence of an embedded message in it is malformed |
| `Proposals.ParseInvertsBuild` | go/fabricbridge/network.go:380-464 | parsing a marshalled proposal gives the channel and chaincode it was built with and hex(SHA-256(nonce ++ creator)) |
| `ProposalContents.BuiltContents` | go/fabricbridge/network.go:380-464 | every field of a built proposal reads back: type 3, time, channel, hex(SHA-256(nonce ++ creator)), chaincode, identity, nonce, chaincode type, the transaction name followed by all arguments in order, and the transient map |
| `ProposalContents.GatewayContents` | src/gateway/GatewayContract.ts:622-691 | the same for the proposal inside a gateway builder's bytes, with the transaction id beside it |
| `ProposalContents.DirectContents` | src/peer/PeerProposalBuilder.ts:34-37 | the direct builders give chaincode type 1 |
| `ProposalContents.TransactionContents` | go/fabricbridge/offline.go:515-562 | a transaction built on it carries the same chaincode type, chaincode and arguments, and no transient data |
| `Proposals.HexTable` | go/fabricbridge/network.go:399-400 | two lower-case digits a byte, the high one first, by table |
| `Proposals.IsFabricExactly` | src/offlineSigning.ts:203-214 | any bytes are recognised if and only if fields 1 and 2 are present and fields 1 and 2 of the first one are |
| `Proposals.UnwrapExactly` | src/offlineSigning.ts:180-201 | any bytes unwrap to the proposal bytes inside if and only if only those are recognised, and to themselves otherwise |
| `Proposals.BuiltProposalIsFabric` | src/offlineSigning.ts:203-214 | a built raw proposal is recognised if and only if it has a nonce or a non-empty identity |
| `Proposals.HexTextIsNotAHeader` | src/offlineSigning.ts:203-214 | a hexadecimal transaction id never reads as a header with either part present |
| `Proposals.WrappedIsNotFabric` | src/offlineSigning.ts:180-214 | a proposed transaction with a hexadecimal id is never taken for a raw proposal |
| `Proposals.UnwrapRaw` | src/offlineSigning.ts:180-201 | a raw proposal unwraps to itself for every invocation, identity and nonce |
| `Proposals.UnwrapWrapped` | src/offlineSigning.ts:180-214 | a wrapped proposal unwraps to exactly its inner bytes if and only if it has a nonce or a non-empty identity |
| `Proposals.CreatorReadsBack` | src/offlineSigning.ts:120-178 | MSP id and certificate read back as supplied from raw bytes, and from wrapped bytes with a nonce or a non-empty identity |
| `GoProposals.UnwrapWrapped` | go/fabricbridge/offline.go:504-513 | the Go unwrapping returns the inner proposal of every wrapped one |
| `GoProposals.UnwrapExactly` | go/fabricbridge/offline.go:504-513 | any bytes unwrap to the non-empty proposal bytes inside if and only if they parse with a text id, and to themselves otherwise |
| `GoProposals.UnwrapRaw` | go/fabricbridge/offline.go:504-513 | on a raw proposal the Go unwrapping returns the chaincode input if and only if the header bytes are valid UTF-8, and the proposal itself otherwise |
| `GoProposals.LongHeader` | go/fabricbridge/offline.go:504-513 | a header with a part of 128 to 16383 bytes is never valid UTF-8 |
| `GoProposals.ShortHeader` | go/fabricbridge/offline.go:504-513 | a header with two shorter parts is valid UTF-8 if and only if both parts are |
| `GoProposals.UnwrapOrdinary` | go/fabricbridge/offline.go:504-513 | with a certificate of at least 128 bytes, and at most 16000 bytes of identity and nonce, raw proposals unwrap to themselves |
| `GoProposals.CreatorReadsExactly` | go/fabricbridge/offline.go:77-101 | the creator read through the Go unwrapping: the one supplied from wrapped bytes; from raw bytes too, except empty when the header is valid UTF-8; refused when the MSP id is not valid UTF-8 |
| `GoProposals.PlainProposalIsMisread` | go/fabricbridge/offline.go:487-513 | a concrete raw proposal with a 24-byte nonce, whatever its 32-byte digest, that unwraps to its chaincode input and loses its creator |
| `Base64.LenientDecodeInverts` | src/offlineSigning.ts:230 | decoding recovers the bytes from their body and any number of equals signs |
| `Base64.AlphabetTable` | src/offlineSigning.ts:11-13 | the 64 characters of table 1 of RFC 4648 |
| `Base64.TestVectors` | src/offlineSigning.ts:11-13 | encodings of the test vectors of section 10 of RFC 4648 |
| `Base64.AcceptsExactly` | src/offlineSigning.ts:216-256 | a text is accepted as given bytes if and only if they are non-empty and the text is their canonical body with canonical padding or a multiple of four equals signs |
| `Base64.PaddingOfOneByte` | src/offlineSigning.ts:229-247 | YQ followed by k equals signs is accepted if and only if k is 2 or a multiple of four |
| `Base64.PaddingExamples` | src/offlineSigning.ts:229-247 | missing padding and four surplus signs are accepted as the same byte, six signs are refused |
| `Base64.DecodeInvertsEncode` | src/offlineSigning.ts:11-13 | decoding inverts encoding on every non-empty byte string and refuses the empty one |
| `SigningMessages.NormalizeIsIdempotent` | src/offlineSigning.ts:19-30 | a normalized signature normalizes to itself and stands for the same bytes |
| `SigningMessages.NormalizedExactly` | src/offlineSigning.ts:19-30 | every signature normalizes to the canonical text of its bytes, or is refused as its text is |
| `SigningMessages.PaddingIsRestored` | src/offlineSigning.ts:19-30 | the unpadded YQ normalizes to YQ== |
| `SigningMessages.SignedMessageRoundTrip` | src/offlineSigning.ts:32-87 | signing request, signing and decoding give back the exact bytes, digest, signature and routing, or the error of the first empty field |
| `GoTransactions.Transaction.BuildOnlinePeerProposal` | go/fabricbridge/explicit_endorsement.go:27-38 | the proposal carries the bridge identity, and the transaction's own creator is back on every path |
| `GoTransactions.BuildFailsExactly` | go/fabricbridge/network.go:380-402 | building fails if and only if there is no creator, or else no nonce, and says which |
| `GoTransactions.BuiltReadsBack` | go/fabricbridge/network.go:380-464 | a built proposal reads back with its channel, chaincode and returned transaction id, and through the Go reader with its identity if and only if the header is not valid UTF-8 and the MSP id is, or both the header is and the identity is empty |
| `SinglePeerSubmission.BuiltTransactionReadsBack` | go/fabricbridge/offline.go:515-614 | agreed responses to a built proposal always make a payload that reads back as that proposal's transaction |
| `SinglePeerSubmission.EndorseSinglePeer` | go/fabricbridge/network.go:522-581 | refused discovery calls nobody and moves no counter; otherwise the counters advance once and the outcome is the one the nonce, the signer and the answers of the rotated peers decide, in every error and success case; the creator is restored |
| `SinglePeerSubmission.EndsExactly` | go/fabricbridge/network.go:522-581 | each outcome if and only if: not built when the nonce failed, not signed when the signer did, and by the last peer called: refused on an ineligible error, exhausted on an eligible one, not endorsed on a response that is not agreed or holds no result, a transaction otherwise |
| `SinglePeerSubmission.EndsOnce` | go/fabricbridge/network.go:522-581 | the outcome, the trace of peers called and the listed attempts are determined by the answers |
| `OfflineRouting.SnapshotIdentities` | go/fabricbridge/network.go:329-358 | a snapshot is duplicate-free, non-empty, and entry by entry the identity of its target: the first ordered peer in single-peer mode, the resolved names otherwise |
| `OfflineRouting.ResolveOfflineSnapshotPeerTargets` | go/fabricbridge/offline.go:294-341 | the loop's outcome in every mode and error case |
| `OfflineRouting.NeverSubstituted` | go/fabricbridge/offline.go:240-341 | a snapshot resumed against any later discovery fails or yields peers of it whose identities equal the snapshot entry by entry |
| `OfflineRouting.ResumesExactly` | go/fabricbridge/offline.go:240-341 | against uniquely identified discovery a resume succeeds if and only if the snapshotted ports are numeric and every recorded identity is still discovered |
| `OfflineRouting.NamedPortCannotResume` | go/fabricbridge/offline.go:294-341 | a concrete snapshot of h:http is taken and cannot be resumed against the very same discovery |
| `OfflineRouting.SamePeersResume` | go/fabricbridge/offline.go:240-341 | against the same peers in any order it yields the original peers in the original order, or fails when a port is not numeric |
| `OfflineRouting.ResumeErrorExactly` | go/fabricbridge/offline.go:240-341 | which error a failed resume gives: the mode, the first faulty discovered peer, the number of recorded peers, or the first recorded peer that is not discovered |
| `OfflineSigning.NormalizeRoutingExactly` | src/peer/PeerContract.ts:139-157 | the two normalization passes of a resumed proposal give the recorded routing back if and only if every recorded endpoint is its own identity |
| `OfflineSigning.OfflineRoundTrip` | src/peer/PeerContract.ts:119-187 | an unsigned proposal signed outside resumes if and only if its routing survives the two normalizations, then with the very bytes, signature, channel and transaction id; its routing is the recorded one if and only if the recorded endpoints are their own identities |
| `OfflineSigning.AcceptedExactly` | src/peer/PeerContract.ts:119-187 | any signed message: refused in the order of texts, digest, peer routing, endpoints and proposal, and what an accepted one becomes |
| `OfflineSigning.NormalizedExactly` | src/peer/PeerContract.ts:139-157 | a recorded list becomes its first-occurrence identities; single-peer mode wants exactly one |
| `Targeting.TargetedTransaction.UseEndorsingPeers` | src/FabricBridge.ts:335-350 | a refused call leaves the targeting as it was and reports why |
| `Targeting.TargetedTransaction.CreatePeerTargeted` | src/FabricBridge.ts:454-479 | the fresh peer transaction ends up with the handed-over targeting or the error |
| `Targeting.AskedExactly` | src/FabricBridge.ts:326-350 | what each setter asks for: one peer, or the first-occurrence identities of the names; no names and the first bad name are refused |
| `Targeting.LastSuccessWins` | src/FabricBridge.ts:326-350 | after any sequence of setter calls the targeting is that of the last successful one, or the default |
| `Targeting.ResolvePeerInfos` | src/peer/PeerContract.ts:780-817 | the loop's infos and missing names after any names |
| `Targeting.PipelineExactly` | src/peer/PeerContract.ts:302-317 | on any names: normalizing and deduplicating on the bridge transaction, on the peer transaction and in resolution gives the first-occurrence list of the twice normalized names in caller order, or names the unknown ones; a name without an identity, no names, and a port over 65535 are refused |
| `Targeting.NormalizeCommutes` | src/peer/endpointIdentity.ts:52-72 | deduplicating before a second normalization or only after it comes to the same list |
| `Targeting.PipelineKeepsNamesExactly` | src/peer/PeerContract.ts:780-817 | the pipeline resolves the once normalized names, whatever was discovered, if and only if every named port is at most 65535 without leading zeros |
| `Targeting.TwoNamesOneTarget` | src/FabricBridge.ts:335-350 | h:07051 and h:7051 are two entries on the bridge transaction and one target in the end |
| `Targeting.LookupExactly` | src/peer/PeerDiscoverySession.ts:52-57 | one peer per identity in order when none is unknown, and exactly the identities outside the map are unknown |
| `Targeting.SelfRequestExactly` | src/peer/PeerContract.ts:780-817 | a peer asked for by the text it was discovered under is found if and only if its port prints as it stands |
| `Targeting.SelfRequestFails` | src/peer/PeerContract.ts:780-817 | a peer discovered as h:07051 is not found by asking for h:07051 |
| `Discovery.ConfigOrderIrrelevant` | go/fabricbridge/direct_discovery.go:212-226 | the orderers read from a config map are the same, up to order, for every iteration order |
| `Discovery.SelectDiscoveredOrdererEndpoint` | go/fabricbridge/direct_discovery.go:228-240 | sorting a copy in place and taking its head gives the selected endpoint, or the empty text |
| `Discovery.SelectedIsLeast` | go/fabricbridge/direct_discovery.go:228-240 | the selected endpoint belongs to the orderer that comes first by endpoint and then MSP id in dictionary order, and is the same for every permutation |
| `Discovery.MembershipOrderIrrelevant` | go/fabricbridge/direct_discovery.go:187-210 | the peers, or the error, are the same for every iteration order of the membership map |
| `Discovery.DiscoveryResultFromResponse` | go/fabricbridge/direct_discovery.go:149-185 | the loop's outcome in every error and success case |
| `Discovery.DiscoveryExactly` | go/fabricbridge/direct_discovery.go:149-255 | a discovery holds exactly the peers some membership names and exactly the orderers some configuration lists, sorted; an error is that of the first failing result, or says that nothing came back or no peer was named |
| `Discovery.MembershipExactly` | go/fabricbridge/direct_discovery.go:187-255 | a membership is refused if and only if some member has no readable endpoint, and otherwise gives exactly the named peers |
| `Discovery.MembershipInOrder` | go/fabricbridge/direct_discovery.go:187-255 | organisations come in dictionary order of their ids, the peers of each in its own order; or the error of the first unusable peer in that order |
| `Discovery.ResultsInOrder` | go/fabricbridge/direct_discovery.go:157-174 | the results of a response contribute one after the other |
| `Discovery.ConfigExactly` | go/fabricbridge/direct_discovery.go:212-226 | exactly the orderers with a host and a non-zero port are listed |
| `Discovery.MapOrderIrrelevant` | go/fabricbridge/direct_discovery.go:149-226 | any map iteration order gives the same peers, the same sorted orderers or the same error |
| `DiscoveryCaching.DiscoveryCache.Clear` | src/cache/DiscoveryCache.ts:40-52 | the loop removes exactly the channel's entry and the counters with its prefix, or everything |
| `DiscoveryCaching.DiscoveryCache.NextRoundRobinIndex` | src/cache/DiscoveryCache.ts:54-62 | the index returned and the one counter that moves |
| `DiscoveryCaching.ClearSparesExactly` | src/cache/DiscoveryCache.ts:40-52 | clearing a channel deletes another channel's counter if and only if that channel's name continues the cleared one with a colon, or its endpoints complete the cleared name; the second cannot happen for a name without a colon |
| `DiscoveryCaching.ClearReachesFurther` | src/cache/DiscoveryCache.ts:40-52 | clearing a deletes the counter of channel a:b, and clearing the empty name deletes every counter and entry |
| `DiscoveryCaching.ClearIsolates` | src/cache/DiscoveryCache.ts:40-48 | clearing a channel removes its entry and counters and keeps every other entry |
| `DiscoveryCaching.PeerDiscoverySession.BeginDiscover` | src/peer/PeerDiscoverySession.ts:20-31 | discover up to its fetch takes exactly the Begin step of the session: an entry not past its expiry is the answer, otherwise the held entry is remembered |
| `DiscoveryCaching.PeerDiscoverySession.FinishDiscover` | src/peer/PeerDiscoverySession.ts:32-49 | discover after its fetch takes exactly the Succeed or Fail step: cached and returned, or what was held |
| `DiscoveryCaching.CacheComesFromFetches` | src/peer/PeerDiscoverySession.ts:20-50 | over any interleaving, every entry is the result of an earlier successful fetch for that channel and expires one TTL after it |
| `DiscoveryCaching.FlightsAreRecorded` | src/peer/PeerDiscoverySession.ts:25-48 | a call waiting for its fetch holds what was cached when it began |
| `DiscoveryCaching.AnswersAreJustified` | src/peer/PeerDiscoverySession.ts:20-50 | an answer without a fetch is within its TTL, a failed fetch answers with the entry held at the call, and no result is given only when there was none |
| `DiscoveryCaching.DiscoverExactly` | src/peer/PeerDiscoverySession.ts:25-32 | after any run, discover answers at once and without a fetch if and only if an entry is held and now is at most one TTL after its fetch; it answers with that fetch's result |
| `DiscoveryCaching.HeldExactly` | src/cache/DiscoveryCache.ts:13-52 | an entry is held if and only if some step brought one and no later step cleared the channel, by name or altogether |
| `DiscoveryCaching.CacheIsLatest` | src/cache/DiscoveryCache.ts:27-32 | the entry of a channel is its latest fetch, expiring one TTL after it |
| `Events.ChaincodeEventStream.Refill` | go/fabricbridge/events.go:105-113 | the queue holds exactly the response's events in order with its block number |
| `Events.ChaincodeEventStream.Recv` | go/fabricbridge/events.go:89-115 | the loop ends and returns exactly the next remaining event, or the ending when nothing remains |
| `Events.FlattenedAt` | go/fabricbridge/events.go:97-113 | event j of response i stands behind all events of earlier responses, with its own response's block number, and the stream holds nothing else |
| `Events.NothingLost` | go/fabricbridge/events.go:89-115 | over any run, delivered events followed by those remaining are the whole stream; call i gives event i, and the ending only after all of them |

## Left out

- EndpointIdentity.GoSameIdentityExactly: hosts and ports are read over letters, digits, dot, hyphen and underscore; other characters, which the URL parsers partly accept (user info, IPv6 brackets, percent escapes, queries, empty fragments), are refused by the model, only ASCII white space is trimmed, and error texts are collapsed to three kinds.
- EndpointIdentity.TsSameIdentityExactly: the same restriction, so plain hosts holding a colon, which the split at the last colon accepts, are refused; of a URL path only one final slash is modelled, and an invalid URL, on which the constructor throws, counts as a malformed endpoint.
- Wire.VarintRoundTrip: varints are unbounded; the ten-byte limit and the cut to 64 bits are not modelled.
- Wire.HexTextFields: a stray end-group tag is an error here, while the JavaScript reader stops quietly; that every tag read before has number 6, 7 or 12 holds wherever reading stops (`HexTextTag`, `HexTextField`).
- GoProposals.UnwrapRaw: the UTF-8 check is made on the wrapper's transaction id and the MSP id, the text fields this reading goes through; the other readers and the marshalling of invalid text, which Go refuses, are modelled without it.
- FabricMessages.ChannelHeaderRoundTrip: timestamps before 1970 and header fields the bridge does not set are not modelled; fields unknown to a message are dropped on re-marshalling, while Go keeps them.
- Base64.AcceptsExactly: the decoder skips characters outside its alphabet; the acceptance result does not depend on how such texts decode. Go's own base64 decoding is not modelled.
- SinglePeerOrder.FirstPeerExactly: stated for names without a bar, as shared keys are characterised by `KeysCollideExactly`.
- SinglePeerOrder.TsOrderIgnoresDiscoveryExactly: `localeCompare` is any total preorder.
- StableSort.SortStable: the library sorts are stood in for by a stable insertion sort.
- OfflineRouting.ResolveOfflineSnapshotPeerTargets: a gateway-default routing holds no peers here, so the branch for an unknown mode with peers does not arise.
- MessageFields.ResultReadsBack: response statuses are not negative.
- SingleSubmit.SubmitToSinglePeer: the deadline is an error event, a write that throws is taken to have written nothing, and error values that are not Error objects are read as ones without a known name.
- Failover.EligibleExactly: the nil error, which no caller passes, is not modelled.
- Failover.ExecuteSinglePeerTargets: the error carries the eligible identities and the attempts, not the operation, channel, chaincode and transaction names; log lines are left out.
- PeerResolution.ResolveExactly: the list of available peers inside the not-found error is left out.
- GoTransactions.BuiltReadsBack: names and transient data are values, so a caller changing its own slice or map afterwards is not modelled.
- Targeting.ResolvePeerInfos: the not-found error lists the missing identities only.
- OfflineSigning.OfflineRoundTrip: the SHA-256 digest is required to be non-empty, which its 32 bytes always are.
- Discovery.DiscoveryResultFromResponse: peer properties are left out. The TypeScript reading of the same response is not modelled.
- DiscoveryCaching.AnswersAreJustified: the cache's plain getters and setters have no row; freshness is claimed for `discover` only; `DiscoveryCache.get` and the callers that use it directly return expired entries. The background refresh after a failure is one more Begin step and nothing is claimed about its end.
- ExplicitEndorsement.VerdictExactly: the Go path; which rejection TypeScript `Promise.all` reports is timing, and signing the request before the goroutines start is a parameter.
- gRPC connections, TLS credentials, deadlines, the gateway library calls, commit status, configuration defaults and validation, error classes and loggers: transport and plumbing.
- Submitting the Go transaction to an orderer, the gateway routing of signed proposals and the data-transfer getters: they add only easy members.
