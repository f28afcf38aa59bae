// The Fabric messages field by field: what each written message holds under which literal field number, read with
// the wire format alone. Also the chaincode invocation and the chaincode result, written and read back in full.
module MessageFields {
  import opened Prelude
  import opened Wire
  import opened FabricMessages

  lemma OptVarintFirst(num: nat, value: nat, rest: seq<Field>)
    requires forall f | f in rest :: !(f.Varint? && f.num == num)
    ensures LastVarint(OptVarint(num, value) + rest, num) == value
  {
    if value == 0 {
      assert OptVarint(num, value) + rest == rest;
      AbsentIsDefault(rest, num);
    } else {
      LastWins([], Varint(num, value), rest);
      assert [] + [Varint(num, value)] + rest == OptVarint(num, value) + rest;
    }
  }

  /** A message of two bytes fields, 1 and 2. */
  ghost predicate HoldsPair(bs: Bytes, first: Bytes, second: Bytes) {
    Parse(bs).Some? && LastBytes(Parse(bs).value, 1) == first && LastBytes(Parse(bs).value, 2) == second
  }

  lemma PairHolds(first: Bytes, second: Bytes)
    ensures HoldsPair(Pair(first, second), first, second)
  {
    PairRoundTrip(first, second);
  }

  /** Which part of each two-field message is 1 and which is 2. */
  lemma PairMessages(c: Creator, s: SignatureHeader, h: Header, p: Proposal, e: Endorsement, a: TransactionAction)
    ensures HoldsPair(MarshalCreator(c), c.mspId, c.certificate)
    ensures HoldsPair(MarshalSignatureHeader(s), s.creator, s.nonce)
    ensures HoldsPair(MarshalHeader(h), h.channelHeader, h.signatureHeader)
    ensures HoldsPair(MarshalProposal(p), p.header, p.payload)
    ensures HoldsPair(MarshalEndorsement(e), e.endorser, e.signature)
    ensures HoldsPair(MarshalTransactionAction(a), a.header, a.payload)
  {
    hide Pair;
    PairHolds(c.mspId, c.certificate);
    PairHolds(s.creator, s.nonce);
    PairHolds(h.channelHeader, h.signatureHeader);
    PairHolds(p.header, p.payload);
    PairHolds(e.endorser, e.signature);
    PairHolds(a.header, a.payload);
  }

  /******* Channel header *******/

  /** Seconds are field 1, nanoseconds field 2. */
  ghost predicate HoldsTimestamp(bs: Bytes, t: Timestamp) {
    Parse(bs).Some? && LastVarint(Parse(bs).value, 1) == t.seconds && LastVarint(Parse(bs).value, 2) == t.nanos
  }

  lemma TimestampHolds(t: Timestamp)
    ensures HoldsTimestamp(Encode(TimestampFields(t)), t)
  {
    var seconds, nanos := OptVarint(1, t.seconds), OptVarint(2, t.nanos);
    ParseInvertsEncode(TimestampFields(t));
    OptVarintFirst(1, t.seconds, nanos);
    OptVarintLast(seconds, 2, t.nanos);
  }

  lemma OptVarintLast(before: seq<Field>, num: nat, value: nat)
    requires forall f | f in before :: f.num != num
    ensures LastVarint(before + OptVarint(num, value), num) == value
  {
    if value == 0 {
      assert before + OptVarint(num, value) == before;
      AbsentIsDefault(before, num);
    } else {
      LastWins(before, Varint(num, value), []);
      assert before + [Varint(num, value)] + [] == before + OptVarint(num, value);
    }
  }

  /** Type 1, timestamp 3, channel 4, transaction id 5, extension 7. */
  ghost predicate HoldsChannelHeader(bs: Bytes, h: ChannelHeader) {
    && Parse(bs).Some?
    && var fs := Parse(bs).value;
    && LastVarint(fs, 1) == h.kind && HoldsTimestamp(LastBytes(fs, 3), h.timestamp)
    && LastBytes(fs, 4) == h.channelId && LastBytes(fs, 5) == h.txId && LastBytes(fs, 7) == h.extension
  }

  lemma ChannelHeaderHolds(h: ChannelHeader)
    ensures HoldsChannelHeader(MarshalChannelHeader(h), h)
  {
    hide Parse, Encode, TimestampFields, ChannelHeaderFields, LastBytes, LastVarint, HoldsTimestamp;
    ChannelHeaderEmittable(h);
    ParseInvertsEncode(ChannelHeaderFields(h));
    TimestampHolds(h.timestamp);
    ChannelHeaderParts(h);
  }

  lemma ChannelHeaderParts(h: ChannelHeader)
    ensures var fs := ChannelHeaderFields(h);
            && LastVarint(fs, 1) == h.kind && LastBytes(fs, 3) == Encode(TimestampFields(h.timestamp))
            && LastBytes(fs, 4) == h.channelId && LastBytes(fs, 5) == h.txId && LastBytes(fs, 7) == h.extension
  {
    var time := Encode(TimestampFields(h.timestamp));
    hide Encode, TimestampFields, LastBytes, LastVarint;
    var front, tail := OptVarint(1, h.kind) + [Delimited(3, time)], OptBytes(4, h.channelId) + OptBytes(5, h.txId) + OptBytes(7, h.extension);
    KindAndTime(h.kind, time, tail);
    ChannelIdText(front, h);
    TxIdText(front, h);
    ExtensionText(front, h);
  }

  lemma KindAndTime(kind: nat, time: Bytes, tail: seq<Field>)
    requires forall f | f in tail :: f.num == 4 || f.num == 5 || f.num == 7
    ensures LastVarint(OptVarint(1, kind) + [Delimited(3, time)] + tail, 1) == kind
    ensures LastBytes(OptVarint(1, kind) + [Delimited(3, time)] + tail, 3) == time
  {
    AppendAssociative(OptVarint(1, kind), [Delimited(3, time)], tail);
    OptVarintFirst(1, kind, [Delimited(3, time)] + tail);
    LastWins(OptVarint(1, kind), Delimited(3, time), tail);
  }

  /** The chaincode id is field 2 of the extension, its name field 2 in it. */
  lemma ExtensionHolds(chaincode: Bytes)
    ensures var fs := Parse(MarshalExtension(chaincode));
            fs.Some? && Parse(LastBytes(fs.value, 2)) == Some(OptBytes(2, chaincode))
  {
    var id := OptBytes(2, chaincode);
    ParseInvertsEncode(id);
    ParseInvertsEncode([Delimited(2, Encode(id))]);
    LastBytesIs([Delimited(2, Encode(id))], 2, Encode(id));
  }

  /******* Proposal payload *******/

  /** A map entry: its key is field 1, its value field 2. */
  function ReadEntries(parts: seq<Bytes>): Option<seq<(Bytes, Bytes)>> {
    if parts == [] then Some([])
    else
      var fs :- Parse(parts[0]);
      var rest :- ReadEntries(parts[1..]);
      Some([(LastBytes(fs, 1), LastBytes(fs, 2))] + rest)
  }

  /** The invocation of a proposal payload (field 1) and its transient entries (field 2). */
  function ReadPayload(bs: Bytes): Option<(Bytes, seq<(Bytes, Bytes)>)> {
    var fs :- Parse(bs);
    var transient :- ReadEntries(Occurrences(fs, 2));
    Some((LastBytes(fs, 1), transient))
  }

  lemma EntryHolds(entry: (Bytes, Bytes))
    ensures HoldsPair(TransientEntry(entry), entry.0, entry.1)
  {
    var fs := [Delimited(1, entry.0), Delimited(2, entry.1)];
    ParseInvertsEncode(fs);
    LastBytesIs(fs, 1, entry.0);
    LastBytesIs(fs, 2, entry.1);
  }

  lemma {:induction false} EntriesReadBack(transient: seq<(Bytes, Bytes)>)
    ensures ReadEntries(TransientEntries(transient)) == Some(transient)
  {
    if transient != [] {
      hide TransientEntry, Parse;
      EntryHolds(transient[0]);
      EntriesReadBack(transient[1..]);
      assert TransientEntries(transient)[1..] == TransientEntries(transient[1..]);
      assert transient == [(transient[0].0, transient[0].1)] + transient[1..];
    }
  }

  /** A proposal payload reads back with its invocation and all transient entries, keys and values, in order. */
  lemma PayloadReadsBack(input: Bytes, transient: seq<(Bytes, Bytes)>)
    ensures ReadPayload(MarshalProposalPayload(input, transient)) == Some((input, transient))
  {
    hide ReadEntries, TransientEntries;
    PayloadParses(input, transient);
    BytesThenRepeated(input, TransientEntries(transient));
    EntriesReadBack(transient);
  }

  lemma PayloadParses(input: Bytes, transient: seq<(Bytes, Bytes)>)
    ensures Parse(MarshalProposalPayload(input, transient)) == Some(ProposalPayloadFields(input, transient))
  {
    ParseInvertsEncode(ProposalPayloadFields(input, transient));
  }

  /******* Invocation *******/

  /** What a chaincode is asked to do: the kind of chaincode, its name and the arguments in order. */
  datatype InvocationView = InvocationView(kind: nat, chaincode: Bytes, args: seq<Bytes>)

  /** Spec 1; in it type 1, chaincode id 2 with the name in its field 2, and input 3 with the arguments in its field 1. */
  function ReadInvocation(bs: Bytes): Option<InvocationView> {
    var fs :- Parse(bs);
    var spec :- Parse(LastBytes(fs, 1));
    var id :- Parse(LastBytes(spec, 2));
    var input :- Parse(LastBytes(spec, 3));
    Some(InvocationView(LastVarint(spec, 1), LastBytes(id, 2), Occurrences(input, 1)))
  }

  function SpecFields(chaincodeType: nat, id: Bytes, input: Bytes): seq<Field> {
    OptVarint(1, chaincodeType) + [Delimited(2, id), Delimited(3, input)]
  }

  lemma SpecHolds(chaincodeType: nat, id: Bytes, input: Bytes)
    ensures LastVarint(SpecFields(chaincodeType, id, input), 1) == chaincodeType
    ensures LastBytes(SpecFields(chaincodeType, id, input), 2) == id
    ensures LastBytes(SpecFields(chaincodeType, id, input), 3) == input
  {
    var fs := SpecFields(chaincodeType, id, input);
    OptVarintFirst(1, chaincodeType, [Delimited(2, id), Delimited(3, input)]);
    LastBytesIs(fs, 2, id);
    LastBytesIs(fs, 3, input);
  }

  lemma OneDelimited(num: nat, data: Bytes)
    requires 0 < num <= MAX_FIELD_NUMBER
    ensures Parse(Encode([Delimited(num, data)])) == Some([Delimited(num, data)])
    ensures LastBytes([Delimited(num, data)], num) == data
  {
    ParseInvertsEncode([Delimited(num, data)]);
    LastBytesIs([Delimited(num, data)], num, data);
  }

  /** An invocation reads back with its chaincode type, its chaincode and all its arguments in order. */
  lemma InvocationReadsBack(chaincodeType: nat, chaincode: Bytes, args: seq<Bytes>)
    ensures ReadInvocation(MarshalInvocation(chaincodeType, chaincode, args)) == Some(InvocationView(chaincodeType, chaincode, args))
  {
    var id, input := OptBytes(2, chaincode), Repeat(1, args);
    ParseInvertsEncode(id);
    LastBytesIs(id, 2, chaincode);
    ParseInvertsEncode(input);
    RepeatOccurrences(1, args);
    var spec := SpecFields(chaincodeType, Encode(id), Encode(input));
    ParseInvertsEncode(spec);
    SpecHolds(chaincodeType, Encode(id), Encode(input));
    hide Parse, Encode, LastBytes, LastVarint;
    OneDelimited(1, Encode(spec));
  }

  /******* Result *******/

  datatype ChaincodeResponse = ChaincodeResponse(status: nat, message: Bytes, payload: Bytes)

  /** What a peer's simulation leaves: read-write set, events, the response and the chaincode, each of the last two perhaps missing. */
  datatype ChaincodeAction = ChaincodeAction(
    results: Bytes, events: Bytes, response: Option<ChaincodeResponse>, chaincode: Option<Bytes>)

  /** Response: status 1, message 2, payload 3. */
  function ResponseFields(r: ChaincodeResponse): seq<Field> {
    OptVarint(1, r.status) + (OptBytes(2, r.message) + OptBytes(3, r.payload))
  }

  function OptMessage(num: nat, message: Option<seq<Field>>): seq<Field>
    requires message.Some? ==> forall f | f in message.value :: Emittable(f)
  {
    match message
    case None => []
    case Some(fs) => [Delimited(num, Encode(fs))]
  }

  function ResponseOf(a: ChaincodeAction): (r: Option<seq<Field>>)
    ensures r.Some? ==> forall f | f in r.value :: Emittable(f)
  {
    match a.response
    case None => None
    case Some(response) => Some(ResponseFields(response))
  }

  function ChaincodeOf(a: ChaincodeAction): (r: Option<seq<Field>>)
    ensures r.Some? ==> forall f | f in r.value :: Emittable(f)
  {
    match a.chaincode
    case None => None
    case Some(name) => Some(OptBytes(2, name))
  }

  /** ChaincodeAction: results 1, events 2, response 3, chaincode id 4. */
  function ActionFields(a: ChaincodeAction): seq<Field> {
    (OptBytes(1, a.results) + OptBytes(2, a.events)) + (OptMessage(3, ResponseOf(a)) + OptMessage(4, ChaincodeOf(a)))
  }

  /** ProposalResponsePayload: proposal hash 1, extension 2. */
  function MarshalResponsePayload(hash: Bytes, a: ChaincodeAction): Bytes {
    Encode(OptBytes(1, hash) + OptBytes(2, Encode(ActionFields(a))))
  }

  /** The payload of a chaincode's response; empty when there is no response. */
  function ResultOf(a: ChaincodeAction): Bytes {
    match a.response
    case None => []
    case Some(response) => response.payload
  }

  lemma ResponseReads(r: ChaincodeResponse)
    ensures Parse(Encode(ResponseFields(r))) == Some(ResponseFields(r)) && LastBytes(ResponseFields(r), 3) == r.payload
  {
    ParseInvertsEncode(ResponseFields(r));
    LastBytesIs(ResponseFields(r), 3, r.payload);
  }

  lemma OptMessageOccurs(num: nat, message: Option<seq<Field>>)
    requires message.Some? ==> forall f | f in message.value :: Emittable(f)
    ensures Occurrences(OptMessage(num, message), num) == if message.None? then [] else [Encode(message.value)]
    ensures forall f | f in OptMessage(num, message) :: f.num == num && f.Delimited?
  {
    if message.Some? {
      assert Occurrences([], num) == [];
    }
  }

  lemma ActionOccurrences(a: ChaincodeAction)
    ensures Occurrences(ActionFields(a), 3) == if a.response.None? then [] else [Encode(ResponseOf(a).value)]
    ensures Occurrences(ActionFields(a), 4) == if a.chaincode.None? then [] else [Encode(ChaincodeOf(a).value)]
  {
    hide Encode, ResponseFields, Occurrences, OptMessage;
    var front, response, chaincode := OptBytes(1, a.results) + OptBytes(2, a.events), OptMessage(3, ResponseOf(a)), OptMessage(4, ChaincodeOf(a));
    OptMessageOccurs(3, ResponseOf(a));
    OptMessageOccurs(4, ChaincodeOf(a));
    forall num | num == 3 || num == 4
      ensures Occurrences(ActionFields(a), num) == Occurrences(response, num) + Occurrences(chaincode, num)
    {
      OccurrencesAppend(front, response + chaincode, num);
      OccurrencesAppend(response, chaincode, num);
      NoOccurrences(front, num);
    }
    NoOccurrences(response, 4);
    NoOccurrences(chaincode, 3);
  }

  lemma ActionParts(a: ChaincodeAction)
    ensures AllParse(Occurrences(ActionFields(a), 3) + Occurrences(ActionFields(a), 4))
    ensures Parse(Embedded(ActionFields(a), 3)).Some?
    ensures LastBytes(Parse(Embedded(ActionFields(a), 3)).value, 3) == ResultOf(a)
  {
    hide ActionFields, ResponseFields, Encode;
    ActionOccurrences(a);
    if a.response.Some? {
      ResponseReads(a.response.value);
      assert Flatten([Encode(ResponseFields(a.response.value))]) == Encode(ResponseFields(a.response.value));
    }
    if a.chaincode.Some? {
      ParseInvertsEncode(OptBytes(2, a.chaincode.value));
    }
  }

  lemma ActionEmittable(a: ChaincodeAction)
    ensures forall f | f in ActionFields(a) :: Emittable(f)
  {
    hide Encode;
  }

  /** The result read back from a proposal response payload is exactly the payload of the chaincode's response. */
  lemma ResultReadsBack(hash: Bytes, a: ChaincodeAction)
    ensures UnmarshalResult(MarshalResponsePayload(hash, a)) == Some(ResultOf(a))
  {
    hide ActionFields, Embedded;
    ActionEmittable(a);
    ParseInvertsEncode(ActionFields(a));
    var action := Encode(ActionFields(a));
    hide Encode;
    PairHolds(hash, action);
    ActionParts(a);
  }

  /** A response payload whose extension is no message is refused. */
  lemma BadExtensionIsRefused(hash: Bytes, extension: Bytes)
    requires Parse(extension) == None
    ensures UnmarshalResult(Pair(hash, extension)) == None
  {
    PairHolds(hash, extension);
  }

  /** The payload holds a chaincode response with this result. */
  ghost predicate CarriesResult(payload: Bytes, result: Bytes) {
    exists hash, a :: payload == MarshalResponsePayload(hash, a) && ResultOf(a) == result
  }

  lemma CarriedIsRead(payload: Bytes, result: Bytes)
    requires CarriesResult(payload, result)
    ensures UnmarshalResult(payload) == Some(result)
  {
    var hash, a :| payload == MarshalResponsePayload(hash, a) && ResultOf(a) == result;
    ResultReadsBack(hash, a);
  }

  /******* Endorsed transaction *******/

  /** Proposal payload 1, endorsed action 2; in it response payload 1, endorsements 2. */
  lemma ActionPayloadHolds(a: ActionPayload)
    ensures var fs := Parse(MarshalActionPayload(a));
            && fs.Some? && LastBytes(fs.value, 1) == a.proposalPayload
            && var action := Parse(LastBytes(fs.value, 2));
            && action.Some? && LastBytes(action.value, 1) == a.responsePayload
            && Occurrences(action.value, 2) == MarshalEndorsements(a.endorsements)
  {
    hide Parse, LastBytes, Occurrences;
    EndorsedActionHolds(a.responsePayload, a.endorsements);
    BytesMessageHolds(a.proposalPayload, EndorsedActionFields(a.responsePayload, a.endorsements));
  }

  lemma EndorsedActionHolds(responsePayload: Bytes, es: seq<Endorsement>)
    ensures var action := Parse(Encode(EndorsedActionFields(responsePayload, es)));
            action.Some? && LastBytes(action.value, 1) == responsePayload && Occurrences(action.value, 2) == MarshalEndorsements(es)
  {
    hide MarshalEndorsements;
    ParseInvertsEncode(EndorsedActionFields(responsePayload, es));
    BytesThenRepeated(responsePayload, MarshalEndorsements(es));
  }

  lemma BytesMessageHolds(data: Bytes, message: seq<Field>)
    requires forall f | f in message :: Emittable(f)
    ensures var fs := Parse(Encode(OptBytes(1, data) + [Delimited(2, Encode(message))]));
            fs.Some? && LastBytes(fs.value, 1) == data && LastBytes(fs.value, 2) == Encode(message)
  {
    var fs := OptBytes(1, data) + [Delimited(2, Encode(message))];
    ParseInvertsEncode(fs);
    LastBytesIs(fs, 1, data);
    LastBytesIs(fs, 2, Encode(message));
  }

  /** The one action is field 1 of the transaction; header 1 and data 2 make the payload. */
  lemma PayloadHolds(action: TransactionAction, p: Payload)
    ensures var fs := Parse(MarshalTransaction(action));
            fs.Some? && Occurrences(fs.value, 1) == [MarshalTransactionAction(action)]
    ensures var fs := Parse(MarshalPayload(p));
            fs.Some? && LastBytes(fs.value, 1) == MarshalHeader(p.header) && LastBytes(fs.value, 2) == p.data
  {
    var bs := MarshalTransactionAction(action);
    ParseInvertsEncode([Delimited(1, bs)]);
    OccursOnce([], 1, bs, []);
    assert [] + [Delimited(1, bs)] + [] == [Delimited(1, bs)];
    ParseInvertsEncode(PayloadFields(p));
    LastBytesIs(PayloadFields(p), 1, MarshalHeader(p.header));
    LastBytesIs(PayloadFields(p), 2, p.data);
  }

  /** Of several actions the first one is read. */
  lemma FirstActionIsRead(actions: seq<TransactionAction>, parts: seq<Bytes>)
    requires actions != [] && |parts| == |actions|
    requires forall i | 0 <= i < |parts| :: parts[i] == MarshalTransactionAction(actions[i])
    ensures UnmarshalFirstAction(Encode(Repeat(1, parts))) == Some(Some(actions[0]))
  {
    hide Pair, Encode;
    ParseInvertsEncode(Repeat(1, parts));
    RepeatOccurrences(1, parts);
    forall p | p in parts
      ensures Parse(p).Some?
    {
      var i :| 0 <= i < |parts| && parts[i] == p;
      PairRoundTrip(actions[i].header, actions[i].payload);
    }
    PairRoundTrip(actions[0].header, actions[0].payload);
  }

  /** Transaction id 1, signed proposal 2; in it the proposal bytes 1. */
  lemma ProposedTransactionHolds(txId: Bytes, proposalBytes: Bytes)
    ensures var fs := Parse(MarshalProposedTransaction(txId, proposalBytes));
            fs.Some? && LastBytes(fs.value, 1) == txId && HoldsPair(LastBytes(fs.value, 2), proposalBytes, [])
  {
    var fs := ProposedTransactionFields(txId, proposalBytes);
    ParseInvertsEncode(fs);
    LastBytesIs(fs, 1, txId);
    LastBytesIs(fs, 2, Pair(proposalBytes, []));
    PairHolds(proposalBytes, []);
  }

  /******* Malformed parts *******/

  /** Wherever a reader wants a message and some occurrence of it is none, the whole is refused. */
  lemma MalformedPartsAreRefused(bs: Bytes)
    requires Parse(bs).Some?
    ensures var fs := Parse(bs).value;
            && (!AllParse(Occurrences(fs, 1)) ==> UnmarshalPayload(bs) == None && UnmarshalFirstAction(bs) == None)
            && (!AllParse(Occurrences(fs, 2)) ==>
                  && UnmarshalExtension(bs) == None && UnmarshalProposalInput(bs) == None
                  && UnmarshalActionPayload(bs) == None && UnmarshalProposedProposal(bs) == None)
            && (!AllParse(Occurrences(fs, 3)) ==> UnmarshalChannelHeader(bs) == None)
  {
  }
}
