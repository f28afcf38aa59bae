// The Hyperledger Fabric messages the bridge builds and reads, each as a value with its marshalled
// form (field numbers as in the Fabric protobuf definitions) and the lemma that reading inverts writing.
// Text fields are kept as their UTF-8 bytes.
module FabricMessages {
  import opened Prelude
  import opened Wire

  const ENDORSER_TRANSACTION: nat := 3

  datatype Creator = Creator(mspId: Bytes, certificate: Bytes)
  datatype Timestamp = Timestamp(seconds: nat, nanos: nat)
  datatype ChannelHeader = ChannelHeader(kind: nat, timestamp: Timestamp, channelId: Bytes, txId: Bytes, extension: Bytes)
  datatype SignatureHeader = SignatureHeader(creator: Bytes, nonce: Bytes)
  datatype Header = Header(channelHeader: Bytes, signatureHeader: Bytes)
  datatype Proposal = Proposal(header: Bytes, payload: Bytes)
  datatype Endorsement = Endorsement(endorser: Bytes, signature: Bytes)
  datatype ActionPayload = ActionPayload(proposalPayload: Bytes, responsePayload: Bytes, endorsements: seq<Endorsement>)
  datatype TransactionAction = TransactionAction(header: Bytes, payload: Bytes)
  datatype Payload = Payload(header: Header, data: Bytes)

  /** A proto3 scalar is written only when it is not its default. */
  function OptBytes(num: nat, data: Bytes): seq<Field> {
    if data == [] then [] else [Delimited(num, data)]
  }

  function OptVarint(num: nat, value: nat): seq<Field> {
    if value == 0 then [] else [Varint(num, value)]
  }

  lemma OptBytesBetween(before: seq<Field>, num: nat, data: Bytes, after: seq<Field>)
    requires !Mentions(before, num) && !Mentions(after, num)
    ensures LastBytes(before + OptBytes(num, data) + after, num) == data
  {
    LastBytesIs(before + OptBytes(num, data) + after, num, data);
  }

  /** The shape of a message made of two bytes fields numbered 1 and 2. */
  function Pair(first: Bytes, second: Bytes): (bs: Bytes)
    ensures bs == [] <==> first == [] && second == []
  {
    Encode(OptBytes(1, first) + OptBytes(2, second))
  }

  function ReadPair(bs: Bytes): Option<(Bytes, Bytes)> {
    var fs :- Parse(bs);
    Some((LastBytes(fs, 1), LastBytes(fs, 2)))
  }

  lemma PairRoundTrip(first: Bytes, second: Bytes)
    ensures ReadPair(Pair(first, second)) == Some((first, second))
  {
    var fs := OptBytes(1, first) + OptBytes(2, second);
    ParseInvertsEncode(fs);
    LastBytesIs(fs, 1, first);
    LastBytesIs(fs, 2, second);
  }

  /******* Identity, headers, proposal *******/

  function MarshalCreator(c: Creator): Bytes {
    Pair(c.mspId, c.certificate)
  }

  function UnmarshalCreator(bs: Bytes): Option<Creator> {
    var (mspId, certificate) :- ReadPair(bs);
    Some(Creator(mspId, certificate))
  }

  function MarshalSignatureHeader(h: SignatureHeader): Bytes {
    Pair(h.creator, h.nonce)
  }

  function UnmarshalSignatureHeader(bs: Bytes): Option<SignatureHeader> {
    var (creator, nonce) :- ReadPair(bs);
    Some(SignatureHeader(creator, nonce))
  }

  function MarshalHeader(h: Header): Bytes {
    Pair(h.channelHeader, h.signatureHeader)
  }

  function UnmarshalHeader(bs: Bytes): Option<Header> {
    var (channelHeader, signatureHeader) :- ReadPair(bs);
    Some(Header(channelHeader, signatureHeader))
  }

  function MarshalProposal(p: Proposal): Bytes {
    Pair(p.header, p.payload)
  }

  function UnmarshalProposal(bs: Bytes): Option<Proposal> {
    var (header, payload) :- ReadPair(bs);
    Some(Proposal(header, payload))
  }

  /** ChaincodeHeaderExtension: an embedded ChaincodeID (field 2) holding a name (field 2). */
  function MarshalExtension(chaincode: Bytes): Bytes {
    Encode([Delimited(2, Encode(OptBytes(2, chaincode)))])
  }

  function UnmarshalExtension(bs: Bytes): Option<Bytes> {
    var fs :- Parse(bs);
    if !AllParse(Occurrences(fs, 2)) then None
    else
      var id :- Parse(Embedded(fs, 2));
      Some(LastBytes(id, 2))
  }

  lemma ExtensionRoundTrip(chaincode: Bytes)
    ensures UnmarshalExtension(MarshalExtension(chaincode)) == Some(chaincode)
  {
    var id := OptBytes(2, chaincode);
    ParseInvertsEncode(id);
    LastBytesIs(id, 2, chaincode);
    var fs := [Delimited(2, Encode(id))];
    ParseInvertsEncode(fs);
    OccursOnce([], 2, Encode(id), []);
    assert [] + fs + [] == fs;
  }

  function TimestampFields(t: Timestamp): seq<Field> {
    OptVarint(1, t.seconds) + OptVarint(2, t.nanos)
  }

  function ChannelHeaderFields(h: ChannelHeader): seq<Field> {
    OptVarint(1, h.kind) + [Delimited(3, Encode(TimestampFields(h.timestamp)))] +
    (OptBytes(4, h.channelId) + OptBytes(5, h.txId) + OptBytes(7, h.extension))
  }

  function MarshalChannelHeader(h: ChannelHeader): (bs: Bytes)
    ensures bs != []
  {
    Encode(ChannelHeaderFields(h))
  }

  /** What the bridge reads from a channel header; every embedded timestamp must be well formed. */
  datatype ChannelHeaderView = ChannelHeaderView(channelId: Bytes, txId: Bytes, extension: Bytes)

  function ChannelHeaderOf(fs: seq<Field>): Option<ChannelHeaderView> {
    if AllParse(Occurrences(fs, 3)) then Some(ChannelHeaderView(LastBytes(fs, 4), LastBytes(fs, 5), LastBytes(fs, 7)))
    else None
  }

  function UnmarshalChannelHeader(bs: Bytes): Option<ChannelHeaderView> {
    var fs :- Parse(bs);
    ChannelHeaderOf(fs)
  }

  lemma ChannelIdText(front: seq<Field>, h: ChannelHeader)
    requires !Mentions(front, 4)
    ensures LastBytes(front + (OptBytes(4, h.channelId) + OptBytes(5, h.txId) + OptBytes(7, h.extension)), 4) == h.channelId
  {
    var id, txId, extension := OptBytes(4, h.channelId), OptBytes(5, h.txId), OptBytes(7, h.extension);
    MentionsAppend(txId, extension, 4);
    OptBytesBetween(front, 4, h.channelId, txId + extension);
    AppendAssociative(id, txId, extension);
    AppendAssociative(front, id, txId + extension);
  }

  lemma TxIdText(front: seq<Field>, h: ChannelHeader)
    requires !Mentions(front, 5)
    ensures LastBytes(front + (OptBytes(4, h.channelId) + OptBytes(5, h.txId) + OptBytes(7, h.extension)), 5) == h.txId
  {
    var id, txId, extension := OptBytes(4, h.channelId), OptBytes(5, h.txId), OptBytes(7, h.extension);
    MentionsAppend(front, id, 5);
    OptBytesBetween(front + id, 5, h.txId, extension);
    AppendAssociative(id, txId, extension);
    AppendAssociative(front, id, txId + extension);
    AppendAssociative(front + id, txId, extension);
  }

  lemma ExtensionText(front: seq<Field>, h: ChannelHeader)
    requires !Mentions(front, 7)
    ensures LastBytes(front + (OptBytes(4, h.channelId) + OptBytes(5, h.txId) + OptBytes(7, h.extension)), 7) == h.extension
  {
    var texts, extension := OptBytes(4, h.channelId) + OptBytes(5, h.txId), OptBytes(7, h.extension);
    MentionsAppend(OptBytes(4, h.channelId), OptBytes(5, h.txId), 7);
    MentionsAppend(front, texts, 7);
    OptBytesBetween(front + texts, 7, h.extension, []);
    AppendAssociative(front, texts, extension);
    assert front + texts + extension + [] == front + texts + extension;
  }

  lemma ChannelHeaderTimestamp(h: ChannelHeader)
    ensures Occurrences(ChannelHeaderFields(h), 3) == [Encode(TimestampFields(h.timestamp))]
  {
    OccursOnce(OptVarint(1, h.kind), 3, Encode(TimestampFields(h.timestamp)),
               OptBytes(4, h.channelId) + OptBytes(5, h.txId) + OptBytes(7, h.extension));
  }

  lemma ChannelHeaderOfFields(h: ChannelHeader)
    ensures ChannelHeaderOf(ChannelHeaderFields(h)) == Some(ChannelHeaderView(h.channelId, h.txId, h.extension))
  {
    var front := OptVarint(1, h.kind) + [Delimited(3, Encode(TimestampFields(h.timestamp)))];
    assert forall f | f in front :: f.num == 1 || f.num == 3;
    ChannelIdText(front, h);
    TxIdText(front, h);
    ExtensionText(front, h);
    ChannelHeaderTimestamp(h);
    ParseInvertsEncode(TimestampFields(h.timestamp));
  }

  lemma ChannelHeaderRoundTrip(h: ChannelHeader)
    ensures UnmarshalChannelHeader(MarshalChannelHeader(h)) == Some(ChannelHeaderView(h.channelId, h.txId, h.extension))
  {
    hide ChannelHeaderOf, ChannelHeaderFields, Parse;
    ChannelHeaderEmittable(h);
    ParseInvertsEncode(ChannelHeaderFields(h));
    ChannelHeaderOfFields(h);
  }

  lemma ChannelHeaderEmittable(h: ChannelHeader)
    ensures forall f | f in ChannelHeaderFields(h) :: Emittable(f)
  {
    hide Encode;
    assert forall f | f in OptVarint(1, h.kind) :: Emittable(f);
    assert forall f | f in OptBytes(4, h.channelId) + OptBytes(5, h.txId) + OptBytes(7, h.extension) :: Emittable(f);
  }

  /******* Proposal payload *******/

  /** One map entry: key and value are both always written. */
  function TransientEntry(entry: (Bytes, Bytes)): Bytes {
    Encode([Delimited(1, entry.0), Delimited(2, entry.1)])
  }

  function TransientEntries(transient: seq<(Bytes, Bytes)>): (parts: seq<Bytes>)
    ensures |parts| == |transient|
    ensures forall i | 0 <= i < |parts| :: parts[i] == TransientEntry(transient[i])
  {
    if transient == [] then [] else [TransientEntry(transient[0])] + TransientEntries(transient[1..])
  }

  function ProposalPayloadFields(input: Bytes, transient: seq<(Bytes, Bytes)>): seq<Field> {
    OptBytes(1, input) + Repeat(2, TransientEntries(transient))
  }

  /** ChaincodeProposalPayload: the invocation (field 1) and the transient map (field 2). */
  function MarshalProposalPayload(input: Bytes, transient: seq<(Bytes, Bytes)>): Bytes {
    Encode(ProposalPayloadFields(input, transient))
  }

  /** The invocation input of a proposal payload; the transient entries must parse. */
  function InputOf(fs: seq<Field>): Option<Bytes> {
    if AllParse(Occurrences(fs, 2)) then Some(LastBytes(fs, 1)) else None
  }

  function UnmarshalProposalInput(bs: Bytes): Option<Bytes> {
    var fs :- Parse(bs);
    InputOf(fs)
  }

  lemma BytesThenRepeated(data: Bytes, parts: seq<Bytes>)
    ensures LastBytes(OptBytes(1, data) + Repeat(2, parts), 1) == data
    ensures Occurrences(OptBytes(1, data) + Repeat(2, parts), 2) == parts
  {
    LastBytesIs(OptBytes(1, data) + Repeat(2, parts), 1, data);
    OccurrencesAppend(OptBytes(1, data), Repeat(2, parts), 2);
    NoOccurrences(OptBytes(1, data), 2);
    RepeatOccurrences(2, parts);
  }

  lemma TransientEntriesParse(transient: seq<(Bytes, Bytes)>)
    ensures AllParse(TransientEntries(transient))
  {
    var parts := TransientEntries(transient);
    forall p | p in parts
      ensures Parse(p).Some?
    {
      var i :| 0 <= i < |parts| && parts[i] == p;
      ParseInvertsEncode([Delimited(1, transient[i].0), Delimited(2, transient[i].1)]);
    }
  }

  lemma ProposalPayloadRoundTrip(input: Bytes, transient: seq<(Bytes, Bytes)>)
    ensures UnmarshalProposalInput(MarshalProposalPayload(input, transient)) == Some(input)
  {
    ParseInvertsEncode(ProposalPayloadFields(input, transient));
    InputOfFields(input, transient);
  }

  lemma InputOfFields(input: Bytes, transient: seq<(Bytes, Bytes)>)
    ensures InputOf(ProposalPayloadFields(input, transient)) == Some(input)
  {
    BytesThenRepeated(input, TransientEntries(transient));
    TransientEntriesParse(transient);
  }

  /** ChaincodeInvocationSpec: spec (1) holding type (1), chaincode id (2) and input arguments (3). */
  function MarshalInvocation(chaincodeType: nat, chaincode: Bytes, args: seq<Bytes>): (bs: Bytes)
    ensures bs != []
  {
    Encode([Delimited(1, Encode(
      OptVarint(1, chaincodeType) + [Delimited(2, Encode(OptBytes(2, chaincode))), Delimited(3, Encode(Repeat(1, args)))]))])
  }

  /******* Endorsed transaction *******/

  function MarshalEndorsement(e: Endorsement): Bytes {
    Pair(e.endorser, e.signature)
  }

  function UnmarshalEndorsement(bs: Bytes): Option<Endorsement> {
    var (endorser, signature) :- ReadPair(bs);
    Some(Endorsement(endorser, signature))
  }

  function MarshalEndorsements(es: seq<Endorsement>): (parts: seq<Bytes>)
    ensures |parts| == |es|
    ensures forall i | 0 <= i < |es| :: parts[i] == MarshalEndorsement(es[i])
  {
    if es == [] then [] else [MarshalEndorsement(es[0])] + MarshalEndorsements(es[1..])
  }

  function UnmarshalEndorsements(parts: seq<Bytes>): Option<seq<Endorsement>> {
    if parts == [] then Some([])
    else
      var e :- UnmarshalEndorsement(parts[0]);
      var es :- UnmarshalEndorsements(parts[1..]);
      Some([e] + es)
  }

  lemma {:induction false} EndorsementsRoundTrip(es: seq<Endorsement>)
    ensures UnmarshalEndorsements(MarshalEndorsements(es)) == Some(es)
  {
    if es != [] {
      PairRoundTrip(es[0].endorser, es[0].signature);
      EndorsementsRoundTrip(es[1..]);
      assert MarshalEndorsements(es)[1..] == MarshalEndorsements(es[1..]);
      assert es == [es[0]] + es[1..];
    }
  }

  /** ChaincodeEndorsedAction: the response payload (1) and the endorsements (2). */
  function EndorsedActionFields(responsePayload: Bytes, es: seq<Endorsement>): seq<Field> {
    OptBytes(1, responsePayload) + Repeat(2, MarshalEndorsements(es))
  }

  function UnmarshalEndorsedAction(bs: Bytes): Option<(Bytes, seq<Endorsement>)> {
    var fs :- Parse(bs);
    var es :- UnmarshalEndorsements(Occurrences(fs, 2));
    Some((LastBytes(fs, 1), es))
  }

  lemma EndorsedActionRoundTrip(responsePayload: Bytes, es: seq<Endorsement>)
    ensures UnmarshalEndorsedAction(Encode(EndorsedActionFields(responsePayload, es))) == Some((responsePayload, es))
  {
    ParseInvertsEncode(EndorsedActionFields(responsePayload, es));
    BytesThenRepeated(responsePayload, MarshalEndorsements(es));
    EndorsementsRoundTrip(es);
  }

  function ActionPayloadFields(a: ActionPayload): seq<Field> {
    OptBytes(1, a.proposalPayload) + [Delimited(2, Encode(EndorsedActionFields(a.responsePayload, a.endorsements)))]
  }

  function MarshalActionPayload(a: ActionPayload): Bytes {
    Encode(ActionPayloadFields(a))
  }

  function UnmarshalActionPayload(bs: Bytes): Option<ActionPayload> {
    var fs :- Parse(bs);
    if !AllParse(Occurrences(fs, 2)) then None
    else
      var (responsePayload, es) :- UnmarshalEndorsedAction(Embedded(fs, 2));
      Some(ActionPayload(LastBytes(fs, 1), responsePayload, es))
  }

  lemma ActionPayloadRoundTrip(a: ActionPayload)
    ensures UnmarshalActionPayload(MarshalActionPayload(a)) == Some(a)
  {
    var action := EndorsedActionFields(a.responsePayload, a.endorsements);
    ParseInvertsEncode(action);
    EndorsedActionRoundTrip(a.responsePayload, a.endorsements);
    ParseInvertsEncode(ActionPayloadFields(a));
    BytesThenMessage(a.proposalPayload, Encode(action));
  }

  lemma BytesThenMessage(data: Bytes, message: Bytes)
    ensures LastBytes(OptBytes(1, data) + [Delimited(2, message)], 1) == data
    ensures Occurrences(OptBytes(1, data) + [Delimited(2, message)], 2) == [message]
    ensures Embedded(OptBytes(1, data) + [Delimited(2, message)], 2) == message
  {
    var fs := OptBytes(1, data) + [Delimited(2, message)];
    LastBytesIs(fs, 1, data);
    OccursOnce(OptBytes(1, data), 2, message, []);
    assert OptBytes(1, data) + [Delimited(2, message)] + [] == fs;
  }

  function MarshalTransactionAction(a: TransactionAction): Bytes {
    Pair(a.header, a.payload)
  }

  function UnmarshalTransactionAction(bs: Bytes): Option<TransactionAction> {
    var (header, payload) :- ReadPair(bs);
    Some(TransactionAction(header, payload))
  }

  /** Transaction: its actions (field 1). */
  function MarshalTransaction(action: TransactionAction): Bytes {
    Encode([Delimited(1, MarshalTransactionAction(action))])
  }

  /** The first action of a transaction, or None inside when it has none. */
  function UnmarshalFirstAction(bs: Bytes): Option<Option<TransactionAction>> {
    var fs :- Parse(bs);
    var parts := Occurrences(fs, 1);
    if !AllParse(parts) then None
    else if parts == [] then Some(None)
    else Some(UnmarshalTransactionAction(parts[0]))
  }

  lemma TransactionRoundTrip(action: TransactionAction)
    ensures UnmarshalFirstAction(MarshalTransaction(action)) == Some(Some(action))
  {
    var bs := MarshalTransactionAction(action);
    PairRoundTrip(action.header, action.payload);
    ParseInvertsEncode([Delimited(1, bs)]);
    OccursOnce([], 1, bs, []);
    assert [] + [Delimited(1, bs)] + [] == [Delimited(1, bs)];
  }

  /** Payload: the embedded header (field 1) and the data (field 2). */
  function PayloadFields(p: Payload): seq<Field> {
    [Delimited(1, MarshalHeader(p.header))] + OptBytes(2, p.data)
  }

  function MarshalPayload(p: Payload): Bytes {
    Encode(PayloadFields(p))
  }

  function UnmarshalPayload(bs: Bytes): Option<Payload> {
    var fs :- Parse(bs);
    if !AllParse(Occurrences(fs, 1)) then None
    else
      var header :- UnmarshalHeader(Embedded(fs, 1));
      Some(Payload(header, LastBytes(fs, 2)))
  }

  lemma PayloadRoundTrip(p: Payload)
    ensures UnmarshalPayload(MarshalPayload(p)) == Some(p)
  {
    var fs := PayloadFields(p);
    ParseInvertsEncode(fs);
    PairRoundTrip(p.header.channelHeader, p.header.signatureHeader);
    LastBytesIs(fs, 2, p.data);
    OccursOnce([], 1, MarshalHeader(p.header), OptBytes(2, p.data));
    assert [] + [Delimited(1, MarshalHeader(p.header))] + OptBytes(2, p.data) == fs;
  }

  /******* Gateway proposed transaction *******/

  function ProposedTransactionFields(txId: Bytes, proposalBytes: Bytes): seq<Field> {
    OptBytes(1, txId) + [Delimited(2, Pair(proposalBytes, []))]
  }

  /** ProposedTransaction: the transaction id (1) and an embedded, still unsigned SignedProposal (2). */
  function MarshalProposedTransaction(txId: Bytes, proposalBytes: Bytes): Bytes {
    Encode(ProposedTransactionFields(txId, proposalBytes))
  }

  /** The proposal bytes of the embedded SignedProposal; empty when there is none. */
  function UnmarshalProposedProposal(bs: Bytes): Option<Bytes> {
    var fs :- Parse(bs);
    if !AllParse(Occurrences(fs, 2)) then None
    else
      var (proposalBytes, _) :- ReadPair(Embedded(fs, 2));
      Some(proposalBytes)
  }

  lemma ProposedTransactionRoundTrip(txId: Bytes, proposalBytes: Bytes)
    ensures UnmarshalProposedProposal(MarshalProposedTransaction(txId, proposalBytes)) == Some(proposalBytes)
  {
    ParseInvertsEncode(ProposedTransactionFields(txId, proposalBytes));
    PairRoundTrip(proposalBytes, []);
    BytesThenMessage(txId, Pair(proposalBytes, []));
  }

  /******* Proposal response payload *******/

  /** The chaincode result held by a proposal response payload: extension (2), response (3), payload (3). */
  function UnmarshalResult(responsePayload: Bytes): Option<Bytes> {
    var fs :- Parse(responsePayload);
    var action :- Parse(LastBytes(fs, 2));
    if !AllParse(Occurrences(action, 3) + Occurrences(action, 4)) then None
    else
      var response :- Parse(Embedded(action, 3));
      Some(LastBytes(response, 3))
  }
}
