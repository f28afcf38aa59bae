// What a built proposal, and a transaction built on it, hold in full: read back through every nested message by
// literal field numbers.
module ProposalContents {
  import opened Prelude
  import opened Wire
  import opened FabricMessages
  import opened MessageFields
  import opened Proposals
  import opened TransactionPayloads

  datatype Contents = Contents(
    kind: nat, now: Timestamp, channel: Bytes, txId: Bytes, chaincode: Bytes,
    mspId: Bytes, certificate: Bytes, nonce: Bytes,
    invocation: InvocationView, transient: seq<(Bytes, Bytes)>)

  function ReadHeader(header: Bytes): Option<(seq<Field>, seq<Field>)> {
    var fs :- Parse(header);
    var channelHeader :- Parse(LastBytes(fs, 1));
    var signatureHeader :- Parse(LastBytes(fs, 2));
    Some((channelHeader, signatureHeader))
  }

  function ReadTimestamp(bs: Bytes): Option<Timestamp> {
    var fs :- Parse(bs);
    Some(Timestamp(LastVarint(fs, 1), LastVarint(fs, 2)))
  }

  function ReadChaincode(extension: Bytes): Option<Bytes> {
    var fs :- Parse(extension);
    var id :- Parse(LastBytes(fs, 2));
    Some(LastBytes(id, 2))
  }

  /** Proposal: header 1 and payload 2; header: channel header 1 and signature header 2; and so on inwards. */
  function ReadContents(bs: Bytes): Option<Contents> {
    var fs :- Parse(bs);
    var (channelHeader, signatureHeader) :- ReadHeader(LastBytes(fs, 1));
    var now :- ReadTimestamp(LastBytes(channelHeader, 3));
    var chaincode :- ReadChaincode(LastBytes(channelHeader, 7));
    var identity :- Parse(LastBytes(signatureHeader, 1));
    var (input, transient) :- ReadPayload(LastBytes(fs, 2));
    var invocation :- ReadInvocation(input);
    Some(Contents(
      LastVarint(channelHeader, 1), now, LastBytes(channelHeader, 4), LastBytes(channelHeader, 5), chaincode,
      LastBytes(identity, 1), LastBytes(identity, 2), LastBytes(signatureHeader, 2), invocation, transient))
  }

  /** What a builder was given, and what it draws: type 3 is an endorser transaction; the arguments start with the transaction's name. */
  function Given(inv: Invocation, chaincodeType: nat, c: Context): Contents {
    Contents(
      3, c.now, inv.channel, Hex(c.sha256(c.nonce + MarshalCreator(c.creator))), inv.chaincode,
      c.creator.mspId, c.creator.certificate, c.nonce,
      InvocationView(chaincodeType, inv.chaincode, [inv.transaction] + inv.args), inv.transient)
  }

  lemma HeaderReads(inv: Invocation, c: Context)
    ensures var read, given := ReadHeader(MarshalHeader(BuildHeader(inv, c))), Given(inv, 0, c);
            && read.Some?
            && var (channelHeader, signatureHeader) := read.value;
            && LastVarint(channelHeader, 1) == given.kind && ReadTimestamp(LastBytes(channelHeader, 3)) == Some(given.now)
            && LastBytes(channelHeader, 4) == given.channel && LastBytes(channelHeader, 5) == given.txId
            && ReadChaincode(LastBytes(channelHeader, 7)) == Some(given.chaincode)
            && LastBytes(signatureHeader, 1) == MarshalCreator(c.creator) && LastBytes(signatureHeader, 2) == given.nonce
  {
    hide Parse, Encode, Pair, MarshalChannelHeader, LastVarint, MarshalExtension;
    var h := ChannelHeader(ENDORSER_TRANSACTION, c.now, inv.channel, TransactionId(c), MarshalExtension(inv.chaincode));
    var header := BuildHeader(inv, c);
    ChannelHeaderHolds(h);
    ExtensionHolds(inv.chaincode);
    LastBytesIs(OptBytes(2, inv.chaincode), 2, inv.chaincode);
    PairHolds(header.channelHeader, header.signatureHeader);
    PairHolds(MarshalCreator(c.creator), c.nonce);
  }

  /** A built proposal holds exactly what it was built from: every argument, the transient map, the time and the identity included. */
  lemma BuiltContents(inv: Invocation, chaincodeType: nat, c: Context)
    ensures ReadContents(MarshalProposal(BuildProposal(inv, chaincodeType, c))) == Some(Given(inv, chaincodeType, c))
  {
    hide Parse, Pair, Hex, LastVarint, ReadHeader, ReadTimestamp, ReadChaincode, ReadPayload, ReadInvocation, MarshalProposalPayload, MarshalInvocation, BuildHeader;
    var proposal := BuildProposal(inv, chaincodeType, c);
    PairHolds(proposal.header, proposal.payload);
    HeaderReads(inv, c);
    PairHolds(c.creator.mspId, c.creator.certificate);
    PayloadReadsBack(BuildInput(inv, chaincodeType), inv.transient);
    InvocationReadsBack(chaincodeType, inv.chaincode, [inv.transaction] + inv.args);
  }

  /** The proposal in a gateway builder's bytes, by field numbers: signed proposal 2, proposal bytes 1; the id beside it is field 1. */
  lemma GatewayContents(inv: Invocation, chaincodeType: nat, c: Context)
    ensures var fs := Parse(BuildGatewayBytes(inv, chaincodeType, c));
            && fs.Some? && LastBytes(fs.value, 1) == Given(inv, chaincodeType, c).txId
            && Parse(LastBytes(fs.value, 2)).Some?
            && ReadContents(LastBytes(Parse(LastBytes(fs.value, 2)).value, 1)) == Some(Given(inv, chaincodeType, c))
  {
    hide Parse, ReadContents, MarshalProposal, BuildProposal, Hex;
    ProposedTransactionHolds(TransactionId(c), MarshalProposal(BuildProposal(inv, chaincodeType, c)));
    BuiltContents(inv, chaincodeType, c);
  }

  /******* The transaction built on it *******/

  /** Payload: data 2; transaction: actions 1; action: payload 2; in it proposal payload 1. */
  function ReadTransaction(bs: Bytes): Option<(InvocationView, seq<(Bytes, Bytes)>)> {
    var payload :- Parse(bs);
    var transaction :- Parse(LastBytes(payload, 2));
    var action :- Parse(LastBytes(transaction, 1));
    var actionPayload :- Parse(LastBytes(action, 2));
    var (input, transient) :- ReadPayload(LastBytes(actionPayload, 1));
    var invocation :- ReadInvocation(input);
    Some((invocation, transient))
  }

  lemma TransactionReads(header: Header, input: Bytes, slots: seq<Slot>)
    requires slots != [] && AllEndorsed(slots)
    ensures ReadTransaction(MarshalPayload(PayloadOf(header, input, slots)))
         == match ReadInvocation(input) case None => None case Some(invocation) => Some((invocation, []))
  {
    hide Parse, Encode, Pair, ReadInvocation, ReadPayload, MarshalProposalPayload;
    var action := ActionOf(input, slots);
    var wrapped := TransactionAction(header.signatureHeader, MarshalActionPayload(action));
    PayloadHolds(wrapped, PayloadOf(header, input, slots));
    LastOccurrence(wrapped);
    PairHolds(wrapped.header, wrapped.payload);
    ActionPayloadHolds(action);
    PayloadReadsBack(input, []);
  }

  lemma LastOccurrence(action: TransactionAction)
    ensures var fs := Parse(MarshalTransaction(action)); fs.Some? && LastBytes(fs.value, 1) == MarshalTransactionAction(action)
  {
    hide Pair;
    OneDelimited(1, MarshalTransactionAction(action));
  }

  /** A transaction made of agreed responses to a built proposal carries that proposal's invocation, arguments and all, and no transient data. */
  lemma TransactionContents(inv: Invocation, chaincodeType: nat, c: Context, slots: seq<Slot>)
    requires Agreed(slots)
    ensures var bytes := BuildPeerTransactionPayload(BuildProposal(inv, chaincodeType, c), slots);
            bytes.Ok? && ReadTransaction(bytes.value) == Some((InvocationView(chaincodeType, inv.chaincode, [inv.transaction] + inv.args), []))
  {
    hide Parse, Encode, Pair, ReadTransaction, MarshalChannelHeader, MarshalProposalPayload, MarshalInvocation;
    var proposal, header := BuildProposal(inv, chaincodeType, c), BuildHeader(inv, c);
    ValidateExactly(slots);
    PairRoundTrip(header.channelHeader, header.signatureHeader);
    ProposalPayloadRoundTrip(BuildInput(inv, chaincodeType), inv.transient);
    TransactionReads(header, BuildInput(inv, chaincodeType), slots);
    InvocationReadsBack(chaincodeType, inv.chaincode, [inv.transaction] + inv.args);
  }

  /** The direct builders ask for chaincode of type 1. */
  lemma DirectContents(inv: Invocation, c: Context)
    ensures var contents := ReadContents(MarshalProposal(BuildProposal(inv, GOLANG_CHAINCODE, c)));
            contents.Some? && contents.value.invocation.kind == 1
  {
    hide ReadContents, BuildProposal, MarshalProposal;
    BuiltContents(inv, GOLANG_CHAINCODE, c);
  }
}
