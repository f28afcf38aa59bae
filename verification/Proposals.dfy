// Building unsigned proposals, and recognising and reading them back from bytes:
// raw Proposal messages (direct path) and ProposedTransaction wrappers (gateway path).
module Proposals {
  import opened Prelude
  import opened Wire
  import opened FabricMessages

  // The chaincode type of the direct builders. The gateway builders write others, so it is a parameter below.
  const GOLANG_CHAINCODE: nat := 1

  datatype Invocation = Invocation(
    channel: Bytes, chaincode: Bytes, transaction: Bytes, args: seq<Bytes>, transient: seq<(Bytes, Bytes)>)

  /** Everything a builder draws from its environment: creator identity, random nonce, clock and SHA-256. */
  datatype Context = Context(creator: Creator, nonce: Bytes, now: Timestamp, sha256: Bytes -> Bytes)

  function HexDigit(n: nat): Byte
    requires n < 16
  {
    if n < 10 then 0x30 + n else 0x57 + n
  }

  function Hex(bs: Bytes): (text: Bytes)
    ensures |text| == 2 * |bs|
    ensures IsHexText(text)
  {
    if bs == [] then [] else [HexDigit(bs[0] / 16), HexDigit(bs[0] % 16)] + Hex(bs[1..])
  }

  /** Two lower-case digits a byte, the high one first. */
  lemma HexTable()
    ensures Hex([0x01, 0x23, 0x45, 0x67]) == [0x30, 0x31, 0x32, 0x33, 0x34, 0x35, 0x36, 0x37]
    ensures Hex([0x89, 0xAB, 0xCD, 0xEF]) == [0x38, 0x39, 0x61, 0x62, 0x63, 0x64, 0x65, 0x66]
  {
    assert Hex([0x67]) == [0x36, 0x37] && Hex([0x45, 0x67]) == [0x34, 0x35, 0x36, 0x37];
    assert Hex([0xEF]) == [0x65, 0x66] && Hex([0xCD, 0xEF]) == [0x63, 0x64, 0x65, 0x66];
  }

  lemma {:induction false} HexAppends(a: Bytes, b: Bytes)
    ensures Hex(a + b) == Hex(a) + Hex(b)
  {
    if a == [] {
      assert a + b == b;
    } else {
      HexAppends(a[1..], b);
      assert (a + b)[1..] == a[1..] + b;
    }
  }

  function TransactionId(c: Context): Bytes {
    Hex(c.sha256(c.nonce + MarshalCreator(c.creator)))
  }

  function BuildHeader(inv: Invocation, c: Context): Header {
    Header(
      MarshalChannelHeader(ChannelHeader(
        ENDORSER_TRANSACTION, c.now, inv.channel, TransactionId(c), MarshalExtension(inv.chaincode))),
      MarshalSignatureHeader(SignatureHeader(MarshalCreator(c.creator), c.nonce)))
  }

  function BuildInput(inv: Invocation, chaincodeType: nat): Bytes {
    MarshalInvocation(chaincodeType, inv.chaincode, [inv.transaction] + inv.args)
  }

  function BuildProposal(inv: Invocation, chaincodeType: nat, c: Context): Proposal {
    Proposal(
      MarshalHeader(BuildHeader(inv, c)),
      MarshalProposalPayload(BuildInput(inv, chaincodeType), inv.transient))
  }

  /** The TypeScript gateway builder: the proposal wrapped in an unsigned ProposedTransaction. */
  function BuildGatewayBytes(inv: Invocation, chaincodeType: nat, c: Context): Bytes {
    MarshalProposedTransaction(TransactionId(c), MarshalProposal(BuildProposal(inv, chaincodeType, c)))
  }

  /******* Reading proposals *******/

  datatype ProposalView = ProposalView(channel: Bytes, chaincode: Bytes, txId: Bytes)

  function ParsePeerProposal(bs: Bytes): Option<ProposalView> {
    var proposal :- UnmarshalProposal(bs);
    var header :- UnmarshalHeader(proposal.header);
    var channelHeader :- UnmarshalChannelHeader(header.channelHeader);
    var chaincode :- UnmarshalExtension(channelHeader.extension);
    Some(ProposalView(channelHeader.channelId, chaincode, channelHeader.txId))
  }

  /** Parsing the marshalled proposal gives the channel and chaincode it was built with, and hex(SHA-256(nonce ++ creator)). */
  lemma ParseInvertsBuild(inv: Invocation, chaincodeType: nat, c: Context)
    ensures ParsePeerProposal(MarshalProposal(BuildProposal(inv, chaincodeType, c)))
         == Some(ProposalView(inv.channel, inv.chaincode, Hex(c.sha256(c.nonce + MarshalCreator(c.creator)))))
  {
    var proposal, header := BuildProposal(inv, chaincodeType, c), BuildHeader(inv, c);
    PairRoundTrip(proposal.header, proposal.payload);
    PairRoundTrip(header.channelHeader, header.signatureHeader);
    ChannelHeaderRoundTrip(ChannelHeader(
      ENDORSER_TRANSACTION, c.now, inv.channel, TransactionId(c), MarshalExtension(inv.chaincode)));
    ExtensionRoundTrip(inv.chaincode);
  }

  predicate IsFabricProposalBytes(bs: Bytes) {
    match UnmarshalProposal(bs)
    case None => false
    case Some(proposal) =>
      if proposal.header == [] || proposal.payload == [] then false
      else
        match UnmarshalHeader(proposal.header)
        case None => false
        case Some(header) => header.channelHeader != [] && header.signatureHeader != []
  }

  /** Bytes pass for a proposal exactly when fields 1 and 2 are there and fields 1 and 2 of the first one are, too. */
  lemma IsFabricExactly(bs: Bytes)
    ensures IsFabricProposalBytes(bs)
       <==> && Parse(bs).Some? && LastBytes(Parse(bs).value, 1) != [] && LastBytes(Parse(bs).value, 2) != []
            && var header := Parse(LastBytes(Parse(bs).value, 1));
            && header.Some? && LastBytes(header.value, 1) != [] && LastBytes(header.value, 2) != []
  {
  }

  /** Any bytes unwrap to themselves or to the proposal bytes inside, and to those exactly when only they pass for a proposal. */
  lemma UnwrapExactly(bs: Bytes)
    ensures var inner := UnmarshalProposedProposal(bs);
            UnwrapProposalBytes(bs) ==
              if !IsFabricProposalBytes(bs) && inner.Some? && IsFabricProposalBytes(inner.value) then inner.value else bs
  {
  }

  /** The TypeScript discriminator between raw and wrapped proposal bytes. */
  function UnwrapProposalBytes(bs: Bytes): Bytes {
    if IsFabricProposalBytes(bs) then bs
    else
      match UnmarshalProposedProposal(bs)
      case None => bs
      case Some(candidate) => if IsFabricProposalBytes(candidate) then candidate else bs
  }

  function CreatorIdentity(bs: Bytes): Option<Bytes> {
    var proposal :- UnmarshalProposal(UnwrapProposalBytes(bs));
    var header :- UnmarshalHeader(proposal.header);
    var signatureHeader :- UnmarshalSignatureHeader(header.signatureHeader);
    Some(signatureHeader.creator)
  }

  /** CreatorMSPID and CreatorCertificate read the two halves of this value. */
  function ReadCreator(bs: Bytes): Option<Creator> {
    var identity :- CreatorIdentity(bs);
    UnmarshalCreator(identity)
  }

  lemma BuiltProposalIsFabric(inv: Invocation, chaincodeType: nat, c: Context)
    ensures IsFabricProposalBytes(MarshalProposal(BuildProposal(inv, chaincodeType, c)))
       <==> (c.nonce != [] || c.creator != Creator([], []))
  {
    var proposal, header := BuildProposal(inv, chaincodeType, c), BuildHeader(inv, c);
    PairRoundTrip(proposal.header, proposal.payload);
    PairRoundTrip(header.channelHeader, header.signatureHeader);
  }

  /** An invocation spec is a message whose only field is number 1, so it has no proposal payload. */
  lemma InvocationAsPair(chaincodeType: nat, chaincode: Bytes, args: seq<Bytes>)
    ensures var pair := ReadPair(MarshalInvocation(chaincodeType, chaincode, args)); pair.Some? && pair.value.1 == []
  {
    var spec := Encode(
      OptVarint(1, chaincodeType) + [Delimited(2, Encode(OptBytes(2, chaincode))), Delimited(3, Encode(Repeat(1, args)))]);
    ParseInvertsEncode([Delimited(1, spec)]);
    LastBytesIs([Delimited(1, spec)], 2, []);
  }

  lemma InvocationIsNotFabric(chaincodeType: nat, chaincode: Bytes, args: seq<Bytes>)
    ensures !IsFabricProposalBytes(MarshalInvocation(chaincodeType, chaincode, args))
  {
    InvocationAsPair(chaincodeType, chaincode, args);
  }

  /** What a raw built proposal looks like when it is read as a ProposedTransaction: its invocation input. */
  lemma RawReadAsWrapped(inv: Invocation, chaincodeType: nat, c: Context)
    ensures UnmarshalProposedProposal(MarshalProposal(BuildProposal(inv, chaincodeType, c)))
         == Some(BuildInput(inv, chaincodeType))
  {
    var proposal := BuildProposal(inv, chaincodeType, c);
    ParseInvertsEncode(OptBytes(1, proposal.header) + OptBytes(2, proposal.payload));
    BytesThenMessage(proposal.header, proposal.payload);
    ProposalPayloadAsPair(BuildInput(inv, chaincodeType), inv.transient);
  }

  lemma ProposalPayloadAsPair(input: Bytes, transient: seq<(Bytes, Bytes)>)
    ensures ReadPair(MarshalProposalPayload(input, transient)).Some?
    ensures ReadPair(MarshalProposalPayload(input, transient)).value.0 == input
  {
    ParseInvertsEncode(ProposalPayloadFields(input, transient));
    BytesThenRepeated(input, TransientEntries(transient));
  }

  /** Raw proposals unwrap to themselves, for every invocation, creator and nonce. */
  lemma UnwrapRaw(inv: Invocation, chaincodeType: nat, c: Context)
    ensures var bs := MarshalProposal(BuildProposal(inv, chaincodeType, c)); UnwrapProposalBytes(bs) == bs
  {
    RawReadAsWrapped(inv, chaincodeType, c);
    InvocationIsNotFabric(chaincodeType, inv.chaincode, [inv.transaction] + inv.args);
  }

  /** Hexadecimal text has no field numbered 1 or 2, so it never reads as a header with both parts. */
  lemma HexTextIsNotAHeader(text: Bytes)
    requires IsHexText(text)
    ensures UnmarshalHeader(text).Some? ==> UnmarshalHeader(text).value == Header([], [])
  {
    match Parse(text)
    case None =>
    case Some(fs) =>
      HexTextFields(text, fs);
      LastBytesIs(fs, 1, []);
      LastBytesIs(fs, 2, []);
  }

  /** A wrapped proposal read as a Proposal has the transaction id in place of its header. */
  lemma WrappedIsNotFabric(txId: Bytes, proposalBytes: Bytes)
    requires IsHexText(txId)
    ensures !IsFabricProposalBytes(MarshalProposedTransaction(txId, proposalBytes))
  {
    ParseInvertsEncode(ProposedTransactionFields(txId, proposalBytes));
    BytesThenMessage(txId, Pair(proposalBytes, []));
    HexTextIsNotAHeader(txId);
  }

  /** Wrapped proposals unwrap to exactly the inner proposal bytes, given a nonce or a non-empty identity. */
  lemma UnwrapWrapped(inv: Invocation, chaincodeType: nat, c: Context)
    ensures UnwrapProposalBytes(BuildGatewayBytes(inv, chaincodeType, c)) == MarshalProposal(BuildProposal(inv, chaincodeType, c))
       <==> (c.nonce != [] || c.creator != Creator([], []))
  {
    var inner := MarshalProposal(BuildProposal(inv, chaincodeType, c));
    RawReadAsWrapped(inv, chaincodeType, c);
    InputIsNotTheProposal(inv, chaincodeType, c);
    UnwrapNested(TransactionId(c), inner);
    BuiltProposalIsFabric(inv, chaincodeType, c);
  }

  lemma UnwrapNested(txId: Bytes, inner: Bytes)
    requires IsHexText(txId)
    requires UnmarshalProposedProposal(inner) != Some(inner)
    ensures UnwrapProposalBytes(MarshalProposedTransaction(txId, inner)) == inner <==> IsFabricProposalBytes(inner)
  {
    WrappedIsNotFabric(txId, inner);
    ProposedTransactionRoundTrip(txId, inner);
  }

  lemma ReadCreatorOf(inv: Invocation, chaincodeType: nat, c: Context, bs: Bytes)
    requires UnwrapProposalBytes(bs) == MarshalProposal(BuildProposal(inv, chaincodeType, c))
    ensures ReadCreator(bs) == Some(c.creator)
  {
    var proposal, header := BuildProposal(inv, chaincodeType, c), BuildHeader(inv, c);
    PairRoundTrip(proposal.header, proposal.payload);
    PairRoundTrip(header.channelHeader, header.signatureHeader);
    PairRoundTrip(MarshalCreator(c.creator), c.nonce);
    PairRoundTrip(c.creator.mspId, c.creator.certificate);
  }

  /** Creator MSP id and certificate read back as supplied from raw bytes, and from wrapped bytes with a nonce or a non-empty identity. */
  lemma CreatorReadsBack(inv: Invocation, chaincodeType: nat, c: Context)
    ensures ReadCreator(MarshalProposal(BuildProposal(inv, chaincodeType, c))) == Some(c.creator)
    ensures c.nonce != [] || c.creator != Creator([], []) ==>
              ReadCreator(BuildGatewayBytes(inv, chaincodeType, c)) == Some(c.creator)
  {
    UnwrapRaw(inv, chaincodeType, c);
    ReadCreatorOf(inv, chaincodeType, c, MarshalProposal(BuildProposal(inv, chaincodeType, c)));
    if c.nonce != [] || c.creator != Creator([], []) {
      UnwrapWrapped(inv, chaincodeType, c);
      ReadCreatorOf(inv, chaincodeType, c, BuildGatewayBytes(inv, chaincodeType, c));
    }
  }

  /** The invocation has no field 2, the proposal has one, so their bytes differ. */
  lemma InputIsNotTheProposal(inv: Invocation, chaincodeType: nat, c: Context)
    ensures BuildInput(inv, chaincodeType) != MarshalProposal(BuildProposal(inv, chaincodeType, c))
  {
    var proposal := BuildProposal(inv, chaincodeType, c);
    PairRoundTrip(proposal.header, proposal.payload);
    InvocationAsPair(chaincodeType, inv.chaincode, [inv.transaction] + inv.args);
  }
}
