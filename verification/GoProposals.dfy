// How the Go bridge tells raw from wrapped proposal bytes, and the creator it reads through that. Go accepts any
// bytes that parse as a ProposedTransaction with proposal bytes inside; its text field must be valid UTF-8.
module GoProposals {
  import opened Prelude
  import opened Utf8
  import opened Wire
  import opened FabricMessages
  import opened Proposals

  predicate AllText(texts: seq<Bytes>) {
    forall text | text in texts :: ValidUtf8(text)
  }

  function UnwrapProposalBytes(bs: Bytes): Bytes {
    match Parse(bs)
    case None => bs
    case Some(fs) =>
      if !AllText(Occurrences(fs, 1)) then bs
      else
        match UnmarshalProposedProposal(bs)
        case Some(candidate) => if candidate == [] then bs else candidate
        case None => bs
  }

  /** Go takes the proposal bytes inside, of any kind, whenever there are some and the id beside them is text. */
  lemma UnwrapExactly(bs: Bytes)
    ensures var fs, inner := Parse(bs), UnmarshalProposedProposal(bs);
            UnwrapProposalBytes(bs) ==
              if fs.Some? && AllText(Occurrences(fs.value, 1)) && inner.Some? && inner.value != [] then inner.value
              else bs
  {
    hide AllText, Parse, Occurrences, UnmarshalProposedProposal;
  }

  function CreatorIdentity(bs: Bytes): Option<Bytes> {
    var proposal :- UnmarshalProposal(UnwrapProposalBytes(bs));
    var header :- UnmarshalHeader(proposal.header);
    var signatureHeader :- UnmarshalSignatureHeader(header.signatureHeader);
    Some(signatureHeader.creator)
  }

  /** CreatorMSPID and CreatorCertificate read the two halves of this value; the MSP id is a text field. */
  function ReadCreator(bs: Bytes): Option<Creator> {
    var identity :- CreatorIdentity(bs);
    var fs :- Parse(identity);
    if AllText(Occurrences(fs, 1)) then UnmarshalCreator(identity) else None
  }

  /******* Wrapped proposals *******/

  lemma HexIsValid(text: Bytes)
    requires IsHexText(text)
    ensures ValidUtf8(text)
  {
    AsciiIsValid(text);
  }

  /** A wrapped proposal always unwraps to the inner bytes. */
  lemma UnwrapWrapped(inv: Invocation, chaincodeType: nat, c: Context)
    ensures UnwrapProposalBytes(BuildGatewayBytes(inv, chaincodeType, c)) == MarshalProposal(BuildProposal(inv, chaincodeType, c))
  {
    HexIsValid(TransactionId(c));
    UnwrapNested(TransactionId(c), MarshalProposal(BuildProposal(inv, chaincodeType, c)));
  }

  lemma UnwrapNested(txId: Bytes, inner: Bytes)
    requires ValidUtf8(txId) && inner != []
    ensures UnwrapProposalBytes(MarshalProposedTransaction(txId, inner)) == inner
  {
    hide ValidUtf8;
    var wrapper := [Delimited(2, Pair(inner, []))];
    ProposedTransactionRoundTrip(txId, inner);
    ParseInvertsEncode(OptBytes(1, txId) + wrapper);
    OccurrencesAppend(OptBytes(1, txId), wrapper, 1);
    assert Occurrences(OptBytes(1, txId) + wrapper, 1) == if txId == [] then [] else [txId];
  }

  /******* Raw proposals *******/

  /** A raw proposal unwraps to its inner chaincode input exactly when its header bytes are valid UTF-8, and to itself otherwise. */
  lemma UnwrapRaw(inv: Invocation, chaincodeType: nat, c: Context)
    ensures var proposal := BuildProposal(inv, chaincodeType, c);
            var bs := MarshalProposal(proposal);
            && UnwrapProposalBytes(bs) == (if ValidUtf8(proposal.header) then BuildInput(inv, chaincodeType) else bs)
            && (UnwrapProposalBytes(bs) == bs <==> !ValidUtf8(proposal.header))
  {
    hide ValidUtf8;
    var proposal := BuildProposal(inv, chaincodeType, c);
    RawReadAsWrapped(inv, chaincodeType, c);
    UnwrapPair(proposal.header, proposal.payload, BuildInput(inv, chaincodeType));
    InputIsNotTheProposal(inv, chaincodeType, c);
  }

  lemma UnwrapPair(first: Bytes, second: Bytes, candidate: Bytes)
    requires first != [] && candidate != [] && UnmarshalProposedProposal(Pair(first, second)) == Some(candidate)
    ensures UnwrapProposalBytes(Pair(first, second)) == if ValidUtf8(first) then candidate else Pair(first, second)
  {
    hide ValidUtf8;
    ParseInvertsEncode(OptBytes(1, first) + OptBytes(2, second));
    OccurrencesAppend(OptBytes(1, first), OptBytes(2, second), 1);
    NoOccurrences(OptBytes(2, second), 1);
    assert Occurrences(OptBytes(1, first), 1) == [first];
  }

  /******* Which headers are valid UTF-8 *******/

  /** The bytes of a length-delimited field with a small number. */
  lemma FieldBytes(num: nat, data: Bytes)
    requires 0 < num < 16
    ensures EncodeField(Delimited(num, data)) == [num * 8 + 2] + EncodeVarint(|data|) + data
  {
  }

  /** A two-byte length is a byte beyond ASCII between two that are not. */
  lemma TwoByteLength(n: nat)
    requires 128 <= n < 16384
    ensures EncodeVarint(n) == [n % 128 + 128, n / 128]
  {
  }

  lemma LongField(before: Bytes, num: nat, data: Bytes, after: Bytes)
    requires 0 < num < 16 && 128 <= |data| < 16384
    ensures !ValidUtf8(before + EncodeField(Delimited(num, data)) + after)
  {
    var s, k := before + EncodeField(Delimited(num, data)) + after, |before|;
    FieldBytes(num, data);
    TwoByteLength(|data|);
    assert s[k] == num * 8 + 2 && s[k + 1] == |data| % 128 + 128 && s[k + 2] == |data| / 128;
    if ValidUtf8(s) {
      NeverAlone(s, k + 1);
    }
  }

  lemma HeaderBytes(h: Header)
    requires h.channelHeader != [] && h.signatureHeader != []
    ensures MarshalHeader(h) == EncodeField(Delimited(1, h.channelHeader)) + EncodeField(Delimited(2, h.signatureHeader))
  {
    var first, second := Delimited(1, h.channelHeader), Delimited(2, h.signatureHeader);
    var fs := OptBytes(1, h.channelHeader) + OptBytes(2, h.signatureHeader);
    assert fs == [first, second] && fs[1..] == [second] && [second][1..] == [];
    assert Encode([second]) == EncodeField(second) + [];
  }

  /** A header is never valid UTF-8 when one of its parts takes a two-byte length. */
  lemma LongHeader(h: Header)
    requires h.channelHeader != [] && h.signatureHeader != []
    requires 128 <= |h.channelHeader| < 16384 || 128 <= |h.signatureHeader| < 16384
    ensures !ValidUtf8(MarshalHeader(h))
  {
    hide ValidUtf8, EncodeField;
    var first, second := EncodeField(Delimited(1, h.channelHeader)), EncodeField(Delimited(2, h.signatureHeader));
    HeaderBytes(h);
    assert first + second == [] + first + second == first + second + [];
    if 128 <= |h.channelHeader| < 16384 {
      LongField([], 1, h.channelHeader, second);
    } else {
      LongField(first, 2, h.signatureHeader, []);
    }
  }

  /** A header whose parts are both short is valid UTF-8 exactly when both parts are. */
  lemma ShortHeader(h: Header)
    requires 0 < |h.channelHeader| < 128 && 0 < |h.signatureHeader| < 128
    ensures ValidUtf8(MarshalHeader(h)) <==> ValidUtf8(h.channelHeader) && ValidUtf8(h.signatureHeader)
  {
    HeaderBytes(h);
    ShortField(1, h.channelHeader, EncodeField(Delimited(2, h.signatureHeader)));
    ShortField(2, h.signatureHeader, []);
    var second := EncodeField(Delimited(2, h.signatureHeader));
    assert second + [] == second;
  }

  /** A short field starts with two ASCII bytes, so its data and what follows stand for themselves. */
  lemma ShortField(num: nat, data: Bytes, after: Bytes)
    requires 0 < num < 16 && |data| < 128
    requires after == [] || after[0] < 128
    ensures ValidUtf8(EncodeField(Delimited(num, data)) + after) <==> ValidUtf8(data) && ValidUtf8(after)
  {
    hide ValidUtf8;
    FieldBytes(num, data);
    var tag, length := num * 8 + 2, |data|;
    assert EncodeVarint(length) == [length];
    assert EncodeField(Delimited(num, data)) + after == [tag] + ([length] + (data + after));
    ValidAfter(tag, [length] + (data + after));
    ValidAfter(length, data + after);
    AsciiSplits(data, after);
  }

  lemma AsciiSplits(data: Bytes, after: Bytes)
    requires after == [] || after[0] < 128
    ensures ValidUtf8(data + after) <==> ValidUtf8(data) && ValidUtf8(after)
  {
    if after == [] {
      assert data + after == data;
    } else {
      hide ValidUtf8;
      ValidSplits(data, after[0], after[1..]);
      ValidAfter(after[0], after[1..]);
      assert data + after == data + [after[0]] + after[1..];
      assert after == [after[0]] + after[1..];
    }
  }

  lemma {:induction false} VarintIsShort(n: nat)
    requires n < 16384
    ensures |EncodeVarint(n)| <= 2
  {
  }

  lemma FieldLength(num: nat, data: Bytes)
    requires 0 < num < 16 && |data| < 16384
    ensures |data| < |EncodeField(Delimited(num, data))| <= |data| + 3
  {
    FieldBytes(num, data);
    VarintIsShort(|data|);
  }

  lemma PairLength(first: Bytes, second: Bytes)
    requires |first| < 16384 && |second| < 16384
    ensures |first| + |second| <= |Pair(first, second)| <= |first| + |second| + 6
  {
    var fs := OptBytes(1, first) + OptBytes(2, second);
    FieldLength(1, first);
    FieldLength(2, second);
    if first == [] {
      assert fs == OptBytes(2, second);
    }
    assert fs != [] ==> Encode(fs) == EncodeField(fs[0]) + Encode(fs[1..]);
    assert first != [] ==> fs[1..] == OptBytes(2, second);
    assert Encode(OptBytes(2, second)) == if second == [] then [] else EncodeField(Delimited(2, second));
  }

  /** With an ordinary certificate the Go unwrapping leaves raw proposals alone. */
  lemma UnwrapOrdinary(inv: Invocation, chaincodeType: nat, c: Context)
    requires |c.creator.certificate| >= 128
    requires |c.creator.mspId| + |c.creator.certificate| + |c.nonce| <= 16000
    ensures var bs := MarshalProposal(BuildProposal(inv, chaincodeType, c)); UnwrapProposalBytes(bs) == bs
  {
    hide ValidUtf8, Pair;
    var creator := MarshalCreator(c.creator);
    PairLength(c.creator.mspId, c.creator.certificate);
    PairLength(creator, c.nonce);
    LongHeader(BuildHeader(inv, c));
    UnwrapRaw(inv, chaincodeType, c);
  }

  /******* The creator *******/

  /** The chaincode input read as a proposal: its spec takes the place of the header, and there is no creator in it. */
  lemma InputHasNoCreator(inv: Invocation, chaincodeType: nat)
    ensures var proposal := UnmarshalProposal(BuildInput(inv, chaincodeType));
            && proposal.Some?
            && var header := UnmarshalHeader(proposal.value.header);
            && header.Some?
            && UnmarshalSignatureHeader(header.value.signatureHeader) == Some(SignatureHeader([], inv.chaincode))
  {
    var name, args := OptBytes(2, inv.chaincode), Encode(Repeat(1, [inv.transaction] + inv.args));
    var fs := OptVarint(1, chaincodeType) + [Delimited(2, Encode(name)), Delimited(3, args)];
    ParseInvertsEncode(name);
    LastBytesIs(name, 1, []);
    LastBytesIs(name, 2, inv.chaincode);
    ParseInvertsEncode(fs);
    SpecFields(chaincodeType, Encode(name), args);
    ParseInvertsEncode([Delimited(1, Encode(fs))]);
    LastBytesIs([Delimited(1, Encode(fs))], 1, Encode(fs));
  }

  lemma SpecFields(chaincodeType: nat, name: Bytes, args: Bytes)
    ensures LastBytes(OptVarint(1, chaincodeType) + [Delimited(2, name), Delimited(3, args)], 2) == name
  {
    LastBytesIs(OptVarint(1, chaincodeType) + [Delimited(2, name), Delimited(3, args)], 2, name);
  }

  lemma CreatorOf(inv: Invocation, chaincodeType: nat, c: Context, bs: Bytes)
    requires UnwrapProposalBytes(bs) == MarshalProposal(BuildProposal(inv, chaincodeType, c))
    ensures CreatorIdentity(bs) == Some(MarshalCreator(c.creator))
  {
    hide UnwrapProposalBytes;
    var proposal, header := BuildProposal(inv, chaincodeType, c), BuildHeader(inv, c);
    PairRoundTrip(proposal.header, proposal.payload);
    PairRoundTrip(header.channelHeader, header.signatureHeader);
    PairRoundTrip(MarshalCreator(c.creator), c.nonce);
  }

  lemma IdentityReads(creator: Creator, bs: Bytes)
    requires CreatorIdentity(bs) == Some(MarshalCreator(creator))
    ensures ReadCreator(bs) == if ValidUtf8(creator.mspId) then Some(creator) else None
  {
    hide CreatorIdentity;
    var first, second := OptBytes(1, creator.mspId), OptBytes(2, creator.certificate);
    ParseInvertsEncode(first + second);
    PairRoundTrip(creator.mspId, creator.certificate);
    OccurrencesAppend(first, second, 1);
    NoOccurrences(second, 1);
    assert Occurrences(first, 1) == if creator.mspId == [] then [] else [creator.mspId];
    assert ValidUtf8([]);
  }

  /**
   * The creator that Go reads: from wrapped bytes always the one supplied, from raw bytes the one supplied unless the
   * header bytes are valid UTF-8, when it is empty. An MSP id that is not valid UTF-8 is refused.
   */
  lemma CreatorReadsExactly(inv: Invocation, chaincodeType: nat, c: Context)
    ensures var proposal := BuildProposal(inv, chaincodeType, c);
            var supplied := if ValidUtf8(c.creator.mspId) then Some(c.creator) else None;
            && ReadCreator(MarshalProposal(proposal)) == (if ValidUtf8(proposal.header) then Some(Creator([], [])) else supplied)
            && ReadCreator(BuildGatewayBytes(inv, chaincodeType, c)) == supplied
  {
    hide ValidUtf8, CreatorIdentity, ReadCreator, UnwrapProposalBytes;
    var proposal := BuildProposal(inv, chaincodeType, c);
    UnwrapWrapped(inv, chaincodeType, c);
    CreatorOf(inv, chaincodeType, c, BuildGatewayBytes(inv, chaincodeType, c));
    IdentityReads(c.creator, BuildGatewayBytes(inv, chaincodeType, c));
    UnwrapRaw(inv, chaincodeType, c);
    if ValidUtf8(proposal.header) {
      NoCreator(inv, chaincodeType, MarshalProposal(proposal));
    } else {
      CreatorOf(inv, chaincodeType, c, MarshalProposal(proposal));
      IdentityReads(c.creator, MarshalProposal(proposal));
    }
  }

  lemma NoCreator(inv: Invocation, chaincodeType: nat, bs: Bytes)
    requires UnwrapProposalBytes(bs) == BuildInput(inv, chaincodeType)
    ensures ReadCreator(bs) == Some(Creator([], []))
  {
    hide UnwrapProposalBytes, BuildInput;
    InputHasNoCreator(inv, chaincodeType);
    assert MarshalCreator(Creator([], [])) == [];
    IdentityReads(Creator([], []), bs);
    assert ValidUtf8([]);
  }

  /******* A header that is valid UTF-8 *******/

  /** A field with a small number that adds two ASCII bytes, or one, to text that is valid on its own. */
  predicate IsText(f: Field): (r: bool)
    ensures r ==> Emittable(f)
  {
    && 0 < f.num < 16
    && ((f.Delimited? && |f.data| < 128 && ValidUtf8(f.data)) || (f.Varint? && ValidUtf8(EncodeVarint(f.value))))
  }

  function Length(f: Field): nat {
    if f.Delimited? then 2 + |f.data| else if f.Varint? then 1 + |EncodeVarint(f.value)| else 0
  }

  function TotalLength(fs: seq<Field>): nat {
    if fs == [] then 0 else Length(fs[0]) + TotalLength(fs[1..])
  }

  lemma TextField(f: Field, after: Bytes)
    requires IsText(f) && (after == [] || after[0] < 128)
    ensures ValidUtf8(EncodeField(f) + after) <==> ValidUtf8(after)
    ensures EncodeField(f)[0] < 128 && |EncodeField(f)| == Length(f)
  {
    hide ValidUtf8;
    if f.Delimited? {
      ShortField(f.num, f.data, after);
      FieldBytes(f.num, f.data);
    } else {
      var value := EncodeVarint(f.value);
      assert EncodeField(f) + after == [f.num * 8] + (value + after);
      ValidAfter(f.num * 8, value + after);
      AsciiSplits(value, after);
    }
  }

  /** A message of such fields is valid text. */
  lemma {:induction false} TextMessage(fs: seq<Field>)
    requires forall f | f in fs :: Emittable(f) && IsText(f)
    ensures ValidUtf8(Encode(fs)) && |Encode(fs)| == TotalLength(fs)
    ensures fs != [] ==> Encode(fs)[0] < 128
  {
    assert ValidUtf8([]);
    hide ValidUtf8, Length, EncodeField;
    if fs != [] {
      assert fs[0] in fs && forall f | f in fs[1..] :: f in fs;
      TextMessage(fs[1..]);
      TextField(fs[0], Encode(fs[1..]));
    }
  }

  function Copies(b: Byte, n: nat): (bs: Bytes)
    ensures |bs| == n && forall x | x in bs :: x == b
  {
    if n == 0 then [] else [b] + Copies(b, n - 1)
  }

  /** One-letter names, and a creator with a one-byte certificate. */
  function PlainInvocation(): Invocation {
    Invocation([0x63], [0x6B], [0x74], [], [])
  }

  /** A 24-byte nonce, and a second in November 2023 whose encoding happens to be text. */
  function PlainContext(sha256: Bytes -> Bytes): Context {
    Context(Creator([0x4D], [0x78]), Copies(0x61, 24), Timestamp(1699774530, 0), sha256)
  }

  lemma SecondsAreText()
    ensures EncodeVarint(1699774530) == [0xC2, 0x80, 0xC2, 0xAA, 0x06] && ValidUtf8(EncodeVarint(1699774530))
  {
    assert EncodeVarint(6) == [0x06] && EncodeVarint(810) == [0xAA, 0x06] && EncodeVarint(103746) == [0xC2, 0xAA, 0x06];
    assert EncodeVarint(13279488) == [0x80, 0xC2, 0xAA, 0x06];
    var s: Bytes := [0xC2, 0x80, 0xC2, 0xAA, 0x06];
    assert s[2..] == [0xC2, 0xAA, 0x06] && s[2..][2..] == [0x06];
    assert ValidUtf8([0x06]) && ValidUtf8([0xC2, 0xAA, 0x06]);
  }

  lemma OneField(f: Field)
    requires IsText(f)
    ensures ValidUtf8(Encode([f])) && |Encode([f])| == Length(f)
  {
    hide IsText, Length, ValidUtf8;
    TextMessage([f]);
    assert [f][1..] == [];
    assert TotalLength([f]) == Length(f) + TotalLength([]);
  }

  lemma TwoFields(f: Field, g: Field)
    requires IsText(f) && IsText(g)
    ensures ValidUtf8(Encode([f, g])) && |Encode([f, g])| == Length(f) + Length(g)
  {
    hide IsText, Length, ValidUtf8;
    TextMessage([f, g]);
    assert [f, g][1..] == [g] && [g][1..] == [];
    assert TotalLength([g]) == Length(g) + TotalLength([]);
  }

  lemma FiveFields(a: Field, b: Field, c: Field, d: Field, e: Field)
    requires IsText(a) && IsText(b) && IsText(c) && IsText(d) && IsText(e)
    ensures var fs := [a, b, c, d, e];
            ValidUtf8(Encode(fs)) && |Encode(fs)| == Length(a) + Length(b) + Length(c) + Length(d) + Length(e)
  {
    hide IsText, Length, ValidUtf8;
    TextMessage([a, b, c, d, e]);
    assert [a, b, c, d, e][1..] == [b, c, d, e] && [b, c, d, e][1..] == [c, d, e] && [c, d, e][1..] == [d, e];
    assert [d, e][1..] == [e] && [e][1..] == [];
    assert TotalLength([e]) == Length(e) + TotalLength([]);
    assert TotalLength([d, e]) == Length(d) + TotalLength([e]);
    assert TotalLength([c, d, e]) == Length(c) + TotalLength([d, e]);
    assert TotalLength([b, c, d, e]) == Length(b) + TotalLength([c, d, e]);
  }

  lemma PlainExtension()
    ensures ValidUtf8(MarshalExtension([0x6B])) && |MarshalExtension([0x6B])| == 5
  {
    AsciiIsValid([0x6B]);
    OneField(Delimited(2, [0x6B]));
    OneField(Delimited(2, Encode([Delimited(2, [0x6B])])));
  }

  lemma PlainTimestamp()
    ensures var bs := Encode(TimestampFields(Timestamp(1699774530, 0))); ValidUtf8(bs) && |bs| == 6
  {
    SecondsAreText();
    OneField(Varint(1, 1699774530));
    assert TimestampFields(Timestamp(1699774530, 0)) == [Varint(1, 1699774530)];
  }

  lemma PlainChannelHeader(txId: Bytes)
    requires IsHexText(txId) && |txId| == 64
    ensures var h := ChannelHeader(ENDORSER_TRANSACTION, Timestamp(1699774530, 0), [0x63], txId, MarshalExtension([0x6B]));
            ValidUtf8(MarshalChannelHeader(h)) && 0 < |MarshalChannelHeader(h)| < 128
  {
    hide ValidUtf8;
    var time, extension := Encode(TimestampFields(Timestamp(1699774530, 0))), MarshalExtension([0x6B]);
    var h := ChannelHeader(ENDORSER_TRANSACTION, Timestamp(1699774530, 0), [0x63], txId, extension);
    PlainTimestamp();
    PlainExtension();
    HexIsValid(txId);
    AsciiIsValid([0x63]);
    AsciiIsValid(EncodeVarint(3));
    hide Encode, TimestampFields, MarshalExtension;
    FiveFields(Varint(1, 3), Delimited(3, time), Delimited(4, [0x63]), Delimited(5, txId), Delimited(7, extension));
    assert ChannelHeaderFields(h) == [Varint(1, 3), Delimited(3, time), Delimited(4, [0x63]), Delimited(5, txId), Delimited(7, extension)];
  }

  lemma PlainPair(first: Bytes, second: Bytes)
    requires 0 < |first| < 128 && 0 < |second| < 128 && ValidUtf8(first) && ValidUtf8(second)
    ensures ValidUtf8(Pair(first, second)) && |Pair(first, second)| == 4 + |first| + |second|
  {
    hide ValidUtf8;
    TwoFields(Delimited(1, first), Delimited(2, second));
    assert OptBytes(1, first) + OptBytes(2, second) == [Delimited(1, first), Delimited(2, second)];
  }

  /**
   * An input for which the Go unwrapping fails, whatever its 32-byte digest: it returns the chaincode input, and the
   * creator read from it is empty.
   */
  lemma PlainProposalIsMisread(sha256: Bytes -> Bytes)
    requires forall bs :: |sha256(bs)| == 32
    ensures var inv, c := PlainInvocation(), PlainContext(sha256);
            var proposal := BuildProposal(inv, GOLANG_CHAINCODE, c);
            var bs := MarshalProposal(proposal);
            && |c.nonce| == 24 && |TransactionId(c)| == 64
            && ValidUtf8(proposal.header)
            && UnwrapProposalBytes(bs) == BuildInput(inv, GOLANG_CHAINCODE) != bs
            && ReadCreator(bs) == Some(Creator([], [])) != Some(c.creator)
  {
    hide ValidUtf8, Pair, Encode, ReadCreator, UnwrapProposalBytes, BuildInput;
    var inv, c := PlainInvocation(), PlainContext(sha256);
    var header := BuildHeader(inv, c);
    AsciiIsValid([0x4D]);
    AsciiIsValid([0x78]);
    AsciiIsValid(c.nonce);
    PlainPair([0x4D], [0x78]);
    PlainPair(MarshalCreator(c.creator), c.nonce);
    PlainChannelHeader(TransactionId(c));
    ShortHeader(header);
    UnwrapRaw(inv, GOLANG_CHAINCODE, c);
    CreatorReadsExactly(inv, GOLANG_CHAINCODE, c);
    InputIsNotTheProposal(inv, GOLANG_CHAINCODE, c);
  }
}
