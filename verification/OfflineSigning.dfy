// The TypeScript offline flow end to end: an unsigned proposal goes out as a signing request, comes back
// signed, and is resumed for the peers it was recorded for.
module OfflineSigning {
  import opened Prelude
  import opened FabricMessages
  import opened Proposals
  import opened Base64
  import opened SigningMessages
  import EndpointIdentity
  import opened PeerResolution

  datatype Unsigned = Unsigned(bytes: Bytes, digest: Bytes, routing: Routing)

  datatype Resumed = Resumed(bytes: Bytes, signature: Bytes, routing: Routing, channel: Bytes, txId: Bytes)

  datatype ResumeError =
    | Dto(error: DtoError)
    | DigestMismatch
    | NotPeerRouting
    | BadRoutingPeer(cause: EndpointIdentity.IdentityError)
    | NotExactlyOnePeer
    | MalformedProposal

  function NewUnsignedProposal(inv: Invocation, c: Context, routing: Routing): Unsigned {
    var bytes := MarshalProposal(BuildProposal(inv, GOLANG_CHAINCODE, c));
    Unsigned(bytes, c.sha256(bytes), routing)
  }

  function WithSignature(p: Unsigned, signature: Signature): Result<SignedMessage, DtoError> {
    MakeSignedMessage(MakeSigningRequest(p.bytes, p.digest, Some(p.routing)), signature)
  }

  function DedupeRouting(routing: Routing, tls: bool): Result<Routing, EndpointIdentity.IdentityError>
    requires !routing.GatewayDefault?
  {
    var ids :- DedupeSpec(TsNormalizer(tls), routing.peers);
    Ok(routing.(peers := ids))
  }

  /** The routing with its endpoints normalized and deduplicated. */
  function NormalizeRouting(routing: Routing, tls: bool): (r: Result<Routing, ResumeError>)
    ensures r.Ok? ==> !r.value.GatewayDefault?
  {
    if routing.GatewayDefault? then Err(NotPeerRouting)
    else
      match DedupeRouting(routing, tls)
      case Err(e) => Err(BadRoutingPeer(e))
      case Ok(deduped) => if deduped.SinglePeer? && |deduped.peers| != 1 then Err(NotExactlyOnePeer) else Ok(deduped)
  }

  function NormalizeTwice(routing: Routing, tls: bool): Result<Routing, ResumeError> {
    var once :- NormalizeRouting(routing, tls);
    match DedupeRouting(once, tls)
    case Err(e) => Err(BadRoutingPeer(e))
    case Ok(twice) => Ok(twice)
  }

  /** The channel and transaction id in the proposal's channel header. */
  function InspectProposal(bytes: Bytes): Option<(Bytes, Bytes)> {
    var proposal :- UnmarshalProposal(bytes);
    var header :- UnmarshalHeader(proposal.header);
    var channelHeader :- UnmarshalChannelHeader(header.channelHeader);
    Some((channelHeader.channelId, channelHeader.txId))
  }

  /** The routing is normalized once here and once more by the signed proposal's own constructor. */
  function NewPeerSignedProposal(message: SignedMessage, tls: bool, sha256: Bytes -> Bytes): Result<Resumed, ResumeError> {
    match DecodeSignedMessage(message)
    case Err(e) => Err(Dto(e))
    case Ok(decoded) =>
      if sha256(decoded.bytes) != decoded.digest then Err(DigestMismatch)
      else if decoded.routing.None? then Err(NotPeerRouting)
      else
        var routing :- NormalizeRouting(decoded.routing.value, tls);
        match InspectProposal(decoded.bytes)
        case None => Err(MalformedProposal)
        case Some((channel, txId)) =>
          match DedupeRouting(routing, tls)
          case Err(e) => Err(BadRoutingPeer(e))
          case Ok(again) => Ok(Resumed(decoded.bytes, decoded.signature, again, channel, txId))
  }

  /** Why a signed message is refused, in the order of the checks, and what an accepted one becomes. */
  lemma AcceptedExactly(message: SignedMessage, tls: bool, sha256: Bytes -> Bytes)
    ensures var r, decoded := NewPeerSignedProposal(message, tls, sha256), DecodeSignedMessage(message);
            && (decoded.Err? <==> r.Err? && r.error.Dto?)
            && (decoded.Ok? ==>
                  var d := decoded.value;
                  && (r == Err(DigestMismatch) <==> sha256(d.bytes) != d.digest)
                  && (r == Err(NotPeerRouting) <==> sha256(d.bytes) == d.digest && (d.routing == None || d.routing == Some(GatewayDefault)))
                  && (r.Ok? ==>
                        && sha256(d.bytes) == d.digest && d.routing.Some?
                        && NormalizeTwice(d.routing.value, tls) == Ok(r.value.routing)
                        && r.value.bytes == d.bytes && r.value.signature == d.signature
                        && InspectProposal(d.bytes) == Some((r.value.channel, r.value.txId)))
                  && ((sha256(d.bytes) == d.digest && d.routing.Some? && NormalizeTwice(d.routing.value, tls).Ok? && InspectProposal(d.bytes).Some?)
                      ==> r.Ok?))
  {
    hide DecodeSignedMessage, DedupeSpec, InspectProposal;
  }

  /** A recorded peer list is taken exactly when each endpoint has an identity and, for a single peer, they are all the same one. */
  lemma NormalizedExactly(routing: Routing, tls: bool)
    requires !routing.GatewayDefault?
    ensures var all, r := NormalizeAll(TsNormalizer(tls), routing.peers), NormalizeRouting(routing, tls);
            match all
            case Err(e) => r == Err(BadRoutingPeer(e))
            case Ok(ids) =>
              if routing.SinglePeer? && |FirstOccurrences(ids)| != 1 then r == Err(NotExactlyOnePeer)
              else r.Ok? && r.value.peers == FirstOccurrences(ids) && r.value.SinglePeer? == routing.SinglePeer?
  {
  }

  lemma InspectBuilt(inv: Invocation, c: Context)
    ensures InspectProposal(MarshalProposal(BuildProposal(inv, GOLANG_CHAINCODE, c))) == Some((inv.channel, TransactionId(c)))
  {
    var proposal, header := BuildProposal(inv, GOLANG_CHAINCODE, c), BuildHeader(inv, c);
    PairRoundTrip(proposal.header, proposal.payload);
    PairRoundTrip(header.channelHeader, header.signatureHeader);
    ChannelHeaderRoundTrip(ChannelHeader(
      ENDORSER_TRANSACTION, c.now, inv.channel, TransactionId(c), MarshalExtension(inv.chaincode)));
  }

  lemma BuiltIsNotEmpty(inv: Invocation, c: Context)
    ensures MarshalProposal(BuildProposal(inv, GOLANG_CHAINCODE, c)) != []
  {
  }

  lemma {:induction false} FirstOccurrencesLength<T(!new)>(s: seq<T>)
    ensures |FirstOccurrences(s)| <= |s|
    ensures |FirstOccurrences(s)| == |s| ==> FirstOccurrences(s) == s
  {
    if s != [] {
      FirstOccurrencesLength(s[..|s| - 1]);
      assert s == s[..|s| - 1] + [s[|s| - 1]];
    }
  }

  /** Deduplicated normalization leaves a duplicate-free list as it is exactly when every element is its own identity. */
  lemma DedupeFixedExactly(norm: Normalizer, ids: seq<string>)
    requires Distinct(ids)
    ensures DedupeSpec(norm, ids) == Ok(ids) <==> forall i | 0 <= i < |ids| :: norm(ids[i]) == Ok(ids[i])
  {
    var all := NormalizeAll(norm, ids);
    if DedupeSpec(norm, ids) == Ok(ids) {
      FirstOccurrencesLength(all.value);
    }
    if forall i | 0 <= i < |ids| :: norm(ids[i]) == Ok(ids[i]) {
      assert all.Ok?;
      assert all.value == ids;
      FirstOccurrencesOfDistinct(ids);
    }
  }

  /** A recorded peer routing: some peers, none twice, one for the single-peer mode. */
  ghost predicate Recorded(routing: Routing) {
    !routing.GatewayDefault? && routing.peers != [] && Distinct(routing.peers) && (routing.SinglePeer? ==> |routing.peers| == 1)
  }

  predicate AllStable(ids: seq<string>, tls: bool) {
    forall i | 0 <= i < |ids| :: TsNormalizer(tls)(ids[i]) == Ok(ids[i])
  }

  /** What comes out of two passes of normalization is stable. */
  lemma TwiceDeduped(peers: seq<string>, once: seq<string>, twice: seq<string>, tls: bool)
    requires DedupeSpec(TsNormalizer(tls), peers) == Ok(once) && DedupeSpec(TsNormalizer(tls), once) == Ok(twice)
    ensures AllStable(twice, tls)
  {
    var first, second := NormalizeAll(TsNormalizer(tls), peers).value, NormalizeAll(TsNormalizer(tls), once).value;
    forall i | 0 <= i < |twice|
      ensures TsNormalizer(tls)(twice[i]) == Ok(twice[i])
    {
      assert twice[i] in second;
      var j :| 0 <= j < |second| && second[j] == twice[i];
      assert once[j] in first;
      var k :| 0 <= k < |first| && first[k] == once[j];
      assert TsNormalizer(tls)(peers[k]) == Ok(once[j]) && TsNormalizer(tls)(once[j]) == Ok(twice[i]);
      EndpointIdentity.TwiceIsStable(peers[k], tls, tls, tls);
    }
  }

  lemma StableDedupes(ids: seq<string>, tls: bool)
    requires Distinct(ids)
    ensures DedupeSpec(TsNormalizer(tls), ids) == Ok(ids) <==> AllStable(ids, tls)
  {
    DedupeFixedExactly(TsNormalizer(tls), ids);
  }

  /** Both passes together give the recorded routing back exactly when every recorded endpoint is its own identity. */
  lemma NormalizeRoutingExactly(routing: Routing, tls: bool)
    requires Recorded(routing)
    ensures (NormalizeRouting(routing, tls).Ok? && DedupeRouting(NormalizeRouting(routing, tls).value, tls) == Ok(routing))
       <==> AllStable(routing.peers, tls)
  {
    hide AllStable, DedupeSpec, Distinct;
    StableDedupes(routing.peers, tls);
    var once := NormalizeRouting(routing, tls);
    if once.Ok? && DedupeRouting(once.value, tls) == Ok(routing) {
      TwiceDeduped(routing.peers, once.value.peers, routing.peers, tls);
    }
  }

  /**
   * An unsigned proposal, signed outside with non-empty bytes and handed back, resumes exactly when its routing
   * survives two normalizations, with the very bytes, signature, channel and transaction id it was built with. Its
   * routing is unchanged as well exactly when every recorded endpoint is its own identity.
   */
  lemma OfflineRoundTrip(inv: Invocation, c: Context, routing: Routing, signature: Signature, tls: bool)
    requires Recorded(routing)
    requires c.sha256(NewUnsignedProposal(inv, c, routing).bytes) != []
    requires SignatureBytes(signature).Some? && SignatureBytes(signature).value != []
    ensures var unsigned := NewUnsignedProposal(inv, c, routing);
            var message := WithSignature(unsigned, signature);
            && message.Ok?
            && var resumed := NewPeerSignedProposal(message.value, tls, c.sha256);
            && (match NormalizeTwice(routing, tls)
                case Err(e) => resumed == Err(e)
                case Ok(twice) =>
                  resumed == Ok(Resumed(unsigned.bytes, SignatureBytes(signature).value, twice, inv.channel, TransactionId(c))))
            && ((resumed.Ok? && resumed.value.routing == routing)
                <==> AllStable(routing.peers, tls))
  {
    hide NormalizeRouting, DedupeRouting, InspectProposal, DecodeSignedMessage, MakeSignedMessage, BuildProposal, TransactionId, AllStable;
    var unsigned := NewUnsignedProposal(inv, c, routing);
    SignedMessageRoundTrip(unsigned.bytes, unsigned.digest, Some(routing), signature);
    InspectBuilt(inv, c);
    BuiltIsNotEmpty(inv, c);
    NormalizeRoutingExactly(routing, tls);
  }
}
