// The portable signing DTOs: base64 text fields around proposal bytes, digest, signature and routing.
module SigningMessages {
  import opened Prelude
  import opened Base64

  datatype Routing = GatewayDefault | SinglePeer(peers: seq<string>) | EndorsingPeers(peers: seq<string>)
  datatype Signature = RawSignature(bs: Bytes) | TextSignature(text: string)
  datatype SigningRequest = SigningRequest(bytes: string, digest: string, routing: Option<Routing>)
  datatype SignedMessage = SignedMessage(bytes: string, digest: string, signature: string, routing: Option<Routing>)
  datatype Decoded = Decoded(bytes: Bytes, digest: Bytes, signature: Bytes, routing: Option<Routing>)

  function NormalizeSignature(signature: Signature): Result<string, DtoError> {
    match signature
    case RawSignature(bs) => Ok(ToBase64(bs))
    case TextSignature(text) =>
      var decoded :- DecodeBase64(text, "signature");
      Ok(ToBase64(decoded))
  }

  function MakeSigningRequest(bytes: Bytes, digest: Bytes, routing: Option<Routing>): SigningRequest {
    SigningRequest(ToBase64(bytes), ToBase64(digest), routing)
  }

  function MakeSignedMessage(request: SigningRequest, signature: Signature): Result<SignedMessage, DtoError> {
    var normalized :- NormalizeSignature(signature);
    Ok(SignedMessage(request.bytes, request.digest, normalized, request.routing))
  }

  function DecodeSignedMessage(message: SignedMessage): Result<Decoded, DtoError> {
    var bytes :- DecodeBase64(message.bytes, "bytes");
    var digest :- DecodeBase64(message.digest, "digest");
    var signature :- DecodeBase64(message.signature, "signature");
    Ok(Decoded(bytes, digest, signature, message.routing))
  }

  /** A normalized signature text normalizes to itself, and holds the same bytes as the text it came from. */
  lemma NormalizeIsIdempotent(text: string)
    requires NormalizeSignature(TextSignature(text)).Ok?
    ensures var normalized := NormalizeSignature(TextSignature(text)).value;
            && NormalizeSignature(TextSignature(normalized)) == Ok(normalized)
            && DecodeBase64(normalized, "signature") == DecodeBase64(text, "signature")
  {
    var decoded := DecodeBase64(text, "signature").value;
    AcceptsExactly(text, "signature", decoded);
    DecodeInvertsEncode(decoded, "signature");
  }

  /** Every signature normalizes to the canonical text of the bytes it stands for, and is refused when its text is. */
  lemma NormalizedExactly(signature: Signature)
    ensures match signature
            case RawSignature(bs) => NormalizeSignature(signature) == Ok(ToBase64(bs))
            case TextSignature(text) =>
              match DecodeBase64(text, "signature")
              case Ok(bs) => NormalizeSignature(signature) == Ok(ToBase64(bs))
              case Err(e) => NormalizeSignature(signature) == Err(e)
  {
  }

  lemma PaddingOfField()
    ensures DecodeBase64("YQ", "signature") == Ok([0x61])
  {
    hide DecodeBase64;
    PaddingOfOneByte(0, "signature");
    assert "YQ" + Equals(0) == "YQ";
  }

  /** An unpadded text is normalized to a padded one. */
  lemma PaddingIsRestored()
    ensures NormalizeSignature(TextSignature("YQ")) == Ok("YQ==")
  {
    hide DecodeBase64, ToBase64;
    OneByteText();
    NormalizedExactly(TextSignature("YQ"));
    PaddingOfField();
  }

  /** The bytes a signature stands for; None when its text is refused. */
  function SignatureBytes(signature: Signature): Option<Bytes> {
    match signature
    case RawSignature(bs) => Some(bs)
    case TextSignature(text) =>
      match DecodeBase64(text, "signature")
      case Ok(bs) => Some(bs)
      case Err(_) => None
  }

  /** A signing request signed and decoded gives back the exact fields when none is empty, and fails otherwise. */
  lemma SignedMessageRoundTrip(bytes: Bytes, digest: Bytes, routing: Option<Routing>, signature: Signature)
    requires SignatureBytes(signature).Some?
    ensures var signed := MakeSignedMessage(MakeSigningRequest(bytes, digest, routing), signature);
            var bs := SignatureBytes(signature).value;
            && signed.Ok?
            && DecodeSignedMessage(signed.value) ==
                 if bytes == [] then Err(EmptyField("bytes"))
                 else if digest == [] then Err(EmptyField("digest"))
                 else if bs == [] then Err(EmptyField("signature"))
                 else Ok(Decoded(bytes, digest, bs, routing))
  {
    DecodeInvertsEncode(bytes, "bytes");
    DecodeInvertsEncode(digest, "digest");
    DecodeInvertsEncode(SignatureBytes(signature).value, "signature");
  }
}
