// Failover eligibility of errors (Go and TypeScript), and the loop that tries ordered peers one at a time.
module Failover {
  import opened Prelude
  import opened EndpointIdentity
  import opened PeerResolution

  datatype Category = Timeout | PeerUnavailable | Transport | NonRetryable | Unknown
  datatype Decision = Decision(eligible: bool, category: Category, reason: string)

  predicate Contains(text: string, part: string) {
    part <= text || (text != "" && Contains(text[1..], part))
  }

  predicate ContainsAny(text: string, parts: seq<string>) {
    exists part | part in parts :: Contains(text, part)
  }

  const TIMEOUT_TEXTS := ["deadline exceeded", "timeout", "timed out"]

  /******* Go *******/

  datatype ErrorKind =
    | Endorsement | Submit | Commit | Evaluation | NotFound | Discovery | SinglePeerExecution
    | Configuration | Connection | Offline
    | DeadlineExceeded
    | Grpc(code: nat)
    | Plain

  /** An error, its rendered text, and the errors it wraps: none, one, or several when errors were joined. */
  datatype GoError = GoError(kind: ErrorKind, text: string, causes: seq<GoError>)

  predicate KnownNonRetryableKind(kind: ErrorKind) {
    kind in {Endorsement, Submit, Commit, Evaluation, NotFound, Discovery, SinglePeerExecution}
  }

  /** errors.As for the seven non-retryable types: anywhere in the tree of wrapped errors. */
  predicate IsKnownNonRetryable(e: GoError) {
    KnownNonRetryableKind(e.kind) || exists cause | cause in e.causes :: IsKnownNonRetryable(cause)
  }

  predicate IsDeadline(e: GoError) {
    e.kind == DeadlineExceeded || exists cause | cause in e.causes :: IsDeadline(cause)
  }

  /** The gRPC status code met first when the tree is searched depth first. */
  function GrpcCode(e: GoError): Option<nat>
    decreases e, |e.causes| + 1
  {
    if e.kind.Grpc? then Some(e.kind.code) else CauseCode(e, 0)
  }

  function CauseCode(e: GoError, i: nat): Option<nat>
    requires i <= |e.causes|
    decreases e, |e.causes| - i
  {
    if i == |e.causes| then None
    else
      match GrpcCode(e.causes[i])
      case Some(code) => Some(code)
      case None => CauseCode(e, i + 1)
  }

  function ClassifyText(text: string, unavailable: seq<string>, transport: seq<string>): Decision {
    var lower := Lower(text);
    if ContainsAny(lower, TIMEOUT_TEXTS) then Decision(true, Timeout, text)
    else if ContainsAny(lower, unavailable) then Decision(true, PeerUnavailable, text)
    else if ContainsAny(lower, transport) then Decision(true, Transport, text)
    else Decision(false, Unknown, text)
  }

  const GO_UNAVAILABLE_TEXTS := ["unavailable", "connection refused", "connection reset", "no such host", "no route to host"]
  const GO_TRANSPORT_TEXTS := ["transport", "socket closed", "tls", "http2"]

  function ClassifyGo(e: GoError): Decision {
    if IsKnownNonRetryable(e) then Decision(false, NonRetryable, e.text)
    else if IsDeadline(e) then Decision(true, Timeout, "context deadline exceeded")
    else if GrpcCode(e) == Some(4) then Decision(true, Timeout, "gRPC deadline exceeded")
    else if GrpcCode(e) == Some(14) then Decision(true, PeerUnavailable, "gRPC unavailable")
    else ClassifyText(e.text, GO_UNAVAILABLE_TEXTS, GO_TRANSPORT_TEXTS)
  }

  /** All errors of the tree, each before the ones it wraps, in order. */
  function Chain(e: GoError): (r: seq<GoError>)
    ensures r != [] && r[0] == e
    decreases e, |e.causes| + 1
  {
    [e] + CauseChain(e, 0)
  }

  function CauseChain(e: GoError, i: nat): seq<GoError>
    requires i <= |e.causes|
    decreases e, |e.causes| - i
  {
    if i == |e.causes| then [] else Chain(e.causes[i]) + CauseChain(e, i + 1)
  }

  /** The code of the first gRPC error of a list. */
  function FirstCode(errors: seq<GoError>): Option<nat> {
    if errors == [] then None
    else if errors[0].kind.Grpc? then Some(errors[0].kind.code)
    else FirstCode(errors[1..])
  }

  lemma {:induction false} FirstCodeAppend(a: seq<GoError>, b: seq<GoError>)
    ensures FirstCode(a + b) == if FirstCode(a).Some? then FirstCode(a) else FirstCode(b)
  {
    if a == [] {
      assert a + b == b;
    } else {
      FirstCodeAppend(a[1..], b);
      assert (a + b)[1..] == a[1..] + b;
    }
  }

  ghost predicate HasNonRetryable(errors: seq<GoError>) {
    exists x | x in errors :: KnownNonRetryableKind(x.kind)
  }

  ghost predicate HasDeadline(errors: seq<GoError>) {
    exists x | x in errors :: x.kind == DeadlineExceeded
  }

  /** The three searches of the tree are searches of its list of errors. */
  lemma {:induction false} ChainExactly(e: GoError)
    ensures IsKnownNonRetryable(e) <==> HasNonRetryable(Chain(e))
    ensures IsDeadline(e) <==> HasDeadline(Chain(e))
    ensures GrpcCode(e) == FirstCode(Chain(e))
    decreases e, |e.causes| + 1
  {
    CauseChainExactly(e, 0);
    assert Chain(e) == [e] + CauseChain(e, 0);
    assert Chain(e)[1..] == CauseChain(e, 0);
  }

  lemma {:induction false} CauseChainExactly(e: GoError, i: nat)
    requires i <= |e.causes|
    ensures HasNonRetryable(CauseChain(e, i)) <==> exists cause | cause in e.causes[i..] :: IsKnownNonRetryable(cause)
    ensures HasDeadline(CauseChain(e, i)) <==> exists cause | cause in e.causes[i..] :: IsDeadline(cause)
    ensures CauseCode(e, i) == FirstCode(CauseChain(e, i))
    decreases e, |e.causes| - i
  {
    if i < |e.causes| {
      var cause := e.causes[i];
      ChainExactly(cause);
      CauseChainExactly(e, i + 1);
      FirstCodeAppend(Chain(cause), CauseChain(e, i + 1));
      assert e.causes[i..] == [cause] + e.causes[i + 1..];
    }
  }

  lemma {:induction false} ContainsExactly(text: string, part: string)
    ensures Contains(text, part) <==> Occurs(text, part)
  {
    if text == "" {
      if part == "" {
        assert OccursAt(text, part, 0);
      }
    } else {
      ContainsExactly(text[1..], part);
      OccursTail(text, part);
    }
  }

  /** The message holds the text, ignoring case. */
  ghost predicate Says(message: string, part: string) {
    Occurs(Lower(message), part)
  }

  ghost predicate SaysTimeout(message: string) {
    Says(message, "deadline exceeded") || Says(message, "timeout") || Says(message, "timed out")
  }

  /** How the message alone decides, in Go: a timeout first, then an unavailable peer, then the transport. */
  ghost predicate GoSaysUnavailable(message: string) {
    || Says(message, "unavailable") || Says(message, "connection refused") || Says(message, "connection reset")
    || Says(message, "no such host") || Says(message, "no route to host")
  }

  ghost predicate GoSaysTransport(message: string) {
    Says(message, "transport") || Says(message, "socket closed") || Says(message, "tls") || Says(message, "http2")
  }

  lemma GoTexts(message: string)
    ensures ContainsAny(Lower(message), TIMEOUT_TEXTS) <==> SaysTimeout(message)
    ensures ContainsAny(Lower(message), GO_UNAVAILABLE_TEXTS) <==> GoSaysUnavailable(message)
    ensures ContainsAny(Lower(message), GO_TRANSPORT_TEXTS) <==> GoSaysTransport(message)
  {
    hide Contains, Occurs, Lower;
    forall part
      ensures Contains(Lower(message), part) <==> Says(message, part)
    {
      ContainsExactly(Lower(message), part);
    }
    TimeoutList(message);
    GoUnavailableList(message);
    GoTransportList(message);
  }

  /** What a test over a list of texts asks, text by text. */
  lemma TimeoutList(message: string)
    ensures ContainsAny(Lower(message), TIMEOUT_TEXTS)
       <==> || Contains(Lower(message), "deadline exceeded") || Contains(Lower(message), "timeout") || Contains(Lower(message), "timed out")
  {
    hide Contains, Lower;
    assert "deadline exceeded" == TIMEOUT_TEXTS[0] && "timeout" == TIMEOUT_TEXTS[1] && "timed out" == TIMEOUT_TEXTS[2];
  }

  lemma GoUnavailableList(message: string)
    ensures ContainsAny(Lower(message), GO_UNAVAILABLE_TEXTS)
       <==> || Contains(Lower(message), "unavailable") || Contains(Lower(message), "connection refused")
            || Contains(Lower(message), "connection reset") || Contains(Lower(message), "no such host")
            || Contains(Lower(message), "no route to host")
  {
    hide Contains, Lower;
    var list := GO_UNAVAILABLE_TEXTS;
    assert "unavailable" == list[0] && "connection refused" == list[1] && "connection reset" == list[2];
    assert "no such host" == list[3] && "no route to host" == list[4];
  }

  lemma GoTransportList(message: string)
    ensures ContainsAny(Lower(message), GO_TRANSPORT_TEXTS)
       <==> || Contains(Lower(message), "transport") || Contains(Lower(message), "socket closed")
            || Contains(Lower(message), "tls") || Contains(Lower(message), "http2")
  {
    hide Contains, Lower;
    var list := GO_TRANSPORT_TEXTS;
    assert "transport" == list[0] && "socket closed" == list[1] && "tls" == list[2] && "http2" == list[3];
  }

  lemma NonRetryableKinds(errors: seq<GoError>)
    ensures HasNonRetryable(errors)
       <==> exists x | x in errors ::
              || x.kind.Endorsement? || x.kind.Submit? || x.kind.Commit? || x.kind.Evaluation?
              || x.kind.NotFound? || x.kind.Discovery? || x.kind.SinglePeerExecution?
  {
  }

  /**
   * The decision on every error, over the whole tree of errors it wraps. A non-retryable error anywhere wins over
   * deadlines, codes and texts; without one, failover happens exactly on a deadline, a first code of 4 or 14, or a
   * listed text.
   */
  lemma EligibleExactly(e: GoError)
    ensures var errors := Chain(e);
            var final := exists x | x in errors ::
              || x.kind.Endorsement? || x.kind.Submit? || x.kind.Commit? || x.kind.Evaluation?
              || x.kind.NotFound? || x.kind.Discovery? || x.kind.SinglePeerExecution?;
            var deadline := exists x | x in errors :: x.kind.DeadlineExceeded?;
            var code := FirstCode(errors);
            && (ClassifyGo(e).eligible
                <==> && !final
                     && (deadline || code == Some(4) || code == Some(14)
                         || SaysTimeout(e.text) || GoSaysUnavailable(e.text) || GoSaysTransport(e.text)))
            && ClassifyGo(e).category ==
                 (if final then NonRetryable
                  else if deadline || code == Some(4) then Timeout
                  else if code == Some(14) then PeerUnavailable
                  else if SaysTimeout(e.text) then Timeout
                  else if GoSaysUnavailable(e.text) then PeerUnavailable
                  else if GoSaysTransport(e.text) then Transport
                  else Unknown)
            && ClassifyGo(e).reason ==
                 (if !final && deadline then "context deadline exceeded"
                  else if !final && code == Some(4) then "gRPC deadline exceeded"
                  else if !final && code == Some(14) then "gRPC unavailable"
                  else e.text)
  {
    hide Chain, FirstCode, SaysTimeout, GoSaysUnavailable, GoSaysTransport, ContainsAny;
    ChainExactly(e);
    NonRetryableKinds(Chain(e));
    GoTexts(e.text);
  }

  /******* The loop over ordered peers *******/

  datatype Outcome<T> = Success(value: T) | Failure(error: GoError)
  datatype Attempt = Attempt(peer: string, cause: string, failover: Decision)
  datatype Execution<T> =
    | Returned(value: T)
    | Refused(error: GoError)
    | Exhausted(eligible: seq<string>, attempts: seq<Attempt>)

  predicate FailsOver<T>(o: Outcome<T>) {
    o.Failure? && ClassifyGo(o.error).eligible
  }

  /** The identity of a peer where it has one, its raw URL otherwise. */
  function ShownUrl(peer: Peer, tls: bool): (url: string)
    ensures GoNormalize(peer.url, tls).Ok? ==> GoNormalize(peer.url, tls) == Ok(url)
    ensures GoNormalize(peer.url, tls).Err? ==> url == peer.url
  {
    match GoNormalize(peer.url, tls)
    case Ok(id) => id
    case Err(_) => peer.url
  }

  function PeerUrls(peers: seq<Peer>, tls: bool): (urls: seq<string>)
    ensures |urls| == |peers| && forall i | 0 <= i < |urls| :: urls[i] == ShownUrl(peers[i], tls)
  {
    seq(|peers|, i requires 0 <= i < |peers| => ShownUrl(peers[i], tls))
  }

  /**
   * The peers called: a prefix of the ordered ones, each once and as far as every one before the last fails over.
   * `execute(i, p)` is what attempt i gives when it goes to peer p.
   */
  ghost predicate Tried<T>(called: seq<Peer>, ordered: seq<Peer>, execute: (nat, Peer) -> Outcome<T>) {
    && called <= ordered
    && (ordered != [] ==> called != [])
    && (forall i | 0 <= i < |called| - 1 :: FailsOver(execute(i, called[i])))
    && (called != ordered ==> called != [] && !FailsOver(execute(|called| - 1, called[|called| - 1])))
  }

  /** One attempt per ordered peer, with its error and decision. */
  ghost predicate AllFailedOver<T>(attempts: seq<Attempt>, ordered: seq<Peer>, execute: (nat, Peer) -> Outcome<T>) {
    && |attempts| == |ordered|
    && forall i | 0 <= i < |ordered| ::
         var o := execute(i, ordered[i]);
         FailsOver(o) && attempts[i] == Attempt(ordered[i].url, o.error.text, ClassifyGo(o.error))
  }

  /** There is one trace only: how far the calls go is decided by what the peers answer. */
  lemma TriedOnce<T>(a: seq<Peer>, b: seq<Peer>, ordered: seq<Peer>, execute: (nat, Peer) -> Outcome<T>)
    requires Tried(a, ordered, execute) && Tried(b, ordered, execute)
    ensures a == b
  {
  }

  method ExecuteSinglePeerTargets<T>(eligible: seq<Peer>, ordered: seq<Peer>, execute: (nat, Peer) -> Outcome<T>)
    returns (r: Execution<T>, called: seq<Peer>)
    ensures Tried(called, ordered, execute)
    ensures match r
            case Returned(v) => called != [] && execute(|called| - 1, called[|called| - 1]) == Success(v)
            case Refused(e) => called != [] && execute(|called| - 1, called[|called| - 1]) == Failure(e) && !ClassifyGo(e).eligible
            case Exhausted(urls, attempts) =>
              called == ordered && urls == PeerUrls(eligible, DiscoveredPeersUseTLS(eligible)) && AllFailedOver(attempts, ordered, execute)
  {
    hide ClassifyGo, PeerUrls, DiscoveredPeersUseTLS;
    called := [];
    var attempts: seq<Attempt> := [];
    for i := 0 to |ordered|
      invariant called == ordered[..i] && AllFailedOver(attempts, called, execute)
      invariant i == |ordered| ==> ordered == []
    {
      called := called + [ordered[i]];
      match execute(i, ordered[i]) {
        case Success(v) =>
          return Returned(v), called;
        case Failure(e) =>
          var decision := ClassifyGo(e);
          attempts := attempts + [Attempt(ordered[i].url, e.text, decision)];
          if !decision.eligible {
            return Refused(e), called;
          }
          if i == |ordered| - 1 {
            return Exhausted(PeerUrls(eligible, DiscoveredPeersUseTLS(eligible)), attempts), called;
          }
      }
    }
    return Exhausted(PeerUrls(eligible, DiscoveredPeersUseTLS(eligible)), attempts), called;
  }

  /******* TypeScript *******/

  datatype TsError = TsError(name: string, message: string, code: Option<int>)

  predicate TsNonRetryable(e: TsError) {
    e.name in {"EndorsementError", "SubmitError", "CommitError", "EvaluationError",
               "PeerNotFoundError", "DiscoveryError", "SinglePeerExecutionError"}
  }

  const TS_UNAVAILABLE_TEXTS := ["unavailable", "econnrefused", "econnreset", "enotfound", "no route to host"]
  const TS_TRANSPORT_TEXTS := ["transport", "socket closed", "connection reset", "tls", "http2"]

  function ClassifyTs(e: TsError): Decision {
    if TsNonRetryable(e) then Decision(false, NonRetryable, e.message)
    else if e.code == Some(4) then Decision(true, Timeout, "gRPC deadline exceeded")
    else if e.code == Some(14) then Decision(true, PeerUnavailable, "gRPC unavailable")
    else
      var decision := ClassifyText(e.message, TS_UNAVAILABLE_TEXTS, TS_TRANSPORT_TEXTS);
      if decision.eligible || e.message != "" then decision else decision.(reason := "unclassified error")
  }

  ghost predicate TsSaysUnavailable(message: string) {
    || Says(message, "unavailable") || Says(message, "econnrefused") || Says(message, "econnreset")
    || Says(message, "enotfound") || Says(message, "no route to host")
  }

  ghost predicate TsSaysTransport(message: string) {
    || Says(message, "transport") || Says(message, "socket closed") || Says(message, "connection reset")
    || Says(message, "tls") || Says(message, "http2")
  }

  lemma TsTexts(message: string)
    ensures ContainsAny(Lower(message), TS_UNAVAILABLE_TEXTS) <==> TsSaysUnavailable(message)
    ensures ContainsAny(Lower(message), TS_TRANSPORT_TEXTS) <==> TsSaysTransport(message)
  {
    hide Contains, Occurs, Lower;
    forall part
      ensures Contains(Lower(message), part) <==> Says(message, part)
    {
      ContainsExactly(Lower(message), part);
    }
    TsUnavailableList(message);
    TsTransportList(message);
  }

  lemma TsUnavailableList(message: string)
    ensures ContainsAny(Lower(message), TS_UNAVAILABLE_TEXTS)
       <==> || Contains(Lower(message), "unavailable") || Contains(Lower(message), "econnrefused")
            || Contains(Lower(message), "econnreset") || Contains(Lower(message), "enotfound")
            || Contains(Lower(message), "no route to host")
  {
    hide Contains, Lower;
    var list := TS_UNAVAILABLE_TEXTS;
    assert "unavailable" == list[0] && "econnrefused" == list[1] && "econnreset" == list[2];
    assert "enotfound" == list[3] && "no route to host" == list[4];
  }

  lemma TsTransportList(message: string)
    ensures ContainsAny(Lower(message), TS_TRANSPORT_TEXTS)
       <==> || Contains(Lower(message), "transport") || Contains(Lower(message), "socket closed")
            || Contains(Lower(message), "connection reset") || Contains(Lower(message), "tls") || Contains(Lower(message), "http2")
  {
    hide Contains, Lower;
    var list := TS_TRANSPORT_TEXTS;
    assert "transport" == list[0] && "socket closed" == list[1] && "connection reset" == list[2];
    assert "tls" == list[3] && "http2" == list[4];
  }

  /** The errors of the bridge's own seven final kinds, by name. */
  ghost predicate FinalName(name: string) {
    || name == "EndorsementError" || name == "SubmitError" || name == "CommitError" || name == "EvaluationError"
    || name == "PeerNotFoundError" || name == "DiscoveryError" || name == "SinglePeerExecutionError"
  }

  /** When another peer is tried after a TypeScript error: no final name, and a code of 4 or 14 or one of the listed texts. */
  ghost predicate TsFailsOver(e: TsError) {
    && !FinalName(e.name)
    && (e.code == Some(4) || e.code == Some(14) || SaysTimeout(e.message) || TsSaysUnavailable(e.message) || TsSaysTransport(e.message))
  }

  /** The decision on every TypeScript error. */
  lemma TsEligibleExactly(e: TsError)
    ensures ClassifyTs(e).eligible <==> TsFailsOver(e)
    ensures ClassifyTs(e).category ==
              (if FinalName(e.name) then NonRetryable
               else if e.code == Some(4) then Timeout
               else if e.code == Some(14) then PeerUnavailable
               else if SaysTimeout(e.message) then Timeout
               else if TsSaysUnavailable(e.message) then PeerUnavailable
               else if TsSaysTransport(e.message) then Transport
               else Unknown)
    ensures ClassifyTs(e).reason ==
              (if !FinalName(e.name) && e.code == Some(4) then "gRPC deadline exceeded"
               else if !FinalName(e.name) && e.code == Some(14) then "gRPC unavailable"
               else if !FinalName(e.name) && e.message == "" then "unclassified error"
               else e.message)
  {
    hide SaysTimeout, TsSaysUnavailable, TsSaysTransport, ContainsAny;
    GoTexts(e.message);
    TsTexts(e.message);
    if e.message == "" {
      EmptySaysNothing();
    }
  }

  lemma EmptySaysNothing()
    ensures !SaysTimeout("") && !TsSaysUnavailable("") && !TsSaysTransport("")
  {
    assert Lower("") == "";
    assert forall part, i: nat :: OccursAt("", part, i) ==> part == "";
  }
}
