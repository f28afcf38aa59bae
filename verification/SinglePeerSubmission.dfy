// The Go single-peer submit up to the endorsed transaction: check and order the discovered peers, build the
// proposal, try the peers, and assemble the transaction payload.
module SinglePeerSubmission {
  import opened Prelude
  import opened FabricMessages
  import opened Proposals
  import Payloads = TransactionPayloads
  import MessageFields
  import opened PeerResolution
  import opened RoundRobin
  import opened GoSlices
  import opened SinglePeerOrder
  import opened Failover
  import opened GoTransactions

  datatype EndorsedTransaction = EndorsedTransaction(bytes: Bytes, result: Bytes, txId: Bytes)

  datatype SubmissionError =
    | Unresolved(resolution: ResolveError)
    | NotBuilt(build: BuildError)
    | NotSigned(message: string)
    | PeerRefused(error: GoError)
    | AllPeersFailed(eligible: seq<string>, attempts: seq<Attempt>)
    | NotEndorsed(fault: Payloads.PayloadError)

  /** Agreed responses to a built proposal always make a payload, and it reads back as that proposal's transaction. */
  lemma BuiltTransactionReadsBack(inv: Invocation, chaincodeType: nat, c: Context, slots: seq<Payloads.Slot>)
    requires Payloads.Agreed(slots)
    ensures var payload := Payloads.BuildPeerTransactionPayload(BuildProposal(inv, chaincodeType, c), slots);
            && payload.Ok?
            && Payloads.ParsePeerPayload(payload.value)
               == Ok(Payloads.TransactionView(inv.channel, TransactionId(c), Payloads.ProposalResult(slots)))
    ensures forall result | MessageFields.CarriesResult(slots[0].value.payload, result) :: Payloads.ProposalResult(slots) == Ok(result)
  {
    hide MessageFields.CarriesResult;
    var proposal, header := BuildProposal(inv, chaincodeType, c), BuildHeader(inv, c);
    PairRoundTrip(header.channelHeader, header.signatureHeader);
    ProposalPayloadRoundTrip(BuildInput(inv, chaincodeType), inv.transient);
    ChannelHeaderRoundTrip(ChannelHeader(
      ENDORSER_TRANSACTION, c.now, inv.channel, TransactionId(c), MarshalExtension(inv.chaincode)));
    Payloads.BuildSucceedsExactly(proposal, slots);
    Payloads.ParseInvertsBuild(proposal, slots);
  }

  /** What a signed request is: the proposal bytes and the signature over their digest. */
  datatype SignedProposal = SignedProposal(bytes: Bytes, signature: Bytes)

  /** `endorse(i, p, request)` is what peer p answers when it gets the request as attempt i. */
  type Endorser = (nat, Peer, SignedProposal) -> Outcome<Payloads.Slot>

  function Executor(endorse: Endorser, request: SignedProposal): (nat, Peer) -> Outcome<Payloads.Slot> {
    (i: nat, peer: Peer) => endorse(i, peer, request)
  }

  /** The values an invocation is built with. */
  function BuildContext(bridge: Creator, env: Environment): Context
    requires env.nonce.Ok?
  {
    Context(bridge, env.nonce.value, env.now, env.sha256)
  }

  /** A transaction of this invocation, made from the given response and reading back as such. */
  ghost predicate Transacts(t: EndorsedTransaction, inv: Invocation, c: Context, slot: Payloads.Slot) {
    && Payloads.Agreed([slot])
    && t.txId == TransactionId(c)
    && Payloads.ProposalResult([slot]) == Ok(t.result)
    && (forall result | MessageFields.CarriesResult(slot.value.payload, result) :: t.result == result)
    && Payloads.BuildPeerTransactionPayload(BuildProposal(inv, GOLANG_CHAINCODE, c), [slot]) == Ok(t.bytes)
    && Payloads.ParsePeerPayload(t.bytes) == Ok(Payloads.TransactionView(inv.channel, t.txId, Ok(t.result)))
  }

  /** What becomes of the response of the peer that answered. */
  ghost predicate Assembled(r: Result<EndorsedTransaction, SubmissionError>, inv: Invocation, c: Context, slot: Payloads.Slot) {
    match Payloads.Validate([slot])
    case Some(fault) => r == Err(NotEndorsed(fault))
    case None =>
      slot.Some? &&
      match Payloads.ProposalResult([slot])
      case Err(fault) => r == Err(NotEndorsed(fault))
      case Ok(_) => r.Ok? && Transacts(r.value, inv, c, slot)
  }

  /** The outcome of trying the ordered peers, decided by the last one called. */
  ghost predicate Attempted(
    r: Result<EndorsedTransaction, SubmissionError>, called: seq<Peer>, inv: Invocation, c: Context,
    eligible: seq<Peer>, ordered: seq<Peer>, execute: (nat, Peer) -> Outcome<Payloads.Slot>)
  {
    && Tried(called, ordered, execute) && called != []
    && match execute(|called| - 1, called[|called| - 1])
       case Success(slot) => Assembled(r, inv, c, slot)
       case Failure(e) =>
         if !ClassifyGo(e).eligible then r == Err(PeerRefused(e))
         else
           && called == ordered && r.Err? && r.error.AllPeersFailed?
           && r.error.eligible == PeerUrls(eligible, DiscoveredPeersUseTLS(eligible))
           && AllFailedOver(r.error.attempts, ordered, execute)
  }

  /** The request a bridge identity makes of an invocation, if its signer signs. */
  function Request(inv: Invocation, c: Context, sign: Bytes -> Result<Bytes, string>): (r: Result<SignedProposal, string>)
    ensures r.Ok? ==>
              && r.value.bytes == MarshalProposal(BuildProposal(inv, GOLANG_CHAINCODE, c))
              && sign(c.sha256(r.value.bytes)) == Ok(r.value.signature)
    ensures r.Err? ==> sign(c.sha256(MarshalProposal(BuildProposal(inv, GOLANG_CHAINCODE, c)))) == Err(r.error)
  {
    var bytes := MarshalProposal(BuildProposal(inv, GOLANG_CHAINCODE, c));
    var signature :- sign(c.sha256(bytes));
    Ok(SignedProposal(bytes, signature))
  }

  /** The outcome of building, signing and trying, in that order: nobody is called before there is a signed request. */
  ghost predicate Ends(
    r: Result<EndorsedTransaction, SubmissionError>, called: seq<Peer>, inv: Invocation, bridge: Creator, env: Environment,
    sign: Bytes -> Result<Bytes, string>, eligible: seq<Peer>, ordered: seq<Peer>, endorse: Endorser)
  {
    match env.nonce
    case Err(message) => r == Err(NotBuilt(NoNonce(message))) && called == []
    case Ok(_) =>
      var c := BuildContext(bridge, env);
      match Request(inv, c, sign)
      case Err(message) => r == Err(NotSigned(message)) && called == []
      case Ok(request) => Attempted(r, called, inv, c, eligible, ordered, Executor(endorse, request))
  }

  lemma AssembledOnce(
    r: Result<EndorsedTransaction, SubmissionError>, r': Result<EndorsedTransaction, SubmissionError>,
    inv: Invocation, c: Context, slot: Payloads.Slot)
    requires Assembled(r, inv, c, slot) && Assembled(r', inv, c, slot)
    ensures r == r'
  {
    hide Payloads.Validate, Payloads.ProposalResult, Payloads.BuildPeerTransactionPayload, Payloads.ParsePeerPayload, TransactionId, BuildProposal;
  }

  lemma AttemptedOnce(
    r: Result<EndorsedTransaction, SubmissionError>, called: seq<Peer>, r': Result<EndorsedTransaction, SubmissionError>, called': seq<Peer>,
    inv: Invocation, c: Context, eligible: seq<Peer>, ordered: seq<Peer>, execute: (nat, Peer) -> Outcome<Payloads.Slot>)
    requires Attempted(r, called, inv, c, eligible, ordered, execute)
    requires Attempted(r', called', inv, c, eligible, ordered, execute)
    ensures r == r' && called == called'
  {
    hide Tried, Assembled, ClassifyGo, PeerUrls, DiscoveredPeersUseTLS;
    TriedOnce(called, called', ordered, execute);
    match execute(|called| - 1, called[|called| - 1])
    case Success(slot) => AssembledOnce(r, r', inv, c, slot);
    case Failure(e) =>
      if ClassifyGo(e).eligible {
        assert r.error.attempts == r'.error.attempts;
      }
  }

  /** The outcome is decided in full: two that fit the same answers are the same, down to the attempts listed. */
  lemma EndsOnce(
    r: Result<EndorsedTransaction, SubmissionError>, called: seq<Peer>, r': Result<EndorsedTransaction, SubmissionError>, called': seq<Peer>,
    inv: Invocation, bridge: Creator, env: Environment, sign: Bytes -> Result<Bytes, string>,
    eligible: seq<Peer>, ordered: seq<Peer>, endorse: Endorser)
    requires Ends(r, called, inv, bridge, env, sign, eligible, ordered, endorse)
    requires Ends(r', called', inv, bridge, env, sign, eligible, ordered, endorse)
    ensures r == r' && called == called'
  {
    hide Request, Attempted;
    if env.nonce.Ok? && Request(inv, BuildContext(bridge, env), sign).Ok? {
      var c := BuildContext(bridge, env);
      AttemptedOnce(r, called, r', called', inv, c, eligible, ordered, Executor(endorse, Request(inv, c, sign).value));
    }
  }

  /** Each way a submission can end, and exactly when it does. */
  lemma EndsExactly(
    r: Result<EndorsedTransaction, SubmissionError>, called: seq<Peer>, inv: Invocation, bridge: Creator, env: Environment,
    sign: Bytes -> Result<Bytes, string>, eligible: seq<Peer>, ordered: seq<Peer>, endorse: Endorser)
    requires Ends(r, called, inv, bridge, env, sign, eligible, ordered, endorse)
    ensures called == [] <==> env.nonce.Err? || Request(inv, BuildContext(bridge, env), sign).Err?
    ensures (r.Err? && r.error.NotBuilt?) <==> env.nonce.Err?
    ensures (r.Err? && r.error.NotSigned?) <==> env.nonce.Ok? && Request(inv, BuildContext(bridge, env), sign).Err?
    ensures called != [] ==>
              var last := Executor(endorse, Request(inv, BuildContext(bridge, env), sign).value)(|called| - 1, called[|called| - 1]);
              && ((r.Err? && r.error.PeerRefused?) <==> last.Failure? && !ClassifyGo(last.error).eligible)
              && ((r.Err? && r.error.AllPeersFailed?) <==> FailsOver(last))
              && ((r.Err? && r.error.NotEndorsed?)
                  <==> last.Success? && !(Payloads.Agreed([last.value]) && Payloads.ProposalResult([last.value]).Ok?))
              && (r.Ok? <==> last.Success? && Payloads.Agreed([last.value]) && Payloads.ProposalResult([last.value]).Ok?)
  {
    hide Request, Tried, Transacts, AllFailedOver, ClassifyGo, BuildContext;
    if called != [] {
      var last := Executor(endorse, Request(inv, BuildContext(bridge, env), sign).value)(|called| - 1, called[|called| - 1]);
      if last.Success? {
        Payloads.ValidateExactly([last.value]);
      }
    }
  }

  /** A response to a built proposal fails to make a payload only by failing validation. */
  lemma BuildFailsAsValidate(inv: Invocation, c: Context, slot: Payloads.Slot)
    ensures var payload := Payloads.BuildPeerTransactionPayload(BuildProposal(inv, GOLANG_CHAINCODE, c), [slot]);
            match Payloads.Validate([slot])
            case Some(fault) => payload == Err(fault)
            case None => payload.Ok? && slot.Some?
  {
    var header := BuildHeader(inv, c);
    PairRoundTrip(header.channelHeader, header.signatureHeader);
    ProposalPayloadRoundTrip(BuildInput(inv, GOLANG_CHAINCODE), inv.transient);
    Payloads.ValidateExactly([slot]);
  }

  /** The transaction assembled from one peer's response. */
  method Assemble(built: Built, ghost inv: Invocation, ghost c: Context, slot: Payloads.Slot)
    returns (r: Result<EndorsedTransaction, SubmissionError>)
    requires built == Built(BuildProposal(inv, GOLANG_CHAINCODE, c), TransactionId(c))
    ensures Assembled(r, inv, c, slot)
  {
    hide MessageFields.CarriesResult, Payloads.BuildPeerTransactionPayload, Payloads.ParsePeerPayload, Payloads.ProposalResult;
    hide Payloads.Validate, BuildProposal, TransactionId;
    BuildFailsAsValidate(inv, c, slot);
    var payload := Payloads.BuildPeerTransactionPayload(built.proposal, [slot]);
    if payload.Err? {
      return Err(NotEndorsed(payload.error));
    }
    var result := Payloads.ProposalResult([slot]);
    if result.Err? {
      return Err(NotEndorsed(result.error));
    }
    Payloads.ValidateExactly([slot]);
    BuiltTransactionReadsBack(inv, GOLANG_CHAINCODE, c, [slot]);
    return Ok(EndorsedTransaction(payload.value, result.value, built.txId));
  }

  method TryPeers(
    built: Built, ghost inv: Invocation, ghost c: Context, eligible: seq<Peer>, ordered: seq<Peer>,
    execute: (nat, Peer) -> Outcome<Payloads.Slot>)
    returns (r: Result<EndorsedTransaction, SubmissionError>, called: seq<Peer>)
    requires built == Built(BuildProposal(inv, GOLANG_CHAINCODE, c), TransactionId(c)) && ordered != []
    ensures Attempted(r, called, inv, c, eligible, ordered, execute)
  {
    hide Assembled, BuildProposal, TransactionId, ClassifyGo, PeerUrls, DiscoveredPeersUseTLS;
    var execution: Execution<Payloads.Slot>;
    execution, called := ExecuteSinglePeerTargets(eligible, ordered, execute);
    match execution {
      case Refused(e) =>
        return Err(PeerRefused(e)), called;
      case Exhausted(urls, attempts) =>
        return Err(AllPeersFailed(urls, attempts)), called;
      case Returned(slot) =>
        r := Assemble(built, inv, c, slot);
    }
  }

  /** Online building, signing with the bridge signer, and trying the ordered peers. */
  method BuildAndTry(
    tx: Transaction, args: seq<Bytes>, bridge: Creator, env: Environment, sign: Bytes -> Result<Bytes, string>,
    eligible: seq<Peer>, ordered: seq<Peer>, endorse: Endorser)
    returns (r: Result<EndorsedTransaction, SubmissionError>, called: seq<Peer>)
    requires ordered != []
    modifies tx`proposalCreator
    ensures tx.proposalCreator == old(tx.proposalCreator)
    ensures Ends(r, called, old(tx.InvocationOf(args)), bridge, env, sign, eligible, ordered, endorse)
  {
    hide Attempted, BuildProposal, TransactionId;
    called := [];
    ghost var inv := tx.InvocationOf(args);
    var online := tx.BuildOnlinePeerProposal(args, bridge, env);
    if online.Err? {
      return Err(NotBuilt(online.error)), called;
    }
    var bytes := MarshalProposal(online.value.proposal);
    var signature := sign(env.sha256(bytes));
    if signature.Err? {
      return Err(NotSigned(signature.error)), called;
    }
    r, called := TryPeers(
      online.value, inv, BuildContext(bridge, env), eligible, ordered, Executor(endorse, SignedProposal(bytes, signature.value)));
  }

  /** Ordering peers that passed the checks, then building and trying. */
  method OrderAndTry(
    tx: Transaction, rr: RoundRobinState, channelName: string, eligible: Slice<Peer>, spare: nat, args: seq<Bytes>,
    bridge: Creator, env: Environment, sign: Bytes -> Result<Bytes, string>, endorse: Endorser)
    returns (r: Result<EndorsedTransaction, SubmissionError>, called: seq<Peer>)
    requires ValidSlice(eligible) && eligible.len > 0
    modifies rr, tx`proposalCreator
    ensures tx.proposalCreator == old(tx.proposalCreator)
    ensures var peers := old(View(eligible));
            var (ordered, counters) := OrderPeers(channelName, peers, old(rr.counters));
            && rr.counters == counters
            && Ends(r, called, old(tx.InvocationOf(args)), bridge, env, sign, peers, ordered, endorse)
  {
    hide Ends, OrderPeers;
    var peers := eligible.arr[eligible.off..eligible.off + eligible.len];
    OrderedLength(channelName, peers, rr.counters);
    var ordered := OrderSinglePeers(channelName, eligible, rr, spare);
    r, called := BuildAndTry(
      tx, args, bridge, env, sign, peers, ordered.arr[ordered.off..ordered.off + ordered.len], endorse);
  }

  /**
   * The whole submit up to the endorsed transaction; `called` is the trace of peers tried. Nothing is tried and no
   * counter moves when discovery is refused; otherwise the counters advance once and the rotation decides the rest.
   */
  method EndorseSinglePeer(
    tx: Transaction, rr: RoundRobinState, channelName: string, discovered: Slice<Peer>, spare: nat, args: seq<Bytes>,
    bridge: Creator, env: Environment, sign: Bytes -> Result<Bytes, string>, endorse: Endorser)
    returns (r: Result<EndorsedTransaction, SubmissionError>, called: seq<Peer>)
    requires ValidSlice(discovered)
    modifies rr, tx`proposalCreator
    ensures tx.proposalCreator == old(tx.proposalCreator)
    ensures var peers := old(View(discovered));
            match ResolveDiscovered(peers)
            case Err(e) => r == Err(Unresolved(e)) && called == [] && rr.counters == old(rr.counters)
            case Ok(_) =>
              var (ordered, counters) := OrderPeers(channelName, peers, old(rr.counters));
              && rr.counters == counters
              && Ends(r, called, old(tx.InvocationOf(args)), bridge, env, sign, peers, ordered, endorse)
  {
    hide OrderPeers, Ends, UniquenessFault;
    var resolved := ResolveDiscovered(discovered.arr[discovered.off..discovered.off + discovered.len]);
    if resolved.Err? {
      r, called := Err(Unresolved(resolved.error)), [];
    } else {
      r, called := OrderAndTry(tx, rr, channelName, discovered, spare, args, bridge, env, sign, endorse);
    }
  }
}
