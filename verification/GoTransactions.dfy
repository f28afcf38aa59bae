// The Go transaction object: its setters, and building proposals from it, online and offline.
module GoTransactions {
  import opened Prelude
  import opened FabricMessages
  import opened Proposals
  import opened Utf8
  import GoProposals

  datatype Targeting = GatewayDefault | SinglePeer | EndorsingPeers(names: seq<string>)

  datatype BuildError = NoProposalCreator | NoNonce(message: string)
  datatype TargetingError = NoEndorsingPeers

  /** What building draws from outside: random bytes that may fail to come, the clock and SHA-256. */
  datatype Environment = Environment(nonce: Result<Bytes, string>, now: Timestamp, sha256: Bytes -> Bytes)

  datatype Built = Built(proposal: Proposal, txId: Bytes)

  function BuildAs(inv: Invocation, chaincodeType: nat, creator: Option<Creator>, env: Environment): Result<Built, BuildError> {
    match (creator, env.nonce)
    case (None, _) => Err(NoProposalCreator)
    case (_, Err(message)) => Err(NoNonce(message))
    case (Some(identity), Ok(nonce)) =>
      var c := Context(identity, nonce, env.now, env.sha256);
      Ok(Built(BuildProposal(inv, chaincodeType, c), TransactionId(c)))
  }

  /** Building fails without a creator, or else without a nonce, and then says why. */
  lemma BuildFailsExactly(inv: Invocation, chaincodeType: nat, creator: Option<Creator>, env: Environment)
    ensures var r := BuildAs(inv, chaincodeType, creator, env);
            && (r == Err(NoProposalCreator) <==> creator == None)
            && (creator != None && env.nonce.Err? ==> r == Err(NoNonce(env.nonce.error)))
            && (r.Ok? <==> creator != None && env.nonce.Ok?)
  {
  }

  class Transaction {
    const channel: Bytes
    const chaincode: Bytes
    const name: Bytes
    var targeting: Targeting
    var transient: seq<(Bytes, Bytes)>
    var proposalCreator: Option<Creator>

    constructor (channel: Bytes, chaincode: Bytes, name: Bytes)
      ensures targeting == GatewayDefault && transient == [] && proposalCreator == None
      ensures this.channel == channel && this.chaincode == chaincode && this.name == name
    {
      this.channel, this.chaincode, this.name := channel, chaincode, name;
      targeting, transient, proposalCreator := GatewayDefault, [], None;
    }

    /** Names are kept as given; an empty list is refused and changes nothing. */
    method UseEndorsingPeers(peers: seq<string>) returns (error: Option<TargetingError>)
      modifies this`targeting
      ensures error == if peers == [] then Some(NoEndorsingPeers) else None
      ensures targeting == if peers == [] then old(targeting) else EndorsingPeers(peers)
    {
      if |peers| == 0 {
        return Some(NoEndorsingPeers);
      }
      targeting := EndorsingPeers(peers);
      return None;
    }

    method UseSinglePeer()
      modifies this`targeting
      ensures targeting == SinglePeer
    {
      targeting := SinglePeer;
    }

    method SetTransientData(data: seq<(Bytes, Bytes)>)
      modifies this`transient
      ensures transient == data
    {
      transient := data;
    }

    method SetProposalCreator(creator: Creator)
      modifies this`proposalCreator
      ensures proposalCreator == Some(creator)
    {
      proposalCreator := Some(creator);
    }

    /** The invocation holds the transaction's own channel, chaincode, name and transient data, and the given arguments. */
    function InvocationOf(args: seq<Bytes>): (inv: Invocation)
      reads this
      ensures inv.channel == channel && inv.chaincode == chaincode && inv.transaction == name
      ensures inv.args == args && inv.transient == transient
    {
      Invocation(channel, chaincode, name, args, transient)
    }

    method BuildTransactionProposal(args: seq<Bytes>, chaincodeType: nat, env: Environment) returns (r: Result<Built, BuildError>)
      ensures r == BuildAs(InvocationOf(args), chaincodeType, proposalCreator, env)
    {
      if proposalCreator.None? {
        return Err(NoProposalCreator);
      }
      if env.nonce.Err? {
        return Err(NoNonce(env.nonce.error));
      }
      var c := Context(proposalCreator.value, env.nonce.value, env.now, env.sha256);
      return Ok(Built(BuildProposal(InvocationOf(args), chaincodeType, c), TransactionId(c)));
    }

    /**
     * Online building: the proposal is the bridge identity's, whatever creator the transaction holds, and that
     * creator is back in place afterwards on every path.
     */
    method BuildOnlinePeerProposal(args: seq<Bytes>, bridge: Creator, env: Environment) returns (r: Result<Built, BuildError>)
      modifies this`proposalCreator
      ensures proposalCreator == old(proposalCreator)
      ensures r == BuildAs(old(InvocationOf(args)), GOLANG_CHAINCODE, Some(bridge), env)
      ensures r.Ok? <==> env.nonce.Ok?
    {
      var previous := proposalCreator;
      proposalCreator := Some(bridge);
      r := BuildTransactionProposal(args, GOLANG_CHAINCODE, env);
      proposalCreator := previous;
    }
  }

  /**
   * A built proposal reads back with its channel and chaincode and the returned transaction id. The Go reader gives
   * the identity back too, unless the MSP id is not valid UTF-8 or the header bytes are; an ordinary certificate rules
   * the latter out.
   */
  lemma BuiltReadsBack(inv: Invocation, chaincodeType: nat, identity: Creator, env: Environment)
    requires BuildAs(inv, chaincodeType, Some(identity), env).Ok?
    ensures var built := BuildAs(inv, chaincodeType, Some(identity), env).value;
            var bs := MarshalProposal(built.proposal);
            && ParsePeerProposal(bs) == Some(ProposalView(inv.channel, inv.chaincode, built.txId))
            && (GoProposals.ReadCreator(bs) == Some(identity)
                <==> if ValidUtf8(built.proposal.header) then identity == Creator([], []) else ValidUtf8(identity.mspId))
            && (|identity.certificate| >= 128 && |identity.mspId| + |identity.certificate| + |env.nonce.value| <= 16000 ==>
                  !ValidUtf8(built.proposal.header))
  {
    hide ValidUtf8, GoProposals.ReadCreator, GoProposals.UnwrapProposalBytes;
    var c := Context(identity, env.nonce.value, env.now, env.sha256);
    ParseInvertsBuild(inv, chaincodeType, c);
    GoProposals.CreatorReadsExactly(inv, chaincodeType, c);
    if |identity.certificate| >= 128 && |identity.mspId| + |identity.certificate| + |env.nonce.value| <= 16000 {
      GoProposals.UnwrapOrdinary(inv, chaincodeType, c);
      GoProposals.UnwrapRaw(inv, chaincodeType, c);
    }
  }
}
