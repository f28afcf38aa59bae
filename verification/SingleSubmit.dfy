// The TypeScript single-peer submit: endorsement, one envelope to an orderer, and failover around both.
// The orderer stream is any sequence of data, error and end events.
module SingleSubmit {
  import opened Prelude
  import opened Failover
  import opened EndpointIdentity

  const ORDERER_SUCCESS := 200

  datatype StreamEvent = Data(status: int, info: string) | Error(message: string) | End

  datatype Reply = Accepted | Rejected(error: TsError)

  function SubmitFailure(message: string): TsError {
    TsError("SubmitError", message, None)
  }

  function StatusText(status: int): string {
    if status < 0 then "-" + Decimal(-status) else Decimal(status)
  }

  function EventReply(event: StreamEvent): Reply {
    match event
    case Data(status, info) =>
      if status == ORDERER_SUCCESS then Accepted
      else Rejected(SubmitFailure("orderer rejected transaction: status=" + StatusText(status) + " info=" + info))
    case Error(message) => Rejected(SubmitFailure(message))
    case End => Rejected(SubmitFailure("orderer broadcast ended without response"))
  }

  /** What each event of the stream means: success is status 200 and nothing else, and every failure is a SubmitError. */
  lemma EventReplyExactly(event: StreamEvent)
    ensures EventReply(event) == Accepted <==> event.Data? && event.status == 200
    ensures EventReply(event).Rejected? ==>
              var e := EventReply(event).error;
              && e.name == "SubmitError" && e.code == None
              && e.message ==
                   match event
                   case Data(status, info) => "orderer rejected transaction: status=" + StatusText(status) + " info=" + info
                   case Error(message) => message
                   case End => "orderer broadcast ended without response"
    ensures event.Data? && event.status >= 0 ==> AllDigits(StatusText(event.status)) && DecimalValue(StatusText(event.status)) == event.status
  {
    if event.Data? && event.status >= 0 {
      DecimalReads(event.status);
    }
  }

  /** The promise around one broadcast stream: its first reply settles it and ends the stream. */
  class Broadcast {
    var settled: bool
    var reply: Option<Reply>
    var streamEnds: nat

    ghost predicate Valid()
      reads this
    {
      (settled <==> reply.Some?) && streamEnds == if settled then 1 else 0
    }

    constructor ()
      ensures Valid() && !settled
    {
      settled, reply, streamEnds := false, None, 0;
    }

    method Finish(r: Reply)
      requires Valid()
      modifies this
      ensures Valid() && settled
      ensures reply == if old(settled) then old(reply) else Some(r)
    {
      if settled {
        return;
      }
      settled := true;
      streamEnds := streamEnds + 1;
      reply := Some(r);
    }

    /** However many events arrive and in whatever order, the first one decides and the stream is ended once. */
    method Deliver(events: seq<StreamEvent>)
      requires Valid() && !settled
      modifies this
      ensures Valid()
      ensures reply == if events == [] then None else Some(EventReply(events[0]))
      ensures streamEnds == if events == [] then 0 else 1
    {
      for i := 0 to |events|
        invariant Valid()
        invariant reply == if i == 0 then None else Some(EventReply(events[0]))
      {
        Finish(EventReply(events[i]));
      }
    }
  }

  /**
   * What happens when one peer is tried. Endorsing, building, signing, finding an orderer or the write itself may
   * throw first; otherwise the envelope is written, and then the stream delivers its events.
   */
  datatype Script = FailsBeforeWrite(error: TsError) | Written(events: seq<StreamEvent>)

  datatype Candidate = Candidate(endpoint: string, script: Script)

  datatype SubmitResult =
    | Submitted
    | Thrown(error: TsError)
    | AllFailed(attempts: seq<Attempt>)
    | Pending

  /** An error after a write is a SubmitError whatever its text says, and never fails over. */
  lemma WrittenNeverFailsOver(event: StreamEvent)
    ensures EventReply(event).Rejected? ==>
              && EventReply(event).error.name == "SubmitError"
              && ClassifyTs(EventReply(event).error) == Decision(false, NonRetryable, EventReply(event).error.message)
  {
  }

  ghost predicate FailsOverBeforeWrite(c: Candidate) {
    c.script.FailsBeforeWrite? && TsFailsOver(c.script.error)
  }

  /** The record of a failed attempt: which peer, why, and the failover decision. */
  function Failed(c: Candidate, error: TsError): Attempt {
    Attempt(c.endpoint, error.message, ClassifyTs(error))
  }

  /**
   * Tries the peers in order. `tried` counts the peers tried, `writes` lists the peers for which an envelope reached
   * an orderer stream. At most one envelope is written, and after it no further peer is tried.
   */
  method SubmitToSinglePeer(peers: seq<Candidate>) returns (r: SubmitResult, tried: nat, writes: seq<nat>)
    ensures tried <= |peers| && |writes| <= 1
    ensures forall i | 0 <= i < tried - 1 :: FailsOverBeforeWrite(peers[i])
    ensures tried < |peers| ==> tried > 0 && !FailsOverBeforeWrite(peers[tried - 1])
    ensures writes == if tried > 0 && peers[tried - 1].script.Written? then [tried - 1] else []
    ensures match r
            case Submitted => writes != [] && var events := peers[writes[0]].script.events; events != [] && EventReply(events[0]) == Accepted
            case Pending => writes != [] && peers[writes[0]].script.events == []
            case Thrown(e) =>
              && tried > 0 && !TsFailsOver(e)
              && if writes == [] then peers[tried - 1].script == FailsBeforeWrite(e)
                 else var events := peers[writes[0]].script.events; events != [] && EventReply(events[0]) == Rejected(e)
            case AllFailed(attempts) =>
              && tried == |peers| && writes == [] && |attempts| == |peers|
              && forall i | 0 <= i < |peers| ::
                   && FailsOverBeforeWrite(peers[i])
                   && attempts[i] == Attempt(peers[i].endpoint, peers[i].script.error.message, ClassifyTs(peers[i].script.error))
  {
    hide ClassifyTs, TsFailsOver;
    tried, writes := 0, [];
    var attempts: seq<Attempt> := [];
    while tried < |peers|
      invariant tried <= |peers| && writes == [] && |attempts| == tried
      invariant forall i | 0 <= i < tried :: FailsOverBeforeWrite(peers[i]) && attempts[i] == Failed(peers[i], peers[i].script.error)
    {
      var peer := peers[tried];
      tried := tried + 1;
      var failure: TsError;
      match peer.script {
        case FailsBeforeWrite(e) =>
          failure := e;
        case Written(events) =>
          writes := writes + [tried - 1];
          var broadcast := new Broadcast();
          broadcast.Deliver(events);
          match broadcast.reply {
            case None =>
              return Pending, tried, writes;
            case Some(Accepted) =>
              return Submitted, tried, writes;
            case Some(Rejected(e)) =>
              WrittenNeverFailsOver(events[0]);
              failure := e;
          }
      }
      TsEligibleExactly(failure);
      var attempt := Failed(peer, failure);
      attempts := attempts + [attempt];
      if !attempt.failover.eligible {
        return Thrown(failure), tried, writes;
      }
    }
    return AllFailed(attempts), tried, writes;
  }
}
