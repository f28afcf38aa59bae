// The Go chaincode event stream: block responses come in, single events go out.
module Events {
  import opened Prelude

  datatype RawEvent = RawEvent(txId: string, chaincode: string, name: string, payload: Bytes)
  datatype Response = Response(block: nat, events: seq<RawEvent>)
  datatype ChaincodeEvent = ChaincodeEvent(block: nat, txId: string, chaincode: string, name: string, payload: Bytes)

  /** How the underlying stream ends, once and for all: normally or with an error. */
  datatype Ending = Eof | Broken(message: string)

  datatype Received = Event(event: ChaincodeEvent) | Ended(ending: Ending)

  function Attach(block: nat, events: seq<RawEvent>): (r: seq<ChaincodeEvent>)
    ensures |r| == |events|
    ensures forall i | 0 <= i < |r| :: r[i] == ChaincodeEvent(block, events[i].txId, events[i].chaincode, events[i].name, events[i].payload)
  {
    if events == [] then []
    else
      [ChaincodeEvent(block, events[0].txId, events[0].chaincode, events[0].name, events[0].payload)] + Attach(block, events[1..])
  }

  /** All events of a stream in order, each with its block number. */
  function Flatten(responses: seq<Response>): seq<ChaincodeEvent> {
    if responses == [] then [] else Attach(responses[0].block, responses[0].events) + Flatten(responses[1..])
  }

  /** One receive: exactly the next remaining event, or the ending when none remains. */
  ghost predicate RecvStep(before: seq<ChaincodeEvent>, r: Received, after: seq<ChaincodeEvent>, ending: Ending) {
    if before == [] then r == Ended(ending) && after == [] else r == Event(before[0]) && after == before[1..]
  }

  class ChaincodeEventStream {
    var unread: seq<Response>
    const ending: Ending
    var pending: seq<ChaincodeEvent>

    constructor (responses: seq<Response>, ending: Ending)
      ensures unread == responses && pending == [] && this.ending == ending
      ensures Remaining() == Flatten(responses)
    {
      unread, pending, this.ending := responses, [], ending;
      new;
      assert [] + Flatten(responses) == Flatten(responses);
    }

    /** Everything still to be delivered. */
    function Remaining(): seq<ChaincodeEvent>
      reads this
    {
      pending + Flatten(unread)
    }

    /** Queues the events of one response, each with the response's block number. */
    method Refill(response: Response)
      requires pending == []
      modifies this`pending
      ensures pending == Attach(response.block, response.events)
    {
      for i := 0 to |response.events|
        invariant pending == Attach(response.block, response.events)[..i]
      {
        var event := response.events[i];
        pending := pending + [ChaincodeEvent(response.block, event.txId, event.chaincode, event.name, event.payload)];
      }
    }

    /** Reads on through empty responses; terminates on every finite stream. */
    method Recv() returns (r: Received)
      modifies this
      ensures RecvStep(old(Remaining()), r, Remaining(), ending)
      ensures r.Ended? ==> pending == [] && unread == []
    {
      while true
        invariant Remaining() == old(Remaining())
        decreases |unread|, |pending|
      {
        if |pending| > 0 {
          r := Event(pending[0]);
          pending := pending[1..];
          return;
        }
        if |unread| == 0 {
          return Ended(ending);
        }
        var response := unread[0];
        unread := unread[1..];
        Refill(response);
      }
    }
  }

  /** The events among the received results. */
  function Delivered(received: seq<Received>): seq<ChaincodeEvent> {
    if received == [] then []
    else Delivered(received[..|received| - 1]) + match received[|received| - 1] case Event(e) => [e] case Ended(_) => []
  }

  /** A run of receives: `remaining[i]` is what the stream still holds before receive i. */
  ghost predicate IsRun(remaining: seq<seq<ChaincodeEvent>>, received: seq<Received>, ending: Ending) {
    && |remaining| == |received| + 1
    && forall i | 0 <= i < |received| :: RecvStep(remaining[i], received[i], remaining[i + 1], ending)
  }

  /**
   * Over any run: delivered events followed by those remaining are exactly the events of the whole stream, so none
   * is lost, repeated or reordered, and the ending is reported only once all have been delivered.
   */
  lemma NothingLost(remaining: seq<seq<ChaincodeEvent>>, received: seq<Received>, ending: Ending)
    requires IsRun(remaining, received, ending)
    ensures Delivered(received) + remaining[|received|] == remaining[0]
    ensures forall i | 0 <= i < |received| ::
              received[i] == if i < |remaining[0]| then Event(remaining[0][i]) else Ended(ending)
    ensures |Delivered(received)| == if |received| <= |remaining[0]| then |received| else |remaining[0]|
  {
    Conserved(remaining, received, ending);
    forall i | 0 <= i < |received|
      ensures received[i] == if i < |remaining[0]| then Event(remaining[0][i]) else Ended(ending)
    {
      Conserved(remaining[..i + 1], received[..i], ending);
      NextStep(remaining[0], Delivered(received[..i]), remaining[i], received[i], remaining[i + 1], ending);
    }
  }

  lemma {:induction false} Conserved(remaining: seq<seq<ChaincodeEvent>>, received: seq<Received>, ending: Ending)
    requires IsRun(remaining, received, ending)
    ensures Delivered(received) + remaining[|received|] == remaining[0]
    ensures |Delivered(received)| == if |received| <= |remaining[0]| then |received| else |remaining[0]|
  {
    if received != [] {
      var k := |received| - 1;
      Conserved(remaining[..k + 1], received[..k], ending);
      NextStep(remaining[0], Delivered(received[..k]), remaining[k], received[k], remaining[k + 1], ending);
    }
  }

  /** One more receive, seen from the whole stream. */
  lemma NextStep(
    all: seq<ChaincodeEvent>, delivered: seq<ChaincodeEvent>, before: seq<ChaincodeEvent>, r: Received, after: seq<ChaincodeEvent>, ending: Ending)
    requires delivered + before == all && RecvStep(before, r, after, ending)
    ensures before == [] ==> r == Ended(ending) && delivered + after == all
    ensures before != [] ==> r == Event(all[|delivered|]) && delivered + [all[|delivered|]] + after == all
  {
    if before != [] {
      assert all[|delivered|] == before[0];
      assert before == [before[0]] + after;
    }
  }

  /** How many events the first `i` responses hold. */
  function EventsBefore(responses: seq<Response>, i: nat): nat
    requires i <= |responses|
  {
    if i == 0 then 0 else EventsBefore(responses, i - 1) + |responses[i - 1].events|
  }

  /** Event j of response i comes after the events of all earlier responses, with its own response's block number, and nothing else is there. */
  lemma {:induction false} FlattenedAt(responses: seq<Response>, i: nat, j: nat)
    requires i < |responses| && j < |responses[i].events|
    ensures |Flatten(responses)| == EventsBefore(responses, |responses|)
    ensures var k, raw := EventsBefore(responses, i) + j, responses[i].events[j];
            && k < |Flatten(responses)|
            && Flatten(responses)[k] == ChaincodeEvent(responses[i].block, raw.txId, raw.chaincode, raw.name, raw.payload)
  {
    var tail := responses[1..];
    FlattenedLength(responses);
    if i > 0 {
      FlattenedAt(tail, i - 1, j);
      EventsBeforeTail(responses, i);
    }
  }

  lemma {:induction false} EventsBeforeTail(responses: seq<Response>, i: nat)
    requires 0 < i <= |responses|
    ensures EventsBefore(responses, i) == |responses[0].events| + EventsBefore(responses[1..], i - 1)
  {
    if i > 1 {
      EventsBeforeTail(responses, i - 1);
    }
  }

  lemma {:induction false} FlattenedLength(responses: seq<Response>)
    ensures |Flatten(responses)| == EventsBefore(responses, |responses|)
  {
    if responses != [] {
      FlattenedLength(responses[1..]);
      EventsBeforeTail(responses, |responses|);
    }
  }
}
