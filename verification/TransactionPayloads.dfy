// From endorsed proposal responses to the transaction payload that is signed and submitted,
// and reading such a payload back.
module TransactionPayloads {
  import opened Prelude
  import opened Wire
  import opened FabricMessages
  import MessageFields

  datatype Response = Response(status: int, message: Bytes)
  /** The body of a proposal response; `response` and `endorsement` may be absent. */
  datatype ProposalResponse = ProposalResponse(response: Option<Response>, payload: Bytes, endorsement: Option<Endorsement>)
  /** One slot of a response list: a response may be missing altogether. */
  type Slot = Option<ProposalResponse>

  datatype PayloadError =
    | NoResponses | EmptyResponse | Unsuccessful(status: int) | NoEndorsement | PayloadMismatch
    | MalformedHeader | MalformedProposalPayload | MalformedResponsePayload
    | MalformedPayload | MalformedChannelHeader | MalformedTransaction | NoActions

  function Status(r: ProposalResponse): int {
    match r.response
    case None => 0
    case Some(response) => response.status
  }

  /** Why one response is unacceptable, if it is. */
  function ResponseFault(slot: Slot): Option<PayloadError> {
    match slot
    case None => Some(EmptyResponse)
    case Some(r) =>
      if Status(r) < 200 || Status(r) >= 400 then Some(Unsuccessful(Status(r)))
      else if r.endorsement.None? then Some(NoEndorsement)
      else None
  }

  /** A response that may take part in a transaction whose agreed response payload is `payload`. */
  ghost predicate Acceptable(slot: Slot, payload: Bytes) {
    && slot.Some? && slot.value.response.Some? && 200 <= slot.value.response.value.status < 400
    && slot.value.endorsement.Some? && slot.value.payload == payload
  }

  /** Some payload makes every one of the responses acceptable. */
  ghost predicate Agreed(slots: seq<Slot>) {
    slots != [] && slots[0].Some? && forall i | 0 <= i < |slots| :: Acceptable(slots[i], slots[0].value.payload)
  }

  /** The index of the first response at or after `from` that breaks validation, and its fault. */
  function FirstFault(slots: seq<Slot>, from: nat): Option<PayloadError>
    requires 0 < from <= |slots| && slots[0].Some?
    decreases |slots| - from
  {
    if from == |slots| then None
    else if ResponseFault(slots[from]).Some? then ResponseFault(slots[from])
    else if slots[from].value.payload != slots[0].value.payload then Some(PayloadMismatch)
    else FirstFault(slots, from + 1)
  }

  function Validate(slots: seq<Slot>): Option<PayloadError> {
    if slots == [] then Some(NoResponses)
    else if ResponseFault(slots[0]).Some? then ResponseFault(slots[0])
    else FirstFault(slots, 1)
  }

  lemma {:induction false} FirstFaultIsNone(slots: seq<Slot>, from: nat)
    requires 0 < from <= |slots| && slots[0].Some?
    ensures FirstFault(slots, from) == None
       <==> forall i | from <= i < |slots| :: Acceptable(slots[i], slots[0].value.payload)
    decreases |slots| - from
  {
    if from < |slots| {
      FirstFaultIsNone(slots, from + 1);
    }
  }

  /** Response i is the first at fault, and this is its fault: a missing response, its status, no endorsement, another payload. */
  ghost predicate FirstAtFault(slots: seq<Slot>, i: nat, fault: PayloadError) {
    && i < |slots|
    && (i > 0 ==> slots[0].Some? && forall j | 0 <= j < i :: Acceptable(slots[j], slots[0].value.payload))
    && match slots[i]
       case None => fault == EmptyResponse
       case Some(r) =>
         var status := if r.response.None? then 0 else r.response.value.status;
         if status < 200 || 400 <= status then fault == Unsuccessful(status)
         else if r.endorsement.None? then fault == NoEndorsement
         else i > 0 && r.payload != slots[0].value.payload && fault == PayloadMismatch
  }

  lemma {:induction false} FirstFaultIsFirst(slots: seq<Slot>, from: nat, fault: PayloadError)
    requires 0 < from <= |slots| && slots[0].Some? && FirstFault(slots, from) == Some(fault)
    requires forall j | 0 <= j < from :: Acceptable(slots[j], slots[0].value.payload)
    ensures exists i :: FirstAtFault(slots, i, fault)
    decreases |slots| - from
  {
    if FirstAtFault(slots, from, fault) {
    } else {
      FirstFaultIsFirst(slots, from + 1, fault);
    }
  }

  /** The fault reported is that of the first response at fault; an empty list is reported as such. */
  lemma FaultExactly(slots: seq<Slot>)
    ensures Validate(slots) == Some(NoResponses) <==> slots == []
    ensures slots != [] && Validate(slots).Some? ==> exists i :: FirstAtFault(slots, i, Validate(slots).value)
  {
    if slots != [] && Validate(slots).Some? {
      if ResponseFault(slots[0]).Some? {
        assert FirstAtFault(slots, 0, Validate(slots).value);
      } else {
        FirstFaultIsFirst(slots, 1, Validate(slots).value);
      }
      var i: nat :| FirstAtFault(slots, i, Validate(slots).value);
    }
  }

  /** Validation passes exactly when every response is successful, endorsed, and carries the first one's payload. */
  lemma ValidateExactly(slots: seq<Slot>)
    ensures Validate(slots) == None <==> Agreed(slots)
  {
    if slots != [] && ResponseFault(slots[0]) == None {
      FirstFaultIsNone(slots, 1);
    }
  }

  method ValidatePeerProposalResponses(slots: seq<Slot>) returns (fault: Option<PayloadError>)
    ensures fault == Validate(slots)
    ensures fault == None <==> Agreed(slots)
  {
    ValidateExactly(slots);
    if |slots| == 0 {
      return Some(NoResponses);
    }
    fault := ResponseFault(slots[0]);
    if fault.Some? {
      return;
    }
    var firstPayload := slots[0].value.payload;
    for i := 1 to |slots|
      invariant Validate(slots) == FirstFault(slots, i)
    {
      fault := ResponseFault(slots[i]);
      if fault.Some? {
        return;
      }
      if slots[i].value.payload != firstPayload {
        return Some(PayloadMismatch);
      }
    }
    return None;
  }

  /******* Building *******/

  predicate AllEndorsed(slots: seq<Slot>) {
    forall slot | slot in slots :: slot.Some? && slot.value.endorsement.Some?
  }

  function Endorsements(slots: seq<Slot>): (es: seq<Endorsement>)
    requires AllEndorsed(slots)
    ensures |es| == |slots|
    ensures forall i | 0 <= i < |slots| :: es[i] == slots[i].value.endorsement.value
  {
    if slots == [] then [] else [slots[0].value.endorsement.value] + Endorsements(slots[1..])
  }

  function ActionOf(input: Bytes, slots: seq<Slot>): ActionPayload
    requires slots != [] && AllEndorsed(slots)
  {
    ActionPayload(MarshalProposalPayload(input, []), slots[0].value.payload, Endorsements(slots))
  }

  function PayloadOf(header: Header, input: Bytes, slots: seq<Slot>): Payload
    requires slots != [] && AllEndorsed(slots)
  {
    Payload(header, MarshalTransaction(TransactionAction(header.signatureHeader, MarshalActionPayload(ActionOf(input, slots)))))
  }

  /** Go buildPeerTransactionPayload: parse failures come before response validation. */
  function BuildPeerTransactionPayload(proposal: Proposal, slots: seq<Slot>): Result<Bytes, PayloadError> {
    if slots == [] then Err(NoResponses)
    else
      match UnmarshalHeader(proposal.header)
      case None => Err(MalformedHeader)
      case Some(header) =>
        match UnmarshalProposalInput(proposal.payload)
        case None => Err(MalformedProposalPayload)
        case Some(input) =>
          match Validate(slots)
          case Some(fault) => Err(fault)
          case None =>
            ValidateExactly(slots);
            Ok(MarshalPayload(PayloadOf(header, input, slots)))
  }

  function ProposalResult(slots: seq<Slot>): Result<Bytes, PayloadError>
    requires slots != [] ==> slots[0].Some?
  {
    if slots == [] then Err(NoResponses)
    else
      match UnmarshalResult(slots[0].value.payload)
      case None => Err(MalformedResponsePayload)
      case Some(result) => Ok(result)
  }

  /******* Reading *******/

  datatype TransactionView = TransactionView(channel: Bytes, txId: Bytes, result: Result<Bytes, PayloadError>)

  function PayloadAction(data: Bytes): Result<ActionPayload, PayloadError> {
    match UnmarshalFirstAction(data)
    case None => Err(MalformedTransaction)
    case Some(None) => Err(NoActions)
    case Some(Some(action)) =>
      match UnmarshalActionPayload(action.payload)
      case None => Err(MalformedTransaction)
      case Some(payload) => Ok(payload)
  }

  function PayloadResult(payload: Payload): Result<Bytes, PayloadError> {
    var action :- PayloadAction(payload.data);
    match UnmarshalResult(action.responsePayload)
    case None => Err(MalformedResponsePayload)
    case Some(result) => Ok(result)
  }

  /** The channel and transaction id are reported even when the result cannot be read. */
  function ParsePeerPayload(bs: Bytes): Result<TransactionView, PayloadError> {
    match UnmarshalPayload(bs)
    case None => Err(MalformedPayload)
    case Some(payload) =>
      match UnmarshalChannelHeader(payload.header.channelHeader)
      case None => Err(MalformedChannelHeader)
      case Some(channelHeader) => Ok(TransactionView(channelHeader.channelId, channelHeader.txId, PayloadResult(payload)))
  }

  lemma BuiltAction(header: Header, input: Bytes, slots: seq<Slot>)
    requires slots != [] && AllEndorsed(slots)
    ensures UnmarshalPayload(MarshalPayload(PayloadOf(header, input, slots))) == Some(PayloadOf(header, input, slots))
    ensures PayloadAction(PayloadOf(header, input, slots).data) == Ok(ActionOf(input, slots))
    ensures var first := UnmarshalFirstAction(PayloadOf(header, input, slots).data);
            first.Some? && first.value.Some? && first.value.value.header == header.signatureHeader
  {
    var action := ActionOf(input, slots);
    PayloadRoundTrip(PayloadOf(header, input, slots));
    TransactionRoundTrip(TransactionAction(header.signatureHeader, MarshalActionPayload(action)));
    ActionPayloadRoundTrip(action);
  }

  lemma BuiltView(header: Header, input: Bytes, slots: seq<Slot>)
    requires slots != [] && AllEndorsed(slots)
    ensures ParsePeerPayload(MarshalPayload(PayloadOf(header, input, slots))) ==
              match UnmarshalChannelHeader(header.channelHeader)
              case None => Err(MalformedChannelHeader)
              case Some(ch) => Ok(TransactionView(ch.channelId, ch.txId, ProposalResult(slots)))
  {
    BuiltAction(header, input, slots);
    assert slots[0] in slots;
  }

  /**
   * Through all nested encodings: a built payload reads back with the channel and transaction id that the
   * proposal's own header gives, and with the result that is read directly from the responses: the payload of the
   * chaincode response that the agreed payload carries.
   */
  lemma ParseInvertsBuild(proposal: Proposal, slots: seq<Slot>)
    requires BuildPeerTransactionPayload(proposal, slots).Ok?
    ensures Agreed(slots) && UnmarshalHeader(proposal.header).Some?
    ensures var view := ParsePeerPayload(BuildPeerTransactionPayload(proposal, slots).value);
            match UnmarshalChannelHeader(UnmarshalHeader(proposal.header).value.channelHeader)
            case None => view == Err(MalformedChannelHeader)
            case Some(ch) => view == Ok(TransactionView(ch.channelId, ch.txId, ProposalResult(slots)))
    ensures forall result | MessageFields.CarriesResult(slots[0].value.payload, result) :: ProposalResult(slots) == Ok(result)
  {
    hide MessageFields.CarriesResult;
    ValidateExactly(slots);
    forall result | MessageFields.CarriesResult(slots[0].value.payload, result)
      ensures ProposalResult(slots) == Ok(result)
    {
      MessageFields.CarriedIsRead(slots[0].value.payload, result);
    }
    BuiltView(UnmarshalHeader(proposal.header).value, UnmarshalProposalInput(proposal.payload).value, slots);
  }

  /** Building succeeds exactly on a parseable proposal and an agreed list of responses. */
  lemma BuildSucceedsExactly(proposal: Proposal, slots: seq<Slot>)
    ensures BuildPeerTransactionPayload(proposal, slots).Ok?
       <==> && Agreed(slots)
            && UnmarshalHeader(proposal.header).Some?
            && UnmarshalProposalInput(proposal.payload).Some?
  {
    ValidateExactly(slots);
  }

  /** The error of a failed build: no responses, then the header, then the proposal payload, then the first fault. */
  lemma BuildErrorExactly(proposal: Proposal, slots: seq<Slot>)
    requires BuildPeerTransactionPayload(proposal, slots).Err?
    ensures var e := BuildPeerTransactionPayload(proposal, slots).error;
            if slots == [] then e == NoResponses
            else if UnmarshalHeader(proposal.header).None? then e == MalformedHeader
            else if UnmarshalProposalInput(proposal.payload).None? then e == MalformedProposalPayload
            else exists i :: FirstAtFault(slots, i, e)
  {
    FaultExactly(slots);
  }

  /** Why a payload cannot be read: it is no payload, its channel header is none, its data has no action, the result in it is none. */
  lemma UnreadableExactly(bs: Bytes)
    ensures ProposalResult([]) == Err(NoResponses)
    ensures ParsePeerPayload(bs) == Err(MalformedPayload) <==> UnmarshalPayload(bs) == None
    ensures var payload := UnmarshalPayload(bs);
            payload.Some? ==>
              && (ParsePeerPayload(bs) == Err(MalformedChannelHeader) <==> UnmarshalChannelHeader(payload.value.header.channelHeader) == None)
              && (payload.value.data == [] ==> PayloadResult(payload.value) == Err(NoActions))
              && (UnmarshalFirstAction(payload.value.data) == None ==> PayloadResult(payload.value) == Err(MalformedTransaction))
              && (PayloadResult(payload.value) == Err(MalformedResponsePayload)
                  <==> var action := PayloadAction(payload.value.data); action.Ok? && UnmarshalResult(action.value.responsePayload) == None)
  {
  }

  /** The payload holds exactly the endorsements of all responses, in response order, over the agreed payload. */
  lemma EndorsementsAreExact(proposal: Proposal, slots: seq<Slot>)
    requires BuildPeerTransactionPayload(proposal, slots).Ok?
    ensures var payload := UnmarshalPayload(BuildPeerTransactionPayload(proposal, slots).value);
            && payload.Some?
            && Some(payload.value.header) == UnmarshalHeader(proposal.header)
            && PayloadAction(payload.value.data).Ok?
            && UnmarshalFirstAction(payload.value.data).value.value.header == payload.value.header.signatureHeader
            && var action := PayloadAction(payload.value.data).value;
            && |action.endorsements| == |slots|
            && (forall i | 0 <= i < |slots| ::
                  slots[i].Some? && slots[i].value.endorsement == Some(action.endorsements[i])
                  && slots[i].value.payload == action.responsePayload)
            && UnmarshalProposalInput(action.proposalPayload) == UnmarshalProposalInput(proposal.payload)
  {
    ValidateExactly(slots);
    var input := UnmarshalProposalInput(proposal.payload).value;
    BuiltAction(UnmarshalHeader(proposal.header).value, input, slots);
    ProposalPayloadRoundTrip(input, []);
  }

  /** Two proposals that differ only in their transient maps give identical transaction bytes. */
  lemma TransientIsDropped(header: Bytes, input: Bytes, transient: seq<(Bytes, Bytes)>, transient': seq<(Bytes, Bytes)>, slots: seq<Slot>)
    ensures BuildPeerTransactionPayload(Proposal(header, MarshalProposalPayload(input, transient)), slots)
         == BuildPeerTransactionPayload(Proposal(header, MarshalProposalPayload(input, transient')), slots)
  {
    ProposalPayloadRoundTrip(input, transient);
    ProposalPayloadRoundTrip(input, transient');
  }

  /******* The TypeScript builder *******/

  /** The responses that carry an endorsement, in order. */
  function EndorsedOnly(responses: seq<ProposalResponse>): (slots: seq<Slot>)
    ensures AllEndorsed(slots)
  {
    if responses == [] then []
    else (if responses[0].endorsement.Some? then [Some(responses[0])] else []) + EndorsedOnly(responses[1..])
  }

  /** One more response adds itself when it is endorsed, and nothing otherwise. */
  lemma {:induction false} EndorsedOnlySnoc(responses: seq<ProposalResponse>, r: ProposalResponse)
    ensures EndorsedOnly(responses + [r]) == EndorsedOnly(responses) + if r.endorsement.Some? then [Some(r)] else []
  {
    if responses == [] {
      assert responses + [r] == [r];
    } else {
      EndorsedOnlySnoc(responses[1..], r);
      assert (responses + [r])[1..] == responses[1..] + [r];
    }
  }

  /** No validation here: responses without an endorsement are dropped, the first kept one gives the payload. */
  function TsBuildPeerTransactionPayload(proposal: Proposal, responses: seq<ProposalResponse>): Result<Bytes, PayloadError> {
    var slots := EndorsedOnly(responses);
    if slots == [] then Err(NoEndorsement)
    else
      match UnmarshalHeader(proposal.header)
      case None => Err(MalformedHeader)
      case Some(header) =>
        match UnmarshalProposalInput(proposal.payload)
        case None => Err(MalformedProposalPayload)
        case Some(input) => Ok(MarshalPayload(PayloadOf(header, input, slots)))
  }

  /** Whatever responses went in, the TypeScript payload reads back with the proposal's header and the first endorsed result. */
  lemma TsParseInvertsBuild(proposal: Proposal, responses: seq<ProposalResponse>)
    requires TsBuildPeerTransactionPayload(proposal, responses).Ok?
    ensures EndorsedOnly(responses) != [] && UnmarshalHeader(proposal.header).Some?
    ensures var view := ParsePeerPayload(TsBuildPeerTransactionPayload(proposal, responses).value);
            match UnmarshalChannelHeader(UnmarshalHeader(proposal.header).value.channelHeader)
            case None => view == Err(MalformedChannelHeader)
            case Some(ch) => view == Ok(TransactionView(ch.channelId, ch.txId, ProposalResult(EndorsedOnly(responses))))
  {
    assert EndorsedOnly(responses)[0] in EndorsedOnly(responses);
    BuiltView(UnmarshalHeader(proposal.header).value, UnmarshalProposalInput(proposal.payload).value, EndorsedOnly(responses));
  }

  /** The error of a failed TypeScript build. */
  lemma TsBuildErrorExactly(proposal: Proposal, responses: seq<ProposalResponse>)
    ensures TsBuildPeerTransactionPayload(proposal, responses).Ok?
       <==> && (exists r | r in responses :: r.endorsement.Some?)
            && UnmarshalHeader(proposal.header).Some? && UnmarshalProposalInput(proposal.payload).Some?
    ensures TsBuildPeerTransactionPayload(proposal, responses).Err? ==>
              TsBuildPeerTransactionPayload(proposal, responses).error ==
                if forall r | r in responses :: r.endorsement.None? then NoEndorsement
                else if UnmarshalHeader(proposal.header).None? then MalformedHeader
                else MalformedProposalPayload
  {
    NoneEndorsed(responses);
  }

  lemma {:induction false} NoneEndorsed(responses: seq<ProposalResponse>)
    ensures EndorsedOnly(responses) == [] <==> forall r | r in responses :: r.endorsement.None?
  {
    if responses != [] {
      NoneEndorsed(responses[1..]);
      assert responses == [responses[0]] + responses[1..];
    }
  }

  /** The TypeScript payload holds exactly the endorsements of the endorsed responses, in order, over the first one's payload. */
  lemma TsEndorsementsAreExact(proposal: Proposal, responses: seq<ProposalResponse>)
    requires TsBuildPeerTransactionPayload(proposal, responses).Ok?
    ensures var payload, slots := UnmarshalPayload(TsBuildPeerTransactionPayload(proposal, responses).value), EndorsedOnly(responses);
            && slots != [] && payload.Some?
            && Some(payload.value.header) == UnmarshalHeader(proposal.header)
            && PayloadAction(payload.value.data).Ok?
            && UnmarshalFirstAction(payload.value.data).value.value.header == payload.value.header.signatureHeader
            && var action := PayloadAction(payload.value.data).value;
            && action.responsePayload == slots[0].value.payload
            && |action.endorsements| == |slots|
            && (forall i | 0 <= i < |slots| :: slots[i].value.endorsement == Some(action.endorsements[i]))
            && UnmarshalProposalInput(action.proposalPayload) == UnmarshalProposalInput(proposal.payload)
  {
    var input, slots := UnmarshalProposalInput(proposal.payload).value, EndorsedOnly(responses);
    assert slots[0] in slots;
    assert forall i | 0 <= i < |slots| :: slots[i] in slots;
    BuiltAction(UnmarshalHeader(proposal.header).value, input, slots);
    ProposalPayloadRoundTrip(input, []);
  }

  function Slots(responses: seq<ProposalResponse>): (slots: seq<Slot>)
    ensures |slots| == |responses| && forall i | 0 <= i < |slots| :: slots[i] == Some(responses[i])
  {
    if responses == [] then [] else [Some(responses[0])] + Slots(responses[1..])
  }

  lemma {:induction false} EndorsedOnlyKeepsAll(responses: seq<ProposalResponse>)
    requires forall r | r in responses :: r.endorsement.Some?
    ensures EndorsedOnly(responses) == Slots(responses)
  {
    if responses != [] {
      EndorsedOnlyKeepsAll(responses[1..]);
    }
  }

  /** On responses that agree, the TypeScript and the Go builder give the same bytes. */
  lemma BuildersAgree(proposal: Proposal, responses: seq<ProposalResponse>)
    requires Agreed(Slots(responses))
    ensures TsBuildPeerTransactionPayload(proposal, responses) == BuildPeerTransactionPayload(proposal, Slots(responses))
  {
    var slots := Slots(responses);
    forall r | r in responses
      ensures r.endorsement.Some?
    {
      var i :| 0 <= i < |responses| && responses[i] == r;
      assert Acceptable(slots[i], slots[0].value.payload);
    }
    EndorsedOnlyKeepsAll(responses);
    ValidateExactly(slots);
  }
}
