// The explicit path as a whole: concurrent endorsement, then the transaction payload.
module ExplicitSubmission {
  import opened Prelude
  import opened FabricMessages
  import opened Proposals
  import opened TransactionPayloads
  import opened ExplicitEndorsement
  import SinglePeerSubmission

  /**
   * However the endorsement calls interleave, an endorsed run gives a transaction that reads back with the built
   * channel and id, and holds one endorsement per target, each that target's own, in target order.
   */
  lemma EveryScheduleTransacts(
    targets: seq<Target>, actions: seq<Action>, inv: Invocation, chaincodeType: nat, c: Context)
    requires Run(targets, actions).Some?
    requires Run(targets, actions).value.verdict.Some? && Run(targets, actions).value.verdict.value.Endorsed?
    ensures var slots := Run(targets, actions).value.verdict.value.responses;
            var bytes := BuildPeerTransactionPayload(BuildProposal(inv, chaincodeType, c), slots);
            && bytes.Ok? && Agreed(slots)
            && ParsePeerPayload(bytes.value) == Ok(TransactionView(inv.channel, TransactionId(c), ProposalResult(slots)))
            && UnmarshalPayload(bytes.value).Some?
            && var action := PayloadAction(UnmarshalPayload(bytes.value).value.data);
            && action.Ok? && |action.value.endorsements| == |targets|
            && forall i | 0 <= i < |targets| ::
                 && targets[i].outcome.Replied? && targets[i].outcome.slot.Some?
                 && targets[i].outcome.slot.value.endorsement == Some(action.value.endorsements[i])
  {
    var slots := Run(targets, actions).value.verdict.value.responses;
    ScheduleIndependent(targets, actions);
    VerdictExactly(targets);
    SinglePeerSubmission.BuiltTransactionReadsBack(inv, chaincodeType, c, slots);
    EndorsementsAreExact(BuildProposal(inv, chaincodeType, c), slots);
  }
}
