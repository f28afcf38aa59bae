// Explicit endorsement as a concurrent protocol: one goroutine per target writes its own slot and signals a
// wait group; the caller joins and then scans the slots. Steps happen in any order.
module ExplicitEndorsement {
  import opened Prelude
  import opened TransactionPayloads

  datatype PeerOutcome = Replied(slot: Slot) | Failed(message: string)

  /** A selected peer together with what its endorsement call will give. */
  datatype Target = Target(url: string, outcome: PeerOutcome)

  datatype Phase = Calling | Stored | Finished

  datatype Verdict = Endorsed(responses: seq<Slot>) | PeerFailed(message: string) | Invalid(fault: PayloadError)

  datatype State = State(
    phases: seq<Phase>, responses: seq<Slot>, errs: seq<Option<string>>, waiting: int, verdict: Option<Verdict>)

  /** `Store`: goroutine i's call returns and fills its slot. `Done`: it signals the group. `Join`: the caller wakes and scans. */
  datatype Action = Store(i: nat) | Done(i: nat) | Join

  function Init(n: nat): State {
    State(seq(n, _ => Calling), seq(n, _ => None), seq(n, _ => None), n, None)
  }

  function FirstError(errs: seq<Option<string>>): Option<string> {
    if errs == [] then None
    else if errs[0].Some? then errs[0]
    else FirstError(errs[1..])
  }

  function Scan(responses: seq<Slot>, errs: seq<Option<string>>): Verdict {
    match FirstError(errs)
    case Some(message) => PeerFailed(message)
    case None =>
      match Validate(responses)
      case Some(fault) => Invalid(fault)
      case None => Endorsed(responses)
  }

  predicate Enabled(s: State, targets: seq<Target>, a: Action) {
    match a
    case Store(i) => i < |targets| && i < |s.phases| && s.phases[i] == Calling
    case Done(i) => i < |s.phases| && s.phases[i] == Stored
    case Join => s.waiting == 0 && s.verdict.None?
  }

  function ErrorText(t: Target): Option<string> {
    if t.outcome.Failed? then Some(t.url + ": " + t.outcome.message) else None
  }

  function SlotOf(t: Target): Slot {
    if t.outcome.Replied? then t.outcome.slot else None
  }

  ghost predicate Shaped(s: State, targets: seq<Target>) {
    |s.phases| == |s.responses| == |s.errs| == |targets|
  }

  function Step(s: State, targets: seq<Target>, a: Action): State
    requires Shaped(s, targets) && Enabled(s, targets, a)
  {
    match a
    case Store(i) =>
      var s' := s.(phases := s.phases[i := Stored]);
      if targets[i].outcome.Failed? then s'.(errs := s.errs[i := ErrorText(targets[i])])
      else s'.(responses := s.responses[i := targets[i].outcome.slot])
    case Done(i) => s.(phases := s.phases[i := Finished], waiting := s.waiting - 1)
    case Join => s.(verdict := Some(Scan(s.responses, s.errs)))
  }

  /** A run: the state after a sequence of enabled actions, None if one of them was not enabled. */
  function Run(targets: seq<Target>, actions: seq<Action>): (r: Option<State>)
    ensures r.Some? ==> Shaped(r.value, targets)
  {
    if actions == [] then Some(Init(|targets|))
    else
      var before :- Run(targets, actions[..|actions| - 1]);
      var a := actions[|actions| - 1];
      if Enabled(before, targets, a) then Some(Step(before, targets, a)) else None
  }

  /******* The schedule does not matter *******/

  function Stages(phases: seq<Phase>): nat {
    if phases == [] then 0
    else (match phases[0] case Calling => 0 case Stored => 1 case Finished => 2) + Stages(phases[1..])
  }

  function Unfinished(phases: seq<Phase>): nat {
    if phases == [] then 0 else (if phases[0] == Finished then 0 else 1) + Unfinished(phases[1..])
  }

  lemma {:induction false} PhaseUpdate(phases: seq<Phase>, i: nat)
    requires i < |phases|
    ensures phases[i] == Calling ==>
              Stages(phases[i := Stored]) == Stages(phases) + 1 && Unfinished(phases[i := Stored]) == Unfinished(phases)
    ensures phases[i] == Stored ==>
              Stages(phases[i := Finished]) == Stages(phases) + 1 && Unfinished(phases[i := Finished]) == Unfinished(phases) - 1
  {
    if i > 0 {
      PhaseUpdate(phases[1..], i - 1);
      assert phases[i := Stored][1..] == phases[1..][i - 1 := Stored];
      assert phases[i := Finished][1..] == phases[1..][i - 1 := Finished];
    }
  }

  lemma {:induction false} UnfinishedZero(phases: seq<Phase>)
    ensures Unfinished(phases) == 0 <==> forall i | 0 <= i < |phases| :: phases[i] == Finished
    ensures Stages(phases) + Unfinished(phases) <= 2 * |phases|
    ensures Unfinished(phases) == 0 ==> Stages(phases) == 2 * |phases|
  {
    if phases != [] {
      UnfinishedZero(phases[1..]);
    }
  }

  lemma {:induction false} InitCounts(n: nat)
    ensures Unfinished(seq(n, _ => Calling)) == n && Stages(seq(n, _ => Calling)) == 0
  {
    if n > 0 {
      InitCounts(n - 1);
      assert seq(n, _ => Calling)[1..] == seq(n - 1, _ => Calling);
    }
  }

  /** No slot is ever written by another goroutine, and the group counts exactly the goroutines not yet done. */
  ghost predicate Invariant(s: State, targets: seq<Target>) {
    && Shaped(s, targets)
    && s.waiting == Unfinished(s.phases)
    && (forall i | 0 <= i < |targets| ::
          if s.phases[i] == Calling then s.responses[i] == None && s.errs[i] == None
          else s.responses[i] == SlotOf(targets[i]) && s.errs[i] == ErrorText(targets[i]))
    && (s.verdict.Some? ==> s.waiting == 0 && s.verdict == Some(Sequential(targets)))
  }

  function Responses(targets: seq<Target>): seq<Slot> {
    seq(|targets|, i requires 0 <= i < |targets| => SlotOf(targets[i]))
  }

  function Errors(targets: seq<Target>): seq<Option<string>> {
    seq(|targets|, i requires 0 <= i < |targets| => ErrorText(targets[i]))
  }

  /** The verdict of calling the targets one after the other. */
  function Sequential(targets: seq<Target>): Verdict {
    Scan(Responses(targets), Errors(targets))
  }

  lemma StepKeepsInvariant(s: State, targets: seq<Target>, a: Action)
    requires Invariant(s, targets) && Enabled(s, targets, a)
    ensures Invariant(Step(s, targets, a), targets)
    ensures a != Join ==> Stages(Step(s, targets, a).phases) == Stages(s.phases) + 1
  {
    UnfinishedZero(s.phases);
    match a
    case Store(i) => PhaseUpdate(s.phases, i);
    case Done(i) => PhaseUpdate(s.phases, i);
    case Join =>
      assert s.responses == Responses(targets);
      assert s.errs == Errors(targets);
  }

  lemma {:induction false} RunKeepsInvariant(targets: seq<Target>, actions: seq<Action>)
    requires Run(targets, actions).Some?
    ensures Invariant(Run(targets, actions).value, targets)
    ensures var s := Run(targets, actions).value; |actions| == Stages(s.phases) + if s.verdict.Some? then 1 else 0
  {
    if actions == [] {
      InitCounts(|targets|);
    } else {
      var front := actions[..|actions| - 1];
      RunKeepsInvariant(targets, front);
      StepKeepsInvariant(Run(targets, front).value, targets, actions[|actions| - 1]);
    }
  }

  /** Every schedule that reaches a verdict reaches the sequential one, after exactly two steps per target and the join. */
  lemma ScheduleIndependent(targets: seq<Target>, actions: seq<Action>)
    requires Run(targets, actions).Some?
    ensures var s := Run(targets, actions).value;
            && (s.verdict.Some? ==> s.verdict == Some(Sequential(targets)))
            && (s.verdict.Some? <==> |actions| == 2 * |targets| + 1)
            && |actions| <= 2 * |targets| + 1
            && s.waiting >= 0
  {
    var s := Run(targets, actions).value;
    RunKeepsInvariant(targets, actions);
    UnfinishedZero(s.phases);
  }

  /** Until there is a verdict some step can be taken, so the join is never blocked for good. */
  lemma NeverStuck(targets: seq<Target>, actions: seq<Action>)
    requires Run(targets, actions).Some? && Run(targets, actions).value.verdict.None?
    ensures exists a :: Run(targets, actions + [a]).Some?
  {
    var s := Run(targets, actions).value;
    RunKeepsInvariant(targets, actions);
    UnfinishedZero(s.phases);
    var a := Join;
    if s.waiting != 0 {
      var i :| 0 <= i < |s.phases| && s.phases[i] != Finished;
      a := if s.phases[i] == Calling then Store(i) else Done(i);
    }
    assert Enabled(s, targets, a);
    assert (actions + [a])[..|actions|] == actions;
    assert Run(targets, actions + [a]).Some?;
  }

  lemma {:induction false} FirstErrorExactly(errs: seq<Option<string>>)
    ensures FirstError(errs) == None <==> forall i | 0 <= i < |errs| :: errs[i] == None
    ensures FirstError(errs).Some? ==>
              exists i | 0 <= i < |errs| :: errs[i] == FirstError(errs) && forall j | 0 <= j < i :: errs[j] == None
  {
    if errs != [] {
      FirstErrorExactly(errs[1..]);
      if errs[0].Some? {
        assert errs[0] == FirstError(errs);
      } else if FirstError(errs).Some? {
        var i :| 0 <= i < |errs[1..]| && errs[1..][i] == FirstError(errs[1..]) && forall j | 0 <= j < i :: errs[1..][j] == None;
        assert forall j | 0 < j < i + 1 :: errs[j] == errs[1..][j - 1];
        assert errs[i + 1] == FirstError(errs);
      }
    }
  }

  /**
   * The verdict: all responses, each from its own target, when all targets replied and the responses agree;
   * the error of the lowest failing target when one failed; a validation fault otherwise.
   */
  lemma VerdictExactly(targets: seq<Target>)
    ensures var failing := exists i | 0 <= i < |targets| :: targets[i].outcome.Failed?;
            match Sequential(targets)
            case Endorsed(rs) =>
              && !failing && Agreed(rs) && |rs| == |targets|
              && forall i | 0 <= i < |rs| :: targets[i].outcome == Replied(rs[i])
            case PeerFailed(message) =>
              exists i | 0 <= i < |targets| ::
                && targets[i].outcome.Failed? && message == targets[i].url + ": " + targets[i].outcome.message
                && forall j | 0 <= j < i :: targets[j].outcome.Replied?
            case Invalid(fault) => !failing && !Agreed(Responses(targets)) && Validate(Responses(targets)) == Some(fault)
  {
    var errs := Errors(targets);
    FirstErrorExactly(errs);
    ValidateExactly(Responses(targets));
    if FirstError(errs).Some? {
      var i :| 0 <= i < |errs| && errs[i] == FirstError(errs) && forall j | 0 <= j < i :: errs[j] == None;
      assert targets[i].outcome.Failed?;
      assert forall j | 0 <= j < i :: errs[j] == ErrorText(targets[j]);
    } else {
      assert forall i | 0 <= i < |targets| :: errs[i] == ErrorText(targets[i]);
    }
  }
}
