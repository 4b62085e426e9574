/** How often the status can change, exactly, depending on the kinds of decisions that are taken at all. */
module ChangeBounds {
  import opened Pipeline
  import opened PipelineRuns
  import opened PipelineWitness
  import opened PipelineTheorems

  predicate MayReject(kinds: set<Kind>) {
    HumanRejection in kinds || AgentRejection in kinds
  }

  predicate MayApprove(kinds: set<Kind>) {
    HumanApproval in kinds || AgentApproval in kinds
  }

  ghost predicate AtMost(kinds: set<Kind>, bound: nat) {
    forall w, steps :: OnlyUses(steps, kinds) ==> Run(w, steps).tally.changes <= bound
  }

  /** The largest number of changes, where there is one. */
  function Most(kinds: set<Kind>): nat {
    if kinds == {} then 2 else if !MayReject(kinds) then 3 else if HumanApproval !in kinds then 4 else 5
  }

  /* ----- Upper bounds ----- */

  /** Stale changes are rejections of a completed operation, so each needs its own cause for the completion. */
  ghost predicate Accounted(s: System, kinds: set<Kind>) {
    var t := s.tally;
    && (forall d :: d in s.deciding ==> KindOf(d) in kinds)
    && (kinds == {} ==> t.freshDecisions == t.staleChanges == 0)
    && (AgentApproval !in kinds ==>
          t.staleChanges + One(s.op.status == Completed) <= t.audits + t.cleanCompletions + t.freshDecisions)
    && (!MayApprove(kinds) ==>
          t.staleChanges + One(s.op.status == Completed) <= t.audits + t.cleanCompletions)
  }

  lemma TaskAccounts(w: World, s: System, step: Step, kinds: set<Kind>)
    requires Accounted(s, kinds) && !step.Commit? && Uses(step, kinds)
    ensures Accounted(Next(w, s, step), kinds)
  {
    hide InsertAll, HasPost, RedactionPerFinding;
  }

  lemma ApprovalAccounts(w: World, s: System, d: Decision, kinds: set<Kind>)
    requires Accounted(s, kinds) && KindOf(d) in kinds && d.HumanApprove?
    ensures Accounted(Next(w, s, Commit(d)), kinds)
  {
  }

  lemma UnlockedAccounts(w: World, s: System, d: Decision, kinds: set<Kind>)
    requires Accounted(s, kinds) && KindOf(d) in kinds && !d.HumanApprove?
    requires d in s.deciding ==> s.op.status != Pending && s.op.status != Approved
    ensures Accounted(Next(w, s, Commit(d)), kinds)
  {
    if d in s.deciding {
      hide Next;
      UnlockedEffect(w, s, d);
    }
  }

  lemma {:induction false} RunAccounts(w: World, steps: seq<Step>, kinds: set<Kind>)
    requires OnlyUses(steps, kinds)
    ensures Accounted(Run(w, steps), kinds)
  {
    hide Sound, Next, Accounted, KindOf;
    if steps == [] {
      NothingToAccount(kinds);
    } else {
      var n := |steps| - 1;
      var s, step := Run(w, steps[..n]), steps[n];
      RunAccounts(w, steps[..n], kinds);
      assert Uses(step, kinds);
      if !step.Commit? {
        TaskAccounts(w, s, step, kinds);
      } else if step.d.HumanApprove? {
        ApprovalAccounts(w, s, step.d, kinds);
      } else {
        RunsAreSound(w, steps[..n]);
        if step.d in s.deciding {
          DecidingIsLate(w, s, step.d);
        }
        UnlockedAccounts(w, s, step.d, kinds);
      }
    }
  }

  lemma NothingToAccount(kinds: set<Kind>)
    ensures Accounted(Start(), kinds)
  {
  }

  lemma UpperBound(w: World, steps: seq<Step>, kinds: set<Kind>)
    requires OnlyUses(steps, kinds) && (AgentApproval !in kinds || !MayReject(kinds))
    ensures Run(w, steps).tally.changes <= Most(kinds)
  {
    hide Run, OnlyUses;
    RunsAreSound(w, steps);
    RunAccounts(w, steps, kinds);
    if !MayReject(kinds) {
      NoRejectionRun(w, steps, kinds);
    }
  }

  /* ----- Runs that reach them ----- */

  lemma UsesConcat(a: seq<Step>, b: seq<Step>, kinds: set<Kind>)
    requires OnlyUses(a, kinds) && OnlyUses(b, kinds)
    ensures OnlyUses(a + b, kinds)
  {
  }

  lemma {:induction false} FlippingUses(n: nat, reject: Decision, approve: Decision, kinds: set<Kind>)
    requires KindOf(reject) in kinds && KindOf(approve) in kinds
    ensures OnlyUses(Checks(n, reject), kinds) && OnlyUses(Checks(n, approve), kinds)
    ensures OnlyUses(Flips(n, reject, approve), kinds)
    ensures OnlyUses(FlippingRun(n, reject, approve), kinds)
  {
    if n > 0 {
      FlippingUses(n - 1, reject, approve, kinds);
    }
    hide KindOf;
    UsesConcat(UntilEscalated(), Checks(n, reject), kinds);
    UsesConcat(UntilEscalated() + Checks(n, reject), Checks(n, approve), kinds);
    UsesConcat(UntilEscalated() + Checks(n, reject) + Checks(n, approve), Flips(n, reject, approve), kinds);
  }

  lemma RunsUse(d: Decision, e: Decision, kinds: set<Kind>)
    ensures OnlyUses(ReopenedRun(), kinds)
    ensures KindOf(d) in kinds ==> OnlyUses(ThreeChangesRun(d), kinds) && OnlyUses(FourChangesRun(d), kinds)
    ensures KindOf(d) in kinds && KindOf(e) in kinds ==>
              OnlyUses(FiveChangesRun(d, e), kinds) && OnlyUses(ScanEscalatedRun(d, e), kinds)
  {
  }

  /** A decision on the e-mail address, of a given kind. */
  function OfKind(kind: Kind): (d: Decision)
    ensures KindOf(d) == kind && d.finding == EMAIL
  {
    match kind
    case HumanApproval => HumanApprove(EMAIL)
    case HumanRejection => HumanReject(EMAIL)
    case AgentApproval => AgentApprove(EMAIL)
    case AgentRejection => AgentReject(EMAIL)
  }

  function Rejection(kinds: set<Kind>): Decision {
    OfKind(if HumanRejection in kinds then HumanRejection else AgentRejection)
  }

  function Approval(kinds: set<Kind>): Decision {
    OfKind(if HumanApproval in kinds then HumanApproval else AgentApproval)
  }

  /** A run with as many changes as there can be. */
  lemma BoundIsReached(kinds: set<Kind>) returns (steps: seq<Step>)
    ensures OnlyUses(steps, kinds) && Run(Leaky(), steps).tally.changes == Most(kinds)
  {
    hide Run, OnlyUses, Leaky, EMAIL;
    var reject := Rejection(kinds);
    RunsUse(reject, reject, kinds);
    if kinds == {} {
      Reopened();
      steps := ReopenedRun();
    } else if !MayReject(kinds) {
      var kind :| kind in kinds;
      RunsUse(OfKind(kind), reject, kinds);
      ThreeChanges(OfKind(kind));
      steps := ThreeChangesRun(OfKind(kind));
    } else if HumanApproval !in kinds {
      FourChanges(reject);
      steps := FourChangesRun(reject);
    } else {
      RunsUse(HumanApprove(EMAIL), reject, kinds);
      FiveChanges(HumanApprove(EMAIL), reject);
      steps := FiveChangesRun(HumanApprove(EMAIL), reject);
    }
  }

  /** Some bound holds for all runs over some kinds of decisions if and only if agents may not approve or nobody may
      reject; and then the least bound is two without decisions, three without rejections, four with rejections but no
      human approvals, and five with both. */
  lemma MostChangesExact(kinds: set<Kind>, bound: nat)
    ensures AtMost(kinds, bound) <==> (AgentApproval !in kinds || !MayReject(kinds)) && bound >= Most(kinds)
  {
    hide Run, OnlyUses, Leaky, FlippingRun, Most, MayReject;
    if AgentApproval in kinds && MayReject(kinds) {
      var reject, approve := Rejection(kinds), OfKind(AgentApproval);
      RejectionRejects(kinds);
      FlippingUses(bound + 1, reject, approve, kinds);
      ChangesAreUnbounded(bound + 1, reject, approve);
      assert Run(Leaky(), FlippingRun(bound + 1, reject, approve)).tally.changes > bound;
    } else if bound < Most(kinds) {
      var steps := BoundIsReached(kinds);
      assert Run(Leaky(), steps).tally.changes > bound;
    } else {
      forall w, steps | OnlyUses(steps, kinds) ensures Run(w, steps).tally.changes <= bound {
        UpperBound(w, steps, kinds);
      }
    }
  }

  lemma RejectionRejects(kinds: set<Kind>)
    requires MayReject(kinds)
    ensures Rejection(kinds).Rejects() && Rejection(kinds).finding == EMAIL && KindOf(Rejection(kinds)) in kinds
  {
  }

  /* ----- Operations escalated by the scan ----- */

  /** Once an operation that the scan escalated is decided, its status stays. */
  ghost predicate DecisionIsFinal(kinds: set<Kind>) {
    forall w, steps :: OnlyUses(steps, kinds) && Run(w, steps).tally.scanEscalations > 0 ==> Run(w, steps).tally.changes <= 2
  }

  /** The first decision on an operation escalated by the scan is final in all runs if and only if nobody may reject or
      nobody may approve. */
  lemma DecisionIsFinalExact(kinds: set<Kind>)
    ensures DecisionIsFinal(kinds) <==> !MayReject(kinds) || !MayApprove(kinds)
  {
    hide Run, OnlyUses, Leaky, ScanEscalatedRun;
    if MayReject(kinds) && MayApprove(kinds) {
      var approve, reject := Approval(kinds), Rejection(kinds);
      RejectionRejects(kinds);
      RunsUse(approve, reject, kinds);
      ScanEscalatedChanges(approve, reject);
      assert OnlyUses(ScanEscalatedRun(approve, reject), kinds);
      assert Run(Leaky(), ScanEscalatedRun(approve, reject)).tally.changes > 2;
    } else {
      forall w, steps | OnlyUses(steps, kinds) && Run(w, steps).tally.scanEscalations > 0
        ensures Run(w, steps).tally.changes <= 2
      {
        RunsAreSound(w, steps);
        RunAccounts(w, steps, kinds);
        ScanEscalationIsFinal(w, steps);
        if !MayReject(kinds) {
          NoRejectionRun(w, steps, kinds);
        }
      }
    }
  }
}
