/** What holds in every run of the pipeline, and how far stale decisions can take it. */
module PipelineTheorems {
  import opened Wrappers
  import opened Pipeline
  import opened PipelineRuns
  import opened PipelineWitness

  /* ----- How often the status changes ----- */

  /** Whatever is duplicated, lost or reordered, the status changes at most three times, plus once for every decision
      that was committed without a lock after the escalation it was checked against had ended. A clean completion
      excludes every escalation and decision. */
  lemma ChangesBound(w: World, steps: seq<Step>)
    ensures var t := Run(w, steps).tally;
            && t.changes <= 3 + t.staleChanges
            && t.scanEscalations + t.rescanEscalations + t.cleanCompletions <= 1
            && t.freshDecisions <= t.scanEscalations + t.rescanEscalations
            && t.audits <= 1
            && (t.cleanCompletions > 0 ==> t.freshDecisions == t.staleDecisions == 0)
  {
    hide Run;
    RunsAreSound(w, steps);
  }

  datatype Kind = HumanApproval | HumanRejection | AgentApproval | AgentRejection

  function KindOf(d: Decision): Kind {
    match d
    case HumanApprove(_) => HumanApproval
    case HumanReject(_) => HumanRejection
    case AgentApprove(_) => AgentApproval
    case AgentReject(_) => AgentRejection
  }

  predicate Uses(step: Step, kinds: set<Kind>) {
    (step.Check? || step.Commit?) ==> KindOf(step.d) in kinds
  }

  predicate OnlyUses(steps: seq<Step>, kinds: set<Kind>) {
    forall i :: 0 <= i < |steps| ==> Uses(steps[i], kinds)
  }

  ghost predicate NoRejections(s: System) {
    && (forall d :: d in s.deciding ==> !d.Rejects())
    && s.op.status != Rejected
    && s.tally.staleChanges == 0
  }

  /** Whoever decides has seen the escalation, and no step leads back to pending. */
  lemma DecidingIsLate(w: World, s: System, d: Decision)
    requires Sound(w, s) && d in s.deciding
    ensures s.op.status != Pending && s.op.status != Approved
  {
    assert s.deciding != multiset{};
  }

  lemma NoRejectionStep(w: World, s: System, step: Step)
    requires NoRejections(s)
    requires step.Check? || step.Commit? ==> !step.d.Rejects()
    requires step.Commit? && step.d in s.deciding ==> s.op.status != Pending && s.op.status != Approved
    ensures NoRejections(Next(w, s, step))
  {
    hide InsertAll, HasPost, RedactionPerFinding;
  }

  lemma {:induction false} NoRejectionRun(w: World, steps: seq<Step>, kinds: set<Kind>)
    requires OnlyUses(steps, kinds) && HumanRejection !in kinds && AgentRejection !in kinds
    ensures NoRejections(Run(w, steps))
  {
    hide Sound, Next, NoRejections;
    if steps != [] {
      var n := |steps| - 1;
      NoRejectionRun(w, steps[..n], kinds);
      RunsAreSound(w, steps[..n]);
      assert Uses(steps[n], kinds);
      if steps[n].Commit? && steps[n].d in Run(w, steps[..n]).deciding {
        DecidingIsLate(w, Run(w, steps[..n]), steps[n].d);
      }
      NoRejectionStep(w, Run(w, steps[..n]), steps[n]);
    } else {
      NoRejectionStart();
    }
  }

  lemma NoRejectionStart()
    ensures NoRejections(Start())
  {
  }

  lemma FourChangesUses(d: Decision, kinds: set<Kind>)
    requires KindOf(d) in kinds
    ensures OnlyUses(FourChangesRun(d), kinds)
  {
  }

  ghost predicate AtMostThreeChanges(kinds: set<Kind>) {
    forall w, steps :: OnlyUses(steps, kinds) ==> Run(w, steps).tally.changes <= 3
  }

  /** The bound of three holds for every run exactly when nobody may reject: approvals all lead to completion, but a
      stale rejection of either kind overwrites a completed operation. */
  lemma ThreeChangesExact(kinds: set<Kind>)
    ensures AtMostThreeChanges(kinds) <==> HumanRejection !in kinds && AgentRejection !in kinds
  {
    hide Run, OnlyUses;
    if HumanRejection !in kinds && AgentRejection !in kinds {
      forall w, steps | OnlyUses(steps, kinds) ensures Run(w, steps).tally.changes <= 3 {
        NoRejectionRun(w, steps, kinds);
        ChangesBound(w, steps);
      }
    } else {
      var d := if HumanRejection in kinds then HumanReject(EMAIL) else AgentReject(EMAIL);
      var w, steps := Leaky(), FourChangesRun(d);
      FourChanges(d);
      FourChangesUses(d, kinds);
      assert Run(w, steps).tally.changes > 3;
    }
  }

  /* ----- Operations escalated by the scan ----- */

  /** An operation that the scan escalated never gets a sanitized text, a sanitizer redaction or an artifact. It is
      escalated until the one decision that ends it, and after that only stale decisions change its status. */
  lemma ScanEscalationIsFinal(w: World, steps: seq<Step>)
    ensures var s := Run(w, steps);
            s.tally.scanEscalations > 0 ==>
              && s.op.sanitized == None && s.op.artifacts == 0
              && (forall k :: Redaction(k, BySanitizer) !in s.op.redactions)
              && s.tally.freshDecisions <= 1
              && (s.op.status == Escalated <==> s.tally.freshDecisions == 0)
              && s.tally.changes == 1 + s.tally.freshDecisions + s.tally.staleChanges
              && (s.tally.freshDecisions == 0 ==> s.tally.changes == 1)
  {
    hide Run;
    RunsAreSound(w, steps);
    var s := Run(w, steps);
    if s.tally.scanEscalations > 0 {
      assert s.tally.batches == 0;
      assert forall k :: s.op.redactions[Redaction(k, BySanitizer)] == 0;
      FreshBeforeStale(w, steps);
    }
  }

  /** Stale decisions need an escalation that has ended. */
  ghost predicate StaleAfterEnd(s: System) {
    s.tally.scanEscalations > 0 && s.tally.freshDecisions == 0 ==> s.tally.staleChanges == 0
  }

  lemma StaleStep(w: World, s: System, step: Step)
    requires Sound(w, s) && StaleAfterEnd(s)
    ensures StaleAfterEnd(Next(w, s, step))
  {
    hide InsertAll;
  }

  lemma {:induction false} FreshBeforeStale(w: World, steps: seq<Step>)
    ensures StaleAfterEnd(Run(w, steps))
  {
    hide Sound, Next, StaleAfterEnd;
    if steps != [] {
      var n := |steps| - 1;
      FreshBeforeStale(w, steps[..n]);
      RunsAreSound(w, steps[..n]);
      StaleStep(w, Run(w, steps[..n]), steps[n]);
    } else {
      NothingStale();
    }
  }

  lemma NothingStale()
    ensures StaleAfterEnd(Start())
  {
  }

  /* ----- Replay ----- */

  /** In every run at most one sanitizer delivery creates redactions, no finding gets two of them, and at most one
      artifact is archived. */
  lemma SanitizerReplay(w: World, steps: seq<Step>)
    ensures var s := Run(w, steps);
            && s.tally.batches <= 1
            && (forall k :: s.op.redactions[Redaction(k, BySanitizer)] <= 1)
            && s.op.artifacts == s.tally.audits <= 1
  {
    hide Run;
    RunsAreSound(w, steps);
  }

  /** Rows are only ever added. */
  ghost predicate Keeps(a: Operation, b: Operation) {
    && a.redactions <= b.redactions
    && (forall k :: k in a.findings ==> k in b.findings && b.findings[k] == a.findings[k])
    && a.artifacts <= b.artifacts
    && (a.sanitized.Some? ==> b.sanitized.Some?)
    && (a.redactions != multiset{} ==> b.sanitized == a.sanitized)
    && (a.status != Pending ==> b.status != Pending)
  }

  lemma ScanKeepsRows(op: Operation, found: seq<Key>, review: bool)
    ensures Keeps(op, ScanTask(op, found, review).op)
  {
    hide InsertAll;
    InsertAllExact(op.findings, found, false);
  }

  lemma RescanKeepsRows(op: Operation, found: seq<Key>)
    ensures Keeps(op, RescanTask(op, found).op)
  {
    hide InsertAll;
    InsertAllExact(op.findings, found, true);
  }

  lemma SanitizeKeepsRows(op: Operation, document: string, redacted: string)
    ensures Keeps(op, SanitizeTask(op, document, redacted).op)
  {
  }

  lemma AuditKeepsRows(op: Operation, stored: bool)
    ensures Keeps(op, AuditTask(op, stored).op)
  {
  }

  lemma DecisionKeepsRows(op: Operation, d: Decision)
    ensures Keeps(op, DecisionTask(op, d).op)
  {
  }

  lemma StepKeepsRows(w: World, s: System, step: Step)
    ensures Keeps(s.op, Next(w, s, step).op)
  {
    hide Keeps, ScanTask, SanitizeTask, AuditTask, RescanTask, DecisionTask;
    KeepsItself(s.op);
    match step
    case DeliverScan(review) => ScanKeepsRows(s.op, w.scan, review);
    case DeliverSanitize(redacted) => SanitizeKeepsRows(s.op, w.document, redacted);
    case DeliverAudit(stored) => AuditKeepsRows(s.op, stored);
    case DeliverRescan =>
      RescanKeepsRows(s.op, if s.op.sanitized.Some? then w.rescan(s.op.sanitized.value) else []);
    case DeliverReview =>
    case Check(_) =>
    case Commit(d) => DecisionKeepsRows(s.op, d);
  }

  lemma KeepsOn(a: Operation, b: Operation, c: Operation)
    requires Keeps(a, b) && Keeps(b, c)
    ensures Keeps(a, c)
  {
    if a.redactions != multiset{} {
      var r :| r in a.redactions;
      assert r in b.redactions;
    }
  }

  /** From any point of any run on: findings, redactions and artifacts stay, and once any redaction exists the
      sanitized text is the same for ever. */
  lemma {:induction false} RowsStay(w: World, s: System, steps: seq<Step>)
    ensures Keeps(s.op, RunFrom(w, s, steps).op)
  {
    hide Keeps, Next;
    if steps != [] {
      var n := |steps| - 1;
      RowsStay(w, s, steps[..n]);
      var t := RunFrom(w, s, steps[..n]);
      StepKeepsRows(w, t, steps[n]);
      KeepsOn(s.op, t.op, Next(w, t, steps[n]).op);
    } else {
      KeepsItself(s.op);
    }
  }

  lemma KeepsItself(a: Operation)
    ensures Keeps(a, a)
  {
  }

  /* ----- The seal ----- */

  /** The seal disagrees with the status exactly while a rescan has reopened an archived operation; then it says
      completed. A finished operation is unsealed exactly when a clean rescan completed it and no audit followed. */
  lemma SealExact(w: World, steps: seq<Step>)
    ensures var s := Run(w, steps);
            && (s.op.sealedAs.Some? && s.op.sealedAs.value != s.op.status
                <==> s.op.status == Escalated && s.op.artifacts > 0)
            && (s.op.status == Escalated && s.op.artifacts > 0 ==> s.op.sealedAs == Some(Completed))
            && (s.op.status in {Completed, Approved, Rejected} && s.op.sealedAs == None
                <==> s.tally.cleanCompletions > 0 && s.op.artifacts == 0)
  {
    hide Run;
    RunsAreSound(w, steps);
  }

  /** Without stale decisions an operation is sealed at most twice, and twice only if a rescan escalated it and the
      audit ran; each stale decision seals once more. */
  lemma SealedTwice(w: World, steps: seq<Step>)
    ensures var t := Run(w, steps).tally;
            && t.seals <= 2 + t.staleDecisions
            && (t.staleDecisions == 0 && t.seals >= 2 ==> t.seals == 2 && t.rescanEscalations == 1 && t.audits == 1)
  {
    hide Run;
    RunsAreSound(w, steps);
  }

  /** It does happen: the rescan reopens an archived operation, whose seal is stale until a decision seals it again. */
  lemma SealedTwiceIsReachable()
    ensures var s := Run(Leaky(), ReopenedRun()); s.op.status == Escalated && s.op.sealedAs == Some(Completed)
    ensures var s := Run(Leaky(), ReopenedRun() + [Check(HumanReject(EMAIL))] + [Commit(HumanReject(EMAIL))]);
            s.op.sealedAs == Some(Rejected) && s.tally.seals == 2 && s.tally.staleDecisions == 0 && s.tally.changes == 3
  {
    hide Leaky, ReopenedRun, Next, RunFrom, EMAIL;
    var w, d := Leaky(), HumanReject(EMAIL);
    var r4 := ReopenedRun();
    Reopened();
    RunNext(w, Start(), r4, Check(d));
    CheckStep(w, Run(w, r4), d);
    RunNext(w, Start(), r4 + [Check(d)], Commit(d));
    UnlockedStep(w, Run(w, r4 + [Check(d)]), d);
  }
}
