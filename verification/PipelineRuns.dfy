/** Runs of one operation under at-least-once delivery: any task that was ever enqueued may be delivered at any time,
    again and again or never, and decisions are committed some time after their check. */
module PipelineRuns {
  import opened Wrappers
  import opened Pipeline

  /** The detectors, as a function of the text: what they find in the document and in any sanitized text. */
  datatype World = World(document: string, scan: seq<Key>, rescan: string -> seq<Key>)

  /** What happened so far, counted. */
  datatype Tally = Tally(
    changes: nat,            // steps that changed the status
    scanEscalations: nat,
    rescanEscalations: nat,
    cleanCompletions: nat,   // rescans that completed the operation
    audits: nat,             // audits that archived the document
    freshDecisions: nat,     // decisions that ended an escalation
    staleDecisions: nat,     // decisions committed without a lock when the operation was not escalated any more
    staleChanges: nat,       // those that changed the status
    batches: nat,            // sanitizer deliveries that created redactions
    seals: nat,
    approvals: nat,          // human approvals that succeeded
    refusals: nat            // human approvals refused under the lock
  )

  /** `enqueued` is every task ever sent; `deciding` the decisions whose check passed and that are not committed. */
  datatype System = System(op: Operation, enqueued: set<Task>, deciding: multiset<Decision>, tally: Tally)

  datatype Step =
    | DeliverScan(review: bool)
    | DeliverSanitize(redacted: string)
    | DeliverAudit(stored: bool)
    | DeliverRescan
    | DeliverReview
    | Check(d: Decision)
    | Commit(d: Decision)

  function Zero(): Tally { Tally(0, 0, 0, 0, 0, 0, 0, 0, 0, 0, 0, 0) }

  /** The relay sends the scan of a new operation. */
  function Start(): System { System(Fresh(), {Scan}, multiset{}, Zero()) }

  /** Whether a step can take place; one that cannot changes nothing. */
  predicate Enabled(s: System, step: Step) {
    match step
    case DeliverScan(_) => Scan in s.enqueued
    case DeliverSanitize(_) => Sanitize in s.enqueued
    case DeliverAudit(_) => Audit in s.enqueued
    case DeliverRescan => Rescan in s.enqueued
    case DeliverReview => Review in s.enqueued
    case Check(d) => MayDecide(s.op, d)
    case Commit(d) => d in s.deciding
  }

  function EffectOf(w: World, s: System, step: Step): Effect {
    if !Enabled(s, step) then Nothing(s.op)
    else
      match step
      case DeliverScan(review) => ScanTask(s.op, w.scan, review)
      case DeliverSanitize(redacted) => SanitizeTask(s.op, w.document, redacted)
      case DeliverAudit(stored) => AuditTask(s.op, stored)
      case DeliverRescan => RescanTask(s.op, if s.op.sanitized.Some? then w.rescan(s.op.sanitized.value) else [])
      case DeliverReview => Nothing(s.op)
      case Check(_) => Nothing(s.op)
      case Commit(d) => DecisionTask(s.op, d)
  }

  function Decided(s: System, step: Step): multiset<Decision> {
    if !Enabled(s, step) then s.deciding
    else if step.Check? then s.deciding + multiset{step.d}
    else if step.Commit? then s.deciding - multiset{step.d}
    else s.deciding
  }

  function One(b: bool): nat { if b then 1 else 0 }

  function Counted(s: System, step: Step, e: Effect): Tally {
    var t, before, after := s.tally, s.op, e.op;
    var changed := before.status != after.status;
    var commits := step.Commit? && Enabled(s, step);
    Tally(
      t.changes + One(changed),
      t.scanEscalations + One(step.DeliverScan? && changed),
      t.rescanEscalations + One(step.DeliverRescan? && changed && after.status == Escalated),
      t.cleanCompletions + One(step.DeliverRescan? && changed && after.status == Completed),
      t.audits + One(after.artifacts > before.artifacts),
      t.freshDecisions + One(commits && before.status == Escalated && changed),
      t.staleDecisions + One(commits && !step.d.HumanApprove? && before.status != Escalated),
      t.staleChanges + One(commits && before.status != Escalated && changed),
      t.batches + One(step.DeliverSanitize? && after.redactions != before.redactions),
      t.seals + One(e.seals),
      t.approvals + One(commits && step.d.HumanApprove? && before.status == Escalated),
      t.refusals + One(commits && step.d.HumanApprove? && before.status != Escalated)
    )
  }

  function Next(w: World, s: System, step: Step): System {
    var e := EffectOf(w, s, step);
    System(e.op, s.enqueued + e.sends, Decided(s, step), Counted(s, step, e))
  }

  function RunFrom(w: World, s: System, steps: seq<Step>): System {
    if steps == [] then s else Next(w, RunFrom(w, s, steps[..|steps| - 1]), steps[|steps| - 1])
  }

  function Run(w: World, steps: seq<Step>): System {
    RunFrom(w, Start(), steps)
  }

  lemma {:induction false} RunNext(w: World, s: System, steps: seq<Step>, step: Step)
    ensures RunFrom(w, s, steps + [step]) == Next(w, RunFrom(w, s, steps), step)
  {
    assert (steps + [step])[..|steps|] == steps;
  }

  lemma {:induction false} RunConcat(w: World, s: System, a: seq<Step>, b: seq<Step>)
    ensures RunFrom(w, s, a + b) == RunFrom(w, RunFrom(w, s, a), b)
    decreases |b|
  {
    hide Next;
    if b == [] {
      assert a + b == a;
    } else {
      var n := |b| - 1;
      assert a + b == a + b[..n] + [b[n]];
      RunConcat(w, s, a, b[..n]);
      RunNext(w, s, a + b[..n], b[n]);
    }
  }

  /* ----- What every reachable state satisfies ----- */

  /** While an operation is pending nothing final has happened to it. */
  ghost predicate PendingIsEarly(w: World, s: System) {
    s.op.status == Pending ==>
      && !HasPost(s.op.findings)
      && s.op.artifacts == 0
      && s.op.sealedAs == None
      && s.tally.scanEscalations == s.tally.rescanEscalations == s.tally.cleanCompletions == 0
  }

  /** Tasks follow from one another, and an escalating scan enqueues none of them. */
  ghost predicate TasksFollow(w: World, s: System) {
    && (Sanitize in s.enqueued ==> s.tally.scanEscalations == 0)
    && (Sanitize in s.enqueued ==> forall k :: k in w.scan ==> k in s.op.findings)
    && (s.op.sanitized.Some? ==> Sanitize in s.enqueued)
    && (Audit in s.enqueued || Rescan in s.enqueued ==> s.op.sanitized.Some?)
    && (s.op.artifacts > 0 ==> Audit in s.enqueued)
    && (s.tally.batches > 0 ==> Sanitize in s.enqueued)
  }

  /** Decisions need an escalation, and each status but pending has its cause. */
  ghost predicate DecisionsFollow(w: World, s: System) {
    && (s.deciding != multiset{} || s.tally.freshDecisions > 0 || s.op.status in {Escalated, Rejected}
        ==> s.tally.scanEscalations + s.tally.rescanEscalations > 0)
    && s.op.status != Approved
    && (s.tally.staleDecisions > 0 || s.tally.staleChanges > 0 ==> s.tally.scanEscalations + s.tally.rescanEscalations > 0)
  }

  /** Findings come from the scan unless they are marked. */
  ghost predicate FindingsOrigin(w: World, s: System) {
    && (forall k :: k in s.op.findings && !s.op.findings[k] ==> k in w.scan)
    && (HasPost(s.op.findings) ==> s.op.sanitized.Some?)
  }

  /** Without redactions the sanitized text is the document, in which the scan found nothing. */
  ghost predicate PlainText(w: World, s: System) {
    s.op.sanitized.Some? && s.op.redactions == multiset{} ==> w.scan == [] && s.op.sanitized.value == w.document
  }

  /** A clean rescan rules out any escalation, for good. */
  ghost predicate CleanIsFinal(w: World, s: System) {
    s.tally.cleanCompletions > 0 ==>
      && s.tally.cleanCompletions == 1
      && s.tally.scanEscalations == s.tally.rescanEscalations == 0
      && !HasPost(s.op.findings)
      && s.op.sanitized.Some? && w.rescan(s.op.sanitized.value) == []
      && s.op.status == Completed
  }

  /** There is at most one escalation. */
  ghost predicate OneEscalation(w: World, s: System) {
    && s.tally.scanEscalations + s.tally.rescanEscalations <= 1
    && (s.tally.rescanEscalations > 0 ==> HasPost(s.op.findings))
    && s.tally.freshDecisions + One(s.op.status == Escalated) <= s.tally.scanEscalations + s.tally.rescanEscalations
    && (s.tally.scanEscalations > 0 ==> s.tally.freshDecisions + One(s.op.status == Escalated) == 1)
  }

  /** At most one sanitizer delivery makes redactions. */
  ghost predicate OneBatch(w: World, s: System) {
    && s.tally.batches <= 1
    && (s.tally.batches == 0 ==> forall k :: s.op.redactions[Redaction(k, BySanitizer)] == 0)
    && (s.tally.batches > 0 ==> s.op.redactions != multiset{})
    && (forall k :: s.op.redactions[Redaction(k, BySanitizer)] <= 1)
  }

  /** The seal carries the status, except while a rescan has reopened an archived operation. */
  ghost predicate SealKept(w: World, s: System) {
    && (s.op.sealedAs.Some? ==> s.op.sealedAs.value == if s.op.status == Escalated then Completed else s.op.status)
    && (s.op.sealedAs.None? ==> s.op.status in {Pending, Escalated} || (s.tally.cleanCompletions > 0 && s.op.artifacts == 0))
    && (s.tally.cleanCompletions > 0 && s.op.artifacts == 0 ==> s.op.sealedAs.None?)
    && (s.op.sealedAs.Some? && s.op.status == Escalated ==> s.op.artifacts > 0)
    && (s.op.sealedAs.Some? <==> s.tally.seals > 0)
  }

  /** The counts add up. */
  ghost predicate CountsAdd(s: System) {
    var t := s.tally;
    && t.changes <= t.scanEscalations + t.rescanEscalations + t.cleanCompletions + t.audits + t.freshDecisions + t.staleChanges
    && (t.audits == 0 ==> t.changes == t.scanEscalations + t.rescanEscalations + t.cleanCompletions + t.freshDecisions + t.staleChanges)
    && t.audits == s.op.artifacts <= 1
    && t.seals == t.audits + t.freshDecisions + t.staleDecisions
    && t.staleChanges <= t.staleDecisions
  }

  ghost predicate Sound(w: World, s: System) {
    && PendingIsEarly(w, s)
    && TasksFollow(w, s)
    && DecisionsFollow(w, s)
    && FindingsOrigin(w, s)
    && PlainText(w, s)
    && CleanIsFinal(w, s)
    && OneEscalation(w, s)
    && OneBatch(w, s)
    && SealKept(w, s)
    && CountsAdd(s)
  }

  lemma StartIsSound(w: World)
    ensures Sound(w, Start())
  {
  }

  /* ----- Each step keeps them ----- */

  lemma ScanKeeps(w: World, s: System, review: bool)
    requires Sound(w, s) && Enabled(s, DeliverScan(review))
    ensures Sound(w, Next(w, s, DeliverScan(review)))
  {
    hide InsertAll;
    InsertAllExact(s.op.findings, w.scan, false);
    var t := Next(w, s, DeliverScan(review));
    if s.op.status == Pending && InsertAll(s.op.findings, w.scan, false).Some? {
      assert HasPost(t.op.findings) ==> HasPost(s.op.findings);
      if w.scan != [] {
        assert w.scan[0] !in s.op.findings;
      }
    }
  }

  /** What a sanitizer delivery changes, if no redaction exists. */
  lemma SanitizeEffect(w: World, s: System, redacted: string)
    requires Sanitize in s.enqueued && s.op.redactions == multiset{}
    ensures var t := Next(w, s, DeliverSanitize(redacted)); var some := s.op.findings != map[];
            && t.op == s.op.(
                 redactions := if some then multiset(RedactionPerFinding(s.op.findings)) else s.op.redactions,
                 sanitized := Some(if some then redacted else w.document))
            && t.deciding == s.deciding && t.enqueued == s.enqueued + {Audit, Rescan}
            && t.tally == s.tally.(batches := s.tally.batches + One(some))
            && (some ==> t.op.redactions != multiset{})
  {
    if s.op.findings != map[] {
      var k :| k in s.op.findings;
      assert Redaction(k, BySanitizer) in RedactionPerFinding(s.op.findings);
    }
  }

  lemma SanitizeAgain(w: World, s: System, redacted: string)
    requires s.op.redactions != multiset{}
    ensures Next(w, s, DeliverSanitize(redacted)) == s
  {
  }

  lemma SanitizeKeeps(w: World, s: System, redacted: string)
    requires Sound(w, s) && Enabled(s, DeliverSanitize(redacted))
    ensures Sound(w, Next(w, s, DeliverSanitize(redacted)))
  {
    hide Next;
    if s.op.redactions != multiset{} {
      SanitizeAgain(w, s, redacted);
    } else {
      SanitizeEffect(w, s, redacted);
      SomeFinding(w.scan, s.op.findings);
      if s.op.findings != map[] && !HasPost(s.op.findings) {
        var k :| k in s.op.findings;
        assert !s.op.findings[k];
      }
    }
  }

  lemma SomeFinding(found: seq<Key>, findings: map<Key, bool>)
    requires forall k :: k in found ==> k in findings
    ensures found == [] || findings != map[]
  {
    if found != [] {
      assert found[0] in findings;
    }
  }

  lemma AuditKeeps(w: World, s: System, stored: bool)
    requires Sound(w, s) && Enabled(s, DeliverAudit(stored))
    ensures Sound(w, Next(w, s, DeliverAudit(stored)))
  {
  }

  lemma CleanRescanKeeps(w: World, s: System)
    requires Sound(w, s) && Enabled(s, DeliverRescan) && s.op.sanitized.Some? && w.rescan(s.op.sanitized.value) == []
    ensures Sound(w, Next(w, s, DeliverRescan))
  {
  }

  /** What a rescan changes that finds something new. */
  lemma DirtyRescanEffect(w: World, s: System)
    requires Rescan in s.enqueued && s.op.sanitized.Some? && w.rescan(s.op.sanitized.value) != []
    ensures var t := Next(w, s, DeliverRescan); var escalates := !Settled(s.op.status);
            || (t.op == s.op && t.tally == s.tally && t.deciding == s.deciding && s.enqueued <= t.enqueued <= s.enqueued + {Review})
            || (&& !HasPost(s.op.findings) && HasPost(t.op.findings)
                && (forall k :: k in s.op.findings ==> k in t.op.findings)
                && (forall k :: k in t.op.findings && !t.op.findings[k] ==> k in s.op.findings && !s.op.findings[k])
                && t.op == s.op.(findings := t.op.findings, status := if escalates then Escalated else s.op.status)
                && t.deciding == s.deciding && t.enqueued == s.enqueued + {Review}
                && t.tally == s.tally.(
                     changes := s.tally.changes + One(escalates),
                     rescanEscalations := s.tally.rescanEscalations + One(escalates)))
  {
    hide InsertAll;
    var found := w.rescan(s.op.sanitized.value);
    InsertAllExact(s.op.findings, found, true);
    if InsertAll(s.op.findings, found, true).Some? {
      assert found[0] in InsertAll(s.op.findings, found, true).value;
    }
  }

  lemma DirtyRescanKeeps(w: World, s: System)
    requires Sound(w, s) && Enabled(s, DeliverRescan) && s.op.sanitized.Some? && w.rescan(s.op.sanitized.value) != []
    ensures Sound(w, Next(w, s, DeliverRescan))
  {
    hide HasPost, Next;
    DirtyRescanEffect(w, s);
  }

  lemma RefusalKeeps(w: World, s: System, d: Decision)
    requires Sound(w, s) && Enabled(s, Commit(d)) && d.HumanApprove? && s.op.status != Escalated
    ensures Sound(w, Next(w, s, Commit(d)))
  {
    hide HasPost;
    assert s.deciding != multiset{};
  }

  lemma ByPerson(redactions: multiset<Redaction>, r: Redaction)
    requires r.author != BySanitizer
    ensures redactions + multiset{r} != multiset{}
    ensures forall k :: (redactions + multiset{r})[Redaction(k, BySanitizer)] == redactions[Redaction(k, BySanitizer)]
  {
    assert r in redactions + multiset{r};
  }

  /** What a granted approval changes. */
  lemma ApprovalEffect(w: World, s: System, d: Decision)
    requires d in s.deciding && d.HumanApprove? && s.op.status == Escalated
    ensures var t := Next(w, s, Commit(d)); var done := t.op.status != Escalated;
            && t.op == s.op.(
                 redactions := s.op.redactions + multiset{Redaction(d.finding, ByReviewer)},
                 status := if done then Completed else Escalated,
                 sealedAs := if done then Some(Completed) else s.op.sealedAs)
            && t.enqueued == s.enqueued && t.deciding == s.deciding - multiset{d}
            && t.tally == s.tally.(
                 changes := s.tally.changes + One(done), freshDecisions := s.tally.freshDecisions + One(done),
                 seals := s.tally.seals + One(done), approvals := s.tally.approvals + 1)
  {
  }

  lemma ApprovalKeeps(w: World, s: System, d: Decision)
    requires Sound(w, s) && Enabled(s, Commit(d)) && d.HumanApprove? && s.op.status == Escalated
    ensures Sound(w, Next(w, s, Commit(d)))
  {
    hide HasPost, Next;
    ApprovalEffect(w, s, d);
    ByPerson(s.op.redactions, Redaction(d.finding, ByReviewer));
    assert s.deciding != multiset{};
  }

  /** What a decision changes that takes no lock. */
  lemma UnlockedEffect(w: World, s: System, d: Decision)
    requires d in s.deciding && !d.HumanApprove?
    ensures var t := Next(w, s, Commit(d)); var end := if d.Rejects() then Rejected else Completed;
            var ends, changed := s.op.status == Escalated, s.op.status != end;
            && t.op == s.op.(
                 redactions := if d.Rejects() then s.op.redactions
                               else s.op.redactions + multiset{Redaction(d.finding, ByAgent)},
                 status := end, sealedAs := Some(end))
            && t.enqueued == s.enqueued && t.deciding == s.deciding - multiset{d}
            && t.tally == s.tally.(
                 changes := s.tally.changes + One(changed), freshDecisions := s.tally.freshDecisions + One(ends),
                 staleDecisions := s.tally.staleDecisions + One(!ends),
                 staleChanges := s.tally.staleChanges + One(!ends && changed), seals := s.tally.seals + 1)
  {
  }

  lemma UnlockedDecisionKeeps(w: World, s: System, d: Decision)
    requires Sound(w, s) && Enabled(s, Commit(d)) && !d.HumanApprove?
    ensures Sound(w, Next(w, s, Commit(d)))
  {
    hide HasPost, Next;
    UnlockedEffect(w, s, d);
    ByPerson(s.op.redactions, Redaction(d.finding, ByAgent));
    assert s.deciding != multiset{};
  }

  lemma TasksInOrder(w: World, s: System)
    requires Sound(w, s)
    ensures Rescan in s.enqueued ==> s.op.sanitized.Some?
  {
  }

  lemma StepKeeps(w: World, s: System, step: Step)
    requires Sound(w, s)
    ensures Sound(w, Next(w, s, step))
  {
    hide Sound;
    if Enabled(s, step) {
      match step
      case DeliverScan(review) => ScanKeeps(w, s, review);
      case DeliverSanitize(redacted) => SanitizeKeeps(w, s, redacted);
      case DeliverAudit(stored) => AuditKeeps(w, s, stored);
      case DeliverRescan =>
        TasksInOrder(w, s);
        if w.rescan(s.op.sanitized.value) == [] { CleanRescanKeeps(w, s); } else { DirtyRescanKeeps(w, s); }
      case DeliverReview => assert Next(w, s, step) == s;
      case Check(d) => CheckKeeps(w, s, d);
      case Commit(d) =>
        if !d.HumanApprove? {
          UnlockedDecisionKeeps(w, s, d);
        } else if s.op.status == Escalated {
          ApprovalKeeps(w, s, d);
        } else {
          RefusalKeeps(w, s, d);
        }
    } else {
      assert Next(w, s, step) == s;
    }
  }

  lemma CheckKeeps(w: World, s: System, d: Decision)
    requires Sound(w, s) && Enabled(s, Check(d))
    ensures Sound(w, Next(w, s, Check(d)))
  {
  }

  lemma {:induction false} RunsAreSound(w: World, steps: seq<Step>)
    ensures Sound(w, Run(w, steps))
  {
    hide Sound, Next;
    if steps == [] {
      StartIsSound(w);
    } else {
      RunsAreSound(w, steps[..|steps| - 1]);
      StepKeeps(w, Run(w, steps[..|steps| - 1]), steps[|steps| - 1]);
    }
  }
}
