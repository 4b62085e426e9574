/** Runs of one concrete operation, which the exact bounds on the pipeline need as examples. */
module PipelineWitness {
  import opened Wrappers
  import opened Pipeline
  import opened PipelineRuns
  import Findings
  import Sanitizer
  import Splicing

  const ADDRESS: string := "a@b"
  const REST: string := " Eve"
  const DOCUMENT: string := ADDRESS + REST
  const CLEANED: string := Sanitizer.MARKER + REST
  const EMAIL: Key := Key("email", 0, 3)
  const NAME: Key := Key("name", 11, 14)

  /** A document with an e-mail address whose sanitized text still holds a name. */
  function Leaky(): World {
    World(DOCUMENT, [EMAIL], text => [NAME])
  }

  /** The sanitized text of the runs below is the one that the sanitizer makes of this document. */
  lemma CleanedIsSanitized()
    ensures var f := Findings.Finding("1", EMAIL.rule, EMAIL.start, EMAIL.end, Findings.High);
            Sanitizer.SpliceEach(DOCUMENT, [f], map["1" := Sanitizer.SeverityToRedactionType(f.severity)]) == CLEANED
  {
    hide Splicing.Splice, Sanitizer.MARKER;
    var f := Findings.Finding("1", EMAIL.rule, EMAIL.start, EMAIL.end, Findings.High);
    assert [f][..0] == [];
    assert |ADDRESS| == 3;
    FirstPart(ADDRESS, REST, Sanitizer.MARKER);
  }

  lemma FirstPart(first: string, rest: string, marker: string)
    ensures Splicing.Splice(first + rest, Splicing.Patch(0, |first|, marker)) == marker + rest
  {
    assert (first + rest)[..0] == "" && (first + rest)[|first|..] == rest;
  }

  function UntilSanitized(): seq<Step> {
    [DeliverScan(false)] + [DeliverSanitize(CLEANED)]
  }

  /** The rescan comes before the audit. */
  function UntilEscalated(): seq<Step> {
    UntilSanitized() + [DeliverRescan]
  }

  /** The rescan comes after the audit. */
  function ReopenedRun(): seq<Step> {
    UntilSanitized() + [DeliverAudit(true)] + [DeliverRescan]
  }

  lemma {:induction false} OneInsert(findings: map<Key, bool>, k: Key, post: bool)
    requires k !in findings
    ensures InsertAll(findings, [k], post) == Some(findings[k := post])
  {
    assert [k][..0] == [];
    assert InsertAll(findings, [], post) == Some(findings);
  }

  /** The first scan of a document in which one thing is found. */
  lemma ScanStep(w: World, k: Key, review: bool)
    requires w.scan == [k]
    ensures var t := Next(w, Start(), DeliverScan(review));
            && t.op == Fresh().(findings := map[k := false], status := if review then Escalated else Pending)
            && (!review ==> Sanitize in t.enqueued)
            && t.tally.changes == t.tally.scanEscalations == (if review then 1 else 0)
            && t.tally.seals == t.tally.staleDecisions == 0
  {
    var e := ScanTask(Fresh(), [k], review);
    ScanEffect(k, review);
    hide ScanTask;
    assert EffectOf(w, Start(), DeliverScan(review)) == e;
  }

  lemma ScanEffect(k: Key, review: bool)
    ensures ScanTask(Fresh(), [k], review)
         == Effect(Fresh().(findings := map[k := false], status := if review then Escalated else Pending),
                   {if review then Review else Sanitize}, false)
  {
    hide InsertAll;
    OneInsert(map[], k, false);
  }

  lemma LeakyScan()
    ensures Leaky().scan == [EMAIL]
  {
  }

  lemma FirstStep(w: World, step: Step)
    ensures Run(w, [step]) == Next(w, Start(), step)
  {
    hide Next;
    assert [step][..0] == [];
    assert RunFrom(w, Start(), [step][..0]) == Start();
  }

  /** Where the operation stands once its e-mail address is redacted. */
  ghost predicate IsSanitized(s: System) {
    && s.op.findings == map[EMAIL := false] && s.op.sanitized == Some(CLEANED) && |s.op.redactions| == 1
    && Rescan in s.enqueued
  }

  lemma Sanitized()
    ensures var s := Run(Leaky(), UntilSanitized());
            && IsSanitized(s) && s.op.status == Pending && s.op.artifacts == 0 && Audit in s.enqueued
            && s.tally.changes == s.tally.seals == s.tally.staleDecisions == 0
  {
    hide EMAIL, Next, Leaky, CLEANED, IsSanitized, Run;
    var w := Leaky();
    LeakyScan();
    FirstStep(w, DeliverScan(false));
    ScanStep(w, EMAIL, false);
    RunNext(w, Start(), [DeliverScan(false)], DeliverSanitize(CLEANED));
    SanitizeStep(Next(w, Start(), DeliverScan(false)));
    RunIsFromStart(w, [DeliverScan(false)]);
    RunIsFromStart(w, UntilSanitized());
  }

  lemma {:induction false} RunIsFromStart(w: World, steps: seq<Step>)
    ensures Run(w, steps) == RunFrom(w, Start(), steps)
  {
  }

  lemma SanitizeStep(s: System)
    requires s.op == Fresh().(findings := map[EMAIL := false]) && Sanitize in s.enqueued
    requires s.tally.changes == s.tally.seals == s.tally.staleDecisions == 0
    ensures var t := Next(Leaky(), s, DeliverSanitize(CLEANED));
            && IsSanitized(t) && t.op.status == Pending && t.op.artifacts == 0 && Audit in t.enqueued
            && t.tally.changes == t.tally.seals == t.tally.staleDecisions == 0
  {
    hide EMAIL, CLEANED;
    assert EMAIL in s.op.findings;
    assert RedactionPerFinding(s.op.findings) == {Redaction(EMAIL, BySanitizer)};
  }

  lemma NamesDiffer()
    ensures NAME != EMAIL && CLEANED != ""
  {
    hide Sanitizer.MARKER, ADDRESS;
    assert EMAIL.start != NAME.start;
    assert |REST| > 0 && |CLEANED| == |Sanitizer.MARKER| + |REST|;
  }

  /** The rescan finds the name that is left. */
  lemma RescanStep(s: System)
    requires IsSanitized(s) && s.op.status in {Pending, Completed}
    ensures var t := Next(Leaky(), s, DeliverRescan);
            && t.op.status == Escalated && EMAIL in t.op.findings && |t.op.findings| == 2 && |t.op.redactions| == 1
            && t.op.artifacts == s.op.artifacts && t.op.sealedAs == s.op.sealedAs
            && s.enqueued <= t.enqueued && t.deciding == s.deciding
            && t.tally.changes == s.tally.changes + 1 && t.tally.seals == s.tally.seals
            && t.tally.staleDecisions == s.tally.staleDecisions
  {
    NamesDiffer();
    hide InsertAll, EMAIL, NAME, CLEANED;
    OneInsert(s.op.findings, NAME, true);
    assert !HasPost(s.op.findings);
  }

  lemma Escalation()
    ensures var s := Run(Leaky(), UntilEscalated());
            && s.op.status == Escalated && EMAIL in s.op.findings && |s.op.findings| == 2 && |s.op.redactions| == 1
            && s.op.artifacts == 0 && Audit in s.enqueued && s.tally.changes == 1
  {
    hide EMAIL, Next, Leaky, UntilSanitized, IsSanitized;
    Sanitized();
    RunNext(Leaky(), Start(), UntilSanitized(), DeliverRescan);
    RescanStep(Run(Leaky(), UntilSanitized()));
  }

  lemma Reopened()
    ensures var s := Run(Leaky(), ReopenedRun());
            && s.op.status == Escalated && EMAIL in s.op.findings && |s.op.findings| == 2 && |s.op.redactions| == 1
            && s.op.sealedAs == Some(Completed)
            && s.tally.changes == 2 && s.tally.seals == 1 && s.tally.staleDecisions == 0
  {
    hide Leaky, UntilSanitized, Next, RunFrom, EMAIL, CLEANED;
    var w := Leaky();
    var r2 := UntilSanitized();
    var r3 := r2 + [DeliverAudit(true)];
    Sanitized();
    RunNext(w, Start(), r2, DeliverAudit(true));
    AuditStep(w, Run(w, r2));
    RunNext(w, Start(), r3, DeliverRescan);
    RescanStep(Run(w, r3));
  }

  /* ----- Single steps ----- */

  lemma CheckStep(w: World, s: System, d: Decision)
    requires MayDecide(s.op, d)
    ensures var t := Next(w, s, Check(d));
            t.op == s.op && t.enqueued == s.enqueued && t.deciding == s.deciding + multiset{d} && t.tally == s.tally
  {
  }

  /** A decision that takes no lock ends in its status whatever the status was. */
  lemma UnlockedStep(w: World, s: System, d: Decision)
    requires d in s.deciding && !d.HumanApprove?
    ensures var t := Next(w, s, Commit(d)); var end := if d.Rejects() then Rejected else Completed;
            && t.op.status == end && t.enqueued == s.enqueued && t.deciding == s.deciding - multiset{d}
            && t.op.artifacts == s.op.artifacts && t.op.sealedAs == Some(end)
            && t.tally.changes == s.tally.changes + One(s.op.status != end)
            && t.tally.seals == s.tally.seals + 1
            && t.tally.staleDecisions == s.tally.staleDecisions + One(s.op.status != Escalated)
            && t.tally.scanEscalations == s.tally.scanEscalations
  {
  }

  /** An approval of the last open finding of an escalated operation completes it, whoever gives it. */
  lemma ApprovalStep(w: World, s: System, d: Decision)
    requires d in s.deciding && !d.Rejects()
    requires s.op.status == Escalated && |s.op.redactions| + 1 >= |s.op.findings|
    ensures var t := Next(w, s, Commit(d));
            && t.op.status == Completed && t.enqueued == s.enqueued && t.deciding == s.deciding - multiset{d}
            && t.op.artifacts == s.op.artifacts && t.tally.changes == s.tally.changes + 1
            && t.tally.scanEscalations == s.tally.scanEscalations
  {
    assert |s.op.redactions + multiset{Redaction(d.finding, ByReviewer)}| == |s.op.redactions| + 1;
  }

  lemma AuditStep(w: World, s: System)
    requires Audit in s.enqueued && s.op.artifacts == 0
    ensures var t := Next(w, s, DeliverAudit(true));
            && t.op == s.op.(artifacts := 1, status := Completed, sealedAs := Some(Completed))
            && t.deciding == s.deciding && t.enqueued == s.enqueued
            && t.tally.changes == s.tally.changes + One(s.op.status != Completed)
            && t.tally.seals == s.tally.seals + 1 && t.tally.staleDecisions == s.tally.staleDecisions
  {
  }

  /* ----- Runs with two to five changes ----- */

  /** One decision of any kind after the rescan reopened the archived operation. */
  function ThreeChangesRun(d: Decision): seq<Step> {
    ReopenedRun() + [Check(d)] + [Commit(d)]
  }

  lemma ThreeChanges(d: Decision)
    requires d.finding == EMAIL
    ensures Run(Leaky(), ThreeChangesRun(d)).tally.changes == 3
  {
    hide Leaky, ReopenedRun, Next, RunFrom, EMAIL;
    var w, r4 := Leaky(), ReopenedRun();
    var r5 := r4 + [Check(d)];
    Reopened();
    RunNext(w, Start(), r4, Check(d));
    CheckStep(w, Run(w, r4), d);
    RunNext(w, Start(), r5, Commit(d));
    if d.Rejects() { UnlockedStep(w, Run(w, r5), d); } else { ApprovalStep(w, Run(w, r5), d); }
  }

  /** Two rejections with the audit in between. */
  function FourChangesRun(d: Decision): seq<Step> {
    UntilEscalated() + [Check(d)] + [Check(d)] + [Commit(d)] + [DeliverAudit(true)] + [Commit(d)]
  }

  lemma FourChanges(d: Decision)
    requires d.Rejects() && d.finding == EMAIL
    ensures Run(Leaky(), FourChangesRun(d)).tally.changes == 4
  {
    hide Leaky, UntilEscalated, Next, RunFrom, EMAIL;
    var w, r3 := Leaky(), UntilEscalated();
    var r4 := r3 + [Check(d)];
    var r5 := r4 + [Check(d)];
    var r6 := r5 + [Commit(d)];
    var r7 := r6 + [DeliverAudit(true)];
    Escalation();
    RunNext(w, Start(), r3, Check(d));
    CheckStep(w, Run(w, r3), d);
    RunNext(w, Start(), r4, Check(d));
    CheckStep(w, Run(w, r4), d);
    RunNext(w, Start(), r5, Commit(d));
    UnlockedStep(w, Run(w, r5), d);
    RunNext(w, Start(), r6, DeliverAudit(true));
    AuditStep(w, Run(w, r6));
    RunNext(w, Start(), r7, Commit(d));
    UnlockedStep(w, Run(w, r7), d);
  }

  /** An approval, a stale rejection, the audit, and another stale rejection. */
  function FiveChangesRun(approve: Decision, reject: Decision): seq<Step> {
    UntilEscalated() + [Check(approve)] + [Check(reject)] + [Check(reject)]
      + [Commit(approve)] + [Commit(reject)] + [DeliverAudit(true)] + [Commit(reject)]
  }

  lemma FiveChanges(approve: Decision, reject: Decision)
    requires !approve.Rejects() && approve.finding == EMAIL && reject.Rejects() && reject.finding == EMAIL
    ensures Run(Leaky(), FiveChangesRun(approve, reject)).tally.changes == 5
  {
    hide Leaky, UntilEscalated, Next, RunFrom, EMAIL;
    var w, r3 := Leaky(), UntilEscalated();
    var r4 := r3 + [Check(approve)];
    var r5 := r4 + [Check(reject)];
    var r6 := r5 + [Check(reject)];
    var r7 := r6 + [Commit(approve)];
    var r8 := r7 + [Commit(reject)];
    var r9 := r8 + [DeliverAudit(true)];
    Escalation();
    RunNext(w, Start(), r3, Check(approve));
    CheckStep(w, Run(w, r3), approve);
    RunNext(w, Start(), r4, Check(reject));
    CheckStep(w, Run(w, r4), reject);
    RunNext(w, Start(), r5, Check(reject));
    CheckStep(w, Run(w, r5), reject);
    RunNext(w, Start(), r6, Commit(approve));
    ApprovalStep(w, Run(w, r6), approve);
    RunNext(w, Start(), r7, Commit(reject));
    UnlockedStep(w, Run(w, r7), reject);
    RunNext(w, Start(), r8, DeliverAudit(true));
    AuditStep(w, Run(w, r8));
    RunNext(w, Start(), r9, Commit(reject));
    UnlockedStep(w, Run(w, r9), reject);
  }

  /** The scan escalates; a rejection that was checked beside the approval comes after it. */
  function ScanEscalatedRun(approve: Decision, reject: Decision): seq<Step> {
    [DeliverScan(true)] + [Check(approve)] + [Check(reject)] + [Commit(approve)] + [Commit(reject)]
  }

  lemma ScanEscalatedChanges(approve: Decision, reject: Decision)
    requires !approve.Rejects() && approve.finding == EMAIL && reject.Rejects() && reject.finding == EMAIL
    ensures var t := Run(Leaky(), ScanEscalatedRun(approve, reject)).tally; t.scanEscalations == 1 && t.changes == 3
  {
    hide Leaky, Next, RunFrom, EMAIL;
    var w, r1 := Leaky(), [DeliverScan(true)];
    var r2 := r1 + [Check(approve)];
    var r3 := r2 + [Check(reject)];
    var r4 := r3 + [Commit(approve)];
    LeakyScan();
    FirstStep(w, DeliverScan(true));
    ScanStep(w, EMAIL, true);
    RunNext(w, Start(), r1, Check(approve));
    CheckStep(w, Run(w, r1), approve);
    RunNext(w, Start(), r2, Check(reject));
    CheckStep(w, Run(w, r2), reject);
    RunNext(w, Start(), r3, Commit(approve));
    ApprovalStep(w, Run(w, r3), approve);
    RunNext(w, Start(), r4, Commit(reject));
    UnlockedStep(w, Run(w, r4), reject);
  }

  /* ----- Runs with any number of changes ----- */

  function Checks(n: nat, d: Decision): seq<Step> {
    if n == 0 then [] else Checks(n - 1, d) + [Check(d)]
  }

  lemma {:induction false} ChecksRun(w: World, s: System, d: Decision, n: nat)
    requires MayDecide(s.op, d)
    ensures var t := RunFrom(w, s, Checks(n, d));
            && t.op == s.op && t.tally == s.tally && t.enqueued == s.enqueued
            && t.deciding[d] == s.deciding[d] + n
            && forall e :: e != d ==> t.deciding[e] == s.deciding[e]
  {
    hide Next;
    if n > 0 {
      ChecksRun(w, s, d, n - 1);
      RunNext(w, s, Checks(n - 1, d), Check(d));
      CheckStep(w, RunFrom(w, s, Checks(n - 1, d)), d);
    }
  }

  /** Commits a rejection and an agent's approval in turn. */
  function Flips(n: nat, reject: Decision, approve: Decision): seq<Step> {
    if n == 0 then [] else Flips(n - 1, reject, approve) + [Commit(reject)] + [Commit(approve)]
  }

  lemma {:induction false} FlipsRun(w: World, s: System, reject: Decision, approve: Decision, n: nat)
    requires reject.Rejects() && approve.AgentApprove?
    requires s.op.status != Rejected && s.deciding[reject] >= n && s.deciding[approve] >= n
    ensures var t := RunFrom(w, s, Flips(n, reject, approve));
            && t.op.status != Rejected && t.tally.changes >= s.tally.changes + n
            && t.deciding[reject] >= s.deciding[reject] - n
            && t.deciding[approve] >= s.deciding[approve] - n
  {
    hide Next;
    if n > 0 {
      var before := Flips(n - 1, reject, approve);
      FlipsRun(w, s, reject, approve, n - 1);
      FlipStep(w, RunFrom(w, s, before), reject, approve);
      RunNext(w, s, before, Commit(reject));
      RunNext(w, s, before + [Commit(reject)], Commit(approve));
    }
  }

  lemma FlipStep(w: World, s: System, reject: Decision, approve: Decision)
    requires reject.Rejects() && approve.AgentApprove? && s.op.status != Rejected
    requires reject in s.deciding && approve in s.deciding
    ensures var t := Next(w, Next(w, s, Commit(reject)), Commit(approve));
            && t.op.status == Completed && t.tally.changes == s.tally.changes + 2
            && t.deciding == s.deciding - multiset{reject} - multiset{approve}
  {
    hide Next;
    UnlockedStep(w, s, reject);
    assert approve != reject;
    UnlockedStep(w, Next(w, s, Commit(reject)), approve);
  }

  function FlippingRun(n: nat, reject: Decision, approve: Decision): seq<Step> {
    UntilEscalated() + Checks(n, reject) + Checks(n, approve) + Flips(n, reject, approve)
  }

  /** No number bounds the changes: rejections and an agent's approvals that were all checked while the operation was
      escalated overwrite each other. */
  lemma ChangesAreUnbounded(n: nat, reject: Decision, approve: Decision)
    requires reject.Rejects() && approve.AgentApprove? && reject.finding == approve.finding == EMAIL
    ensures Run(Leaky(), FlippingRun(n, reject, approve)).tally.changes >= n
  {
    hide Leaky, UntilEscalated, Next, RunFrom, Checks, Flips, EMAIL;
    var w, a := Leaky(), UntilEscalated();
    var b, c := Checks(n, reject), Checks(n, approve);
    Escalation();
    RunConcat(w, Start(), a, b);
    ChecksRun(w, Run(w, a), reject, n);
    RunConcat(w, Start(), a + b, c);
    ChecksRun(w, Run(w, a + b), approve, n);
    RunConcat(w, Start(), a + b + c, Flips(n, reject, approve));
    FlipsRun(w, Run(w, a + b + c), reject, approve, n);
  }
}
