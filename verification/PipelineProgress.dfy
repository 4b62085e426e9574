/** What each delivered task and each committed decision does, and that a document gets through the pipeline. */
module PipelineProgress {
  import opened Wrappers
  import opened Pipeline
  import opened PipelineRuns

  /* ----- The scan ----- */

  /** The insert of the scan's findings goes through. */
  ghost predicate ScanInserts(w: World, s: System) {
    Scan in s.enqueued && s.op.status == Pending && AllNew(s.op.findings, w.scan)
  }

  /** A scan escalates if and only if the operation is pending, its findings are new and there are some, and the policy
      asks for review; it enqueues the sanitizer if and only if it goes through and does not escalate, a document without
      findings included; and it adds exactly the findings of the document, unmarked. */
  lemma ScanExact(w: World, s: System, review: bool)
    ensures var t := Next(w, s, DeliverScan(review));
            && (t.op.status == if ScanInserts(w, s) && w.scan != [] && review then Escalated else s.op.status)
            && (Sanitize in t.enqueued <==> Sanitize in s.enqueued || (ScanInserts(w, s) && (w.scan == [] || !review)))
            && (Review in t.enqueued <==> Review in s.enqueued || (ScanInserts(w, s) && w.scan != [] && review))
            && (forall k :: k in t.op.findings <==> k in s.op.findings || (ScanInserts(w, s) && k in w.scan))
            && (forall k :: k in t.op.findings ==> t.op.findings[k] == (k in s.op.findings && s.op.findings[k]))
            && t.op.redactions == s.op.redactions && t.op.sanitized == s.op.sanitized
            && t.op.artifacts == s.op.artifacts && t.op.sealedAs == s.op.sealedAs && t.deciding == s.deciding
  {
    hide InsertAll, AllNew;
    InsertAllExact(s.op.findings, w.scan, false);
    if AllNew(s.op.findings, w.scan) {
      NewKeys(s.op.findings, w.scan);
    }
  }

  lemma NewKeys(findings: map<Key, bool>, found: seq<Key>)
    requires AllNew(findings, found)
    ensures forall k :: k in found ==> k !in findings
  {
    forall k | k in found ensures k !in findings {
      var i :| 0 <= i < |found| && found[i] == k;
    }
  }

  /* ----- The sanitizer ----- */

  /** A sanitizer delivery that finds no redaction makes one for each finding, sets the text, the unchanged document where
      there are no findings, and enqueues audit and rescan; any other changes nothing. */
  lemma SanitizeExact(w: World, s: System, redacted: string)
    ensures var t := Next(w, s, DeliverSanitize(redacted));
            var acts := Sanitize in s.enqueued && s.op.redactions == multiset{};
            && t.op.sanitized == (if !acts then s.op.sanitized
                                  else if s.op.findings == map[] then Some(w.document) else Some(redacted))
            && (forall r :: t.op.redactions[r]
                         == if acts && r.author == BySanitizer && r.finding in s.op.findings then 1 else s.op.redactions[r])
            && (Audit in t.enqueued <==> Audit in s.enqueued || acts)
            && (Rescan in t.enqueued <==> Rescan in s.enqueued || acts)
            && t.op.status == s.op.status && t.op.findings == s.op.findings && t.op.artifacts == s.op.artifacts
            && t.op.sealedAs == s.op.sealedAs && t.deciding == s.deciding
  {
  }

  /* ----- The audit ----- */

  /** The first audit whose document is stored archives it, completes the operation from any status and seals it; any other
      changes nothing. */
  lemma AuditExact(w: World, s: System, stored: bool)
    ensures var t := Next(w, s, DeliverAudit(stored));
            var acts := Audit in s.enqueued && s.op.artifacts == 0 && stored;
            && t.op.artifacts == (if acts then 1 else s.op.artifacts)
            && t.op.status == (if acts then Completed else s.op.status)
            && t.op.sealedAs == (if acts then Some(Completed) else s.op.sealedAs)
            && t.tally.seals == s.tally.seals + (if acts then 1 else 0)
            && t.op.findings == s.op.findings && t.op.redactions == s.op.redactions && t.op.sanitized == s.op.sanitized
            && t.enqueued == s.enqueued && t.deciding == s.deciding
  {
  }

  /* ----- The rescan ----- */

  /** A rescan looks at a text only if there is one and no earlier rescan found anything. */
  ghost predicate Rescans(s: System) {
    Rescan in s.enqueued && s.op.sanitized.Some? && s.op.sanitized.value != "" && !HasPost(s.op.findings)
  }

  /** A rescan completes an operation if and only if it is pending and nothing is found in its text; it escalates it if and
      only if it is pending or completed and the findings in its text are new and there are some. It then adds exactly
      those, marked. */
  lemma RescanExact(w: World, s: System)
    ensures var t := Next(w, s, DeliverRescan);
            var found := if s.op.sanitized.Some? then w.rescan(s.op.sanitized.value) else [];
            var adds := Rescans(s) && found != [] && AllNew(s.op.findings, found);
            && t.op.status == (if Rescans(s) && found == [] && s.op.status == Pending then Completed
                               else if adds && s.op.status in {Pending, Completed} then Escalated else s.op.status)
            && (forall k :: k in t.op.findings <==> k in s.op.findings || (adds && k in found))
            && (forall k :: k in t.op.findings ==> t.op.findings[k] == (if k in s.op.findings then s.op.findings[k] else true))
            && (Review in t.enqueued <==> Review in s.enqueued || adds
                                          || (Rescans(s) && found != [] && s.op.status in {Escalated, Rejected, Approved}))
            && t.op.redactions == s.op.redactions && t.op.sanitized == s.op.sanitized
            && t.op.artifacts == s.op.artifacts && t.op.sealedAs == s.op.sealedAs && t.deciding == s.deciding
  {
    hide InsertAll, AllNew;
    var found := if s.op.sanitized.Some? then w.rescan(s.op.sanitized.value) else [];
    InsertAllExact(s.op.findings, found, true);
    if AllNew(s.op.findings, found) {
      NewKeys(s.op.findings, found);
    }
  }

  /** In every run: a rescan completes the operation if and only if it was enqueued, the operation is pending, its
      sanitized text is not empty, and the detectors find nothing in that text. */
  lemma {:induction false} CleanRescanCompletes(w: World, steps: seq<Step>)
    ensures var s := Run(w, steps); var t := Next(w, s, DeliverRescan);
            var clean := && Rescan in s.enqueued && s.op.status == Pending
                         && s.op.sanitized.Some? && s.op.sanitized.value != "" && w.rescan(s.op.sanitized.value) == [];
            && (s.op.status != Completed && t.op.status == Completed <==> clean)
            && t.tally.cleanCompletions == s.tally.cleanCompletions + (if clean then 1 else 0)
  {
    hide Run, Next;
    var s := Run(w, steps);
    RunsAreSound(w, steps);
    RescanExact(w, s);
    RescanCounts(w, s);
  }

  lemma RescanCounts(w: World, s: System)
    ensures var t := Next(w, s, DeliverRescan);
            t.tally.cleanCompletions
              == s.tally.cleanCompletions + (if s.op.status != Completed && t.op.status == Completed then 1 else 0)
  {
    hide RescanTask;
  }

  /* ----- Decisions ----- */

  /** A check passes only while the operation is escalated and has the finding; then the decision may be committed once. */
  lemma CheckExact(w: World, s: System, d: Decision)
    ensures var t := Next(w, s, Check(d));
            && t.op == s.op && t.enqueued == s.enqueued
            && t.deciding == if s.op.status == Escalated && d.finding in s.op.findings then s.deciding + multiset{d} else s.deciding
  {
  }

  /** A human approval counts only if the operation is still escalated; it adds one redaction and completes and seals the
      operation if there are then as many redactions as findings. All other decisions take effect whatever the status is:
      an agent's approval adds one redaction and completes, a rejection rejects, and each seals. */
  lemma DecisionExact(w: World, s: System, d: Decision)
    requires d in s.deciding
    ensures var t := Next(w, s, Commit(d));
            var refused := d.HumanApprove? && s.op.status != Escalated;
            var approves := (d.HumanApprove? || d.AgentApprove?) && !refused;
            var author := if d.HumanApprove? then ByReviewer else ByAgent;
            var open := d.HumanApprove? && |s.op.redactions| + 1 < |s.op.findings|;
            var end := if d.HumanReject? || d.AgentReject? then Rejected else Completed;
            && t.op.redactions == s.op.redactions + (if approves then multiset{Redaction(d.finding, author)} else multiset{})
            && t.op.status == (if refused || open then s.op.status else end)
            && t.op.sealedAs == (if refused || open then s.op.sealedAs else Some(end))
            && t.op.findings == s.op.findings && t.op.sanitized == s.op.sanitized && t.op.artifacts == s.op.artifacts
            && t.enqueued == s.enqueued && t.deciding == s.deciding - multiset{d}
  {
    if !d.HumanApprove? {
      hide Next;
      UnlockedEffect(w, s, d);
    } else if s.op.status == Escalated {
      ApprovalCompletes(w, s, d);
      hide Next;
      ApprovalEffect(w, s, d);
    }
  }

  lemma ApprovalCompletes(w: World, s: System, d: Decision)
    requires d in s.deciding && d.HumanApprove? && s.op.status == Escalated
    ensures Next(w, s, Commit(d)).op.status == Escalated <==> |s.op.redactions| + 1 < |s.op.findings|
  {
    assert |s.op.redactions + multiset{Redaction(d.finding, ByReviewer)}| == |s.op.redactions| + 1;
  }

  /* ----- A document on its way ----- */

  lemma TwoSteps(w: World, a: Step, b: Step)
    ensures Run(w, [a, b]) == Next(w, Next(w, Start(), a), b)
  {
    hide Next;
    assert [a, b][..1] == [a] && [a][..0] == [];
    assert RunFrom(w, Start(), []) == Start();
    assert RunFrom(w, Start(), [a]) == Next(w, Start(), a);
  }

  lemma NewToNone(found: seq<Key>)
    requires forall i, j :: 0 <= i < j < |found| ==> found[i] != found[j]
    ensures AllNew(map[], found)
  {
  }

  lemma NewExactly(findings: map<Key, bool>, found: seq<Key>)
    ensures AllNew(findings, found)
       <==> (forall k :: k in found ==> k !in findings) && (forall i, j :: 0 <= i < j < |found| ==> found[i] != found[j])
  {
    if AllNew(findings, found) {
      NewKeys(findings, found);
    }
    forall i | 0 <= i < |found| ensures found[i] in found {}
  }

  lemma SomeKey(findings: map<Key, bool>, found: seq<Key>)
    requires forall k :: k in findings <==> k in found
    ensures findings == map[] <==> found == []
  {
    if found != [] {
      assert found[0] in findings;
    }
  }

  /** Where a document stands that needs no review, before its rescan. */
  lemma {:induction false} DocumentIsSanitized(w: World, redacted: string)
    requires forall i, j :: 0 <= i < j < |w.scan| ==> w.scan[i] != w.scan[j]
    ensures var s := Run(w, [DeliverScan(false), DeliverSanitize(redacted)]);
            && s.op.status == Pending && {Audit, Rescan} <= s.enqueued
            && s.op.sanitized == Some(if w.scan == [] then w.document else redacted)
            && (forall k :: k in s.op.findings <==> k in w.scan) && !HasPost(s.op.findings)
            && (forall r :: s.op.redactions[r] == if r.author == BySanitizer && r.finding in w.scan then 1 else 0)
            && s.op.artifacts == 0 && s.op.sealedAs == None && s.tally.cleanCompletions == 0
  {
    hide Next, Run, AllNew, Sound;
    var s1 := Next(w, Start(), DeliverScan(false));
    TwoSteps(w, DeliverScan(false), DeliverSanitize(redacted));
    NewToNone(w.scan);
    ScanExact(w, Start(), false);
    SomeKey(s1.op.findings, w.scan);
    SanitizeExact(w, s1, redacted);
    RunsAreSound(w, [DeliverScan(false), DeliverSanitize(redacted)]);
    PendingMeansEarly(w, Run(w, [DeliverScan(false), DeliverSanitize(redacted)]));
  }

  lemma PendingMeansEarly(w: World, s: System)
    requires Sound(w, s) && s.op.status == Pending
    ensures s.tally.cleanCompletions == 0 && !HasPost(s.op.findings)
  {
  }

  lemma ThirdStep(w: World, a: Step, b: Step, c: Step)
    ensures Run(w, [a, b, c]) == Next(w, Run(w, [a, b]), c)
  {
    hide Next;
    assert [a, b, c][..2] == [a, b];
  }

  /** A document whose findings need no review gets its text and one redaction for each finding, and then the rescan decides:
      clean text completes it, without an artifact or a seal; a new finding escalates it. */
  lemma {:induction false} DocumentGetsThrough(w: World, redacted: string)
    requires forall i, j :: 0 <= i < j < |w.scan| ==> w.scan[i] != w.scan[j]
    ensures var s := Run(w, [DeliverScan(false), DeliverSanitize(redacted), DeliverRescan]);
            var text := if w.scan == [] then w.document else redacted;
            && s.op.sanitized == Some(text)
            && (forall r :: s.op.redactions[r] == if r.author == BySanitizer && r.finding in w.scan then 1 else 0)
            && s.op.artifacts == 0 && s.op.sealedAs == None && {Audit, Rescan} <= s.enqueued
            && (text != "" && w.rescan(text) == [] ==> s.op.status == Completed && s.tally.cleanCompletions == 1)
            && (text == "" ==> s.op.status == Pending)
            && (text != "" && w.rescan(text) != [] ==>
                  s.op.status == if (forall k :: k in w.rescan(text) ==> k !in w.scan)
                                    && (forall i, j :: 0 <= i < j < |w.rescan(text)| ==> w.rescan(text)[i] != w.rescan(text)[j])
                                 then Escalated else Pending)
  {
    hide Next, Run, AllNew;
    var s2 := Run(w, [DeliverScan(false), DeliverSanitize(redacted)]);
    DocumentIsSanitized(w, redacted);
    ThirdStep(w, DeliverScan(false), DeliverSanitize(redacted), DeliverRescan);
    RescanExact(w, s2);
    NewExactly(s2.op.findings, w.rescan(s2.op.sanitized.value));
    CleanRescanCompletes(w, [DeliverScan(false), DeliverSanitize(redacted)]);
    RescanKeepsTasks(w, s2);
  }

  lemma RescanKeepsTasks(w: World, s: System)
    ensures s.enqueued <= Next(w, s, DeliverRescan).enqueued
  {
    hide RescanTask;
  }

  /** A clean rescan does complete an operation, before any artifact exists. */
  lemma CleanCompletionIsReachable()
    ensures exists w, steps :: var s := Run(w, steps);
              s.op.status == Completed && s.tally.cleanCompletions == 1 && s.op.artifacts == 0 && s.op.sealedAs == None
  {
    hide Run;
    var w := World("x", [], text => []);
    var steps := [DeliverScan(false), DeliverSanitize(""), DeliverRescan];
    DocumentGetsThrough(w, "");
    assert Run(w, steps).op.status == Completed;
  }
}
