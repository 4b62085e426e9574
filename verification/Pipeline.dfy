/** One operation and the tasks and decisions that change it: `detector_agent.py`, `sanitizer_agent.py`,
    `auditor_agent.py`, `rescan_agent.py`, the review endpoints and the approval tool. Each database transaction is
    one function from the operation to its effect; `OperationRow` performs it on mutable fields. */
module Pipeline {
  import opened Wrappers

  datatype Status = Pending | Completed | Escalated | Approved | Rejected

  /** The columns of the unique constraint on findings, within one operation. */
  datatype Key = Key(rule: string, start: int, end: int)

  datatype Author = BySanitizer | ByReviewer | ByAgent

  datatype Redaction = Redaction(finding: Key, author: Author)

  /** `findings` maps each finding to its `is_post_sanitization` flag; `sealedAs` is the status that was sealed. */
  datatype Operation = Operation(
    status: Status,
    findings: map<Key, bool>,
    redactions: multiset<Redaction>,
    sanitized: Option<string>,
    artifacts: nat,
    sealedAs: Option<Status>
  )

  datatype Task = Scan | Sanitize | Audit | Rescan | Review

  datatype Decision =
    | HumanApprove(finding: Key)
    | HumanReject(finding: Key)
    | AgentApprove(finding: Key)
    | AgentReject(finding: Key)
  {
    predicate Rejects() { HumanReject? || AgentReject? }
  }

  /** What a transaction leaves, the tasks it enqueues, and whether it seals the operation. */
  datatype Effect = Effect(op: Operation, sends: set<Task>, seals: bool)

  function Nothing(op: Operation): Effect { Effect(op, {}, false) }

  function Fresh(): Operation { Operation(Pending, map[], multiset{}, None, 0, None) }

  /* ----- Inserting findings under the unique constraint ----- */

  /** None when some key is already there, or twice in the list: the transaction is rolled back. */
  function InsertAll(findings: map<Key, bool>, found: seq<Key>, post: bool): Option<map<Key, bool>> {
    if found == [] then Some(findings)
    else
      var n := |found| - 1;
      var before := InsertAll(findings, found[..n], post);
      if before.None? || found[n] in before.value then None else Some(before.value[found[n] := post])
  }

  lemma {:induction false} InsertAllAdds(findings: map<Key, bool>, found: seq<Key>, post: bool)
    requires InsertAll(findings, found, post).Some?
    ensures var after := InsertAll(findings, found, post).value;
            && (forall k :: k in after <==> k in findings || k in found)
            && (forall k :: k in findings ==> after[k] == findings[k])
            && (forall k :: k in found ==> after[k] == post)
  {
    if found != [] {
      var n := |found| - 1;
      InsertAllAdds(findings, found[..n], post);
      assert found == found[..n] + [found[n]];
    }
  }

  ghost predicate AllNew(findings: map<Key, bool>, found: seq<Key>) {
    && (forall i :: 0 <= i < |found| ==> found[i] !in findings)
    && (forall i, j :: 0 <= i < j < |found| ==> found[i] != found[j])
  }

  /** The insert succeeds exactly when all keys are new and different, and then adds exactly them. */
  lemma {:induction false} InsertAllExact(findings: map<Key, bool>, found: seq<Key>, post: bool)
    ensures InsertAll(findings, found, post).Some? <==> AllNew(findings, found)
    ensures InsertAll(findings, found, post).Some? ==>
              var after := InsertAll(findings, found, post).value;
              && (forall k :: k in after <==> k in findings || k in found)
              && (forall k :: k in findings ==> after[k] == findings[k])
              && (forall k :: k in found ==> after[k] == post)
  {
    if found != [] {
      var n := |found| - 1;
      var init := found[..n];
      InsertAllExact(findings, init, post);
      AllNewNext(findings, init, found[n]);
      assert found == init + [found[n]];
      hide AllNew;
    }
    if InsertAll(findings, found, post).Some? {
      InsertAllAdds(findings, found, post);
    }
  }

  lemma AllNewNext(findings: map<Key, bool>, found: seq<Key>, k: Key)
    ensures AllNew(findings, found + [k]) <==> AllNew(findings, found) && k !in findings && k !in found
  {
    var all := found + [k];
    assert all[|found|] == k;
    assert forall i :: 0 <= i < |found| ==> all[i] == found[i];
  }

  lemma {:induction false} InsertAllStaysNone(findings: map<Key, bool>, found: seq<Key>, post: bool, n: nat)
    requires n <= |found| && InsertAll(findings, found[..n], post).None?
    ensures InsertAll(findings, found, post).None?
    decreases |found| - n
  {
    if n < |found| {
      assert found[..n + 1][..n] == found[..n];
      InsertAllStaysNone(findings, found, post, n + 1);
    } else {
      assert found[..n] == found;
    }
  }

  predicate HasPost(findings: map<Key, bool>) {
    exists k :: k in findings && findings[k]
  }

  /* ----- The tasks ----- */

  /** `review` is what the policy answers about the findings. */
  function ScanTask(op: Operation, found: seq<Key>, review: bool): Effect {
    if op.status != Pending then Nothing(op)
    else
      var after := InsertAll(op.findings, found, false);
      if after.None? then Nothing(op)
      else if found != [] && review then Effect(op.(findings := after.value, status := Escalated), {Review}, false)
      else Effect(op.(findings := after.value, status := Pending), {Sanitize}, false)
  }

  function RedactionPerFinding(findings: map<Key, bool>): set<Redaction> {
    set k | k in findings :: Redaction(k, BySanitizer)
  }

  /** `redacted` is the document with its findings replaced. */
  function SanitizeTask(op: Operation, document: string, redacted: string): Effect {
    if op.redactions != multiset{} then Nothing(op)
    else if op.findings == map[] then Effect(op.(sanitized := Some(document)), {Audit, Rescan}, false)
    else
      Effect(op.(redactions := multiset(RedactionPerFinding(op.findings)), sanitized := Some(redacted)), {Audit, Rescan}, false)
  }

  /** `stored` tells whether the object store took the document. */
  function AuditTask(op: Operation, stored: bool): Effect {
    if op.artifacts > 0 || !stored then Nothing(op)
    else Effect(op.(artifacts := op.artifacts + 1, status := Completed, sealedAs := Some(Completed)), {}, true)
  }

  /** Statuses that the rescan leaves as they are. */
  predicate Settled(status: Status) {
    status == Escalated || status == Rejected || status == Approved
  }

  /** `found` is what the detectors find in the sanitized text. Where the status is settled no statement is flushed
      before the review is enqueued, so it is enqueued even if the insert fails at commit. */
  function RescanTask(op: Operation, found: seq<Key>): Effect {
    if op.sanitized == None || op.sanitized == Some("") || HasPost(op.findings) then Nothing(op)
    else if found == [] then
      Effect(if op.status == Pending then op.(status := Completed) else op, {}, false)
    else
      var after := InsertAll(op.findings, found, true);
      if after.None? then Effect(op, if Settled(op.status) then {Review} else {}, false)
      else
        Effect(op.(findings := after.value, status := if Settled(op.status) then op.status else Escalated), {Review}, false)
  }

  /* ----- The decisions ----- */

  function SealedWith(op: Operation, status: Status): Operation {
    op.(status := status, sealedAs := Some(status))
  }

  /** Only the human approval looks at the status again once it holds the row lock. */
  function DecisionTask(op: Operation, d: Decision): Effect {
    match d
    case HumanApprove(f) =>
      if op.status != Escalated then Nothing(op)
      else
        var after := op.(redactions := op.redactions + multiset{Redaction(f, ByReviewer)});
        if |after.redactions| >= |after.findings| then Effect(SealedWith(after, Completed), {}, true)
        else Effect(after, {}, false)
    case AgentApprove(f) =>
      Effect(SealedWith(op.(redactions := op.redactions + multiset{Redaction(f, ByAgent)}), Completed), {}, true)
    case _ => Effect(SealedWith(op, Rejected), {}, true)
  }

  /** The check before any decision, which takes no lock. */
  predicate MayDecide(op: Operation, d: Decision) {
    op.status == Escalated && d.finding in op.findings
  }

  /** The database rows of one operation. */
  class OperationRow {
    var status: Status
    var findings: map<Key, bool>
    var redactions: multiset<Redaction>
    var sanitized: Option<string>
    var artifacts: nat
    var sealedAs: Option<Status>

    constructor ()
      ensures View() == Fresh()
    {
      status := Pending;
      findings := map[];
      redactions := multiset{};
      sanitized := None;
      artifacts := 0;
      sealedAs := None;
    }

    function View(): Operation
      reads this
    {
      Operation(status, findings, redactions, sanitized, artifacts, sealedAs)
    }

    /** Adds the findings one by one to the transaction; false when the constraint rolls it back. */
    method Insert(found: seq<Key>, post: bool) returns (ok: bool)
      modifies this`findings
      ensures ok <==> InsertAll(old(findings), found, post).Some?
      ensures findings == if ok then InsertAll(old(findings), found, post).value else old(findings)
    {
      var staged := findings;
      for i := 0 to |found|
        invariant findings == old(findings)
        invariant InsertAll(findings, found[..i], post) == Some(staged)
      {
        assert found[..i + 1][..i] == found[..i];
        if found[i] in staged {
          InsertAllStaysNone(findings, found, post, i + 1);
          return false;
        }
        staged := staged[found[i] := post];
      }
      assert found[..|found|] == found;
      findings := staged;
      return true;
    }

    method ProcessScan(found: seq<Key>, review: bool) returns (sends: set<Task>)
      modifies this
      ensures View() == ScanTask(old(View()), found, review).op
      ensures sends == ScanTask(old(View()), found, review).sends
    {
      if status != Pending {
        return {};
      }
      var ok := Insert(found, false);
      if !ok {
        return {};
      }
      var requiresReview := false;
      if found != [] {
        requiresReview := review;
      }
      status := if requiresReview then Escalated else Pending;
      sends := if requiresReview then {Review} else {Sanitize};
    }

    method ProcessSanitize(document: string, redacted: string) returns (sends: set<Task>)
      modifies this
      ensures View() == SanitizeTask(old(View()), document, redacted).op
      ensures sends == SanitizeTask(old(View()), document, redacted).sends
    {
      if redactions != multiset{} {
        return {};
      }
      if findings == map[] {
        sanitized := Some(document);
      } else {
        var left, added := findings.Keys, {};
        while left != {}
          invariant left <= findings.Keys
          invariant added == set k | k in findings && k !in left :: Redaction(k, BySanitizer)
        {
          var k :| k in left;
          added := added + {Redaction(k, BySanitizer)};
          left := left - {k};
        }
        assert added == RedactionPerFinding(findings);
        redactions := multiset(added);
        sanitized := Some(redacted);
      }
      return {Audit, Rescan};
    }

    method ProcessAudit(stored: bool)
      modifies this
      ensures View() == AuditTask(old(View()), stored).op
    {
      if artifacts > 0 {
        return;
      }
      if !stored {
        return;
      }
      artifacts := artifacts + 1;
      status := Completed;
      sealedAs := Some(status);
    }

    method RescanOperation(found: seq<Key>) returns (sends: set<Task>)
      modifies this
      ensures View() == RescanTask(old(View()), found).op
      ensures sends == RescanTask(old(View()), found).sends
    {
      if sanitized == None || sanitized == Some("") {
        return {};
      }
      if HasPost(findings) {
        return {};
      }
      if found != [] {
        var ok := Insert(found, true);
        if !ok {
          return if Settled(status) then {Review} else {};
        }
        if !Settled(status) {
          status := Escalated;
        }
        return {Review};
      }
      if status == Pending {
        status := Completed;
      }
      return {};
    }

    /** `approve_finding` once the row lock is held; false is the conflict response. */
    method ApproveFinding(f: Key) returns (ok: bool)
      modifies this
      ensures View() == DecisionTask(old(View()), HumanApprove(f)).op
      ensures ok <==> old(status) == Escalated
    {
      if status != Escalated {
        return false;
      }
      redactions := redactions + multiset{Redaction(f, ByReviewer)};
      if |redactions| >= |findings| {
        status := Completed;
        sealedAs := Some(status);
      }
      return true;
    }

    /** `reject_finding` after its check. */
    method RejectFinding(f: Key)
      modifies this
      ensures View() == DecisionTask(old(View()), HumanReject(f)).op
    {
      status := Rejected;
      sealedAs := Some(status);
    }

    /** `tool_approve` after its check. */
    method ToolApprove(f: Key, approve: bool)
      modifies this
      ensures View() == DecisionTask(old(View()), if approve then AgentApprove(f) else AgentReject(f)).op
    {
      if approve {
        redactions := redactions + multiset{Redaction(f, ByAgent)};
        status := Completed;
        sealedAs := Some(status);
      } else {
        status := Rejected;
        sealedAs := Some(status);
      }
    }
  }
}
