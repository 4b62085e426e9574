/** Concurrent human approvals (`approve_finding` in `api/v1/review.py`): a check without a lock, then a second check
    under the row lock. */
module Approvals {
  import opened Wrappers
  import opened Sequences
  import opened Pipeline
  import opened PipelineRuns

  /** The approvals that an escalated operation still needs; even without open findings it takes one. */
  function Needed(op: Operation): int {
    Max(1, |op.findings| - |op.redactions|)
  }

  predicate IsApproval(step: Step) {
    (step.Check? || step.Commit?) && step.d.HumanApprove?
  }

  /** Where `s` stands after approvals that began at the escalated state `s0`. */
  ghost predicate Approving(s0: System, s: System) {
    var made := s.tally.approvals - s0.tally.approvals;
    && 0 <= made <= Needed(s0.op)
    && s.op.findings == s0.op.findings
    && |s.op.redactions| == |s0.op.redactions| + made
    && s.op.status == (if made < Needed(s0.op) then Escalated else Completed)
    && s.op.sealedAs == (if made < Needed(s0.op) then s0.op.sealedAs else Some(Completed))
    && s.tally.seals == s0.tally.seals + (if made < Needed(s0.op) then 0 else 1)
    && s.tally.refusals >= s0.tally.refusals
    && (made < Needed(s0.op) ==> s.tally.refusals == s0.tally.refusals)
  }

  lemma ApprovalStep(w: World, s0: System, s: System, step: Step)
    requires Approving(s0, s) && IsApproval(step)
    ensures Approving(s0, Next(w, s, step))
  {
    if step.Commit? && Enabled(s, step) && s.op.status == Escalated {
      assert |s.op.redactions + multiset{Redaction(step.d.finding, ByReviewer)}| == |s.op.redactions| + 1;
    }
  }

  lemma {:induction false} ApprovalRun(w: World, s0: System, steps: seq<Step>)
    requires s0.op.status == Escalated
    requires forall i :: 0 <= i < |steps| ==> IsApproval(steps[i])
    ensures Approving(s0, RunFrom(w, s0, steps))
  {
    hide Next;
    if steps != [] {
      var n := |steps| - 1;
      ApprovalRun(w, s0, steps[..n]);
      ApprovalStep(w, s0, RunFrom(w, s0, steps[..n]), steps[n]);
    }
  }

  /** The approvals that got as far as the lock. */
  function Attempts(s0: System, s: System): int {
    (s.tally.approvals - s0.tally.approvals) + (s.tally.refusals - s0.tally.refusals)
  }

  /** From an escalated operation with no other actor, whatever the order of checks and commits: of the approvals that
      reach the lock exactly the first `max(1, F - R)` succeed and all others are refused. With that many the
      operation is completed and sealed once; with fewer it stays escalated. */
  lemma {:induction false} ApprovalsExact(w: World, s0: System, steps: seq<Step>)
    requires s0.op.status == Escalated
    requires forall i :: 0 <= i < |steps| ==> IsApproval(steps[i])
    ensures var s := RunFrom(w, s0, steps); var n := Attempts(s0, s); var needed := Needed(s0.op);
            && s.tally.approvals - s0.tally.approvals == Min(n, needed)
            && s.tally.refusals - s0.tally.refusals == n - Min(n, needed)
            && |s.op.redactions| == |s0.op.redactions| + Min(n, needed)
            && s.op.status == (if n < needed then Escalated else Completed)
            && s.tally.seals - s0.tally.seals == (if n < needed then 0 else 1)
            && (n >= needed ==> s.op.sealedAs == Some(Completed))
  {
    hide RunFrom;
    ApprovalRun(w, s0, steps);
  }

  function Commits(ds: seq<Decision>): seq<Step> {
    if ds == [] then [] else Commits(ds[..|ds| - 1]) + [Commit(ds[|ds| - 1])]
  }

  lemma {:induction false} AllReachTheLock(w: World, s0: System, ds: seq<Decision>)
    requires multiset(ds) <= s0.deciding
    requires forall i :: 0 <= i < |ds| ==> ds[i].HumanApprove?
    ensures var s := RunFrom(w, s0, Commits(ds)); Attempts(s0, s) == |ds| && s.deciding == s0.deciding - multiset(ds)
    ensures |Commits(ds)| == |ds| && forall i :: 0 <= i < |ds| ==> IsApproval(Commits(ds)[i])
  {
    hide Next, IsApproval;
    if ds != [] {
      var n := |ds| - 1;
      var init, d := ds[..n], ds[n];
      assert ds == init + [d];
      LastIsLeft(s0.deciding, init, d);
      AllReachTheLock(w, s0, init);
      RunNext(w, s0, Commits(init), Commit(d));
      CommitStep(w, RunFrom(w, s0, Commits(init)), d);
    }
  }

  lemma LastIsLeft(deciding: multiset<Decision>, init: seq<Decision>, d: Decision)
    requires multiset(init + [d]) <= deciding
    ensures multiset(init) <= deciding && d in deciding - multiset(init)
    ensures deciding - multiset(init) - multiset{d} == deciding - multiset(init + [d])
  {
    assert multiset(init + [d]) == multiset(init) + multiset{d};
    assert deciding[d] >= multiset(init)[d] + 1;
  }

  lemma CommitStep(w: World, s: System, d: Decision)
    requires d in s.deciding && d.HumanApprove?
    ensures var t := Next(w, s, Commit(d));
            && t.tally.approvals + t.tally.refusals == s.tally.approvals + s.tally.refusals + 1
            && t.deciding == s.deciding - multiset{d}
    ensures IsApproval(Commit(d))
  {
  }

  /** However many approvals passed the first check while the operation was escalated, and in whatever order they then
      take the lock: exactly `max(1, F - R)` of them succeed if there are that many. */
  lemma {:induction false} ConcurrentApprovals(w: World, s0: System, ds: seq<Decision>)
    requires s0.op.status == Escalated && multiset(ds) <= s0.deciding
    requires forall i :: 0 <= i < |ds| ==> ds[i].HumanApprove?
    ensures var s := RunFrom(w, s0, Commits(ds)); var needed := Needed(s0.op);
            && s.tally.approvals - s0.tally.approvals == Min(|ds|, needed)
            && s.tally.refusals - s0.tally.refusals == |ds| - Min(|ds|, needed)
            && s.op.status == (if |ds| < needed then Escalated else Completed)
            && s.tally.seals - s0.tally.seals == (if |ds| < needed then 0 else 1)
  {
    hide RunFrom;
    AllReachTheLock(w, s0, ds);
    ApprovalsExact(w, s0, Commits(ds));
  }
}
