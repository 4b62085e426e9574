/** The pipeline and the chain together: the status is one of the hashed fields, so a status that changes after the
    seal shows in the chain. */
module PipelineEvidence {
  import opened Evidence
  import opened HashChain
  import opened ChainTheorems
  import P = Pipeline
  import opened PipelineRuns
  import opened PipelineTheorems

  function StatusText(status: P.Status): string {
    match status
    case Pending => "pending"
    case Completed => "completed"
    case Escalated => "escalated"
    case Approved => "approved"
    case Rejected => "rejected"
  }

  lemma StatusTextsDiffer(a: P.Status, b: P.Status)
    requires StatusText(a) == StatusText(b)
    ensures a == b
  {
    var x := StatusText(a);
    assert |x| > 0;
    assert x[0] == StatusText(b)[0] && |x| == |StatusText(b)|;
  }

  /** The table when row `k` holds the status that the operation has now. */
  function WithStatus(rows: seq<Row>, k: nat, status: P.Status): seq<Row>
    requires k < |rows|
  {
    rows[k := rows[k].(rec := rows[k].rec.(status := StatusText(status)))]
  }

  lemma StatusIsHashed(rec: Record, status: string)
    ensures HashedFields(rec.(status := status)) == HashedFields(rec) <==> status == rec.status
  {
    assert HashedFields(rec.(status := status))[4] == ("status", status) && HashedFields(rec)[4] == ("status", rec.status);
  }

  /** Let row `k` of a valid chain be sealed with the status at the operation's last seal. The chain with the status
      that the operation has now is valid exactly unless a rescan reopened the operation after its audit; then
      verification fails at that very row. */
  lemma ReopenedOperationBreaksChain(w: World, steps: seq<Step>, sha: Hash, rows: seq<Row>, k: nat)
    requires HexDigests(sha) && AllLinked(sha, rows) && Sealed(rows, k)
    requires Run(w, steps).op.sealedAs.Some?
    requires rows[k].rec.status == StatusText(Run(w, steps).op.sealedAs.value)
    requires var rec := rows[k].rec.(status := StatusText(Run(w, steps).op.status));
             Ideal(sha, {Content(rec), Content(rows[k].rec),
                         LinkInput(sha, Head(rows[..k]), rec), LinkInput(sha, Head(rows[..k]), rows[k].rec)})
    ensures var op := Run(w, steps).op; var now := WithStatus(rows, k, op.status);
            && (AllLinked(sha, now) <==> !(op.status == P.Escalated && op.artifacts > 0))
            && (op.status == P.Escalated && op.artifacts > 0 ==> FirstBreak(sha, now, k))
  {
    hide Run, Content, LinkInput, Head, HashedFields, StatusText, AllLinked;
    var op := Run(w, steps).op;
    var rec := rows[k].rec.(status := StatusText(op.status));
    SealExact(w, steps);
    StatusIsHashed(rows[k].rec, StatusText(op.status));
    if op.status == P.Escalated && op.artifacts > 0 {
      if StatusText(op.status) == StatusText(op.sealedAs.value) {
        StatusTextsDiffer(op.status, op.sealedAs.value);
      }
      ChangedFieldBreaks(sha, rows, k, rec);
      BrokenIsNotLinked(sha, WithStatus(rows, k, op.status), k);
    } else {
      assert op.sealedAs.value == op.status;
      assert WithStatus(rows, k, op.status) == rows;
    }
  }

  lemma BrokenIsNotLinked(sha: Hash, rows: seq<Row>, b: nat)
    requires FirstBreak(sha, rows, b)
    ensures !AllLinked(sha, rows)
  {
  }
}
