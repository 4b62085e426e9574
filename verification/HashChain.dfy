/** Walking and checking the per-tenant hash chain (`core/chain.py`). */
module HashChain {
  import opened Wrappers
  import opened Evidence

  datatype ChainReport = ChainReport(
    valid: bool,
    checked: nat,
    firstBrokenAt: Option<string>,
    gaps: seq<string>)

  /** Row `i` is unsealed, or its hash links to the newest sealed row before it. */
  predicate Linked(sha: Hash, rows: seq<Row>, i: nat)
    requires i < |rows|
  {
    rows[i].chainHash.Some? ==> rows[i].chainHash.value == ChainHash(sha, Head(rows[..i]), rows[i].rec)
  }

  predicate AllLinked(sha: Hash, rows: seq<Row>) {
    forall i :: 0 <= i < |rows| ==> Linked(sha, rows, i)
  }

  /** The number of sealed rows. */
  function SealedCount(rows: seq<Row>): nat {
    if rows == [] then 0
    else SealedCount(rows[..|rows| - 1]) + if rows[|rows| - 1].chainHash.Some? then 1 else 0
  }

  /** The ids of the unsealed rows, in order. */
  function UnsealedIds(rows: seq<Row>): seq<string> {
    if rows == [] then []
    else UnsealedIds(rows[..|rows| - 1]) + if rows[|rows| - 1].chainHash.Some? then [] else [rows[|rows| - 1].rec.id]
  }

  /** The report of a walk over all of `rows`; once broken, it no longer changes. */
  function Report(sha: Hash, rows: seq<Row>): ChainReport {
    if rows == [] then ChainReport(true, 0, None, [])
    else
      var r := Report(sha, rows[..|rows| - 1]);
      var op := rows[|rows| - 1];
      if !r.valid then r
      else if op.chainHash.None? then ChainReport(true, r.checked, None, r.gaps + [op.rec.id])
      else if Linked(sha, rows, |rows| - 1) then ChainReport(true, r.checked + 1, None, r.gaps)
      else ChainReport(false, r.checked + 1, Some(op.rec.id), r.gaps)
  }

  /** `b` is the first row at which the walk breaks. */
  ghost predicate FirstBreak(sha: Hash, rows: seq<Row>, b: nat) {
    && b < |rows|
    && !Linked(sha, rows, b)
    && AllLinked(sha, rows[..b])
  }

  lemma {:induction false} BreakIsFinal(sha: Hash, rows: seq<Row>, n: nat)
    requires n <= |rows| && !Report(sha, rows[..n]).valid
    ensures Report(sha, rows) == Report(sha, rows[..n])
    decreases |rows|
  {
    if n < |rows| {
      var init := rows[..|rows| - 1];
      assert init[..n] == rows[..n];
      BreakIsFinal(sha, init, n);
    } else {
      assert rows[..n] == rows;
    }
  }

  /** The walk says valid exactly when every row is linked; then it counted every sealed row and listed every
      unsealed one. */
  lemma {:induction false} ReportWhenValid(sha: Hash, rows: seq<Row>)
    ensures Report(sha, rows).valid <==> AllLinked(sha, rows)
    ensures Report(sha, rows).valid ==> Report(sha, rows) == ChainReport(true, SealedCount(rows), None, UnsealedIds(rows))
    decreases |rows|
  {
    hide OperationHash;
    if rows != [] {
      var n := |rows| - 1;
      ReportWhenValid(sha, rows[..n]);
      PrefixLinked(sha, rows, n);
      assert AllLinked(sha, rows) <==> AllLinked(sha, rows[..n]) && Linked(sha, rows, n);
    }
  }

  /** When the chain is broken, the report names the first unlinked row. Only the unsealed rows before it are
      listed as gaps, because the walk stops there. */
  lemma {:induction false} ReportWhenBroken(sha: Hash, rows: seq<Row>, b: nat)
    requires FirstBreak(sha, rows, b)
    ensures Report(sha, rows)
         == ChainReport(false, SealedCount(rows[..b]) + 1, Some(rows[b].rec.id), UnsealedIds(rows[..b]))
  {
    ReportWhenValid(sha, rows[..b]);
    assert rows[..b + 1][..b] == rows[..b];
    BreakIsFinal(sha, rows, b + 1);
  }

  /** What row `i` has to link to: the chain hash of the newest sealed row before it, or 64 zeros. */
  ghost predicate Precedes(rows: seq<Row>, i: int, prev: string) {
    && 0 <= i < |rows|
    && ((prev == seq(64, _ => '0') && forall j :: 0 <= j < i ==> rows[j].chainHash.None?)
        || exists j :: && 0 <= j < i && rows[j].chainHash == Some(prev)
                       && forall k :: j < k < i ==> rows[k].chainHash.None?)
  }

  lemma {:induction false} PrecedesHead(rows: seq<Row>, i: nat)
    requires i < |rows|
    ensures forall prev :: Precedes(rows, i, prev) <==> prev == Head(rows[..i])
  {
    hide Head;
    assert forall p :: 0 <= p < i ==> rows[..i][p] == rows[p];
    if exists q: nat :: q < i && Sealed(rows, q) {
      var q := LastSealed(rows, i);
      forall prev | Precedes(rows, i, prev) ensures prev == Head(rows[..i]) {
        var j :| 0 <= j < i && rows[j].chainHash == Some(prev) && forall k :: j < k < i ==> rows[k].chainHash.None?;
        HeadIsNewest(rows[..i], j);
      }
      forall k | q < k < i ensures rows[k].chainHash.None? {
        assert !Sealed(rows, k);
      }
      assert rows[q].chainHash == Some(Head(rows[..i]));
    } else {
      forall j | 0 <= j < i ensures !Sealed(rows[..i], j) && rows[j].chainHash.None? {
        assert !Sealed(rows, j);
      }
      HeadSkips(rows[..i], 0);
      assert rows[..i][..0] == [];
      NoHead();
    }
  }

  lemma NoHead()
    ensures Head([]) == seq(64, _ => '0')
  {
    assert GENESIS == seq(64, _ => '0');
  }

  /** The verdict, from the rows alone. */
  lemma {:induction false} VerdictExact(sha: Hash, rows: seq<Row>)
    ensures Report(sha, rows).valid
       <==> forall i, prev :: Precedes(rows, i, prev) && rows[i].chainHash.Some? ==>
              rows[i].chainHash.value == sha(prev + sha(Content(rows[i].rec)))
  {
    hide Precedes, Head, Report, Content;
    ReportWhenValid(sha, rows);
    forall i | 0 <= i < |rows| ensures forall prev :: Precedes(rows, i, prev) <==> prev == Head(rows[..i]) {
      PrecedesHead(rows, i);
    }
    LinkedText(sha, rows);
    PrecedesInside(rows);
  }

  lemma PrecedesInside(rows: seq<Row>)
    ensures forall i, prev :: Precedes(rows, i, prev) ==> 0 <= i < |rows|
  {
  }

  lemma LinkedText(sha: Hash, rows: seq<Row>)
    ensures forall i :: 0 <= i < |rows| ==>
              (Linked(sha, rows, i)
               <==> (rows[i].chainHash.Some? ==> rows[i].chainHash.value == sha(Head(rows[..i]) + sha(Content(rows[i].rec)))))
  {
    hide Head, Content;
  }

  function SealedPlaces(rows: seq<Row>): set<nat> {
    set i | 0 <= i < |rows| && rows[i].chainHash.Some?
  }

  /** The unsealed row `i` is listed behind the unsealed rows before it. */
  ghost predicate GapAt(gaps: seq<string>, rows: seq<Row>, i: nat)
    requires i < |rows|
  {
    var k := i - |SealedPlaces(rows[..i])|;
    0 <= k < |gaps| && gaps[k] == rows[i].rec.id
  }

  /** The counts of a walk without a break, from the rows alone. */
  lemma {:induction false} CountsExact(rows: seq<Row>)
    ensures SealedCount(rows) == |SealedPlaces(rows)| <= |rows|
    ensures |UnsealedIds(rows)| == |rows| - SealedCount(rows)
  {
    if rows == [] {
      assert SealedPlaces(rows) == {};
    } else {
      var n := |rows| - 1;
      CountsExact(rows[..n]);
      assert SealedPlaces(rows) == SealedPlaces(rows[..n]) + if rows[n].chainHash.Some? then {n} else {};
      assert n !in SealedPlaces(rows[..n]);
    }
  }

  lemma {:induction false} GapsInOrder(rows: seq<Row>, i: nat)
    requires i < |rows| && rows[i].chainHash.None?
    ensures GapAt(UnsealedIds(rows), rows, i)
    decreases |rows|
  {
    hide SealedPlaces;
    var n := |rows| - 1;
    CountsExact(rows[..i]);
    CountsExact(rows[..n]);
    if i < n {
      GapsInOrder(rows[..n], i);
      assert rows[..n][..i] == rows[..i];
    }
  }

  /** What a walk reports, from the rows alone. */
  lemma {:induction false} ReportExact(sha: Hash, rows: seq<Row>)
    ensures var r := Report(sha, rows);
            && (r.valid <==> forall i, prev :: Precedes(rows, i, prev) && rows[i].chainHash.Some? ==>
                               rows[i].chainHash.value == sha(prev + sha(Content(rows[i].rec))))
            && (r.valid ==>
                  && r.checked == |SealedPlaces(rows)| && r.firstBrokenAt == None && |r.gaps| == |rows| - r.checked
                  && forall i :: 0 <= i < |rows| && rows[i].chainHash.None? ==> GapAt(r.gaps, rows, i))
  {
    hide Report, Precedes, SealedPlaces, GapAt, AllLinked, Content;
    VerdictExact(sha, rows);
    CountsExact(rows);
    ReportWhenValid(sha, rows);
    forall i | 0 <= i < |rows| && rows[i].chainHash.None? ensures GapAt(UnsealedIds(rows), rows, i) {
      GapsInOrder(rows, i);
    }
  }

  function Walked(table: seq<Row>, limit: nat): seq<Row> {
    if limit < |table| then table[..limit] else table
  }

  lemma WalkStarts(sha: Hash)
    ensures Report(sha, []) == ChainReport(true, 0, None, []) && Head([]) == GENESIS
  {
  }

  /** One more row on a walk that is valid so far. */
  lemma {:induction false} WalkNext(sha: Hash, rows: seq<Row>, i: nat)
    requires i < |rows| && Report(sha, rows[..i]).valid
    ensures var r := Report(sha, rows[..i]); var op := rows[i];
            Report(sha, rows[..i + 1])
            == if op.chainHash.None? then ChainReport(true, r.checked, None, r.gaps + [op.rec.id])
               else if op.chainHash.value == ChainHash(sha, Head(rows[..i]), op.rec) then ChainReport(true, r.checked + 1, None, r.gaps)
               else ChainReport(false, r.checked + 1, Some(op.rec.id), r.gaps)
    ensures Head(rows[..i + 1]) == if rows[i].chainHash.Some? then rows[i].chainHash.value else Head(rows[..i])
  {
    hide ChainHash;
    assert rows[..i + 1][..i] == rows[..i];
  }

  /** `verify_chain` over the first `limit` rows. */
  method VerifyChain(sha: Hash, table: seq<Row>, limit: nat) returns (r: ChainReport)
    ensures r == Report(sha, Walked(table, limit))
    ensures var rows := if limit < |table| then table[..limit] else table;
            && (r.valid <==> forall i, prev :: Precedes(rows, i, prev) && rows[i].chainHash.Some? ==>
                               rows[i].chainHash.value == sha(prev + sha(Content(rows[i].rec))))
            && (r.valid ==>
                  && r.checked == |SealedPlaces(rows)| && r.firstBrokenAt == None && |r.gaps| == |rows| - r.checked
                  && forall i :: 0 <= i < |rows| && rows[i].chainHash.None? ==> GapAt(r.gaps, rows, i))
  {
    hide OperationHash, Precedes, SealedPlaces, GapAt, Report, Head;
    WalkStarts(sha);
    var operations := Walked(table, limit);
    if operations == [] {
      ReportExact(sha, operations);
      return ChainReport(true, 0, None, []);
    }
    var gaps: seq<string> := [];
    var firstBrokenAt: Option<string> := None;
    var prevHash := GENESIS;
    var checked := 0;
    var i := 0;
    assert operations[..0] == [];
    while i < |operations|
      invariant 0 <= i <= |operations|
      invariant prevHash == Head(operations[..i])
      invariant firstBrokenAt == None
      invariant Report(sha, operations[..i]) == ChainReport(true, checked, None, gaps)
    {
      var op := operations[i];
      WalkNext(sha, operations, i);
      if op.chainHash.None? {
        gaps := gaps + [op.rec.id];
      } else {
        checked := checked + 1;
        if op.chainHash.value != ChainHash(sha, prevHash, op.rec) {
          firstBrokenAt := Some(op.rec.id);
          BreakIsFinal(sha, operations, i + 1);
          break;
        }
        prevHash := op.chainHash.value;
      }
      i := i + 1;
    }
    assert operations[..|operations|] == operations;
    r := ChainReport(firstBrokenAt == None, checked, firstBrokenAt, gaps);
    ReportExact(sha, operations);
  }

  /* ----- Two places of a valid chain never carry the same hash ----- */

  /** The strings that verifying `rows` hashes into links. */
  ghost function WalkInputs(sha: Hash, rows: seq<Row>): set<string> {
    set i | 0 <= i < |rows| && Sealed(rows, i) :: LinkInput(sha, Head(rows[..i]), rows[i].rec)
  }

  lemma PrefixLinked(sha: Hash, rows: seq<Row>, n: nat)
    requires n <= |rows|
    ensures forall i :: 0 <= i < n ==> (Linked(sha, rows[..n], i) <==> Linked(sha, rows, i))
    ensures AllLinked(sha, rows) ==> AllLinked(sha, rows[..n])
    ensures WalkInputs(sha, rows[..n]) <= WalkInputs(sha, rows)
  {
    forall i | 0 <= i < n ensures rows[..n][..i] == rows[..i] && rows[..n][i] == rows[i] {}
    forall x | x in WalkInputs(sha, rows[..n]) ensures x in WalkInputs(sha, rows) {
      var i :| 0 <= i < n && Sealed(rows[..n], i) && x == LinkInput(sha, Head(rows[..n][..i]), rows[..n][i].rec);
      assert Sealed(rows, i);
    }
  }

  /** What the last row of a valid chain says of the head after it. */
  lemma HeadAfter(sha: Hash, rows: seq<Row>, k: nat)
    requires AllLinked(sha, rows) && Sealed(rows, k)
    ensures Head(rows[..k + 1]) == sha(LinkInput(sha, Head(rows[..k]), rows[k].rec))
    ensures LinkInput(sha, Head(rows[..k]), rows[k].rec) in WalkInputs(sha, rows)
  {
    assert Linked(sha, rows, k);
  }

  /** The heads before and after a sealed row differ, and so do all later ones. */
  lemma {:induction false} HeadsDiffer(sha: Hash, rows: seq<Row>, i: nat, k: nat, j: nat)
    requires HexDigests(sha) && AllLinked(sha, rows) && Ideal(sha, WalkInputs(sha, rows))
    requires i <= k < j <= |rows| && Sealed(rows, k)
    ensures Head(rows[..i]) != Head(rows[..j])
    decreases j
  {
    hide OperationHash;
    if !Sealed(rows, j - 1) {
      assert rows[..j][..j - 1] == rows[..j - 1];
      HeadsDiffer(sha, rows, i, k, j - 1);
      return;
    }
    HeadAfter(sha, rows, j - 1);
    if exists q: nat :: q < i && Sealed(rows, q) {
      var q := LastSealed(rows, i);
      HeadAfter(sha, rows, q);
      if Head(rows[..i]) == Head(rows[..j]) {
        LinkInputInjective(sha, Head(rows[..q]), rows[q].rec, Head(rows[..j - 1]), rows[j - 1].rec);
        HeadsDiffer(sha, rows, q, q, j - 1);
      }
    } else {
      assert forall p :: 0 <= p < i ==> (Sealed(rows[..i], p) <==> Sealed(rows, p));
      HeadSkips(rows[..i], 0);
    }
  }

  lemma {:induction false} LastSealed(rows: seq<Row>, i: nat) returns (q: nat)
    requires i <= |rows| && exists q: nat :: q < i && Sealed(rows, q)
    ensures q < i && Sealed(rows, q) && Head(rows[..i]) == rows[q].chainHash.value == Head(rows[..q + 1])
    ensures forall p :: q < p < i ==> !Sealed(rows, p)
  {
    q := i - 1;
    while !Sealed(rows, q)
      invariant 0 <= q < i
      invariant exists p: nat :: p <= q && Sealed(rows, p)
      invariant forall p :: q < p < i ==> !Sealed(rows, p)
      decreases q
    {
      q := q - 1;
    }
    assert forall p :: 0 <= p < i ==> (Sealed(rows[..i], p) <==> Sealed(rows, p));
    HeadIsNewest(rows[..i], q);
  }
}
