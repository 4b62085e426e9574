/** Signed anchors of the chain head (`api/v1/audit.py`). */
module Anchors {
  import opened Wrappers
  import opened Evidence
  import opened HashChain
  import opened ChainTheorems

  datatype Anchor = Anchor(chainHeadHash: string, operationsCount: nat, signature: Signature)

  datatype Creation =
    | Forbidden
    | NothingToAnchor
    | SigningUnavailable
    | Created(anchor: Anchor)

  datatype AnchorStatus = AnchorStatus(anchored: bool, anchorValid: Option<bool>, headMatches: Option<bool>)

  /** The anchors of one tenant, oldest first. */
  class AnchorStore {
    var anchors: seq<Anchor>

    constructor ()
      ensures anchors == []
    {
      anchors := [];
    }

    /** `create_chain_anchor`: fail-closed, so an anchor is stored only with a signature over a non-genesis head. */
    method CreateChainAnchor(rows: seq<Row>, isAdmin: bool, signing: Option<Signature>) returns (r: Creation)
      modifies this
      ensures r.Created? <==> isAdmin && LatestChainHash(rows) != GENESIS && signing.Some?
      ensures r.Created? ==> r.anchor == Anchor(LatestChainHash(rows), SealedCount(rows), signing.value)
      ensures r.Forbidden? <==> !isAdmin
      ensures r.NothingToAnchor? <==> isAdmin && LatestChainHash(rows) == GENESIS
      ensures anchors == if r.Created? then old(anchors) + [r.anchor] else old(anchors)
    {
      if !isAdmin {
        return Forbidden;
      }
      var head := LatestChainHash(rows);
      if head == GENESIS {
        return NothingToAnchor;
      }
      if signing.None? {
        return SigningUnavailable;
      }
      r := Created(Anchor(head, SealedCount(rows), signing.value));
      anchors := anchors + [r.anchor];
    }

    /** `_verify_latest_anchor`: the newest anchor against the live head. */
    method VerifyLatestAnchor(rows: seq<Row>, verify: (string, Signature) -> bool) returns (r: AnchorStatus)
      ensures !r.anchored <==> anchors == []
      ensures anchors == [] ==> r == AnchorStatus(false, None, None)
      ensures anchors != [] ==>
                var anchor := anchors[|anchors| - 1];
                && r.anchorValid == Some(verify(anchor.chainHeadHash, anchor.signature))
                && r.headMatches == Some(LatestChainHash(rows) == anchor.chainHeadHash)
    {
      if anchors == [] {
        return AnchorStatus(false, None, None);
      }
      var anchor := anchors[|anchors| - 1];
      var liveHead := LatestChainHash(rows);
      r := AnchorStatus(true, Some(verify(anchor.chainHeadHash, anchor.signature)), Some(liveHead == anchor.chainHeadHash));
    }
  }

  /** The hashed fields of the sealed rows, in order. */
  function SealedFields(rows: seq<Row>): seq<seq<(string, string)>> {
    if rows == [] then []
    else
      var n := |rows| - 1;
      SealedFields(rows[..n]) + if rows[n].chainHash.Some? then [HashedFields(rows[n].rec)] else []
  }

  ghost function Contents(rows: seq<Row>): set<string> {
    set i | 0 <= i < |rows| && Sealed(rows, i) :: Content(rows[i].rec)
  }

  /** Every string hashed when the valid chain `rows` was built. */
  ghost function Hashed(sha: Hash, rows: seq<Row>): set<string> {
    WalkInputs(sha, rows) + Contents(rows)
  }

  lemma HashedPrefix(sha: Hash, rows: seq<Row>, n: nat)
    requires n <= |rows|
    ensures Hashed(sha, rows[..n]) <= Hashed(sha, rows)
  {
    PrefixLinked(sha, rows, n);
    forall x | x in Contents(rows[..n]) ensures x in Contents(rows) {
      var i :| 0 <= i < n && Sealed(rows[..n], i) && x == Content(rows[..n][i].rec);
      assert Sealed(rows, i);
    }
  }

  lemma {:induction false} LinkedIsHex(sha: Hash, rows: seq<Row>)
    requires HexDigests(sha) && AllLinked(sha, rows)
    ensures HexChain(rows) && LatestChainHash(rows) == Head(rows)
  {
    hide OperationHash;
    forall i | 0 <= i < |rows| && Sealed(rows, i) ensures |rows[i].chainHash.value| == 64 {
      assert Linked(sha, rows, i);
    }
    HexHead(rows);
  }

  /** Two sealed rows with one chain hash carry the same fields and link to the same head. */
  lemma SameLinkSameRow(sha: Hash, a: seq<Row>, b: seq<Row>, i: nat, j: nat)
    requires HexDigests(sha) && AllLinked(sha, a) && AllLinked(sha, b)
    requires Ideal(sha, Hashed(sha, a) + Hashed(sha, b))
    requires Sealed(a, i) && Sealed(b, j) && a[i].chainHash == b[j].chainHash
    ensures Head(a[..i]) == Head(b[..j]) && HashedFields(a[i].rec) == HashedFields(b[j].rec)
  {
    hide WalkInputs, Content;
    HeadAfter(sha, a, i);
    HeadAfter(sha, b, j);
    assert Linked(sha, a, i) && Linked(sha, b, j);
    LinkInputInjective(sha, Head(a[..i]), a[i].rec, Head(b[..j]), b[j].rec);
    assert Content(a[i].rec) in Contents(a) && Content(b[j].rec) in Contents(b);
    ContentInjective(a[i].rec, b[j].rec);
  }

  /** Two valid chains with one head have the same sealed rows, field by field and in the same order. */
  lemma {:induction false} SameHeadSameHistory(sha: Hash, a: seq<Row>, b: seq<Row>)
    requires HexDigests(sha) && AllLinked(sha, a) && AllLinked(sha, b)
    requires Ideal(sha, Hashed(sha, a) + Hashed(sha, b))
    requires Head(a) == Head(b)
    ensures SealedFields(a) == SealedFields(b)
    decreases |a| + |b|
  {
    hide OperationHash, HashedFields, Hashed, Content;
    var m, n := |a| - 1, |b| - 1;
    if a != [] && !Sealed(a, m) {
      HashedPrefix(sha, a, m);
      PrefixLinked(sha, a, m);
      SameHeadSameHistory(sha, a[..m], b);
    } else if b != [] && !Sealed(b, n) {
      HashedPrefix(sha, b, n);
      PrefixLinked(sha, b, n);
      SameHeadSameHistory(sha, a, b[..n]);
    } else if a != [] && b != [] {
      SameLinkSameRow(sha, a, b, m, n);
      HashedPrefix(sha, a, m);
      HashedPrefix(sha, b, n);
      PrefixLinked(sha, a, m);
      PrefixLinked(sha, b, n);
      SameHeadSameHistory(sha, a[..m], b[..n]);
    } else if a != [] || b != [] {
      NotGenesis(sha, if a != [] then a else b);
    }
  }

  lemma {:induction false} NotGenesis(sha: Hash, rows: seq<Row>)
    requires rows != [] && AllLinked(sha, rows) && Sealed(rows, |rows| - 1)
    requires Ideal(sha, Hashed(sha, rows))
    ensures Head(rows) != GENESIS
  {
    hide OperationHash, WalkInputs;
    HeadAfter(sha, rows, |rows| - 1);
    assert rows[..|rows|] == rows;
  }

  /** A matching anchor pins the whole history: if the walk over all rows was valid when the anchor was made and
      is valid now, and the live head still equals the anchored one, then the sealed rows have the same six hashed
      fields, in the same order, as they had then. */
  lemma {:induction false} AnchorPinsHistory(sha: Hash, before: seq<Row>, now: seq<Row>, anchor: Anchor)
    requires HexDigests(sha) && Ideal(sha, Hashed(sha, now) + Hashed(sha, before))
    requires Report(sha, before).valid && anchor.chainHeadHash == LatestChainHash(before)
    requires Report(sha, now).valid && LatestChainHash(now) == anchor.chainHeadHash
    ensures SealedFields(now) == SealedFields(before)
  {
    hide OperationHash, Hashed;
    ReportWhenValid(sha, before);
    ReportWhenValid(sha, now);
    LinkedIsHex(sha, before);
    LinkedIsHex(sha, now);
    SameHeadSameHistory(sha, now, before);
  }

  /* ----- Rows sealed out of creation order ----- */

  /** The `n`-th seal of `order` went to a row newer than all rows sealed before it. */
  predicate NewestYet(order: seq<Sealing>, n: nat)
    requires n < |order|
  {
    forall t :: 0 <= t < n ==> order[t].row < order[n].row
  }

  /** The rows from the head of the table back along the links: those that were the newest when they were sealed. */
  function Lineage(sha: Hash, rows: seq<Row>, order: seq<Sealing>, n: nat): seq<Row>
    requires InRange(|rows|, order) && n <= |order|
  {
    if n == 0 then []
    else
      Lineage(sha, rows, order, n - 1)
        + if NewestYet(order, n - 1) then [SealFirst(sha, rows, order, n)[order[n - 1].row]] else []
  }

  /** The seal of a row moves the head to that row's hash if no newer row is sealed, and leaves it alone otherwise. */
  lemma {:induction false} HeadAfterSeal(sha: Hash, rows: seq<Row>, s: Sealing)
    requires HexDigests(sha) && s.row < |rows|
    ensures (forall i :: s.row < i < |rows| ==> !Sealed(rows, i)) ==>
              Head(Seal(sha, rows, s)) == ChainHash(sha, LatestChainHash(rows), rows[s.row].rec)
    ensures (exists i :: s.row < i < |rows| && Sealed(rows, i)) ==> Head(Seal(sha, rows, s)) == Head(rows)
  {
    hide OperationHash, Seal, ChainHash, Head, LatestChainHash;
    var after, k := Seal(sha, rows, s), s.row;
    SealWrites(sha, rows, s);
    forall i | k < i < |rows| ensures after[i] == rows[i] && (Sealed(after, i) <==> Sealed(rows, i)) {
      SealLeavesOthers(sha, rows, s, i);
    }
    if j :| k < j < |rows| && Sealed(rows, j) {
      NewestBehind(rows, after, k);
    } else {
      HeadIsNewest(after, k);
    }
  }

  /** Tables that agree behind a place where some row is sealed have one head. */
  lemma {:induction false} NewestBehind(a: seq<Row>, b: seq<Row>, k: nat)
    requires |a| == |b| && k < |a| && (forall i :: k < i < |a| ==> a[i] == b[i])
    requires exists i :: k < i < |a| && Sealed(a, i)
    ensures Head(a) == Head(b)
    decreases |a|
  {
    var n := |a| - 1;
    if !Sealed(a, n) {
      var i :| k < i < |a| && Sealed(a, i);
      assert Sealed(a[..n], i);
      NewestBehind(a[..n], b[..n], k);
    }
  }

  lemma {:induction false} LineageNext(sha: Hash, lineage: seq<Row>, row: Row)
    requires AllLinked(sha, lineage) && row.chainHash == Some(ChainHash(sha, Head(lineage), row.rec))
    ensures AllLinked(sha, lineage + [row]) && Head(lineage + [row]) == row.chainHash.value
    ensures WalkInputs(sha, lineage + [row]) == WalkInputs(sha, lineage) + {LinkInput(sha, Head(lineage), row.rec)}
  {
    hide ChainHash, LinkInput;
    var all := lineage + [row];
    var n := |lineage|;
    assert all[..n] == lineage && all[n] == row && Sealed(all, n);
    forall i | 0 <= i < n
      ensures all[..i] == lineage[..i] && (Sealed(all, i) <==> Sealed(lineage, i))
    {
    }
    forall i | 0 <= i < |all| ensures Linked(sha, all, i) {
      assert i < n ==> Linked(sha, lineage, i);
    }
    assert LinkInput(sha, Head(all[..n]), all[n].rec) in WalkInputs(sha, all);
    forall x | x in WalkInputs(sha, lineage) ensures x in WalkInputs(sha, all) {
      var i :| 0 <= i < n && Sealed(lineage, i) && x == LinkInput(sha, Head(lineage[..i]), lineage[i].rec);
      assert Sealed(all, i) && x == LinkInput(sha, Head(all[..i]), all[i].rec);
    }
  }

  /** The first `n` seals hash the inputs of the lineage. */
  ghost function FirstInputs(sha: Hash, rows: seq<Row>, order: seq<Sealing>, n: nat): set<string>
    requires InRange(|rows|, order) && n <= |order|
  {
    set t | 0 <= t < n :: LinkInput(sha, LatestChainHash(SealFirst(sha, rows, order, t)), rows[order[t].row].rec)
  }

  /** A seal of the newest row yet extends the lineage. */
  lemma {:induction false} NewestExtends(sha: Hash, rows: seq<Row>, order: seq<Sealing>, m: nat, lineage: seq<Row>)
    requires HexDigests(sha) && Unsealed(rows) && InRange(|rows|, order) && m < |order| && NewestYet(order, m)
    requires AllLinked(sha, lineage) && Head(lineage) == Head(SealFirst(sha, rows, order, m))
    ensures var row := SealFirst(sha, rows, order, m + 1)[order[m].row];
            && row.chainHash.Some?
            && AllLinked(sha, lineage + [row])
            && Head(lineage + [row]) == Head(SealFirst(sha, rows, order, m + 1))
            && WalkInputs(sha, lineage + [row])
               == WalkInputs(sha, lineage)
                  + {LinkInput(sha, LatestChainHash(SealFirst(sha, rows, order, m)), rows[order[m].row].rec)}
  {
    hide OperationHash, ChainHash, LinkInput, Seal, SealFirst, Head, LatestChainHash, WalkInputs, AllLinked, Names;
    var before, s := SealFirst(sha, rows, order, m), order[m];
    NextSeal(sha, rows, order, m);
    SealedAreNamed(sha, rows, order, m);
    HexHead(before);
    forall i | s.row < i < |rows| ensures !Sealed(before, i) {
      NamedAreOlder(order, m, i);
    }
    HeadAfterSeal(sha, before, s);
    SealWrites(sha, before, s);
    LineageNext(sha, lineage, Seal(sha, before, s)[s.row]);
  }

  lemma NamedAreOlder(order: seq<Sealing>, m: nat, i: nat)
    requires m < |order| && NewestYet(order, m) && i >= order[m].row
    ensures !Names(order, m, i)
  {
  }

  /** A seal behind a newer one leaves the head alone. */
  lemma {:induction false} OlderStays(sha: Hash, rows: seq<Row>, order: seq<Sealing>, m: nat)
    requires HexDigests(sha) && Unsealed(rows) && InRange(|rows|, order) && Once(order) && m < |order|
    requires !NewestYet(order, m)
    ensures Head(SealFirst(sha, rows, order, m + 1)) == Head(SealFirst(sha, rows, order, m))
  {
    hide OperationHash, ChainHash, Seal, SealFirst, Head, Once;
    NextSeal(sha, rows, order, m);
    SealedAreNamed(sha, rows, order, m);
    var t :| 0 <= t < m && order[t].row >= order[m].row;
    NotTwice(order, t, m);
    assert Names(order, m, order[t].row);
    assert Sealed(SealFirst(sha, rows, order, m), order[t].row);
    HeadAfterSeal(sha, SealFirst(sha, rows, order, m), order[m]);
  }

  lemma CreationOrderNext(order: seq<Sealing>, m: nat)
    requires m < |order|
    ensures InCreationOrder(order, m + 1) <==> InCreationOrder(order, m) && NewestYet(order, m)
  {
  }

  /** The lineage is a valid chain of sealed rows with the head of the table. It has as many rows as there were seals
      exactly if these went in creation order. No freedom from collisions is needed. */
  lemma {:induction false} LineageIsValid(sha: Hash, rows: seq<Row>, order: seq<Sealing>, n: nat)
    requires HexDigests(sha) && Unsealed(rows) && InRange(|rows|, order) && Once(order) && n <= |order|
    ensures var lineage := Lineage(sha, rows, order, n);
            && AllLinked(sha, lineage)
            && (forall i :: 0 <= i < |lineage| ==> Sealed(lineage, i))
            && Head(lineage) == Head(SealFirst(sha, rows, order, n))
            && WalkInputs(sha, lineage) <= FirstInputs(sha, rows, order, n)
            && |lineage| <= n && (|lineage| == n <==> InCreationOrder(order, n))
  {
    hide LinkInput, SealFirst, Head, LatestChainHash, WalkInputs, AllLinked, Once, FirstInputs, InCreationOrder, NewestYet;
    if n == 0 {
      NoLineage(sha, rows, order);
    } else {
      var lineage := Lineage(sha, rows, order, n - 1);
      LineageIsValid(sha, rows, order, n - 1);
      InputsGrow(sha, rows, order, n - 1);
      CreationOrderNext(order, n - 1);
      if NewestYet(order, n - 1) {
        NewestExtends(sha, rows, order, n - 1, lineage);
        var all := Lineage(sha, rows, order, n);
        forall i | 0 <= i < |all| ensures Sealed(all, i) {
          assert i < |lineage| ==> Sealed(lineage, i);
        }
      } else {
        OlderStays(sha, rows, order, n - 1);
        assert lineage + [] == lineage;
      }
    }
  }

  lemma {:induction false} NoLineage(sha: Hash, rows: seq<Row>, order: seq<Sealing>)
    requires Unsealed(rows) && InRange(|rows|, order)
    ensures AllLinked(sha, []) && Head([]) == Head(SealFirst(sha, rows, order, 0)) && WalkInputs(sha, []) == {}
    ensures InCreationOrder(order, 0)
  {
    HeadSkips(rows, 0);
    assert rows[..0] == [];
  }

  lemma NotTwice(order: seq<Sealing>, t: nat, u: nat)
    requires Once(order) && t < u < |order|
    ensures order[t].row != order[u].row
  {
  }

  lemma NotNamedYet(order: seq<Sealing>, m: nat)
    requires Once(order) && m < |order|
    ensures !Names(order, m, order[m].row)
  {
  }

  lemma InputsGrow(sha: Hash, rows: seq<Row>, order: seq<Sealing>, m: nat)
    requires InRange(|rows|, order) && m < |order|
    ensures FirstInputs(sha, rows, order, m + 1)
         == FirstInputs(sha, rows, order, m)
            + {LinkInput(sha, LatestChainHash(SealFirst(sha, rows, order, m)), rows[order[m].row].rec)}
    ensures SealFirst(sha, rows, order, m)[order[m].row].rec == rows[order[m].row].rec
  {
    hide LinkInput, LatestChainHash, SealFirst;
  }

  lemma {:induction false} SealedFieldsCount(rows: seq<Row>)
    ensures |SealedFields(rows)| == SealedCount(rows)
    ensures (forall i :: 0 <= i < |rows| ==> Sealed(rows, i)) ==> SealedCount(rows) == |rows|
    ensures Unsealed(rows) ==> SealedCount(rows) == 0
  {
    hide HashedFields;
    if rows != [] {
      var n := |rows| - 1;
      assert Sealed(rows, n) <==> rows[n].chainHash.Some?;
      forall i | 0 <= i < n ensures Sealed(rows[..n], i) <==> Sealed(rows, i) {}
      SealedFieldsCount(rows[..n]);
    }
  }

  lemma {:induction false} SealingCounts(rows: seq<Row>, k: nat, row: Row)
    requires k < |rows| && !Sealed(rows, k) && row.chainHash.Some?
    ensures SealedCount(rows[k := row]) == SealedCount(rows) + 1
    decreases |rows|
  {
    var n := |rows| - 1;
    var after := rows[k := row];
    if k < n {
      assert after[..n] == rows[..n][k := row];
      assert !Sealed(rows[..n], k);
      SealingCounts(rows[..n], k, row);
    } else {
      assert after[..n] == rows[..n];
    }
  }

  lemma {:induction false} SealsCount(sha: Hash, rows: seq<Row>, order: seq<Sealing>, n: nat)
    requires HexDigests(sha) && Unsealed(rows) && InRange(|rows|, order) && Once(order) && n <= |order|
    ensures SealedCount(SealFirst(sha, rows, order, n)) == n
  {
    hide OperationHash, SealedCount, LatestChainHash, ChainHash;
    if n == 0 {
      SealedFieldsCount(rows);
    } else {
      var m := n - 1;
      var before, s := SealFirst(sha, rows, order, m), order[m];
      SealsCount(sha, rows, order, m);
      SealedAreNamed(sha, rows, order, m);
      NotNamedYet(order, m);
      SealingCounts(before, s.row, Seal(sha, before, s)[s.row]);
    }
  }

  /** For rows sealed once each, out of creation order: there is a table that verifies, has the anchored head, and has
      fewer sealed rows. Deleting the other rows and sealing nothing again goes unnoticed. */
  lemma {:induction false} UnverifiedAnchorPinsNothing(sha: Hash, rows: seq<Row>, order: seq<Sealing>)
    requires HexDigests(sha) && Unsealed(rows) && InRange(|rows|, order) && Once(order)
    requires !InCreationOrder(order, |order|)
    ensures var before, now := SealFirst(sha, rows, order, |order|), Lineage(sha, rows, order, |order|);
            && Report(sha, now).valid
            && LatestChainHash(now) == LatestChainHash(before)
            && |SealedFields(now)| < |SealedFields(before)|
  {
    hide Report, SealFirst, Lineage, LatestChainHash, SealedFields, AllLinked, Head, Once, InCreationOrder;
    var before, now := SealFirst(sha, rows, order, |order|), Lineage(sha, rows, order, |order|);
    LineageIsValid(sha, rows, order, |order|);
    ReportWhenValid(sha, now);
    LinkedIsHex(sha, now);
    SealedAreNamed(sha, rows, order, |order|);
    HexHead(before);
    SealedFieldsCount(now);
    SealedFieldsCount(before);
    SealsCount(sha, rows, order, |order|);
  }

  lemma {:induction false} LineageContents(sha: Hash, rows: seq<Row>, order: seq<Sealing>, n: nat)
    requires HexDigests(sha) && Unsealed(rows) && InRange(|rows|, order) && n <= |order|
    ensures Contents(Lineage(sha, rows, order, n)) <= Contents(SealFirst(sha, rows, order, |order|))
  {
    hide Content, SealFirst, Seal;
    if n > 0 {
      LineageContents(sha, rows, order, n - 1);
      var lineage, final := Lineage(sha, rows, order, n - 1), SealFirst(sha, rows, order, |order|);
      var k := order[n - 1].row;
      SealedAreNamed(sha, rows, order, |order|);
      assert Names(order, |order|, k);
      assert Content(final[k].rec) in Contents(final);
      ContentsNext(lineage, SealFirst(sha, rows, order, n)[k]);
    }
  }

  lemma ContentsNext(rows: seq<Row>, row: Row)
    ensures Contents(rows + [row]) <= Contents(rows) + {Content(row.rec)}
  {
    hide Content;
    var all := rows + [row];
    forall x | x in Contents(all) ensures x in Contents(rows) + {Content(row.rec)} {
      var i :| 0 <= i < |all| && Sealed(all, i) && x == Content(all[i].rec);
      assert i < |rows| ==> Sealed(rows, i);
    }
  }

  /** A later table that the checks accept: it verifies, its head is the anchored one, and the hash is ideal on the
      strings of both tables. */
  ghost predicate Accepted(sha: Hash, before: seq<Row>, now: seq<Row>) {
    && Report(sha, now).valid
    && LatestChainHash(now) == LatestChainHash(before)
    && Ideal(sha, Hashed(sha, now) + Hashed(sha, before))
  }

  /** Every accepted table has the sealed rows of anchor time. */
  ghost predicate Pinned(sha: Hash, before: seq<Row>) {
    forall now :: Accepted(sha, before, now) ==> SealedFields(now) == SealedFields(before)
  }

  /** For rows sealed once each, an anchor pins the history if and only if they were sealed in creation order. */
  lemma {:induction false} AnchorPinsExact(sha: Hash, rows: seq<Row>, order: seq<Sealing>)
    requires HexDigests(sha) && Unsealed(rows) && InRange(|rows|, order) && Once(order)
    requires Ideal(sha, SealInputs(sha, rows, order) + Hashed(sha, SealFirst(sha, rows, order, |order|)))
    ensures Pinned(sha, SealFirst(sha, rows, order, |order|)) <==> InCreationOrder(order, |order|)
  {
    hide Report, SealFirst, Lineage, LatestChainHash, SealedFields, AllLinked, Hashed, SealInputs, Once, InCreationOrder, Ideal;
    var before, now := SealFirst(sha, rows, order, |order|), Lineage(sha, rows, order, |order|);
    if InCreationOrder(order, |order|) {
      InOrderLinks(sha, rows, order, |order|);
      ReportWhenValid(sha, before);
      forall later | Accepted(sha, before, later) ensures SealedFields(later) == SealedFields(before) {
        AnchorPinsHistory(sha, before, later, Anchor(LatestChainHash(before), 0, AnySignature()));
      }
    } else {
      UnverifiedAnchorPinsNothing(sha, rows, order);
      LineageIsIdeal(sha, rows, order);
      assert Accepted(sha, before, now);
    }
  }

  function AnySignature(): Signature { Signature("", 0) }

  lemma {:induction false} LineageIsIdeal(sha: Hash, rows: seq<Row>, order: seq<Sealing>)
    requires HexDigests(sha) && Unsealed(rows) && InRange(|rows|, order) && Once(order)
    requires Ideal(sha, SealInputs(sha, rows, order) + Hashed(sha, SealFirst(sha, rows, order, |order|)))
    ensures Ideal(sha, Hashed(sha, Lineage(sha, rows, order, |order|)) + Hashed(sha, SealFirst(sha, rows, order, |order|)))
  {
    hide Content, SealFirst, Lineage, WalkInputs, Contents, LinkInput, LatestChainHash, Once;
    LineageIsValid(sha, rows, order, |order|);
    LineageContents(sha, rows, order, |order|);
    assert FirstInputs(sha, rows, order, |order|) == SealInputs(sha, rows, order);
  }

  /* ----- Seals after the anchor ----- */

  /** A seal moves the head, so that the anchor stops matching, if and only if no newer row is sealed. A seal behind the
      newest sealed row leaves the head alone; one at or behind no sealed row keeps the chain valid. */
  lemma {:induction false} HeadMovesExact(sha: Hash, rows: seq<Row>, s: Sealing)
    requires HexDigests(sha) && s.row < |rows| && AllLinked(sha, rows)
    requires Ideal(sha, WalkInputs(sha, rows) + {LinkInput(sha, Head(rows), rows[s.row].rec)})
    ensures LatestChainHash(Seal(sha, rows, s)) != LatestChainHash(rows)
       <==> forall i :: s.row < i < |rows| ==> !Sealed(rows, i)
    ensures (forall i :: s.row <= i < |rows| ==> !Sealed(rows, i)) ==> AllLinked(sha, Seal(sha, rows, s))
  {
    hide OperationHash, Seal, WalkInputs, LatestChainHash, Head;
    var after, k := Seal(sha, rows, s), s.row;
    LinkedIsHex(sha, rows);
    SealIsHex(sha, rows, s);
    HexHead(after);
    HeadAfterSeal(sha, rows, s);
    if forall i :: k < i < |rows| ==> !Sealed(rows, i) {
      HeadIsNew(sha, rows, rows[k].rec);
    }
    if forall i :: k <= i < |rows| ==> !Sealed(rows, i) {
      HeadSkips(rows, k);
      SealKeepsLinks(sha, rows, s);
    }
  }

  lemma SealIsHex(sha: Hash, rows: seq<Row>, s: Sealing)
    requires HexDigests(sha) && s.row < |rows| && HexChain(rows)
    ensures HexChain(Seal(sha, rows, s))
  {
    hide LatestChainHash, ChainHash;
    SealWrites(sha, rows, s);
    var after := Seal(sha, rows, s);
    forall i | 0 <= i < |after| && Sealed(after, i) ensures |after[i].chainHash.value| == 64 {
      if i != s.row {
        SealLeavesOthers(sha, rows, s, i);
        assert Sealed(rows, i);
      }
    }
  }

  /** Linking to the head of a valid chain gives a hash other than that head. */
  lemma {:induction false} HeadIsNew(sha: Hash, rows: seq<Row>, rec: Record)
    requires HexDigests(sha) && AllLinked(sha, rows)
    requires Ideal(sha, WalkInputs(sha, rows) + {LinkInput(sha, Head(rows), rec)})
    ensures ChainHash(sha, Head(rows), rec) != Head(rows)
  {
    hide OperationHash, WalkInputs, Head;
    assert rows[..|rows|] == rows;
    if exists q: nat :: q < |rows| && Sealed(rows, q) {
      var q := LastSealed(rows, |rows|);
      HeadAfter(sha, rows, q);
      HeadsDiffer(sha, rows, q, q, |rows|);
      if ChainHash(sha, Head(rows), rec) == Head(rows) {
        LinkInputInjective(sha, Head(rows), rec, Head(rows[..q]), rows[q].rec);
      }
    } else {
      NoneSealed(rows);
    }
  }

  lemma {:induction false} NoneSealed(rows: seq<Row>)
    requires forall q :: 0 <= q < |rows| ==> !Sealed(rows, q)
    ensures Head(rows) == GENESIS
  {
    HeadSkips(rows, 0);
    assert rows[..0] == [];
  }

  /* ----- A limited walk ----- */

  /** The endpoint walks the oldest `limit` rows and compares the head of the whole table. */
  ghost predicate AcceptedByEndpoint(sha: Hash, before: seq<Row>, now: seq<Row>, limit: nat) {
    && Report(sha, Walked(now, limit)).valid
    && LatestChainHash(now) == LatestChainHash(before)
    && Ideal(sha, Hashed(sha, Walked(now, limit)) + Hashed(sha, before))
  }

  /** If no row behind the limit is sealed, the limited verdict and the anchor pin the whole history. */
  lemma {:induction false} LimitedAnchorPins(sha: Hash, before: seq<Row>, now: seq<Row>, limit: nat)
    requires HexDigests(sha) && AllLinked(sha, before) && AcceptedByEndpoint(sha, before, now, limit)
    requires forall i :: limit <= i < |now| ==> !Sealed(now, i)
    ensures SealedFields(now) == SealedFields(before)
  {
    hide OperationHash, Hashed, Report, SealedFields, AllLinked, Ideal, LatestChainHash, Head;
    var walked := Walked(now, limit);
    ReportWhenValid(sha, walked);
    LinkedIsHex(sha, walked);
    LinkedIsHex(sha, before);
    if limit < |now| {
      SealedFieldsSkip(now, limit);
      HeadSkips(now, limit);
      LatestOfSameHead(now, walked);
    }
    SameHeadSameHistory(sha, walked, before);
  }

  lemma {:induction false} LatestOfSameHead(a: seq<Row>, b: seq<Row>)
    requires Head(a) == Head(b)
    ensures LatestChainHash(a) == LatestChainHash(b)
  {
  }

  lemma {:induction false} SealedFieldsSkip(rows: seq<Row>, k: nat)
    requires k <= |rows| && forall i :: k <= i < |rows| ==> !Sealed(rows, i)
    ensures SealedFields(rows) == SealedFields(rows[..k])
    decreases |rows|
  {
    hide HashedFields;
    if k < |rows| {
      var n := |rows| - 1;
      assert !Sealed(rows, n);
      forall i | k <= i < n ensures !Sealed(rows[..n], i) { assert !Sealed(rows, i); }
      SealedFieldsSkip(rows[..n], k);
      assert rows[..n][..k] == rows[..k];
    } else {
      assert rows[..k] == rows;
    }
  }

  /** Among tables of at most `n` rows, every accepted one has the anchored history. */
  ghost predicate PinnedUpTo(sha: Hash, before: seq<Row>, limit: nat, n: nat) {
    forall now :: |now| <= n && AcceptedByEndpoint(sha, before, now, limit) ==> SealedFields(now) == SealedFields(before)
  }

  /** Unsealed rows up to the limit, and behind it one row that carries the anchored head and other fields. */
  function Forged(rec: Record, head: string, limit: nat): seq<Row> {
    seq(limit, i => Row(rec, None, None)) + [Row(rec, Some(head), None)]
  }

  /** For an anchor of a valid chain, a verdict limited to `limit` rows pins the history of tables of up to `n` rows if
      and only if `n` is within the limit: one row behind the limit may carry the anchored head and any fields. */
  lemma LimitedAnchorExact(sha: Hash, before: seq<Row>, limit: nat, n: nat)
    requires HexDigests(sha) && AllLinked(sha, before) && Ideal(sha, Hashed(sha, before))
    ensures PinnedUpTo(sha, before, limit, n) <==> n <= limit
  {
    hide OperationHash, Hashed, Report, SealedFields, AllLinked, Ideal, LatestChainHash, Head, Forged;
    if n <= limit {
      forall now | |now| <= n && AcceptedByEndpoint(sha, before, now, limit)
        ensures SealedFields(now) == SealedFields(before)
      {
        LimitedAnchorPins(sha, before, now, limit);
      }
    } else {
      LinkedIsHex(sha, before);
      var rec := OtherFields(before);
      var now := Forged(rec, Head(before), limit);
      ForgedIsAccepted(sha, before, rec, limit);
      assert |now| <= n && AcceptedByEndpoint(sha, before, now, limit) && SealedFields(now) != SealedFields(before);
    }
  }

  /** A record whose fields are not those of a table with a single sealed row. */
  lemma OtherFields(rows: seq<Row>) returns (rec: Record)
    ensures SealedFields(rows) != [HashedFields(rec)]
  {
    var a, b := Record("a", "", "", "", "", None), Record("b", "", "", "", "", None);
    assert HashedFields(a)[3].1 == "a" && HashedFields(b)[3].1 == "b";
    rec := if SealedFields(rows) == [HashedFields(a)] then b else a;
    assert "a" != "b";
    if SealedFields(rows) == [HashedFields(a)] {
      assert [HashedFields(a)][0] != [HashedFields(b)][0];
    }
  }

  lemma {:induction false} ForgedIsAccepted(sha: Hash, before: seq<Row>, rec: Record, limit: nat)
    requires AllLinked(sha, before) && HexChain(before) && Ideal(sha, Hashed(sha, before))
    ensures var now := Forged(rec, Head(before), limit);
            |now| == limit + 1 && AcceptedByEndpoint(sha, before, now, limit) && SealedFields(now) == [HashedFields(rec)]
  {
    hide OperationHash, HashedFields, Content;
    var now := Forged(rec, Head(before), limit);
    var walked := Walked(now, limit);
    assert walked == now[..limit] && now[..|now| - 1] == walked;
    assert Unsealed(walked);
    assert Head(now) == Head(before);
    SealedFieldsCount(walked);
    ReportWhenValid(sha, walked);
    assert Hashed(sha, walked) == {};
    assert {} + Hashed(sha, before) == Hashed(sha, before);
  }

  /** A verdict over the oldest `limit` rows says valid only of tables that are valid as a whole, for all tables of up to
      `n` rows, if and only if `n` is within the limit. */
  lemma LimitedVerdictExact(sha: Hash, limit: nat, n: nat)
    requires HexDigests(sha)
    ensures (forall table :: |table| <= n && Report(sha, Walked(table, limit)).valid ==> Report(sha, table).valid)
       <==> n <= limit
  {
    hide OperationHash;
    if n > limit {
      var table := Forged(Record("", "", "", "", "", None), "", limit);
      var walked := Walked(table, limit);
      assert walked == table[..limit] && Unsealed(walked);
      ReportWhenValid(sha, walked);
      ReportWhenValid(sha, table);
      assert !Linked(sha, table, limit);
      assert |table| <= n && Report(sha, Walked(table, limit)).valid && !Report(sha, table).valid;
    }
  }
}
