/** What a verdict of the chain verifier means: the order in which the rows were sealed, which rows were
    deleted since, and which fields were changed. */
module ChainTheorems {
  import opened Wrappers
  import opened Evidence
  import opened HashChain

  /* ----- Seal order ----- */

  /** The strings hashed into links while sealing in the order given. */
  ghost function SealInputs(sha: Hash, rows: seq<Row>, order: seq<Sealing>): set<string>
    requires InRange(|rows|, order)
  {
    set t | 0 <= t < |order| :: LinkInput(sha, LatestChainHash(SealFirst(sha, rows, order, t)), rows[order[t].row].rec)
  }

  ghost predicate HexChain(rows: seq<Row>) {
    forall i :: 0 <= i < |rows| && Sealed(rows, i) ==> |rows[i].chainHash.value| == 64
  }

  lemma {:induction false} HexHead(rows: seq<Row>)
    requires HexChain(rows)
    ensures |Head(rows)| == 64 && LatestChainHash(rows) == Head(rows)
    decreases |rows|
  {
    if rows != [] && !Sealed(rows, |rows| - 1) {
      var init := rows[..|rows| - 1];
      assert forall i :: 0 <= i < |init| ==> (Sealed(init, i) <==> Sealed(rows, i));
      HexHead(init);
    }
  }

  /** One of the first `n` seals is row `i`'s. */
  ghost predicate Names(order: seq<Sealing>, n: nat, i: nat)
    requires n <= |order|
  {
    exists t :: 0 <= t < n && order[t].row == i
  }

  lemma NextSeal(sha: Hash, rows: seq<Row>, order: seq<Sealing>, n: nat)
    requires InRange(|rows|, order) && n < |order|
    ensures SealFirst(sha, rows, order, n + 1) == Seal(sha, SealFirst(sha, rows, order, n), order[n])
  {
  }

  lemma SealLeavesOthers(sha: Hash, rows: seq<Row>, s: Sealing, i: nat)
    requires s.row < |rows| && i < |rows| && i != s.row
    ensures |Seal(sha, rows, s)| == |rows| && Seal(sha, rows, s)[i] == rows[i]
  {
  }

  lemma SealWrites(sha: Hash, rows: seq<Row>, s: Sealing)
    requires HexDigests(sha) && s.row < |rows|
    ensures |Seal(sha, rows, s)| == |rows| && Sealed(Seal(sha, rows, s), s.row)
    ensures Seal(sha, rows, s)[s.row].rec == rows[s.row].rec
    ensures Seal(sha, rows, s)[s.row].chainHash.value == ChainHash(sha, LatestChainHash(rows), rows[s.row].rec)
    ensures |Seal(sha, rows, s)[s.row].chainHash.value| == 64
  {
  }

  /** Once `n` seals are done, the sealed rows are those the seals named, and every hash has 64 characters. */
  lemma {:induction false} SealedAreNamed(sha: Hash, rows: seq<Row>, order: seq<Sealing>, n: nat)
    requires HexDigests(sha) && Unsealed(rows) && InRange(|rows|, order) && n <= |order|
    ensures HexChain(SealFirst(sha, rows, order, n))
    ensures forall i :: 0 <= i < |rows| ==> (Sealed(SealFirst(sha, rows, order, n), i) <==> Names(order, n, i))
    decreases n
  {
    hide ChainHash, Seal;
    if n == 0 {
      forall i | 0 <= i < |rows| ensures !Sealed(rows, i) {}
    } else {
      SealedAreNamed(sha, rows, order, n - 1);
      var before, last := SealFirst(sha, rows, order, n - 1), order[n - 1];
      NextSeal(sha, rows, order, n - 1);
      hide SealFirst;
      SealWrites(sha, before, last);
      forall i | 0 <= i < |rows|
        ensures Sealed(Seal(sha, before, last), i) <==> Names(order, n, i)
        ensures i != last.row ==> Seal(sha, before, last)[i] == before[i]
      {
        if i == last.row {
          assert order[n - 1].row == i;
        } else {
          SealLeavesOthers(sha, before, last, i);
          assert Names(order, n, i) <==> Names(order, n - 1, i);
        }
      }
    }
  }

  /** A row sealed once keeps what its seal wrote. */
  lemma {:induction false} SealIsKept(sha: Hash, rows: seq<Row>, order: seq<Sealing>, t: nat, n: nat)
    requires InRange(|rows|, order) && Once(order) && t < n <= |order|
    ensures SealFirst(sha, rows, order, n)[order[t].row] == SealFirst(sha, rows, order, t + 1)[order[t].row]
    decreases n
  {
    hide ChainHash, Seal, SealFirst;
    if t + 1 < n {
      SealIsKept(sha, rows, order, t, n - 1);
      NextSeal(sha, rows, order, n - 1);
      SealLeavesOthers(sha, SealFirst(sha, rows, order, n - 1), order[n - 1], order[t].row);
    }
  }

  /** In creation order, each seal links to the head of the rows older than the one it seals. */
  lemma {:induction false} LinksToOlder(sha: Hash, rows: seq<Row>, order: seq<Sealing>, n: nat)
    requires HexDigests(sha) && Unsealed(rows) && InRange(|rows|, order) && n < |order|
    requires InCreationOrder(order, n + 1)
    ensures forall i :: order[n].row <= i < |rows| ==> !Sealed(SealFirst(sha, rows, order, n), i)
    ensures LatestChainHash(SealFirst(sha, rows, order, n)) == Head(SealFirst(sha, rows, order, n)[..order[n].row])
  {
    hide Seal, SealFirst;
    var before, k := SealFirst(sha, rows, order, n), order[n].row;
    SealedAreNamed(sha, rows, order, n);
    HexHead(before);
    HeadSkips(before, k);
  }

  /** Sealing in creation order yields a chain that verifies, whatever the hash function. */
  lemma {:induction false} InOrderLinks(sha: Hash, rows: seq<Row>, order: seq<Sealing>, n: nat)
    requires HexDigests(sha) && Unsealed(rows) && InRange(|rows|, order) && n <= |order|
    requires InCreationOrder(order, n)
    ensures AllLinked(sha, SealFirst(sha, rows, order, n))
    decreases n
  {
    hide ChainHash, Seal;
    if n == 0 {
      forall i | 0 <= i < |rows| ensures Linked(sha, rows, i) { assert !Sealed(rows, i); }
    } else {
      InOrderLinks(sha, rows, order, n - 1);
      LinksToOlder(sha, rows, order, n - 1);
      NextSeal(sha, rows, order, n - 1);
      SealKeepsLinks(sha, SealFirst(sha, rows, order, n - 1), order[n - 1]);
    }
  }

  lemma SealKeepsLinks(sha: Hash, before: seq<Row>, s: Sealing)
    requires HexDigests(sha) && s.row < |before| && AllLinked(sha, before)
    requires LatestChainHash(before) == Head(before[..s.row])
    requires forall i :: s.row <= i < |before| ==> !Sealed(before, i)
    ensures AllLinked(sha, Seal(sha, before, s))
  {
    hide ChainHash, Seal, LatestChainHash;
    var after := Seal(sha, before, s);
    SealWrites(sha, before, s);
    forall i | 0 <= i < |after| ensures Linked(sha, after, i) {
      assert after[..s.row] == before[..s.row] by {
        forall j | 0 <= j < s.row ensures after[j] == before[j] { SealLeavesOthers(sha, before, s, j); }
      }
      if i < s.row {
        assert after[..i] == after[..s.row][..i] == before[..i];
        SealLeavesOthers(sha, before, s, i);
        assert Linked(sha, before, i);
      } else if i > s.row {
        SealLeavesOthers(sha, before, s, i);
        assert !Sealed(before, i);
      }
    }
  }

  /** The first seal that goes to an older row than the seal before it. */
  lemma FirstDescent(order: seq<Sealing>) returns (t: nat)
    requires Once(order) && !InCreationOrder(order, |order|)
    ensures 0 < t < |order| && order[t].row < order[t - 1].row && InCreationOrder(order, t)
  {
    t := 0;
    while t == 0 || order[t - 1].row < order[t].row
      invariant 0 <= t < |order|
      invariant InCreationOrder(order, t)
      decreases |order| - t
    {
      assert InCreationOrder(order, t + 1);
      t := t + 1;
    }
  }

  /** At the first descent, the seal links to the hash of a row that is newer than the row it seals. */
  lemma DescentLink(sha: Hash, rows: seq<Row>, order: seq<Sealing>, t: nat)
    requires HexDigests(sha) && Unsealed(rows) && InRange(|rows|, order) && Once(order)
    requires 0 < t < |order| && order[t].row < order[t - 1].row && InCreationOrder(order, t)
    ensures var final := SealFirst(sha, rows, order, |order|);
            var p, m := order[t].row, order[t - 1].row;
            && Sealed(final, p) && Sealed(final, m)
            && LatestChainHash(SealFirst(sha, rows, order, t)) == final[m].chainHash.value
            && final[p].chainHash.value == ChainHash(sha, final[m].chainHash.value, final[p].rec)
  {
    hide ChainHash, Seal, SealFirst;
    var p, m := order[t].row, order[t - 1].row;
    var before, at := SealFirst(sha, rows, order, t - 1), SealFirst(sha, rows, order, t);
    NextSeal(sha, rows, order, t - 1);
    NextSeal(sha, rows, order, t);
    SealWrites(sha, before, order[t - 1]);
    SealWrites(sha, at, order[t]);
    SealIsKept(sha, rows, order, t, |order|);
    SealIsKept(sha, rows, order, t - 1, |order|);
    SealedAreNamed(sha, rows, order, t);
    LinksToOlder(sha, rows, order, t - 1);
    forall i | m < i < |at| ensures !Sealed(at, i) {
      SealLeavesOthers(sha, before, order[t - 1], i);
    }
    HeadIsNewest(at, m);
    HexHead(at);
  }

  /** A seal out of creation order makes the chain fail verification. */
  lemma {:induction false} OutOfOrderBreaks(sha: Hash, rows: seq<Row>, order: seq<Sealing>)
    requires HexDigests(sha) && Unsealed(rows) && InRange(|rows|, order) && Once(order)
    requires Ideal(sha, SealInputs(sha, rows, order) + WalkInputs(sha, SealFirst(sha, rows, order, |order|)))
    requires !InCreationOrder(order, |order|)
    ensures !AllLinked(sha, SealFirst(sha, rows, order, |order|))
  {
    hide OperationHash, Seal, SealFirst, WalkInputs;
    var t := FirstDescent(order);
    DescentLink(sha, rows, order, t);
    var final, p, m := SealFirst(sha, rows, order, |order|), order[t].row, order[t - 1].row;
    var link := LinkInput(sha, final[m].chainHash.value, final[p].rec);
    assert link in SealInputs(sha, rows, order);
    if AllLinked(sha, final) {
      NewerLinkBreaks(sha, final, p, m, SealInputs(sha, rows, order));
    }
  }

  /** In a valid chain no row links to a newer one. */
  lemma NewerLinkBreaks(sha: Hash, rows: seq<Row>, p: nat, m: nat, others: set<string>)
    requires HexDigests(sha) && Sealed(rows, p) && Sealed(rows, m) && p < m
    requires Ideal(sha, others + WalkInputs(sha, rows))
    requires LinkInput(sha, rows[m].chainHash.value, rows[p].rec) in others
    requires rows[p].chainHash.value == ChainHash(sha, rows[m].chainHash.value, rows[p].rec)
    ensures !AllLinked(sha, rows)
  {
    hide OperationHash, WalkInputs;
    if AllLinked(sha, rows) {
      HeadAfter(sha, rows, p);
      HeadAfter(sha, rows, m);
      assert Linked(sha, rows, p) && Linked(sha, rows, m);
      LinkInputInjective(sha, rows[m].chainHash.value, rows[p].rec, Head(rows[..p]), rows[p].rec);
      HeadsDiffer(sha, rows, p, m, m + 1);
    }
  }

  /** The verifier accepts a freshly sealed table exactly when its rows were sealed in creation order. */
  lemma {:induction false} SealOrderExact(sha: Hash, rows: seq<Row>, order: seq<Sealing>)
    requires HexDigests(sha) && Unsealed(rows) && InRange(|rows|, order) && Once(order)
    requires Ideal(sha, SealInputs(sha, rows, order) + WalkInputs(sha, SealFirst(sha, rows, order, |order|)))
    ensures Report(sha, SealFirst(sha, rows, order, |order|)).valid <==> InCreationOrder(order, |order|)
  {
    hide ChainHash, Seal, SealFirst;
    ReportWhenValid(sha, SealFirst(sha, rows, order, |order|));
    if InCreationOrder(order, |order|) {
      InOrderLinks(sha, rows, order, |order|);
    } else {
      OutOfOrderBreaks(sha, rows, order);
    }
  }

  /** One seal on a valid chain keeps it valid exactly when no row at or after it was sealed before. In
      particular, sealing a row a second time always breaks the chain, at that row. */
  lemma {:induction false} SealStepExact(sha: Hash, rows: seq<Row>, s: Sealing)
    requires HexDigests(sha) && s.row < |rows| && AllLinked(sha, rows) && HexChain(rows)
    requires Ideal(sha, WalkInputs(sha, rows) + {LinkInput(sha, Head(rows), rows[s.row].rec),
                                                 LinkInput(sha, Head(rows[..s.row]), rows[s.row].rec)})
    ensures Report(sha, Seal(sha, rows, s)).valid <==> forall i :: s.row <= i < |rows| ==> !Sealed(rows, i)
    ensures (exists i :: s.row <= i < |rows| && Sealed(rows, i)) ==> FirstBreak(sha, Seal(sha, rows, s), s.row)
  {
    hide OperationHash, Seal, WalkInputs;
    var after, k := Seal(sha, rows, s), s.row;
    HexHead(rows);
    ReportWhenValid(sha, after);
    SealWrites(sha, rows, s);
    if j :| k <= j < |rows| && Sealed(rows, j) {
      assert after[..k] == rows[..k] by {
        forall i | 0 <= i < k ensures after[i] == rows[i] { SealLeavesOthers(sha, rows, s, i); }
      }
      assert rows[..|rows|] == rows;
      HeadsDiffer(sha, rows, k, j, |rows|);
      if Linked(sha, after, k) {
        LinkInputInjective(sha, Head(rows), rows[k].rec, Head(rows[..k]), rows[k].rec);
      }
      PrefixLinked(sha, rows, k);
    } else {
      HeadSkips(rows, k);
      SealKeepsLinks(sha, rows, s);
    }
  }

  lemma {:induction false} SameHashesSameHead(a: seq<Row>, b: seq<Row>)
    requires |a| == |b| && forall i :: 0 <= i < |a| ==> a[i].chainHash == b[i].chainHash
    ensures Head(a) == Head(b)
    decreases |a|
  {
    if a != [] {
      SameHashesSameHead(a[..|a| - 1], b[..|a| - 1]);
    }
  }

  /** Sealing a row again does not mend the chain either when the row's fields have changed in between: the walk still
      breaks at that row. */
  lemma {:induction false} ResealedRowBreaks(sha: Hash, rows: seq<Row>, k: nat, rec: Record, signature: Option<Signature>)
    requires HexDigests(sha) && AllLinked(sha, rows) && HexChain(rows) && Sealed(rows, k)
    requires Ideal(sha, WalkInputs(sha, rows) + {LinkInput(sha, Head(rows), rec), LinkInput(sha, Head(rows[..k]), rec)})
    ensures FirstBreak(sha, Seal(sha, rows[k := rows[k].(rec := rec)], Sealing(k, signature)), k)
  {
    hide OperationHash, WalkInputs, Head;
    var changed := rows[k := rows[k].(rec := rec)];
    var after := Seal(sha, changed, Sealing(k, signature));
    SameHashesSameHead(rows, changed);
    HexHead(rows);
    assert after[k].chainHash == Some(ChainHash(sha, Head(rows), rec)) && after[k].rec == rec;
    assert after[..k] == rows[..k] && rows[..|rows|] == rows;
    HeadsDiffer(sha, rows, k, k, |rows|);
    if Linked(sha, after, k) {
      LinkInputInjective(sha, Head(rows), rec, Head(rows[..k]), rec);
    }
    PrefixLinked(sha, rows, k);
  }

  /* ----- Deleted rows ----- */

  /** The rows whose flag in `mask` is set. */
  function Kept(rows: seq<Row>, mask: seq<bool>): (kept: seq<Row>)
    requires |mask| == |rows|
  {
    if rows == [] then []
    else
      var n := |rows| - 1;
      Kept(rows[..n], mask[..n]) + if mask[n] then [rows[n]] else []
  }

  /** The sealed rows that are kept form a prefix of the sealed rows. */
  ghost predicate KeepsPrefix(rows: seq<Row>, mask: seq<bool>)
    requires |mask| == |rows|
  {
    forall i, j :: 0 <= i < j < |rows| && Sealed(rows, i) && Sealed(rows, j) && mask[j] ==> mask[i]
  }

  /** `j` is a kept sealed row with a deleted sealed row before it. */
  ghost predicate Orphan(rows: seq<Row>, mask: seq<bool>, j: nat)
    requires |mask| == |rows|
  {
    && j < |rows| && Sealed(rows, j) && mask[j]
    && exists i :: 0 <= i < j && Sealed(rows, i) && !mask[i]
  }

  lemma {:induction false} KeptPrefixOf(rows: seq<Row>, mask: seq<bool>, n: nat)
    requires |mask| == |rows| && n <= |rows|
    ensures Kept(rows[..n], mask[..n]) <= Kept(rows, mask)
    decreases |rows|
  {
    if n < |rows| {
      var m := |rows| - 1;
      assert rows[..m][..n] == rows[..n] && mask[..m][..n] == mask[..n];
      KeptPrefixOf(rows[..m], mask[..m], n);
    } else {
      assert rows[..n] == rows && mask[..n] == mask;
    }
  }

  /** Up to the first deleted sealed row nothing is lost; from there on, unsealed rows do not move the head. */
  lemma {:induction false} KeptWalk(sha: Hash, rows: seq<Row>, mask: seq<bool>, d: nat, n: nat)
    requires |mask| == |rows| && d <= n <= |rows| && AllLinked(sha, rows)
    requires forall i :: 0 <= i < d && Sealed(rows, i) ==> mask[i]
    requires forall i :: d <= i < n && Sealed(rows, i) ==> !mask[i]
    ensures AllLinked(sha, Kept(rows[..n], mask[..n]))
    ensures Head(Kept(rows[..n], mask[..n])) == Head(rows[..d])
    decreases n
  {
    hide OperationHash;
    if n > 0 {
      var m := n - 1;
      KeptWalk(sha, rows, mask, if d == n then m else d, m);
      assert rows[..n][..m] == rows[..m] && mask[..n][..m] == mask[..m];
      var before, after := Kept(rows[..m], mask[..m]), Kept(rows[..n], mask[..n]);
      if mask[m] {
        assert after == before + [rows[m]] && after[..|before|] == before;
        assert Linked(sha, rows, m);
        forall i | 0 <= i < |after| ensures Linked(sha, after, i) {
          assert after[..i] == before[..i];
          assert i < |before| ==> Linked(sha, before, i);
        }
      } else {
        assert after == before;
      }
    }
  }

  /** The walk over the kept rows breaks exactly at the first orphan, and it names that row. */
  lemma {:induction false} DeletionFirstBreak(sha: Hash, rows: seq<Row>, mask: seq<bool>, j: nat)
    requires HexDigests(sha) && AllLinked(sha, rows) && |mask| == |rows|
    requires Ideal(sha, WalkInputs(sha, rows) + WalkInputs(sha, Kept(rows, mask)))
    requires Orphan(rows, mask, j) && forall i: nat :: i < j ==> !Orphan(rows, mask, i)
    ensures !Report(sha, Kept(rows, mask)).valid
    ensures Report(sha, Kept(rows, mask)).firstBrokenAt == Some(rows[j].rec.id)
    ensures Report(sha, Kept(rows, mask)).gaps == UnsealedIds(Kept(rows[..j], mask[..j]))
  {
    hide OperationHash, Kept, Report, WalkInputs, Head, AllLinked, FirstBreak;
    var d := FirstDeleted(rows, mask, j);
    forall i | d <= i < j && Sealed(rows, i) ensures !mask[i] {
      assert !Orphan(rows, mask, i);
    }
    KeptWalk(sha, rows, mask, d, j);
    HeadsDiffer(sha, rows, d, d, j);
    var kept, b := Kept(rows, mask), |Kept(rows[..j], mask[..j])|;
    KeptAt(rows, mask, j);
    OrphanIsUnlinked(sha, rows, j, kept, b);
    ReportWhenBroken(sha, kept, b);
  }

  /** Where a kept row stands among the kept ones. */
  lemma {:induction false} KeptAt(rows: seq<Row>, mask: seq<bool>, j: nat)
    requires |mask| == |rows| && j < |rows| && mask[j]
    ensures var kept, b := Kept(rows, mask), |Kept(rows[..j], mask[..j])|;
            b < |kept| && kept[..b] == Kept(rows[..j], mask[..j]) && kept[b] == rows[j]
  {
    KeptPrefixOf(rows, mask, j);
    KeptPrefixOf(rows, mask, j + 1);
    assert rows[..j + 1][..j] == rows[..j] && mask[..j + 1][..j] == mask[..j];
  }

  /** A row that stands behind another head than the one it was sealed behind is not linked. */
  lemma {:induction false} OrphanIsUnlinked(sha: Hash, rows: seq<Row>, j: nat, kept: seq<Row>, b: nat)
    requires HexDigests(sha) && AllLinked(sha, rows) && Sealed(rows, j) && b < |kept| && kept[b] == rows[j]
    requires Ideal(sha, WalkInputs(sha, rows) + WalkInputs(sha, kept))
    requires AllLinked(sha, kept[..b]) && Head(kept[..b]) != Head(rows[..j])
    ensures FirstBreak(sha, kept, b)
  {
    hide OperationHash, Head, AllLinked;
    assert Sealed(kept, b);
    var x, y := LinkInput(sha, Head(kept[..b]), rows[j].rec), LinkInput(sha, Head(rows[..j]), rows[j].rec);
    assert x in WalkInputs(sha, kept);
    HeadAfter(sha, rows, j);
    LinkedRow(sha, rows, j);
    if sha(x) == sha(y) {
      LinkInputInjective(sha, Head(kept[..b]), rows[j].rec, Head(rows[..j]), rows[j].rec);
    }
  }

  lemma LinkedRow(sha: Hash, rows: seq<Row>, j: nat)
    requires AllLinked(sha, rows) && Sealed(rows, j)
    ensures rows[j].chainHash == Some(ChainHash(sha, Head(rows[..j]), rows[j].rec))
  {
    assert Linked(sha, rows, j);
  }

  lemma FirstDeleted(rows: seq<Row>, mask: seq<bool>, j: nat) returns (d: nat)
    requires |mask| == |rows| && j <= |rows| && exists i :: 0 <= i < j && Sealed(rows, i) && !mask[i]
    ensures d < j && Sealed(rows, d) && !mask[d]
    ensures forall i :: 0 <= i < d && Sealed(rows, i) ==> mask[i]
  {
    d := 0;
    while !Sealed(rows, d) || mask[d]
      invariant 0 <= d < j
      invariant forall i :: 0 <= i < d && Sealed(rows, i) ==> mask[i]
      invariant exists i :: d <= i < j && Sealed(rows, i) && !mask[i]
      decreases j - d
    {
      d := d + 1;
    }
  }

  lemma {:induction false} PrefixStaysLinked(sha: Hash, rows: seq<Row>, mask: seq<bool>)
    requires AllLinked(sha, rows) && |mask| == |rows| && KeepsPrefix(rows, mask)
    ensures AllLinked(sha, Kept(rows, mask))
  {
    hide ChainHash, OperationHash, AllLinked, Kept;
    var d, n := |rows|, |rows|;
    assert rows[..n] == rows && mask[..n] == mask;
    if exists i :: 0 <= i < n && Sealed(rows, i) && !mask[i] {
      d := FirstDeleted(rows, mask, n);
    }
    KeptWalk(sha, rows, mask, d, n);
  }

  /** Of a valid chain, the rows kept after a deletion verify exactly when the kept sealed rows are a prefix of
      the sealed rows. Unsealed rows play no part. */
  lemma {:induction false} DeletionExact(sha: Hash, rows: seq<Row>, mask: seq<bool>)
    requires HexDigests(sha) && AllLinked(sha, rows) && |mask| == |rows|
    requires Ideal(sha, WalkInputs(sha, rows) + WalkInputs(sha, Kept(rows, mask)))
    ensures Report(sha, Kept(rows, mask)).valid <==> KeepsPrefix(rows, mask)
  {
    hide OperationHash;
    if KeepsPrefix(rows, mask) {
      PrefixStaysLinked(sha, rows, mask);
      ReportWhenValid(sha, Kept(rows, mask));
    } else {
      var i, j :| 0 <= i < j < |rows| && Sealed(rows, i) && Sealed(rows, j) && mask[j] && !mask[i];
      assert Orphan(rows, mask, j);
      var first := FirstOrphan(rows, mask, j);
      DeletionFirstBreak(sha, rows, mask, first);
    }
  }

  lemma {:induction false} FirstOrphan(rows: seq<Row>, mask: seq<bool>, j: nat) returns (first: nat)
    requires |mask| == |rows| && Orphan(rows, mask, j)
    ensures Orphan(rows, mask, first) && forall i: nat :: i < first ==> !Orphan(rows, mask, i)
    decreases j
  {
    if exists i: nat :: i < j && Orphan(rows, mask, i) {
      var i: nat :| i < j && Orphan(rows, mask, i);
      first := FirstOrphan(rows, mask, i);
    } else {
      first := j;
    }
  }

  /** Retention deletes the rows created before a cutoff. */
  function FromCutoff(n: nat, cutoff: nat): seq<bool> {
    seq(n, i => i >= cutoff)
  }

  lemma {:induction false} KeptFromCutoff(rows: seq<Row>, cutoff: nat)
    requires cutoff <= |rows|
    ensures Kept(rows, FromCutoff(|rows|, cutoff)) == rows[cutoff..]
    decreases |rows|
  {
    if rows != [] {
      var n := |rows| - 1;
      assert FromCutoff(|rows|, cutoff)[..n] == FromCutoff(n, cutoff);
      if cutoff <= n {
        KeptFromCutoff(rows[..n], cutoff);
        assert rows[cutoff..] == rows[..n][cutoff..] + [rows[n]];
      } else {
        assert rows[cutoff..] == [] && FromCutoff(n, cutoff) == FromCutoff(n, n);
        KeptFromCutoff(rows[..n], n);
      }
    }
  }

  /** After retention the chain verifies exactly when it deleted no sealed row or left none. */
  lemma RetentionExact(sha: Hash, rows: seq<Row>, cutoff: nat)
    requires HexDigests(sha) && AllLinked(sha, rows) && cutoff <= |rows|
    requires Ideal(sha, WalkInputs(sha, rows) + WalkInputs(sha, rows[cutoff..]))
    ensures Report(sha, rows[cutoff..]).valid
       <==> (forall i :: 0 <= i < cutoff ==> !Sealed(rows, i)) || (forall i :: cutoff <= i < |rows| ==> !Sealed(rows, i))
  {
    hide Kept, OperationHash, ChainHash, Report, WalkInputs, AllLinked, Sealed;
    var mask := FromCutoff(|rows|, cutoff);
    KeptFromCutoff(rows, cutoff);
    DeletionExact(sha, rows, mask);
    if j :| cutoff <= j < |rows| && Sealed(rows, j) {
      assert mask[j];
    }
  }

  function SealedOnly(rows: seq<Row>): seq<Row> {
    if rows == [] then []
    else SealedOnly(rows[..|rows| - 1]) + if rows[|rows| - 1].chainHash.Some? then [rows[|rows| - 1]] else []
  }

  /** Unsealed rows never change the verdict, the count or the row reported, of any table, valid or not. */
  lemma {:induction false} UnsealedRowsIrrelevant(sha: Hash, rows: seq<Row>)
    ensures Head(SealedOnly(rows)) == Head(rows)
    ensures Report(sha, rows).(gaps := []) == Report(sha, SealedOnly(rows))
    decreases |rows|
  {
    hide OperationHash;
    if rows != [] {
      var n := |rows| - 1;
      UnsealedRowsIrrelevant(sha, rows[..n]);
      if rows[n].chainHash.Some? {
        var s := SealedOnly(rows);
        assert s[..|s| - 1] == SealedOnly(rows[..n]);
      } else {
        assert SealedOnly(rows) == SealedOnly(rows[..n]);
      }
    }
  }

  /* ----- Changed fields ----- */

  /** Changing any of the six hashed fields of a sealed row is reported at that very row. */
  lemma ChangedFieldBreaks(sha: Hash, rows: seq<Row>, k: nat, rec: Record)
    requires HexDigests(sha) && AllLinked(sha, rows) && Sealed(rows, k)
    requires HashedFields(rec) != HashedFields(rows[k].rec)
    requires Ideal(sha, {Content(rec), Content(rows[k].rec),
                         LinkInput(sha, Head(rows[..k]), rec), LinkInput(sha, Head(rows[..k]), rows[k].rec)})
    ensures FirstBreak(sha, rows[k := rows[k].(rec := rec)], k)
  {
    var changed := rows[k := rows[k].(rec := rec)];
    hide Content;
    assert Linked(sha, rows, k);
    assert changed[..k] == rows[..k];
    if Linked(sha, changed, k) {
      LinkInputInjective(sha, Head(rows[..k]), rec, Head(rows[..k]), rows[k].rec);
      ContentInjective(rec, rows[k].rec);
    }
    PrefixLinked(sha, rows, k);
  }
}
