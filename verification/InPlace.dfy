/** Which characters survive the slice assignments of the sanitizer worker, for any findings: the exact condition, in
    terms of the spans and the markers alone. */
module InPlace {
  import opened Sequences
  import opened Findings
  import opened Splicing
  import opened Sanitizer

  type Kinds = map<string, string>

  /** The origins of the characters after the slices of `fs`, in the order given; -1 stands for a marker's character. */
  function Track(n: nat, fs: seq<Finding>, kinds: Kinds): seq<int> {
    if fs == [] then Range(0, n)
    else
      var m := |fs| - 1;
      Splice(Track(n, fs[..m], kinds), Patch(fs[m].spanStart, fs[m].spanEnd, Blank(fs[m], kinds)))
  }

  function Blank(f: Finding, kinds: Kinds): (marks: seq<int>)
    ensures |marks| == |MarkerOf(f, kinds)| && forall i :: 0 <= i < |marks| ==> marks[i] == -1
  {
    seq(|MarkerOf(f, kinds)|, i => -1)
  }

  lemma {:induction false} RangeAt(a: nat, b: nat)
    requires a <= b
    ensures |Range(a, b)| == b - a && forall i :: 0 <= i < b - a ==> Range(a, b)[i] == a + i
    decreases b - a
  {
    if a < b {
      RangeAt(a + 1, b);
    }
  }

  /** Splicing two sequences in step keeps them in step. */
  lemma SpliceInStep(origins: seq<int>, chars: string, text: string, p: Patch<int>, q: Patch<char>)
    requires |origins| == |chars| && p.lo == q.lo && p.hi == q.hi && |p.text| == |q.text|
    requires forall i :: 0 <= i < |p.text| ==> p.text[i] == -1
    requires forall k :: 0 <= k < |origins| && origins[k] != -1 ==> 0 <= origins[k] < |text| && chars[k] == text[origins[k]]
    ensures |Splice(origins, p)| == |Splice(chars, q)|
    ensures forall k :: 0 <= k < |Splice(origins, p)| && Splice(origins, p)[k] != -1 ==>
              0 <= Splice(origins, p)[k] < |text| && Splice(chars, q)[k] == text[Splice(origins, p)[k]]
  {
  }

  /** Every character that is not a marker's is the document's at its origin. */
  lemma {:induction false} TrackIsFaithful(text: string, fs: seq<Finding>, kinds: Kinds)
    ensures |Track(|text|, fs, kinds)| == |SpliceEach(text, fs, kinds)|
    ensures forall k :: 0 <= k < |Track(|text|, fs, kinds)| && Track(|text|, fs, kinds)[k] != -1 ==>
              && 0 <= Track(|text|, fs, kinds)[k] < |text|
              && SpliceEach(text, fs, kinds)[k] == text[Track(|text|, fs, kinds)[k]]
  {
    if fs == [] {
      RangeAt(0, |text|);
    } else {
      hide MarkerOf, Splice;
      var f, init := fs[|fs| - 1], fs[..|fs| - 1];
      TrackIsFaithful(text, init, kinds);
      SpliceInStep(Track(|text|, init, kinds), SpliceEach(text, init, kinds), text,
                   Patch(f.spanStart, f.spanEnd, Blank(f, kinds)), Patch(f.spanStart, f.spanEnd, MarkerOf(f, kinds)));
    }
  }

  /** The end of the slice of a finding; a span that ends before it starts is an empty slice. */
  function SliceEnd(f: Finding): nat {
    if f.spanEnd < f.spanStart then f.spanStart else f.spanEnd
  }

  /** How far the slice of a finding moves what stands behind it. */
  function Growth(f: Finding, kinds: Kinds): int {
    |MarkerOf(f, kinds)| - (SliceEnd(f) - f.spanStart)
  }

  /** Where one slice puts the character at `k`; -1 if it removes it. */
  function Moved(k: int, f: Finding, kinds: Kinds): int {
    if k < f.spanStart then k else if k < SliceEnd(f) then -1 else k + Growth(f, kinds)
  }

  /** Where all slices put the character at `p` of the document; -1 if one removes it. */
  function Place(p: nat, fs: seq<Finding>, kinds: Kinds): int {
    if fs == [] then p
    else
      var k := Place(p, fs[..|fs| - 1], kinds);
      if k == -1 then -1 else Moved(k, fs[|fs| - 1], kinds)
  }

  lemma SpliceMoves(origins: seq<int>, f: Finding, kinds: Kinds, k: nat)
    requires k < |origins|
    ensures var after := Splice(origins, Patch(f.spanStart, f.spanEnd, Blank(f, kinds)));
            Moved(k, f, kinds) != -1 ==> 0 <= Moved(k, f, kinds) < |after| && after[Moved(k, f, kinds)] == origins[k]
  {
    hide MarkerOf;
  }

  lemma SpliceComesFrom(origins: seq<int>, f: Finding, kinds: Kinds, j: nat)
    requires var after := Splice(origins, Patch(f.spanStart, f.spanEnd, Blank(f, kinds))); j < |after| && after[j] != -1
    ensures exists k :: 0 <= k < |origins| && Moved(k, f, kinds) == j
                        && origins[k] == Splice(origins, Patch(f.spanStart, f.spanEnd, Blank(f, kinds)))[j]
  {
    hide MarkerOf;
    var lo := Min(f.spanStart, |origins|);
    var k := if j < lo then j else j - |Blank(f, kinds)| + (Min(SliceEnd(f), |origins|) - lo);
    assert 0 <= k < |origins| && Moved(k, f, kinds) == j;
  }

  /** A character stands at its place, and there only. */
  lemma {:induction false} PlaceExact(n: nat, fs: seq<Finding>, kinds: Kinds, p: nat)
    requires p < n
    ensures Place(p, fs, kinds) != -1 ==>
              0 <= Place(p, fs, kinds) < |Track(n, fs, kinds)| && Track(n, fs, kinds)[Place(p, fs, kinds)] == p
    ensures forall j :: 0 <= j < |Track(n, fs, kinds)| && Track(n, fs, kinds)[j] == p ==> j == Place(p, fs, kinds)
  {
    if fs == [] {
      RangeAt(0, n);
    } else {
      hide Splice, Moved, Blank;
      var f, init := fs[|fs| - 1], fs[..|fs| - 1];
      var before, after := Track(n, init, kinds), Track(n, fs, kinds);
      PlaceExact(n, init, kinds, p);
      if Place(p, init, kinds) != -1 {
        SpliceMoves(before, f, kinds, Place(p, init, kinds));
      }
      forall j | 0 <= j < |after| && after[j] == p ensures j == Place(p, fs, kinds) {
        SpliceComesFrom(before, f, kinds, j);
        var k :| 0 <= k < |before| && Moved(k, f, kinds) == j && before[k] == after[j];
      }
    }
  }

  /** The slices never change the order of what they leave. */
  lemma {:induction false} PlacesAscend(fs: seq<Finding>, kinds: Kinds, p: nat, q: nat)
    requires p < q && Place(p, fs, kinds) != -1 && Place(q, fs, kinds) != -1
    ensures Place(p, fs, kinds) < Place(q, fs, kinds)
  {
    if fs != [] {
      hide MarkerOf;
      PlacesAscend(fs[..|fs| - 1], kinds, p, q);
    }
  }

  /* ----- The worker's order: descending by start ----- */

  ghost predicate Descending(fs: seq<Finding>) {
    forall i, j :: 0 <= i < j < |fs| ==> fs[j].spanStart <= fs[i].spanStart
  }

  /** How far the first `j` slices move the character at `p`, if none of them removes it: those that start behind it do
      not count. */
  function Drift(fs: seq<Finding>, kinds: Kinds, j: nat, p: nat): int
    requires j <= |fs|
  {
    if j == 0 then 0 else Drift(fs, kinds, j - 1, p) + if fs[j - 1].spanStart <= p then Growth(fs[j - 1], kinds) else 0
  }

  /** The `j`-th slice starts behind `p`, or does not reach it where it stands by then. */
  predicate MissedBy(fs: seq<Finding>, kinds: Kinds, j: nat, p: nat)
    requires j < |fs|
  {
    fs[j].spanStart <= p ==> p + Drift(fs, kinds, j, p) >= SliceEnd(fs[j])
  }

  predicate OutOfReach(fs: seq<Finding>, kinds: Kinds, p: nat) {
    forall j :: 0 <= j < |fs| ==> MissedBy(fs, kinds, j, p)
  }

  lemma {:induction false} DriftOfPrefix(fs: seq<Finding>, kinds: Kinds, n: nat, j: nat, p: nat)
    requires j <= n <= |fs|
    ensures Drift(fs[..n], kinds, j, p) == Drift(fs, kinds, j, p)
  {
    if j > 0 {
      DriftOfPrefix(fs, kinds, n, j - 1, p);
    }
  }

  lemma {:induction false} NoDrift(fs: seq<Finding>, kinds: Kinds, j: nat, p: nat)
    requires j <= |fs| && forall i :: 0 <= i < j ==> fs[i].spanStart > p
    ensures Drift(fs, kinds, j, p) == 0
  {
    if j > 0 {
      NoDrift(fs, kinds, j - 1, p);
    }
  }

  lemma ReachOfPrefix(fs: seq<Finding>, kinds: Kinds, p: nat)
    requires fs != []
    ensures OutOfReach(fs, kinds, p) <==> OutOfReach(fs[..|fs| - 1], kinds, p) && MissedBy(fs, kinds, |fs| - 1, p)
  {
    hide Drift, SliceEnd;
    var m := |fs| - 1;
    forall j | 0 <= j < m ensures MissedBy(fs[..m], kinds, j, p) <==> MissedBy(fs, kinds, j, p) {
      DriftOfPrefix(fs, kinds, m, j, p);
    }
  }

  /** In the worker's order a character survives exactly if it is out of reach, and then it has moved by the drift. */
  lemma {:induction false} PlaceOfDescending(fs: seq<Finding>, kinds: Kinds, p: nat)
    requires Descending(fs)
    ensures Place(p, fs, kinds) != -1 <==> OutOfReach(fs, kinds, p)
    ensures Place(p, fs, kinds) != -1 ==> Place(p, fs, kinds) == p + Drift(fs, kinds, |fs|, p)
    ensures Place(p, fs, kinds) != -1 && fs != [] && fs[|fs| - 1].spanStart <= p ==> Place(p, fs, kinds) >= fs[|fs| - 1].spanStart
  {
    if fs != [] {
      hide OutOfReach, Growth, Drift;
      var m := |fs| - 1;
      var f, init := fs[m], fs[..m];
      PlaceOfDescending(init, kinds, p);
      DriftOfPrefix(fs, kinds, m, m, p);
      ReachOfPrefix(fs, kinds, p);
      DriftStep(fs, kinds, p);
      if f.spanStart > p {
        NoDrift(fs, kinds, m, p);
      } else {
        StandsBehind(fs, kinds, p);
      }
    }
  }

  lemma {:induction false} DriftStep(fs: seq<Finding>, kinds: Kinds, p: nat)
    requires fs != []
    ensures var m := |fs| - 1;
            Drift(fs, kinds, |fs|, p) == Drift(fs, kinds, m, p) + if fs[m].spanStart <= p then Growth(fs[m], kinds) else 0
    ensures Growth(fs[|fs| - 1], kinds) + SliceEnd(fs[|fs| - 1]) >= fs[|fs| - 1].spanStart
  {
  }

  lemma StandsBehind(fs: seq<Finding>, kinds: Kinds, p: nat)
    requires fs != [] && Descending(fs) && fs[|fs| - 1].spanStart <= p
    requires var init := fs[..|fs| - 1];
             init != [] && Place(p, init, kinds) != -1 && init[|init| - 1].spanStart <= p
             ==> Place(p, init, kinds) >= init[|init| - 1].spanStart
    requires var init := fs[..|fs| - 1]; Place(p, init, kinds) != -1 ==> Place(p, init, kinds) == p + Drift(init, kinds, |init|, p)
    ensures var k := Place(p, fs[..|fs| - 1], kinds); k == -1 || k >= fs[|fs| - 1].spanStart
  {
    var init := fs[..|fs| - 1];
    if init != [] && init[|init| - 1].spanStart > p {
      NoDrift(init, kinds, |init|, p);
    }
  }

  lemma {:induction false} WorkerOrder(findings: seq<Finding>)
    ensures Descending(SortDescending(findings))
    ensures multiset(SortDescending(findings)) == multiset(findings)
  {
    hide Sort, Reverse;
    SortIsSorted(Reverse(findings), BY_START);
    ReversePermutes(findings);
    ReversePermutes(Sort(Reverse(findings), BY_START));
  }

  /** What the worker leaves of a document, for any findings in any order, overlapping or not: exactly the characters out
      of reach, once each and in their order; everything else in the result is a marker's. Whether covered characters
      leak or uncovered ones are lost can thus be told from the spans and the lengths of the markers. */
  lemma {:induction false} WorkerLeavesExactly(text: string, findings: seq<Finding>, kinds: Kinds)
    ensures var fs := SortDescending(findings); var origins := Track(|text|, fs, kinds);
            && |origins| == |SpliceEach(text, fs, kinds)|
            && (forall k :: 0 <= k < |origins| && origins[k] != -1 ==>
                  0 <= origins[k] < |text| && SpliceEach(text, fs, kinds)[k] == text[origins[k]])
            && (forall p :: 0 <= p < |text| ==> (p in origins <==> OutOfReach(fs, kinds, p)))
            && (forall k, l :: 0 <= k < l < |origins| && origins[k] != -1 && origins[l] != -1 ==> origins[k] < origins[l])
  {
    hide Track, Place, OutOfReach, SpliceEach, SortDescending, Descending;
    var fs := SortDescending(findings);
    var origins := Track(|text|, fs, kinds);
    WorkerOrder(findings);
    TrackIsFaithful(text, fs, kinds);
    forall p | 0 <= p < |text| ensures p in origins <==> OutOfReach(fs, kinds, p) {
      PlaceExact(|text|, fs, kinds, p);
      PlaceOfDescending(fs, kinds, p);
    }
    forall k, l | 0 <= k < l < |origins| && origins[k] != -1 && origins[l] != -1 ensures origins[k] < origins[l] {
      TrackAscends(|text|, fs, kinds, k, l);
    }
  }

  lemma {:induction false} TrackAscends(n: nat, fs: seq<Finding>, kinds: Kinds, k: nat, l: nat)
    requires k < l < |Track(n, fs, kinds)|
    requires 0 <= Track(n, fs, kinds)[k] < n && 0 <= Track(n, fs, kinds)[l] < n
    ensures Track(n, fs, kinds)[k] < Track(n, fs, kinds)[l]
  {
    hide Track, Place;
    var p, q := Track(n, fs, kinds)[k], Track(n, fs, kinds)[l];
    PlaceExact(n, fs, kinds, p);
    PlaceExact(n, fs, kinds, q);
    if q < p {
      PlacesAscend(fs, kinds, q, p);
    }
  }

  /** No covered character survives. */
  ghost predicate NothingLeaks(n: nat, fs: seq<Finding>, kinds: Kinds) {
    forall p :: 0 <= p < n && Covered(fs, p) ==> p !in Track(n, fs, kinds)
  }

  /** No uncovered character is lost. */
  ghost predicate NothingLost(n: nat, fs: seq<Finding>, kinds: Kinds) {
    forall p :: 0 <= p < n && !Covered(fs, p) ==> p in Track(n, fs, kinds)
  }

  /** The worker redacts cleanly exactly when every covered character is in reach, and keeps the rest exactly when every
      uncovered character is out of reach. */
  lemma WorkerLeaksExact(n: nat, findings: seq<Finding>, kinds: Kinds)
    ensures var fs := SortDescending(findings);
            && (NothingLeaks(n, fs, kinds) <==> forall p :: 0 <= p < n && Covered(findings, p) ==> !OutOfReach(fs, kinds, p))
            && (NothingLost(n, fs, kinds) <==> forall p :: 0 <= p < n && !Covered(findings, p) ==> OutOfReach(fs, kinds, p))
  {
    hide Track, Place, OutOfReach, SortDescending, Descending, Covered;
    var fs := SortDescending(findings);
    WorkerOrder(findings);
    forall p | 0 <= p < n
      ensures p in Track(n, fs, kinds) <==> OutOfReach(fs, kinds, p)
      ensures Covered(fs, p) <==> Covered(findings, p)
    {
      PlaceExact(n, fs, kinds, p);
      PlaceOfDescending(fs, kinds, p);
      SameCoverage(findings, fs, p);
    }
  }

  /* ----- Two findings ----- */

  lemma {:induction false} PlaceAfterTwo(n: nat, g: Finding, f: Finding, kinds: Kinds, p: nat)
    requires p < n
    ensures var k := Moved(p, g, kinds); var end := if k == -1 then -1 else Moved(k, f, kinds);
            p in Track(n, [g, f], kinds) <==> end != -1
    ensures Covered([g, f], p) <==> Covers(g, p) || Covers(f, p)
  {
    PlaceExact(n, [g, f], kinds, p);
    assert [g, f][..1] == [g] && [g][..0] == [];
    assert Place(p, [], kinds) == p;
    assert Place(p, [g], kinds) == Moved(p, g, kinds);
    hide Track, Moved;
    assert [g, f][0] == g && [g, f][1] == f;
  }

  /** The worker slices the finding with the later start first, and of two with one start the one listed first. */
  lemma {:induction false} WorkerOrderOfTwo(g: Finding, f: Finding)
    requires f.spanStart <= g.spanStart
    ensures SortDescending([g, f]) == [g, f]
    ensures f.spanStart < g.spanStart ==> SortDescending([f, g]) == [g, f]
  {
    SortTwo(f, g, BY_START);
    SortTwo(g, f, BY_START);
    hide Sort;
    assert Reverse([g, f]) == [f, g] && Reverse([f, g]) == [g, f];
  }

  /** Two findings of a document, `g` being the one the worker slices first. Covered characters leak exactly if the other
      span goes on behind it and its marker is longer than its span; uncovered ones are lost exactly if the overlap is
      longer than its marker and the document goes on behind both spans. */
  lemma {:induction false} TwoSpansExact(n: nat, g: Finding, f: Finding, kinds: Kinds)
    requires f.spanStart <= g.spanStart && InDocument([g, f], n)
    ensures SortDescending([g, f]) == [g, f] && (f.spanStart < g.spanStart ==> SortDescending([f, g]) == [g, f])
    ensures NothingLeaks(n, SortDescending([g, f]), kinds)
       <==> f.spanEnd <= g.spanEnd || |MarkerOf(g, kinds)| <= g.spanEnd - g.spanStart
    ensures NothingLost(n, SortDescending([g, f]), kinds)
       <==> Min(f.spanEnd, g.spanEnd) - g.spanStart <= |MarkerOf(g, kinds)| || f.spanEnd == n || g.spanEnd == n
  {
    WorkerOrderOfTwo(g, f);
    SlicesOfTwo(n, g, f, kinds);
  }

  lemma SlicesOfTwo(n: nat, g: Finding, f: Finding, kinds: Kinds)
    requires f.spanStart <= g.spanStart && InDocument([g, f], n)
    ensures NothingLeaks(n, [g, f], kinds)
       <==> f.spanEnd <= g.spanEnd || |MarkerOf(g, kinds)| <= g.spanEnd - g.spanStart
    ensures NothingLost(n, [g, f], kinds)
       <==> Min(f.spanEnd, g.spanEnd) - g.spanStart <= |MarkerOf(g, kinds)| || f.spanEnd == n || g.spanEnd == n
  {
    hide Track, MarkerOf, Covered;
    assert [g, f][0] == g && [g, f][1] == f;
    forall p: nat | p < n
      ensures Covered([g, f], p) <==> Covers(g, p) || Covers(f, p)
      ensures var k := Moved(p, g, kinds); var end := if k == -1 then -1 else Moved(k, f, kinds);
              p in Track(n, [g, f], kinds) <==> end != -1
    {
      PlaceAfterTwo(n, g, f, kinds, p);
    }
    if f.spanEnd > g.spanEnd && |MarkerOf(g, kinds)| > g.spanEnd - g.spanStart {
      var p := f.spanEnd - 1;
      assert Covered([g, f], p) && p in Track(n, [g, f], kinds);
    }
    var last := if f.spanEnd < g.spanEnd then g.spanEnd else f.spanEnd;
    if Min(f.spanEnd, g.spanEnd) - g.spanStart > |MarkerOf(g, kinds)| && last < n {
      assert !Covered([g, f], last) && last !in Track(n, [g, f], kinds);
    }
  }
}
