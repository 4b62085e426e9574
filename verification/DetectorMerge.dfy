/** Combining the findings of the two detectors (`_merge_findings` in `agents/detector_agent.py`). */
module DetectorMerge {
  import opened Findings

  predicate OverlapsAny(fs: seq<Finding>, f: Finding) {
    exists i :: 0 <= i < |fs| && Overlap(fs[i], f)
  }

  /** The Presidio findings that overlap no regex finding, in order. */
  function Unclaimed(regex: seq<Finding>, presidio: seq<Finding>): seq<Finding> {
    if presidio == [] then []
    else
      var n := |presidio| - 1;
      Unclaimed(regex, presidio[..n]) + if OverlapsAny(regex, presidio[n]) then [] else [presidio[n]]
  }

  function MergeFindings(regex: seq<Finding>, presidio: seq<Finding>): seq<Finding> {
    Sort(regex + Unclaimed(regex, presidio), BY_START)
  }

  method Overlaps(regex: seq<Finding>, f: Finding) returns (overlaps: bool)
    ensures overlaps == OverlapsAny(regex, f)
  {
    overlaps := false;
    for i := 0 to |regex|
      invariant overlaps <==> exists j :: 0 <= j < i && Overlap(regex[j], f)
    {
      overlaps := overlaps || Overlap(regex[i], f);
    }
  }

  method Combine(regex: seq<Finding>, presidio: seq<Finding>) returns (merged: seq<Finding>)
    ensures merged == MergeFindings(regex, presidio)
    ensures forall f ::
              multiset(merged)[f]
              == multiset(regex)[f] + if exists i :: 0 <= i < |regex| && Overlap(regex[i], f) then 0 else multiset(presidio)[f]
    ensures forall i, j :: 0 <= i < j < |merged| ==> merged[i].spanStart <= merged[j].spanStart
  {
    hide Sort, Overlap, OverlapsAny;
    merged := regex;
    for i := 0 to |presidio|
      invariant merged == regex + Unclaimed(regex, presidio[..i])
    {
      assert presidio[..i + 1][..i] == presidio[..i];
      var overlaps := Overlaps(regex, presidio[i]);
      if !overlaps {
        merged := merged + [presidio[i]];
      }
    }
    assert presidio[..|presidio|] == presidio;
    merged := Sort(merged, BY_START);
    MergedExactly(regex, presidio);
  }

  lemma {:induction false} MergedExactly(regex: seq<Finding>, presidio: seq<Finding>)
    ensures forall f ::
              multiset(MergeFindings(regex, presidio))[f]
              == multiset(regex)[f] + if exists i :: 0 <= i < |regex| && Overlap(regex[i], f) then 0 else multiset(presidio)[f]
    ensures var merged := MergeFindings(regex, presidio);
            forall i, j :: 0 <= i < j < |merged| ==> merged[i].spanStart <= merged[j].spanStart
  {
    hide MergeFindings, Overlap;
    forall f
      ensures multiset(MergeFindings(regex, presidio))[f]
           == multiset(regex)[f] + if exists i :: 0 <= i < |regex| && Overlap(regex[i], f) then 0 else multiset(presidio)[f]
    {
      MergeCounts(regex, presidio, f);
    }
    MergeStarts(regex, presidio);
  }

  lemma {:induction false} MergeStarts(regex: seq<Finding>, presidio: seq<Finding>)
    ensures var merged := MergeFindings(regex, presidio);
            forall i, j :: 0 <= i < j < |merged| ==> merged[i].spanStart <= merged[j].spanStart
  {
    hide Sort, Unclaimed;
    SortIsSorted(regex + Unclaimed(regex, presidio), BY_START);
    var merged := MergeFindings(regex, presidio);
    forall i, j | 0 <= i < j < |merged| ensures merged[i].spanStart <= merged[j].spanStart {
      assert AtMost(BY_START(merged[i]), BY_START(merged[j]));
    }
  }

  ghost predicate NoOverlaps(fs: seq<Finding>) {
    forall i, j :: 0 <= i < j < |fs| ==> !Overlap(fs[i], fs[j])
  }

  lemma {:induction false} UnclaimedMembers(regex: seq<Finding>, presidio: seq<Finding>, f: Finding)
    ensures f in Unclaimed(regex, presidio) <==> f in presidio && !OverlapsAny(regex, f)
  {
    if presidio != [] {
      var n := |presidio| - 1;
      UnclaimedMembers(regex, presidio[..n], f);
      assert presidio == presidio[..n] + [presidio[n]];
    }
  }

  /** An element that stands at two places stands at two places of every permutation. */
  lemma TwoPlaces<T>(a: seq<T>, b: seq<T>, i: nat, j: nat) returns (k: nat, l: nat)
    requires multiset(a) == multiset(b) && i < j < |a|
    ensures k < |b| && l < |b| && k != l && b[k] == a[i] && b[l] == a[j]
  {
    assert a[i] in multiset(b) && a[j] in multiset(b);
    k :| 0 <= k < |b| && b[k] == a[i];
    if a[i] != a[j] {
      l :| 0 <= l < |b| && b[l] == a[j];
    } else {
      assert a == a[..j] + [a[j]] + a[j + 1..];
      assert a[i] in multiset(a[..j]) by { assert a[..j][i] == a[i]; }
      assert multiset(a)[a[i]] >= 2;
      var rest := b[..k] + b[k + 1..];
      assert b == b[..k] + [b[k]] + b[k + 1..];
      assert multiset(b) == multiset(rest) + multiset{b[k]};
      assert a[i] in multiset(rest);
      var m :| 0 <= m < |rest| && rest[m] == a[i];
      l := if m < k then m else m + 1;
    }
  }

  lemma NoOverlapsPermutes(a: seq<Finding>, b: seq<Finding>)
    requires multiset(a) == multiset(b) && NoOverlaps(b)
    ensures NoOverlaps(a)
  {
    forall i, j | 0 <= i < j < |a| ensures !Overlap(a[i], a[j]) {
      var k, l := TwoPlaces(a, b, i, j);
      assert k < l ==> !Overlap(b[k], b[l]);
      assert l < k ==> !Overlap(b[l], b[k]);
    }
  }

  lemma NoOverlapsConcat(a: seq<Finding>, b: seq<Finding>)
    requires forall f, g :: f in a && g in b ==> !Overlap(f, g)
    ensures NoOverlaps(a + b) <==> NoOverlaps(a) && NoOverlaps(b)
  {
    var all := a + b;
    if NoOverlaps(all) {
      forall i, j | 0 <= i < j < |a| ensures !Overlap(a[i], a[j]) { assert !Overlap(all[i], all[j]); }
      forall i, j | 0 <= i < j < |b| ensures !Overlap(b[i], b[j]) { assert !Overlap(all[|a| + i], all[|a| + j]); }
    }
    if NoOverlaps(a) && NoOverlaps(b) {
      forall i, j | 0 <= i < j < |all| ensures !Overlap(all[i], all[j]) {
        if i < |a| <= j {
          assert all[i] in a && all[j] in b;
        }
      }
    }
  }

  lemma {:induction false} UnclaimedCounts(regex: seq<Finding>, presidio: seq<Finding>, f: Finding)
    ensures multiset(Unclaimed(regex, presidio))[f] == if OverlapsAny(regex, f) then 0 else multiset(presidio)[f]
  {
    if presidio != [] {
      hide OverlapsAny;
      var n := |presidio| - 1;
      UnclaimedCounts(regex, presidio[..n], f);
      assert presidio == presidio[..n] + [presidio[n]];
      assert multiset(presidio)[f] == multiset(presidio[..n])[f] + multiset([presidio[n]])[f];
    }
  }

  /** Each finding is kept as often as it was found, unless a regex finding claims it. */
  lemma {:induction false} MergeCounts(regex: seq<Finding>, presidio: seq<Finding>, f: Finding)
    ensures multiset(MergeFindings(regex, presidio))[f]
         == multiset(regex)[f] + if exists i :: 0 <= i < |regex| && Overlap(regex[i], f) then 0 else multiset(presidio)[f]
  {
    SortIsSorted(regex + Unclaimed(regex, presidio), BY_START);
    UnclaimedCounts(regex, presidio, f);
  }

  /** Which findings the merged list holds: all regex findings, and the Presidio findings that overlap none. */
  lemma MergeKeeps(regex: seq<Finding>, presidio: seq<Finding>, f: Finding)
    ensures f in MergeFindings(regex, presidio)
       <==> f in regex || (f in presidio && !OverlapsAny(regex, f))
    ensures SortedBy(MergeFindings(regex, presidio), BY_START)
  {
    var all := regex + Unclaimed(regex, presidio);
    SortIsSorted(all, BY_START);
    UnclaimedMembers(regex, presidio, f);
    assert f in MergeFindings(regex, presidio) <==> f in multiset(MergeFindings(regex, presidio));
    assert f in all <==> f in multiset(all);
  }

  /** The documented "no overlapping entries" holds exactly when the regex findings do not overlap one another and
      the Presidio findings that are kept do not either: only overlaps between the two lists are removed. */
  lemma {:induction false} NoOverlapsExact(regex: seq<Finding>, presidio: seq<Finding>)
    ensures NoOverlaps(MergeFindings(regex, presidio))
       <==> NoOverlaps(regex) && NoOverlaps(Unclaimed(regex, presidio))
  {
    var kept := Unclaimed(regex, presidio);
    forall f, g | f in regex && g in kept ensures !Overlap(f, g) {
      UnclaimedMembers(regex, presidio, g);
    }
    NoOverlapsConcat(regex, kept);
    SortIsSorted(regex + kept, BY_START);
    var merged := MergeFindings(regex, presidio);
    hide Sort, Unclaimed, MergeFindings;
    if NoOverlaps(merged) {
      NoOverlapsPermutes(regex + kept, merged);
    }
    if NoOverlaps(regex + kept) {
      NoOverlapsPermutes(merged, regex + kept);
    }
  }
}
