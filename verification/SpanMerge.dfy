/** Merging overlapping findings into groups (`tool_sanitize` in `mcp/router.py`). */
module SpanMerge {
  import opened Sequences
  import opened Findings

  datatype Group = Group(start: nat, end: nat, members: seq<Finding>)

  /** A finding that starts before the end of the last group joins it; any other one opens a new group. */
  function MergeOne(merged: seq<Group>, f: Finding): seq<Group> {
    if merged != [] && f.spanStart < merged[|merged| - 1].end then
      merged[|merged| - 1 := Joined(merged[|merged| - 1], f)]
    else
      merged + [Group(f.spanStart, f.spanEnd, [f])]
  }

  function Joined(g: Group, f: Finding): Group {
    Group(g.start, Max(g.end, f.spanEnd), g.members + [f])
  }

  function Merge(fs: seq<Finding>): seq<Group> {
    if fs == [] then [] else MergeOne(Merge(fs[..|fs| - 1]), fs[|fs| - 1])
  }

  lemma NoGroups()
    ensures Merge([]) == []
  {
  }

  method MergeSpans(findings: seq<Finding>) returns (merged: seq<Group>)
    ensures merged == Merge(Sort(findings, BY_SPAN))
  {
    hide Sort, Merge;
    var sorted := Sort(findings, BY_SPAN);
    merged := [];
    NoGroups();
    assert sorted[..0] == [];
    var i := 0;
    while i < |sorted|
      invariant 0 <= i <= |sorted|
      invariant merged == Merge(sorted[..i])
    {
      var f := sorted[i];
      assert sorted[..i + 1] == sorted[..i] + [f];
      MergeNext(sorted[..i], f);
      if merged != [] && f.spanStart < merged[|merged| - 1].end {
        var last := merged[|merged| - 1];
        merged := merged[|merged| - 1 := Group(last.start, if last.end > f.spanEnd then last.end else f.spanEnd, last.members + [f])];
      } else {
        merged := merged + [Group(f.spanStart, f.spanEnd, [f])];
      }
      i := i + 1;
    }
    assert sorted[..i] == sorted;
  }

  /** The findings of all groups, group after group. */
  function Members(gs: seq<Group>): seq<Finding> {
    if gs == [] then [] else Members(gs[..|gs| - 1]) + gs[|gs| - 1].members
  }

  /** The groups come in order and do not overlap. */
  ghost predicate Ordered(gs: seq<Group>) {
    forall i, j :: 0 <= i < j < |gs| ==> gs[i].end <= gs[j].start
  }

  ghost predicate GroupCovers(gs: seq<Group>, p: int) {
    exists i :: 0 <= i < |gs| && gs[i].start <= p < gs[i].end
  }

  /** A group spans exactly the positions of its members, without a gap. */
  ghost predicate Exact(g: Group, n: nat) {
    && g.members != []
    && g.start <= g.end <= n
    && (forall p :: Covered(g.members, p) <==> g.start <= p < g.end)
  }

  lemma CoveredConcat(fs: seq<Finding>, gs: seq<Finding>, p: int)
    ensures Covered(fs + gs, p) <==> Covered(fs, p) || Covered(gs, p)
  {
    var all := fs + gs;
    if i :| 0 <= i < |fs| && Covers(fs[i], p) { assert all[i] == fs[i]; }
    if i :| 0 <= i < |gs| && Covers(gs[i], p) { assert all[|fs| + i] == gs[i]; }
  }

  lemma CoveredOne(f: Finding, p: int)
    ensures Covered([f], p) <==> Covers(f, p)
  {
    assert Covers([f][0], p) <==> Covers(f, p);
  }

  lemma JoinedIsExact(g: Group, f: Finding, n: nat)
    requires Exact(g, n) && f.spanStart <= f.spanEnd <= n && g.start <= f.spanStart < g.end
    ensures Exact(Joined(g, f), n)
  {
    forall p ensures Covered(g.members + [f], p) <==> g.start <= p < Max(g.end, f.spanEnd) {
      CoveredConcat(g.members, [f], p);
      CoveredOne(f, p);
    }
  }

  lemma SingleIsExact(f: Finding, n: nat)
    requires f.spanStart <= f.spanEnd <= n
    ensures Exact(Group(f.spanStart, f.spanEnd, [f]), n)
  {
    forall p ensures Covered([f], p) <==> f.spanStart <= p < f.spanEnd {
      CoveredOne(f, p);
    }
  }

  /** What merging keeps after every finding: the groups come in order, each is exact, starts no later than any
      finding still to come, and together they list the findings seen, in order. */
  ghost predicate Merged(fs: seq<Finding>, gs: seq<Group>, n: nat) {
    && Ordered(gs)
    && (forall i :: 0 <= i < |gs| ==> Exact(gs[i], n))
    && Members(gs) == fs
    && (gs != [] ==> fs != [] && gs[|gs| - 1].start <= fs[|fs| - 1].spanStart)
  }

  lemma {:induction false} MembersOfJoined(gs: seq<Group>, f: Finding)
    ensures Members(MergeOne(gs, f)) == Members(gs) + [f]
  {
    var merged := MergeOne(gs, f);
    if gs != [] && f.spanStart < gs[|gs| - 1].end {
      assert merged[..|merged| - 1] == gs[..|gs| - 1];
    } else {
      assert merged[..|merged| - 1] == gs;
    }
  }

  lemma MergeOneKeeps(fs: seq<Finding>, gs: seq<Group>, f: Finding, n: nat)
    requires Merged(fs, gs, n) && f.spanStart <= f.spanEnd <= n
    requires fs != [] ==> fs[|fs| - 1].spanStart <= f.spanStart
    ensures Merged(fs + [f], MergeOne(gs, f), n)
  {
    hide Members, Exact;
    MembersOfJoined(gs, f);
    if gs != [] && f.spanStart < gs[|gs| - 1].end {
      JoinedIsExact(gs[|gs| - 1], f, n);
    } else {
      SingleIsExact(f, n);
      if gs != [] {
        forall i | 0 <= i < |gs| ensures gs[i].end <= f.spanStart {
          StartBeforeEnd(gs[|gs| - 1], n);
        }
      }
    }
  }

  lemma StartBeforeEnd(g: Group, n: nat)
    requires Exact(g, n)
    ensures g.start <= g.end <= n && g.members != []
  {
  }

  lemma {:induction false} MergeNext(fs: seq<Finding>, f: Finding)
    ensures Merge(fs + [f]) == MergeOne(Merge(fs), f)
  {
    assert (fs + [f])[..|fs|] == fs;
  }

  lemma NothingMerged(n: nat)
    ensures Merged([], Merge([]), n)
  {
  }

  lemma SortedInit(fs: seq<Finding>, f: Finding, n: nat)
    requires SortedBy(fs + [f], BY_SPAN) && InDocument(fs + [f], n)
    ensures SortedBy(fs, BY_SPAN) && InDocument(fs, n) && f.spanStart <= f.spanEnd <= n
    ensures fs != [] ==> fs[|fs| - 1].spanStart <= f.spanStart
  {
    var all := fs + [f];
    assert all[|fs|] == f;
    forall i | 0 <= i < |fs| ensures all[i] == fs[i] && AtMost(BY_SPAN(fs[i]), BY_SPAN(f)) {}
    forall i, j | 0 <= i < j < |fs| ensures AtMost(BY_SPAN(fs[i]), BY_SPAN(fs[j])) {
      assert AtMost(BY_SPAN(all[i]), BY_SPAN(all[j]));
    }
  }

  lemma {:induction false} MergeIsMerged(fs: seq<Finding>, n: nat)
    requires SortedBy(fs, BY_SPAN) && InDocument(fs, n)
    ensures Merged(fs, Merge(fs), n)
  {
    hide Merge, Merged, SortedBy, InDocument, MergeOne;
    if fs == [] {
      NothingMerged(n);
    } else {
      var init, f := fs[..|fs| - 1], fs[|fs| - 1];
      assert fs == init + [f];
      SortedInit(init, f, n);
      MergeIsMerged(init, n);
      MergeOneKeeps(init, Merge(init), f, n);
      MergeNext(init, f);
    }
  }

  /** The groups cover exactly the positions that some finding covers. */
  lemma {:induction false} MergedCoverage(gs: seq<Group>, p: int, n: nat)
    requires forall i :: 0 <= i < |gs| ==> Exact(gs[i], n)
    ensures GroupCovers(gs, p) <==> Covered(Members(gs), p)
  {
    if gs != [] {
      var init, g := gs[..|gs| - 1], gs[|gs| - 1];
      MergedCoverage(init, p, n);
      CoveredConcat(Members(init), g.members, p);
      assert Covered(g.members, p) <==> g.start <= p < g.end;
      if i :| 0 <= i < |gs| && gs[i].start <= p < gs[i].end {
        assert i < |init| ==> init[i] == gs[i];
      }
      if i :| 0 <= i < |init| && init[i].start <= p < init[i].end {
        assert gs[i] == init[i];
      }
    }
  }

  /** Merging any in-range findings, overlapping or not, in any order: the groups are ordered and do not overlap,
      they partition the findings, and they cover exactly the same positions. */
  lemma {:induction false} MergeExact(findings: seq<Finding>, n: nat)
    requires InDocument(findings, n)
    ensures var gs := Merge(Sort(findings, BY_SPAN));
            && Ordered(gs)
            && (forall i :: 0 <= i < |gs| ==> gs[i].start <= gs[i].end <= n && gs[i].members != [])
            && Members(gs) == Sort(findings, BY_SPAN)
            && multiset(Members(gs)) == multiset(findings)
            && (forall p :: GroupCovers(gs, p) <==> Covered(findings, p))
  {
    hide Merge, Exact, Covered, Sort;
    var sorted := Sort(findings, BY_SPAN);
    SortIsSorted(findings, BY_SPAN);
    SameRange(findings, sorted, n);
    MergeIsMerged(sorted, n);
    var gs := Merge(sorted);
    forall i | 0 <= i < |gs| ensures gs[i].start <= gs[i].end <= n && gs[i].members != [] {
      StartBeforeEnd(gs[i], n);
    }
    forall p ensures GroupCovers(gs, p) <==> Covered(findings, p) {
      MergedCoverage(gs, p, n);
      SameCoverage(findings, sorted, p);
    }
  }

  /** Findings that are apart are left alone: one group each. */
  lemma {:induction false} MergeOfApart(fs: seq<Finding>)
    requires Apart(fs)
    ensures |Merge(fs)| == |fs|
    ensures forall i :: 0 <= i < |fs| ==> Merge(fs)[i] == Group(fs[i].spanStart, fs[i].spanEnd, [fs[i]])
  {
    if fs != [] {
      MergeOfApart(fs[..|fs| - 1]);
    }
  }

  /* ----- Groups are no larger than they must be ----- */

  predicate Crosses(f: Finding, q: int) {
    f.spanStart < q < f.spanEnd
  }

  ghost predicate Crossed(fs: seq<Finding>, q: int) {
    exists f :: f in fs && Crosses(f, q)
  }

  /** Inside a group, every boundary between two characters is crossed by a member. */
  ghost predicate Connected(g: Group) {
    forall q :: g.start < q < g.end ==> Crossed(g.members, q)
  }

  lemma JoinedIsConnected(g: Group, f: Finding)
    requires Connected(g) && f.spanStart < g.end
    ensures Connected(Joined(g, f))
  {
    var joined := Joined(g, f);
    forall q | joined.start < q < joined.end ensures Crossed(joined.members, q) {
      if q < g.end {
        assert Crossed(g.members, q);
        var h :| h in g.members && Crosses(h, q);
        assert h in joined.members;
      } else {
        assert f in joined.members && Crosses(f, q);
      }
    }
  }

  lemma SingleIsConnected(f: Finding)
    ensures Connected(Group(f.spanStart, f.spanEnd, [f]))
  {
    forall q | f.spanStart < q < f.spanEnd ensures Crossed([f], q) {
      assert f in [f] && Crosses(f, q);
    }
  }

  lemma {:induction false} MergeIsConnected(fs: seq<Finding>)
    ensures forall i :: 0 <= i < |Merge(fs)| ==> Connected(Merge(fs)[i])
  {
    if fs != [] {
      hide Merge, Connected, Joined;
      var init, f := fs[..|fs| - 1], fs[|fs| - 1];
      assert fs == init + [f];
      MergeIsConnected(init);
      MergeNext(init, f);
      var gs := Merge(init);
      SingleIsConnected(f);
      if gs != [] && f.spanStart < gs[|gs| - 1].end {
        JoinedIsConnected(gs[|gs| - 1], f);
      }
    } else {
      NoGroups();
    }
  }

  lemma {:induction false} MemberOfGroup(gs: seq<Group>, f: Finding)
    requires f in Members(gs)
    ensures exists i :: 0 <= i < |gs| && f in gs[i].members
  {
    var n := |gs| - 1;
    if f in Members(gs[..n]) {
      MemberOfGroup(gs[..n], f);
      var i :| 0 <= i < n && f in gs[..n][i].members;
      assert f in gs[i].members;
    } else {
      assert f in gs[n].members;
    }
  }

  lemma MemberWithin(g: Group, f: Finding, n: nat, q: int)
    requires Exact(g, n) && f in g.members && Crosses(f, q)
    ensures g.start < q < g.end
  {
    var i :| 0 <= i < |g.members| && g.members[i] == f;
    assert Covers(f, f.spanStart) && Covers(f, q);
    assert Covered(g.members, f.spanStart) && Covered(g.members, q);
  }

  /** Two neighbouring characters are replaced together if and only if one finding covers both: spans that only touch stay
      apart. */
  lemma {:induction false} BoundariesExact(findings: seq<Finding>, n: nat, q: int)
    requires InDocument(findings, n)
    ensures var gs := Merge(Sort(findings, BY_SPAN));
            (exists i :: 0 <= i < |gs| && gs[i].start < q < gs[i].end) <==> exists f :: f in findings && f.spanStart < q < f.spanEnd
  {
    hide Sort, Merge, Members, Exact, Connected, SortedBy, Merged;
    var sorted := Sort(findings, BY_SPAN);
    var gs := Merge(sorted);
    SortIsSorted(findings, BY_SPAN);
    SameRange(findings, sorted, n);
    MergeIsMerged(sorted, n);
    MergedParts(sorted, gs, n);
    MergeIsConnected(sorted);
    forall f ensures f in sorted <==> f in findings {
      assert f in sorted <==> f in multiset(sorted);
      assert f in findings <==> f in multiset(findings);
    }
    if i :| 0 <= i < |gs| && gs[i].start < q < gs[i].end {
      CrossedInside(gs[i], q);
      var f :| f in gs[i].members && Crosses(f, q);
      MemberInMembers(gs, i, f);
    }
    if f :| f in findings && f.spanStart < q < f.spanEnd {
      MemberOfGroup(gs, f);
      var i :| 0 <= i < |gs| && f in gs[i].members;
      MemberWithin(gs[i], f, n, q);
    }
  }

  lemma {:induction false} MergedParts(fs: seq<Finding>, gs: seq<Group>, n: nat)
    requires Merged(fs, gs, n)
    ensures Members(gs) == fs && forall i :: 0 <= i < |gs| ==> Exact(gs[i], n)
  {
  }

  lemma CrossedInside(g: Group, q: int)
    requires Connected(g) && g.start < q < g.end
    ensures exists f :: f in g.members && Crosses(f, q)
  {
    assert Crossed(g.members, q);
  }

  lemma {:induction false} MemberInMembers(gs: seq<Group>, i: nat, f: Finding)
    requires i < |gs| && f in gs[i].members
    ensures f in Members(gs)
  {
    if i < |gs| - 1 {
      MemberInMembers(gs[..|gs| - 1], i, f);
    }
  }
}
