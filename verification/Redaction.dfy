/** Redacting a document: `tool_sanitize` of the MCP router, which merges overlapping spans first. */
module Redaction {
  import opened Wrappers
  import opened Sequences
  import opened Findings
  import opened Splicing
  import opened SpanMerge
  import opened Sanitizer

  /* ----- tool_sanitize ----- */

  datatype Entry = Entry(findingId: string, spanStart: nat, spanEnd: nat, redactionType: string, policyVersion: string)

  datatype Operation = Operation(status: string, policyVersion: string)

  datatype SanitizeResponse =
    | OperationNotFound
    | ReviewRequired
    | DocumentGone
    | Sanitized(document: string, redactionMap: seq<Entry>)

  function Replacement(redactionType: string, token: Option<string>): string {
    if redactionType == "mask" then MARKER
    else if redactionType == "remove" then ""
    else if token.Some? && token.value != "" then token.value
    else MARKER
  }

  /** The same text in place of every group. */
  function GroupPatches(gs: seq<Group>, text: string): (ps: seq<Patch<char>>)
    ensures |ps| == |gs|
    ensures forall i :: 0 <= i < |gs| ==> ps[i] == Patch(gs[i].start, gs[i].end, text)
  {
    seq(|gs|, i requires 0 <= i < |gs| => Patch(gs[i].start, gs[i].end, text))
  }

  function EntryOf(f: Finding, redactionType: string, policyVersion: string): Entry {
    Entry(f.id, f.spanStart, f.spanEnd, redactionType, policyVersion)
  }

  function Entries(fs: seq<Finding>, redactionType: string, policyVersion: string): (es: seq<Entry>)
    ensures |es| == |fs|
    ensures forall i :: 0 <= i < |fs| ==> es[i] == EntryOf(fs[i], redactionType, policyVersion)
  {
    seq(|fs|, i requires 0 <= i < |fs| => EntryOf(fs[i], redactionType, policyVersion))
  }

  /** The findings in the order in which the loop over the reversed groups visits them. */
  function Visited(gs: seq<Group>): seq<Finding> {
    if gs == [] then [] else Visited(gs[1..]) + gs[0].members
  }

  /** The inner loop: one entry for each finding of a group. */
  method ListGroup(group: Group, redactionType: string, policyVersion: string) returns (listed: seq<Entry>)
    ensures listed == Entries(group.members, redactionType, policyVersion)
  {
    listed := [];
    for i := 0 to |group.members|
      invariant listed == Entries(group.members[..i], redactionType, policyVersion)
    {
      listed := listed + [EntryOf(group.members[i], redactionType, policyVersion)];
    }
    assert group.members[..|group.members|] == group.members;
  }

  method ToolSanitize(
      operation: Option<Operation>, findings: seq<Finding>, stored: Option<string>,
      redactionType: string, token: Option<string>)
    returns (r: SanitizeResponse)
    ensures r.OperationNotFound? <==> operation.None?
    ensures r.ReviewRequired? <==> operation.Some? && operation.value.status == "escalated"
    ensures r.DocumentGone? <==> operation.Some? && operation.value.status != "escalated" && (stored.None? || stored.value == "")
    ensures r.Sanitized? ==>
              var gs := Merge(Sort(findings, BY_SPAN));
              && r.document == PasteBack(stored.value, GroupPatches(gs, Replacement(redactionType, token)))
              && r.redactionMap == Reverse(Entries(Visited(gs), redactionType, operation.value.policyVersion))
    ensures r.Sanitized? && redactionType == "mask" && Disjoint(findings) ==>
              forall kinds :: FromSeverities(findings, kinds) ==>
                r.document == SpliceEach(stored.value, SortDescending(findings), kinds)
    ensures r.Sanitized? && redactionType == "remove" && InDocument(findings, |stored.value|) ==>
              var left := Uncovered(findings, 0, |stored.value|);
              && (forall k :: 0 <= k < |left| ==> 0 <= left[k] < |stored.value|)
              && r.document == Pick(stored.value, left)
    ensures r.Sanitized? && redactionType != "remove" ==>
              var given := if redactionType == "mask" then None else token;
              var text := if given in {None, Some("")} then "[REDACTED]" else given.value;
              r.document == PasteBack(stored.value, GroupPatches(Merge(Sort(findings, BY_SPAN)), text))
    ensures r.Sanitized? ==>
              var policy := operation.value.policyVersion;
              && |r.redactionMap| == |findings|
              && (forall f :: f in findings ==> Entry(f.id, f.spanStart, f.spanEnd, redactionType, policy) in r.redactionMap)
              && (forall e :: e in r.redactionMap ==>
                    exists f :: f in findings && e == Entry(f.id, f.spanStart, f.spanEnd, redactionType, policy))
              && (Disjoint(findings) ==>
                    forall i, j :: 0 <= i < j < |findings| ==> r.redactionMap[i].spanStart < r.redactionMap[j].spanStart)
  {
    hide Replacement, EntryOf, Paste, Merge, Sort, Reverse;
    if operation.None? {
      return OperationNotFound;
    }
    if operation.value.status == "escalated" {
      return ReviewRequired;
    }
    if stored.None? || stored.value == "" {
      return DocumentGone;
    }
    var policy := operation.value.policyVersion;
    var merged := MergeSpans(findings);
    var replacement := Replacement(redactionType, token);
    ghost var patches := GroupPatches(merged, replacement);
    var redactionMap: seq<Entry> := [];
    var sanitized := stored.value;
    var k := |merged|;
    while k > 0
      invariant 0 <= k <= |merged|
      invariant sanitized == PasteBack(stored.value, patches[k..])
      invariant redactionMap == Entries(Visited(merged[k..]), redactionType, policy)
    {
      k := k - 1;
      var group := merged[k];
      sanitized := Paste(sanitized, Patch(group.start, group.end, replacement));
      assert patches[k..][1..] == patches[k + 1..] && merged[k..][1..] == merged[k + 1..];
      var listed := ListGroup(group, redactionType, policy);
      redactionMap := redactionMap + listed;
    }
    assert patches[0..] == patches && merged[0..] == merged;
    r := Sanitized(sanitized, Reverse(redactionMap));
    SanitizedAsAsked(findings, stored.value, redactionType, token);
    MapListsFindings(findings, redactionType, policy);
    if Disjoint(findings) {
      MapAscends(findings, redactionType, policy);
    }
  }

  /** What each mode asks for. */
  lemma {:induction false} SanitizedAsAsked(findings: seq<Finding>, doc: string, redactionType: string, token: Option<string>)
    ensures var gs := Merge(Sort(findings, BY_SPAN));
            var document := PasteBack(doc, GroupPatches(gs, Replacement(redactionType, token)));
            && (redactionType == "mask" && Disjoint(findings) ==>
                  forall kinds :: FromSeverities(findings, kinds) ==> document == SpliceEach(doc, SortDescending(findings), kinds))
            && (redactionType == "remove" && InDocument(findings, |doc|) ==>
                  var left := Uncovered(findings, 0, |doc|);
                  && (forall k :: 0 <= k < |left| ==> 0 <= left[k] < |doc|)
                  && document == Pick(doc, left))
            && (redactionType != "remove" ==>
                  var given := if redactionType == "mask" then None else token;
                  var text := if given in {None, Some("")} then "[REDACTED]" else given.value;
                  document == PasteBack(doc, GroupPatches(gs, text)))
  {
    hide PasteBack, Merge, Sort, SortDescending, SpliceEach, Uncovered, Disjoint, FromSeverities, InDocument;
    assert redactionType == "remove" ==> redactionType != "mask" by { assert |"remove"| != |"mask"|; }
    if redactionType == "mask" && Disjoint(findings) {
      forall kinds | FromSeverities(findings, kinds)
        ensures PasteBack(doc, GroupPatches(Merge(Sort(findings, BY_SPAN)), MARKER)) == SpliceEach(doc, SortDescending(findings), kinds)
      {
        AgreesWithToolSanitize(doc, findings, kinds);
      }
    }
    if redactionType == "remove" && InDocument(findings, |doc|) {
      RemovalExact(doc, findings);
    }
  }

  lemma {:induction false} VisitedPermutesMembers(gs: seq<Group>)
    ensures multiset(Visited(gs)) == multiset(Members(gs))
  {
    if gs != [] {
      VisitedPermutesMembers(gs[1..]);
      MembersFromFront(gs);
    }
  }

  lemma {:induction false} MembersFromFront(gs: seq<Group>)
    requires gs != []
    ensures Members(gs) == gs[0].members + Members(gs[1..])
    decreases |gs|
  {
    if |gs| == 1 {
      assert gs[..0] == [] && gs[1..] == [];
    } else {
      var n := |gs| - 1;
      MembersFromFront(gs[..n]);
      assert gs[..n][1..] == gs[1..][..n - 1] && gs[1..][n - 1] == gs[n] && gs[..n][0] == gs[0];
      var a, b, c := gs[0].members, Members(gs[1..][..n - 1]), gs[n].members;
      assert (a + b) + c == a + (b + c);
    }
  }

  lemma {:induction false} EntriesPermute(fs: seq<Finding>, gs: seq<Finding>, redactionType: string, policyVersion: string)
    requires multiset(fs) == multiset(gs)
    ensures multiset(Entries(fs, redactionType, policyVersion)) == multiset(Entries(gs, redactionType, policyVersion))
    decreases |fs|
  {
    hide Entries;
    SameLength(fs, gs);
    if fs != [] {
      assert fs[0] in multiset(gs);
      var j :| 0 <= j < |gs| && gs[j] == fs[0];
      RemoveOne(fs, gs, j);
      EntriesPermute(fs[1..], gs[..j] + gs[j + 1..], redactionType, policyVersion);
      EntriesLess(fs, 0, redactionType, policyVersion);
      EntriesLess(gs, j, redactionType, policyVersion);
      DropFirst(fs);
    }
  }

  lemma DropFirst<T>(s: seq<T>)
    requires s != []
    ensures s[..0] + s[1..] == s[1..]
  {
  }

  lemma EntriesLess(fs: seq<Finding>, j: nat, redactionType: string, policyVersion: string)
    requires j < |fs|
    ensures multiset(Entries(fs, redactionType, policyVersion))
         == multiset(Entries(fs[..j] + fs[j + 1..], redactionType, policyVersion))
            + multiset{EntryOf(fs[j], redactionType, policyVersion)}
  {
    hide Entries;
    EntriesWith(fs[..j], fs[j], fs[j + 1..], redactionType, policyVersion);
    assert fs == fs[..j] + [fs[j]] + fs[j + 1..];
  }

  lemma EntriesWith(a: seq<Finding>, f: Finding, b: seq<Finding>, redactionType: string, policyVersion: string)
    ensures multiset(Entries(a + [f] + b, redactionType, policyVersion))
         == multiset(Entries(a + b, redactionType, policyVersion)) + multiset{EntryOf(f, redactionType, policyVersion)}
  {
    hide EntryOf;
    var x, y := Entries(a, redactionType, policyVersion), Entries(b, redactionType, policyVersion);
    assert Entries(a + [f] + b, redactionType, policyVersion) == x + [EntryOf(f, redactionType, policyVersion)] + y;
    assert Entries(a + b, redactionType, policyVersion) == x + y;
  }

  lemma RemoveOne<T>(fs: seq<T>, gs: seq<T>, j: nat)
    requires multiset(fs) == multiset(gs) && fs != [] && j < |gs| && gs[j] == fs[0]
    ensures multiset(fs[1..]) == multiset(gs[..j] + gs[j + 1..])
  {
    assert fs == [fs[0]] + fs[1..];
    assert gs == gs[..j] + [gs[j]] + gs[j + 1..];
    assert multiset(gs) == multiset(gs[..j] + gs[j + 1..]) + multiset{gs[j]};
    assert multiset(fs) == multiset{fs[0]} + multiset(fs[1..]);
    assert multiset(fs[1..]) == multiset(fs) - multiset{fs[0]};
  }

  lemma {:induction false} MembersOfMerge(fs: seq<Finding>)
    ensures Members(Merge(fs)) == fs
  {
    if fs != [] {
      hide Merge, Members, MergeOne;
      var init, f := fs[..|fs| - 1], fs[|fs| - 1];
      assert fs == init + [f];
      MembersOfMerge(init);
      MergeNext(init, f);
      MembersOfJoined(Merge(init), f);
    }
  }

  /** The redaction map lists each finding exactly once, whatever the spans. */
  lemma {:induction false} RedactionMapIsComplete(findings: seq<Finding>, redactionType: string, policyVersion: string)
    ensures multiset(Reverse(Entries(Visited(Merge(Sort(findings, BY_SPAN))), redactionType, policyVersion)))
         == multiset(Entries(findings, redactionType, policyVersion))
  {
    hide Sort, Merge, Visited, Members, Reverse;
    var gs := Merge(Sort(findings, BY_SPAN));
    SortIsSorted(findings, BY_SPAN);
    MembersOfMerge(Sort(findings, BY_SPAN));
    VisitedPermutesMembers(gs);
    EntriesPermute(Visited(gs), findings, redactionType, policyVersion);
    ReversePermutes(Entries(Visited(gs), redactionType, policyVersion));
  }

  /** The positions of the document that no finding covers, in ascending order. */
  ghost function Uncovered(findings: seq<Finding>, from: nat, n: nat): seq<int>
    requires from <= n
    decreases n - from
  {
    if from == n then [] else (if Covered(findings, from) then [] else [from as int]) + Uncovered(findings, from + 1, n)
  }

  lemma {:induction false} UncoveredIsOutside(findings: seq<Finding>, ps: seq<Patch<char>>, from: nat, n: nat)
    requires from <= n && forall p :: from <= p < n ==> (Covered(findings, p) <==> Patched(ps, p))
    ensures Uncovered(findings, from, n) == Outside(ps, from, n)
    decreases n - from
  {
    if from < n {
      UncoveredIsOutside(findings, ps, from + 1, n);
    }
  }

  lemma {:induction false} AddedByGroups(gs: seq<Group>, text: string)
    ensures Added(GroupPatches(gs, text)) == |gs| * |text|
    decreases |gs|
  {
    if gs != [] {
      AddedByGroups(gs[1..], text);
      assert GroupPatches(gs, text)[1..] == GroupPatches(gs[1..], text);
      assert |gs| * |text| == |text| + |gs[1..]| * |text|;
    }
  }

  lemma {:induction false} GroupsArePlaced(findings: seq<Finding>, n: nat, text: string)
    requires InDocument(findings, n)
    ensures var ps := GroupPatches(Merge(Sort(findings, BY_SPAN)), text);
            && Placed(ps, 0, n)
            && (forall p :: Covered(findings, p) <==> Patched(ps, p))
  {
    hide Sort, Merge, Members, Covered;
    MergeExact(findings, n);
    var gs := Merge(Sort(findings, BY_SPAN));
    var ps := GroupPatches(gs, text);
    forall p ensures GroupCovers(gs, p) <==> Patched(ps, p) {
      if i :| 0 <= i < |gs| && gs[i].start <= p < gs[i].end { assert ps[i].lo <= p < ps[i].hi; }
      if i :| 0 <= i < |ps| && ps[i].lo <= p < ps[i].hi { assert gs[i].start <= p < gs[i].end; }
    }
  }

  /** Sanitizing a document with any in-range findings, overlapping or not. The right-to-left replacements give what the
      left-to-right construction gives; every character that no finding covers survives, once and in its place
      among the others, and no covered one does; the length follows from the groups. */
  lemma {:induction false} SanitizeExact(doc: string, findings: seq<Finding>, text: string)
    requires InDocument(findings, |doc|)
    ensures var gs := Merge(Sort(findings, BY_SPAN));
            var ps := GroupPatches(gs, text);
            && Placed(ps, 0, |doc|)
            && PasteBack(doc, ps) == Build(doc, ps, 0)
            && |PasteBack(doc, ps)| == |doc| - Removed(ps) + |gs| * |text|
            && |Origins(|doc|, ps, 0)| == |PasteBack(doc, ps)|
            && (forall k :: 0 <= k < |Origins(|doc|, ps, 0)| && Origins(|doc|, ps, 0)[k] != -1 ==>
                  0 <= Origins(|doc|, ps, 0)[k] < |doc| && PasteBack(doc, ps)[k] == doc[Origins(|doc|, ps, 0)[k]])
            && Positions(Origins(|doc|, ps, 0)) == Uncovered(findings, 0, |doc|)
  {
    var gs := Merge(Sort(findings, BY_SPAN));
    var ps := GroupPatches(gs, text);
    hide Merge, Sort, GroupPatches, Origins, PasteBack, Build, Outside, Uncovered, Covered, Patched, Positions, Removed, Added;
    GroupsArePlaced(findings, |doc|, text);
    PasteBackBuilds(doc, ps, 0);
    BuildLength(doc, ps, 0);
    AddedByGroups(gs, text);
    OriginsAreFaithful(doc, ps, 0);
    SurvivorsExact(|doc|, ps, 0);
    UncoveredIsOutside(findings, ps, 0, |doc|);
    assert doc[..0] + Build(doc, ps, 0) == Build(doc, ps, 0);
  }

  /* ----- Beside the worker ----- */

  /** On disjoint findings the worker and `tool_sanitize` in mask mode produce the same document. */
  lemma {:induction false} AgreesWithToolSanitize(text: string, findings: seq<Finding>, redactionMap: map<string, string>)
    requires Disjoint(findings) && FromSeverities(findings, redactionMap)
    ensures SpliceEach(text, SortDescending(findings), redactionMap)
         == PasteBack(text, GroupPatches(Merge(Sort(findings, BY_SPAN)), MARKER))
  {
    hide Sort, SortDescending, SpliceBack, PasteBack, SpliceEach, Merge, Reverse, MARKER, Disjoint, Apart;
    var sorted := Sort(findings, BY_SPAN);
    DisjointOrder(findings);
    EachOfReversed(text, sorted, redactionMap);
    MergeOfApart(sorted);
    forall i | 0 <= i < |sorted| ensures MarkerOf(sorted[i], redactionMap) == MARKER {
      assert sorted[i] in multiset(findings);
      var j :| 0 <= j < |findings| && findings[j] == sorted[i];
    }
    assert FindingPatches(sorted, redactionMap) == GroupPatches(Merge(sorted), MARKER);
    ApartInOrder(sorted);
    PasteBackSplices(text, GroupPatches(Merge(sorted), MARKER));
  }

  lemma ApartInOrder(fs: seq<Finding>)
    requires Apart(fs)
    ensures forall i :: 0 <= i < |fs| ==> fs[i].spanStart <= fs[i].spanEnd
  {
  }

  lemma SortNested(outer: Finding, inner: Finding)
    requires outer.spanStart < inner.spanStart
    ensures Sort([outer, inner], BY_SPAN) == [outer, inner]
    ensures SortDescending([outer, inner]) == [inner, outer]
  {
    SortTwo(outer, inner, BY_SPAN);
    SortTwo(inner, outer, BY_START);
    hide Sort;
    assert Reverse([outer, inner]) == [inner, outer];
  }

  /** The outer slice, taken from a text that the inner marker has shifted. */
  lemma ShiftedSplice(text: string, outer: Finding, inner: Finding, marker: string)
    requires outer.spanStart < inner.spanStart < inner.spanEnd < outer.spanEnd <= |text|
    requires 0 < |marker| - (inner.spanEnd - inner.spanStart) <= outer.spanEnd - inner.spanEnd
    ensures Splice(Splice(text, Patch(inner.spanStart, inner.spanEnd, marker)), Patch(outer.spanStart, outer.spanEnd, marker))
         == text[..outer.spanStart] + marker + text[outer.spanEnd - (|marker| - (inner.spanEnd - inner.spanStart))..]
  {
    var first := text[..inner.spanStart] + marker + text[inner.spanEnd..];
    assert first[..outer.spanStart] == text[..outer.spanStart];
    assert first[outer.spanEnd..] == text[outer.spanEnd - (|marker| - (inner.spanEnd - inner.spanStart))..];
  }

  lemma NestedGroup(outer: Finding, inner: Finding)
    requires outer.spanStart < inner.spanStart < inner.spanEnd < outer.spanEnd
    ensures Merge([outer, inner]) == [Group(outer.spanStart, outer.spanEnd, [outer, inner])]
  {
    var fs := [outer, inner];
    assert fs[..1] == [outer] && [outer][..0] == [];
    assert Merge([]) == [];
    assert Merge([outer]) == [Group(outer.spanStart, outer.spanEnd, [outer])];
    assert Merge(fs) == MergeOne(Merge(fs[..1]), inner);
    assert [outer] + [inner] == fs;
  }

  lemma {:induction false} EachOfTwo(text: string, f: Finding, g: Finding)
    ensures SpliceEach(text, [f, g], map[])
         == Splice(Splice(text, Patch(f.spanStart, f.spanEnd, MARKER)), Patch(g.spanStart, g.spanEnd, MARKER))
  {
    hide MARKER, Splice;
    assert [f, g][..1] == [f] && [f][..0] == [];
    assert SpliceEach(text, [], map[]) == text;
    assert SpliceEach(text, [f], map[]) == Splice(text, Patch(f.spanStart, f.spanEnd, MARKER));
  }

  lemma {:induction false} OneGroup(text: string, g: Group, marker: string)
    requires g.start <= g.end <= |text|
    ensures PasteBack(text, GroupPatches([g], marker)) == text[..g.start] + marker + text[g.end..]
  {
    var ps := GroupPatches([g], marker);
    assert ps[1..] == [];
  }

  /** Disjointness is needed. When one finding lies strictly inside another, the outer slice is applied to a text
      that the inner marker has already shifted: its end is off by the difference between the marker and the inner
      span. With a longer marker, as many characters as that difference survive from the end of the outer span. */
  lemma {:induction false} NestedSpansLeak(text: string, outer: Finding, inner: Finding)
    requires outer.spanStart < inner.spanStart < inner.spanEnd < outer.spanEnd <= |text|
    requires 0 < |MARKER| - (inner.spanEnd - inner.spanStart) <= outer.spanEnd - inner.spanEnd
    ensures SpliceEach(text, SortDescending([outer, inner]), map[])
         == text[..outer.spanStart] + MARKER + text[outer.spanEnd - (|MARKER| - (inner.spanEnd - inner.spanStart))..]
    ensures PasteBack(text, GroupPatches(Merge(Sort([outer, inner], BY_SPAN)), MARKER))
         == text[..outer.spanStart] + MARKER + text[outer.spanEnd..]
  {
    hide MARKER, Splice, Sort, SortDescending, Merge, SpliceEach, PasteBack;
    SortNested(outer, inner);
    EachOfTwo(text, inner, outer);
    ShiftedSplice(text, outer, inner, MARKER);
    NestedGroup(outer, inner);
    OneGroup(text, Group(outer.spanStart, outer.spanEnd, [outer, inner]), MARKER);
  }

  /* ----- Removal ----- */

  /** The characters at the given positions. */
  ghost function Pick(doc: string, positions: seq<int>): (picked: string)
    requires forall k :: 0 <= k < |positions| ==> 0 <= positions[k] < |doc|
    ensures |picked| == |positions| && forall k :: 0 <= k < |positions| ==> picked[k] == doc[positions[k]]
  {
    seq(|positions|, k requires 0 <= k < |positions| => doc[positions[k]])
  }

  lemma {:induction false} UncoveredInRange(findings: seq<Finding>, from: nat, n: nat)
    requires from <= n
    ensures forall k :: 0 <= k < |Uncovered(findings, from, n)| ==> 0 <= Uncovered(findings, from, n)[k] < n
    decreases n - from
  {
    if from < n {
      UncoveredInRange(findings, from + 1, n);
    }
  }

  /** Patches without text leave no marks. */
  lemma {:induction false} NoMarks(n: nat, ps: seq<Patch<char>>, from: nat)
    requires Placed(ps, from, n) && forall i :: 0 <= i < |ps| ==> ps[i].text == []
    ensures forall k :: 0 <= k < |Origins(n, ps, from)| ==> Origins(n, ps, from)[k] >= 0
    decreases |ps|
  {
    if ps != [] {
      NoMarks(n, ps[1..], ps[0].hi);
    }
  }

  lemma {:induction false} PositionsOfAll(s: seq<int>)
    requires forall k :: 0 <= k < |s| ==> s[k] >= 0
    ensures Positions(s) == s
  {
    if s != [] {
      PositionsOfAll(s[1..]);
    }
  }

  /** With an empty replacement exactly the uncovered characters are left, in order. */
  lemma {:induction false} RemovalExact(doc: string, findings: seq<Finding>)
    requires InDocument(findings, |doc|)
    ensures forall k :: 0 <= k < |Uncovered(findings, 0, |doc|)| ==> 0 <= Uncovered(findings, 0, |doc|)[k] < |doc|
    ensures PasteBack(doc, GroupPatches(Merge(Sort(findings, BY_SPAN)), "")) == Pick(doc, Uncovered(findings, 0, |doc|))
  {
    hide Sort, Merge, PasteBack, Origins, Uncovered, Positions, Build, Removed;
    var ps := GroupPatches(Merge(Sort(findings, BY_SPAN)), "");
    UncoveredInRange(findings, 0, |doc|);
    SanitizeExact(doc, findings, "");
    NoMarks(|doc|, ps, 0);
    PositionsOfAll(Origins(|doc|, ps, 0));
  }

  /* ----- The redaction map ----- */

  lemma {:induction false} MapListsFindings(findings: seq<Finding>, redactionType: string, policyVersion: string)
    ensures var entries := Reverse(Entries(Visited(Merge(Sort(findings, BY_SPAN))), redactionType, policyVersion));
            && |entries| == |findings|
            && (forall f :: f in findings ==> Entry(f.id, f.spanStart, f.spanEnd, redactionType, policyVersion) in entries)
            && (forall e :: e in entries ==>
                  exists f :: f in findings && e == Entry(f.id, f.spanStart, f.spanEnd, redactionType, policyVersion))
  {
    hide Sort, Merge, Visited, Reverse;
    var entries := Reverse(Entries(Visited(Merge(Sort(findings, BY_SPAN))), redactionType, policyVersion));
    var listed := Entries(findings, redactionType, policyVersion);
    RedactionMapIsComplete(findings, redactionType, policyVersion);
    SameLength(entries, listed);
    forall e ensures e in entries <==> e in listed {
      assert e in entries <==> e in multiset(entries);
      assert e in listed <==> e in multiset(listed);
    }
    forall f | f in findings ensures Entry(f.id, f.spanStart, f.spanEnd, redactionType, policyVersion) in entries {
      var i :| 0 <= i < |findings| && findings[i] == f;
      assert listed[i] in listed;
    }
    forall e | e in entries
      ensures exists f :: f in findings && e == Entry(f.id, f.spanStart, f.spanEnd, redactionType, policyVersion)
    {
      var i :| 0 <= i < |listed| && listed[i] == e;
      assert findings[i] in findings;
    }
  }

  lemma {:induction false} VisitedOfSingles(gs: seq<Group>, fs: seq<Finding>)
    requires |gs| == |fs| && forall i :: 0 <= i < |fs| ==> gs[i].members == [fs[i]]
    ensures Visited(gs) == Reverse(fs)
  {
    if gs != [] {
      VisitedOfSingles(gs[1..], fs[1..]);
    }
  }

  /** For disjoint findings the map goes through the document from left to right. */
  lemma {:induction false} MapAscends(findings: seq<Finding>, redactionType: string, policyVersion: string)
    requires Disjoint(findings)
    ensures var entries := Reverse(Entries(Visited(Merge(Sort(findings, BY_SPAN))), redactionType, policyVersion));
            forall i, j :: 0 <= i < j < |entries| ==> entries[i].spanStart < entries[j].spanStart
  {
    hide Sort, Merge, Visited, Disjoint;
    var sorted := Sort(findings, BY_SPAN);
    DisjointOrder(findings);
    MergeOfApart(sorted);
    VisitedOfSingles(Merge(sorted), sorted);
  }
}
