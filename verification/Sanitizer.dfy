/** In-place redaction by the sanitizer worker (`agents/sanitizer_agent.py`). */
module Sanitizer {
  import opened Findings
  import opened Splicing

  const MARKER: string := "[REDACTED]"

  function SeverityToRedactionType(s: Severity): string {
    match s
    case Critical => "mask"
    case High => "mask"
    case Medium => "mask"
    case Low => "replace"
  }

  /** The marker written for a finding; unknown findings and unknown types get the default. */
  function MarkerOf(f: Finding, redactionMap: map<string, string>): string {
    var kind := if f.id in redactionMap then redactionMap[f.id] else "mask";
    if kind == "remove" then "" else MARKER
  }

  function FindingPatches(fs: seq<Finding>, redactionMap: map<string, string>): (ps: seq<Patch<char>>)
    ensures |ps| == |fs|
    ensures forall i :: 0 <= i < |fs| ==> ps[i] == Patch(fs[i].spanStart, fs[i].spanEnd, MarkerOf(fs[i], redactionMap))
  {
    seq(|fs|, i requires 0 <= i < |fs| => Patch(fs[i].spanStart, fs[i].spanEnd, MarkerOf(fs[i], redactionMap)))
  }

  /** The slice assignments of the loop, in the order in which it makes them. */
  function SpliceEach(chars: string, fs: seq<Finding>, redactionMap: map<string, string>): string {
    if fs == [] then chars
    else
      var n := |fs| - 1;
      Splice(SpliceEach(chars, fs[..n], redactionMap),
             Patch(fs[n].spanStart, fs[n].spanEnd, MarkerOf(fs[n], redactionMap)))
  }

  method ApplyRedactions(text: string, findings: seq<Finding>, redactionMap: map<string, string>) returns (sanitized: string)
    ensures sanitized == SpliceEach(text, SortDescending(findings), redactionMap)
    ensures Disjoint(findings) && InDocument(findings, |text|) ==>
              forall ps :: Marks(ps, Sort(findings, BY_SPAN), redactionMap) ==>
                Placed(ps, 0, |text|) && sanitized == Build(text, ps, 0)
  {
    hide MARKER, Splice, SortDescending;
    if Disjoint(findings) && InDocument(findings, |text|) {
      MarkedAsAsked(text, findings, redactionMap);
    }
    var sortedFindings := SortDescending(findings);
    var chars := text;
    var i := 0;
    while i < |sortedFindings|
      invariant 0 <= i <= |sortedFindings|
      invariant chars == SpliceEach(text, sortedFindings[..i], redactionMap)
    {
      var f := sortedFindings[i];
      assert sortedFindings[..i + 1][..i] == sortedFindings[..i];
      chars := Splice(chars, Patch(f.spanStart, f.spanEnd, MarkerOf(f, redactionMap)));
      i := i + 1;
    }
    assert sortedFindings[..i] == sortedFindings;
    sanitized := chars;
  }

  /** Going through the reversed list is splicing from right to left. */
  lemma {:induction false} EachOfReversed(text: string, fs: seq<Finding>, redactionMap: map<string, string>)
    ensures SpliceEach(text, Reverse(fs), redactionMap) == SpliceBack(text, FindingPatches(fs, redactionMap))
    decreases |fs|
  {
    if fs != [] {
      EachOfReversed(text, fs[1..], redactionMap);
      assert Reverse(fs)[..|fs| - 1] == Reverse(fs[1..]);
      assert FindingPatches(fs, redactionMap)[1..] == FindingPatches(fs[1..], redactionMap);
    }
  }

  /** For disjoint findings, given in any order, the two sorts agree up to reversal. */
  lemma {:induction false} DisjointOrder(findings: seq<Finding>)
    requires Disjoint(findings)
    ensures Apart(Sort(findings, BY_SPAN))
    ensures multiset(Sort(findings, BY_SPAN)) == multiset(findings)
    ensures SortDescending(findings) == Reverse(Sort(findings, BY_SPAN))
  {
    hide Sort, Reverse, Disjoint, Apart, SortedBy;
    var a, b := Sort(findings, BY_SPAN), Sort(Reverse(findings), BY_START);
    ReversePermutes(findings);
    SortIsSorted(findings, BY_SPAN);
    SortIsSorted(Reverse(findings), BY_START);
    DisjointSorted(findings, a, BY_SPAN);
    DisjointSorted(findings, b, BY_START);
    ApartIsUnique(a, b);
  }

  lemma ApartPlaced(fs: seq<Finding>, n: nat, redactionMap: map<string, string>)
    requires Apart(fs) && InDocument(fs, n)
    ensures Placed(FindingPatches(fs, redactionMap), 0, n)
  {
  }

  /** In-place redaction of disjoint findings, given in any order, is the left-to-right construction with one
      marker per finding. */
  lemma {:induction false} InPlaceExact(text: string, findings: seq<Finding>, redactionMap: map<string, string>)
    requires Disjoint(findings) && InDocument(findings, |text|)
    ensures var ps := FindingPatches(Sort(findings, BY_SPAN), redactionMap);
            && Placed(ps, 0, |text|)
            && SpliceEach(text, SortDescending(findings), redactionMap) == Build(text, ps, 0)
  {
    hide Sort, SortDescending, Build, SpliceBack, SpliceEach;
    var sorted := Sort(findings, BY_SPAN);
    DisjointOrder(findings);
    SameRange(findings, sorted, |text|);
    ApartPlaced(sorted, |text|, redactionMap);
    EachOfReversed(text, sorted, redactionMap);
    SpliceBackBuilds(text, FindingPatches(sorted, redactionMap), 0);
    assert text[..0] + Build(text, FindingPatches(sorted, redactionMap), 0) == Build(text, FindingPatches(sorted, redactionMap), 0);
  }

  /** One patch for each finding: nothing where its type is `remove`, else the marker. */
  ghost predicate Marks(ps: seq<Patch<char>>, fs: seq<Finding>, redactionMap: map<string, string>) {
    && |ps| == |fs|
    && forall i :: 0 <= i < |fs| ==>
         ps[i] == Patch(fs[i].spanStart, fs[i].spanEnd,
                        if fs[i].id in redactionMap && redactionMap[fs[i].id] == "remove" then "" else "[REDACTED]")
  }

  lemma {:induction false} MarkedAsAsked(text: string, findings: seq<Finding>, redactionMap: map<string, string>)
    requires Disjoint(findings) && InDocument(findings, |text|)
    ensures forall ps :: Marks(ps, Sort(findings, BY_SPAN), redactionMap) ==>
              Placed(ps, 0, |text|) && SpliceEach(text, SortDescending(findings), redactionMap) == Build(text, ps, 0)
  {
    hide Sort, SortDescending, Build, SpliceEach, Placed;
    InPlaceExact(text, findings, redactionMap);
    var fs := Sort(findings, BY_SPAN);
    forall ps | Marks(ps, fs, redactionMap) ensures ps == FindingPatches(fs, redactionMap) {}
  }

  /** The worker's redaction map never asks for removal. */
  ghost predicate FromSeverities(findings: seq<Finding>, redactionMap: map<string, string>) {
    forall i :: 0 <= i < |findings| ==>
      findings[i].id in redactionMap ==> redactionMap[findings[i].id] == SeverityToRedactionType(findings[i].severity)
  }

  lemma SortTwo(f: Finding, g: Finding, key: Key)
    ensures Sort([f, g], key) == if AtMost(key(f), key(g)) then [f, g] else [g, f]
  {
    assert [f, g][1..] == [g] && [g][1..] == [];
    assert Sort([g], key) == [g];
    assert Insert(f, [], key) == [f];
    assert Insert(f, [g], key) == if AtMost(key(f), key(g)) then [f] + [g] else [g] + [f];
  }
}
