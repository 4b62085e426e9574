/** The sweep line of the document viewer (`buildSegments` in `components/DocumentViewer.tsx`), against pointwise
    highlighting. */
module Highlight {
  import opened Wrappers
  import opened Sequences
  import opened Findings

  datatype Segment = Segment(text: string, finding: Option<Finding>)

  function Order(s: Severity): nat {
    match s
    case Low => 0
    case Medium => 1
    case High => 2
    case Critical => 3
  }

  /* ----- The specification: what is shown at each character ----- */

  /** No covering finding and none shown, or a covering finding of the highest severity among those covering. */
  ghost predicate Shows(fs: seq<Finding>, p: int, shown: Option<Finding>) {
    match shown
    case None => !Covered(fs, p)
    case Some(f) =>
      && f in fs && Covers(f, p)
      && forall g :: g in fs && Covers(g, p) ==> Order(g.severity) <= Order(f.severity)
  }

  /** Some span starts or ends behind `p`. */
  ghost predicate StopsAfter(fs: seq<Finding>, p: int) {
    exists f :: f in fs && (p < f.spanStart || p < f.spanEnd)
  }

  /** A span without characters: its end comes before its start, so that nothing ever ends it. */
  ghost predicate Lingers(fs: seq<Finding>, f: Finding, p: int) {
    f.spanEnd <= f.spanStart <= p && StopsAfter(fs, p)
  }

  ghost predicate ActiveAt(fs: seq<Finding>, f: Finding, p: int) {
    Covers(f, p) || Lingers(fs, f, p)
  }

  /** Of two active findings the more severe one is shown, and of two equally severe ones that with the earlier start. */
  predicate Before(f: Finding, g: Finding) {
    Order(f.severity) > Order(g.severity) || (f.severity == g.severity && f.spanStart < g.spanStart)
  }

  /** What the sweep shows: an active finding that no active one comes before. Findings of one severity and one start are
      left to the engine's sort. */
  ghost predicate Drawn(fs: seq<Finding>, p: int, shown: Option<Finding>) {
    match shown
    case None => forall g :: g in fs ==> !ActiveAt(fs, g, p)
    case Some(f) =>
      && f in fs && ActiveAt(fs, f, p)
      && forall g :: g in fs && ActiveAt(fs, g, p) ==> !Before(g, f)
  }

  /** Every finding that lingers at `p` comes after one that covers `p`. */
  ghost predicate Outranked(fs: seq<Finding>, p: int) {
    forall e :: e in fs && Lingers(fs, e, p) ==> exists f :: f in fs && Covers(f, p) && Before(f, e)
  }

  lemma FirstLingering(fs: seq<Finding>, p: int, e: Finding) returns (best: Finding)
    requires e in fs && Lingers(fs, e, p)
    ensures best in fs && Lingers(fs, best, p) && (best == e || Before(best, e))
    ensures forall g :: g in fs && Lingers(fs, g, p) ==> !Before(g, best)
    decreases 3 - Order(e.severity), e.spanStart
  {
    if g :| g in fs && Lingers(fs, g, p) && Before(g, e) {
      best := FirstLingering(fs, p, g);
    } else {
      best := e;
    }
  }

  lemma CoveredByMember(fs: seq<Finding>, p: int)
    ensures Covered(fs, p) <==> exists f :: f in fs && Covers(f, p)
  {
    if f :| f in fs && Covers(f, p) {
      var i :| 0 <= i < |fs| && fs[i] == f;
    }
    if Covered(fs, p) {
      var i :| 0 <= i < |fs| && Covers(fs[i], p);
      assert fs[i] in fs;
    }
  }

  /** At a character the sweep meets the specification, whatever the engine does with equal starts, if and only if every
      span without characters that lingers there comes after a covering one: a more severe one, or an equally severe one
      with an earlier start. Where all spans have characters it always does. */
  lemma LingeringExact(fs: seq<Finding>, p: int)
    ensures (forall shown :: Drawn(fs, p, shown) ==> Shows(fs, p, shown)) <==> Outranked(fs, p)
    ensures (forall f :: f in fs ==> f.spanStart < f.spanEnd) ==> Outranked(fs, p)
  {
    hide StopsAfter;
    CoveredByMember(fs, p);
    if Outranked(fs, p) {
      forall f | f in fs && Covers(f, p) ensures ActiveAt(fs, f, p) {}
    } else {
      var e :| e in fs && Lingers(fs, e, p) && forall f :: f in fs && Covers(f, p) ==> !Before(f, e);
      var best := FirstLingering(fs, p, e);
      assert Drawn(fs, p, Some(best)) && !Shows(fs, p, Some(best));
    }
  }

  /* ----- Segments ----- */

  function Texts(segments: seq<Segment>): string {
    if segments == [] then "" else Texts(segments[..|segments| - 1]) + segments[|segments| - 1].text
  }

  /** The finding of the segment that holds the character at `p`. */
  function FindingAt(segments: seq<Segment>, p: int): Option<Finding> {
    if segments == [] then None
    else
      var n := |segments| - 1;
      if p < |Texts(segments[..n])| then FindingAt(segments[..n], p) else segments[n].finding
  }

  /** The segments hold the first `end` characters, each under what the sweep shows there. */
  ghost predicate Faithful(segments: seq<Segment>, text: string, fs: seq<Finding>, end: nat) {
    && end <= |text| && Texts(segments) == text[..end]
    && forall p :: 0 <= p < end ==> Drawn(fs, p, FindingAt(segments, p))
  }

  lemma {:induction false} Extend(segments: seq<Segment>, s: Segment, text: string, fs: seq<Finding>, a: nat, b: nat)
    requires a <= b <= |text| && Faithful(segments, text, fs, a)
    requires s.text == text[a..b] && forall p :: a <= p < b ==> Drawn(fs, p, s.finding)
    ensures Faithful(segments + [s], text, fs, b)
  {
    hide Drawn;
    var all := segments + [s];
    assert all[..|all| - 1] == segments;
    assert text[..b] == text[..a] + text[a..b];
    forall p | 0 <= p < b ensures Drawn(fs, p, FindingAt(all, p)) {
      assert FindingAt(all, p) == if p < a then FindingAt(segments, p) else s.finding;
    }
  }

  /* ----- The positions at which the sweep stops ----- */

  /** Adds a position to a strictly ascending list. */
  function AddPosition(p: nat, ps: seq<nat>): seq<nat> {
    if ps == [] || p < ps[0] then [p] + ps
    else if p == ps[0] then ps
    else [ps[0]] + AddPosition(p, ps[1..])
  }

  /** All starts and ends, without repetition, in ascending order. */
  function EventPositions(fs: seq<Finding>): seq<nat> {
    if fs == [] then []
    else AddPosition(fs[0].spanStart, AddPosition(fs[0].spanEnd, EventPositions(fs[1..])))
  }

  lemma {:induction false} AddPositionAdds(p: nat, ps: seq<nat>)
    ensures forall q :: q in AddPosition(p, ps) <==> q == p || q in ps
  {
    if ps != [] && ps[0] < p {
      AddPositionAdds(p, ps[1..]);
      assert ps == [ps[0]] + ps[1..];
    }
  }

  lemma IncreasingCons(x: nat, ps: seq<nat>)
    requires Increasing(ps) && forall q :: q in ps ==> x < q
    ensures Increasing([x] + ps)
  {
    forall j | 0 <= j < |ps| ensures x < ps[j] { assert ps[j] in ps; }
  }

  lemma IncreasingTail(ps: seq<nat>)
    requires Increasing(ps) && ps != []
    ensures Increasing(ps[1..]) && forall q :: q in ps[1..] ==> ps[0] < q
  {
  }

  lemma {:induction false} AddPositionKeeps(p: nat, ps: seq<nat>)
    requires Increasing(ps)
    ensures Increasing(AddPosition(p, ps))
  {
    hide Increasing;
    if ps == [] {
      NoPositions();
      IncreasingCons(p, ps);
    } else {
      IncreasingTail(ps);
      if p < ps[0] {
        assert ps == [ps[0]] + ps[1..];
        IncreasingCons(p, ps);
      } else if ps[0] < p {
        AddPositionKeeps(p, ps[1..]);
        AddPositionAdds(p, ps[1..]);
        IncreasingCons(ps[0], AddPosition(p, ps[1..]));
      }
    }
  }

  lemma NoPositions()
    ensures Increasing([])
  {
  }

  ghost predicate IsStop(fs: seq<Finding>, q: nat) {
    exists i :: 0 <= i < |fs| && (fs[i].spanStart == q || fs[i].spanEnd == q)
  }

  lemma {:induction false} EventPositionsExact(fs: seq<Finding>)
    ensures Increasing(EventPositions(fs))
    ensures forall q :: q in EventPositions(fs) <==> IsStop(fs, q)
    ensures forall i :: 0 <= i < |fs| ==> fs[i].spanStart in EventPositions(fs) && fs[i].spanEnd in EventPositions(fs)
  {
    if fs == [] {
      NoPositions();
    } else {
      hide Increasing, AddPosition;
      var rest := EventPositions(fs[1..]);
      EventPositionsExact(fs[1..]);
      AddPositionKeeps(fs[0].spanEnd, rest);
      AddPositionKeeps(fs[0].spanStart, AddPosition(fs[0].spanEnd, rest));
      AddPositionAdds(fs[0].spanEnd, rest);
      AddPositionAdds(fs[0].spanStart, AddPosition(fs[0].spanEnd, rest));
      forall q ensures IsStop(fs, q) <==> q == fs[0].spanStart || q == fs[0].spanEnd || IsStop(fs[1..], q) {
        StopsOfTail(fs, q);
      }
    }
    forall i | 0 <= i < |fs| ensures IsStop(fs, fs[i].spanStart) && IsStop(fs, fs[i].spanEnd) {}
  }

  lemma StopsOfTail(fs: seq<Finding>, q: nat)
    requires fs != []
    ensures IsStop(fs, q) <==> q == fs[0].spanStart || q == fs[0].spanEnd || IsStop(fs[1..], q)
  {
    if IsStop(fs[1..], q) {
      var i :| 0 <= i < |fs| - 1 && (fs[1..][i].spanStart == q || fs[1..][i].spanEnd == q);
      assert fs[i + 1] == fs[1..][i];
    }
    if IsStop(fs, q) && q != fs[0].spanStart && q != fs[0].spanEnd {
      var i :| 0 <= i < |fs| && (fs[i].spanStart == q || fs[i].spanEnd == q);
      assert fs[1..][i - 1] == fs[i];
    }
  }

  /* ----- The sweep ----- */

  ghost predicate NoRepeats(s: seq<nat>) {
    forall k, l :: 0 <= k < l < |s| ==> s[k] != s[l]
  }

  ghost predicate ByStart(fs: seq<Finding>, active: seq<nat>) {
    && (forall k :: 0 <= k < |active| ==> active[k] < |fs|)
    && (forall k, l :: 0 <= k < l < |active| ==> fs[active[k]].spanStart <= fs[active[l]].spanStart)
  }

  /** `active` lists, once each and in the order of their starts, the indices of exactly the findings that start before
      `q` and end at or after it, or were over before they started. */
  ghost predicate ActiveBefore(fs: seq<Finding>, active: seq<nat>, q: int) {
    && NoRepeats(active) && ByStart(fs, active)
    && (forall i :: i in active <==> 0 <= i < |fs| && fs[i].spanStart < q && (q <= fs[i].spanEnd || fs[i].spanEnd <= fs[i].spanStart))
  }

  /** The same just after position `q`: started at or before it, not yet ended. */
  ghost predicate ActiveAfter(fs: seq<Finding>, active: seq<nat>, q: int) {
    && NoRepeats(active) && ByStart(fs, active)
    && (forall i :: i in active <==> 0 <= i < |fs| && fs[i].spanStart <= q && (q < fs[i].spanEnd || fs[i].spanEnd <= fs[i].spanStart))
  }

  /** `best` stands at `k`; what stands before it is less severe, and nothing is more severe. */
  predicate FirstHighest(fs: seq<Finding>, active: seq<nat>, best: Finding, k: nat)
    requires forall j :: 0 <= j < |active| ==> active[j] < |fs|
  {
    && k < |active| && fs[active[k]] == best
    && (forall j :: 0 <= j < k ==> Order(fs[active[j]].severity) < Order(best.severity))
    && (forall j :: 0 <= j < |active| ==> Order(fs[active[j]].severity) <= Order(best.severity))
  }

  /** The first of the active findings that has the highest severity. */
  method Dominant(fs: seq<Finding>, active: seq<nat>) returns (best: Option<Finding>)
    requires forall k :: 0 <= k < |active| ==> active[k] < |fs|
    ensures best.None? <==> active == []
    ensures best.Some? ==> exists k :: FirstHighest(fs, active, best.value, k)
    ensures forall k :: 0 <= k < |active| ==>
              && best.Some?
              && (fs[active[k]].severity.Critical? ==> best.value.severity.Critical?)
              && (fs[active[k]].severity.High? ==> best.value.severity.Critical? || best.value.severity.High?)
              && (fs[active[k]].severity.Medium? ==> !best.value.severity.Low?)
  {
    best := None;
    ghost var at := 0;
    for k := 0 to |active|
      invariant best.None? <==> k == 0
      invariant best.Some? ==> FirstHighest(fs, active[..k], best.value, at)
    {
      if best.None? || Order(fs[active[k]].severity) > Order(best.value.severity) {
        best := Some(fs[active[k]]);
        at := k;
      }
    }
    assert active[..|active|] == active;
  }

  /** Between two stops the active findings are those that cover each character there or linger at it. */
  lemma ActiveBetween(fs: seq<Finding>, active: seq<nat>, from: nat, q: nat, p: int, i: nat)
    requires ActiveBefore(fs, active, q) && IsStop(fs, q) && from <= p < q && i < |fs|
    requires !(from < fs[i].spanStart < q) && !(from < fs[i].spanEnd < q)
    ensures ActiveAt(fs, fs[i], p) <==> i in active
  {
    var k :| 0 <= k < |fs| && (fs[k].spanStart == q || fs[k].spanEnd == q);
    assert fs[k] in fs;
    assert StopsAfter(fs, p);
  }

  /** Between two stops of the sweep, the dominant active finding is shown at every character. */
  lemma DominantShows(fs: seq<Finding>, active: seq<nat>, best: Option<Finding>, from: nat, q: nat)
    requires ActiveBefore(fs, active, q) && IsStop(fs, q)
    requires forall i :: 0 <= i < |fs| ==> !(from < fs[i].spanStart < q) && !(from < fs[i].spanEnd < q)
    requires best.None? <==> active == []
    requires best.Some? ==> exists k :: FirstHighest(fs, active, best.value, k)
    ensures forall p :: from <= p < q ==> Drawn(fs, p, best)
  {
    if best.Some? {
      var k :| FirstHighest(fs, active, best.value, k);
      FirstIsBefore(fs, active, best.value, k);
    }
    forall p | from <= p < q ensures Drawn(fs, p, best) {
      forall i | 0 <= i < |fs| ensures ActiveAt(fs, fs[i], p) <==> i in active {
        ActiveBetween(fs, active, from, q, p, i);
      }
      hide ActiveAt, IsStop, FirstHighest, Before;
      forall g | g in fs && ActiveAt(fs, g, p) ensures best.Some? && !Before(g, best.value) {
        var i :| 0 <= i < |fs| && fs[i] == g;
        assert i in active;
      }
    }
  }

  lemma FirstIsBefore(fs: seq<Finding>, active: seq<nat>, best: Finding, k: nat)
    requires ByStart(fs, active) && FirstHighest(fs, active, best, k)
    ensures active[k] in active && best == fs[active[k]]
    ensures forall i :: i in active ==> i < |fs| && !Before(fs[i], best)
  {
    forall i | i in active ensures i < |fs| && !Before(fs[i], best) {
      var j :| 0 <= j < |active| && active[j] == i;
    }
  }

  /** Removes the first occurrence of `i`, as `indexOf` and `splice` do. */
  function RemoveIndex(active: seq<nat>, i: nat): seq<nat> {
    if active == [] then []
    else if active[0] == i then active[1..]
    else [active[0]] + RemoveIndex(active[1..], i)
  }

  lemma NoRepeatsFirst(s: seq<nat>)
    requires NoRepeats(s) && s != []
    ensures NoRepeats(s[1..]) && s[0] !in s[1..]
  {
  }

  lemma NoRepeatsCons(x: nat, s: seq<nat>)
    requires NoRepeats(s) && x !in s
    ensures NoRepeats([x] + s)
  {
  }

  lemma {:induction false} RemoveIndexExact(active: seq<nat>, i: nat)
    requires NoRepeats(active)
    ensures NoRepeats(RemoveIndex(active, i))
    ensures forall j :: j in RemoveIndex(active, i) <==> j in active && j != i
  {
    if active != [] {
      hide NoRepeats;
      NoRepeatsFirst(active);
      assert active == [active[0]] + active[1..];
      if active[0] != i {
        RemoveIndexExact(active[1..], i);
        NoRepeatsCons(active[0], RemoveIndex(active[1..], i));
      }
    }
  }

  lemma ByStartTail(fs: seq<Finding>, s: seq<nat>)
    requires ByStart(fs, s) && s != []
    ensures s[0] < |fs| && ByStart(fs, s[1..])
    ensures forall i :: i in s[1..] ==> i < |fs| && fs[s[0]].spanStart <= fs[i].spanStart
  {
  }

  lemma ByStartCons(fs: seq<Finding>, x: nat, s: seq<nat>)
    requires ByStart(fs, s) && x < |fs|
    requires forall i :: i in s ==> i < |fs| && fs[x].spanStart <= fs[i].spanStart
    ensures ByStart(fs, [x] + s)
  {
    forall k | 0 <= k < |s| ensures fs[x].spanStart <= fs[s[k]].spanStart { assert s[k] in s; }
  }

  lemma ByStartAppend(fs: seq<Finding>, s: seq<nat>, x: nat)
    requires ByStart(fs, s) && x < |fs|
    requires forall i :: i in s ==> i < |fs| && fs[i].spanStart <= fs[x].spanStart
    ensures ByStart(fs, s + [x])
  {
    forall k | 0 <= k < |s| ensures fs[s[k]].spanStart <= fs[x].spanStart { assert s[k] in s; }
  }

  lemma {:induction false} RemoveIndexKeepsOrder(fs: seq<Finding>, active: seq<nat>, i: nat)
    requires NoRepeats(active) && ByStart(fs, active)
    ensures ByStart(fs, RemoveIndex(active, i))
  {
    if active != [] {
      hide NoRepeats, ByStart;
      NoRepeatsFirst(active);
      ByStartTail(fs, active);
      if active[0] != i {
        RemoveIndexExact(active[1..], i);
        RemoveIndexKeepsOrder(fs, active[1..], i);
        ByStartCons(fs, active[0], RemoveIndex(active[1..], i));
      }
    }
  }

  /** The end events at `q` leave the active list, then the start events enter it behind the others. */
  method Pass(fs: seq<Finding>, before: seq<nat>, q: nat) returns (active: seq<nat>)
    requires ActiveBefore(fs, before, q)
    ensures ActiveAfter(fs, active, q)
  {
    hide ByStart;
    active := before;
    for i := 0 to |fs|
      invariant NoRepeats(active) && ByStart(fs, active)
      invariant forall j :: j in active <==>
                  && 0 <= j < |fs| && fs[j].spanStart < q
                  && (q <= fs[j].spanEnd || fs[j].spanEnd <= fs[j].spanStart)
                  && (j < i ==> fs[j].spanEnd != q)
    {
      if fs[i].spanEnd == q {
        RemoveIndexExact(active, i);
        RemoveIndexKeepsOrder(fs, active, i);
        active := RemoveIndex(active, i);
      }
    }
    for i := 0 to |fs|
      invariant NoRepeats(active) && ByStart(fs, active)
      invariant forall j :: j in active <==>
                  && 0 <= j < |fs| && (q < fs[j].spanEnd || fs[j].spanEnd <= fs[j].spanStart)
                  && (fs[j].spanStart < q || (fs[j].spanStart == q && j < i))
    {
      if fs[i].spanStart == q {
        ByStartAppend(fs, active, i);
        active := active + [i];
      }
    }
  }

  /** No event lies strictly between two neighbouring stops, nor before the first one. */
  lemma {:induction false} NoEventBetween(fs: seq<Finding>, k: nat)
    requires k < |EventPositions(fs)|
    ensures var ps := EventPositions(fs);
            var from := if k == 0 then -1 else ps[k - 1] as int;
            forall i :: 0 <= i < |fs| ==> !(from < fs[i].spanStart < ps[k]) && !(from < fs[i].spanEnd < ps[k])
  {
    hide EventPositions, Increasing, IsStop;
    var ps := EventPositions(fs);
    EventPositionsExact(fs);
    forall i | 0 <= i < |fs|
      ensures var from := if k == 0 then -1 else ps[k - 1] as int;
              !(from < fs[i].spanStart < ps[k]) && !(from < fs[i].spanEnd < ps[k])
    {
      NothingBetween(ps, k, fs[i].spanStart);
      NothingBetween(ps, k, fs[i].spanEnd);
    }
  }

  lemma NothingBetween(ps: seq<nat>, k: nat, q: nat)
    requires Increasing(ps) && q in ps && k < |ps|
    ensures !((if k == 0 then -1 else ps[k - 1] as int) < q < ps[k])
  {
    var a :| 0 <= a < |ps| && ps[a] == q;
  }

  /** What is active after one stop is what is active before the next. */
  lemma {:induction false} ActiveCarries(fs: seq<Finding>, active: seq<nat>, k: nat)
    requires k < |EventPositions(fs)|
    requires if k == 0 then active == [] else ActiveAfter(fs, active, EventPositions(fs)[k - 1])
    ensures ActiveBefore(fs, active, EventPositions(fs)[k])
  {
    NoEventBetween(fs, k);
    EventPositionsExact(fs);
    hide EventPositions;
  }

  /** After the last stop nothing is active. */
  lemma {:induction false} NothingAfter(fs: seq<Finding>, p: int)
    requires EventPositions(fs) != [] && p >= EventPositions(fs)[|EventPositions(fs)| - 1]
    ensures Drawn(fs, p, None)
  {
    hide EventPositions, Increasing, IsStop;
    EventPositionsExact(fs);
    forall f | f in fs ensures f.spanStart <= p && f.spanEnd <= p {
      var i :| 0 <= i < |fs| && fs[i] == f;
      NoLaterStop(EventPositions(fs), f.spanStart);
      NoLaterStop(EventPositions(fs), f.spanEnd);
    }
  }

  lemma NoLaterStop(ps: seq<nat>, q: nat)
    requires Increasing(ps) && q in ps
    ensures q <= ps[|ps| - 1]
  {
  }

  lemma DrawnPermutes(fs: seq<Finding>, gs: seq<Finding>, p: int, shown: Option<Finding>)
    requires multiset(fs) == multiset(gs) && Drawn(fs, p, shown)
    ensures Drawn(gs, p, shown)
  {
    forall f ensures f in fs <==> f in gs {
      assert f in fs <==> f in multiset(fs);
    }
    forall f ensures ActiveAt(fs, f, p) <==> ActiveAt(gs, f, p) {}
  }

  function Cut(text: string, p: nat): nat {
    if p < |text| then p else |text|
  }

  lemma {:induction false} PlainText(text: string)
    ensures Faithful([Segment(text, None)], text, [], |text|)
  {
    var s := Segment(text, None);
    NoSegments(text, []);
    Extend([], s, text, [], 0, |text|);
    assert [] + [s] == [s] && text[0..|text|] == text;
  }

  lemma {:induction false} NoSegments(text: string, fs: seq<Finding>)
    ensures Faithful([], text, fs, 0)
  {
  }

  lemma {:induction false} SortedIsSame(fs: seq<Finding>)
    ensures multiset(Sort(fs, BY_START)) == multiset(fs) && |Sort(fs, BY_START)| == |fs|
  {
    SortIsSorted(fs, BY_START);
  }

  lemma {:induction false} AfterCursor(fs: seq<Finding>, k: nat)
    requires k < |EventPositions(fs)|
    ensures k > 0 ==> EventPositions(fs)[k - 1] < EventPositions(fs)[k]
  {
    EventPositionsExact(fs);
  }

  lemma ActiveInRange(fs: seq<Finding>, active: seq<nat>, q: int)
    requires ActiveBefore(fs, active, q)
    ensures forall k :: 0 <= k < |active| ==> active[k] < |fs|
  {
    forall k | 0 <= k < |active| ensures active[k] < |fs| { assert active[k] in active; }
  }

  lemma {:induction false} SomePosition(fs: seq<Finding>)
    requires fs != []
    ensures EventPositions(fs) != []
  {
    EventPositionsExact(fs);
    assert fs[0].spanStart in EventPositions(fs);
  }

  /** The text segments of the viewer, for any spans: overlapping, running past the end of the text, or without
      characters. They concatenate to the text, none is empty, and each shows at every character what the sweep is to
      show there; where no span without characters lingers, or each comes after a covering one, that is the specification. */
  method BuildSegments(text: string, findings: seq<Finding>) returns (segments: seq<Segment>)
    ensures Texts(segments) == text
    ensures forall p :: 0 <= p < |text| ==> Drawn(findings, p, FindingAt(segments, p))
    ensures forall p :: 0 <= p < |text| && Outranked(findings, p) ==> Shows(findings, p, FindingAt(segments, p))
    ensures forall p, g :: 0 <= p < |text| && Outranked(findings, p) && g in findings && Covers(g, p) ==>
              var shown := FindingAt(segments, p);
              && shown.Some? && Covers(shown.value, p)
              && (g.severity.Critical? ==> shown.value.severity.Critical?)
              && (g.severity.High? ==> shown.value.severity.Critical? || shown.value.severity.High?)
              && (g.severity.Medium? ==> !shown.value.severity.Low?)
    ensures findings != [] ==> forall k :: 0 <= k < |segments| ==> segments[k].text != ""
    ensures findings == [] ==> segments == [Segment(text, None)]
  {
    hide Texts, Faithful, Shows, Drawn, EventPositions, Sort, ActiveBefore, ActiveAfter, IsStop, Outranked, FindingAt;
    if findings == [] {
      segments := [Segment(text, None)];
      PlainText(text);
      WholeText(segments, text, findings);
      return;
    }
    var sorted := Sort(findings, BY_START);
    SortedIsSame(findings);
    var positions := EventPositions(sorted);
    SomePosition(sorted);
    EventPositionsExact(sorted);
    segments := [];
    NoSegments(text, findings);
    var cursor := 0;
    var active: seq<nat> := [];
    for k := 0 to |positions|
      invariant cursor == if k == 0 then 0 else positions[k - 1]
      invariant if k == 0 then active == [] else ActiveAfter(sorted, active, cursor)
      invariant Faithful(segments, text, findings, Cut(text, cursor))
      invariant forall j :: 0 <= j < |segments| ==> segments[j].text != ""
    {
      var pos := positions[k];
      ActiveCarries(sorted, active, k);
      AfterCursor(sorted, k);
      if pos > cursor && cursor < |text| {
        ActiveInRange(sorted, active, pos);
        var dominant := Dominant(sorted, active);
        NoEventBetween(sorted, k);
        DominantShows(sorted, active, dominant, cursor, pos);
        var piece := Segment(text[cursor..Cut(text, pos)], dominant);
        forall p | cursor <= p < Cut(text, pos) ensures Drawn(findings, p, dominant) {
          DrawnPermutes(sorted, findings, p, dominant);
        }
        Extend(segments, piece, text, findings, cursor, Cut(text, pos));
        segments := segments + [piece];
      }
      active := Pass(sorted, active, pos);
      cursor := pos;
    }
    if cursor < |text| {
      var piece := Segment(text[cursor..], None);
      forall p | cursor <= p < |text| ensures Drawn(findings, p, None) {
        NothingAfter(sorted, p);
        DrawnPermutes(sorted, findings, p, None);
      }
      Extend(segments, piece, text, findings, cursor, |text|);
      segments := segments + [piece];
    }
    WholeText(segments, text, findings);
  }

  lemma {:induction false} WholeText(segments: seq<Segment>, text: string, fs: seq<Finding>)
    requires Faithful(segments, text, fs, |text|)
    ensures Texts(segments) == text
    ensures forall p :: 0 <= p < |text| ==> Drawn(fs, p, FindingAt(segments, p))
    ensures forall p :: 0 <= p < |text| && Outranked(fs, p) ==> Shows(fs, p, FindingAt(segments, p))
    ensures forall p, g :: 0 <= p < |text| && Outranked(fs, p) && g in fs && Covers(g, p) ==>
              var shown := FindingAt(segments, p);
              && shown.Some? && Covers(shown.value, p)
              && (g.severity.Critical? ==> shown.value.severity.Critical?)
              && (g.severity.High? ==> shown.value.severity.Critical? || shown.value.severity.High?)
              && (g.severity.Medium? ==> !shown.value.severity.Low?)
  {
    hide Drawn, Shows, Outranked, FindingAt, Covers;
    assert text[..|text|] == text;
    forall p | 0 <= p < |text| && Outranked(fs, p)
      ensures Shows(fs, p, FindingAt(segments, p))
    {
      LingeringExact(fs, p);
    }
    forall p, g | 0 <= p < |text| && Outranked(fs, p) && g in fs && Covers(g, p)
      ensures var shown := FindingAt(segments, p);
              && shown.Some? && Covers(shown.value, p)
              && (g.severity.Critical? ==> shown.value.severity.Critical?)
              && (g.severity.High? ==> shown.value.severity.Critical? || shown.value.severity.High?)
              && (g.severity.Medium? ==> !shown.value.severity.Low?)
    {
      ShownIsWorst(fs, p, FindingAt(segments, p), g);
    }
  }

  /** What the specification asks for, in terms of the severities themselves. */
  lemma ShownIsWorst(fs: seq<Finding>, p: int, shown: Option<Finding>, g: Finding)
    requires Shows(fs, p, shown) && g in fs && Covers(g, p)
    ensures shown.Some? && Covers(shown.value, p)
    ensures g.severity.Critical? ==> shown.value.severity.Critical?
    ensures g.severity.High? ==> shown.value.severity.Critical? || shown.value.severity.High?
    ensures g.severity.Medium? ==> !shown.value.severity.Low?
  {
    CoveredByMember(fs, p);
  }
}
