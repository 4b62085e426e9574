/** Replacing stretches of a document from right to left, as in-place algorithms do, against the simple
    left-to-right construction of the result. */
module Splicing {
  import opened Sequences

  /** Replace the elements `lo..hi` by `text`. */
  datatype Patch<T> = Patch(lo: nat, hi: nat, text: seq<T>)

  /** `d[lo:hi] = text`, with Python's clamping of slice bounds: a slice that ends before it starts is empty. */
  function Splice<T>(d: seq<T>, p: Patch<T>): seq<T> {
    var lo := Min(p.lo, |d|);
    var hi := Min(if p.hi < p.lo then p.lo else p.hi, |d|);
    d[..lo] + p.text + d[hi..]
  }

  /** `d[:lo] + text + d[hi:]`, which repeats `d[hi:lo]` where the patch ends before it starts. */
  function Paste<T>(d: seq<T>, p: Patch<T>): seq<T> {
    d[..Min(p.lo, |d|)] + p.text + d[Min(p.hi, |d|)..]
  }

  function PasteBack<T>(d: seq<T>, ps: seq<Patch<T>>): seq<T> {
    if ps == [] then d else Paste(PasteBack(d, ps[1..]), ps[0])
  }

  /** The two agree on patches that do not end before they start, and on no others. */
  lemma PasteExact<T>(d: seq<T>, p: Patch<T>)
    ensures Paste(d, p) == Splice(d, p) <==> Min(p.lo, |d|) <= Min(p.hi, |d|)
  {
    if Min(p.lo, |d|) > Min(p.hi, |d|) {
      assert |Paste(d, p)| > |Splice(d, p)|;
    }
  }

  lemma {:induction false} PasteBackSplices<T>(d: seq<T>, ps: seq<Patch<T>>)
    requires forall i :: 0 <= i < |ps| ==> ps[i].lo <= ps[i].hi
    ensures PasteBack(d, ps) == SpliceBack(d, ps)
  {
    if ps != [] {
      hide Paste, Splice;
      PasteBackSplices(d, ps[1..]);
      PasteExact(SpliceBack(d, ps[1..]), ps[0]);
    }
  }

  /** The patches applied last to first. */
  function SpliceBack<T>(d: seq<T>, ps: seq<Patch<T>>): seq<T> {
    if ps == [] then d else Splice(SpliceBack(d, ps[1..]), ps[0])
  }

  /** The patches lie in order, without overlap, between `from` and `n`. */
  ghost predicate Placed<T>(ps: seq<Patch<T>>, from: nat, n: nat) {
    && from <= n
    && (forall i :: 0 <= i < |ps| ==> from <= ps[i].lo <= ps[i].hi <= n)
    && (forall i, j :: 0 <= i < j < |ps| ==> ps[i].hi <= ps[j].lo)
  }

  /** The specification: copy up to a patch, write its text, go on after it. */
  ghost function Build<T>(d: seq<T>, ps: seq<Patch<T>>, from: nat): seq<T>
    requires Placed(ps, from, |d|)
  {
    if ps == [] then d[from..]
    else d[from..ps[0].lo] + ps[0].text + Build(d, ps[1..], ps[0].hi)
  }

  lemma SpliceAfter<T>(d: seq<T>, tail: seq<T>, p: Patch<T>)
    requires p.lo <= p.hi <= |d|
    ensures Splice(d[..p.hi] + tail, p) == d[..p.lo] + p.text + tail
  {
    var back := d[..p.hi] + tail;
    assert back[..p.lo] == d[..p.lo] && back[p.hi..] == tail;
  }

  lemma CopiedInTwo<T>(d: seq<T>, from: nat, lo: nat, text: seq<T>, tail: seq<T>)
    requires from <= lo <= |d|
    ensures d[..lo] + text + tail == d[..from] + (d[from..lo] + text + tail)
  {
    assert d[..lo] == d[..from] + d[from..lo];
  }

  /** Splicing from right to left builds the document that the specification builds from left to right. */
  lemma {:induction false} SpliceBackBuilds<T>(d: seq<T>, ps: seq<Patch<T>>, from: nat)
    requires Placed(ps, from, |d|)
    ensures SpliceBack(d, ps) == d[..from] + Build(d, ps, from)
    decreases |ps|
  {
    if ps == [] {
      assert d == d[..from] + d[from..];
    } else {
      hide Splice;
      var p := ps[0];
      SpliceBackBuilds(d, ps[1..], p.hi);
      SpliceAfter(d, Build(d, ps[1..], p.hi), p);
      CopiedInTwo(d, from, p.lo, p.text, Build(d, ps[1..], p.hi));
    }
  }

  lemma {:induction false} PasteBackBuilds<T>(d: seq<T>, ps: seq<Patch<T>>, from: nat)
    requires Placed(ps, from, |d|)
    ensures PasteBack(d, ps) == d[..from] + Build(d, ps, from)
  {
    PasteBackSplices(d, ps);
    SpliceBackBuilds(d, ps, from);
  }

  /** The number of elements removed and the number put in their place. */
  function Removed<T>(ps: seq<Patch<T>>): int {
    if ps == [] then 0 else ps[0].hi - ps[0].lo + Removed(ps[1..])
  }

  function Added<T>(ps: seq<Patch<T>>): nat {
    if ps == [] then 0 else |ps[0].text| + Added(ps[1..])
  }

  lemma {:induction false} BuildLength<T>(d: seq<T>, ps: seq<Patch<T>>, from: nat)
    requires Placed(ps, from, |d|)
    ensures |Build(d, ps, from)| == |d| - from - Removed(ps) + Added(ps)
    decreases |ps|
  {
    if ps != [] {
      BuildLength(d, ps[1..], ps[0].hi);
    }
  }

  /* ----- Where each element of the result comes from ----- */

  ghost predicate Patched<T>(ps: seq<Patch<T>>, p: int) {
    exists i :: 0 <= i < |ps| && ps[i].lo <= p < ps[i].hi
  }

  /** For each element of the result the position it was copied from, or -1 if a patch wrote it. */
  ghost function Origins<T>(n: nat, ps: seq<Patch<T>>, from: nat): seq<int>
    requires Placed(ps, from, n)
  {
    if ps == [] then Range(from, n)
    else Range(from, ps[0].lo) + seq(|ps[0].text|, i => -1) + Origins(n, ps[1..], ps[0].hi)
  }

  function Range(a: nat, b: nat): seq<int>
    requires a <= b
  {
    seq(b - a, i => a + i)
  }

  /** The entries that are positions. */
  function Positions(s: seq<int>): seq<int> {
    if s == [] then [] else (if s[0] >= 0 then [s[0]] else []) + Positions(s[1..])
  }

  /** The positions from `from` to `n` outside every patch, in ascending order. */
  ghost function Outside<T>(ps: seq<Patch<T>>, from: nat, n: nat): seq<int>
    requires from <= n
    decreases n - from
  {
    if from == n then [] else (if Patched(ps, from) then [] else [from as int]) + Outside(ps, from + 1, n)
  }

  /** Every element of the result that no patch wrote is the element of the document at its origin. */
  lemma {:induction false} OriginsAreFaithful<T>(d: seq<T>, ps: seq<Patch<T>>, from: nat)
    requires Placed(ps, from, |d|)
    ensures |Origins(|d|, ps, from)| == |Build(d, ps, from)|
    ensures forall k :: 0 <= k < |Origins(|d|, ps, from)| && Origins(|d|, ps, from)[k] != -1 ==>
              0 <= Origins(|d|, ps, from)[k] < |d| && Build(d, ps, from)[k] == d[Origins(|d|, ps, from)[k]]
    decreases |ps|
  {
    if ps != [] {
      OriginsAreFaithful(d, ps[1..], ps[0].hi);
    }
  }

  lemma {:induction false} PositionsConcat(s: seq<int>, t: seq<int>)
    ensures Positions(s + t) == Positions(s) + Positions(t)
  {
    if s == [] {
      assert s + t == t;
    } else {
      var h := if s[0] >= 0 then [s[0]] else [];
      assert (s + t)[0] == s[0] && (s + t)[1..] == s[1..] + t;
      PositionsConcat(s[1..], t);
      assert h + (Positions(s[1..]) + Positions(t)) == h + Positions(s[1..]) + Positions(t);
    }
  }

  lemma {:induction false} PositionsOfRange(a: nat, b: nat)
    requires a <= b
    ensures Positions(Range(a, b)) == Range(a, b)
    decreases b - a
  {
    if a < b {
      assert Range(a, b)[1..] == Range(a + 1, b);
      PositionsOfRange(a + 1, b);
    }
  }

  lemma {:induction false} PositionsOfMarks(n: nat)
    ensures Positions(seq(n, i => -1)) == []
  {
    if n > 0 {
      assert seq(n, i => -1)[1..] == seq(n - 1, i => -1);
      PositionsOfMarks(n - 1);
    }
  }

  lemma {:induction false} OutsideFree<T>(ps: seq<Patch<T>>, a: nat, b: nat, n: nat)
    requires a <= b <= n
    requires forall p :: a <= p < b ==> !Patched(ps, p)
    ensures Outside(ps, a, n) == Range(a, b) + Outside(ps, b, n)
    decreases b - a
  {
    if a < b {
      OutsideFree(ps, a + 1, b, n);
      assert Range(a, b) == [a as int] + Range(a + 1, b);
    }
  }

  lemma {:induction false} OutsidePatched<T>(ps: seq<Patch<T>>, a: nat, b: nat, n: nat)
    requires a <= b <= n
    requires forall p :: a <= p < b ==> Patched(ps, p)
    ensures Outside(ps, a, n) == Outside(ps, b, n)
    decreases b - a
  {
    if a < b {
      OutsidePatched(ps, a + 1, b, n);
    }
  }

  lemma {:induction false} OutsideSame<T, U>(ps: seq<Patch<T>>, qs: seq<Patch<U>>, a: nat, n: nat)
    requires a <= n && forall p :: a <= p < n ==> (Patched(ps, p) <==> Patched(qs, p))
    ensures Outside(ps, a, n) == Outside(qs, a, n)
    decreases n - a
  {
    if a < n {
      OutsideSame(ps, qs, a + 1, n);
    }
  }

  lemma PatchedLater<T>(ps: seq<Patch<T>>, n: nat)
    requires ps != []
    ensures forall q :: ps[0].hi <= q < n ==> (Patched(ps, q) <==> Patched(ps[1..], q))
  {
    var rest := ps[1..];
    forall q | ps[0].hi <= q < n ensures Patched(ps, q) <==> Patched(rest, q) {
      if i :| 0 <= i < |ps| && ps[i].lo <= q < ps[i].hi {
        assert rest[i - 1] == ps[i];
      }
      if i :| 0 <= i < |rest| && rest[i].lo <= q < rest[i].hi {
        assert ps[i + 1] == rest[i];
      }
    }
  }

  lemma {:induction false} OutsideUnfolds<T>(ps: seq<Patch<T>>, from: nat, n: nat)
    requires Placed(ps, from, n) && ps != []
    ensures Outside(ps, from, n) == Range(from, ps[0].lo) + Outside(ps[1..], ps[0].hi, n)
  {
    hide Outside, Range;
    OutsideFree(ps, from, ps[0].lo, n);
    OutsidePatched(ps, ps[0].lo, ps[0].hi, n);
    PatchedLater(ps, n);
    OutsideSame(ps, ps[1..], ps[0].hi, n);
  }

  lemma {:induction false} OriginsUnfold<T>(n: nat, ps: seq<Patch<T>>, from: nat)
    requires Placed(ps, from, n) && ps != []
    ensures Positions(Origins(n, ps, from)) == Range(from, ps[0].lo) + Positions(Origins(n, ps[1..], ps[0].hi))
  {
    var p, rest := ps[0], Origins(n, ps[1..], ps[0].hi);
    var marks := seq(|p.text|, i => -1);
    assert Origins(n, ps, from) == Range(from, p.lo) + marks + rest;
    hide Positions, Range, Origins;
    PositionsConcat(Range(from, p.lo) + marks, rest);
    PositionsConcat(Range(from, p.lo), marks);
    PositionsOfRange(from, p.lo);
    PositionsOfMarks(|p.text|);
  }

  /** Exactly the elements outside every patch survive, each once and in their order. */
  lemma {:induction false} SurvivorsExact<T>(n: nat, ps: seq<Patch<T>>, from: nat)
    requires Placed(ps, from, n)
    ensures Positions(Origins(n, ps, from)) == Outside(ps, from, n)
    decreases |ps|
  {
    if ps == [] {
      PositionsOfRange(from, n);
      OutsideFree(ps, from, n, n);
    } else {
      hide Positions, Range, Origins, Outside;
      SurvivorsExact(n, ps[1..], ps[0].hi);
      OutsideUnfolds(ps, from, n);
      OriginsUnfold(n, ps, from);
    }
  }
}
