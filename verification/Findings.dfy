/** Findings, their spans, and the stable sorts that the span algorithms start from. */
module Findings {
  import opened Sequences

  datatype Severity = Low | Medium | High | Critical

  datatype Finding = Finding(id: string, ruleId: string, spanStart: nat, spanEnd: nat, severity: Severity)

  predicate Covers(f: Finding, p: int) {
    f.spanStart <= p < f.spanEnd
  }

  predicate Covered(fs: seq<Finding>, p: int) {
    exists i :: 0 <= i < |fs| && Covers(fs[i], p)
  }

  predicate Overlap(f: Finding, g: Finding) {
    (if f.spanStart > g.spanStart then f.spanStart else g.spanStart)
      < (if f.spanEnd < g.spanEnd then f.spanEnd else g.spanEnd)
  }

  /** Two spans with characters overlap if and only if some position is covered by both. */
  lemma OverlapExact(f: Finding, g: Finding)
    requires f.spanStart < f.spanEnd && g.spanStart < g.spanEnd
    ensures Overlap(f, g) <==> exists p :: Covers(f, p) && Covers(g, p)
  {
    if Overlap(f, g) {
      var p := if f.spanStart > g.spanStart then f.spanStart else g.spanStart;
      assert Covers(f, p) && Covers(g, p);
    }
  }

  ghost predicate InDocument(fs: seq<Finding>, n: nat) {
    forall i :: 0 <= i < |fs| ==> fs[i].spanStart <= fs[i].spanEnd <= n
  }

  /* ----- Stable insertion sort, standing for the library's `sorted` ----- */

  type Key = Finding -> (int, int)

  const BY_START: Key := (f: Finding) => (f.spanStart as int, 0)
  const BY_SPAN: Key := (f: Finding) => (f.spanStart as int, f.spanEnd as int)

  predicate AtMost(a: (int, int), b: (int, int)) {
    a.0 < b.0 || (a.0 == b.0 && a.1 <= b.1)
  }

  function Insert(f: Finding, fs: seq<Finding>, key: Key): seq<Finding> {
    if fs == [] || AtMost(key(f), key(fs[0])) then [f] + fs else [fs[0]] + Insert(f, fs[1..], key)
  }

  function Sort(fs: seq<Finding>, key: Key): seq<Finding> {
    if fs == [] then [] else Insert(fs[0], Sort(fs[1..], key), key)
  }

  function Reverse<T>(s: seq<T>): (r: seq<T>)
    ensures |r| == |s|
    ensures forall i :: 0 <= i < |s| ==> r[i] == s[|s| - 1 - i]
  {
    if s == [] then [] else Reverse(s[1..]) + [s[0]]
  }

  /** `sorted(fs, key=start, reverse=True)`: Python keeps equal elements in their original order. */
  function SortDescending(fs: seq<Finding>): seq<Finding> {
    Reverse(Sort(Reverse(fs), BY_START))
  }

  ghost predicate SortedBy(fs: seq<Finding>, key: Key) {
    forall i, j :: 0 <= i < j < |fs| ==> AtMost(key(fs[i]), key(fs[j]))
  }

  lemma {:induction false} InsertSorts(f: Finding, fs: seq<Finding>, key: Key)
    requires SortedBy(fs, key)
    ensures SortedBy(Insert(f, fs, key), key)
    ensures multiset(Insert(f, fs, key)) == multiset{f} + multiset(fs)
  {
    hide SortedBy, AtMost;
    AtMostIsTotal(key, f);
    if fs == [] {
      SortedCons(f, fs, key);
    } else {
      SortedTail(fs, key);
      assert fs == [fs[0]] + fs[1..];
      if AtMost(key(f), key(fs[0])) {
        forall x | x in fs ensures AtMost(key(f), key(x)) {
          AtMostIsTransitive(key(f), key(fs[0]), key(x));
        }
        SortedCons(f, fs, key);
      } else {
        var rest := Insert(f, fs[1..], key);
        InsertSorts(f, fs[1..], key);
        AtMostIsTotal(key, fs[0]);
        forall x | x in rest ensures AtMost(key(fs[0]), key(x)) {
          assert x in multiset(rest);
          if x == f {
            OneIsAtMost(key(fs[0]), key(f));
          } else {
            assert x in multiset(fs[1..]);
          }
        }
        SortedCons(fs[0], rest, key);
      }
    }
  }

  lemma AtMostIsTransitive(a: (int, int), b: (int, int), c: (int, int))
    requires AtMost(a, b)
    ensures AtMost(b, c) ==> AtMost(a, c)
  {
  }

  lemma OneIsAtMost(a: (int, int), b: (int, int))
    ensures AtMost(a, b) || AtMost(b, a)
  {
  }

  lemma AtMostIsTotal(key: Key, f: Finding)
    ensures AtMost(key(f), key(f))
  {
  }

  lemma SortedCons(f: Finding, fs: seq<Finding>, key: Key)
    requires SortedBy(fs, key) && forall x :: x in fs ==> AtMost(key(f), key(x))
    ensures SortedBy([f] + fs, key)
  {
    hide AtMost;
    forall j | 0 <= j < |fs| ensures AtMost(key(f), key(fs[j])) { assert fs[j] in fs; }
  }

  lemma SortedTail(fs: seq<Finding>, key: Key)
    requires SortedBy(fs, key) && fs != []
    ensures SortedBy(fs[1..], key) && forall x :: x in fs ==> x == fs[0] || AtMost(key(fs[0]), key(x))
  {
  }

  lemma {:induction false} SortIsSorted(fs: seq<Finding>, key: Key)
    ensures SortedBy(Sort(fs, key), key)
    ensures multiset(Sort(fs, key)) == multiset(fs)
    ensures |Sort(fs, key)| == |fs|
  {
    if fs != [] {
      SortIsSorted(fs[1..], key);
      InsertSorts(fs[0], Sort(fs[1..], key), key);
      assert fs == [fs[0]] + fs[1..];
    }
    assert |multiset(Sort(fs, key))| == |Sort(fs, key)| && |multiset(fs)| == |fs|;
  }

  /** The findings with a given key, in their order. */
  function WithKey(fs: seq<Finding>, key: Key, k: (int, int)): seq<Finding> {
    if fs == [] then [] else (if key(fs[0]) == k then [fs[0]] else []) + WithKey(fs[1..], key, k)
  }

  lemma {:induction false} InsertIsStable(f: Finding, fs: seq<Finding>, key: Key, k: (int, int))
    ensures WithKey(Insert(f, fs, key), key, k) == WithKey([f] + fs, key, k)
  {
    assert ([f] + fs)[1..] == fs;
    if fs != [] && !AtMost(key(f), key(fs[0])) {
      InsertIsStable(f, fs[1..], key, k);
      assert ([f] + fs[1..])[1..] == fs[1..];
      assert ([fs[0]] + Insert(f, fs[1..], key))[1..] == Insert(f, fs[1..], key);
    }
  }

  /** The sort keeps the order of findings with equal keys. */
  lemma {:induction false} SortIsStable(fs: seq<Finding>, key: Key, k: (int, int))
    ensures WithKey(Sort(fs, key), key, k) == WithKey(fs, key, k)
  {
    if fs != [] {
      SortIsStable(fs[1..], key, k);
      InsertIsStable(fs[0], Sort(fs[1..], key), key, k);
      assert ([fs[0]] + Sort(fs[1..], key))[1..] == Sort(fs[1..], key);
    }
  }

  lemma {:induction false} WithKeyConcat(a: seq<Finding>, b: seq<Finding>, key: Key, k: (int, int))
    ensures WithKey(a + b, key, k) == WithKey(a, key, k) + WithKey(b, key, k)
  {
    if a == [] {
      assert a + b == b;
    } else {
      assert (a + b)[1..] == a[1..] + b;
      WithKeyConcat(a[1..], b, key, k);
    }
  }

  lemma {:induction false} WithKeyReversed(fs: seq<Finding>, key: Key, k: (int, int))
    ensures WithKey(Reverse(fs), key, k) == Reverse(WithKey(fs, key, k))
  {
    if fs != [] {
      WithKeyReversed(fs[1..], key, k);
      WithKeyConcat(Reverse(fs[1..]), [fs[0]], key, k);
      assert [fs[0]][1..] == [];
      assert WithKey([fs[0]], key, k) == if key(fs[0]) == k then [fs[0]] else [];
      assert WithKey(fs, key, k) == (if key(fs[0]) == k then [fs[0]] else []) + WithKey(fs[1..], key, k);
    }
  }

  lemma {:induction false} ReverseTwice<T>(s: seq<T>)
    ensures Reverse(Reverse(s)) == s
  {
  }

  /** So does the descending sort. */
  lemma {:induction false} DescendingIsStable(fs: seq<Finding>, k: (int, int))
    ensures WithKey(SortDescending(fs), BY_START, k) == WithKey(fs, BY_START, k)
  {
    hide Sort, WithKey, Reverse;
    WithKeyReversed(Sort(Reverse(fs), BY_START), BY_START, k);
    SortIsStable(Reverse(fs), BY_START, k);
    WithKeyReversed(fs, BY_START, k);
    ReverseTwice(WithKey(fs, BY_START, k));
  }

  lemma {:induction false} ReversePermutes<T>(s: seq<T>)
    ensures multiset(Reverse(s)) == multiset(s)
  {
    if s != [] {
      ReversePermutes(s[1..]);
      assert s == [s[0]] + s[1..];
    }
  }

  /** Permuting the findings does not change what they cover. */
  lemma SameCoverage(fs: seq<Finding>, gs: seq<Finding>, p: int)
    requires multiset(fs) == multiset(gs)
    ensures Covered(fs, p) <==> Covered(gs, p)
  {
    if i :| 0 <= i < |fs| && Covers(fs[i], p) {
      assert fs[i] in multiset(gs);
      var j :| 0 <= j < |gs| && gs[j] == fs[i];
    }
    if j :| 0 <= j < |gs| && Covers(gs[j], p) {
      assert gs[j] in multiset(fs);
      var i :| 0 <= i < |fs| && fs[i] == gs[j];
    }
  }

  lemma SameRange(fs: seq<Finding>, gs: seq<Finding>, n: nat)
    requires multiset(fs) == multiset(gs) && InDocument(fs, n)
    ensures InDocument(gs, n)
  {
    forall j | 0 <= j < |gs| ensures gs[j].spanStart <= gs[j].spanEnd <= n {
      assert gs[j] in multiset(fs);
      var i :| 0 <= i < |fs| && fs[i] == gs[j];
    }
  }

  /* ----- Pairwise disjoint findings ----- */

  /** No finding occurs twice, spans are not empty, and different findings do not overlap. */
  ghost predicate Disjoint(fs: seq<Finding>) {
    && (forall f :: f in fs ==> f.spanStart < f.spanEnd && multiset(fs)[f] == 1)
    && (forall f, g :: f in fs && g in fs && f != g ==> !Overlap(f, g))
  }

  /** In order, each span ending before the next one starts. */
  ghost predicate Apart(fs: seq<Finding>) {
    && (forall i :: 0 <= i < |fs| ==> fs[i].spanStart < fs[i].spanEnd)
    && (forall i, j :: 0 <= i < j < |fs| ==> fs[i].spanEnd <= fs[j].spanStart)
  }

  lemma DisjointSorted(fs: seq<Finding>, gs: seq<Finding>, key: Key)
    requires Disjoint(fs) && multiset(gs) == multiset(fs) && SortedBy(gs, key)
    requires forall f :: key(f).0 == f.spanStart
    ensures Apart(gs)
  {
    forall f | f in gs ensures f in fs { assert f in multiset(gs); }
    forall i, j | 0 <= i < j < |gs| ensures gs[i].spanEnd <= gs[j].spanStart {
      OccursOnce(gs, i, j);
      assert AtMost(key(gs[i]), key(gs[j]));
      assert gs[i] in gs && gs[j] in gs;
      assert !Overlap(gs[i], gs[j]);
    }
  }

  lemma FirstSpansAgree(a: seq<Finding>, b: seq<Finding>)
    requires Apart(a) && Apart(b) && multiset(a) == multiset(b) && a != [] && b != []
    ensures a[0] == b[0]
  {
    assert a[0] in multiset(b) && b[0] in multiset(a);
    var j :| 0 <= j < |b| && b[j] == a[0];
    var i :| 0 <= i < |a| && a[i] == b[0];
  }

  lemma ApartTail(a: seq<Finding>)
    requires Apart(a) && a != []
    ensures Apart(a[1..])
  {
  }

  /** Findings that are apart have only one order. */
  lemma {:induction false} ApartIsUnique(a: seq<Finding>, b: seq<Finding>)
    requires Apart(a) && Apart(b) && multiset(a) == multiset(b)
    ensures a == b
  {
    hide Apart;
    SameLength(a, b);
    if a != [] {
      FirstSpansAgree(a, b);
      TailsPermute(a, b);
      ApartTail(a);
      ApartTail(b);
      ApartIsUnique(a[1..], b[1..]);
      assert a == [a[0]] + a[1..] && b == [b[0]] + b[1..];
    }
  }
}
