/** Sorting the keys of an object, as `json.dumps` does with `sort_keys=True`: by code points. */
module SortedKeys {
  import opened Wrappers
  import opened Sequences

  predicate Less(s: string, t: string) {
    if t == "" then false
    else if s == "" then true
    else s[0] < t[0] || (s[0] == t[0] && Less(s[1..], t[1..]))
  }

  function Insert(p: Pair, ps: seq<Pair>): (r: seq<Pair>)
    ensures |r| == |ps| + 1
  {
    if ps == [] || !Less(ps[0].0, p.0) then [p] + ps else [ps[0]] + Insert(p, ps[1..])
  }

  function SortKeys(ps: seq<Pair>): (r: seq<Pair>)
    ensures |r| == |ps|
  {
    if ps == [] then [] else Insert(ps[0], SortKeys(ps[1..]))
  }

  /** No key occurs twice. */
  ghost predicate DistinctKeys(ps: seq<Pair>) {
    forall i, j :: 0 <= i < j < |ps| ==> ps[i].0 != ps[j].0
  }

  ghost predicate Ascending(ps: seq<Pair>) {
    forall i, j :: 0 <= i < j < |ps| ==> Less(ps[i].0, ps[j].0)
  }

  lemma {:induction false} LessIsTotal(s: string, t: string)
    ensures s == t || Less(s, t) || Less(t, s)
    ensures !(Less(s, t) && Less(t, s)) && !Less(s, s)
  {
    if s != "" && t != "" {
      LessIsTotal(s[1..], t[1..]);
      LessIsTotal(s[1..], s[1..]);
      assert s == [s[0]] + s[1..] && t == [t[0]] + t[1..];
    } else if s != "" {
      LessIsTotal(s[1..], s[1..]);
    }
  }

  lemma {:induction false} LessIsTransitive(s: string, t: string, u: string)
    requires Less(s, t) && Less(t, u)
    ensures Less(s, u)
  {
    if s != "" && s[0] == t[0] == u[0] {
      LessIsTransitive(s[1..], t[1..], u[1..]);
    }
  }

  lemma AscendingCons(p: Pair, ps: seq<Pair>)
    requires Ascending(ps) && forall q :: q in ps ==> Less(p.0, q.0)
    ensures Ascending([p] + ps)
  {
    forall j | 0 <= j < |ps| ensures Less(p.0, ps[j].0) { assert ps[j] in ps; }
  }

  lemma AscendingTail(ps: seq<Pair>)
    requires Ascending(ps) && ps != []
    ensures Ascending(ps[1..]) && forall q :: q in ps[1..] ==> Less(ps[0].0, q.0)
  {
  }

  lemma {:induction false} InsertPermutes(p: Pair, ps: seq<Pair>)
    ensures multiset(Insert(p, ps)) == multiset(ps) + multiset{p}
  {
    if ps != [] && Less(ps[0].0, p.0) {
      InsertPermutes(p, ps[1..]);
      assert ps == [ps[0]] + ps[1..];
    }
  }

  lemma SameMembers(a: seq<Pair>, b: seq<Pair>, p: Pair)
    requires multiset(a) == multiset(b) + multiset{p}
    ensures forall q :: q in a <==> q in b || q == p
  {
    forall q ensures q in a <==> q in b || q == p {
      assert q in a <==> q in multiset(a);
      assert q in b <==> q in multiset(b);
    }
  }

  lemma {:induction false} InsertAscends(p: Pair, ps: seq<Pair>)
    requires Ascending(ps) && forall q :: q in ps ==> q.0 != p.0
    ensures Ascending(Insert(p, ps))
  {
    hide Less, Ascending;
    if ps == [] {
      NoPairs();
      AscendingCons(p, ps);
    } else {
      AscendingTail(ps);
      assert ps == [ps[0]] + ps[1..] && ps[0] in ps;
      LessIsTotal(ps[0].0, p.0);
      if Less(ps[0].0, p.0) {
        InsertAscends(p, ps[1..]);
        InsertPermutes(p, ps[1..]);
        SameMembers(Insert(p, ps[1..]), ps[1..], p);
        AscendingCons(ps[0], Insert(p, ps[1..]));
      } else {
        forall q | q in ps ensures Less(p.0, q.0) {
          if q != ps[0] {
            LessIsTransitive(p.0, ps[0].0, q.0);
          }
        }
        AscendingCons(p, ps);
      }
    }
  }

  lemma NoPairs()
    ensures Ascending([])
  {
  }

  lemma {:induction false} SortPermutes(ps: seq<Pair>)
    ensures multiset(SortKeys(ps)) == multiset(ps)
  {
    if ps != [] {
      SortPermutes(ps[1..]);
      InsertPermutes(ps[0], SortKeys(ps[1..]));
      assert ps == [ps[0]] + ps[1..];
    }
  }

  lemma {:induction false} SortAscends(ps: seq<Pair>)
    requires DistinctKeys(ps)
    ensures Ascending(SortKeys(ps))
  {
    if ps == [] {
      NoPairs();
    } else {
      hide Less, Ascending, Insert;
      SortAscends(ps[1..]);
      SortPermutes(ps[1..]);
      forall q | q in SortKeys(ps[1..]) ensures q.0 != ps[0].0 {
        assert q in multiset(ps[1..]);
        var i :| 0 <= i < |ps| - 1 && ps[1..][i] == q;
        assert ps[i + 1] == q;
      }
      InsertAscends(ps[0], SortKeys(ps[1..]));
    }
  }

  lemma FirstKeysAgree(a: seq<Pair>, b: seq<Pair>)
    requires Ascending(a) && Ascending(b) && multiset(a) == multiset(b) && a != [] && b != []
    ensures a[0] == b[0]
  {
    hide Less;
    assert a[0] in multiset(b) && b[0] in multiset(a);
    var j :| 0 <= j < |b| && b[j] == a[0];
    var i :| 0 <= i < |a| && a[i] == b[0];
    LessIsTotal(a[0].0, b[0].0);
  }

  lemma {:induction false} AscendingIsUnique(a: seq<Pair>, b: seq<Pair>)
    requires Ascending(a) && Ascending(b) && multiset(a) == multiset(b)
    ensures a == b
  {
    hide Ascending;
    SameLength(a, b);
    if a != [] {
      FirstKeysAgree(a, b);
      TailsPermute(a, b);
      AscendingTail(a);
      AscendingTail(b);
      AscendingIsUnique(a[1..], b[1..]);
      assert a == [a[0]] + a[1..] && b == [b[0]] + b[1..];
    }
  }

  /** Pairs with distinct keys, in whatever order, sort to the one ascending list of them. */
  lemma {:induction false} SortIsUnique(ps: seq<Pair>, sorted: seq<Pair>)
    requires DistinctKeys(ps) && Ascending(sorted) && multiset(ps) == multiset(sorted)
    ensures SortKeys(ps) == sorted
  {
    hide SortKeys, Ascending;
    SortAscends(ps);
    SortPermutes(ps);
    AscendingIsUnique(SortKeys(ps), sorted);
  }
}
