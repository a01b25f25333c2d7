/**
 Sorting by a pair of integers.  Nothing is promised about the order of equal elements.
 */
module Sorting {

  predicate AtMost(p: (int, int), q: (int, int)) {
    p.0 < q.0 || (p.0 == q.0 && p.1 <= q.1)
  }

  ghost predicate SortedBy<T(!new)>(s: seq<T>, rank: T -> (int, int)) {
    forall x, y :: 0 <= x < y < |s| ==> AtMost(rank(s[x]), rank(s[y]))
  }

  ghost predicate NoRepeats<T>(s: seq<T>) {
    forall x, y :: 0 <= x < y < |s| ==> s[x] != s[y]
  }

  method Sort<T(!new)>(s: seq<T>, rank: T -> (int, int)) returns (r: seq<T>)
    ensures SortedBy(r, rank) && multiset(r) == multiset(s)
  {
    r := [];
    for k := 0 to |s|
      invariant SortedBy(r, rank) && multiset(r) == multiset(s[..k])
    {
      var p := |r|;
      while p > 0 && !AtMost(rank(r[p - 1]), rank(s[k]))
        invariant 0 <= p <= |r|
        invariant forall x :: p <= x < |r| ==> AtMost(rank(s[k]), rank(r[x]))
      {
        p := p - 1;
      }
      InsertedSorted(r, p, s[k], rank);
      InsertedElements(r, p, s[k]);
      assert s[..k + 1] == s[..k] + [s[k]];
      r := r[..p] + [s[k]] + r[p..];
    }
    assert s[..|s|] == s;
  }

  lemma InsertedSorted<T(!new)>(r: seq<T>, p: nat, e: T, rank: T -> (int, int))
    requires SortedBy(r, rank) && p <= |r|
    requires p > 0 ==> AtMost(rank(r[p - 1]), rank(e))
    requires forall x :: p <= x < |r| ==> AtMost(rank(e), rank(r[x]))
    ensures SortedBy(r[..p] + [e] + r[p..], rank)
  {
    var n := r[..p] + [e] + r[p..];
    assert forall x :: 0 <= x < p ==> AtMost(rank(r[x]), rank(e)) by {
      forall x | 0 <= x < p - 1 ensures AtMost(rank(r[x]), rank(e)) {
        assert AtMost(rank(r[x]), rank(r[p - 1]));
      }
    }
    forall x, y | 0 <= x < y < |n| ensures AtMost(rank(n[x]), rank(n[y])) {
      assert n[x] == (if x < p then r[x] else if x == p then e else r[x - 1]);
      assert n[y] == (if y < p then r[y] else if y == p then e else r[y - 1]);
    }
  }

  lemma InsertedElements<T>(r: seq<T>, p: nat, e: T)
    requires p <= |r|
    ensures multiset(r[..p] + [e] + r[p..]) == multiset(r) + multiset{e}
  {
    assert r == r[..p] + r[p..];
  }

  /** A rearrangement has the same elements, and repeats none if the original does not. */
  lemma SameElements<T>(s: seq<T>, r: seq<T>)
    requires multiset(r) == multiset(s)
    ensures |r| == |s| && forall e :: e in r <==> e in s
    ensures NoRepeats(s) ==> NoRepeats(r)
  {
    assert |multiset(r)| == |r| && |multiset(s)| == |s|;
    forall e ensures e in r <==> e in s {
      assert e in multiset(r) <==> e in multiset(s);
    }
    if NoRepeats(s) {
      forall x, y | 0 <= x < y < |r| ensures r[x] != r[y] {
        if r[x] == r[y] {
          assert r == r[..y] + [r[y]] + r[y + 1..];
          assert r[x] in r[..y];
          assert multiset(r) == multiset(r[..y]) + multiset{r[y]} + multiset(r[y + 1..]);
          AtMostOnce(s, r[x]);
        }
      }
    }
  }

  lemma {:induction false} AtMostOnce<T>(s: seq<T>, e: T)
    requires NoRepeats(s)
    ensures multiset(s)[e] <= 1
  {
    if s != [] {
      var last := |s| - 1;
      assert s == s[..last] + [s[last]];
      assert multiset(s) == multiset(s[..last]) + multiset{s[last]};
      AtMostOnce(s[..last], e);
      assert s[last] !in s[..last];
    }
  }
}
