/** A few notions about sequences and finite sets. */
module Sequences {

  predicate Increasing(s: seq<int>) {
    forall x, y :: 0 <= x < y < |s| ==> s[x] < s[y]
  }

  function RemoveAt<T>(s: seq<T>, k: nat): seq<T>
    requires k < |s|
  {
    s[..k] + s[k + 1..]
  }

  lemma ButTheLast(s: seq<int>)
    requires Increasing(s) && s != []
    ensures Increasing(s[..|s| - 1]) && s[|s| - 1] in s
    ensures forall e :: e in s[..|s| - 1] <==> e in s && e != s[|s| - 1]
    ensures forall e <- s :: e <= s[|s| - 1]
  {
    var rest, last := s[..|s| - 1], s[|s| - 1];
    assert s == rest + [last];
    assert forall x :: 0 <= x < |rest| ==> rest[x] == s[x] < last;
  }

  lemma SomeElement(s: seq<int>)
    ensures s == [] || exists e :: e in s
  {
    if s != [] {
      var e := s[0];
      assert e in s;
    }
  }

  /** Two increasing sequences with the same elements are the same. */
  lemma {:induction false} SameIncreasing(s: seq<int>, t: seq<int>)
    requires Increasing(s) && Increasing(t) && (forall e <- s :: e in t) && forall e <- t :: e in s
    ensures s == t
    decreases |s|
  {
    hide Increasing;
    SomeElement(s);
    SomeElement(t);
    if s != [] {
      ButTheLast(s);
      ButTheLast(t);
      var a, b := s[..|s| - 1], t[..|t| - 1];
      assert s[|s| - 1] == t[|t| - 1];
      assert s == a + [s[|s| - 1]] && t == b + [t[|t| - 1]];
      forall e | e in a ensures e in b {
        assert e in s;
      }
      forall e | e in b ensures e in a {
        assert e in t;
      }
      SameIncreasing(a, b);
    }
  }

  lemma {:induction false} SubsetSize<T>(s: set<T>, t: set<T>)
    requires s <= t
    ensures |s| <= |t|
    decreases |s|
  {
    if s != {} {
      var x :| x in s;
      SubsetSize(s - {x}, t - {x});
    }
  }
}
