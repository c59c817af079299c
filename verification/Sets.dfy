/** Counting arguments on finite sets. */
module Sets {
  ghost function Below(n: nat): (r: set<int>)
    ensures |r| == n && forall i :: i in r <==> 0 <= i < n
  {
    if n == 0 then {} else Below(n - 1) + {n - 1}
  }

  lemma AnyOf<T>(a: set<T>) returns (x: T)
    requires a != {}
    ensures x in a
  {
    x :| x in a;
  }

  lemma {:induction false} SubsetSize<T>(a: set<T>, b: set<T>)
    requires a <= b
    ensures |a| <= |b|
    decreases a
  {
    if a != {} {
      var x :| x in a;
      SubsetSize(a - {x}, b - {x});
    }
  }

  ghost predicate Distinct(s: seq<int>) { forall i, j :: 0 <= i < j < |s| ==> s[i] != s[j] }

  ghost function Values(s: seq<int>): (r: set<int>)
    ensures forall x :: x in r <==> x in s
  {
    set x | x in s
  }

  lemma {:induction false} DistinctSize(s: seq<int>)
    requires Distinct(s)
    ensures |Values(s)| == |s|
  {
    if s != [] {
      var last := s[|s| - 1];
      var rest := s[..|s| - 1];
      DistinctSize(rest);
      assert s == rest + [last];
      assert Values(s) == Values(rest) + {last};
    }
  }

  /** n distinct values from 0 to n are all of them. */
  lemma TakesEvery(s: seq<int>, y: int)
    requires Distinct(s) && 0 <= y < |s| && forall i :: 0 <= i < |s| ==> 0 <= s[i] < |s|
    ensures y in s
  {
    if y !in s {
      DistinctSize(s);
      SubsetSize(Values(s), Below(|s|) - {y});
    }
  }
}
