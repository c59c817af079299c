/** The table of exact names: sorted, one entry per name, searched by bisection. */
module GlobExacts {
  import opened Bytes
  import opened GlobTables

  /** By name, and the larger value first among entries of the same name. */
  predicate Before(a: Entry, b: Entry) {
    Less(a.pat, b.pat) || (a.pat == b.pat && b.value <= a.value)
  }

  ghost predicate Sorted(xs: seq<Entry>) {
    forall i, j :: 0 <= i < j < |xs| ==> Before(xs[i], xs[j])
  }

  ghost predicate StrictNames(xs: seq<Entry>) {
    forall i, j :: 0 <= i < j < |xs| ==> Less(xs[i].pat, xs[j].pat)
  }

  lemma BeforeIsTotal(a: Entry, b: Entry)
    ensures Before(a, b) || Before(b, a)
  {
    LessIsTotal(a.pat, b.pat);
  }

  lemma BeforeIsTransitive(a: Entry, b: Entry, c: Entry)
    requires Before(a, b) && Before(b, c)
    ensures Before(a, c)
  {
    if Less(a.pat, b.pat) && Less(b.pat, c.pat) { LessIsTransitive(a.pat, b.pat, c.pat); }
  }

  lemma SortedInsert(xs: seq<Entry>, k: int, e: Entry)
    requires Sorted(xs) && 0 <= k <= |xs|
    requires k > 0 ==> Before(xs[k - 1], e)
    requires k < |xs| ==> Before(e, xs[k])
    ensures Sorted(xs[..k] + [e] + xs[k..])
  {
    var ys := xs[..k] + [e] + xs[k..];
    forall i, j | 0 <= i < j < |ys| ensures Before(ys[i], ys[j]) {
      if i < k - 1 && j == k { BeforeIsTransitive(xs[i], xs[k - 1], e); }
      if i == k && j > k + 1 { BeforeIsTransitive(e, xs[k], xs[j - 1]); }
    }
  }

  lemma InsertMembers(xs: seq<Entry>, k: int, e: Entry)
    requires 0 <= k <= |xs|
    ensures multiset(xs[..k] + [e] + xs[k..]) == multiset(xs) + multiset{e}
  {
    assert xs == xs[..k] + xs[k..];
  }

  /** Stands in for ranges::sort: any sort of a total order gives this result. */
  method Sort(xs: seq<Entry>) returns (ys: seq<Entry>)
    ensures Sorted(ys) && multiset(ys) == multiset(xs)
    ensures forall e :: e in ys <==> e in xs
  {
    ys := [];
    for n := 0 to |xs|
      invariant Sorted(ys) && multiset(ys) == multiset(xs[..n])
    {
      var e, k := xs[n], |ys|;
      while k > 0 && !Before(ys[k - 1], e)
        invariant 0 <= k <= |ys| && (k < |ys| ==> Before(e, ys[k]))
      {
        BeforeIsTotal(ys[k - 1], e);
        k := k - 1;
      }
      SortedInsert(ys, k, e);
      InsertMembers(ys, k, e);
      assert xs[..n + 1] == xs[..n] + [e];
      ys := ys[..k] + [e] + ys[k..];
    }
    assert xs[..|xs|] == xs;
    SameMembers(xs, ys);
  }

  lemma SameMembers(xs: seq<Entry>, ys: seq<Entry>)
    requires multiset(xs) == multiset(ys)
    ensures forall e :: e in ys <==> e in xs
  {
    forall e ensures e in ys <==> e in xs {
      assert e in multiset(xs) <==> e in multiset(ys);
    }
  }

  /** ranges::unique and erase: the first entry of each run of equal names stays. */
  method Unique(xs: seq<Entry>) returns (ys: seq<Entry>)
    requires Sorted(xs)
    ensures StrictNames(ys) && (forall y :: y in ys ==> y in xs)
    ensures forall x :: x in xs ==> Covered(x, ys)
  {
    ys := [];
    for n := 0 to |xs|
      invariant StrictNames(ys) && (forall y :: y in ys ==> y in xs[..n])
      invariant forall x {:trigger Covered(x, ys)} :: x in xs[..n] ==> Covered(x, ys)
      invariant forall y :: y in ys && n < |xs| ==> Before(y, xs[n])
      invariant ys != [] ==> forall i :: 0 <= i < |ys| - 1 ==> Less(ys[i].pat, ys[|ys| - 1].pat)
    {
      var x := xs[n];
      if ys == [] || ys[|ys| - 1].pat != x.pat {
        KeepNew(ys, x);
        forall d | d in xs[..n + 1] ensures Covered(d, ys + [x]) {
          if d in xs[..n] { assert Covered(d, ys); CoveredGrows(d, ys, x); } else { assert x in ys + [x]; }
        }
        ys := ys + [x];
      } else {
        assert ys[|ys| - 1] in ys;
        LessIsTotal(x.pat, x.pat);
        assert Covered(x, ys);
      }
      if n + 1 < |xs| {
        forall y | y in ys ensures Before(y, xs[n + 1]) {
          if y != x { BeforeIsTransitive(y, x, xs[n + 1]); }
        }
      }
    }
    assert xs[..|xs|] == xs;
  }

  lemma CoveredGrows(d: Entry, ys: seq<Entry>, x: Entry)
    requires Covered(d, ys)
    ensures Covered(d, ys + [x])
  {
    var y :| y in ys && y.pat == d.pat && d.value <= y.value;
    assert y in ys + [x];
  }

  lemma KeepNew(ys: seq<Entry>, x: Entry)
    requires StrictNames(ys) && (forall y :: y in ys ==> Before(y, x))
    requires ys == [] || ys[|ys| - 1].pat != x.pat
    ensures StrictNames(ys + [x])
  {
    forall i | 0 <= i < |ys| ensures Less(ys[i].pat, x.pat) {
      var last := ys[|ys| - 1];
      assert last in ys && Before(last, x);
      if i < |ys| - 1 { LessIsTransitive(ys[i].pat, last.pat, x.pat); }
    }
  }

  /** ranges::lower_bound: the first entry whose name is not below `str`. */
  method LowerBound(xs: seq<Entry>, str: Str) returns (k: nat)
    requires StrictNames(xs)
    ensures k <= |xs|
    ensures forall i :: 0 <= i < k ==> Less(xs[i].pat, str)
    ensures forall i :: k <= i < |xs| ==> !Less(xs[i].pat, str)
  {
    k := 0;
    var hi := |xs|;
    while k < hi
      invariant 0 <= k <= hi <= |xs|
      invariant forall i :: 0 <= i < k ==> Less(xs[i].pat, str)
      invariant forall i :: hi <= i < |xs| ==> !Less(xs[i].pat, str)
    {
      var mid := (k + hi) / 2;
      if Less(xs[mid].pat, str) {
        forall i | 0 <= i < mid ensures Less(xs[i].pat, str) {
          LessIsTransitive(xs[i].pat, xs[mid].pat, str);
        }
        k := mid + 1;
      } else {
        forall i | mid < i < |xs| ensures !Less(xs[i].pat, str) {
          if Less(xs[i].pat, str) { LessIsTransitive(xs[mid].pat, xs[i].pat, str); }
        }
        hi := mid;
      }
    }
  }

  /** Looks a name up among the exact entries. */
  method Lookup(xs: seq<Entry>, str: Str, val: int) returns (r: int)
    requires StrictNames(xs)
    ensures Raises(val, r, iset x | x in xs && x.pat == str :: x.value)
  {
    var k := LowerBound(xs, str);
    r := val;
    if k < |xs| && xs[k].pat == str && r < xs[k].value {
      r := xs[k].value;
    }
    forall x | x in xs && x.pat == str ensures k < |xs| && xs[k] == x {
      var i :| 0 <= i < |xs| && xs[i] == x;
      LessIsTotal(str, str);
    }
  }
}
