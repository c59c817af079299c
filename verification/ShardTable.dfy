/** Linear probing in a circular shard: the order in which keys arrived shows neither in which
    slots are taken nor in which keys share a run of taken slots. */
module ShardTable {
  import opened Bytes
  import opened Sets
  import opened Wrappers

  type Table = seq<Option<Str>>

  /** q lies on the way from h forward to p around the shard. */
  predicate Between(h: int, q: int, p: int) {
    if h <= p then h <= q <= p else h <= q || q <= p
  }

  ghost predicate Reached(T: Table, h: int, p: int) {
    0 <= h < |T| && forall q :: 0 <= q < |T| && Between(h, q, p) ==> T[q].Some?
  }

  ghost predicate Holds(T: Table, x: Str) { Some(x) in T }

  /** Each of these keys is in one slot, and every slot from its home to that slot is taken. */
  ghost predicate Probing(T: Table, home: Str -> nat, keys: set<Str>) {
    && (forall p :: 0 <= p < |T| && T[p].Some? ==> Reached(T, home(T[p].value), p) && T[p].value in keys)
    && Distinct(T)
    && (forall x {:trigger Holds(T, x)} :: x in keys ==> Holds(T, x))
  }

  ghost predicate HasEmpty(T: Table) { exists e :: 0 <= e < |T| && T[e].None? }

  // ----- The same slots are taken -----

  /** The nearest empty slot at or before p, going backwards around the shard. */
  lemma {:induction false} EmptyBefore(T: Table, p: int, e: int) returns (a: int)
    requires 0 <= p < |T| && 0 <= e < |T| && T[e].None?
    ensures 0 <= a < |T| && T[a].None?
    ensures forall q :: 0 <= q < |T| && q != a && Between(a, q, p) ==> T[q].Some?
    decreases if e <= p then p - e else p + |T| - e
  {
    if T[p].None? {
      a := p;
    } else {
      var p' := if p == 0 then |T| - 1 else p - 1;
      a := EmptyBefore(T, p', e);
    }
  }

  ghost function PositionOf(S: Table, x: Str): (p: int)
    requires Holds(S, x)
    ensures 0 <= p < |S| && S[p] == Some(x)
  {
    var p :| 0 <= p < |S| && S[p] == Some(x);
    p
  }

  /** A slot that no key of S may cross cannot be crossed by the keys that T holds in front of it. */
  lemma StaysBefore(S: Table, T: Table, home: Str -> nat, keys: set<Str>, a: int, e: int, q: int)
    requires |S| == |T| && Probing(S, home, keys) && Probing(T, home, keys)
    requires 0 <= a < |T| && T[a].None? && 0 <= e < |S| && S[e].None?
    requires 0 <= q < |T| && T[q].Some? && Between(a, q, e)
    ensures Holds(S, T[q].value)
    ensures var p := PositionOf(S, T[q].value); p != a && p != e && Between(a, p, e)
  {
    var x := T[q].value;
    var p := PositionOf(S, x);
    assert Reached(T, home(x), q) && Reached(S, home(x), p);
    assert !Between(home(x), a, q) && !Between(home(x), e, p);
  }

  ghost function Arc(n: nat, a: int, e: int): set<int> { set q | q in Below(n) && q != a && Between(a, q, e) }

  /** The key that T keeps in slot q is kept by S in B. */
  ghost predicate KeptIn(S: Table, T: Table, q: int, B: set<int>) {
    0 <= q < |T| && T[q].Some? && Holds(S, T[q].value) && PositionOf(S, T[q].value) in B
  }

  lemma Apart(S: Table, T: Table, p: int, q: int, B: set<int>)
    requires Distinct(T) && KeptIn(S, T, p, B) && KeptIn(S, T, q, B)
    requires PositionOf(S, T[p].value) == PositionOf(S, T[q].value)
    ensures p == q
  {
    assert T[p] == T[q];
  }

  /** If the keys that T keeps in the slots D are kept by S in the slots B, B is no smaller. */
  lemma {:induction false} Placement(S: Table, T: Table, D: set<int>, B: set<int>)
    requires Distinct(T) && forall q {:trigger KeptIn(S, T, q, B)} :: q in D ==> KeptIn(S, T, q, B)
    ensures |D| <= |B|
    decreases |D|
  {
    if D != {} {
      var q := AnyOf(D);
      assert KeptIn(S, T, q, B);
      var b := PositionOf(S, T[q].value);
      forall p | p in D - {q} ensures KeptIn(S, T, p, B - {b}) {
        assert KeptIn(S, T, p, B);
        if PositionOf(S, T[p].value) == b { Apart(S, T, p, q, B); }
      }
      Placement(S, T, D - {q}, B - {b});
    }
  }

  /** The keys in D do not all fit into D without one of its slots. */
  lemma SomeoneLeaves(S: Table, T: Table, D: set<int>, e: int) returns (q: int)
    requires Distinct(T) && e in D
    ensures q in D && !KeptIn(S, T, q, D - {e})
  {
    var B := D - {e};
    if forall q :: q in D ==> KeptIn(S, T, q, B) {
      Placement(S, T, D, B);
      assert false;
    }
    q :| q in D && !KeptIn(S, T, q, B);
  }

  /** Slots empty in one table are empty in the other: otherwise more keys would have to fit
      between two empty slots than there are slots. */
  lemma SameEmpty(S: Table, T: Table, home: Str -> nat, keys: set<Str>, e: int, f: int)
    requires |S| == |T| && Probing(S, home, keys) && Probing(T, home, keys)
    requires 0 <= e < |S| && S[e].None? && 0 <= f < |T| && T[f].None?
    ensures T[e].None?
  {
    var a := EmptyBefore(T, e, f);
    if T[e].Some? {
      var D := Arc(|T|, a, e);
      InArc(|T|, a, e, e);
      var q := SomeoneLeaves(S, T, D, e);
      StaysBefore(S, T, home, keys, a, e, q);
      InArc(|T|, a, PositionOf(S, T[q].value), e);
    }
  }

  lemma InArc(n: nat, a: int, q: int, e: int)
    requires 0 <= q < n && q != a && Between(a, q, e)
    ensures q in Arc(n, a, e)
  {
  }

  lemma KeptInBoth(S: Table, T: Table, home: Str -> nat, keys: set<Str>, q: int)
    requires Probing(S, home, keys) && Probing(T, home, keys) && 0 <= q < |T| && T[q].Some?
    ensures Holds(S, T[q].value)
  {
    assert T[q].value in keys;
  }

  ghost predicate Distinct(T: Table) {
    forall p, q :: 0 <= p < q < |T| && T[p].Some? && T[q].Some? ==> T[p] != T[q]
  }

  ghost predicate KeptBy(S: Table, T: Table) {
    forall q :: 0 <= q < |T| && T[q].Some? ==> Holds(S, T[q].value)
  }

  lemma KeptElsewhere(S: Table, T: Table, e: int, q: int)
    requires |S| == |T| && 0 <= e < |S| && S[e].None? && KeptBy(S, T) && 0 <= q < |T| && T[q].Some?
    ensures KeptIn(S, T, q, Below(|T|) - {e})
  {
  }

  lemma NoRoom(S: Table, T: Table, e: int)
    requires |S| == |T| && 0 <= e < |S| && S[e].None? && Distinct(T) && KeptBy(S, T)
    ensures HasEmpty(T)
  {
    if !HasEmpty(T) {
      var D := Below(|T|);
      var q := SomeoneLeaves(S, T, D, e);
      KeptElsewhere(S, T, e, q);
    }
  }

  lemma FullTogether(S: Table, T: Table, home: Str -> nat, keys: set<Str>, e: int)
    requires |S| == |T| && Probing(S, home, keys) && Probing(T, home, keys)
    requires 0 <= e < |S| && S[e].None?
    ensures HasEmpty(T)
  {
    forall q | 0 <= q < |T| && T[q].Some? ensures Holds(S, T[q].value) {
      KeptInBoth(S, T, home, keys, q);
    }
    NoRoom(S, T, e);
  }

  ghost predicate SameTaken(S: Table, T: Table) {
    |S| == |T| && forall i :: 0 <= i < |S| ==> (S[i].None? <==> T[i].None?)
  }

  /** Tables of the same keys have the same slots taken. */
  lemma TakenIsDetermined(S: Table, T: Table, home: Str -> nat, keys: set<Str>)
    requires |S| == |T| && Probing(S, home, keys) && Probing(T, home, keys) && HasEmpty(S)
    ensures SameTaken(S, T) && HasEmpty(T)
  {
    var e :| 0 <= e < |S| && S[e].None?;
    FullTogether(S, T, home, keys, e);
    var f :| 0 <= f < |T| && T[f].None?;
    forall i | 0 <= i < |S| ensures S[i].None? <==> T[i].None? {
      if S[i].None? { SameEmpty(S, T, home, keys, i, f); }
      if T[i].None? { SameEmpty(T, S, home, keys, i, e); }
    }
  }

  // ----- The same keys share a run -----

  ghost function KeysIn(T: Table, i: int, j: int): (r: set<Str>)
    requires 0 <= i <= j <= |T|
    ensures forall x :: x in r <==> exists q :: i <= q < j && T[q] == Some(x)
    decreases j - i
  {
    if i == j then {} else KeysIn(T, i, j - 1) + if T[j - 1].Some? then {T[j - 1].value} else {}
  }

  ghost predicate Taken(T: Table, i: int, j: int)
    requires 0 <= i <= j <= |T|
  {
    forall q :: i <= q < j ==> T[q].Some?
  }

  /** A run between two empty slots holds exactly the keys whose homes are in it. */
  lemma RunKeys(T: Table, home: Str -> nat, keys: set<Str>, i: int, j: int, x: Str)
    requires Probing(T, home, keys) && 0 < i <= j < |T| && T[i - 1].None? && T[j].None?
    ensures x in KeysIn(T, i, j) <==> x in keys && i <= home(x) < j
  {
    if x in KeysIn(T, i, j) {
      var q :| i <= q < j && T[q] == Some(x);
      assert Reached(T, home(x), q);
    }
    if x in keys && i <= home(x) < j {
      assert Holds(T, x);
      var q := PositionOf(T, x);
      assert Reached(T, home(x), q);
    }
  }

  /** The run across the end of the shard, likewise. */
  lemma WrappedRunKeys(T: Table, home: Str -> nat, keys: set<Str>, end: int, i: int, x: Str)
    requires Probing(T, home, keys) && 0 <= i < end <= |T| && T[end - 1].None? && T[i].None?
    ensures x in KeysIn(T, end, |T|) + KeysIn(T, 0, i) <==>
            x in keys && home(x) < |T| && (end <= home(x) || home(x) < i)
  {
    if x in KeysIn(T, end, |T|) {
      var q :| end <= q < |T| && T[q] == Some(x);
      assert Reached(T, home(x), q);
    }
    if x in KeysIn(T, 0, i) {
      var q :| 0 <= q < i && T[q] == Some(x);
      assert Reached(T, home(x), q);
    }
    if x in keys && home(x) < |T| && (end <= home(x) || home(x) < i) {
      assert Holds(T, x);
      var q := PositionOf(T, x);
      assert Reached(T, home(x), q);
    }
  }

  // ----- Sorted keys -----

  /** Shorter keys first, then memcmp order. */
  predicate KeyLess(a: Str, b: Str) { |a| < |b| || (|a| == |b| && Less(a, b)) }

  lemma KeyLessIsTotal(a: Str, b: Str)
    ensures KeyLess(a, b) || a == b || KeyLess(b, a)
    ensures !(KeyLess(a, b) && KeyLess(b, a)) && (KeyLess(a, b) ==> a != b)
  {
    LessIsTotal(a, b);
  }

  lemma KeyLessIsTransitive(a: Str, b: Str, c: Str)
    requires KeyLess(a, b) && KeyLess(b, c)
    ensures KeyLess(a, c)
  {
    if |a| == |b| == |c| { LessIsTransitive(a, b, c); }
  }

  ghost predicate Increasing(v: seq<Str>) {
    forall i, j :: 0 <= i < j < |v| ==> KeyLess(v[i], v[j])
  }

  ghost predicate SortedFrom(v: seq<Str>, keys: set<Str>) {
    Increasing(v) && forall x :: x in v <==> x in keys
  }

  /** A set of keys has only one increasing arrangement. */
  lemma {:induction false} SortedIsUnique(v: seq<Str>, w: seq<Str>, keys: set<Str>)
    requires SortedFrom(v, keys) && SortedFrom(w, keys)
    ensures v == w
    decreases |v|
  {
    if v == [] {
      if w != [] { SomeIn(w); }
    } else {
      assert v[0] in v && v[0] in keys && v[0] in w;
      assert w[0] in w && w[0] in keys && w[0] in v;
      KeyLessIsTotal(v[0], w[0]);
      assert v[0] == w[0];
      forall x ensures x in v[1..] <==> x in keys - {v[0]} { Rest(v, keys, x); }
      forall x ensures x in w[1..] <==> x in keys - {v[0]} { Rest(w, keys, x); }
      SortedIsUnique(v[1..], w[1..], keys - {v[0]});
      assert v == [v[0]] + v[1..] && w == [w[0]] + w[1..];
    }
  }

  lemma SomeIn(v: seq<Str>)
    requires v != []
    ensures exists x :: x in v
  {
    assert v[0] in v;
  }

  lemma Rest(v: seq<Str>, keys: set<Str>, x: Str)
    requires SortedFrom(v, keys) && v != []
    ensures x in v[1..] <==> x in keys - {v[0]}
  {
    KeyLessIsTotal(v[0], v[0]);
    if x in v[1..] {
      var i :| 0 <= i < |v[1..]| && v[1..][i] == x;
      assert KeyLess(v[0], v[i + 1]);
    }
    assert v == [v[0]] + v[1..];
  }

  /** Stands in for std::sort on distinct keys. */
  method SortKeys(vec: seq<Str>) returns (r: seq<Str>)
    requires forall i, j :: 0 <= i < j < |vec| ==> vec[i] != vec[j]
    ensures SortedFrom(r, set x | x in vec)
  {
    r := [];
    for n := 0 to |vec|
      invariant SortedFrom(r, set x | x in vec[..n])
    {
      var key, k := vec[n], |r|;
      while k > 0 && KeyLess(key, r[k - 1])
        invariant 0 <= k <= |r| && (k < |r| ==> KeyLess(key, r[k]))
      {
        k := k - 1;
      }
      if k > 0 {
        KeyLessIsTotal(key, r[k - 1]);
        assert r[k - 1] in r;
      }
      InsertIncreasing(r, k, key);
      assert vec[..n + 1] == vec[..n] + [key];
      r := r[..k] + [key] + r[k..];
    }
    assert vec[..|vec|] == vec;
  }

  lemma InsertIncreasing(r: seq<Str>, k: int, key: Str)
    requires Increasing(r) && 0 <= k <= |r|
    requires (k > 0 ==> KeyLess(r[k - 1], key)) && (k < |r| ==> KeyLess(key, r[k]))
    ensures Increasing(r[..k] + [key] + r[k..])
    ensures forall x :: x in r[..k] + [key] + r[k..] <==> x in r || x == key
  {
    var s := r[..k] + [key] + r[k..];
    forall i, j | 0 <= i < j < |s| ensures KeyLess(s[i], s[j]) {
      if i < k - 1 && j == k { KeyLessIsTransitive(r[i], r[k - 1], key); }
      if i == k && j > k + 1 { KeyLessIsTransitive(key, r[k], r[j - 1]); }
    }
    assert r == r[..k] + r[k..];
  }

  lemma {:induction false} SortedExists(keys: set<Str>) returns (v: seq<Str>)
    ensures SortedFrom(v, keys)
    decreases keys
  {
    if keys == {} {
      v := [];
    } else {
      var key := AnyOf(keys);
      var w := SortedExists(keys - {key});
      var k := |w|;
      while k > 0 && KeyLess(key, w[k - 1])
        invariant 0 <= k <= |w| && (k < |w| ==> KeyLess(key, w[k]))
      {
        k := k - 1;
      }
      if k > 0 {
        KeyLessIsTotal(key, w[k - 1]);
        assert w[k - 1] in w;
      }
      InsertIncreasing(w, k, key);
      v := w[..k] + [key] + w[k..];
    }
  }

  ghost function SortedOf(keys: set<Str>): (v: seq<Str>)
    ensures SortedFrom(v, keys)
  {
    assert exists v :: SortedFrom(v, keys) by {
      var v := SortedExists(keys);
    }
    var v :| SortedFrom(v, keys);
    v
  }

  // ----- Listing a shard -----

  /** Where the run of taken slots at the end of the shard begins. */
  ghost function TailStart(T: Table, end: nat): (r: nat)
    requires end <= |T|
    ensures r <= end && Taken(T, r, end) && (r > 0 ==> T[r - 1].None?)
  {
    if end > 0 && T[end - 1].Some? then TailStart(T, end - 1) else end
  }

  ghost function RunEnd(T: Table, i: nat, end: nat): (r: nat)
    requires i <= end <= |T|
    ensures i <= r <= end && Taken(T, i, r) && (r < end ==> T[r].None?)
    decreases end - i
  {
    if i < end && T[i].Some? then RunEnd(T, i + 1, end) else i
  }

  ghost function SkipEmpty(T: Table, i: nat, end: nat): (r: nat)
    requires i <= end <= |T|
    ensures i <= r <= end && (forall q :: i <= q < r ==> T[q].None?) && (r < end ==> T[r].Some?)
    decreases end - i
  {
    if i < end && T[i].None? then SkipEmpty(T, i + 1, end) else i
  }

  /** The runs from i on, each in key order. `before` joins the first of them. */
  ghost function ListRuns(T: Table, before: set<Str>, i: nat, end: nat): seq<Str>
    requires i <= end <= |T|
    decreases end - i
  {
    if i == end then [] else
      var j := RunEnd(T, i, end);
      SortedOf(before + KeysIn(T, i, j)) + ListRuns(T, {}, SkipEmpty(T, j, end), end)
  }

  /** What get_sorted_entries() lists. A full shard is listed backwards, unsorted. */
  ghost function Listing(T: Table): seq<Str> {
    var end := TailStart(T, |T|);
    if end == 0 then Backwards(T) else ListRuns(T, KeysIn(T, end, |T|), 0, end)
  }

  ghost function Backwards(T: Table): (r: seq<Str>)
    ensures Taken(T, 0, |T|) ==> |r| == |T| && forall i :: 0 <= i < |T| ==> T[i] == Some(r[|T| - 1 - i])
  {
    if T == [] then [] else
      (if T[|T| - 1].Some? then [T[|T| - 1].value] else []) + Backwards(T[..|T| - 1])
  }

  lemma {:induction false} SameTail(S: Table, T: Table, end: nat)
    requires SameTaken(S, T) && end <= |T|
    ensures TailStart(S, end) == TailStart(T, end)
  {
    if end > 0 && T[end - 1].Some? { SameTail(S, T, end - 1); }
  }

  lemma {:induction false} SameRunEnd(S: Table, T: Table, i: nat, end: nat)
    requires SameTaken(S, T) && i <= end <= |T|
    ensures RunEnd(S, i, end) == RunEnd(T, i, end)
    decreases end - i
  {
    if i < end && T[i].Some? { SameRunEnd(S, T, i + 1, end); }
  }

  lemma {:induction false} SameSkip(S: Table, T: Table, i: nat, end: nat)
    requires SameTaken(S, T) && i <= end <= |T|
    ensures SkipEmpty(S, i, end) == SkipEmpty(T, i, end)
    decreases end - i
  {
    if i < end && T[i].None? { SameSkip(S, T, i + 1, end); }
  }

  lemma {:induction false} SameRuns(S: Table, T: Table, home: Str -> nat, keys: set<Str>, i: nat, end: nat)
    requires SameTaken(S, T) && Probing(S, home, keys) && Probing(T, home, keys)
    requires 0 < i <= end <= |T| && T[end - 1].None? && (i < end ==> T[i - 1].None?)
    ensures ListRuns(S, {}, i, end) == ListRuns(T, {}, i, end)
    decreases end - i
  {
    if i < end {
      var j := RunEnd(T, i, end);
      SameRunEnd(S, T, i, end);
      assert j < end;
      forall x ensures x in KeysIn(S, i, j) <==> x in KeysIn(T, i, j) {
        RunKeys(S, home, keys, i, j, x);
        RunKeys(T, home, keys, i, j, x);
      }
      assert KeysIn(S, i, j) == KeysIn(T, i, j);
      SameSkip(S, T, j, end);
      SameRuns(S, T, home, keys, SkipEmpty(T, j, end), end);
    }
  }

  /** Tables of the same keys are listed alike, as long as one bucket is empty. */
  lemma SameListing(S: Table, T: Table, home: Str -> nat, keys: set<Str>)
    requires |S| == |T| && Probing(S, home, keys) && Probing(T, home, keys) && HasEmpty(S)
    ensures Listing(S) == Listing(T)
  {
    TakenIsDetermined(S, T, home, keys);
    var end := TailStart(T, |T|);
    SameTail(S, T, |T|);
    var j := RunEnd(T, 0, end);
    SameRunEnd(S, T, 0, end);
    assert end > 0 && T[end - 1].None?;
    assert j < end;
    forall x ensures x in KeysIn(S, end, |S|) + KeysIn(S, 0, j) <==> x in KeysIn(T, end, |T|) + KeysIn(T, 0, j) {
      WrappedRunKeys(S, home, keys, end, j, x);
      WrappedRunKeys(T, home, keys, end, j, x);
    }
    assert KeysIn(S, end, |S|) + KeysIn(S, 0, j) == KeysIn(T, end, |T|) + KeysIn(T, 0, j);
    SameSkip(S, T, j, end);
    SameRuns(S, T, home, keys, SkipEmpty(T, j, end), end);
  }

  /** The listing of a full shard gives away its layout. */
  lemma FullListingKeepsLayout(S: Table, T: Table)
    requires |S| == |T| && !HasEmpty(S) && !HasEmpty(T)
    ensures Listing(S) == Listing(T) <==> S == T
  {
    assert Taken(S, 0, |S|) && Taken(T, 0, |T|);
    if Listing(S) == Listing(T) {
      forall i | 0 <= i < |S| ensures S[i] == T[i] {
        assert S[i] == Some(Backwards(S)[|S| - 1 - i]);
      }
    }
  }

  // ----- The listing has every key once -----

  ghost predicate NoRepeat(v: seq<Str>) { forall i, j :: 0 <= i < j < |v| ==> v[i] != v[j] }

  ghost predicate Collected(v: seq<Str>, keys: set<Str>) { NoRepeat(v) && forall x :: x in v <==> x in keys }

  lemma NewKey(T: Table, i: int, j: int, p: int)
    requires Distinct(T) && 0 <= i <= j <= |T| && 0 <= p < |T| && T[p].Some? && (p < i || j <= p)
    ensures T[p].value !in KeysIn(T, i, j)
  {
  }

  lemma SortedIsCollected(v: seq<Str>, keys: set<Str>)
    requires SortedFrom(v, keys)
    ensures Collected(v, keys)
  {
    forall i, j | 0 <= i < j < |v| ensures v[i] != v[j] { KeyLessIsTotal(v[i], v[j]); }
  }

  lemma JoinCollected(v: seq<Str>, w: seq<Str>, a: set<Str>, b: set<Str>)
    requires Collected(v, a) && Collected(w, b) && a !! b
    ensures Collected(v + w, a + b)
  {
    var s := v + w;
    forall i, j | 0 <= i < j < |s| ensures s[i] != s[j] {
      if i < |v| <= j { assert s[i] in v && s[j] in w; }
    }
  }

  ghost predicate NoneIn(T: Table, i: nat, end: nat, keys: set<Str>)
    requires end <= |T|
  {
    forall p :: i <= p < end && T[p].Some? ==> T[p].value !in keys
  }

  lemma RunsApart(T: Table, before: set<Str>, i: nat, end: nat)
    requires Distinct(T) && i <= end <= |T| && NoneIn(T, i, end, before)
    ensures var j := RunEnd(T, i, end); var k := SkipEmpty(T, j, end);
      && (before + KeysIn(T, i, j)) !! KeysIn(T, k, end)
      && before + KeysIn(T, i, end) == (before + KeysIn(T, i, j)) + KeysIn(T, k, end)
  {
    var j := RunEnd(T, i, end);
    var k := SkipEmpty(T, j, end);
    forall x | x in KeysIn(T, k, end) ensures x !in KeysIn(T, i, j) && x !in before {
      var p :| k <= p < end && T[p] == Some(x);
      NewKey(T, i, j, p);
    }
  }

  lemma {:induction false} RunsCollected(T: Table, before: set<Str>, i: nat, end: nat)
    requires Distinct(T) && i <= end <= |T| && NoneIn(T, i, end, before) && (i == end ==> before == {})
    ensures Collected(ListRuns(T, before, i, end), before + KeysIn(T, i, end))
    decreases end - i
  {
    if i < end {
      var j := RunEnd(T, i, end);
      var k := SkipEmpty(T, j, end);
      SortedIsCollected(SortedOf(before + KeysIn(T, i, j)), before + KeysIn(T, i, j));
      RunsCollected(T, {}, k, end);
      assert {} + KeysIn(T, k, end) == KeysIn(T, k, end);
      RunsApart(T, before, i, end);
      JoinCollected(SortedOf(before + KeysIn(T, i, j)), ListRuns(T, {}, k, end), before + KeysIn(T, i, j),
                    KeysIn(T, k, end));
    }
  }

  lemma {:induction false} BackwardsMembers(T: Table)
    requires Distinct(T)
    ensures NoRepeat(Backwards(T)) && forall x :: x in Backwards(T) <==> Some(x) in T
  {
    if T != [] {
      var last, rest := T[|T| - 1], T[..|T| - 1];
      assert T == rest + [last];
      BackwardsMembers(rest);
      if last.Some? {
        assert last !in rest;
        assert Backwards(T) == [last.value] + Backwards(rest);
      }
    }
  }

  lemma BackwardsCollected(T: Table)
    requires Distinct(T)
    ensures Collected(Backwards(T), KeysIn(T, 0, |T|))
  {
    BackwardsMembers(T);
  }

  lemma KeysAround(T: Table, end: nat)
    requires end <= |T|
    ensures KeysIn(T, end, |T|) + KeysIn(T, 0, end) == KeysIn(T, 0, |T|)
  {
  }

  /** The listing of a shard, full or not, has each of its keys exactly once. */
  lemma ListingCollects(T: Table)
    requires Distinct(T)
    ensures Collected(Listing(T), KeysIn(T, 0, |T|))
  {
    var end := TailStart(T, |T|);
    if end == 0 {
      BackwardsCollected(T);
    } else {
      var before := KeysIn(T, end, |T|);
      forall p | 0 <= p < end && T[p].Some? ensures T[p].value !in before { NewKey(T, end, |T|, p); }
      RunsCollected(T, before, 0, end);
      KeysAround(T, end);
    }
  }

  lemma ProbingKeys(T: Table, home: Str -> nat, keys: set<Str>)
    requires Probing(T, home, keys)
    ensures KeysIn(T, 0, |T|) == keys
  {
    forall x | x in keys ensures x in KeysIn(T, 0, |T|) { assert Holds(T, x); }
  }

  lemma ListsTheKeys(T: Table, home: Str -> nat, keys: set<Str>)
    requires Probing(T, home, keys)
    ensures Collected(Listing(T), keys)
  {
    ListingCollects(T);
    ProbingKeys(T, home, keys);
  }

  lemma {:induction false} CollectedLength(v: seq<Str>, keys: set<Str>)
    requires Collected(v, keys)
    ensures |v| == |keys|
    decreases |v|
  {
    if v == [] {
      assert keys == {};
    } else {
      var x, rest := v[|v| - 1], v[..|v| - 1];
      assert v == rest + [x] && x in v;
      CollectedLength(rest, keys - {x});
    }
  }

  lemma TakenOneMore(T: Table, n: nat)
    requires |T| == n + 1
    ensures Taken(T, 0, |T|) <==> Taken(T[..n], 0, |T[..n]|) && T[n].Some?
  {
    if Taken(T[..n], 0, |T[..n]|) {
      forall q | 0 <= q < n ensures T[q].Some? { assert T[..n][q].Some?; }
    }
  }

  lemma {:induction false} TakenLength(T: Table)
    ensures |Backwards(T)| <= |T| && (|Backwards(T)| == |T| <==> Taken(T, 0, |T|))
  {
    if T != [] {
      var n := |T| - 1;
      TakenLength(T[..n]);
      TakenOneMore(T, n);
    }
  }

  /** A shard has an empty bucket exactly if it has fewer keys than buckets. */
  lemma EmptyIffFewer(T: Table, home: Str -> nat, keys: set<Str>)
    requires Probing(T, home, keys)
    ensures HasEmpty(T) <==> |keys| < |T|
  {
    ProbingKeys(T, home, keys);
    BackwardsCollected(T);
    CollectedLength(Backwards(T), keys);
    TakenLength(T);
  }

  // ----- get_sorted_entries() -----

  lemma CollectOne(v: seq<Str>, keys: set<Str>, x: Str)
    requires Collected(v, keys) && x !in keys
    ensures Collected(v + [x], keys + {x})
  {
  }

  ghost predicate TailTaken(T: Table, vec: seq<Str>, end: nat) {
    && end <= |T| && TailStart(T, end) == TailStart(T, |T|)
    && Collected(vec, KeysIn(T, end, |T|)) && vec + Backwards(T[..end]) == Backwards(T)
  }

  lemma TailStep(T: Table, vec: seq<Str>, end: nat)
    requires Distinct(T) && TailTaken(T, vec, end) && 0 < end && T[end - 1].Some?
    ensures TailTaken(T, vec + [T[end - 1].value], end - 1)
  {
    var x := T[end - 1].value;
    NewKey(T, end, |T|, end - 1);
    KeysInFront(T, end - 1, |T|);
    CollectOne(vec, KeysIn(T, end, |T|), x);
    BackwardsStep(T, end, x);
    Regroup(vec, x, Backwards(T[..end - 1]));
  }

  lemma BackwardsStep(T: Table, end: nat, x: Str)
    requires 0 < end <= |T| && T[end - 1] == Some(x)
    ensures Backwards(T[..end]) == [x] + Backwards(T[..end - 1])
  {
    assert T[..end][..end - 1] == T[..end - 1];
  }

  lemma Regroup(vec: seq<Str>, x: Str, rest: seq<Str>)
    ensures vec + ([x] + rest) == (vec + [x]) + rest
  {
  }

  lemma TailStarts(T: Table)
    ensures TailTaken(T, [], |T|)
  {
    assert T[..|T|] == T;
    assert [] + Backwards(T) == Backwards(T);
  }

  lemma TailEnds(T: Table, vec: seq<Str>, end: nat)
    requires TailTaken(T, vec, end) && (end == 0 || T[end - 1].None?)
    ensures end == TailStart(T, |T|) && Collected(vec, KeysIn(T, end, |T|)) && (end == 0 ==> vec == Backwards(T))
  {
    assert vec + [] == vec;
  }

  /** The taken slots at the end of the shard come first, as they are next to its beginning. */
  method TakeTail(T: Table) returns (vec: seq<Str>, end: nat)
    requires Distinct(T)
    ensures end == TailStart(T, |T|) && Collected(vec, KeysIn(T, end, |T|))
    ensures end == 0 ==> vec == Backwards(T)
  {
    vec, end := [], |T|;
    TailStarts(T);
    while 0 < end && T[end - 1].Some?
      invariant TailTaken(T, vec, end)
    {
      var x := T[end - 1].value;
      TailStep(T, vec, end);
      vec, end := vec + [x], end - 1;
    }
    TailEnds(T, vec, end);
  }

  lemma {:induction false} KeysInFront(T: Table, i: int, j: int)
    requires 0 <= i < j <= |T| && T[i].Some?
    ensures KeysIn(T, i, j) == KeysIn(T, i + 1, j) + {T[i].value}
    decreases j
  {
    if i + 1 < j { KeysInFront(T, i, j - 1); }
  }

  /** Adds the run at i to the keys collected so far. */
  method TakeRun(T: Table, vec: seq<Str>, i: nat, end: nat, ghost before: set<Str>)
    returns (v: seq<Str>, j: nat)
    requires Distinct(T) && i <= end <= |T| && Collected(vec, before)
    requires forall p :: i <= p < end && T[p].Some? ==> T[p].value !in before
    ensures j == RunEnd(T, i, end) && Collected(v, before + KeysIn(T, i, j))
  {
    v, j := vec, i;
    assert before + KeysIn(T, i, i) == before;
    while j < end && T[j].Some?
      invariant i <= j <= end && RunEnd(T, j, end) == RunEnd(T, i, end)
      invariant Collected(v, before + KeysIn(T, i, j))
    {
      NewKey(T, i, j, j);
      CollectOne(v, before + KeysIn(T, i, j), T[j].value);
      assert before + KeysIn(T, i, j) + {T[j].value} == before + KeysIn(T, i, j + 1);
      v := v + [T[j].value];
      j := j + 1;
    }
  }

  /** Collects one run and puts it in key order. */
  method SortRun(T: Table, vec: seq<Str>, i: nat, end: nat, ghost before: set<Str>)
    returns (v: seq<Str>, j: nat)
    requires Distinct(T) && i <= end <= |T| && Collected(vec, before)
    requires forall p :: i <= p < end && T[p].Some? ==> T[p].value !in before
    ensures j == RunEnd(T, i, end) && v == SortedOf(before + KeysIn(T, i, j))
  {
    v, j := TakeRun(T, vec, i, end, before);
    v := SortKeys(v);
    SortedIsUnique(v, SortedOf(before + KeysIn(T, i, j)), before + KeysIn(T, i, j));
  }

  method Skip(T: Table, i: nat, end: nat) returns (j: nat)
    requires i <= end <= |T|
    ensures j == SkipEmpty(T, i, end)
  {
    j := i;
    while j < end && T[j].None?
      invariant i <= j <= end && SkipEmpty(T, j, end) == SkipEmpty(T, i, end)
    {
      j := j + 1;
    }
  }

  lemma ListStep(T: Table, vec: seq<Str>, before: set<Str>, i: nat, end: nat)
    requires i < end <= |T|
    ensures var j := RunEnd(T, i, end);
      vec + ListRuns(T, before, i, end)
      == (vec + SortedOf(before + KeysIn(T, i, j))) + ListRuns(T, {}, SkipEmpty(T, j, end), end)
  {
    var j := RunEnd(T, i, end);
    var run, rest := SortedOf(before + KeysIn(T, i, j)), ListRuns(T, {}, SkipEmpty(T, j, end), end);
    assert ListRuns(T, before, i, end) == run + rest;
    assert vec + (run + rest) == (vec + run) + rest;
  }

  method GetSortedEntries(T: Table) returns (vec: seq<Str>)
    requires Distinct(T)
    ensures vec == Listing(T) && Collected(vec, KeysIn(T, 0, |T|))
  {
    ListingCollects(T);
    var pending, end := TakeTail(T);
    if end == 0 { return pending; }
    ghost var before := KeysIn(T, end, |T|);
    forall p | 0 <= p < end && T[p].Some? ensures T[p].value !in before {
      NewKey(T, end, |T|, p);
    }
    vec := ListFrom(T, pending, end, before);
  }

  method ListFrom(T: Table, tail: seq<Str>, end: nat, ghost keys: set<Str>) returns (vec: seq<Str>)
    requires Distinct(T) && end <= |T| && Collected(tail, keys)
    requires forall p :: 0 <= p < end && T[p].Some? ==> T[p].value !in keys
    ensures vec == ListRuns(T, keys, 0, end)
  {
    vec := [];
    var pending, i := tail, 0;
    ghost var before := keys;
    while i < end
      invariant i <= end && Collected(pending, before)
      invariant vec + ListRuns(T, before, i, end) == ListRuns(T, keys, 0, end)
      invariant forall p :: i <= p < end && T[p].Some? ==> T[p].value !in before
    {
      ListStep(T, vec, before, i, end);
      var run, j := SortRun(T, pending, i, end, before);
      vec := vec + run;
      pending, before := [], {};
      i := Skip(T, j, end);
    }
  }
}
