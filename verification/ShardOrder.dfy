/** In which order get_sorted_entries() lists a shard, read off the slots. */
module ShardOrder {
  import opened Bytes
  import opened ShardTable
  import opened Wrappers

  /** Shorter keys first; of two equally long ones that with the smaller byte where they differ. */
  ghost predicate Precedes(x: Str, y: Str) {
    |x| < |y| || (|x| == |y| && exists i :: 0 <= i < |x| && x[..i] == y[..i] && x[i] < y[i])
  }

  lemma KeyLessPrecedes(x: Str, y: Str)
    ensures KeyLess(x, y) <==> Precedes(x, y)
  {
    LessMeaning(x, y);
    if |x| == |y| {
      if i :| DiffersAt(x, y, i) {
        assert 0 <= i < |x| && x[..i] == y[..i] && x[i] < y[i];
      }
      if i :| 0 <= i < |x| && x[..i] == y[..i] && x[i] < y[i] {
        assert DiffersAt(x, y, i);
      }
    }
  }

  /** No empty slot separates p and q, one way around the shard. */
  ghost predicate SameRun(T: Table, p: int, q: int) { Reached(T, p, q) || Reached(T, q, p) }

  /** Runs come in the order of their slots, but the one that reaches the end of the shard first. */
  ghost function Turn(T: Table, p: int): int {
    if forall r :: p <= r < |T| && 0 <= r ==> T[r].Some? then -1 else p
  }

  /** The key in slot p is to be listed before the one in slot q. */
  ghost predicate Before(T: Table, p: int, q: int)
    requires 0 <= p < |T| && 0 <= q < |T| && T[p].Some? && T[q].Some?
  {
    if SameRun(T, p, q) then Precedes(T[p].value, T[q].value) else Turn(T, p) < Turn(T, q)
  }

  /** The shard up to i has been listed, and what wraps around its end. */
  ghost predicate Later(T: Table, i: nat, end: nat) {
    && Distinct(T) && i <= end <= |T| && 0 < end && T[end - 1].None? && Taken(T, end, |T|)
    && (0 < i < end ==> T[i - 1].None?)
  }

  /** `before` are the keys at the end of the shard, if they belong to the run at i. */
  ghost predicate Underway(T: Table, before: set<Str>, i: nat, end: nat) {
    && Later(T, i, end)
    && (if i == 0 then before == KeysIn(T, end, |T|) else before == {})
  }

  lemma OneSlot(T: Table, p: int, i: int, j: int)
    requires Distinct(T) && 0 <= i <= j <= |T| && 0 <= p < |T| && T[p].Some? && T[p].value in KeysIn(T, i, j)
    ensures i <= p < j
  {
    var q :| i <= q < j && T[q] == T[p];
  }

  /** A key of the first run is in its slots or, around the end, in the last ones. */
  lemma InFirstRun(T: Table, before: set<Str>, i: nat, end: nat, p: int)
    requires Underway(T, before, i, end) && 0 <= p < |T| && T[p].Some?
    requires T[p].value in before + KeysIn(T, i, RunEnd(T, i, end))
    ensures i <= p < RunEnd(T, i, end) || (i == 0 && end <= p)
  {
    if T[p].value in before { OneSlot(T, p, end, |T|); } else { OneSlot(T, p, i, RunEnd(T, i, end)); }
  }

  lemma FirstRunIsOne(T: Table, before: set<Str>, i: nat, end: nat, p: int, q: int)
    requires Underway(T, before, i, end) && 0 <= p < |T| && 0 <= q < |T|
    requires i <= p < RunEnd(T, i, end) || (i == 0 && end <= p)
    requires i <= q < RunEnd(T, i, end) || (i == 0 && end <= q)
    ensures SameRun(T, p, q)
  {
    var j := RunEnd(T, i, end);
    if p < j && q < j {
      assert if p <= q then Reached(T, p, q) else Reached(T, q, p);
    } else if end <= p && end <= q {
      assert if p <= q then Reached(T, p, q) else Reached(T, q, p);
    } else if end <= p {
      assert Reached(T, p, q);
    } else {
      assert Reached(T, q, p);
    }
  }

  lemma NextRunIsLater(T: Table, before: set<Str>, i: nat, end: nat, p: int, q: int)
    requires Underway(T, before, i, end) && i < end && 0 <= p < |T| && 0 <= q < |T| && T[p].Some? && T[q].Some?
    requires i <= p < RunEnd(T, i, end) || (i == 0 && end <= p)
    requires SkipEmpty(T, RunEnd(T, i, end), end) <= q < end
    ensures !SameRun(T, p, q) && Turn(T, p) < Turn(T, q)
  {
    var j := RunEnd(T, i, end);
    assert j < end && T[j].None? && j < q && q < end - 1;
    if p < j {
      assert Between(p, j, q) && Between(q, end - 1, p);
    } else {
      assert Between(p, j, q) && Between(q, end - 1, p);
    }
  }

  ghost predicate HeldAt(T: Table, p: int, x: Str) { 0 <= p < |T| && T[p] == Some(x) }

  ghost predicate KeyBefore(T: Table, x: Str, y: Str) {
    forall p, q :: HeldAt(T, p, x) && HeldAt(T, q, y) ==> Before(T, p, q)
  }

  /** Every key in the list is to be listed before the later ones. */
  ghost predicate InOrder(T: Table, v: seq<Str>) {
    forall a, b :: 0 <= a < b < |v| ==> KeyBefore(T, v[a], v[b])
  }

  ghost predicate AllBefore(T: Table, v: seq<Str>, w: seq<Str>) {
    forall x, y :: x in v && y in w ==> KeyBefore(T, x, y)
  }

  lemma JoinInOrder(T: Table, v: seq<Str>, w: seq<Str>)
    requires InOrder(T, v) && InOrder(T, w) && AllBefore(T, v, w)
    ensures InOrder(T, v + w)
  {
    var u := v + w;
    forall a, b | 0 <= a < b < |u| ensures KeyBefore(T, u[a], u[b]) {
      if a < |v| <= b { assert u[a] in v && u[b] in w; }
    }
  }

  ghost function FirstRun(T: Table, before: set<Str>, i: nat, end: nat): seq<Str>
    requires i <= end <= |T|
  {
    SortedOf(before + KeysIn(T, i, RunEnd(T, i, end)))
  }

  ghost function NextRun(T: Table, i: nat, end: nat): (k: nat)
    requires i <= end <= |T|
    ensures i <= k <= end
  {
    SkipEmpty(T, RunEnd(T, i, end), end)
  }

  lemma NextIsLater(T: Table, i: nat, end: nat)
    requires Later(T, i, end) && i < end
    ensures Later(T, NextRun(T, i, end), end) && i < NextRun(T, i, end)
  {
    var j := RunEnd(T, i, end);
    assert j < end && T[j].None?;
  }

  lemma FirstInOrder(T: Table, before: set<Str>, i: nat, end: nat)
    requires Underway(T, before, i, end)
    ensures InOrder(T, FirstRun(T, before, i, end))
  {
    var run := FirstRun(T, before, i, end);
    forall a, b | 0 <= a < b < |run| ensures KeyBefore(T, run[a], run[b]) {
      assert run[a] in run && run[b] in run && KeyLess(run[a], run[b]);
      WithinRun(T, before, i, end, run[a], run[b]);
    }
  }

  lemma WithinRun(T: Table, before: set<Str>, i: nat, end: nat, x: Str, y: Str)
    requires Underway(T, before, i, end) && KeyLess(x, y)
    requires x in before + KeysIn(T, i, RunEnd(T, i, end)) && y in before + KeysIn(T, i, RunEnd(T, i, end))
    ensures KeyBefore(T, x, y)
  {
    forall p, q | HeldAt(T, p, x) && HeldAt(T, q, y) ensures Before(T, p, q) {
      InFirstRun(T, before, i, end, p);
      InFirstRun(T, before, i, end, q);
      FirstRunIsOne(T, before, i, end, p, q);
      KeyLessPrecedes(x, y);
    }
  }

  lemma AcrossRuns(T: Table, before: set<Str>, i: nat, end: nat, x: Str, y: Str)
    requires Underway(T, before, i, end) && i < end
    requires x in before + KeysIn(T, i, RunEnd(T, i, end)) && y in KeysIn(T, NextRun(T, i, end), end)
    ensures KeyBefore(T, x, y)
  {
    forall p, q | HeldAt(T, p, x) && HeldAt(T, q, y) ensures Before(T, p, q) {
      InFirstRun(T, before, i, end, p);
      OneSlot(T, q, NextRun(T, i, end), end);
      NextRunIsLater(T, before, i, end, p, q);
    }
  }

  lemma FirstBeforeRest(T: Table, before: set<Str>, i: nat, end: nat)
    requires Underway(T, before, i, end) && i < end
    ensures AllBefore(T, FirstRun(T, before, i, end), ListRuns(T, {}, NextRun(T, i, end), end))
  {
    var k := NextRun(T, i, end);
    RunsCollected(T, {}, k, end);
    forall x, y | x in FirstRun(T, before, i, end) && y in ListRuns(T, {}, k, end) ensures KeyBefore(T, x, y) {
      assert y in {} + KeysIn(T, k, end);
      AcrossRuns(T, before, i, end, x, y);
    }
  }

  lemma {:induction false} RunsInOrder(T: Table, before: set<Str>, i: nat, end: nat)
    requires Underway(T, before, i, end)
    ensures InOrder(T, ListRuns(T, before, i, end))
    decreases end - i
  {
    if i < end {
      var run, rest := FirstRun(T, before, i, end), ListRuns(T, {}, NextRun(T, i, end), end);
      NextIsLater(T, i, end);
      RunsInOrder(T, {}, NextRun(T, i, end), end);
      FirstInOrder(T, before, i, end);
      FirstBeforeRest(T, before, i, end);
      JoinInOrder(T, run, rest);
    }
  }

  /** Of two keys in the listing of a shard that is not full, the earlier one precedes the other in
      their run of taken slots, or is in an earlier run. A full shard is listed backwards. */
  lemma ListingOrder(T: Table, a: nat, b: nat, p: int, q: int)
    requires Distinct(T) && a < b < |Listing(T)| && HeldAt(T, p, Listing(T)[a]) && HeldAt(T, q, Listing(T)[b])
    ensures if HasEmpty(T) then Before(T, p, q) else q < p
  {
    var end := TailStart(T, |T|);
    if HasEmpty(T) {
      assert end > 0;
      RunsInOrder(T, KeysIn(T, end, |T|), 0, end);
      assert KeyBefore(T, Listing(T)[a], Listing(T)[b]);
    } else {
      var v := Backwards(T);
      assert T[|T| - 1 - a] == Some(v[a]) && T[|T| - 1 - b] == Some(v[b]);
    }
  }
}
