/** What get_sorted_entries() lists after concurrent insertions, and exactly when the schedule of
    the threads does not show in it. */
module ConcurrentListing {
  import opened Bytes
  import opened ShardTable
  import opened Wrappers
  import opened ConcurrentMap
  import opened ConcurrentProgress

  ghost function FinalTable(c: Config, schedule: seq<nat>): (T: Table)
    requires Completes(c, schedule)
    ensures |T| == c.size && Probing(T, c.home, KeysOf(c))
  {
    FinishedIsProbing(c, Run(c, schedule));
    TableOf(Run(c, schedule))
  }

  /** Every run lists exactly the keys it inserted, each once. */
  lemma ListsInsertedKeys(c: Config, schedule: seq<nat>)
    requires Completes(c, schedule)
    ensures Collected(Listing(FinalTable(c, schedule)), KeysOf(c))
  {
    ListsTheKeys(FinalTable(c, schedule), c.home, KeysOf(c));
  }

  ghost predicate SameKeys(c: Config, d: Config) { c.size == d.size && c.home == d.home && KeysOf(c) == KeysOf(d) }

  /** Two runs that insert the same keys, in any order and on any threads, list them alike, as
      long as there are fewer keys than buckets. */
  lemma ListingIsDeterministic(c: Config, d: Config, schedule: seq<nat>, schedule': seq<nat>)
    requires Completes(c, schedule) && Completes(d, schedule') && SameKeys(c, d) && |KeysOf(c)| < c.size
    ensures Listing(FinalTable(c, schedule)) == Listing(FinalTable(d, schedule'))
  {
    var S, T := FinalTable(c, schedule), FinalTable(d, schedule');
    EmptyIffFewer(S, c.home, KeysOf(c));
    SameListing(S, T, c.home, KeysOf(c));
  }

  // ----- Homes of their own -----

  ghost predicate DistinctHomes(home: Str -> nat, keys: set<Str>) {
    forall x, y :: x in keys && y in keys && home(x) == home(y) ==> x == y
  }

  ghost predicate AtHome(s: State) { forall t :: 0 <= t < |s.pcs| ==> s.pcs[t].k == 0 }

  lemma KeyOf(c: Config, t: nat)
    requires t < |c.jobs|
    ensures c.jobs[t].key in KeysOf(c)
  {
  }

  lemma StepAtHome(c: Config, s: State, t: nat)
    requires c.Valid() && Inv(c, s) && AtHome(s) && DistinctHomes(c.home, KeysOf(c)) && t < |c.jobs|
    ensures Probed(c, t, s.pcs[t].k) < c.size && AtHome(Step(c, s, t))
  {
    var i := Probed(c, t, 0);
    assert ThreadOk(c, s, t) && SlotOk(c, s, i);
    if s.pcs[t].Compare? {
      var o := s.owner[i];
      KeyOf(c, t);
      KeyOf(c, o);
      assert c.home(c.jobs[o].key) == Probed(c, o, 0) == c.home(c.jobs[t].key);
      assert Equal(s.entries[i], c.jobs[t].key);
    }
  }

  lemma {:induction false} RunAtHome(c: Config, schedule: seq<nat>)
    requires c.Valid() && ByThreads(c, schedule) && DistinctHomes(c.home, KeysOf(c))
    ensures AtHome(Run(c, schedule))
  {
    if schedule != [] {
      var n := |schedule| - 1;
      RunAtHome(c, schedule[..n]);
      StepAtHome(c, Run(c, schedule[..n]), schedule[n]);
    }
  }

  lemma HomeSlot(c: Config, schedule: seq<nat>, i: nat, x: Str)
    requires Completes(c, schedule) && DistinctHomes(c.home, KeysOf(c)) && i < c.size
    ensures FinalTable(c, schedule)[i] == Some(x) <==> x in KeysOf(c) && c.home(x) == i
  {
    RunAtHome(c, schedule);
    var s := Run(c, schedule);
    if FinalTable(c, schedule)[i] == Some(x) {
      TakenSlot(c, s, i);
      KeyOf(c, s.owner[i]);
      assert SlotOk(c, s, i);
    }
    if x in KeysOf(c) && c.home(x) == i {
      var t :| 0 <= t < |c.jobs| && c.jobs[t].key == x;
      assert ThreadOk(c, s, t) && Probed(c, t, 0) == i && SlotOk(c, s, i);
    }
  }

  lemma SameSlotContents(a: Option<Str>, b: Option<Str>)
    requires forall x :: a == Some(x) <==> b == Some(x)
    ensures a == b
  {
    if a.Some? { assert b == Some(a.value); }
    if b.Some? { assert a == Some(b.value); }
  }

  /** If no two keys share a home, every run leaves the same table, full or not. */
  lemma HomesDecide(c: Config, d: Config, schedule: seq<nat>, schedule': seq<nat>)
    requires Completes(c, schedule) && Completes(d, schedule') && SameKeys(c, d)
    requires DistinctHomes(c.home, KeysOf(c))
    ensures FinalTable(c, schedule) == FinalTable(d, schedule')
  {
    forall i: nat | i < c.size ensures FinalTable(c, schedule)[i] == FinalTable(d, schedule')[i] {
      forall x ensures FinalTable(c, schedule)[i] == Some(x) <==> FinalTable(d, schedule')[i] == Some(x) {
        HomeSlot(c, schedule, i, x);
        HomeSlot(d, schedule', i, x);
      }
      SameSlotContents(FinalTable(c, schedule)[i], FinalTable(d, schedule')[i]);
    }
  }

  // ----- Exchanging two creators of one home -----

  /** Insertions a and b are of different keys with one home. */
  ghost predicate Rivals(c: Config, a: nat, b: nat) {
    && a < |c.jobs| && b < |c.jobs|
    && c.jobs[a].key != c.jobs[b].key && c.home(c.jobs[a].key) == c.home(c.jobs[b].key)
  }

  /** Another insertion of one of the two keys. */
  predicate Spare(c: Config, a: nat, b: nat, t: nat)
    requires a < |c.jobs| && b < |c.jobs| && t < |c.jobs|
  {
    t != a && t != b && (c.jobs[t].key == c.jobs[a].key || c.jobs[t].key == c.jobs[b].key)
  }

  function Swap(a: nat, b: nat, t: nat): nat { if t == a then b else if t == b then a else t }

  /** The schedule with a and b exchanged and their spares left out. */
  ghost function Exchanged(c: Config, a: nat, b: nat, schedule: seq<nat>): (r: seq<nat>)
    requires a < |c.jobs| && b < |c.jobs| && ByThreads(c, schedule)
    ensures ByThreads(c, r)
  {
    if schedule == [] then [] else
      var n := |schedule| - 1;
      Exchanged(c, a, b, schedule[..n]) + if Spare(c, a, b, schedule[n]) then [] else [Swap(a, b, schedule[n])]
  }

  ghost predicate MirrorThread(c: Config, a: nat, b: nat, s: State, m: State, t: nat)
    requires Rivals(c, a, b) && Shaped(c, s) && Shaped(c, m) && t < |c.jobs|
  {
    if Spare(c, a, b, t) then m.pcs[t] == Load(0) else m.pcs[Swap(a, b, t)] == s.pcs[t]
  }

  ghost predicate MirrorSlot(c: Config, a: nat, b: nat, s: State, m: State, i: nat)
    requires Rivals(c, a, b) && Shaped(c, s) && Shaped(c, m) && i < c.size
  {
    if s.owner[i] == -1 then m.owner[i] == -1 else
      && 0 <= s.owner[i] < |c.jobs| && !Spare(c, a, b, s.owner[i])
      && m.owner[i] == Swap(a, b, s.owner[i])
  }

  /** m is s with a and b exchanged, their spares not having started. */
  ghost predicate Mirrors(c: Config, a: nat, b: nat, s: State, m: State)
    requires Rivals(c, a, b) && Shaped(c, s) && Shaped(c, m)
  {
    && (forall t: nat :: t < |c.jobs| ==> MirrorThread(c, a, b, s, m, t))
    && (forall i: nat :: i < c.size ==> MirrorSlot(c, a, b, s, m, i))
  }

  lemma SwapKeepsProbes(c: Config, a: nat, b: nat, t: nat, k: nat)
    requires Rivals(c, a, b) && t < |c.jobs|
    ensures Probed(c, Swap(a, b, t), k) == Probed(c, t, k)
  {
  }

  lemma SwapKeepsEquality(c: Config, a: nat, b: nat, t: nat, u: nat)
    requires Rivals(c, a, b) && t < |c.jobs| && u < |c.jobs| && !Spare(c, a, b, t) && !Spare(c, a, b, u)
    ensures c.jobs[Swap(a, b, t)].key == c.jobs[Swap(a, b, u)].key <==> c.jobs[t].key == c.jobs[u].key
  {
  }

  /** The entry of a slot looks alike to thread t and to its mirror image. */
  lemma MirrorEntry(c: Config, a: nat, b: nat, s: State, m: State, t: nat, i: nat)
    requires Rivals(c, a, b) && Inv(c, s) && Inv(c, m) && Mirrors(c, a, b, s, m)
    requires t < |c.jobs| && !Spare(c, a, b, t) && i < c.size
    ensures s.entries[i].key.Null? <==> m.entries[i].key.Null?
    ensures s.entries[i].key.Bytes? <==> m.entries[i].key.Bytes?
    ensures Equal(s.entries[i], c.jobs[t].key) <==> Equal(m.entries[i], c.jobs[Swap(a, b, t)].key)
  {
    assert SlotOk(c, s, i) && SlotOk(c, m, i) && MirrorSlot(c, a, b, s, m, i);
    var o := s.owner[i];
    if o != -1 {
      assert MirrorThread(c, a, b, s, m, o);
      SwapKeepsEquality(c, a, b, o, t);
    }
  }

  lemma OtherThreadMirrors(c: Config, a: nat, b: nat, s: State, m: State, t: nat, u: nat)
    requires c.Valid() && Rivals(c, a, b) && Inv(c, s) && Inv(c, m) && Mirrors(c, a, b, s, m)
    requires t < |c.jobs| && !Spare(c, a, b, t) && u < |c.jobs| && u != t
    ensures Probed(c, t, s.pcs[t].k) < c.size && Probed(c, Swap(a, b, t), m.pcs[Swap(a, b, t)].k) < c.size
    ensures MirrorThread(c, a, b, Step(c, s, t), Step(c, m, Swap(a, b, t)), u)
  {
    StepInv(c, s, t);
    StepInv(c, m, Swap(a, b, t));
    assert MirrorThread(c, a, b, s, m, u);
  }

  lemma StepMirrors(c: Config, a: nat, b: nat, s: State, m: State, t: nat)
    requires c.Valid() && Rivals(c, a, b) && Inv(c, s) && Inv(c, m) && Mirrors(c, a, b, s, m)
    requires t < |c.jobs| && !Spare(c, a, b, t)
    ensures Probed(c, t, s.pcs[t].k) < c.size && Probed(c, Swap(a, b, t), m.pcs[Swap(a, b, t)].k) < c.size
    ensures Mirrors(c, a, b, Step(c, s, t), Step(c, m, Swap(a, b, t)))
  {
    var v := Swap(a, b, t);
    StepInv(c, s, t);
    StepInv(c, m, v);
    assert MirrorThread(c, a, b, s, m, t);
    var k := s.pcs[t].k;
    SwapKeepsProbes(c, a, b, t, k);
    MirrorEntry(c, a, b, s, m, t, Probed(c, t, k));
    var s', m' := Step(c, s, t), Step(c, m, v);
    forall u: nat | u < |c.jobs| ensures MirrorThread(c, a, b, s', m', u) {
      if u != t { OtherThreadMirrors(c, a, b, s, m, t, u); }
    }
    forall i: nat | i < c.size ensures MirrorSlot(c, a, b, s', m', i) {
      assert MirrorSlot(c, a, b, s, m, i);
    }
  }

  /** A spare that claims nothing changes nothing the mirror image depends on. */
  lemma SpareStep(c: Config, a: nat, b: nat, s: State, m: State, t: nat)
    requires c.Valid() && Rivals(c, a, b) && Inv(c, s) && Inv(c, m) && Mirrors(c, a, b, s, m)
    requires t < |c.jobs| && Spare(c, a, b, t) && Probed(c, t, s.pcs[t].k) < c.size
    requires forall i :: 0 <= i < c.size ==> Step(c, s, t).owner[i] != t
    ensures Mirrors(c, a, b, Step(c, s, t), m)
  {
    var s' := Step(c, s, t);
    forall u: nat | u < |c.jobs| ensures MirrorThread(c, a, b, s', m, u) {
      assert MirrorThread(c, a, b, s, m, u);
    }
    forall i: nat | i < c.size ensures MirrorSlot(c, a, b, s', m, i) {
      assert MirrorSlot(c, a, b, s, m, i);
    }
  }

  lemma OwnerStays(c: Config, s: State, t: nat, i: nat)
    requires c.Valid() && Inv(c, s) && t < |c.jobs| && i < c.size && s.owner[i] != -1
    ensures Probed(c, t, s.pcs[t].k) < c.size && Step(c, s, t).owner[i] == s.owner[i]
  {
    assert ThreadOk(c, s, t) && SlotOk(c, s, i);
  }

  ghost predicate NoSpareOwns(c: Config, a: nat, b: nat, s: State)
    requires a < |c.jobs| && b < |c.jobs| && Inv(c, s)
  {
    forall i: nat, t: nat :: i < c.size && t < |c.jobs| && s.owner[i] == t ==> !Spare(c, a, b, t)
  }

  lemma NoSpareOwnedBefore(c: Config, a: nat, b: nat, s: State, t: nat)
    requires c.Valid() && Rivals(c, a, b) && Inv(c, s) && t < |c.jobs|
    requires Probed(c, t, s.pcs[t].k) < c.size && Inv(c, Step(c, s, t)) && NoSpareOwns(c, a, b, Step(c, s, t))
    ensures NoSpareOwns(c, a, b, s)
  {
    forall i: nat, u: nat | i < c.size && u < |c.jobs| && s.owner[i] == u ensures !Spare(c, a, b, u) {
      OwnerStays(c, s, t, i);
    }
  }

  lemma {:induction false} ExchangedMirrors(c: Config, a: nat, b: nat, schedule: seq<nat>)
    requires c.Valid() && Rivals(c, a, b) && ByThreads(c, schedule) && NoSpareOwns(c, a, b, Run(c, schedule))
    ensures Mirrors(c, a, b, Run(c, schedule), Run(c, Exchanged(c, a, b, schedule)))
  {
    if schedule != [] {
      var n := |schedule| - 1;
      var s, t := Run(c, schedule[..n]), schedule[n];
      StepInv(c, s, t);
      NoSpareOwnedBefore(c, a, b, s, t);
      ExchangedMirrors(c, a, b, schedule[..n]);
      var before := Exchanged(c, a, b, schedule[..n]);
      var m := Run(c, before);
      if Spare(c, a, b, t) {
        assert before + [] == before;
        SpareStep(c, a, b, s, m, t);
      } else {
        RunOneMore(c, before, Swap(a, b, t));
        StepMirrors(c, a, b, s, m, t);
      }
    }
  }

  // ----- The spares return too -----

  /** Only pcs[t] may differ. */
  ghost predicate OnlyMoved(s: State, s': State, t: nat) {
    && s'.entries == s.entries && s'.owner == s.owner && |s'.pcs| == |s.pcs|
    && forall u :: 0 <= u < |s.pcs| && u != t ==> s'.pcs[u] == s.pcs[u]
  }

  ghost predicate AllPublished(c: Config, s: State)
    requires Shaped(c, s)
  {
    forall i :: 0 <= i < c.size && s.owner[i] != -1 ==> s.entries[i].key.Bytes?
  }

  /** Insertion w has published the key of insertion t. */
  ghost predicate Creator(c: Config, s: State, t: nat, w: nat)
    requires Shaped(c, s) && t < |c.jobs|
  {
    w < |c.jobs| && c.jobs[w].key == c.jobs[t].key && s.pcs[w].Done? && s.pcs[w].inserted
  }

  /** Two steps of t at its k-th slot, which is published: it returns or goes on. */
  lemma LoadAndCompare(c: Config, schedule: seq<nat>, t: nat)
    requires c.Valid() && ByThreads(c, schedule) && t < |c.jobs|
    requires var s := Run(c, schedule);
      s.pcs[t].Load? && Probed(c, t, s.pcs[t].k) < c.size && s.entries[Probed(c, t, s.pcs[t].k)].key.Bytes?
    ensures ByThreads(c, schedule + [t] + [t])
    ensures var s, s' := Run(c, schedule), Run(c, schedule + [t] + [t]);
      var k := s.pcs[t].k;
      && OnlyMoved(s, s', t)
      && s'.pcs[t] == if Equal(s.entries[Probed(c, t, k)], c.jobs[t].key) then Done(k, false) else NextProbe(k)
  {
    RunOneMore(c, schedule, t);
    RunOneMore(c, schedule + [t], t);
  }

  /** While the k-th slot of t is not yet w's, it belongs to another key. */
  lemma ProbeOfCreator(c: Config, s: State, t: nat, w: nat, k: nat)
    requires c.Valid() && Inv(c, s) && AllPublished(c, s) && t < |c.jobs| && Creator(c, s, t, w) && k <= s.pcs[w].k
    ensures Probed(c, t, k) < c.size && s.entries[Probed(c, t, k)].key.Bytes?
    ensures Equal(s.entries[Probed(c, t, k)], c.jobs[t].key) <==> k == s.pcs[w].k
    ensures k < s.pcs[w].k ==> NextProbe(k) == Load(k + 1)
  {
    assert ThreadOk(c, s, w) && Probed(c, t, k) == Probed(c, w, k);
    if k < s.pcs[w].k { assert Other(c, s, w, Probed(c, w, k)); }
    assert SlotOk(c, s, Probed(c, t, k));
  }

  lemma {:induction false} SpareReturns(c: Config, schedule: seq<nat>, t: nat, w: nat) returns (more: seq<nat>)
    requires c.Valid() && ByThreads(c, schedule) && t < |c.jobs|
    requires var s := Run(c, schedule);
      AllPublished(c, s) && Creator(c, s, t, w) && s.pcs[t].Load? && s.pcs[t].k <= s.pcs[w].k
    ensures ByThreads(c, more)
    ensures var s, s' := Run(c, schedule), Run(c, more); OnlyMoved(s, s', t) && s'.pcs[t].Done?
    decreases Run(c, schedule).pcs[w].k - Run(c, schedule).pcs[t].k
  {
    var s := Run(c, schedule);
    ProbeOfCreator(c, s, t, w, s.pcs[t].k);
    LoadAndCompare(c, schedule, t);
    more := schedule + [t] + [t];
    if s.pcs[t].k < s.pcs[w].k {
      more := SpareReturns(c, more, t, w);
    }
  }

  /** Every insertion has returned or can still return. */
  ghost predicate Ready(c: Config, s: State, t: nat)
    requires Shaped(c, s) && t < |c.jobs|
  {
    s.pcs[t].Done? || (s.pcs[t] == Load(0) && exists w :: Creator(c, s, t, w))
  }

  lemma StillReady(c: Config, s: State, s': State, t: nat, u: nat)
    requires Shaped(c, s) && OnlyMoved(s, s', t) && t < |c.jobs| && u < |c.jobs| && Ready(c, s, u)
    requires s'.pcs[t].Done? && !s.pcs[t].Done?
    ensures Shaped(c, s') && Ready(c, s', u)
  {
    if s.pcs[u] == Load(0) && u != t {
      var w :| Creator(c, s, u, w);
      assert Creator(c, s', u, w);
    }
  }

  ghost predicate DoneBelow(s: State, n: nat) { forall u :: 0 <= u < |s.pcs| && u < n ==> s.pcs[u].Done? }

  lemma {:induction false} SparesReturn(c: Config, schedule: seq<nat>, n: nat) returns (more: seq<nat>)
    requires c.Valid() && ByThreads(c, schedule) && n <= |c.jobs|
    requires var s := Run(c, schedule);
      AllPublished(c, s) && DoneBelow(s, n) && forall u: nat :: u < |c.jobs| ==> Ready(c, s, u)
    ensures Completes(c, more) && Run(c, more).entries == Run(c, schedule).entries
    decreases |c.jobs| - n
  {
    var s := Run(c, schedule);
    if n == |c.jobs| {
      more := schedule;
    } else if s.pcs[n].Done? {
      more := SparesReturn(c, schedule, n + 1);
    } else {
      assert Ready(c, s, n);
      var w :| Creator(c, s, n, w);
      var next := SpareReturns(c, schedule, n, w);
      forall u: nat | u < |c.jobs| ensures Ready(c, Run(c, next), u) {
        StillReady(c, s, Run(c, next), n, u);
      }
      more := SparesReturn(c, next, n + 1);
    }
  }

  // ----- The schedule shows -----

  /** a and b created the slots of their keys. */
  ghost predicate Creators(c: Config, a: nat, b: nat, s: State)
    requires Rivals(c, a, b) && Shaped(c, s)
  {
    s.pcs[a].Done? && s.pcs[a].inserted && s.pcs[b].Done? && s.pcs[b].inserted
  }

  lemma CreatorsOwn(c: Config, a: nat, b: nat, s: State)
    requires Rivals(c, a, b) && Inv(c, s) && Creators(c, a, b, s)
    ensures NoSpareOwns(c, a, b, s)
  {
    forall i: nat, t: nat | i < c.size && t < |c.jobs| && s.owner[i] == t ensures !Spare(c, a, b, t) {
      assert SlotOk(c, s, i);
      if c.jobs[t].key == c.jobs[a].key { OneSlotPerKey(c, s, t, a); }
      if c.jobs[t].key == c.jobs[b].key { OneSlotPerKey(c, s, t, b); }
    }
  }

  /** The mirror image of a finished state: all but the spares have returned. */
  lemma MirrorIsReady(c: Config, a: nat, b: nat, s: State, m: State)
    requires Rivals(c, a, b) && Inv(c, s) && Inv(c, m) && Finished(c, s) && Mirrors(c, a, b, s, m)
    requires Creators(c, a, b, s)
    ensures AllPublished(c, m) && forall u: nat :: u < |c.jobs| ==> Ready(c, m, u)
  {
    assert MirrorThread(c, a, b, s, m, a) && MirrorThread(c, a, b, s, m, b);
    forall i | 0 <= i < c.size && m.owner[i] != -1 ensures m.entries[i].key.Bytes? {
      assert SlotOk(c, s, i) && MirrorSlot(c, a, b, s, m, i);
      MirrorEntry(c, a, b, s, m, a, i);
    }
    forall u: nat | u < |c.jobs| ensures Ready(c, m, u) {
      if Spare(c, a, b, u) {
        assert MirrorThread(c, a, b, s, m, u);
        assert Creator(c, m, u, a) || Creator(c, m, u, b);
      } else {
        var t := Swap(a, b, u);
        assert Swap(a, b, t) == u && MirrorThread(c, a, b, s, m, t);
      }
    }
  }

  /** The slot of a's key has b's key in the mirror image. */
  lemma SlotExchanged(c: Config, a: nat, b: nat, s: State, m: State)
    requires c.Valid() && Rivals(c, a, b) && Inv(c, s) && Inv(c, m) && Finished(c, s) && Mirrors(c, a, b, s, m)
    requires Creators(c, a, b, s)
    ensures TableOf(s) != TableOf(m)
  {
    var i := Probed(c, a, s.pcs[a].k);
    assert ThreadOk(c, s, a) && SlotOk(c, s, i);
    assert MirrorSlot(c, a, b, s, m, i) && MirrorThread(c, a, b, s, m, a) && SlotOk(c, m, i);
    assert TableOf(s)[i] == Some(c.jobs[a].key) && TableOf(m)[i] == Some(c.jobs[b].key);
  }

  /** If two keys share a home, the same insertions under another schedule leave another table. */
  lemma AnotherTable(c: Config, schedule: seq<nat>, x: Str, y: Str) returns (schedule': seq<nat>)
    requires Completes(c, schedule) && x in KeysOf(c) && y in KeysOf(c) && x != y && c.home(x) == c.home(y)
    ensures Completes(c, schedule') && FinalTable(c, schedule') != FinalTable(c, schedule)
  {
    var s := Run(c, schedule);
    var t :| 0 <= t < |c.jobs| && c.jobs[t].key == x;
    var u :| 0 <= u < |c.jobs| && c.jobs[u].key == y;
    var a := OneCreator(c, s, t);
    var b := OneCreator(c, s, u);
    CreatorsOwn(c, a, b, s);
    ExchangedMirrors(c, a, b, schedule);
    var exchanged := Exchanged(c, a, b, schedule);
    var m := Run(c, exchanged);
    MirrorIsReady(c, a, b, s, m);
    SlotExchanged(c, a, b, s, m);
    schedule' := SparesReturn(c, exchanged, 0);
    SameTable(m, Run(c, schedule'));
  }

  lemma SameTable(s: State, s': State)
    requires s.entries == s'.entries
    ensures TableOf(s) == TableOf(s')
  {
  }

  /** The listing is the same under every schedule of every set of insertions of these keys. */
  ghost predicate ScheduleIndependent(c: Config) {
    forall d, schedule, schedule' ::
      Completes(c, schedule) && Completes(d, schedule') && SameKeys(c, d) ==>
      Listing(FinalTable(c, schedule)) == Listing(FinalTable(d, schedule'))
  }

  lemma FullShowsSchedule(c: Config, schedule: seq<nat>)
    requires Completes(c, schedule) && c.size <= |KeysOf(c)| && !DistinctHomes(c.home, KeysOf(c))
    ensures exists schedule' :: Completes(c, schedule')
              && Listing(FinalTable(c, schedule')) != Listing(FinalTable(c, schedule))
  {
    var x, y :| x in KeysOf(c) && y in KeysOf(c) && c.home(x) == c.home(y) && x != y;
    var schedule' := AnotherTable(c, schedule, x, y);
    EmptyIffFewer(FinalTable(c, schedule), c.home, KeysOf(c));
    EmptyIffFewer(FinalTable(c, schedule'), c.home, KeysOf(c));
    FullListingKeepsLayout(FinalTable(c, schedule'), FinalTable(c, schedule));
  }

  /** Exactly when the schedule does not show in the listing. If it shows, it does so for the very
      same insertions. */
  lemma ListingIsDeterministicIff(c: Config, schedule: seq<nat>)
    requires Completes(c, schedule)
    ensures ScheduleIndependent(c) <==> |KeysOf(c)| < c.size || DistinctHomes(c.home, KeysOf(c))
    ensures !ScheduleIndependent(c) ==>
      exists schedule' :: Completes(c, schedule')
        && Listing(FinalTable(c, schedule')) != Listing(FinalTable(c, schedule))
  {
    if |KeysOf(c)| < c.size || DistinctHomes(c.home, KeysOf(c)) {
      forall d, p, q | Completes(c, p) && Completes(d, q) && SameKeys(c, d)
        ensures Listing(FinalTable(c, p)) == Listing(FinalTable(d, q))
      {
        if |KeysOf(c)| < c.size { ListingIsDeterministic(c, d, p, q); } else { HomesDecide(c, d, p, q); }
      }
    } else {
      FullShowsSchedule(c, schedule);
    }
  }

  // ----- It can show -----

  lemma DifferentKeys(c: Config)
    requires forall t, u :: 0 <= t < u < |c.jobs| ==> c.jobs[t].key != c.jobs[u].key
    ensures |KeysOf(c)| == |c.jobs|
  {
    var v := seq(|c.jobs|, t requires 0 <= t < |c.jobs| => c.jobs[t].key);
    forall x ensures x in v <==> x in KeysOf(c) {
      if x in KeysOf(c) {
        var t :| 0 <= t < |c.jobs| && c.jobs[t].key == x;
        assert v[t] == x;
      }
    }
    CollectedLength(v, KeysOf(c));
  }

  /** Byte strings of length one live at their byte, except that 1 shares the home of 0. */
  function ExampleHome(x: Str): nat { if |x| == 1 && x[0] != 1 then x[0] else 0 }

  /** The smallest shard, and as many insertions as it has buckets. */
  function FullExample(): Config {
    Config(MAX_RETRY, ExampleHome, seq(MAX_RETRY, t requires 0 <= t < MAX_RETRY => Job([t], 0)))
  }

  lemma ExampleIsFull()
    ensures FullExample().Valid() && |KeysOf(FullExample())| == MAX_RETRY
    ensures [0] in KeysOf(FullExample()) && [1] in KeysOf(FullExample())
  {
    var c := FullExample();
    forall t, u | 0 <= t < u < |c.jobs| ensures c.jobs[t].key != c.jobs[u].key {
      assert c.jobs[t].key[0] == t && c.jobs[u].key[0] == u;
    }
    DifferentKeys(c);
    assert c.jobs[0].key == [0] && c.jobs[1].key == [1];
  }

  /** A full shard whose insertions all return, under two schedules that are listed differently. */
  lemma ScheduleCanShow() returns (schedule: seq<nat>, schedule': seq<nat>)
    ensures Completes(FullExample(), schedule) && Completes(FullExample(), schedule')
    ensures Listing(FinalTable(FullExample(), schedule)) != Listing(FinalTable(FullExample(), schedule'))
    ensures !ScheduleIndependent(FullExample())
  {
    var c := FullExample();
    ExampleIsFull();
    schedule := CanComplete(c, []);
    assert ExampleHome([0]) == ExampleHome([1]) && [0] != [1];
    FullShowsSchedule(c, schedule);
    schedule' :| Completes(c, schedule') && Listing(FinalTable(c, schedule')) != Listing(FinalTable(c, schedule));
    assert SameKeys(c, c);
  }
}
