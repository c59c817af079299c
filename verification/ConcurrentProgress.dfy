/** When the insertions into a shard can return, and when the map is full. */
module ConcurrentProgress {
  import opened Bytes
  import opened ConcurrentMap
  import opened Sets

  // ----- A probe that aborts has met as many other keys -----

  ghost predicate AllOther(c: Config, s: State, t: nat, k: nat)
    requires Shaped(c, s) && t < |c.jobs|
  {
    forall j: nat :: j < k ==> Other(c, s, t, Probed(c, t, j))
  }

  /** The keys in the first k slots that t probes. */
  ghost function PassedKeys(c: Config, s: State, t: nat, k: nat): set<Str>
    requires Shaped(c, s) && t < |c.jobs| && AllOther(c, s, t, k)
  {
    if k == 0 then {} else
      assert Other(c, s, t, Probed(c, t, k - 1));
      PassedKeys(c, s, t, k - 1) + {c.jobs[s.owner[Probed(c, t, k - 1)]].key}
  }

  lemma {:induction false} PassedKey(c: Config, s: State, t: nat, k: nat, x: Str) returns (j: nat)
    requires Shaped(c, s) && t < |c.jobs| && AllOther(c, s, t, k)
    requires x in PassedKeys(c, s, t, k)
    ensures j < k && Other(c, s, t, Probed(c, t, j)) && c.jobs[s.owner[Probed(c, t, j)]].key == x
  {
    assert Other(c, s, t, Probed(c, t, k - 1));
    if x == c.jobs[s.owner[Probed(c, t, k - 1)]].key { j := k - 1; } else { j := PassedKey(c, s, t, k - 1, x); }
  }

  lemma PassedKeysDiffer(c: Config, s: State, t: nat, j: nat, k: nat)
    requires c.Valid() && Inv(c, s) && t < |c.jobs| && j < k < MAX_RETRY
    requires Other(c, s, t, Probed(c, t, j)) && Other(c, s, t, Probed(c, t, k))
    ensures c.jobs[s.owner[Probed(c, t, j)]].key != c.jobs[s.owner[Probed(c, t, k)]].key
  {
    var o, p := s.owner[Probed(c, t, j)], s.owner[Probed(c, t, k)];
    assert SlotOk(c, s, Probed(c, t, j)) && SlotOk(c, s, Probed(c, t, k));
    if c.jobs[o].key == c.jobs[p].key { OneSlotPerKey(c, s, o, p); }
  }

  /** The key in the next slot is another one again. */
  lemma NextKey(c: Config, s: State, t: nat, k: nat) returns (x: Str)
    requires c.Valid() && Inv(c, s) && t < |c.jobs| && k < MAX_RETRY
    requires AllOther(c, s, t, k + 1)
    ensures PassedKeys(c, s, t, k + 1) == PassedKeys(c, s, t, k) + {x}
    ensures x !in PassedKeys(c, s, t, k) && x in KeysOf(c) - {c.jobs[t].key}
  {
    assert Other(c, s, t, Probed(c, t, k));
    x := c.jobs[s.owner[Probed(c, t, k)]].key;
    if x in PassedKeys(c, s, t, k) {
      var j := PassedKey(c, s, t, k, x);
      PassedKeysDiffer(c, s, t, j, k);
    }
  }

  lemma AddKey(a: set<Str>, x: Str, b: set<Str>, k: nat)
    requires |a| == k && x !in a && a <= b && x in b
    ensures |a + {x}| == k + 1 && a + {x} <= b
  {
  }

  lemma PassedStep(c: Config, s: State, t: nat, k: nat)
    requires c.Valid() && Inv(c, s) && t < |c.jobs| && k < MAX_RETRY && AllOther(c, s, t, k + 1)
    requires |PassedKeys(c, s, t, k)| == k && PassedKeys(c, s, t, k) <= KeysOf(c) - {c.jobs[t].key}
    ensures |PassedKeys(c, s, t, k + 1)| == k + 1 && PassedKeys(c, s, t, k + 1) <= KeysOf(c) - {c.jobs[t].key}
  {
    var x := NextKey(c, s, t, k);
    AddKey(PassedKeys(c, s, t, k), x, KeysOf(c) - {c.jobs[t].key}, k);
  }

  /** The slots a probe has passed hold as many different other keys. */
  lemma {:induction false} PassedCount(c: Config, s: State, t: nat, k: nat)
    requires c.Valid() && Inv(c, s) && t < |c.jobs| && k <= MAX_RETRY
    requires AllOther(c, s, t, k)
    ensures |PassedKeys(c, s, t, k)| == k && PassedKeys(c, s, t, k) <= KeysOf(c) - {c.jobs[t].key}
  {
    if k > 0 {
      PassedCount(c, s, t, k - 1);
      PassedStep(c, s, t, k - 1);
    }
  }

  /** No insertion aborts unless there are more than MAX_RETRY keys. */
  lemma AbortNeedsKeys(c: Config, s: State, t: nat)
    requires c.Valid() && Inv(c, s) && t < |c.jobs| && s.pcs[t].Aborted?
    ensures MAX_RETRY < |KeysOf(c)|
  {
    assert ThreadOk(c, s, t);
    forall j: nat | j < MAX_RETRY ensures Other(c, s, t, Probed(c, t, j)) {
      if j < MAX_RETRY - 1 { assert Passed(c, s, t, MAX_RETRY - 1); }
    }
    PassedCount(c, s, t, MAX_RETRY);
    SubsetSize(PassedKeys(c, s, t, MAX_RETRY), KeysOf(c) - {c.jobs[t].key});
    assert c.jobs[t].key in KeysOf(c);
  }

  // ----- Otherwise every run can be completed -----

  /** Every other thread that has claimed a slot has published it. */
  ghost predicate OthersSettled(s: State, t: nat) {
    forall u :: 0 <= u < |s.pcs| && u != t && s.pcs[u].Owning() ==> s.pcs[u].Done?
  }

  /** Thread t does not wait for anybody. */
  ghost predicate Free(s: State, t: nat) { t < |s.pcs| && (s.pcs[t].Owning() || OthersSettled(s, t)) }

  /** How many steps a free thread makes at most before it returns or probes the next slot. */
  function StepsLeft(pc: Pc): nat {
    match pc
    case Load(_) => 5
    case Claim(_) => 4
    case WriteValue(_) => 3
    case WriteLen(_) => 2
    case Publish(_) => 1
    case Wait(_) => 2
    case Compare(_) => 1
    case Done(_, _) => 0
    case Aborted(_) => 0
  }

  ghost predicate Closer(p: Pc, q: Pc) { p.k < q.k || (p.k == q.k && StepsLeft(q) < StepsLeft(p)) }

  /** A step of thread t and of nobody else. */
  ghost predicate OnlyStepped(s: State, s': State, t: nat) {
    |s'.pcs| == |s.pcs| && forall u :: 0 <= u < |s.pcs| && u != t ==> s'.pcs[u] == s.pcs[u]
  }

  lemma FreeStep(c: Config, s: State, t: nat)
    requires c.Valid() && Inv(c, s) && t < |c.jobs| && Free(s, t) && !s.pcs[t].Done? && !s.pcs[t].Aborted?
    ensures Probed(c, t, s.pcs[t].k) < c.size
    ensures var s' := Step(c, s, t);
      Inv(c, s') && OnlyStepped(s, s', t) && Closer(s.pcs[t], s'.pcs[t]) && Free(s', t)
  {
    StepInv(c, s, t);
    var i := Probed(c, t, s.pcs[t].k);
    assert ThreadOk(c, s, t) && SlotOk(c, s, i);
    var s' := Step(c, s, t);
    assert OnlyStepped(s, s', t);
    if OthersSettled(s, t) { assert OthersSettled(s', t); }
  }

  lemma {:induction false} Returns(c: Config, schedule: seq<nat>, t: nat) returns (more: seq<nat>)
    requires c.Valid() && ByThreads(c, schedule) && t < |c.jobs| && Free(Run(c, schedule), t)
    requires |KeysOf(c)| <= MAX_RETRY
    ensures schedule <= more && ByThreads(c, more)
    ensures OnlyStepped(Run(c, schedule), Run(c, more), t) && Run(c, more).pcs[t].Done?
    decreases MAX_RETRY - Run(c, schedule).pcs[t].k, StepsLeft(Run(c, schedule).pcs[t])
  {
    var s := Run(c, schedule);
    assert ThreadOk(c, s, t);
    if s.pcs[t].Aborted? { AbortNeedsKeys(c, s, t); }
    more := schedule;
    if !s.pcs[t].Done? {
      FreeStep(c, s, t);
      RunOneMore(c, schedule, t);
      assert ThreadOk(c, Run(c, schedule + [t]), t);
      more := Returns(c, schedule + [t], t);
    }
  }

  ghost function Unfinished(s: State): set<int> { set t | 0 <= t < |s.pcs| && !s.pcs[t].Done? }

  /** As long as some insertion has not returned, one of those is free. */
  lemma SomeoneIsFree(s: State) returns (t: nat)
    requires Unfinished(s) != {}
    ensures t in Unfinished(s) && Free(s, t)
  {
    if u :| 0 <= u < |s.pcs| && s.pcs[u].Owning() && !s.pcs[u].Done? {
      t := u;
    } else {
      t := AnyOf(Unfinished(s));
    }
  }

  lemma OneFewer(s: State, s': State, t: nat)
    requires t in Unfinished(s) && OnlyStepped(s, s', t) && s'.pcs[t].Done?
    ensures |Unfinished(s')| < |Unfinished(s)|
  {
    assert Unfinished(s') == Unfinished(s) - {t};
  }

  /** With no more than MAX_RETRY keys, whatever has happened so far, all insertions can return. */
  lemma {:induction false} CanComplete(c: Config, schedule: seq<nat>) returns (more: seq<nat>)
    requires c.Valid() && ByThreads(c, schedule) && |KeysOf(c)| <= MAX_RETRY
    ensures schedule <= more && Completes(c, more)
    decreases |Unfinished(Run(c, schedule))|
  {
    var s := Run(c, schedule);
    more := schedule;
    if Unfinished(s) != {} {
      var t := SomeoneIsFree(s);
      var next := Returns(c, schedule, t);
      OneFewer(s, Run(c, next), t);
      more := CanComplete(c, next);
    } else {
      forall t | 0 <= t < |c.jobs| ensures s.pcs[t].Done? { assert t !in Unfinished(s); }
    }
  }

  // ----- The bound is sharp -----

  ghost predicate ShareHome(c: Config, keys: set<Str>) {
    forall x, y :: x in keys && y in keys ==> c.home(x) == c.home(y)
  }

  /** Key x is in the k-th slot from its home. */
  ghost predicate AtDepth(c: Config, s: State, x: Str, k: int)
    requires Shaped(c, s)
  {
    exists t :: 0 <= t < |c.jobs| && c.jobs[t].key == x && s.pcs[t].Done? && s.pcs[t].k == k
  }

  lemma DepthOf(c: Config, s: State, x: Str) returns (k: int)
    requires c.Valid() && Inv(c, s) && Finished(c, s) && x in KeysOf(c)
    ensures AtDepth(c, s, x, k) && 0 <= k < MAX_RETRY
  {
    var t :| 0 <= t < |c.jobs| && c.jobs[t].key == x;
    assert ThreadOk(c, s, t);
    k := s.pcs[t].k;
  }

  lemma OneKeyPerDepth(c: Config, s: State, x: Str, y: Str, k: int)
    requires c.Valid() && Inv(c, s) && AtDepth(c, s, x, k) && AtDepth(c, s, y, k) && c.home(x) == c.home(y)
    ensures x == y
  {
    var t :| 0 <= t < |c.jobs| && c.jobs[t].key == x && s.pcs[t].Done? && s.pcs[t].k == k;
    var u :| 0 <= u < |c.jobs| && c.jobs[u].key == y && s.pcs[u].Done? && s.pcs[u].k == k;
    assert ThreadOk(c, s, t) && ThreadOk(c, s, u);
  }

  ghost predicate DepthsIn(c: Config, s: State, keys: set<Str>, depths: set<int>)
    requires Shaped(c, s)
  {
    forall x, k :: x in keys && AtDepth(c, s, x, k) ==> k in depths
  }

  lemma {:induction false} KeysNeedDepths(c: Config, s: State, keys: set<Str>, depths: set<int>)
    requires c.Valid() && Inv(c, s) && Finished(c, s) && keys <= KeysOf(c) && ShareHome(c, keys)
    requires DepthsIn(c, s, keys, depths)
    ensures |keys| <= |depths|
    decreases keys
  {
    if keys != {} {
      var x := AnyOf(keys);
      var k := DepthOf(c, s, x);
      forall y, j | y in keys - {x} && AtDepth(c, s, y, j) ensures j in depths - {k} {
        if j == k { OneKeyPerDepth(c, s, x, y, k); }
      }
      KeysNeedDepths(c, s, keys - {x}, depths - {k});
    }
  }

  /** If more than MAX_RETRY keys share a home, no run returns from all insertions. */
  lemma CrowdedHome(c: Config, schedule: seq<nat>, keys: set<Str>)
    requires keys <= KeysOf(c) && ShareHome(c, keys) && Completes(c, schedule)
    ensures |keys| <= MAX_RETRY
  {
    var s := Run(c, schedule);
    forall x, k | x in keys && AtDepth(c, s, x, k) ensures k in Below(MAX_RETRY) {
      var t :| 0 <= t < |c.jobs| && c.jobs[t].key == x && s.pcs[t].Done? && s.pcs[t].k == k;
      assert ThreadOk(c, s, t);
    }
    KeysNeedDepths(c, s, keys, Below(MAX_RETRY));
  }

  /** Keys of one home can all be inserted exactly if there are at most MAX_RETRY of them. */
  lemma OneHomeCompletesIff(c: Config)
    requires c.Valid() && ShareHome(c, KeysOf(c))
    ensures (exists schedule :: Completes(c, schedule)) <==> |KeysOf(c)| <= MAX_RETRY
  {
    if |KeysOf(c)| <= MAX_RETRY {
      var schedule := CanComplete(c, []);
    }
    if schedule :| Completes(c, schedule) {
      CrowdedHome(c, schedule, KeysOf(c));
    }
  }
}
