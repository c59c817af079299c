/** ConcurrentMap::insert_entry: threads claim, fill and publish the slots of a shard. Each step
    is one atomic operation of one thread; a run is any interleaving of such steps. */
module ConcurrentMap {
  import opened Bytes
  import opened ShardTable
  import opened Wrappers

  /** A probe that visits this many occupied slots aborts the program. */
  const MAX_RETRY: nat := 256

  datatype Job = Job(key: Str, value: int)

  /** One shard: its number of buckets, where each key's probe begins, and the insertions. */
  datatype Config = Config(size: nat, home: Str -> nat, jobs: seq<Job>) {
    ghost predicate Valid() {
      MAX_RETRY <= size && forall t :: 0 <= t < |jobs| ==> home(jobs[t].key) < size
    }
  }

  /** (begin + k) & mask, for a begin and k below the shard size. */
  function Wrap(c: Config, h: nat, k: nat): nat { if h + k < c.size then h + k else h + k - c.size }

  function Probed(c: Config, t: nat, k: nat): nat
    requires t < |c.jobs|
  {
    Wrap(c, c.home(c.jobs[t].key), k)
  }

  // ----- Slots and threads -----

  /** The key word of an entry: null, the claim marker -1, or a pointer to the key's bytes. */
  datatype KeyWord = Null | Claimed | Bytes(str: Str)

  datatype Entry = Entry(key: KeyWord, keylen: nat, value: int)

  datatype Pc =
    | Load(k: nat)
    | Claim(k: nat)
    | WriteValue(k: nat)
    | WriteLen(k: nat)
    | Publish(k: nat)
    | Wait(k: nat)
    | Compare(k: nat)
    | Done(k: nat, inserted: bool)
    | Aborted(k: nat)
  {
    predicate Owning() { WriteValue? || WriteLen? || Publish? || (Done? && inserted) }
  }

  /** `owner` is bookkeeping: which insertion claimed each slot, or -1. */
  datatype State = State(entries: seq<Entry>, pcs: seq<Pc>, owner: seq<int>)

  ghost predicate Shaped(c: Config, s: State) {
    |s.entries| == c.size && |s.pcs| == |c.jobs| && |s.owner| == c.size
  }

  function NextProbe(k: nat): Pc { if k + 1 < MAX_RETRY then Load(k + 1) else Aborted(k) }

  /** equals(ptr, len) */
  predicate Equal(e: Entry, key: Str) {
    e.key.Bytes? && e.keylen == |key| && e.key.str == key
  }

  function Move(s: State, t: nat, pc: Pc): State
    requires t < |s.pcs|
  {
    s.(pcs := s.pcs[t := pc])
  }

  function Store(s: State, t: nat, i: nat, e: Entry, pc: Pc): State
    requires t < |s.pcs| && i < |s.entries|
  {
    s.(entries := s.entries[i := e], pcs := s.pcs[t := pc])
  }

  /** One atomic step of insertion t. */
  function Step(c: Config, s: State, t: nat): (s': State)
    requires Shaped(c, s) && t < |c.jobs| && Probed(c, t, s.pcs[t].k) < c.size
    ensures Shaped(c, s')
  {
    var job := c.jobs[t];
    var pc := s.pcs[t];
    var i := Probed(c, t, pc.k);
    var e := s.entries[i];
    match pc
    case Load(k) => Move(s, t, if e.key.Bytes? then Compare(k) else Claim(k))
    case Claim(k) =>
      if e.key.Null? then
        State(s.entries[i := e.(key := Claimed)], s.pcs[t := WriteValue(k)], s.owner[i := t])
      else Move(s, t, if e.key.Claimed? then Wait(k) else Compare(k))
    case WriteValue(k) => Store(s, t, i, e.(value := job.value), WriteLen(k))
    case WriteLen(k) => Store(s, t, i, e.(keylen := |job.key|), Publish(k))
    case Publish(k) => Store(s, t, i, e.(key := Bytes(job.key)), Done(k, true))
    case Wait(k) => Move(s, t, if e.key.Claimed? then pc else Compare(k))
    case Compare(k) => Move(s, t, if Equal(e, job.key) then Done(k, false) else NextProbe(k))
    case Done(_, _) => s
    case Aborted(_) => s
  }

  function Start(c: Config): State {
    State(seq(c.size, _ => Entry(Null, 0, 0)), seq(|c.jobs|, _ => Load(0)), seq(c.size, _ => -1))
  }

  // ----- The invariant -----

  ghost predicate Other(c: Config, s: State, t: nat, i: nat)
    requires Shaped(c, s) && t < |c.jobs|
  {
    i < c.size && 0 <= s.owner[i] < |c.jobs| && c.jobs[s.owner[i]].key != c.jobs[t].key
  }

  /** Every slot probed before the k-th belongs to another key. */
  ghost predicate Passed(c: Config, s: State, t: nat, k: nat)
    requires Shaped(c, s) && t < |c.jobs|
  {
    && k < MAX_RETRY && Probed(c, t, k) < c.size
    && forall j: nat :: j < k ==> Other(c, s, t, Probed(c, t, j))
  }

  ghost predicate ThreadOk(c: Config, s: State, t: nat)
    requires Shaped(c, s) && t < |c.jobs|
  {
    var pc := s.pcs[t];
    Passed(c, s, t, pc.k) &&
    var i := Probed(c, t, pc.k);
    match pc
    case Load(_) => true
    case Claim(_) => true
    case WriteValue(_) => s.owner[i] == t
    case WriteLen(_) => s.owner[i] == t && s.entries[i].value == c.jobs[t].value
    case Publish(_) =>
      && s.owner[i] == t && s.entries[i].value == c.jobs[t].value && s.entries[i].keylen == |c.jobs[t].key|
    case Wait(_) => s.owner[i] != -1
    case Compare(_) => s.entries[i].key.Bytes?
    case Done(_, inserted) =>
      && s.entries[i].key.Bytes? && 0 <= s.owner[i] < |c.jobs| && c.jobs[s.owner[i]].key == c.jobs[t].key
      && (inserted ==> s.owner[i] == t)
    case Aborted(k) => k + 1 == MAX_RETRY && Other(c, s, t, i)
  }

  ghost predicate SlotOk(c: Config, s: State, i: nat)
    requires Shaped(c, s) && i < c.size
  {
    var o := s.owner[i];
    && (s.entries[i].key.Null? <==> o == -1)
    && (o != -1 ==>
        && 0 <= o < |c.jobs| && s.pcs[o].Owning() && Probed(c, o, s.pcs[o].k) == i
        && (s.entries[i].key.Claimed? <==> !s.pcs[o].Done?)
        && (s.entries[i].key.Bytes? ==>
              s.entries[i] == Entry(Bytes(c.jobs[o].key), |c.jobs[o].key|, c.jobs[o].value)))
  }

  ghost predicate Inv(c: Config, s: State) {
    && Shaped(c, s)
    && (forall t: nat :: t < |c.jobs| ==> ThreadOk(c, s, t))
    && (forall i: nat :: i < c.size ==> SlotOk(c, s, i))
  }

  // ----- Every step keeps it -----

  lemma StartInv(c: Config)
    requires c.Valid()
    ensures Inv(c, Start(c))
  {
  }

  lemma SamePassed(c: Config, s: State, s': State, t: nat, k: nat)
    requires Shaped(c, s) && Shaped(c, s') && t < |c.jobs| && Passed(c, s, t, k)
    requires forall i :: 0 <= i < c.size && s.owner[i] != -1 ==> s'.owner[i] == s.owner[i]
    ensures Passed(c, s', t, k)
  {
    forall j: nat | j < k ensures Other(c, s', t, Probed(c, t, j)) {
      assert Other(c, s, t, Probed(c, t, j));
    }
  }

  /** A step that only moves a thread that owns nothing. */
  lemma MoveInv(c: Config, s: State, t: nat, pc: Pc)
    requires Inv(c, s) && t < |c.jobs|
    requires !s.pcs[t].Owning() && !pc.Owning() && ThreadOk(c, Move(s, t, pc), t)
    ensures Inv(c, Move(s, t, pc))
  {
    var s' := Move(s, t, pc);
    forall u: nat | u < |c.jobs| ensures ThreadOk(c, s', u) {
      if u != t { assert ThreadOk(c, s, u); SamePassed(c, s, s', u, s.pcs[u].k); }
    }
    forall i: nat | i < c.size ensures SlotOk(c, s', i) {
      assert SlotOk(c, s, i);
    }
  }

  /** A step of the claimer on its own slot i. */
  lemma OwnInv(c: Config, s: State, s': State, t: nat, i: nat)
    requires c.Valid() && Inv(c, s) && Shaped(c, s') && t < |c.jobs| && i < c.size
    requires forall j: nat :: j < c.size && j != i ==> s'.entries[j] == s.entries[j] && s'.owner[j] == s.owner[j]
    requires forall u: nat :: u < |c.jobs| && u != t ==> s'.pcs[u] == s.pcs[u]
    requires s.owner[i] == -1 || (s.owner[i] == t && s'.owner[i] == t)
    requires s.entries[i].key.Bytes? ==> s'.entries[i] == s.entries[i]
    requires s.pcs[t].Owning() ==> s.owner[i] == t
    requires ThreadOk(c, s', t) && SlotOk(c, s', i)
    ensures Inv(c, s')
  {
    forall u: nat | u < |c.jobs| && u != t ensures ThreadOk(c, s', u) {
      assert ThreadOk(c, s, u) && SlotOk(c, s, i);
      SamePassed(c, s, s', u, s.pcs[u].k);
    }
    forall j: nat | j < c.size && j != i ensures SlotOk(c, s', j) {
      assert SlotOk(c, s, j) && SlotOk(c, s, i);
    }
  }

  lemma CompareInv(c: Config, s: State, t: nat)
    requires c.Valid() && Inv(c, s) && t < |c.jobs| && s.pcs[t].Compare?
    ensures Probed(c, t, s.pcs[t].k) < c.size && Inv(c, Step(c, s, t))
  {
    var k := s.pcs[t].k;
    var i := Probed(c, t, k);
    assert ThreadOk(c, s, t) && SlotOk(c, s, i);
    var pc := if Equal(s.entries[i], c.jobs[t].key) then Done(k, false) else NextProbe(k);
    var s' := Move(s, t, pc);
    SamePassed(c, s, s', t, k);
    if pc.Load? {
      forall j: nat | j < k + 1 ensures Other(c, s', t, Probed(c, t, j)) {
        if j < k { assert Other(c, s, t, Probed(c, t, j)); }
      }
    }
    MoveInv(c, s, t, pc);
  }

  lemma StepInv(c: Config, s: State, t: nat)
    requires c.Valid() && Inv(c, s) && t < |c.jobs|
    ensures Probed(c, t, s.pcs[t].k) < c.size && Inv(c, Step(c, s, t))
  {
    var pc := s.pcs[t];
    var i := Probed(c, t, pc.k);
    assert ThreadOk(c, s, t) && SlotOk(c, s, i);
    var s' := Step(c, s, t);
    if pc.Compare? {
      CompareInv(c, s, t);
    } else {
      SamePassed(c, s, s', t, pc.k);
      if pc.Owning() || (pc.Claim? && s.entries[i].key.Null?) {
        OwnInv(c, s, s', t, i);
      } else if !pc.Done? && !pc.Aborted? {
        MoveInv(c, s, t, s'.pcs[t]);
      }
    }
  }

  // ----- Runs -----

  ghost predicate ByThreads(c: Config, schedule: seq<nat>) {
    forall k :: 0 <= k < |schedule| ==> schedule[k] < |c.jobs|
  }

  /** The state after a schedule, given as the thread that makes each step. */
  ghost function Run(c: Config, schedule: seq<nat>): (s: State)
    requires c.Valid() && ByThreads(c, schedule)
    ensures Inv(c, s)
  {
    if schedule == [] then StartInv(c); Start(c) else
      var s := Run(c, schedule[..|schedule| - 1]);
      var t := schedule[|schedule| - 1];
      StepInv(c, s, t);
      Step(c, s, t)
  }

  lemma RunOneMore(c: Config, schedule: seq<nat>, t: nat)
    requires c.Valid() && ByThreads(c, schedule) && t < |c.jobs|
    ensures ByThreads(c, schedule + [t])
    ensures var s := Run(c, schedule);
      Probed(c, t, s.pcs[t].k) < c.size && Run(c, schedule + [t]) == Step(c, s, t)
  {
    StepInv(c, Run(c, schedule), t);
    assert (schedule + [t])[..|schedule|] == schedule;
  }

  /** A published entry never changes again. */
  lemma PublishedStays(c: Config, s: State, t: nat, i: nat)
    requires c.Valid() && Inv(c, s) && t < |c.jobs| && i < c.size && s.entries[i].key.Bytes?
    ensures Probed(c, t, s.pcs[t].k) < c.size && Step(c, s, t).entries[i] == s.entries[i]
  {
    assert ThreadOk(c, s, t) && SlotOk(c, s, i);
  }

  lemma {:induction false} PublishedForever(c: Config, schedule: seq<nat>, more: seq<nat>, i: nat)
    requires c.Valid() && ByThreads(c, schedule) && ByThreads(c, more)
    requires i < c.size && Run(c, schedule).entries[i].key.Bytes?
    ensures Run(c, schedule + more).entries[i] == Run(c, schedule).entries[i]
    decreases |more|
  {
    if more == [] {
      assert schedule + more == schedule;
    } else {
      var n := |more| - 1;
      assert schedule + more == (schedule + more[..n]) + [more[n]];
      assert (schedule + more)[..|schedule + more| - 1] == schedule + more[..n];
      PublishedForever(c, schedule, more[..n], i);
      PublishedStays(c, Run(c, schedule + more[..n]), (schedule + more)[|schedule + more| - 1], i);
    }
  }

  ghost predicate Returned(c: Config, s: State, t: int)
    requires Shaped(c, s)
  {
    0 <= t < |c.jobs| && s.pcs[t].Done?
  }

  /** No key is claimed twice. */
  lemma OneSlotPerKey(c: Config, s: State, t: nat, u: nat)
    requires Inv(c, s) && t < |c.jobs| && u < |c.jobs|
    requires s.pcs[t].Owning() && s.pcs[u].Owning() && c.jobs[t].key == c.jobs[u].key
    ensures t == u
  {
    assert ThreadOk(c, s, t) && ThreadOk(c, s, u);
    assert Probed(c, u, s.pcs[t].k) == Probed(c, t, s.pcs[t].k);
    assert Probed(c, t, s.pcs[u].k) == Probed(c, u, s.pcs[u].k);
  }

  /** Two insertions of one key that have returned got the same slot, which holds that key and
      its length with the value of the one insertion that created it. */
  lemma SameSlot(c: Config, s: State, t: nat, u: nat)
    requires Inv(c, s) && Returned(c, s, t) && Returned(c, s, u) && c.jobs[t].key == c.jobs[u].key
    ensures Probed(c, t, s.pcs[t].k) == Probed(c, u, s.pcs[u].k) < c.size
    ensures exists w :: 0 <= w < |c.jobs| && c.jobs[w].key == c.jobs[t].key && s.pcs[w].Done? && s.pcs[w].inserted
              && s.entries[Probed(c, t, s.pcs[t].k)] == Entry(Bytes(c.jobs[w].key), |c.jobs[w].key|, c.jobs[w].value)
  {
    assert ThreadOk(c, s, t) && ThreadOk(c, s, u);
    var i, j := Probed(c, t, s.pcs[t].k), Probed(c, u, s.pcs[u].k);
    assert SlotOk(c, s, i) && SlotOk(c, s, j);
    OneSlotPerKey(c, s, s.owner[i], s.owner[j]);
    var w := s.owner[i];
    assert c.jobs[w].key == c.jobs[t].key && s.pcs[w].Done? && s.pcs[w].inserted;
  }

  /** Exactly one insertion of each key returns true. */
  lemma OneCreator(c: Config, s: State, t: nat) returns (w: nat)
    requires Inv(c, s) && Returned(c, s, t)
    ensures w < |c.jobs| && c.jobs[w].key == c.jobs[t].key && s.pcs[w].Done? && s.pcs[w].inserted
    ensures forall v :: Returned(c, s, v) && s.pcs[v].inserted && c.jobs[v].key == c.jobs[t].key ==> v == w
  {
    assert ThreadOk(c, s, t);
    var i := Probed(c, t, s.pcs[t].k);
    assert SlotOk(c, s, i);
    w := s.owner[i];
    forall v | Returned(c, s, v) && s.pcs[v].inserted && c.jobs[v].key == c.jobs[t].key ensures v == w {
      OneSlotPerKey(c, s, v, w);
    }
  }

  // ----- The table a finished run leaves -----

  ghost predicate Finished(c: Config, s: State)
    requires Shaped(c, s)
  {
    forall t :: 0 <= t < |c.jobs| ==> s.pcs[t].Done?
  }

  /** A schedule after which every insertion has returned. */
  ghost predicate Completes(c: Config, schedule: seq<nat>) {
    c.Valid() && ByThreads(c, schedule) && Finished(c, Run(c, schedule))
  }

  ghost function TableOf(s: State): (r: Table)
    ensures |r| == |s.entries|
    ensures forall i :: 0 <= i < |r| ==> r[i] == if s.entries[i].key.Bytes? then Some(s.entries[i].key.str) else None
  {
    seq(|s.entries|, i requires 0 <= i < |s.entries| =>
      if s.entries[i].key.Bytes? then Some(s.entries[i].key.str) else None)
  }

  ghost function KeysOf(c: Config): set<Str> { set t | 0 <= t < |c.jobs| :: c.jobs[t].key }

  lemma FinishedSlot(c: Config, s: State, i: nat)
    requires c.Valid() && Inv(c, s) && Finished(c, s) && i < c.size && s.owner[i] != -1
    ensures 0 <= s.owner[i] < |c.jobs| && TableOf(s)[i] == Some(c.jobs[s.owner[i]].key)
  {
    assert SlotOk(c, s, i);
  }

  lemma TakenSlot(c: Config, s: State, i: nat)
    requires c.Valid() && Inv(c, s) && i < c.size && TableOf(s)[i].Some?
    ensures 0 <= s.owner[i] < |c.jobs| && TableOf(s)[i] == Some(c.jobs[s.owner[i]].key)
  {
    assert SlotOk(c, s, i);
  }

  /** Whatever the interleaving, a finished run leaves a linear-probing table of its keys. */
  lemma FinishedIsProbing(c: Config, s: State)
    requires c.Valid() && Inv(c, s) && Finished(c, s)
    ensures Probing(TableOf(s), c.home, KeysOf(c))
  {
    var T := TableOf(s);
    forall p | 0 <= p < |T| && T[p].Some? ensures Reached(T, c.home(T[p].value), p) && T[p].value in KeysOf(c) {
      TakenSlot(c, s, p);
      var o := s.owner[p];
      assert SlotOk(c, s, p) && ThreadOk(c, s, o);
      var h := c.home(c.jobs[o].key);
      forall q | 0 <= q < |T| && Between(h, q, p) ensures T[q].Some? {
        if q != p {
          var j := if h <= q then q - h else q + c.size - h;
          assert Probed(c, o, j) == q;
          assert Other(c, s, o, Probed(c, o, j));
          FinishedSlot(c, s, q);
        }
      }
    }
    forall p, q | 0 <= p < q < |T| && T[p].Some? && T[q].Some? ensures T[p] != T[q] {
      TakenSlot(c, s, p);
      TakenSlot(c, s, q);
      assert SlotOk(c, s, p) && SlotOk(c, s, q);
      if T[p] == T[q] { OneSlotPerKey(c, s, s.owner[p], s.owner[q]); }
    }
    forall x | x in KeysOf(c) ensures Holds(T, x) {
      var t :| 0 <= t < |c.jobs| && c.jobs[t].key == x;
      assert ThreadOk(c, s, t);
      var i := Probed(c, t, s.pcs[t].k);
      FinishedSlot(c, s, i);
      assert T[i] == Some(x);
    }
  }
}
