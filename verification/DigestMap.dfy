/** DigestMap: many threads insert digests into one round-stamped table. Each step below is
    one atomic operation of one thread; a run is any interleaving of such steps. */
module DigestMap {
  import opened Arith
  import opened Sets

  // ----- What is inserted -----

  datatype Digest = Digest(hi: nat, lo: nat)

  /** A section is identified by its priority. */
  datatype Job = Job(digest: Digest, section: int)

  /** The table size, the round being played and the insertions of this round. The table is
      larger than the number of insertions, and digests that agree on the bits a slot stores
      are the same. */
  datatype Config = Config(size: nat, round: nat, jobs: seq<Job>) {
    ghost predicate Valid() {
      && |jobs| < size
      && forall a, b :: 0 <= a < |jobs| && 0 <= b < |jobs| && SameBits(jobs[a].digest, jobs[b].digest) ==>
           jobs[a].digest == jobs[b].digest
    }
  }

  /** The digests agree on the bits that a slot stores. */
  predicate SameBits(d: Digest, e: Digest) { Tag(d) == Tag(e) && d.lo == e.lo }

  /** digest.hi >> 16 */
  function Tag(d: Digest): nat { d.hi / 0x1_0000 }

  /** The tag is the upper 48 of the 64 bits. */
  lemma TagIs(d: Digest)
    requires d.hi < 0x1_0000_0000_0000_0000
    ensures Tag(d) < 0x1_0000_0000_0000 && 0 <= d.hi - 0x1_0000 * Tag(d) < 0x1_0000
  {
  }

  /** The k-th slot probed by insertion t. */
  function Probed(c: Config, t: nat, k: nat): nat
    requires t < |c.jobs| && c.size > 0
  {
    (c.jobs[t].digest.hi + k) % c.size
  }

  // ----- The shared table and the threads -----

  /** The first word of a slot. */
  datatype Head = Head(round: nat, busy: bool, tag: nat)

  datatype Slot = Slot(head: Head, lo: nat, leader: int)

  /** Where a thread is; k is how far it has probed. */
  datatype Pc =
    | Load(k: nat)
    | Claim(k: nat, seen: Head)
    | WriteLo(k: nat)
    | WriteLeader(k: nat)
    | Publish(k: nat)
    | Spin(k: nat)
    | CompareLo(k: nat)
    | ReadLeader(k: nat)
    | SwapLeader(k: nat, seenLeader: int)
    | Done(k: nat, inserted: bool)
  {
    /** The thread has claimed the slot it is at. */
    predicate Owning() { WriteLo? || WriteLeader? || Publish? || (Done? && inserted) }
  }

  /** `owner` is bookkeeping: which insertion claimed each slot in this round, or -1. */
  datatype State = State(slots: seq<Slot>, pcs: seq<Pc>, owner: seq<int>)

  /** What a thread does after reading the first word of its slot. */
  function Decide(c: Config, t: nat, k: nat, x: Head): Pc
    requires t < |c.jobs|
  {
    if x.round != c.round then Claim(k, x)
    else if x.tag != Tag(c.jobs[t].digest) then Load(k + 1)
    else if x.busy then Spin(k)
    else CompareLo(k)
  }

  function DecideLeader(c: Config, t: nat, k: nat, cur: int): Pc
    requires t < |c.jobs|
  {
    if c.jobs[t].section < cur then SwapLeader(k, cur) else Done(k, false)
  }

  ghost predicate Shaped(c: Config, s: State) {
    && |s.slots| == c.size && |s.pcs| == |c.jobs| && |s.owner| == c.size
  }

  /** One atomic step of insertion t. The compare-and-swap that claims a slot may fail spuriously. */
  function Step(c: Config, s: State, t: nat, spurious: bool): (s': State)
    requires c.Valid() && Shaped(c, s) && t < |c.jobs|
    ensures Shaped(c, s')
  {
    var job := c.jobs[t];
    var pc := s.pcs[t];
    var i := Probed(c, t, pc.k);
    var slot := s.slots[i];
    match pc
    case Load(k) => Move(s, t, Decide(c, t, k, slot.head))
    case Claim(k, seen) =>
      if slot.head == seen && !spurious then
        State(s.slots[i := slot.(head := Head(c.round, true, Tag(job.digest)))], s.pcs[t := WriteLo(k)],
              s.owner[i := t])
      else Move(s, t, Decide(c, t, k, slot.head))
    case WriteLo(k) => Store(s, t, i, slot.(lo := job.digest.lo), WriteLeader(k))
    case WriteLeader(k) => Store(s, t, i, slot.(leader := job.section), Publish(k))
    case Publish(k) => Store(s, t, i, slot.(head := Head(c.round, false, Tag(job.digest))), Done(k, true))
    case Spin(k) => Move(s, t, if slot.head.busy then pc else CompareLo(k))
    case CompareLo(k) => Move(s, t, if slot.lo != job.digest.lo then Load(k + 1) else ReadLeader(k))
    case ReadLeader(k) => Move(s, t, DecideLeader(c, t, k, slot.leader))
    case SwapLeader(k, seenLeader) =>
      if slot.leader == seenLeader then Store(s, t, i, slot.(leader := job.section), Done(k, false))
      else Move(s, t, DecideLeader(c, t, k, slot.leader))
    case Done(_, _) => s
  }

  function Move(s: State, t: nat, pc: Pc): State
    requires t < |s.pcs|
  {
    s.(pcs := s.pcs[t := pc])
  }

  function Store(s: State, t: nat, i: nat, slot: Slot, pc: Pc): State
    requires t < |s.pcs| && i < |s.slots|
  {
    s.(slots := s.slots[i := slot], pcs := s.pcs[t := pc])
  }

  /** Every slot was last written in an earlier round. */
  ghost predicate Vacant(c: Config, slots: seq<Slot>) {
    |slots| == c.size && forall i :: 0 <= i < |slots| ==> slots[i].head.round != c.round
  }

  function Start(c: Config, slots: seq<Slot>): State {
    State(slots, seq(|c.jobs|, _ => Load(0)), seq(|slots|, _ => -1))
  }

  datatype Turn = Turn(thread: nat, spurious: bool)

  ghost predicate ByThreads(c: Config, schedule: seq<Turn>) {
    forall k :: 0 <= k < |schedule| ==> schedule[k].thread < |c.jobs|
  }

  /** The state after a schedule of steps. */
  ghost function Run(c: Config, slots: seq<Slot>, schedule: seq<Turn>): (s: State)
    requires c.Valid() && Vacant(c, slots) && ByThreads(c, schedule)
    ensures Shaped(c, s)
  {
    if schedule == [] then Start(c, slots) else
      var n := |schedule| - 1;
      Step(c, Run(c, slots, schedule[..n]), schedule[n].thread, schedule[n].spurious)
  }

  // ----- The invariant -----

  /** Slot i was claimed in this round by an insertion of another digest. */
  ghost predicate Other(c: Config, s: State, t: nat, i: nat)
    requires Shaped(c, s) && t < |c.jobs| && i < c.size
  {
    0 <= s.owner[i] < |c.jobs| && c.jobs[s.owner[i]].digest != c.jobs[t].digest
  }

  ghost predicate AllOther(c: Config, s: State, t: nat, k: nat)
    requires c.Valid() && Shaped(c, s) && t < |c.jobs|
  {
    forall j: nat :: j < k ==> Other(c, s, t, Probed(c, t, j))
  }

  /** Every slot probed before the k-th holds another digest: a probe never passes a vacant slot. */
  ghost predicate Passed(c: Config, s: State, t: nat, k: nat)
    requires c.Valid() && Shaped(c, s) && t < |c.jobs|
  {
    k < c.size && AllOther(c, s, t, k)
  }

  /** The slot holds t's digest and has been published. */
  ghost predicate Holding(c: Config, s: State, t: nat, i: nat)
    requires Shaped(c, s) && t < |c.jobs| && i < c.size
  {
    && 0 <= s.owner[i] < |c.jobs| && !s.slots[i].head.busy
    && c.jobs[s.owner[i]].digest == c.jobs[t].digest
  }

  ghost predicate ThreadOk(c: Config, s: State, t: nat)
    requires c.Valid() && Shaped(c, s) && t < |c.jobs|
  {
    var pc := s.pcs[t];
    Passed(c, s, t, pc.k) &&
    var i := Probed(c, t, pc.k);
    var slot := s.slots[i];
    match pc
    case Load(_) => true
    case Claim(_, seen) => seen.round != c.round
    case WriteLo(_) => s.owner[i] == t
    case WriteLeader(_) => s.owner[i] == t && slot.lo == c.jobs[t].digest.lo
    case Publish(_) => s.owner[i] == t && slot.lo == c.jobs[t].digest.lo && slot.leader == c.jobs[t].section
    case Spin(_) => slot.head.round == c.round && slot.head.tag == Tag(c.jobs[t].digest)
    case CompareLo(_) => slot.head.round == c.round && slot.head.tag == Tag(c.jobs[t].digest) && !slot.head.busy
    case ReadLeader(_) => Holding(c, s, t, i)
    case SwapLeader(_, seen) => Holding(c, s, t, i) && c.jobs[t].section < seen
    case Done(_, inserted) => Holding(c, s, t, i) && slot.leader <= c.jobs[t].section && (inserted ==> s.owner[i] == t)
  }

  /** The leader is some section inserted with the slot's digest. */
  ghost predicate LeaderFrom(c: Config, d: Digest, leader: int) {
    exists t :: 0 <= t < |c.jobs| && c.jobs[t] == Job(d, leader)
  }

  ghost predicate SlotOk(c: Config, s: State, i: nat)
    requires c.Valid() && Shaped(c, s) && i < c.size
  {
    var o := s.owner[i];
    && (s.slots[i].head.round == c.round <==> o != -1)
    && (o != -1 ==>
        && 0 <= o < |c.jobs| && s.pcs[o].Owning() && Probed(c, o, s.pcs[o].k) == i
        && s.slots[i].head.tag == Tag(c.jobs[o].digest)
        && (s.slots[i].head.busy <==> !s.pcs[o].Done?)
        && (!s.slots[i].head.busy ==>
              s.slots[i].lo == c.jobs[o].digest.lo && LeaderFrom(c, c.jobs[o].digest, s.slots[i].leader)))
  }

  ghost predicate Inv(c: Config, s: State)
    requires c.Valid()
  {
    && Shaped(c, s)
    && (forall t: nat :: t < |c.jobs| ==> ThreadOk(c, s, t))
    && (forall i: nat :: i < c.size ==> SlotOk(c, s, i))
  }

  // ----- A probe ends before it has gone around -----

  ghost function PassedOwners(c: Config, s: State, t: nat, k: nat): set<int>
    requires c.Valid() && Shaped(c, s) && t < |c.jobs|
  {
    if k == 0 then {} else PassedOwners(c, s, t, k - 1) + {s.owner[Probed(c, t, k - 1)]}
  }

  lemma {:induction false} PassedOwner(c: Config, s: State, t: nat, k: nat, o: int) returns (j: nat)
    requires c.Valid() && Shaped(c, s) && t < |c.jobs| && o in PassedOwners(c, s, t, k)
    ensures j < k && s.owner[Probed(c, t, j)] == o
  {
    if o == s.owner[Probed(c, t, k - 1)] { j := k - 1; } else { j := PassedOwner(c, s, t, k - 1, o); }
  }

  lemma OwnersDiffer(c: Config, s: State, t: nat, j: nat, k: nat)
    requires c.Valid() && Inv(c, s) && t < |c.jobs| && j < k < c.size
    requires Other(c, s, t, Probed(c, t, j)) && Other(c, s, t, Probed(c, t, k))
    ensures s.owner[Probed(c, t, j)] != s.owner[Probed(c, t, k)]
  {
    assert SlotOk(c, s, Probed(c, t, j)) && SlotOk(c, s, Probed(c, t, k));
    if Probed(c, t, j) == Probed(c, t, k) {
      ModInjective(c.jobs[t].digest.hi, j, k, c.size);
    }
  }

  lemma NextOwner(c: Config, s: State, t: nat, k: nat) returns (o: int)
    requires c.Valid() && Inv(c, s) && t < |c.jobs| && k < c.size && AllOther(c, s, t, k + 1)
    ensures PassedOwners(c, s, t, k + 1) == PassedOwners(c, s, t, k) + {o}
    ensures o !in PassedOwners(c, s, t, k) && o in Below(|c.jobs|) - {t}
  {
    assert Other(c, s, t, Probed(c, t, k));
    o := s.owner[Probed(c, t, k)];
    if o in PassedOwners(c, s, t, k) {
      var j := PassedOwner(c, s, t, k, o);
      OwnersDiffer(c, s, t, j, k);
    }
  }

  lemma AddOne(a: set<int>, o: int, b: set<int>, k: nat)
    requires |a| == k && o !in a && a <= b && o in b
    ensures |a + {o}| == k + 1 && a + {o} <= b
  {
  }

  lemma PassedStep(c: Config, s: State, t: nat, k: nat)
    requires c.Valid() && Inv(c, s) && t < |c.jobs| && k < c.size && AllOther(c, s, t, k + 1)
    requires |PassedOwners(c, s, t, k)| == k && PassedOwners(c, s, t, k) <= Below(|c.jobs|) - {t}
    ensures |PassedOwners(c, s, t, k + 1)| == k + 1 && PassedOwners(c, s, t, k + 1) <= Below(|c.jobs|) - {t}
  {
    var o := NextOwner(c, s, t, k);
    AddOne(PassedOwners(c, s, t, k), o, Below(|c.jobs|) - {t}, k);
  }

  /** The slots a probe has passed belong to as many different insertions of other digests. */
  lemma {:induction false} PassedCount(c: Config, s: State, t: nat, k: nat)
    requires c.Valid() && Inv(c, s) && t < |c.jobs| && k <= c.size && AllOther(c, s, t, k)
    ensures |PassedOwners(c, s, t, k)| == k && PassedOwners(c, s, t, k) <= Below(|c.jobs|) - {t}
  {
    if k > 0 {
      PassedCount(c, s, t, k - 1);
      PassedStep(c, s, t, k - 1);
    }
  }

  lemma PassOne(c: Config, s: State, t: nat, k: nat)
    requires c.Valid() && Inv(c, s) && t < |c.jobs| && Passed(c, s, t, k) && Other(c, s, t, Probed(c, t, k))
    ensures Passed(c, s, t, k + 1) && k + 1 < |c.jobs|
  {
    PassedCount(c, s, t, k + 1);
    SubsetSize(PassedOwners(c, s, t, k + 1), Below(|c.jobs|) - {t});
  }

  // ----- Every step keeps the invariant -----

  lemma StartInv(c: Config, slots: seq<Slot>)
    requires c.Valid() && Vacant(c, slots)
    ensures Inv(c, Start(c, slots))
  {
  }

  /** A step that only moves a thread that owns nothing. */
  lemma MoveInv(c: Config, s: State, t: nat, pc: Pc)
    requires c.Valid() && Inv(c, s) && t < |c.jobs|
    requires !s.pcs[t].Owning() && !pc.Owning() && ThreadOk(c, Move(s, t, pc), t)
    ensures Inv(c, Move(s, t, pc))
  {
    var s' := Move(s, t, pc);
    forall u: nat | u < |c.jobs| ensures ThreadOk(c, s', u) {
      if u != t { assert ThreadOk(c, s, u); SamePassed(c, s, s', u, s.pcs[u].k); }
    }
    forall i: nat | i < c.size ensures SlotOk(c, s', i) {
      assert SlotOk(c, s, i);
    }
  }

  /** Claimed slots stay claimed, so what has been passed stays passed. */
  lemma SamePassed(c: Config, s: State, s': State, t: nat, k: nat)
    requires c.Valid() && Shaped(c, s) && Shaped(c, s') && t < |c.jobs| && Passed(c, s, t, k)
    requires forall i :: 0 <= i < c.size && s.owner[i] != -1 ==> s'.owner[i] == s.owner[i]
    ensures Passed(c, s', t, k)
  {
    forall j: nat | j < k ensures Other(c, s', t, Probed(c, t, j)) {
      assert Other(c, s, t, Probed(c, t, j));
    }
  }

  lemma DecideOk(c: Config, s: State, t: nat, k: nat)
    requires c.Valid() && Inv(c, s) && t < |c.jobs| && Passed(c, s, t, k)
    ensures var pc := Decide(c, t, k, s.slots[Probed(c, t, k)].head);
      !pc.Owning() && ThreadOk(c, Move(s, t, pc), t)
  {
    var i := Probed(c, t, k);
    var pc := Decide(c, t, k, s.slots[i].head);
    assert SlotOk(c, s, i);
    if pc.Load? {
      PassOne(c, s, t, k);
    }
    SamePassed(c, s, Move(s, t, pc), t, pc.k);
  }

  lemma DecideLeaderOk(c: Config, s: State, t: nat, k: nat)
    requires c.Valid() && Inv(c, s) && t < |c.jobs| && Passed(c, s, t, k) && Holding(c, s, t, Probed(c, t, k))
    ensures var pc := DecideLeader(c, t, k, s.slots[Probed(c, t, k)].leader);
      !pc.Owning() && ThreadOk(c, Move(s, t, pc), t)
  {
    var pc := DecideLeader(c, t, k, s.slots[Probed(c, t, k)].leader);
    SamePassed(c, s, Move(s, t, pc), t, k);
  }

  /** s' differs from s only in slot i and in where thread t is. */
  ghost predicate Touches(c: Config, s: State, s': State, t: nat, i: nat)
    requires Shaped(c, s) && Shaped(c, s') && t < |c.jobs| && i < c.size
  {
    && (forall j: nat :: j < c.size && j != i ==> s'.slots[j] == s.slots[j] && s'.owner[j] == s.owner[j])
    && (forall u: nat :: u < |c.jobs| && u != t ==> s'.pcs[u] == s.pcs[u])
    && (s.owner[i] != -1 ==> s'.owner[i] == s.owner[i])
  }

  /** A slot that does not hold t keeps its owner's account of it. */
  lemma OtherSlots(c: Config, s: State, s': State, t: nat, i: nat, j: nat)
    requires c.Valid() && Inv(c, s) && Shaped(c, s') && t < |c.jobs| && i < c.size && j < c.size && i != j
    requires Touches(c, s, s', t, i)
    requires s.pcs[t].Owning() ==> Probed(c, t, s.pcs[t].k) == i
    ensures SlotOk(c, s', j)
  {
    assert SlotOk(c, s, j);
  }

  lemma ClaimInv(c: Config, s: State, t: nat)
    requires c.Valid() && Inv(c, s) && t < |c.jobs| && s.pcs[t].Claim?
    requires s.slots[Probed(c, t, s.pcs[t].k)].head == s.pcs[t].seen
    ensures Inv(c, Step(c, s, t, false))
  {
    var s' := Step(c, s, t, false);
    var i := Probed(c, t, s.pcs[t].k);
    assert ThreadOk(c, s, t) && SlotOk(c, s, i);
    assert Touches(c, s, s', t, i);
    SamePassed(c, s, s', t, s.pcs[t].k);
    forall u: nat | u < |c.jobs| && u != t ensures ThreadOk(c, s', u) {
      assert ThreadOk(c, s, u);
      SamePassed(c, s, s', u, s.pcs[u].k);
    }
    forall j: nat | j < c.size && j != i ensures SlotOk(c, s', j) { OtherSlots(c, s, s', t, i, j); }
  }

  /** The claimer's plain writes: nobody else looks at the slot before it is published. */
  lemma WriteInv(c: Config, s: State, t: nat)
    requires c.Valid() && Inv(c, s) && t < |c.jobs| && (s.pcs[t].WriteLo? || s.pcs[t].WriteLeader?)
    ensures Inv(c, Step(c, s, t, false))
  {
    var s' := Step(c, s, t, false);
    var i := Probed(c, t, s.pcs[t].k);
    assert ThreadOk(c, s, t) && SlotOk(c, s, i);
    assert Touches(c, s, s', t, i);
    SamePassed(c, s, s', t, s.pcs[t].k);
    forall u: nat | u < |c.jobs| && u != t ensures ThreadOk(c, s', u) {
      assert ThreadOk(c, s, u);
      SamePassed(c, s, s', u, s.pcs[u].k);
    }
    forall j: nat | j < c.size && j != i ensures SlotOk(c, s', j) { OtherSlots(c, s, s', t, i, j); }
  }

  lemma PublishInv(c: Config, s: State, t: nat)
    requires c.Valid() && Inv(c, s) && t < |c.jobs| && s.pcs[t].Publish?
    ensures Inv(c, Step(c, s, t, false))
  {
    var s' := Step(c, s, t, false);
    var i := Probed(c, t, s.pcs[t].k);
    assert ThreadOk(c, s, t) && SlotOk(c, s, i);
    assert Touches(c, s, s', t, i);
    SamePassed(c, s, s', t, s.pcs[t].k);
    assert c.jobs[t] == Job(c.jobs[t].digest, s'.slots[i].leader);
    forall u: nat | u < |c.jobs| && u != t ensures ThreadOk(c, s', u) {
      assert ThreadOk(c, s, u);
      SamePassed(c, s, s', u, s.pcs[u].k);
    }
    forall j: nat | j < c.size && j != i ensures SlotOk(c, s', j) { OtherSlots(c, s, s', t, i, j); }
  }

  /** The leader only ever gets smaller. */
  lemma SwapInv(c: Config, s: State, t: nat)
    requires c.Valid() && Inv(c, s) && t < |c.jobs| && s.pcs[t].SwapLeader?
    requires s.slots[Probed(c, t, s.pcs[t].k)].leader == s.pcs[t].seenLeader
    ensures Inv(c, Step(c, s, t, false))
  {
    var s' := Step(c, s, t, false);
    var i := Probed(c, t, s.pcs[t].k);
    assert ThreadOk(c, s, t) && SlotOk(c, s, i);
    assert Touches(c, s, s', t, i);
    SamePassed(c, s, s', t, s.pcs[t].k);
    assert c.jobs[t] == Job(c.jobs[s.owner[i]].digest, s'.slots[i].leader);
    forall u: nat | u < |c.jobs| && u != t ensures ThreadOk(c, s', u) {
      assert ThreadOk(c, s, u);
      SamePassed(c, s, s', u, s.pcs[u].k);
    }
    forall j: nat | j < c.size && j != i ensures SlotOk(c, s', j) { OtherSlots(c, s, s', t, i, j); }
  }

  /** Going on to the next slot. */
  lemma PassInv(c: Config, s: State, t: nat)
    requires c.Valid() && Inv(c, s) && t < |c.jobs| && !s.pcs[t].Owning() && Other(c, s, t, Probed(c, t, s.pcs[t].k))
    ensures Inv(c, Move(s, t, Load(s.pcs[t].k + 1)))
  {
    var k := s.pcs[t].k;
    assert ThreadOk(c, s, t);
    PassOne(c, s, t, k);
    SamePassed(c, s, Move(s, t, Load(k + 1)), t, k + 1);
    MoveInv(c, s, t, Load(k + 1));
  }

  lemma CompareInv(c: Config, s: State, t: nat)
    requires c.Valid() && Inv(c, s) && t < |c.jobs| && s.pcs[t].CompareLo?
    ensures Inv(c, Step(c, s, t, false))
  {
    var k := s.pcs[t].k;
    var i := Probed(c, t, k);
    assert ThreadOk(c, s, t) && SlotOk(c, s, i);
    var o := s.owner[i];
    if s.slots[i].lo != c.jobs[t].digest.lo {
      PassInv(c, s, t);
    } else {
      assert SameBits(c.jobs[o].digest, c.jobs[t].digest);
      SamePassed(c, s, Move(s, t, ReadLeader(k)), t, k);
      MoveInv(c, s, t, ReadLeader(k));
    }
  }

  lemma StepInv(c: Config, s: State, t: nat, spurious: bool)
    requires c.Valid() && Inv(c, s) && t < |c.jobs|
    ensures Inv(c, Step(c, s, t, spurious))
  {
    var pc := s.pcs[t];
    var k := pc.k;
    var i := Probed(c, t, k);
    assert ThreadOk(c, s, t);
    match pc {
      case Load(_) =>
        DecideOk(c, s, t, k);
        MoveInv(c, s, t, Decide(c, t, k, s.slots[i].head));
      case Claim(_, seen) =>
        if s.slots[i].head == seen && !spurious {
          ClaimInv(c, s, t);
        } else {
          DecideOk(c, s, t, k);
          MoveInv(c, s, t, Decide(c, t, k, s.slots[i].head));
        }
      case WriteLo(_) => WriteInv(c, s, t);
      case WriteLeader(_) => WriteInv(c, s, t);
      case Publish(_) => PublishInv(c, s, t);
      case Spin(_) =>
        var next := if s.slots[i].head.busy then pc else CompareLo(k);
        SamePassed(c, s, Move(s, t, next), t, k);
        MoveInv(c, s, t, next);
      case CompareLo(_) => CompareInv(c, s, t);
      case ReadLeader(_) =>
        DecideLeaderOk(c, s, t, k);
        MoveInv(c, s, t, DecideLeader(c, t, k, s.slots[i].leader));
      case SwapLeader(_, seen) =>
        if s.slots[i].leader == seen {
          SwapInv(c, s, t);
        } else {
          DecideLeaderOk(c, s, t, k);
          MoveInv(c, s, t, DecideLeader(c, t, k, s.slots[i].leader));
        }
      case Done(_, _) =>
    }
  }

  /** Every state of every run satisfies the invariant. */
  lemma {:induction false} RunInv(c: Config, slots: seq<Slot>, schedule: seq<Turn>)
    requires c.Valid() && Vacant(c, slots) && ByThreads(c, schedule)
    ensures Inv(c, Run(c, slots, schedule))
    decreases |schedule|
  {
    if schedule == [] {
      StartInv(c, slots);
    } else {
      var n := |schedule| - 1;
      RunInv(c, slots, schedule[..n]);
      StepInv(c, Run(c, slots, schedule[..n]), schedule[n].thread, schedule[n].spurious);
    }
  }

  // ----- What a finished round has done -----

  ghost predicate Finished(c: Config, s: State)
    requires Shaped(c, s)
  {
    forall t :: 0 <= t < |c.jobs| ==> s.pcs[t].Done?
  }

  ghost predicate Won(c: Config, s: State, t: int)
    requires Shaped(c, s)
  {
    0 <= t < |c.jobs| && s.pcs[t].Done? && s.pcs[t].inserted
  }

  /** Two claimed slots never hold the same digest. */
  lemma OneSlotPerDigest(c: Config, s: State, t: nat, u: nat)
    requires c.Valid() && Inv(c, s) && t < |c.jobs| && u < |c.jobs|
    requires s.pcs[t].Owning() && s.pcs[u].Owning() && c.jobs[t].digest == c.jobs[u].digest
    ensures t == u
  {
    assert ThreadOk(c, s, t) && ThreadOk(c, s, u);
    assert Probed(c, u, s.pcs[t].k) == Probed(c, t, s.pcs[t].k);
    assert Probed(c, t, s.pcs[u].k) == Probed(c, u, s.pcs[u].k);
  }

  /** The insertion of each digest that returned true. */
  lemma WinnerOf(c: Config, s: State, t: nat) returns (u: nat)
    requires c.Valid() && Inv(c, s) && Finished(c, s) && t < |c.jobs|
    ensures Won(c, s, u) && c.jobs[u].digest == c.jobs[t].digest
    ensures forall v :: Won(c, s, v) && c.jobs[v].digest == c.jobs[t].digest ==> v == u
  {
    assert ThreadOk(c, s, t);
    var i := Probed(c, t, s.pcs[t].k);
    assert SlotOk(c, s, i);
    u := s.owner[i];
    forall v | Won(c, s, v) && c.jobs[v].digest == c.jobs[t].digest ensures v == u {
      OneSlotPerDigest(c, s, v, u);
    }
  }

  ghost function Winners(c: Config, s: State): set<int>
    requires Shaped(c, s)
  {
    set t | 0 <= t < |c.jobs| && Won(c, s, t)
  }

  ghost function Digests(c: Config): set<Digest> { set t | 0 <= t < |c.jobs| :: c.jobs[t].digest }

  ghost function DigestsOf(c: Config, ts: set<int>): set<Digest>
    requires forall t :: t in ts ==> 0 <= t < |c.jobs|
  {
    set t | t in ts :: c.jobs[t].digest
  }

  lemma {:induction false} InjectiveImage(c: Config, ts: set<int>)
    requires forall t :: t in ts ==> 0 <= t < |c.jobs|
    requires forall t, u :: t in ts && u in ts && c.jobs[t].digest == c.jobs[u].digest ==> t == u
    ensures |DigestsOf(c, ts)| == |ts|
    decreases ts
  {
    if ts == {} {
      assert DigestsOf(c, ts) == {};
    } else {
      var t := AnyOf(ts);
      InjectiveImage(c, ts - {t});
      assert DigestsOf(c, ts) == DigestsOf(c, ts - {t}) + {c.jobs[t].digest};
    }
  }

  /** As many insertions return true as there are distinct digests: the count that the
      convergence test compares. */
  lemma WinnersCountClasses(c: Config, s: State)
    requires c.Valid() && Inv(c, s) && Finished(c, s)
    ensures |Winners(c, s)| == |Digests(c)|
  {
    var ws := Winners(c, s);
    forall t, u | t in ws && u in ws && c.jobs[t].digest == c.jobs[u].digest ensures t == u {
      OneSlotPerDigest(c, s, t, u);
    }
    InjectiveImage(c, ws);
    forall t | 0 <= t < |c.jobs| ensures c.jobs[t].digest in DigestsOf(c, ws) {
      var u := WinnerOf(c, s, t);
      assert u in ws;
    }
    assert DigestsOf(c, ws) == Digests(c);
  }

  /** r is the lowest-priority section inserted with digest d. */
  ghost predicate IsLeader(c: Config, d: Digest, r: int) {
    && LeaderFrom(c, d, r)
    && forall t :: 0 <= t < |c.jobs| && c.jobs[t].digest == d ==> r <= c.jobs[t].section
  }

  lemma SlotLeader(c: Config, s: State, t: nat)
    requires c.Valid() && Inv(c, s) && Finished(c, s) && t < |c.jobs|
    ensures IsLeader(c, c.jobs[t].digest, s.slots[Probed(c, t, s.pcs[t].k)].leader)
  {
    var d := c.jobs[t].digest;
    var i := Probed(c, t, s.pcs[t].k);
    assert ThreadOk(c, s, t) && SlotOk(c, s, i);
    forall u | 0 <= u < |c.jobs| && c.jobs[u].digest == d ensures s.slots[i].leader <= c.jobs[u].section {
      assert ThreadOk(c, s, u);
      var j := Probed(c, u, s.pcs[u].k);
      assert SlotOk(c, s, j);
      OneSlotPerDigest(c, s, s.owner[i], s.owner[j]);
    }
  }

  lemma Distinguished(c: Config, s: State, t: nat, j: nat)
    requires c.Valid() && Inv(c, s) && Finished(c, s) && t < |c.jobs| && j < s.pcs[t].k
    ensures var slot := s.slots[Probed(c, t, j)];
      !(slot.head == Head(c.round, false, Tag(c.jobs[t].digest)) && slot.lo == c.jobs[t].digest.lo)
  {
    assert ThreadOk(c, s, t);
    var i := Probed(c, t, j);
    assert Other(c, s, t, i) && SlotOk(c, s, i);
    assert !SameBits(c.jobs[s.owner[i]].digest, c.jobs[t].digest);
  }

  /** DigestMap::find, after the round: follows the same probe to the lowest-priority section. */
  method Find(c: Config, slots: seq<Slot>, d: Digest, ghost s: State, ghost t: nat) returns (r: int)
    requires c.Valid() && Inv(c, s) && Finished(c, s) && slots == s.slots
    requires t < |c.jobs| && c.jobs[t].digest == d
    ensures IsLeader(c, d, r)
  {
    ghost var k: nat := 0;
    ghost var last := s.pcs[t].k;
    assert ThreadOk(c, s, t) && SlotOk(c, s, Probed(c, t, last));
    var i := d.hi % c.size;
    while !(slots[i].head == Head(c.round, false, Tag(d)) && slots[i].lo == d.lo)
      invariant k <= last && i == Probed(c, t, k) < c.size
      decreases last - k
    {
      NextProbe(d.hi, k, c.size);
      i := (i + 1) % c.size;
      k := k + 1;
    }
    if k < last { Distinguished(c, s, t, k); }
    SlotLeader(c, s, t);
    r := slots[i].leader;
  }

  lemma NextProbe(h: nat, k: nat, n: nat)
    requires n > 0
    ensures ((h + k) % n + 1) % n == (h + k + 1) % n
  {
    var q, r := (h + k) / n, (h + k) % n;
    assert h + k == q * n + r;
    ModOf(q, r + 1, n);
  }

  /** However the insertions of a round interleave, once all have returned exactly one insertion
      per digest returned true, as many as there are distinct digests, and every slot leads to
      the lowest-priority section of its digest. */
  lemma RoundResult(c: Config, slots: seq<Slot>, schedule: seq<Turn>)
    requires c.Valid() && Vacant(c, slots) && ByThreads(c, schedule)
    requires Finished(c, Run(c, slots, schedule))
    ensures |Winners(c, Run(c, slots, schedule))| == |Digests(c)|
    ensures forall t, u ::
      (Won(c, Run(c, slots, schedule), t) && Won(c, Run(c, slots, schedule), u)
       && c.jobs[t].digest == c.jobs[u].digest) ==> t == u
    ensures var s := Run(c, slots, schedule);
      forall t :: 0 <= t < |c.jobs| ==> IsLeader(c, c.jobs[t].digest, s.slots[Probed(c, t, s.pcs[t].k)].leader)
  {
    var s := Run(c, slots, schedule);
    RunInv(c, slots, schedule);
    WinnersCountClasses(c, s);
    forall t, u | Won(c, s, t) && Won(c, s, u) && c.jobs[t].digest == c.jobs[u].digest ensures t == u {
      OneSlotPerDigest(c, s, t, u);
    }
    forall t | 0 <= t < |c.jobs|
      ensures IsLeader(c, c.jobs[t].digest, s.slots[Probed(c, t, s.pcs[t].k)].leader)
    {
      SlotLeader(c, s, t);
    }
  }

  // ----- From round to round -----

  const ROUND_LIMIT: nat := 0x8000

  ghost predicate Stamped(slots: seq<Slot>, bound: nat) {
    forall i :: 0 <= i < |slots| ==> slots[i].head.round < bound
  }

  /** A round writes no stamp but its own. */
  lemma {:induction false} RunStamps(c: Config, slots: seq<Slot>, schedule: seq<Turn>)
    requires c.Valid() && Vacant(c, slots) && ByThreads(c, schedule)
    requires Stamped(slots, c.round)
    ensures Stamped(Run(c, slots, schedule).slots, c.round + 1)
    decreases |schedule|
  {
    if schedule != [] {
      RunStamps(c, slots, schedule[..|schedule| - 1]);
    }
  }

  /** next_round(): stamps of earlier rounds read as vacant, also after the 15-bit counter restarts. */
  method NextRound(round: nat, slots: seq<Slot>) returns (round': nat, slots': seq<Slot>)
    requires 0 < round < ROUND_LIMIT && Stamped(slots, round + 1)
    ensures 0 < round' < ROUND_LIMIT && |slots'| == |slots| && Stamped(slots', round')
    ensures round + 1 < ROUND_LIMIT ==> round' == round + 1 && slots' == slots
    ensures round + 1 == ROUND_LIMIT ==> round' == 1 && forall i :: 0 <= i < |slots'| ==> Pack(slots'[i].head) == 0
  {
    round', slots' := round + 1, slots;
    if round' == ROUND_LIMIT {
      var i := 0;
      while i < |slots|
        invariant 0 <= i <= |slots'| == |slots|
        invariant forall j :: 0 <= j < i ==> slots'[j].head == Head(0, false, 0)
      {
        slots' := slots'[i := slots'[i].(head := Head(0, false, 0))];
        i := i + 1;
      }
      round' := 1;
    }
  }

  /** The first word as stored: round << 49 | busy << 48 | tag. */
  function Pack(h: Head): nat {
    h.round * 0x2_0000_0000_0000 + (if h.busy then 0x1_0000_0000_0000 else 0) + h.tag
  }

  /** With a 15-bit round and a 48-bit tag the word fits in 64 bits and its parts can be read back. */
  lemma PackUnpack(h: Head)
    requires h.round < ROUND_LIMIT && h.tag < 0x1_0000_0000_0000
    ensures Pack(h) < 0x1_0000_0000_0000_0000
    ensures Pack(h) / 0x2_0000_0000_0000 == h.round
    ensures Pack(h) % 0x1_0000_0000_0000 == h.tag
    ensures (Pack(h) / 0x1_0000_0000_0000) % 2 == (if h.busy then 1 else 0)
  {
    var low := (if h.busy then 0x1_0000_0000_0000 else 0) + h.tag;
    assert Pack(h) == h.round * 0x2_0000_0000_0000 + low && low < 0x2_0000_0000_0000;
    assert Pack(h) / 0x1_0000_0000_0000 == 2 * h.round + (if h.busy then 1 else 0);
  }

  /** The constructor's table is always larger than the number of digests. */
  lemma TableIsLargeEnough(n: nat)
    ensures n < BitCeil(n * 2)
  {
  }
}
