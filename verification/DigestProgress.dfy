/** The insertions of a round cannot block one another: whatever has happened, all can return. */
module DigestProgress {
  import opened DigestMap
  import opened Sets

  /** Every other thread that has claimed a slot has published it. */
  ghost predicate OthersSettled(s: State, t: nat) {
    forall u :: 0 <= u < |s.pcs| && u != t && s.pcs[u].Owning() ==> s.pcs[u].Done?
  }

  /** Thread t does not spin on anybody's slot. */
  ghost predicate Free(s: State, t: nat) { t < |s.pcs| && (s.pcs[t].Owning() || OthersSettled(s, t)) }

  /** How many steps a free thread makes at most before it returns or probes the next slot. What
      it has read may be out of date once. */
  function StepsLeft(pc: Pc, slot: Slot): nat {
    match pc
    case Load(_) => 9
    case Claim(_, seen) => if slot.head == seen then 7 else 8
    case Spin(_) => 6
    case CompareLo(_) => 5
    case ReadLeader(_) => 4
    case SwapLeader(_, seen) => if slot.leader == seen then 2 else 3
    case WriteLo(_) => 3
    case WriteLeader(_) => 2
    case Publish(_) => 1
    case Done(_, _) => 0
  }

  ghost function Left(c: Config, s: State, t: nat): nat
    requires c.Valid() && Shaped(c, s) && t < |c.jobs|
  {
    StepsLeft(s.pcs[t], s.slots[Probed(c, t, s.pcs[t].k)])
  }

  ghost predicate Closer(c: Config, s: State, s': State, t: nat)
    requires c.Valid() && Shaped(c, s) && Shaped(c, s') && t < |c.jobs|
  {
    s.pcs[t].k < s'.pcs[t].k || (s.pcs[t].k == s'.pcs[t].k && Left(c, s', t) < Left(c, s, t))
  }

  /** A step of thread t and of nobody else. */
  ghost predicate OnlyStepped(s: State, s': State, t: nat) {
    |s'.pcs| == |s.pcs| && forall u :: 0 <= u < |s.pcs| && u != t ==> s'.pcs[u] == s.pcs[u]
  }

  lemma FreeStep(c: Config, s: State, t: nat)
    requires c.Valid() && Inv(c, s) && t < |c.jobs| && Free(s, t) && !s.pcs[t].Done?
    ensures var s' := Step(c, s, t, false);
      Inv(c, s') && OnlyStepped(s, s', t) && Closer(c, s, s', t) && Free(s', t)
  {
    StepInv(c, s, t, false);
    var i := Probed(c, t, s.pcs[t].k);
    assert ThreadOk(c, s, t) && SlotOk(c, s, i);
    var s' := Step(c, s, t, false);
    assert OnlyStepped(s, s', t);
    if OthersSettled(s, t) { assert OthersSettled(s', t); }
  }

  lemma RunOneMore(c: Config, slots: seq<Slot>, schedule: seq<Turn>, t: nat)
    requires c.Valid() && Vacant(c, slots) && ByThreads(c, schedule) && t < |c.jobs|
    ensures ByThreads(c, schedule + [Turn(t, false)])
    ensures Run(c, slots, schedule + [Turn(t, false)]) == Step(c, Run(c, slots, schedule), t, false)
  {
    assert (schedule + [Turn(t, false)])[..|schedule|] == schedule;
  }

  lemma {:induction false} Returns(c: Config, slots: seq<Slot>, schedule: seq<Turn>, t: nat) returns (more: seq<Turn>)
    requires c.Valid() && Vacant(c, slots) && ByThreads(c, schedule) && t < |c.jobs|
    requires Free(Run(c, slots, schedule), t)
    ensures schedule <= more && ByThreads(c, more)
    ensures OnlyStepped(Run(c, slots, schedule), Run(c, slots, more), t) && Run(c, slots, more).pcs[t].Done?
    decreases c.size - Run(c, slots, schedule).pcs[t].k, Left(c, Run(c, slots, schedule), t)
  {
    var s := Run(c, slots, schedule);
    RunInv(c, slots, schedule);
    more := schedule;
    if !s.pcs[t].Done? {
      FreeStep(c, s, t);
      RunOneMore(c, slots, schedule, t);
      assert ThreadOk(c, s, t) && ThreadOk(c, Step(c, s, t, false), t);
      more := Returns(c, slots, schedule + [Turn(t, false)], t);
    }
  }

  ghost function Unfinished(s: State): set<int> { set t | 0 <= t < |s.pcs| && !s.pcs[t].Done? }

  /** As long as some insertion has not returned, one of those is free. */
  lemma SomeoneIsFree(s: State) returns (t: nat)
    requires Unfinished(s) != {}
    ensures t in Unfinished(s) && Free(s, t)
  {
    if u :| 0 <= u < |s.pcs| && s.pcs[u].Owning() && !s.pcs[u].Done? {
      t := u;
    } else {
      t := AnyOf(Unfinished(s));
    }
  }

  lemma OneFewer(s: State, s': State, t: nat)
    requires t in Unfinished(s) && OnlyStepped(s, s', t) && s'.pcs[t].Done?
    ensures |Unfinished(s')| < |Unfinished(s)|
  {
    assert Unfinished(s') == Unfinished(s) - {t};
  }

  /** Every run of a round is the beginning of one in which all insertions have returned. */
  lemma {:induction false} CanFinish(c: Config, slots: seq<Slot>, schedule: seq<Turn>) returns (more: seq<Turn>)
    requires c.Valid() && Vacant(c, slots) && ByThreads(c, schedule)
    ensures schedule <= more && ByThreads(c, more) && Finished(c, Run(c, slots, more))
    decreases |Unfinished(Run(c, slots, schedule))|
  {
    var s := Run(c, slots, schedule);
    more := schedule;
    if Unfinished(s) != {} {
      var t := SomeoneIsFree(s);
      var next := Returns(c, slots, schedule, t);
      OneFewer(s, Run(c, slots, next), t);
      more := CanFinish(c, slots, next);
    } else {
      forall t | 0 <= t < |c.jobs| ensures s.pcs[t].Done? { assert t !in Unfinished(s); }
    }
  }
}
