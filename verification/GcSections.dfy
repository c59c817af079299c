/** Mark-sweep collection of sections. Marking is modelled as a bag of pending actions from
    which any one may be taken next, which covers direct recursion, work items handed to other
    threads and nested parallel loops in every order. */
module GcSections {

  /** What a relocation's symbol resolves to. A target of -1 is no section. */
  datatype Ref = ToDso(file: int) | ToFragment(frag: int) | ToSection(target: int, name: string)

  datatype Section = Section(
    name: string,
    isIdentifier: bool,    // the name is a C identifier
    alloc: bool,           // SHF_ALLOC
    keep: bool,            // should_keep()
    fdeTargets: seq<int>,  // targets of its FDEs' relocations but the first of each
    rels: seq<Ref>,
    exidx: int)            // its unwind table on 32-bit ARM, or -1

  /** `roots` are the symbols that are exported, marked as roots or referred to by CIEs. */
  datatype Link = Link(sections: seq<Section>, alive: set<int>, roots: seq<Ref>) {
    ghost predicate Valid() { forall x :: x in alive ==> 0 <= x < |sections| }

    /** Subject to collection. */
    predicate Collectable(x: int)
    {
      0 <= x < |sections| && x in alive && sections[x].alloc
    }
  }

  // ----- What a section refers to -----

  datatype Action = Mark(sec: int) | TouchFragment(frag: int) | TouchDso(file: int)

  function Marks(targets: seq<int>): (r: seq<Action>)
    ensures |r| == |targets|
  {
    seq(|targets|, i requires 0 <= i < |targets| => Mark(targets[i]))
  }

  /** start_stop_name() */
  function StartStopName(sym: string): string {
    if "__start_" <= sym then sym[8..] else if "__stop_" <= sym then sym[7..] else ""
  }

  /** The entry of the start/stop map for a name. */
  function Named(l: Link, name: string, n: nat): (r: seq<int>)
    requires n <= |l.sections|
    ensures forall x :: x in r <==>
      0 <= x < n && l.Collectable(x) && l.sections[x].isIdentifier && l.sections[x].name == name
  {
    if n == 0 then [] else
      Named(l, name, n - 1) +
      if l.Collectable(n - 1) && l.sections[n - 1].isIdentifier && l.sections[n - 1].name == name then [n - 1] else []
  }

  function RefActions(l: Link, r: Ref): seq<Action> {
    match r
    case ToDso(f) => [TouchDso(f)]
    case ToFragment(f) => [TouchFragment(f)]
    case ToSection(x, sym) =>
      var name := StartStopName(sym);
      [Mark(x)] + if name == "" then [] else Marks(Named(l, name, |l.sections|))
  }

  function RelActions(l: Link, rels: seq<Ref>): seq<Action> {
    if rels == [] then [] else RefActions(l, rels[0]) + RelActions(l, rels[1..])
  }

  /** Everything visit_section() does for section x. */
  function Actions(l: Link, x: int): seq<Action>
    requires 0 <= x < |l.sections|
  {
    var s := l.sections[x];
    Marks(s.fdeTargets) + RelActions(l, s.rels) + if s.exidx == -1 then [] else [Mark(s.exidx)]
  }

  function RootAction(r: Ref): Action {
    match r
    case ToDso(_) => Mark(-1)
    case ToFragment(f) => TouchFragment(f)
    case ToSection(x, _) => Mark(x)
  }

  // ----- What is reachable -----

  /** A section to keep, or one that a root symbol is in. */
  ghost predicate IsRoot(l: Link, x: int) {
    l.Collectable(x) && (l.sections[x].keep || exists r :: r in l.roots && r.ToSection? && r.target == x)
  }

  /** x is reached from a root by at most n references between collectable sections. */
  ghost predicate ReachedIn(l: Link, x: int, n: nat)
    decreases n
  {
    IsRoot(l, x) ||
    (n > 0 && exists y :: Refers(l, y, x) && ReachedIn(l, y, n - 1))
  }

  /** An edge: an unwind record, an unwind table, a relocation, or a relocation against a
      __start_ or __stop_ symbol of x's name. */
  ghost predicate Refers(l: Link, y: int, x: int) {
    && l.Collectable(x) && l.Collectable(y)
    && (|| x in l.sections[y].fdeTargets
        || x == l.sections[y].exidx
        || exists r :: r in l.sections[y].rels && NamesSection(l, r, x))
  }

  predicate NamesSection(l: Link, r: Ref, x: int)
    requires 0 <= x < |l.sections|
  {
    r.ToSection? && (r.target == x || StartsOrStops(l.sections[x], r.name))
  }

  predicate StartsOrStops(s: Section, sym: string) {
    s.isIdentifier && s.name != "" && (sym == "__start_" + s.name || sym == "__stop_" + s.name)
  }

  lemma StartStopNames(sym: string, name: string)
    requires name != ""
    ensures StartStopName(sym) == name <==> sym == "__start_" + name || sym == "__stop_" + name
  {
    if "__start_" <= sym {
      assert sym == "__start_" + sym[8..];
      assert sym[4] == 'a';
      assert ("__stop_" + name)[4] == 'o';
    } else if "__stop_" <= sym {
      assert sym == "__stop_" + sym[7..];
    }
  }

  lemma MarksAre(targets: seq<int>, x: int)
    ensures Mark(x) in Marks(targets) <==> x in targets
  {
    var marks := Marks(targets);
    assert forall i :: 0 <= i < |targets| ==> marks[i] == Mark(targets[i]);
  }

  lemma RefMarks(l: Link, r: Ref, x: int)
    requires l.Collectable(x)
    ensures Mark(x) in RefActions(l, r) <==> NamesSection(l, r, x)
  {
    if r.ToSection? {
      var name := StartStopName(r.name);
      var named := Named(l, name, |l.sections|);
      MarksAre(named, x);
      if l.sections[x].name != "" {
        StartStopNames(r.name, l.sections[x].name);
      }
    }
  }

  lemma RefTouches(l: Link, r: Ref, a: Action)
    requires !a.Mark?
    ensures a in RefActions(l, r) <==> r == RefOf(a)
  {
    if r.ToSection? {
      var marks := Marks(Named(l, StartStopName(r.name), |l.sections|));
      assert forall i :: 0 <= i < |marks| ==> marks[i].Mark?;
    }
  }

  function RefOf(a: Action): Ref
    requires !a.Mark?
  {
    if a.TouchFragment? then ToFragment(a.frag) else ToDso(a.file)
  }

  lemma {:induction false} RelActionsAre(l: Link, rels: seq<Ref>, a: Action)
    ensures a in RelActions(l, rels) <==> exists r :: r in rels && a in RefActions(l, r)
  {
    if rels != [] {
      RelActionsAre(l, rels[1..], a);
      assert rels == [rels[0]] + rels[1..];
    }
  }

  /** visit_section() marks what the section refers to, no more and no less. */
  lemma ActionsMark(l: Link, y: int, x: int)
    requires l.Collectable(y) && l.Collectable(x)
    ensures Mark(x) in Actions(l, y) <==> Refers(l, y, x)
  {
    var s := l.sections[y];
    MarksAre(s.fdeTargets, x);
    RelActionsAre(l, s.rels, Mark(x));
    forall r | r in s.rels ensures Mark(x) in RefActions(l, r) <==> NamesSection(l, r, x) {
      RefMarks(l, r, x);
    }
  }

  lemma ActionsTouch(l: Link, y: int, a: Action)
    requires 0 <= y < |l.sections| && !a.Mark?
    ensures a in Actions(l, y) <==> RefOf(a) in l.sections[y].rels
  {
    var s := l.sections[y];
    var marks := Marks(s.fdeTargets);
    assert forall i :: 0 <= i < |marks| ==> marks[i].Mark?;
    RelActionsAre(l, s.rels, a);
    forall r | r in s.rels ensures a in RefActions(l, r) <==> r == RefOf(a) {
      RefTouches(l, r, a);
    }
  }

  ghost predicate Reachable(l: Link, x: int) { exists n: nat :: ReachedIn(l, x, n) }

  // ----- Marking -----

  /** `order` lists the sections visited, in order. */
  datatype State = State(visited: set<int>, frags: set<int>, dsos: set<int>, pending: seq<Action>, order: seq<int>)

  /** mark_section() */
  predicate Fresh(l: Link, s: State, x: int) { 0 <= x < |l.sections| && x in l.alive && x !in s.visited }

  /** Performs one action. */
  function Perform(l: Link, s: State, a: Action): State {
    match a
    case Mark(x) =>
      if Fresh(l, s, x) then
        s.(visited := s.visited + {x}, pending := s.pending + Actions(l, x), order := s.order + [x])
      else s
    case TouchFragment(f) => s.(frags := s.frags + {f})
    case TouchDso(f) => s.(dsos := s.dsos + {f})
  }

  function Take(s: State, k: nat): State
    requires k < |s.pending|
  {
    s.(pending := s.pending[..k] + s.pending[k + 1..])
  }

  /** Takes any pending action. */
  function Step(l: Link, s: State, k: nat): State
    requires k < |s.pending|
  {
    Perform(l, Take(s, k), s.pending[k])
  }

  /** After set_visited() on every live section that is not mapped to memory, the roots to mark. */
  ghost function Start(l: Link): State
    requires l.Valid()
  {
    State(set x | x in l.alive && !l.sections[x].alloc, {}, {},
          Marks(Kept(l, |l.sections|)) + RootActions(l.roots), [])
  }

  ghost function Kept(l: Link, n: nat): (r: seq<int>)
    requires n <= |l.sections|
    ensures forall x :: x in r <==> 0 <= x < n && l.Collectable(x) && l.sections[x].keep
  {
    if n == 0 then [] else
      Kept(l, n - 1) + if l.Collectable(n - 1) && l.sections[n - 1].keep then [n - 1] else []
  }

  ghost function RootActions(roots: seq<Ref>): (r: seq<Action>)
    ensures |r| == |roots| && forall i :: 0 <= i < |roots| ==> r[i] == RootAction(roots[i])
  {
    seq(|roots|, i requires 0 <= i < |roots| => RootAction(roots[i]))
  }

  /** The next step of a schedule; k picks one of the pending actions, whatever their number. */
  function Turn(l: Link, s: State, k: nat): State {
    if s.pending == [] then s else Step(l, s, k % |s.pending|)
  }

  /** The state after a schedule of turns. */
  ghost function Run(l: Link, schedule: seq<nat>): State
    requires l.Valid()
  {
    if schedule == [] then Start(l)
    else Turn(l, Run(l, schedule[..|schedule| - 1]), schedule[|schedule| - 1])
  }

  // ----- The invariant -----

  /** The action's effect is in place. */
  ghost predicate Settled(l: Link, s: State, a: Action) {
    match a
    case Mark(x) => !Fresh(l, s, x)
    case TouchFragment(f) => f in s.frags
    case TouchDso(f) => f in s.dsos
  }

  /** The action comes from the roots or from a visited section. */
  ghost predicate Justified(l: Link, s: State, a: Action)
    requires l.Valid()
  {
    a in Start(l).pending || exists y :: y in s.order && 0 <= y < |l.sections| && a in Actions(l, y)
  }

  ghost predicate Owed(l: Link, s: State, a: Action) { a in s.pending || Settled(l, s, a) }

  /** What is visited, and that it is reachable and visited once. */
  ghost predicate Visits(l: Link, s: State)
    requires l.Valid()
  {
    && (forall x :: x in s.visited <==> x in l.alive && (!l.sections[x].alloc || x in s.order))
    && (forall x :: x in s.order ==> l.Collectable(x) && Reachable(l, x))
    && (forall i, j :: 0 <= i < j < |s.order| ==> s.order[i] != s.order[j])
  }

  /** Nothing happens without a reason. */
  ghost predicate Reasons(l: Link, s: State)
    requires l.Valid()
  {
    && (forall a {:trigger Justified(l, s, a)} :: a in s.pending ==> Justified(l, s, a))
    && (forall f :: f in s.frags ==> Justified(l, s, TouchFragment(f)))
    && (forall f :: f in s.dsos ==> Justified(l, s, TouchDso(f)))
  }

  /** Nothing is forgotten. */
  ghost predicate Debts(l: Link, s: State)
    requires l.Valid()
  {
    && (forall a {:trigger Owed(l, s, a)} :: a in Start(l).pending ==> Owed(l, s, a))
    && (forall y :: y in s.order && 0 <= y < |l.sections| ==> AllOwed(l, s, Actions(l, y)))
  }

  ghost predicate AllOwed(l: Link, s: State, actions: seq<Action>) {
    forall a {:trigger Owed(l, s, a)} :: a in actions ==> Owed(l, s, a)
  }

  ghost predicate Inv(l: Link, s: State)
    requires l.Valid()
  {
    Visits(l, s) && Reasons(l, s) && Debts(l, s)
  }

  // ----- Every step keeps it -----

  lemma StartInv(l: Link)
    requires l.Valid()
    ensures Inv(l, Start(l))
  {
  }

  /** s' is s after some more work. */
  ghost predicate Later(s: State, s': State) {
    && s.visited <= s'.visited && s.frags <= s'.frags && s.dsos <= s'.dsos
    && forall y :: y in s.order ==> y in s'.order
  }

  lemma JustifiedGrows(l: Link, s: State, s': State, a: Action)
    requires l.Valid() && Later(s, s') && Justified(l, s, a)
    ensures Justified(l, s', a)
  {
    if a !in Start(l).pending {
      var y :| y in s.order && 0 <= y < |l.sections| && a in Actions(l, y);
      assert y in s'.order;
    }
  }

  /** Taking an action away forgets nothing if its effect is in place. */
  lemma OwedGrows(l: Link, s: State, k: nat, s': State, a: Action)
    requires k < |s.pending| && Later(s, s') && Owed(l, s, a)
    requires Settled(l, s', s.pending[k])
    requires forall b :: b in Take(s, k).pending ==> b in s'.pending
    ensures Owed(l, s', a)
  {
    if a in s.pending && a != s.pending[k] {
      var i :| 0 <= i < |s.pending| && s.pending[i] == a;
      var rest := s.pending[..k] + s.pending[k + 1..];
      assert rest[if i < k then i else i - 1] == a;
      assert a in Take(s, k).pending;
    }
  }

  /** Marking starts from the roots, no more and no less. */
  lemma StartMarks(l: Link, x: int)
    requires l.Valid() && l.Collectable(x)
    ensures Mark(x) in Start(l).pending <==> IsRoot(l, x)
  {
    var kept := Kept(l, |l.sections|);
    MarksAre(kept, x);
    var roots := RootActions(l.roots);
    if r :| r in l.roots && r.ToSection? && r.target == x {
      var i :| 0 <= i < |l.roots| && l.roots[i] == r;
      assert roots[i] == Mark(x);
    }
    if Mark(x) in roots {
      var i :| 0 <= i < |roots| && roots[i] == Mark(x);
      assert l.roots[i] in l.roots;
    }
  }

  lemma MarkedIsReachable(l: Link, s: State, x: int)
    requires l.Valid() && Visits(l, s) && Justified(l, s, Mark(x)) && l.Collectable(x)
    ensures Reachable(l, x)
  {
    if Mark(x) in Start(l).pending {
      StartMarks(l, x);
      assert ReachedIn(l, x, 0);
    } else {
      var y :| y in s.order && 0 <= y < |l.sections| && Mark(x) in Actions(l, y);
      assert Reachable(l, y);
      var n: nat :| ReachedIn(l, y, n);
      ActionsMark(l, y, x);
      assert ReachedIn(l, x, n + 1);
    }
  }

  lemma StepVisits(l: Link, s: State, k: nat)
    requires l.Valid() && Inv(l, s) && k < |s.pending|
    ensures Visits(l, Step(l, s, k)) && Later(s, Step(l, s, k))
  {
    var a := s.pending[k];
    assert Justified(l, s, a);
    if a.Mark? && Fresh(l, s, a.sec) {
      MarkedIsReachable(l, s, a.sec);
    }
  }

  lemma StepPending(l: Link, s: State, k: nat, b: Action)
    requires l.Valid() && Visits(l, s) && k < |s.pending|
    requires forall a :: a in s.pending ==> Justified(l, s, a)
    requires Later(s, Step(l, s, k)) && b in Step(l, s, k).pending
    ensures Justified(l, Step(l, s, k), b)
  {
    var s' := Step(l, s, k);
    if b in s.pending {
      JustifiedGrows(l, s, s', b);
    } else {
      var x := s.pending[k].sec;
      assert b !in Take(s, k).pending;
      assert x in s'.order && b in Actions(l, x);
    }
  }

  lemma TouchedBy(l: Link, s: State, k: nat, b: Action)
    requires k < |s.pending| && !b.Mark? && Settled(l, Step(l, s, k), b)
    ensures Settled(l, s, b) || b == s.pending[k]
  {
  }

  lemma StepTouched(l: Link, s: State, k: nat, b: Action)
    requires l.Valid() && k < |s.pending| && Justified(l, s, s.pending[k]) && Later(s, Step(l, s, k))
    requires !b.Mark? && Settled(l, Step(l, s, k), b)
    requires Settled(l, s, b) ==> Justified(l, s, b)
    ensures Justified(l, Step(l, s, k), b)
  {
    TouchedBy(l, s, k, b);
    var s' := Step(l, s, k);
    JustifiedGrows(l, s, s', b);
  }

  lemma StepReasons(l: Link, s: State, k: nat)
    requires l.Valid() && Visits(l, s) && Reasons(l, s) && k < |s.pending| && Later(s, Step(l, s, k))
    ensures Reasons(l, Step(l, s, k))
  {
    var s' := Step(l, s, k);
    forall a | a in s.pending ensures Justified(l, s, a) {
    }
    forall b {:trigger Justified(l, s', b)} | b in s'.pending ensures Justified(l, s', b) {
      StepPending(l, s, k, b);
    }
    forall f | f in s'.frags ensures Justified(l, s', TouchFragment(f)) {
      StepTouched(l, s, k, TouchFragment(f));
    }
    forall f | f in s'.dsos ensures Justified(l, s', TouchDso(f)) {
      StepTouched(l, s, k, TouchDso(f));
    }
  }

  lemma StepDebts(l: Link, s: State, k: nat)
    requires l.Valid() && Inv(l, s) && k < |s.pending|
    ensures Debts(l, Step(l, s, k))
  {
    var s' := Step(l, s, k);
    StepVisits(l, s, k);
    forall a | a in Start(l).pending ensures Owed(l, s', a) {
      assert Owed(l, s, a);
      OwedGrows(l, s, k, s', a);
    }
    forall y | y in s'.order && 0 <= y < |l.sections| ensures AllOwed(l, s', Actions(l, y)) {
      forall a | a in Actions(l, y) ensures Owed(l, s', a) {
        if y in s.order {
          assert AllOwed(l, s, Actions(l, y));
          assert Owed(l, s, a);
          OwedGrows(l, s, k, s', a);
        }
      }
    }
  }

  lemma StepInv(l: Link, s: State, k: nat)
    requires l.Valid() && Inv(l, s) && k < |s.pending|
    ensures Inv(l, Step(l, s, k))
  {
    StepVisits(l, s, k);
    StepReasons(l, s, k);
    StepDebts(l, s, k);
  }

  lemma {:induction false} RunInv(l: Link, schedule: seq<nat>)
    requires l.Valid()
    ensures Inv(l, Run(l, schedule))
  {
    if schedule == [] {
      StartInv(l);
    } else {
      var rest, k := schedule[..|schedule| - 1], schedule[|schedule| - 1];
      RunInv(l, rest);
      var s := Run(l, rest);
      if s.pending != [] {
        StepInv(l, s, k % |s.pending|);
      }
    }
  }

  // ----- Termination -----

  /** The sum of the costs, from 0 to n, of those in a set. */
  ghost function Total(costs: seq<int>, left: set<int>, n: nat): int
    requires n <= |costs|
  {
    if n == 0 then 0 else Total(costs, left, n - 1) + if n - 1 in left then costs[n - 1] else 0
  }

  lemma {:induction false} TotalWithout(costs: seq<int>, left: set<int>, x: int, n: nat)
    requires n <= |costs| && 0 <= x < |costs| && x in left
    ensures Total(costs, left, n) == Total(costs, left - {x}, n) + if x < n then costs[x] else 0
  {
    if n > 0 {
      TotalWithout(costs, left, x, n - 1);
    }
  }

  lemma {:induction false} TotalIsNatural(costs: seq<int>, left: set<int>, n: nat)
    requires n <= |costs| && forall i :: 0 <= i < |costs| ==> costs[i] >= 0
    ensures Total(costs, left, n) >= 0
  {
    if n > 0 {
      TotalIsNatural(costs, left, n - 1);
    }
  }

  ghost function Costs(l: Link): (r: seq<int>)
    ensures |r| == |l.sections| && forall i :: 0 <= i < |r| ==> r[i] == |Actions(l, i)|
  {
    seq(|l.sections|, i requires 0 <= i < |l.sections| => |Actions(l, i)|)
  }

  /** Actions pending and still to come from the sections that are not visited. */
  ghost function Work(l: Link, s: State): (r: int)
    ensures r >= |s.pending|
  {
    TotalIsNatural(Costs(l), l.alive - s.visited, |l.sections|);
    |s.pending| + Total(Costs(l), l.alive - s.visited, |l.sections|)
  }

  lemma StepWork(l: Link, s: State, k: nat, s': State)
    requires k < |s.pending| && s' == Step(l, s, k)
    ensures Work(l, s) == Work(l, s') + 1
  {
    var a := s.pending[k];
    if a.Mark? && Fresh(l, s, a.sec) {
      TotalWithout(Costs(l), l.alive - s.visited, a.sec, |l.sections|);
      assert l.alive - s'.visited == l.alive - s.visited - {a.sec};
    }
  }

  lemma {:induction false} RunLength(l: Link, schedule: seq<nat>)
    requires l.Valid()
    ensures Run(l, schedule).pending != [] ==> |schedule| + Work(l, Run(l, schedule)) == Work(l, Start(l))
  {
    if schedule != [] {
      var rest, k := schedule[..|schedule| - 1], schedule[|schedule| - 1];
      RunLength(l, rest);
      var s := Run(l, rest);
      if s.pending != [] {
        StepWork(l, s, k % |s.pending|, Run(l, schedule));
      }
    }
  }

  /** Marking ends: no schedule can go on for longer than there is work at the start. */
  lemma MarkingEnds(l: Link, schedule: seq<nat>)
    requires l.Valid() && |schedule| >= Work(l, Start(l))
    ensures Done(l, schedule)
  {
    RunLength(l, schedule);
  }

  // ----- What is left when marking ends -----

  ghost predicate Done(l: Link, schedule: seq<nat>)
    requires l.Valid()
  {
    Run(l, schedule).pending == []
  }

  lemma RootIsVisited(l: Link, s: State, x: int)
    requires l.Valid() && Inv(l, s) && s.pending == [] && IsRoot(l, x)
    ensures x in s.order
  {
    StartMarks(l, x);
    assert Owed(l, s, Mark(x));
  }

  lemma {:induction false} ReachedIsVisited(l: Link, s: State, x: int, n: nat)
    requires l.Valid() && Inv(l, s) && s.pending == [] && ReachedIn(l, x, n)
    ensures x in s.order
    decreases n
  {
    if IsRoot(l, x) {
      RootIsVisited(l, s, x);
    } else {
      var y :| Refers(l, y, x) && ReachedIn(l, y, n - 1);
      ReachedIsVisited(l, s, y, n - 1);
      ActionsMark(l, y, x);
      assert AllOwed(l, s, Actions(l, y));
      assert Owed(l, s, Mark(x));
    }
  }

  /** Every schedule visits the reachable sections, each of them once. */
  lemma VisitedIsReachable(l: Link, schedule: seq<nat>)
    requires l.Valid() && Done(l, schedule)
    ensures var order := Run(l, schedule).order;
      && (forall x :: x in order <==> Reachable(l, x))
      && (forall i, j :: 0 <= i < j < |order| ==> order[i] != order[j])
  {
    var s := Run(l, schedule);
    RunInv(l, schedule);
    forall x | Reachable(l, x) ensures x in s.order {
      var n: nat :| ReachedIn(l, x, n);
      ReachedIsVisited(l, s, x, n);
    }
  }

  /** sweep(): the sections that stay alive. */
  function Sweep(l: Link, s: State): set<int> { l.alive * s.visited }

  /** A section survives exactly if it was alive and either is not mapped to memory or is
      reachable, whatever the schedule. */
  lemma Survivors(l: Link, schedule: seq<nat>)
    requires l.Valid() && Done(l, schedule)
    ensures forall x ::
      x in Sweep(l, Run(l, schedule)) <==> x in l.alive && (!l.sections[x].alloc || Reachable(l, x))
  {
    VisitedIsReachable(l, schedule);
    RunInv(l, schedule);
  }

  /** What is kept and what the root symbols are in survives every schedule. */
  lemma RootsSurvive(l: Link, schedule: seq<nat>, x: int)
    requires l.Valid() && Done(l, schedule) && l.Collectable(x)
    requires l.sections[x].keep || exists r :: r in l.roots && r.ToSection? && r.target == x
    ensures x in Sweep(l, Run(l, schedule))
  {
    Survivors(l, schedule);
    assert ReachedIn(l, x, 0);
  }

  lemma StartTouches(l: Link, a: Action)
    requires l.Valid() && !a.Mark?
    ensures a in Start(l).pending <==> a.TouchFragment? && RefOf(a) in l.roots
  {
    var kept := Marks(Kept(l, |l.sections|));
    var roots := RootActions(l.roots);
    assert forall i :: 0 <= i < |kept| ==> kept[i].Mark?;
    if RefOf(a) in l.roots {
      var i :| 0 <= i < |l.roots| && l.roots[i] == RefOf(a);
      assert roots[i] == RootAction(l.roots[i]);
    }
    if a in roots {
      var i :| 0 <= i < |roots| && roots[i] == a;
      assert l.roots[i] == RefOf(a);
    }
  }

  /** A root or a reachable section refers to what the action touches. */
  ghost predicate Wanted(l: Link, a: Action)
    requires !a.Mark?
  {
    || (a.TouchFragment? && RefOf(a) in l.roots)
    || exists y :: Reachable(l, y) && 0 <= y < |l.sections| && RefOf(a) in l.sections[y].rels
  }

  lemma TouchedIsWanted(l: Link, s: State, a: Action)
    requires l.Valid() && Inv(l, s) && !a.Mark? && Settled(l, s, a)
    ensures Wanted(l, a)
  {
    assert Justified(l, s, a);
    StartTouches(l, a);
    if a !in Start(l).pending {
      var y :| y in s.order && 0 <= y < |l.sections| && a in Actions(l, y);
      ActionsTouch(l, y, a);
      assert Reachable(l, y);
    }
  }

  lemma WantedIsTouched(l: Link, s: State, a: Action)
    requires l.Valid() && Inv(l, s) && s.pending == [] && !a.Mark? && Wanted(l, a)
    ensures Settled(l, s, a)
  {
    if a.TouchFragment? && RefOf(a) in l.roots {
      StartTouches(l, a);
      assert Owed(l, s, a);
    } else {
      var y :| Reachable(l, y) && 0 <= y < |l.sections| && RefOf(a) in l.sections[y].rels;
      var n: nat :| ReachedIn(l, y, n);
      ReachedIsVisited(l, s, y, n);
      ActionsTouch(l, y, a);
      assert AllOwed(l, s, Actions(l, y));
      assert Owed(l, s, a);
    }
  }

  /** A fragment is alive exactly if a root or a reachable section refers to it, and a shared
      library is needed exactly if a reachable section does. */
  lemma Touched(l: Link, schedule: seq<nat>, a: Action)
    requires l.Valid() && Done(l, schedule) && !a.Mark?
    ensures Settled(l, Run(l, schedule), a) <==> Wanted(l, a)
  {
    var s := Run(l, schedule);
    RunInv(l, schedule);
    if Settled(l, s, a) {
      TouchedIsWanted(l, s, a);
    } else if Wanted(l, a) {
      WantedIsTouched(l, s, a);
    }
  }
}
