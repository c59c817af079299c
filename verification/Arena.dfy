/** ArenaResource: a bump allocator with thread-local blocks over a shared offset. Each step is
    one atomic operation of one thread; a run is any interleaving of any allocations. */
module Arena {
  import opened Arith
  import opened Wrappers

  /** The arena of a 64-bit host, in bytes. */
  const SIZE: nat := 0x2_0000_0000
  const BLOCK_SIZE: nat := 64 * 1024
  const BLOCK_ALIGNMENT: nat := 64
  const MAX_LOCAL_ALLOC: nat := BLOCK_SIZE / 4

  datatype Request = Request(size: nat, alignment: nat) {
    predicate Valid() { PowerOfTwo(alignment) }

    /** Offsets count four-byte units, so nothing is aligned to less. */
    function Alignment(): (a: nat)
      requires Valid()
      ensures a >= 4 && PowerOfTwo(a)
    {
      assert PowerOfTwo(4) by { assert PowerOfTwo(2) && PowerOfTwo(1); }
      if alignment < 4 then 4 else alignment
    }

    predicate IsLocal()
      requires Valid()
    {
      size <= MAX_LOCAL_ALLOC && Alignment() <= BLOCK_ALIGNMENT
    }

    /** In four-byte units. */
    function Units(): (n: nat)
      ensures size <= 4 * n < size + 4
    {
      AlignTo(size, 4) / 4
    }
  }

  /** What the call to allocate_global() asks for. */
  function GlobalSize(r: Request): nat
    requires r.Valid()
  {
    if r.IsLocal() then BLOCK_SIZE else r.size
  }

  function GlobalAlignment(r: Request): (a: nat)
    requires r.Valid()
    ensures a > 0
  {
    if r.IsLocal() then BLOCK_ALIGNMENT else r.Alignment()
  }

  // ----- State -----

  /** Bytes begin..begin + size, handed out for a request. */
  datatype Range = Range(begin: nat, request: Request)

  datatype Pc = Idle | Retry(seen: nat, request: Request) | Exited

  /** A thread's block, in four-byte units; pos is zero before it has one. */
  datatype Thread = Thread(pc: Pc, pos: nat, end: nat)

  /** `log` is bookkeeping: everything handed out so far. */
  datatype State = State(offset: nat, threads: seq<Thread>, log: seq<Range>)

  /** A thread takes a step; if it is idle it starts the given call. */
  datatype Turn = Turn(thread: nat, request: Request, spurious: bool)

  function Start(n: nat): State { State(8, seq(n, _ => Thread(Idle, 0, 0)), []) }

  /** Whether the thread's block has room, and where. */
  predicate Fits(th: Thread, r: Request)
    requires r.Valid()
  {
    r.IsLocal() && th.pos != 0 &&
    var begin := AlignTo(th.pos, r.Alignment() / 4);
    begin <= th.end && r.Units() <= th.end - begin
  }

  function Step(s: State, turn: Turn): (s': State)
    requires turn.thread < |s.threads| && turn.request.Valid()
    requires forall t :: 0 <= t < |s.threads| && s.threads[t].pc.Retry? ==> s.threads[t].pc.request.Valid()
    ensures |s'.threads| == |s.threads|
  {
    var t := turn.thread;
    var th := s.threads[t];
    match th.pc
    case Exited => s
    case Idle =>
      var r := turn.request;
      if Fits(th, r) then
        var begin := AlignTo(th.pos, r.Alignment() / 4);
        s.(threads := s.threads[t := th.(pos := begin + r.Units())], log := s.log + [Range(4 * begin, r)])
      else s.(threads := s.threads[t := th.(pc := Retry(s.offset, r))])
    case Retry(seen, r) =>
      var begin := AlignTo(seen, GlobalAlignment(r));
      var end := begin + GlobalSize(r);
      if end > SIZE then s.(threads := s.threads[t := th.(pc := Exited)])
      else if s.offset != seen || turn.spurious then s.(threads := s.threads[t := th.(pc := Retry(s.offset, r))])
      else
        var th' := if r.IsLocal() then Thread(Idle, begin / 4 + r.Units(), begin / 4 + BLOCK_SIZE / 4)
                   else th.(pc := Idle);
        State(end, s.threads[t := th'], s.log + [Range(begin, r)])
  }

  // ----- The invariant -----

  /** Two byte ranges with no byte in common. */
  predicate Apart(b1: int, e1: int, b2: int, e2: int) { b1 >= e1 || b2 >= e2 || e1 <= b2 || e2 <= b1 }

  /** A range as promised: inside the used part of the arena, past its first bytes, aligned. */
  ghost predicate Good(s: State, x: Range) {
    && x.request.Valid() && 8 <= x.begin && x.begin + x.request.size <= s.offset
    && x.begin % x.request.alignment == 0 && x.begin % 4 == 0
  }

  ghost predicate ThreadOk(s: State, th: Thread) {
    && (th.pc.Retry? ==> th.pc.request.Valid())
    && (th.pos != 0 ==> 2 <= th.pos <= th.end && 4 * th.end <= s.offset)
  }

  ghost predicate ThreadsOk(s: State) {
    && (forall t :: 0 <= t < |s.threads| ==> ThreadOk(s, s.threads[t]))
    && (forall t, u :: 0 <= t < u < |s.threads| && s.threads[t].pos != 0 && s.threads[u].pos != 0 ==>
          Apart(4 * s.threads[t].pos, 4 * s.threads[t].end, 4 * s.threads[u].pos, 4 * s.threads[u].end))
  }

  /** The range and what is left of the thread's block do not overlap. */
  ghost predicate Clear(x: Range, th: Thread) {
    th.pos != 0 ==> Apart(x.begin, x.begin + x.request.size, 4 * th.pos, 4 * th.end)
  }

  ghost predicate RangesOk(s: State) {
    && (forall i :: 0 <= i < |s.log| ==> Good(s, s.log[i]))
    && (forall i, t :: 0 <= i < |s.log| && 0 <= t < |s.threads| ==> Clear(s.log[i], s.threads[t]))
    && (forall i, j :: 0 <= i < j < |s.log| ==> Separate(s.log[i], s.log[j]))
  }

  ghost predicate Separate(x: Range, y: Range) {
    Apart(x.begin, x.begin + x.request.size, y.begin, y.begin + y.request.size)
  }

  ghost predicate Inv(s: State) {
    8 <= s.offset <= SIZE && ThreadsOk(s) && RangesOk(s)
  }

  // ----- Alignment -----

  lemma FourAligned(r: Request, x: nat)
    requires r.Valid() && x % r.Alignment() == 0
    ensures x % 4 == 0 && x % r.alignment == 0
  {
    assert PowerOfTwo(4) by { assert PowerOfTwo(2) && PowerOfTwo(1); }
    PowersDivide(4, r.Alignment());
    Divides(x, r.Alignment(), 4);
    PowersDivide(r.alignment, r.Alignment());
    Divides(x, r.Alignment(), r.alignment);
  }

  /** Units aligned to a quarter of the alignment are bytes aligned to the alignment. */
  lemma UnitsAligned(r: Request, pos: nat)
    requires r.Valid()
    ensures r.Alignment() / 4 > 0
    ensures 4 * AlignTo(pos, r.Alignment() / 4) % r.Alignment() == 0
  {
    assert PowerOfTwo(4) by { assert PowerOfTwo(2) && PowerOfTwo(1); }
    var a := r.Alignment();
    PowersDivide(4, a);
    var m := a / 4;
    var b := AlignTo(pos, m);
    var q := b / m;
    assert b == q * m && a == 4 * m;
    assert 4 * b == q * a + 0 by { assert 4 * (q * m) == q * (4 * m); }
    ModOf(q, 0, a);
  }

  lemma BlockAligned(r: Request, x: nat)
    requires r.Valid() && r.IsLocal() && x % BLOCK_ALIGNMENT == 0
    ensures x % 4 == 0 && x % r.alignment == 0
  {
    assert PowerOfTwo(64) by {
      assert PowerOfTwo(1) && PowerOfTwo(2) && PowerOfTwo(4) && PowerOfTwo(8) && PowerOfTwo(16) && PowerOfTwo(32);
    }
    PowersDivide(r.Alignment(), 64);
    Divides(x, 64, r.Alignment());
    FourAligned(r, x);
  }

  // ----- Every step keeps the invariant -----

  lemma StartInv(n: nat)
    ensures Inv(Start(n))
  {
  }

  /** Handing out part of a thread's own block. */
  lemma LocalInv(s: State, t: nat, r: Request, begin: nat)
    requires Inv(s) && t < |s.threads| && r.Valid() && 4 * begin % 4 == 0 && 4 * begin % r.alignment == 0
    requires var th := s.threads[t]; 0 < th.pos <= begin && begin + r.Units() <= th.end
    ensures var th := s.threads[t];
      Inv(s.(threads := s.threads[t := th.(pos := begin + r.Units())], log := s.log + [Range(4 * begin, r)]))
  {
    var th := s.threads[t];
    var th' := th.(pos := begin + r.Units());
    var x := Range(4 * begin, r);
    var s' := s.(threads := s.threads[t := th'], log := s.log + [x]);
    assert ThreadOk(s, th);
    assert Good(s', x);
    forall i | 0 <= i < |s.log| ensures Good(s', s.log[i]) && Separate(s.log[i], x) && Clear(s.log[i], th') {
      assert Good(s, s.log[i]) && Clear(s.log[i], th);
    }
    forall u | 0 <= u < |s'.threads| ensures ThreadOk(s', s'.threads[u]) && Clear(x, s'.threads[u]) {
      assert ThreadOk(s, s.threads[u]);
    }
    forall i, u | 0 <= i < |s'.log| && 0 <= u < |s'.threads| ensures Clear(s'.log[i], s'.threads[u]) {
      if i < |s.log| { assert Clear(s.log[i], s.threads[u]); }
    }
  }

  /** Taking new bytes from the end of the used part. */
  lemma GlobalInv(s: State, t: nat, begin: nat, r: Request)
    requires Inv(s) && t < |s.threads| && r.Valid()
    requires begin == AlignTo(s.offset, GlobalAlignment(r)) && begin + GlobalSize(r) <= SIZE
    ensures var th := s.threads[t];
      var th' := if r.IsLocal() then Thread(Idle, begin / 4 + r.Units(), begin / 4 + BLOCK_SIZE / 4)
                 else th.(pc := Idle);
      Inv(State(begin + GlobalSize(r), s.threads[t := th'], s.log + [Range(begin, r)]))
  {
    var th := s.threads[t];
    var th' := if r.IsLocal() then Thread(Idle, begin / 4 + r.Units(), begin / 4 + BLOCK_SIZE / 4)
               else th.(pc := Idle);
    var x := Range(begin, r);
    var s' := State(begin + GlobalSize(r), s.threads[t := th'], s.log + [x]);
    if r.IsLocal() { BlockAligned(r, begin); } else { FourAligned(r, begin); }
    assert ThreadOk(s, th);
    assert Good(s', x);
    forall i | 0 <= i < |s.log| ensures Good(s', s.log[i]) && Separate(s.log[i], x) && Clear(s.log[i], th') {
      assert Good(s, s.log[i]) && Clear(s.log[i], th);
    }
    forall u | 0 <= u < |s'.threads| ensures ThreadOk(s', s'.threads[u]) && Clear(x, s'.threads[u]) {
      assert ThreadOk(s, s.threads[u]);
    }
    forall u | 0 <= u < |s.threads| && u != t && th'.pos != 0 && s.threads[u].pos != 0
      ensures Apart(4 * th'.pos, 4 * th'.end, 4 * s.threads[u].pos, 4 * s.threads[u].end)
      ensures Apart(4 * s.threads[u].pos, 4 * s.threads[u].end, 4 * th'.pos, 4 * th'.end)
    {
      assert ThreadOk(s, s.threads[u]);
    }
    forall i, u | 0 <= i < |s'.log| && 0 <= u < |s'.threads| ensures Clear(s'.log[i], s'.threads[u]) {
      if i < |s.log| { assert Clear(s.log[i], s.threads[u]); }
    }
  }

  lemma MoveInv(s: State, t: nat, pc: Pc)
    requires Inv(s) && t < |s.threads| && (pc.Retry? ==> pc.request.Valid())
    ensures Inv(s.(threads := s.threads[t := s.threads[t].(pc := pc)]))
  {
    var s' := s.(threads := s.threads[t := s.threads[t].(pc := pc)]);
    forall u | 0 <= u < |s'.threads| ensures ThreadOk(s', s'.threads[u]) { assert ThreadOk(s, s.threads[u]); }
    forall i, u | 0 <= i < |s'.log| && 0 <= u < |s'.threads| ensures Clear(s'.log[i], s'.threads[u]) {
      assert Clear(s.log[i], s.threads[u]);
    }
    forall i | 0 <= i < |s'.log| ensures Good(s', s'.log[i]) { assert Good(s, s.log[i]); }
  }

  lemma IdleInv(s: State, turn: Turn)
    requires Inv(s) && turn.thread < |s.threads| && turn.request.Valid() && s.threads[turn.thread].pc.Idle?
    ensures Inv(Step(s, turn))
  {
    var t, r := turn.thread, turn.request;
    if Fits(s.threads[t], r) {
      FitsInv(s, turn);
    } else {
      MoveInv(s, t, Retry(s.offset, r));
    }
  }

  lemma FitsInv(s: State, turn: Turn)
    requires Inv(s) && turn.thread < |s.threads| && turn.request.Valid() && s.threads[turn.thread].pc.Idle?
    requires Fits(s.threads[turn.thread], turn.request)
    ensures Inv(Step(s, turn))
  {
    var t, r := turn.thread, turn.request;
    var th := s.threads[t];
    var begin := AlignTo(th.pos, r.Alignment() / 4);
    UnitsAligned(r, th.pos);
    FourAligned(r, 4 * begin);
    LocalInv(s, t, r, begin);
  }

  lemma RetryInv(s: State, turn: Turn)
    requires Inv(s) && turn.thread < |s.threads| && turn.request.Valid() && s.threads[turn.thread].pc.Retry?
    ensures Inv(Step(s, turn))
  {
    var t := turn.thread;
    assert ThreadOk(s, s.threads[t]);
    var r, seen := s.threads[t].pc.request, s.threads[t].pc.seen;
    var begin := AlignTo(seen, GlobalAlignment(r));
    if begin + GlobalSize(r) > SIZE {
      MoveInv(s, t, Exited);
    } else if s.offset != seen || turn.spurious {
      MoveInv(s, t, Retry(s.offset, r));
    } else {
      TakeInv(s, turn);
    }
  }

  lemma TakeInv(s: State, turn: Turn)
    requires Inv(s) && turn.thread < |s.threads| && turn.request.Valid() && !turn.spurious
    requires var pc := s.threads[turn.thread].pc;
      && pc.Retry? && pc.seen == s.offset && pc.request.Valid()
      && AlignTo(pc.seen, GlobalAlignment(pc.request)) + GlobalSize(pc.request) <= SIZE
    ensures Inv(Step(s, turn))
  {
    var r := s.threads[turn.thread].pc.request;
    GlobalInv(s, turn.thread, AlignTo(s.offset, GlobalAlignment(r)), r);
  }

  lemma StepInv(s: State, turn: Turn)
    requires Inv(s) && turn.thread < |s.threads| && turn.request.Valid()
    ensures Inv(Step(s, turn))
  {
    match s.threads[turn.thread].pc
    case Exited =>
    case Idle => IdleInv(s, turn);
    case Retry(_, _) => RetryInv(s, turn);
  }

  ghost predicate Playable(n: nat, schedule: seq<Turn>) {
    forall k :: 0 <= k < |schedule| ==> schedule[k].thread < n && schedule[k].request.Valid()
  }

  ghost function Run(n: nat, schedule: seq<Turn>): (s: State)
    requires Playable(n, schedule)
    ensures |s.threads| == n && Inv(s)
  {
    if schedule == [] then StartInv(n); Start(n) else
      var s := Run(n, schedule[..|schedule| - 1]);
      StepInv(s, schedule[|schedule| - 1]);
      Step(s, schedule[|schedule| - 1])
  }

  /** Whatever the threads and their interleaving: what is handed out lies in the arena, past its
      first bytes, aligned as asked, and no two non-empty pieces overlap. */
  lemma AllocationsAreSound(n: nat, schedule: seq<Turn>, i: nat, j: nat)
    requires Playable(n, schedule) && i < |Run(n, schedule).log| && j < |Run(n, schedule).log|
    ensures var x := Run(n, schedule).log[i];
      && 8 <= x.begin && x.begin + x.request.size <= SIZE
      && x.request.alignment > 0 && x.begin % x.request.alignment == 0 && x.begin % 4 == 0
    ensures var x, y := Run(n, schedule).log[i], Run(n, schedule).log[j];
      i != j && x.request.size > 0 && y.request.size > 0 ==>
        x.begin + x.request.size <= y.begin || y.begin + y.request.size <= x.begin
  {
    var s := Run(n, schedule);
    assert Good(s, s.log[i]);
    if i < j { assert Separate(s.log[i], s.log[j]); } else if j < i { assert Separate(s.log[j], s.log[i]); }
  }

  // ----- Whatever fits is granted -----

  /** The bytes from begin on are aligned as asked and to four, and end by `end`. */
  ghost predicate FitsAt(r: Request, begin: nat, end: nat)
    requires r.Valid()
  {
    begin % r.alignment == 0 && begin % 4 == 0 && begin + r.size <= end
  }

  /** Small requests go to a thread's block. */
  predicate IsSmall(r: Request) { r.size <= 0x4000 && r.alignment <= 64 }

  /** There is a place for the request in the thread's block. */
  ghost predicate BlockHasRoom(th: Thread, r: Request)
    requires r.Valid()
  {
    IsSmall(r) && th.pos != 0 && exists begin: nat :: 4 * th.pos <= begin && FitsAt(r, begin, 4 * th.end)
  }

  lemma BothAlignments(r: Request, x: nat)
    requires r.Valid() && x % r.alignment == 0 && x % 4 == 0
    ensures x % r.Alignment() == 0
  {
  }

  /** The least aligned place fits if any does. */
  lemma FitsIffRoom(th: Thread, r: Request)
    requires r.Valid()
    ensures Fits(th, r) <==> BlockHasRoom(th, r)
  {
    var a := r.Alignment();
    UnitsAligned(r, th.pos);
    var b := AlignTo(th.pos, a / 4);
    FourAligned(r, 4 * b);
    if Fits(th, r) {
      assert FitsAt(r, 4 * b, 4 * th.end);
    }
    if BlockHasRoom(th, r) {
      var begin: nat :| 4 * th.pos <= begin && FitsAt(r, begin, 4 * th.end);
      BothAlignments(r, begin);
      LeastPlace(th.pos, begin, a);
    }
  }

  lemma QuarterMultiple(x: nat, m: nat)
    requires m > 0 && x % (4 * m) == 0
    ensures x % 4 == 0 && x / 4 % m == 0
  {
    var q := x / (4 * m);
    assert x == q * (4 * m);
    assert q * (4 * m) == 4 * (q * m);
    ModOf(q, 0, m);
  }

  lemma LeastPlace(pos: nat, begin: nat, a: nat)
    requires PowerOfTwo(a) && a >= 4 && begin % a == 0 && 4 * pos <= begin
    ensures a / 4 > 0 && 4 * AlignTo(pos, a / 4) <= begin
  {
    assert PowerOfTwo(4) by { assert PowerOfTwo(2) && PowerOfTwo(1); }
    PowersDivide(4, a);
    QuarterMultiple(begin, a / 4);
    LeastMultiple(pos, a / 4, begin / 4);
  }

  /** The request fits in the thread's block or, for a new block or alone, in the rest of the arena. */
  ghost predicate HasRoom(s: State, t: nat, r: Request)
    requires t < |s.threads| && r.Valid()
  {
    || BlockHasRoom(s.threads[t], r)
    || (IsSmall(r) && AlignTo(s.offset, 64) + 0x1_0000 <= 0x2_0000_0000)
    || (!IsSmall(r) && AlignTo(s.offset, r.Alignment()) + r.size <= 0x2_0000_0000)
  }

  ghost predicate Granted(log: seq<Range>, log': seq<Range>, r: Request) {
    exists begin :: log' == log + [Range(begin, r)]
  }

  /** Nobody else interfering, a call is granted within two steps exactly if there is room. */
  lemma GrantedIffRoom(s: State, t: nat, r: Request)
    requires Inv(s) && t < |s.threads| && r.Valid() && s.threads[t].pc.Idle?
    ensures var turn := Turn(t, r, false);
      var s' := if Fits(s.threads[t], r) then Step(s, turn) else (StepInv(s, turn); Step(Step(s, turn), turn));
      if HasRoom(s, t, r) then s'.threads[t].pc.Idle? && Granted(s.log, s'.log, r)
      else s'.threads[t].pc.Exited? && s'.log == s.log
  {
    StepInv(s, Turn(t, r, false));
    FitsIffRoom(s.threads[t], r);
  }

  /** Where: in the block at its first place that fits; else at the first aligned offset, where a
      small request takes a block of 64 KiB for the thread. */
  lemma GrantedWhere(s: State, t: nat, r: Request, b: nat)
    requires Inv(s) && t < |s.threads| && r.Valid() && s.threads[t].pc.Idle? && HasRoom(s, t, r)
    ensures var turn := Turn(t, r, false);
      var s' := if Fits(s.threads[t], r) then Step(s, turn) else (StepInv(s, turn); Step(Step(s, turn), turn));
      && |s'.log| == |s.log| + 1
      && var begin := s'.log[|s.log|].begin;
         if BlockHasRoom(s.threads[t], r) then
           && s'.offset == s.offset && 4 * s.threads[t].pos <= begin
           && (4 * s.threads[t].pos <= b && FitsAt(r, b, 4 * s.threads[t].end) ==> begin <= b)
         else if IsSmall(r) then
           begin == AlignTo(s.offset, 64) && 4 * s'.threads[t].end == s'.offset == begin + 0x1_0000
         else
           begin == AlignTo(s.offset, r.Alignment()) && s'.offset == begin + r.size
  {
    StepInv(s, Turn(t, r, false));
    FitsIffRoom(s.threads[t], r);
    if 4 * s.threads[t].pos <= b && FitsAt(r, b, 4 * s.threads[t].end) {
      BothAlignments(r, b);
      LeastPlace(s.threads[t].pos, b, r.Alignment());
    }
    if IsSmall(r) { BlockAligned(r, AlignTo(s.offset, 64)); }
  }

  // ----- Self-relative pointers -----

  /** ArenaPtr::operator=: the stored offset, in four-byte units; zero stands for null. */
  function Encode(place: int, target: Option<int>): int {
    if target.None? then 0 else (target.value - place) / 4
  }

  function Decode(place: int, offset: int): Option<int> { if offset == 0 then None else Some(place + 4 * offset) }

  predicate IsInt32(x: int) { -0x8000_0000 <= x < 0x8000_0000 }

  /** From one four-byte place of the arena to another, the offset fits, and it leads back to the
      target exactly if the target is not the pointer itself. */
  lemma OffsetLeadsBack(place: int, target: int)
    requires 0 < place < SIZE && 0 < target < SIZE && place % 4 == 0 && target % 4 == 0
    ensures IsInt32(Encode(place, Some(target))) && 4 * Encode(place, Some(target)) == target - place
    ensures Decode(place, Encode(place, Some(target))) == Some(target) <==> place != target
  {
  }

  /** A four-byte field at this place lies in the range. */
  predicate FieldOf(x: Range, place: int) {
    x.begin <= place && place + 4 <= x.begin + x.request.size && place % 4 == 0
  }

  /** In every run, a pointer in one allocation to another is never taken for null, its offset is a
      signed 32-bit number, and it leads to the other's first byte, whose index from the arena's
      start is a non-zero 32-bit number. A null pointer stays null. */
  lemma PointersRoundTrip(n: nat, schedule: seq<Turn>, i: nat, j: nat, place: int)
    requires Playable(n, schedule) && i < |Run(n, schedule).log| && j < |Run(n, schedule).log| && i != j
    requires FieldOf(Run(n, schedule).log[i], place) && Run(n, schedule).log[j].request.size > 0
    ensures var target := Run(n, schedule).log[j].begin;
      && IsInt32(Encode(place, Some(target))) && Encode(place, Some(target)) != 0
      && Decode(place, Encode(place, Some(target))) == Some(target)
      && 0 < target / 4 < 0x1_0000_0000 && 4 * (target / 4) == target
    ensures Decode(place, Encode(place, None)) == None
  {
    AllocationsAreSound(n, schedule, i, j);
    AllocationsAreSound(n, schedule, j, i);
    OffsetLeadsBack(place, Run(n, schedule).log[j].begin);
  }
}
