/** Deciding what to remove from a code section. */
module Relax {
  import opened Arith
  import opened Machine
  import opened Shrink

  /** Align: `nops` bytes of NOPs from `offset` on, before an instruction to be put on a multiple of
      `boundary`. Relaxable: an instruction that can be `saves` bytes shorter. */
  datatype Rel =
    | Align(offset: int, boundary: nat, nops: int)
    | Relaxable(offset: int, saves: int)

  /** R_RISCV_ALIGN */
  function RiscvAlign(offset: int, addend: nat): Rel { Align(offset, BitCeil(addend), addend) }

  /** R_LARCH_ALIGN */
  function LoongarchAlign(offset: int, alignment: nat): Rel { Align(offset, alignment, alignment - 4) }

  // ----- When the NOPs suffice -----

  /** The NOPs reach the boundary from p. */
  predicate Reaches(p: nat, boundary: nat, nops: int)
    requires boundary > 0
  {
    AlignTo(p, boundary) <= p + nops
  }

  /** The NOPs reach the boundary from every multiple of g. */
  ghost predicate Suffices(boundary: nat, nops: int, g: nat)
    requires boundary > 0 && g > 0
  {
    forall p: nat :: p % g == 0 ==> Reaches(p, boundary, nops)
  }

  lemma PaddingIsMultiple(p: nat, boundary: nat, g: nat)
    requires PowerOfTwo(boundary) && PowerOfTwo(g) && p % g == 0
    ensures AlignTo(p, boundary) % g == 0
    ensures boundary <= g ==> AlignTo(p, boundary) == p
  {
    if boundary <= g {
      PowersDivide(boundary, g);
      Divides(p, g, boundary);
      ExactAlign(p, boundary);
    } else {
      PowersDivide(g, boundary);
      Divides(AlignTo(p, boundary), boundary, g);
    }
  }

  lemma ExactAlign(p: nat, n: nat)
    requires n > 0 && p % n == 0
    ensures AlignTo(p, n) == p
  {
    if p < AlignTo(p, n) {
      GapOfMultiples(p, AlignTo(p, n), n);
    }
  }

  /** Multiples of n are n or more apart. */
  lemma GapOfMultiples(a: nat, b: nat, n: nat)
    requires n > 0 && a % n == 0 && b % n == 0 && a < b
    ensures a + n <= b
  {
    var x, y := a / n, b / n;
    if y < x { Farther(y, x, n); } else if x < y { Farther(x, y, n); }
  }

  lemma SumOfMultiples(a: int, b: int, n: nat)
    requires n > 0 && a % n == 0 && b % n == 0
    ensures (a + b) % n == 0
  {
    var x, y := a / n, b / n;
    assert (x + y) * n == x * n + y * n;
    Remainder(a + b, n, x + y, 0);
  }

  lemma DifferenceOfMultiples(a: int, b: int, n: nat)
    requires n > 0 && a % n == 0 && b % n == 0
    ensures (a - b) % n == 0
  {
    var x, y := a / n, b / n;
    assert (x - y) * n == x * n - y * n;
    Remainder(a - b, n, x - y, 0);
  }

  lemma SufficesAt(p: nat, boundary: nat, nops: nat, g: nat)
    requires PowerOfTwo(boundary) && PowerOfTwo(g) && p % g == 0 && boundary - nops <= g
    ensures Reaches(p, boundary, nops)
  {
    PaddingIsMultiple(p, boundary, g);
    if boundary > g {
      PowersDivide(g, boundary);
      SumOfMultiples(p, boundary, g);
      GapOfMultiples(AlignTo(p, boundary), p + boundary, g);
    }
  }

  lemma NextMultiple(p: nat, n: nat)
    requires 0 < p < n
    ensures AlignTo(p, n) == n
  {
    var q := AlignTo(p, n);
    ModOf(1, 0, n);
    if q < n {
      GapOfMultiples(0, q, n);
    } else if n < q {
      GapOfMultiples(n, q, n);
    }
  }

  /** From every multiple of g the NOPs suffice, exactly if they are at most g short of the
      boundary's size. */
  lemma NopsSuffice(boundary: nat, nops: int, g: nat)
    requires PowerOfTwo(boundary) && PowerOfTwo(g)
    ensures Suffices(boundary, nops, g) <==> nops >= 0 && boundary - nops <= g
  {
    if nops >= 0 && boundary - nops <= g {
      forall p: nat | p % g == 0 ensures Reaches(p, boundary, nops) {
        SufficesAt(p, boundary, nops, g);
      }
    } else if nops < 0 {
      assert 0 % g == 0 && 0 % boundary == 0;
      ExactAlign(0, boundary);
      assert !Reaches(0, boundary, nops);
    } else {
      NextMultiple(g, boundary);
      assert g % g == 0;
      assert !Reaches(g, boundary, nops);
    }
  }

  /** R_LARCH_ALIGN has enough NOPs from every instruction, exactly if it asks for the size of
      an instruction or more. */
  lemma LoongarchSuffices(offset: int, alignment: nat)
    requires PowerOfTwo(alignment)
    ensures var r := LoongarchAlign(offset, alignment); Suffices(r.boundary, r.nops, 4) <==> alignment >= 4
  {
    assert PowerOfTwo(2) && PowerOfTwo(4);
    NopsSuffice(alignment, alignment - 4, 4);
  }

  lemma DoubleAtLeast(a: nat, b: nat)
    requires PowerOfTwo(a) && PowerOfTwo(b) && a < b
    ensures 2 * a <= b
  {
    PowersDivide(a, b);
    ModOf(1, 0, a);
    assert a % a == 0;
    GapOfMultiples(a, b, a);
  }

  lemma BitCeilUnique(val: nat, a: nat)
    requires PowerOfTwo(a) && 0 < val <= a < 2 * val
    ensures BitCeil(val) == a
  {
    var r := BitCeil(val);
    if r < a {
      DoubleAtLeast(r, a);
    } else if a < r {
      DoubleAtLeast(a, r);
    }
  }

  lemma WideBoundary(a: nat, g: nat, nops: nat)
    requires PowerOfTwo(a) && 2 * g < a && nops == a - g
    ensures BitCeil(nops) == a
  {
    BitCeilUnique(nops, a);
  }

  lemma NarrowBoundary(a: nat, g: nat, nops: nat)
    requires PowerOfTwo(a) && PowerOfTwo(g) && g < a <= 2 * g && nops == a - g
    ensures BitCeil(nops) == g
  {
    DoubleAtLeast(g, a);
    BitCeilUnique(nops, g);
  }

  /** NOPs that can fill up to an a-byte boundary from any multiple of g are a - g bytes. From
      that addend R_RISCV_ALIGN reads the boundary back exactly if a is more than twice g. */
  lemma RiscvReadsBoundary(offset: int, a: nat, g: nat)
    requires PowerOfTwo(a) && PowerOfTwo(g) && g < a
    ensures RiscvAlign(offset, a - g).boundary == a <==> 2 * g < a
  {
    var nops := a - g;
    if 2 * g < a {
      WideBoundary(a, g, nops);
    } else {
      NarrowBoundary(a, g, nops);
    }
  }

  /** From a multiple p of g, the instruction after those NOPs lands on a multiple of a exactly if
      the boundary was read back or p is one already. */
  lemma RiscvLands(a: nat, g: nat, p: nat)
    requires PowerOfTwo(a) && PowerOfTwo(g) && g < a && p % g == 0
    ensures AlignTo(p, RiscvAlign(0, a - g).boundary) % a == 0 <==> 2 * g < a || p % a == 0
  {
    RiscvReadsBoundary(0, a, g);
    if 2 * g >= a {
      NarrowBoundary(a, g, a - g);
      ExactAlign(p, g);
    }
  }

  /** An instruction behind two bytes of NOPs, meant for a 4-byte boundary, stays at 2 mod 4: both
      bytes go. */
  lemma RiscvMisaligns()
    ensures var r := RiscvAlign(0, 2);
      r.boundary == 2 && Removal(0x1002, r, 0) == 2 && (0x1002 + 2 - Removal(0x1002, r, 0)) % 4 == 2
  {
  }

  /** An alignment of one removes minus three bytes: the section grows. */
  lemma LoongarchGrows()
    ensures Removal(0x1000, LoongarchAlign(0, 1), 0) == -3
  {
  }

  // ----- The scan -----

  /** The bytes a relocation may remove. */
  function Extent(r: Rel): int { if r.Align? then r.nops else r.saves }

  predicate Acts(r: Rel) { r.Align? || r.saves > 0 }

  /** What the object file and its architecture promise; g is the size of the smallest
      instruction. */
  ghost predicate WellFormed(rels: seq<Rel>, addr: int, size: int, g: nat) {
    && Placement(addr, size, g)
    && (forall i :: 0 <= i < |rels| ==> RelOk(rels[i], size, g))
    && (forall i, j {:trigger InSequence(rels[i], rels[j])} :: 0 <= i < j < |rels| ==> InSequence(rels[i], rels[j]))
  }

  ghost predicate Placement(addr: int, size: int, g: nat) {
    PowerOfTwo(g) && 0 <= addr && 0 <= size < WORD / 2 && addr + size < WORD && addr % g == 0
  }

  ghost predicate RelOk(r: Rel, size: int, g: nat)
    requires g > 0
  {
    && 0 <= r.offset && 0 <= Extent(r) && r.offset + Extent(r) <= size
    && r.offset % g == 0 && Extent(r) % g == 0
    && (r.Align? ==> PowerOfTwo(r.boundary) && r.boundary - r.nops <= g)
  }

  /** No two relocations touch the same bytes. */
  predicate InSequence(r: Rel, next: Rel) { Acts(next) ==> r.offset + Extent(r) <= next.offset }

  /** How many bytes the relocation removes, when `delta` bytes have been removed before. */
  function Removal(addr: int, r: Rel, delta: int): int {
    match r
    case Relaxable(_, saves) => saves
    case Align(offset, boundary, nops) =>
      var p := U64(addr + offset - delta);
      S64(p + nops - AlignTo(p, boundary))
  }

  lemma NoWrap(p: nat, d: nat)
    requires p < WORD && d < WORD / 2
    ensures U64(p) == p && S64(d) == d
  {
  }

  /** An alignment removes the NOPs that are not needed to reach the boundary. */
  lemma AlignRemoves(addr: int, r: Rel, delta: nat, size: int, g: nat)
    requires Placement(addr, size, g)
    requires r.Align? && RelOk(r, size, g) && delta <= r.offset && delta % g == 0
    ensures var p := addr + r.offset - delta;
      p % g == 0 && 0 <= Removal(addr, r, delta) == p + r.nops - AlignTo(p, r.boundary)
  {
    var p := addr + r.offset - delta;
    SumOfMultiples(addr, r.offset, g);
    DifferenceOfMultiples(addr + r.offset, delta, g);
    SufficesAt(p, r.boundary, r.nops, g);
    var left := p + r.nops - AlignTo(p, r.boundary);
    NoWrap(p, left);
    assert U64(addr + r.offset - delta) == p;
  }

  lemma RemovalFits(addr: int, r: Rel, delta: nat, size: int, g: nat)
    requires Placement(addr, size, g)
    requires RelOk(r, size, g) && delta <= r.offset && delta % g == 0
    ensures 0 <= Removal(addr, r, delta) <= Extent(r) && Removal(addr, r, delta) % g == 0
    ensures r.Align? ==> (addr + r.offset + r.nops - delta - Removal(addr, r, delta)) % r.boundary == 0
  {
    if r.Align? {
      var p := addr + r.offset - delta;
      AlignRemoves(addr, r, delta, size, g);
      PaddingIsMultiple(p, r.boundary, g);
      SumOfMultiples(p, r.nops, g);
      DifferenceOfMultiples(p + r.nops, AlignTo(p, r.boundary), g);
    }
  }

  // ----- The table it builds -----

  lemma SoundWider(d: seq<Delta>, n: int, m: int)
    requires Sound(d, n) && n <= m
    ensures Sound(d, m)
  {
    forall i | 0 <= i < |d| ensures SoundAt(d, i, m) {
      assert SoundAt(d, i, n);
    }
  }

  lemma SoundSnoc(d: seq<Delta>, off: int, removed: int, end: int)
    requires Sound(d, off) && 0 <= off && removed > 0 && off + removed <= end
    ensures Sound(d + [Delta(off, TotalDelta(d) + removed)], end)
  {
    var d' := d + [Delta(off, TotalDelta(d) + removed)];
    forall i | 0 <= i < |d'| ensures SoundAt(d', i, end) {
      if i < |d| {
        assert SoundAt(d, i, off);
      }
    }
  }

  lemma RemovedSnoc(d: seq<Delta>, x: Delta, p: int)
    requires p < x.offset
    ensures Removed(d + [x], p) <==> Removed(d, p)
  {
    forall i: nat | i < |d| ensures Inside(d + [x], i, p) <==> Inside(d, i, p) {
    }
  }

  lemma {:induction false} GoneSnoc(d: seq<Delta>, x: Delta, n: nat)
    requires n <= x.offset
    ensures Gone(d + [x], n) == Gone(d, n)
  {
    if n > 0 {
      GoneSnoc(d, x, n - 1);
      RemovedSnoc(d, x, n - 1);
    }
  }

  lemma {:induction false} GoneAtMost(d: seq<Delta>, n: nat)
    ensures Gone(d, n) <= n
  {
    if n > 0 {
      GoneAtMost(d, n - 1);
    }
  }

  /** The relocation has had its effect: an alignment leaves the next instruction on the
      boundary and fewer NOPs than would reach another, an instruction is as much shorter as
      it can be. */
  ghost predicate Effective(d: seq<Delta>, addr: int, r: Rel)
    requires 0 <= r.offset && 0 <= Extent(r) && (r.Align? ==> r.boundary > 0)
  {
    var a, e := r.offset, r.offset + Extent(r);
    if r.Align? then (addr + e - Gone(d, e)) % r.boundary == 0 && r.nops - (Gone(d, e) - Gone(d, a)) < r.boundary
    else Gone(d, e) - Gone(d, a) == r.saves
  }

  /** A section that moves from addr to a keeps its place relative to the relocation's boundary. */
  ghost predicate SameAlignment(addr: int, a: int, r: Rel) {
    r.Align? ==> r.boundary > 0 && (a - addr) % r.boundary == 0
  }

  lemma MovesAlong(d: seq<Delta>, addr: int, a: int, r: Rel)
    requires 0 <= r.offset && 0 <= Extent(r) && (r.Align? ==> r.boundary > 0)
    requires Effective(d, addr, r) && SameAlignment(addr, a, r)
    ensures Effective(d, a, r)
  {
    if r.Align? {
      var e := r.offset + r.nops;
      SumOfMultiples(addr + e - Gone(d, e), a - addr, r.boundary);
    }
  }

  /** Entry k is for a relocation, and stays within it. */
  ghost predicate HasReason(d: seq<Delta>, k: nat, rels: seq<Rel>)
    requires k < |d|
  {
    exists j :: 0 <= j < |rels| && d[k].offset == rels[j].offset && RemovedBytes(d, k) <= Extent(rels[j])
  }

  ghost predicate Scanned(rels: seq<Rel>, addr: int, size: int, g: nat, i: nat, d: seq<Delta>)
    requires WellFormed(rels, addr, size, g) && i <= |rels|
  {
    && TotalDelta(d) % g == 0 && Sound(d, size)
    && (forall j :: i <= j < |rels| && Acts(rels[j]) ==> Sound(d, rels[j].offset))
    && (forall j :: 0 <= j < i ==> Effective(d, addr, rels[j]))
    && (forall k :: 0 <= k < |d| ==> HasReason(d, k, rels))
  }

  /** remove() */
  function Remove(d: seq<Delta>, off: int, removed: int): seq<Delta> {
    if removed == 0 then d else d + [Delta(off, TotalDelta(d) + removed)]
  }

  lemma RemoveSound(d: seq<Delta>, off: int, removed: int, end: int)
    requires Sound(d, off) && 0 <= off && 0 <= removed && off + removed <= end
    ensures Sound(Remove(d, off, removed), end) && TotalDelta(Remove(d, off, removed)) == TotalDelta(d) + removed
  {
    if removed == 0 {
      SoundWider(d, off, end);
    } else {
      SoundSnoc(d, off, removed, end);
    }
  }

  lemma RemoveGone(d: seq<Delta>, off: int, removed: int, n: nat)
    requires n <= off
    ensures Gone(Remove(d, off, removed), n) == Gone(d, n)
  {
    if removed != 0 {
      GoneSnoc(d, Delta(off, TotalDelta(d) + removed), n);
    }
  }

  lemma StillEffective(d: seq<Delta>, addr: int, r: Rel, off: int, removed: int)
    requires 0 <= r.offset && 0 <= Extent(r) && (r.Align? ==> r.boundary > 0) && r.offset + Extent(r) <= off
    requires Effective(d, addr, r)
    ensures Effective(Remove(d, off, removed), addr, r)
  {
    RemoveGone(d, off, removed, r.offset);
    RemoveGone(d, off, removed, r.offset + Extent(r));
  }

  lemma NowEffective(d: seq<Delta>, addr: int, r: Rel, size: int, g: nat)
    requires Placement(addr, size, g) && RelOk(r, size, g) && Sound(d, r.offset) && TotalDelta(d) % g == 0
    ensures var removed := Removal(addr, r, TotalDelta(d));
      && 0 <= removed <= Extent(r) && removed % g == 0
      && Effective(Remove(d, r.offset, removed), addr, r)
  {
    var delta, e := TotalDelta(d), r.offset + Extent(r);
    TotalGone(d, r.offset);
    GoneAtMost(d, r.offset);
    RemovalFits(addr, r, delta, size, g);
    var removed := Removal(addr, r, delta);
    if r.Align? {
      AlignRemoves(addr, r, delta, size, g);
    }
    var d' := Remove(d, r.offset, removed);
    RemoveSound(d, r.offset, removed, e);
    TotalGone(d', e);
    RemoveGone(d, r.offset, removed, r.offset);
  }

  lemma ReasonsStay(d: seq<Delta>, rels: seq<Rel>, i: nat, removed: int)
    requires i < |rels| && removed <= Extent(rels[i]) && forall k :: 0 <= k < |d| ==> HasReason(d, k, rels)
    ensures var d' := Remove(d, rels[i].offset, removed); forall k :: 0 <= k < |d'| ==> HasReason(d', k, rels)
  {
    var d' := Remove(d, rels[i].offset, removed);
    forall k | 0 <= k < |d'| ensures HasReason(d', k, rels) {
      if k < |d| {
        assert HasReason(d, k, rels);
        var j :| 0 <= j < |rels| && d[k].offset == rels[j].offset && RemovedBytes(d, k) <= Extent(rels[j]);
        assert RemovedBytes(d', k) == RemovedBytes(d, k);
      } else {
        assert RemovedBytes(d', k) == removed;
      }
    }
  }

  lemma ScanActing(rels: seq<Rel>, addr: int, size: int, g: nat, i: nat, d: seq<Delta>)
    requires WellFormed(rels, addr, size, g) && i < |rels| && Scanned(rels, addr, size, g, i, d) && Acts(rels[i])
    ensures Scanned(rels, addr, size, g, i + 1, Remove(d, rels[i].offset, Removal(addr, rels[i], TotalDelta(d))))
  {
    var r, delta := rels[i], TotalDelta(d);
    var removed := Removal(addr, r, delta);
    var d' := Remove(d, r.offset, removed);
    NowEffective(d, addr, r, size, g);
    TotalGone(d, r.offset);
    SumOfMultiples(delta, removed, g);
    RemoveSound(d, r.offset, removed, size);
    forall j | i + 1 <= j < |rels| && Acts(rels[j]) ensures Sound(d', rels[j].offset) {
      assert InSequence(rels[i], rels[j]);
      RemoveSound(d, r.offset, removed, rels[j].offset);
    }
    forall j | 0 <= j < i ensures Effective(d', addr, rels[j]) {
      assert InSequence(rels[j], rels[i]);
      StillEffective(d, addr, rels[j], r.offset, removed);
    }
    ReasonsStay(d, rels, i, removed);
  }

  lemma ScanStep(rels: seq<Rel>, addr: int, size: int, g: nat, i: nat, d: seq<Delta>)
    requires WellFormed(rels, addr, size, g) && i < |rels| && Scanned(rels, addr, size, g, i, d)
    ensures Scanned(rels, addr, size, g, i + 1, Remove(d, rels[i].offset, Removal(addr, rels[i], TotalDelta(d))))
  {
    if Acts(rels[i]) {
      ScanActing(rels, addr, size, g, i, d);
    } else {
      assert RelOk(rels[i], size, g);
    }
  }

  /** shrink_section(). For a section as the architecture promises it, the table of deltas is
      sound, every relocation has its effect, wherever the section is moved by multiples of the
      boundaries, nothing else is removed, and the new size is the number of bytes that stay. */
  method ShrinkSection(rels: seq<Rel>, addr: int, size: int, ghost g: nat) returns (d: seq<Delta>, newSize: int)
    ensures WellFormed(rels, addr, size, g) ==>
      && Sound(d, size) && newSize == size - Gone(d, size)
      && (forall j, a :: 0 <= j < |rels| && SameAlignment(addr, a, rels[j]) ==> Effective(d, a, rels[j]))
      && (forall k :: 0 <= k < |d| ==> HasReason(d, k, rels))
  {
    d := [];
    var delta := 0;
    for i := 0 to |rels|
      invariant delta == TotalDelta(d)
      invariant WellFormed(rels, addr, size, g) ==> Scanned(rels, addr, size, g, i, d)
    {
      if WellFormed(rels, addr, size, g) {
        ScanStep(rels, addr, size, g, i, d);
      }
      var removed := Removal(addr, rels[i], delta);
      if removed != 0 {
        delta := delta + removed;
        d := d + [Delta(rels[i].offset, delta)];
      }
    }
    newSize := size - delta;
    if WellFormed(rels, addr, size, g) {
      TotalGone(d, size);
      forall j, a | 0 <= j < |rels| && SameAlignment(addr, a, rels[j]) ensures Effective(d, a, rels[j]) {
        MovesAlong(d, addr, a, rels[j]);
      }
    }
  }
}
